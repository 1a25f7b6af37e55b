/**
 Block materials of the voxel world and the classifier that decides which of
 them take part in group toggling: the wooden door kinds, and not iron doors.
 */
module Materials {

  /** The door kinds the classifier names, the iron door it leaves out, empty
      space, and every other block of the catalog under one constructor. */
  datatype Material =
    | OakDoor | SpruceDoor | BirchDoor | JungleDoor | AcaciaDoor | DarkOakDoor
    | MangroveDoor | CherryDoor | BambooDoor | CrimsonDoor | WarpedDoor
    | IronDoor
    | Air
    | OtherBlock(name: string)

  /** The eleven wooden door materials, listed independently of the classifier. */
  const WoodenDoors: set<Material> :=
    {OakDoor, SpruceDoor, BirchDoor, JungleDoor, AcaciaDoor, DarkOakDoor,
     MangroveDoor, CherryDoor, BambooDoor, CrimsonDoor, WarpedDoor}

  /** True for the wooden doors only; see `EligibleAreWoodenDoors`. */
  predicate IsDoorButNotIron(m: Material) {
    match m
    case OakDoor | SpruceDoor | BirchDoor | JungleDoor | AcaciaDoor | DarkOakDoor
       | MangroveDoor | CherryDoor | BambooDoor | CrimsonDoor | WarpedDoor => true
    case _ => false
  }

  /** The classifier accepts exactly the eleven wooden doors: iron doors, air
      and every other block are rejected. */
  lemma EligibleAreWoodenDoors(m: Material)
    ensures IsDoorButNotIron(m) <==> m in WoodenDoors
    ensures m == IronDoor || m == Air || m.OtherBlock? ==> !IsDoorButNotIron(m)
    ensures |WoodenDoors| == 11
  {
  }
}
