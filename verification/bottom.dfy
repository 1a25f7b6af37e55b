/**
 Resolution of a two-cell door to its canonical bottom cell.
 */
module DoorHalves {
  import opened Materials
  import opened Grid

  /** The cell below holds the same material as `c` and is an eligible door:
      `c` is the upper half of a door. */
  predicate HasDoorHalfBelow(w: World, c: Cell) {
    MaterialAt(w, c.Below()) == MaterialAt(w, c) && IsDoor(w, c.Below())
  }

  /** Moves from an upper half to the lower half by looking one cell down;
      anything else stays where it is. The move is at most one step and only
      downwards; the material never changes and eligibility is kept. */
  function DoorBottom(w: World, c: Cell): (r: Cell)
    ensures r == c || r == c.Below()
    ensures r == c.Below() <==> HasDoorHalfBelow(w, c)
    ensures MaterialAt(w, r) == MaterialAt(w, c)
    ensures IsDoor(w, r) <==> IsDoor(w, c)
  {
    var below := c.Relative(0, -1, 0);
    if MaterialAt(w, below) == MaterialAt(w, c) && IsDoorButNotIron(MaterialAt(w, below))
    then below
    else c
  }

  /** No eligible door is three same-material cells tall: a door cell that has a
      half below it is not itself on top of a two-cell stack. */
  ghost predicate DoorsAtMostTwoTall(w: World) {
    forall c :: HasDoorHalfBelow(w, c) ==> !HasDoorHalfBelow(w, c.Below())
  }

  /** In a world of doors at most two tall, resolving twice is resolving once. */
  lemma DoorBottomIdempotent(w: World, c: Cell)
    requires DoorsAtMostTwoTall(w)
    ensures DoorBottom(w, DoorBottom(w, c)) == DoorBottom(w, c)
  {
    if HasDoorHalfBelow(w, c) {
      assert !HasDoorHalfBelow(w, c.Below());
    }
  }

  /** The upper and the lower half of a two-cell door resolve to the same cell,
      the lower half. */
  lemma HalvesResolveAlike(w: World, top: Cell)
    requires DoorsAtMostTwoTall(w)
    requires IsDoor(w, top) && MaterialAt(w, top.Below()) == MaterialAt(w, top)
    ensures DoorBottom(w, top) == top.Below()
    ensures DoorBottom(w, top.Below()) == top.Below()
  {
    assert HasDoorHalfBelow(w, top);
    assert !HasDoorHalfBelow(w, top.Below());
  }

  /** Without the two-tall assumption resolution is not idempotent: in a column
      of three oak doors the top cell resolves to the middle one, which in turn
      resolves to the lowest one. */
  lemma ThreeTallColumnNotIdempotent()
    ensures var w := map[Cell(0, 0, 0) := OakDoor, Cell(0, 1, 0) := OakDoor, Cell(0, 2, 0) := OakDoor];
            && DoorBottom(w, Cell(0, 2, 0)) == Cell(0, 1, 0)
            && DoorBottom(w, DoorBottom(w, Cell(0, 2, 0))) == Cell(0, 0, 0)
  {
  }
}
