/**
 Small concrete worlds on which the cluster a click addresses is worked out
 exactly: a row of doors next to an unrelated one, diagonal doors, a door
 behind an iron door, and a two-cell door clicked at its upper half.
 */
module Scenarios {
  import opened Materials
  import opened Grid
  import opened DoorHalves
  import opened Reach
  import opened Search
  import opened Interact
  import opened Lists
  import opened Discovery

  /** A cell with nothing eligible underneath is its own bottom. */
  lemma NoDoorBelow(w: World, c: Cell)
    requires !IsDoor(w, c.Below())
    ensures DoorBottom(w, c) == c
  {
  }

  /** Three oak doors in a row along x, and a lone oak door further away. */
  const RowWorld: World :=
    map[Cell(0, 0, 0) := OakDoor, Cell(1, 0, 0) := OakDoor, Cell(2, 0, 0) := OakDoor,
        Cell(10, 0, 0) := OakDoor]

  const Row: set<Cell> := {Cell(0, 0, 0), Cell(1, 0, 0), Cell(2, 0, 0)}

  lemma RowClosed()
    ensures ClosedUnderDoorSteps(RowWorld, Row)
  {
    forall c, n | c in Row && IsDoor(RowWorld, c) && IsDoor(RowWorld, n) && FaceAdjacent(c, n)
      ensures n in Row
    {
      assert n in RowWorld.Keys;
    }
    ClosedByAdjacency(RowWorld, Row);
  }

  lemma RowConnected()
    ensures forall x :: x in Row ==> Reachable(RowWorld, Cell(0, 0, 0), x)
  {
    var w := RowWorld;
    assert Reachable(w, Cell(0, 0, 0), Cell(1, 0, 0)) by {
      assert IsDoor(w, Cell(1, 0, 0)) && FaceAdjacent(Cell(0, 0, 0), Cell(1, 0, 0));
      ReachableSelf(w, Cell(0, 0, 0));
      ReachableStep(w, Cell(0, 0, 0), Cell(0, 0, 0), Cell(1, 0, 0));
    }
    assert Reachable(w, Cell(0, 0, 0), Cell(2, 0, 0)) by {
      assert IsDoor(w, Cell(2, 0, 0)) && FaceAdjacent(Cell(1, 0, 0), Cell(2, 0, 0));
      ReachableStep(w, Cell(0, 0, 0), Cell(1, 0, 0), Cell(2, 0, 0));
    }
    ReachableSelf(w, Cell(0, 0, 0));
  }

  lemma RowReachable()
    ensures ReachableDoors(RowWorld, Cell(0, 0, 0)) == Row
  {
    RowClosed();
    RowConnected();
    ReachableDoorsExactly(RowWorld, Row, Cell(0, 0, 0));
  }

  /** A set of eligible doors that are all bottom halves is its own set of bottoms. */
  lemma BottomsOfBottoms(w: World, s: set<Cell>)
    requires forall d :: d in s ==> IsDoor(w, d) && DoorBottom(w, d) == d
    ensures BottomsOf(w, s) == s
  {
    forall d | d in s
      ensures d in BottomsOf(w, s)
    {
      assert IsDoor(w, d) && DoorBottom(w, d) == d;
    }
  }

  /** Every door of the row is a bottom half. */
  lemma RowBottoms()
    ensures BottomsOf(RowWorld, Row) == Row
  {
    var w := RowWorld;
    forall d | d in Row
      ensures IsDoor(w, d) && DoorBottom(w, d) == d
    {
      assert d.Below() !in w;
      NoDoorBelow(w, d);
    }
    BottomsOfBottoms(w, Row);
  }

  /** Clicking the first door of the row addresses the whole row and never the
      distant door. */
  lemma RowCluster()
    ensures Cluster(RowWorld, Cell(0, 0, 0)) == Row
    ensures Cell(10, 0, 0) !in Cluster(RowWorld, Cell(0, 0, 0))
  {
    assert MaterialAt(RowWorld, Cell(0, -1, 0)) == Air;
    NoDoorBelow(RowWorld, Cell(0, 0, 0));
    RowReachable();
    RowBottoms();
  }

  /** Three cells in a line along x, the first two eligible doors, examined
      from the west end: each was discovered by the one before it from that
      door's first (eastward) slot, so this is a discovery order. */
  lemma EastwardLineDiscoveryOrder(w: World, a: Cell)
    requires IsDoor(w, a) && IsDoor(w, a.Relative(1, 0, 0))
    ensures DiscoveryOrdered(w, [a, a.Relative(1, 0, 0), a.Relative(2, 0, 0)])
  {
    var b, c := a.Relative(1, 0, 0), a.Relative(2, 0, 0);
    var o := [a, b, c];
    assert Neighbours(a)[0] == b && Neighbours(b)[0] == c;
    NeighbourSlot(a, 0);
    NeighbourSlot(b, 0);
    assert !FaceAdjacent(a, c);
    assert ParentIndex(w, o, b) == 0;
    assert ParentIndex(w, o[1..], c) == 0;
    assert ParentIndex(w, o, c) == 1;
    assert DiscoveryKey(w, o, o[1]) == 0;
    assert DiscoveryKey(w, o, o[2]) == 6;
  }

  /** The row examined from its first door, one door after the other, is a
      discovery order. */
  lemma RowDiscoveryOrder()
    ensures DiscoveryOrdered(RowWorld, [Cell(0, 0, 0), Cell(1, 0, 0), Cell(2, 0, 0)])
  {
    assert IsDoor(RowWorld, Cell(0, 0, 0)) && IsDoor(RowWorld, Cell(1, 0, 0)) by {
      assert MaterialAt(RowWorld, Cell(0, 0, 0)) == OakDoor && MaterialAt(RowWorld, Cell(1, 0, 0)) == OakDoor;
    }
    EastwardLineDiscoveryOrder(RowWorld, Cell(0, 0, 0));
  }

  /** Any duplicate-free discovery order of the row from its first door
      examines the doors from west to east. */
  lemma RowOrderForced(order: seq<Cell>)
    requires DiscoveryOrdered(RowWorld, order) && NoDuplicates(order)
    requires forall c :: c in order <==> c in Row
    requires |order| > 0 && order[0] == Cell(0, 0, 0)
    ensures order == [Cell(0, 0, 0), Cell(1, 0, 0), Cell(2, 0, 0)]
  {
    var row := [Cell(0, 0, 0), Cell(1, 0, 0), Cell(2, 0, 0)];
    RowDiscoveryOrder();
    assert forall c :: c in row <==> c in Row;
    DiscoveryOrderUnique(RowWorld, order, row);
  }

  /** Eligible doors that are all bottom halves are their own bottoms along
      any list of them. */
  lemma {:induction false} BottomsAlongBottoms(w: World, s: seq<Cell>)
    requires forall i :: 0 <= i < |s| ==> IsDoor(w, s[i]) && DoorBottom(w, s[i]) == s[i]
    ensures BottomsAlong(w, s) == s
    decreases |s|
  {
    if s != [] {
      var init := s[..|s| - 1];
      assert forall i :: 0 <= i < |init| ==> init[i] == s[i];
      BottomsAlongBottoms(w, init);
      assert BottomsAlong(w, s) == BottomsAlong(w, init) + [DoorBottom(w, s[|s| - 1])];
    }
  }

  /** The row's doors, taken west to east, have themselves as bottoms, each once. */
  lemma RowResultAlong()
    ensures FirstOccurrences(BottomsAlong(RowWorld, [Cell(0, 0, 0), Cell(1, 0, 0), Cell(2, 0, 0)]))
            == [Cell(0, 0, 0), Cell(1, 0, 0), Cell(2, 0, 0)]
  {
    var w := RowWorld;
    var row := [Cell(0, 0, 0), Cell(1, 0, 0), Cell(2, 0, 0)];
    forall i | 0 <= i < |row|
      ensures IsDoor(w, row[i]) && DoorBottom(w, row[i]) == row[i]
    {
      assert row[i].Below() !in w;
      NoDoorBelow(w, row[i]);
    }
    BottomsAlongBottoms(w, row);
    FirstOccurrencesOfDistinct(row);
  }

  /** The search from the first door of the row returns the three doors in the
      order it reaches them. */
  method RowSearchOrder() returns (result: seq<Cell>)
    ensures result == [Cell(0, 0, 0), Cell(1, 0, 0), Cell(2, 0, 0)]
  {
    var visited;
    ghost var order;
    result, visited, order := FindConnectedDoors(RowWorld, Cell(0, 0, 0));
    RowReachable();
    RowOrderForced(order);
    RowResultAlong();
  }

  /** Two doors touching only along an edge. */
  const DiagonalWorld: World := map[Cell(0, 0, 0) := OakDoor, Cell(1, 1, 0) := OakDoor]

  /** Diagonal contact does not connect doors. */
  lemma DiagonalNotConnected()
    ensures ReachableDoors(DiagonalWorld, Cell(0, 0, 0)) == {Cell(0, 0, 0)}
  {
    ReachableSelf(DiagonalWorld, Cell(0, 0, 0));
    forall c, n | c in {Cell(0, 0, 0)} && IsDoor(DiagonalWorld, c) && IsDoor(DiagonalWorld, n) && FaceAdjacent(c, n)
      ensures n in {Cell(0, 0, 0)}
    {
      assert n in DiagonalWorld.Keys;
    }
    ClosedByAdjacency(DiagonalWorld, {Cell(0, 0, 0)});
    ReachableDoorsExactly(DiagonalWorld, {Cell(0, 0, 0)}, Cell(0, 0, 0));
  }

  /** Two oak doors with an iron door between them. */
  const IronBetweenWorld: World :=
    map[Cell(0, 0, 0) := OakDoor, Cell(1, 0, 0) := IronDoor, Cell(2, 0, 0) := OakDoor]

  /** The search neither includes an iron door nor passes through it. */
  lemma IronDoorBlocks()
    ensures ReachableDoors(IronBetweenWorld, Cell(0, 0, 0)) == {Cell(0, 0, 0)}
  {
    ReachableSelf(IronBetweenWorld, Cell(0, 0, 0));
    forall c, n | c in {Cell(0, 0, 0)} && IsDoor(IronBetweenWorld, c) && IsDoor(IronBetweenWorld, n) && FaceAdjacent(c, n)
      ensures n in {Cell(0, 0, 0)}
    {
      assert n in IronBetweenWorld.Keys;
    }
    ClosedByAdjacency(IronBetweenWorld, {Cell(0, 0, 0)});
    ReachableDoorsExactly(IronBetweenWorld, {Cell(0, 0, 0)}, Cell(0, 0, 0));
  }

  /** One oak door two cells tall. */
  const TallDoorWorld: World := map[Cell(0, 0, 0) := OakDoor, Cell(0, 1, 0) := OakDoor]

  const TallDoor: set<Cell> := {Cell(0, 0, 0), Cell(0, 1, 0)}

  lemma TallDoorClosed()
    ensures ClosedUnderDoorSteps(TallDoorWorld, TallDoor)
  {
    forall c, n | c in TallDoor && IsDoor(TallDoorWorld, c) && IsDoor(TallDoorWorld, n)
                  && FaceAdjacent(c, n)
      ensures n in TallDoor
    {
      assert n in TallDoorWorld.Keys;
    }
    ClosedByAdjacency(TallDoorWorld, TallDoor);
  }

  lemma TallDoorConnected()
    ensures forall x :: x in TallDoor ==> Reachable(TallDoorWorld, Cell(0, 0, 0), x)
  {
    var w := TallDoorWorld;
    assert IsDoor(w, Cell(0, 1, 0)) && FaceAdjacent(Cell(0, 0, 0), Cell(0, 1, 0));
    ReachableSelf(w, Cell(0, 0, 0));
    ReachableStep(w, Cell(0, 0, 0), Cell(0, 0, 0), Cell(0, 1, 0));
  }

  lemma TallDoorReachable()
    ensures ReachableDoors(TallDoorWorld, Cell(0, 0, 0)) == TallDoor
  {
    TallDoorClosed();
    TallDoorConnected();
    ReachableDoorsExactly(TallDoorWorld, TallDoor, Cell(0, 0, 0));
  }

  lemma UpperHalfResolves()
    ensures DoorBottom(TallDoorWorld, Cell(0, 1, 0)) == Cell(0, 0, 0)
    ensures DoorBottom(TallDoorWorld, Cell(0, 0, 0)) == Cell(0, 0, 0)
  {
    var w := TallDoorWorld;
    assert MaterialAt(w, Cell(0, 0, 0)) == OakDoor && MaterialAt(w, Cell(0, 1, 0)) == OakDoor;
    assert MaterialAt(w, Cell(0, -1, 0)) == Air;
    NoDoorBelow(w, Cell(0, 0, 0));
    assert HasDoorHalfBelow(w, Cell(0, 1, 0));
  }

  /** Clicking the upper half addresses the lower half only. */
  lemma UpperHalfClick()
    ensures DoorBottom(TallDoorWorld, Cell(0, 1, 0)) == Cell(0, 0, 0)
    ensures Cluster(TallDoorWorld, Cell(0, 1, 0)) == {Cell(0, 0, 0)}
  {
    UpperHalfResolves();
    TallDoorReachable();
  }
}
