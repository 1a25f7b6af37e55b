/**
 The entry points: open or close the whole cluster around a clicked door, and
 the interaction handler that picks which of the two to run.
 */
module Interact {
  import opened Materials
  import opened Grid
  import opened DoorHalves
  import opened Reach
  import opened Lists
  import opened Search
  import opened Toggle

  /** The bottoms of every door connected to the clicked door's bottom half:
      the cells a click drives to one state. */
  ghost function Cluster(w: World, clicked: Cell): set<Cell> {
    BottomsOf(w, ReachableDoors(w, DoorBottom(w, clicked)))
  }

  /** A clicked eligible door that is its own bottom belongs to its cluster. */
  lemma ClickedBottomInCluster(w: World, clicked: Cell)
    requires IsDoor(w, clicked) && DoorBottom(w, clicked) == clicked
    ensures clicked in Cluster(w, clicked)
  {
    ReachableDoorsOfStart(w, clicked);
  }

  /** In a world of doors at most two tall, clicking any member of a cluster
      addresses the same cluster; this is why a second click on any of its
      doors reverses the first. */
  lemma ClusterSharedByMembers(w: World, clicked: Cell, d: Cell)
    requires DoorsAtMostTwoTall(w)
    requires d in Cluster(w, clicked)
    ensures Cluster(w, d) == Cluster(w, clicked)
  {
    var start := DoorBottom(w, clicked);
    var x :| x in ReachableDoors(w, start) && IsDoor(w, x) && DoorBottom(w, x) == d;
    BottomReachable(w, start, x);
    DoorBottomIdempotent(w, x);
    ReachableDoorsShared(w, start, d);
  }

  /** Resolves the clicked cell to its bottom, searches from there and drives
      every door found to `target`. Every cluster door with door data ends in
      `target`, every other cell keeps its state, exactly the cluster doors not
      yet in `target` are written, once each, and a cluster already in `target`
      is left as it is. */
  method ToggleCluster(w: World, s: DoorState, clicked: Cell, target: bool) returns (r: Pass)
    ensures r.state.Keys == s.Keys
    ensures forall c :: c in s ==> r.state[c] == (if c in Cluster(w, clicked) then target else s[c])
    ensures forall c :: c in r.written <==> c in Cluster(w, clicked) && c in s && s[c] != target
    ensures NoDuplicates(r.written)
    ensures (forall c :: c in Cluster(w, clicked) && c in s ==> s[c] == target) ==> r == Pass(s, [])
  {
    var doorBlock := DoorBottom(w, clicked);
    var doors, checked, order := FindConnectedDoors(w, doorBlock);
    assert forall c :: c in doors <==> c in Cluster(w, clicked);
    r := ApplyAll(s, doors, target);
  }

  /** Opens the cluster around the clicked door. */
  method OpenAdjacentDoors(w: World, s: DoorState, clicked: Cell) returns (r: Pass)
    ensures r.state.Keys == s.Keys
    ensures forall c :: c in s ==> r.state[c] == (c in Cluster(w, clicked) || s[c])
    ensures forall c :: c in r.written <==> c in Cluster(w, clicked) && c in s && !s[c]
    ensures NoDuplicates(r.written)
  {
    r := ToggleCluster(w, s, clicked, true);
  }

  /** Closes the cluster around the clicked door. */
  method CloseAdjacentDoors(w: World, s: DoorState, clicked: Cell) returns (r: Pass)
    ensures r.state.Keys == s.Keys
    ensures forall c :: c in s ==> r.state[c] == (c !in Cluster(w, clicked) && s[c])
    ensures forall c :: c in r.written <==> c in Cluster(w, clicked) && c in s && s[c]
    ensures NoDuplicates(r.written)
  {
    r := ToggleCluster(w, s, clicked, false);
  }

  /** Handles a right click on a block. A cell that is not an eligible door, or
      that carries no door data, changes nothing. Otherwise the target is the
      opposite of the clicked door's current state, and the whole cluster is
      driven to it; a clicked bottom half itself always flips. */
  method OnPlayerInteract(w: World, s: DoorState, clicked: Cell) returns (r: Pass)
    ensures !IsDoor(w, clicked) || clicked !in s ==> r == Pass(s, [])
    ensures IsDoor(w, clicked) && clicked in s ==>
              && r.state.Keys == s.Keys
              && (forall c :: c in s ==>
                    r.state[c] == (if c in Cluster(w, clicked) then !s[clicked] else s[c]))
              && (forall c :: c in r.written <==> c in Cluster(w, clicked) && c in s && s[c] == s[clicked])
              && NoDuplicates(r.written)
    ensures IsDoor(w, clicked) && clicked in s && DoorBottom(w, clicked) == clicked ==>
              r.state[clicked] == !s[clicked]
  {
    if !IsDoorButNotIron(MaterialAt(w, clicked)) {
      return Pass(s, []);
    }
    if clicked !in s {
      return Pass(s, []);
    }
    var isCurrentlyOpen := s[clicked];
    if DoorBottom(w, clicked) == clicked {
      ClickedBottomInCluster(w, clicked);
    }
    if isCurrentlyOpen {
      r := CloseAdjacentDoors(w, s, clicked);
    } else {
      r := OpenAdjacentDoors(w, s, clicked);
    }
  }
}
