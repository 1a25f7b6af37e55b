/**
 Face-connectivity through eligible door cells: the relation the search
 explores, stated as chains of cells independently of any search order.
 */
module Reach {
  import opened Grid

  /** The `i`-th step of `p` moves to a face neighbour. */
  ghost predicate StepAdjacent(p: seq<Cell>, i: int)
    requires 0 <= i < |p| - 1
  {
    FaceAdjacent(p[i], p[i + 1])
  }

  /** `p` is a walk from `from` to `to` made only of eligible door cells, each
      step moving to a face neighbour. */
  ghost predicate DoorChain(w: World, p: seq<Cell>, from: Cell, to: Cell) {
    && |p| > 0
    && p[0] == from
    && p[|p| - 1] == to
    && (forall i :: 0 <= i < |p| ==> IsDoor(w, p[i]))
    && (forall i :: 0 <= i < |p| - 1 ==> StepAdjacent(p, i))
  }

  ghost predicate Reachable(w: World, from: Cell, to: Cell) {
    exists p :: DoorChain(w, p, from, to)
  }

  /** The eligible door cells face-connected to `start` through eligible door
      cells; empty when `start` itself is not an eligible door. */
  ghost function ReachableDoors(w: World, start: Cell): (r: set<Cell>)
    ensures forall d :: d in r <==> Reachable(w, start, d)
  {
    set d | d in DoorCells(w) && Reachable(w, start, d)
  }

  /** A chain begins at its start, so nothing is reachable from a cell that is
      not an eligible door, and an eligible door reaches at least itself. */
  lemma ReachableDoorsOfStart(w: World, start: Cell)
    ensures !IsDoor(w, start) ==> ReachableDoors(w, start) == {}
    ensures IsDoor(w, start) ==> start in ReachableDoors(w, start)
  {
    if IsDoor(w, start) {
      ReachableSelf(w, start);
    }
  }

  /** An eligible door is reachable from itself. */
  lemma ReachableSelf(w: World, c: Cell)
    requires IsDoor(w, c)
    ensures Reachable(w, c, c)
  {
    assert DoorChain(w, [c], c, c);
  }

  /** A reachable cell's eligible face neighbours are reachable too. */
  lemma ReachableStep(w: World, start: Cell, c: Cell, n: Cell)
    requires Reachable(w, start, c)
    requires IsDoor(w, n) && FaceAdjacent(c, n)
    ensures Reachable(w, start, n)
  {
    var p :| DoorChain(w, p, start, c);
    var q := p + [n];
    forall i | 0 <= i < |q| - 1
      ensures StepAdjacent(q, i)
    {
      if i < |p| - 1 {
        assert StepAdjacent(p, i);
      }
    }
    assert DoorChain(w, q, start, n);
  }

  /** `s` is closed under steps between eligible doors: every eligible face
      neighbour of an eligible door in `s` is in `s`. */
  ghost predicate ClosedUnderDoorSteps(w: World, s: set<Cell>) {
    forall c, i :: c in s && IsDoor(w, c) && 0 <= i < 6 && IsDoor(w, Neighbours(c)[i])
      ==> Neighbours(c)[i] in s
  }

  /** Closure stated with face adjacency instead of neighbour positions. */
  lemma ClosedByAdjacency(w: World, s: set<Cell>)
    requires forall c, n :: c in s && IsDoor(w, c) && IsDoor(w, n) && FaceAdjacent(c, n) ==> n in s
    ensures ClosedUnderDoorSteps(w, s)
  {
    forall c, i | c in s && IsDoor(w, c) && 0 <= i < 6 && IsDoor(w, Neighbours(c)[i])
      ensures Neighbours(c)[i] in s
    {
      assert Neighbours(c)[i] in Neighbours(c);
    }
  }

  /** Every cell of a door chain that starts in a closed set lies in it. */
  lemma {:induction false} ChainStaysInClosedSet(w: World, s: set<Cell>, p: seq<Cell>, from: Cell, to: Cell)
    requires ClosedUnderDoorSteps(w, s) && from in s
    requires DoorChain(w, p, from, to)
    ensures to in s
    decreases |p|
  {
    if |p| > 1 {
      var q := p[..|p| - 1];
      var prev := q[|q| - 1];
      forall i | 0 <= i < |q| - 1
        ensures StepAdjacent(q, i)
      {
        assert StepAdjacent(p, i);
      }
      assert DoorChain(w, q, from, prev);
      ChainStaysInClosedSet(w, s, q, from, prev);
      assert StepAdjacent(p, |p| - 2);
      var i :| 0 <= i < 6 && Neighbours(prev)[i] == to;
    }
  }

  /** A closed set that contains `start` contains everything reachable from it;
      this is what makes a finished search complete and what bounds a cluster. */
  lemma ClosedSetContainsReachable(w: World, s: set<Cell>, start: Cell)
    requires ClosedUnderDoorSteps(w, s) && start in s
    ensures ReachableDoors(w, start) <= s
  {
    forall d | d in ReachableDoors(w, start)
      ensures d in s
    {
      var p :| DoorChain(w, p, start, d);
      ChainStaysInClosedSet(w, s, p, start, d);
    }
  }

  /** A closed set containing `start` whose members are all reachable from
      `start` is exactly the set of doors reachable from it. */
  lemma ReachableDoorsExactly(w: World, s: set<Cell>, start: Cell)
    requires ClosedUnderDoorSteps(w, s) && start in s
    requires forall x :: x in s ==> Reachable(w, start, x)
    ensures ReachableDoors(w, start) == s
  {
    ClosedSetContainsReachable(w, s, start);
  }

  function Reverse(p: seq<Cell>): (r: seq<Cell>)
    ensures |r| == |p|
    ensures forall i :: 0 <= i < |p| ==> r[i] == p[|p| - 1 - i]
    decreases |p|
  {
    if p == [] then [] else Reverse(p[1..]) + [p[0]]
  }

  /** Face connectivity through doors works both ways. */
  lemma ReachableSymmetric(w: World, a: Cell, b: Cell)
    requires Reachable(w, a, b)
    ensures Reachable(w, b, a)
  {
    var p :| DoorChain(w, p, a, b);
    var q := Reverse(p);
    forall i | 0 <= i < |q| - 1
      ensures StepAdjacent(q, i)
    {
      assert q[i] == p[|p| - 1 - i] && q[i + 1] == p[|p| - 2 - i];
      assert StepAdjacent(p, |p| - 2 - i);
    }
    assert DoorChain(w, q, b, a);
  }

  /** Two chains that meet can be joined. */
  lemma ReachableTransitive(w: World, a: Cell, b: Cell, c: Cell)
    requires Reachable(w, a, b) && Reachable(w, b, c)
    ensures Reachable(w, a, c)
  {
    var p :| DoorChain(w, p, a, b);
    var q :| DoorChain(w, q, b, c);
    var joined := p + q[1..];
    forall i | 0 <= i < |joined| - 1
      ensures StepAdjacent(joined, i)
    {
      if i < |p| - 1 {
        assert StepAdjacent(p, i);
      } else if i == |p| - 1 {
        assert joined[i] == q[0] && joined[i + 1] == q[1];
        assert StepAdjacent(q, 0);
      } else {
        assert joined[i] == q[i - |p| + 1] && joined[i + 1] == q[i - |p| + 2];
        assert StepAdjacent(q, i - |p| + 1);
      }
    }
    assert DoorChain(w, joined, a, c);
  }

  /** Every door of a connected group reaches exactly the same doors: the
      group is the same whichever member the search starts from. */
  lemma ReachableDoorsShared(w: World, a: Cell, b: Cell)
    requires Reachable(w, a, b)
    ensures ReachableDoors(w, b) == ReachableDoors(w, a)
  {
    ReachableSymmetric(w, a, b);
    forall d | Reachable(w, b, d)
      ensures Reachable(w, a, d)
    {
      ReachableTransitive(w, a, b, d);
    }
    forall d | Reachable(w, a, d)
      ensures Reachable(w, b, d)
    {
      ReachableTransitive(w, b, a, d);
    }
  }
}
