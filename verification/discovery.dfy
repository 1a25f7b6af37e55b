/**
 The order in which a first-in-first-out search discovers cells. Each cell
 examined after the start was queued by the first examined door next to it,
 and cells are examined in the order of that door, ties broken by their place
 among the door's six neighbours. These two facts fix the order completely.
 */
module Discovery {
  import opened Grid
  import opened Lists

  /** The position in `order` of the first eligible door face-adjacent to `c`;
      `|order|` when there is none. */
  function ParentIndex(w: World, order: seq<Cell>, c: Cell): (k: nat)
    ensures k <= |order|
    ensures k < |order| ==> IsDoor(w, order[k]) && FaceAdjacent(order[k], c)
    ensures forall j :: 0 <= j < k ==> !(IsDoor(w, order[j]) && FaceAdjacent(order[j], c))
    decreases |order|
  {
    if order == [] then 0
    else if IsDoor(w, order[0]) && FaceAdjacent(order[0], c) then 0
    else 1 + ParentIndex(w, order[1..], c)
  }

  /** The place of `c` among the six neighbours of `p`, in the order the search
      queues them; 6 when `c` is not one of them. */
  function Slot(p: Cell, c: Cell): (k: nat)
    ensures k <= 6
    ensures k < 6 <==> FaceAdjacent(p, c)
    ensures k < 6 ==> Neighbours(p)[k] == c
  {
    if c in Neighbours(p) then FirstIndex(Neighbours(p), c) else 6
  }

  /** The six neighbours of a cell are distinct, so each sits in its own slot. */
  lemma NeighbourSlot(p: Cell, t: nat)
    requires t < 6
    ensures Slot(p, Neighbours(p)[t]) == t
  {
    var k := Slot(p, Neighbours(p)[t]);
    assert Neighbours(p)[t] in Neighbours(p);
    assert Neighbours(p)[k] == Neighbours(p)[t];
  }

  /** The six neighbours of a cell are six different cells. */
  lemma NeighboursDistinct(p: Cell)
    ensures NoDuplicates(Neighbours(p))
  {
    forall i, j | 0 <= i < j < 6
      ensures Neighbours(p)[i] != Neighbours(p)[j]
    {
      NeighbourSlot(p, i);
      NeighbourSlot(p, j);
    }
  }

  /** When the search queues `c` relative to the examined cells `order`: six
      ticks per examined cell up to its first examined door neighbour, then its
      slot among that door's neighbours. */
  function DiscoveryKey(w: World, order: seq<Cell>, c: Cell): (r: nat)
    ensures ParentIndex(w, order, c) < |order| ==>
              6 * ParentIndex(w, order, c) <= r < 6 * ParentIndex(w, order, c) + 6
    ensures ParentIndex(w, order, c) == |order| ==> r == 6 * |order|
  {
    var k := ParentIndex(w, order, c);
    if k < |order| then 6 * k + Slot(order[k], c) else 6 * |order|
  }

  /** Cells discovered from the same examined cells at the same moment are the
      same cell. */
  lemma KeysDistinct(w: World, order: seq<Cell>, a: Cell, b: Cell)
    requires ParentIndex(w, order, a) < |order|
    requires DiscoveryKey(w, order, a) == DiscoveryKey(w, order, b)
    ensures a == b
  {
    var k := ParentIndex(w, order, a);
    assert ParentIndex(w, order, b) == k;
    assert Neighbours(order[k])[Slot(order[k], a)] == a;
  }

  /** Only the first `n` examined cells matter to a cell discovered among them:
      its first examined door and its key are the same in any longer order. */
  lemma ParentIndexOfPrefix(w: World, longer: seq<Cell>, n: nat, c: Cell)
    requires n <= |longer|
    ensures ParentIndex(w, longer[..n], c) < n <==> ParentIndex(w, longer, c) < n
    ensures ParentIndex(w, longer, c) < n ==>
              && ParentIndex(w, longer[..n], c) == ParentIndex(w, longer, c)
              && DiscoveryKey(w, longer[..n], c) == DiscoveryKey(w, longer, c)
  {
    var k := ParentIndex(w, longer, c);
    var k' := ParentIndex(w, longer[..n], c);
    if k < n {
      assert longer[..n][k] == longer[k];
    }
    if k' < n {
      assert longer[..n][k'] == longer[k'];
    }
  }

  /** Examining one more cell does not change the key of a cell already
      discovered. */
  lemma KeyStable(w: World, order: seq<Cell>, x: Cell, c: Cell)
    requires ParentIndex(w, order, c) < |order|
    ensures ParentIndex(w, order + [x], c) == ParentIndex(w, order, c)
    ensures DiscoveryKey(w, order + [x], c) == DiscoveryKey(w, order, c)
  {
    assert (order + [x])[..|order|] == order;
    ParentIndexOfPrefix(w, order + [x], |order|, c);
  }

  /** A cell first discovered by the newly examined door `x` is keyed by `x`'s
      position and its slot among `x`'s neighbours. */
  lemma KeyOfNewlyDiscovered(w: World, order: seq<Cell>, x: Cell, c: Cell)
    requires ParentIndex(w, order, c) == |order|
    requires IsDoor(w, x) && FaceAdjacent(x, c)
    ensures ParentIndex(w, order + [x], c) == |order|
    ensures DiscoveryKey(w, order + [x], c) == 6 * |order| + Slot(x, c)
  {
    var o := order + [x];
    var k := ParentIndex(w, o, c);
    assert o[|order|] == x;
  }

  /** `order` is a breadth-first examination order: every cell after the start
      was discovered by an earlier examined door, and the cells after the start
      come in strictly increasing discovery key. */
  ghost predicate DiscoveryOrdered(w: World, order: seq<Cell>) {
    && (forall i {:trigger ParentIndex(w, order, order[i])} ::
          0 < i < |order| ==> ParentIndex(w, order, order[i]) < i)
    && (forall i, k {:trigger DiscoveryKey(w, order, order[i]), DiscoveryKey(w, order, order[k])} ::
          0 < i < k < |order| ==> DiscoveryKey(w, order, order[i]) < DiscoveryKey(w, order, order[k]))
  }

  /** The step of the uniqueness argument: after a common prefix, each order's
      next cell was discovered within that prefix, so both orders give both
      candidates the same keys, and each must come first in its own order. */
  lemma NextAgrees(w: World, o1: seq<Cell>, o2: seq<Cell>, m: nat)
    requires 1 <= m < |o1| && m < |o2| && o1[..m] == o2[..m]
    requires ParentIndex(w, o1, o1[m]) < m && ParentIndex(w, o2, o2[m]) < m
    requires o1[m] != o2[m] ==>
               && DiscoveryKey(w, o1, o1[m]) < DiscoveryKey(w, o1, o2[m])
               && DiscoveryKey(w, o2, o2[m]) < DiscoveryKey(w, o2, o1[m])
    ensures o1[m] == o2[m]
  {
    ParentIndexOfPrefix(w, o1, m, o1[m]);
    ParentIndexOfPrefix(w, o2, m, o1[m]);
    ParentIndexOfPrefix(w, o1, m, o2[m]);
    ParentIndexOfPrefix(w, o2, m, o2[m]);
  }

  /** A cell of `o` outside its first `m` cells and other than `o[m]` comes
      later, so it has a larger key. */
  lemma LaterHasLargerKey(w: World, o: seq<Cell>, m: nat, y: Cell)
    requires DiscoveryOrdered(w, o)
    requires 1 <= m < |o| && y in o && y !in o[..m] && y != o[m]
    ensures DiscoveryKey(w, o, o[m]) < DiscoveryKey(w, o, y)
  {
    var iy := FirstIndex(o, y);
  }

  /** Two discovery orders of the same cells from the same start agree on every
      prefix. */
  lemma {:induction false} DiscoveryPrefixesAgree(w: World, o1: seq<Cell>, o2: seq<Cell>, n: nat)
    requires DiscoveryOrdered(w, o1) && DiscoveryOrdered(w, o2)
    requires NoDuplicates(o1) && NoDuplicates(o2)
    requires forall c :: c in o1 <==> c in o2
    requires 1 <= n <= |o1| && n <= |o2| && o1[0] == o2[0]
    ensures o1[..n] == o2[..n]
    decreases n
  {
    if n == 1 {
      assert o1[..1] == [o1[0]] && o2[..1] == [o2[0]];
    } else {
      var m := n - 1;
      DiscoveryPrefixesAgree(w, o1, o2, m);
      var x, y := o1[m], o2[m];
      if x != y {
        LaterHasLargerKey(w, o1, m, y);
        LaterHasLargerKey(w, o2, m, x);
      }
      NextAgrees(w, o1, o2, m);
      assert o1[..n] == o1[..m] + [x] && o2[..n] == o2[..m] + [y];
    }
  }

  /** The discovery order is unique: two duplicate-free discovery orders of the
      same cells from the same start are equal. */
  lemma DiscoveryOrderUnique(w: World, o1: seq<Cell>, o2: seq<Cell>)
    requires DiscoveryOrdered(w, o1) && DiscoveryOrdered(w, o2)
    requires NoDuplicates(o1) && NoDuplicates(o2)
    requires forall c :: c in o1 <==> c in o2
    requires |o1| > 0 && |o2| > 0 && o1[0] == o2[0]
    ensures o1 == o2
  {
    if |o1| < |o2| {
      DiscoveryPrefixesAgree(w, o1, o2, |o1|);
      var i := FirstIndex(o1, o2[|o1|]);
    } else if |o2| < |o1| {
      DiscoveryPrefixesAgree(w, o1, o2, |o2|);
      var i := FirstIndex(o2, o1[|o2|]);
    } else {
      DiscoveryPrefixesAgree(w, o1, o2, |o1|);
      assert o1 == o1[..|o1|] && o2 == o2[..|o2|];
    }
  }
}
