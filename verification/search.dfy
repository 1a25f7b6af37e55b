/**
 The breadth-first search that collects the doors connected to a start cell:
 a FIFO queue, a visited set, and the six face neighbours of each door.
 */
module Search {
  import opened Grid
  import opened DoorHalves
  import opened Reach
  import opened Lists
  import opened Discovery

  /** The bottoms of the eligible doors of `s`, in the order of `s`. */
  function BottomsAlong(w: World, s: seq<Cell>): (r: seq<Cell>)
    ensures forall i :: 0 <= i < |s| && IsDoor(w, s[i]) ==> DoorBottom(w, s[i]) in r
    ensures forall b :: b in r ==> IsDoor(w, b)
    ensures |r| <= |s|
    decreases |s|
  {
    if s == [] then []
    else
      var prefix := BottomsAlong(w, s[..|s| - 1]);
      var last := s[|s| - 1];
      if IsDoor(w, last) then prefix + [DoorBottom(w, last)] else prefix
  }

  /** The set of bottoms of the eligible doors in `s`. */
  function BottomsOf(w: World, s: set<Cell>): set<Cell> {
    set d | d in s && IsDoor(w, d) :: DoorBottom(w, d)
  }

  lemma BottomsOfAdd(w: World, s: set<Cell>, c: Cell)
    ensures BottomsOf(w, s + {c}) == BottomsOf(w, s) + (if IsDoor(w, c) then {DoorBottom(w, c)} else {})
  {
  }

  /** The neighbours in `ns` worth queueing: not yet visited and eligible doors,
      kept in the order of `ns`. */
  function FreshDoorNeighbours(w: World, visited: set<Cell>, ns: seq<Cell>): (r: seq<Cell>)
    ensures forall n :: n in r <==> n in ns && n !in visited && IsDoor(w, n)
    decreases |ns|
  {
    if ns == [] then []
    else
      var rest := FreshDoorNeighbours(w, visited, ns[1..]);
      if ns[0] !in visited && IsDoor(w, ns[0]) then [ns[0]] + rest else rest
  }

  /** The bottom of a reachable door is itself reachable: it is the door or the
      same-material door cell right under it. */
  lemma BottomReachable(w: World, start: Cell, d: Cell)
    requires Reachable(w, start, d)
    ensures Reachable(w, start, DoorBottom(w, d))
  {
    if DoorBottom(w, d) != d {
      assert FaceAdjacent(d, d.Below());
      ReachableStep(w, start, d, DoorBottom(w, d));
    }
  }

  /** Every eligible neighbour of an examined door is examined or waiting in
      the queue: the frontier of the search. */
  ghost predicate FrontierCovers(w: World, visited: set<Cell>, queue: seq<Cell>) {
    forall c, i :: c in visited && IsDoor(w, c) && 0 <= i < 6 && IsDoor(w, Neighbours(c)[i])
      ==> Neighbours(c)[i] in visited || Neighbours(c)[i] in queue
  }

  /** Popping the head of the queue and examining it keeps the frontier covered,
      provided a door's fresh eligible neighbours are appended. */
  lemma FrontierAfterVisit(w: World, visited: set<Cell>, current: Cell, rest: seq<Cell>)
    requires FrontierCovers(w, visited, [current] + rest)
    ensures current in visited ==> FrontierCovers(w, visited, rest)
    ensures FrontierCovers(w, visited + {current},
                           rest + (if IsDoor(w, current)
                                   then FreshDoorNeighbours(w, visited + {current}, Neighbours(current))
                                   else []))
  {
    var visited' := visited + {current};
    var added := if IsDoor(w, current) then FreshDoorNeighbours(w, visited', Neighbours(current)) else [];
    forall c, i | c in visited' && IsDoor(w, c) && 0 <= i < 6 && IsDoor(w, Neighbours(c)[i])
      ensures Neighbours(c)[i] in visited' || Neighbours(c)[i] in rest + added
    {
      var n := Neighbours(c)[i];
      if c == current {
        assert n in Neighbours(current);
      } else {
        assert n in visited || n in [current] + rest;
      }
    }
  }

  /** Adding the start cell to the reachable doors adds no bottom: it is either
      one of them or not an eligible door. */
  lemma BottomsWithStart(w: World, start: Cell)
    ensures BottomsOf(w, {start} + ReachableDoors(w, start)) == BottomsOf(w, ReachableDoors(w, start))
  {
    ReachableDoorsOfStart(w, start);
    BottomsOfAdd(w, ReachableDoors(w, start), start);
    assert {start} + ReachableDoors(w, start) == ReachableDoors(w, start) + {start};
  }

  /** Examining one more cell of the search space leaves fewer to examine. */
  lemma RemainingShrinks(space: set<Cell>, visited: set<Cell>, c: Cell)
    requires c in space && c !in visited
    ensures |space - (visited + {c})| < |space - visited|
  {
    var after := space - (visited + {c});
    assert space - visited == after + {c};
    assert c !in after;
  }

  lemma AppendFresh(order: seq<Cell>, c: Cell)
    requires NoDuplicates(order) && c !in order
    ensures NoDuplicates(order + [c])
  {
  }

  /** The cells a search from `start` can ever examine. */
  function SearchSpace(w: World, start: Cell): set<Cell> {
    DoorCells(w) + {start}
  }

  /** What holds of the search between two iterations: the queue and the
      examined cells are the start or reachable doors, the frontier is covered,
      `order` lists each examined cell once, and `result` holds the first
      occurrences of the examined doors' bottoms. */
  ghost predicate SearchInvariant(w: World, start: Cell, queue: seq<Cell>, visited: set<Cell>,
                                  result: seq<Cell>, order: seq<Cell>)
  {
    && QueueSound(w, start, queue)
    && VisitedSound(w, start, visited)
    && visited <= SearchSpace(w, start)
    && (start in visited || start in queue)
    && (visited == {} ==> queue == [start])
    && FrontierCovers(w, visited, queue)
    && OrderRecords(order, visited, start)
    && ResultRecords(w, result, order, visited)
  }

  /** Apart from the start cell, only reachable eligible doors are queued. */
  ghost predicate QueueSound(w: World, start: Cell, queue: seq<Cell>) {
    forall c :: c in queue ==> c == start || (IsDoor(w, c) && Reachable(w, start, c))
  }

  /** Apart from the start cell, only reachable eligible doors are examined. */
  ghost predicate VisitedSound(w: World, start: Cell, visited: set<Cell>) {
    forall c :: c in visited ==> c == start || (IsDoor(w, c) && Reachable(w, start, c))
  }

  /** `order` lists every examined cell exactly once, the start cell first. */
  ghost predicate OrderRecords(order: seq<Cell>, visited: set<Cell>, start: Cell) {
    && NoDuplicates(order)
    && (forall c :: c in order <==> c in visited)
    && (|order| > 0 ==> order[0] == start)
  }

  /** `result` holds the first occurrences of the bottoms of the examined doors. */
  ghost predicate ResultRecords(w: World, result: seq<Cell>, order: seq<Cell>, visited: set<Cell>) {
    && result == FirstOccurrences(BottomsAlong(w, order))
    && (forall r :: r in result <==> r in BottomsOf(w, visited))
  }

  lemma QueueAfterExamine(w: World, start: Cell, current: Cell, rest: seq<Cell>, visited: set<Cell>)
    requires QueueSound(w, start, [current] + rest)
    ensures QueueSound(w, start, rest)
    ensures current == start || (IsDoor(w, current) && Reachable(w, start, current))
    ensures IsDoor(w, current) ==>
              QueueSound(w, start, rest + FreshDoorNeighbours(w, visited, Neighbours(current)))
  {
    assert current in [current] + rest;
    forall c | c in rest
      ensures c == start || (IsDoor(w, c) && Reachable(w, start, c))
    {
      assert c in [current] + rest;
    }
    if IsDoor(w, current) {
      var added := FreshDoorNeighbours(w, visited, Neighbours(current));
      forall n | n in added
        ensures IsDoor(w, n) && Reachable(w, start, n)
      {
        if current == start {
          ReachableSelf(w, start);
        }
        ReachableStep(w, start, current, n);
      }
    }
  }

  lemma VisitedAfterExamine(w: World, start: Cell, visited: set<Cell>, current: Cell)
    requires VisitedSound(w, start, visited)
    requires current == start || (IsDoor(w, current) && Reachable(w, start, current))
    ensures VisitedSound(w, start, visited + {current})
  {
  }

  lemma OrderAfterExamine(order: seq<Cell>, visited: set<Cell>, start: Cell, current: Cell)
    requires OrderRecords(order, visited, start) && current !in visited
    requires visited == {} ==> current == start
    ensures OrderRecords(order + [current], visited + {current}, start)
  {
    AppendFresh(order, current);
  }

  lemma ResultAfterExamine(w: World, result: seq<Cell>, order: seq<Cell>, visited: set<Cell>, current: Cell)
    requires ResultRecords(w, result, order, visited)
    ensures ResultRecords(w,
                          if IsDoor(w, current) && DoorBottom(w, current) !in result
                          then result + [DoorBottom(w, current)] else result,
                          order + [current], visited + {current})
  {
    BottomsOfAdd(w, visited, current);
    assert (order + [current])[..|order|] == order;
  }

  /** Filtering a duplicate-free list keeps its order. */
  lemma {:induction false} FreshKeepsOrder(w: World, visited: set<Cell>, ns: seq<Cell>)
    requires NoDuplicates(ns)
    ensures OrderedAlong(FreshDoorNeighbours(w, visited, ns), ns)
    decreases |ns|
  {
    if ns != [] {
      FreshKeepsOrder(w, visited, ns[1..]);
      if ns[0] !in visited && IsDoor(w, ns[0]) {
        OrderedAlongWithHead(ns, FreshDoorNeighbours(w, visited, ns[1..]));
      } else {
        OrderedAlongTail(ns, FreshDoorNeighbours(w, visited, ns[1..]));
      }
    }
  }

  /** What a first-in-first-out queue keeps between iterations: once anything
      is examined, every unexamined entry was discovered by an examined door;
      every unexamined entry comes after every examined cell; and the first
      occurrences of the unexamined entries are in discovery order. */
  ghost predicate QueueInDiscoveryOrder(w: World, queue: seq<Cell>, visited: set<Cell>, order: seq<Cell>) {
    && (order != [] ==> forall x :: x in queue && x !in visited ==> ParentIndex(w, order, x) < |order|)
    && (forall i, x {:trigger DiscoveryKey(w, order, order[i]), DiscoveryKey(w, order, x)} ::
          0 < i < |order| && x in queue && x !in visited ==>
          DiscoveryKey(w, order, order[i]) < DiscoveryKey(w, order, x))
    && (forall a, b {:trigger DiscoveryKey(w, order, queue[a]), DiscoveryKey(w, order, queue[b])} ::
          0 <= a < b < |queue| && queue[a] !in visited && queue[b] !in visited && queue[b] !in queue[..b] ==>
          DiscoveryKey(w, order, queue[a]) <= DiscoveryKey(w, order, queue[b]))
  }

  /** Dropping an already examined head keeps the queue in discovery order. */
  lemma DiscoveryAfterSkip(w: World, current: Cell, rest: seq<Cell>, visited: set<Cell>, order: seq<Cell>)
    requires current in visited
    requires QueueInDiscoveryOrder(w, [current] + rest, visited, order)
    ensures QueueInDiscoveryOrder(w, rest, visited, order)
  {
    var queue := [current] + rest;
    forall x | x in rest
      ensures x in queue
    {
    }
    forall a, b | 0 <= a < b < |rest| && rest[a] !in visited && rest[b] !in visited && rest[b] !in rest[..b]
      ensures DiscoveryKey(w, order, rest[a]) <= DiscoveryKey(w, order, rest[b])
    {
      assert queue[a + 1] == rest[a] && queue[b + 1] == rest[b];
      assert queue[..b + 1] == [current] + rest[..b];
      assert DiscoveryKey(w, order, queue[a + 1]) <= DiscoveryKey(w, order, queue[b + 1]);
    }
  }

  /** The unexamined head of a queue in discovery order was discovered by an
      examined door, comes after every examined cell and before every other
      unexamined entry. */
  lemma HeadComesNext(w: World, current: Cell, rest: seq<Cell>, visited: set<Cell>, order: seq<Cell>)
    requires current !in visited && order != []
    requires QueueInDiscoveryOrder(w, [current] + rest, visited, order)
    ensures ParentIndex(w, order, current) < |order|
    ensures forall i {:trigger DiscoveryKey(w, order, order[i])} ::
              0 < i < |order| ==> DiscoveryKey(w, order, order[i]) < DiscoveryKey(w, order, current)
    ensures forall x :: x in rest && x !in visited && x != current ==>
              DiscoveryKey(w, order, current) < DiscoveryKey(w, order, x)
  {
    var queue := [current] + rest;
    assert current in queue;
    forall i | 0 < i < |order|
      ensures DiscoveryKey(w, order, order[i]) < DiscoveryKey(w, order, current)
    {
    }
    forall x | x in rest && x !in visited && x != current
      ensures DiscoveryKey(w, order, current) < DiscoveryKey(w, order, x)
    {
      assert x in queue;
      var a := FirstIndex(queue, x);
      assert x !in queue[..a];
      assert DiscoveryKey(w, order, queue[0]) <= DiscoveryKey(w, order, queue[a]);
      if DiscoveryKey(w, order, current) == DiscoveryKey(w, order, x) {
        KeysDistinct(w, order, current, x);
      }
    }
  }

  /** Examining one more cell changes neither the first examined door nor the
      key of any cell examined after the start. */
  lemma ExaminedKeysStable(w: World, order: seq<Cell>, current: Cell)
    requires forall i {:trigger ParentIndex(w, order, order[i])} ::
               0 < i < |order| ==> ParentIndex(w, order, order[i]) < i
    ensures forall i {:trigger DiscoveryKey(w, order + [current], order[i])} ::
              0 < i < |order| ==>
              && ParentIndex(w, order + [current], order[i]) < i
              && DiscoveryKey(w, order + [current], order[i]) == DiscoveryKey(w, order, order[i])
  {
    forall i | 0 < i < |order|
      ensures ParentIndex(w, order + [current], order[i]) < i
      ensures DiscoveryKey(w, order + [current], order[i]) == DiscoveryKey(w, order, order[i])
    {
      assert ParentIndex(w, order, order[i]) < i;
      KeyStable(w, order, current, order[i]);
    }
  }

  /** Appending a cell discovered by an examined door keeps every cell after
      the start discovered by an earlier examined door. */
  lemma ParentsExtend(w: World, order: seq<Cell>, current: Cell)
    requires forall i {:trigger ParentIndex(w, order, order[i])} ::
               0 < i < |order| ==> ParentIndex(w, order, order[i]) < i
    requires order != [] ==> ParentIndex(w, order, current) < |order|
    ensures forall i {:trigger ParentIndex(w, order + [current], (order + [current])[i])} ::
              0 < i < |order| + 1 ==> ParentIndex(w, order + [current], (order + [current])[i]) < i
  {
    var o := order + [current];
    ExaminedKeysStable(w, order, current);
    if order != [] {
      KeyStable(w, order, current, current);
    }
    forall i | 0 < i < |o|
      ensures ParentIndex(w, o, o[i]) < i
    {
      if i < |order| {
        assert o[i] == order[i];
        assert DiscoveryKey(w, o, order[i]) == DiscoveryKey(w, order, order[i]);
      }
    }
  }

  /** Appending a cell with a key above every examined cell's keeps the keys
      after the start increasing. */
  lemma KeysExtend(w: World, order: seq<Cell>, current: Cell)
    requires forall i {:trigger ParentIndex(w, order, order[i])} ::
               0 < i < |order| ==> ParentIndex(w, order, order[i]) < i
    requires forall i, k {:trigger DiscoveryKey(w, order, order[i]), DiscoveryKey(w, order, order[k])} ::
               0 < i < k < |order| ==> DiscoveryKey(w, order, order[i]) < DiscoveryKey(w, order, order[k])
    requires order != [] ==> ParentIndex(w, order, current) < |order|
    requires forall i {:trigger DiscoveryKey(w, order, order[i])} ::
               0 < i < |order| ==> DiscoveryKey(w, order, order[i]) < DiscoveryKey(w, order, current)
    ensures forall i, k {:trigger DiscoveryKey(w, order + [current], (order + [current])[i]),
                                  DiscoveryKey(w, order + [current], (order + [current])[k])} ::
              0 < i < k < |order| + 1 ==>
              DiscoveryKey(w, order + [current], (order + [current])[i]) <
              DiscoveryKey(w, order + [current], (order + [current])[k])
  {
    var o := order + [current];
    ExaminedKeysStable(w, order, current);
    if order != [] {
      KeyStable(w, order, current, current);
    }
    forall i, k | 0 < i < k < |o|
      ensures DiscoveryKey(w, o, o[i]) < DiscoveryKey(w, o, o[k])
    {
      assert o[i] == order[i];
      assert DiscoveryKey(w, o, order[i]) == DiscoveryKey(w, order, order[i]);
      if k < |order| {
        assert o[k] == order[k];
        assert DiscoveryKey(w, o, order[k]) == DiscoveryKey(w, order, order[k]);
        assert DiscoveryKey(w, order, order[i]) < DiscoveryKey(w, order, order[k]);
      }
    }
  }

  /** Appending a cell discovered by an examined door, with a key above every
      examined cell's, keeps an order a discovery order. */
  lemma OrderExtends(w: World, order: seq<Cell>, current: Cell)
    requires DiscoveryOrdered(w, order)
    requires order != [] ==> ParentIndex(w, order, current) < |order|
    requires forall i {:trigger DiscoveryKey(w, order, order[i])} ::
               0 < i < |order| ==> DiscoveryKey(w, order, order[i]) < DiscoveryKey(w, order, current)
    ensures DiscoveryOrdered(w, order + [current])
  {
    ParentsExtend(w, order, current);
    KeysExtend(w, order, current);
  }

  /** An eligible door that is neither examined nor queued is next to no
      examined door. */
  lemma UndiscoveredNotAdjacent(w: World, visited: set<Cell>, queue: seq<Cell>, d: Cell, n: Cell)
    requires FrontierCovers(w, visited, queue)
    requires d in visited && IsDoor(w, d) && IsDoor(w, n) && n !in visited && n !in queue
    ensures !FaceAdjacent(d, n)
  {
    forall i | 0 <= i < 6
      ensures Neighbours(d)[i] != n
    {
    }
    assert n !in Neighbours(d);
  }

  /** A fresh neighbour of the examined door that is not already waiting was
      first discovered by that door. */
  lemma NewlyDiscovered(w: World, current: Cell, rest: seq<Cell>, visited: set<Cell>,
                        order: seq<Cell>, n: Cell)
    requires forall c :: c in order <==> c in visited
    requires FrontierCovers(w, visited, [current] + rest)
    requires IsDoor(w, current) && FaceAdjacent(current, n) && IsDoor(w, n)
    requires n !in visited && n != current && n !in rest
    ensures ParentIndex(w, order, n) == |order|
    ensures ParentIndex(w, order + [current], n) == |order|
    ensures DiscoveryKey(w, order + [current], n) == 6 * |order| + Slot(current, n)
  {
    forall j | 0 <= j < |order| && IsDoor(w, order[j])
      ensures !FaceAdjacent(order[j], n)
    {
      assert order[j] in visited;
      UndiscoveredNotAdjacent(w, visited, [current] + rest, order[j], n);
    }
    KeyOfNewlyDiscovered(w, order, current, n);
  }

  /** What examining the unexamined cell `current` appends to the queue. */
  function Appended(w: World, visited: set<Cell>, current: Cell): seq<Cell> {
    if IsDoor(w, current) then FreshDoorNeighbours(w, visited + {current}, Neighbours(current)) else []
  }

  /** What the discovery-order argument assumes of the search before it
      examines the unexamined head `current` of the queue `[current] + rest`. */
  ghost predicate ReadyToExamine(w: World, current: Cell, rest: seq<Cell>, visited: set<Cell>, order: seq<Cell>) {
    && current !in visited
    && (forall c :: c in order <==> c in visited)
    && (order == [] ==> rest == [])
    && FrontierCovers(w, visited, [current] + rest)
    && DiscoveryOrdered(w, order)
    && QueueInDiscoveryOrder(w, [current] + rest, visited, order)
  }

  /** The cells waiting behind the head keep the door that discovered them and
      their key when the head is examined. */
  lemma WaitingKeysStable(w: World, current: Cell, rest: seq<Cell>, visited: set<Cell>, order: seq<Cell>)
    requires order != []
    requires QueueInDiscoveryOrder(w, [current] + rest, visited, order)
    ensures forall x {:trigger DiscoveryKey(w, order + [current], x)} :: x in rest && x !in visited ==>
              && ParentIndex(w, order, x) < |order|
              && ParentIndex(w, order + [current], x) == ParentIndex(w, order, x)
              && DiscoveryKey(w, order + [current], x) == DiscoveryKey(w, order, x)
  {
    forall x | x in rest && x !in visited
      ensures ParentIndex(w, order, x) < |order|
      ensures ParentIndex(w, order + [current], x) == ParentIndex(w, order, x)
      ensures DiscoveryKey(w, order + [current], x) == DiscoveryKey(w, order, x)
    {
      assert x in [current] + rest;
      KeyStable(w, order, current, x);
    }
  }

  /** A cell appended by examining `current`, and not already waiting, was
      discovered by `current`: its key is `current`'s position and its slot. */
  lemma AppendedKeys(w: World, current: Cell, rest: seq<Cell>, visited: set<Cell>, order: seq<Cell>)
    requires current !in visited
    requires forall c :: c in order <==> c in visited
    requires FrontierCovers(w, visited, [current] + rest)
    ensures forall n {:trigger DiscoveryKey(w, order + [current], n)} ::
              n in Appended(w, visited, current) && n !in rest ==>
              && ParentIndex(w, order + [current], n) == |order|
              && DiscoveryKey(w, order + [current], n) == 6 * |order| + Slot(current, n)
  {
    forall n | n in Appended(w, visited, current) && n !in rest
      ensures ParentIndex(w, order + [current], n) == |order|
      ensures DiscoveryKey(w, order + [current], n) == 6 * |order| + Slot(current, n)
    {
      NewlyDiscovered(w, current, rest, visited, order, n);
    }
  }

  /** After the examination every unexamined queued cell has been discovered
      by an examined door. */
  lemma QueueDiscoveredAfterExamine(w: World, current: Cell, rest: seq<Cell>, visited: set<Cell>, order: seq<Cell>)
    requires ReadyToExamine(w, current, rest, visited, order)
    ensures forall x :: x in rest + Appended(w, visited, current) && x !in visited + {current} ==>
              ParentIndex(w, order + [current], x) < |order| + 1
  {
    if order != [] {
      WaitingKeysStable(w, current, rest, visited, order);
    }
    AppendedKeys(w, current, rest, visited, order);
    forall x | x in rest + Appended(w, visited, current) && x !in visited + {current}
      ensures ParentIndex(w, order + [current], x) < |order| + 1
    {
      if x in rest {
        assert DiscoveryKey(w, order + [current], x) == DiscoveryKey(w, order, x);
      } else {
        assert DiscoveryKey(w, order + [current], x) == 6 * |order| + Slot(current, x);
      }
    }
  }

  /** After the examination every unexamined queued cell has a larger key than
      every examined cell after the start. */
  lemma QueueAfterExaminedCells(w: World, current: Cell, rest: seq<Cell>, visited: set<Cell>, order: seq<Cell>)
    requires ReadyToExamine(w, current, rest, visited, order)
    ensures var o := order + [current];
            forall i, x {:trigger DiscoveryKey(w, o, o[i]), DiscoveryKey(w, o, x)} ::
              0 < i < |o| && x in rest + Appended(w, visited, current) && x !in visited + {current} ==>
              DiscoveryKey(w, o, o[i]) < DiscoveryKey(w, o, x)
  {
    var o := order + [current];
    var m := |order|;
    if order != [] {
      HeadComesNext(w, current, rest, visited, order);
      WaitingKeysStable(w, current, rest, visited, order);
      AppendedKeys(w, current, rest, visited, order);
      ExaminedKeysStable(w, order, current);
      KeyStable(w, order, current, current);
      forall i, x | 0 < i < |o| && x in rest + Appended(w, visited, current) && x !in visited + {current}
        ensures DiscoveryKey(w, o, o[i]) < DiscoveryKey(w, o, x)
      {
        if i < m {
          assert o[i] == order[i];
          assert DiscoveryKey(w, o, order[i]) == DiscoveryKey(w, order, order[i]);
          assert ParentIndex(w, o, order[i]) < i;
        } else {
          assert o[i] == current;
        }
        if x in rest {
          assert x in [current] + rest;
          assert DiscoveryKey(w, o, x) == DiscoveryKey(w, order, x);
        } else {
          assert DiscoveryKey(w, o, x) == 6 * m + Slot(current, x);
        }
      }
    }
  }

  /** Two waiting cells, the later at its first occurrence, are in key order. */
  lemma WaitingPairOrdered(w: World, current: Cell, rest: seq<Cell>, visited: set<Cell>, order: seq<Cell>,
                           a: nat, b: nat)
    requires QueueInDiscoveryOrder(w, [current] + rest, visited, order)
    requires a < b < |rest| && rest[a] !in visited && rest[b] !in visited && rest[b] !in rest[..b]
    requires rest[b] != current
    ensures DiscoveryKey(w, order, rest[a]) <= DiscoveryKey(w, order, rest[b])
  {
    var queue := [current] + rest;
    assert queue[a + 1] == rest[a] && queue[b + 1] == rest[b];
    assert queue[..b + 1] == [current] + rest[..b];
    assert DiscoveryKey(w, order, queue[a + 1]) <= DiscoveryKey(w, order, queue[b + 1]);
  }

  /** Two waiting cells keep their relative key order when the head is
      examined. */
  lemma WaitingPairSorted(w: World, current: Cell, rest: seq<Cell>, visited: set<Cell>, order: seq<Cell>,
                          a: nat, b: nat)
    requires order != []
    requires QueueInDiscoveryOrder(w, [current] + rest, visited, order)
    requires a < b < |rest| && rest[a] !in visited && rest[b] !in visited && rest[b] !in rest[..b]
    requires rest[b] != current
    ensures DiscoveryKey(w, order + [current], rest[a]) <= DiscoveryKey(w, order + [current], rest[b])
  {
    WaitingPairOrdered(w, current, rest, visited, order, a, b);
    WaitingKeysStable(w, current, rest, visited, order);
  }

  /** A cell appended by examining `current`, at its first occurrence in the
      queue, has a key no smaller than any unexamined cell before it. */
  lemma AppendedPairSorted(w: World, current: Cell, rest: seq<Cell>, visited: set<Cell>, order: seq<Cell>,
                           a: nat, b: nat)
    requires ReadyToExamine(w, current, rest, visited, order)
    requires var q := rest + Appended(w, visited, current);
             && a < b < |q| && |rest| <= b
             && q[a] !in visited + {current} && q[b] !in visited + {current} && q[b] !in q[..b]
    ensures var q := rest + Appended(w, visited, current);
            DiscoveryKey(w, order + [current], q[a]) <= DiscoveryKey(w, order + [current], q[b])
  {
    var o := order + [current];
    var added := Appended(w, visited, current);
    var q := rest + added;
    var m := |order|;
    var y := added[b - |rest|];
    assert q[b] == y;
    assert y !in rest by {
      assert q[..b] == rest + added[..b - |rest|];
    }
    AppendedKeys(w, current, rest, visited, order);
    assert DiscoveryKey(w, o, y) == 6 * m + Slot(current, y);
    var x := q[a];
    if x in rest {
      WaitingKeysStable(w, current, rest, visited, order);
      assert DiscoveryKey(w, o, x) == DiscoveryKey(w, order, x);
    } else {
      assert x == added[a - |rest|];
      assert DiscoveryKey(w, o, x) == 6 * m + Slot(current, x);
      NeighboursDistinct(current);
      FreshKeepsOrder(w, visited + {current}, Neighbours(current));
      assert FirstIndex(Neighbours(current), x) < FirstIndex(Neighbours(current), y);
    }
  }

  /** After the examination the first occurrences of the unexamined queued
      cells are still in key order: the waiting cells first, as before, then
      the cells `current` discovered, in slot order. */
  lemma QueueKeysSortedAfterExamine(w: World, current: Cell, rest: seq<Cell>, visited: set<Cell>, order: seq<Cell>)
    requires ReadyToExamine(w, current, rest, visited, order)
    ensures var o := order + [current];
            var q := rest + Appended(w, visited, current);
            var v := visited + {current};
            forall a, b {:trigger DiscoveryKey(w, o, q[a]), DiscoveryKey(w, o, q[b])} ::
              0 <= a < b < |q| && q[a] !in v && q[b] !in v && q[b] !in q[..b] ==>
              DiscoveryKey(w, o, q[a]) <= DiscoveryKey(w, o, q[b])
  {
    var q := rest + Appended(w, visited, current);
    var v := visited + {current};
    forall a, b | 0 <= a < b < |q| && q[a] !in v && q[b] !in v && q[b] !in q[..b]
      ensures DiscoveryKey(w, order + [current], q[a]) <= DiscoveryKey(w, order + [current], q[b])
    {
      if b < |rest| {
        assert q[a] == rest[a] && q[b] == rest[b] && q[..b] == rest[..b];
        WaitingPairSorted(w, current, rest, visited, order, a, b);
      } else {
        AppendedPairSorted(w, current, rest, visited, order, a, b);
      }
    }
  }

  /** Examining an unexamined head keeps the examined cells a discovery order
      and the queue in discovery order: what was waiting keeps its key, and what
      is appended was discovered by the newly examined door, in slot order,
      after everything before it. */
  lemma DiscoveryAfterExamine(w: World, current: Cell, rest: seq<Cell>, visited: set<Cell>, order: seq<Cell>)
    requires ReadyToExamine(w, current, rest, visited, order)
    ensures DiscoveryOrdered(w, order + [current])
    ensures QueueInDiscoveryOrder(w, rest + Appended(w, visited, current), visited + {current}, order + [current])
  {
    if order != [] {
      HeadComesNext(w, current, rest, visited, order);
    }
    OrderExtends(w, order, current);
    QueueDiscoveredAfterExamine(w, current, rest, visited, order);
    QueueAfterExaminedCells(w, current, rest, visited, order);
    QueueKeysSortedAfterExamine(w, current, rest, visited, order);
  }

  /** Taking the head off the queue keeps the discovery order, whether the
      head is skipped as already examined or examined now. */
  lemma DiscoveryStep(w: World, queue: seq<Cell>, visited: set<Cell>, order: seq<Cell>)
    requires queue != []
    requires forall c :: c in order <==> c in visited
    requires visited == {} ==> queue == [queue[0]]
    requires FrontierCovers(w, visited, queue)
    requires DiscoveryOrdered(w, order) && QueueInDiscoveryOrder(w, queue, visited, order)
    ensures queue[0] in visited ==> QueueInDiscoveryOrder(w, queue[1..], visited, order)
    ensures queue[0] !in visited ==>
              && DiscoveryOrdered(w, order + [queue[0]])
              && QueueInDiscoveryOrder(w, queue[1..] + Appended(w, visited, queue[0]),
                                       visited + {queue[0]}, order + [queue[0]])
  {
    var current := queue[0];
    assert queue == [current] + queue[1..];
    if current in visited {
      DiscoveryAfterSkip(w, current, queue[1..], visited, order);
    } else {
      assert order == [] ==> queue[1..] == [];
      DiscoveryAfterExamine(w, current, queue[1..], visited, order);
    }
  }

  /** Skipping an already examined head keeps the search invariant. */
  lemma InvariantAfterSkip(w: World, start: Cell, queue: seq<Cell>, visited: set<Cell>,
                           result: seq<Cell>, order: seq<Cell>)
    requires queue != [] && queue[0] in visited
    requires SearchInvariant(w, start, queue, visited, result, order)
    ensures SearchInvariant(w, start, queue[1..], visited, result, order)
  {
    assert queue == [queue[0]] + queue[1..];
    FrontierAfterVisit(w, visited, queue[0], queue[1..]);
    QueueAfterExamine(w, start, queue[0], queue[1..], visited);
  }

  /** Examining an unexamined head keeps the search invariant: it joins the
      examined cells and the order, its bottom joins the result when it is a
      door whose bottom is new, and what it discovers joins the queue. */
  lemma InvariantAfterVisit(w: World, start: Cell, queue: seq<Cell>, visited: set<Cell>,
                            result: seq<Cell>, order: seq<Cell>)
    requires queue != [] && queue[0] !in visited
    requires SearchInvariant(w, start, queue, visited, result, order)
    ensures var current := queue[0];
            SearchInvariant(w, start, queue[1..] + Appended(w, visited, current), visited + {current},
                            if IsDoor(w, current) && DoorBottom(w, current) !in result
                            then result + [DoorBottom(w, current)] else result,
                            order + [current])
    ensures |SearchSpace(w, start) - (visited + {queue[0]})| < |SearchSpace(w, start) - visited|
  {
    var current := queue[0];
    assert queue == [current] + queue[1..];
    FrontierAfterVisit(w, visited, current, queue[1..]);
    QueueAfterExamine(w, start, current, queue[1..], visited + {current});
    if !IsDoor(w, current) {
      assert queue[1..] + Appended(w, visited, current) == queue[1..];
    }
    RemainingShrinks(SearchSpace(w, start), visited, current);
    VisitedAfterExamine(w, start, visited, current);
    OrderAfterExamine(order, visited, start, current);
    ResultAfterExamine(w, result, order, visited, current);
  }

  /** The state after one iteration, given the state before it: the head is
      taken off the queue; when it is new it is examined, its bottom recorded
      once if it is a door, and what it discovers queued. */
  ghost predicate IterationStep(w: World, queue: seq<Cell>, visited: set<Cell>, result: seq<Cell>, order: seq<Cell>,
                                queue': seq<Cell>, visited': set<Cell>, result': seq<Cell>, order': seq<Cell>)
    requires queue != []
  {
    && queue' == queue[1..] + (if queue[0] !in visited && IsDoor(w, queue[0])
                               then FreshDoorNeighbours(w, visited + {queue[0]}, Neighbours(queue[0]))
                               else [])
    && (queue[0] in visited ==> visited' == visited && result' == result && order' == order)
    && (queue[0] !in visited ==> visited' == visited + {queue[0]} && order' == order + [queue[0]])
    && (queue[0] !in visited ==>
          result' == if IsDoor(w, queue[0]) && DoorBottom(w, queue[0]) !in result
                     then result + [DoorBottom(w, queue[0])] else result)
  }

  /** One iteration keeps the search invariant. */
  lemma IterationKeepsInvariant(w: World, start: Cell, queue: seq<Cell>, visited: set<Cell>,
                                result: seq<Cell>, order: seq<Cell>,
                                queue': seq<Cell>, visited': set<Cell>, result': seq<Cell>, order': seq<Cell>)
    requires queue != []
    requires SearchInvariant(w, start, queue, visited, result, order)
    requires IterationStep(w, queue, visited, result, order, queue', visited', result', order')
    ensures SearchInvariant(w, start, queue', visited', result', order')
  {
    if queue[0] in visited {
      assert queue' == queue[1..] + [];
      InvariantAfterSkip(w, start, queue, visited, result, order);
    } else {
      assert queue' == queue[1..] + Appended(w, visited, queue[0]);
      InvariantAfterVisit(w, start, queue, visited, result, order);
    }
  }

  /** One iteration keeps the examined cells a discovery order and the queue
      in discovery order. */
  lemma IterationKeepsDiscoveryOrder(w: World, start: Cell, queue: seq<Cell>, visited: set<Cell>,
                                     result: seq<Cell>, order: seq<Cell>,
                                     queue': seq<Cell>, visited': set<Cell>, result': seq<Cell>, order': seq<Cell>)
    requires queue != []
    requires SearchInvariant(w, start, queue, visited, result, order)
    requires DiscoveryOrdered(w, order) && QueueInDiscoveryOrder(w, queue, visited, order)
    requires IterationStep(w, queue, visited, result, order, queue', visited', result', order')
    ensures DiscoveryOrdered(w, order') && QueueInDiscoveryOrder(w, queue', visited', order')
  {
    DiscoveryStep(w, queue, visited, order);
    if queue[0] in visited {
      assert queue' == queue[1..] + [];
      assert queue' == queue[1..] && visited' == visited && order' == order;
    } else {
      assert queue' == queue[1..] + Appended(w, visited, queue[0]);
      assert visited' == visited + {queue[0]} && order' == order + [queue[0]];
    }
  }

  /** Every iteration makes progress: it either examines a new cell of the
      search space or shortens the queue. */
  lemma IterationProgress(w: World, start: Cell, queue: seq<Cell>, visited: set<Cell>,
                          result: seq<Cell>, order: seq<Cell>,
                          queue': seq<Cell>, visited': set<Cell>, result': seq<Cell>, order': seq<Cell>)
    requires queue != []
    requires SearchInvariant(w, start, queue, visited, result, order)
    requires IterationStep(w, queue, visited, result, order, queue', visited', result', order')
    ensures visited' == visited ==> |queue'| < |queue|
    ensures visited' != visited ==> |SearchSpace(w, start) - visited'| < |SearchSpace(w, start) - visited|
  {
    assert queue[0] in queue;
    if queue[0] in visited {
      assert queue' == queue[1..] + [];
    } else {
      RemainingShrinks(SearchSpace(w, start), visited, queue[0]);
    }
  }

  /** One iteration of the search: take the head of the queue; skip it when
      already examined; otherwise mark it, and when it is an eligible door add
      its bottom to the result (once) and queue its fresh eligible neighbours. */
  method Examine(w: World, start: Cell, queue: seq<Cell>, visited: set<Cell>,
                 result: seq<Cell>, ghost order: seq<Cell>)
    returns (queue': seq<Cell>, visited': set<Cell>, result': seq<Cell>, ghost order': seq<Cell>)
    requires queue != []
    ensures queue' == queue[1..] + (if queue[0] !in visited && IsDoor(w, queue[0])
                                    then FreshDoorNeighbours(w, visited + {queue[0]}, Neighbours(queue[0]))
                                    else [])
    ensures queue[0] in visited ==> visited' == visited && result' == result && order' == order
    ensures queue[0] !in visited ==> visited' == visited + {queue[0]} && order' == order + [queue[0]]
    ensures queue[0] !in visited ==>
              result' == if IsDoor(w, queue[0]) && DoorBottom(w, queue[0]) !in result
                         then result + [DoorBottom(w, queue[0])] else result
  {
    var current := queue[0];
    queue' := queue[1..];
    visited', result', order' := visited, result, order;
    if current !in visited {
      visited' := visited + {current};
      order' := order + [current];
      if IsDoor(w, current) {
        var bottom := DoorBottom(w, current);
        if bottom !in result {
          result' := result + [bottom];
        }
        queue' := queue' + FreshDoorNeighbours(w, visited', Neighbours(current));
      } else {
        assert queue' == queue[1..] + [];
      }
    } else {
      assert queue' == queue[1..] + [];
    }
  }

  /** The search begins with only the start cell queued and nothing examined. */
  lemma SearchStarts(w: World, start: Cell)
    ensures SearchInvariant(w, start, [start], {}, [], [])
  {
    assert FirstOccurrences(BottomsAlong(w, [])) == [];
    assert BottomsOf(w, {}) == {};
  }

  /** A finished search has examined exactly the start and the doors reachable
      from it: soundness from the examined cells, completeness from the covered
      frontier with nothing left in the queue. */
  lemma ExaminedIsReachable(w: World, start: Cell, visited: set<Cell>)
    requires VisitedSound(w, start, visited) && start in visited
    requires FrontierCovers(w, visited, [])
    ensures visited == {start} + ReachableDoors(w, start)
  {
    assert ClosedUnderDoorSteps(w, visited);
    if IsDoor(w, start) {
      ClosedSetContainsReachable(w, visited, start);
    } else {
      ReachableDoorsOfStart(w, start);
    }
  }

  /** The bottoms recorded for the examined cells are those of the reachable
      doors, and each of them is itself a reachable door. */
  lemma RecordedBottoms(w: World, start: Cell, visited: set<Cell>, result: seq<Cell>)
    requires visited == {start} + ReachableDoors(w, start)
    requires forall r :: r in result <==> r in BottomsOf(w, visited)
    ensures forall r :: r in result <==> r in BottomsOf(w, ReachableDoors(w, start))
    ensures forall r :: r in result ==> r in visited
  {
    BottomsWithStart(w, start);
    forall r | r in result
      ensures r in visited
    {
      var d :| d in ReachableDoors(w, start) && IsDoor(w, d) && DoorBottom(w, d) == r;
      BottomReachable(w, start, d);
    }
  }

  /** Once the queue is empty the examined cells are exactly the start and the
      doors reachable from it, and the result holds exactly their bottoms. */
  lemma SearchFinished(w: World, start: Cell, visited: set<Cell>, result: seq<Cell>, order: seq<Cell>)
    requires SearchInvariant(w, start, [], visited, result, order)
    ensures visited == {start} + ReachableDoors(w, start)
    ensures forall r :: r in result <==> r in BottomsOf(w, ReachableDoors(w, start))
    ensures forall r :: r in result ==> r in visited
    ensures !IsDoor(w, start) ==> result == [] && visited == {start}
  {
    ExaminedIsReachable(w, start, visited);
    RecordedBottoms(w, start, visited, result);
    if !IsDoor(w, start) {
      ReachableDoorsOfStart(w, start);
    }
  }

  /** Breadth-first search from `start`. Returns the bottoms of the connected
      doors in first-discovery order, without repetition, and the set of cells
      examined; `order` is the ghost record of the cells in the order they were
      examined. That order is a discovery order, which by
      `Discovery.DiscoveryOrderUnique` is the only duplicate-free order of
      these cells from `start` that is one, so `result` is fully determined. */
  method FindConnectedDoors(w: World, start: Cell)
    returns (result: seq<Cell>, visited: set<Cell>, ghost order: seq<Cell>)
    ensures visited == {start} + ReachableDoors(w, start)
    ensures forall r :: r in result <==> r in BottomsOf(w, ReachableDoors(w, start))
    ensures NoDuplicates(result)
    ensures forall r :: r in result ==> r in visited
    ensures !IsDoor(w, start) ==> result == [] && visited == {start}
    ensures |order| > 0 && order[0] == start
    ensures NoDuplicates(order) && forall c :: c in order <==> c in visited
    ensures result == FirstOccurrences(BottomsAlong(w, order))
    ensures DiscoveryOrdered(w, order)
  {
    var queue := [start];
    visited := {};
    result := [];
    order := [];
    SearchStarts(w, start);
    while queue != []
      invariant SearchInvariant(w, start, queue, visited, result, order)
      invariant DiscoveryOrdered(w, order) && QueueInDiscoveryOrder(w, queue, visited, order)
      decreases |SearchSpace(w, start) - visited|, |queue|
    {
      ghost var queue0, visited0, result0, order0 := queue, visited, result, order;
      queue, visited, result, order := Examine(w, start, queue, visited, result, order);
      assert IterationStep(w, queue0, visited0, result0, order0, queue, visited, result, order);
      IterationProgress(w, start, queue0, visited0, result0, order0, queue, visited, result, order);
      IterationKeepsInvariant(w, start, queue0, visited0, result0, order0, queue, visited, result, order);
      IterationKeepsDiscoveryOrder(w, start, queue0, visited0, result0, order0, queue, visited, result, order);
    }
    SearchFinished(w, start, visited, result, order);
  }
}
