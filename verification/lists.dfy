/**
 Duplicate-free sequences of cells, as the search builds its result list.
 */
module Lists {
  import opened Grid

  /** No cell occurs twice. */
  predicate NoDuplicates(s: seq<Cell>) {
    forall i, j :: 0 <= i < j < |s| ==> s[i] != s[j]
  }

  /** The position of the first occurrence of `x` in `s`. */
  function FirstIndex(s: seq<Cell>, x: Cell): (k: nat)
    requires x in s
    ensures k < |s| && s[k] == x
    ensures forall i :: 0 <= i < k ==> s[i] != x
    decreases |s|
  {
    if s[0] == x then 0 else 1 + FirstIndex(s[1..], x)
  }

  /** Appending cannot move the first occurrence of a cell already present. */
  lemma FirstIndexOfPrefix(s: seq<Cell>, t: seq<Cell>, x: Cell)
    requires x in s
    ensures FirstIndex(s + t, x) == FirstIndex(s, x)
  {
    var k := FirstIndex(s, x);
    var k' := FirstIndex(s + t, x);
    assert (s + t)[k] == x;
  }

  /** `s` with every repeated element dropped after its first occurrence: the
      same cells, each once, ordered by where they first occur in `s`. */
  function FirstOccurrences(s: seq<Cell>): (r: seq<Cell>)
    ensures forall x :: x in r <==> x in s
    ensures NoDuplicates(r)
    ensures forall i, j :: 0 <= i < j < |r| ==> FirstIndex(s, r[i]) < FirstIndex(s, r[j])
    decreases |s|
  {
    if s == [] then []
    else
      var init := s[..|s| - 1];
      var last := s[|s| - 1];
      assert s == init + [last];
      var prefix := FirstOccurrences(init);
      FirstIndicesKept(init, last, prefix);
      if last in prefix then prefix else prefix + [last]
  }

  /** The first indices of the cells of `init` do not change when a cell is
      appended, and a cell new to `init` first occurs after all of them. */
  lemma FirstIndicesKept(init: seq<Cell>, last: Cell, prefix: seq<Cell>)
    requires forall x :: x in prefix <==> x in init
    ensures forall x :: x in prefix ==> FirstIndex(init + [last], x) == FirstIndex(init, x)
    ensures last !in init ==> FirstIndex(init + [last], last) == |init|
  {
    forall x | x in prefix
      ensures FirstIndex(init + [last], x) == FirstIndex(init, x)
    {
      FirstIndexOfPrefix(init, [last], x);
    }
  }

  /** Every cell of `r` occurs in `ns`, and `r` lists them in the order of
      their first occurrence there. */
  ghost predicate OrderedAlong(r: seq<Cell>, ns: seq<Cell>) {
    && (forall x :: x in r ==> x in ns)
    && (forall i, j :: 0 <= i < j < |r| ==> FirstIndex(ns, r[i]) < FirstIndex(ns, r[j]))
  }

  /** In a duplicate-free list, a cell of the tail is not the head, and its
      first index is one past its first index in the tail. */
  lemma FirstIndexInTail(ns: seq<Cell>, x: Cell)
    requires NoDuplicates(ns) && |ns| > 0 && x in ns[1..]
    ensures x != ns[0] && x in ns
    ensures FirstIndex(ns, x) == 1 + FirstIndex(ns[1..], x)
  {
    var t := FirstIndex(ns[1..], x);
    assert ns[t + 1] == x;
  }

  /** A list ordered along the tail of a duplicate-free list is ordered along
      the whole list and does not hold its head. */
  lemma OrderedAlongTail(ns: seq<Cell>, later: seq<Cell>)
    requires NoDuplicates(ns) && |ns| > 0
    requires OrderedAlong(later, ns[1..])
    ensures ns[0] !in later
    ensures forall x :: x in later ==> x in ns && FirstIndex(ns, x) == 1 + FirstIndex(ns[1..], x)
    ensures OrderedAlong(later, ns)
  {
    forall x | x in later
      ensures x != ns[0] && x in ns && FirstIndex(ns, x) == 1 + FirstIndex(ns[1..], x)
    {
      FirstIndexInTail(ns, x);
    }
    forall i, j | 0 <= i < j < |later|
      ensures FirstIndex(ns, later[i]) < FirstIndex(ns, later[j])
    {
      assert later[i] in later && later[j] in later;
    }
  }

  /** Putting the head in front of a list ordered along the tail of a
      duplicate-free list gives a list ordered along the whole list. */
  lemma OrderedAlongWithHead(ns: seq<Cell>, later: seq<Cell>)
    requires NoDuplicates(ns) && |ns| > 0
    requires OrderedAlong(later, ns[1..])
    ensures OrderedAlong([ns[0]] + later, ns)
  {
    OrderedAlongTail(ns, later);
    var r := [ns[0]] + later;
    assert FirstIndex(ns, ns[0]) == 0;
    forall i, j | 0 <= i < j < |r|
      ensures FirstIndex(ns, r[i]) < FirstIndex(ns, r[j])
    {
      assert r[j] == later[j - 1];
      if i > 0 {
        assert r[i] == later[i - 1];
      }
    }
  }

  /** Appending a cell new to a list appends it to the first occurrences. */
  lemma FirstOccurrencesAppendNew(init: seq<Cell>, last: Cell)
    requires last !in init
    ensures FirstOccurrences(init + [last]) == FirstOccurrences(init) + [last]
  {
    var s := init + [last];
    assert s[..|s| - 1] == init && s[|s| - 1] == last;
  }

  /** A duplicate-free list is its own list of first occurrences. */
  lemma {:induction false} FirstOccurrencesOfDistinct(s: seq<Cell>)
    requires NoDuplicates(s)
    ensures FirstOccurrences(s) == s
    decreases |s|
  {
    if s != [] {
      var init, last := s[..|s| - 1], s[|s| - 1];
      assert s == init + [last];
      FirstOccurrencesOfDistinct(init);
      FirstOccurrencesAppendNew(init, last);
    }
  }
}
