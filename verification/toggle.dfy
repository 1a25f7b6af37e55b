/**
 The toggle pass: every door of a found cluster is driven to one target state,
 and only doors not already in that state are written.
 */
module Toggle {
  import opened Grid
  import opened Lists

  /** The open flag of every cell that carries door data; a cell outside the
      map has no door data and is never written. */
  type DoorState = map<Cell, bool>

  /** The state after a pass and the cells actually written, in write order;
      each write is what the host answers with a door sound. */
  datatype Pass = Pass(state: DoorState, written: seq<Cell>)

  /** Opens one door unless it is already open; a cell without door data is
      left untouched. */
  function OpenDoor(s: DoorState, c: Cell): (r: Pass)
    ensures r.state.Keys == s.Keys
    ensures c in s ==> r.state[c]
    ensures forall x :: x in s && x != c ==> r.state[x] == s[x]
    ensures r.written == (if c in s && !s[c] then [c] else [])
    ensures r.written == [] ==> r.state == s
  {
    if c in s && !s[c] then Pass(s[c := true], [c]) else Pass(s, [])
  }

  /** Closes one door unless it is already closed; a cell without door data is
      left untouched. */
  function CloseDoor(s: DoorState, c: Cell): (r: Pass)
    ensures r.state.Keys == s.Keys
    ensures c in s ==> !r.state[c]
    ensures forall x :: x in s && x != c ==> r.state[x] == s[x]
    ensures r.written == (if c in s && s[c] then [c] else [])
    ensures r.written == [] ==> r.state == s
  {
    if c in s && s[c] then Pass(s[c := false], [c]) else Pass(s, [])
  }

  /** One step of the pass: opens the door when the target is open and closes it
      otherwise. The door ends in `target`, nothing else changes, and it is
      written exactly when it was not already in `target`. */
  function Drive(s: DoorState, c: Cell, target: bool): (r: Pass)
    ensures r.state.Keys == s.Keys
    ensures c in s ==> r.state[c] == target
    ensures forall x :: x in s && x != c ==> r.state[x] == s[x]
    ensures r.written == (if c in s && s[c] != target then [c] else [])
    ensures r.written == [] ==> r.state == s
  {
    if target then OpenDoor(s, c) else CloseDoor(s, c)
  }

  /** The doors of `doors` that carry door data not yet in the target state, in
      the order of `doors`. */
  function NeedingChange(s: DoorState, doors: seq<Cell>, target: bool): (r: seq<Cell>)
    ensures forall c :: c in r <==> c in doors && c in s && s[c] != target
    decreases |doors|
  {
    if doors == [] then []
    else
      var rest := NeedingChange(s, doors[1..], target);
      if doors[0] in s && s[doors[0]] != target then [doors[0]] + rest else rest
  }

  /** Changing a door outside `doors` does not change which of them need a
      change. */
  lemma {:induction false} NeedingChangeFrame(s: DoorState, s': DoorState, doors: seq<Cell>, target: bool)
    requires s'.Keys == s.Keys
    ensures (forall c :: c in doors && c in s ==> s'[c] == s[c]) ==>
              NeedingChange(s', doors, target) == NeedingChange(s, doors, target)
    decreases |doors|
  {
    if doors != [] {
      NeedingChangeFrame(s, s', doors[1..], target);
    }
  }

  /** The pass over a list of doors in list order: each is opened when the
      target is open and closed otherwise. */
  function ApplyAll(s: DoorState, doors: seq<Cell>, target: bool): (r: Pass)
    ensures r.state.Keys == s.Keys
    ensures forall c :: c in s ==> r.state[c] == (if c in doors then target else s[c])
    ensures forall c :: c in r.written <==> c in doors && c in s && s[c] != target
    ensures NoDuplicates(r.written)
    ensures NoDuplicates(doors) ==> r.written == NeedingChange(s, doors, target)
    ensures (forall c :: c in doors && c in s ==> s[c] == target) ==> r == Pass(s, [])
    decreases |doors|
  {
    if doors == [] then Pass(s, [])
    else
      var first := Drive(s, doors[0], target);
      var rest := ApplyAll(first.state, doors[1..], target);
      NeedingChangeFrame(s, first.state, doors[1..], target);
      Pass(rest.state, first.written + rest.written)
  }

  /** Running the pass a second time with the same target writes nothing and
      changes nothing. */
  lemma ApplyAllTwice(s: DoorState, doors: seq<Cell>, target: bool)
    ensures var once := ApplyAll(s, doors, target);
            ApplyAll(once.state, doors, target) == Pass(once.state, [])
  {
  }
}
