/** The table that gives each outstanding login its own exchange identifier: 1024 slots and
    a hint where to look first. Slot 0 is never used. */
module RequestMap {
  import opened Bytes
  import opened Wrappers

  const LEN := 1024

  datatype MapState<T> = MapState(slots: seq<Option<T>>, hint: nat) {
    predicate Valid() {
      |slots| == LEN && slots[0] == None && 1 <= hint <= LEN
    }

    predicate HasFree() {
      exists i :: 1 <= i < |slots| && slots[i] == None
    }
  }

  /** The first empty slot from i on, or LEN. */
  function FirstFree<T>(slots: seq<Option<T>>, i: nat): (r: nat)
    requires i <= |slots|
    ensures i <= r <= |slots|
    ensures r < |slots| ==> slots[r] == None
    ensures forall j :: i <= j < r ==> slots[j] != None
    decreases |slots| - i
  {
    if i == |slots| || slots[i] == None then i else FirstFree(slots, i + 1)
  }

  /** The slot the next add uses: the hint if it is empty, else the first empty slot, and
      slot 1 when there is none. */
  function Pick<T>(m: MapState<T>): (r: nat)
    requires m.Valid()
    ensures 1 <= r < LEN
  {
    if m.hint >= LEN || m.slots[m.hint] != None then
      var free := FirstFree(m.slots, 1);
      if free < LEN then free else 1
    else m.hint
  }

  function Added<T>(m: MapState<T>, e: T): MapState<T>
    requires m.Valid()
  {
    MapState(m.slots[Pick(m) := Some(e)], Pick(m) + 1)
  }

  function Removed<T>(m: MapState<T>, i: nat): MapState<T>
    requires m.Valid() && i < LEN
  {
    if m.slots[i] != None then MapState(m.slots[i := None], i) else m
  }

  /** An add lands on an empty slot exactly when there is one. */
  lemma PickIsFreeIff<T>(m: MapState<T>)
    requires m.Valid()
    ensures m.slots[Pick(m)] == None <==> m.HasFree()
  {}

  lemma AddedAndRemovedKeepValid<T>(m: MapState<T>, e: T, i: nat)
    requires m.Valid() && i < LEN
    ensures Added(m, e).Valid() && Removed(m, i).Valid()
  {}

  /** Removing what was just added restores the slots exactly when the add found a free one. */
  lemma RemoveUndoesAddIff<T>(m: MapState<T>, e: T)
    requires m.Valid()
    ensures Added(m, e).Valid()
    ensures Removed(Added(m, e), Pick(m)).slots == m.slots <==> m.HasFree()
  {
    PickIsFreeIff(m);
    var i := Pick(m);
    var r := Removed(Added(m, e), i).slots;
    assert r == m.slots[i := None];
    assert r[i] == None;
  }

  /** A freed slot is the next one handed out. */
  lemma FreedSlotIsNext<T>(m: MapState<T>, i: nat)
    requires m.Valid() && i < LEN && m.slots[i] != None
    ensures Removed(m, i).Valid() && Pick(Removed(m, i)) == i
  {}

  // ---- the table in memory ----

  class RequestTable<T> {
    var slots: array<Option<T>>
    var hint: nat

    ghost predicate Valid()
      reads this, slots
    {
      slots.Length == LEN && State().Valid()
    }

    ghost function State(): MapState<T>
      reads this, slots
    {
      MapState(slots[..], hint)
    }

    constructor ()
      ensures Valid() && fresh(slots)
      ensures State() == MapState(seq(LEN, _ => None), 1)
    {
      slots := new Option<T>[LEN](_ => None);
      hint := 1;
      new;
      assert slots[..] == seq(LEN, _ => None);
    }

    method AddEntry(e: T) returns (index: nat)
      requires Valid()
      modifies this`hint, slots
      ensures Valid()
      ensures index == Pick(old(State())) && State() == Added(old(State()), e)
    {
      ghost var was := State();
      if hint >= LEN || slots[hint] != None {
        hint := 1;
        var i := 1;
        while i < LEN
          invariant 1 <= i <= LEN && hint == 1
          invariant slots[..] == was.slots
          invariant FirstFree(was.slots, 1) == FirstFree(was.slots, i)
        {
          if slots[i] == None {
            hint := i;
            break;
          }
          i := i + 1;
        }
      }
      slots[hint] := Some(e);
      index := hint;
      hint := hint + 1;
      assert slots[..] == was.slots[index := Some(e)];
    }

    method RemoveEntry(i: nat)
      requires Valid() && i < LEN
      modifies this`hint, slots
      ensures Valid() && State() == Removed(old(State()), i)
    {
      ghost var was := State();
      if slots[i] != None {
        slots[i] := None;
        hint := i;
        assert slots[..] == was.slots[i := None];
      }
    }

    method GetEntry(i: nat) returns (e: Option<T>)
      requires Valid() && i < LEN
      ensures e == State().slots[i]
    {
      e := None;
      if slots[i] != None {
        e := slots[i];
      }
    }
  }

  // ---- whole histories ----

  datatype Op<T> = Add(e: T) | Remove(i: nat)

  predicate InRange<T>(ops: seq<Op<T>>) {
    forall k :: 0 <= k < |ops| && ops[k].Remove? ==> ops[k].i < LEN
  }

  function Apply<T>(m: MapState<T>, op: Op<T>): (r: MapState<T>)
    requires m.Valid() && (op.Remove? ==> op.i < LEN)
    ensures r.Valid()
  {
    match op
    case Add(e) => Added(m, e)
    case Remove(i) => Removed(m, i)
  }

  function Run<T>(m: MapState<T>, ops: seq<Op<T>>): (r: MapState<T>)
    requires m.Valid() && InRange(ops)
    ensures r.Valid()
    decreases |ops|
  {
    if ops == [] then m else Run(Apply(m, ops[0]), ops[1..])
  }

  function Occupied<T>(slots: seq<Option<T>>): nat {
    if slots == [] then 0 else (if slots[0] == None then 0 else 1) + Occupied(slots[1..])
  }

  function Count<T>(o: Option<T>): nat {
    if o == None then 0 else 1
  }

  lemma {:induction false} OccupiedUpdate<T>(slots: seq<Option<T>>, i: nat, o: Option<T>)
    requires i < |slots|
    ensures Occupied(slots[i := o]) + Count(slots[i]) == Occupied(slots) + Count(o)
  {
    if i == 0 {
      assert slots[i := o][1..] == slots[1..];
    } else {
      assert slots[i := o][1..] == slots[1..][i - 1 := o];
      OccupiedUpdate(slots[1..], i - 1, o);
    }
  }

  /** Adds that overwrite an entry because the table is full. */
  function Overwrites<T>(m: MapState<T>, ops: seq<Op<T>>): nat
    requires m.Valid() && InRange(ops)
    decreases |ops|
  {
    if ops == [] then 0
    else (if ops[0].Add? && !m.HasFree() then 1 else 0) + Overwrites(Apply(m, ops[0]), ops[1..])
  }

  function Adds<T>(ops: seq<Op<T>>): nat {
    if ops == [] then 0 else (if ops[0].Add? then 1 else 0) + Adds(ops[1..])
  }

  /** Removes that find an entry. */
  function EffectiveRemoves<T>(m: MapState<T>, ops: seq<Op<T>>): nat
    requires m.Valid() && InRange(ops)
    decreases |ops|
  {
    if ops == [] then 0
    else (if ops[0].Remove? && m.slots[ops[0].i] != None then 1 else 0)
         + EffectiveRemoves(Apply(m, ops[0]), ops[1..])
  }

  /** Conservation over every history: entries are in the table, were removed, or were
      overwritten by an add to a full table; none is lost any other way. */
  lemma {:induction false} Conservation<T>(m: MapState<T>, ops: seq<Op<T>>)
    requires m.Valid() && InRange(ops)
    ensures Occupied(Run(m, ops).slots) + EffectiveRemoves(m, ops) + Overwrites(m, ops)
         == Occupied(m.slots) + Adds(ops)
    decreases |ops|
  {
    if ops != [] {
      match ops[0] {
        case Add(e) =>
          PickIsFreeIff(m);
          OccupiedUpdate(m.slots, Pick(m), Some(e));
        case Remove(i) =>
          OccupiedUpdate(m.slots, i, None);
      }
      Conservation(Apply(m, ops[0]), ops[1..]);
    }
  }

  /** The table's header comment promises 0 when no slot is empty. No add returns 0: on a
      full table it hands out slot 1 again and its old entry is gone. */
  lemma FullTableReusesSlotOne<T>(m: MapState<T>, e: T)
    requires m.Valid() && !m.HasFree()
    ensures m.slots[1] != None
    ensures Pick(m) == 1 && Added(m, e).slots == m.slots[1 := Some(e)]
  {}
}
