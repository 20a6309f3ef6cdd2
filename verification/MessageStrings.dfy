/**
 The string fields of generated messages (packet.pb.h): a pointer to the shared empty string or to
 an owned one, and a has-bit. A state holds the string fields of any number of messages, so that
 swapping two messages, and objects moving between them through the caller, are covered.
 */
module MessageStrings {
  import opened Bytes
  import opened Store

  datatype Slot = Slot(ptr: Ptr, has: bool)

  datatype State = State(slots: seq<Slot>, h: Heap<Bytes>)

  /** name(): what the accessor returns, whether or not the field is set */
  function Get(s: State, i: nat): Bytes
    requires i < |s.slots|
  {
    Read(s.h, s.slots[i].ptr)
  }

  /** A field as the user of a message sees it: set to a value, or not set */
  function Field(s: State, i: nat): Option<Bytes>
    requires i < |s.slots|
  {
    if s.slots[i].has then Some(Get(s, i)) else None
  }

  function Fields(s: State): (r: seq<Option<Bytes>>)
    ensures |r| == |s.slots|
  {
    seq(|s.slots|, i requires 0 <= i < |s.slots| => Field(s, i))
  }

  function Ptrs(slot: Slot): seq<Ptr> { if slot.ptr == EMPTY_STRING then [] else [slot.ptr] }

  function Owned(slots: seq<Slot>): seq<Ptr> {
    if slots == [] then [] else Ptrs(slots[0]) + Owned(slots[1..])
  }

  /** Strings are owned once, and a field that is not set reads as the empty string. */
  ghost predicate Inv(s: State) {
    && s.h.empty == [] && Conserved(Owned(s.slots), s.h)
    && forall i | 0 <= i < |s.slots| :: !s.slots[i].has ==> Get(s, i) == []
  }

  // ---- The accessors ------------------------------------------------------------------------

  function Mutable(s: State, i: nat): State
    requires i < |s.slots|
  {
    if s.slots[i].ptr == EMPTY_STRING then State(s.slots[i := Slot(s.h.next, true)], s.h.New())
    else s.(slots := s.slots[i := s.slots[i].(has := true)])
  }

  /** A value stored through the pointer that mutable_name() returned */
  function Write(s: State, i: nat, value: Bytes): State
    requires i < |s.slots|
  {
    if s.h.Live(s.slots[i].ptr) then s.(h := s.h.Assign(s.slots[i].ptr, value)) else s
  }

  function Set(s: State, i: nat, value: Bytes): State
    requires i < |s.slots|
  {
    Write(Mutable(s, i), i, value)
  }

  function ClearField(s: State, i: nat): State
    requires i < |s.slots|
  {
    var s' := if s.slots[i].ptr != EMPTY_STRING then Write(s, i, []) else s;
    s'.(slots := s.slots[i := s.slots[i].(has := false)])
  }

  function Release(s: State, i: nat): State
    requires i < |s.slots|
  {
    State(s.slots[i := Slot(EMPTY_STRING, false)],
          if s.slots[i].ptr == EMPTY_STRING then s.h else s.h.Give(s.slots[i].ptr))
  }

  function SetAllocated(s: State, i: nat, value: Option<Ptr>): State
    requires i < |s.slots|
  {
    var h := if s.slots[i].ptr == EMPTY_STRING then s.h else s.h.Delete(s.slots[i].ptr);
    match value
    case Some(p) => State(s.slots[i := Slot(p, true)], h.Take(p))
    case None => State(s.slots[i := Slot(EMPTY_STRING, false)], h)
  }

  /** Clear() of the message with the fields lo .. hi - 1: strings of fields that are not set are not touched. */
  function ClearMessage(s: State, lo: nat, hi: nat): State
    requires lo <= hi <= |s.slots|
    decreases hi - lo
  {
    if lo == hi then s
    else ClearMessage(if s.slots[lo].has then ClearField(s, lo) else s, lo + 1, hi)
  }

  /** The destructor's part for one string */
  function Destroy(s: State, i: nat): State
    requires i < |s.slots|
  {
    SetAllocated(s, i, None)
  }

  /** Swap() exchanges the pointers and the has-bits. */
  function Swap(s: State, i: nat, j: nat): State
    requires i < |s.slots| && j < |s.slots|
  {
    s.(slots := s.slots[i := s.slots[j]][j := s.slots[i]])
  }

  datatype Op =
    | OpMutable(i: nat)
    | OpSet(i: nat, value: Bytes)
    | OpClearField(i: nat)
    | OpRelease(i: nat)
    | OpSetAllocated(i: nat, given: Option<Ptr>)
    | OpClearMessage(lo: nat, hi: nat)
    | OpSwap(i: nat, j: nat)
    | CallerNew(value: Bytes)
    | CallerDelete(p: Ptr)

  predicate Enabled(s: State, op: Op) {
    match op
    case OpClearMessage(lo, hi) => lo <= hi <= |s.slots|
    case OpSwap(i, j) => i < |s.slots| && j < |s.slots|
    case OpSetAllocated(i, p) => i < |s.slots| && (p.Some? ==> p.value in s.h.callerOwned)
    case CallerNew(_) => true
    case CallerDelete(p) => p in s.h.callerOwned
    case _ => op.i < |s.slots|
  }

  function Step(s: State, op: Op): State
    requires Enabled(s, op)
  {
    match op
    case OpMutable(i) => Mutable(s, i)
    case OpSet(i, value) => Set(s, i, value)
    case OpClearField(i) => ClearField(s, i)
    case OpRelease(i) => Release(s, i)
    case OpSetAllocated(i, p) => SetAllocated(s, i, p)
    case OpClearMessage(lo, hi) => ClearMessage(s, lo, hi)
    case OpSwap(i, j) => Swap(s, i, j)
    case CallerNew(value) => s.(h := s.h.NewWith(value).Give(s.h.next))
    case CallerDelete(p) => s.(h := s.h.Take(p).Delete(p))
  }

  /** The same operation on a record of optional fields */
  function OnFields(f: seq<Option<Bytes>>, op: Op, h: Heap<Bytes>): (r: seq<Option<Bytes>>)
    ensures |r| == |f|
  {
    match op
    case OpMutable(i) => if i < |f| && f[i] == None then f[i := Some([])] else f
    case OpSet(i, value) => if i < |f| then f[i := Some(value)] else f
    case OpClearField(i) => if i < |f| then f[i := None] else f
    case OpRelease(i) => if i < |f| then f[i := None] else f
    case OpSetAllocated(i, p) =>
      if i < |f| then f[i := if p.Some? then Some(Read(h, p.value)) else None] else f
    case OpClearMessage(lo, hi) => seq(|f|, k requires 0 <= k < |f| => if lo <= k < hi then None else f[k])
    case OpSwap(i, j) => if i < |f| && j < |f| then f[i := f[j]][j := f[i]] else f
    case _ => f
  }

  // ---- Proofs --------------------------------------------------------------------------------

  ghost predicate Refines(s': State, fields: seq<Option<Bytes>>) {
    Inv(s') && Fields(s') == fields
  }

  lemma OwnedUnfolds(a: seq<Slot>)
    ensures Owned(a) == if a == [] then [] else Ptrs(a[0]) + Owned(a[1..])
  {
  }

  lemma {:induction false} OwnedAppend(a: seq<Slot>, b: seq<Slot>)
    ensures Owned(a + b) == Owned(a) + Owned(b)
  {
    hide Owned, Ptrs;
    OwnedUnfolds(a);
    if a == [] {
      assert a + b == b;
    } else {
      OwnedAppend(a[1..], b);
      assert (a + b)[1..] == a[1..] + b;
      OwnedUnfolds(a + b);
      Regroup(Ptrs(a[0]), Owned(a[1..]), Owned(b));
    }
  }

  /** What the other fields own */
  function Others(slots: seq<Slot>, i: nat): seq<Ptr>
    requires i < |slots|
  {
    Owned(slots[..i]) + Owned(slots[i + 1..])
  }

  lemma OwnedAround(slots: seq<Slot>, i: nat)
    requires i < |slots|
    ensures multiset(Owned(slots)) == multiset(Others(slots, i) + Ptrs(slots[i]))
  {
    hide Owned, Ptrs;
    var before, after := slots[..i], slots[i + 1..];
    OwnedOfThree(before, slots[i], after);
    SplitAround(slots, i);
    Rotate(Owned(before), Ptrs(slots[i]), Owned(after));
  }

  lemma SplitAround<T>(s: seq<T>, i: nat)
    requires i < |s|
    ensures s[..i] + ([s[i]] + s[i + 1..]) == s
  {
  }

  lemma OwnedOfThree(before: seq<Slot>, slot: Slot, after: seq<Slot>)
    ensures Owned(before + ([slot] + after)) == Owned(before) + (Ptrs(slot) + Owned(after))
  {
    OwnedOfOne(slot);
    hide Owned, Ptrs;
    OwnedAppend(before, [slot] + after);
    OwnedAppend([slot], after);
  }

  lemma Rotate<T>(a: seq<T>, b: seq<T>, c: seq<T>)
    ensures multiset(a + (b + c)) == multiset(a + c + b)
  {
  }

  lemma OwnedOfOne(slot: Slot)
    ensures Owned([slot]) == Ptrs(slot)
  {
  }

  /** To replace one field is to replace what it owns. */
  lemma ReplaceSlot(slots: seq<Slot>, i: nat, slot: Slot, h: Heap<Bytes>)
    requires i < |slots| && Conserved(Others(slots, i) + Ptrs(slot), h)
    ensures Conserved(Owned(slots[i := slot]), h)
  {
    hide Conserved;
    var slots' := slots[i := slot];
    OwnedAround(slots', i);
    assert slots'[..i] == slots[..i] && slots'[i + 1..] == slots[i + 1..];
    ReorderConserves(Others(slots, i) + Ptrs(slot), Owned(slots'), h);
  }

  lemma SeparateSlot(s: State, i: nat)
    requires Conserved(Owned(s.slots), s.h) && i < |s.slots|
    ensures Conserved(Others(s.slots, i) + Ptrs(s.slots[i]), s.h)
  {
    hide Conserved;
    OwnedAround(s.slots, i);
    ReorderConserves(Owned(s.slots), Others(s.slots, i) + Ptrs(s.slots[i]), s.h);
  }

  lemma {:induction false} OwnedContains(slots: seq<Slot>, i: nat)
    requires i < |slots| && slots[i].ptr != EMPTY_STRING
    ensures slots[i].ptr in Owned(slots)
  {
    if i > 0 { OwnedContains(slots[1..], i - 1); }
  }

  /** A string is owned by one field only, is live, and is not the caller's. */
  lemma SlotIsUnique(s: State, i: nat)
    requires Conserved(Owned(s.slots), s.h) && i < |s.slots| && s.slots[i].ptr != EMPTY_STRING
    ensures s.h.Live(s.slots[i].ptr) && s.slots[i].ptr !in s.h.callerOwned && s.slots[i].ptr < s.h.next
    ensures forall j | 0 <= j < |s.slots| && j != i :: s.slots[j].ptr != s.slots[i].ptr
  {
    hide Conserved;
    var p, others := s.slots[i].ptr, Others(s.slots, i);
    SeparateSlot(s, i);
    LastIsAlone(others, p, s.h);
    forall j | 0 <= j < |s.slots| && j != i
      ensures s.slots[j].ptr != p
    {
      if s.slots[j].ptr == p { OtherContains(s.slots, i, j); }
    }
  }

  lemma LastIsAlone(others: seq<Ptr>, p: Ptr, h: Heap<Bytes>)
    requires Conserved(others + [p], h)
    ensures h.Live(p) && p !in h.callerOwned && p < h.next && p !in others
  {
  }

  lemma OtherContains(slots: seq<Slot>, i: nat, j: nat)
    requires i < |slots| && j < |slots| && i != j && slots[j].ptr != EMPTY_STRING
    ensures slots[j].ptr in Others(slots, i)
  {
    if j < i {
      OwnedContains(slots[..i], j);
    } else {
      OwnedContains(slots[i + 1..], j - i - 1);
    }
  }

  lemma AllUnique(s: State)
    requires Conserved(Owned(s.slots), s.h)
    ensures forall i | 0 <= i < |s.slots| && s.slots[i].ptr != EMPTY_STRING ::
              s.h.Live(s.slots[i].ptr) && s.slots[i].ptr !in s.h.callerOwned && s.slots[i].ptr < s.h.next
    ensures forall i, j | 0 <= i < |s.slots| && 0 <= j < |s.slots| && i != j && s.slots[i].ptr != EMPTY_STRING ::
              s.slots[j].ptr != s.slots[i].ptr
    ensures s.h.next > EMPTY_STRING && Read(s.h, EMPTY_STRING) == s.h.empty
  {
    assert s.h.Consistent();
    hide Conserved;
    forall i | 0 <= i < |s.slots| && s.slots[i].ptr != EMPTY_STRING
      ensures s.h.Live(s.slots[i].ptr) && s.slots[i].ptr !in s.h.callerOwned && s.slots[i].ptr < s.h.next
      ensures forall j | 0 <= j < |s.slots| && j != i :: s.slots[j].ptr != s.slots[i].ptr
    {
      SlotIsUnique(s, i);
    }
  }

  /** All fields but number i are as they were. */
  ghost predicate SameElsewhere(s: State, s': State, i: nat) {
    && |s'.slots| == |s.slots|
    && forall j | 0 <= j < |s.slots| && j != i ::
         s'.slots[j] == s.slots[j] && Read(s'.h, s.slots[j].ptr) == Read(s.h, s.slots[j].ptr)
  }

  lemma OneFieldChanged(s: State, s': State, i: nat)
    requires Inv(s) && i < |s.slots| && SameElsewhere(s, s', i)
    requires s'.h.empty == [] && Conserved(Owned(s'.slots), s'.h) && (!s'.slots[i].has ==> Get(s', i) == [])
    ensures Refines(s', Fields(s)[i := Field(s', i)])
  {
  }

  lemma MutableKeeps(s: State, i: nat)
    requires Inv(s) && i < |s.slots|
    ensures Refines(Mutable(s, i), OnFields(Fields(s), OpMutable(i), s.h))
    ensures Mutable(s, i).h.Live(Mutable(s, i).slots[i].ptr)
  {
    hide Conserved, Fields;
    AllUnique(s);
    var s' := Mutable(s, i);
    assert Conserved(Owned(s'.slots), s'.h) by {
      SeparateSlot(s, i);
      if s.slots[i].ptr == EMPTY_STRING {
        assert Others(s.slots, i) + [] == Others(s.slots, i);
        NewConserves(Others(s.slots, i), s.h);
      }
      ReplaceSlot(s.slots, i, s'.slots[i], s'.h);
    }
    OneFieldChanged(s, s', i);
    assert Field(s', i) == if s.slots[i].has then Field(s, i) else Some([]);
    FieldsAt(s, i);
  }

  lemma FieldsAt(s: State, i: nat)
    requires i < |s.slots|
    ensures Fields(s)[i] == Field(s, i) && Fields(s)[i := Field(s, i)] == Fields(s)
  {
  }

  lemma WriteKeeps(s: State, i: nat, value: Bytes)
    requires Inv(s) && i < |s.slots| && s.slots[i].has && s.h.Live(s.slots[i].ptr)
    ensures Refines(Write(s, i, value), Fields(s)[i := Some(value)])
  {
    hide Conserved, Fields;
    AllUnique(s);
    AssignConserves(Owned(s.slots), s.h, s.slots[i].ptr, value);
    OneFieldChanged(s, Write(s, i, value), i);
  }

  lemma SetKeeps(s: State, i: nat, value: Bytes)
    requires Inv(s) && i < |s.slots|
    ensures Refines(Set(s, i, value), Fields(s)[i := Some(value)])
  {
    hide Conserved, Inv;
    MutableKeeps(s, i);
    WriteKeeps(Mutable(s, i), i, value);
    assert OnFields(Fields(s), OpMutable(i), s.h)[i := Some(value)] == Fields(s)[i := Some(value)];
  }

  /** Setting a field leaves alone the caller's strings and the shared empty one. */
  lemma SetLeavesOthers(s: State, i: nat, value: Bytes)
    requires Inv(s) && i < |s.slots|
    ensures var h := Set(s, i, value).h;
            && h.callerOwned == s.h.callerOwned
            && (forall p | p in s.h.callerOwned || p == EMPTY_STRING :: Read(h, p) == Read(s.h, p))
  {
    hide Conserved;
    AllUnique(s);
    forall p | p in s.h.callerOwned
      ensures p < s.h.next
    {
      CallerObjectIsLive(Owned(s.slots), s.h, p);
    }
  }

  lemma ClearFieldKeeps(s: State, i: nat)
    requires Inv(s) && i < |s.slots|
    ensures Refines(ClearField(s, i), Fields(s)[i := None])
    ensures Get(ClearField(s, i), i) == []
  {
    hide Conserved, Fields;
    AllUnique(s);
    var s' := ClearField(s, i);
    assert Conserved(Owned(s'.slots), s'.h) by {
      if s.slots[i].ptr != EMPTY_STRING {
        AssignConserves(Owned(s.slots), s.h, s.slots[i].ptr, []);
      }
      SeparateSlot(State(s.slots, s'.h), i);
      ReplaceSlot(s.slots, i, s'.slots[i], s'.h);
    }
    OneFieldChanged(s, s', i);
  }

  lemma ReleaseKeeps(s: State, i: nat)
    requires Inv(s) && i < |s.slots|
    ensures Refines(Release(s, i), Fields(s)[i := None])
  {
    hide Conserved;
    AllUnique(s);
    var s' := Release(s, i);
    var others := Others(s.slots, i);
    SeparateSlot(s, i);
    if s.slots[i].ptr != EMPTY_STRING {
      GiveConserves(others + [s.slots[i].ptr], s.h, |others|);
      DropLast(others, s.slots[i].ptr);
    }
    assert others + [] == others;
    ReplaceSlot(s.slots, i, Slot(EMPTY_STRING, false), s'.h);
    OneFieldChanged(s, s', i);
  }

  lemma DropLast(others: seq<Ptr>, p: Ptr)
    ensures (others + [p])[..|others|] + (others + [p])[|others| + 1..] == others
  {
  }

  /** delete of the string a field owns, if it owns one */
  lemma DeleteOwnConserves(s: State, i: nat)
    requires Conserved(Owned(s.slots), s.h) && i < |s.slots|
    ensures Conserved(Others(s.slots, i), SetAllocated(s, i, None).h)
  {
    hide Conserved;
    var others := Others(s.slots, i);
    SeparateSlot(s, i);
    assert others + [] == others;
    if s.slots[i].ptr != EMPTY_STRING {
      DeleteConserves(others + [s.slots[i].ptr], s.h, |others|);
      DropLast(others, s.slots[i].ptr);
    }
  }

  lemma SetAllocatedConserves(s: State, i: nat, p: Option<Ptr>)
    requires Conserved(Owned(s.slots), s.h) && Enabled(s, OpSetAllocated(i, p))
    ensures Conserved(Owned(SetAllocated(s, i, p).slots), SetAllocated(s, i, p).h)
  {
    hide Conserved;
    var s' := SetAllocated(s, i, p);
    var others := Others(s.slots, i);
    DeleteOwnConserves(s, i);
    assert others + [] == others;
    if p.Some? {
      CallerObjectIsLive(Owned(s.slots), s.h, p.value);
      TakeConserves(others, SetAllocated(s, i, None).h, p.value);
    }
    ReplaceSlot(s.slots, i, s'.slots[i], s'.h);
  }

  lemma SetAllocatedKeeps(s: State, i: nat, p: Option<Ptr>)
    requires Inv(s) && Enabled(s, OpSetAllocated(i, p))
    ensures Refines(SetAllocated(s, i, p), OnFields(Fields(s), OpSetAllocated(i, p), s.h))
  {
    hide Conserved, Fields;
    AllUnique(s);
    SetAllocatedConserves(s, i, p);
    if p.Some? {
      CallerObjectIsLive(Owned(s.slots), s.h, p.value);
    }
    OneFieldChanged(s, SetAllocated(s, i, p), i);
  }

  /** Although Clear() skips the strings of fields that are not set, afterwards every field reads as empty. */
  lemma {:induction false} ClearMessageKeeps(s: State, lo: nat, hi: nat)
    requires Inv(s) && lo <= hi <= |s.slots|
    ensures Refines(ClearMessage(s, lo, hi), OnFields(Fields(s), OpClearMessage(lo, hi), s.h))
    ensures forall k | lo <= k < hi :: Get(ClearMessage(s, lo, hi), k) == []
    decreases hi - lo
  {
    hide Conserved, ClearField, Owned;
    if lo < hi {
      var s1 := if s.slots[lo].has then ClearField(s, lo) else s;
      if s.slots[lo].has { ClearFieldKeeps(s, lo); }
      assert Fields(s1) == Fields(s)[lo := None];
      ClearMessageKeeps(s1, lo + 1, hi);
      var s' := ClearMessage(s, lo, hi);
      assert Fields(s')[lo] == None;
    }
    assert Fields(ClearMessage(s, lo, hi)) == OnFields(Fields(s), OpClearMessage(lo, hi), s.h);
  }

  /** Clear() of a message with two strings, written out */
  lemma ClearTwo(s: State)
    requires |s.slots| == 2
    ensures var h1 := if s.slots[0].has && s.h.Live(s.slots[0].ptr) then s.h.Assign(s.slots[0].ptr, []) else s.h;
            var h2 := if s.slots[1].has && h1.Live(s.slots[1].ptr) then h1.Assign(s.slots[1].ptr, []) else h1;
            ClearMessage(s, 0, 2) == State([Slot(s.slots[0].ptr, false), Slot(s.slots[1].ptr, false)], h2)
  {
  }

  lemma SwapKeeps(s: State, i: nat, j: nat)
    requires Inv(s) && i < |s.slots| && j < |s.slots|
    ensures Refines(Swap(s, i, j), Fields(s)[i := Fields(s)[j]][j := Fields(s)[i]])
  {
    var s' := Swap(s, i, j);
    SwapFields(s, i, j);
    hide Conserved, Owned, Fields;
    assert Conserved(Owned(s'.slots), s.h) by {
      OwnedOfPermutation(s.slots, s'.slots);
      ReorderConserves(Owned(s.slots), Owned(s'.slots), s.h);
    }
  }

  lemma SwapFields(s: State, i: nat, j: nat)
    requires i < |s.slots| && j < |s.slots|
    ensures Fields(Swap(s, i, j)) == Fields(s)[i := Fields(s)[j]][j := Fields(s)[i]]
  {
  }

  lemma {:induction false} OwnedOfPermutation(a: seq<Slot>, b: seq<Slot>)
    requires multiset(a) == multiset(b)
    ensures multiset(Owned(a)) == multiset(Owned(b))
    decreases a
  {
    hide Owned;
    if a == [] {
      assert |multiset(b)| == |b|;
    } else {
      assert a[0] in multiset(b);
      var i :| 0 <= i < |b| && b[i] == a[0];
      WithoutFirst(a, b, i);
      OwnedOfPermutation(a[1..], b[..i] + b[i + 1..]);
      OwnedAround(b, i);
      OwnedAppend(b[..i], b[i + 1..]);
      OwnedAround(a, 0);
      OwnedAppend(a[..0], a[1..]);
      assert a[..0] + a[1..] == a[1..];
    }
  }

  lemma WithoutFirst(a: seq<Slot>, b: seq<Slot>, i: nat)
    requires a != [] && i < |b| && b[i] == a[0] && multiset(a) == multiset(b)
    ensures multiset(a[1..]) == multiset(b[..i] + b[i + 1..])
  {
    assert a == [a[0]] + a[1..];
    assert b == b[..i] + [b[i]] + b[i + 1..];
    assert multiset(a) == multiset{a[0]} + multiset(a[1..]);
    assert multiset(b) == multiset(b[..i] + b[i + 1..]) + multiset{b[i]};
    assert multiset(a[1..]) == multiset(a) - multiset{a[0]};
  }

  lemma CallerNewKeeps(s: State, value: Bytes)
    requires Inv(s)
    ensures Refines(s.(h := s.h.NewWith(value).Give(s.h.next)), Fields(s))
  {
    hide Conserved, Fields;
    AllUnique(s);
    CallerNewConserves(Owned(s.slots), s.h, value);
    SameReads(s, s.(h := s.h.NewWith(value).Give(s.h.next)));
  }

  lemma CallerDeleteKeeps(s: State, p: Ptr)
    requires Inv(s) && p in s.h.callerOwned
    ensures Refines(s.(h := s.h.Take(p).Delete(p)), Fields(s))
  {
    hide Conserved, Fields;
    CallerObjectIsLive(Owned(s.slots), s.h, p);
    OwnedHas(s.slots, p);
    CallerDeleteConserves(Owned(s.slots), s.h, p);
    SameReads(s, s.(h := s.h.Take(p).Delete(p)));
  }

  lemma OwnedHas(slots: seq<Slot>, p: Ptr)
    requires p !in Owned(slots) && p != EMPTY_STRING
    ensures forall i | 0 <= i < |slots| :: slots[i].ptr != p
  {
  }

  lemma SameReads(s: State, s': State)
    requires Inv(s) && s'.slots == s.slots && s'.h.empty == [] && Conserved(Owned(s'.slots), s'.h)
    requires forall i | 0 <= i < |s.slots| :: Read(s'.h, s.slots[i].ptr) == Read(s.h, s.slots[i].ptr)
    ensures Refines(s', Fields(s))
  {
  }

  /** Each accessor keeps the invariant and acts on the fields as on a record of optional values. */
  lemma StepRefines(s: State, op: Op)
    requires Inv(s) && Enabled(s, op)
    ensures Refines(Step(s, op), OnFields(Fields(s), op, s.h))
  {
    hide Conserved, Inv, Fields;
    match op
    case OpMutable(i) => MutableKeeps(s, i);
    case OpSet(i, value) => SetKeeps(s, i, value);
    case OpClearField(i) => ClearFieldKeeps(s, i);
    case OpRelease(i) => ReleaseKeeps(s, i);
    case OpSetAllocated(i, p) => SetAllocatedKeeps(s, i, p);
    case OpClearMessage(lo, hi) => ClearMessageKeeps(s, lo, hi);
    case OpSwap(i, j) => SwapKeeps(s, i, j);
    case CallerNew(value) => CallerNewKeeps(s, value);
    case CallerDelete(p) => CallerDeleteKeeps(s, p);
  }

  ghost predicate CanRun(s: State, ops: seq<Op>)
    decreases ops
  {
    ops != [] ==> Enabled(s, ops[0]) && CanRun(Step(s, ops[0]), ops[1..])
  }

  function Run(s: State, ops: seq<Op>): State
    requires CanRun(s, ops)
    decreases ops
  {
    if ops == [] then s else Run(Step(s, ops[0]), ops[1..])
  }

  ghost function RunOnFields(s: State, f: seq<Option<Bytes>>, ops: seq<Op>): seq<Option<Bytes>>
    requires CanRun(s, ops)
    decreases ops
  {
    if ops == [] then f else RunOnFields(Step(s, ops[0]), OnFields(f, ops[0], s.h), ops[1..])
  }

  lemma {:induction false} RunRefines(s: State, ops: seq<Op>)
    requires Inv(s) && CanRun(s, ops)
    ensures Refines(Run(s, ops), RunOnFields(s, Fields(s), ops))
    decreases ops
  {
    hide Inv, Step, OnFields, Enabled, Fields;
    if ops != [] {
      StepRefines(s, ops[0]);
      RunRefines(Step(s, ops[0]), ops[1..]);
    }
  }

  /** n fields as SharedCtor leaves them */
  function Fresh(n: nat): State {
    State(seq(n, _ => Slot(EMPTY_STRING, false)), Heap([], map[EMPTY_STRING := []], 1, [], {}))
  }

  lemma {:induction false} FreshOwnsNothing(slots: seq<Slot>)
    requires forall i | 0 <= i < |slots| :: slots[i].ptr == EMPTY_STRING
    ensures Owned(slots) == []
  {
    if slots != [] { FreshOwnsNothing(slots[1..]); }
  }

  /**
   After any sequence of accessor calls on any number of messages: each pointer is the shared empty
   string or a live string of that field alone, the shared empty string is still there and empty,
   no string was lost or deleted twice, and a field that is not set reads as empty.
   */
  lemma EveryRunKeeps(n: nat, ops: seq<Op>)
    requires CanRun(Fresh(n), ops)
    ensures var s := Run(Fresh(n), ops);
            && Refines(s, RunOnFields(Fresh(n), seq(n, _ => None), ops))
            && Read(s.h, EMPTY_STRING) == [] && EMPTY_STRING !in s.h.deleted
            && (forall i | 0 <= i < |s.slots| && s.slots[i].ptr != EMPTY_STRING ::
                  s.h.Live(s.slots[i].ptr) && s.slots[i].ptr !in s.h.callerOwned)
            && (forall i, j | 0 <= i < |s.slots| && 0 <= j < |s.slots| && i != j && s.slots[i].ptr != EMPTY_STRING ::
                  s.slots[j].ptr != s.slots[i].ptr)
  {
    hide Run, CanRun, RunOnFields, Conserved, Owned;
    FreshIsFine(n);
    RunRefines(Fresh(n), ops);
    var s := Run(Fresh(n), ops);
    AllUnique(s);
    EmptyIsKept(s);
  }

  lemma FreshIsFine(n: nat)
    ensures Inv(Fresh(n)) && Fields(Fresh(n)) == seq(n, _ => None)
  {
    FreshOwnsNothing(Fresh(n).slots);
  }

  lemma EmptyIsKept(s: State)
    requires Conserved(Owned(s.slots), s.h)
    ensures EMPTY_STRING !in s.h.deleted
  {
  }
}
