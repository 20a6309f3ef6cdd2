/** Which strings each accessor of a generated message (packet.pb.h) makes, takes over, hands out and deletes. */
module MessageLedger {
  import opened Bytes
  import opened Store
  import opened MessageStrings
  import opened MessageSharing

  /** The strings that are deleted: only set_allocated and the caller's own delete do that. */
  function Deletes(s: State, op: Op): seq<Ptr>
    requires Enabled(s, op)
  {
    match op
    case OpSetAllocated(i, _) => Ptrs(s.slots[i])
    case CallerDelete(p) => [p]
    case _ => []
  }

  function HandsOut(s: State, op: Op): set<Ptr>
    requires Enabled(s, op)
  {
    match op
    case OpRelease(i) => if s.slots[i].ptr == EMPTY_STRING then {} else {s.slots[i].ptr}
    case CallerNew(_) => {s.h.next}
    case _ => {}
  }

  function TakesOver(op: Op): set<Ptr> {
    match op
    case OpSetAllocated(_, given) => if given.Some? then {given.value} else {}
    case CallerDelete(p) => {p}
    case _ => {}
  }

  /** A string is only made for a field that still has the shared empty one. */
  function Makes(s: State, op: Op): nat
    requires Enabled(s, op)
  {
    match op
    case OpMutable(i) => One(s.slots[i].ptr == EMPTY_STRING)
    case OpSet(i, _) => One(s.slots[i].ptr == EMPTY_STRING)
    case CallerNew(_) => 1
    case _ => 0
  }

  /** Where field k points afterwards; clearing keeps the string for reuse. */
  function Points(s: State, op: Op, k: nat): Ptr
    requires Enabled(s, op) && k < |s.slots|
  {
    var own := s.slots[k].ptr;
    match op
    case OpMutable(i) => if i == k && own == EMPTY_STRING then s.h.next else own
    case OpSet(i, _) => if i == k && own == EMPTY_STRING then s.h.next else own
    case OpRelease(i) => if i == k then EMPTY_STRING else own
    case OpSetAllocated(i, given) => if i != k then own else if given.Some? then given.value else EMPTY_STRING
    case OpSwap(i, j) => if k == j then s.slots[i].ptr else if k == i then s.slots[j].ptr else own
    case _ => own
  }

  ghost predicate Accounts(s: State, s': State, op: Op)
    requires Enabled(s, op)
  {
    && s'.h.deleted == s.h.deleted + Deletes(s, op)
    && s'.h.callerOwned == s.h.callerOwned - TakesOver(op) + HandsOut(s, op)
    && s'.h.next == s.h.next + Makes(s, op)
    && |s'.slots| == |s.slots| && forall k | 0 <= k < |s.slots| :: s'.slots[k].ptr == Points(s, op, k)
  }

  lemma {:induction false} ClearMessageAccounts(s: State, lo: nat, hi: nat)
    requires lo <= hi <= |s.slots|
    ensures Accounts(s, ClearMessage(s, lo, hi), OpClearMessage(lo, hi))
    decreases hi - lo
  {
    if lo < hi {
      var s1 := if s.slots[lo].has then ClearField(s, lo) else s;
      ClearMessageAccounts(s1, lo + 1, hi);
    }
  }

  /** What each accessor does to the books and to the pointers */
  lemma StepAccounts(s: State, op: Op)
    requires Enabled(s, op)
    ensures Accounts(s, Step(s, op), op)
  {
    match op
    case OpClearMessage(lo, hi) => hide ClearMessage; ClearMessageAccounts(s, lo, hi);
    case _ =>
  }

  /**
   release_name hands out the field's own string, alive and with the value it had, and deletes nothing; a
   field that still has the shared empty string releases nothing.
   */
  lemma ReleaseHandsOut(s: State, i: nat)
    requires Sound(s) && i < |s.slots|
    ensures var p, s' := s.slots[i].ptr, Release(s, i);
            && s'.h.deleted == s.h.deleted
            && if p == EMPTY_STRING then s'.h == s.h
               else && p in s'.h.callerOwned && s'.h.Live(p) && Read(s'.h, p) == Get(s, i)
                    && (forall k | 0 <= k < |s'.slots| :: s'.slots[k].ptr != p)
  {
    hide Held;
    StepKeepsSound(s, OpRelease(i));
    OthersAreElsewhere(Release(s, i), Elsewhere(Release(s, i)));
    hide Inv;
  }

  predicate MayDelete(op: Op) { op.OpSetAllocated? || op.CallerDelete? }

  /** Without set_allocated and the caller's own delete no string is ever deleted. */
  lemma {:induction false} NothingElseDeletes(s: State, ops: seq<Op>)
    requires CanRun(s, ops) && forall op | op in ops :: !MayDelete(op)
    ensures Run(s, ops).h.deleted == s.h.deleted
    decreases ops
  {
    if ops != [] {
      StepAccounts(s, ops[0]);
      assert !MayDelete(ops[0]);
      hide Step, Enabled;
      NothingElseDeletes(Step(s, ops[0]), ops[1..]);
    }
  }
}
