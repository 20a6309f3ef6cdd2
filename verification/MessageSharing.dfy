/** Several messages, containers and callers with strings on one heap: an accessor leaves alone what is not its message's. */
module MessageSharing {
  import opened Bytes
  import opened Store
  import opened MessageStrings

  /** The message with the objects in others counted as the caller's */
  function Crowd(s: State, others: set<Ptr>): State { s.(h := Among(s.h, others)) }

  /** In the crowd an accessor does what it does without, and leaves the crowd alone. */
  ghost predicate Commutes(s: State, s': State, crowded: State, others: set<Ptr>) {
    crowded == Crowd(s', others) && Untouched(s.h, s'.h, others)
  }

  lemma OthersAreElsewhere(s: State, others: set<Ptr>)
    requires Inv(Crowd(s, others))
    ensures forall p | p in others || p in s.h.callerOwned :: s.h.Live(p) && p < s.h.next && forall i | 0 <= i < |s.slots| :: s.slots[i].ptr != p
    ensures forall i | 0 <= i < |s.slots| :: s.slots[i].ptr < s.h.next
    ensures s.h.next > EMPTY_STRING
  {
    AllUnique(Crowd(s, others));
    hide Conserved;
    OthersAreLive(Owned(s.slots), s.h, others);
    forall i | 0 <= i < |s.slots| && s.slots[i].ptr != EMPTY_STRING
      ensures s.slots[i].ptr in Owned(s.slots)
    {
      OwnedContains(s.slots, i);
    }
  }

  lemma SlotStepInCrowd(s: State, op: Op, others: set<Ptr>)
    requires Inv(Crowd(s, others)) && others !! s.h.callerOwned && Enabled(s, op)
    requires op.OpMutable? || op.OpSet? || op.OpClearField? || op.OpRelease? || op.OpSwap?
    ensures Commutes(s, Step(s, op), Step(Crowd(s, others), op), others)
  {
    hide Conserved;
    OthersAreElsewhere(s, others);
    assert op.OpRelease? ==> s.h.callerOwned + others + {s.slots[op.i].ptr} == s.h.callerOwned + {s.slots[op.i].ptr} + others;
  }

  lemma CallerStepInCrowd(s: State, op: Op, others: set<Ptr>)
    requires Inv(Crowd(s, others)) && others !! s.h.callerOwned && Enabled(s, op)
    requires op.CallerNew? || op.CallerDelete?
    ensures Commutes(s, Step(s, op), Step(Crowd(s, others), op), others)
  {
    hide Conserved;
    OthersAreElsewhere(s, others);
    assert op.CallerDelete? ==> s.h.callerOwned + others - {op.p} == s.h.callerOwned - {op.p} + others;
    assert op.CallerNew? ==> s.h.callerOwned + others + {s.h.next} == s.h.callerOwned + {s.h.next} + others;
  }

  lemma SetAllocatedInCrowd(s: State, i: nat, p: Option<Ptr>, others: set<Ptr>)
    requires Inv(Crowd(s, others)) && others !! s.h.callerOwned && Enabled(s, OpSetAllocated(i, p))
    ensures Commutes(s, SetAllocated(s, i, p), SetAllocated(Crowd(s, others), i, p), others)
  {
    hide Conserved;
    OthersAreElsewhere(s, others);
    assert p.Some? ==> s.h.callerOwned + others - {p.value} == s.h.callerOwned - {p.value} + others;
  }

  lemma {:induction false} ClearMessageInCrowd(s: State, lo: nat, hi: nat, others: set<Ptr>)
    requires Inv(Crowd(s, others)) && others !! s.h.callerOwned && lo <= hi <= |s.slots|
    ensures Commutes(s, ClearMessage(s, lo, hi), ClearMessage(Crowd(s, others), lo, hi), others)
    decreases hi - lo
  {
    hide Inv, ClearField;
    if lo < hi {
      if s.slots[lo].has {
        SlotStepInCrowd(s, OpClearField(lo), others);
        ClearFieldKeeps(Crowd(s, others), lo);
        ClearMessageInCrowd(ClearField(s, lo), lo + 1, hi, others);
      } else {
        ClearMessageInCrowd(s, lo + 1, hi, others);
      }
    }
  }

  lemma StepInCrowd(s: State, op: Op, others: set<Ptr>)
    requires Inv(Crowd(s, others)) && others !! s.h.callerOwned && Enabled(s, op)
    ensures Enabled(Crowd(s, others), op) && Commutes(s, Step(s, op), Step(Crowd(s, others), op), others)
  {
    hide Inv, Commutes;
    match op
    case OpSetAllocated(i, p) => SetAllocatedInCrowd(s, i, p, others);
    case OpClearMessage(lo, hi) => ClearMessageInCrowd(s, lo, hi, others);
    case CallerNew(_) => CallerStepInCrowd(s, op, others);
    case CallerDelete(_) => CallerStepInCrowd(s, op, others);
    case _ => SlotStepInCrowd(s, op, others);
  }

  // ---- One message's own invariant -------------------------------------------------------------------

  /** What lives, but is neither this message's nor the caller's */
  ghost function Elsewhere(s: State): set<Ptr> { Beyond(Owned(s.slots), s.h) }

  /** The message is in order, whoever owns what lives elsewhere. */
  ghost predicate Sound(s: State) {
    Held(Owned(s.slots), s.h) && Inv(Crowd(s, Elsewhere(s)))
  }

  lemma TheOnlyOwnerIsSound(s: State)
    requires Inv(s)
    ensures Sound(s) && Elsewhere(s) == {}
  {
    hide Conserved;
    assert Among(s.h, {}) == s.h;
    HeldAmong(Owned(s.slots), s.h, {});
  }

  /** A string of the message is live and in one field only. */
  lemma SoundSlots(s: State)
    requires Sound(s)
    ensures forall i | 0 <= i < |s.slots| && s.slots[i].ptr != EMPTY_STRING :: s.h.Live(s.slots[i].ptr)
    ensures forall i, j | 0 <= i < |s.slots| && 0 <= j < |s.slots| && i != j && s.slots[i].ptr != EMPTY_STRING ::
              s.slots[j].ptr != s.slots[i].ptr
    ensures s.h.empty == [] && Read(s.h, EMPTY_STRING) == []
  {
    hide Conserved;
    AllUnique(Crowd(s, Elsewhere(s)));
  }

  lemma SameFields(s: State, s': State)
    requires s'.slots == s.slots && s'.h.contents == s.h.contents && s'.h.empty == s.h.empty
    ensures Fields(s') == Fields(s)
  {
  }

  lemma CommutingKeepsSound(s: State, s': State, crowded: State)
    requires Sound(s) && Commutes(s, s', crowded, Elsewhere(s)) && Inv(crowded)
    ensures Sound(s') && Elsewhere(s') == Elsewhere(s)
  {
    hide Conserved, Beyond;
    HeldAmong(Owned(s'.slots), s'.h, Elsewhere(s));
  }

  /**
   Each accessor keeps one message in order and acts on its fields as on a record; what lives elsewhere
   stays there and holds what it held.
   */
  lemma StepKeepsSound(s: State, op: Op)
    requires Sound(s) && Enabled(s, op)
    ensures var s' := Step(s, op);
            && Sound(s') && Elsewhere(s') == Elsewhere(s) && Untouched(s.h, s'.h, Elsewhere(s))
            && Fields(s') == OnFields(Fields(s), op, s.h)
  {
    hide Conserved, Inv, Step, OnFields, Enabled, Fields;
    var others := Elsewhere(s);
    StepInCrowd(s, op, others);
    StepRefines(Crowd(s, others), op);
    CommutingKeepsSound(s, Step(s, op), Step(Crowd(s, others), op));
    SameFields(s, Crowd(s, others));
    SameFields(Step(s, op), Step(Crowd(s, others), op));
    SameGiven(s, op, others);
  }

  lemma SameGiven(s: State, op: Op, others: set<Ptr>)
    ensures OnFields(Fields(s), op, Crowd(s, others).h) == OnFields(Fields(s), op, s.h)
  {
  }

  /** No string belongs to both. */
  ghost predicate Apart(s: State, o: State) {
    forall p | p in Owned(s.slots) :: p !in Owned(o.slots)
  }

  /** What keeps one message in order and leaves alone what lives elsewhere keeps every other message as it was. */
  lemma OtherMessageStays(s: State, s': State, o: State)
    requires Sound(s) && Sound(o) && o.h == s.h && Apart(s, o)
    requires Sound(s') && Elsewhere(s') == Elsewhere(s) && Untouched(s.h, s'.h, Elsewhere(s))
    ensures var o' := o.(h := s'.h); Sound(o') && Fields(o') == Fields(o) && Apart(s', o')
  {
    var o' := o.(h := s'.h);
    SoundSlots(s);
    SoundSlots(s');
    hide Conserved, Beyond, SeenBy;
    ApartIsBeyond(Owned(s.slots), Owned(o.slots), s.h);
    HeldStays(Owned(s'.slots), s'.h, Owned(o.slots), s.h);
    forall i | 0 <= i < |o.slots|
      ensures Read(s'.h, o.slots[i].ptr) == Read(s.h, o.slots[i].ptr)
    {
      if o.slots[i].ptr != EMPTY_STRING { OwnedContains(o.slots, i); }
    }
    assert forall i | 0 <= i < |o.slots| :: !o.slots[i].has ==> Get(o, i) == [];
    assert Fields(o') == Fields(o);
  }
}
