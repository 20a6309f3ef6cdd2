/**
 Several owners on one heap. What an operation does to a field does not depend on who owns the objects
 that are not in its slots, and leaves those objects alone.
 */
module RepeatedPtrSharing {
  import opened Bytes
  import opened Store
  import opened RepeatedPtrSpec
  import opened RepeatedPtrRuns

  /** The field with the objects in others counted as the caller's */
  function Crowd<V>(s: State<V>, others: set<Ptr>): State<V> { s.(h := Among(s.h, others)) }

  ghost predicate LeavesAlone<V>(s: State<V>, s': State<V>, others: set<Ptr>) {
    s'.merge == s.merge && Untouched(s.h, s'.h, others)
  }

  /** In the crowd an operation does what it does without, and leaves the crowd alone. */
  ghost predicate Commutes<V>(s: State<V>, s': State<V>, crowded: State<V>, others: set<Ptr>) {
    crowded == Crowd(s', others) && LeavesAlone(s, s', others)
  }

  lemma OthersAreElsewhere<V(!new)>(s: State<V>, others: set<Ptr>)
    requires Inv(Crowd(s, others))
    ensures forall p | p in others :: s.h.Live(p) && p < s.h.next && p !in s.f.live && p !in s.f.pool
    ensures forall p | p in s.h.callerOwned :: s.h.Live(p) && p < s.h.next && p !in s.f.live && p !in s.f.pool
    ensures forall p | p in s.f.live || p in s.f.pool :: p < s.h.next
  {
    hide Conserved;
    OthersAreLive(Owned(s), s.h, others);
    assert forall p | p in s.f.live || p in s.f.pool :: p in Owned(s);
  }

  lemma {:induction false} ClearAllInCrowd<V>(h: Heap<V>, ps: seq<Ptr>, others: set<Ptr>)
    ensures ClearAll(Among(h, others), ps) == Among(ClearAll(h, ps), others)
    decreases ps
  {
    if ps != [] {
      var h' := if h.Live(ps[0]) then h.Assign(ps[0], h.empty) else h;
      assert Among(h', others) == if h.Live(ps[0]) then Among(h, others).Assign(ps[0], h.empty) else Among(h, others);
      ClearAllInCrowd(h', ps[1..], others);
    }
  }

  lemma {:induction false} GiveAllGives<V>(h: Heap<V>, ps: seq<Ptr>)
    ensures GiveAll(h, ps) == h.(callerOwned := h.callerOwned + set p | p in ps)
    decreases ps
  {
    if ps == [] {
      assert h.callerOwned + (set p | p in ps) == h.callerOwned;
    } else {
      GiveAllGives(h.Give(ps[0]), ps[1..]);
      assert h.callerOwned + {ps[0]} + (set p | p in ps[1..]) == h.callerOwned + set p | p in ps;
    }
  }

  lemma {:induction false} DeleteAllInCrowd<V>(h: Heap<V>, ps: seq<Ptr>, others: set<Ptr>)
    ensures DeleteAll(Among(h, others), ps) == Among(DeleteAll(h, ps), others)
    ensures var h' := DeleteAll(h, ps);
            && h'.empty == h.empty && h'.callerOwned == h.callerOwned && h'.next == h.next
            && (forall p | p !in ps :: Read(h', p) == Read(h, p))
    decreases ps
  {
    if ps != [] {
      DeleteAllInCrowd(h.Delete(ps[0]), ps[1..], others);
      assert forall p :: p in ps <==> p == ps[0] || p in ps[1..];
    }
  }

  lemma ClearInCrowd<V(!new)>(s: State<V>, others: set<Ptr>)
    requires Inv(Crowd(s, others)) && others !! s.h.callerOwned
    ensures Commutes(s, Clear(s), Clear(Crowd(s, others)), others)
  {
    hide Conserved, Inv;
    ClearAllInCrowd(s.h, s.f.live, others);
    ClearLeavesCaller(Crowd(s, others));
    ClearKeeps(Crowd(s, others));
    KeepsEmpty(s.h, s.f.live);
  }

  lemma {:induction false} KeepsEmpty<V>(h: Heap<V>, ps: seq<Ptr>)
    ensures ClearAll(h, ps).empty == h.empty && ClearAll(h, ps).callerOwned == h.callerOwned
    decreases ps
  {
    if ps != [] {
      KeepsEmpty(if h.Live(ps[0]) then h.Assign(ps[0], h.empty) else h, ps[1..]);
    }
  }

  lemma ExtractInCrowd<V(!new)>(s: State<V>, start: nat, num: nat, others: set<Ptr>)
    requires Inv(Crowd(s, others)) && others !! s.h.callerOwned && start + num <= |s.f.live|
    ensures Commutes(s, ExtractSubrange(s, start, num), ExtractSubrange(Crowd(s, others), start, num), others)
  {
    hide Conserved, GiveAll;
    OthersAreElsewhere(s, others);
    var out := s.f.live[start..start + num];
    assert forall p | p in out :: p in s.f.live;
    GiveAllGives(s.h, out);
    GiveAllGives(Among(s.h, others), out);
    assert s.h.callerOwned + others + (set p | p in out) == s.h.callerOwned + (set p | p in out) + others;
  }

  lemma DeleteInCrowd<V(!new)>(s: State<V>, start: nat, num: nat, others: set<Ptr>)
    requires Inv(Crowd(s, others)) && others !! s.h.callerOwned && start + num <= |s.f.live|
    ensures Commutes(s, DeleteSubrange(s, start, num), DeleteSubrange(Crowd(s, others), start, num), others)
  {
    hide Conserved, DeleteAll;
    OthersAreElsewhere(s, others);
    var out := s.f.live[start..start + num];
    assert forall p | p in out :: p in s.f.live;
    DeleteAllInCrowd(s.h, out, others);
  }

  lemma DestroyInCrowd<V(!new)>(s: State<V>, others: set<Ptr>)
    requires Inv(Crowd(s, others)) && others !! s.h.callerOwned
    ensures Commutes(s, Destroy(s), Destroy(Crowd(s, others)), others)
  {
    hide Conserved, DeleteAll;
    OthersAreElsewhere(s, others);
    DeleteAllInCrowd(s.h, Owned(s), others);
  }

  lemma AddInCrowd<V(!new)>(s: State<V>, others: set<Ptr>)
    requires Inv(Crowd(s, others)) && others !! s.h.callerOwned
    ensures Commutes(s, Add(s), Add(Crowd(s, others)), others)
  {
    hide Conserved;
    OthersAreElsewhere(s, others);
  }

  lemma WriteInCrowd<V(!new)>(s: State<V>, i: nat, value: V, others: set<Ptr>)
    requires Inv(Crowd(s, others)) && others !! s.h.callerOwned && i < |s.f.live|
    ensures Commutes(s, Write(s, i, value), Write(Crowd(s, others), i, value), others)
  {
    hide Conserved;
    OthersAreElsewhere(s, others);
  }

  lemma AppendOneInCrowd<V(!new)>(s: State<V>, value: V, others: set<Ptr>)
    requires Inv(Crowd(s, others)) && others !! s.h.callerOwned
    ensures Commutes(s, MergeInto(Add(s), |s.f.live|, value), MergeInto(Add(Crowd(s, others)), |s.f.live|, value), others)
  {
    hide Conserved, Inv, Write;
    AddInCrowd(s, others);
    AddKeeps(Crowd(s, others));
    var s' := Add(s);
    WriteInCrowd(s', |s.f.live|, s.merge(Read(s'.h, s'.f.live[|s.f.live|]), value), others);
  }

  lemma {:induction false} AppendInCrowd<V(!new)>(s: State<V>, values: seq<V>, others: set<Ptr>)
    requires Inv(Crowd(s, others)) && others !! s.h.callerOwned
    ensures Commutes(s, Append(s, values), Append(Crowd(s, others), values), others)
    decreases values
  {
    hide Conserved, Inv, MergeInto, Read, Values;
    if values != [] {
      AppendOneInCrowd(s, values[0], others);
      AppendOneKeeps(Crowd(s, others), values[0]);
      AppendInCrowd(MergeInto(Add(s), |s.f.live|, values[0]), values[1..], others);
    }
  }

  lemma MergeFromInCrowd<V(!new)>(s: State<V>, values: seq<V>, others: set<Ptr>)
    requires Inv(Crowd(s, others)) && others !! s.h.callerOwned
    ensures Commutes(s, MergeFrom(s, values), MergeFrom(Crowd(s, others), values), others)
  {
    hide Append, Conserved;
    AppendInCrowd(Reserve(s, |s.f.live| + |values|), values, others);
  }

  lemma CopyFromInCrowd<V(!new)>(s: State<V>, values: seq<V>, others: set<Ptr>)
    requires Inv(Crowd(s, others)) && others !! s.h.callerOwned
    ensures Commutes(s, CopyFrom(s, values), CopyFrom(Crowd(s, others), values), others)
  {
    hide Inv, Clear, MergeFrom, Crowd, Read;
    ClearInCrowd(s, others);
    ClearKeeps(Crowd(s, others));
    MergeFromInCrowd(Clear(s), values, others);
  }

  lemma SmallStepInCrowd<V(!new)>(s: State<V>, op: Op<V>, others: set<Ptr>)
    requires Inv(Crowd(s, others)) && others !! s.h.callerOwned && Enabled(s, op)
    requires op.OpRemoveLast? || op.OpReleaseLast? || op.OpReleaseCleared? || op.OpReserve? || op.OpSwapElements?
    ensures Commutes(s, Step(s, op), Step(Crowd(s, others), op), others)
  {
    hide Conserved;
    OthersAreElsewhere(s, others);
  }

  /** The operations that take over, make or delete the caller's objects */
  lemma CallerStepInCrowd<V(!new)>(s: State<V>, op: Op<V>, others: set<Ptr>)
    requires Inv(Crowd(s, others)) && others !! s.h.callerOwned && Enabled(s, op)
    requires op.OpAddAllocated? || op.OpAddCleared? || op.CallerNew? || op.CallerDelete? || op.CallerWrite?
    ensures Commutes(s, Step(s, op), Step(Crowd(s, others), op), others)
  {
    hide Conserved;
    OthersAreElsewhere(s, others);
    assert op.OpAddAllocated? || op.OpAddCleared? || op.CallerDelete? ==>
        s.h.callerOwned + others - {op.p} == s.h.callerOwned - {op.p} + others;
    assert op.CallerNew? ==> s.h.callerOwned + others + {s.h.next} == s.h.callerOwned + {s.h.next} + others;
  }

  lemma StepInCrowd<V(!new)>(s: State<V>, op: Op<V>, others: set<Ptr>)
    requires Inv(Crowd(s, others)) && others !! s.h.callerOwned && Enabled(s, op)
    ensures Enabled(Crowd(s, others), op) && Commutes(s, Step(s, op), Step(Crowd(s, others), op), others)
  {
    hide Conserved, Inv, Commutes;
    match op
    case OpAdd => AddInCrowd(s, others);
    case OpClear => ClearInCrowd(s, others);
    case OpExtractSubrange(start, num) => ExtractInCrowd(s, start, num, others);
    case OpDeleteSubrange(start, num) => DeleteInCrowd(s, start, num, others);
    case OpWrite(i, value) => WriteInCrowd(s, i, value, others);
    case OpMergeFrom(values) => MergeFromInCrowd(s, values, others);
    case OpCopyFrom(values) => CopyFromInCrowd(s, values, others);
    case OpAddAllocated(_) => CallerStepInCrowd(s, op, others);
    case OpAddCleared(_) => CallerStepInCrowd(s, op, others);
    case CallerNew(_) => CallerStepInCrowd(s, op, others);
    case CallerDelete(_) => CallerStepInCrowd(s, op, others);
    case CallerWrite(_, _) => CallerStepInCrowd(s, op, others);
    case _ => SmallStepInCrowd(s, op, others);
  }

  // ---- One field's own invariant ---------------------------------------------------------------------

  /** What lives, but neither in this field's slots nor with the caller */
  ghost function Elsewhere<V>(s: State<V>): set<Ptr> { Beyond(Owned(s), s.h) }

  /** The field is in order, whoever owns what lives elsewhere. */
  ghost predicate Sound<V(!new)>(s: State<V>) {
    Held(Owned(s), s.h) && Inv(Crowd(s, Elsewhere(s)))
  }

  lemma TheOnlyOwnerIsSound<V(!new)>(s: State<V>)
    requires Inv(s)
    ensures Sound(s) && Elsewhere(s) == {}
  {
    hide Conserved;
    assert Among(s.h, {}) == s.h;
    HeldAmong(Owned(s), s.h, {});
  }

  /** The objects in a field's slots are live and distinct. */
  lemma SoundSlots<V(!new)>(s: State<V>)
    requires Sound(s)
    ensures forall i | 0 <= i < |s.f.live| :: s.h.Live(s.f.live[i])
    ensures forall i, j | 0 <= i < |s.f.live| && 0 <= j < |s.f.live| && i != j :: s.f.live[i] != s.f.live[j]
    ensures forall i | 0 <= i < |s.f.pool| :: s.h.Live(s.f.pool[i])
    ensures forall i, j | 0 <= i < j < |Owned(s)| :: Owned(s)[i] != Owned(s)[j]
    ensures forall i | 0 <= i < |Owned(s)| :: s.h.Live(Owned(s)[i])
  {
    hide Conserved;
    AllLiveDistinct(Crowd(s, Elsewhere(s)));
    OwnedDistinct(Crowd(s, Elsewhere(s)));
  }

  lemma CommutingKeepsSound<V(!new)>(s: State<V>, s': State<V>, crowded: State<V>)
    requires Sound(s) && Commutes(s, s', crowded, Elsewhere(s)) && Inv(crowded)
    ensures Sound(s') && Elsewhere(s') == Elsewhere(s)
  {
    hide Conserved, Beyond;
    HeldAmong(Owned(s'), s'.h, Elsewhere(s));
  }

  /**
   Each operation keeps one field in order and acts on its values as on a plain sequence; what lives
   elsewhere stays there and holds what it held.
   */
  lemma StepKeepsSound<V(!new)>(s: State<V>, op: Op<V>)
    requires Sound(s) && Enabled(s, op)
    ensures var s' := Step(s, op);
            && Sound(s') && Elsewhere(s') == Elsewhere(s) && LeavesAlone(s, s', Elsewhere(s))
            && Values(s') == OnSequence(Values(s), op, s.h.empty, Given(s, op))
  {
    hide Conserved, Inv, Step, OnSequence, Enabled;
    var crowd := Crowd(s, Elsewhere(s));
    StepInCrowd(s, op, Elsewhere(s));
    StepRefines(crowd, op);
    CommutingKeepsSound(s, Step(s, op), Step(crowd, op));
    SameValues(s, crowd);
    SameValues(Step(s, op), Step(crowd, op));
    assert Given(crowd, op) == Given(s, op);
  }

  lemma SameValues<V>(s: State<V>, s': State<V>)
    requires s'.f == s.f && s'.h.contents == s.h.contents && s'.h.empty == s.h.empty
    ensures Values(s') == Values(s)
  {
  }

  lemma AppendOneKeepsSound<V(!new)>(s: State<V>, value: V)
    requires Sound(s)
    ensures var s' := MergeInto(Add(s), |s.f.live|, value);
            Sound(s') && Elsewhere(s') == Elsewhere(s) && LeavesAlone(s, s', Elsewhere(s))
  {
    hide Conserved, Inv, MergeInto;
    var crowd := Crowd(s, Elsewhere(s));
    AppendOneInCrowd(s, value, Elsewhere(s));
    AppendOneKeeps(crowd, value);
    CommutingKeepsSound(s, MergeInto(Add(s), |s.f.live|, value), MergeInto(Add(crowd), |s.f.live|, value));
  }

  /** No object is in slots of both. */
  ghost predicate Apart<V>(s: State<V>, o: State<V>) {
    forall p | p in Owned(s) :: p !in Owned(o)
  }

  lemma ApartIsElsewhere<V(!new)>(s: State<V>, o: State<V>)
    requires Sound(s) && Sound(o) && o.h == s.h && Apart(s, o)
    ensures forall p | p in Owned(o) :: p in Elsewhere(s)
  {
    hide Conserved, Beyond;
    ApartIsBeyond(Owned(s), Owned(o), s.h);
  }

  /** What keeps one field in order and leaves alone what lives elsewhere keeps every other field on the heap as it was. */
  lemma OtherFieldStays<V(!new)>(s: State<V>, s': State<V>, o: State<V>)
    requires Sound(s) && Sound(o) && o.h == s.h && Apart(s, o)
    requires Sound(s') && Elsewhere(s') == Elsewhere(s) && LeavesAlone(s, s', Elsewhere(s))
    ensures var o' := o.(h := s'.h); Sound(o') && Values(o') == Values(o) && Apart(s', o')
  {
    hide Conserved, Beyond, Values, SeenBy;
    ApartIsBeyond(Owned(s), Owned(o), s.h);
    HeldStays(Owned(s'), s'.h, Owned(o), s.h);
    PoolStays(s, s', o);
    LiveStays(s, s', o);
  }

  lemma LiveStays<V(!new)>(s: State<V>, s': State<V>, o: State<V>)
    requires o.h == s.h && LeavesAlone(s, s', Elsewhere(s')) && forall p | p in Owned(o) :: p in Elsewhere(s')
    ensures Values(o.(h := s'.h)) == Values(o)
  {
    hide Elsewhere;
    assert forall i | 0 <= i < |o.f.live| :: o.f.live[i] in Owned(o);
  }

  lemma PoolStays<V(!new)>(s: State<V>, s': State<V>, o: State<V>)
    requires Sound(s') && Sound(o) && o.h == s.h && LeavesAlone(s, s', Elsewhere(s')) && forall p | p in Owned(o) :: p in Elsewhere(s')
    ensures forall i | 0 <= i < |o.f.pool| :: s'.h.Live(o.f.pool[i]) && s'.h.contents[o.f.pool[i]] == s'.h.empty
  {
    hide Conserved;
    OthersAreElsewhere(s', Elsewhere(s'));
    forall i | 0 <= i < |o.f.pool|
      ensures s'.h.Live(o.f.pool[i]) && s'.h.contents[o.f.pool[i]] == s'.h.empty
    {
      assert o.f.pool[i] in Owned(o);
      assert Read(s'.h, o.f.pool[i]) == Read(s.h, o.f.pool[i]);
    }
  }
}
