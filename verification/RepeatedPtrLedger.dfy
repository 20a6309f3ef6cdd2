/**
 Which objects each operation of RepeatedPtrFieldBase (repeated_field.h) makes, takes over, hands out and
 deletes, whether an object is reused, and when the array grows.
 */
module RepeatedPtrLedger {
  import opened Bytes
  import opened Growth
  import opened Store
  import opened RepeatedPtrSpec
  import opened RepeatedPtrRuns
  import opened RepeatedPtrSharing

  /** The k-th object that repeated calls of Add take: the pooled ones from the front, then new ones */
  function Supply<V>(s: State<V>, k: nat): Ptr {
    if k < |s.f.pool| then s.f.pool[k] else s.h.next + (k - |s.f.pool|)
  }

  function Supplies<V>(s: State<V>, n: nat): (r: seq<Ptr>)
    ensures |r| == n
  {
    seq(n, k requires 0 <= k < n => Supply(s, k))
  }

  function Objects(ps: seq<Ptr>): set<Ptr> { set p | p in ps }

  /** How many of n objects the pool cannot supply */
  function Short(n: nat, pooled: nat): nat { if n > pooled then n - pooled else 0 }

  /** The objects that are deleted, in order */
  function Deletes<V>(s: State<V>, op: Op<V>): seq<Ptr> {
    match op
    case OpAddAllocated(_) => if s.f.pool != [] && |s.f.live| + |s.f.pool| == s.f.total then [s.f.pool[0]] else []
    case OpDeleteSubrange(start, num) => if start + num <= |s.f.live| then s.f.live[start..start + num] else []
    case CallerDelete(p) => [p]
    case _ => []
  }

  /** The objects that the caller gets */
  function HandsOut<V>(s: State<V>, op: Op<V>): set<Ptr> {
    match op
    case OpReleaseLast => if s.f.live == [] then {} else {s.f.live[|s.f.live| - 1]}
    case OpReleaseCleared => if s.f.pool == [] then {} else {s.f.pool[|s.f.pool| - 1]}
    case OpExtractSubrange(start, num) => if start + num <= |s.f.live| then Objects(s.f.live[start..start + num]) else {}
    case CallerNew(_) => {s.h.next}
    case _ => {}
  }

  /** The objects that the caller no longer has */
  function TakesOver<V>(op: Op<V>): set<Ptr> {
    match op
    case OpAddAllocated(p) => {p}
    case OpAddCleared(p) => {p}
    case CallerDelete(p) => {p}
    case _ => {}
  }

  /** How many objects are made: none as long as the pool has some */
  function Makes<V>(s: State<V>, op: Op<V>): nat {
    match op
    case OpAdd => Short(1, |s.f.pool|)
    case OpMergeFrom(values) => Short(|values|, |s.f.pool|)
    case OpCopyFrom(values) => Short(|values|, |s.f.live| + |s.f.pool|)
    case CallerNew(_) => 1
    case _ => 0
  }

  /** The pointers of the elements; those that stay do not change. */
  function Elements<V>(s: State<V>, op: Op<V>): seq<Ptr>
    requires op.OpWrite? || op.OpMergeFrom? || op.OpCopyFrom? || op.OpAdd? || op.OpAddAllocated? || op.OpRemoveLast? || op.OpReleaseLast?
  {
    match op
    case OpAdd => s.f.live + Supplies(s, 1)
    case OpAddAllocated(p) => s.f.live + [p]
    case OpMergeFrom(values) => s.f.live + Supplies(s, |values|)
    case OpCopyFrom(values) => Supplies(s.(f := Field([], s.f.live + s.f.pool, s.f.total)), |values|)
    case OpWrite(_, _) => s.f.live
    case _ => if s.f.live == [] then [] else s.f.live[..|s.f.live| - 1]
  }

  /** The slots that the operation cannot do without */
  function Needs<V>(s: State<V>, op: Op<V>): nat {
    match op
    case OpAdd => if s.f.pool == [] then |s.f.live| + 1 else 0
    case OpAddAllocated(_) => |s.f.live| + 1
    case OpAddCleared(_) => |s.f.live| + |s.f.pool| + 1
    case OpReserve(size) => size
    case OpMergeFrom(values) => |s.f.live| + |values|
    case OpCopyFrom(values) => |values|
    case _ => 0
  }

  ghost predicate Accounts<V>(s: State<V>, s': State<V>, op: Op<V>) {
    && s'.h.deleted == s.h.deleted + Deletes(s, op)
    && s'.h.callerOwned == s.h.callerOwned - TakesOver(op) + HandsOut(s, op)
    && s'.h.next == s.h.next + Makes(s, op)
  }

  /** The array grows exactly when it is too small, and then to twice its size at least. */
  ghost predicate GrowsAsNeeded<V>(s: State<V>, s': State<V>, op: Op<V>) {
    if Needs(s, op) > s.f.total then s'.f.total >= Needs(s, op) && s'.f.total >= 2 * s.f.total else s'.f.total == s.f.total
  }

  predicate InSlots<V>(s: State<V>) { |s.f.live| + |s.f.pool| <= s.f.total }

  // ---- Append, Clear and the loops over ranges ------------------------------------------------------

  lemma AddTakesTheFirst<V>(s: State<V>, value: V)
    ensures var s' := MergeInto(Add(s), |s.f.live|, value);
            && s'.f.live == s.f.live + [Supply(s, 0)] && s'.h.next == s.h.next + Short(1, |s.f.pool|)
            && |s'.f.pool| == |s.f.pool| - 1 + Short(1, |s.f.pool|)
            && s'.h.deleted == s.h.deleted && s'.h.callerOwned == s.h.callerOwned
            && (|s.f.live| < s.f.total ==> s'.f.total == s.f.total)
            && forall k: nat :: Supply(s', k) == Supply(s, k + 1)
  {
  }

  /** Append takes its objects from the pool, in order, before it makes any. */
  lemma {:induction false} AppendAccounts<V>(s: State<V>, values: seq<V>)
    ensures var s' := Append(s, values);
            && s'.f.live == s.f.live + Supplies(s, |values|)
            && s'.h.next == s.h.next + Short(|values|, |s.f.pool|)
            && s'.h.deleted == s.h.deleted && s'.h.callerOwned == s.h.callerOwned
            && (|s.f.live| + |values| <= s.f.total ==> s'.f.total == s.f.total)
    decreases values
  {
    hide Supply, MergeInto, Add;
    if values != [] {
      AddTakesTheFirst(s, values[0]);
      AddOne(s);
      var s1 := MergeInto(Add(s), |s.f.live|, values[0]);
      AppendAccounts(s1, values[1..]);
      assert [Supply(s, 0)] + Supplies(s1, |values| - 1) == Supplies(s, |values|);
      Regroup(s.f.live, [Supply(s, 0)], Supplies(s1, |values| - 1));
    }
  }

  lemma AddOne<V>(s: State<V>)
    ensures |Add(s).f.live| == |s.f.live| + 1
  {
  }

  lemma {:induction false} ClearAllAccounts<V>(h: Heap<V>, ps: seq<Ptr>)
    ensures var h' := ClearAll(h, ps); h'.deleted == h.deleted && h'.callerOwned == h.callerOwned && h'.next == h.next
    decreases ps
  {
    if ps != [] {
      ClearAllAccounts(if h.Live(ps[0]) then h.Assign(ps[0], h.empty) else h, ps[1..]);
    }
  }

  lemma {:induction false} DeleteAllAccounts<V>(h: Heap<V>, ps: seq<Ptr>)
    ensures var h' := DeleteAll(h, ps); h'.deleted == h.deleted + ps && h'.callerOwned == h.callerOwned && h'.next == h.next
    decreases ps
  {
    if ps != [] {
      DeleteAllAccounts(h.Delete(ps[0]), ps[1..]);
      assert h.deleted + [ps[0]] + ps[1..] == h.deleted + ps;
    }
  }

  // ---- Every operation ---------------------------------------------------------------------------

  lemma MergeFromAccounts<V>(s: State<V>, values: seq<V>)
    ensures var s', op := MergeFrom(s, values), OpMergeFrom(values);
            Accounts(s, s', op) && GrowsAsNeeded(s, s', op) && s'.f.live == Elements(s, op)
  {
    hide Append;
    var s1 := Reserve(s, |s.f.live| + |values|);
    AppendAccounts(s1, values);
    assert Supplies(s1, |values|) == Supplies(s, |values|);
  }

  lemma CopyFromAccounts<V>(s: State<V>, values: seq<V>)
    ensures var s', op := CopyFrom(s, values), OpCopyFrom(values);
            Accounts(s, s', op) && GrowsAsNeeded(s, s', op) && s'.f.live == Elements(s, op)
  {
    hide MergeFrom;
    ClearAllAccounts(s.h, s.f.live);
    MergeFromAccounts(Clear(s), values);
    assert Elements(Clear(s), OpMergeFrom(values)) == Elements(s, OpCopyFrom(values));
  }

  predicate OnRange<V>(op: Op<V>) { op.OpClear? || op.OpExtractSubrange? || op.OpDeleteSubrange? || op.OpMergeFrom? || op.OpCopyFrom? }

  predicate WithCaller<V>(op: Op<V>) { op.OpAddAllocated? || op.OpAddCleared? || op.CallerNew? || op.CallerDelete? || op.CallerWrite? }

  lemma CallerStepAccounts<V(!new)>(s: State<V>, op: Op<V>)
    requires InSlots(s) && Enabled(s, op) && WithCaller(op)
    ensures Accounts(s, Step(s, op), op) && GrowsAsNeeded(s, Step(s, op), op)
  {
  }

  lemma SmallStepAccounts<V(!new)>(s: State<V>, op: Op<V>)
    requires InSlots(s) && Enabled(s, op) && !OnRange(op) && !WithCaller(op)
    ensures Accounts(s, Step(s, op), op) && GrowsAsNeeded(s, Step(s, op), op)
  {
  }

  lemma RangeStepAccounts<V(!new)>(s: State<V>, op: Op<V>)
    requires InSlots(s) && Enabled(s, op) && OnRange(op)
    ensures Accounts(s, Step(s, op), op) && GrowsAsNeeded(s, Step(s, op), op)
  {
    hide ClearAll, GiveAll, DeleteAll, MergeFrom, CopyFrom;
    match op
    case OpClear => ClearAllAccounts(s.h, s.f.live);
    case OpExtractSubrange(start, num) => GiveAllGives(s.h, s.f.live[start..start + num]);
    case OpDeleteSubrange(start, num) => DeleteAllAccounts(s.h, s.f.live[start..start + num]);
    case OpMergeFrom(values) => MergeFromAccounts(s, values);
    case OpCopyFrom(values) => CopyFromAccounts(s, values);
  }

  /**
   What each operation does to the books: which objects are deleted, in order, which the caller gets and
   which it gives away, and how many are made. Add, MergeFrom and CopyFrom make none that the pool can
   supply; only AddAllocated into a full array that holds cleared objects deletes one of the pool.
   */
  lemma StepAccounts<V(!new)>(s: State<V>, op: Op<V>)
    requires InSlots(s) && Enabled(s, op)
    ensures Accounts(s, Step(s, op), op) && GrowsAsNeeded(s, Step(s, op), op)
  {
    hide Step, Accounts, GrowsAsNeeded, WithCaller, OnRange;
    if WithCaller(op) {
      CallerStepAccounts(s, op);
    } else if OnRange(op) {
      RangeStepAccounts(s, op);
    } else {
      SmallStepAccounts(s, op);
    }
  }

  /** Elements that stay keep their objects, and new ones come from the pool first, in order. */
  lemma StepSupplies<V(!new)>(s: State<V>, op: Op<V>)
    requires InSlots(s) && Enabled(s, op)
    requires op.OpWrite? || op.OpMergeFrom? || op.OpCopyFrom? || op.OpAdd? || op.OpAddAllocated? || op.OpRemoveLast? || op.OpReleaseLast?
    ensures Step(s, op).f.live == Elements(s, op)
  {
    match op
    case OpMergeFrom(values) => MergeFromAccounts(s, values);
    case OpCopyFrom(values) => CopyFromAccounts(s, values);
    case _ =>
  }

  /** Add after RemoveLast takes the same object back, and AddAllocated keeps what is pooled but for the one it may delete. */
  lemma PoolIsKept<V(!new)>(s: State<V>, p: Ptr)
    requires InSlots(s)
    ensures s.f.live != [] && Enabled(s, OpRemoveLast) ==> Add(RemoveLast(s)).f == s.f
    ensures multiset(AddAllocated(s, p).f.pool) + multiset(Deletes(s, OpAddAllocated(p))) == multiset(s.f.pool)
  {
    if s.f.pool != [] {
      assert s.f.pool == [s.f.pool[0]] + s.f.pool[1..];
    }
  }

  // ---- What the caller gets -------------------------------------------------------------------------

  /** The object is the caller's now, alive, in no slot, and holds the value. */
  ghost predicate HasAlive<V>(s: State<V>, p: Ptr, value: V) {
    p in s.h.callerOwned && s.h.Live(p) && p !in Owned(s) && Read(s.h, p) == value
  }

  lemma CallerOwnedIsAlive<V(!new)>(s: State<V>, p: Ptr)
    requires Sound(s) && p in s.h.callerOwned
    ensures HasAlive(s, p, Read(s.h, p))
  {
    OthersAreElsewhere(s, Elsewhere(s));
  }

  /** ReleaseLast hands out the last element as it is, and deletes nothing. */
  lemma ReleaseLastHandsOut<V(!new)>(s: State<V>)
    requires Sound(s) && s.f.live != []
    ensures var n, s' := |s.f.live| - 1, ReleaseLast(s);
            HasAlive(s', s.f.live[n], Values(s)[n]) && s'.h.deleted == s.h.deleted
  {
    hide Held, Inv, Elsewhere, Values;
    StepKeepsSound(s, OpReleaseLast);
    CallerOwnedIsAlive(ReleaseLast(s), s.f.live[|s.f.live| - 1]);
    ValuesAre(s);
  }

  lemma ValuesAre<V>(s: State<V>)
    ensures forall i | 0 <= i < |s.f.live| :: Values(s)[i] == Read(s.h, s.f.live[i])
  {
  }

  /** ReleaseCleared hands out an empty object, and deletes nothing. */
  lemma ReleaseClearedHandsOut<V(!new)>(s: State<V>)
    requires Sound(s) && s.f.pool != []
    ensures var s' := ReleaseCleared(s);
            HasAlive(s', s.f.pool[|s.f.pool| - 1], s.h.empty) && s'.h.deleted == s.h.deleted
  {
    hide Held, Inv, Elsewhere, Values;
    StepKeepsSound(s, OpReleaseCleared);
    CallerOwnedIsAlive(ReleaseCleared(s), s.f.pool[|s.f.pool| - 1]);
    PoolIsEmpty(s);
  }

  lemma PoolIsEmpty<V(!new)>(s: State<V>)
    requires Sound(s)
    ensures forall i | 0 <= i < |s.f.pool| :: Read(s.h, s.f.pool[i]) == s.h.empty
  {
    hide Held, Conserved;
  }

  /** ExtractSubrange hands out the range, each object as it is, and deletes nothing. */
  lemma ExtractSubrangeHandsOut<V(!new)>(s: State<V>, start: nat, num: nat)
    requires Sound(s) && start + num <= |s.f.live|
    ensures var s' := ExtractSubrange(s, start, num);
            && (forall i | start <= i < start + num :: HasAlive(s', s.f.live[i], Values(s)[i]))
            && s'.h.callerOwned == s.h.callerOwned + Objects(s.f.live[start..start + num]) && s'.h.deleted == s.h.deleted
  {
    hide Held, Inv, Elsewhere, Values, GiveAll;
    var out := s.f.live[start..start + num];
    StepKeepsSound(s, OpExtractSubrange(start, num));
    GiveAllGives(s.h, out);
    ValuesAre(s);
    forall i | start <= i < start + num
      ensures HasAlive(ExtractSubrange(s, start, num), s.f.live[i], Values(s)[i])
    {
      assert out[i - start] == s.f.live[i];
      CallerOwnedIsAlive(ExtractSubrange(s, start, num), s.f.live[i]);
    }
  }

  // ---- Runs -------------------------------------------------------------------------------

  predicate MayDelete<V>(op: Op<V>) { op.OpAddAllocated? || op.OpDeleteSubrange? || op.CallerDelete? }

  /** Without AddAllocated, DeleteSubrange and the caller's own delete nothing is ever deleted. */
  lemma {:induction false} NothingElseDeletes<V(!new)>(s: State<V>, ops: seq<Op<V>>)
    requires Inv(s) && CanRun(s, ops) && forall op | op in ops :: !MayDelete(op)
    ensures Run(s, ops).h.deleted == s.h.deleted
    decreases ops
  {
    if ops != [] {
      StepAccounts(s, ops[0]);
      StepRefines(s, ops[0]);
      assert !MayDelete(ops[0]);
      hide Step, Inv, Enabled, OnSequence;
      NothingElseDeletes(Step(s, ops[0]), ops[1..]);
    }
  }

  /** A loop of AddAllocated and Clear over objects that the caller makes */
  ghost function FillAndClear<V(!new)>(s: State<V>, values: seq<V>): State<V>
    decreases values
  {
    if values == [] then s
    else
      var made := s.(h := s.h.NewWith(values[0]).Give(s.h.next));
      FillAndClear(Clear(AddAllocated(made, s.h.next)), values[1..])
  }

  /**
   That loop does not leak: however long it runs, the array has no more than four slots or those it had,
   and every object that was made is in one of them or deleted.
   */
  lemma {:induction false} FillAndClearDoesNotLeak<V(!new)>(s: State<V>, values: seq<V>)
    requires Inv(s) && s.f.live == [] && s.h.callerOwned == {}
    ensures var s' := FillAndClear(s, values);
            && Inv(s') && s'.f.live == [] && s'.h.callerOwned == {}
            && s'.f.total <= (if s.f.total > 4 then s.f.total else 4) && |Owned(s')| <= s'.f.total
            && forall p | 1 <= p < s'.h.next :: p in s'.f.pool || p in s'.h.deleted
    decreases values
  {
    if values == [] {
      EveryObjectIsSomewhere(s);
    } else {
      FillAndClearOnce(s, values[0]);
      hide Inv;
      FillAndClearDoesNotLeak(Clear(AddAllocated(s.(h := s.h.NewWith(values[0]).Give(s.h.next)), s.h.next)), values[1..]);
    }
  }

  lemma EveryObjectIsSomewhere<V(!new)>(s: State<V>)
    requires Inv(s) && s.f.live == [] && s.h.callerOwned == {}
    ensures |Owned(s)| <= s.f.total && forall p | 1 <= p < s.h.next :: p in s.f.pool || p in s.h.deleted
  {
    assert Owned(s) == s.f.pool;
    forall p | 1 <= p < s.h.next
      ensures p in s.f.pool || p in s.h.deleted
    {
      assert multiset(Owned(s))[p] + One(p in s.h.callerOwned) + multiset(s.h.deleted)[p] == 1;
    }
  }

  lemma FillAndClearOnce<V(!new)>(s: State<V>, value: V)
    requires Inv(s) && s.f.live == [] && s.h.callerOwned == {}
    ensures var s' := Clear(AddAllocated(s.(h := s.h.NewWith(value).Give(s.h.next)), s.h.next));
            && Inv(s') && s'.f.live == [] && s'.h.callerOwned == {}
            && s'.f.total <= (if s.f.total > 4 then s.f.total else 4)
  {
    hide Conserved, ClearAll;
    var made := s.(h := s.h.NewWith(value).Give(s.h.next));
    CallerNewKeeps(s, value);
    AddAllocatedKeeps(made, s.h.next);
    var full := AddAllocated(made, s.h.next);
    ClearKeeps(full);
    ClearAllAccounts(full.h, full.f.live);
  }
}
