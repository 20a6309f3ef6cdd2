/** What every run of the RepeatedPtrFieldBase operations keeps. */
module RepeatedPtrRuns {
  import opened Bytes
  import opened Store
  import opened RepeatedPtrSpec

  /** An operation kept the invariant and did to the values what it does to a plain sequence. */
  ghost predicate Refines<V(!new)>(s: State<V>, s': State<V>, values: seq<V>) {
    Inv(s') && Values(s') == values
  }

  lemma LiveDistinct<V(!new)>(s: State<V>, i: nat)
    requires Inv(s) && i < |s.f.live|
    ensures s.h.Live(s.f.live[i]) && s.f.live[i] !in s.h.callerOwned && s.f.live[i] < s.h.next
    ensures forall j | 0 <= j < |s.f.live| && j != i :: s.f.live[j] != s.f.live[i]
    ensures s.f.live[i] !in s.f.pool
  {
    hide Conserved;
    OwnedIsLive(Owned(s), s.h, i);
    forall j | 0 <= j < |s.f.live| && j != i
      ensures s.f.live[j] != s.f.live[i]
    {
      assert Owned(s)[j] == s.f.live[j];
    }
    assert forall k | 0 <= k < |s.f.pool| :: Owned(s)[|s.f.live| + k] == s.f.pool[k];
  }

  lemma AllLiveDistinct<V(!new)>(s: State<V>)
    requires Inv(s)
    ensures forall i | 0 <= i < |s.f.live| :: s.h.Live(s.f.live[i])
    ensures forall i, j | 0 <= i < |s.f.live| && 0 <= j < |s.f.live| && i != j :: s.f.live[i] != s.f.live[j]
  {
    hide Conserved;
    forall i | 0 <= i < |s.f.live|
      ensures s.h.Live(s.f.live[i])
      ensures forall j | 0 <= j < |s.f.live| && j != i :: s.f.live[j] != s.f.live[i]
    {
      LiveDistinct(s, i);
    }
  }

  lemma AddKeeps<V(!new)>(s: State<V>)
    requires Inv(s)
    ensures Refines(s, Add(s), Values(s) + [s.h.empty])
  {
    hide Conserved;
    var Field(live, pool, total) := s.f;
    var s' := Add(s);
    assert Conserved(Owned(s'), s'.h) by {
      if pool != [] {
        MoveFirst(live, pool);
        ReorderConserves(Owned(s), Owned(s'), s.h);
      } else {
        assert live + pool == live;
        NewConserves(live, s.h);
        assert Owned(s') == live + [s.h.next];
      }
    }
    forall i | 0 <= i < |live| ensures live[i] < s.h.next { LiveDistinct(s, i); }
    assert Values(s') == Values(s) + [s.h.empty];
  }

  lemma ReserveKeeps<V(!new)>(s: State<V>, size: nat)
    requires Inv(s)
    ensures Refines(s, Reserve(s, size), Values(s))
  {
  }

  lemma MoveFirst(live: seq<Ptr>, pool: seq<Ptr>)
    requires pool != []
    ensures multiset(live + [pool[0]] + pool[1..]) == multiset(live + pool)
  {
    assert pool == [pool[0]] + pool[1..];
  }

  lemma MoveLast(live: seq<Ptr>, pool: seq<Ptr>)
    requires live != []
    ensures multiset(live[..|live| - 1] + ([live[|live| - 1]] + pool)) == multiset(live + pool)
  {
    assert live == live[..|live| - 1] + [live[|live| - 1]];
  }

  lemma WriteKeeps<V(!new)>(s: State<V>, i: nat, value: V)
    requires Inv(s) && i < |s.f.live|
    ensures Refines(s, Write(s, i, value), Values(s)[i := value])
  {
    hide Conserved;
    LiveDistinct(s, i);
    AssignConserves(Owned(s), s.h, s.f.live[i], value);
    assert Values(Write(s, i, value)) == Values(s)[i := value];
  }

  lemma RemoveLastKeeps<V(!new)>(s: State<V>)
    requires Inv(s) && s.f.live != []
    ensures Enabled(s, OpRemoveLast)
    ensures Refines(s, RemoveLast(s), Values(s)[..|s.f.live| - 1])
  {
    hide Conserved;
    var n := |s.f.live| - 1;
    LiveDistinct(s, n);
    var s' := RemoveLast(s);
    assert Conserved(Owned(s'), s'.h) by {
      AssignConserves(Owned(s), s.h, s.f.live[n], s.h.empty);
      MoveLast(s.f.live, s.f.pool);
      ReorderConserves(Owned(s), Owned(s'), s'.h);
    }
    assert Values(s') == Values(s)[..n];
    assert s'.f.pool == [s.f.live[n]] + s.f.pool;
  }

  /** Clearing some owned objects keeps every owned object and what is not cleared. */
  lemma {:induction false} ClearAllKeeps<V(!new)>(h: Heap<V>, owned: seq<Ptr>, ps: seq<Ptr>)
    requires Conserved(owned, h) && forall i | 0 <= i < |ps| :: h.Live(ps[i])
    ensures var h' := ClearAll(h, ps);
            && Conserved(owned, h')
            && h'.contents.Keys == h.contents.Keys && h'.callerOwned == h.callerOwned && h'.empty == h.empty
            && (forall p | p in h.contents :: h'.contents[p] == if p in ps then h.empty else h.contents[p])
    decreases ps
  {
    hide Conserved;
    if ps != [] {
      AssignConserves(owned, h, ps[0], h.empty);
      ClearAllKeeps(h.Assign(ps[0], h.empty), owned, ps[1..]);
      assert forall p :: p in ps <==> p == ps[0] || p in ps[1..];
    }
  }

  lemma ClearKeeps<V(!new)>(s: State<V>)
    requires Inv(s)
    ensures Refines(s, Clear(s), [])
  {
    hide Conserved;
    forall i | 0 <= i < |s.f.live| ensures s.h.Live(s.f.live[i]) { LiveDistinct(s, i); }
    ClearAllKeeps(s.h, Owned(s), s.f.live);
    assert Owned(Clear(s)) == Owned(s);
  }

  /** Clearing leaves alone what the caller, and so another field, owns. */
  lemma ClearLeavesCaller<V(!new)>(s: State<V>)
    requires Inv(s)
    ensures Clear(s).h.callerOwned == s.h.callerOwned
    ensures forall p | p in s.h.callerOwned :: Read(Clear(s).h, p) == Read(s.h, p)
  {
    hide Conserved;
    AllLiveDistinct(s);
    ClearAllKeeps(s.h, Owned(s), s.f.live);
    forall p | p in s.h.callerOwned
      ensures p !in s.f.live
    {
      CallerObjectIsLive(Owned(s), s.h, p);
      NotOwned(s, p);
    }
  }

  lemma AddAllocatedKeeps<V(!new)>(s: State<V>, p: Ptr)
    requires Inv(s) && p in s.h.callerOwned
    ensures Refines(s, AddAllocated(s, p), Values(s) + [Read(s.h, p)])
  {
    hide Conserved;
    AddAllocatedConserves(s, p);
    CallerObjectIsLive(Owned(s), s.h, p);
    if s.f.pool != [] {
      AddAllocatedDeletes(s, p);
    }
    hide AddAllocated;
    AddAllocatedSlots(s, p);
    assert Values(AddAllocated(s, p)) == Values(s) + [Read(s.h, p)];
  }

  /** Where the slots end up, whichever branch made room */
  lemma AddAllocatedSlots<V(!new)>(s: State<V>, p: Ptr)
    requires forall i | 1 <= i < |s.f.pool| :: s.f.pool[i] != s.f.pool[0]
    ensures var s' := AddAllocated(s, p);
            && s'.f.live == s.f.live + [p]
            && (|s.f.live| + |s.f.pool| <= s.f.total ==> |s'.f.live| + |s'.f.pool| <= s'.f.total)
            && (forall q | q in s'.f.pool :: q in s.f.pool && (q in s.h.contents ==> q in s'.h.contents))
            && (forall q | q in s.h.contents && (s.f.pool != [] ==> q != s.f.pool[0]) :: q in s'.h.contents)
            && (forall q | q in s'.h.contents :: q in s.h.contents && s'.h.contents[q] == s.h.contents[q])
  {
  }

  lemma AddAllocatedConserves<V(!new)>(s: State<V>, p: Ptr)
    requires Conserved(Owned(s), s.h) && |s.f.live| + |s.f.pool| <= s.f.total && p in s.h.callerOwned
    ensures Conserved(Owned(AddAllocated(s, p)), AddAllocated(s, p).h)
  {
    hide Conserved;
    var Field(live, pool, total) := s.f;
    var s' := AddAllocated(s, p);
    var h := s.h.Take(p);
    TakeConserves(Owned(s), s.h, p);
    if pool == [] {
      assert Owned(s') == Owned(s) + [p];
    } else if |live| + |pool| == total {
      var rest := Cut(live + pool + [p], |live|, 1);
      DeleteConserves(live + pool + [p], h, |live|);
      MakeRoom(live, pool, p);
      ReorderConserves(rest, Owned(s'), s'.h);
    } else {
      MakeRoom(live, pool, p);
      ReorderConserves(Owned(s) + [p], Owned(s'), h);
    }
  }

  lemma MakeRoom(live: seq<Ptr>, pool: seq<Ptr>, p: Ptr)
    requires pool != []
    ensures (live + pool + [p])[|live|] == pool[0]
    ensures multiset(Cut(live + pool + [p], |live|, 1)) == multiset(live + [p] + pool[1..])
    ensures multiset(live + pool + [p]) == multiset(live + [p] + (pool[1..] + [pool[0]]))
  {
    assert Cut(live + pool + [p], |live|, 1) == live + pool[1..] + [p];
    assert pool == [pool[0]] + pool[1..];
  }

  /** The pooled object that makes room is none of the others. */
  lemma AddAllocatedDeletes<V(!new)>(s: State<V>, p: Ptr)
    requires Inv(s) && p in s.h.callerOwned && s.f.pool != []
    ensures forall i | 0 <= i < |s.f.live| :: s.f.live[i] != s.f.pool[0]
    ensures forall i | 1 <= i < |s.f.pool| :: s.f.pool[i] != s.f.pool[0]
    ensures p != s.f.pool[0] && s.f.pool[0] != EMPTY_STRING
  {
    hide Conserved;
    var n := |s.f.live|;
    OwnedIsLive(Owned(s), s.h, n);
    assert forall i | 0 <= i < n :: Owned(s)[i] == s.f.live[i];
    assert forall i | 0 <= i < |s.f.pool| :: Owned(s)[n + i] == s.f.pool[i];
  }

  lemma ReleaseLastKeeps<V(!new)>(s: State<V>)
    requires Inv(s) && s.f.live != []
    ensures Refines(s, ReleaseLast(s), Values(s)[..|s.f.live| - 1])
  {
    hide Conserved;
    ReleaseLastConserves(s);
    var s' := ReleaseLast(s);
    assert forall p | p in s'.f.pool :: p in s.f.pool;
    assert s'.h.contents == s.h.contents;
    assert Values(s') == Values(s)[..|s.f.live| - 1];
  }

  lemma ReleaseLastConserves<V(!new)>(s: State<V>)
    requires Conserved(Owned(s), s.h) && s.f.live != []
    ensures Conserved(Owned(ReleaseLast(s)), ReleaseLast(s).h)
  {
    hide Conserved;
    var n := |s.f.live| - 1;
    var s' := ReleaseLast(s);
    GiveConserves(Owned(s), s.h, n);
    FillSlot(s.f.live, s.f.pool);
    ReorderConserves(Cut(Owned(s), n, 1), Owned(s'), s'.h);
  }

  lemma FillSlot(live: seq<Ptr>, pool: seq<Ptr>)
    requires live != []
    ensures var n, k := |live| - 1, |pool| - 1;
            (live + pool)[n] == live[n] &&
            multiset(Cut(live + pool, n, 1)) ==
            multiset(live[..n] + if pool == [] then [] else [pool[k]] + pool[..k])
  {
    var n, k := |live| - 1, |pool| - 1;
    assert Cut(live + pool, n, 1) == live[..n] + pool;
    if pool != [] {
      assert pool == pool[..k] + [pool[k]];
    }
  }

  lemma AddClearedKeeps<V(!new)>(s: State<V>, p: Ptr)
    requires Inv(s) && p in s.h.callerOwned && Read(s.h, p) == s.h.empty
    ensures Refines(s, AddCleared(s, p), Values(s))
  {
    hide Conserved;
    CallerObjectIsLive(Owned(s), s.h, p);
    TakeConserves(Owned(s), s.h, p);
    assert Owned(AddCleared(s, p)) == Owned(s) + [p];
    assert Values(AddCleared(s, p)) == Values(s);
  }

  lemma ReleaseClearedKeeps<V(!new)>(s: State<V>)
    requires Inv(s) && s.f.pool != []
    ensures Refines(s, ReleaseCleared(s), Values(s))
    ensures Read(s.h, s.f.pool[|s.f.pool| - 1]) == s.h.empty
  {
    hide Conserved;
    var i := |Owned(s)| - 1;
    GiveConserves(Owned(s), s.h, i);
    assert Owned(s)[..i] + Owned(s)[i + 1..] == Owned(ReleaseCleared(s));
    assert Values(ReleaseCleared(s)) == Values(s);
  }

  /** Taking out one element and then num - 1 more at the same place is taking out num. */
  lemma CutFirst(owned: seq<Ptr>, start: nat, num: nat)
    requires 1 <= num && start + num <= |owned|
    ensures var rest, ps := Cut(owned, start, 1), owned[start..start + num];
            && ps[0] == owned[start]
            && rest[start..start + num - 1] == ps[1..]
            && Cut(rest, start, num - 1) == Cut(owned, start, num)
  {
  }

  /** Handing over num objects from position start on */
  lemma {:induction false} GiveAllKeeps<V(!new)>(owned: seq<Ptr>, h: Heap<V>, start: nat, num: nat)
    requires Conserved(owned, h) && start + num <= |owned|
    ensures var h' := GiveAll(h, owned[start..start + num]);
            Conserved(Cut(owned, start, num), h') && h'.contents == h.contents && h'.empty == h.empty
    decreases num
  {
    hide Conserved;
    if num == 0 {
      assert Cut(owned, start, 0) == owned;
    } else {
      GiveConserves(owned, h, start);
      CutFirst(owned, start, num);
      GiveAllKeeps(Cut(owned, start, 1), h.Give(owned[start]), start, num - 1);
    }
  }

  lemma {:induction false} DeleteAllKeeps<V(!new)>(owned: seq<Ptr>, h: Heap<V>, start: nat, num: nat)
    requires Conserved(owned, h) && start + num <= |owned|
    ensures var h' := DeleteAll(h, owned[start..start + num]);
            && Conserved(Cut(owned, start, num), h')
            && h'.callerOwned == h.callerOwned && h'.next == h.next && h'.empty == h.empty
            && (forall p | p in h.contents && p !in owned[start..start + num] ::
                  p in h'.contents && h'.contents[p] == h.contents[p])
    decreases num
  {
    hide Conserved;
    if num == 0 {
      assert Cut(owned, start, 0) == owned;
    } else {
      var ps := owned[start..start + num];
      DeleteConserves(owned, h, start);
      CutFirst(owned, start, num);
      DeleteAllKeeps(Cut(owned, start, 1), h.Delete(owned[start]), start, num - 1);
      assert forall p :: p in ps <==> p == ps[0] || p in ps[1..];
    }
  }

  lemma ExtractSubrangeKeeps<V(!new)>(s: State<V>, start: nat, num: nat)
    requires Inv(s) && start + num <= |s.f.live|
    ensures Refines(s, ExtractSubrange(s, start, num), Cut(Values(s), start, num))
  {
    hide Conserved;
    var s' := ExtractSubrange(s, start, num);
    GiveAllKeeps(Owned(s), s.h, start, num);
    assert Owned(s)[start..start + num] == s.f.live[start..start + num];
    CutLive(s.f.live, s.f.pool, start, num);
    ValuesOfCut(s, s', start, num);
  }

  lemma ValuesOfCut<V(!new)>(s: State<V>, s': State<V>, start: nat, num: nat)
    requires start + num <= |s.f.live| && s'.f.live == Cut(s.f.live, start, num)
    requires forall p | p in s'.f.live :: Read(s'.h, p) == Read(s.h, p)
    ensures Values(s') == Cut(Values(s), start, num)
  {
  }

  lemma DeleteSubrangeKeeps<V(!new)>(s: State<V>, start: nat, num: nat)
    requires Inv(s) && start + num <= |s.f.live|
    ensures Refines(s, DeleteSubrange(s, start, num), Cut(Values(s), start, num))
  {
    hide Conserved;
    var s' := DeleteSubrange(s, start, num);
    var gone := s.f.live[start..start + num];
    assert Owned(s)[start..start + num] == gone;
    DeleteAllKeeps(Owned(s), s.h, start, num);
    CutLive(s.f.live, s.f.pool, start, num);
    RemainingAreNotGone(s, start, num);
    ValuesOfCut(s, s', start, num);
  }

  lemma CutLive(live: seq<Ptr>, pool: seq<Ptr>, start: nat, num: nat)
    requires start + num <= |live|
    ensures Cut(live + pool, start, num) == Cut(live, start, num) + pool
  {
  }

  lemma RemainingAreNotGone<V(!new)>(s: State<V>, start: nat, num: nat)
    requires Inv(s) && start + num <= |s.f.live|
    ensures forall i | 0 <= i < |s.f.live| :: s.h.Live(s.f.live[i])
    ensures forall i | 0 <= i < |s.f.live| && !(start <= i < start + num) ::
              s.f.live[i] !in s.f.live[start..start + num]
    ensures forall i | 0 <= i < |s.f.pool| :: s.f.pool[i] !in s.f.live[start..start + num]
  {
    hide Conserved;
    forall i | 0 <= i < |s.f.live|
      ensures s.h.Live(s.f.live[i]) && s.f.live[i] !in s.f.pool
      ensures forall j | 0 <= j < |s.f.live| && j != i :: s.f.live[j] != s.f.live[i]
    {
      LiveDistinct(s, i);
    }
    assert forall p | p in s.f.live[start..start + num] :: p in s.f.live && p !in s.f.pool;
  }

  lemma SwapElementsKeeps<V(!new)>(s: State<V>, i: nat, j: nat)
    requires Inv(s) && i < |s.f.live| && j < |s.f.live|
    ensures Refines(s, SwapElements(s, i, j), Values(s)[i := Values(s)[j]][j := Values(s)[i]])
  {
  }

  /** Because Add returns an empty object, from the pool or new, merging into it copies the value. */
  lemma MergeIntoNew<V(!new)>(s: State<V>, value: V)
    requires Inv(s) && Values(Add(s)) == Values(s) + [s.h.empty]
    ensures MergeInto(Add(s), |s.f.live|, value) == Write(Add(s), |s.f.live|, value)
  {
    hide Conserved;
    var s', n := Add(s), |s.f.live|;
    assert Values(s')[n] == Read(s'.h, s'.f.live[n]);
    assert s.merge(s.h.empty, value) == value;
  }

  lemma AppendOneKeeps<V(!new)>(s: State<V>, value: V)
    requires Inv(s)
    ensures var s' := MergeInto(Add(s), |s.f.live|, value);
            && Refines(s, s', Values(s) + [value])
            && s'.h.callerOwned == s.h.callerOwned
            && (forall p | p in s.h.callerOwned :: Read(s'.h, p) == Read(s.h, p))
  {
    hide Conserved, Inv;
    AddKeeps(s);
    MergeIntoNew(s, value);
    WriteKeeps(Add(s), |s.f.live|, value);
    assert (Values(s) + [s.h.empty])[|s.f.live| := value] == Values(s) + [value];
    CallerReadsKept(s, value);
  }

  lemma CallerReadsKept<V(!new)>(s: State<V>, value: V)
    requires Inv(s) && Inv(Add(s))
    ensures var s' := MergeInto(Add(s), |s.f.live|, value);
            && s'.h.callerOwned == s.h.callerOwned
            && (forall p | p in s.h.callerOwned :: Read(s'.h, p) == Read(s.h, p))
  {
    hide Conserved;
    LiveDistinct(Add(s), |s.f.live|);
    forall p | p in s.h.callerOwned ensures p < s.h.next { CallerObjectIsLive(Owned(s), s.h, p); }
  }

  /** Appending copies the values and leaves alone what the caller, and so the other field, owns. */
  lemma {:induction false} AppendKeeps<V(!new)>(s: State<V>, values: seq<V>)
    requires Inv(s)
    ensures Refines(s, Append(s, values), Values(s) + values)
    ensures Append(s, values).h.callerOwned == s.h.callerOwned
    ensures forall p | p in s.h.callerOwned :: Read(Append(s, values).h, p) == Read(s.h, p)
    decreases values
  {
    hide Inv, Read, Values;
    if values == [] {
      assert Values(s) + values == Values(s);
    } else {
      AppendOneKeeps(s, values[0]);
      AppendKeeps(MergeInto(Add(s), |s.f.live|, values[0]), values[1..]);
      assert Values(s) + [values[0]] + values[1..] == Values(s) + values;
    }
  }

  lemma AppendStep<V(!new)>(s: State<V>, values: seq<V>, i: nat)
    requires i < |values|
    ensures Append(s, values[i..]) == Append(MergeInto(Add(s), |s.f.live|, values[i]), values[i + 1..])
  {
    assert |Add(s).f.live| == |s.f.live| + 1;
    hide Add, MergeInto;
    assert values[i..][1..] == values[i + 1..];
  }

  lemma AppendNothing<V(!new)>(s: State<V>, values: seq<V>)
    requires values == []
    ensures Append(s, values) == s
  {
  }

  lemma MergeFromKeeps<V(!new)>(s: State<V>, values: seq<V>)
    requires Inv(s)
    ensures Refines(s, MergeFrom(s, values), Values(s) + values)
    ensures forall p | p in s.h.callerOwned ::
              p !in Owned(MergeFrom(s, values)) && Read(MergeFrom(s, values).h, p) == Read(s.h, p)
  {
    hide Conserved, Append;
    var s1 := Reserve(s, |s.f.live| + |values|);
    assert Values(s1) == Values(s);
    AppendKeeps(s1, values);
    var s' := MergeFrom(s, values);
    forall p | p in s.h.callerOwned
      ensures p !in Owned(s')
    {
      CallerObjectIsLive(Owned(s'), s'.h, p);
    }
  }

  /** Copying yields exactly the other field's values, into objects that are not the other field's. */
  lemma CopyFromKeeps<V(!new)>(s: State<V>, values: seq<V>)
    requires Inv(s)
    ensures Refines(s, CopyFrom(s, values), values)
    ensures forall p | p in Clear(s).h.callerOwned :: p !in Owned(CopyFrom(s, values))
  {
    hide Conserved;
    ClearKeeps(s);
    MergeFromKeeps(Clear(s), values);
    assert [] + values == values;
  }

  lemma CallerNewKeeps<V(!new)>(s: State<V>, value: V)
    requires Inv(s)
    ensures Refines(s, Step(s, CallerNew(value)), Values(s))
  {
    hide Conserved;
    CallerNewConserves(Owned(s), s.h, value);
    OwnedAreLive(s);
    assert forall i | 0 <= i < |s.f.live| :: s.f.live[i] in Owned(s);
    assert forall i | 0 <= i < |s.f.pool| :: s.f.pool[i] in Owned(s);
    assert Values(Step(s, CallerNew(value))) == Values(s);
  }

  lemma CallerDeleteKeeps<V(!new)>(s: State<V>, p: Ptr)
    requires Inv(s) && p in s.h.callerOwned
    ensures Refines(s, Step(s, CallerDelete(p)), Values(s))
  {
    hide Conserved;
    CallerObjectIsLive(Owned(s), s.h, p);
    NotOwned(s, p);
    CallerDeleteConserves(Owned(s), s.h, p);
    assert Values(Step(s, CallerDelete(p))) == Values(s);
  }

  lemma CallerWriteKeeps<V(!new)>(s: State<V>, p: Ptr, value: V)
    requires Inv(s) && p in s.h.callerOwned
    ensures s.h.Live(p) && Refines(s, Step(s, CallerWrite(p, value)), Values(s))
  {
    hide Conserved;
    CallerObjectIsLive(Owned(s), s.h, p);
    NotOwned(s, p);
    AssignConserves(Owned(s), s.h, p, value);
    assert Values(Step(s, CallerWrite(p, value))) == Values(s);
  }

  lemma NotOwned<V(!new)>(s: State<V>, p: Ptr)
    requires p !in Owned(s)
    ensures forall i | 0 <= i < |s.f.live| :: s.f.live[i] != p
    ensures forall i | 0 <= i < |s.f.pool| :: s.f.pool[i] != p
  {
  }

  lemma OwnedAreLive<V(!new)>(s: State<V>)
    requires Inv(s)
    ensures forall p | p in Owned(s) :: s.h.Live(p) && p < s.h.next
  {
    hide Conserved;
    forall p | p in Owned(s)
      ensures s.h.Live(p) && p < s.h.next
    {
      var i :| 0 <= i < |Owned(s)| && Owned(s)[i] == p;
      OwnedIsLive(Owned(s), s.h, i);
    }
  }

  /** One operation keeps the invariant and acts on the values as on a plain sequence. */
  lemma StepRefines<V(!new)>(s: State<V>, op: Op<V>)
    requires Inv(s) && Enabled(s, op)
    ensures Refines(s, Step(s, op), OnSequence(Values(s), op, s.h.empty, Given(s, op)))
  {
    hide Conserved;
    match op
    case OpAdd => AddKeeps(s);
    case OpRemoveLast => RemoveLastKeeps(s);
    case OpClear => ClearKeeps(s);
    case OpAddAllocated(p) => AddAllocatedKeeps(s, p);
    case OpReleaseLast => ReleaseLastKeeps(s);
    case OpAddCleared(p) => AddClearedKeeps(s, p);
    case OpReleaseCleared => ReleaseClearedKeeps(s);
    case OpExtractSubrange(start, num) => ExtractSubrangeKeeps(s, start, num);
    case OpDeleteSubrange(start, num) => DeleteSubrangeKeeps(s, start, num);
    case OpReserve(size) => ReserveKeeps(s, size);
    case OpWrite(i, value) => WriteKeeps(s, i, value);
    case OpSwapElements(i, j) => SwapElementsKeeps(s, i, j);
    case OpMergeFrom(values) => MergeFromKeeps(s, values);
    case OpCopyFrom(values) => CopyFromKeeps(s, values);
    case CallerNew(value) => CallerNewKeeps(s, value);
    case CallerDelete(p) => CallerDeleteKeeps(s, p);
    case CallerWrite(p, value) => CallerWriteKeeps(s, p, value);
  }

  // ---- Runs -------------------------------------------------------------------------------

  function Start<V>(empty: V, merge: (V, V) -> V): State<V> {
    State(Field([], [], 0), Heap(empty, map[EMPTY_STRING := empty], 1, [], {}), merge)
  }

  ghost predicate CanRun<V(!new)>(s: State<V>, ops: seq<Op<V>>)
    decreases ops
  {
    ops != [] ==> Enabled(s, ops[0]) && CanRun(Step(s, ops[0]), ops[1..])
  }

  ghost function Run<V(!new)>(s: State<V>, ops: seq<Op<V>>): State<V>
    requires CanRun(s, ops)
    decreases ops
  {
    if ops == [] then s else Run(Step(s, ops[0]), ops[1..])
  }

  /** The same run on a plain sequence; only AddAllocated looks at the heap, for the value it is given. */
  ghost function RunOnSequence<V(!new)>(s: State<V>, v: seq<V>, ops: seq<Op<V>>): seq<V>
    requires CanRun(s, ops)
    decreases ops
  {
    if ops == [] then v
    else RunOnSequence(Step(s, ops[0]), OnSequence(v, ops[0], s.h.empty, Given(s, ops[0])), ops[1..])
  }

  lemma {:induction false} RunRefines<V(!new)>(s: State<V>, ops: seq<Op<V>>)
    requires Inv(s) && CanRun(s, ops)
    ensures Refines(s, Run(s, ops), RunOnSequence(s, Values(s), ops))
    decreases ops
  {
    if ops != [] {
      StepRefines(s, ops[0]);
      hide Step, OnSequence, Inv, Enabled;
      RunRefines(Step(s, ops[0]), ops[1..]);
    }
  }

  /**
   After any run from an empty field: the slots hold pairwise distinct objects that have not been
   deleted, pooled ones are empty, every object ever created is in exactly one place, and nothing
   was deleted twice. If the caller has deleted what it owns, then destroying the field leaves
   every object deleted exactly once.
   */
  lemma EveryRunConserves<V(!new)>(empty: V, merge: (V, V) -> V, ops: seq<Op<V>>)
    requires MergesOntoEmpty(merge, empty) && CanRun(Start(empty, merge), ops)
    ensures var s := Run(Start(empty, merge), ops);
            && Inv(s)
            && Values(s) == RunOnSequence(Start(empty, merge), [], ops)
            && (forall i, j | 0 <= i < j < |Owned(s)| :: Owned(s)[i] != Owned(s)[j])
            && (forall i | 0 <= i < |Owned(s)| :: s.h.Live(Owned(s)[i]) && Owned(s)[i] !in s.h.callerOwned)
            && Conserved([], Destroy(s).h)
            && (s.h.callerOwned == {} ==> forall p | 1 <= p < s.h.next :: multiset(Destroy(s).h.deleted)[p] == 1)
  {
    StartIsEmpty(empty, merge);
    RunRefines(Start(empty, merge), ops);
    hide Run, Conserved;
    var s := Run(Start(empty, merge), ops);
    assert forall i, j | 0 <= i < j < |Owned(s)| :: Owned(s)[i] != Owned(s)[j] by { OwnedDistinct(s); }
    OwnedDistinct(s);
    DestroyDeletes(s);
  }

  lemma StartIsEmpty<V(!new)>(empty: V, merge: (V, V) -> V)
    requires MergesOntoEmpty(merge, empty)
    ensures Inv(Start(empty, merge)) && Values(Start(empty, merge)) == []
  {
  }

  lemma OwnedDistinct<V(!new)>(s: State<V>)
    requires Inv(s)
    ensures forall i, j | 0 <= i < j < |Owned(s)| :: Owned(s)[i] != Owned(s)[j]
    ensures forall i | 0 <= i < |Owned(s)| :: s.h.Live(Owned(s)[i]) && Owned(s)[i] !in s.h.callerOwned
  {
    hide Conserved;
    forall i | 0 <= i < |Owned(s)|
      ensures s.h.Live(Owned(s)[i]) && Owned(s)[i] !in s.h.callerOwned
      ensures forall j | 0 <= j < |Owned(s)| && j != i :: Owned(s)[j] != Owned(s)[i]
    {
      OwnedIsLive(Owned(s), s.h, i);
    }
  }

  /** ~RepeatedPtrField deletes what is left, each object once. */
  lemma DestroyDeletes<V(!new)>(s: State<V>)
    requires Inv(s)
    ensures Conserved([], Destroy(s).h)
    ensures s.h.callerOwned == {} ==> forall p | 1 <= p < s.h.next :: multiset(Destroy(s).h.deleted)[p] == 1
  {
    var all := Owned(s);
    assert all[0..0 + |all|] == all;
    assert Cut(all, 0, |all|) == [];
    DeleteAllKeeps(all, s.h, 0, |all|);
  }
}
