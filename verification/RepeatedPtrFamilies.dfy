/**
 Any number of repeated pointer fields on one heap, with MergeFrom and CopyFrom between them. Over every
 run each object is in one field's slots, with the caller, or deleted, and the fields' values behave as
 plain sequences.
 */
module RepeatedPtrFamilies {
  import opened Bytes
  import opened Store
  import opened RepeatedPtrSpec
  import opened RepeatedPtrRuns
  import opened RepeatedPtrSharing

  datatype Family<!V> = Family(fields: seq<Field>, h: Heap<V>, merge: (V, V) -> V)

  function At<V>(m: Family<V>, i: nat): State<V>
    requires i < |m.fields|
  {
    State(m.fields[i], m.h, m.merge)
  }

  function AllValues<V>(m: Family<V>): (r: seq<seq<V>>)
    ensures |r| == |m.fields|
  {
    seq(|m.fields|, i requires 0 <= i < |m.fields| => Values(At(m, i)))
  }

  /** All objects in all slots */
  function AllOwned(fields: seq<Field>): seq<Ptr> {
    if fields == [] then [] else fields[0].live + fields[0].pool + AllOwned(fields[1..])
  }

  ghost predicate InOrder<V>(f: Field, h: Heap<V>) {
    && |f.live| + |f.pool| <= f.total
    && forall i | 0 <= i < |f.pool| :: h.Live(f.pool[i]) && h.contents[f.pool[i]] == h.empty
  }

  ghost predicate FamilyInv<V(!new)>(m: Family<V>) {
    && MergesOntoEmpty(m.merge, m.h.empty) && Conserved(AllOwned(m.fields), m.h)
    && forall i | 0 <= i < |m.fields| :: InOrder(m.fields[i], m.h)
  }

  datatype Event<V> =
    | On(i: nat, op: Op<V>)
    | Merge(i: nat, j: nat)
    | Copy(i: nat, j: nat)
    | Exchange(i: nat, j: nat)
    | Make
    | Unmake(i: nat)

  /** MergeFrom and CopyFrom take another field. */
  ghost predicate CanHappen<V>(m: Family<V>, e: Event<V>) {
    match e
    case On(i, op) => i < |m.fields| && Enabled(At(m, i), op)
    case Make => true
    case Unmake(i) => i < |m.fields|
    case Exchange(i, j) => i < |m.fields| && j < |m.fields|
    case _ => e.i < |m.fields| && e.j < |m.fields| && e.i != e.j
  }

  function With<V>(m: Family<V>, i: nat, s: State<V>): Family<V>
    requires i < |m.fields|
  {
    m.(fields := m.fields[i := s.f], h := s.h)
  }

  ghost function Happen<V>(m: Family<V>, e: Event<V>): Family<V>
    requires CanHappen(m, e)
  {
    match e
    case On(i, op) => With(m, i, Step(At(m, i), op))
    case Merge(i, j) => With(m, i, MergeFrom(At(m, i), Values(At(m, j))))
    case Copy(i, j) => With(m, i, CopyFrom(At(m, i), Values(At(m, j))))
    case Exchange(i, j) => m.(fields := m.fields[i := m.fields[j]][j := m.fields[i]])
    case Make => m.(fields := m.fields + [Field([], [], 0)])
    case Unmake(i) => With(m, i, Destroy(At(m, i)))
  }

  /** The same event on plain sequences */
  ghost function OnSequences<V>(m: Family<V>, vs: seq<seq<V>>, e: Event<V>): seq<seq<V>>
    requires CanHappen(m, e) && |vs| == |m.fields|
  {
    match e
    case On(i, op) => vs[i := OnSequence(vs[i], op, m.h.empty, Given(At(m, i), op))]
    case Merge(i, j) => vs[i := vs[i] + vs[j]]
    case Copy(i, j) => vs[i := vs[j]]
    case Exchange(i, j) => vs[i := vs[j]][j := vs[i]]
    case Make => vs + [[]]
    case Unmake(i) => vs[i := []]
  }

  // ---- One field among the others ---------------------------------------------------------------------

  /** The other fields */
  function Others(fields: seq<Field>, i: nat): seq<Field>
    requires i < |fields|
  {
    fields[..i] + fields[i + 1..]
  }

  function OwnedElsewhere(fields: seq<Field>, i: nat): set<Ptr>
    requires i < |fields|
  {
    set p | p in AllOwned(Others(fields, i))
  }

  lemma {:induction false} AllOwnedAround(fields: seq<Field>, i: nat)
    requires i < |fields|
    ensures multiset(AllOwned(fields)) == multiset(fields[i].live + fields[i].pool + AllOwned(Others(fields, i)))
    decreases i
  {
    if i == 0 {
      assert Others(fields, 0) == fields[1..];
    } else {
      AllOwnedAround(fields[1..], i - 1);
      OthersUnfold(fields, i);
      hide Others;
      var own, mine, rest := fields[0].live + fields[0].pool, fields[i].live + fields[i].pool, AllOwned(Others(fields[1..], i - 1));
      ToTheFront(own, AllOwned(fields[1..]), mine, rest);
    }
  }

  lemma OthersUnfold(fields: seq<Field>, i: nat)
    requires 0 < i < |fields|
    ensures Others(fields, i) != [] && Others(fields, i)[0] == fields[0] && Others(fields, i)[1..] == Others(fields[1..], i - 1)
  {
  }

  lemma ToTheFront(own: seq<Ptr>, all: seq<Ptr>, mine: seq<Ptr>, rest: seq<Ptr>)
    requires multiset(all) == multiset(mine + rest)
    ensures multiset(own + all) == multiset(mine + (own + rest))
  {
    assert multiset(own + all) == multiset(own) + multiset(all);
    assert multiset(mine + (own + rest)) == multiset(mine) + (multiset(own) + multiset(rest));
  }

  lemma {:induction false} FieldIsOwned(fields: seq<Field>, j: nat)
    requires j < |fields|
    ensures forall p | p in fields[j].live || p in fields[j].pool :: p in AllOwned(fields)
  {
    if j > 0 {
      FieldIsOwned(fields[1..], j - 1);
    }
  }

  lemma OtherIsOwnedElsewhere(fields: seq<Field>, i: nat, j: nat)
    requires i < |fields| && j < |fields| && i != j
    ensures forall p | p in fields[j].live || p in fields[j].pool :: p in OwnedElsewhere(fields, i)
  {
    var k := if j < i then j else j - 1;
    assert Others(fields, i)[k] == fields[j];
    FieldIsOwned(Others(fields, i), k);
  }

  /** A field of a family, with the others' objects taken for the caller's, meets the invariant of a field alone. */
  lemma MemberInCrowd<V(!new)>(m: Family<V>, i: nat)
    requires FamilyInv(m) && i < |m.fields|
    ensures Inv(Crowd(At(m, i), OwnedElsewhere(m.fields, i))) && OwnedElsewhere(m.fields, i) !! m.h.callerOwned
    ensures forall p: Ptr :: multiset(AllOwned(Others(m.fields, i)))[p] <= 1
  {
    hide Conserved;
    var mine, rest := Owned(At(m, i)), AllOwned(Others(m.fields, i));
    AllOwnedAround(m.fields, i);
    ReorderConserves(AllOwned(m.fields), mine + rest, m.h);
    IntoTheCrowd(mine, rest, m.h);
    assert InOrder(m.fields[i], m.h);
  }

  /** What is right for one field in the crowd is right for the family. */
  lemma MemberChanges<V(!new)>(m: Family<V>, i: nat, s: State<V>)
    requires FamilyInv(m) && i < |m.fields|
    requires Inv(Crowd(s, OwnedElsewhere(m.fields, i))) && LeavesAlone(At(m, i), s, OwnedElsewhere(m.fields, i))
    ensures FamilyInv(With(m, i, s)) && AllValues(With(m, i, s)) == AllValues(m)[i := Values(s)]
  {
    hide Conserved, Values, InOrder;
    MemberInCrowd(m, i);
    var m' := With(m, i, s);
    WithConserves(m, i, s);
    forall j | 0 <= j < |m.fields|
      ensures InOrder(m'.fields[j], m'.h) && Values(At(m', j)) == if j == i then Values(s) else Values(At(m, j))
    {
      if j == i {
        InOrderAlone(s, OwnedElsewhere(m.fields, i));
      } else {
        OtherMemberStays(m, i, s, j);
      }
    }
  }

  lemma WithConserves<V(!new)>(m: Family<V>, i: nat, s: State<V>)
    requires FamilyInv(m) && i < |m.fields|
    requires Inv(Crowd(s, OwnedElsewhere(m.fields, i))) && OwnedElsewhere(m.fields, i) !! s.h.callerOwned
    ensures Conserved(AllOwned(With(m, i, s).fields), s.h)
  {
    hide Conserved;
    MemberInCrowd(m, i);
    var fields', rest := m.fields[i := s.f], AllOwned(Others(m.fields, i));
    OutOfTheCrowd(Owned(s), rest, s.h);
    AllOwnedAround(fields', i);
    assert Others(fields', i) == Others(m.fields, i);
    ReorderConserves(Owned(s) + rest, AllOwned(fields'), s.h);
  }

  lemma InOrderAlone<V(!new)>(s: State<V>, others: set<Ptr>)
    requires Inv(Crowd(s, others))
    ensures InOrder(s.f, s.h)
  {
    hide Conserved;
  }

  lemma OtherMemberStays<V(!new)>(m: Family<V>, i: nat, s: State<V>, j: nat)
    requires FamilyInv(m) && i < |m.fields| && j < |m.fields| && j != i
    requires Inv(Crowd(s, OwnedElsewhere(m.fields, i))) && LeavesAlone(At(m, i), s, OwnedElsewhere(m.fields, i))
    ensures InOrder(m.fields[j], s.h) && Values(At(With(m, i, s), j)) == Values(At(m, j))
  {
    hide Conserved, OwnedElsewhere;
    OtherIsOwnedElsewhere(m.fields, i, j);
    OthersAreElsewhere(s, OwnedElsewhere(m.fields, i));
    var f := m.fields[j];
    assert InOrder(f, m.h);
    forall k | 0 <= k < |f.pool|
      ensures s.h.Live(f.pool[k]) && s.h.contents[f.pool[k]] == s.h.empty
    {
      assert Read(s.h, f.pool[k]) == Read(m.h, f.pool[k]);
    }
    assert forall k | 0 <= k < |f.live| :: Read(s.h, f.live[k]) == Read(m.h, f.live[k]);
  }

  // ---- Events and runs ----------------------------------------------------------------------------------

  ghost predicate FamilyRefines<V(!new)>(m': Family<V>, vs: seq<seq<V>>) {
    FamilyInv(m') && AllValues(m') == vs
  }

  lemma OnKeeps<V(!new)>(m: Family<V>, i: nat, op: Op<V>)
    requires FamilyInv(m) && i < |m.fields| && Enabled(At(m, i), op)
    ensures FamilyRefines(With(m, i, Step(At(m, i), op)),
              AllValues(m)[i := OnSequence(Values(At(m, i)), op, m.h.empty, Given(At(m, i), op))])
  {
    hide FamilyInv, Inv, Step, OnSequence, Enabled, OwnedElsewhere;
    var s, others := At(m, i), OwnedElsewhere(m.fields, i);
    MemberInCrowd(m, i);
    StepInCrowd(s, op, others);
    StepRefines(Crowd(s, others), op);
    MemberChanges(m, i, Step(s, op));
    SameValues(s, Crowd(s, others));
    SameValues(Step(s, op), Step(Crowd(s, others), op));
    assert Given(Crowd(s, others), op) == Given(s, op);
  }

  /**
   MergeFrom appends the other field's values and CopyFrom replaces this field's by them; the other field,
   with all its objects, stays as it was, and so do all fields that take no part.
   */
  lemma MergeAndCopyKeep<V(!new)>(m: Family<V>, i: nat, j: nat)
    requires FamilyInv(m) && i < |m.fields| && j < |m.fields| && i != j
    ensures FamilyRefines(Happen(m, Merge(i, j)), AllValues(m)[i := AllValues(m)[i] + AllValues(m)[j]])
    ensures FamilyRefines(Happen(m, Copy(i, j)), AllValues(m)[i := AllValues(m)[j]])
  {
    hide FamilyInv, FamilyRefines;
    OnKeeps(m, i, OpMergeFrom(Values(At(m, j))));
    OnKeeps(m, i, OpCopyFrom(Values(At(m, j))));
  }

  lemma UnmakeKeeps<V(!new)>(m: Family<V>, i: nat)
    requires FamilyInv(m) && i < |m.fields|
    ensures FamilyRefines(Happen(m, Unmake(i)), AllValues(m)[i := []])
  {
    hide FamilyInv, Inv, OwnedElsewhere, Conserved;
    var s, others := At(m, i), OwnedElsewhere(m.fields, i);
    MemberInCrowd(m, i);
    DestroyInCrowd(s, others);
    DestroyedInCrowd(s, others);
    MemberChanges(m, i, Destroy(s));
    assert Values(Destroy(s)) == [];
  }

  lemma DestroyedInCrowd<V(!new)>(s: State<V>, others: set<Ptr>)
    requires Inv(Crowd(s, others)) && Commutes(s, Destroy(s), Destroy(Crowd(s, others)), others)
    ensures Inv(Crowd(Destroy(s), others))
  {
    hide Conserved;
    DestroyDeletes(Crowd(s, others));
    assert Owned(Crowd(Destroy(s), others)) == [];
  }

  lemma MakeKeeps<V(!new)>(m: Family<V>)
    requires FamilyInv(m)
    ensures FamilyRefines(Happen(m, Make), AllValues(m) + [[]])
  {
    hide Conserved, AllOwned, InOrder, AllValues;
    var fields' := m.fields + [Field([], [], 0)];
    OwnedOfMade(m.fields);
    ReorderConserves(AllOwned(m.fields), AllOwned(fields'), m.h);
    EmptyIsInOrder(m.h);
    MadeValues(m);
  }

  lemma OwnedOfMade(fields: seq<Field>)
    ensures multiset(AllOwned(fields + [Field([], [], 0)])) == multiset(AllOwned(fields))
  {
    var fields', n := fields + [Field([], [], 0)], |fields|;
    AllOwnedAround(fields', n);
    assert Others(fields', n) == fields;
    assert [] + [] + AllOwned(fields) == AllOwned(fields);
  }

  lemma EmptyIsInOrder<V>(h: Heap<V>)
    ensures InOrder(Field([], [], 0), h)
  {
  }

  lemma MadeValues<V>(m: Family<V>)
    ensures AllValues(m.(fields := m.fields + [Field([], [], 0)])) == AllValues(m) + [[]]
  {
  }

  lemma ExchangeKeeps<V(!new)>(m: Family<V>, i: nat, j: nat)
    requires FamilyInv(m) && i < |m.fields| && j < |m.fields|
    ensures FamilyRefines(Happen(m, Exchange(i, j)), AllValues(m)[i := AllValues(m)[j]][j := AllValues(m)[i]])
  {
    hide Conserved, InOrder, AllOwned, AllValues;
    var fields' := m.fields[i := m.fields[j]][j := m.fields[i]];
    OwnedOfExchanged(m.fields, i, j);
    ReorderConserves(AllOwned(m.fields), AllOwned(fields'), m.h);
    ExchangedValues(m, i, j);
  }

  lemma ExchangedValues<V>(m: Family<V>, i: nat, j: nat)
    requires i < |m.fields| && j < |m.fields|
    ensures AllValues(m.(fields := m.fields[i := m.fields[j]][j := m.fields[i]])) == AllValues(m)[i := AllValues(m)[j]][j := AllValues(m)[i]]
  {
    hide Values;
  }

  lemma OwnedOfExchanged(fields: seq<Field>, i: nat, j: nat)
    requires i < |fields| && j < |fields|
    ensures multiset(AllOwned(fields[i := fields[j]][j := fields[i]])) == multiset(AllOwned(fields))
  {
    hide AllOwned;
    var fields', mid := fields[i := fields[j]][j := fields[i]], fields[i := fields[j]];
    if i != j {
      var a, b := fields[i].live + fields[i].pool, fields[j].live + fields[j].pool;
      var x, y := AllOwned(Others(fields, i)), AllOwned(Others(mid, j));
      AllOwnedAround(fields, i);
      AllOwnedAround(mid, i);
      AllOwnedAround(mid, j);
      AllOwnedAround(fields', j);
      assert Others(mid, i) == Others(fields, i) && Others(fields', j) == Others(mid, j);
      SameRest(a, b, x, y);
    } else {
      assert fields' == fields;
    }
  }

  lemma SameRest(a: seq<Ptr>, b: seq<Ptr>, x: seq<Ptr>, y: seq<Ptr>)
    requires multiset(b + x) == multiset(b + y)
    ensures multiset(a + x) == multiset(a + y)
  {
    assert multiset(x) == multiset(b + x) - multiset(b) && multiset(y) == multiset(b + y) - multiset(b);
  }

  /** Every event keeps the family in order and does to all values what it does to plain sequences. */
  lemma HappenRefines<V(!new)>(m: Family<V>, e: Event<V>)
    requires FamilyInv(m) && CanHappen(m, e)
    ensures FamilyRefines(Happen(m, e), OnSequences(m, AllValues(m), e))
  {
    hide FamilyInv, FamilyRefines;
    match e
    case On(i, op) => OnKeeps(m, i, op);
    case Merge(i, j) => MergeAndCopyKeep(m, i, j);
    case Copy(i, j) => MergeAndCopyKeep(m, i, j);
    case Exchange(i, j) => ExchangeKeeps(m, i, j);
    case Make => MakeKeeps(m);
    case Unmake(i) => UnmakeKeeps(m, i);
  }

  ghost predicate CanAllHappen<V>(m: Family<V>, es: seq<Event<V>>)
    decreases es
  {
    es != [] ==> CanHappen(m, es[0]) && CanAllHappen(Happen(m, es[0]), es[1..])
  }

  ghost function AllHappen<V>(m: Family<V>, es: seq<Event<V>>): Family<V>
    requires CanAllHappen(m, es)
    decreases es
  {
    if es == [] then m else AllHappen(Happen(m, es[0]), es[1..])
  }

  ghost function AllOnSequences<V>(m: Family<V>, vs: seq<seq<V>>, es: seq<Event<V>>): seq<seq<V>>
    requires CanAllHappen(m, es) && |vs| == |m.fields|
    decreases es
  {
    if es == [] then vs else AllOnSequences(Happen(m, es[0]), OnSequences(m, vs, es[0]), es[1..])
  }

  lemma {:induction false} FamilyRunRefines<V(!new)>(m: Family<V>, es: seq<Event<V>>)
    requires FamilyInv(m) && CanAllHappen(m, es)
    ensures FamilyRefines(AllHappen(m, es), AllOnSequences(m, AllValues(m), es))
    decreases es
  {
    hide FamilyInv, CanHappen, Happen, OnSequences;
    if es != [] {
      HappenRefines(m, es[0]);
      FamilyRunRefines(Happen(m, es[0]), es[1..]);
    }
  }

  /** No fields, and nothing on the heap but the static object */
  function NoFields<V>(empty: V, merge: (V, V) -> V): Family<V> {
    Family([], Heap(empty, map[EMPTY_STRING := empty], 1, [], {}), merge)
  }

  /**
   For every run of any number of fields, merged, copied and exchanged among each other: the fields' values
   are those of plain sequences, every object ever made is in exactly one slot of one field, with the caller,
   or deleted once, and no two fields hold the same object.
   */
  lemma EveryFamilyRunConserves<V(!new)>(empty: V, merge: (V, V) -> V, es: seq<Event<V>>)
    requires MergesOntoEmpty(merge, empty) && CanAllHappen(NoFields(empty, merge), es)
    ensures var m := AllHappen(NoFields(empty, merge), es);
            && AllValues(m) == AllOnSequences(NoFields(empty, merge), [], es)
            && Conserved(AllOwned(m.fields), m.h)
            && (forall i | 0 <= i < |m.fields| :: Sound(At(m, i)))
            && (forall i, j | 0 <= i < |m.fields| && 0 <= j < |m.fields| && i != j :: RepeatedPtrSharing.Apart(At(m, i), At(m, j)))
  {
    var none := NoFields(empty, merge);
    assert FamilyInv(none) && AllValues(none) == [];
    FamilyRunRefines(none, es);
    hide AllHappen;
    var m := AllHappen(none, es);
    forall i | 0 <= i < |m.fields|
      ensures Sound(At(m, i))
      ensures forall j | 0 <= j < |m.fields| && i != j :: RepeatedPtrSharing.Apart(At(m, i), At(m, j))
    {
      MembersAreApart(m, i);
    }
  }

  lemma MembersAreApart<V(!new)>(m: Family<V>, i: nat)
    requires FamilyInv(m) && i < |m.fields|
    ensures Sound(At(m, i))
    ensures forall j | 0 <= j < |m.fields| && i != j :: RepeatedPtrSharing.Apart(At(m, i), At(m, j))
  {
    hide Conserved, OwnedElsewhere;
    var s, others := At(m, i), OwnedElsewhere(m.fields, i);
    MemberInCrowd(m, i);
    OthersAreElsewhere(s, others);
    HeldAmong(Owned(s), s.h, others);
    forall j | 0 <= j < |m.fields| && i != j
      ensures RepeatedPtrSharing.Apart(At(m, i), At(m, j))
    {
      OtherIsOwnedElsewhere(m.fields, i, j);
    }
  }
}
