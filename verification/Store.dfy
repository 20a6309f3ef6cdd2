/** The heap objects (strings, messages) that containers and messages point to, with who owns or deleted them. */
module Store {
  import opened Bytes

  /** An address; addresses are handed out once. */
  type Ptr = nat

  /** &internal::kEmptyString, a static object that nobody owns */
  const EMPTY_STRING: Ptr := 0

  /**
   empty: what a new or cleared object holds;
   contents: the objects that exist and have not been deleted;
   next: the first address not yet handed out;
   deleted: every call of delete, in order;
   callerOwned: what the code outside containers and messages has to delete.
   */
  datatype Heap<V> = Heap(empty: V, contents: map<Ptr, V>, next: Ptr, deleted: seq<Ptr>, callerOwned: set<Ptr>) {
    predicate Live(p: Ptr) { p in contents && p != EMPTY_STRING }

    /** A new, empty object; its address is next. */
    function New(): Heap<V> { NewWith(empty) }

    function NewWith(value: V): Heap<V> {
      this.(contents := contents[next := value], next := next + 1)
    }

    function Delete(p: Ptr): Heap<V> {
      this.(contents := contents - {p}, deleted := deleted + [p])
    }

    function Assign(p: Ptr, value: V): Heap<V>
      requires Live(p)
    {
      this.(contents := contents[p := value])
    }

    function Take(p: Ptr): Heap<V> { this.(callerOwned := callerOwned - {p}) }

    function Give(p: Ptr): Heap<V> { this.(callerOwned := callerOwned + {p}) }

    /** The static object is there and empty; an address has an object exactly from New to Delete. */
    ghost predicate Consistent() {
      && next >= 1
      && EMPTY_STRING in contents && contents[EMPTY_STRING] == empty
      && forall p: Ptr :: p in contents <==> p < next && p !in deleted
    }
  }

  /** The value of an object */
  function Read<V>(h: Heap<V>, p: Ptr): V { if p in h.contents then h.contents[p] else h.empty }

  /**
   Every object ever created is, exactly once, among those owned by the container or message,
   owned by the caller, or deleted; and nothing else is.
   */
  ghost predicate Conserved<V>(owned: seq<Ptr>, h: Heap<V>) {
    && h.Consistent()
    && forall p: Ptr ::
         multiset(owned)[p] + One(p in h.callerOwned) + multiset(h.deleted)[p] == One(1 <= p < h.next)
  }

  lemma {:induction false} TwiceCounts(s: seq<Ptr>, i: nat, j: nat)
    requires i < j < |s| && s[i] == s[j]
    ensures multiset(s)[s[i]] >= 2
  {
    assert s == s[..j] + s[j..];
    assert s[i] in multiset(s[..j]) by { assert s[..j][i] == s[i]; }
    assert s[j] in multiset(s[j..]) by { assert s[j..][0] == s[j]; }
  }

  /** An owned object is live, and owned in one place only. */
  lemma OwnedIsLive<V>(owned: seq<Ptr>, h: Heap<V>, i: nat)
    requires Conserved(owned, h) && i < |owned|
    ensures h.Live(owned[i]) && owned[i] !in h.callerOwned && owned[i] < h.next
    ensures forall j | 0 <= j < |owned| && j != i :: owned[j] != owned[i]
  {
    var p := owned[i];
    assert p in multiset(owned);
    assert p !in multiset(h.deleted);
    forall j | 0 <= j < |owned| && j != i
      ensures owned[j] != p
    {
      if owned[j] == p {
        TwiceCounts(owned, if i < j then i else j, if i < j then j else i);
      }
    }
  }

  lemma CallerObjectIsLive<V>(owned: seq<Ptr>, h: Heap<V>, p: Ptr)
    requires Conserved(owned, h) && p in h.callerOwned
    ensures h.Live(p) && p !in owned && p < h.next
  {
  }

  /** Only the multiset of owned addresses matters. */
  lemma ReorderConserves<V>(owned: seq<Ptr>, owned': seq<Ptr>, h: Heap<V>)
    requires Conserved(owned, h) && multiset(owned) == multiset(owned')
    ensures Conserved(owned', h)
  {
  }

  lemma NewConserves<V>(owned: seq<Ptr>, h: Heap<V>)
    requires Conserved(owned, h)
    ensures Conserved(owned + [h.next], h.New())
  {
    assert h.next !in multiset(h.deleted);
  }

  /** delete of an owned object */
  lemma DeleteConserves<V>(owned: seq<Ptr>, h: Heap<V>, i: nat)
    requires Conserved(owned, h) && i < |owned|
    ensures Conserved(owned[..i] + owned[i + 1..], h.Delete(owned[i]))
  {
    OwnedIsLive(owned, h, i);
    assert owned == owned[..i] + [owned[i]] + owned[i + 1..];
  }

  lemma AssignConserves<V>(owned: seq<Ptr>, h: Heap<V>, p: Ptr, value: V)
    requires Conserved(owned, h) && h.Live(p)
    ensures Conserved(owned, h.Assign(p, value))
  {
  }

  /** The caller hands an object over. */
  lemma TakeConserves<V>(owned: seq<Ptr>, h: Heap<V>, p: Ptr)
    requires Conserved(owned, h) && p in h.callerOwned
    ensures Conserved(owned + [p], h.Take(p))
  {
  }

  /** An owned object is handed to the caller. */
  lemma GiveConserves<V>(owned: seq<Ptr>, h: Heap<V>, i: nat)
    requires Conserved(owned, h) && i < |owned|
    ensures Conserved(owned[..i] + owned[i + 1..], h.Give(owned[i]))
  {
    OwnedIsLive(owned, h, i);
    assert owned == owned[..i] + [owned[i]] + owned[i + 1..];
  }

  /** The caller makes an object of its own. */
  lemma CallerNewConserves<V>(owned: seq<Ptr>, h: Heap<V>, value: V)
    requires Conserved(owned, h)
    ensures Conserved(owned, h.NewWith(value).Give(h.next))
  {
  }

  lemma CallerDeleteConserves<V>(owned: seq<Ptr>, h: Heap<V>, p: Ptr)
    requires Conserved(owned, h) && p in h.callerOwned
    ensures Conserved(owned, h.Take(p).Delete(p))
  {
  }

  // ---- Several owners -------------------------------------------------------------------------------

  /** The heap from the point of view of one owner: whatever else lives is somebody else's. */
  ghost function SeenBy<V>(owned: seq<Ptr>, h: Heap<V>): Heap<V> {
    h.(callerOwned := set p: Ptr | 1 <= p < h.next && p !in h.deleted && p !in owned)
  }

  /** The same heap, with the objects in others counted as the caller's */
  function Among<V>(h: Heap<V>, others: set<Ptr>): Heap<V> { h.(callerOwned := h.callerOwned + others) }

  /** What lives, but is neither owned nor the caller's */
  ghost function Beyond<V>(owned: seq<Ptr>, h: Heap<V>): set<Ptr> { SeenBy(owned, h).callerOwned - h.callerOwned }

  /** One owner's objects live and are held once, and the caller's live and are not among them, whoever owns the rest. */
  ghost predicate Held<V>(owned: seq<Ptr>, h: Heap<V>) {
    h.callerOwned <= SeenBy(owned, h).callerOwned && Conserved(owned, Among(h, Beyond(owned, h)))
  }

  /** The others' objects hold what they held, and the caller did not get them. */
  ghost predicate Untouched<V>(h: Heap<V>, h': Heap<V>, others: set<Ptr>) {
    h'.empty == h.empty && others !! h'.callerOwned && forall p | p in others :: Read(h', p) == Read(h, p)
  }

  /** Conservation leaves no choice: what is neither owned nor deleted is the caller's or the others'. */
  lemma HeldAmong<V>(owned: seq<Ptr>, h: Heap<V>, others: set<Ptr>)
    requires Conserved(owned, Among(h, others)) && others !! h.callerOwned
    ensures Held(owned, h) && Beyond(owned, h) == others
  {
    var crowd := Among(h, others);
    assert forall p: Ptr :: p in crowd.callerOwned <==> 1 <= p < h.next && p !in multiset(h.deleted) && p !in multiset(owned);
    assert SeenBy(owned, h).callerOwned == crowd.callerOwned;
  }

  lemma ApartIsBeyond<V>(owned: seq<Ptr>, o: seq<Ptr>, h: Heap<V>)
    requires Held(owned, h) && Held(o, h) && forall p | p in owned :: p !in o
    ensures forall p | p in o :: p in Beyond(owned, h)
  {
    forall p | p in o
      ensures p in Beyond(owned, h)
    {
      assert multiset(o)[p] + One(p in Among(h, Beyond(o, h)).callerOwned) + multiset(h.deleted)[p] == One(1 <= p < h.next);
      assert p in multiset(o) && (p in h.deleted <==> p in multiset(h.deleted));
    }
  }

  /** What is beyond one owner stays held by whoever held it. */
  lemma HeldStays<V>(owned: seq<Ptr>, h': Heap<V>, o: seq<Ptr>, h: Heap<V>)
    requires Held(owned, h') && Held(o, h) && forall p | p in o :: p in Beyond(owned, h')
    ensures Held(o, h') && forall p | p in owned :: p !in o
  {
    var mine := Among(h', Beyond(owned, h'));
    forall p: Ptr
      ensures multiset(o)[p] + One(p in Among(h', Beyond(o, h')).callerOwned) + multiset(h'.deleted)[p] == One(1 <= p < h'.next)
    {
      assert multiset(owned)[p] + One(p in mine.callerOwned) + multiset(h'.deleted)[p] == One(1 <= p < h'.next);
      assert multiset(o)[p] <= 1 by {
        assert multiset(o)[p] + One(p in Among(h, Beyond(o, h)).callerOwned) + multiset(h.deleted)[p] == One(1 <= p < h.next);
      }
      assert p in o <==> p in multiset(o);
      assert p in h'.deleted <==> p in multiset(h'.deleted);
    }
  }

  /** The others' objects are live and not owned. */
  lemma OthersAreLive<V>(owned: seq<Ptr>, h: Heap<V>, others: set<Ptr>)
    requires Conserved(owned, Among(h, others))
    ensures forall p | p in others || p in h.callerOwned :: h.Live(p) && p < h.next && p !in owned
    ensures forall p | p in owned :: h.Live(p) && p < h.next
  {
    hide Conserved;
    forall p | p in others || p in h.callerOwned
      ensures h.Live(p) && p < h.next && p !in owned
    {
      CallerObjectIsLive(owned, Among(h, others), p);
    }
    forall p | p in owned
      ensures h.Live(p) && p < h.next
    {
      var i :| 0 <= i < |owned| && owned[i] == p;
      OwnedIsLive(owned, Among(h, others), i);
    }
  }

  /** An owner that shares the heap with others: what the others own is apart from what is its own and the caller's. */
  lemma IntoTheCrowd<V>(owned: seq<Ptr>, rest: seq<Ptr>, h: Heap<V>)
    requires Conserved(owned + rest, h)
    ensures var others := set p | p in rest; Conserved(owned, Among(h, others)) && others !! h.callerOwned
    ensures forall p: Ptr :: multiset(rest)[p] <= 1
  {
    var others := set p | p in rest;
    forall p: Ptr
      ensures multiset(owned)[p] + One(p in Among(h, others).callerOwned) + multiset(h.deleted)[p] == One(1 <= p < h.next)
      ensures p in others ==> p !in h.callerOwned
      ensures multiset(rest)[p] <= 1
    {
      CountApart(owned, rest, h, p);
    }
  }

  lemma CountApart<V>(owned: seq<Ptr>, rest: seq<Ptr>, h: Heap<V>, p: Ptr)
    requires Conserved(owned + rest, h)
    ensures multiset(owned)[p] + multiset(rest)[p] + One(p in h.callerOwned) + multiset(h.deleted)[p] == One(1 <= p < h.next)
    ensures p in rest <==> multiset(rest)[p] > 0
  {
    assert multiset(owned + rest)[p] == multiset(owned)[p] + multiset(rest)[p];
    assert p in rest <==> p in multiset(rest);
  }

  lemma OutOfTheCrowd<V>(owned: seq<Ptr>, rest: seq<Ptr>, h: Heap<V>)
    requires var others := set p | p in rest; Conserved(owned, Among(h, others)) && others !! h.callerOwned
    requires forall p: Ptr :: multiset(rest)[p] <= 1
    ensures Conserved(owned + rest, h)
  {
    var others := set p | p in rest;
    forall p: Ptr
      ensures multiset(owned + rest)[p] + One(p in h.callerOwned) + multiset(h.deleted)[p] == One(1 <= p < h.next)
    {
      assert multiset(owned)[p] + One(p in Among(h, others).callerOwned) + multiset(h.deleted)[p] == One(1 <= p < h.next);
      assert multiset(owned + rest)[p] == multiset(owned)[p] + multiset(rest)[p];
      assert p in others <==> p in multiset(rest);
    }
  }

  /** new, delete and assignment to an object */
  class Memory<V> {
    var h: Heap<V>

    /** Nothing but the static object */
    constructor (empty: V)
      ensures h == Heap(empty, map[EMPTY_STRING := empty], 1, [], {})
    {
      h := Heap(empty, map[EMPTY_STRING := empty], 1, [], {});
    }

    method New() returns (p: Ptr)
      modifies this
      ensures p == old(h.next) && h == old(h).New()
    {
      p := h.next;
      h := h.New();
    }

    method Delete(p: Ptr)
      requires h.Live(p)
      modifies this
      ensures h == old(h).Delete(p)
    {
      h := h.Delete(p);
    }

    method Assign(p: Ptr, value: V)
      requires h.Live(p)
      modifies this
      ensures h == old(h).Assign(p, value)
    {
      h := h.Assign(p, value);
    }
  }
}
