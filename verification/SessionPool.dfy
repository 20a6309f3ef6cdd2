/**
 The accept and close protocol of chat_server (chatting_server.cpp) over its fixed pool of sessions.
 Completions of asynchronous operations are the steps; each may come at any time it is outstanding.
 */
module SessionPool {
  import opened Bytes

  /**
   queue: session_queue_; isAccepting: is_accepting_; accepts, receives: the outstanding asynchronous
   operations; open: the sessions whose socket is open; lost: sessions whose accept failed.
   */
  datatype Pool = Pool(queue: seq<nat>, isAccepting: bool, accepts: seq<nat>, receives: multiset<nat>, open: set<nat>, lost: seq<nat>)

  function PostAccept(p: Pool): Pool {
    if p.queue == [] then p.(isAccepting := false)
    else p.(isAccepting := true, accepts := p.accepts + [p.queue[0]], queue := p.queue[1..])
  }

  function PostReceive(p: Pool, id: nat): Pool { p.(receives := p.receives + multiset{id}) }

  function CloseSession(p: Pool, id: nat): Pool {
    var p' := p.(open := p.open - {id}, queue := p.queue + [id]);
    if p'.isAccepting then p' else PostAccept(p')
  }

  datatype Event = AcceptOk | AcceptError | ReadOk(id: nat) | ReadError(id: nat)

  predicate Enabled(p: Pool, e: Event) {
    match e
    case AcceptOk => p.accepts != []
    case AcceptError => p.accepts != []
    case ReadOk(id) => id in p.receives
    case ReadError(id) => id in p.receives
  }

  function HandleAccept(p: Pool, ok: bool): Pool
    requires p.accepts != []
  {
    var id := p.accepts[0];
    var p' := p.(accepts := p.accepts[1..]);
    if ok then PostAccept(PostReceive(p'.(open := p'.open + {id}), id)) else p'.(lost := p'.lost + [id])
  }

  function HandleReceive(p: Pool, id: nat, ok: bool): Pool {
    var p' := p.(receives := p.receives - multiset{id});
    if ok then PostReceive(p', id) else CloseSession(p', id)
  }

  function Step(p: Pool, e: Event): Pool
    requires Enabled(p, e)
  {
    match e
    case AcceptOk => HandleAccept(p, true)
    case AcceptError => HandleAccept(p, false)
    case ReadOk(id) => HandleReceive(p, id, true)
    case ReadError(id) => HandleReceive(p, id, false)
  }

  function Ids(n: nat): (s: seq<nat>)
    ensures |s| == n && forall i | 0 <= i < n :: s[i] == i
  {
    if n == 0 then [] else Ids(n - 1) + [n - 1]
  }

  /** After init(n) and start() */
  function Started(n: nat): Pool { PostAccept(Pool(Ids(n), false, [], multiset{}, {}, [])) }

  /** Each id below n is in exactly one place, once. */
  ghost predicate Partitioned(n: nat, p: Pool) {
    forall id: nat ::
      multiset(p.queue)[id] + multiset(p.accepts)[id] + One(id in p.open) + multiset(p.lost)[id] == One(id < n)
  }

  /** All n sessions are connected. */
  ghost predicate AllOpen(n: nat, p: Pool) {
    forall id: nat :: id in p.open <==> id < n
  }

  ghost predicate Inv(n: nat, p: Pool) {
    && Partitioned(n, p)
    && p.receives == multiset(p.open)
    && |p.accepts| + |p.lost| <= 1
    && (p.isAccepting <==> p.accepts != [] || p.lost != [])
    && (!p.isAccepting ==> p.queue == [])
  }

  lemma OneMore(ids: seq<nat>, next: nat, id: nat)
    ensures multiset(ids + [next])[id] == multiset(ids)[id] + One(id == next)
  {
  }

  lemma {:induction false} IdsOnce(n: nat, id: nat)
    ensures multiset(Ids(n))[id] == One(id < n)
  {
    if n > 0 {
      IdsOnce(n - 1, id);
      OneMore(Ids(n - 1), n - 1, id);
    }
  }

  lemma PostAcceptKeeps(n: nat, p: Pool)
    requires Partitioned(n, p)
    ensures Partitioned(n, PostAccept(p))
  {
    if p.queue != [] {
      assert p.queue == [p.queue[0]] + p.queue[1..];
    }
  }

  lemma StartedIsFine(n: nat)
    ensures Inv(n, Started(n))
  {
    var p := Pool(Ids(n), false, [], multiset{}, {}, []);
    forall id: nat ensures multiset(Ids(n))[id] == One(id < n) { IdsOnce(n, id); }
    assert Partitioned(n, p);
    PostAcceptKeeps(n, p);
  }

  lemma AcceptedIsNotOpen(n: nat, p: Pool)
    requires Partitioned(n, p) && p.accepts != []
    ensures p.accepts[0] !in p.open && p.accepts[0] < n
  {
  }

  lemma HandleAcceptKeeps(n: nat, p: Pool, ok: bool)
    requires Inv(n, p) && p.accepts != []
    ensures Inv(n, HandleAccept(p, ok))
  {
    var id := p.accepts[0];
    assert p.accepts == [id];
    AcceptedIsNotOpen(n, p);
    if ok {
      ConnectKeeps(n, p, id);
    } else {
      assert Partitioned(n, p.(accepts := [], lost := p.lost + [id]));
    }
  }

  lemma ConnectKeeps(n: nat, p: Pool, id: nat)
    requires Inv(n, p) && p.accepts == [id] && id !in p.open
    ensures Inv(n, PostAccept(PostReceive(p.(accepts := [], open := p.open + {id}), id)))
  {
    var p' := PostReceive(p.(accepts := [], open := p.open + {id}), id);
    assert multiset(p'.open) == multiset(p.open) + multiset{id};
    assert Partitioned(n, p');
    PostAcceptKeeps(n, p');
    hide Partitioned;
  }

  lemma CloseSessionKeeps(n: nat, p: Pool, id: nat)
    requires Inv(n, p) && id in p.receives
    ensures Inv(n, HandleReceive(p, id, false))
  {
    var p' := p.(receives := p.receives - multiset{id}, open := p.open - {id}, queue := p.queue + [id]);
    assert id in p.open;
    assert multiset(p'.open) == multiset(p.open) - multiset{id};
    assert Partitioned(n, p');
    PostAcceptKeeps(n, p');
  }

  lemma StepKeeps(n: nat, p: Pool, e: Event)
    requires Inv(n, p) && Enabled(p, e)
    ensures Inv(n, Step(p, e))
  {
    match e
    case AcceptOk => HandleAcceptKeeps(n, p, true);
    case AcceptError => HandleAcceptKeeps(n, p, false);
    case ReadOk(id) =>
      assert p.receives - multiset{id} + multiset{id} == p.receives;
    case ReadError(id) => CloseSessionKeeps(n, p, id);
  }

  ghost predicate CanRun(p: Pool, events: seq<Event>)
    decreases events
  {
    events != [] ==> Enabled(p, events[0]) && CanRun(Step(p, events[0]), events[1..])
  }

  function Run(p: Pool, events: seq<Event>): Pool
    requires CanRun(p, events)
    decreases events
  {
    if events == [] then p else Run(Step(p, events[0]), events[1..])
  }

  lemma {:induction false} RunKeeps(n: nat, p: Pool, events: seq<Event>)
    requires Inv(n, p) && CanRun(p, events)
    ensures Inv(n, Run(p, events))
    decreases events
  {
    if events != [] {
      StepKeeps(n, p, events[0]);
      hide Inv, Step, Enabled;
      RunKeeps(n, Step(p, events[0]), events[1..]);
    }
  }

  /**
   For every interleaving of completions after start: the ids 0 .. n - 1 are partitioned into the free
   queue, at most one pending accept, the connected sessions, each with exactly one pending read, and at
   most one id lost to an accept error. The server is not accepting exactly when all n are connected.
   */
  lemma EveryInterleavingKeepsThePool(n: nat, events: seq<Event>)
    requires CanRun(Started(n), events)
    ensures var p := Run(Started(n), events);
            && Partitioned(n, p) && |p.accepts| <= 1 && |p.lost| <= 1
            && p.receives == multiset(p.open)
            && (!p.isAccepting <==> AllOpen(n, p))
            && (p.lost == [] ==> (p.accepts == [] <==> AllOpen(n, p)))
  {
    StartedIsFine(n);
    RunKeeps(n, Started(n), events);
    AllConnected(n, Run(Started(n), events));
  }

  lemma AllConnected(n: nat, p: Pool)
    requires Inv(n, p)
    ensures !p.isAccepting <==> AllOpen(n, p)
  {
    if p.isAccepting {
      var id := if p.accepts != [] then p.accepts[0] else p.lost[0];
      assert id in multiset(p.accepts) + multiset(p.lost);
      assert id !in p.open && id < n;
    }
  }

  /** After one failed accept no accept is ever posted again, so no session connects any more. */
  lemma {:induction false} AcceptErrorIsFinal(n: nat, p: Pool, events: seq<Event>)
    requires Inv(n, p) && p.lost != [] && CanRun(p, events)
    ensures Run(p, events).accepts == [] && Run(p, events).open <= p.open && Run(p, events).lost == p.lost
    decreases events
  {
    if events != [] {
      StepKeeps(n, p, events[0]);
      var p' := Step(p, events[0]);
      assert p'.lost == p.lost && p'.open <= p.open;
      AcceptErrorIsFinal(n, p', events[1..]);
    }
  }

  // ---- What the completions do ---------------------------------------------------------------------

  /**
   An accept without error opens the one session that was accepted on, with one pending read, and goes on
   with the front of the queue, or stops accepting when the queue is empty.
   */
  lemma AcceptOkConnects(n: nat, p: Pool)
    requires Inv(n, p) && p.accepts != []
    ensures var id, p' := p.accepts[0], Step(p, AcceptOk);
            && p.accepts == [id] && id !in p.open && p'.open == p.open + {id} && p'.receives[id] == 1 && p'.lost == p.lost
            && p'.accepts + p'.queue == p.queue && |p'.accepts| == One(p.queue != []) && p'.isAccepting == (p.queue != [])
            && forall other | other != id :: p'.receives[other] == p.receives[other]
  {
    AcceptedIsNotOpen(n, p);
    assert p.accepts == [p.accepts[0]];
    ConnectsOne(p, p.accepts[0]);
  }

  lemma ConnectsOne(p: Pool, id: nat)
    requires p.accepts == [id] && id !in p.open && p.receives == multiset(p.open)
    ensures var p' := HandleAccept(p, true);
            && p'.open == p.open + {id} && p'.receives[id] == 1 && p'.lost == p.lost
            && p'.accepts + p'.queue == p.queue && |p'.accepts| == One(p.queue != []) && p'.isAccepting == (p.queue != [])
            && forall other | other != id :: p'.receives[other] == p.receives[other]
  {
    assert p.accepts[1..] == [];
    if p.queue != [] {
      assert p.queue == [p.queue[0]] + p.queue[1..];
    }
  }

  /** A failed accept loses the session that was accepted on, and the server goes on as if it were accepting. */
  lemma AcceptErrorLoses(n: nat, p: Pool)
    requires Inv(n, p) && p.accepts != []
    ensures Step(p, AcceptError) == p.(accepts := [], lost := p.accepts)
  {
    assert p.accepts == [p.accepts[0]] && p.lost == [];
  }

  /** A completed read posts the next one, and that is all. */
  lemma ReadOkChangesNothing(p: Pool, id: nat)
    requires id in p.receives
    ensures Step(p, ReadOk(id)) == p
  {
    assert p.receives - multiset{id} + multiset{id} == p.receives;
  }

  /** A failed read closes that session alone; it is accepted on at once if the server had stopped accepting, and else queued behind the others. */
  lemma ReadErrorCloses(n: nat, p: Pool, id: nat)
    requires Inv(n, p) && id in p.receives
    ensures var p' := Step(p, ReadError(id));
            && id in p.open && p'.open == p.open - {id} && p'.receives == p.receives - multiset{id} && p'.lost == p.lost
            && p'.isAccepting
            && if p.isAccepting then p'.accepts == p.accepts && p'.queue == p.queue + [id]
               else p'.accepts == [id] && p'.queue == []
  {
  }

  /** The ids that were accepted on, by the accepts that completed, in order */
  function Taken(p: Pool, events: seq<Event>): seq<nat>
    requires CanRun(p, events)
    decreases events
  {
    if events == [] then []
    else (if events[0].AcceptOk? || events[0].AcceptError? then [p.accepts[0]] else []) + Taken(Step(p, events[0]), events[1..])
  }

  /** Those of them that were accepted without error */
  function Connected(p: Pool, events: seq<Event>): seq<nat>
    requires CanRun(p, events)
    decreases events
  {
    if events == [] then [] else (if events[0].AcceptOk? then [p.accepts[0]] else []) + Connected(Step(p, events[0]), events[1..])
  }

  /** The ids of the failed reads, in order */
  function Closed(events: seq<Event>): seq<nat> {
    if events == [] then [] else (if events[0].ReadError? then [events[0].id] else []) + Closed(events[1..])
  }

  lemma StepTakesTheFront(n: nat, p: Pool, e: Event)
    requires Inv(n, p) && Enabled(p, e)
    ensures var p' := Step(p, e);
            (if e.AcceptOk? || e.AcceptError? then [p.accepts[0]] else []) + (p'.accepts + p'.queue) ==
            p.accepts + p.queue + (if e.ReadError? then [e.id] else [])
  {
    hide Inv;
    match e
    case AcceptOk => AcceptOkConnects(n, p);
    case AcceptError => AcceptErrorLoses(n, p); assert Inv(n, p) ==> |p.accepts| == 1;
    case ReadOk(id) => ReadOkChangesNothing(p, id);
    case ReadError(id) => ReadErrorCloses(n, p, id);
  }

  /** First come, first served: sessions are accepted on in the order in which they were queued. */
  lemma {:induction false} AcceptsGoInOrder(n: nat, p: Pool, events: seq<Event>)
    requires Inv(n, p) && CanRun(p, events)
    ensures var p' := Run(p, events);
            Taken(p, events) + (p'.accepts + p'.queue) == p.accepts + p.queue + Closed(events)
    decreases events
  {
    hide Inv, Step;
    if events == [] {
      assert p.accepts + p.queue + [] == [] + (p.accepts + p.queue);
    } else {
      var e, p1, p' := events[0], Step(p, events[0]), Run(p, events);
      StepKeeps(n, p, e);
      StepTakesTheFront(n, p, e);
      AcceptsGoInOrder(n, p1, events[1..]);
      var now := if e.AcceptOk? || e.AcceptError? then [p.accepts[0]] else [];
      Regroup(now, Taken(p1, events[1..]), p'.accepts + p'.queue);
      Regroup(now, p1.accepts + p1.queue, Closed(events[1..]));
      Regroup(p.accepts + p.queue, if e.ReadError? then [e.id] else [], Closed(events[1..]));
    }
  }

  lemma StepOpensAndCloses(n: nat, p: Pool, e: Event)
    requires Inv(n, p) && Enabled(p, e)
    ensures multiset(Step(p, e).open) + multiset(if e.ReadError? then [e.id] else []) ==
            multiset(p.open) + multiset(if e.AcceptOk? then [p.accepts[0]] else [])
  {
    match e
    case AcceptOk => AcceptOkConnects(n, p);
    case AcceptError => AcceptErrorLoses(n, p);
    case ReadOk(id) => ReadOkChangesNothing(p, id);
    case ReadError(id) => ReadErrorCloses(n, p, id);
  }

  /** The sessions that are open are those that were connected and not closed since. */
  lemma {:induction false} OpenAreConnectedNotClosed(n: nat, p: Pool, events: seq<Event>)
    requires Inv(n, p) && CanRun(p, events)
    ensures multiset(Run(p, events).open) + multiset(Closed(events)) == multiset(p.open) + multiset(Connected(p, events))
    decreases events
  {
    hide Inv, Step;
    if events != [] {
      var e, p1 := events[0], Step(p, events[0]);
      StepKeeps(n, p, e);
      StepOpensAndCloses(n, p, e);
      OpenAreConnectedNotClosed(n, p1, events[1..]);
      var closed, connected := if e.ReadError? then [e.id] else [], if e.AcceptOk? then [p.accepts[0]] else [];
      Balance(Run(p, events).open, p1.open, p.open, closed, Closed(events[1..]), connected, Connected(p1, events[1..]));
    }
  }

  lemma Balance(open: set<nat>, mid: set<nat>, was: set<nat>, c1: seq<nat>, c2: seq<nat>, k1: seq<nat>, k2: seq<nat>)
    requires multiset(mid) + multiset(c1) == multiset(was) + multiset(k1)
    requires multiset(open) + multiset(c2) == multiset(mid) + multiset(k2)
    ensures multiset(open) + multiset(c1 + c2) == multiset(was) + multiset(k1 + k2)
  {
    forall id: nat
      ensures (multiset(open) + multiset(c1 + c2))[id] == (multiset(was) + multiset(k1 + k2))[id]
    {
      assert (multiset(mid) + multiset(c1))[id] == (multiset(was) + multiset(k1))[id];
      assert (multiset(open) + multiset(c2))[id] == (multiset(mid) + multiset(k2))[id];
    }
  }

  /** How many completions were of this kind */
  function Count(events: seq<Event>, kind: Event -> bool): nat {
    if events == [] then 0 else One(kind(events[0])) + Count(events[1..], kind)
  }

  lemma {:induction false} HowMany(p: Pool, events: seq<Event>)
    requires CanRun(p, events)
    ensures |Connected(p, events)| == Count(events, (e: Event) => e.AcceptOk?)
    ensures |Closed(events)| == Count(events, (e: Event) => e.ReadError?)
    decreases events
  {
    hide Step;
    if events != [] { HowMany(Step(p, events[0]), events[1..]); }
  }

  /**
   For every interleaving after start: the ids that were accepted on so far, then the one accepted on now,
   then the queue, are the ids 0 .. n - 1 and then those that were closed, in order; and as many sessions
   are open as accepts succeeded less the reads that failed.
   */
  lemma EveryInterleavingServesInOrder(n: nat, events: seq<Event>)
    requires CanRun(Started(n), events)
    ensures var p := Run(Started(n), events);
            && Taken(Started(n), events) + (p.accepts + p.queue) == Ids(n) + Closed(events)
            && multiset(p.open) + multiset(Closed(events)) == multiset(Connected(Started(n), events))
            && |p.open| == Count(events, (e: Event) => e.AcceptOk?) - Count(events, (e: Event) => e.ReadError?)
  {
    hide Run, Inv;
    StartedIsFine(n);
    AcceptsGoInOrder(n, Started(n), events);
    OpenAreConnectedNotClosed(n, Started(n), events);
    HowMany(Started(n), events);
    StartedQueue(n);
    var p := Run(Started(n), events);
    assert |multiset(p.open)| == |p.open|;
    assert |multiset(p.open) + multiset(Closed(events))| == |p.open| + |Closed(events)|;
    assert |multiset(Connected(Started(n), events))| == |Connected(Started(n), events)|;
  }

  lemma StartedQueue(n: nat)
    ensures Started(n).accepts + Started(n).queue == Ids(n) && Started(n).open == {}
  {
    if n > 0 { assert Ids(n) == [Ids(n)[0]] + Ids(n)[1..]; }
  }

  /** chat_server's part in the protocol; the outstanding operations and open sockets are kept beside its own fields. */
  class ChatServer {
    var sessionQueue: seq<nat>
    var isAccepting: bool
    var accepts: seq<nat>
    var receives: multiset<nat>
    var openSockets: set<nat>
    ghost var lost: seq<nat>
    ghost var sessionCount: nat

    ghost function View(): Pool
      reads this
    {
      Pool(sessionQueue, isAccepting, accepts, receives, openSockets, lost)
    }

    ghost predicate Valid()
      reads this
    {
      Inv(sessionCount, View())
    }

    /** init(n) and start() */
    constructor (n: nat)
      ensures Valid() && sessionCount == n && View() == Started(n)
    {
      sessionQueue, isAccepting, accepts, receives, openSockets, lost, sessionCount := [], false, [], multiset{}, {}, [], n;
      new;
      for i := 0 to n
        invariant View() == Pool(Ids(i), false, [], multiset{}, {}, []) && sessionCount == n
      {
        sessionQueue := sessionQueue + [i];
      }
      StartedIsFine(n);
      var b := Accept();
    }

    /** post_accept */
    method Accept() returns (posted: bool)
      modifies this`sessionQueue, this`isAccepting, this`accepts
      ensures View() == PostAccept(old(View())) && posted == (old(sessionQueue) != [])
    {
      if sessionQueue == [] {
        isAccepting := false;
        return false;
      }
      isAccepting := true;
      var id := sessionQueue[0];
      sessionQueue := sessionQueue[1..];
      accepts := accepts + [id];
      return true;
    }

    /** handle_accept for the pending accept */
    method CompleteAccept(error: bool)
      requires Valid() && accepts != []
      modifies this
      ensures Valid() && sessionCount == old(sessionCount) && View() == HandleAccept(old(View()), !error)
    {
      hide Inv;
      HandleAcceptKeeps(sessionCount, View(), !error);
      var id := accepts[0];
      accepts := accepts[1..];
      if !error {
        openSockets := openSockets + {id};
        receives := receives + multiset{id};
        var b := Accept();
      } else {
        lost := lost + [id];
      }
    }

    /** handle_receive of a session, as far as the pool is concerned, with close_session on an error */
    method CompleteReceive(id: nat, error: bool)
      requires Valid() && id in receives
      modifies this
      ensures Valid() && sessionCount == old(sessionCount) && View() == HandleReceive(old(View()), id, !error)
    {
      hide Inv;
      StepKeeps(sessionCount, View(), if error then ReadError(id) else ReadOk(id));
      receives := receives - multiset{id};
      if error {
        openSockets := openSockets - {id};
        sessionQueue := sessionQueue + [id];
        if isAccepting == false {
          var b := Accept();
        }
      } else {
        receives := receives + multiset{id};
      }
    }
  }
}
