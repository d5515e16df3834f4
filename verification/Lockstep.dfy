/** The lockstep of client threads and their server shadow threads over two pipes, while a test is
    running.  A client thread sends an event and waits for a continue; the server's pipe thread
    hands the event to the shadow thread of that client, which it creates at need; the shadow
    thread handles the event and sends the continue, which the client's pipe thread hands to the
    waiting client thread. */
module Lockstep {

  type Tid = nat

  datatype Event = ThreadEnd | Other(what: int)

  datatype Message = Message(tid: Tid, event: Event)

  datatype Client = Running | Waiting | Ended

  datatype Shadow =
    | Receiving
    | Handling(event: Event)
    | Replying(event: Event)   // the event is handled, the continue still to be sent
    | Leaving                  // to be unregistered

  /** What a pipe thread is doing: receiving from its pipe, or handing on what it received. */
  datatype Worker<M> = Free | Handing(m: M)

  datatype State = State(
    clients: map<Tid, Client>,
    shadows: map<Tid, Shadow>,          // the registered ones
    events: seq<Message>,               // the pipe to the server
    continues: seq<Tid>,                // the pipe to the client
    server: Worker<Message>,
    client: Worker<Tid>,
    sent: map<Tid, seq<Event>>,         // the events each client thread has sent
    handled: map<Tid, seq<Event>>,      // the events its shadow threads have handled
    continued: map<Tid, nat>)           // the continues it has received

  function Sent(s: State, t: Tid): seq<Event> { if t in s.sent then s.sent[t] else [] }
  function Handled(s: State, t: Tid): seq<Event> { if t in s.handled then s.handled[t] else [] }
  function Continued(s: State, t: Tid): nat { if t in s.continued then s.continued[t] else 0 }

  // ---------------------------------------------------------------- steps

  /** A thread that meets the client library gets an id that was never used before. */
  ghost predicate Register(s: State, s': State, t: Tid) {
    && t !in s.clients && t !in s.sent && t !in s.shadows
    && s' == s.(clients := s.clients[t := Running])
  }

  ghost predicate SendEvent(s: State, s': State, t: Tid) {
    && t in s.clients && s.clients[t].Running?
    && exists e :: s' == s.(clients := s.clients[t := Waiting], events := s.events + [Message(t, e)],
                            sent := s.sent[t := Sent(s, t) + [e]])
  }

  ghost predicate ServerReceives(s: State, s': State) {
    && s.server.Free? && s.events != []
    && s' == s.(server := Handing(s.events[0]), events := s.events[1..])
  }

  /** The first event of a thread starts a shadow thread for it. */
  ghost predicate CreateShadowThread(s: State, s': State) {
    && s.server.Handing? && s.server.m.tid !in s.shadows
    && s' == s.(shadows := s.shadows[s.server.m.tid := Receiving])
  }

  /** The hand-over blocks until the shadow thread receives. */
  ghost predicate ForwardEvent(s: State, s': State) {
    && s.server.Handing? && s.server.m.tid in s.shadows && s.shadows[s.server.m.tid].Receiving?
    && s' == s.(server := Free, shadows := s.shadows[s.server.m.tid := Handling(s.server.m.event)])
  }

  ghost predicate Handle(s: State, s': State, t: Tid) {
    && t in s.shadows && s.shadows[t].Handling?
    && s' == s.(shadows := s.shadows[t := Replying(s.shadows[t].event)],
                handled := s.handled[t := Handled(s, t) + [s.shadows[t].event]])
  }

  ghost predicate SendContinue(s: State, s': State, t: Tid) {
    && t in s.shadows && s.shadows[t].Replying?
    && s' == s.(continues := s.continues + [t],
                shadows := s.shadows[t := if s.shadows[t].event.ThreadEnd? then Leaving else Receiving])
  }

  ghost predicate Unregister(s: State, s': State, t: Tid) {
    && t in s.shadows && s.shadows[t].Leaving?
    && s' == s.(shadows := s.shadows - {t})
  }

  ghost predicate ClientReceives(s: State, s': State) {
    && s.client.Free? && s.continues != []
    && s' == s.(client := Handing(s.continues[0]), continues := s.continues[1..])
  }

  /** The last event that the thread sent is its end. */
  predicate SaidGoodbye(s: State, t: Tid) {
    Sent(s, t) != [] && Sent(s, t)[|Sent(s, t)| - 1].ThreadEnd?
  }

  /** The thread goes on; after the continue for its last event it leaves for good. */
  ghost predicate DeliverContinue(s: State, s': State) {
    && s.client.Handing? && s.client.m in s.clients && s.clients[s.client.m].Waiting?
    && var t := s.client.m;
    s' == s.(client := Free, continued := s.continued[t := Continued(s, t) + 1],
             clients := s.clients[t := if SaidGoodbye(s, t) then Ended else Running])
  }

  ghost predicate Step(s: State, s': State, t: Tid) {
    || Register(s, s', t) || SendEvent(s, s', t) || ServerReceives(s, s') || CreateShadowThread(s, s')
    || ForwardEvent(s, s') || Handle(s, s', t) || SendContinue(s, s', t) || Unregister(s, s', t)
    || ClientReceives(s, s') || DeliverContinue(s, s')
  }

  ghost predicate Init(s: State) {
    s == State(map[], map[], [], [], Free, Free, map[], map[], map[])
  }

  // ---------------------------------------------------------------- the invariant

  function Senders(q: seq<Message>): seq<Tid> {
    seq(|q|, i requires 0 <= i < |q| => q[i].tid)
  }

  predicate Busy(s: State, t: Tid) {
    t in s.shadows && (s.shadows[t].Handling? || s.shadows[t].Replying?)
  }

  /** The places where thread t's event, or the continue for it, can be. */
  ghost function Upstream(s: State, t: Tid): nat {
    multiset(Senders(s.events))[t] + (if s.server.Handing? && s.server.m.tid == t then 1 else 0)
  }

  ghost function Downstream(s: State, t: Tid): nat {
    multiset(s.continues)[t] + (if s.client.Handing? && s.client.m == t then 1 else 0)
  }

  ghost function Tokens(s: State, t: Tid): nat {
    Upstream(s, t) + (if Busy(s, t) then 1 else 0) + Downstream(s, t)
  }

  /** A waiting thread has one token under way, and any other thread none. */
  ghost predicate OneToken(s: State, t: Tid) {
    Tokens(s, t) == if t in s.clients && s.clients[t].Waiting? then 1 else 0
  }

  ghost predicate Carries(s: State, m: Message) {
    Sent(s, m.tid) == Handled(s, m.tid) + [m.event]
  }

  /** The events sent and those handled differ by the one under way to its handling. */
  ghost predicate History(s: State, t: Tid) {
    && |Sent(s, t)| == Continued(s, t) + (if t in s.clients && s.clients[t].Waiting? then 1 else 0)
    && (Upstream(s, t) == 0 && !(t in s.shadows && s.shadows[t].Handling?) ==> Sent(s, t) == Handled(s, t))
    && (t in s.shadows && s.shadows[t].Handling? ==> Carries(s, Message(t, s.shadows[t].event)))
    && (t in s.shadows && s.shadows[t].Replying? ==>
          Sent(s, t) != [] && Sent(s, t)[|Sent(s, t)| - 1] == s.shadows[t].event)
  }

  /** A thread that has sent its last event sends no more, and its shadow thread leaves. */
  ghost predicate LastEvent(s: State, t: Tid) {
    && (t !in s.clients ==> Sent(s, t) == [] && t !in s.shadows)
    && (t in s.clients && !s.clients[t].Waiting? ==>
          (s.clients[t].Ended? <==> SaidGoodbye(s, t)))
    && (t in s.shadows && s.shadows[t].Leaving? ==>
          Upstream(s, t) == 0 && SaidGoodbye(s, t))
  }

  ghost predicate Good(s: State, t: Tid) {
    OneToken(s, t) && History(s, t) && LastEvent(s, t)
  }

  /** Every message on its way to a shadow thread carries the one event not yet handled. */
  ghost predicate AllCarry(s: State) {
    && (forall i {:trigger s.events[i]} :: 0 <= i < |s.events| ==> Carries(s, s.events[i]))
    && (s.server.Handing? ==> Carries(s, s.server.m))
  }

  ghost predicate Inv(s: State) {
    (forall t :: Good(s, t)) && AllCarry(s)
  }

  lemma InitInv(s: State)
    requires Init(s)
    ensures Inv(s)
  {
    assert Senders(s.events) == [];
  }

  lemma FirstIsCounted(q: seq<Tid>)
    requires q != []
    ensures multiset(q) == multiset{q[0]} + multiset(q[1..])
  {
    assert q == [q[0]] + q[1..];
  }

  /** A message from t is a token of t. */
  lemma OnTheWay(s: State, t: Tid)
    ensures (exists i :: 0 <= i < |s.events| && s.events[i].tid == t) || (s.server.Handing? && s.server.m.tid == t)
            <==> Upstream(s, t) > 0
  {
    if i :| 0 <= i < |s.events| && s.events[i].tid == t {
      assert Senders(s.events)[i] == t;
    }
  }

  /** What the invariant says of one thread depends only on what concerns that thread. */
  ghost predicate SameFor(s: State, s': State, t: Tid) {
    && (t in s.clients <==> t in s'.clients) && (t in s.clients ==> s'.clients[t] == s.clients[t])
    && (t in s.shadows <==> t in s'.shadows) && (t in s.shadows ==> s'.shadows[t] == s.shadows[t])
    && Sent(s', t) == Sent(s, t) && Handled(s', t) == Handled(s, t) && Continued(s', t) == Continued(s, t)
    && Upstream(s', t) == Upstream(s, t) && Downstream(s', t) == Downstream(s, t)
  }

  lemma GoodFrame(s: State, s': State, t: Tid)
    requires Good(s, t) && SameFor(s, s', t)
    ensures Good(s', t)
  {
  }

  lemma OthersGood(s: State, s': State, t: Tid)
    requires Inv(s) && Good(s', t) && forall u :: u != t ==> SameFor(s, s', u)
    ensures forall u :: Good(s', u)
  {
    forall u ensures Good(s', u) {
      assert Good(s, u);
      if u != t { GoodFrame(s, s', u); }
    }
  }

  lemma SendGood(s: State, s': State, t: Tid)
    requires Good(s, t) && SendEvent(s, s', t)
    ensures Good(s', t) && Carries(s', s'.events[|s.events|]) && Upstream(s, t) == 0
    ensures forall u :: u != t ==> SameFor(s, s', u)
  {
    assert Senders(s'.events) == Senders(s.events) + [t];
  }

  lemma SendCarries(s: State, s': State, t: Tid)
    requires AllCarry(s) && SendEvent(s, s', t) && Upstream(s, t) == 0
    requires Carries(s', s'.events[|s.events|])
    ensures AllCarry(s')
  {
    OnTheWay(s, t);
    forall i | 0 <= i < |s'.events| ensures Carries(s', s'.events[i]) {
      if i < |s.events| {
        assert Carries(s, s.events[i]) && s.events[i].tid != t;
      }
    }
  }

  lemma SendKeeps(s: State, s': State, t: Tid)
    requires Inv(s) && SendEvent(s, s', t)
    ensures Inv(s')
  {
    assert Good(s, t);
    SendGood(s, s', t);
    OthersGood(s, s', t);
    SendCarries(s, s', t);
  }

  lemma ServerReceivesTokens(s: State, s': State, t: Tid)
    requires ServerReceives(s, s')
    ensures Upstream(s', t) == Upstream(s, t)
  {
    FirstIsCounted(Senders(s.events));
    assert Senders(s'.events) == Senders(s.events)[1..];
  }

  lemma ServerReceivesKeeps(s: State, s': State)
    requires Inv(s) && ServerReceives(s, s')
    ensures Inv(s')
  {
    forall u ensures Good(s', u) {
      assert Good(s, u);
      ServerReceivesTokens(s, s', u);
      GoodFrame(s, s', u);
    }
    forall i | 0 <= i < |s'.events| ensures Carries(s', s'.events[i]) {
      assert Carries(s, s.events[i + 1]);
    }
  }

  lemma RegisterKeeps(s: State, s': State, t: Tid)
    requires Inv(s) && Register(s, s', t)
    ensures Inv(s')
  {
    assert Good(s, t);
    OthersGood(s, s', t);
    CarryFrame(s, s');
  }

  lemma CarryFrame(s: State, s': State)
    requires AllCarry(s) && s'.events == s.events && (s'.server == s.server || s'.server.Free?)
    requires s'.sent == s.sent && s'.handled == s.handled
    ensures AllCarry(s')
  {
    forall i | 0 <= i < |s'.events| ensures Carries(s', s'.events[i]) {
      assert Carries(s, s.events[i]);
    }
  }

  lemma CreateKeeps(s: State, s': State)
    requires Inv(s) && CreateShadowThread(s, s')
    ensures Inv(s')
  {
    var t := s.server.m.tid;
    assert Good(s, t);
    assert Upstream(s', t) == Upstream(s, t) && Downstream(s', t) == Downstream(s, t);
    OthersGood(s, s', t);
    CarryFrame(s, s');
  }

  lemma ForwardGood(s: State, s': State, t: Tid)
    requires Good(s, t) && AllCarry(s) && ForwardEvent(s, s') && t == s.server.m.tid
    ensures Good(s', t) && forall u :: u != t ==> SameFor(s, s', u)
  {
    assert Downstream(s', t) == Downstream(s, t);
    assert Upstream(s', t) == Upstream(s, t) - 1;
  }

  lemma ForwardKeeps(s: State, s': State)
    requires Inv(s) && ForwardEvent(s, s')
    ensures Inv(s')
  {
    var t := s.server.m.tid;
    assert Good(s, t);
    ForwardGood(s, s', t);
    OthersGood(s, s', t);
    CarryFrame(s, s');
  }

  lemma HandleGood(s: State, s': State, t: Tid)
    requires Good(s, t) && Handle(s, s', t)
    ensures Good(s', t) && Upstream(s, t) == 0 && forall u :: u != t ==> SameFor(s, s', u)
  {
    assert Upstream(s', t) == Upstream(s, t);
  }

  lemma SendContinueGood(s: State, s': State, t: Tid)
    requires Good(s, t) && SendContinue(s, s', t)
    ensures Good(s', t) && forall u :: u != t ==> SameFor(s, s', u)
  {
    assert Upstream(s', t) == Upstream(s, t);
    assert Downstream(s', t) == Downstream(s, t) + 1;
  }

  lemma UnregisterGood(s: State, s': State, t: Tid)
    requires Good(s, t) && Unregister(s, s', t)
    ensures Good(s', t) && forall u :: u != t ==> SameFor(s, s', u)
  {
    assert Upstream(s', t) == Upstream(s, t) && Downstream(s', t) == Downstream(s, t);
  }

  lemma ShadowKeeps(s: State, s': State, t: Tid)
    requires Inv(s) && (Handle(s, s', t) || SendContinue(s, s', t) || Unregister(s, s', t))
    ensures Inv(s')
  {
    assert Good(s, t);
    if Handle(s, s', t) {
      HandleGood(s, s', t);
    } else if SendContinue(s, s', t) {
      SendContinueGood(s, s', t);
    } else {
      UnregisterGood(s, s', t);
    }
    OthersGood(s, s', t);
    OnTheWay(s, t);
    forall i | 0 <= i < |s'.events| ensures Carries(s', s'.events[i]) {
      assert Carries(s, s.events[i]);
    }
  }

  lemma ClientReceivesKeeps(s: State, s': State)
    requires Inv(s) && ClientReceives(s, s')
    ensures Inv(s')
  {
    FirstIsCounted(s.continues);
    forall u ensures Good(s', u) {
      assert Good(s, u);
      GoodFrame(s, s', u);
    }
    CarryFrame(s, s');
  }

  lemma DeliverGood(s: State, s': State, t: Tid)
    requires Good(s, t) && DeliverContinue(s, s') && t == s.client.m
    ensures Good(s', t) && forall u :: u != t ==> SameFor(s, s', u)
  {
    assert Upstream(s', t) == Upstream(s, t);
    assert Downstream(s', t) == Downstream(s, t) - 1;
  }

  lemma DeliverKeeps(s: State, s': State)
    requires Inv(s) && DeliverContinue(s, s')
    ensures Inv(s')
  {
    assert Good(s, s.client.m);
    DeliverGood(s, s', s.client.m);
    OthersGood(s, s', s.client.m);
    CarryFrame(s, s');
  }

  lemma StepKeeps(s: State, s': State, t: Tid)
    requires Inv(s) && Step(s, s', t)
    ensures Inv(s')
  {
    if Register(s, s', t) {
      RegisterKeeps(s, s', t);
    } else if SendEvent(s, s', t) {
      SendKeeps(s, s', t);
    } else if ServerReceives(s, s') {
      ServerReceivesKeeps(s, s');
    } else if CreateShadowThread(s, s') {
      CreateKeeps(s, s');
    } else if ForwardEvent(s, s') {
      ForwardKeeps(s, s');
    } else if ClientReceives(s, s') {
      ClientReceivesKeeps(s, s');
    } else if DeliverContinue(s, s') {
      DeliverKeeps(s, s');
    } else {
      ShadowKeeps(s, s', t);
    }
  }

  // ---------------------------------------------------------------- whole runs

  datatype Run = Run(states: seq<State>, who: seq<Tid>)

  ghost predicate IsRun(r: Run) {
    && |r.states| == |r.who| + 1 && Init(r.states[0])
    && forall k :: 0 <= k < |r.who| ==> Step(r.states[k], r.states[k + 1], r.who[k])
  }

  lemma {:induction false} AlwaysInv(r: Run, k: nat)
    requires IsRun(r) && k < |r.states|
    ensures Inv(r.states[k])
  {
    if k == 0 {
      InitInv(r.states[0]);
    } else {
      AlwaysInv(r, k - 1);
      StepKeeps(r.states[k - 1], r.states[k], r.who[k - 1]);
    }
  }

  /** For every client thread the events sent minus the continues received is 1 while it waits and
      0 otherwise, and what its shadow threads have handled is what it sent, up to the last event. */
  lemma InLockstep(r: Run, k: nat, t: Tid)
    requires IsRun(r) && k < |r.states|
    ensures var s := r.states[k];
            && |Sent(s, t)| - Continued(s, t) == (if t in s.clients && s.clients[t].Waiting? then 1 else 0)
            && Handled(s, t) <= Sent(s, t) && |Sent(s, t)| <= |Handled(s, t)| + 1
            && Continued(s, t) <= |Handled(s, t)|
  {
    AlwaysInv(r, k);
    var s := r.states[k];
    assert Good(s, t);
    OnTheWay(s, t);
    if i :| 0 <= i < |s.events| && s.events[i].tid == t {
      assert Carries(s, s.events[i]);
    }
  }

  /** A continue always finds its thread waiting for it, so none is dropped or given to another. */
  lemma ContinueFindsItsThread(r: Run, k: nat)
    requires IsRun(r) && k < |r.states| && r.states[k].client.Handing?
    ensures var s := r.states[k]; s.client.m in s.clients && s.clients[s.client.m].Waiting?
  {
    AlwaysInv(r, k);
    assert Good(r.states[k], r.states[k].client.m);
  }

  /** The server's hand-over never blocks on a busy or leaving shadow thread. */
  lemma ShadowThreadIsReady(r: Run, k: nat)
    requires IsRun(r) && k < |r.states| && r.states[k].server.Handing?
    ensures var s := r.states[k]; s.server.m.tid in s.shadows ==> s.shadows[s.server.m.tid].Receiving?
  {
    AlwaysInv(r, k);
    assert Good(r.states[k], r.states[k].server.m.tid);
  }

  /** A step that brings no new event. */
  ghost predicate Delivers(s: State, s': State, t: Tid) {
    Step(s, s', t) && !Register(s, s', t) && !SendEvent(s, s', t)
  }

  /** While some client thread waits, something on the way of its continue can move. */
  lemma NotStuck(r: Run, k: nat, t: Tid) returns (s': State, u: Tid)
    requires IsRun(r) && k < |r.states|
    requires t in r.states[k].clients && r.states[k].clients[t].Waiting?
    ensures Delivers(r.states[k], s', u)
  {
    AlwaysInv(r, k);
    var s := r.states[k];
    assert Good(s, t);
    u := t;
    if s.server.Handing? {
      ShadowThreadIsReady(r, k);
      s' := if s.server.m.tid !in s.shadows then s.(shadows := s.shadows[s.server.m.tid := Receiving])
            else s.(server := Free, shadows := s.shadows[s.server.m.tid := Handling(s.server.m.event)]);
    } else if s.events != [] {
      s' := s.(server := Handing(s.events[0]), events := s.events[1..]);
    } else if s.client.Handing? {
      ContinueFindsItsThread(r, k);
      var c := s.client.m;
      s' := s.(client := Free, continued := s.continued[c := Continued(s, c) + 1],
               clients := s.clients[c := if SaidGoodbye(s, c) then Ended else Running]);
    } else if s.continues != [] {
      s' := s.(client := Handing(s.continues[0]), continues := s.continues[1..]);
    } else {
      assert Busy(s, t);
      s' := if s.shadows[t].Handling?
            then s.(shadows := s.shadows[t := Replying(s.shadows[t].event)],
                    handled := s.handled[t := Handled(s, t) + [s.shadows[t].event]])
            else s.(continues := s.continues + [t],
                    shadows := s.shadows[t := if s.shadows[t].event.ThreadEnd? then Leaving else Receiving]);
    }
  }

  // ---------------------------------------------------------------- every continue comes

  ghost function Handlers(s: State): set<Tid> {
    set t | t in s.shadows && s.shadows[t].Handling?
  }

  ghost function Repliers(s: State): set<Tid> {
    set t | t in s.shadows && s.shadows[t].Replying?
  }

  ghost function Leavers(s: State): set<Tid> {
    set t | t in s.shadows && s.shadows[t].Leaving?
  }

  /** How many steps the events and continues under way still take. */
  ghost function Weight(s: State): nat {
    8 * |s.events|
    + (if s.server.Free? then 0 else if s.server.m.tid in s.shadows then 6 else 7)
    + 5 * |Handlers(s)| + 4 * |Repliers(s)| + |Leavers(s)|
    + 2 * |s.continues| + (if s.client.Free? then 0 else 1)
  }

  lemma ShadowSets(s: State, s': State, t: Tid)
    requires forall u :: u != t ==> (u in s.shadows <==> u in s'.shadows)
    requires forall u :: u != t && u in s.shadows ==> s'.shadows[u] == s.shadows[u]
    ensures Handlers(s') - {t} == Handlers(s) - {t}
    ensures Repliers(s') - {t} == Repliers(s) - {t}
    ensures Leavers(s') - {t} == Leavers(s) - {t}
  {
  }

  /** The size of a set with and without one element. */
  lemma SizeWithout(a: set<Tid>, t: Tid)
    ensures |a| == |a - {t}| + if t in a then 1 else 0
  {
    if t in a {
      assert a == (a - {t}) + {t};
    } else {
      assert a == a - {t};
    }
  }

  lemma ShadowSizes(s: State, s': State, t: Tid)
    requires forall u :: u != t ==> (u in s.shadows <==> u in s'.shadows)
    requires forall u :: u != t && u in s.shadows ==> s'.shadows[u] == s.shadows[u]
    ensures |Handlers(s')| - |Handlers(s)| == (if t in Handlers(s') then 1 else 0) - (if t in Handlers(s) then 1 else 0)
    ensures |Repliers(s')| - |Repliers(s)| == (if t in Repliers(s') then 1 else 0) - (if t in Repliers(s) then 1 else 0)
    ensures |Leavers(s')| - |Leavers(s)| == (if t in Leavers(s') then 1 else 0) - (if t in Leavers(s) then 1 else 0)
  {
    ShadowSets(s, s', t);
    SizeWithout(Handlers(s), t);
    SizeWithout(Handlers(s'), t);
    SizeWithout(Repliers(s), t);
    SizeWithout(Repliers(s'), t);
    SizeWithout(Leavers(s), t);
    SizeWithout(Leavers(s'), t);
  }

  lemma PipeStepLowersWeight(s: State, s': State)
    requires ServerReceives(s, s') || ClientReceives(s, s') || DeliverContinue(s, s')
    ensures Weight(s') < Weight(s)
  {
    assert Handlers(s') == Handlers(s) && Repliers(s') == Repliers(s) && Leavers(s') == Leavers(s);
  }

  lemma HandOverLowersWeight(s: State, s': State)
    requires CreateShadowThread(s, s') || ForwardEvent(s, s')
    ensures Weight(s') < Weight(s)
  {
    ShadowSizes(s, s', s.server.m.tid);
  }

  lemma HandlingLowersWeight(s: State, s': State, t: Tid)
    requires Handle(s, s', t) || SendContinue(s, s', t)
    ensures Weight(s') < Weight(s)
  {
    ShadowSizes(s, s', t);
  }

  lemma LeavingLowersWeight(s: State, s': State, t: Tid)
    requires Inv(s) && Unregister(s, s', t)
    ensures Weight(s') < Weight(s)
  {
    assert Good(s, t);
    ShadowSizes(s, s', t);
  }

  lemma DeliveryLowersWeight(s: State, s': State, t: Tid)
    requires Inv(s) && Delivers(s, s', t)
    ensures Weight(s') < Weight(s)
  {
    if ServerReceives(s, s') || ClientReceives(s, s') || DeliverContinue(s, s') {
      PipeStepLowersWeight(s, s');
    } else if CreateShadowThread(s, s') || ForwardEvent(s, s') {
      HandOverLowersWeight(s, s');
    } else if Unregister(s, s', t) {
      LeavingLowersWeight(s, s', t);
    } else {
      HandlingLowersWeight(s, s', t);
    }
  }

  ghost predicate OnlyDeliveries(r: Run, j: nat, k: nat)
    requires IsRun(r) && j <= k < |r.states|
  {
    forall i :: j <= i < k ==> Delivers(r.states[i], r.states[i + 1], r.who[i])
  }

  lemma {:induction false} FewDeliveries(r: Run, j: nat, k: nat)
    requires IsRun(r) && j <= k < |r.states| && OnlyDeliveries(r, j, k)
    ensures Weight(r.states[k]) + (k - j) <= Weight(r.states[j])
  {
    if j < k {
      FewDeliveries(r, j, k - 1);
      AlwaysInv(r, k - 1);
      assert Delivers(r.states[k - 1], r.states[k], r.who[k - 1]);
      DeliveryLowersWeight(r.states[k - 1], r.states[k], r.who[k - 1]);
    }
  }

  /** Without new events every waiting thread gets its continue: there are only so many steps to
      make, and as long as some thread waits there is one. */
  lemma EveryContinueComes(r: Run, j: nat, k: nat)
    requires IsRun(r) && j <= k < |r.states| && OnlyDeliveries(r, j, k)
    ensures k - j <= Weight(r.states[j])
    ensures (forall s', u :: !Delivers(r.states[k], s', u)) ==>
              forall t :: t in r.states[k].clients ==> !r.states[k].clients[t].Waiting?
  {
    FewDeliveries(r, j, k);
    if t :| t in r.states[k].clients && r.states[k].clients[t].Waiting? {
      var s', u := NotStuck(r, k, t);
      assert Delivers(r.states[k], s', u);
    }
  }

  // ---------------------------------------------------------------- the end of a thread

  /** A thread's end is the last event that it sends, and a shadow thread that receives has not just
      handled it. */
  ghost predicate EndsOnce(s: State, t: Tid) {
    && (forall i :: 0 <= i < |Sent(s, t)| - 1 ==> !Sent(s, t)[i].ThreadEnd?)
    && (t in s.shadows && s.shadows[t].Receiving? ==>
          Handled(s, t) == [] || !Handled(s, t)[|Handled(s, t)| - 1].ThreadEnd?)
  }

  /** The events handled are some of the first that were sent. */
  lemma HandledIsPrefix(s: State, t: Tid)
    requires Inv(s)
    ensures Handled(s, t) <= Sent(s, t) && |Sent(s, t)| <= |Handled(s, t)| + 1
    ensures Upstream(s, t) > 0 ==> |Sent(s, t)| == |Handled(s, t)| + 1
  {
    assert Good(s, t);
    OnTheWay(s, t);
    if i :| 0 <= i < |s.events| && s.events[i].tid == t {
      assert Carries(s, s.events[i]);
    }
  }

  lemma SendEndsOnce(s: State, s': State, t: Tid)
    requires Inv(s) && SendEvent(s, s', t) && EndsOnce(s, t)
    ensures EndsOnce(s', t)
  {
    assert Good(s, t);
  }

  function CreatedFor(s: State): Tid {
    if s.server.Handing? then s.server.m.tid else 0
  }

  lemma CreateEndsOnce(s: State, s': State, t: Tid)
    requires Inv(s) && CreateShadowThread(s, s') && CreatedFor(s) == t && EndsOnce(s, t)
    ensures EndsOnce(s', t)
  {
    HandledIsPrefix(s, t);
    assert Upstream(s, t) > 0;
    if Handled(s, t) != [] {
      assert Handled(s, t)[|Handled(s, t)| - 1] == Sent(s, t)[|Handled(s, t)| - 1];
    }
  }

  lemma ReplyEndsOnce(s: State, s': State, t: Tid)
    requires Inv(s) && SendContinue(s, s', t) && EndsOnce(s, t)
    ensures EndsOnce(s', t)
  {
    assert Good(s, t);
    assert Upstream(s, t) == 0;
  }

  ghost predicate SameEnd(s: State, s': State, t: Tid) {
    && Sent(s', t) == Sent(s, t)
    && (t in s'.shadows && s'.shadows[t].Receiving? ==>
          Handled(s', t) == Handled(s, t) && t in s.shadows && s.shadows[t].Receiving?)
  }

  lemma PipesEndOnce(s: State, s': State, u: Tid, t: Tid)
    requires Register(s, s', u) || ServerReceives(s, s') || ClientReceives(s, s') || DeliverContinue(s, s')
    ensures SameEnd(s, s', t)
  {
  }

  lemma ShadowsEndOnce(s: State, s': State, u: Tid, t: Tid)
    requires ForwardEvent(s, s') || Handle(s, s', u) || Unregister(s, s', u)
    ensures SameEnd(s, s', t)
  {
  }

  lemma OthersEndOnce(s: State, s': State, u: Tid, t: Tid)
    requires (SendEvent(s, s', u) && u != t) || (CreateShadowThread(s, s') && CreatedFor(s) != t)
             || (SendContinue(s, s', u) && u != t)
    ensures SameEnd(s, s', t)
  {
  }

  lemma StepEndsOnce(s: State, s': State, u: Tid, t: Tid)
    requires Inv(s) && Step(s, s', u) && EndsOnce(s, t)
    ensures EndsOnce(s', t)
  {
    hide Inv, SendEvent, CreateShadowThread, SendContinue, Register, ServerReceives, ClientReceives, DeliverContinue,
         ForwardEvent, Handle, Unregister;
    if SendEvent(s, s', u) {
      if u == t { SendEndsOnce(s, s', t); } else { OthersEndOnce(s, s', u, t); }
    } else if CreateShadowThread(s, s') {
      if CreatedFor(s) == t { CreateEndsOnce(s, s', t); } else { OthersEndOnce(s, s', u, t); }
    } else if SendContinue(s, s', u) {
      if u == t { ReplyEndsOnce(s, s', t); } else { OthersEndOnce(s, s', u, t); }
    } else if ForwardEvent(s, s') || Handle(s, s', u) || Unregister(s, s', u) {
      ShadowsEndOnce(s, s', u, t);
    } else {
      PipesEndOnce(s, s', u, t);
    }
  }

  lemma {:induction false} AlwaysEndsOnce(r: Run, k: nat, t: Tid)
    requires IsRun(r) && k < |r.states|
    ensures EndsOnce(r.states[k], t)
  {
    hide Inv, Step, EndsOnce;
    if k == 0 {
      NothingSentYet(r.states[0], t);
    } else {
      AlwaysEndsOnce(r, k - 1, t);
      AlwaysInv(r, k - 1);
      StepEndsOnce(r.states[k - 1], r.states[k], r.who[k - 1], t);
    }
  }

  lemma NothingSentYet(s: State, t: Tid)
    requires Init(s)
    ensures EndsOnce(s, t)
  {
  }

  /** A thread's end is the last event that it ever sends, and as soon as its shadow thread receives again
      it has something else to handle: a shadow thread that has handled the end is on its way out. */
  lemma ShadowThreadLeaves(r: Run, k: nat, t: Tid)
    requires IsRun(r) && k < |r.states|
    ensures var s := r.states[k];
            && (forall i :: 0 <= i < |Sent(s, t)| - 1 ==> !Sent(s, t)[i].ThreadEnd?)
            && (t in s.shadows && Handled(s, t) != [] && Handled(s, t)[|Handled(s, t)| - 1].ThreadEnd? ==>
                  s.shadows[t].Replying? || s.shadows[t].Leaving?)
  {
    AlwaysEndsOnce(r, k, t);
    AlwaysInv(r, k);
    var s := r.states[k];
    HandledIsPrefix(s, t);
    assert Good(s, t);
    if t in s.shadows && s.shadows[t].Handling? {
      assert Carries(s, Message(t, s.shadows[t].event));
    }
  }

  /** What is left of a thread when it neither waits nor has a shadow thread on its way out. */
  lemma AllHandled(r: Run, k: nat, t: Tid)
    requires IsRun(r) && k < |r.states|
    requires var s := r.states[k];
             && !(t in s.clients && s.clients[t].Waiting?) && !(t in s.shadows && s.shadows[t].Leaving?)
    ensures var s := r.states[k];
            && (SaidGoodbye(s, t) ==> t in s.clients && s.clients[t].Ended? && t !in s.shadows)
            && (t in s.shadows ==> s.shadows[t].Receiving?)
            && Handled(s, t) == Sent(s, t) && |Sent(s, t)| == Continued(s, t)
  {
    AlwaysInv(r, k);
    assert Good(r.states[k], t);
    ShadowThreadLeaves(r, k, t);
  }

  /** When nothing is left to deliver, every thread that has sent its end is gone, and so is its shadow
      thread; every other registered shadow thread receives, and every event is handled and answered. */
  lemma NobodyIsLeftBehind(r: Run, k: nat, t: Tid)
    requires IsRun(r) && k < |r.states|
    ensures var s := r.states[k];
            (forall s', u :: !Delivers(s, s', u)) ==>
              && (SaidGoodbye(s, t) ==> t in s.clients && s.clients[t].Ended? && t !in s.shadows)
              && (t in s.shadows ==> s.shadows[t].Receiving?)
              && Handled(s, t) == Sent(s, t) && |Sent(s, t)| == Continued(s, t)
  {
    hide Inv, Step;
    var s := r.states[k];
    if t in s.clients && s.clients[t].Waiting? {
      var s', u := NotStuck(r, k, t);
      assert Delivers(s, s', u);
    } else if t in s.shadows && s.shadows[t].Leaving? {
      var s' := LeavesNow(s, t);
      assert Delivers(s, s', t);
    } else {
      AllHandled(r, k, t);
    }
  }

  lemma LeavesNow(s: State, t: Tid) returns (s': State)
    requires t in s.shadows && s.shadows[t].Leaving?
    ensures Delivers(s, s', t)
  {
    s' := s.(shadows := s.shadows - {t});
    assert Unregister(s, s', t);
  }
}
