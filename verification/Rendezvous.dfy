/** The one-slot rendezvous of a shadow thread: one receiver, any number of senders, two
    semaphores and a buffer.  Each semaphore operation, each copy and the sender's check is one
    atomic step. */
module Rendezvous {

  type Tid = nat

  datatype ReceiverPC =
    | Away      // not receiving
    | Invited   // has signalled the senders, and waits to be signalled
    | Copying   // has been signalled, and is about to copy the buffer
    | BadReceive

  datatype SenderPC<E> =
    | Out                // not sending
    | Queued(e: E)       // about to wait for an invitation
    | Admitted(e: E)     // past the wait, about to fill the buffer
    | Filled(e: E)       // about to check that no signal is pending
    | Signalling(e: E)   // about to signal the receiver
    | BadSend

  datatype State<E> = State(
    invitations: nat,              // the semaphore that senders wait on
    signals: nat,                  // the semaphore that the receiver waits on
    buffer: E,
    receiver: ReceiverPC,
    senders: map<Tid, SenderPC<E>>,
    admitted: seq<E>,              // the events of the admitted senders, in order of admission
    received: seq<E>)              // the events copied out by the receiver

  // ---------------------------------------------------------------- steps

  ghost predicate Invite<E>(s: State<E>, s': State<E>) {
    && s.receiver.Away?
    && s' == s.(invitations := s.invitations + 1,
                receiver := if s.signals <= 1 then Invited else BadReceive)
  }

  ghost predicate BeSignalled<E>(s: State<E>, s': State<E>) {
    && s.receiver.Invited? && s.signals > 0
    && s' == s.(signals := s.signals - 1, receiver := Copying)
  }

  ghost predicate CopyOut<E>(s: State<E>, s': State<E>) {
    && s.receiver.Copying?
    && s' == s.(receiver := Away, received := s.received + [s.buffer])
  }

  ghost predicate StartSend<E(!new)>(s: State<E>, s': State<E>, t: Tid) {
    && t in s.senders && s.senders[t].Out?
    && exists e :: s' == s.(senders := s.senders[t := Queued(e)])
  }

  ghost predicate BeAdmitted<E>(s: State<E>, s': State<E>, t: Tid) {
    && t in s.senders && s.senders[t].Queued? && s.invitations > 0
    && s' == s.(invitations := s.invitations - 1, admitted := s.admitted + [s.senders[t].e],
                senders := s.senders[t := Admitted(s.senders[t].e)])
  }

  ghost predicate Fill<E>(s: State<E>, s': State<E>, t: Tid) {
    && t in s.senders && s.senders[t].Admitted?
    && s' == s.(buffer := s.senders[t].e, senders := s.senders[t := Filled(s.senders[t].e)])
  }

  ghost predicate Check<E>(s: State<E>, s': State<E>, t: Tid) {
    && t in s.senders && s.senders[t].Filled?
    && s' == s.(senders := s.senders[t := if s.signals == 0 then Signalling(s.senders[t].e) else BadSend])
  }

  ghost predicate SignalReceiver<E>(s: State<E>, s': State<E>, t: Tid) {
    && t in s.senders && s.senders[t].Signalling?
    && s' == s.(signals := s.signals + 1, senders := s.senders[t := Out])
  }

  ghost predicate Step<E(!new)>(s: State<E>, s': State<E>, t: Tid) {
    || Invite(s, s') || BeSignalled(s, s') || CopyOut(s, s')
    || StartSend(s, s', t) || BeAdmitted(s, s', t) || Fill(s, s', t) || Check(s, s', t) || SignalReceiver(s, s', t)
  }

  ghost predicate Init<E>(s: State<E>) {
    && s.invitations == 0 && s.signals == 0 && s.receiver.Away?
    && s.admitted == [] && s.received == []
    && forall t :: t in s.senders ==> s.senders[t].Out?
  }

  // ---------------------------------------------------------------- the invariant

  predicate PastWait<E>(pc: SenderPC<E>) {
    pc.Admitted? || pc.Filled? || pc.Signalling? || pc.BadSend?
  }

  ghost function Inside<E>(s: State<E>): set<Tid> {
    set t | t in s.senders && PastWait(s.senders[t])
  }

  /** Invitations, senders past the wait, pending signals and a receiver about to copy are one in
      all while the receiver is receiving, and none otherwise. */
  ghost predicate OneToken<E>(s: State<E>) {
    && !s.receiver.BadReceive?
    && s.invitations + |Inside(s)| + s.signals + (if s.receiver.Copying? then 1 else 0)
       == (if s.receiver.Away? then 0 else 1)
    && forall t :: t in s.senders ==> !s.senders[t].BadSend?
  }

  /** The admitted events have been received, except perhaps for the last one, which is with its
      sender or in the buffer. */
  ghost predicate InOrder<E>(s: State<E>) {
    && (s.invitations == 1 || s.receiver.Away? ==> s.admitted == s.received)
    && (s.signals == 1 || s.receiver.Copying? ==> s.admitted == s.received + [s.buffer])
    && forall t :: t in Inside(s) && !s.senders[t].BadSend? ==>
         && s.admitted == s.received + [s.senders[t].e]
         && (!s.senders[t].Admitted? ==> s.buffer == s.senders[t].e)
  }

  ghost predicate Inv<E>(s: State<E>) {
    OneToken(s) && InOrder(s)
  }

  lemma InitInv<E>(s: State<E>)
    requires Init(s)
    ensures Inv(s)
  {
    assert Inside(s) == {};
  }

  /** A sender past the wait is the only one, and nothing else is on the way. */
  lemma OnlyOne<E>(s: State<E>, t: Tid)
    requires OneToken(s) && t in Inside(s)
    ensures Inside(s) == {t} && s.invitations == 0 && s.signals == 0 && s.receiver.Invited?
  {
    assert |Inside(s) - {t}| == |Inside(s)| - 1;
    assert Inside(s) == (Inside(s) - {t}) + {t};
  }

  lemma SignalKeeps<E(!new)>(s: State<E>, s': State<E>, t: Tid)
    requires Inv(s) && SignalReceiver(s, s', t)
    ensures Inv(s')
  {
    OnlyOne(s, t);
    forall u ensures u !in Inside(s') {
      assert u != t ==> (u in Inside(s') <==> u in Inside(s));
    }
    assert Inside(s') == {};
  }

  lemma InsideStepKeeps<E(!new)>(s: State<E>, s': State<E>, t: Tid)
    requires Inv(s) && (Fill(s, s', t) || Check(s, s', t))
    ensures Inv(s')
  {
    OnlyOne(s, t);
    assert Inside(s') == {t};
  }

  lemma ArrivalKeeps<E(!new)>(s: State<E>, s': State<E>, t: Tid)
    requires Inv(s) && StartSend(s, s', t)
    ensures Inv(s')
  {
    assert Inside(s') == Inside(s);
  }

  lemma AdmissionKeeps<E(!new)>(s: State<E>, s': State<E>, t: Tid)
    requires Inv(s) && BeAdmitted(s, s', t)
    ensures Inv(s')
  {
    assert Inside(s') == Inside(s) + {t};
    assert |Inside(s)| == 0;
  }

  lemma SenderStepKeeps<E(!new)>(s: State<E>, s': State<E>, t: Tid)
    requires Inv(s)
    requires || StartSend(s, s', t) || BeAdmitted(s, s', t) || Fill(s, s', t) || Check(s, s', t)
             || SignalReceiver(s, s', t)
    ensures Inv(s')
  {
    hide StartSend, BeAdmitted, Fill, Check, SignalReceiver, Inv;
    if StartSend(s, s', t) {
      ArrivalKeeps(s, s', t);
    } else if BeAdmitted(s, s', t) {
      AdmissionKeeps(s, s', t);
    } else if SignalReceiver(s, s', t) {
      SignalKeeps(s, s', t);
    } else {
      InsideStepKeeps(s, s', t);
    }
  }

  lemma StepKeeps<E(!new)>(s: State<E>, s': State<E>, t: Tid)
    requires Inv(s) && Step(s, s', t)
    ensures Inv(s')
  {
    if Invite(s, s') || BeSignalled(s, s') || CopyOut(s, s') {
      assert Inside(s') == Inside(s);
      assert |Inside(s)| == 0 || Invite(s, s') || s.signals == 0;
    } else {
      SenderStepKeeps(s, s', t);
    }
  }

  // ---------------------------------------------------------------- whole runs

  datatype Run<E> = Run(states: seq<State<E>>, who: seq<Tid>)

  ghost predicate IsRun<E(!new)>(r: Run<E>) {
    && |r.states| == |r.who| + 1 && Init(r.states[0])
    && forall k :: 0 <= k < |r.who| ==> Step(r.states[k], r.states[k + 1], r.who[k])
  }

  lemma {:induction false} AlwaysInv<E(!new)>(r: Run<E>, k: nat)
    requires IsRun(r) && k < |r.states|
    ensures Inv(r.states[k])
  {
    if k == 0 {
      InitInv(r.states[0]);
    } else {
      AlwaysInv(r, k - 1);
      StepKeeps(r.states[k - 1], r.states[k], r.who[k - 1]);
    }
  }

  /** Events are received in exactly the order in which their senders were admitted, none lost and
      none twice; at most the last admitted one is still on its way; no check ever fails. */
  lemma ReceivedInOrder<E(!new)>(r: Run<E>, k: nat)
    requires IsRun(r) && k < |r.states|
    ensures var s := r.states[k];
            && s.received <= s.admitted && |s.admitted| <= |s.received| + 1
            && s.invitations + |Inside(s)| + s.signals <= 1
            && !s.receiver.BadReceive? && forall t :: t in s.senders ==> !s.senders[t].BadSend?
  {
    AlwaysInv(r, k);
    var s := r.states[k];
    if t :| t in Inside(s) {
      OnlyOne(s, t);
    }
  }

  /** The buffer is filled only when everything that was in it before has been copied out. */
  lemma NeverOverwritten<E(!new)>(r: Run<E>, k: nat)
    requires IsRun(r) && k < |r.who| && Fill(r.states[k], r.states[k + 1], r.who[k])
    ensures var s, s' := r.states[k], r.states[k + 1];
            && s.received + [s'.buffer] == s.admitted
            && s.signals == 0 && !s.receiver.Copying?
            && Inside(s) == {r.who[k]}
  {
    AlwaysInv(r, k);
    OnlyOne(r.states[k], r.who[k]);
  }

  // ---------------------------------------------------------------- what was asked for is what comes

  /** A sender past the wait, which it was not before. */
  ghost predicate Enters<E>(s: State<E>, s': State<E>, t: Tid) {
    && t in s.senders && s.senders[t].Queued?
    && t in s'.senders && PastWait(s'.senders[t])
  }

  /** The events that senders were asked to send, in the order in which they got past the wait. */
  ghost function Asked<E>(r: Run<E>, k: nat): seq<E>
    requires k <= |r.who| < |r.states|
  {
    if k == 0 then []
    else
      var s, s', t := r.states[k - 1], r.states[k], r.who[k - 1];
      Asked(r, k - 1) + if Enters(s, s', t) then [s.senders[t].e] else []
  }

  /** One more admission, or none; a sender keeps its event until it is out again. */
  lemma AdmitsWhatIsAsked<E(!new)>(s: State<E>, s': State<E>, t: Tid)
    requires Step(s, s', t)
    ensures s'.admitted == s.admitted + if Enters(s, s', t) then [s.senders[t].e] else []
  {
  }

  lemma {:induction false} AdmittedIsAsked<E(!new)>(r: Run<E>, k: nat)
    requires IsRun(r) && k < |r.states|
    ensures r.states[k].admitted == Asked(r, k)
  {
    hide Step, Enters;
    if k > 0 {
      AdmittedIsAsked(r, k - 1);
      AdmitsWhatIsAsked(r.states[k - 1], r.states[k], r.who[k - 1]);
    }
  }

  /** The i-th received event is the one that the i-th sender past the wait was asked to send; at most
      one more is on its way, and then it is that of the last sender. */
  lemma ReceivedIsAsked<E(!new)>(r: Run<E>, k: nat)
    requires IsRun(r) && k < |r.states|
    ensures r.states[k].received <= Asked(r, k) && |Asked(r, k)| <= |r.states[k].received| + 1
    ensures r.states[k].receiver.Away? || r.states[k].invitations == 1 ==> r.states[k].received == Asked(r, k)
  {
    ReceivedInOrder(r, k);
    AdmittedIsAsked(r, k);
    AlwaysInv(r, k);
  }

  /** The sender is sending e, and has not been admitted yet, or it was the n-th one to be. */
  ghost predicate Sending<E>(s: State<E>, t: Tid, e: E, from: nat, n: nat) {
    && t in s.senders && !s.senders[t].Out? && !s.senders[t].BadSend? && s.senders[t].e == e
    && from <= |s.admitted|
    && (PastWait(s.senders[t]) ==> from <= n < |s.admitted| && s.admitted[n] == e)
  }

  lemma SendGoesOn<E(!new)>(s: State<E>, s': State<E>, u: Tid, t: Tid, e: E, from: nat, n: nat) returns (n': nat)
    requires Inv(s) && Step(s, s', u) && Sending(s, t, e, from, n)
    ensures s.admitted <= s'.admitted
    ensures Sending(s', t, e, from, n') ||
              (PastWait(s.senders[t]) && n' == n && t in s'.senders && s'.senders[t].Out? && s'.signals == 1)
  {
    StepKeeps(s, s', u);
    if t in Inside(s) { OnlyOne(s, t); }
    n' := if PastWait(s.senders[t]) then n else |s.admitted|;
  }

  lemma {:induction false} SendingUntil<E(!new)>(r: Run<E>, j: nat, k: nat, t: Tid, e: E) returns (n: nat)
    requires IsRun(r) && j <= k < |r.states| && t in r.states[j].senders && r.states[j].senders[t] == Queued(e)
    requires forall i :: j <= i <= k ==> t in r.states[i].senders && !r.states[i].senders[t].Out?
    ensures Sending(r.states[k], t, e, |r.states[j].admitted|, n)
    decreases k - j
  {
    hide Step, Inv, Sending;
    if j == k {
      n := 0;
      StartsSending(r.states[j], t, e);
    } else {
      n := SendingUntil(r, j, k - 1, t, e);
      AlwaysInv(r, k - 1);
      n := SendGoesOn(r.states[k - 1], r.states[k], r.who[k - 1], t, e, |r.states[j].admitted|, n);
    }
  }

  lemma StartsSending<E>(s: State<E>, t: Tid, e: E)
    requires t in s.senders && s.senders[t] == Queued(e)
    ensures Sending(s, t, e, |s.admitted|, 0)
  {
  }

  /** A send that has returned has had exactly its event admitted since it began, in one place of the
      order; and there the event is received, or it is the one in the buffer that is received next. */
  lemma SentIsReceived<E(!new)>(r: Run<E>, j: nat, k: nat, t: Tid, e: E) returns (n: nat)
    requires IsRun(r) && j < k < |r.states| && t in r.states[j].senders && r.states[j].senders[t] == Queued(e)
    requires forall i :: j <= i < k ==> t in r.states[i].senders && !r.states[i].senders[t].Out?
    requires t in r.states[k].senders && r.states[k].senders[t].Out?
    ensures |r.states[j].admitted| <= n < |Asked(r, k)| && Asked(r, k)[n] == e
    ensures var s := r.states[k];
            if n < |s.received| then s.received[n] == e
            else n == |s.received| && s.buffer == e && s.signals == 1
  {
    hide Step, Inv, Enters;
    n := SendingUntil(r, j, k - 1, t, e);
    AlwaysInv(r, k - 1);
    AlwaysInv(r, k);
    n := SendGoesOn(r.states[k - 1], r.states[k], r.who[k - 1], t, e, |r.states[j].admitted|, n);
    AdmittedIsAsked(r, k);
    AllButTheLast(r.states[k]);
  }

  lemma AllButTheLast<E>(s: State<E>)
    requires Inv(s) && s.signals == 1
    ensures s.admitted == s.received + [s.buffer]
  {
  }
}
