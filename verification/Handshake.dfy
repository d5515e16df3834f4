/** The start, restart and termination handshake between a controller and a coroutine's thread.
    Both talk through one channel, whose one-slot buffer and one condition variable they share; a
    channel mutex makes everything between two waits on it one atomic step.  Condition variables
    do not wake up spuriously, and there is one controller at a time. */
module Handshake {

  datatype Message = Started | Transfer | Restart | Terminate

  datatype Slot = NoMessage | Full(m: Message)

  datatype Status = Passive | Enabled | Waiting | Ended | Terminated

  datatype Controller =
    | Idle
    | Starting                     // Start was called, and is about to look at the status
    | AwaitStarted(woken: bool)    // waits on the condition variable for the started message
    | OneToken                     // WaitForEnd has taken one of the two tokens
    | Finishing                    // Finish was called, and is about to send the order to stop
    | Joining
    | ControllerFailed             // an internal check failed

  datatype Worker =
    | NoThread
    | Spawned                      // about to check that the coroutine was passive
    | Enabling                     // about to set the status to enabled
    | Marking                      // about to set the status to waiting
    | Announcing                   // about to send the started message
    | AwaitTransfer(woken: bool)   // waits on the condition variable for its first transfer
    | Going                        // transferred, about to set the status to enabled
    | Body                         // runs its function
    | AwaitOrder(woken: bool)      // ended, waits on the condition variable for an order
    | Stopping                     // about to set the status to terminated
    | WorkerFailed                 // an internal check failed

  datatype State = State(
    status: Status,
    slot: Slot,
    sem: nat,              // the semaphore that counts the end signals
    ctl: Controller,
    wrk: Worker,
    announced: nat,        // started messages sent
    returned: nat)         // calls of Start that returned

  // ---------------------------------------------------------------- the condition variable

  predicate WorkerWaits(s: State) {
    s.wrk == AwaitTransfer(false) || s.wrk == AwaitOrder(false)
  }

  predicate ControllerWaits(s: State) {
    s.ctl == AwaitStarted(false)
  }

  function Woken(w: Worker): Worker {
    match w
    case AwaitTransfer(_) => AwaitTransfer(true)
    case AwaitOrder(_) => AwaitOrder(true)
    case _ => w
  }

  /** A signal wakes one of those that wait, whoever is meant; without any it is lost. */
  ghost predicate Signalled(s: State, s': State) {
    || (ControllerWaits(s) && s' == s.(ctl := AwaitStarted(true)))
    || (WorkerWaits(s) && s' == s.(wrk := Woken(s.wrk)))
    || (!ControllerWaits(s) && !WorkerWaits(s) && s' == s)
  }

  // ---------------------------------------------------------------- steps of the controller

  ghost predicate CallStart(s: State, s': State) {
    s.ctl.Idle? && s' == s.(ctl := Starting)
  }

  /** Spawn a thread, or send it the order to start again, and wait for the started message. */
  ghost predicate Branch(s: State, s': State) {
    && s.ctl.Starting?
    && match s.status
       case Enabled => s' == s.(ctl := ControllerFailed)
       case Passive => s' == s.(wrk := Spawned, ctl := AwaitStarted(false))
       case Terminated => s' == s.(wrk := Spawned, ctl := AwaitStarted(false))
       case _ =>
         if s.slot.Full? then s' == s.(ctl := ControllerFailed)
         else exists s1 :: Signalled(s.(slot := Full(Restart)), s1) && s' == s1.(ctl := AwaitStarted(false))
  }

  /** Take the started message, reset the end signals to the first of two, and let the worker go. */
  ghost predicate ReceiveStarted(s: State, s': State) {
    && s.ctl == AwaitStarted(true)
    && if s.slot != Full(Started) || s.status != Waiting then s' == s.(ctl := ControllerFailed)
       else Signalled(s.(slot := Full(Transfer), sem := 1, ctl := Idle, returned := s.returned + 1), s')
  }

  ghost predicate TakeToken(s: State, s': State) {
    && s.ctl.Idle? && s.sem > 0 && s.status in {Enabled, Waiting, Ended}
    && s' == s.(sem := s.sem - 1, ctl := OneToken)
  }

  /** WaitForEnd gets its second token, and gives both back. */
  ghost predicate SeeEnd(s: State, s': State) {
    && s.ctl.OneToken? && s.sem > 0
    && s' == s.(sem := s.sem + 1, ctl := if s.status.Ended? then Idle else ControllerFailed)
  }

  ghost predicate TimeOut(s: State, s': State) {
    s.ctl.OneToken? && s' == s.(sem := s.sem + 1, ctl := Idle)
  }

  ghost predicate CallFinish(s: State, s': State) {
    s.ctl.Idle? && s.status in {Waiting, Ended} && s' == s.(ctl := Finishing)
  }

  ghost predicate SendTerminate(s: State, s': State) {
    && s.ctl.Finishing?
    && if s.slot.Full? then s' == s.(ctl := ControllerFailed)
       else Signalled(s.(slot := Full(Terminate), ctl := Joining), s')
  }

  ghost predicate Join(s: State, s': State) {
    s.ctl.Joining? && s.wrk.NoThread? && s' == s.(status := Terminated, ctl := Idle)
  }

  // ---------------------------------------------------------------- steps of the worker

  ghost predicate CheckPassive(s: State, s': State) {
    s.wrk.Spawned? && s' == s.(wrk := if s.status.Passive? then Enabling else WorkerFailed)
  }

  ghost predicate Enable(s: State, s': State) {
    s.wrk.Enabling? && s' == s.(status := Enabled, wrk := Marking)
  }

  ghost predicate Mark(s: State, s': State) {
    s.wrk.Marking? && s' == s.(status := Waiting, wrk := Announcing)
  }

  ghost predicate Announce(s: State, s': State) {
    && s.wrk.Announcing?
    && if s.slot.Full? then s' == s.(wrk := WorkerFailed)
       else exists s1 :: Signalled(s.(slot := Full(Started), announced := s.announced + 1), s1)
                         && s' == s1.(wrk := AwaitTransfer(false))
  }

  function Obey(m: Message, onTransfer: Worker): Worker {
    match m
    case Transfer => onTransfer
    case Restart => Enabling
    case Terminate => Stopping
    case Started => WorkerFailed
  }

  ghost predicate ReceiveTransfer(s: State, s': State) {
    && s.wrk == AwaitTransfer(true)
    && s' == if s.slot.Full? then s.(slot := NoMessage, wrk := Obey(s.slot.m, Going)) else s.(wrk := WorkerFailed)
  }

  ghost predicate Go(s: State, s': State) {
    s.wrk.Going? && s' == s.(status := Enabled, wrk := Body)
  }

  /** The function has returned: mark the end, give the second token, and wait for an order. */
  ghost predicate End(s: State, s': State) {
    s.wrk.Body? && s' == s.(status := Ended, sem := s.sem + 1, wrk := AwaitOrder(false))
  }

  ghost predicate ReceiveOrder(s: State, s': State) {
    && s.wrk == AwaitOrder(true)
    && s' == if s.slot.Full? then s.(slot := NoMessage, wrk := Obey(s.slot.m, Enabling)) else s.(wrk := WorkerFailed)
  }

  ghost predicate Stop(s: State, s': State) {
    s.wrk.Stopping? && s' == s.(status := Terminated, wrk := NoThread)
  }

  ghost predicate WorkerStep(s: State, s': State) {
    || CheckPassive(s, s') || Enable(s, s') || Mark(s, s') || Announce(s, s') || ReceiveTransfer(s, s')
    || Go(s, s') || End(s, s') || ReceiveOrder(s, s') || Stop(s, s')
  }

  /** The steps that go on with what was called before. */
  ghost predicate Continues(s: State, s': State) {
    || Branch(s, s') || ReceiveStarted(s, s') || SeeEnd(s, s') || TimeOut(s, s') || SendTerminate(s, s')
    || Join(s, s') || WorkerStep(s, s')
  }

  /** When a call of Start is safe: no thread was ever started, or the last run has ended. */
  predicate MayStart(s: State) {
    s.status.Passive? || s.status.Ended?
  }

  /** When a call of Finish is safe: the last run has ended. */
  predicate MayFinish(s: State) {
    s.status.Ended?
  }

  /** Any step, with the calls that the program accepts. */
  ghost predicate AnyStep(s: State, s': State) {
    Continues(s, s') || TakeToken(s, s') || CallStart(s, s') || CallFinish(s, s')
  }

  /** The caller looks at the status before it calls. */
  ghost predicate Careful(s: State, s': State) {
    (CallStart(s, s') ==> MayStart(s)) && (CallFinish(s, s') ==> MayFinish(s))
  }

  ghost predicate Step(s: State, s': State) {
    AnyStep(s, s') && Careful(s, s')
  }

  ghost predicate Init(s: State) {
    s == State(Passive, NoMessage, 0, Idle, NoThread, 0, 0)
  }

  predicate Failed(s: State) {
    s.ctl.ControllerFailed? || s.wrk.WorkerFailed?
  }

  // ---------------------------------------------------------------- the invariant

  predicate Outside(c: Controller) {
    c.Idle? || c.OneToken?
  }

  /** The tokens of the end semaphore, counting the one that WaitForEnd holds. */
  function Tokens(s: State): nat {
    s.sem + if s.ctl.OneToken? then 1 else 0
  }

  ghost predicate Inv(s: State) {
    && s.announced == s.returned + (if s.ctl == AwaitStarted(true) then 1 else 0)
    && match s.wrk
       case NoThread =>
         && s.slot == NoMessage
         && (if s.status.Passive? then (s.ctl.Idle? || s.ctl.Starting?) && s.sem == 0
             else s.status.Terminated? && (s.ctl.Idle? || s.ctl.Joining?))
       case Spawned => s.ctl == AwaitStarted(false) && s.slot == NoMessage && s.status.Passive?
       case Enabling => s.ctl == AwaitStarted(false) && s.slot == NoMessage && (s.status.Passive? || s.status.Ended?)
       case Marking => s.ctl == AwaitStarted(false) && s.slot == NoMessage && s.status.Enabled?
       case Announcing => s.ctl == AwaitStarted(false) && s.slot == NoMessage && s.status.Waiting?
       case AwaitTransfer(woken) =>
         && s.status.Waiting?
         && if woken then Outside(s.ctl) && s.slot == Full(Transfer) && Tokens(s) == 1
            else s.ctl == AwaitStarted(true) && s.slot == Full(Started)
       case Going => s.status.Waiting? && Outside(s.ctl) && s.slot == NoMessage && Tokens(s) == 1
       case Body => s.status.Enabled? && Outside(s.ctl) && s.slot == NoMessage && Tokens(s) == 1
       case AwaitOrder(woken) =>
         && s.status.Ended?
         && if woken then
              || (s.ctl == AwaitStarted(false) && s.slot == Full(Restart))
              || (s.ctl.Joining? && s.slot == Full(Terminate))
            else (Outside(s.ctl) || s.ctl.Starting? || s.ctl.Finishing?) && s.slot == NoMessage && Tokens(s) == 2
       case Stopping => s.ctl.Joining? && s.slot == NoMessage && s.status.Ended?
       case WorkerFailed => false
  }

  lemma InitInv(s: State)
    requires Init(s)
    ensures Inv(s)
  {
  }

  lemma WorkerStepKeeps(s: State, s': State)
    requires Inv(s) && WorkerStep(s, s')
    ensures Inv(s')
  {
  }

  lemma StartStepKeeps(s: State, s': State)
    requires Inv(s) && (Branch(s, s') || ReceiveStarted(s, s')) && (s.ctl.Starting? ==> MayStart(s))
    ensures Inv(s')
  {
  }

  lemma OtherStepKeeps(s: State, s': State)
    requires Inv(s)
    requires || SeeEnd(s, s') || TimeOut(s, s') || SendTerminate(s, s') || Join(s, s') || TakeToken(s, s')
             || (CallStart(s, s') && MayStart(s)) || (CallFinish(s, s') && MayFinish(s))
    ensures Inv(s')
  {
  }

  lemma StepKeeps(s: State, s': State)
    requires Inv(s) && Step(s, s')
    ensures Inv(s') && !Failed(s')
  {
    if WorkerStep(s, s') {
      WorkerStepKeeps(s, s');
    } else if Branch(s, s') || ReceiveStarted(s, s') {
      StartStepKeeps(s, s');
    } else {
      OtherStepKeeps(s, s');
    }
  }

  // ---------------------------------------------------------------- whole runs

  /** Any number of rounds. */
  ghost predicate IsRun(states: seq<State>) {
    && states != [] && Init(states[0])
    && forall k :: 0 <= k < |states| - 1 ==> AnyStep(states[k], states[k + 1])
  }

  /** All calls up to the k-th state were careful. */
  ghost predicate CarefulUntil(states: seq<State>, k: nat)
    requires k < |states|
  {
    forall j :: 0 <= j < k ==> Careful(states[j], states[j + 1])
  }

  lemma {:induction false} AlwaysInv(states: seq<State>, k: nat)
    requires IsRun(states) && k < |states| && CarefulUntil(states, k)
    ensures Inv(states[k])
  {
    if k == 0 {
      InitInv(states[0]);
    } else {
      AlwaysInv(states, k - 1);
      StepKeeps(states[k - 1], states[k]);
    }
  }

  /** Over any number of rounds of careful calls no check fails, so every message is put into an
      empty channel and taken from a full one, and no more calls of Start return than started
      messages were sent. */
  lemma NeverFails(states: seq<State>, k: nat)
    requires IsRun(states) && k < |states| && CarefulUntil(states, k)
    ensures !Failed(states[k]) && states[k].returned <= states[k].announced <= states[k].returned + 1
  {
    AlwaysInv(states, k);
  }

  /** Every signal wakes the party it is meant for, although both wait on one condition variable. */
  lemma RightPartyWakes(states: seq<State>, k: nat)
    requires IsRun(states) && k + 1 < |states| && CarefulUntil(states, k + 1)
    ensures var s, s' := states[k], states[k + 1];
            && (Announce(s, s') ==> s'.ctl == AwaitStarted(true))
            && (ReceiveStarted(s, s') ==> s'.wrk == AwaitTransfer(true))
            && (Branch(s, s') && s'.slot == Full(Restart) ==> s'.wrk == AwaitOrder(true))
            && (SendTerminate(s, s') ==> s'.wrk == AwaitOrder(true))
  {
    AlwaysInv(states, k);
  }

  /** Start returns only after a started message that no earlier call had received. */
  lemma ReturnsAfterStarted(states: seq<State>, k: nat)
    requires IsRun(states) && k + 1 < |states| && CarefulUntil(states, k + 1)
    requires states[k + 1].returned > states[k].returned
    ensures states[k].announced == states[k].returned + 1 == states[k + 1].returned
    ensures states[k].slot == Full(Started)
  {
    AlwaysInv(states, k);
  }

  // ---------------------------------------------------------------- what the history says

  /** How often Start has returned, and how often the function has been run. */
  ghost function Returns(states: seq<State>, k: nat): nat
    requires k < |states|
  {
    if k == 0 then 0
    else Returns(states, k - 1) + if states[k - 1].ctl.AwaitStarted? && states[k].ctl.Idle? then 1 else 0
  }

  ghost function Bodies(states: seq<State>, k: nat): nat
    requires k < |states|
  {
    if k == 0 then 0
    else Bodies(states, k - 1) + if !states[k - 1].wrk.Body? && states[k].wrk.Body? then 1 else 0
  }

  /** The function is still to be run for the call of Start that returned last. */
  predicate ToRun(s: State) {
    s.wrk == AwaitTransfer(true) || s.wrk.Going?
  }

  lemma StepRuns(s: State, s': State)
    requires Inv(s) && AnyStep(s, s') && Careful(s, s')
    ensures s'.returned == s.returned + (if s.ctl.AwaitStarted? && s'.ctl.Idle? then 1 else 0)
    ensures (if s.ctl.AwaitStarted? && s'.ctl.Idle? then 1 else 0) + (if ToRun(s) then 1 else 0)
            == (if !s.wrk.Body? && s'.wrk.Body? then 1 else 0) + (if ToRun(s') then 1 else 0)
  {
  }

  /** Over any number of rounds of careful calls the function is run exactly once for each return of
      Start, after it. */
  lemma {:induction false} RunsOncePerStart(states: seq<State>, k: nat)
    requires IsRun(states) && k < |states| && CarefulUntil(states, k)
    ensures states[k].returned == Returns(states, k)
    ensures Returns(states, k) == Bodies(states, k) + if ToRun(states[k]) then 1 else 0
  {
    hide Inv, AnyStep, Careful, ToRun;
    if k == 0 {
      assert !ToRun(states[0]) by { NothingToRun(states[0]); }
    } else {
      RunsOncePerStart(states, k - 1);
      AlwaysInv(states, k - 1);
      StepRuns(states[k - 1], states[k]);
    }
  }

  lemma NothingToRun(s: State)
    requires Init(s)
    ensures !ToRun(s)
  {
  }

  /** WaitForEnd finds its first token whenever a run has been started, and its second one if and only if
      that run has ended; and waiting changes nothing of this, whether or not it runs out of time. */
  lemma WaitForEndSeesEnd(states: seq<State>, k: nat)
    requires IsRun(states) && k < |states| && CarefulUntil(states, k)
    ensures var s := states[k];
            && (s.ctl.Idle? && s.status in {Enabled, Waiting, Ended} ==> s.sem == if s.status.Ended? then 2 else 1)
            && (s.ctl.OneToken? ==> s.sem == if s.status.Ended? then 1 else 0)
  {
    AlwaysInv(states, k);
  }

  /** How far a call of Start is from its return. */
  function Rank(s: State): nat {
    if s.ctl.Starting? then 8
    else match s.wrk
      case AwaitOrder(_) => 7
      case Spawned => 6
      case Enabling => 5
      case Marking => 4
      case Announcing => 3
      case AwaitTransfer(_) => 2
      case _ => 0
  }

  /** A call of Start is under way. */
  predicate InStart(s: State) {
    (s.ctl.Starting? && MayStart(s)) || s.ctl.AwaitStarted?
  }

  /** Every step brings a call of Start closer to its return. */
  lemma StepsBringCloser(s: State, s': State)
    requires Inv(s) && InStart(s) && Continues(s, s')
    ensures (s'.ctl.Idle? && s'.returned == s.returned + 1) || (s'.ctl.AwaitStarted? && Rank(s') < Rank(s))
  {
  }

  /** Until a call of Start returns some step is possible; so it always returns. */
  lemma StartReturns(s: State) returns (s': State)
    requires Inv(s) && InStart(s)
    ensures Continues(s, s')
    ensures forall n :: Continues(s, n) ==>
              (n.ctl.Idle? && n.returned == s.returned + 1) || (n.ctl.AwaitStarted? && Rank(n) < Rank(s))
  {
    forall n | Continues(s, n)
      ensures (n.ctl.Idle? && n.returned == s.returned + 1) || (n.ctl.AwaitStarted? && Rank(n) < Rank(s))
    {
      StepsBringCloser(s, n);
    }
    if s.ctl.Starting? {
      s' := AfterBranch(s);
    } else if s.ctl.woken {
      var s0 := s.(slot := Full(Transfer), sem := 1, ctl := Idle, returned := s.returned + 1);
      s' := s0.(wrk := Woken(s.wrk));
      assert Signalled(s0, s');
    } else {
      match s.wrk
      case Spawned => s' := s.(wrk := Enabling);
      case Enabling => s' := s.(status := Enabled, wrk := Marking);
      case Marking => s' := s.(status := Waiting, wrk := Announcing);
      case AwaitOrder(_) => s' := s.(slot := NoMessage, wrk := Enabling);
      case Announcing =>
        var s0 := s.(slot := Full(Started), announced := s.announced + 1);
        var s1 := s0.(ctl := AwaitStarted(true));
        assert Signalled(s0, s1);
        s' := s1.(wrk := AwaitTransfer(false));
    }
  }

  lemma AfterBranch(s: State) returns (s': State)
    requires Inv(s) && s.ctl.Starting? && MayStart(s)
    ensures Branch(s, s')
  {
    if s.status.Passive? {
      s' := s.(wrk := Spawned, ctl := AwaitStarted(false));
    } else {
      var s0 := s.(slot := Full(Restart));
      var s1 := s0.(wrk := Woken(s.wrk));
      assert Signalled(s0, s1);
      s' := s1.(ctl := AwaitStarted(false));
    }
  }

  // ---------------------------------------------------------------- when Start may be called

  /** A failed check, or both parties waiting for each other with no signal under way. */
  predicate Bad(s: State) {
    Failed(s) || (ControllerWaits(s) && WorkerWaits(s))
  }

  /** What a call of Start in state s can lead to, before the controller calls anything else. */
  ghost predicate StartRun(s: State, states: seq<State>) {
    && |states| >= 2 && states[0] == s && CallStart(s, states[1])
    && forall k :: 1 <= k < |states| - 1 ==> Continues(states[k], states[k + 1])
  }

  ghost predicate SafeStart(s: State) {
    forall states, k :: StartRun(s, states) && 0 <= k < |states| ==> !Bad(states[k])
  }

  lemma {:induction false} StartRunInv(s: State, states: seq<State>, k: nat)
    requires Inv(s) && s.ctl.Idle? && MayStart(s) && StartRun(s, states) && k < |states|
    ensures Inv(states[k])
  {
    if k > 0 {
      StartRunInv(s, states, k - 1);
      StepKeeps(states[k - 1], states[k]);
    }
  }

  /** A run that goes wrong, for every status in which Start may not be called. */
  lemma UnsafeStart(s: State) returns (states: seq<State>)
    requires Inv(s) && s.ctl.Idle? && !MayStart(s)
    ensures StartRun(s, states) && Bad(states[|states| - 1])
  {
    var s1 := s.(ctl := Starting);
    if s.status.Terminated? {
      var s2 := s1.(wrk := Spawned, ctl := AwaitStarted(false));
      states := [s, s1, s2, s2.(wrk := WorkerFailed)];
      assert Branch(s1, s2) && CheckPassive(s2, states[3]);
    } else if s.status.Enabled? || s.slot.Full? {
      states := [s, s1, s1.(ctl := ControllerFailed)];
      assert Branch(s1, states[2]);
    } else {
      var sent := s1.(slot := Full(Restart));
      var s2 := sent.(ctl := AwaitStarted(false));
      assert Signalled(sent, sent) && Branch(s1, s2);
      var s3 := s2.(status := Enabled, wrk := Body);
      assert Go(s2, s3);
      var s4 := s3.(status := Ended, sem := s3.sem + 1, wrk := AwaitOrder(false));
      assert End(s3, s4);
      states := [s, s1, s2, s3, s4];
    }
  }

  /** A call of Start is safe exactly when no thread was ever started or the last run has ended:
      while the coroutine waits for its first transfer the order to restart is put into a full
      channel or lost, while it runs the program has no branch for it, and after it has been
      terminated the new thread's own check fails. */
  lemma StartIsSafeExactly(s: State)
    requires Inv(s) && s.ctl.Idle?
    ensures SafeStart(s) <==> MayStart(s)
  {
    if MayStart(s) {
      forall states, k | StartRun(s, states) && 0 <= k < |states| ensures !Bad(states[k]) {
        StartRunInv(s, states, k);
      }
    } else {
      var states := UnsafeStart(s);
      assert 0 <= |states| - 1 < |states|;
    }
  }

  // ---------------------------------------------------------------- when Finish may be called

  /** A failed check, or the controller waiting for the end of a thread that waits for an order. */
  predicate BadJoin(s: State) {
    Failed(s) || (s.ctl.Joining? && WorkerWaits(s))
  }

  /** What a call of Finish in state s can lead to, before the controller calls anything else. */
  ghost predicate FinishRun(s: State, states: seq<State>) {
    && |states| >= 2 && states[0] == s && CallFinish(s, states[1])
    && forall k :: 1 <= k < |states| - 1 ==> Continues(states[k], states[k + 1])
  }

  ghost predicate SafeFinish(s: State) {
    forall states, k :: FinishRun(s, states) && 0 <= k < |states| ==> !BadJoin(states[k])
  }

  lemma {:induction false} FinishRunInv(s: State, states: seq<State>, k: nat)
    requires Inv(s) && s.ctl.Idle? && MayFinish(s) && FinishRun(s, states) && k < |states|
    ensures Inv(states[k])
  {
    if k > 0 {
      FinishRunInv(s, states, k - 1);
      StepKeeps(states[k - 1], states[k]);
    }
  }

  /** A run that goes wrong for a coroutine that has not got past its first transfer. */
  lemma UnsafeFinish(s: State) returns (states: seq<State>)
    requires Inv(s) && s.ctl.Idle? && s.status.Waiting?
    ensures FinishRun(s, states) && BadJoin(states[|states| - 1])
  {
    var s1 := s.(ctl := Finishing);
    if s.slot.Full? {
      states := [s, s1, s1.(ctl := ControllerFailed)];
      assert SendTerminate(s1, states[2]);
    } else {
      var s2 := s1.(slot := Full(Terminate), ctl := Joining);
      assert Signalled(s2, s2) && SendTerminate(s1, s2);
      var s3 := s2.(status := Enabled, wrk := Body);
      assert Go(s2, s3);
      var s4 := s3.(status := Ended, sem := s3.sem + 1, wrk := AwaitOrder(false));
      assert End(s3, s4);
      states := [s, s1, s2, s3, s4];
    }
  }

  /** The program sends the order to terminate to a coroutine that waits as well as to one that has
      ended.  It is safe exactly for the second: before the first transfer was taken the order meets
      a full channel, and after it the order is lost and both parties wait for each other. */
  lemma FinishIsSafeExactly(s: State)
    requires Inv(s) && s.ctl.Idle? && s.status in {Waiting, Ended}
    ensures SafeFinish(s) <==> MayFinish(s)
  {
    if MayFinish(s) {
      forall states, k | FinishRun(s, states) && 0 <= k < |states| ensures !BadJoin(states[k]) {
        FinishRunInv(s, states, k);
      }
    } else {
      var states := UnsafeFinish(s);
      assert 0 <= |states| - 1 < |states|;
    }
  }

  lemma OneMore(states: seq<State>, s: State)
    requires IsRun(states) && CarefulUntil(states, |states| - 1) && Step(states[|states| - 1], s)
    ensures IsRun(states + [s]) && CarefulUntil(states + [s], |states|)
  {
  }

  /** The first call of Start, up to its return. */
  lemma FirstStart() returns (states: seq<State>)
    ensures states != [] && IsRun(states) && CarefulUntil(states, |states| - 1)
    ensures states[|states| - 1].ctl.Idle? && states[|states| - 1].status.Waiting?
  {
    var s0 := State(Passive, NoMessage, 0, Idle, NoThread, 0, 0);
    var s1 := s0.(ctl := Starting);
    var s2 := s1.(wrk := Spawned, ctl := AwaitStarted(false));
    var s3 := s2.(wrk := Enabling);
    var s4 := s3.(status := Enabled, wrk := Marking);
    var s5 := s4.(status := Waiting, wrk := Announcing);
    assert Branch(s1, s2);
    var s6, s7 := FirstReturn(s5);
    OneMore([s0], s1);
    OneMore([s0] + [s1], s2);
    OneMore([s0] + [s1] + [s2], s3);
    OneMore([s0] + [s1] + [s2] + [s3], s4);
    OneMore([s0] + [s1] + [s2] + [s3] + [s4], s5);
    OneMore([s0] + [s1] + [s2] + [s3] + [s4] + [s5], s6);
    OneMore([s0] + [s1] + [s2] + [s3] + [s4] + [s5] + [s6], s7);
    states := [s0] + [s1] + [s2] + [s3] + [s4] + [s5] + [s6] + [s7];
  }

  lemma FirstReturn(s: State) returns (s': State, s'': State)
    requires s == State(Waiting, NoMessage, 0, AwaitStarted(false), Announcing, 0, 0)
    ensures Step(s, s') && Step(s', s'') && s''.ctl.Idle? && s''.status.Waiting?
  {
    var sent := s.(slot := Full(Started), announced := 1);
    s' := sent.(ctl := AwaitStarted(true), wrk := AwaitTransfer(false));
    assert Signalled(sent, sent.(ctl := AwaitStarted(true))) && Announce(s, s');
    var taken := s'.(slot := Full(Transfer), sem := 1, ctl := Idle, returned := 1);
    s'' := taken.(wrk := AwaitTransfer(true));
    assert Signalled(taken, s'') && ReceiveStarted(s', s'');
  }

  /** The unsafe states are reached: here right after the first call of Start has returned. */
  lemma UnsafeIsReached() returns (states: seq<State>)
    ensures states != [] && IsRun(states) && CarefulUntil(states, |states| - 1)
    ensures var s := states[|states| - 1]; s.ctl.Idle? && !SafeStart(s) && !SafeFinish(s)
  {
    states := FirstStart();
    var k := |states| - 1;
    AlwaysInv(states, k);
    StartIsSafeExactly(states[k]);
    FinishIsSafeExactly(states[k]);
  }
}
