/** The re-entrant mutex around a plain lock, and waiting on a condition variable while the mutex
    is held at any depth.  The owner and count fields are read and written without any protection
    but the lock's own: every read and every write of a field is a step of its own, the reads of the
    internal checks included.  A waiting thread may be woken at any time. */
module ReentrantMutex {

  type Tid = nat

  datatype Who = Nobody | Thread(t: Tid)

  datatype PC =
    | Out                     // between two operations of the mutex
    // locking
    | Nesting                 // has seen itself as the owner, about to read the count
    | Raising(c: nat)         // about to set the count to one more than c
    | Blocked                 // has seen another owner, and waits for the plain lock
    | Acquired                // has the plain lock, about to check that there is no owner
    | Claiming                // about to set the owner
    | Owning                  // about to check that the count is zero
    | Starting                // about to set the count to one
    // unlocking
    | Unlocking               // has checked that it is the owner, about to read the count
    | Lowering(c: nat)        // about to set the count to one less than c
    | Testing                 // about to see whether the count is zero
    | Leaving                 // about to clear the owner
    | Releasing               // about to release the plain lock
    // waiting on a condition variable
    | Entering                // has checked that it is the owner, about to read the count
    | Saving(depth: nat)      // has saved the count, about to clear the owner
    | Clearing(depth: nat)    // about to clear the count
    | Parking(depth: nat)     // about to release the lock and sleep
    | Asleep(depth: nat)
    | Returned(depth: nat)    // has the plain lock again, about to check that there is no owner
    | Checking(depth: nat)    // about to check that the count is zero
    | Reclaiming(depth: nat)  // about to restore the owner
    | Restoring(depth: nat)   // about to restore the count
    | Failed

  datatype State = State(
    lock: Who,              // the holder of the plain lock
    owner: Who,
    count: nat,
    pcs: map<Tid, PC>,
    nesting: map<Tid, nat>) // how often each thread has locked and not yet unlocked

  ghost predicate At(s: State, t: Tid, pc: PC) {
    Alive(s, t) && s.pcs[t] == pc
  }

  ghost predicate Alive(s: State, t: Tid) {
    t in s.pcs && t in s.nesting
  }

  function Goto(s: State, t: Tid, pc: PC): map<Tid, PC> {
    s.pcs[t := pc]
  }

  // ---------------------------------------------------------------- locking

  ghost predicate CallLock(s: State, s': State, t: Tid) {
    At(s, t, Out) && s' == s.(pcs := Goto(s, t, if s.owner == Thread(t) then Nesting else Blocked))
  }

  ghost predicate ReadToRaise(s: State, s': State, t: Tid) {
    At(s, t, Nesting) && s' == s.(pcs := Goto(s, t, if s.count >= 1 then Raising(s.count) else Failed))
  }

  ghost predicate Raise(s: State, s': State, t: Tid) {
    && Alive(s, t) && s.pcs[t].Raising?
    && s' == s.(count := s.pcs[t].c + 1, nesting := s.nesting[t := s.nesting[t] + 1], pcs := Goto(s, t, Out))
  }

  ghost predicate Acquire(s: State, s': State, t: Tid) {
    At(s, t, Blocked) && s.lock == Nobody && s' == s.(lock := Thread(t), pcs := Goto(s, t, Acquired))
  }

  ghost predicate CheckOwner(s: State, s': State, t: Tid) {
    At(s, t, Acquired) && s' == s.(pcs := Goto(s, t, if s.owner == Nobody then Claiming else Failed))
  }

  ghost predicate SetOwner(s: State, s': State, t: Tid) {
    At(s, t, Claiming) && s' == s.(owner := Thread(t), pcs := Goto(s, t, Owning))
  }

  ghost predicate CheckCount(s: State, s': State, t: Tid) {
    At(s, t, Owning) && s' == s.(pcs := Goto(s, t, if s.count == 0 then Starting else Failed))
  }

  ghost predicate SetCount(s: State, s': State, t: Tid) {
    && At(s, t, Starting)
    && s' == s.(count := 1, nesting := s.nesting[t := s.nesting[t] + 1], pcs := Goto(s, t, Out))
  }

  ghost predicate LockStep(s: State, s': State, t: Tid) {
    || CallLock(s, s', t) || ReadToRaise(s, s', t) || Raise(s, s', t) || Acquire(s, s', t)
    || CheckOwner(s, s', t) || SetOwner(s, s', t) || CheckCount(s, s', t) || SetCount(s, s', t)
  }

  // ---------------------------------------------------------------- unlocking

  /** Unlock, by a thread that has locked. */
  ghost predicate CallUnlock(s: State, s': State, t: Tid) {
    && At(s, t, Out) && s.nesting[t] > 0
    && s' == s.(pcs := Goto(s, t, if s.owner == Thread(t) then Unlocking else Failed))
  }

  ghost predicate ReadToLower(s: State, s': State, t: Tid) {
    At(s, t, Unlocking) && s' == s.(pcs := Goto(s, t, if s.count >= 1 then Lowering(s.count) else Failed))
  }

  ghost predicate Lower(s: State, s': State, t: Tid) {
    && Alive(s, t) && s.pcs[t].Lowering? && s.pcs[t].c >= 1 && s.nesting[t] >= 1
    && s' == s.(count := s.pcs[t].c - 1, nesting := s.nesting[t := s.nesting[t] - 1], pcs := Goto(s, t, Testing))
  }

  ghost predicate TestCount(s: State, s': State, t: Tid) {
    At(s, t, Testing) && s' == s.(pcs := Goto(s, t, if s.count == 0 then Leaving else Out))
  }

  ghost predicate ClearOwner(s: State, s': State, t: Tid) {
    At(s, t, Leaving) && s' == s.(owner := Nobody, pcs := Goto(s, t, Releasing))
  }

  ghost predicate Release(s: State, s': State, t: Tid) {
    && At(s, t, Releasing)
    && s' == s.(lock := Nobody, pcs := Goto(s, t, if s.lock == Thread(t) then Out else Failed))
  }

  ghost predicate UnlockStep(s: State, s': State, t: Tid) {
    || CallUnlock(s, s', t) || ReadToLower(s, s', t) || Lower(s, s', t) || TestCount(s, s', t)
    || ClearOwner(s, s', t) || Release(s, s', t)
  }

  // ---------------------------------------------------------------- waiting

  /** Wait on a condition variable, by a thread that holds the mutex at some depth. */
  ghost predicate CallWait(s: State, s': State, t: Tid) {
    && At(s, t, Out) && s.nesting[t] > 0
    && s' == s.(pcs := Goto(s, t, if s.owner == Thread(t) then Entering else Failed))
  }

  ghost predicate SaveCount(s: State, s': State, t: Tid) {
    At(s, t, Entering) && s' == s.(pcs := Goto(s, t, if s.count >= 1 then Saving(s.count) else Failed))
  }

  ghost predicate GiveUpOwner(s: State, s': State, t: Tid) {
    && Alive(s, t) && s.pcs[t].Saving?
    && s' == s.(owner := Nobody, pcs := Goto(s, t, Clearing(s.pcs[t].depth)))
  }

  ghost predicate GiveUpCount(s: State, s': State, t: Tid) {
    && Alive(s, t) && s.pcs[t].Clearing?
    && s' == s.(count := 0, pcs := Goto(s, t, Parking(s.pcs[t].depth)))
  }

  ghost predicate Sleep(s: State, s': State, t: Tid) {
    && Alive(s, t) && s.pcs[t].Parking?
    && s' == s.(lock := Nobody, pcs := Goto(s, t, if s.lock == Thread(t) then Asleep(s.pcs[t].depth) else Failed))
  }

  ghost predicate WakeUp(s: State, s': State, t: Tid) {
    && Alive(s, t) && s.pcs[t].Asleep? && s.lock == Nobody
    && s' == s.(lock := Thread(t), pcs := Goto(s, t, Returned(s.pcs[t].depth)))
  }

  ghost predicate RecheckOwner(s: State, s': State, t: Tid) {
    && Alive(s, t) && s.pcs[t].Returned?
    && s' == s.(pcs := Goto(s, t, if s.owner == Nobody then Checking(s.pcs[t].depth) else Failed))
  }

  ghost predicate RecheckCount(s: State, s': State, t: Tid) {
    && Alive(s, t) && s.pcs[t].Checking?
    && s' == s.(pcs := Goto(s, t, if s.count == 0 then Reclaiming(s.pcs[t].depth) else Failed))
  }

  ghost predicate RestoreOwner(s: State, s': State, t: Tid) {
    && Alive(s, t) && s.pcs[t].Reclaiming?
    && s' == s.(owner := Thread(t), pcs := Goto(s, t, Restoring(s.pcs[t].depth)))
  }

  ghost predicate RestoreCount(s: State, s': State, t: Tid) {
    && Alive(s, t) && s.pcs[t].Restoring?
    && s' == s.(count := s.pcs[t].depth, pcs := Goto(s, t, Out))
  }

  ghost predicate WaitingStep(s: State, s': State, t: Tid) {
    || CallWait(s, s', t) || SaveCount(s, s', t) || GiveUpOwner(s, s', t) || GiveUpCount(s, s', t)
    || Sleep(s, s', t) || WakeUp(s, s', t) || RecheckOwner(s, s', t) || RecheckCount(s, s', t)
    || RestoreOwner(s, s', t) || RestoreCount(s, s', t)
  }

  ghost predicate Step(s: State, s': State, t: Tid) {
    LockStep(s, s', t) || UnlockStep(s, s', t) || WaitingStep(s, s', t)
  }

  ghost predicate Init(s: State) {
    && s.lock == Nobody && s.owner == Nobody && s.count == 0
    && forall t :: t in s.pcs ==> At(s, t, Out) && s.nesting[t] == 0
  }

  // ---------------------------------------------------------------- the invariant

  function Depth(s: State, t: Tid): nat {
    if t in s.nesting then s.nesting[t] else 0
  }

  /** The thread has given the mutex up for the time of a wait, or is about to, or has not got all
      of it back yet. */
  predicate Waiting(pc: PC) {
    || pc.Saving? || pc.Clearing? || pc.Parking? || pc.Asleep?
    || pc.Returned? || pc.Checking? || pc.Reclaiming? || pc.Restoring?
  }

  /** The thread has the plain lock. */
  predicate HasLock(s: State, t: Tid) {
    && t in s.pcs
    && match s.pcs[t]
       case Out => Depth(s, t) > 0
       case Blocked => false
       case Asleep(_) => false
       case Failed => false
       case _ => true
  }

  /** The owner field names the thread. */
  predicate IsOwner(s: State, t: Tid) {
    HasLock(s, t) &&
    match s.pcs[t]
    case Acquired => false
    case Claiming => false
    case Releasing => false
    case Clearing(_) => false
    case Parking(_) => false
    case Returned(_) => false
    case Checking(_) => false
    case Reclaiming(_) => false
    case _ => true
  }

  /** What the count field contains while the thread has the plain lock. */
  function CountOf(s: State, t: Tid): nat {
    if t !in s.pcs || (Waiting(s.pcs[t]) && !s.pcs[t].Saving? && !s.pcs[t].Clearing?) then 0 else Depth(s, t)
  }

  /** A thread's own account of its nesting. */
  ghost predicate Consistent(s: State, t: Tid) {
    && Alive(s, t)
    && match s.pcs[t]
       case Out => true
       case Testing => true
       case Failed => false
       case Nesting => s.nesting[t] >= 1
       case Unlocking => s.nesting[t] >= 1
       case Entering => s.nesting[t] >= 1
       case Raising(c) => s.nesting[t] == c >= 1
       case Lowering(c) => s.nesting[t] == c >= 1
       case Blocked => s.nesting[t] == 0
       case Acquired => s.nesting[t] == 0
       case Claiming => s.nesting[t] == 0
       case Owning => s.nesting[t] == 0
       case Starting => s.nesting[t] == 0
       case Leaving => s.nesting[t] == 0
       case Releasing => s.nesting[t] == 0
       case _ => s.nesting[t] == s.pcs[t].depth >= 1
  }

  ghost predicate Inv(s: State) {
    && (forall t :: t in s.pcs ==> Consistent(s, t))
    && (forall t {:trigger HasLock(s, t)} :: HasLock(s, t) <==> s.lock == Thread(t))
    && (forall t {:trigger IsOwner(s, t)} :: IsOwner(s, t) <==> s.owner == Thread(t))
    && s.count == (if s.lock.Thread? then CountOf(s, s.lock.t) else 0)
  }

  lemma InitInv(s: State)
    requires Init(s)
    ensures Inv(s)
  {
    forall t | t in s.pcs ensures Consistent(s, t) && !HasLock(s, t) {
      assert At(s, t, Out);
    }
  }

  lemma OwnerHasLock(s: State)
    requires Inv(s)
    ensures s.owner == Nobody || s.owner == s.lock
  {
    if s.owner.Thread? {
      assert IsOwner(s, s.owner.t) && HasLock(s, s.owner.t);
    }
  }

  /** What the invariant says of the thread that takes a step. */
  lemma Own(s: State, t: Tid)
    requires Inv(s) && t in s.pcs
    ensures Consistent(s, t)
    ensures HasLock(s, t) <==> s.lock == Thread(t)
    ensures IsOwner(s, t) <==> s.owner == Thread(t)
    ensures HasLock(s, t) ==> s.count == CountOf(s, t)
    ensures s.owner == Nobody || s.owner == s.lock
  {
    OwnerHasLock(s);
  }

  /** A step of one thread keeps the invariant if it does so as far as that thread is concerned. */
  lemma Others(s: State, s': State, t: Tid)
    requires Inv(s) && Alive(s, t) && Consistent(s', t)
    requires s'.pcs == s.pcs[t := s'.pcs[t]] && s'.nesting == s.nesting[t := s'.nesting[t]]
    requires s'.lock == if HasLock(s', t) then Thread(t) else if HasLock(s, t) then Nobody else s.lock
    requires s'.owner == if IsOwner(s', t) then Thread(t) else if IsOwner(s, t) then Nobody else s.owner
    requires HasLock(s', t) ==> HasLock(s, t) || s.lock == Nobody
    requires IsOwner(s', t) ==> IsOwner(s, t) || s.owner == Nobody
    requires s'.count == if HasLock(s', t) then CountOf(s', t) else if HasLock(s, t) then 0 else s.count
    ensures Inv(s')
  {
    Own(s, t);
    forall u | u != t
      ensures (HasLock(s', u) <==> HasLock(s, u)) && (IsOwner(s', u) <==> IsOwner(s, u))
      ensures CountOf(s', u) == CountOf(s, u)
    {
    }
    forall u | u in s'.pcs ensures Consistent(s', u) {
      assert Consistent(s, u);
    }
  }

  lemma LockStepKeeps(s: State, s': State, t: Tid)
    requires Inv(s) && LockStep(s, s', t)
    ensures Inv(s')
  {
    Own(s, t);
    Others(s, s', t);
  }

  lemma UnlockStepKeeps(s: State, s': State, t: Tid)
    requires Inv(s) && UnlockStep(s, s', t)
    ensures Inv(s')
  {
    Own(s, t);
    Others(s, s', t);
  }

  lemma WaitingStepKeeps(s: State, s': State, t: Tid)
    requires Inv(s) && WaitingStep(s, s', t)
    ensures Inv(s')
  {
    Own(s, t);
    Others(s, s', t);
  }

  lemma StepKeeps(s: State, s': State, t: Tid)
    requires Inv(s) && Step(s, s', t)
    ensures Inv(s')
  {
    if LockStep(s, s', t) {
      LockStepKeeps(s, s', t);
    } else if UnlockStep(s, s', t) {
      UnlockStepKeeps(s, s', t);
    } else {
      WaitingStepKeeps(s, s', t);
    }
  }

  // ---------------------------------------------------------------- whole runs

  datatype Run = Run(states: seq<State>, who: seq<Tid>)

  ghost predicate IsRun(r: Run) {
    && |r.states| == |r.who| + 1 && Init(r.states[0])
    && forall k :: 0 <= k < |r.who| ==> Step(r.states[k], r.states[k + 1], r.who[k])
  }

  lemma {:induction false} AlwaysInv(r: Run, k: nat)
    requires IsRun(r) && k < |r.states|
    ensures Inv(r.states[k])
  {
    if k == 0 {
      InitInv(r.states[0]);
    } else {
      AlwaysInv(r, k - 1);
      StepKeeps(r.states[k - 1], r.states[k], r.who[k - 1]);
    }
  }

  /** The thread is inside a critical section, at some depth, and not waiting in it. */
  predicate Critical(s: State, t: Tid) {
    t in s.pcs && Depth(s, t) > 0 && !Waiting(s.pcs[t])
  }

  /** Critical sections never overlap; inside one the owner field names the thread, which has the
      plain lock, and the count is its nesting depth; in every state the owner is nobody or the
      holder of the lock.  No internal check fails. */
  lemma MutualExclusion(r: Run, k: nat, t: Tid, u: Tid)
    requires IsRun(r) && k < |r.states|
    ensures var s := r.states[k];
            && (Critical(s, t) && Critical(s, u) ==> t == u)
            && (Critical(s, t) ==> s.owner == s.lock == Thread(t) && s.count == Depth(s, t))
            && (s.owner == Nobody || s.owner == s.lock)
            && (t in s.pcs ==> !s.pcs[t].Failed?)
  {
    AlwaysInv(r, k);
    var s := r.states[k];
    OwnerHasLock(s);
    if t in s.pcs { Own(s, t); }
    if u in s.pcs { Own(s, u); }
  }

  /** The thread is in a wait that it entered at this depth. */
  predicate InWait(s: State, t: Tid, depth: nat) {
    t in s.pcs && (s.pcs[t].Entering? || Waiting(s.pcs[t])) && Depth(s, t) == depth
  }

  predicate Back(s: State, t: Tid, depth: nat) {
    && t in s.pcs && s.pcs[t].Out?
    && s.owner == s.lock == Thread(t) && s.count == Depth(s, t) == depth
  }

  predicate SamePlace(s: State, s': State, t: Tid) {
    t in s.pcs && t in s'.pcs && s'.pcs[t] == s.pcs[t] && Depth(s', t) == Depth(s, t)
  }

  lemma OthersStayWhenLocking(s: State, s': State, u: Tid, t: Tid)
    requires LockStep(s, s', u) && u != t && t in s.pcs
    ensures SamePlace(s, s', t)
  {
  }

  lemma OthersStayWhenUnlocking(s: State, s': State, u: Tid, t: Tid)
    requires UnlockStep(s, s', u) && u != t && t in s.pcs
    ensures SamePlace(s, s', t)
  {
  }

  lemma OthersStayWhenWaiting(s: State, s': State, u: Tid, t: Tid)
    requires WaitingStep(s, s', u) && u != t && t in s.pcs
    ensures SamePlace(s, s', t)
  {
  }

  lemma OthersStay(s: State, s': State, u: Tid, t: Tid)
    requires Step(s, s', u) && u != t && t in s.pcs
    ensures SamePlace(s, s', t)
  {
    hide LockStep, UnlockStep, WaitingStep, SamePlace;
    if LockStep(s, s', u) {
      OthersStayWhenLocking(s, s', u, t);
    } else if UnlockStep(s, s', u) {
      OthersStayWhenUnlocking(s, s', u, t);
    } else {
      OthersStayWhenWaiting(s, s', u, t);
    }
  }

  lemma OthersLetItWait(s: State, s': State, u: Tid, t: Tid, depth: nat)
    requires Step(s, s', u) && u != t && InWait(s, t, depth)
    ensures InWait(s', t, depth)
  {
    hide Step;
    OthersStay(s, s', u, t);
  }

  lemma OwnWaitStep(s: State, s': State, t: Tid, depth: nat)
    requires Inv(s) && Inv(s') && WaitingStep(s, s', t) && InWait(s, t, depth)
    ensures InWait(s', t, depth) || Back(s', t, depth)
  {
    Own(s, t);
    Own(s', t);
  }

  lemma WaitStep(s: State, s': State, u: Tid, t: Tid, depth: nat)
    requires Inv(s) && Step(s, s', u) && InWait(s, t, depth)
    ensures InWait(s', t, depth) || Back(s', t, depth)
  {
    hide Inv, Back;
    StepKeeps(s, s', u);
    if u != t {
      OthersLetItWait(s, s', u, t, depth);
    } else {
      OwnWaitStep(s, s', t, depth);
    }
  }

  /** A wait that was entered at some depth returns at that depth: the first state in which the
      thread is out of the wait again has it as the owner, with the count it had before. */
  lemma {:induction false} WaitReturnsAtDepth(r: Run, j: nat, k: nat, t: Tid)
    requires IsRun(r) && j + 1 < k < |r.states| && CallWait(r.states[j], r.states[j + 1], t)
    requires forall i :: j < i < k ==> t in r.states[i].pcs && !r.states[i].pcs[t].Out?
    requires t in r.states[k].pcs && r.states[k].pcs[t].Out?
    ensures var depth := r.states[j].count;
            depth == Depth(r.states[j], t) >= 1 && Back(r.states[k], t, depth)
  {
    hide Step, Inv;
    AlwaysInv(r, j);
    Own(r.states[j], t);
    var depth := r.states[j].count;
    var i := j + 1;
    while i < k
      invariant j < i <= k
      invariant if i < k then InWait(r.states[i], t, depth) else Back(r.states[k], t, depth)
    {
      AlwaysInv(r, i);
      WaitStep(r.states[i], r.states[i + 1], r.who[i], t, depth);
      i := i + 1;
    }
  }

  /** While a thread sleeps it neither has the lock nor is named as the owner, and falling asleep
      leaves the mutex free, at whatever depth it was held. */
  lemma SleepLetsOthersIn(r: Run, k: nat, t: Tid)
    requires IsRun(r) && k < |r.who| && Sleep(r.states[k], r.states[k + 1], t)
    ensures var s' := r.states[k + 1];
            && s'.pcs[t].Asleep? && s'.lock == Nobody && s'.owner == Nobody && s'.count == 0
            && forall u :: At(s', u, Blocked) ==> Acquire(s', s'.(lock := Thread(u), pcs := Goto(s', u, Acquired)), u)
  {
    AlwaysInv(r, k);
    AlwaysInv(r, k + 1);
    Own(r.states[k], t);
    OwnerHasLock(r.states[k + 1]);
  }

  // ---------------------------------------------------------------- depth as a history of calls

  /** How often the thread has called Lock, and how often Unlock, in the first k steps. */
  ghost function LockCalls(r: Run, t: Tid, k: nat): nat
    requires k <= |r.who| < |r.states|
  {
    if k == 0 then 0
    else LockCalls(r, t, k - 1) + if r.who[k - 1] == t && CallLock(r.states[k - 1], r.states[k], t) then 1 else 0
  }

  ghost function UnlockCalls(r: Run, t: Tid, k: nat): nat
    requires k <= |r.who| < |r.states|
  {
    if k == 0 then 0
    else UnlockCalls(r, t, k - 1) + if r.who[k - 1] == t && CallUnlock(r.states[k - 1], r.states[k], t) then 1 else 0
  }

  /** A call of Lock that has not counted yet, or one of Unlock. */
  predicate InLock(pc: PC) {
    || pc.Nesting? || pc.Raising? || pc.Blocked? || pc.Acquired? || pc.Claiming? || pc.Owning? || pc.Starting?
  }

  predicate InUnlock(pc: PC) {
    pc.Unlocking? || pc.Lowering?
  }

  /** The depth is the number of calls of Lock that have counted less that of the calls of Unlock. */
  ghost predicate Balanced(s: State, t: Tid, locks: nat, unlocks: nat) {
    if t !in s.pcs then locks == unlocks == 0
    else locks + (if InUnlock(s.pcs[t]) then 1 else 0) == unlocks + Depth(s, t) + (if InLock(s.pcs[t]) then 1 else 0)
  }

  lemma LockStepBalanced(s: State, s': State, t: Tid, locks: nat, unlocks: nat)
    requires Inv(s) && LockStep(s, s', t) && Balanced(s, t, locks, unlocks)
    ensures Balanced(s', t, locks + (if CallLock(s, s', t) then 1 else 0), unlocks) && !CallUnlock(s, s', t)
  {
    Own(s, t);
  }

  lemma UnlockStepBalanced(s: State, s': State, t: Tid, locks: nat, unlocks: nat)
    requires Inv(s) && UnlockStep(s, s', t) && Balanced(s, t, locks, unlocks)
    ensures Balanced(s', t, locks, unlocks + (if CallUnlock(s, s', t) then 1 else 0)) && !CallLock(s, s', t)
  {
    Own(s, t);
  }

  lemma WaitingStepBalanced(s: State, s': State, t: Tid, locks: nat, unlocks: nat)
    requires Inv(s) && WaitingStep(s, s', t) && Balanced(s, t, locks, unlocks)
    ensures Balanced(s', t, locks, unlocks) && !CallLock(s, s', t) && !CallUnlock(s, s', t)
  {
    Own(s, t);
  }

  lemma {:induction false} DepthIsHistory(r: Run, k: nat, t: Tid)
    requires IsRun(r) && k < |r.states|
    ensures Balanced(r.states[k], t, LockCalls(r, t, k), UnlockCalls(r, t, k))
  {
    hide Inv, Balanced, LockStep, UnlockStep, WaitingStep, CallLock, CallUnlock;
    if k == 0 {
      NoCallsYet(r.states[0], t);
    } else {
      var s, s', u := r.states[k - 1], r.states[k], r.who[k - 1];
      DepthIsHistory(r, k - 1, t);
      AlwaysInv(r, k - 1);
      if u != t {
        BalancedForOthers(s, s', u, t, LockCalls(r, t, k - 1), UnlockCalls(r, t, k - 1));
      } else if LockStep(s, s', t) {
        LockStepBalanced(s, s', t, LockCalls(r, t, k - 1), UnlockCalls(r, t, k - 1));
      } else if UnlockStep(s, s', t) {
        UnlockStepBalanced(s, s', t, LockCalls(r, t, k - 1), UnlockCalls(r, t, k - 1));
      } else {
        WaitingStepBalanced(s, s', t, LockCalls(r, t, k - 1), UnlockCalls(r, t, k - 1));
      }
    }
  }

  lemma NoCallsYet(s: State, t: Tid)
    requires Init(s)
    ensures Balanced(s, t, 0, 0)
  {
    if t in s.pcs { assert At(s, t, Out); }
  }

  lemma BalancedForOthers(s: State, s': State, u: Tid, t: Tid, locks: nat, unlocks: nat)
    requires Step(s, s', u) && u != t && Balanced(s, t, locks, unlocks)
    ensures Balanced(s', t, locks, unlocks)
  {
    hide Step;
    if t in s.pcs {
      OthersStay(s, s', u, t);
    } else {
      NobodyAppears(s, s', u, t);
    }
  }

  lemma NobodyAppears(s: State, s': State, u: Tid, t: Tid)
    requires Step(s, s', u) && u != t && t !in s.pcs
    ensures t !in s'.pcs
  {
    hide LockStep, UnlockStep, WaitingStep;
    if LockStep(s, s', u) {
      NobodyAppearsLocking(s, s', u, t);
    } else if UnlockStep(s, s', u) {
      NobodyAppearsUnlocking(s, s', u, t);
    } else {
      NobodyAppearsWaiting(s, s', u, t);
    }
  }

  lemma NobodyAppearsLocking(s: State, s': State, u: Tid, t: Tid)
    requires LockStep(s, s', u) && u != t && t !in s.pcs
    ensures t !in s'.pcs
  {
  }

  lemma NobodyAppearsUnlocking(s: State, s': State, u: Tid, t: Tid)
    requires UnlockStep(s, s', u) && u != t && t !in s.pcs
    ensures t !in s'.pcs
  {
  }

  lemma NobodyAppearsWaiting(s: State, s': State, u: Tid, t: Tid)
    requires WaitingStep(s, s', u) && u != t && t !in s.pcs
    ensures t !in s'.pcs
  {
  }

  /** A thread that is out of the mutex's operations has locked as often as it has unlocked and as it is
      deep.  It owns the mutex, with the plain lock, as long as it has locked more often than it has
      unlocked, and the count says how much more often; at other times it may be waiting inside, or
      have just one call of Lock under way. */
  lemma OwnedWhileLocked(r: Run, k: nat, t: Tid)
    requires IsRun(r) && k < |r.states| && t in r.states[k].pcs
    ensures var s, locks, unlocks := r.states[k], LockCalls(r, t, k), UnlockCalls(r, t, k);
            && (s.pcs[t].Out? ==> locks == unlocks + Depth(s, t))
            && (s.pcs[t].Out? && locks > unlocks ==> s.owner == s.lock == Thread(t) && s.count == locks - unlocks)
            && (locks > unlocks + (if InLock(s.pcs[t]) then 1 else 0) && !Waiting(s.pcs[t]) ==>
                  s.owner == s.lock == Thread(t))
  {
    DepthIsHistory(r, k, t);
    MutualExclusion(r, k, t, t);
  }

  /** So of two threads at most one has locked more often than it has unlocked, threads in a wait or in
      a first call of Lock aside. */
  lemma SectionsDoNotOverlap(r: Run, k: nat, t: Tid, u: Tid)
    requires IsRun(r) && k < |r.states| && t in r.states[k].pcs && u in r.states[k].pcs
    requires var pc := r.states[k].pcs[t];
             LockCalls(r, t, k) > UnlockCalls(r, t, k) + (if InLock(pc) then 1 else 0) && !Waiting(pc)
    requires var pc := r.states[k].pcs[u];
             LockCalls(r, u, k) > UnlockCalls(r, u, k) + (if InLock(pc) then 1 else 0) && !Waiting(pc)
    ensures t == u
  {
    OwnedWhileLocked(r, k, t);
    OwnedWhileLocked(r, k, u);
  }
}
