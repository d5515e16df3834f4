/** The hand-off between the script's thread and the threads under test: one atomic cell, the
    recorded owner of the lock marker, and a semaphore that acts as a gate.  Every exchange, store,
    semaphore operation and owner write is one atomic step of one thread; any number of threads
    take steps in any order. */
module HandOff {

  type Tid = nat
  const MAIN: Tid := 0

  /** What the cell can contain. */
  datatype Ref = Empty | Node(id: nat) | Lock | End

  /** On which content an acquisition returns: on an empty cell, on a full one, or on either in
      order to end the run, at the end of the script or because of an exception, which may be a
      backtrack. */
  datatype Mode = OnEmpty | OnFull | ToEnd | ToRaise(backtrack: bool)

  /** What the end node records: the first exception that ended the run, if one did. */
  datatype Record = NoException | Exception(backtrack: bool)

  /** How a holder releases: store a value, add a node to the path and store nothing, or add the
      end node to the path and store it. */
  datatype Out = Back(w: Ref) | Add(n: nat) | Finish

  datatype Held = Nothing | Holds(v: Ref)

  datatype PC =
    | Idle                          // outside the protocol
    | Try(mode: Mode, held: Held)   // about to exchange the lock marker into the cell
    | Saw(mode: Mode, held: Held)   // the exchange returned the lock marker
    | Got(mode: Mode, v: Ref)       // the exchange returned v
    | Ended(mode: Mode)             // the acquisition returned the end marker
    | Wait(mode: Mode)              // at the gate
    | Resignal(mode: Mode)          // through the gate, and about to open it again
    | Hold(mode: Mode, v: Ref)      // the acquisition returned v; this thread is the owner
    | Release(v: Ref, out: Out)     // about to clear the owner
    | Unlocked(v: Ref, out: Out)    // about to add to the path
    | Committed(out: Out)           // about to store into the cell
    | Signal                        // about to open the gate
    | Crash                         // an internal check failed

  datatype Owner = Nobody | Thread(t: Tid)

  datatype State = State(
    cell: Ref,
    owner: Owner,
    sem: nat,
    pcs: map<Tid, PC>,
    path: seq<nat>,      // the nodes on the path, the end node aside
    ends: nat,           // how often the end node was added to the path
    issued: seq<nat>,    // the nodes that the script asked for, in its order
    releases: nat,       // how often a release opened the gate
    recorded: Record,
    over: bool)          // the script's thread has ended the run itself, or raises an exception

  // ---------------------------------------------------------------- steps

  ghost predicate Moves(s: State, s': State, t: Tid, pc: PC) {
    t in s.pcs && s' == s.(pcs := s.pcs[t := pc])
  }

  predicate MayAsk(t: Tid, mode: Mode) {
    match mode
    case OnEmpty => t == MAIN
    case OnFull => t != MAIN
    case ToEnd => t == MAIN
    case ToRaise(_) => true
  }

  /** The script's thread asks for the cell, other than to raise an exception. */
  predicate Asks(pc: PC) {
    && (pc.Try? || pc.Saw? || pc.Got? || pc.Ended? || pc.Wait? || pc.Resignal?)
    && (pc.mode.OnEmpty? || pc.mode.ToEnd?)
  }

  /** Start an acquisition: the script's thread waits for an empty cell to go on, a thread under
      test for a full one; either may ask for the lock whatever the content, to end the run.  After
      the script's thread has ended the run itself it asks for the lock only to raise an exception,
      which is then the last thing that it does in this run. */
  ghost predicate Start(s: State, s': State, t: Tid) {
    && t in s.pcs && s.pcs[t].Idle?
    && exists mode :: MayAsk(t, mode) && (Asks(Try(mode, Nothing)) ==> !s.over) && Asked(s, s', t, Try(mode, Nothing))
  }

  ghost predicate Asked(s: State, s': State, t: Tid, pc: PC)
    requires pc.Try?
  {
    t in s.pcs && s' == s.(over := s.over || (t == MAIN && pc.mode.ToRaise?), pcs := s.pcs[t := pc])
  }

  /** An exception while the lock is held: the thread asks for the lock again, to end the run.  The
      ending at the end of the script throws nothing. */
  ghost predicate Raise(s: State, s': State, t: Tid) {
    && t in s.pcs && s.pcs[t].Hold? && s.pcs[t].mode != ToEnd
    && exists backtrack :: Asked(s, s', t, Try(ToRaise(backtrack), Holds(s.pcs[t].v)))
  }

  ghost predicate Exchange(s: State, s': State, t: Tid) {
    && t in s.pcs && s.pcs[t].Try?
    && var pc := s.pcs[t];
    s' == s.(cell := Lock, pcs := s.pcs[t := if s.cell.Lock? then Saw(pc.mode, pc.held) else Got(pc.mode, s.cell)])
  }

  /** The lock is taken: by the thread itself, which is fine only when it has raised an exception,
      or by another thread, in which case it tries again. */
  ghost predicate LookAtOwner(s: State, s': State, t: Tid) {
    && t in s.pcs && s.pcs[t].Saw?
    && var pc := s.pcs[t];
    Moves(s, s', t,
          if s.owner != Thread(t) then Try(pc.mode, pc.held)
          else if pc.mode.ToRaise? && pc.held.Holds? then Hold(pc.mode, pc.held.v)
          else Crash)
  }

  predicate Accepts(mode: Mode, v: Ref) {
    match mode
    case ToEnd => true
    case ToRaise(_) => true
    case OnEmpty => v.Empty?
    case OnFull => v.Node?
  }

  /** The content is the wanted one: record the owner. */
  ghost predicate TakeLock(s: State, s': State, t: Tid) {
    && t in s.pcs && s.pcs[t].Got? && !s.pcs[t].v.End? && Accepts(s.pcs[t].mode, s.pcs[t].v)
    && var pc := s.pcs[t];
    s' == s.(owner := Thread(t), pcs := s.pcs[t := if s.owner.Nobody? then Hold(pc.mode, pc.v) else Crash])
  }

  /** It is not: put it back, and wait at the gate unless the run has ended. */
  ghost predicate PutBack(s: State, s': State, t: Tid) {
    && t in s.pcs && s.pcs[t].Got? && (s.pcs[t].v.End? || !Accepts(s.pcs[t].mode, s.pcs[t].v))
    && var pc := s.pcs[t];
    s' == s.(cell := pc.v, pcs := s.pcs[t := if pc.v.End? then Ended(pc.mode) else Wait(pc.mode)])
  }

  /** The end node keeps the first exception. */
  function Noted(recorded: Record, backtrack: bool): Record {
    if recorded.NoException? then Exception(backtrack) else recorded
  }

  /** A thread that raises an exception notes it in the end node before it puts that into the cell. */
  ghost predicate Note(s: State, s': State, t: Tid) {
    && t in s.pcs && s.pcs[t].Hold? && s.pcs[t].mode.ToRaise?
    && s' == s.(recorded := Noted(s.recorded, s.pcs[t].mode.backtrack))
  }

  /** The run has ended already: a thread under test is released, and an exception is noted.  The
      script's thread, which has not ended the run itself, checks that the end node is on the path
      and records an exception, and throws a backtrack; when it ends the run it expects none of the
      exceptions to be a backtrack, and the end marker still to be in the cell. */
  ghost predicate Leave(s: State, s': State, t: Tid) {
    && t in s.pcs && s.pcs[t].Ended?
    && match s.pcs[t].mode
       case OnFull => Moves(s, s', t, Idle)
       case ToRaise(b) => s' == s.(recorded := Noted(s.recorded, b), pcs := s.pcs[t := Idle])
       case OnEmpty => Moves(s, s', t, if s.ends == 1 && s.recorded.Exception? then Idle else Crash)
       case ToEnd =>
         && (s.ends == 1 && s.recorded.Exception? ==> !s.recorded.backtrack && s.cell.End?)
         && Moves(s, s', t, if s.ends == 1 && s.recorded.Exception? then Idle else Crash)
  }

  ghost predicate PassGate(s: State, s': State, t: Tid) {
    && t in s.pcs && s.pcs[t].Wait? && s.sem > 0
    && s' == s.(sem := s.sem - 1, pcs := s.pcs[t := Resignal(s.pcs[t].mode)])
  }

  ghost predicate ReopenGate(s: State, s': State, t: Tid) {
    && t in s.pcs && s.pcs[t].Resignal?
    && s' == s.(sem := s.sem + 1, pcs := s.pcs[t := Try(s.pcs[t].mode, Nothing)])
  }

  /** Only the script's thread gives up on time, and only while it waits or is about to try again. */
  ghost predicate TimeOut(s: State, s': State, t: Tid) {
    && t == MAIN && t in s.pcs
    && (s.pcs[t].Wait? || (s.pcs[t].Try? && s.pcs[t].held.Nothing?))
    && s.pcs[t].mode == OnEmpty
    && Moves(s, s', t, Idle)
  }

  /** When all threads have ended the script's thread takes the lock by force.  No other thread is
      inside the protocol then. */
  ghost predicate ForceLock(s: State, s': State, t: Tid) {
    && t == MAIN && t in s.pcs && (forall u :: u in s.pcs ==> s.pcs[u].Idle?)
    && s' == s.(cell := Lock, owner := Thread(t),
                pcs := s.pcs[t := if s.owner.Nobody? then Hold(ToEnd, s.cell) else Crash])
  }

  /** The script's thread ends the path before it releases; an end node that is there already is
      not added again. */
  ghost predicate EndPath(s: State, s': State, t: Tid) {
    && t == MAIN && t in s.pcs && s.pcs[t].Hold? && s.pcs[t].mode == ToEnd
    && s' == s.(ends := s.ends + (if s.pcs[t].v.End? then 0 else 1), over := true,
                pcs := s.pcs[t := Hold(ToEnd, End)])
  }

  /** What a holder may release: the script's thread submits a node, or adds one itself, or leaves
      the cell empty; a thread under test consumes the submitted node or gives it back. */
  predicate Permitted(t: Tid, mode: Mode, v: Ref, out: Out) {
    match out
    case Back(w) =>
      if mode == ToEnd then t == MAIN && v == w == End
      else if t == MAIN then mode == OnEmpty && v == Empty && (w.Empty? || w.Node?)
      else mode == OnFull && v.Node? && w == v
    case Add(n) =>
      if t == MAIN then mode == OnEmpty && v == Empty else mode == OnFull && v == Node(n)
    case Finish => mode.ToRaise? && v != End
  }

  ghost predicate StartRelease(s: State, s': State, t: Tid) {
    && t in s.pcs && s.pcs[t].Hold?
    && exists out :: Permitted(t, s.pcs[t].mode, s.pcs[t].v, out) && (out.Finish? ==> s.recorded.Exception?)
                     && Moves(s, s', t, Release(s.pcs[t].v, out))
  }

  ghost predicate ClearOwner(s: State, s': State, t: Tid) {
    && t in s.pcs && s.pcs[t].Release?
    && var pc := s.pcs[t];
    s' == s.(owner := Nobody,
             pcs := s.pcs[t := if s.owner == Thread(t) && s.cell.Lock? then Unlocked(pc.v, pc.out) else Crash])
  }

  /** The moment at which the content changes. */
  ghost predicate Commit(s: State, s': State, t: Tid) {
    && t in s.pcs && s.pcs[t].Unlocked?
    && var out := s.pcs[t].out;
    s' == s.(path := if out.Add? then s.path + [out.n] else s.path,
             ends := if out.Finish? then s.ends + 1 else s.ends,
             issued := if t == MAIN && out.Add? then s.issued + [out.n]
                       else if t == MAIN && out.Back? && out.w.Node? then s.issued + [out.w.id]
                       else s.issued,
             pcs := s.pcs[t := Committed(out)])
  }

  function Stored(out: Out): Ref {
    match out
    case Back(w) => w
    case Add(_) => Empty
    case Finish => End
  }

  ghost predicate Store(s: State, s': State, t: Tid) {
    && t in s.pcs && s.pcs[t].Committed?
    && s' == s.(cell := Stored(s.pcs[t].out), pcs := s.pcs[t := Signal])
  }

  ghost predicate OpenGate(s: State, s': State, t: Tid) {
    && t in s.pcs && s.pcs[t].Signal?
    && s' == s.(sem := s.sem + 1, releases := s.releases + 1, pcs := s.pcs[t := Idle])
  }

  ghost predicate Quiet(s: State, s': State, t: Tid) {
    || Start(s, s', t) || Raise(s, s', t) || LookAtOwner(s, s', t) || StartRelease(s, s', t)
    || PassGate(s, s', t) || ReopenGate(s, s', t) || TimeOut(s, s', t) || OpenGate(s, s', t) || Note(s, s', t)
  }

  ghost predicate Moving(s: State, s': State, t: Tid) {
    || Exchange(s, s', t) || TakeLock(s, s', t) || PutBack(s, s', t) || ForceLock(s, s', t)
    || ClearOwner(s, s', t) || Store(s, s', t)
  }

  ghost predicate Step(s: State, s': State, t: Tid) {
    Quiet(s, s', t) || Moving(s, s', t) || EndPath(s, s', t) || Commit(s, s', t) || Leave(s, s', t)
  }

  /** After a restart: nothing submitted, the gate closed, and every thread outside. */
  ghost predicate Init(s: State) {
    && s.cell == Empty && s.owner == Nobody && s.sem == 0 && s.releases == 0
    && s.path == [] && s.issued == [] && s.ends == 0 && s.recorded.NoException? && !s.over
    && MAIN in s.pcs && forall t :: t in s.pcs ==> s.pcs[t].Idle?
  }

  // ---------------------------------------------------------------- content

  /** The thread has taken the content out of the cell and not put it back yet. */
  predicate Holding(pc: PC) {
    || pc.Got? || pc.Hold? || pc.Release? || pc.Unlocked? || pc.Committed?
    || ((pc.Try? || pc.Saw?) && pc.held.Holds?)
  }

  function Hand(pc: PC): Ref
    requires Holding(pc)
  {
    match pc
    case Try(_, held) => held.v
    case Saw(_, held) => held.v
    case Committed(out) => Stored(out)
    case Got(_, v) => v
    case Hold(_, v) => v
    case Release(v, _) => v
    case Unlocked(v, _) => v
  }

  ghost predicate Holder(s: State, t: Tid) {
    t in s.pcs && Holding(s.pcs[t])
  }

  /** The abstract content: what the cell contains, or else what its holder has in hand. */
  ghost function Content(s: State): Ref {
    if !s.cell.Lock? then s.cell
    else if exists t :: Holder(s, t) then var t :| Holder(s, t); Hand(s.pcs[t])
    else Lock
  }

  // ---------------------------------------------------------------- the invariant

  ghost predicate OneHolder(s: State) {
    forall t, u {:trigger Holder(s, t), Holder(s, u)} :: Holder(s, t) && Holder(s, u) ==> t == u
  }

  predicate Owned(pc: PC) {
    pc.Hold? || pc.Release? || ((pc.Try? || pc.Saw?) && pc.held.Holds?)
  }

  /** What a thread can be doing. */
  ghost predicate Sensible(t: Tid, pc: PC) {
    match pc
    case Crash => false
    case Idle => true
    case Signal => true
    case Try(mode, held) => MayAsk(t, mode) && MayKeep(mode, held)
    case Saw(mode, held) => MayAsk(t, mode) && MayKeep(mode, held)
    case Got(mode, v) => MayAsk(t, mode) && v != Lock
    case Ended(mode) => MayAsk(t, mode)
    case Wait(mode) => MayAsk(t, mode)
    case Resignal(mode) => MayAsk(t, mode)
    case Hold(mode, v) => MayAsk(t, mode) && v != Lock && Accepts(mode, v) && (v == End ==> mode == ToEnd)
    case Release(v, out) => v != Lock && exists mode :: Permitted(t, mode, v, out)
    case Unlocked(v, out) => v != Lock && exists mode :: Permitted(t, mode, v, out)
    case Committed(out) => Stored(out) != Lock
  }

  /** What a thread that asks again can still have in hand. */
  predicate MayKeep(mode: Mode, held: Held) {
    held.Holds? ==> mode.ToRaise? && held.v != Lock && held.v != End
  }

  /** At most one thread holds the content, and exactly then the cell is locked; the recorded owner
      is nobody or that thread; no internal check has failed. */
  ghost predicate Structure(s: State) {
    && OneHolder(s)
    && (s.cell.Lock? <==> exists t :: Holder(s, t))
    && (s.owner.Thread? ==> s.owner.t in s.pcs)
    && (forall t :: t in s.pcs ==> Sensible(t, s.pcs[t]) && (s.owner == Thread(t) <==> Owned(s.pcs[t])))
  }

  /** What the script asked for is on the path, except for a node that is still to be consumed. */
  ghost predicate History(s: State) {
    match Content(s)
    case Empty => s.issued == s.path && s.ends == 0
    case Node(n) => s.issued == s.path + [n] && s.ends == 0
    case End => s.path <= s.issued && |s.issued| <= |s.path| + 1 && s.ends == 1
    case Lock => false
  }

  ghost function InGate(s: State): set<Tid> {
    set t | t in s.pcs && s.pcs[t].Resignal?
  }

  /** The gate has been opened as often as there are tokens, counting those in passing. */
  ghost predicate Tokens(s: State) {
    s.sem + |InGate(s)| == s.releases
  }

  /** The thread is about to put the end marker into the cell because of an exception. */
  predicate Finishing(pc: PC) {
    (pc.Release? || pc.Unlocked? || pc.Committed?) && pc.out.Finish?
  }

  /** An ended run was ended by the script's thread, or the end node records an exception. */
  ghost predicate Explained(s: State) {
    && (Content(s).End? ==> s.over || s.recorded.Exception?)
    && forall t :: t in s.pcs ==> ThreadExplained(s, s.pcs[t])
  }

  ghost predicate ThreadExplained(s: State, pc: PC) {
    && (Asks(pc) ==> !s.over) && (pc.Ended? ==> Content(s).End?) && (Finishing(pc) ==> s.recorded.Exception?)
  }

  ghost predicate Inv(s: State) {
    Structure(s) && History(s) && Tokens(s) && Explained(s)
  }

  lemma InitInv(s: State)
    requires Init(s)
    ensures Inv(s)
  {
    assert InGate(s) == {};
  }

  lemma ContentInHand(s: State, t: Tid)
    requires Structure(s) && Holder(s, t)
    ensures s.cell.Lock? && Content(s) == Hand(s.pcs[t])
  {
  }

  /** A step of one thread keeps the content if it keeps what the thread has in hand, or moves it
      between hand and cell. */
  lemma SameContent(s: State, s': State, t: Tid)
    requires Structure(s) && Structure(s') && t in s.pcs && t in s'.pcs && s'.pcs == s.pcs[t := s'.pcs[t]]
    requires (if Holder(s, t) then Hand(s.pcs[t]) else s.cell) == (if Holder(s', t) then Hand(s'.pcs[t]) else s'.cell)
    ensures Content(s') == Content(s)
  {
    if Holder(s, t) {
      ContentInHand(s, t);
    }
    if Holder(s', t) {
      ContentInHand(s', t);
    }
    if !Holder(s, t) && !Holder(s', t) && s.cell.Lock? {
      var u :| Holder(s, u);
      ContentInHand(s, u);
      assert Holder(s', u);
      ContentInHand(s', u);
    }
  }

  /** A step that leaves cell and owner alone, and what the thread has in hand and owns. */
  lemma LocalStructure(s: State, s': State, t: Tid)
    requires Structure(s) && t in s.pcs && t in s'.pcs && s'.pcs == s.pcs[t := s'.pcs[t]]
    requires s'.cell == s.cell && s'.owner == s.owner
    requires Sensible(t, s'.pcs[t]) && (Owned(s'.pcs[t]) <==> Owned(s.pcs[t])) && (Holder(s, t) <==> Holder(s', t))
    requires Holder(s, t) ==> Hand(s'.pcs[t]) == Hand(s.pcs[t])
    ensures Structure(s') && Content(s') == Content(s)
  {
    forall u ensures Holder(s, u) <==> Holder(s', u) {}
    SameContent(s, s', t);
  }

  /** The thread takes the content out of a cell that nobody has locked. */
  lemma TakeOut(s: State, s': State, t: Tid)
    requires Structure(s) && t in s.pcs && t in s'.pcs && s'.pcs == s.pcs[t := s'.pcs[t]]
    requires !s.cell.Lock? && s'.cell.Lock? && Holding(s'.pcs[t]) && Hand(s'.pcs[t]) == s.cell
    requires Sensible(t, s'.pcs[t]) && s'.owner == if Owned(s'.pcs[t]) then Thread(t) else s.owner
    requires s.owner.Nobody?
    ensures Structure(s') && Content(s') == Content(s)
  {
    assert !Holder(s, t);
    forall u ensures Holder(s', u) <==> u == t {
      assert !Holder(s, u);
    }
    assert Holder(s', t);
    SameContent(s, s', t);
  }

  lemma NobodyOwns(s: State)
    requires Structure(s) && !s.cell.Lock?
    ensures s.owner.Nobody?
  {
    if s.owner.Thread? {
      assert Holder(s, s.owner.t);
    }
  }

  /** The holder puts the content back into the cell. */
  lemma PutIn(s: State, s': State, t: Tid)
    requires Structure(s) && Holder(s, t) && t in s'.pcs && s'.pcs == s.pcs[t := s'.pcs[t]]
    requires !Owned(s.pcs[t]) && !Owned(s'.pcs[t]) && !Holding(s'.pcs[t]) && Sensible(t, s'.pcs[t])
    requires s'.cell == Hand(s.pcs[t]) != Lock && s'.owner == s.owner
    ensures Structure(s') && Content(s') == Content(s)
  {
    forall u ensures !Holder(s', u) {
      assert Holder(s, u) ==> u == t;
    }
    SameContent(s, s', t);
  }

  /** The holder records or clears itself as the owner. */
  lemma OwnerChange(s: State, s': State, t: Tid)
    requires Structure(s) && Holder(s, t) && t in s'.pcs && s'.pcs == s.pcs[t := s'.pcs[t]]
    requires Holding(s'.pcs[t]) && Hand(s'.pcs[t]) == Hand(s.pcs[t]) && Sensible(t, s'.pcs[t]) && s'.cell == s.cell
    requires s'.owner == if Owned(s'.pcs[t]) then Thread(t) else Nobody
    requires Owned(s.pcs[t]) <==> !Owned(s'.pcs[t])
    ensures Structure(s') && Content(s') == Content(s)
  {
    forall u ensures Holder(s, u) <==> Holder(s', u) {}
    forall u | u in s'.pcs ensures s'.owner == Thread(u) <==> Owned(s'.pcs[u]) {
      if Owned(s.pcs[u]) {
        assert Holder(s, u);
      }
    }
    SameContent(s, s', t);
  }

  lemma OwnerIsFree(s: State, t: Tid)
    requires Structure(s) && Holder(s, t) && !Owned(s.pcs[t])
    ensures s.owner.Nobody?
  {
    if s.owner.Thread? {
      assert Holder(s, s.owner.t);
    }
  }

  lemma QuietStructure(s: State, s': State, t: Tid)
    requires Structure(s) && Quiet(s, s', t)
    ensures Structure(s') && Content(s') == Content(s)
  {
    if SawLock(s, t) && s.owner == Thread(t) {
      assert Owned(s.pcs[t]);
    }
    LocalStructure(s, s', t);
  }

  ghost predicate SawLock(s: State, t: Tid) {
    t in s.pcs && s.pcs[t].Saw?
  }

  lemma MovingStructure(s: State, s': State, t: Tid)
    requires Structure(s) && Moving(s, s', t)
    ensures Structure(s') && Content(s') == Content(s)
  {
    if Exchange(s, s', t) {
      if s.cell.Lock? {
        LocalStructure(s, s', t);
      } else {
        NobodyOwns(s);
        assert !Holder(s, t);
        TakeOut(s, s', t);
      }
    } else if TakeLock(s, s', t) {
      OwnerIsFree(s, t);
      OwnerChange(s, s', t);
    } else if PutBack(s, s', t) {
      PutIn(s, s', t);
    } else if ForceLock(s, s', t) {
      assert forall u :: !Holder(s, u);
      NobodyOwns(s);
      TakeOut(s, s', t);
    } else if ClearOwner(s, s', t) {
      assert Holder(s, t);
      OwnerChange(s, s', t);
    } else {
      PutIn(s, s', t);
    }
  }

  /** Only a commit and the ending of the path change the content, and both are steps of the holder. */
  lemma ContentChange(s: State, s': State, t: Tid)
    requires Structure(s) && (Commit(s, s', t) || EndPath(s, s', t))
    ensures Structure(s') && Holder(s, t) && Content(s) == Hand(s.pcs[t]) && Content(s') == Hand(s'.pcs[t])
  {
    assert Holder(s, t) && Holder(s', t);
    forall u ensures Holder(s, u) <==> Holder(s', u) {}
    ContentInHand(s, t);
    ContentInHand(s', t);
  }

  lemma SameGate(s: State, s': State, t: Tid)
    requires t in s.pcs && t in s'.pcs && s'.pcs == s.pcs[t := s'.pcs[t]]
    requires s.pcs[t].Resignal? <==> s'.pcs[t].Resignal?
    ensures InGate(s') == InGate(s)
  {
  }

  lemma GateTokens(s: State, s': State, t: Tid)
    requires Tokens(s) && (PassGate(s, s', t) || ReopenGate(s, s', t))
    ensures Tokens(s')
  {
    if PassGate(s, s', t) {
      assert InGate(s') == InGate(s) + {t};
    } else {
      assert InGate(s') == InGate(s) - {t};
    }
  }

  lemma TokensKept(s: State, s': State, t: Tid)
    requires Tokens(s) && Step(s, s', t)
    ensures Tokens(s')
  {
    if PassGate(s, s', t) || ReopenGate(s, s', t) {
      GateTokens(s, s', t);
    } else {
      SameGate(s, s', t);
    }
  }

  lemma HistoryFrame(s: State, s': State)
    requires History(s) && Content(s') == Content(s)
    requires s'.path == s.path && s'.issued == s.issued && s'.ends == s.ends
    ensures History(s')
  {
  }

  lemma QuietLog(s: State, s': State, t: Tid)
    requires Quiet(s, s', t)
    ensures s'.path == s.path && s'.issued == s.issued && s'.ends == s.ends
  {
  }

  lemma QuietKeeps(s: State, s': State, t: Tid)
    requires Inv(s) && Quiet(s, s', t)
    ensures Structure(s') && History(s') && Content(s') == Content(s)
  {
    QuietStructure(s, s', t);
    QuietLog(s, s', t);
    HistoryFrame(s, s');
  }

  lemma MovingKeeps(s: State, s': State, t: Tid)
    requires Inv(s) && Moving(s, s', t)
    ensures Structure(s') && History(s') && Content(s') == Content(s)
  {
    hide Structure, Content, History;
    MovingStructure(s, s', t);
    HistoryFrame(s, s');
  }

  /** The checks on an end marker that the script's thread finds hold. */
  lemma EndIsExplained(s: State, t: Tid)
    requires Inv(s) && t in s.pcs && s.pcs[t].Ended? && Asks(s.pcs[t])
    ensures s.ends == 1 && s.recorded.Exception?
  {
    assert ThreadExplained(s, s.pcs[t]);
  }

  lemma LeaveKeeps(s: State, s': State, t: Tid)
    requires Inv(s) && Leave(s, s', t)
    ensures Structure(s') && History(s') && Content(s') == Content(s)
  {
    if Asks(s.pcs[t]) { EndIsExplained(s, t); }
    LocalStructure(s, s', t);
  }

  /** What the other threads do stays explained when the content, or the end marker in it, stays. */
  lemma OthersExplained(s: State, s': State, t: Tid)
    requires Structure(s) && Explained(s) && t in s.pcs && t in s'.pcs && s'.pcs == s.pcs[t := s'.pcs[t]]
    requires s.recorded.Exception? ==> s'.recorded.Exception?
    requires s'.over == s.over || t == MAIN
    requires Content(s).End? ==> Content(s').End?
    requires ThreadExplained(s', s'.pcs[t]) && (Content(s').End? ==> s'.over || s'.recorded.Exception?)
    ensures Explained(s')
  {
    forall u | u in s'.pcs ensures ThreadExplained(s', s'.pcs[u]) {
      assert ThreadExplained(s, s.pcs[u]) && Sensible(u, s.pcs[u]);
    }
  }

  lemma ThreadFacts(s: State, t: Tid)
    requires Inv(s) && t in s.pcs
    ensures ThreadExplained(s, s.pcs[t]) && Sensible(t, s.pcs[t])
    ensures Content(s).End? ==> s.over || s.recorded.Exception?
    ensures Holder(s, t) ==> Content(s) == Hand(s.pcs[t])
  {
    if Holder(s, t) { ContentInHand(s, t); }
  }

  lemma QuietExplained(s: State, s': State, t: Tid)
    requires Inv(s) && (Quiet(s, s', t) || Leave(s, s', t)) && Content(s') == Content(s)
    ensures Explained(s')
  {
    hide Structure, History, Tokens, Content, Explained;
    ThreadFacts(s, t);
    StillExplained(s, s', t);
  }

  lemma MovingExplained(s: State, s': State, t: Tid)
    requires Inv(s) && Moving(s, s', t) && Content(s') == Content(s)
    ensures Explained(s')
  {
    hide Structure, History, Tokens, Content, Explained;
    ThreadFacts(s, t);
    StillExplained(s, s', t);
  }

  lemma ChangeExplained(s: State, s': State, t: Tid)
    requires Inv(s) && (Commit(s, s', t) || EndPath(s, s', t))
    ensures Explained(s')
  {
    hide History, Tokens, Content, Explained;
    ContentChange(s, s', t);
    ThreadFacts(s, t);
    StillExplained(s, s', t);
  }

  lemma StillExplained(s: State, s': State, t: Tid)
    requires Inv(s) && t in s.pcs && t in s'.pcs && s'.pcs == s.pcs[t := s'.pcs[t]]
    requires s.recorded.Exception? ==> s'.recorded.Exception?
    requires s'.over == s.over || t == MAIN
    requires Content(s).End? ==> Content(s').End?
    requires ThreadExplained(s', s'.pcs[t]) && (Content(s').End? ==> s'.over || s'.recorded.Exception?)
    ensures Explained(s')
  {
    OthersExplained(s, s', t);
  }

  lemma ChangeKeeps(s: State, s': State, t: Tid)
    requires Inv(s) && (Commit(s, s', t) || EndPath(s, s', t))
    ensures Structure(s') && History(s')
  {
    ContentChange(s, s', t);
  }

  lemma StepKeeps(s: State, s': State, t: Tid)
    requires Inv(s) && Step(s, s', t)
    ensures Inv(s')
    ensures !Commit(s, s', t) && !EndPath(s, s', t) ==> Content(s') == Content(s)
  {
    hide Quiet, Moving, Commit, EndPath, Leave, Structure, History, Tokens, Content, Explained;
    TokensKept(s, s', t);
    if Quiet(s, s', t) {
      QuietKeeps(s, s', t);
      QuietExplained(s, s', t);
    } else if Moving(s, s', t) {
      MovingKeeps(s, s', t);
      MovingExplained(s, s', t);
    } else if Leave(s, s', t) {
      LeaveKeeps(s, s', t);
      QuietExplained(s, s', t);
    } else {
      ChangeKeeps(s, s', t);
      ChangeExplained(s, s', t);
    }
  }

  // ---------------------------------------------------------------- whole runs

  /** A run of the protocol, with the thread that takes each step. */
  datatype Run = Run(states: seq<State>, who: seq<Tid>)

  ghost predicate IsRun(r: Run) {
    && |r.states| == |r.who| + 1 && Init(r.states[0])
    && forall k :: 0 <= k < |r.who| ==> Step(r.states[k], r.states[k + 1], r.who[k])
  }

  lemma {:induction false} AlwaysInv(r: Run, k: nat)
    requires IsRun(r) && k < |r.states|
    ensures Inv(r.states[k])
  {
    if k == 0 {
      InitInv(r.states[0]);
    } else {
      AlwaysInv(r, k - 1);
      StepKeeps(r.states[k - 1], r.states[k], r.who[k - 1]);
    }
  }

  /** At most one thread holds the content, the recorded owner is nobody or that thread, and no thread
      has failed a check. */
  ghost predicate LockSafe(s: State, t: Tid, u: Tid) {
    && (t in s.pcs ==> !s.pcs[t].Crash?)
    && (Holder(s, t) && Holder(s, u) ==> t == u)
    && (s.owner == Thread(t) ==> Holder(s, t))
    && (s.cell.Lock? <==> exists h :: Holder(s, h))
  }

  /** When the script's thread finds the end marker in the cell, the end node is on the path, and
      records why another thread has ended the run. */
  lemma FoundEndIsExplained(r: Run, k: nat)
    requires IsRun(r) && k < |r.states| && MAIN in r.states[k].pcs
    requires r.states[k].pcs[MAIN].Ended? && Asks(r.states[k].pcs[MAIN])
    ensures r.states[k].ends == 1 && r.states[k].recorded.Exception? && Content(r.states[k]).End?
  {
    AlwaysInv(r, k);
    EndIsExplained(r.states[k], MAIN);
    assert ThreadExplained(r.states[k], r.states[k].pcs[MAIN]);
  }

  /** The end node keeps the exception that it records, and gets its first one from a thread that raises
      it: one that holds the content, or has found the end marker. */
  lemma RecordedByRaiser(s: State, s': State, t: Tid)
    requires Step(s, s', t)
    ensures s.recorded.Exception? ==> s'.recorded == s.recorded
    ensures s'.recorded != s.recorded ==>
              && t in s.pcs && (s.pcs[t].Hold? || s.pcs[t].Ended?) && s.pcs[t].mode.ToRaise?
              && s'.recorded == Exception(s.pcs[t].mode.backtrack)
  {
  }

  lemma {:induction false} RecordedForGood(r: Run, j: nat, k: nat)
    requires IsRun(r) && j <= k < |r.states| && r.states[j].recorded.Exception?
    ensures r.states[k].recorded == r.states[j].recorded
  {
    hide Step;
    if j < k {
      RecordedForGood(r, j, k - 1);
      RecordedByRaiser(r.states[k - 1], r.states[k], r.who[k - 1]);
    }
  }

  /** Once the content is the end marker it stays so, until the next restart. */
  lemma {:induction false} EndIsForever(r: Run, j: nat, k: nat)
    requires IsRun(r) && j <= k < |r.states| && Content(r.states[j]) == End
    ensures Content(r.states[k]) == End && r.states[k].path == r.states[j].path && r.states[k].ends == 1
    decreases k - j
  {
    AlwaysInv(r, j);
    if j < k {
      StepKeeps(r.states[j], r.states[j + 1], r.who[j]);
      EndStays(r.states[j], r.states[j + 1], r.who[j]);
      EndIsForever(r, j + 1, k);
    }
  }

  lemma EndStays(s: State, s': State, t: Tid)
    requires Inv(s) && Step(s, s', t) && Content(s) == End
    ensures Content(s') == End && s'.path == s.path
  {
    hide Inv, Structure, Content, Step;
    StepKeeps(s, s', t);
    if !Commit(s, s', t) { SamePath(s, s', t); }
    if Commit(s, s', t) || EndPath(s, s', t) {
      CommitFacts(s, s', t);
    }
  }

  /** How many of the steps from state j to state k thread t takes. */
  ghost function StepsOf(r: Run, t: Tid, j: nat, k: nat): nat
    requires j <= k <= |r.who|
    decreases k - j
  {
    if j == k then 0 else (if r.who[j] == t then 1 else 0) + StepsOf(r, t, j + 1, k)
  }

  lemma OthersStay(s: State, s': State, t: Tid, u: Tid)
    requires Step(s, s', u) && t in s.pcs && u != t
    ensures t in s'.pcs && s'.pcs[t] == s.pcs[t]
  {
    hide Permitted, Stored, Noted, MayAsk, Accepts;
  }

  /** A thread that has the end marker in hand puts it back, and one that has found it leaves. */
  lemma EndSendsAway(s: State, s': State, t: Tid)
    requires Step(s, s', t) && t != MAIN && t in s.pcs
    requires if s.pcs[t].Got? then s.pcs[t].v.End? else s.pcs[t].Ended? && MayAsk(t, s.pcs[t].mode)
    ensures t in s'.pcs && if s.pcs[t].Got? then s'.pcs[t].Ended? else s'.pcs[t].Idle?
  {
    hide Permitted, Stored, Noted, Accepts;
  }

  lemma GotEnd(s: State, t: Tid)
    requires Inv(s) && Content(s) == End && t in s.pcs
    ensures s.pcs[t].Got? ==> s.pcs[t].v.End?
    ensures s.pcs[t].Ended? ==> MayAsk(t, s.pcs[t].mode)
  {
    if s.pcs[t].Got? { ContentInHand(s, t); }
    assert Sensible(t, s.pcs[t]);
  }

  /** After the run has ended a thread under test that has taken something out of the cell has the end
      marker, and is outside the protocol two of its steps later. */
  lemma {:induction false} EndReleases(r: Run, j: nat, k: nat, t: Tid) returns (i: nat)
    requires IsRun(r) && j <= k < |r.states| && Content(r.states[j]) == End
    requires t != MAIN && t in r.states[j].pcs && (r.states[j].pcs[t].Got? || r.states[j].pcs[t].Ended?)
    ensures var n := if r.states[j].pcs[t].Got? then 2 else 1;
            StepsOf(r, t, j, k) >= n ==>
              j < i <= k && StepsOf(r, t, j, i) == n && t in r.states[i].pcs && r.states[i].pcs[t].Idle?
    decreases k - j
  {
    hide Inv, Step, Content;
    i := k;
    if j < k {
      AlwaysInv(r, j);
      EndIsForever(r, j, j + 1);
      GotEnd(r.states[j], t);
      if r.who[j] == t {
        EndSendsAway(r.states[j], r.states[j + 1], t);
      } else {
        OthersStay(r.states[j], r.states[j + 1], t, r.who[j]);
      }
      if r.who[j] == t && r.states[j].pcs[t].Ended? {
        i := j + 1;
      } else {
        i := EndReleases(r, j + 1, k, t);
      }
    }
  }

  lemma GoesOutside(s: State, s': State, t: Tid, u: Tid)
    requires Step(s, s', u) && t in s.pcs && t in s'.pcs && !s.pcs[t].Idle? && s'.pcs[t].Idle?
    ensures t == u && (s.pcs[t].Signal? || s.pcs[t].Ended? || (t == MAIN && Asks(s.pcs[t]) && s.pcs[t].mode.OnEmpty?))
  {
    hide Permitted, Stored, Noted, Accepts, MayAsk;
  }

  /** A thread goes outside the protocol only when it has released what it acquired, or has found that the
      run has ended; the script's thread also when it runs out of time. */
  lemma LeavesForAReason(r: Run, k: nat, t: Tid)
    requires IsRun(r) && k < |r.who| && t in r.states[k].pcs && t in r.states[k + 1].pcs
    requires !r.states[k].pcs[t].Idle? && r.states[k + 1].pcs[t].Idle?
    ensures var s := r.states[k];
            || s.pcs[t].Signal?
            || (s.pcs[t].Ended? && Content(s) == End && s.ends == 1)
            || (t == MAIN && Asks(s.pcs[t]) && s.pcs[t].mode.OnEmpty?)
  {
    hide Step, Asks;
    AlwaysInv(r, k);
    GoesOutside(r.states[k], r.states[k + 1], t, r.who[k]);
    assert ThreadExplained(r.states[k], r.states[k].pcs[t]);
  }

  /** Only a commit adds to the path, or to what the script has asked for. */
  lemma SamePath(s: State, s': State, t: Tid)
    requires Step(s, s', t) && !Commit(s, s', t)
    ensures s'.path == s.path && s'.issued == s.issued
  {
  }

  lemma CommitFacts(s: State, s': State, t: Tid)
    requires Inv(s) && (Commit(s, s', t) || EndPath(s, s', t))
    ensures t in s.pcs && Holding(s.pcs[t]) && t in s'.pcs && Holding(s'.pcs[t])
    ensures Content(s) == Hand(s.pcs[t]) && Content(s') == Hand(s'.pcs[t]) && Sensible(t, s.pcs[t])
  {
    ContentChange(s, s', t);
  }

  /** A thread under test consumes node n in this step. */
  ghost predicate Consumes(s: State, s': State, t: Tid, n: nat) {
    t != MAIN && Commit(s, s', t) && s.pcs[t].out == Add(n) && s'.path == s.path + [n]
  }

  /** A submitted node leaves only by one thread consuming it, or by the run ending. */
  lemma NodeLeaves(s: State, s': State, t: Tid, n: nat)
    requires Inv(s) && Step(s, s', t) && Content(s) == Node(n)
    ensures s'.issued == s.issued
    ensures || (Content(s') == Node(n) && s'.path == s.path)
            || (Content(s') == Empty && Consumes(s, s', t, n))
            || (Content(s') == End && s'.path == s.path)
  {
    hide Inv, Structure, Content, Step;
    StepKeeps(s, s', t);
    if !Commit(s, s', t) { SamePath(s, s', t); }
    if Commit(s, s', t) || EndPath(s, s', t) {
      CommitFacts(s, s', t);
    }
  }

  /** The script's thread has been told that the cell is empty: its call returns normally. */
  ghost predicate Returns(s: State) {
    MAIN in s.pcs && s.pcs[MAIN] == Hold(OnEmpty, Empty)
  }

  /** When the call that submitted node n returns normally, exactly that node was consumed since it
      was submitted, by one thread under test, in one step, and nothing else was added. */
  lemma {:induction false} ConsumedExactlyOnce(r: Run, j: nat, k: nat, n: nat) returns (c: nat)
    requires IsRun(r) && j <= k < |r.states|
    requires Content(r.states[j]) == Node(n) && Returns(r.states[k])
    requires r.states[k].issued == r.states[j].issued
    ensures j <= c < k && Consumes(r.states[c], r.states[c + 1], r.who[c], n)
    ensures r.states[c].path == r.states[j].path
    ensures r.states[k].path == r.states[j].path + [n]
    decreases k - j
  {
    hide Inv, Step, Returns;
    AlwaysInv(r, j);
    AlwaysInv(r, k);
    ReturnsEmpty(r.states[k]);
    NodeIsIssued(r.states[j], n);
    assert j < k;
    NodeLeaves(r.states[j], r.states[j + 1], r.who[j], n);
    if Content(r.states[j + 1]) == Node(n) {
      c := ConsumedExactlyOnce(r, j + 1, k, n);
    } else {
      c := j;
      if Content(r.states[j + 1]) == End {
        EndIsForever(r, j + 1, k);
      }
    }
  }

  lemma NodeIsIssued(s: State, n: nat)
    requires Inv(s) && Content(s) == Node(n)
    ensures s.issued == s.path + [n]
  {
  }

  lemma ReturnsEmpty(s: State)
    requires Inv(s) && Returns(s)
    ensures Content(s) == Empty && s.issued == s.path
  {
    ContentInHand(s, MAIN);
  }

  /** Whenever a call of the script returns normally, the path holds exactly the nodes that the
      script has asked for, in its order. */
  lemma PathIsScriptOrder(r: Run, k: nat)
    requires IsRun(r) && k < |r.states| && Returns(r.states[k])
    ensures r.states[k].path == r.states[k].issued && r.states[k].ends == 0
  {
    AlwaysInv(r, k);
    ReturnsEmpty(r.states[k]);
  }

  /** A thread inside the protocol can always take a step, unless it is at a closed gate, or a check
      of the script's thread fails when it finds that another thread has ended the run. */
  lemma CanStep(s: State, t: Tid) returns (s': State)
    requires Inv(s) && t in s.pcs && !s.pcs[t].Idle? && !(s.pcs[t].Wait? && s.sem == 0)
    ensures Step(s, s', t) || FindsBacktrack(s, s', t) || FindsNoMarker(s, s', t)
  {
    var pc := s.pcs[t];
    match pc
    case Try(mode, held) =>
      s' := s.(cell := Lock, pcs := s.pcs[t := if s.cell.Lock? then Saw(mode, held) else Got(mode, s.cell)]);
      assert Exchange(s, s', t);
    case Saw(mode, held) =>
      s' := s.(pcs := s.pcs[t := if s.owner != Thread(t) then Try(mode, held)
                                 else if mode.ToRaise? && held.Holds? then Hold(mode, held.v)
                                 else Crash]);
      assert LookAtOwner(s, s', t);
    case Got(mode, v) =>
      if v.End? || !Accepts(mode, v) {
        s' := s.(cell := v, pcs := s.pcs[t := if v.End? then Ended(mode) else Wait(mode)]);
        assert PutBack(s, s', t);
      } else {
        s' := s.(owner := Thread(t), pcs := s.pcs[t := if s.owner.Nobody? then Hold(mode, v) else Crash]);
        assert TakeLock(s, s', t);
      }
    case Ended(mode) =>
      s' := CanLeave(s, t);
    case Wait(mode) =>
      s' := s.(sem := s.sem - 1, pcs := s.pcs[t := Resignal(mode)]);
      assert PassGate(s, s', t);
    case Resignal(mode) =>
      s' := s.(sem := s.sem + 1, pcs := s.pcs[t := Try(mode, Nothing)]);
      assert ReopenGate(s, s', t);
    case Hold(mode, v) =>
      if mode == ToEnd && v != End {
        s' := s.(ends := s.ends + 1, over := true, pcs := s.pcs[t := Hold(ToEnd, End)]);
        assert EndPath(s, s', t);
      } else if mode.ToRaise? && s.recorded.NoException? {
        s' := s.(recorded := Noted(s.recorded, mode.backtrack));
        assert Note(s, s', t);
      } else {
        var out := if mode.ToRaise? then Finish else Back(v);
        assert Permitted(t, mode, v, out);
        s' := s.(pcs := s.pcs[t := Release(v, out)]);
        assert Moves(s, s', t, Release(v, out));
        assert StartRelease(s, s', t);
      }
    case Release(v, out) =>
      s' := s.(owner := Nobody,
               pcs := s.pcs[t := if s.owner == Thread(t) && s.cell.Lock? then Unlocked(v, out) else Crash]);
      assert ClearOwner(s, s', t);
    case Unlocked(v, out) =>
      s' := s.(path := if out.Add? then s.path + [out.n] else s.path,
               ends := if out.Finish? then s.ends + 1 else s.ends,
               issued := if t == MAIN && out.Add? then s.issued + [out.n]
                         else if t == MAIN && out.Back? && out.w.Node? then s.issued + [out.w.id]
                         else s.issued,
               pcs := s.pcs[t := Committed(out)]);
      assert Commit(s, s', t);
    case Committed(out) =>
      s' := s.(cell := Stored(out), pcs := s.pcs[t := Signal]);
      assert Store(s, s', t);
    case Signal =>
      s' := s.(sem := s.sem + 1, releases := s.releases + 1, pcs := s.pcs[t := Idle]);
      assert OpenGate(s, s', t);
  }

  lemma CanLeave(s: State, t: Tid) returns (s': State)
    requires Inv(s) && t in s.pcs && s.pcs[t].Ended?
    ensures Leave(s, s', t) || FindsBacktrack(s, s', t) || FindsNoMarker(s, s', t)
  {
    var mode := s.pcs[t].mode;
    if Asks(s.pcs[t]) { EndIsExplained(s, t); }
    if mode.ToRaise? {
      s' := s.(recorded := Noted(s.recorded, mode.backtrack), pcs := s.pcs[t := Idle]);
    } else if mode.ToEnd? && (s.recorded.backtrack || !s.cell.End?) {
      s' := s.(pcs := s.pcs[t := Crash]);
    } else {
      s' := s.(pcs := s.pcs[t := Idle]);
    }
  }

  /** Tokens at the gate and threads in passing are as many as the releases.  So after the first
      release nobody is stranded: the gate is open, or a thread in passing is about to open it. */
  lemma NobodyStranded(r: Run, k: nat)
    requires IsRun(r) && k < |r.states|
    ensures var s := r.states[k];
            && s.sem + |InGate(s)| == s.releases
            && (s.releases > 0 ==> s.sem > 0 || exists t, s' :: t in s.pcs && ReopenGate(s, s', t) && s'.sem > 0)
  {
    AlwaysInv(r, k);
    var s := r.states[k];
    if s.releases > 0 && s.sem == 0 {
      assert InGate(s) != {};
      var t :| t in InGate(s);
      var s' := s.(sem := s.sem + 1, pcs := s.pcs[t := Try(s.pcs[t].mode, Nothing)]);
      assert ReopenGate(s, s', t);
    }
  }

  // ---------------------------------------------------------------- what the history says

  /** The nodes that a release submits or adds. */
  function NodesOf(out: Out): seq<nat> {
    match out
    case Add(n) => [n]
    case Back(w) => if w.Node? then [w.id] else []
    case Finish => []
  }

  /** The script's thread decides on its release. */
  ghost predicate Decides(s: State, s': State, t: Tid) {
    t == MAIN && t in s.pcs && s.pcs[t].Hold? && t in s'.pcs && s'.pcs[t].Release?
  }

  /** The nodes that the script's thread has decided to submit or to add, in its order. */
  ghost function Requested(r: Run, k: nat): seq<nat>
    requires k <= |r.who| < |r.states|
  {
    if k == 0 then []
    else
      var s, s', t := r.states[k - 1], r.states[k], r.who[k - 1];
      Requested(r, k - 1) + if Decides(s, s', t) then NodesOf(s'.pcs[t].out) else []
  }

  /** The one that has not taken effect yet. */
  ghost function Undone(s: State): seq<nat> {
    if MAIN in s.pcs && (s.pcs[MAIN].Release? || s.pcs[MAIN].Unlocked?) then NodesOf(s.pcs[MAIN].out) else []
  }

  /** What a decision asks for is undone until it is committed. */
  ghost predicate RequestsAdd(s: State, s': State, t: Tid) {
    s'.issued + Undone(s') == s.issued + Undone(s) + if Decides(s, s', t) then NodesOf(s'.pcs[t].out) else []
  }

  lemma QuietRequests(s: State, s': State, t: Tid)
    requires Quiet(s, s', t)
    ensures RequestsAdd(s, s', t)
  {
    hide Permitted, MayAsk, Noted;
  }

  lemma MovingRequests(s: State, s': State, t: Tid)
    requires Moving(s, s', t) && t in s'.pcs && !s'.pcs[t].Crash?
    ensures RequestsAdd(s, s', t)
  {
    hide Accepts, Stored;
  }

  lemma CommitRequests(s: State, s': State, t: Tid)
    requires Commit(s, s', t)
    ensures RequestsAdd(s, s', t)
  {
    if t == MAIN {
      assert s'.issued == s.issued + NodesOf(s.pcs[t].out);
      assert Undone(s) == NodesOf(s.pcs[t].out) && Undone(s') == [];
    }
  }

  lemma EndingRequests(s: State, s': State, t: Tid)
    requires EndPath(s, s', t) || Leave(s, s', t)
    ensures RequestsAdd(s, s', t)
  {
    hide Noted;
  }

  lemma StepRequests(s: State, s': State, t: Tid)
    requires Step(s, s', t) && t in s'.pcs && !s'.pcs[t].Crash?
    ensures RequestsAdd(s, s', t)
  {
    hide Quiet, Moving, Commit, EndPath, Leave, RequestsAdd;
    if Quiet(s, s', t) {
      QuietRequests(s, s', t);
    } else if Moving(s, s', t) {
      MovingRequests(s, s', t);
    } else if Commit(s, s', t) {
      CommitRequests(s, s', t);
    } else {
      EndingRequests(s, s', t);
    }
  }

  lemma NoCrash(s: State, s': State, t: Tid)
    requires Step(s, s', t) && Inv(s')
    ensures t in s'.pcs && !s'.pcs[t].Crash?
  {
    hide Content, History, Tokens, Explained, OneHolder, Permitted, Accepts;
    assert t in s'.pcs;
    assert Sensible(t, s'.pcs[t]);
  }

  /** What counts as asked for is what the script's thread has decided on, in its order. */
  lemma {:induction false} IssuedIsRequested(r: Run, k: nat)
    requires IsRun(r) && k < |r.states|
    ensures r.states[k].issued + Undone(r.states[k]) == Requested(r, k)
  {
    hide Inv, Step, Decides, Undone;
    if k == 0 {
      NothingUndone(r.states[0]);
    } else {
      IssuedIsRequested(r, k - 1);
      AlwaysInv(r, k);
      NoCrash(r.states[k - 1], r.states[k], r.who[k - 1]);
      StepRequests(r.states[k - 1], r.states[k], r.who[k - 1]);
    }
  }

  lemma NothingUndone(s: State)
    requires Init(s)
    ensures Undone(s) == [] && s.issued == []
  {
  }

  /** So whenever a call of the script returns normally the path is what it decided on, in its order. */
  lemma PathIsRequested(r: Run, k: nat)
    requires IsRun(r) && k < |r.states| && Returns(r.states[k])
    ensures r.states[k].path == Requested(r, k)
  {
    PathIsScriptOrder(r, k);
    IssuedIsRequested(r, k);
  }

  ghost function Signallers(s: State): set<Tid> {
    set t | t in s.pcs && s.pcs[t].Signal?
  }

  /** A release has put its content into the cell. */
  ghost predicate Stores(s: State, s': State, t: Tid) {
    t in s.pcs && s.pcs[t].Committed? && t in s'.pcs && !s'.pcs[t].Committed?
  }

  ghost function Releases(r: Run, k: nat): nat
    requires k <= |r.who| < |r.states|
  {
    if k == 0 then 0
    else Releases(r, k - 1) + if Stores(r.states[k - 1], r.states[k], r.who[k - 1]) then 1 else 0
  }

  lemma SameSignallers(s: State, s': State, t: Tid)
    requires t in s.pcs && t in s'.pcs && s'.pcs == s.pcs[t := s'.pcs[t]]
    requires s.pcs[t].Signal? <==> s'.pcs[t].Signal?
    ensures Signallers(s') == Signallers(s)
  {
  }

  /** A step that is no store and does not open the gate leaves the signalling threads alone. */
  lemma OtherReleases(s: State, s': State, t: Tid)
    requires Step(s, s', t) && !Store(s, s', t) && !OpenGate(s, s', t)
    ensures t in s.pcs && t in s'.pcs && s'.pcs == s.pcs[t := s'.pcs[t]] && s'.releases == s.releases
    ensures !s.pcs[t].Signal? && !s'.pcs[t].Signal? && !Stores(s, s', t)
  {
    hide Permitted, Accepts, Stored, Noted, MayAsk;
  }

  lemma StepReleases(s: State, s': State, t: Tid)
    requires Step(s, s', t)
    ensures s'.releases + |Signallers(s')| == s.releases + |Signallers(s)| + if Stores(s, s', t) then 1 else 0
  {
    hide Step;
    if Store(s, s', t) {
      assert Signallers(s') == Signallers(s) + {t};
    } else if OpenGate(s, s', t) {
      assert Signallers(s') == Signallers(s) - {t};
    } else {
      OtherReleases(s, s', t);
      SameSignallers(s, s', t);
    }
  }

  /** Every release opens the gate, once: those that have put their content into the cell have opened
      it, or are about to. */
  lemma {:induction false} EveryReleaseSignals(r: Run, k: nat)
    requires IsRun(r) && k < |r.states|
    ensures r.states[k].releases + |Signallers(r.states[k])| == Releases(r, k)
  {
    hide Step, Stores;
    if k == 0 {
      assert Signallers(r.states[0]) == {};
    } else {
      EveryReleaseSignals(r, k - 1);
      StepReleases(r.states[k - 1], r.states[k], r.who[k - 1]);
    }
  }

  // ---------------------------------------------------------------- when a check does fail

  /** The script's thread asks for the lock to end the run, finds it taken, and runs out of time.
      The program expects nothing but an exception there, and its check fails. */
  ghost predicate LateEnding(s: State, s': State, t: Tid) {
    && t == MAIN && t in s.pcs && s.pcs[t].Saw? && s.pcs[t].mode == ToEnd && s.owner != Thread(t)
    && Moves(s, s', t, Crash)
  }

  /** It finds that another thread has ended the run meanwhile, with a backtrack.  This is thrown
      again, and the same check fails. */
  ghost predicate FindsBacktrack(s: State, s': State, t: Tid) {
    && t == MAIN && t in s.pcs && s.pcs[t] == Ended(ToEnd) && s.recorded == Exception(true)
    && Moves(s, s', t, Crash)
  }

  /** It finds that another thread has ended the run with another exception, and checks that the end
      marker is still in the cell, just when another thread has taken it out to look at it. */
  ghost predicate FindsNoMarker(s: State, s': State, t: Tid) {
    && t == MAIN && t in s.pcs && s.pcs[t] == Ended(ToEnd) && s.recorded == Exception(false) && s.cell.Lock?
    && Moves(s, s', t, Crash)
  }

  ghost predicate Fails(s: State, s': State, t: Tid) {
    LateEnding(s, s', t) || FindsBacktrack(s, s', t) || FindsNoMarker(s, s', t)
  }

  /** A run in which these checks may fail. */
  ghost predicate IsAnyRun(r: Run) {
    && |r.states| == |r.who| + 1 && Init(r.states[0])
    && forall k :: 0 <= k < |r.who| ==>
         Step(r.states[k], r.states[k + 1], r.who[k]) || Fails(r.states[k], r.states[k + 1], r.who[k])
  }

  ghost predicate FailedBefore(r: Run, k: nat)
    requires IsAnyRun(r) && k < |r.states|
  {
    exists j :: 0 <= j < k && Fails(r.states[j], r.states[j + 1], r.who[j])
  }

  ghost predicate SomeFailed(s: State) {
    exists t :: t in s.pcs && s.pcs[t].Crash?
  }

  lemma FailureStays(s: State, s': State, t: Tid)
    requires Step(s, s', t) || Fails(s, s', t)
    requires MAIN in s.pcs && s.pcs[MAIN].Crash?
    ensures MAIN in s'.pcs && s'.pcs[MAIN].Crash?
  {
    assert t != MAIN;
  }

  lemma {:induction false} FailureFollows(r: Run, j: nat, k: nat)
    requires IsAnyRun(r) && j < k < |r.states| && Fails(r.states[j], r.states[j + 1], r.who[j])
    ensures MAIN in r.states[k].pcs && r.states[k].pcs[MAIN].Crash?
  {
    if j + 1 < k {
      FailureFollows(r, j, k - 1);
      FailureStays(r.states[k - 1], r.states[k], r.who[k - 1]);
    }
  }

  /** A check has failed exactly when the script's thread, asking for the lock in order to end the
      run, has run out of time, or has found that another thread had ended the run with a backtrack,
      or with another exception while the end marker was being looked at. */
  lemma FailsExactly(r: Run, k: nat)
    requires IsAnyRun(r) && k < |r.states|
    ensures SomeFailed(r.states[k]) <==> FailedBefore(r, k)
  {
    if j :| 0 <= j < k && Fails(r.states[j], r.states[j + 1], r.who[j]) {
      FailureFollows(r, j, k);
    } else {
      InvUntilFailure(r, k);
      var s := r.states[k];
      assert forall t :: t in s.pcs ==> Sensible(t, s.pcs[t]);
    }
  }

  lemma InvUntilFailure(r: Run, k: nat)
    requires IsAnyRun(r) && k < |r.states| && !FailedBefore(r, k)
    ensures Inv(r.states[k])
  {
    var start := Run(r.states[..k + 1], r.who[..k]);
    AlwaysInv(start, k);
    assert start.states[k] == r.states[k];
  }

  /** Lock safety, in every state of every run until a check fails, which ends the program. */
  lemma LockSafety(r: Run, k: nat, t: Tid, u: Tid)
    requires IsAnyRun(r) && k < |r.states|
    ensures SomeFailed(r.states[k]) || LockSafe(r.states[k], t, u)
  {
    FailsExactly(r, k);
    if !FailedBefore(r, k) { InvUntilFailure(r, k); }
  }

  // ---------------------------------------------------------------- all three do happen

  /** Nothing has happened yet in a run with two threads under test. */
  function AtFirst(): State {
    State(Empty, Nobody, 0, map[0 := Idle, 1 := Idle, 2 := Idle], [], 0, [], 0, NoException, false)
  }

  /** Another thread has the lock all the while. */
  lemma EndingCanBeLate() returns (r: Run)
    ensures IsAnyRun(r) && |r.who| > 0 && SomeFailed(r.states[|r.who|])
    ensures LateEnding(r.states[|r.who| - 1], r.states[|r.who|], r.who[|r.who| - 1])
  {
    var s0 := AtFirst();
    var s1 := s0.(pcs := s0.pcs[1 := Try(ToRaise(false), Nothing)]);
    var s2 := s1.(cell := Lock, pcs := s1.pcs[1 := Got(ToRaise(false), Empty)]);
    var s3 := s2.(pcs := s2.pcs[0 := Try(ToEnd, Nothing)]);
    var s4 := s3.(cell := Lock, pcs := s3.pcs[0 := Saw(ToEnd, Nothing)]);
    var s5 := s4.(pcs := s4.pcs[0 := Crash]);
    assert Asked(s0, s1, 1, Try(ToRaise(false), Nothing)) && Start(s0, s1, 1);
    assert Exchange(s1, s2, 1);
    assert Asked(s2, s3, 0, Try(ToEnd, Nothing)) && Start(s2, s3, 0);
    assert Exchange(s3, s4, 0) && LateEnding(s4, s5, 0);
    r := Run([s0, s1, s2, s3, s4, s5], [1, 1, 0, 0, 0]);
    assert s5.pcs[0].Crash?;
  }

  function Then(r: Run, s: State, t: Tid): Run {
    Run(r.states + [s], r.who + [t])
  }

  lemma OneMoreStep(r: Run, s: State, t: Tid)
    requires IsRun(r) && Step(r.states[|r.who|], s, t)
    ensures IsRun(Then(r, s, t)) && Then(r, s, t).states[|r.who| + 1] == s
  {
  }

  lemma OneMoreFailure(r: Run, s: State, t: Tid)
    requires IsRun(r) && Fails(r.states[|r.who|], s, t) && t in s.pcs && s.pcs[t].Crash?
    ensures var r' := Then(r, s, t); IsAnyRun(r') && SomeFailed(r'.states[|r'.who|])
  {
  }

  /** The first thread under test raises an exception, which may be a backtrack. */
  lemma RaisesException(backtrack: bool) returns (r: Run)
    ensures IsRun(r)
    ensures r.states[|r.who|] == AtFirst().(cell := Lock, owner := Thread(1), recorded := Exception(backtrack),
                                            pcs := AtFirst().pcs[1 := Release(Empty, Finish)])
  {
    hide IsRun;
    var mode := ToRaise(backtrack);
    var s0, pcs := AtFirst(), AtFirst().pcs;
    var s1 := s0.(pcs := pcs[1 := Try(mode, Nothing)]);
    var s2 := s0.(cell := Lock, pcs := pcs[1 := Got(mode, Empty)]);
    var s3 := s2.(owner := Thread(1), pcs := pcs[1 := Hold(mode, Empty)]);
    var s4 := s3.(recorded := Exception(backtrack));
    var s5 := s4.(pcs := pcs[1 := Release(Empty, Finish)]);
    assert Asked(s0, s1, 1, Try(mode, Nothing)) && Start(s0, s1, 1);
    OneMoreStep(Run([s0], []), s1, 1);
    assert Exchange(s1, s2, 1) && TakeLock(s2, s3, 1) && Note(s3, s4, 1);
    assert Permitted(1, mode, Empty, Finish) && Moves(s4, s5, 1, Release(Empty, Finish)) && StartRelease(s4, s5, 1);
    r := Then(Run([s0], []), s1, 1);
    OneMoreStep(r, s2, 1);
    r := Then(r, s2, 1);
    OneMoreStep(r, s3, 1);
    r := Then(r, s3, 1);
    OneMoreStep(r, s4, 1);
    r := Then(r, s4, 1);
    OneMoreStep(r, s5, 1);
    r := Then(r, s5, 1);
  }

  /** It ends the run with it. */
  lemma EndsByException(backtrack: bool) returns (r: Run)
    ensures IsRun(r)
    ensures r.states[|r.who|] == AtFirst().(cell := End, sem := 1, releases := 1, ends := 1,
                                            recorded := Exception(backtrack))
  {
    r := RaisesException(backtrack);
    var s0, pcs := r.states[|r.who|], AtFirst().pcs;
    var s1 := s0.(owner := Nobody, pcs := pcs[1 := Unlocked(Empty, Finish)]);
    var s2 := s1.(ends := 1, pcs := pcs[1 := Committed(Finish)]);
    var s3 := s2.(cell := End, pcs := pcs[1 := Signal]);
    var s4 := s3.(sem := 1, releases := 1, pcs := pcs[1 := Idle]);
    assert ClearOwner(s0, s1, 1) && Commit(s1, s2, 1) && Store(s2, s3, 1) && OpenGate(s3, s4, 1);
    OneMoreStep(r, s1, 1);
    r := Then(r, s1, 1);
    OneMoreStep(r, s2, 1);
    r := Then(r, s2, 1);
    OneMoreStep(r, s3, 1);
    r := Then(r, s3, 1);
    OneMoreStep(r, s4, 1);
    r := Then(r, s4, 1);
    assert pcs[1 := Idle] == pcs;
  }

  /** The script's thread finds the end marker when it ends the run. */
  lemma FindsEnd(backtrack: bool) returns (r: Run)
    ensures IsRun(r)
    ensures r.states[|r.who|] == AtFirst().(cell := End, sem := 1, releases := 1, ends := 1,
                                            recorded := Exception(backtrack), pcs := AtFirst().pcs[0 := Ended(ToEnd)])
  {
    r := EndsByException(backtrack);
    var s0, pcs := r.states[|r.who|], AtFirst().pcs;
    var s1 := s0.(pcs := pcs[0 := Try(ToEnd, Nothing)]);
    var s2 := s1.(cell := Lock, pcs := pcs[0 := Got(ToEnd, End)]);
    var s3 := s2.(cell := End, pcs := pcs[0 := Ended(ToEnd)]);
    assert Asked(s0, s1, 0, Try(ToEnd, Nothing)) && Start(s0, s1, 0) && Exchange(s1, s2, 0) && PutBack(s2, s3, 0);
    OneMoreStep(r, s1, 0);
    r := Then(r, s1, 0);
    OneMoreStep(r, s2, 0);
    r := Then(r, s2, 0);
    OneMoreStep(r, s3, 0);
    r := Then(r, s3, 0);
  }

  /** Another thread ends the run with a backtrack before the script's thread does. */
  lemma EndingCanFindBacktrack() returns (r: Run)
    ensures IsAnyRun(r) && |r.who| > 0 && SomeFailed(r.states[|r.who|])
    ensures FindsBacktrack(r.states[|r.who| - 1], r.states[|r.who|], r.who[|r.who| - 1])
  {
    r := FindsEnd(true);
    var s := r.states[|r.who|];
    var s' := s.(pcs := s.pcs[0 := Crash]);
    OneMoreFailure(r, s', 0);
    r := Then(r, s', 0);
  }

  /** A third thread looks at the end marker just when the script's thread checks that it is there. */
  lemma EndingCanMissTheMarker() returns (r: Run)
    ensures IsAnyRun(r) && |r.who| > 0 && SomeFailed(r.states[|r.who|])
    ensures FindsNoMarker(r.states[|r.who| - 1], r.states[|r.who|], r.who[|r.who| - 1])
  {
    r := FindsEnd(false);
    var s := r.states[|r.who|];
    var s1 := s.(pcs := s.pcs[2 := Try(OnFull, Nothing)]);
    var s2 := s1.(cell := Lock, pcs := s.pcs[2 := Got(OnFull, End)]);
    var s3 := s2.(pcs := s2.pcs[0 := Crash]);
    assert Asked(s, s1, 2, Try(OnFull, Nothing)) && Start(s, s1, 2) && Exchange(s1, s2, 2);
    OneMoreStep(r, s1, 2);
    r := Then(r, s1, 2);
    OneMoreStep(r, s2, 2);
    r := Then(r, s2, 2);
    OneMoreFailure(r, s3, 0);
    r := Then(r, s3, 0);
  }
}
