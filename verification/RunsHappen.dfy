/** The converse of ConcurrentRuns: every run of the reference search, for any oracles, is made by some
    interleaving of the script's thread with threads under test.  One thread takes all turns here. */
module RunsHappen {
  import opened ConcurrentRuns
  import H = HandOff
  import opened Scripts
  import opened SearchSpec

  const OTHER: H.Tid := 1

  function Then(r: Run, c: State, t: H.Tid): Run {
    Run(r.states + [c], r.who + [t])
  }

  lemma {:induction false} OneMoreStep(u: Setup, r: Run, c: State, t: H.Tid)
    requires IsRun(u, r) && OneStep(u, Last(r), c, t)
    ensures IsRun(u, Then(r, c, t)) && Last(Then(r, c, t)) == c
  {
    hide OneStep;
  }

  /** Nobody is inside the protocol, and the run has not ended. */
  ghost predicate Resting(s: H.State) {
    && H.MAIN in s.pcs && OTHER in s.pcs && (forall t :: t in s.pcs ==> s.pcs[t].Idle?)
    && s.owner.Nobody? && !s.cell.Lock? && !s.cell.End? && !s.over && s.ends == 0 && s.recorded.NoException?
  }

  /** The state after a thread has taken the content, released it in this way, and opened the gate. */
  function AfterTurn(s: H.State, t: H.Tid, out: H.Out): H.State
    requires !out.Finish?
  {
    s.(cell := H.Stored(out), sem := s.sem + 1, releases := s.releases + 1,
       path := if out.Add? then s.path + [out.n] else s.path,
       issued := if t == H.MAIN && out.Add? then s.issued + [out.n]
                 else if t == H.MAIN && out.Back? && out.w.Node? then s.issued + [out.w.id]
                 else s.issued)
  }

  /** The thread takes the content. */
  lemma {:induction false} TakesContent(u: Setup, r: Run, t: H.Tid, mode: H.Mode) returns (r': Run)
    requires IsRun(u, r) && Resting(Last(r).s) && t in Last(r).s.pcs
    requires H.MayAsk(t, mode) && !mode.ToRaise? && H.Accepts(mode, Last(r).s.cell)
    ensures IsRun(u, r')
    ensures var s := Last(r).s;
            Last(r') == Last(r).(s := s.(cell := H.Lock, owner := H.Thread(t), pcs := s.pcs[t := H.Hold(mode, s.cell)]))
  {
    hide IsRun;
    var c, s := Last(r), Last(r).s;
    var c1 := c.(s := s.(pcs := s.pcs[t := H.Try(mode, H.Nothing)]));
    var c2 := c.(s := s.(cell := H.Lock, pcs := s.pcs[t := H.Got(mode, s.cell)]));
    var c3 := c.(s := s.(cell := H.Lock, owner := H.Thread(t), pcs := s.pcs[t := H.Hold(mode, s.cell)]));
    assert H.Asked(c.s, c1.s, t, H.Try(mode, H.Nothing)) && H.Start(c.s, c1.s, t);
    OneMoreStep(u, r, c1, t);
    r' := Then(r, c1, t);
    assert H.Exchange(c1.s, c2.s, t);
    OneMoreStep(u, r', c2, t);
    r' := Then(r', c2, t);
    assert H.TakeLock(c2.s, c3.s, t);
    OneMoreStep(u, r', c3, t);
    r' := Then(r', c3, t);
  }

  /** The thread releases it, up to the moment at which this takes effect. */
  lemma {:induction false} AboutToCommit(u: Setup, r: Run, t: H.Tid, s: H.State, out: H.Out) returns (r': Run)
    requires IsRun(u, r) && t in s.pcs && !out.Finish? && Last(r).s == s && s.pcs[t].Hold?
    requires s.cell == H.Lock && s.owner == H.Thread(t) && H.Permitted(t, s.pcs[t].mode, s.pcs[t].v, out)
    ensures IsRun(u, r')
    ensures Last(r') == Last(r).(s := s.(owner := H.Nobody, pcs := s.pcs[t := H.Unlocked(s.pcs[t].v, out)]))
  {
    hide IsRun;
    var c, v := Last(r), s.pcs[t].v;
    var c1 := c.(s := s.(pcs := s.pcs[t := H.Release(v, out)]));
    var c2 := c.(s := s.(owner := H.Nobody, pcs := s.pcs[t := H.Unlocked(v, out)]));
    assert H.Moves(c.s, c1.s, t, H.Release(v, out)) && H.StartRelease(c.s, c1.s, t);
    OneMoreStep(u, r, c1, t);
    r' := Then(r, c1, t);
    assert H.ClearOwner(c1.s, c2.s, t);
    OneMoreStep(u, r', c2, t);
    r' := Then(r', c2, t);
  }

  /** It takes effect, and the gate is opened. */
  lemma {:induction false} CommitsAndLeaves(u: Setup, r: Run, t: H.Tid, s: H.State, v: H.Ref, out: H.Out, p: Path,
                                            seen: map<Path, seq<Arrival>>)
    returns (r': Run)
    requires IsRun(u, r) && t in s.pcs && s.pcs[t].Idle? && !out.Finish?
    requires Last(r).s == s.(cell := H.Lock, pcs := s.pcs[t := H.Unlocked(v, out)])
    requires Commits(u, Last(r), State(Committed(s, t, out), p, seen), t, out)
    ensures IsRun(u, r') && Last(r') == State(AfterTurn(s, t, out), p, seen)
  {
    hide IsRun, Commits;
    var c := Last(r);
    var c1, c3 := State(Committed(s, t, out), p, seen), State(AfterTurn(s, t, out), p, seen);
    var c2 := c1.(s := c1.s.(cell := H.Stored(out), pcs := s.pcs[t := H.Signal]));
    assert H.Commit(c.s, c1.s, t);
    OneMoreStep(u, r, c1, t);
    r' := Then(r, c1, t);
    assert H.Store(c1.s, c2.s, t);
    OneMoreStep(u, r', c2, t);
    r' := Then(r', c2, t);
    assert s.pcs[t := H.Idle] == s.pcs;
    assert H.OpenGate(c2.s, c3.s, t);
    OneMoreStep(u, r', c3, t);
    r' := Then(r', c3, t);
  }

  function Committed(s: H.State, t: H.Tid, out: H.Out): H.State
    requires !out.Finish?
  {
    var s' := AfterTurn(s, t, out);
    s.(cell := H.Lock, path := s'.path, issued := s'.issued, pcs := s.pcs[t := H.Committed(out)])
  }

  /** A whole turn of one thread, while all others rest. */
  lemma {:induction false} Turn(u: Setup, r: Run, t: H.Tid, out: H.Out, p: Path, seen: map<Path, seq<Arrival>>)
    returns (r': Run)
    requires IsRun(u, r) && Resting(Last(r).s) && t in Last(r).s.pcs && !out.Finish?
    requires var mode := if t == H.MAIN then H.OnEmpty else H.OnFull;
             H.Accepts(mode, Last(r).s.cell) && H.Permitted(t, mode, Last(r).s.cell, out)
    requires forall s ::
               Commits(u, State(s, Last(r).p, Last(r).seen), State(Committed(Last(r).s, t, out), p, seen), t, out)
    ensures IsRun(u, r') && Last(r') == State(AfterTurn(Last(r).s, t, out), p, seen)
  {
    hide IsRun, Commits, H.Permitted;
    var s := Last(r).s;
    r' := TakesContent(u, r, t, if t == H.MAIN then H.OnEmpty else H.OnFull);
    r' := AboutToCommit(u, r', t, Last(r').s, out);
    assert s.pcs[t := Last(r').s.pcs[t]] == Last(r').s.pcs;
    r' := CommitsAndLeaves(u, r', t, s, s.cell, out, p, seen);
  }

  /** The script's thread ends the run. */
  lemma {:induction false} EndTurn(u: Setup, r: Run) returns (r': Run)
    requires IsRun(u, r) && Resting(Last(r).s)
    ensures IsRun(u, r') && Last(r').s.cell.End? && Last(r').p == Last(r).p && Last(r').seen == Last(r).seen
  {
    hide IsRun;
    var s, t := Last(r).s, H.MAIN;
    r' := TakesContent(u, r, t, H.ToEnd);
    var c := Last(r');
    var s' := s.(ends := 1, over := true);
    var c' := c.(s := s'.(cell := H.Lock, owner := H.Thread(t), pcs := s.pcs[t := H.Hold(H.ToEnd, H.End)]));
    assert H.EndPath(c.s, c'.s, t);
    OneMoreStep(u, r', c', t);
    r' := Then(r', c', t);
    r' := AboutToCommit(u, r', t, c'.s, H.Back(H.End));
    r' := CommitsAndLeaves(u, r', t, s', H.End, H.Back(H.End), c.p, c.seen);
  }

  // ---------------------------------------------------------------- the calls

  /** What a reference run starts with, and its random bits. */
  ghost function SetupFor(env: Env, run: nat, explored: set<Path>, saved: Path, flagged: bool): Setup {
    Setup(env.script, (p: Path) => env.coin(run, p), explored, saved, flagged)
  }

  /** Between calls: the cell is empty, and nobody has come to the present node. */
  ghost predicate Ready(u: Setup, r: Run) {
    && IsRun(u, r) && Resting(Last(r).s) && Last(r).s.cell.Empty?
    && forall q :: q in Last(r).seen ==> |q| < |Last(r).p|
  }

  /** A star or a conditional. */
  lemma {:induction false} AddHappens(u: Setup, r: Run, l: nat) returns (r': Run)
    requires Ready(u, r) && Calls(u, Last(r).p)
    requires At(u.script, Last(r).p).kind.Star? || At(u.script, Last(r).p).kind.Conditional?
    requires ReplyTo(u, Last(r).seen, Last(r).p) == Answer(l)
    ensures Ready(u, r') && Last(r').p == Last(r).p + [l]
  {
    hide ReplyTo;
    var c := Last(r);
    r' := Turn(u, r, H.MAIN, H.Add(0), c.p + [l], c.seen);
  }

  lemma {:induction false} SubmitHappens(u: Setup, r: Run) returns (r': Run)
    requires Ready(u, r) && Calls(u, Last(r).p)
    requires At(u.script, Last(r).p).kind.Transition? || At(u.script, Last(r).p).kind.Forall?
    requires !ReplyTo(u, Last(r).seen, Last(r).p).Fails?
    ensures IsRun(u, r') && Resting(Last(r').s) && Last(r').s.cell == H.Node(0)
    ensures Last(r').p == Last(r).p && Last(r').seen == Last(r).seen
  {
    hide ReplyTo;
    var c := Last(r);
    r' := Turn(u, r, H.MAIN, H.Back(H.Node(0)), c.p, c.seen);
  }

  lemma {:induction false} TransitionHappens(u: Setup, r: Run) returns (r': Run)
    requires Ready(u, r) && Calls(u, Last(r).p) && At(u.script, Last(r).p).kind.Transition?
    requires !ReplyTo(u, Last(r).seen, Last(r).p).Fails?
    ensures Ready(u, r') && Last(r').p == Last(r).p + [0]
  {
    hide ReplyTo;
    r' := SubmitHappens(u, r);
    var c := Last(r');
    r' := Turn(u, r', OTHER, H.Add(0), c.p + [0], c.seen);
  }

  /** The thread that takes the submitted forall node. */
  lemma {:induction false} TakeHappens(u: Setup, r: Run, v: nat) returns (r': Run)
    requires IsRun(u, r) && Resting(Last(r).s) && Last(r).s.cell == H.Node(0)
    requires Calls(u, Last(r).p) && At(u.script, Last(r).p).kind.Forall? && Takes(u, Last(r).p, Arrival(v, true))
    requires forall q :: q in Last(r).seen ==> |q| <= |Last(r).p|
    ensures Ready(u, r') && Last(r').p == Last(r).p + [v]
  {
    hide Takes;
    var c := Last(r);
    var seen := c.seen[c.p := Seen(c.seen, c.p) + [Arrival(v, true)]];
    r' := Turn(u, r, OTHER, H.Add(0), c.p + [v], seen);
  }

  /** Threads come to the submitted forall node until one takes it. */
  lemma {:induction false} OffersHappen(u: Setup, r: Run, arriving: seq<Arrival>) returns (r': Run)
    requires IsRun(u, r) && Resting(Last(r).s) && Last(r).s.cell == H.Node(0)
    requires Calls(u, Last(r).p) && At(u.script, Last(r).p).kind.Forall? && |u.saved| <= |Last(r).p|
    requires forall q :: q in Last(r).seen ==> |q| <= |Last(r).p|
    requires exists a :: a in arriving && Takes(u, Last(r).p, a)
    ensures Ready(u, r')
    ensures var p := Last(r).p;
            Last(r').p == p + [FirstUncovered(u.script, u.explored, p, |At(u.script, p).next|, arriving)]
    decreases |arriving|
  {
    var c, a := Last(r), arriving[0];
    if Takes(u, c.p, a) {
      r' := TakeHappens(u, r, a.thread);
    } else {
      var seen := c.seen[c.p := Seen(c.seen, c.p) + [a]];
      r' := RefusalHappens(u, r, a);
      r' := OffersHappen(u, r', arriving[1..]);
    }
  }

  lemma {:induction false} RefusalHappens(u: Setup, r: Run, a: Arrival) returns (r': Run)
    requires IsRun(u, r) && Resting(Last(r).s) && Last(r).s.cell == H.Node(0)
    requires Calls(u, Last(r).p) && At(u.script, Last(r).p).kind.Forall? && !Takes(u, Last(r).p, a)
    requires forall q :: q in Last(r).seen ==> |q| <= |Last(r).p|
    ensures IsRun(u, r') && Resting(Last(r').s) && Last(r').s.cell == H.Node(0) && Last(r').p == Last(r).p
    ensures forall q :: q in Last(r').seen ==> |q| <= |Last(r').p|
  {
    hide Takes;
    var c := Last(r);
    var seen := c.seen[c.p := Seen(c.seen, c.p) + [a]];
    r' := Turn(u, r, OTHER, H.Back(H.Node(0)), c.p, seen);
  }

  // ---------------------------------------------------------------- whole runs

  /** The reply that the run of threads and the reference run give; only the thread that takes a forall
      node depends on who comes. */
  lemma {:induction false} SameKindOfReply(env: Env, run: nat, u: Setup, seen: map<Path, seq<Arrival>>, p: Path)
    requires u == SetupFor(env, run, u.explored, u.saved, u.flagged) && Calls(u, p)
    ensures var reply := ReplyAt(env, run, u.explored, u.saved, u.flagged, p);
            ReplyTo(u, seen, p) == reply ||
            (At(u.script, p).kind.Forall? && |u.saved| <= |p| && reply.Answer? && ReplyTo(u, seen, p).Answer?)
  {
  }

  /** A forall node goes to the thread that the reference run gives it to. */
  lemma {:induction false} ForallHappens(env: Env, run: nat, u: Setup, r: Run, l: nat) returns (r': Run)
    requires ValidEnv(env) && u == SetupFor(env, run, u.explored, u.saved, u.flagged) && Ready(u, r)
    requires IsPos(u.script, u.saved) && OnWay(u.saved, Last(r).p) && !env.givesUp(run, Last(r).p)
    requires !Covered(u.script, u.explored, u.saved) && !Covered(u.script, u.explored, Last(r).p)
    requires Calls(u, Last(r).p) && At(u.script, Last(r).p).kind.Forall?
    requires ReplyAt(env, run, u.explored, u.saved, u.flagged, Last(r).p) == Answer(l)
    ensures Ready(u, r') && Last(r').p == Last(r).p + [l]
  {
    hide Ready, Covered, FirstUncovered, Resting;
    var p := Last(r).p;
    SameKindOfReply(env, run, u, Last(r).seen, p);
    assert forall q :: q in Last(r).seen ==> |q| < |p| by { SeenAbove(u, r); }
    r' := SubmitHappens(u, r);
    if |p| < |u.saved| {
      AnswerLeads(env, run, u.explored, u.saved, u.flagged, p);
      CoveredBelow(u.script, u.explored, p + [l], u.saved);
      r' := TakeHappens(u, r', l);
    } else {
      SomeoneTakes(env, run, u, p);
      r' := OffersHappen(u, r', env.arrivals(run, p));
    }
  }

  lemma {:induction false} SeenAbove(u: Setup, r: Run)
    requires Ready(u, r)
    ensures forall q :: q in Last(r).seen ==> |q| < |Last(r).p|
  {
  }

  lemma {:induction false} SomeoneTakes(env: Env, run: nat, u: Setup, p: Path)
    requires ValidEnv(env) && u.script == env.script && !env.givesUp(run, p)
    requires Calls(u, p) && At(u.script, p).kind.Forall? && |u.saved| <= |p| && !Covered(u.script, u.explored, p)
    ensures exists a :: a in env.arrivals(run, p) && Takes(u, p, a)
  {
    CoveredByKids(u.script, u.explored, p);
    var v: nat :| v < |At(u.script, p).next| && !Covered(u.script, u.explored, p + [v]);
    assert AtForall(env.script, p);
    assert Arrival(v, true) in env.arrivals(run, p) && Takes(u, p, Arrival(v, true));
  }

  /** One call of the script. */
  lemma {:induction false} CallHappens(env: Env, run: nat, u: Setup, r: Run, l: nat) returns (r': Run)
    requires ValidEnv(env) && u == SetupFor(env, run, u.explored, u.saved, u.flagged) && Ready(u, r)
    requires IsPos(u.script, u.saved) && OnWay(u.saved, Last(r).p) && Last(r).p != [] && !env.givesUp(run, Last(r).p)
    requires !Covered(u.script, u.explored, u.saved) && !Covered(u.script, u.explored, Last(r).p)
    requires Calls(u, Last(r).p) && ReplyAt(env, run, u.explored, u.saved, u.flagged, Last(r).p) == Answer(l)
    ensures Ready(u, r') && Last(r').p == Last(r).p + [l]
  {
    hide Ready, ReplyAt, Covered;
    var p := Last(r).p;
    SameKindOfReply(env, run, u, Last(r).seen, p);
    AtWellFormed(u.script, p);
    match At(u.script, p).kind
    case Forall => r' := ForallHappens(env, run, u, r, l);
    case Transition =>
      AnswerLeads(env, run, u.explored, u.saved, u.flagged, p);
      r' := TransitionHappens(u, r);
    case _ => r' := AddHappens(u, r, l);
  }

  /** From every position on, the reference run is made. */
  lemma {:induction false} GoesOn(env: Env, run: nat, u: Setup, r: Run) returns (r': Run)
    requires ValidEnv(env) && u == SetupFor(env, run, u.explored, u.saved, u.flagged) && Ready(u, r)
    requires IsPos(u.script, u.saved) && IsPos(u.script, Last(r).p) && OnWay(u.saved, Last(r).p) && Last(r).p != []
    requires !Covered(u.script, u.explored, u.saved) && !Covered(u.script, u.explored, Last(r).p)
    ensures IsRun(u, r') && Last(r').s.cell.End?
    ensures var h := RunFrom(env, run, u.explored, u.saved, u.flagged, Last(r).p);
            Last(r').p == h.pos && MayStop(u, Last(r'), h.reason)
    decreases At(u.script, Last(r).p)
  {
    hide Ready, ReplyAt, Covered, ValidEnv;
    var p := Last(r).p;
    if At(u.script, p).Step? && !env.givesUp(run, p) && ReplyAt(env, run, u.explored, u.saved, u.flagged, p).Answer? {
      var l := ReplyAt(env, run, u.explored, u.saved, u.flagged, p).answer;
      AnswerLeads(env, run, u.explored, u.saved, u.flagged, p);
      r' := CallHappens(env, run, u, r, l);
      if |p| < |u.saved| { CoveredBelow(u.script, u.explored, p + [l], u.saved); }
      r' := GoesOn(env, run, u, r');
    } else {
      assert IsRun(u, r) && Resting(Last(r).s) by { Rests(u, r); }
      r' := EndTurn(u, r);
      if At(u.script, p).Step? { SameKindOfReply(env, run, u, Last(r).seen, p); }
    }
  }

  lemma {:induction false} Rests(u: Setup, r: Run)
    requires Ready(u, r)
    ensures IsRun(u, r) && Resting(Last(r).s)
  {
  }

  /** Whatever the oracles say: some interleaving of the script's thread with threads under test makes
      the next run of the search. */
  lemma {:induction false} EveryRunHappens(env: Env, st: Search) returns (r: Run)
    requires ValidEnv(env) && IsPos(env.script, st.saved) && [0] <= st.saved
    requires !Covered(env.script, Explored(env, st), st.saved)
    ensures var u, h := SetupFor(env, |st.runs|, Explored(env, st), st.saved, st.flagged), NextHalt(env, st);
            IsRun(u, r) && Last(r).s.cell.End? && Last(r).p == h.pos && MayStop(u, Last(r), h.reason)
  {
    hide Covered;
    var e := Explored(env, st);
    var u, p := SetupFor(env, |st.runs|, e, st.saved, st.flagged), FromRoot(env);
    CoveredBelow(env.script, e, [], st.saved);
    RootAnswer(env, e, p);
    r := Run([State(H.AtFirst(), [0], map[])], []);
    assert Ready(u, r);
    r := GoesOn(env, |st.runs|, u, r);
  }
}
