/** The hand-off and the search together: while the script's thread makes the calls of the script, any
    number of threads under test take the submitted nodes, refuse them or consume them, and end the
    run, in any interleaving of their steps.  Whatever they do, the answers on the path are those of a
    run of the reference search, for oracles that can be read off the run; and so is a whole search. */
module ConcurrentRuns {
  import opened Counting
  import H = HandOff
  import opened Scripts
  import opened SearchSpec

  /** What one run starts with: the script, the random bits that stars draw in it, and what the
      engine has from the runs before. */
  datatype Setup = Setup(script: Script, coin: Path -> bool, explored: set<Path>, saved: Path, flagged: bool)

  ghost predicate ValidSetup(u: Setup) {
    && WellFormed(u.script) && u.script.Step? && u.script.kind.Root?
    && IsPos(u.script, u.saved) && [0] <= u.saved
  }

  /** The protocol, with the answers on the path, and the threads that came to each forall node. */
  datatype State = State(s: H.State, p: Path, seen: map<Path, seq<Arrival>>)

  // ---------------------------------------------------------------- oracles of a run

  /** Every thread of the scope. */
  function Everyone(script: Script, p: Path): seq<Arrival> {
    if IsPos(script, p) && At(script, p).Step? then seq(|At(script, p).next|, (i: nat) => Arrival(i, true)) else []
  }

  function Seen(seen: map<Path, seq<Arrival>>, p: Path): seq<Arrival> {
    if p in seen then seen[p] else []
  }

  /** The oracles of a run in which these threads came, and that was given up at one of the positions.
      Threads that come later make no difference; all of them do. */
  ghost function Oracles(u: Setup, seen: map<Path, seq<Arrival>>, stops: set<Path>, allEnded: bool): Env {
    Env(u.script, (run: nat, p: Path) => u.coin(p),
        (run: nat, p: Path) => Seen(seen, p) + Everyone(u.script, p),
        (run: nat, p: Path) => p in stops, (run: nat, p: Path) => allEnded)
  }

  lemma {:induction false} OraclesAreValid(u: Setup, seen: map<Path, seq<Arrival>>, stops: set<Path>, allEnded: bool)
    requires ValidSetup(u)
    ensures ValidEnv(Oracles(u, seen, stops, allEnded))
  {
    var env := Oracles(u, seen, stops, allEnded);
    forall run, p | AtForall(env.script, p) ensures EachArrives(|At(env.script, p).next|, env.arrivals(run, p)) {
      EveryoneArrives(u.script, p, Seen(seen, p));
    }
  }

  lemma {:induction false} EveryoneArrives(script: Script, p: Path, before: seq<Arrival>)
    requires IsPos(script, p) && At(script, p).Step?
    ensures EachArrives(|At(script, p).next|, before + Everyone(script, p))
  {
    forall v: nat | v < |At(script, p).next| ensures Arrival(v, true) in before + Everyone(script, p) {
      assert Everyone(script, p)[v] == Arrival(v, true);
    }
  }

  /** What the call at p comes back with. */
  ghost function ReplyTo(u: Setup, seen: map<Path, seq<Arrival>>, p: Path): Reply
    requires IsPos(u.script, p) && At(u.script, p).Step?
  {
    ReplyAt(Oracles(u, seen, {}, false), 0, u.explored, u.saved, u.flagged, p)
  }

  /** It depends on the threads that came to p only, and not on where the run is given up. */
  lemma {:induction false} SameReply(u: Setup, seen: map<Path, seq<Arrival>>, seen': map<Path, seq<Arrival>>,
                                     run: nat, stops: set<Path>, allEnded: bool, p: Path)
    requires IsPos(u.script, p) && At(u.script, p).Step? && Seen(seen', p) == Seen(seen, p)
    ensures ReplyTo(u, seen', p) == ReplyTo(u, seen, p)
    ensures ReplyAt(Oracles(u, seen, stops, allEnded), run, u.explored, u.saved, u.flagged, p) == ReplyTo(u, seen, p)
  {
  }

  // ---------------------------------------------------------------- steps

  /** The forall node at p goes to this thread: it is in the scope and accepted, its branch is not
      covered, it is the saved one in a replay, and its node is not flagged. */
  ghost predicate Takes(u: Setup, p: Path, a: Arrival)
    requires IsPos(u.script, p) && At(u.script, p).Step?
  {
    && a.accepted && a.thread < |At(u.script, p).next| && !Covered(u.script, u.explored, p + [a.thread])
    && (|p| < |u.saved| ==> a.thread == u.saved[|p|] && !(u.flagged && |p| + 2 >= |u.saved|))
  }

  /** The script makes a call at p that has this kind. */
  ghost predicate Calls(u: Setup, p: Path) {
    IsPos(u.script, p) && At(u.script, p).Step?
  }

  /** The script's thread submits a node: that of a transition or a forall, whose call does not fail. */
  ghost predicate Submits(u: Setup, c: State, c': State) {
    && Calls(u, c.p) && (At(u.script, c.p).kind.Transition? || At(u.script, c.p).kind.Forall?)
    && !ReplyTo(u, c.seen, c.p).Fails? && c'.p == c.p && c'.seen == c.seen
  }

  /** The script's thread adds a star or a conditional itself. */
  ghost predicate Adds(u: Setup, c: State, c': State) {
    && Calls(u, c.p) && (At(u.script, c.p).kind.Star? || At(u.script, c.p).kind.Conditional?)
    && ReplyTo(u, c.seen, c.p).Answer? && c'.p == c.p + [ReplyTo(u, c.seen, c.p).answer] && c'.seen == c.seen
  }

  ghost predicate Comes(c: State, c': State, a: Arrival) {
    c'.seen == c.seen[c.p := Seen(c.seen, c.p) + [a]]
  }

  /** A thread under test consumes the node that it has: a transition has one branch, and a forall node
      goes to the thread only if it takes it. */
  ghost predicate Consumes(u: Setup, c: State, c': State) {
    Calls(u, c.p) ==>
      if At(u.script, c.p).kind.Forall? then
        exists v: nat :: Takes(u, c.p, Arrival(v, true)) && Comes(c, c', Arrival(v, true)) && c'.p == c.p + [v]
      else c'.p == c.p + [0] && c'.seen == c.seen
  }

  /** A thread under test gives the node back: it has refused a forall node, or a transition is not
      what it is about to do. */
  ghost predicate GivesBack(u: Setup, c: State, c': State) {
    && c'.p == c.p
    && (Calls(u, c.p) ==>
          if At(u.script, c.p).kind.Forall? then exists a :: !Takes(u, c.p, a) && Comes(c, c', a)
          else c'.seen == c.seen)
  }

  /** The moment at which a release takes effect. */
  ghost predicate Commits(u: Setup, c: State, c': State, t: H.Tid, out: H.Out) {
    match out
    case Add(_) => if t == H.MAIN then Adds(u, c, c') else Consumes(u, c, c')
    case Back(w) =>
      if !w.Node? then c'.p == c.p && c'.seen == c.seen
      else if t == H.MAIN then Submits(u, c, c')
      else GivesBack(u, c, c')
    case Finish => c'.p == c.p && c'.seen == c.seen
  }

  ghost predicate OneStep(u: Setup, c: State, c': State, t: H.Tid) {
    && H.Step(c.s, c'.s, t)
    && if H.Commit(c.s, c'.s, t) then Commits(u, c, c', t, c.s.pcs[t].out) else c'.p == c.p && c'.seen == c.seen
  }

  /** One run of the script, after a restart. */
  datatype Run = Run(states: seq<State>, who: seq<H.Tid>)

  function Last(r: Run): State {
    if r.states == [] then State(H.AtFirst(), [0], map[]) else r.states[|r.states| - 1]
  }

  ghost predicate IsRun(u: Setup, r: Run) {
    && |r.states| == |r.who| + 1
    && H.Init(r.states[0].s) && r.states[0].p == [0] && r.states[0].seen == map[]
    && forall k :: 0 <= k < |r.who| ==> OneStep(u, r.states[k], r.states[k + 1], r.who[k])
  }

  // ---------------------------------------------------------------- the invariant

  /** Every answer on the path is the one that the reference search gives there. */
  ghost predicate Passed(u: Setup, seen: map<Path, seq<Arrival>>, p: Path) {
    forall i {:trigger p[i]} :: 1 <= i < |p| ==> Calls(u, p[..i]) && ReplyTo(u, seen, p[..i]) == Answer(p[i])
  }

  /** Nobody who came to the present node takes it. */
  ghost predicate Refused(u: Setup, c: State) {
    Calls(u, c.p) ==> forall a :: a in Seen(c.seen, c.p) ==> !Takes(u, c.p, a)
  }

  /** A node that is in the cell is that of the present call. */
  ghost predicate Asked(u: Setup, c: State) {
    H.Content(c.s).Node? ==>
      && Calls(u, c.p) && (At(u.script, c.p).kind.Transition? || At(u.script, c.p).kind.Forall?)
      && !ReplyTo(u, c.seen, c.p).Fails?
  }

  ghost predicate Here(u: Setup, c: State) {
    && IsPos(u.script, c.p) && [0] <= c.p && OnWay(u.saved, c.p) && |c.p| == |c.s.path| + 1
    && forall q :: q in c.seen ==> q <= c.p
  }

  ghost predicate Inv(u: Setup, c: State) {
    H.Inv(c.s) && Here(u, c) && Asked(u, c) && Refused(u, c) && Passed(u, c.seen, c.p)
  }

  /** The first thread that takes the node decides. */
  lemma {:induction false} FirstTaker(s: Script, explored: set<Path>, p: Path, n: nat, refused: seq<Arrival>, v: nat,
                                      rest: seq<Arrival>)
    requires v < n && !Covered(s, explored, p + [v])
    requires forall a :: a in refused ==> !(a.accepted && a.thread < n && !Covered(s, explored, p + [a.thread]))
    ensures FirstUncovered(s, explored, p, n, refused + [Arrival(v, true)] + rest) == v
  {
    var all := refused + [Arrival(v, true)] + rest;
    if refused == [] {
      assert all[0] == Arrival(v, true);
    } else {
      assert all[0] == refused[0] && refused[0] in refused;
      assert all[1..] == refused[1..] + [Arrival(v, true)] + rest;
      FirstTaker(s, explored, p, n, refused[1..], v, rest);
    }
  }

  /** The thread that takes a forall node is the answer of the reference search. */
  lemma {:induction false} TakerIsAnswer(u: Setup, c: State, c': State, v: nat)
    requires Calls(u, c.p) && At(u.script, c.p).kind.Forall? && Refused(u, c)
    requires !ReplyTo(u, c.seen, c.p).Fails? && Takes(u, c.p, Arrival(v, true)) && Comes(c, c', Arrival(v, true))
    ensures ReplyTo(u, c'.seen, c.p) == Answer(v)
  {
    if |u.saved| <= |c.p| {
      FirstTaker(u.script, u.explored, c.p, |At(u.script, c.p).next|, Seen(c.seen, c.p), v, Everyone(u.script, c.p));
    }
  }

  /** A transition has one answer. */
  lemma {:induction false} TransitionIsAnswer(u: Setup, c: State)
    requires ValidSetup(u) && Calls(u, c.p) && At(u.script, c.p).kind.Transition? && OnWay(u.saved, c.p)
    requires !ReplyTo(u, c.seen, c.p).Fails?
    ensures ReplyTo(u, c.seen, c.p) == Answer(0)
  {
    AtWellFormed(u.script, c.p);
    if |c.p| < |u.saved| { PrefixIsPos(u.script, c.p, u.saved); }
  }

  lemma {:induction false} PassedOneMore(u: Setup, seen: map<Path, seq<Arrival>>, seen': map<Path, seq<Arrival>>,
                                         p: Path, p': Path, l: nat)
    requires Passed(u, seen, p) && Calls(u, p) && p' == p + [l] && ReplyTo(u, seen', p) == Answer(l)
    requires forall q :: q != p ==> Seen(seen', q) == Seen(seen, q)
    ensures Passed(u, seen', p')
  {
    hide ReplyAt;
    forall i | 1 <= i < |p'| ensures Calls(u, p'[..i]) && ReplyTo(u, seen', p'[..i]) == Answer(p'[i]) {
      if i < |p| {
        assert p'[..i] == p[..i] && p'[i] == p[i];
        SameReply(u, seen, seen', 0, {}, false, p[..i]);
      } else {
        assert p'[..i] == p;
      }
    }
  }

  /** One more answer. */
  lemma {:induction false} OneMoreAnswer(u: Setup, c: State, c': State, l: nat)
    requires ValidSetup(u) && Here(u, c) && Calls(u, c.p) && Passed(u, c.seen, c.p)
    requires c'.p == c.p + [l] && ReplyTo(u, c'.seen, c.p) == Answer(l)
    requires forall q :: q != c.p ==> Seen(c'.seen, q) == Seen(c.seen, q)
    requires (forall q :: q in c'.seen ==> q <= c.p) && |c'.s.path| == |c.s.path| + 1
    ensures Here(u, c') && Passed(u, c'.seen, c'.p) && Refused(u, c')
  {
    hide ReplyAt, Takes, Passed;
    OraclesAreValid(u, c'.seen, {}, false);
    AnswerLeads(Oracles(u, c'.seen, {}, false), 0, u.explored, u.saved, u.flagged, c.p);
    PassedOneMore(u, c.seen, c'.seen, c.p, c'.p, l);
    assert c'.p !in c'.seen;
  }

  // ---------------------------------------------------------------- every step keeps it

  /** Submitting a node, and giving a transition back, change nothing here but what is in the cell. */
  lemma {:induction false} SamePlace(u: Setup, c: State, c': State)
    requires Here(u, c) && Refused(u, c) && Passed(u, c.seen, c.p)
    requires c'.p == c.p && c'.seen == c.seen && |c'.s.path| == |c.s.path|
    ensures Here(u, c') && Refused(u, c') && Passed(u, c'.seen, c'.p)
  {
    hide Takes, ReplyTo;
  }

  /** A thread is refused. */
  lemma {:induction false} OneMoreRefused(u: Setup, c: State, c': State, a: Arrival)
    requires Here(u, c) && Refused(u, c) && Passed(u, c.seen, c.p) && Calls(u, c.p)
    requires c'.p == c.p && |c'.s.path| == |c.s.path| && !Takes(u, c.p, a) && Comes(c, c', a)
    ensures Here(u, c') && Refused(u, c') && Passed(u, c'.seen, c'.p)
  {
    hide Takes, ReplyAt;
    forall i | 1 <= i < |c.p| ensures Calls(u, c.p[..i]) && ReplyTo(u, c'.seen, c.p[..i]) == Answer(c.p[i]) {
      var l := c.p[i];
      assert |c.p[..i]| == i < |c.p|;
      SameReply(u, c.seen, c'.seen, 0, {}, false, c.p[..i]);
    }
  }

  /** What the thread that takes effect has in hand. */
  lemma {:induction false} CommitHand(u: Setup, c: State, c': State, t: H.Tid)
    requires Inv(u, c) && H.Commit(c.s, c'.s, t)
    ensures t in c.s.pcs && c.s.pcs[t].Unlocked? && H.Content(c'.s) == H.Stored(c.s.pcs[t].out)
    ensures var out := c.s.pcs[t].out;
            && |c'.s.path| == |c.s.path| + (if out.Add? then 1 else 0)
            && (t != H.MAIN && (out.Add? || (out.Back? && out.w.Node?)) ==> H.Content(c.s).Node?)
  {
    H.CommitFacts(c.s, c'.s, t);
  }

  lemma {:induction false} AddKeeps(u: Setup, c: State, c': State, t: H.Tid)
    requires ValidSetup(u) && Inv(u, c) && H.Commit(c.s, c'.s, t) && c.s.pcs[t].out.Add?
    requires Commits(u, c, c', t, c.s.pcs[t].out)
    ensures Here(u, c') && Refused(u, c') && Passed(u, c'.seen, c'.p) && Asked(u, c')
  {
    hide H.Inv, H.Commit, H.Content, Takes, ReplyAt, Passed;
    CommitHand(u, c, c', t);
    if t == H.MAIN {
      OneMoreAnswer(u, c, c', ReplyTo(u, c.seen, c.p).answer);
    } else if At(u.script, c.p).kind.Forall? {
      var v: nat :| Takes(u, c.p, Arrival(v, true)) && Comes(c, c', Arrival(v, true)) && c'.p == c.p + [v];
      TakerIsAnswer(u, c, c', v);
      OneMoreAnswer(u, c, c', v);
    } else {
      TransitionIsAnswer(u, c);
      OneMoreAnswer(u, c, c', 0);
    }
  }

  lemma {:induction false} BackKeeps(u: Setup, c: State, c': State, t: H.Tid)
    requires Inv(u, c) && H.Commit(c.s, c'.s, t) && !c.s.pcs[t].out.Add?
    requires Commits(u, c, c', t, c.s.pcs[t].out)
    ensures Here(u, c') && Refused(u, c') && Passed(u, c'.seen, c'.p) && Asked(u, c')
  {
    hide H.Inv, H.Commit, H.Content, Takes, ReplyAt, Passed, Refused;
    CommitHand(u, c, c', t);
    var out := c.s.pcs[t].out;
    if out.Back? && out.w.Node? && t != H.MAIN && At(u.script, c.p).kind.Forall? {
      var a :| !Takes(u, c.p, a) && Comes(c, c', a);
      OneMoreRefused(u, c, c', a);
      StillNoFailure(u, c, c');
    } else {
      SamePlace(u, c, c');
    }
  }

  /** Whether the call fails does not depend on who comes. */
  lemma {:induction false} StillNoFailure(u: Setup, c: State, c': State)
    requires Calls(u, c.p) && !ReplyTo(u, c.seen, c.p).Fails? && c'.p == c.p
    ensures !ReplyTo(u, c'.seen, c'.p).Fails?
  {
  }

  lemma {:induction false} StepKeeps(u: Setup, c: State, c': State, t: H.Tid)
    requires ValidSetup(u) && Inv(u, c) && OneStep(u, c, c', t)
    ensures Inv(u, c')
  {
    hide H.Inv, H.Step, H.Commit, Here, Refused, Passed, ReplyTo;
    H.StepKeeps(c.s, c'.s, t);
    if H.Commit(c.s, c'.s, t) {
      CommitHand(u, c, c', t);
      if c.s.pcs[t].out.Add? {
        AddKeeps(u, c, c', t);
      } else {
        BackKeeps(u, c, c', t);
      }
    } else {
      H.SamePath(c.s, c'.s, t);
      if H.EndPath(c.s, c'.s, t) { H.CommitFacts(c.s, c'.s, t); }
      SamePlace(u, c, c');
    }
  }

  lemma {:induction false} AlwaysInv(u: Setup, r: Run, k: nat)
    requires ValidSetup(u) && IsRun(u, r) && k < |r.states|
    ensures Inv(u, r.states[k])
  {
    hide H.Init, H.Inv, OneStep;
    if k == 0 {
      StartsHere(u, r.states[0]);
    } else {
      AlwaysInv(u, r, k - 1);
      StepKeeps(u, r.states[k - 1], r.states[k], r.who[k - 1]);
    }
  }

  lemma {:induction false} StartsHere(u: Setup, c: State)
    requires ValidSetup(u) && H.Init(c.s) && c.p == [0] && c.seen == map[]
    ensures Inv(u, c)
  {
    H.InitInv(c.s);
    PrefixIsPos(u.script, [0], u.saved);
  }

  // ---------------------------------------------------------------- the run as a reference run

  /** The run may stop at p for this reason: the script is over there, or the run is given up, or the
      call that the script makes there backtracks or fails. */
  ghost predicate MayStop(u: Setup, c: State, reason: Reason)
    requires IsPos(u.script, c.p)
  {
    match reason
    case Ended => At(u.script, c.p).Done?
    case GivenUp(_) => At(u.script, c.p).Step?
    case NodeCovered => Calls(u, c.p) && ReplyTo(u, c.seen, c.p).Backtracks?
    case CheckFails => Calls(u, c.p) && ReplyTo(u, c.seen, c.p).Fails?
  }

  /** The oracles of a run that stopped in state c. */
  ghost function StoppedOracles(u: Setup, c: State, reason: Reason): Env {
    Oracles(u, c.seen, if reason.GivenUp? then {c.p} else {}, reason == GivenUp(true))
  }

  /** From every position that was passed the reference run goes on to the present one. */
  lemma {:induction false} FollowsFrom(u: Setup, c: State, reason: Reason, run: nat, i: nat)
    requires ValidSetup(u) && Here(u, c) && Passed(u, c.seen, c.p) && 1 <= i <= |c.p|
    requires ValidEnv(StoppedOracles(u, c, reason))
    ensures IsPos(u.script, c.p[..i]) && OnWay(u.saved, c.p[..i])
    ensures var env := StoppedOracles(u, c, reason);
            RunFrom(env, run, u.explored, u.saved, u.flagged, c.p[..i]) ==
            RunFrom(env, run, u.explored, u.saved, u.flagged, c.p)
    decreases |c.p| - i
  {
    hide ReplyAt, RunFrom, Takes;
    var env := StoppedOracles(u, c, reason);
    PrefixIsPos(u.script, c.p[..i], c.p);
    if i < |c.p| {
      var l := c.p[i];
      FollowsFrom(u, c, reason, run, i + 1);
      SameReply(u, c.seen, c.seen, run, if reason.GivenUp? then {c.p} else {}, reason == GivenUp(true), c.p[..i]);
      assert |c.p[..i]| < |c.p|;
      RunStep(env, run, u.explored, u.saved, u.flagged, c.p[..i], l);
      assert c.p[..i] + [l] == c.p[..i + 1];
    } else {
      assert c.p[..i] == c.p;
    }
  }

  lemma {:induction false} StopsHere(u: Setup, c: State, reason: Reason, run: nat)
    requires ValidSetup(u) && Here(u, c) && MayStop(u, c, reason) && ValidEnv(StoppedOracles(u, c, reason))
    ensures RunFrom(StoppedOracles(u, c, reason), run, u.explored, u.saved, u.flagged, c.p) == Halt(c.p, reason)
  {
    hide ReplyAt;
    if At(u.script, c.p).Step? {
      SameReply(u, c.seen, c.seen, run, if reason.GivenUp? then {c.p} else {}, reason == GivenUp(true), c.p);
    }
  }

  /** Whatever the threads did: if the run stops now, then the reference run with the oracles of this
      run stops here, for the same reason, and its answers are those on the path. */
  lemma {:induction false} RunIsReferenceRun(u: Setup, r: Run, k: nat, reason: Reason, run: nat)
    requires ValidSetup(u) && IsRun(u, r) && k < |r.states|
    requires IsPos(u.script, r.states[k].p) && MayStop(u, r.states[k], reason)
    ensures var c := r.states[k]; var env := StoppedOracles(u, c, reason);
            && ValidEnv(env) && IsPos(u.script, [0]) && OnWay(u.saved, [0])
            && RunFrom(env, run, u.explored, u.saved, u.flagged, [0]) == Halt(c.p, reason)
            && |c.p| == |c.s.path| + 1
  {
    hide H.Inv, IsRun, MayStop, RunFrom, Passed, Refused, Asked;
    var c := r.states[k];
    AlwaysInv(u, r, k);
    OraclesAreValid(u, c.seen, if reason.GivenUp? then {c.p} else {}, reason == GivenUp(true));
    FollowsFrom(u, c, reason, run, 1);
    assert c.p[..1] == [0];
    StopsHere(u, c, reason, run);
  }
}
