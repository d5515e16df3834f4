/** The search as a reference definition: which run comes next, given only the script, the
    complete runs explored so far and the position from which the next run is free to choose.
    It mentions no tree, no stack of nodes and no coverage flag. */
module SearchSpec {
  import opened Counting
  import opened Scripts

  /** A thread reaches a forall-thread node, whose predicate accepts it or not. */
  datatype Arrival = Arrival(thread: nat, accepted: bool)

  /** Everything the engine does not decide: the script (under its root), the random bit drawn
      by a nondeterministic star, the order in which threads reach a forall-thread node and whether
      its predicate accepts them, whether a run is given up at a position (a failed assumption or
      replay, a timeout), and whether it is given up because all threads have ended.  The oracles
      may differ from run to run. */
  datatype Env = Env(script: Script,
                     coin: (nat, Path) -> bool,
                     arrivals: (nat, Path) -> seq<Arrival>,
                     givesUp: (nat, Path) -> bool,
                     allEnded: (nat, Path) -> bool)

  ghost predicate AtForall(s: Script, p: Path) {
    IsPos(s, p) && At(s, p).Step? && At(s, p).kind.Forall?
  }

  /** No forall-thread node below any of the script's positions. */
  ghost predicate NoForall(s: Script) {
    s.Step? ==> !s.kind.Forall? && forall i :: 0 <= i < |s.next| ==> NoForall(s.next[i])
  }

  lemma {:induction false} NowhereForall(s: Script, p: Path)
    requires NoForall(s)
    ensures !AtForall(s, p)
  {
    if p != [] && s.Step? && p[0] < |s.next| {
      NowhereForall(s.next[p[0]], p[1..]);
    }
  }

  /** Each of n threads reaches the node at some time and is accepted. */
  ghost predicate EachArrives(n: nat, arriving: seq<Arrival>) {
    forall v: nat :: v < n ==> Arrival(v, true) in arriving
  }

  /** Unless the run is given up at a forall node every thread of its scope eventually reaches it.
      The threads that arrive after the one that takes the node make no difference. */
  ghost predicate ValidEnv(env: Env) {
    && WellFormed(env.script)
    && env.script.Step? && env.script.kind.Root?
    && forall run, p :: AtForall(env.script, p) && !env.givesUp(run, p)
                        ==> EachArrives(|At(env.script, p).next|, env.arrivals(run, p))
  }

  // ---------------------------------------------------------------- one run

  /** The first arriving thread of a scope of n that is accepted and whose branch is not covered. */
  ghost function FirstUncovered(s: Script, explored: set<Path>, p: Path, n: nat, arriving: seq<Arrival>): nat {
    if arriving == [] then 0
    else
      var a := arriving[0];
      if a.accepted && a.thread < n && !Covered(s, explored, p + [a.thread]) then a.thread
      else FirstUncovered(s, explored, p, n, arriving[1..])
  }

  /** A star goes to an uncovered branch; when both are open it goes to the true one, or where
      the random bit says if it is nondeterministic. */
  function StarAnswer(nondet: bool, flip: bool, cov0: bool, cov1: bool): nat {
    if !cov0 && !cov1 then
      if !nondet || flip then 1 else 0
    else if !cov0 then 0 else 1
  }

  /** The answer given at a position that no saved answer covers. */
  ghost function Choose(env: Env, run: nat, explored: set<Path>, p: Path): nat
    requires IsPos(env.script, p) && At(env.script, p).Step?
  {
    match At(env.script, p).kind
    case Star(nondet) =>
      StarAnswer(nondet, env.coin(run, p),
                 Covered(env.script, explored, p + [0]), Covered(env.script, explored, p + [1]))
    case Forall => FirstUncovered(env.script, explored, p, |At(env.script, p).next|, env.arrivals(run, p))
    case _ => 0
  }

  lemma {:induction false} FirstUncoveredIsOne(s: Script, explored: set<Path>, p: Path, n: nat, arriving: seq<Arrival>)
    requires n > 0
    ensures FirstUncovered(s, explored, p, n, arriving) < n
    ensures (exists v: nat :: Arrival(v, true) in arriving && v < n && !Covered(s, explored, p + [v])) ==>
              && Arrival(FirstUncovered(s, explored, p, n, arriving), true) in arriving
              && !Covered(s, explored, p + [FirstUncovered(s, explored, p, n, arriving)])
  {
    if arriving != [] {
      FirstUncoveredIsOne(s, explored, p, n, arriving[1..]);
    }
  }

  /** An answer always exists, and at an uncovered position it leads to an uncovered one. */
  lemma {:induction false} ChooseUncovered(env: Env, run: nat, explored: set<Path>, p: Path)
    requires ValidEnv(env) && IsPos(env.script, p) && At(env.script, p).Step? && (p != [] ==> !env.givesUp(run, p))
    ensures Choose(env, run, explored, p) < |At(env.script, p).next|
    ensures !Covered(env.script, explored, p) ==>
              !Covered(env.script, explored, p + [Choose(env, run, explored, p)])
  {
    AtWellFormed(env.script, p);
    CoveredByKids(env.script, explored, p);
    if At(env.script, p).kind.Forall? {
      FirstUncoveredIsOne(env.script, explored, p, |At(env.script, p).next|, env.arrivals(run, p));
      if !Covered(env.script, explored, p) {
        var v: nat :| v < |At(env.script, p).next| && !Covered(env.script, explored, p + [v]);
        assert AtForall(env.script, p);
        assert Arrival(v, true) in env.arrivals(run, p);
      }
    }
  }

  ghost predicate NeverGivesUp(env: Env) {
    forall run, p :: !env.givesUp(run, p)
  }

  /** What a call of the script comes back with: an answer, or a backtrack because its node is
      covered, or nothing because no thread takes the node, or a failed check of the program. */
  datatype Reply = Answer(answer: nat) | Backtracks | NobodyTakes | Fails

  /** All branches at p except that of answer l are covered. */
  ghost predicate OthersCovered(s: Script, explored: set<Path>, p: Path, l: nat)
    requires IsPos(s, p) && At(s, p).Step?
  {
    forall v: nat :: v < |At(s, p).next| && v != l ==> Covered(s, explored, p + [v])
  }

  /** What the call at p comes back with.  Saved answers are replayed, and from their end on the
      answers are chosen.  If the last saved node is flagged covered although the branch that was
      saved there is open, then its own call fails a check, and the calls that look at the flag of
      a child notice when they replay the node above: a star or conditional of which nothing else is
      open takes itself for covered, any other star fails a check, and a forall node does not go to
      the saved thread. */
  ghost function ReplyAt(env: Env, run: nat, explored: set<Path>, saved: Path, flagged: bool, p: Path): Reply
    requires IsPos(env.script, p) && At(env.script, p).Step?
  {
    if |saved| <= |p| then Answer(Choose(env, run, explored, p))
    else if !flagged || |p| + 2 < |saved| then Answer(saved[|p|])
    else if |p| + 1 == |saved| then Fails
    else match At(env.script, p).kind
      case Star(_) => if OthersCovered(env.script, explored, p, saved[|p|]) then Backtracks else Fails
      case Conditional(_) => Backtracks
      case Forall => NobodyTakes
      case _ => Answer(saved[|p|])
  }

  /** p lies on the way along the saved answers or beyond them. */
  ghost predicate OnWay(saved: Path, p: Path) {
    p <= saved || saved <= p
  }

  lemma {:induction false} AnswerLeads(env: Env, run: nat, explored: set<Path>, saved: Path, flagged: bool, p: Path)
    requires ValidEnv(env) && IsPos(env.script, saved) && IsPos(env.script, p) && OnWay(saved, p)
    requires At(env.script, p).Step? && (p != [] ==> !env.givesUp(run, p))
    requires ReplyAt(env, run, explored, saved, flagged, p).Answer?
    ensures var l := ReplyAt(env, run, explored, saved, flagged, p).answer;
            && l < |At(env.script, p).next| && IsPos(env.script, p + [l]) && OnWay(saved, p + [l])
            && At(env.script, p + [l]) == At(env.script, p).next[l]
            && (|p| < |saved| ==> p + [l] == saved[..|p| + 1])
            && (saved <= p && !Covered(env.script, explored, p) ==> !Covered(env.script, explored, p + [l]))
  {
    var l := ReplyAt(env, run, explored, saved, flagged, p).answer;
    if |p| < |saved| {
      assert p + [l] == saved[..|p| + 1];
      PrefixIsPos(env.script, p, saved);
    } else {
      ChooseUncovered(env, run, explored, p);
    }
    AtStep(env.script, p, l);
  }

  /** Why a run stops. */
  datatype Reason = Ended | GivenUp(allEnded: bool) | NodeCovered | CheckFails

  datatype Halt = Halt(pos: Path, reason: Reason)

  /** Where and why the run stops, from position p on. */
  ghost function RunFrom(env: Env, run: nat, explored: set<Path>, saved: Path, flagged: bool, p: Path): (h: Halt)
    requires ValidEnv(env) && IsPos(env.script, saved) && IsPos(env.script, p) && OnWay(saved, p)
    ensures IsPos(env.script, h.pos) && p <= h.pos && OnWay(saved, h.pos)
    ensures IsLeaf(env.script, h.pos) <==> h.reason.Ended?
    decreases At(env.script, p)
  {
    if At(env.script, p).Done? then Halt(p, Ended)
    else if p != [] && env.givesUp(run, p) then Halt(p, GivenUp(env.allEnded(run, p)))
    else
      match ReplyAt(env, run, explored, saved, flagged, p)
      case Answer(l) =>
        AnswerLeads(env, run, explored, saved, flagged, p);
        RunFrom(env, run, explored, saved, flagged, p + [l])
      case Backtracks => Halt(p, NodeCovered)
      case NobodyTakes => Halt(p, GivenUp(env.allEnded(run, p)))
      case Fails => Halt(p, CheckFails)
  }

  /** One step of a run, and its end. */
  lemma {:induction false} RunStep(env: Env, run: nat, explored: set<Path>, saved: Path, flagged: bool, p: Path, l: nat)
    requires ValidEnv(env) && IsPos(env.script, saved) && IsPos(env.script, p) && OnWay(saved, p)
    requires At(env.script, p).Step? && !env.givesUp(run, p)
    requires ReplyAt(env, run, explored, saved, flagged, p) == Answer(l)
    ensures IsPos(env.script, p + [l]) && OnWay(saved, p + [l])
    ensures RunFrom(env, run, explored, saved, flagged, p) == RunFrom(env, run, explored, saved, flagged, p + [l])
  {
    AnswerLeads(env, run, explored, saved, flagged, p);
  }

  lemma {:induction false} RunEnd(env: Env, run: nat, explored: set<Path>, saved: Path, flagged: bool, p: Path)
    requires ValidEnv(env) && IsPos(env.script, saved) && IsPos(env.script, p) && OnWay(saved, p)
    ensures At(env.script, p).Done? ==> RunFrom(env, run, explored, saved, flagged, p) == Halt(p, Ended)
    ensures At(env.script, p).Step? && p != [] && env.givesUp(run, p) ==>
              RunFrom(env, run, explored, saved, flagged, p) == Halt(p, GivenUp(env.allEnded(run, p)))
  {
  }

  /** A run goes on with something uncovered if what it replays leads there. */
  lemma {:induction false} RunUncovered(env: Env, run: nat, explored: set<Path>, saved: Path, flagged: bool, p: Path)
    requires ValidEnv(env) && IsPos(env.script, saved) && IsPos(env.script, p) && OnWay(saved, p)
    requires !Covered(env.script, explored, saved) && !Covered(env.script, explored, p)
    ensures !Covered(env.script, explored, RunFrom(env, run, explored, saved, flagged, p).pos)
    decreases At(env.script, p)
  {
    if At(env.script, p).Step? && (p != [] ==> !env.givesUp(run, p)) {
      if ReplyAt(env, run, explored, saved, flagged, p).Answer? {
        var l := ReplyAt(env, run, explored, saved, flagged, p).answer;
        AnswerLeads(env, run, explored, saved, flagged, p);
        if |p| < |saved| { CoveredBelow(env.script, explored, p + [l], saved); }
        RunUncovered(env, run, explored, saved, flagged, p + [l]);
      }
    }
  }

  /** Without a flagged node no check fails and no node is covered, and a run with one does not get
      past its replay. */
  lemma {:induction false} FlagDecides(env: Env, run: nat, explored: set<Path>, saved: Path, flagged: bool, p: Path)
    requires ValidEnv(env) && IsPos(env.script, saved) && IsPos(env.script, p) && OnWay(saved, p)
    ensures var h := RunFrom(env, run, explored, saved, flagged, p);
            && (!flagged ==> h.reason.Ended? || h.reason.GivenUp?)
            && (!flagged && h.reason.GivenUp? && h.pos != [] ==>
                  env.givesUp(run, h.pos) && h.reason == GivenUp(env.allEnded(run, h.pos)))
            && (flagged && |p| < |saved| ==> |h.pos| < |saved|)
    decreases At(env.script, p)
  {
    if At(env.script, p).Step? && (p != [] ==> !env.givesUp(run, p)) {
      if ReplyAt(env, run, explored, saved, flagged, p).Answer? {
        AnswerLeads(env, run, explored, saved, flagged, p);
        FlagDecides(env, run, explored, saved, flagged, p + [ReplyAt(env, run, explored, saved, flagged, p).answer]);
      } else if !flagged {
        assert false;
      }
    }
    if flagged && IsLeaf(env.script, p) && |p| < |saved| {
      PrefixIsPos(env.script, p, saved);
    }
  }

  /** What stays on the path of a run that stops at p: a run that is given up during the replay
      takes the next saved answer with it. */
  ghost function EndOf(saved: Path, p: Path): Path {
    if |p| < |saved| then saved[..|p| + 1] else p
  }

  lemma {:induction false} EndOfIsPos(env: Env, explored: set<Path>, saved: Path, p: Path)
    requires IsPos(env.script, saved) && IsPos(env.script, p) && OnWay(saved, p)
    ensures IsPos(env.script, EndOf(saved, p)) && p <= EndOf(saved, p)
    ensures !Covered(env.script, explored, saved) && !Covered(env.script, explored, p) ==>
              !Covered(env.script, explored, EndOf(saved, p))
  {
    if |p| < |saved| {
      PrefixIsPos(env.script, EndOf(saved, p), saved);
      CoveredBelow(env.script, explored, EndOf(saved, p), saved);
    }
  }

  /** The lowest position on q, at most k answers deep, that still has something to explore
      (the root position if there is none). */
  ghost function LowestUncovered(s: Script, explored: set<Path>, q: Path, k: nat): (p: Path)
    requires k <= |q|
    ensures p <= q && |p| <= k
    ensures !Covered(s, explored, []) ==>
              && !Covered(s, explored, p)
              && forall j :: |p| < j <= k ==> Covered(s, explored, q[..j])
    ensures Covered(s, explored, []) ==> p == []
  {
    if k == 0 then q[..0]
    else if Covered(s, explored, q[..k]) then LowestUncovered(s, explored, q, k - 1)
    else
      CoveredBelow(s, explored, [], q[..k]);
      q[..k]
  }

  // ---------------------------------------------------------------- the whole search

  /** The complete runs that go through one of these positions. */
  ghost function Through(s: Script, ended: seq<Path>): set<Path> {
    set q | q in Leaves(s) && exists e :: e in ended && e <= q
  }

  lemma {:induction false} ThroughOneMore(s: Script, ended: seq<Path>, e: Path)
    ensures Through(s, ended + [e]) == Through(s, ended) + LeavesThrough(s, e)
  {
    forall q | q in Through(s, ended) + LeavesThrough(s, e) ensures q in Through(s, ended + [e]) {
      if q in Through(s, ended) {
        var e' :| e' in ended && e' <= q;
        assert e' in ended + [e];
      } else {
        assert e in ended + [e];
      }
    }
  }

  /** Every run reached something that no earlier run had accounted for. */
  ghost predicate AllNew(s: Script, ended: seq<Path>) {
    forall j :: 0 <= j < |ended| ==> !Covered(s, Through(s, ended[..j]), ended[j])
  }

  lemma {:induction false} AllNewFirst(s: Script, ended: seq<Path>, n: nat)
    requires AllNew(s, ended) && n <= |ended|
    ensures AllNew(s, ended[..n])
  {
    forall j | 0 <= j < n ensures !Covered(s, Through(s, ended[..n][..j]), ended[..n][j]) {
      assert ended[..n][..j] == ended[..j];
    }
  }

  lemma {:induction false} MoreThrough(s: Script, rest: seq<Path>, e: Path)
    requires !Covered(s, Through(s, rest), e)
    ensures |Through(s, rest)| < |Through(s, rest + [e])|
  {
    ThroughOneMore(s, rest, e);
    var q :| IsLeaf(s, q) && e <= q && q !in Through(s, rest);
    LeavesAreLeaves(s, q);
    SubsetSize(Through(s, rest) + {q}, Through(s, rest + [e]));
  }

  /** So there are at most as many runs as the script has complete runs. */
  lemma {:induction false} AllNewBound(s: Script, ended: seq<Path>)
    requires AllNew(s, ended)
    ensures |ended| <= |Through(s, ended)| <= |Leaves(s)|
    ensures |ended| == |Leaves(s)| ==> Covered(s, Through(s, ended), [])
  {
    SubsetSize(Through(s, ended), Leaves(s));
    if ended != [] {
      var n := |ended| - 1;
      assert ended == ended[..n] + [ended[n]];
      AllNewFirst(s, ended, n);
      MoreThrough(s, ended[..n], ended[n]);
      AllNewBound(s, ended[..n]);
    }
    forall q | IsLeaf(s, q) ensures q in Leaves(s) { LeavesAreLeaves(s, q); }
  }

  /** runs are the positions where the paths of the runs made so far ended, accounts are what they
      accounted for, saved is what the next run replays, and flagged says that the last node on it
      is flagged covered although it is not. */
  datatype Search = Search(runs: seq<Path>, accounts: seq<Path>, saved: Path, flagged: bool)

  ghost function Explored(env: Env, st: Search): set<Path> {
    Through(env.script, st.accounts)
  }

  /** A fresh start: the root has one answer. */
  ghost function FromRoot(env: Env): (p: Path)
    requires ValidEnv(env)
    ensures IsPos(env.script, p)
  {
    AtStep(env.script, [], 0);
    assert [] + [0] == [0];
    [0]
  }

  lemma {:induction false} RootAnswer(env: Env, explored: set<Path>, p: Path)
    requires ValidEnv(env) && IsPos(env.script, p) && p != []
    ensures [0] <= p && (Covered(env.script, explored, [0]) <==> Covered(env.script, explored, []))
  {
    CoveredByKids(env.script, explored, []);
    assert [] + [0] == [0];
  }

  /** Where and why the next run stops. */
  ghost function NextHalt(env: Env, st: Search): (h: Halt)
    requires ValidEnv(env) && IsPos(env.script, st.saved)
    ensures IsPos(env.script, h.pos) && [0] <= h.pos && OnWay(st.saved, h.pos)
    ensures IsPos(env.script, EndOf(st.saved, h.pos)) && h.pos <= EndOf(st.saved, h.pos)
    ensures IsLeaf(env.script, h.pos) <==> h.reason.Ended?
  {
    if st.saved != [] then RootAnswer(env, Explored(env, st), st.saved); NextHaltFrom(env, st)
    else NextHaltFrom(env, st)
  }

  ghost function NextHaltFrom(env: Env, st: Search): (h: Halt)
    requires ValidEnv(env) && IsPos(env.script, st.saved) && OnWay(st.saved, [0])
    ensures IsPos(env.script, h.pos) && [0] <= h.pos && OnWay(st.saved, h.pos)
    ensures IsPos(env.script, EndOf(st.saved, h.pos)) && h.pos <= EndOf(st.saved, h.pos)
    ensures IsLeaf(env.script, h.pos) <==> h.reason.Ended?
  {
    var p := FromRoot(env);
    var h := RunFrom(env, |st.runs|, Explored(env, st), st.saved, st.flagged, p);
    EndOfIsPos(env, {}, st.saved, h.pos);
    h
  }

  /** The run is given up because all threads have ended, and the last thing that was consumed is a
      forall-thread node. */
  ghost predicate Marks(env: Env, h: Halt) {
    h.reason == GivenUp(true) && h.pos != [] && AtForall(env.script, h.pos[..|h.pos| - 1])
  }

  /** What a run that stops at p accounts for if it marks nothing: what lies below the end of its
      path, or all of the node that is flagged already, if it stops right there. */
  ghost function Base(saved: Path, flagged: bool, p: Path): Path {
    if flagged && |p| + 1 == |saved| then p else EndOf(saved, p)
  }

  /** Nothing is left to explore below the stop when the run ends. */
  ghost predicate Closes(s: Script, explored: set<Path>, saved: Path, flagged: bool, p: Path) {
    Covered(s, explored + LeavesThrough(s, Base(saved, flagged, p)), p)
  }

  /** What the run accounts for.  A marked forall node whose taken branch is closed is given up as a
      whole, together with the branches of the other threads. */
  ghost function Account(env: Env, explored: set<Path>, saved: Path, flagged: bool, h: Halt): Path {
    if Marks(env, h) && Closes(env.script, explored, saved, flagged, h.pos) then h.pos[..|h.pos| - 1]
    else Base(saved, flagged, h.pos)
  }

  /** The next run marks a forall node in whose taken branch something is left to explore. */
  ghost predicate OpenMark(env: Env, st: Search)
    requires ValidEnv(env) && IsPos(env.script, st.saved)
  {
    var h := NextHalt(env, st);
    Marks(env, h) && !Closes(env.script, Explored(env, st), st.saved, st.flagged, h.pos)
  }

  /** What the next run accounts for. */
  ghost function NextAccount(env: Env, st: Search): Path
    requires ValidEnv(env) && IsPos(env.script, st.saved)
  {
    Account(env, Explored(env, st), st.saved, st.flagged, NextHalt(env, st))
  }

  /** The path of the next run. */
  ghost function NextRun(env: Env, st: Search): (p: Path)
    requires ValidEnv(env) && IsPos(env.script, st.saved)
    ensures IsPos(env.script, p)
  {
    EndOf(st.saved, NextHalt(env, st).pos)
  }

  /** One more run.  keepTree is the mode that forgets the saved answers between runs. */
  ghost function Advance(env: Env, keepTree: bool, st: Search): (st': Search)
    requires ValidEnv(env) && IsPos(env.script, st.saved)
    ensures IsPos(env.script, st'.saved)
  {
    var run := NextRun(env, st);
    var accounts := st.accounts + [NextAccount(env, st)];
    var saved := LowestUncovered(env.script, Through(env.script, accounts), run, |run|);
    PrefixIsPos(env.script, saved, run);
    Search(st.runs + [run], accounts, if keepTree then FromRoot(env) else saved, OpenMark(env, st))
  }

  ghost function After(env: Env, keepTree: bool, n: nat): (st: Search)
    requires ValidEnv(env)
    ensures IsPos(env.script, st.saved)
  {
    if n == 0 then Search([], [], FromRoot(env), false) else Advance(env, keepTree, After(env, keepTree, n - 1))
  }

  /** What holds after any number of runs, until everything is accounted for. */
  ghost predicate SearchInv(env: Env, n: nat, st: Search) {
    && |st.runs| == |st.accounts| == n
    && AllNew(env.script, st.accounts)
    && IsPos(env.script, st.saved)
    && (!Covered(env.script, Explored(env, st), []) ==>
          && !Covered(env.script, Explored(env, st), st.saved) && [0] <= st.saved
          && (st.flagged ==> FlagAtForall(env, st.saved)))
  }

  /** The last node on the saved path is a forall node. */
  ghost predicate FlagAtForall(env: Env, saved: Path) {
    |saved| >= 2 && AtForall(env.script, saved[..|saved| - 1])
  }

  lemma {:induction false} AllNewOneMore(s: Script, accounts: seq<Path>, e: Path)
    requires AllNew(s, accounts) && !Covered(s, Through(s, accounts), e)
    ensures AllNew(s, accounts + [e])
  {
    var more := accounts + [e];
    forall j | 0 <= j < |more| ensures !Covered(s, Through(s, more[..j]), more[j]) {
      assert more[..j] == accounts[..j];
      assert accounts[..|accounts|] == accounts;
    }
  }

  /** What a run accounts for is new if what it replays is. */
  lemma {:induction false} AccountIsNew(env: Env, st: Search)
    requires ValidEnv(env) && IsPos(env.script, st.saved)
    requires !Covered(env.script, Explored(env, st), st.saved)
    ensures NextAccount(env, st) <= NextRun(env, st)
    ensures !Covered(env.script, Explored(env, st), NextRun(env, st))
    ensures !Covered(env.script, Explored(env, st), NextAccount(env, st))
  {
    var e, h := Explored(env, st), NextHalt(env, st);
    CoveredBelow(env.script, e, [], st.saved);
    RootAnswer(env, e, [0]);
    RunUncovered(env, |st.runs|, e, st.saved, st.flagged, FromRoot(env));
    EndOfIsPos(env, e, st.saved, h.pos);
    CoveredBelow(env.script, e, NextAccount(env, st), NextRun(env, st));
  }

  /** A marked node in whose taken branch something is left stays on the saved path, as its last. */
  lemma {:induction false} OpenMarkStays(env: Env, st: Search)
    requires ValidEnv(env) && IsPos(env.script, st.saved) && OpenMark(env, st)
    ensures var h, st' := NextHalt(env, st), Advance(env, false, st);
            && |h.pos| < |st.saved| && FlagAtForall(env, h.pos)
            && NextAccount(env, st) == NextRun(env, st) == st.saved[..|h.pos| + 1]
            && st'.saved == h.pos && st'.flagged
            && !Covered(env.script, Explored(env, st'), h.pos)
  {
    var e, h := Explored(env, st), NextHalt(env, st);
    var run := NextRun(env, st);
    ExploreThrough(env.script, e, Base(st.saved, st.flagged, h.pos), h.pos);
    ThroughOneMore(env.script, st.accounts, run);
    var e' := e + LeavesThrough(env.script, run);
    ExploreThrough(env.script, e, run, run);
    CoveredBelow(env.script, e', [], h.pos);
    assert run[..|run|] == run && run[..|run| - 1] == h.pos;
    assert LowestUncovered(env.script, e', run, |run|) == h.pos;
  }

  lemma {:induction false} FlagStays(env: Env, keepTree: bool, st: Search)
    requires ValidEnv(env) && IsPos(env.script, st.saved) && (keepTree ==> st.saved == [0] && !st.flagged)
    ensures var st' := Advance(env, keepTree, st);
            st'.flagged ==> !keepTree && FlagAtForall(env, st'.saved)
  {
    if OpenMark(env, st) {
      OpenMarkStays(env, st);
    }
  }

  /** Each further run is new, and the invariant of the search survives it. */
  lemma {:induction false} AdvanceKeeps(env: Env, keepTree: bool, n: nat, st: Search)
    requires ValidEnv(env) && SearchInv(env, n, st) && !Covered(env.script, Explored(env, st), [])
    requires keepTree ==> st.saved == [0] && !st.flagged
    ensures SearchInv(env, n + 1, Advance(env, keepTree, st))
    ensures keepTree ==> !Advance(env, keepTree, st).flagged
  {
    var st' := Advance(env, keepTree, st);
    AccountIsNew(env, st);
    AllNewOneMore(env.script, st.accounts, st'.accounts[n]);
    SavedFromRoot(env, st, Explored(env, st'));
    FlagStays(env, keepTree, st);
  }

  /** If anything is left then the lowest uncovered position is below the root. */
  lemma {:induction false} SavedFromRoot(env: Env, st: Search, explored: set<Path>)
    requires ValidEnv(env) && IsPos(env.script, st.saved)
    ensures var run := NextRun(env, st);
            && [0] <= run
            && (!Covered(env.script, explored, []) ==>
                  && [0] <= LowestUncovered(env.script, explored, run, |run|)
                  && !Covered(env.script, explored, [0]))
  {
    var run := NextRun(env, st);
    RootAnswer(env, explored, run);
    assert run[..1] == [0];
    if !Covered(env.script, explored, []) {
      var saved := LowestUncovered(env.script, explored, run, |run|);
      assert !Covered(env.script, explored, run[..1]);
      PrefixIsPos(env.script, saved, run);
      RootAnswer(env, explored, saved);
    }
  }

  /** What one more run adds. */
  lemma {:induction false} OneMoreRun(env: Env, keepTree: bool, st: Search)
    requires ValidEnv(env) && IsPos(env.script, st.saved) && [0] <= st.saved
    ensures var st' := Advance(env, keepTree, st);
            var e := Explored(env, st);
            var h := RunFrom(env, |st.runs|, e, st.saved, st.flagged, [0]);
            var run, account := EndOf(st.saved, h.pos), Account(env, e, st.saved, st.flagged, h);
            && h == NextHalt(env, st)
            && st'.runs == st.runs + [run] && st'.accounts == st.accounts + [account]
            && Explored(env, st') == e + LeavesThrough(env.script, account)
            && st'.saved == (if keepTree then [0] else LowestUncovered(env.script, Explored(env, st'), run, |run|))
            && st'.flagged == (Marks(env, h) && !Closes(env.script, e, st.saved, st.flagged, h.pos))
  {
    ThroughOneMore(env.script, st.accounts, NextAccount(env, st));
  }

  /** Whether everything is accounted for after n runs. */
  ghost predicate Finished(env: Env, keepTree: bool, n: nat)
    requires ValidEnv(env)
  {
    Covered(env.script, Explored(env, After(env, keepTree, n)), [])
  }

  /** After n runs something is left, and the next run fails a check of the program. */
  ghost predicate FailsNext(env: Env, keepTree: bool, n: nat)
    requires ValidEnv(env)
  {
    !Finished(env, keepTree, n) && NextHalt(env, After(env, keepTree, n)).reason.CheckFails?
  }

  /** The search did not stop before n runs. */
  ghost predicate NotBefore(env: Env, keepTree: bool, n: nat)
    requires ValidEnv(env)
  {
    n > 0 ==> NotBefore(env, keepTree, n - 1) && !Finished(env, keepTree, n - 1) && !FailsNext(env, keepTree, n - 1)
  }

  lemma {:induction false} AfterInv(env: Env, keepTree: bool, n: nat)
    requires ValidEnv(env) && NotBefore(env, keepTree, n)
    ensures SearchInv(env, n, After(env, keepTree, n))
    ensures keepTree ==> After(env, keepTree, n).saved == [0] && !After(env, keepTree, n).flagged
  {
    if n == 0 {
      RootAnswer(env, Through(env.script, []), [0]);
    } else {
      AfterInv(env, keepTree, n - 1);
      AfterOneMore(env, keepTree, n);
    }
  }

  lemma {:induction false} AfterOneMore(env: Env, keepTree: bool, n: nat)
    requires ValidEnv(env) && n > 0 && SearchInv(env, n - 1, After(env, keepTree, n - 1))
    requires !Covered(env.script, Explored(env, After(env, keepTree, n - 1)), [])
    requires keepTree ==> After(env, keepTree, n - 1).saved == [0] && !After(env, keepTree, n - 1).flagged
    ensures SearchInv(env, n, After(env, keepTree, n))
    ensures keepTree ==> After(env, keepTree, n).saved == [0] && !After(env, keepTree, n).flagged
  {
    AdvanceKeeps(env, keepTree, n - 1, After(env, keepTree, n - 1));
  }

  /** n is the number of runs after which everything is accounted for, and not before. */
  ghost predicate EndsAfter(env: Env, keepTree: bool, n: nat)
    requires ValidEnv(env)
  {
    Finished(env, keepTree, n) && NotBefore(env, keepTree, n)
  }

  /** n runs are made, and the one after them fails a check of the program. */
  ghost predicate FailsAfter(env: Env, keepTree: bool, n: nat)
    requires ValidEnv(env)
  {
    FailsNext(env, keepTree, n) && NotBefore(env, keepTree, n)
  }

  /** The search stops after n runs, in one way or the other. */
  ghost predicate StopsAfter(env: Env, keepTree: bool, n: nat)
    requires ValidEnv(env)
  {
    EndsAfter(env, keepTree, n) || FailsAfter(env, keepTree, n)
  }

  lemma {:induction false} AtMostLeaves(env: Env, keepTree: bool, n: nat)
    requires ValidEnv(env) && NotBefore(env, keepTree, n)
    ensures n <= |Leaves(env.script)|
    ensures n == |Leaves(env.script)| ==> Finished(env, keepTree, n)
    ensures !Finished(env, keepTree, n) && !FailsNext(env, keepTree, n) ==> NotBefore(env, keepTree, n + 1)
  {
    AfterInv(env, keepTree, n);
    AllNewBound(env.script, After(env, keepTree, n).accounts);
  }

  /** n runs have been made without stopping before. */
  ghost predicate Reached(env: Env, keepTree: bool, st: Search, n: nat)
    requires ValidEnv(env)
  {
    && st == After(env, keepTree, n) && NotBefore(env, keepTree, n)
    && |st.runs| == n <= |Leaves(env.script)|
  }

  lemma {:induction false} ReachedIsAfter(env: Env, keepTree: bool, st: Search, n: nat)
    requires ValidEnv(env) && Reached(env, keepTree, st, n)
    ensures st == After(env, keepTree, n) && n <= |Leaves(env.script)|
  {
  }

  lemma {:induction false} ReachedStep(env: Env, keepTree: bool, st: Search, n: nat)
    requires ValidEnv(env) && Reached(env, keepTree, st, n)
    ensures !Covered(env.script, Explored(env, st), []) ==> n < |Leaves(env.script)| && SearchInv(env, n, st)
    ensures !Covered(env.script, Explored(env, st), []) && !NextHalt(env, st).reason.CheckFails? ==>
              Reached(env, keepTree, Advance(env, keepTree, st), n + 1)
    ensures !Covered(env.script, Explored(env, st), []) && NextHalt(env, st).reason.CheckFails? ==>
              FailsAfter(env, keepTree, n)
    ensures Covered(env.script, Explored(env, st), []) ==> EndsAfter(env, keepTree, n)
  {
    AtMostLeaves(env, keepTree, n);
    AfterInv(env, keepTree, n);
    if NotBefore(env, keepTree, n + 1) {
      AtMostLeaves(env, keepTree, n + 1);
    }
  }

  /** The search stops, whatever the oracles do. */
  lemma {:induction false} SearchStops(env: Env, keepTree: bool) returns (n: nat)
    requires ValidEnv(env)
    ensures n <= |Leaves(env.script)| && StopsAfter(env, keepTree, n)
  {
    n := 0;
    AtMostLeaves(env, keepTree, n);
    while !Finished(env, keepTree, n) && !FailsNext(env, keepTree, n)
      invariant NotBefore(env, keepTree, n) && n <= |Leaves(env.script)|
      decreases |Leaves(env.script)| - n
    {
      AtMostLeaves(env, keepTree, n);
      n := n + 1;
      AtMostLeaves(env, keepTree, n);
    }
  }

  /** A run without a flagged node fails no check. */
  lemma {:induction false} NoFlagNoFailure(env: Env, st: Search)
    requires ValidEnv(env) && IsPos(env.script, st.saved) && !st.flagged
    ensures !NextHalt(env, st).reason.CheckFails?
  {
    var p := FromRoot(env);
    if st.saved != [] { RootAnswer(env, {}, st.saved); }
    FlagDecides(env, |st.runs|, Explored(env, st), st.saved, false, p);
  }

  /** In the mode that keeps the tree no check fails. */
  lemma {:induction false} FreshStartNeverFails(env: Env, n: nat)
    requires ValidEnv(env) && NotBefore(env, true, n)
    ensures !FailsNext(env, true, n)
  {
    AfterInv(env, true, n);
    NoFlagNoFailure(env, After(env, true, n));
  }

  lemma {:induction false} NotStoppedBefore(env: Env, keepTree: bool, n: nat, m: nat)
    requires ValidEnv(env) && NotBefore(env, keepTree, m) && n < m
    ensures NotBefore(env, keepTree, n + 1)
    decreases m - n
  {
    if n + 1 < m {
      NotStoppedBefore(env, keepTree, n + 1, m);
    }
  }

  /** There is only one such number. */
  lemma {:induction false} StopsOnce(env: Env, keepTree: bool, n: nat, m: nat)
    requires ValidEnv(env) && StopsAfter(env, keepTree, n) && StopsAfter(env, keepTree, m)
    ensures n == m
  {
    if n < m {
      NotStoppedBefore(env, keepTree, n, m);
    } else if m < n {
      NotStoppedBefore(env, keepTree, m, n);
    }
  }

  /** Runs that are all complete account for themselves only. */
  lemma {:induction false} CompleteRuns(s: Script, runs: seq<Path>)
    requires forall q :: q in runs ==> IsLeaf(s, q)
    ensures Through(s, runs) == Elements(runs)
    ensures AllNew(s, runs) ==> NoRepeats(runs)
    ensures Covered(s, Elements(runs), []) ==> forall q :: q in runs <==> IsLeaf(s, q)
  {
    forall q, r | IsLeaf(s, q) && IsLeaf(s, r) && q <= r ensures q == r {
      PrefixIsPos(s, q, r);
    }
    forall q | IsLeaf(s, q) ensures q in Leaves(s) && [] <= q { LeavesAreLeaves(s, q); }
    forall q ensures q in Through(s, runs) <==> q in runs {
      LeavesAreLeaves(s, q);
      if q in Through(s, runs) {
        var e :| e in runs && e <= q;
      }
    }
    if AllNew(s, runs) {
      forall i, j | 0 <= i < j < |runs| ensures runs[i] != runs[j] {
        assert runs[i] in runs[..j];
        if runs[i] == runs[j] {
          assert Covered(s, Through(s, runs[..j]), runs[j]);
        }
      }
    }
  }

  lemma {:induction false} NextComplete(env: Env, st: Search)
    requires ValidEnv(env) && NeverGivesUp(env) && IsPos(env.script, st.saved) && !st.flagged
    ensures var h := NextHalt(env, st);
            IsLeaf(env.script, h.pos) && NextRun(env, st) == h.pos == NextAccount(env, st) && !Marks(env, h)
  {
    var h := NextHalt(env, st);
    FlagDecides(env, |st.runs|, Explored(env, st), st.saved, false, FromRoot(env));
    if |h.pos| < |st.saved| {
      PrefixIsPos(env.script, h.pos, st.saved);
    }
  }

  /** Without giving up every run is complete, and accounts for itself. */
  ghost predicate AllComplete(env: Env, st: Search) {
    NeverGivesUp(env) ==>
      st.accounts == st.runs && !st.flagged && forall q :: q in st.runs ==> IsLeaf(env.script, q)
  }

  lemma {:induction false} OneMoreComplete(env: Env, keepTree: bool, st: Search)
    requires ValidEnv(env) && IsPos(env.script, st.saved) && AllComplete(env, st)
    ensures AllComplete(env, Advance(env, keepTree, st))
  {
    if NeverGivesUp(env) {
      NextComplete(env, st);
    }
  }

  lemma {:induction false} AfterComplete(env: Env, keepTree: bool, n: nat)
    requires ValidEnv(env)
    ensures AllComplete(env, After(env, keepTree, n))
  {
    hide ValidEnv, Advance, NeverGivesUp;
    if n > 0 {
      AfterComplete(env, keepTree, n - 1);
      AfterOneMoreComplete(env, keepTree, n);
    } else {
      assert AllComplete(env, Search([], [], FromRoot(env), false));
    }
  }

  lemma {:induction false} AfterOneMoreComplete(env: Env, keepTree: bool, n: nat)
    requires ValidEnv(env) && n > 0 && AllComplete(env, After(env, keepTree, n - 1))
    ensures AllComplete(env, After(env, keepTree, n))
  {
    OneMoreComplete(env, keepTree, After(env, keepTree, n - 1));
  }

  /** Every complete run goes through one of these positions, each of which was new. */
  ghost predicate AccountsForAll(s: Script, runs: seq<Path>) {
    && AllNew(s, runs) && |runs| <= |Leaves(s)|
    && forall q :: IsLeaf(s, q) ==> exists e :: e in runs && e <= q
  }

  /** The runs are the complete runs of the script, each made once. */
  ghost predicate ExactlyOnce(s: Script, runs: seq<Path>) {
    && |runs| == |Leaves(s)| && NoRepeats(runs)
    && forall q :: q in runs <==> IsLeaf(s, q)
  }

  lemma {:induction false} NothingLeft(s: Script, runs: seq<Path>)
    requires AllNew(s, runs) && Covered(s, Through(s, runs), [])
    ensures AccountsForAll(s, runs)
  {
    AllNewBound(s, runs);
    forall q | IsLeaf(s, q) ensures exists e :: e in runs && e <= q {
      assert [] <= q;
    }
  }

  lemma {:induction false} AllRunsMade(s: Script, runs: seq<Path>)
    requires AllNew(s, runs) && Covered(s, Through(s, runs), []) && forall q :: q in runs ==> IsLeaf(s, q)
    ensures ExactlyOnce(s, runs)
  {
    CompleteRuns(s, runs);
    NoRepeatsSize(runs);
    forall q ensures q in Elements(runs) <==> q in Leaves(s) { LeavesAreLeaves(s, q); }
    assert Elements(runs) == Leaves(s);
  }

  /** What a search amounts to: it accounts for every complete run, and when no run is given up
      each complete run is made exactly once. */
  ghost predicate Exhaustive(env: Env, st: Search) {
    AccountsForAll(env.script, st.accounts) && (NeverGivesUp(env) ==> ExactlyOnce(env.script, st.runs))
  }

  lemma {:induction false} Amounts(env: Env, st: Search)
    requires AllNew(env.script, st.accounts) && Covered(env.script, Explored(env, st), []) && AllComplete(env, st)
    ensures Exhaustive(env, st)
  {
    NothingLeft(env.script, st.accounts);
    if NeverGivesUp(env) {
      AllRunsMade(env.script, st.runs);
    }
  }

  lemma {:induction false} SearchIsExhaustive(env: Env, keepTree: bool, n: nat, st: Search)
    requires ValidEnv(env) && EndsAfter(env, keepTree, n) && st == After(env, keepTree, n)
    ensures |st.runs| == n && Exhaustive(env, st)
  {
    AfterInv(env, keepTree, n);
    AfterComplete(env, keepTree, n);
    Amounts(env, st);
  }
}
