/** A whole search in which every run is an interleaving of the script's thread with the threads under
    test: it is the reference search for oracles that can be read off the runs, and so the engine that
    is driven by these oracles records the same paths. */
module ConcurrentSearch {
  import opened ConcurrentRuns
  import H = HandOff
  import opened Manager
  import opened Scenarios
  import opened Scripts
  import opened SearchSpec

  /** A run, with its random bits and the reason why it stopped. */
  datatype Segment = Segment(coin: Path -> bool, r: Run, reason: Reason)

  ghost predicate ValidScript(script: Script) {
    WellFormed(script) && script.Step? && script.kind.Root?
  }

  /** What the run starts with after the runs before. */
  ghost function SetupOf(script: Script, st: Search, seg: Segment): Setup {
    Setup(script, seg.coin, Through(script, st.accounts), st.saved, st.flagged)
  }

  /** What the engine makes of a run that stopped in this way. */
  ghost function EndRun(env: Env, keepTree: bool, st: Search, h: Halt): Search {
    var e, run := Through(env.script, st.accounts), EndOf(st.saved, h.pos);
    var accounts := st.accounts + [Account(env, e, st.saved, st.flagged, h)];
    Search(st.runs + [run], accounts,
           if keepTree then [0] else LowestUncovered(env.script, Through(env.script, accounts), run, |run|),
           Marks(env, h) && !Closes(env.script, e, st.saved, st.flagged, h.pos))
  }

  /** What the runs give. */
  ghost function AfterRuns(script: Script, keepTree: bool, segs: seq<Segment>): Search {
    if segs == [] then Search([], [], [0], false)
    else
      var n := |segs| - 1;
      EndRun(SearchEnv(script, []), keepTree, AfterRuns(script, keepTree, segs[..n]),
             Halt(Last(segs[n].r).p, segs[n].reason))
  }

  /** The run starts with what the runs before have left, is an interleaving of its threads that has
      ended, and fails no check. */
  ghost predicate IsNextRun(script: Script, st: Search, seg: Segment) {
    var u, c := SetupOf(script, st, seg), Last(seg.r);
    && !Covered(script, Through(script, st.accounts), [])
    && IsRun(u, seg.r) && H.Content(c.s).End?
    && IsPos(script, c.p) && MayStop(u, c, seg.reason) && !seg.reason.CheckFails?
  }

  ghost predicate IsSearch(script: Script, keepTree: bool, segs: seq<Segment>) {
    segs != [] ==>
      var n := |segs| - 1;
      IsSearch(script, keepTree, segs[..n]) && IsNextRun(script, AfterRuns(script, keepTree, segs[..n]), segs[n])
  }

  /** The oracles that the runs show. */
  function SearchEnv(script: Script, segs: seq<Segment>): Env {
    Env(script,
        (run: nat, p: Path) => run < |segs| && segs[run].coin(p),
        (run: nat, p: Path) => (if run < |segs| then Seen(Last(segs[run].r).seen, p) else []) + Everyone(script, p),
        (run: nat, p: Path) => run < |segs| && segs[run].reason.GivenUp? && p == Last(segs[run].r).p,
        (run: nat, p: Path) => run < |segs| && segs[run].reason == GivenUp(true))
  }

  lemma {:induction false} SearchEnvIsValid(script: Script, segs: seq<Segment>)
    requires ValidScript(script)
    ensures ValidEnv(SearchEnv(script, segs))
  {
    var env := SearchEnv(script, segs);
    forall run: nat, p | AtForall(env.script, p)
      ensures EachArrives(|At(env.script, p).next|, env.arrivals(run, p))
    {
      EveryoneArrives(script, p, if run < |segs| then Seen(Last(segs[run].r).seen, p) else []);
    }
  }

  // ---------------------------------------------------------------- only the oracles of a run matter to it

  ghost predicate SameOracles(env: Env, env': Env, run: nat) {
    && env.script == env'.script
    && forall p :: env.coin(run, p) == env'.coin(run, p) && env.arrivals(run, p) == env'.arrivals(run, p)
                   && env.givesUp(run, p) == env'.givesUp(run, p) && env.allEnded(run, p) == env'.allEnded(run, p)
  }

  lemma {:induction false} SameRun(env: Env, env': Env, run: nat, explored: set<Path>, saved: Path, flagged: bool,
                                   p: Path)
    requires ValidEnv(env) && ValidEnv(env') && SameOracles(env, env', run)
    requires IsPos(env.script, saved) && IsPos(env.script, p) && OnWay(saved, p)
    ensures RunFrom(env', run, explored, saved, flagged, p) == RunFrom(env, run, explored, saved, flagged, p)
    decreases At(env.script, p)
  {
    if At(env.script, p).Step? && (p != [] ==> !env.givesUp(run, p)) {
      assert ReplyAt(env', run, explored, saved, flagged, p) == ReplyAt(env, run, explored, saved, flagged, p);
      if ReplyAt(env, run, explored, saved, flagged, p).Answer? {
        AnswerLeads(env, run, explored, saved, flagged, p);
        SameRun(env, env', run, explored, saved, flagged, p + [ReplyAt(env, run, explored, saved, flagged, p).answer]);
      }
    }
  }

  lemma {:induction false} SameAdvance(env: Env, env': Env, keepTree: bool, st: Search)
    requires ValidEnv(env) && ValidEnv(env') && SameOracles(env, env', |st.runs|)
    requires env.script == env'.script && IsPos(env.script, st.saved)
    ensures NextHalt(env', st) == NextHalt(env, st)
    ensures Advance(env', keepTree, st) == Advance(env, keepTree, st)
  {
    hide RunFrom, ValidEnv, SameOracles;
    var e, p := Explored(env, st), FromRoot(env);
    if st.saved != [] { RootAnswer(env, e, st.saved); }
    SameRun(env, env', |st.runs|, e, st.saved, st.flagged, p);
  }

  lemma {:induction false} SameSearch(env: Env, env': Env, keepTree: bool, n: nat)
    requires ValidEnv(env) && ValidEnv(env') && forall i: nat :: i < n ==> SameOracles(env, env', i)
    requires NotBefore(env, keepTree, n) && env.script == env'.script
    ensures After(env', keepTree, n) == After(env, keepTree, n) && NotBefore(env', keepTree, n)
  {
    hide ValidEnv, SameOracles, Advance, NextHalt, Covered, Explored;
    if n > 0 {
      SameSearch(env, env', keepTree, n - 1);
      AfterInv(env, keepTree, n - 1);
      var st := After(env, keepTree, n - 1);
      SameAdvance(env, env', keepTree, st);
      assert Explored(env', st) == Explored(env, st) by { SameExplored(env, env', st); }
      assert After(env, keepTree, n) == Advance(env, keepTree, st);
      assert After(env', keepTree, n) == Advance(env', keepTree, st);
    }
  }

  lemma {:induction false} SameExplored(env: Env, env': Env, st: Search)
    requires env.script == env'.script
    ensures Explored(env', st) == Explored(env, st)
  {
  }

  // ---------------------------------------------------------------- the search as a reference search

  lemma {:induction false} AdvanceIsEndRun(env: Env, env': Env, keepTree: bool, st: Search)
    requires ValidEnv(env) && env.script == env'.script && IsPos(env.script, st.saved)
    ensures Advance(env, keepTree, st) == EndRun(env', keepTree, st, NextHalt(env, st))
  {
    hide RunFrom, ValidEnv;
  }

  /** The oracles of the last run are those of its own threads. */
  lemma {:induction false} LastOracles(u: Setup, segs: seq<Segment>)
    requires segs != [] && u.coin == segs[|segs| - 1].coin
    ensures var n := |segs| - 1;
            SameOracles(StoppedOracles(u, Last(segs[n].r), segs[n].reason), SearchEnv(u.script, segs), n)
  {
  }

  lemma {:induction false} EarlierOracles(script: Script, segs: seq<Segment>, i: nat)
    requires i + 1 < |segs|
    ensures SameOracles(SearchEnv(script, segs[..|segs| - 1]), SearchEnv(script, segs), i)
  {
    assert segs[..|segs| - 1][i] == segs[i];
  }

  /** One more run of the search, when the runs before are those of the reference search. */
  lemma {:induction false} NextIsReference(script: Script, segs: seq<Segment>, st: Search)
    requires ValidScript(script) && segs != [] && ValidEnv(SearchEnv(script, segs))
    requires SearchInv(SearchEnv(script, segs), |segs| - 1, st) && IsNextRun(script, st, segs[|segs| - 1])
    ensures NextHalt(SearchEnv(script, segs), st) == Halt(Last(segs[|segs| - 1].r).p, segs[|segs| - 1].reason)
  {
    hide RunFrom, ValidEnv, Oracles, IsRun, MayStop, SearchEnv, SameOracles;
    var n := |segs| - 1;
    var seg, env, u := segs[n], SearchEnv(script, segs), SetupOf(script, st, segs[n]);
    ScriptOf(script, segs);
    RunHasStates(u, seg.r);
    RunIsReferenceRun(u, seg.r, |seg.r.states| - 1, seg.reason, n);
    LastOracles(u, segs);
    SameRun(StoppedOracles(u, Last(seg.r), seg.reason), env, n, u.explored, u.saved, u.flagged, [0]);
  }

  lemma {:induction false} RunHasStates(u: Setup, r: Run)
    requires IsRun(u, r)
    ensures r.states != []
  {
  }

  lemma {:induction false} ScriptOf(script: Script, segs: seq<Segment>)
    ensures SearchEnv(script, segs).script == script
  {
  }

  /** Whatever the threads do in each run, the search is the reference search. */
  lemma {:induction false} SearchIsReference(script: Script, keepTree: bool, segs: seq<Segment>)
    requires ValidScript(script) && IsSearch(script, keepTree, segs)
    ensures var env := SearchEnv(script, segs);
            && ValidEnv(env) && NotBefore(env, keepTree, |segs|)
            && After(env, keepTree, |segs|) == AfterRuns(script, keepTree, segs)
  {
    hide ValidEnv, SearchEnv, NextHalt, Advance, EndRun, IsNextRun, Covered, SameOracles, Explored;
    SearchEnvIsValid(script, segs);
    ScriptOf(script, segs);
    if segs != [] {
      var n, env := |segs| - 1, SearchEnv(script, segs);
      SearchIsReference(script, keepTree, segs[..n]);
      ScriptOf(script, segs[..n]);
      forall i: nat | i < n ensures SameOracles(SearchEnv(script, segs[..n]), env, i) {
        EarlierOracles(script, segs, i);
      }
      SameSearch(SearchEnv(script, segs[..n]), env, keepTree, n);
      GoesOn(script, keepTree, segs, AfterRuns(script, keepTree, segs[..n]));
    }
  }

  lemma {:induction false} GoesOn(script: Script, keepTree: bool, segs: seq<Segment>, st: Search)
    requires ValidScript(script) && segs != [] && ValidEnv(SearchEnv(script, segs))
    requires NotBefore(SearchEnv(script, segs), keepTree, |segs| - 1)
    requires st == After(SearchEnv(script, segs), keepTree, |segs| - 1)
    requires IsNextRun(script, st, segs[|segs| - 1])
    ensures NotBefore(SearchEnv(script, segs), keepTree, |segs|)
    ensures After(SearchEnv(script, segs), keepTree, |segs|) ==
            EndRun(SearchEnv(script, []), keepTree, st, Halt(Last(segs[|segs| - 1].r).p, segs[|segs| - 1].reason))
  {
    hide ValidEnv, SearchEnv, NextHalt, Advance, EndRun, Covered;
    var n, env := |segs| - 1, SearchEnv(script, segs);
    ScriptOf(script, segs);
    ScriptOf(script, []);
    AfterInv(env, keepTree, n);
    NextIsReference(script, segs, st);
    AdvanceIsEndRun(env, SearchEnv(script, []), keepTree, st);
    assert After(env, keepTree, n + 1) == Advance(env, keepTree, st);
  }

  /** So there are no more runs than complete runs of the script, and once everything is accounted for
      every complete run is. */
  lemma {:induction false} SearchIsBounded(script: Script, keepTree: bool, segs: seq<Segment>)
    requires ValidScript(script) && IsSearch(script, keepTree, segs)
    ensures ValidEnv(SearchEnv(script, segs)) && |segs| <= |Leaves(script)|
    ensures var st := AfterRuns(script, keepTree, segs);
            Covered(script, Through(script, st.accounts), []) ==>
              EndsAfter(SearchEnv(script, segs), keepTree, |segs|) && AccountsForAll(script, st.accounts)
  {
    hide IsSearch, NotBefore;
    var env, st := SearchEnv(script, segs), AfterRuns(script, keepTree, segs);
    SearchIsReference(script, keepTree, segs);
    AtMostLeaves(env, keepTree, |segs|);
    if Covered(script, Through(script, st.accounts), []) {
      SearchIsExhaustive(env, keepTree, |segs|, st);
    }
  }

  /** The engine, driven by these oracles one call at a time, explores the whole script and records the
      paths of the runs. */
  method ExploreAgain(script: Script, segs: seq<Segment>, deleteCoveredSubtrees: bool, keepTree: bool)
    returns (engine: ExecutionTreeManager)
    requires ValidScript(script) && IsSearch(script, keepTree, segs)
    requires Covered(script, Through(script, AfterRuns(script, keepTree, segs).accounts), [])
    ensures ValidEnv(SearchEnv(script, segs))
    ensures Explores(engine, SearchEnv(script, segs), deleteCoveredSubtrees, keepTree, false)
    ensures engine.t.made == AfterRuns(script, keepTree, segs).runs && |engine.t.made| == |segs|
  {
    hide ValidEnv, SearchEnv, IsSearch, AfterRuns, Covered, NotBefore, Finished;
    var env := SearchEnv(script, segs);
    SearchIsReference(script, keepTree, segs);
    SearchIsBounded(script, keepTree, segs);
    var runs, failed;
    runs, failed, engine := ExploreAll(env, deleteCoveredSubtrees, keepTree);
    StopsOnce(env, keepTree, runs, |segs|);
  }
}
