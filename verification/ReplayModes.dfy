/** Replaying the saved stack and replaying the tree: the two modes make the same runs in the same
    order when the oracles do not change from run to run. */
module ReplayModes {
  import opened Counting
  import opened Scripts
  import opened SearchSpec

  /** The oracles give the same answer at a position in every run; a star that is not
      nondeterministic draws no random bit, so nothing is asked of it. */
  ghost predicate SameEveryRun(env: Env) {
    && (forall run, run', p :: IsPos(env.script, p) && At(env.script, p).Step? && At(env.script, p).kind == Star(true)
          ==> env.coin(run, p) == env.coin(run', p))
    && (forall run, run', p :: AtForall(env.script, p) ==> env.arrivals(run, p) == env.arrivals(run', p))
    && (forall run, run', p :: env.givesUp(run, p) == env.givesUp(run', p))
    && (forall run, run', p :: env.allEnded(run, p) == env.allEnded(run', p))
  }

  lemma {:induction false} FirstUncoveredStable(s: Script, e: set<Path>, e': set<Path>, p: Path, n: nat,
                                                arriving: seq<Arrival>)
    requires e <= e'
    requires exists v: nat :: Arrival(v, true) in arriving && v < n && !Covered(s, e, p + [v])
    requires !Covered(s, e', p + [FirstUncovered(s, e, p, n, arriving)])
    ensures FirstUncovered(s, e', p, n, arriving) == FirstUncovered(s, e, p, n, arriving)
  {
    var a := arriving[0];
    if !(a.accepted && a.thread < n && !Covered(s, e, p + [a.thread])) {
      FirstUncoveredStable(s, e, e', p, n, arriving[1..]);
    }
  }

  /** An answer that was chosen once is chosen again for as long as its branch is uncovered. */
  lemma {:induction false} ChooseStable(env: Env, run: nat, run': nat, e: set<Path>, e': set<Path>, p: Path)
    requires ValidEnv(env) && SameEveryRun(env) && e <= e'
    requires IsPos(env.script, p) && At(env.script, p).Step? && (p != [] ==> !env.givesUp(run, p))
    requires !Covered(env.script, e', p + [Choose(env, run, e, p)])
    ensures Choose(env, run', e', p) == Choose(env, run, e, p)
  {
    AtWellFormed(env.script, p);
    if AtForall(env.script, p) {
      var l := Choose(env, run, e, p);
      ChooseUncovered(env, run, e, p);
      assert !Covered(env.script, e, p + [l]);
      assert Arrival(l, true) in env.arrivals(run, p);
      FirstUncoveredStable(env.script, e, e', p, |At(env.script, p).next|, env.arrivals(run, p));
      assert env.arrivals(run, p) == env.arrivals(run', p);
    }
  }

  /** Every answer on q is the one that the rule for free choices gives, and the run is not given
      up on the way. */
  ghost predicate Chosen(env: Env, run: nat, explored: set<Path>, q: Path) {
    && IsPos(env.script, q) && [0] <= q
    && forall k {:trigger q[k]} :: 0 <= k < |q| ==>
         && IsPos(env.script, q[..k]) && At(env.script, q[..k]).Step?
         && q[k] == Choose(env, run, explored, q[..k])
         && (k > 0 ==> !env.givesUp(run, q[..k]))
  }

  lemma {:induction false} ChosenOneMore(env: Env, run: nat, explored: set<Path>, p: Path, l: nat)
    requires ValidEnv(env) && Chosen(env, run, explored, p) && At(env.script, p).Step? && !env.givesUp(run, p)
    requires l == Choose(env, run, explored, p) && l < |At(env.script, p).next|
    ensures Chosen(env, run, explored, p + [l])
  {
    AtStep(env.script, p, l);
    var p' := p + [l];
    forall k | 0 <= k < |p'|
      ensures IsPos(env.script, p'[..k]) && At(env.script, p'[..k]).Step?
      ensures p'[k] == Choose(env, run, explored, p'[..k])
      ensures k > 0 ==> !env.givesUp(run, p'[..k])
    {
      if k < |p| {
        assert p'[..k] == p[..k] && p'[k] == p[k];
      } else {
        assert p'[..k] == p;
      }
    }
  }

  /** Replaying chosen answers is the same as choosing again from any of them on, and the whole run
      consists of chosen answers. */
  lemma {:induction false} ReplayIsChoice(env: Env, run: nat, explored: set<Path>, saved: Path, p: Path)
    requires ValidEnv(env) && Chosen(env, run, explored, saved) && Chosen(env, run, explored, p) && OnWay(saved, p)
    ensures IsPos(env.script, [0]) && OnWay([0], p)
    ensures RunFrom(env, run, explored, saved, false, p) == RunFrom(env, run, explored, [0], false, p)
    ensures Chosen(env, run, explored, RunFrom(env, run, explored, saved, false, p).pos)
    ensures saved <= RunFrom(env, run, explored, saved, false, p).pos
    decreases At(env.script, p)
  {
    PrefixIsPos(env.script, [0], p);
    if |p| < |saved| {
      var l := saved[|p|];
      assert saved[..|p|] == p;
    }
    if At(env.script, p).Step? && !env.givesUp(run, p) {
      var l := Choose(env, run, explored, p);
      assert ReplyAt(env, run, explored, saved, false, p) == Answer(l) == ReplyAt(env, run, explored, [0], false, p);
      AnswerLeads(env, run, explored, saved, false, p);
      ChosenOneMore(env, run, explored, p, l);
      ReplayIsChoice(env, run, explored, saved, p + [l]);
    }
  }

  /** The part of a chosen run above an uncovered position stays chosen in the next run. */
  lemma {:induction false} ChosenStable(env: Env, run: nat, run': nat, e: set<Path>, e': set<Path>, q: Path, p: Path)
    requires ValidEnv(env) && SameEveryRun(env) && e <= e'
    requires Chosen(env, run, e, q) && [0] <= p <= q && !Covered(env.script, e', p)
    ensures Chosen(env, run', e', p)
  {
    PrefixIsPos(env.script, p, q);
    forall k | 0 <= k < |p|
      ensures IsPos(env.script, p[..k]) && At(env.script, p[..k]).Step? && p[k] == Choose(env, run', e', p[..k])
      ensures k > 0 ==> !env.givesUp(run', p[..k])
    {
      assert q[k] == p[k] && q[..k] == p[..k];
      assert p[..k] + [p[k]] == p[..k + 1];
      CoveredBelow(env.script, e', p[..k + 1], p);
      ChooseStable(env, run, run', e, e', p[..k]);
    }
  }

  /** If the saved answers are chosen ones then both modes make the same run. */
  lemma {:induction false} SameRunFromRoot(env: Env, st: Search)
    requires ValidEnv(env) && Chosen(env, |st.runs|, Explored(env, st), st.saved) && !st.flagged
    ensures var h, anew := NextHalt(env, st), Search(st.runs, st.accounts, FromRoot(env), false);
            && h == NextHalt(env, anew)
            && Chosen(env, |st.runs|, Explored(env, st), h.pos) && st.saved <= h.pos
            && NextRun(env, st) == h.pos == NextRun(env, anew)
            && NextAccount(env, st) == NextAccount(env, anew)
            && !OpenMark(env, st) && !OpenMark(env, anew) && !h.reason.CheckFails?
  {
    var run, e := |st.runs|, Explored(env, st);
    var h := NextHalt(env, st);
    assert Chosen(env, run, e, [0]) by {
      assert st.saved[..1] == [0] && st.saved[..0] == [] == [0][..0];
      PrefixIsPos(env.script, [0], st.saved);
    }
    ReplayIsChoice(env, run, e, st.saved, [0]);
    FlagDecides(env, run, e, st.saved, false, [0]);
    ExploreThrough(env.script, e, h.pos, h.pos);
  }

  /** The two modes after n runs: same runs, and the saved answers are those of a fresh start. */
  ghost predicate Agree(env: Env, n: nat, stack: Search, tree: Search)
    requires ValidEnv(env)
  {
    && |stack.runs| == n && !stack.flagged
    && tree == Search(stack.runs, stack.accounts, FromRoot(env), false)
    && IsPos(env.script, stack.saved)
    && (!Covered(env.script, Explored(env, stack), []) ==> Chosen(env, n, Explored(env, stack), stack.saved))
  }

  lemma {:induction false} AgreeStep(env: Env, n: nat, stack: Search, tree: Search)
    requires ValidEnv(env) && SameEveryRun(env)
    requires Agree(env, n, stack, tree) && SearchInv(env, n, stack)
    requires !Covered(env.script, Explored(env, stack), [])
    ensures Agree(env, n + 1, Advance(env, false, stack), Advance(env, true, tree))
  {
    SameRunFromRoot(env, stack);
    var stack' := Advance(env, false, stack);
    ThroughOneMore(env.script, stack.accounts, stack'.accounts[n]);
    AdvanceKeeps(env, false, n, stack);
    if !Covered(env.script, Explored(env, stack'), []) {
      ChosenStable(env, n, n + 1, Explored(env, stack), Explored(env, stack'), NextRun(env, stack), stack'.saved);
    }
  }

  /** Replaying the saved stack and re-choosing from the root make the same runs in the same
      order, until the search ends, when the oracles do not change between runs. */
  lemma {:induction false} StackReplayAgreesWithTreeReplay(env: Env, n: nat)
    requires ValidEnv(env) && SameEveryRun(env) && NotBefore(env, false, n)
    ensures Agree(env, n, After(env, false, n), After(env, true, n))
    ensures After(env, false, n).runs == After(env, true, n).runs
  {
    AfterInv(env, false, n);
    if n > 0 {
      StackReplayAgreesWithTreeReplay(env, n - 1);
      AfterInv(env, false, n - 1);
      AgreeStep(env, n - 1, After(env, false, n - 1), After(env, true, n - 1));
    } else {
      assert Chosen(env, 0, {}, [0]);
    }
  }

  lemma {:induction false} SteadyNeverFlagged(env: Env, keepTree: bool, n: nat)
    requires ValidEnv(env) && SameEveryRun(env) && NotBefore(env, keepTree, n)
    ensures !After(env, keepTree, n).flagged
  {
    if keepTree {
      AfterInv(env, true, n);
    } else {
      StackReplayAgreesWithTreeReplay(env, n);
    }
  }

  /** So the oracles have to change from run to run for a check to fail. */
  lemma {:induction false} SteadyRunsNeverFail(env: Env, keepTree: bool, n: nat)
    requires ValidEnv(env) && SameEveryRun(env)
    ensures !FailsAfter(env, keepTree, n)
  {
    if NotBefore(env, keepTree, n) {
      SteadyNeverFlagged(env, keepTree, n);
      NoFlagNoFailure(env, After(env, keepTree, n));
    }
  }

  lemma {:induction false} ModesEndTogether(env: Env, n: nat)
    requires ValidEnv(env) && SameEveryRun(env) && NotBefore(env, false, n)
    ensures NotBefore(env, true, n)
    ensures After(env, false, n).runs == After(env, true, n).runs
    ensures Finished(env, false, n) <==> Finished(env, true, n)
  {
    StackReplayAgreesWithTreeReplay(env, n);
    if n > 0 {
      ModesEndTogether(env, n - 1);
      FreshStartNeverFails(env, n - 1);
    }
  }
}
