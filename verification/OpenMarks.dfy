/** A run that is given up in the middle of its replay because all threads have ended, right after a
    forall node, flags that node covered.  If something is left in the branch that was taken there
    the node stays on the stack, and the next run may meet the flag: exactly when it does so in a way
    that fails a check of the program, and an example in which it does. */
module OpenMarks {
  import opened Counting
  import opened Scripts
  import opened SearchSpec

  /** The run is not given up at the positions on the saved path that are between j and k answers
      deep. */
  ghost predicate Passes(env: Env, run: nat, saved: Path, j: nat, k: nat)
    requires k <= |saved|
  {
    forall i {:trigger saved[..i]} :: j <= i <= k ==> !env.givesUp(run, saved[..i])
  }

  /** The next run meets the flagged node, and fails: it gets to the node's own call, which it does
      only from below the root or a transition, or it gets to the call above, and this is a star with
      another open branch, which checks that the branch it replays is not covered.  A star without
      one, a conditional and a forall node never go on to the flagged node: the first two take
      themselves for covered, and the last does not select the saved thread. */
  ghost predicate MeetsFlag(env: Env, st: Search, j: nat)
    requires IsPos(env.script, st.saved) && |st.saved| >= 2
  {
    var above := |st.saved| - 2;
    var p := st.saved[..above];
    PrefixIsPos(env.script, p, st.saved);
    match At(env.script, p).kind
    case Star(_) =>
      && Passes(env, |st.runs|, st.saved, j, above)
      && !OthersCovered(env.script, Explored(env, st), p, st.saved[above])
    case Conditional(_) => false
    case Forall => false
    case _ => Passes(env, |st.runs|, st.saved, j, above + 1)
  }

  lemma {:induction false} PassesOn(env: Env, run: nat, saved: Path, j: nat, k: nat)
    requires j <= k <= |saved|
    ensures Passes(env, run, saved, j, k) <==> !env.givesUp(run, saved[..j]) && Passes(env, run, saved, j + 1, k)
  {
  }

  /** The call above the flagged node. */
  lemma {:induction false} CallAbove(env: Env, st: Search)
    requires ValidEnv(env) && IsPos(env.script, st.saved) && st.flagged && |st.saved| >= 3
    ensures var above := |st.saved| - 2;
            IsPos(env.script, st.saved[..above]) &&
            (RunFrom(env, |st.runs|, Explored(env, st), st.saved, true, st.saved[..above]).reason.CheckFails? <==>
               MeetsFlag(env, st, above))
  {
    var run, e, above := |st.runs|, Explored(env, st), |st.saved| - 2;
    var p, q := st.saved[..above], st.saved[..above + 1];
    PrefixIsPos(env.script, p, st.saved);
    PrefixIsPos(env.script, q, st.saved);
    AtWellFormed(env.script, p);
    assert q == p + [st.saved[above]];
    PassesOn(env, run, st.saved, above, above + 1);
    PassesOn(env, run, st.saved, above + 1, above + 1);
    PassesOn(env, run, st.saved, above, above);
    if !env.givesUp(run, p) && ReplyAt(env, run, e, st.saved, true, p).Answer? {
      RunStep(env, run, e, st.saved, true, p, st.saved[above]);
    }
  }

  lemma {:induction false} ReplayFails(env: Env, st: Search, k: nat)
    requires ValidEnv(env) && IsPos(env.script, st.saved) && st.flagged
    requires 1 <= k <= |st.saved| - 2
    ensures IsPos(env.script, st.saved[..k])
    ensures RunFrom(env, |st.runs|, Explored(env, st), st.saved, true, st.saved[..k]).reason.CheckFails? <==>
            MeetsFlag(env, st, k)
    decreases |st.saved| - k
  {
    hide OthersCovered, Explored, Choose, WellFormed, Passes;
    var run, e, above := |st.runs|, Explored(env, st), |st.saved| - 2;
    PrefixIsPos(env.script, st.saved[..k], st.saved);
    if k == above {
      CallAbove(env, st);
    } else {
      ReplayFails(env, st, k + 1);
      PassesOn(env, run, st.saved, k, above);
      PassesOn(env, run, st.saved, k, above + 1);
      if !env.givesUp(run, st.saved[..k]) {
        assert st.saved[..k + 1] == st.saved[..k] + [st.saved[k]];
        RunStep(env, run, e, st.saved, true, st.saved[..k], st.saved[k]);
      }
    }
  }

  /** With a flagged node on the saved path the next run fails a check if and only if it meets it;
      without one it fails none. */
  lemma {:induction false} FailsExactly(env: Env, st: Search)
    requires ValidEnv(env) && IsPos(env.script, st.saved) && [0] <= st.saved
    requires st.flagged ==> FlagAtForall(env, st.saved)
    ensures NextHalt(env, st).reason.CheckFails? <==> st.flagged && MeetsFlag(env, st, 1)
  {
    assert st.saved[..1] == [0];
    if !st.flagged {
      NoFlagNoFailure(env, st);
    } else if |st.saved| == 2 {
      PrefixIsPos(env.script, [0], st.saved);
      PassesOn(env, |st.runs|, st.saved, 1, 1);
      assert st.saved[..0] == [];
    } else {
      ReplayFails(env, st, 1);
    }
  }

  /** So the exploration as a whole fails exactly when some run meets a flag that the run before it
      has left behind. */
  lemma {:induction false} SearchFailsExactly(env: Env, keepTree: bool, n: nat)
    requires ValidEnv(env) && NotBefore(env, keepTree, n) && !Finished(env, keepTree, n)
    ensures var st := After(env, keepTree, n);
            && (st.flagged <==> n > 0 && !keepTree && OpenMark(env, After(env, keepTree, n - 1)))
            && (st.flagged ==> |st.saved| >= 2)
            && (FailsAfter(env, keepTree, n) <==> st.flagged && MeetsFlag(env, st, 1))
  {
    AfterInv(env, keepTree, n);
    FailsExactly(env, After(env, keepTree, n));
    if n > 0 && keepTree {
      AfterInv(env, true, n - 1);
      LateStopCloses(env, After(env, true, n - 1));
    }
  }

  /** A run that stops past its replay leaves no flag behind. */
  lemma {:induction false} LateStopCloses(env: Env, st: Search)
    requires ValidEnv(env) && IsPos(env.script, st.saved) && !st.flagged
    requires |st.saved| <= |NextHalt(env, st).pos|
    ensures !OpenMark(env, st)
  {
    ExploreThrough(env.script, Explored(env, st), NextHalt(env, st).pos, NextHalt(env, st).pos);
  }

  // ---------------------------------------------------------------- an example

  /** A forall over one thread, then a star whose true branch is another star. */
  function ForallThenStars(): Script {
    Rooted(Step(Forall, [Step(Star(false), [Done, Step(Star(false), [Done, Done])])]))
  }

  /** The second run is given up right after the forall node, because the thread has ended. */
  function EndsInReplay(): Env {
    Env(ForallThenStars(), (run: nat, p: Path) => false, (run: nat, p: Path) => [Arrival(0, true)],
        (run: nat, p: Path) => run == 1 && p == [0, 0], (run: nat, p: Path) => true)
  }

  lemma {:induction false} Positions(s: Script, select: Script, outer: Script, inner: Script)
    requires s == Step(Root, [select]) && select == Step(Forall, [outer])
    requires outer == Step(Star(false), [Done, inner]) && inner == Step(Star(false), [Done, Done])
    ensures IsPos(s, [0]) && At(s, [0]) == select && IsPos(s, [0, 0]) && At(s, [0, 0]) == outer
    ensures IsPos(s, [0, 0, 1]) && At(s, [0, 0, 1]) == inner
    ensures IsLeaf(s, [0, 0, 0]) && IsLeaf(s, [0, 0, 1, 0]) && IsLeaf(s, [0, 0, 1, 1])
  {
    AtStep(s, [], 0);
    assert [] + [0] == [0];
    AtStep(s, [0], 0);
    assert [0] + [0] == [0, 0];
    AtStep(s, [0, 0], 0);
    AtStep(s, [0, 0], 1);
    assert [0, 0] + [0] == [0, 0, 0] && [0, 0] + [1] == [0, 0, 1];
    AtStep(s, [0, 0, 1], 0);
    AtStep(s, [0, 0, 1], 1);
    assert [0, 0, 1] + [0] == [0, 0, 1, 0] && [0, 0, 1] + [1] == [0, 0, 1, 1];
  }

  /** A forall node of the script has one thread. */
  ghost predicate OneThread(s: Script) {
    s.Step? ==> (s.kind.Forall? ==> |s.next| == 1) && forall i :: 0 <= i < |s.next| ==> OneThread(s.next[i])
  }

  lemma {:induction false} OneThreadAt(s: Script, p: Path)
    requires OneThread(s) && AtForall(s, p)
    ensures |At(s, p).next| == 1
  {
    if p != [] {
      OneThreadAt(s.next[p[0]], p[1..]);
    }
  }

  lemma {:induction false} Shape()
    ensures ValidEnv(EndsInReplay())
    ensures var s := ForallThenStars();
            && AtForall(s, [0]) && |At(s, [0]).next| == 1
            && IsPos(s, [0, 0]) && At(s, [0, 0]).Step? && At(s, [0, 0]).kind == Star(false)
            && IsPos(s, [0, 0, 1]) && At(s, [0, 0, 1]).Step? && At(s, [0, 0, 1]).kind == Star(false)
            && IsLeaf(s, [0, 0, 0]) && IsLeaf(s, [0, 0, 1, 0]) && IsLeaf(s, [0, 0, 1, 1])
  {
    hide At, IsPos;
    var s := ForallThenStars();
    var inner := Step(Star(false), [Done, Done]);
    var outer := Step(Star(false), [Done, inner]);
    var select := Step(Forall, [outer]);
    assert WellFormed(inner) && WellFormed(outer) && WellFormed(select);
    assert OneThread(inner) && OneThread(outer) && OneThread(select);
    Positions(s, select, outer, inner);
    forall p | AtForall(s, p) ensures EachArrives(|At(s, p).next|, [Arrival(0, true)]) {
      OneThreadAt(s, p);
      assert Arrival(0, true) == [Arrival(0, true)][0];
    }
  }

  /** While nothing is explored a star goes on to its true branch. */
  lemma {:induction false} TrueBranch(p: Path, leaf0: Path, leaf1: Path)
    requires IsPos(ForallThenStars(), p) && At(ForallThenStars(), p).Step?
    requires At(ForallThenStars(), p).kind == Star(false)
    requires IsLeaf(ForallThenStars(), leaf0) && p + [0] <= leaf0
    requires IsLeaf(ForallThenStars(), leaf1) && p + [1] <= leaf1
    ensures Choose(EndsInReplay(), 0, {}, p) == 1
  {
    assert leaf0 !in {} && leaf1 !in {};
  }

  /** The first run is complete. */
  lemma {:induction false} FirstRun()
    requires ValidEnv(EndsInReplay())
    ensures IsPos(ForallThenStars(), [0])
    ensures NextHalt(EndsInReplay(), Search([], [], [0], false)) == Halt([0, 0, 1, 1], Ended)
  {
    hide ValidEnv, RunFrom, FirstUncovered, Covered, StarAnswer;
    var env, s := EndsInReplay(), ForallThenStars();
    Shape();
    assert Through(s, []) == {};
    assert [0] + [0] == [0, 0] && [0, 0] + [1] == [0, 0, 1] && [0, 0] + [0] == [0, 0, 0];
    assert [0, 0, 1] + [1] == [0, 0, 1, 1] && [0, 0, 1] + [0] == [0, 0, 1, 0];
    assert [0, 0, 0] <= [0, 0, 0] && [0, 0, 1] <= [0, 0, 1, 0] && [0, 0, 1, 1] <= [0, 0, 1, 1];
    FirstUncoveredIsOne(s, {}, [0], 1, [Arrival(0, true)]);
    TrueBranch([0, 0], [0, 0, 0], [0, 0, 1, 0]);
    TrueBranch([0, 0, 1], [0, 0, 1, 0], [0, 0, 1, 1]);
    RunStep(env, 0, {}, [0], false, [0], 0);
    RunStep(env, 0, {}, [0], false, [0, 0], 1);
    RunStep(env, 0, {}, [0], false, [0, 0, 1], 1);
    RunEnd(env, 0, {}, [0], false, [0, 0, 1, 1]);
  }

  lemma {:induction false} AfterOne()
    requires ValidEnv(EndsInReplay())
    requires NextHalt(EndsInReplay(), Search([], [], [0], false)) == Halt([0, 0, 1, 1], Ended)
    ensures After(EndsInReplay(), false, 0) == Search([], [], [0], false)
    ensures After(EndsInReplay(), false, 1) == Search([[0, 0, 1, 1]], [[0, 0, 1, 1]], [0, 0, 1], false)
  {
    hide ValidEnv, NextHalt, LowestUncovered, Through;
    var env, s, st := EndsInReplay(), ForallThenStars(), Search([], [], [0], false);
    assert After(env, false, 0) == st;
    LowestAfterOne();
    assert st.accounts + [[0, 0, 1, 1]] == [[0, 0, 1, 1]];
    assert Advance(env, false, st).saved == [0, 0, 1];
  }

  /** The first run leaves the false branch of the inner star open. */
  lemma {:induction false} LeftOpen()
    ensures !Covered(ForallThenStars(), Through(ForallThenStars(), [[0, 0, 1, 1]]), [0, 0, 1])
  {
    hide At, IsPos;
    Shape();
    assert [0, 0, 1] <= [0, 0, 1, 0] && [0, 0, 1, 1][3] != [0, 0, 1, 0][3];
  }

  lemma {:induction false} LowestAfterOne()
    ensures var s := ForallThenStars();
            LowestUncovered(s, Through(s, [[0, 0, 1, 1]]), [0, 0, 1, 1], 4) == [0, 0, 1]
  {
    hide LowestUncovered, At, IsPos, Covered, ForallThenStars;
    var s, e := ForallThenStars(), Through(ForallThenStars(), [[0, 0, 1, 1]]);
    assert [0, 0, 1, 1][..3] == [0, 0, 1] && [] + [[0, 0, 1, 1]] == [[0, 0, 1, 1]];
    ThroughOneMore(s, [], [0, 0, 1, 1]);
    ExploreThrough(s, Through(s, []), [0, 0, 1, 1], [0, 0, 1, 1]);
    LeftOpen();
    LowestIsAbove(s, e, [0, 0, 1, 1], 3);
  }

  /** If the path is covered, and not the position above its end, then that is the lowest uncovered
      one. */
  lemma {:induction false} LowestIsAbove(s: Script, explored: set<Path>, q: Path, k: nat)
    requires |q| == k + 1 && Covered(s, explored, q) && !Covered(s, explored, q[..k])
    ensures LowestUncovered(s, explored, q, k + 1) == q[..k]
  {
    hide Covered;
    assert q[..k + 1] == q;
    if k > 0 {
      assert LowestUncovered(s, explored, q, k) == q[..k];
    }
  }

  /** The second run leaves the forall node flagged, with the false branch of the star still open. */
  lemma {:induction false} SecondRun()
    requires ValidEnv(EndsInReplay())
    ensures var st := Search([[0, 0, 1, 1]], [[0, 0, 1, 1]], [0, 0, 1], false);
            IsPos(EndsInReplay().script, st.saved)
            && NextHalt(EndsInReplay(), st) == Halt([0, 0], GivenUp(true)) && OpenMark(EndsInReplay(), st)
  {
    hide ValidEnv, RunFrom, At, IsPos, Choose;
    var env, s := EndsInReplay(), ForallThenStars();
    var e := Through(s, [[0, 0, 1, 1]]);
    Shape();
    assert [0] + [0] == [0, 0] && [0, 0][..1] == [0];
    RunStep(env, 1, e, [0, 0, 1], false, [0], 0);
    RunEnd(env, 1, e, [0, 0, 1], false, [0, 0]);
    assert [0, 0, 1][..3] == [0, 0, 1];
    assert !([0, 0, 1] <= [0, 0, 0]) by { assert [0, 0, 1][2] != [0, 0, 0][2]; }
    assert [0, 0, 0] !in e + LeavesThrough(s, [0, 0, 1]) && [0, 0] <= [0, 0, 0];
  }

  lemma {:induction false} SecondAdvance(st: Search)
    requires ValidEnv(EndsInReplay()) && st == Search([[0, 0, 1, 1]], [[0, 0, 1, 1]], [0, 0, 1], false)
    requires IsPos(EndsInReplay().script, st.saved)
    requires NextHalt(EndsInReplay(), st) == Halt([0, 0], GivenUp(true)) && OpenMark(EndsInReplay(), st)
    ensures var st' := Advance(EndsInReplay(), false, st);
            && st'.runs == [[0, 0, 1, 1], [0, 0, 1]] && st'.saved == [0, 0] && st'.flagged
            && !Covered(ForallThenStars(), Explored(EndsInReplay(), st'), [])
  {
    hide ValidEnv, NextHalt, OpenMark, Through, Covered, LowestUncovered;
    OpenMarkStays(EndsInReplay(), st);
    assert [0, 0, 1][..3] == [0, 0, 1];
    CoveredBelow(ForallThenStars(), Explored(EndsInReplay(), Advance(EndsInReplay(), false, st)), [], [0, 0]);
  }

  lemma {:induction false} AfterTwo()
    requires ValidEnv(EndsInReplay())
    requires After(EndsInReplay(), false, 1) == Search([[0, 0, 1, 1]], [[0, 0, 1, 1]], [0, 0, 1], false)
    requires NextHalt(EndsInReplay(), After(EndsInReplay(), false, 1)) == Halt([0, 0], GivenUp(true))
    requires OpenMark(EndsInReplay(), After(EndsInReplay(), false, 1))
    ensures var st := After(EndsInReplay(), false, 2);
            && st.runs == [[0, 0, 1, 1], [0, 0, 1]] && st.saved == [0, 0] && st.flagged
            && !Covered(ForallThenStars(), Explored(EndsInReplay(), st), [])
  {
    hide ValidEnv, NextHalt, OpenMark, Through, Covered, LowestUncovered, Advance, Explored;
    SecondAdvance(After(EndsInReplay(), false, 1));
    assert After(EndsInReplay(), false, 2) == Advance(EndsInReplay(), false, After(EndsInReplay(), false, 1));
  }

  lemma {:induction false} ThirdRunFails(st: Search)
    requires ValidEnv(EndsInReplay()) && IsPos(EndsInReplay().script, st.saved)
    requires st.saved == [0, 0] && st.flagged && |st.runs| == 2
    ensures NextHalt(EndsInReplay(), st).reason.CheckFails?
  {
    Shape();
    PassesOn(EndsInReplay(), 2, [0, 0], 1, 1);
    assert [0, 0][..1] == [0] && [0, 0][..0] == [];
    FailsExactly(EndsInReplay(), st);
  }

  lemma {:induction false} NotDoneYet()
    requires ValidEnv(EndsInReplay())
    requires After(EndsInReplay(), false, 0) == Search([], [], [0], false)
    requires After(EndsInReplay(), false, 1) == Search([[0, 0, 1, 1]], [[0, 0, 1, 1]], [0, 0, 1], false)
    ensures !Finished(EndsInReplay(), false, 0) && !Finished(EndsInReplay(), false, 1)
  {
    hide After, ValidEnv;
    Shape();
    assert [] <= [0, 0, 0];
  }

  /** The third run fails: two runs are made, and then the call of the forall node finds its node
      covered. */
  lemma {:induction false} CheckCanFail()
    ensures ValidEnv(EndsInReplay()) && FailsAfter(EndsInReplay(), false, 2)
    ensures After(EndsInReplay(), false, 2).runs == [[0, 0, 1, 1], [0, 0, 1]]
  {
    hide ValidEnv, NextHalt, After, Finished, OpenMark;
    Shape();
    FirstRun();
    AfterOne();
    SecondRun();
    AfterTwo();
    NotDoneYet();
    ThirdRunFails(After(EndsInReplay(), false, 2));
    InOrder(After(EndsInReplay(), false, 2));
  }

  lemma {:induction false} InOrder(st: Search)
    requires ValidEnv(EndsInReplay()) && st == After(EndsInReplay(), false, 2)
    requires !Covered(ForallThenStars(), Explored(EndsInReplay(), st), [])
    requires NextHalt(EndsInReplay(), st).reason.CheckFails?
    requires !Finished(EndsInReplay(), false, 0) && !Finished(EndsInReplay(), false, 1)
    requires !NextHalt(EndsInReplay(), After(EndsInReplay(), false, 0)).reason.CheckFails?
    requires !NextHalt(EndsInReplay(), After(EndsInReplay(), false, 1)).reason.CheckFails?
    ensures FailsAfter(EndsInReplay(), false, 2)
  {
    hide ValidEnv, NextHalt, After, Covered;
    assert NotBefore(EndsInReplay(), false, 0);
    assert NotBefore(EndsInReplay(), false, 1);
  }
}
