/** Why stack replay and tree replay are compared for oracles that do not change from run to run:
    with a coin that does, the two modes of the engine make different runs. */
module RandomStars {
  import opened Scripts
  import opened SearchSpec

  /** Two nested random stars, and a coin that comes up true in the first run only. */
  function TwoRandomStars(): Script {
    Rooted(Step(Star(true), [Done, Step(Star(true), [Done, Done])]))
  }

  function FirstRunTrue(): Env {
    Env(TwoRandomStars(), (run: nat, p: Path) => run == 0, (run: nat, p: Path) => [],
        (run: nat, p: Path) => false, (run: nat, p: Path) => false)
  }

  lemma {:induction false} StarPositions(s: Script, outer: Script, inner: Script)
    requires s == Step(Root, [outer]) && outer == Step(Star(true), [Done, inner])
    requires inner == Step(Star(true), [Done, Done])
    ensures IsPos(s, [0]) && At(s, [0]) == outer && IsPos(s, [0, 1]) && At(s, [0, 1]) == inner
    ensures IsLeaf(s, [0, 0]) && IsLeaf(s, [0, 1, 0]) && IsLeaf(s, [0, 1, 1])
  {
    AtStep(s, [], 0);
    assert [] + [0] == [0];
    AtStep(s, [0], 0);
    AtStep(s, [0], 1);
    assert [0] + [0] == [0, 0] && [0] + [1] == [0, 1];
    AtStep(s, [0, 1], 0);
    AtStep(s, [0, 1], 1);
    assert [0, 1] + [0] == [0, 1, 0] && [0, 1] + [1] == [0, 1, 1];
  }

  lemma {:induction false} TwoStarsShape()
    ensures ValidEnv(FirstRunTrue()) && NeverGivesUp(FirstRunTrue())
    ensures var s := TwoRandomStars();
            && IsPos(s, [0]) && At(s, [0]).Step? && At(s, [0]).kind == Star(true)
            && IsLeaf(s, [0, 0])
            && IsPos(s, [0, 1]) && At(s, [0, 1]).Step? && At(s, [0, 1]).kind == Star(true)
            && IsLeaf(s, [0, 1, 0]) && IsLeaf(s, [0, 1, 1])
  {
    hide At, IsPos;
    var s := TwoRandomStars();
    var inner := Step(Star(true), [Done, Done]);
    var outer := Step(Star(true), [Done, inner]);
    assert WellFormed(inner) && WellFormed(outer);
    StarPositions(s, outer, inner);
    assert NoForall(inner) && NoForall(outer);
    forall p ensures !AtForall(s, p) { NowhereForall(s, p); }
  }

  /** With a coin that differs from run to run the two modes part: the replayed answers keep the
      first run's coin, and a fresh start draws it again. */
  lemma {:induction false} RandomStarsPart()
    ensures ValidEnv(FirstRunTrue()) && NeverGivesUp(FirstRunTrue())
    ensures After(FirstRunTrue(), false, 2).runs == [[0, 1, 1], [0, 1, 0]]
    ensures After(FirstRunTrue(), true, 2).runs == [[0, 1, 1], [0, 0]]
  {
    hide ValidEnv, NeverGivesUp, RunFrom, LowestUncovered, Through, After;
    TwoStarsShape();
    FirstRun();
    SecondRun(Through(TwoRandomStars(), [[0, 1, 1]]));
    AfterTwo(false, [0, 1], [0, 1, 0]);
    AfterTwo(true, [0], [0, 0]);
  }

  /** One more complete run. */
  lemma {:induction false} OneMoreCompleteRun(env: Env, keepTree: bool, n: nat, st: Search, run: Path)
    requires ValidEnv(env) && st == After(env, keepTree, n) && |st.runs| == n && [0] <= st.saved && !st.flagged
    requires RunFrom(env, n, Through(env.script, st.accounts), st.saved, false, [0]) == Halt(run, Ended)
    requires |st.saved| <= |run|
    ensures var accounts := st.accounts + [run];
            After(env, keepTree, n + 1) ==
              Search(st.runs + [run], accounts,
                     if keepTree then [0]
                     else LowestUncovered(env.script, Through(env.script, accounts), run, |run|),
                     false)
  {
    hide ValidEnv, RunFrom, LowestUncovered, Through;
    OneMoreRun(env, keepTree, st);
  }

  lemma {:induction false} AfterTwo(keepTree: bool, saved: Path, run: Path)
    requires ValidEnv(FirstRunTrue()) && [0] <= saved && IsPos(TwoRandomStars(), saved)
    requires After(FirstRunTrue(), keepTree, 1) == Search([[0, 1, 1]], [[0, 1, 1]], saved, false)
    requires IsPos(TwoRandomStars(), [0])
    requires RunFrom(FirstRunTrue(), 1, Through(TwoRandomStars(), [[0, 1, 1]]), saved, false, [0]) == Halt(run, Ended)
    requires |saved| <= |run|
    ensures After(FirstRunTrue(), keepTree, 2).runs == [[0, 1, 1], run]
  {
    hide ValidEnv, TwoRandomStars, RunFrom, LowestUncovered, Through, After;
    OneMoreCompleteRun(FirstRunTrue(), keepTree, 1, Search([[0, 1, 1]], [[0, 1, 1]], saved, false), run);
  }

  lemma {:induction false} LowestAfterFirst()
    ensures LowestUncovered(TwoRandomStars(), Through(TwoRandomStars(), [[0, 1, 1]]), [0, 1, 1], 3) == [0, 1]
  {
    var s, e := TwoRandomStars(), Through(TwoRandomStars(), [[0, 1, 1]]);
    TwoStarsShape();
    assert [0, 1] <= [0, 1, 0] && [0, 1, 0] !in e;
    assert [0, 1, 1][..3] == [0, 1, 1] && [0, 1, 1][..2] == [0, 1];
    ThroughOneMore(s, [], [0, 1, 1]);
    ExploreThrough(s, {}, [0, 1, 1], [0, 1, 1]);
  }

  /** A call at a star of the script, when no saved answer is left. */
  lemma {:induction false} FreeStar(run: nat, e: set<Path>, saved: Path, p: Path)
    requires ValidEnv(FirstRunTrue()) && IsPos(TwoRandomStars(), saved) && saved <= p
    requires IsPos(TwoRandomStars(), p) && At(TwoRandomStars(), p).Step? && At(TwoRandomStars(), p).kind == Star(true)
    requires !Covered(TwoRandomStars(), e, p + [0])
    ensures var env, l := FirstRunTrue(), if run == 0 && !Covered(TwoRandomStars(), e, p + [1]) then 1 else 0;
            && IsPos(TwoRandomStars(), p + [l])
            && RunFrom(env, run, e, saved, false, p) == RunFrom(env, run, e, saved, false, p + [l])
  {
    hide ValidEnv, RunFrom;
    RunStep(FirstRunTrue(), run, e, saved, false, p,
            if run == 0 && !Covered(TwoRandomStars(), e, p + [1]) then 1 else 0);
  }

  lemma {:induction false} SecondRun(e: set<Path>)
    requires ValidEnv(FirstRunTrue()) && e == Through(TwoRandomStars(), [[0, 1, 1]])
    ensures IsPos(TwoRandomStars(), [0]) && IsPos(TwoRandomStars(), [0, 1])
    ensures RunFrom(FirstRunTrue(), 1, e, [0, 1], false, [0]) == Halt([0, 1, 0], Ended)
    ensures RunFrom(FirstRunTrue(), 1, e, [0], false, [0]) == Halt([0, 0], Ended)
  {
    hide ValidEnv, RunFrom;
    var env, s := FirstRunTrue(), TwoRandomStars();
    TwoStarsShape();
    assert [0] + [0] == [0, 0] && [0] + [1] == [0, 1] && [0, 1] + [0] == [0, 1, 0];
    assert [0, 1, 0] !in e && [0, 0] !in e;
    RunStep(env, 1, e, [0, 1], false, [0], 1);
    FreeStar(1, e, [0, 1], [0, 1]);
    RunEnd(env, 1, e, [0, 1], false, [0, 1, 0]);
    FreeStar(1, e, [0], [0]);
    RunEnd(env, 1, e, [0], false, [0, 0]);
  }

  lemma {:induction false} FirstRun()
    requires ValidEnv(FirstRunTrue())
    ensures After(FirstRunTrue(), false, 1) == Search([[0, 1, 1]], [[0, 1, 1]], [0, 1], false)
    ensures After(FirstRunTrue(), true, 1) == Search([[0, 1, 1]], [[0, 1, 1]], [0], false)
  {
    hide ValidEnv, RunFrom, LowestUncovered;
    FirstExtension(Through(TwoRandomStars(), []));
    LowestAfterFirst();
    AfterOne(false);
    AfterOne(true);
  }

  lemma {:induction false} FirstExtension(none: set<Path>)
    requires ValidEnv(FirstRunTrue()) && none == Through(TwoRandomStars(), [])
    ensures IsPos(TwoRandomStars(), [0])
    ensures RunFrom(FirstRunTrue(), 0, none, [0], false, [0]) == Halt([0, 1, 1], Ended)
  {
    hide ValidEnv, RunFrom;
    var env, s := FirstRunTrue(), TwoRandomStars();
    TwoStarsShape();
    assert [0] + [0] == [0, 0] && [0] + [1] == [0, 1];
    assert [0, 1] + [0] == [0, 1, 0] && [0, 1] + [1] == [0, 1, 1];
    assert [0, 1] <= [0, 1, 0] && none == {};
    FreeStar(0, none, [0], [0]);
    FreeStar(0, none, [0], [0, 1]);
    RunEnd(env, 0, none, [0], false, [0, 1, 1]);
  }

  lemma {:induction false} AfterOne(keepTree: bool)
    requires ValidEnv(FirstRunTrue()) && IsPos(TwoRandomStars(), [0])
    requires RunFrom(FirstRunTrue(), 0, Through(TwoRandomStars(), []), [0], false, [0]) == Halt([0, 1, 1], Ended)
    requires LowestUncovered(TwoRandomStars(), Through(TwoRandomStars(), [[0, 1, 1]]), [0, 1, 1], 3) == [0, 1]
    ensures After(FirstRunTrue(), keepTree, 1) ==
              Search([[0, 1, 1]], [[0, 1, 1]], if keepTree then [0] else [0, 1], false)
  {
    hide ValidEnv, TwoRandomStars, RunFrom, LowestUncovered, Through, Advance;
    var st := Search([], [], [0], false);
    assert After(FirstRunTrue(), keepTree, 0) == st;
    OneMoreCompleteRun(FirstRunTrue(), keepTree, 0, st, [0, 1, 1]);
    assert st.accounts + [[0, 1, 1]] == [[0, 1, 1]];
  }
}
