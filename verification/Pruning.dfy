/** What a run leaves out when it is given up because all threads have ended: a forall node that was
    the last thing consumed is then counted as covered as a whole, together with the branches of the
    threads that were never selected there. */
module Pruning {
  import opened Counting
  import opened ReplayModes
  import opened Scripts
  import opened SearchSpec

  /** The next run accounts for a whole forall node above the end of its path, and some branch of
      that node still has something to explore when the run ends. */
  ghost predicate Prunes(env: Env, st: Search)
    requires ValidEnv(env) && IsPos(env.script, st.saved)
  {
    var account, run := NextAccount(env, st), NextRun(env, st);
    && account < run
    && (PrefixIsPos(env.script, account, run);
        SomeBranchOpen(env.script, Explored(env, st) + LeavesThrough(env.script, run), account))
  }

  ghost predicate SomeBranchOpen(s: Script, explored: set<Path>, q: Path)
    requires IsPos(s, q) && At(s, q).Step?
  {
    exists v: nat :: v < |At(s, q).next| && !Covered(s, explored, q + [v])
  }

  /** What the runs account for is what lies below the ends of their own paths. */
  ghost predicate OwnPathsOnly(env: Env, st: Search) {
    Through(env.script, st.runs) == Explored(env, st)
  }

  lemma {:induction false} OpenBranchLeaf(s: Script, explored: set<Path>, q: Path)
    requires IsPos(s, q) && At(s, q).Step?
    ensures SomeBranchOpen(s, explored, q) <==> !(LeavesThrough(s, q) <= explored)
  {
    CoveredByKids(s, explored, q);
    forall r ensures r in LeavesThrough(s, q) <==> IsLeaf(s, r) && q <= r { LeavesAreLeaves(s, r); }
  }

  /** One run accounts for no more than lies below the end of its own path exactly when it does not
      prune. */
  lemma {:induction false} PrunesOrNot(env: Env, keepTree: bool, st: Search)
    requires ValidEnv(env) && IsPos(env.script, st.saved) && OwnPathsOnly(env, st)
    ensures OwnPathsOnly(env, Advance(env, keepTree, st)) <==> !Prunes(env, st)
  {
    hide ValidEnv, SomeBranchOpen;
    var run, account := NextRun(env, st), NextAccount(env, st);
    ThroughOneMore(env.script, st.runs, run);
    ThroughOneMore(env.script, st.accounts, account);
    if account < run {
      PrefixIsPos(env.script, account, run);
      OpenBranchLeaf(env.script, Explored(env, st) + LeavesThrough(env.script, run), account);
      forall q | q in LeavesThrough(env.script, run) ensures q in LeavesThrough(env.script, account) {}
    }
  }

  // ---------------------------------------------------------------- when a run prunes

  /** The next run gives up a node with another open branch: the flagged node if it stops right at the
      call of that one; and otherwise the forall node that was the last thing consumed if all
      threads have ended and nothing is left in the branch that was taken there. */
  ghost predicate GivesUpNode(env: Env, st: Search)
    requires ValidEnv(env) && IsPos(env.script, st.saved)
  {
    var e, h := Explored(env, st), NextHalt(env, st);
    var above := h.pos[..|h.pos| - 1];
    if st.flagged && |h.pos| + 1 == |st.saved| then
      PrefixIsPos(env.script, h.pos, st.saved);
      !OthersCovered(env.script, e, h.pos, st.saved[|h.pos|])
    else
      && Marks(env, h) && Closes(env.script, e, st.saved, st.flagged, h.pos)
      && !OthersCovered(env.script, e, above, h.pos[|h.pos| - 1])
  }

  /** No replay gets from a forall node to the flagged node right below it. */
  lemma {:induction false} NoForallAbove(env: Env, run: nat, explored: set<Path>, saved: Path, p: Path)
    requires ValidEnv(env) && IsPos(env.script, saved) && IsPos(env.script, p) && OnWay(saved, p)
    ensures var q := RunFrom(env, run, explored, saved, true, p).pos;
            |p| < |q| && |q| + 1 == |saved| ==> !AtForall(env.script, q[..|q| - 1])
    decreases At(env.script, p)
  {
    var q := RunFrom(env, run, explored, saved, true, p).pos;
    if |p| < |q| && |q| + 1 == |saved| {
      var l := ReplyAt(env, run, explored, saved, true, p).answer;
      AnswerLeads(env, run, explored, saved, true, p);
      NoForallAbove(env, run, explored, saved, p + [l]);
      assert |p| + 1 == |q| ==> q[..|q| - 1] == p;
    }
  }

  /** What is left at a position once everything below one of its branches is accounted for, as far as
      that is below r. */
  lemma {:induction false} OtherBranches(s: Script, explored: set<Path>, q: Path, l: nat, r: Path)
    requires IsPos(s, q) && At(s, q).Step? && q + [l] <= r && Covered(s, explored + LeavesThrough(s, r), q + [l])
    ensures SomeBranchOpen(s, explored + LeavesThrough(s, r), q) <==> !OthersCovered(s, explored, q, l)
  {
    forall v: nat | v != l
      ensures Covered(s, explored + LeavesThrough(s, r), q + [v]) <==> Covered(s, explored, q + [v])
    {
      assert (q + [v])[|q|] != (q + [l])[|q|] == r[|q|];
      ExploreThrough(s, explored, r, q + [v]);
    }
  }

  /** A run prunes exactly when it gives up a node with another open branch. */
  lemma {:induction false} PrunesExactly(env: Env, st: Search)
    requires ValidEnv(env) && IsPos(env.script, st.saved)
    ensures Prunes(env, st) <==> GivesUpNode(env, st)
  {
    hide RunFrom, SomeBranchOpen, OthersCovered, Covered;
    var e, h, run := Explored(env, st), NextHalt(env, st), NextRun(env, st);
    if st.flagged && |h.pos| + 1 == |st.saved| {
      FlaggedIsNotMarked(env, st);
      PrefixIsPos(env.script, h.pos, st.saved);
      ExploreThrough(env.script, e, run, run);
      assert run == st.saved == h.pos + [st.saved[|h.pos|]];
      OtherBranches(env.script, e, h.pos, st.saved[|h.pos|], run);
    } else if Marks(env, h) && Closes(env.script, e, st.saved, st.flagged, h.pos) {
      var above := h.pos[..|h.pos| - 1];
      assert h.pos == above + [h.pos[|h.pos| - 1]];
      OtherBranches(env.script, e, above, h.pos[|h.pos| - 1], run);
    }
  }

  lemma {:induction false} FlaggedIsNotMarked(env: Env, st: Search)
    requires ValidEnv(env) && IsPos(env.script, st.saved)
    requires st.flagged && |NextHalt(env, st).pos| + 1 == |st.saved|
    ensures !Marks(env, NextHalt(env, st))
  {
    var q := NextHalt(env, st).pos;
    NoForallAbove(env, |st.runs|, Explored(env, st), st.saved, FromRoot(env));
    assert |q| == 1 ==> q[..0] == [];
  }

  /** None of the first n runs prunes. */
  ghost predicate NeverPrunes(env: Env, keepTree: bool, n: nat)
    requires ValidEnv(env)
  {
    n > 0 ==> NeverPrunes(env, keepTree, n - 1) && !Prunes(env, After(env, keepTree, n - 1))
  }

  /** None of the first n runs accounts for anything but what lies below the end of its path. */
  ghost predicate AlwaysOwnPaths(env: Env, keepTree: bool, n: nat)
    requires ValidEnv(env)
  {
    OwnPathsOnly(env, After(env, keepTree, n)) && (n > 0 ==> AlwaysOwnPaths(env, keepTree, n - 1))
  }

  lemma {:induction false} OwnPathsExactly(env: Env, keepTree: bool, n: nat)
    requires ValidEnv(env)
    ensures AlwaysOwnPaths(env, keepTree, n) <==> NeverPrunes(env, keepTree, n)
  {
    if n > 0 {
      OwnPathsExactly(env, keepTree, n - 1);
      if AlwaysOwnPaths(env, keepTree, n - 1) {
        PrunesOrNot(env, keepTree, After(env, keepTree, n - 1));
      }
    }
  }

  lemma {:induction false} OwnPathsNew(env: Env, keepTree: bool, n: nat)
    requires ValidEnv(env) && NotBefore(env, keepTree, n) && NeverPrunes(env, keepTree, n)
    ensures AllNew(env.script, After(env, keepTree, n).runs) && OwnPathsOnly(env, After(env, keepTree, n))
  {
    OwnPathsExactly(env, keepTree, n);
    if n > 0 {
      OwnPathsNew(env, keepTree, n - 1);
      AfterInv(env, keepTree, n - 1);
      var st := After(env, keepTree, n - 1);
      AccountIsNew(env, st);
      AllNewOneMore(env.script, st.runs, NextRun(env, st));
    }
  }

  /** If no run prunes then every complete run goes through the end of the path of some run. */
  lemma {:induction false} UnprunedRunsSuffice(env: Env, keepTree: bool, n: nat)
    requires ValidEnv(env) && EndsAfter(env, keepTree, n) && NeverPrunes(env, keepTree, n)
    ensures AccountsForAll(env.script, After(env, keepTree, n).runs)
  {
    OwnPathsNew(env, keepTree, n);
    NothingLeft(env.script, After(env, keepTree, n).runs);
  }

  // ---------------------------------------------------------------- what is lost stays lost

  /** The run passes every position above the one where it stops without being given up. */
  lemma {:induction false} RunPasses(env: Env, run: nat, explored: set<Path>, saved: Path, p: Path, r: Path)
    requires ValidEnv(env) && IsPos(env.script, saved) && IsPos(env.script, p) && OnWay(saved, p) && p != []
    requires p <= r < RunFrom(env, run, explored, saved, false, p).pos
    ensures !env.givesUp(run, r)
    decreases At(env.script, p)
  {
    var h := RunFrom(env, run, explored, saved, false, p);
    RunEnd(env, run, explored, saved, false, p);
    if |p| < |r| {
      var l := ReplyAt(env, run, explored, saved, false, p).answer;
      RunStep(env, run, explored, saved, false, p, l);
      AnswerLeads(env, run, explored, saved, false, p);
      assert r == h.pos[..|r|] && p + [l] == h.pos[..|p| + 1];
      assert p + [l] <= r;
      RunPasses(env, run, explored, saved, p + [l], r);
    } else {
      assert p == r;
    }
  }

  /** The complete run leaf is accounted for at a, is below no run's path, and no run is given up
      on the way to a. */
  ghost predicate Lost(env: Env, st: Search, leaf: Path, a: Path) {
    && IsLeaf(env.script, leaf) && a <= leaf && Covered(env.script, Explored(env, st), a)
    && (forall e :: e in st.runs ==> !(e <= leaf))
    && (forall run, k {:trigger env.givesUp(run, a[..k])} :: 1 <= k < |a| ==> !env.givesUp(run, a[..k]))
  }

  /** A run whose path ends above a, on the way to the leaf, is given up on the way to a. */
  lemma {:induction false} GivenUpAbove(env: Env, st: Search, leaf: Path, a: Path)
    requires ValidEnv(env) && IsPos(env.script, st.saved) && [0] <= st.saved && !st.flagged
    requires IsLeaf(env.script, leaf) && NextRun(env, st) < a <= leaf
    ensures var p := NextHalt(env, st).pos;
            1 <= |p| < |a| && p == a[..|p|] && env.givesUp(|st.runs|, p)
  {
    var h := NextHalt(env, st);
    FlagDecides(env, |st.runs|, Explored(env, st), st.saved, false, [0]);
    PrefixIsPos(env.script, h.pos, leaf);
  }

  lemma {:induction false} LostStaysLost(env: Env, keepTree: bool, st: Search, leaf: Path, a: Path)
    requires ValidEnv(env) && IsPos(env.script, st.saved) && [0] <= st.saved && Lost(env, st, leaf, a) && !st.flagged
    requires !Covered(env.script, Explored(env, st), st.saved)
    ensures Lost(env, Advance(env, keepTree, st), leaf, a)
  {
    AccountIsNew(env, st);
    CoveredAbove(env.script, Explored(env, st), a, NextRun(env, st));
    if NextRun(env, st) <= leaf {
      PrefixesOfOne(NextRun(env, st), a, leaf);
      GivenUpAbove(env, st, leaf, a);
    }
    ThroughOneMore(env.script, st.accounts, NextAccount(env, st));
  }

  lemma CoveredAbove(s: Script, explored: set<Path>, a: Path, p: Path)
    requires Covered(s, explored, a) && !Covered(s, explored, p)
    ensures !(a <= p)
  {
    if a <= p {
      CoveredBelow(s, explored, a, p);
    }
  }

  /** The run that prunes passes everything above the forall node. */
  lemma {:induction false} PassesAbove(env: Env, st: Search)
    requires ValidEnv(env) && SameEveryRun(env) && IsPos(env.script, st.saved) && [0] <= st.saved && !st.flagged
    ensures var p := NextHalt(env, st).pos;
            forall run, k {:trigger env.givesUp(run, p[..k])} :: 1 <= k < |p| ==> !env.givesUp(run, p[..k])
  {
    hide ValidEnv, Covered;
    var p := NextHalt(env, st).pos;
    forall run, k | 1 <= k < |p| ensures !env.givesUp(run, p[..k]) {
      assert [0] == p[..1] <= p[..k];
      RunPasses(env, |st.runs|, Explored(env, st), st.saved, [0], p[..k]);
    }
  }

  /** A run that prunes loses a complete run, if the oracles do not change from run to run. */
  lemma {:induction false} PruningLoses(env: Env, keepTree: bool, st: Search) returns (leaf: Path, a: Path)
    requires ValidEnv(env) && SameEveryRun(env) && IsPos(env.script, st.saved) && [0] <= st.saved && !st.flagged
    requires OwnPathsOnly(env, st) && Prunes(env, st)
    ensures Lost(env, Advance(env, keepTree, st), leaf, a)
  {
    hide ValidEnv, SomeBranchOpen, RunFrom;
    var p := NextHalt(env, st).pos;
    a := NextAccount(env, st);
    assert a == p[..|p| - 1];
    PrefixIsPos(env.script, a, NextRun(env, st));
    OpenBranchLeaf(env.script, Explored(env, st) + LeavesThrough(env.script, NextRun(env, st)), a);
    leaf :| leaf in LeavesThrough(env.script, a) && leaf !in Explored(env, st)
            && leaf !in LeavesThrough(env.script, NextRun(env, st));
    PassesAbove(env, st);
    forall run, k | 1 <= k < |a| ensures !env.givesUp(run, a[..k]) {
      assert a[..k] == p[..k];
    }
    LeafIsLost(env, keepTree, st, leaf);
  }

  lemma {:induction false} LeafIsLost(env: Env, keepTree: bool, st: Search, leaf: Path)
    requires ValidEnv(env) && IsPos(env.script, st.saved) && OwnPathsOnly(env, st) && Prunes(env, st)
    requires leaf in LeavesThrough(env.script, NextAccount(env, st)) && leaf !in Explored(env, st)
    requires leaf !in LeavesThrough(env.script, NextRun(env, st))
    ensures var a, st' := NextAccount(env, st), Advance(env, keepTree, st);
            && IsLeaf(env.script, leaf) && a <= leaf && Covered(env.script, Explored(env, st'), a)
            && forall e :: e in st'.runs ==> !(e <= leaf)
  {
    hide ValidEnv, SomeBranchOpen, RunFrom, Covered, Through;
    var a := NextAccount(env, st);
    LeavesAreLeaves(env.script, leaf);
    ThroughOneMore(env.script, st.accounts, a);
    ExploreThrough(env.script, Explored(env, st), a, a);
    BelowNoRun(env.script, st.runs, leaf);
  }

  lemma {:induction false} BelowNoRun(s: Script, runs: seq<Path>, leaf: Path)
    requires IsLeaf(s, leaf) && leaf !in Through(s, runs)
    ensures forall e :: e in runs ==> !(e <= leaf)
  {
    LeavesAreLeaves(s, leaf);
  }

  lemma {:induction false} LostToTheEnd(env: Env, keepTree: bool, m: nat, n: nat, leaf: Path, a: Path)
    requires ValidEnv(env) && SameEveryRun(env)
    requires NotBefore(env, keepTree, n) && m <= n && Lost(env, After(env, keepTree, m), leaf, a)
    ensures Lost(env, After(env, keepTree, n), leaf, a)
  {
    if m < n {
      LostToTheEnd(env, keepTree, m, n - 1, leaf, a);
      LostOneMore(env, keepTree, n, leaf, a);
    }
  }

  lemma {:induction false} LostOneMore(env: Env, keepTree: bool, n: nat, leaf: Path, a: Path)
    requires ValidEnv(env) && SameEveryRun(env)
    requires n > 0 && NotBefore(env, keepTree, n) && Lost(env, After(env, keepTree, n - 1), leaf, a)
    ensures Lost(env, After(env, keepTree, n), leaf, a)
  {
    AfterInv(env, keepTree, n - 1);
    SteadyNeverFlagged(env, keepTree, n - 1);
    LostStaysLost(env, keepTree, After(env, keepTree, n - 1), leaf, a);
  }

  lemma {:induction false} LastRunLoses(env: Env, keepTree: bool, n: nat) returns (leaf: Path, a: Path)
    requires ValidEnv(env) && SameEveryRun(env) && n > 0 && NotBefore(env, keepTree, n)
    requires NeverPrunes(env, keepTree, n - 1) && Prunes(env, After(env, keepTree, n - 1))
    ensures Lost(env, After(env, keepTree, n), leaf, a)
  {
    hide ValidEnv, SameEveryRun, Prunes, Lost, Advance, OwnPathsOnly, NeverPrunes;
    OwnPathsExactly(env, keepTree, n - 1);
    AfterInv(env, keepTree, n - 1);
    SteadyNeverFlagged(env, keepTree, n - 1);
    leaf, a := PruningLoses(env, keepTree, After(env, keepTree, n - 1));
  }

  /** If a run prunes then some complete run is lost for good. */
  lemma {:induction false} SomeRunLost(env: Env, keepTree: bool, n: nat) returns (leaf: Path, a: Path)
    requires ValidEnv(env) && SameEveryRun(env) && NotBefore(env, keepTree, n) && !NeverPrunes(env, keepTree, n)
    ensures Lost(env, After(env, keepTree, n), leaf, a)
  {
    hide ValidEnv, SameEveryRun, Prunes, Lost, After;
    if NeverPrunes(env, keepTree, n - 1) {
      leaf, a := LastRunLoses(env, keepTree, n);
    } else {
      leaf, a := SomeRunLost(env, keepTree, n - 1);
      LostToTheEnd(env, keepTree, n - 1, n, leaf, a);
    }
  }

  /** When the oracles do not change from run to run, every complete run goes through the end of
      the path of some run if and only if no run prunes. */
  lemma {:induction false} RunsSufficeExactly(env: Env, keepTree: bool, n: nat)
    requires ValidEnv(env) && SameEveryRun(env) && EndsAfter(env, keepTree, n)
    ensures AccountsForAll(env.script, After(env, keepTree, n).runs) <==> NeverPrunes(env, keepTree, n)
  {
    if NeverPrunes(env, keepTree, n) {
      UnprunedRunsSuffice(env, keepTree, n);
    } else {
      var leaf, a := SomeRunLost(env, keepTree, n);
    }
  }

  // ---------------------------------------------------------------- an example

  /** A forall over two threads, and a transition of the selected thread. */
  function TwoThreads(): Script {
    Rooted(Step(Forall, [Step(Transition, [Done]), Step(Transition, [Done])]))
  }

  function BothArrive(): seq<Arrival> {
    [Arrival(0, true), Arrival(1, true)]
  }

  /** Thread 0 arrives first, and its transition is never consumed because all threads end. */
  function AllThreadsEnd(): Env {
    Env(TwoThreads(), (run: nat, p: Path) => false, (run: nat, p: Path) => BothArrive(),
        (run: nat, p: Path) => p == [0, 0], (run: nat, p: Path) => p == [0, 0])
  }

  lemma {:induction false} TwoThreadsShape()
    ensures ValidEnv(AllThreadsEnd()) && SameEveryRun(AllThreadsEnd())
    ensures var s := TwoThreads();
            && AtForall(s, [0]) && |At(s, [0]).next| == 2
            && IsPos(s, [0, 0]) && At(s, [0, 0]).Step? && IsPos(s, [0, 1]) && At(s, [0, 1]).Step?
            && IsLeaf(s, [0, 0, 0]) && IsLeaf(s, [0, 1, 0])
  {
    var s := TwoThreads();
    var move := Step(Transition, [Done]);
    var select := Step(Forall, [move, move]);
    assert WellFormed(move) && WellFormed(select);
    assert Narrow(move) && Narrow(select);
    AtSteps(s, select, move);
    forall p | AtForall(s, p) ensures EachArrives(|At(s, p).next|, BothArrive()) {
      AtMostTwo(s, p);
      assert Arrival(0, true) == BothArrive()[0] && Arrival(1, true) == BothArrive()[1];
    }
  }

  lemma {:induction false} AtSteps(s: Script, select: Script, move: Script)
    requires s == Step(Root, [select]) && select == Step(Forall, [move, move]) && move == Step(Transition, [Done])
    ensures IsPos(s, [0]) && At(s, [0]) == select
    ensures IsPos(s, [0, 0]) && At(s, [0, 0]) == move && IsPos(s, [0, 1]) && At(s, [0, 1]) == move
    ensures IsLeaf(s, [0, 0, 0]) && IsLeaf(s, [0, 1, 0])
  {
    AtStep(s, [], 0);
    assert [] + [0] == [0];
    AtStep(s, [0], 0);
    AtStep(s, [0], 1);
    assert [0] + [0] == [0, 0] && [0] + [1] == [0, 1];
    AtStep(s, [0, 0], 0);
    AtStep(s, [0, 1], 0);
    assert [0, 0] + [0] == [0, 0, 0] && [0, 1] + [0] == [0, 1, 0];
  }

  /** No position of the script has more than two continuations. */
  ghost predicate Narrow(s: Script) {
    s.Step? ==> |s.next| <= 2 && forall i :: 0 <= i < |s.next| ==> Narrow(s.next[i])
  }

  lemma {:induction false} AtMostTwo(s: Script, p: Path)
    requires IsPos(s, p) && At(s, p).Step?
    requires Narrow(s)
    ensures |At(s, p).next| <= 2
  {
    if p != [] {
      AtMostTwo(s.next[p[0]], p[1..]);
    }
  }

  lemma {:induction false} FirstChoice()
    requires ValidEnv(AllThreadsEnd())
    ensures IsPos(TwoThreads(), [0]) && At(TwoThreads(), [0]).Step? && Choose(AllThreadsEnd(), 0, {}, [0]) == 0
  {
    hide ValidEnv;
    TwoThreadsShape();
    assert [0] + [0] == [0, 0] <= [0, 0, 0];
    assert !Covered(TwoThreads(), {}, [0] + [0]);
    assert AllThreadsEnd().arrivals(0, [0]) == BothArrive();
  }

  lemma {:induction false} FirstRunStops()
    requires ValidEnv(AllThreadsEnd())
    ensures NextHalt(AllThreadsEnd(), Search([], [], [0], false)) == Halt([0, 0], GivenUp(true))
    ensures NextRun(AllThreadsEnd(), Search([], [], [0], false)) == [0, 0]
    ensures NextAccount(AllThreadsEnd(), Search([], [], [0], false)) == [0]
  {
    hide ValidEnv, Choose, Covered, At, IsPos, RunFrom;
    var env := AllThreadsEnd();
    TwoThreadsShape();
    FirstChoice();
    NoneThrough(TwoThreads());
    assert [0] + [0] == [0, 0];
    RunStep(env, 0, {}, [0], false, [0], 0);
    RunEnd(env, 0, {}, [0], false, [0, 0]);
    assert [0, 0][..1] == [0];
    ExploreThrough(TwoThreads(), {}, [0, 0], [0, 0]);
  }

  lemma {:induction false} FirstRunPrunes()
    requires ValidEnv(AllThreadsEnd())
    requires NextRun(AllThreadsEnd(), Search([], [], [0], false)) == [0, 0]
    requires NextAccount(AllThreadsEnd(), Search([], [], [0], false)) == [0]
    ensures Prunes(AllThreadsEnd(), Search([], [], [0], false))
  {
    hide ValidEnv, NextRun, NextAccount;
    var s := TwoThreads();
    TwoThreadsShape();
    NoneThrough(s);
    assert [0] + [1] == [0, 1] <= [0, 1, 0];
    assert !([0, 0] <= [0, 1, 0]) by { assert [0, 0][1] != [0, 1, 0][1]; }
    assert !Covered(s, {} + LeavesThrough(s, [0, 0]), [0] + [1]);
  }

  lemma {:induction false} OneRun(keepTree: bool)
    requires ValidEnv(AllThreadsEnd())
    requires NextRun(AllThreadsEnd(), Search([], [], [0], false)) == [0, 0]
    requires NextAccount(AllThreadsEnd(), Search([], [], [0], false)) == [0]
    ensures After(AllThreadsEnd(), keepTree, 0) == Search([], [], [0], false)
    ensures After(AllThreadsEnd(), keepTree, 1).runs == [[0, 0]]
    ensures After(AllThreadsEnd(), keepTree, 1).accounts == [[0]]
  {
    hide ValidEnv, NextRun, NextAccount, OpenMark, At, Covered, Through;
    assert After(AllThreadsEnd(), keepTree, 0) == Search([], [], [0], false);
  }

  lemma NoneThrough(s: Script)
    ensures Through(s, []) == {}
  {
  }

  lemma {:induction false} ThenItEnds(keepTree: bool)
    requires ValidEnv(AllThreadsEnd())
    requires After(AllThreadsEnd(), keepTree, 0) == Search([], [], [0], false)
    requires After(AllThreadsEnd(), keepTree, 1).accounts == [[0]]
    ensures EndsAfter(AllThreadsEnd(), keepTree, 1)
  {
    hide ValidEnv, After, Covered, Through, NextHalt;
    var env, s := AllThreadsEnd(), TwoThreads();
    TwoThreadsShape();
    NoFlagNoFailure(env, Search([], [], [0], false));
    NothingExplored(s, []);
    assert Through(s, []) == {} by { NoneThrough(s); }
    ThroughOneMore(s, [], [0]);
    assert [] + [[0]] == [[0]];
    ExploreThrough(s, {}, [0], [0]);
    RootAnswer(env, Through(s, [[0]]), [0]);
    assert NotBefore(env, keepTree, 0);
  }

  /** One run is made, it ends the search, and the other thread's complete run is lost. */
  lemma {:induction false} OtherThreadIsLost(keepTree: bool)
    ensures ValidEnv(AllThreadsEnd()) && SameEveryRun(AllThreadsEnd())
    ensures EndsAfter(AllThreadsEnd(), keepTree, 1) && Prunes(AllThreadsEnd(), After(AllThreadsEnd(), keepTree, 0))
    ensures After(AllThreadsEnd(), keepTree, 1).runs == [[0, 0]]
    ensures IsLeaf(TwoThreads(), [0, 1, 0]) && !([0, 0] <= [0, 1, 0])
    ensures !AccountsForAll(TwoThreads(), [[0, 0]])
  {
    hide Prunes, EndsAfter, After, NextRun, NextAccount, NextHalt, ValidEnv;
    TwoThreadsShape();
    FirstRunStops();
    FirstRunPrunes();
    OneRun(keepTree);
    ThenItEnds(keepTree);
    NotBelow();
  }

  lemma {:induction false} NotBelow()
    requires IsLeaf(TwoThreads(), [0, 1, 0])
    ensures !([0, 0] <= [0, 1, 0]) && !AccountsForAll(TwoThreads(), [[0, 0]])
  {
    hide AllNew, Leaves, IsLeaf;
    assert [0, 0][1] != [0, 1, 0][1];
  }
}
