/** All leaves of the tree share one end node, so looking it up among the children of the last node
    can find the slot of an earlier run: a run of the engine in which this happens. */
module SharedEnd {
  import opened ExecutionTrees
  import opened Manager
  import opened Scenarios
  import opened Scripts
  import opened SearchSpec
  import opened TreeStates

  /** One random star, whose coin comes up false. */
  function OneRandomStar(): Script {
    Rooted(Step(Star(true), [Done, Done]))
  }

  function AlwaysFalse(): Env {
    Env(OneRandomStar(), (run: nat, p: Path) => false, (run: nat, p: Path) => [],
        (run: nat, p: Path) => false, (run: nat, p: Path) => false)
  }

  lemma {:induction false} StarShape()
    ensures var s := OneRandomStar();
            && IsPos(s, [0]) && At(s, [0]).Step? && At(s, [0]).kind == Star(true) && |At(s, [0]).next| == 2
            && IsLeaf(s, [0, 0]) && IsLeaf(s, [0, 1])
  {
    var s := OneRandomStar();
    AtStep(s, [], 0);
    assert [] + [0] == [0];
    AtStep(s, [0], 0);
    AtStep(s, [0], 1);
    assert [0] + [0] == [0, 0] && [0] + [1] == [0, 1];
  }

  lemma {:induction false} StarIsValid()
    ensures ValidEnv(AlwaysFalse())
  {
    var s := OneRandomStar();
    var star := Step(Star(true), [Done, Done]);
    assert WellFormed(star) && NoForall(star);
    forall p ensures !AtForall(s, p) { NowhereForall(s, p); }
  }

  lemma {:induction false} FirstRunStops()
    requires ValidEnv(AlwaysFalse())
    ensures NextHalt(AlwaysFalse(), Search([], [], [0], false)) == Halt([0, 0], Ended)
  {
    hide ValidEnv, RunFrom;
    var env, s := AlwaysFalse(), OneRandomStar();
    StarShape();
    assert Through(s, []) == {};
    assert [0] + [0] == [0, 0] && [0] + [1] == [0, 1];
    assert !Covered(s, {}, [0] + [0]) && !Covered(s, {}, [0] + [1]);
    RunStep(env, 0, {}, [0], false, [0], 0);
    RunEnd(env, 0, {}, [0], false, [0, 0]);
  }

  lemma {:induction false} SecondRunStops(e: set<Path>)
    requires ValidEnv(AlwaysFalse()) && [0, 0] in e && [0, 1] !in e
    ensures IsPos(OneRandomStar(), [0])
    ensures RunFrom(AlwaysFalse(), 1, e, [0], false, [0]) == Halt([0, 1], Ended)
  {
    hide ValidEnv, RunFrom;
    var env, s := AlwaysFalse(), OneRandomStar();
    StarShape();
    assert [0] + [0] == [0, 0] && [0] + [1] == [0, 1];
    LeafCovered(s, e, [0, 0]);
    RunStep(env, 1, e, [0], false, [0], 1);
    RunEnd(env, 1, e, [0], false, [0, 1]);
  }

  lemma {:induction false} LeafCovered(s: Script, e: set<Path>, p: Path)
    requires IsLeaf(s, p) && p in e
    ensures Covered(s, e, p)
  {
    forall q | IsLeaf(s, q) && p <= q ensures q == p {
      PrefixIsPos(s, p, q);
    }
  }

  lemma {:induction false} AfterFirst()
    requires ValidEnv(AlwaysFalse())
    ensures var st := Advance(AlwaysFalse(), false, Search([], [], [0], false));
            && st.saved == [0] && |st.runs| == 1 && !st.flagged
            && [0, 0] in Explored(AlwaysFalse(), st) && [0, 1] !in Explored(AlwaysFalse(), st)
            && !Covered(OneRandomStar(), Explored(AlwaysFalse(), st), [])
  {
    var env, s := AlwaysFalse(), OneRandomStar();
    FirstRunStops();
    StarShape();
    OneMoreRun(env, false, Search([], [], [0], false));
    var e := Through(s, [[0, 0]]);
    LeavesAreLeaves(s, [0, 0]);
    assert [0, 0] in [[0, 0]];
    assert [0, 1] !in e;
    assert [] <= [0, 1] && [0] <= [0, 1];
    LeafCovered(s, e, [0, 0]);
    assert [0, 0][..1] == [0] && [0, 0][..2] == [0, 0];
  }

  method BackAtStar(env: Env) returns (engine: ExecutionTreeManager)
    requires env == AlwaysFalse() && ValidEnv(env)
    ensures engine.Valid() && engine.t.Open() && engine.t.script == OneRandomStar() && !engine.keepExecutionTree
    ensures engine.t.path == [0] && [0, 0] in engine.t.explored && [0, 1] !in engine.t.explored && engine.early == {}
    ensures fresh(engine) && fresh(engine.endNode) && fresh(engine.t.heap.Keys) && engine.freed !! engine.t.heap.Keys
  {
    hide Tree.TreeShape, Tree.StackShape, Tree.CoverageExact, Advance, NextHalt, ValidEnv;
    NothingExplored(env.script, []);
    engine := new ExecutionTreeManager(env.script, false, false);
    var scenario := new Scenario(engine);
    AfterFirst();
    FirstRunStops();
    var failed, more := scenario.RunOnce(env, 0, Search([], [], [0], false));
  }

  /** The star is run to its second branch, after the first. */
  method RunAgain(engine: ExecutionTreeManager, env: Env)
    requires env == AlwaysFalse() && ValidEnv(env)
    requires engine.Valid() && engine.t.Open() && engine.t.script == OneRandomStar() && !engine.keepExecutionTree
    requires engine.t.path == [0] && [0, 0] in engine.t.explored && [0, 1] !in engine.t.explored && engine.early == {}
    requires engine.freed !! engine.t.heap.Keys
    modifies engine`nodeStack, engine`stackIndex, engine`t, engine`early, engine.t.heap.Keys
    ensures engine.Valid() && engine.t.Open() && engine.t.script == OneRandomStar()
    ensures engine.t.path == engine.Position() == [0, 1] && [0, 0] in engine.t.explored
    ensures engine.stackIndex >= 1 && engine.freed !! engine.t.heap.Keys
    ensures forall n :: n in engine.t.heap.Keys ==> n in old(engine.t.heap.Keys) || fresh(n)
  {
    hide Tree.TreeShape, Tree.StackShape, Tree.CoverageExact, ValidEnv, RunFrom;
    var scenario := new Scenario(engine);
    engine.Restart();
    SecondRunStops(engine.t.explored);
    var reason := scenario.RunTestCase(env, 1);
  }

  /** The path of the second run is ended. */
  method EndSecondRun() returns (engine: ExecutionTreeManager)
    ensures engine.Ended() && engine.t.script == OneRandomStar() && engine.t.path == [0, 1]
    ensures [0, 0] in engine.t.explored && !engine.t.InPruned([0])
    ensures |engine.nodeStack| == 3 && engine.endNode.parent == engine.nodeStack[1].parent
  {
    hide Tree.TreeShape, Tree.StackShape, Tree.CoverageExact, ValidEnv;
    StarIsValid();
    engine := BackAtStar(AlwaysFalse());
    RunAgain(engine, AlwaysFalse());
    NotGivenUp(engine.t);
    engine.AddEndToPath();
  }

  lemma NotGivenUp(t: Tree)
    requires t.Valid() && t.Open() && t.path == [0, 1]
    ensures !t.InPruned([0])
  {
    t.NotPruned(t.path, 0);
    assert [0] <= [0, 1];
  }

  lemma FirstSlotHoldsEnd(engine: ExecutionTreeManager)
    requires engine.Ended() && engine.t.script == OneRandomStar() && engine.t.path == [0, 1]
    requires [0, 0] in engine.t.explored && !engine.t.InPruned([0]) && |engine.nodeStack| == 3
    ensures engine.t.EntryShape(1) && engine.nodeStack[1].Get() == engine.endNode
    ensures engine.nodeStack[1].childIndex == 1 && engine.nodeStack[1].parent.children[0] == engine.endNode
  {
    StarShape();
    var t := engine.t;
    assert t.EntryShape(1) && t.path[..1] == [0] && [0] + [0] == [0, 0];
    var n := t.stack[1].parent;
    assert t.Shape(n) && t.StandsFor(n);
    engine.NodeFields(n);
    t.LeafSlot(n, 0, 2);
  }

  /** The second run of the star ends in its second slot, while the first slot holds the end node
      since the first run: the walk up from the end node's entry is not the reversed stack. */
  method WalkFindsEarlierSlot() returns (engine: ExecutionTreeManager, locs: seq<ChildLoc>)
    ensures engine.Ended() && |engine.nodeStack| == |locs| == 3
    ensures locs[0] == engine.nodeStack[2] && locs[2] == engine.nodeStack[0] && locs[1] != engine.nodeStack[1]
  {
    engine := EndSecondRun();
    FirstSlotHoldsEnd(engine);
    assert engine.nodeStack[1].parent.children[..1][0] == engine.endNode;
    locs := engine.ComputePath(engine.nodeStack[2], 2);
  }
}
