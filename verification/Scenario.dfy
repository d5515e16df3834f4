/** The script's side of the engine: the calls a test script makes, one run of a script, and the
    exploration loop. */
module Scenarios {
  import opened ExecutionTrees
  import opened Manager
  import opened ReplayModes
  import opened Scripts
  import opened SearchSpec
  import opened TreeStates

  /** What a call does to the tree, to the place in the replay and to the early flags. */
  ghost predicate Replies(t0: Tree, t: Tree, k0: nat, k: nat, early0: set<ExecutionTree>, early: set<ExecutionTree>,
                          reply: Reply)
  {
    && t.Valid() && t.Open() && (t0.Lean() ==> t.Lean())
    && match reply
       case Answer(l) =>
         && k == k0 + 1 && k0 <= |t0.path| && t0.OneMore(t, k0, l) && early == early0
         && (early != {} ==> t.FlagAbove(early) && k < |t.path|)
       case Backtracks => k == k0 && t == t0 && early0 != {} && early != {} && t.FlagsAhead(early, k)
       case NobodyTakes =>
         && k == k0 && t == t0.(heap := t.heap) && early == early0 != {} && t.FlagAbove(early) && t.FlagsAhead(early, k)
       case Fails => k == k0 && t == t0
  }

  /** The run replays the saved answers p0, or has gone on from them to p, and it will stop where and
      why the reference run does.  If a flag was set early then it is ahead, and when the replay
      gets to its node no forall node is right above. */
  ghost predicate Follows(env: Env, run: nat, t: Tree, early: set<ExecutionTree>, p0: Path, flagged: bool, p: Path)
    requires ValidEnv(env) && IsPos(env.script, p0) && IsPos(env.script, p)
  {
    && 1 <= |p| && 1 <= |p0| && IsPos(env.script, [0]) && OnWay(p0, p) && OnWay(p0, [0])
    && t.path == (if |p| <= |p0| then p0 else p)
    && (early != {} <==> flagged)
    && (flagged ==> t.FlagAbove(early) && |p| < |p0|)
    && (flagged && |p| + 1 == |p0| ==> !AtForall(env.script, p[..|p| - 1]))
    && RunFrom(env, run, t.explored, p0, flagged, [0]) == RunFrom(env, run, t.explored, p0, flagged, p)
  }

  /** The run stops at p for this reason, as the reference run does, and unless a check has failed the
      path can be ended. */
  ghost predicate Halts(env: Env, run: nat, t: Tree, early: set<ExecutionTree>, p0: Path, flagged: bool, p: Path,
                        reason: Reason)
    requires ValidEnv(env) && IsPos(env.script, p0) && IsPos(env.script, p)
  {
    && 1 <= |p| && IsPos(env.script, [0]) && OnWay(p0, [0])
    && RunFrom(env, run, t.explored, p0, flagged, [0]) == Halt(p, reason)
    && (!reason.CheckFails? ==>
          && t.path == (if |p| <= |p0| then p0 else p)
          && (early != {} <==> flagged) && t.FlagsAhead(early, |p|)
          && (reason == GivenUp(true) && AtForall(env.script, p[..|p| - 1]) ==>
                early == {} || (|p| + 1 < |t.path| && t.FlagAbove(early))))
  }

  /** Why a run stops when its call comes back without an answer. */
  function WhyHalted(reply: Reply, allEnded: bool): Reason
    requires !reply.Answer?
  {
    match reply
    case Backtracks => NodeCovered
    case NobodyTakes => GivenUp(allEnded)
    case Fails => CheckFails
  }

  /** Whether the saved answers are taken from p0 or from the path makes no difference. */
  lemma SameReply(env: Env, run: nat, p0: Path, flagged: bool, p: Path, t0: Tree, early0: set<ExecutionTree>)
    requires ValidEnv(env) && IsPos(env.script, p0) && IsPos(env.script, p) && At(env.script, p).Step?
    requires Follows(env, run, t0, early0, p0, flagged, p)
    ensures ReplyAt(env, run, t0.explored, t0.path, flagged, p) == ReplyAt(env, run, t0.explored, p0, flagged, p)
  {
  }

  lemma FollowPath(env: Env, run: nat, p0: Path, flagged: bool, p: Path, t0: Tree, early0: set<ExecutionTree>)
    requires ValidEnv(env) && IsPos(env.script, p0) && IsPos(env.script, p)
    requires Follows(env, run, t0, early0, p0, flagged, p)
    ensures 1 <= |p| && OnWay(p0, p) && IsPos(env.script, [0]) && OnWay(p0, [0])
    ensures t0.path == (if |p| <= |p0| then p0 else p)
  {
  }

  /** The run goes on with the answer. */
  lemma FollowAnswer(env: Env, run: nat, p0: Path, flagged: bool, p: Path, t0: Tree, early: set<ExecutionTree>,
                     t: Tree, l: nat)
    requires ValidEnv(env) && IsPos(env.script, p0) && IsPos(env.script, p)
    requires At(env.script, p).Step? && !env.givesUp(run, p)
    requires Follows(env, run, t0, early, p0, flagged, p) && |p| <= |t0.path|
    requires ReplyAt(env, run, t0.explored, p0, flagged, p) == Answer(l)
    requires t0.OneMore(t, |p|, l) && (early != {} ==> t.FlagAbove(early))
    ensures l < |At(env.script, p).next| && IsPos(env.script, p + [l])
    ensures At(env.script, p + [l]) == At(env.script, p).next[l]
    ensures Follows(env, run, t, early, p0, flagged, p + [l])
    ensures |p| + 1 <= |t.path| && p + [l] == t.path[..|p| + 1]
  {
    hide RunFrom, Choose, Tree.FlagAbove;
    AnswerLeads(env, run, t0.explored, p0, flagged, p);
    RunStep(env, run, t0.explored, p0, flagged, p, l);
    AtWellFormed(env.script, p);
    assert (p + [l])[..|p|] == p;
    assert |p| == |p0| ==> p == p0;
    AtStep(env.script, p, l);
  }

  /** The run ends with the call. */
  lemma FollowEnd(env: Env, run: nat, p0: Path, flagged: bool, p: Path, t0: Tree, early0: set<ExecutionTree>,
                  t: Tree, early: set<ExecutionTree>, reply: Reply)
    requires ValidEnv(env) && IsPos(env.script, p0) && IsPos(env.script, p)
    requires At(env.script, p).Step? && !env.givesUp(run, p)
    requires Follows(env, run, t0, early0, p0, flagged, p)
    requires ReplyAt(env, run, t0.explored, p0, flagged, p) == reply && !reply.Answer?
    requires Replies(t0, t, |p|, |p|, early0, early, reply)
    ensures Halts(env, run, t, early, p0, flagged, p, WhyHalted(reply, env.allEnded(run, p)))
  {
    hide ValidEnv, Tree.FlagAbove, Tree.FlagsAhead, Tree.Valid, Tree.Open;
  }

  class Scenario {
    const execTree: ExecutionTreeManager

    constructor (execTree: ExecutionTreeManager)
      ensures this.execTree == execTree
    {
      this.execTree := execTree;
    }

    /** A script call of this shape may come next.  If a flag was set early then it is that of the
        last node on the saved path, and that node has not been replayed yet. */
    ghost predicate Ready(s: Script)
      reads execTree, execTree.endNode, execTree.t.heap.Keys
    {
      && execTree.Valid() && execTree.t.Open() && 1 <= execTree.stackIndex
      && s.Step? && IsPos(execTree.t.script, execTree.Position()) && At(execTree.t.script, execTree.Position()) == s
      && (execTree.early != {} ==>
            execTree.t.FlagAbove(execTree.early) && execTree.stackIndex < |execTree.t.path|)
    }

    /** The call has to do with a node that was flagged early, or with the node above it. */
    ghost predicate MeetsFlag()
      reads execTree
    {
      execTree.early != {} && |execTree.t.path| <= execTree.stackIndex + 2
    }

    lemma ReadyIsWellFormed(s: Script)
      requires Ready(s)
      ensures WellFormed(s) && !IsRoot(s)
    {
      AtWellFormed(execTree.t.script, execTree.Position());
    }

    /** The node to replay, or the uncovered one that is already there, or a new one.  It is flagged
        covered only if it was flagged early. */
    method GetOrCreateNode(ghost s: Script, kind: Kind, scopeSize: nat)
      returns (node: ExecutionTree, index: int, existed: bool)
      requires Ready(s) && s.kind == kind && |s.next| == scopeSize
      ensures node.kind == kind && node != execTree.endNode
      ensures node !in execTree.early ==> execTree.t.MayFollow(node, node.Rec(), execTree.stackIndex)
      ensures node in execTree.early <==> execTree.early != {} && execTree.stackIndex + 1 == |execTree.t.path|
      ensures Fits(node.Rec(), s) && (node.covered <==> node in execTree.early)
      ensures existed <==> node in execTree.t.heap
      ensures existed ==> node in execTree.t.pos && execTree.t.pos[node] == execTree.Position()
      ensures !existed ==> fresh(node) && Created(node.Rec(), kind, scopeSize) && node.lvar == NO_THREAD
      ensures !existed ==> execTree.stackIndex == |execTree.nodeStack|
      ensures if execTree.stackIndex < |execTree.nodeStack|
              then 0 <= index < |node.children| && execTree.nodeStack[execTree.stackIndex] == ChildLoc(node, index)
                   && node.idxToVar[index] == execTree.t.path[execTree.stackIndex]
              else index == NO_INDEX
    {
      hide Tree.TreeShape, Tree.StackShape, Tree.CoverageExact, Records, Tree.Open, Tree.FlagAbove, Fits;
      if execTree.stackIndex < |execTree.nodeStack| { SavedSlot(s); }
      var next;
      next, index := execTree.GetNextNodeInStack();
      execTree.NodeFields(execTree.nodeStack[execTree.stackIndex - 1].parent);
      existed := next != null;
      if next != null {
        node := next;
        LiveFollows(node, s);
        WhereFlagged(node);
      } else {
        node := new ExecutionTree(kind, scopeSize);
        ReadyIsWellFormed(s);
        CreatedFits(node.Rec(), s);
      }
    }

    /** The saved entry has the saved answer in its slot. */
    lemma SavedSlot(s: Script)
      requires Ready(s) && execTree.stackIndex < |execTree.nodeStack|
      ensures var loc := execTree.nodeStack[execTree.stackIndex];
              && loc.childIndex < |loc.parent.children| && loc.childIndex < |loc.parent.idxToVar|
              && execTree.stackIndex < |execTree.t.path|
              && loc.parent.idxToVar[loc.childIndex] == execTree.t.path[execTree.stackIndex]
    {
      execTree.t.EntryPosition(execTree.stackIndex);
      execTree.NodeFields(execTree.nodeStack[execTree.stackIndex].parent);
    }

    /** What hangs from the slot at the current position may be replayed or called again. */
    lemma LiveFollows(node: ExecutionTree, s: Script)
      requires Ready(s) && execTree.t.EntryShape(execTree.stackIndex - 1)
      requires node == execTree.nodeStack[execTree.stackIndex - 1].Get() && node in execTree.t.heap
      requires node in execTree.t.pos && execTree.t.pos[node] == execTree.Position() && execTree.t.StandsFor(node)
      requires node != execTree.endNode && node != execTree.root
      ensures node !in execTree.early ==> execTree.t.MayFollow(node, node.Rec(), execTree.stackIndex)
      ensures Fits(node.Rec(), s) && node.kind == s.kind
    {
      hide Tree.TreeShape, Tree.StackShape, Tree.CoverageExact, Records, Tree.FlagAbove;
      execTree.NodeFields(execTree.nodeStack[execTree.stackIndex - 1].parent);
      execTree.NodeFields(node);
    }

    /** A live node at the current position was flagged early exactly when it is the last one on the
        saved path. */
    lemma WhereFlagged(node: ExecutionTree)
      requires execTree.Valid() && execTree.stackIndex <= |execTree.t.path|
      requires execTree.early != {} ==> execTree.t.FlagAbove(execTree.early) && execTree.stackIndex < |execTree.t.path|
      requires node in execTree.t.heap && node in execTree.t.pos && execTree.t.pos[node] == execTree.Position()
      ensures node in execTree.early <==> execTree.early != {} && execTree.stackIndex + 1 == |execTree.t.path|
    {
      if execTree.early != {} {
        var k := |execTree.t.path| - 1;
        execTree.t.EntryPosition(k);
        assert |execTree.t.pos[execTree.nodeStack[k].parent]| == k;
        assert execTree.stackIndex == k ==> execTree.t.SamePosition(node, execTree.nodeStack[k].parent);
      }
    }

    /** Only the node above it has a child that was flagged early. */
    lemma NoEarlyKids(node: ExecutionTree)
      requires execTree.Valid() && execTree.t.Open() && 1 <= execTree.stackIndex && !MeetsFlag()
      requires execTree.early != {} ==> execTree.t.FlagAbove(execTree.early)
      requires execTree.t.MayFollow(node, node.Rec(), execTree.stackIndex)
      ensures forall c :: c in node.children ==> c !in execTree.early
    {
      if execTree.early != {} {
        var k := |execTree.t.path| - 1;
        execTree.t.EntryPosition(k);
        execTree.t.FollowerPosition(node, node.Rec(), execTree.stackIndex);
        forall c | c in node.children ensures c !in execTree.early {
          if node in execTree.t.heap { execTree.t.KidsDeeper(node, c); }
        }
      }
    }

    /** The node above it has that child in the saved slot. */
    lemma EarlyKid(node: ExecutionTree, index: int)
      requires execTree.Valid() && execTree.stackIndex + 2 == |execTree.t.path|
      requires execTree.early != {} && execTree.t.FlagAbove(execTree.early)
      requires node in execTree.t.heap && 0 <= index < |node.children|
      requires execTree.nodeStack[execTree.stackIndex] == ChildLoc(node, index)
      ensures node.children[index] in execTree.early && node.children[index].covered
    {
      var k := execTree.stackIndex;
      execTree.t.EntryAbove(k + 1, 0);
      execTree.NodeFields(node);
      execTree.NodeFields(execTree.nodeStack[k + 1].parent);
    }

    /** A branch of the next node is covered by its child's flag exactly when it is covered. */
    lemma ChildTells(node: ExecutionTree, i: nat)
      requires execTree.Valid() && execTree.t.Open() && 1 <= execTree.stackIndex
      requires execTree.t.MayFollow(node, node.Rec(), execTree.stackIndex) && i < |node.children|
      requires node.children[i] !in execTree.early
      ensures i < |node.idxToVar|
      ensures (node.children[i] != null && node.children[i].covered) <==>
              Covered(execTree.t.script, execTree.t.explored, execTree.Position() + [node.idxToVar[i]])
    {
      execTree.t.BranchTells(node, node.Rec(), execTree.stackIndex, i);
      var c := node.children[i];
      if c != null && c != execTree.endNode {
        execTree.NodeFields(c);
      }
    }

    /** The next node is not covered by its children, unless one of them was flagged early. */
    lemma KidsOpen(node: ExecutionTree)
      requires execTree.Valid() && execTree.t.Open() && 1 <= execTree.stackIndex && node in execTree.t.heap
      requires execTree.t.MayFollow(node, node.Rec(), execTree.stackIndex)
      requires forall c :: c in node.children ==> c !in execTree.early
      ensures !node.AllCovered()
    {
      hide Tree.TreeShape, Tree.StackShape, Tree.CoverageExact;
      execTree.KidsAgree(node);
      execTree.t.NextIsOpen(execTree.stackIndex);
    }

    /** The replayed or chosen branch is not covered, as the calls check once more. */
    lemma BranchOpen(node: ExecutionTree, i: nat)
      requires execTree.Valid() && execTree.t.Open() && 1 <= execTree.stackIndex
      requires execTree.t.MayFollow(node, node.Rec(), execTree.stackIndex) && i < |node.children| == |node.idxToVar|
      requires node.children[i] !in execTree.early
      requires if execTree.stackIndex < |execTree.t.path| then node.idxToVar[i] == execTree.t.path[execTree.stackIndex]
               else !Covered(execTree.t.script, execTree.t.explored, execTree.Position() + [node.idxToVar[i]])
      ensures !(node.children[i] != null && node.children[i].covered)
    {
      ChildTells(node, i);
      var k := execTree.stackIndex;
      if k < |execTree.t.path| {
        CoveredBelow(execTree.t.script, execTree.t.explored, execTree.t.path[..k + 1], execTree.t.path);
        assert execTree.Position() + [node.idxToVar[i]] == execTree.t.path[..k + 1];
      }
    }

    lemma BranchIsOpen(node: ExecutionTree, i: nat, s: Script)
      requires Ready(s) && !MeetsFlag() && execTree.t.MayFollow(node, node.Rec(), execTree.stackIndex)
      requires i < |node.children| == |node.idxToVar|
      requires if execTree.stackIndex < |execTree.t.path| then node.idxToVar[i] == execTree.t.path[execTree.stackIndex]
               else !Covered(execTree.t.script, execTree.t.explored, execTree.Position() + [node.idxToVar[i]])
      ensures !(node.children[i] != null && node.children[i].covered)
    {
      hide Tree.TreeShape, Tree.StackShape, Tree.CoverageExact;
      NoEarlyKids(node);
      BranchOpen(node, i);
    }

    /** A star or conditional above an early flag takes itself for covered exactly when nothing else is
        open there. */
    lemma FlagCovers(node: ExecutionTree, index: int, s: Script)
      requires Ready(s) && (s.kind.Star? || s.kind.Conditional?) && execTree.early != {}
      requires execTree.stackIndex + 2 == |execTree.t.path|
      requires node in execTree.t.heap && execTree.t.MayFollow(node, node.Rec(), execTree.stackIndex)
      requires Fits(node.Rec(), s) && 0 <= index < |node.children|
      requires execTree.nodeStack[execTree.stackIndex] == ChildLoc(node, index)
      requires node.idxToVar[index] == execTree.t.path[execTree.stackIndex]
      ensures node.AllCovered() <==>
              OthersCovered(execTree.t.script, execTree.t.explored, execTree.Position(),
                            execTree.t.path[execTree.stackIndex])
    {
      hide Tree.TreeShape, Tree.StackShape, Tree.CoverageExact, Tree.Valid, Tree.Open;
      ReadyIsWellFormed(s);
      EarlyKid(node, index);
      OneSlotPerKid(node, index);
      forall i | 0 <= i < |node.children| && i != index
        ensures node.idxToVar[i] == i
        ensures (node.children[i] != null && node.children[i].covered) <==>
                Covered(execTree.t.script, execTree.t.explored, execTree.Position() + [i])
      {
        ChildTells(node, i);
      }
    }

    lemma OneSlotPerKid(node: ExecutionTree, index: int)
      requires execTree.Valid() && node in execTree.t.heap && 0 <= index < |node.children|
      requires execTree.early == {node.children[index]} && execTree.t.FlagAbove(execTree.early)
      ensures forall i :: 0 <= i < |node.children| && i != index ==> node.children[i] !in execTree.early
    {
      var c := node.children[index];
      execTree.NodeFields(node);
      execTree.t.EntryPosition(|execTree.t.path| - 1);
      execTree.t.ForallBelowRoot(|execTree.t.path| - 1);
      assert c != execTree.root by { execTree.t.FirstEntry(); assert |execTree.t.pos[c]| > 0; }
      forall i | 0 <= i < |node.children| && i != index ensures node.children[i] != c {
        execTree.t.OneSlotEach(c, node, index);
      }
    }

    /** The node is added to the path with this answer. */
    method Take(node: ExecutionTree, childIndex: nat, ghost answer: nat)
      requires execTree.Valid() && execTree.t.Open() && 1 <= execTree.stackIndex
      requires execTree.t.MayFollow(node, node.Rec(), execTree.stackIndex) && node !in execTree.early
      requires childIndex < |node.children| == |node.idxToVar| && node.idxToVar[childIndex] == answer
      requires execTree.stackIndex < |execTree.nodeStack| ==>
                 execTree.nodeStack[execTree.stackIndex] == ChildLoc(node, childIndex)
      requires execTree.stackIndex == |execTree.nodeStack| ==>
                 !Covered(execTree.t.script, execTree.t.explored, execTree.t.path + [answer])
      requires execTree.early != {} ==>
                 execTree.t.FlagAbove(execTree.early) && execTree.stackIndex + 1 < |execTree.t.path|
      modifies execTree`nodeStack, execTree`stackIndex, execTree`t, execTree`early, execTree.t.heap.Keys, node`parent
      ensures execTree.Valid() && Replies(old(execTree.t), execTree.t, old(execTree.stackIndex), execTree.stackIndex,
                                          old(execTree.early), execTree.early, Answer(answer))
      ensures execTree.t.heap.Keys == old(execTree.t.heap.Keys) + {node}
      ensures 1 <= execTree.stackIndex <= |execTree.nodeStack|
      ensures execTree.nodeStack[execTree.stackIndex - 1] == ChildLoc(node, childIndex)
      ensures node.idxToVar == old(node.idxToVar) && node.lvar == old(node.lvar)
    {
      hide Tree.TreeShape, Tree.StackShape, Tree.CoverageExact, Records;
      if execTree.early != {} { FlagKind(); }
      execTree.AddNodeToPath(node, childIndex, answer);
      if execTree.early != {} { execTree.FlagIsAbove(); }
    }

    lemma FlagKind()
      requires execTree.Valid() && execTree.t.FlagAbove(execTree.early)
      ensures |execTree.nodeStack| == |execTree.t.path|
      ensures execTree.nodeStack[|execTree.nodeStack| - 1].parent.kind.Forall?
    {
      execTree.NodeFields(execTree.nodeStack[|execTree.nodeStack| - 1].parent);
    }

    /** Only a forall node can have been flagged early, so another call that meets a flag is that of
        the node above. */
    lemma AboveTheFlag(node: ExecutionTree, s: Script)
      requires Ready(s) && node.kind == s.kind && !s.kind.Forall?
      requires node in execTree.early <==> execTree.early != {} && execTree.stackIndex + 1 == |execTree.t.path|
      ensures node !in execTree.early && (MeetsFlag() ==> execTree.stackIndex + 2 == |execTree.t.path|)
    {
      if execTree.early != {} { FlagKind(); }
    }

    /** What recomputing the coverage of the next node comes to. */
    lemma RecomputeTells(node: ExecutionTree, index: int, s: Script)
      requires Ready(s) && (s.kind.Star? || s.kind.Conditional?) && node !in execTree.early
      requires node in execTree.t.heap && execTree.t.MayFollow(node, node.Rec(), execTree.stackIndex)
      requires Fits(node.Rec(), s) && (MeetsFlag() ==> execTree.stackIndex + 2 == |execTree.t.path|)
      requires execTree.stackIndex < |execTree.nodeStack| ==>
                 0 <= index < |node.children| && execTree.nodeStack[execTree.stackIndex] == ChildLoc(node, index)
                 && node.idxToVar[index] == execTree.t.path[execTree.stackIndex]
      ensures !MeetsFlag() ==> !node.AllCovered() && forall c :: c in node.children ==> c !in execTree.early
      ensures MeetsFlag() ==>
                && (node.AllCovered() <==>
                    OthersCovered(execTree.t.script, execTree.t.explored, execTree.Position(),
                                  execTree.t.path[execTree.stackIndex]))
                && node.children[index] != null && node.children[index].covered
                && (node.AllCovered() ==> execTree.t.FlagsAhead(execTree.early + {node}, execTree.stackIndex))
      ensures !execTree.t.heap[node].covered && (s.kind.Star? ==> |node.children| == 2)
    {
      hide Tree.TreeShape, Tree.StackShape, Tree.CoverageExact, Tree.Valid, Tree.Open, Records;
      ReadyIsWellFormed(s);
      NextIsUnflagged(node);
      if MeetsFlag() {
        FlagCovers(node, index, s);
        EarlyKid(node, index);
        FlaggedBoth(node, s);
      } else {
        NoEarlyKids(node);
        KidsOpen(node);
      }
    }

    lemma NextIsUnflagged(node: ExecutionTree)
      requires execTree.Valid() && execTree.t.Open() && 1 <= execTree.stackIndex && node in execTree.t.heap
      requires execTree.t.MayFollow(node, node.Rec(), execTree.stackIndex)
      ensures !execTree.t.heap[node].covered
    {
      hide Tree.TreeShape, Tree.StackShape, Tree.CoverageExact;
      execTree.t.NextIsOpen(execTree.stackIndex);
    }

    lemma FlaggedBoth(node: ExecutionTree, s: Script)
      requires Ready(s) && execTree.early != {} && execTree.stackIndex + 2 == |execTree.t.path|
      requires execTree.nodeStack[execTree.stackIndex].parent == node
      ensures OthersCovered(execTree.t.script, execTree.t.explored, execTree.Position(),
                            execTree.t.path[execTree.stackIndex]) ==>
                execTree.t.FlagsAhead(execTree.early + {node}, execTree.stackIndex)
    {
      hide Tree.TreeShape, Tree.StackShape, Tree.CoverageExact, OthersCovered;
      execTree.t.EntryPosition(execTree.stackIndex);
      FlagKind();
    }

    lemma AtTheTip(s: Script)
      requires Ready(s)
      ensures |execTree.nodeStack| == |execTree.t.path|
      ensures execTree.stackIndex == |execTree.nodeStack| ==>
                !MeetsFlag() && execTree.early == {} && execTree.Position() == execTree.t.path
    {
    }

    /** The node may be added to the path, unless the saved branch leads to a node that was flagged early. */
    ghost predicate NextNode(node: ExecutionTree, index: int, s: Script)
      reads execTree, execTree.endNode, execTree.t.heap.Keys, node, node.children
    {
      && s.Step? && node.kind == s.kind && node !in execTree.early && !node.covered && Fits(node.Rec(), s)
      && execTree.t.MayFollow(node, node.Rec(), execTree.stackIndex)
      && (if execTree.stackIndex < |execTree.nodeStack|
          then 0 <= index < |node.children| && execTree.nodeStack[execTree.stackIndex] == ChildLoc(node, index)
               && execTree.stackIndex < |execTree.t.path|
               && node.idxToVar[index] == execTree.t.path[execTree.stackIndex]
          else index == NO_INDEX)
      && if MeetsFlag()
         then 0 <= index < |node.children| && node.children[index] != null && node.children[index].covered
         else !node.AllCovered() && forall c :: c in node.children ==> c !in execTree.early
    }

    /** The node of a star or conditional, unless the call backtracks because the node takes itself for
        covered: its coverage is computed again if it is already there. */
    method GetUncovered(kind: Kind, ghost s: Script) returns (node: ExecutionTree, index: int, covered: bool)
      requires Ready(s) && s.kind == kind && (kind.Star? || kind.Conditional?)
      modifies execTree`early, execTree.t.heap.Keys
      ensures node in execTree.t.heap || fresh(node)
      ensures old(MeetsFlag()) ==> execTree.stackIndex + 2 == |execTree.t.path|
      ensures covered <==>
                old(MeetsFlag()) && OthersCovered(execTree.t.script, execTree.t.explored, execTree.Position(),
                                                  execTree.t.path[execTree.stackIndex])
      ensures covered ==>
                execTree.Valid() && old(execTree.early) != {} && execTree.early != {}
                && node in execTree.t.heap && execTree.t.FlagsAhead(execTree.early, execTree.stackIndex)
      ensures !covered ==> Ready(s) && execTree.early == old(execTree.early) && NextNode(node, index, s)
    {
      hide Tree.TreeShape, Tree.StackShape, Tree.CoverageExact, Tree.Valid, Tree.Open, Records, OthersCovered,
           ExecutionTree.AllCovered, Fits, Tree.FlagAbove, Tree.FlagsAhead;
      ReadyIsWellFormed(s);
      AtTheTip(s);
      var existed;
      node, index, existed := GetOrCreateNode(s, kind, if kind.Star? then 2 else 1);
      AboveTheFlag(node, s);
      covered := false;
      if existed {
        RecomputeTells(node, index, s);
        covered := execTree.Recompute(node);
      } else {
        NewIsOpen(node, kind, s);
      }
    }

    lemma NewIsOpen(node: ExecutionTree, kind: Kind, s: Script)
      requires Ready(s) && Created(node.Rec(), kind, |s.next|) && (kind.Star? || kind.Conditional?)
      requires execTree.stackIndex == |execTree.nodeStack|
      ensures !node.AllCovered() && !MeetsFlag() && forall c :: c in node.children ==> c == null
    {
      AtTheTip(s);
      assert node.children[0] == null;
    }

    /** The branch is taken, unless the check that it is not covered fails. */
    method TakeBranch(choice: ExecutionTree, ret: nat, ghost index: int, ghost s: Script) returns (reply: Reply)
      requires Ready(s) && NextNode(choice, index, s) && !choice.kind.Forall?
      requires ret < |choice.children| && (index == NO_INDEX || ret == index)
      requires index == NO_INDEX ==> !Covered(execTree.t.script, execTree.t.explored, execTree.Position() + [ret])
      modifies execTree`nodeStack, execTree`stackIndex, execTree`t, execTree`early, execTree.t.heap.Keys, choice`parent
      ensures execTree.Valid() && Replies(old(execTree.t), execTree.t, old(execTree.stackIndex), execTree.stackIndex,
                                          old(execTree.early), execTree.early, reply)
      ensures reply == if old(MeetsFlag()) then Fails else Answer(ret)
      ensures execTree.t.script == old(execTree.t.script) && execTree.t.explored == old(execTree.t.explored)
      ensures reply.Answer? ==> execTree.t.heap.Keys == old(execTree.t.heap.Keys) + {choice}
      ensures reply.Fails? ==> execTree.t.heap.Keys == old(execTree.t.heap.Keys) && choice in execTree.t.heap
    {
      hide Tree.TreeShape, Tree.StackShape, Tree.CoverageExact, Tree.Valid, Records, ExecutionTree.AllCovered;
      AtTheTip(s);
      if !MeetsFlag() { BranchIsOpen(choice, ret, s); }
      var taken := choice.ChildCovered(ret);
      if taken {
        SavedIsLive(choice, index, s);
        return Fails;
      }
      Take(choice, ret, ret);
      reply := Answer(ret);
    }

    lemma SavedIsLive(choice: ExecutionTree, index: int, s: Script)
      requires Ready(s) && NextNode(choice, index, s) && MeetsFlag()
      ensures choice in execTree.t.heap
    {
      hide Tree.TreeShape, Tree.StackShape, Tree.CoverageExact;
      execTree.t.EntryPosition(execTree.stackIndex);
    }

    /** A star: replay the saved answer, or go where coverage (and, if both branches are open and
        the star is nondeterministic, the random bit) says.  The answer is 1 for true.  The call
        backtracks, or fails a check, only right above a node that was flagged early. */
    method DSLChoice(nondet: bool, flip: bool, ghost s: Script) returns (reply: Reply, ghost added: ExecutionTree)
      requires Ready(s) && s.kind == Star(nondet)
      modifies execTree`nodeStack, execTree`stackIndex, execTree`t, execTree`early,
               execTree.t.heap.Keys
      ensures execTree.Valid() && Replies(old(execTree.t), execTree.t, old(execTree.stackIndex), execTree.stackIndex,
                                          old(execTree.early), execTree.early, reply)
      ensures execTree.t.heap.Keys == old(execTree.t.heap.Keys) + {added}
      ensures added in old(execTree.t.heap.Keys) || fresh(added)
      ensures old(MeetsFlag()) ==>
                && old(execTree.stackIndex) + 2 == |old(execTree.t.path)|
                && reply == if OthersCovered(old(execTree.t.script), old(execTree.t.explored), old(execTree.Position()),
                                             old(execTree.t.path[execTree.stackIndex])) then Backtracks else Fails
      ensures !old(MeetsFlag()) ==>
                reply.Answer? && (old(execTree.stackIndex) == |old(execTree.t.path)| ==>
                  reply.answer == StarAnswer(nondet, flip,
                         Covered(execTree.t.script, execTree.t.explored, old(execTree.Position()) + [0]),
                         Covered(execTree.t.script, execTree.t.explored, old(execTree.Position()) + [1])))
    {
      hide Tree.TreeShape, Tree.StackShape, Tree.CoverageExact, Tree.Valid, Tree.Open, Records, OthersCovered,
           ExecutionTree.AllCovered, Fits, Tree.FlagAbove, Tree.FlagsAhead, Tree.MayFollow, StarAnswer,
           Tree.OneMore;
      var choice, index, cov := GetUncovered(Star(nondet), s);
      added := choice;
      if cov {
        return Backtracks, choice;
      }
      AtTheTip(s);
      StarShape(choice, index, s);
      var ret := SavedOrOpenBranch(choice, index, nondet, flip);
      reply := TakeBranch(choice, ret, index, s);
    }

    lemma StarShape(choice: ExecutionTree, index: int, s: Script)
      requires Ready(s) && s.kind.Star? && NextNode(choice, index, s)
      ensures |choice.children| == 2 && choice.idxToVar == [0, 1]
    {
      ReadyIsWellFormed(s);
    }

    method SavedOrOpenBranch(choice: ExecutionTree, index: int, nondet: bool, flip: bool) returns (ret: nat)
      requires execTree.Valid() && execTree.t.Open() && 1 <= execTree.stackIndex
      requires execTree.t.MayFollow(choice, choice.Rec(), execTree.stackIndex)
      requires choice.kind.Star? && |choice.children| == 2 && choice.idxToVar == [0, 1]
      requires index == NO_INDEX ==> !choice.AllCovered() && execTree.early == {}
      requires index == NO_INDEX || 0 <= index < 2
      ensures index != NO_INDEX ==> ret == index
      ensures index == NO_INDEX ==>
                && ret < 2 && !Covered(execTree.t.script, execTree.t.explored, execTree.Position() + [ret])
                && ret == StarAnswer(nondet, flip,
                            Covered(execTree.t.script, execTree.t.explored, execTree.Position() + [0]),
                            Covered(execTree.t.script, execTree.t.explored, execTree.Position() + [1]))
    {
      if index < 0 {
        ret := OpenBranch(choice, nondet, flip);
      } else {
        ret := index;
      }
    }

    method OpenBranch(choice: ExecutionTree, nondet: bool, flip: bool) returns (ret: nat)
      requires execTree.Valid() && execTree.t.Open() && 1 <= execTree.stackIndex
      requires execTree.t.MayFollow(choice, choice.Rec(), execTree.stackIndex)
      requires choice.kind.Star? && |choice.children| == 2 && choice.idxToVar == [0, 1] && !choice.AllCovered()
      requires execTree.early == {}
      ensures ret == StarAnswer(nondet, flip,
                       Covered(execTree.t.script, execTree.t.explored, execTree.Position() + [0]),
                       Covered(execTree.t.script, execTree.t.explored, execTree.Position() + [1]))
      ensures ret < 2 && !Covered(execTree.t.script, execTree.t.explored, execTree.Position() + [ret])
    {
      hide Tree.TreeShape, Tree.StackShape, Tree.CoverageExact;
      ChildTells(choice, 0);
      ChildTells(choice, 1);
      var cov0 := choice.ChildCovered(0);
      var cov1 := choice.ChildCovered(1);
      assert !cov0 || !cov1;
      if !cov0 && !cov1 {
        if nondet {
          ret := if flip then 1 else 0;
        } else {
          ret := 1;
        }
      } else {
        ret := if !cov0 then 0 else 1;
      }
    }

    /** A conditional: its one branch is taken.  In a deterministic script the recorded value is
        the one given, so the replay never fails.  The call backtracks only right above a node that
        was flagged early. */
    method DSLConditional(value: bool, ghost s: Script) returns (reply: Reply, ghost added: ExecutionTree)
      requires Ready(s) && s.kind == Conditional(value)
      modifies execTree`nodeStack, execTree`stackIndex, execTree`t, execTree`early,
               execTree.t.heap.Keys
      ensures execTree.Valid() && Replies(old(execTree.t), execTree.t, old(execTree.stackIndex), execTree.stackIndex,
                                          old(execTree.early), execTree.early, reply)
      ensures execTree.t.heap.Keys == old(execTree.t.heap.Keys) + {added}
      ensures added in old(execTree.t.heap.Keys) || fresh(added)
      ensures old(MeetsFlag()) ==> old(execTree.stackIndex) + 2 == |old(execTree.t.path)|
      ensures reply == if old(MeetsFlag()) then Backtracks else Answer(0)
    {
      hide Tree.TreeShape, Tree.StackShape, Tree.CoverageExact, Tree.Valid, Tree.Open, Records,
           ExecutionTree.AllCovered;
      ReadyIsWellFormed(s);
      var choice, index, cov := GetUncovered(Conditional(value), s);
      added := choice;
      if cov {
        return Backtracks, choice;
      }
      assert choice.kind.value == value;
      OnlyBranchOpen(s);
      OneBranch(choice, index, s);
      reply := TakeBranch(choice, 0, index, s);
    }

    lemma OneBranch(choice: ExecutionTree, index: int, s: Script)
      requires Ready(s) && s.kind.Conditional? && NextNode(choice, index, s)
      ensures index == NO_INDEX ==> execTree.Position() == execTree.t.path
      ensures |choice.children| == |s.next| == 1 && choice.idxToVar == [0] && (index == NO_INDEX || index == 0)
      ensures MeetsFlag() ==>
                OthersCovered(execTree.t.script, execTree.t.explored, execTree.Position(),
                              execTree.t.path[execTree.stackIndex])
    {
      ReadyIsWellFormed(s);
    }

    /** A transition: the node is submitted, and the thread that consumes it adds it to the path.
        Only its own flag is looked at. */
    method DSLTransition(ghost s: Script) returns (ghost added: ExecutionTree)
      requires Ready(s) && s.kind == Transition
      modifies execTree`nodeStack, execTree`stackIndex, execTree`t, execTree`early,
               execTree.t.heap.Keys
      ensures execTree.Valid() && Replies(old(execTree.t), execTree.t, old(execTree.stackIndex), execTree.stackIndex,
                                          old(execTree.early), execTree.early, Answer(0))
      ensures execTree.t.heap.Keys == old(execTree.t.heap.Keys) + {added}
      ensures added in old(execTree.t.heap.Keys) || fresh(added)
      ensures old(MeetsFlag()) ==> old(execTree.stackIndex) + 2 == |old(execTree.t.path)|
    {
      hide Tree.TreeShape, Tree.StackShape, Tree.CoverageExact, Records;
      ReadyIsWellFormed(s);
      var trans, index, existed := GetOrCreateNode(s, Transition, 1);
      AboveTheFlag(trans, s);
      assert !trans.covered;
      OnlyBranchOpen(s);
      Take(trans, 0, 0);
      added := trans;
    }

    lemma OnlyBranchOpen(s: Script)
      requires Ready(s) && |s.next| == 1
      ensures execTree.stackIndex == |execTree.nodeStack| ==>
                !Covered(execTree.t.script, execTree.t.explored, execTree.t.path + [0])
    {
      CoveredByKids(execTree.t.script, execTree.t.explored, execTree.Position());
      if execTree.stackIndex == |execTree.nodeStack| {
        assert execTree.Position() == execTree.t.path;
      }
    }

    // -------------------------------------------------------------- forall threads

    /** The forall node while threads are being offered to it: since the tree t0 in which the node,
        with record rec0, was about to follow, only its record has changed. */
    ghost predicate Offering(node: ExecutionTree, index: int, t0: Tree, rec0: Record)
      reads execTree, execTree.endNode, execTree.t.heap.Keys, node
    {
      && execTree.InSync() && node.lvar == NO_THREAD && |node.children| == |node.idxToVar| && node !in execTree.early
      && Grows(rec0, node.Rec()) && execTree.t == t0.Recorded(node, node.Rec())
      && index < |rec0.children| == |rec0.idxToVar|
    }

    /** The thread has taken the node, with the answer in slot childIndex. */
    ghost predicate Offered(node: ExecutionTree, childIndex: int, thread: nat, index: int, t0: Tree, rec0: Record)
      reads execTree, execTree.endNode, execTree.t.heap.Keys, node
    {
      && execTree.InSync() && Grows(rec0, node.Rec()) && execTree.t == t0.Recorded(node, node.Rec())
      && 0 <= childIndex < |node.children| == |node.idxToVar| && node.idxToVar[childIndex] == thread
      && (index == NO_INDEX || childIndex == index) && node.lvar == thread
    }

    /** The node may follow in t0, and index is the saved answer if there is one. */
    ghost predicate Submitted(node: ExecutionTree, index: int, t0: Tree, rec0: Record, k: nat, s: Script) {
      && t0.Valid() && t0.Open() && t0.MayFollow(node, rec0, k) && rec0.kind.Forall?
      && IsPos(t0.script, t0.path[..k]) && At(t0.script, t0.path[..k]) == s && s.Step? && rec0.scopeSize == |s.next|
      && |rec0.children| == |rec0.idxToVar|
      && if k < |t0.path| then 0 <= index < |rec0.children| && rec0.idxToVar[index] == t0.path[k] else index == NO_INDEX
    }

    /** What was flagged early: either none of the node's children, or the one in the saved slot. */
    ghost predicate KidsFlagged(rec0: Record, index: int, early: set<ExecutionTree>, blocked: bool)
      requires index < |rec0.children|
    {
      if blocked then index >= 0 && rec0.children[index] != null && rec0.children[index] in early
      else forall c :: c in rec0.children ==> c !in early
    }

    /** For a thread of the scope the flag of its child tells whether its branch is covered, but for a
        flag that was set early. */
    lemma ThreadTells(node: ExecutionTree, thread: nat, index: int, t0: Tree, rec0: Record, k: nat, s: Script)
      requires Submitted(node, index, t0, rec0, k, s) && Offering(node, index, t0, rec0) && thread < node.scopeSize
      requires KidsFlagged(rec0, index, execTree.early, false)
      ensures node.BranchDone(thread) <==> Covered(t0.script, t0.explored, t0.path[..k] + [thread])
    {
      t0.OfferTells(node, rec0, node.Rec(), k, thread);
      if thread in node.varToIdx && node.varToIdx[thread] < |node.children| {
        var c := node.children[node.varToIdx[thread]];
        if c != null && c != execTree.endNode {
          assert c in rec0.children;
          execTree.NodeFields(c);
        }
      }
    }

    lemma SavedThreadDone(node: ExecutionTree, index: int, t0: Tree, rec0: Record, k: nat, s: Script)
      requires Submitted(node, index, t0, rec0, k, s) && Offering(node, index, t0, rec0)
      requires KidsFlagged(rec0, index, execTree.early, true) && rec0.children[index] in execTree.t.heap
      ensures node.BranchDone(rec0.idxToVar[index])
    {
      assert node.idxToVar[index] == rec0.idxToVar[index] && node.children[index] == rec0.children[index];
      execTree.NodeFields(node.children[index]);
    }

    lemma OfferingStarts(node: ExecutionTree, index: int, t0: Tree, k: nat, s: Script)
      requires Submitted(node, index, t0, node.Rec(), k, s) && node !in execTree.early
      requires execTree.InSync() && execTree.t == t0 && node.lvar == NO_THREAD
      ensures Offering(node, index, t0, node.Rec())
    {
      t0.FollowerFits(node, node.Rec(), k);
      assert node in t0.heap ==> t0.heap[node := node.Rec()] == t0.heap;
    }

    /** EvalSelectThread for a forall node: offer it to one arriving thread, for which the node's
        predicate has the value accepted. */
    method EvalSelectThread(node: ExecutionTree, thread: nat, accepted: bool, index: int,
                            ghost t0: Tree, ghost rec0: Record)
      returns (childIndex: int)
      requires Offering(node, index, t0, rec0) && NO_INDEX <= index && node != execTree.endNode
      modifies node, execTree`t
      ensures execTree.InSync() && Grows(rec0, node.Rec()) && execTree.t == t0.Recorded(node, node.Rec())
      ensures |node.children| == |node.idxToVar|
      ensures childIndex == NO_INDEX ==> node.lvar == NO_THREAD
      ensures childIndex != NO_INDEX ==>
                && 0 <= childIndex < |node.children| && node.idxToVar[childIndex] == thread && node.lvar == thread
                && (index == NO_INDEX || childIndex == index)
      ensures childIndex != NO_INDEX <==>
                && thread < node.scopeSize && accepted && !old(node.BranchDone(thread))
                && (index == NO_INDEX || rec0.idxToVar[index] == thread)
    {
      hide Tree.TreeShape, Tree.StackShape, Tree.CoverageExact;
      ghost var rec1 := node.Rec();
      childIndex := node.CheckAndSelectThread(thread, accepted, index);
      GrowsOn(rec0, rec1, node.Rec(), thread);
      RecordNode(node, t0);
    }

    /** Bring the tree up to date with the node. */
    ghost method RecordNode(node: ExecutionTree, t0: Tree)
      requires execTree.t.heap.Keys == t0.heap.Keys && execTree.t == t0.(heap := execTree.t.heap)
      requires t0.root == execTree.root && t0.endNode == execTree.endNode && t0.stack == execTree.nodeStack
      requires execTree.endNode !in t0.heap && node !in execTree.early
      requires execTree.endNode.covered && execTree.endNode.children == [execTree.endNode]
      requires forall n :: n in t0.heap && n != node ==> n.Rec() == Shown(t0.heap[n], n in execTree.early)
      modifies execTree`t
      ensures execTree.InSync() && execTree.t == t0.Recorded(node, node.Rec())
    {
      ghost var t' := t0.Recorded(node, node.Rec());
      assert t'.heap.Keys == t0.heap.Keys;
      forall n | n in t'.heap ensures n.Rec() == Shown(t'.heap[n], n in execTree.early) {
        assert n != node ==> t'.heap[n] == t0.heap[n];
      }
      execTree.t := t';
    }

    /** The submitted node goes to the thread exactly when the node takes it, and to none if the saved
        child was flagged early. */
    method OfferOne(node: ExecutionTree, a: Arrival, index: int,
                    ghost t0: Tree, ghost rec0: Record, ghost k: nat, ghost s: Script, ghost blocked: bool)
      returns (childIndex: int)
      requires Submitted(node, index, t0, rec0, k, s) && Offering(node, index, t0, rec0)
      requires KidsFlagged(rec0, index, execTree.early, blocked)
      requires blocked ==> rec0.children[index] in execTree.t.heap
      modifies node, execTree`t
      ensures childIndex != NO_INDEX <==> !blocked && t0.Takes(s, k, a)
      ensures if childIndex == NO_INDEX then Offering(node, index, t0, rec0)
              else Offered(node, childIndex, a.thread, index, t0, rec0)
    {
      hide Tree.TreeShape, Tree.StackShape, Tree.CoverageExact, Records, Tree.Valid, Tree.Open;
      if blocked {
        SavedThreadDone(node, index, t0, rec0, k, s);
      } else if a.thread < |s.next| {
        ThreadTells(node, a.thread, index, t0, rec0, k, s);
      }
      childIndex := EvalSelectThread(node, a.thread, a.accepted, index, t0, rec0);
    }

    /** Offer the submitted forall node to the arriving threads until one takes it: the first one
        whose branch may be taken, or none if the saved child was flagged early. */
    method OfferAll(select: ExecutionTree, arriving: seq<Arrival>, index: int,
                    ghost k: nat, ghost s: Script, ghost blocked: bool)
      returns (childIndex: int, at: nat)
      requires Submitted(select, index, execTree.t, select.Rec(), k, s)
      requires execTree.InSync() && select.lvar == NO_THREAD && select !in execTree.early
      requires KidsFlagged(select.Rec(), index, execTree.early, blocked)
      requires blocked ==> select.children[index] in execTree.t.heap
      requires EachArrives(|s.next|, arriving)
      modifies select, execTree`t
      ensures execTree.InSync() && execTree.t == old(execTree.t).Recorded(select, select.Rec())
      ensures Grows(old(select.Rec()), select.Rec())
      ensures childIndex == NO_INDEX <==> blocked
      ensures childIndex != NO_INDEX ==>
                && at < |arriving| && 0 <= childIndex < |select.children| == |select.idxToVar|
                && select.idxToVar[childIndex] == arriving[at].thread && (index != NO_INDEX ==> childIndex == index)
                && select.lvar == arriving[at].thread
                && old(execTree.t).Takes(s, k, arriving[at])
                && forall j :: 0 <= j < at ==> !old(execTree.t).Takes(s, k, arriving[j])
    {
      hide Tree.TreeShape, Tree.StackShape, Tree.CoverageExact, Records, Tree.Valid, Tree.Open;
      ghost var t0, rec0 := execTree.t, select.Rec();
      ghost var first := t0.FirstTaker(s, k, arriving);
      OfferingStarts(select, index, t0, k, s);
      at := 0;
      while at < |arriving|
        invariant at <= |arriving| && Offering(select, index, t0, rec0) && (!blocked ==> at <= first)
        decreases |arriving| - at
      {
        assert !blocked ==> (t0.Takes(s, k, arriving[at]) <==> at == first);
        var r := OfferOne(select, arriving[at], index, t0, rec0, k, s, blocked);
        if r != NO_INDEX {
          return r, at;
        }
        at := at + 1;
      }
      childIndex := NO_INDEX;
    }

    /** A forall over the threads of a scope: the node is submitted, and the first accepted thread
        whose branch is open, or else the saved one when it arrives, adds it to the path.  Right above
        a node that was flagged early no thread takes it, and the call of a flagged node fails a
        check. */
    method DSLForallThread(scopeSize: nat, arriving: seq<Arrival>, ghost s: Script)
      returns (reply: Reply, ghost added: ExecutionTree)
      requires Ready(s) && s.kind == Forall && |s.next| == scopeSize
      requires EachArrives(scopeSize, arriving)
      modifies execTree`nodeStack, execTree`stackIndex, execTree`t, execTree`early,
               execTree.t.heap.Keys
      ensures execTree.Valid() && Replies(old(execTree.t), execTree.t, old(execTree.stackIndex), execTree.stackIndex,
                                          old(execTree.early), execTree.early, reply)
      ensures execTree.t.heap.Keys == old(execTree.t.heap.Keys) + {added}
      ensures added in old(execTree.t.heap.Keys) || fresh(added)
      ensures !old(MeetsFlag()) ==>
                reply.Answer? && (old(execTree.stackIndex) == |old(execTree.t.path)| ==>
                  reply.answer == FirstUncovered(execTree.t.script, execTree.t.explored, old(execTree.t.path),
                                                 scopeSize, arriving))
      ensures old(MeetsFlag()) ==>
                reply == if old(execTree.stackIndex) + 1 == |old(execTree.t.path)| then Fails else NobodyTakes
    {
      hide Tree.TreeShape, Tree.StackShape, Tree.CoverageExact, Records;
      var select, index, existed := GetOrCreateNode(s, Forall, scopeSize);
      added := select;
      if select.covered {
        return Fails, select;
      }
      ClearVar(select, s);
      SubmittedNow(select, index, s);
      reply := TransferTo(select, arriving, index, s);
      assert reply.Answer? ==> CheckConsumed(select);
    }

    /** The program's check that the node was consumed as it should: it is the last one on the stack,
        and its variable is bound to the thread of its slot there. */
    ghost predicate CheckConsumed(select: ExecutionTree)
      reads execTree, select
    {
      && 1 <= execTree.stackIndex <= |execTree.nodeStack|
      && var last := execTree.nodeStack[execTree.stackIndex - 1];
         && last.parent == select && last.childIndex < |select.idxToVar|
         && select.lvar == select.idxToVar[last.childIndex]
    }

    method ClearVar(select: ExecutionTree, ghost s: Script)
      requires Ready(s)
      modifies select`lvar
      ensures Ready(s) && select.lvar == NO_THREAD && select.Rec() == old(select.Rec())
    {
      hide Tree.TreeShape, Tree.StackShape, Tree.CoverageExact;
      select.lvar := NO_THREAD;
      forall n | n in execTree.t.heap ensures n.Rec() == Shown(execTree.t.heap[n], n in execTree.early) {
        assert n.Rec() == old(n.Rec());
      }
    }

    lemma SubmittedNow(select: ExecutionTree, index: int, s: Script)
      requires Ready(s) && s.kind == Forall && execTree.t.MayFollow(select, select.Rec(), execTree.stackIndex)
      requires if execTree.stackIndex < |execTree.nodeStack|
               then 0 <= index < |select.children| == |select.idxToVar|
                    && execTree.nodeStack[execTree.stackIndex] == ChildLoc(select, index)
                    && select.idxToVar[index] == execTree.t.path[execTree.stackIndex]
               else index == NO_INDEX
      requires select in execTree.t.heap || execTree.stackIndex == |execTree.nodeStack|
      requires MeetsFlag() ==> execTree.stackIndex + 2 == |execTree.t.path|
      ensures Submitted(select, index, execTree.t, select.Rec(), execTree.stackIndex, s)
      ensures KidsFlagged(select.Rec(), index, execTree.early, MeetsFlag())
      ensures MeetsFlag() ==> select.children[index] in execTree.t.heap
    {
      hide Tree.TreeShape, Tree.StackShape, Tree.CoverageExact;
      execTree.t.FollowerFits(select, select.Rec(), execTree.stackIndex);
      if MeetsFlag() {
        EarlyKid(select, index);
        FlagKind();
      } else {
        NoEarlyKids(select);
      }
    }

    /** The node is submitted, and added to the path by the thread that takes it. */
    method TransferTo(select: ExecutionTree, arriving: seq<Arrival>, index: int, ghost s: Script) returns (reply: Reply)
      requires execTree.Valid() && execTree.t.Open() && 1 <= execTree.stackIndex && select.lvar == NO_THREAD
      requires select !in execTree.early
      requires Submitted(select, index, execTree.t, select.Rec(), execTree.stackIndex, s)
      requires KidsFlagged(select.Rec(), index, execTree.early, MeetsFlag())
      requires MeetsFlag() ==> select.children[index] in execTree.t.heap
      requires index != NO_INDEX ==> execTree.nodeStack[execTree.stackIndex] == ChildLoc(select, index)
      requires EachArrives(|s.next|, arriving)
      requires execTree.early != {} ==>
                 execTree.t.FlagAbove(execTree.early) && execTree.stackIndex + 1 < |execTree.t.path|
      modifies execTree`nodeStack, execTree`stackIndex, execTree`t, execTree`early, execTree.t.heap.Keys, select
      ensures execTree.Valid() && Replies(old(execTree.t), execTree.t, old(execTree.stackIndex), execTree.stackIndex,
                                          old(execTree.early), execTree.early, reply)
      ensures execTree.t.heap.Keys == old(execTree.t.heap.Keys) + {select}
      ensures old(MeetsFlag()) ==> reply.NobodyTakes?
      ensures reply.Answer? ==> CheckConsumed(select)
      ensures !old(MeetsFlag()) ==>
                reply.Answer? && (old(execTree.stackIndex) == |old(execTree.t.path)| ==>
                  reply.answer == FirstUncovered(execTree.t.script, execTree.t.explored, old(execTree.t.path),
                                                 |s.next|, arriving))
    {
      hide Tree.TreeShape, Tree.StackShape, Tree.CoverageExact, Records, Tree.Takes, Tree.Open, FirstUncovered, Covered,
           Tree.MayFollow, Grows;
      ghost var t0, rec0, k, blocked := execTree.t, select.Rec(), execTree.stackIndex, MeetsFlag();
      if execTree.early != {} { FlagKind(); }
      var childIndex, at := OfferAll(select, arriving, index, k, s, blocked);
      StillSubmitted(select, t0, rec0, select.Rec(), index, k, s);
      if childIndex == NO_INDEX {
        execTree.FlagIsAbove();
        BlockedAhead();
        return NobodyTakes;
      }
      if execTree.early != {} { execTree.FlagIsAbove(); }
      var v := arriving[at].thread;
      TakenFirst(t0, k, s, arriving, at);
      Take(select, childIndex, v);
      reply := Answer(v);
    }

    lemma BlockedAhead()
      requires execTree.Valid() && execTree.early != {} && execTree.t.FlagAbove(execTree.early)
      requires execTree.stackIndex < |execTree.t.path|
      ensures execTree.t.FlagsAhead(execTree.early, execTree.stackIndex)
    {
    }

    lemma StillSubmitted(select: ExecutionTree, t0: Tree, rec0: Record, rec: Record, index: int, k: nat, s: Script)
      requires Submitted(select, index, t0, rec0, k, s) && Grows(rec0, rec)
      ensures var t := t0.Recorded(select, rec);
              && t == t0.(heap := t.heap) && t.heap.Keys == t0.heap.Keys && 1 <= k <= |t0.path| == |t0.stack|
              && t.Valid() && t.Open() && t.MayFollow(select, rec, k)
      ensures index != NO_INDEX ==> select in t0.heap && k < |t0.path|
    {
      hide Tree.TreeShape, Tree.StackShape, Tree.CoverageExact;
      t0.RecordedValid(select, rec0, rec, k);
      if k < |t0.path| { t0.EntryAbove(k, 0); }
    }

    lemma TakenFirst(t0: Tree, k: nat, s: Script, arriving: seq<Arrival>, at: nat)
      requires s.Step? && 1 <= k <= |t0.path| && at < |arriving| && t0.Takes(s, k, arriving[at])
      requires forall j :: 0 <= j < at ==> !t0.Takes(s, k, arriving[j])
      ensures k == |t0.path| ==>
                && !Covered(t0.script, t0.explored, t0.path + [arriving[at].thread])
                && arriving[at].thread == FirstUncovered(t0.script, t0.explored, t0.path, |s.next|, arriving)
    {
      if k == |t0.path| {
        assert t0.path[..k] == t0.path;
        t0.FirstTaken(s, arriving, at);
      }
    }

    // -------------------------------------------------------------- runs

    /** One step of the script: the call that its shape asks for. */
    method Call(env: Env, run: nat, s: Script, p: Path) returns (reply: Reply, ghost added: ExecutionTree)
      requires ValidEnv(env) && execTree.t.script == env.script && Ready(s) && p == execTree.Position()
      requires !env.givesUp(run, p)
      modifies execTree`nodeStack, execTree`stackIndex, execTree`t, execTree`early,
               execTree.t.heap.Keys
      ensures execTree.Valid() && Replies(old(execTree.t), execTree.t, old(execTree.stackIndex), execTree.stackIndex,
                                          old(execTree.early), execTree.early, reply)
      ensures execTree.t.heap.Keys == old(execTree.t.heap.Keys) + {added}
      ensures added in old(execTree.t.heap.Keys) || fresh(added)
      ensures reply == ReplyAt(env, run, old(execTree.t.explored), old(execTree.t.path), old(execTree.early) != {}, p)
    {
      hide Tree.TreeShape, Tree.StackShape, Tree.CoverageExact, Tree.Valid, Tree.Open, Records, Tree.FlagAbove,
           OthersCovered;
      PositionFacts(env, p);
      assert AtForall(env.script, p) ==> EachArrives(|s.next|, env.arrivals(run, p));
      match s.kind
      case Star(nondet) =>
        reply, added := DSLChoice(nondet, env.coin(run, p), s);
      case Conditional(value) =>
        reply, added := DSLConditional(value, s);
      case Transition =>
        added := DSLTransition(s);
        reply := Answer(0);
      case Forall =>
        reply, added := DSLForallThread(|s.next|, env.arrivals(run, p), s);
    }

    lemma PositionFacts(env: Env, p: Path)
      requires ValidEnv(env) && execTree.Valid() && execTree.t.script == env.script
      requires IsPos(env.script, p) && 1 <= execTree.stackIndex && p == execTree.Position()
      ensures |execTree.t.path| == |execTree.nodeStack| && |p| == execTree.stackIndex
      ensures WellFormed(At(env.script, p)) && !IsRoot(At(env.script, p))
      ensures |p| == |execTree.t.path| ==> p == execTree.t.path
      ensures |p| < |execTree.t.path| && At(env.script, p).Step? && |At(env.script, p).next| == 1 ==>
                execTree.t.path[|p|] == 0
    {
      AtWellFormed(env.script, p);
      if |p| < |execTree.t.path| { PrefixIsPos(env.script, p, execTree.t.path); }
    }

    /** p is where the current run is, and it will stop where and why the reference run does. */
    ghost predicate Following(env: Env, run: nat, p0: Path, flagged: bool, p: Path)
      requires ValidEnv(env) && IsPos(env.script, p0)
      reads execTree, execTree.endNode, execTree.t.heap.Keys
    {
      && execTree.Valid() && execTree.t.Open() && execTree.t.script == env.script
      && execTree.stackIndex == |p| <= |execTree.t.path| && p == execTree.Position() && IsPos(env.script, p)
      && Follows(env, run, execTree.t, execTree.early, p0, flagged, p)
    }

    lemma FollowingStarts(env: Env, run: nat)
      requires ValidEnv(env) && execTree.Valid() && execTree.t.Open() && execTree.t.script == env.script
      requires execTree.stackIndex == 1 && (execTree.early != {} ==> execTree.t.FlagAbove(execTree.early))
      ensures IsPos(env.script, execTree.t.path) && IsPos(env.script, [0]) && [0] <= execTree.t.path
      ensures At(env.script, [0]) == env.script.next[0]
      ensures Following(env, run, execTree.t.path, execTree.early != {}, [0])
    {
      hide Tree.CoverageExact;
      execTree.t.FirstEntry();
      AtStep(env.script, [], 0);
      assert [] + [0] == [0] && [0][..0] == [];
    }

    /** The script may ask for what comes at p. */
    lemma FollowingReady(env: Env, run: nat, p0: Path, flagged: bool, p: Path)
      requires ValidEnv(env) && IsPos(env.script, p0) && IsPos(env.script, p)
      requires Following(env, run, p0, flagged, p) && At(env.script, p).Step?
      ensures execTree.t.script == env.script && execTree.stackIndex == |p| <= |execTree.t.path|
      ensures Ready(At(env.script, p)) && p == execTree.Position()
      ensures Follows(env, run, execTree.t, execTree.early, p0, flagged, p)
    {
    }

    /** The run has come to its end at p. */
    ghost predicate Halted(env: Env, run: nat, p0: Path, flagged: bool, p: Path, reason: Reason)
      requires ValidEnv(env) && IsPos(env.script, p0)
      reads execTree, execTree.endNode, execTree.t.heap.Keys
    {
      && execTree.Valid() && execTree.t.Open() && execTree.t.script == env.script
      && 1 <= execTree.stackIndex == |p| <= |execTree.t.path| && p == execTree.Position() && IsPos(env.script, p)
      && Halts(env, run, execTree.t, execTree.early, p0, flagged, p, reason)
    }

    /** One more step of the run, or its end if the call does not come back with an answer. */
    method Continue(env: Env, run: nat, s: Script, p: Path, ghost p0: Path, ghost flagged: bool)
      returns (reply: Reply, ghost added: ExecutionTree)
      requires ValidEnv(env) && IsPos(env.script, p0) && IsPos(env.script, p)
      requires Following(env, run, p0, flagged, p)
      requires s.Step? && At(env.script, p) == s && !env.givesUp(run, p)
      modifies execTree`nodeStack, execTree`stackIndex, execTree`t, execTree`early,
               execTree.t.heap.Keys
      ensures execTree.t.explored == old(execTree.t.explored) && execTree.t.made == old(execTree.t.made)
      ensures old(execTree.t.Lean()) ==> execTree.t.Lean()
      ensures execTree.t.heap.Keys == old(execTree.t.heap.Keys) + {added}
      ensures added in old(execTree.t.heap.Keys) || fresh(added)
      ensures reply.Answer? ==>
                && reply.answer < |s.next| && IsPos(env.script, p + [reply.answer])
                && At(env.script, p + [reply.answer]) == s.next[reply.answer]
                && Following(env, run, p0, flagged, p + [reply.answer])
      ensures !reply.Answer? ==> Halted(env, run, p0, flagged, p, WhyHalted(reply, env.allEnded(run, p)))
    {
      hide Following, Halted, Ready, ExecutionTreeManager.Valid, Tree.Valid, Tree.Open, Follows, Halts, Replies;
      FollowingReady(env, run, p0, flagged, p);
      ghost var t0, early0 := execTree.t, execTree.early;
      reply, added := Call(env, run, s, p);
      FollowOn(env, run, p0, flagged, p, t0, early0, reply);
    }

    lemma FollowOn(env: Env, run: nat, p0: Path, flagged: bool, p: Path, t0: Tree, early0: set<ExecutionTree>,
                   reply: Reply)
      requires ValidEnv(env) && IsPos(env.script, p0) && IsPos(env.script, p)
      requires At(env.script, p).Step? && !env.givesUp(run, p)
      requires t0.script == env.script && |p| <= |t0.path| && p == t0.path[..|p|]
      requires Follows(env, run, t0, early0, p0, flagged, p)
      requires reply == ReplyAt(env, run, t0.explored, t0.path, flagged, p)
      requires execTree.Valid()
      requires Replies(t0, execTree.t, |p|, execTree.stackIndex, early0, execTree.early, reply)
      ensures execTree.t.explored == t0.explored && execTree.t.made == t0.made && (t0.Lean() ==> execTree.t.Lean())
      ensures reply.Answer? ==>
                && reply.answer < |At(env.script, p).next| && IsPos(env.script, p + [reply.answer])
                && At(env.script, p + [reply.answer]) == At(env.script, p).next[reply.answer]
                && Following(env, run, p0, flagged, p + [reply.answer])
      ensures !reply.Answer? ==> Halted(env, run, p0, flagged, p, WhyHalted(reply, env.allEnded(run, p)))
    {
      hide ExecutionTreeManager.Valid, Tree.Valid, Tree.Open, Follows, Halts, ReplyAt;
      FollowPath(env, run, p0, flagged, p, t0, early0);
      SameReply(env, run, p0, flagged, p, t0, early0);
      if reply.Answer? {
        FollowAnswer(env, run, p0, flagged, p, t0, early0, execTree.t, reply.answer);
      } else {
        FollowEnd(env, run, p0, flagged, p, t0, early0, execTree.t, execTree.early, reply);
      }
    }

    /** One run of the test case.  It stops where and why the reference run does. */
    method RunTestCase(env: Env, run: nat) returns (reason: Reason)
      requires ValidEnv(env) && execTree.Valid() && execTree.t.Open() && execTree.t.script == env.script
      requires execTree.stackIndex == 1 && (execTree.early != {} ==> execTree.t.FlagAbove(execTree.early))
      modifies execTree`nodeStack, execTree`stackIndex, execTree`t, execTree`early,
               execTree.t.heap.Keys
      ensures IsPos(env.script, old(execTree.t.path))
      ensures execTree.t.explored == old(execTree.t.explored) && execTree.t.made == old(execTree.t.made)
      ensures 1 <= execTree.stackIndex <= |execTree.t.path| && (old(execTree.t.Lean()) ==> execTree.t.Lean())
      ensures Halted(env, run, old(execTree.t.path), old(execTree.early) != {}, execTree.Position(), reason)
      ensures old(execTree.t.heap.Keys) <= execTree.t.heap.Keys
      ensures forall n :: n in execTree.t.heap.Keys ==> n in old(execTree.t.heap.Keys) || fresh(n)
    {
      hide Following, Halted, Follows, Halts, Tree.Lean, ExecutionTreeManager.Valid, Tree.Valid, Tree.Open,
           Tree.FlagAbove;
      ghost var p0, flagged := execTree.t.path, execTree.early != {};
      FollowingStarts(env, run);
      var s, p := env.script.next[0], [0];
      while s.Step? && !env.givesUp(run, p)
        invariant IsPos(env.script, p) && At(env.script, p) == s && Following(env, run, p0, flagged, p)
        invariant execTree.t.explored == old(execTree.t.explored) && execTree.t.made == old(execTree.t.made)
        invariant old(execTree.t.Lean()) ==> execTree.t.Lean()
        invariant old(execTree.t.heap.Keys) <= execTree.t.heap.Keys
        invariant forall n :: n in execTree.t.heap.Keys ==> n in old(execTree.t.heap.Keys) || fresh(n)
        decreases s
      {
        var reply;
        ghost var added;
        reply, added := Continue(env, run, s, p, p0, flagged);
        if !reply.Answer? {
          reason := WhyHalted(reply, env.allEnded(run, p));
          HaltedAt(env, run, p0, flagged, p, reason);
          return;
        }
        s, p := s.next[reply.answer], p + [reply.answer];
      }
      reason := if s.Done? then Ended else GivenUp(env.allEnded(run, p));
      RunEnds(env, run, p0, flagged, p);
      HaltedAt(env, run, p0, flagged, p, reason);
    }

    lemma HaltedAt(env: Env, run: nat, p0: Path, flagged: bool, p: Path, reason: Reason)
      requires ValidEnv(env) && IsPos(env.script, p0) && Halted(env, run, p0, flagged, p, reason)
      ensures 1 <= execTree.stackIndex <= |execTree.t.path| && p == execTree.Position()
    {
    }

    lemma RunEnds(env: Env, run: nat, p0: Path, flagged: bool, p: Path)
      requires ValidEnv(env) && IsPos(env.script, p0) && IsPos(env.script, p)
      requires Following(env, run, p0, flagged, p) && (At(env.script, p).Done? || env.givesUp(run, p))
      ensures Halted(env, run, p0, flagged, p,
                     if At(env.script, p).Done? then Ended else GivenUp(env.allEnded(run, p)))
    {
      hide ExecutionTreeManager.Valid, Tree.Valid, Tree.Open;
      RunEnd(env, run, execTree.t.explored, p0, flagged, p);
      if |p| < |p0| { PrefixIsPos(env.script, p, p0); }
    }

    // -------------------------------------------------------------- the search

    /** Between runs the engine has what the reference search has: the same paths recorded, the
        same parts explored, the same answers to replay, and a flag set early on the same node. */
    ghost predicate InStep(env: Env, st: Search)
      requires ValidEnv(env)
      reads execTree, execTree.endNode, execTree.t.heap.Keys
    {
      execTree.Valid() && Matches(env, execTree.keepExecutionTree, execTree.t, execTree.early, st)
    }

    /** The last node on the path is a forall node exactly when the script says so. */
    lemma LastAsked()
      requires execTree.Valid() && 1 <= execTree.stackIndex
      ensures execTree.LastIsForall() <==> AtForall(execTree.t.script, execTree.t.path[..execTree.stackIndex - 1])
    {
      var k := execTree.stackIndex - 1;
      execTree.t.EntryPosition(k);
      var n := execTree.nodeStack[k].parent;
      execTree.NodeFields(n);
      execTree.t.ShapeOf(n);
      assert execTree.t.StandsFor(n);
    }

    /** What the stopped run would account for is what the reference run does. */
    lemma StoppedAsReference(env: Env, run: nat, p0: Path, flagged: bool, p: Path, reason: Reason)
      requires ValidEnv(env) && IsPos(env.script, p0)
      requires Halted(env, run, p0, flagged, p, reason) && !reason.CheckFails?
      ensures execTree.Valid() && execTree.t.Open() && execTree.t.script == env.script
      ensures 1 <= execTree.stackIndex <= |execTree.t.path| == |execTree.nodeStack| && p == execTree.Position()
      ensures execTree.t.FlagsAhead(execTree.early, execTree.stackIndex) && execTree.MayMark(reason == GivenUp(true))
      ensures var h, marks := Halt(p, reason), reason == GivenUp(true) && execTree.LastIsForall();
              && (marks <==> Marks(env, h))
              && (execTree.LastCloses() <==> Closes(env.script, execTree.t.explored, p0, flagged, p))
              && execTree.EndedPath() == EndOf(p0, p)
              && execTree.EndedAccount(reason == GivenUp(true)) == Account(env, execTree.t.explored, p0, flagged, h)
    {
      hide Tree.TreeShape, Tree.StackShape, Tree.CoverageExact, Covered, LeavesThrough;
      LastAsked();
      assert p[..|p| - 1] == execTree.t.path[..execTree.stackIndex - 1];
      assert |p| == |p0| ==> p == execTree.t.path;
      assert |p| > |p0| ==> !flagged;
    }

    /** What the run accounts for lies on its path. */
    lemma AccountOnPath(allEnded: bool)
      requires execTree.Valid() && 1 <= execTree.stackIndex <= |execTree.t.path|
      ensures execTree.EndedAccount(allEnded) <= execTree.EndedPath()
    {
      hide ExecutionTreeManager.Valid, ExecutionTreeManager.LastCloses;
    }

    /** Start the script again, follow it to its end, and backtrack.  The run fails exactly when the
        reference run does.  Nodes that are dropped are freed, each once. */
    method RunOnce(env: Env, run: nat, ghost st: Search) returns (failed: bool, more: bool)
      requires ValidEnv(env) && InStep(env, st) && run == |st.runs|
      requires !Covered(env.script, execTree.t.explored, []) && execTree.freed !! execTree.t.heap.Keys
      modifies execTree, execTree.t.heap.Keys, execTree.endNode
      ensures IsPos(env.script, st.saved) && (failed <==> NextHalt(env, st).reason.CheckFails?)
      ensures failed ==> execTree.t.made == old(execTree.t.made)
      ensures !failed ==>
                && InStep(env, Advance(env, execTree.keepExecutionTree, st))
                && (more <==> !Covered(env.script, execTree.t.explored, []))
                && (more <==> !execTree.root.covered)
                && (execTree.deleteCoveredSubtrees && old(execTree.t.Lean()) ==>
                      Trimmed(execTree.t, Advance(env, execTree.keepExecutionTree, st).accounts))
      ensures failed && old(execTree.t.Lean()) ==> execTree.t.Lean()
      ensures execTree.freed !! execTree.t.heap.Keys && old(execTree.freed) <= execTree.freed
      ensures old(execTree.t.heap.Keys) <= execTree.t.heap.Keys + execTree.freed
      ensures forall n :: n in execTree.t.heap.Keys ==> n in old(execTree.t.heap.Keys) || fresh(n)
    {
      hide Tree.TreeShape, Tree.StackShape, Tree.CoverageExact, Halted, Advance, RunFrom, Tree.FlagAbove, Records,
           Tree.FlagsAhead, Covered, Account, Trimmed, Tree.Lean;
      OneMoreRun(env, execTree.keepExecutionTree, st);
      execTree.Restart();
      assert execTree.t.path == st.saved by {
        if execTree.keepExecutionTree { assert execTree.t.path == execTree.t.path[..1]; }
      }
      var reason := RunTestCase(env, run);
      HaltIs(env, run, st.saved, st.flagged, execTree.Position(), reason);
      failed := reason.CheckFails?;
      if failed {
        return true, false;
      }
      more := FinishRun(env, run, st, reason);
    }

    /** The stopped run is ended, and what it accounts for is that of the reference run. */
    method FinishRun(env: Env, run: nat, ghost st: Search, reason: Reason) returns (more: bool)
      requires ValidEnv(env) && IsPos(env.script, st.saved) && [0] <= st.saved && run == |st.runs|
      requires execTree.stackIndex <= |execTree.t.path| && !reason.CheckFails?
      requires Halted(env, run, st.saved, st.flagged, execTree.Position(), reason)
      requires execTree.t.explored == Explored(env, st) && execTree.t.made == st.runs
      requires execTree.keepExecutionTree ==> st.saved == [0] && !st.flagged
      requires execTree.freed !! execTree.t.heap.Keys
      modifies execTree, execTree.t.heap.Keys, execTree.endNode
      ensures InStep(env, Advance(env, execTree.keepExecutionTree, st))
      ensures more <==> !Covered(env.script, execTree.t.explored, [])
      ensures more <==> !execTree.root.covered
      ensures execTree.deleteCoveredSubtrees && old(execTree.t.Lean()) ==>
                Trimmed(execTree.t, Advance(env, execTree.keepExecutionTree, st).accounts)
      ensures execTree.freed !! execTree.t.heap.Keys && old(execTree.freed) <= execTree.freed
      ensures old(execTree.t.heap.Keys) <= execTree.t.heap.Keys + execTree.freed
      ensures execTree.t.heap.Keys <= old(execTree.t.heap.Keys)
    {
      hide Tree.TreeShape, Tree.StackShape, Tree.CoverageExact, Halted, Advance, RunFrom, Tree.FlagAbove, Records,
           Tree.FlagsAhead, Covered, Account, Trimmed, Tree.Lean, Tree.Drops, Dropped;
      ghost var p := execTree.Position();
      OneMoreRun(env, execTree.keepExecutionTree, st);
      FlagStays(env, execTree.keepExecutionTree, st);
      HaltIs(env, run, st.saved, st.flagged, p, reason);
      StoppedAsReference(env, run, st.saved, st.flagged, p, reason);
      ghost var st' := Advance(env, execTree.keepExecutionTree, st);
      AccountOnPath(reason == GivenUp(true));
      ghost var t0, end, account := execTree.t, execTree.EndedPath(), execTree.EndedAccount(reason == GivenUp(true));
      more := execTree.EndWithSuccess(reason == GivenUp(true));
      if execTree.deleteCoveredSubtrees && t0.Lean() { TrimmedAfter(t0, execTree.t, end, account, st.accounts); }
      if more && !execTree.keepExecutionTree {
        execTree.t.FirstEntry();
      }
      assert execTree.t.explored == Explored(env, st');
      assert execTree.t.made == st'.runs;
      assert st'.flagged <==> execTree.early != {};
    }

    lemma HaltIs(env: Env, run: nat, p0: Path, flagged: bool, p: Path, reason: Reason)
      requires ValidEnv(env) && IsPos(env.script, p0) && Halted(env, run, p0, flagged, p, reason)
      ensures IsPos(env.script, [0]) && OnWay(p0, [0])
      ensures RunFrom(env, run, execTree.t.explored, p0, flagged, [0]) == Halt(p, reason)
    {
    }

    /** A new engine has what the reference search starts with. */
    lemma ExploreStarts(env: Env)
      requires ValidEnv(env) && execTree.Valid() && execTree.t.Open() && execTree.early == {}
      requires execTree.t.script == env.script && execTree.t.path == [0]
      requires execTree.t.explored == {} && execTree.t.made == []
      ensures var st := After(env, execTree.keepExecutionTree, 0);
              InStep(env, st) && Reached(env, execTree.keepExecutionTree, st, 0)
      ensures !Covered(env.script, execTree.t.explored, [])
    {
      hide Tree.TreeShape, Tree.StackShape, Tree.CoverageExact;
      NothingExplored(env.script, []);
    }

    /** What is known of the engine between runs. */
    lemma InStepTells(env: Env, st: Search)
      requires ValidEnv(env) && InStep(env, st)
      ensures execTree.Valid() && execTree.t.script == env.script
      ensures execTree.t.explored == Explored(env, st) && execTree.t.made == st.runs
    {
    }

    /** The exploration loop: it stops, with the root covered unless a check has failed, after the runs
        of the reference search, and the paths that the stack recorded are those of the reference
        search.  Whether covered subtrees are deleted makes no difference to them. */
    method Explore(env: Env) returns (runs: nat, failed: bool)
      requires ValidEnv(env) && execTree.Valid() && execTree.t.Open() && execTree.early == {}
      requires execTree.t.script == env.script && execTree.t.path == [0]
      requires execTree.t.explored == {} && execTree.t.made == []
      requires execTree.t.Lean() && execTree.freed !! execTree.t.heap.Keys
      modifies execTree, execTree.t.heap.Keys, execTree.endNode
      ensures runs <= |Leaves(env.script)|
      ensures execTree.freed !! execTree.t.heap.Keys && old(execTree.freed) <= execTree.freed
      ensures old(execTree.t.heap.Keys) <= execTree.t.heap.Keys + execTree.freed
      ensures execTree.deleteCoveredSubtrees ==>
                if failed then execTree.t.Lean()
                else Trimmed(execTree.t, After(env, execTree.keepExecutionTree, runs).accounts)
      ensures failed ==> FailsAfter(env, execTree.keepExecutionTree, runs)
      ensures !failed ==>
                && EndsAfter(env, execTree.keepExecutionTree, runs)
                && execTree.Valid() && execTree.root.covered && execTree.t.script == env.script
      ensures execTree.t.made == After(env, execTree.keepExecutionTree, runs).runs
    {
      hide InStep, Matches, Explored, Covered, ExecutionTreeManager.Valid, Tree.Open, Advance, NextHalt,
           FailsAfter, EndsAfter, ValidEnv, Reached, After, Tree.Lean, Trimmed;
      runs, failed := 0, false;
      ghost var st := After(env, execTree.keepExecutionTree, 0);
      ExploreStarts(env);
      var more := true;
      while more
        invariant InStep(env, st) && Reached(env, execTree.keepExecutionTree, st, runs)
        invariant more <==> !Covered(env.script, execTree.t.explored, [])
        invariant !more ==> execTree.root.covered
        invariant execTree.freed !! execTree.t.heap.Keys && old(execTree.freed) <= execTree.freed
        invariant old(execTree.t.heap.Keys) <= execTree.t.heap.Keys + execTree.freed
        invariant execTree.deleteCoveredSubtrees ==>
                    if more then execTree.t.Lean() else Trimmed(execTree.t, st.accounts)
        invariant forall n :: n in execTree.t.heap.Keys ==> n in old(execTree.t.heap.Keys) || fresh(n)
        decreases |Leaves(env.script)| - runs
      {
        InStepTells(env, st);
        ReachedIsAfter(env, execTree.keepExecutionTree, st, runs);
        ReachedStep(env, execTree.keepExecutionTree, st, runs);
        failed, more := RunOnce(env, runs, st);
        if failed {
          return;
        }
        runs, st := runs + 1, Advance(env, execTree.keepExecutionTree, st);
        InStepTells(env, st);
        if more && execTree.deleteCoveredSubtrees { TrimmedIsLean(execTree.t, st.accounts); }
      }
      InStepTells(env, st);
      ReachedIsAfter(env, execTree.keepExecutionTree, st, runs);
      ReachedStep(env, execTree.keepExecutionTree, st, runs);
    }
  }

  /** No covered node is kept: while anything is left every live node has something unexplored at or
      below it, and at the end the live nodes are on the way of what the last run accounted for. */
  ghost predicate Trimmed(t: Tree, accounts: seq<Path>) {
    if !Covered(t.script, t.explored, []) then t.Lean()
    else accounts != [] && forall n :: n in t.heap ==> n in t.pos && OnWay(t.pos[n], accounts[|accounts| - 1])
  }

  /** Said of the nodes themselves: while anything is left, no live node is flagged covered, except for those
      whose flag was set early, and a slot holds the end node exactly when its branch is covered. */
  lemma NoCoveredNodeIsKept(engine: ExecutionTreeManager, n: ExecutionTree, i: nat)
    requires engine.Valid() && engine.t.Lean() && n in engine.t.heap && i < |n.children|
    ensures n.covered ==> n in engine.early
    ensures n in engine.t.pos && i < |n.idxToVar|
    ensures n.children[i] == engine.endNode <==>
            Covered(engine.t.script, engine.t.explored, engine.t.pos[n] + [n.idxToVar[i]])
  {
    engine.NodeFields(n);
    engine.t.LeanMeans(n, i);
  }

  lemma TrimmedIsLean(t: Tree, accounts: seq<Path>)
    requires Trimmed(t, accounts) && !Covered(t.script, t.explored, [])
    ensures t.Lean()
  {
  }

  lemma TrimmedAfter(t0: Tree, t: Tree, p: Path, account: Path, accounts: seq<Path>)
    requires t0.Lean() && t.script == t0.script && account <= p
    requires t.explored == t0.explored + LeavesThrough(t.script, account)
    requires t.path == LowestUncovered(t.script, t.explored, p, |p|)
    requires t0.Drops(t, Dropped(p, t.path, !Covered(t.script, t.explored, [])))
    ensures Trimmed(t, accounts + [account])
  {
    if !Covered(t.script, t.explored, []) {
      ExploreThrough(t.script, t0.explored, account, p);
      assert |t.path| == |p| ==> t.path == p;
      t0.StaysLean(t, account, p);
    } else {
      forall n | n in t.heap ensures n in t.pos && OnWay(t.pos[n], account) {
        CoveredBelow(t.script, t.explored, [], t.pos[n]);
        t0.CoveredByRun(n, t.explored, account);
      }
    }
  }

  /** The tree and the search have the same runs, the same explored part, the same saved answers, and
      a flag set early on the same node. */
  ghost predicate Matches(env: Env, keepTree: bool, t: Tree, early: set<ExecutionTree>, st: Search)
    requires ValidEnv(env)
  {
    && t.script == env.script && t.explored == Explored(env, st) && t.made == st.runs
    && (!Covered(env.script, t.explored, []) ==>
          && t.Open() && IsPos(env.script, st.saved) && [0] <= st.saved
          && st.saved == (if keepTree then [0] else t.path)
          && (st.flagged <==> early != {}) && (keepTree ==> early == {})
          && (early != {} ==> t.FlagAbove(early)))
  }

  /** An engine in the given mode has recorded the runs of the reference search until it stops.  If no
      check has failed it has explored the whole script, and the search is over and exhaustive. */
  ghost predicate Explores(engine: ExecutionTreeManager, env: Env, deleteCoveredSubtrees: bool, keepTree: bool,
                           failed: bool)
    requires ValidEnv(env)
    reads engine, engine.root, engine.endNode, engine.t.heap.Keys
  {
    && engine.deleteCoveredSubtrees == deleteCoveredSubtrees && engine.keepExecutionTree == keepTree
    && var n := |engine.t.made|;
       && engine.t.made == After(env, keepTree, n).runs
       && (deleteCoveredSubtrees ==>
             if failed then engine.t.Lean() else Trimmed(engine.t, After(env, keepTree, n).accounts))
       && (failed ==> FailsAfter(env, keepTree, n))
       && (!failed ==>
             && engine.Valid() && engine.t.script == env.script && engine.root.covered
             && EndsAfter(env, keepTree, n) && Exhaustive(env, After(env, keepTree, n)))
  }

  /** A whole exploration with a new engine. */
  method ExploreAll(env: Env, deleteCoveredSubtrees: bool, keepTree: bool)
    returns (runs: nat, failed: bool, engine: ExecutionTreeManager)
    requires ValidEnv(env)
    ensures Explores(engine, env, deleteCoveredSubtrees, keepTree, failed) && |engine.t.made| == runs
    ensures runs <= |Leaves(env.script)|
  {
    engine := new ExecutionTreeManager(env.script, deleteCoveredSubtrees, keepTree);
    var scenario := new Scenario(engine);
    runs, failed := scenario.Explore(env);
    AfterInv(env, keepTree, runs);
    if !failed {
      SearchIsExhaustive(env, keepTree, runs, After(env, keepTree, runs));
    }
  }

  /** The engine that deletes covered subtrees makes the same runs, in the same order, as the one
      that keeps the whole tree, and fails a check exactly if the other one does. */
  method CuttingPreservesSearch(env: Env, keepTree: bool)
    returns (failed: bool, full: ExecutionTreeManager, cut: ExecutionTreeManager)
    requires ValidEnv(env)
    ensures Explores(full, env, false, keepTree, failed) && Explores(cut, env, true, keepTree, failed)
    ensures full.t.made == cut.t.made
  {
    hide Tree.TreeShape, Tree.StackShape, Tree.CoverageExact, Exhaustive;
    var fullRuns, cutRuns, cutFailed;
    fullRuns, failed, full := ExploreAll(env, false, keepTree);
    cutRuns, cutFailed, cut := ExploreAll(env, true, keepTree);
    StopsOnce(env, keepTree, fullRuns, cutRuns);
  }

  /** Replaying the saved stack makes the same runs, in the same order, as choosing again from the
      coverage flags, when the oracles do not change from run to run; and then no check fails. */
  method StackAndTreeReplay(env: Env, deleteCoveredSubtrees: bool)
    returns (stack: ExecutionTreeManager, tree: ExecutionTreeManager)
    requires ValidEnv(env) && SameEveryRun(env)
    ensures Explores(stack, env, deleteCoveredSubtrees, false, false)
    ensures Explores(tree, env, deleteCoveredSubtrees, true, false)
    ensures stack.t.made == tree.t.made
  {
    hide Tree.TreeShape, Tree.StackShape, Tree.CoverageExact, After, Exhaustive;
    var stackRuns, treeRuns, stackFailed, treeFailed;
    stackRuns, stackFailed, stack := ExploreAll(env, deleteCoveredSubtrees, false);
    treeRuns, treeFailed, tree := ExploreAll(env, deleteCoveredSubtrees, true);
    SteadyRunsNeverFail(env, false, stackRuns);
    SteadyRunsNeverFail(env, true, treeRuns);
    ModesEndTogether(env, stackRuns);
    StopsOnce(env, true, stackRuns, treeRuns);
  }
}
