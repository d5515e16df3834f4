/** The execution-tree manager: the node stack, and the operations that replay it, extend it, end
    it and backtrack.  What the program checks of an ended path and of the computed flags is asserted
    or proved here (CheckCompletePath, CheckPropagated); what it expects of callers is required. */
module Manager {
  import opened ExecutionTrees
  import opened Scripts
  import opened SearchSpec
  import opened TreeStates

  /** The nodes contain these records, except that the flags of some have been set early. */
  ghost predicate Records(heap: map<ExecutionTree, Record>, early: set<ExecutionTree>)
    reads heap.Keys
  {
    forall n :: n in heap ==> n.Rec() == Shown(heap[n], n in early)
  }

  ghost function Shown(rec: Record, early: bool): Record {
    if early then rec.(covered := true) else rec
  }

  class ExecutionTreeManager {
    const root: ExecutionTree
    const endNode: ExecutionTree
    const deleteCoveredSubtrees: bool
    const keepExecutionTree: bool
    var nodeStack: seq<ChildLoc>
    var stackIndex: nat
    ghost var t: Tree   // the contents of the live nodes and of the stack
    ghost var early: set<ExecutionTree>  // nodes that are flagged covered although t says that they are not yet
    ghost var freed: set<ExecutionTree>  // the nodes that were deleted

    /** The nodes and the stack contain what t says. */
    ghost predicate InSync()
      reads `nodeStack, `t, `early, endNode, t.heap.Keys
    {
      && t.root == root && t.endNode == endNode && t.stack == nodeStack
      && endNode !in t.heap && endNode.covered && endNode.children == [endNode]
      && Records(t.heap, early)
    }

    /** What holds whenever no operation is in progress. */
    ghost predicate Valid()
      reads `nodeStack, `stackIndex, `t, `early, endNode, t.heap.Keys
    {
      InSync() && t.Valid() && stackIndex <= |nodeStack|
    }

    /** The path has been ended, and the coverage flags on it are still to be computed. */
    ghost predicate Ended()
      reads `nodeStack, `stackIndex, `t, `early, endNode, t.heap.Keys
    {
      InSync() && t.PathEnded() && stackIndex == |nodeStack|
    }

    /** The answers given so far in this run. */
    ghost function Position(): Path
      requires stackIndex <= |t.path|
      reads `stackIndex, `t
    {
      t.path[..stackIndex]
    }

    /** Where the path ends if it is ended now: the next saved answer, if there is one, stays. */
    ghost function EndedPath(): Path
      requires stackIndex <= |t.path|
      reads `stackIndex, `t
    {
      if stackIndex < |t.path| then t.path[..stackIndex + 1] else t.path
    }

    /** The fields of a live node are those of its record, the flag aside if it was set early. */
    lemma NodeFields(n: ExecutionTree)
      requires InSync() && n in t.heap
      ensures n.kind == t.heap[n].kind && n.scopeSize == t.heap[n].scopeSize && n.parent == t.heap[n].parent
      ensures n.children == t.heap[n].children && n.idxToVar == t.heap[n].idxToVar && n.varToIdx == t.heap[n].varToIdx
      ensures n.covered == (t.heap[n].covered || n in early)
      ensures n !in early ==> n.Rec() == t.heap[n]
    {
      assert n.Rec() == Shown(t.heap[n], n in early);
    }

    constructor (ghost script: Script, deleteCoveredSubtrees: bool, keepExecutionTree: bool)
      requires WellFormed(script) && script.Step? && script.kind.Root?
      ensures Valid() && t.Open()
      ensures fresh(t.heap.Keys) && fresh(endNode)
      ensures t.script == script && t.explored == {} && t.pruned == {} && t.made == [] && t.path == [0] && early == {}
      ensures t.Lean() && freed == {}
      ensures this.deleteCoveredSubtrees == deleteCoveredSubtrees
      ensures this.keepExecutionTree == keepExecutionTree
    {
      hide Tree.TreeShape, Tree.StackShape, Tree.CoverageExact;
      var r := new ExecutionTree(Root, 0);
      var e := new ExecutionTree(End, 0);
      e.covered := true;
      e.children := [e];
      root, endNode := r, e;
      this.deleteCoveredSubtrees, this.keepExecutionTree := deleteCoveredSubtrees, keepExecutionTree;
      nodeStack, stackIndex := [ChildLoc(r, 0)], 0;
      t := Tree(script, r, e, map[r := r.Rec()], map[r := []], [ChildLoc(r, 0)], [0], {}, {}, []);
      early, freed := {}, {};
      assert r.children == [null] && r.idxToVar == [0];
      new;
      t.BareRoot();
      assert !Covered(script, {}, []) by { NothingExplored(script, []); }
    }

    /** The nodes and the stack contain what this tree says. */
    ghost method Adopt(t': Tree, early': set<ExecutionTree>)
      requires t'.root == root && t'.endNode == endNode && t'.stack == nodeStack
      requires endNode !in t'.heap && endNode.covered && endNode.children == [endNode]
      requires forall n :: n in t'.heap ==> n.Rec() == Shown(t'.heap[n], n in early')
      modifies `t, `early
      ensures InSync() && t == t' && early == early'
    {
      t, early := t', early';
    }

    method TruncateNodeStack(index: nat)
      requires index <= |nodeStack|
      modifies this`nodeStack, this`stackIndex
      ensures nodeStack == old(nodeStack)[..index] && stackIndex == index
    {
      nodeStack := nodeStack[..index];
      stackIndex := index;
    }

    /** Push an entry, or step over the same entry that is already there. */
    method AddToNodeStack(current: ChildLoc)
      requires stackIndex <= |nodeStack|
      requires stackIndex < |nodeStack| ==> nodeStack[stackIndex] == current
      modifies this`nodeStack, this`stackIndex
      ensures stackIndex == old(stackIndex) + 1 && stackIndex <= |nodeStack|
      ensures nodeStack == if old(stackIndex) == |old(nodeStack)| then old(nodeStack) + [current] else old(nodeStack)
    {
      if stackIndex == |nodeStack| {
        nodeStack := nodeStack + [current];
      }
      stackIndex := stackIndex + 1;
    }

    method GetLastNodeInStack() returns (loc: ChildLoc)
      requires 1 <= stackIndex <= |nodeStack|
      ensures loc == nodeStack[stackIndex - 1]
    {
      loc := nodeStack[stackIndex - 1];
    }

    /** The saved entry to replay, or else whatever hangs from the tip of the stack: an uncovered
        node that stands for the current position, or nothing at all. */
    method GetNextNodeInStack() returns (node: ExecutionTree?, index: int)
      requires Valid() && t.Open() && 1 <= stackIndex
      ensures stackIndex < |nodeStack| ==>
                node == nodeStack[stackIndex].parent && index == nodeStack[stackIndex].childIndex
      ensures stackIndex == |nodeStack| ==> index == NO_INDEX
      ensures t.EntryShape(stackIndex - 1) && node == nodeStack[stackIndex - 1].Get()
      ensures node != null ==>
                && node in t.heap && node in t.pos && t.pos[node] == Position() && node != endNode && node != root
                && t.StandsFor(node) && (node.covered <==> node in early) && !t.KidsCovered(node)
                && !Covered(t.script, t.explored, Position())
      ensures node == null ==> stackIndex == |nodeStack|
    {
      assert t.EntryShape(stackIndex - 1);
      if stackIndex < |nodeStack| {
        node, index := nodeStack[stackIndex].parent, nodeStack[stackIndex].childIndex;
        assert t.LinkShape(stackIndex - 1) && t.EntryShape(stackIndex);
      } else {
        node, index := nodeStack[|nodeStack| - 1].Get(), NO_INDEX;
      }
      t.NextIsOpen(stackIndex);
      if node != null { NodeFields(node); }
    }

    /** Begin a run: the root is on the path, and the saved answers are kept unless the engine
        is told to re-derive them from the tree. */
    method Restart()
      requires Valid() && t.Open()
      modifies this`nodeStack, this`stackIndex, this`t
      ensures Valid() && t.Open() && stackIndex == 1
      ensures t == if keepExecutionTree then old(t).Truncate(1) else old(t)
      ensures t.heap == old(t.heap) && (old(t.Lean()) ==> t.Lean())
      ensures t.path[..1] == [0]
    {
      hide Tree.TreeShape, Tree.StackShape, Tree.CoverageExact, Records;
      t.FirstEntry();
      if keepExecutionTree {
        nodeStack := [];
        nodeStack := nodeStack + [ChildLoc(root, 0)];
        t.TruncateShape(1);
        t := t.Truncate(1);
      }
      stackIndex := 0;
      assert InSync() && nodeStack[0] == ChildLoc(root, 0);
      AddToNodeStack(ChildLoc(root, 0));
    }

    /** The way from a slot of a stack node up to the root, by parent pointers: it is the stack,
        reversed.  From the end node's entry the walk finds the first slot that holds the end node,
        and this is the slot of the stack exactly when no earlier slot of that node holds it too. */
    method ComputePath(start: ChildLoc, ghost k: nat) returns (locs: seq<ChildLoc>)
      requires InSync() && t.TreeShape() && t.StackShape() && k < |nodeStack|
      requires k < |t.path| ==> start.parent == nodeStack[k].parent
      requires k == |t.path| >= 1 ==>
                 && start.parent == endNode && t.EntryShape(k - 1) && endNode.parent == nodeStack[k - 1].parent
                 && nodeStack[k - 1].Get() == endNode
      requires k <= |t.path| && |t.path| >= 1
      ensures |locs| == k + 1 && locs[0] == start
      ensures forall j :: 1 <= j <= k && (j > 1 || k < |t.path|) ==> locs[j] == nodeStack[k - j]
      ensures k == |t.path| ==>
                (locs[1] == nodeStack[k - 1] <==>
                 endNode !in nodeStack[k - 1].parent.children[..nodeStack[k - 1].childIndex])
    {
      locs := [];
      var loc := start;
      ghost var d := k;
      while true
        invariant 0 <= d <= k && |locs| == k - d
        invariant d < |t.path| ==> loc.parent == nodeStack[d].parent
        invariant d == |t.path| ==> loc == start
        invariant d < k ==> locs[0] == start && (d < k - 1 || k < |t.path| ==> loc == nodeStack[d])
        invariant d == k ==> loc == start
        invariant forall j :: 1 <= j < k - d && (j > 1 || k < |t.path|) ==> locs[j] == nodeStack[k - j]
        invariant k == |t.path| && d < k ==>
                    ((if d == k - 1 then loc else locs[1]) == nodeStack[k - 1] <==>
                     endNode !in nodeStack[k - 1].parent.children[..nodeStack[k - 1].childIndex])
        decreases d
      {
        locs := locs + [loc];
        var n := loc.parent;
        var p := n.parent;
        AboveFacts(d, n);
        if p == null {
          return;
        }
        var i := p.IndexOf(n);
        loc := ChildLoc(p, i);
        d := d - 1;
      }
    }

    lemma AboveFacts(d: nat, n: ExecutionTree)
      requires InSync() && t.TreeShape() && t.StackShape() && d <= |t.path| && 1 <= |t.path| <= |nodeStack|
      requires d < |t.path| ==> n == nodeStack[d].parent
      requires d == |t.path| ==>
                 && n == endNode && t.EntryShape(d - 1) && endNode.parent == nodeStack[d - 1].parent
                 && nodeStack[d - 1].Get() == endNode
      ensures n.parent == null <==> d == 0
      ensures d > 0 ==>
                && n.parent == nodeStack[d - 1].parent
                && nodeStack[d - 1].childIndex < |n.parent.children|
                && n.parent.children[nodeStack[d - 1].childIndex] == n
                && (d < |t.path| ==>
                      forall i :: 0 <= i < |n.parent.children| && n.parent.children[i] == n ==>
                        i == nodeStack[d - 1].childIndex)
    {
      if d == 0 {
        t.FirstEntry();
        assert t.EntryShape(0);
        NodeFields(n);
      } else if d < |t.path| {
        var p := nodeStack[d - 1].parent;
        t.EntryAbove(d, 0);
        NodeFields(n);
        NodeFields(p);
        forall i | 0 <= i < |p.children| && p.children[i] == n ensures i == nodeStack[d - 1].childIndex {
          t.EntryAbove(d, i);
        }
      }
    }

    // -------------------------------------------------------------- extending the path

    /** AddToPath for a node other than the end node, with the answer in slot childIndex.  The slot
        at the end of the path is empty, or holds that very node; a saved entry is only stepped
        over. */
    method AddNodeToPath(node: ExecutionTree, childIndex: nat, ghost answer: nat)
      requires Valid() && t.Open() && 1 <= stackIndex
      requires t.MayFollow(node, node.Rec(), stackIndex) && node !in early
      requires childIndex < |node.children| == |node.idxToVar| && node.idxToVar[childIndex] == answer
      requires stackIndex < |nodeStack| ==> nodeStack[stackIndex] == ChildLoc(node, childIndex)
      requires stackIndex == |nodeStack| ==> !Covered(t.script, t.explored, t.path + [answer])
      modifies this`nodeStack, this`stackIndex, this`t, this`early, t.heap.Keys, node`parent
      ensures Valid() && t.Open() && stackIndex == old(stackIndex) + 1 && early == old(early)
      ensures t.heap.Keys == old(t.heap.Keys) + {node}
      ensures old(t).OneMore(t, old(stackIndex), answer) && (old(t.Lean()) ==> t.Lean())
      ensures old(stackIndex < |nodeStack|) ==> nodeStack == old(nodeStack)
      ensures stackIndex <= |nodeStack| && nodeStack[stackIndex - 1] == ChildLoc(node, childIndex)
      ensures node.idxToVar == old(node.idxToVar) && node.lvar == old(node.lvar)
    {
      hide Tree.TreeShape, Tree.StackShape, Tree.CoverageExact, Records, Tree.OneMore, Tree.AddNode, Covered;
      t.AddNodeValid(node, node.Rec(), childIndex, stackIndex);
      t.AddNodeLean(node, node.Rec(), childIndex, stackIndex);
      t.FollowFacts(node, node.Rec(), childIndex, stackIndex);
      SetAndPush(node, childIndex);
    }

    method SetAndPush(node: ExecutionTree, childIndex: nat)
      requires InSync() && 1 <= stackIndex <= |nodeStack| == |t.path|
      requires t.EntryShape(stackIndex - 1) && nodeStack[stackIndex - 1].parent != node && node != endNode
      requires node !in early
      requires childIndex < |node.idxToVar|
      requires stackIndex < |nodeStack| ==> nodeStack[stackIndex] == ChildLoc(node, childIndex)
      modifies this`nodeStack, this`stackIndex, this`t, this`early, nodeStack[stackIndex - 1].parent`children,
               node`parent
      ensures InSync() && stackIndex == old(stackIndex) + 1 && stackIndex <= |nodeStack|
      ensures t == old(t.AddNode(node, node.Rec(), childIndex, stackIndex)) && early == old(early)
      ensures node.Rec() == old(node.Rec()).(parent := node.parent)
      ensures nodeStack[stackIndex - 1] == ChildLoc(node, childIndex)
      ensures old(stackIndex < |nodeStack|) ==> nodeStack == old(nodeStack)
    {
      hide Tree.AddNode, Records;
      ghost var t' := t.AddNode(node, node.Rec(), childIndex, stackIndex);
      t.AddNodeFields(node, node.Rec(), childIndex, stackIndex);
      LinkNode(node, childIndex);
      AddToNodeStack(ChildLoc(node, childIndex));
      Adopt(t', early);
    }

    /** The slot at the current position gets the node. */
    method LinkNode(node: ExecutionTree, ghost i: nat)
      requires InSync() && 1 <= stackIndex <= |nodeStack| == |t.path|
      requires t.EntryShape(stackIndex - 1) && nodeStack[stackIndex - 1].parent != node && node != endNode
      requires node !in early && i < |node.idxToVar|
      modifies nodeStack[stackIndex - 1].parent`children, node`parent
      ensures var t' := old(t.AddNode(node, node.Rec(), i, stackIndex));
              forall n :: n in t'.heap ==> n.Rec() == Shown(t'.heap[n], n in early)
      ensures node.Rec() == old(node.Rec()).(parent := node.parent)
    {
      var loc := GetLastNodeInStack();
      NodeFields(loc.parent);
      ghost var t' := t.AddNode(node, node.Rec(), i, stackIndex);
      loc.Set(node);
      forall n | n in t'.heap ensures n.Rec() == Shown(t'.heap[n], n in early) {
        assert n != loc.parent && n != node ==> n.Rec() == old(n.Rec());
      }
    }

    // -------------------------------------------------------------- ending the path

    /** The destructor of a node: delete every child that is neither missing nor the end node, and
        then the node itself.  Nothing is deleted twice, and what is deleted is exactly what lies
        at or below the node. */
    method Delete(n: ExecutionTree, ghost d: Tree)
      requires d.Deletable(n) && d.StandsFor(n) && d.endNode == endNode && freed !! d.Below(d.pos[n])
      requires forall m :: m in d.Below(d.pos[n]) ==> m.children == d.heap[m].children
      modifies this`freed
      ensures freed == old(freed) + d.Below(d.pos[n])
      decreases At(d.script, d.pos[n])
    {
      hide Tree.Deletable, Tree.BelowKids, Tree.SlotShape, Fits;
      var i := 0;
      d.AllKidsGone(n);
      while i < |n.children|
        invariant 0 <= i <= |n.children|
        invariant freed == old(freed) + d.BelowKids(n, i)
      {
        d.KidDeletable(n, i);
        var c := n.children[i];
        if c != null && c != endNode {
          d.KidSmaller(n, i);
          Delete(c, d);
        }
        i := i + 1;
      }
      freed := freed + {n};
    }

    /** AddToPath for the end node.  The path may be ended anywhere, also in the middle of a replay
        with deeper entries still saved; the next saved entry, if there is one, stays on the path
        and the end node goes below it. */
    method AddEndToPath()
      requires freed !! t.heap.Keys
      requires Valid() && t.Open() && 1 <= stackIndex
      modifies this`nodeStack, this`stackIndex, this`t, this`early, this`freed, t.heap.Keys, endNode
      ensures Ended() && endNode.parent == nodeStack[|nodeStack| - 2].parent
      ensures t == old(t.EndedAt(stackIndex)) && early == old(early)
      ensures freed == old(freed) + old(t).Below(t.path)
    {
      hide Tree.TreeShape, Tree.StackShape, Tree.CoverageExact, Tree.Below, Tree.EndTip, Tree.PathEnded, Records;
      EndIsAhead();
      KeepOneSavedEntry();
      DeleteLastNode();
      t.EndTipEnds();
      assert nodeStack[|nodeStack| - 1].parent in old(t.heap.Keys);
      SetEnd();
    }

    /** The nodes below the end of the path are the same before and after the saved entries are dropped. */
    lemma EndIsAhead()
      requires Valid() && t.Open() && 1 <= stackIndex
      ensures t.EndingAt(stackIndex).path == t.EndedAt(stackIndex).path
      ensures t.EndingAt(stackIndex).Below(t.EndedAt(stackIndex).path) == t.Below(t.EndedAt(stackIndex).path)
    {
    }

    lemma SavedEntryHangs()
      requires Valid() && t.Open() && 1 <= stackIndex
      ensures nodeStack[stackIndex - 1].childIndex < |nodeStack[stackIndex - 1].parent.children|
      ensures |nodeStack| == |t.path|
      ensures stackIndex < |nodeStack| ==> nodeStack[stackIndex - 1].Get() == nodeStack[stackIndex].parent
    {
      t.EntryPosition(stackIndex - 1);
      NodeFields(nodeStack[stackIndex - 1].parent);
      if stackIndex < |nodeStack| { t.EntryAbove(stackIndex, 0); }
    }

    /** Ending a replay early: all saved entries but the next one are dropped. */
    method KeepOneSavedEntry()
      requires Valid() && t.Open() && 1 <= stackIndex
      modifies this`nodeStack, this`stackIndex, this`t
      ensures Valid() && t.Open() && stackIndex == |nodeStack| >= 1
      ensures t == old(t.EndingAt(stackIndex))
    {
      hide Tree.TreeShape, Tree.StackShape, Tree.CoverageExact, Records;
      t.EndingAtValid(stackIndex);
      SavedEntryHangs();
      var loc := GetLastNodeInStack();
      if loc.Get() != null && stackIndex < |nodeStack| {
        TruncateNodeStack(stackIndex + 1);
        t := t.EndingAt(stackIndex - 1);
      }
    }

    /** The subtree that the end node replaces is deleted. */
    method DeleteLastNode()
      requires freed !! t.heap.Keys
      requires Valid() && t.Open() && stackIndex == |nodeStack| >= 1
      modifies this`freed
      ensures freed == old(freed) + t.Below(t.path)
    {
      var loc := GetLastNodeInStack();
      t.BelowTip();
      assert t.Tip() == loc;
      NodeFields(loc.parent);
      var lastNode := loc.Get();
      t.NextIsOpen(stackIndex);
      assert lastNode != endNode;
      if lastNode != null {
        assert t.StandsFor(lastNode);
        forall m | m in t.Below(t.path) ensures m.children == t.heap[m].children { NodeFields(m); }
        Delete(lastNode, t);
      }
    }

    method SetEnd()
      requires InSync() && t.heap.Keys == t.pos.Keys && t.CanEnd() && stackIndex == |nodeStack|
      modifies this`nodeStack, this`stackIndex, this`t, this`early, nodeStack[|nodeStack| - 1].parent`children,
               endNode`parent
      ensures InSync() && t == old(t.EndTip()) && early == old(early)
      ensures stackIndex == |nodeStack| && nodeStack == old(nodeStack) + [ChildLoc(endNode, 0)]
      ensures endNode.parent == nodeStack[|nodeStack| - 2].parent
    {
      hide Tree.EndTip, Tree.Collapse, Tree.TreeShape, Tree.StackShape, Tree.CoverageExact, Tree.Below, Records;
      t.EndTipFields();
      ghost var t' := t.EndTip();
      LinkEnd();
      AddToNodeStack(ChildLoc(endNode, 0));
      Adopt(t', early);
    }

    /** The slot at the tip gets the end node. */
    method LinkEnd()
      requires InSync() && t.heap.Keys == t.pos.Keys && t.CanEnd() && stackIndex == |nodeStack|
      modifies nodeStack[|nodeStack| - 1].parent`children, endNode`parent
      ensures forall n :: n in t.EndTip().heap ==> n.Rec() == Shown(t.EndTip().heap[n], n in early)
      ensures endNode.parent == nodeStack[|nodeStack| - 1].parent
      ensures endNode.covered && endNode.children == [endNode]
    {
      hide Tree.EndTip, Tree.Collapse, Tree.TreeShape, Tree.StackShape, Tree.CoverageExact, Tree.Below;
      t.EndTipFields();
      var loc := GetLastNodeInStack();
      NodeFields(loc.parent);
      loc.Set(endNode);
      forall n | n in t.EndTip().heap ensures n.Rec() == Shown(t.EndTip().heap[n], n in early) {
        assert n != loc.parent ==> n.Rec() == old(n.Rec());
      }
    }

    /** The program's check that the stack is a complete path. */
    predicate CheckCompletePath()
      reads this, nodeStack[0].parent, set i | 0 <= i < |nodeStack| :: nodeStack[i].parent
      requires |nodeStack| >= 2
    {
      var sz := |nodeStack|;
      && nodeStack[0].parent == root
      && nodeStack[sz - 1].childIndex < |nodeStack[sz - 1].parent.children|
      && nodeStack[sz - 2].childIndex < |nodeStack[sz - 2].parent.children|
      && nodeStack[sz - 1].Get() == endNode && nodeStack[sz - 1].parent == endNode
      && nodeStack[sz - 2].Get() == endNode && nodeStack[sz - 2].parent != endNode
    }

    lemma EndedIsComplete()
      requires Ended()
      ensures |nodeStack| >= 2 && CheckCompletePath()
    {
      t.FirstEntry();
      assert t.EntryShape(|t.path| - 1);
      NodeFields(nodeStack[|t.path| - 1].parent);
    }

    // -------------------------------------------------------------- backtracking

    /** The node's own view of its children is that of the tree, unless one of them was flagged early. */
    lemma KidsAgree(node: ExecutionTree)
      requires InSync() && t.TreeShape() && node in t.heap
      requires forall c :: c in node.children ==> c !in early
      ensures node.AllCovered() <==> t.KidsCovered(node)
      ensures node.kind.Star? ==> |node.children| == 2
    {
      NodeFields(node);
      t.KidsLive(node);
      t.StarHasTwo(node);
      forall c | c in node.children && c != null && c != endNode ensures c.covered == t.heap[c].covered {
        NodeFields(c);
      }
    }

    method ComputeAndRecord(node: ExecutionTree) returns (cov: bool)
      requires InSync() && node in t.heap && node !in early && (node.kind.Star? ==> |node.children| == 2)
      modifies this`t, node`covered
      ensures InSync() && t == old(t).SetCovered(node, cov)
      ensures cov == old(node.covered || node.AllCovered())
    {
      NodeFields(node);
      cov := node.ComputeCoverage();
      t := t.SetCovered(node, cov);
      forall n | n in t.heap ensures n.Rec() == Shown(t.heap[n], n in early) {
        assert n != node ==> n.Rec() == old(n.Rec());
      }
    }

    /** A call for a star or conditional recomputes the coverage of a node that is already there. */
    method Recompute(node: ExecutionTree) returns (cov: bool)
      requires Valid() && node in t.heap && !t.heap[node].covered && node !in early
      requires node.kind.Star? ==> |node.children| == 2
      modifies this`early, node`covered
      ensures Valid() && cov == old(node.AllCovered())
      ensures early == if cov then old(early) + {node} else old(early)
      ensures node.Rec() == old(node.Rec()).(covered := cov)
    {
      hide Tree.TreeShape, Tree.StackShape, Tree.CoverageExact;
      NodeFields(node);
      cov := node.ComputeCoverage();
      if cov {
        early := early + {node};
      }
      forall n | n in t.heap ensures n.Rec() == Shown(t.heap[n], n in early) {
        assert n != node ==> n.Rec() == old(n.Rec());
      }
    }

    /** Recompute the coverage of one node of the stack from its immediate children. */
    method ComputeCoverageAt(h: nat, ghost t0: Tree) returns (cov: bool)
      requires InSync() && t.PropagatedTo(h) && 1 <= h < |nodeStack| && t0.SameButFlags(t)
      requires nodeStack[h - 1].parent !in early
      requires forall c :: c in nodeStack[h - 1].parent.children ==> c !in early
      modifies this`t, t0.heap.Keys
      ensures InSync() && t0.SameButFlags(t)
      ensures cov == Covered(t.script, t.explored, t.path[..h - 1])
      ensures t.Propagating(if cov then h - 1 else h, cov)
    {
      t.PropagateStep(h);
      var node := nodeStack[h - 1].parent;
      KidsAgree(node);
      NodeFields(node);
      t0.SetCoveredSameButFlags(t, node, Covered(t.script, t.explored, t.path[..h - 1]));
      cov := ComputeAndRecord(node);
    }

    /** Neither the last node on the path nor its children were flagged early. */
    lemma LastIsNotEarly()
      requires InSync() && t.PathEnded() && (early != {} ==> t.OpenFlag(early))
      ensures nodeStack[|t.path| - 1].parent !in early
      ensures forall c :: c in nodeStack[|t.path| - 1].parent.children ==> c !in early
    {
      hide Tree.TreeShape, Tree.StackShape, Tree.CoverageExact, Tree.PathMarks, Records;
      var m := |t.path|;
      t.EntryPosition(m - 1);
      var n := nodeStack[m - 1].parent;
      NodeFields(n);
      if early != {} {
        t.EntryPosition(m - 2);
        var f := nodeStack[m - 2].parent;
        assert |t.pos[f]| == m - 2 && |t.pos[n]| == m - 1;
        forall c | c in n.children ensures c != f {
          t.KidsDeeper(n, c);
        }
      }
    }

    /** Propagate coverage up the path, from the end node, as far as it goes.  If a flag was set
        early then it stops right below that node, without looking at the flag. */
    method PropagateCoverage() returns (highestCovered: nat)
      requires Ended() && (early != {} ==> t.OpenFlag(early))
      modifies this`t, t.heap.Keys
      ensures InSync() && old(t).SameButFlags(t)
      ensures t.Propagated(highestCovered)
      ensures early != {} ==> highestCovered == |t.path|
    {
      hide Tree.TreeShape, Tree.StackShape, Tree.CoverageExact, Records;
      highestCovered := |nodeStack| - 1;
      t.PathEndedPropagated();
      ghost var t0 := t;
      LastIsNotEarly();
      var cov := true;
      while cov && highestCovered > 0
        invariant InSync() && t0.SameButFlags(t) && highestCovered < |nodeStack|
        invariant t.Propagating(highestCovered, cov)
        invariant early != {} ==> highestCovered == |t.path|
        invariant early != {} && cov ==>
                    && nodeStack[highestCovered - 1].parent !in early
                    && forall c :: c in nodeStack[highestCovered - 1].parent.children ==> c !in early
        decreases if cov then highestCovered else 0
      {
        cov := ComputeCoverageAt(highestCovered, t0);
        if cov {
          highestCovered := highestCovered - 1;
        }
      }
    }

    /** Replace the largest covered subtree on the path by the end node, and delete it. */
    method CutSubtree(h: nat)
      requires freed !! t.heap.Keys
      requires InSync() && |nodeStack| == |t.path| + 1 && t.Cuttable(h) && early == {}
      modifies this`t, this`freed, t.heap.Keys, endNode`parent
      ensures InSync() && t == old(t.Cut(h)) && freed == old(freed) + (old(t.heap.Keys) - t.heap.Keys)
    {
      hide Tree.Cuttable, Tree.Cut, Tree.Detached, Tree.Below, Tree.Deletable, Tree.StandsFor, Tree.EntryShape, Records;
      t.CutFrame(h);
      t.BelowIsLive(t.path[..h]);
      ghost var d, t' := t.Detached(), t.Cut(h);
      var subtreeRoot := Unlink(h);
      Delete(subtreeRoot, d);
      t := t';
    }

    /** Shortcut the slot of entry h-1 to the end node; the link from the subtree to the end node
        is removed so that deleting the subtree does not follow it. */
    method Unlink(h: nat) returns (subtreeRoot: ExecutionTree)
      requires InSync() && |nodeStack| == |t.path| + 1 && t.Cuttable(h) && early == {}
      modifies t.heap.Keys, endNode`parent
      ensures subtreeRoot == nodeStack[h].parent
      ensures endNode.covered == old(endNode.covered) && endNode.children == old(endNode.children)
      ensures forall n :: n in t.Below(t.path[..h]) ==> n.children == t.Detached().heap[n].children
      ensures Records(t.Cut(h).heap, {})
    {
      hide Tree.TreeShape, Tree.StackShape, Tree.CoverageExact, Tree.Deletable, Tree.StandsFor;
      var sz := |nodeStack|;
      var parentLoc, tipLoc := nodeStack[h - 1], nodeStack[sz - 2];
      assert parentLoc.parent.Rec() == t.heap[parentLoc.parent] && tipLoc.parent.Rec() == t.heap[tipLoc.parent];
      subtreeRoot := parentLoc.Get();
      parentLoc.Set(endNode);
      assert tipLoc.Get() == endNode;
      tipLoc.Set(null);
      forall n | n in t.heap && n != parentLoc.parent && n != tipLoc.parent ensures n.Rec() == t.heap[n] {
        assert n.Rec() == old(n.Rec());
      }
    }

    /** Cut the covered subtree below entry h-1 if the engine is told to (the end node alone is no
        subtree), and truncate the stack above that entry. */
    method CutAndTruncate(h: nat)
      requires freed !! t.heap.Keys
      requires InSync() && t.PathEnded() && h <= |t.path| && (h > 0 ==> t.EntryShape(h - 1))
      requires early != {} ==> h == |t.path|
      modifies this`nodeStack, this`stackIndex, this`t, this`freed, t.heap.Keys, endNode`parent
      ensures InSync() && stackIndex == |nodeStack| && freed == old(freed) + (old(t.heap.Keys) - t.heap.Keys)
      ensures t == old(t.Backtracked(h, deleteCoveredSubtrees && 1 <= h < |t.path|))
    {
      hide Tree.TreeShape, Tree.StackShape, Tree.CoverageExact, Records, Tree.Backtracked, Tree.Cut, Tree.Cuttable;
      ghost var cut := deleteCoveredSubtrees && 1 <= h < |t.path|;
      ghost var t' := t.Backtracked(h, cut);
      t.BacktrackedFields(h, cut);
      if deleteCoveredSubtrees && 1 <= h <= |nodeStack| - 2 {
        t.CutFacts(h);
        CutSubtree(h);
      }
      TruncateNodeStack(if h > 0 then h - 1 else 0);
      t := t';
    }

    /** The program's checks after the propagation: what is cut off is covered, the node above it is
        not, and only the root is never cut off. */
    lemma CheckPropagated(h: nat)
      requires InSync() && t.PathEnded() && t.Propagated(h) && (early != {} ==> h == |t.path| && t.OpenFlag(early))
      ensures h < |nodeStack| && nodeStack[h].parent.covered
      ensures h == 0 || !nodeStack[h - 1].parent.covered
      ensures h > 1 || root.covered
    {
      FlagsPropagated(h);
      t.FirstEntry();
      t.RootFlag();
      NodeFields(root);
      assert t.path[..0] == [];
      assert h != 1;
    }

    lemma FlagsPropagated(h: nat)
      requires InSync() && t.PathEnded() && t.Propagated(h) && (early != {} ==> h == |t.path| && t.OpenFlag(early))
      ensures h < |nodeStack| && nodeStack[h].parent.covered
      ensures h == 0 || !nodeStack[h - 1].parent.covered
    {
      hide Tree.TreeShape, Tree.StackShape, Tree.CoverageExact, Tree.OpenFlag, Records;
      if h < |t.path| {
        t.FlagOnPath(h);
        NodeFields(nodeStack[h].parent);
      }
      if h > 0 {
        LastIsNotEarly();
        t.FlagOnPath(h - 1);
        NodeFields(nodeStack[h - 1].parent);
      }
    }

    /** Backtrack: compute the coverage of the nodes on the finished path, cut the largest covered
        subtree, and keep the saved answers down to the lowest node that is not covered.  The
        result is false exactly when the root is covered.  A node that was flagged early becomes the
        last one on the saved path. */
    method DoBacktrack() returns (more: bool)
      requires freed !! t.heap.Keys
      requires Ended() && (early != {} ==> t.OpenFlag(early))
      modifies this`nodeStack, this`stackIndex, this`t, this`freed, t.heap.Keys, endNode`parent
      ensures Valid() && freed == old(freed) + (old(t.heap.Keys) - t.heap.Keys)
      ensures more <==> !Covered(t.script, t.explored, [])
      ensures more ==> t.Open()
      ensures root.covered <==> !more
      ensures old(t).BacktracksTo(t, deleteCoveredSubtrees)
      ensures early != {} ==> t.FlagAbove(early)
      ensures stackIndex == |nodeStack|
    {
      hide Tree.TreeShape, Tree.StackShape, Tree.CoverageExact, Records, Tree.OpenFlag, Tree.FlagAbove,
           Tree.Backtracked, Tree.Propagated, Tree.PropagatedTo, Tree.PathMarks, Tree.SameButFlags, LowestUncovered,
           Covered;
      EndedIsComplete();
      assert CheckCompletePath();
      ghost var t0 := t;
      var h := PropagateCoverage();
      Backtracking(t0, h, deleteCoveredSubtrees && 1 <= h < |t.path|);
      CheckPropagated(h);
      CutAndTruncate(h);
      RootIsNotEarly();
      more := !root.covered;
    }

    /** What the backtracking is about to do. */
    lemma Backtracking(t0: Tree, h: nat, cut: bool)
      requires InSync() && t0.PathEnded() && t0.SameButFlags(t) && t.Propagated(h)
      requires early != {} ==> t0.OpenFlag(early) && h == |t.path|
      requires cut == (deleteCoveredSubtrees && 1 <= h < |t.path|)
      ensures h <= |t.path| && (h > 0 ==> h >= 2 && t.EntryShape(h - 1)) && t.PathEnded()
      ensures t.heap.Keys == t0.heap.Keys && (early != {} ==> t.OpenFlag(early))
      ensures var t' := t.Backtracked(h, cut);
              && t'.Valid() && t0.BacktracksTo(t', deleteCoveredSubtrees) && (h > 0 ==> t'.Open())
              && (t'.heap[t'.root].covered <==> h == 0) && (h == 0 <==> Covered(t'.script, t'.explored, []))
              && (early != {} ==> t'.FlagAbove(early))
    {
      hide Tree.TreeShape, Tree.StackShape, Tree.CoverageExact, Records, Tree.OpenFlag, Tree.FlagAbove,
           Tree.Backtracked, Tree.PropagatedTo, Tree.PathMarks;
      t0.PathEndedKept(t, h);
      t0.Backtracks(t, h, deleteCoveredSubtrees, cut);
      if early != {} {
        t0.SameFlagOpen(t, early);
        t.FlagStaysOnTop(early);
      }
    }

    /** An early flag on top of the saved path stays there while the path is replayed below it. */
    lemma FlagIsAbove()
      requires Valid() && |nodeStack| >= 2 && early == {nodeStack[|nodeStack| - 1].parent}
      requires nodeStack[|nodeStack| - 1].parent.kind.Forall?
      ensures t.FlagAbove(early)
    {
      t.EntryPosition(|nodeStack| - 1);
      NodeFields(nodeStack[|nodeStack| - 1].parent);
    }

    lemma RootIsNotEarly()
      requires InSync() && t.Valid() && (early != {} ==> t.FlagAbove(early))
      ensures root in t.heap && root.Rec() == t.heap[root]
    {
      t.ShapeOf(root);
      assert t.StandsFor(root);
      NodeFields(root);
    }

    /** The last thing on the path is a forall-thread node. */
    predicate LastIsForall()
      requires 1 <= stackIndex <= |nodeStack|
      reads `nodeStack, `stackIndex, `t, nodeStack[stackIndex - 1].parent
    {
      nodeStack[stackIndex - 1].parent.kind.Forall?
    }

    /** What a run that is ended now accounts for if it marks nothing: what lies below the end of its
        path, or all of the node that was flagged early, if it is ended right there. */
    ghost function EndedBase(): Path
      requires stackIndex <= |t.path|
      reads `stackIndex, `t, `early
    {
      Base(t.path, early != {}, Position())
    }

    /** Nothing is left to explore in the branch that was taken last if the run is ended now. */
    ghost predicate LastCloses()
      requires stackIndex <= |t.path|
      reads `stackIndex, `t, `early
    {
      Closes(t.script, t.explored, t.path, early != {}, Position())
    }

    /** What the run accounts for if it is ended now: when all threads have ended, and nothing is left
        in the branch taken last, the whole of a last forall node. */
    ghost function EndedAccount(allEnded: bool): Path
      requires 1 <= stackIndex <= |t.path| && stackIndex <= |nodeStack|
      reads `nodeStack, `stackIndex, `t, `early, nodeStack[stackIndex - 1].parent
    {
      if allEnded && LastIsForall() && LastCloses() then t.path[..stackIndex - 1] else EndedBase()
    }

    /** A forall node is only marked if no early flag is left when the path is ended. */
    ghost predicate MayMark(allEnded: bool)
      requires 1 <= stackIndex <= |nodeStack|
      reads `nodeStack, `stackIndex, `t, `early, nodeStack[stackIndex - 1].parent
    {
      allEnded && LastIsForall() ==> early == {} || (stackIndex + 1 < |nodeStack| && t.FlagAbove(early))
    }

    /** If the flag of one node was set early, what the nodes contain is the tree with that flag set. */
    lemma FlagShown(f: ExecutionTree)
      requires InSync() && f in t.heap && early * t.heap.Keys == {f}
      ensures forall n :: n in t.SetCovered(f, true).heap ==> n.Rec() == Shown(t.SetCovered(f, true).heap[n], false)
    {
      forall n | n in t.heap ensures n.Rec() == Shown(t.SetCovered(f, true).heap[n], false) {
        assert n in early <==> n in early * t.heap.Keys;
      }
    }

    /** An early flag on the last node of the path, which was to be called next, gives up that node. */
    lemma AbsorbNext(t0: Tree, k: nat)
      requires InSync() && t0.Valid() && t0.Open() && 1 <= k && k + 1 == |t0.path| && t == t0.EndedAt(k)
      requires early != {} && t0.FlagsAhead(early, k)
      ensures t.CanMark(k) && t.Marked(k).stack == t.stack && t0.EndsTo(t.Marked(k), k, t0.path[..k])
      ensures t.Marked(k).root == root && t.Marked(k).endNode == endNode && endNode !in t.Marked(k).heap
      ensures forall n :: n in t.Marked(k).heap ==> n.Rec() == Shown(t.Marked(k).heap[n], false)
    {
      hide Tree.TreeShape, Tree.StackShape, Tree.CoverageExact, Tree.PathMarks, Tree.EndedAt, Tree.CanMark, Covered,
           Records;
      t0.EndingEnds(k);
      t0.EndedNode(k);
      assert t.path[..k + 1] == t.path && t.path[..k] == t0.path[..k];
      FlagShown(t.stack[k].parent);
      t0.EndingMarks(k, k);
      t0.MarkingEnds(t, k, k);
    }

    /** An early flag further down is deleted with its node; the node above it, if it took itself for
        covered, is covered by now. */
    lemma AbsorbAhead(t0: Tree, k: nat) returns (t': Tree)
      requires InSync() && t0.Valid() && t0.Open() && 1 <= k && k + 1 < |t0.path| && t == t0.EndedAt(k)
      requires early != {} && t0.FlagsAhead(early, k)
      ensures t'.stack == t.stack && t0.EndsTo(t', k, t.path) && (t0.FlagAbove(early) ==> t' == t)
      ensures t'.root == root && t'.endNode == endNode && endNode !in t'.heap
      ensures forall n :: n in t'.heap ==> n.Rec() == Shown(t'.heap[n], false)
    {
      hide Tree.TreeShape, Tree.StackShape, Tree.CoverageExact, Tree.PathMarks, Tree.EndedAt, Tree.CanMark, Covered;
      var f, n := t0.stack[|t0.path| - 1].parent, t.stack[|t.path| - 1].parent;
      t0.EndingEnds(k);
      t0.EndedNode(k);
      t0.FlagGone(k);
      t' := t;
      if early != {f} {
        t0.FlagClosed(early, f, k);
        t0.FlaggingEnds(t, k, t.path);
        FlagShown(n);
        t' := t.SetCovered(n, true);
      }
    }

    /** Flags that were set early and are still there when the path has been ended are right from now
        on: either the node is covered by then, or it is given up as a whole. */
    ghost method AbsorbFlags(t0: Tree, k: nat)
      requires InSync() && stackIndex == |nodeStack|
      requires t0.Valid() && t0.Open() && 1 <= k <= |t0.path| && t == t0.EndedAt(k) && t0.FlagsAhead(early, k)
      modifies `t, `early
      ensures Ended() && early == {} && t.stack == old(t.stack)
      ensures t0.EndsTo(t, k, Base(t0.path, old(early) != {}, t0.path[..k]))
      ensures old(early) == {} || (k + 1 < |t0.path| && t0.FlagAbove(old(early))) ==> t == old(t)
    {
      hide Tree.TreeShape, Tree.StackShape, Tree.CoverageExact, Tree.PathMarks, Tree.EndedAt, Tree.CanMark, Covered,
           Tree.FlagAbove, Records, Tree.Valid, Tree.Open, Tree.Marked, Tree.EntryShape;
      t0.EndingEnds(k);
      assert k == |t0.path| ==> t0.path[..k] == t0.path;
      if early == {} {
      } else if k + 1 == |t0.path| {
        AbsorbNext(t0, k);
        Adopt(t.Marked(k), {});
      } else {
        var t' := AbsorbAhead(t0, k);
        Adopt(t', {});
      }
    }

    /** The forall node in entry j of an ended path is flagged covered, because no thread is left to
        take its other branches.  The program does so before it adds the end node; adding the end
        node looks at no flag.  If the branch taken at the node is still open the flag is early. */
    method MarkCovered(select: ExecutionTree, ghost j: nat, ghost closes: bool)
      requires Ended() && early == {} && j < |t.path| && t.EntryShape(j) && select == nodeStack[j].parent
      requires closes ==> t.CanMark(j)
      modifies `t, `early, select`covered
      ensures Ended() && t == (if closes then old(t).Marked(j) else old(t))
      ensures early == if closes then {} else {select}
    {
      hide Tree.TreeShape, Tree.StackShape, Tree.CoverageExact;
      if closes { t.MarkedEnds(j); }
      ghost var t', early' := if closes then t.Marked(j) else t, if closes then {} else {select};
      NodeFields(select);
      select.covered := true;
      forall n | n in t'.heap ensures n.Rec() == Shown(t'.heap[n], n in early') {
        assert n != select ==> n.Rec() == old(n.Rec());
      }
      Adopt(t', early');
    }

    /** The end node is put on the path. */
    method EndUnmarked()
      requires freed !! t.heap.Keys
      requires Valid() && t.Open() && 1 <= stackIndex && t.FlagsAhead(early, stackIndex)
      modifies `nodeStack, `stackIndex, `t, `early, `freed, t.heap.Keys, endNode
      ensures freed == old(freed) + old(t.Below(EndedPath()))
      ensures Ended() && early == {} && old(t).EndsTo(t, old(stackIndex), old(EndedBase()))
      ensures old(early == {} || (stackIndex + 1 < |t.path| && t.FlagAbove(early))) ==>
                t == old(t).EndedAt(old(stackIndex))
    {
      hide Tree.TreeShape, Tree.StackShape, Tree.CoverageExact, Records, Tree.CanMark, Tree.EndsTo, Tree.FlagsAhead,
           Tree.EndedAt, Closes, Tree.PathMarks, Tree.FlagAbove, Tree.OpenFlag, Tree.Drops, Tree.Below;
      ghost var t0, k := t, stackIndex;
      AddEndToPath();
      AbsorbFlags(t0, k);
    }

    /** The end node is put on the path, and the marking is done if all threads have ended. */
    method EndPath(allEnded: bool)
      requires freed !! t.heap.Keys
      requires Valid() && t.Open() && 1 <= stackIndex && t.FlagsAhead(early, stackIndex) && MayMark(allEnded)
      modifies `nodeStack, `stackIndex, `t, `early, `freed, t.heap.Keys, endNode
      ensures freed == old(freed) + old(t.Below(EndedPath()))
      ensures Ended() && old(t).EndsTo(t, old(stackIndex), old(EndedAccount(allEnded)))
      ensures early != {} <==> allEnded && old(LastIsForall() && !LastCloses())
      ensures early != {} ==> t.OpenFlag(early)
    {
      hide Tree.TreeShape, Tree.StackShape, Tree.CoverageExact, Records, Tree.CanMark, Tree.EndsTo, Tree.FlagsAhead,
           Tree.EndedAt, Closes, Tree.PathMarks, Tree.FlagAbove, Tree.OpenFlag, Tree.Drops, Tree.Below, Tree.PathEnded;
      var last := GetLastNodeInStack();
      ghost var t0, k, flagged, closes := t, stackIndex, early != {}, LastCloses();
      t.EntryPosition(k - 1);
      EndUnmarked();
      if allEnded && last.parent.kind.Forall? {
        MarkLast(last.parent, t0, k, flagged, closes);
      }
    }

    method MarkLast(select: ExecutionTree, ghost t0: Tree, ghost k: nat, ghost flagged: bool, ghost closes: bool)
      requires Ended() && early == {} && t0.Valid() && t0.Open() && 1 <= k <= |t0.path| && t == t0.EndedAt(k)
      requires flagged ==> k + 1 < |t0.path|
      requires closes == Closes(t0.script, t0.explored, t0.path, flagged, t0.path[..k])
      requires t0.EntryShape(k - 1) && select == t0.stack[k - 1].parent && select.kind.Forall?
      modifies `t, `early, select`covered
      ensures Ended()
      ensures t0.EndsTo(t, k, if closes then t0.path[..k - 1] else Base(t0.path, flagged, t0.path[..k]))
      ensures early == if closes then {} else {select}
      ensures !closes ==> t.OpenFlag(early)
    {
      hide Tree.TreeShape, Tree.StackShape, Tree.CoverageExact, Records, Tree.CanMark, Tree.EndedAt, Tree.PathEnded;
      t0.EndingEnds(k);
      t0.SelectStays(k);
      NodeFields(select);
      if closes {
        t0.ClosedEnds(k, flagged);
        t0.EndingMarks(k, k - 1);
        t0.MarkingEnds(t, k, k - 1);
      } else {
        t0.OpenEnds(k, flagged);
      }
      MarkCovered(select, k - 1, closes);
    }

    /** End the run and choose where the next one starts.  What the run accounted for is added to
        what is explored, and the next run replays the answers above the lowest position that is
        left uncovered.  If all threads have ended, a last forall node is flagged; if something is
        left in the branch taken there then it stays on the stack with its flag. */
    method EndWithSuccess(allEnded: bool) returns (more: bool)
      requires freed !! t.heap.Keys
      requires Valid() && t.Open() && 1 <= stackIndex && t.FlagsAhead(early, stackIndex) && MayMark(allEnded)
      modifies this, t.heap.Keys, endNode
      ensures Valid() && stackIndex == |nodeStack|
      ensures t.script == old(t.script) && t.heap.Keys <= old(t.heap.Keys)
      ensures freed == old(freed) + (old(t.heap.Keys) - t.heap.Keys) && freed !! t.heap.Keys
      ensures old(t).Drops(t, Dropped(old(EndedPath()), t.path, deleteCoveredSubtrees && more))
      ensures t.made == old(t.made) + [old(EndedPath())]
      ensures t.explored == old(t.explored + LeavesThrough(t.script, EndedAccount(allEnded)))
      ensures t.pruned == old(t.pruned + if EndedAccount(allEnded) == EndedPath() then {} else {EndedAccount(allEnded)})
      ensures t.path == LowestUncovered(t.script, t.explored, old(EndedPath()), |old(EndedPath())|)
      ensures more <==> !Covered(t.script, t.explored, [])
      ensures more ==> t.Open()
      ensures root.covered <==> !more
      ensures early != {} <==> allEnded && old(LastIsForall() && !LastCloses())
      ensures early != {} ==> t.FlagAbove(early)
    {
      hide Tree.TreeShape, Tree.StackShape, Tree.CoverageExact, Records, Tree.Drops, Tree.Below, Tree.PathEnded,
           Tree.FlagAbove, Tree.OpenFlag, Tree.FlagsAhead, Dropped, LowestUncovered, Covered, LeavesThrough;
      ghost var t0, account, path := t, EndedAccount(allEnded), EndedPath();
      EndPath(allEnded);
      assert t.explored == t0.explored + LeavesThrough(t0.script, account);
      assert t.path == path && t.pruned == t0.pruned + if account == path then {} else {account};
      t0.DropsIsBelow(t, t.path);
      ghost var t1 := t;
      more := DoBacktrack();
      t0.DropsInAll(t1, t, deleteCoveredSubtrees);
    }
  }
}
