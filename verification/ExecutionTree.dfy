/** The nodes of the execution tree.  A forall-thread node keeps two tables between thread
    variables and child indices; for every other node, and for the labels of positions, the
    tables are the identity on the child indices. */
module ExecutionTrees {
  import opened Scripts

  const NO_INDEX: int := -1
  const NO_THREAD: int := -1

  function NumChildren(kind: Kind): nat {
    match kind
    case Star(_) => 2
    case Forall => 0
    case _ => 1
  }

  datatype Record = Record(
    kind: Kind,
    scopeSize: nat,
    parent: ExecutionTree?,
    children: seq<ExecutionTree?>,
    covered: bool,
    idxToVar: seq<nat>,
    varToIdx: map<nat, nat>)
  {
    /** The two tables are inverse to each other and as long as the child list. */
    ghost predicate VarsOk() {
      && |idxToVar| == |children|
      && (forall i :: 0 <= i < |idxToVar| ==> idxToVar[i] in varToIdx && varToIdx[idxToVar[i]] == i)
      && (forall v :: v in varToIdx ==> varToIdx[v] < |idxToVar| && idxToVar[varToIdx[v]] == v)
    }
  }

  class ExecutionTree {
    const kind: Kind
    const scopeSize: nat
    var parent: ExecutionTree?
    var children: seq<ExecutionTree?>
    var covered: bool
    var idxToVar: seq<nat>
    var varToIdx: map<nat, nat>
    var lvar: int

    /** The node's contents as a value. */
    ghost function Rec(): Record
      reads this
    {
      Record(kind, scopeSize, parent, children, covered, idxToVar, varToIdx)
    }

    constructor (kind: Kind, scopeSize: nat)
      ensures this.kind == kind && this.scopeSize == scopeSize
      ensures parent == null && !covered && lvar == NO_THREAD
      ensures children == seq(NumChildren(kind), i => null)
      ensures idxToVar == seq(NumChildren(kind), i => i)
      ensures Rec().VarsOk()
    {
      this.kind, this.scopeSize := kind, scopeSize;
      parent, covered, lvar := null, false, NO_THREAD;
      children := seq(NumChildren(kind), i => null);
      idxToVar := seq(NumChildren(kind), i => i);
      varToIdx := match NumChildren(kind)
        case 0 => map[]
        case 1 => map[0 := 0]
        case _ => map[0 := 0, 1 := 1];
    }

    /** What the node's coverage is computed from: its immediate children only. */
    ghost predicate AllCovered()
      reads this, children
    {
      && (kind.Forall? ==> |children| == scopeSize)
      && forall i :: 0 <= i < |children| ==> children[i] != null && children[i].covered
    }

    method ChildCovered(i: nat) returns (r: bool)
      requires i < |children|
      ensures r == (children[i] != null && children[i].covered)
    {
      var c := children[i];
      r := c != null && c.covered;
    }

    /** A flag that is set is never recomputed, hence never cleared. */
    method ComputeCoverage() returns (r: bool)
      requires kind.Star? ==> |children| == 2
      modifies this`covered
      ensures covered == r == (old(covered) || old(AllCovered()))
    {
      if !covered {
        match kind
        case Star(_) =>
          var cov0 := ChildCovered(0);
          var cov1 := ChildCovered(1);
          covered := cov0 && cov1;
        case Forall =>
          var cov := BaseCoverage();
          covered := |children| == scopeSize && cov;
        case _ =>
          var cov := BaseCoverage();
          covered := cov;
      }
      r := covered;
    }

    /** A missing child means a branch that was not discovered yet. */
    method BaseCoverage() returns (cov: bool)
      ensures cov == forall i :: 0 <= i < |children| ==> children[i] != null && children[i].covered
    {
      cov := true;
      var i := 0;
      while i < |children|
        invariant 0 <= i <= |children|
        invariant cov && forall j :: 0 <= j < i ==> children[j] != null && children[j].covered
      {
        if children[i] == null || !children[i].covered {
          cov := false;
          return;
        }
        i := i + 1;
      }
    }

    method IndexOf(node: ExecutionTree?) returns (i: int)
      ensures i == NO_INDEX ==> node !in children
      ensures i != NO_INDEX ==> 0 <= i < |children| && children[i] == node && node !in children[..i]
    {
      i := 0;
      while i < |children|
        invariant 0 <= i <= |children|
        invariant node !in children[..i]
      {
        if children[i] == node {
          return;
        }
        i := i + 1;
      }
      i := NO_INDEX;
    }

    /** The tables after thread variable v has been looked up. */
    twostate predicate TablesGrow()
      reads this
    {
      && Rec().VarsOk()
      && old(idxToVar) <= idxToVar
      && children == old(children) + seq(|idxToVar| - |old(idxToVar)|, i => null)
      && parent == old(parent) && covered == old(covered)
    }

    method AddOrGetChildIndex(v: nat) returns (i: nat)
      requires Rec().VarsOk()
      modifies this`children, this`idxToVar, this`varToIdx
      ensures TablesGrow()
      ensures i < |children| && idxToVar[i] == v
      ensures v in old(varToIdx) ==> unchanged(this)
      ensures v !in old(varToIdx) ==> idxToVar == old(idxToVar) + [v]
    {
      if v in varToIdx {
        i := varToIdx[v];
      } else {
        i := |children|;
        varToIdx := varToIdx[v := i];
        children := children + [null];
        idxToVar := idxToVar + [v];
      }
    }

    /** The node has a covered branch for the thread. */
    ghost predicate BranchDone(thread: nat)
      reads this, children
    {
      && thread in varToIdx && varToIdx[thread] < |children|
      && var c := children[varToIdx[thread]];
      c != null && c.covered
    }

    /** ForallThreadNode: offer the node to an arriving thread.  canSelect is the value of the
        node's predicate for that thread.  A thread is selected only when it is in the scope,
        satisfies the predicate, is the saved one if there is a saved one, and its branch is not
        covered. */
    method CheckAndSelectThread(thread: nat, canSelect: bool, childIndexInStack: int) returns (childIndex: int)
      requires kind.Forall? && Rec().VarsOk() && lvar == NO_THREAD
      requires NO_INDEX <= childIndexInStack < |children|
      modifies this`children, this`idxToVar, this`varToIdx, this`lvar
      ensures TablesGrow()
      ensures idxToVar == old(idxToVar) || idxToVar == old(idxToVar) + [thread]
      ensures idxToVar != old(idxToVar) ==> thread < scopeSize
      ensures childIndex != NO_INDEX <==>
                && thread < scopeSize && canSelect
                && (childIndexInStack == NO_INDEX || old(idxToVar[childIndexInStack]) == thread)
                && !old(BranchDone(thread))
      ensures childIndex == NO_INDEX ==> lvar == NO_THREAD
      ensures childIndex != NO_INDEX ==>
                && 0 <= childIndex < |children| && idxToVar[childIndex] == thread && lvar == thread
                && (childIndexInStack == NO_INDEX || childIndex == childIndexInStack)
    {
      if thread >= scopeSize {
        return NO_INDEX;
      }
      if !canSelect {
        return NO_INDEX;
      }
      childIndex := AddOrGetChildIndex(thread);
      if childIndexInStack >= 0 && childIndexInStack != childIndex {
        return NO_INDEX;
      }
      var c := children[childIndex];
      if c != null && c.covered {
        return NO_INDEX;
      }
      lvar := thread;
    }
  }

  /** A child slot of a node. */
  datatype ChildLoc = ChildLoc(parent: ExecutionTree, childIndex: nat) {
    function Get(): ExecutionTree?
      requires childIndex < |parent.children|
      reads parent
    {
      parent.children[childIndex]
    }

    /** Fill the slot, and make the node point back to the slot's owner. */
    method Set(node: ExecutionTree?)
      requires childIndex < |parent.children|
      modifies parent`children, if node == null then {} else {node}`parent
      ensures node != parent ==>
                parent.Rec() == old(parent.Rec()).(children := old(parent.children)[childIndex := node])
      ensures node != null && node != parent ==> node.Rec() == old(node.Rec()).(parent := parent)
    {
      parent.children := parent.children[childIndex := node];
      if node != null {
        node.parent := parent;
      }
    }
  }
}
