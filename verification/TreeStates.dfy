/** The execution tree and the node stack as one value: what their contents mean for the script,
    the invariants that tie them to the set of explored runs, and the lemmas about each way the
    engine changes them.

    All invariants are local: they speak of one node, one slot or one stack entry at a time.  The
    position of a node in the script identifies it, so a well-shaped heap is a tree. */
module TreeStates {
  import opened Counting
  import opened ExecutionTrees
  import opened Scripts
  import opened SearchSpec

  datatype Tree = Tree(
    script: Script,
    root: ExecutionTree,
    endNode: ExecutionTree,
    heap: map<ExecutionTree, Record>,   // the live nodes, the end node aside
    pos: map<ExecutionTree, Path>,      // where in the script a live node is
    stack: seq<ChildLoc>,
    path: Path,                         // the answers recorded by the stack
    explored: set<Path>,                // complete runs made or given up
    pruned: set<Path>,                  // forall nodes that were given up as a whole
    made: seq<Path>)                    // where the paths of the runs ended so far
  {
    // -------------------------------------------------------------- shape of the tree

    /** A live node stands for its position in the script. */
    ghost predicate StandsFor(n: ExecutionTree) {
      && n in heap && n in pos && IsPos(script, pos[n])
      && Fits(heap[n], At(script, pos[n]))
    }

    /** A slot is empty, or holds the shared end node, or holds a live node that points back and
        lies one answer deeper. */
    ghost predicate SlotShape(n: ExecutionTree, i: nat) {
      && n in heap && n in pos && i < |heap[n].children| && i < |heap[n].idxToVar|
      && var c := heap[n].children[i];
      c == null || c == endNode ||
      (c in heap && c in pos && c != root && heap[c].parent == n && pos[c] == pos[n] + [heap[n].idxToVar[i]])
    }

    ghost predicate SlotsShape(n: ExecutionTree) {
      n in heap &&
      forall i {:trigger SlotShape(n, i)} ::
        0 <= i < |heap[n].children| ==> SlotShape(n, i)
    }

    /** A live node other than the root occupies a slot of its live parent. */
    ghost predicate UpShape(n: ExecutionTree) {
      n in heap && var p := heap[n].parent;
      n != root ==> p != null && p in heap && n in heap[p].children
    }

    ghost predicate Shape(n: ExecutionTree) {
      StandsFor(n) && UpShape(n) && SlotsShape(n)
    }

    ghost predicate SamePosition(m: ExecutionTree, n: ExecutionTree) {
      m in heap && n in heap && m in pos && n in pos && pos[m] == pos[n]
    }

    /** No two live nodes have one position. */
    ghost predicate Distinct() {
      forall m, n {:trigger SamePosition(m, n)} :: m in heap && n in heap && SamePosition(m, n) ==> m == n
    }

    ghost predicate TreeShape() {
      && WellFormed(script) && script.Step? && script.kind.Root?
      && root in heap && endNode !in heap && root in pos && pos[root] == [] && heap[root].parent == null
      && heap.Keys == pos.Keys
      && Distinct()
      && (forall n {:trigger Shape(n)} :: n in heap ==> Shape(n))
    }

    // -------------------------------------------------------------- shape of the stack

    /** Entry k is the node reached by the first k answers, together with answer k. */
    ghost predicate EntryShape(k: nat) {
      && k < |stack| && k < |path|
      && var e := stack[k];
      && e.parent in heap && e.parent in pos && pos[e.parent] == path[..k]
      && e.childIndex < |heap[e.parent].children| && e.childIndex < |heap[e.parent].idxToVar|
      && heap[e.parent].idxToVar[e.childIndex] == path[k]
    }

    /** Consecutive entries are parent and child. */
    ghost predicate LinkShape(k: nat) {
      && k + 1 < |stack|
      && var e := stack[k];
      && e.parent in heap && e.childIndex < |heap[e.parent].children|
      && heap[e.parent].children[e.childIndex] == stack[k + 1].parent
    }

    ghost predicate StackShape() {
      && |path| <= |stack| && IsPos(script, path)
      && (forall k {:trigger EntryShape(k)} :: 0 <= k < |path| ==> EntryShape(k))
      && (forall k {:trigger LinkShape(k)} :: 0 <= k < |path| - 1 ==> LinkShape(k))
    }

    // -------------------------------------------------------------- coverage

    /** At or below a forall node that was given up as a whole: nothing goes there any more. */
    ghost predicate InPruned(p: Path) {
      exists r :: r in pruned && r <= p
    }

    ghost predicate BelowPruned(p: Path) {
      exists r :: r in pruned && r < p
    }

    /** An empty slot is undiscovered, unless the node was given up, and the end node stands for
        something fully explored. */
    ghost predicate SlotExact(n: ExecutionTree, i: nat) {
      && n in heap && n in pos && i < |heap[n].children| && i < |heap[n].idxToVar|
      && (heap[n].children[i] == null ==>
            InPruned(pos[n]) || Untouched(script, explored, pos[n] + [heap[n].idxToVar[i]]))
      && (heap[n].children[i] == endNode ==> Covered(script, explored, pos[n] + [heap[n].idxToVar[i]]))
    }

    /** The slots of a node are exact, and a thread variable without a slot is undiscovered. */
    ghost predicate SlotsExact(n: ExecutionTree) {
      && n in heap && n in pos
      && (forall i {:trigger SlotExact(n, i)} ::
            0 <= i < |heap[n].children| ==> SlotExact(n, i))
      && (forall v: nat :: v !in heap[n].idxToVar ==> InPruned(pos[n]) || Untouched(script, explored, pos[n] + [v]))
    }

    /** The flag of a node is exact, or the node is one of the first k of the stack and its flag
        still has to be computed, or it lies below a node that was given up. */
    ghost predicate FlagExact(n: ExecutionTree, k: nat) {
      && n in heap && n in pos
      && ((heap[n].covered <==> Covered(script, explored, pos[n])) ||
          (pos[n] < path && |pos[n]| < k && !heap[n].covered) ||
          BelowPruned(pos[n]))
    }

    ghost predicate CoverageExact(k: nat) {
      && (forall n {:trigger FlagExact(n, k)} :: n in heap ==> FlagExact(n, k))
      && (forall n {:trigger SlotsExact(n)} :: n in heap ==> SlotsExact(n))
      && (forall r :: r in pruned ==> Covered(script, explored, r))
    }

    /** What holds whenever no operation is in progress. */
    ghost predicate Valid() {
      TreeShape() && StackShape() && |stack| == |path| && CoverageExact(0)
    }

    /** What is not covered was not given up. */
    lemma NotPruned(p: Path, k: nat)
      requires CoverageExact(k) && !Covered(script, explored, p)
      ensures !InPruned(p) && !BelowPruned(p)
    {
      forall r | r in pruned && r <= p ensures false {
        CoveredBelow(script, explored, r, p);
      }
    }

    lemma BelowOne(p: Path, l: nat)
      ensures BelowPruned(p + [l]) ==> InPruned(p)
    {
      if r :| r in pruned && r < p + [l] {
        PrefixOfOneMore(r, p, l);
      }
    }

    /** The recorded answers lead to something that is not covered yet. */
    ghost predicate Open() {
      !Covered(script, explored, path) && |path| >= 1
    }

    // -------------------------------------------------------------- basic facts

    /** The slot that holds a node belongs to its parent, at the index of its last answer. */
    lemma OwnSlot(m: ExecutionTree) returns (p: ExecutionTree, i: nat)
      requires TreeShape() && m in heap && m != root
      ensures heap[m].parent == p && p in heap && p in pos && m in pos
      ensures i < |heap[p].children| && heap[p].children[i] == m
      ensures i < |heap[p].idxToVar| && pos[m] == pos[p] + [heap[p].idxToVar[i]]
    {
      assert Shape(m);
      p := heap[m].parent;
      i := IndexIn(heap[p].children, m);
      assert Shape(p);
      assert SlotShape(p, i);
    }

    lemma ShapeOf(n: ExecutionTree)
      requires TreeShape() && n in heap
      ensures Shape(n) && n in pos && heap[n].VarsOk() && |heap[n].children| == |heap[n].idxToVar|
      ensures endNode !in heap && root in heap
    {
      assert Shape(n) && StandsFor(n);
    }

    /** A live node whose position continues that of n hangs in n's slot for that answer. */
    lemma HangsFrom(m: ExecutionTree, n: ExecutionTree, i: nat)
      requires TreeShape() && m in heap && n in heap && m in pos && n in pos
      requires i < |heap[n].children| && i < |heap[n].idxToVar| && pos[m] == pos[n] + [heap[n].idxToVar[i]]
      ensures heap[n].children[i] == m
    {
      var p, j := OwnSlot(m);
      assert pos[p] == pos[m][..|pos[m]| - 1] == pos[n];
      assert SamePosition(p, n);
      assert Shape(n) && StandsFor(n);
    }

    /** The stack entries are distinct nodes, told apart by depth. */
    lemma EntryPosition(k: nat)
      requires StackShape() && k < |path|
      ensures EntryShape(k) && IsPos(script, path[..k + 1]) && path[..k] + [path[k]] == path[..k + 1]
    {
      assert EntryShape(k);
      PrefixIsPos(script, path[..k + 1], path);
    }

    lemma BareRoot()
      requires WellFormed(script) && script.Step? && script.kind.Root?
      requires root != endNode && heap.Keys == {root} && pos == map[root := []]
      requires heap[root].kind.Root? && heap[root].parent == null && !heap[root].covered && heap[root].VarsOk()
      requires heap[root].children == [null] && heap[root].idxToVar == [0]
      requires stack == [ChildLoc(root, 0)] && path == [0] && explored == {} && pruned == {}
      ensures Valid() && Open()
    {
      AtStep(script, [], 0);
      assert [] + [0] == [0];
      assert SlotShape(root, 0);
      assert Shape(root);
      NothingExplored(script, []);
      NothingExplored(script, [0]);
      assert SlotsExact(root);
      assert path[..0] == [];
      assert EntryShape(0);
    }

    /** The stack starts at the root. */
    lemma FirstEntry()
      requires TreeShape() && StackShape() && |path| >= 1
      ensures EntryShape(0) && stack[0] == ChildLoc(root, 0) && path[..1] == [0]
      ensures Covered(script, explored, path[..1]) <==> Covered(script, explored, [])
      ensures !Covered(script, explored, path) ==> !Covered(script, explored, path[..1])
    {
      assert EntryShape(0);
      assert SamePosition(stack[0].parent, root);
      assert Shape(root) && StandsFor(root);
      CoveredByKids(script, explored, []);
      assert [] + [0] == [0];
      CoveredBelow(script, explored, path[..1], path);
    }

    /** The parent pointer of a stack node, and the slot it is found in, are the previous entry. */
    lemma EntryAbove(k: nat, i: nat)
      requires TreeShape() && StackShape() && 1 <= k < |path|
      ensures EntryShape(k) && EntryShape(k - 1) && LinkShape(k - 1)
      ensures heap[stack[k].parent].parent == stack[k - 1].parent
      ensures var kids := heap[stack[k - 1].parent].children;
              i < |kids| && kids[i] == stack[k].parent ==> i == stack[k - 1].childIndex
    {
      SlotHolds(k - 1);
      assert LinkShape(k - 1) && EntryShape(k);
      var n, m := stack[k - 1].parent, stack[k].parent;
      assert Shape(n) && StandsFor(n);
      if i < |heap[n].children| && heap[n].children[i] == m {
        assert SlotShape(n, i);
        assert path[..k] == path[..k - 1] + [heap[n].idxToVar[i]];
      }
    }

    /** What a slot of the stack can hold. */
    lemma SlotHolds(k: nat)
      requires TreeShape() && StackShape() && k < |path|
      ensures EntryShape(k)
      ensures var c := heap[stack[k].parent].children[stack[k].childIndex];
              c == null || c == endNode ||
              (c in heap && c in pos && c != root && heap[c].parent == stack[k].parent && pos[c] == path[..k + 1])
    {
      EntryPosition(k);
      var n, i := stack[k].parent, stack[k].childIndex;
      assert Shape(n) && SlotShape(n, i);
    }

    /** The node at the current position is uncovered, by its flag and by its children. */
    lemma NextIsOpen(k: nat)
      requires Valid() && Open() && 1 <= k <= |path|
      ensures EntryShape(k - 1) && !Covered(script, explored, path[..k])
      ensures var c := heap[stack[k - 1].parent].children[stack[k - 1].childIndex];
              && c != endNode
              && (c != null ==>
                    && c in heap && c in pos && c != root && pos[c] == path[..k] && StandsFor(c)
                    && !heap[c].covered && !KidsCovered(c))
              && (c == null ==> k == |path|)
    {
      SlotHolds(k - 1);
      EntryPosition(k - 1);
      CoveredBelow(script, explored, path[..k], path);
      var n, i := stack[k - 1].parent, stack[k - 1].childIndex;
      assert SlotsExact(n) && SlotExact(n, i);
      var c := heap[n].children[i];
      if c != null && c != endNode {
        assert Shape(c);
        NotPruned(pos[c], 0);
        KidsTell(c, 0);
      }
      assert k < |path| ==> LinkShape(k - 1);
    }

    // -------------------------------------------------------------- hanging a new node

    /** A record that was just created for position p. */
    ghost predicate NewFor(rec: Record, p: Path) {
      && !rec.covered && IsPos(script, p) && Fits(rec, At(script, p))
      && (forall i :: 0 <= i < |rec.children| ==> rec.children[i] == null)
    }

    /** The tip of the stack: the slot below the recorded answers. */
    ghost function Tip(): ChildLoc
      requires |stack| >= 1
    {
      stack[|stack| - 1]
    }

    lemma TipFacts()
      requires TreeShape() && StackShape() && |stack| == |path| >= 1
      ensures var o, i := Tip().parent, Tip().childIndex;
              && o in heap && o in pos && i < |heap[o].children| && i < |heap[o].idxToVar|
              && pos[o] + [heap[o].idxToVar[i]] == path && pos[o] < path
              && heap[o].VarsOk()
    {
      EntryPosition(|path| - 1);
      assert path[..|path|] == path;
      assert Shape(Tip().parent) && StandsFor(Tip().parent);
    }

    ghost function Hang(node: ExecutionTree, rec: Record): Tree
      requires |stack| >= 1 && Tip().parent in heap && Tip().childIndex < |heap[Tip().parent].children|
    {
      var o, i := Tip().parent, Tip().childIndex;
      this.(heap := heap[o := heap[o].(children := heap[o].children[i := node])]
                        [node := rec.(parent := o)],
            pos := pos[node := path])
    }

    ghost predicate CanHang(node: ExecutionTree, rec: Record) {
      && TreeShape() && StackShape() && |stack| == |path| >= 1
      && node !in heap && node != endNode && NewFor(rec, path)
      && Tip().parent in heap && Tip().childIndex < |heap[Tip().parent].children|
      && heap[Tip().parent].children[Tip().childIndex] == null
    }

    lemma HangKeepsSlots(node: ExecutionTree, rec: Record, n: ExecutionTree)
      requires CanHang(node, rec) && n in heap
      ensures Hang(node, rec).SlotsShape(n)
    {
      hide Tree.TreeShape, Tree.StackShape, Fits;
      TipFacts();
      ShapeOf(n);
      var t := Hang(node, rec);
      forall j | 0 <= j < |t.heap[n].children| ensures t.SlotShape(n, j) {
        assert SlotShape(n, j);
      }
    }

    lemma HangKeepsShape(node: ExecutionTree, rec: Record, n: ExecutionTree)
      requires CanHang(node, rec) && n in heap
      ensures Hang(node, rec).Shape(n)
    {
      hide Tree.TreeShape, Tree.StackShape, Tree.SlotsShape;
      TipFacts();
      ShapeOf(n);
      HangKeepsSlots(node, rec, n);
      var t := Hang(node, rec);
      assert t.StandsFor(n);
      if n != root {
        var p, j := OwnSlot(n);
        assert t.heap[p].children[j] == n;
      }
    }

    lemma HangNewShape(node: ExecutionTree, rec: Record)
      requires CanHang(node, rec)
      ensures Hang(node, rec).Shape(node)
    {
      hide Tree.TreeShape, Tree.StackShape;
      TipFacts();
      ShapeOf(Tip().parent);
      var t := Hang(node, rec);
      assert t.heap[Tip().parent].children[Tip().childIndex] == node;
      assert t.StandsFor(node);
      forall j | 0 <= j < |t.heap[node].children| ensures t.SlotShape(node, j) {}
    }

    lemma HangShape(node: ExecutionTree, rec: Record)
      requires CanHang(node, rec)
      ensures Hang(node, rec).TreeShape()
    {
      hide Tree.StackShape, Tree.Shape;
      TipFacts();
      var o, i := Tip().parent, Tip().childIndex;
      var t := Hang(node, rec);
      forall m, n | m in t.heap && n in t.heap && t.SamePosition(m, n) ensures m == n {
        if m in heap && pos[m] == path { HangsFrom(m, o, i); }
        if n in heap && pos[n] == path { HangsFrom(n, o, i); }
        assert m != node && n != node ==> SamePosition(m, n);
      }
      forall n | n in t.heap ensures t.Shape(n) {
        if n == node {
          HangNewShape(node, rec);
        } else {
          HangKeepsShape(node, rec, n);
        }
      }
    }

    lemma HangStack(node: ExecutionTree, rec: Record)
      requires CanHang(node, rec)
      ensures Hang(node, rec).StackShape()
    {
      hide Tree.CoverageExact;
      TipFacts();
      var t := Hang(node, rec);
      forall k | 0 <= k < |path| ensures t.EntryShape(k) {
        assert EntryShape(k);
      }
      forall k | 0 <= k < |path| - 1 ensures t.LinkShape(k) {
        assert LinkShape(k) && EntryShape(k) && EntryShape(k + 1) && stack[k + 1].parent in heap;
      }
    }

    lemma HangCoverage(node: ExecutionTree, rec: Record)
      requires CanHang(node, rec) && CoverageExact(0) && !Covered(script, explored, path)
      ensures Hang(node, rec).CoverageExact(0)
    {
      hide Tree.TreeShape, Tree.StackShape;
      TipIsOpen();
      var t := Hang(node, rec);
      forall l: nat ensures Untouched(script, explored, path + [l]) {
        CoveredBelow(script, explored, path, path + [l]);
      }
      forall n | n in t.heap ensures t.FlagExact(n, 0) && t.SlotsExact(n) {
        if n != node {
          assert FlagExact(n, 0) && SlotsExact(n);
          forall j | 0 <= j < |t.heap[n].children| ensures t.SlotExact(n, j) {
            assert SlotExact(n, j);
          }
        }
      }
    }

    /** Nothing below an empty tip that is not covered was explored. */
    lemma TipIsOpen()
      requires TreeShape() && StackShape() && CoverageExact(0) && |stack| == |path| >= 1
      requires !Covered(script, explored, path)
      requires Tip().parent in heap && Tip().childIndex < |heap[Tip().parent].children|
      requires heap[Tip().parent].children[Tip().childIndex] == null
      ensures Tip().parent in pos && pos[Tip().parent] < path
      ensures Untouched(script, explored, path) && !InPruned(path) && !BelowPruned(path)
    {
      TipFacts();
      var o := Tip().parent;
      assert SlotsExact(o) && SlotExact(o, Tip().childIndex);
      NotPruned(path, 0);
    }

    lemma HangValid(node: ExecutionTree, rec: Record)
      requires Valid() && Open() && CanHang(node, rec)
      ensures Hang(node, rec).Valid() && !Covered(script, explored, path)
    {
      hide Tree.TreeShape, Tree.StackShape, Tree.CoverageExact;
      HangShape(node, rec);
      HangStack(node, rec);
      HangCoverage(node, rec);
    }

    // -------------------------------------------------------------- extending the path

    ghost function Push(n: ExecutionTree, i: nat): Tree
      requires n in heap && i < |heap[n].idxToVar|
    {
      this.(stack := stack + [ChildLoc(n, i)], path := path + [heap[n].idxToVar[i]])
    }

    lemma PushValid(n: ExecutionTree, i: nat)
      requires Valid() && |path| >= 1
      requires n in heap && n in pos && pos[n] == path && i < |heap[n].children| && i < |heap[n].idxToVar|
      requires Tip().parent in heap && Tip().childIndex < |heap[Tip().parent].children|
      requires heap[Tip().parent].children[Tip().childIndex] == n
      requires !Covered(script, explored, path + [heap[n].idxToVar[i]])
      ensures Push(n, i).Valid() && Push(n, i).Open()
    {
      var t := Push(n, i);
      assert Shape(n) && StandsFor(n);
      AtStep(script, path, heap[n].idxToVar[i]);
      forall k | 0 <= k < |t.path| ensures t.EntryShape(k) {
        if k < |path| {
          assert EntryShape(k);
          assert t.path[..k] == path[..k];
        } else {
          assert t.path[..k] == path;
        }
      }
      forall k | 0 <= k < |t.path| - 1 ensures t.LinkShape(k) {
        assert k < |path| - 1 ==> LinkShape(k);
      }
      TreeFrame(t);
      CoverageFrame(t);
    }

    /** The tree invariants do not depend on the stack. */
    lemma TreeFrame(t: Tree)
      requires TreeShape()
      requires t == this.(stack := t.stack, path := t.path, explored := t.explored, pruned := t.pruned, made := t.made)
      ensures t.TreeShape()
    {
      forall m, n | m in t.heap && n in t.heap && t.SamePosition(m, n) ensures m == n {
        assert SamePosition(m, n);
      }
      forall n | n in t.heap ensures t.Shape(n) {
        assert Shape(n);
        forall j | 0 <= j < |t.heap[n].children| ensures t.SlotShape(n, j) {
          assert SlotShape(n, j);
        }
      }
    }

    lemma CoverageFrame(t: Tree)
      requires CoverageExact(0) && t == this.(stack := t.stack, path := t.path)
      ensures t.CoverageExact(0)
    {
      forall n | n in t.heap ensures t.FlagExact(n, 0) && t.SlotsExact(n) {
        assert FlagExact(n, 0) && SlotsExact(n);
        forall j | 0 <= j < |t.heap[n].children| ensures t.SlotExact(n, j) {
          assert SlotExact(n, j);
        }
      }
    }

    /** The node may become the next one on the path after k answers: it already hangs there, or
        nothing hangs there and it is new. */
    ghost predicate MayFollow(node: ExecutionTree, rec: Record, k: nat) {
      && 1 <= k <= |path| && EntryShape(k - 1) && node != root && node != endNode
      && var c := heap[stack[k - 1].parent].children[stack[k - 1].childIndex];
      || (c == node && node in heap && rec == heap[node])
      || (c == null && node !in heap && NewFor(rec, path[..k]))
    }

    /** The tree and stack after the node was added to the path with answer i. */
    ghost function AddNode(node: ExecutionTree, rec: Record, i: nat, k: nat): Tree
      requires 1 <= k <= |path| && EntryShape(k - 1) && i < |rec.idxToVar|
    {
      var o, j := stack[k - 1].parent, stack[k - 1].childIndex;
      this.(heap := heap[o := heap[o].(children := heap[o].children[j := node])][node := rec.(parent := o)],
            pos := pos[node := path[..k]],
            stack := if k == |path| then stack + [ChildLoc(node, i)] else stack,
            path := if k == |path| then path + [rec.idxToVar[i]] else path)
    }

    lemma AddNodeFields(node: ExecutionTree, rec: Record, i: nat, k: nat)
      requires 1 <= k <= |path| && EntryShape(k - 1) && i < |rec.idxToVar| && node != stack[k - 1].parent
      ensures var t', loc := AddNode(node, rec, i, k), stack[k - 1];
              && t'.root == root && t'.endNode == endNode && t'.heap.Keys == heap.Keys + {node}
              && t'.stack == (if k == |path| then stack + [ChildLoc(node, i)] else stack)
              && t'.heap[node] == rec.(parent := loc.parent)
              && t'.heap[loc.parent] ==
                 heap[loc.parent].(children := heap[loc.parent].children[loc.childIndex := node])
              && forall n :: n in heap && n != loc.parent && n != node ==> t'.heap[n] == heap[n]
    {
    }

    lemma AddKnownNode(node: ExecutionTree, rec: Record, i: nat, k: nat)
      requires Valid() && Open() && MayFollow(node, rec, k) && node in heap && node in pos
      requires i < |rec.children| && i < |rec.idxToVar|
      requires heap[stack[k - 1].parent].children[stack[k - 1].childIndex] == node
      requires heap[node].parent == stack[k - 1].parent && pos[node] == path[..k]
      requires k == |path| ==> !Covered(script, explored, path + [rec.idxToVar[i]])
      ensures AddNode(node, rec, i, k).Valid() && AddNode(node, rec, i, k).Open()
    {
      hide Tree.TreeShape, Tree.StackShape, Tree.CoverageExact;
      var o, j := stack[k - 1].parent, stack[k - 1].childIndex;
      assert heap[o].children[j := node] == heap[o].children;
      assert heap[o := heap[o].(children := heap[o].children[j := node])] == heap;
      assert heap[node := rec.(parent := o)] == heap;
      assert pos[node := path[..k]] == pos;
      if k == |path| {
        assert path[..k] == path;
        PushValid(node, i);
        assert Push(node, i) == AddNode(node, rec, i, k);
      } else {
        assert this == AddNode(node, rec, i, k);
      }
    }

    lemma AddNewNode(node: ExecutionTree, rec: Record, i: nat, k: nat)
      requires Valid() && Open() && MayFollow(node, rec, k) && node !in heap && k == |path|
      requires i < |rec.children| && i < |rec.idxToVar|
      requires !Covered(script, explored, path + [rec.idxToVar[i]])
      ensures AddNode(node, rec, i, k).Valid() && AddNode(node, rec, i, k).Open()
    {
      hide Tree.TreeShape, Tree.StackShape, Tree.CoverageExact;
      assert path[..k] == path;
      TipFacts();
      HangValid(node, rec);
      var t := Hang(node, rec);
      assert t.Tip() == Tip();
      t.PushValid(node, i);
      assert t.Push(node, i) == AddNode(node, rec, i, k);
    }

    lemma AddNodeValid(node: ExecutionTree, rec: Record, i: nat, k: nat)
      requires Valid() && Open() && MayFollow(node, rec, k)
      requires i < |rec.children| && i < |rec.idxToVar|
      requires k == |path| ==> !Covered(script, explored, path + [rec.idxToVar[i]])
      ensures AddNode(node, rec, i, k).Valid() && AddNode(node, rec, i, k).Open()
      ensures stack[k - 1].parent != node
      ensures AddNode(node, rec, i, k).heap.Keys == heap.Keys + {node}
    {
      hide Tree.TreeShape, Tree.StackShape, Tree.CoverageExact;
      SlotHolds(k - 1);
      EntryPosition(k - 1);
      if k < |path| { EntryAbove(k, 0); }
      if node in heap {
        AddKnownNode(node, rec, i, k);
      } else {
        AddNewNode(node, rec, i, k);
      }
    }

    /** An empty slot on the path has nothing explored below it. */
    lemma EmptyIsUntouched(k: nat)
      requires Valid() && Open() && 1 <= k <= |path|
      ensures EntryShape(k - 1)
      ensures heap[stack[k - 1].parent].children[stack[k - 1].childIndex] == null ==>
                Untouched(script, explored, path[..k])
    {
      EntryPosition(k - 1);
      CoveredBelow(script, explored, path[..k - 1], path);
      NotPruned(path[..k - 1], 0);
      var o, j := stack[k - 1].parent, stack[k - 1].childIndex;
      assert SlotsExact(o) && SlotExact(o, j);
    }

    /** Whether the child in a slot of the next node is covered tells whether the branch is. */
    lemma BranchTells(node: ExecutionTree, rec: Record, k: nat, i: nat)
      requires Valid() && Open() && MayFollow(node, rec, k) && i < |rec.children|
      ensures IsPos(script, path[..k]) && Fits(rec, At(script, path[..k])) && i < |rec.idxToVar|
      ensures rec.children[i] != null ==> rec.children[i] == endNode || rec.children[i] in heap
      ensures (rec.children[i] != null && (rec.children[i] == endNode || heap[rec.children[i]].covered)) <==>
              Covered(script, explored, path[..k] + [rec.idxToVar[i]])
    {
      var p := path[..k];
      EntryPosition(k - 1);
      if node in heap {
        SlotHolds(k - 1);
        assert Shape(node) && StandsFor(node) && SlotShape(node, i);
        CoveredBelow(script, explored, p, path);
        NotPruned(p, 0);
        SlotTells(node, i, 0);
      } else {
        var o, j := stack[k - 1].parent, stack[k - 1].childIndex;
        EmptyIsUntouched(k);
        CoveredBelow(script, explored, p, p + [rec.idxToVar[i]]);
        AtStep(script, p, rec.idxToVar[i]);
        UntouchedNotCovered(script, explored, p + [rec.idxToVar[i]]);
      }
    }

    /** Whatever may follow was made for this point of the script. */
    lemma FollowerFits(node: ExecutionTree, rec: Record, k: nat)
      requires Valid() && Open() && MayFollow(node, rec, k)
      ensures IsPos(script, path[..k]) && Fits(rec, At(script, path[..k]))
    {
      EntryPosition(k - 1);
      if node in heap {
        SlotHolds(k - 1);
        assert Shape(node) && StandsFor(node);
      }
    }

    lemma FollowerPosition(node: ExecutionTree, rec: Record, k: nat)
      requires Valid() && Open() && MayFollow(node, rec, k)
      ensures node in heap ==> node in pos && pos[node] == path[..k] && rec == heap[node]
      ensures node !in heap ==> forall c :: c in rec.children ==> c == null
    {
      EntryPosition(k - 1);
      if node in heap { SlotHolds(k - 1); }
    }

    /** A thread variable of the scope that has no slot yet is not covered. */
    lemma UnknownThread(node: ExecutionTree, rec: Record, k: nat, v: nat)
      requires Valid() && Open() && MayFollow(node, rec, k)
      requires IsPos(script, path[..k]) && At(script, path[..k]).Step? && v < |At(script, path[..k]).next|
      requires v !in rec.idxToVar
      ensures !Covered(script, explored, path[..k] + [v])
    {
      EntryPosition(k - 1);
      AtStep(script, path[..k], v);
      if node in heap {
        SlotHolds(k - 1);
        assert Shape(node) && StandsFor(node) && SlotsExact(node);
        CoveredBelow(script, explored, path[..k], path);
        NotPruned(path[..k], 0);
      } else {
        EmptyIsUntouched(k);
        CoveredBelow(script, explored, path[..k], path[..k] + [v]);
      }
      UntouchedNotCovered(script, explored, path[..k] + [v]);
    }

    lemma FollowFacts(node: ExecutionTree, rec: Record, i: nat, k: nat)
      requires Valid() && Open() && MayFollow(node, rec, k) && i < |rec.children| == |rec.idxToVar|
      requires k < |stack| ==> stack[k] == ChildLoc(node, i)
      ensures var t := AddNode(node, rec, i, k);
              t.heap.Keys == heap.Keys + {node} && OneMore(t, k, rec.idxToVar[i])
      ensures stack[k - 1].parent in heap
    {
      if k < |path| {
        assert EntryShape(k);
        SlotHolds(k - 1);
        assert LinkShape(k - 1);
      }
    }

    /** t comes from this tree by one more answer l given at depth k. */
    ghost predicate OneMore(t: Tree, k: nat, l: nat) {
      && k <= |path| && t.script == script && t.explored == explored && t.made == made
      && t.path == (if k < |path| then path else path + [l]) && t.path[k] == l
      && heap.Keys <= t.heap.Keys
    }

    // -------------------------------------------------------------- growing a forall node

    ghost predicate Grown(n: ExecutionTree, rec: Record) {
      n in heap && Grows(heap[n], rec)
    }

    lemma GrownSlot(n: ExecutionTree, rec: Record, m: ExecutionTree, j: nat)
      requires TreeShape() && Grown(n, rec) && m in heap && j < |heap[n := rec][m].children|
      ensures this.(heap := heap[n := rec]).SlotShape(m, j)
    {
      assert Shape(m) && StandsFor(m);
      assert j < |heap[m].children| ==> SlotShape(m, j);
    }

    lemma GrownShape(n: ExecutionTree, rec: Record, m: ExecutionTree)
      requires TreeShape() && Grown(n, rec) && m in heap
      ensures this.(heap := heap[n := rec]).Shape(m)
    {
      var t := this.(heap := heap[n := rec]);
      assert Shape(n) && StandsFor(n) && Shape(m) && StandsFor(m);
      assert t.StandsFor(m);
      if m != root {
        var p, i := OwnSlot(m);
        assert t.heap[p].children[i] == m;
      }
      forall j | 0 <= j < |t.heap[m].children| ensures t.SlotShape(m, j) {
        GrownSlot(n, rec, m, j);
      }
    }

    lemma GrownTree(n: ExecutionTree, rec: Record)
      requires TreeShape() && Grown(n, rec)
      ensures this.(heap := heap[n := rec]).TreeShape()
    {
      var t := this.(heap := heap[n := rec]);
      forall m, m' | m in t.heap && m' in t.heap && t.SamePosition(m, m') ensures m == m' {
        assert SamePosition(m, m');
      }
      forall m | m in t.heap ensures t.Shape(m) {
        GrownShape(n, rec, m);
      }
      assert t.Shape(root);
    }

    lemma GrownCoverage(n: ExecutionTree, rec: Record)
      requires TreeShape() && CoverageExact(0) && Grown(n, rec)
      ensures this.(heap := heap[n := rec]).CoverageExact(0)
    {
      var t := this.(heap := heap[n := rec]);
      forall m | m in t.heap ensures t.FlagExact(m, 0) && t.SlotsExact(m) {
        assert FlagExact(m, 0) && SlotsExact(m) && Shape(m) && StandsFor(m);
        forall j | 0 <= j < |t.heap[m].children| ensures t.SlotExact(m, j) {
          if j < |heap[m].children| {
            assert SlotExact(m, j);
          } else {
            assert m == n && rec.idxToVar[j] !in heap[n].idxToVar;
          }
        }
      }
    }

    /** Whether the forall node after k answers takes the arriving thread: it is in the scope and
        accepted, it is the saved one if there is one, and its branch is not covered. */
    ghost predicate Takes(s: Script, k: nat, a: Arrival)
      requires s.Step? && k <= |path|
    {
      && a.thread < |s.next| && a.accepted
      && (k < |path| ==> path[k] == a.thread)
      && !Covered(script, explored, path[..k] + [a.thread])
    }

    lemma SomeThreadTaken(s: Script, k: nat, arriving: seq<Arrival>) returns (last: nat)
      requires Valid() && Open() && k <= |path| && IsPos(script, path[..k]) && At(script, path[..k]) == s && s.Step?
      requires EachArrives(|s.next|, arriving)
      ensures last < |arriving| && Takes(s, k, arriving[last])
    {
      if k < |path| {
        EntryPosition(k);
        PrefixIsPos(script, path[..k], path);
        CoveredBelow(script, explored, path[..k + 1], path);
        assert Arrival(path[k], true) in arriving;
        last := IndexIn(arriving, Arrival(path[k], true));
      } else {
        assert path[..k] == path;
        CoveredByKids(script, explored, path);
        var v: nat :| v < |s.next| && !Covered(script, explored, path + [v]);
        assert Arrival(v, true) in arriving;
        last := IndexIn(arriving, Arrival(v, true));
      }
    }

    /** The first thread to arrive among those that the node takes. */
    lemma FirstTaker(s: Script, k: nat, arriving: seq<Arrival>) returns (first: nat)
      requires Valid() && Open() && k <= |path| && IsPos(script, path[..k]) && At(script, path[..k]) == s && s.Step?
      requires EachArrives(|s.next|, arriving)
      ensures first < |arriving| && Takes(s, k, arriving[first])
      ensures forall j :: 0 <= j < first ==> !Takes(s, k, arriving[j])
    {
      var last := SomeThreadTaken(s, k, arriving);
      first := 0;
      while !Takes(s, k, arriving[first])
        invariant first <= last
        invariant forall j :: 0 <= j < first ==> !Takes(s, k, arriving[j])
        decreases last - first
      {
        first := first + 1;
      }
    }

    lemma {:induction false} FirstTaken(s: Script, arriving: seq<Arrival>, i: nat)
      requires s.Step? && i < |arriving| && Takes(s, |path|, arriving[i])
      requires forall j :: 0 <= j < i ==> !Takes(s, |path|, arriving[j])
      ensures arriving[i].thread == FirstUncovered(script, explored, path, |s.next|, arriving)
    {
      assert path[..|path|] == path;
      if i > 0 {
        assert !Takes(s, |path|, arriving[0]);
        FirstTaken(s, arriving[1..], i - 1);
      }
    }

    /** While the node is being offered its record only gains slots: a thread whose slot has a
        covered child, and only such a thread of the scope, is covered. */
    lemma OfferTells(node: ExecutionTree, rec: Record, rec': Record, k: nat, thread: nat)
      requires Valid() && Open() && MayFollow(node, rec, k) && Grows(rec, rec') && thread < rec.scopeSize
      ensures thread in rec'.varToIdx && rec'.varToIdx[thread] < |rec'.children| ==>
                var c := rec'.children[rec'.varToIdx[thread]]; c == null || c == endNode || c in heap
      ensures (thread in rec'.varToIdx && rec'.varToIdx[thread] < |rec'.children| &&
                var c := rec'.children[rec'.varToIdx[thread]];
                c != null && (c == endNode || Recorded(node, rec').heap[c].covered)) <==>
              Covered(script, explored, path[..k] + [thread])
    {
      RecordedValid(node, rec, rec', k);
      var t := Recorded(node, rec');
      if thread in rec'.varToIdx {
        t.BranchTells(node, rec', k, rec'.varToIdx[thread]);
      } else {
        assert thread !in rec'.idxToVar;
        t.UnknownThread(node, rec', k, thread);
      }
    }

    /** The tree after an offer left the node with this record. */
    ghost function Recorded(node: ExecutionTree, rec: Record): Tree {
      if node in heap then this.(heap := heap[node := rec]) else this
    }

    lemma RecordedValid(node: ExecutionTree, rec: Record, rec': Record, k: nat)
      requires Valid() && Open() && MayFollow(node, rec, k) && Grows(rec, rec')
      ensures var t := Recorded(node, rec');
              && t.Valid() && t.Open() && t.MayFollow(node, rec', k)
              && IsPos(script, path[..k]) && Fits(rec', At(script, path[..k]))
    {
      EntryPosition(k - 1);
      if node in heap {
        GrownValid(node, rec');
        SlotHolds(k - 1);
        var t := Recorded(node, rec');
        assert t.EntryShape(k - 1);
        assert Shape(node) && StandsFor(node);
      }
    }

    lemma GrownValid(n: ExecutionTree, rec: Record)
      requires Valid() && Grown(n, rec)
      ensures this.(heap := heap[n := rec]).Valid()
    {
      var t := this.(heap := heap[n := rec]);
      GrownTree(n, rec);
      GrownCoverage(n, rec);
      assert Shape(n) && StandsFor(n);
      forall k | 0 <= k < |path| ensures t.EntryShape(k) {
        assert EntryShape(k);
      }
      forall k | 0 <= k < |path| - 1 ensures t.LinkShape(k) {
        assert LinkShape(k);
      }
    }

    // -------------------------------------------------------------- shortening the path

    ghost function Truncate(k: nat): Tree
      requires k <= |stack| && k <= |path|
    {
      this.(stack := stack[..k], path := path[..k])
    }

    lemma TruncateShape(k: nat)
      requires TreeShape() && StackShape() && k <= |path|
      ensures Truncate(k).TreeShape() && Truncate(k).StackShape()
      ensures CoverageExact(0) ==> Truncate(k).CoverageExact(0)
    {
      var t := Truncate(k);
      TreeFrame(t);
      PrefixIsPos(script, path[..k], path);
      forall j | 0 <= j < |t.path| ensures t.EntryShape(j) {
        assert EntryShape(j);
        assert t.path[..j] == path[..j];
      }
      forall j | 0 <= j < |t.path| - 1 ensures t.LinkShape(j) {
        assert LinkShape(j);
      }
      if CoverageExact(0) { CoverageFrame(t); }
    }

    // -------------------------------------------------------------- deleting a subtree

    ghost function Keep(keys: set<ExecutionTree>): Tree {
      this.(heap := map m | m in heap && m in keys :: heap[m],
            pos := map m | m in pos && m in keys :: pos[m])
    }

    /** The nodes at or below a position. */
    ghost function Below(p: Path): set<ExecutionTree> {
      set m | m in heap && m in pos && p <= pos[m]
    }

    /** Exactly the nodes at or below p are gone, and the others stand for what they did. */
    ghost predicate Drops(t: Tree, p: Path) {
      && t.heap.Keys == heap.Keys - Below(p)
      && forall n :: n in t.heap ==> n in pos && n in t.pos && t.pos[n] == pos[n]
    }

    ghost predicate SameNodes(t: Tree) {
      && t.heap.Keys == heap.Keys
      && forall n :: n in t.heap ==> n in pos && n in t.pos && t.pos[n] == pos[n]
    }

    lemma BelowIsLive(p: Path)
      ensures Below(p) <= heap.Keys
    {
    }

    lemma DropsIsBelow(t: Tree, p: Path)
      requires Drops(t, p)
      ensures heap.Keys - t.heap.Keys == Below(p) && t.heap.Keys <= heap.Keys
    {
    }

    /** What a run drops when it ends at p, and backtracking when it stops above the given saved path. */
    lemma DropsInAll(t: Tree, u: Tree, delete: bool)
      requires Drops(t, t.path) && t.BacktracksTo(u, delete)
      ensures Drops(u, Dropped(t.path, u.path, delete && !Covered(t.script, t.explored, [])))
      ensures heap.Keys - u.heap.Keys == Below(t.path) + (t.heap.Keys - u.heap.Keys)
    {
      if delete && !Covered(t.script, t.explored, []) && |u.path| < |t.path| {
        DropsMore(t, u, t.path, t.path[..|u.path| + 1]);
      } else {
        DropsSame(t, u, t.path);
      }
    }

    lemma DropsMore(t: Tree, u: Tree, p: Path, q: Path)
      requires Drops(t, p) && t.Drops(u, q) && q <= p
      ensures Drops(u, q)
    {
      forall n | n in heap ensures n in u.heap <==> n !in Below(q) {
        assert n in t.heap <==> n !in Below(p);
      }
    }

    lemma DropsSame(t: Tree, u: Tree, p: Path)
      requires Drops(t, p) && t.SameNodes(u)
      ensures Drops(u, p)
    {
    }

    /** The subtree at n is a tree of live nodes that nothing outside of it points into, except
        for whatever held n. */
    ghost predicate Deletable(n: ExecutionTree) {
      && n in heap && heap.Keys == pos.Keys && Distinct() && endNode !in heap
      && forall m {:trigger StandsFor(m)} :: m in heap && pos[n] <= pos[m] ==>
           && StandsFor(m) && SlotsShape(m)
           && (m != n ==> m != root && UpShape(m) && heap[m].parent in pos && pos[n] <= pos[heap[m].parent])
    }

    /** The nodes in the first i slots of n, with everything below them. */
    ghost function BelowKids(n: ExecutionTree, i: nat): set<ExecutionTree>
      requires n in heap && n in pos && i <= |heap[n].idxToVar|
    {
      set m, j | m in heap && m in pos && 0 <= j < i && pos[n] + [heap[n].idxToVar[j]] <= pos[m] :: m
    }

    lemma {:induction false} ChainDown(n: ExecutionTree, m: ExecutionTree) returns (i: nat)
      requires Deletable(n) && m in heap && pos[n] < pos[m]
      ensures i < |heap[n].children| && i < |heap[n].idxToVar|
      ensures heap[n].children[i] != null && heap[n].children[i] in heap
      ensures pos[n] + [heap[n].idxToVar[i]] <= pos[m]
      decreases |pos[m]|
    {
      assert StandsFor(m) && m != n && UpShape(m);
      var p := heap[m].parent;
      assert StandsFor(p);
      var j := IndexIn(heap[p].children, m);
      assert SlotShape(p, j);
      if p == n {
        i := j;
      } else {
        assert SamePosition(p, n) ==> p == n;
        i := ChainDown(n, p);
      }
    }

    /** The subtree in a slot can be deleted too, and overlaps with none of the slots before it. */
    lemma KidDeletable(n: ExecutionTree, i: nat)
      requires Deletable(n) && i < |heap[n].children|
      ensures i < |heap[n].idxToVar| && SlotShape(n, i)
      ensures var c, p := heap[n].children[i], pos[n] + [heap[n].idxToVar[i]];
              && BelowKids(n, i + 1) == BelowKids(n, i) + Below(p) && BelowKids(n, i) !! Below(p)
              && (c == null || c == endNode ==> Below(p) == {})
              && (c != null && c != endNode ==> Deletable(c))
    {
      assert StandsFor(n) && SlotShape(n, i) && heap[n].VarsOk();
      var c, p := heap[n].children[i], pos[n] + [heap[n].idxToVar[i]];
      forall m | m in Below(p) ensures m !in BelowKids(n, i) && c != null && c != endNode {
        assert pos[m][|pos[n]|] == heap[n].idxToVar[i];
        forall j | 0 <= j < i ensures !(pos[n] + [heap[n].idxToVar[j]] <= pos[m]) {
          assert heap[n].idxToVar[j] != heap[n].idxToVar[i];
        }
        var k := ChainDown(n, m);
        assert heap[n].idxToVar[k] == heap[n].idxToVar[i];
      }
      if c != null && c != endNode {
        KidShape(n, i);
      }
    }

    lemma KidShape(n: ExecutionTree, i: nat)
      requires Deletable(n) && SlotShape(n, i)
      requires heap[n].children[i] != null && heap[n].children[i] != endNode
      ensures Deletable(heap[n].children[i])
    {
      var c := heap[n].children[i];
      forall m | m in heap && pos[c] <= pos[m]
        ensures StandsFor(m) && SlotsShape(m)
        ensures m != c ==> m != root && UpShape(m) && heap[m].parent in pos && pos[c] <= pos[heap[m].parent]
      {
        assert StandsFor(m);
        if m != c {
          assert pos[n] < pos[c] <= pos[m] && m != n && UpShape(m);
          var p := heap[m].parent;
          assert StandsFor(p);
          var j := IndexIn(heap[p].children, m);
          assert SlotShape(p, j);
          assert SamePosition(m, c) ==> m == c;
          assert pos[c] < pos[m];
        }
      }
    }

    lemma KidSmaller(n: ExecutionTree, i: nat)
      requires Deletable(n) && SlotShape(n, i)
      requires heap[n].children[i] != null && heap[n].children[i] != endNode
      ensures StandsFor(n) && StandsFor(heap[n].children[i])
      ensures At(script, pos[heap[n].children[i]]) < At(script, pos[n])
      ensures Below(pos[heap[n].children[i]]) <= Below(pos[n])
    {
      assert StandsFor(n);
      KidShape(n, i);
      assert StandsFor(heap[n].children[i]);
      AtStep(script, pos[n], heap[n].idxToVar[i]);
    }

    /** When all children are gone only the node itself is left of its subtree. */
    lemma AllKidsGone(n: ExecutionTree)
      requires Deletable(n)
      ensures |heap[n].children| == |heap[n].idxToVar|
      ensures BelowKids(n, 0) == {} && n !in BelowKids(n, |heap[n].idxToVar|)
      ensures BelowKids(n, |heap[n].idxToVar|) + {n} == Below(pos[n])
    {
      assert StandsFor(n) && heap[n].VarsOk();
      forall m | m in Below(pos[n]) && m != n ensures m in BelowKids(n, |heap[n].idxToVar|) {
        assert SamePosition(m, n) ==> m == n;
        var i := ChainDown(n, m);
      }
    }

    // -------------------------------------------------------------- ending a path

    /** Every prefix of a live node's position is the position of a live node. */
    lemma {:induction false} AncestorAt(m: ExecutionTree, k: nat) returns (n: ExecutionTree)
      requires TreeShape() && m in heap && k <= |pos[m]|
      ensures n in heap && n in pos && pos[n] == pos[m][..k]
      decreases |pos[m]|
    {
      if k == |pos[m]| {
        n := m;
      } else {
        var p, i := OwnSlot(m);
        assert pos[p] == pos[m][..|pos[m]| - 1];
        n := AncestorAt(p, k);
        assert pos[p][..k] == pos[m][..k];
      }
    }

    /** What lies below the tip is the subtree in the tip's slot. */
    lemma BelowTip()
      requires TreeShape() && StackShape() && |stack| == |path| >= 1
      ensures Tip().parent in heap && Tip().childIndex < |heap[Tip().parent].children|
      ensures var c := heap[Tip().parent].children[Tip().childIndex];
              && (c == null || c == endNode ==> Below(path) == {})
              && (c != null && c != endNode ==> Deletable(c) && pos[c] == path && c in Below(path))
    {
      TipFacts();
      var o, i := Tip().parent, Tip().childIndex;
      assert Shape(o) && SlotShape(o, i);
      var c := heap[o].children[i];
      if c == null || c == endNode {
        forall m | m in Below(path) ensures false {
          var n := AncestorAt(m, |path|);
          HangsFrom(n, o, i);
        }
      } else {
        forall m | m in heap && path <= pos[m]
          ensures StandsFor(m) && SlotsShape(m)
          ensures m != c ==> m != root && UpShape(m) && heap[m].parent in pos && path <= pos[heap[m].parent]
        {
          assert Shape(m);
          if m != c {
            var p, j := OwnSlot(m);
            assert SamePosition(m, c) ==> m == c;
          }
        }
      }
    }

    /** Put the end node into the tip's slot, and drop the subtree that was there. */
    ghost function Collapse(): Tree
      requires |stack| >= 1 && Tip().parent in heap && Tip().childIndex < |heap[Tip().parent].children|
    {
      var o, i := Tip().parent, Tip().childIndex;
      this.(heap := heap[o := heap[o].(children := heap[o].children[i := endNode])])
          .Keep(heap.Keys - Below(path))
    }

    lemma SlotAtTip(n: ExecutionTree, j: nat)
      requires TreeShape() && StackShape() && |stack| == |path| >= 1
      requires n in heap && j < |heap[n].idxToVar| && pos[n] + [heap[n].idxToVar[j]] == path
      ensures n == Tip().parent && j == Tip().childIndex
    {
      TipFacts();
      var o, i := Tip().parent, Tip().childIndex;
      assert pos[n] == path[..|path| - 1] == pos[o];
      assert SamePosition(n, o);
      assert path[|path| - 1] == heap[n].idxToVar[j] == heap[o].idxToVar[i];
    }

    lemma CollapseKeepsSlots(n: ExecutionTree)
      requires TreeShape() && StackShape() && |stack| == |path| >= 1
      requires Tip().parent in heap && Tip().childIndex < |heap[Tip().parent].children|
      requires n in heap && !(path <= pos[n])
      ensures Collapse().SlotsShape(n)
    {
      hide Tree.TreeShape, Tree.StackShape, Fits;
      TipFacts();
      ShapeOf(n);
      var t := Collapse();
      forall j | 0 <= j < |t.heap[n].children| ensures t.SlotShape(n, j) {
        assert SlotShape(n, j);
        var c := heap[n].children[j];
        if c != null && c != endNode && path <= pos[c] {
          PrefixOfOneMore(path, pos[n], heap[n].idxToVar[j]);
          SlotAtTip(n, j);
        }
      }
    }

    lemma CollapseKeeps(n: ExecutionTree)
      requires TreeShape() && StackShape() && |stack| == |path| >= 1
      requires Tip().parent in heap && Tip().childIndex < |heap[Tip().parent].children|
      requires n in heap && !(path <= pos[n])
      ensures Collapse().Shape(n)
    {
      hide Tree.TreeShape, Tree.StackShape, Tree.SlotsShape;
      TipFacts();
      ShapeOf(n);
      CollapseKeepsSlots(n);
      var t := Collapse();
      assert t.StandsFor(n);
      if n != root {
        var p, j := OwnSlot(n);
        assert t.heap[p].children[j] == n;
      }
    }

    lemma CollapseTree()
      requires TreeShape() && StackShape() && |stack| == |path| >= 1
      requires Tip().parent in heap && Tip().childIndex < |heap[Tip().parent].children|
      ensures Collapse().TreeShape()
    {
      hide Tree.StackShape, Tree.Shape;
      var t := Collapse();
      assert !(path <= pos[root]);
      forall m, n | m in t.heap && n in t.heap && t.SamePosition(m, n) ensures m == n {
        assert SamePosition(m, n);
      }
      forall n | n in t.heap ensures t.Shape(n) {
        CollapseKeeps(n);
      }
      assert t.heap[root].parent == heap[root].parent;
    }

    lemma ParentsLive()
      requires TreeShape() && StackShape()
      ensures endNode !in heap && forall k :: 0 <= k < |path| ==> stack[k].parent in heap
    {
      forall k | 0 <= k < |path| ensures stack[k].parent in heap { assert EntryShape(k); }
    }

    lemma CollapseStack()
      requires TreeShape() && StackShape() && |stack| == |path| >= 1
      requires Tip().parent in heap && Tip().childIndex < |heap[Tip().parent].children|
      ensures Collapse().StackShape()
    {
      hide Tree.TreeShape;
      TipFacts();
      ParentsLive();
      var t := Collapse();
      forall k | 0 <= k < |path| ensures t.EntryShape(k) {
        assert EntryShape(k);
      }
      forall k | 0 <= k < |path| - 1 ensures t.LinkShape(k) {
        assert LinkShape(k) && EntryShape(k) && EntryShape(k + 1);
      }
    }

    lemma CollapseShape()
      requires TreeShape() && StackShape() && |stack| == |path| >= 1
      requires Tip().parent in heap && Tip().childIndex < |heap[Tip().parent].children|
      ensures Collapse().TreeShape() && Collapse().StackShape()
      ensures Collapse().heap.Keys == heap.Keys - Below(path)
      ensures forall n :: n in heap && !(path <= pos[n]) ==>
                Collapse().heap[n].covered == heap[n].covered && Collapse().pos[n] == pos[n]
    {
      CollapseTree();
      CollapseStack();
      assert heap.Keys == pos.Keys;
      hide Tree.TreeShape, Tree.StackShape;
    }

    /** Collapsing something that is covered anyway changes no coverage. */
    lemma CollapseCovered()
      requires TreeShape() && StackShape() && |stack| == |path| >= 1 && CoverageExact(0)
      requires Tip().parent in heap && Tip().childIndex < |heap[Tip().parent].children|
      requires Covered(script, explored, path)
      ensures Collapse().CoverageExact(0)
    {
      TipFacts();
      var t := Collapse();
      forall n | n in t.heap ensures t.FlagExact(n, 0) && t.SlotsExact(n) {
        assert FlagExact(n, 0) && SlotsExact(n);
        forall j | 0 <= j < |t.heap[n].children| ensures t.SlotExact(n, j) {
          assert SlotExact(n, j);
        }
      }
    }

    /** End the path at the tip: a run has been made, and everything below it counts as explored from
        now on. */
    ghost function EndTip(): Tree
      requires |stack| >= 1 && Tip().parent in heap && Tip().childIndex < |heap[Tip().parent].children|
    {
      var t := Collapse();
      t.(stack := stack + [ChildLoc(endNode, 0)], explored := explored + LeavesThrough(script, path),
         made := made + [path])
    }

    ghost predicate CanEnd() {
      |stack| >= 1 && |path| >= 1 && Tip().parent in heap && Tip().childIndex < |heap[Tip().parent].children|
    }

    lemma EndTipFlag(n: ExecutionTree)
      requires Valid() && Open() && CanEnd() && n in heap && n in pos && n in EndTip().heap
      requires EndTip().heap[n].covered == heap[n].covered && EndTip().pos[n] == pos[n] && !(path <= pos[n])
      ensures EndTip().FlagExact(n, |path|)
    {
      assert FlagExact(n, 0);
      ExploreThrough(script, explored, path, pos[n]);
      if pos[n] <= path {
        CoveredBelow(script, explored, pos[n], path);
        NotPruned(pos[n], 0);
      }
      if BelowPruned(pos[n]) {
        assert EndTip().BelowPruned(pos[n]);
      }
    }

    /** Of a node that stays, a slot other than the tip has nothing new explored below it if it is
        empty, and a thread variable without a slot has not either. */
    lemma EndTipUntouched(n: ExecutionTree, l: nat)
      requires Valid() && Open() && CanEnd() && n in heap && n in pos && !(pos[n] + [l] <= path) && !(path <= pos[n])
      requires InPruned(pos[n]) || Untouched(script, explored, pos[n] + [l])
      ensures EndTip().InPruned(pos[n]) || Untouched(script, EndTip().explored, pos[n] + [l])
    {
      ExploreThrough(script, explored, path, pos[n] + [l]);
      PrefixOfOneMore(path, pos[n], l);
      if InPruned(pos[n]) {
        assert EndTip().InPruned(pos[n]);
      }
    }

    lemma EndTipSlot(n: ExecutionTree, j: nat)
      requires Valid() && Open() && CanEnd() && n in EndTip().heap && n in heap && n in pos && EndTip().pos[n] == pos[n]
      requires !(path <= pos[n]) && j < |heap[n].children| == |EndTip().heap[n].children|
      requires EndTip().heap[n].idxToVar == heap[n].idxToVar && n in EndTip().pos
      requires !(n == Tip().parent && j == Tip().childIndex) ==> EndTip().heap[n].children[j] == heap[n].children[j]
      requires n == Tip().parent && j == Tip().childIndex ==> EndTip().heap[n].children[j] == endNode
      ensures EndTip().SlotExact(n, j)
    {
      TipFacts();
      assert SlotsExact(n) && SlotExact(n, j) && Shape(n);
      var q := pos[n] + [heap[n].idxToVar[j]];
      ExploreThrough(script, explored, path, q);
      if heap[n].children[j] == null && !(n == Tip().parent && j == Tip().childIndex) {
        if q <= path {
          OnPathNotEmpty(n, j);
        } else {
          EndTipUntouched(n, heap[n].idxToVar[j]);
        }
      }
    }

    /** What the records and positions are after the path was ended. */
    lemma EndTipRecord(n: ExecutionTree)
      requires heap.Keys == pos.Keys && CanEnd() && n in EndTip().heap
      ensures n in heap && n in pos && !(path <= pos[n]) && n in EndTip().pos && EndTip().pos[n] == pos[n]
      ensures EndTip().heap[n] == if n == Tip().parent
                then heap[n].(children := heap[n].children[Tip().childIndex := endNode]) else heap[n]
    {
    }

    lemma EndTipFields()
      requires heap.Keys == pos.Keys && CanEnd()
      ensures EndTip().root == root && EndTip().endNode == endNode && EndTip().heap.Keys <= heap.Keys
      ensures EndTip().stack == stack + [ChildLoc(endNode, 0)]
      ensures forall n :: n in EndTip().heap ==>
                EndTip().heap[n] == if n == Tip().parent
                  then heap[n].(children := heap[n].children[Tip().childIndex := endNode]) else heap[n]
    {
    }

    lemma EndTipNode(n: ExecutionTree)
      requires Valid() && Open() && CanEnd() && n in EndTip().heap
      ensures EndTip().FlagExact(n, |path|) && EndTip().SlotsExact(n)
    {
      EndTipRecord(n);
      EndTipFlag(n);
      assert SlotsExact(n);
      forall j | 0 <= j < |EndTip().heap[n].children| ensures EndTip().SlotExact(n, j) {
        EndTipSlot(n, j);
      }
      forall v: nat | v !in heap[n].idxToVar
        ensures EndTip().InPruned(pos[n]) || Untouched(script, EndTip().explored, pos[n] + [v])
      {
        if pos[n] + [v] <= path {
          OnPathHasIndex(n, v);
        }
        EndTipUntouched(n, v);
      }
    }

    lemma EndTipCoverage()
      requires Valid() && Open() && CanEnd()
      ensures EndTip().CoverageExact(|path|)
    {
      forall n | n in EndTip().heap ensures EndTip().FlagExact(n, |path|) && EndTip().SlotsExact(n) {
        EndTipNode(n);
      }
      forall r | r in pruned ensures Covered(script, EndTip().explored, r) {
        ExploreThrough(script, explored, path, r);
      }
    }

    /** A node whose position the path continues is the stack's node at that depth. */
    lemma OnPath(n: ExecutionTree)
      requires TreeShape() && StackShape() && n in heap && n in pos && pos[n] < path
      ensures EntryShape(|pos[n]|) && stack[|pos[n]|].parent == n
    {
      var k := |pos[n]|;
      assert EntryShape(k);
      assert pos[n] == path[..k];
      assert SamePosition(stack[k].parent, n);
    }

    /** Where the script ends a slot can hold nothing but the end node, and does so once the end
        was reached. */
    lemma LeafSlot(n: ExecutionTree, i: nat, k: nat)
      requires TreeShape() && CoverageExact(k) && n in heap && n in pos && i < |heap[n].children|
      ensures i < |heap[n].idxToVar|
      ensures IsLeaf(script, pos[n] + [heap[n].idxToVar[i]]) ==>
                && heap[n].children[i] in {null, endNode}
                && (pos[n] + [heap[n].idxToVar[i]] in explored && !InPruned(pos[n]) ==> heap[n].children[i] == endNode)
    {
      assert Shape(n) && StandsFor(n) && SlotShape(n, i) && SlotsExact(n) && SlotExact(n, i);
      var c := heap[n].children[i];
      if c != null && c != endNode {
        assert Shape(c) && StandsFor(c);
      }
    }

    lemma OnPathHasIndex(n: ExecutionTree, v: nat)
      requires TreeShape() && StackShape() && n in heap && n in pos && pos[n] + [v] <= path
      ensures v in heap[n].idxToVar
    {
      OnPath(n);
      assert path[|pos[n]|] == v;
    }

    lemma OnPathNotEmpty(n: ExecutionTree, j: nat)
      requires TreeShape() && StackShape() && |stack| == |path| >= 1
      requires n in heap && n in pos && j < |heap[n].children| && j < |heap[n].idxToVar|
      requires pos[n] + [heap[n].idxToVar[j]] <= path
      requires !(n == Tip().parent && j == Tip().childIndex)
      ensures heap[n].children[j] != null
    {
      OnPath(n);
      var k := |pos[n]|;
      assert Shape(n) && StandsFor(n) && heap[n].VarsOk();
      assert path[k] == heap[n].idxToVar[j] && stack[k].childIndex == j;
      assert k < |path| - 1 ==> LinkShape(k);
    }

    lemma EndTipShape()
      requires TreeShape() && StackShape() && |stack| == |path| >= 1
      requires Tip().parent in heap && Tip().childIndex < |heap[Tip().parent].children|
      ensures EndTip().TreeShape() && EndTip().StackShape()
      ensures Tip().parent in EndTip().heap
      ensures EndTip().heap[Tip().parent].children == heap[Tip().parent].children[Tip().childIndex := endNode]
    {
      CollapseShape();
      TipFacts();
      var c, t := Collapse(), EndTip();
      c.TreeFrame(t);
      forall k | 0 <= k < |path| ensures t.EntryShape(k) {
        assert c.EntryShape(k);
      }
      forall k | 0 <= k < |path| - 1 ensures t.LinkShape(k) {
        assert c.LinkShape(k);
      }
    }

    // -------------------------------------------------------------- propagating coverage

    /** The children of a node say that it is covered. */
    ghost predicate KidsCovered(n: ExecutionTree) {
      && n in heap
      && (heap[n].kind.Forall? ==> |heap[n].children| == heap[n].scopeSize)
      && forall i :: 0 <= i < |heap[n].children| ==>
           var c := heap[n].children[i];
           c != null && (c == endNode || (c in heap && heap[c].covered))
    }

    /** A slot's content tells whether its branch is covered, once the flags below are exact. */
    lemma SlotTells(n: ExecutionTree, i: nat, k: nat)
      requires TreeShape() && CoverageExact(k) && n in heap && n in pos && i < |heap[n].children|
      requires k <= |pos[n]| + 1 && !InPruned(pos[n])
      ensures i < |heap[n].idxToVar|
      ensures var c := heap[n].children[i];
              (c != null && (c == endNode || (c in heap && heap[c].covered))) <==>
              Covered(script, explored, pos[n] + [heap[n].idxToVar[i]])
    {
      assert Shape(n) && StandsFor(n) && SlotsExact(n) && SlotExact(n, i) && SlotShape(n, i);
      var c := heap[n].children[i];
      if c == null {
        AtStep(script, pos[n], heap[n].idxToVar[i]);
        UntouchedNotCovered(script, explored, pos[n] + [heap[n].idxToVar[i]]);
      } else if c != endNode {
        BelowOne(pos[n], heap[n].idxToVar[i]);
        assert FlagExact(c, k);
      }
    }

    /** A thread variable of the scope that has no slot is not covered; when there are as many
        slots as variables, none is missing. */
    lemma SlotsComplete(n: ExecutionTree)
      requires TreeShape() && n in heap && n in pos
      ensures StandsFor(n)
      ensures heap[n].kind.Forall? ==>
                (|heap[n].children| == heap[n].scopeSize <==>
                 forall v: nat :: v < |At(script, pos[n]).next| ==> v in heap[n].idxToVar)
      ensures !heap[n].kind.Forall? ==>
                forall v: nat :: v < |At(script, pos[n]).next| ==> v in heap[n].idxToVar
    {
      assert Shape(n) && StandsFor(n);
      var r := heap[n];
      if r.kind.Forall? {
        Pigeonhole(r.idxToVar, r.scopeSize);
      } else {
        forall v: nat | v < |At(script, pos[n]).next| ensures v in r.idxToVar {
          assert r.idxToVar[v] == v;
        }
      }
    }

    /** The immediate children decide the coverage of a node, once the flags below it are exact. */
    lemma KidsTell(n: ExecutionTree, k: nat)
      requires TreeShape() && n in heap && n in pos && k <= |pos[n]| + 1 && CoverageExact(k)
      requires !BelowPruned(pos[n]) && (InPruned(pos[n]) ==> heap[n].covered)
      ensures heap[n].covered || KidsCovered(n) <==> Covered(script, explored, pos[n])
    {
      assert FlagExact(n, k);
      if !heap[n].covered {
        KidsDecide(n, k);
      }
    }

    lemma KidsDecide(n: ExecutionTree, k: nat)
      requires TreeShape() && n in heap && n in pos && k <= |pos[n]| + 1 && CoverageExact(k) && !InPruned(pos[n])
      ensures KidsCovered(n) <==> Covered(script, explored, pos[n])
    {
      var p := pos[n];
      SlotsComplete(n);
      assert SlotsExact(n);
      CoveredByKids(script, explored, p);
      forall i | 0 <= i < |heap[n].children|
        ensures i < |heap[n].idxToVar|
        ensures var c := heap[n].children[i];
                (c != null && (c == endNode || (c in heap && heap[c].covered))) <==>
                Covered(script, explored, p + [heap[n].idxToVar[i]])
      {
        SlotTells(n, i, k);
      }
      var next := At(script, p).next;
      if KidsCovered(n) {
        forall v: nat | v < |next| ensures Covered(script, explored, p + [v]) {
          assert v in heap[n].idxToVar;
          var i := IndexIn(heap[n].idxToVar, v);
          assert i < |heap[n].children|;
        }
      }
      if Covered(script, explored, p) {
        forall v: nat | v < |next| ensures v in heap[n].idxToVar {
          AtStep(script, p, v);
          assert Covered(script, explored, p + [v]);
          if v !in heap[n].idxToVar { UntouchedNotCovered(script, explored, p + [v]); }
        }
      }
    }

    ghost function SetCovered(n: ExecutionTree, b: bool): Tree
      requires n in heap
    {
      this.(heap := heap[n := heap[n].(covered := b)])
    }

    lemma SetCoveredKeeps(n: ExecutionTree, b: bool, m: ExecutionTree)
      requires TreeShape() && n in heap && m in heap
      ensures SetCovered(n, b).Shape(m)
    {
      hide Tree.TreeShape, Tree.StackShape;
      ShapeOf(m);
      var t := SetCovered(n, b);
      assert t.StandsFor(m);
      forall i | 0 <= i < |t.heap[m].children| ensures t.SlotShape(m, i) {
        assert SlotShape(m, i);
      }
    }

    lemma SetCoveredTree(n: ExecutionTree, b: bool)
      requires TreeShape() && n in heap
      ensures SetCovered(n, b).TreeShape()
    {
      hide Tree.StackShape, Tree.Shape;
      var t := SetCovered(n, b);
      forall m, m' | m in t.heap && m' in t.heap && t.SamePosition(m, m') ensures m == m' {
        assert SamePosition(m, m');
      }
      forall m | m in t.heap ensures t.Shape(m) {
        SetCoveredKeeps(n, b, m);
      }
    }

    lemma SetCoveredShape(n: ExecutionTree, b: bool)
      requires TreeShape() && StackShape() && n in heap
      ensures SetCovered(n, b).TreeShape() && SetCovered(n, b).StackShape()
    {
      hide Tree.TreeShape;
      SetCoveredTree(n, b);
      var t := SetCovered(n, b);
      forall k | 0 <= k < |path| ensures t.EntryShape(k) {
        assert EntryShape(k);
      }
      forall k | 0 <= k < |path| - 1 ensures t.LinkShape(k) {
        assert LinkShape(k);
      }
    }

    /** With the flag of its j-th node computed, one flag less of the stack is out of date. */
    lemma SetCoveredExact(j: nat)
      requires TreeShape() && StackShape() && j < |path| && CoverageExact(j + 1)
      requires EntryShape(j)
      ensures var n := stack[j].parent;
              SetCovered(n, Covered(script, explored, path[..j])).CoverageExact(j)
    {
      var n := stack[j].parent;
      var t := SetCovered(n, Covered(script, explored, path[..j]));
      forall m | m in t.heap ensures t.FlagExact(m, j) && t.SlotsExact(m) {
        assert FlagExact(m, j + 1) && SlotsExact(m);
        if m != n && pos[m] < path && |pos[m]| == j {
          OnPath(m);
        }
        forall i | 0 <= i < |t.heap[m].children| ensures t.SlotExact(m, i) {
          assert SlotExact(m, i);
        }
      }
    }

    /** Above an uncovered node nothing is covered, so the remaining flags are right as they are. */
    lemma UncoveredAbove(j: nat)
      requires TreeShape() && StackShape() && j <= |path| && CoverageExact(j)
      requires j < |path| ==> !Covered(script, explored, path[..j])
      requires j == |path| ==> !Covered(script, explored, path)
      ensures CoverageExact(0)
    {
      forall n | n in heap ensures FlagExact(n, 0) && SlotsExact(n) {
        assert FlagExact(n, j) && SlotsExact(n);
        if pos[n] < path && |pos[n]| < j {
          CoveredBelow(script, explored, pos[n], path[..j]);
          assert path[..|path|] == path;
        }
      }
    }

    lemma MoreStale(j: nat, k: nat)
      requires CoverageExact(j) && j <= k
      ensures CoverageExact(k)
    {
      forall n | n in heap ensures FlagExact(n, k) && SlotsExact(n) {
        assert FlagExact(n, j) && SlotsExact(n);
      }
    }

    // -------------------------------------------------------------- backtracking

    /** An abandoned path: what remains of it when it is ended after k answers.  If something
        already hangs there and a further answer was saved, that answer stays on the path. */
    ghost function EndingAt(k: nat): Tree
      requires 1 <= k <= |path| && k <= |stack| && |stack| == |path|
    {
      if k < |path| then Truncate(k + 1) else this
    }

    lemma EndingAtValid(k: nat)
      requires Valid() && Open() && 1 <= k <= |path|
      ensures EndingAt(k).Valid() && EndingAt(k).Open()
    {
      if k < |path| {
        TruncateShape(k + 1);
        CoveredBelow(script, explored, path[..k + 1], path);
      }
    }

    ghost function EndedAt(k: nat): (t: Tree)
      requires Valid() && Open() && 1 <= k <= |path|
      ensures t.path == (if k < |path| then path[..k + 1] else path)
      ensures t.stack == stack[..|t.path|] + [ChildLoc(endNode, 0)]
      ensures t.explored == explored + LeavesThrough(script, t.path) && t.script == script && t.pruned == pruned
      ensures t.made == made + [t.path]
    {
      EndingAtValid(k);
      EndingAt(k).TipFacts();
      EndingAt(k).EndTip()
    }

    /** The j-th node of the path has been given up: it is one of the last two and is flagged, and
        if it is the last but one then flag or children say that the last one is covered. */
    ghost predicate MarkedAt(j: nat) {
      && j < |path| <= j + 2 && EntryShape(j) && heap[stack[j].parent].covered
      && (j + 2 == |path| ==>
            && EntryShape(j + 1)
            && (heap[stack[j + 1].parent].covered || KidsCovered(stack[j + 1].parent)))
    }

    /** Nothing on the path was given up, except perhaps for one of its last two nodes. */
    ghost predicate PathMarks() {
      |path| >= 1 && forall r :: r in pruned && r <= path ==> MarkedAt(|r|)
    }

    /** The path has been ended: the end node is on top of the stack, and the coverage flags of
        the nodes below it are still to be computed. */
    ghost predicate PathEnded() {
      && TreeShape() && StackShape() && CoverageExact(|path|)
      && |path| >= 1 && |stack| == |path| + 1 && stack[|path|] == ChildLoc(endNode, 0)
      && EntryShape(|path| - 1) && heap[stack[|path| - 1].parent].children[stack[|path| - 1].childIndex] == endNode
      && Covered(script, explored, path) && PathMarks()
    }

    /** Ending a path is possible at its tip, and the whole path is then complete. */
    lemma EndTipEnds()
      requires Valid() && Open()
      ensures CanEnd() && heap.Keys == pos.Keys && EntryShape(|path| - 1) && EndTip().PathEnded()
    {
      EntryPosition(|path| - 1);
      EndTipShape();
      EndTipCoverage();
      ExploreThrough(script, explored, path, path);
      assert EndTip().EntryShape(|path| - 1);
      NotPruned(path, 0);
    }

    // -------------------------------------------------------------- giving up a forall node

    /** The j-th node of the path, a forall node, is flagged covered: it is given up as a whole. */
    ghost function Marked(j: nat): Tree
      requires j < |path| && EntryShape(j)
    {
      SetCovered(stack[j].parent, true)
        .(explored := explored + LeavesThrough(script, path[..j]), pruned := pruned + {path[..j]})
    }

    /** No node of the ended path was given up before.  The node to be given up is the last one, or
        the last but one if the path was ended in the middle of a replay, and nothing is left to
        explore in the branch that was taken at it. */
    ghost predicate CanMark(j: nat) {
      && PathEnded() && (forall r :: r in pruned ==> !(r <= path))
      && j < |path| <= j + 2 && EntryShape(j) && Covered(script, explored, path[..j + 1])
    }

    lemma MarkedShape(j: nat)
      requires CanMark(j)
      ensures Marked(j).TreeShape() && Marked(j).StackShape()
    {
      hide Tree.CoverageExact;
      var u, t := SetCovered(stack[j].parent, true), Marked(j);
      SetCoveredShape(stack[j].parent, true);
      u.TreeFrame(t);
      forall k | 0 <= k < |path| ensures t.EntryShape(k) {
        assert u.EntryShape(k);
      }
      forall k | 0 <= k < |path| - 1 ensures t.LinkShape(k) {
        assert u.LinkShape(k);
      }
    }

    lemma MarkedFlag(j: nat, n: ExecutionTree)
      requires CanMark(j) && n in heap
      ensures Marked(j).FlagExact(n, |path|)
    {
      var q, f, t := path[..j], stack[j].parent, Marked(j);
      assert FlagExact(n, |path|) && q in t.pruned;
      ExploreThrough(script, explored, q, pos[n]);
      if pos[n] == q {
        assert SamePosition(n, f);
      } else if q < pos[n] {
        assert t.BelowPruned(pos[n]);
      } else if pos[n] < path {
        PrefixesOfOne(pos[n], q, path);
      }
      if BelowPruned(pos[n]) {
        assert t.BelowPruned(pos[n]);
      }
    }

    lemma MarkedUntouched(j: nat, n: ExecutionTree, l: nat)
      requires CanMark(j) && n in heap && n in pos && !(pos[n] + [l] <= path[..j])
      requires InPruned(pos[n]) || Untouched(script, explored, pos[n] + [l])
      ensures Marked(j).InPruned(pos[n]) || Untouched(script, Marked(j).explored, pos[n] + [l])
    {
      hide Tree.TreeShape, Tree.StackShape, Tree.CoverageExact;
      var q, t := path[..j], Marked(j);
      assert q in t.pruned;
      ExploreThrough(script, explored, q, pos[n] + [l]);
      PrefixOfOneMore(q, pos[n], l);
      if InPruned(pos[n]) {
        assert t.InPruned(pos[n]);
      }
    }

    /** A slot on the path, above its last node, is not empty. */
    lemma OnPathFilled(n: ExecutionTree, i: nat)
      requires TreeShape() && StackShape() && |path| >= 1
      requires n in heap && n in pos && i < |heap[n].children| && i < |heap[n].idxToVar|
      requires pos[n] + [heap[n].idxToVar[i]] <= path[..|path| - 1]
      ensures heap[n].children[i] != null
    {
      var k := |pos[n]|;
      assert path[..|path| - 1] <= path;
      OnPath(n);
      assert Shape(n) && StandsFor(n) && heap[n].VarsOk();
      assert path[k] == heap[n].idxToVar[i] && stack[k].childIndex == i;
      assert LinkShape(k) && EntryShape(k + 1);
    }

    lemma MarkedSlot(j: nat, n: ExecutionTree, i: nat)
      requires CanMark(j) && n in heap && i < |heap[n].children|
      ensures Marked(j).SlotExact(n, i)
    {
      hide Tree.TreeShape, Tree.StackShape;
      ShapeOf(n);
      assert SlotsExact(n) && SlotExact(n, i);
      ExploreThrough(script, explored, path[..j], pos[n] + [heap[n].idxToVar[i]]);
      if heap[n].children[i] == null {
        if pos[n] + [heap[n].idxToVar[i]] <= path[..j] {
          assert path[..j] <= path[..|path| - 1];
          OnPathFilled(n, i);
        } else {
          MarkedUntouched(j, n, heap[n].idxToVar[i]);
        }
      }
    }

    lemma MarkedSlots(j: nat, n: ExecutionTree)
      requires CanMark(j) && n in heap
      ensures Marked(j).SlotsExact(n)
    {
      hide Tree.TreeShape, Tree.StackShape, Tree.SlotExact;
      ShapeOf(n);
      var t := Marked(j);
      assert SlotsExact(n);
      forall i | 0 <= i < |t.heap[n].children| ensures t.SlotExact(n, i) {
        MarkedSlot(j, n, i);
      }
      forall v: nat | v !in heap[n].idxToVar
        ensures t.InPruned(pos[n]) || Untouched(script, t.explored, pos[n] + [v])
      {
        if pos[n] + [v] <= path[..j] {
          assert path[..j] <= path;
          OnPathHasIndex(n, v);
        }
        MarkedUntouched(j, n, v);
      }
    }

    lemma MarkedCoverage(j: nat)
      requires CanMark(j)
      ensures Marked(j).CoverageExact(|path|)
    {
      var q, t := path[..j], Marked(j);
      forall n | n in t.heap ensures t.FlagExact(n, |path|) && t.SlotsExact(n) {
        MarkedFlag(j, n);
        MarkedSlots(j, n);
      }
      forall r | r in t.pruned ensures Covered(script, t.explored, r) {
        ExploreThrough(script, explored, q, r);
      }
    }

    /** What the children of a node say does not get less by setting a flag. */
    lemma KidsStay(n: ExecutionTree, m: ExecutionTree)
      requires n in heap && KidsCovered(m)
      ensures SetCovered(n, true).KidsCovered(m)
    {
    }

    /** If the last but one node is given up then the last one is covered by its flag or children. */
    lemma MarkedLast(j: nat)
      requires CanMark(j)
      ensures Marked(j).MarkedAt(j)
    {
      hide Tree.TreeShape, Tree.StackShape, Tree.CoverageExact, Tree.KidsCovered;
      assert Marked(j).EntryShape(j);
      if j + 2 == |path| {
        EntryPosition(j + 1);
        var n := stack[j + 1].parent;
        assert pos[n] == path[..j + 1] <= path;
        KidsTell(n, |path|);
        assert Marked(j).EntryShape(j + 1);
        if KidsCovered(n) { MarkedKids(j, n); }
      }
    }

    lemma MarkedKids(j: nat, m: ExecutionTree)
      requires CanMark(j) && KidsCovered(m)
      ensures Marked(j).KidsCovered(m)
    {
      KidsStay(stack[j].parent, m);
    }

    /** Giving up a node of an ended path leaves an ended path. */
    lemma MarkedEnds(j: nat)
      requires CanMark(j)
      ensures Marked(j).PathEnded()
    {
      hide Tree.TreeShape, Tree.StackShape, Tree.CoverageExact, Tree.MarkedAt;
      MarkedShape(j);
      MarkedCoverage(j);
      MarkedLast(j);
      ExploreThrough(script, explored, path[..j], path);
      assert Marked(j).EntryShape(|path| - 1);
    }

    /** What ending the path after k answers means, when it accounts for what lies below account. */
    ghost predicate EndsTo(t: Tree, k: nat, account: Path) {
      && 1 <= k <= |path| && t.PathEnded() && t.script == script && Drops(t, t.path)
      && t.path == (if k < |path| then path[..k + 1] else path)
      && t.explored == explored + LeavesThrough(script, account)
      && t.pruned == pruned + (if account == t.path then {} else {account})
      && t.made == made + [t.path]
    }

    lemma EndingEnds(k: nat)
      requires Valid() && Open() && 1 <= k <= |path|
      ensures EndsTo(EndedAt(k), k, EndedAt(k).path)
    {
      hide Tree.TreeShape, Tree.StackShape, Tree.CoverageExact;
      EndingAtValid(k);
      EndingAt(k).EndTipEnds();
      EndingDrops(k);
    }

    /** Ending a path frees what lies at or below its end. */
    lemma EndingDrops(k: nat)
      requires Valid() && Open() && 1 <= k <= |path|
      ensures Drops(EndedAt(k), EndedAt(k).path)
    {
      hide Tree.StackShape, Tree.CoverageExact;
      EndingAtValid(k);
      var u := EndingAt(k);
      u.TipFacts();
      u.EndTipKeys();
      assert EndedAt(k) == u.EndTip() && u.heap == heap && u.pos == pos;
      forall n | n in heap ensures n in pos { assert Shape(n); }
    }

    lemma EndTipKeys()
      requires CanEnd() && TreeShape()
      ensures EndTip().heap.Keys == heap.Keys - Below(path)
      ensures forall n :: n in EndTip().heap ==> n in pos && n in EndTip().pos && EndTip().pos[n] == pos[n]
    {
      forall n | n in heap ensures n in pos { assert Shape(n); }
    }

    lemma NoneAbove(p: Path)
      requires CoverageExact(0) && !Covered(script, explored, path) && p <= path
      ensures forall r :: r in pruned ==> !(r <= p)
    {
      NotPruned(path, 0);
    }

    /** One of the last two nodes of a path that has just been ended can be given up, if the branch
        taken there is covered. */
    lemma EndingMarks(k: nat, j: nat)
      requires Valid() && Open() && 1 <= k <= |path|
      requires j < |EndedAt(k).path| <= j + 2 && Covered(script, EndedAt(k).explored, EndedAt(k).path[..j + 1])
      ensures EndedAt(k).CanMark(j)
    {
      hide Tree.TreeShape, Tree.StackShape, Tree.CoverageExact, Tree.PathMarks, Tree.EndedAt, Covered;
      var t := EndedAt(k);
      EndingEnds(k);
      t.EntryPosition(j);
      NoneAbove(t.path);
    }

    /** The one early flag is that of the last node on the saved path, a forall node. */
    ghost predicate FlagAbove(early: set<ExecutionTree>) {
      && |path| >= 2 && EntryShape(|path| - 1) && early == {stack[|path| - 1].parent}
      && heap[stack[|path| - 1].parent].kind.Forall?
    }

    /** Early flags after k answers: none, or that of the last node on the saved path, which has not
        been replayed; and perhaps that of the node above it, of which nothing else is open. */
    ghost predicate FlagsAhead(early: set<ExecutionTree>, k: nat) {
      early != {} ==>
        && k < |path| && |path| >= 2 && EntryShape(|path| - 1)
        && heap[stack[|path| - 1].parent].kind.Forall?
        && var f := stack[|path| - 1].parent;
           early == {f} || (k + 2 == |path| && FlaggedAbove(early, f, k))
    }

    ghost predicate FlaggedAbove(early: set<ExecutionTree>, f: ExecutionTree, k: nat)
      requires k < |path|
    {
      && EntryShape(k) && early == {f, stack[k].parent}
      && IsPos(script, path[..k]) && At(script, path[..k]).Step? && OthersCovered(script, explored, path[..k], path[k])
    }

    /** The early flag is that of the last but one node on the ended path, a forall node, and the
        branch that the path takes there is open. */
    ghost predicate OpenFlag(early: set<ExecutionTree>) {
      && |path| >= 2 && EntryShape(|path| - 2) && early == {stack[|path| - 2].parent}
      && heap[stack[|path| - 2].parent].kind.Forall?
      && !Covered(script, explored, path[..|path| - 1])
    }

    /** A forall node is not the root. */
    lemma ForallBelowRoot(j: nat)
      requires TreeShape() && StackShape() && j < |path| && EntryShape(j) && heap[stack[j].parent].kind.Forall?
      ensures j > 0
    {
      FirstEntry();
      ShapeOf(root);
      assert StandsFor(root);
    }

    lemma SameFlagOpen(u: Tree, early: set<ExecutionTree>)
      requires OpenFlag(early) && SameButFlags(u)
      ensures u.OpenFlag(early)
    {
      assert u.EntryShape(|path| - 2);
    }

    /** Backtracking stops right below that node, which becomes the last one on the saved path. */
    lemma FlagStaysOnTop(early: set<ExecutionTree>)
      requires PathEnded() && OpenFlag(early)
      ensures Backtracked(|path|, false).FlagAbove(early)
    {
      hide Tree.CoverageExact, Tree.PathMarks;
      ForallBelowRoot(|path| - 2);
      var v := Backtracked(|path|, false);
      assert v.stack == stack[..|path| - 1] && v.path == path[..|path| - 1];
      assert v.path[..|path| - 2] == path[..|path| - 2];
      assert v.EntryShape(|path| - 2);
    }

    /** The last node of a path that is ended after k answers. */
    lemma EndedNode(k: nat)
      requires Valid() && Open() && 1 <= k <= |path|
      ensures var t := EndedAt(k);
              && |t.path| >= 1 && t.EntryShape(|t.path| - 1)
              && t.stack[|t.path| - 1] == stack[|t.path| - 1]
    {
      hide Tree.TreeShape, Tree.StackShape, Tree.CoverageExact, Tree.EndedAt, Tree.PathMarks;
      EndingEnds(k);
    }

    /** The node that was flagged early is deleted if the path is ended above it. */
    lemma FlagGone(k: nat)
      requires Valid() && Open() && 1 <= k && k + 1 < |path|
      ensures EntryShape(|path| - 1) && stack[|path| - 1].parent !in EndedAt(k).heap
    {
      hide Tree.TreeShape, Tree.StackShape, Tree.CoverageExact, Tree.EndedAt;
      EntryPosition(|path| - 1);
      assert EndedAt(k).path <= path[..|path| - 1];
      GoneAtEnd(k, stack[|path| - 1].parent);
    }

    /** The node above it, if it took itself for covered, is covered when the path is ended there. */
    lemma FlagClosed(early: set<ExecutionTree>, f: ExecutionTree, k: nat)
      requires Valid() && Open() && 1 <= k && k + 2 == |path| && FlaggedAbove(early, f, k)
      ensures Covered(script, EndedAt(k).explored, EndedAt(k).path[..|EndedAt(k).path| - 1])
      ensures |EndedAt(k).path| == k + 1
    {
      hide Tree.TreeShape, Tree.StackShape, Tree.CoverageExact, Tree.EndedAt, OthersCovered, Covered;
      var t := EndedAt(k);
      assert t.path == path[..k] + [path[k]] && t.path[..k] == path[..k];
      OthersAndPath(path[..k], path[k]);
    }

    /** A run that ends in a closed branch, when no early flag is in the way. */
    lemma ClosedEnds(k: nat, flagged: bool)
      requires Valid() && Open() && 1 <= k <= |path| && (flagged ==> k + 1 < |path|)
      requires Closes(script, explored, path, flagged, path[..k])
      ensures |EndedAt(k).path| <= k + 1 && k <= |EndedAt(k).path|
      ensures Covered(script, EndedAt(k).explored, EndedAt(k).path[..k]) && EndedAt(k).path[..k] == path[..k]
      ensures Base(path, flagged, path[..k]) == EndedAt(k).path
    {
      hide Tree.TreeShape, Tree.StackShape, Tree.CoverageExact, Tree.EndedAt, Covered;
      assert k == |path| ==> path[..k] == path;
      assert EndedAt(k).path[..k] == path[..k];
    }

    /** Past the replay the branch taken last is always closed. */
    lemma OpenEnds(k: nat, flagged: bool)
      requires Valid() && Open() && 1 <= k <= |path| && (flagged ==> k + 1 < |path|)
      requires !Closes(script, explored, path, flagged, path[..k])
      ensures k < |path| && EndedAt(k).path == path[..k + 1] == Base(path, flagged, path[..k])
      ensures EndedAt(k).path[..k] == path[..k] && !Covered(script, EndedAt(k).explored, path[..k])
    {
      hide Tree.TreeShape, Tree.StackShape, Tree.CoverageExact, Tree.EndedAt;
      if k == |path| {
        assert path[..k] == path;
        ExploreThrough(script, explored, path, path);
      }
    }

    /** The node above the last answer stays on the ended path. */
    lemma SelectStays(k: nat)
      requires Valid() && Open() && 1 <= k <= |path|
      ensures EntryShape(k - 1) && k - 1 < |EndedAt(k).path| && EndedAt(k).EntryShape(k - 1)
      ensures EndedAt(k).stack[k - 1] == stack[k - 1]
      ensures EndedAt(k).path[..k - 1] == path[..k - 1]
    {
      hide Tree.TreeShape, Tree.StackShape, Tree.CoverageExact, Tree.EndedAt, Tree.PathMarks;
      EntryPosition(k - 1);
      EndingEnds(k);
      EndedAt(k).EntryPosition(k - 1);
    }

    /** The flag of a node on the path tells, once all flags have been propagated. */
    lemma FlagOnPath(j: nat)
      requires TreeShape() && StackShape() && CoverageExact(0) && PathMarks() && j < |path|
      ensures EntryShape(j)
      ensures !Covered(script, explored, path[..j]) ==> !heap[stack[j].parent].covered
      ensures Covered(script, explored, path[..j]) && (!BelowPruned(path[..j])) ==> heap[stack[j].parent].covered
    {
      EntryPosition(j);
      if !Covered(script, explored, path[..j]) { NotPruned(path[..j], 0); }
      assert FlagExact(stack[j].parent, 0);
    }

    lemma OthersAndPath(p: Path, l: nat)
      requires IsPos(script, p) && At(script, p).Step? && OthersCovered(script, explored, p, l)
      ensures Covered(script, explored + LeavesThrough(script, p + [l]), p)
    {
      var e := explored + LeavesThrough(script, p + [l]);
      CoveredByKids(script, e, p);
      forall v: nat | v < |At(script, p).next| ensures Covered(script, e, p + [v]) {
        ExploreThrough(script, explored, p + [l], p + [v]);
      }
    }

    /** What lies at or below the end of the path is deleted. */
    lemma GoneAtEnd(k: nat, n: ExecutionTree)
      requires Valid() && Open() && 1 <= k <= |path| && n in heap && n in pos && EndedAt(k).path <= pos[n]
      ensures n !in EndedAt(k).heap
    {
      EndingAtValid(k);
      var u := EndingAt(k);
      u.TipFacts();
      if n in u.EndTip().heap {
        u.EndTipRecord(n);
      }
    }

    lemma MoreBelow(p: Path, q: Path)
      requires p <= q
      ensures explored + LeavesThrough(script, q) + LeavesThrough(script, p) == explored + LeavesThrough(script, p)
    {
    }

    lemma MarkingEnds(t: Tree, k: nat, j: nat)
      requires EndsTo(t, k, t.path) && t.CanMark(j)
      ensures EndsTo(t.Marked(j), k, t.path[..j])
    {
      hide Tree.TreeShape, Tree.StackShape, Tree.CoverageExact, Tree.PathEnded, LeavesThrough, Covered;
      t.MarkedEnds(j);
      MoreBelow(t.path[..j], t.path);
      DropsSame(t, t.Marked(j), t.path);
    }

    /** When the last node of an ended path is covered its flag may be set at once. */
    lemma FlagEnds()
      requires PathEnded() && Covered(script, explored, path[..|path| - 1])
      ensures SetCovered(stack[|path| - 1].parent, true).PathEnded()
    {
      hide Tree.TreeShape, Tree.StackShape, Tree.CoverageExact, Tree.MarkedAt;
      var m := |path|;
      var n := stack[m - 1].parent;
      var t := SetCovered(n, true);
      SetCoveredShape(n, true);
      SetCoveredExact(m - 1);
      t.MoreStale(m - 1, m);
      assert t.EntryShape(m - 1);
      forall r | r in pruned && r <= path ensures t.MarkedAt(|r|) {
        StepKeepsMarks(m, |r|);
      }
    }

    lemma FlaggingEnds(t: Tree, k: nat, account: Path)
      requires EndsTo(t, k, account) && Covered(t.script, t.explored, t.path[..|t.path| - 1])
      ensures EndsTo(t.SetCovered(t.stack[|t.path| - 1].parent, true), k, account)
    {
      hide Tree.TreeShape, Tree.StackShape, Tree.CoverageExact, Tree.PathMarks;
      t.FlagEnds();
    }

    /** The tree after the flags of some stack nodes were computed: nothing else differs. */
    ghost predicate SameButFlags(t: Tree) {
      && t == this.(heap := t.heap) && t.heap.Keys == heap.Keys
      && forall n :: n in heap ==>
           t.heap[n] == heap[n].(covered := t.heap[n].covered) && (heap[n].covered ==> t.heap[n].covered)
    }

    lemma SetCoveredSameButFlags(t: Tree, n: ExecutionTree, b: bool)
      requires SameButFlags(t) && n in t.heap && (t.heap[n].covered ==> b)
      ensures SameButFlags(t.SetCovered(n, b))
      ensures t.SetCovered(n, b).stack == t.stack && t.SetCovered(n, b).path == t.path
    {
    }

    lemma StarHasTwo(n: ExecutionTree)
      requires TreeShape() && n in heap
      ensures heap[n].kind.Star? ==> |heap[n].children| == 2
    {
      assert Shape(n) && StandsFor(n);
      AtWellFormed(script, pos[n]);
    }

    lemma KidsLive(n: ExecutionTree)
      requires TreeShape() && n in heap
      ensures forall c :: c in heap[n].children ==> c == null || c == endNode || c in heap
    {
      assert Shape(n);
      forall c | c in heap[n].children ensures c == null || c == endNode || c in heap {
        var i := IndexIn(heap[n].children, c);
        assert SlotShape(n, i);
      }
    }

    lemma KidsDeeper(n: ExecutionTree, c: ExecutionTree?)
      requires TreeShape() && n in heap && n in pos && c in heap[n].children
      ensures c == null || c == endNode || (c in heap && c in pos && |pos[c]| == |pos[n]| + 1)
    {
      ShapeOf(n);
      var i := IndexIn(heap[n].children, c);
      assert SlotShape(n, i);
    }

    ghost predicate CoveredFrom(h: nat) {
      forall j :: h <= j <= |path| ==> Covered(script, explored, path[..j])
    }

    /** Where the propagation of coverage stands: everything from depth h on is covered, and the
        flags of the first h nodes are still to be computed. */
    ghost predicate PropagatedTo(h: nat) {
      && TreeShape() && StackShape() && h <= |path| && CoverageExact(h)
      && CoveredFrom(h) && PathMarks()
    }

    /** The loop goes on above the h-th node, or stopped there because of an uncovered node. */
    ghost predicate Propagating(h: nat, cov: bool) {
      PropagatedTo(h) && (!cov ==> Propagated(h) && h > 0)
    }

    /** All flags are exact again, and the h-1st node of the stack is the lowest uncovered one. */
    ghost predicate Propagated(h: nat) {
      PropagatedTo(h) && CoverageExact(0) && (h > 0 ==> !Covered(script, explored, path[..h - 1]))
    }

    lemma PathEndedPropagated()
      requires PathEnded()
      ensures PropagatedTo(|path|)
    {
      assert path[..|path|] == path;
    }

    /** A given-up node at or above the h-1st node of the stack. */
    lemma MarkOnPath(h: nat, r: Path)
      requires PropagatedTo(h) && h >= 1 && r in pruned && r <= path[..h - 1]
      ensures EntryShape(h - 1)
      ensures heap[stack[h - 1].parent].covered || KidsCovered(stack[h - 1].parent)
      ensures |r| == h - 1 ==> heap[stack[h - 1].parent].covered
    {
      hide Tree.TreeShape, Tree.StackShape, Tree.CoverageExact, Tree.KidsCovered;
      EntryPosition(h - 1);
      assert r <= path && MarkedAt(|r|);
      assert |r| == h - 1 || |r| == h - 2;
    }

    lemma NodeOnPath(h: nat)
      requires PropagatedTo(h) && h >= 1
      ensures EntryShape(h - 1)
      ensures var n := stack[h - 1].parent;
              && n in pos && pos[n] == path[..h - 1]
              && (InPruned(pos[n]) ==>
                    && (heap[n].covered || KidsCovered(n)) && Covered(script, explored, pos[n])
                    && (!BelowPruned(pos[n]) ==> heap[n].covered))
    {
      hide Tree.TreeShape, Tree.StackShape, Tree.PathMarks, Tree.KidsCovered;
      EntryPosition(h - 1);
      var n := stack[h - 1].parent;
      if InPruned(pos[n]) {
        var r :| r in pruned && r <= pos[n];
        CoveredBelow(script, explored, r, pos[n]);
        MarkOnPath(h, r);
        assert r < pos[n] || |r| == h - 1;
      }
    }

    lemma KidsTellOnPath(h: nat)
      requires PropagatedTo(h) && h >= 1
      ensures EntryShape(h - 1)
      ensures var n := stack[h - 1].parent;
              heap[n].covered || KidsCovered(n) <==> Covered(script, explored, path[..h - 1])
    {
      hide Tree.StackShape, Tree.CoverageExact, Tree.KidsCovered, Tree.PathMarks;
      NodeOnPath(h);
      var n := stack[h - 1].parent;
      if InPruned(pos[n]) {
      } else {
        NotBelow(pos[n]);
        KidsTell(n, h);
      }
    }

    lemma NotBelow(p: Path)
      requires !InPruned(p)
      ensures !BelowPruned(p)
    {
    }

    /** One step of the propagation, at the h-1st node of the stack. */
    lemma PropagateStep(h: nat)
      requires PropagatedTo(h) && h >= 1
      ensures EntryShape(h - 1)
      ensures var n := stack[h - 1].parent;
              var b := Covered(script, explored, path[..h - 1]);
              && (heap[n].covered || KidsCovered(n) <==> b)
              && (b ==> SetCovered(n, true).PropagatedTo(h - 1))
              && (!b ==> CoverageExact(0) && SetCovered(n, false) == this)
    {
      hide Tree.TreeShape, Tree.StackShape, Tree.CoverageExact, Tree.KidsCovered;
      EntryPosition(h - 1);
      KidsTellOnPath(h);
      if Covered(script, explored, path[..h - 1]) {
        StepCovered(h);
      } else {
        StepUncovered(h);
      }
    }

    lemma StepKeepsMarks(h: nat, j: nat)
      requires 1 <= h <= |path| && EntryShape(h - 1) && MarkedAt(j)
      ensures SetCovered(stack[h - 1].parent, true).MarkedAt(j)
    {
      hide Tree.KidsCovered;
      var t := SetCovered(stack[h - 1].parent, true);
      assert t.EntryShape(j);
      if j + 2 == |path| {
        assert t.EntryShape(j + 1);
        if KidsCovered(stack[j + 1].parent) { KidsStay(stack[h - 1].parent, stack[j + 1].parent); }
      }
    }

    lemma StepCovered(h: nat)
      requires PropagatedTo(h) && h >= 1 && EntryShape(h - 1) && Covered(script, explored, path[..h - 1])
      ensures SetCovered(stack[h - 1].parent, true).PropagatedTo(h - 1)
    {
      hide Tree.TreeShape, Tree.StackShape, Tree.CoverageExact, Tree.MarkedAt;
      var n := stack[h - 1].parent;
      SetCoveredShape(n, true);
      SetCoveredExact(h - 1);
      forall r | r in pruned && r <= path ensures SetCovered(n, true).MarkedAt(|r|) {
        StepKeepsMarks(h, |r|);
      }
    }

    lemma StepUncovered(h: nat)
      requires PropagatedTo(h) && h >= 1 && EntryShape(h - 1) && !Covered(script, explored, path[..h - 1])
      requires !heap[stack[h - 1].parent].covered
      ensures CoverageExact(0) && SetCovered(stack[h - 1].parent, false) == this
    {
      hide Tree.TreeShape, Tree.StackShape;
      var n := stack[h - 1].parent;
      SetCoveredExact(h - 1);
      assert heap[n].(covered := false) == heap[n];
      assert heap[n := heap[n]] == heap;
      UncoveredAbove(h - 1);
    }

    /** Where the propagation stops is where the reference definition says. */
    lemma LowestIs(h: nat)
      requires PropagatedTo(h) && CoverageExact(0)
      requires h > 0 ==> !Covered(script, explored, path[..h - 1])
      ensures LowestUncovered(script, explored, path, |path|) == (if h > 0 then path[..h - 1] else [])
      ensures h == 0 <==> Covered(script, explored, [])
    {
      LowestIsAt(h, |path|);
      assert path[..0] == [];
      if h > 0 { CoveredBelow(script, explored, [], path[..h - 1]); }
    }

    lemma {:induction false} LowestIsAt(h: nat, k: nat)
      requires h <= k + 1 && h <= |path| && k <= |path|
      requires CoveredFrom(h) && (h > 0 ==> !Covered(script, explored, path[..h - 1]))
      ensures LowestUncovered(script, explored, path, k) == (if h > 0 then path[..h - 1] else [])
    {
      if k >= h && k > 0 {
        LowestIsAt(h, k - 1);
      }
    }

    lemma RootFlag()
      requires TreeShape() && CoverageExact(0)
      ensures heap[root].covered <==> Covered(script, explored, [])
    {
      assert FlagExact(root, 0);
    }

    /** The tree after cutting: the end node in the slot of entry h-1, and nothing below it. */
    ghost function Cut(h: nat): Tree
      requires 1 <= h <= |path| <= |stack| && EntryShape(h - 1)
    {
      var t := Truncate(h).Collapse();
      this.(heap := t.heap, pos := t.pos)
    }

    /** The tree with the link to the end node at the tip of the path removed. */
    ghost function Detached(): Tree
      requires |path| >= 1 && EntryShape(|path| - 1)
    {
      var n, i := stack[|path| - 1].parent, stack[|path| - 1].childIndex;
      this.(heap := heap[n := heap[n].(children := heap[n].children[i := null])])
    }

    /** The subtree below entry h-1 can be cut off and deleted. */
    ghost predicate Cuttable(h: nat) {
      && 1 <= h < |path| && EntryShape(h - 1) && EntryShape(|path| - 1) && h < |stack|
      && var o, n, c := stack[h - 1].parent, stack[|path| - 1].parent, stack[h].parent;
      && o != n && o !in Below(path[..h]) && n in Below(path[..h])
      && heap[o].children[stack[h - 1].childIndex] == c
      && heap[n].children[stack[|path| - 1].childIndex] == endNode
      && c in heap && c in pos && pos[c] == path[..h]
      && Detached().Deletable(c) && Detached().StandsFor(c)
      && Detached().Below(path[..h]) == Below(path[..h])
    }

    lemma CutFacts(h: nat)
      requires PathEnded() && 1 <= h < |path|
      ensures Cuttable(h)
    {
      assert EntryShape(h) && LinkShape(h - 1);
      EntryPosition(h - 1);
      assert path[..h] <= path[..|path| - 1];
      TruncateShape(h);
      var u := Truncate(h);
      u.BelowTip();
      assert u.Tip() == stack[h - 1];
      assert u.Deletable(stack[h].parent);
      DeletableFrame(u, stack[h].parent);
      EmptySlotDeletable(stack[|path| - 1].parent, stack[|path| - 1].childIndex, stack[h].parent);
    }

    /** What cutting at h changes, and what is deleted. */
    lemma CutFrame(h: nat)
      requires Cuttable(h) && |path| <= |stack|
      ensures 1 <= h <= |path| <= |stack| && h < |stack| && EntryShape(h - 1) && EntryShape(|path| - 1)
      ensures var d, t', c := Detached(), Cut(h), stack[h].parent;
              && d.endNode == endNode && d.Deletable(c) && d.StandsFor(c)
              && d.Below(d.pos[c]) == Below(path[..h])
              && t'.heap.Keys == heap.Keys - Below(path[..h])
              && t' == this.(heap := t'.heap, pos := t'.pos)
    {
      hide Tree.Deletable, Tree.StandsFor;
    }

    lemma DeletableFrame(u: Tree, c: ExecutionTree)
      requires u.Deletable(c) && u == this.(stack := u.stack, path := u.path)
      ensures Deletable(c)
    {
      forall m, m' | m in heap && m' in heap && SamePosition(m, m') ensures m == m' {
        assert u.SamePosition(m, m');
      }
      forall m | m in heap && pos[c] <= pos[m]
        ensures StandsFor(m) && SlotsShape(m)
        ensures m != c ==> m != root && UpShape(m) && heap[m].parent in pos && pos[c] <= pos[heap[m].parent]
      {
        assert u.StandsFor(m) && (m != c ==> u.UpShape(m) && UpShape(m));
        forall j | 0 <= j < |heap[m].children| ensures SlotShape(m, j) {
          assert u.SlotShape(m, j);
        }
      }
    }

    /** The stack after backtracking above the h-th node, which is covered while the node above it
        is not; with cut, the covered subtree makes way for the end node. */
    ghost function Backtracked(h: nat, cut: bool): (t: Tree)
      requires h <= |path| <= |stack|
      requires h > 0 ==> EntryShape(h - 1)
    {
      if h == 0 then Truncate(0) else (if cut then Cut(h) else this).Truncate(h - 1)
    }

    lemma BacktrackedFields(h: nat, cut: bool)
      requires h <= |path| <= |stack| && (h > 0 ==> EntryShape(h - 1)) && (cut ==> h > 0)
      ensures var t := Backtracked(h, cut);
              && t.root == root && t.endNode == endNode && t.stack == stack[..if h > 0 then h - 1 else 0]
              && t.heap == if cut then Cut(h).heap else heap
      ensures cut ==> Cut(h).stack == stack && Cut(h).root == root && Cut(h).endNode == endNode
    {
      hide Tree.Collapse;
    }

    /** The highest covered entry of the stack is h; the entry above it is not covered. */
    ghost predicate StopsAt(h: nat) {
      && TreeShape() && StackShape() && CoverageExact(0) && 1 <= h <= |path|
      && !Covered(script, explored, path[..h - 1]) && Covered(script, explored, path[..h])
    }

    lemma StopsBelowRoot(h: nat)
      requires StopsAt(h)
      ensures h >= 2 && EntryShape(h - 1) && |path| <= |stack|
    {
      FirstEntry();
      EntryPosition(h - 1);
    }

    lemma CutKeeps(h: nat)
      requires StopsAt(h)
      ensures h >= 2 && EntryShape(h - 1)
      ensures var t := Cut(h);
              && t.heap.Keys <= heap.Keys && t.Truncate(h).TreeShape() && t.Truncate(h).StackShape()
              && t.Truncate(h).CoverageExact(0)
              && forall n :: n in t.heap ==> t.heap[n].covered == heap[n].covered
    {
      StopsBelowRoot(h);
      TruncateShape(h);
      var u := Truncate(h);
      u.TipFacts();
      u.CollapseShape();
      u.CollapseCovered();
      assert u.Collapse() == Cut(h).Truncate(h);
    }

    lemma BacktrackedByCut(h: nat)
      requires StopsAt(h)
      ensures h >= 2 && EntryShape(h - 1)
      ensures Backtracked(h, true).TreeShape() && Backtracked(h, true).StackShape()
      ensures Backtracked(h, true).CoverageExact(0) && Backtracked(h, true).heap.Keys <= heap.Keys
      ensures forall n :: n in Backtracked(h, true).heap ==> Backtracked(h, true).heap[n].covered == heap[n].covered
    {
      hide Tree.TreeShape, Tree.StackShape, Tree.CoverageExact, Tree.Collapse;
      StopsBelowRoot(h);
      CutKeeps(h);
      Cut(h).Truncate(h).TruncateShape(h - 1);
      assert path[..h][..h - 1] == path[..h - 1];
      assert Cut(h).Truncate(h).Truncate(h - 1) == Backtracked(h, true);
    }

    lemma BacktrackedValid(h: nat, cut: bool)
      requires StopsAt(h)
      ensures h >= 2 && EntryShape(h - 1)
      ensures Backtracked(h, cut).Valid() && Backtracked(h, cut).Open()
      ensures Backtracked(h, cut).heap.Keys <= heap.Keys
      ensures forall n :: n in Backtracked(h, cut).heap ==> Backtracked(h, cut).heap[n].covered == heap[n].covered
    {
      hide Tree.TreeShape, Tree.StackShape, Tree.CoverageExact;
      StopsBelowRoot(h);
      if cut {
        BacktrackedByCut(h);
      } else {
        TruncateShape(h - 1);
      }
    }

    /** What backtracking from this finished path does: the stack keeps the entries strictly above
        the lowest position that is not covered, nodes are only removed, and no flag is cleared. */
    ghost predicate BacktracksTo(t: Tree, delete: bool) {
      && t.script == script && t.root == root && t.endNode == endNode
      && t.explored == explored && t.pruned == pruned && t.made == made
      && t.path == LowestUncovered(script, explored, path, |path|)
      && |t.path| <= |stack| && t.stack == stack[..|t.path|]
      && (if delete && !Covered(script, explored, []) && |t.path| < |path| then Drops(t, path[..|t.path| + 1])
          else SameNodes(t))
      && forall n :: n in t.heap && heap[n].covered ==> t.heap[n].covered
    }

    /** Where backtracking stops, and what holds there. */
    lemma BacktrackStops(u: Tree, h: nat, cut: bool)
      requires PathEnded() && SameButFlags(u) && u.PropagatedTo(h) && u.CoverageExact(0)
      requires cut ==> 1 <= h < |path|
      requires h > 0 ==> !Covered(script, explored, path[..h - 1])
      ensures h <= |path| <= |u.stack| && (h > 0 ==> h >= 2 && u.EntryShape(h - 1))
      ensures var t := u.Backtracked(h, cut);
              && t.Valid() && (h > 0 ==> t.Open()) && (t.heap[t.root].covered <==> h == 0)
              && t.path == LowestUncovered(script, explored, path, |path|) && |t.path| == (if h > 0 then h - 1 else 0)
              && forall n :: n in t.heap ==> n in u.heap && t.heap[n].covered == u.heap[n].covered
      ensures h == 0 <==> Covered(script, explored, [])
    {
      hide Tree.TreeShape, Tree.StackShape, Tree.CoverageExact;
      u.LowestIs(h);
      if h > 0 {
        assert u.StopsAt(h);
        u.BacktrackedValid(h, cut);
      } else {
        u.TruncateShape(0);
      }
      u.Backtracked(h, cut).RootFlag();
    }

    lemma Backtracks(u: Tree, h: nat, delete: bool, cut: bool)
      requires PathEnded() && SameButFlags(u) && u.PropagatedTo(h) && u.CoverageExact(0)
      requires cut == (delete && 1 <= h < |path|)
      requires h > 0 ==> !Covered(script, explored, path[..h - 1])
      ensures h > 0 ==> h >= 2 && u.EntryShape(h - 1)
      ensures var t := u.Backtracked(h, cut);
              && t.Valid() && BacktracksTo(t, delete)
              && (h > 0 ==> t.Open())
              && (t.heap[t.root].covered <==> h == 0)
              && (h == 0 <==> Covered(script, explored, []))
    {
      hide Tree.Valid, Tree.Open, Tree.CoverageExact, Tree.Drops, Tree.SameNodes, Tree.PathEnded, Tree.PropagatedTo,
           Tree.EntryShape;
      BacktrackStops(u, h, cut);
      NodesLeft(u, h, delete, cut);
    }

    lemma NodesLeft(u: Tree, h: nat, delete: bool, cut: bool)
      requires PathEnded() && SameButFlags(u) && h <= |path| && (h > 0 ==> u.EntryShape(h - 1))
      requires cut == (delete && 1 <= h < |path|)
      ensures if delete && h > 0 then Drops(u.Backtracked(h, cut), path[..h]) else SameNodes(u.Backtracked(h, cut))
    {
      hide Tree.PathEnded, Tree.EntryShape, Tree.Backtracked;
      BacktrackDrops(u, h, cut);
      if h == |path| { assert path[..h] == path; }
    }

    /** What is gone after backtracking; nothing hangs at the end of an ended path. */
    lemma BacktrackDrops(u: Tree, h: nat, cut: bool)
      requires PathEnded() && SameButFlags(u) && h <= |path| && (cut ==> 1 <= h) && (h > 0 ==> u.EntryShape(h - 1))
      ensures if cut then Drops(u.Backtracked(h, cut), path[..h]) else SameNodes(u.Backtracked(h, cut))
      ensures Below(path) == {} && u.Below(path[..h]) == Below(path[..h])
    {
      NothingAtEnd();
      var t := u.Backtracked(h, cut);
      forall n | n in heap ensures n in pos { assert Shape(n); }
      if cut { u.CutKeys(h); }
    }

    lemma CutKeys(h: nat)
      requires 1 <= h <= |path| <= |stack| && EntryShape(h - 1) && forall n :: n in heap ==> n in pos
      ensures Cut(h).heap.Keys == heap.Keys - Below(path[..h])
      ensures forall n :: n in Cut(h).heap ==> n in Cut(h).pos && Cut(h).pos[n] == pos[n]
    {
      assert Truncate(h).Below(path[..h]) == Below(path[..h]);
    }

    lemma NothingAtEnd()
      requires PathEnded()
      ensures Below(path) == {}
    {
      TruncateShape(|path|);
      var u := Truncate(|path|);
      assert u.path == path && u.Tip() == stack[|path| - 1];
      u.BelowTip();
      assert u.Below(path) == Below(path);
    }

    // -------------------------------------------------------------- no covered node is kept

    /** Every live node still has something unexplored at or below it. */
    ghost predicate Lean() {
      forall n :: n in heap ==> n in pos && !Covered(script, explored, pos[n])
    }

    /** No live node is flagged, and a slot has the end node exactly when its branch is covered. */
    lemma LeanMeans(n: ExecutionTree, i: nat)
      requires Valid() && Lean() && n in heap && i < |heap[n].children|
      ensures !heap[n].covered && n in pos && i < |heap[n].idxToVar|
      ensures heap[n].children[i] == endNode <==> Covered(script, explored, pos[n] + [heap[n].idxToVar[i]])
    {
      assert Shape(n) && SlotShape(n, i) && FlagExact(n, 0) && SlotsExact(n) && SlotExact(n, i);
      if BelowPruned(pos[n]) {
        var r :| r in pruned && r < pos[n];
        CoveredBelow(script, explored, r, pos[n]);
        assert false;
      }
      var c, q := heap[n].children[i], pos[n] + [heap[n].idxToVar[i]];
      if c == null {
        if r :| r in pruned && r <= pos[n] { CoveredBelow(script, explored, r, pos[n]); }
        AtStep(script, pos[n], heap[n].idxToVar[i]);
        UntouchedNotCovered(script, explored, q);
      }
    }

    /** A node that is added stands for an uncovered position. */
    lemma AddNodeLean(node: ExecutionTree, rec: Record, i: nat, k: nat)
      requires Valid() && Open() && MayFollow(node, rec, k) && i < |rec.idxToVar|
      ensures Lean() ==> AddNode(node, rec, i, k).Lean()
    {
      hide Tree.TreeShape, Tree.StackShape, Tree.CoverageExact;
      CoveredBelow(script, explored, path[..k], path);
    }

    /** What a run accounts for makes only those nodes covered that lie above or below it. */
    lemma CoveredByRun(n: ExecutionTree, e: set<Path>, account: Path)
      requires Lean() && n in heap && n in pos && e == explored + LeavesThrough(script, account)
      ensures Covered(script, e, pos[n]) ==> pos[n] <= account || account <= pos[n]
    {
      ExploreThrough(script, explored, account, pos[n]);
    }

    /** After a run that ended at p, when what was dropped is all that lies at or below the topmost covered
        node on p, no covered node is kept. */
    lemma StaysLean(t: Tree, account: Path, p: Path)
      requires Lean() && t.script == script && t.explored == explored + LeavesThrough(script, account) && account <= p
      requires !Covered(script, t.explored, []) && |t.path| < |p|
      requires t.path == LowestUncovered(script, t.explored, p, |p|) && Drops(t, p[..|t.path| + 1])
      ensures t.Lean()
    {
      var top := p[..|t.path| + 1];
      assert !Covered(script, t.explored, t.path) && t.path == p[..|t.path|];
      assert top <= account by {
        if |account| <= |t.path| {
          ExploreThrough(script, explored, account, account);
          CoveredBelow(script, t.explored, account, t.path);
        }
      }
      forall n | n in t.heap ensures n in t.pos && !Covered(script, t.explored, t.pos[n]) {
        CoveredByRun(n, t.explored, account);
        assert n !in Below(top) && !(top <= pos[n]);
        if Covered(script, t.explored, pos[n]) && pos[n] <= account && |pos[n]| <= |t.path| {
          CoveredBelow(script, t.explored, pos[n], t.path);
        }
      }
    }

    lemma PathEndedKept(t: Tree, h: nat)
      requires PathEnded() && SameButFlags(t) && t.PropagatedTo(h) && t.CoverageExact(0)
      ensures t.PathEnded()
    {
      t.MoreStale(0, |path|);
      EntryPosition(|path| - 1);
      assert t.EntryShape(|path| - 1);
      assert t.path[..|path|] == path;
    }

    /** Emptying a slot that holds the end node does not make anything undeletable. */
    lemma EmptySlotDeletable(n: ExecutionTree, i: nat, c: ExecutionTree)
      requires Deletable(c) && n in heap && i < |heap[n].children| && heap[n].children[i] == endNode
      ensures var d := this.(heap := heap[n := heap[n].(children := heap[n].children[i := null])]);
              d.Deletable(c) && d.StandsFor(c) && d.Below(pos[c]) == Below(pos[c])
    {
      var d := this.(heap := heap[n := heap[n].(children := heap[n].children[i := null])]);
      assert StandsFor(c);
      forall m, m' | m in d.heap && m' in d.heap && d.SamePosition(m, m') ensures m == m' {
        assert SamePosition(m, m');
      }
      forall m | m in d.heap && pos[c] <= pos[m]
        ensures d.StandsFor(m) && d.SlotsShape(m)
        ensures m != c ==> m != root && d.UpShape(m) && d.heap[m].parent in pos && pos[c] <= pos[d.heap[m].parent]
      {
        assert StandsFor(m);
        forall j | 0 <= j < |d.heap[m].children| ensures d.SlotShape(m, j) {
          assert SlotShape(m, j);
        }
        if m != c {
          var q := heap[m].parent;
          var j := IndexIn(heap[q].children, m);
          assert d.heap[q].children[j] == m && m in d.heap[q].children;
        }
      }
    }

    // -------------------------------------------------------------- what holds between operations

    /** A node is flagged covered exactly when every complete run through it is explored; an empty
        slot has nothing explored below it, and a slot with the end node has everything explored.
        Only below a forall node that was given up as a whole, where the search never goes again,
        flags may be false and slots empty. */
    lemma FlagsAreExact(n: ExecutionTree)
      requires Valid() && n in heap
      ensures n in pos && |heap[n].children| == |heap[n].idxToVar|
      ensures !BelowPruned(pos[n]) ==> (heap[n].covered <==> Covered(script, explored, pos[n]))
      ensures forall i :: 0 <= i < |heap[n].children| ==>
                && (heap[n].children[i] == null ==>
                      InPruned(pos[n]) || Untouched(script, explored, pos[n] + [heap[n].idxToVar[i]]))
                && (heap[n].children[i] == endNode ==> Covered(script, explored, pos[n] + [heap[n].idxToVar[i]]))
      ensures InPruned(pos[n]) ==> pruned != {} && Covered(script, explored, pos[n])
    {
      assert FlagExact(n, 0) && SlotsExact(n) && Shape(n) && StandsFor(n);
      forall i | 0 <= i < |heap[n].children|
        ensures heap[n].children[i] == null ==>
                  InPruned(pos[n]) || Untouched(script, explored, pos[n] + [heap[n].idxToVar[i]])
        ensures heap[n].children[i] == endNode ==> Covered(script, explored, pos[n] + [heap[n].idxToVar[i]])
      {
        assert SlotExact(n, i);
      }
      if !Covered(script, explored, pos[n]) {
        NotPruned(pos[n], 0);
      }
    }

    /** A live node other than the root occupies exactly one slot, that of its parent pointer. */
    lemma OneSlotEach(m: ExecutionTree, n: ExecutionTree, i: nat)
      requires TreeShape() && m in heap && m != root
      ensures heap[m].parent != null && heap[m].parent in heap && m in heap[heap[m].parent].children
      ensures n in heap && i < |heap[n].children| && heap[n].children[i] == m ==>
                n == heap[m].parent && forall j :: 0 <= j < |heap[n].children| && heap[n].children[j] == m ==> j == i
    {
      var p, k := OwnSlot(m);
      if n in heap && i < |heap[n].children| && heap[n].children[i] == m {
        forall j | 0 <= j < |heap[n].children| && heap[n].children[j] == m ensures n == p && j == k {
          SlotOf(m, n, j, p, k);
        }
      }
    }

    lemma SlotOf(m: ExecutionTree, n: ExecutionTree, j: nat, p: ExecutionTree, k: nat)
      requires TreeShape() && m in heap && n in heap && j < |heap[n].children| && heap[n].children[j] == m
      requires p == heap[m].parent && p in heap && p in pos && m in pos
      requires k < |heap[p].children| && k < |heap[p].idxToVar| && pos[m] == pos[p] + [heap[p].idxToVar[k]]
      ensures n == p && j == k
    {
      assert Shape(n) && StandsFor(n) && SlotShape(n, j) && heap[n].VarsOk();
      assert pos[m][|pos[n]|] == heap[n].idxToVar[j];
    }

    /** Nothing refers to a deleted node: slots, parent pointers and stack entries lead to live
        nodes or to the end node, and consecutive entries are parent and child. */
    lemma NothingDangles(n: ExecutionTree, k: nat)
      requires Valid()
      ensures n in heap ==> forall c :: c in heap[n].children ==> c == null || c == endNode || c in heap
      ensures n in heap && n != root ==> heap[n].parent in heap
      ensures k < |stack| ==> stack[k].parent in heap && stack[k].childIndex < |heap[stack[k].parent].children|
      ensures k + 1 < |stack| ==>
                && heap[stack[k].parent].children[stack[k].childIndex] == stack[k + 1].parent
                && stack[k + 1].parent in heap && heap[stack[k + 1].parent].parent == stack[k].parent
    {
      if n in heap {
        KidsLive(n);
        assert Shape(n);
      }
      if k < |stack| {
        EntryPosition(k);
      }
      if k + 1 < |stack| {
        EntryAbove(k + 1, 0);
      }
    }

    /** While there is something left to explore no node of the stack is covered, and neither is
        what hangs from its tip. */
    lemma StackIsOpen(k: nat)
      requires Valid() && Open() && k < |stack|
      ensures EntryShape(k) && !heap[stack[k].parent].covered
      ensures Tip().parent in heap && Tip().childIndex < |heap[Tip().parent].children|
      ensures var c := heap[Tip().parent].children[Tip().childIndex];
              c == null || (c in heap && c in pos && !heap[c].covered && pos[c] == path)
    {
      EntryPosition(k);
      var n := stack[k].parent;
      CoveredBelow(script, explored, path[..k], path);
      NotPruned(path[..k], 0);
      assert FlagExact(n, 0);
      NextIsOpen(|path|);
      assert path[..|path|] == path;
    }

    /** A forall node's children say that it is covered exactly when every thread variable of the
        scope has its own slot with a covered child. */
    lemma ForallNeedsEveryThread(n: ExecutionTree)
      requires TreeShape() && n in heap && heap[n].kind.Forall?
      ensures heap[n].VarsOk()
      ensures KidsCovered(n) <==>
              forall v: nat :: v < heap[n].scopeSize ==>
                && v in heap[n].varToIdx
                && var c := heap[n].children[heap[n].varToIdx[v]];
                   c != null && (c == endNode || (c in heap && heap[c].covered))
    {
      SlotsComplete(n);
      var r := heap[n];
      if KidsCovered(n) {
        forall v: nat | v < r.scopeSize ensures v in r.varToIdx {
          var i := IndexIn(r.idxToVar, v);
        }
      }
      if forall v: nat :: v < r.scopeSize ==>
           && v in r.varToIdx
           && var c := r.children[r.varToIdx[v]]; c != null && (c == endNode || (c in heap && heap[c].covered))
      {
        forall v: nat | v < r.scopeSize ensures v in r.idxToVar {
          assert r.idxToVar[r.varToIdx[v]] == v;
        }
        forall i | 0 <= i < |r.children|
          ensures var c := r.children[i]; c != null && (c == endNode || (c in heap && heap[c].covered))
        {
          assert r.idxToVar[i] < r.scopeSize && r.varToIdx[r.idxToVar[i]] == i;
        }
      }
    }
  }

  /** A node of this kind and these labels is one that a script asks for when it goes on like s. */
  ghost predicate Fits(r: Record, s: Script) {
    && s.Step? && r.kind == s.kind
    && r.VarsOk()
    && (forall i :: 0 <= i < |r.idxToVar| ==> r.idxToVar[i] < |s.next|)
    && (r.kind.Forall? ==> r.scopeSize == |s.next|)
    && (!r.kind.Forall? ==>
          |r.children| == |s.next| && forall i :: 0 <= i < |r.idxToVar| ==> r.idxToVar[i] == i)
  }

  /** The record of a forall node after further thread variables of the scope got a slot. */
  ghost predicate Grows(rec: Record, rec': Record) {
    && rec'.VarsOk() && rec.kind.Forall?
    && rec' == rec.(children := rec'.children, idxToVar := rec'.idxToVar, varToIdx := rec'.varToIdx)
    && rec.idxToVar <= rec'.idxToVar
    && |rec'.children| == |rec'.idxToVar| && rec.children <= rec'.children
    && (forall i :: |rec.children| <= i < |rec'.children| ==> rec'.children[i] == null)
    && (forall i :: |rec.idxToVar| <= i < |rec'.idxToVar| ==> rec'.idxToVar[i] < rec'.scopeSize)
  }

  /** Looking up one more thread variable of the scope. */
  lemma GrowsOn(rec0: Record, rec1: Record, rec2: Record, thread: nat)
    requires Grows(rec0, rec1) && rec2.VarsOk()
    requires rec2 == rec1.(children := rec2.children, idxToVar := rec2.idxToVar, varToIdx := rec2.varToIdx)
    requires rec2.idxToVar == rec1.idxToVar || (rec2.idxToVar == rec1.idxToVar + [thread] && thread < rec1.scopeSize)
    requires rec2.children == rec1.children + seq(|rec2.idxToVar| - |rec1.idxToVar|, i => null)
    ensures Grows(rec0, rec2)
  {
  }

  /** What the constructor of a node of this kind makes. */

  /** The topmost position that is dropped: the end of the path, or the first covered position on it,
      right below the path that is saved. */
  ghost function Dropped(p: Path, saved: Path, cut: bool): Path {
    if cut && |saved| < |p| then p[..|saved| + 1] else p
  }

  ghost predicate Created(r: Record, kind: Kind, scopeSize: nat) {
    && r.kind == kind && r.scopeSize == scopeSize && !r.covered && r.VarsOk()
    && r.children == seq(NumChildren(kind), i => null)
    && r.idxToVar == seq(NumChildren(kind), i => i)
  }

  lemma CreatedFits(r: Record, s: Script)
    requires WellFormed(s) && s.Step? && Created(r, s.kind, |s.next|)
    ensures Fits(r, s)
    ensures forall i :: 0 <= i < |r.children| ==> r.children[i] == null
    ensures if s.kind.Forall? then |r.children| == 0 < r.scopeSize else |r.children| > 0 && r.children[0] == null
  {
  }
}
