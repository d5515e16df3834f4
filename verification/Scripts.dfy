/** Test scripts as finite decision trees, positions inside them, and what it means for a part
    of a script to be explored.

    A script is what one run of a test case would ask the engine to do, with every answer the
    engine might give: a star has a false and a true continuation, a conditional and a consumed
    transition have one continuation, and a forall-thread node has one per thread variable in its
    scope.  A position is the sequence of answers that leads to a point of the script. */
module Scripts {

  /** The kinds of execution-tree node that a script can create. */
  datatype Kind =
    | Root
    | Star(nondet: bool)
    | Conditional(value: bool)
    | Transition
    | Forall
    | End  // the shared end node; never asked for by a script

  datatype Script =
    | Done
    | Step(kind: Kind, next: seq<Script>)

  type Path = seq<nat>

  /** How many continuations a node of a kind has; a forall may have any positive number. */
  predicate GoodArity(kind: Kind, n: nat) {
    match kind
    case Star(_) => n == 2
    case Forall => n >= 1
    case End => false
    case _ => n == 1
  }

  ghost predicate WellFormed(s: Script) {
    s.Step? ==>
      && GoodArity(s.kind, |s.next|)
      && forall i :: 0 <= i < |s.next| ==> WellFormed(s.next[i]) && !IsRoot(s.next[i])
  }

  /** Only the engine's own root node is a root. */
  predicate IsRoot(s: Script) {
    s.Step? && s.kind.Root?
  }

  /** The engine's root node sits above the script and has the script as its one child. */
  function Rooted(s: Script): Script {
    Step(Root, [s])
  }

  // ---------------------------------------------------------------- positions

  predicate IsPos(s: Script, p: Path) {
    p == [] || (s.Step? && p[0] < |s.next| && IsPos(s.next[p[0]], p[1..]))
  }

  function At(s: Script, p: Path): Script
    requires IsPos(s, p)
  {
    if p == [] then s else At(s.next[p[0]], p[1..])
  }

  predicate IsLeaf(s: Script, p: Path) {
    IsPos(s, p) && At(s, p).Done?
  }

  lemma {:induction false} AtAppend(s: Script, p: Path, q: Path)
    requires IsPos(s, p)
    ensures IsPos(s, p + q) <==> IsPos(At(s, p), q)
    ensures IsPos(s, p + q) ==> At(s, p + q) == At(At(s, p), q)
  {
    if p == [] {
      assert p + q == q;
    } else {
      assert (p + q)[1..] == p[1..] + q;
      AtAppend(s.next[p[0]], p[1..], q);
    }
  }

  lemma {:induction false} PrefixIsPos(s: Script, p: Path, q: Path)
    requires IsPos(s, q) && p <= q
    ensures IsPos(s, p)
    ensures p < q ==> At(s, p).Step? && q[|p|] < |At(s, p).next|
  {
    if p != [] {
      PrefixIsPos(s.next[q[0]], p[1..], q[1..]);
    }
  }

  /** One answer deeper. */
  lemma AtStep(s: Script, p: Path, l: nat)
    requires IsPos(s, p) && At(s, p).Step?
    ensures IsPos(s, p + [l]) <==> l < |At(s, p).next|
    ensures l < |At(s, p).next| ==> At(s, p + [l]) == At(s, p).next[l]
  {
    AtAppend(s, p, [l]);
    assert [l][1..] == [];
  }

  lemma {:induction false} AtWellFormed(s: Script, p: Path)
    requires WellFormed(s) && IsPos(s, p)
    ensures WellFormed(At(s, p)) && (p != [] ==> !IsRoot(At(s, p)))
  {
    if p != [] {
      AtWellFormed(s.next[p[0]], p[1..]);
    }
  }

  // ---------------------------------------------------------------- leaves

  /** All complete runs of a script. */
  ghost function Leaves(s: Script): set<Path> {
    match s
    case Done => {[]}
    case Step(_, next) => set i, q | 0 <= i < |next| && q in Leaves(next[i]) :: [i] + q
  }

  lemma {:induction false} LeavesAreLeaves(s: Script, p: Path)
    ensures p in Leaves(s) <==> IsLeaf(s, p)
    decreases s
  {
    if s.Step? {
      if p != [] && p[0] < |s.next| {
        LeavesAreLeaves(s.next[p[0]], p[1..]);
        assert p == [p[0]] + p[1..];
      }
      if p in Leaves(s) {
        var i, q :| 0 <= i < |s.next| && q in Leaves(s.next[i]) && p == [i] + q;
        assert p[1..] == q;
      }
    }
  }

  /** Some complete run passes through every position. */
  lemma {:induction false} LeafBelow(s: Script) returns (q: Path)
    requires WellFormed(s)
    ensures IsLeaf(s, q)
  {
    if s.Done? {
      q := [];
    } else {
      var r := LeafBelow(s.next[0]);
      q := [0] + r;
      assert q[1..] == r;
    }
  }

  lemma LeafThrough(s: Script, p: Path) returns (q: Path)
    requires WellFormed(s) && IsPos(s, p)
    ensures IsLeaf(s, q) && p <= q
  {
    AtWellFormed(s, p);
    var r := LeafBelow(At(s, p));
    q := p + r;
    AtAppend(s, p, r);
  }

  // ---------------------------------------------------------------- coverage

  /** Every complete run through p has been explored. */
  ghost predicate Covered(s: Script, explored: set<Path>, p: Path) {
    forall q :: IsLeaf(s, q) && p <= q ==> q in explored
  }

  /** No complete run through p has been explored. */
  ghost predicate Untouched(s: Script, explored: set<Path>, p: Path) {
    forall q :: IsLeaf(s, q) && p <= q ==> q !in explored
  }

  /** The complete runs through p. */
  ghost function LeavesThrough(s: Script, p: Path): set<Path> {
    set q | q in Leaves(s) && p <= q
  }

  lemma CoveredBelow(s: Script, explored: set<Path>, p: Path, q: Path)
    requires p <= q
    ensures Covered(s, explored, p) ==> Covered(s, explored, q)
    ensures Untouched(s, explored, p) ==> Untouched(s, explored, q)
  {
    assert forall r :: IsLeaf(s, r) && q <= r ==> p <= r;
  }

  /** A part of the script is covered exactly when each of its continuations is. */
  lemma CoveredByKids(s: Script, explored: set<Path>, p: Path)
    requires IsPos(s, p) && At(s, p).Step?
    ensures Covered(s, explored, p) <==>
            forall l: nat :: l < |At(s, p).next| ==> Covered(s, explored, p + [l])
  {
    if Covered(s, explored, p) {
      forall l: nat | l < |At(s, p).next| ensures Covered(s, explored, p + [l]) {
        CoveredBelow(s, explored, p, p + [l]);
      }
    }
    if forall l: nat :: l < |At(s, p).next| ==> Covered(s, explored, p + [l]) {
      forall q | IsLeaf(s, q) && p <= q ensures q in explored {
        assert p != q;
        PrefixIsPos(s, p, q);
        var l := q[|p|];
        assert Covered(s, explored, p + [l]);
        assert p + [l] <= q;
      }
    }
  }

  lemma UntouchedNotCovered(s: Script, explored: set<Path>, p: Path)
    requires WellFormed(s) && IsPos(s, p) && Untouched(s, explored, p)
    ensures !Covered(s, explored, p)
  {
    var q := LeafThrough(s, p);
  }

  lemma PrefixesOfOne(p: Path, q: Path, r: Path)
    requires p <= r && q <= r
    ensures p <= q || q <= p
  {
    assert p == r[..|p|] && q == r[..|q|];
  }

  lemma PrefixOfOneMore(p: Path, q: Path, l: nat)
    ensures p <= q + [l] ==> p <= q || p == q + [l]
  {
    if p <= q + [l] && |p| <= |q| {
      assert p == (q + [l])[..|p|] == q[..|p|];
    }
  }

  lemma NothingExplored(s: Script, p: Path)
    requires WellFormed(s) && IsPos(s, p)
    ensures !Covered(s, {}, p)
  {
    UntouchedNotCovered(s, {}, p);
  }

  /** Exploring (or giving up) everything through q changes the state of a position p only when
      one of the two lies above the other. */
  lemma ExploreThrough(s: Script, explored: set<Path>, q: Path, p: Path)
    ensures var e := explored + LeavesThrough(s, q);
            && (Covered(s, explored, p) ==> Covered(s, e, p))
            && (q <= p ==> Covered(s, e, p))
            && (!(q <= p) && !(p <= q) ==>
                  && (Covered(s, e, p) <==> Covered(s, explored, p))
                  && (Untouched(s, explored, p) ==> Untouched(s, e, p)))
  {
    var e := explored + LeavesThrough(s, q);
    forall r | IsLeaf(s, r) ensures r in Leaves(s) {
      LeavesAreLeaves(s, r);
    }
    forall r | IsLeaf(s, r) && p <= r && q <= r ensures p <= q || q <= p {
      PrefixesOfOne(p, q, r);
    }
  }
}
