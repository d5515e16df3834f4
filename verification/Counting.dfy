/** Sequences without repetition, and how many elements they have. */
module Counting {

  ghost function Elements<T>(s: seq<T>): set<T> {
    set x | x in s
  }

  ghost predicate NoRepeats<T>(s: seq<T>) {
    forall i, j :: 0 <= i < j < |s| ==> s[i] != s[j]
  }

  lemma IndexIn<T>(s: seq<T>, x: T) returns (i: nat)
    requires x in s
    ensures i < |s| && s[i] == x
  {
    i :| 0 <= i < |s| && s[i] == x;
  }

  lemma {:induction false} NoRepeatsSize<T>(s: seq<T>)
    requires NoRepeats(s)
    ensures |Elements(s)| == |s|
  {
    if s != [] {
      var rest := s[..|s| - 1];
      NoRepeatsSize(rest);
      assert Elements(s) == Elements(rest) + {s[|s| - 1]};
      assert s[|s| - 1] !in rest;
    }
  }

  lemma SubsetSize<T>(a: set<T>, b: set<T>)
    requires a <= b
    ensures |a| <= |b|
    ensures |a| == |b| <==> a == b
  {
    assert b == a + (b - a);
  }

  ghost function UpTo(n: nat): (s: set<nat>)
    ensures forall v: nat :: v in s <==> v < n
    ensures |s| == n
  {
    if n == 0 then {} else UpTo(n - 1) + {n - 1}
  }

  /** Distinct numbers below n are all of them exactly when there are n. */
  lemma Pigeonhole(labels: seq<nat>, n: nat)
    requires NoRepeats(labels)
    requires forall i :: 0 <= i < |labels| ==> labels[i] < n
    ensures |labels| <= n
    ensures |labels| == n <==> forall v: nat :: v < n ==> v in labels
  {
    NoRepeatsSize(labels);
    SubsetSize(Elements(labels), UpTo(n));
    assert forall v :: v in UpTo(n) && v in Elements(labels) ==> v in labels;
  }
}
