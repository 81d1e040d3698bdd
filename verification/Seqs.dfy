/** Lists without repetitions and lists in ascending order. */
module Seqs {

  ghost predicate Distinct<T>(s: seq<T>) { forall i, j :: 0 <= i < j < |s| ==> s[i] != s[j] }

  ghost predicate Ascending(s: seq<int>) { forall i, j :: 0 <= i < j < |s| ==> s[i] < s[j] }

  ghost function Elements<T>(s: seq<T>): set<T> { set x | x in s }

  lemma ElementsLast<T>(s: seq<T>)
    requires s != []
    ensures Elements(s) == Elements(s[..|s| - 1]) + {s[|s| - 1]}
  {
    assert s == s[..|s| - 1] + [s[|s| - 1]];
  }

  lemma {:induction false} DistinctCount<T>(s: seq<T>)
    requires Distinct(s)
    ensures |Elements(s)| == |s|
  {
    if s != [] {
      var n := |s| - 1;
      DistinctCount(s[..n]);
      ElementsLast(s);
      assert s[n] !in s[..n];
    }
  }

  ghost function Below(n: nat): (r: set<nat>)
    ensures |r| == n && forall x :: x in r <==> 0 <= x < n
  {
    if n == 0 then {} else Below(n - 1) + {n - 1}
  }

  lemma SubsetCount<T>(A: set<T>, B: set<T>)
    requires A <= B
    ensures |A| <= |B|
  {
    assert B == A + (B - A);
  }

  lemma DistinctFits(s: seq<nat>, n: nat)
    requires Distinct(s) && forall i :: 0 <= i < |s| ==> s[i] < n
    ensures |s| <= n
  {
    DistinctCount(s);
    SubsetCount(Elements(s), Below(n));
  }

  lemma {:induction false} ElementsFew<T>(s: seq<T>)
    ensures |Elements(s)| <= |s|
  {
    if s != [] {
      ElementsFew(s[..|s| - 1]);
      ElementsLast(s);
    }
  }

  lemma ProperSubset<T>(A: set<T>, B: set<T>)
    requires A < B
    ensures |A| < |B|
  {
    var x :| x in B && x !in A;
    SubsetCount(A + {x}, B);
  }
}
