/** Sizes of finite sets. */
module Sets {

  lemma {:induction false} SubsetSize<T>(a: set<T>, b: set<T>)
    requires a <= b
    ensures |a| <= |b|
  {
    if x :| x in a { SubsetSize(a - {x}, b - {x}); }
  }

  /** Different members of a set are no more than it has. */
  lemma {:induction false} DistinctFit<T>(s: seq<T>, all: set<T>)
    requires (forall i, j :: 0 <= i < j < |s| ==> s[i] != s[j]) && forall x :: x in s ==> x in all
    ensures |s| <= |all|
  {
    if |s| > 0 {
      var p, x := s[..|s| - 1], s[|s| - 1];
      assert x in s;
      forall y | y in p ensures y in all - {x} { assert y in s; }
      DistinctFit(p, all - {x});
    }
  }
}
