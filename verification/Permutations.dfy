/** Sequences with the same elements, however ordered. */
module Permutations {

  lemma Cancel<T>(x: multiset<T>, y: multiset<T>, e: T)
    requires x + multiset{e} == y + multiset{e}
    ensures x == y
  {
    assert x == x + multiset{e} - multiset{e};
    assert y == y + multiset{e} - multiset{e};
  }

  lemma LastOccurs<T>(a: seq<T>, b: seq<T>) returns (i: nat)
    requires multiset(a) == multiset(b) && |a| > 0
    ensures i < |b| && b[i] == a[|a| - 1]
  {
    assert a[|a| - 1] in multiset(b);
    i :| 0 <= i < |b| && b[i] == a[|a| - 1];
  }

  lemma SameLength<T>(a: seq<T>, b: seq<T>)
    requires multiset(a) == multiset(b)
    ensures |a| == |b|
  {
    assert |multiset(a)| == |multiset(b)|;
  }

  /** With one common element taken out of each, the rest still agree. */
  lemma RestOfSame<T>(a: seq<T>, b: seq<T>, i: nat)
    requires multiset(a) == multiset(b) && i < |b| && |a| > 0 && b[i] == a[|a| - 1]
    ensures multiset(a[..|a| - 1]) == multiset(b[..i] + b[i + 1..])
  {
    var x, p, q := a[..|a| - 1], b[..i], b[i + 1..];
    assert a == x + [b[i]] && b == p + ([b[i]] + q);
    assert multiset(a) == multiset(x) + multiset([b[i]]);
    assert multiset(b) == multiset(p) + (multiset([b[i]]) + multiset(q));
    assert multiset(p + q) == multiset(p) + multiset(q);
    Cancel(multiset(x), multiset(p + q), b[i]);
  }

  lemma SameMembers<T>(a: seq<T>, b: seq<T>)
    requires multiset(a) == multiset(b)
    ensures forall x :: x in a <==> x in b
  {
    forall x ensures x in a <==> x in b {
      assert x in multiset(a) <==> x in multiset(b);
    }
  }

  /** Taking out an element before the last, the last stays last. */
  lemma LastAfterRemoval<T>(b: seq<T>, i: nat)
    requires i < |b| - 1
    ensures var rest := b[..i] + b[i + 1..]; var n := |b| - 1;
      |rest| == n && rest[n - 1] == b[n] && rest[..n - 1] == b[..n][..i] + b[..n][i + 1..]
  {
    var n := |b| - 1;
    assert b[i + 1..] == b[..n][i + 1..] + [b[n]];
    assert b[..n][..i] == b[..i];
  }

  lemma RemoveLast<T>(b: seq<T>)
    requires |b| > 0
    ensures b[..|b| - 1] + b[|b|..] == b[..|b| - 1]
  {
  }
}
