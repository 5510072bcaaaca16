/** Finite sums of naturals, and what flooring does to them. */
module Sums {

  function Sum(s: seq<nat>): nat {
    if |s| == 0 then 0 else Sum(s[..|s| - 1]) + s[|s| - 1]
  }

  lemma SumAppend(s: seq<nat>, x: nat)
    ensures Sum(s + [x]) == Sum(s) + x
  {
    assert (s + [x])[..|s|] == s;
  }

  lemma {:induction false} SumUpdate(s: seq<nat>, i: nat, x: nat)
    requires i < |s|
    ensures Sum(s[i := x]) == Sum(s) - s[i] + x
    ensures s[i] <= Sum(s)
  {
    var n := |s| - 1;
    if i < n {
      SumUpdate(s[..n], i, x);
      assert s[i := x][..n] == s[..n][i := x];
    } else {
      assert s[i := x][..n] == s[..n];
    }
  }

  lemma {:induction false} SumZero(s: seq<nat>)
    requires forall i :: 0 <= i < |s| ==> s[i] == 0
    ensures Sum(s) == 0
  {
    if |s| > 0 { SumZero(s[..|s| - 1]); }
  }

  lemma {:induction false} SumLe(a: seq<nat>, b: seq<nat>)
    requires |a| == |b| && forall i :: 0 <= i < |a| ==> a[i] <= b[i]
    ensures Sum(a) <= Sum(b)
  {
    if |a| > 0 { SumLe(a[..|a| - 1], b[..|a| - 1]); }
  }

  lemma {:induction false} SumPlus(a: seq<nat>, b: seq<nat>, c: seq<nat>)
    requires |a| == |b| == |c| && forall i :: 0 <= i < |a| ==> c[i] == a[i] + b[i]
    ensures Sum(c) == Sum(a) + Sum(b)
  {
    if |a| > 0 {
      var n := |a| - 1;
      SumPlus(a[..n], b[..n], c[..n]);
    }
  }

  lemma FloorBound(x: nat, d: nat)
    requires d > 0
    ensures x / d * d <= x < (x / d + 1) * d
  {
  }

  /** Flooring a scaled vector loses less than one unit per entry and gains nothing. */
  lemma {:induction false} SumFloor(a: seq<nat>, b: seq<nat>, num: nat, den: nat)
    requires den > 0 && |a| == |b| && forall i :: 0 <= i < |a| ==> b[i] == a[i] * num / den
    ensures Sum(b) * den <= Sum(a) * num <= (Sum(b) + |b|) * den
    ensures |a| > 0 ==> Sum(a) * num < (Sum(b) + |b|) * den
  {
    if |a| > 0 {
      var n := |a| - 1;
      SumFloor(a[..n], b[..n], num, den);
      FloorStep(Sum(a[..n]), Sum(b[..n]), n, a[n], b[n], Sum(a), Sum(b), num, den);
    }
  }

  lemma FloorStep(sa: nat, sb: nat, n: nat, x: nat, y: nat, ta: nat, tb: nat, num: nat, den: nat)
    requires den > 0 && sb * den <= sa * num <= (sb + n) * den
    requires y == x * num / den && ta == sa + x && tb == sb + y
    ensures tb * den <= ta * num < (tb + (n + 1)) * den
  {
    FloorBound(x * num, den);
    assert (sa + x) * num == sa * num + x * num;
    assert (sb + y) * den == sb * den + y * den;
    assert (sb + y + (n + 1)) * den == (sb + n) * den + (y + 1) * den;
  }
}
