/** The false-discovery-rate correction: the largest rank that passes, and who is rejected with it. */
module BenjaminiHochberg {
  import opened Bits
  import opened Permutations
  import opened Rounding

  const MAX_HYPOTHESES := 64

  datatype Ranked = Ranked(p: u32, index: nat)

  // ---------------------------------------------------------------- without sorting

  function CountAtMost(ps: seq<u32>, t: nat): nat {
    if |ps| == 0 then 0 else CountAtMost(ps[..|ps| - 1], t) + if ps[|ps| - 1] <= t then 1 else 0
  }

  /** The `k`-th of `m` thresholds, floored. */
  function Threshold(k: nat, q: u32, m: nat): nat
    requires m > 0
  {
    k * q / m
  }

  /** At least `k` values are within the `k`-th threshold. */
  predicate Passes(ps: seq<u32>, q: u32, k: nat)
    requires |ps| > 0
  {
    CountAtMost(ps, Threshold(k, q, |ps|)) >= k
  }

  /** The largest passing rank up to `n`, or 0. */
  function LargestRank(ps: seq<u32>, q: u32, n: nat): (k: nat)
    requires |ps| > 0
    ensures k <= n && (k > 0 ==> Passes(ps, q, k)) && forall j :: k < j <= n ==> !Passes(ps, q, j)
  {
    if n == 0 then 0 else if Passes(ps, q, n) then n else LargestRank(ps, q, n - 1)
  }

  /** Rejected: everything within the threshold of the largest passing rank. */
  predicate Rejected(ps: seq<u32>, q: u32, i: nat)
    requires |ps| > 0
  {
    i < |ps| && ps[i] <= Threshold(LargestRank(ps, q, |ps|), q, |ps|)
  }

  ghost predicate IsMask(mask: nat, ps: seq<u32>, q: u32)
    requires |ps| > 0
  {
    forall i: nat :: BitAt(mask, i) <==> Rejected(ps, q, i)
  }

  lemma ThresholdWithin(k: nat, q: u32, m: nat)
    requires 0 < m && k <= m
    ensures Threshold(k, q, m) <= q && Threshold(m, q, m) == q
  {
    ProductGrows(k, m, q);
    QuotientBelow(k * q, m, q + 1);
    QuotientIs(m * q, m, q, 0);
  }

  /** Nothing above `q` is rejected, however many values there are. */
  lemma RejectedWithin(ps: seq<u32>, q: u32, i: nat)
    requires i < |ps| && Rejected(ps, q, i)
    ensures ps[i] <= q
  {
    ThresholdWithin(LargestRank(ps, q, |ps|), q, |ps|);
  }

  lemma {:induction false} CountAll(ps: seq<u32>, t: nat)
    ensures CountAtMost(ps, t) == |ps| <==> forall i :: 0 <= i < |ps| ==> ps[i] <= t
    ensures CountAtMost(ps, t) <= |ps|
  {
    if |ps| > 0 {
      CountAll(ps[..|ps| - 1], t);
      assert forall i :: 0 <= i < |ps| - 1 ==> ps[..|ps| - 1][i] == ps[i];
    }
  }

  /** All are rejected if and only if none is above `q`. */
  lemma AllRejectedIff(ps: seq<u32>, q: u32)
    requires |ps| > 0
    ensures (forall i: nat :: i < |ps| ==> Rejected(ps, q, i)) <==> forall i :: 0 <= i < |ps| ==> ps[i] <= q
  {
    ThresholdWithin(|ps|, q, |ps|);
    CountAll(ps, q);
    if forall i: nat :: i < |ps| ==> Rejected(ps, q, i) {
      forall i | 0 <= i < |ps| ensures ps[i] <= q {
        assert Rejected(ps, q, i);
        RejectedWithin(ps, q, i);
      }
    }
  }

  // ---------------------------------------------------------------- sorting

  predicate Sorted(s: seq<Ranked>) {
    forall i, j :: 0 <= i < j < |s| ==> s[i].p <= s[j].p
  }

  /** After everything that is not larger. */
  function Insertion(s: seq<Ranked>, x: Ranked): (r: seq<Ranked>)
    ensures |r| == |s| + 1
  {
    if |s| == 0 || s[|s| - 1].p <= x.p then s + [x] else Insertion(s[..|s| - 1], x) + [s[|s| - 1]]
  }

  lemma {:induction false} InsertionElements(s: seq<Ranked>, x: Ranked)
    ensures multiset(Insertion(s, x)) == multiset(s) + multiset{x}
  {
    if |s| > 0 && s[|s| - 1].p > x.p {
      InsertionElements(s[..|s| - 1], x);
      assert s == s[..|s| - 1] + [s[|s| - 1]];
    }
  }

  lemma {:induction false} InsertionSorted(s: seq<Ranked>, x: Ranked, top: nat)
    requires Sorted(s) && x.p <= top && forall i :: 0 <= i < |s| ==> s[i].p <= top
    ensures Sorted(Insertion(s, x)) && forall i :: 0 <= i <= |s| ==> Insertion(s, x)[i].p <= top
  {
    if |s| > 0 && s[|s| - 1].p > x.p { InsertionSorted(s[..|s| - 1], x, s[|s| - 1].p); }
  }

  /** Larger ones shifted up by one, then the key in the gap. */
  method InsertInPlace(a: array<Ranked>, i: nat)
    requires i < a.Length
    modifies a
    ensures a[..i + 1] == Insertion(old(a[..i]), old(a[i])) && a[i + 1..] == old(a[i + 1..])
  {
    var key := a[i];
    var j := i;
    ghost var s := a[..i];
    InsertionSplit(s, key, i);
    while j > 0 && a[j - 1].p > key.p
      invariant 0 <= j <= i && (forall k :: j <= k < i ==> s[k].p > key.p)
      invariant forall k :: 0 <= k < j ==> a[k] == s[k]
      invariant forall k :: j < k <= i ==> a[k] == s[k - 1]
      invariant forall k :: i < k < a.Length ==> a[k] == old(a[k])
    {
      a[j] := a[j - 1];
      j := j - 1;
    }
    a[j] := key;
    InsertionSplit(s, key, j);
  }

  /** Past a stretch of larger ones, and in front of them if what is before is not larger. */
  lemma {:induction false} InsertionSplit(s: seq<Ranked>, x: Ranked, j: nat)
    requires j <= |s| && forall k :: j <= k < |s| ==> s[k].p > x.p
    ensures j == 0 || s[j - 1].p <= x.p ==> Insertion(s, x) == s[..j] + [x] + s[j..]
  {
    if j < |s| {
      var n := |s| - 1;
      InsertionSplit(s[..n], x, j);
      assert s[..n][..j] == s[..j];
      assert s[..n][j..] + [s[n]] == s[j..];
    } else {
      assert s[..j] == s && s[j..] == [];
    }
  }

  /** The `i`-th pair is the `i`-th value with its index. */
  function Pairs(ps: seq<u32>): (s: seq<Ranked>)
    ensures |s| == |ps|
  {
    seq(|ps|, i requires 0 <= i < |ps| => Ranked(ps[i], i))
  }

  lemma InsertionPermutes(s: seq<Ranked>, x: Ranked, rest: seq<Ranked>)
    ensures multiset(Insertion(s, x) + rest) == multiset(s + ([x] + rest))
  {
    InsertionElements(s, x);
  }

  method SortPairs(a: array<Ranked>, n: nat)
    requires 0 < n <= a.Length
    modifies a
    ensures Sorted(a[..n]) && multiset(a[..n]) == multiset(old(a[..n]))
  {
    var i := 1;
    while i < n
      invariant 1 <= i <= n && Sorted(a[..i])
      invariant multiset(a[..n]) == multiset(old(a[..n]))
    {
      ghost var s, x, tail := a[..i], a[i], a[i + 1..];
      ghost var rest := tail[..n - (i + 1)];
      assert a[..n] == s + ([x] + rest);
      InsertionPermutes(s, x, rest);
      InsertionSorted(s, x, U32_MAX);
      InsertInPlace(a, i);
      AfterInsertion(a[..], i, n, Insertion(s, x), rest);
      i := i + 1;
    }
  }

  lemma AfterInsertion(a: seq<Ranked>, i: nat, n: nat, front: seq<Ranked>, rest: seq<Ranked>)
    requires i < n <= |a| && a[..i + 1] == front && a[i + 1..][..n - (i + 1)] == rest
    ensures a[..n] == front + rest
  {
  }

  // ---------------------------------------------------------------- ranks and counts

  function CountIn(s: seq<Ranked>, t: nat): nat {
    if |s| == 0 then 0 else CountIn(s[..|s| - 1], t) + if s[|s| - 1].p <= t then 1 else 0
  }

  /** In sorted order the first ones are the small ones. */
  lemma {:induction false} CountOfSorted(s: seq<Ranked>, t: nat, k: nat)
    requires Sorted(s) && 0 < k <= |s|
    ensures s[k - 1].p <= t <==> CountIn(s, t) >= k
  {
    var n := |s| - 1;
    CountBound(s[..n], t);
    if s[n].p <= t {
      AllCounted(s, t);
    } else if k <= n {
      CountOfSorted(s[..n], t, k);
    }
  }

  lemma {:induction false} AllCounted(s: seq<Ranked>, t: nat)
    requires forall i :: 0 <= i < |s| ==> s[i].p <= t
    ensures CountIn(s, t) == |s|
  {
    if |s| > 0 { AllCounted(s[..|s| - 1], t); }
  }

  lemma {:induction false} CountBound(s: seq<Ranked>, t: nat)
    ensures CountIn(s, t) <= |s|
  {
    if |s| > 0 { CountBound(s[..|s| - 1], t); }
  }

  lemma {:induction false} CountWithout(b: seq<Ranked>, i: nat, t: nat)
    requires i < |b|
    ensures CountIn(b, t) == CountIn(b[..i] + b[i + 1..], t) + if b[i].p <= t then 1 else 0
  {
    var n := |b| - 1;
    if i < n {
      CountWithout(b[..n], i, t);
      LastAfterRemoval(b, i);
    } else {
      RemoveLast(b);
    }
  }

  lemma {:induction false} CountIgnoresOrder(a: seq<Ranked>, b: seq<Ranked>, t: nat)
    requires multiset(a) == multiset(b)
    ensures CountIn(a, t) == CountIn(b, t)
    decreases |a|
  {
    SameLength(a, b);
    if |a| > 0 {
      var n := |a| - 1;
      var i := LastOccurs(a, b);
      CountWithout(b, i, t);
      RestOfSame(a, b, i);
      CountIgnoresOrder(a[..n], b[..i] + b[i + 1..], t);
    }
  }

  lemma {:induction false} CountOfPairs(ps: seq<u32>, t: nat)
    ensures CountIn(Pairs(ps), t) == CountAtMost(ps, t)
  {
    if |ps| > 0 {
      CountOfPairs(ps[..|ps| - 1], t);
      assert Pairs(ps)[..|ps| - 1] == Pairs(ps[..|ps| - 1]);
    }
  }

  /** The sorted value of rank `k` is within a threshold exactly when `k` values are. */
  lemma RankPasses(ps: seq<u32>, s: seq<Ranked>, q: u32, k: nat)
    requires Sorted(s) && multiset(s) == multiset(Pairs(ps)) && 0 < k <= |ps| == |s|
    ensures s[k - 1].p <= Threshold(k, q, |ps|) <==> Passes(ps, q, k)
  {
    var t := Threshold(k, q, |ps|);
    CountOfSorted(s, t, k);
    CountIgnoresOrder(s, Pairs(ps), t);
    CountOfPairs(ps, t);
  }

  // ---------------------------------------------------------------- the correction

  /** Within the threshold of the largest passing rank are exactly the first that many. */
  lemma FirstAreRejected(ps: seq<u32>, s: seq<Ranked>, q: u32, j: nat)
    requires Sorted(s) && multiset(s) == multiset(Pairs(ps)) && j < |ps| == |s|
    ensures s[j].p <= Threshold(LargestRank(ps, q, |ps|), q, |ps|) <==> j < LargestRank(ps, q, |ps|)
  {
    var k := LargestRank(ps, q, |ps|);
    if j < k {
      RankPasses(ps, s, q, k);
    } else {
      RankPasses(ps, s, q, j + 1);
      assert !Passes(ps, q, j + 1);
      ThresholdGrows(k, j + 1, q, |ps|);
    }
  }

  lemma ThresholdGrows(j: nat, k: nat, q: u32, m: nat)
    requires m > 0 && j <= k
    ensures Threshold(j, q, m) <= Threshold(k, q, m)
  {
    assert j * q <= k * q;
    DivGrows(j * q, k * q, m);
  }

  lemma DivGrows(x: nat, y: nat, m: nat)
    requires m > 0 && x <= y
    ensures x / m <= y / m
  {
    if y / m < x / m { QuotientsApart(x, y, m); }
  }

  lemma QuotientsApart(x: nat, y: nat, m: nat)
    requires m > 0 && y / m < x / m
    ensures y < x
  {
    var a, b := y / m, x / m;
    assert y < (a + 1) * m && b * m <= x;
    assert (a + 1) * m <= b * m;
  }

  /** One of the first `n` pairs has the index. */
  predicate Indexed(s: seq<Ranked>, n: nat, i: nat) {
    exists j :: 0 <= j < n && j < |s| && s[j].index == i
  }

  lemma PairsAreIndexed(ps: seq<u32>, s: seq<Ranked>)
    requires multiset(s) == multiset(Pairs(ps))
    ensures |s| == |ps|
    ensures forall j :: 0 <= j < |s| ==> s[j].index < |ps| && s[j].p == ps[s[j].index]
    ensures forall i: nat :: i < |ps| ==> Indexed(s, |s|, i)
  {
    SameLength(s, Pairs(ps));
    SameMembers(s, Pairs(ps));
    forall j | 0 <= j < |s| ensures s[j].index < |ps| && s[j].p == ps[s[j].index] {
      assert s[j] in Pairs(ps);
    }
    forall i: nat | i < |ps| ensures Indexed(s, |s|, i) {
      assert Pairs(ps)[i] in Pairs(ps);
      var j :| 0 <= j < |s| && s[j] == Pairs(ps)[i];
    }
  }

  method FindRank(sorted: array<Ranked>, ps: seq<u32>, q: u32) returns (last: nat)
    requires 0 < |ps| <= sorted.Length
    requires Sorted(sorted[..|ps|]) && multiset(sorted[..|ps|]) == multiset(Pairs(ps))
    ensures last == LargestRank(ps, q, |ps|)
  {
    last := 0;
    var k := 1;
    while k <= |ps|
      invariant 1 <= k <= |ps| + 1 && last == LargestRank(ps, q, k - 1)
    {
      RankPasses(ps, sorted[..|ps|], q, k);
      if sorted[k - 1].p <= Threshold(k, q, |ps|) {
        last := k;
      }
      k := k + 1;
    }
  }

  lemma IndexedMore(s: seq<Ranked>, j: nat)
    requires j < |s|
    ensures forall i: nat :: Indexed(s, j + 1, i) <==> Indexed(s, j, i) || i == s[j].index
  {
    forall i: nat ensures Indexed(s, j + 1, i) <==> Indexed(s, j, i) || i == s[j].index {
      if k :| 0 <= k < j && k < |s| && s[k].index == i { assert 0 <= k < j + 1; }
    }
  }

  /** A bit for the index of each of the first `last` pairs. */
  method BuildMask(sorted: array<Ranked>, last: nat) returns (mask: nat)
    requires last <= sorted.Length && forall j :: 0 <= j < last ==> sorted[j].index < MAX_HYPOTHESES
    ensures mask < Pow2(MAX_HYPOTHESES)
    ensures forall i: nat :: BitAt(mask, i) <==> Indexed(sorted[..], last, i)
  {
    mask := 0;
    forall i: nat ensures !BitAt(0, i) { ZeroHasNoBits(i); }
    var j := 0;
    while j < last
      invariant 0 <= j <= last && mask < Pow2(MAX_HYPOTHESES)
      invariant forall i: nat :: BitAt(mask, i) <==> Indexed(sorted[..], j, i)
    {
      var index, was := sorted[j].index, mask;
      Pow2Grows(index, MAX_HYPOTHESES);
      OrBound(was, Pow2(index), MAX_HYPOTHESES);
      mask := Or(was, Pow2(index));
      forall i: nat ensures BitAt(mask, i) <==> BitAt(was, i) || i == index { OrBit(was, index, i); }
      IndexedMore(sorted[..], j);
      j := j + 1;
    }
  }

  /** The mask has exactly the hypotheses within the threshold of the largest passing rank; none for an
      empty or an oversized set. */
  method Correct(values: seq<u32>, count: nat, q: u32) returns (mask: u64)
    requires 0 < count <= MAX_HYPOTHESES ==> count <= |values|
    ensures count == 0 || count > MAX_HYPOTHESES ==> mask == 0
    ensures 0 < count <= MAX_HYPOTHESES ==> IsMask(mask, values[..count], q)
  {
    if count == 0 || count > MAX_HYPOTHESES {
      return 0;
    }
    var ps := values[..count];
    var sorted := new Ranked[MAX_HYPOTHESES](_ => Ranked(0, 0));
    var i := 0;
    while i < count
      invariant 0 <= i <= count && forall k :: 0 <= k < i ==> sorted[k] == Ranked(values[k], k)
    {
      sorted[i] := Ranked(values[i], i);
      i := i + 1;
    }
    assert sorted[..count] == Pairs(ps);
    SortPairs(sorted, count);
    ghost var s := sorted[..count];
    PairsAreIndexed(ps, s);
    var last := FindRank(sorted, ps, q);
    assert forall j :: 0 <= j < last ==> sorted[j] == s[j];
    Pow2Values();
    var bits := BuildMask(sorted, last);
    forall i: nat ensures Indexed(sorted[..], last, i) <==> Indexed(s, last, i) {
      assert forall j :: 0 <= j < last ==> sorted[..][j] == s[j];
    }
    MaskIsRight(bits, ps, s, q);
    mask := bits;
  }

  lemma MaskIsRight(mask: nat, ps: seq<u32>, s: seq<Ranked>, q: u32)
    requires |ps| > 0 && Sorted(s) && multiset(s) == multiset(Pairs(ps)) && |s| == |ps|
    requires forall i: nat :: BitAt(mask, i) <==> Indexed(s, LargestRank(ps, q, |ps|), i)
    ensures IsMask(mask, ps, q)
  {
    PairsAreIndexed(ps, s);
    var last := LargestRank(ps, q, |ps|);
    forall i: nat ensures BitAt(mask, i) <==> Rejected(ps, q, i) {
      if Indexed(s, last, i) {
        var j :| 0 <= j < last && j < |s| && s[j].index == i;
        FirstAreRejected(ps, s, q, j);
      }
      if Rejected(ps, q, i) {
        assert Indexed(s, |s|, i);
        var j :| 0 <= j < |s| && s[j].index == i;
        FirstAreRejected(ps, s, q, j);
      }
    }
  }

  // ---------------------------------------------------------------- what follows

  lemma {:induction false} CountSame(a: seq<u32>, b: seq<u32>, t: nat)
    requires multiset(a) == multiset(b)
    ensures CountAtMost(a, t) == CountAtMost(b, t)
    decreases |a|
  {
    SameLength(a, b);
    if |a| > 0 {
      var i := LastOccurs(a, b);
      CountDrop(b, i, t);
      RestOfSame(a, b, i);
      CountSame(a[..|a| - 1], b[..i] + b[i + 1..], t);
    }
  }

  lemma {:induction false} CountDrop(b: seq<u32>, i: nat, t: nat)
    requires i < |b|
    ensures CountAtMost(b, t) == CountAtMost(b[..i] + b[i + 1..], t) + if b[i] <= t then 1 else 0
  {
    var n := |b| - 1;
    if i < n {
      CountDrop(b[..n], i, t);
      LastAfterRemoval(b, i);
    } else {
      RemoveLast(b);
    }
  }

  lemma {:induction false} RankSame(a: seq<u32>, b: seq<u32>, q: u32, n: nat)
    requires |a| > 0 && |b| == |a| && multiset(a) == multiset(b)
    ensures LargestRank(a, q, n) == LargestRank(b, q, n)
  {
    if n > 0 {
      CountSame(a, b, Threshold(n, q, |a|));
      RankSame(a, b, q, n - 1);
    }
  }

  /** Reordering the hypotheses reorders the verdicts, and equal values share one. */
  lemma VerdictsFollowValues(a: seq<u32>, b: seq<u32>, q: u32, i: nat, j: nat)
    requires |a| > 0 && multiset(a) == multiset(b) && i < |a| && j < |b| && a[i] == b[j] && |b| > 0
    ensures Rejected(a, q, i) <==> Rejected(b, q, j)
  {
    SameLength(a, b);
    RankSame(a, b, q, |a|);
  }

  /** As many are rejected as the largest passing rank. */
  lemma RejectedCount(ps: seq<u32>, q: u32)
    requires |ps| > 0
    ensures CountAtMost(ps, Threshold(LargestRank(ps, q, |ps|), q, |ps|)) == LargestRank(ps, q, |ps|)
  {
    var k := LargestRank(ps, q, |ps|);
    var c := CountAtMost(ps, Threshold(k, q, |ps|));
    CountAtMostBound(ps, Threshold(k, q, |ps|));
    if c > k {
      ThresholdGrows(k, c, q, |ps|);
      CountGrows(ps, Threshold(k, q, |ps|), Threshold(c, q, |ps|));
      assert Passes(ps, q, c);
    }
  }

  lemma {:induction false} CountAtMostBound(ps: seq<u32>, t: nat)
    ensures CountAtMost(ps, t) <= |ps|
  {
    if |ps| > 0 { CountAtMostBound(ps[..|ps| - 1], t); }
  }

  lemma {:induction false} CountGrows(ps: seq<u32>, t: nat, u: nat)
    requires t <= u
    ensures CountAtMost(ps, t) <= CountAtMost(ps, u)
  {
    if |ps| > 0 { CountGrows(ps[..|ps| - 1], t, u); }
  }
}
