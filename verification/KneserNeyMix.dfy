/** The interpolated probabilities against the formula they stand for. */
module KneserNeyMix {
  import opened Bits
  import opened OpenTable
  import opened Options
  import opened Rounding
  import opened KneserNey
  import opened KneserNeyLaws

  // ---------------------------------------------------------------- counting slots

  /** The stored trigrams that end in the two words. */
  ghost function EndingIn(t: seq<Trigram>, w1: u16, w2: u16): set<nat> {
    set i: nat | i < |t| && t[i].w0 != EMPTY_WORD && t[i].w1 == w1 && t[i].w2 == w2
  }

  /** The stored trigrams with the word in the middle. */
  ghost function WithMiddle(t: seq<Trigram>, w1: u16): set<nat> {
    set i: nat | i < |t| && t[i].w0 != EMPTY_WORD && t[i].w1 == w1
  }

  /** The stored bigrams that start with the word. */
  ghost function StartingWith(t: seq<Bigram>, w1: u16): set<nat> {
    set i: nat | i < |t| && t[i].w0 != EMPTY_WORD && t[i].w0 == w1
  }

  /** The stored trigrams that start with the two words. */
  ghost function InContext(t: seq<Trigram>, c: Bi): set<nat> {
    set i: nat | i < |t| && t[i].w0 != EMPTY_WORD && t[i].w0 == c.w0 && t[i].w1 == c.w1
  }

  /** Adding up ones is counting. */
  lemma {:induction false} TotalIsCount<E>(t: seq<E>, f: E -> nat, slots: set<nat>)
    requires forall i: nat :: i in slots ==> i < |t|
    requires forall i: nat :: i < |t| ==> f(t[i]) == if i in slots then 1 else 0
    ensures Total(t, f) == |slots|
  {
    if |t| == 0 {
      assert slots == {};
    } else {
      var n := |t| - 1;
      TotalIsCount(t[..n], f, slots - {n});
    }
  }

  lemma EndingCounts(t: seq<Trigram>, w1: u16, w2: u16)
    ensures Total(t, EndsOf(w1, w2)) == |EndingIn(t, w1, w2)|
  {
    forall i: nat | i < |t| ensures EndsOf(w1, w2)(t[i]) == if i in EndingIn(t, w1, w2) then 1 else 0 {
      EndsOfIs(w1, w2, t[i]);
    }
    TotalIsCount(t, EndsOf(w1, w2), EndingIn(t, w1, w2));
  }

  lemma EndsOfIs(w1: u16, w2: u16, e: Trigram)
    ensures EndsOf(w1, w2)(e) == if e.w0 != EMPTY_WORD && e.w1 == w1 && e.w2 == w2 then 1 else 0
    ensures MiddleOf(w1)(e) == if e.w0 != EMPTY_WORD && e.w1 == w1 then 1 else 0
  {
    assert TriKey()(e) == if e.w0 == EMPTY_WORD then None else Some(Tri(e.w0, e.w1, e.w2));
  }

  lemma MiddleCounts(t: seq<Trigram>, w1: u16)
    ensures Total(t, MiddleOf(w1)) == |WithMiddle(t, w1)|
  {
    forall i: nat | i < |t| ensures MiddleOf(w1)(t[i]) == if i in WithMiddle(t, w1) then 1 else 0 {
      EndsOfIs(w1, 0, t[i]);
    }
    TotalIsCount(t, MiddleOf(w1), WithMiddle(t, w1));
  }

  lemma StartingCounts(t: seq<Bigram>, w1: u16)
    ensures Total(t, FollowsOf(w1)) == |StartingWith(t, w1)|
  {
    forall i: nat | i < |t| ensures FollowsOf(w1)(t[i]) == if i in StartingWith(t, w1) then 1 else 0 {
      FollowsOfIs(w1, t[i]);
    }
    TotalIsCount(t, FollowsOf(w1), StartingWith(t, w1));
  }

  lemma FollowsOfIs(w1: u16, e: Bigram)
    ensures FollowsOf(w1)(e) == if e.w0 != EMPTY_WORD && e.w0 == w1 then 1 else 0
  {
    assert BiKey()(e) == if e.w0 == EMPTY_WORD then None else Some(Bi(e.w0, e.w1));
  }

  lemma ContextCounts(t: seq<Trigram>, c: Bi)
    ensures Branches(t, c) == |InContext(t, c)|
  {
    forall i: nat | i < |t| ensures BranchOf(c)(t[i]) == if i in InContext(t, c) then 1 else 0 {
      CountInIs(c, t[i]);
      CountOfIs(Tri(0, 0, 0), t[i]);
    }
    TotalIsCount(t, BranchOf(c), InContext(t, c));
  }

  lemma {:induction false} SlotsBelow(slots: set<nat>, n: nat)
    requires forall i: nat :: i in slots ==> i < n
    ensures |slots| <= n
    decreases n
  {
    if n == 0 {
      assert slots == {};
    } else {
      SlotsBelow(slots - {n - 1}, n - 1);
    }
  }

  // ---------------------------------------------------------------- the formula

  /** In sixteen fractional bits: a count less the discount of three quarters as a share of the total, and such a
      discount for every kind of continuation as a share of the total, times the lower order. */
  ghost function Mix(count: nat, total: nat, kinds: nat, lower: nat): real
    requires total > 0
  {
    Kept(count, total) + BackOff(kinds, total) * lower as real / 65536.0
  }

  ghost function Kept(count: nat, total: nat): real
    requires total > 0
  {
    if count > 0 then (65536.0 * count as real - 49152.0) / total as real else 0.0
  }

  ghost function BackOff(kinds: nat, total: nat): real
    requires total > 0
  {
    49152.0 * kinds as real / total as real
  }

  lemma KeptFloor(count: u16, total: nat)
    requires 0 < total < 0x1_0000
    ensures Discounted(count, total) as real <= Kept(count, total) < Discounted(count, total) as real + 1.0
  {
    if count > 0 {
      var x := (count as int) * 0x1_0000 - DISCOUNT;
      DiscountedIs(count, total);
      RealFloor(x, total);
      assert x as real == 65536.0 * count as real - 49152.0;
    }
  }

  /** The back-off weight without casts: two floors. */
  lemma GammaIs(n: u16, total: nat)
    requires 0 < total < 0x1_0000
    ensures Gamma(n, total) == DISCOUNT * ((n as int) * 0x1_0000 / total) / 0x1_0000
  {
    Shl16Is(n);
    Shl16Is(total);
    CancelShift((n as int) * 0x1_0000, total);
    QuotientBelow((n as int) * 0x1_0000, total, 0x1_0000_0000);
    FpDivIs(Shl16(n), Shl16(total), (n as int) * 0x1_0000 / total);
    Discounting((n as int) * 0x1_0000 / total);
  }

  lemma Discounting(q: u32)
    ensures FpMul(DISCOUNT, q) == DISCOUNT * q / 0x1_0000
  {
    SmallRemains(DISCOUNT * q / 0x1_0000);
  }

  lemma GammaFloor(n: u16, total: nat)
    requires 0 < total < 0x1_0000
    ensures BackOff(n, total) - 1.5 < Gamma(n, total) as real <= BackOff(n, total)
  {
    var q := (n as int) * 0x1_0000 / total;
    GammaIs(n, total);
    RealFloor((n as int) * 0x1_0000, total);
    SixteenBits(n, total);
    ThreeQuarters(q);
    TwoSteps(q as real, ((n as int) * 0x1_0000) as real / total as real, Gamma(n, total) as real);
  }

  lemma ThreeQuarters(q: nat)
    ensures 0.75 * q as real - 0.75 <= (DISCOUNT * q / 0x1_0000) as real <= 0.75 * q as real
  {
    assert DISCOUNT * q / 0x1_0000 == 3 * q / 4;
    var r := 3 * q / 4;
    assert 4 * r <= 3 * q <= 4 * r + 3;
  }

  lemma SixteenBits(n: nat, total: nat)
    requires total > 0
    ensures 0.75 * ((n * 0x1_0000) as real / total as real) == BackOff(n, total)
  {
    assert (n * 0x1_0000) as real == 65536.0 * n as real;
    Scale(n as real, total as real);
  }

  lemma Scale(n: real, d: real)
    requires d > 0.0
    ensures 0.75 * (65536.0 * n / d) == 49152.0 * n / d
  {
    var q := n / d;
    assert 65536.0 * n / d == 65536.0 * q && 49152.0 * n / d == 49152.0 * q;
  }

  lemma TwoSteps(q: real, x: real, g: real)
    requires q <= x < q + 1.0 && 0.75 * q - 0.75 <= g <= 0.75 * q
    ensures 0.75 * x - 1.5 < g <= 0.75 * x
  {
  }

  /** The code's mix is the formula's, short of it by less than two and 1.5 of the lower order. */
  lemma MixFloor(count: u16, total: nat, kinds: u16, lower: u32)
    requires 0 < total < 0x1_0000
    requires (Gamma(kinds, total) as int) * lower / 0x1_0000 + Discounted(count, total) <= U32_MAX
    ensures var p := Min((Discounted(count, total) as int) + FpMul(Gamma(kinds, total), lower), U32_MAX) as real;
      Mix(count, total, kinds, lower) - 2.0 - 1.5 * lower as real / 65536.0 < p <= Mix(count, total, kinds, lower)
  {
    KeptFloor(count, total);
    GammaFloor(kinds, total);
    MixOf(Discounted(count, total), Gamma(kinds, total), count, total, kinds, lower);
  }

  lemma MixOf(d: u32, g: u32, count: nat, total: nat, kinds: nat, lower: u32)
    requires total > 0 && (g as int) * lower / 0x1_0000 + d <= U32_MAX
    requires d as real <= Kept(count, total) < d as real + 1.0
    requires BackOff(kinds, total) - 1.5 < g as real <= BackOff(kinds, total)
    ensures var p := Min((d as int) + FpMul(g, lower), U32_MAX) as real; var ideal := Mix(count, total, kinds, lower);
      ideal - 2.0 - 1.5 * lower as real / 65536.0 < p <= ideal
  {
    FlooredMix(d, g, lower, Kept(count, total), BackOff(kinds, total));
  }

  lemma FlooredMix(d: u32, g: u32, lower: u32, kept: real, backOff: real)
    requires (g as int) * lower / 0x1_0000 + d <= U32_MAX
    requires d as real <= kept < d as real + 1.0 && backOff - 1.5 < g as real <= backOff
    ensures var p := Min((d as int) + FpMul(g, lower), U32_MAX) as real;
      var weighted := backOff * lower as real / 65536.0;
      kept + weighted - 2.0 - 1.5 * lower as real / 65536.0 < p <= kept + weighted
  {
    NothingLost(d, g, lower);
    Weighted(g, backOff, lower);
    Together(d, (g as int) * lower / 0x1_0000, kept, backOff * lower as real / 65536.0,
             1.5 * lower as real / 65536.0);
  }

  lemma Together(d: nat, q: nat, kept: real, weighted: real, slack: real)
    requires d as real <= kept < d as real + 1.0 && weighted - slack - 1.0 < q as real <= weighted
    ensures kept + weighted - 2.0 - slack < (d + q) as real <= kept + weighted
  {
    assert (d + q) as real == d as real + q as real;
  }

  lemma NothingLost(d: u32, g: u32, u: u32)
    requires (g as int) * u / 0x1_0000 + d <= U32_MAX
    ensures Min((d as int) + FpMul(g, u), U32_MAX) == d + (g as int) * u / 0x1_0000
  {
    SmallRemains((g as int) * u / 0x1_0000);
  }

  lemma SmallRemains(q: int)
    requires 0 <= q < 0x1_0000_0000
    ensures q % 0x1_0000_0000 == q
  {
  }

  /** A floored product with a weight that was itself floored. */
  lemma Weighted(g: nat, b: real, u: nat)
    requires b - 1.5 < g as real <= b
    ensures b * u as real / 65536.0 - 1.5 * u as real / 65536.0 - 1.0 < (g * u / 0x1_0000) as real
         <= b * u as real / 65536.0
  {
    RealFloor(g * u, 0x1_0000);
    assert (g * u) as real == g as real * u as real;
    LowerPart(b, g as real, u as real, 1.5);
    Floored((g * u / 0x1_0000) as real, g as real * u as real, b * u as real, 1.5 * u as real);
  }

  lemma Floored(q: real, gu: real, bu: real, cu: real)
    requires q <= gu / 65536.0 < q + 1.0 && bu - cu <= gu <= bu
    ensures bu / 65536.0 - cu / 65536.0 - 1.0 < q <= bu / 65536.0
  {
  }

  lemma LowerPart(b: real, g: real, u: real, c: real)
    requires b - c < g <= b && u >= 0.0
    ensures b * u - c * u <= g * u <= b * u
  {
    LeTimes(g, b, u);
    LeTimes(b - c, g, u);
  }

  // ---------------------------------------------------------------- the lower order

  lemma UnigramWithin(m: Tables, w: nat)
    requires Sized(m)
    ensures Unigram(m, w) <= FP_ONE
  {
    if Occupied(m.bi) > 0 {
      UnigramIs(m, w);
      forall e: Bigram ensures PrecedesOf(w)(e) <= Present()(e) {
        PresentIs(e);
        assert PrecedesOf(w)(e) == if BiKey()(e).Some? && e.w1 == w then 1 else 0;
      }
      TotalLe(m.bi, PrecedesOf(w), Present());
      ShareAtMostOne(Predecessors(m.bi, w), Occupied(m.bi));
    }
  }

  lemma ShareAtMostOne(p: nat, n: nat)
    requires p <= n && n > 0
    ensures p * FP_ONE / n <= FP_ONE
  {
    QuotientBelow(p * FP_ONE, n, FP_ONE + 1);
  }

  /** The lower-order probability of `w2` after `w1`: of the stored trigrams with `w1` in the middle, those that
      end in `w2`, discounted; and for every stored bigram that starts with `w1`, a discount's worth of the unigram. */
  lemma BigramBracket(m: Tables, w1: u16, w2: u16)
    requires Sized(m)
    ensures var total := |WithMiddle(m.tri, w1)|; var p := BigramProbability(m, w1, w2);
      if total == 0 then p == Unigram(m, w2)
      else
        var ideal := Mix(|EndingIn(m.tri, w1, w2)|, total, |StartingWith(m.bi, w1)|, Unigram(m, w2));
        ideal - 3.5 < p as real <= ideal
  {
    EndingCounts(m.tri, w1, w2);
    MiddleCounts(m.tri, w1);
    StartingCounts(m.bi, w1);
    SlotsBelow(EndingIn(m.tri, w1, w2), MAX_TRIGRAMS);
    SlotsBelow(WithMiddle(m.tri, w1), MAX_TRIGRAMS);
    SlotsBelow(StartingWith(m.bi, w1), MAX_BIGRAMS);
    UnigramWithin(m, w2);
    if |WithMiddle(m.tri, w1)| > 0 {
      BigramMixBracket(|EndingIn(m.tri, w1, w2)|, |WithMiddle(m.tri, w1)|, |StartingWith(m.bi, w1)|, Unigram(m, w2));
    }
  }

  /** The four floorings can take more than three units. */
  lemma ThreeUnitsMissed()
    ensures BigramMix(46, 52, 19, 57551) as real < Mix(46, 52, 19, 57551) - 3.0
  {
    assert Shl16(19) == 0x13_0000 && Shl16(52) == 0x34_0000 && Shl16(46) == 0x2E_0000;
    assert FpDiv(0x13_0000, 0x34_0000) == 23945;
    assert FpMul(DISCOUNT, 23945) == 17958;
    assert FpMul(17958, 57551) == 15769;
    assert Discounted(46, 52) == 57028;
  }

  lemma BigramMixBracket(ends: nat, total: nat, follows: nat, lower: u32)
    requires ends <= MAX_TRIGRAMS && 0 < total <= MAX_TRIGRAMS && follows <= MAX_BIGRAMS && lower <= FP_ONE
    ensures var p := BigramMix(ends, total, follows, lower) as real; var ideal := Mix(ends, total, follows, lower);
      ideal - 3.5 < p <= ideal
  {
    BigramMixFits(ends, total, follows, lower);
    MixFloor(ends, total, follows, lower);
  }

  lemma BigramMixFits(ends: nat, total: nat, follows: nat, lower: u32)
    requires ends <= MAX_TRIGRAMS && 0 < total <= MAX_TRIGRAMS && follows <= MAX_BIGRAMS && lower <= FP_ONE
    ensures (Gamma(follows, total) as int) * lower / 0x1_0000 + Discounted(ends, total) <= U32_MAX
  {
    GammaBound(follows, total);
    if ends > 0 { DiscountedBounds(ends, total); }
    FactorAtLeastOne(Gamma(follows, total), total, DISCOUNT * follows);
    FactorAtLeastOne(Discounted(ends, total), total, ends * 0x1_0000);
    PartOfOne(Gamma(follows, total), lower);
  }

  lemma FactorAtLeastOne(x: nat, d: nat, b: nat)
    requires d > 0 && x * d <= b
    ensures x <= b
  {
  }

  lemma PartOfOne(g: nat, u: nat)
    requires u <= 0x1_0000
    ensures g * u / 0x1_0000 <= g
  {
    assert g * u <= g * 0x1_0000;
  }

  // ---------------------------------------------------------------- the trigram order

  /** The probability of a word after two others, where their total fits sixteen bits: its stored count,
      discounted, and a discount's worth of the lower order for every continuation of the context. */
  lemma ProbabilityBracket(m: Tables, k: Tri)
    requires Sound(m) && ContextCount(m.tri, Bi(k.w0, k.w1)) < 0x1_0000
    ensures var c := Bi(k.w0, k.w1); var total := ContextCount(m.tri, c);
      var lower := BigramProbability(m, k.w1, k.w2); var p := Probability(m, k);
      if total == 0 then p == lower
      else
        var ideal := Mix(TrigramCount(m.tri, k), total, Continuations(m.bi, c), lower);
        ideal - 2.0 - 1.5 * lower as real / 65536.0 < p as real <= ideal
    ensures var c := Bi(k.w0, k.w1); HasRoom(m.bi) ==> Continuations(m.bi, c) == |InContext(m.tri, c)|
  {
    var c := Bi(k.w0, k.w1);
    var total := ContextCount(m.tri, c);
    ContextBelow(m.tri, c, m);
    BranchesWithin(m.tri, c);
    CountWithin(m.tri, k);
    ContinuationsAre(m, c);
    if total > 0 {
      var count, kinds, lower := TrigramCount(m.tri, k), Continuations(m.bi, c), BigramProbability(m, k.w1, k.w2);
      TrigramMixFits(count, total, kinds, lower);
      MixFloor(count, total, kinds, lower);
    }
  }

  lemma ContinuationsAre(m: Tables, c: Bi)
    requires Sound(m)
    ensures HasRoom(m.bi) ==> Continuations(m.bi, c) == |InContext(m.tri, c)|
  {
    assert Agree(m, c);
    ContextCounts(m.tri, c);
    if !Holds(m.bi, BiKey(), c) { ContinuationsIfAbsent(m.bi, c); }
  }

  lemma {:induction false} BranchesWithin(t: seq<Trigram>, c: Bi)
    requires forall s :: 0 <= s < |t| && TriKey()(t[s]).Some? ==> t[s].count >= 1
    ensures Branches(t, c) <= ContextCount(t, c)
  {
    if |t| > 0 {
      BranchesWithin(t[..|t| - 1], c);
      CountInIs(c, t[|t| - 1]);
    }
  }

  lemma CountWithin(t: seq<Trigram>, k: Tri)
    ensures TrigramCount(t, k) <= ContextCount(t, Bi(k.w0, k.w1))
  {
    forall e: Trigram ensures CountOf(k)(e) <= CountIn(Bi(k.w0, k.w1))(e) {
      CountOfIs(k, e);
      CountInIs(Bi(k.w0, k.w1), e);
    }
    TotalLe(t, CountOf(k), CountIn(Bi(k.w0, k.w1)));
  }

  lemma TrigramMixFits(count: u16, total: nat, kinds: u16, lower: u32)
    requires 0 < total < 0x1_0000 && count <= total && kinds <= total
    ensures (Gamma(kinds, total) as int) * lower / 0x1_0000 + Discounted(count, total) <= U32_MAX
  {
    GammaBound(kinds, total);
    if count > 0 { DiscountedBounds(count, total); }
    FactorWithin(Gamma(kinds, total), total, DISCOUNT, kinds);
    FactorWithin(Discounted(count, total), total, 0x1_0000, count);
    SmallTimes(Gamma(kinds, total), lower);
  }

  lemma FactorWithin(x: nat, d: nat, a: nat, n: nat)
    requires d > 0 && n <= d && x * d <= a * n
    ensures x <= a
  {
    ProductGrows(n, d, a);
    Cancel(x, a, d);
  }

  lemma SmallTimes(g: nat, u: u32)
    requires g <= DISCOUNT
    ensures g * u / 0x1_0000 <= 0xC000_0000
  {
    ProductGrows(g, DISCOUNT, u);
  }
}
