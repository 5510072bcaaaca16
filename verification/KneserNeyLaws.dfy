/** Conservation laws of the model's fixed-point probabilities. */
module KneserNeyLaws {
  import opened Bits
  import opened OpenTable
  import opened Options
  import opened KneserNey
  import opened Rounding

  const FP_ONE: nat := 0x1_0000

  function FpMul(a: u32, b: u32): u32 {
    (a as int) * b / 0x1_0000 % 0x1_0000_0000
  }

  function FpDiv(a: u32, b: u32): u32 {
    if b == 0 then 0 else (a as int) * 0x1_0000 / b % 0x1_0000_0000
  }

  /** A 32-bit left shift by sixteen: the high half is lost. */
  function Shl16(x: nat): u32 {
    x * 0x1_0000 % 0x1_0000_0000
  }

  function SatSub(a: nat, b: nat): nat {
    if a <= b then 0 else a - b
  }

  /** The discounted Q16 probability of a trigram counted `count` times in a context of total `total`. */
  function Discounted(count: u16, total: nat): u32 {
    if count > 0 then FpDiv(SatSub(Shl16(count), DISCOUNT), Shl16(total)) else 0
  }

  /** The weight left to the lower-order model. */
  function Gamma(continuations: u16, total: nat): u32 {
    FpMul(DISCOUNT, FpDiv(Shl16(continuations), Shl16(total)))
  }

  function SumTo(f: nat -> nat, n: nat): nat {
    if n == 0 then 0 else SumTo(f, n - 1) + f(n - 1)
  }

  /** All discounted trigram probabilities in the context `c` and its back-off weight together. */
  function ContextMass(m: Tables, c: Bi): nat
    requires Sized(m)
  {
    var total := ContextCount(m.tri, c);
    SumTo(w => WordMass(m.tri, c, total, w), 0x1_0000) + Gamma(Saturate16(Continuations(m.bi, c)), total)
  }

  function Saturate16(x: nat): u16 {
    Min(x, U16_MAX)
  }

  function WordMass(t: seq<Trigram>, c: Bi, total: nat, w: nat): u32 {
    if w < 0x1_0000 then Discounted(Saturate16(TrigramCount(t, Tri(c.w0, c.w1, w))), total) else 0
  }

  // ---------------------------------------------------------------- the interpolated probability

  function EndsOf(w1: u16, w2: u16): Trigram -> nat {
    (e: Trigram) => OnlyIf(TriKey()(e).Some? && e.w1 == w1 && e.w2 == w2, 1)
  }

  function MiddleOf(w1: u16): Trigram -> nat {
    (e: Trigram) => OnlyIf(TriKey()(e).Some? && e.w1 == w1, 1)
  }

  function FollowsOf(w1: u16): Bigram -> nat {
    (e: Bigram) => OnlyIf(BiKey()(e).Some? && e.w0 == w1, 1)
  }

  /** The lower-order mix: a discounted share, and the back-off weight times the unigram. */
  function BigramMix(ends: nat, total: nat, follows: nat, lower: u32): u32 {
    var discounted := if ends > 0 then FpDiv(SatSub(Shl16(ends), DISCOUNT), Shl16(total)) else 0;
    Min((discounted as int) + FpMul(FpMul(DISCOUNT, FpDiv(Shl16(follows), Shl16(total))), lower), U32_MAX)
  }

  /** The lower-order probability, from how many distinct trigrams end in the pair. */
  function BigramProbability(m: Tables, w1: u16, w2: u16): u32
    requires Sized(m)
  {
    var total := Total(m.tri, MiddleOf(w1));
    if total == 0 then Unigram(m, w2)
    else BigramMix(Total(m.tri, EndsOf(w1, w2)), total, Total(m.bi, FollowsOf(w1)), Unigram(m, w2))
  }

  /** The trigram probability: a discounted share, and the back-off weight times the lower order. */
  function Probability(m: Tables, k: Tri): u32
    requires Sized(m)
  {
    var c := Bi(k.w0, k.w1);
    var total := ContextCount(m.tri, c);
    var lower := BigramProbability(m, k.w1, k.w2);
    if total == 0 then lower
    else Min((WordMass(m.tri, c, total, k.w2) as int)
      + FpMul(Gamma(Saturate16(Continuations(m.bi, c)), total), lower), U32_MAX)
  }

  // ---------------------------------------------------------------- from words to table slots

  lemma {:induction false} SumToSame(f: nat -> nat, g: nat -> nat, n: nat)
    requires forall i :: 0 <= i < n ==> f(i) == g(i)
    ensures SumTo(f, n) == SumTo(g, n)
  {
    if n > 0 { SumToSame(f, g, n - 1); }
  }

  lemma {:induction false} SumToZero(f: nat -> nat, n: nat)
    requires forall i :: 0 <= i < n ==> f(i) == 0
    ensures SumTo(f, n) == 0
  {
    if n > 0 { SumToZero(f, n - 1); }
  }

  lemma {:induction false} SumToPlus(f: nat -> nat, g: nat -> nat, h: nat -> nat, n: nat)
    requires forall i :: 0 <= i < n ==> h(i) == f(i) + g(i)
    ensures SumTo(h, n) == SumTo(f, n) + SumTo(g, n)
  {
    if n > 0 { SumToPlus(f, g, h, n - 1); }
  }

  lemma {:induction false} SumToSingle(f: nat -> nat, n: nat, k: nat)
    requires k < n && forall i :: 0 <= i < n && i != k ==> f(i) == 0
    ensures SumTo(f, n) == f(k)
  {
    if k < n - 1 { SumToSingle(f, n - 1, k); } else { SumToZero(f, n - 1); }
  }

  function TotalsOf<E>(t: seq<E>, g: nat -> (E -> nat)): nat -> nat {
    i => Total(t, g(i))
  }

  function ValuesAt<E>(e: E, g: nat -> (E -> nat)): nat -> nat {
    i => g(i)(e)
  }

  /** Adding up over an index and over the table commute, when each slot belongs to one index. */
  lemma {:induction false} SumOfTotals<E(!new)>(t: seq<E>, g: nat -> (E -> nat), index: E -> nat, f: E -> nat, n: nat)
    requires forall e: E, i: nat :: i < n ==> g(i)(e) == if index(e) == i then f(e) else 0
    requires forall e: E :: index(e) < n
    ensures SumTo(TotalsOf(t, g), n) == Total(t, f)
  {
    if |t| == 0 {
      var z := TotalsOf(t, g);
      forall i: nat | i < n ensures z(i) == 0 {
        assert z(i) == Total(t, g(i));
      }
      SumToZero(z, n);
    } else {
      var p, e := t[..|t| - 1], t[|t| - 1];
      SumOfTotals(p, g, index, f, n);
      TotalsMore(t, g, n);
      SumToSingle(ValuesAt(e, g), n, index(e));
    }
  }

  lemma TotalsMore<E>(t: seq<E>, g: nat -> (E -> nat), n: nat)
    requires |t| > 0
    ensures SumTo(TotalsOf(t, g), n) == SumTo(TotalsOf(t[..|t| - 1], g), n) + SumTo(ValuesAt(t[|t| - 1], g), n)
  {
    var x, y, z := TotalsOf(t[..|t| - 1], g), ValuesAt(t[|t| - 1], g), TotalsOf(t, g);
    forall i: nat | i < n ensures z(i) == x(i) + y(i) {
      assert z(i) == Total(t, g(i));
    }
    SumToPlus(x, y, z, n);
  }

  // ---------------------------------------------------------------- unigram law

  /** The unigram probability: the share of the bigrams that end in `w`. */
  function Unigram(m: Tables, w: nat): u32
    requires Sized(m)
  {
    var count := Occupied(m.bi);
    if count == 0 then 0 else FpDiv(Min(Predecessors(m.bi, w), U32_MAX), Min(count, U32_MAX))
  }

  lemma PresentIs(e: Bigram)
    ensures Present()(e) == if BiKey()(e).Some? then 1 else 0
  {
  }

  function Present(): Bigram -> nat {
    (e: Bigram) => OnlyIf(BiKey()(e).Some?, 1)
  }

  /** How many bigrams the table holds. */
  function Occupied(t: seq<Bigram>): nat {
    Total(t, Present())
  }

  /** Every stored bigram has one last word, so the predecessor counts add up to all of them. */
  lemma PredecessorsSum(t: seq<Bigram>)
    ensures SumTo(w => Predecessors(t, w), 0x1_0000) == Occupied(t)
  {
    var g, index := (w: nat) => PrecedesOf(w), LastWord();
    forall e: Bigram, i: nat ensures g(i)(e) == if index(e) == i then Present()(e) else 0 {
      assert g(i) == PrecedesOf(i) && index(e) == e.w1;
      assert PrecedesOf(i)(e) == if BiKey()(e).Some? && e.w1 == i then 1 else 0;
      PresentIs(e);
    }
    SumOfTotals(t, g, index, Present(), 0x1_0000);
    SumToSame(w => Predecessors(t, w), TotalsOf(t, g), 0x1_0000);
  }

  function LastWord(): (f: Bigram -> nat)
    ensures forall e :: f(e) < 0x1_0000
  {
    (e: Bigram) => Word(e.w1)
  }

  function Word(w: u16): nat {
    w
  }

  /** Flooring each share of `total` loses something and gains nothing. */
  lemma {:induction false} FloorSum(f: nat -> nat, g: nat -> nat, n: nat, num: nat, den: nat)
    requires den > 0 && forall i :: 0 <= i < n ==> g(i) <= f(i) * num / den
    ensures SumTo(g, n) * den <= SumTo(f, n) * num
  {
    if n > 0 {
      FloorSum(f, g, n - 1, num, den);
      ShareBound(f(n - 1), g(n - 1), num, den);
      Distribute(SumTo(g, n - 1), g(n - 1), den);
      Distribute(SumTo(f, n - 1), f(n - 1), num);
    }
  }

  lemma Distribute(a: nat, b: nat, n: nat)
    ensures (a + b) * n == a * n + b * n
  {
  }

  lemma ShareBound(x: nat, y: nat, num: nat, den: nat)
    requires den > 0 && y <= x * num / den
    ensures y * den <= x * num
  {
    var q := x * num / den;
    assert q * den <= x * num;
    assert y * den <= q * den;
  }

  /** The unigram probabilities of all words add up to at most one. */
  lemma UnigramsFit(m: Tables)
    requires Sized(m)
    ensures SumTo(w => Unigram(m, w), 0x1_0000) <= FP_ONE
  {
    var n := Occupied(m.bi);
    OccupiedBound(m.bi);
    if n == 0 {
      SumToZero(w => Unigram(m, w), 0x1_0000);
    } else {
      PredecessorsSum(m.bi);
      forall w: nat | w < 0x1_0000 ensures Unigram(m, w) <= Predecessors(m.bi, w) * FP_ONE / n {
        UnigramIs(m, w);
      }
      FloorSum(w => Predecessors(m.bi, w), w => Unigram(m, w), 0x1_0000, FP_ONE, n);
      assert SumTo(w => Unigram(m, w), 0x1_0000) * n <= n * FP_ONE;
      Cancel(SumTo(w => Unigram(m, w), 0x1_0000), FP_ONE, n);
    }
  }

  lemma {:induction false} OccupiedBound(t: seq<Bigram>)
    ensures Occupied(t) <= |t|
  {
    if |t| > 0 {
      OccupiedBound(t[..|t| - 1]);
      PresentIs(t[|t| - 1]);
    }
  }

  /** No cast in the unigram probability loses anything. */
  lemma UnigramIs(m: Tables, w: nat)
    requires Sized(m) && Occupied(m.bi) > 0
    ensures Unigram(m, w) == Predecessors(m.bi, w) * FP_ONE / Occupied(m.bi)
  {
    OccupiedBound(m.bi);
    forall e: Bigram ensures PrecedesOf(w)(e) <= Present()(e) {
      PresentIs(e);
      assert PrecedesOf(w)(e) == if BiKey()(e).Some? && e.w1 == w then 1 else 0;
    }
    TotalLe(m.bi, PrecedesOf(w), Present());
    ShareFits(Predecessors(m.bi, w), Occupied(m.bi));
  }

  lemma ShareFits(p: nat, n: nat)
    requires 0 < n <= U32_MAX && p <= n
    ensures FpDiv(p, n) == p * FP_ONE / n
  {
    assert p * FP_ONE < n * (FP_ONE + 1);
    QuotientBelow(p * FP_ONE, n, FP_ONE + 1);
  }

  // ---------------------------------------------------------------- discount law

  function DiscountOf(c: Bi, total: nat): Trigram -> nat {
    (e: Trigram) => OnlyIf(TriKey()(e).Some? && e.w0 == c.w0 && e.w1 == c.w1, Discounted(e.count, total))
  }

  function DiscountAt(c: Bi, total: nat, w: nat): Trigram -> nat {
    (e: Trigram) => OnlyIf(TriKey()(e).Some? && e.w0 == c.w0 && e.w1 == c.w1 && e.w2 == w, Discounted(e.count, total))
  }

  lemma DiscountOfIs(c: Bi, total: nat, e: Trigram)
    ensures DiscountOf(c, total)(e)
         == if TriKey()(e).Some? && e.w0 == c.w0 && e.w1 == c.w1 then Discounted(e.count, total) else 0
  {
  }

  lemma DiscountAtIs(c: Bi, total: nat, w: nat, e: Trigram)
    ensures DiscountAt(c, total, w)(e)
         == if TriKey()(e).Some? && e.w0 == c.w0 && e.w1 == c.w1 && e.w2 == w then Discounted(e.count, total) else 0
  {
  }

  lemma CountInIs(c: Bi, e: Trigram)
    ensures CountIn(c)(e) == if TriKey()(e).Some? && e.w0 == c.w0 && e.w1 == c.w1 then e.count else 0
    ensures BranchOf(c)(e) == if TriKey()(e).Some? && e.w0 == c.w0 && e.w1 == c.w1 then 1 else 0
  {
  }

  lemma CountOfIs(k: Tri, e: Trigram)
    ensures CountOf(k)(e) == if TriKey()(e) == Some(k) then e.count else 0
    ensures TriKey()(e) == if e.w0 == EMPTY_WORD then None else Some(Tri(e.w0, e.w1, e.w2))
  {
  }

  /** One word's mass is the discount of the one slot that may hold its trigram. */
  lemma WordMassIsTotal(t: seq<Trigram>, c: Bi, total: nat, w: nat)
    requires Intact(t, TriKey(), TriHome()) && w < 0x1_0000
    ensures WordMass(t, c, total, w) == Total(t, DiscountAt(c, total, w))
  {
    var k := Tri(c.w0, c.w1, w);
    forall i | 0 <= i < |t| && TriKey()(t[i]) != Some(k)
      ensures CountOf(k)(t[i]) == 0 && DiscountAt(c, total, w)(t[i]) == 0
    {
      CountOfIs(k, t[i]);
      DiscountAtIs(c, total, w, t[i]);
    }
    if s :| 0 <= s < |t| && TriKey()(t[s]) == Some(k) {
      assert forall i :: 0 <= i < |t| && i != s ==> TriKey()(t[i]) != Some(k);
      CountOfIs(k, t[s]);
      DiscountAtIs(c, total, w, t[s]);
      TotalSingle(t, CountOf(k), s);
      TotalSingle(t, DiscountAt(c, total, w), s);
    } else {
      TotalZero(t, CountOf(k));
      TotalZero(t, DiscountAt(c, total, w));
    }
  }

  function NextWord(): Trigram -> nat {
    (e: Trigram) => Word(e.w2)
  }

  lemma NextWordIs(e: Trigram)
    ensures NextWord()(e) == e.w2
  {
  }

  /** The masses of all words are the discounts of the context's slots. */
  lemma WordMassesAreTotal(t: seq<Trigram>, c: Bi, total: nat)
    requires Intact(t, TriKey(), TriHome())
    ensures SumTo(w => WordMass(t, c, total, w), 0x1_0000) == Total(t, DiscountOf(c, total))
  {
    var g := (w: nat) => DiscountAt(c, total, w);
    forall e: Trigram, i: nat
      ensures g(i)(e) == if NextWord()(e) == i then DiscountOf(c, total)(e) else 0
    {
      assert g(i) == DiscountAt(c, total, i);
      DiscountAtIs(c, total, i, e);
      DiscountOfIs(c, total, e);
      NextWordIs(e);
    }
    forall e: Trigram ensures NextWord()(e) < 0x1_0000 {
      NextWordIs(e);
    }
    SumOfTotals(t, g, NextWord(), DiscountOf(c, total), 0x1_0000);
    forall w: nat | w < 0x1_0000 ensures WordMass(t, c, total, w) == Total(t, g(w)) {
      WordMassIsTotal(t, c, total, w);
    }
    SumToSame(w => WordMass(t, c, total, w), TotalsOf(t, g), 0x1_0000);
  }

  lemma CancelShift(a: nat, b: nat)
    requires b > 0
    ensures a * 0x1_0000 / (b * 0x1_0000) == a / b
  {
    var q, r := a / b, a % b;
    assert a == q * b + r;
    assert a * 0x1_0000 == q * (b * 0x1_0000) + r * 0x1_0000;
    QuotientIs(a * 0x1_0000, b * 0x1_0000, q, r * 0x1_0000);
  }

  lemma Shl16Is(x: nat)
    ensures Shl16(x) == x % 0x1_0000 * 0x1_0000
  {
  }

  /** The code's discount is a floored share of the truncated total. */
  lemma DiscountedIs(count: u16, total: nat)
    requires count >= 1 && total % 0x1_0000 > 0
    ensures Discounted(count, total) == ((count as int) * 0x1_0000 - DISCOUNT) / (total % 0x1_0000)
  {
    var d := total % 0x1_0000;
    var sub := (count as int) * 0x1_0000 - DISCOUNT;
    Shl16Is(count);
    Shl16Is(total);
    CancelShift(sub, d);
    QuotientBelow(sub, d, 0x1_0000_0000);
    FpDivIs(sub, d * 0x1_0000, sub / d);
  }

  lemma FpDivIs(a: u32, b: u32, q: nat)
    requires b > 0 && (a as int) * 0x1_0000 / b == q < 0x1_0000_0000
    ensures FpDiv(a, b) == q
  {
  }

  lemma DiscountedBounds(count: u16, total: nat)
    requires count >= 1 && total % 0x1_0000 > 0
    ensures var d := total % 0x1_0000;
      Discounted(count, total) * d + DISCOUNT <= (count as int) * 0x1_0000
      <= Discounted(count, total) * d + DISCOUNT + (d - 1)
  {
    DiscountedIs(count, total);
    var d := total % 0x1_0000;
    var sub := (count as int) * 0x1_0000 - DISCOUNT;
    assert sub == sub / d * d + sub % d;
  }

  /** Slot by slot: each discounted count keeps its share less the discount, up to flooring. */
  lemma {:induction false} DiscountTotals(t: seq<Trigram>, c: Bi, total: nat)
    requires forall s :: 0 <= s < |t| && TriKey()(t[s]).Some? ==> t[s].count >= 1
    requires total % 0x1_0000 > 0
    ensures var d, k := total % 0x1_0000, Branches(t, c);
      Total(t, DiscountOf(c, total)) * d + DISCOUNT * k <= ContextCount(t, c) * 0x1_0000
      <= Total(t, DiscountOf(c, total)) * d + DISCOUNT * k + k * (d - 1)
  {
    if |t| > 0 {
      var p, e := t[..|t| - 1], t[|t| - 1];
      DiscountTotals(p, c, total);
      DiscountOfIs(c, total, e);
      CountInIs(c, e);
      if TriKey()(e).Some? && e.w0 == c.w0 && e.w1 == c.w1 {
        DiscountedBounds(e.count, total);
        OneSlotMore(Total(p, DiscountOf(c, total)), Discounted(e.count, total), Branches(p, c), total % 0x1_0000);
      }
    }
  }

  lemma OneSlotMore(s: nat, x: nat, k: nat, d: nat)
    requires d > 0
    ensures (s + x) * d == s * d + x * d && (k + 1) * (d - 1) == k * (d - 1) + (d - 1)
  {
  }

  /** The back-off weight takes no more than the discount of every branch. */
  lemma GammaBound(n: u16, total: nat)
    requires total % 0x1_0000 > 0
    ensures Gamma(n, total) * (total % 0x1_0000) <= DISCOUNT * n
  {
    var d := total % 0x1_0000;
    Shl16Is(n);
    Shl16Is(total);
    CancelShift((n as int) * 0x1_0000, d);
    QuotientBelow((n as int) * 0x1_0000, d, 0x1_0000_0000);
    var q := (n as int) * 0x1_0000 / d;
    FpDivIs(Shl16(n), Shl16(total), q);
    GammaFits(n, q, d);
  }

  lemma GammaFits(n: u16, q: u32, d: nat)
    requires d > 0 && q == (n as int) * 0x1_0000 / d
    ensures FpMul(DISCOUNT, q) * d <= DISCOUNT * n
  {
    var g := FpMul(DISCOUNT, q);
    assert g * 0x1_0000 <= DISCOUNT * q;
    ShareBound(n, q, 0x1_0000, d);
    TwoShares(g, q, d, n);
  }

  lemma TwoShares(g: nat, q: nat, d: nat, n: nat)
    requires g * 0x1_0000 <= DISCOUNT * q && q * d <= n * 0x1_0000
    ensures g * d <= DISCOUNT * n
  {
    ProductLe(g * 0x1_0000, d, DISCOUNT * q, d);
    assert DISCOUNT * q * d == DISCOUNT * (q * d);
    assert g * 0x1_0000 * d == 0x1_0000 * (g * d);
  }

  lemma ContextBelow(t: seq<Trigram>, c: Bi, m: Tables)
    requires Sound(m) && t == m.tri
    ensures Continuations(m.bi, c) <= Branches(t, c) <= MAX_TRIGRAMS
  {
    BranchesBound(t, c);
    assert Agree(m, c);
    if !Holds(m.bi, BiKey(), c) { ContinuationsIfAbsent(m.bi, c); }
  }

  /** A total whose low half is zero divides nothing: every mass is zero. */
  lemma ZeroDivisor(m: Tables, c: Bi)
    requires Sized(m) && ContextCount(m.tri, c) % 0x1_0000 == 0
    ensures ContextMass(m, c) == 0
  {
    var total := ContextCount(m.tri, c);
    Shl16Is(total);
    forall w: nat ensures WordMass(m.tri, c, total, w) == 0 {
    }
    SumToZero(w => WordMass(m.tri, c, total, w), 0x1_0000);
  }

  lemma UpperBound(a: nat, g: nat, d: nat, n: nat, k: nat)
    requires d > 0 && n <= k && a * d + DISCOUNT * k <= d * 0x1_0000 && g * d <= DISCOUNT * n
    ensures a + g <= 0x1_0000
  {
    assert (a + g) * d == a * d + g * d;
    Cancel(a + g, 0x1_0000, d);
  }

  lemma LowerBound(a: nat, d: nat, total: nat, k: nat)
    requires 0 < d < 0x1_0000 && total >= d + 0x1_0000 && k <= MAX_TRIGRAMS
    requires total * 0x1_0000 <= a * d + DISCOUNT * k + k * (d - 1)
    ensures a > 0x1_0000
  {
    ProductLe(k, d - 1, 32768, 0xFFFE);
    if a <= 0x1_0000 {
      ProductLe(a, d, 0x1_0000, d);
    }
  }

  lemma ProductLe(a: nat, b: nat, x: nat, y: nat)
    requires a <= x && b <= y
    ensures a * b <= x * y
  {
    assert a * b <= x * b;
    assert x * b <= x * y;
  }

  /** The mass of a context as slots, and how its parts are bounded. */
  lemma MassParts(m: Tables, c: Bi) returns (a: nat, g: nat, n: nat, k: nat)
    requires Sound(m) && ContextCount(m.tri, c) % 0x1_0000 > 0
    ensures ContextMass(m, c) == a + g && n <= k <= MAX_TRIGRAMS
    ensures var total := ContextCount(m.tri, c); var d := total % 0x1_0000;
      && g * d <= DISCOUNT * n
      && a * d + DISCOUNT * k <= total * 0x1_0000 <= a * d + DISCOUNT * k + k * (d - 1)
  {
    var total := ContextCount(m.tri, c);
    a, n, k := Total(m.tri, DiscountOf(c, total)), Continuations(m.bi, c), Branches(m.tri, c);
    g := Gamma(Saturate16(n), total);
    WordMassesAreTotal(m.tri, c, total);
    DiscountTotals(m.tri, c, total);
    ContextBelow(m.tri, c, m);
    GammaBound(Saturate16(n), total);
  }

  /** In every sound model and every context seen at least once, the discounted probabilities of all
      words and the back-off weight add up to at most one, exactly when the 16-bit shift of the
      context's total loses nothing or leaves nothing. */
  lemma ContextMassFitsIff(m: Tables, c: Bi)
    requires Sound(m) && ContextCount(m.tri, c) > 0
    ensures ContextMass(m, c) <= FP_ONE
       <==> ContextCount(m.tri, c) < 0x1_0000 || ContextCount(m.tri, c) % 0x1_0000 == 0
  {
    if ContextCount(m.tri, c) % 0x1_0000 == 0 {
      ZeroDivisor(m, c);
    } else {
      var a, g, n, k := MassParts(m, c);
      PartsFitIff(a, g, n, k, ContextCount(m.tri, c));
    }
  }

  lemma PartsFitIff(a: nat, g: nat, n: nat, k: nat, total: nat)
    requires total % 0x1_0000 > 0 && n <= k <= MAX_TRIGRAMS
    requires g * (total % 0x1_0000) <= DISCOUNT * n
    requires a * (total % 0x1_0000) + DISCOUNT * k <= total * 0x1_0000
    requires total * 0x1_0000 <= a * (total % 0x1_0000) + DISCOUNT * k + k * (total % 0x1_0000 - 1)
    ensures a + g <= FP_ONE <==> total < 0x1_0000
  {
    var d := total % 0x1_0000;
    if total < 0x1_0000 {
      UpperBound(a, g, d, n, k);
    } else {
      LowerBound(a, d, total, k);
    }
  }

  /** The same over whole runs. */
  lemma EveryRunConserves(run: seq<Tri>, c: Bi)
    requires 0 < ContextCount(ObservedAll(run).tri, c) < 0x1_0000
    ensures ContextMass(ObservedAll(run), c) <= FP_ONE
  {
    EveryRunIsSound(run);
    ContextMassFitsIff(ObservedAll(run), c);
  }
}
