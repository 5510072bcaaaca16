/** What a score means: shorter documents, more occurrences and rarer terms never count for less. */
module Bm25Score {
  import opened Bits
  import opened Sums
  import opened Rounding
  import opened Bm25
  import opened Bm25Query

  // ---------------------------------------------------------------- floored quotients in order

  lemma QuotientAtLeast(q: nat, x: nat, d: nat)
    requires d > 0 && q * d <= x
    ensures q <= x / d
  {
    FloorBound(x, d);
    if q > x / d { ProductGrows(x / d + 1, q, d); }
  }

  /** A larger fraction has no smaller floor. */
  lemma QuotientsInOrder(x: nat, d: nat, y: nat, e: nat)
    requires d > 0 && e > 0 && x * e <= y * d
    ensures x / d <= y / e
  {
    var q := x / d;
    FloorBound(x, d);
    ProductGrows(q * d, x, e);
    assert q * d * e == q * e * d;
    Cancel(q * e, y, d);
    QuotientAtLeast(q, y, e);
  }

  lemma MoreOverLess(x: nat, y: nat, d: nat, e: nat)
    requires 0 < e <= d && x <= y
    ensures x / d <= y / e
  {
    ProductGrows(x, y, e);
    ProductGrows(e, d, y);
    QuotientsInOrder(x, d, y, e);
  }

  lemma MulInOrder(a: u64, x: u64, y: u64)
    requires x <= y
    ensures Q16Mul(a, x) <= Q16Mul(a, y) && Q16Mul(x, a) <= Q16Mul(y, a)
  {
    ProductGrows(x, y, a);
    MoreOverLess(x * a, y * a, 0x1_0000, 0x1_0000);
  }

  lemma DivInOrder(x: u64, y: u64, d: u64, e: u64)
    requires 0 < e <= d && x <= y
    ensures Q16Div(x, d) <= Q16Div(y, e)
  {
    MoreOverLess(x * 0x1_0000, y * 0x1_0000, d, e);
  }

  // ---------------------------------------------------------------- the parts of a score

  /** What the length adds to the frequency in the denominator. */
  function LengthPart(length: u64, average: u64): u64 {
    Q16Mul(K1_Q16, SatAdd(Q16_ONE - B_Q16, Q16Mul(B_Q16, Q16Div(length, average))))
  }

  function Denominator(frequency: u64, length: u64, average: u64): u64 {
    SatAdd(frequency, LengthPart(length, average))
  }

  lemma ScoreIs(frequency: u64, length: u64, average: u64, idf: u64)
    requires frequency > 0 && average > 0
    ensures Denominator(frequency, length, average) >= frequency
    ensures TermScore(frequency, length, average, idf)
         == Q16Mul(idf, Q16Div(Q16Mul(frequency, 144179), Denominator(frequency, length, average)))
  {
  }

  lemma DenominatorInOrder(frequency: u64, shorter: u64, longer: u64, average: u64)
    requires shorter <= longer && average > 0
    ensures Denominator(frequency, shorter, average) <= Denominator(frequency, longer, average)
  {
    var x, y := Q16Div(shorter, average), Q16Div(longer, average);
    DivInOrder(shorter, longer, average, average);
    MulInOrder(B_Q16, x, y);
    MulInOrder(K1_Q16, SatAdd(Q16_ONE - B_Q16, Q16Mul(B_Q16, x)), SatAdd(Q16_ONE - B_Q16, Q16Mul(B_Q16, y)));
  }

  // ---------------------------------------------------------------- the order of scores

  /** A longer document never scores more. */
  lemma LongerNeverMore(frequency: u64, shorter: u64, longer: u64, average: u64, idf: u64)
    requires shorter <= longer
    ensures TermScore(frequency, longer, average, idf) <= TermScore(frequency, shorter, average, idf)
  {
    if frequency > 0 && average > 0 {
      var n, d, e := Q16Mul(frequency, 144179), Denominator(frequency, longer, average),
        Denominator(frequency, shorter, average);
      DenominatorInOrder(frequency, shorter, longer, average);
      ScoreIs(frequency, shorter, average, idf);
      ScoreIs(frequency, longer, average, idf);
      DivInOrder(n, n, d, e);
      MulInOrder(idf, Q16Div(n, d), Q16Div(n, e));
    }
  }

  /** A rarer term never counts for less. */
  lemma HigherIdfNeverLess(frequency: u64, length: u64, average: u64, low: u64, high: u64)
    requires low <= high
    ensures TermScore(frequency, length, average, low) <= TermScore(frequency, length, average, high)
  {
    if frequency > 0 && average > 0 {
      ScoreIs(frequency, length, average, low);
      ScoreIs(frequency, length, average, high);
      MulInOrder(Q16Div(Q16Mul(frequency, 144179), Denominator(frequency, length, average)), low, high);
    }
  }

  lemma WholeNumerator(n: u16)
    ensures Q16Mul(n * 0x1_0000, 144179) == n * 144179
  {
    assert n * 0x1_0000 * 144179 / 0x1_0000 == n * 144179;
  }

  /** n / (n + c) in order, the sum capped. */
  lemma SharesInOrder(m: nat, n: nat, c: nat, cap: nat)
    requires m <= n && 0 < m
    ensures (m * 144179) * Min(n * 0x1_0000 + c, cap) <= (n * 144179) * Min(m * 0x1_0000 + c, cap)
  {
    var x, y := Min(m * 0x1_0000 + c, cap), Min(n * 0x1_0000 + c, cap);
    if x == cap {
      assert y == cap;
      ProductGrows(m * 144179, n * 144179, cap);
    } else {
      CrossTerms(m, n, c);
      ProductGrows(y, n * 0x1_0000 + c, m);
      assert m * y <= n * x;
      assert (m * 144179) * y == 144179 * (m * y) && (n * 144179) * x == 144179 * (n * x);
    }
  }

  lemma CrossTerms(m: nat, n: nat, c: nat)
    requires m <= n
    ensures m * (n * 0x1_0000 + c) <= n * (m * 0x1_0000 + c)
  {
    ProductGrows(m, n, c);
    assert m * (n * 0x1_0000 + c) == m * n * 0x1_0000 + m * c;
    assert n * (m * 0x1_0000 + c) == m * n * 0x1_0000 + n * c;
  }

  /** More occurrences never score less. */
  lemma MoreOftenNeverLess(m: u16, n: u16, length: u64, average: u64, idf: u64)
    requires m <= n
    ensures TermScore(m * 0x1_0000, length, average, idf) <= TermScore(n * 0x1_0000, length, average, idf)
  {
    if m > 0 && average > 0 {
      var d, e := Denominator(m * 0x1_0000, length, average), Denominator(n * 0x1_0000, length, average);
      ScoreIs(m * 0x1_0000, length, average, idf);
      ScoreIs(n * 0x1_0000, length, average, idf);
      WholeNumerator(m);
      WholeNumerator(n);
      DenominatorIs(m, length, average);
      DenominatorIs(n, length, average);
      SharesInOrder(m, n, LengthPart(length, average), U64_MAX);
      Widened(m * 144179, e, n * 144179, d);
      QuotientsInOrder(m * 144179 * 0x1_0000, d, n * 144179 * 0x1_0000, e);
      MulInOrder(idf, Q16Div(m * 144179, d), Q16Div(n * 144179, e));
    }
  }

  lemma Widened(x: nat, e: nat, y: nat, d: nat)
    requires x * e <= y * d
    ensures x * 0x1_0000 * e <= y * 0x1_0000 * d
  {
    assert x * 0x1_0000 * e == 0x1_0000 * (x * e) && y * 0x1_0000 * d == 0x1_0000 * (y * d);
  }

  lemma DenominatorIs(n: u16, length: u64, average: u64)
    ensures Denominator(n * 0x1_0000, length, average) == Min(n * 0x1_0000 + LengthPart(length, average), U64_MAX)
  {
  }

  /** That the count is whole matters: of two with fractions, the larger can score less. */
  lemma FractionsCanFall()
    ensures TermScore(198386, 0, 65536, 65536) < TermScore(198385, 0, 65536, 65536)
  {
    assert Q16Div(0, 65536) == 0 && Q16Mul(B_Q16, 0) == 0;
    assert LengthPart(0, 65536) == Q16Mul(78643, 16384) == 19660;
    ScoreAt(198385, 436446, 131179);
    ScoreAt(198386, 436448, 131178);
  }

  lemma ScoreAt(frequency: u64, numerator: u64, share: u64)
    requires LengthPart(0, 65536) == 19660 && 0 < frequency < 1000000 && share < 1000000
    requires Q16Mul(frequency, 144179) == numerator && Q16Div(numerator, frequency + 19660) == share
    ensures TermScore(frequency, 0, 65536, 65536) == share
  {
    ScoreIs(frequency, 0, 65536, 65536);
    assert Q16Mul(65536, share) == share;
  }

  // ---------------------------------------------------------------- the size of scores

  /** No score is above 2.2 (in Q16, 144179) times the inverse document frequency. */
  lemma AtMostFactor(frequency: u64, length: u64, average: u64, idf: u64)
    ensures TermScore(frequency, length, average, idf) * 0x1_0000 <= idf * 144179
  {
    if frequency > 0 && average > 0 {
      var n, d := Q16Mul(frequency, 144179), Denominator(frequency, length, average);
      ScoreIs(frequency, length, average, idf);
      ShareAtMost(frequency, n, d);
      ProductGrows(Q16Div(n, d), 144179, idf);
      FloorBound(idf * Q16Div(n, d), 0x1_0000);
    }
  }

  lemma ShareAtMost(frequency: nat, n: u64, d: u64)
    requires 0 < frequency <= d && n * 0x1_0000 <= frequency * 144179
    ensures Q16Div(n, d) <= 144179
  {
    FloorBound(n * 0x1_0000, d);
    ProductGrows(frequency, d, 144179);
    var q := n * 0x1_0000 / d;
    Cancel(q, 144179, d);
  }

  // ---------------------------------------------------------------- the formula

  /** What the length adds without rounding: 1.2 (0.25 + 0.75 length / average). */
  ghost function Extra(length: nat, average: nat): (extra: real)
    requires average > 0
    ensures extra >= 19660.0
  {
    NoLess(length as real / average as real);
    78643.0 * (16384.0 + 49152.0 * (length as real / average as real)) / 65536.0
  }

  lemma NoLess(r: real)
    requires r >= 0.0
    ensures 78643.0 * (16384.0 + 49152.0 * r) / 65536.0 >= 19660.0
  {
  }

  /** 2.2 idf n / (n + extra), the last in Q16. */
  ghost function Reference(n: nat, extra: real, idf: nat): real
    requires 65536.0 * n as real + extra > 0.0
  {
    144179.0 * n as real * idf as real / (65536.0 * n as real + extra)
  }

  lemma Bounded(r: real, x: real, a: real)
    requires a >= 0.0 && r <= x
    ensures a * r / 65536.0 <= a * x / 65536.0
  {
    LeTimes(r, x, a);
  }

  lemma MulAtMost(a: u64, x: u64, y: real)
    requires x as real <= y
    ensures Q16Mul(a, x) as real <= a as real * y / 65536.0
  {
    ProductFloor(a, x);
    Bounded(x as real, y, a as real);
  }

  lemma PartAtMost(length: u64, average: u64)
    requires average > 0
    ensures LengthPart(length, average) as real <= Extra(length, average)
  {
    var r := length as real / average as real;
    RatioAtMost(length, average);
    MulAtMost(B_Q16, Q16Div(length, average), 65536.0 * r);
    MulAtMost(K1_Q16, SatAdd(16384, Q16Mul(B_Q16, Q16Div(length, average))), 16384.0 + 49152.0 * r);
  }

  lemma RatioAtMost(length: u64, average: u64)
    requires average > 0
    ensures Q16Div(length, average) as real <= 65536.0 * (length as real / average as real)
  {
    RealFloor(length * 0x1_0000, average);
    SixteenBits(length as real, average as real);
  }

  lemma SixteenBits(x: real, d: real)
    requires d > 0.0
    ensures x * 65536.0 / d == 65536.0 * (x / d)
  {
  }

  /** Where nothing is capped, three floorings lose less than 3.1. */
  lemma PartAbove(length: u64, average: u64)
    requires average > 0 && length <= average * 0x8000_0000_0000
    ensures Extra(length, average) - 3.1 < LengthPart(length, average) as real
    ensures LengthPart(length, average) < 0x8000_0000_0000_0000
  {
    var r, x := length as real / average as real, Q16Div(length, average);
    RatioAbove(length, average);
    var y := (B_Q16 as int) * x / 0x1_0000;
    ProductFloor(B_Q16, x);
    ProductFloor(K1_Q16, 16384 + y);
    ThreeFloors(r, x as real, y as real, (K1_Q16 * (16384 + y) / 0x1_0000) as real);
  }

  lemma RatioAbove(length: u64, average: u64)
    requires average > 0 && length <= average * 0x8000_0000_0000
    ensures 65536.0 * (length as real / average as real) - 1.0 < Q16Div(length, average) as real
    ensures Q16Div(length, average) <= 0x8000_0000_0000_0000
  {
    RealFloor(length * 0x1_0000, average);
    SixteenBits(length as real, average as real);
    FloorBound(length * 0x1_0000, average);
    var q := length * 0x1_0000 / average;
    Cancel(q, 0x8000_0000_0000_0000, average);
  }

  lemma ThreeFloors(r: real, x: real, y: real, z: real)
    requires 65536.0 * r - 1.0 < x && 49152.0 * x / 65536.0 < y + 1.0 && 78643.0 * (16384.0 + y) / 65536.0 < z + 1.0
    ensures 78643.0 * (16384.0 + 49152.0 * r) / 65536.0 - 3.1 < z
  {
  }

  /** A score from its denominator. */
  lemma ScoreNear(n: u16, d: u64, idf: u64)
    requires d > 0
    ensures var p := (idf * (n * 144179 * 0x1_0000 / d) / 0x1_0000) as real;
      var ideal := 144179.0 * n as real * idf as real / d as real;
      ideal - idf as real / 65536.0 - 1.0 < p <= ideal
  {
    var q, x := n * 144179 * 0x1_0000 / d, 144179.0 * n as real / d as real;
    ShareNear(n, d);
    Exchange(144179.0 * n as real, idf as real, d as real);
    TimesIdf(idf, q, x, 144179.0 * n as real * idf as real / d as real);
  }

  lemma TimesIdf(idf: nat, q: nat, x: real, ideal: real)
    requires q as real <= 65536.0 * x < q as real + 1.0 && ideal == idf as real * x
    ensures ideal - idf as real / 65536.0 - 1.0 < (idf * q / 0x1_0000) as real <= ideal
  {
    ProductFloor(idf, q);
    var lost := Lost(q as real, x, idf as real);
    LessOne((idf * q / 0x1_0000) as real, idf as real * q as real, ideal, lost, idf as real);
  }

  lemma LessOne(p: real, y: real, ideal: real, lost: real, i: real)
    requires p <= y / 65536.0 < p + 1.0 && 65536.0 * ideal == y + lost && 0.0 <= lost <= i
    ensures ideal - i / 65536.0 - 1.0 < p <= ideal
  {
  }

  /** What flooring the second factor loses of a product. */
  lemma Lost(q: real, x: real, idf: real) returns (lost: real)
    requires q <= 65536.0 * x < q + 1.0 && idf >= 0.0
    ensures 65536.0 * (idf * x) == idf * q + lost && 0.0 <= lost <= idf
  {
    var p := 65536.0 * x - q;
    lost := p * idf;
    LeTimes(0.0, p, idf);
    AtMost(p, idf);
    Distribute(q, p, x, idf);
  }

  lemma Distribute(q: real, p: real, x: real, i: real)
    requires 65536.0 * x == q + p
    ensures 65536.0 * (i * x) == i * q + p * i
  {
    calc {
      65536.0 * (i * x);
      i * (65536.0 * x);
      i * (q + p);
      i * q + p * i;
    }
  }

  lemma ShareNear(n: nat, d: nat)
    requires d > 0
    ensures var q, x := (n * 144179 * 0x1_0000 / d) as real, 144179.0 * n as real / d as real;
      q <= 65536.0 * x < q + 1.0
  {
    RealFloor(n * 144179 * 0x1_0000, d);
    assert (n * 144179 * 0x1_0000) as real == 144179.0 * n as real * 65536.0;
    SixteenBits(144179.0 * n as real, d as real);
  }

  lemma Exchange(a: real, b: real, d: real)
    requires d > 0.0
    ensures a * b / d == b * (a / d)
  {
    var x := a / d;
    assert x * d == a;
    assert b * x * d == a * b;
  }

  lemma SmallerDenominator(a: real, d: real, e: real)
    requires 0.0 < d <= e && a >= 0.0
    ensures a / e <= a / d
  {
    var x := a / e;
    assert x * e == a;
    LeTimes(d, e, x);
    assert d * x <= a;
    AtMostQuotient(x, a, d);
  }

  lemma AtMostQuotient(x: real, a: real, d: real)
    requires d > 0.0 && d * x <= a
    ensures x <= a / d
  {
    var y := a / d;
    assert y * d == a;
    if y < x { LessTimes(y, x, d); }
  }

  /** A score is 2.2 idf f / (f + 1.2 (0.25 + 0.75 length / average)), up to the floorings and the largest word. */
  lemma ScoreIsFormula(n: u16, length: u64, average: u64, idf: u64)
    requires n > 0 && average > 0
    ensures var p := TermScore(n * 0x1_0000, length, average, idf); var extra := Extra(length, average);
      && (p == U64_MAX || Reference(n, extra, idf) - idf as real / 65536.0 - 1.0 < p as real)
      && (length <= average * 0x8000_0000_0000 ==> p as real <= Reference(n, extra - 3.1, idf))
  {
    var d := Denominator(n * 0x1_0000, length, average);
    var p := idf * (n * 144179 * 0x1_0000 / d) / 0x1_0000;
    ScoreIs(n * 0x1_0000, length, average, idf);
    WholeNumerator(n);
    DenominatorIs(n, length, average);
    ScoreNear(n, d, idf);
    PartAtMost(length, average);
    var a, f := 144179.0 * n as real * idf as real, 65536.0 * n as real;
    assert a >= 0.0;
    SmallerDenominator(a, d as real, f + Extra(length, average));
    if length <= average * 0x8000_0000_0000 {
      PartAbove(length, average);
      SmallerDenominator(a, f + Extra(length, average) - 3.1, d as real);
    }
  }

  /** At the average length a score is 2.2 idf n / (n + 1.2), short of it by the two floorings. */
  lemma AtAverage(n: u16, average: u64, idf: u64)
    requires n > 0 && average > 0
    ensures var p := TermScore(n * 0x1_0000, average, average, idf); var ideal := Reference(n, 78643.0, idf);
      p as real <= ideal && (p == U64_MAX || ideal - idf as real / 65536.0 - 1.0 < p as real)
  {
    ScoreIs(n * 0x1_0000, average, average, idf);
    WholeNumerator(n);
    AverageAddsOne(average);
    DenominatorIs(n, average, average);
    ScoreNear(n, n * 0x1_0000 + 78643, idf);
  }

  lemma AverageAddsOne(average: u64)
    requires average > 0
    ensures LengthPart(average, average) == 78643
  {
    assert average * 0x1_0000 / average == 0x1_0000;
  }

  // ---------------------------------------------------------------- rare terms

  ghost predicate Monotone(ln: u64 -> u64) {
    forall x: u64, y: u64 :: x <= y ==> ln(x) <= ln(y)
  }

  /** A term in fewer documents has at least as large an inverse document frequency. */
  lemma RarerNeverLess(fewer: nat, more: nat, docs: nat, ln: u64 -> u64)
    requires fewer <= more <= MAX_POSTINGS && docs <= MAX_DOCS && Monotone(ln)
    ensures Idf(more, docs, ln) <= Idf(fewer, docs, ln)
  {
    DivInOrder((Max(docs - more, 0) * 2 + 1) * 0x1_0000, (Max(docs - fewer, 0) * 2 + 1) * 0x1_0000,
               (more * 2 + 1) * 0x1_0000, (fewer * 2 + 1) * 0x1_0000);
  }

  // ---------------------------------------------------------------- whole queries

  /** The two documents contain every query term equally often. */
  ghost predicate SameCounts(calls: seq<Call>, query: seq<Key>, d: nat, e: nat) {
    forall i :: 0 <= i < |query| ==> Frequency(calls, Call(query[i], d)) == Frequency(calls, Call(query[i], e))
  }

  lemma {:induction false} OccursIf(calls: seq<Call>, call: Call)
    ensures call in calls <==> Frequency(calls, call) > 0
  {
    if |calls| > 0 { OccursIf(calls[..|calls| - 1], call); }
  }

  /** Of two documents that contain the query terms equally often, the longer scores no more. */
  lemma {:induction false} LongerScoresNoMore(calls: seq<Call>, docs: nat, query: seq<Key>, shorter: nat, longer: nat,
                                              ln: u64 -> u64)
    requires docs <= MAX_DOCS && SameCounts(calls, query, shorter, longer)
    requires CallsFor(calls, shorter) <= CallsFor(calls, longer)
    ensures Score(calls, docs, query, longer, ln) <= Score(calls, docs, query, shorter, ln)
  {
    if |query| > 0 {
      var rest, key := query[..|query| - 1], query[|query| - 1];
      forall i | 0 <= i < |rest|
        ensures Frequency(calls, Call(rest[i], shorter)) == Frequency(calls, Call(rest[i], longer)) {
        assert rest[i] == query[i];
      }
      LongerScoresNoMore(calls, docs, rest, shorter, longer, ln);
      OccursIf(calls, Call(key, shorter));
      OccursIf(calls, Call(key, longer));
      LongerAddsNoMore(calls, docs, key, shorter, longer, ln);
    }
  }

  lemma LongerAddsNoMore(calls: seq<Call>, docs: nat, key: Key, shorter: nat, longer: nat, ln: u64 -> u64)
    requires docs <= MAX_DOCS && Frequency(calls, Call(key, shorter)) == Frequency(calls, Call(key, longer))
    requires CallsFor(calls, shorter) <= CallsFor(calls, longer)
    ensures Contribution(calls, docs, key, longer, ln) <= Contribution(calls, docs, key, shorter, ln)
  {
    var idf := Idf(Min(DocumentsWith(calls, key, docs), MAX_POSTINGS), docs, ln);
    LongerNeverMore(Frequency(calls, Call(key, shorter)) * 0x1_0000, Length(calls, shorter) * 0x1_0000,
      Length(calls, longer) * 0x1_0000, Average(calls, docs), idf);
  }

  /** The shorter is listed before the longer, unless they tie and the longer was added first. */
  ghost predicate Preceded(scores: seq<nat>, before: seq<nat>, shorter: nat, longer: nat)
    requires shorter < |scores| && longer < |scores|
  {
    shorter in before || (longer <= shorter && scores[longer] == scores[shorter])
  }

  lemma LongerRanksBelow(c: Corpus, query: seq<Key>, shorter: nat, ln: u64 -> u64, picks: seq<nat>, room: nat, i: nat)
    requires |c.ids| <= MAX_DOCS && IsAnswer(Scores(c, query, ln), picks, room)
    requires i < |picks| && picks[i] < |c.ids| && shorter < |c.ids| && SameCounts(c.calls, query, shorter, picks[i])
    requires CallsFor(c.calls, shorter) <= CallsFor(c.calls, picks[i])
    ensures Preceded(Scores(c, query, ln), picks[..i], shorter, picks[i])
  {
    var scores := Scores(c, query, ln);
    LongerScoresNoMore(c.calls, |c.ids|, query, shorter, picks[i], ln);
    assert scores[picks[i]] <= scores[shorter];
    if shorter in picks {
      var j :| 0 <= j < |picks| && picks[j] == shorter;
      if j < i { assert picks[..i][j] == shorter; }
      if i < j { assert Better(scores, picks[i], picks[j]); }
    } else {
      assert Better(scores, picks[i], shorter);
    }
  }

  /** Of any two documents that contain the query terms equally often, the shorter precedes the longer. */
  ghost predicate ShorterFirst(c: Corpus, query: seq<Key>, ln: u64 -> u64, picks: seq<nat>)
    requires |c.ids| <= MAX_DOCS
  {
    forall i: nat, shorter: nat | i < |picks| && shorter < |c.ids| && picks[i] < |c.ids| ::
      SameCounts(c.calls, query, shorter, picks[i]) && CallsFor(c.calls, shorter) <= CallsFor(c.calls, picks[i])
      ==> Preceded(Scores(c, query, ln), picks[..i], shorter, picks[i])
  }

  /** What a query writes lists the shorter first. */
  lemma ShorterListedFirst(c: Corpus, query: seq<Key>, ln: u64 -> u64, room: nat, hits: seq<Hit>)
    requires |c.ids| <= MAX_DOCS && Answers(c, query, ln, room, hits)
    ensures exists picks :: IsHits(c, Scores(c, query, ln), picks, hits) && ShorterFirst(c, query, ln, picks)
  {
    var picks :| IsAnswer(Scores(c, query, ln), picks, room) && IsHits(c, Scores(c, query, ln), picks, hits);
    forall i: nat, shorter: nat | i < |picks| && shorter < |c.ids| && picks[i] < |c.ids|
      && SameCounts(c.calls, query, shorter, picks[i]) && CallsFor(c.calls, shorter) <= CallsFor(c.calls, picks[i])
      ensures Preceded(Scores(c, query, ln), picks[..i], shorter, picks[i])
    {
      LongerRanksBelow(c, query, shorter, ln, picks, room, i);
    }
  }
}
