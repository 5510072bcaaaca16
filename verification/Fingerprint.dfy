/** 64-bit SimHash fingerprints: how they are computed, how far apart two are,
    and why close ones agree on a whole byte. */
module Fingerprint {
  import opened Bits
  import opened Fnv
  import opened Permutations

  const BITS := 64
  const BANDS := 8

  /** The number of one bits. */
  function Ones(x: nat): nat {
    if x == 0 then 0 else x % 2 + Ones(x / 2)
  }

  function Hamming(a: nat, b: nat): nat {
    Ones(Xor(a, b))
  }

  /** The `b`-th byte of a fingerprint, counted from the low end. */
  function Band(fp: nat, b: nat): (v: nat)
    ensures v < 256
  {
    if b == 0 then fp % 256 else Band(fp / 256, b - 1)
  }

  // ---------------------------------------------------------------- distance

  lemma HammingHalves(a: nat, b: nat)
    ensures Hamming(a, b) == Hamming(a / 2, b / 2) + if a % 2 != b % 2 then 1 else 0
  {
    XorHalves(a, b);
  }

  lemma HammingSame(a: nat)
    ensures Hamming(a, a) == 0
  {
    XorSelf(a);
  }

  lemma HammingComm(a: nat, b: nat)
    ensures Hamming(a, b) == Hamming(b, a)
  {
    XorComm(a, b);
  }

  /** The distance is a metric: it is zero only between equal fingerprints. */
  lemma {:induction false} HammingZero(a: nat, b: nat)
    ensures Hamming(a, b) == 0 <==> a == b
  {
    if a == b {
      HammingSame(a);
    } else {
      HammingHalves(a, b);
      HammingZero(a / 2, b / 2);
    }
  }

  lemma {:induction false} HammingTriangle(a: nat, b: nat, c: nat)
    ensures Hamming(a, c) <= Hamming(a, b) + Hamming(b, c)
    decreases a + b + c
  {
    if a + b + c > 0 {
      HammingHalves(a, b);
      HammingHalves(b, c);
      HammingHalves(a, c);
      HammingTriangle(a / 2, b / 2, c / 2);
    }
  }

  /** Differing low bytes cost at least one bit of distance. */
  lemma HammingByte(a: nat, b: nat)
    ensures Hamming(a, b) >= Hamming(a / 256, b / 256) + if a % 256 != b % 256 then 1 else 0
  {
    HammingNibble(a, b);
    HammingNibble(a / 16, b / 16);
    assert a / 16 / 16 == a / 256 && b / 16 / 16 == b / 256;
    assert a % 256 == a / 16 % 16 * 16 + a % 16 && b % 256 == b / 16 % 16 * 16 + b % 16;
  }

  lemma HammingNibble(a: nat, b: nat)
    ensures Hamming(a, b) >= Hamming(a / 16, b / 16) + if a % 16 != b % 16 then 1 else 0
  {
    HammingTwice(a, b);
    HammingTwice(a / 4, b / 4);
    assert a / 4 / 4 == a / 16 && b / 4 / 4 == b / 16;
    assert a % 16 == a / 4 % 4 * 4 + a % 4 && b % 16 == b / 4 % 4 * 4 + b % 4;
  }

  lemma HammingTwice(a: nat, b: nat)
    ensures Hamming(a, b) >= Hamming(a / 4, b / 4) + if a % 4 != b % 4 then 1 else 0
  {
    HammingHalves(a, b);
    HammingHalves(a / 2, b / 2);
    assert a / 2 / 2 == a / 4 && b / 2 / 2 == b / 4;
  }

  /** In how many of the first `n` bands two fingerprints differ. */
  function BandsApart(a: nat, b: nat, n: nat): nat {
    if n == 0 then 0 else BandsApart(a / 256, b / 256, n - 1) + if a % 256 != b % 256 then 1 else 0
  }

  lemma {:induction false} BandsApartBound(a: nat, b: nat, n: nat)
    ensures BandsApart(a, b, n) <= Hamming(a, b)
  {
    if n > 0 {
      HammingByte(a, b);
      BandsApartBound(a / 256, b / 256, n - 1);
    }
  }

  predicate SameBand(a: nat, b: nat, n: nat) {
    Band(a, n) == Band(b, n)
  }

  predicate SharesBand(a: nat, b: nat) {
    exists n: nat :: n < BANDS && SameBand(a, b, n)
  }

  lemma {:induction false} AgreeSomewhere(a: nat, b: nat, n: nat)
    ensures BandsApart(a, b, n) < n <==> exists i: nat :: i < n && SameBand(a, b, i)
    ensures BandsApart(a, b, n) <= n
  {
    if n > 0 {
      AgreeSomewhere(a / 256, b / 256, n - 1);
      if i: nat :| i < n - 1 && SameBand(a / 256, b / 256, i) {
        assert SameBand(a, b, i + 1);
      }
      if i: nat :| i < n && SameBand(a, b, i) {
        if i == 0 { assert a % 256 == b % 256; } else { assert SameBand(a / 256, b / 256, i - 1); }
      }
      if a % 256 == b % 256 { assert SameBand(a, b, 0); }
    }
  }

  /** Eight bands and at most seven differing bits: some band is the same. */
  lemma CloseSharesBand(a: u64, b: u64)
    requires Hamming(a, b) < BANDS
    ensures SharesBand(a, b)
  {
    BandsApartBound(a, b, BANDS);
    AgreeSomewhere(a, b, BANDS);
  }

  // ---------------------------------------------------------------- SimHash

  datatype Feature = Feature(term: seq<byte>, weight: int)

  /** The weights of the terms whose hash has the bit, less the weights of the others. */
  function Vote(fs: seq<Feature>, bit: nat): int {
    if |fs| == 0 then 0
    else Vote(fs[..|fs| - 1], bit) + Ballot(fs[|fs| - 1], bit)
  }

  function Ballot(f: Feature, bit: nat): int {
    if BitAt(Fnv1a(f.term, 0), bit) then f.weight else -f.weight
  }

  ghost predicate IsSimHash(fp: u64, fs: seq<Feature>) {
    forall bit :: 0 <= bit < BITS ==> (BitAt(fp, bit) <==> Vote(fs, bit) > 0)
  }

  method CastVotes(v: array<int>, h: u64, weight: int)
    requires v.Length == BITS
    modifies v
    ensures forall bit :: 0 <= bit < BITS ==> v[bit] == old(v[bit]) + if BitAt(h, bit) then weight else -weight
  {
    var bit := 0;
    while bit < BITS
      invariant 0 <= bit <= BITS
      invariant forall k :: 0 <= k < bit ==> v[k] == old(v[k]) + if BitAt(h, k) then weight else -weight
      invariant forall k :: bit <= k < BITS ==> v[k] == old(v[k])
    {
      if BitAt(h, bit) {
        v[bit] := v[bit] + weight;
      } else {
        v[bit] := v[bit] - weight;
      }
      bit := bit + 1;
    }
  }

  method CollectBits(v: array<int>) returns (fp: u64)
    requires v.Length == BITS
    ensures forall bit :: 0 <= bit < BITS ==> (BitAt(fp, bit) <==> v[bit] > 0)
  {
    Pow2Values();
    var x: nat, bit: nat := 0, 0;
    forall k: nat ensures !BitAt(0, k) { ZeroHasNoBits(k); }
    while bit < BITS
      invariant bit <= BITS && x < Pow2(BITS)
      invariant forall k: nat :: BitAt(x, k) <==> k < bit && v[k] > 0
    {
      if v[bit] > 0 {
        var y := x;
        Pow2Grows(bit, BITS);
        OrBound(y, Pow2(bit), BITS);
        x := Or(y, Pow2(bit));
        forall k: nat ensures BitAt(x, k) <==> BitAt(y, k) || k == bit { OrBit(y, bit, k); }
      }
      bit := bit + 1;
    }
    fp := x;
  }

  method SimHash(fs: seq<Feature>) returns (fp: u64)
    ensures IsSimHash(fp, fs)
  {
    var v := new int[BITS](_ => 0);
    var i := 0;
    while i < |fs|
      invariant 0 <= i <= |fs| && Tallied(v[..], fs[..i])
    {
      ghost var was := v[..];
      var h := Hash(fs[i].term, 0);
      CastVotes(v, h, fs[i].weight);
      TalliedMore(was, v[..], fs, i);
      i := i + 1;
    }
    assert fs[..|fs|] == fs;
    fp := CollectBits(v);
  }

  lemma TalliedMore(was: seq<int>, now: seq<int>, fs: seq<Feature>, i: nat)
    requires i < |fs| && Tallied(was, fs[..i]) && |now| == BITS
    requires forall bit :: 0 <= bit < BITS ==> now[bit] == was[bit] + Ballot(fs[i], bit)
    ensures Tallied(now, fs[..i + 1])
  {
    assert fs[..i + 1][..i] == fs[..i];
  }

  // ---------------------------------------------------------------- words

  predicate IsWhite(b: byte) {
    b == 0x20 || b == 0x09 || b == 0x0A || b == 0x0D
  }

  function SkipWhite(text: seq<byte>, i: nat): (j: nat)
    requires i <= |text|
    ensures i <= j <= |text| && (j < |text| ==> !IsWhite(text[j]))
    decreases |text| - i
  {
    if i < |text| && IsWhite(text[i]) then SkipWhite(text, i + 1) else i
  }

  function WordEnd(text: seq<byte>, i: nat): (j: nat)
    requires i <= |text|
    ensures i <= j <= |text| && (i < |text| && !IsWhite(text[i]) ==> i < j)
    decreases |text| - i
  {
    if i < |text| && !IsWhite(text[i]) then WordEnd(text, i + 1) else i
  }

  /** The whitespace-separated words from position `i` on, each with weight one. */
  function Words(text: seq<byte>, i: nat): seq<Feature>
    requires i <= |text|
    decreases |text| - i
  {
    var s := SkipWhite(text, i);
    if s == |text| then [] else [Feature(text[s..WordEnd(text, s)], 1)] + Words(text, WordEnd(text, s))
  }

  method SkipTo(text: seq<byte>, start: nat) returns (s: nat)
    requires start <= |text|
    ensures s == SkipWhite(text, start)
  {
    s := start;
    while s < |text| && IsWhite(text[s])
      invariant s <= |text| && SkipWhite(text, start) == SkipWhite(text, s)
    {
      s := s + 1;
    }
  }

  method EndOf(text: seq<byte>, start: nat) returns (e: nat)
    requires start <= |text|
    ensures e == WordEnd(text, start)
  {
    e := start;
    while e < |text| && !IsWhite(text[e])
      invariant e <= |text| && WordEnd(text, start) == WordEnd(text, e)
    {
      e := e + 1;
    }
  }

  ghost predicate Tallied(v: seq<int>, fs: seq<Feature>) {
    |v| == BITS && forall bit :: 0 <= bit < BITS ==> v[bit] == Vote(fs, bit)
  }

  method CountWord(v: array<int>, word: seq<byte>, ghost done: seq<Feature>)
    requires Tallied(v[..], done)
    modifies v
    ensures Tallied(v[..], done + [Feature(word, 1)])
  {
    var h := Hash(word, 0);
    CastVotes(v, h, 1);
    assert (done + [Feature(word, 1)])[..|done|] == done;
  }

  /** On to the end of the next word, if there is one, with its votes cast. */
  method NextWord(text: seq<byte>, start: nat, v: array<int>, ghost done: seq<Feature>)
    returns (end: nat, ghost more: seq<Feature>)
    requires start < |text| && v.Length == BITS && Tallied(v[..], done)
    modifies v
    ensures start < end <= |text| && Tallied(v[..], more)
    ensures more + Words(text, end) == done + Words(text, start)
  {
    var word := SkipTo(text, start);
    end := EndOf(text, word);
    more := done;
    if end > word {
      CountWord(v, text[word..end], done);
      WordDone(text, start, done);
      more := done + [Feature(text[word..end], 1)];
    }
  }

  /** The fingerprint of a text is the fingerprint of its words. */
  method SimHashText(text: seq<byte>) returns (fp: u64)
    ensures IsSimHash(fp, Words(text, 0))
  {
    var v := new int[BITS](_ => 0);
    var start := 0;
    ghost var done: seq<Feature> := [];
    while start < |text|
      invariant 0 <= start <= |text|
      invariant done + Words(text, start) == Words(text, 0)
      invariant Tallied(v[..], done)
    {
      start, done := NextWord(text, start, v, done);
    }
    assert done == Words(text, 0);
    fp := CollectBits(v);
  }

  lemma WordDone(text: seq<byte>, start: nat, done: seq<Feature>)
    requires start <= |text| && SkipWhite(text, start) < |text|
    ensures var s := SkipWhite(text, start); var e := WordEnd(text, s);
      done + [Feature(text[s..e], 1)] + Words(text, e) == done + Words(text, start)
  {
    var s := SkipWhite(text, start);
    var e := WordEnd(text, s);
    Appended(done, Feature(text[s..e], 1), Words(text, e));
  }

  lemma Appended(a: seq<Feature>, f: Feature, b: seq<Feature>)
    ensures a + [f] + b == a + ([f] + b)
  {
  }

  lemma {:induction false} VoteConcat(a: seq<Feature>, b: seq<Feature>, bit: nat)
    ensures Vote(a + b, bit) == Vote(a, bit) + Vote(b, bit)
  {
    if |b| == 0 {
      assert a + b == a;
    } else {
      assert (a + b)[..|a + b| - 1] == a + b[..|b| - 1];
      VoteConcat(a, b[..|b| - 1], bit);
    }
  }

  lemma VoteWithout(b: seq<Feature>, i: nat, bit: nat)
    requires i < |b|
    ensures Vote(b, bit) == Vote(b[..i] + b[i + 1..], bit) + Ballot(b[i], bit)
  {
    var p, q := b[..i], b[i + 1..];
    assert b == (p + [b[i]]) + q;
    assert (p + [b[i]])[..|p|] == p;
    VoteConcat(p, q, bit);
    VoteConcat(p + [b[i]], q, bit);
  }

  /** A fingerprint depends on which words there are and how often, not on their order. */
  lemma {:induction false} VoteIgnoresOrder(a: seq<Feature>, b: seq<Feature>, bit: nat)
    requires multiset(a) == multiset(b)
    ensures Vote(a, bit) == Vote(b, bit)
    decreases |a|
  {
    if |a| == 0 {
      SameLength(a, b);
    } else {
      var n := |a| - 1;
      var i := LastOccurs(a, b);
      VoteWithout(b, i, bit);
      RestOfSame(a, b, i);
      VoteIgnoresOrder(a[..n], b[..i] + b[i + 1..], bit);
    }
  }

  lemma SimHashIsUnique(p: u64, q: u64, a: seq<Feature>, b: seq<Feature>)
    requires IsSimHash(p, a) && IsSimHash(q, b) && multiset(a) == multiset(b)
    ensures p == q
  {
    forall bit: nat | bit < BITS ensures BitAt(p, bit) == BitAt(q, bit) {
      VoteIgnoresOrder(a, b, bit);
    }
    Pow2Values();
    SameBits(p, q, BITS);
  }

  lemma {:induction false} SameBits(p: nat, q: nat, n: nat)
    requires p < Pow2(n) && q < Pow2(n) && forall bit: nat :: bit < n ==> BitAt(p, bit) == BitAt(q, bit)
    ensures p == q
  {
    if n > 0 {
      forall bit: nat | bit < n - 1 ensures BitAt(p / 2, bit) == BitAt(q / 2, bit) {
        assert BitAt(p, bit + 1) == BitAt(q, bit + 1);
      }
      assert BitAt(p, 0) == BitAt(q, 0);
      SameBits(p / 2, q / 2, n - 1);
    }
  }
}
