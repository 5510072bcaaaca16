/** The banded index as a function of the entities stored: what a query lists, and when that is everything. */
module Lsh {
  import opened Bits
  import opened Fingerprint

  const BUCKET := 16
  const MAX_ENTITIES := 4096

  datatype Entity = Entity(fingerprint: u64, id: u64)
  datatype Match = Match(id: u64, distance: nat)

  /** The indices of the entities whose `b`-th byte is `v`, in order. */
  function Members(es: seq<Entity>, b: nat, v: nat): seq<nat> {
    if |es| == 0 then []
    else
      var rest, n := Members(es[..|es| - 1], b, v), |es| - 1;
      if Band(es[n].fingerprint, b) == v then rest + [n] else rest
  }

  /** A bucket lists only the first sixteen. */
  function Listed(es: seq<Entity>, b: nat, v: nat): seq<nat> {
    var m := Members(es, b, v);
    m[..Min(BUCKET, |m|)]
  }

  predicate Overflowed(es: seq<Entity>, b: nat, v: nat) {
    |Members(es, b, v)| > BUCKET
  }

  predicate Within(es: seq<Entity>, fp: u64, max: nat, i: nat) {
    i < |es| && Hamming(fp, es[i].fingerprint) <= max
  }

  /** Some bucket the query looks into has overflowed. */
  predicate Fallback(es: seq<Entity>, fp: u64, n: nat) {
    exists b: nat :: b < n && Overflowed(es, b, Band(fp, b))
  }

  /** `found`, then the entities of `list` within the distance that are not there yet. */
  function Merged(es: seq<Entity>, fp: u64, max: nat, found: seq<nat>, list: seq<nat>): seq<nat> {
    if |list| == 0 then found
    else
      var rest, x := Merged(es, fp, max, found, list[..|list| - 1]), list[|list| - 1];
      if Within(es, fp, max, x) && x !in rest then rest + [x] else rest
  }

  /** What the first `n` bands find. */
  function FromBands(es: seq<Entity>, fp: u64, max: nat, n: nat): seq<nat> {
    if n == 0 then []
    else Merged(es, fp, max, FromBands(es, fp, max, n - 1), Listed(es, n - 1, Band(fp, n - 1)))
  }

  function Indices(n: nat): (s: seq<nat>)
    ensures |s| == n && forall i :: 0 <= i < n ==> s[i] == i
  {
    if n == 0 then [] else Indices(n - 1) + [n - 1]
  }

  /** Everything a query finds, in the order it finds it, were the output long enough. */
  function Hits(es: seq<Entity>, fp: u64, max: nat): seq<nat> {
    var found := FromBands(es, fp, max, BANDS);
    if Fallback(es, fp, BANDS) then Merged(es, fp, max, found, Indices(|es|)) else found
  }

  /** What the caller gets with room for `room` matches. */
  function Answer(es: seq<Entity>, fp: u64, max: nat, room: nat): (ms: seq<Match>)
    ensures |ms| <= room
  {
    var hits := Hits(es, fp, max);
    MatchesOf(es, fp, hits[..Min(room, |hits|)])
  }

  function MatchesOf(es: seq<Entity>, fp: u64, hits: seq<nat>): (ms: seq<Match>)
    ensures |ms| == |hits|
  {
    seq(|hits|, i requires 0 <= i < |hits| => MatchOf(es, fp, hits[i]))
  }

  function MatchOf(es: seq<Entity>, fp: u64, i: nat): Match {
    if i < |es| then Match(es[i].id, Hamming(fp, es[i].fingerprint)) else Match(0, 0)
  }

  // ---------------------------------------------------------------- what is listed

  ghost predicate NoDuplicates(s: seq<nat>) {
    forall i, j :: 0 <= i < j < |s| ==> s[i] != s[j]
  }

  lemma {:induction false} MembersExact(es: seq<Entity>, b: nat, v: nat)
    ensures forall i: nat :: i in Members(es, b, v) <==> i < |es| && Band(es[i].fingerprint, b) == v
    ensures forall i, j :: 0 <= i < j < |Members(es, b, v)| ==> Members(es, b, v)[i] < Members(es, b, v)[j]
  {
    if |es| > 0 {
      var p := es[..|es| - 1];
      MembersExact(p, b, v);
      var m := Members(p, b, v);
      forall i: nat | i < |m| ensures m[i] < |p| { assert m[i] in m; }
      assert Members(es, b, v) == if Band(es[|p|].fingerprint, b) == v then m + [|p|] else m;
    }
  }

  lemma {:induction false} MergedExact(es: seq<Entity>, fp: u64, max: nat, found: seq<nat>, list: seq<nat>)
    requires NoDuplicates(found)
    ensures var m := Merged(es, fp, max, found, list);
      && NoDuplicates(m) && found <= m
      && forall i :: i in m <==> i in found || (i in list && Within(es, fp, max, i))
  {
    if |list| > 0 {
      var n := |list| - 1;
      MergedExact(es, fp, max, found, list[..n]);
      assert list == list[..n] + [list[n]];
    }
  }

  /** Being close and in one of the first `n` buckets looked into. */
  ghost predicate Reached(es: seq<Entity>, fp: u64, max: nat, n: nat, i: nat) {
    Within(es, fp, max, i) && exists b: nat :: b < n && i in Listed(es, b, Band(fp, b))
  }

  lemma {:induction false} FromBandsExact(es: seq<Entity>, fp: u64, max: nat, n: nat)
    ensures var m := FromBands(es, fp, max, n);
      NoDuplicates(m) && forall i :: i in m <==> Reached(es, fp, max, n, i)
  {
    if n > 0 {
      FromBandsExact(es, fp, max, n - 1);
      var found, list := FromBands(es, fp, max, n - 1), Listed(es, n - 1, Band(fp, n - 1));
      MergedExact(es, fp, max, found, list);
      forall i: nat ensures Reached(es, fp, max, n, i)
                   <==> Reached(es, fp, max, n - 1, i) || (i in list && Within(es, fp, max, i)) {
      }
    }
  }

  /** The entities a query can see: the close ones that share a byte, or all the close ones after an overflow. */
  ghost predicate Visible(es: seq<Entity>, fp: u64, max: nat, i: nat) {
    Within(es, fp, max, i) && (Fallback(es, fp, BANDS) || SharesBand(fp, es[i].fingerprint))
  }

  lemma ListedIsShared(es: seq<Entity>, fp: u64, b: nat, i: nat)
    ensures i in Listed(es, b, Band(fp, b)) ==> i < |es| && SameBand(fp, es[i].fingerprint, b)
    ensures i < |es| && SameBand(fp, es[i].fingerprint, b) && !Overflowed(es, b, Band(fp, b))
        ==> i in Listed(es, b, Band(fp, b))
  {
    MembersExact(es, b, Band(fp, b));
    var m := Members(es, b, Band(fp, b));
    if i in Listed(es, b, Band(fp, b)) { assert i in m; }
    if |m| <= BUCKET { assert m[..|m|] == m; }
  }

  /** Whatever the output length, a query finds exactly the visible entities, each once. */
  lemma HitsExact(es: seq<Entity>, fp: u64, max: nat)
    ensures NoDuplicates(Hits(es, fp, max))
    ensures forall i :: i in Hits(es, fp, max) <==> Visible(es, fp, max, i)
  {
    FromBandsExact(es, fp, max, BANDS);
    var found := FromBands(es, fp, max, BANDS);
    MergedExact(es, fp, max, found, Indices(|es|));
    forall i: nat ensures i in Hits(es, fp, max) <==> Visible(es, fp, max, i) {
      if Fallback(es, fp, BANDS) {
        if i < |es| { assert Indices(|es|)[i] == i; }
      } else {
        ReachedIsShared(es, fp, max, i);
      }
    }
  }

  lemma ReachedIsShared(es: seq<Entity>, fp: u64, max: nat, i: nat)
    requires !Fallback(es, fp, BANDS)
    ensures Reached(es, fp, max, BANDS, i) <==> Within(es, fp, max, i) && SharesBand(fp, es[i].fingerprint)
  {
    forall b: nat | b < BANDS ensures i in Listed(es, b, Band(fp, b))
      <==> i < |es| && SameBand(fp, es[i].fingerprint, b) {
      ListedIsShared(es, fp, b, i);
    }
    if Within(es, fp, max, i) && SharesBand(fp, es[i].fingerprint) {
      var b: nat :| b < BANDS && SameBand(fp, es[i].fingerprint, b);
      assert i in Listed(es, b, Band(fp, b));
    }
  }

  // ---------------------------------------------------------------- completeness

  ghost function AllWithin(es: seq<Entity>, fp: u64, max: nat): set<nat> {
    set i: nat | i < |es| && Within(es, fp, max, i)
  }

  ghost predicate Complete(es: seq<Entity>, fp: u64, max: nat) {
    forall i :: i in Hits(es, fp, max) <==> i in AllWithin(es, fp, max)
  }

  lemma CompleteUpToSeven(es: seq<Entity>, fp: u64, max: nat)
    requires max < BANDS
    ensures Complete(es, fp, max)
  {
    HitsExact(es, fp, max);
    forall i: nat | Within(es, fp, max, i) ensures Visible(es, fp, max, i) {
      CloseSharesBand(fp, es[i].fingerprint);
    }
  }

  /** One bit in every byte. */
  const SPREAD: u64 := 0x0101_0101_0101_0101

  lemma SpreadFacts()
    ensures Hamming(0, SPREAD) == 8 && !SharesBand(0, SPREAD)
  {
    OnesSpread();
    XorZero(SPREAD);
    forall n: nat | n < BANDS ensures !SameBand(0, SPREAD, n) {
      BandZero(n);
      BandSpread(n);
    }
  }

  lemma {:induction false} BandZero(n: nat)
    ensures Band(0, n) == 0
  {
    if n > 0 { BandZero(n - 1); }
  }

  lemma BandSpread(n: nat)
    requires n < BANDS
    ensures Band(SPREAD, n) == 1
  {
    BandStep(0x01, 0); BandStep(0x0101, 1); BandStep(0x010101, 2); BandStep(0x0101_0101, 3);
    BandStep(0x01_0101_0101, 4); BandStep(0x0101_0101_0101, 5); BandStep(0x01_0101_0101_0101, 6); BandStep(SPREAD, 7);
  }

  lemma BandStep(x: nat, n: nat)
    requires x % 256 == 1
    requires forall k: nat :: k < n ==> Band(x / 256, k) == 1
    ensures forall k: nat :: k <= n ==> Band(x, k) == 1
  {
    forall k: nat | k <= n ensures Band(x, k) == 1 {
      if k > 0 { assert Band(x, k) == Band(x / 256, k - 1); }
    }
  }

  lemma OnesSpread()
    ensures Ones(SPREAD) == 8
  {
    OnesByte(0x01, 0); OnesByte(0x0101, 0x01); OnesByte(0x010101, 0x0101); OnesByte(0x0101_0101, 0x010101);
    OnesByte(0x01_0101_0101, 0x0101_0101); OnesByte(0x0101_0101_0101, 0x01_0101_0101);
    OnesByte(0x01_0101_0101_0101, 0x0101_0101_0101); OnesByte(SPREAD, 0x01_0101_0101_0101);
  }

  lemma OnesByte(x: nat, q: nat)
    requires x == 256 * q + 1
    ensures Ones(x) == 1 + Ones(q)
  {
    assert x / 2 == Pow2(7) * q;
    OnesShifted(q, 7);
  }

  lemma {:induction false} OnesShifted(q: nat, k: nat)
    ensures Ones(Pow2(k) * q) == Ones(q)
  {
    if k > 0 {
      var y := Pow2(k - 1) * q;
      assert Pow2(k) * q == 2 * y;
      assert Ones(2 * y) == Ones(y);
      OnesShifted(q, k - 1);
    }
  }

  /** Seven is the largest distance for which a query always finds every entity in range. */
  lemma CompleteIff(max: nat)
    ensures (forall es: seq<Entity>, fp: u64 :: Complete(es, fp, max)) <==> max < BANDS
  {
    if max < BANDS {
      forall es: seq<Entity>, fp: u64 ensures Complete(es, fp, max) { CompleteUpToSeven(es, fp, max); }
    } else {
      var es := [Entity(SPREAD, 1)];
      SpreadFacts();
      HitsExact(es, 0, max);
      assert 0 in AllWithin(es, 0, max);
      forall b: nat | b < BANDS ensures !Overflowed(es, b, Band(0, b)) {
        MembersBound(es, b, Band(0, b));
      }
      assert !Visible(es, 0, max, 0);
      assert !Complete(es, 0, max);
    }
  }

  lemma {:induction false} MembersBound(es: seq<Entity>, b: nat, v: nat)
    ensures |Members(es, b, v)| <= |es|
  {
    if |es| > 0 { MembersBound(es[..|es| - 1], b, v); }
  }

  lemma {:induction false} SizeOf(s: seq<nat>, all: set<nat>)
    requires NoDuplicates(s) && forall i :: i in s <==> i in all
    ensures |s| == |all|
  {
    if |s| == 0 {
      assert all == {};
    } else {
      var p, x := s[..|s| - 1], s[|s| - 1];
      forall i ensures i in p <==> i in all - {x} {
        if i in p { assert i in s; }
      }
      SizeOf(p, all - {x});
    }
  }

  /** The number of matches: as many as are in range, up to the room there is. */
  lemma AnswerSize(es: seq<Entity>, fp: u64, max: nat, room: nat)
    requires max < BANDS
    ensures |Answer(es, fp, max, room)| == Min(room, |AllWithin(es, fp, max)|)
  {
    CompleteUpToSeven(es, fp, max);
    HitsExact(es, fp, max);
    SizeOf(Hits(es, fp, max), AllWithin(es, fp, max));
  }

  // ---------------------------------------------------------------- nearest

  /** The first of the entities at the least distance. */
  ghost predicate IsNearest(es: seq<Entity>, fp: u64, i: nat) {
    && i < |es|
    && (forall j :: 0 <= j < |es| ==> Hamming(fp, es[i].fingerprint) <= Hamming(fp, es[j].fingerprint))
    && (forall j :: 0 <= j < i ==> Hamming(fp, es[i].fingerprint) < Hamming(fp, es[j].fingerprint))
  }

  lemma HammingBound(a: u64, b: u64)
    ensures Hamming(a, b) <= 64
  {
    Pow2Values();
    XorBound(a, b, 64);
    OnesBound(Xor(a, b), 64);
  }

  lemma {:induction false} OnesBound(x: nat, k: nat)
    requires x < Pow2(k)
    ensures Ones(x) <= k
  {
    if k > 0 { OnesBound(x / 2, k - 1); }
  }
}
