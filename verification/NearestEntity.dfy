/** When the entity a mention resolves to is a nearest one. */
module NearestEntity {
  import opened Bits
  import opened Options
  import opened Fingerprint
  import opened Lsh
  import opened Correlation
  import opened Promotion

  /** Every stored entity is at least that far away. */
  ghost predicate Least(es: seq<Entity>, fp: u64, d: nat) {
    forall j :: 0 <= j < |es| ==> d <= Hamming(fp, es[j].fingerprint)
  }

  /** The mention is resolved to an entity no other is nearer than. */
  ghost predicate GetsNearest(es: seq<Entity>, fp: u64) {
    exists i: nat :: i < |es| && Least(es, fp, Hamming(fp, es[i].fingerprint))
      && forall node :: Resolved(es, fp, node) == Resolution(es, Some(es[i].id))
  }

  // ---------------------------------------------------------------- one index

  /** The match chosen is a nearest entity if and only if one of the first eight in probing order is. */
  lemma BestIsNearestIff(es: seq<Entity>, fp: u64)
    requires |Answer(es, fp, MATCH_THRESHOLD, CANDIDATES)| > 0
    ensures var ms := Answer(es, fp, MATCH_THRESHOLD, CANDIDATES);
      Least(es, fp, Best(ms).distance) <==> exists k :: 0 <= k < |ms| && Least(es, fp, ms[k].distance)
  {
    var ms := Answer(es, fp, MATCH_THRESHOLD, CANDIDATES);
    BestIsLeast(ms);
    var b :| 0 <= b < |ms| && ms[b] == Best(ms);
    if k :| 0 <= k < |ms| && Least(es, fp, ms[k].distance) {
      assert ms[k] in ms;
    }
  }

  /** While no more than eight entities are in range, the one returned is a nearest one. */
  lemma ResolvedIsNearest(es: seq<Entity>, fp: u64)
    requires 0 < |AllWithin(es, fp, MATCH_THRESHOLD)| <= CANDIDATES
    ensures GetsNearest(es, fp)
  {
    var hits := Hits(es, fp, MATCH_THRESHOLD);
    var ms := Answer(es, fp, MATCH_THRESHOLD, CANDIDATES);
    AnswerSize(es, fp, MATCH_THRESHOLD, CANDIDATES);
    CompleteUpToSeven(es, fp, MATCH_THRESHOLD);
    HitsExact(es, fp, MATCH_THRESHOLD);
    SizeOf(hits, AllWithin(es, fp, MATCH_THRESHOLD));
    assert hits[..|hits|] == hits;
    BestIsLeast(ms);
    var k :| 0 <= k < |ms| && ms[k] == Best(ms);
    var i := hits[k];
    assert i in hits;
    forall j: nat | j < |es| ensures Hamming(fp, es[i].fingerprint) <= Hamming(fp, es[j].fingerprint) {
      if Within(es, fp, MATCH_THRESHOLD, j) {
        assert j in AllWithin(es, fp, MATCH_THRESHOLD);
        var l :| 0 <= l < |hits| && hits[l] == j;
        assert ms[l].distance == Hamming(fp, es[j].fingerprint);
        assert ms[l] in ms;
      }
    }
  }

  // ---------------------------------------------------------------- more than eight in range

  /** Six bits from `8 + 6 * i` on; the ninth has only five. */
  function Block(i: nat): nat {
    (if i < 8 then 63 else 31) * Pow2(8 + 6 * i)
  }

  lemma BlockFits(i: nat)
    requires i <= 8
    ensures Block(i) < 0x1_0000_0000_0000_0000
  {
    if i < 8 {
      Pow2Add(8 + 6 * i, 6);
      assert Pow2(6) == 64;
      if 14 + 6 * i < 64 { Pow2Grows(14 + 6 * i, 64); }
    } else {
      Pow2Add(56, 5);
      assert Pow2(5) == 32;
      Pow2Grows(61, 64);
    }
    Pow2Values();
  }

  lemma {:induction false} HammingShift(a: nat, b: nat, k: nat)
    ensures Hamming(a * Pow2(k), b * Pow2(k)) == Hamming(a, b)
  {
    if k > 0 {
      var p := Pow2(k - 1);
      TimesTwice(a, p);
      TimesTwice(b, p);
      HammingDouble(a * p, b * p);
      HammingShift(a, b, k - 1);
    }
  }

  lemma TimesTwice(a: nat, p: nat)
    ensures a * (2 * p) == 2 * (a * p)
  {
  }

  lemma HammingDouble(x: nat, y: nat)
    ensures Hamming(2 * x, 2 * y) == Hamming(x, y)
  {
    HammingHalves(2 * x, 2 * y);
  }

  lemma HammingFromZero(i: nat)
    requires i <= 8
    ensures Hamming(0, Block(i)) == if i < 8 then 6 else 5
  {
    var m := if i < 8 then 63 else 31;
    HammingShift(0, m, 8 + 6 * i);
    SmallOnes();
  }

  /** A block and one further up share no bits. */
  lemma HammingOfBlocks(i: nat, j: nat)
    requires i < j <= 8
    ensures Hamming(Block(i), Block(j)) > MATCH_THRESHOLD
  {
    var m, k := if j < 8 then 63 else 31, 6 * (j - i - 1);
    assert 8 + 6 * i + 6 + k == 8 + 6 * j;
    HammingApart(8 + 6 * i, k, m);
  }

  lemma HammingApart(s: nat, k: nat, m: nat)
    requires m == 63 || m == 31
    ensures Hamming(63 * Pow2(s), m * Pow2(s + 6 + k)) > MATCH_THRESHOLD
  {
    var up := m * Pow2(k);
    BlockShift(s, k, m);
    HammingShift(63, 64 * up, s);
    HammingLowSix(up);
    HammingShift(0, m, k);
    SmallOnes();
  }

  lemma BlockShift(s: nat, k: nat, m: nat)
    ensures m * Pow2(s + 6 + k) == 64 * (m * Pow2(k)) * Pow2(s)
  {
    Pow2Add(6 + k, s);
    Pow2Add(6, k);
    assert Pow2(6) == 64;
    Reassociate(m, Pow2(k), Pow2(s));
  }

  lemma Reassociate(m: nat, p: nat, q: nat)
    ensures m * (64 * p * q) == 64 * (m * p) * q
  {
  }

  lemma SmallOnes()
    ensures Ones(63) == 6 && Ones(31) == 5 && Hamming(0, 63) == 6 && Hamming(0, 31) == 5
  {
    XorZero(63);
    XorZero(31);
  }

  lemma HammingLowSix(up: nat)
    ensures Hamming(63, 64 * up) == 6 + Hamming(0, up)
  {
    LowOnes(31, 32 * up);
    LowOnes(15, 16 * up);
    LowOnes(7, 8 * up);
    LowOnes(3, 4 * up);
    LowOnes(1, 2 * up);
    LowOnes(0, up);
  }

  lemma LowOnes(a: nat, b: nat)
    ensures Hamming(2 * a + 1, 2 * b) == 1 + Hamming(a, b)
  {
    HammingHalves(2 * a + 1, 2 * b);
  }

  /** At least nine entities in the first bucket, the last one bit nearer to zero than the others. */
  ghost predicate IsCrowd(es: seq<Entity>) {
    && |es| > CANDIDATES
    && forall i: nat :: i < |es| ==>
         es[i].fingerprint % 256 == 0 && es[i].id == i + 1
         && Hamming(0, es[i].fingerprint) == if i < |es| - 1 then 6 else 5
  }

  lemma {:induction false} CrowdMembers(es: seq<Entity>, n: nat)
    requires IsCrowd(es) && n <= |es|
    ensures Members(es[..n], 0, 0) == Indices(n)
  {
    if n > 0 {
      CrowdMembers(es, n - 1);
      assert es[..n][..n - 1] == es[..n - 1];
    }
  }

  lemma BlockLow(i: nat)
    requires i <= 8
    ensures Block(i) % 256 == 0
  {
    Pow2Add(8, 6 * i);
    Pow2Values();
    LowByteOf(if i < 8 then 63 else 31, Pow2(6 * i));
  }

  lemma LowByteOf(m: nat, p: nat)
    ensures m * (256 * p) % 256 == 0
  {
    assert m * (256 * p) == 256 * (m * p);
  }

  lemma {:induction false} CrowdMerged(es: seq<Entity>, n: nat)
    requires IsCrowd(es) && n <= |es|
    ensures Merged(es, 0, MATCH_THRESHOLD, [], Indices(n)) == Indices(n)
  {
    if n > 0 {
      CrowdMerged(es, n - 1);
      assert Indices(n)[..n - 1] == Indices(n - 1);
    }
  }

  lemma {:induction false} IndicesCut(n: nat, k: nat)
    requires k <= n
    ensures Indices(n)[..k] == Indices(k)
  {
    if k < n {
      IndicesCut(n - 1, k);
      assert Indices(n)[..k] == Indices(n - 1)[..k];
    }
  }

  lemma {:induction false} FromBandsGrows(es: seq<Entity>, fp: u64, max: nat, n: nat)
    requires n >= 1
    ensures FromBands(es, fp, max, 1) <= FromBands(es, fp, max, n)
  {
    if n > 1 {
      FromBandsGrows(es, fp, max, n - 1);
      FromBandsExact(es, fp, max, n - 1);
      MergedExact(es, fp, max, FromBands(es, fp, max, n - 1), Listed(es, n - 1, Band(fp, n - 1)));
    }
  }

  /** The first eight found are the first eight stored. */
  lemma CrowdHits(es: seq<Entity>)
    requires IsCrowd(es)
    ensures Indices(CANDIDATES) <= Hits(es, 0, MATCH_THRESHOLD)
  {
    var n := Min(BUCKET, |es|);
    assert es[..|es|] == es;
    CrowdMembers(es, |es|);
    IndicesCut(|es|, n);
    IndicesCut(n, CANDIDATES);
    CrowdMerged(es, n);
    assert Listed(es, 0, Band(0, 0)) == Indices(n);
    assert FromBands(es, 0, MATCH_THRESHOLD, 0) == [];
    assert FromBands(es, 0, MATCH_THRESHOLD, 1) == Indices(n);
    FromBandsGrows(es, 0, MATCH_THRESHOLD, BANDS);
    FromBandsExact(es, 0, MATCH_THRESHOLD, BANDS);
    MergedExact(es, 0, MATCH_THRESHOLD, FromBands(es, 0, MATCH_THRESHOLD, BANDS), Indices(|es|));
  }

  /** In a crowd the last entity alone is nearest, and the first is returned. */
  lemma CrowdMisses(es: seq<Entity>)
    requires IsCrowd(es)
    ensures Resolved(es, 0, None).id == Some(es[0].id)
    ensures !GetsNearest(es, 0)
  {
    CrowdHits(es);
    var ms := Answer(es, 0, MATCH_THRESHOLD, CANDIDATES);
    var hits := Hits(es, 0, MATCH_THRESHOLD);
    assert hits[..CANDIDATES] == Indices(CANDIDATES);
    forall k: nat | k < CANDIDATES ensures ms[k] == Match(es[k].id, 6) {
      assert hits[k] == k;
    }
    AllEqualBest(ms);
    forall i: nat | i < |es| && Least(es, 0, Hamming(0, es[i].fingerprint)) ensures es[i].id != es[0].id {
      assert Hamming(0, es[i].fingerprint) <= Hamming(0, es[|es| - 1].fingerprint);
    }
  }

  lemma {:induction false} AllEqualBest(ms: seq<Match>)
    requires |ms| > 0 && forall k :: 0 <= k < |ms| ==> ms[k].distance == ms[0].distance
    ensures Best(ms) == ms[0]
  {
    if |ms| > 1 { AllEqualBest(ms[..|ms| - 1]); }
  }

  lemma CrowdIsInRange(es: seq<Entity>)
    requires IsCrowd(es)
    ensures |AllWithin(es, 0, MATCH_THRESHOLD)| == |es|
  {
    var all := AllWithin(es, 0, MATCH_THRESHOLD);
    forall i ensures i in Indices(|es|) <==> i in all {
      if 0 <= i < |es| { assert Indices(|es|)[i] == i && Within(es, 0, MATCH_THRESHOLD, i); }
    }
    SizeOf(Indices(|es|), all);
  }

  /** Copies of one fingerprint and then a nearer one. */
  lemma CopiesAreACrowd(n: nat) returns (es: seq<Entity>)
    requires CANDIDATES < n <= MAX_ENTITIES
    ensures IsCrowd(es) && |es| == n
  {
    BlockFits(0);
    BlockFits(8);
    BlockLow(0);
    BlockLow(8);
    HammingFromZero(0);
    HammingFromZero(8);
    es := seq(n, i requires 0 <= i < n => Entity(Block(if i < n - 1 then 0 else 8), i + 1));
  }

  /** Eight is the largest number in range for which every index gives a nearest entity. */
  lemma NearestForExactlyIff(n: nat)
    requires 0 < n <= MAX_ENTITIES
    ensures (forall es: seq<Entity>, fp: u64 :: |es| <= MAX_ENTITIES && |AllWithin(es, fp, MATCH_THRESHOLD)| == n
               ==> GetsNearest(es, fp))
       <==> n <= CANDIDATES
  {
    if n <= CANDIDATES {
      forall es: seq<Entity>, fp: u64 | |AllWithin(es, fp, MATCH_THRESHOLD)| == n ensures GetsNearest(es, fp) {
        ResolvedIsNearest(es, fp);
      }
    } else {
      var es := CopiesAreACrowd(n);
      CrowdMisses(es);
      CrowdIsInRange(es);
    }
  }

  // ---------------------------------------------------------------- what a run can build

  /** The index is what resolving some mentions leaves of an empty one. */
  ghost predicate Reachable(es: seq<Entity>) {
    exists ms :: ResolvedAll([], ms).entities == es
  }

  /** A mention for every entity, for which the graph gives its id. */
  function MentionsOf(es: seq<Entity>): (ms: seq<Mention>)
    ensures |ms| == |es|
  {
    seq(|es|, i requires 0 <= i < |es| => Mention(es[i].fingerprint, Some(es[i].id)))
  }

  lemma FarIsNew(es: seq<Entity>, e: Entity)
    requires |es| < MAX_ENTITIES && Apart(es + [e])
    ensures Resolved(es, e.fingerprint, Some(e.id)).entities == es + [e]
  {
    var all := es + [e];
    forall i: nat | i < |es| ensures !Within(es, e.fingerprint, MATCH_THRESHOLD, i) {
      assert Hamming(all[i].fingerprint, all[|es|].fingerprint) > MATCH_THRESHOLD;
      HammingComm(es[i].fingerprint, e.fingerprint);
    }
    assert AllWithin(es, e.fingerprint, MATCH_THRESHOLD) == {};
    AnswerSize(es, e.fingerprint, MATCH_THRESHOLD, CANDIDATES);
  }

  lemma {:induction false} Rebuilt(es: seq<Entity>)
    requires Apart(es) && |es| <= MAX_ENTITIES
    ensures ResolvedAll([], MentionsOf(es)).entities == es
  {
    if |es| > 0 {
      var p, e := es[..|es| - 1], es[|es| - 1];
      assert es == p + [e];
      Rebuilt(p);
      OneMoreMention(p, e);
      FarIsNew(p, e);
    }
  }

  lemma OneMoreMention(p: seq<Entity>, e: Entity)
    ensures MentionsOf(p + [e]) == MentionsOf(p) + [Mention(e.fingerprint, Some(e.id))]
    ensures MentionsOf(p + [e])[..|p|] == MentionsOf(p)
  {
  }

  lemma {:induction false} StaysInRoom(ms: seq<Mention>)
    ensures |ResolvedAll([], ms).entities| <= MAX_ENTITIES
  {
    if |ms| > 0 { StaysInRoom(ms[..|ms| - 1]); }
  }

  /** Resolving mentions from nothing can build exactly the indexes whose fingerprints are apart. */
  lemma ReachableIff(es: seq<Entity>)
    ensures Reachable(es) <==> Apart(es) && |es| <= MAX_ENTITIES
  {
    if ms :| ResolvedAll([], ms).entities == es {
      ResolvedAllKeepsApart([], ms);
      StaysInRoom(ms);
    }
    if Apart(es) && |es| <= MAX_ENTITIES { Rebuilt(es); }
  }

  lemma BlocksAreACrowd() returns (es: seq<Entity>)
    ensures IsCrowd(es) && |es| == 9 && Apart(es)
  {
    forall i: nat | i <= 8 ensures Block(i) < 0x1_0000_0000_0000_0000 { BlockFits(i); }
    es := seq(9, i requires 0 <= i < 9 => Entity(Block(i), i + 1));
    forall i: nat | i <= 8 ensures Hamming(0, es[i].fingerprint) == if i < 8 then 6 else 5 { HammingFromZero(i); }
    forall i: nat | i <= 8 ensures es[i].fingerprint % 256 == 0 { BlockLow(i); }
    forall i: nat, j: nat | i < j <= 8 ensures Hamming(es[i].fingerprint, es[j].fingerprint) > MATCH_THRESHOLD {
      HammingOfBlocks(i, j);
    }
  }

  /** Nine mentions after which a tenth is resolved to an entity that is not the nearest. */
  lemma NearestCanBeMissed() returns (ms: seq<Mention>)
    ensures var es := ResolvedAll([], ms).entities;
      && |ms| == |es| == 9 && Resolved(es, 0, None).id == Some(es[0].id) && es[0].id != es[8].id
      && (forall i :: 0 <= i < 8 ==> Hamming(0, es[8].fingerprint) < Hamming(0, es[i].fingerprint))
      && !GetsNearest(es, 0)
  {
    var es := BlocksAreACrowd();
    ms := MentionsOf(es);
    Rebuilt(es);
    CrowdMisses(es);
  }

  /** In the indexes a run can build, too, eight is the largest number in range up to which the entity
      returned is always a nearest one. */
  lemma NearestUpToIff(n: nat)
    ensures (forall es: seq<Entity>, fp: u64 :: Reachable(es) && 0 < |AllWithin(es, fp, MATCH_THRESHOLD)| <= n
               ==> GetsNearest(es, fp))
       <==> n <= CANDIDATES
  {
    if n <= CANDIDATES {
      forall es: seq<Entity>, fp: u64 | 0 < |AllWithin(es, fp, MATCH_THRESHOLD)| <= n ensures GetsNearest(es, fp) {
        ResolvedIsNearest(es, fp);
      }
    } else {
      var es := BlocksAreACrowd();
      ReachableIff(es);
      CrowdMisses(es);
      CrowdIsInRange(es);
    }
  }
}
