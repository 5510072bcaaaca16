/** Co-occurring entities and the relations promoted from them, over any run of chunks. */
module Promotion {
  import opened Bits
  import opened LittleEndian
  import opened Options
  import opened Lsh
  import opened Sketch
  import opened Correlation

  datatype Pair = Pair(a: u64, b: u64)
  datatype Relation = Relation(pair: Pair, weight: u32)

  /** The unordered pair, lesser entity first. */
  function PairOf(x: u64, y: u64): Pair {
    if x < y then Pair(x, y) else Pair(y, x)
  }

  /** Sixteen bytes, both entities in little-endian order. */
  function Key(p: Pair): Item {
    Encode(p.a, 8) + Encode(p.b, 8)
  }

  /** Different pairs have different keys. */
  lemma KeyInjective(p: Pair, q: Pair)
    requires Key(p) == Key(q)
    ensures p == q
  {
    Pow2Values();
    assert Key(p)[..8] == Encode(p.a, 8) && Key(q)[..8] == Encode(q.a, 8);
    assert Key(p)[8..] == Encode(p.b, 8) && Key(q)[8..] == Encode(q.b, 8);
    EncodeInjective(p.a, q.a, 8);
    EncodeInjective(p.b, q.b, 8);
  }

  // ---------------------------------------------------------------- one co-occurrence

  /** What has been counted, what the filter holds, and the relations promoted. */
  datatype Links = Links(log: seq<Added>, items: seq<Item>, relations: seq<Relation>)

  const NO_LINKS := Links([], [], [])

  ghost function Cooccurred(s: Links, p: Pair): Links {
    var log := s.log + [Added(Key(p), 1)];
    var freq := Estimate(log, Key(p));
    if freq >= PROMOTION_THRESHOLD && !MayContain(s.items, Key(p)) then
      Links(log, s.items + [Key(p)], s.relations + [Relation(p, freq * 0x1_0000 % 0x1_0000_0000)])
    else
      s.(log := log)
  }

  ghost function CooccurredAll(s: Links, run: seq<Pair>): Links {
    if |run| == 0 then s else Cooccurred(CooccurredAll(s, run[..|run| - 1]), run[|run| - 1])
  }

  lemma {:induction false} CooccurredConcat(s: Links, x: seq<Pair>, y: seq<Pair>)
    ensures CooccurredAll(s, x + y) == CooccurredAll(CooccurredAll(s, x), y)
  {
    if |y| == 0 {
      assert x + y == x;
    } else {
      assert (x + y)[..|x + y| - 1] == x + y[..|y| - 1];
      CooccurredConcat(s, x, y[..|y| - 1]);
    }
  }

  /** The filter holds the promoted pairs and nothing else, and no pair has been promoted twice. */
  ghost predicate Once(s: Links) {
    && |s.items| == |s.relations|
    && (forall i :: 0 <= i < |s.relations| ==> s.items[i] == Key(s.relations[i].pair))
    && (forall i, j :: 0 <= i < j < |s.relations| ==> s.relations[i].pair != s.relations[j].pair)
  }

  lemma CooccurredKeepsOnce(s: Links, p: Pair)
    requires Once(s)
    ensures Once(Cooccurred(s, p))
  {
    if !MayContain(s.items, Key(p)) {
      forall i | 0 <= i < |s.relations| ensures s.relations[i].pair != p {
        if s.relations[i].pair == p { assert s.items[i] == Key(p); NoFalseNegatives(s.items, Key(p)); }
      }
    }
  }

  lemma {:induction false} EveryRunPromotesOnce(s: Links, run: seq<Pair>)
    requires Once(s)
    ensures Once(CooccurredAll(s, run))
  {
    if |run| > 0 {
      EveryRunPromotesOnce(s, run[..|run| - 1]);
      CooccurredKeepsOnce(CooccurredAll(s, run[..|run| - 1]), run[|run| - 1]);
    }
  }

  function Times(run: seq<Pair>, p: Pair): nat {
    if |run| == 0 then 0 else Times(run[..|run| - 1], p) + if run[|run| - 1] == p then 1 else 0
  }

  /** The log counts each pair as often as it co-occurred. */
  lemma {:induction false} LogCounts(run: seq<Pair>, p: Pair)
    ensures Count(CooccurredAll(NO_LINKS, run).log, Key(p)) == Times(run, p)
  {
    if |run| > 0 {
      var before, q := CooccurredAll(NO_LINKS, run[..|run| - 1]), run[|run| - 1];
      LogCounts(run[..|run| - 1], p);
      assert (before.log + [Added(Key(q), 1)])[..|before.log|] == before.log;
      if Key(q) == Key(p) { KeyInjective(q, p); }
    }
  }

  lemma ItemsGrow(s: Links, p: Pair, x: Item)
    requires MayContain(s.items, x)
    ensures MayContain(Cooccurred(s, p).items, x)
  {
    MayContainGrows(s.items, Key(p), x);
  }

  lemma CooccurredReports(s: Links, p: Pair)
    ensures Estimate(Cooccurred(s, p).log, Key(p)) >= PROMOTION_THRESHOLD ==> MayContain(Cooccurred(s, p).items, Key(p))
  {
    NoFalseNegatives(s.items + [Key(p)], Key(p));
  }

  /** Every pair that has co-occurred three times is reported by the filter. */
  lemma {:induction false} ThreeTimesIsReported(run: seq<Pair>, p: Pair)
    requires Times(run, p) >= PROMOTION_THRESHOLD
    ensures MayContain(CooccurredAll(NO_LINKS, run).items, Key(p))
  {
    var before, q := CooccurredAll(NO_LINKS, run[..|run| - 1]), run[|run| - 1];
    if q == p {
      LogCounts(run, p);
      NeverUnder(CooccurredAll(NO_LINKS, run).log, Key(p));
      CooccurredReports(before, p);
    } else {
      ThreeTimesIsReported(run[..|run| - 1], p);
      ItemsGrow(before, q, Key(p));
    }
  }

  ghost predicate Promoted(s: Links, p: Pair) {
    exists r :: r in s.relations && r.pair == p
  }

  /** The filter claims a pair it was never given. */
  ghost predicate Shadowed(s: Links, p: Pair) {
    MayContain(s.items, Key(p)) && Key(p) !in s.items
  }

  lemma PromotedStays(s: Links, q: Pair, p: Pair)
    requires Promoted(s, p)
    ensures Promoted(Cooccurred(s, q), p)
  {
    var r :| r in s.relations && r.pair == p;
    assert r in Cooccurred(s, q).relations;
  }

  /** At some point of the run the filter claimed the pair without having been given it. */
  ghost predicate EverShadowed(run: seq<Pair>, p: Pair) {
    exists k :: 0 <= k < |run| && ShadowedAfter(run, k, p)
  }

  ghost predicate ShadowedAfter(run: seq<Pair>, k: nat, p: Pair) {
    k <= |run| && Shadowed(CooccurredAll(NO_LINKS, run[..k]), p)
  }

  /** A pair seen together three times has become a relation, unless the filter wrongly claimed it before. */
  lemma {:induction false} ThreeTimesIsPromoted(run: seq<Pair>, p: Pair)
    requires Times(run, p) >= PROMOTION_THRESHOLD
    ensures Promoted(CooccurredAll(NO_LINKS, run), p) || EverShadowed(run, p)
  {
    var n := |run| - 1;
    if run[n] != p {
      ThreeTimesIsPromoted(run[..n], p);
      OneMoreLater(run, p);
    } else {
      ThirdTime(run, p);
      assert Shadowed(CooccurredAll(NO_LINKS, run[..n]), p) ==> ShadowedAfter(run, n, p);
    }
  }

  lemma OneMoreLater(run: seq<Pair>, p: Pair)
    requires |run| > 0
    requires Promoted(CooccurredAll(NO_LINKS, run[..|run| - 1]), p) || EverShadowed(run[..|run| - 1], p)
    ensures Promoted(CooccurredAll(NO_LINKS, run), p) || EverShadowed(run, p)
  {
    var n := |run| - 1;
    if Promoted(CooccurredAll(NO_LINKS, run[..n]), p) {
      PromotedStays(CooccurredAll(NO_LINKS, run[..n]), run[n], p);
    } else {
      ShadowStays(run, p);
    }
  }

  lemma ShadowStays(run: seq<Pair>, p: Pair)
    requires |run| > 0 && EverShadowed(run[..|run| - 1], p)
    ensures EverShadowed(run, p)
  {
    var q := run[..|run| - 1];
    var k :| 0 <= k < |q| && ShadowedAfter(q, k, p);
    assert q[..k] == run[..k];
    assert ShadowedAfter(run, k, p);
  }

  /** At a co-occurrence that makes three, the pair is promoted or was claimed. */
  lemma ThirdTime(run: seq<Pair>, p: Pair)
    requires |run| > 0 && run[|run| - 1] == p && Times(run, p) >= PROMOTION_THRESHOLD
    ensures Promoted(CooccurredAll(NO_LINKS, run), p) || Shadowed(CooccurredAll(NO_LINKS, run[..|run| - 1]), p)
  {
    var n := |run| - 1;
    LogCounts(run, p);
    NeverUnder(CooccurredAll(NO_LINKS, run).log, Key(p));
    EveryRunPromotesOnce(NO_LINKS, run[..n]);
    PromotedOrShadowed(CooccurredAll(NO_LINKS, run[..n]), p);
  }

  lemma PromotedOrShadowed(s: Links, p: Pair)
    requires Once(s) && Estimate(Cooccurred(s, p).log, Key(p)) >= PROMOTION_THRESHOLD
    ensures Promoted(Cooccurred(s, p), p) || Shadowed(s, p)
  {
    if !MayContain(s.items, Key(p)) {
      assert Cooccurred(s, p).relations[|s.relations|].pair == p;
    } else if Key(p) in s.items {
      var i :| 0 <= i < |s.items| && s.items[i] == Key(p);
      KeyInjective(s.relations[i].pair, p);
      assert s.relations[i] in s.relations;
      PromotedStays(s, p, p);
    }
  }

  // ---------------------------------------------------------------- not before the third

  /** The relation was made by the `n`-th co-occurrence: it is of that pair, the sketch then gave the pair's key at
      least three, which is the weight in Q16, and the filter did not claim the pair. */
  ghost predicate PromotedAt(run: seq<Pair>, n: nat, r: Relation) {
    n < |run| && run[n] == r.pair && !MayContain(CooccurredAll(NO_LINKS, run[..n]).items, Key(r.pair))
    && var estimate := Estimate(CooccurredAll(NO_LINKS, run[..n + 1]).log, Key(r.pair));
      3 <= estimate && r.weight == estimate * 0x1_0000 % 0x1_0000_0000
  }

  /** Every relation was made by a co-occurrence of its pair at which the sketch gave it three or more. */
  lemma {:induction false} PromotedAtThree(run: seq<Pair>, r: Relation) returns (n: nat)
    requires r in CooccurredAll(NO_LINKS, run).relations
    ensures PromotedAt(run, n, r)
  {
    var k := |run| - 1;
    var before := CooccurredAll(NO_LINKS, run[..k]);
    if r in before.relations {
      n := PromotedAtThree(run[..k], r);
      assert run[..k][..n] == run[..n] && run[..k][..n + 1] == run[..n + 1];
    } else {
      n := k;
      assert run[..n + 1] == run;
    }
  }

  /** In row `d` no other pair of the run is counted where `p` is. */
  ghost predicate AloneIn(run: seq<Pair>, p: Pair, d: nat)
    requires d < DEPTH
  {
    forall q :: q in run && Column(Key(q), d) == Column(Key(p), d) ==> q == p
  }

  ghost predicate IsLog(log: seq<Added>, run: seq<Pair>) {
    |log| == |run| && forall i :: 0 <= i < |run| ==> log[i] == Added(Key(run[i]), 1)
  }

  lemma LogMore(log: seq<Added>, run: seq<Pair>)
    requires |run| > 0 && IsLog(log, run[..|run| - 1])
    ensures IsLog(log + [Added(Key(run[|run| - 1]), 1)], run)
  {
  }

  lemma {:induction false} LogIs(run: seq<Pair>)
    ensures IsLog(CooccurredAll(NO_LINKS, run).log, run)
  {
    if |run| > 0 {
      LogIs(run[..|run| - 1]);
      LogMore(CooccurredAll(NO_LINKS, run[..|run| - 1]).log, run);
    }
  }

  /** Such a pair's estimate is how often it co-occurred. */
  lemma EstimateIfAlone(run: seq<Pair>, p: Pair, d: nat)
    requires d < DEPTH && AloneIn(run, p, d)
    ensures Estimate(CooccurredAll(NO_LINKS, run).log, Key(p)) == Min(U32_MAX, Times(run, p))
  {
    var log := CooccurredAll(NO_LINKS, run).log;
    LogIs(run);
    forall i | 0 <= i < |log| && log[i].delta > 0 && Column(log[i].key, d) == Column(Key(p), d)
      ensures log[i].key == Key(p) {
      assert run[i] in run;
    }
    ExactWithoutCollision(log, Key(p), d);
    LogCounts(run, p);
  }

  /** Without a collision a relation is made at exactly the number of co-occurrences that its weight says: three
      or more. */
  lemma PromotedAloneAtThree(run: seq<Pair>, r: Relation, d: nat) returns (n: nat)
    requires d < DEPTH && r in CooccurredAll(NO_LINKS, run).relations && AloneIn(run, r.pair, d)
    ensures PromotedAt(run, n, r) && 3 <= Times(run[..n + 1], r.pair) <= Times(run, r.pair)
    ensures r.weight == Min(U32_MAX, Times(run[..n + 1], r.pair)) * 0x1_0000 % 0x1_0000_0000
  {
    n := PromotedAtThree(run, r);
    var prefix := run[..n + 1];
    forall q | q in prefix && Column(Key(q), d) == Column(Key(r.pair), d) ensures q == r.pair {
      assert q in run;
    }
    EstimateIfAlone(prefix, r.pair, d);
    TimesGrow(run, n + 1, r.pair);
  }

  lemma {:induction false} TimesGrow(run: seq<Pair>, n: nat, p: Pair)
    requires n <= |run|
    ensures Times(run[..n], p) <= Times(run, p)
  {
    if n < |run| {
      TimesGrow(run[..|run| - 1], n, p);
      assert run[..|run| - 1][..n] == run[..n];
    } else {
      assert run[..n] == run;
    }
  }

  /** Without a collision with another pair, the first promotion waits for the third co-occurrence. */
  lemma NotBeforeThree(run: seq<Pair>, p: Pair, d: nat)
    requires d < DEPTH && AloneIn(run, p, d) && Promoted(CooccurredAll(NO_LINKS, run), p)
    ensures Times(run, p) >= 3
  {
    var r :| r in CooccurredAll(NO_LINKS, run).relations && r.pair == p;
    var n := PromotedAloneAtThree(run, r, d);
  }

  // ---------------------------------------------------------------- one chunk

  /** The pairs of entity `i` with the later ones below `j`; zero stands for a mention without an entity. */
  function PairsWith(ids: seq<u64>, i: nat, j: nat): seq<Pair>
    requires i < |ids| && j <= |ids|
  {
    if j <= i + 1 then []
    else
      var rest := PairsWith(ids, i, j - 1);
      if ids[j - 1] == 0 || ids[j - 1] == ids[i] then rest else rest + [PairOf(ids[i], ids[j - 1])]
  }

  function PairsFrom(ids: seq<u64>, n: nat): seq<Pair>
    requires n <= |ids|
  {
    if n == 0 then []
    else if ids[n - 1] == 0 then PairsFrom(ids, n - 1)
    else PairsFrom(ids, n - 1) + PairsWith(ids, n - 1, |ids|)
  }

  ghost predicate Together(ids: seq<u64>, i: int, j: int, p: Pair) {
    0 <= i < j < |ids| && ids[i] != 0 && ids[j] != 0 && ids[i] != ids[j] && p == PairOf(ids[i], ids[j])
  }

  lemma {:induction false} PairsWithExact(ids: seq<u64>, i: nat, j: nat, p: Pair)
    requires i < |ids| && j <= |ids| && ids[i] != 0
    ensures p in PairsWith(ids, i, j) <==> exists k :: k < j && Together(ids, i, k, p)
  {
    if j > i + 1 {
      PairsWithExact(ids, i, j - 1, p);
      assert p in PairsWith(ids, i, j) <==> p in PairsWith(ids, i, j - 1) || Together(ids, i, j - 1, p);
      if k :| k < j && Together(ids, i, k, p) {
        if k < j - 1 { assert k < j - 1 && Together(ids, i, k, p); }
      }
    }
  }

  lemma {:induction false} PairsFromExact(ids: seq<u64>, n: nat, p: Pair)
    requires n <= |ids|
    ensures p in PairsFrom(ids, n) <==> exists i, k :: i < n && Together(ids, i, k, p)
  {
    if n > 0 {
      PairsFromExact(ids, n - 1, p);
      if ids[n - 1] != 0 {
        PairsWithExact(ids, n - 1, |ids|, p);
      }
    }
  }

  /** A chunk's co-occurrences are exactly the pairs of different entities it mentions. */
  lemma CooccurringExactly(ids: seq<u64>, p: Pair)
    ensures p in PairsFrom(ids, |ids|)
       <==> p.a < p.b && p.a != 0 && p.a in ids && p.b in ids
  {
    PairsFromExact(ids, |ids|, p);
    if p.a < p.b && p.a != 0 && p.a in ids && p.b in ids {
      var i :| 0 <= i < |ids| && ids[i] == p.a;
      var j :| 0 <= j < |ids| && ids[j] == p.b;
      if i < j { assert Together(ids, i, j, p); } else { assert Together(ids, j, i, p); }
    }
  }

  datatype Mention = Mention(fingerprint: u64, node: Option<u64>)
  datatype Resolutions = Resolutions(entities: seq<Entity>, ids: seq<u64>, resolved: nat)

  /** The mentions resolved in order; `node` is what the graph answers if asked for a new one. */
  function ResolvedAll(es: seq<Entity>, ms: seq<Mention>): (r: Resolutions)
    ensures |r.ids| == |ms|
  {
    if |ms| == 0 then Resolutions(es, [], 0)
    else
      var p, m := ResolvedAll(es, ms[..|ms| - 1]), ms[|ms| - 1];
      var r := Resolved(p.entities, m.fingerprint, m.node);
      Resolutions(r.entities, p.ids + [if r.id.Some? then r.id.value else 0], p.resolved + if r.id.Some? then 1 else 0)
  }

  lemma {:induction false} ResolvedAllKeepsApart(es: seq<Entity>, ms: seq<Mention>)
    requires Apart(es)
    ensures Apart(ResolvedAll(es, ms).entities)
  {
    if |ms| > 0 {
      var p, m := ResolvedAll(es, ms[..|ms| - 1]), ms[|ms| - 1];
      ResolvedAllKeepsApart(es, ms[..|ms| - 1]);
      ResolvedKeepsApart(p.entities, m.fingerprint, m.node);
    }
  }

  // ---------------------------------------------------------------- any number of chunks

  datatype State = State(entities: seq<Entity>, links: Links)

  ghost function Processed(s: State, ms: seq<Mention>): State {
    var r := ResolvedAll(s.entities, ms);
    State(r.entities, CooccurredAll(s.links, PairsFrom(r.ids, |r.ids|)))
  }

  ghost function ProcessedAll(chunks: seq<seq<Mention>>): State {
    if |chunks| == 0 then State([], NO_LINKS)
    else Processed(ProcessedAll(chunks[..|chunks| - 1]), chunks[|chunks| - 1])
  }

  /** Every co-occurrence of every chunk, in order. */
  ghost function AllPairs(chunks: seq<seq<Mention>>): seq<Pair> {
    if |chunks| == 0 then []
    else
      var r := ResolvedAll(ProcessedAll(chunks[..|chunks| - 1]).entities, chunks[|chunks| - 1]);
      AllPairs(chunks[..|chunks| - 1]) + PairsFrom(r.ids, |r.ids|)
  }

  lemma {:induction false} LinksOfRun(chunks: seq<seq<Mention>>)
    ensures ProcessedAll(chunks).links == CooccurredAll(NO_LINKS, AllPairs(chunks))
  {
    if |chunks| > 0 {
      var p := chunks[..|chunks| - 1];
      LinksOfRun(p);
      var r := ResolvedAll(ProcessedAll(p).entities, chunks[|chunks| - 1]);
      CooccurredConcat(NO_LINKS, AllPairs(p), PairsFrom(r.ids, |r.ids|));
    }
  }

  /** Over any run of chunks: entities stay apart, no pair is promoted twice, and every pair seen
      together three times is reported. */
  lemma {:induction false} EveryRunIsSafe(chunks: seq<seq<Mention>>, p: Pair)
    ensures Apart(ProcessedAll(chunks).entities)
    ensures Once(ProcessedAll(chunks).links)
    ensures Times(AllPairs(chunks), p) >= PROMOTION_THRESHOLD ==> MayContain(ProcessedAll(chunks).links.items, Key(p))
  {
    LinksOfRun(chunks);
    EveryRunPromotesOnce(NO_LINKS, AllPairs(chunks));
    if Times(AllPairs(chunks), p) >= PROMOTION_THRESHOLD { ThreeTimesIsReported(AllPairs(chunks), p); }
    EntitiesStayApart(chunks);
  }

  lemma {:induction false} EntitiesStayApart(chunks: seq<seq<Mention>>)
    ensures Apart(ProcessedAll(chunks).entities)
  {
    if |chunks| > 0 {
      EntitiesStayApart(chunks[..|chunks| - 1]);
      ResolvedAllKeepsApart(ProcessedAll(chunks[..|chunks| - 1]).entities, chunks[|chunks| - 1]);
    }
  }

  /** Over any run of chunks a relation is made only where the sketch has come to three for its pair. */
  lemma EveryPromotionAtThree(chunks: seq<seq<Mention>>, r: Relation) returns (n: nat)
    requires r in ProcessedAll(chunks).links.relations
    ensures PromotedAt(AllPairs(chunks), n, r)
  {
    LinksOfRun(chunks);
    n := PromotedAtThree(AllPairs(chunks), r);
  }

  /** A pair that in some row of the sketch collides with no other, and that the filter never claimed wrongly, is a
      relation if and only if it co-occurred three times. */
  lemma PromotedIff(chunks: seq<seq<Mention>>, p: Pair, d: nat)
    requires d < DEPTH && AloneIn(AllPairs(chunks), p, d)
    ensures Promoted(ProcessedAll(chunks).links, p) ==> Times(AllPairs(chunks), p) >= 3
    ensures !EverShadowed(AllPairs(chunks), p) ==>
      (Promoted(ProcessedAll(chunks).links, p) <==> Times(AllPairs(chunks), p) >= 3)
  {
    LinksOfRun(chunks);
    if Promoted(ProcessedAll(chunks).links, p) { NotBeforeThree(AllPairs(chunks), p, d); }
    if Times(AllPairs(chunks), p) >= 3 { ThreeTimesIsPromoted(AllPairs(chunks), p); }
  }
}
