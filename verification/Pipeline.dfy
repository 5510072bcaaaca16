/** The chunk pipeline's loops, against the steps of Promotion. */
module Pipeline {
  import opened Bits
  import opened Options
  import opened Lsh
  import opened LshIndex
  import opened Sketch
  import opened Correlation
  import opened Promotion

  const MAX_MENTIONS := 32

  method BestOf(candidates: array<Match>, n: nat) returns (best: Match)
    requires 0 < n <= candidates.Length
    ensures best == Best(candidates[..n])
  {
    best := candidates[0];
    var i := 1;
    while i < n
      invariant 1 <= i <= n && best == Best(candidates[..i])
    {
      assert candidates[..i + 1][..i] == candidates[..i];
      if candidates[i].distance < best.distance {
        best := candidates[i];
      }
      i := i + 1;
    }
  }

  method ResolveEntity(m: Mention, lsh: Index) returns (id: Option<u64>)
    requires lsh.Valid()
    modifies lsh, lsh.buckets, lsh.counts, lsh.overflowed, lsh.entities
    ensures lsh.Valid() && Resolution(lsh.Stored(), id) == Resolved(old(lsh.Stored()), m.fingerprint, m.node)
  {
    var candidates := new Match[CANDIDATES](_ => Match(0, 0));
    var n := lsh.Query(m.fingerprint, MATCH_THRESHOLD, candidates);
    if n > 0 {
      var best := BestOf(candidates, n);
      return Some(best.id);
    }
    match m.node
    case None => return None;
    case Some(node) =>
      var ok := lsh.Insert(m.fingerprint, node);
      return Some(node);
  }

  lemma ResolvedMore(es: seq<Entity>, ms: seq<Mention>, k: nat)
    requires k < |ms|
    ensures var p := ResolvedAll(es, ms[..k]);
      var r := Resolved(p.entities, ms[k].fingerprint, ms[k].node);
      ResolvedAll(es, ms[..k + 1])
      == Resolutions(r.entities, p.ids + [if r.id.Some? then r.id.value else 0],
                     p.resolved + if r.id.Some? then 1 else 0)
  {
    assert ms[..k + 1][..k] == ms[..k];
  }

  /** Zero marks a mention for which the graph had no room. */
  method ResolveMentions(ms: seq<Mention>, lsh: Index, ids: array<u64>) returns (resolved: nat)
    requires lsh.Valid() && |ms| <= ids.Length
    modifies lsh, lsh.buckets, lsh.counts, lsh.overflowed, lsh.entities, ids
    ensures lsh.Valid() && Resolutions(lsh.Stored(), ids[..|ms|], resolved) == ResolvedAll(old(lsh.Stored()), ms)
  {
    resolved := 0;
    var k := 0;
    while k < |ms|
      invariant 0 <= k <= |ms| && lsh.Valid()
      invariant Resolutions(lsh.Stored(), ids[..k], resolved) == ResolvedAll(old(lsh.Stored()), ms[..k])
    {
      ResolvedMore(old(lsh.Stored()), ms, k);
      var id := ResolveEntity(ms[k], lsh);
      ids[k] := if id.Some? then id.value else 0;
      resolved := resolved + if id.Some? then 1 else 0;
      assert ids[..k + 1] == ids[..k] + [ids[k]];
      k := k + 1;
    }
    assert ms[..k] == ms;
  }

  /** One co-occurrence: count it, and promote it if it is frequent and not known to the filter. */
  method Cooccur(p: Pair, cooccur: CountMinSketch, seen: BloomFilter, relations: seq<Relation>)
    returns (more: seq<Relation>)
    requires cooccur.Valid() && seen.Valid()
    modifies cooccur, cooccur.table, seen, seen.bits
    ensures cooccur.Valid() && seen.Valid()
    ensures Links(cooccur.log, seen.items, more) == Cooccurred(Links(old(cooccur.log), old(seen.items), relations), p)
  {
    var key := Key(p);
    cooccur.Add(key, 1);
    var freq := cooccur.GetEstimate(key);
    more := relations;
    if freq >= PROMOTION_THRESHOLD {
      var known := seen.Contains(key);
      if !known {
        seen.Insert(key);
        more := relations + [Relation(p, freq as int * 0x1_0000 % 0x1_0000_0000)];
      }
    }
  }

  lemma CooccurredMore(s: Links, run: seq<Pair>, p: Pair)
    ensures CooccurredAll(s, run + [p]) == Cooccurred(CooccurredAll(s, run), p)
  {
    assert (run + [p])[..|run|] == run;
  }

  /** Nothing for a missing entity or the same one. */
  method CooccurIfApart(x: u64, y: u64, cooccur: CountMinSketch, seen: BloomFilter, relations: seq<Relation>)
    returns (more: seq<Relation>)
    requires cooccur.Valid() && seen.Valid()
    modifies cooccur, cooccur.table, seen, seen.bits
    ensures cooccur.Valid() && seen.Valid()
    ensures var was := Links(old(cooccur.log), old(seen.items), relations);
      Links(cooccur.log, seen.items, more) == if y == 0 || y == x then was else Cooccurred(was, PairOf(x, y))
  {
    more := relations;
    if y != 0 && y != x {
      more := Cooccur(if x < y then Pair(x, y) else Pair(y, x), cooccur, seen, more);
    }
  }

  /** All pairs of entity `i` with a later one. */
  method CooccurWith(ids: seq<u64>, i: nat, cooccur: CountMinSketch, seen: BloomFilter, relations: seq<Relation>)
    returns (more: seq<Relation>)
    requires cooccur.Valid() && seen.Valid() && i < |ids| && ids[i] != 0
    modifies cooccur, cooccur.table, seen, seen.bits
    ensures cooccur.Valid() && seen.Valid()
    ensures Links(cooccur.log, seen.items, more)
         == CooccurredAll(Links(old(cooccur.log), old(seen.items), relations), PairsWith(ids, i, |ids|))
  {
    ghost var s := Links(cooccur.log, seen.items, relations);
    more := relations;
    var j := i + 1;
    while j < |ids|
      invariant i < j <= |ids| && cooccur.Valid() && seen.Valid()
      invariant Linked(s, ids, i, j, Links(cooccur.log, seen.items, more))
    {
      ghost var now := Links(cooccur.log, seen.items, more);
      more := CooccurIfApart(ids[i], ids[j], cooccur, seen, more);
      LinkedMore(s, ids, i, j, now, Links(cooccur.log, seen.items, more));
      j := j + 1;
    }
  }

  ghost predicate Linked(s: Links, ids: seq<u64>, i: nat, j: nat, now: Links)
    requires i < |ids| && j <= |ids|
  {
    now == CooccurredAll(s, PairsWith(ids, i, j))
  }

  lemma LinkedMore(s: Links, ids: seq<u64>, i: nat, j: nat, now: Links, next: Links)
    requires i < j < |ids| && Linked(s, ids, i, j, now)
    requires next == if ids[j] == 0 || ids[j] == ids[i] then now else Cooccurred(now, PairOf(ids[i], ids[j]))
    ensures Linked(s, ids, i, j + 1, next)
  {
    CooccurredMore(s, PairsWith(ids, i, j), PairOf(ids[i], ids[j]));
  }

  /** Resolve the mentions, then count and promote their pairs. */
  method ProcessChunk(ms: seq<Mention>, lsh: Index, cooccur: CountMinSketch, seen: BloomFilter,
                      ghost before: seq<Relation>)
    returns (found: nat, resolved: nat, relations: seq<Relation>)
    requires |ms| <= MAX_MENTIONS && lsh.Valid() && cooccur.Valid() && seen.Valid()
    modifies lsh, lsh.buckets, lsh.counts, lsh.overflowed, lsh.entities, cooccur, cooccur.table, seen, seen.bits
    ensures lsh.Valid() && cooccur.Valid() && seen.Valid()
    ensures found == |ms| && resolved == ResolvedAll(old(lsh.Stored()), ms).resolved
    ensures State(lsh.Stored(), Links(cooccur.log, seen.items, before + relations))
         == Processed(State(old(lsh.Stored()), Links(old(cooccur.log), old(seen.items), before)), ms)
  {
    found := |ms|;
    var entityIds := new u64[MAX_MENTIONS](_ => 0);
    resolved := ResolveMentions(ms, lsh, entityIds);
    relations := CooccurAll(entityIds[..found], cooccur, seen, before);
  }

  method CooccurRow(ids: seq<u64>, i: nat, cooccur: CountMinSketch, seen: BloomFilter, relations: seq<Relation>,
      ghost s: Links, ghost before: seq<Relation>)
    returns (more: seq<Relation>)
    requires cooccur.Valid() && seen.Valid() && i < |ids|
    requires LinkedTo(s, ids, i, Links(cooccur.log, seen.items, before + relations))
    modifies cooccur, cooccur.table, seen, seen.bits
    ensures cooccur.Valid() && seen.Valid()
    ensures LinkedTo(s, ids, i + 1, Links(cooccur.log, seen.items, before + more))
  {
    more := relations;
    if ids[i] != 0 {
      ghost var now := Links(cooccur.log, seen.items, relations);
      more := CooccurWith(ids, i, cooccur, seen, relations);
      LinkedToMore(s, ids, i, before, now, Links(cooccur.log, seen.items, more));
    }
  }

  method CooccurAll(ids: seq<u64>, cooccur: CountMinSketch, seen: BloomFilter, ghost before: seq<Relation>)
    returns (relations: seq<Relation>)
    requires cooccur.Valid() && seen.Valid()
    modifies cooccur, cooccur.table, seen, seen.bits
    ensures cooccur.Valid() && seen.Valid()
    ensures Links(cooccur.log, seen.items, before + relations)
         == CooccurredAll(Links(old(cooccur.log), old(seen.items), before), PairsFrom(ids, |ids|))
  {
    ghost var s := Links(cooccur.log, seen.items, before);
    relations := [];
    assert before + [] == before;
    var i := 0;
    while i < |ids|
      invariant 0 <= i <= |ids| && cooccur.Valid() && seen.Valid()
      invariant LinkedTo(s, ids, i, Links(cooccur.log, seen.items, before + relations))
    {
      relations := CooccurRow(ids, i, cooccur, seen, relations, s, before);
      i := i + 1;
    }
  }

  ghost predicate LinkedTo(s: Links, ids: seq<u64>, i: nat, now: Links)
    requires i <= |ids|
  {
    now == CooccurredAll(s, PairsFrom(ids, i))
  }

  lemma LinkedToMore(s: Links, ids: seq<u64>, i: nat, before: seq<Relation>, now: Links, next: Links)
    requires i < |ids| && ids[i] != 0 && LinkedTo(s, ids, i, Prefixed(before, now))
    requires next == CooccurredAll(now, PairsWith(ids, i, |ids|))
    ensures LinkedTo(s, ids, i + 1, Prefixed(before, next))
  {
    RelationsShift(now, before, PairsWith(ids, i, |ids|));
    CooccurredConcat(s, PairsFrom(ids, i), PairsWith(ids, i, |ids|));
  }

  function Prefixed(before: seq<Relation>, s: Links): Links {
    s.(relations := before + s.relations)
  }

  /** Earlier relations change nothing about what is promoted now. */
  lemma {:induction false} RelationsShift(s: Links, before: seq<Relation>, run: seq<Pair>)
    ensures CooccurredAll(Prefixed(before, s), run) == Prefixed(before, CooccurredAll(s, run))
  {
    if |run| > 0 {
      RelationsShift(s, before, run[..|run| - 1]);
      var t, p := CooccurredAll(s, run[..|run| - 1]), run[|run| - 1];
      var log := t.log + [Added(Key(p), 1)];
      var r := Relation(p, Estimate(log, Key(p)) * 0x1_0000 % 0x1_0000_0000);
      assert before + (t.relations + [r]) == before + t.relations + [r];
    }
  }
}
