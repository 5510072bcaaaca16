/** The rank engine's arrays and loops, against the vectors of PageRank. */
module PageRankEngine {
  import opened Bits
  import opened Sums
  import opened PageRank
  import opened Options

  function SatAdd64(a: nat, b: nat): nat {
    Min(a + b, U64_MAX)
  }

  method SumOf(a: array<nat>, n: nat) returns (sum: nat)
    requires n <= a.Length
    ensures sum == Sum(a[..n])
  {
    sum := 0;
    var i := 0;
    while i < n
      invariant 0 <= i <= n && sum == Sum(a[..i])
    {
      assert a[..i + 1] == a[..i] + [a[i]];
      SumAppend(a[..i], a[i]);
      sum := sum + a[i];
      i := i + 1;
    }
  }

  method NormalizeInPlace(a: array<nat>, n: nat)
    requires n <= a.Length
    modifies a
    ensures a[..n] == Normalized(old(a[..n]))
    ensures a[n..] == old(a[n..])
  {
    ghost var v := a[..n];
    var sum := SumOf(a, n);
    if sum == 0 {
      return;
    }
    var given := MapInPlace(a, n, x => x * 0x1_0000 / sum, Scaled(v));
    GiveRestInPlace(a, n, given);
  }

  /** What is missing from one unit goes to the last positive entry. */
  method GiveRestInPlace(a: array<nat>, n: nat, given: nat)
    requires n <= a.Length && given == Sum(a[..n])
    modifies a
    ensures a[..n] == GiveRest(old(a[..n]))
    ensures a[n..] == old(a[n..])
  {
    ghost var s := a[..n];
    var k := FindLastPositive(a, n);
    if k > 0 {
      a[k - 1] := a[k - 1] + (WEIGHT_ONE - Min(given, WEIGHT_ONE));
    }
    assert a[..n] == GiveRest(s);
  }

  method FindLastPositive(a: array<nat>, n: nat) returns (k: nat)
    requires n <= a.Length
    ensures k == LastPositive(a[..n])
  {
    k := n;
    while k > 0 && a[k - 1] == 0
      invariant 0 <= k <= n
      invariant LastPositive(a[..k]) == LastPositive(a[..n])
    {
      assert a[..k][..k - 1] == a[..k - 1];
      k := k - 1;
    }
  }

  /** Every entry replaced through `f`, with the total of the new ones. */
  method MapInPlace(a: array<nat>, n: nat, f: nat -> nat, ghost s: seq<nat>) returns (given: nat)
    requires n <= a.Length && |s| == n && forall i :: 0 <= i < n ==> s[i] == f(a[i])
    modifies a
    ensures a[..n] == s && a[n..] == old(a[n..])
    ensures given == Sum(s)
  {
    ghost var v := a[..n];
    given := 0;
    var i := 0;
    while i < n
      invariant 0 <= i <= n
      invariant forall j :: 0 <= j < i ==> a[j] == s[j]
      invariant forall j :: i <= j < n ==> a[j] == v[j]
      invariant a[n..] == old(a[n..])
      invariant given == Sum(s[..i])
    {
      assert s[i] == f(v[i]);
      a[i] := f(a[i]);
      assert s[..i + 1] == s[..i] + [s[i]];
      SumAppend(s[..i], s[i]);
      given := given + a[i];
      i := i + 1;
    }
    assert a[..n] == s && s[..n] == s;
  }

  /** One iteration's ranks before normalisation, written into `next`. */
  method Spread(es: seq<RankEdge>, out: array<nat>, restart: array<nat>, scores: array<nat>, next: array<nat>, n: nat)
    requires n <= out.Length && n <= restart.Length && n <= scores.Length && n <= next.Length
    requires next != out && next != restart && next != scores
    requires n > 0 && IsGraph(es, out[..n]) && Sum(restart[..n]) == WEIGHT_ONE && Sum(scores[..n]) == WEIGHT_ONE
    modifies next
    ensures next[..n] == RawNext(es, out[..n], restart[..n], scores[..n])
  {
    ghost var o, r, s := out[..n], restart[..n], scores[..n];
    SpreadEdges(es, out, restart, scores, next, n);
    var dangling := DanglingRank(out, scores, n);
    var damped := Q16Mul(DAMPING_Q16, dangling);
    var i := 0;
    while i < n
      invariant 0 <= i <= n
      invariant forall v :: 0 <= v < i ==> next[v] == RawNext(es, o, r, s)[v]
      invariant forall v :: i <= v < n ==> next[v] == Q16Mul(RESTART_Q16, r[v]) + InFlow(es, s, o, v)
    {
      EntryFits(es, o, r, s, i);
      next[i] := SatAdd64(next[i], Q16Mul(damped, restart[i]));
      i := i + 1;
    }
  }

  /** The restart's share and what flows in along the edges. */
  method SpreadEdges(es: seq<RankEdge>, out: array<nat>, restart: array<nat>, scores: array<nat>, next: array<nat>,
                     n: nat)
    requires n <= out.Length && n <= restart.Length && n <= scores.Length && n <= next.Length
    requires next != out && next != restart && next != scores
    requires n > 0 && IsGraph(es, out[..n]) && Sum(restart[..n]) == WEIGHT_ONE && Sum(scores[..n]) == WEIGHT_ONE
    modifies next
    ensures forall v :: 0 <= v < n ==> next[v] == Q16Mul(RESTART_Q16, restart[v]) + InFlow(es, scores[..n], out[..n], v)
  {
    ghost var o, r, s := out[..n], restart[..n], scores[..n];
    var i := 0;
    while i < n
      invariant 0 <= i <= n
      invariant forall v :: 0 <= v < i ==> next[v] == Q16Mul(RESTART_Q16, r[v])
    {
      next[i] := Q16Mul(RESTART_Q16, restart[i]);
      i := i + 1;
    }
    i := 0;
    assert es[..0] == [];
    while i < |es|
      invariant 0 <= i <= |es|
      invariant forall v :: 0 <= v < n ==> next[v] == Q16Mul(RESTART_Q16, r[v]) + InFlow(es[..i], s, o, v)
    {
      var e := es[i];
      assert es[..i + 1][..i] == es[..i];
      var c := Carried(e, scores[e.from], out[e.from]);
      PartialFits(es, o, r, s, i + 1, e.to);
      next[e.to] := SatAdd64(next[e.to], c);
      i := i + 1;
    }
    assert es[..|es|] == es;
  }

  lemma EntryFits(es: seq<RankEdge>, out: seq<nat>, restart: seq<nat>, scores: seq<nat>, v: nat)
    requires |scores| == |out| == |restart| && v < |out| && IsGraph(es, out)
    requires Sum(restart) == WEIGHT_ONE && Sum(scores) == WEIGHT_ONE
    ensures RawNext(es, out, restart, scores)[v] <= WEIGHT_ONE
  {
    RawNextSum(es, out, restart, scores);
    SumUpdate(RawNext(es, out, restart, scores), v, 0);
  }

  lemma {:induction false} InFlowGrows(es: seq<RankEdge>, scores: seq<nat>, out: seq<nat>, k: nat, v: int)
    requires |scores| == |out| && InRange(es, |out|) && k <= |es|
    ensures InFlow(es[..k], scores, out, v) <= InFlow(es, scores, out, v)
    decreases |es|
  {
    if k < |es| {
      var p := es[..|es| - 1];
      assert p[..k] == es[..k];
      InFlowGrows(p, scores, out, k, v);
    } else {
      assert es[..k] == es;
    }
  }

  /** No sum in the edge loop comes near 64 bits: each is part of a final rank. */
  lemma PartialFits(es: seq<RankEdge>, out: seq<nat>, restart: seq<nat>, scores: seq<nat>, k: nat, v: nat)
    requires |scores| == |out| == |restart| && v < |out| && IsGraph(es, out) && k <= |es|
    requires Sum(restart) == WEIGHT_ONE && Sum(scores) == WEIGHT_ONE
    ensures Q16Mul(RESTART_Q16, restart[v]) + InFlow(es[..k], scores, out, v) <= U64_MAX
  {
    InFlowGrows(es, scores, out, k, v);
    EntryFits(es, out, restart, scores, v);
  }

  method DanglingRank(out: array<nat>, scores: array<nat>, n: nat) returns (sum: nat)
    requires n <= out.Length && n <= scores.Length && Sum(scores[..n]) <= WEIGHT_ONE
    ensures sum == Sum(Dangling(scores[..n], out[..n]))
  {
    ghost var d := Dangling(scores[..n], out[..n]);
    LiveAndDangling(scores[..n], out[..n]);
    sum := 0;
    var i := 0;
    while i < n
      invariant 0 <= i <= n && sum == Sum(d[..i])
    {
      assert d[..i + 1] == d[..i] + [d[i]];
      SumAppend(d[..i], d[i]);
      SumPrefix(d, i + 1);
      if out[i] == 0 {
        sum := SatAdd64(sum, scores[i]);
      }
      i := i + 1;
    }
    assert d[..n] == d;
  }

  lemma {:induction false} SumPrefix(s: seq<nat>, k: nat)
    requires k <= |s|
    ensures Sum(s[..k]) <= Sum(s)
    decreases |s|
  {
    if k < |s| {
      assert s[..|s| - 1][..k] == s[..k];
      SumPrefix(s[..|s| - 1], k);
    } else {
      assert s[..k] == s;
    }
  }

  /** The new ranks taken over from `next`, and how far they moved. */
  method TakeOver(scores: array<nat>, next: array<nat>, n: nat) returns (delta: nat)
    requires n <= scores.Length && n <= next.Length && scores != next
    requires Sum(scores[..n]) == WEIGHT_ONE && Sum(next[..n]) == WEIGHT_ONE
    modifies scores
    ensures scores[..n] == next[..n]
    ensures delta == Distance(old(scores[..n]), next[..n])
  {
    ghost var p, q := scores[..n], next[..n];
    ghost var d := Moves(p, q);
    DistanceBound(p, q);
    delta := 0;
    var i := 0;
    while i < n
      invariant 0 <= i <= n && delta == Sum(d[..i])
      invariant forall j :: 0 <= j < i ==> scores[j] == q[j]
      invariant forall j :: i <= j < n ==> scores[j] == p[j]
    {
      SumUpdate(q, i, 0);
      var fresh' := Min(next[i], U32_MAX);
      assert d[..i + 1] == d[..i] + [d[i]];
      SumAppend(d[..i], d[i]);
      SumPrefix(d, i + 1);
      delta := SatAdd64(delta, if fresh' <= scores[i] then scores[i] - fresh' else fresh' - scores[i]);
      scores[i] := fresh';
      i := i + 1;
    }
    assert d[..n] == d;
  }

  lemma DistanceBound(p: seq<nat>, q: seq<nat>)
    requires |p| == |q|
    ensures Distance(p, q) <= Sum(p) + Sum(q)
  {
    var s := seq(|p|, i requires 0 <= i < |p| => p[i] + q[i]);
    SumPlus(p, q, s);
    SumLe(Moves(p, q), s);
  }

  class Engine {
    var edges: seq<RankEdge>
    var nodeIds: seq<u64>
    const outWeight: array<nat>
    const scores: array<nat>
    const nextScores: array<nat>
    const restart: array<nat>
    var lastIterations: nat
    var lastDelta: nat

    ghost predicate Shape() {
      && outWeight.Length == scores.Length == nextScores.Length == restart.Length == MAX_RANK_NODES
      && outWeight != scores && outWeight != nextScores && outWeight != restart
      && scores != nextScores && scores != restart && nextScores != restart
    }

    /** The out-weights are the sums over the edges, and the ids are distinct. */
    ghost predicate Valid()
      reads this, outWeight
    {
      && Shape()
      && |nodeIds| <= MAX_RANK_NODES && |edges| <= MAX_RANK_EDGES
      && IsGraph(edges, outWeight[..|nodeIds|])
      && (forall v :: |nodeIds| <= v < MAX_RANK_NODES ==> outWeight[v] == 0)
      && forall i, j :: 0 <= i < j < |nodeIds| ==> nodeIds[i] != nodeIds[j]
    }

    ghost function Out(): seq<nat>
      reads this, outWeight
      requires Valid()
    {
      outWeight[..|nodeIds|]
    }

    constructor ()
      ensures Valid() && edges == [] && nodeIds == []
      ensures fresh(outWeight) && fresh(scores) && fresh(nextScores) && fresh(restart)
    {
      edges, nodeIds := [], [];
      outWeight := new nat[MAX_RANK_NODES](_ => 0);
      scores := new nat[MAX_RANK_NODES](_ => 0);
      nextScores := new nat[MAX_RANK_NODES](_ => 0);
      restart := new nat[MAX_RANK_NODES](_ => 0);
      lastIterations, lastDelta := 0, 0;
    }

    method AddNode(id: u64) returns (r: Option<nat>)
      requires Valid()
      modifies this`nodeIds
      ensures Valid()
      ensures id in old(nodeIds) ==> nodeIds == old(nodeIds) && r == Some(IndexOf(nodeIds, id))
      ensures id !in old(nodeIds) && |old(nodeIds)| < MAX_RANK_NODES ==>
        nodeIds == old(nodeIds) + [id] && r == Some(|old(nodeIds)|)
      ensures id !in old(nodeIds) && |old(nodeIds)| == MAX_RANK_NODES ==> nodeIds == old(nodeIds) && r == None
    {
      var i := IndexOf(nodeIds, id);
      if i < |nodeIds| {
        return Some(i);
      }
      if |nodeIds| >= MAX_RANK_NODES {
        return None;
      }
      NoEdgeFrom(edges, |nodeIds|);
      nodeIds := nodeIds + [id];
      r := Some(|nodeIds| - 1);
    }

    method AddEdge(from: u16, to: u16, weight: u32) returns (ok: bool)
      requires Valid()
      modifies this`edges, outWeight
      ensures Valid()
      ensures ok <==> |old(edges)| < MAX_RANK_EDGES && from < |nodeIds| && to < |nodeIds| && weight != 0
      ensures edges == if ok then old(edges) + [RankEdge(from, to, weight)] else old(edges)
    {
      if |edges| >= MAX_RANK_EDGES || from >= |nodeIds| || to >= |nodeIds| || weight == 0 {
        return false;
      }
      ghost var was := edges;
      edges := edges + [RankEdge(from, to, weight)];
      assert edges[..|edges| - 1] == was;
      OutWeightBound(edges, from);
      outWeight[from] := SatAdd64(outWeight[from], weight);
      return true;
    }

    /** The restart distribution of `seeds`, written into `restart`. */
    method SetRestart(seeds: seq<Seed>)
      requires Valid() && |nodeIds| > 0
      modifies restart
      ensures restart[..|nodeIds|] == Restart(nodeIds, seeds)
    {
      var n := |nodeIds|;
      AddSeeds(seeds);
      var total := SumOf(restart, n);
      if total == 0 {
        FillUniform(restart, n);
      } else {
        NormalizeInPlace(restart, n);
      }
    }

    /** The weights of the seeds, added up node by node. */
    method AddSeeds(seeds: seq<Seed>)
      requires Valid() && |nodeIds| > 0
      modifies restart
      ensures restart[..|nodeIds|] == SeedWeights(nodeIds, seeds)
    {
      var n := |nodeIds|;
      FillAll(restart, n, 0);
      var i := 0;
      assert seeds[..0] == [];
      while i < |seeds|
        invariant 0 <= i <= |seeds| && restart[..n] == SeedWeights(nodeIds, seeds[..i])
      {
        assert seeds[..i + 1][..i] == seeds[..i];
        var index := IndexOf(nodeIds, seeds[i].id);
        if index < n {
          restart[index] := Min(restart[index] + seeds[i].weight, U32_MAX);
        }
        i := i + 1;
      }
      assert seeds[..|seeds|] == seeds;
    }

    /** Ranks after as many iterations as it takes to move less than epsilon, at most sixty-four. */
    method ComputePersonalized(seeds: seq<Seed>) returns (k: nat)
      requires Valid()
      modifies this`lastIterations, this`lastDelta, scores, nextScores, restart
      ensures Valid()
      ensures |nodeIds| == 0 ==> k == 0 && unchanged(this)
      ensures |nodeIds| > 0 ==> Stopped(edges, Out(), Restart(nodeIds, seeds), k)
      ensures |nodeIds| > 0 ==> scores[..|nodeIds|] == Ranks(edges, Out(), Restart(nodeIds, seeds), k)
      ensures |nodeIds| > 0 ==> lastIterations == k && lastDelta == Delta(edges, Out(), Restart(nodeIds, seeds), k)
      ensures |nodeIds| > 0 ==> Sum(scores[..|nodeIds|]) == WEIGHT_ONE
    {
      if |nodeIds| == 0 {
        return 0;
      }
      k := Iterate(seeds);
    }

    method Iterate(seeds: seq<Seed>) returns (k: nat)
      requires Valid() && |nodeIds| > 0
      modifies this`lastIterations, this`lastDelta, scores, nextScores, restart
      ensures Valid() && Stopped(edges, Out(), Restart(nodeIds, seeds), k)
      ensures scores[..|nodeIds|] == Ranks(edges, Out(), Restart(nodeIds, seeds), k)
      ensures lastIterations == k && lastDelta == Delta(edges, Out(), Restart(nodeIds, seeds), k)
      ensures Sum(scores[..|nodeIds|]) == WEIGHT_ONE
    {
      SetRestart(seeds);
      CopyPrefix(restart, scores, |nodeIds|);
      k, lastDelta := Converge(edges, outWeight, restart, scores, nextScores, |nodeIds|, nodeIds, seeds);
      lastIterations := k;
      RanksSum(edges, Out(), nodeIds, seeds, k);
      DeltaFits(edges, Out(), nodeIds, seeds, k);
      lastDelta := Min(lastDelta, U32_MAX);
    }

    /** The best-ranked nodes in order, higher index first among equals, as far as `output` holds. */
    method TopK(output: array<(u64, nat)>) returns (written: nat, ghost picks: seq<nat>)
      requires Valid()
      modifies output
      ensures Valid() && written == |picks| <= output.Length
      ensures IsTop(scores[..|nodeIds|], picks)
      ensures written < output.Length ==> forall v :: 0 <= v < |nodeIds| && scores[v] > 0 ==> v in picks
      ensures forall i :: 0 <= i < written ==> output[i] == (nodeIds[picks[i]], scores[picks[i]])
    {
      var n := |nodeIds|;
      ghost var s := scores[..n];
      var used := new bool[MAX_RANK_NODES](_ => false);
      written, picks := 0, [];
      while written < output.Length
        invariant Valid() && written == |picks| <= output.Length && fresh(used) && used.Length == MAX_RANK_NODES
        invariant s == scores[..n] && IsTop(s, picks)
        invariant forall v :: 0 <= v < n ==> (used[v] <==> v in picks)
        invariant forall i :: 0 <= i < written ==> output[i] == (nodeIds[picks[i]], scores[picks[i]])
      {
        var best := BestUnused(used, n);
        if best == n {
          break;
        }
        used[best] := true;
        output[written] := (nodeIds[best], scores[best]);
        TopMore(s, picks, best);
        picks := picks + [best];
        written := written + 1;
      }
    }

    /** The last of the highest-ranked nodes not used yet, or `n` if every other rank is zero. */
    method BestUnused(used: array<bool>, n: nat) returns (best: nat)
      requires Valid() && n == |nodeIds| <= used.Length
      ensures best <= n
      ensures best == n ==> forall v :: 0 <= v < n ==> used[v] || scores[v] == 0
      ensures best < n ==> !used[best] && scores[best] > 0 && forall v :: 0 <= v < n && !used[v] && v != best ==>
        Before(scores[..n], best, v)
    {
      best := n;
      var i := 0;
      while i < n
        invariant 0 <= i <= n && (best < i || best == n)
        invariant best == n ==> forall v :: 0 <= v < i ==> used[v] || scores[v] == 0
        invariant best < n ==> !used[best] && scores[best] > 0
        invariant best < n ==> forall v :: 0 <= v < i && !used[v] && v != best ==> Before(scores[..n], best, v)
      {
        if !used[i] && scores[i] > 0 && (best == n || scores[i] >= scores[best]) {
          best := i;
        }
        i := i + 1;
      }
    }
  }

  /** Node `a` ranks ahead of node `b`. */
  predicate Before(s: seq<nat>, a: nat, b: nat)
    requires a < |s| && b < |s|
  {
    s[a] > s[b] || (s[a] == s[b] && a > b)
  }

  /** Positive ranks in order, and ahead of every node left out. */
  ghost predicate IsTop(s: seq<nat>, picks: seq<nat>) {
    && (forall i :: 0 <= i < |picks| ==> picks[i] < |s| && s[picks[i]] > 0)
    && (forall i, j :: 0 <= i < j < |picks| ==> Before(s, picks[i], picks[j]))
    && (forall i, v :: 0 <= i < |picks| && 0 <= v < |s| && v !in picks ==> Before(s, picks[i], v))
  }

  lemma TopMore(s: seq<nat>, picks: seq<nat>, best: nat)
    requires IsTop(s, picks) && best < |s| && best !in picks && s[best] > 0
    requires forall v :: 0 <= v < |s| && v !in picks && v != best ==> Before(s, best, v)
    ensures IsTop(s, picks + [best])
  {
    var p := picks + [best];
    forall i, v | 0 <= i < |p| && 0 <= v < |s| && v !in p ensures Before(s, p[i], v) {
      assert v !in picks && v != best;
    }
  }

  /** `k` is the first iteration that moved less than epsilon, or the limit if none before it did. */
  ghost predicate Stopped(es: seq<RankEdge>, out: seq<nat>, restart: seq<nat>, k: nat)
    requires |out| == |restart| && InRange(es, |out|)
  {
    && 1 <= k <= MAX_ITERATIONS
    && (forall j :: 1 <= j < k ==> Delta(es, out, restart, j) >= EPSILON_Q16)
    && (k < MAX_ITERATIONS ==> Delta(es, out, restart, k) < EPSILON_Q16)
  }

  ghost predicate Running(es: seq<RankEdge>, out: seq<nat>, restart: seq<nat>, scores: seq<nat>, k: nat, delta: nat)
    requires |out| == |restart| && InRange(es, |out|)
  {
    && k <= MAX_ITERATIONS
    && scores == Ranks(es, out, restart, k)
    && delta == (if k == 0 then EPSILON_Q16 else Delta(es, out, restart, k))
    && forall j :: 1 <= j < k ==> Delta(es, out, restart, j) >= EPSILON_Q16
  }

  lemma RunningMore(es: seq<RankEdge>, out: seq<nat>, restart: seq<nat>, s: seq<nat>, n: seq<nat>, k: nat, delta: nat)
    requires |out| == |restart| && InRange(es, |out|) && k < MAX_ITERATIONS && delta >= EPSILON_Q16
    requires Running(es, out, restart, s, k, delta) && n == Next(es, out, restart, s)
    ensures Running(es, out, restart, n, k + 1, Distance(s, n))
  {
    assert n == Ranks(es, out, restart, k + 1);
  }

  ghost predicate IsRestart(r: seq<nat>, ids: seq<u64>, seeds: seq<Seed>) {
    0 < |ids| <= MAX_RANK_NODES && r == Restart(ids, seeds)
  }

  lemma UnitBeforeAndAfter(es: seq<RankEdge>, out: seq<nat>, r: seq<nat>, s: seq<nat>, ids: seq<u64>, seeds: seq<Seed>,
                           k: nat)
    requires IsRestart(r, ids, seeds) && |out| == |ids| && IsGraph(es, out) && s == Ranks(es, out, r, k)
    ensures Sum(r) == WEIGHT_ONE && Sum(s) == WEIGHT_ONE && Sum(Next(es, out, r, s)) == WEIGHT_ONE
  {
    RestartSum(ids, seeds);
    RanksSum(es, out, ids, seeds, k);
    RanksSum(es, out, ids, seeds, k + 1);
    assert Ranks(es, out, r, k + 1) == Next(es, out, r, s);
  }

  method RunOnce(es: seq<RankEdge>, out: array<nat>, restart: array<nat>, scores: array<nat>, next: array<nat>, n: nat,
                 ghost k: nat, ghost was: nat, ghost ids: seq<u64>, ghost seeds: seq<Seed>)
    returns (delta: nat)
    requires 0 < n <= out.Length && out.Length == restart.Length == scores.Length == next.Length
    requires next != out && next != restart && next != scores && scores != out && scores != restart
    requires IsGraph(es, out[..n]) && IsRestart(restart[..n], ids, seeds)
    requires Running(es, out[..n], restart[..n], scores[..n], k, was) && k < MAX_ITERATIONS && was >= EPSILON_Q16
    modifies scores, next
    ensures Running(es, out[..n], restart[..n], scores[..n], k + 1, delta)
  {
    ghost var s := scores[..n];
    UnitBeforeAndAfter(es, out[..n], restart[..n], s, ids, seeds, k);
    RunningMore(es, out[..n], restart[..n], s, Next(es, out[..n], restart[..n], s), k, was);
    delta := IterateOnce(es, out, restart, scores, next, n);
  }

  /** From the restart distribution until the ranks settle; every vector on the way is one unit. */
  method Converge(es: seq<RankEdge>, out: array<nat>, restart: array<nat>, scores: array<nat>, next: array<nat>, n: nat,
                  ghost ids: seq<u64>, ghost seeds: seq<Seed>)
    returns (k: nat, delta: nat)
    requires 0 < n <= out.Length && out.Length == restart.Length == scores.Length == next.Length
    requires next != out && next != restart && next != scores && scores != out && scores != restart
    requires IsGraph(es, out[..n]) && scores[..n] == restart[..n] && IsRestart(restart[..n], ids, seeds)
    modifies scores, next
    ensures Stopped(es, out[..n], restart[..n], k)
    ensures scores[..n] == Ranks(es, out[..n], restart[..n], k)
    ensures delta == Delta(es, out[..n], restart[..n], k)
  {
    k, delta := 0, EPSILON_Q16;
    while k < MAX_ITERATIONS && delta >= EPSILON_Q16
      invariant Running(es, out[..n], restart[..n], scores[..n], k, delta)
    {
      delta := RunOnce(es, out, restart, scores, next, n, k, delta, ids, seeds);
      k := k + 1;
    }
  }

  method IterateOnce(es: seq<RankEdge>, out: array<nat>, restart: array<nat>, scores: array<nat>, next: array<nat>,
                     n: nat)
    returns (delta: nat)
    requires 0 < n <= out.Length && out.Length == restart.Length == scores.Length == next.Length
    requires next != out && next != restart && next != scores && scores != out && scores != restart
    requires IsGraph(es, out[..n]) && Sum(restart[..n]) == WEIGHT_ONE && Sum(scores[..n]) == WEIGHT_ONE
    requires Sum(Next(es, out[..n], restart[..n], scores[..n])) == WEIGHT_ONE
    modifies scores, next
    ensures scores[..n] == Next(es, out[..n], restart[..n], old(scores[..n]))
    ensures delta == Distance(old(scores[..n]), scores[..n])
  {
    Spread(es, out, restart, scores, next, n);
    NormalizeInPlace(next, n);
    delta := TakeOver(scores, next, n);
  }

  lemma DeltaFits(es: seq<RankEdge>, out: seq<nat>, ids: seq<u64>, seeds: seq<Seed>, k: nat)
    requires |out| == |ids| > 0 && IsGraph(es, out) && k > 0
    ensures Delta(es, out, Restart(ids, seeds), k) <= U32_MAX
  {
    var p, q := Ranks(es, out, Restart(ids, seeds), k - 1), Ranks(es, out, Restart(ids, seeds), k);
    RanksSum(es, out, ids, seeds, k - 1);
    RanksSum(es, out, ids, seeds, k);
    DistanceBound(p, q);
  }

  method CopyPrefix(from: array<nat>, to: array<nat>, n: nat)
    requires n <= from.Length && n <= to.Length && from != to
    modifies to
    ensures to[..n] == from[..n]
  {
    var i := 0;
    while i < n
      invariant 0 <= i <= n && to[..i] == from[..i]
    {
      to[i] := from[i];
      i := i + 1;
    }
  }

  lemma QuotientFits(x: nat, n: nat)
    requires n > 0
    ensures x / n <= x / n * n <= x
  {
    var q := x / n;
    assert q * n <= x by { FloorBound(x, n); }
    TimesGrows(q, n);
  }

  lemma TimesGrows(q: nat, n: nat)
    requires n > 0
    ensures q <= q * n
  {
  }

  method FillUniform(a: array<nat>, n: nat)
    requires 0 < n <= a.Length
    modifies a
    ensures a[..n] == Uniform(n)
  {
    var u := WEIGHT_ONE / n;
    var rest := WEIGHT_ONE - u * n;
    assert u + rest <= WEIGHT_ONE by { QuotientFits(WEIGHT_ONE, n); }
    FillAll(a, n, u);
    a[n - 1] := Min(a[n - 1] + rest, U32_MAX);
  }

  method FillAll(a: array<nat>, n: nat, u: nat)
    requires n <= a.Length
    modifies a
    ensures forall v :: 0 <= v < n ==> a[v] == u
  {
    var i := 0;
    while i < n
      invariant 0 <= i <= n && forall v :: 0 <= v < i ==> a[v] == u
    {
      a[i] := u;
      i := i + 1;
    }
  }

  lemma {:induction false} NoEdgeFrom(es: seq<RankEdge>, v: nat)
    requires forall i :: 0 <= i < |es| ==> es[i].from < v
    ensures OutWeight(es, v) == 0
  {
    if |es| > 0 { NoEdgeFrom(es[..|es| - 1], v); }
  }

  lemma {:induction false} OutWeightBound(es: seq<RankEdge>, v: int)
    ensures OutWeight(es, v) <= |es| * 0x1_0000_0000
  {
    if |es| > 0 { OutWeightBound(es[..|es| - 1], v); }
  }
}
