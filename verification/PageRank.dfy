/** Personalised PageRank in Q16: every iteration keeps exactly one unit of rank. */
module PageRank {
  import opened Bits
  import opened Sums

  const MAX_RANK_NODES := 4096
  const MAX_RANK_EDGES := 16384
  const DAMPING_Q16: nat := 55_706
  const RESTART_Q16: nat := 9_830
  const EPSILON_Q16: nat := 66
  const MAX_ITERATIONS: nat := 64
  const WEIGHT_ONE: nat := 65_536

  datatype RankEdge = RankEdge(from: u16, to: u16, weight: u32)

  // ---------------------------------------------------------------- fixed point

  function Q16Mul(a: nat, b: nat): nat {
    a * b / 0x1_0000
  }

  function Q16Div(a: nat, b: nat): nat {
    if b == 0 then 0 else a * 0x1_0000 / b
  }

  // ---------------------------------------------------------------- one iteration

  /** What the edges of `es` give out at `from`. */
  function OutWeight(es: seq<RankEdge>, from: int): nat {
    if |es| == 0 then 0
    else OutWeight(es[..|es| - 1], from) + if es[|es| - 1].from == from then es[|es| - 1].weight else 0
  }

  /** What edge `e` carries when its source has rank `score` and gives out `out` in all. */
  function Carried(e: RankEdge, score: nat, out: nat): nat {
    Q16Mul(Q16Mul(DAMPING_Q16, score), Q16Div(e.weight, out))
  }

  /** A graph on `n` nodes with the weight each one gives out. */
  ghost predicate IsGraph(es: seq<RankEdge>, out: seq<nat>) {
    && |out| <= MAX_RANK_NODES
    && (forall i :: 0 <= i < |es| ==> es[i].from < |out| && es[i].to < |out| && es[i].weight > 0)
    && (forall v :: 0 <= v < |out| ==> out[v] == OutWeight(es, v))
  }

  predicate InRange(es: seq<RankEdge>, n: nat) {
    forall i :: 0 <= i < |es| ==> es[i].from < n && es[i].to < n
  }

  /** The flow of the edges of `es` into node `v`. */
  function InFlow(es: seq<RankEdge>, scores: seq<nat>, out: seq<nat>, v: int): nat
    requires |scores| == |out| && InRange(es, |out|)
  {
    if |es| == 0 then 0
    else
      var e := es[|es| - 1];
      InFlow(es[..|es| - 1], scores, out, v) + if e.to == v then Carried(e, scores[e.from], out[e.from]) else 0
  }

  function OutFlow(es: seq<RankEdge>, scores: seq<nat>, out: seq<nat>, v: int): nat
    requires |scores| == |out| && InRange(es, |out|)
  {
    if |es| == 0 then 0
    else
      var e := es[|es| - 1];
      OutFlow(es[..|es| - 1], scores, out, v) + if e.from == v then Carried(e, scores[e.from], out[e.from]) else 0
  }

  function InFlows(es: seq<RankEdge>, scores: seq<nat>, out: seq<nat>): (f: seq<nat>)
    requires |scores| == |out| && InRange(es, |out|)
    ensures |f| == |out|
  {
    seq(|out|, v => InFlow(es, scores, out, v))
  }

  function OutFlows(es: seq<RankEdge>, scores: seq<nat>, out: seq<nat>): (f: seq<nat>)
    requires |scores| == |out| && InRange(es, |out|)
    ensures |f| == |out|
  {
    seq(|out|, v => OutFlow(es, scores, out, v))
  }

  function TotalFlow(es: seq<RankEdge>, scores: seq<nat>, out: seq<nat>): nat
    requires |scores| == |out| && InRange(es, |out|)
  {
    if |es| == 0 then 0
    else
      var e := es[|es| - 1];
      TotalFlow(es[..|es| - 1], scores, out) + Carried(e, scores[e.from], out[e.from])
  }

  /** Rank held by nodes that give nothing out. */
  function Dangling(scores: seq<nat>, out: seq<nat>): (d: seq<nat>)
    requires |scores| == |out|
    ensures |d| == |scores|
  {
    seq(|out|, v requires 0 <= v < |out| => if out[v] == 0 then scores[v] else 0)
  }

  /** The next ranks before normalisation: restart share, flow in, and a share of the dangling rank. */
  function RawNext(es: seq<RankEdge>, out: seq<nat>, restart: seq<nat>, scores: seq<nat>): (r: seq<nat>)
    requires |scores| == |out| == |restart| && InRange(es, |out|)
    ensures |r| == |out|
  {
    var damped := Q16Mul(DAMPING_Q16, Sum(Dangling(scores, out)));
    seq(|out|, v requires 0 <= v < |out| =>
      Q16Mul(RESTART_Q16, restart[v]) + InFlow(es, scores, out, v) + Q16Mul(damped, restart[v]))
  }

  // ---------------------------------------------------------------- nothing is created

  lemma {:induction false} FlowsIn(es: seq<RankEdge>, scores: seq<nat>, out: seq<nat>)
    requires |scores| == |out| && InRange(es, |out|)
    ensures Sum(InFlows(es, scores, out)) == TotalFlow(es, scores, out)
  {
    if |es| == 0 {
      SumZero(InFlows(es, scores, out));
    } else {
      var p, e := es[..|es| - 1], es[|es| - 1];
      FlowsIn(p, scores, out);
      var f := InFlows(p, scores, out);
      SumUpdate(f, e.to, f[e.to] + Carried(e, scores[e.from], out[e.from]));
      assert InFlows(es, scores, out) == f[e.to := f[e.to] + Carried(e, scores[e.from], out[e.from])];
    }
  }

  lemma {:induction false} FlowsOut(es: seq<RankEdge>, scores: seq<nat>, out: seq<nat>)
    requires |scores| == |out| && InRange(es, |out|)
    ensures Sum(OutFlows(es, scores, out)) == TotalFlow(es, scores, out)
  {
    if |es| == 0 {
      SumZero(OutFlows(es, scores, out));
    } else {
      var p, e := es[..|es| - 1], es[|es| - 1];
      FlowsOut(p, scores, out);
      var f := OutFlows(p, scores, out);
      SumUpdate(f, e.from, f[e.from] + Carried(e, scores[e.from], out[e.from]));
      assert OutFlows(es, scores, out) == f[e.from := f[e.from] + Carried(e, scores[e.from], out[e.from])];
    }
  }

  /** One more edge: its floor share fits in what its weight adds. */
  lemma ShareFits(flow: nat, weights: nat, w: nat, d: nat, out: nat)
    requires out > 0 && flow * out <= d * weights
    ensures (flow + Q16Mul(d, Q16Div(w, out))) * out <= d * (weights + w)
  {
    var t := w * 0x1_0000 / out;
    var c := d * t / 0x1_0000;
    FloorBound(w * 0x1_0000, out);
    FloorBound(d * t, 0x1_0000);
    assert t * out <= w * 0x1_0000;
    assert d * (t * out) <= d * (w * 0x1_0000);
    assert c * 0x1_0000 * out <= d * t * out;
    assert c * out <= d * w;
    assert (flow + c) * out == flow * out + c * out;
  }

  lemma {:induction false} OutFlowFits(es: seq<RankEdge>, scores: seq<nat>, out: seq<nat>, v: nat)
    requires |scores| == |out| && InRange(es, |out|) && v < |out| && out[v] > 0
    ensures OutFlow(es, scores, out, v) * out[v] <= Q16Mul(DAMPING_Q16, scores[v]) * OutWeight(es, v)
  {
    if |es| > 0 {
      var p, e := es[..|es| - 1], es[|es| - 1];
      OutFlowFits(p, scores, out, v);
      if e.from == v {
        ShareFits(OutFlow(p, scores, out, v), OutWeight(p, v), e.weight, Q16Mul(DAMPING_Q16, scores[v]), out[v]);
      }
    }
  }

  lemma {:induction false} NoOutFlow(es: seq<RankEdge>, scores: seq<nat>, out: seq<nat>, v: nat)
    requires |scores| == |out| && InRange(es, |out|) && v < |out| && out[v] == 0
    ensures OutFlow(es, scores, out, v) == 0
  {
    if |es| > 0 { NoOutFlow(es[..|es| - 1], scores, out, v); }
  }

  lemma CancelFactor(a: nat, b: nat, f: nat)
    requires f > 0 && a * f <= b * f
    ensures a <= b
  {
  }

  /** What node `v` may pass on: its damped rank if it has an out-edge, nothing otherwise. */
  function Live(scores: seq<nat>, out: seq<nat>): (d: seq<nat>)
    requires |scores| == |out|
    ensures |d| == |scores|
  {
    seq(|out|, v requires 0 <= v < |out| => if out[v] == 0 then 0 else scores[v])
  }

  function Times(v: seq<nat>, num: nat): (r: seq<nat>)
    ensures |r| == |v|
  {
    seq(|v|, i requires 0 <= i < |v| => v[i] * num / 0x1_0000)
  }

  lemma FlowsFit(es: seq<RankEdge>, scores: seq<nat>, out: seq<nat>)
    requires |scores| == |out| && IsGraph(es, out)
    ensures Sum(InFlows(es, scores, out)) <= Sum(Times(Live(scores, out), DAMPING_Q16))
  {
    FlowsIn(es, scores, out);
    FlowsOut(es, scores, out);
    var f, cap := OutFlows(es, scores, out), Times(Live(scores, out), DAMPING_Q16);
    forall v | 0 <= v < |out| ensures f[v] <= cap[v] {
      if out[v] == 0 {
        NoOutFlow(es, scores, out, v);
      } else {
        OutFlowFits(es, scores, out, v);
        CancelFactor(f[v], Q16Mul(DAMPING_Q16, scores[v]), out[v]);
      }
    }
    SumLe(f, cap);
  }

  lemma TimesSum(v: seq<nat>, num: nat)
    ensures Sum(Times(v, num)) * 0x1_0000 <= Sum(v) * num <= (Sum(Times(v, num)) + |v|) * 0x1_0000
  {
    SumFloor(v, Times(v, num), num, 0x1_0000);
  }

  lemma {:induction false} LiveAndDangling(scores: seq<nat>, out: seq<nat>)
    requires |scores| == |out|
    ensures Sum(Live(scores, out)) + Sum(Dangling(scores, out)) == Sum(scores)
  {
    SumPlus(Live(scores, out), Dangling(scores, out), scores);
  }

  /** An iteration on a unit of rank makes at most a unit, and never loses all of it. */
  lemma RawNextSum(es: seq<RankEdge>, out: seq<nat>, restart: seq<nat>, scores: seq<nat>)
    requires |scores| == |out| == |restart| > 0 && IsGraph(es, out)
    requires Sum(restart) == WEIGHT_ONE && Sum(scores) == WEIGHT_ONE
    ensures RESTART_Q16 - |out| <= Sum(RawNext(es, out, restart, scores)) <= WEIGHT_ONE
    ensures Sum(RawNext(es, out, restart, scores)) >= 1
  {
    var damped := Q16Mul(DAMPING_Q16, Sum(Dangling(scores, out)));
    var a, b, c := Times(restart, RESTART_Q16), InFlows(es, scores, out), Times(restart, damped);
    var ab := seq(|out|, v requires 0 <= v < |out| => a[v] + b[v]);
    SumPlus(a, b, ab);
    SumPlus(ab, c, RawNext(es, out, restart, scores));
    TimesSum(restart, RESTART_Q16);
    TimesSum(restart, damped);
    FlowsFit(es, scores, out);
    TimesSum(Live(scores, out), DAMPING_Q16);
    LiveAndDangling(scores, out);
    FloorBound(DAMPING_Q16 * Sum(Dangling(scores, out)), 0x1_0000);
  }

  // ---------------------------------------------------------------- normalisation

  function Scaled(v: seq<nat>): (r: seq<nat>)
    requires Sum(v) > 0
    ensures |r| == |v|
  {
    seq(|v|, i requires 0 <= i < |v| => v[i] * 0x1_0000 / Sum(v))
  }

  /** One more than the last index that holds a positive value; 0 if there is none. */
  function LastPositive(v: seq<nat>): (k: nat)
    ensures k <= |v|
    ensures k > 0 ==> v[k - 1] > 0
    ensures forall i :: k <= i < |v| ==> v[i] == 0
  {
    if |v| == 0 then 0
    else if v[|v| - 1] > 0 then |v|
    else LastPositive(v[..|v| - 1])
  }

  /** What is short of a unit, given to the last positive value. */
  function GiveRest(s: seq<nat>): (r: seq<nat>)
    ensures |r| == |s|
  {
    var k := LastPositive(s);
    if k == 0 then s else s[k - 1 := s[k - 1] + (WEIGHT_ONE - Min(Sum(s), WEIGHT_ONE))]
  }

  /** Every value scaled down to a total of at most one unit, the rest given to the last positive one. */
  function Normalized(v: seq<nat>): (r: seq<nat>)
    ensures |r| == |v|
  {
    if Sum(v) == 0 then v else GiveRest(Scaled(v))
  }

  lemma ScaledSum(v: seq<nat>)
    requires Sum(v) > 0
    ensures Sum(Scaled(v)) <= 0x1_0000 <= Sum(Scaled(v)) + |v|
  {
    var t, s := Sum(v), Sum(Scaled(v));
    SumFloor(v, Scaled(v), 0x1_0000, t);
    BetweenShares(s, s + |v|, 0x1_0000, t);
  }

  lemma BetweenShares(a: nat, b: nat, x: nat, t: nat)
    requires t > 0 && a * t <= t * x <= b * t
    ensures a <= x <= b
  {
    CancelFactor(a, x, t);
    CancelFactor(x, b, t);
  }

  lemma SomePositive(s: seq<nat>)
    requires Sum(s) > 0
    ensures LastPositive(s) > 0
  {
    if LastPositive(s) == 0 { SumZero(s); }
  }

  lemma GiveRestSum(s: seq<nat>)
    requires 0 < Sum(s) <= WEIGHT_ONE
    ensures Sum(GiveRest(s)) == WEIGHT_ONE
  {
    SomePositive(s);
    var k := LastPositive(s);
    SumUpdate(s, k - 1, s[k - 1] + (WEIGHT_ONE - Min(Sum(s), WEIGHT_ONE)));
  }

  /** Up to 65535 entries, normalising any non-zero vector gives exactly one unit: too few entries
      to be rounded away altogether, so some entry is left to take the remainder. */
  lemma NormalizedSum(v: seq<nat>)
    requires Sum(v) > 0 && |v| < 0x1_0000
    ensures Sum(Normalized(v)) == WEIGHT_ONE
  {
    ScaledSum(v);
    GiveRestSum(Scaled(v));
  }

  // ---------------------------------------------------------------- restart vector and iteration

  datatype Seed = Seed(id: u64, weight: u32)

  /** The position of the first occurrence of `id`, or |ids|. */
  function IndexOf(ids: seq<u64>, id: u64): (i: nat)
    ensures i <= |ids| && (i < |ids| ==> ids[i] == id)
    ensures forall k :: 0 <= k < i ==> ids[k] != id
  {
    if |ids| == 0 then 0 else if ids[0] == id then 0 else 1 + IndexOf(ids[1..], id)
  }

  /** Seed weights on the nodes they name, saturating at 32 bits; other seeds are ignored. */
  function SeedWeights(ids: seq<u64>, seeds: seq<Seed>): (r: seq<nat>)
    ensures |r| == |ids|
    ensures forall v :: 0 <= v < |r| ==> r[v] <= U32_MAX
  {
    if |seeds| == 0 then seq(|ids|, _ => 0)
    else
      var r, s := SeedWeights(ids, seeds[..|seeds| - 1]), seeds[|seeds| - 1];
      var i := IndexOf(ids, s.id);
      if i < |ids| then r[i := Min(r[i] + s.weight, U32_MAX)] else r
  }

  function Uniform(n: nat): (r: seq<nat>)
    requires n > 0
    ensures |r| == n
  {
    var u := WEIGHT_ONE / n;
    seq(n, _ => u)[n - 1 := u + (WEIGHT_ONE - u * n)]
  }

  /** The restart distribution. */
  function Restart(ids: seq<u64>, seeds: seq<Seed>): (r: seq<nat>)
    requires |ids| > 0
    ensures |r| == |ids|
  {
    var w := SeedWeights(ids, seeds);
    if Sum(w) == 0 then Uniform(|ids|) else Normalized(w)
  }

  lemma {:induction false} SumConstant(n: nat, u: nat)
    ensures Sum(seq(n, _ => u)) == n * u
  {
    if n > 0 {
      SumConstant(n - 1, u);
      assert seq(n, _ => u)[..n - 1] == seq(n - 1, _ => u);
    }
  }

  lemma RestartSum(ids: seq<u64>, seeds: seq<Seed>)
    requires 0 < |ids| <= MAX_RANK_NODES
    ensures Sum(Restart(ids, seeds)) == WEIGHT_ONE
  {
    var w, n := SeedWeights(ids, seeds), |ids|;
    if Sum(w) == 0 {
      var u := WEIGHT_ONE / n;
      SumConstant(n, u);
      FloorBound(WEIGHT_ONE, n);
      SumUpdate(seq(n, _ => u), n - 1, u + (WEIGHT_ONE - u * n));
    } else {
      NormalizedSum(w);
    }
  }

  function Next(es: seq<RankEdge>, out: seq<nat>, restart: seq<nat>, scores: seq<nat>): (r: seq<nat>)
    requires |scores| == |out| == |restart| && InRange(es, |out|)
    ensures |r| == |out|
  {
    Normalized(RawNext(es, out, restart, scores))
  }

  /** The ranks after `k` iterations from the restart distribution. */
  function Ranks(es: seq<RankEdge>, out: seq<nat>, restart: seq<nat>, k: nat): (r: seq<nat>)
    requires |out| == |restart| && InRange(es, |out|)
    ensures |r| == |out|
  {
    if k == 0 then restart else Next(es, out, restart, Ranks(es, out, restart, k - 1))
  }

  function Moves(a: seq<nat>, b: seq<nat>): (d: seq<nat>)
    requires |a| == |b|
    ensures |d| == |a|
  {
    seq(|a|, i requires 0 <= i < |a| => if a[i] <= b[i] then b[i] - a[i] else a[i] - b[i])
  }

  /** The L1 distance between two rank vectors. */
  function Distance(a: seq<nat>, b: seq<nat>): nat
    requires |a| == |b|
  {
    Sum(Moves(a, b))
  }

  function Delta(es: seq<RankEdge>, out: seq<nat>, restart: seq<nat>, k: nat): nat
    requires |out| == |restart| && InRange(es, |out|) && k > 0
  {
    Distance(Ranks(es, out, restart, k - 1), Ranks(es, out, restart, k))
  }

  /** For every graph, seed list and number of iterations, the ranks are exactly one unit. */
  lemma {:induction false} RanksSum(es: seq<RankEdge>, out: seq<nat>, ids: seq<u64>, seeds: seq<Seed>, k: nat)
    requires |out| == |ids| > 0 && IsGraph(es, out)
    ensures Sum(Ranks(es, out, Restart(ids, seeds), k)) == WEIGHT_ONE
  {
    var restart := Restart(ids, seeds);
    RestartSum(ids, seeds);
    if k > 0 {
      RanksSum(es, out, ids, seeds, k - 1);
      RawNextSum(es, out, restart, Ranks(es, out, restart, k - 1));
      NormalizedSum(RawNext(es, out, restart, Ranks(es, out, restart, k - 1)));
    }
  }
}
