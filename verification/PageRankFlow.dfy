/** What one iteration is for: rank flows along the edges, each source sharing what it has by weight. */
module PageRankFlow {
  import opened Bits
  import opened Sums
  import opened PageRank
  import opened Rounding

  /** What comes into node `v`: from the source of every edge to it, the share of that edge. */
  ghost function Pull(es: seq<RankEdge>, scores: seq<nat>, out: seq<nat>, v: nat): real
    requires |scores| == |out| && InRange(es, |out|)
  {
    if |es| == 0 then 0.0
    else
      var e := es[|es| - 1];
      Pull(es[..|es| - 1], scores, out, v)
      + if e.to == v && out[e.from] > 0 then Share(scores[e.from], e.weight, out[e.from]) else 0.0
  }

  ghost function Share(score: nat, weight: nat, out: nat): real
    requires out > 0
  {
    score as real * weight as real / out as real
  }

  /** The number of edges into `v`. */
  function InDegree(es: seq<RankEdge>, v: nat): nat {
    if |es| == 0 then 0 else InDegree(es[..|es| - 1], v) + if es[|es| - 1].to == v then 1 else 0
  }

  /** The next rank of `v` without rounding: restart, and damped what comes in and its share of the dangling rank. */
  ghost function Ideal(es: seq<RankEdge>, out: seq<nat>, restart: seq<nat>, scores: seq<nat>, v: nat): real
    requires |scores| == |out| == |restart| && InRange(es, |out|) && v < |out|
  {
    RestartShare(restart[v]) + 55706.0 * Pull(es, scores, out, v) / 65536.0
    + DanglingShare(Sum(Dangling(scores, out)), restart[v])
  }

  ghost function RestartShare(r: nat): real {
    9830.0 * r as real / 65536.0
  }

  /** Damped, and in proportion to the restart. */
  ghost function DanglingShare(dangling: nat, r: nat): real {
    55706.0 * dangling as real * r as real / 65536.0 / 65536.0
  }

  // ---------------------------------------------------------------- one product

  /** The product of two floored numbers is short of that of the numbers by no more than their sum. */
  lemma FlooredProduct(d: real, t: real, x: real, y: real)
    requires 0.0 <= d <= x < d + 1.0 && 0.0 <= t <= y < t + 1.0
    ensures x * y - x - y <= d * t <= x * y
  {
    var p, q := y - t, x - d;
    AtMost(p, x);
    AtMost(q, t);
    AtLeastZero(p, x);
    AtLeastZero(q, t);
    Split(d, t, x, y, p, q);
    Within(x, y, t, x * y, d * t, p * x, q * t);
  }

  lemma Within(x: real, y: real, t: real, xy: real, dt: real, px: real, qt: real)
    requires xy == dt + px + qt && 0.0 <= px <= x && 0.0 <= qt <= t <= y
    ensures xy - x - y <= dt <= xy
  {
  }

  lemma AtLeastZero(p: real, x: real)
    requires p >= 0.0 && x >= 0.0
    ensures p * x >= 0.0
  {
  }

  lemma Split(d: real, t: real, x: real, y: real, p: real, q: real)
    requires y == t + p && x == d + q
    ensures x * y == d * t + p * x + q * t
  {
    calc {
      x * y;
      x * t + x * p;
      (d + q) * t + x * p;
      d * t + p * x + q * t;
    }
  }

  lemma MulFloor(a: nat, b: nat)
    ensures Q16Mul(a, b) as real <= a as real * b as real / 65536.0 < Q16Mul(a, b) as real + 1.0
  {
    ProductFloor(a, b);
  }

  // ---------------------------------------------------------------- one edge

  /** What an edge carries in the code is its damped share, short of it by less than three. */
  lemma EdgeShare(s: nat, w: nat, o: nat)
    requires 0 < w <= o && s <= WEIGHT_ONE
    ensures var c := Q16Mul(Q16Mul(55_706, s), Q16Div(w, o)) as real; var ideal := 55706.0 * Share(s, w, o) / 65536.0;
      ideal - 3.0 < c <= ideal
  {
    var d, t := Q16Mul(55_706, s), Q16Div(w, o);
    var x, y := 55706.0 * s as real / 65536.0, (w * 0x1_0000) as real / o as real;
    MulFloor(55_706, s);
    RealFloor(w * 0x1_0000, o);
    MulFloor(d, t);
    AtMostOne(w, o);
    TwoFloors(x, y, d as real, t as real, Q16Mul(d, t) as real);
    SameShare(s, w, o);
  }

  /** Two floors and a third on their product lose less than three. */
  lemma TwoFloors(x: real, y: real, d: real, t: real, c: real)
    requires 0.0 <= d <= x < d + 1.0 && 0.0 <= t <= y < t + 1.0 && x <= 65536.0 && y <= 65536.0
    requires c <= d * t / 65536.0 < c + 1.0
    ensures x * y / 65536.0 - 3.0 < c <= x * y / 65536.0
  {
    FlooredProduct(d, t, x, y);
    OverOne(x * y, d * t, x + y, c);
  }

  lemma OverOne(a: real, b: real, gap: real, c: real)
    requires a - gap <= b <= a && gap <= 2.0 * 65536.0 && c <= b / 65536.0 < c + 1.0
    ensures a / 65536.0 - 3.0 < c <= a / 65536.0
  {
  }

  lemma SameShare(s: nat, w: nat, o: nat)
    requires o > 0
    ensures 55706.0 * s as real / 65536.0 * ((w * 0x1_0000) as real / o as real) / 65536.0
         == 55706.0 * Share(s, w, o) / 65536.0
  {
    assert (w * 0x1_0000) as real == w as real * 65536.0;
    SameProduct(s as real, w as real, o as real);
  }

  lemma AtMostOne(w: nat, o: nat)
    requires 0 < w <= o
    ensures (w * 0x1_0000) as real / o as real <= 65536.0
  {
    var y, e := (w * 0x1_0000) as real, o as real;
    assert y <= 65536.0 * e;
    if y / e > 65536.0 { LessTimes(65536.0, y / e, e); }
  }

  lemma SameProduct(s: real, w: real, o: real)
    requires o > 0.0
    ensures 55706.0 * s / 65536.0 * (w * 65536.0 / o) / 65536.0 == 55706.0 * (s * w / o) / 65536.0
  {
    var q := w / o;
    assert w * 65536.0 / o == q * 65536.0;
    assert s * w / o == s * q;
  }

  // ---------------------------------------------------------------- all edges

  lemma {:induction false} FlowBracket(es: seq<RankEdge>, scores: seq<nat>, out: seq<nat>, v: nat)
    requires |scores| == |out| && InRange(es, |out|)
    requires forall i :: 0 <= i < |es| ==> 0 < es[i].weight <= out[es[i].from]
    requires forall u :: 0 <= u < |scores| ==> scores[u] <= WEIGHT_ONE
    ensures var ideal := 55706.0 * Pull(es, scores, out, v) / 65536.0;
      ideal - 3.0 * InDegree(es, v) as real <= InFlow(es, scores, out, v) as real <= ideal
  {
    if |es| > 0 {
      var p, e := es[..|es| - 1], es[|es| - 1];
      FlowBracket(p, scores, out, v);
      EdgeShare(scores[e.from], e.weight, out[e.from]);
    }
  }

  lemma {:induction false} WeightWithin(es: seq<RankEdge>, i: nat)
    requires i < |es|
    ensures es[i].weight <= OutWeight(es, es[i].from)
  {
    if i < |es| - 1 { WeightWithin(es[..|es| - 1], i); }
  }

  lemma EntryWithin(s: seq<nat>)
    ensures forall i :: 0 <= i < |s| ==> s[i] <= Sum(s)
  {
    forall i | 0 <= i < |s| ensures s[i] <= Sum(s) { SumUpdate(s, i, 0); }
  }

  /** Every entry before normalisation is the unrounded one, short of it by less than three for every edge
      into the node and three more. */
  lemma RawNextBracket(es: seq<RankEdge>, out: seq<nat>, restart: seq<nat>, scores: seq<nat>, v: nat)
    requires |scores| == |out| == |restart| && IsGraph(es, out) && v < |out|
    requires Sum(restart) == WEIGHT_ONE && Sum(scores) == WEIGHT_ONE
    ensures var ideal := Ideal(es, out, restart, scores, v);
      ideal - 3.0 * (InDegree(es, v) + 1) as real < RawNext(es, out, restart, scores)[v] as real <= ideal
  {
    var r, dangling := restart[v], Sum(Dangling(scores, out));
    assert r <= WEIGHT_ONE by { EntryWithin(restart); }
    GraphFlowBracket(es, out, scores, v);
    RestartBracket(r);
    DanglingBracket(dangling, r);
    RawEntry(es, out, restart, scores, v);
    ThreeParts(Q16Mul(RESTART_Q16, r) as real, InFlow(es, scores, out, v) as real,
               Q16Mul(Q16Mul(DAMPING_Q16, dangling), r) as real, RestartShare(r),
               55706.0 * Pull(es, scores, out, v) / 65536.0, DanglingShare(dangling, r), InDegree(es, v));
  }

  lemma RestartBracket(r: nat)
    ensures RestartShare(r) - 1.0 < Q16Mul(RESTART_Q16, r) as real <= RestartShare(r)
  {
    MulFloor(RESTART_Q16, r);
  }

  lemma GraphFlowBracket(es: seq<RankEdge>, out: seq<nat>, scores: seq<nat>, v: nat)
    requires |scores| == |out| && IsGraph(es, out) && Sum(scores) == WEIGHT_ONE
    ensures var ideal := 55706.0 * Pull(es, scores, out, v) / 65536.0;
      ideal - 3.0 * InDegree(es, v) as real <= InFlow(es, scores, out, v) as real <= ideal
  {
    forall i | 0 <= i < |es| ensures es[i].weight <= out[es[i].from] { WeightWithin(es, i); }
    EntryWithin(scores);
    FlowBracket(es, scores, out, v);
  }

  lemma ThreeParts(a: real, b: real, c: real, x: real, y: real, z: real, n: nat)
    requires x - 1.0 < a <= x && y - 3.0 * n as real <= b <= y && z - 2.0 < c <= z
    ensures x + y + z - 3.0 * (n + 1) as real < a + b + c <= x + y + z
  {
    assert (n + 1) as real == n as real + 1.0;
  }

  lemma RawEntry(es: seq<RankEdge>, out: seq<nat>, restart: seq<nat>, scores: seq<nat>, v: nat)
    requires |scores| == |out| == |restart| && InRange(es, |out|) && v < |out|
    ensures RawNext(es, out, restart, scores)[v] as real
         == Q16Mul(RESTART_Q16, restart[v]) as real + InFlow(es, scores, out, v) as real
            + Q16Mul(Q16Mul(DAMPING_Q16, Sum(Dangling(scores, out))), restart[v]) as real
  {
  }

  /** A node's share of the dangling rank. */
  lemma DanglingBracket(dangling: nat, r: nat)
    requires r <= WEIGHT_ONE
    ensures var ideal := DanglingShare(dangling, r);
      ideal - 2.0 < Q16Mul(Q16Mul(DAMPING_Q16, dangling), r) as real <= ideal
  {
    var d := Q16Mul(DAMPING_Q16, dangling);
    var x, y := 55706.0 * dangling as real / 65536.0, r as real;
    MulFloor(DAMPING_Q16, dangling);
    MulFloor(d, r);
    LeTimes(d as real, x, y);
    LeTimes(x, d as real + 1.0, y);
    Regroup(dangling as real, y);
  }

  lemma Regroup(a: real, b: real)
    ensures 55706.0 * a / 65536.0 * b / 65536.0 == 55706.0 * a * b / 65536.0 / 65536.0
  {
  }

  // ---------------------------------------------------------------- what that means for the ranks

  /** Without an edge into it a node gets its restart and dangling shares and nothing else. */
  lemma NoEdgeIn(es: seq<RankEdge>, out: seq<nat>, restart: seq<nat>, scores: seq<nat>, v: nat)
    requires |scores| == |out| == |restart| && InRange(es, |out|) && v < |out|
    requires forall i :: 0 <= i < |es| ==> es[i].to != v
    ensures RawNext(es, out, restart, scores)[v]
         == Q16Mul(RESTART_Q16, restart[v]) + Q16Mul(Q16Mul(DAMPING_Q16, Sum(Dangling(scores, out))), restart[v])
  {
    NothingIn(es, scores, out, v);
  }

  lemma {:induction false} NothingIn(es: seq<RankEdge>, scores: seq<nat>, out: seq<nat>, v: nat)
    requires |scores| == |out| && InRange(es, |out|) && forall i :: 0 <= i < |es| ==> es[i].to != v
    ensures InFlow(es, scores, out, v) == 0
  {
    if |es| > 0 { NothingIn(es[..|es| - 1], scores, out, v); }
  }

  lemma {:induction false} EdgeWithin(es: seq<RankEdge>, scores: seq<nat>, out: seq<nat>, i: nat)
    requires |scores| == |out| && InRange(es, |out|) && i < |es|
    ensures var e := es[i];
      Q16Mul(Q16Mul(DAMPING_Q16, scores[e.from]), Q16Div(e.weight, out[e.from])) <= InFlow(es, scores, out, e.to)
  {
    if i < |es| - 1 { EdgeWithin(es[..|es| - 1], scores, out, i); }
  }

  /** Normalising a vector keeps the proportions, floored, but for the last positive entry, which also takes
      what is short of one unit; what is zero stays zero. */
  lemma NormalizedEntry(v: seq<nat>, i: nat)
    requires i < |v| && Sum(v) > 0
    ensures i + 1 != LastPositive(Scaled(v)) ==>
      Normalized(v)[i] * Sum(v) <= v[i] * WEIGHT_ONE < (Normalized(v)[i] + 1) * Sum(v)
    ensures Normalized(v)[i] * Sum(v) + Sum(v) > v[i] * WEIGHT_ONE
    ensures v[i] == 0 ==> Normalized(v)[i] == 0
  {
    RestEntry(Scaled(v), i);
    ScaledEntry(v[i], Sum(v), v[i] * 0x1_0000 / Sum(v), Normalized(v)[i]);
  }

  lemma RestEntry(s: seq<nat>, i: nat)
    requires i < |s|
    ensures GiveRest(s)[i] >= s[i] && (i + 1 != LastPositive(s) ==> GiveRest(s)[i] == s[i])
    ensures s[i] == 0 ==> GiveRest(s)[i] == 0
  {
  }

  lemma ScaledEntry(x: nat, sum: nat, s: nat, n: nat)
    requires sum > 0 && s == x * 0x1_0000 / sum && n >= s
    ensures s * sum <= x * WEIGHT_ONE < (s + 1) * sum && n * sum + sum > x * WEIGHT_ONE
    ensures x == 0 ==> s == 0
  {
    FloorBound(x * 0x1_0000, sum);
    ProductGrows(s + 1, n + 1, sum);
  }

  /** As the entries before normalisation add up to no more than a unit, normalising lowers none. */
  lemma NextIsNoLess(es: seq<RankEdge>, out: seq<nat>, restart: seq<nat>, scores: seq<nat>, v: nat)
    requires |scores| == |out| == |restart| && IsGraph(es, out) && v < |out|
    requires Sum(restart) == WEIGHT_ONE && Sum(scores) == WEIGHT_ONE
    ensures Next(es, out, restart, scores)[v] >= RawNext(es, out, restart, scores)[v]
  {
    var raw := RawNext(es, out, restart, scores);
    RawNextSum(es, out, restart, scores);
    NormalizedEntry(raw, v);
    NoLess(raw[v], Next(es, out, restart, scores)[v], Sum(raw));
  }

  lemma NoLess(x: nat, n: nat, sum: nat)
    requires 0 < sum <= WEIGHT_ONE && n * sum + sum > x * WEIGHT_ONE
    ensures n >= x
  {
    if n + 1 <= x {
      ProductGrows(n + 1, x, sum);
      ProductGrows(sum, WEIGHT_ONE, x);
    }
  }

  /** After every iteration the end of an edge has at least what the edge carried, floored. */
  lemma EdgeFeedsItsEnd(es: seq<RankEdge>, out: seq<nat>, ids: seq<u64>, seeds: seq<Seed>, k: nat, i: nat)
    requires |out| == |ids| > 0 && IsGraph(es, out) && i < |es|
    ensures var was, e := Ranks(es, out, Restart(ids, seeds), k), es[i];
      Ranks(es, out, Restart(ids, seeds), k + 1)[e.to]
      >= Q16Mul(Q16Mul(DAMPING_Q16, was[e.from]), Q16Div(e.weight, out[e.from]))
  {
    var restart := Restart(ids, seeds);
    var was := Ranks(es, out, restart, k);
    RestartSum(ids, seeds);
    RanksSum(es, out, ids, seeds, k);
    EdgeWithin(es, was, out, i);
    NextIsNoLess(es, out, restart, was, es[i].to);
  }

  /** A node with no edge into it and no share of the restart never has any rank after the first iteration. */
  lemma UnreachedIsZero(es: seq<RankEdge>, out: seq<nat>, ids: seq<u64>, seeds: seq<Seed>, k: nat, v: nat)
    requires |out| == |ids| > 0 && IsGraph(es, out) && v < |out| && Restart(ids, seeds)[v] == 0
    requires forall i :: 0 <= i < |es| ==> es[i].to != v
    ensures Ranks(es, out, Restart(ids, seeds), k)[v] == 0
  {
    if k > 0 {
      var restart := Restart(ids, seeds);
      var was := Ranks(es, out, restart, k - 1);
      RestartSum(ids, seeds);
      RanksSum(es, out, ids, seeds, k - 1);
      StaysAtZero(es, out, restart, was, v);
    }
  }

  lemma StaysAtZero(es: seq<RankEdge>, out: seq<nat>, restart: seq<nat>, scores: seq<nat>, v: nat)
    requires |scores| == |out| == |restart| && IsGraph(es, out) && v < |out| && restart[v] == 0
    requires Sum(restart) == WEIGHT_ONE && Sum(scores) == WEIGHT_ONE
    requires forall i :: 0 <= i < |es| ==> es[i].to != v
    ensures Next(es, out, restart, scores)[v] == 0
  {
    RawNextSum(es, out, restart, scores);
    NoEdgeIn(es, out, restart, scores, v);
    NormalizedEntry(RawNext(es, out, restart, scores), v);
  }

  /** A node with no edge into it has, after an iteration, no more than its restart and dangling shares in
      proportion to the whole, unless it is the one that takes the remainder. */
  lemma NoEdgeInRank(es: seq<RankEdge>, out: seq<nat>, ids: seq<u64>, seeds: seq<Seed>, k: nat, v: nat)
    requires |out| == |ids| > 0 && IsGraph(es, out) && v < |out|
    requires forall i :: 0 <= i < |es| ==> es[i].to != v
    ensures var restart := Restart(ids, seeds); var was := Ranks(es, out, restart, k);
      var raw := RawNext(es, out, restart, was);
      var share := Q16Mul(RESTART_Q16, restart[v]) + Q16Mul(Q16Mul(DAMPING_Q16, Sum(Dangling(was, out))), restart[v]);
      var next := Ranks(es, out, restart, k + 1)[v];
      Sum(raw) > 0 && (v + 1 != LastPositive(Scaled(raw)) ==>
        next * Sum(raw) <= share * WEIGHT_ONE < (next + 1) * Sum(raw))
  {
    var restart := Restart(ids, seeds);
    var was := Ranks(es, out, restart, k);
    RestartSum(ids, seeds);
    RanksSum(es, out, ids, seeds, k);
    RawNextSum(es, out, restart, was);
    NoEdgeIn(es, out, restart, was, v);
    NormalizedEntry(RawNext(es, out, restart, was), v);
  }
}
