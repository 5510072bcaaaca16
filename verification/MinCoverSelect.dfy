/** The selector's loops, against the costs of MinCover. */
module MinCoverSelect {
  import opened Bits
  import opened Options
  import opened MinCover

  datatype Report = Report(selected: seq<u64>, trajectory: seq<Step>, finalCost: u64, slackBound: u64)

  method MassIndex(masses: seq<Mass>, e: u64) returns (r: Option<nat>)
    ensures r.Some? ==> IsFirst(masses, r.value) && masses[r.value].entity == e
    ensures r.None? ==> forall i :: 0 <= i < |masses| ==> masses[i].entity != e
  {
    var i := 0;
    while i < |masses|
      invariant 0 <= i <= |masses| && forall j :: 0 <= j < i ==> masses[j].entity != e
    {
      if masses[i].entity == e {
        return Some(i);
      }
      i := i + 1;
    }
    return None;
  }

  /** The degrees after the first `n` listed entities. */
  ghost predicate PartlyBumped(masses: seq<Mass>, degrees: seq<nat>, es: seq<u64>, trial: seq<nat>)
    requires |degrees| == |masses|
  {
    && |trial| == |masses|
    && forall i: nat :: i < |masses| ==>
       trial[i] == degrees[i] + if IsFirst(masses, i) && masses[i].entity in es then 1 else 0
  }

  /** One more for each of the candidate's different entities that has a mass. */
  method AddCandidate(masses: seq<Mass>, degrees: seq<nat>, c: Candidate) returns (trial: seq<nat>)
    requires |degrees| == |masses| && forall i :: 0 <= i < |degrees| ==> degrees[i] < 255
    ensures trial == Bumped(masses, degrees, c)
  {
    trial := degrees;
    var es := Entities(c);
    var offset := 0;
    while offset < |es|
      invariant 0 <= offset <= |es| && PartlyBumped(masses, degrees, es[..offset], trial)
    {
      var e := es[offset];
      assert es[..offset + 1] == es[..offset] + [e];
      if e !in es[..offset] {
        var at := MassIndex(masses, e);
        BumpOne(masses, degrees, es[..offset], trial, e, at);
        if at.Some? {
          trial := trial[at.value := Min(trial[at.value] + 1, 255)];
        }
      }
      offset := offset + 1;
    }
    assert es[..offset] == es;
  }

  lemma BumpOne(masses: seq<Mass>, degrees: seq<nat>, es: seq<u64>, trial: seq<nat>, e: u64, at: Option<nat>)
    requires |degrees| == |masses| && PartlyBumped(masses, degrees, es, trial) && e !in es
    requires at.Some? ==> IsFirst(masses, at.value) && masses[at.value].entity == e
    requires at.None? ==> forall i :: 0 <= i < |masses| ==> masses[i].entity != e
    ensures PartlyBumped(masses, degrees, es + [e], if at.Some? then trial[at.value := trial[at.value] + 1] else trial)
  {
    forall i: nat | i < |masses| && IsFirst(masses, i) && masses[i].entity == e ensures at == Some(i) {
    }
  }

  lemma {:induction false} DegreesBelow(p: Problem, picks: seq<nat>)
    requires Picked(p, picks)
    ensures forall i :: 0 <= i < |p.masses| ==> Degrees(p, picks)[i] <= |picks|
  {
    if |picks| > 0 { DegreesBelow(p, picks[..|picks| - 1]); }
  }

  lemma ScannedSame(p: Problem, picks: seq<nat>, n: nat, best: Option<nat>, cost: nat)
    requires Picked(p, picks) && n < |p.candidates| && Scanned(p, picks, n, best, cost)
    requires n in picks || CostWith(p, picks, n) + p.config.tolerance >= cost
    ensures Scanned(p, picks, n + 1, best, cost)
  {
    forall j: nat | j < n + 1 && Unused(p, picks, j) ensures CostWith(p, picks, j) + p.config.tolerance >= cost {
      if j < n { assert Unused(p, picks, j); }
    }
  }

  lemma ScannedBetter(p: Problem, picks: seq<nat>, n: nat, best: Option<nat>, cost: nat)
    requires Picked(p, picks) && n < |p.candidates| && Scanned(p, picks, n, best, cost)
    requires n !in picks && CostWith(p, picks, n) + p.config.tolerance < cost
    ensures Scanned(p, picks, n + 1, Some(n), CostWith(p, picks, n))
  {
    var c := CostWith(p, picks, n);
    assert Unused(p, picks, n);
    forall j: nat | j < n && Unused(p, picks, j) ensures CostWith(p, picks, j) > c {
      assert CostWith(p, picks, j) + p.config.tolerance >= cost;
    }
  }

  lemma TrialIs(p: Problem, picks: seq<nat>, n: nat)
    requires Picked(p, picks) && n < |p.candidates|
    ensures Degrees(p, picks + [n]) == Bumped(p.masses, Degrees(p, picks), p.candidates[n])
  {
    assert (picks + [n])[..|picks|] == picks;
  }

  /** Every unused candidate tried on top of the current selection. */
  method Scan(p: Problem, selected: array<bool>, degrees: seq<nat>, count: nat, current: u64, total: u32,
              ghost picks: seq<nat>)
    returns (best: Option<nat>, components: Components, newDegrees: seq<nat>)
    requires Picked(p, picks) && |picks| == count < 255 && |p.candidates| <= selected.Length
    requires forall j: nat :: j < |p.candidates| ==> (selected[j] <==> j in picks)
    requires degrees == Degrees(p, picks) && current == Of(p, picks).cost && total == TotalMass(p)
    ensures best.None? ==> Scanned(p, picks, |p.candidates|, None, current)
    ensures best.Some? ==> Scanned(p, picks, |p.candidates|, best, components.cost)
    ensures best.Some? ==> newDegrees == Degrees(p, picks + [best.value]) && components == Of(p, picks + [best.value])
  {
    best, newDegrees := None, degrees;
    components := Components(current, 0, 0, 0);
    DegreesBelow(p, picks);
    var index := 0;
    while index < |p.candidates|
      invariant 0 <= index <= |p.candidates| && Scanned(p, picks, index, best, components.cost)
      invariant best.Some? ==>
        newDegrees == Degrees(p, picks + [best.value]) && components == Of(p, picks + [best.value])
    {
      if !selected[index] {
        var trial := AddCandidate(p.masses, degrees, p.candidates[index]);
        TrialIs(p, picks, index);
        var c := ComponentsOf(p, count + 1, trial, total);
        assert c == Of(p, picks + [index]);
        if SatAdd(c.cost, p.config.tolerance) < components.cost {
          ScannedBetter(p, picks, index, best, components.cost);
          best, components, newDegrees := Some(index), c, trial;
        } else {
          ScannedSame(p, picks, index, best, components.cost);
        }
      } else {
        ScannedSame(p, picks, index, best, components.cost);
      }
      index := index + 1;
    }
  }

  function Ids(p: Problem, picks: seq<nat>): (ids: seq<u64>)
    requires Picked(p, picks)
    ensures |ids| == |picks|
  {
    seq(|picks|, k requires 0 <= k < |picks| => p.candidates[picks[k]].id)
  }

  function StepAt(p: Problem, picks: seq<nat>, k: nat): Step
    requires Picked(p, picks) && k < |picks|
  {
    Step(p.candidates[picks[k]].id, Of(p, picks[..k + 1]))
  }

  ghost predicate IsTrajectory(p: Problem, picks: seq<nat>, steps: seq<Step>)
    requires Picked(p, picks)
  {
    |steps| == |picks| && forall k: nat :: k < |picks| ==> steps[k] == StepAt(p, picks, k)
  }

  /** Pick after pick until the limit is reached or nothing improves enough. */
  method Select(p: Problem, limit: nat, total: u32)
    returns (selected: seq<u64>, steps: seq<Step>, cost: u64, ghost picks: seq<nat>)
    requires |p.candidates| <= MAX_CANDIDATES && limit <= |p.candidates| && total == TotalMass(p)
    ensures Greedy(p, picks) && |picks| <= limit && cost == Of(p, picks).cost
    ensures selected == Ids(p, picks) && IsTrajectory(p, picks, steps)
    ensures |picks| < limit ==> Settled(p, picks)
  {
    selected, steps, picks := [], [], [];
    var used := new bool[MAX_CANDIDATES](_ => false);
    var degrees := Zeros(|p.masses|);
    cost := Q16Mul(p.config.lambda, total);
    EmptyCost(p);
    while |selected| < limit
      invariant Greedy(p, picks) && |picks| == |selected| <= limit && cost == Of(p, picks).cost
      invariant selected == Ids(p, picks) && IsTrajectory(p, picks, steps)
      invariant degrees == Degrees(p, picks) && fresh(used) && used.Length == MAX_CANDIDATES
      invariant forall j: nat :: j < |p.candidates| ==> (used[j] <==> j in picks)
      decreases limit - |selected|
    {
      var best, components, newDegrees := Scan(p, used, degrees, |selected|, cost, total, picks);
      match best {
        case None => break;
        case Some(index) =>
          GreedyMore(p, picks, index, components.cost);
          PickMore(p, picks, selected, steps, index);
          used[index] := true;
          selected := selected + [p.candidates[index].id];
          steps := steps + [Step(p.candidates[index].id, components)];
          picks := picks + [index];
          degrees, cost := newDegrees, components.cost;
      }
    }
  }

  lemma PickMore(p: Problem, picks: seq<nat>, ids: seq<u64>, steps: seq<Step>, j: nat)
    requires Picked(p, picks) && j < |p.candidates| && ids == Ids(p, picks) && IsTrajectory(p, picks, steps)
    ensures ids + [p.candidates[j].id] == Ids(p, picks + [j])
    ensures IsTrajectory(p, picks + [j], steps + [Step(p.candidates[j].id, Of(p, picks + [j]))])
  {
    var more := picks + [j];
    assert more[..|more|] == more;
    forall k: nat | k < |picks| ensures StepAt(p, more, k) == StepAt(p, picks, k) {
      assert more[..k + 1] == picks[..k + 1];
    }
  }

  lemma {:induction false} NothingCovered(masses: seq<Mass>, zeros: seq<nat>, n: nat)
    requires n <= |masses| && n <= |zeros| && forall i :: 0 <= i < |zeros| ==> zeros[i] == 0
    ensures MassSum(masses, Positive(zeros), n) == 0 && Overlap(masses, zeros, n) == 0
  {
    if n > 0 { NothingCovered(masses, zeros, n - 1); }
  }

  /** The starting cost is that of the empty selection. */
  lemma EmptyCost(p: Problem)
    ensures Of(p, []).cost == Q16Mul(p.config.lambda, TotalMass(p))
  {
    NothingCovered(p.masses, Zeros(|p.masses|), |p.masses|);
  }

  function Highest(steps: seq<Step>): nat {
    if |steps| == 0 then 0 else Max(Highest(steps[..|steps| - 1]), steps[|steps| - 1].components.redundancy)
  }

  /** At most thirty-two candidates and a hundred and twenty-eight masses are considered. */
  function ProblemOf(candidates: seq<Candidate>, masses: seq<Mass>, config: Config, ln: u64 -> u64): Problem {
    var cs := candidates[..Min(|candidates|, MAX_CANDIDATES)];
    Problem(cs, masses[..Min(|masses|, MAX_ENTITIES)], config,
      Min(ln(Max(|cs|, 1) * 0x1_0000) * 0x1_0000 / LN_2_Q16, U32_MAX))
  }

  method CausalMinCover(candidates: seq<Candidate>, masses: seq<Mass>, config: Config, ln: u64 -> u64)
    returns (r: Report, ghost picks: seq<nat>)
    ensures var p := ProblemOf(candidates, masses, config, ln);
      && Greedy(p, picks) && |picks| <= Min(config.maxSpans, |p.candidates|)
      && (|picks| < Min(config.maxSpans, |p.candidates|) ==> Settled(p, picks))
      && r.finalCost == Of(p, picks).cost && r.selected == Ids(p, picks) && IsTrajectory(p, picks, r.trajectory)
      && r.slackBound == Min(Highest(r.trajectory) * |picks|, U64_MAX)
      && Of(p, picks).cover <= TotalMass(p)
  {
    r, picks := Solve(ProblemOf(candidates, masses, config, ln), config.maxSpans);
  }

  method Solve(p: Problem, maxSpans: nat) returns (r: Report, ghost picks: seq<nat>)
    requires |p.candidates| <= MAX_CANDIDATES
    ensures Greedy(p, picks) && |picks| <= Min(maxSpans, |p.candidates|)
    ensures |picks| < Min(maxSpans, |p.candidates|) ==> Settled(p, picks)
    ensures r.finalCost == Of(p, picks).cost && r.selected == Ids(p, picks) && IsTrajectory(p, picks, r.trajectory)
    ensures r.slackBound == Min(Highest(r.trajectory) * |picks|, U64_MAX)
    ensures Of(p, picks).cover <= TotalMass(p)
  {
    var selected, steps, cost;
    selected, steps, cost, picks := Select(p, Min(maxSpans, |p.candidates|), TotalMass(p));
    CoverWithinTotal(p, picks);
    var slack := SlackBound(steps, |selected|);
    r := Report(selected, steps, cost, slack);
  }

  method SlackBound(steps: seq<Step>, n: nat) returns (s: u64)
    ensures s == Min(Highest(steps) * n, U64_MAX)
  {
    s := Min(Highest(steps) * n, U64_MAX);
  }

  // ---------------------------------------------------------------- integer square root

  lemma {:induction false} BelowPow2(x: nat)
    ensures x < Pow2(BitLength(x))
  {
    if x > 0 { BelowPow2(x / 2); }
  }

  predicate IsRoot(v: nat, r: nat) {
    r * r <= v < (r + 1) * (r + 1)
  }

  lemma SquareAbove(v: nat, h: nat)
    requires h == (BitLength(v) + 1) / 2
    ensures Above(v, Pow2(h))
  {
    BelowPow2(v);
    Pow2Add(h, h);
    if BitLength(v) < 2 * h { Pow2Grows(BitLength(v), 2 * h); }
    assert (Pow2(h) + 1) * (Pow2(h) + 1) == Pow2(h) * Pow2(h) + 2 * Pow2(h) + 1;
  }

  /** One step of Newton's iteration stays above the root. */
  lemma StepStaysAbove(v: nat, e: nat, q: nat, n: nat)
    requires e > 0 && v < e * (q + 1) && 2 * n + 1 >= e + q
    ensures Above(v, n)
  {
    var b, m := q + 1, n + 1;
    MeansOrdered(e, b);
    SquareGrows(e + b, 2 * m);
    DoubleSquare(m);
    FromFourfold(v, e * b, (e + b) * (e + b), m * m);
  }

  lemma FromFourfold(v: nat, ab: nat, ss: nat, mm: nat)
    requires v < ab && 4 * ab <= ss <= 4 * mm
    ensures v < mm
  {
  }

  lemma MeansOrdered(a: nat, b: nat)
    ensures 4 * (a * b) <= (a + b) * (a + b)
  {
    assert (a + b) * (a + b) == (a - b) * (a - b) + 4 * (a * b);
    SquareNotNegative(a - b);
  }

  lemma SquareNotNegative(x: int)
    ensures x * x >= 0
  {
  }

  lemma DoubleSquare(m: nat)
    ensures (2 * m) * (2 * m) == 4 * (m * m)
  {
  }

  lemma SquareGrows(a: nat, b: nat)
    requires a <= b
    ensures a * a <= b * b
  {
    assert a * a <= a * b <= b * b;
  }

  lemma QuotientBounds(v: nat, e: nat)
    requires e > 0
    ensures v / e * e <= v < e * (v / e + 1)
  {
    assert v == v / e * e + v % e;
  }

  predicate Above(v: nat, e: nat) {
    v < (e + 1) * (e + 1)
  }

  lemma RootReached(v: nat, e: nat, q: nat)
    requires e <= q && q * e <= v && Above(v, e)
    ensures IsRoot(v, e)
  {
    assert e * e <= q * e;
  }

  lemma NextPositive(v: nat, e: nat, q: nat)
    requires v >= 2 && e > 0 && v < e * (q + 1)
    ensures (e + q) / 2 > 0
  {
    if e == 1 { assert q >= 2; }
  }

  method NewtonStep(v: nat, e: nat) returns (next: nat)
    requires v >= 2 && e > 0 && Above(v, e)
    ensures next >= e ==> IsRoot(v, e)
    ensures next > 0 && Above(v, next)
  {
    var q := v / e;
    QuotientBounds(v, e);
    next := (e + q) / 2;
    if next >= e { RootReached(v, e, q); }
    StepStaysAbove(v, e, q, next);
    NextPositive(v, e, q);
  }

  method IntegerSqrt(v: nat) returns (r: nat)
    ensures IsRoot(v, r)
  {
    if v < 2 {
      return v;
    }
    var h := (BitLength(v) + 1) / 2;
    SquareAbove(v, h);
    var estimate := Pow2(h);
    while true
      invariant estimate > 0 && Above(v, estimate)
      decreases estimate
    {
      var next := NewtonStep(v, estimate);
      if next >= estimate {
        return estimate;
      }
      estimate := next;
    }
  }

  /** There is one such root. */
  lemma RootIsUnique(v: nat, r: nat, s: nat)
    requires IsRoot(v, r) && IsRoot(v, s)
    ensures r == s
  {
    if r + 1 <= s { SquareGrows(r + 1, s); }
    if s + 1 <= r { SquareGrows(s + 1, r); }
  }

  /** The square root of a Q16 number, in Q16. */
  method SqrtQ16(w: u32) returns (r: u32)
    ensures IsRoot(w * 0x1_0000, r)
  {
    var root := IntegerSqrt(w * 0x1_0000);
    RootFits(w * 0x1_0000, root);
    r := Min(root, U32_MAX);
  }

  lemma RootFits(v: nat, r: nat)
    requires IsRoot(v, r) && v <= 0xFFFF_FFFF * 0x1_0000
    ensures r <= U32_MAX
  {
    if r >= 0x1_0000_0000 { SquareGrows(0x1_0000_0000, r); }
  }
}
