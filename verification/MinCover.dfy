/** The greedy minimum-cost cover: what each selection costs, and what the greedy picks guarantee. */
module MinCover {
  import opened Bits
  import opened Options

  const MAX_CANDIDATES := 32
  const MAX_PER_CANDIDATE := 16
  const MAX_ENTITIES := 128
  const WEIGHT_ONE: u32 := 65536
  const LN_2_Q16 := 45426

  datatype Candidate = Candidate(id: u64, entities: seq<u64>, entityCount: byte)
  datatype Mass = Mass(entity: u64, mass: u32)
  datatype Config = Config(alpha: u32, lambda: u32, mu: u32, maxSpans: byte, tolerance: u32)
  datatype Components = Components(cost: u64, cover: u32, description: nat, redundancy: u64)
  datatype Step = Step(id: u64, components: Components)

  /** Everything that stays fixed during a selection. */
  datatype Problem = Problem(candidates: seq<Candidate>, masses: seq<Mass>, config: Config, log2n: u32)

  function Q16Mul(x: u32, y: u32): u32 {
    Min(((x as int) * y + 0x8000) / 0x1_0000, U32_MAX)
  }

  function Clamp(w: u32): u32 {
    Min(w, WEIGHT_ONE)
  }

  function SatAdd(x: nat, y: nat): u64 {
    Min(x + y, U64_MAX)
  }

  function Entities(c: Candidate): (es: seq<u64>)
    ensures |es| <= MAX_PER_CANDIDATE
  {
    c.entities[..Min(Min(c.entityCount, MAX_PER_CANDIDATE), |c.entities|)]
  }

  predicate Contains(c: Candidate, e: u64) {
    e in Entities(c)
  }

  /** Whether no earlier mass is for the same entity. */
  predicate IsFirst(masses: seq<Mass>, i: nat) {
    i < |masses| && forall j :: 0 <= j < i ==> masses[j].entity != masses[i].entity
  }

  // ---------------------------------------------------------------- cost of a selection

  function MassSum(masses: seq<Mass>, counted: nat -> bool, n: nat): nat
    requires n <= |masses|
  {
    if n == 0 then 0 else MassSum(masses, counted, n - 1) + if counted(n - 1) then Clamp(masses[n - 1].mass) else 0
  }

  function Positive(degrees: seq<nat>): nat -> bool {
    (i: nat) => i < |degrees| && degrees[i] > 0
  }

  /** Mass covered more than once, counted once for every extra time. */
  function Overlap(masses: seq<Mass>, degrees: seq<nat>, n: nat): nat
    requires n <= |masses| && n <= |degrees|
  {
    if n == 0 then 0
    else Overlap(masses, degrees, n - 1)
         + if degrees[n - 1] > 1 then (degrees[n - 1] - 1) * Clamp(masses[n - 1].mass) else 0
  }

  function ComponentsOf(p: Problem, count: nat, degrees: seq<nat>, total: u32): Components
    requires |degrees| == |p.masses|
  {
    var n := |p.masses|;
    var cover := Min(MassSum(p.masses, Positive(degrees), n), WEIGHT_ONE);
    var description := Q16Mul(p.config.alpha, p.log2n) * count;
    var gap := Q16Mul(p.config.lambda, Max(total - cover, 0));
    var redundancy := Min(Overlap(p.masses, degrees, n) * p.config.mu / 0x1_0000, U64_MAX);
    Components(SatAdd(SatAdd(description, gap), redundancy), cover, description, redundancy)
  }

  function Coverable(p: Problem): nat -> bool {
    (i: nat) => IsFirst(p.masses, i) && exists k ::
      0 <= k < |p.candidates| && Contains(p.candidates[k], p.masses[i].entity)
  }

  /** The mass of every entity that some candidate contains, each entity once. */
  function TotalMass(p: Problem): u32 {
    Min(MassSum(p.masses, Coverable(p), |p.masses|), WEIGHT_ONE)
  }

  function Bumped(masses: seq<Mass>, degrees: seq<nat>, c: Candidate): (d: seq<nat>)
    requires |degrees| == |masses|
    ensures |d| == |masses|
  {
    seq(|masses|, i requires 0 <= i < |masses| =>
      degrees[i] + if IsFirst(masses, i) && Contains(c, masses[i].entity) then 1 else 0)
  }

  function Zeros(n: nat): (d: seq<nat>)
    ensures |d| == n
  {
    seq(n, _ => 0)
  }

  predicate Picked(p: Problem, picks: seq<nat>) {
    forall i :: 0 <= i < |picks| ==> picks[i] < |p.candidates|
  }

  function Degrees(p: Problem, picks: seq<nat>): (d: seq<nat>)
    requires Picked(p, picks)
    ensures |d| == |p.masses|
  {
    if |picks| == 0 then Zeros(|p.masses|)
    else Bumped(p.masses, Degrees(p, picks[..|picks| - 1]), p.candidates[picks[|picks| - 1]])
  }

  function Of(p: Problem, picks: seq<nat>): Components
    requires Picked(p, picks)
  {
    ComponentsOf(p, |picks|, Degrees(p, picks), TotalMass(p))
  }

  // ---------------------------------------------------------------- what degrees and cover are

  function CountContaining(p: Problem, picks: seq<nat>, e: u64): nat
    requires Picked(p, picks)
  {
    if |picks| == 0 then 0
    else CountContaining(p, picks[..|picks| - 1], e) + if Contains(p.candidates[picks[|picks| - 1]], e) then 1 else 0
  }

  /** Each degree counts the picks that contain the entity; a repeated entity counts only where it is first. */
  lemma {:induction false} DegreesCount(p: Problem, picks: seq<nat>, i: nat)
    requires Picked(p, picks) && i < |p.masses|
    ensures Degrees(p, picks)[i] == if IsFirst(p.masses, i) then CountContaining(p, picks, p.masses[i].entity) else 0
  {
    if |picks| > 0 { DegreesCount(p, picks[..|picks| - 1], i); }
  }

  // ---------------------------------------------------------------- mass is counted once per pick

  /** A mass for every pick that contains its entity. */
  function Weighted(masses: seq<Mass>, degrees: seq<nat>, n: nat): nat
    requires n <= |masses| && n <= |degrees|
  {
    if n == 0 then 0 else Weighted(masses, degrees, n - 1) + Portion(degrees[n - 1], Clamp(masses[n - 1].mass))
  }

  function Portion(degree: nat, mass: nat): nat {
    degree * mass
  }

  /** The masses of the entities of one candidate, each entity's once. */
  function MassIn(masses: seq<Mass>, c: Candidate, n: nat): nat
    requires n <= |masses|
  {
    if n == 0 then 0
    else MassIn(masses, c, n - 1)
         + if IsFirst(masses, n - 1) && Contains(c, masses[n - 1].entity) then Clamp(masses[n - 1].mass) else 0
  }

  /** The masses of all picks together. */
  function PickedMass(p: Problem, picks: seq<nat>): nat
    requires Picked(p, picks)
  {
    if |picks| == 0 then 0
    else PickedMass(p, picks[..|picks| - 1]) + MassIn(p.masses, p.candidates[picks[|picks| - 1]], |p.masses|)
  }

  lemma {:induction false} OverlapAndCover(masses: seq<Mass>, degrees: seq<nat>, n: nat)
    requires |degrees| == |masses| && n <= |masses|
    ensures Overlap(masses, degrees, n) + MassSum(masses, Positive(degrees), n) == Weighted(masses, degrees, n)
  {
    if n > 0 {
      OverlapAndCover(masses, degrees, n - 1);
      FirstAndRest(degrees[n - 1], Clamp(masses[n - 1].mass));
    }
  }

  lemma FirstAndRest(d: nat, m: nat)
    ensures (if d > 1 then (d - 1) * m else 0) + (if d > 0 then m else 0) == Portion(d, m)
  {
  }

  lemma {:induction false} WeightedMore(masses: seq<Mass>, degrees: seq<nat>, c: Candidate, n: nat)
    requires |degrees| == |masses| && n <= |masses|
    ensures Weighted(masses, Bumped(masses, degrees, c), n) == Weighted(masses, degrees, n) + MassIn(masses, c, n)
  {
    if n > 0 {
      WeightedMore(masses, degrees, c, n - 1);
      BumpedBy(masses, degrees, c, n - 1);
      Bump(degrees[n - 1], Extra(masses, c, n - 1), Clamp(masses[n - 1].mass));
    }
  }

  function Extra(masses: seq<Mass>, c: Candidate, i: nat): nat
    requires i < |masses|
  {
    if IsFirst(masses, i) && Contains(c, masses[i].entity) then 1 else 0
  }

  lemma BumpedBy(masses: seq<Mass>, degrees: seq<nat>, c: Candidate, i: nat)
    requires |degrees| == |masses| && i < |masses|
    ensures Bumped(masses, degrees, c)[i] == degrees[i] + Extra(masses, c, i)
    ensures MassIn(masses, c, i + 1)
         == MassIn(masses, c, i) + if Extra(masses, c, i) == 1 then Clamp(masses[i].mass) else 0
  {
  }

  lemma Bump(d: nat, bump: nat, m: nat)
    requires bump <= 1
    ensures Portion(d + bump, m) == Portion(d, m) + if bump == 1 then m else 0
  {
  }

  lemma {:induction false} WeightedNothing(masses: seq<Mass>, n: nat)
    requires n <= |masses|
    ensures Weighted(masses, Zeros(|masses|), n) == 0
  {
    if n > 0 { WeightedNothing(masses, n - 1); }
  }

  lemma {:induction false} WeightedIsPicked(p: Problem, picks: seq<nat>)
    requires Picked(p, picks)
    ensures Weighted(p.masses, Degrees(p, picks), |p.masses|) == PickedMass(p, picks)
  {
    if |picks| == 0 {
      WeightedNothing(p.masses, |p.masses|);
    } else {
      var rest := picks[..|picks| - 1];
      WeightedIsPicked(p, rest);
      WeightedMore(p.masses, Degrees(p, rest), p.candidates[picks[|picks| - 1]], |p.masses|);
    }
  }

  /** Before any cap, what is covered and what is covered again add up to the masses of all picks: the overlap is
      exactly what the picks have in common. */
  lemma OverlapIsExcess(p: Problem, picks: seq<nat>)
    requires Picked(p, picks)
    ensures var d, n := Degrees(p, picks), |p.masses|;
      Overlap(p.masses, d, n) + MassSum(p.masses, Positive(d), n) == PickedMass(p, picks)
  {
    OverlapAndCover(p.masses, Degrees(p, picks), |p.masses|);
    WeightedIsPicked(p, picks);
  }

  lemma {:induction false} CountPositive(p: Problem, picks: seq<nat>, e: u64)
    requires Picked(p, picks)
    ensures CountContaining(p, picks, e) > 0 <==> exists k :: 0 <= k < |picks| && Contains(p.candidates[picks[k]], e)
    ensures CountContaining(p, picks, e) <= |picks|
  {
    if |picks| > 0 {
      var n := |picks| - 1;
      CountPositive(p, picks[..n], e);
      if Contains(p.candidates[picks[n]], e) { assert 0 <= n < |picks|; }
    }
  }

  lemma {:induction false} MassSumLe(masses: seq<Mass>, f: nat -> bool, g: nat -> bool, n: nat)
    requires n <= |masses| && forall i: nat :: i < n && f(i) ==> g(i)
    ensures MassSum(masses, f, n) <= MassSum(masses, g, n)
  {
    if n > 0 { MassSumLe(masses, f, g, n - 1); }
  }

  /** No selection covers more than the total. */
  lemma CoverWithinTotal(p: Problem, picks: seq<nat>)
    requires Picked(p, picks)
    ensures Of(p, picks).cover <= TotalMass(p)
  {
    var f, g := Positive(Degrees(p, picks)), Coverable(p);
    forall i: nat | i < |p.masses| && f(i) ensures g(i) {
      DegreesCount(p, picks, i);
      CountPositive(p, picks, p.masses[i].entity);
      var k :| 0 <= k < |picks| && Contains(p.candidates[picks[k]], p.masses[i].entity);
      assert Contains(p.candidates[picks[k]], p.masses[i].entity);
    }
    MassSumLe(p.masses, f, g, |p.masses|);
  }

  /** Adding a candidate never uncovers anything. */
  lemma CoverGrows(p: Problem, picks: seq<nat>, k: nat)
    requires Picked(p, picks) && k < |p.candidates|
    ensures Of(p, picks).cover <= Of(p, picks + [k]).cover
  {
    assert (picks + [k])[..|picks|] == picks;
    var f, g := Positive(Degrees(p, picks)), Positive(Degrees(p, picks + [k]));
    forall i: nat | i < |p.masses| && f(i) ensures g(i) { }
    MassSumLe(p.masses, f, g, |p.masses|);
  }

  // ---------------------------------------------------------------- the greedy guarantee

  ghost predicate Unused(p: Problem, picks: seq<nat>, j: nat) {
    j < |p.candidates| && j !in picks
  }

  function CostWith(p: Problem, picks: seq<nat>, j: nat): nat
    requires Picked(p, picks) && j < |p.candidates|
  {
    Of(p, picks + [j]).cost
  }

  /** After the first `n` candidates: the best so far, or none if none improves by more than the tolerance. */
  ghost predicate Scanned(p: Problem, picks: seq<nat>, n: nat, best: Option<nat>, cost: nat)
    requires Picked(p, picks) && n <= |p.candidates|
  {
    && (best.None? ==> cost == Of(p, picks).cost)
    && (best.Some? ==> best.value < n && Unused(p, picks, best.value) && cost == CostWith(p, picks, best.value)
                       && cost + p.config.tolerance < Of(p, picks).cost)
    && (forall j: nat :: j < n && Unused(p, picks, j) ==> CostWith(p, picks, j) + p.config.tolerance >= cost)
    && (best.Some? ==> forall j: nat :: j < best.value && Unused(p, picks, j) ==> CostWith(p, picks, j) > cost)
  }

  /** Every pick improved the cost by more than the tolerance; nothing unused beats it by more than
      the tolerance, and nothing unused before it is as cheap. */
  ghost predicate Greedy(p: Problem, picks: seq<nat>) {
    && Picked(p, picks)
    && forall k: nat :: k < |picks| ==> GreedyAt(p, picks, k)
  }

  ghost predicate GreedyAt(p: Problem, picks: seq<nat>, k: nat)
    requires Picked(p, picks) && k < |picks|
  {
    var before, cost := picks[..k], Of(p, picks[..k + 1]).cost;
    && picks[k] !in before
    && cost + p.config.tolerance < Of(p, before).cost
    && (forall j: nat :: Unused(p, before, j) ==> CostWith(p, before, j) + p.config.tolerance >= cost)
    && (forall j: nat :: j < picks[k] && Unused(p, before, j) ==> CostWith(p, before, j) > cost)
  }

  /** Nothing unused would improve the cost by more than the tolerance. */
  ghost predicate Settled(p: Problem, picks: seq<nat>)
    requires Picked(p, picks)
  {
    forall j: nat :: Unused(p, picks, j) ==> CostWith(p, picks, j) + p.config.tolerance >= Of(p, picks).cost
  }

  lemma GreedyMore(p: Problem, picks: seq<nat>, j: nat, cost: nat)
    requires Greedy(p, picks) && Scanned(p, picks, |p.candidates|, Some(j), cost)
    ensures Greedy(p, picks + [j])
  {
    var more := picks + [j];
    assert more[..|picks|] == picks && more[..|picks| + 1] == more;
    forall k: nat | k < |more| ensures GreedyAt(p, more, k) {
      if k < |picks| {
        assert GreedyAt(p, picks, k);
        assert more[..k] == picks[..k] && more[..k + 1] == picks[..k + 1];
      }
    }
  }

  /** The cost falls by more than the tolerance at every pick, so a selection's cost says how long it can be. */
  lemma {:induction false} CostFalls(p: Problem, picks: seq<nat>)
    requires Greedy(p, picks)
    ensures Of(p, picks).cost + |picks| * (p.config.tolerance + 1) <= Of(p, []).cost
  {
    if |picks| > 0 {
      var n := |picks| - 1;
      assert GreedyAt(p, picks, n);
      assert picks[..n + 1] == picks;
      forall k: nat | k < n ensures GreedyAt(p, picks[..n], k) {
        assert GreedyAt(p, picks, k);
        assert picks[..n][..k] == picks[..k] && picks[..n][..k + 1] == picks[..k + 1];
      }
      CostFalls(p, picks[..n]);
      assert (n + 1) * (p.config.tolerance + 1) == n * (p.config.tolerance + 1) + (p.config.tolerance + 1);
    } else {
      assert picks == [];
    }
  }
}
