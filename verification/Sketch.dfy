/** The approximate sets and counters, each as a function of everything ever put in. */
module Sketch {
  import opened Bits
  import opened Bitset
  import opened Fnv

  type Item = seq<byte>

  // ---------------------------------------------------------------- Bloom filter

  const BLOOM_BITS := 8192
  const BLOOM_K := 7

  /** The `i`-th bit of an item, by double hashing in 32-bit words. */
  function Position(x: Item, i: nat): (p: nat)
    ensures p < BLOOM_BITS
  {
    PositionOf(Fnv1a(x, 0), i)
  }

  function PositionOf(h: u64, i: nat): (p: nat)
    ensures p < BLOOM_BITS
  {
    (h % 0x1_0000_0000 + i * (h / 0x1_0000_0000) % 0x1_0000_0000) % 0x1_0000_0000 % BLOOM_BITS
  }

  ghost predicate Touches(x: Item, p: nat, n: nat) {
    exists i: nat :: i < n && Position(x, i) == p
  }

  ghost predicate Marked(items: seq<Item>, p: nat) {
    |items| > 0 && (Marked(items[..|items| - 1], p) || Touches(items[|items| - 1], p, BLOOM_K))
  }

  ghost predicate MayContain(items: seq<Item>, x: Item) {
    forall i: nat :: i < BLOOM_K ==> Marked(items, Position(x, i))
  }

  lemma {:induction false} MarkedGrows(items: seq<Item>, x: Item, p: nat)
    requires x in items && Touches(x, p, BLOOM_K)
    ensures Marked(items, p)
  {
    var n := |items| - 1;
    if x != items[n] {
      assert items == items[..n] + [items[n]];
      MarkedGrows(items[..n], x, p);
    }
  }

  /** No false negatives: the filter never denies an item it was given. */
  lemma NoFalseNegatives(items: seq<Item>, x: Item)
    requires x in items
    ensures MayContain(items, x)
  {
    forall i: nat | i < BLOOM_K ensures Marked(items, Position(x, i)) {
      MarkedGrows(items, x, Position(x, i));
    }
  }

  /** An answer once yes stays yes. */
  lemma MayContainGrows(items: seq<Item>, more: Item, x: Item)
    requires MayContain(items, x)
    ensures MayContain(items + [more], x)
  {
    assert (items + [more])[..|items|] == items;
  }

  class BloomFilter {
    const bits: array<byte>
    var count: nat
    ghost var items: seq<Item>

    ghost predicate Valid()
      reads this, bits
    {
      && bits.Length == BLOOM_BITS / 8 && count == |items|
      && forall p: nat :: Has(bits[..], p) <==> Marked(items, p)
    }

    constructor ()
      ensures Valid() && items == [] && fresh(bits)
    {
      bits := new byte[BLOOM_BITS / 8](_ => 0);
      count, items := 0, [];
      new;
      forall p: nat ensures !Has(bits[..], p) { EmptyHasNone(bits[..], p); }
    }

    method Insert(x: Item)
      requires Valid()
      modifies this, bits
      ensures Valid() && items == old(items) + [x]
    {
      var h := Hash(x, 0);
      var i: nat := 0;
      ghost var was := bits[..];
      while i < BLOOM_K
        invariant i <= BLOOM_K && count == old(count) && items == old(items)
        invariant forall p: nat :: Has(bits[..], p) <==> Has(was, p) || Touches(x, p, i)
      {
        var p := PositionOf(h, i);
        assert p == Position(x, i);
        Mark(bits, p);
        i := i + 1;
      }
      count := count + 1;
      assert (items + [x])[..|items|] == items;
      items := items + [x];
    }

    method TestAt(ghost x: Item, h: u64, i: nat) returns (b: bool)
      requires Valid() && h == Fnv1a(x, 0)
      ensures b == Marked(items, Position(x, i))
    {
      b := Test(bits, PositionOf(h, i));
    }

    method Contains(x: Item) returns (yes: bool)
      requires Valid()
      ensures yes == MayContain(items, x)
      ensures x in items ==> yes
    {
      if x in items { NoFalseNegatives(items, x); }
      var h := Hash(x, 0);
      var i: nat := 0;
      while i < BLOOM_K
        invariant i <= BLOOM_K
        invariant forall k: nat :: k < i ==> Marked(items, Position(x, k))
      {
        var b := TestAt(x, h, i);
        if !b {
          return false;
        }
        i := i + 1;
      }
      return true;
    }
  }

  // ---------------------------------------------------------------- Count-Min sketch

  const DEPTH := 4
  const WIDTH := 256

  datatype Added = Added(key: Item, delta: u32)

  function Column(x: Item, d: nat): (c: nat)
    requires d < DEPTH
    ensures c < WIDTH
  {
    Fnv1a(x, d + 1) % WIDTH
  }

  /** Everything that row `d` has counted in column `c`. */
  function RowMass(log: seq<Added>, d: nat, c: nat): nat
    requires d < DEPTH
  {
    if |log| == 0 then 0
    else RowMass(log[..|log| - 1], d, c) + if Column(log[|log| - 1].key, d) == c then log[|log| - 1].delta else 0
  }

  /** What was really added under a key. */
  function Count(log: seq<Added>, x: Item): nat {
    if |log| == 0 then 0
    else Count(log[..|log| - 1], x) + if log[|log| - 1].key == x then log[|log| - 1].delta else 0
  }

  function Cell(log: seq<Added>, d: nat, c: nat): u32
    requires d < DEPTH
  {
    Min(U32_MAX, RowMass(log, d, c))
  }

  /** The least of the first `n` rows' cells. */
  function Least(log: seq<Added>, x: Item, n: nat): u32
    requires n <= DEPTH
  {
    if n == 0 then U32_MAX else Min(Least(log, x, n - 1), Cell(log, n - 1, Column(x, n - 1)))
  }

  function Estimate(log: seq<Added>, x: Item): u32 {
    Least(log, x, DEPTH)
  }

  lemma {:induction false} CountInRow(log: seq<Added>, x: Item, d: nat)
    requires d < DEPTH
    ensures Count(log, x) <= RowMass(log, d, Column(x, d))
  {
    if |log| > 0 { CountInRow(log[..|log| - 1], x, d); }
  }

  /** An estimate is never below the true count, short of saturation. */
  lemma NeverUnder(log: seq<Added>, x: Item)
    ensures Min(U32_MAX, Count(log, x)) <= Estimate(log, x)
  {
    LeastBound(log, x, DEPTH);
  }

  lemma {:induction false} LeastBound(log: seq<Added>, x: Item, n: nat)
    requires n <= DEPTH
    ensures Min(U32_MAX, Count(log, x)) <= Least(log, x, n)
  {
    if n > 0 {
      LeastBound(log, x, n - 1);
      CountInRow(log, x, n - 1);
    }
  }

  /** One row without a collision is enough for an exact answer. */
  lemma ExactWithoutCollision(log: seq<Added>, x: Item, d: nat)
    requires d < DEPTH
    requires forall i :: 0 <= i < |log| && log[i].delta > 0 && Column(log[i].key, d) == Column(x, d) ==> log[i].key == x
    ensures Estimate(log, x) == Min(U32_MAX, Count(log, x))
  {
    NeverUnder(log, x);
    AloneInRow(log, x, d);
    LeastAtMost(log, x, d, DEPTH);
  }

  lemma {:induction false} AloneInRow(log: seq<Added>, x: Item, d: nat)
    requires d < DEPTH
    requires forall i :: 0 <= i < |log| && log[i].delta > 0 && Column(log[i].key, d) == Column(x, d) ==> log[i].key == x
    ensures RowMass(log, d, Column(x, d)) == Count(log, x)
  {
    if |log| > 0 { AloneInRow(log[..|log| - 1], x, d); }
  }

  lemma {:induction false} LeastAtMost(log: seq<Added>, x: Item, d: nat, n: nat)
    requires d < n <= DEPTH
    ensures Least(log, x, n) <= Cell(log, d, Column(x, d))
  {
    if d < n - 1 { LeastAtMost(log, x, d, n - 1); }
  }

  /** Every occurrence of both sides paired: the size of the join. */
  function JoinSize(a: seq<Added>, b: seq<Added>): nat {
    if |a| == 0 then 0 else JoinSize(a[..|a| - 1], b) + Times(a[|a| - 1].delta, Count(b, a[|a| - 1].key))
  }

  /** The dot product of two rows over their first `n` columns. */
  function Dot(a: seq<Added>, b: seq<Added>, d: nat, n: nat): nat
    requires d < DEPTH
  {
    if n == 0 then 0 else Dot(a, b, d, n - 1) + Times(Cell(a, d, n - 1), Cell(b, d, n - 1))
  }

  function Times(x: nat, y: nat): nat {
    x * y
  }

  /** The low 64 bits. */
  function Wrapped(x: nat): u64 {
    x % 0x1_0000_0000_0000_0000
  }

  lemma WrappedSum(x: nat, y: nat)
    ensures Wrapped(Wrapped(x) as int + y) == Wrapped(x + y)
  {
  }

  predicate Unsaturated(log: seq<Added>) {
    forall d: nat, c: nat :: d < DEPTH && c < WIDTH ==> RowMass(log, d, c) <= U32_MAX
  }

  lemma {:induction false} DotMore(a: seq<Added>, b: seq<Added>, d: nat, n: nat)
    requires d < DEPTH && |a| > 0 && n <= WIDTH && Unsaturated(a)
    ensures var e := a[|a| - 1];
      Dot(a, b, d, n)
      == Dot(a[..|a| - 1], b, d, n) + if Column(e.key, d) < n then Times(e.delta, Cell(b, d, Column(e.key, d))) else 0
  {
    if n > 0 {
      DotMore(a, b, d, n - 1);
      CellMore(a, d, n - 1, Cell(b, d, n - 1));
    }
  }

  lemma CellMore(a: seq<Added>, d: nat, c: nat, y: nat)
    requires d < DEPTH && c < WIDTH && |a| > 0 && Unsaturated(a)
    ensures var e := a[|a| - 1];
      Times(Cell(a, d, c), y)
      == Times(Cell(a[..|a| - 1], d, c), y) + if Column(e.key, d) == c then Times(e.delta, y) else 0
  {
    var p, e := a[..|a| - 1], a[|a| - 1];
    assert RowMass(a, d, c) <= U32_MAX;
    TimesSum(Cell(p, d, c), e.delta, y);
  }

  lemma TimesSum(x: nat, e: nat, y: nat)
    ensures Times(x + e, y) == Times(x, y) + Times(e, y)
  {
  }

  lemma {:induction false} DotNothing(b: seq<Added>, d: nat, n: nat)
    requires d < DEPTH
    ensures Dot([], b, d, n) == 0
  {
    if n > 0 { DotNothing(b, d, n - 1); }
  }

  lemma UnsaturatedBefore(a: seq<Added>)
    requires Unsaturated(a) && |a| > 0
    ensures Unsaturated(a[..|a| - 1])
  {
    var p := a[..|a| - 1];
    forall d: nat, c: nat | d < DEPTH && c < WIDTH ensures RowMass(p, d, c) <= U32_MAX {
      assert RowMass(a, d, c) <= U32_MAX;
    }
  }

  /** While no counter has saturated, no row's dot product falls below the size of the join. */
  lemma {:induction false} DotCoversJoin(a: seq<Added>, b: seq<Added>, d: nat)
    requires d < DEPTH && Unsaturated(a) && Unsaturated(b)
    ensures JoinSize(a, b) <= Dot(a, b, d, WIDTH)
  {
    if |a| == 0 {
      DotNothing(b, d, WIDTH);
    } else {
      var p, e := a[..|a| - 1], a[|a| - 1];
      UnsaturatedBefore(a);
      DotCoversJoin(p, b, d);
      DotMore(a, b, d, WIDTH);
      CountInRow(b, e.key, d);
      assert RowMass(b, d, Column(e.key, d)) <= U32_MAX;
      TimesGrows(e.delta, Count(b, e.key), Cell(b, d, Column(e.key, d)));
    }
  }

  lemma TimesGrows(e: nat, x: nat, y: nat)
    requires x <= y
    ensures Times(e, x) <= Times(e, y)
  {
  }

  /** What row `d` multiplies out to in 64-bit words. */
  function RowValue(a: seq<Added>, b: seq<Added>, d: nat): u64
    requires d < DEPTH
  {
    Wrapped(Dot(a, b, d, WIDTH))
  }

  lemma JoinBounded(a: seq<Added>, b: seq<Added>, d: nat)
    requires d < DEPTH
    ensures Unsaturated(a) && Unsaturated(b) && Dot(a, b, d, WIDTH) <= U64_MAX ==> JoinSize(a, b) <= RowValue(a, b, d)
  {
    if Unsaturated(a) && Unsaturated(b) { DotCoversJoin(a, b, d); }
  }

  class CountMinSketch {
    const table: array2<u32>
    var totalCount: nat
    ghost var log: seq<Added>

    ghost predicate Valid()
      reads this, table
    {
      && table.Length0 == DEPTH && table.Length1 == WIDTH
      && forall d: nat, c: nat :: d < DEPTH && c < WIDTH ==> table[d, c] == Cell(log, d, c)
    }

    constructor ()
      ensures Valid() && log == [] && fresh(table)
    {
      table := new u32[DEPTH, WIDTH]((_, _) => 0);
      totalCount, log := 0, [];
    }

    method Add(x: Item, delta: u32)
      requires Valid()
      modifies this, table
      ensures Valid() && log == old(log) + [Added(x, delta)]
    {
      ghost var more := log + [Added(x, delta)];
      assert more[..|log|] == log;
      var d := 0;
      while d < DEPTH
        invariant 0 <= d <= DEPTH && log == old(log)
        invariant forall k: nat, c: nat :: k < d && c < WIDTH ==> table[k, c] == Cell(more, k, c)
        invariant forall k: nat, c: nat :: d <= k < DEPTH && c < WIDTH ==> table[k, c] == Cell(log, k, c)
      {
        var h := Hash(x, d + 1);
        var c := h % WIDTH;
        table[d, c] := Min(table[d, c] as int + delta, U32_MAX);
        d := d + 1;
      }
      totalCount := totalCount + delta;
      log := more;
    }

    method GetEstimate(x: Item) returns (e: u32)
      requires Valid()
      ensures e == Estimate(log, x)
      ensures e >= Min(U32_MAX, Count(log, x))
    {
      NeverUnder(log, x);
      e := U32_MAX;
      var d := 0;
      while d < DEPTH
        invariant 0 <= d <= DEPTH && e == Least(log, x, d)
      {
        var h := Hash(x, d + 1);
        var v := table[d, h % WIDTH];
        if v < e {
          e := v;
        }
        d := d + 1;
      }
    }

    method RowDot(other: CountMinSketch, d: nat) returns (dot: u64)
      requires Valid() && other.Valid() && d < DEPTH
      ensures dot == RowValue(log, other.log, d)
    {
      dot := 0;
      var w := 0;
      while w < WIDTH
        invariant 0 <= w <= WIDTH && dot == Wrapped(Dot(log, other.log, d, w))
      {
        WrappedSum(Dot(log, other.log, d, w), Times(table[d, w], other.table[d, w]));
        dot := Wrapped(dot as int + Times(table[d, w], other.table[d, w]));
        w := w + 1;
      }
    }

    /** The least row product in 64-bit words; it bounds the join from above
        while no counter has saturated and no product has wrapped. */
    method InnerProduct(other: CountMinSketch) returns (min: u64)
      requires Valid() && other.Valid()
      ensures forall d: nat :: d < DEPTH ==> min <= RowValue(log, other.log, d)
      ensures exists d: nat :: d < DEPTH && min == RowValue(log, other.log, d)
      ensures Unsaturated(log) && Unsaturated(other.log)
           && (forall d: nat :: d < DEPTH ==> Dot(log, other.log, d, WIDTH) <= U64_MAX)
           ==> JoinSize(log, other.log) <= min
    {
      min := U64_MAX;
      var d: nat := 0;
      ghost var at: nat := 0;
      while d < DEPTH
        invariant d <= DEPTH
        invariant forall k: nat :: k < d ==> min <= RowValue(log, other.log, k)
        invariant d == 0 ==> min == U64_MAX
        invariant d > 0 ==> at < d && min == RowValue(log, other.log, at)
      {
        var dot := RowDot(other, d);
        if dot < min || d == 0 {
          at := d;
        }
        if dot < min {
          min := dot;
        }
        d := d + 1;
      }
      JoinBounded(log, other.log, at);
    }
  }

  // ---------------------------------------------------------------- HyperLogLog

  const HLL_SEED: u64 := 0x484C_4C5F_5345_4544
  const HLL_M := 256

  function Register(x: Item): (j: nat)
    ensures j < HLL_M
  {
    RegisterOf(Fnv1a(x, HLL_SEED))
  }

  /** The top byte of the hash. */
  function RegisterOf(h: u64): (j: nat)
    ensures j < HLL_M
  {
    h / 0x100_0000_0000_0000
  }

  /** One more than the leading zeros of the hash after its first byte. */
  function Rank(x: Item): nat {
    RankOf(Fnv1a(x, HLL_SEED))
  }

  function RankOf(h: u64): nat {
    var remaining := h * 256 % 0x1_0000_0000_0000_0000 + 128;
    if BitLength(remaining) <= 64 then 64 - BitLength(remaining) + 1 else 0
  }

  /** The highest rank among the items of register `j`. */
  function Highest(log: seq<Item>, j: nat): nat {
    if |log| == 0 then 0
    else Max(Highest(log[..|log| - 1], j), if Register(log[|log| - 1]) == j then Rank(log[|log| - 1]) else 0)
  }

  lemma {:induction false} HighestOfBoth(a: seq<Item>, b: seq<Item>, j: nat)
    ensures Highest(a + b, j) == Max(Highest(a, j), Highest(b, j))
  {
    if |b| == 0 {
      assert a + b == a;
    } else {
      assert (a + b)[..|a + b| - 1] == a + b[..|b| - 1];
      HighestOfBoth(a, b[..|b| - 1], j);
    }
  }

  lemma {:induction false} HighestCovers(a: seq<Item>, x: Item)
    requires x in a
    ensures Rank(x) <= Highest(a, Register(x))
  {
    var n := |a| - 1;
    if x != a[n] {
      assert a == a[..n] + [a[n]];
      HighestCovers(a[..n], x);
    }
  }

  lemma {:induction false} HighestOfFewer(a: seq<Item>, b: seq<Item>, j: nat)
    requires forall x :: x in a ==> x in b
    ensures Highest(a, j) <= Highest(b, j)
  {
    if |a| > 0 {
      var x := a[|a| - 1];
      HighestOfFewer(a[..|a| - 1], b, j);
      HighestCovers(b, x);
    }
  }

  /** The registers depend only on which items were added, not on order or repetition. */
  lemma SameItemsSameRegisters(a: seq<Item>, b: seq<Item>, j: nat)
    requires forall x :: x in a <==> x in b
    ensures Highest(a, j) == Highest(b, j)
  {
    HighestOfFewer(a, b, j);
    HighestOfFewer(b, a, j);
  }

  predicate Kept(registers: seq<nat>, log: seq<Item>, from: nat, to: nat)
    requires to <= |registers|
  {
    forall j: nat :: from <= j < to ==> registers[j] == Highest(log, j)
  }

  class HyperLogLog {
    const registers: array<nat>
    var countOps: nat
    ghost var log: seq<Item>

    ghost predicate Valid()
      reads this, registers
    {
      && registers.Length == HLL_M && countOps == |log|
      && Kept(registers[..], log, 0, HLL_M)
    }

    constructor ()
      ensures Valid() && log == [] && fresh(registers)
    {
      registers := new nat[HLL_M](_ => 0);
      countOps, log := 0, [];
    }

    method Add(x: Item)
      requires Valid()
      modifies this, registers
      ensures Valid() && log == old(log) + [x]
    {
      var h := Hash(x, HLL_SEED);
      var j := RegisterOf(h);
      var rho := RankOf(h);
      if rho > registers[j] {
        registers[j] := rho;
      }
      countOps := countOps + 1;
      assert (log + [x])[..|log|] == log;
      log := log + [x];
    }

    /** Merging two sketches gives the sketch of everything both have seen. */
    method Merge(other: HyperLogLog)
      requires Valid() && other.Valid() && other.registers != registers
      modifies this, registers
      ensures Valid() && log == old(log + other.log)
    {
      ghost var both, mine, theirs := log + other.log, log, other.registers[..];
      var j := 0;
      while j < HLL_M
        invariant 0 <= j <= HLL_M && theirs == other.registers[..]
        invariant Kept(registers[..], both, 0, j) && Kept(registers[..], mine, j, HLL_M)
        modifies registers
      {
        HighestOfBoth(mine, other.log, j);
        assert theirs[j] == Highest(other.log, j);
        if other.registers[j] > registers[j] {
          registers[j] := other.registers[j];
        }
        j := j + 1;
      }
      countOps := countOps + other.countOps;
      log := both;
    }
  }
}
