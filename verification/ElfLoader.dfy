/** Loading an ELF image: page ranges merged and zeroed, then every segment copied in. */
module ElfLoader {
  import opened Bits
  import opened Options
  import opened Permutations

  const PAGE := 0x1000

  datatype Header = Header(load: bool, paddr: nat, offset: nat, filesz: nat, memsz: nat)
  datatype Range = Range(start: nat, end: nat)

  /** The program headers the loader acts on. */
  predicate Loads(h: Header) {
    h.load && h.memsz > 0
  }

  function PageDown(x: nat): nat {
    x - x % PAGE
  }

  function PageUp(x: nat): nat {
    PageDown(x + (PAGE - 1))
  }

  function Rounded(h: Header): Range {
    Range(PageDown(h.paddr), PageUp(h.paddr + h.memsz))
  }

  function RangesOf(hs: seq<Header>): seq<Range> {
    if |hs| == 0 then []
    else RangesOf(hs[..|hs| - 1]) + if Loads(hs[|hs| - 1]) then [Rounded(hs[|hs| - 1])] else []
  }

  predicate Covers(r: Range, a: nat) {
    r.start <= a < r.end
  }

  predicate In(rs: seq<Range>, a: nat) {
    exists i :: 0 <= i < |rs| && Covers(rs[i], a)
  }

  ghost predicate SameUnion(a: seq<Range>, b: seq<Range>) {
    forall x: nat :: In(a, x) <==> In(b, x)
  }

  // ---------------------------------------------------------------- merging

  predicate Aligned(rs: seq<Range>) {
    forall i :: 0 <= i < |rs| ==> rs[i].start % PAGE == 0 && rs[i].end % PAGE == 0 && rs[i].start < rs[i].end
  }

  predicate Sorted(rs: seq<Range>) {
    forall i, j :: 0 <= i < j < |rs| ==> rs[i].start <= rs[j].start
  }

  /** In order, with a gap between any two. */
  predicate Separated(rs: seq<Range>) {
    forall i, j :: 0 <= i < j < |rs| ==> rs[i].end < rs[j].start
  }

  lemma RoundedCovers(h: Header)
    requires h.memsz > 0
    ensures var r := Rounded(h);
      && r.start % PAGE == 0 && r.end % PAGE == 0
      && r.start <= h.paddr < r.start + PAGE && r.end - PAGE < h.paddr + h.memsz <= r.end
  {
    DownIsMultiple(h.paddr);
    DownIsMultiple(h.paddr + h.memsz + (PAGE - 1));
  }

  lemma DownIsMultiple(x: nat)
    ensures PageDown(x) % PAGE == 0 && PageDown(x) <= x < PageDown(x) + PAGE
  {
  }

  lemma {:induction false} RangesAreAligned(hs: seq<Header>)
    ensures Aligned(RangesOf(hs))
  {
    if |hs| > 0 {
      RangesAreAligned(hs[..|hs| - 1]);
      if Loads(hs[|hs| - 1]) { RoundedCovers(hs[|hs| - 1]); }
    }
  }

  /** A stable insertion; the source's library sort may order equal starts otherwise. */
  method SortByStart(rs: seq<Range>) returns (s: seq<Range>)
    ensures Sorted(s) && multiset(s) == multiset(rs)
  {
    s := [];
    var i := 0;
    while i < |rs|
      invariant 0 <= i <= |rs| && Sorted(s) && multiset(s) == multiset(rs[..i])
    {
      s := InsertByStart(s, rs[i]);
      assert rs[..i + 1] == rs[..i] + [rs[i]];
      i := i + 1;
    }
    assert rs[..i] == rs;
  }

  method InsertByStart(s: seq<Range>, r: Range) returns (t: seq<Range>)
    requires Sorted(s)
    ensures Sorted(t) && multiset(t) == multiset(s) + multiset{r}
  {
    var k := |s|;
    while k > 0 && s[k - 1].start > r.start
      invariant 0 <= k <= |s| && forall i :: k <= i < |s| ==> s[i].start > r.start
    {
      k := k - 1;
    }
    t := s[..k] + ([r] + s[k..]);
    InsertKeepsSorted(s[..k], r, s[k..]);
    InsertKeepsElements(s, k, r);
  }

  lemma InsertKeepsSorted(a: seq<Range>, r: Range, b: seq<Range>)
    requires Sorted(a) && Sorted(b)
    requires (forall i :: 0 <= i < |a| ==> a[i].start <= r.start) && forall i :: 0 <= i < |b| ==> r.start <= b[i].start
    ensures Sorted(a + ([r] + b))
  {
  }

  lemma InsertKeepsElements(s: seq<Range>, k: nat, r: Range)
    requires k <= |s|
    ensures multiset(s[..k] + ([r] + s[k..])) == multiset(s) + multiset{r}
  {
    assert s == s[..k] + s[k..];
  }

  lemma SameElementsSameUnion(a: seq<Range>, b: seq<Range>)
    requires multiset(a) == multiset(b)
    ensures SameUnion(a, b) && (Aligned(a) ==> Aligned(b))
  {
    SameMembers(a, b);
    forall x: nat ensures In(a, x) <==> In(b, x) {
      if i :| 0 <= i < |a| && Covers(a[i], x) { assert a[i] in b; }
      if i :| 0 <= i < |b| && Covers(b[i], x) { assert b[i] in a; }
    }
    if Aligned(a) {
      forall i | 0 <= i < |b| ensures b[i].start % PAGE == 0 && b[i].end % PAGE == 0 && b[i].start < b[i].end {
        assert b[i] in a;
      }
    }
  }

  /** What has been merged covers what has been read, and the last range starts no later than what comes. */
  ghost predicate MergedSoFar(rs: seq<Range>, k: nat, m: seq<Range>)
    requires k <= |rs|
  {
    && Aligned(m) && Separated(m) && SameUnion(m, rs[..k])
    && (|m| > 0 ==> forall i :: k <= i < |rs| ==> m[|m| - 1].start <= rs[i].start)
    && (|m| == 0 ==> k == 0)
  }

  lemma InMore(rs: seq<Range>, r: Range, x: nat)
    ensures In(rs + [r], x) <==> In(rs, x) || Covers(r, x)
  {
    var t := rs + [r];
    if i :| 0 <= i < |rs| && Covers(rs[i], x) { assert Covers(t[i], x); }
    if Covers(r, x) { assert Covers(t[|rs|], x); }
  }

  function Extended(m: seq<Range>, r: Range): seq<Range> {
    if |m| > 0 && r.start <= m[|m| - 1].end then
      m[..|m| - 1] + [Range(m[|m| - 1].start, Max(m[|m| - 1].end, r.end))]
    else m + [r]
  }

  lemma ExtendedCovers(m: seq<Range>, r: Range, x: nat)
    requires |m| > 0 ==> m[|m| - 1].start <= r.start
    ensures In(Extended(m, r), x) <==> In(m, x) || Covers(r, x)
  {
    if |m| > 0 && r.start <= m[|m| - 1].end {
      var p, l := m[..|m| - 1], m[|m| - 1];
      assert m == p + [l];
      InMore(p, l, x);
      InMore(p, Range(l.start, Max(l.end, r.end)), x);
    } else {
      InMore(m, r, x);
    }
  }

  lemma ExtendedShape(m: seq<Range>, r: Range)
    requires Aligned(m) && Separated(m) && Aligned([r]) && (|m| > 0 ==> m[|m| - 1].start <= r.start)
    ensures var t := Extended(m, r); Aligned(t) && Separated(t) && |t| > 0 && t[|t| - 1].start <= r.start
  {
    assert [r][0] == r;
  }

  lemma MergeStep(rs: seq<Range>, k: nat, m: seq<Range>)
    requires Sorted(rs) && Aligned(rs) && k < |rs| && MergedSoFar(rs, k, m)
    ensures MergedSoFar(rs, k + 1, Extended(m, rs[k]))
  {
    ExtendedShape(m, rs[k]);
    forall x: nat ensures In(Extended(m, rs[k]), x) <==> In(rs[..k + 1], x) {
      ExtendedCovers(m, rs[k], x);
      assert rs[..k + 1] == rs[..k] + [rs[k]];
      InMore(rs[..k], rs[k], x);
    }
  }

  /** Stretch the last range if the next one touches it, otherwise start a new one. */
  method Extend(m: seq<Range>, r: Range) returns (t: seq<Range>)
    ensures t == Extended(m, r)
  {
    var n := |m|;
    if n > 0 && r.start <= m[n - 1].end {
      if r.end > m[n - 1].end {
        return m[..n - 1] + [Range(m[n - 1].start, r.end)];
      }
      assert m == m[..n - 1] + [m[n - 1]];
      return m;
    }
    return m + [r];
  }

  method Merge(rs: seq<Range>) returns (m: seq<Range>)
    requires Sorted(rs) && Aligned(rs)
    ensures Aligned(m) && Separated(m) && SameUnion(m, rs)
  {
    m := [];
    var k := 0;
    while k < |rs|
      invariant 0 <= k <= |rs| && MergedSoFar(rs, k, m)
    {
      MergeStep(rs, k, m);
      m := Extend(m, rs[k]);
      k := k + 1;
    }
    assert rs[..k] == rs;
  }

  lemma LastAddress(a: seq<Range>)
    requires Aligned(a) && Separated(a) && |a| > 0
    ensures In(a, a[|a| - 1].end - 1) && forall x: nat :: In(a, x) ==> x < a[|a| - 1].end
  {
    assert Covers(a[|a| - 1], a[|a| - 1].end - 1);
    forall x: nat | In(a, x) ensures x < a[|a| - 1].end {
      var i :| 0 <= i < |a| && Covers(a[i], x);
    }
  }

  lemma LastStart(a: seq<Range>, b: seq<Range>)
    requires Aligned(a) && Separated(a) && Aligned(b) && Separated(b) && SameUnion(a, b)
    requires |a| > 0 && |b| > 0 && a[|a| - 1].end == b[|b| - 1].end
    ensures a[|a| - 1].start >= b[|b| - 1].start
  {
    var s := b[|b| - 1].start;
    if s > 0 {
      forall i | 0 <= i < |b| ensures !Covers(b[i], s - 1) { }
      assert !In(b, s - 1);
      assert !Covers(a[|a| - 1], s - 1);
    }
  }

  lemma DropLast(a: seq<Range>, x: nat)
    requires Aligned(a) && Separated(a) && |a| > 0
    ensures In(a[..|a| - 1], x) <==> In(a, x) && x < a[|a| - 1].start
  {
    var p, l := a[..|a| - 1], a[|a| - 1];
    assert a == p + [l];
    InMore(p, l, x);
  }

  /** Separated ranges are determined by what they cover, so the result does not depend on the sort. */
  lemma {:induction false} SeparatedIsUnique(a: seq<Range>, b: seq<Range>)
    requires Aligned(a) && Separated(a) && Aligned(b) && Separated(b) && SameUnion(a, b)
    ensures a == b
  {
    if |a| > 0 { LastAddress(a); }
    if |b| > 0 { LastAddress(b); }
    if |a| > 0 && |b| > 0 {
      LastStart(a, b);
      LastStart(b, a);
      var p, q := a[..|a| - 1], b[..|b| - 1];
      PrefixesAgree(a, b);
      SeparatedIsUnique(p, q);
      assert a == p + [a[|a| - 1]] && b == q + [b[|b| - 1]];
    }
  }

  lemma PrefixesAgree(a: seq<Range>, b: seq<Range>)
    requires Aligned(a) && Separated(a) && Aligned(b) && Separated(b) && SameUnion(a, b)
    requires |a| > 0 && |b| > 0 && a[|a| - 1].start == b[|b| - 1].start
    ensures SameUnion(a[..|a| - 1], b[..|b| - 1])
  {
    var p, q := a[..|a| - 1], b[..|b| - 1];
    forall x: nat ensures In(p, x) <==> In(q, x) {
      DropLast(a, x);
      DropLast(b, x);
    }
  }

  // ---------------------------------------------------------------- memory

  predicate FileCovers(h: Header, a: nat) {
    Loads(h) && h.paddr <= a < h.paddr + h.filesz
  }

  /** The last of the segments whose file part covers the address, or -1. */
  function Writer(hs: seq<Header>, a: nat): (w: int)
    ensures -1 <= w < |hs|
    ensures w >= 0 ==> FileCovers(hs[w], a)
    ensures forall i :: w < i < |hs| ==> !FileCovers(hs[i], a)
  {
    var n := |hs| - 1;
    if n < 0 then -1
    else if FileCovers(hs[n], a) then n
    else Writer(hs[..n], a)
  }

  predicate FileFits(hs: seq<Header>, data: seq<byte>) {
    forall i :: 0 <= i < |hs| && Loads(hs[i]) ==> hs[i].offset + hs[i].filesz <= |data|
  }

  /** What is at an address after loading: the last file byte written there, a zero in a merged
      range, or what was there before. */
  function Loaded(hs: seq<Header>, data: seq<byte>, ranges: seq<Range>, old0: byte, a: nat): byte
    requires FileFits(hs, data)
  {
    var w := Writer(hs, a);
    if w >= 0 then data[hs[w].offset + (a - hs[w].paddr)] else if In(ranges, a) then 0 else old0
  }

  method ZeroPhys(mem: array<byte>, dst: nat, len: nat)
    requires dst + len <= mem.Length
    modifies mem
    ensures forall a :: 0 <= a < mem.Length ==> mem[a] == if dst <= a < dst + len then 0 else old(mem[a])
  {
    var i := 0;
    while i < len
      invariant 0 <= i <= len
      invariant forall a :: 0 <= a < mem.Length ==> mem[a] == if dst <= a < dst + i then 0 else old(mem[a])
    {
      mem[dst + i] := 0;
      i := i + 1;
    }
  }

  method CopyToPhys(data: seq<byte>, offset: nat, mem: array<byte>, dst: nat, len: nat)
    requires dst + len <= mem.Length && offset + len <= |data|
    modifies mem
    ensures forall a :: 0 <= a < mem.Length ==>
      mem[a] == if dst <= a < dst + len then data[offset + (a - dst)] else old(mem[a])
  {
    var i := 0;
    while i < len
      invariant 0 <= i <= len
      invariant forall a :: 0 <= a < mem.Length ==>
        mem[a] == if dst <= a < dst + i then data[offset + (a - dst)] else old(mem[a])
    {
      mem[dst + i] := data[offset + i];
      i := i + 1;
    }
  }

  /** Every merged range of whole pages. */
  method ZeroRanges(mem: array<byte>, ranges: seq<Range>)
    requires Aligned(ranges) && forall i :: 0 <= i < |ranges| ==> ranges[i].end <= mem.Length
    modifies mem
    ensures forall a :: 0 <= a < mem.Length ==> mem[a] == if In(ranges, a) then 0 else old(mem[a])
  {
    var k := 0;
    assert forall a: nat :: !In(ranges[..0], a);
    while k < |ranges|
      invariant 0 <= k <= |ranges|
      invariant forall a :: 0 <= a < mem.Length ==> mem[a] == if In(ranges[..k], a) then 0 else old(mem[a])
    {
      var r := ranges[k];
      WholePages(r);
      ZeroPhys(mem, r.start, (r.end - r.start) / PAGE * PAGE);
      forall a: nat ensures In(ranges[..k + 1], a) <==> In(ranges[..k], a) || Covers(r, a) {
        assert ranges[..k + 1] == ranges[..k] + [r];
        InMore(ranges[..k], r, a);
      }
      k := k + 1;
    }
    assert ranges[..k] == ranges;
  }

  lemma WholePages(r: Range)
    requires r.start % PAGE == 0 && r.end % PAGE == 0 && r.start < r.end
    ensures r.start + (r.end - r.start) / PAGE * PAGE == r.end
  {
  }

  predicate Reachable(hs: seq<Header>, size: nat) {
    forall i :: 0 <= i < |hs| && Loads(hs[i]) ==> Rounded(hs[i]).end <= size && hs[i].paddr + hs[i].filesz <= size
  }

  /** Every segment's file bytes, in header order. */
  method CopySegments(hs: seq<Header>, data: seq<byte>, mem: array<byte>)
    requires FileFits(hs, data) && Reachable(hs, mem.Length)
    modifies mem
    ensures forall a :: 0 <= a < mem.Length ==>
      mem[a] == if Writer(hs, a) >= 0 then data[hs[Writer(hs, a)].offset + (a - hs[Writer(hs, a)].paddr)]
        else old(mem[a])
  {
    var k := 0;
    while k < |hs|
      invariant 0 <= k <= |hs|
      invariant forall a :: 0 <= a < mem.Length ==>
        mem[a] == if Writer(hs[..k], a) >= 0 then
          data[hs[Writer(hs[..k], a)].offset + (a - hs[Writer(hs[..k], a)].paddr)] else old(mem[a])
    {
      var h := hs[k];
      if Loads(h) && h.filesz > 0 {
        CopyToPhys(data, h.offset, mem, h.paddr, h.filesz);
      }
      assert hs[..k + 1][..k] == hs[..k];
      k := k + 1;
    }
    assert hs[..k] == hs;
  }

  /** The lowest and highest address of any segment. */
  predicate IsExtent(hs: seq<Header>, start: nat, end: nat) {
    && (forall i :: 0 <= i < |hs| && Loads(hs[i]) ==> start <= hs[i].paddr && hs[i].paddr + hs[i].memsz <= end)
    && (exists i :: 0 <= i < |hs| && Loads(hs[i]) && hs[i].paddr == start)
    && (exists i :: 0 <= i < |hs| && Loads(hs[i]) && hs[i].paddr + hs[i].memsz == end)
  }

  method CollectRanges(hs: seq<Header>, size: nat) returns (start: nat, end: nat, ranges: seq<Range>)
    requires Reachable(hs, size) && size <= U64_MAX
    ensures ranges == RangesOf(hs)
    ensures start == U64_MAX <==> forall i :: 0 <= i < |hs| ==> !Loads(hs[i])
    ensures start != U64_MAX ==> IsExtent(hs, start, end)
  {
    start, end, ranges := U64_MAX, 0, [];
    var k := 0;
    while k < |hs|
      invariant 0 <= k <= |hs| && ranges == RangesOf(hs[..k])
      invariant start == U64_MAX <==> forall i :: 0 <= i < k ==> !Loads(hs[i])
      invariant start == U64_MAX ==> end == 0
      invariant start != U64_MAX ==> IsExtent(hs[..k], start, end)
    {
      var h := hs[k];
      assert hs[..k + 1][..k] == hs[..k];
      if Loads(h) {
        ExtentMore(hs[..k], h, start, end, size);
        start := if h.paddr < start then h.paddr else start;
        end := if h.paddr + h.memsz > end then h.paddr + h.memsz else end;
        ranges := ranges + [Rounded(h)];
      } else if start != U64_MAX {
        ExtentSame(hs[..k], h, start, end);
      }
      assert hs[..k + 1] == hs[..k] + [h];
      k := k + 1;
    }
    assert hs[..k] == hs;
  }

  lemma ExtentMore(hs: seq<Header>, h: Header, start: nat, end: nat, size: nat)
    requires Loads(h) && Rounded(h).end <= size <= U64_MAX
    requires start == U64_MAX ==> end == 0 && forall i :: 0 <= i < |hs| ==> !Loads(hs[i])
    requires start != U64_MAX ==> IsExtent(hs, start, end)
    ensures h.paddr < U64_MAX
    ensures IsExtent(hs + [h], Min(h.paddr, start), Max(h.paddr + h.memsz, end))
  {
    RoundedCovers(h);
    var t := hs + [h];
    assert t[|hs|] == h;
    assert forall i :: 0 <= i < |hs| ==> t[i] == hs[i];
  }

  lemma ExtentSame(hs: seq<Header>, h: Header, start: nat, end: nat)
    requires !Loads(h) && IsExtent(hs, start, end)
    ensures IsExtent(hs + [h], start, end)
  {
    var t := hs + [h];
    assert forall i :: 0 <= i < |hs| ==> t[i] == hs[i];
  }

  datatype Image = Image(entry: u64, start: nat, end: nat)

  /** The whole load. Without a loadable segment nothing is written and there is no image. */
  method LoadElfSegments(entry: u64, hs: seq<Header>, data: seq<byte>, mem: array<byte>)
    returns (r: Option<Image>, merged: seq<Range>)
    requires FileFits(hs, data) && Reachable(hs, mem.Length) && mem.Length <= U64_MAX
    modifies mem
    ensures r.None? <==> forall i :: 0 <= i < |hs| ==> !Loads(hs[i])
    ensures r.Some? ==> r.value.entry == entry && IsExtent(hs, r.value.start, r.value.end)
    ensures Aligned(merged) && Separated(merged) && SameUnion(merged, RangesOf(hs))
    ensures forall a :: 0 <= a < mem.Length ==> mem[a] == Loaded(hs, data, merged, old(mem[a]), a)
  {
    var start, end, ranges := CollectRanges(hs, mem.Length);
    RangesAreAligned(hs);
    if start == U64_MAX {
      NothingToLoad(hs);
      return None, [];
    }
    var sorted := SortByStart(ranges);
    SameElementsSameUnion(ranges, sorted);
    merged := Merge(sorted);
    RangesReachable(hs, merged, mem.Length);
    ZeroRanges(mem, merged);
    CopySegments(hs, data, mem);
    r := Some(Image(entry, start, end));
  }

  lemma {:induction false} NothingToLoad(hs: seq<Header>)
    requires forall i :: 0 <= i < |hs| ==> !Loads(hs[i])
    ensures RangesOf(hs) == [] && forall a: nat :: Writer(hs, a) == -1
  {
    if |hs| > 0 { NothingToLoad(hs[..|hs| - 1]); }
  }

  lemma {:induction false} InRanges(hs: seq<Header>, a: nat)
    ensures In(RangesOf(hs), a) <==> exists i :: 0 <= i < |hs| && Loads(hs[i]) && Covers(Rounded(hs[i]), a)
  {
    if |hs| > 0 {
      var n := |hs| - 1;
      InRanges(hs[..n], a);
      if Loads(hs[n]) { InMore(RangesOf(hs[..n]), Rounded(hs[n]), a); }
      assert RangesOf(hs[..n]) + [] == RangesOf(hs[..n]);
    }
  }

  lemma RangesReachable(hs: seq<Header>, merged: seq<Range>, size: nat)
    requires Reachable(hs, size) && Aligned(merged) && SameUnion(merged, RangesOf(hs))
    ensures forall i :: 0 <= i < |merged| ==> merged[i].end <= size
  {
    forall i | 0 <= i < |merged| ensures merged[i].end <= size {
      var a := merged[i].end - 1;
      assert Covers(merged[i], a) && In(merged, a);
      InRanges(hs, a);
    }
  }

  // ---------------------------------------------------------------- what it means

  predicate Disjoint(hs: seq<Header>) {
    forall i, j :: 0 <= i < j < |hs| && Loads(hs[i]) && Loads(hs[j]) ==>
      hs[i].paddr + hs[i].memsz <= hs[j].paddr || hs[j].paddr + hs[j].memsz <= hs[i].paddr
  }

  predicate FilesInside(hs: seq<Header>) {
    forall i :: 0 <= i < |hs| && Loads(hs[i]) ==> hs[i].filesz <= hs[i].memsz
  }

  lemma SegmentCovered(hs: seq<Header>, ranges: seq<Range>, i: nat, a: nat)
    requires i < |hs| && Loads(hs[i]) && hs[i].paddr <= a < hs[i].paddr + hs[i].memsz
    requires SameUnion(ranges, RangesOf(hs))
    ensures In(ranges, a)
  {
    RoundedCovers(hs[i]);
    assert Covers(Rounded(hs[i]), a);
    InRanges(hs, a);
  }

  /** Disjoint segments whose file part fits: each shows its file bytes and then zeros,
      and nothing outside the merged ranges changes. */
  lemma LoadMeaning(hs: seq<Header>, data: seq<byte>, ranges: seq<Range>, old0: byte, i: nat, a: nat)
    requires FileFits(hs, data) && Disjoint(hs) && FilesInside(hs) && SameUnion(ranges, RangesOf(hs))
    requires i < |hs| && Loads(hs[i])
    ensures hs[i].paddr <= a < hs[i].paddr + hs[i].filesz ==>
      Loaded(hs, data, ranges, old0, a) == data[hs[i].offset + (a - hs[i].paddr)]
    ensures hs[i].paddr + hs[i].filesz <= a < hs[i].paddr + hs[i].memsz ==> Loaded(hs, data, ranges, old0, a) == 0
    ensures !In(ranges, a) ==> Loaded(hs, data, ranges, old0, a) == old0
  {
    var w := Writer(hs, a);
    if hs[i].paddr <= a < hs[i].paddr + hs[i].memsz { SegmentCovered(hs, ranges, i, a); }
    if w >= 0 { SegmentCovered(hs, ranges, w, a); }
  }

  /** Every file part to be copied lies within one merged range. */
  predicate FilesContained(hs: seq<Header>, ranges: seq<Range>) {
    forall i :: 0 <= i < |hs| && Loads(hs[i]) && hs[i].filesz > 0 ==>
      exists k :: 0 <= k < |ranges| && Contains(ranges[k], hs[i].paddr, hs[i].paddr + hs[i].filesz)
  }

  predicate Contains(r: Range, from: nat, to: nat) {
    r.start <= from && to <= r.end
  }

  /** Addresses without a gap lie in one of separated ranges if they lie in any. */
  lemma InOneRange(ranges: seq<Range>, from: nat, to: nat) returns (k: nat)
    requires Separated(ranges) && from < to && forall a: nat :: from <= a < to ==> In(ranges, a)
    ensures k < |ranges| && Contains(ranges[k], from, to)
  {
    assert In(ranges, from);
    k :| 0 <= k < |ranges| && Covers(ranges[k], from);
    EndIsOutside(ranges, k);
  }

  lemma EndIsOutside(ranges: seq<Range>, k: nat)
    requires Separated(ranges) && k < |ranges| && ranges[k].start < ranges[k].end
    ensures !In(ranges, ranges[k].end)
  {
  }

  /** Memory outside the merged ranges survives a load, whatever it held, exactly when every file part
      lies within one of them. */
  lemma OutsideSurvivesIff(hs: seq<Header>, data: seq<byte>, ranges: seq<Range>)
    requires FileFits(hs, data) && Separated(ranges)
    ensures (forall a: nat, old0: byte :: !In(ranges, a) ==> Loaded(hs, data, ranges, old0, a) == old0)
       <==> FilesContained(hs, ranges)
  {
    if forall a: nat, old0: byte :: !In(ranges, a) ==> Loaded(hs, data, ranges, old0, a) == old0 {
      forall i | 0 <= i < |hs| && Loads(hs[i]) && hs[i].filesz > 0
        ensures exists k :: 0 <= k < |ranges| && Contains(ranges[k], hs[i].paddr, hs[i].paddr + hs[i].filesz)
      {
        forall a: nat | FileCovers(hs[i], a) ensures In(ranges, a) { WrittenIsSeen(hs, data, ranges, i, a); }
        assert forall a: nat :: hs[i].paddr <= a < hs[i].paddr + hs[i].filesz ==> FileCovers(hs[i], a);
        var k := InOneRange(ranges, hs[i].paddr, hs[i].paddr + hs[i].filesz);
      }
    }
    if FilesContained(hs, ranges) {
      forall i: nat, a: nat | i < |hs| && FileCovers(hs[i], a) ensures In(ranges, a) { CopiedIsIn(hs, ranges, i, a); }
      forall a: nat | Writer(hs, a) >= 0 ensures FileCovers(hs[Writer(hs, a)], a) { }
    }
  }

  lemma CopiedIsIn(hs: seq<Header>, ranges: seq<Range>, i: nat, a: nat)
    requires FilesContained(hs, ranges) && i < |hs| && FileCovers(hs[i], a)
    ensures In(ranges, a)
  {
    var k :| 0 <= k < |ranges| && Contains(ranges[k], hs[i].paddr, hs[i].paddr + hs[i].filesz);
    assert Covers(ranges[k], a);
  }

  /** A byte that is copied does not depend on what was there. */
  lemma WrittenIsSeen(hs: seq<Header>, data: seq<byte>, ranges: seq<Range>, i: nat, a: nat)
    requires FileFits(hs, data) && i < |hs| && FileCovers(hs[i], a)
    ensures exists old0: byte :: Loaded(hs, data, ranges, old0, a) != old0
  {
    var old0: byte := if Loaded(hs, data, ranges, 0, a) == 0 then 1 else 0;
    assert Writer(hs, a) >= i;
    assert Loaded(hs, data, ranges, old0, a) != old0;
  }

  /** The file byte a segment brings to an address. */
  function FileByte(h: Header, data: seq<byte>, a: nat): byte
    requires FileCovers(h, a) && h.offset + h.filesz <= |data|
  {
    data[h.offset + (a - h.paddr)]
  }

  /** The segment is the last one copied to the address. */
  predicate LastCopy(hs: seq<Header>, j: nat, a: nat) {
    j < |hs| && FileCovers(hs[j], a) && forall k :: j < k < |hs| ==> !FileCovers(hs[k], a)
  }

  lemma LastCopyWrites(hs: seq<Header>, j: nat, a: nat)
    requires LastCopy(hs, j, a)
    ensures Writer(hs, a) == j
  {
    assert Writer(hs, a) >= j;
  }

  /** With this file, a segment shows all its file bytes exactly when whatever is copied over one last is the same
      byte. */
  lemma SegmentShowsIff(hs: seq<Header>, data: seq<byte>, ranges: seq<Range>, old0: byte, i: nat)
    requires FileFits(hs, data) && i < |hs| && Loads(hs[i])
    ensures (forall a: nat :: FileCovers(hs[i], a) ==> Loaded(hs, data, ranges, old0, a) == FileByte(hs[i], data, a))
       <==> (forall j, a: nat :: i < j < |hs| && FileCovers(hs[i], a) && LastCopy(hs, j, a)
               ==> FileByte(hs[j], data, a) == FileByte(hs[i], data, a))
  {
    forall j: nat, a: nat | LastCopy(hs, j, a) ensures Writer(hs, a) == j { LastCopyWrites(hs, j, a); }
    forall a: nat | FileCovers(hs[i], a) ensures Writer(hs, a) >= i && LastCopy(hs, Writer(hs, a), a) {
      LastWriter(hs, i, a);
    }
  }

  lemma LastWriter(hs: seq<Header>, i: nat, a: nat)
    requires i < |hs| && FileCovers(hs[i], a)
    ensures Writer(hs, a) >= i && LastCopy(hs, Writer(hs, a), a)
  {
  }

  /** How far file positions are ahead of addresses in a segment. */
  function Shift(h: Header): int {
    h.offset - h.paddr
  }

  /** Whatever the file holds, a segment shows all its file bytes exactly when whatever is copied over one
      last comes from the same place in the file. */
  lemma SegmentIntactIff(hs: seq<Header>, ranges: seq<Range>, old0: byte, i: nat)
    requires i < |hs| && Loads(hs[i])
    ensures (forall data: seq<byte>, a: nat :: FileFits(hs, data) && FileCovers(hs[i], a)
               ==> Loaded(hs, data, ranges, old0, a) == FileByte(hs[i], data, a))
       <==> (forall j, a: nat :: i < j < |hs| && FileCovers(hs[i], a) && LastCopy(hs, j, a) ==>
         Shift(hs[j]) == Shift(hs[i]))
  {
    if forall data: seq<byte>, a: nat :: FileFits(hs, data) && FileCovers(hs[i], a)
         ==> Loaded(hs, data, ranges, old0, a) == FileByte(hs[i], data, a) {
      forall j, a: nat | i < j < |hs| && FileCovers(hs[i], a) && LastCopy(hs, j, a)
        ensures Shift(hs[j]) == Shift(hs[i])
      {
        var data := MarkedFile(hs, a + Shift(hs[j]));
        LastCopyWrites(hs, j, a);
        assert Loaded(hs, data, ranges, old0, a) == FileByte(hs[i], data, a);
      }
    }
    if forall j, a: nat :: i < j < |hs| && FileCovers(hs[i], a) && LastCopy(hs, j, a) ==> Shift(hs[j]) == Shift(hs[i]) {
      forall data: seq<byte>, a: nat | FileFits(hs, data) && FileCovers(hs[i], a)
        ensures Loaded(hs, data, ranges, old0, a) == FileByte(hs[i], data, a)
      {
        LastWriter(hs, i, a);
      }
    }
  }

  function FileEnd(hs: seq<Header>): nat {
    if |hs| == 0 then 0
    else Max(FileEnd(hs[..|hs| - 1]), hs[|hs| - 1].offset + hs[|hs| - 1].filesz)
  }

  lemma {:induction false} FilesEnd(hs: seq<Header>)
    ensures forall i :: 0 <= i < |hs| ==> hs[i].offset + hs[i].filesz <= FileEnd(hs)
  {
    if |hs| > 0 {
      var p := hs[..|hs| - 1];
      FilesEnd(p);
      forall i | 0 <= i < |p| ensures hs[i].offset + hs[i].filesz <= FileEnd(p) { assert hs[i] == p[i]; }
    }
  }

  /** A file that is zero but for one byte. */
  lemma MarkedFile(hs: seq<Header>, at: nat) returns (data: seq<byte>)
    ensures FileFits(hs, data) && forall k :: 0 <= k < |data| ==> data[k] == if k == at then 1 else 0
  {
    FilesEnd(hs);
    data := seq(FileEnd(hs), k => if k == at then 1 else 0);
  }

  /** A file part longer than its segment runs on past the pages zeroed for it. */
  lemma LongFileSpills(data: seq<byte>, old0: byte)
    requires |data| == 0x2000
    ensures var h := Header(true, 0, 0, 0x2000, 1);
      RangesOf([h]) == [Range(0, PAGE)] && Loaded([h], data, [Range(0, PAGE)], old0, PAGE) == data[PAGE]
        && !In([Range(0, PAGE)], PAGE)
  {
    var h := Header(true, 0, 0, 0x2000, 1);
    assert [h][..0] == [];
    assert RangesOf([]) == [];
  }
}
