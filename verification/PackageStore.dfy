/** The boot package store: how an image is laid out, and what the loader checks before trusting one. */
module PackageStore {
  import opened Bits
  import opened Options
  import opened Fnv
  import opened LittleEndian

  const MAGIC: seq<byte> := [0x47, 0x50, 0x4B, 0x53, 0x54, 0x4F, 0x52, 0x45]
  const VERSION: u32 := 2
  const HEADER_SIZE := 32
  const ENTRY_SIZE := 88
  const PATH_SIZE := 64
  const SIZE_OFFSET := 16
  const CHECKSUM_OFFSET := 24

  datatype Input = Input(path: seq<byte>, flags: u32, blob: seq<byte>)

  // ---------------------------------------------------------------- slices

  /** `n` bytes from `a` on, if they are there. */
  function Slice(s: seq<byte>, a: nat, n: nat): seq<byte> {
    if a + n <= |s| then s[a..a + n] else []
  }

  lemma SliceOfPrefix(s: seq<byte>, more: seq<byte>, a: nat, n: nat)
    requires a + n <= |s| <= |more| && more[..|s|] == s
    ensures Slice(more, a, n) == Slice(s, a, n)
  {
    forall i | a <= i < a + n ensures more[i] == s[i] {
      assert more[..|s|][i] == s[i];
    }
  }

  lemma SliceOfSuffix(p: seq<byte>, q: seq<byte>, h: nat, a: nat, n: nat)
    requires |p| == |q| && h <= a && a + n <= |p| && p[h..] == q[h..]
    ensures Slice(p, a, n) == Slice(q, a, n)
  {
    forall i | a <= i < a + n ensures p[i] == q[i] {
      assert p[h..][i - h] == q[h..][i - h];
    }
  }

  lemma SliceOfSlice(image: seq<byte>, t: nat, r: seq<byte>, a: nat, n: nat)
    requires a + n <= |r| && t + |r| <= |image| && Slice(image, t, |r|) == r
    ensures image[t + a..t + a + n] == r[a..a + n]
  {
    assert image[t..t + |r|] == r;
    forall j | a <= j < a + n ensures image[t + j] == r[j] {
      assert image[t..t + |r|][j] == r[j];
    }
  }

  lemma SliceAtEnd(s: seq<byte>, t: seq<byte>)
    ensures Slice(s + t, |s|, |t|) == t
  {
    assert (s + t)[|s|..|s| + |t|] == t;
  }

  // ---------------------------------------------------------------- checksum

  /** The image with its checksum field read as zeros. */
  function Effective(data: seq<byte>, at: nat): (e: seq<byte>)
    ensures |e| == |data|
  {
    seq(|data|, i requires 0 <= i < |data| => EffectiveByte(data, at, i))
  }

  /** The byte as the checksum sees it. */
  function EffectiveByte(data: seq<byte>, at: nat, i: nat): byte
    requires i < |data|
  {
    if at <= i < at + 8 then 0 else data[i]
  }

  function Checksum(data: seq<byte>, at: nat): u64 {
    Fnv1a(Effective(data, at), 0)
  }

  /** Storing anything in the checksum field leaves the checksum as it was. */
  lemma ChecksumIgnoresItsField(data: seq<byte>, at: nat, field: seq<byte>)
    requires |field| == 8 && at + 8 <= |data|
    ensures Checksum(data[..at] + field + data[at + 8..], at) == Checksum(data, at)
  {
    assert Effective(data[..at] + field + data[at + 8..], at) == Effective(data, at);
  }

  method ComputeChecksum(data: seq<byte>, at: nat) returns (h: u64)
    ensures h == Checksum(data, at)
  {
    XorZero(OFFSET);
    h := OFFSET;
    var i := 0;
    ghost var e := Effective(data, at);
    while i < |data|
      invariant 0 <= i <= |data| && h == Fnv1a(e[..i], 0)
    {
      More(e, i, 0);
      h := Folded(h, EffectiveByte(data, at, i));
      i := i + 1;
    }
    assert e[..i] == e;
  }

  // ---------------------------------------------------------------- the loader's check

  datatype Fault = BadMagic | BadVersion | BadSize | TableOutOfBounds | BadChecksum
  datatype Inspection = Accepted(entries: u32, checksum: u64) | Rejected(fault: Fault)

  function Field(data: seq<byte>, at: nat, n: nat): nat
    requires at + n <= |data|
  {
    Decode(data[at..at + n])
  }

  function Inspect(data: seq<byte>): Inspection {
    if |data| < HEADER_SIZE || data[..8] != MAGIC then Rejected(BadMagic)
    else if Field(data, 8, 4) != VERSION then Rejected(BadVersion)
    else if Field(data, 16, 8) != |data| then Rejected(BadSize)
    else if HEADER_SIZE + Field(data, 12, 4) * ENTRY_SIZE > |data| then Rejected(TableOutOfBounds)
    else if Field(data, 24, 8) != Checksum(data, CHECKSUM_OFFSET) then Rejected(BadChecksum)
    else FieldBound(data, 12); Accepted(Field(data, 12, 4), Checksum(data, CHECKSUM_OFFSET))
  }

  lemma OneByteMore(n: nat)
    ensures Pow2(n + 8) == 256 * Pow2(n)
  {
    Pow2Add(8, n);
    Pow2Values();
  }

  lemma {:induction false} DecodeBound(s: seq<byte>)
    ensures Decode(s) < Pow2(8 * |s|)
  {
    if |s| > 0 {
      DecodeBound(s[1..]);
      DecodeFirst(s);
      OneByteMore(8 * (|s| - 1));
    }
  }

  lemma FieldBound(data: seq<byte>, at: nat)
    requires at + 4 <= |data|
    ensures Field(data, at, 4) < 0x1_0000_0000
  {
    DecodeBound(data[at..at + 4]);
    Pow2Values();
  }

  method InspectPackageStore(data: seq<byte>) returns (r: Inspection)
    ensures r == Inspect(data)
  {
    if |data| < HEADER_SIZE || data[..8] != MAGIC {
      return Rejected(BadMagic);
    }
    if Field(data, 8, 4) != VERSION {
      return Rejected(BadVersion);
    }
    var entries, checksum := Field(data, 12, 4), Field(data, 24, 8);
    if Field(data, 16, 8) != |data| {
      return Rejected(BadSize);
    }
    if HEADER_SIZE + entries * ENTRY_SIZE > |data| {
      return Rejected(TableOutOfBounds);
    }
    var actual := ComputeChecksum(data, CHECKSUM_OFFSET);
    if checksum != actual {
      return Rejected(BadChecksum);
    }
    FieldBound(data, 12);
    return Accepted(entries, checksum);
  }

  // ---------------------------------------------------------------- layout

  function AlignUp(x: nat): (a: nat)
    ensures a % 16 == 0 && x <= a < x + 16
  {
    (x + 15) / 16 * 16
  }

  function TableEnd(n: nat): nat {
    HEADER_SIZE + ENTRY_SIZE * n
  }

  /** Where the data of the first `k` inputs ends. */
  function DataEnd(inputs: seq<Input>, k: nat): (e: nat)
    requires k <= |inputs|
    ensures e >= TableEnd(|inputs|)
  {
    if k == 0 then TableEnd(|inputs|) else AlignUp(DataEnd(inputs, k - 1)) + |inputs[k - 1].blob|
  }

  /** Where the `k`-th blob goes: the next multiple of sixteen. */
  function Offset(inputs: seq<Input>, k: nat): nat
    requires k < |inputs|
  {
    AlignUp(DataEnd(inputs, k))
  }

  function PaddedPath(path: seq<byte>): (p: seq<byte>)
    requires |path| < PATH_SIZE
    ensures |p| == PATH_SIZE
  {
    path + seq(PATH_SIZE - |path|, _ => 0)
  }

  function Record(i: Input, offset: nat): (r: seq<byte>)
    requires |i.path| < PATH_SIZE
    ensures |r| == ENTRY_SIZE
  {
    PaddedPath(i.path) + Encode(offset, 8) + Encode(|i.blob|, 8) + Encode(i.flags, 4) + Encode(0, 4)
  }

  function Header(n: nat, size: nat, checksum: u64): (h: seq<byte>)
    ensures |h| == HEADER_SIZE
  {
    MAGIC + Encode(VERSION, 4) + Encode(n, 4) + Encode(size, 8) + Encode(checksum, 8)
  }

  predicate Writable(inputs: seq<Input>) {
    && (forall i :: 0 <= i < |inputs| ==> |inputs[i].path| < PATH_SIZE)
    && (forall i, j :: 0 <= i < j < |inputs| ==> inputs[i].path != inputs[j].path)
  }

  /** Every record in its place in the table. */
  ghost predicate HasRecords(inputs: seq<Input>, k: nat, image: seq<byte>)
    requires Writable(inputs) && k <= |inputs|
  {
    && TableEnd(k) <= |image|
    && forall j: nat :: j < k ==> Slice(image, TableEnd(j), ENTRY_SIZE) == Record(inputs[j], Offset(inputs, j))
  }

  /** Every blob in its place after the table. */
  ghost predicate HasBlobs(inputs: seq<Input>, k: nat, image: seq<byte>)
    requires k <= |inputs|
  {
    forall j: nat :: j < k ==> BlobAt(inputs, j, image)
  }

  ghost predicate BlobAt(inputs: seq<Input>, j: nat, image: seq<byte>)
    requires j < |inputs|
  {
    var n := |inputs[j].blob|;
    Offset(inputs, j) + n <= |image| && Slice(image, Offset(inputs, j), n) == inputs[j].blob
  }

  ghost predicate IsStore(inputs: seq<Input>, image: seq<byte>)
    requires Writable(inputs)
  {
    && |image| == DataEnd(inputs, |inputs|) && |image| >= HEADER_SIZE
    && image[..HEADER_SIZE] == Header(|inputs|, |image|, Checksum(image, CHECKSUM_OFFSET))
    && HasRecords(inputs, |inputs|, image)
    && HasBlobs(inputs, |inputs|, image)
  }

  // ---------------------------------------------------------------- the writer

  method HasDuplicate(inputs: seq<Input>) returns (d: bool)
    ensures d <==> exists i, j :: 0 <= i < j < |inputs| && inputs[i].path == inputs[j].path
  {
    var seen: set<seq<byte>> := {};
    var k := 0;
    while k < |inputs|
      invariant 0 <= k <= |inputs|
      invariant forall p :: p in seen <==> exists i :: 0 <= i < k && inputs[i].path == p
      invariant forall i, j :: 0 <= i < j < k ==> inputs[i].path != inputs[j].path
    {
      if inputs[k].path in seen {
        return true;
      }
      seen := seen + {inputs[k].path};
      k := k + 1;
    }
    return false;
  }

  method Layout(inputs: seq<Input>) returns (offsets: seq<nat>)
    ensures |offsets| == |inputs| && forall k :: 0 <= k < |inputs| ==> offsets[k] == Offset(inputs, k)
  {
    offsets := [];
    var end := TableEnd(|inputs|);
    var k := 0;
    while k < |inputs|
      invariant 0 <= k <= |inputs| && |offsets| == k && end == DataEnd(inputs, k)
      invariant forall j :: 0 <= j < k ==> offsets[j] == Offset(inputs, j)
    {
      end := AlignUp(end);
      offsets := offsets + [end];
      end := end + |inputs[k].blob|;
      k := k + 1;
    }
  }

  lemma RecordsMore(inputs: seq<Input>, k: nat, image: seq<byte>)
    requires Writable(inputs) && k < |inputs| && HasRecords(inputs, k, image) && |image| == TableEnd(k)
    ensures HasRecords(inputs, k + 1, image + Record(inputs[k], Offset(inputs, k)))
  {
    var record := (j: nat) =>
      if j < |inputs| && |inputs[j].path| < PATH_SIZE then Record(inputs[j], Offset(inputs, j)) else [];
    OneMoreRecord(image, record, k, record(k));
  }

  lemma OneMoreRecord(image: seq<byte>, record: nat -> seq<byte>, k: nat, r: seq<byte>)
    requires |image| == TableEnd(k) && r == record(k) && |r| == ENTRY_SIZE
    requires forall j: nat :: j < k ==> Slice(image, TableEnd(j), ENTRY_SIZE) == record(j)
    ensures |image + r| == TableEnd(k + 1)
    ensures forall j: nat :: j < k + 1 ==> Slice(image + r, TableEnd(j), ENTRY_SIZE) == record(j)
  {
    forall j: nat | j < k + 1 ensures Slice(image + r, TableEnd(j), ENTRY_SIZE) == record(j) {
      if j < k { RecordStays(image, r, j, k); } else { SliceAtEnd(image, r); }
    }
  }

  lemma RecordStays(image: seq<byte>, r: seq<byte>, j: nat, k: nat)
    requires |image| == TableEnd(k) && j < k
    ensures Slice(image + r, TableEnd(j), ENTRY_SIZE) == Slice(image, TableEnd(j), ENTRY_SIZE)
  {
    TableFits(j, k);
    assert (image + r)[..|image|] == image;
    SliceOfPrefix(image, image + r, TableEnd(j), ENTRY_SIZE);
  }

  /** Records grow the image without touching what is there. */
  method WriteTable(inputs: seq<Input>, offsets: seq<nat>, header: seq<byte>) returns (store: seq<byte>)
    requires Writable(inputs) && |header| == HEADER_SIZE
    requires |offsets| == |inputs| && forall k :: 0 <= k < |inputs| ==> offsets[k] == Offset(inputs, k)
    ensures |store| == TableEnd(|inputs|) && store[..HEADER_SIZE] == header && HasRecords(inputs, |inputs|, store)
  {
    store := header;
    var k := 0;
    while k < |inputs|
      invariant 0 <= k <= |inputs| && |store| == TableEnd(k) && store[..HEADER_SIZE] == header
      invariant HasRecords(inputs, k, store)
    {
      RecordsMore(inputs, k, store);
      store := store + Record(inputs[k], offsets[k]);
      k := k + 1;
    }
  }

  method PadTo(store: seq<byte>, n: nat) returns (padded: seq<byte>)
    requires |store| <= n
    ensures |padded| == n && padded[..|store|] == store
  {
    padded := store;
    while |padded| < n
      invariant |store| <= |padded| <= n && padded[..|store|] == store
      decreases n - |padded|
    {
      padded := padded + [0];
    }
  }

  lemma BlobsMore(inputs: seq<Input>, k: nat, image: seq<byte>, padded: seq<byte>)
    requires k < |inputs| && HasBlobs(inputs, k, image) && |image| == DataEnd(inputs, k)
    requires |padded| == Offset(inputs, k) && padded[..|image|] == image
    ensures HasBlobs(inputs, k + 1, padded + inputs[k].blob)
  {
    var more := padded + inputs[k].blob;
    SliceAtEnd(padded, inputs[k].blob);
    assert more[..|image|] == image;
    forall j: nat | j < k ensures BlobAt(inputs, j, more) {
      assert BlobAt(inputs, j, image);
      SliceOfPrefix(image, more, Offset(inputs, j), |inputs[j].blob|);
    }
    assert BlobAt(inputs, k, more);
  }

  method WriteBlobs(inputs: seq<Input>, offsets: seq<nat>, table: seq<byte>) returns (store: seq<byte>)
    requires |table| == TableEnd(|inputs|)
    requires |offsets| == |inputs| && forall k :: 0 <= k < |inputs| ==> offsets[k] == Offset(inputs, k)
    ensures |store| == DataEnd(inputs, |inputs|) && store[..|table|] == table && HasBlobs(inputs, |inputs|, store)
  {
    store := table;
    var k := 0;
    while k < |inputs|
      invariant 0 <= k <= |inputs| && |store| == DataEnd(inputs, k) && store[..|table|] == table
      invariant HasBlobs(inputs, k, store)
    {
      var padded := PadTo(store, offsets[k]);
      BlobsMore(inputs, k, store, padded);
      PrefixOfPadded(table, store, padded, inputs[k].blob);
      store := padded + inputs[k].blob;
      k := k + 1;
    }
  }

  lemma PrefixOfPadded(table: seq<byte>, store: seq<byte>, padded: seq<byte>, blob: seq<byte>)
    requires |table| <= |store| <= |padded| && store[..|table|] == table && padded[..|store|] == store
    ensures (padded + blob)[..|table|] == table
  {
    assert (padded + blob)[..|table|] == padded[..|store|][..|table|];
  }

  /** An eight-byte field of the header overwritten. */
  function Patched(store: seq<byte>, at: nat, field: seq<byte>): (p: seq<byte>)
    requires |field| == 8 && at + 8 <= |store|
    ensures |p| == |store|
  {
    store[..at] + field + store[at + 8..]
  }

  lemma PatchedKeeps(inputs: seq<Input>, store: seq<byte>, at: nat, field: seq<byte>)
    requires Writable(inputs) && |field| == 8 && at + 8 <= HEADER_SIZE <= |store|
    requires HasRecords(inputs, |inputs|, store) && HasBlobs(inputs, |inputs|, store)
    ensures HasRecords(inputs, |inputs|, Patched(store, at, field))
      && HasBlobs(inputs, |inputs|, Patched(store, at, field))
  {
    var p := Patched(store, at, field);
    assert p[HEADER_SIZE..] == store[HEADER_SIZE..];
    forall j: nat | j < |inputs| ensures Slice(p, TableEnd(j), ENTRY_SIZE) == Slice(store, TableEnd(j), ENTRY_SIZE) {
      SliceOfSuffix(p, store, HEADER_SIZE, TableEnd(j), ENTRY_SIZE);
    }
    forall j: nat | j < |inputs| ensures BlobAt(inputs, j, p) {
      assert BlobAt(inputs, j, store);
      SliceOfSuffix(p, store, HEADER_SIZE, Offset(inputs, j), |inputs[j].blob|);
    }
  }

  /** The image, or none if a path repeats or is too long. */
  method BuildPackageStore(inputs: seq<Input>) returns (image: Option<seq<byte>>)
    ensures image.Some? <==> Writable(inputs)
    ensures image.Some? ==> IsStore(inputs, image.value)
  {
    var duplicate := HasDuplicate(inputs);
    if duplicate {
      return None;
    }
    if exists i :: 0 <= i < |inputs| && |inputs[i].path| >= PATH_SIZE {
      return None;
    }
    var store := WriteStore(inputs);
    var final := FillHeader(inputs, store);
    return Some(final);
  }

  /** Header with empty fields, records, then padded blobs. */
  method WriteStore(inputs: seq<Input>) returns (store: seq<byte>)
    requires Writable(inputs)
    ensures |store| == DataEnd(inputs, |inputs|) && |store| >= HEADER_SIZE
      && store[..HEADER_SIZE] == Header(|inputs|, 0, 0)
    ensures HasRecords(inputs, |inputs|, store) && HasBlobs(inputs, |inputs|, store)
  {
    var offsets := Layout(inputs);
    var table := WriteTable(inputs, offsets, Header(|inputs|, 0, 0));
    store := WriteBlobs(inputs, offsets, table);
    HasRecordsPrefix(inputs, table, store);
    assert store[..HEADER_SIZE] == store[..|table|][..HEADER_SIZE];
  }

  /** The size and then the checksum patched into the header. */
  method FillHeader(inputs: seq<Input>, store: seq<byte>) returns (image: seq<byte>)
    requires Writable(inputs) && |store| == DataEnd(inputs, |inputs|) && |store| >= HEADER_SIZE
    requires store[..HEADER_SIZE] == Header(|inputs|, 0, 0)
    requires HasRecords(inputs, |inputs|, store) && HasBlobs(inputs, |inputs|, store)
    ensures IsStore(inputs, image)
  {
    var sized := Patched(store, SIZE_OFFSET, Encode(|store|, 8));
    PatchedKeeps(inputs, store, SIZE_OFFSET, Encode(|store|, 8));
    var checksum := ComputeChecksum(sized, CHECKSUM_OFFSET);
    image := Patched(sized, CHECKSUM_OFFSET, Encode(checksum, 8));
    PatchedKeeps(inputs, sized, CHECKSUM_OFFSET, Encode(checksum, 8));
    ChecksumIgnoresItsField(sized, CHECKSUM_OFFSET, Encode(checksum, 8));
    PatchedHeader(store, |inputs|, checksum);
  }

  lemma HasRecordsPrefix(inputs: seq<Input>, table: seq<byte>, store: seq<byte>)
    requires Writable(inputs) && |table| == TableEnd(|inputs|) <= |store| && store[..|table|] == table
    requires HasRecords(inputs, |inputs|, table)
    ensures HasRecords(inputs, |inputs|, store)
  {
    forall j: nat | j < |inputs| ensures Slice(store, TableEnd(j), ENTRY_SIZE)
      == Slice(table, TableEnd(j), ENTRY_SIZE) {
      SliceOfPrefix(table, store, TableEnd(j), ENTRY_SIZE);
    }
  }

  lemma PatchedHeader(store: seq<byte>, n: nat, checksum: u64)
    requires |store| >= HEADER_SIZE && store[..HEADER_SIZE] == Header(n, 0, 0)
    ensures var sized := Patched(store, SIZE_OFFSET, Encode(|store|, 8));
      Patched(sized, CHECKSUM_OFFSET, Encode(checksum, 8))[..HEADER_SIZE] == Header(n, |store|, checksum)
  {
    var h := Header(n, 0, 0);
    assert store[..SIZE_OFFSET] == h[..SIZE_OFFSET] == MAGIC + Encode(VERSION, 4) + Encode(n, 4);
  }

  // ---------------------------------------------------------------- agreement

  lemma HeaderFields(data: seq<byte>, n: nat, size: nat, checksum: u64)
    requires |data| >= HEADER_SIZE && data[..HEADER_SIZE] == Header(n, size, checksum)
    requires n < 0x1_0000_0000 && size < 0x1_0000_0000_0000_0000
    ensures data[..8] == MAGIC && Field(data, 8, 4) == VERSION && Field(data, 12, 4) == n
    ensures Field(data, 16, 8) == size && Field(data, 24, 8) == checksum
  {
    HeaderParts(data, MAGIC, Encode(VERSION, 4), Encode(n, 4), Encode(size, 8), Encode(checksum, 8));
    DecodeEncode4(VERSION);
    DecodeEncode4(n);
    DecodeEncode8(size);
    DecodeEncode8(checksum);
  }

  lemma HeaderParts(data: seq<byte>, m: seq<byte>, v: seq<byte>, n: seq<byte>, s: seq<byte>, c: seq<byte>)
    requires |data| >= 32 && |m| == 8 && |v| == 4 && |n| == 4 && |s| == 8 && |c| == 8 && data[..32] == m + v + n + s + c
    ensures data[..8] == m && data[8..12] == v && data[12..16] == n && data[16..24] == s && data[24..32] == c
  {
    var h := data[..32];
    assert data[..8] == h[..8] && data[8..12] == h[8..12] && data[12..16] == h[12..16];
    assert data[16..24] == h[16..24] && data[24..32] == h[24..32];
  }

  /** The loader accepts every image the writer makes, with the same number of entries. */
  lemma WriterSatisfiesLoader(inputs: seq<Input>, image: seq<byte>)
    requires Writable(inputs) && IsStore(inputs, image)
    requires |inputs| < 0x1_0000_0000 && |image| < 0x1_0000_0000_0000_0000
    ensures Inspect(image) == Accepted(|inputs|, Checksum(image, CHECKSUM_OFFSET))
  {
    HeaderFields(image, |inputs|, |image|, Checksum(image, CHECKSUM_OFFSET));
  }

  lemma {:induction false} OffsetsGrow(inputs: seq<Input>, j: nat, k: nat)
    requires j < k <= |inputs|
    ensures Offset(inputs, j) + |inputs[j].blob| <= DataEnd(inputs, k)
  {
    if j < k - 1 { OffsetsGrow(inputs, j, k - 1); }
  }

  /** A record read back. */
  datatype Entry = Entry(path: seq<byte>, offset: nat, size: nat, flags: nat)

  function ReadAt(image: seq<byte>, t: nat): Entry
    requires t + ENTRY_SIZE <= |image|
  {
    Entry(image[t..t + PATH_SIZE], Field(image, t + 64, 8), Field(image, t + 72, 8), Field(image, t + 80, 4))
  }

  function ReadEntry(image: seq<byte>, k: nat): Entry {
    if TableEnd(k) + ENTRY_SIZE <= |image| then ReadAt(image, TableEnd(k)) else Entry([], 0, 0, 0)
  }

  lemma RecordSlices(image: seq<byte>, t: nat, i: Input, offset: nat)
    requires |i.path| < PATH_SIZE && t + ENTRY_SIZE <= |image| && Slice(image, t, ENTRY_SIZE) == Record(i, offset)
    ensures image[t..t + 64] == PaddedPath(i.path) && image[t + 64..t + 72] == Encode(offset, 8)
    ensures image[t + 72..t + 80] == Encode(|i.blob|, 8) && image[t + 80..t + 84] == Encode(i.flags, 4)
  {
    ImageParts(image, t, PaddedPath(i.path), Encode(offset, 8), Encode(|i.blob|, 8), Encode(i.flags, 4), Encode(0, 4));
  }

  lemma ImageParts(image: seq<byte>, t: nat, p: seq<byte>, o: seq<byte>, n: seq<byte>, f: seq<byte>, z: seq<byte>)
    requires |p| == 64 && |o| == 8 && |n| == 8 && |f| == 4 && |z| == 4 && t + 88 <= |image|
    requires Slice(image, t, 88) == p + o + n + f + z
    ensures image[t..t + 64] == p && image[t + 64..t + 72] == o && image[t + 72..t + 80] == n
      && image[t + 80..t + 84] == f
  {
    var r := p + o + n + f + z;
    RecordParts(p, o, n, f, z);
    SliceOfSlice(image, t, r, 0, 64);
    SliceOfSlice(image, t, r, 64, 8);
    SliceOfSlice(image, t, r, 72, 8);
    SliceOfSlice(image, t, r, 80, 4);
  }

  lemma RecordReadsBack(image: seq<byte>, t: nat, i: Input, offset: u64)
    requires |i.path| < PATH_SIZE && |i.blob| <= U64_MAX
    requires t + ENTRY_SIZE <= |image| && Slice(image, t, ENTRY_SIZE) == Record(i, offset)
    ensures ReadAt(image, t) == Entry(PaddedPath(i.path), offset, |i.blob|, i.flags)
  {
    RecordSlices(image, t, i, offset);
    DecodeEncode8(offset);
    DecodeEncode8(|i.blob|);
    DecodeEncode4(i.flags);
  }

  lemma EntryReadsBack(inputs: seq<Input>, image: seq<byte>, k: nat)
    requires Writable(inputs) && HasRecords(inputs, |inputs|, image) && k < |inputs|
    requires |image| == DataEnd(inputs, |inputs|) < 0x1_0000_0000_0000_0000
    ensures ReadEntry(image, k)
      == Entry(PaddedPath(inputs[k].path), Offset(inputs, k), |inputs[k].blob|, inputs[k].flags)
  {
    TableFits(k, |inputs|);
    OffsetsGrow(inputs, k, |inputs|);
    RecordReadsBack(image, TableEnd(k), inputs[k], Offset(inputs, k));
  }

  lemma RecordParts(p: seq<byte>, o: seq<byte>, n: seq<byte>, f: seq<byte>, z: seq<byte>)
    requires |p| == 64 && |o| == 8 && |n| == 8 && |f| == 4 && |z| == 4
    ensures var r := p + o + n + f + z;
      r[0..64] == p && r[64..72] == o && r[72..80] == n && r[80..84] == f
  {
  }

  lemma TableFits(k: nat, n: nat)
    requires k < n
    ensures TableEnd(k) + ENTRY_SIZE <= TableEnd(n)
  {
  }

  /** Each record read back names an aligned extent, after the table and within the image, that holds
      exactly its blob; extents of different records do not overlap. */
  lemma RecordsPointToBlobs(inputs: seq<Input>, image: seq<byte>, k: nat)
    requires Writable(inputs) && IsStore(inputs, image) && k < |inputs| && |image| < 0x1_0000_0000_0000_0000
    ensures var e := ReadEntry(image, k);
      && e.path == PaddedPath(inputs[k].path) && e.flags == inputs[k].flags
      && e.offset % 16 == 0 && TableEnd(|inputs|) <= e.offset && e.offset + e.size <= |image|
      && Slice(image, e.offset, e.size) == inputs[k].blob
      && forall j: nat :: j < k ==> ReadEntry(image, j).offset + ReadEntry(image, j).size <= e.offset
  {
    RecordExtent(inputs, image, k);
  }

  lemma RecordExtent(inputs: seq<Input>, image: seq<byte>, k: nat)
    requires Writable(inputs) && k < |inputs| && |image| == DataEnd(inputs, |inputs|) < 0x1_0000_0000_0000_0000
    requires HasRecords(inputs, |inputs|, image) && HasBlobs(inputs, |inputs|, image)
    ensures var e := ReadEntry(image, k);
      && e.path == PaddedPath(inputs[k].path) && e.flags == inputs[k].flags
      && e.offset % 16 == 0 && TableEnd(|inputs|) <= e.offset && e.offset + e.size <= |image|
      && Slice(image, e.offset, e.size) == inputs[k].blob
      && forall j: nat :: j < k ==> ReadEntry(image, j).offset + ReadEntry(image, j).size <= e.offset
  {
    EntryReadsBack(inputs, image, k);
    assert BlobAt(inputs, k, image);
    forall j: nat | j < k ensures ReadEntry(image, j).offset + ReadEntry(image, j).size <= Offset(inputs, k) {
      EntryReadsBack(inputs, image, j);
      OffsetsGrow(inputs, j, k);
    }
  }
}
