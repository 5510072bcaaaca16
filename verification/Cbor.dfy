/** The subset of CBOR (sections 3 and 3.1 of RFC 8949) that the authenticator writes and reads. */
module Cbor {
  import opened Bits
  import opened Options

  datatype Item = UInt(v: nat) | NInt(n: nat) | Bytes(s: seq<byte>) | Text(s: seq<byte>)
                | Arr(items: seq<Item>) | Map(pairs: seq<Pair>)
  datatype Pair = Pair(key: Item, value: Item)

  // ---------------------------------------------------------------- writing

  /** A value or length in one, two or three bytes; above sixteen bits the rest is lost. */
  function Head(major: byte, v: nat): (h: seq<byte>)
    requires major % 32 == 0
    ensures 1 <= |h| <= 3
  {
    if v < 24 then [major + v]
    else if v < 256 then [ByteOf(major + 24), v]
    else [ByteOf(major + 25), v / 256 % 256, v % 256]
  }

  /** The encoders for negative integers, arrays and maps have no two-byte form. */
  function ShortHead(major: byte, v: nat): (h: seq<byte>)
    requires major % 32 == 0
    ensures 1 <= |h| <= 2
  {
    if v < 24 then [major + v] else [ByteOf(major + 24), v % 256]
  }

  function ByteOf(x: int): byte
    requires 0 <= x < 256
  {
    x
  }

  const UINT: byte := 0x00
  const NINT: byte := 0x20
  const BSTR: byte := 0x40
  const TSTR: byte := 0x60
  const ARR: byte := 0x80
  const MAP: byte := 0xA0

  function Encode(item: Item): (e: seq<byte>)
    ensures |e| >= 1
    decreases item
  {
    match item
    case UInt(v) => Head(UINT, v)
    case NInt(n) => ShortHead(NINT, n)
    case Bytes(s) => Head(BSTR, |s|) + s
    case Text(s) => Head(TSTR, |s|) + s
    case Arr(items) => ShortHead(ARR, |items|) + EncodeAll(items)
    case Map(pairs) => ShortHead(MAP, |pairs|) + EncodePairs(pairs)
  }

  function EncodeAll(items: seq<Item>): seq<byte>
    decreases items
  {
    if |items| == 0 then [] else Encode(items[0]) + EncodeAll(items[1..])
  }

  function EncodePairs(pairs: seq<Pair>): seq<byte>
    decreases pairs
  {
    if |pairs| == 0 then [] else EncodePair(pairs[0]) + EncodePairs(pairs[1..])
  }

  function EncodePair(pair: Pair): seq<byte>
    decreases pair
  {
    Encode(pair.key) + Encode(pair.value)
  }

  /** Lengths that the encoders do not truncate, all the way down. */
  predicate Fits(item: Item)
    decreases item
  {
    match item
    case UInt(v) => v < 0x1_0000
    case NInt(n) => n < 256
    case Bytes(s) => |s| < 0x1_0000
    case Text(s) => |s| < 0x1_0000
    case Arr(items) => |items| < 256 && AllFit(items)
    case Map(pairs) => |pairs| < 256 && PairsFit(pairs)
  }

  predicate AllFit(items: seq<Item>)
    decreases items
  {
    |items| == 0 || (Fits(items[0]) && AllFit(items[1..]))
  }

  predicate PairsFit(pairs: seq<Pair>)
    decreases pairs
  {
    |pairs| == 0 || (PairFits(pairs[0]) && PairsFit(pairs[1..]))
  }

  predicate PairFits(pair: Pair)
    decreases pair
  {
    Fits(pair.key) && Fits(pair.value)
  }

  // ---------------------------------------------------------------- reading

  datatype Length = Length(value: nat, size: nat)

  function ReadLen(d: seq<byte>, p: nat): (r: Option<Length>)
    ensures r.Some? ==> 1 <= r.value.size <= 3 && p + r.value.size <= |d|
  {
    if p >= |d| then None
    else
      var low := d[p] % 32;
      if low < 24 then Some(Length(low, 1))
      else if low == 24 && p + 1 < |d| then Some(Length(d[p + 1], 2))
      else if low == 25 && p + 2 < |d| then Some(Length((d[p + 1] as int) * 256 + d[p + 2], 3))
      else None
  }

  function Left(d: seq<byte>, p: nat): nat {
    if p < |d| then |d| - p else 0
  }

  /** Where the item at `p` ends; a string may claim to end past the data. */
  function Skip(d: seq<byte>, p: nat): (r: Option<nat>)
    ensures r.Some? ==> p < |d| && r.value > p
    decreases Left(d, p), 0, 0
  {
    if p >= |d| then None
    else if d[p] / 32 == 7 then Some(p + 1)
    else if d[p] / 32 == 6 then None
    else
      match ReadLen(d, p)
      case None => None
      case Some(l) =>
        if d[p] / 32 < 2 then Some(p + l.size)
        else if d[p] / 32 < 4 then Some(p + l.size + l.value)
        else SkipMany(d, p + l.size, if d[p] / 32 == 4 then l.value else 2 * l.value)
  }

  function SkipMany(d: seq<byte>, p: nat, n: nat): (r: Option<nat>)
    ensures r.Some? ==> r.value >= p
    decreases Left(d, p), 1, n
  {
    if n == 0 then Some(p)
    else
      match Skip(d, p)
      case None => None
      case Some(q) => SkipMany(d, q, n - 1)
  }

  /** A slice past the end of the data is a panic in the source. */
  datatype Lookup = Found(value: seq<byte>) | Absent | OutOfBounds

  function Sliced(d: seq<byte>, a: nat, b: nat): Lookup {
    if a <= b <= |d| then Found(d[a..b]) else OutOfBounds
  }

  function IntKey(d: seq<byte>, p: nat): Option<(int, nat)> {
    if p >= |d| || d[p] / 32 > 1 then None
    else
      match ReadLen(d, p)
      case None => None
      case Some(l) => Some((if d[p] / 32 == 0 then l.value else -1 - l.value, p + l.size))
  }

  function MapIntFrom(d: seq<byte>, p: nat, n: nat, key: int): Lookup
    decreases n
  {
    if n == 0 then Absent
    else
      match IntKey(d, p)
      case None => Absent
      case Some((k, v)) =>
        match Skip(d, v)
        case None => Absent
        case Some(q) => if k == key then Sliced(d, v, q) else MapIntFrom(d, q, n - 1, key)
  }

  function MapInt(d: seq<byte>, key: int): Lookup {
    if |d| == 0 || d[0] / 32 != 5 then Absent
    else
      match ReadLen(d, 0)
      case None => Absent
      case Some(l) => MapIntFrom(d, l.size, l.value, key)
  }

  function MapTextFrom(d: seq<byte>, p: nat, n: nat, key: seq<byte>): Lookup
    decreases n
  {
    if n == 0 || p >= |d| then Absent
    else if d[p] / 32 != 3 then
      match SkipMany(d, p, 2)
      case None => Absent
      case Some(q) => MapTextFrom(d, q, n - 1, key)
    else
      match ReadLen(d, p)
      case None => Absent
      case Some(l) =>
        var ks := p + l.size;
        var vs := ks + l.value;
        match Skip(d, vs)
        case None => Absent
        case Some(q) =>
          if l.value == |key| && d[ks..vs] == key then Sliced(d, vs, q) else MapTextFrom(d, q, n - 1, key)
  }

  function MapText(d: seq<byte>, key: seq<byte>): Lookup {
    if |d| == 0 || d[0] / 32 != 5 then Absent
    else
      match ReadLen(d, 0)
      case None => Absent
      case Some(l) => MapTextFrom(d, l.size, l.value, key)
  }

  function StrBytes(v: seq<byte>): Option<seq<byte>> {
    if |v| == 0 || (v[0] / 32 != 2 && v[0] / 32 != 3) then None
    else
      match ReadLen(v, 0)
      case None => None
      case Some(l) => if |v| < l.size + l.value then None else Some(v[l.size..l.size + l.value])
  }

  // ---------------------------------------------------------------- agreement

  /** `e` is in the data at `p`. */
  predicate At(d: seq<byte>, p: nat, e: seq<byte>) {
    p + |e| <= |d| && d[p..p + |e|] == e
  }

  lemma AtParts(d: seq<byte>, p: nat, a: seq<byte>, b: seq<byte>)
    ensures At(d, p, a + b) <==> At(d, p, a) && At(d, p + |a|, b)
  {
    if p + |a| + |b| <= |d| {
      var s := d[p..p + |a| + |b|];
      assert s[..|a|] == d[p..p + |a|] && s[|a|..] == d[p + |a|..p + |a| + |b|];
      assert s == s[..|a|] + s[|a|..];
      if s == a + b { assert s[..|a|] == a && s[|a|..] == b; }
    }
  }

  lemma HeadReads(d: seq<byte>, p: nat, major: byte, v: nat)
    requires major % 32 == 0 && At(d, p, Head(major, v))
    ensures d[p] / 32 == major / 32
    ensures ReadLen(d, p) == Some(Length(v % 0x1_0000, |Head(major, v)|))
  {
    var h := Head(major, v);
    forall i | 0 <= i < |h| ensures d[p + i] == h[i] { assert d[p..p + |h|][i] == h[i]; }
    assert d[p + 0] == h[0];
    if v >= 256 { Sixteen(v); }
  }

  lemma Sixteen(v: nat)
    ensures v / 256 % 256 * 256 + v % 256 == v % 0x1_0000
  {
  }

  lemma ShortHeadReads(d: seq<byte>, p: nat, major: byte, v: nat)
    requires major % 32 == 0 && At(d, p, ShortHead(major, v))
    ensures d[p] / 32 == major / 32
    ensures ReadLen(d, p) == Some(Length(v % 256, |ShortHead(major, v)|))
  {
    var h := ShortHead(major, v);
    forall i | 0 <= i < |h| ensures d[p + i] == h[i] { assert d[p..p + |h|][i] == h[i]; }
    assert d[p + 0] == h[0];
  }

  function StringItem(s: seq<byte>, text: bool): Item {
    if text then Text(s) else Bytes(s)
  }

  lemma StringAt(d: seq<byte>, p: nat, s: seq<byte>, text: bool)
    requires At(d, p, Encode(StringItem(s, text)))
    ensures var h := Head(if text then TSTR else BSTR, |s|);
      && Encode(StringItem(s, text)) == h + s && At(d, p + |h|, s)
      && p < |d| && d[p] / 32 == (if text then 3 else 2) && ReadLen(d, p) == Some(Length(|s| % 0x1_0000, |h|))
      && Skip(d, p) == Some(p + |h| + |s| % 0x1_0000)
  {
    var major := if text then TSTR else BSTR;
    EncodeString(s, text);
    StringHead(d, p, s, major);
    StringSkip(d, p, |Head(major, |s|)|, |s| % 0x1_0000);
  }

  lemma EncodeString(s: seq<byte>, text: bool)
    ensures Encode(StringItem(s, text)) == Head(if text then TSTR else BSTR, |s|) + s
  {
  }

  lemma StringHead(d: seq<byte>, p: nat, s: seq<byte>, major: byte)
    requires major % 32 == 0 && At(d, p, Head(major, |s|) + s)
    ensures At(d, p + |Head(major, |s|)|, s) && p < |d| && d[p] / 32 == major / 32
    ensures ReadLen(d, p) == Some(Length(|s| % 0x1_0000, |Head(major, |s|)|))
  {
    AtParts(d, p, Head(major, |s|), s);
    HeadReads(d, p, major, |s|);
  }

  lemma StringSkip(d: seq<byte>, p: nat, size: nat, len: nat)
    requires p < |d| && (d[p] / 32 == 2 || d[p] / 32 == 3) && ReadLen(d, p) == Some(Length(len, size))
    ensures Skip(d, p) == Some(p + size + len)
  {
  }

  lemma NumberAt(d: seq<byte>, p: nat, item: Item)
    requires (item.UInt? || item.NInt?) && At(d, p, Encode(item))
    ensures Skip(d, p) == Some(p + |Encode(item)|)
    ensures p < |d| && d[p] / 32 == if item.UInt? then 0 else 1
    ensures IntKey(d, p) == Some((if item.UInt? then item.v % 0x1_0000 else -1 - item.n % 256, p + |Encode(item)|))
  {
    if item.UInt? { HeadReads(d, p, UINT, item.v); } else { ShortHeadReads(d, p, NINT, item.n); }
  }

  lemma ArrAt(d: seq<byte>, p: nat, items: seq<Item>)
    requires At(d, p, Encode(Arr(items)))
    ensures var h := ShortHead(ARR, |items|);
      && |Encode(Arr(items))| == |h| + |EncodeAll(items)| && At(d, p + |h|, EncodeAll(items))
      && p < |d| && d[p] / 32 == 4 && Skip(d, p) == SkipMany(d, p + |h|, |items| % 256)
  {
    AtParts(d, p, ShortHead(ARR, |items|), EncodeAll(items));
    ShortHeadReads(d, p, ARR, |items|);
  }

  lemma MapAt(d: seq<byte>, p: nat, pairs: seq<Pair>)
    requires At(d, p, Encode(Map(pairs)))
    ensures var h := ShortHead(MAP, |pairs|);
      && |Encode(Map(pairs))| == |h| + |EncodePairs(pairs)| && At(d, p + |h|, EncodePairs(pairs))
      && p < |d| && d[p] / 32 == 5 && ReadLen(d, p) == Some(Length(|pairs| % 256, |h|))
      && Skip(d, p) == SkipMany(d, p + |h|, 2 * (|pairs| % 256))
  {
    AtParts(d, p, ShortHead(MAP, |pairs|), EncodePairs(pairs));
    ShortHeadReads(d, p, MAP, |pairs|);
  }

  lemma StringLands(d: seq<byte>, p: nat, s: seq<byte>, text: bool)
    requires At(d, p, Encode(StringItem(s, text))) && |s| < 0x1_0000
    ensures Skip(d, p) == Some(p + |Encode(StringItem(s, text))|)
  {
    StringAt(d, p, s, text);
    assert |s| % 0x1_0000 == |s|;
  }

  /** Skipping an encoded item lands exactly on its end. */
  lemma {:induction false} SkipLands(d: seq<byte>, p: nat, item: Item)
    requires Fits(item) && At(d, p, Encode(item))
    ensures Skip(d, p) == Some(p + |Encode(item)|)
    decreases item, 1
  {
    match item {
      case UInt(_) => NumberAt(d, p, item);
      case NInt(_) => NumberAt(d, p, item);
      case Bytes(s) => StringLands(d, p, s, false);
      case Text(s) => StringLands(d, p, s, true);
      case Arr(_) => ArrLands(d, p, item);
      case Map(_) => MapLands(d, p, item);
    }
  }

  lemma {:induction false} ArrLands(d: seq<byte>, p: nat, item: Item)
    requires item.Arr? && |item.items| < 256 && AllFit(item.items) && At(d, p, Encode(item))
    ensures Skip(d, p) == Some(p + |Encode(item)|)
    decreases item, 0
  {
    var q := p + |ShortHead(ARR, |item.items|)|;
    ArrAt(d, p, item.items);
    SkipAllLands(d, q, item.items);
  }

  lemma {:induction false} MapLands(d: seq<byte>, p: nat, item: Item)
    requires item.Map? && |item.pairs| < 256 && PairsFit(item.pairs) && At(d, p, Encode(item))
    ensures Skip(d, p) == Some(p + |Encode(item)|)
    decreases item, 0
  {
    var q := p + |ShortHead(MAP, |item.pairs|)|;
    MapAt(d, p, item.pairs);
    SkipPairsLands(d, q, item.pairs);
  }

  lemma {:induction false} SkipAllLands(d: seq<byte>, p: nat, items: seq<Item>)
    requires AllFit(items) && At(d, p, EncodeAll(items))
    ensures SkipMany(d, p, |items|) == Some(p + |EncodeAll(items)|)
    decreases items
  {
    if |items| > 0 {
      var e := Encode(items[0]);
      AtParts(d, p, e, EncodeAll(items[1..]));
      SkipLands(d, p, items[0]);
      SkipAllLands(d, p + |e|, items[1..]);
    }
  }

  lemma {:induction false} SkipPairLands(d: seq<byte>, p: nat, pair: Pair)
    requires PairFits(pair) && At(d, p, EncodePair(pair))
    ensures Skip(d, p) == Some(p + |Encode(pair.key)|)
    ensures Skip(d, p + |Encode(pair.key)|) == Some(p + |EncodePair(pair)|)
    ensures At(d, p, Encode(pair.key)) && At(d, p + |Encode(pair.key)|, Encode(pair.value))
    decreases pair, 0
  {
    AtParts(d, p, Encode(pair.key), Encode(pair.value));
    SkipLands(d, p, pair.key);
    SkipLands(d, p + |Encode(pair.key)|, pair.value);
  }

  lemma PairsSplit(d: seq<byte>, p: nat, pairs: seq<Pair>) returns (q: nat)
    requires |pairs| > 0 && PairsFit(pairs) && At(d, p, EncodePairs(pairs))
    ensures PairFits(pairs[0]) && At(d, p, EncodePair(pairs[0])) && q == p + |EncodePair(pairs[0])|
    ensures PairsFit(pairs[1..]) && At(d, q, EncodePairs(pairs[1..]))
      && q + |EncodePairs(pairs[1..])| == p + |EncodePairs(pairs)|
  {
    AtParts(d, p, EncodePair(pairs[0]), EncodePairs(pairs[1..]));
    q := p + |EncodePair(pairs[0])|;
  }

  lemma {:induction false} SkipPairsLands(d: seq<byte>, p: nat, pairs: seq<Pair>)
    requires PairsFit(pairs) && At(d, p, EncodePairs(pairs))
    ensures SkipMany(d, p, 2 * |pairs|) == Some(p + |EncodePairs(pairs)|)
    decreases pairs, 1
  {
    if |pairs| > 0 {
      var q := FirstPairLands(d, p, pairs, |pairs|);
      SkipPairsLands(d, q, pairs[1..]);
    }
  }

  /** Behind the first pair the others follow, with one pair less to skip. */
  lemma {:induction false} FirstPairLands(d: seq<byte>, p: nat, pairs: seq<Pair>, n: nat) returns (q: nat)
    requires |pairs| > 0 && n > 0 && PairsFit(pairs) && At(d, p, EncodePairs(pairs))
    ensures PairsFit(pairs[1..]) && At(d, q, EncodePairs(pairs[1..]))
    ensures q == p + |EncodePair(pairs[0])| && q + |EncodePairs(pairs[1..])| == p + |EncodePairs(pairs)|
    ensures SkipMany(d, p, 2 * n) == SkipMany(d, q, 2 * (n - 1))
    decreases pairs, 0
  {
    q := PairsSplit(d, p, pairs);
    PairSkipped(d, p, pairs[0], q, 2 * (n - 1));
  }

  lemma {:induction false} PairSkipped(d: seq<byte>, p: nat, pair: Pair, q: nat, n: nat)
    requires PairFits(pair) && At(d, p, EncodePair(pair)) && q == p + |EncodePair(pair)|
    ensures SkipMany(d, p, n + 2) == SkipMany(d, q, n)
    decreases pair, 1
  {
    SkipPairLands(d, p, pair);
    SkipTwo(d, p, p + |Encode(pair.key)|, q, n);
  }

  lemma SkipTwo(d: seq<byte>, p: nat, q: nat, r: nat, n: nat)
    requires Skip(d, p) == Some(q) && Skip(d, q) == Some(r)
    ensures SkipMany(d, p, n + 2) == SkipMany(d, r, n)
  {
    assert SkipMany(d, p, n + 2) == SkipMany(d, q, n + 1);
  }

  /** A string of any length is skipped correctly exactly when its length fits sixteen bits. */
  lemma StringSkipIff(d: seq<byte>, p: nat, s: seq<byte>, text: bool)
    requires At(d, p, Encode(StringItem(s, text)))
    ensures Skip(d, p) == Some(p + |Encode(StringItem(s, text))|) <==> |s| < 0x1_0000
  {
    StringAt(d, p, s, text);
    assert |s| % 0x1_0000 == |s| <==> |s| < 0x1_0000;
  }

  /** A string read back is the string exactly when its length fits sixteen bits. */
  lemma StrBytesIff(s: seq<byte>, text: bool)
    ensures StrBytes(Encode(StringItem(s, text))) == Some(s) <==> |s| < 0x1_0000
  {
    var d := Encode(StringItem(s, text));
    assert d[0..|d|] == d;
    StringAt(d, 0, s, text);
    assert |s| % 0x1_0000 == |s| <==> |s| < 0x1_0000;
  }

  /** An unsigned number is read back exactly when it fits sixteen bits. */
  lemma UIntReadsBackIff(d: seq<byte>, p: nat, v: nat)
    requires At(d, p, Encode(UInt(v)))
    ensures IntKey(d, p) == Some((v, p + |Encode(UInt(v))|)) <==> v < 0x1_0000
  {
    NumberAt(d, p, UInt(v));
    assert v % 0x1_0000 == v <==> v < 0x1_0000;
  }

  /** A negative number is read back exactly when it fits eight bits. */
  lemma NIntReadsBackIff(d: seq<byte>, p: nat, n: nat)
    requires At(d, p, Encode(NInt(n)))
    ensures IntKey(d, p) == Some((-1 - n, p + |Encode(NInt(n))|)) <==> n < 256
  {
    NumberAt(d, p, NInt(n));
    assert n % 256 == n <==> n < 256;
  }

  /** An array of well-formed items is skipped correctly exactly when it has fewer than 256 of them. */
  lemma ArraySkipIff(d: seq<byte>, p: nat, items: seq<Item>)
    requires AllFit(items) && At(d, p, Encode(Arr(items)))
    ensures Skip(d, p) == Some(p + |Encode(Arr(items))|) <==> |items| < 256
  {
    var k := |items| % 256;
    var start := ArrStart(d, p, items);
    SkipSome(d, start, items, k);
    AllOrShorter(items, k);
  }

  lemma ArrStart(d: seq<byte>, p: nat, items: seq<Item>) returns (start: nat)
    requires At(d, p, Encode(Arr(items)))
    ensures At(d, start, EncodeAll(items)) && start + |EncodeAll(items)| == p + |Encode(Arr(items))|
    ensures Skip(d, p) == SkipMany(d, start, |items| % 256)
  {
    ArrAt(d, p, items);
    start := p + |ShortHead(ARR, |items|)|;
  }

  lemma AllOrShorter(items: seq<Item>, k: nat)
    requires k <= |items|
    ensures |EncodeAll(items[..k])| == |EncodeAll(items)| <==> k == |items|
  {
    if k == |items| { assert items[..k] == items; } else { FewerAreShorter(items, k); }
  }

  lemma {:induction false} SkipSome(d: seq<byte>, p: nat, items: seq<Item>, k: nat)
    requires AllFit(items) && At(d, p, EncodeAll(items)) && k <= |items|
    ensures SkipMany(d, p, k) == Some(p + |EncodeAll(items[..k])|)
    decreases k
  {
    if k > 0 {
      var e := Encode(items[0]);
      AtParts(d, p, e, EncodeAll(items[1..]));
      SkipLands(d, p, items[0]);
      SkipSome(d, p + |e|, items[1..], k - 1);
      EncodeFirst(items, k);
    }
  }

  lemma EncodeFirst(items: seq<Item>, k: nat)
    requires 0 < k <= |items|
    ensures EncodeAll(items[..k]) == Encode(items[0]) + EncodeAll(items[1..][..k - 1])
  {
    assert items[..k][1..] == items[1..][..k - 1];
  }

  lemma {:induction false} FewerAreShorter(items: seq<Item>, k: nat)
    requires k < |items|
    ensures |EncodeAll(items[..k])| < |EncodeAll(items)|
    decreases k
  {
    if k > 0 {
      FewerAreShorter(items[1..], k - 1);
      EncodeFirst(items, k);
    }
  }

  /** A map of well-formed pairs is skipped correctly exactly when it has fewer than 256 of them. */
  lemma MapSkipIff(d: seq<byte>, p: nat, pairs: seq<Pair>)
    requires PairsFit(pairs) && At(d, p, Encode(Map(pairs)))
    ensures Skip(d, p) == Some(p + |Encode(Map(pairs))|) <==> |pairs| < 256
  {
    var k := |pairs| % 256;
    MapAt(d, p, pairs);
    SkipSomePairs(d, p + |ShortHead(MAP, |pairs|)|, pairs, k);
    AllPairsOrShorter(pairs, k);
  }

  lemma AllPairsOrShorter(pairs: seq<Pair>, k: nat)
    requires k <= |pairs|
    ensures |EncodePairs(pairs[..k])| == |EncodePairs(pairs)| <==> k == |pairs|
  {
    if k == |pairs| { assert pairs[..k] == pairs; } else { FewerPairsAreShorter(pairs, k); }
  }

  lemma {:induction false} SkipSomePairs(d: seq<byte>, p: nat, pairs: seq<Pair>, k: nat)
    requires PairsFit(pairs) && At(d, p, EncodePairs(pairs)) && k <= |pairs|
    ensures SkipMany(d, p, 2 * k) == Some(p + |EncodePairs(pairs[..k])|)
    decreases k
  {
    if k > 0 {
      var q := FirstPairLands(d, p, pairs, k);
      SkipSomePairs(d, q, pairs[1..], k - 1);
      EncodeFirstPair(pairs, k);
    }
  }

  lemma EncodeFirstPair(pairs: seq<Pair>, k: nat)
    requires 0 < k <= |pairs|
    ensures EncodePairs(pairs[..k]) == EncodePair(pairs[0]) + EncodePairs(pairs[1..][..k - 1])
  {
    assert pairs[..k][1..] == pairs[1..][..k - 1];
  }

  lemma {:induction false} FewerPairsAreShorter(pairs: seq<Pair>, k: nat)
    requires k < |pairs|
    ensures |EncodePairs(pairs[..k])| < |EncodePairs(pairs)|
    decreases k
  {
    if k > 0 {
      FewerPairsAreShorter(pairs[1..], k - 1);
      EncodeFirstPair(pairs, k);
    }
  }

  // ---------------------------------------------------------------- maps

  function KeyValue(k: Item): int {
    match k
    case UInt(v) => v
    case NInt(n) => -1 - n
    case _ => 0
  }

  predicate IntKeys(pairs: seq<Pair>) {
    forall i :: 0 <= i < |pairs| ==> pairs[i].key.UInt? || pairs[i].key.NInt?
  }

  /** The value of the first pair with the key. */
  function FirstInt(pairs: seq<Pair>, key: int): Lookup {
    if |pairs| == 0 then Absent
    else if KeyValue(pairs[0].key) == key then Found(Encode(pairs[0].value))
    else FirstInt(pairs[1..], key)
  }

  lemma IntKeyAt(d: seq<byte>, p: nat, item: Item)
    requires Fits(item) && (item.UInt? || item.NInt?) && At(d, p, Encode(item))
    ensures IntKey(d, p) == Some((KeyValue(item), p + |Encode(item)|))
  {
    NumberAt(d, p, item);
  }

  lemma IntKeyStep(d: seq<byte>, p: nat, n: nat, key: int, k: int, v: nat, q: nat)
    requires IntKey(d, p) == Some((k, v)) && Skip(d, v) == Some(q)
    ensures MapIntFrom(d, p, n + 1, key) == if k == key then Sliced(d, v, q) else MapIntFrom(d, q, n, key)
  {
  }

  lemma MapIntStep(d: seq<byte>, p: nat, pair: Pair, q: nat, n: nat, key: int)
    requires PairFits(pair) && (pair.key.UInt? || pair.key.NInt?) && At(d, p, EncodePair(pair))
      && q == p + |EncodePair(pair)|
    ensures MapIntFrom(d, p, n + 1, key)
         == if KeyValue(pair.key) == key then Found(Encode(pair.value)) else MapIntFrom(d, q, n, key)
  {
    var v := p + |Encode(pair.key)|;
    SkipPairLands(d, p, pair);
    IntKeyAt(d, p, pair.key);
    IntValueStep(d, p, n, key, KeyValue(pair.key), v, q, Encode(pair.value));
  }

  lemma IntValueStep(d: seq<byte>, p: nat, n: nat, key: int, k: int, v: nat, q: nat, e: seq<byte>)
    requires IntKey(d, p) == Some((k, v)) && Skip(d, v) == Some(q) && At(d, v, e) && q == v + |e|
    ensures MapIntFrom(d, p, n + 1, key) == if k == key then Found(e) else MapIntFrom(d, q, n, key)
  {
    IntKeyStep(d, p, n, key, k, v, q);
  }

  lemma {:induction false} MapIntFinds(d: seq<byte>, p: nat, pairs: seq<Pair>, key: int)
    requires PairsFit(pairs) && IntKeys(pairs) && At(d, p, EncodePairs(pairs))
    ensures MapIntFrom(d, p, |pairs|, key) == FirstInt(pairs, key)
    decreases |pairs|
  {
    if |pairs| > 0 {
      var q := FirstIntLands(d, p, pairs, key);
      MapIntFinds(d, q, pairs[1..], key);
    }
  }

  lemma FirstIntLands(d: seq<byte>, p: nat, pairs: seq<Pair>, key: int) returns (q: nat)
    requires |pairs| > 0 && PairsFit(pairs) && IntKeys(pairs) && At(d, p, EncodePairs(pairs))
    ensures PairsFit(pairs[1..]) && IntKeys(pairs[1..]) && At(d, q, EncodePairs(pairs[1..]))
    ensures MapIntFrom(d, p, |pairs|, key)
         == if KeyValue(pairs[0].key) == key then Found(Encode(pairs[0].value)) else MapIntFrom(d, q, |pairs| - 1, key)
  {
    q := PairsSplit(d, p, pairs);
    MapIntStep(d, p, pairs[0], q, |pairs| - 1, key);
  }

  lemma AtStart(e: seq<byte>, rest: seq<byte>)
    ensures At(e + rest, 0, e)
  {
    assert (e + rest)[0..|e|] == e;
  }

  lemma MapStarts(d: seq<byte>, pairs: seq<Pair>, rest: seq<byte>)
    requires d == Encode(Map(pairs)) + rest && |pairs| < 256
    ensures |d| > 0 && d[0] / 32 == 5 && ReadLen(d, 0) == Some(Length(|pairs|, |ShortHead(MAP, |pairs|)|))
    ensures At(d, |ShortHead(MAP, |pairs|)|, EncodePairs(pairs))
  {
    AtStart(Encode(Map(pairs)), rest);
    MapAt(d, 0, pairs);
  }

  /** On an encoded map with integer keys the lookup returns exactly the first match. */
  lemma MapIntFindsFirst(pairs: seq<Pair>, rest: seq<byte>, key: int)
    requires Fits(Map(pairs)) && IntKeys(pairs)
    ensures MapInt(Encode(Map(pairs)) + rest, key) == FirstInt(pairs, key)
  {
    var d := Encode(Map(pairs)) + rest;
    MapStarts(d, pairs, rest);
    MapIntFinds(d, |ShortHead(MAP, |pairs|)|, pairs, key);
  }

  /** The value of the first pair whose key is that text; other kinds of key are passed over. */
  function FirstText(pairs: seq<Pair>, key: seq<byte>): Lookup {
    if |pairs| == 0 then Absent
    else if pairs[0].key == Text(key) then Found(Encode(pairs[0].value))
    else FirstText(pairs[1..], key)
  }

  lemma OtherMajor(d: seq<byte>, p: nat, item: Item)
    requires At(d, p, Encode(item)) && !item.Text?
    ensures p < |d| && d[p] / 32 != 3
  {
    match item
    case UInt(v) => NumberAt(d, p, item);
    case NInt(n) => NumberAt(d, p, item);
    case Bytes(s) => StringAt(d, p, s, false);
    case Arr(items) => ArrAt(d, p, items);
    case Map(pairs) => MapAt(d, p, pairs);
  }

  lemma MapTextStep(d: seq<byte>, p: nat, pair: Pair, q: nat, n: nat, key: seq<byte>)
    requires PairFits(pair) && At(d, p, EncodePair(pair)) && q == p + |EncodePair(pair)|
    ensures MapTextFrom(d, p, n + 1, key)
         == if pair.key == Text(key) then Found(Encode(pair.value)) else MapTextFrom(d, q, n, key)
  {
    SkipPairLands(d, p, pair);
    var ks := p + |Encode(pair.key)|;
    if pair.key.Text? {
      TextKeyAt(d, p, pair.key.s);
      TextKeyStep(d, p, n, key, ks - |pair.key.s|, ks, q);
    } else {
      OtherMajor(d, p, pair.key);
      OtherKeyStep(d, p, n, key, ks, q);
    }
  }

  lemma TextKeyAt(d: seq<byte>, p: nat, s: seq<byte>)
    requires At(d, p, Encode(Text(s))) && |s| < 0x1_0000
    ensures var vs := p + |Encode(Text(s))|;
      && p < |d| && d[p] / 32 == 3 && p < vs - |s| && ReadLen(d, p) == Some(Length(|s|, vs - |s| - p))
         && At(d, vs - |s|, s)
  {
    StringAt(d, p, s, true);
    assert |s| % 0x1_0000 == |s|;
  }

  lemma OtherKeyStep(d: seq<byte>, p: nat, n: nat, key: seq<byte>, ks: nat, q: nat)
    requires p < |d| && d[p] / 32 != 3 && Skip(d, p) == Some(ks) && Skip(d, ks) == Some(q)
    ensures MapTextFrom(d, p, n + 1, key) == MapTextFrom(d, q, n, key)
  {
    SkipTwo(d, p, ks, q, 0);
    assert SkipMany(d, p, 2) == Some(q);
  }

  lemma TextKeyStep(d: seq<byte>, p: nat, n: nat, key: seq<byte>, ks: nat, vs: nat, q: nat)
    requires p < |d| && d[p] / 32 == 3 && p < ks <= vs && ReadLen(d, p) == Some(Length(vs - ks, ks - p))
      && Skip(d, vs) == Some(q)
    ensures vs < |d|
    ensures MapTextFrom(d, p, n + 1, key) == if d[ks..vs] == key then Sliced(d, vs, q) else MapTextFrom(d, q, n, key)
  {
  }

  lemma {:induction false} MapTextFinds(d: seq<byte>, p: nat, pairs: seq<Pair>, key: seq<byte>)
    requires PairsFit(pairs) && At(d, p, EncodePairs(pairs))
    ensures MapTextFrom(d, p, |pairs|, key) == FirstText(pairs, key)
    decreases |pairs|
  {
    if |pairs| > 0 {
      var q := FirstTextLands(d, p, pairs, key);
      MapTextFinds(d, q, pairs[1..], key);
    }
  }

  lemma FirstTextLands(d: seq<byte>, p: nat, pairs: seq<Pair>, key: seq<byte>) returns (q: nat)
    requires |pairs| > 0 && PairsFit(pairs) && At(d, p, EncodePairs(pairs))
    ensures PairsFit(pairs[1..]) && At(d, q, EncodePairs(pairs[1..]))
    ensures MapTextFrom(d, p, |pairs|, key)
         == if pairs[0].key == Text(key) then Found(Encode(pairs[0].value)) else MapTextFrom(d, q, |pairs| - 1, key)
  {
    q := PairsSplit(d, p, pairs);
    MapTextStep(d, p, pairs[0], q, |pairs| - 1, key);
  }

  /** On any encoded map the lookup returns exactly the first pair with that text for a key. */
  lemma MapTextFindsFirst(pairs: seq<Pair>, rest: seq<byte>, key: seq<byte>)
    requires Fits(Map(pairs))
    ensures MapText(Encode(Map(pairs)) + rest, key) == FirstText(pairs, key)
  {
    var d := Encode(Map(pairs)) + rest;
    MapStarts(d, pairs, rest);
    MapTextFinds(d, |ShortHead(MAP, |pairs|)|, pairs, key);
  }

  /** A truncated string value is not an absence but a slice past the end. */
  lemma TruncatedValuePanics()
    ensures MapInt([0xA1, 0x01, 0x45], 1) == OutOfBounds
  {
    var d: seq<byte> := [0xA1, 0x01, 0x45];
    assert ReadLen(d, 0) == Some(Length(1, 1)) && IntKey(d, 1) == Some((1, 2)) && Skip(d, 2) == Some(8);
  }
}
