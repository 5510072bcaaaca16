/** The encoders that write into a buffer and the decoders that walk one, against Cbor. */
module CborBuffer {
  import opened Bits
  import opened Options
  import opened Cbor

  /** `e` written at `p`, nothing else touched. */
  function Written(was: seq<byte>, p: nat, e: seq<byte>): seq<byte>
    requires p + |e| <= |was|
  {
    was[..p] + e + was[p + |e|..]
  }

  lemma WrittenTwice(was: seq<byte>, p: nat, a: seq<byte>, b: seq<byte>)
    requires p + |a| + |b| <= |was|
    ensures Written(Written(was, p, a), p + |a|, b) == Written(was, p, a + b)
  {
  }

  method WriteHead(o: array<byte>, p: nat, major: byte, v: nat) returns (q: nat)
    requires major % 32 == 0 && p + |Head(major, v)| <= o.Length
    modifies o
    ensures q == p + |Head(major, v)| && o[..] == Written(old(o[..]), p, Head(major, v))
  {
    if v < 24 {
      o[p] := major + v;
      q := p + 1;
    } else if v < 256 {
      o[p] := major + 24;
      o[p + 1] := v;
      q := p + 2;
    } else {
      o[p] := major + 25;
      o[p + 1] := v / 256 % 256;
      o[p + 2] := v % 256;
      q := p + 3;
    }
  }

  method WriteShortHead(o: array<byte>, p: nat, major: byte, v: nat) returns (q: nat)
    requires major % 32 == 0 && p + |ShortHead(major, v)| <= o.Length
    modifies o
    ensures q == p + |ShortHead(major, v)| && o[..] == Written(old(o[..]), p, ShortHead(major, v))
  {
    if v < 24 {
      o[p] := major + v;
      q := p + 1;
    } else {
      o[p] := major + 24;
      o[p + 1] := v % 256;
      q := p + 2;
    }
  }

  method WriteUInt(o: array<byte>, p: nat, v: u64) returns (q: nat)
    requires p + |Encode(UInt(v))| <= o.Length
    modifies o
    ensures q == p + |Encode(UInt(v))| && o[..] == Written(old(o[..]), p, Encode(UInt(v)))
  {
    q := WriteHead(o, p, UINT, v);
  }

  method WriteNInt(o: array<byte>, p: nat, n: u64) returns (q: nat)
    requires p + |Encode(NInt(n))| <= o.Length
    modifies o
    ensures q == p + |Encode(NInt(n))| && o[..] == Written(old(o[..]), p, Encode(NInt(n)))
  {
    q := WriteShortHead(o, p, NINT, n);
  }

  method CopyIn(o: array<byte>, p: nat, s: seq<byte>)
    requires p + |s| <= o.Length
    modifies o
    ensures o[..] == Written(old(o[..]), p, s)
  {
    var i := 0;
    while i < |s|
      invariant 0 <= i <= |s|
      invariant forall k :: 0 <= k < o.Length ==> o[k] == if p <= k < p + i then s[k - p] else old(o[k])
    {
      o[p + i] := s[i];
      i := i + 1;
    }
  }

  /** A byte or text string: its length, then its bytes. */
  method WriteString(o: array<byte>, p: nat, s: seq<byte>, text: bool) returns (q: nat)
    requires p + |Encode(StringItem(s, text))| <= o.Length
    modifies o
    ensures q == p + |Encode(StringItem(s, text))| && o[..] == Written(old(o[..]), p, Encode(StringItem(s, text)))
  {
    var major := if text then TSTR else BSTR;
    var start := WriteHead(o, p, major, |s|);
    WrittenTwice(old(o[..]), p, Head(major, |s|), s);
    CopyIn(o, start, s);
    q := start + |s|;
  }

  // ---------------------------------------------------------------- the public key

  /** Key type 1, algorithm -8, curve 6 and the point, under the labels 1, 3, -1 and -2. */
  function CoseKey(pk: seq<byte>): Item {
    Map([Pair(UInt(1), UInt(1)), Pair(UInt(3), NInt(7)), Pair(NInt(0), UInt(6)), Pair(NInt(1), Bytes(pk))])
  }

  lemma CoseKeyBytes(pk: seq<byte>)
    requires |pk| == 32
    ensures Encode(CoseKey(pk)) == CoseLabels() + Encode(Bytes(pk))
  {
    var ps := [Pair(UInt(1), UInt(1)), Pair(UInt(3), NInt(7)), Pair(NInt(0), UInt(6)), Pair(NInt(1), Bytes(pk))];
    assert ps[1..][1..] == ps[2..] && ps[2..][1..] == ps[3..] && ps[3..][1..] == [];
    assert EncodePairs(ps[3..]) == EncodePair(ps[3]) + [];
    assert EncodePairs(ps[2..]) == EncodePair(ps[2]) + EncodePairs(ps[3..]);
    assert EncodePairs(ps[1..]) == EncodePair(ps[1]) + EncodePairs(ps[2..]);
    assert EncodePairs(ps) == EncodePair(ps[0]) + EncodePairs(ps[1..]);
    CosePairs();
    assert EncodePair(ps[3]) == [0x21] + Encode(Bytes(pk));
  }

  lemma CosePairs()
    ensures EncodePair(Pair(UInt(1), UInt(1))) == [0x01, 0x01] && EncodePair(Pair(UInt(3), NInt(7))) == [0x03, 0x27]
    ensures EncodePair(Pair(NInt(0), UInt(6))) == [0x20, 0x06]
  {
  }

  /** A small number after what has been written so far. */
  method Append(o: array<byte>, p: nat, v: u64, negative: bool, ghost was: seq<byte>, ghost done: seq<byte>)
    returns (q: nat)
    requires v < 24 && p == |done| < o.Length == |was| && o[..] == Written(was, 0, done)
    modifies o
    ensures q == p + 1 && o[..] == Written(was, 0, done + [if negative then NINT + v else v])
  {
    WrittenTwice(was, 0, done, [if negative then NINT + v else v]);
    if negative {
      q := WriteNInt(o, p, v);
    } else {
      q := WriteUInt(o, p, v);
    }
  }

  method BuildCoseKey(pk: seq<byte>, o: array<byte>) returns (p: nat)
    requires |pk| == 32 && o.Length >= 42
    modifies o
    ensures p == |Encode(CoseKey(pk))| == 42 && o[..] == Written(old(o[..]), 0, Encode(CoseKey(pk)))
  {
    ghost var was := o[..];
    CoseKeyBytes(pk);
    p := WriteLabels(o);
    WrittenTwice(was, 0, CoseLabels(), Encode(Bytes(pk)));
    p := WriteString(o, p, pk, false);
  }

  /** Everything before the point. */
  function CoseLabels(): (b: seq<byte>)
    ensures |b| == 8
  {
    ShortHead(MAP, 4) + [0x01] + [0x01] + [0x03] + [0x27] + [0x20] + [0x06] + [0x21]
  }

  method WriteLabels(o: array<byte>) returns (p: nat)
    requires o.Length >= 42
    modifies o
    ensures p == 8 && o[..] == Written(old(o[..]), 0, CoseLabels())
  {
    ghost var was := o[..];
    p := WriteShortHead(o, 0, MAP, 4);
    ghost var done := ShortHead(MAP, 4);
    p := AppendTwo(o, p, 1, false, 1, false, was, done);
    done := done + [0x01] + [0x01];
    p := AppendTwo(o, p, 3, false, 7, true, was, done);
    done := done + [0x03] + [0x27];
    p := AppendTwo(o, p, 0, true, 6, false, was, done);
    done := done + [0x20] + [0x06];
    p := Append(o, p, 1, true, was, done);
  }

  /** A label and its value. */
  method AppendTwo(o: array<byte>, p: nat, v: u64, negative: bool, w: u64, minus: bool, ghost was: seq<byte>,
                   ghost done: seq<byte>)
    returns (q: nat)
    requires v < 24 && w < 24 && p == |done| && p + 1 < o.Length == |was| && o[..] == Written(was, 0, done)
    modifies o
    ensures q == p + 2
    ensures o[..] == Written(was, 0, done + [if negative then NINT + v else v] + [if minus then NINT + w else w])
  {
    q := Append(o, p, v, negative, was, done);
    q := Append(o, q, w, minus, was, done + [if negative then NINT + v else v]);
  }

  lemma CoseKeyFits(pk: seq<byte>)
    requires |pk| == 32
    ensures Fits(CoseKey(pk))
  {
    var ps := CoseKey(pk).pairs;
    assert Fits(UInt(1)) && Fits(UInt(3)) && Fits(NInt(7)) && Fits(NInt(0)) && Fits(UInt(6)) && Fits(NInt(1))
      && Fits(Bytes(pk));
    assert PairFits(ps[3]);
    assert PairFits(ps[2]);
    assert PairFits(ps[1]);
    assert PairFits(ps[0]);
    assert ps[1..][1..] == ps[2..] && ps[2..][1..] == ps[3..] && ps[3..][1..] == [];
    assert PairsFit(ps[3..]);
    assert PairsFit(ps[2..]);
    assert PairsFit(ps[1..]);
    assert PairsFit(ps);
  }

  /** The point is read back from the key under its label, whatever follows the key. */
  lemma CoseKeyReadsBack(pk: seq<byte>, rest: seq<byte>)
    requires |pk| == 32
    ensures MapInt(Encode(CoseKey(pk)) + rest, -2) == Found(Encode(Bytes(pk)))
    ensures StrBytes(Encode(Bytes(pk))) == Some(pk)
  {
    var ps := CoseKey(pk).pairs;
    assert ps[1..][1..] == ps[2..] && ps[2..][1..] == ps[3..] && ps[3..][1..] == [];
    CoseKeyFits(pk);
    MapIntFindsFirst(ps, rest, -2);
    assert FirstInt(ps[3..], -2) == Found(Encode(Bytes(pk)));
    assert FirstInt(ps[1..], -2) == FirstInt(ps[2..], -2) == FirstInt(ps[3..], -2);
    StrBytesIff(pk, false);
  }

  // ---------------------------------------------------------------- walking

  method SkipItem(d: seq<byte>, p: nat) returns (r: Option<nat>)
    ensures r == Skip(d, p)
    decreases Left(d, p)
  {
    if p >= |d| {
      return None;
    }
    var major := d[p] / 32;
    if major == 7 {
      return Some(p + 1);
    }
    if major == 6 {
      return None;
    }
    var l := ReadLen(d, p);
    if l.None? {
      return None;
    }
    var q := p + l.value.size;
    if major < 2 {
      return Some(q);
    }
    if major < 4 {
      return Some(q + l.value.value);
    }
    var n := if major == 4 then l.value.value else 2 * l.value.value;
    var k := 0;
    while k < n
      invariant 0 <= k <= n && p < q && SkipMany(d, q, n - k) == Skip(d, p)
    {
      var next := SkipItem(d, q);
      if next.None? {
        return None;
      }
      q := next.value;
      k := k + 1;
    }
    return Some(q);
  }

  method MapIntLookup(d: seq<byte>, key: int) returns (r: Lookup)
    ensures r == MapInt(d, key)
  {
    if |d| == 0 || d[0] / 32 != 5 {
      return Absent;
    }
    var l := ReadLen(d, 0);
    if l.None? {
      return Absent;
    }
    var p: nat, n: nat := l.value.size, l.value.value;
    var k := 0;
    while k < n
      invariant 0 <= k <= n && MapIntFrom(d, p, n - k, key) == MapInt(d, key)
    {
      if p >= |d| {
        return Absent;
      }
      var major := d[p] / 32;
      if major > 1 {
        return Absent;
      }
      var kl := ReadLen(d, p);
      if kl.None? {
        return Absent;
      }
      var kval := if major == 0 then kl.value.value else -1 - kl.value.value;
      var vs := p + kl.value.size;
      var end := SkipItem(d, vs);
      if end.None? {
        return Absent;
      }
      p := end.value;
      if kval == key {
        return if p <= |d| then Found(d[vs..p]) else OutOfBounds;
      }
      k := k + 1;
    }
    return Absent;
  }

  method MapTextLookup(d: seq<byte>, key: seq<byte>) returns (r: Lookup)
    ensures r == MapText(d, key)
  {
    if |d| == 0 || d[0] / 32 != 5 {
      return Absent;
    }
    var l := ReadLen(d, 0);
    if l.None? {
      return Absent;
    }
    var p: nat, n: nat := l.value.size, l.value.value;
    var k := 0;
    while k < n
      invariant 0 <= k <= n && MapTextFrom(d, p, n - k, key) == MapText(d, key)
    {
      if p >= |d| {
        return Absent;
      }
      if d[p] / 32 != 3 {
        var one := SkipItem(d, p);
        if one.None? {
          return Absent;
        }
        var two := SkipItem(d, one.value);
        if two.None? {
          assert SkipMany(d, one.value, 1).None?;
          return Absent;
        }
        OtherKeyStep(d, p, n - k - 1, key, one.value, two.value);
        p := two.value;
      } else {
        var kl := ReadLen(d, p);
        if kl.None? {
          return Absent;
        }
        var ks := p + kl.value.size;
        var vs := ks + kl.value.value;
        var end := SkipItem(d, vs);
        if end.None? {
          return Absent;
        }
        p := end.value;
        if vs - ks == |key| && d[ks..vs] == key {
          return if p <= |d| then Found(d[vs..p]) else OutOfBounds;
        }
      }
      k := k + 1;
    }
    return Absent;
  }
}
