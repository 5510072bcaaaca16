/** The Poly1305 one-time authenticator on five 26-bit limbs, against the arithmetic
    modulo 2^130 - 5 of section 2.5 of RFC 8439. */
module Poly1305 {
  import opened Bits
  import opened LittleEndian

  const P: int := 0x3_FFFF_FFFF_FFFF_FFFF_FFFF_FFFF_FFFF_FFFB
  const B26: int := 0x400_0000
  const B52: int := 0x10_0000_0000_0000
  const B78: int := 0x4000_0000_0000_0000_0000
  const B104: int := 0x100_0000_0000_0000_0000_0000_0000
  const K8: int := 0x100
  const K16: int := 0x1_0000
  const K24: int := 0x100_0000
  const W32: int := 0x1_0000_0000
  const W64: int := 0x1_0000_0000_0000_0000
  const W96: int := 0x1_0000_0000_0000_0000_0000_0000
  const W128: int := 0x1_0000_0000_0000_0000_0000_0000_0000_0000

  // ---------------------------------------------------------------- specification

  /** A block read little-endian with one more bit beyond its bytes. */
  function BlockNumber(block: seq<byte>): nat {
    Decode(block + [1])
  }

  /** Horner evaluation over the blocks of `msg`. */
  function Absorb(acc: nat, msg: seq<byte>, r: nat): nat
    decreases |msg|
  {
    if |msg| == 0 then acc
    else
      var n := Min(16, |msg|);
      Absorb(((acc + BlockNumber(msg[..n])) * r) % P, msg[n..], r)
  }

  /** The clamped r of a 32-byte one-time key. */
  function Clamped(r: seq<byte>): (c: seq<byte>)
    requires |r| == 16
    ensures |c| == 16
  {
    [r[0], r[1], r[2], r[3] % 16,
     r[4] - r[4] % 4, r[5], r[6], r[7] % 16,
     r[8] - r[8] % 4, r[9], r[10], r[11] % 16,
     r[12] - r[12] % 4, r[13], r[14], r[15] % 16]
  }

  /** The accumulator after the whole message, before s is added. */
  function Residue(key: seq<byte>, msg: seq<byte>): nat
    requires |key| == 32
  {
    Absorb(0, msg, Decode(Clamped(key[..16])))
  }

  /** The tag as the RFC defines it. */
  function RfcTag(key: seq<byte>, msg: seq<byte>): nat
    requires |key| == 32
  {
    (Residue(key, msg) + Decode(key[16..])) % W128
  }

  lemma {:induction false} AbsorbIsReduced(acc: nat, msg: seq<byte>, r: nat)
    requires acc < P
    ensures Absorb(acc, msg, r) < P
    decreases |msg|
  {
    if |msg| != 0 {
      var n := Min(16, |msg|);
      AbsorbIsReduced(((acc + BlockNumber(msg[..n])) * r) % P, msg[n..], r);
    }
  }

  // ---------------------------------------------------------------- limbs

  datatype Limbs = Limbs(a0: u64, a1: u64, a2: u64, a3: u64, a4: u64) {
    function Value(): nat {
      a0 + a1 * B26 + a2 * B52 + a3 * B78 + a4 * B104
    }

    predicate Normal() {
      a0 < B26 && a1 < B26 && a2 < B26 && a3 < B26 && a4 < B26
    }

    /** What the block loop keeps: every limb but the second is normal. */
    predicate Loose() {
      a0 < B26 && a1 < B26 + 0x1000 && a2 < B26 && a3 < B26 && a4 < B26
    }

    predicate Below(b: nat) {
      a0 < b && a1 < b && a2 < b && a3 < b && a4 < b
    }
  }

  /** Overlapping word reads shifted into five limbs; byte 16 sits above the last word. */
  function ToLimbs(c: seq<byte>): (h: Limbs)
    requires |c| == 17
  {
    OrDisjointTop(DecodeU32(c, 12) / 0x100, c[16]);
    Limbs(DecodeU32(c, 0) % 0x400_0000,
          DecodeU32(c, 3) / 4 % 0x400_0000,
          DecodeU32(c, 6) / 16 % 0x400_0000,
          DecodeU32(c, 9) / 64 % 0x400_0000,
          Or(DecodeU32(c, 12) / 0x100, c[16] * K24))
  }

  lemma OrDisjointTop(a: nat, b: nat)
    requires a < 0x100_0000
    ensures Or(a, b * 0x100_0000) == a + b * 0x100_0000
  {
    OrShifted(a, b, b * 0x100_0000, 24);
  }

  lemma LeThree(s: seq<byte>, i: nat)
    requires i + 3 <= |s|
    ensures DecodeFrom(s, i) == s[i] + K8 * s[i + 1] + K16 * s[i + 2] + K24 * DecodeFrom(s, i + 3)
  {
    assert DecodeFrom(s, i + 1) == s[i + 1] + K8 * DecodeFrom(s, i + 2);
    assert DecodeFrom(s, i + 2) == s[i + 2] + K8 * DecodeFrom(s, i + 3);
  }

  lemma LeWord(s: seq<byte>, i: nat)
    requires i + 4 <= |s|
    ensures DecodeFrom(s, i) == DecodeU32(s, i) + W32 * DecodeFrom(s, i + 4)
  {
    LeThree(s, i);
    assert DecodeFrom(s, i + 3) == s[i + 3] + K8 * DecodeFrom(s, i + 4);
  }

  lemma LeWords(s: seq<byte>)
    requires |s| == 16
    ensures Decode(s) == DecodeU32(s, 0) + W32 * DecodeU32(s, 4) + W64 * DecodeU32(s, 8) + W96 * DecodeU32(s, 12)
  {
    LeWord(s, 0);
    LeWord(s, 4);
    LeWord(s, 8);
    LeWord(s, 12);
  }

  lemma Cut1(c: seq<byte>, i: nat)
    requires i + 4 <= |c|
    ensures DecodeU32(c, i) % 0x400_0000 == c[i] + K8 * c[i + 1] + K16 * c[i + 2] + K24 * (c[i + 3] % 4)
  {
    assert DecodeU32(c, i)
      == c[i] + K8 * c[i + 1] + K16 * c[i + 2] + K24 * (c[i + 3] % 4) + 0x400_0000 * (c[i + 3] / 4 as int);
  }

  lemma Cut4(c: seq<byte>, i: nat)
    requires i + 4 <= |c|
    ensures DecodeU32(c, i) / 4 % 0x400_0000
      == c[i] / 4 + 0x40 * (c[i + 1] as int) + 0x4000 * (c[i + 2] as int) + 0x40_0000 * (c[i + 3] % 16 as int)
  {
    var low := c[i] / 4 + 0x40 * (c[i + 1] as int) + 0x4000 * (c[i + 2] as int) + 0x40_0000 * (c[i + 3] % 16 as int);
    assert DecodeU32(c, i) == 4 * (low + 0x400_0000 * (c[i + 3] / 16 as int)) + c[i] % 4;
    assert DecodeU32(c, i) / 4 == low + 0x400_0000 * (c[i + 3] / 16 as int);
  }

  lemma Cut16(c: seq<byte>, i: nat)
    requires i + 4 <= |c|
    ensures DecodeU32(c, i) / 16 % 0x400_0000
      == c[i] / 16 + 0x10 * (c[i + 1] as int) + 0x1000 * (c[i + 2] as int) + 0x10_0000 * (c[i + 3] % 64 as int)
  {
    var low := c[i] / 16 + 0x10 * (c[i + 1] as int) + 0x1000 * (c[i + 2] as int) + 0x10_0000 * (c[i + 3] % 64 as int);
    assert DecodeU32(c, i) == 16 * (low + 0x400_0000 * (c[i + 3] / 64 as int)) + c[i] % 16;
    assert DecodeU32(c, i) / 16 == low + 0x400_0000 * (c[i + 3] / 64 as int);
  }

  lemma Cut64(c: seq<byte>, i: nat)
    requires i + 4 <= |c|
    ensures DecodeU32(c, i) / 64 % 0x400_0000
      == c[i] / 64 + 4 * (c[i + 1] as int) + 0x400 * (c[i + 2] as int) + 0x4_0000 * (c[i + 3] as int)
  {
    var low := c[i] / 64 + 4 * (c[i + 1] as int) + 0x400 * (c[i + 2] as int) + 0x4_0000 * (c[i + 3] as int);
    assert DecodeU32(c, i) == 64 * low + c[i] % 64;
  }

  lemma JoinLimbs(b0: byte, b1: byte, b2: byte, b3: byte, b4: byte, b5: byte, b6: byte, b7: byte, b8: byte,
                  b9: byte, b10: byte, b11: byte, b12: byte, top: int)
    ensures (b0 + K8 * b1 + K16 * b2 + K24 * (b3 % 4))
            + (b3 / 4 + 0x40 * (b4 as int) + 0x4000 * (b5 as int) + 0x40_0000 * (b6 % 16)) * B26
            + (b6 / 16 + 0x10 * (b7 as int) + 0x1000 * (b8 as int) + 0x10_0000 * (b9 % 64)) * B52
            + (b9 / 64 + 4 * (b10 as int) + 0x400 * (b11 as int) + 0x4_0000 * (b12 as int)) * B78
            + top * B104
         == b0 + K8 * b1 + K16 * b2
            + K24 * (b3 + K8 * b4 + K16 * b5
            + K24 * (b6 + K8 * b7 + K16 * b8
            + K24 * (b9 + K8 * b10 + K16 * b11 + K24 * b12 + W32 * top)))
  {
  }

  /** Seventeen bytes, three at a time, the last four together. */
  lemma ByThrees(c: seq<byte>, top: int)
    requires |c| == 17 && top == c[13] + K8 * c[14] + K16 * c[15] + K24 * c[16]
    ensures Decode(c) == c[0] + K8 * c[1] + K16 * c[2]
                         + K24 * (c[3] + K8 * c[4] + K16 * c[5]
                                  + K24 * (c[6] + K8 * c[7] + K16 * c[8]
                                           + K24 * (c[9] + K8 * c[10] + K16 * c[11] + K24 * c[12] + W32 * top)))
  {
    LeThree(c, 0);
    LeThree(c, 3);
    LeThree(c, 6);
    LeThree(c, 9);
    LeWord(c, 12);
    assert DecodeFrom(c, 16) == c[16] + K8 * DecodeFrom(c, 17);
  }

  /** The five limbs are the 17-byte number, and they are short enough for the products. */
  lemma ToLimbsValue(c: seq<byte>)
    requires |c| == 17
    ensures ToLimbs(c).Value() == Decode(c)
    ensures ToLimbs(c).a0 < B26 && ToLimbs(c).a1 < B26 && ToLimbs(c).a2 < B26 && ToLimbs(c).a3 < B26
    ensures ToLimbs(c).a4 == c[13] + K8 * c[14] + K16 * c[15] + K24 * c[16]
  {
    var h := ToLimbs(c);
    var top := c[13] + K8 * c[14] + K16 * c[15] + K24 * c[16];
    assert h.a4 == top by { OrDisjointTop(DecodeU32(c, 12) / 0x100, c[16]); }
    ByThrees(c, top);
    assert h.a0 == c[0] + K8 * c[1] + K16 * c[2] + K24 * (c[3] % 4) by { Cut1(c, 0); }
    assert h.a1 == c[3] / 4 + 0x40 * (c[4] as int) + 0x4000 * (c[5] as int) + 0x40_0000 * (c[6] % 16 as int) by {
      Cut4(c, 3);
    }
    assert h.a2 == c[6] / 16 + 0x10 * (c[7] as int) + 0x1000 * (c[8] as int) + 0x10_0000 * (c[9] % 64 as int) by {
      Cut16(c, 6);
    }
    assert h.a3 == c[9] / 64 + 4 * (c[10] as int) + 0x400 * (c[11] as int) + 0x4_0000 * (c[12] as int) by {
      Cut64(c, 9);
    }
    JoinLimbs(c[0], c[1], c[2], c[3], c[4], c[5], c[6], c[7], c[8], c[9], c[10], c[11], c[12], top);
  }

  // ---------------------------------------------------------------- one block

  function Dot(h: Limbs, x0: u64, x1: u64, x2: u64, x3: u64, x4: u64): (d: u64)
    requires h.Below(0x1000_0000)
    requires x0 < 0x2000_0000 && x1 < 0x2000_0000 && x2 < 0x2000_0000 && x3 < 0x2000_0000 && x4 < 0x2000_0000
    ensures d <= 5 * 0x1000_0000 * 0x2000_0000
  {
    ProductBound(h.a0, x0, 0x1000_0000, 0x2000_0000);
    ProductBound(h.a1, x1, 0x1000_0000, 0x2000_0000);
    ProductBound(h.a2, x2, 0x1000_0000, 0x2000_0000);
    ProductBound(h.a3, x3, 0x1000_0000, 0x2000_0000);
    ProductBound(h.a4, x4, 0x1000_0000, 0x2000_0000);
    h.a0 * x0 + h.a1 * x1 + h.a2 * x2 + h.a3 * x3 + h.a4 * x4
  }

  lemma ProductBound(a: nat, b: nat, x: nat, y: nat)
    requires a <= x && b <= y
    ensures 0 <= a * b <= x * y
  {
    assert a * b <= a * y;
    assert a * y <= x * y;
  }

  /** The five column sums, with the columns of weight 2^130 and above folded in times 5. */
  function Columns(h: Limbs, r: Limbs): (d: Limbs)
    requires h.Below(0x1000_0000) && r.Normal()
    ensures d.Below(0x1000_0000_0000_0000)
  {
    var s1, s2, s3, s4 := r.a1 * 5, r.a2 * 5, r.a3 * 5, r.a4 * 5;
    Limbs(Dot(h, r.a0, s4, s3, s2, s1),
          Dot(h, r.a1, r.a0, s4, s3, s2),
          Dot(h, r.a2, r.a1, r.a0, s4, s3),
          Dot(h, r.a3, r.a2, r.a1, r.a0, s4),
          Dot(h, r.a4, r.a3, r.a2, r.a1, r.a0))
  }

  lemma Distribute(x: nat, y0: nat, y1: nat, y2: nat, y3: nat, y4: nat)
    ensures x * (y0 + y1 + y2 + y3 + y4) == x * y0 + x * y1 + x * y2 + x * y3 + x * y4
  {
  }

  lemma Row(x: nat, r: Limbs)
    ensures x * r.Value() == x * r.a0 + B26 * (x * r.a1) + B52 * (x * r.a2) + B78 * (x * r.a3) + B104 * (x * r.a4)
  {
    Distribute(x, r.a0, r.a1 * B26, r.a2 * B52, r.a3 * B78, r.a4 * B104);
  }

  lemma TimesFive(a: nat, b: nat)
    ensures a * (b * 5) == 5 * (a * b)
  {
  }

  /** The columns, product by product: what five-folding leaves behind is a multiple of P. */
  lemma Recombine(p: seq<seq<int>>, q0: int, q1: int, q2: int, q3: int, q4: int)
    requires |p| == 5 && |p[0]| == |p[1]| == |p[2]| == |p[3]| == |p[4]| == 5
    requires q0 == p[0][0] + B26 * p[0][1] + B52 * p[0][2] + B78 * p[0][3] + B104 * p[0][4]
    requires q1 == p[1][0] + B26 * p[1][1] + B52 * p[1][2] + B78 * p[1][3] + B104 * p[1][4]
    requires q2 == p[2][0] + B26 * p[2][1] + B52 * p[2][2] + B78 * p[2][3] + B104 * p[2][4]
    requires q3 == p[3][0] + B26 * p[3][1] + B52 * p[3][2] + B78 * p[3][3] + B104 * p[3][4]
    requires q4 == p[4][0] + B26 * p[4][1] + B52 * p[4][2] + B78 * p[4][3] + B104 * p[4][4]
    ensures (p[0][0] + 5 * p[1][4] + 5 * p[2][3] + 5 * p[3][2] + 5 * p[4][1]
             + (p[0][1] + p[1][0] + 5 * p[2][4] + 5 * p[3][3] + 5 * p[4][2]) * B26
             + (p[0][2] + p[1][1] + p[2][0] + 5 * p[3][4] + 5 * p[4][3]) * B52
             + (p[0][3] + p[1][2] + p[2][1] + p[3][0] + 5 * p[4][4]) * B78
             + (p[0][4] + p[1][3] + p[2][2] + p[3][1] + p[4][0]) * B104
             - (q0 + B26 * q1 + B52 * q2 + B78 * q3 + B104 * q4)) % P == 0
  {
    var high := (p[1][4] + p[2][3] + p[3][2] + p[4][1]) + (p[2][4] + p[3][3] + p[4][2]) * B26
                + (p[3][4] + p[4][3]) * B52 + p[4][4] * B78;
    MultipleOfP(-high);
  }

  lemma MultipleOfP(q: int)
    ensures P * q % P == 0
  {
  }

  lemma RowsValue(h: Limbs, v: nat)
    ensures h.Value() * v == h.a0 * v + B26 * (h.a1 * v) + B52 * (h.a2 * v) + B78 * (h.a3 * v) + B104 * (h.a4 * v)
  {
    Distribute(v, h.a0, h.a1 * B26, h.a2 * B52, h.a3 * B78, h.a4 * B104);
  }

  lemma DotFive(h: Limbs, x0: u64, x1: u64, x2: u64, x3: u64, x4: u64, e0: int, e1: int, e2: int, e3: int, e4: int)
    requires h.Below(0x1000_0000)
    requires x0 < 0x2000_0000 && x1 < 0x2000_0000 && x2 < 0x2000_0000 && x3 < 0x2000_0000 && x4 < 0x2000_0000
    requires h.a0 * x0 == e0 && h.a1 * x1 == e1 && h.a2 * x2 == e2 && h.a3 * x3 == e3 && h.a4 * x4 == e4
    ensures Dot(h, x0, x1, x2, x3, x4) == e0 + e1 + e2 + e3 + e4
  {
  }

  function Products(h: Limbs, r: Limbs): (p: seq<seq<int>>)
    ensures |p| == 5 && |p[0]| == |p[1]| == |p[2]| == |p[3]| == |p[4]| == 5
  {
    [[h.a0 * r.a0, h.a0 * r.a1, h.a0 * r.a2, h.a0 * r.a3, h.a0 * r.a4],
     [h.a1 * r.a0, h.a1 * r.a1, h.a1 * r.a2, h.a1 * r.a3, h.a1 * r.a4],
     [h.a2 * r.a0, h.a2 * r.a1, h.a2 * r.a2, h.a2 * r.a3, h.a2 * r.a4],
     [h.a3 * r.a0, h.a3 * r.a1, h.a3 * r.a2, h.a3 * r.a3, h.a3 * r.a4],
     [h.a4 * r.a0, h.a4 * r.a1, h.a4 * r.a2, h.a4 * r.a3, h.a4 * r.a4]]
  }

  lemma LowColumns(h: Limbs, r: Limbs, p: seq<seq<int>>)
    requires h.Below(0x1000_0000) && r.Normal() && p == Products(h, r)
    ensures var d := Columns(h, r);
      && d.a0 == p[0][0] + 5 * p[1][4] + 5 * p[2][3] + 5 * p[3][2] + 5 * p[4][1]
      && d.a1 == p[0][1] + p[1][0] + 5 * p[2][4] + 5 * p[3][3] + 5 * p[4][2]
  {
    TimesFive(h.a1, r.a4); TimesFive(h.a2, r.a3); TimesFive(h.a3, r.a2); TimesFive(h.a4, r.a1);
    DotFive(h, r.a0, r.a4 * 5, r.a3 * 5, r.a2 * 5, r.a1 * 5, p[0][0], 5 * p[1][4], 5 * p[2][3], 5 * p[3][2],
      5 * p[4][1]);
    TimesFive(h.a2, r.a4); TimesFive(h.a3, r.a3); TimesFive(h.a4, r.a2);
    DotFive(h, r.a1, r.a0, r.a4 * 5, r.a3 * 5, r.a2 * 5, p[0][1], p[1][0], 5 * p[2][4], 5 * p[3][3], 5 * p[4][2]);
  }

  lemma HighColumns(h: Limbs, r: Limbs, p: seq<seq<int>>)
    requires h.Below(0x1000_0000) && r.Normal() && p == Products(h, r)
    ensures var d := Columns(h, r);
      && d.a2 == p[0][2] + p[1][1] + p[2][0] + 5 * p[3][4] + 5 * p[4][3]
      && d.a3 == p[0][3] + p[1][2] + p[2][1] + p[3][0] + 5 * p[4][4]
      && d.a4 == p[0][4] + p[1][3] + p[2][2] + p[3][1] + p[4][0]
  {
    TimesFive(h.a3, r.a4); TimesFive(h.a4, r.a3);
    DotFive(h, r.a2, r.a1, r.a0, r.a4 * 5, r.a3 * 5, p[0][2], p[1][1], p[2][0], 5 * p[3][4], 5 * p[4][3]);
    TimesFive(h.a4, r.a4);
    DotFive(h, r.a3, r.a2, r.a1, r.a0, r.a4 * 5, p[0][3], p[1][2], p[2][1], p[3][0], 5 * p[4][4]);
    DotFive(h, r.a4, r.a3, r.a2, r.a1, r.a0, p[0][4], p[1][3], p[2][2], p[3][1], p[4][0]);
  }

  lemma RowOf(x: nat, r: Limbs, e: seq<int>)
    requires e == [x * r.a0, x * r.a1, x * r.a2, x * r.a3, x * r.a4]
    ensures x * r.Value() == e[0] + B26 * e[1] + B52 * e[2] + B78 * e[3] + B104 * e[4]
  {
    Row(x, r);
  }

  /** The columns are the product less a multiple of 2^130 - 5. */
  lemma ColumnsValue(h: Limbs, r: Limbs)
    requires h.Below(0x1000_0000) && r.Normal()
    ensures (Columns(h, r).Value() - h.Value() * r.Value()) % P == 0
  {
    var v := r.Value();
    var p := Products(h, r);
    RowsValue(h, v);
    RowOf(h.a0, r, p[0]);
    RowOf(h.a1, r, p[1]);
    RowOf(h.a2, r, p[2]);
    RowOf(h.a3, r, p[3]);
    RowOf(h.a4, r, p[4]);
    LowColumns(h, r, p);
    HighColumns(h, r, p);
    Recombine(p, h.a0 * v, h.a1 * v, h.a2 * v, h.a3 * v, h.a4 * v);
  }

  /** The part of a column that stays, and the part that moves to the next one. */
  function Stay(d: nat): (low: nat)
    ensures low < B26
  {
    d % 0x400_0000
  }

  function Move(d: nat): (c: nat)
    ensures Stay(d) + c * B26 == d
    ensures d < 0x1100_0000_0000_0000 ==> c < 0x44_0000_0000
    ensures d < 0x800_0000 ==> c <= 1
    ensures d < 0x40_0000_0000 ==> c < 0x1000
  {
    d / 0x400_0000
  }

  /** One pass of carries from the lowest column up; the top carry comes back in times 5. */
  function Carried(d: Limbs): (h: Limbs)
    requires d.Below(0x1000_0000_0000_0000)
    ensures h.Loose()
  {
    var d1 := d.a1 + Move(d.a0);
    var d2 := d.a2 + Move(d1);
    var d3 := d.a3 + Move(d2);
    var d4 := d.a4 + Move(d3);
    var h0 := Stay(d.a0) + Move(d4) * 5;
    Limbs(Stay(h0), Stay(d1) + Move(h0), Stay(d2), Stay(d3), Stay(d4))
  }

  lemma CarryIdentity(d0: int, d1: int, d2: int, d3: int, d4: int, s0: int, s1: int, s2: int, s3: int, s4: int,
                      c0: int, c1: int, c2: int, c3: int, c4: int)
    requires s0 + c0 * B26 == d0 && s1 + c1 * B26 == d1 + c0 && s2 + c2 * B26 == d2 + c1
    requires s3 + c3 * B26 == d3 + c2 && s4 + c4 * B26 == d4 + c3
    ensures (s0 + 5 * c4 + s1 * B26 + s2 * B52 + s3 * B78 + s4 * B104
             - (d0 + d1 * B26 + d2 * B52 + d3 * B78 + d4 * B104)) % P == 0
  {
    MultipleOfP(-c4);
  }

  lemma CarriedValue(d: Limbs)
    requires d.Below(0x1000_0000_0000_0000)
    ensures (Carried(d).Value() - d.Value()) % P == 0
  {
    var d1 := d.a1 + Move(d.a0);
    var d2 := d.a2 + Move(d1);
    var d3 := d.a3 + Move(d2);
    var d4 := d.a4 + Move(d3);
    var h0 := Stay(d.a0) + Move(d4) * 5;
    assert Carried(d).Value() == h0 + Stay(d1) * B26 + Stay(d2) * B52 + Stay(d3) * B78 + Stay(d4) * B104;
    CarryIdentity(d.a0, d.a1, d.a2, d.a3, d.a4, Stay(d.a0), Stay(d1), Stay(d2), Stay(d3), Stay(d4),
                  Move(d.a0), Move(d1), Move(d2), Move(d3), Move(d4));
  }

  // ---------------------------------------------------------------- finalisation

  /** The carries from the second limb up, then once round through the first. */
  function Settled(h: Limbs): (n: Limbs)
    requires h.Loose()
    ensures n.Normal()
  {
    var h2 := h.a2 + Move(h.a1);
    var h3 := h.a3 + Move(h2);
    var h4 := h.a4 + Move(h3);
    var h0 := h.a0 + Move(h4) * 5;
    Limbs(Stay(h0), Stay(h.a1) + Move(h0), Stay(h2), Stay(h3), Stay(h4))
  }

  lemma SettledValue(h: Limbs)
    requires h.Loose()
    ensures (Settled(h).Value() - h.Value()) % P == 0
  {
    var c1 := Move(h.a1);
    var c2 := Move(h.a2 + c1);
    var c3 := Move(h.a3 + c2);
    var c4 := Move(h.a4 + c3);
    CarryIdentity(h.a0, h.a1, h.a2, h.a3, h.a4, h.a0, Stay(h.a1), Stay(h.a2 + c1), Stay(h.a3 + c2), Stay(h.a4 + c3),
                  0, c1, c2, c3, c4);
    assert Settled(h).a0 + Settled(h).a1 * B26 == h.a0 + 5 * c4 + Stay(h.a1) * B26;
  }

  function Wrap64(x: int): u64 {
    x % 0x1_0000_0000_0000_0000
  }

  function Not64(x: u64): u64 {
    U64_MAX - x
  }

  /** (h & !mask) | (g & mask) */
  function Select(h: u64, g: u64, mask: u64): (x: u64)
    requires mask == 0 || mask == U64_MAX
    ensures x == if mask == 0 then h else g
  {
    SelectIs(h, g);
    Or(And(h, Not64(mask)), And(g, mask))
  }

  lemma SelectIs(h: u64, g: u64)
    ensures And(h, U64_MAX) == h && And(g, U64_MAX) == g
    ensures Or(h, 0) == h && Or(0, g) == g
  {
    Pow2Values();
    AndOnes(h, 64);
    AndOnes(g, 64);
    OrZero(h);
    OrZero(g);
  }

  /** `h + 5` with its carries moved up; the top limb keeps the carry out of 2^130. */
  function PlusFive(h: Limbs): (g: Limbs)
    requires h.Normal()
    ensures g.a0 < B26 && g.a1 < B26 && g.a2 < B26 && g.a3 < B26 && g.a4 <= B26
    ensures g.Value() == h.Value() + 5
  {
    var g0 := h.a0 + 5;
    var g1 := h.a1 + Move(g0);
    var g2 := h.a2 + Move(g1);
    var g3 := h.a3 + Move(g2);
    Limbs(Stay(g0), Stay(g1), Stay(g2), Stay(g3), h.a4 + Move(g3))
  }

  /** All ones when `h + 5` reaches 2^130, all zeros when the subtraction underflows. */
  function SubtractMask(g4: u64): (mask: u64)
    requires g4 <= B26
    ensures mask == if g4 == B26 then U64_MAX else 0
  {
    Wrap64(Wrap64(g4 - B26) / 0x8000_0000_0000_0000 - 1)
  }

  /** `h` less 2^130 - 5 when that does not underflow, chosen by the mask. */
  function Subtracted(h: Limbs): Limbs
    requires h.Normal()
  {
    var g := PlusFive(h);
    var mask := SubtractMask(g.a4);
    var g4 := Wrap64(g.a4 - B26);
    Limbs(Select(h.a0, g.a0, mask), Select(h.a1, g.a1, mask), Select(h.a2, g.a2, mask),
          Select(h.a3, g.a3, mask), Select(h.a4, g4, mask))
  }

  lemma NormalBound(h: Limbs)
    requires h.Normal()
    ensures h.Value() < P + 5
    ensures h.Value() % P == if h.Value() < P then h.Value() else h.Value() - P
  {
  }

  lemma SubtractedIs(h: Limbs, g: Limbs)
    requires h.Normal() && g == PlusFive(h)
    ensures Subtracted(h) == if g.a4 == B26 then Limbs(g.a0, g.a1, g.a2, g.a3, 0) else h
  {
    assert SubtractMask(g.a4) == if g.a4 == B26 then U64_MAX else 0;
  }

  /** Normal limbs are brought to the one residue below 2^130 - 5. */
  lemma SubtractedValue(h: Limbs)
    requires h.Normal()
    ensures Subtracted(h).Normal()
    ensures Subtracted(h).Value() == if h.Value() < P then h.Value() else h.Value() - P
  {
    var g := PlusFive(h);
    SubtractedIs(h, g);
    TopCarry(h, g);
  }

  /** The carry out of 2^130 tells whether the subtraction is due. */
  lemma TopCarry(h: Limbs, g: Limbs)
    requires h.Normal() && g.Value() == h.Value() + 5
    requires g.a0 < B26 && g.a1 < B26 && g.a2 < B26 && g.a3 < B26 && g.a4 <= B26
    ensures g.a4 == B26 <==> h.Value() >= P
    ensures g.a4 == B26 ==> Limbs(g.a0, g.a1, g.a2, g.a3, 0).Value() == h.Value() - P
  {
    NormalBound(h);
  }

  // ---------------------------------------------------------------- tag words

  /** Four 32-bit words out of five 26-bit limbs, each limb cut where the word ends. */
  function ToWords(h: Limbs): (w: seq<u32>)
    requires h.Normal()
    ensures |w| == 4
  {
    [Low32(Or(h.a0, h.a1 * 0x400_0000)),
     Low32(Or(h.a1 / 0x40, h.a2 * 0x10_0000)),
     Low32(Or(h.a2 / 0x1000, h.a3 * 0x4000)),
     Low32(Or(h.a3 / 0x4_0000, h.a4 * 0x100))]
  }

  /** Each or joins two fields that do not overlap. */
  lemma ToWordsAreSums(h: Limbs)
    requires h.Normal()
    ensures ToWords(h) == [Low32(h.a0 + h.a1 * 0x400_0000), Low32(h.a1 / 0x40 + h.a2 * 0x10_0000),
                           Low32(h.a2 / 0x1000 + h.a3 * 0x4000), Low32(h.a3 / 0x4_0000 + h.a4 * 0x100)]
  {
    OrShifted(h.a0, h.a1, h.a1 * 0x400_0000, 26);
    OrShifted(h.a1 / 0x40, h.a2, h.a2 * 0x10_0000, 20);
    OrShifted(h.a2 / 0x1000, h.a3, h.a3 * 0x4000, 14);
    OrShifted(h.a3 / 0x4_0000, h.a4, h.a4 * 0x100, 8);
  }

  function FromWords(w: seq<u32>): nat
    requires |w| == 4
  {
    w[0] + W32 * w[1] + W64 * w[2] + W96 * w[3]
  }

  function Low32(x: nat): u32 {
    x % 0x1_0000_0000
  }

  function High32(x: nat): (q: nat)
    ensures x == Low32(x) + W32 * q
  {
    x / 0x1_0000_0000
  }

  lemma Low32At26(a: nat, b: nat)
    requires a < 0x400_0000
    ensures Low32(a + b * 0x400_0000) == a + 0x400_0000 * (b % 0x40)
  {
    assert a + b * 0x400_0000 == a + 0x400_0000 * (b % 0x40) + 0x1_0000_0000 * (b / 0x40);
  }

  lemma Low32At20(a: nat, b: nat)
    requires a < 0x10_0000
    ensures Low32(a + b * 0x10_0000) == a + 0x10_0000 * (b % 0x1000)
  {
    assert a + b * 0x10_0000 == a + 0x10_0000 * (b % 0x1000) + 0x1_0000_0000 * (b / 0x1000);
  }

  lemma Low32At14(a: nat, b: nat)
    requires a < 0x4000
    ensures Low32(a + b * 0x4000) == a + 0x4000 * (b % 0x4_0000)
  {
    assert a + b * 0x4000 == a + 0x4000 * (b % 0x4_0000) + 0x1_0000_0000 * (b / 0x4_0000);
  }

  lemma Low32At8(a: nat, b: nat)
    requires a < 0x100
    ensures Low32(a + b * 0x100) == a + 0x100 * (b % 0x100_0000)
  {
    assert a + b * 0x100 == a + 0x100 * (b % 0x100_0000) + 0x1_0000_0000 * (b / 0x100_0000);
  }

  lemma JoinWords(a0: int, a1: int, a2: int, a3: int, a4: int)
    ensures (a0 + 0x400_0000 * (a1 % 0x40)) + W32 * (a1 / 0x40 + 0x10_0000 * (a2 % 0x1000))
            + W64 * (a2 / 0x1000 + 0x4000 * (a3 % 0x4_0000)) + W96 * (a3 / 0x4_0000 + 0x100 * (a4 % 0x100_0000))
         == a0 + a1 * B26 + a2 * B52 + a3 * B78 + a4 * B104 - W128 * (a4 / 0x100_0000)
  {
  }

  lemma WordsBelow(w: seq<u32>)
    requires |w| == 4
    ensures FromWords(w) < W128
  {
  }

  lemma ToWordsParts(h: Limbs)
    requires h.Normal()
    ensures var w := ToWords(h);
      && w[0] == h.a0 + 0x400_0000 * (h.a1 % 0x40 as int) && w[1] == h.a1 / 0x40 + 0x10_0000 * (h.a2 % 0x1000 as int)
      && w[2] == h.a2 / 0x1000 + 0x4000 * (h.a3 % 0x4_0000 as int)
      && w[3] == h.a3 / 0x4_0000 + 0x100 * (h.a4 % 0x100_0000 as int)
  {
    ToWordsAreSums(h);
    Low32At26(h.a0, h.a1);
    Low32At20(h.a1 / 0x40, h.a2);
    Low32At14(h.a2 / 0x1000, h.a3);
    Low32At8(h.a3 / 0x4_0000, h.a4);
  }

  lemma ToWordsValue(h: Limbs)
    requires h.Normal()
    ensures FromWords(ToWords(h)) == h.Value() % W128
  {
    var w := ToWords(h);
    ToWordsParts(h);
    JoinWords(h.a0, h.a1, h.a2, h.a3, h.a4);
    assert FromWords(w) == h.Value() - W128 * (h.a4 / 0x100_0000);
    WordsBelow(w);
    ModW128(FromWords(w), h.a4 / 0x100_0000);
  }

  lemma ModW128(x: nat, q: int)
    requires x < W128
    ensures (x + W128 * q) % W128 == x
  {
  }

  /** The words of the residue and of s added word by word, with every carry lost. */
  function AddWords(h: seq<u32>, s: seq<u32>): (t: seq<u32>)
    requires |h| == |s| == 4
    ensures |t| == 4
  {
    [Low32(h[0] as int + s[0]), Low32(h[1] as int + s[1]), Low32(h[2] as int + s[2]), Low32(h[3] as int + s[3])]
  }

  predicate NoCarry(h: seq<u32>, s: seq<u32>)
    requires |h| == |s| == 4
  {
    h[0] + s[0] < W32 && h[1] + s[1] < W32 && h[2] + s[2] < W32
  }

  /** Adding word by word is adding modulo 2^128 exactly when no lower word carries. */
  lemma AddWordsExact(h: seq<u32>, s: seq<u32>)
    requires |h| == |s| == 4
    ensures FromWords(AddWords(h, s)) == (FromWords(h) + FromWords(s)) % W128 <==> NoCarry(h, s)
  {
    var t := AddWords(h, s);
    var k0, k1, k2, k3 := High32(h[0] as int + s[0]), High32(h[1] as int + s[1]), High32(h[2] as int + s[2]),
      High32(h[3] as int + s[3]);
    var lost := W32 * k0 + W64 * k1 + W96 * k2;
    assert FromWords(h) + FromWords(s) == FromWords(t) + lost + W128 * k3;
    WordsBelow(t);
    assert 0 <= lost < W128;
    assert lost == 0 <==> NoCarry(h, s);
  }

  // ---------------------------------------------------------------- the authenticator

  lemma SameResidue(a: int, b: int, c: int)
    requires (a - b) % P == 0 && (b - c) % P == 0
    ensures a % P == c % P
  {
  }

  /** The product with the reduced factor, and by how many times P it differs from the whole one. */
  lemma ReduceFirst(s: nat, v: nat, c: nat, r: nat) returns (y: int, q: int)
    requires s == v + c
    ensures y == (v % P + c) * r && s * r == P * q + y
  {
    var low := v % P;
    y, q := (low + c) * r, v / P * r;
    assert v == P * (v / P) + low;
  }

  lemma StepResidue(d: int, x: int, y: int, q: int)
    requires (d - x) % P == 0 && x == P * q + y
    ensures d % P == y % P
  {
    MultipleOfP(q);
  }

  /** The block's limbs added to the accumulator's, before any carry. */
  function AddLimbs(h: Limbs, c: Limbs): (sum: Limbs)
    requires h.Loose() && c.Below(0x800_0000)
    ensures sum.Below(0x1000_0000)
    ensures sum.Value() == h.Value() + c.Value()
  {
    Limbs(h.a0 + c.a0 as int, h.a1 + c.a1 as int, h.a2 + c.a2 as int, h.a3 + c.a3 as int, h.a4 + c.a4 as int)
  }

  method Multiply(h: Limbs, r: Limbs) returns (d: Limbs)
    requires h.Below(0x1000_0000) && r.Normal()
    ensures d.Below(0x1000_0000_0000_0000)
    ensures (d.Value() - h.Value() * r.Value()) % P == 0
  {
    ColumnsValue(h, r);
    d := Columns(h, r);
  }

  method Carry(d: Limbs) returns (h: Limbs)
    requires d.Below(0x1000_0000_0000_0000)
    ensures h.Loose()
    ensures (h.Value() - d.Value()) % P == 0
  {
    CarriedValue(d);
    h := Carried(d);
  }

  /** One block on limbs is one Horner step, with every limb kept short of 64 bits. */
  method AbsorbBlock(h: Limbs, c: Limbs, r: Limbs) returns (n: Limbs)
    requires h.Loose() && c.Below(0x800_0000) && r.Normal()
    ensures n.Loose()
    ensures n.Value() % P == ((h.Value() % P + c.Value()) * r.Value()) % P
  {
    var sum := Sum(h, c);
    n := MultiplyAndCarry(sum, r);
    ghost var y, q := ReduceFirst(sum.Value(), h.Value(), c.Value(), r.Value());
    StepResidue(n.Value(), sum.Value() * r.Value(), y, q);
  }

  method MultiplyAndCarry(h: Limbs, r: Limbs) returns (n: Limbs)
    requires h.Below(0x1000_0000) && r.Normal()
    ensures n.Loose() && (n.Value() - h.Value() * r.Value()) % P == 0
  {
    var d := Multiply(h, r);
    n := Carry(d);
    SameRemainder(n.Value(), d.Value(), h.Value() * r.Value());
  }

  lemma SameRemainder(a: int, b: int, c: int)
    requires (a - b) % P == 0 && (b - c) % P == 0
    ensures (a - c) % P == 0
  {
  }

  method Sum(h: Limbs, c: Limbs) returns (sum: Limbs)
    requires h.Loose() && c.Below(0x800_0000)
    ensures sum.Below(0x1000_0000) && sum.Value() == h.Value() + c.Value()
  {
    sum := AddLimbs(h, c);
  }

  /** The finalisation leaves the canonical residue in normal limbs. */
  method Finalise(h: Limbs) returns (n: Limbs)
    requires h.Loose()
    ensures n.Normal()
    ensures n.Value() == h.Value() % P
  {
    var t := Settle(h);
    n := Subtract(t);
    ChainResidue(h.Value(), t.Value(), n.Value());
  }

  method Settle(h: Limbs) returns (n: Limbs)
    requires h.Loose()
    ensures n.Normal() && (n.Value() - h.Value()) % P == 0
  {
    SettledValue(h);
    n := Settled(h);
  }

  method Subtract(h: Limbs) returns (n: Limbs)
    requires h.Normal()
    ensures n.Normal() && n.Value() == h.Value() % P
  {
    SubtractedValue(h);
    NormalBound(h);
    n := Subtracted(h);
  }

  lemma ChainResidue(a: int, b: int, c: int)
    requires (b - a) % P == 0 && c == b % P
    ensures c == a % P
  {
  }

  /** A 17-byte chunk: the bytes of a block, a one, and zeros. */
  function Chunk(block: seq<byte>): (c: seq<byte>)
    requires |block| <= 16
    ensures |c| == 17
  {
    block + [1] + seq(16 - |block|, i => 0)
  }

  lemma {:induction false} TrailingZeros(s: seq<byte>, z: seq<byte>, i: nat)
    requires i <= |s| && forall k :: 0 <= k < |z| ==> z[k] == 0
    ensures DecodeFrom(s + z, i) == DecodeFrom(s, i)
    decreases |s| - i
  {
    if i == |s| { ZerosAreZero(s + z, i); } else { TrailingZeros(s, z, i + 1); }
  }

  lemma {:induction false} ZerosAreZero(s: seq<byte>, i: nat)
    requires i <= |s| && forall k :: i <= k < |s| ==> s[k] == 0
    ensures DecodeFrom(s, i) == 0
    decreases |s| - i
  {
    if i < |s| { ZerosAreZero(s, i + 1); }
  }

  lemma ChunkLimbs(block: seq<byte>)
    requires |block| <= 16
    ensures ToLimbs(Chunk(block)).Value() == BlockNumber(block)
    ensures ToLimbs(Chunk(block)).Below(0x800_0000)
  {
    TrailingZeros(block + [1], seq(16 - |block|, i => 0), 0);
    ToLimbsValue(Chunk(block));
  }

  lemma RLimbs(r: seq<byte>)
    requires |r| == 16
    ensures ToLimbs(Clamped(r) + [0]).Value() == Decode(Clamped(r))
    ensures ToLimbs(Clamped(r) + [0]).Normal()
  {
    TrailingZeros(Clamped(r), [0], 0);
    ToLimbsValue(Clamped(r) + [0]);
  }

  function KeyWords(key: seq<byte>): (s: seq<u32>)
    requires |key| == 32
    ensures |s| == 4
  {
    [DecodeU32(key, 16), DecodeU32(key, 20), DecodeU32(key, 24), DecodeU32(key, 28)]
  }

  /** The four 32-bit digits of `v` modulo 2^128. */
  function WordsOf(v: nat): (w: seq<u32>)
    ensures |w| == 4
    ensures FromWords(w) == v % W128
  {
    var v1 := High32(v);
    var v2 := High32(v1);
    var v3 := High32(v2);
    var w := [Low32(v), Low32(v1), Low32(v2), Low32(v3)];
    WordsBelow(w);
    assert FromWords(w) == v - W128 * High32(v3);
    ModW128(FromWords(w), High32(v3));
    w
  }

  lemma LowestWord(a: u32, x: nat, b: u32, y: nat)
    requires a + W32 * x == b + W32 * y
    ensures a == b && x == y
  {
  }

  lemma WordsAreUnique(w: seq<u32>, x: seq<u32>)
    requires |w| == 4 && |x| == 4 && FromWords(w) == FromWords(x)
    ensures w == x
  {
    LowestWord(w[0], w[1] + W32 * w[2] + W64 * w[3], x[0], x[1] + W32 * x[2] + W64 * x[3]);
    LowestWord(w[1], w[2] + W32 * w[3], x[1], x[2] + W32 * x[3]);
    LowestWord(w[2], w[3], x[2], x[3]);
  }

  function ResidueWords(key: seq<byte>, msg: seq<byte>): (h: seq<u32>)
    requires |key| == 32
    ensures |h| == 4
  {
    WordsOf(Residue(key, msg))
  }

  function Bytes(x: u32): (b: seq<byte>)
    ensures |b| == 4
    ensures DecodeU32(b, 0) == x
  {
    var b1 := x / 0x100;
    var b2 := b1 / 0x100;
    [x % 0x100, b1 % 0x100, b2 % 0x100, b2 / 0x100]
  }

  function TagBytes(t: seq<u32>): (b: seq<byte>)
    requires |t| == 4
    ensures |b| == 16
    ensures Decode(b) == FromWords(t)
  {
    var b := Bytes(t[0]) + Bytes(t[1]) + Bytes(t[2]) + Bytes(t[3]);
    assert DecodeU32(b, 0) == t[0] && DecodeU32(b, 4) == t[1] && DecodeU32(b, 8) == t[2] && DecodeU32(b, 12) == t[3];
    LeWords(b);
    b
  }

  /** What the code returns: the words of the residue and of s added with no carry between them. */
  function CodeTag(key: seq<byte>, msg: seq<byte>): (tag: seq<byte>)
    requires |key| == 32
    ensures |tag| == 16
  {
    TagBytes(AddWords(ResidueWords(key, msg), KeyWords(key)))
  }

  method Mac(key: seq<byte>, msg: seq<byte>) returns (tag: seq<byte>)
    requires |key| == 32
    ensures tag == CodeTag(key, msg)
  {
    var r := ToLimbs(Clamped(key[..16]) + [0]);
    RLimbs(key[..16]);
    var h := Limbs(0, 0, 0, 0, 0);
    var i := 0;
    while i < |msg|
      invariant h.Loose()
      invariant Absorb(h.Value() % P, msg[Min(i, |msg|)..], r.Value()) == Residue(key, msg)
    {
      var n := Min(16, |msg| - i);
      var block := msg[i..i + n];
      ChunkLimbs(block);
      assert msg[i..][..n] == block && msg[i..][n..] == msg[Min(i + 16, |msg|)..];
      h := AbsorbBlock(h, ToLimbs(Chunk(block)), r);
      i := i + 16;
    }
    h := Finalise(h);
    var w := ToWords(h);
    ToWordsValue(h);
    AbsorbIsReduced(0, msg, r.Value());
    WordsAreUnique(w, ResidueWords(key, msg));
    tag := TagBytes(AddWords(w, KeyWords(key)));
  }

  lemma KeyWordsValue(key: seq<byte>)
    requires |key| == 32
    ensures FromWords(KeyWords(key)) == Decode(key[16..])
  {
    var s := key[16..];
    assert DecodeU32(s, 0) == DecodeU32(key, 16) && DecodeU32(s, 4) == DecodeU32(key, 20);
    assert DecodeU32(s, 8) == DecodeU32(key, 24) && DecodeU32(s, 12) == DecodeU32(key, 28);
    LeWords(s);
  }

  lemma ModAdd(a: nat, b: nat)
    ensures (a % W128 + b) % W128 == (a + b) % W128
  {
  }

  /** The tag agrees with RFC 8439 exactly when no 32-bit word of residue + s carries into the next. */
  lemma TagIsRfcTagIff(key: seq<byte>, msg: seq<byte>)
    requires |key| == 32
    ensures Decode(CodeTag(key, msg)) == RfcTag(key, msg) <==> NoCarry(ResidueWords(key, msg), KeyWords(key))
  {
    var h, s := ResidueWords(key, msg), KeyWords(key);
    KeyWordsValue(key);
    AddWordsExact(h, s);
    ModAdd(Residue(key, msg), Decode(key[16..]));
  }

  /** A key and a four-byte message whose tag the lost carry makes wrong. */
  lemma LostCarry()
    ensures var key: seq<byte> := [1] + seq(15, i => 0) + [1] + seq(15, i => 0);
      Decode(CodeTag(key, [0xFF, 0xFF, 0xFF, 0xFF])) != RfcTag(key, [0xFF, 0xFF, 0xFF, 0xFF])
  {
    var key: seq<byte> := [1] + seq(15, i => 0) + [1] + seq(15, i => 0);
    var msg: seq<byte> := [0xFF, 0xFF, 0xFF, 0xFF];
    assert Decode(Clamped(key[..16])) == 1 by {
      ZerosAreZero(Clamped(key[..16]), 1);
    }
    assert msg[..4] == msg && msg[4..] == [];
    var b := msg + [1];
    assert BlockNumber(msg) == 0x1_FFFF_FFFF by {
      LeWord(b, 0);
      assert DecodeFrom(b, 4) == 1 + K8 * DecodeFrom(b, 5);
    }
    assert Residue(key, msg) == 0x1_FFFF_FFFF;
    assert ResidueWords(key, msg)[0] == 0xFFFF_FFFF;
    assert KeyWords(key)[0] == 1;
    TagIsRfcTagIff(key, msg);
  }
}
