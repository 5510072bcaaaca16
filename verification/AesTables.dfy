/** The substitution tables of AES (section 5.1.1 of FIPS 197), row by row. */
module AesTables {
  import opened Bits

  /** Entry `n` of a row of sixteen. */
  function Pick(n: bv8, a0: bv8, a1: bv8, a2: bv8, a3: bv8, a4: bv8, a5: bv8, a6: bv8, a7: bv8,
                a8: bv8, a9: bv8, a10: bv8, a11: bv8, a12: bv8, a13: bv8, a14: bv8, a15: bv8): bv8 {
    var b0, b1, b2, b3 := n & 1 != 0, n & 2 != 0, n & 4 != 0, n & 8 != 0;
    if b3 then
      if b2 then if b1 then if b0 then a15 else a14 else if b0 then a13 else a12
      else if b1 then if b0 then a11 else a10 else if b0 then a9 else a8
    else
      if b2 then if b1 then if b0 then a7 else a6 else if b0 then a5 else a4
      else if b1 then if b0 then a3 else a2 else if b0 then a1 else a0
  }

  function SboxBits(x: bv8): bv8 {
    Pick(x >> 4,
      Pick(x & 15, 0x63, 0x7c, 0x77, 0x7b, 0xf2, 0x6b, 0x6f, 0xc5, 0x30, 0x01, 0x67, 0x2b, 0xfe, 0xd7, 0xab, 0x76),
      Pick(x & 15, 0xca, 0x82, 0xc9, 0x7d, 0xfa, 0x59, 0x47, 0xf0, 0xad, 0xd4, 0xa2, 0xaf, 0x9c, 0xa4, 0x72, 0xc0),
      Pick(x & 15, 0xb7, 0xfd, 0x93, 0x26, 0x36, 0x3f, 0xf7, 0xcc, 0x34, 0xa5, 0xe5, 0xf1, 0x71, 0xd8, 0x31, 0x15),
      Pick(x & 15, 0x04, 0xc7, 0x23, 0xc3, 0x18, 0x96, 0x05, 0x9a, 0x07, 0x12, 0x80, 0xe2, 0xeb, 0x27, 0xb2, 0x75),
      Pick(x & 15, 0x09, 0x83, 0x2c, 0x1a, 0x1b, 0x6e, 0x5a, 0xa0, 0x52, 0x3b, 0xd6, 0xb3, 0x29, 0xe3, 0x2f, 0x84),
      Pick(x & 15, 0x53, 0xd1, 0x00, 0xed, 0x20, 0xfc, 0xb1, 0x5b, 0x6a, 0xcb, 0xbe, 0x39, 0x4a, 0x4c, 0x58, 0xcf),
      Pick(x & 15, 0xd0, 0xef, 0xaa, 0xfb, 0x43, 0x4d, 0x33, 0x85, 0x45, 0xf9, 0x02, 0x7f, 0x50, 0x3c, 0x9f, 0xa8),
      Pick(x & 15, 0x51, 0xa3, 0x40, 0x8f, 0x92, 0x9d, 0x38, 0xf5, 0xbc, 0xb6, 0xda, 0x21, 0x10, 0xff, 0xf3, 0xd2),
      Pick(x & 15, 0xcd, 0x0c, 0x13, 0xec, 0x5f, 0x97, 0x44, 0x17, 0xc4, 0xa7, 0x7e, 0x3d, 0x64, 0x5d, 0x19, 0x73),
      Pick(x & 15, 0x60, 0x81, 0x4f, 0xdc, 0x22, 0x2a, 0x90, 0x88, 0x46, 0xee, 0xb8, 0x14, 0xde, 0x5e, 0x0b, 0xdb),
      Pick(x & 15, 0xe0, 0x32, 0x3a, 0x0a, 0x49, 0x06, 0x24, 0x5c, 0xc2, 0xd3, 0xac, 0x62, 0x91, 0x95, 0xe4, 0x79),
      Pick(x & 15, 0xe7, 0xc8, 0x37, 0x6d, 0x8d, 0xd5, 0x4e, 0xa9, 0x6c, 0x56, 0xf4, 0xea, 0x65, 0x7a, 0xae, 0x08),
      Pick(x & 15, 0xba, 0x78, 0x25, 0x2e, 0x1c, 0xa6, 0xb4, 0xc6, 0xe8, 0xdd, 0x74, 0x1f, 0x4b, 0xbd, 0x8b, 0x8a),
      Pick(x & 15, 0x70, 0x3e, 0xb5, 0x66, 0x48, 0x03, 0xf6, 0x0e, 0x61, 0x35, 0x57, 0xb9, 0x86, 0xc1, 0x1d, 0x9e),
      Pick(x & 15, 0xe1, 0xf8, 0x98, 0x11, 0x69, 0xd9, 0x8e, 0x94, 0x9b, 0x1e, 0x87, 0xe9, 0xce, 0x55, 0x28, 0xdf),
      Pick(x & 15, 0x8c, 0xa1, 0x89, 0x0d, 0xbf, 0xe6, 0x42, 0x68, 0x41, 0x99, 0x2d, 0x0f, 0xb0, 0x54, 0xbb, 0x16))
  }

  function InvSboxBits(x: bv8): bv8 {
    Pick(x >> 4,
      Pick(x & 15, 0x52, 0x09, 0x6a, 0xd5, 0x30, 0x36, 0xa5, 0x38, 0xbf, 0x40, 0xa3, 0x9e, 0x81, 0xf3, 0xd7, 0xfb),
      Pick(x & 15, 0x7c, 0xe3, 0x39, 0x82, 0x9b, 0x2f, 0xff, 0x87, 0x34, 0x8e, 0x43, 0x44, 0xc4, 0xde, 0xe9, 0xcb),
      Pick(x & 15, 0x54, 0x7b, 0x94, 0x32, 0xa6, 0xc2, 0x23, 0x3d, 0xee, 0x4c, 0x95, 0x0b, 0x42, 0xfa, 0xc3, 0x4e),
      Pick(x & 15, 0x08, 0x2e, 0xa1, 0x66, 0x28, 0xd9, 0x24, 0xb2, 0x76, 0x5b, 0xa2, 0x49, 0x6d, 0x8b, 0xd1, 0x25),
      Pick(x & 15, 0x72, 0xf8, 0xf6, 0x64, 0x86, 0x68, 0x98, 0x16, 0xd4, 0xa4, 0x5c, 0xcc, 0x5d, 0x65, 0xb6, 0x92),
      Pick(x & 15, 0x6c, 0x70, 0x48, 0x50, 0xfd, 0xed, 0xb9, 0xda, 0x5e, 0x15, 0x46, 0x57, 0xa7, 0x8d, 0x9d, 0x84),
      Pick(x & 15, 0x90, 0xd8, 0xab, 0x00, 0x8c, 0xbc, 0xd3, 0x0a, 0xf7, 0xe4, 0x58, 0x05, 0xb8, 0xb3, 0x45, 0x06),
      Pick(x & 15, 0xd0, 0x2c, 0x1e, 0x8f, 0xca, 0x3f, 0x0f, 0x02, 0xc1, 0xaf, 0xbd, 0x03, 0x01, 0x13, 0x8a, 0x6b),
      Pick(x & 15, 0x3a, 0x91, 0x11, 0x41, 0x4f, 0x67, 0xdc, 0xea, 0x97, 0xf2, 0xcf, 0xce, 0xf0, 0xb4, 0xe6, 0x73),
      Pick(x & 15, 0x96, 0xac, 0x74, 0x22, 0xe7, 0xad, 0x35, 0x85, 0xe2, 0xf9, 0x37, 0xe8, 0x1c, 0x75, 0xdf, 0x6e),
      Pick(x & 15, 0x47, 0xf1, 0x1a, 0x71, 0x1d, 0x29, 0xc5, 0x89, 0x6f, 0xb7, 0x62, 0x0e, 0xaa, 0x18, 0xbe, 0x1b),
      Pick(x & 15, 0xfc, 0x56, 0x3e, 0x4b, 0xc6, 0xd2, 0x79, 0x20, 0x9a, 0xdb, 0xc0, 0xfe, 0x78, 0xcd, 0x5a, 0xf4),
      Pick(x & 15, 0x1f, 0xdd, 0xa8, 0x33, 0x88, 0x07, 0xc7, 0x31, 0xb1, 0x12, 0x10, 0x59, 0x27, 0x80, 0xec, 0x5f),
      Pick(x & 15, 0x60, 0x51, 0x7f, 0xa9, 0x19, 0xb5, 0x4a, 0x0d, 0x2d, 0xe5, 0x7a, 0x9f, 0x93, 0xc9, 0x9c, 0xef),
      Pick(x & 15, 0xa0, 0xe0, 0x3b, 0x4d, 0xae, 0x2a, 0xf5, 0xb0, 0xc8, 0xeb, 0xbb, 0x3c, 0x83, 0x53, 0x99, 0x61),
      Pick(x & 15, 0x17, 0x2b, 0x04, 0x7e, 0xba, 0x77, 0xd6, 0x26, 0xe1, 0x69, 0x14, 0x63, 0x55, 0x21, 0x0c, 0x7d))
  }

  lemma InvSboxBitsInverts(x: bv8)
    ensures InvSboxBits(SboxBits(x)) == x
  {
  }

  // ---------------------------------------------------------------- what the table is

  /** A polynomial times x, modulo x^8 + x^4 + x^3 + x + 1. */
  function XtimeBits(a: bv8): bv8 {
    (a << 1) ^ (if a & 0x80 == 0 then 0 else 0x1b)
  }

  function PartBits(a: bv8, b: bv8, bit: bv8): bv8 {
    if b & bit == 0 then 0 else a
  }

  /** The product of two polynomials: one shift of `a` for each bit of `b`. */
  function MulBits(a: bv8, b: bv8): bv8 {
    var a1 := XtimeBits(a);
    var a2 := XtimeBits(a1);
    var a3 := XtimeBits(a2);
    var a4 := XtimeBits(a3);
    var a5 := XtimeBits(a4);
    var a6 := XtimeBits(a5);
    PartBits(a, b, 1) ^ PartBits(a1, b, 2) ^ PartBits(a2, b, 4) ^ PartBits(a3, b, 8) ^ PartBits(a4, b, 16)
    ^ PartBits(a5, b, 32) ^ PartBits(a6, b, 64) ^ PartBits(XtimeBits(a6), b, 128)
  }

  /** The affine map of section 5.1.1 of FIPS 197: each bit with the four after it in a circle, and 0x63. */
  function Affine(y: bv8): bv8 {
    y ^ y.RotateLeft(1) ^ y.RotateLeft(2) ^ y.RotateLeft(3) ^ y.RotateLeft(4) ^ 0x63
  }

  /** The map the other way. */
  function Unaffine(z: bv8): bv8 {
    z.RotateLeft(1) ^ z.RotateLeft(3) ^ z.RotateLeft(6) ^ 5
  }

  lemma UnaffineInverts(z: bv8)
    ensures Affine(Unaffine(z)) == z
  {
  }

  lemma InverseOfLow(x: bv8)
    requires x & 0x80 == 0
    ensures Unaffine(SboxBits(0)) == 0
    ensures x != 0 ==> MulBits(x, Unaffine(SboxBits(x))) == 1
  {
  }

  lemma InverseOfHigh(x: bv8)
    requires x & 0x80 == 0x80
    ensures Unaffine(SboxBits(0)) == 0
    ensures x != 0 ==> MulBits(x, Unaffine(SboxBits(x))) == 1
  {
  }

  /** The table is the affine map of the inverse in the field, and of zero for zero. */
  lemma SboxIsAffineInverse(x: bv8) returns (y: bv8)
    ensures SboxBits(x) == Affine(y)
    ensures if x == 0 then y == 0 else MulBits(x, y) == 1
  {
    y := Unaffine(SboxBits(x));
    UnaffineInverts(SboxBits(x));
    if x & 0x80 == 0 { InverseOfLow(x); } else { InverseOfHigh(x); }
  }

  lemma ThroughInt(x: bv8)
    ensures ((x as int) as bv8) == x
  {
  }

  lemma OneUp(b: bv8)
    requires b < 255
    ensures (b + 1) as int == b as int + 1
  {
  }

  /** Every byte is the number of some bits. */
  lemma {:induction false} BitsOf(x: nat) returns (b: bv8)
    requires x < 256
    ensures b as int == x
  {
    b := 0;
    if x > 0 {
      b := BitsOf(x - 1);
      OneUp(b);
      b := b + 1;
    }
  }

  lemma ThroughBits(x: byte)
    ensures ((x as bv8) as int) == x
  {
    var b := BitsOf(x);
    ThroughInt(b);
  }

  function Sbox(x: byte): byte {
    SboxBits(x as bv8) as int
  }

  function InvSbox(x: byte): byte {
    InvSboxBits(x as bv8) as int
  }

  lemma InvSboxInverts(x: byte)
    ensures InvSbox(Sbox(x)) == x
  {
    InvSboxBitsInverts(x as bv8);
    ThroughInt(SboxBits(x as bv8));
    ThroughBits(x);
  }
}
