/** AES-256 in XTS mode, sector by sector and in place. The transformations follow
    section 5 of FIPS 197; decryption is proved to undo encryption. */
module AesXts {
  import opened Bits
  import opened Gf256
  import opened AesTables

  type Block = b: seq<byte> | |b| == 16 witness seq(16, i => 0)

  const ZERO_BLOCK: Block := seq(16, i => 0)

  /** Fifteen round keys. */
  type Schedule = k: seq<Block> | |k| == 15 witness seq<Block>(15, i => ZERO_BLOCK)

  // ---------------------------------------------------------------- the transformations

  function AddKey(b: Block, k: Block): Block {
    seq(16, i requires 0 <= i < 16 => Add(b[i], k[i]))
  }

  function SubBytes(b: Block): Block {
    seq(16, i requires 0 <= i < 16 => Sbox(b[i]))
  }

  function InvSubBytes(b: Block): Block {
    seq(16, i requires 0 <= i < 16 => InvSbox(b[i]))
  }

  /** Row `r` of the state (bytes r, r + 4, ...) rotated left by r. */
  function ShiftRows(b: Block): Block {
    seq(16, i requires 0 <= i < 16 => b[(i + 4 * (i % 4)) % 16])
  }

  function InvShiftRows(b: Block): Block {
    seq(16, i requires 0 <= i < 16 => b[(i + 12 * (i % 4)) % 16])
  }

  function Sum4(a: byte, b: byte, c: byte, d: byte): byte {
    Add(Add(a, b), Add(c, d))
  }

  type Column = c: seq<byte> | |c| == 4 witness seq(4, i => 0)

  /** A column times the circulant matrix whose first row is (c0, c1, c2, c3). */
  function Circulant(c: Column, c0: nat, c1: nat, c2: nat, c3: nat): Column {
    [Sum4(Mul(c0, c[0]), Mul(c1, c[1]), Mul(c2, c[2]), Mul(c3, c[3])),
     Sum4(Mul(c0, c[1]), Mul(c1, c[2]), Mul(c2, c[3]), Mul(c3, c[0])),
     Sum4(Mul(c0, c[2]), Mul(c1, c[3]), Mul(c2, c[0]), Mul(c3, c[1])),
     Sum4(Mul(c0, c[3]), Mul(c1, c[0]), Mul(c2, c[1]), Mul(c3, c[2]))]
  }

  function MixColumn(c: Column): Column {
    Circulant(c, 2, 3, 1, 1)
  }

  function InvMixColumn(c: Column): Column {
    Circulant(c, 14, 11, 13, 9)
  }

  /** The same map on each of the four columns. */
  function OnColumns(b: Block, f: Column -> Column): Block {
    f(b[0..4]) + f(b[4..8]) + f(b[8..12]) + f(b[12..16])
  }

  function MixColumns(b: Block): Block {
    OnColumns(b, MixColumn)
  }

  function InvMixColumns(b: Block): Block {
    OnColumns(b, InvMixColumn)
  }

  // ---------------------------------------------------------------- each one's inverse

  lemma AddKeyTwice(b: Block, k: Block)
    ensures AddKey(AddKey(b, k), k) == b
  {
    forall i | 0 <= i < 16 ensures AddKey(AddKey(b, k), k)[i] == b[i] {
      AddUndo(b[i], k[i]);
    }
  }

  lemma InvSubBytesInverts(b: Block)
    ensures InvSubBytes(SubBytes(b)) == b
  {
    forall i | 0 <= i < 16 ensures InvSubBytes(SubBytes(b))[i] == b[i] {
      InvSboxInverts(b[i]);
    }
  }

  lemma InvShiftRowsInverts(b: Block)
    ensures InvShiftRows(ShiftRows(b)) == b
  {
  }

  lemma Sum4Medial(a: byte, b: byte, c: byte, d: byte, e: byte, f: byte, g: byte, h: byte)
    ensures Add(Sum4(a, b, c, d), Sum4(e, f, g, h)) == Sum4(Add(a, e), Add(b, f), Add(c, g), Add(d, h))
  {
    AddMedial(Add(a, b), Add(c, d), Add(e, f), Add(g, h));
    AddMedial(a, b, e, f);
    AddMedial(c, d, g, h);
  }

  lemma MulSum4(c: nat, a0: byte, a1: byte, a2: byte, a3: byte)
    ensures Mul(c, Sum4(a0, a1, a2, a3)) == Sum4(Mul(c, a0), Mul(c, a1), Mul(c, a2), Mul(c, a3))
  {
    MulAdd(c, Add(a0, a1), Add(a2, a3));
    MulAdd(c, a0, a1);
    MulAdd(c, a2, a3);
  }

  /** A sum of four sums, regrouped the other way. */
  lemma Transpose(a: seq<byte>, b: seq<byte>, c: seq<byte>, d: seq<byte>)
    requires |a| == |b| == |c| == |d| == 4
    ensures Sum4(Sum4(a[0], a[1], a[2], a[3]), Sum4(b[0], b[1], b[2], b[3]),
                 Sum4(c[0], c[1], c[2], c[3]), Sum4(d[0], d[1], d[2], d[3]))
         == Sum4(Sum4(a[0], b[0], c[0], d[0]), Sum4(a[1], b[1], c[1], d[1]),
                 Sum4(a[2], b[2], c[2], d[2]), Sum4(a[3], b[3], c[3], d[3]))
  {
    Sum4Medial(a[0], a[1], a[2], a[3], b[0], b[1], b[2], b[3]);
    Sum4Medial(c[0], c[1], c[2], c[3], d[0], d[1], d[2], d[3]);
    Sum4Medial(Add(a[0], b[0]), Add(a[1], b[1]), Add(a[2], b[2]), Add(a[3], b[3]),
               Add(c[0], d[0]), Add(c[1], d[1]), Add(c[2], d[2]), Add(c[3], d[3]));
  }

  lemma AddComm(a: byte, b: byte)
    ensures Add(a, b) == Add(b, a)
  {
    XorComm(a, b);
  }

  lemma Sum4Rotate(a: byte, b: byte, c: byte, d: byte)
    ensures Sum4(a, b, c, d) == Sum4(d, a, b, c)
  {
    AddComm(c, d);
    AddMedial(a, b, d, c);
    AddComm(a, d);
  }

  /** Mul by a mask each, four times over, is Mul by the sum of the mask products. */
  lemma MaskColumn(e: seq<nat>, c: seq<nat>, s: byte)
    requires |e| == |c| == 4
    ensures Sum4(Mul(e[0], Mul(c[0], s)), Mul(e[1], Mul(c[1], s)), Mul(e[2], Mul(c[2], s)), Mul(e[3], Mul(c[3], s)))
         == Mul(Xor(Xor(MaskMul(e[0], c[0]), MaskMul(e[1], c[1])), Xor(MaskMul(e[2], c[2]), MaskMul(e[3], c[3]))), s)
  {
    var p, q, r, t := MaskMul(e[0], c[0]), MaskMul(e[1], c[1]), MaskMul(e[2], c[2]), MaskMul(e[3], c[3]);
    MulMul(e[0], c[0], s);
    MulMul(e[1], c[1], s);
    MulMul(e[2], c[2], s);
    MulMul(e[3], c[3], s);
    MulXor(p, q, s);
    MulXor(r, t, s);
    MulXor(Xor(p, q), Xor(r, t), s);
  }

  lemma Times3Values()
    ensures Xor(14, 28) == 18 && Xor(11, 22) == 29
  {
  }

  lemma Times3MoreValues()
    ensures Xor(13, 26) == 23 && Xor(9, 18) == 27
  {
  }

  lemma Row0Values()
    ensures Xor(28, 11) == 23
  {
  }

  lemma Row0MoreValues()
    ensures Xor(13, 27) == 22
  {
  }

  lemma Row1Values()
    ensures Xor(18, 22) == 4 && Xor(13, 9) == 4
  {
  }

  lemma Row2Values()
    ensures Xor(14, 29) == 19 && Xor(26, 9) == 19
  {
  }

  lemma Row3Values()
    ensures Xor(14, 11) == 5 && Xor(23, 18) == 5
  {
  }

  /** (14, 11, 13, 9) against (2, 3, 1, 1), column by column: one on the diagonal, zero elsewhere. */
  lemma InverseMatrix(e: seq<nat>)
    requires e == [14, 11, 13, 9]
    ensures Xor(Xor(MaskMul(e[0], 2), MaskMul(e[1], 1)), Xor(MaskMul(e[2], 1), MaskMul(e[3], 3))) == 1
    ensures Xor(Xor(MaskMul(e[0], 3), MaskMul(e[1], 2)), Xor(MaskMul(e[2], 1), MaskMul(e[3], 1))) == 0
    ensures Xor(Xor(MaskMul(e[0], 1), MaskMul(e[1], 3)), Xor(MaskMul(e[2], 2), MaskMul(e[3], 1))) == 0
    ensures Xor(Xor(MaskMul(e[0], 1), MaskMul(e[1], 1)), Xor(MaskMul(e[2], 3), MaskMul(e[3], 2))) == 0
  {
    MaskMulSmall(e[0]);
    MaskMulSmall(e[1]);
    MaskMulSmall(e[2]);
    MaskMulSmall(e[3]);
    Times3Values();
    Times3MoreValues();
    XorOfFour(28, 11, 13, 27, 23, 22, 1);
    XorOfFour(18, 22, 13, 9, 4, 4, 0);
    XorOfFour(14, 29, 26, 9, 19, 19, 0);
    XorOfFour(14, 11, 23, 18, 5, 5, 0);
  }

  lemma XorOfFour(a: nat, b: nat, c: nat, d: nat, p: nat, q: nat, r: nat)
    requires [a, b, c, d, p, q, r] in [[28, 11, 13, 27, 23, 22, 1], [18, 22, 13, 9, 4, 4, 0],
      [14, 29, 26, 9, 19, 19, 0], [14, 11, 23, 18, 5, 5, 0]]
    ensures Xor(Xor(a, b), Xor(c, d)) == r
  {
    Row0Values();
    Row0MoreValues();
    Row1Values();
    Row2Values();
    Row3Values();
    XorSelf(p);
    RowValuesMeet();
  }

  lemma RowValuesMeet()
    ensures Xor(23, 22) == 1
  {
  }

  lemma UnMix(s0: byte, s1: byte, s2: byte, s3: byte)
    ensures Sum4(Mul(14, Sum4(Mul(2, s0), Mul(3, s1), Mul(1, s2), Mul(1, s3))),
                 Mul(11, Sum4(Mul(2, s1), Mul(3, s2), Mul(1, s3), Mul(1, s0))),
                 Mul(13, Sum4(Mul(2, s2), Mul(3, s3), Mul(1, s0), Mul(1, s1))),
                 Mul(9, Sum4(Mul(2, s3), Mul(3, s0), Mul(1, s1), Mul(1, s2)))) == s0
  {
    var a, b := [Mul(2, s0), Mul(3, s1), Mul(1, s2), Mul(1, s3)], [Mul(1, s0), Mul(2, s1), Mul(3, s2), Mul(1, s3)];
    var c, d := [Mul(1, s0), Mul(1, s1), Mul(2, s2), Mul(3, s3)], [Mul(3, s0), Mul(1, s1), Mul(1, s2), Mul(2, s3)];
    Sum4Rotate(b[1], b[2], b[3], b[0]);
    Sum4Rotate(c[2], c[3], c[0], c[1]);
    Sum4Rotate(c[1], c[2], c[3], c[0]);
    Sum4Rotate(d[0], d[1], d[2], d[3]);
    MulSum4(14, a[0], a[1], a[2], a[3]);
    MulSum4(11, b[0], b[1], b[2], b[3]);
    MulSum4(13, c[0], c[1], c[2], c[3]);
    MulSum4(9, d[0], d[1], d[2], d[3]);
    Transpose([Mul(14, a[0]), Mul(14, a[1]), Mul(14, a[2]), Mul(14, a[3])],
              [Mul(11, b[0]), Mul(11, b[1]), Mul(11, b[2]), Mul(11, b[3])],
              [Mul(13, c[0]), Mul(13, c[1]), Mul(13, c[2]), Mul(13, c[3])],
              [Mul(9, d[0]), Mul(9, d[1]), Mul(9, d[2]), Mul(9, d[3])]);
    var e := [14, 11, 13, 9];
    MaskColumn(e, [2, 1, 1, 3], s0);
    MaskColumn(e, [3, 2, 1, 1], s1);
    MaskColumn(e, [1, 3, 2, 1], s2);
    MaskColumn(e, [1, 1, 3, 2], s3);
    InverseMatrix(e);
    AddZero(s0);
  }

  lemma InvMixColumnInverts(c: Column)
    ensures InvMixColumn(MixColumn(c)) == c
  {
    UnMix(c[0], c[1], c[2], c[3]);
    UnMix(c[1], c[2], c[3], c[0]);
    UnMix(c[2], c[3], c[0], c[1]);
    UnMix(c[3], c[0], c[1], c[2]);
  }

  lemma OnColumnsInverts(b: Block, f: Column -> Column, g: Column -> Column)
    requires forall c: Column :: g(f(c)) == c
    ensures OnColumns(OnColumns(b, f), g) == b
  {
    var m := OnColumns(b, f);
    var c0: Column, c1: Column, c2: Column, c3: Column := b[0..4], b[4..8], b[8..12], b[12..16];
    assert m[0..4] == f(c0) && m[4..8] == f(c1) && m[8..12] == f(c2) && m[12..16] == f(c3);
    assert g(f(c0)) == c0 && g(f(c1)) == c1 && g(f(c2)) == c2 && g(f(c3)) == c3;
  }

  lemma InvMixColumnsInverts(b: Block)
    ensures InvMixColumns(MixColumns(b)) == b
  {
    forall c: Column ensures InvMixColumn(MixColumn(c)) == c {
      InvMixColumnInverts(c);
    }
    OnColumnsInverts(b, MixColumn, InvMixColumn);
  }

  // ---------------------------------------------------------------- the block cipher

  function Round(b: Block, k: Block): Block {
    AddKey(MixColumns(ShiftRows(SubBytes(b))), k)
  }

  function InvRound(b: Block, k: Block): Block {
    InvMixColumns(AddKey(InvSubBytes(InvShiftRows(b)), k))
  }

  /** The state after the initial key and rounds 1 to `n`. */
  function Rounds(b: Block, k: Schedule, n: nat): Block
    requires n < 15
  {
    if n == 0 then AddKey(b, k[0]) else Round(Rounds(b, k, n - 1), k[n])
  }

  function Encrypted(b: Block, k: Schedule): Block {
    AddKey(ShiftRows(SubBytes(Rounds(b, k, |k| - 2))), k[14])
  }

  /** The inverse rounds `n` down to 1. */
  function InvRounds(b: Block, k: Schedule, n: nat): Block
    requires n < 15
    decreases n
  {
    if n == 0 then b else InvRounds(InvRound(b, k[n]), k, n - 1)
  }

  function Decrypted(b: Block, k: Schedule): Block {
    AddKey(InvSubBytes(InvShiftRows(InvRounds(AddKey(b, k[14]), k, |k| - 2))), k[0])
  }

  /** What a round leaves before its key, the inverse order takes back. */
  lemma InvRoundInverts(b: Block, k: Block)
    ensures InvSubBytes(InvShiftRows(ShiftRows(SubBytes(b)))) == b
    ensures InvMixColumns(AddKey(Round(b, k), k)) == ShiftRows(SubBytes(b))
  {
    InvShiftRowsInverts(SubBytes(b));
    InvSubBytesInverts(b);
    AddKeyTwice(MixColumns(ShiftRows(SubBytes(b))), k);
    InvMixColumnsInverts(ShiftRows(SubBytes(b)));
  }

  lemma {:induction false} InvRoundsInvert(b: Block, k: Schedule, n: nat)
    requires n < 14
    ensures InvSubBytes(InvShiftRows(InvRounds(ShiftRows(SubBytes(Rounds(b, k, n))), k, n))) == AddKey(b, k[0])
  {
    if n == 0 {
      InvRoundInverts(AddKey(b, k[0]), k[0]);
    } else {
      var p := Rounds(b, k, n - 1);
      InvRoundInverts(Round(p, k[n]), k[n]);
      InvRoundInverts(p, k[n]);
      InvRoundsInvert(b, k, n - 1);
    }
  }

  /** Decryption with the same schedule undoes encryption of a block. */
  lemma DecryptedEncrypted(b: Block, k: Schedule)
    ensures Decrypted(Encrypted(b, k), k) == b
  {
    AddKeyTwice(ShiftRows(SubBytes(Rounds(b, k, |k| - 2))), k[14]);
    InvRoundsInvert(b, k, |k| - 2);
    AddKeyTwice(b, k[0]);
  }

  // ---------------------------------------------------------------- the sector cipher

  /** The tweak times x modulo x^128 + x^7 + x^2 + x + 1, little-endian. */
  function Alpha(t: Block): Block {
    seq(16, i requires 0 <= i < 16 =>
      if i == 0 then Add(Low(t[0]), if t[15] >= 0x80 then 0x87 else 0)
      else Low(t[i]) + t[i - 1] / 0x80)
  }

  /** A byte shifted left by one. */
  function Low(x: byte): (y: byte)
    ensures y % 2 == 0
  {
    (x as int) * 2 % 0x100
  }

  /** Coefficient `n` of the tweak as a polynomial over GF(2). */
  predicate Coefficient(t: Block, n: nat)
    requires n < 128
  {
    BitAt(t[n / 8], n % 8)
  }

  lemma {:induction false} BitAtLow(x: byte, y: nat, n: nat)
    requires y < 2 && n < 8
    ensures BitAt(Low(x) + y, n) <==> if n == 0 then y == 1 else BitAt(x, n - 1)
  {
    if n > 0 {
      assert (Low(x) + y) / 2 == x % 0x80;
      ShiftSeven(x / 0x80);
      BitAtBelow(x % 0x80, x / 0x80, 7, n - 1);
    }
  }

  lemma {:induction false} BitAtBelow(x: nat, q: nat, k: nat, n: nat)
    requires n < k
    ensures BitAt(x + Shift(q, k), n) == BitAt(x, n)
  {
    if n > 0 { BitAtBelow(x / 2, q, k - 1, n - 1); }
  }

  lemma TopBitIs(x: byte)
    ensures BitAt(x, 7) <==> x / 0x80 == 1
  {
    assert BitAt(x, 7) == BitAt(x / 2, 6) == BitAt(x / 4, 5) == BitAt(x / 8, 4);
    assert BitAt(x / 8, 4) == BitAt(x / 16, 3) == BitAt(x / 32, 2) == BitAt(x / 64, 1) == BitAt(x / 128, 0);
  }

  lemma Feedback(n: nat)
    requires n < 8
    ensures BitAt(0x87, n) <==> n == 0 || n == 1 || n == 2 || n == 7
    ensures !BitAt(0, n)
  {
    ZeroBits(n);
    if n >= 1 { assert BitAt(0x87, n) == BitAt(0x43, n - 1); }
    if n >= 2 { assert BitAt(0x43, n - 1) == BitAt(0x21, n - 2); }
    if n >= 3 { assert BitAt(0x21, n - 2) == BitAt(0x10, n - 3); }
    if n >= 4 { assert BitAt(0x10, n - 3) == BitAt(8, n - 4); }
    if n >= 5 { assert BitAt(8, n - 4) == BitAt(4, n - 5); }
    if n >= 6 { assert BitAt(4, n - 5) == BitAt(2, n - 6); }
    if n >= 7 { assert BitAt(2, n - 6) == BitAt(1, n - 7); }
  }

  lemma {:induction false} ZeroBits(n: nat)
    ensures !BitAt(0, n)
  {
    if n > 0 { ZeroBits(n - 1); }
  }

  lemma FirstByteBits(t: Block, n: nat)
    requires n < 8
    ensures BitAt(Alpha(t)[0], n)
      <==> ((n > 0 && BitAt(t[0], n - 1)) != (BitAt(t[15], 7) && (n == 0 || n == 1 || n == 2 || n == 7)))
  {
    TopBitIs(t[15]);
    BitAtXor(Low(t[0]), if t[15] >= 0x80 then 0x87 else 0, n);
    BitAtLow(t[0], 0, n);
    Feedback(n);
  }

  lemma LaterByteBits(t: Block, i: nat, n: nat)
    requires 1 <= i < 16 && n < 8
    ensures BitAt(Alpha(t)[i], n) <==> if n == 0 then BitAt(t[i - 1], 7) else BitAt(t[i], n - 1)
  {
    TopBitIs(t[i - 1]);
    BitAtLow(t[i], t[i - 1] / 0x80, n);
  }

  /** Multiplying the tweak by x moves every coefficient up one, and x^128 comes back as
      x^7 + x^2 + x + 1. */
  lemma AlphaCoefficient(t: Block, n: nat)
    requires n < 128
    ensures Coefficient(Alpha(t), n)
      <==> ((n > 0 && Coefficient(t, n - 1)) != (Coefficient(t, 127) && (n == 0 || n == 1 || n == 2 || n == 7)))
  {
    var i, m := n / 8, n % 8;
    if i == 0 {
      FirstByteBits(t, m);
    } else {
      LaterByteBits(t, i, m);
      assert if m == 0 then (n - 1) / 8 == i - 1 && (n - 1) % 8 == 7 else (n - 1) / 8 == i && (n - 1) % 8 == m - 1;
    }
  }

  /** Le(n) as eight bytes and eight zeros. */
  function SectorBlock(n: u64): Block {
    [n % 0x100, n / 0x100 % 0x100, n / 0x1_0000 % 0x100, n / 0x100_0000 % 0x100,
     n / 0x1_0000_0000 % 0x100, n / 0x100_0000_0000 % 0x100, n / 0x1_0000_0000_0000 % 0x100,
     n / 0x100_0000_0000_0000] + seq(8, i => 0)
  }

  /** A block cipher under a tweak. */
  function Tweaked(b: Block, t: Block, f: Block -> Block): Block {
    AddKey(f(AddKey(b, t)), t)
  }

  /** Whole blocks in order, each under the next tweak; a shorter tail is left alone. */
  function Xts(s: seq<byte>, t: Block, f: Block -> Block): (c: seq<byte>)
    ensures |c| == |s|
    decreases |s|
  {
    if |s| < 16 then s else Tweaked(s[..16], t, f) + Xts(s[16..], Alpha(t), f)
  }

  lemma TweakedInverts(b: Block, t: Block, f: Block -> Block, g: Block -> Block)
    requires forall x: Block :: g(f(x)) == x
    ensures Tweaked(Tweaked(b, t, f), t, g) == b
  {
    AddKeyTwice(f(AddKey(b, t)), t);
    assert g(f(AddKey(b, t))) == AddKey(b, t);
    AddKeyTwice(b, t);
  }

  /** In XTS mode a block cipher's inverse, under the same tweaks, undoes the whole sector. */
  lemma {:induction false} XtsInverts(s: seq<byte>, t: Block, f: Block -> Block, g: Block -> Block)
    requires forall x: Block :: g(f(x)) == x
    ensures Xts(Xts(s, t, f), t, g) == s
    decreases |s|
  {
    if |s| >= 16 {
      var e := Xts(s, t, f);
      assert e[..16] == Tweaked(s[..16], t, f) && e[16..] == Xts(s[16..], Alpha(t), f);
      TweakedInverts(s[..16], t, f, g);
      XtsInverts(s[16..], Alpha(t), f, g);
    }
  }

  /** The tweak of a sector: its number under the second key. */
  function SectorTweak(n: u64, key2: Schedule): Block {
    Encrypted(SectorBlock(n), key2)
  }

  function Encrypting(k: Schedule): Block -> Block {
    b => Encrypted(b, k)
  }

  function Decrypting(k: Schedule): Block -> Block {
    b => Decrypted(b, k)
  }

  function EncryptedSector(s: seq<byte>, n: u64, key1: Schedule, key2: Schedule): seq<byte> {
    Xts(s, SectorTweak(n, key2), Encrypting(key1))
  }

  function DecryptedSector(s: seq<byte>, n: u64, key1: Schedule, key2: Schedule): seq<byte> {
    Xts(s, SectorTweak(n, key2), Decrypting(key1))
  }

  /** For every key pair, sector number and sector of any length, decryption undoes encryption. */
  lemma SectorRoundTrip(s: seq<byte>, n: u64, key1: Schedule, key2: Schedule)
    ensures DecryptedSector(EncryptedSector(s, n, key1, key2), n, key1, key2) == s
  {
    forall b: Block ensures Decrypting(key1)(Encrypting(key1)(b)) == b {
      DecryptedEncrypted(b, key1);
    }
    XtsInverts(s, SectorTweak(n, key2), Encrypting(key1), Decrypting(key1));
  }
}
