/** The in-place routines of AES-256-XTS, each proved against its transformation in AesXts. */
module AesXtsInPlace {
  import opened Bits
  import opened Gf256
  import opened AesTables
  import opened AesXts

  method AddKeyInPlace(b: array<byte>, k: Block)
    requires b.Length == 16
    modifies b
    ensures b[..] == AddKey(old(b[..]), k)
  {
    for i := 0 to 16
      invariant forall n :: 0 <= n < i ==> b[n] == Add(old(b[n]), k[n])
      invariant forall n :: i <= n < 16 ==> b[n] == old(b[n])
    {
      b[i] := Add(b[i], k[i]);
    }
  }

  method SubBytesInPlace(b: array<byte>)
    requires b.Length == 16
    modifies b
    ensures b[..] == SubBytes(old(b[..]))
  {
    for i := 0 to 16
      invariant forall n :: 0 <= n < i ==> b[n] == Sbox(old(b[n]))
      invariant forall n :: i <= n < 16 ==> b[n] == old(b[n])
    {
      b[i] := Sbox(b[i]);
    }
  }

  method InvSubBytesInPlace(b: array<byte>)
    requires b.Length == 16
    modifies b
    ensures b[..] == InvSubBytes(old(b[..]))
  {
    for i := 0 to 16
      invariant forall n :: 0 <= n < i ==> b[n] == InvSbox(old(b[n]))
      invariant forall n :: i <= n < 16 ==> b[n] == old(b[n])
    {
      b[i] := InvSbox(b[i]);
    }
  }

  method RotateRowLeft(b: array<byte>, r: nat)
    requires b.Length == 16 && r < 4
    modifies b
    ensures b[..] == old(b[..])[r := old(b[r + 4])][r + 4 := old(b[r + 8])][r + 8 := old(b[r + 12])]
                     [r + 12 := old(b[r])]
  {
    var t := b[r];
    b[r] := b[r + 4];
    b[r + 4] := b[r + 8];
    b[r + 8] := b[r + 12];
    b[r + 12] := t;
  }

  method RotateRowRight(b: array<byte>, r: nat)
    requires b.Length == 16 && r < 4
    modifies b
    ensures b[..] == old(b[..])[r := old(b[r + 12])][r + 4 := old(b[r])][r + 8 := old(b[r + 4])]
                     [r + 12 := old(b[r + 8])]
  {
    var t := b[r + 12];
    b[r + 12] := b[r + 8];
    b[r + 8] := b[r + 4];
    b[r + 4] := b[r];
    b[r] := t;
  }

  method SwapRowTwo(b: array<byte>)
    requires b.Length == 16
    modifies b
    ensures b[..] == old(b[..])[2 := old(b[10])][6 := old(b[14])][10 := old(b[2])][14 := old(b[6])]
  {
    b[2], b[10] := b[10], b[2];
    b[6], b[14] := b[14], b[6];
  }

  lemma ShiftRowsPlaces(b: Block)
    ensures ShiftRows(b)
      == [b[0], b[5], b[10], b[15], b[4], b[9], b[14], b[3], b[8], b[13], b[2], b[7], b[12], b[1], b[6], b[11]]
  {
  }

  method ShiftRowsInPlace(b: array<byte>)
    requires b.Length == 16
    modifies b
    ensures b[..] == ShiftRows(old(b[..]))
  {
    ShiftRowsPlaces(b[..]);
    RotateRowLeft(b, 1);
    SwapRowTwo(b);
    RotateRowRight(b, 3);
  }

  lemma InvShiftRowsPlaces(b: Block)
    ensures InvShiftRows(b)
      == [b[0], b[13], b[10], b[7], b[4], b[1], b[14], b[11], b[8], b[5], b[2], b[15], b[12], b[9], b[6], b[3]]
  {
  }

  method InvShiftRowsInPlace(b: array<byte>)
    requires b.Length == 16
    modifies b
    ensures b[..] == InvShiftRows(old(b[..]))
  {
    InvShiftRowsPlaces(b[..]);
    RotateRowRight(b, 1);
    SwapRowTwo(b);
    RotateRowLeft(b, 3);
  }

  // ---------------------------------------------------------------- columns

  lemma MulSmall(s: byte)
    ensures Mul(1, s) == s && Mul(2, s) == Xtime(s) && Mul(3, s) == Add(s, Xtime(s))
  {
    assert Mul(1, s) == Add(s, Mul(0, Xtime(s)));
    assert Mul(1, Xtime(s)) == Add(Xtime(s), Mul(0, Xtime(Xtime(s))));
    AddZero(s);
    AddZero(Xtime(s));
  }

  /** Moving one term past its neighbour. */
  lemma AddSwap(x: byte, a: byte, b: byte)
    ensures Add(Add(x, a), b) == Add(Add(x, b), a)
  {
    AddAssoc(x, a, b);
    AddComm(a, b);
    AddAssoc(x, b, a);
  }

  /** The code's row 0 sum, grouped as a matrix row. */
  lemma Row0(a: byte, b: byte, s1: byte, s2: byte, s3: byte)
    ensures Add(Add(Add(Add(a, b), s1), s2), s3) == Sum4(a, Add(s1, b), s2, s3)
  {
    AddAssoc(a, b, s1);
    AddComm(b, s1);
    AddAssoc(Add(a, Add(s1, b)), s2, s3);
  }

  lemma Row1(s0: byte, a: byte, b: byte, s2: byte, s3: byte)
    ensures Add(Add(Add(Add(s0, a), b), s2), s3) == Sum4(a, Add(s2, b), s3, s0)
  {
    AddComm(s0, a);
    AddSwap(a, s0, b);
    AddSwap(Add(a, b), s0, s2);
    AddSwap(Add(Add(a, b), s2), s0, s3);
    Row0(a, b, s2, s3, s0);
  }

  lemma Row2(s0: byte, s1: byte, a: byte, b: byte, s3: byte)
    ensures Add(Add(Add(Add(s0, s1), a), b), s3) == Sum4(a, Add(s3, b), s0, s1)
  {
    AddMedial(s0, s1, a, b);
    AddAssoc(Add(s0, s1), a, b);
    AddComm(Add(s0, s1), Add(a, b));
    AddSwap(Add(a, b), Add(s0, s1), s3);
    AddAssoc(a, b, s3);
    AddComm(b, s3);
  }

  lemma Row3(b: byte, s0: byte, s1: byte, s2: byte, a: byte)
    ensures Add(Add(Add(Add(b, s0), s1), s2), a) == Sum4(a, Add(s0, b), s1, s2)
  {
    AddComm(b, s0);
    AddComm(Add(Add(Add(s0, b), s1), s2), a);
    AddAssoc(Add(s0, b), s1, s2);
    AddAssoc(a, Add(s0, b), Add(s1, s2));
  }

  method MixOneColumn(b: array<byte>, i: nat)
    requires b.Length == 16 && i + 4 <= 16
    modifies b
    ensures b[i..i + 4] == MixColumn(old(b[i..i + 4]))
    ensures forall n :: 0 <= n < 16 && !(i <= n < i + 4) ==> b[n] == old(b[n])
  {
    var s0, s1, s2, s3 := b[i], b[i + 1], b[i + 2], b[i + 3];
    var x0, x1, x2, x3 := Xtime(s0), Xtime(s1), Xtime(s2), Xtime(s3);
    MulSmall(s0);
    MulSmall(s1);
    MulSmall(s2);
    MulSmall(s3);
    b[i] := Add(Add(Add(Add(x0, x1), s1), s2), s3);
    b[i + 1] := Add(Add(Add(Add(s0, x1), x2), s2), s3);
    b[i + 2] := Add(Add(Add(Add(s0, s1), x2), x3), s3);
    b[i + 3] := Add(Add(Add(Add(x0, s0), s1), s2), x3);
    Row0(x0, x1, s1, s2, s3);
    Row1(s0, x1, x2, s2, s3);
    Row2(s0, s1, x2, x3, s3);
    Row3(x0, s0, s1, s2, x3);
  }

  /** The first `n` columns of `b` are `f` of those of `o`, and the rest are those of `o`. */
  ghost predicate ColumnsDone(b: Block, o: Block, n: nat, f: Column -> Column)
    requires n <= 4
  {
    && (forall c :: 0 <= c < n ==> b[4 * c..4 * c + 4] == f(o[4 * c..4 * c + 4]))
    && b[4 * n..] == o[4 * n..]
  }

  lemma OneColumnMore(was: Block, b: Block, o: Block, n: nat, f: Column -> Column)
    requires n < 4 && ColumnsDone(was, o, n, f)
    requires b[4 * n..4 * n + 4] == f(was[4 * n..4 * n + 4])
    requires forall k :: 0 <= k < 16 && !(4 * n <= k < 4 * n + 4) ==> b[k] == was[k]
    ensures ColumnsDone(b, o, n + 1, f)
  {
    assert was[4 * n..4 * n + 4] == was[4 * n..][..4] == o[4 * n..][..4] == o[4 * n..4 * n + 4];
    forall c | 0 <= c < n ensures b[4 * c..4 * c + 4] == f(o[4 * c..4 * c + 4]) {
      assert b[4 * c..4 * c + 4] == was[4 * c..4 * c + 4];
    }
    assert b[4 * (n + 1)..] == was[4 * n..][4..] == o[4 * n..][4..] == o[4 * (n + 1)..];
  }

  lemma AllColumnsDone(b: Block, o: Block, f: Column -> Column)
    requires ColumnsDone(b, o, 4, f)
    ensures b == OnColumns(o, f)
  {
    assert b[4 * 0..4 * 0 + 4] == f(o[4 * 0..4 * 0 + 4]) && b[4 * 1..4 * 1 + 4] == f(o[4 * 1..4 * 1 + 4]);
    assert b[4 * 2..4 * 2 + 4] == f(o[4 * 2..4 * 2 + 4]) && b[4 * 3..4 * 3 + 4] == f(o[4 * 3..4 * 3 + 4]);
    assert b == b[0..4] + b[4..8] + b[8..12] + b[12..16];
  }

  method MixNextColumn(b: array<byte>, ghost o: Block, col: nat)
    requires b.Length == 16 && col < 4 && ColumnsDone(b[..], o, col, MixColumn)
    modifies b
    ensures ColumnsDone(b[..], o, col + 1, MixColumn)
  {
    ghost var was: Block := b[..];
    assert was[4 * col..4 * col + 4] == b[4 * col..4 * col + 4];
    MixOneColumn(b, 4 * col);
    OneColumnMore(was, b[..], o, col, MixColumn);
  }

  method MixColumnsInPlace(b: array<byte>)
    requires b.Length == 16
    modifies b
    ensures b[..] == MixColumns(old(b[..]))
  {
    ghost var o: Block := b[..];
    var col := 0;
    while col < 4
      invariant 0 <= col <= 4
      invariant ColumnsDone(b[..], o, col, MixColumn)
    {
      MixNextColumn(b, o, col);
      col := col + 1;
    }
    AllColumnsDone(b[..], o, MixColumn);
  }

  /** The code's products by 9, 11, 13 and 14 from three doublings. */
  function Mul9(s: byte): byte {
    Add(Xtime(Xtime(Xtime(s))), s)
  }

  function Mul11(s: byte): byte {
    Add(Add(Xtime(Xtime(Xtime(s))), Xtime(s)), s)
  }

  function Mul13(s: byte): byte {
    Add(Add(Xtime(Xtime(Xtime(s))), Xtime(Xtime(s))), s)
  }

  function Mul14(s: byte): byte {
    Add(Add(Xtime(Xtime(Xtime(s))), Xtime(Xtime(s))), Xtime(s))
  }

  lemma MulStep(c: nat, s: byte)
    requires c > 0
    ensures Mul(c, s) == Add(if c % 2 == 1 then s else 0, Mul(c / 2, Xtime(s)))
  {
  }

  lemma MulLarge(s: byte)
    ensures Mul(9, s) == Mul9(s) && Mul(11, s) == Mul11(s) && Mul(13, s) == Mul13(s) && Mul(14, s) == Mul14(s)
  {
    var x2 := Xtime(s);
    var x4 := Xtime(x2);
    var x8 := Xtime(x4);
    MulSmall(x8);
    AddZero(x8);
    assert Mul(2, x4) == x8 && Mul(4, x2) == x8 by {
      MulSmall(x4);
      MulDouble(2, x2);
    }
    assert Mul(3, x4) == Add(x4, x8) && Mul(6, x2) == Add(x4, x8) by {
      MulSmall(x4);
      MulDouble(3, x2);
    }
    assert Mul(5, x2) == Add(x2, x8) by { MulStep(5, x2); }
    assert Mul(7, x2) == Add(x2, Add(x4, x8)) by { MulStep(7, x2); }
    assert Mul(9, s) == Add(s, x8) by { MulStep(9, s); }
    assert Mul(11, s) == Add(s, Add(x2, x8)) by { MulStep(11, s); }
    assert Mul(13, s) == Add(s, Add(x4, x8)) by { MulStep(13, s); }
    assert Mul(14, s) == Add(x2, Add(x4, x8)) by { MulDouble(7, s); }
    AddComm(s, x8);
    AddComm(x2, x8);
    AddComm(s, Add(x8, x2));
    AddComm(x4, x8);
    AddComm(s, Add(x8, x4));
    AddComm(x2, Add(x8, x4));
  }

  method InvMixOneColumn(b: array<byte>, i: nat)
    requires b.Length == 16 && i + 4 <= 16
    modifies b
    ensures b[i..i + 4] == InvMixColumn(old(b[i..i + 4]))
    ensures forall n :: 0 <= n < 16 && !(i <= n < i + 4) ==> b[n] == old(b[n])
  {
    var s0, s1, s2, s3 := b[i], b[i + 1], b[i + 2], b[i + 3];
    assert b[i..i + 4] == [s0, s1, s2, s3];
    InvRows(s0, s1, s2, s3);
    var t0 := Add(Add(Add(Mul14(s0), Mul11(s1)), Mul13(s2)), Mul9(s3));
    var t1 := Add(Add(Add(Mul9(s0), Mul14(s1)), Mul11(s2)), Mul13(s3));
    var t2 := Add(Add(Add(Mul13(s0), Mul9(s1)), Mul14(s2)), Mul11(s3));
    var t3 := Add(Add(Add(Mul11(s0), Mul13(s1)), Mul9(s2)), Mul14(s3));
    SetColumn(b, i, t0, t1, t2, t3);
  }

  method SetColumn(b: array<byte>, i: nat, t0: byte, t1: byte, t2: byte, t3: byte)
    requires b.Length == 16 && i + 4 <= 16
    modifies b
    ensures b[i..i + 4] == [t0, t1, t2, t3]
    ensures forall n :: 0 <= n < 16 && !(i <= n < i + 4) ==> b[n] == old(b[n])
  {
    b[i] := t0;
    b[i + 1] := t1;
    b[i + 2] := t2;
    b[i + 3] := t3;
  }

  lemma InvRows(s0: byte, s1: byte, s2: byte, s3: byte)
    ensures InvMixColumn([s0, s1, s2, s3])
         == [Add(Add(Add(Mul14(s0), Mul11(s1)), Mul13(s2)), Mul9(s3)),
             Add(Add(Add(Mul9(s0), Mul14(s1)), Mul11(s2)), Mul13(s3)),
             Add(Add(Add(Mul13(s0), Mul9(s1)), Mul14(s2)), Mul11(s3)),
             Add(Add(Add(Mul11(s0), Mul13(s1)), Mul9(s2)), Mul14(s3))]
  {
    assert Mul(9, s0) == Mul9(s0) && Mul(11, s0) == Mul11(s0)
      && Mul(13, s0) == Mul13(s0) && Mul(14, s0) == Mul14(s0) by {
      MulLarge(s0);
    }
    assert Mul(9, s1) == Mul9(s1) && Mul(11, s1) == Mul11(s1)
      && Mul(13, s1) == Mul13(s1) && Mul(14, s1) == Mul14(s1) by {
      MulLarge(s1);
    }
    assert Mul(9, s2) == Mul9(s2) && Mul(11, s2) == Mul11(s2)
      && Mul(13, s2) == Mul13(s2) && Mul(14, s2) == Mul14(s2) by {
      MulLarge(s2);
    }
    assert Mul(9, s3) == Mul9(s3) && Mul(11, s3) == Mul11(s3)
      && Mul(13, s3) == Mul13(s3) && Mul(14, s3) == Mul14(s3) by {
      MulLarge(s3);
    }
    FourTerms(Mul14(s0), Mul11(s1), Mul13(s2), Mul9(s3));
    FourTerms(Mul9(s0), Mul14(s1), Mul11(s2), Mul13(s3));
    FourTerms(Mul13(s0), Mul9(s1), Mul14(s2), Mul11(s3));
    FourTerms(Mul11(s0), Mul13(s1), Mul9(s2), Mul14(s3));
    Sum4Rotate(Mul14(s1), Mul11(s2), Mul13(s3), Mul9(s0));
    AddComm(Add(Mul13(s0), Mul9(s1)), Add(Mul14(s2), Mul11(s3)));
    Sum4Rotate(Mul11(s0), Mul13(s1), Mul9(s2), Mul14(s3));
  }

  lemma FourTerms(a: byte, b: byte, c: byte, d: byte)
    ensures Add(Add(Add(a, b), c), d) == Sum4(a, b, c, d)
  {
    AddAssoc(Add(a, b), c, d);
  }

  method InvMixNextColumn(b: array<byte>, ghost o: Block, col: nat)
    requires b.Length == 16 && col < 4 && ColumnsDone(b[..], o, col, InvMixColumn)
    modifies b
    ensures ColumnsDone(b[..], o, col + 1, InvMixColumn)
  {
    ghost var was: Block := b[..];
    assert was[4 * col..4 * col + 4] == b[4 * col..4 * col + 4];
    InvMixOneColumn(b, 4 * col);
    OneColumnMore(was, b[..], o, col, InvMixColumn);
  }

  method InvMixColumnsInPlace(b: array<byte>)
    requires b.Length == 16
    modifies b
    ensures b[..] == InvMixColumns(old(b[..]))
  {
    ghost var o: Block := b[..];
    var col := 0;
    while col < 4
      invariant 0 <= col <= 4
      invariant ColumnsDone(b[..], o, col, InvMixColumn)
    {
      InvMixNextColumn(b, o, col);
      col := col + 1;
    }
    AllColumnsDone(b[..], o, InvMixColumn);
  }

  // ---------------------------------------------------------------- blocks

  method RoundInPlace(b: array<byte>, k: Block)
    requires b.Length == 16
    modifies b
    ensures b[..] == Round(old(b[..]), k)
  {
    SubBytesInPlace(b);
    ShiftRowsInPlace(b);
    MixColumnsInPlace(b);
    AddKeyInPlace(b, k);
  }

  method InvRoundInPlace(b: array<byte>, k: Block)
    requires b.Length == 16
    modifies b
    ensures b[..] == InvRound(old(b[..]), k)
  {
    InvShiftRowsInPlace(b);
    InvSubBytesInPlace(b);
    AddKeyInPlace(b, k);
    InvMixColumnsInPlace(b);
  }

  method RoundsInPlace(b: array<byte>, k: Schedule, n: nat)
    requires b.Length == 16 && n < 15
    modifies b
    ensures b[..] == Rounds(old(b[..]), k, n)
  {
    ghost var o: Block := b[..];
    AddKeyInPlace(b, k[0]);
    var round := 1;
    while round < n + 1
      invariant 1 <= round <= n + 1
      invariant b[..] == Rounds(o, k, round - 1)
    {
      RoundInPlace(b, k[round]);
      round := round + 1;
    }
  }

  method InvRoundsInPlace(b: array<byte>, k: Schedule, n: nat)
    requires b.Length == 16 && n < 15
    modifies b
    ensures b[..] == InvRounds(old(b[..]), k, n)
  {
    ghost var o: Block := b[..];
    for round := n + 1 downto 1
      invariant InvRounds(b[..], k, round - 1) == InvRounds(o, k, n)
    {
      InvRoundInPlace(b, k[round]);
    }
  }

  method EncryptBlock(b: array<byte>, k: Schedule)
    requires b.Length == 16
    modifies b
    ensures b[..] == Encrypted(old(b[..]), k)
  {
    RoundsInPlace(b, k, |k| - 2);
    SubBytesInPlace(b);
    ShiftRowsInPlace(b);
    AddKeyInPlace(b, k[14]);
  }

  method DecryptBlock(b: array<byte>, k: Schedule)
    requires b.Length == 16
    modifies b
    ensures b[..] == Decrypted(old(b[..]), k)
  {
    AddKeyInPlace(b, k[14]);
    InvRoundsInPlace(b, k, |k| - 2);
    InvShiftRowsInPlace(b);
    InvSubBytesInPlace(b);
    AddKeyInPlace(b, k[0]);
  }

  // ---------------------------------------------------------------- sectors

  lemma OrOfHalves(x: byte, y: byte)
    ensures Or(Low(x), y / 0x80) == Low(x) + y / 0x80
  {
    OrZero(Low(x) / 2);
  }

  method AlphaInPlace(t: array<byte>)
    requires t.Length == 16
    modifies t
    ensures t[..] == Alpha(old(t[..]))
  {
    var carry := t[15] / 0x80;
    ghost var o: Block := t[..];
    ShiftUp(t);
    ghost var s := t[..];
    t[0] := Low(t[0]);
    if carry != 0 {
      t[0] := Add(t[0], 0x87);
    }
    AlphaIs(o, s, t[..]);
  }

  lemma AlphaIs(o: Block, s: Block, t: Block)
    requires s[0] == o[0] && forall n :: 1 <= n < 16 ==> s[n] == Low(o[n]) + o[n - 1] / 0x80
    requires t == s[0 := if o[15] / 0x80 != 0 then Add(Low(s[0]), 0x87) else Low(s[0])]
    ensures t == Alpha(o)
  {
    AddZero(Low(o[0]));
    var a := Alpha(o);
    forall n | 0 <= n < 16 ensures t[n] == a[n] {
    }
  }

  /** All bytes but the first doubled, each taking in the top bit of the one before it. */
  method ShiftUp(t: array<byte>)
    requires t.Length == 16
    modifies t
    ensures t[0] == old(t[0]) && forall n :: 1 <= n < 16 ==> t[n] == Low(old(t[n])) + old(t[n - 1]) / 0x80
  {
    ghost var o := t[..];
    var i := 15;
    while i >= 1
      invariant 0 <= i <= 15
      invariant forall n :: i < n < 16 ==> t[n] == Low(o[n]) + o[n - 1] / 0x80
      invariant forall n :: 0 <= n <= i ==> t[n] == o[n]
    {
      OrOfHalves(t[i], t[i - 1]);
      t[i] := Or(Low(t[i]), t[i - 1] / 0x80);
      i := i - 1;
    }
  }

  /** A block through the cipher under a tweak. */
  method CryptBlock(blk: array<byte>, tweak: Block, key1: Schedule, encrypt: bool)
    requires blk.Length == 16
    modifies blk
    ensures encrypt ==> blk[..] == Tweaked(old(blk[..]), tweak, Encrypting(key1))
    ensures !encrypt ==> blk[..] == Tweaked(old(blk[..]), tweak, Decrypting(key1))
  {
    AddKeyInPlace(blk, tweak);
    if encrypt {
      EncryptBlock(blk, key1);
    } else {
      DecryptBlock(blk, key1);
    }
    AddKeyInPlace(blk, tweak);
  }

  method CopyOut(sector: array<byte>, offset: nat) returns (blk: array<byte>)
    requires offset + 16 <= sector.Length
    ensures fresh(blk) && blk.Length == 16 && blk[..] == sector[offset..offset + 16]
  {
    blk := new byte[16];
    forall i | 0 <= i < 16 {
      blk[i] := sector[offset + i];
    }
  }

  method CopyIn(sector: array<byte>, offset: nat, blk: array<byte>)
    requires offset + 16 <= sector.Length && blk.Length == 16 && blk != sector
    modifies sector
    ensures sector[..] == old(sector[..offset]) + blk[..] + old(sector[offset + 16..])
  {
    forall i | 0 <= i < 16 {
      sector[offset + i] := blk[i];
    }
  }

  method SectorTweakArray(n: u64, key2: Schedule) returns (tweak: array<byte>)
    ensures fresh(tweak) && tweak.Length == 16 && tweak[..] == SectorTweak(n, key2)
  {
    tweak := new byte[16];
    var le := SectorBlock(n);
    forall i | 0 <= i < 16 {
      tweak[i] := le[i];
    }
    assert tweak[..] == le;
    EncryptBlock(tweak, key2);
  }

  /** The blocks before `offset` are done and the rest, under the tweak `t`, still makes up `whole`. */
  ghost predicate Partly(s: seq<byte>, offset: nat, t: Block, f: Block -> Block, whole: seq<byte>) {
    offset <= |s| && whole == s[..offset] + Xts(s[offset..], t, f)
  }

  /** One block of the text done. */
  ghost function Stepped(s: seq<byte>, offset: nat, t: Block, f: Block -> Block): seq<byte>
    requires offset + 16 <= |s|
  {
    s[..offset] + Tweaked(s[offset..offset + 16], t, f) + s[offset + 16..]
  }

  lemma PartlyMore(s: seq<byte>, n: seq<byte>, offset: nat, t: Block, f: Block -> Block, whole: seq<byte>)
    requires Partly(s, offset, t, f, whole) && offset + 16 <= |s|
    requires n == Stepped(s, offset, t, f)
    ensures Partly(n, offset + 16, Alpha(t), f, whole)
  {
    var rest := s[offset..];
    assert rest[..16] == s[offset..offset + 16] && rest[16..] == s[offset + 16..];
    var b := Tweaked(rest[..16], t, f);
    assert n[..offset + 16] == s[..offset] + b && n[offset + 16..] == rest[16..];
    assert Xts(rest, t, f) == b + Xts(rest[16..], Alpha(t), f);
  }

  /** One block of the sector in place, and the tweak moved on. */
  method CryptStep(sector: array<byte>, offset: nat, tweak: array<byte>, key1: Schedule, encrypt: bool,
                   ghost f: Block -> Block)
    requires offset + 16 <= sector.Length && tweak.Length == 16 && tweak != sector
    requires f == if encrypt then Encrypting(key1) else Decrypting(key1)
    modifies sector, tweak
    ensures sector[..] == Stepped(old(sector[..]), offset, old(tweak[..]), f)
    ensures tweak[..] == Alpha(old(tweak[..]))
  {
    assert sector[..][..offset] == sector[..offset] && sector[..][offset + 16..] == sector[offset + 16..];
    assert sector[..][offset..offset + 16] == sector[offset..offset + 16];
    var blk := CopyOut(sector, offset);
    CryptBlock(blk, tweak[..], key1, encrypt);
    CopyIn(sector, offset, blk);
    AlphaInPlace(tweak);
  }

  /** Every whole block of the sector; only the block cipher between the tweak additions differs
      between the two directions. */
  method CryptNext(sector: array<byte>, offset: nat, tweak: array<byte>, key1: Schedule, encrypt: bool,
                   ghost f: Block -> Block, ghost whole: seq<byte>)
    requires offset + 16 <= sector.Length && tweak.Length == 16 && tweak != sector
    requires f == if encrypt then Encrypting(key1) else Decrypting(key1)
    requires Partly(sector[..], offset, tweak[..], f, whole)
    modifies sector, tweak
    ensures Partly(sector[..], offset + 16, tweak[..], f, whole)
  {
    ghost var was, t: Block := sector[..], tweak[..];
    CryptStep(sector, offset, tweak, key1, encrypt, f);
    PartlyMore(was, sector[..], offset, t, f, whole);
  }

  method CryptSector(sector: array<byte>, tweak: array<byte>, key1: Schedule, encrypt: bool, ghost f: Block -> Block)
    requires tweak.Length == 16 && tweak != sector
    requires f == if encrypt then Encrypting(key1) else Decrypting(key1)
    modifies sector, tweak
    ensures sector[..] == Xts(old(sector[..]), old(tweak[..]), f)
  {
    ghost var whole := Xts(sector[..], tweak[..], f);
    var offset := 0;
    while offset + 16 <= sector.Length
      invariant Partly(sector[..], offset, tweak[..], f, whole)
    {
      CryptNext(sector, offset, tweak, key1, encrypt, f, whole);
      offset := offset + 16;
    }
  }

  method EncryptSector(sector: array<byte>, n: u64, key1: Schedule, key2: Schedule)
    modifies sector
    ensures sector[..] == EncryptedSector(old(sector[..]), n, key1, key2)
  {
    var tweak := SectorTweakArray(n, key2);
    CryptSector(sector, tweak, key1, true, Encrypting(key1));
  }

  method DecryptSector(sector: array<byte>, n: u64, key1: Schedule, key2: Schedule)
    modifies sector
    ensures sector[..] == DecryptedSector(old(sector[..]), n, key1, key2)
  {
    var tweak := SectorTweakArray(n, key2);
    CryptSector(sector, tweak, key1, false, Decrypting(key1));
  }
}
