/** The ChaCha20 block function and stream (sections 2.1 to 2.4 of RFC 8439). */
module ChaCha {
  import opened Bits
  import opened LittleEndian

  type State = s: seq<u32> | |s| == 16 witness seq(16, _ => 0)

  function Add32(x: u32, y: u32): u32 {
    (x as int + y) % 0x1_0000_0000
  }

  function Xor32(x: u32, y: u32): u32 {
    Pow2Values();
    XorBound(x, y, 32);
    Xor(x, y)
  }

  /** The shift counts of the quarter round. */
  predicate IsShift(n: nat) {
    n == 16 || n == 12 || n == 8 || n == 7
  }

  /** Rotation to the left. */
  function Rotated(x: u32, n: nat): u32
    requires IsShift(n)
  {
    if n == 16 then x % 0x1_0000 * 0x1_0000 + x / 0x1_0000
    else if n == 12 then x % 0x10_0000 * 0x1000 + x / 0x10_0000
    else if n == 8 then x % 0x100_0000 * 0x100 + x / 0x100_0000
    else x % 0x200_0000 * 0x80 + x / 0x200_0000
  }

  lemma RotatedBack(x: u32, n: nat)
    requires IsShift(n)
    ensures UnRotated(Rotated(x, n), n) == x
  {
    if n == 16 {
      SplitBack16(x);
    } else if n == 12 {
      SplitBack12(x);
    } else if n == 8 {
      SplitBack8(x);
    } else {
      SplitBack7(x);
    }
  }

  lemma SplitBack16(x: u32)
    ensures var y := x % 0x1_0000 * 0x1_0000 + x / 0x1_0000; y % 0x1_0000 * 0x1_0000 + y / 0x1_0000 == x
  {
    var low, high := x % 0x1_0000, x / 0x1_0000;
    assert high < 0x1_0000 && (low * 0x1_0000 + high) / 0x1_0000 == low && (low * 0x1_0000 + high) % 0x1_0000 == high;
  }

  lemma SplitBack12(x: u32)
    ensures var y := x % 0x10_0000 * 0x1000 + x / 0x10_0000; y % 0x1000 * 0x10_0000 + y / 0x1000 == x
  {
    var low, high := x % 0x10_0000, x / 0x10_0000;
    assert high < 0x1000 && (low * 0x1000 + high) / 0x1000 == low && (low * 0x1000 + high) % 0x1000 == high;
  }

  lemma SplitBack8(x: u32)
    ensures var y := x % 0x100_0000 * 0x100 + x / 0x100_0000; y % 0x100 * 0x100_0000 + y / 0x100 == x
  {
    var low, high := x % 0x100_0000, x / 0x100_0000;
    assert high < 0x100 && (low * 0x100 + high) / 0x100 == low && (low * 0x100 + high) % 0x100 == high;
  }

  lemma SplitBack7(x: u32)
    ensures var y := x % 0x200_0000 * 0x80 + x / 0x200_0000; y % 0x80 * 0x200_0000 + y / 0x80 == x
  {
    var low, high := x % 0x200_0000, x / 0x200_0000;
    assert high < 0x80 && (low * 0x80 + high) / 0x80 == low && (low * 0x80 + high) % 0x80 == high;
  }

  function UnRotated(y: u32, n: nat): u32
    requires IsShift(n)
  {
    if n == 16 then y % 0x1_0000 * 0x1_0000 + y / 0x1_0000
    else if n == 12 then y % 0x1000 * 0x10_0000 + y / 0x1000
    else if n == 8 then y % 0x100 * 0x100_0000 + y / 0x100
    else y % 0x80 * 0x200_0000 + y / 0x80
  }

  predicate Distinct4(a: nat, b: nat, c: nat, d: nat) {
    a < 16 && b < 16 && c < 16 && d < 16 && a != b && a != c && a != d && b != c && b != d && c != d
  }

  /** Add `b` into `a`, exclusive-or that into `d`, and rotate `d`. */
  function Mixed(s: State, a: nat, b: nat, d: nat, n: nat): State
    requires a < 16 && b < 16 && d < 16
    requires IsShift(n)
  {
    var t := s[a := Add32(s[a], s[b])];
    t[d := Rotated(Xor32(t[d], t[a]), n)]
  }

  function UnMixed(s: State, a: nat, b: nat, d: nat, n: nat): State
    requires a < 16 && b < 16 && d < 16
    requires IsShift(n)
  {
    var t := s[d := Xor32(UnRotated(s[d], n), s[a])];
    t[a := Sub32(t[a], t[b])]
  }

  function Sub32(x: u32, y: u32): u32 {
    (x as int - y) % 0x1_0000_0000
  }

  lemma SubBack(x: u32, y: u32)
    ensures Sub32(Add32(x, y), y) == x
  {
  }

  lemma UnMixes(s: State, a: nat, b: nat, d: nat, n: nat)
    requires a < 16 && b < 16 && d < 16 && a != b && a != d && b != d
    requires IsShift(n)
    ensures UnMixed(Mixed(s, a, b, d, n), a, b, d, n) == s
  {
    var sum := Add32(s[a], s[b]);
    var x := Xor32(s[d], sum);
    RotatedBack(x, n);
    XorUndo(s[d], sum);
    SubBack(s[a], s[b]);
    UpdatesBack(s, a, b, d, sum, Rotated(x, n));
  }

  lemma UpdatesBack(s: State, a: nat, b: nat, d: nat, x: u32, y: u32)
    requires a < 16 && b < 16 && d < 16 && a != b && a != d && b != d
    ensures s[a := x][d := y][d := s[d]][a := s[a]] == s && s[a := x][d := y][d := s[d]][b] == s[b]
  {
  }

  function QuarterRound(s: State, a: nat, b: nat, c: nat, d: nat): State
    requires Distinct4(a, b, c, d)
  {
    var s1 := Mixed(s, a, b, d, 16);
    var s2 := Mixed(s1, c, d, b, 12);
    var s3 := Mixed(s2, a, b, d, 8);
    Mixed(s3, c, d, b, 7)
  }

  function UnQuarterRound(s: State, a: nat, b: nat, c: nat, d: nat): State
    requires Distinct4(a, b, c, d)
  {
    var s3 := UnMixed(s, c, d, b, 7);
    var s2 := UnMixed(s3, a, b, d, 8);
    var s1 := UnMixed(s2, c, d, b, 12);
    UnMixed(s1, a, b, d, 16)
  }

  /** A quarter round loses nothing: it can be run backwards. */
  lemma QuarterRoundInverts(s: State, a: nat, b: nat, c: nat, d: nat, mixed: State)
    requires Distinct4(a, b, c, d) && mixed == QuarterRound(s, a, b, c, d)
    ensures UnQuarterRound(mixed, a, b, c, d) == s
  {
    var s1 := Mixed(s, a, b, d, 16);
    var s2 := Mixed(s1, c, d, b, 12);
    var s3 := Mixed(s2, a, b, d, 8);
    UnMixes(s, a, b, d, 16);
    UnMixes(s1, c, d, b, 12);
    UnMixes(s2, a, b, d, 8);
    UnMixes(s3, c, d, b, 7);
  }

  /** Words without a bit in common. */
  lemma XorApart(low: u32, u: nat, k: nat)
    requires low < Pow2(k) && u * Pow2(k) < 0x1_0000_0000
    ensures Xor32(low, u * Pow2(k)) == low + u * Pow2(k)
    ensures Xor32(u * Pow2(k), low) == low + u * Pow2(k)
  {
    XorDisjoint(low, u, k);
    XorComm(low, u * Pow2(k));
  }

  lemma OneAbove(low: u32, one: u32)
    requires low < one == 0x1000_0000
    ensures Xor32(low, one) == Xor32(one, low) == low + one
  {
    Pow2Values();
    Pow2Add(4, 24);
    XorApart(low, 1, 28);
  }

  predicate HasWords(s: State, a: nat, b: nat, c: nat, d: nat, x: u32, y: u32, z: u32, w: u32)
    requires Distinct4(a, b, c, d)
  {
    s[a] == x && s[b] == y && s[c] == z && s[d] == w
  }

  /** One mix of four words. */
  lemma MixOfWords(s: State, a: nat, b: nat, c: nat, d: nat, n: nat, sum: u32, mixed: u32, turned: u32)
    requires Distinct4(a, b, c, d) && IsShift(n)
    requires Add32(s[a], s[b]) == sum && Xor32(s[d], sum) == mixed && Rotated(mixed, n) == turned
    ensures HasWords(Mixed(s, a, b, d, n), a, b, c, d, sum, s[b], s[c], turned)
  {
  }

  lemma FirstWords(one: u32, zero: u32)
    requires zero == 0 && one == 1
    ensures Add32(zero, zero) == zero && Xor32(one, zero) == one && Rotated(one, 16) == 0x1_0000
  {
    XorZero(one);
  }

  lemma SecondWords(w: u32, zero: u32)
    requires zero == 0 && w == 0x1_0000
    ensures Add32(zero, w) == w && Xor32(zero, w) == w && Rotated(w, 12) == 0x1000_0000
  {
    WithZero(w, zero);
    Turned12(w);
  }

  lemma WithZero(w: u32, zero: u32)
    requires zero == 0
    ensures Add32(zero, w) == w && Xor32(zero, w) == w && Xor32(w, zero) == w
  {
    XorZero(w);
  }

  lemma Turned12(w: u32)
    requires w == 0x1_0000
    ensures Rotated(w, 12) == 0x1000_0000
  {
  }

  lemma ThirdWords(y: u32, w: u32, zero: u32)
    requires zero == 0 && y == 0x1000_0000 && w == 0x1_0000
    ensures Add32(zero, y) == y && Xor32(w, y) == w + y && Rotated(w + y, 8) == 0x0100_0010
  {
    WithZero(y, zero);
    OneAbove(w, y);
    Turned8(w + y);
  }

  lemma Turned8(w: u32)
    requires w == 0x1001_0000
    ensures Rotated(w, 8) == 0x0100_0010
  {
  }

  lemma FourthWords(y: u32, z: u32, w: u32, sum: u32)
    requires y == 0x1000_0000 && z == 0x1_0000 && w == 0x0100_0010 && sum == z + w
    ensures Add32(z, w) == sum && Xor32(y, sum) == sum + y && Rotated(sum + y, 7) == 0x8080_0808
  {
    SmallSum(z, w);
    OneAbove(sum, y);
    Turned7(sum + y);
  }

  lemma SmallSum(x: u32, y: u32)
    requires x + y < 0x1_0000_0000
    ensures Add32(x, y) == x + y
  {
  }

  lemma Turned7(w: u32)
    requires w == 0x1101_0010
    ensures Rotated(w, 7) == 0x8080_0808
  {
  }

  /** Where a single bit goes in a quarter round: every addition and every shift count shows. */
  lemma QuarterRoundOfOne(s: State, a: nat, b: nat, c: nat, d: nat)
    requires Distinct4(a, b, c, d) && s[a] == 0 && s[b] == 0 && s[c] == 0 && s[d] == 1
    ensures HasWords(QuarterRound(s, a, b, c, d), a, b, c, d, 0x1000_0000, 0x8080_0808, 0x0101_0010, 0x0100_0010)
  {
    var s1 := Mixed(s, a, b, d, 16);
    var s2 := Mixed(s1, c, d, b, 12);
    var s3 := Mixed(s2, a, b, d, 8);
    FirstWords(s[d], s[a]);
    MixOfWords(s, a, b, c, d, 16, s[a], s[d], 0x1_0000);
    SecondWords(s1[d], s1[c]);
    MixOfWords(s1, c, d, a, b, 12, s1[d], s1[d], 0x1000_0000);
    ThirdWords(s2[b], s2[d], s2[a]);
    MixOfWords(s2, a, b, c, d, 8, s2[b], s2[d] + s2[b], 0x0100_0010);
    FourthWords(s3[b], s3[c], s3[d], s3[c] + s3[d]);
    MixOfWords(s3, c, d, a, b, 7, s3[c] + s3[d], s3[c] + s3[d] + s3[b], 0x8080_0808);
  }

  // ---------------------------------------------------------------- the block

  function ColumnRounds(s: State): State {
    QuarterRound(QuarterRound(QuarterRound(QuarterRound(s, 0, 4, 8, 12), 1, 5, 9, 13), 2, 6, 10, 14), 3, 7, 11, 15)
  }

  function DiagonalRounds(s: State): State {
    QuarterRound(QuarterRound(QuarterRound(QuarterRound(s, 0, 5, 10, 15), 1, 6, 11, 12), 2, 7, 8, 13), 3, 4, 9, 14)
  }

  /** A column round and a diagonal round. */
  function DoubleRound(s: State): State {
    DiagonalRounds(ColumnRounds(s))
  }

  function Repeated(f: State -> State, s: State, n: nat): State
    decreases n
  {
    if n == 0 then s else f(Repeated(f, s, n - 1))
  }

  function RepeatedFirst(f: State -> State, s: State, n: nat): State
    decreases n
  {
    if n == 0 then s else RepeatedFirst(f, f(s), n - 1)
  }

  lemma {:induction false} RepeatedInverts(f: State -> State, g: State -> State, s: State, n: nat)
    requires forall t :: g(f(t)) == t
    ensures RepeatedFirst(g, Repeated(f, s, n), n) == s
  {
    if n > 0 { RepeatedInverts(f, g, s, n - 1); }
  }

  function UnColumnRounds(s: State): State {
    UnQuarterRound(UnQuarterRound(UnQuarterRound(UnQuarterRound(s, 3, 7, 11, 15), 2, 6, 10, 14), 1, 5, 9, 13),
                   0, 4, 8, 12)
  }

  function UnDiagonalRounds(s: State): State {
    UnQuarterRound(UnQuarterRound(UnQuarterRound(UnQuarterRound(s, 3, 4, 9, 14), 2, 7, 8, 13), 1, 6, 11, 12),
                   0, 5, 10, 15)
  }

  function UnDoubleRound(s: State): State {
    UnColumnRounds(UnDiagonalRounds(s))
  }

  lemma ColumnRoundsInvert(s: State)
    ensures UnColumnRounds(ColumnRounds(s)) == s
  {
    var s1 := QuarterRound(s, 0, 4, 8, 12);
    var s2 := QuarterRound(s1, 1, 5, 9, 13);
    var s3 := QuarterRound(s2, 2, 6, 10, 14);
    QuarterRoundInverts(s3, 3, 7, 11, 15, ColumnRounds(s));
    QuarterRoundInverts(s2, 2, 6, 10, 14, s3);
    QuarterRoundInverts(s1, 1, 5, 9, 13, s2);
    QuarterRoundInverts(s, 0, 4, 8, 12, s1);
  }

  lemma DiagonalRoundsInvert(s: State)
    ensures UnDiagonalRounds(DiagonalRounds(s)) == s
  {
    var s1 := QuarterRound(s, 0, 5, 10, 15);
    var s2 := QuarterRound(s1, 1, 6, 11, 12);
    var s3 := QuarterRound(s2, 2, 7, 8, 13);
    QuarterRoundInverts(s3, 3, 4, 9, 14, DiagonalRounds(s));
    QuarterRoundInverts(s2, 2, 7, 8, 13, s3);
    QuarterRoundInverts(s1, 1, 6, 11, 12, s2);
    QuarterRoundInverts(s, 0, 5, 10, 15, s1);
  }

  lemma DoubleRoundInverts(s: State)
    ensures UnDoubleRound(DoubleRound(s)) == s
  {
    DiagonalRoundsInvert(ColumnRounds(s));
    ColumnRoundsInvert(s);
  }

  /** Any number of double rounds is a permutation of the states. */
  lemma RoundsInvert(s: State, n: nat)
    ensures RepeatedFirst(UnDoubleRound, Repeated(DoubleRound, s, n), n) == s
  {
    forall t: State ensures UnDoubleRound(DoubleRound(t)) == t { DoubleRoundInverts(t); }
    RepeatedInverts(DoubleRound, UnDoubleRound, s, n);
  }

  function ByteOf(w: u32, k: nat): byte {
    if k == 0 then w % 0x100
    else if k == 1 then w / 0x100 % 0x100
    else if k == 2 then w / 0x1_0000 % 0x100
    else w / 0x100_0000
  }

  /** The constants, the key, the counter and the nonce. */
  function Initial(key: seq<byte>, counter: u32, nonce: seq<byte>): State
    requires |key| == 32 && |nonce| == 12
  {
    [0x6170_7865, 0x3320_646e, 0x7962_2d32, 0x6b20_6574,
     DecodeU32(key, 0), DecodeU32(key, 4), DecodeU32(key, 8), DecodeU32(key, 12),
     DecodeU32(key, 16), DecodeU32(key, 20), DecodeU32(key, 24), DecodeU32(key, 28),
     counter, DecodeU32(nonce, 0), DecodeU32(nonce, 4), DecodeU32(nonce, 8)]
  }

  function Summed(s: State, t: State): State {
    seq(16, i requires 0 <= i < 16 => Add32(s[i], t[i]))
  }

  function Bytes(s: State): (b: seq<byte>)
    ensures |b| == 64
  {
    seq(64, j requires 0 <= j < 64 => ByteOf(s[j / 4], j % 4))
  }

  /** Ten double rounds. */
  function Permuted(s: State): State {
    Repeated(DoubleRound, s, 10)
  }

  /** The block for any permutation of the states. */
  function Block(permute: State -> State, key: seq<byte>, counter: u32, nonce: seq<byte>): (b: seq<byte>)
    requires |key| == 32 && |nonce| == 12
    ensures |b| == 64
  {
    var init := Initial(key, counter, nonce);
    Bytes(Summed(permute(init), init))
  }

  ghost predicate IsDoubleRound(f: State -> State) {
    forall s: State {:trigger DoubleRound(s)} :: f(s) == DoubleRound(s)
  }

  ghost predicate IsChaCha(permute: State -> State) {
    forall s: State {:trigger Permuted(s)} :: permute(s) == Permuted(s)
  }

  method MixInPlace(s: array<u32>, a: nat, b: nat, d: nat, n: nat)
    requires s.Length == 16 && a < 16 && b < 16 && d < 16 && IsShift(n)
    modifies s
    ensures s[..] == Mixed(old(s[..]), a, b, d, n)
  {
    s[a] := Add32(s[a], s[b]);
    s[d] := Xor32(s[d], s[a]);
    s[d] := Rotated(s[d], n);
  }

  method QuarterRoundInPlace(s: array<u32>, a: nat, b: nat, c: nat, d: nat)
    requires s.Length == 16 && Distinct4(a, b, c, d)
    modifies s
    ensures s[..] == QuarterRound(old(s[..]), a, b, c, d)
  {
    MixInPlace(s, a, b, d, 16);
    MixInPlace(s, c, d, b, 12);
    MixInPlace(s, a, b, d, 8);
    MixInPlace(s, c, d, b, 7);
  }

  method ColumnRoundsInPlace(s: array<u32>)
    requires s.Length == 16
    modifies s
    ensures s[..] == ColumnRounds(old(s[..]))
  {
    QuarterRoundInPlace(s, 0, 4, 8, 12);
    QuarterRoundInPlace(s, 1, 5, 9, 13);
    QuarterRoundInPlace(s, 2, 6, 10, 14);
    QuarterRoundInPlace(s, 3, 7, 11, 15);
  }

  method DiagonalRoundsInPlace(s: array<u32>)
    requires s.Length == 16
    modifies s
    ensures s[..] == DiagonalRounds(old(s[..]))
  {
    QuarterRoundInPlace(s, 0, 5, 10, 15);
    QuarterRoundInPlace(s, 1, 6, 11, 12);
    QuarterRoundInPlace(s, 2, 7, 8, 13);
    QuarterRoundInPlace(s, 3, 4, 9, 14);
  }

  method DoubleRoundInPlace(s: array<u32>, ghost f: State -> State)
    requires s.Length == 16 && IsDoubleRound(f)
    modifies s
    ensures s[..] == f(old(s[..]))
  {
    ghost var was: State := s[..];
    ColumnRoundsInPlace(s);
    DiagonalRoundsInPlace(s);
    assert s[..] == DoubleRound(was);
  }

  method RepeatInPlace(s: array<u32>, n: nat, ghost f: State -> State)
    requires s.Length == 16 && IsDoubleRound(f)
    modifies s
    ensures s[..] == Repeated(f, old(s[..]), n)
  {
    var i := 0;
    while i < n
      invariant 0 <= i <= n && s[..] == Repeated(f, old(s[..]), i)
    {
      DoubleRoundInPlace(s, f);
      i := i + 1;
    }
  }

  method PermuteInPlace(s: array<u32>, ghost permute: State -> State)
    requires s.Length == 16 && IsChaCha(permute)
    modifies s
    ensures s[..] == permute(old(s[..]))
  {
    ghost var was: State := s[..];
    RepeatInPlace(s, 10, DoubleRound);
    assert s[..] == Permuted(was);
  }

  method ComputeBlock(key: seq<byte>, counter: u32, nonce: seq<byte>, ghost permute: State -> State)
    returns (out: seq<byte>)
    requires |key| == 32 && |nonce| == 12 && IsChaCha(permute)
    ensures out == Block(permute, key, counter, nonce)
  {
    var init := Initial(key, counter, nonce);
    var s := new u32[16](i requires 0 <= i < 16 => init[i]);
    assert s[..] == init;
    PermuteInPlace(s, permute);
    AddInPlace(s, init);
    out := Bytes(s[..]);
  }

  method AddInPlace(s: array<u32>, t: State)
    requires s.Length == 16
    modifies s
    ensures s[..] == Summed(old(s[..]), t)
  {
    var i := 0;
    while i < 16
      invariant 0 <= i <= 16
      invariant forall k :: 0 <= k < 16 ==> s[k] == if k < i then Add32(old(s[k]), t[k]) else old(s[k])
    {
      s[i] := Add32(s[i], t[i]);
      i := i + 1;
    }
  }

  // ---------------------------------------------------------------- the stream

  function XorByte(x: byte, y: byte): byte {
    Pow2Values();
    XorBound(x, y, 8);
    Xor(x, y)
  }

  /** The keystream by offset; the block counter wraps at 32 bits. */
  function Keystream(permute: State -> State, key: seq<byte>, nonce: seq<byte>, counter: u32): nat -> byte
    requires |key| == 32 && |nonce| == 12
  {
    (i: nat) => Block(permute, key, (counter as int + i / 64) % 0x1_0000_0000, nonce)[i % 64]
  }

  function Crypted(data: seq<byte>, ks: nat -> byte): (c: seq<byte>)
    ensures |c| == |data|
  {
    if |data| == 0 then [] else Crypted(data[..|data| - 1], ks) + [XorByte(data[|data| - 1], ks(|data| - 1))]
  }

  lemma {:induction false} CryptedAt(data: seq<byte>, ks: nat -> byte, i: nat)
    requires i < |data|
    ensures Crypted(data, ks)[i] == XorByte(data[i], ks(i))
  {
    if i < |data| - 1 { CryptedAt(data[..|data| - 1], ks, i); }
  }

  /** A stream applied twice gives the data back. */
  lemma CryptTwice(data: seq<byte>, ks: nat -> byte)
    ensures Crypted(Crypted(data, ks), ks) == data
  {
    var once := Crypted(data, ks);
    forall i: nat | i < |data| ensures Crypted(once, ks)[i] == data[i] {
      CryptedAt(data, ks, i);
      CryptedAt(once, ks, i);
      XorUndo(data[i], ks(i));
    }
  }

  /** The first `done` of `len` bytes have had the stream applied, the rest are as they were. */
  ghost predicate PartlyCrypted(now: seq<byte>, was: seq<byte>, len: nat, ks: nat -> byte, done: nat) {
    && |now| == |was| && len <= |was|
    && (forall i :: 0 <= i < done && i < len ==> now[i] == XorByte(was[i], ks(i)))
    && (forall i :: (done <= i || len <= i) && 0 <= i < |was| ==> now[i] == was[i])
  }

  method XorBlock(buf: array<byte>, offset: nat, len: nat, block: seq<byte>) returns (next: nat)
    requires offset < len <= buf.Length && |block| == 64
    modifies buf
    ensures next == Min(offset + 64, len)
    ensures forall i :: 0 <= i < buf.Length ==>
      buf[i] == if offset <= i < next then XorByte(old(buf[i]), block[i - offset]) else old(buf[i])
  {
    var chunk := Min(64, len - offset);
    var i := 0;
    while i < chunk
      invariant 0 <= i <= chunk
      invariant forall k :: 0 <= k < buf.Length ==>
        buf[k] == if offset <= k < offset + i then XorByte(old(buf[k]), block[k - offset]) else old(buf[k])
    {
      buf[offset + i] := XorByte(buf[offset + i], block[i]);
      i := i + 1;
    }
    next := offset + chunk;
  }

  lemma CounterSteps(counter: u32, n: nat)
    ensures ((counter as int + n) % 0x1_0000_0000 + 1) % 0x1_0000_0000 == (counter as int + (n + 1)) % 0x1_0000_0000
  {
  }

  /** A block is the stretch of the keystream at its offset. */
  predicate IsStretch(block: seq<byte>, ks: nat -> byte, offset: nat) {
    |block| == 64 && forall i :: 0 <= i < 64 ==> block[i] == ks(offset + i)
  }

  lemma BlockIsStretch(permute: State -> State, key: seq<byte>, nonce: seq<byte>, counter: u32, n: nat)
    requires |key| == 32 && |nonce| == 12
    ensures IsStretch(Block(permute, key, (counter as int + n) % 0x1_0000_0000, nonce),
      Keystream(permute, key, nonce, counter), 64 * n)
  {
    var ks, block := Keystream(permute, key, nonce, counter),
      Block(permute, key, (counter as int + n) % 0x1_0000_0000, nonce);
    forall i: nat | i < 64 ensures block[i] == ks(64 * n + i) {
      assert (64 * n + i) / 64 == n && (64 * n + i) % 64 == i;
    }
  }

  method StreamBlock(key: seq<byte>, nonce: seq<byte>, first: u32, counter: u32, ghost n: nat,
                     ghost permute: State -> State, ghost ks: nat -> byte)
    returns (block: seq<byte>)
    requires |key| == 32 && |nonce| == 12 && counter == (first as int + n) % 0x1_0000_0000
    requires IsChaCha(permute) && ks == Keystream(permute, key, nonce, first)
    ensures IsStretch(block, ks, 64 * n)
  {
    block := ComputeBlock(key, counter, nonce, permute);
    BlockIsStretch(permute, key, nonce, first, n);
  }

  method XorStream(key: seq<byte>, nonce: seq<byte>, first: u32, buf: array<byte>, len: nat,
                   ghost permute: State -> State, ghost ks: nat -> byte)
    requires |key| == 32 && |nonce| == 12 && len <= buf.Length
    requires IsChaCha(permute) && ks == Keystream(permute, key, nonce, first)
    modifies buf
    ensures buf[..len] == Crypted(old(buf[..len]), ks) && buf[len..] == old(buf[len..])
  {
    ghost var was := buf[..];
    var counter: u32 := first;
    var offset := 0;
    ghost var n: nat := 0;
    while offset < len
      invariant offset <= len && (offset < len ==> offset == 64 * n)
      invariant counter == (first as int + n) % 0x1_0000_0000
      invariant PartlyCrypted(buf[..], was, len, ks, offset)
      decreases len - offset
    {
      var block := StreamBlock(key, nonce, first, counter, n, permute, ks);
      ghost var before := buf[..];
      var next := XorBlock(buf, offset, len, block);
      BlockCrypts(before, buf[..], was, len, ks, offset, next, block);
      CounterSteps(first, n);
      offset, counter, n := next, (counter as int + 1) % 0x1_0000_0000, n + 1;
    }
    AllCrypted(buf[..], was, len, ks);
  }

  lemma AllCrypted(now: seq<byte>, was: seq<byte>, len: nat, ks: nat -> byte)
    requires PartlyCrypted(now, was, len, ks, len)
    ensures now[..len] == Crypted(was[..len], ks) && now[len..] == was[len..]
  {
    forall i: nat | i < len ensures now[i] == Crypted(was[..len], ks)[i] {
      CryptedAt(was[..len], ks, i);
    }
  }

  lemma BlockCrypts(before: seq<byte>, now: seq<byte>, was: seq<byte>, len: nat, ks: nat -> byte, offset: nat,
                    next: nat, block: seq<byte>)
    requires PartlyCrypted(before, was, len, ks, offset) && IsStretch(block, ks, offset)
    requires offset < len && next == Min(offset + 64, len) && |now| == |before|
    requires forall i :: 0 <= i < |now| ==>
      now[i] == if offset <= i < next then XorByte(before[i], block[i - offset]) else before[i]
    ensures PartlyCrypted(now, was, len, ks, next)
  {
    forall i | offset <= i < next ensures now[i] == XorByte(was[i], ks(i)) {
      assert block[i - offset] == ks(offset + (i - offset));
    }
  }
}
