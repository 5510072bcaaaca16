/** What tells the blocks of a disk apart: the sector's number, and the block's place in the sector. */
module AesXtsTweak {
  import opened Bits
  import opened LittleEndian
  import opened AesXts
  import opened Rounding

  // ---------------------------------------------------------------- sector numbers

  /** The `i`-th lowest byte of a number. */
  function Digit(x: nat, i: nat): byte {
    if i == 0 then x % 256 else Digit(x / 256, i - 1)
  }

  lemma {:induction false} EncodeAt(x: nat, n: nat, i: nat)
    requires i < n
    ensures Encode(x, n)[i] == Digit(x, i)
  {
    if i > 0 { EncodeAt(x / 256, n - 1, i - 1); }
  }

  /** `k` digits are passed over by dividing. */
  lemma DigitIs(n: nat, i: nat, d: nat)
    requires d == Pow256(i)
    ensures Digit(n, i) == n / d % 256
  {
    if i > 0 {
      DigitIs(n / 256, i - 1, Pow256(i - 1));
      DivideTwice(n, Pow256(i - 1));
    }
  }

  function Pow256(i: nat): (p: nat)
    ensures p > 0
  {
    if i == 0 then 1 else 256 * Pow256(i - 1)
  }

  lemma DivideTwice(n: nat, d: nat)
    requires d > 0
    ensures n / 256 / d == n / (256 * d)
  {
    var q, r := n / 256 / d, n / 256 % d;
    assert n / 256 == q * d + r;
    var x := 256 * r + n % 256;
    assert n == q * (256 * d) + x;
    QuotientIs(n, 256 * d, q, x);
  }

  lemma Powers()
    ensures Pow256(1) == 0x100 && Pow256(2) == 0x1_0000 && Pow256(3) == 0x100_0000 && Pow256(4) == 0x1_0000_0000
    ensures Pow256(5) == 0x100_0000_0000 && Pow256(6) == 0x1_0000_0000_0000 && Pow256(7) == 0x100_0000_0000_0000
  {
  }

  lemma SectorDigit(n: u64, i: nat)
    requires i < 8
    ensures SectorBlock(n)[i] == Digit(n, i)
  {
    Powers();
    DigitIs(n, i, Pow256(i));
  }

  lemma SectorBytes(n: u64)
    ensures SectorBlock(n)[..8] == Encode(n, 8)
  {
    forall i | 0 <= i < 8 ensures SectorBlock(n)[..8][i] == Encode(n, 8)[i] {
      EncodeAt(n, 8, i);
      SectorDigit(n, i);
    }
  }

  /** The block handed to the tweak cipher holds the sector number, lowest byte first, and then zeros. */
  lemma SectorBlockHoldsNumber(n: u64)
    ensures Decode(SectorBlock(n)[..8]) == n
    ensures forall i :: 8 <= i < 16 ==> SectorBlock(n)[i] == 0
  {
    SectorBytes(n);
    DecodeEncode8(n);
  }

  /** No two sectors share a tweak. */
  lemma TweaksDiffer(m: u64, n: u64, key2: Schedule)
    requires m != n
    ensures SectorTweak(m, key2) != SectorTweak(n, key2)
  {
    SectorBlockHoldsNumber(m);
    SectorBlockHoldsNumber(n);
    DecryptedEncrypted(SectorBlock(m), key2);
    DecryptedEncrypted(SectorBlock(n), key2);
  }

  // ---------------------------------------------------------------- blocks within a sector

  /** The tweak times x to the `j`. */
  function TweakAt(t: Block, j: nat): Block {
    if j == 0 then t else Alpha(TweakAt(t, j - 1))
  }

  function BlockAt(s: seq<byte>, j: nat): Block
    requires 16 * j + 16 <= |s|
  {
    s[16 * j..16 * j + 16]
  }

  lemma FirstBlock(s: seq<byte>, t: Block, f: Block -> Block)
    requires |s| >= 16
    ensures Xts(s, t, f)[..16] == Tweaked(s[..16], t, f)
  {
  }

  lemma WithoutFirst(s: seq<byte>, t: Block, f: Block -> Block)
    requires |s| >= 16
    ensures Xts(s, t, f)[16..] == Xts(s[16..], Alpha(t), f)
  {
  }

  lemma DropMore(s: seq<byte>, k: nat)
    requires k + 16 <= |s|
    ensures s[k..][16..] == s[k + 16..] && s[k..][..16] == s[k..k + 16]
  {
  }

  /** After `j` blocks the rest is treated like a sector of its own, under the tweak times x to the `j`. */
  lemma {:induction false} XtsDrop(s: seq<byte>, t: Block, f: Block -> Block, j: nat)
    requires 16 * j <= |s|
    ensures Xts(s, t, f)[16 * j..] == Xts(s[16 * j..], TweakAt(t, j), f)
  {
    if j > 0 {
      var k := 16 * (j - 1);
      XtsDrop(s, t, f, j - 1);
      WithoutFirst(s[k..], TweakAt(t, j - 1), f);
      DropMore(Xts(s, t, f), k);
      DropMore(s, k);
    }
  }

  /** Block `j` goes through the block cipher under that tweak. */
  lemma XtsBlock(s: seq<byte>, t: Block, f: Block -> Block, j: nat)
    requires 16 * j + 16 <= |s|
    ensures BlockAt(Xts(s, t, f), j) == Tweaked(BlockAt(s, j), TweakAt(t, j), f)
  {
    XtsDrop(s, t, f, j);
    FirstBlock(s[16 * j..], TweakAt(t, j), f);
    DropMore(Xts(s, t, f), 16 * j);
    DropMore(s, 16 * j);
  }

  lemma Untweaked(b: Block, t: Block, f: Block -> Block)
    ensures AddKey(Tweaked(b, t, f), t) == f(AddKey(b, t))
  {
    AddKeyTwice(f(AddKey(b, t)), t);
  }

  /** What is left after the last whole block is not touched. */
  lemma XtsTail(s: seq<byte>, t: Block, f: Block -> Block)
    ensures Xts(s, t, f)[16 * (|s| / 16)..] == s[16 * (|s| / 16)..]
  {
    XtsDrop(s, t, f, |s| / 16);
  }

  /** What encryption writes to block `j` of sector `n`. */
  lemma EncryptedBlock(s: seq<byte>, n: u64, key1: Schedule, key2: Schedule, j: nat)
    requires 16 * j + 16 <= |s|
    ensures var t := TweakAt(SectorTweak(n, key2), j);
      AddKey(BlockAt(EncryptedSector(s, n, key1, key2), j), t) == Encrypted(AddKey(BlockAt(s, j), t), key1)
  {
    XtsBlock(s, SectorTweak(n, key2), Encrypting(key1), j);
    Untweaked(BlockAt(s, j), TweakAt(SectorTweak(n, key2), j), Encrypting(key1));
  }

  /** What decryption writes to block `j` of sector `n`. */
  lemma DecryptedBlock(s: seq<byte>, n: u64, key1: Schedule, key2: Schedule, j: nat)
    requires 16 * j + 16 <= |s|
    ensures var t := TweakAt(SectorTweak(n, key2), j);
      AddKey(BlockAt(DecryptedSector(s, n, key1, key2), j), t) == Decrypted(AddKey(BlockAt(s, j), t), key1)
  {
    XtsBlock(s, SectorTweak(n, key2), Decrypting(key1), j);
    Untweaked(BlockAt(s, j), TweakAt(SectorTweak(n, key2), j), Decrypting(key1));
  }
}
