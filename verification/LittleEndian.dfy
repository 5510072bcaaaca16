/** Numbers as bytes, lowest first. */
module LittleEndian {
  import opened Bits

  function Encode(x: nat, n: nat): (s: seq<byte>)
    ensures |s| == n
  {
    if n == 0 then [] else [x % 256] + Encode(x / 256, n - 1)
  }

  /** The number in `s[i..]`. */
  function DecodeFrom(s: seq<byte>, i: nat): nat
    requires i <= |s|
    decreases |s| - i
  {
    if i == |s| then 0 else s[i] + 0x100 * DecodeFrom(s, i + 1)
  }

  function Decode(s: seq<byte>): nat {
    DecodeFrom(s, 0)
  }

  /** The four bytes at `i`. */
  function DecodeU32(s: seq<byte>, i: nat): u32
    requires i + 4 <= |s|
  {
    s[i] + 0x100 * (s[i + 1] as int) + 0x1_0000 * (s[i + 2] as int) + 0x100_0000 * (s[i + 3] as int)
  }

  lemma {:induction false} DecodeTail(s: seq<byte>, i: nat)
    requires 1 <= i <= |s|
    ensures DecodeFrom(s, i) == DecodeFrom(s[1..], i - 1)
    decreases |s| - i
  {
    if i < |s| { DecodeTail(s, i + 1); }
  }

  lemma DecodeFirst(s: seq<byte>)
    requires |s| > 0
    ensures Decode(s) == s[0] + 256 * Decode(s[1..])
  {
    DecodeTail(s, 1);
  }

  /** What fits in `n` bytes is read back. */
  lemma {:induction false} DecodeEncode(x: nat, n: nat)
    requires x < Pow2(8 * n)
    ensures Decode(Encode(x, n)) == x
  {
    if n > 0 {
      Pow2Add(8, 8 * (n - 1));
      Pow2Values();
      assert Encode(x, n)[1..] == Encode(x / 256, n - 1);
      DecodeFirst(Encode(x, n));
      DecodeEncode(x / 256, n - 1);
    }
  }

  lemma EncodeInjective(x: nat, y: nat, n: nat)
    requires x < Pow2(8 * n) && y < Pow2(8 * n) && Encode(x, n) == Encode(y, n)
    ensures x == y
  {
    DecodeEncode(x, n);
    DecodeEncode(y, n);
  }

  lemma DecodeEncode8(x: u64)
    ensures Decode(Encode(x, 8)) == x
  {
    Pow2Values();
    DecodeEncode(x, 8);
  }

  lemma DecodeEncode4(x: u32)
    ensures Decode(Encode(x, 4)) == x
  {
    Pow2Values();
    DecodeEncode(x, 4);
  }
}
