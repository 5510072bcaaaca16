/** The seeded FNV-1a hash the sketches and fingerprints share. */
module Fnv {
  import opened Bits

  const OFFSET: u64 := 0xcbf29ce484222325
  const PRIME: u64 := 0x100000001b3

  /** One byte folded in: exclusive-or, then a wrapping multiplication. */
  function Folded(h: u64, b: byte): u64 {
    XorWord(h, b) * PRIME % 0x1_0000_0000_0000_0000
  }

  function XorWord(a: u64, b: u64): u64 {
    Pow2Values();
    XorBound(a, b, 64);
    Xor(a, b)
  }

  function Fnv1a(data: seq<byte>, seed: u64): u64 {
    if |data| == 0 then XorWord(OFFSET, seed)
    else Folded(Fnv1a(data[..|data| - 1], seed), data[|data| - 1])
  }

  lemma More(data: seq<byte>, i: nat, seed: u64)
    requires i < |data|
    ensures Fnv1a(data[..i + 1], seed) == Folded(Fnv1a(data[..i], seed), data[i])
  {
    assert data[..i + 1][..i] == data[..i];
  }

  method Hash(data: seq<byte>, seed: u64) returns (h: u64)
    ensures h == Fnv1a(data, seed)
  {
    h := XorWord(OFFSET, seed);
    var i := 0;
    while i < |data|
      invariant 0 <= i <= |data| && h == Fnv1a(data[..i], seed)
    {
      More(data, i, seed);
      h := Folded(h, data[i]);
      i := i + 1;
    }
    assert data[..|data|] == data;
  }
}
