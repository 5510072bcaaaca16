/** A set of small numbers kept one bit each in an array of bytes. */
module Bitset {
  import opened Bits

  predicate Has(bits: seq<byte>, i: nat) {
    i / 8 < |bits| && BitAt(bits[i / 8], i % 8)
  }

  /** The source's test: the byte masked with the bit is not zero. */
  method Test(bits: array<byte>, i: nat) returns (b: bool)
    requires i / 8 < bits.Length
    ensures b == Has(bits[..], i)
  {
    AndBit(bits[i / 8], i % 8);
    b := And(bits[i / 8], Pow2(i % 8)) != 0;
  }

  method Mark(bits: array<byte>, i: nat)
    requires i / 8 < bits.Length
    modifies bits
    ensures forall k :: Has(bits[..], k) <==> Has(old(bits[..]), k) || k == i
  {
    var n, k := i / 8, i % 8;
    Pow2Values();
    Pow2Grows(k, 8);
    OrBound(bits[n], Pow2(k), 8);
    bits[n] := Or(bits[n], Pow2(k));
    forall j: nat ensures Has(bits[..], j) <==> Has(old(bits[..]), j) || j == i {
      if j / 8 == n { OrBit(old(bits[n]), k, j % 8); }
    }
  }

  lemma EmptyHasNone(bits: seq<byte>, i: nat)
    requires forall k :: 0 <= k < |bits| ==> bits[k] == 0
    ensures !Has(bits, i)
  {
    ZeroHasNoBits(i % 8);
  }
}
