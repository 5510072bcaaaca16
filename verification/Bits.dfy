/** Machine words as bounded integers, with the bitwise operators the source uses
    written out by recursion on the bits. */
module Bits {

  type byte = x: int | 0 <= x < 0x100
  type u16 = x: int | 0 <= x < 0x1_0000
  type u32 = x: int | 0 <= x < 0x1_0000_0000
  type u64 = x: int | 0 <= x < 0x1_0000_0000_0000_0000

  const U16_MAX := 0xFFFF
  const U32_MAX := 0xFFFF_FFFF
  const U64_MAX := 0xFFFF_FFFF_FFFF_FFFF

  function Min(a: int, b: int): int {
    if a <= b then a else b
  }

  function Max(a: int, b: int): int {
    if a <= b then b else a
  }

  function Pow2(n: nat): (p: nat)
    ensures p > 0
  {
    if n == 0 then 1 else 2 * Pow2(n - 1)
  }

  function Or(a: nat, b: nat): nat {
    if a == 0 && b == 0 then 0
    else 2 * Or(a / 2, b / 2) + if a % 2 == 1 || b % 2 == 1 then 1 else 0
  }

  function And(a: nat, b: nat): nat {
    if a == 0 || b == 0 then 0
    else 2 * And(a / 2, b / 2) + if a % 2 == 1 && b % 2 == 1 then 1 else 0
  }

  function Xor(a: nat, b: nat): nat {
    if a == 0 && b == 0 then 0
    else 2 * Xor(a / 2, b / 2) + if a % 2 != b % 2 then 1 else 0
  }

  lemma {:induction false} OrZero(a: nat)
    ensures Or(a, 0) == a && Or(0, a) == a
  {
    if a != 0 { OrZero(a / 2); }
  }

  /** Or-ing in a field that starts above every bit of `a` adds it. */
  lemma {:induction false} OrDisjoint(a: nat, b: nat, k: nat)
    requires a < Pow2(k)
    ensures Or(a, b * Pow2(k)) == a + b * Pow2(k)
  {
    if k == 0 {
      OrZero(b);
    } else if a == 0 && b * Pow2(k) == 0 {
    } else {
      var hi := b * Pow2(k - 1);
      assert b * Pow2(k) == 2 * hi;
      OrDisjoint(a / 2, b, k - 1);
    }
  }

  lemma OrShifted(a: nat, b: nat, x: nat, k: nat)
    requires k == 8 || k == 14 || k == 20 || k == 24 || k == 26
    requires x == b * (if k == 8 then 0x100 else if k == 14 then 0x4000 else if k == 20 then 0x10_0000
                       else if k == 24 then 0x100_0000 else 0x400_0000)
    requires a < if k == 8 then 0x100 else if k == 14 then 0x4000 else if k == 20 then 0x10_0000
                 else if k == 24 then 0x100_0000 else 0x400_0000
    ensures Or(a, x) == a + x
  {
    Pow2Values();
    OrDisjoint(a, b, k);
  }

  lemma {:induction false} XorDisjoint(a: nat, b: nat, k: nat)
    requires a < Pow2(k)
    ensures Xor(a, b * Pow2(k)) == a + b * Pow2(k)
  {
    if k == 0 {
      XorZero(b);
    } else if a == 0 && b * Pow2(k) == 0 {
    } else {
      var hi := b * Pow2(k - 1);
      assert b * Pow2(k) == 2 * hi;
      XorDisjoint(a / 2, b, k - 1);
    }
  }

  /** And-ing with an all-ones mask wide enough to cover `a` keeps it. */
  lemma {:induction false} AndOnes(a: nat, k: nat)
    requires a < Pow2(k)
    ensures And(a, Pow2(k) - 1) == a
  {
    if k != 0 && a != 0 {
      AndOnes(a / 2, k - 1);
      assert (Pow2(k) - 1) / 2 == Pow2(k - 1) - 1;
    }
  }

  lemma {:induction false} XorComm(a: nat, b: nat)
    ensures Xor(a, b) == Xor(b, a)
  {
    if a != 0 || b != 0 { XorComm(a / 2, b / 2); }
  }

  lemma {:induction false} XorZero(a: nat)
    ensures Xor(a, 0) == a && Xor(0, a) == a
  {
    if a != 0 { XorZero(a / 2); }
  }

  lemma {:induction false} XorSelf(a: nat)
    ensures Xor(a, a) == 0
  {
    if a != 0 { XorSelf(a / 2); }
  }

  lemma {:induction false} XorAssoc(a: nat, b: nat, c: nat)
    ensures Xor(Xor(a, b), c) == Xor(a, Xor(b, c))
  {
    if a == 0 {
      XorZero(b);
      XorZero(Xor(b, c));
    } else if b == 0 && c == 0 {
      XorZero(a);
    } else if a != 0 || b != 0 || c != 0 {
      XorAssoc(a / 2, b / 2, c / 2);
      XorHalves(a, b);
      XorHalves(b, c);
      XorHalves(Xor(a, b), c);
      XorHalves(a, Xor(b, c));
    }
  }

  lemma XorHalves(a: nat, b: nat)
    ensures Xor(a, b) / 2 == Xor(a / 2, b / 2)
    ensures Xor(a, b) % 2 == if a % 2 != b % 2 then 1 else 0
    ensures Xor(a, b) == 2 * Xor(a / 2, b / 2) + if a % 2 != b % 2 then 1 else 0
  {
  }

  lemma XorUndo(a: nat, b: nat)
    ensures Xor(Xor(a, b), b) == a
  {
    XorAssoc(a, b, b);
    XorSelf(b);
    XorZero(a);
  }

  lemma {:induction false} XorBound(a: nat, b: nat, k: nat)
    requires a < Pow2(k) && b < Pow2(k)
    ensures Xor(a, b) < Pow2(k)
  {
    if k != 0 && !(a == 0 && b == 0) { XorBound(a / 2, b / 2, k - 1); }
  }

  lemma Pow2Values()
    ensures Pow2(8) == 0x100 && Pow2(14) == 0x4000 && Pow2(20) == 0x10_0000 && Pow2(24) == 0x100_0000
    ensures Pow2(26) == 0x400_0000 && Pow2(32) == 0x1_0000_0000 && Pow2(64) == 0x1_0000_0000_0000_0000
  {
    assert Pow2(7) == 0x80;
    Pow2Add(7, 7); Pow2Add(10, 10); Pow2Add(10, 14); Pow2Add(13, 13); Pow2Add(16, 16); Pow2Add(32, 32);
  }

  lemma {:induction false} Pow2Add(m: nat, n: nat)
    ensures Pow2(m + n) == Pow2(m) * Pow2(n)
  {
    if m != 0 {
      Pow2Add(m - 1, n);
      assert Pow2(m) * Pow2(n) == 2 * (Pow2(m - 1) * Pow2(n));
    }
  }

  predicate BitAt(x: nat, n: nat) {
    if n == 0 then x % 2 == 1 else BitAt(x / 2, n - 1)
  }

  lemma {:induction false} BitAtXor(a: nat, b: nat, n: nat)
    ensures BitAt(Xor(a, b), n) <==> BitAt(a, n) != BitAt(b, n)
  {
    XorHalves(a, b);
    if n != 0 { BitAtXor(a / 2, b / 2, n - 1); }
  }

  /** Masking with a single bit tests it. */
  lemma {:induction false} AndBit(x: nat, k: nat)
    ensures And(x, Pow2(k)) == 0 <==> !BitAt(x, k)
  {
    if x == 0 {
      ZeroHasNoBits(k);
    } else if k == 0 {
      assert And(x / 2, 0) == 0;
    } else {
      assert Pow2(k) == 2 * Pow2(k - 1);
      AndBit(x / 2, k - 1);
    }
  }

  lemma {:induction false} ZeroHasNoBits(k: nat)
    ensures !BitAt(0, k)
  {
    if k > 0 { ZeroHasNoBits(k - 1); }
  }

  /** Or-ing a single bit in sets it and no other. */
  lemma {:induction false} OrBit(x: nat, k: nat, n: nat)
    ensures BitAt(Or(x, Pow2(k)), n) <==> BitAt(x, n) || n == k
  {
    if k == 0 {
      OrZero(x / 2);
    } else {
      assert Pow2(k) == 2 * Pow2(k - 1);
      if n > 0 { OrBit(x / 2, k - 1, n - 1); }
    }
  }

  lemma {:induction false} OrBound(a: nat, b: nat, k: nat)
    requires a < Pow2(k) && b < Pow2(k)
    ensures Or(a, b) < Pow2(k)
  {
    if k != 0 && !(a == 0 && b == 0) { OrBound(a / 2, b / 2, k - 1); }
  }

  lemma {:induction false} Pow2Grows(i: nat, j: nat)
    requires i < j
    ensures Pow2(i) < Pow2(j)
  {
    if i < j - 1 { Pow2Grows(i, j - 1); }
  }

  /** The position of the highest one bit, counted from one. */
  function BitLength(x: nat): nat {
    if x == 0 then 0 else 1 + BitLength(x / 2)
  }
}
