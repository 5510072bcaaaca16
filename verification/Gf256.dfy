/** The byte field of AES: polynomials over GF(2) modulo x^8 + x^4 + x^3 + x + 1
    (section 4 of FIPS 197). A multiplier is a bit mask; addition is exclusive or. */
module Gf256 {
  import opened Bits

  function Add(a: byte, b: byte): byte {
    Pow2Values();
    XorBound(a, b, 8);
    Xor(a, b)
  }

  function Xtime(x: byte): byte {
    Add(x * 2 % 0x100, x / 0x80 * 0x1B)
  }

  /** `c` times `s`, one shift of `s` for each bit of `c`. */
  function Mul(c: nat, s: byte): byte {
    if c == 0 then 0
    else Add(if c % 2 == 1 then s else 0, Mul(c / 2, Xtime(s)))
  }

  /** The product of two masks without reduction. */
  function MaskMul(c: nat, d: nat): nat {
    if c == 0 then 0
    else Xor(if c % 2 == 1 then d else 0, MaskMul(c / 2, 2 * d))
  }

  lemma AddZero(a: byte)
    ensures Add(a, 0) == a && Add(0, a) == a
  {
    XorZero(a);
  }

  lemma AddUndo(a: byte, b: byte)
    ensures Add(Add(a, b), b) == a
  {
    XorUndo(a, b);
  }

  lemma AddAssoc(a: byte, b: byte, c: byte)
    ensures Add(Add(a, b), c) == Add(a, Add(b, c))
  {
    XorAssoc(a, b, c);
  }

  lemma AddMedial(a: byte, b: byte, c: byte, d: byte)
    ensures Add(Add(a, b), Add(c, d)) == Add(Add(a, c), Add(b, d))
  {
    AddAssoc(Add(a, b), c, d);
    AddAssoc(a, b, c);
    XorComm(b, c);
    AddAssoc(a, c, b);
    AddAssoc(Add(a, c), b, d);
  }

  lemma XorEven(x: nat, r: nat, y: nat, v: nat)
    ensures Xor(2 * x + r, 2 * y + v) == 2 * Xor(x + r / 2, y + v / 2) + if r % 2 != v % 2 then 1 else 0
  {
    XorHalves(2 * x + r, 2 * y + v);
  }

  function Shift(q: nat, k: nat): nat {
    if k == 0 then q else 2 * Shift(q, k - 1)
  }

  lemma {:induction false} XorJoin(q: nat, r: nat, u: nat, v: nat, k: nat)
    requires r < Pow2(k) && v < Pow2(k)
    ensures Xor(Shift(q, k) + r, Shift(u, k) + v) == Shift(Xor(q, u), k) + Xor(r, v)
  {
    if k != 0 {
      XorEven(Shift(q, k - 1), r, Shift(u, k - 1), v);
      XorHalves(r, v);
      XorJoin(q, r / 2, u, v / 2, k - 1);
    } else {
      XorZero(0);
    }
  }

  lemma ShiftSeven(q: nat)
    ensures Shift(q, 7) == 0x80 * q
  {
    assert Shift(q, 2) == 2 * Shift(q, 1) && Shift(q, 1) == 2 * q;
    assert Shift(q, 4) == 2 * Shift(q, 3) && Shift(q, 3) == 2 * Shift(q, 2);
    assert Shift(q, 6) == 2 * Shift(q, 5) && Shift(q, 5) == 2 * Shift(q, 4);
  }

  lemma Doubled(x: byte)
    ensures x * 2 % 0x100 == 2 * (x % 0x80 as int)
    ensures x == x / 0x80 * 0x80 + x % 0x80
    ensures x / 0x80 <= 1
  {
  }

  lemma TopBit(x: byte, q: nat, r: nat)
    requires x == q * 0x80 + r && r < 0x80
    ensures x / 0x80 == q && x % 0x80 == r
  {
  }

  lemma XorAtSeven(q: nat, r: nat, u: nat, v: nat)
    requires r < 0x80 && v < 0x80
    ensures Xor(0x80 * q + r, 0x80 * u + v) == 0x80 * Xor(q, u) + Xor(r, v)
  {
    assert Xor(Shift(q, 7) + r, Shift(u, 7) + v) == Shift(Xor(q, u), 7) + Xor(r, v) by {
      assert Pow2(7) == 0x80;
      XorJoin(q, r, u, v, 7);
    }
    var x, y, z := Shift(q, 7), Shift(u, 7), Shift(Xor(q, u), 7);
    assert x == 0x80 * q by { ShiftSeven(q); }
    assert y == 0x80 * u by { ShiftSeven(u); }
    assert z == 0x80 * Xor(q, u) by { ShiftSeven(Xor(q, u)); }
  }

  lemma XorBelowSeven(r: nat, v: nat)
    requires r < 0x80 && v < 0x80
    ensures Xor(r, v) < 0x80
  {
    assert Pow2(7) == 0x80;
    XorBound(r, v, 7);
  }

  lemma {:induction false} AddTopBit(a: byte, b: byte)
    ensures Add(a, b) / 0x80 == Xor(a / 0x80, b / 0x80)
    ensures Add(a, b) % 0x80 == Xor(a % 0x80, b % 0x80)
  {
    var q, r, u, v := a / 0x80, a % 0x80, b / 0x80, b % 0x80;
    XorAtSeven(q, r, u, v);
    XorBelowSeven(r, v);
    TopBit(Add(a, b), Xor(q, u), Xor(r, v));
  }

  lemma XtimeAdd(a: byte, b: byte)
    ensures Xtime(Add(a, b)) == Add(Xtime(a), Xtime(b))
  {
    var q, r, u, v := a / 0x80, a % 0x80, b / 0x80, b % 0x80;
    AddTopBit(a, b);
    Doubled(a);
    Doubled(b);
    Doubled(Add(a, b));
    XorEven(r, 0, v, 0);
    assert Xor(q, u) * 0x1B == Add(q * 0x1B, u * 0x1B) by {
      XorZero(0x1B);
      XorSelf(0x1B);
    }
    AddMedial(a * 2 % 0x100, b * 2 % 0x100, q * 0x1B, u * 0x1B);
  }

  lemma {:induction false} MulZero(c: nat)
    ensures Mul(c, 0) == 0
  {
    if c != 0 {
      assert Xtime(0) == 0;
      MulZero(c / 2);
    }
  }

  lemma {:induction false} MulAdd(c: nat, s: byte, t: byte)
    ensures Mul(c, Add(s, t)) == Add(Mul(c, s), Mul(c, t))
  {
    if c != 0 {
      XtimeAdd(s, t);
      MulAdd(c / 2, Xtime(s), Xtime(t));
      AddMedial(if c % 2 == 1 then s else 0, Mul(c / 2, Xtime(s)), if c % 2 == 1 then t else 0, Mul(c / 2, Xtime(t)));
    }
  }

  lemma {:induction false} MulXor(c: nat, d: nat, s: byte)
    ensures Mul(Xor(c, d), s) == Add(Mul(c, s), Mul(d, s))
  {
    if c == 0 || d == 0 {
      XorZero(c);
      XorZero(d);
      AddZero(Mul(c, s));
      AddZero(Mul(d, s));
    } else {
      MulXor(c / 2, d / 2, Xtime(s));
      XorHalves(c, d);
      AddZero(s);
      XorSelf(s);
      AddMedial(if c % 2 == 1 then s else 0, Mul(c / 2, Xtime(s)), if d % 2 == 1 then s else 0, Mul(d / 2, Xtime(s)));
      if Xor(c, d) == 0 {
        AddZero(Mul(Xor(c / 2, d / 2), Xtime(s)));
      }
    }
  }

  lemma {:induction false} XtimeMul(d: nat, s: byte)
    ensures Xtime(Mul(d, s)) == Mul(d, Xtime(s))
  {
    assert Xtime(0) == 0;
    if d != 0 {
      XtimeMul(d / 2, Xtime(s));
      XtimeAdd(if d % 2 == 1 then s else 0, Mul(d / 2, Xtime(s)));
    }
  }

  lemma MulDouble(d: nat, s: byte)
    ensures Mul(2 * d, s) == Mul(d, Xtime(s))
  {
    AddZero(Mul(d, Xtime(s)));
  }

  /** Multiplying twice is multiplying once by the product of the masks. */
  lemma {:induction false} MulMul(c: nat, d: nat, s: byte)
    ensures Mul(c, Mul(d, s)) == Mul(MaskMul(c, d), s)
  {
    if c != 0 {
      XtimeMul(d, s);
      MulDouble(d, s);
      MulMul(c / 2, 2 * d, s);
      MulXor(if c % 2 == 1 then d else 0, MaskMul(c / 2, 2 * d), s);
    }
  }

  lemma XorMedial(a: nat, b: nat, c: nat, d: nat)
    ensures Xor(Xor(a, b), Xor(c, d)) == Xor(Xor(a, c), Xor(b, d))
  {
    XorAssoc(Xor(a, b), c, d);
    XorAssoc(a, b, c);
    XorComm(b, c);
    XorAssoc(a, c, b);
    XorAssoc(Xor(a, c), b, d);
  }

  lemma {:induction false} MaskMulTwice(c: nat, d: nat)
    ensures MaskMul(c, 2 * d) == 2 * MaskMul(c, d)
  {
    if c != 0 {
      MaskMulTwice(c / 2, 2 * d);
      XorEven(if c % 2 == 1 then d else 0, 0, MaskMul(c / 2, 2 * d), 0);
    }
  }

  lemma {:induction false} MaskMulOne(c: nat)
    ensures MaskMul(c, 1) == c
  {
    if c != 0 {
      MaskMulOne(c / 2);
      MaskMulTwice(c / 2, 1);
      XorEven(0, c % 2, c / 2, 0);
      XorZero(c / 2);
    }
  }

  lemma {:induction false} MaskMulSum(c: nat, d: nat, e: nat)
    ensures MaskMul(c, Xor(d, e)) == Xor(MaskMul(c, d), MaskMul(c, e))
  {
    if c != 0 {
      MaskMulSum(c / 2, 2 * d, 2 * e);
      XorEven(d, 0, e, 0);
      XorMedial(if c % 2 == 1 then d else 0, MaskMul(c / 2, 2 * d), if c % 2 == 1 then e else 0, MaskMul(c / 2, 2 * e));
    }
  }

  /** Multiplying a mask by x and by x + 1. */
  lemma MaskMulSmall(c: nat)
    ensures MaskMul(c, 1) == c && MaskMul(c, 2) == 2 * c && MaskMul(c, 3) == Xor(c, 2 * c)
  {
    MaskMulOne(c);
    MaskMulTwice(c, 1);
    assert Xor(1, 2) == 3;
    MaskMulSum(c, 1, 2);
  }
}
