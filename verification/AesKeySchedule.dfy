/** The AES-256 key schedule (section 5.2 of FIPS 197, Nk = 8) as the 240 bytes of fifteen round keys. */
module AesKeySchedule {
  import opened Bits
  import opened Gf256

  /** x to the power n. */
  function Power(n: nat): byte {
    if n == 0 then 1 else Xtime(Power(n - 1))
  }

  /** What byte `n` adds to the byte eight words back: the byte of the word before, which in every
      eighth word is rotated, substituted and given a round constant, and in the fourth word after
      that is substituted. */
  function Temp(w: seq<byte>, n: nat, sub: byte -> byte): byte
    requires 32 <= n <= |w|
  {
    if n / 4 % 8 == 0 then
      Add(sub(w[n / 4 * 4 - 4 + (n + 1) % 4]), if n % 4 == 0 then Power(n / 32 - 1) else 0)
    else if n / 4 % 8 == 4 then sub(w[n - 4])
    else w[n - 4]
  }

  ghost predicate IsExpansion(key: seq<byte>, w: seq<byte>, sub: byte -> byte) {
    && 32 <= |w| && w[..32] == key
    && forall n :: 32 <= n < |w| ==> w[n] == Add(w[n - 32], Temp(w, n, sub))
  }

  lemma OneMore(key: seq<byte>, w: seq<byte>, b: byte, sub: byte -> byte)
    requires IsExpansion(key, w, sub) && b == Add(w[|w| - 32], Temp(w, |w|, sub))
    ensures IsExpansion(key, w + [b], sub)
  {
    var v := w + [b];
    assert v[..32] == w[..32];
    forall n | 32 <= n < |v| ensures v[n] == Add(v[n - 32], Temp(v, n, sub)) {
      if n < |w| {
        assert w[n] == Add(w[n - 32], Temp(w, n, sub));
        assert Temp(v, n, sub) == Temp(w, n, sub);
      }
    }
  }

  /** An expansion has no freedom: its length and the key fix every byte. */
  lemma {:induction false} ExpansionIsUnique(key: seq<byte>, v: seq<byte>, w: seq<byte>, n: nat, sub: byte -> byte)
    requires IsExpansion(key, v, sub) && IsExpansion(key, w, sub) && |v| == |w| && n <= |v|
    ensures forall k :: 0 <= k < n ==> v[k] == w[k]
  {
    if n > 0 {
      ExpansionIsUnique(key, v, w, n - 1, sub);
      if n <= 32 {
        assert v[n - 1] == v[..32][n - 1] && w[n - 1] == w[..32][n - 1];
      } else {
        var m := n - 1;
        assert Temp(v, m, sub) == Temp(w, m, sub);
        assert v[m] == Add(v[m - 32], Temp(v, m, sub)) && w[m] == Add(w[m - 32], Temp(w, m, sub));
        assert v[m - 32] == w[m - 32];
      }
    }
  }

  /** The code's four bytes that start round key `i`, from the sixteen bytes before it. */
  function FirstWord(w: seq<byte>, i: nat, rcon: byte, sub: byte -> byte): (f: seq<byte>)
    requires i >= 2 && |w| == 16 * i
    ensures |f| == 4
  {
    var p := 16 * (i - 1);
    if i % 2 == 0 then [Add(sub(w[p + 13]), rcon), sub(w[p + 14]), sub(w[p + 15]), sub(w[p + 12])]
    else [sub(w[p + 12]), sub(w[p + 13]), sub(w[p + 14]), sub(w[p + 15])]
  }

  lemma Places(i: nat, j: nat)
    requires i >= 2 && j < 16
    ensures var n := 16 * i + j;
      && n / 4 % 8 == (if i % 2 == 0 then 0 else 4) + j / 4 && n % 4 == j % 4 && n / 32 == i / 2
      && n / 4 * 4 == 16 * i + j / 4 * 4 && (n + 1) % 4 == (j + 1) % 4
  {
  }

  lemma EvenTemp(w: seq<byte>, i: nat, j: nat, sub: byte -> byte)
    requires i >= 2 && i % 2 == 0 && j < 4 && |w| == 16 * i + j
    ensures Temp(w, 16 * i + j, sub) == Add(sub(w[16 * i - 4 + (j + 1) % 4]), if j == 0 then Power(i / 2 - 1) else 0)
  {
    Places(i, j);
    TempAtEighth(w, 16 * i + j, 16 * i - 4 + (j + 1) % 4, i / 2 - 1, sub);
  }

  lemma TempAtEighth(w: seq<byte>, n: nat, at: nat, k: nat, sub: byte -> byte)
    requires 32 <= n <= |w| && n / 4 % 8 == 0 && n / 4 * 4 - 4 + (n + 1) % 4 == at && n / 32 - 1 == k
    ensures Temp(w, n, sub) == Add(sub(w[at]), if n % 4 == 0 then Power(k) else 0)
  {
  }

  lemma OddTemp(w: seq<byte>, i: nat, j: nat, sub: byte -> byte)
    requires i >= 2 && i % 2 == 1 && j < 4 && |w| == 16 * i + j
    ensures Temp(w, 16 * i + j, sub) == sub(w[16 * i - 4 + j])
  {
    Places(i, j);
  }

  lemma FirstWordIsTemp(v: seq<byte>, w: seq<byte>, i: nat, j: nat, rcon: byte, sub: byte -> byte)
    requires i >= 2 && |v| == 16 * i && v <= w && j < 4 && |w| == 16 * i + j
    requires i % 2 == 0 ==> rcon == Power(i / 2 - 1)
    ensures FirstWord(v, i, rcon, sub)[j] == Temp(w, 16 * i + j, sub)
  {
    if i % 2 == 0 {
      EvenTemp(w, i, j, sub);
      EvenFirstWord(v, i, j, rcon, sub);
    } else {
      OddTemp(w, i, j, sub);
      OddFirstWord(v, i, j, rcon, sub);
    }
  }

  lemma EvenFirstWord(v: seq<byte>, i: nat, j: nat, rcon: byte, sub: byte -> byte)
    requires i >= 2 && |v| == 16 * i && j < 4 && i % 2 == 0
    ensures FirstWord(v, i, rcon, sub)[j] == Add(sub(v[16 * i - 4 + (j + 1) % 4]), if j == 0 then rcon else 0)
  {
    AddZero(sub(v[16 * i - 4 + (j + 1) % 4]));
  }

  lemma OddFirstWord(v: seq<byte>, i: nat, j: nat, rcon: byte, sub: byte -> byte)
    requires i >= 2 && |v| == 16 * i && j < 4 && i % 2 == 1
    ensures FirstWord(v, i, rcon, sub)[j] == sub(v[16 * i - 4 + j])
  {
  }

  /** One byte: the byte eight words back plus a byte of the first word or of the word before. */
  method NextByte(key: seq<byte>, w: seq<byte>, i: nat, j: nat, first: seq<byte>, ghost v: seq<byte>, ghost rcon: byte,
                  sub: byte -> byte)
    returns (b: byte)
    requires i >= 2 && |v| == 16 * i && v <= w && j < 16 && |w| == 16 * i + j && |first| == 4
    requires first == FirstWord(v, i, rcon, sub) && (i % 2 == 0 ==> rcon == Power(i / 2 - 1))
    requires IsExpansion(key, w, sub)
    ensures IsExpansion(key, w + [b], sub)
  {
    b := Add(w[|w| - 32], if j < 4 then first[j] else w[|w| - 4]);
    if j < 4 { FirstWordIsTemp(v, w, i, j, rcon, sub); } else { LaterTemp(w, i, j, sub); }
    OneMore(key, w, b, sub);
  }

  lemma LaterTemp(w: seq<byte>, i: nat, j: nat, sub: byte -> byte)
    requires i >= 2 && 4 <= j < 16 && |w| == 16 * i + j
    ensures Temp(w, 16 * i + j, sub) == w[|w| - 4]
  {
    Places(i, j);
  }

  /** The sixteen bytes of one round key. */
  method RoundKey(key: seq<byte>, v: seq<byte>, i: nat, rcon: byte, sub: byte -> byte) returns (w: seq<byte>)
    requires i >= 2 && |v| == 16 * i && (i % 2 == 0 ==> rcon == Power(i / 2 - 1)) && IsExpansion(key, v, sub)
    ensures |w| == 16 * i + 16 && IsExpansion(key, w, sub)
  {
    w := v;
    var first := FirstWord(v, i, rcon, sub);
    var j := 0;
    while j < 16
      invariant 0 <= j <= 16 && |w| == 16 * i + j && v <= w
      invariant IsExpansion(key, w, sub)
    {
      var b := NextByte(key, w, i, j, first, v, rcon, sub);
      w := w + [b];
      j := j + 1;
    }
  }

  lemma Halves(i: nat)
    requires i >= 2
    ensures i % 2 == 0 ==> (i - 1) / 2 == i / 2 - 1 && i / 2 == (i - 1) / 2 + 1
    ensures i % 2 != 0 ==> i / 2 == (i - 1) / 2
  {
  }

  /** The constant is doubled after every round key that used it. */
  method NextConstant(i: nat, rcon: byte) returns (next: byte)
    requires i >= 2 && rcon == Power((i - 1) / 2)
    ensures next == Power(i / 2)
  {
    Halves(i);
    next := rcon;
    if i % 2 == 0 {
      next := Xtime(rcon);
    }
  }

  method Expand(key: seq<byte>, sub: byte -> byte) returns (w: seq<byte>)
    requires |key| == 32
    ensures |w| == 240 && IsExpansion(key, w, sub)
  {
    w := key[0..16] + key[16..32];
    assert w == key && key[..32] == key;
    var i: nat := 2;
    var rcon: byte := 1;
    while i < 15
      invariant 2 <= i <= 15 && |w| == 16 * i
      invariant rcon == Power((i - 1) / 2)
      invariant IsExpansion(key, w, sub)
    {
      Halves(i);
      w := RoundKey(key, w, i, rcon, sub);
      rcon := NextConstant(i, rcon);
      i := i + 1;
    }
  }
}
