/** Authenticated encryption (section 2.8 of RFC 8439) with the tag the code computes. */
module ChaChaPoly {
  import opened Bits
  import opened Options
  import opened LittleEndian
  import opened ChaCha
  import Poly1305

  const TAG_SIZE := 16
  const MAX_MAC_INPUT := 4096

  type TagOf = (seq<byte>, seq<byte>) -> seq<byte>

  function Padding(n: nat): nat {
    (16 - n % 16) % 16
  }

  function Zeros(n: nat): (z: seq<byte>)
    ensures |z| == n
  {
    seq(n, _ => 0)
  }

  function MacInput(aad: seq<byte>, text: seq<byte>): (m: seq<byte>)
    ensures |m| == MacLength(|aad|, |text|)
  {
    aad + Zeros(Padding(|aad|)) + text + Zeros(Padding(|text|)) + Encode(|aad|, 8) + Encode(|text|, 8)
  }

  function MacLength(a: nat, t: nat): nat {
    a + Padding(a) + t + Padding(t) + 16
  }

  lemma MacInputEnd(aad: seq<byte>, text: seq<byte>)
    ensures var m := MacInput(aad, text);
      m[|m| - 16..|m| - 8] == Encode(|aad|, 8) && m[|m| - 8..] == Encode(|text|, 8)
  {
    var front := aad + Zeros(Padding(|aad|)) + text + Zeros(Padding(|text|));
    assert MacInput(aad, text) == front + Encode(|aad|, 8) + Encode(|text|, 8);
  }

  lemma MacInputParts(aad: seq<byte>, text: seq<byte>)
    ensures var m, start := MacInput(aad, text), |aad| + Padding(|aad|);
      m[..|aad|] == aad && m[start..start + |text|] == text
  {
  }

  lemma MacInputLengths(aad: seq<byte>, text: seq<byte>, m: seq<byte>)
    requires |aad| <= U64_MAX && |text| <= U64_MAX && m == MacInput(aad, text)
    ensures |m| >= 16 && Decode(m[|m| - 16..|m| - 8]) == |aad| && Decode(m[|m| - 8..]) == |text|
  {
    MacInputEnd(aad, text);
    DecodeEncode8(|aad|);
    DecodeEncode8(|text|);
  }

  /** What is authenticated determines both parts, wherever one ends and the other begins. */
  lemma MacInputIff(aad: seq<byte>, text: seq<byte>, aad2: seq<byte>, text2: seq<byte>)
    requires |aad| <= U64_MAX && |text| <= U64_MAX && |aad2| <= U64_MAX && |text2| <= U64_MAX
    ensures MacInput(aad, text) == MacInput(aad2, text2) <==> aad == aad2 && text == text2
  {
    var m, m2 := MacInput(aad, text), MacInput(aad2, text2);
    if m == m2 {
      MacInputLengths(aad, text, m);
      MacInputLengths(aad2, text2, m);
      MacInputParts(aad, text);
      MacInputParts(aad2, text2);
    }
  }

  /** Any cipher and any sixteen-byte authenticator, keyed by a nonce. */
  datatype Suite = Suite(permute: State -> State, tag: TagOf)

  ghost predicate Sixteen(suite: Suite) {
    forall k: seq<byte>, m: seq<byte> :: |suite.tag(k, m)| == TAG_SIZE
  }

  function OneTimeKey(suite: Suite, key: seq<byte>, nonce: seq<byte>): (k: seq<byte>)
    requires |key| == 32 && |nonce| == 12
    ensures |k| == 32
  {
    Block(suite.permute, key, 0, nonce)[..32]
  }

  function Enciphered(suite: Suite, key: seq<byte>, nonce: seq<byte>, text: seq<byte>): (c: seq<byte>)
    requires |key| == 32 && |nonce| == 12
    ensures |c| == |text|
  {
    Crypted(text, Keystream(suite.permute, key, nonce, 1))
  }

  function Authenticated(suite: Suite, key: seq<byte>, nonce: seq<byte>, aad: seq<byte>, cipher: seq<byte>): seq<byte>
    requires |key| == 32 && |nonce| == 12
  {
    suite.tag(OneTimeKey(suite, key, nonce), MacInput(aad, cipher))
  }

  /** The ciphertext and its tag. */
  function Sealed(suite: Suite, key: seq<byte>, nonce: seq<byte>, aad: seq<byte>, plain: seq<byte>): seq<byte>
    requires |key| == 32 && |nonce| == 12
  {
    var c := Enciphered(suite, key, nonce, plain);
    c + Authenticated(suite, key, nonce, aad, c)
  }

  function Opened(suite: Suite, key: seq<byte>, nonce: seq<byte>, aad: seq<byte>, boxed: seq<byte>): Option<seq<byte>>
    requires |key| == 32 && |nonce| == 12
  {
    if |boxed| < TAG_SIZE then None
    else
      var n := |boxed| - TAG_SIZE;
      if Authenticated(suite, key, nonce, aad, boxed[..n]) != boxed[n..] then None
      else Some(Enciphered(suite, key, nonce, boxed[..n]))
  }

  /** The block that keys the authenticator has the counter zero; a byte of the text is combined with a block whose
      counter is not, up to 2^32 - 1 blocks. */
  lemma TextAvoidsKeyBlock(suite: Suite, key: seq<byte>, nonce: seq<byte>, text: seq<byte>, i: nat)
    requires |key| == 32 && |nonce| == 12 && i < |text| && i / 64 < U32_MAX
    ensures Enciphered(suite, key, nonce, text)[i]
         == XorByte(text[i], Block(suite.permute, key, 1 + i / 64, nonce)[i % 64])
    ensures Initial(key, 1 + i / 64, nonce) != Initial(key, 0, nonce)
  {
    StreamAt(suite.permute, key, nonce, i, 1 + i / 64);
    TextAt(text, Keystream(suite.permute, key, nonce, 1), i, Block(suite.permute, key, 1 + i / 64, nonce)[i % 64]);
    StartsDiffer(key, 1 + i / 64, 0, nonce);
  }

  lemma StreamAt(permute: State -> State, key: seq<byte>, nonce: seq<byte>, i: nat, c: u32)
    requires |key| == 32 && |nonce| == 12 && c == 1 + i / 64
    ensures Keystream(permute, key, nonce, 1)(i) == Block(permute, key, c, nonce)[i % 64]
  {
    NoWrap(c, i / 64);
  }

  lemma NoWrap(c: u32, n: nat)
    requires c == 1 + n
    ensures (1 + n) % 0x1_0000_0000 == c
  {
  }

  lemma TextAt(text: seq<byte>, ks: nat -> byte, i: nat, b: byte)
    requires i < |text| && ks(i) == b
    ensures Crypted(text, ks)[i] == XorByte(text[i], b)
  {
    CryptedAt(text, ks, i);
  }

  lemma StartsDiffer(key: seq<byte>, c: u32, d: u32, nonce: seq<byte>)
    requires |key| == 32 && |nonce| == 12 && c != d
    ensures Initial(key, c, nonce) != Initial(key, d, nonce)
  {
    CounterShows(key, c, nonce);
    CounterShows(key, d, nonce);
  }

  lemma CounterShows(key: seq<byte>, counter: u32, nonce: seq<byte>)
    requires |key| == 32 && |nonce| == 12
    ensures Initial(key, counter, nonce)[12] == counter
  {
  }

  lemma EncipheredTwice(suite: Suite, key: seq<byte>, nonce: seq<byte>, text: seq<byte>)
    requires |key| == 32 && |nonce| == 12
    ensures Enciphered(suite, key, nonce, Enciphered(suite, key, nonce, text)) == text
  {
    CryptTwice(text, Keystream(suite.permute, key, nonce, 1));
  }

  lemma SealedOpens(suite: Suite, key: seq<byte>, nonce: seq<byte>, aad: seq<byte>, plain: seq<byte>)
    requires |key| == 32 && |nonce| == 12 && Sixteen(suite)
    ensures Opened(suite, key, nonce, aad, Sealed(suite, key, nonce, aad, plain)) == Some(plain)
  {
    var c := Enciphered(suite, key, nonce, plain);
    var t := Authenticated(suite, key, nonce, aad, c);
    assert (c + t)[..|c|] == c && (c + t)[|c|..] == t;
    EncipheredTwice(suite, key, nonce, plain);
  }

  lemma OpenedIsSealed(suite: Suite, key: seq<byte>, nonce: seq<byte>, aad: seq<byte>, boxed: seq<byte>)
    requires |key| == 32 && |nonce| == 12 && Opened(suite, key, nonce, aad, boxed).Some?
    ensures boxed == Sealed(suite, key, nonce, aad, Opened(suite, key, nonce, aad, boxed).value)
  {
    var n := |boxed| - TAG_SIZE;
    EncipheredTwice(suite, key, nonce, boxed[..n]);
    assert boxed == boxed[..n] + boxed[n..];
  }

  /** Opening gives back a plaintext exactly for what sealing that plaintext gives. */
  lemma OpensExactlyTheSealed(suite: Suite, key: seq<byte>, nonce: seq<byte>, aad: seq<byte>, boxed: seq<byte>,
                              plain: seq<byte>)
    requires |key| == 32 && |nonce| == 12 && Sixteen(suite)
    ensures Opened(suite, key, nonce, aad, boxed) == Some(plain) <==> boxed == Sealed(suite, key, nonce, aad, plain)
  {
    SealedOpens(suite, key, nonce, aad, plain);
    if Opened(suite, key, nonce, aad, boxed).Some? { OpenedIsSealed(suite, key, nonce, aad, boxed); }
  }

  // ---------------------------------------------------------------- the code's suite

  /** The tag of a 32-byte key; other keys do not occur. */
  function CodeTag(k: seq<byte>, m: seq<byte>): (t: seq<byte>)
    ensures |t| == TAG_SIZE
  {
    if |k| == 32 then Poly1305.CodeTag(k, m) else Zeros(TAG_SIZE)
  }

  /** The permutation is ten double rounds and the tag is the code's. */
  ghost predicate IsCode(suite: Suite) {
    && IsChaCha(suite.permute)
    && Sixteen(suite)
    && forall k: seq<byte>, m: seq<byte> {:trigger Poly1305.CodeTag(k, m)} :: |k| == 32 ==>
       suite.tag(k, m) == Poly1305.CodeTag(k, m)
  }

  lemma TheCodeSuite()
    ensures IsCode(Suite(Permuted, CodeTag))
  {
    forall k: seq<byte>, m: seq<byte> ensures |Suite(Permuted, CodeTag).tag(k, m)| == TAG_SIZE { }
  }

  method ComputeTag(key: seq<byte>, msg: seq<byte>, ghost suite: Suite) returns (tag: seq<byte>)
    requires |key| == 32 && IsCode(suite)
    ensures tag == suite.tag(key, msg)
  {
    tag := Poly1305.Mac(key, msg);
  }

  /** The padded parts written one after the other into a zeroed buffer. */
  method BuildMacInput(aad: seq<byte>, text: seq<byte>) returns (input: seq<byte>)
    requires MacLength(|aad|, |text|) <= MAX_MAC_INPUT
    ensures input == MacInput(aad, text)
  {
    var buf := new byte[MAX_MAC_INPUT](_ => 0);
    ghost var done: seq<byte> := [];
    var pos := WritePart(buf, 0, aad, Padding(|aad|), done);
    done := done + aad + Zeros(Padding(|aad|));
    pos := WritePart(buf, pos, text, Padding(|text|), done);
    done := done + text + Zeros(Padding(|text|));
    pos := WritePart(buf, pos, Encode(|aad|, 8), 0, done);
    done := done + Encode(|aad|, 8) + Zeros(0);
    pos := WritePart(buf, pos, Encode(|text|, 8), 0, done);
    input := buf[..pos];
    assert input == MacInput(aad, text) by {
      assert Zeros(0) == [];
      assert [] + aad == aad;
    }
  }

  /** After `done`, everything still zero. */
  ghost predicate WrittenSoFar(buf: seq<byte>, done: seq<byte>) {
    |done| <= |buf| && buf[..|done|] == done && forall i :: |done| <= i < |buf| ==> buf[i] == 0
  }

  method WritePart(buf: array<byte>, pos: nat, part: seq<byte>, pad: nat, ghost done: seq<byte>) returns (next: nat)
    requires pos == |done| && WrittenSoFar(buf[..], done) && pos + |part| + pad <= buf.Length
    modifies buf
    ensures next == |done + part + Zeros(pad)| && WrittenSoFar(buf[..], done + part + Zeros(pad))
  {
    var i := 0;
    while i < |part|
      invariant 0 <= i <= |part|
      invariant forall k :: 0 <= k < buf.Length ==> buf[k] == if pos <= k < pos + i then part[k - pos] else old(buf[k])
    {
      buf[pos + i] := part[i];
      i := i + 1;
    }
    next := pos + |part| + pad;
    PartWritten(old(buf[..]), buf[..], done, part, pad);
  }

  lemma PartWritten(was: seq<byte>, now: seq<byte>, done: seq<byte>, part: seq<byte>, pad: nat)
    requires WrittenSoFar(was, done) && |now| == |was| && |done| + |part| + pad <= |was|
    requires forall k :: 0 <= k < |now| ==> now[k] == if |done| <= k < |done| + |part| then part[k - |done|] else was[k]
    ensures WrittenSoFar(now, done + part + Zeros(pad))
  {
    var more := done + part + Zeros(pad);
    forall k | 0 <= k < |more| ensures now[k] == more[k] {
      if k < |done| { assert was[..|done|][k] == done[k]; }
    }
  }

  method AeadTag(key: seq<byte>, nonce: seq<byte>, aad: seq<byte>, cipher: seq<byte>, ghost suite: Suite)
    returns (tag: seq<byte>)
    requires |key| == 32 && |nonce| == 12 && IsCode(suite) && MacLength(|aad|, |cipher|) <= MAX_MAC_INPUT
    ensures tag == Authenticated(suite, key, nonce, aad, cipher)
  {
    var block := ComputeBlock(key, 0, nonce, suite.permute);
    var input := BuildMacInput(aad, cipher);
    tag := ComputeTag(block[..32], input, suite);
  }

  method CopyInto(out: array<byte>, at: nat, s: seq<byte>)
    requires at + |s| <= out.Length
    modifies out
    ensures out[..] == old(out[..at]) + s + old(out[at + |s|..])
  {
    var i := 0;
    while i < |s|
      invariant 0 <= i <= |s|
      invariant forall k :: 0 <= k < out.Length ==> out[k] == if at <= k < at + i then s[k - at] else old(out[k])
    {
      out[at + i] := s[i];
      i := i + 1;
    }
  }

  method Seal(key: seq<byte>, nonce: seq<byte>, plain: seq<byte>, aad: seq<byte>, out: array<byte>, ghost suite: Suite)
    requires |key| == 32 && |nonce| == 12 && IsCode(suite)
    requires out.Length >= |plain| + TAG_SIZE && MacLength(|aad|, |plain|) <= MAX_MAC_INPUT
    modifies out
    ensures out[..|plain| + TAG_SIZE] == Sealed(suite, key, nonce, aad, plain)
    ensures out[|plain| + TAG_SIZE..] == old(out[|plain| + TAG_SIZE..])
  {
    var n := |plain|;
    CopyInto(out, 0, plain);
    assert out[..n] == plain;
    XorStream(key, nonce, 1, out, n, suite.permute, Keystream(suite.permute, key, nonce, 1));
    ghost var c := out[..n];
    var tag := AeadTag(key, nonce, aad, out[..n], suite);
    assert |tag| == TAG_SIZE;
    ghost var tail := out[n..];
    CopyInto(out, n, tag);
    assert out[..n + TAG_SIZE] == c + tag;
  }

  /** Every difference gathered before the one comparison. */
  method SameTag(a: seq<byte>, b: seq<byte>) returns (same: bool)
    requires |a| == |b| == TAG_SIZE
    ensures same <==> a == b
  {
    var diff: nat := 0;
    var i := 0;
    while i < TAG_SIZE
      invariant 0 <= i <= TAG_SIZE && (diff == 0 <==> a[..i] == b[..i])
    {
      OrIsZero(diff, Xor(a[i], b[i]));
      XorIsZero(a[i], b[i]);
      assert a[..i + 1] == a[..i] + [a[i]] && b[..i + 1] == b[..i] + [b[i]];
      diff := Or(diff, Xor(a[i], b[i]));
      i := i + 1;
    }
    assert a[..i] == a && b[..i] == b;
    return diff == 0;
  }

  lemma {:induction false} OrIsZero(x: nat, y: nat)
    ensures Or(x, y) == 0 <==> x == 0 && y == 0
  {
    if x != 0 || y != 0 { OrIsZero(x / 2, y / 2); }
  }

  lemma {:induction false} XorIsZero(x: nat, y: nat)
    ensures Xor(x, y) == 0 <==> x == y
  {
    if x != 0 || y != 0 { XorIsZero(x / 2, y / 2); }
  }

  /** False for a short or a wrong box; after a wrong one the output is wiped. */
  method Open(key: seq<byte>, nonce: seq<byte>, boxed: seq<byte>, aad: seq<byte>, out: array<byte>, ghost suite: Suite)
    returns (ok: bool)
    requires |key| == 32 && |nonce| == 12 && IsCode(suite)
    requires |boxed| >= TAG_SIZE ==>
      out.Length >= |boxed| - TAG_SIZE && MacLength(|aad|, |boxed| - TAG_SIZE) <= MAX_MAC_INPUT
    modifies out
    ensures ok <==> Opened(suite, key, nonce, aad, boxed).Some?
    ensures |boxed| < TAG_SIZE ==> out[..] == old(out[..])
    ensures |boxed| >= TAG_SIZE ==> out[|boxed| - TAG_SIZE..] == old(out[|boxed| - TAG_SIZE..])
    ensures ok ==> Some(out[..|boxed| - TAG_SIZE]) == Opened(suite, key, nonce, aad, boxed)
    ensures !ok && |boxed| >= TAG_SIZE ==> out[..|boxed| - TAG_SIZE] == Zeros(|boxed| - TAG_SIZE)
  {
    if |boxed| < TAG_SIZE {
      return false;
    }
    var n := |boxed| - TAG_SIZE;
    var expected := AeadTag(key, nonce, aad, boxed[..n], suite);
    ok := SameTag(expected, boxed[n..]);
    if !ok {
      CopyInto(out, 0, Zeros(n));
      return;
    }
    Decipher(key, nonce, boxed[..n], out, suite);
  }

  /** The text decrypted into the front of the output. */
  method Decipher(key: seq<byte>, nonce: seq<byte>, text: seq<byte>, out: array<byte>, ghost suite: Suite)
    requires |key| == 32 && |nonce| == 12 && IsCode(suite) && out.Length >= |text|
    modifies out
    ensures out[..|text|] == Enciphered(suite, key, nonce, text) && out[|text|..] == old(out[|text|..])
  {
    CopyInto(out, 0, text);
    assert out[..|text|] == text;
    XorStream(key, nonce, 1, out, |text|, suite.permute, Keystream(suite.permute, key, nonce, 1));
  }
}
