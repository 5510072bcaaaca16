/** Secret redaction: what the matchers recognise, and what the output can never contain. */
module Redact {
  import opened Bits

  function Ascii(s: string): (b: seq<byte>)
    ensures |b| == |s|
  {
    seq(|s|, i requires 0 <= i < |s| => if s[i] < 128 as char then s[i] as int else 0)
  }

  // ---------------------------------------------------------------- character classes

  predicate Between(b: byte, lo: char, hi: char) {
    lo as int <= b <= hi as int
  }

  predicate IsAlnum(b: byte) {
    Between(b, 'a', 'z') || Between(b, 'A', 'Z') || Between(b, '0', '9')
  }

  predicate IsHex(b: byte) {
    Between(b, 'a', 'f') || Between(b, 'A', 'F') || Between(b, '0', '9')
  }

  predicate IsBase64Url(b: byte) {
    IsAlnum(b) || b == '-' as int || b == '_' as int || b == '.' as int || b == '=' as int
  }

  predicate IsBase64(b: byte) {
    IsAlnum(b) || b == '+' as int || b == '/' as int || b == '=' as int
  }

  /** What can be part of a key's value. */
  predicate IsValue(b: byte) {
    b != ' ' as int && b != '\t' as int && b != '\n' as int && b != '\r' as int && b != ';' as int && b != '&' as int
  }

  predicate IsConnectionValue(b: byte) {
    b != ';' as int && b != '\n' as int
  }

  function Lower(b: byte): byte {
    if Between(b, 'A', 'Z') then b + 32 else b
  }

  predicate SameIgnoringCase(a: seq<byte>, b: seq<byte>) {
    |a| == |b| && forall i :: 0 <= i < |a| ==> Lower(a[i]) == Lower(b[i])
  }

  /** The first position from `i` on whose byte is not in the class. */
  function RunEnd(input: seq<byte>, i: nat, class_: byte -> bool): (e: nat)
    requires i <= |input|
    ensures i <= e <= |input|
    ensures forall k :: i <= k < e ==> class_(input[k])
    ensures e < |input| ==> !class_(input[e])
    decreases |input| - i
  {
    if i < |input| && class_(input[i]) then RunEnd(input, i + 1, class_) else i
  }

  predicate StartsWith(input: seq<byte>, pos: nat, p: seq<byte>) {
    pos + |p| <= |input| && input[pos..pos + |p|] == p
  }

  predicate StartsWithAnyCase(input: seq<byte>, pos: nat, p: seq<byte>) {
    pos + |p| <= |input| && SameIgnoringCase(input[pos..pos + |p|], p)
  }

  // ---------------------------------------------------------------- the nine patterns

  /** A prefix and so many alphanumerics, not followed by another. */
  function FixedKey(input: seq<byte>, pos: nat, p: seq<byte>, len: nat): nat {
    if pos + len <= |input| && |p| <= len && StartsWith(input, pos, p)
       && (forall k :: pos + |p| <= k < pos + len ==> IsAlnum(input[k]))
       && !(pos + len < |input| && IsAlnum(input[pos + len]))
    then len else 0
  }

  function AwsKey(input: seq<byte>, pos: nat): nat {
    FixedKey(input, pos, Ascii("AKIA"), 20)
  }

  function GithubPrefix(input: seq<byte>, pos: nat): seq<byte> {
    if StartsWith(input, pos, Ascii("ghp_")) then Ascii("ghp_")
    else if StartsWith(input, pos, Ascii("gho_")) then Ascii("gho_")
    else if StartsWith(input, pos, Ascii("ghs_")) then Ascii("ghs_")
    else Ascii("ghr_")
  }

  function GithubToken(input: seq<byte>, pos: nat): nat {
    FixedKey(input, pos, GithubPrefix(input, pos), 40)
  }

  function BearerToken(input: seq<byte>, pos: nat): nat
    requires pos <= |input|
  {
    if |input| - pos < 27 || !StartsWith(input, pos, Ascii("Bearer ")) then 0
    else
      var end := RunEnd(input, pos + 7, IsBase64Url);
      if end - (pos + 7) >= 20 then end - pos else 0
  }

  /** The end of the first five dashes from `i` on, or 0. */
  function DashesEnd(input: seq<byte>, i: nat): (e: nat)
    ensures e == 0 || i + 5 <= e <= |input|
    decreases |input| - i
  {
    if i + 5 > |input| then 0 else if StartsWith(input, i, Ascii("-----")) then i + 5 else DashesEnd(input, i + 1)
  }

  function PemHeader(input: seq<byte>, pos: nat): nat {
    if !StartsWith(input, pos, Ascii("-----BEGIN ")) then 0
    else
      var e := DashesEnd(input, pos + 11);
      if e > 0 then e - pos else 0
  }

  /** One of the names and a value at least `least` long. */
  function Named(input: seq<byte>, pos: nat, names: seq<seq<byte>>, class_: byte -> bool, least: nat): nat
    requires pos <= |input|
    decreases |names|
  {
    if |names| == 0 then 0
    else if StartsWithAnyCase(input, pos, names[0])
      && RunEnd(input, pos + |names[0]|, class_) - (pos + |names[0]|) >= least then
      RunEnd(input, pos + |names[0]|, class_) - pos
    else Named(input, pos, names[1..], class_, least)
  }

  function KeyNames(): seq<seq<byte>> {
    [Ascii("password="), Ascii("passwd="), Ascii("secret="), Ascii("token="), Ascii("api_key=")]
  }

  function ConnectionNames(): seq<seq<byte>> {
    [Ascii("Password="), Ascii("AccountKey="), Ascii("SharedAccessKey=")]
  }

  function KeyValueSecret(input: seq<byte>, pos: nat): nat
    requires pos <= |input|
  {
    Named(input, pos, KeyNames(), IsValue, 4)
  }

  function ConnectionSecret(input: seq<byte>, pos: nat): nat
    requires pos <= |input|
  {
    Named(input, pos, ConnectionNames(), IsConnectionValue, 1)
  }

  /** Over base64url characters up to a third dot: where it stops and the dots it counted. */
  function JwtScan(input: seq<byte>, i: nat, dots: nat): (r: (nat, nat))
    requires i <= |input|
    ensures i <= r.0 <= |input|
    decreases |input| - i
  {
    if i == |input| then (i, dots)
    else if input[i] == '.' as int then
      if dots + 1 > 2 then (i, dots + 1) else JwtScan(input, i + 1, dots + 1)
    else if IsBase64Url(input[i]) then JwtScan(input, i + 1, dots)
    else (i, dots)
  }

  function Jwt(input: seq<byte>, pos: nat): nat
    requires pos <= |input|
  {
    if |input| - pos < 10 || !StartsWith(input, pos, Ascii("eyJ")) then 0
    else
      var (end, dots) := JwtScan(input, pos, 0);
      if dots == 2 && end - pos >= 20 then end - pos else 0
  }

  function LongHex(input: seq<byte>, pos: nat): nat
    requires pos <= |input|
  {
    var len := RunEnd(input, pos, IsHex) - pos;
    if len >= 32 then len else 0
  }

  predicate IsBase64Mark(b: byte) {
    b == '+' as int || b == '/' as int || b == '=' as int
  }

  function LongBase64(input: seq<byte>, pos: nat): nat
    requires pos <= |input|
  {
    var end := RunEnd(input, pos, IsBase64);
    if end - pos >= 40 && (exists k :: pos <= k < end && IsBase64Mark(input[k])) then end - pos else 0
  }

  /** The first pattern that fires, in order. */
  function Match(input: seq<byte>, pos: nat): nat
    requires pos <= |input|
  {
    if AwsKey(input, pos) > 0 then AwsKey(input, pos)
    else if GithubToken(input, pos) > 0 then GithubToken(input, pos)
    else if BearerToken(input, pos) > 0 then BearerToken(input, pos)
    else if PemHeader(input, pos) > 0 then PemHeader(input, pos)
    else if KeyValueSecret(input, pos) > 0 then KeyValueSecret(input, pos)
    else if ConnectionSecret(input, pos) > 0 then ConnectionSecret(input, pos)
    else if Jwt(input, pos) > 0 then Jwt(input, pos)
    else if LongHex(input, pos) > 0 then LongHex(input, pos)
    else LongBase64(input, pos)
  }

  lemma {:induction false} NamedBounds(input: seq<byte>, pos: nat, names: seq<seq<byte>>, class_: byte -> bool,
                                       least: nat, shortest: nat)
    requires pos <= |input| && forall i :: 0 <= i < |names| ==> |names[i]| >= shortest
    ensures var n := Named(input, pos, names, class_, least); n == 0 || (shortest + least <= n && pos + n <= |input|)
    decreases |names|
  {
    if |names| > 0 { NamedBounds(input, pos, names[1..], class_, least, shortest); }
  }

  /** Every pattern that fires takes at least as many bytes as the replacement, and stays in the input. */
  lemma MatchBounds(input: seq<byte>, pos: nat)
    requires pos <= |input|
    ensures var n := Match(input, pos); n == 0 || (10 <= n && pos + n <= |input|)
  {
    NamedBounds(input, pos, KeyNames(), IsValue, 4, 6);
    NamedBounds(input, pos, ConnectionNames(), IsConnectionValue, 1, 9);
  }

  /** How many dots there are from `i` up to `e`. */
  function Dots(input: seq<byte>, i: nat, e: nat): nat
    requires i <= e <= |input|
    decreases e - i
  {
    if i == e then 0 else Dots(input, i + 1, e) + if input[i] == '.' as int then 1 else 0
  }

  lemma {:induction false} JwtScanIs(input: seq<byte>, i: nat, dots: nat)
    requires i <= |input| && dots <= 2
    ensures var e := RunEnd(input, i, IsBase64Url);
      JwtScan(input, i, dots).1 == Min(dots + Dots(input, i, e), 3)
      && (dots + Dots(input, i, e) <= 2 ==> JwtScan(input, i, dots).0 == e)
    decreases |input| - i
  {
    if i < |input| && IsBase64Url(input[i]) {
      if input[i] == '.' as int && dots == 2 {
      } else {
        JwtScanIs(input, i + 1, if input[i] == '.' as int then dots + 1 else dots);
      }
    }
  }

  /** A web token is recognised exactly when the whole run of its characters has two dots: one more
      dot after it, and it is left in place. */
  lemma JwtIff(input: seq<byte>, pos: nat)
    requires pos <= |input|
    ensures var e := RunEnd(input, pos, IsBase64Url);
      Jwt(input, pos)
      == if StartsWith(input, pos, Ascii("eyJ")) && e - pos >= 20 && Dots(input, pos, e) == 2 then e - pos else 0
  {
    JwtScanIs(input, pos, 0);
  }

  lemma {:induction false} DotsMore(s: seq<byte>, b: byte, i: nat)
    requires i <= |s|
    ensures Dots(s + [b], i, |s| + 1) == Dots(s, i, |s|) + if b == '.' as int then 1 else 0
    decreases |s| - i
  {
    if i < |s| { DotsMore(s, b, i + 1); }
  }

  /** A token is not recognised with a full stop after it. */
  lemma FullStopHides(token: seq<byte>)
    requires |token| > 0 && Jwt(token, 0) == |token|
    ensures Jwt(token + ['.' as int], 0) == 0
  {
    var longer := token + ['.' as int];
    JwtIff(token, 0);
    JwtIff(longer, 0);
    forall k | 0 <= k < |longer| ensures IsBase64Url(longer[k]) {
      if k < |token| { assert longer[k] == token[k]; }
    }
    assert RunEnd(longer, 0, IsBase64Url) == |longer|;
    DotsMore(token, '.' as int, 0);
  }

  // ---------------------------------------------------------------- the whole input

  function Marker(): (m: seq<byte>)
    ensures |m| == 10 && m[0] == '[' as int && m[9] == ']' as int
  {
    Ascii("[REDACTED]")
  }

  /** The length matched at each position. */
  function Matcher(input: seq<byte>): nat -> nat {
    (pos: nat) => if pos <= |input| then Match(input, pos) else 0
  }

  /** A match takes at least ten bytes and stays in the input. */
  ghost predicate Bounded(input: seq<byte>, m: nat -> nat) {
    forall pos: nat :: pos <= |input| ==> m(pos) == 0 || (10 <= m(pos) && pos + m(pos) <= |input|)
  }

  lemma MatcherIsBounded(input: seq<byte>)
    ensures Bounded(input, Matcher(input))
  {
    forall pos: nat | pos <= |input| ensures Matcher(input)(pos) == Match(input, pos) {
    }
    forall pos: nat | pos <= |input| ensures var n := Match(input, pos); n == 0 || (10 <= n && pos + n <= |input|) {
      MatchBounds(input, pos);
    }
  }

  /** The output if there is room for all of it. */
  ghost function Redacted(input: seq<byte>, m: nat -> nat, pos: nat): seq<byte>
    requires pos <= |input| && Bounded(input, m)
    decreases |input| - pos
  {
    if pos == |input| then []
    else if m(pos) > 0 then Marker() + Redacted(input, m, pos + m(pos))
    else [input[pos]] + Redacted(input, m, pos + 1)
  }

  /** How many bytes the secrets from `pos` on have beyond their replacements. */
  ghost function Excess(input: seq<byte>, m: nat -> nat, pos: nat): nat
    requires pos <= |input| && Bounded(input, m)
    decreases |input| - pos
  {
    if pos == |input| then 0
    else if m(pos) > 0 then (m(pos) - 10) + Excess(input, m, pos + m(pos))
    else Excess(input, m, pos + 1)
  }

  ghost function Secrets(input: seq<byte>, m: nat -> nat, pos: nat): nat
    requires pos <= |input| && Bounded(input, m)
    decreases |input| - pos
  {
    if pos == |input| then 0
    else if m(pos) > 0 then 1 + Secrets(input, m, pos + m(pos))
    else Secrets(input, m, pos + 1)
  }

  /** The replacements begun by the time the output is full. */
  ghost function Begun(input: seq<byte>, m: nat -> nat, pos: nat, room: nat): nat
    requires pos <= |input| && Bounded(input, m)
    decreases |input| - pos
  {
    if pos == |input| || room == 0 then 0
    else if m(pos) > 0 then 1 + Begun(input, m, pos + m(pos), Max(room - 10, 0))
    else Begun(input, m, pos + 1, room - 1)
  }

  lemma {:induction false} AllBegun(input: seq<byte>, m: nat -> nat, pos: nat, room: nat)
    requires pos <= |input| && Bounded(input, m) && room >= |input| - pos
    ensures Begun(input, m, pos, room) == Secrets(input, m, pos)
    decreases |input| - pos
  {
    if pos < |input| {
      if m(pos) > 0 { AllBegun(input, m, pos + m(pos), room - 10); } else { AllBegun(input, m, pos + 1, room - 1); }
    }
  }

  /** The output is the input less what the secrets have beyond ten bytes each, so it always fits. */
  lemma {:induction false} RedactedLength(input: seq<byte>, m: nat -> nat, pos: nat)
    requires pos <= |input| && Bounded(input, m)
    ensures |Redacted(input, m, pos)| + Excess(input, m, pos) == |input| - pos
    decreases |input| - pos
  {
    if pos < |input| {
      RedactedLength(input, m, if m(pos) > 0 then pos + m(pos) else pos + 1);
    }
  }

  // ---------------------------------------------------------------- no long hex

  /** Where nothing matches there are fewer than thirty-two hex digits. */
  ghost predicate CatchesHex(input: seq<byte>, m: nat -> nat) {
    forall pos: nat :: pos <= |input| && m(pos) == 0 ==> RunEnd(input, pos, IsHex) - pos < 32
  }

  lemma MatcherCatchesHex(input: seq<byte>)
    ensures CatchesHex(input, Matcher(input))
  {
    forall pos: nat | pos <= |input| ensures Matcher(input)(pos) == Match(input, pos) {
    }
    forall pos: nat | pos <= |input| && Match(input, pos) == 0 ensures LongHex(input, pos) == 0 {
    }
  }

  /** The number of hex digits at the front. */
  function HexRun(s: seq<byte>): (n: nat)
    ensures n <= |s| && (n < |s| ==> !IsHex(s[n]))
  {
    if |s| > 0 && IsHex(s[0]) then 1 + HexRun(s[1..]) else 0
  }

  lemma {:induction false} HexRunStops(s: seq<byte>, k: nat)
    requires k < |s| && !IsHex(s[k])
    ensures HexRun(s) <= k
  {
    if k > 0 { HexRunStops(s[1..], k - 1); }
  }

  lemma HexRunStep(b: byte, rest: seq<byte>)
    ensures HexRun([b] + rest) == if IsHex(b) then 1 + HexRun(rest) else 0
  {
    assert ([b] + rest)[1..] == rest;
  }

  /** The hex digits at the front of the output were at the front of the input. */
  lemma {:induction false} FrontRun(input: seq<byte>, m: nat -> nat, pos: nat)
    requires pos <= |input| && Bounded(input, m)
    ensures HexRun(Redacted(input, m, pos)) <= RunEnd(input, pos, IsHex) - pos
    ensures pos < |input| && m(pos) > 0 ==> HexRun(Redacted(input, m, pos)) == 0
    decreases |input| - pos
  {
    if pos < |input| {
      var out := Redacted(input, m, pos);
      if m(pos) > 0 {
        assert out[0] == '[' as int;
      } else {
        FrontRun(input, m, pos + 1);
        HexRunStep(input[pos], Redacted(input, m, pos + 1));
      }
    }
  }

  lemma {:induction false} NoRunAt(input: seq<byte>, m: nat -> nat, pos: nat, k: nat)
    requires pos <= |input| && Bounded(input, m) && CatchesHex(input, m) && k <= |Redacted(input, m, pos)|
    ensures HexRun(Redacted(input, m, pos)[k..]) < 32
    decreases |input| - pos
  {
    var out := Redacted(input, m, pos);
    if k == 0 {
      FrontRun(input, m, pos);
      assert out[0..] == out;
    } else if m(pos) > 0 {
      if k < 10 {
        InsideMarker(Redacted(input, m, pos + m(pos)), k);
      } else {
        NoRunAfter(input, m, pos, k, Marker(), pos + m(pos));
      }
    } else {
      NoRunAfter(input, m, pos, k, [input[pos]], pos + 1);
    }
  }

  lemma InsideMarker(rest: seq<byte>, k: nat)
    requires k < 10
    ensures HexRun((Marker() + rest)[k..]) < 10
  {
    var out := Marker() + rest;
    assert out[k..][9 - k] == out[9] == ']' as int;
    HexRunStops(out[k..], 9 - k);
  }

  lemma {:induction false} NoRunAfter(input: seq<byte>, m: nat -> nat, pos: nat, k: nat, front: seq<byte>, next: nat)
    requires pos < next <= |input| && Bounded(input, m) && CatchesHex(input, m)
    requires |front| <= k <= |Redacted(input, m, pos)| && Redacted(input, m, pos) == front + Redacted(input, m, next)
    ensures HexRun(Redacted(input, m, pos)[k..]) < 32
    decreases |input| - pos, 0
  {
    var rest := Redacted(input, m, next);
    assert (front + rest)[k..] == rest[k - |front|..];
    NoRunAt(input, m, next, k - |front|);
  }

  /** Whatever the input, and however much of the output there is room for, no thirty-two hex
      digits in a row come out. */
  lemma NoLongHex(input: seq<byte>, m: nat -> nat, room: nat, k: nat)
    requires Bounded(input, m) && CatchesHex(input, m)
    requires room <= |Redacted(input, m, 0)| && k + 32 <= room
    ensures exists i :: k <= i < k + 32 && !IsHex(Redacted(input, m, 0)[..room][i])
  {
    var out := Redacted(input, m, 0);
    NoRunAt(input, m, 0, k);
    var i := k + HexRun(out[k..]);
    assert out[..room][i] == out[k..][i - k];
  }

  /** The same for the nine patterns together. */
  lemma NoHexKeySurvives(input: seq<byte>, room: nat, k: nat)
    requires Bounded(input, Matcher(input)) && room <= |Redacted(input, Matcher(input), 0)| && k + 32 <= room
    ensures exists i :: k <= i < k + 32 && !IsHex(Redacted(input, Matcher(input), 0)[..room][i])
  {
    MatcherCatchesHex(input);
    NoLongHex(input, Matcher(input), room, k);
  }
}
