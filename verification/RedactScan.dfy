/** The scanning loops: each matcher, and the pass over the input. */
module RedactScan {
  import opened Bits
  import opened Redact

  method ScanRun(input: seq<byte>, start: nat, class_: byte -> bool) returns (end: nat)
    requires start <= |input|
    ensures end == RunEnd(input, start, class_)
  {
    end := start;
    while end < |input| && class_(input[end])
      invariant start <= end <= |input| && RunEnd(input, start, class_) == RunEnd(input, end, class_)
    {
      end := end + 1;
    }
  }

  method CompareIgnoringCase(a: seq<byte>, b: seq<byte>) returns (same: bool)
    ensures same == SameIgnoringCase(a, b)
  {
    if |a| != |b| {
      return false;
    }
    var i := 0;
    while i < |a|
      invariant 0 <= i <= |a| && forall k :: 0 <= k < i ==> Lower(a[k]) == Lower(b[k])
    {
      if Lower(a[i]) != Lower(b[i]) {
        return false;
      }
      i := i + 1;
    }
    return true;
  }

  method MatchFixedKey(input: seq<byte>, pos: nat, p: seq<byte>, len: nat) returns (n: nat)
    requires pos <= |input| && |p| <= len
    ensures n == FixedKey(input, pos, p, len)
  {
    var remaining := |input| - pos;
    if remaining < len || input[pos..pos + |p|] != p {
      return 0;
    }
    var i := |p|;
    while i < len
      invariant |p| <= i <= len && forall k :: pos + |p| <= k < pos + i ==> IsAlnum(input[k])
    {
      if !IsAlnum(input[pos + i]) {
        return 0;
      }
      i := i + 1;
    }
    if remaining > len && IsAlnum(input[pos + len]) {
      return 0;
    }
    return len;
  }

  method MatchBearerToken(input: seq<byte>, pos: nat) returns (n: nat)
    requires pos <= |input|
    ensures n == BearerToken(input, pos)
  {
    if |input| - pos < 27 || input[pos..pos + 7] != Ascii("Bearer ") {
      return 0;
    }
    var end := ScanRun(input, pos + 7, IsBase64Url);
    return if end - (pos + 7) >= 20 then end - pos else 0;
  }

  method MatchPemHeader(input: seq<byte>, pos: nat) returns (n: nat)
    requires pos <= |input|
    ensures n == PemHeader(input, pos)
  {
    var header := Ascii("-----BEGIN ");
    if |input| - pos < |header| || input[pos..pos + |header|] != header {
      return 0;
    }
    var end := pos + 11;
    while end + 5 <= |input|
      invariant pos + 11 <= end <= |input| && DashesEnd(input, pos + 11) == DashesEnd(input, end)
    {
      if input[end..end + 5] == Ascii("-----") {
        return end + 5 - pos;
      }
      end := end + 1;
    }
    return 0;
  }

  method MatchNamed(input: seq<byte>, pos: nat, names: seq<seq<byte>>, class_: byte -> bool, least: nat)
    returns (n: nat)
    requires pos <= |input|
    ensures n == Named(input, pos, names, class_, least)
  {
    var k := 0;
    while k < |names|
      invariant 0 <= k <= |names|
        && Named(input, pos, names[k..], class_, least) == Named(input, pos, names, class_, least)
    {
      var p := names[k];
      assert names[k..][0] == p && names[k..][1..] == names[k + 1..];
      if |input| - pos >= |p| {
        var same := CompareIgnoringCase(input[pos..pos + |p|], p);
        if same {
          var end := ScanRun(input, pos + |p|, class_);
          if end - (pos + |p|) >= least {
            return end - pos;
          }
        }
      }
      k := k + 1;
    }
    return 0;
  }

  method MatchJwt(input: seq<byte>, pos: nat) returns (n: nat)
    requires pos <= |input|
    ensures n == Jwt(input, pos)
  {
    if |input| - pos < 10 || input[pos..pos + 3] != Ascii("eyJ") {
      return 0;
    }
    var end, dots := pos, 0;
    while end < |input|
      invariant pos <= end <= |input| && 0 <= dots <= 2 && JwtScan(input, pos, 0) == JwtScan(input, end, dots)
    {
      var b := input[end];
      if b == '.' as int {
        dots := dots + 1;
        if dots > 2 {
          break;
        }
      } else if !IsBase64Url(b) {
        break;
      }
      end := end + 1;
    }
    return if dots == 2 && end - pos >= 20 then end - pos else 0;
  }

  method MatchLongHex(input: seq<byte>, pos: nat) returns (n: nat)
    requires pos <= |input|
    ensures n == LongHex(input, pos)
  {
    var end := ScanRun(input, pos, IsHex);
    return if end - pos >= 32 then end - pos else 0;
  }

  method MatchLongBase64(input: seq<byte>, pos: nat) returns (n: nat)
    requires pos <= |input|
    ensures n == LongBase64(input, pos)
  {
    var end := pos;
    var marked := false;
    while end < |input| && IsBase64(input[end])
      invariant pos <= end <= |input| && RunEnd(input, pos, IsBase64) == RunEnd(input, end, IsBase64)
      invariant marked <==> exists k :: pos <= k < end && IsBase64Mark(input[k])
    {
      if IsBase64Mark(input[end]) {
        marked := true;
      }
      end := end + 1;
    }
    return if end - pos >= 40 && marked then end - pos else 0;
  }

  /** Each pattern in turn until one fires. */
  method MatchAny(input: seq<byte>, pos: nat) returns (n: nat)
    requires pos <= |input|
    ensures n == Match(input, pos)
  {
    n := MatchFixedKey(input, pos, Ascii("AKIA"), 20);
    if n == 0 { n := MatchFixedKey(input, pos, GithubPrefix(input, pos), 40); }
    if n == 0 { n := MatchBearerToken(input, pos); }
    if n == 0 { n := MatchPemHeader(input, pos); }
    if n == 0 { n := MatchNamed(input, pos, KeyNames(), IsValue, 4); }
    if n == 0 { n := MatchNamed(input, pos, ConnectionNames(), IsConnectionValue, 1); }
    if n == 0 { n := MatchJwt(input, pos); }
    if n == 0 { n := MatchLongHex(input, pos); }
    if n == 0 { n := MatchLongBase64(input, pos); }
  }

  /** As much of the replacement as there is room for. */
  method CopyMarker(output: array<byte>, w: nat) returns (n: nat)
    requires w < output.Length
    modifies output
    ensures n == Min(10, output.Length - w)
    ensures output[..w + n] == old(output[..w]) + Marker()[..n] && output[w + n..] == old(output[w + n..])
  {
    n := Min(10, output.Length - w);
    var marker := Marker();
    var j := 0;
    while j < n
      invariant 0 <= j <= n
      invariant output[..w + j] == old(output[..w]) + marker[..j] && output[w + j..] == old(output[w + j..])
    {
      output[w + j] := marker[j];
      j := j + 1;
    }
  }

  /** What has been written is the front of `done`, the output so far if there were room. */
  ghost predicate Pass(input: seq<byte>, m: nat -> nat, done: seq<byte>, r: nat, out: seq<byte>, was: seq<byte>, w: nat)
    requires r <= |input| && Bounded(input, m)
  {
    && Redacted(input, m, 0) == done + Redacted(input, m, r)
    && |out| == |was| && w == Min(|out|, |done|)
    && out[..w] == done[..w] && out[w..] == was[w..]
  }

  lemma PassMarked(input: seq<byte>, m: nat -> nat, done: seq<byte>, r: nat, out: seq<byte>, was: seq<byte>, w: nat,
                   out': seq<byte>)
    requires r < |input| && Bounded(input, m) && m(r) > 0 && w < |out| && Pass(input, m, done, r, out, was, w)
    requires |out'| == |out|
    requires var n := Min(10, |out| - w); out'[..w + n] == out[..w] + Marker()[..n] && out'[w + n..] == out[w + n..]
    ensures Pass(input, m, done + Marker(), r + m(r), out', was, w + Min(10, |out| - w))
  {
    var n := Min(10, |out| - w);
    assert done == done[..w];
    assert (done + Marker())[..w + n] == done[..w] + Marker()[..n];
    assert out[w + n..] == out[w..][n..] == was[w + n..];
    assert done + (Marker() + Redacted(input, m, r + m(r))) == done + Marker() + Redacted(input, m, r + m(r));
  }

  lemma PassCopied(input: seq<byte>, m: nat -> nat, done: seq<byte>, r: nat, out: seq<byte>, was: seq<byte>, w: nat)
    requires r < |input| && Bounded(input, m) && m(r) == 0 && w < |out| && Pass(input, m, done, r, out, was, w)
    ensures Pass(input, m, done + [input[r]], r + 1, out[w := input[r]], was, w + 1)
  {
    assert done == done[..w];
    assert out[w := input[r]][w + 1..] == out[w..][1..] == was[w + 1..];
    assert done + ([input[r]] + Redacted(input, m, r + 1)) == done + [input[r]] + Redacted(input, m, r + 1);
  }

  ghost predicate Agrees(input: seq<byte>, m: nat -> nat) {
    forall pos: nat {:trigger Match(input, pos)} :: pos <= |input| ==> m(pos) == Match(input, pos)
  }

  method MatchHere(input: seq<byte>, r: nat, ghost m: nat -> nat) returns (n: nat)
    requires r <= |input| && Agrees(input, m)
    ensures n == m(r)
  {
    n := MatchAny(input, r);
  }

  method RunPass(input: seq<byte>, output: array<byte>, ghost m: nat -> nat) returns (outputLen: nat, redactions: nat)
    requires Bounded(input, m) && Agrees(input, m)
    modifies output
    ensures outputLen == Min(output.Length, |Redacted(input, m, 0)|)
    ensures output[..outputLen] == Redacted(input, m, 0)[..outputLen] && output[outputLen..] == old(output[outputLen..])
    ensures redactions == Begun(input, m, 0, output.Length)
  {
    ghost var was := output[..];
    var r, w := 0, 0;
    redactions := 0;
    ghost var done: seq<byte> := [];
    assert Redacted(input, m, 0) == [] + Redacted(input, m, 0);
    while r < |input| && w < output.Length
      invariant 0 <= r <= |input| && 0 <= w <= output.Length && Pass(input, m, done, r, output[..], was, w)
      invariant redactions + Begun(input, m, r, output.Length - w) == Begun(input, m, 0, output.Length)
    {
      var n := MatchHere(input, r, m);
      ghost var out := output[..];
      if n > 0 {
        var copied := CopyMarker(output, w);
        PassMarked(input, m, done, r, out, was, w, output[..]);
        done := done + Marker();
        w, r, redactions := w + copied, r + n, redactions + 1;
      } else {
        PassCopied(input, m, done, r, out, was, w);
        done := done + [input[r]];
        output[w] := input[r];
        assert output[..] == out[w := input[r]];
        w, r := w + 1, r + 1;
      }
    }
    outputLen := w;
  }

  /** Secrets replaced, everything else copied, until the input or the room runs out. With room for
      the input the whole of it is consumed. */
  method RedactInto(input: seq<byte>, output: array<byte>) returns (outputLen: nat, redactions: nat)
    modifies output
    ensures Bounded(input, Matcher(input))
    ensures var all := Redacted(input, Matcher(input), 0);
      outputLen == Min(output.Length, |all|) && output[..outputLen] == all[..outputLen]
    ensures output[outputLen..] == old(output[outputLen..])
    ensures redactions == Begun(input, Matcher(input), 0, output.Length)
    ensures output.Length >= |input| ==>
      outputLen + Excess(input, Matcher(input), 0) == |input| && redactions == Secrets(input, Matcher(input), 0)
  {
    ghost var m := Matcher(input);
    MatcherIsBounded(input);
    RedactedLength(input, m, 0);
    if output.Length >= |input| { AllBegun(input, m, 0, output.Length); }
    outputLen, redactions := RunPass(input, output, m);
  }
}
