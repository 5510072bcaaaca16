/** When redacting what has been redacted changes nothing. */
module RedactTwice {
  import opened Bits
  import opened Redact

  // ---------------------------------------------------------------- redacting twice

  /** What comes of a first byte, of a second one and of a third. */
  lemma PrefixHead(input: seq<byte>, pos: nat, p: seq<byte>)
    requires pos < |input| && |p| > 0
    ensures StartsWith(input, pos, p) ==> p[0] == input[pos]
    ensures StartsWithAnyCase(input, pos, p) ==> Lower(p[0]) == Lower(input[pos])
    ensures StartsWithAnyCase(input, pos, p) && |p| > 1 && pos + 1 < |input| ==> Lower(p[1]) == Lower(input[pos + 1])
    ensures StartsWithAnyCase(input, pos, p) && |p| > 2 && pos + 2 < |input| ==> Lower(p[2]) == Lower(input[pos + 2])
    ensures StartsWith(input, pos, p) ==> StartsWithAnyCase(input, pos, p)
  {
    if pos + |p| <= |input| {
      assert input[pos..pos + |p|][0] == input[pos];
      if |p| > 1 { assert input[pos..pos + |p|][1] == input[pos + 1]; }
      if |p| > 2 { assert input[pos..pos + |p|][2] == input[pos + 2]; }
    }
  }

  /** A name cannot start where its first byte differs, or its second or third. */
  predicate Elsewhere(input: seq<byte>, pos: nat, p: seq<byte>)
    requires pos < |input|
  {
    && |p| > 2
    && (Lower(p[0]) != Lower(input[pos]) || (pos + 1 < |input| && Lower(p[1]) != Lower(input[pos + 1]))
        || (pos + 2 < |input| && Lower(p[2]) != Lower(input[pos + 2])))
  }

  lemma {:induction false} NamedElsewhere(input: seq<byte>, pos: nat, names: seq<seq<byte>>, class_: byte -> bool,
                                          least: nat)
    requires pos < |input| && forall i :: 0 <= i < |names| ==> Elsewhere(input, pos, names[i])
    ensures Named(input, pos, names, class_, least) == 0
    decreases |names|
  {
    if |names| > 0 {
      PrefixHead(input, pos, names[0]);
      assert Elsewhere(input, pos, names[0]);
      NamedElsewhere(input, pos, names[1..], class_, least);
    }
  }

  /** A byte that starts no pattern but a run, or an 'a' that starts no name. */
  predicate StartsNoName(input: seq<byte>, pos: nat)
    requires pos < |input|
  {
    var b := Lower(input[pos]);
    b == '[' as int || b == 'i' as int || b == 'k' as int || b == 'z' as int
    || (b == 'a' as int && pos + 1 < |input|
       && (Lower(input[pos + 1]) == 'k' as int || Lower(input[pos + 1]) == 'z' as int))
  }

  lemma NoNames(input: seq<byte>, pos: nat)
    requires pos < |input| && StartsNoName(input, pos)
    ensures KeyValueSecret(input, pos) == 0 && ConnectionSecret(input, pos) == 0
  {
    assert Elsewhere(input, pos, Ascii("password=")) && Elsewhere(input, pos, Ascii("passwd="));
    assert Elsewhere(input, pos, Ascii("secret=")) && Elsewhere(input, pos, Ascii("token="));
    assert Elsewhere(input, pos, Ascii("api_key="));
    NamedElsewhere(input, pos, KeyNames(), IsValue, 4);
    assert Elsewhere(input, pos, Ascii("Password=")) && Elsewhere(input, pos, Ascii("AccountKey="));
    assert Elsewhere(input, pos, Ascii("SharedAccessKey="));
    NamedElsewhere(input, pos, ConnectionNames(), IsConnectionValue, 1);
  }

  lemma NoPrefixes(input: seq<byte>, pos: nat)
    requires pos < |input| && StartsNoName(input, pos)
    ensures GithubToken(input, pos) == 0 && BearerToken(input, pos) == 0 && PemHeader(input, pos) == 0
      && Jwt(input, pos) == 0
  {
    PrefixHead(input, pos, GithubPrefix(input, pos));
    PrefixHead(input, pos, Ascii("Bearer "));
    PrefixHead(input, pos, Ascii("-----BEGIN "));
    PrefixHead(input, pos, Ascii("eyJ"));
  }

  /** No pattern starts with the bracket that starts a replacement. */
  lemma BracketStartsNothing(input: seq<byte>, pos: nat)
    requires pos < |input| && input[pos] == '[' as int
    ensures Match(input, pos) == 0
  {
    NoNames(input, pos);
    NoPrefixes(input, pos);
    PrefixHead(input, pos, Ascii("AKIA"));
  }

  /** Nothing fires at a bracket. */
  ghost predicate PassesBrackets(input: seq<byte>, m: nat -> nat) {
    forall pos: nat :: pos < |input| && input[pos] == '[' as int ==> m(pos) == 0
  }

  lemma MatcherPassesBrackets(input: seq<byte>)
    ensures PassesBrackets(input, Matcher(input))
  {
    forall pos: nat | pos < |input| && input[pos] == '[' as int ensures Matcher(input)(pos) == 0 {
      BracketStartsNothing(input, pos);
    }
  }

  /** What comes out is what went in if and only if nothing fires. */
  lemma {:induction false} UnchangedFrom(input: seq<byte>, m: nat -> nat, pos: nat)
    requires pos <= |input| && Bounded(input, m) && PassesBrackets(input, m)
    ensures Redacted(input, m, pos) == input[pos..] <==> forall q: nat :: pos <= q < |input| ==> m(q) == 0
    decreases |input| - pos
  {
    if pos < |input| {
      if m(pos) > 0 {
        FiringChanges(input, m, pos);
      } else {
        UnchangedFrom(input, m, pos + 1);
        SameTail(input[pos], Redacted(input, m, pos + 1), input[pos + 1..]);
        assert input[pos..] == [input[pos]] + input[pos + 1..];
      }
    }
  }

  /** A text comes out as it went in if and only if no pattern fires anywhere in it. */
  lemma UnchangedIff(input: seq<byte>)
    ensures Bounded(input, Matcher(input))
    ensures Redacted(input, Matcher(input), 0) == input <==> forall q: nat :: q < |input| ==> Match(input, q) == 0
  {
    MatcherIsBounded(input);
    MatcherPassesBrackets(input);
    UnchangedFrom(input, Matcher(input), 0);
    assert input[0..] == input;
    forall q: nat | q < |input| ensures Matcher(input)(q) == Match(input, q) { }
  }

  lemma FiringChanges(input: seq<byte>, m: nat -> nat, pos: nat)
    requires pos < |input| && Bounded(input, m) && PassesBrackets(input, m) && m(pos) > 0
    ensures Redacted(input, m, pos) != input[pos..]
  {
    assert Redacted(input, m, pos)[0] == '[' as int;
    assert input[pos..][0] == input[pos];
  }

  lemma SameTail(b: byte, s: seq<byte>, t: seq<byte>)
    ensures [b] + s == [b] + t <==> s == t
  {
    assert ([b] + s)[1..] == s && ([b] + t)[1..] == t;
  }

  /** Bytes where nothing fires are copied. */
  lemma {:induction false} Copied(input: seq<byte>, m: nat -> nat, pos: nat, end: nat)
    requires pos <= end <= |input| && Bounded(input, m) && forall q: nat :: pos <= q < end ==> m(q) == 0
    ensures Redacted(input, m, pos) == input[pos..end] + Redacted(input, m, end)
    decreases end - pos
  {
    if pos < end {
      Copied(input, m, pos + 1, end);
      Chain(input, pos, end, Redacted(input, m, end));
    } else {
      assert input[pos..end] == [];
    }
  }

  lemma Chain(input: seq<byte>, pos: nat, end: nat, rest: seq<byte>)
    requires pos < end <= |input|
    ensures [input[pos]] + (input[pos + 1..end] + rest) == input[pos..end] + rest
  {
    assert input[pos..end] == [input[pos]] + input[pos + 1..end];
  }

  // ---------------------------------------------------------------- a text cut at a replacement

  /** From `q` on the text reads as the cut one does from `p` on, and then there is a bracket or nothing. */
  ghost predicate Follows(text: seq<byte>, q: nat, cut: seq<byte>, p: nat) {
    && p < |cut| && q + (|cut| - p) <= |text|
    && (forall i :: p <= i < |cut| ==> cut[i] == text[q + (i - p)])
    && (q + (|cut| - p) == |text| || text[q + (|cut| - p)] == '[' as int)
  }

  predicate NoBracket(s: seq<byte>) {
    forall k :: 0 <= k < |s| ==> s[k] != '[' as int
  }

  lemma AsciiNoBracket(s: string)
    requires '[' !in s
    ensures NoBracket(Ascii(s))
  {
    forall k | 0 <= k < |s| ensures Ascii(s)[k] != '[' as int {
      assert s[k] in s;
    }
  }

  lemma SamePrefix(text: seq<byte>, q: nat, cut: seq<byte>, p: nat, s: seq<byte>)
    requires Follows(text, q, cut, p) && NoBracket(s)
    ensures StartsWith(text, q, s) <==> StartsWith(cut, p, s)
    ensures StartsWithAnyCase(text, q, s) <==> StartsWithAnyCase(cut, p, s)
  {
    var n := |cut| - p;
    if q + |s| <= |text| && |s| > n {
      assert text[q..q + |s|][n] == '[' as int;
    }
    if |s| <= n {
      var a, b := text[q..q + |s|], cut[p..p + |s|];
      forall k | 0 <= k < |s| ensures a[k] == b[k] {
        assert cut[p + k] == text[q + (p + k - p)];
      }
      assert a == b;
    }
  }

  lemma {:induction false} SameRun(text: seq<byte>, q: nat, cut: seq<byte>, p: nat, k: nat, class_: byte -> bool)
    requires Follows(text, q, cut, p) && !class_('[' as int) && p + k <= |cut|
    ensures RunEnd(text, q + k, class_) - q == RunEnd(cut, p + k, class_) - p
    decreases |cut| - p - k
  {
    if p + k < |cut| {
      assert text[q + k] == cut[p + k];
      SameRun(text, q, cut, p, k + 1, class_);
    }
  }

  lemma SameFixedKey(text: seq<byte>, q: nat, cut: seq<byte>, p: nat, s: seq<byte>, len: nat)
    requires Follows(text, q, cut, p) && NoBracket(s)
    ensures FixedKey(text, q, s, len) == FixedKey(cut, p, s, len)
  {
    var n := |cut| - p;
    SamePrefix(text, q, cut, p, s);
    if |s| <= len && StartsWith(cut, p, s) {
      if len <= n {
        forall k | p + |s| <= k < p + len ensures cut[k] == text[q + (k - p)] { }
        forall k | q + |s| <= k < q + len ensures text[k] == cut[p + (k - q)] { }
      } else if q + len <= |text| {
        assert !IsAlnum(text[q + n]);
      }
    }
  }

  lemma SameGithubPrefix(text: seq<byte>, q: nat, cut: seq<byte>, p: nat)
    requires Follows(text, q, cut, p)
    ensures GithubPrefix(text, q) == GithubPrefix(cut, p) && NoBracket(GithubPrefix(cut, p))
  {
    AsciiNoBracket("ghp_");
    AsciiNoBracket("gho_");
    AsciiNoBracket("ghs_");
    AsciiNoBracket("ghr_");
    SamePrefix(text, q, cut, p, Ascii("ghp_"));
    SamePrefix(text, q, cut, p, Ascii("gho_"));
    SamePrefix(text, q, cut, p, Ascii("ghs_"));
  }

  lemma SameKeys(text: seq<byte>, q: nat, cut: seq<byte>, p: nat)
    requires Follows(text, q, cut, p)
    ensures AwsKey(text, q) == AwsKey(cut, p) && GithubToken(text, q) == GithubToken(cut, p)
  {
    AsciiNoBracket("AKIA");
    SameFixedKey(text, q, cut, p, Ascii("AKIA"), 20);
    SameGithubPrefix(text, q, cut, p);
    SameFixedKey(text, q, cut, p, GithubPrefix(cut, p), 40);
  }

  lemma SameBearer(text: seq<byte>, q: nat, cut: seq<byte>, p: nat)
    requires Follows(text, q, cut, p)
    ensures BearerToken(text, q) == BearerToken(cut, p)
  {
    AsciiNoBracket("Bearer ");
    SamePrefix(text, q, cut, p, Ascii("Bearer "));
    if StartsWith(cut, p, Ascii("Bearer ")) { SameRun(text, q, cut, p, 7, IsBase64Url); }
  }

  lemma {:induction false} SameDots(text: seq<byte>, q: nat, cut: seq<byte>, p: nat, k: nat, n: nat)
    requires Follows(text, q, cut, p) && k <= n && p + n <= |cut|
    ensures Dots(text, q + k, q + n) == Dots(cut, p + k, p + n)
    decreases n - k
  {
    if k < n {
      assert text[q + k] == cut[p + k];
      SameDots(text, q, cut, p, k + 1, n);
    }
  }

  lemma SameJwt(text: seq<byte>, q: nat, cut: seq<byte>, p: nat)
    requires Follows(text, q, cut, p)
    ensures Jwt(text, q) == Jwt(cut, p)
  {
    JwtIff(text, q);
    JwtIff(cut, p);
    AsciiNoBracket("eyJ");
    SamePrefix(text, q, cut, p, Ascii("eyJ"));
    SameRun(text, q, cut, p, 0, IsBase64Url);
    SameDots(text, q, cut, p, 0, RunEnd(cut, p, IsBase64Url) - p);
  }

  lemma SameHex(text: seq<byte>, q: nat, cut: seq<byte>, p: nat)
    requires Follows(text, q, cut, p)
    ensures LongHex(text, q) == LongHex(cut, p)
  {
    SameRun(text, q, cut, p, 0, IsHex);
  }

  lemma SameBase64(text: seq<byte>, q: nat, cut: seq<byte>, p: nat)
    requires Follows(text, q, cut, p)
    ensures LongBase64(text, q) == LongBase64(cut, p)
  {
    SameRun(text, q, cut, p, 0, IsBase64);
    var n := RunEnd(cut, p, IsBase64) - p;
    forall k | p <= k < p + n ensures cut[k] == text[q + (k - p)] { }
    forall k | q <= k < q + n ensures text[k] == cut[p + (k - q)] { }
  }

  // ---------------------------------------------------------------- a text and its cut

  lemma {:induction false} RunGoesOn(input: seq<byte>, e: nat, i: nat, class_: byte -> bool)
    requires i <= e <= |input|
    ensures RunEnd(input[..e], i, class_) <= RunEnd(input, i, class_)
    ensures RunEnd(input[..e], i, class_) < e ==> RunEnd(input, i, class_) == RunEnd(input[..e], i, class_)
    decreases e - i
  {
    if i < e { RunGoesOn(input, e, i + 1, class_); }
  }

  lemma CutPrefix(input: seq<byte>, e: nat, p: nat, s: seq<byte>)
    requires e <= |input|
    ensures StartsWith(input[..e], p, s) ==> StartsWith(input, p, s)
    ensures StartsWithAnyCase(input[..e], p, s) ==> StartsWithAnyCase(input, p, s)
  {
    if p + |s| <= e { assert input[..e][p..p + |s|] == input[p..p + |s|]; }
  }

  /** What fires in the cut text fires in the whole one, but for the patterns that look at what comes next. */
  lemma CutBearer(input: seq<byte>, e: nat, p: nat)
    requires p < e <= |input| && BearerToken(input, p) == 0
    ensures BearerToken(input[..e], p) == 0
  {
    CutPrefix(input, e, p, Ascii("Bearer "));
    if p + 7 <= e { RunGoesOn(input, e, p + 7, IsBase64Url); }
  }

  lemma CutRuns(input: seq<byte>, e: nat, p: nat)
    requires p < e <= |input|
    ensures LongHex(input, p) == 0 ==> LongHex(input[..e], p) == 0
    ensures LongBase64(input, p) == 0 ==> LongBase64(input[..e], p) == 0
  {
    RunGoesOn(input, e, p, IsHex);
    RunGoesOn(input, e, p, IsBase64);
    forall k | p <= k < RunEnd(input[..e], p, IsBase64) && IsBase64Mark(input[..e][k])
      ensures k < RunEnd(input, p, IsBase64) && IsBase64Mark(input[k])
    {
    }
  }

  lemma {:induction false} CutDashes(input: seq<byte>, e: nat, i: nat)
    requires e <= |input| && DashesEnd(input[..e], i) > 0
    ensures DashesEnd(input, i) > 0
    decreases e - i
  {
    CutPrefix(input, e, i, Ascii("-----"));
    if !StartsWith(input[..e], i, Ascii("-----")) { CutDashes(input, e, i + 1); }
  }

  lemma CutPem(input: seq<byte>, e: nat, p: nat)
    requires p < e <= |input| && PemHeader(input, p) == 0
    ensures PemHeader(input[..e], p) == 0
  {
    CutPrefix(input, e, p, Ascii("-----BEGIN "));
    if DashesEnd(input[..e], p + 11) > 0 { CutDashes(input, e, p + 11); }
  }

  /** A value is as long in the whole text, where it goes on into the secret behind the cut. */
  lemma ValueGoesOn(input: seq<byte>, e: nat, text: seq<byte>, q: nat, p: nat, k: nat, class_: byte -> bool, least: nat)
    requires e <= |input| && Follows(text, q, input[..e], p) && p + k <= e
    requires e < |input| ==> e + least <= |input| && forall i :: e <= i < e + least ==> class_(input[i])
    requires e == |input| ==> q + (e - p) == |text|
    ensures RunEnd(text, q + k, class_) - (q + k) >= least ==> RunEnd(input, p + k, class_) - (p + k) >= least
  {
    var r := RunEnd(input, p + k, class_);
    if r < e {
      assert !class_(input[r]) && text[q + (r - p)] == input[..e][p + (r - p)];
    }
  }

  lemma {:induction false} NamedCut(input: seq<byte>, e: nat, text: seq<byte>, q: nat, p: nat, names: seq<seq<byte>>,
                                    class_: byte -> bool, least: nat)
    requires e <= |input| && Follows(text, q, input[..e], p)
    requires forall i :: 0 <= i < |names| ==> NoBracket(names[i])
    requires e < |input| ==> e + least <= |input| && forall i :: e <= i < e + least ==> class_(input[i])
    requires e == |input| ==> q + (e - p) == |text|
    requires Named(input, p, names, class_, least) == 0 && least > 0
    ensures Named(text, q, names, class_, least) == 0 && Named(input[..e], p, names, class_, least) == 0
    decreases |names|
  {
    if |names| > 0 {
      var s := names[0];
      SamePrefix(text, q, input[..e], p, s);
      if StartsWithAnyCase(input[..e], p, s) {
        CutPrefix(input, e, p, s);
        RunGoesOn(input, e, p + |s|, class_);
        ValueGoesOn(input, e, text, q, p, |s|, class_, least);
      }
      NamedCut(input, e, text, q, p, names[1..], class_, least);
    }
  }

  // ---------------------------------------------------------------- what the first pass leaves

  /** So many dashes in a row. */
  ghost predicate Dashes(s: seq<byte>, o: nat, k: nat) {
    o + k <= |s| && forall i :: o <= i < o + k ==> s[i] == '-' as int
  }

  /** Dashes in a row in the output were in a row in the input, no further to the front. */
  lemma {:induction false} DashesBack(input: seq<byte>, m: nat -> nat, pos: nat, o: nat, k: nat) returns (x: nat)
    requires pos <= |input| && Bounded(input, m) && k > 0 && Dashes(Redacted(input, m, pos), o, k)
    ensures x >= pos + o && (o == 0 ==> x == pos) && Dashes(input, x, k)
    decreases |input| - pos
  {
    var out := Redacted(input, m, pos);
    if m(pos) > 0 {
      var rest := Redacted(input, m, pos + m(pos));
      assert out == Marker() + rest;
      NoDashInMarker(out, o);
      assert forall i {:trigger rest[i]} :: o - 10 <= i < o - 10 + k ==> rest[i] == out[i + 10];
      x := DashesBack(input, m, pos + m(pos), o - 10, k);
    } else {
      var rest := Redacted(input, m, pos + 1);
      assert out == [input[pos]] + rest;
      assert out[0] == input[pos];
      if o > 0 {
        assert forall i {:trigger rest[i]} :: o - 1 <= i < o - 1 + k ==> rest[i] == out[i + 1];
        x := DashesBack(input, m, pos + 1, o - 1, k);
      } else if k > 1 {
        assert forall i {:trigger rest[i]} :: 0 <= i < k - 1 ==> rest[i] == out[i + 1];
        x := DashesBack(input, m, pos + 1, 0, k - 1);
        x := pos;
      } else {
        x := pos;
      }
    }
  }

  lemma NoDashInMarker(out: seq<byte>, o: nat)
    requires |out| >= 10 && out[..10] == Marker() && o < |out| && out[o] == '-' as int
    ensures o >= 10
  {
    forall i | 0 <= i < 10 ensures out[i] != '-' as int { assert out[i] == out[..10][i]; }
  }

  lemma {:induction false} DashesFound(s: seq<byte>, i: nat) returns (x: nat)
    requires DashesEnd(s, i) > 0
    ensures x >= i && Dashes(s, x, 5)
    decreases |s| - i
  {
    if StartsWith(s, i, Ascii("-----")) {
      x := i;
      forall j | i <= j < i + 5 ensures s[j] == '-' as int { assert s[i..i + 5][j - i] == s[j]; }
    } else {
      x := DashesFound(s, i + 1);
    }
  }

  lemma {:induction false} DashesSeen(s: seq<byte>, i: nat, x: nat)
    requires i <= x && Dashes(s, x, 5)
    ensures DashesEnd(s, i) > 0
    decreases x - i
  {
    if i == x {
      assert s[i..i + 5] == Ascii("-----");
    } else {
      DashesSeen(s, i + 1, x);
    }
  }

  /** The output is at the end of the text, from `q` on. */
  ghost predicate EndsWith(text: seq<byte>, q: nat, out: seq<byte>) {
    q <= |text| && text[q..] == out
  }

  /** A header that ends in the output ended in the input. */
  lemma NoNewPem(input: seq<byte>, m: nat -> nat, p: nat, e: nat, text: seq<byte>, q: nat)
    requires p < e <= |input| && Bounded(input, m) && EndsWith(text, q, Redacted(input, m, p))
    requires Follows(text, q, input[..e], p) && PemHeader(input, p) == 0
    ensures PemHeader(text, q) == 0
  {
    AsciiNoBracket("-----BEGIN ");
    SamePrefix(text, q, input[..e], p, Ascii("-----BEGIN "));
    CutPrefix(input, e, p, Ascii("-----BEGIN "));
    if StartsWith(input, p, Ascii("-----BEGIN ")) && DashesEnd(text, q + 11) > 0 {
      var y := DashesFound(text, q + 11);
      var out := Redacted(input, m, p);
      forall i | y - q <= i < y - q + 5 ensures out[i] == '-' as int { assert out[i] == text[q + i]; }
      var x := DashesBack(input, m, p, y - q, 5);
      DashesSeen(input, p + 11, x);
    }
  }

  /** Four bytes that can be part of a value. */
  predicate StartsValue(input: seq<byte>, e: nat) {
    e + 4 <= |input| && forall i :: e <= i < e + 4 ==> IsValue(input[i])
  }

  /** At least four bytes that can be part of a value, in either case. */
  predicate IsPlain(s: seq<byte>) {
    |s| >= 4 && forall k :: 0 <= k < 4 ==> IsValue(Lower(s[k]))
  }

  lemma PlainStart(input: seq<byte>, e: nat, s: seq<byte>)
    requires StartsWithAnyCase(input, e, s) && IsPlain(s)
    ensures forall i :: e <= i < e + 4 ==> IsValue(input[i])
  {
    forall i | e <= i < e + 4 ensures IsValue(input[i]) {
      assert input[e..e + |s|][i - e] == input[i];
      assert Lower(input[i]) == Lower(s[i - e]);
    }
  }

  lemma {:induction false} NamedStart(input: seq<byte>, e: nat, names: seq<seq<byte>>, class_: byte -> bool, least: nat)
    requires e <= |input| && Named(input, e, names, class_, least) > 0
    requires forall i :: 0 <= i < |names| ==> IsPlain(names[i])
    ensures StartsValue(input, e)
    decreases |names|
  {
    if StartsWithAnyCase(input, e, names[0]) {
      assert IsPlain(names[0]);
      PlainStart(input, e, names[0]);
    } else {
      NamedStart(input, e, names[1..], class_, least);
    }
  }

  lemma NamesStart(input: seq<byte>, e: nat)
    requires e < |input| && (KeyValueSecret(input, e) > 0 || ConnectionSecret(input, e) > 0)
    ensures StartsValue(input, e)
  {
    NamesArePlain();
    if KeyValueSecret(input, e) > 0 {
      NamedStart(input, e, KeyNames(), IsValue, 4);
    } else {
      NamedStart(input, e, ConnectionNames(), IsConnectionValue, 1);
    }
  }

  lemma NamesArePlain()
    ensures forall i :: 0 <= i < |KeyNames()| ==> IsPlain(KeyNames()[i])
    ensures forall i :: 0 <= i < |ConnectionNames()| ==> IsPlain(ConnectionNames()[i])
  {
    assert IsPlain(Ascii("password=")) && IsPlain(Ascii("passwd=")) && IsPlain(Ascii("secret="));
    assert IsPlain(Ascii("token=")) && IsPlain(Ascii("api_key="));
    assert IsPlain(Ascii("Password=")) && IsPlain(Ascii("AccountKey=")) && IsPlain(Ascii("SharedAccessKey="));
  }

  lemma KeysStart(input: seq<byte>, e: nat)
    requires e < |input| && (AwsKey(input, e) > 0 || GithubToken(input, e) > 0)
    ensures StartsValue(input, e)
  {
    if AwsKey(input, e) > 0 {
      PlainStart(input, e, Ascii("AKIA"));
    } else {
      PlainStart(input, e, GithubPrefix(input, e));
    }
  }

  lemma HeadersStart(input: seq<byte>, e: nat)
    requires e < |input| && (BearerToken(input, e) > 0 || PemHeader(input, e) > 0)
    ensures StartsValue(input, e)
  {
    if BearerToken(input, e) > 0 {
      PlainStart(input, e, Ascii("Bearer "));
    } else {
      PlainStart(input, e, Ascii("-----BEGIN "));
    }
  }

  lemma RunsStart(input: seq<byte>, e: nat)
    requires e < |input| && (Jwt(input, e) > 0 || LongHex(input, e) > 0 || LongBase64(input, e) > 0)
    ensures StartsValue(input, e)
  {
    JwtIff(input, e);
  }

  /** The value of a key can go on into whatever fires. */
  lemma FiringStart(input: seq<byte>, e: nat)
    requires e < |input| && Match(input, e) > 0
    ensures StartsValue(input, e)
  {
    if KeyValueSecret(input, e) > 0 || ConnectionSecret(input, e) > 0 {
      NamesStart(input, e);
    } else if AwsKey(input, e) > 0 || GithubToken(input, e) > 0 {
      KeysStart(input, e);
    } else if BearerToken(input, e) > 0 || PemHeader(input, e) > 0 {
      HeadersStart(input, e);
    } else {
      RunsStart(input, e);
    }
  }

  // ---------------------------------------------------------------- one stretch of copied bytes

  lemma NamesNoBracket()
    ensures forall i :: 0 <= i < |KeyNames()| ==> NoBracket(KeyNames()[i])
    ensures forall i :: 0 <= i < |ConnectionNames()| ==> NoBracket(ConnectionNames()[i])
  {
    AsciiNoBracket("password=");
    AsciiNoBracket("passwd=");
    AsciiNoBracket("secret=");
    AsciiNoBracket("token=");
    AsciiNoBracket("api_key=");
    AsciiNoBracket("Password=");
    AsciiNoBracket("AccountKey=");
    AsciiNoBracket("SharedAccessKey=");
  }

  /** The bytes from `p` on up to the next secret found at `e`, or the end, are copied to `q`. */
  ghost predicate Stretch(input: seq<byte>, p: nat, e: nat, text: seq<byte>, q: nat) {
    && p < e <= |input| && Follows(text, q, input[..e], p)
    && (e < |input| ==> Match(input, e) > 0) && (e == |input| ==> q + (e - p) == |text|)
  }

  lemma NamesInStretch(input: seq<byte>, p: nat, e: nat, text: seq<byte>, q: nat)
    requires Stretch(input, p, e, text, q) && KeyValueSecret(input, p) == 0 && ConnectionSecret(input, p) == 0
    ensures KeyValueSecret(text, q) == 0 && ConnectionSecret(text, q) == 0
    ensures KeyValueSecret(input[..e], p) == 0 && ConnectionSecret(input[..e], p) == 0
  {
    NamesNoBracket();
    if e < |input| { FiringStart(input, e); }
    NamedCut(input, e, text, q, p, KeyNames(), IsValue, 4);
    NamedCut(input, e, text, q, p, ConnectionNames(), IsConnectionValue, 1);
  }

  /** Only a key of fixed length or a web token can fire in the cut text and not in the whole one. */
  predicate KeyOrToken(text: seq<byte>, p: nat)
    requires p <= |text|
  {
    AwsKey(text, p) > 0 || GithubToken(text, p) > 0 || Jwt(text, p) > 0
  }

  /** In the output something fires where nothing fired in the input exactly when a key or token ends at the next
      secret. */
  lemma StretchIff(input: seq<byte>, m: nat -> nat, p: nat, e: nat, text: seq<byte>, q: nat)
    requires Bounded(input, m) && Stretch(input, p, e, text, q) && EndsWith(text, q, Redacted(input, m, p))
    requires Match(input, p) == 0
    ensures Match(text, q) > 0 <==> KeyOrToken(input[..e], p)
  {
    NamesInStretch(input, p, e, text, q);
    NoNewPem(input, m, p, e, text, q);
    CutBearer(input, e, p);
    CutRuns(input, e, p);
    var cut := input[..e];
    SameKeys(text, q, cut, p);
    SameBearer(text, q, cut, p);
    SameJwt(text, q, cut, p);
    SameHex(text, q, cut, p);
    SameBase64(text, q, cut, p);
  }

  // ---------------------------------------------------------------- inside a replacement

  /** A byte of a replacement after the first, and what of the next ones matters. */
  predicate InMarker(text: seq<byte>, pos: nat) {
    && pos < |text|
    && var b := text[pos];
       b == ']' as int
       || (pos + 2 < |text| && (b == 'R' as int || b == 'E' as int || b == 'D' as int || b == 'C' as int))
       || (pos + 2 < |text| && b == 'A' as int && text[pos + 1] == 'C' as int && text[pos + 2] == 'T' as int)
       || (pos + 2 < |text| && b == 'T' as int && text[pos + 1] == 'E' as int)
       || (b == 'D' as int && pos + 1 < |text|)
  }

  lemma MarkerBytes(text: seq<byte>, q: nat)
    requires q + 10 <= |text| && text[q..q + 10] == Marker()
    ensures text[q] == '[' as int && text[q + 9] == ']' as int
    ensures forall pos :: q < pos < q + 10 ==> InMarker(text, pos)
  {
    var s := text[q..q + 10];
    assert s == Ascii("[REDACTED]");
    assert s[0] == text[q] && s[1] == text[q + 1] && s[2] == text[q + 2] && s[3] == text[q + 3] && s[4] == text[q + 4];
    assert s[5] == text[q + 5] && s[6] == text[q + 6] && s[7] == text[q + 7] && s[8] == text[q + 8]
      && s[9] == text[q + 9];
    assert InMarker(text, q + 1) && InMarker(text, q + 2) && InMarker(text, q + 3) && InMarker(text, q + 4);
    assert InMarker(text, q + 5) && InMarker(text, q + 6) && InMarker(text, q + 7) && InMarker(text, q + 8)
      && InMarker(text, q + 9);
  }

  lemma MarkerNames(text: seq<byte>, pos: nat)
    requires InMarker(text, pos)
    ensures KeyValueSecret(text, pos) == 0 && ConnectionSecret(text, pos) == 0
  {
    assert Elsewhere(text, pos, Ascii("password=")) && Elsewhere(text, pos, Ascii("passwd="));
    assert Elsewhere(text, pos, Ascii("secret=")) && Elsewhere(text, pos, Ascii("token="));
    assert Elsewhere(text, pos, Ascii("api_key="));
    NamedElsewhere(text, pos, KeyNames(), IsValue, 4);
    assert Elsewhere(text, pos, Ascii("Password=")) && Elsewhere(text, pos, Ascii("AccountKey="));
    assert Elsewhere(text, pos, Ascii("SharedAccessKey="));
    NamedElsewhere(text, pos, ConnectionNames(), IsConnectionValue, 1);
  }

  lemma MarkerPrefixes(text: seq<byte>, pos: nat)
    requires InMarker(text, pos)
    ensures AwsKey(text, pos) == 0 && GithubToken(text, pos) == 0 && BearerToken(text, pos) == 0
    ensures PemHeader(text, pos) == 0 && Jwt(text, pos) == 0
  {
    PrefixHead(text, pos, Ascii("AKIA"));
    PrefixHead(text, pos, GithubPrefix(text, pos));
    PrefixHead(text, pos, Ascii("Bearer "));
    PrefixHead(text, pos, Ascii("-----BEGIN "));
    PrefixHead(text, pos, Ascii("eyJ"));
  }

  lemma {:induction false} RunStops(text: seq<byte>, i: nat, stop: nat, class_: byte -> bool)
    requires i <= stop < |text| && !class_(text[stop])
    ensures RunEnd(text, i, class_) <= stop
    decreases stop - i
  {
    if i < stop { RunStops(text, i + 1, stop, class_); }
  }

  lemma NothingBeforeEnd(text: seq<byte>, pos: nat, stop: nat)
    requires InMarker(text, pos) && pos <= stop < pos + 10 && stop < |text| && text[stop] == ']' as int
    ensures Match(text, pos) == 0
  {
    MarkerNames(text, pos);
    MarkerPrefixes(text, pos);
    RunStops(text, pos, stop, IsHex);
    RunStops(text, pos, stop, IsBase64);
  }

  /** Where a replacement stands nothing fires. */
  lemma NothingInMarker(text: seq<byte>, q: nat, pos: nat)
    requires q + 10 <= |text| && text[q..q + 10] == Marker() && q <= pos < q + 10
    ensures Match(text, pos) == 0
  {
    MarkerBytes(text, q);
    if pos == q { BracketStartsNothing(text, q); } else { NothingBeforeEnd(text, pos, q + 9); }
  }

  // ---------------------------------------------------------------- the whole text

  /** The first pass gets to the position, going from `pos`. */
  ghost predicate Visits(input: seq<byte>, m: nat -> nat, pos: nat, p: nat)
    requires pos <= |input| && Bounded(input, m)
    decreases |input| - pos
  {
    pos == p || (pos < |input| && Visits(input, m, if m(pos) > 0 then pos + m(pos) else pos + 1, p))
  }

  /** The next position at which something fires, or the end. */
  function NextSecret(input: seq<byte>, m: nat -> nat, p: nat): (e: nat)
    requires p <= |input|
    ensures p <= e <= |input| && (forall x :: p <= x < e ==> m(x) == 0) && (e < |input| ==> m(e) > 0)
    decreases |input| - p
  {
    if p == |input| || m(p) > 0 then p else NextSecret(input, m, p + 1)
  }

  /** Where a key or token would fire, did the text end at the next secret. */
  function Cuts(input: seq<byte>, m: nat -> nat): nat -> bool {
    (p: nat) => p < |input| && KeyOrToken(input[..NextSecret(input, m, p)], p)
  }

  /** No position copied from `pos` on is cut. */
  ghost predicate NothingCut(input: seq<byte>, m: nat -> nat, cut: nat -> bool, pos: nat)
    requires pos <= |input| && Bounded(input, m)
  {
    forall p: nat :: p < |input| && Visits(input, m, pos, p) && m(p) == 0 ==> !cut(p)
  }

  /** The length matched at each position, without looking into the patterns. */
  ghost predicate Matches(input: seq<byte>, m: nat -> nat) {
    forall x: nat {:trigger Match(input, x)} :: x <= |input| ==> m(x) == Match(input, x)
  }

  ghost predicate IsCuts(input: seq<byte>, m: nat -> nat, cut: nat -> bool) {
    forall p: nat {:trigger KeyOrToken(input[..NextSecret(input, m, p)], p)} ::
      p < |input| ==> (cut(p) <==> KeyOrToken(input[..NextSecret(input, m, p)], p))
  }

  /** Nothing fires from `q` up to `n`. */
  ghost predicate Quiet(t: nat -> nat, q: nat, n: nat) {
    forall k: nat :: q <= k < n ==> t(k) == 0
  }

  lemma StretchAt(input: seq<byte>, m: nat -> nat, p: nat, text: seq<byte>, q: nat)
    requires Bounded(input, m) && p < |input| && m(p) == 0 && Matches(input, m)
    requires EndsWith(text, q, Redacted(input, m, p))
    ensures Stretch(input, p, NextSecret(input, m, p), text, q)
  {
    var e := NextSecret(input, m, p);
    var rest := Redacted(input, m, e);
    Copied(input, m, p, e);
    CopiedAt(text, q, input, p, e, rest);
    if e < |input| { assert rest[0] == '[' as int; }
  }

  lemma CopiedAt(text: seq<byte>, q: nat, input: seq<byte>, p: nat, e: nat, rest: seq<byte>)
    requires p <= e <= |input| && EndsWith(text, q, input[p..e] + rest)
    ensures q + (e - p) + |rest| == |text|
    ensures forall i :: p <= i < e ==> input[i] == text[q + (i - p)]
    ensures |rest| > 0 ==> text[q + (e - p)] == rest[0]
  {
    var out := input[p..e] + rest;
    forall i | p <= i < e ensures input[i] == text[q + (i - p)] {
      assert out[i - p] == text[q..][i - p];
    }
    if |rest| > 0 { assert out[e - p] == text[q..][e - p]; }
  }

  lemma FirstAndRest(text: seq<byte>, q: nat, front: seq<byte>, rest: seq<byte>)
    requires EndsWith(text, q, front + rest)
    ensures q + |front| <= |text| && text[q..q + |front|] == front && EndsWith(text, q + |front|, rest)
  {
    assert text[q..][..|front|] == front && text[q..][|front|..] == rest;
    assert text[q..][|front|..] == text[q + |front|..];
    assert text[q..][..|front|] == text[q..q + |front|];
  }

  /** Nothing fires in the rest of the output exactly when nothing is cut in the rest of the input. */
  lemma {:induction false} QuietIff(input: seq<byte>, m: nat -> nat, cut: nat -> bool, pos: nat, text: seq<byte>,
                                    t: nat -> nat, q: nat)
    requires Bounded(input, m) && pos <= |input| && Matches(input, m) && Matches(text, t) && IsCuts(input, m, cut)
    requires EndsWith(text, q, Redacted(input, m, pos))
    ensures Quiet(t, q, |text|) <==> NothingCut(input, m, cut, pos)
    decreases |input| - pos
  {
    if pos == |input| {
      NothingLeft(input, m, cut, text, t, q);
    } else if m(pos) > 0 {
      SecretRest(input, m, pos, text, t, q);
      QuietIff(input, m, cut, pos + m(pos), text, t, q + 10);
      CutsSplit(input, m, cut, pos);
    } else {
      ByteRest(input, m, cut, pos, text, t, q);
      QuietIff(input, m, cut, pos + 1, text, t, q + 1);
      CutsSplit(input, m, cut, pos);
    }
  }

  lemma NothingLeft(input: seq<byte>, m: nat -> nat, cut: nat -> bool, text: seq<byte>, t: nat -> nat, q: nat)
    requires Bounded(input, m) && EndsWith(text, q, Redacted(input, m, |input|))
    ensures Quiet(t, q, |text|) && NothingCut(input, m, cut, |input|)
  {
    assert |text[q..]| == 0;
  }

  lemma SecretRest(input: seq<byte>, m: nat -> nat, pos: nat, text: seq<byte>, t: nat -> nat, q: nat)
    requires Bounded(input, m) && pos < |input| && m(pos) > 0 && EndsWith(text, q, Redacted(input, m, pos))
      && Matches(text, t)
    ensures EndsWith(text, q + 10, Redacted(input, m, pos + m(pos)))
    ensures Quiet(t, q, |text|) <==> Quiet(t, q + 10, |text|)
  {
    FirstAndRest(text, q, Marker(), Redacted(input, m, pos + m(pos)));
    forall k: nat | q <= k < q + 10 ensures t(k) == 0 { QuietInMarker(text, t, q, k); }
  }

  lemma QuietInMarker(text: seq<byte>, t: nat -> nat, q: nat, k: nat)
    requires q + 10 <= |text| && text[q..q + 10] == Marker() && Matches(text, t) && q <= k < q + 10
    ensures t(k) == 0
  {
    NothingInMarker(text, q, k);
  }

  lemma ByteRest(input: seq<byte>, m: nat -> nat, cut: nat -> bool, pos: nat, text: seq<byte>, t: nat -> nat, q: nat)
    requires Bounded(input, m) && pos < |input| && m(pos) == 0 && Matches(input, m) && Matches(text, t)
      && IsCuts(input, m, cut)
    requires EndsWith(text, q, Redacted(input, m, pos))
    ensures q < |text| && EndsWith(text, q + 1, Redacted(input, m, pos + 1))
    ensures Quiet(t, q, |text|) <==> !cut(pos) && Quiet(t, q + 1, |text|)
  {
    FirstAndRest(text, q, [input[pos]], Redacted(input, m, pos + 1));
    CopiedFires(input, m, cut, pos, text, t, q);
    QuietStep(t, q, |text|);
  }

  lemma QuietStep(t: nat -> nat, q: nat, n: nat)
    requires q < n
    ensures Quiet(t, q, n) <==> t(q) == 0 && Quiet(t, q + 1, n)
  {
  }

  lemma CopiedFires(input: seq<byte>, m: nat -> nat, cut: nat -> bool, pos: nat, text: seq<byte>, t: nat -> nat, q: nat)
    requires Bounded(input, m) && pos < |input| && m(pos) == 0 && Matches(input, m) && Matches(text, t)
      && IsCuts(input, m, cut)
    requires q < |text| && EndsWith(text, q, Redacted(input, m, pos))
    ensures t(q) > 0 <==> cut(pos)
  {
    var e := NextSecret(input, m, pos);
    StretchAt(input, m, pos, text, q);
    assert Match(input, pos) == 0;
    StretchIff(input, m, pos, e, text, q);
    assert KeyOrToken(input[..e], pos) <==> Match(text, q) > 0;
  }

  lemma CutsSplit(input: seq<byte>, m: nat -> nat, cut: nat -> bool, pos: nat)
    requires Bounded(input, m) && pos < |input|
    ensures m(pos) > 0 ==> (NothingCut(input, m, cut, pos) <==> NothingCut(input, m, cut, pos + m(pos)))
    ensures m(pos) == 0 ==> (NothingCut(input, m, cut, pos) <==> !cut(pos) && NothingCut(input, m, cut, pos + 1))
  {
    var next := if m(pos) > 0 then pos + m(pos) else pos + 1;
    NoWayBack(input, m, next, pos);
    forall p: nat ensures Visits(input, m, pos, p) <==> p == pos || Visits(input, m, next, p) { }
  }

  lemma {:induction false} NoWayBack(input: seq<byte>, m: nat -> nat, pos: nat, p: nat)
    requires Bounded(input, m) && p < pos <= |input|
    ensures !Visits(input, m, pos, p)
    decreases |input| - pos
  {
    if pos < |input| { NoWayBack(input, m, if m(pos) > 0 then pos + m(pos) else pos + 1, p); }
  }

  /** Redacting twice is redacting once exactly when no key or token that was left in place ends where the
      next secret begins. */
  lemma RedactTwiceIff(input: seq<byte>)
    ensures var m := Matcher(input);
      Bounded(input, m) && var once := Redacted(input, m, 0);
      Bounded(once, Matcher(once))
      && (Redacted(once, Matcher(once), 0) == once <==> NothingCut(input, m, Cuts(input, m), 0))
  {
    var m := Matcher(input);
    MatcherIsBounded(input);
    MatcherMatches(input);
    var once := Redacted(input, m, 0);
    MatcherIsBounded(once);
    MatcherMatches(once);
    MatcherPassesBrackets(once);
    CutsAre(input, m);
    WholeIff(input, m, Cuts(input, m), once, Matcher(once));
  }

  lemma MatcherMatches(input: seq<byte>)
    ensures Matches(input, Matcher(input))
  {
  }

  lemma CutsAre(input: seq<byte>, m: nat -> nat)
    ensures IsCuts(input, m, Cuts(input, m))
  {
  }

  lemma WholeIff(input: seq<byte>, m: nat -> nat, cut: nat -> bool, once: seq<byte>, t: nat -> nat)
    requires Bounded(input, m) && Matches(input, m) && IsCuts(input, m, cut) && once == Redacted(input, m, 0)
    requires Bounded(once, t) && Matches(once, t) && PassesBrackets(once, t)
    ensures Redacted(once, t, 0) == once <==> NothingCut(input, m, cut, 0)
  {
    assert once[0..] == once;
    QuietIff(input, m, cut, 0, once, t, 0);
    UnchangedFrom(once, t, 0);
  }

  function KeyPart(): (s: seq<byte>)
    ensures |s| == 20
  {
    Ascii("AKIAzzzzzzzzzzzzzzzz")
  }

  function PasswordPart(): (s: seq<byte>)
    ensures |s| == 13 && s[0] == 'p' as int
  {
    Ascii("password=abcd")
  }

  /** A key of letters only, which run into a password: it is no key until the password has gone. */
  function TwoSecrets(): (s: seq<byte>)
    ensures |s| == 33 && s[20] == 'p' as int && s[..20] == KeyPart() && s[20..] == PasswordPart()
  {
    KeyPart() + PasswordPart()
  }

  lemma KeyBytes(s: seq<byte>, q: nat)
    requires |s| >= 20 && s[..20] == KeyPart() && q < 20
    ensures s[q]
         == if q == 0 || q == 3 then 'A' as int else if q == 1 then 'K' as int
            else if q == 2 then 'I' as int else 'z' as int
  {
    assert s[q] == s[..20][q];
  }

  lemma KeyStartsNoRun(s: seq<byte>, q: nat)
    requires |s| == 33 && s[..20] == KeyPart() && q < 20
    requires s[q + 1] == if q < 19 then KeyPart()[q + 1] else 'p' as int
    ensures StartsNoName(s, q) && LongHex(s, q) == 0 && LongBase64(s, q) == 0
  {
    KeyBytes(s, q);
    if q < 19 { KeyBytes(s, q + 1); }
    assert !IsHex(s[q]) || !IsHex(s[q + 1]);
    assert RunEnd(s, q, IsHex) <= q + 1;
  }

  lemma NoKeyYet(s: seq<byte>, q: nat)
    requires |s| == 33 && s[..20] == KeyPart() && s[20] == 'p' as int && q < 20
    ensures AwsKey(s, q) == 0
  {
    if q > 0 && q + 20 <= |s| {
      KeyBytes(s, q);
      KeyBytes(s, q + 1);
      assert s[q..q + 4][0] == s[q] && s[q..q + 4][1] == s[q + 1];
    }
  }

  lemma FirstSecretIsHidden(q: nat)
    requires q < 20
    ensures Match(TwoSecrets(), q) == 0
  {
    var s := TwoSecrets();
    if q < 19 { assert s[q + 1] == s[..20][q + 1]; }
    KeyStartsNoRun(s, q);
    NoKeyYet(s, q);
    NoNames(s, q);
    NoPrefixes(s, q);
  }

  lemma PasswordBytes(s: seq<byte>)
    requires |s| == 33 && s[20..] == PasswordPart()
    ensures s[20..29] == Ascii("password=") && s[29] == 'a' as int && s[30] == 'b' as int && s[31] == 'c' as int
      && s[32] == 'd' as int
  {
    var p := PasswordPart();
    assert p[..9] == Ascii("password=");
    assert s[20..29] == s[20..][..9];
    assert s[29] == s[20..][9] && s[30] == s[20..][10] && s[31] == s[20..][11] && s[32] == s[20..][12];
  }

  lemma PasswordIsNamed(s: seq<byte>)
    requires |s| == 33 && s[20..] == PasswordPart()
    ensures KeyValueSecret(s, 20) == 13
  {
    PasswordBytes(s);
    var names := KeyNames();
    assert names[0] == Ascii("password=") && StartsWithAnyCase(s, 20, names[0]);
    var e := RunEnd(s, 29, IsValue);
    assert e == 33 by {
      assert IsValue(s[29]) && IsValue(s[30]) && IsValue(s[31]) && IsValue(s[32]);
    }
  }

  lemma PasswordFires(s: seq<byte>)
    requires |s| == 33 && s[20..] == PasswordPart()
    ensures Match(s, 20) == 13
  {
    PasswordIsNamed(s);
    PrefixHead(s, 20, Ascii("-----BEGIN "));
  }

  lemma KeyFires(s: seq<byte>)
    requires |s| == 30 && s[..20] == KeyPart() && s[20] == '[' as int
    ensures Match(s, 0) == 20
  {
    forall k | 4 <= k < 20 ensures IsAlnum(s[k]) { KeyBytes(s, k); }
    assert s[0..4] == Ascii("AKIA") by {
      forall k: nat | k < 4 ensures s[0..4][k] == Ascii("AKIA")[k] { KeyBytes(s, k); }
    }
  }

  /** Redacting what has been redacted can find another secret. */
  lemma SecondPassFindsMore()
    ensures Bounded(TwoSecrets(), Matcher(TwoSecrets()))
    ensures var once := Redacted(TwoSecrets(), Matcher(TwoSecrets()), 0);
      |once| == 30 && Match(once, 0) == 20
  {
    var s := TwoSecrets();
    MatcherIsBounded(s);
    FirstPass(s, Matcher(s)) by {
      forall q: nat | q < 20 ensures Matcher(s)(q) == 0 { FirstSecretIsHidden(q); }
      PasswordFires(s);
    }
    KeyFires(Redacted(s, Matcher(s), 0));
  }

  lemma FirstPass(s: seq<byte>, m: nat -> nat)
    requires s == TwoSecrets() && Bounded(s, m) && m(20) == 13 && forall q: nat :: 0 <= q < 20 ==> m(q) == 0
    ensures var once := Redacted(s, m, 0); |once| == 30 && once[..20] == KeyPart() && once[20] == '[' as int
  {
    Copied(s, m, 0, 20);
    var rest := Redacted(s, m, 20);
    assert rest == Marker() + Redacted(s, m, 33);
    assert s[0..20] == s[..20];
    assert (s[..20] + rest)[..20] == KeyPart();
  }
}
