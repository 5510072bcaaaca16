/** What the nine patterns are for, said of the text itself, and that none of it is copied. */
module RedactSecrets {
  import opened Bits
  import opened Redact
  import opened RedactTwice

  // ---------------------------------------------------------------- what a secret looks like

  /** The characters of `w` are at `p`. */
  predicate WordAt(input: seq<byte>, p: nat, w: string) {
    p + |w| <= |input| && forall i :: 0 <= i < |w| ==> input[p + i] == w[i] as int
  }

  /** The letters of `w` are at `p`, in any case. */
  predicate NameAt(input: seq<byte>, p: nat, w: string)
    requires AllAscii(w)
  {
    p + |w| <= |input| && forall i :: 0 <= i < |w| ==> Lower(input[p + i]) == Lower(w[i] as int)
  }

  predicate AllAscii(w: string) {
    forall i :: 0 <= i < |w| ==> w[i] < 128 as char
  }

  /** At least `n` characters of a class from `i` on. */
  predicate RunOf(input: seq<byte>, i: nat, n: nat, class_: byte -> bool) {
    i + n <= |input| && forall k :: i <= k < i + n ==> class_(input[k])
  }

  /** A word and `n` alphanumerics, and then no more. */
  predicate KeyAt(input: seq<byte>, p: nat, w: string, n: nat) {
    WordAt(input, p, w) && RunOf(input, p + |w|, n, IsAlnum)
    && (p + |w| + n < |input| ==> !IsAlnum(input[p + |w| + n]))
  }

  predicate NamedAt(input: seq<byte>, p: nat, w: string, class_: byte -> bool, n: nat)
    requires AllAscii(w)
  {
    NameAt(input, p, w) && RunOf(input, p + |w|, n, class_)
  }

  predicate AwsKeyAt(input: seq<byte>, p: nat) {
    KeyAt(input, p, "AKIA", 16)
  }

  predicate GithubTokenAt(input: seq<byte>, p: nat) {
    KeyAt(input, p, "ghp_", 36) || KeyAt(input, p, "gho_", 36) || KeyAt(input, p, "ghs_", 36)
    || KeyAt(input, p, "ghr_", 36)
  }

  predicate BearerTokenAt(input: seq<byte>, p: nat) {
    WordAt(input, p, "Bearer ") && RunOf(input, p + 7, 20, IsBase64Url)
  }

  predicate PasswordAt(input: seq<byte>, p: nat) {
    NamedAt(input, p, "password=", IsValue, 4) || NamedAt(input, p, "passwd=", IsValue, 4)
    || NamedAt(input, p, "secret=", IsValue, 4) || NamedAt(input, p, "token=", IsValue, 4)
    || NamedAt(input, p, "api_key=", IsValue, 4)
  }

  predicate ConnectionAt(input: seq<byte>, p: nat) {
    NamedAt(input, p, "Password=", IsConnectionValue, 1) || NamedAt(input, p, "AccountKey=", IsConnectionValue, 1)
    || NamedAt(input, p, "SharedAccessKey=", IsConnectionValue, 1)
  }

  ghost predicate PemHeaderAt(input: seq<byte>, p: nat) {
    WordAt(input, p, "-----BEGIN ") && exists e: nat :: e >= p + 11 && WordAt(input, e, "-----")
  }

  // ---------------------------------------------------------------- prefixes and runs

  lemma WordIff(input: seq<byte>, p: nat, w: string)
    requires AllAscii(w)
    ensures StartsWith(input, p, Ascii(w)) <==> WordAt(input, p, w)
  {
    if p + |w| <= |input| {
      var s := input[p..p + |w|];
      assert forall i :: 0 <= i < |w| ==> s[i] == input[p + i] && Ascii(w)[i] == w[i] as int;
    }
  }

  lemma NameIff(input: seq<byte>, p: nat, w: string)
    requires AllAscii(w)
    ensures StartsWithAnyCase(input, p, Ascii(w)) <==> NameAt(input, p, w)
  {
    if p + |w| <= |input| {
      var s := input[p..p + |w|];
      assert forall i :: 0 <= i < |w| ==> s[i] == input[p + i] && Ascii(w)[i] == w[i] as int;
    }
  }

  lemma RunIff(input: seq<byte>, i: nat, n: nat, class_: byte -> bool)
    requires i <= |input|
    ensures RunEnd(input, i, class_) - i >= n <==> RunOf(input, i, n, class_)
  {
  }

  // ---------------------------------------------------------------- pattern by pattern

  lemma KeyIff(input: seq<byte>, p: nat, w: string, n: nat)
    requires AllAscii(w) && |w| + n > 0
    ensures FixedKey(input, p, Ascii(w), |w| + n) > 0 <==> KeyAt(input, p, w, n)
  {
    WordIff(input, p, w);
  }

  lemma AwsKeyIff(input: seq<byte>, p: nat)
    ensures AwsKey(input, p) > 0 <==> AwsKeyAt(input, p)
  {
    KeyIff(input, p, "AKIA", 16);
  }

  lemma GithubTokenIff(input: seq<byte>, p: nat)
    ensures GithubToken(input, p) > 0 <==> GithubTokenAt(input, p)
  {
    WordIff(input, p, "ghp_");
    WordIff(input, p, "gho_");
    WordIff(input, p, "ghs_");
    KeyIff(input, p, "ghp_", 36);
    KeyIff(input, p, "gho_", 36);
    KeyIff(input, p, "ghs_", 36);
    KeyIff(input, p, "ghr_", 36);
    OneWord(input, p);
  }

  /** The four words exclude each other. */
  lemma OneWord(input: seq<byte>, p: nat)
    ensures WordAt(input, p, "ghp_") ==> input[p + 2] == 'p' as int
    ensures WordAt(input, p, "gho_") ==> input[p + 2] == 'o' as int
    ensures WordAt(input, p, "ghs_") ==> input[p + 2] == 's' as int
    ensures WordAt(input, p, "ghr_") ==> input[p + 2] == 'r' as int
  {
    assert "ghp_"[2] == 'p' && "gho_"[2] == 'o' && "ghs_"[2] == 's' && "ghr_"[2] == 'r';
  }

  lemma BearerTokenIff(input: seq<byte>, p: nat)
    requires p <= |input|
    ensures BearerToken(input, p) > 0 <==> BearerTokenAt(input, p)
  {
    WordIff(input, p, "Bearer ");
    if p + 7 <= |input| { RunIff(input, p + 7, 20, IsBase64Url); }
  }

  lemma {:induction false} DashesIff(input: seq<byte>, i: nat)
    ensures DashesEnd(input, i) > 0 <==> exists e: nat :: e >= i && WordAt(input, e, "-----")
    decreases |input| - i
  {
    if i + 5 <= |input| {
      WordIff(input, i, "-----");
      DashesIff(input, i + 1);
    }
  }

  lemma PemHeaderIff(input: seq<byte>, p: nat)
    ensures PemHeader(input, p) > 0 <==> PemHeaderAt(input, p)
  {
    WordIff(input, p, "-----BEGIN ");
    DashesIff(input, p + 11);
  }

  ghost predicate Fires(input: seq<byte>, p: nat, name: seq<byte>, class_: byte -> bool, n: nat) {
    StartsWithAnyCase(input, p, name) && RunOf(input, p + |name|, n, class_)
  }

  lemma {:induction false} NamedIff(input: seq<byte>, p: nat, names: seq<seq<byte>>, class_: byte -> bool, n: nat)
    requires p <= |input| && n > 0
    ensures Named(input, p, names, class_, n) > 0
       <==> exists i :: 0 <= i < |names| && Fires(input, p, names[i], class_, n)
    decreases |names|
  {
    if |names| > 0 {
      NamedIff(input, p, names[1..], class_, n);
      if p + |names[0]| <= |input| { RunIff(input, p + |names[0]|, n, class_); }
      if i :| 0 <= i < |names| && Fires(input, p, names[i], class_, n) && i > 0 {
        assert names[1..][i - 1] == names[i];
      }
      if Fires(input, p, names[0], class_, n) { assert 0 < |names|; }
    }
  }

  lemma FiresIff(input: seq<byte>, p: nat, w: string, class_: byte -> bool, n: nat)
    requires AllAscii(w)
    ensures Fires(input, p, Ascii(w), class_, n) <==> NamedAt(input, p, w, class_, n)
  {
    NameIff(input, p, w);
  }

  lemma PasswordFires(input: seq<byte>, p: nat)
    ensures PasswordAt(input, p)
      <==> (Fires(input, p, Ascii("password="), IsValue, 4) || Fires(input, p, Ascii("passwd="), IsValue, 4)
            || Fires(input, p, Ascii("secret="), IsValue, 4) || Fires(input, p, Ascii("token="), IsValue, 4)
            || Fires(input, p, Ascii("api_key="), IsValue, 4))
  {
    FiresIff(input, p, "password=", IsValue, 4);
    FiresIff(input, p, "passwd=", IsValue, 4);
    FiresIff(input, p, "secret=", IsValue, 4);
    FiresIff(input, p, "token=", IsValue, 4);
    FiresIff(input, p, "api_key=", IsValue, 4);
  }

  lemma PasswordIff(input: seq<byte>, p: nat)
    requires p <= |input|
    ensures KeyValueSecret(input, p) > 0 <==> PasswordAt(input, p)
  {
    NamedIff(input, p, KeyNames(), IsValue, 4);
    FiveNames(input, p, KeyNames(), IsValue, 4, Ascii("password="), Ascii("passwd="), Ascii("secret="),
              Ascii("token="), Ascii("api_key="));
    PasswordFires(input, p);
  }

  lemma FiveNames(input: seq<byte>, p: nat, names: seq<seq<byte>>, class_: byte -> bool, n: nat, a: seq<byte>,
                  b: seq<byte>, c: seq<byte>, d: seq<byte>, e: seq<byte>)
    requires names == [a, b, c, d, e]
    ensures (exists i :: 0 <= i < |names| && Fires(input, p, names[i], class_, n))
      <==> (Fires(input, p, a, class_, n) || Fires(input, p, b, class_, n) || Fires(input, p, c, class_, n)
            || Fires(input, p, d, class_, n) || Fires(input, p, e, class_, n))
  {
    assert names[0] == a && names[1] == b && names[2] == c && names[3] == d && names[4] == e;
  }

  lemma ConnectionIff(input: seq<byte>, p: nat)
    requires p <= |input|
    ensures ConnectionSecret(input, p) > 0 <==> ConnectionAt(input, p)
  {
    NamedIff(input, p, ConnectionNames(), IsConnectionValue, 1);
    FiresIff(input, p, "Password=", IsConnectionValue, 1);
    FiresIff(input, p, "AccountKey=", IsConnectionValue, 1);
    FiresIff(input, p, "SharedAccessKey=", IsConnectionValue, 1);
    ThreeNames(input, p, ConnectionNames(), IsConnectionValue, 1, Ascii("Password="), Ascii("AccountKey="),
               Ascii("SharedAccessKey="));
  }

  lemma ThreeNames(input: seq<byte>, p: nat, names: seq<seq<byte>>, class_: byte -> bool, n: nat, a: seq<byte>,
                   b: seq<byte>, c: seq<byte>)
    requires names == [a, b, c]
    ensures (exists i :: 0 <= i < |names| && Fires(input, p, names[i], class_, n))
      <==> (Fires(input, p, a, class_, n) || Fires(input, p, b, class_, n) || Fires(input, p, c, class_, n))
  {
    assert names[0] == a && names[1] == b && names[2] == c;
  }

  // ---------------------------------------------------------------- all nine

  ghost predicate JwtAt(input: seq<byte>, p: nat)
    requires p <= |input|
  {
    WordAt(input, p, "eyJ") && RunOf(input, p, 20, IsBase64Url) && Dots(input, p, RunEnd(input, p, IsBase64Url)) == 2
  }

  /** `n` characters of the base64 alphabet, the last of them one of its marks. */
  predicate MarkedRun(input: seq<byte>, p: nat, n: nat) {
    n > 0 && RunOf(input, p, n, IsBase64) && IsBase64Mark(input[p + n - 1])
  }

  /** Forty characters of the alphabet, with a mark somewhere in their run. */
  ghost predicate LongBase64At(input: seq<byte>, p: nat) {
    RunOf(input, p, 40, IsBase64) && exists n: nat :: MarkedRun(input, p, n)
  }

  ghost predicate SecretAt(input: seq<byte>, p: nat)
    requires p <= |input|
  {
    AwsKeyAt(input, p) || GithubTokenAt(input, p) || BearerTokenAt(input, p) || PemHeaderAt(input, p)
    || PasswordAt(input, p) || ConnectionAt(input, p) || JwtAt(input, p) || RunOf(input, p, 32, IsHex)
    || LongBase64At(input, p)
  }

  lemma JwtAtIff(input: seq<byte>, p: nat)
    requires p <= |input|
    ensures Jwt(input, p) > 0 <==> JwtAt(input, p)
  {
    JwtIff(input, p);
    WordIff(input, p, "eyJ");
    RunIff(input, p, 20, IsBase64Url);
  }

  lemma LongBase64Iff(input: seq<byte>, p: nat)
    requires p <= |input|
    ensures LongBase64(input, p) > 0 <==> LongBase64At(input, p)
  {
    RunIff(input, p, 40, IsBase64);
    var e := RunEnd(input, p, IsBase64);
    if k :| p <= k < e && IsBase64Mark(input[k]) {
      assert MarkedRun(input, p, k - p + 1);
    }
    if n: nat :| MarkedRun(input, p, n) {
      RunIff(input, p, n, IsBase64);
      assert p <= p + n - 1 < e;
    }
  }

  /** Something is replaced at a position if and only if a secret starts there. */
  lemma MatchIff(input: seq<byte>, p: nat)
    requires p <= |input|
    ensures Match(input, p) > 0 <==> SecretAt(input, p)
  {
    AwsKeyIff(input, p);
    GithubTokenIff(input, p);
    BearerTokenIff(input, p);
    PemHeaderIff(input, p);
    PasswordIff(input, p);
    ConnectionIff(input, p);
    JwtAtIff(input, p);
    RunIff(input, p, 32, IsHex);
    LongBase64Iff(input, p);
  }

  /** A byte is copied if and only if the pass gets to it and no secret starts at it. */
  ghost predicate Copied(input: seq<byte>, p: nat)
    requires Bounded(input, Matcher(input))
  {
    p < |input| && Visits(input, Matcher(input), 0, p) && Matcher(input)(p) == 0
  }

  /** No secret of any of the nine kinds starts at a copied byte, and one starts wherever a replacement is made. */
  lemma NoSecretCopied(input: seq<byte>, p: nat)
    requires Bounded(input, Matcher(input)) && p < |input| && Visits(input, Matcher(input), 0, p)
    ensures Copied(input, p) <==> !SecretAt(input, p)
  {
    assert Matcher(input)(p) == Match(input, p);
    MatchIff(input, p);
  }
}
