/** `isSecretPropertyName`: which property names hold a secret. */
module SecretNames {

  const SECRET_NAMES: set<string> := {
    "token", "key", "bearer", "certificate", "headervalue", "serviceaccountjson", "tokenid", "authorization",
    "proxyauthorization", "cookie", "setcookie"
  }

  const SECRET_SUFFIXES: seq<string> := [
    "secret", "password", "passwd", "passphrase", "apikey", "accesskey", "accesskeyid", "secretkey", "privatekey",
    "signingkey", "encryptionkey", "token"
  ]

  /**
   * What `toLowerCase().replace(/[^a-z0-9]/g, '')` leaves of a character. Two
   * characters outside ASCII have an ASCII letter in their lower case.
   */
  function NormalizedChar(c: char): string {
    if 'a' <= c <= 'z' || '0' <= c <= '9' then [c]
    else if 'A' <= c <= 'Z' then [c - 'A' + 'a']
    else if c == '\U{212A}' then "k"
    else if c == '\U{0130}' then "i"
    else ""
  }

  function Normalized(name: string): string {
    if name == "" then "" else NormalizedChar(name[0]) + Normalized(name[1..])
  }

  predicate EndsWith(s: string, suffix: string) {
    |suffix| <= |s| && s[|s| - |suffix|..] == suffix
  }

  predicate HasSecretSuffix(normalized: string) {
    exists i :: 0 <= i < |SECRET_SUFFIXES| && EndsWith(normalized, SECRET_SUFFIXES[i])
  }

  predicate IsSecretPropertyName(name: string) {
    var normalized := Normalized(name);
    normalized != "" && (normalized in SECRET_NAMES || HasSecretSuffix(normalized))
  }

  // ---- which names are secret ----

  lemma {:induction false} NormalizedOfSum(a: string, b: string)
    ensures Normalized(a + b) == Normalized(a) + Normalized(b)
  {
    if a == "" {
      assert a + b == b;
    } else {
      assert (a + b)[1..] == a[1..] + b;
      NormalizedOfSum(a[1..], b);
    }
  }

  lemma {:induction false} NormalizedTwice(name: string)
    ensures Normalized(Normalized(name)) == Normalized(name)
  {
    if name != "" {
      NormalizedOfSum(NormalizedChar(name[0]), Normalized(name[1..]));
      NormalizedTwice(name[1..]);
      NormalizedCharStays(name[0]);
    }
  }

  lemma NormalizedCharStays(c: char)
    ensures Normalized(NormalizedChar(c)) == NormalizedChar(c)
  {
    var s := NormalizedChar(c);
    if s != "" {
      assert s[1..] == "";
      assert Normalized(s) == NormalizedChar(s[0]) + Normalized("");
    }
  }

  lemma {:induction false} NormalizedStays(name: string)
    requires forall i :: 0 <= i < |name| ==> 'a' <= name[i] <= 'z' || '0' <= name[i] <= '9'
    ensures Normalized(name) == name
  {
    if name != "" {
      NormalizedStays(name[1..]);
      assert name == [name[0]] + name[1..];
    }
  }

  lemma OneSecretOneNot()
    ensures IsSecretPropertyName("password") && !IsSecretPropertyName("a")
  {
    NormalizedStays("password");
    NormalizedStays("a");
    assert EndsWith("password", SECRET_SUFFIXES[1]);
    assert forall i :: 0 <= i < |SECRET_SUFFIXES| ==> |SECRET_SUFFIXES[i]| > 1;
  }

  /** Whether a name is secret depends on its normalized form alone. */
  lemma SecretByNormalForm(a: string, b: string)
    requires Normalized(a) == Normalized(b)
    ensures IsSecretPropertyName(a) <==> IsSecretPropertyName(b)
    ensures IsSecretPropertyName(a) <==> IsSecretPropertyName(Normalized(a))
  {
    NormalizedTwice(a);
  }

  lemma SuffixOfSum(a: string, b: string, suffix: string)
    ensures EndsWith(b, suffix) ==> EndsWith(a + b, suffix)
    ensures EndsWith(a + b, suffix) && |suffix| <= |b| ==> EndsWith(b, suffix)
  {
    if |suffix| <= |b| {
      assert (a + b)[|a + b| - |suffix|..] == b[|b| - |suffix|..];
    }
  }

  lemma NoSuffixStartsWithX(i: nat)
    requires i < |SECRET_SUFFIXES|
    ensures SECRET_SUFFIXES[i] != "" && SECRET_SUFFIXES[i][0] != 'x'
  {}

  lemma NoNameStartsWithX(s: string)
    requires s in SECRET_NAMES
    ensures s != "" && s[0] != 'x'
  {}

  lemma SuffixSurvivesPrefix(prefix: string, name: string)
    requires HasSecretSuffix(Normalized(name))
    ensures IsSecretPropertyName(prefix + name)
  {
    var i :| 0 <= i < |SECRET_SUFFIXES| && EndsWith(Normalized(name), SECRET_SUFFIXES[i]);
    NormalizedOfSum(prefix, name);
    SuffixOfSum(Normalized(prefix), Normalized(name), SECRET_SUFFIXES[i]);
    NoSuffixStartsWithX(i);
  }

  lemma XPrefixHidesOthers(name: string)
    requires !HasSecretSuffix(Normalized(name))
    ensures !IsSecretPropertyName("x" + name)
  {
    var n := Normalized(name);
    var longer := "x" + n;
    NormalizedOfSum("x", name);
    assert Normalized("x") == "x" by {
      assert "x"[1..] == "";
      assert Normalized("") == "";
    }
    if longer in SECRET_NAMES {
      NoNameStartsWithX(longer);
    }
    forall i | 0 <= i < |SECRET_SUFFIXES|
      ensures !EndsWith(longer, SECRET_SUFFIXES[i])
    {
      NoSuffixStartsWithX(i);
      SuffixOfSum("x", n, SECRET_SUFFIXES[i]);
      assert longer[0..] == longer;
    }
  }

  /** A name stays secret under every prefix exactly when it is secret by its ending. */
  lemma SecretUnderPrefixes(name: string)
    ensures (forall prefix: string :: IsSecretPropertyName(prefix + name)) <==> HasSecretSuffix(Normalized(name))
  {
    if HasSecretSuffix(Normalized(name)) {
      forall prefix: string {
        SuffixSurvivesPrefix(prefix, name);
      }
    } else {
      XPrefixHidesOthers(name);
    }
  }
}
