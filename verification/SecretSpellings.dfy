/** Which spellings of a name are secret: the case of letters and what stands between them do not matter. */
module SecretSpellings {
  import opened Ascii
  import opened SecretNames
  import Credential

  /** A character that is dropped: its lower case has neither a letter nor a digit. */
  predicate IsSeparator(c: char) {
    && !('a' <= c <= 'z') && !('A' <= c <= 'Z') && !('0' <= c <= '9')
    && c != '\U{212A}' && c != '\U{0130}'
  }

  /** `c` is the letter or digit `w`, in either case; the Kelvin sign and the dotted capital I have one of their own. */
  predicate IsLetter(c: char, w: char) {
    || (c == w && ('a' <= w <= 'z' || '0' <= w <= '9'))
    || ('A' <= c <= 'Z' && 'a' <= w <= 'z' && c - 'A' == w - 'a')
    || (c == '\U{212A}' && w == 'k')
    || (c == '\U{0130}' && w == 'i')
  }

  /** `name` is `word` in any mixture of cases, with separators anywhere. */
  ghost predicate Spells(name: string, word: string) {
    if name == "" then word == ""
    else
      || (IsSeparator(name[0]) && Spells(name[1..], word))
      || (word != "" && IsLetter(name[0], word[0]) && Spells(name[1..], word[1..]))
  }

  lemma NormalizedCharIs(c: char)
    ensures IsSeparator(c) <==> NormalizedChar(c) == ""
    ensures forall w :: IsLetter(c, w) <==> NormalizedChar(c) == [w]
    ensures |NormalizedChar(c)| <= 1
  {}

  lemma {:induction false} SpellsIsNormalized(name: string, word: string)
    ensures Spells(name, word) <==> Normalized(name) == word
  {
    if name != "" {
      var n, rest := NormalizedChar(name[0]), Normalized(name[1..]);
      NormalizedCharIs(name[0]);
      if n == "" {
        SpellsIsNormalized(name[1..], word);
        assert n + rest == rest;
      } else if word != "" {
        SpellsIsNormalized(name[1..], word[1..]);
        assert word == [word[0]] + word[1..] && n == [n[0]];
        assert n + rest == word <==> n[0] == word[0] && rest == word[1..];
      }
    }
  }

  ghost predicate SpellsOneOf(name: string, words: set<string>) {
    exists word :: word in words && Spells(name, word)
  }

  ghost predicate EndsInOneOf(name: string, words: seq<string>) {
    exists i, k :: 0 <= i <= |name| && 0 <= k < |words| && Spells(name[i..], words[k])
  }

  lemma OneOfSpelled(name: string, words: set<string>)
    ensures SpellsOneOf(name, words) <==> Normalized(name) in words
  {
    SpellsIsNormalized(name, Normalized(name));
    if word :| word in words && Spells(name, word) {
      SpellsIsNormalized(name, word);
    }
  }

  lemma OneEndingSpelled(name: string)
    ensures EndsInOneOf(name, SECRET_SUFFIXES) <==> HasSecretSuffix(Normalized(name))
  {
    if i, k :| 0 <= i <= |name| && 0 <= k < |SECRET_SUFFIXES| && Spells(name[i..], SECRET_SUFFIXES[k]) {
      EndingNormalized(name, i, SECRET_SUFFIXES[k]);
    }
    if HasSecretSuffix(Normalized(name)) {
      var k :| 0 <= k < |SECRET_SUFFIXES| && EndsWith(Normalized(name), SECRET_SUFFIXES[k]);
      var i := EndingSpelled(name, SECRET_SUFFIXES[k]);
      assert Spells(name[i..], SECRET_SUFFIXES[k]);
    }
  }

  lemma EndingNormalized(name: string, i: nat, word: string)
    requires i <= |name| && Spells(name[i..], word)
    ensures EndsWith(Normalized(name), word)
  {
    SpellsIsNormalized(name[i..], word);
    NormalizedOfSum(name[..i], name[i..]);
    assert name == name[..i] + name[i..];
    SuffixOfSum(Normalized(name[..i]), word, word);
  }

  /** A name is secret exactly when it spells a secret name, or ends in a spelling of a secret ending. */
  lemma SecretExactlyWhen(name: string)
    ensures IsSecretPropertyName(name) <==>
            SpellsOneOf(name, SECRET_NAMES) || EndsInOneOf(name, SECRET_SUFFIXES)
  {
    OneOfSpelled(name, SECRET_NAMES);
    OneEndingSpelled(name);
    EmptyIsNotSecret();
  }

  lemma EmptyIsNotSecret()
    ensures "" !in SECRET_NAMES && !HasSecretSuffix("")
  {
    forall k | 0 <= k < |SECRET_SUFFIXES|
      ensures SECRET_SUFFIXES[k] != ""
    {
      NoSuffixStartsWithX(k);
    }
    if "" in SECRET_NAMES {
      NoNameStartsWithX("");
    }
  }

  lemma {:induction false} EndingSpelled(name: string, suffix: string) returns (i: nat)
    requires EndsWith(Normalized(name), suffix)
    ensures i <= |name| && Spells(name[i..], suffix)
  {
    if |Normalized(name)| == |suffix| {
      i := 0;
      assert name[0..] == name;
      SpellsIsNormalized(name, suffix);
    } else {
      var n, rest := NormalizedChar(name[0]), Normalized(name[1..]);
      NormalizedCharIs(name[0]);
      SuffixOfSum(n, rest, suffix);
      i := EndingSpelled(name[1..], suffix);
      assert name[1..][i..] == name[i + 1..];
      i := i + 1;
    }
  }

  /** Whatever comes before it, a spelling of a secret ending is secret. */
  lemma SpelledEndingIsSecret(before: string, name: string, k: nat)
    requires k < |SECRET_SUFFIXES| && Spells(name, SECRET_SUFFIXES[k])
    ensures IsSecretPropertyName(before + name)
  {
    SpellsIsNormalized(name, SECRET_SUFFIXES[k]);
    assert EndsWith(Normalized(name), SECRET_SUFFIXES[k]);
    SuffixSurvivesPrefix(before, name);
  }

  lemma {:induction false} NormalizedLower(name: string)
    ensures Normalized(Lower(name)) == Normalized(name)
  {
    if name != "" {
      NormalizedLower(name[1..]);
      assert Lower(name)[1..] == Lower(name[1..]);
      assert NormalizedChar(LowerChar(name[0])) == NormalizedChar(name[0]);
    }
  }

  /** Case does not matter. */
  lemma SecretInAnyCase(a: string, b: string)
    requires Lower(a) == Lower(b)
    ensures IsSecretPropertyName(a) <==> IsSecretPropertyName(b)
  {
    NormalizedLower(a);
    NormalizedLower(b);
  }

  /** Neither does a character that is no letter or digit, wherever it is put in. */
  lemma SecretWithSeparator(a: string, c: char, b: string)
    requires IsSeparator(c)
    ensures IsSecretPropertyName(a + [c] + b) <==> IsSecretPropertyName(a + b)
  {
    NormalizedOfSum(a + [c], b);
    NormalizedOfSum(a, [c]);
    NormalizedOfSum(a, b);
    assert [c][1..] == "" && Normalized([c]) == NormalizedChar(c) + Normalized("");
    assert Normalized(a) + "" == Normalized(a);
  }

  lemma EndsSecret(before: string, ending: string, k: nat)
    requires k < |SECRET_SUFFIXES| && Lower(ending) == SECRET_SUFFIXES[k]
    ensures IsSecretPropertyName(before + ending)
  {
    NormalizedStays(SECRET_SUFFIXES[k]);
    NormalizedLower(ending);
    assert EndsWith(Normalized(ending), SECRET_SUFFIXES[k]);
    SuffixSurvivesPrefix(before, ending);
  }

  lemma IsSecretName(name: string, word: string)
    requires word in SECRET_NAMES && Lower(name) == word && word != ""
    requires forall i :: 0 <= i < |word| ==> 'a' <= word[i] <= 'z'
    ensures IsSecretPropertyName(name)
  {
    NormalizedLower(name);
    NormalizedStays(word);
  }

  lemma EndsSecretAt(name: string, i: nat, k: nat)
    requires i <= |name| && k < |SECRET_SUFFIXES| && Lower(name[i..]) == SECRET_SUFFIXES[k]
    ensures IsSecretPropertyName(name)
  {
    EndsSecret(name[..i], name[i..], k);
    assert name == name[..i] + name[i..];
  }

  /** The spellings the list was written for. */
  lemma UsualSpellings(name: string)
    requires name in ["clientSecret", "apiKey", "bot_token", "x-api-key"]
    ensures IsSecretPropertyName(name)
  {
    if name == "x-api-key" {
      SeparatedKey();
    } else if name == "clientSecret" {
      EndsSecretAt(name, 6, 0);
    } else if name == "apiKey" {
      EndsSecretAt(name, 0, 4);
    } else {
      EndsSecretAt(name, 4, 11);
    }
  }

  lemma SeparatedKey()
    ensures IsSecretPropertyName("x-api-key")
  {
    EndsSecret("x-", "apikey", 4);
    SecretWithSeparator("x-api", '-', "key");
    assert "x-api" + ['-'] + "key" == "x-api-key" && "x-api" + "key" == "x-" + "apikey";
  }

  /** No plural is secret, so the counters stay. */
  lemma PluralIsNotSecret(name: string, s: char)
    requires s in "sS"
    ensures !IsSecretPropertyName(name + [s])
  {
    var n := Normalized(name);
    NormalizedOfSum(name, [s]);
    assert [s][1..] == "" && Normalized([s]) == NormalizedChar(s) + Normalized("") == "s";
    forall k | 0 <= k < |SECRET_SUFFIXES|
      ensures !EndsWith(n + "s", SECRET_SUFFIXES[k])
    {
      NoSuffixEndsWithS(k);
    }
    if n + "s" in SECRET_NAMES {
      NoNameEndsWithS(n + "s");
    }
  }

  lemma NoSuffixEndsWithS(k: nat)
    requires k < |SECRET_SUFFIXES|
    ensures SECRET_SUFFIXES[k] != "" && SECRET_SUFFIXES[k][|SECRET_SUFFIXES[k]| - 1] != 's'
  {}

  lemma NoNameEndsWithS(word: string)
    requires word in SECRET_NAMES
    ensures word != "" && word[|word| - 1] != 's'
  {}

  lemma CountersAreNotSecret(name: string)
    requires name in ["maxTokens", "tokensPerMinute"]
    ensures !IsSecretPropertyName(name)
  {
    if name == "maxTokens" {
      PluralIsNotSecret("maxToken", 's');
      assert "maxToken" + ['s'] == name;
    } else {
      assert Lower(name) == "tokensperminute";
      PerMinuteIsNotSecret(Lower(name));
      LowerIsNotSecret(name);
    }
  }

  lemma LowerIsNotSecret(name: string)
    requires Lower(name) !in SECRET_NAMES && !HasSecretSuffix(Lower(name))
    requires forall i :: 0 <= i < |Lower(name)| ==> 'a' <= Lower(name)[i] <= 'z'
    ensures !IsSecretPropertyName(name)
  {
    NormalizedLower(name);
    NormalizedStays(Lower(name));
  }

  lemma PerMinuteIsNotSecret(word: string)
    requires word == "tokensperminute"
    ensures word !in SECRET_NAMES && !HasSecretSuffix(word)
  {
    forall k | 0 <= k < |SECRET_SUFFIXES|
      ensures !EndsWith(word, SECRET_SUFFIXES[k])
    {
      NoSuffixEndsWithTe(k);
    }
  }

  lemma NoSuffixEndsWithTe(k: nat)
    requires k < |SECRET_SUFFIXES|
    ensures var s := SECRET_SUFFIXES[k]; |s| >= 2 && s[|s| - 2..] != "te"
  {}

  // ---- the secrets of a credential ----

  lemma TokenFields(f: string)
    requires f in ["token", "accessToken", "refreshToken", "sessionToken"]
    ensures IsSecretPropertyName(f)
  {
    EndsSecretAt(f, |f| - 5, 11);
  }

  lemma SecretFields(f: string)
    requires f in ["secret", "client_secret", "clientSecret", "tokenSecret"]
    ensures IsSecretPropertyName(f)
  {
    EndsSecretAt(f, |f| - 6, 0);
  }

  lemma PasswordFields(f: string)
    requires f in ["password", "certificatePassword"]
    ensures IsSecretPropertyName(f)
  {
    EndsSecretAt(f, |f| - 8, 1);
  }

  lemma KeyFields(f: string)
    requires f in ["apiKey", "privateKey", "secretAccessKey", "accessKeyId"]
    ensures IsSecretPropertyName(f)
  {
    if f == "apiKey" {
      EndsSecretAt(f, 0, 4);
    } else if f == "privateKey" {
      EndsSecretAt(f, 0, 8);
    } else if f == "secretAccessKey" {
      EndsSecretAt(f, 6, 5);
    } else {
      EndsSecretAt(f, 0, 6);
    }
  }

  lemma LowerFields(f: string)
    requires f in ["key", "bearer", "certificate"]
    ensures IsSecretPropertyName(f)
  {
    IsSecretName(f, f);
  }

  lemma CamelFields(f: string)
    requires f in ["tokenId", "headerValue", "serviceAccountJson"]
    ensures IsSecretPropertyName(f)
  {
    if f == "tokenId" {
      IsSecretName(f, "tokenid");
    } else if f == "headerValue" {
      IsSecretName(f, "headervalue");
    } else {
      IsSecretName(f, "serviceaccountjson");
    }
  }

  lemma SensitiveFieldEnds(f: string)
    requires f in Credential.SENSITIVE_FIELDS
    ensures || f in ["token", "accessToken", "refreshToken", "sessionToken"]
            || f in ["secret", "client_secret", "clientSecret", "tokenSecret"]
            || f in ["password", "certificatePassword"]
            || f in ["apiKey", "privateKey", "secretAccessKey", "accessKeyId"]
            || f in ["key", "bearer", "certificate"]
            || f in ["tokenId", "headerValue", "serviceAccountJson"]
  {}

  /** Whatever a credential encrypts, a snapshot drops by its name. */
  lemma SensitiveFieldsAreSecret(f: string)
    requires f in Credential.SENSITIVE_FIELDS
    ensures IsSecretPropertyName(f)
  {
    SensitiveFieldEnds(f);
    if f in ["token", "accessToken", "refreshToken", "sessionToken"] {
      TokenFields(f);
    } else if f in ["secret", "client_secret", "clientSecret", "tokenSecret"] {
      SecretFields(f);
    } else if f in ["password", "certificatePassword"] {
      PasswordFields(f);
    } else if f in ["apiKey", "privateKey", "secretAccessKey", "accessKeyId"] {
      KeyFields(f);
    } else if f in ["key", "bearer", "certificate"] {
      LowerFields(f);
    } else {
      CamelFields(f);
    }
  }
}
