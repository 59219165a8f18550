/** Which keys and texts name a concrete model: case and the spaces around a text do not matter. */
module ModelNames {
  import opened Ascii
  import opened JsonValues
  import opened StrategyModels

  const CAPITALS := "ABCDEFGHIJKLMNOPQRSTUVWXYZ"
  const SMALL := "abcdefghijklmnopqrstuvwxyz"

  /** The same letter in either case, or the same character. */
  predicate SameLetter(c: char, d: char) {
    c == d || exists i :: 0 <= i < 26 && ((c == CAPITALS[i] && d == SMALL[i]) || (c == SMALL[i] && d == CAPITALS[i]))
  }

  predicate SameLetters(a: string, b: string) {
    |a| == |b| && forall i :: 0 <= i < |a| ==> SameLetter(a[i], b[i])
  }

  lemma CapitalIs(i: nat)
    requires i < 26
    ensures CAPITALS[i] == 'A' + i as char
  {}

  lemma SmallIs(i: nat)
    requires i < 26
    ensures SMALL[i] == 'a' + i as char
  {}

  lemma SameThenLower(c: char, d: char, i: nat)
    requires i < 26 && c == CAPITALS[i] && d == SMALL[i]
    ensures LowerChar(c) == LowerChar(d)
  {
    CapitalIs(i);
    SmallIs(i);
  }

  lemma LowerThenSame(c: char, d: char)
    requires 'A' <= c <= 'Z' && d == LowerChar(c)
    ensures SameLetter(c, d) && SameLetter(d, c)
  {
    var i := (c - 'A') as int;
    CapitalIs(i);
    SmallIs(i);
    assert c == CAPITALS[i] && d == SMALL[i];
  }

  /** Lower case tells the same letters alike, and no others. */
  lemma LowerCharIs(c: char, d: char)
    ensures SameLetter(c, d) <==> LowerChar(c) == LowerChar(d)
  {
    if SameLetter(c, d) && c != d {
      var i: nat :| i < 26 && ((c == CAPITALS[i] && d == SMALL[i]) || (c == SMALL[i] && d == CAPITALS[i]));
      if c == CAPITALS[i] {
        SameThenLower(c, d, i);
      } else {
        SameThenLower(d, c, i);
      }
    }
    if LowerChar(c) == LowerChar(d) && c != d {
      if 'A' <= c <= 'Z' {
        LowerThenSame(c, d);
      } else {
        LowerThenSame(d, c);
      }
    }
  }

  lemma LowerIs(a: string, b: string)
    ensures SameLetters(a, b) <==> Lower(a) == Lower(b)
  {
    if |a| == |b| {
      forall i | 0 <= i < |a|
        ensures SameLetter(a[i], b[i]) <==> Lower(a)[i] == Lower(b)[i]
      {
        LowerCharIs(a[i], b[i]);
      }
      if Lower(a) == Lower(b) {
        forall i | 0 <= i < |a|
          ensures SameLetter(a[i], b[i])
        {
          assert Lower(a)[i] == Lower(b)[i];
        }
      }
    } else {
      assert |Lower(a)| != |Lower(b)|;
    }
  }

  /** A key names a model in any case. */
  lemma ModelKeyInAnyCase(a: string, b: string)
    requires SameLetters(a, b)
    ensures IsModelKey(a) <==> IsModelKey(b)
  {
    LowerIs(a, b);
  }

  lemma SmallStays(s: string)
    requires forall i :: 0 <= i < |s| ==> 'a' <= s[i] <= 'z'
    ensures Lower(s) == s
  {}

  lemma ModelKeys(key: string)
    requires key in ["model", "modelid", "modelname", "vendormodelid", "providerid", "provider", "pinnedmodel",
                     "deployment"]
    ensures IsModelKey(key)
  {
    SmallStays(key);
  }

  lemma FamilyIsModelShaped(k: nat)
    requires k < |MODEL_FAMILIES|
    ensures IsModelShaped(MODEL_FAMILIES[k])
  {
    var name := MODEL_FAMILIES[k];
    FamilySmall(k);
    assert name[..|name|] == name && IsOfFamily(name, MODEL_FAMILIES[k]);
  }

  /** The names of the families are model-shaped themselves. */
  lemma ModelFamilies(name: string)
    requires name in ["gpt", "claude", "gemini", "llama", "qwen", "mistral", "deepseek", "kimi", "glm", "palmyra",
                      "solar", "grok", "command", "phi", "nemotron", "jamba", "minimax", "doubao", "ernie",
                      "hunyuan", "spark"]
    ensures IsModelShaped(name)
  {
    var k :| 0 <= k < |MODEL_FAMILIES| && MODEL_FAMILIES[k] == name;
    FamilyIsModelShaped(k);
  }

  /** So does a text. */
  lemma ModelShapedInAnyCase(a: string, b: string)
    requires SameLetters(a, b)
    ensures IsModelShaped(a) <==> IsModelShaped(b)
  {
    LowerIs(a, b);
    if IsModelShaped(a) {
      ShapedLikewise(a, b);
    }
    if IsModelShaped(b) {
      ShapedLikewise(b, a);
    }
  }

  lemma ShapedLikewise(a: string, b: string)
    requires Lower(a) == Lower(b) && IsModelShaped(a)
    ensures IsModelShaped(b)
  {
    var k :| 0 <= k < |MODEL_FAMILIES| && IsOfFamily(a, MODEL_FAMILIES[k]);
    FamilyInAnyCase(a, b, MODEL_FAMILIES[k]);
  }

  lemma FamilyInAnyCase(a: string, b: string, family: string)
    requires Lower(a) == Lower(b) && IsOfFamily(a, family)
    ensures IsOfFamily(b, family)
  {
    var n := |family|;
    assert |Lower(a)| == |a| && |Lower(b)| == |b|;
    assert Lower(a[..n]) == Lower(a)[..n] && Lower(b[..n]) == Lower(b)[..n];
    forall i | n <= i < |b|
      ensures IsModelChar(b[i])
    {
      assert Lower(a)[i] == Lower(b)[i];
    }
  }

  /** A text looks like a model exactly when it is a family's name and then letters, digits and `-`, `.`, `_`. */
  lemma ModelShapedExactlyWhen(s: string)
    ensures IsModelShaped(s) <==>
            exists name, rest :: s == name + rest && IsFamilyName(name) && forall c :: c in rest ==> IsModelChar(c)
  {
    if IsModelShaped(s) {
      var k :| 0 <= k < |MODEL_FAMILIES| && IsOfFamily(s, MODEL_FAMILIES[k]);
      FamilySplits(s, k);
    }
    if name, rest :| s == name + rest && IsFamilyName(name) && forall c :: c in rest ==> IsModelChar(c) {
      var k :| 0 <= k < |MODEL_FAMILIES| && SameLetters(name, MODEL_FAMILIES[k]);
      FamilyJoins(name, rest, k);
    }
  }

  lemma FamilySplits(s: string, k: nat)
    requires k < |MODEL_FAMILIES| && IsOfFamily(s, MODEL_FAMILIES[k])
    ensures exists name, rest :: s == name + rest && IsFamilyName(name) && forall c :: c in rest ==> IsModelChar(c)
  {
    var name, rest := s[..|MODEL_FAMILIES[k]|], s[|MODEL_FAMILIES[k]|..];
    FamilySmall(k);
    LowerIs(name, MODEL_FAMILIES[k]);
    assert s == name + rest && IsFamilyName(name);
  }

  lemma FamilyJoins(name: string, rest: string, k: nat)
    requires k < |MODEL_FAMILIES| && SameLetters(name, MODEL_FAMILIES[k])
    requires forall c :: c in rest ==> IsModelChar(c)
    ensures IsOfFamily(name + rest, MODEL_FAMILIES[k])
  {
    var s := name + rest;
    FamilySmall(k);
    LowerIs(name, MODEL_FAMILIES[k]);
    assert s[..|name|] == name;
    assert forall i :: |name| <= i < |s| ==> s[i] == rest[i - |name|];
  }

  ghost predicate IsFamilyName(name: string) {
    exists k :: 0 <= k < |MODEL_FAMILIES| && SameLetters(name, MODEL_FAMILIES[k])
  }

  lemma FamilySmall(k: nat)
    requires k < |MODEL_FAMILIES|
    ensures Lower(MODEL_FAMILIES[k]) == MODEL_FAMILIES[k]
  {
    SmallStays(MODEL_FAMILIES[k]);
  }

  lemma ModelChars(c: char)
    ensures IsModelChar(c) <==> c in "-._" || c in "0123456789" || c in CAPITALS || c in SMALL
  {
    CapitalsAre(c);
    SmallAre(c);
  }

  lemma CapitalsAre(c: char)
    ensures c in CAPITALS <==> 'A' <= c <= 'Z'
  {
    if i :| 0 <= i < 26 && CAPITALS[i] == c {
      CapitalIs(i);
    }
    if 'A' <= c <= 'Z' {
      CapitalIs((c - 'A') as int);
    }
  }

  lemma SmallAre(c: char)
    ensures c in SMALL <==> 'a' <= c <= 'z'
  {
    if i :| 0 <= i < 26 && SMALL[i] == c {
      SmallIs(i);
    }
    if 'a' <= c <= 'z' {
      SmallIs((c - 'a') as int);
    }
  }

  // ---- spaces around a text ----

  /** The white space and line ends of ECMA-262. */
  lemma SpacesAre(c: char)
    ensures IsSpace(c) <==> c in "\U{0009}\U{000A}\U{000B}\U{000C}\U{000D}\U{0020}\U{00A0}\U{1680}\U{2000}\U{2001}"
                            + "\U{2002}\U{2003}\U{2004}\U{2005}\U{2006}\U{2007}\U{2008}\U{2009}\U{200A}\U{2028}"
                            + "\U{2029}\U{202F}\U{205F}\U{3000}\U{FEFF}"
  {}

  predicate IsBlank(s: string) {
    forall c :: c in s ==> IsSpace(c)
  }

  /** Trimming takes spaces off both ends, and nothing else. */
  lemma {:induction false} TrimTakesOff(s: string) returns (before: string, after: string)
    ensures s == before + Trim(s) + after && IsBlank(before) && IsBlank(after)
    decreases |s|
  {
    before, after := "", "";
    if s != "" && IsSpace(s[0]) {
      var rest := s[1..];
      before, after := TrimTakesOff(rest);
      InFront(s[0], before, Trim(rest), after);
      assert s == [s[0]] + rest;
      before := [s[0]] + before;
    } else if s != "" && IsSpace(s[|s| - 1]) {
      var rest, last := s[..|s| - 1], s[|s| - 1];
      before, after := TrimTakesOff(rest);
      Behind(before, Trim(rest), after, last);
      assert s == rest + [last];
      after := after + [last];
    }
  }

  lemma {:induction false} TrimmedEnds(s: string)
    ensures Trim(s) != "" ==> !IsSpace(Trim(s)[0]) && !IsSpace(Trim(s)[|Trim(s)| - 1])
    decreases |s|
  {
    if s != "" && IsSpace(s[0]) {
      TrimmedEnds(s[1..]);
    } else if s != "" && IsSpace(s[|s| - 1]) {
      TrimmedEnds(s[..|s| - 1]);
    }
  }

  lemma InFront(c: char, before: string, s: string, after: string)
    requires IsSpace(c) && IsBlank(before)
    ensures [c] + (before + s + after) == [c] + before + s + after && IsBlank([c] + before)
  {}

  lemma Behind(before: string, s: string, after: string, c: char)
    requires IsSpace(c) && IsBlank(after)
    ensures before + s + after + [c] == before + s + (after + [c]) && IsBlank(after + [c])
  {}

  lemma {:induction false} TrimAfter(before: string, s: string)
    requires IsBlank(before)
    ensures Trim(before + s) == Trim(s)
  {
    if before == "" {
      assert before + s == s;
    } else {
      assert before[0] in before && forall c :: c in before[1..] ==> c in before;
      TrimAfter(before[1..], s);
      assert (before + s)[1..] == before[1..] + s;
    }
  }

  lemma {:induction false} TrimBefore(s: string, after: string)
    requires IsBlank(after)
    ensures Trim(s + after) == Trim(s)
    decreases |s| + |after|
  {
    if after == "" {
      assert s + after == s;
    } else if s == "" {
      assert s + after == after + "";
      TrimAfter(after, "");
    } else if IsSpace(s[0]) {
      TrimBefore(s[1..], after);
      assert (s + after)[1..] == s[1..] + after;
    } else {
      var k := |after| - 1;
      assert after[k] in after && forall c :: c in after[..k] ==> c in after;
      TrimBefore(s, after[..k]);
      assert (s + after)[0] == s[0] && (s + after)[..|s + after| - 1] == s + after[..k];
    }
  }

  /** Spaces around a text of the shape hide no model. */
  lemma PaddingHidesNothing(before: string, s: string, after: string, place: Place)
    requires IsBlank(before) && IsBlank(after)
    ensures Violations(Str(before + s + after), place) == [] <==> Violations(Str(s), place) == []
  {
    TrimBefore(before + s, after);
    TrimAfter(before, s);
  }

  /** For one: ` GPT-4o` is found, a role is not. */
  lemma ModelAndRole(place: Place)
    ensures Violations(Str(" GPT-4o\n"), place) == [LooksLikeModel(place, " GPT-4o\n")]
    ensures Violations(Str("reviewer"), place) == []
  {
    GptIsFound();
    NoFamilyOfR("reviewer");
  }

  lemma GptIsFound()
    ensures IsModelShaped(Trim(" GPT-4o\n"))
  {
    var s := "GPT-4o";
    TrimBefore(" " + s, "\n");
    TrimAfter(" ", s);
    assert " " + s + "\n" == " GPT-4o\n";
    assert Trim(s) == s;
    assert Lower(s[..3]) == "gpt" == MODEL_FAMILIES[0] && IsOfFamily(s, MODEL_FAMILIES[0]);
  }

  lemma NoFamilyOfR(s: string)
    requires s == "reviewer"
    ensures !IsModelShaped(s) && Trim(s) == s
  {
    forall k | 0 <= k < |MODEL_FAMILIES|
      ensures !IsOfFamily(s, MODEL_FAMILIES[k])
    {
      FirstLetter(k);
      if |MODEL_FAMILIES[k]| <= |s| {
        assert Lower(s[..|MODEL_FAMILIES[k]|])[0] == 'r';
      }
    }
  }

  lemma FirstLetter(k: nat)
    requires k < |MODEL_FAMILIES|
    ensures MODEL_FAMILIES[k] != "" && MODEL_FAMILIES[k][0] != 'r'
  {}
}
