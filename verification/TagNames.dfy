/** Which tag names a prune keeps, as they are written. */
module TagNames {
  import opened TagRetention

  predicate IsNumberText(s: string) {
    s != "" && forall c :: c in s ==> c in "0123456789"
  }

  predicate IsCommit(s: string) {
    7 <= |s| <= 40 && forall c :: c in s ==> c in "0123456789abcdef"
  }

  /** One to three numbers joined by dots. */
  ghost predicate IsRelease(name: string) {
    IsNumberText(name) || IsTwoNumbers(name) || IsThreeNumbers(name)
  }

  ghost predicate IsTwoNumbers(name: string) {
    exists a, b :: IsNumberText(a) && IsNumberText(b) && name == a + "." + b
  }

  ghost predicate IsThreeNumbers(name: string) {
    exists a, b, c :: IsNumberText(a) && IsNumberText(b) && IsNumberText(c) && name == a + "." + b + "." + c
  }

  lemma NumberTextIsDigits(s: string)
    ensures IsNumberText(s) <==> IsDigits(s)
  {
    if IsNumberText(s) {
      forall i | 0 <= i < |s|
        ensures '0' <= s[i] <= '9'
      {
        assert s[i] in s;
      }
    }
  }

  lemma {:induction false} FirstDotIs(s: string)
    ensures forall k :: 0 <= k < FirstDot(s) ==> s[k] != '.'
    ensures FirstDot(s) < |s| ==> s[FirstDot(s)] == '.'
  {
    if s != "" && s[0] != '.' {
      FirstDotIs(s[1..]);
      forall k | 0 <= k < FirstDot(s)
        ensures s[k] != '.'
      {
        assert k > 0 ==> s[k] == s[1..][k - 1];
      }
    }
  }

  lemma {:induction false} FirstDotAt(a: string, rest: string)
    requires forall c :: c in a ==> c != '.'
    ensures FirstDot(a + "." + rest) == |a| && FirstDot(a) == |a|
  {
    if a != "" {
      assert a[0] in a && forall c :: c in a[1..] ==> c in a;
      FirstDotAt(a[1..], rest);
      assert (a + "." + rest)[1..] == a[1..] + "." + rest;
    } else {
      assert (a + "." + rest)[0] == '.';
    }
  }

  lemma NumberTextDotted(s: string, n: nat)
    requires IsNumberText(s) && n > 0
    ensures IsDotted(s, n)
  {
    FirstDotAt(s, "");
    NumberTextIsDigits(s);
    assert s[..|s|] == s;
  }

  lemma JoinedDotted(a: string, rest: string, n: nat)
    requires IsNumberText(a)
    ensures IsDotted(a + "." + rest, n + 1) <==> IsDotted(rest, n)
  {
    var s := a + "." + rest;
    FirstDotAt(a, rest);
    NumberTextIsDigits(a);
    assert s[..|a|] == a && s[|a| + 1..] == rest;
  }

  lemma DottedSplits(s: string, n: nat) returns (a: string, rest: string)
    requires IsDotted(s, n + 1)
    ensures IsNumberText(a)
    ensures s == a || (s == a + "." + rest && IsDotted(rest, n))
  {
    var i := FirstDot(s);
    FirstDotIs(s);
    a := s[..i];
    NumberTextIsDigits(a);
    if i < |s| {
      rest := s[i + 1..];
      assert s == s[..i] + [s[i]] + s[i + 1..];
    } else {
      rest := "";
    }
  }

  lemma DottedOnce(s: string)
    ensures IsDotted(s, 1) <==> IsNumberText(s)
  {
    if IsNumberText(s) {
      NumberTextDotted(s, 1);
    }
    if IsDotted(s, 1) {
      var a, rest := DottedSplits(s, 0);
    }
  }

  lemma DottedTwice(s: string)
    ensures IsDotted(s, 2) <==> IsNumberText(s) || IsTwoNumbers(s)
  {
    if IsNumberText(s) {
      NumberTextDotted(s, 2);
    }
    if a, b :| IsNumberText(a) && IsNumberText(b) && s == a + "." + b {
      DottedOnce(b);
      JoinedDotted(a, b, 1);
    }
    if IsDotted(s, 2) {
      var a, rest := DottedSplits(s, 1);
      DottedOnce(rest);
    }
  }

  lemma ThreeNumbersDotted(a: string, b: string, c: string)
    requires IsNumberText(a) && IsNumberText(b) && IsNumberText(c)
    ensures IsDotted(a + "." + b + "." + c, 3)
  {
    DottedOnce(c);
    JoinedDotted(b, c, 1);
    JoinedDotted(a, b + "." + c, 2);
    assert a + "." + (b + "." + c) == a + "." + b + "." + c;
  }

  /** The names taken for releases are one to three numbers joined by dots, and nothing else. */
  lemma SemverExactlyWhen(name: string)
    ensures IsSemver(name) <==> IsRelease(name)
  {
    DottedTwice(name);
    if a, b, c :| IsNumberText(a) && IsNumberText(b) && IsNumberText(c) && name == a + "." + b + "." + c {
      ThreeNumbersDotted(a, b, c);
    }
    if IsNumberText(name) {
      NumberTextDotted(name, 3);
    }
    if IsTwoNumbers(name) {
      var a, b :| IsNumberText(a) && IsNumberText(b) && name == a + "." + b;
      NumberTextDotted(b, 2);
      JoinedDotted(a, b, 2);
    }
    if IsDotted(name, 3) {
      ThreeOrFewer(name);
    }
  }

  lemma ThreeOrFewer(name: string)
    requires IsDotted(name, 3)
    ensures IsRelease(name)
  {
    var a, rest := DottedSplits(name, 2);
    if name != a {
      DottedTwice(rest);
      if !IsNumberText(rest) {
        var b, c :| IsNumberText(b) && IsNumberText(c) && rest == b + "." + c;
        assert a + "." + (b + "." + c) == a + "." + b + "." + c;
      }
    }
  }

  /** A release tag is kept whenever it is listed, however many numbers it has. */
  lemma ReleasesAreKept(tags: seq<Tag>, keep: int, t: Tag, a: string, b: string, c: string)
    requires t in tags && IsNumberText(a) && IsNumberText(b) && IsNumberText(c)
    requires t.name in [a, a + "." + b, a + "." + b + "." + c]
    ensures t.name in Keep(tags, keep)
  {
    SemverExactlyWhen(t.name);
  }

  /** As are the moving tags. */
  lemma MovingAreKept(tags: seq<Tag>, keep: int, t: Tag)
    requires t in tags && t.name in ["dev", "staging", "prod", "latest"]
    ensures t.name in Keep(tags, keep)
  {}

  /** A build of a branch: its name, a hyphen, and 7 to 40 digits of the commit. */
  ghost predicate IsCommitBuild(name: string) {
    exists branch, sha :: branch in ["dev", "staging", "prod"] && IsCommit(sha) && name == branch + "-" + sha
  }

  lemma CommitIsHex(s: string)
    ensures IsCommit(s) <==> 7 <= |s| <= 40 && IsHex(s)
  {
    if IsCommit(s) {
      forall i | 0 <= i < |s|
        ensures '0' <= s[i] <= '9' || 'a' <= s[i] <= 'f'
      {
        assert s[i] in s;
      }
    }
  }

  function Branch(p: Prefix): string {
    match p
    case Dev => "dev"
    case Staging => "staging"
    case Prod => "prod"
  }

  lemma BuildAsWritten(name: string, p: Prefix)
    ensures IsBuildOf(name, p) <==> exists sha :: IsCommit(sha) && name == Branch(p) + "-" + sha
  {
    assert Branch(p) + "-" == p.Text();
    if IsBuildOf(name, p) {
      var sha := name[|p.Text()|..];
      CommitIsHex(sha);
      assert name == Branch(p) + "-" + sha;
    }
    if sha :| IsCommit(sha) && name == Branch(p) + "-" + sha {
      CommitIsHex(sha);
      assert name[|p.Text()|..] == sha;
    }
  }

  /** A name that is kept is a moving tag, a release or a build; everything else goes. */
  lemma KeptAsWritten(tags: seq<Tag>, keep: int, t: Tag)
    requires DistinctTags(tags) && t in tags && t.name in Keep(tags, keep)
    ensures t.name in ["dev", "staging", "prod", "latest"] || IsRelease(t.name) || IsCommitBuild(t.name)
  {
    KeptNames(tags, keep, t);
    SemverExactlyWhen(t.name);
    if !IsAlwaysKept(t.name) {
      var p :| IsBuildTag(t, p);
      BuildAsWritten(t.name, p);
      var sha :| IsCommit(sha) && t.name == Branch(p) + "-" + sha;
      assert Branch(p) in ["dev", "staging", "prod"];
    }
  }

  /** A cosign artifact: `sha256-`, the 64 digits of the digest it is for, and `.sig` or `.att`. */
  lemma CosignAsWritten(name: string)
    ensures IsCosign(name) <==> exists digest :: IsArtifactOf(name, digest)
    ensures forall digest :: IsArtifactOf(name, digest) ==> IsCosign(name) && CosignDigest(name) == digest
  {
    if IsCosign(name) {
      var digest := name[7..71];
      assert name == name[..7] + digest + name[71..] && name[..7] == "sha256-";
      assert forall i :: 0 <= i < 64 ==> name[7..71][i] == digest[i];
      assert IsArtifactOf(name, digest);
    }
    forall digest | IsArtifactOf(name, digest)
      ensures IsCosign(name) && CosignDigest(name) == digest
    {
      assert name[7..71] == digest && (name[71..] == ".sig" || name[71..] == ".att");
      HexDigits(digest);
    }
  }

  ghost predicate IsArtifactOf(name: string, digest: string) {
    && |digest| == 64 && (forall c :: c in digest ==> c in "0123456789abcdef")
    && (name == "sha256-" + digest + ".sig" || name == "sha256-" + digest + ".att")
  }

  lemma HexDigits(s: string)
    requires forall c :: c in s ==> c in "0123456789abcdef"
    ensures IsHex(s)
  {
    forall i | 0 <= i < |s|
      ensures '0' <= s[i] <= '9' || 'a' <= s[i] <= 'f'
    {
      assert s[i] in s;
    }
  }

  /** The counts a prune reports add up to the tags it found. */
  lemma {:induction false} CountsAddUp(tags: seq<Tag>, kept: set<string>)
    requires DistinctTags(tags)
    ensures |ToDelete(tags, kept)| + |Names(tags) * kept| == |tags|
  {
    if tags != [] {
      var t, before := tags[|tags| - 1], tags[..|tags| - 1];
      CountsAddUp(before, kept);
      LastNameIsNew(tags);
      OneMoreCommon(Names(before), kept, t.name);
    }
  }

  lemma LastNameIsNew(tags: seq<Tag>)
    requires DistinctTags(tags) && tags != []
    ensures var t, before := tags[|tags| - 1], tags[..|tags| - 1];
            t.name !in Names(before) && Names(tags) == Names(before) + {t.name}
  {
    assert tags == tags[..|tags| - 1] + [tags[|tags| - 1]];
  }

  lemma OneMoreCommon(names: set<string>, kept: set<string>, n: string)
    requires n !in names
    ensures |(names + {n}) * kept| == |names * kept| + (if n in kept then 1 else 0)
  {
    assert (names + {n}) * kept == names * kept + (if n in kept then {n} else {});
  }
}
