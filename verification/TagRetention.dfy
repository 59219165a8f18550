/** Docker Hub tag retention: which tags of a repository a prune keeps. */
module TagRetention {
  import opened Options

  /** `digest` is the hexadecimal digest the tag points at, empty if the listing gives none. */
  datatype Tag = Tag(name: string, lastUpdated: int, digest: string)

  datatype Prefix = Dev | Staging | Prod {
    function Text(): string {
      match this
      case Dev => "dev-"
      case Staging => "staging-"
      case Prod => "prod-"
    }
  }

  const MOVING: set<string> := {"dev", "staging", "prod", "latest"}

  predicate IsDigits(s: string) {
    s != "" && forall i :: 0 <= i < |s| ==> '0' <= s[i] <= '9'
  }

  function FirstDot(s: string): (i: nat)
    ensures i <= |s|
  {
    if s == "" || s[0] == '.' then 0 else 1 + FirstDot(s[1..])
  }

  /** Up to `n` numbers separated by dots. */
  predicate IsDotted(s: string, n: nat) {
    n > 0 && var i := FirstDot(s);
    IsDigits(s[..i]) && (i == |s| || IsDotted(s[i + 1..], n - 1))
  }

  /** 0 | 0.1 | 0.1.4 */
  predicate IsSemver(name: string) {
    IsDotted(name, 3)
  }

  /** `<prefix>-<7 to 40 hex digits>`. */
  predicate IsBuildOf(name: string, p: Prefix) {
    && p.Text() <= name
    && var sha := name[|p.Text()|..];
       7 <= |sha| <= 40 && IsHex(sha)
  }

  predicate IsHex(s: string) {
    forall i :: 0 <= i < |s| ==> '0' <= s[i] <= '9' || 'a' <= s[i] <= 'f'
  }

  /** `sha256-<64 hex digits>.sig` or `.att`. */
  predicate IsCosign(name: string) {
    |name| == 75 && "sha256-" <= name && name[71..] in {".sig", ".att"} && IsHex(name[7..71])
  }

  /** The digest a cosign artifact is for. */
  function CosignDigest(name: string): string
    requires IsCosign(name)
  {
    name[7..71]
  }

  predicate IsAlwaysKept(name: string) {
    name in MOVING || IsSemver(name)
  }

  predicate IsBuildTag(t: Tag, p: Prefix) {
    !IsAlwaysKept(t.name) && IsBuildOf(t.name, p)
  }

  /** The build tags of one prefix, in listing order. */
  function Builds(tags: seq<Tag>, p: Prefix): seq<Tag> {
    if tags == [] then []
    else Builds(tags[..|tags| - 1], p) + (if IsBuildTag(tags[|tags| - 1], p) then [tags[|tags| - 1]] else [])
  }

  /** `t` after every tag that is not older than it. */
  function Inserted(sorted: seq<Tag>, t: Tag): seq<Tag> {
    if sorted == [] || sorted[|sorted| - 1].lastUpdated >= t.lastUpdated then sorted + [t]
    else Inserted(sorted[..|sorted| - 1], t) + [sorted[|sorted| - 1]]
  }

  /** Newest first; tags updated at the same time stay in listing order. */
  function Newest(tags: seq<Tag>): seq<Tag> {
    if tags == [] then [] else Inserted(Newest(tags[..|tags| - 1]), tags[|tags| - 1])
  }

  /** How many of `n` elements `slice(0, keep)` takes; a negative `keep` counts from the end. */
  function SliceLength(n: nat, keep: int): (m: nat)
    ensures m <= n
  {
    if keep >= 0 then (if keep <= n then keep else n) else (if n + keep > 0 then n + keep else 0)
  }

  function KeptBuilds(tags: seq<Tag>, p: Prefix, keep: int): seq<Tag> {
    var newest := Newest(Builds(tags, p));
    newest[..SliceLength(|newest|, keep)]
  }

  function Names(tags: seq<Tag>): set<string> {
    set t | t in tags :: t.name
  }

  function AlwaysKept(tags: seq<Tag>): set<string> {
    set t | t in tags && IsAlwaysKept(t.name) :: t.name
  }

  function Keep(tags: seq<Tag>, keep: int): set<string> {
    AlwaysKept(tags) + Names(KeptBuilds(tags, Dev, keep)) + Names(KeptBuilds(tags, Staging, keep)) +
      Names(KeptBuilds(tags, Prod, keep))
  }

  /** The names to delete, in listing order. */
  function ToDelete(tags: seq<Tag>, kept: set<string>): seq<string> {
    if tags == [] then []
    else ToDelete(tags[..|tags| - 1], kept) + (if tags[|tags| - 1].name !in kept then [tags[|tags| - 1].name] else [])
  }

  /** The tags without those named in `gone`. */
  function Without(tags: seq<Tag>, gone: set<string>): seq<Tag> {
    if tags == [] then []
    else Without(tags[..|tags| - 1], gone) + (if tags[|tags| - 1].name in gone then [] else [tags[|tags| - 1]])
  }

  function NameSet(names: seq<string>): set<string> {
    set n | n in names
  }

  /** Every tag is either kept or deleted. */
  lemma {:induction false} ToDeleteIsTheRest(tags: seq<Tag>, kept: set<string>)
    ensures NameSet(ToDelete(tags, kept)) == Names(tags) - kept
  {
    if tags != [] {
      var t, before := tags[|tags| - 1], tags[..|tags| - 1];
      ToDeleteIsTheRest(before, kept);
      assert tags == before + [t];
      assert Names(tags) == Names(before) + {t.name};
      NameSetOfSum(ToDelete(before, kept), if t.name !in kept then [t.name] else []);
    }
  }

  /** The deletions go in listing order. */
  lemma {:induction false} ToDeleteOfSum(a: seq<Tag>, b: seq<Tag>, kept: set<string>)
    ensures ToDelete(a + b, kept) == ToDelete(a, kept) + ToDelete(b, kept)
  {
    if b == [] {
      assert a + b == a;
    } else {
      var k := |b| - 1;
      ToDeleteOfSum(a, b[..k], kept);
      assert (a + b)[..|a + b| - 1] == a + b[..k];
    }
  }

  lemma ToDeleteOfOne(t: Tag, kept: set<string>)
    ensures ToDelete([t], kept) == if t.name in kept then [] else [t.name]
  {
    assert [t][..0] == [];
  }

  lemma NameSetOfSum(a: seq<string>, b: seq<string>)
    ensures NameSet(a + b) == NameSet(a) + NameSet(b)
  {}

  datatype Outcome = NotFound | Pruned(deleted: nat, kept: nat) | Failed

  /** A repository on the registry; `None` when it does not exist. */
  class Repository {
    var tags: Option<seq<Tag>>

    /** Delete what is not kept; `refuses` says which deletions fail, and the first failure ends the run. */
    method Prune(keepSha: int, dryRun: bool, refuses: string -> bool)
      returns (outcome: Outcome, ghost gone: set<string>)
      modifies this
      ensures outcome.NotFound? <==> old(tags).None?
      ensures old(tags).None? ==> tags.None?
      ensures old(tags).Some? ==>
        var before := old(tags).value;
        && tags == Some(Without(before, gone))
        && gone <= Names(before) - Keep(before, keepSha)
        && (dryRun ==> gone == {})
        && (outcome.Pruned? && !dryRun ==> gone == Names(before) - Keep(before, keepSha))
        && (outcome.Pruned? ==>
            outcome.kept == |Keep(before, keepSha)| && outcome.deleted == |ToDelete(before, Keep(before, keepSha))|)
        && (outcome.Failed? ==> !dryRun && exists n :: n in Names(before) - Keep(before, keepSha) && refuses(n))
    {
      gone := {};
      if tags.None? {
        return NotFound, gone;
      }
      var listed := tags.value;
      var kept := SelectKept(listed, keepSha);
      var del := SelectDeleted(listed, kept);
      ToDeleteIsTheRest(listed, kept);
      outcome := Pruned(|del|, |kept|);
      WithoutNothing(listed);
      if !dryRun {
        var failed;
        failed, gone := DeleteAll(listed, del, refuses);
        if failed {
          outcome := Failed;
        }
      }
    }

    /** Delete the names one after the other, up to the first that fails. */
    method DeleteAll(ghost listed: seq<Tag>, del: seq<string>, refuses: string -> bool)
      returns (failed: bool, ghost gone: set<string>)
      requires tags == Some(listed)
      modifies this
      ensures tags == Some(Without(listed, gone)) && gone <= NameSet(del)
      ensures !failed ==> gone == NameSet(del)
      ensures failed ==> exists n :: n in NameSet(del) && refuses(n)
    {
      gone := {};
      WithoutNothing(listed);
      for i := 0 to |del|
        invariant tags == Some(Without(listed, gone))
        invariant gone == NameSet(del[..i])
      {
        NameSetGrows(del, i);
        if refuses(del[i]) {
          return true, gone;
        }
        WithoutOneMore(listed, gone, del[i]);
        tags := Some(Without(tags.value, {del[i]}));
        gone := gone + {del[i]};
      }
      assert del[..|del|] == del;
      failed := false;
    }
  }

  lemma NameSetGrows(names: seq<string>, i: nat)
    requires i < |names|
    ensures NameSet(names[..i + 1]) == NameSet(names[..i]) + {names[i]}
    ensures NameSet(names[..i]) <= NameSet(names) && names[i] in NameSet(names)
    ensures i + 1 == |names| ==> NameSet(names[..i + 1]) == NameSet(names)
  {
    assert names[..i + 1] == names[..i] + [names[i]];
    assert i + 1 == |names| ==> names[..i + 1] == names;
  }

  /** Fill the keep set: what always stays, then the newest build tags of each prefix. */
  method SelectKept(tags: seq<Tag>, keepSha: int) returns (keep: set<string>)
    ensures keep == Keep(tags, keepSha)
  {
    keep := {};
    var dev: seq<Tag>, staging: seq<Tag>, prod: seq<Tag> := [], [], [];
    for i := 0 to |tags|
      invariant keep == AlwaysKept(tags[..i])
      invariant dev == Builds(tags[..i], Dev) && staging == Builds(tags[..i], Staging) &&
                prod == Builds(tags[..i], Prod)
    {
      var t := tags[i];
      assert tags[..i + 1] == tags[..i] + [t];
      AlwaysKeptSnoc(tags[..i], t);
      BuildsSnoc(tags[..i], t, Dev);
      BuildsSnoc(tags[..i], t, Staging);
      BuildsSnoc(tags[..i], t, Prod);
      if t.name in MOVING || IsSemver(t.name) {
        keep := keep + {t.name};
        continue;
      }
      OnePrefix(t.name);
      if IsBuildOf(t.name, Dev) {
        dev := dev + [t];
      } else if IsBuildOf(t.name, Staging) {
        staging := staging + [t];
      } else if IsBuildOf(t.name, Prod) {
        prod := prod + [t];
      }
    }
    assert tags[..|tags|] == tags;
    var newDev, newStaging, newProd := Newest(dev), Newest(staging), Newest(prod);
    keep := keep + Names(newDev[..SliceLength(|newDev|, keepSha)]);
    keep := keep + Names(newStaging[..SliceLength(|newStaging|, keepSha)]);
    keep := keep + Names(newProd[..SliceLength(|newProd|, keepSha)]);
  }

  lemma AlwaysKeptSnoc(tags: seq<Tag>, t: Tag)
    ensures AlwaysKept(tags + [t]) == AlwaysKept(tags) + (if IsAlwaysKept(t.name) then {t.name} else {})
  {}

  method SelectDeleted(tags: seq<Tag>, keep: set<string>) returns (del: seq<string>)
    ensures del == ToDelete(tags, keep)
  {
    del := [];
    for i := 0 to |tags|
      invariant del == ToDelete(tags[..i], keep)
    {
      assert tags[..i + 1][..i] == tags[..i];
      if tags[i].name in keep {
        continue;
      }
      del := del + [tags[i].name];
    }
    assert tags[..|tags|] == tags;
  }

  lemma OnePrefix(name: string)
    ensures !(IsBuildOf(name, Dev) && IsBuildOf(name, Staging))
    ensures !(IsBuildOf(name, Dev) && IsBuildOf(name, Prod))
    ensures !(IsBuildOf(name, Staging) && IsBuildOf(name, Prod))
  {
    assert IsBuildOf(name, Dev) ==> name[0] == 'd';
    assert IsBuildOf(name, Staging) ==> name[0] == 's';
    assert IsBuildOf(name, Prod) ==> name[0] == 'p';
  }

  lemma {:induction false} WithoutNothing(tags: seq<Tag>)
    ensures Without(tags, {}) == tags
  {
    if tags != [] {
      WithoutNothing(tags[..|tags| - 1]);
    }
  }

  lemma {:induction false} WithoutOneMore(tags: seq<Tag>, gone: set<string>, n: string)
    ensures Without(Without(tags, gone), {n}) == Without(tags, gone + {n})
  {
    if tags != [] {
      var t, before := tags[|tags| - 1], tags[..|tags| - 1];
      WithoutOneMore(before, gone, n);
      var w := Without(before, gone);
      if t.name in gone {
        assert Without(tags, gone) == w;
      } else {
        assert Without(tags, gone) == w + [t];
        assert (w + [t])[..|w + [t]| - 1] == w;
      }
    }
  }

  // ---- what is kept ----

  ghost predicate DistinctTags(tags: seq<Tag>) {
    forall i, j :: 0 <= i < j < |tags| ==> tags[i].name != tags[j].name
  }

  ghost predicate NewestFirst(tags: seq<Tag>) {
    forall i, j :: 0 <= i <= j < |tags| ==> tags[i].lastUpdated >= tags[j].lastUpdated
  }

  lemma {:induction false} InsertedSorts(sorted: seq<Tag>, t: Tag)
    requires NewestFirst(sorted)
    ensures NewestFirst(Inserted(sorted, t))
    ensures multiset(Inserted(sorted, t)) == multiset(sorted) + multiset{t}
    ensures |Inserted(sorted, t)| == |sorted| + 1
  {
    if sorted != [] && sorted[|sorted| - 1].lastUpdated < t.lastUpdated {
      var last, rest := sorted[|sorted| - 1], sorted[..|sorted| - 1];
      assert sorted == rest + [last];
      InsertedSorts(rest, t);
      InsertedOlder(rest, t, last);
    }
  }

  lemma InsertedOlder(rest: seq<Tag>, t: Tag, last: Tag)
    requires NewestFirst(Inserted(rest, t)) && multiset(Inserted(rest, t)) == multiset(rest) + multiset{t}
    requires last.lastUpdated < t.lastUpdated && NewestFirst(rest + [last])
    ensures NewestFirst(Inserted(rest, t) + [last])
  {
    var r := Inserted(rest, t);
    forall i | 0 <= i < |r|
      ensures r[i].lastUpdated >= last.lastUpdated
    {
      assert r[i] in multiset(r);
      if r[i] in multiset(rest) {
        var k :| 0 <= k < |rest| && rest[k] == r[i];
        assert (rest + [last])[k].lastUpdated >= (rest + [last])[|rest|].lastUpdated;
      }
    }
  }

  /** `Newest` is a permutation, newest first. */
  lemma {:induction false} NewestSorts(tags: seq<Tag>)
    ensures NewestFirst(Newest(tags))
    ensures multiset(Newest(tags)) == multiset(tags)
    ensures |Newest(tags)| == |tags|
  {
    if tags != [] {
      NewestSorts(tags[..|tags| - 1]);
      InsertedSorts(Newest(tags[..|tags| - 1]), tags[|tags| - 1]);
      assert tags == tags[..|tags| - 1] + [tags[|tags| - 1]];
    }
  }

  /** The tags last updated at one time, in order. */
  function UpdatedAt(tags: seq<Tag>, time: int): seq<Tag> {
    if tags == [] then []
    else
      UpdatedAt(tags[..|tags| - 1], time) + (if tags[|tags| - 1].lastUpdated == time then [tags[|tags| - 1]] else [])
  }

  lemma UpdatedAtSnoc(tags: seq<Tag>, t: Tag, time: int)
    ensures UpdatedAt(tags + [t], time) == UpdatedAt(tags, time) + (if t.lastUpdated == time then [t] else [])
  {
    assert (tags + [t])[..|tags|] == tags;
  }

  lemma {:induction false} InsertedInOrder(sorted: seq<Tag>, t: Tag, time: int)
    ensures UpdatedAt(Inserted(sorted, t), time) ==
            UpdatedAt(sorted, time) + (if t.lastUpdated == time then [t] else [])
  {
    if sorted == [] || sorted[|sorted| - 1].lastUpdated >= t.lastUpdated {
      UpdatedAtSnoc(sorted, t, time);
    } else {
      var rest, last := sorted[..|sorted| - 1], sorted[|sorted| - 1];
      InsertedInOrder(rest, t, time);
      UpdatedAtSnoc(Inserted(rest, t), last, time);
    }
  }

  /** Tags updated at the same time stay in listing order. */
  lemma {:induction false} NewestInOrder(tags: seq<Tag>, time: int)
    ensures UpdatedAt(Newest(tags), time) == UpdatedAt(tags, time)
  {
    if tags != [] {
      NewestInOrder(tags[..|tags| - 1], time);
      InsertedInOrder(Newest(tags[..|tags| - 1]), tags[|tags| - 1], time);
    }
  }

  lemma {:induction false} BuildsAre(tags: seq<Tag>, p: Prefix, t: Tag)
    ensures t in Builds(tags, p) <==> t in tags && IsBuildTag(t, p)
  {
    if tags != [] {
      assert tags == tags[..|tags| - 1] + [tags[|tags| - 1]];
      BuildsAre(tags[..|tags| - 1], p, t);
    }
  }

  lemma KeptBuildsAre(tags: seq<Tag>, p: Prefix, keep: int, t: Tag)
    requires t in KeptBuilds(tags, p, keep)
    ensures t in tags && IsBuildTag(t, p)
  {
    NewestSorts(Builds(tags, p));
    assert t in multiset(Newest(Builds(tags, p)));
    BuildsAre(tags, p, t);
  }

  lemma SameNameSameTag(tags: seq<Tag>, a: Tag, b: Tag)
    requires DistinctTags(tags) && a in tags && b in tags && a.name == b.name
    ensures a == b
  {}

  /** A build tag is kept exactly when it is among the first of its prefix, newest first. */
  lemma BuildKeptExactlyWhen(tags: seq<Tag>, p: Prefix, keep: int, t: Tag)
    requires DistinctTags(tags) && t in tags && IsBuildTag(t, p)
    ensures t.name in Keep(tags, keep) <==> t in KeptBuilds(tags, p, keep)
  {
    if t in KeptBuilds(tags, p, keep) {
      assert t.name in Names(KeptBuilds(tags, p, keep));
    } else if t.name in Keep(tags, keep) {
      var q, u := KeptElsewhere(tags, keep, t.name);
      KeptBuildsAre(tags, q, keep, u);
      SameNameSameTag(tags, t, u);
      SamePrefix(t.name, p, q);
    }
  }

  lemma SamePrefix(name: string, p: Prefix, q: Prefix)
    requires IsBuildOf(name, p) && IsBuildOf(name, q)
    ensures p == q
  {
    OnePrefix(name);
  }

  lemma KeptElsewhere(tags: seq<Tag>, keep: int, n: string) returns (q: Prefix, u: Tag)
    requires n in Keep(tags, keep) && !IsAlwaysKept(n)
    ensures u in KeptBuilds(tags, q, keep) && u.name == n
  {
    if n in Names(KeptBuilds(tags, Dev, keep)) {
      q := Dev;
    } else if n in Names(KeptBuilds(tags, Staging, keep)) {
      q := Staging;
    } else {
      q := Prod;
    }
    u :| u in KeptBuilds(tags, q, keep) && u.name == n;
  }

  /** The prune keeps the tags that always stay, and nothing but them and build tags. */
  lemma KeptNames(tags: seq<Tag>, keep: int, t: Tag)
    requires DistinctTags(tags) && t in tags
    ensures IsAlwaysKept(t.name) ==> t.name in Keep(tags, keep)
    ensures t.name in Keep(tags, keep) ==> IsAlwaysKept(t.name) || exists p :: IsBuildTag(t, p)
  {
    if t.name in Keep(tags, keep) && !IsAlwaysKept(t.name) {
      var q, u := KeptElsewhere(tags, keep, t.name);
      KeptBuildsAre(tags, q, keep, u);
    }
  }

  lemma CosignIsNoBuild(name: string)
    requires IsCosign(name)
    ensures !IsAlwaysKept(name) && forall p :: !IsBuildOf(name, p)
  {
    assert name[0] == 's' && name[1] == 'h';
    assert FirstDot(name) > 0;
    assert name[..FirstDot(name)][0] == 's';
    forall p
      ensures !IsBuildOf(name, p)
    {
      assert p.Text() <= name ==> p.Text()[0] == name[0] && p.Text()[1] == name[1];
    }
  }

  /** No cosign artifact is ever kept. */
  lemma CosignNeverKept(tags: seq<Tag>, keep: int, name: string)
    requires IsCosign(name)
    ensures name !in Keep(tags, keep)
  {
    CosignIsNoBuild(name);
    if name in Keep(tags, keep) {
      var q, u := KeptElsewhere(tags, keep, name);
      KeptBuildsAre(tags, q, keep, u);
      assert false;
    }
  }

  /** A kept tag points at what the artifact signs. */
  ghost predicate IsReferenced(tags: seq<Tag>, keep: int, name: string)
    requires IsCosign(name)
  {
    exists u :: u in tags && u.name in Keep(tags, keep) && u.digest == CosignDigest(name)
  }

  /** The rule of the header: a cosign artifact stays as long as a kept tag references its digest. */
  ghost predicate ReferencedArtifactsStay(tags: seq<Tag>, keep: int) {
    forall t :: t in tags && IsCosign(t.name) && IsReferenced(tags, keep, t.name) ==> t.name in Keep(tags, keep)
  }

  /** The rule holds exactly of the listings without a referenced artifact. */
  lemma ArtifactsStayExactlyWhen(tags: seq<Tag>, keep: int)
    ensures ReferencedArtifactsStay(tags, keep) <==>
            forall t :: t in tags && IsCosign(t.name) ==> !IsReferenced(tags, keep, t.name)
  {
    forall t | t in tags && IsCosign(t.name)
      ensures t.name !in Keep(tags, keep)
    {
      CosignNeverKept(tags, keep, t.name);
    }
  }

  /** It fails as soon as the image behind a moving tag is signed. */
  lemma SignedImageLosesSignature(digest: string, at: int, keep: int)
    requires |digest| == 64 && IsHex(digest)
    ensures var tags := [Tag("latest", at, digest), Tag("sha256-" + digest + ".sig", at, "")];
            !ReferencedArtifactsStay(tags, keep) && tags[1].name in Names(tags) - Keep(tags, keep)
  {
    var name := "sha256-" + digest + ".sig";
    var tags := [Tag("latest", at, digest), Tag(name, at, "")];
    assert name[7..71] == digest && name[71..] == ".sig";
    CosignNeverKept(tags, keep, name);
    assert tags[0] in tags && tags[1] in tags && "latest" in AlwaysKept(tags);
    assert IsReferenced(tags, keep, name);
  }

  /**
   * Of each prefix exactly as many builds are kept as the slice is long, each at
   * least as recent as every deleted one.
   */
  lemma NewestBuildsAreKept(tags: seq<Tag>, p: Prefix, keep: int)
    requires DistinctTags(tags)
    ensures |KeptBuilds(tags, p, keep)| == SliceLength(|Builds(tags, p)|, keep)
    ensures multiset(KeptBuilds(tags, p, keep)) <= multiset(Builds(tags, p))
    ensures forall t, u | t in Builds(tags, p) && u in Builds(tags, p) && t.name in Keep(tags, keep) &&
            u.name !in Keep(tags, keep) ::
              t.lastUpdated >= u.lastUpdated
  {
    var builds := Builds(tags, p);
    var newest, n := Newest(builds), SliceLength(|builds|, keep);
    NewestSorts(builds);
    assert newest == newest[..n] + newest[n..];
    forall t, u | t in builds && u in builds && t.name in Keep(tags, keep) && u.name !in Keep(tags, keep)
      ensures t.lastUpdated >= u.lastUpdated
    {
      BuildsAre(tags, p, t);
      BuildsAre(tags, p, u);
      BuildKeptExactlyWhen(tags, p, keep, t);
      BuildKeptExactlyWhen(tags, p, keep, u);
      assert u in multiset(newest);
      KeptIsNewer(newest, n, t, u);
    }
  }

  lemma KeptIsNewer(newest: seq<Tag>, n: nat, t: Tag, u: Tag)
    requires n <= |newest| && NewestFirst(newest)
    requires t in newest[..n] && u in newest && u !in newest[..n]
    ensures t.lastUpdated >= u.lastUpdated
  {
    var i :| 0 <= i < n && newest[i] == t;
    var j :| 0 <= j < |newest| && newest[j] == u;
    assert j < n ==> newest[..n][j] == u;
  }

  /** A count keeps that many builds of a prefix, or all; a negative one drops that many, or all. */
  lemma KeptCount(tags: seq<Tag>, p: Prefix, keep: int)
    ensures var kept, builds := |KeptBuilds(tags, p, keep)|, |Builds(tags, p)|;
            && (keep >= 0 ==> kept <= builds && kept <= keep && (kept == keep || kept == builds))
            && (keep < 0 ==> builds - kept <= -keep && (builds - kept == -keep || kept == 0))
  {
    NewestSorts(Builds(tags, p));
  }

  // ---- pruning again ----

  lemma WithoutSnoc(tags: seq<Tag>, t: Tag, gone: set<string>)
    ensures t.name in gone ==> Without(tags + [t], gone) == Without(tags, gone)
    ensures t.name !in gone ==> Without(tags + [t], gone) == Without(tags, gone) + [t]
  {
    assert (tags + [t])[..|tags + [t]| - 1] == tags;
  }

  lemma BuildsSnoc(tags: seq<Tag>, t: Tag, p: Prefix)
    ensures IsBuildTag(t, p) ==> Builds(tags + [t], p) == Builds(tags, p) + [t]
    ensures !IsBuildTag(t, p) ==> Builds(tags + [t], p) == Builds(tags, p)
  {
    assert (tags + [t])[..|tags + [t]| - 1] == tags;
  }

  lemma NewestSnoc(tags: seq<Tag>, t: Tag)
    ensures Newest(tags + [t]) == Inserted(Newest(tags), t)
  {
    assert (tags + [t])[..|tags + [t]| - 1] == tags;
  }

  /** Where a tag goes in a sorted list: after all that are not older, before all that are. */
  lemma {:induction false} InsertedBetween(a: seq<Tag>, t: Tag, b: seq<Tag>)
    requires forall i :: 0 <= i < |a| ==> a[i].lastUpdated >= t.lastUpdated
    requires forall i :: 0 <= i < |b| ==> b[i].lastUpdated < t.lastUpdated
    ensures Inserted(a + b, t) == a + [t] + b
  {
    if b == [] {
      assert a + b == a;
    } else {
      var rest, last := b[..|b| - 1], b[|b| - 1];
      InsertedBetween(a, t, rest);
      assert (a + b)[..|a + b| - 1] == a + rest;
      assert a + [t] + b == a + [t] + rest + [last];
    }
  }

  lemma {:induction false} SplitAt(sorted: seq<Tag>, t: Tag) returns (k: nat)
    requires NewestFirst(sorted)
    ensures k <= |sorted|
    ensures forall i :: 0 <= i < k ==> sorted[i].lastUpdated >= t.lastUpdated
    ensures forall i :: k <= i < |sorted| ==> sorted[i].lastUpdated < t.lastUpdated
  {
    if sorted == [] || sorted[|sorted| - 1].lastUpdated >= t.lastUpdated {
      k := |sorted|;
    } else {
      k := SplitAt(sorted[..|sorted| - 1], t);
    }
  }

  lemma {:induction false} WithoutOfSum(a: seq<Tag>, b: seq<Tag>, gone: set<string>)
    ensures Without(a + b, gone) == Without(a, gone) + Without(b, gone)
  {
    if b == [] {
      assert a + b == a;
    } else {
      assert (a + b)[..|a + b| - 1] == a + b[..|b| - 1];
      WithoutOfSum(a, b[..|b| - 1], gone);
    }
  }

  lemma {:induction false} LeftIsListed(tags: seq<Tag>, gone: set<string>)
    ensures forall i :: 0 <= i < |Without(tags, gone)| ==> Without(tags, gone)[i] in tags
  {
    if tags != [] {
      LeftIsListed(tags[..|tags| - 1], gone);
    }
  }

  /** Sorting and leaving tags out commute. */
  lemma InsertedWithout(sorted: seq<Tag>, t: Tag, gone: set<string>)
    requires NewestFirst(sorted)
    ensures Without(Inserted(sorted, t), gone) ==
            if t.name in gone then Without(sorted, gone) else Inserted(Without(sorted, gone), t)
  {
    var k := SplitAt(sorted, t);
    InsertedBetweenWithout(sorted[..k], t, sorted[k..], gone);
    assert sorted[..k] + sorted[k..] == sorted;
  }

  lemma InsertedBetweenWithout(a: seq<Tag>, t: Tag, b: seq<Tag>, gone: set<string>)
    requires forall i :: 0 <= i < |a| ==> a[i].lastUpdated >= t.lastUpdated
    requires forall i :: 0 <= i < |b| ==> b[i].lastUpdated < t.lastUpdated
    ensures Without(Inserted(a + b, t), gone) ==
            if t.name in gone then Without(a + b, gone) else Inserted(Without(a + b, gone), t)
  {
    InsertedBetween(a, t, b);
    WithoutOfSum(a + [t], b, gone);
    WithoutSnoc(a, t, gone);
    WithoutOfSum(a, b, gone);
    if t.name !in gone {
      LeftIsListed(a, gone);
      LeftIsListed(b, gone);
      InsertedBetween(Without(a, gone), t, Without(b, gone));
    }
  }

  lemma {:induction false} NewestWithout(tags: seq<Tag>, gone: set<string>)
    ensures Newest(Without(tags, gone)) == Without(Newest(tags), gone)
  {
    if tags != [] {
      var before, t := tags[..|tags| - 1], tags[|tags| - 1];
      assert tags == before + [t];
      NewestWithout(before, gone);
      NewestWithoutStep(before, t, gone);
    }
  }

  lemma NewestWithoutStep(before: seq<Tag>, t: Tag, gone: set<string>)
    requires Newest(Without(before, gone)) == Without(Newest(before), gone)
    ensures Newest(Without(before + [t], gone)) == Without(Newest(before + [t]), gone)
  {
    NewestSorts(before);
    InsertedWithout(Newest(before), t, gone);
    NewestSnoc(before, t);
    WithoutSnoc(before, t, gone);
    NewestSnoc(Without(before, gone), t);
  }

  lemma {:induction false} BuildsWithout(tags: seq<Tag>, p: Prefix, gone: set<string>)
    ensures Builds(Without(tags, gone), p) == Without(Builds(tags, p), gone)
  {
    if tags != [] {
      var before, t := tags[..|tags| - 1], tags[|tags| - 1];
      assert tags == before + [t];
      BuildsWithout(before, p, gone);
      BuildsWithoutStep(before, t, p, gone);
    }
  }

  lemma BuildsWithoutStep(before: seq<Tag>, t: Tag, p: Prefix, gone: set<string>)
    requires Builds(Without(before, gone), p) == Without(Builds(before, p), gone)
    ensures Builds(Without(before + [t], gone), p) == Without(Builds(before + [t], p), gone)
  {
    WithoutSnoc(before, t, gone);
    BuildsSnoc(before, t, p);
    BuildsSnoc(Without(before, gone), t, p);
    WithoutSnoc(Builds(before, p), t, gone);
  }

  lemma {:induction false} WithoutPrefix(tags: seq<Tag>, n: nat, gone: set<string>)
    requires n <= |tags| && forall i :: 0 <= i < n ==> tags[i].name !in gone
    ensures |Without(tags, gone)| >= n && Without(tags, gone)[..n] == tags[..n]
  {
    if |tags| > n {
      assert tags[..|tags| - 1][..n] == tags[..n];
      WithoutPrefix(tags[..|tags| - 1], n, gone);
    } else if tags != [] {
      var t, before := tags[|tags| - 1], tags[..|tags| - 1];
      assert tags == before + [t] && before[..n - 1] == before;
      WithoutPrefix(before, n - 1, gone);
      WithoutShorter(before, gone);
      assert Without(before, gone) == before;
      assert tags[..n] == tags;
    }
  }

  /** With a count that is not negative, losing deleted tags does not change which builds are kept. */
  lemma KeptBuildsStay(tags: seq<Tag>, p: Prefix, keep: int, gone: set<string>)
    requires keep >= 0 && gone !! Names(KeptBuilds(tags, p, keep))
    ensures KeptBuilds(Without(tags, gone), p, keep) == KeptBuilds(tags, p, keep)
  {
    BuildsWithout(tags, p, gone);
    var builds := Builds(tags, p);
    NewestWithout(builds, gone);
    var newest := Newest(builds);
    var n := SliceLength(|newest|, keep);
    forall i | 0 <= i < n
      ensures newest[i].name !in gone
    {
      assert newest[..n][i] in newest[..n];
    }
    WithoutPrefix(newest, n, gone);
    WithoutShorter(newest, gone);
  }

  lemma {:induction false} WithoutShorter(tags: seq<Tag>, gone: set<string>)
    ensures |Without(tags, gone)| <= |tags|
  {
    if tags != [] {
      WithoutShorter(tags[..|tags| - 1], gone);
    }
  }

  lemma {:induction false} WithoutNames(tags: seq<Tag>, gone: set<string>)
    ensures Names(Without(tags, gone)) == Names(tags) - gone
    ensures AlwaysKept(Without(tags, gone)) == AlwaysKept(tags) - gone
  {
    if tags != [] {
      var t, before := tags[|tags| - 1], tags[..|tags| - 1];
      WithoutNames(before, gone);
      assert tags == before + [t];
      assert Names(tags) == Names(before) + {t.name};
      assert AlwaysKept(tags) == AlwaysKept(before) + (if IsAlwaysKept(t.name) then {t.name} else {});
      if t.name !in gone {
        var w := Without(before, gone);
        assert Without(tags, gone) == w + [t];
        assert Names(w + [t]) == Names(w) + {t.name};
        assert AlwaysKept(w + [t]) == AlwaysKept(w) + (if IsAlwaysKept(t.name) then {t.name} else {});
      } else {
        assert Without(tags, gone) == Without(before, gone);
      }
    }
  }

  /**
   * A prune that stopped anywhere keeps, when it is run again, exactly what it
   * set out to keep: the second run finishes what the first began.
   */
  lemma PruneResumes(tags: seq<Tag>, keep: int, gone: set<string>)
    requires keep >= 0 && gone !! Keep(tags, keep)
    ensures Keep(Without(tags, gone), keep) == Keep(tags, keep)
    ensures Names(Without(tags, gone)) - Keep(Without(tags, gone), keep) == Names(tags) - Keep(tags, keep) - gone
  {
    KeptBuildsStay(tags, Dev, keep, gone);
    KeptBuildsStay(tags, Staging, keep, gone);
    KeptBuildsStay(tags, Prod, keep, gone);
    WithoutNames(tags, gone);
    assert AlwaysKept(tags) - gone == AlwaysKept(tags);
  }

  function Left(tags: seq<Tag>, keep: int): seq<Tag> {
    Without(tags, Names(tags) - Keep(tags, keep))
  }

  /** Some prefix has more build tags than a negative count leaves off. */
  predicate MoreThan(tags: seq<Tag>, left: int) {
    |Builds(tags, Dev)| > left || |Builds(tags, Staging)| > left || |Builds(tags, Prod)| > left
  }

  lemma KeepsWhenMore(tags: seq<Tag>, p: Prefix, keep: int)
    requires keep < 0
    ensures KeptBuilds(tags, p, keep) != [] <==> |Builds(tags, p)| > -keep
  {
    NewestSorts(Builds(tags, p));
  }

  lemma {:induction false} DistinctLeft(tags: seq<Tag>, gone: set<string>)
    requires DistinctTags(tags)
    ensures DistinctTags(Without(tags, gone))
    ensures forall t :: t in Without(tags, gone) <==> t in tags && t.name !in gone
  {
    if tags != [] {
      var t, before := tags[|tags| - 1], tags[..|tags| - 1];
      DistinctLeft(before, gone);
      assert tags == before + [t];
      WithoutSnoc(before, t, gone);
    }
  }

  lemma {:induction false} DistinctBuilds(tags: seq<Tag>, p: Prefix)
    requires DistinctTags(tags)
    ensures DistinctTags(Builds(tags, p))
  {
    if tags != [] {
      var t, before := tags[|tags| - 1], tags[..|tags| - 1];
      DistinctBuilds(before, p);
      assert tags == before + [t];
      BuildsSnoc(before, t, p);
      forall u | u in Builds(before, p)
        ensures u.name != t.name
      {
        BuildsAre(before, p, u);
      }
    }
  }

  lemma {:induction false} DistinctFit(a: seq<Tag>, b: set<Tag>)
    requires DistinctTags(a) && forall t :: t in a ==> t in b
    ensures |a| <= |b|
  {
    if a != [] {
      DistinctFit(a[1..], b - {a[0]});
    }
  }

  lemma {:induction false} SetOfSize(b: seq<Tag>)
    ensures |set t | t in b| <= |b|
  {
    if b != [] {
      SetOfSize(b[1..]);
      assert (set t | t in b) == (set t | t in b[1..]) + {b[0]};
    }
  }

  /** A negative count that keeps a build now takes one off again next time. */
  lemma NegativeCountShrinks(tags: seq<Tag>, keep: int, p: Prefix)
    requires DistinctTags(tags) && keep < 0 && KeptBuilds(tags, p, keep) != []
    ensures Names(Left(tags, keep)) - Keep(Left(tags, keep), keep) != {}
  {
    var gone, left := Names(tags) - Keep(tags, keep), Left(tags, keep);
    DistinctLeft(tags, gone);
    DistinctBuilds(left, p);
    var t := KeptBuilds(tags, p, keep)[0];
    KeptBuildsAre(tags, p, keep, t);
    BuildKeptExactlyWhen(tags, p, keep, t);
    BuildsAre(left, p, t);
    var builds, again := Builds(left, p), KeptBuilds(left, p, keep);
    NewestSorts(builds);
    if Names(left) - Keep(left, keep) == {} {
      forall u | u in builds
        ensures u in again
      {
        BuildsAre(left, p, u);
        assert u.name in Names(left);
        BuildKeptExactlyWhen(left, p, keep, u);
      }
      DistinctFit(builds, set u | u in again);
      SetOfSize(again);
    }
  }

  /**
   * A second prune deletes nothing exactly when the count is not negative, or no
   * prefix has more builds than it leaves off.
   */
  lemma SecondPruneExactlyWhen(tags: seq<Tag>, keep: int)
    requires DistinctTags(tags)
    ensures Names(Left(tags, keep)) - Keep(Left(tags, keep), keep) == {} <==> keep >= 0 || !MoreThan(tags, -keep)
  {
    if keep >= 0 {
      PruneResumes(tags, keep, Names(tags) - Keep(tags, keep));
    } else {
      KeepsWhenMore(tags, Dev, keep);
      KeepsWhenMore(tags, Staging, keep);
      KeepsWhenMore(tags, Prod, keep);
      if MoreThan(tags, -keep) {
        var p := if |Builds(tags, Dev)| > -keep then Dev else if |Builds(tags, Staging)| > -keep then Staging else Prod;
        NegativeCountShrinks(tags, keep, p);
      } else {
        WithoutNames(tags, Names(tags) - Keep(tags, keep));
      }
    }
  }

  /** With a count of -1, of two builds one goes at each of two prunes. */
  lemma MinusOneTakesOneMore(at: int)
    ensures var tags := [Tag("dev-0000001", at, ""), Tag("dev-0000002", at, "")];
            Names(Left(tags, -1)) - Keep(Left(tags, -1), -1) != {}
  {
    assert "dev-0000001" == "dev-" + "0000001" && "dev-0000002" == "dev-" + "0000002";
    DevBuild("0000001");
    DevBuild("0000002");
    assert "0000001"[6] != "0000002"[6];
    TwoBuilds(Tag("dev-" + "0000001", at, ""), Tag("dev-" + "0000002", at, ""));
  }

  lemma TwoBuilds(a: Tag, b: Tag)
    requires IsBuildTag(a, Dev) && IsBuildTag(b, Dev) && a.name != b.name
    ensures Names(Left([a, b], -1)) - Keep(Left([a, b], -1), -1) != {}
  {
    assert Builds([], Dev) == [];
    BuildsSnoc([], a, Dev);
    BuildsSnoc([a], b, Dev);
    assert [] + [a] == [a] && [a] + [b] == [a, b];
    SecondPruneExactlyWhen([a, b], -1);
  }

  lemma DevBuild(sha: string)
    requires 7 <= |sha| <= 40 && IsHex(sha)
    ensures IsBuildOf("dev-" + sha, Dev) && !IsAlwaysKept("dev-" + sha)
  {
    var name := "dev-" + sha;
    assert name[|Dev.Text()|..] == sha;
    assert name[0] == 'd' && FirstDot(name) > 0 && name[..FirstDot(name)][0] == 'd';
  }
}
