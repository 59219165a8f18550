/** `raiseRanges` and `publishManifest`: how internal dependency ranges follow the released version. */
module Manifests {
  import opened Packages

  /** Answers whether npm has `name` at `version`. */
  type Oracle = (string, string) -> bool

  function RaisedEntry(e: Entry, versions: map<string, string>, isPublished: Oracle): Entry {
    if e.name in versions && e.range != "^" + versions[e.name] && isPublished(e.name, versions[e.name])
    then Entry(e.name, "^" + versions[e.name])
    else e
  }

  function RaisedEntries(es: seq<Entry>, versions: map<string, string>, isPublished: Oracle): (r: seq<Entry>) {
    seq(|es|, i requires 0 <= i < |es| => RaisedEntry(es[i], versions, isPublished))
  }

  function RaisedManifest(m: Manifest, versions: map<string, string>, isPublished: Oracle): Manifest {
    m.(ranges := map f | f in m.ranges :: RaisedEntries(m.ranges[f], versions, isPublished))
  }

  function Raised(pkgs: seq<Package>, isPublished: Oracle): seq<Package> {
    var versions := Versions(pkgs);
    seq(|pkgs|, i requires 0 <= i < |pkgs| =>
      Package(pkgs[i].dir, RaisedManifest(pkgs[i].manifest, versions, isPublished)))
  }

  /** The directories whose manifest differs, in list order. */
  function ChangedDirs(before: seq<Package>, after: seq<Package>): seq<string>
    requires |before| == |after|
  {
    if before == [] then []
    else
      var k := |before| - 1;
      ChangedDirs(before[..k], after[..k]) + (if before[k].manifest != after[k].manifest then [before[k].dir] else [])
  }

  lemma ChangedOneMore(before: seq<Package>, after: seq<Package>, i: nat)
    requires |before| == |after| && i < |before|
    ensures ChangedDirs(before[..i + 1], after[..i + 1]) ==
      ChangedDirs(before[..i], after[..i]) + (if before[i].manifest != after[i].manifest then [before[i].dir] else [])
  {
    assert before[..i + 1][..i] == before[..i] && after[..i + 1][..i] == after[..i];
  }

  /** The version a package of version `v` is published as; an empty `prerelease` is none. */
  function PublishVersion(v: string, prerelease: string): string {
    if prerelease == "" then v else v + "-" + prerelease
  }

  function PublishedEntry(e: Entry, versions: map<string, string>, prerelease: string): Entry {
    if e.name in versions
    then Entry(e.name, (if prerelease == "" then "^" else "") + PublishVersion(versions[e.name], prerelease))
    else e
  }

  function PublishedEntries(es: seq<Entry>, versions: map<string, string>, prerelease: string): seq<Entry> {
    seq(|es|, i requires 0 <= i < |es| => PublishedEntry(es[i], versions, prerelease))
  }

  function Published(m: Manifest, versions: map<string, string>, prerelease: string): Manifest {
    m.(version := PublishVersion(m.version, prerelease),
       ranges := map f | f in m.ranges :: PublishedEntries(m.ranges[f], versions, prerelease))
  }

  /** `m` with the entries of the fields in `fields` rewritten by `rewrite`. */
  function MapFields(m: Manifest, fields: seq<Field>, rewrite: seq<Entry> -> seq<Entry>): Manifest {
    m.(ranges := map f | f in m.ranges :: if f in fields then rewrite(m.ranges[f]) else m.ranges[f])
  }

  /** `m` with one field's entries replaced, if it has that field. */
  function WithEntries(m: Manifest, f: Field, es: seq<Entry>): Manifest {
    if f in m.ranges then m.(ranges := m.ranges[f := es]) else m
  }

  lemma MapNoFields(m: Manifest, rewrite: seq<Entry> -> seq<Entry>)
    ensures MapFields(m, INTERNAL_FIELDS[..0], rewrite) == m
  {
    assert MapFields(m, INTERNAL_FIELDS[..0], rewrite).ranges == m.ranges;
  }

  lemma FieldsDistinct(i: nat)
    requires i < |INTERNAL_FIELDS|
    ensures INTERNAL_FIELDS[i] !in INTERNAL_FIELDS[..i] &&
            INTERNAL_FIELDS[..i + 1] == INTERNAL_FIELDS[..i] + [INTERNAL_FIELDS[i]]
  {}

  lemma MapOneMoreField(m: Manifest, i: nat, rewrite: seq<Entry> -> seq<Entry>)
    requires i < |INTERNAL_FIELDS| && rewrite([]) == []
    ensures var part, f := MapFields(m, INTERNAL_FIELDS[..i], rewrite), INTERNAL_FIELDS[i];
            && Entries(part, f) == Entries(m, f)
            && MapFields(m, INTERNAL_FIELDS[..i + 1], rewrite) == WithEntries(part, f, rewrite(Entries(m, f)))
  {
    var done, f := INTERNAL_FIELDS[..i], INTERNAL_FIELDS[i];
    FieldsDistinct(i);
    var part, next := MapFields(m, done, rewrite), MapFields(m, done + [f], rewrite);
    assert next.ranges == WithEntries(part, f, rewrite(Entries(m, f))).ranges;
  }

  /** The part rewritten so far differs as soon as one of its fields does. */
  lemma MapDiffers(m: Manifest, fields: seq<Field>, rewrite: seq<Entry> -> seq<Entry>)
    ensures MapFields(m, fields, rewrite) != m <==>
            exists f :: f in fields && f in m.ranges && rewrite(m.ranges[f]) != m.ranges[f]
  {
    var part := MapFields(m, fields, rewrite);
    if f :| f in fields && f in m.ranges && rewrite(m.ranges[f]) != m.ranges[f] {
      assert part.ranges[f] != m.ranges[f];
    } else {
      assert part.ranges == m.ranges;
    }
  }

  lemma MapOneMoreDiffers(m: Manifest, i: nat, rewrite: seq<Entry> -> seq<Entry>)
    requires i < |INTERNAL_FIELDS| && rewrite([]) == []
    ensures MapFields(m, INTERNAL_FIELDS[..i + 1], rewrite) != m <==>
            MapFields(m, INTERNAL_FIELDS[..i], rewrite) != m
            || rewrite(Entries(m, INTERNAL_FIELDS[i])) != Entries(m, INTERNAL_FIELDS[i])
  {
    FieldsDistinct(i);
    MapDiffers(m, INTERNAL_FIELDS[..i], rewrite);
    MapDiffers(m, INTERNAL_FIELDS[..i + 1], rewrite);
  }

  lemma MapAllFields(m: Manifest, rewrite: seq<Entry> -> seq<Entry>)
    ensures MapFields(m, INTERNAL_FIELDS[..|INTERNAL_FIELDS|], rewrite) ==
            m.(ranges := map f | f in m.ranges :: rewrite(m.ranges[f]))
  {
    assert INTERNAL_FIELDS[..|INTERNAL_FIELDS|] == INTERNAL_FIELDS;
    forall f: Field {
      EveryFieldListed(f);
    }
    assert MapFields(m, INTERNAL_FIELDS, rewrite).ranges == map f | f in m.ranges :: rewrite(m.ranges[f]);
  }

  /** The manifest a package is published with. */
  method PublishManifest(manifest: Manifest, versions: map<string, string>, prerelease: string) returns (out: Manifest)
    ensures out == Published(manifest, versions, prerelease)
  {
    out := manifest;
    if prerelease != "" {
      out := out.(version := manifest.version + "-" + prerelease);
    }
    out := PublishRanges(out, versions, prerelease);
  }

  method PublishRanges(manifest: Manifest, versions: map<string, string>, prerelease: string) returns (out: Manifest)
    ensures out == manifest.(ranges :=
              map f | f in manifest.ranges :: PublishedEntries(manifest.ranges[f], versions, prerelease))
  {
    out := manifest;
    ghost var rewrite: seq<Entry> -> seq<Entry> := es => PublishedEntries(es, versions, prerelease);
    MapNoFields(manifest, rewrite);
    for i := 0 to |INTERNAL_FIELDS|
      invariant out == MapFields(manifest, INTERNAL_FIELDS[..i], rewrite)
    {
      MapOneMoreField(manifest, i, rewrite);
      var es := PublishEntries(Entries(out, INTERNAL_FIELDS[i]), versions, prerelease);
      out := WithEntries(out, INTERNAL_FIELDS[i], es);
    }
    MapAllFields(manifest, rewrite);
  }

  method PublishEntries(entries: seq<Entry>, versions: map<string, string>, prerelease: string) returns (es: seq<Entry>)
    ensures es == PublishedEntries(entries, versions, prerelease)
  {
    es := entries;
    for j := 0 to |entries|
      invariant |es| == |entries|
      invariant forall k :: 0 <= k < |es| ==>
                es[k] == if k < j then PublishedEntry(entries[k], versions, prerelease) else entries[k]
    {
      var name := es[j].name;
      if name in versions {
        var range := if prerelease != "" then versions[name] + "-" + prerelease else "^" + versions[name];
        es := es[j := Entry(name, range)];
      }
    }
  }

  /** The package.json files under packages/. */
  class Workspace {
    var pkgs: seq<Package>

    /**
     * Set every internal range to ^<that package's version>, where npm has
     * it. Returns the directories it changed.
     */
    method RaiseRanges(isPublished: Oracle) returns (changed: seq<string>)
      modifies this
      ensures pkgs == Raised(old(pkgs), isPublished)
      ensures changed == ChangedDirs(old(pkgs), pkgs)
    {
      var versions := Versions(pkgs);
      changed := [];
      ghost var all, target := pkgs, Raised(pkgs, isPublished);
      for i := 0 to |pkgs|
        invariant pkgs == target[..i] + all[i..]
        invariant changed == ChangedDirs(all[..i], target[..i])
      {
        var m, touched := RaiseManifest(pkgs[i].manifest, versions, isPublished);
        assert Package(pkgs[i].dir, m) == target[i];
        if touched {
          pkgs := pkgs[i := Package(pkgs[i].dir, m)];
          changed := changed + [pkgs[i].dir];
        }
        OneMoreRaised(all, target, i);
        ChangedOneMore(all, target, i);
      }
      assert target[..|pkgs|] + all[|pkgs|..] == target && all[..|pkgs|] == all && target[..|pkgs|] == target;
    }
  }

  lemma OneMoreRaised(all: seq<Package>, target: seq<Package>, i: nat)
    requires |all| == |target| && i < |all|
    ensures (target[..i] + all[i..])[i := target[i]] == target[..i + 1] + all[i + 1..]
    ensures all[i] == target[i] ==> target[..i] + all[i..] == target[..i + 1] + all[i + 1..]
  {}

  method RaiseManifest(manifest: Manifest, versions: map<string, string>, isPublished: Oracle)
    returns (m: Manifest, touched: bool)
    ensures m == RaisedManifest(manifest, versions, isPublished)
    ensures touched <==> m != manifest
  {
    m, touched := manifest, false;
    ghost var rewrite: seq<Entry> -> seq<Entry> := es => RaisedEntries(es, versions, isPublished);
    MapNoFields(manifest, rewrite);
    for i := 0 to |INTERNAL_FIELDS|
      invariant m == MapFields(manifest, INTERNAL_FIELDS[..i], rewrite)
      invariant touched <==> m != manifest
    {
      MapOneMoreField(manifest, i, rewrite);
      MapOneMoreDiffers(manifest, i, rewrite);
      var es, t := RaiseEntries(Entries(m, INTERNAL_FIELDS[i]), versions, isPublished);
      m := WithEntries(m, INTERNAL_FIELDS[i], es);
      touched := touched || t;
    }
    MapAllFields(manifest, rewrite);
  }

  method RaiseEntries(entries: seq<Entry>, versions: map<string, string>, isPublished: Oracle)
    returns (es: seq<Entry>, touched: bool)
    ensures es == RaisedEntries(entries, versions, isPublished)
    ensures touched <==> es != entries
  {
    es, touched := entries, false;
    for j := 0 to |entries|
      invariant |es| == |entries|
      invariant forall k :: 0 <= k < |es| ==>
                es[k] == if k < j then RaisedEntry(entries[k], versions, isPublished) else entries[k]
      invariant touched <==> exists k :: 0 <= k < j && es[k] != entries[k]
    {
      var name := es[j].name;
      if name !in versions {
        continue;
      }
      var want := "^" + versions[name];
      if es[j].range == want {
        continue;
      }
      if !isPublished(name, versions[name]) {
        continue;
      }
      es := es[j := Entry(name, want)];
      touched := true;
      assert es[j] != entries[j];
    }
  }

  // ---- what the two promise ----

  /** Raising moves nothing but ranges: directories, versions and all other content stay. */
  lemma {:induction false} RaisedKeepsVersions(pkgs: seq<Package>, isPublished: Oracle)
    ensures Versions(Raised(pkgs, isPublished)) == Versions(pkgs)
  {
    VersionsIgnoreRanges(pkgs, Raised(pkgs, isPublished));
  }

  lemma {:induction false} VersionsIgnoreRanges(a: seq<Package>, b: seq<Package>)
    requires |a| == |b|
    requires forall i :: 0 <= i < |a| ==> a[i].Name() == b[i].Name() && a[i].manifest.version == b[i].manifest.version
    ensures Versions(a) == Versions(b)
  {
    if a != [] {
      VersionsIgnoreRanges(a[..|a| - 1], b[..|b| - 1]);
    }
  }

  /** An entry keeps its place and its name, and one naming no package of the workspace keeps its range. */
  lemma RaisedTouchesOnlyInternal(pkgs: seq<Package>, isPublished: Oracle, i: nat, f: Field, k: nat)
    requires i < |pkgs| && k < |Entries(pkgs[i].manifest, f)|
    ensures var before, after := pkgs[i].manifest, Raised(pkgs, isPublished)[i].manifest;
            && after.(ranges := before.ranges) == before
            && after.ranges.Keys == before.ranges.Keys
            && |Entries(after, f)| == |Entries(before, f)|
            && Entries(after, f)[k].name == Entries(before, f)[k].name
            && (Entries(after, f)[k] != Entries(before, f)[k] <==>
                var e := Entries(before, f)[k];
                && e.name in Versions(pkgs) && e.range != "^" + Versions(pkgs)[e.name]
                && isPublished(e.name, Versions(pkgs)[e.name]))
  {}

  lemma {:induction false} VersionsDomain(pkgs: seq<Package>)
    ensures Versions(pkgs).Keys == Names(pkgs)
  {
    if pkgs != [] {
      var k := |pkgs| - 1;
      assert pkgs == pkgs[..k] + [pkgs[k]];
      VersionsDomain(pkgs[..k]);
    }
  }

  lemma {:induction false} VersionOfListed(pkgs: seq<Package>, p: Package)
    requires DistinctNames(pkgs) && p in pkgs
    ensures p.Name() in Versions(pkgs) && Versions(pkgs)[p.Name()] == p.manifest.version
  {
    var k := |pkgs| - 1;
    assert pkgs == pkgs[..k] + [pkgs[k]];
    if p != pkgs[k] {
      VersionOfListed(pkgs[..k], p);
    }
  }

  /**
   * Raising again under the same answers changes nothing; under more answers it
   * gives what raising once with them gives.
   */
  lemma RaisingCatchesUp(pkgs: seq<Package>, first: Oracle, later: Oracle)
    requires forall n, v :: first(n, v) ==> later(n, v)
    ensures Raised(Raised(pkgs, first), later) == Raised(pkgs, later)
  {
    RaisedKeepsVersions(pkgs, first);
    var versions := Versions(pkgs);
    var once, twice := Raised(pkgs, later), Raised(Raised(pkgs, first), later);
    forall i | 0 <= i < |pkgs|
      ensures once[i] == twice[i]
    {
      var m := pkgs[i].manifest;
      forall f | f in m.ranges
        ensures RaisedEntries(RaisedEntries(m.ranges[f], versions, first), versions, later) ==
                RaisedEntries(m.ranges[f], versions, later)
      {}
      assert once[i].manifest.ranges == twice[i].manifest.ranges;
    }
  }

  lemma {:induction false} SameManifestsNoChange(a: seq<Package>)
    ensures ChangedDirs(a, a) == []
  {
    if a != [] {
      SameManifestsNoChange(a[..|a| - 1]);
    }
  }

  /** A second raise under the same answers reports no directory. */
  lemma SecondRaiseReportsNothing(pkgs: seq<Package>, isPublished: Oracle)
    ensures var once := Raised(pkgs, isPublished); ChangedDirs(once, Raised(once, isPublished)) == []
  {
    RaisingCatchesUp(pkgs, isPublished, isPublished);
    SameManifestsNoChange(Raised(pkgs, isPublished));
  }

  /** Publishing leaves a manifest as it is exactly when each internal range already names the released version. */
  lemma PublishedIsIdentity(m: Manifest, versions: map<string, string>)
    ensures Published(m, versions, "") == m <==>
            forall f, e :: f in m.ranges && e in m.ranges[f] && e.name in versions ==> e.range == "^" + versions[e.name]
  {
    var out := Published(m, versions, "");
    if out == m {
      forall f, e | f in m.ranges && e in m.ranges[f] && e.name in versions
        ensures e.range == "^" + versions[e.name]
      {
        var k :| 0 <= k < |m.ranges[f]| && m.ranges[f][k] == e;
        assert out.ranges[f][k] == PublishedEntry(e, versions, "");
      }
    }
    if forall f, e :: f in m.ranges && e in m.ranges[f] && e.name in versions ==> e.range == "^" + versions[e.name] {
      forall f | f in m.ranges
        ensures PublishedEntries(m.ranges[f], versions, "") == m.ranges[f]
      {
        forall k | 0 <= k < |m.ranges[f]|
          ensures PublishedEntry(m.ranges[f][k], versions, "") == m.ranges[f][k]
        {
          assert m.ranges[f][k] in m.ranges[f];
        }
      }
      assert out.ranges == m.ranges;
    }
  }

  /** Once npm has every version, the committed manifests are the published ones. */
  lemma RaisedIsPublished(pkgs: seq<Package>, i: nat)
    requires i < |pkgs|
    ensures var raised := Raised(pkgs, (n, v) => true);
            && Published(raised[i].manifest, Versions(raised), "") == raised[i].manifest
            && raised[i].manifest == Published(pkgs[i].manifest, Versions(pkgs), "")
  {
    var all: Oracle := (n, v) => true;
    var raised, versions, m := Raised(pkgs, all), Versions(pkgs), pkgs[i].manifest;
    RaisedKeepsVersions(pkgs, all);
    forall f | f in m.ranges
      ensures RaisedEntries(m.ranges[f], versions, all) == PublishedEntries(m.ranges[f], versions, "")
    {}
    assert raised[i].manifest.ranges == Published(m, versions, "").ranges;
    PublishedTwice(m, versions);
  }

  lemma PublishedTwice(m: Manifest, versions: map<string, string>)
    ensures Published(Published(m, versions, ""), versions, "") == Published(m, versions, "")
  {
    var once := Published(m, versions, "");
    forall f | f in m.ranges
      ensures PublishedEntries(PublishedEntries(m.ranges[f], versions, ""), versions, "") ==
              PublishedEntries(m.ranges[f], versions, "")
    {}
    assert Published(once, versions, "").ranges == once.ranges;
  }

  /**
   * In the published manifests each internal dependency names the version its
   * package is published as: exactly for a prerelease, with a caret otherwise.
   */
  lemma PublishedNamesPublished(pkgs: seq<Package>, prerelease: string, p: Package, q: Package, f: Field, k: nat)
    requires DistinctNames(pkgs) && p in pkgs && q in pkgs
    requires k < |Entries(p.manifest, f)| && Entries(p.manifest, f)[k].name == q.Name()
    ensures var out := Published(p.manifest, Versions(pkgs), prerelease);
            && k < |Entries(out, f)|
            && Entries(out, f)[k].name == q.Name()
            && Entries(out, f)[k].range ==
               (if prerelease == "" then "^" else "") + Published(q.manifest, Versions(pkgs), prerelease).version
  {
    VersionOfListed(pkgs, q);
  }

  /**
   * Publishing adds the suffix to the version after a hyphen and moves the
   * ranges of internal dependencies; name, fields, entry order and the ranges
   * of all others stay.
   */
  lemma PublishedTouchesOnlyInternal(m: Manifest, versions: map<string, string>, prerelease: string)
    ensures var out := Published(m, versions, prerelease);
            && out.name == m.name && out.rest == m.rest && out.ranges.Keys == m.ranges.Keys
            && out.version == (if prerelease == "" then m.version else m.version + "-" + prerelease)
            && forall f, k :: f in m.ranges && 0 <= k < |m.ranges[f]| ==>
                 && k < |out.ranges[f]| == |m.ranges[f]| && out.ranges[f][k].name == m.ranges[f][k].name
                 && (m.ranges[f][k].name !in versions ==> out.ranges[f][k] == m.ranges[f][k])
  {}

  /** For one: 1.2.3 is published with `^1.2.3`, and as 1.2.3-rc.1 with 1.2.3-rc.1. */
  lemma PublishedExample()
    ensures var m := Manifest("a", "1.2.3", map[Dependencies := [Entry("b", "^1.0.0")]], "");
            && Published(m, map["b" := "1.2.3"], "") ==
               Manifest("a", "1.2.3", map[Dependencies := [Entry("b", "^1.2.3")]], "")
            && Published(m, map["b" := "1.2.3"], "rc.1") ==
               Manifest("a", "1.2.3-rc.1", map[Dependencies := [Entry("b", "1.2.3-rc.1")]], "")
  {
    var es, versions := [Entry("b", "^1.0.0")], map["b" := "1.2.3"];
    assert PublishVersion("1.2.3", "rc.1") == "1.2.3-rc.1";
    assert "^" + "1.2.3" == "^1.2.3" && "" + "1.2.3-rc.1" == "1.2.3-rc.1";
    assert PublishedEntry(es[0], versions, "") == Entry("b", "^1.2.3");
    assert PublishedEntry(es[0], versions, "rc.1") == Entry("b", "1.2.3-rc.1");
    assert PublishedEntries(es, versions, "") == [Entry("b", "^1.2.3")];
    assert PublishedEntries(es, versions, "rc.1") == [Entry("b", "1.2.3-rc.1")];
    var m := Manifest("a", "1.2.3", map[Dependencies := es], "");
    assert Published(m, versions, "").ranges == map[Dependencies := PublishedEntries(es, versions, "")];
    assert Published(m, versions, "rc.1").ranges == map[Dependencies := PublishedEntries(es, versions, "rc.1")];
  }

  /** Neither raising nor publishing changes which packages a package depends on. */
  lemma PublishedKeepsDeps(m: Manifest, versions: map<string, string>, prerelease: string, names: set<string>)
    ensures InternalDeps(Published(m, versions, prerelease), names) == InternalDeps(m, names)
  {
    SameEntryNames(m, Published(m, versions, prerelease), names);
  }

  lemma RaisedKeepsDeps(m: Manifest, versions: map<string, string>, isPublished: Oracle, names: set<string>)
    ensures InternalDeps(RaisedManifest(m, versions, isPublished), names) == InternalDeps(m, names)
  {
    SameEntryNames(m, RaisedManifest(m, versions, isPublished), names);
  }

  lemma SameEntryNames(a: Manifest, b: Manifest, names: set<string>)
    requires forall f :: |Entries(a, f)| == |Entries(b, f)|
    requires forall f, k :: 0 <= k < |Entries(a, f)| ==> Entries(a, f)[k].name == Entries(b, f)[k].name
    ensures InternalDeps(a, names) == InternalDeps(b, names)
  {
    forall n | n in InternalDeps(a, names)
      ensures n in InternalDeps(b, names)
    {
      var f, e :| f in INTERNAL_FIELDS && e in Entries(a, f) && e.name == n;
      var k :| 0 <= k < |Entries(a, f)| && Entries(a, f)[k] == e;
      assert Entries(b, f)[k] in Entries(b, f);
    }
    forall n | n in InternalDeps(b, names)
      ensures n in InternalDeps(a, names)
    {
      var f, e :| f in INTERNAL_FIELDS && e in Entries(b, f) && e.name == n;
      var k :| 0 <= k < |Entries(b, f)| && Entries(b, f)[k] == e;
      assert Entries(a, f)[k] in Entries(a, f);
    }
  }
}
