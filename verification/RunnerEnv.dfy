/** `pinRunnerEnv`: the runner-env image references follow the pushed digests of the Dockerfile's version. */
module RunnerEnv {

  type Digits = s: string | s != "" && forall c :: c in s ==> '0' <= c <= '9' witness "0"

  /** The x.y.z of a reference, as written. */
  datatype Version = Version(major: Digits, minor: Digits, patch: Digits) {
    function Text(): string { major + "." + minor + "." + patch }
  }

  function Number(s: Digits): nat {
    if |s| == 1 then (s[0] - '0') as nat
    else 10 * Number(s[..|s| - 1]) + (s[|s| - 1] - '0') as nat
  }

  /** `semver`: the three numbers. */
  function Semver(v: Version): (nat, nat, nat) {
    (Number(v.major), Number(v.minor), Number(v.patch))
  }

  /** `x[0] - y[0] || x[1] - y[1] || x[2] - y[2]`, which `older` and `compare` both are. */
  function Compare(x: (nat, nat, nat), y: (nat, nat, nat)): int {
    if x.0 != y.0 then x.0 - y.0 else if x.1 != y.1 then x.1 - y.1 else x.2 - y.2
  }

  /** A component of the Dockerfile's version after `Number`, which takes any text. */
  datatype Part = NaN | Num(x: real) | PlusInfinity | MinusInfinity

  /**
   * The Dockerfile's RUNNER_VERSION: none, an exact x.y.z, a text of flavour
   * characters followed by one (`rc-1.2.3`, whose first part is then `rc-1`),
   * or any other text split at its dots.
   */
  datatype Pin =
    | Missing
    | Exact(version: Version)
    | Prefixed(prefix: string, version: Version)
    | Loose(text: string, parts: seq<Part>)
  {
    function Text(): string {
      match this
      case Missing => "undefined"
      case Exact(v) => v.Text()
      case Prefixed(prefix, v) => prefix + "-" + v.Text()
      case Loose(text, _) => text
    }

    /** `semver` of the text. */
    function Parts(): seq<Part>
      requires !Missing?
    {
      match this
      case Exact(v) => [AsPart(v.major), AsPart(v.minor), AsPart(v.patch)]
      case Prefixed(prefix, v) => [FirstPart(prefix, v.major), AsPart(v.minor), AsPart(v.patch)]
      case Loose(_, parts) => parts
    }
  }

  function AsPart(s: Digits): Part {
    Num(Number(s) as real)
  }

  predicate IsDigits(s: string) {
    s != "" && forall c :: c in s ==> '0' <= c <= '9'
  }

  /** `<m>e-<places>`: the decimal point moves that many places. */
  function Scientific(m: nat, places: nat): real {
    if places == 0 then m as real else Scientific(m, places - 1) / 10.0
  }

  /** `<digits>e` or `<digits>E`. */
  predicate IsScientific(s: string) {
    |s| >= 2 && s[|s| - 1] in "eE" && IsDigits(s[..|s| - 1])
  }

  /**
   * `Number` of a prefix, a hyphen and digits: a number if the hyphen is a
   * sign, or the sign of an exponent.
   */
  function FirstPart(prefix: string, major: Digits): Part {
    if prefix == "" then Num(-(Number(major) as real))
    else if IsScientific(prefix) then Num(Scientific(Number(prefix[..|prefix| - 1]), Number(major)))
    else if prefix[0] == '-' && IsScientific(prefix[1..]) then
      Num(-Scientific(Number(prefix[1..][..|prefix| - 2]), Number(major)))
    else NaN
  }

  function PartAt(parts: seq<Part>, i: nat): Part {
    if i < |parts| then parts[i] else NaN
  }

  /** Whether `n - part` is falsy: zero, or not a number. */
  predicate FalsyDifference(n: nat, part: Part) {
    part.NaN? || (part.Num? && n as real == part.x)
  }

  predicate LessThan(n: nat, part: Part) {
    part.PlusInfinity? || (part.Num? && n as real < part.x)
  }

  /** `older(v, pin) < 0`, where the difference of anything and NaN is falsy and never below 0. */
  predicate IsOlder(v: Version, pin: Pin)
    requires !pin.Missing?
  {
    var x, parts := Semver(v), pin.Parts();
    if !FalsyDifference(x.0, PartAt(parts, 0)) then LessThan(x.0, PartAt(parts, 0))
    else if !FalsyDifference(x.1, PartAt(parts, 1)) then LessThan(x.1, PartAt(parts, 1))
    else LessThan(x.2, PartAt(parts, 2))
  }

  predicate IsHex(c: char) {
    '0' <= c <= '9' || 'a' <= c <= 'f'
  }

  predicate IsDigest(d: string) {
    |d| == 71 && d[..7] == "sha256:" && forall i :: 7 <= i < 71 ==> IsHex(d[i])
  }

  /**
   * A file as its image references and the text between them. A reference
   * without a digest is not one the tool looks for.
   */
  datatype Segment =
    | Text(text: string)
    | Ref(flavour: string, version: Version, digest: string)
    | Bare(flavour: string, version: Version)

  datatype File = File(path: string, segments: seq<Segment>)

  function Tag(flavour: string, pin: Pin): string {
    "almyty/runner-env:" + flavour + "-" + pin.Text()
  }

  type Digest = d: string | d == "" || IsDigest(d) witness ""

  /** The digest of a pushed tag, or "" for null when it has not been pushed. */
  type Registry = string -> Digest

  predicate IsStale(s: Segment, pin: Pin)
    requires !pin.Missing?
  {
    s.Ref? && IsOlder(s.version, pin)
  }

  /**
   * What `${tag}@${digest}` reads as: a reference again, if the version ends
   * in x.y.z; what stands before that goes to the flavour.
   */
  function Pinned(flavour: string, pin: Pin, digest: Digest): Segment {
    if pin.Exact? && digest != "" then Ref(flavour, pin.version, digest)
    else if pin.Prefixed? && digest != "" then Ref(flavour + "-" + pin.prefix, pin.version, digest)
    else Text(Tag(flavour, pin) + "@" + digest)
  }

  function Repinned(s: Segment, pin: Pin, digestOf: Registry): Segment
    requires !pin.Missing?
  {
    if IsStale(s, pin) then Pinned(s.flavour, pin, digestOf(Tag(s.flavour, pin))) else s
  }

  function RepinnedAll(ss: seq<Segment>, pin: Pin, digestOf: Registry): seq<Segment>
    requires !pin.Missing?
  {
    seq(|ss|, i requires 0 <= i < |ss| => Repinned(ss[i], pin, digestOf))
  }

  function RepinnedFiles(files: seq<File>, pin: Pin, digestOf: Registry): seq<File>
    requires !pin.Missing?
  {
    seq(|files|, i requires 0 <= i < |files| => File(files[i].path, RepinnedAll(files[i].segments, pin, digestOf)))
  }

  function ChangedPaths(before: seq<File>, after: seq<File>): seq<string>
    requires |before| == |after|
  {
    if before == [] then []
    else
      var k := |before| - 1;
      ChangedPaths(before[..k], after[..k]) + (if before[k] != after[k] then [before[k].path] else [])
  }

  function StaleIn(ss: seq<Segment>, pin: Pin): set<Segment>
    requires !pin.Missing?
  {
    set s | s in ss && IsStale(s, pin)
  }

  function StaleRefs(files: seq<File>, pin: Pin): set<Segment>
    requires !pin.Missing?
  {
    set f, s | f in files && s in f.segments && IsStale(s, pin) :: s
  }

  predicate HasRef(files: seq<File>) {
    exists f :: f in files && exists s :: s in f.segments && s.Ref?
  }

  function MissingTags(files: seq<File>, pin: Pin, digestOf: Registry): set<string>
    requires !pin.Missing?
  {
    MissingOf(StaleRefs(files, pin), pin, digestOf)
  }

  /** The tags of `stale` references' flavours that have not been pushed. */
  function MissingOf(stale: set<Segment>, pin: Pin, digestOf: Registry): set<string>
    requires forall s :: s in stale ==> s.Ref?
  {
    set s | s in stale && digestOf(Tag(s.flavour, pin)) == "" :: Tag(s.flavour, pin)
  }

  /** The tool throws when there is a reference but no version to compare it with. */
  datatype PinResult = Crashed | Result(changed: seq<string>, missing: set<string>)

  /** The files that name runner-env images. */
  class Checkout {
    var files: seq<File>

    /**
     * Rewrite every reference older than the Dockerfile's version to that
     * version's pushed digest; if any flavour has not been pushed, nothing.
     */
    method PinRunnerEnv(pin: Pin, digestOf: Registry) returns (r: PinResult)
      modifies this
      ensures r.Crashed? <==> pin.Missing? && HasRef(old(files))
      ensures r.Crashed? || pin.Missing? ==> files == old(files)
      ensures !pin.Missing? ==>
        && r.Result?
        && r.missing == MissingTags(old(files), pin, digestOf)
        && files == (if r.missing == {} then RepinnedFiles(old(files), pin, digestOf) else old(files))
        && r.changed == ChangedPaths(old(files), files)
      ensures pin.Missing? && r.Result? ==> r == Result([], {})
    {
      if pin.Missing? {
        return if HasRef(files) then Crashed else Result([], {});
      }
      var stale := CollectStale(pin);
      if stale == {} {
        NothingStale(files, pin, digestOf);
        return Result([], {});
      }
      var replacement, missing := AskRegistry(stale, pin, digestOf);
      if missing != {} {
        SameFilesNoChange(files);
        return Result([], missing);
      }
      ReplacementRepins(files, pin, digestOf, replacement);
      var changed := WriteAll(replacement);
      r := Result(changed, missing);
    }

    method CollectStale(pin: Pin) returns (stale: set<Segment>)
      requires !pin.Missing?
      ensures stale == StaleRefs(files, pin)
    {
      stale := {};
      for i := 0 to |files|
        invariant stale == StaleRefs(files[..i], pin)
      {
        stale := AddStale(files[i].segments, pin, stale);
        assert files[..i + 1] == files[..i] + [files[i]];
        StaleInOneMoreFile(files[..i], files[i], pin);
      }
      assert files[..|files|] == files;
    }

    method WriteAll(replacement: map<Segment, Segment>) returns (changed: seq<string>)
      modifies this
      ensures files == ReplacedFiles(old(files), replacement)
      ensures changed == ChangedPaths(old(files), files)
    {
      changed := [];
      ghost var all, target := files, ReplacedFiles(files, replacement);
      for i := 0 to |files|
        invariant |files| == |all|
        invariant forall k :: 0 <= k < i ==> files[k] == target[k]
        invariant forall k :: i <= k < |all| ==> files[k] == all[k]
        invariant changed == ChangedPaths(all[..i], target[..i])
      {
        var next := ReplaceIn(files[i].segments, replacement);
        OneMoreFile(all, target, i);
        if next != files[i].segments {
          changed := changed + [files[i].path];
          files := files[i := File(files[i].path, next)];
        }
      }
      assert files == target;
      assert target[..|files|] == target && all[..|files|] == all;
    }
  }

  /** `for (const m of text.matchAll(REF)) if (older(m[2], version) < 0) stale.set(m[0], m[1])`. */
  method AddStale(segments: seq<Segment>, pin: Pin, before: set<Segment>) returns (stale: set<Segment>)
    requires !pin.Missing?
    ensures stale == before + StaleIn(segments, pin)
  {
    stale := before;
    for j := 0 to |segments|
      invariant stale == before + StaleIn(segments[..j], pin)
    {
      assert segments[..j + 1] == segments[..j] + [segments[j]];
      StaleInOneMore(segments[..j], segments[j], pin);
      if segments[j].Ref? && IsOlder(segments[j].version, pin) {
        stale := stale + {segments[j]};
      }
    }
    assert segments[..|segments|] == segments;
  }

  lemma StaleInOneMore(ss: seq<Segment>, s: Segment, pin: Pin)
    requires !pin.Missing?
    ensures StaleIn(ss + [s], pin) == StaleIn(ss, pin) + (if IsStale(s, pin) then {s} else {})
  {}

  lemma StaleInOneMoreFile(files: seq<File>, f: File, pin: Pin)
    requires !pin.Missing?
    ensures StaleRefs(files + [f], pin) == StaleRefs(files, pin) + StaleIn(f.segments, pin)
  {}

  function ReplacedFiles(files: seq<File>, replacement: map<Segment, Segment>): seq<File> {
    seq(|files|, i requires 0 <= i < |files| => File(files[i].path, Replaced(files[i].segments, replacement)))
  }

  function Replaced(ss: seq<Segment>, replacement: map<Segment, Segment>): seq<Segment> {
    seq(|ss|, i requires 0 <= i < |ss| => if ss[i] in replacement then replacement[ss[i]] else ss[i])
  }

  /** What to put in place of each stale reference. */
  ghost predicate IsReplacement(replacement: map<Segment, Segment>, stale: set<Segment>, pin: Pin, digestOf: Registry) {
    && replacement.Keys == stale
    && forall s :: s in stale ==> s.Ref? && replacement[s] == Pinned(s.flavour, pin, digestOf(Tag(s.flavour, pin)))
  }

  /** Look up the digest of every stale reference's new tag. */
  method AskRegistry(stale: set<Segment>, pin: Pin, digestOf: Registry)
    returns (replacement: map<Segment, Segment>, missing: set<string>)
    requires forall s :: s in stale ==> s.Ref?
    ensures missing == MissingOf(stale, pin, digestOf)
    ensures missing == {} ==> IsReplacement(replacement, stale, pin, digestOf)
  {
    replacement, missing := map[], {};
    var rest := stale;
    while rest != {}
      invariant rest <= stale
      invariant missing == MissingOf(stale - rest, pin, digestOf)
      invariant missing == {} ==> IsReplacement(replacement, stale - rest, pin, digestOf)
      decreases rest
    {
      var ref :| ref in rest;
      var tag := Tag(ref.flavour, pin);
      var digest := digestOf(tag);
      assert stale - (rest - {ref}) == stale - rest + {ref};
      MissingOneMore(stale - rest, ref, pin, digestOf);
      if digest == "" {
        missing := missing + {tag};
      } else {
        replacement := replacement[ref := Pinned(ref.flavour, pin, digest)];
      }
      rest := rest - {ref};
    }
    assert stale - rest == stale;
  }

  lemma MissingOneMore(stale: set<Segment>, ref: Segment, pin: Pin, digestOf: Registry)
    requires ref.Ref? && forall s :: s in stale ==> s.Ref?
    ensures MissingOf(stale + {ref}, pin, digestOf) ==
            MissingOf(stale, pin, digestOf) +
              (if digestOf(Tag(ref.flavour, pin)) == "" then {Tag(ref.flavour, pin)} else {})
  {}

  lemma AllAnswered(stale: set<Segment>, pin: Pin, digestOf: Registry)
    requires forall s :: s in stale ==> s.Ref?
    requires MissingOf(stale, pin, digestOf) == {}
    ensures forall s :: s in stale ==> digestOf(Tag(s.flavour, pin)) != ""
  {
    forall s | s in stale
      ensures digestOf(Tag(s.flavour, pin)) != ""
    {
      assert Tag(s.flavour, pin) !in MissingOf(stale, pin, digestOf);
    }
  }

  /** Replacing by reference is repinning: the replacement is one function of the reference. */
  lemma ReplacementRepins(files: seq<File>, pin: Pin, digestOf: Registry, replacement: map<Segment, Segment>)
    requires !pin.Missing?
    requires IsReplacement(replacement, StaleRefs(files, pin), pin, digestOf)
    ensures ReplacedFiles(files, replacement) == RepinnedFiles(files, pin, digestOf)
  {
    forall i | 0 <= i < |files|
      ensures Replaced(files[i].segments, replacement) == RepinnedAll(files[i].segments, pin, digestOf)
    {
      LookupRepins(files, i, pin);
      forall k | 0 <= k < |files[i].segments|
        ensures Replaced(files[i].segments, replacement)[k] == Repinned(files[i].segments[k], pin, digestOf)
      {
        assert files[i].segments[k] in files[i].segments;
      }
    }
  }

  lemma OneMoreFile(all: seq<File>, target: seq<File>, i: nat)
    requires |all| == |target| && i < |all|
    ensures ChangedPaths(all[..i + 1], target[..i + 1]) ==
            ChangedPaths(all[..i], target[..i]) + (if all[i] != target[i] then [all[i].path] else [])
  {
    assert all[..i + 1][..i] == all[..i] && target[..i + 1][..i] == target[..i];
  }

  /** `text.replace(REF, (ref) => replacement.get(ref) || ref)`. */
  method ReplaceIn(segments: seq<Segment>, replacement: map<Segment, Segment>) returns (next: seq<Segment>)
    ensures next == Replaced(segments, replacement)
  {
    next := segments;
    for i := 0 to |segments|
      invariant |next| == |segments|
      invariant forall k :: i <= k < |segments| ==> next[k] == segments[k]
      invariant forall k :: 0 <= k < i ==> next[k] == Replaced(segments, replacement)[k]
    {
      if next[i] in replacement {
        next := next[i := replacement[next[i]]];
      }
    }
  }

  lemma LookupRepins(files: seq<File>, i: nat, pin: Pin)
    requires !pin.Missing? && i < |files|
    ensures forall s :: s in files[i].segments ==> (s in StaleRefs(files, pin) <==> IsStale(s, pin))
  {
    assert files[i] in files;
  }

  lemma NothingStale(files: seq<File>, pin: Pin, digestOf: Registry)
    requires !pin.Missing? && StaleRefs(files, pin) == {}
    ensures RepinnedFiles(files, pin, digestOf) == files
    ensures ChangedPaths(files, files) == []
    ensures MissingTags(files, pin, digestOf) == {}
  {
    SameFilesNoChange(files);
    forall i | 0 <= i < |files|
      ensures RepinnedAll(files[i].segments, pin, digestOf) == files[i].segments
    {
      forall j | 0 <= j < |files[i].segments|
        ensures !IsStale(files[i].segments[j], pin)
      {
        assert files[i] in files && files[i].segments[j] in files[i].segments;
        assert files[i].segments[j] !in StaleRefs(files, pin);
      }
    }
  }

  lemma {:induction false} SameFilesNoChange(files: seq<File>)
    ensures ChangedPaths(files, files) == []
  {
    if files != [] {
      SameFilesNoChange(files[..|files| - 1]);
    }
  }

  /** What a segment reads as in its file. */
  function TextOf(s: Segment): string {
    match s
    case Text(text) => text
    case Ref(flavour, v, digest) => "almyty/runner-env:" + flavour + "-" + v.Text() + "@" + digest
    case Bare(flavour, v) => "almyty/runner-env:" + flavour + "-" + v.Text()
  }

  /** Whatever segment it reads as, the new text is the flavour, the Dockerfile's version as written, and the digest. */
  lemma PinnedText(s: Segment, pin: Pin, digestOf: Registry)
    requires !pin.Missing? && IsStale(s, pin)
    ensures TextOf(Repinned(s, pin, digestOf)) ==
            "almyty/runner-env:" + s.flavour + "-" + pin.Text() + "@" + digestOf(Tag(s.flavour, pin))
    ensures TextOf(Repinned(s, pin, digestOf)) == Tag(s.flavour, pin) + "@" + digestOf(Tag(s.flavour, pin))
  {
    if pin.Prefixed? {
      Joined("almyty/runner-env:" + s.flavour + "-", pin.prefix, "-", pin.version.Text());
      Joined("almyty/runner-env:", s.flavour, "-", pin.prefix);
    }
  }

  lemma Joined(a: string, b: string, c: string, d: string)
    ensures a + (b + c + d) == (a + b) + c + d
  {}

  /** A digest is `sha256:` and 64 hexadecimal digits in lower case. */
  lemma DigestAsWritten(d: string)
    ensures IsDigest(d) <==>
            exists hex :: |hex| == 64 && d == "sha256:" + hex && forall c :: c in hex ==> c in "0123456789abcdef"
  {
    if IsDigest(d) {
      var hex := d[7..];
      assert d == d[..7] + hex && forall i :: 0 <= i < 64 ==> hex[i] == d[7 + i];
    }
    if hex :| |hex| == 64 && d == "sha256:" + hex && forall c :: c in hex ==> c in "0123456789abcdef" {
      forall i | 7 <= i < 71
        ensures IsHex(d[i])
      {
        assert d[i] == hex[i - 7] && hex[i - 7] in hex;
      }
    }
  }

  // ---- what a pin leaves behind ----

  /** The version text, read back from a tag as x.y.z with a longer flavour, is older than itself. */
  predicate IsBehindItself(pin: Pin) {
    pin.Prefixed? && IsOlder(pin.version, pin)
  }

  /**
   * A segment is left alone unless it is a stale reference. That one keeps its
   * flavour and names the Dockerfile's version if that is exact; if it is
   * prefixed, the prefix reads as part of the flavour; with any other text it
   * is no longer a reference.
   */
  lemma RepinnedSegment(files: seq<File>, pin: Pin, digestOf: Registry, i: nat, j: nat)
    requires !pin.Missing? && i < |files| && j < |files[i].segments|
    ensures var before, after := files[i].segments[j], RepinnedFiles(files, pin, digestOf)[i].segments[j];
            && (!IsStale(before, pin) ==> after == before)
            && (IsStale(before, pin) ==>
                var digest := digestOf(Tag(before.flavour, pin));
                && (after.Ref? <==> (pin.Exact? || pin.Prefixed?) && digest != "")
                && (after.Ref? ==>
                    var flavour := if pin.Exact? then before.flavour else before.flavour + "-" + pin.prefix;
                    after == Ref(flavour, pin.version, digest)))
            && (IsStale(after, pin) <==> after.Ref? && IsStale(before, pin) && IsBehindItself(pin))
  {
    if pin.Exact? {
      NotOlderThanItself(pin.version);
    }
  }

  lemma NotOlderThanItself(v: Version)
    ensures !IsOlder(v, Exact(v))
  {}

  /**
   * After a run no reference is older than the Dockerfile's version exactly
   * when no stale flavour was missing, and the version is not behind itself
   * where there was something to pin.
   */
  lemma NothingOlderLeft(files: seq<File>, pin: Pin, digestOf: Registry)
    requires !pin.Missing?
    ensures var after := if MissingTags(files, pin, digestOf) == {} then RepinnedFiles(files, pin, digestOf) else files;
            StaleRefs(after, pin) == {} <==>
            MissingTags(files, pin, digestOf) == {} && (IsBehindItself(pin) ==> StaleRefs(files, pin) == {})
  {
    if StaleRefs(files, pin) == {} {
      NothingStale(files, pin, digestOf);
    } else if MissingTags(files, pin, digestOf) == {} {
      var after := RepinnedFiles(files, pin, digestOf);
      if IsBehindItself(pin) {
        StaleStays(files, pin, digestOf);
      } else {
        forall f, s | f in after && s in f.segments
          ensures !IsStale(s, pin)
        {
          var i :| 0 <= i < |after| && after[i] == f;
          var j :| 0 <= j < |f.segments| && f.segments[j] == s;
          RepinnedSegment(files, pin, digestOf, i, j);
        }
      }
    }
  }

  lemma StaleStays(files: seq<File>, pin: Pin, digestOf: Registry)
    requires !pin.Missing? && IsBehindItself(pin)
    requires StaleRefs(files, pin) != {} && MissingTags(files, pin, digestOf) == {}
    ensures StaleRefs(RepinnedFiles(files, pin, digestOf), pin) != {}
  {
    var after := RepinnedFiles(files, pin, digestOf);
    AllAnswered(StaleRefs(files, pin), pin, digestOf);
    var f, s :| f in files && s in f.segments && IsStale(s, pin);
    var i :| 0 <= i < |files| && files[i] == f;
    var j :| 0 <= j < |f.segments| && f.segments[j] == s;
    assert s in StaleRefs(files, pin);
    RepinnedSegment(files, pin, digestOf, i, j);
    assert after[i] in after && after[i].segments[j] in after[i].segments;
    assert after[i].segments[j] in StaleRefs(after, pin);
  }

  /** Such versions exist: 1e-0.2.3, whose first part is the number 1, reads back as 0.2.3. */
  lemma BehindItself()
    ensures IsBehindItself(Prefixed("1e", Version("0", "2", "3")))
  {
    OneToTheZero("0", "2", "3");
  }

  lemma OneToTheZero(major: Digits, minor: Digits, patch: Digits)
    requires major == "0"
    ensures IsOlder(Version(major, minor, patch), Prefixed("1e", Version(major, minor, patch)))
  {
    assert "1e"[..1] == "1" && Number("1") == 1 && Number("0") == 0;
    assert IsScientific("1e");
    assert Scientific(1, 0) == 1.0;
  }

  /** A checkout with one reference: after a pin to that version it is as stale as before. */
  lemma StaleForEver(path: string, flavour: string, digest: Digest, digestOf: Registry)
    requires forall tag :: digestOf(tag) != ""
    ensures var pin := Prefixed("1e", Version("0", "2", "3"));
            var files := [File(path, [Ref(flavour, Version("0", "1", "0"), digest)])];
            && MissingTags(files, pin, digestOf) == {}
            && StaleRefs(files, pin) != {} && StaleRefs(RepinnedFiles(files, pin, digestOf), pin) != {}
  {
    var pin := Prefixed("1e", Version("0", "2", "3"));
    var s := Ref(flavour, Version("0", "1", "0"), digest);
    var files := [File(path, [s])];
    OneToTheZero("0", "1", "0");
    BehindItself();
    SameFirstPart(s.version, pin);
    assert IsStale(s, pin);
    assert files[0] in files && files[0].segments[0] == s;
    OneStale(files, 0, 0, pin);
    NoneMissing(StaleRefs(files, pin), pin, digestOf);
    StaleStays(files, pin, digestOf);
  }

  lemma OneStale(files: seq<File>, i: nat, j: nat, pin: Pin)
    requires !pin.Missing? && i < |files| && j < |files[i].segments| && IsStale(files[i].segments[j], pin)
    ensures files[i].segments[j] in StaleRefs(files, pin)
  {
    assert files[i] in files && files[i].segments[j] in files[i].segments;
  }

  lemma NoneMissing(stale: set<Segment>, pin: Pin, digestOf: Registry)
    requires (forall s :: s in stale ==> s.Ref?) && forall tag :: digestOf(tag) != ""
    ensures MissingOf(stale, pin, digestOf) == {}
  {}

  lemma SameFirstPart(v: Version, pin: Pin)
    requires pin.Prefixed? && pin.prefix == "1e" && pin.version.major == v.major == "0"
    ensures IsOlder(v, pin)
  {
    OneToTheZero(v.major, v.minor, v.patch);
  }

  /** Otherwise a second run, whatever the registry says by then, changes nothing. */
  lemma SecondPinChangesNothing(files: seq<File>, pin: Pin, digestOf: Registry, later: Registry)
    requires !pin.Missing? && MissingTags(files, pin, digestOf) == {}
    requires IsBehindItself(pin) ==> StaleRefs(files, pin) == {}
    ensures var once := RepinnedFiles(files, pin, digestOf);
            && RepinnedFiles(once, pin, later) == once
            && ChangedPaths(once, once) == []
            && MissingTags(once, pin, later) == {}
  {
    NothingOlderLeft(files, pin, digestOf);
    NothingStale(RepinnedFiles(files, pin, digestOf), pin, later);
  }

  /** And otherwise it does, each time: the tool keeps adding the prefix to the flavour. */
  lemma SecondPinChangesAgain(files: seq<File>, pin: Pin, digestOf: Registry, later: Registry)
    requires !pin.Missing? && MissingTags(files, pin, digestOf) == {}
    requires IsBehindItself(pin) && StaleRefs(files, pin) != {}
    requires MissingTags(RepinnedFiles(files, pin, digestOf), pin, later) == {}
    ensures var once := RepinnedFiles(files, pin, digestOf); RepinnedFiles(once, pin, later) != once
  {
    var once := RepinnedFiles(files, pin, digestOf);
    StaleStays(files, pin, digestOf);
    var f, s :| f in once && s in f.segments && IsStale(s, pin);
    var i :| 0 <= i < |once| && once[i] == f;
    var j :| 0 <= j < |f.segments| && f.segments[j] == s;
    AllAnswered(StaleRefs(once, pin), pin, later);
    assert s in StaleRefs(once, pin);
    RepinnedSegment(once, pin, later, i, j);
    assert |RepinnedFiles(once, pin, later)[i].segments[j].flavour| > |s.flavour|;
  }

  /** `older` and `compare` order versions totally: no cycles, no incomparable pair, and equal numbers only tie. */
  lemma CompareIsTotalOrder(x: (nat, nat, nat), y: (nat, nat, nat), z: (nat, nat, nat))
    ensures Compare(x, y) == -Compare(y, x)
    ensures Compare(x, y) == 0 <==> x == y
    ensures Compare(x, y) < 0 && Compare(y, z) < 0 ==> Compare(x, z) < 0
  {}

  /** For an exact version, `older` is that order. */
  lemma OlderIsCompare(v: Version, p: Version)
    ensures IsOlder(v, Exact(p)) <==> Compare(Semver(v), Semver(p)) < 0
  {}
}
