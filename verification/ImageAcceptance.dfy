/** Which checkouts the image check accepts, and what it says of the others. */
module ImageAcceptance {
  import opened RunnerEnv
  import opened VersionOrder
  import opened RunnerEnvCheck

  /** `a` is a later version than `b`, as both are written. */
  ghost predicate IsLater(a: Version, b: Version) {
    PartBefore(b.major, a.major) || (SamePart(b.major, a.major) && MinorBefore(b, a))
  }

  lemma CompareAsWritten(a: Version, b: Version)
    ensures Compare(Semver(a), Semver(b)) > 0 <==> IsLater(a, b)
  {
    OlderAsWritten(b, a);
    OlderIsCompare(b, a);
    CompareIsTotalOrder(Semver(a), Semver(b), Semver(b));
  }

  ghost predicate IsImageOf(v: Value, name: string) {
    |v| == 1 && exists version, digest :: v[0] == Ref(name, version, digest) || v[0] == Bare(name, version)
  }

  ghost predicate HasDigest(v: Value) {
    |v| == 1 && v[0].Ref?
  }

  ghost predicate IsTooNew(v: Value, pin: Pin) {
    |v| == 1 && !v[0].Text? && pin.Exact? && IsLater(v[0].version, pin.version)
  }

  /** One image of that name, with a digest, and no newer than an exact version of the Dockerfile. */
  ghost predicate IsGoodImage(v: Value, name: string, pin: Pin) {
    IsImageOf(v, name) && HasDigest(v) && !IsTooNew(v, pin)
  }

  lemma ImageIsReference(v: Value, name: string)
    ensures IsImageOf(v, name) <==> IsReferenceTo(v, name)
  {
    if IsReferenceTo(v, name) {
      var digest := if v[0].Ref? then v[0].digest else "";
      assert v[0] == Ref(name, v[0].version, digest) || v[0] == Bare(name, v[0].version);
    }
  }

  lemma TooNewIsNewer(v: Value, pin: Pin)
    ensures IsTooNew(v, pin) <==> NamesNewer(v, pin)
  {
    if |v| == 1 && !v[0].Text? && pin.Exact? {
      CompareAsWritten(v[0].version, pin.version);
    }
  }

  /** `checkRef` finds one thing in what is no image of that name, and else a missing digest and too new a version. */
  lemma RefFindingsAre(where_: Where, name: string, v: Value, pin: Pin, x: Finding)
    ensures x in RefFindings(where_, name, v, pin) <==>
            || (x == NotAReference(where_, name) && !IsImageOf(v, name))
            || (x == NoDigest(where_, name) && IsImageOf(v, name) && !HasDigest(v))
            || (x == NewerThanDockerfile(where_, name) && IsImageOf(v, name) && IsTooNew(v, pin))
  {
    ImageIsReference(v, name);
    TooNewIsNewer(v, pin);
  }

  lemma NoRefFindings(where_: Where, name: string, v: Value, pin: Pin)
    ensures RefFindings(where_, name, v, pin) == [] <==> IsGoodImage(v, name, pin)
  {
    ImageIsReference(v, name);
    TooNewIsNewer(v, pin);
  }

  /** The last entry of a name, if there is one. */
  ghost predicate IsLastOf(slots: seq<Slot>, name: string, i: int) {
    if i == -1 then forall k :: 0 <= k < |slots| ==> slots[k].name != name
    else 0 <= i < |slots| && slots[i].name == name && forall k :: i < k < |slots| ==> slots[k].name != name
  }

  lemma {:induction false} ListedIsLast(slots: seq<Slot>, name: string)
    ensures IsLastOf(slots, name, Listed(slots, name))
  {
    if slots != [] && slots[|slots| - 1].name != name {
      var before := slots[..|slots| - 1];
      ListedIsLast(before, name);
      var i := Listed(before, name);
      if i >= 0 {
        assert slots[i] == before[i] && forall k :: i < k < |before| ==> slots[k] == before[k];
      }
    }
  }

  /** The flavour up to the first hyphen, its first character aside, that a digit follows. */
  ghost predicate IsCutAt(flavour: string, n: nat) {
    && n <= |flavour|
    && (forall i :: 1 <= i < n && i + 1 < |flavour| ==> !(flavour[i] == '-' && flavour[i + 1] in "0123456789"))
    && (n < |flavour| ==> n >= 1 && n + 1 < |flavour| && flavour[n] == '-' && flavour[n + 1] in "0123456789")
  }

  lemma {:induction false} LazyNameIs(flavour: string, i: nat)
    requires i >= 1
    requires forall k :: 1 <= k < i && k + 1 < |flavour| ==> !(flavour[k] == '-' && flavour[k + 1] in "0123456789")
    ensures var name := LazyName(flavour, i); name <= flavour && IsCutAt(flavour, |name|)
    decreases |flavour| - i
  {
    if i + 1 < |flavour| && !(flavour[i] == '-' && '0' <= flavour[i + 1] <= '9') {
      LazyNameIs(flavour, i + 1);
    }
  }

  /** An entry of settings.json: a target of the Dockerfile, no internal stage, and a good image of its name. */
  ghost predicate IsGoodSetting(slot: Slot, f: Files, l: Layout, pin: Pin) {
    && slot.name in l.targets && slot.name != "base" && slot.name != "runner-pkg"
    && IsGoodImage(ValueAt(slot, f.settings), slot.name, pin)
  }

  /** A default of the backend: a good image, and the one settings.json ends up with under its name. */
  ghost predicate IsGoodDefault(slot: Slot, f: Files, l: Layout, pin: Pin) {
    && IsGoodImage(ValueAt(slot, f.backend), slot.name, pin)
    && exists i :: 0 <= i < |l.settings| && IsLastOf(l.settings, slot.name, i)
                   && ValueAt(l.settings[i], f.settings) == ValueAt(slot, f.backend)
  }

  /** An image pulled ahead: good under the name it is read by, and one of settings.json. */
  ghost predicate IsGoodPull(slot: Slot, f: Files, l: Layout, pin: Pin) {
    var v := ValueAt(slot, f.prepull);
    IsGoodImage(v, PrepullName(v), pin) && IsListed(v, f, l)
  }

  lemma NoSettingFindings(slot: Slot, f: Files, l: Layout, pin: Pin)
    ensures SettingsFindings(slot, f, l, pin) == [] <==> IsGoodSetting(slot, f, l, pin)
  {
    NoRefFindings(InSettings, slot.name, ValueAt(slot, f.settings), pin);
  }

  lemma NoDefaultFindings(slot: Slot, f: Files, l: Layout, pin: Pin)
    ensures DefaultFindings(slot, f, l, pin) == [] <==> IsGoodDefault(slot, f, l, pin)
  {
    var i := Listed(l.settings, slot.name);
    NoRefFindings(InDefaults, slot.name, ValueAt(slot, f.backend), pin);
    ListedIsLast(l.settings, slot.name);
    forall k | 0 <= k < |l.settings| && IsLastOf(l.settings, slot.name, k)
      ensures k == i
    {
      assert l.settings[k].name == slot.name;
    }
  }

  lemma NoPullFindings(slot: Slot, f: Files, l: Layout, pin: Pin)
    ensures PrepullFindings(slot, f, l, pin) == [] <==> IsGoodPull(slot, f, l, pin)
  {
    var v := ValueAt(slot, f.prepull);
    NoRefFindings(InPrepull, PrepullName(v), v, pin);
  }

  /** Nothing is found exactly where both lists name images, and every image named anywhere is good. */
  lemma AcceptedExactlyWhen(f: Files, l: Layout, pin: Pin)
    ensures AllFindings(f, l, pin) == [] <==>
            && l.settings != [] && l.defaults != []
            && (forall k :: 0 <= k < |l.settings| ==> IsGoodSetting(l.settings[k], f, l, pin))
            && (forall k :: 0 <= k < |l.defaults| ==> IsGoodDefault(l.defaults[k], f, l, pin))
            && (forall k :: 0 <= k < |l.prepull| ==> IsGoodPull(l.prepull[k], f, l, pin))
  {
    SettingsAccepted(f, l, pin);
    DefaultsAccepted(f, l, pin);
    PullsAccepted(f, l, pin);
  }

  lemma SettingsAccepted(f: Files, l: Layout, pin: Pin)
    ensures SettingsPart(f, l, pin) == [] <==>
            l.settings != [] && forall k :: 0 <= k < |l.settings| ==> IsGoodSetting(l.settings[k], f, l, pin)
  {
    ConcatClean(l.settings, SettingsRule(f, l, pin));
    forall slot {
      NoSettingFindings(slot, f, l, pin);
    }
  }

  lemma DefaultsAccepted(f: Files, l: Layout, pin: Pin)
    ensures DefaultsPart(f, l, pin) == [] <==>
            l.defaults != [] && forall k :: 0 <= k < |l.defaults| ==> IsGoodDefault(l.defaults[k], f, l, pin)
  {
    ConcatClean(l.defaults, DefaultRule(f, l, pin));
    forall slot {
      NoDefaultFindings(slot, f, l, pin);
    }
  }

  lemma PullsAccepted(f: Files, l: Layout, pin: Pin)
    ensures PrepullPart(f, l, pin) == [] <==>
            forall k :: 0 <= k < |l.prepull| ==> IsGoodPull(l.prepull[k], f, l, pin)
  {
    ConcatClean(l.prepull, PrepullRule(f, l, pin));
    forall slot {
      NoPullFindings(slot, f, l, pin);
    }
  }

  /** What else is found in an entry of settings.json is what is wrong with its name. */
  lemma NameFindingsAre(slot: Slot, f: Files, l: Layout, pin: Pin)
    ensures NotATarget(slot.name) in SettingsFindings(slot, f, l, pin) <==> slot.name !in l.targets
    ensures InternalStage(slot.name) in SettingsFindings(slot, f, l, pin) <==> slot.name in ["base", "runner-pkg"]
  {}

  /** And in a default, that settings.json does not have it, or has another. */
  lemma DefaultFindingsAre(slot: Slot, f: Files, l: Layout, pin: Pin)
    ensures NotInSettings(slot.name) in DefaultFindings(slot, f, l, pin) <==>
            forall k :: 0 <= k < |l.settings| ==> l.settings[k].name != slot.name
    ensures DiffersFromSettings(slot.name) in DefaultFindings(slot, f, l, pin) <==>
            exists i :: 0 <= i < |l.settings| && IsLastOf(l.settings, slot.name, i)
                        && ValueAt(l.settings[i], f.settings) != ValueAt(slot, f.backend)
  {
    var i := Listed(l.settings, slot.name);
    ListedIsLast(l.settings, slot.name);
    forall k | 0 <= k < |l.settings| && IsLastOf(l.settings, slot.name, k)
      ensures k == i
    {
      assert l.settings[k].name == slot.name;
    }
  }

  /** Findings come file by file, and of an entry of settings.json those about its name first. */
  lemma FindingsInOrder(f: Files, l: Layout, pin: Pin, slot: Slot)
    ensures SettingsPart(f, l, pin) + DefaultsPart(f, l, pin) <= AllFindings(f, l, pin)
    ensures var all, last := AllFindings(f, l, pin), PrepullPart(f, l, pin); all[|all| - |last|..] == last
    ensures SettingsPart(f, l, pin) <= AllFindings(f, l, pin)
    ensures SettingsFindings(slot, f, l, pin)[|NameFindings(slot, l)|..] ==
            RefFindings(InSettings, slot.name, ValueAt(slot, f.settings), pin)
  {}

  /** A value is what stands between the two ends of its slot. */
  lemma ValueBetween(before: seq<Segment>, v: Value, after: seq<Segment>, name: string)
    ensures ValueAt(Slot(name, |before|, |before| + |v|), before + v + after) == v
  {}
}
