/** `check-runner-env-images`: the images the backend is told about agree with the ones CI pushes. */
module RunnerEnvCheck {
  import opened RunnerEnv

  /** A stretch of a file's segments, read as one image name. */
  type Value = seq<Segment>

  /** Where a file names an image: the name beside it, and the segments of its value. */
  datatype Slot = Slot(name: string, lo: nat, hi: nat)

  /**
   * What the check reads: the three files, and where they name images. Positions
   * come from the text around the references.
   */
  datatype Layout = Layout(settings: seq<Slot>, defaults: seq<Slot>, prepull: seq<Slot>, targets: set<string>)

  datatype Files = Files(settings: seq<Segment>, backend: seq<Segment>, prepull: seq<Segment>)

  datatype Where = InSettings | InDefaults | InPrepull

  datatype Finding =
    | NotAReference(where_: Where, name: string)
    | NoDigest(where_: Where, name: string)
    | NewerThanDockerfile(where_: Where, name: string)
    | NotATarget(name: string)
    | InternalStage(name: string)
    | NoImages(where_: Where)
    | NotInSettings(name: string)
    | DiffersFromSettings(name: string)
    | PrepullNotListed(name: string)

  function ValueAt(slot: Slot, segments: seq<Segment>): Value {
    if slot.lo <= slot.hi <= |segments| then segments[slot.lo..slot.hi] else []
  }

  /** The value is one image reference, of flavour `name`, and nothing else. */
  predicate IsReferenceTo(v: Value, name: string) {
    |v| == 1 && !v[0].Text? && v[0].flavour == name
  }

  predicate NamesNewer(v: Value, pin: Pin) {
    |v| == 1 && !v[0].Text? && pin.Exact? && Compare(Semver(v[0].version), Semver(pin.version)) > 0
  }

  /** What `checkRef` finds. */
  function RefFindings(where_: Where, name: string, v: Value, pin: Pin): seq<Finding> {
    if !IsReferenceTo(v, name) then [NotAReference(where_, name)]
    else
      (if v[0].Bare? then [NoDigest(where_, name)] else [])
      + (if NamesNewer(v, pin) then [NewerThanDockerfile(where_, name)] else [])
  }

  function NameFindings(slot: Slot, l: Layout): seq<Finding> {
    (if slot.name in l.targets then [] else [NotATarget(slot.name)])
    + (if slot.name == "base" || slot.name == "runner-pkg" then [InternalStage(slot.name)] else [])
  }

  function SettingsFindings(slot: Slot, f: Files, l: Layout, pin: Pin): seq<Finding> {
    NameFindings(slot, l) + RefFindings(InSettings, slot.name, ValueAt(slot, f.settings), pin)
  }

  /** `images[name]`: the last entry of that name. */
  function Listed(slots: seq<Slot>, name: string): (i: int)
    ensures -1 <= i < |slots|
    ensures i >= 0 ==> slots[i].name == name
    ensures i == -1 ==> forall k :: 0 <= k < |slots| ==> slots[k].name != name
  {
    if slots == [] then -1
    else if slots[|slots| - 1].name == name then |slots| - 1
    else Listed(slots[..|slots| - 1], name)
  }

  function DefaultFindings(slot: Slot, f: Files, l: Layout, pin: Pin): seq<Finding> {
    var v := ValueAt(slot, f.backend);
    var i := Listed(l.settings, slot.name);
    RefFindings(InDefaults, slot.name, v, pin)
    + (if i == -1 then [NotInSettings(slot.name)]
       else if ValueAt(l.settings[i], f.settings) != v then [DiffersFromSettings(slot.name)]
       else [])
  }

  /** The flavour as the pre-pull check reads it: up to the first hyphen a digit follows. */
  function LazyName(flavour: string, i: nat): string
    requires 1 <= i
    decreases |flavour| - i
  {
    if i + 1 >= |flavour| then flavour
    else if flavour[i] == '-' && '0' <= flavour[i + 1] <= '9' then flavour[..i]
    else LazyName(flavour, i + 1)
  }

  function PrepullName(v: Value): string {
    if v != [] && !v[0].Text? then LazyName(v[0].flavour, 1) else ""
  }

  predicate IsListed(v: Value, f: Files, l: Layout) {
    exists i :: 0 <= i < |l.settings| && ValueAt(l.settings[i], f.settings) == v
  }

  function PrepullFindings(slot: Slot, f: Files, l: Layout, pin: Pin): seq<Finding> {
    var v := ValueAt(slot, f.prepull);
    RefFindings(InPrepull, PrepullName(v), v, pin)
    + (if IsListed(v, f, l) then [] else [PrepullNotListed(PrepullName(v))])
  }

  /** What a check finds in one entry of a file. */
  type Rule = Slot -> seq<Finding>

  /** What it finds in all of them, in order. */
  function Concat(slots: seq<Slot>, rule: Rule): seq<Finding> {
    if slots == [] then [] else Concat(slots[..|slots| - 1], rule) + rule(slots[|slots| - 1])
  }

  function SettingsRule(f: Files, l: Layout, pin: Pin): Rule {
    slot => SettingsFindings(slot, f, l, pin)
  }

  function DefaultRule(f: Files, l: Layout, pin: Pin): Rule {
    slot => DefaultFindings(slot, f, l, pin)
  }

  function PrepullRule(f: Files, l: Layout, pin: Pin): Rule {
    slot => PrepullFindings(slot, f, l, pin)
  }

  function AllSettings(f: Files, l: Layout, pin: Pin): seq<Finding> {
    Concat(l.settings, SettingsRule(f, l, pin))
  }

  function SettingsPart(f: Files, l: Layout, pin: Pin): seq<Finding> {
    (if l.settings == [] then [NoImages(InSettings)] else []) + AllSettings(f, l, pin)
  }

  function DefaultsPart(f: Files, l: Layout, pin: Pin): seq<Finding> {
    (if l.defaults == [] then [NoImages(InDefaults)] else []) + Concat(l.defaults, DefaultRule(f, l, pin))
  }

  function PrepullPart(f: Files, l: Layout, pin: Pin): seq<Finding> {
    Concat(l.prepull, PrepullRule(f, l, pin))
  }

  function AllFindings(f: Files, l: Layout, pin: Pin): seq<Finding> {
    SettingsPart(f, l, pin) + DefaultsPart(f, l, pin) + PrepullPart(f, l, pin)
  }

  class Checker {
    var findings: seq<Finding>

    constructor ()
      ensures findings == []
    {
      findings := [];
    }

    method CheckRef(where_: Where, name: string, v: Value, pin: Pin)
      modifies this
      ensures findings == old(findings) + RefFindings(where_, name, v, pin)
    {
      if !IsReferenceTo(v, name) {
        findings := findings + [NotAReference(where_, name)];
        return;
      }
      if v[0].Bare? {
        findings := findings + [NoDigest(where_, name)];
      }
      if pin.Exact? && Compare(Semver(v[0].version), Semver(pin.version)) > 0 {
        findings := findings + [NewerThanDockerfile(where_, name)];
      }
    }

    method CheckSettingsSlot(slot: Slot, f: Files, l: Layout, pin: Pin)
      modifies this
      ensures findings == old(findings) + SettingsFindings(slot, f, l, pin)
    {
      ghost var before := findings;
      if slot.name !in l.targets {
        findings := findings + [NotATarget(slot.name)];
      }
      if slot.name == "base" || slot.name == "runner-pkg" {
        findings := findings + [InternalStage(slot.name)];
      }
      assert findings == before + NameFindings(slot, l);
      CheckRef(InSettings, slot.name, ValueAt(slot, f.settings), pin);
      Assoc(before, NameFindings(slot, l), RefFindings(InSettings, slot.name, ValueAt(slot, f.settings), pin));
    }

    method CheckSettings(f: Files, l: Layout, pin: Pin)
      modifies this
      ensures findings == old(findings) + SettingsPart(f, l, pin)
    {
      if l.settings == [] {
        findings := findings + [NoImages(InSettings)];
      }
      ghost var before, rule := findings, SettingsRule(f, l, pin);
      for i := 0 to |l.settings|
        invariant findings == before + Concat(l.settings[..i], rule)
      {
        CheckSettingsSlot(l.settings[i], f, l, pin);
        OneMoreSlot(before, l.settings, i, rule);
      }
      assert l.settings[..|l.settings|] == l.settings;
    }

    method CheckDefaultSlot(slot: Slot, f: Files, l: Layout, pin: Pin)
      modifies this
      ensures findings == old(findings) + DefaultFindings(slot, f, l, pin)
    {
      var v := ValueAt(slot, f.backend);
      CheckRef(InDefaults, slot.name, v, pin);
      var listed := Listed(l.settings, slot.name);
      if listed == -1 {
        findings := findings + [NotInSettings(slot.name)];
      } else if ValueAt(l.settings[listed], f.settings) != v {
        findings := findings + [DiffersFromSettings(slot.name)];
      }
    }

    method CheckDefaults(f: Files, l: Layout, pin: Pin)
      modifies this
      ensures findings == old(findings) + DefaultsPart(f, l, pin)
    {
      if l.defaults == [] {
        findings := findings + [NoImages(InDefaults)];
      }
      ghost var before, rule := findings, DefaultRule(f, l, pin);
      for i := 0 to |l.defaults|
        invariant findings == before + Concat(l.defaults[..i], rule)
      {
        CheckDefaultSlot(l.defaults[i], f, l, pin);
        OneMoreSlot(before, l.defaults, i, rule);
      }
      assert l.defaults[..|l.defaults|] == l.defaults;
    }

    method CheckPrepullSlot(slot: Slot, f: Files, l: Layout, pin: Pin)
      modifies this
      ensures findings == old(findings) + PrepullFindings(slot, f, l, pin)
    {
      var v := ValueAt(slot, f.prepull);
      CheckRef(InPrepull, PrepullName(v), v, pin);
      if !IsListed(v, f, l) {
        findings := findings + [PrepullNotListed(PrepullName(v))];
      }
    }

    method CheckPrepull(f: Files, l: Layout, pin: Pin)
      modifies this
      ensures findings == old(findings) + PrepullPart(f, l, pin)
    {
      ghost var before, rule := findings, PrepullRule(f, l, pin);
      for i := 0 to |l.prepull|
        invariant findings == before + Concat(l.prepull[..i], rule)
      {
        CheckPrepullSlot(l.prepull[i], f, l, pin);
        OneMoreSlot(before, l.prepull, i, rule);
      }
      assert l.prepull[..|l.prepull|] == l.prepull;
    }

    /** The parts of the check that read image references. */
    method CheckReferences(f: Files, l: Layout, pin: Pin)
      modifies this
      ensures findings == old(findings) + AllFindings(f, l, pin)
    {
      ghost var a, b, c := SettingsPart(f, l, pin), DefaultsPart(f, l, pin), PrepullPart(f, l, pin);
      ghost var before := findings;
      CheckSettings(f, l, pin);
      CheckDefaults(f, l, pin);
      CheckPrepull(f, l, pin);
      Assoc(before, a, b);
      Assoc(before, a + b, c);
    }
  }

  lemma Assoc<T>(a: seq<T>, b: seq<T>, c: seq<T>)
    ensures (a + b) + c == a + (b + c)
  {}

  lemma OneMoreSlot(before: seq<Finding>, slots: seq<Slot>, i: nat, rule: Rule)
    requires i < |slots|
    ensures before + Concat(slots[..i + 1], rule) == before + Concat(slots[..i], rule) + rule(slots[i])
  {
    assert slots[..i + 1][..i] == slots[..i];
    Assoc(before, Concat(slots[..i], rule), rule(slots[i]));
  }

  lemma {:induction false} ConcatSame(slots: seq<Slot>, a: Rule, b: Rule)
    requires forall k :: 0 <= k < |slots| ==> a(slots[k]) == b(slots[k])
    ensures Concat(slots, a) == Concat(slots, b)
  {
    if slots != [] {
      ConcatSame(slots[..|slots| - 1], a, b);
    }
  }

  lemma {:induction false} ConcatClean(slots: seq<Slot>, rule: Rule)
    ensures Concat(slots, rule) == [] <==> forall k :: 0 <= k < |slots| ==> rule(slots[k]) == []
  {
    if slots != [] {
      var before := slots[..|slots| - 1];
      ConcatClean(before, rule);
      assert forall k :: 0 <= k < |before| ==> before[k] == slots[k];
    }
  }

  // ---- pinning keeps the verdict ----

  function RepinnedAllFiles(f: Files, pin: Pin, digestOf: Registry): Files
    requires !pin.Missing?
  {
    Files(RepinnedAll(f.settings, pin, digestOf), RepinnedAll(f.backend, pin, digestOf),
      RepinnedAll(f.prepull, pin, digestOf))
  }

  /** Every stale reference of these segments has a valid pushed digest. */
  ghost predicate Pushed(ss: seq<Segment>, pin: Pin, digestOf: Registry)
    requires !pin.Missing?
  {
    forall i :: 0 <= i < |ss| && IsStale(ss[i], pin) ==> IsDigest(digestOf(Tag(ss[i].flavour, pin)))
  }

  lemma RepinnedValue(slot: Slot, ss: seq<Segment>, pin: Pin, digestOf: Registry)
    requires !pin.Missing?
    ensures ValueAt(slot, RepinnedAll(ss, pin, digestOf)) == RepinnedAll(ValueAt(slot, ss), pin, digestOf)
  {
    var all := RepinnedAll(ss, pin, digestOf);
    if slot.lo <= slot.hi <= |ss| {
      forall i | 0 <= i < slot.hi - slot.lo
        ensures all[slot.lo..slot.hi][i] == Repinned(ss[slot.lo..slot.hi][i], pin, digestOf)
      {
        assert all[slot.lo + i] == Repinned(ss[slot.lo + i], pin, digestOf);
      }
    }
  }

  /** The reference is of flavour `name`, or is once a prefixed version is written to it. */
  predicate IsJudged(s: Segment, name: string, pin: Pin) {
    s.Ref? && (s.flavour == name || (pin.Prefixed? && s.flavour + "-" + pin.prefix == name))
  }

  /**
   * `checkRef` says the same of a value before and after it is pinned exactly
   * when the version is exact, or the value is no stale reference of that name.
   */
  lemma RefVerdictKept(where_: Where, name: string, v: Value, pin: Pin, digestOf: Registry)
    requires !pin.Missing? && Pushed(v, pin, digestOf)
    ensures RefFindings(where_, name, RepinnedAll(v, pin, digestOf), pin) == RefFindings(where_, name, v, pin) <==>
            pin.Exact? || !(|v| == 1 && IsStale(v[0], pin) && IsJudged(v[0], name, pin))
  {
    var after := RepinnedAll(v, pin, digestOf);
    if |v| == 1 && IsStale(v[0], pin) {
      assert after[0] == Pinned(v[0].flavour, pin, digestOf(Tag(v[0].flavour, pin)));
      if pin.Exact? {
        OlderIsCompare(v[0].version, pin.version);
      } else if pin.Prefixed? {
        assert |after[0].flavour| > |v[0].flavour|;
      }
    } else if |v| == 1 {
      assert after[0] == v[0];
    }
  }

  lemma PrepullNameKept(v: Value, pin: Pin, digestOf: Registry)
    requires pin.Exact? && Pushed(v, pin, digestOf)
    ensures PrepullName(RepinnedAll(v, pin, digestOf)) == PrepullName(v)
  {}

  lemma SlotPushed(slot: Slot, ss: seq<Segment>, pin: Pin, digestOf: Registry)
    requires !pin.Missing? && Pushed(ss, pin, digestOf)
    ensures Pushed(ValueAt(slot, ss), pin, digestOf)
  {}

  ghost predicate AllPushed(f: Files, pin: Pin, digestOf: Registry)
    requires !pin.Missing?
  {
    Pushed(f.settings, pin, digestOf) && Pushed(f.backend, pin, digestOf) && Pushed(f.prepull, pin, digestOf)
  }

  /** What a default image's entry is found to be after pinning was found before. */
  lemma DefaultVerdictKept(slot: Slot, f: Files, l: Layout, pin: Pin, digestOf: Registry)
    requires pin.Exact? && AllPushed(f, pin, digestOf)
    ensures DefaultFindings(slot, f, l, pin) == [] ==>
            DefaultFindings(slot, RepinnedAllFiles(f, pin, digestOf), l, pin) == []
  {
    RepinnedValue(slot, f.backend, pin, digestOf);
    SlotPushed(slot, f.backend, pin, digestOf);
    RefVerdictKept(InDefaults, slot.name, ValueAt(slot, f.backend), pin, digestOf);
    var i := Listed(l.settings, slot.name);
    if i >= 0 {
      RepinnedValue(l.settings[i], f.settings, pin, digestOf);
    }
  }

  lemma PrepullVerdictKept(slot: Slot, f: Files, l: Layout, pin: Pin, digestOf: Registry)
    requires pin.Exact? && AllPushed(f, pin, digestOf)
    ensures PrepullFindings(slot, f, l, pin) == [] ==>
            PrepullFindings(slot, RepinnedAllFiles(f, pin, digestOf), l, pin) == []
  {
    var v := ValueAt(slot, f.prepull);
    RepinnedValue(slot, f.prepull, pin, digestOf);
    SlotPushed(slot, f.prepull, pin, digestOf);
    PrepullNameKept(v, pin, digestOf);
    RefVerdictKept(InPrepull, PrepullName(v), v, pin, digestOf);
    if IsListed(v, f, l) {
      var i :| 0 <= i < |l.settings| && ValueAt(l.settings[i], f.settings) == v;
      RepinnedValue(l.settings[i], f.settings, pin, digestOf);
      assert ValueAt(l.settings[i], RepinnedAll(f.settings, pin, digestOf)) == RepinnedAll(v, pin, digestOf);
    }
  }

  lemma SettingsVerdictKept(f: Files, l: Layout, pin: Pin, digestOf: Registry)
    requires pin.Exact? && AllPushed(f, pin, digestOf)
    ensures AllSettings(RepinnedAllFiles(f, pin, digestOf), l, pin) == AllSettings(f, l, pin)
  {
    var f' := RepinnedAllFiles(f, pin, digestOf);
    forall k | 0 <= k < |l.settings|
      ensures SettingsFindings(l.settings[k], f', l, pin) == SettingsFindings(l.settings[k], f, l, pin)
    {
      var slot := l.settings[k];
      RepinnedValue(slot, f.settings, pin, digestOf);
      SlotPushed(slot, f.settings, pin, digestOf);
      RefVerdictKept(InSettings, slot.name, ValueAt(slot, f.settings), pin, digestOf);
    }
    ConcatSame(l.settings, SettingsRule(f', l, pin), SettingsRule(f, l, pin));
  }

  lemma DefaultsVerdictKept(f: Files, l: Layout, pin: Pin, digestOf: Registry)
    requires pin.Exact? && AllPushed(f, pin, digestOf)
    ensures DefaultsPart(f, l, pin) == [] ==> DefaultsPart(RepinnedAllFiles(f, pin, digestOf), l, pin) == []
  {
    var f' := RepinnedAllFiles(f, pin, digestOf);
    ConcatClean(l.defaults, DefaultRule(f, l, pin));
    ConcatClean(l.defaults, DefaultRule(f', l, pin));
    forall k | 0 <= k < |l.defaults|
      ensures DefaultFindings(l.defaults[k], f, l, pin) == [] ==> DefaultFindings(l.defaults[k], f', l, pin) == []
    {
      DefaultVerdictKept(l.defaults[k], f, l, pin, digestOf);
    }
  }

  lemma PrepullsVerdictKept(f: Files, l: Layout, pin: Pin, digestOf: Registry)
    requires pin.Exact? && AllPushed(f, pin, digestOf)
    ensures PrepullPart(f, l, pin) == [] ==> PrepullPart(RepinnedAllFiles(f, pin, digestOf), l, pin) == []
  {
    var f' := RepinnedAllFiles(f, pin, digestOf);
    ConcatClean(l.prepull, PrepullRule(f, l, pin));
    ConcatClean(l.prepull, PrepullRule(f', l, pin));
    forall k | 0 <= k < |l.prepull|
      ensures PrepullFindings(l.prepull[k], f, l, pin) == [] ==> PrepullFindings(l.prepull[k], f', l, pin) == []
    {
      PrepullVerdictKept(l.prepull[k], f, l, pin, digestOf);
    }
  }

  // ---- versions that are not exact ----

  ghost predicate HasStale(v: Value, pin: Pin)
    requires !pin.Missing?
  {
    exists i :: 0 <= i < |v| && IsStale(v[i], pin)
  }

  lemma NoStaleNoChange(slot: Slot, ss: seq<Segment>, pin: Pin, digestOf: Registry)
    requires !pin.Missing? && !HasStale(ValueAt(slot, ss), pin)
    ensures ValueAt(slot, RepinnedAll(ss, pin, digestOf)) == ValueAt(slot, ss)
  {
    RepinnedValue(slot, ss, pin, digestOf);
  }

  /** No entry of settings.json is a stale reference. */
  ghost predicate SettingsCurrent(f: Files, l: Layout, pin: Pin)
    requires !pin.Missing?
  {
    forall k :: 0 <= k < |l.settings| ==> !HasStale(ValueAt(l.settings[k], f.settings), pin)
  }

  /** A stale entry of settings.json that passed is no reference of that name any more. */
  lemma StaleEntryFails(slot: Slot, f: Files, l: Layout, pin: Pin, digestOf: Registry)
    requires !pin.Missing? && !pin.Exact? && AllPushed(f, pin, digestOf)
    requires SettingsFindings(slot, f, l, pin) == [] && HasStale(ValueAt(slot, f.settings), pin)
    ensures SettingsFindings(slot, RepinnedAllFiles(f, pin, digestOf), l, pin) != []
  {
    var v := ValueAt(slot, f.settings);
    RepinnedValue(slot, f.settings, pin, digestOf);
    SlotPushed(slot, f.settings, pin, digestOf);
    assert IsReferenceTo(v, slot.name);
    RefVerdictKept(InSettings, slot.name, v, pin, digestOf);
  }

  /** Where settings.json is current, nothing that agrees with it changes. */
  lemma CurrentDefault(slot: Slot, f: Files, l: Layout, pin: Pin, digestOf: Registry)
    requires !pin.Missing? && SettingsCurrent(f, l, pin) && DefaultFindings(slot, f, l, pin) == []
    ensures DefaultFindings(slot, RepinnedAllFiles(f, pin, digestOf), l, pin) == []
  {
    var i := Listed(l.settings, slot.name);
    NoStaleNoChange(l.settings[i], f.settings, pin, digestOf);
    NoStaleNoChange(slot, f.backend, pin, digestOf);
  }

  lemma CurrentPrepull(slot: Slot, f: Files, l: Layout, pin: Pin, digestOf: Registry)
    requires !pin.Missing? && SettingsCurrent(f, l, pin) && PrepullFindings(slot, f, l, pin) == []
    ensures PrepullFindings(slot, RepinnedAllFiles(f, pin, digestOf), l, pin) == []
  {
    var v := ValueAt(slot, f.prepull);
    var i :| 0 <= i < |l.settings| && ValueAt(l.settings[i], f.settings) == v;
    NoStaleNoChange(l.settings[i], f.settings, pin, digestOf);
    NoStaleNoChange(slot, f.prepull, pin, digestOf);
  }

  lemma CurrentStaysClean(f: Files, l: Layout, pin: Pin, digestOf: Registry)
    requires !pin.Missing? && SettingsCurrent(f, l, pin) && AllFindings(f, l, pin) == []
    ensures AllFindings(RepinnedAllFiles(f, pin, digestOf), l, pin) == []
  {
    CurrentSettingsClean(f, l, pin, digestOf);
    CurrentDefaultsClean(f, l, pin, digestOf);
    CurrentPrepullClean(f, l, pin, digestOf);
  }

  lemma CurrentSettingsClean(f: Files, l: Layout, pin: Pin, digestOf: Registry)
    requires !pin.Missing? && SettingsCurrent(f, l, pin)
    ensures SettingsPart(RepinnedAllFiles(f, pin, digestOf), l, pin) == SettingsPart(f, l, pin)
  {
    var f' := RepinnedAllFiles(f, pin, digestOf);
    forall k | 0 <= k < |l.settings|
      ensures SettingsFindings(l.settings[k], f', l, pin) == SettingsFindings(l.settings[k], f, l, pin)
    {
      NoStaleNoChange(l.settings[k], f.settings, pin, digestOf);
    }
    ConcatSame(l.settings, SettingsRule(f', l, pin), SettingsRule(f, l, pin));
  }

  lemma CurrentDefaultsClean(f: Files, l: Layout, pin: Pin, digestOf: Registry)
    requires !pin.Missing? && SettingsCurrent(f, l, pin) && DefaultsPart(f, l, pin) == []
    ensures DefaultsPart(RepinnedAllFiles(f, pin, digestOf), l, pin) == []
  {
    var f' := RepinnedAllFiles(f, pin, digestOf);
    ConcatClean(l.defaults, DefaultRule(f, l, pin));
    ConcatClean(l.defaults, DefaultRule(f', l, pin));
    forall k | 0 <= k < |l.defaults|
      ensures DefaultFindings(l.defaults[k], f', l, pin) == []
    {
      assert DefaultRule(f, l, pin)(l.defaults[k]) == [];
      CurrentDefault(l.defaults[k], f, l, pin, digestOf);
    }
  }

  lemma CurrentPrepullClean(f: Files, l: Layout, pin: Pin, digestOf: Registry)
    requires !pin.Missing? && SettingsCurrent(f, l, pin) && PrepullPart(f, l, pin) == []
    ensures PrepullPart(RepinnedAllFiles(f, pin, digestOf), l, pin) == []
  {
    var f' := RepinnedAllFiles(f, pin, digestOf);
    ConcatClean(l.prepull, PrepullRule(f, l, pin));
    ConcatClean(l.prepull, PrepullRule(f', l, pin));
    forall k | 0 <= k < |l.prepull|
      ensures PrepullFindings(l.prepull[k], f', l, pin) == []
    {
      assert PrepullRule(f, l, pin)(l.prepull[k]) == [];
      CurrentPrepull(l.prepull[k], f, l, pin, digestOf);
    }
  }

  lemma StaleFails(f: Files, l: Layout, pin: Pin, digestOf: Registry)
    requires !pin.Missing? && !pin.Exact? && AllPushed(f, pin, digestOf)
    requires !SettingsCurrent(f, l, pin) && SettingsPart(f, l, pin) == []
    ensures SettingsPart(RepinnedAllFiles(f, pin, digestOf), l, pin) != []
  {
    var f' := RepinnedAllFiles(f, pin, digestOf);
    ConcatClean(l.settings, SettingsRule(f, l, pin));
    ConcatClean(l.settings, SettingsRule(f', l, pin));
    var k :| 0 <= k < |l.settings| && HasStale(ValueAt(l.settings[k], f.settings), pin);
    assert SettingsRule(f, l, pin)(l.settings[k]) == [];
    StaleEntryFails(l.settings[k], f, l, pin, digestOf);
    assert SettingsRule(f', l, pin)(l.settings[k]) != [];
  }

  /**
   * A checkout that passes the check still passes it after a pin exactly when
   * the version is exact or settings.json was current; with an exact version
   * settings.json on its own is judged as before in any case.
   */
  lemma PinKeepsVerdict(f: Files, l: Layout, pin: Pin, digestOf: Registry)
    requires !pin.Missing? && AllPushed(f, pin, digestOf)
    ensures AllFindings(f, l, pin) == [] ==>
            (AllFindings(RepinnedAllFiles(f, pin, digestOf), l, pin) == [] <==>
              pin.Exact? || SettingsCurrent(f, l, pin))
    ensures pin.Exact? ==>
            AllSettings(RepinnedAllFiles(f, pin, digestOf), l, pin) == AllSettings(f, l, pin)
  {
    if pin.Exact? {
      SettingsVerdictKept(f, l, pin, digestOf);
      DefaultsVerdictKept(f, l, pin, digestOf);
      PrepullsVerdictKept(f, l, pin, digestOf);
    } else if AllFindings(f, l, pin) == [] {
      if SettingsCurrent(f, l, pin) {
        CurrentStaysClean(f, l, pin, digestOf);
      } else {
        StaleFails(f, l, pin, digestOf);
      }
    }
  }

  /** The files as the pinning tool lists them. */
  function AsList(f: Files): seq<File> {
    [File("images/runner-env/settings.json", f.settings),
     File("backend/src/modules/hosted-runners/hosted-runner-settings.ts", f.backend),
     File("docs/design/hosted-runners/image-prepull.yaml", f.prepull)]
  }

  /**
   * The tool and the check together: a successful pin of a checkout that
   * passes leaves one that passes, with no reference behind the Dockerfile.
   */
  lemma PinnedCheckoutPasses(f: Files, l: Layout, pin: Pin, digestOf: Registry)
    requires pin.Exact? && AllFindings(f, l, pin) == []
    requires MissingTags(AsList(f), pin, digestOf) == {}
    ensures var f' := RepinnedAllFiles(f, pin, digestOf);
            && RepinnedFiles(AsList(f), pin, digestOf) == AsList(f')
            && AllFindings(f', l, pin) == []
            && StaleRefs(AsList(f'), pin) == {}
  {
    RepinnedList(f, pin, digestOf);
    PushedWhenNoneMissing(AsList(f), 0, pin, digestOf);
    PushedWhenNoneMissing(AsList(f), 1, pin, digestOf);
    PushedWhenNoneMissing(AsList(f), 2, pin, digestOf);
    PinKeepsVerdict(f, l, pin, digestOf);
    NothingOlderLeft(AsList(f), pin, digestOf);
  }

  lemma RepinnedList(f: Files, pin: Pin, digestOf: Registry)
    requires pin.Exact?
    ensures RepinnedFiles(AsList(f), pin, digestOf) == AsList(RepinnedAllFiles(f, pin, digestOf))
  {}

  lemma PushedWhenNoneMissing(files: seq<File>, k: nat, pin: Pin, digestOf: Registry)
    requires pin.Exact? && k < |files| && MissingTags(files, pin, digestOf) == {}
    ensures Pushed(files[k].segments, pin, digestOf)
  {
    var stale := StaleRefs(files, pin);
    AllAnswered(stale, pin, digestOf);
    forall i | 0 <= i < |files[k].segments| && IsStale(files[k].segments[i], pin)
      ensures IsDigest(digestOf(Tag(files[k].segments[i].flavour, pin)))
    {
      assert files[k] in files && files[k].segments[i] in stale;
    }
  }
}
