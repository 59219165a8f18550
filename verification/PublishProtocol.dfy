/**
 * The publish command as a protocol: a run builds everything, then publishes
 * package after package, and may stop anywhere. What is on npm and in the
 * checkout survives the run; everything else is forgotten.
 */
module PublishProtocol {
  import opened Packages
  import opened DependencyGraph
  import opened ReleaseOrder
  import opened BuildSelection
  import opened Manifests

  /** `name@version`. */
  type Spec = (string, string)

  /** An empty `only` or `prerelease` is an option not given. */
  datatype Options = Options(only: string, dryRun: bool, prerelease: string)

  function Chosen(pkgs: seq<Package>, only: string): (r: seq<Package>)
    ensures forall p :: p in r <==> p in pkgs && IsSelected(p, only)
    ensures only == "" ==> r == pkgs
  {
    if pkgs == [] then []
    else
      var p, before := pkgs[|pkgs| - 1], pkgs[..|pkgs| - 1];
      assert pkgs == before + [p];
      var rest := Chosen(before, only);
      if IsSelected(p, only) then rest + [p] else rest
  }

  /** What a run decides before its first build: the checkout it read, its order, and what it needs. */
  datatype Plan = Plan(opts: Options, disk: seq<Package>, order: seq<Package>, needed: set<string>,
                       builds: seq<Package>, targets: seq<Package>) {
    function Manifest(p: Package): Manifest { Published(p.manifest, Versions(disk), opts.prerelease) }
    function Spec(p: Package): Spec { (Manifest(p).name, Manifest(p).version) }
  }

  ghost predicate Lockstep(pkgs: seq<Package>) {
    pkgs != [] && forall p :: p in pkgs ==> p.manifest.version == pkgs[0].manifest.version
  }

  ghost predicate OptionsAccepted(disk: seq<Package>, opts: Options) {
    && (opts.only != "" ==> opts.prerelease == "")
    && (opts.only != "" ==> exists p :: p in disk && p.dir == opts.only)
  }

  ghost predicate IsPlan(plan: Plan) {
    && DistinctNames(plan.disk)
    && !HasCycle(DepGraph(plan.disk))
    && IsPermutation(plan.disk, plan.order)
    && IsOrdered(plan.disk, DepGraph(plan.disk), plan.order)
    && Lockstep(plan.disk)
    && OptionsAccepted(plan.disk, plan.opts)
    && IsClosureOf(DepGraph(plan.disk), Roots(plan.order, plan.opts.only), plan.needed)
    && plan.builds == Named(plan.order, plan.needed)
    && plan.targets == Chosen(plan.order, plan.opts.only)
  }

  datatype Phase = Idle | Building(plan: Plan, done: nat) | Publishing(plan: Plan, done: nat)

  datatype State = State(disk: seq<Package>, npm: map<Spec, Manifest>, phase: Phase)

  datatype Event =
    | Start(plan: Plan)
    | Build(pkg: Package)
    | BuildsDone
    | Skip(pkg: Package)                              // npm already has it
    | Publish(pkg: Package)
    | PublishFails(pkg: Package, accepted: bool)      // exit status not 0, whether or not npm took the tarball
    | Finish
    | Stop                                            // a failed build, or the job was killed

  /** The package's package.json now reads `m`. */
  function Write(disk: seq<Package>, p: Package, m: Manifest): seq<Package> {
    seq(|disk|, i requires 0 <= i < |disk| => if disk[i].Name() == p.Name() then Package(disk[i].dir, m) else disk[i])
  }

  ghost predicate Enabled(s: State, e: Event) {
    match e
    case Start(plan) => s.phase.Idle? && plan.disk == s.disk
    case Build(p) => s.phase.Building? && s.phase.done < |s.phase.plan.builds| && p == s.phase.plan.builds[s.phase.done]
    case BuildsDone => s.phase.Building? && s.phase.done == |s.phase.plan.builds|
    case Skip(p) => AtTarget(s, p) && s.phase.plan.Spec(p) in s.npm
    case Publish(p) => AtTarget(s, p) && (s.phase.plan.opts.dryRun || s.phase.plan.Spec(p) !in s.npm)
    case PublishFails(p, accepted) =>
      AtTarget(s, p) && (accepted ==> !s.phase.plan.opts.dryRun && s.phase.plan.Spec(p) !in s.npm)
    case Finish => s.phase.Publishing? && s.phase.done == |s.phase.plan.targets|
    case Stop => !s.phase.Idle?
  }

  ghost predicate AtTarget(s: State, p: Package) {
    s.phase.Publishing? && s.phase.done < |s.phase.plan.targets| && p == s.phase.plan.targets[s.phase.done]
  }

  function Apply(s: State, e: Event): State {
    match e
    case Start(plan) => s.(phase := Building(plan, 0))
    case Build(p) => if s.phase.Building? then s.(phase := Building(s.phase.plan, s.phase.done + 1)) else s
    case BuildsDone => if s.phase.Building? then s.(phase := Publishing(s.phase.plan, 0)) else s
    case Skip(p) => if s.phase.Publishing? then s.(phase := Publishing(s.phase.plan, s.phase.done + 1)) else s
    case Publish(p) =>
      if !s.phase.Publishing? then s else
      var plan := s.phase.plan;
      // The committed manifest is put back after a dry run or a prerelease, and only then.
      State(if plan.opts.dryRun || plan.opts.prerelease != "" then s.disk else Write(s.disk, p, plan.Manifest(p)),
            if plan.opts.dryRun then s.npm else s.npm[plan.Spec(p) := plan.Manifest(p)],
            Publishing(plan, s.phase.done + 1))
    case PublishFails(p, accepted) =>
      if !s.phase.Publishing? then s else
      var plan := s.phase.plan;
      // The process exits inside the try block: nothing puts the manifest back.
      State(Write(s.disk, p, plan.Manifest(p)),
            if accepted then s.npm[plan.Spec(p) := plan.Manifest(p)] else s.npm,
            Idle)
    case Finish => s.(phase := Idle)
    case Stop => s.(phase := Idle)
  }

  /** Each event is enabled where it happens and leads to the next state. */
  ghost predicate IsPath(path: seq<State>, es: seq<Event>) {
    && |path| == |es| + 1
    && forall i :: 0 <= i < |es| ==> Enabled(path[i], es[i]) && path[i + 1] == Apply(path[i], es[i])
  }

  /** The events `es` lead from `s` to `s'`. */
  ghost predicate IsRun(s: State, es: seq<Event>, s': State) {
    exists path :: IsPath(path, es) && path[0] == s && path[|es|] == s'
  }

  lemma NoEvents(s: State, s': State)
    ensures IsRun(s, [], s') <==> s == s'
  {
    if s == s' {
      assert IsPath([s], []);
    }
  }

  lemma OneMoreEvent(s: State, es: seq<Event>, m: State, e: Event)
    requires IsRun(s, es, m) && Enabled(m, e)
    ensures IsRun(s, es + [e], Apply(m, e))
  {
    var path :| IsPath(path, es) && path[0] == s && path[|es|] == m;
    var longer := path + [Apply(m, e)];
    assert IsPath(longer, es + [e]);
  }

  lemma RunUpTo(s: State, es: seq<Event>, s': State, t: nat) returns (m: State)
    requires IsRun(s, es, s') && t < |es|
    ensures IsRun(s, es[..t], m) && Enabled(m, es[t])
    ensures t == |es| - 1 ==> s' == Apply(m, es[t])
  {
    var path :| IsPath(path, es) && path[0] == s && path[|es|] == s';
    assert IsPath(path[..t + 1], es[..t]);
    m := path[t];
  }

  /** Every run starts from the plan the command makes. */
  ghost predicate IsPlanned(es: seq<Event>) {
    forall i :: 0 <= i < |es| && es[i].Start? ==> IsPlan(es[i].plan)
  }

  // ---- what a checkout releases ----

  /** The internal dependencies and the version of every package. */
  datatype Release = Release(deps: Graph, versions: map<string, string>) {
    ghost predicate Valid() {
      deps.Keys == versions.Keys && Closed(deps)
    }

    /** `n` as this release publishes it, with or without a prerelease suffix. */
    function At(n: string, prerelease: string): Spec
      requires n in versions
    {
      (n, PublishVersion(versions[n], prerelease))
    }
  }

  ghost predicate HasSeveral(r: Release) {
    exists n, n' :: n in r.versions && n' in r.versions && n != n'
  }

  ghost predicate Describes(disk: seq<Package>, r: Release) {
    && DistinctNames(disk)
    && DepGraph(disk) == r.deps
    && Versions(disk) == r.versions
  }

  function ReleaseOf(disk: seq<Package>): (r: Release)
    requires DistinctNames(disk)
    ensures Describes(disk, r) && r.Valid() && r.versions.Keys == Names(disk)
  {
    VersionsDomain(disk);
    Release(DepGraph(disk), Versions(disk))
  }

  lemma DescribedValid(disk: seq<Package>, r: Release)
    requires Describes(disk, r)
    ensures r.Valid() && r.versions.Keys == Names(disk)
  {
    VersionsDomain(disk);
  }

  lemma SameNames(a: seq<Package>, b: seq<Package>)
    requires |a| == |b| && forall i :: 0 <= i < |a| ==> a[i].Name() == b[i].Name()
    ensures Names(a) == Names(b)
    ensures DistinctNames(a) ==> DistinctNames(b)
  {
    forall n | n in Names(a)
      ensures n in Names(b)
    {
      var i :| 0 <= i < |a| && a[i].Name() == n;
      assert b[i] in b;
    }
    forall n | n in Names(b)
      ensures n in Names(a)
    {
      var i :| 0 <= i < |b| && b[i].Name() == n;
      assert a[i] in a;
    }
  }

  /** Checkouts that differ in ranges only describe the same release. */
  lemma SameGraph(a: seq<Package>, b: seq<Package>)
    requires DistinctNames(a) && |a| == |b|
    requires forall i :: 0 <= i < |a| ==>
      && a[i].Name() == b[i].Name()
      && InternalDeps(a[i].manifest, Names(a)) == InternalDeps(b[i].manifest, Names(a))
    ensures DistinctNames(b) && DepGraph(a) == DepGraph(b)
  {
    SameNames(a, b);
    forall n | n in Names(a)
      ensures DepGraph(a)[n] == DepGraph(b)[n]
    {
      var p :| p in a && p.Name() == n;
      var i :| 0 <= i < |a| && a[i] == p;
      assert b[i] in b;
    }
  }

  /** Writing the release manifest of a package leaves the release as it is. */
  lemma WriteKeepsRelease(disk: seq<Package>, r: Release, p: Package)
    requires Describes(disk, r) && p.Name() in r.deps && p.Name() in r.versions
    requires p.manifest.version == r.versions[p.Name()]
    requires InternalDeps(p.manifest, Names(disk)) == r.deps[p.Name()]
    ensures Describes(Write(disk, p, Published(p.manifest, r.versions, "")), r)
  {
    var m := Published(p.manifest, r.versions, "");
    var after := Write(disk, p, m);
    PublishedKeepsDeps(p.manifest, r.versions, "", Names(disk));
    forall i | 0 <= i < |disk|
      ensures disk[i].manifest.version == after[i].manifest.version
      ensures InternalDeps(disk[i].manifest, Names(disk)) == InternalDeps(after[i].manifest, Names(disk))
    {
      assert disk[i] in disk;
      if disk[i].Name() == p.Name() {
        VersionOfListed(disk, disk[i]);
      }
    }
    SameGraph(disk, after);
    VersionsIgnoreRanges(disk, after);
  }

  /** Raising ranges between runs leaves the release as it is. */
  lemma RaiseKeepsRelease(disk: seq<Package>, isPublished: Oracle)
    requires DistinctNames(disk)
    ensures DistinctNames(Raised(disk, isPublished)) && ReleaseOf(Raised(disk, isPublished)) == ReleaseOf(disk)
  {
    var raised := Raised(disk, isPublished);
    RaisedKeepsVersions(disk, isPublished);
    forall i | 0 <= i < |disk|
      ensures InternalDeps(disk[i].manifest, Names(disk)) == InternalDeps(raised[i].manifest, Names(disk))
    {
      RaisedKeepsDeps(disk[i].manifest, Versions(disk), isPublished, Names(disk));
    }
    SameGraph(disk, raised);
  }

  /** Writing a manifest that keeps a package's dependencies, at whatever version, keeps the graph. */
  lemma WriteKeepsGraph(disk: seq<Package>, p: Package, m: Manifest)
    requires DistinctNames(disk) && m.name == p.Name()
    requires p.Name() in Names(disk) ==> InternalDeps(m, Names(disk)) == DepGraph(disk)[p.Name()]
    ensures DistinctNames(Write(disk, p, m)) && DepGraph(Write(disk, p, m)) == DepGraph(disk)
  {
    var after := Write(disk, p, m);
    forall i | 0 <= i < |disk|
      ensures disk[i].Name() == after[i].Name()
      ensures InternalDeps(disk[i].manifest, Names(disk)) == InternalDeps(after[i].manifest, Names(disk))
    {
      assert disk[i] in disk;
    }
    SameGraph(disk, after);
  }

  /** With one package left at another version, a checkout of several packages is not at one version. */
  lemma WriteBreaksLockstep(disk: seq<Package>, r: Release, p: Package, m: Manifest)
    requires Describes(disk, r) && HasSeveral(r)
    requires forall n, n' :: n in r.versions && n' in r.versions ==> r.versions[n] == r.versions[n']
    requires p.Name() in r.versions && m.version != r.versions[p.Name()]
    ensures !Lockstep(Write(disk, p, m))
  {
    var after := Write(disk, p, m);
    DescribedValid(disk, r);
    var n :| n in r.versions && n != p.Name();
    var i := PlaceOf(disk, disk, p.Name());
    var j := PlaceOf(disk, disk, n);
    VersionOfListed(disk, disk[j]);
    assert after[i] in after && after[j] in after;
  }

  // ---- safety over every run ----

  /** Whatever npm has of this release, it has the internal dependencies of, at the same (pre)release. */
  ghost predicate ClosedOnNpm(r: Release, npm: map<Spec, Manifest>, prerelease: string)
    requires r.Valid()
  {
    forall n, d :: n in r.deps && d in r.deps[n] && r.At(n, prerelease) in npm ==> r.At(d, prerelease) in npm
  }

  /** The entries of `m` that name packages name their releases, exactly or with a caret, and npm has those. */
  ghost predicate Pinned(r: Release, npm: map<Spec, Manifest>, m: Manifest, prerelease: string) {
    forall f, e :: e in Entries(m, f) && e.name in r.versions ==>
      && r.At(e.name, prerelease) in npm
      && e.range == (if prerelease == "" then "^" else "") + r.At(e.name, prerelease).1
  }

  ghost predicate PinnedOnNpm(r: Release, npm: map<Spec, Manifest>, prerelease: string) {
    forall n :: n in r.versions && r.At(n, prerelease) in npm ==> Pinned(r, npm, npm[r.At(n, prerelease)], prerelease)
  }

  /** What was closed, and what named only what npm has, is and does so still, for this suffix. */
  ghost predicate StaysClosed(r: Release, npm: map<Spec, Manifest>, npm': map<Spec, Manifest>, prerelease: string)
    requires r.Valid()
  {
    && (ClosedOnNpm(r, npm, prerelease) ==> ClosedOnNpm(r, npm', prerelease))
    && (PinnedOnNpm(r, npm, prerelease) ==> PinnedOnNpm(r, npm', prerelease))
  }

  /** A run of every package. */
  ghost predicate IsFullStart(e: Event) {
    e.Start? ==> e.plan.opts.only == ""
  }

  ghost predicate ListedBefore(order: seq<Package>, k: nat, n: string)
    requires k <= |order|
  {
    exists i :: 0 <= i < k && order[i].Name() == n
  }

  ghost predicate Listed(r: Release, p: Package) {
    && p.Name() in r.versions && p.Name() in r.deps
    && p.manifest.version == r.versions[p.Name()]
    && InternalDeps(p.manifest, r.versions.Keys) == r.deps[p.Name()]
  }

  /** What the rest of a full run relies on: every package of the release, dependencies first, at one version. */
  ghost predicate PlanFor(r: Release, plan: Plan) {
    && plan.opts.only == "" && plan.targets == plan.order
    && Versions(plan.disk) == r.versions
    && (forall n, n' :: n in r.versions && n' in r.versions ==> r.versions[n] == r.versions[n'])
    && (forall k :: 0 <= k < |plan.order| ==> Listed(r, plan.order[k]))
    && (forall k, d :: 0 <= k < |plan.order| && d in r.deps[plan.order[k].Name()] ==> ListedBefore(plan.order, k, d))
    && (forall n :: n in r.versions ==> ListedBefore(plan.order, |plan.order|, n))
  }

  /** The packages this run is done with are on npm. */
  ghost predicate PublishedSoFar(r: Release, npm: map<Spec, Manifest>, plan: Plan, done: nat) {
    && done <= |plan.order|
    && (!plan.opts.dryRun ==>
        forall i :: 0 <= i < done ==>
          plan.order[i].Name() in r.versions && r.At(plan.order[i].Name(), plan.opts.prerelease) in npm)
  }

  /** Several packages: the checkout is at the release, or out of use, and the run publishes in order. */
  ghost predicate SeveralInv(r: Release, s: State)
    requires r.Valid()
  {
    && DiskInv(r, s.disk, s.phase.Idle?)
    && (!s.phase.Idle? ==> PlanFor(r, s.phase.plan))
    && (s.phase.Publishing? ==> PublishedSoFar(r, s.npm, s.phase.plan, s.phase.done))
  }

  /** At most one: whatever its version has become, what it depends on has not changed. */
  ghost predicate OneInv(r: Release, s: State) {
    && DistinctNames(s.disk) && DepGraph(s.disk) == r.deps
    && (!s.phase.Idle? ==> IsPlan(s.phase.plan) && DepGraph(s.phase.plan.disk) == r.deps)
  }

  ghost predicate Inv(r: Release, s: State)
    requires r.Valid()
  {
    if HasSeveral(r) then SeveralInv(r, s) else OneInv(r, s)
  }

  lemma PlanListsRelease(disk: seq<Package>, r: Release, plan: Plan, k: nat)
    requires IsPlan(plan) && plan.disk == disk && Describes(disk, r) && k < |plan.order|
    ensures Listed(r, plan.order[k])
    ensures forall d :: d in r.deps[plan.order[k].Name()] ==> ListedBefore(plan.order, k, d)
  {
    var p := plan.order[k];
    assert p in plan.order;
    DescribedValid(disk, r);
    VersionOfListed(disk, p);
    forall d | d in r.deps[p.Name()]
      ensures ListedBefore(plan.order, k, d)
    {
      var i := DependenciesFirst(disk, plan.order, k, d);
    }
  }

  /** A full run starts with a plan for the release its checkout describes. */
  lemma StartPlans(r: Release, plan: Plan)
    requires IsPlan(plan) && Describes(plan.disk, r) && IsFullStart(Start(plan))
    ensures PlanFor(r, plan)
  {
    DescribedValid(plan.disk, r);
    forall k | 0 <= k < |plan.order|
      ensures Listed(r, plan.order[k])
      ensures forall d :: d in r.deps[plan.order[k].Name()] ==> ListedBefore(plan.order, k, d)
    {
      PlanListsRelease(plan.disk, r, plan, k);
    }
    forall n | n in r.versions
      ensures ListedBefore(plan.order, |plan.order|, n) && r.versions[n] == plan.disk[0].manifest.version
    {
      var i := PlaceOf(plan.disk, plan.order, n);
      assert plan.order[i] in plan.order;
      VersionOfListed(plan.disk, plan.order[i]);
    }
  }

  lemma SuffixDetermined(v: string, a: string, b: string)
    requires PublishVersion(v, a) == PublishVersion(v, b)
    ensures a == b
  {
    if a != "" && b != "" {
      assert (v + "-" + a)[|v| + 1..] == a;
      assert (v + "-" + b)[|v| + 1..] == b;
    } else {
      assert |PublishVersion(v, a)| == |PublishVersion(v, b)|;
    }
  }

  /** Adding a package whose dependencies are there keeps npm closed, for its own suffix and every other. */
  lemma PublishKeepsClosed(r: Release, npm: map<Spec, Manifest>, n: string, prerelease: string, m: Manifest,
                           pre: string)
    requires r.Valid() && n in r.versions
    requires ClosedOnNpm(r, npm, pre)
    requires forall d :: d in r.deps[n] ==> r.At(d, prerelease) in npm
    ensures ClosedOnNpm(r, npm[r.At(n, prerelease) := m], pre)
  {
    if r.At(n, pre) == r.At(n, prerelease) {
      SuffixDetermined(r.versions[n], pre, prerelease);
    }
  }

  lemma PublishKeepsPinned(r: Release, npm: map<Spec, Manifest>, n: string, prerelease: string, m: Manifest,
                           pre: string)
    requires n in r.versions && PinnedOnNpm(r, npm, pre) && Pinned(r, npm, m, prerelease)
    ensures PinnedOnNpm(r, npm[r.At(n, prerelease) := m], pre)
  {
    var after := npm[r.At(n, prerelease) := m];
    forall x | x in r.versions && r.At(x, pre) in after
      ensures Pinned(r, after, after[r.At(x, pre)], pre)
    {
      if r.At(x, pre) == r.At(n, prerelease) {
        SuffixDetermined(r.versions[n], pre, prerelease);
        assert Pinned(r, npm, m, prerelease);
      } else {
        assert Pinned(r, npm, npm[r.At(x, pre)], pre);
      }
    }
  }

  /** The entries of a planned manifest that name packages are pinned to their releases. */
  lemma PlannedIsPinned(r: Release, npm: map<Spec, Manifest>, p: Package, prerelease: string)
    requires r.Valid() && Listed(r, p)
    requires forall d :: d in r.deps[p.Name()] ==> r.At(d, prerelease) in npm
    ensures Pinned(r, npm, Published(p.manifest, r.versions, prerelease), prerelease)
  {
    var m := Published(p.manifest, r.versions, prerelease);
    forall f, e | e in Entries(m, f) && e.name in r.versions
      ensures e.name in r.deps[p.Name()]
      ensures e.range == (if prerelease == "" then "^" else "") + r.At(e.name, prerelease).1
    {
      PublishedEntryPinned(p.manifest, r.versions, prerelease, f, e);
    }
  }

  lemma PublishedEntryPinned(m: Manifest, versions: map<string, string>, prerelease: string, f: Field, e: Entry)
    requires e in Entries(Published(m, versions, prerelease), f) && e.name in versions
    ensures e.name in InternalDeps(m, versions.Keys)
    ensures e.range == (if prerelease == "" then "^" else "") + PublishVersion(versions[e.name], prerelease)
  {
    var out := Published(m, versions, prerelease);
    var k :| 0 <= k < |Entries(out, f)| && Entries(out, f)[k] == e;
    assert e == PublishedEntry(Entries(m, f)[k], versions, prerelease);
    assert Entries(m, f)[k] in Entries(m, f);
    EveryFieldListed(f);
  }

  /** What a publish adds to npm is the release of a package whose dependencies are there. */
  lemma PublishingStep(r: Release, plan: Plan, k: nat, npm: map<Spec, Manifest>, pre: string)
    requires r.Valid() && PlanFor(r, plan) && PublishedSoFar(r, npm, plan, k)
    requires !plan.opts.dryRun && k < |plan.order|
    ensures StaysClosed(r, npm, npm[plan.Spec(plan.order[k]) := plan.Manifest(plan.order[k])], pre)
  {
    var p, prerelease := plan.order[k], plan.opts.prerelease;
    assert plan.Spec(p) == r.At(p.Name(), prerelease);
    forall d | d in r.deps[p.Name()]
      ensures r.At(d, prerelease) in npm
    {
      assert ListedBefore(plan.order, k, d);
      var i :| 0 <= i < k && plan.order[i].Name() == d;
    }
    if ClosedOnNpm(r, npm, pre) {
      PublishKeepsClosed(r, npm, p.Name(), prerelease, plan.Manifest(p), pre);
    }
    if PinnedOnNpm(r, npm, pre) {
      PlannedIsPinned(r, npm, p, prerelease);
      PublishKeepsPinned(r, npm, p.Name(), prerelease, plan.Manifest(p), pre);
    }
  }

  lemma NpmStep(r: Release, plan: Plan, k: nat, npm: map<Spec, Manifest>, npm': map<Spec, Manifest>, pre: string)
    requires r.Valid() && PlanFor(r, plan) && PublishedSoFar(r, npm, plan, k) && k < |plan.order|
    requires npm' == npm || (!plan.opts.dryRun && npm' == npm[plan.Spec(plan.order[k]) := plan.Manifest(plan.order[k])])
    ensures StaysClosed(r, npm, npm', pre)
  {
    if npm' != npm {
      PublishingStep(r, plan, k, npm, pre);
    }
  }

  lemma StepKeepsNpm(r: Release, s: State, e: Event, pre: string)
    requires r.Valid() && SeveralInv(r, s) && Enabled(s, e)
    ensures StaysClosed(r, s.npm, Apply(s, e).npm, pre)
  {
    if e.Publish? || e.PublishFails? {
      NpmStep(r, s.phase.plan, s.phase.done, s.npm, Apply(s, e).npm, pre);
    } else {
      assert Apply(s, e).npm == s.npm;
    }
  }

  /** The package whose turn it is belongs to the release. */
  lemma TurnOf(r: Release, plan: Plan, k: nat)
    requires PlanFor(r, plan) && k < |plan.targets|
    ensures plan.targets == plan.order && Listed(r, plan.order[k])
    ensures plan.Spec(plan.order[k]) == r.At(plan.order[k].Name(), plan.opts.prerelease)
  {}

  /** A package.json written by a full run keeps the release; a prerelease written for good breaks the lockstep. */
  lemma WrittenDisk(r: Release, disk: seq<Package>, plan: Plan, k: nat)
    requires r.Valid() && Describes(disk, r) && PlanFor(r, plan) && k < |plan.order| && HasSeveral(r)
    ensures var p := plan.order[k];
            var after := Write(disk, p, plan.Manifest(p));
            && (plan.opts.prerelease == "" ==> Describes(after, r))
            && (plan.opts.prerelease != "" ==> !Lockstep(after))
  {
    var p := plan.order[k];
    DescribedValid(disk, r);
    assert Listed(r, p);
    if plan.opts.prerelease == "" {
      WriteKeepsRelease(disk, r, p);
    } else {
      assert |plan.Manifest(p).version| > |p.manifest.version|;
      WriteBreaksLockstep(disk, r, p, plan.Manifest(p));
    }
  }

  /** The checkout is at the release, or, between runs, out of use. */
  ghost predicate DiskInv(r: Release, disk: seq<Package>, idle: bool) {
    Describes(disk, r) || (idle && !Lockstep(disk))
  }

  lemma TurnKeepsDisk(r: Release, s: State, e: Event)
    requires r.Valid() && HasSeveral(r) && Describes(s.disk, r) && s.phase.Publishing? && PlanFor(r, s.phase.plan)
    requires Enabled(s, e) && (e.Publish? || e.PublishFails?)
    ensures DiskInv(r, Apply(s, e).disk, e.PublishFails?)
  {
    TurnOf(r, s.phase.plan, s.phase.done);
    WrittenDisk(r, s.disk, s.phase.plan, s.phase.done);
  }

  lemma StepKeepsDisk(r: Release, s: State, e: Event)
    requires r.Valid() && SeveralInv(r, s) && HasSeveral(r) && Enabled(s, e)
    requires e.Start? ==> IsPlan(e.plan)
    ensures DiskInv(r, Apply(s, e).disk, Apply(s, e).phase.Idle?)
  {
    if e.Publish? || e.PublishFails? {
      TurnKeepsDisk(r, s, e);
    } else {
      assert Apply(s, e).disk == s.disk;
    }
  }

  lemma OneMorePublished(r: Release, plan: Plan, k: nat, npm: map<Spec, Manifest>, npm': map<Spec, Manifest>)
    requires PlanFor(r, plan) && PublishedSoFar(r, npm, plan, k) && k < |plan.order|
    requires npm.Keys <= npm'.Keys && (!plan.opts.dryRun ==> plan.Spec(plan.order[k]) in npm')
    ensures PublishedSoFar(r, npm', plan, k + 1)
  {
    TurnOf(r, plan, k);
  }

  lemma StepKeepsPhase(r: Release, s: State, e: Event)
    requires r.Valid() && SeveralInv(r, s) && Enabled(s, e) && IsFullStart(e)
    requires e.Start? ==> IsPlan(e.plan)
    ensures var s' := Apply(s, e);
            && (!s'.phase.Idle? ==> PlanFor(r, s'.phase.plan))
            && (s'.phase.Publishing? ==> PublishedSoFar(r, s'.npm, s'.phase.plan, s'.phase.done))
  {
    if e.Start? {
      StartPlans(r, e.plan);
    } else if e.Skip? || e.Publish? {
      TurnOf(r, s.phase.plan, s.phase.done);
      OneMorePublished(r, s.phase.plan, s.phase.done, s.npm, Apply(s, e).npm);
    }
  }

  /** With at most one package that can be planned for, nothing depends on anything. */
  lemma OneNeedsNothing(r: Release, n: string)
    requires r.Valid() && !HasSeveral(r) && !HasCycle(r.deps) && n in r.deps
    ensures r.deps[n] == {}
  {
    NotItsOwnDependency(r.deps, n);
    assert forall d :: d in r.deps[n] ==> d in r.versions;
  }

  lemma StepKeepsOne(r: Release, s: State, e: Event, pre: string)
    requires r.Valid() && OneInv(r, s) && !HasSeveral(r) && Enabled(s, e)
    requires e.Start? ==> IsPlan(e.plan)
    ensures OneInv(r, Apply(s, e)) && StaysClosed(r, s.npm, Apply(s, e).npm, pre)
  {
    if e.Publish? || e.PublishFails? {
      OneTurn(r, s.phase.plan, s.phase.done, s.disk, s.npm, Apply(s, e).disk, Apply(s, e).npm, pre);
    } else {
      assert Apply(s, e).npm == s.npm && Apply(s, e).disk == s.disk;
    }
  }

  lemma OneTurn(r: Release, plan: Plan, k: nat, disk: seq<Package>, npm: map<Spec, Manifest>,
                disk': seq<Package>, npm': map<Spec, Manifest>, pre: string)
    requires r.Valid() && !HasSeveral(r) && DistinctNames(disk) && DepGraph(disk) == r.deps
    requires IsPlan(plan) && DepGraph(plan.disk) == r.deps && k < |plan.targets|
    requires disk' == disk || disk' == Write(disk, plan.targets[k], plan.Manifest(plan.targets[k]))
    requires npm' == npm || npm' == npm[plan.Spec(plan.targets[k]) := plan.Manifest(plan.targets[k])]
    ensures DistinctNames(disk') && DepGraph(disk') == r.deps && StaysClosed(r, npm, npm', pre)
  {
    var p := plan.targets[k];
    assert p in plan.targets && p in plan.order && p in plan.disk;
    OneWrites(r, disk, plan, p);
    OnePublishes(r, npm, plan, p, pre);
  }

  lemma OneWrites(r: Release, disk: seq<Package>, plan: Plan, p: Package)
    requires DistinctNames(disk) && DepGraph(disk) == r.deps
    requires IsPlan(plan) && DepGraph(plan.disk) == r.deps && p in plan.disk
    ensures var after := Write(disk, p, plan.Manifest(p)); DistinctNames(after) && DepGraph(after) == r.deps
  {
    assert Names(disk) == r.deps.Keys == Names(plan.disk);
    PublishedKeepsDeps(p.manifest, Versions(plan.disk), plan.opts.prerelease, Names(disk));
    WriteKeepsGraph(disk, p, plan.Manifest(p));
  }

  lemma OnePublishes(r: Release, npm: map<Spec, Manifest>, plan: Plan, p: Package, pre: string)
    requires r.Valid() && !HasSeveral(r)
    requires IsPlan(plan) && DepGraph(plan.disk) == r.deps && p in plan.disk
    ensures StaysClosed(r, npm, npm[plan.Spec(p) := plan.Manifest(p)], pre)
  {
    var m := plan.Manifest(p);
    assert p.Name() in Names(plan.disk);
    OneNeedsNothing(r, p.Name());
    forall n | n in r.deps
      ensures r.deps[n] == {}
    {
      OneNeedsNothing(r, n);
    }
    PublishedKeepsDeps(p.manifest, Versions(plan.disk), plan.opts.prerelease, Names(plan.disk));
    AddsUnneeding(r, npm, plan.Spec(p), m, pre);
  }

  lemma AddsUnneeding(r: Release, npm: map<Spec, Manifest>, spec: Spec, m: Manifest, pre: string)
    requires r.Valid() && InternalDeps(m, r.versions.Keys) == {}
    requires forall n :: n in r.deps ==> r.deps[n] == {}
    ensures StaysClosed(r, npm, npm[spec := m], pre)
  {
    var after := npm[spec := m];
    NamesNone(r, after, m);
    if PinnedOnNpm(r, npm, pre) {
      forall n | n in r.versions && r.At(n, pre) in after
        ensures Pinned(r, after, after[r.At(n, pre)], pre)
      {
        assert r.At(n, pre) != spec ==> Pinned(r, npm, npm[r.At(n, pre)], pre);
      }
    }
  }

  lemma NamesNone(r: Release, npm: map<Spec, Manifest>, m: Manifest)
    requires InternalDeps(m, r.versions.Keys) == {}
    ensures forall pre :: Pinned(r, npm, m, pre)
  {
    forall f, e | e in Entries(m, f)
      ensures e.name !in r.versions
    {
      EveryFieldListed(f);
      assert e.name in r.versions ==> e.name in InternalDeps(m, r.versions.Keys);
    }
  }

  /** Every step of every full run keeps npm closed, and the checkout at this release or out of use. */
  lemma StepKeepsInv(r: Release, s: State, e: Event, pre: string)
    requires r.Valid() && Inv(r, s) && Enabled(s, e) && IsFullStart(e)
    requires e.Start? ==> IsPlan(e.plan)
    ensures Inv(r, Apply(s, e)) && StaysClosed(r, s.npm, Apply(s, e).npm, pre)
  {
    if HasSeveral(r) {
      StepKeepsNpm(r, s, e, pre);
      StepKeepsDisk(r, s, e);
      StepKeepsPhase(r, s, e);
    } else {
      StepKeepsOne(r, s, e, pre);
    }
  }

  lemma InvAtRest(disk: seq<Package>, npm: map<Spec, Manifest>)
    requires DistinctNames(disk)
    ensures Inv(ReleaseOf(disk), State(disk, npm, Idle))
  {}

  lemma {:induction false} RunsKeepInv(disk: seq<Package>, npm: map<Spec, Manifest>, es: seq<Event>, s: State,
                                       pre: string)
    requires DistinctNames(disk) && IsRun(State(disk, npm, Idle), es, s)
    requires IsPlanned(es) && forall i :: 0 <= i < |es| ==> IsFullStart(es[i])
    ensures Inv(ReleaseOf(disk), s) && StaysClosed(ReleaseOf(disk), npm, s.npm, pre)
    decreases |es|
  {
    if es != [] {
      var k := |es| - 1;
      var m := RunUpTo(State(disk, npm, Idle), es, s, k);
      RunsKeepInv(disk, npm, es[..k], m, pre);
      StepKeepsInv(ReleaseOf(disk), m, es[k], pre);
    } else {
      NoEvents(State(disk, npm, Idle), s);
      InvAtRest(disk, npm);
    }
  }

  /**
   * From any checkout and any npm, over any sequence of full runs, each
   * stopping wherever it likes: if npm had no package of this release, or of
   * a prerelease of it, without its internal dependencies, it has none still;
   * and none whose ranges name something npm lacks, if it had none.
   */
  lemma RunsKeepNpmClosed(disk: seq<Package>, npm: map<Spec, Manifest>, es: seq<Event>, s: State, pre: string)
    requires DistinctNames(disk) && IsRun(State(disk, npm, Idle), es, s)
    requires IsPlanned(es) && forall i :: 0 <= i < |es| ==> IsFullStart(es[i])
    ensures ClosedOnNpm(ReleaseOf(disk), npm, pre) ==> ClosedOnNpm(ReleaseOf(disk), s.npm, pre)
    ensures PinnedOnNpm(ReleaseOf(disk), npm, pre) ==> PinnedOnNpm(ReleaseOf(disk), s.npm, pre)
  {
    RunsKeepInv(disk, npm, es, s, pre);
  }

  // ---- one run, with whatever options ----

  /**
   * While a run goes on, the checkout describes what it was planned for, the
   * packages whose turn is to come are as they were read, and the others are
   * on npm.
   */
  ghost predicate RunInv(s: State) {
    !s.phase.Idle? ==> OnCourse(s.phase.plan, if s.phase.Publishing? then s.phase.done else 0, s.disk, s.npm)
  }

  ghost predicate OnCourse(plan: Plan, done: nat, disk: seq<Package>, npm: map<Spec, Manifest>) {
    IsPlan(plan) && done <= |plan.targets| && DiskOnCourse(plan, done, disk) && NpmOnCourse(plan, done, npm)
  }

  ghost predicate DiskOnCourse(plan: Plan, done: nat, disk: seq<Package>) {
    && DistinctNames(plan.disk) && Describes(disk, ReleaseOf(plan.disk))
    && forall i :: done <= i < |plan.targets| ==> plan.targets[i] in disk
  }

  ghost predicate NpmOnCourse(plan: Plan, done: nat, npm: map<Spec, Manifest>)
    requires done <= |plan.targets|
  {
    !plan.opts.dryRun ==> forall i :: 0 <= i < done ==> plan.Spec(plan.targets[i]) in npm
  }

  lemma {:induction false} ChosenDistinct(pkgs: seq<Package>, only: string)
    requires DistinctNames(pkgs)
    ensures DistinctNames(Chosen(pkgs, only))
  {
    if pkgs != [] {
      var p, before := pkgs[|pkgs| - 1], pkgs[..|pkgs| - 1];
      ChosenDistinct(before, only);
      forall q | q in Chosen(before, only)
        ensures q.Name() != p.Name()
      {
        var i :| 0 <= i < |before| && before[i] == q;
        assert pkgs[i].Name() != pkgs[|pkgs| - 1].Name();
      }
    }
  }

  lemma TargetsListed(plan: Plan, k: nat)
    requires IsPlan(plan) && k < |plan.targets|
    ensures plan.targets[k] in plan.disk
    ensures plan.targets[k].Name() in Versions(plan.disk) &&
            plan.targets[k].manifest.version == Versions(plan.disk)[plan.targets[k].Name()]
    ensures plan.targets[k].Name() in Names(plan.disk)
  {
    var p := plan.targets[k];
    assert p in plan.targets && p in plan.order && p in plan.disk;
    VersionOfListed(plan.disk, p);
  }

  /** The turn of target `k` leaves the later ones on disk. */
  lemma LaterStay(disk: seq<Package>, plan: Plan, k: nat, i: nat)
    requires IsPlan(plan) && k < i < |plan.targets| && plan.targets[i] in disk
    ensures plan.targets[i] in Write(disk, plan.targets[k], plan.Manifest(plan.targets[k]))
  {
    ChosenDistinct(plan.order, plan.opts.only);
    OthersStay(disk, plan.targets[k], plan.Manifest(plan.targets[k]), plan.targets[i]);
  }

  lemma OthersStay(disk: seq<Package>, p: Package, m: Manifest, q: Package)
    requires q in disk && q.Name() != p.Name()
    ensures q in Write(disk, p, m)
  {
    var j :| 0 <= j < |disk| && disk[j] == q;
    assert Write(disk, p, m)[j] == q;
  }

  lemma TargetKeepsRelease(disk: seq<Package>, plan: Plan, k: nat)
    requires IsPlan(plan) && Describes(disk, ReleaseOf(plan.disk)) && k < |plan.targets| && plan.opts.prerelease == ""
    ensures Describes(Write(disk, plan.targets[k], plan.Manifest(plan.targets[k])), ReleaseOf(plan.disk))
  {
    var p, r := plan.targets[k], ReleaseOf(plan.disk);
    TargetsListed(plan, k);
    DescribedValid(disk, r);
    WriteKeepsRelease(disk, r, p);
  }

  lemma StartsOnCourse(plan: Plan, npm: map<Spec, Manifest>)
    requires IsPlan(plan)
    ensures OnCourse(plan, 0, plan.disk, npm)
  {
    forall i | 0 <= i < |plan.targets|
      ensures plan.targets[i] in plan.disk
    {
      TargetsListed(plan, i);
    }
  }

  lemma WriteStaysOnCourse(plan: Plan, k: nat, disk: seq<Package>)
    requires IsPlan(plan) && k < |plan.targets| && DiskOnCourse(plan, k, disk) && plan.opts.prerelease == ""
    ensures DiskOnCourse(plan, k + 1, Write(disk, plan.targets[k], plan.Manifest(plan.targets[k])))
  {
    TargetKeepsRelease(disk, plan, k);
    forall i | k < i < |plan.targets|
      ensures plan.targets[i] in Write(disk, plan.targets[k], plan.Manifest(plan.targets[k]))
    {
      LaterStay(disk, plan, k, i);
    }
  }

  lemma NpmStaysOnCourse(plan: Plan, k: nat, npm: map<Spec, Manifest>, npm': map<Spec, Manifest>)
    requires k < |plan.targets| && NpmOnCourse(plan, k, npm)
    requires npm.Keys <= npm'.Keys && (!plan.opts.dryRun ==> plan.Spec(plan.targets[k]) in npm')
    ensures NpmOnCourse(plan, k + 1, npm')
  {}

  lemma PublishStaysOnCourse(s: State, e: Event)
    requires RunInv(s) && Enabled(s, e) && (e.Publish? || e.Skip?)
    ensures RunInv(Apply(s, e))
  {
    var plan, k := s.phase.plan, s.phase.done;
    NpmStaysOnCourse(plan, k, s.npm, Apply(s, e).npm);
    if e.Publish? && !plan.opts.dryRun && plan.opts.prerelease == "" {
      WriteStaysOnCourse(plan, k, s.disk);
    } else {
      assert Apply(s, e).disk == s.disk;
    }
  }

  lemma StepKeepsRunInv(s: State, e: Event)
    requires RunInv(s) && Enabled(s, e) && (e.Start? ==> IsPlan(e.plan))
    ensures RunInv(Apply(s, e))
  {
    if e.Start? {
      StartsOnCourse(e.plan, s.npm);
    } else if e.Publish? || e.Skip? {
      PublishStaysOnCourse(s, e);
    }
  }

  lemma {:induction false} RunsKeepRunInv(s: State, es: seq<Event>, s': State)
    requires s.phase.Idle? && IsRun(s, es, s') && IsPlanned(es)
    ensures RunInv(s')
    decreases |es|
  {
    if es != [] {
      var k := |es| - 1;
      var m := RunUpTo(s, es, s', k);
      RunsKeepRunInv(s, es[..k], m);
      StepKeepsRunInv(m, es[k]);
    } else {
      NoEvents(s, s');
    }
  }

  /** When a run finishes, each package it was to publish is on npm as it published it. */
  lemma FinishedRunPublishedAll(s: State, p: Package)
    requires RunInv(s) && Enabled(s, Finish) && !s.phase.plan.opts.dryRun && p in s.phase.plan.targets
    ensures s.phase.plan.Spec(p) in s.npm
  {}

  // ---- a publish that fails ----

  lemma WritesBack(disk: seq<Package>, p: Package, m: Manifest)
    requires DistinctNames(disk) && p in disk
    ensures Write(disk, p, m) == disk <==> m == p.manifest
  {
    var i :| 0 <= i < |disk| && disk[i] == p;
    var after := Write(disk, p, m);
    assert after[i] == Package(p.dir, m);
    if m == p.manifest {
      forall j | 0 <= j < |disk|
        ensures after[j] == disk[j]
      {
        assert j != i ==> disk[j].Name() != p.Name();
      }
    }
  }

  /** The manifest already reads as it is released. */
  predicate IsReleased(m: Manifest, versions: map<string, string>) {
    forall f, e :: f in m.ranges && e in m.ranges[f] && e.name in versions ==> e.range == "^" + versions[e.name]
  }

  lemma PlannedAsRead(m: Manifest, versions: map<string, string>, prerelease: string)
    ensures Published(m, versions, prerelease) == m <==> prerelease == "" && IsReleased(m, versions)
  {
    if prerelease == "" {
      PublishedIsIdentity(m, versions);
    } else {
      assert |Published(m, versions, prerelease).version| > |m.version|;
    }
  }

  /**
   * Nothing puts the committed manifest back after a publish that fails, dry
   * run or not. The checkout is as it was exactly when the manifest already
   * read as released; it still describes the same release exactly when no
   * prerelease was being published, and is at one version exactly when that
   * holds or there is a single package.
   */
  lemma FailedPublishLeaves(s: State, e: Event)
    requires RunInv(s) && Enabled(s, e) && e.PublishFails?
    ensures var plan, after := s.phase.plan, Apply(s, e).disk;
            && (after == s.disk <==> plan.opts.prerelease == "" && IsReleased(e.pkg.manifest, Versions(plan.disk)))
            && (Describes(after, ReleaseOf(plan.disk)) <==> plan.opts.prerelease == "")
            && (Lockstep(after) <==> plan.opts.prerelease == "" || |s.disk| == 1)
  {
    var plan, p, k := s.phase.plan, e.pkg, s.phase.done;
    var r, m := ReleaseOf(plan.disk), plan.Manifest(p);
    TargetsListed(plan, k);
    WritesBack(s.disk, p, m);
    PlannedAsRead(p.manifest, Versions(plan.disk), plan.opts.prerelease);
    PlanAtOneVersion(plan);
    if plan.opts.prerelease == "" {
      TargetKeepsRelease(s.disk, plan, k);
      DescribedLockstep(Apply(s, e).disk, r, p.Name());
    } else {
      assert |m.version| > |p.manifest.version|;
      SuffixedDisk(s.disk, r, p, m);
    }
  }

  lemma PlanAtOneVersion(plan: Plan)
    requires IsPlan(plan)
    ensures forall n, n' :: n in Versions(plan.disk) && n' in Versions(plan.disk) ==>
            Versions(plan.disk)[n] == Versions(plan.disk)[n']
  {
    VersionsDomain(plan.disk);
    forall n | n in Versions(plan.disk)
      ensures Versions(plan.disk)[n] == plan.disk[0].manifest.version
    {
      var q :| q in plan.disk && q.Name() == n;
      VersionOfListed(plan.disk, q);
    }
  }

  lemma SuffixedDisk(disk: seq<Package>, r: Release, p: Package, m: Manifest)
    requires Describes(disk, r) && p in disk && p.Name() in r.versions && m.name == p.Name()
    requires p.manifest.version == r.versions[p.Name()] != m.version
    requires forall n, n' :: n in r.versions && n' in r.versions ==> r.versions[n] == r.versions[n']
    ensures !Describes(Write(disk, p, m), r)
    ensures Lockstep(Write(disk, p, m)) <==> |disk| == 1
  {
    SuffixedRelease(disk, r, p, m);
    DescribedValid(disk, r);
    if |disk| >= 2 {
      assert disk[0] in disk && disk[1] in disk && disk[0].Name() != disk[1].Name();
      assert disk[0].Name() in Names(disk) && disk[1].Name() in Names(disk);
      WriteBreaksLockstep(disk, r, p, m);
    }
  }

  lemma SuffixedRelease(disk: seq<Package>, r: Release, p: Package, m: Manifest)
    requires p in disk && p.Name() in r.versions && m.name == p.Name() && m.version != r.versions[p.Name()]
    ensures !Describes(Write(disk, p, m), r)
  {
    var after := Write(disk, p, m);
    var i :| 0 <= i < |disk| && disk[i] == p;
    assert after[i] in after && after[i].Name() == p.Name() && after[i].manifest.version == m.version;
    if DistinctNames(after) {
      VersionOfListed(after, after[i]);
    }
  }

  lemma DescribedLockstep(disk: seq<Package>, r: Release, n: string)
    requires Describes(disk, r) && n in r.versions
    requires forall n, n' :: n in r.versions && n' in r.versions ==> r.versions[n] == r.versions[n']
    ensures Lockstep(disk)
  {
    DescribedValid(disk, r);
    forall p | p in disk
      ensures p.manifest.version == r.versions[n]
    {
      VersionOfListed(disk, p);
    }
    var i := PlaceOf(disk, disk, n);
    assert disk[0] in disk;
  }

  /** In any sequence of runs, what a failed publish leaves in the checkout, all three. */
  lemma AfterFailedPublish(s: State, es: seq<Event>, s': State) returns (m: State)
    requires s.phase.Idle? && IsRun(s, es, s') && IsPlanned(es)
    requires es != [] && es[|es| - 1].PublishFails?
    ensures IsRun(s, es[..|es| - 1], m) && m.phase.Publishing? && IsPlan(m.phase.plan)
    ensures var plan, p := m.phase.plan, es[|es| - 1].pkg;
            && (s'.disk == m.disk <==> plan.opts.prerelease == "" && IsReleased(p.manifest, Versions(plan.disk)))
            && (Describes(s'.disk, ReleaseOf(plan.disk)) <==> plan.opts.prerelease == "")
            && (Lockstep(s'.disk) <==> plan.opts.prerelease == "" || |m.disk| == 1)
  {
    var k := |es| - 1;
    m := RunUpTo(s, es, s', k);
    RunsKeepRunInv(s, es[..k], m);
    FailedPublishLeaves(m, es[k]);
  }

  /** From a checkout that is not at one version no run, with whatever options, gets anywhere. */
  lemma {:induction false} NotLockstepRefused(s: State, es: seq<Event>, s': State)
    requires s.phase.Idle? && !Lockstep(s.disk) && IsRun(s, es, s') && IsPlanned(es)
    ensures es == [] && s' == s
    decreases |es|
  {
    if es != [] {
      var k := |es| - 1;
      var m := RunUpTo(s, es, s', k);
      NotLockstepRefused(s, es[..k], m);
    } else {
      NoEvents(s, s');
    }
  }

  lemma RunFrom(s: State, es: seq<Event>, s': State, t: nat) returns (m: State)
    requires IsRun(s, es, s') && t <= |es|
    ensures IsRun(s, es[..t], m) && IsRun(m, es[t..], s')
  {
    var path :| IsPath(path, es) && path[0] == s && path[|es|] == s';
    m := path[t];
    assert IsPath(path[..t + 1], es[..t]);
    assert IsPath(path[t..], es[t..]);
  }

  /** With several packages, a prerelease that fails to publish is the last thing that happens to a checkout. */
  lemma NothingAfterFailedPrerelease(s: State, es: seq<Event>, s': State, t: nat) returns (m: State)
    requires s.phase.Idle? && IsRun(s, es, s') && IsPlanned(es)
    requires t < |es| && es[t].PublishFails?
    ensures IsRun(s, es[..t], m) && m.phase.Publishing?
    ensures m.phase.plan.opts.prerelease != "" && |m.disk| != 1 ==> t == |es| - 1
  {
    var after := RunFrom(s, es, s', t + 1);
    m := FailedPrerelease(s, es[..t + 1], after);
    assert es[..t + 1][..t] == es[..t];
    if m.phase.plan.opts.prerelease != "" && |m.disk| != 1 {
      NotLockstepRefused(after, es[t + 1..], s');
    }
  }

  lemma FailedPrerelease(s: State, es: seq<Event>, s': State) returns (m: State)
    requires s.phase.Idle? && IsRun(s, es, s') && IsPlanned(es)
    requires es != [] && es[|es| - 1].PublishFails?
    ensures IsRun(s, es[..|es| - 1], m) && m.phase.Publishing? && s'.phase.Idle?
    ensures m.phase.plan.opts.prerelease != "" && |m.disk| != 1 ==> !Lockstep(s'.disk)
  {
    m := AfterFailedPublish(s, es, s');
    RestAfterFailure(s, es, s');
  }

  lemma RestAfterFailure(s: State, es: seq<Event>, s': State)
    requires IsRun(s, es, s') && es != [] && es[|es| - 1].PublishFails?
    ensures s'.phase.Idle?
  {
    var m := RunUpTo(s, es, s', |es| - 1);
  }
}
