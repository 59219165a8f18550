/** What single publish runs do: builds before publishes, `--only`, and the command itself. */
module PublishRuns {
  import opened Packages
  import opened DependencyGraph
  import opened ReleaseOrder
  import opened BuildSelection
  import opened Manifests
  import opened PublishProtocol
  import opened PublishOutcome

  // ---- nothing is published before everything is built ----

  /** The run started at `a` went on with the first `n` builds of its plan, all of them successful. */
  ghost predicate BuiltAfter(es: seq<Event>, a: nat, plan: Plan, n: nat) {
    && a + n < |es| && n <= |plan.builds|
    && es[a] == Start(plan)
    && forall t :: 0 <= t < n ==> es[a + 1 + t] == Build(plan.builds[t])
  }

  /** No other run starts after `a`, before `b`. */
  ghost predicate SameRun(es: seq<Event>, a: nat, b: nat)
    requires b <= |es|
  {
    forall t :: a < t < b ==> !es[t].Start?
  }

  ghost predicate History(es: seq<Event>, phase: Phase) {
    match phase
    case Idle => true
    case Building(plan, n) => n < |es| && BuiltAfter(es, |es| - 1 - n, plan, n)
    case Publishing(plan, _) => exists a: nat :: BuiltAfter(es, a, plan, |plan.builds|) && SameRun(es, a, |es|)
  }

  lemma BuildHistoryGrows(es: seq<Event>, plan: Plan, n: nat)
    requires n < |es| && n < |plan.builds| && BuiltAfter(es, |es| - 1 - n, plan, n)
    ensures BuiltAfter(es + [Build(plan.builds[n])], |es| - 1 - n, plan, n + 1)
  {}

  lemma BuildHistoryEnds(es: seq<Event>, plan: Plan, n: nat)
    requires n < |es| && BuiltAfter(es, |es| - 1 - n, plan, n)
    ensures BuiltAfter(es + [BuildsDone], |es| - 1 - n, plan, n)
    ensures SameRun(es + [BuildsDone], |es| - 1 - n, |es| + 1)
  {
    var a, longer := |es| - 1 - n, es + [BuildsDone];
    forall t | a < t < |longer|
      ensures !longer[t].Start?
    {
      if t < |es| {
        var x := t - a - 1;
        assert es[a + 1 + x] == Build(plan.builds[x]);
      }
    }
  }

  lemma PublishHistoryGrows(es: seq<Event>, a: nat, plan: Plan, n: nat, e: Event)
    requires BuiltAfter(es, a, plan, n) && SameRun(es, a, |es|) && !e.Start?
    ensures BuiltAfter(es + [e], a, plan, n) && SameRun(es + [e], a, |es| + 1)
  {}

  lemma HistoryGrows(es: seq<Event>, s: State, e: Event)
    requires History(es, s.phase) && Enabled(s, e)
    ensures History(es + [e], Apply(s, e).phase)
  {
    match s.phase
    case Idle =>
      if e.Start? {
        assert BuiltAfter(es + [e], |es|, e.plan, 0);
      }
    case Building(plan, n) =>
      if e.Build? {
        BuildHistoryGrows(es, plan, n);
      } else if e.BuildsDone? {
        BuildHistoryEnds(es, plan, n);
      }
    case Publishing(plan, k) =>
      var a: nat :| BuiltAfter(es, a, plan, |plan.builds|) && SameRun(es, a, |es|);
      if !e.Start? {
        PublishHistoryGrows(es, a, plan, |plan.builds|, e);
      }
  }

  lemma {:induction false} RunHasHistory(s: State, es: seq<Event>, s': State)
    requires s.phase.Idle? && IsRun(s, es, s')
    ensures History(es, s'.phase)
    decreases |es|
  {
    if es == [] {
      NoEvents(s, s');
    } else {
      var k := |es| - 1;
      var m := RunUpTo(s, es, s', k);
      RunHasHistory(s, es[..k], m);
      HistoryGrows(es[..k], m, es[k]);
      assert es == es[..k] + [es[k]];
    }
  }

  /**
   * In any sequence of runs, whatever their options, a publish comes after
   * the successful build of every package its own run needs, itself among them.
   */
  lemma BuildsBeforePublish(s: State, es: seq<Event>, s': State, t: nat) returns (plan: Plan, a: nat)
    requires s.phase.Idle? && IsRun(s, es, s') && IsPlanned(es)
    requires t < |es| && (es[t].Publish? || es[t].PublishFails?)
    ensures a < t && IsPlan(plan) && BuiltAfter(es[..t], a, plan, |plan.builds|) && SameRun(es, a, t)
    ensures es[t].pkg in plan.builds
  {
    var m := RunUpTo(s, es, s', t);
    RunHasHistory(s, es[..t], m);
    plan := m.phase.plan;
    a :| BuiltAfter(es[..t], a, plan, |plan.builds|) && SameRun(es[..t], a, t);
    forall x | a < x < t
      ensures !es[x].Start?
    {
      assert es[x] == es[..t][x];
    }
    assert es[a] == es[..t][a];
    TargetsAreBuilt(plan, m.phase.done);
  }

  lemma TargetsAreBuilt(plan: Plan, k: nat)
    requires IsPlan(plan) && k < |plan.targets|
    ensures plan.targets[k] in plan.builds
  {
    var p := plan.targets[k];
    assert p in plan.targets;
    assert p.Name() in Roots(plan.order, plan.opts.only);
  }

  /** Each build comes after the builds of all packages it links against. */
  lemma BuildLinksBuilt(plan: Plan, j: nat, d: string) returns (i: nat)
    requires IsPlan(plan) && j < |plan.builds|
    requires d in InternalDeps(plan.builds[j].manifest, Names(plan.disk))
    ensures i < j && plan.builds[i].Name() == d
  {
    i := BuildsDependenciesFirst(plan.disk, plan.order, plan.needed, j, d);
  }

  /**
   * A run that completes, after any number of runs that did not, leaves every
   * package it was to publish on npm: without `--only` all of the checkout.
   */
  lemma CompletedRunPublishedAll(start: State, es: seq<Event>, s: State) returns (plan: Plan, a: nat)
    requires start.phase.Idle? && IsRun(start, es, s) && IsPlanned(es)
    requires es != [] && es[|es| - 1].Finish?
    ensures a < |es| && es[a] == Start(plan) && SameRun(es, a, |es|)
    ensures !plan.opts.dryRun ==> forall p :: p in plan.targets ==> plan.Spec(p) in s.npm
    ensures forall p :: p in plan.targets <==> p in plan.disk && IsSelected(p, plan.opts.only)
  {
    var k := |es| - 1;
    var m := RunUpTo(start, es, s, k);
    RunsKeepRunInv(start, es[..k], m);
    RunHasHistory(start, es[..k], m);
    plan := m.phase.plan;
    a :| BuiltAfter(es[..k], a, plan, |plan.builds|) && SameRun(es[..k], a, k);
    SameRunOn(es, a, k);
    if !plan.opts.dryRun {
      forall p | p in plan.targets
        ensures plan.Spec(p) in s.npm
      {
        FinishedRunPublishedAll(m, p);
      }
    }
  }

  lemma SameRunOn(es: seq<Event>, a: nat, k: nat)
    requires a < k == |es| - 1 && !es[k].Start? && SameRun(es[..k], a, k)
    ensures es[a] == es[..k][a] && SameRun(es, a, |es|)
  {
    forall t | a < t < |es|
      ensures !es[t].Start?
    {
      if t < k {
        assert es[t] == es[..k][t];
      }
    }
  }

  // ---- one package only ----

  /**
   * `--only` builds the dependencies but publishes the package alone: npm
   * stays closed exactly when it already had them all.
   */
  lemma OnlyPublishKeepsClosed(r: Release, s: State, p: Package)
    requires r.Valid() && Enabled(s, Publish(p))
    requires IsPlan(s.phase.plan) && Describes(s.phase.plan.disk, r)
    requires s.phase.plan.opts.only != "" && !s.phase.plan.opts.dryRun
    requires ClosedOnNpm(r, s.npm, "")
    ensures p.Name() in r.deps
    ensures ClosedOnNpm(r, Apply(s, Publish(p)).npm, "") <==> forall d :: d in r.deps[p.Name()] ==> r.At(d, "") in s.npm
  {
    var plan, npm := s.phase.plan, Apply(s, Publish(p)).npm;
    OnlyTarget(r, plan, s.phase.done);
    assert npm == s.npm[r.At(p.Name(), "") := plan.Manifest(p)];
    AloneKeepsClosed(r, s.npm, p.Name(), plan.Manifest(p));
  }

  lemma OnlyTarget(r: Release, plan: Plan, k: nat)
    requires IsPlan(plan) && Describes(plan.disk, r) && k < |plan.targets|
    requires plan.opts.prerelease == ""
    ensures var p := plan.targets[k];
            && p.Name() in r.deps && p.Name() in r.versions && p.Name() !in r.deps[p.Name()]
            && plan.Spec(p) == r.At(p.Name(), "")
  {
    var p := plan.targets[k];
    assert p in plan.targets && p in plan.order && p in plan.disk;
    VersionOfListed(plan.disk, p);
    NotItsOwnDependency(r.deps, p.Name());
  }

  lemma AloneKeepsClosed(r: Release, npm: map<Spec, Manifest>, n: string, m: Manifest)
    requires r.Valid() && n in r.deps && n !in r.deps[n]
    requires ClosedOnNpm(r, npm, "")
    ensures ClosedOnNpm(r, npm[r.At(n, "") := m], "") <==> forall d :: d in r.deps[n] ==> r.At(d, "") in npm
  {
    var after := npm[r.At(n, "") := m];
    assert r.At(n, "") in after;
    if ClosedOnNpm(r, after, "") {
      forall d | d in r.deps[n]
        ensures r.At(d, "") in npm
      {
        assert r.At(d, "") in after;
      }
    }
  }

  // ---- the command ----

  /** How `npm publish` ends: done, failed, or failed although npm took the tarball. */
  datatype Reply = Accepted | Rejected | AcceptedUnseen

  /** What the outside world answers: builds by package name, npm lookups and publishes by spec. */
  datatype World = World(builds: string -> bool, sees: Spec -> bool, publishes: Spec -> Reply)

  ghost predicate Cooperative(w: World) {
    && (forall n :: w.builds(n))
    && (forall spec :: w.sees(spec))
    && (forall spec :: w.publishes(spec).Accepted?)
  }

  datatype Outcome = Refused | Stopped | Completed(published: seq<Spec>)

  class Checkout {
    var disk: seq<Package>
    var npm: map<Spec, Manifest>

    function AtRest(): State
      reads this
    {
      State(disk, npm, Idle)
    }

    /**
     * One publish run. `es` is what happened: a run of the protocol from the
     * old checkout and npm to the new ones.
     */
    method CmdPublish(opts: Options, world: World) returns (outcome: Outcome, ghost es: seq<Event>)
      requires DistinctNames(disk)
      modifies this
      ensures IsRun(old(AtRest()), es, AtRest())
      ensures outcome.Refused? <==>
              HasCycle(DepGraph(old(disk))) || !Lockstep(old(disk)) || !OptionsAccepted(old(disk), opts)
      ensures outcome.Refused? ==> es == [] && disk == old(disk) && npm == old(npm)
      ensures !outcome.Refused? ==>
              es != [] && es[0].Start? && IsPlan(es[0].plan) && es[0].plan.opts == opts && Continues([es[0]], es)
      ensures outcome.Completed? <==> es != [] && es[|es| - 1] == Finish
      ensures outcome.Completed? ==> PublishedIn(es[0].plan, es, outcome.published)
      ensures outcome.Completed? ==> CommandLeft(es[0].plan, es, old(npm), disk, npm)
      ensures Cooperative(world) ==> !outcome.Stopped?
    {
      ghost var start := AtRest();
      var refused, plan := MakePlan(opts);
      if refused {
        NoEvents(AtRest(), AtRest());
        return Refused, [];
      }
      outcome, es := RunPlan(plan, world);
      if outcome.Completed? {
        CommandLeaves(start, es, AtRest(), plan);
      }
    }

    method RunPlan(plan: Plan, world: World) returns (outcome: Outcome, ghost es: seq<Event>)
      requires plan.disk == disk
      modifies this
      ensures IsRun(old(AtRest()), es, AtRest())
      ensures es != [] && es[0] == Start(plan) && Continues([es[0]], es)
      ensures !outcome.Refused?
      ensures outcome.Completed? <==> es[|es| - 1] == Finish
      ensures outcome.Completed? ==> PublishedIn(plan, es, outcome.published)
      ensures Cooperative(world) ==> !outcome.Stopped?
    {
      ghost var start := AtRest();
      var built;
      built, es := BuildPhase(plan, world);
      if !built {
        return Stopped, es;
      }
      outcome, es := PublishAll(plan, world, start, es);
    }

    /** Everything before the first publish. */
    method BuildPhase(plan: Plan, world: World) returns (built: bool, ghost es: seq<Event>)
      requires plan.disk == disk
      ensures IsRun(AtRest(), es, if built then State(disk, npm, Publishing(plan, 0)) else AtRest())
      ensures Continues([Start(plan)], es) && PublishedIn(plan, es, []) && es[|es| - 1] != Finish
      ensures (forall n :: world.builds(n)) ==> built
    {
      ghost var start := AtRest();
      StartsRun(start, plan);
      es := [Start(plan)];
      var done := BuildAll(plan, world, start, es);
      built := |done| == |plan.builds|;
      es := es + BuildEvents(plan, |done|);
      ghost var e := if built then BuildsDone else Stop;
      OneMoreEvent(start, es, State(disk, npm, Building(plan, |done|)), e);
      BuildsContinue(plan, |done|, e);
      es := es + [e];
    }

    /** What the run decides before its first build, or its refusal. */
    method MakePlan(opts: Options) returns (refused: bool, plan: Plan)
      requires DistinctNames(disk)
      ensures refused <==> HasCycle(DepGraph(disk)) || !Lockstep(disk) || !OptionsAccepted(disk, opts)
      ensures !refused ==> IsPlan(plan) && plan.disk == disk && plan.opts == opts
    {
      plan := Plan(opts, disk, [], {}, [], []);
      var ordered := Order(disk);
      if ordered.CycleAmong? {
        return true, plan;
      }
      var pkgs := ordered.pkgs;
      LockstepOfPermutation(disk, pkgs);
      if pkgs == [] || exists p :: p in pkgs && p.manifest.version != pkgs[0].manifest.version {
        return true, plan;
      }
      if opts.only != "" && opts.prerelease != "" {
        return true, plan;
      }
      if opts.only != "" && !exists p :: p in pkgs && p.dir == opts.only {
        return true, plan;
      }
      GraphIsClosed(disk);
      SameElementsSameNames(disk, pkgs);
      var needed := NeededFor(pkgs, DepGraph(disk), opts.only);
      return false, Plan(opts, disk, pkgs, needed, Named(pkgs, needed), Chosen(pkgs, opts.only));
    }

    method BuildAll(plan: Plan, world: World, ghost start: State, ghost es: seq<Event>) returns (built: seq<Package>)
      requires IsRun(start, es, State(disk, npm, Building(plan, 0)))
      ensures |built| <= |plan.builds|
      ensures IsRun(start, es + BuildEvents(plan, |built|), State(disk, npm, Building(plan, |built|)))
      ensures (forall n :: world.builds(n)) ==> |built| == |plan.builds|
    {
      built := [];
      assert es + BuildEvents(plan, 0) == es;
      while |built| < |plan.builds|
        invariant |built| <= |plan.builds|
        invariant IsRun(start, es + BuildEvents(plan, |built|), State(disk, npm, Building(plan, |built|)))
      {
        var p := plan.builds[|built|];
        if !world.builds(p.Name()) {
          return;
        }
        OneMoreBuild(start, es, disk, npm, plan, |built|);
        built := built + [p];
      }
    }

    method PublishAll(plan: Plan, world: World, ghost start: State, ghost es: seq<Event>)
      returns (outcome: Outcome, ghost es': seq<Event>)
      requires IsRun(start, es, State(disk, npm, Publishing(plan, 0)))
      requires Continues([Start(plan)], es) && PublishedIn(plan, es, [])
      modifies this
      ensures !outcome.Refused?
      ensures IsRun(start, es', AtRest())
      ensures Continues([Start(plan)], es')
      ensures outcome.Completed? <==> es'[|es'| - 1] == Finish
      ensures outcome.Completed? ==> PublishedIn(plan, es', outcome.published)
      ensures Cooperative(world) ==> outcome.Completed?
    {
      var failed, published;
      failed, published, es' := TakeTurns(plan, world, start, es);
      if failed {
        return Stopped, es';
      }
      LastEvent(start, es', State(disk, npm, Publishing(plan, |plan.targets|)), plan, published);
      es' := es' + [Finish];
      outcome := Completed(published);
    }

    method TakeTurns(plan: Plan, world: World, ghost start: State, ghost es: seq<Event>)
      returns (failed: bool, published: seq<Spec>, ghost es': seq<Event>)
      requires IsRun(start, es, State(disk, npm, Publishing(plan, 0)))
      requires Continues([Start(plan)], es) && PublishedIn(plan, es, [])
      modifies this
      ensures IsRun(start, es', State(disk, npm, if failed then Idle else Publishing(plan, |plan.targets|)))
      ensures Continues([Start(plan)], es') && PublishedIn(plan, es', published)
      ensures failed ==> es'[|es'| - 1] != Finish
      ensures Cooperative(world) ==> !failed
    {
      failed, published, es' := false, [], es;
      var k := 0;
      while k < |plan.targets|
        invariant k <= |plan.targets|
        invariant IsRun(start, es', State(disk, npm, Publishing(plan, k)))
        invariant Continues([Start(plan)], es') && PublishedIn(plan, es', published)
      {
        failed, published, es' := TakeTurn(plan, world, start, es', k, published);
        if failed {
          return;
        }
        k := k + 1;
      }
      failed := false;
    }

    /** One turn of the publish loop, and what has happened and been published by then. */
    method TakeTurn(plan: Plan, world: World, ghost start: State, ghost es: seq<Event>, k: nat, before: seq<Spec>)
      returns (failed: bool, published: seq<Spec>, ghost es': seq<Event>)
      requires k < |plan.targets| && IsRun(start, es, State(disk, npm, Publishing(plan, k)))
      requires Continues([Start(plan)], es) && PublishedIn(plan, es, before)
      modifies this
      ensures IsRun(start, es', State(disk, npm, if failed then Idle else Publishing(plan, k + 1)))
      ensures Continues([Start(plan)], es') && PublishedIn(plan, es', published)
      ensures es'[|es'| - 1] != Finish
      ensures Cooperative(world) ==> !failed
    {
      ghost var s := State(disk, npm, Publishing(plan, k));
      ghost var e;
      var spec, turn;
      spec, turn, e := PublishOne(plan, plan.targets[k], world, k);
      OneMoreTurn(start, [Start(plan)], es, s, e, plan, before);
      es' := es + [e];
      failed := turn == Failed;
      published := before + if turn == Done then [spec] else [];
    }

    /** The turn itself, and the protocol event it is. */
    method PublishOne(plan: Plan, p: Package, world: World, ghost k: nat)
      returns (spec: Spec, turn: Turn, ghost e: Event)
      requires k < |plan.targets| && p == plan.targets[k]
      modifies this
      ensures var s := State(old(disk), old(npm), Publishing(plan, k));
              && Enabled(s, e) && !e.Start? && e != Finish
              && Apply(s, e) == State(disk, npm, if turn == Failed then Idle else Publishing(plan, k + 1))
      ensures spec == plan.Spec(p)
      ensures turn == Done ==> e == Publish(p)
      ensures PublishedBy(plan, e) == if turn == Done then [spec] else []
      ensures turn == Skipped ==> e == Skip(p) && disk == old(disk) && npm == old(npm)
      ensures Cooperative(world) ==> turn != Failed
    {
      var manifest := PublishManifest(p.manifest, Versions(plan.disk), plan.opts.prerelease);
      spec := (manifest.name, manifest.version);
      if spec in npm && world.sees(spec) {
        return spec, Skipped, Skip(p);
      }
      var original := disk;
      disk := Write(disk, p, manifest);
      var reply := if !plan.opts.dryRun && spec in npm then Rejected else world.publishes(spec);
      if !plan.opts.dryRun && !reply.Rejected? {
        npm := npm[spec := manifest];
      }
      if !reply.Accepted? {
        return spec, Failed, PublishFails(p, !plan.opts.dryRun && reply.AcceptedUnseen?);
      }
      if plan.opts.dryRun || plan.opts.prerelease != "" {
        disk := original;
      }
      return spec, Done, Publish(p);
    }
  }

  datatype Turn = Skipped | Done | Failed

  /** `longer` goes on from `es` within the same run. */
  ghost predicate Continues(es: seq<Event>, longer: seq<Event>) {
    es <= longer && forall t :: |es| <= t < |longer| ==> !longer[t].Start?
  }

  /** The list of published specs before and after each event. */
  ghost predicate IsLog(plan: Plan, es: seq<Event>, log: seq<seq<Spec>>) {
    && |log| == |es| + 1 && log[0] == []
    && forall t :: 0 <= t < |es| ==> log[t + 1] == log[t] + PublishedBy(plan, es[t])
  }

  /** `published` is what a run's events published, in order. */
  ghost predicate PublishedIn(plan: Plan, es: seq<Event>, published: seq<Spec>) {
    exists log :: IsLog(plan, es, log) && log[|es|] == published
  }

  ghost function PublishedBy(plan: Plan, e: Event): seq<Spec> {
    if e.Publish? then [plan.Spec(e.pkg)] else []
  }

  lemma PublishedOneMore(plan: Plan, es: seq<Event>, e: Event, published: seq<Spec>)
    requires PublishedIn(plan, es, published)
    ensures PublishedIn(plan, es + [e], published + PublishedBy(plan, e))
  {
    var log :| IsLog(plan, es, log) && log[|es|] == published;
    assert IsLog(plan, es + [e], log + [published + PublishedBy(plan, e)]);
  }

  lemma NothingPublishedYet(plan: Plan, es: seq<Event>)
    requires forall t :: 0 <= t < |es| ==> !es[t].Publish?
    ensures PublishedIn(plan, es, [])
  {
    assert IsLog(plan, es, seq(|es| + 1, _ => []));
  }

  /** The events alone say what was published. */
  lemma {:induction false} PublishedIsDetermined(plan: Plan, es: seq<Event>, a: seq<seq<Spec>>, b: seq<seq<Spec>>,
                                                 t: nat)
    requires IsLog(plan, es, a) && IsLog(plan, es, b) && t <= |es|
    ensures a[t] == b[t]
  {
    if t > 0 {
      PublishedIsDetermined(plan, es, a, b, t - 1);
      assert a[t - 1 + 1] == b[t - 1 + 1];
    }
  }

  lemma OneMoreBuild(start: State, es: seq<Event>, disk: seq<Package>, npm: map<Spec, Manifest>, plan: Plan, n: nat)
    requires n < |plan.builds|
    requires IsRun(start, es + BuildEvents(plan, n), State(disk, npm, Building(plan, n)))
    ensures IsRun(start, es + BuildEvents(plan, n + 1), State(disk, npm, Building(plan, n + 1)))
  {
    var e := Build(plan.builds[n]);
    OneMoreEvent(start, es + BuildEvents(plan, n), State(disk, npm, Building(plan, n)), e);
    assert es + BuildEvents(plan, n) + [e] == es + BuildEvents(plan, n + 1);
  }

  lemma StartsRun(s: State, plan: Plan)
    requires Enabled(s, Start(plan))
    ensures IsRun(s, [Start(plan)], Apply(s, Start(plan)))
  {
    NoEvents(s, s);
    OneMoreEvent(s, [], s, Start(plan));
    assert [] + [Start(plan)] == [Start(plan)];
  }

  lemma BuildsContinue(plan: Plan, n: nat, e: Event)
    requires n <= |plan.builds| && !e.Start? && !e.Publish?
    ensures Continues([Start(plan)], [Start(plan)] + BuildEvents(plan, n) + [e])
    ensures PublishedIn(plan, [Start(plan)] + BuildEvents(plan, n) + [e], [])
  {
    NothingPublishedYet(plan, [Start(plan)] + BuildEvents(plan, n) + [e]);
  }

  lemma LastEvent(start: State, es: seq<Event>, s: State, plan: Plan, published: seq<Spec>)
    requires IsRun(start, es, s) && Enabled(s, Finish) && Continues([Start(plan)], es)
    requires PublishedIn(plan, es, published)
    ensures IsRun(start, es + [Finish], s.(phase := Idle)) && Continues([Start(plan)], es + [Finish])
    ensures PublishedIn(plan, es + [Finish], published)
  {
    OneMoreTurn(start, [Start(plan)], es, s, Finish, plan, published);
    assert published + [] == published;
  }

  lemma OneMoreTurn(start: State, before: seq<Event>, es: seq<Event>, s: State, e: Event, plan: Plan,
                    published: seq<Spec>)
    requires IsRun(start, es, s) && Enabled(s, e) && !e.Start? && Continues(before, es)
    requires PublishedIn(plan, es, published)
    ensures IsRun(start, es + [e], Apply(s, e)) && Continues(before, es + [e])
    ensures PublishedIn(plan, es + [e], published + PublishedBy(plan, e))
  {
    OneMoreEvent(start, es, s, e);
    PublishedOneMore(plan, es, e, published);
  }

  ghost function BuildEvents(plan: Plan, n: nat): seq<Event>
    requires n <= |plan.builds|
  {
    seq(n, i requires 0 <= i < n => Build(plan.builds[i]))
  }

  lemma LockstepOfPermutation(disk: seq<Package>, pkgs: seq<Package>)
    requires IsPermutation(disk, pkgs)
    ensures Lockstep(disk) <==> pkgs != [] && forall p :: p in pkgs ==> p.manifest.version == pkgs[0].manifest.version
  {
    if pkgs != [] {
      assert pkgs[0] in disk && disk[0] in pkgs;
    }
  }

  lemma SameElementsSameNames(disk: seq<Package>, pkgs: seq<Package>)
    requires IsPermutation(disk, pkgs)
    ensures Names(disk) == Names(pkgs)
  {}

  // ---- a failed dry run ----

  lemma {:induction false} BuildsReachable(plan: Plan, npm: map<Spec, Manifest>, n: nat)
    requires n <= |plan.builds|
    ensures IsRun(State(plan.disk, npm, Idle), [Start(plan)] + BuildEvents(plan, n),
                  State(plan.disk, npm, Building(plan, n)))
  {
    var start := State(plan.disk, npm, Idle);
    if n == 0 {
      StartsRun(start, plan);
      assert [Start(plan)] + BuildEvents(plan, 0) == [Start(plan)];
    } else {
      BuildsReachable(plan, npm, n - 1);
      OneMoreBuild(start, [Start(plan)], plan.disk, npm, plan, n - 1);
    }
  }

  ghost function UpToFailure(plan: Plan): seq<Event>
    requires plan.targets != []
  {
    [Start(plan)] + BuildEvents(plan, |plan.builds|) + [BuildsDone] + [PublishFails(plan.targets[0], false)]
  }

  lemma OneStart(plan: Plan)
    requires plan.targets != []
    ensures var es := UpToFailure(plan); es[0] == Start(plan) && forall i :: 0 < i < |es| ==> !es[i].Start?
  {
    var es, builds := UpToFailure(plan), BuildEvents(plan, |plan.builds|);
    forall i | 0 < i < |es|
      ensures !es[i].Start?
    {
      if i <= |builds| {
        assert es[i] == builds[i - 1];
      }
    }
  }

  lemma UpToFailureIsPlanned(plan: Plan)
    requires IsPlan(plan) && plan.targets != []
    ensures IsPlanned(UpToFailure(plan))
  {
    OneStart(plan);
  }

  /** Whatever is planned, its first publish can fail: nothing has changed by then but its own manifest. */
  lemma FirstPublishCanFail(plan: Plan, npm: map<Spec, Manifest>)
    requires plan.targets != []
    ensures var s := State(Write(plan.disk, plan.targets[0], plan.Manifest(plan.targets[0])), npm, Idle);
            IsRun(State(plan.disk, npm, Idle), UpToFailure(plan), s)
  {
    var start, n, p := State(plan.disk, npm, Idle), |plan.builds|, plan.targets[0];
    var builds := [Start(plan)] + BuildEvents(plan, n);
    var built, publishing := State(plan.disk, npm, Building(plan, n)), State(plan.disk, npm, Publishing(plan, 0));
    BuildsReachable(plan, npm, n);
    OneMoreEvent(start, builds, built, BuildsDone);
    assert Apply(built, BuildsDone) == publishing;
    OneMoreEvent(start, builds + [BuildsDone], publishing, PublishFails(p, false));
  }

  /** A checkout of two packages, the second with a range on the first, and a dry run of the second alone. */
  function DryRun(version: string, range: string): Plan {
    var b := Package("b", Manifest("b", version, map[], ""));
    var a := Needing("a", version, "b", range);
    Plan(Options("a", true, ""), [b, a], [b, a], {"a", "b"}, [b, a], [a])
  }

  lemma DryRunGraph(version: string, range: string)
    ensures var disk := DryRun(version, range).disk;
            DistinctNames(disk) && DepGraph(disk) == map["b" := {}, "a" := {"b"}] && Lockstep(disk)
  {
    var plan := DryRun(version, range);
    var b, a := plan.disk[0], plan.disk[1];
    GraphOfTwo(b, a);
    NeedsOnly(a.manifest, "b", [Entry("b", range)], {"b", "a"});
    assert InternalDeps(b.manifest, {"b", "a"}) == {};
  }

  lemma TwoNamesInOrder()
    ensures var g: Graph := map["b" := {}, "a" := {"b"}];
            !HasCycle(g) && NoDeeper(g, "b", "a") && !NoDeeper(g, "a", "b")
  {
    var g: Graph := map["b" := {}, "a" := {"b"}];
    forall c | IsChain(g, c) && |c| >= 2
      ensures c[0] == "a" && c[|c| - 1] == "b"
    {
      assert c[0 + 1] in g[c[0]];
      assert c[|c| - 2 + 1] in g[c[|c| - 2]];
    }
    assert IsChain(g, ["b"]) && IsChain(g, ["a"]) && IsChain(g, ["a", "b"]);
    forall k: nat | HasChain(g, "b", k)
      ensures HasChain(g, "a", k)
    {
      var c :| IsChain(g, c) && |c| == k + 1 && c[0] == "b";
      assert HasChain(g, "a", 0) && k == 0;
    }
    assert HasChain(g, "a", 1);
  }

  lemma DryRunIsPlan(version: string, range: string)
    ensures IsPlan(DryRun(version, range))
  {
    var plan := DryRun(version, range);
    DryRunGraph(version, range);
    TwoNamesInOrder();
    DryRunIsOrdered(plan.disk, DepGraph(plan.disk));
    RootsOfTwo(plan.order[0], plan.order[1]);
    NamedOfTwo(plan.order[0], plan.order[1]);
    ChosenOfTwo(plan.order[0], plan.order[1]);
    DryRunNeeds(DepGraph(plan.disk));
    assert plan.disk[1] in plan.disk;
  }

  lemma DryRunIsOrdered(disk: seq<Package>, g: Graph)
    requires |disk| == 2 && disk[0].Name() == "b" && disk[1].Name() == "a"
    requires NoDeeper(g, "b", "a") && !NoDeeper(g, "a", "b")
    ensures IsPermutation(disk, disk) && IsOrdered(disk, g, disk)
  {
    assert InOrder(disk, g, disk[0], disk[1]);
  }

  lemma DryRunNeeds(g: Graph)
    requires g == map["b" := {}, "a" := {"b"}]
    ensures IsClosureOf(g, {"a"}, {"a", "b"})
  {
    forall t: set<string> | {"a"} <= t && DepsClosed(g, t)
      ensures {"a", "b"} <= t
    {
      assert "a" in t && g["a"] <= t;
    }
  }

  lemma RootsOfTwo(b: Package, a: Package)
    requires a.Name() == a.dir == "a" && b.dir == "b"
    ensures Roots([b, a], "a") == {"a"}
  {
    assert [b, a][1] in [b, a];
  }

  lemma NamedOfTwo(b: Package, a: Package)
    requires b.Name() == "b" && a.Name() == "a"
    ensures Named([b, a], {"a", "b"}) == [b, a]
  {
    assert [b, a][..1] == [b] && [b][..0] == [];
    assert Named([b], {"a", "b"}) == Named([], {"a", "b"}) + [b];
  }

  lemma ChosenOfTwo(b: Package, a: Package)
    requires b.dir == "b" && a.dir == "a"
    ensures Chosen([b, a], "a") == [a]
  {
    assert [b, a][..1] == [b] && [b][..0] == [];
    assert Chosen([b], "a") == Chosen([], "a");
  }

  /** A dry run whose publish fails can leave another package.json behind than it found. */
  lemma FailedDryRunCanChangeDisk(version: string, range: string) returns (es: seq<Event>, s: State)
    requires range != "^" + version
    ensures var plan := DryRun(version, range);
            && IsPlan(plan) && plan.opts.dryRun
            && IsRun(State(plan.disk, map[], Idle), es, s) && IsPlanned(es)
            && s.phase.Idle? && s.disk != plan.disk
  {
    var plan := DryRun(version, range);
    DryRunIsPlan(version, range);
    UpToFailureIsPlanned(plan);
    FirstPublishCanFail(plan, map[]);
    es := UpToFailure(plan);
    s := State(Write(plan.disk, plan.targets[0], plan.Manifest(plan.targets[0])), map[], Idle);
    DryRunRewrites(version, range);
  }

  lemma DryRunRewrites(version: string, range: string)
    requires range != "^" + version
    ensures var plan := DryRun(version, range);
            Write(plan.disk, plan.targets[0], plan.Manifest(plan.targets[0])) != plan.disk
  {
    var plan := DryRun(version, range);
    var a := plan.targets[0];
    DryRunGraph(version, range);
    WritesBack(plan.disk, a, plan.Manifest(a));
    PlannedAsRead(a.manifest, Versions(plan.disk), "");
    VersionOfListed(plan.disk, plan.disk[0]);
    assert Entry("b", range) in a.manifest.ranges[Dependencies];
  }
}
