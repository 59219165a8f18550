/** What a publish run leaves: in the checkout and on npm, read off its events. */
module PublishOutcome {
  import opened Packages
  import opened DependencyGraph
  import opened ReleaseOrder
  import opened Manifests
  import opened PublishProtocol

  /** The last run of `es` started at `a`. */
  ghost predicate StartedAt(es: seq<Event>, a: nat, plan: Plan) {
    a < |es| && es[a] == Start(plan) && forall t :: a < t < |es| ==> !es[t].Start?
  }

  ghost predicate PublishedSince(es: seq<Event>, a: nat, p: Package) {
    exists t :: a < t < |es| && es[t] == Publish(p)
  }

  /** The checkout holds the published manifests of `es`'s last run, and all else as that run read it. */
  ghost predicate HoldsPublished(plan: Plan, es: seq<Event>, a: nat, disk: seq<Package>) {
    && |disk| == |plan.disk|
    && forall i :: 0 <= i < |disk| ==> disk[i] == AfterRun(plan, es, a, plan.disk[i])
  }

  ghost function AfterRun(plan: Plan, es: seq<Event>, a: nat, p: Package): Package {
    if PublishedSince(es, a, p) then Package(p.dir, Published(p.manifest, Versions(plan.disk), "")) else p
  }

  /** Dry runs and prereleases leave the checkout as it was; other runs leave what they published. */
  ghost predicate DiskLeft(plan: Plan, es: seq<Event>, a: nat, disk: seq<Package>) {
    if plan.opts.dryRun || plan.opts.prerelease != "" then disk == plan.disk else HoldsPublished(plan, es, a, disk)
  }

  /**
   * npm has gained the first `done` targets, as far as it lacked them, and
   * nothing else; what it had it still has as it was.
   */
  ghost predicate NpmLeft(plan: Plan, done: nat, npm0: map<Spec, Manifest>, npm: map<Spec, Manifest>)
    requires done <= |plan.targets|
  {
    if plan.opts.dryRun then npm == npm0
    else forall spec {:trigger SpecLeft(plan, done, npm0, npm, spec)} :: SpecLeft(plan, done, npm0, npm, spec)
  }

  ghost predicate SpecLeft(plan: Plan, done: nat, npm0: map<Spec, Manifest>, npm: map<Spec, Manifest>, spec: Spec)
    requires done <= |plan.targets|
  {
    if spec in npm0 then spec in npm && npm[spec] == npm0[spec]
    else
      && (IsTarget(plan, done, spec) ==> spec in npm)
      && (spec in npm ==> IsTargetAs(plan, done, spec, npm[spec]))
  }

  ghost predicate IsTarget(plan: Plan, done: nat, spec: Spec)
    requires done <= |plan.targets|
  {
    exists i :: 0 <= i < done && plan.Spec(plan.targets[i]) == spec
  }

  ghost predicate IsTargetAs(plan: Plan, done: nat, spec: Spec, m: Manifest)
    requires done <= |plan.targets|
  {
    exists i :: 0 <= i < done && plan.Spec(plan.targets[i]) == spec && plan.Manifest(plan.targets[i]) == m
  }

  ghost predicate IsPublishedIfMissing(plan: Plan, i: nat, done: nat, npm0: map<Spec, Manifest>, es: seq<Event>, a: nat)
    requires i < |plan.targets|
  {
    PublishedSince(es, a, plan.targets[i]) <==> i < done && plan.Spec(plan.targets[i]) !in npm0
  }

  /** The targets the run has published are those npm lacked when it started. */
  ghost predicate PublishedMissing(plan: Plan, done: nat, npm0: map<Spec, Manifest>, es: seq<Event>, a: nat)
    requires done <= |plan.targets|
  {
    !plan.opts.dryRun ==>
      forall i {:trigger IsPublishedIfMissing(plan, i, done, npm0, es, a)} ::
        0 <= i < |plan.targets| ==> IsPublishedIfMissing(plan, i, done, npm0, es, a)
  }

  // ---- one event ----

  lemma NotYetPublished(es: seq<Event>, plan: Plan, npm0: map<Spec, Manifest>)
    ensures StartedAt(es + [Start(plan)], |es|, plan)
    ensures DiskLeft(plan, es + [Start(plan)], |es|, plan.disk)
    ensures NpmLeft(plan, 0, npm0, npm0) && PublishedMissing(plan, 0, npm0, es + [Start(plan)], |es|)
  {}

  /** An event that publishes nothing leaves what was published as it was. */
  lemma PublishedSinceOneMore(es: seq<Event>, e: Event, a: nat, p: Package)
    requires a < |es|
    ensures PublishedSince(es + [e], a, p) <==> PublishedSince(es, a, p) || e == Publish(p)
  {
    var longer := es + [e];
    if t :| a < t < |es| && es[t] == Publish(p) {
      assert longer[t] == Publish(p);
    }
    if e == Publish(p) {
      assert longer[|es|] == Publish(p);
    }
    if t :| a < t < |longer| && longer[t] == Publish(p) {
      assert t < |es| ==> es[t] == Publish(p);
    }
  }

  lemma StartedAtOneMore(es: seq<Event>, e: Event, a: nat, plan: Plan)
    requires StartedAt(es, a, plan) && !e.Start?
    ensures StartedAt(es + [e], a, plan)
  {}

  lemma OthersLeaveDisk(plan: Plan, es: seq<Event>, a: nat, disk: seq<Package>, e: Event)
    requires a < |es| && !e.Publish? && DiskLeft(plan, es, a, disk)
    ensures DiskLeft(plan, es + [e], a, disk)
  {
    forall p: Package
      ensures PublishedSince(es + [e], a, p) <==> PublishedSince(es, a, p)
    {
      PublishedSinceOneMore(es, e, a, p);
    }
    if HoldsPublished(plan, es, a, disk) {
      forall i | 0 <= i < |disk|
        ensures disk[i] == AfterRun(plan, es + [e], a, plan.disk[i])
      {
        assert AfterRun(plan, es, a, plan.disk[i]) == AfterRun(plan, es + [e], a, plan.disk[i]);
      }
    }
  }

  /** A publish leaves its manifest in the checkout, unless the run is one that puts it back. */
  lemma PublishLeavesDisk(plan: Plan, es: seq<Event>, a: nat, disk: seq<Package>, p: Package)
    requires a < |es| && DistinctNames(plan.disk) && p in plan.disk
    requires plan.opts.prerelease == "" && HoldsPublished(plan, es, a, disk)
    ensures HoldsPublished(plan, es + [Publish(p)], a, Write(disk, p, Published(p.manifest, Versions(plan.disk), "")))
  {
    var m := Published(p.manifest, Versions(plan.disk), "");
    var after := Write(disk, p, m);
    forall i | 0 <= i < |disk|
      ensures after[i] == AfterRun(plan, es + [Publish(p)], a, plan.disk[i])
    {
      PublishedSinceOneMore(es, Publish(p), a, plan.disk[i]);
      SameNameSamePackage(plan.disk, plan.disk[i], p);
      assert disk[i] == AfterRun(plan, es, a, plan.disk[i]);
      assert disk[i].Name() == plan.disk[i].Name();
    }
  }

  lemma SameNameSamePackage(pkgs: seq<Package>, p: Package, q: Package)
    requires DistinctNames(pkgs) && p in pkgs && q in pkgs
    ensures p.Name() == q.Name() <==> p == q
  {}

  ghost predicate Apart(plan: Plan, i: nat, j: nat)
    requires i < |plan.targets| && j < |plan.targets|
  {
    plan.targets[i] != plan.targets[j] && plan.Spec(plan.targets[i]) != plan.Spec(plan.targets[j])
  }

  /** What the turns of a run rely on: its targets are packages it read, each with a spec of its own. */
  ghost predicate HasTargetsApart(plan: Plan) {
    && DistinctNames(plan.disk)
    && (forall p :: p in plan.targets ==> p in plan.disk)
    && (forall i, j {:trigger Apart(plan, i, j)} ::
          0 <= i < |plan.targets| && 0 <= j < |plan.targets| && i != j ==> Apart(plan, i, j))
  }

  lemma TargetsDistinct(plan: Plan)
    requires IsPlan(plan)
    ensures DistinctNames(plan.disk) && DistinctNames(plan.targets)
  {
    ChosenDistinct(plan.order, plan.opts.only);
  }

  lemma DistinctApart(plan: Plan, i: nat, j: nat)
    requires DistinctNames(plan.targets) && i < |plan.targets| && j < |plan.targets| && i != j
    ensures Apart(plan, i, j)
  {
    assert plan.targets[i].Name() != plan.targets[j].Name();
  }

  lemma TargetRead(plan: Plan, p: Package)
    requires IsPlan(plan) && p in plan.targets
    ensures p in plan.disk
  {
    var i :| 0 <= i < |plan.targets| && plan.targets[i] == p;
    TargetsListed(plan, i);
  }

  lemma PlannedApart(plan: Plan)
    requires IsPlan(plan)
    ensures HasTargetsApart(plan)
  {
    TargetsDistinct(plan);
    forall p | p in plan.targets
      ensures p in plan.disk
    {
      TargetRead(plan, p);
    }
    forall i, j | 0 <= i < |plan.targets| && 0 <= j < |plan.targets| && i != j
      ensures Apart(plan, i, j)
    {
      DistinctApart(plan, i, j);
    }
  }

  lemma TurnIsFirst(plan: Plan, k: nat)
    requires HasTargetsApart(plan) && k < |plan.targets|
    ensures !IsTarget(plan, k, plan.Spec(plan.targets[k]))
  {
    forall i | 0 <= i < k
      ensures plan.Spec(plan.targets[i]) != plan.Spec(plan.targets[k])
    {
      assert Apart(plan, i, k);
    }
  }

  /** A target's turn finds it on npm exactly when npm had it at the start. */
  lemma TurnFindsAsStarted(plan: Plan, k: nat, npm0: map<Spec, Manifest>, npm: map<Spec, Manifest>)
    requires HasTargetsApart(plan) && k < |plan.targets| && !plan.opts.dryRun && NpmLeft(plan, k, npm0, npm)
    ensures plan.Spec(plan.targets[k]) in npm <==> plan.Spec(plan.targets[k]) in npm0
  {
    TurnIsFirst(plan, k);
    assert SpecLeft(plan, k, npm0, npm, plan.Spec(plan.targets[k]));
  }

  lemma TargetOneMore(plan: Plan, k: nat, spec: Spec, m: Manifest)
    requires k < |plan.targets|
    ensures IsTarget(plan, k + 1, spec) <==> IsTarget(plan, k, spec) || spec == plan.Spec(plan.targets[k])
    ensures IsTargetAs(plan, k, spec, m) ==> IsTargetAs(plan, k + 1, spec, m)
    ensures IsTargetAs(plan, k + 1, plan.Spec(plan.targets[k]), plan.Manifest(plan.targets[k]))
  {
    if IsTargetAs(plan, k, spec, m) {
      var i :| 0 <= i < k && plan.Spec(plan.targets[i]) == spec && plan.Manifest(plan.targets[i]) == m;
      assert 0 <= i < k + 1 && plan.Spec(plan.targets[i]) == spec;
    }
    assert plan.Spec(plan.targets[k]) == (plan.Manifest(plan.targets[k]).name, plan.Manifest(plan.targets[k]).version);
  }

  lemma OneMoreTarget(plan: Plan, k: nat, npm0: map<Spec, Manifest>, npm: map<Spec, Manifest>)
    requires HasTargetsApart(plan) && k < |plan.targets| && !plan.opts.dryRun && NpmLeft(plan, k, npm0, npm)
    ensures var spec := plan.Spec(plan.targets[k]);
            NpmLeft(plan, k + 1, npm0, if spec in npm then npm else npm[spec := plan.Manifest(plan.targets[k])])
  {
    var spec := plan.Spec(plan.targets[k]);
    var npm' := if spec in npm then npm else npm[spec := plan.Manifest(plan.targets[k])];
    TurnFindsAsStarted(plan, k, npm0, npm);
    forall other {:trigger SpecLeft(plan, k + 1, npm0, npm', other)}
      ensures SpecLeft(plan, k + 1, npm0, npm', other)
    {
      assert SpecLeft(plan, k, npm0, npm, other);
      TargetOneMore(plan, k, other, if other in npm then npm[other] else plan.Manifest(plan.targets[k]));
    }
  }

  lemma TurnPublishesMissing(plan: Plan, k: nat, npm0: map<Spec, Manifest>, es: seq<Event>, a: nat, e: Event)
    requires HasTargetsApart(plan) && k < |plan.targets| && a < |es|
    requires PublishedMissing(plan, k, npm0, es, a)
    requires !plan.opts.dryRun ==> (e == Publish(plan.targets[k]) <==> plan.Spec(plan.targets[k]) !in npm0)
    requires e.Publish? ==> e == Publish(plan.targets[k])
    ensures PublishedMissing(plan, k + 1, npm0, es + [e], a)
  {
    if !plan.opts.dryRun {
      forall i {:trigger IsPublishedIfMissing(plan, i, k + 1, npm0, es + [e], a)} | 0 <= i < |plan.targets|
        ensures IsPublishedIfMissing(plan, i, k + 1, npm0, es + [e], a)
      {
        assert IsPublishedIfMissing(plan, i, k, npm0, es, a);
        PublishedSinceOneMore(es, e, a, plan.targets[i]);
        if i != k {
          assert Apart(plan, i, k);
        }
      }
    }
  }

  lemma OthersPublishNothing(plan: Plan, k: nat, npm0: map<Spec, Manifest>, es: seq<Event>, a: nat, e: Event)
    requires k <= |plan.targets| && a < |es| && !e.Publish? && PublishedMissing(plan, k, npm0, es, a)
    ensures PublishedMissing(plan, k, npm0, es + [e], a)
  {
    if !plan.opts.dryRun {
      forall i {:trigger IsPublishedIfMissing(plan, i, k, npm0, es + [e], a)} | 0 <= i < |plan.targets|
        ensures IsPublishedIfMissing(plan, i, k, npm0, es + [e], a)
      {
        assert IsPublishedIfMissing(plan, i, k, npm0, es, a);
        PublishedSinceOneMore(es, e, a, plan.targets[i]);
      }
    }
  }

  // ---- whole runs ----

  /** What the command started at `a` with `npm0` on npm has done by `done` turns. */
  ghost predicate SoFar(plan: Plan, done: nat, es: seq<Event>, a: nat, npm0: map<Spec, Manifest>,
                        disk: seq<Package>, npm: map<Spec, Manifest>) {
    && HasTargetsApart(plan) && done <= |plan.targets| && StartedAt(es, a, plan)
    && DiskLeft(plan, es, a, disk) && NpmLeft(plan, done, npm0, npm) && PublishedMissing(plan, done, npm0, es, a)
  }

  ghost predicate RunningSoFar(es: seq<Event>, s: State, a: nat, npm0: map<Spec, Manifest>) {
    match s.phase
    case Idle => false
    case Building(plan, _) => SoFar(plan, 0, es, a, npm0, s.disk, s.npm)
    case Publishing(plan, done) => SoFar(plan, done, es, a, npm0, s.disk, s.npm)
  }

  lemma PublishSoFar(plan: Plan, k: nat, es: seq<Event>, a: nat, npm0: map<Spec, Manifest>, disk: seq<Package>,
                     npm: map<Spec, Manifest>)
    requires SoFar(plan, k, es, a, npm0, disk, npm) && k < |plan.targets|
    requires plan.opts.dryRun || plan.Spec(plan.targets[k]) !in npm
    ensures var p := plan.targets[k];
            SoFar(plan, k + 1, es + [Publish(p)], a, npm0,
                  if plan.opts.dryRun || plan.opts.prerelease != "" then disk else Write(disk, p, plan.Manifest(p)),
                  if plan.opts.dryRun then npm else npm[plan.Spec(p) := plan.Manifest(p)])
  {
    var p := plan.targets[k];
    if !plan.opts.dryRun {
      OneMoreTarget(plan, k, npm0, npm);
      TurnFindsAsStarted(plan, k, npm0, npm);
      if plan.opts.prerelease == "" {
        PublishLeavesDisk(plan, es, a, disk, p);
      }
    }
    TurnPublishesMissing(plan, k, npm0, es, a, Publish(p));
    StartedAtOneMore(es, Publish(p), a, plan);
  }

  lemma OtherSoFar(plan: Plan, k: nat, es: seq<Event>, a: nat, npm0: map<Spec, Manifest>, disk: seq<Package>,
                   npm: map<Spec, Manifest>, e: Event)
    requires SoFar(plan, k, es, a, npm0, disk, npm) && !e.Start? && !e.Publish?
    ensures SoFar(plan, k, es + [e], a, npm0, disk, npm)
  {
    OthersLeaveDisk(plan, es, a, disk, e);
    OthersPublishNothing(plan, k, npm0, es, a, e);
    StartedAtOneMore(es, e, a, plan);
  }

  lemma PublishApplied(s: State, p: Package)
    requires s.phase.Publishing?
    ensures var plan := s.phase.plan;
            var left := if plan.opts.dryRun || plan.opts.prerelease != "" then s.disk
                        else Write(s.disk, p, plan.Manifest(p));
            var npm := if plan.opts.dryRun then s.npm else s.npm[plan.Spec(p) := plan.Manifest(p)];
            Apply(s, Publish(p)) == State(left, npm, Publishing(plan, s.phase.done + 1))
  {}

  lemma PublishStepSoFar(es: seq<Event>, s: State, p: Package, a: nat, npm0: map<Spec, Manifest>)
    requires RunningSoFar(es, s, a, npm0) && Enabled(s, Publish(p))
    ensures RunningSoFar(es + [Publish(p)], Apply(s, Publish(p)), a, npm0)
  {
    var plan, k, after := s.phase.plan, s.phase.done, Apply(s, Publish(p));
    PublishApplied(s, p);
    PublishSoFar(plan, k, es, a, npm0, s.disk, s.npm);
    assert SoFar(plan, k + 1, es + [Publish(p)], a, npm0, after.disk, after.npm);
  }

  lemma SkipStepSoFar(es: seq<Event>, s: State, p: Package, a: nat, npm0: map<Spec, Manifest>)
    requires RunningSoFar(es, s, a, npm0) && Enabled(s, Skip(p))
    ensures RunningSoFar(es + [Skip(p)], State(s.disk, s.npm, Publishing(s.phase.plan, s.phase.done + 1)), a, npm0)
  {
    var plan, k, e := s.phase.plan, s.phase.done, Skip(p);
    if !plan.opts.dryRun {
      OneMoreTarget(plan, k, npm0, s.npm);
      TurnFindsAsStarted(plan, k, npm0, s.npm);
    }
    TurnPublishesMissing(plan, k, npm0, es, a, e);
    OthersLeaveDisk(plan, es, a, s.disk, e);
    StartedAtOneMore(es, e, a, plan);
  }

  lemma BuildStepSoFar(es: seq<Event>, s: State, e: Event, a: nat, npm0: map<Spec, Manifest>)
    requires RunningSoFar(es, s, a, npm0) && Enabled(s, e) && (e.Build? || e.BuildsDone?)
    ensures RunningSoFar(es + [e], Apply(s, e), a, npm0)
  {
    OtherSoFar(s.phase.plan, 0, es, a, npm0, s.disk, s.npm, e);
  }

  lemma StepSoFar(es: seq<Event>, s: State, e: Event, a: nat, npm0: map<Spec, Manifest>)
    requires RunningSoFar(es, s, a, npm0) && Enabled(s, e) && !Apply(s, e).phase.Idle?
    ensures RunningSoFar(es + [e], Apply(s, e), a, npm0)
    ensures Apply(s, e).phase.plan == s.phase.plan
  {
    match e
    case Publish(p) => PublishStepSoFar(es, s, p, a, npm0);
    case Skip(p) => SkipStepSoFar(es, s, p, a, npm0);
    case _ => BuildStepSoFar(es, s, e, a, npm0);
  }

  lemma StartSoFar(es: seq<Event>, s: State, plan: Plan)
    requires Enabled(s, Start(plan)) && HasTargetsApart(plan)
    ensures RunningSoFar(es + [Start(plan)], Apply(s, Start(plan)), |es|, s.npm)
  {
    NotYetPublished(es, plan, s.npm);
  }

  lemma StepOf(path: seq<State>, es: seq<Event>, t: nat)
    requires IsPath(path, es) && t < |es|
    ensures Enabled(path[t], es[t]) && path[t + 1] == Apply(path[t], es[t])
    ensures es[..t + 1] == es[..t] + [es[t]]
  {}

  lemma {:induction false} LastStart(path: seq<State>, es: seq<Event>, t: nat) returns (a: nat)
    requires IsPath(path, es) && path[0].phase.Idle? && t <= |es| && !path[t].phase.Idle?
    ensures a < t && es[a].Start? && forall u :: a < u < t ==> !es[u].Start?
  {
    StepOf(path, es, t - 1);
    if es[t - 1].Start? {
      a := t - 1;
    } else {
      a := LastStart(path, es, t - 1);
    }
  }

  lemma SoFarAtStart(path: seq<State>, es: seq<Event>, a: nat)
    requires IsPath(path, es) && a < |es| && es[a].Start? && HasTargetsApart(es[a].plan)
    ensures RunningSoFar(es[..a + 1], path[a + 1], a, path[a].npm)
  {
    StepOf(path, es, a);
    assert |es[..a]| == a && es[a] == Start(es[a].plan);
    StartSoFar(es[..a], path[a], es[a].plan);
  }

  lemma SoFarAfter(path: seq<State>, es: seq<Event>, a: nat, t: nat)
    requires IsPath(path, es) && a < t <= |es| && !path[t].phase.Idle? && !es[t - 1].Start?
    requires !path[t - 1].phase.Idle? ==> RunningSoFar(es[..t - 1], path[t - 1], a, path[a].npm)
    ensures RunningSoFar(es[..t], path[t], a, path[a].npm)
  {
    StepOf(path, es, t - 1);
    assert es[..t] == es[..t - 1] + [es[t - 1]];
    StepSoFar(es[..t - 1], path[t - 1], es[t - 1], a, path[a].npm);
  }

  lemma {:induction false} RunSoFar(path: seq<State>, es: seq<Event>, a: nat, t: nat)
    requires IsPath(path, es) && a < t <= |es| && !path[t].phase.Idle?
    requires RunningSoFar(es[..a + 1], path[a + 1], a, path[a].npm) && forall u :: a < u < t ==> !es[u].Start?
    ensures RunningSoFar(es[..t], path[t], a, path[a].npm)
  {
    if t > a + 1 {
      if !path[t - 1].phase.Idle? {
        RunSoFar(path, es, a, t - 1);
      }
      SoFarAfter(path, es, a, t);
    }
  }

  lemma PathLeaves(path: seq<State>, es: seq<Event>, k: nat) returns (a: nat)
    requires IsPath(path, es) && path[0].phase.Idle? && |es| == k + 1 && es[k].Finish?
    requires forall i :: 0 <= i < |es| && es[i].Start? ==> HasTargetsApart(es[i].plan)
    ensures a < k && es[a].Start? && path[a] == State(es[a].plan.disk, path[a].npm, Idle)
    ensures var plan := es[a].plan;
            SoFar(plan, |plan.targets|, es, a, path[a].npm, path[k + 1].disk, path[k + 1].npm)
  {
    StepOf(path, es, k);
    a := LastStart(path, es, k);
    StepOf(path, es, a);
    SoFarAtStart(path, es, a);
    RunSoFar(path, es, a, k);
    FinishSoFar(es[..k], path[k], a, path[a].npm);
    assert es == es[..k] + [Finish];
    assert es[a].plan == path[k].phase.plan && path[k + 1].disk == path[k].disk && path[k + 1].npm == path[k].npm;
  }

  lemma RunToStart(path: seq<State>, es: seq<Event>, a: nat)
    requires IsPath(path, es) && a < |es|
    ensures IsRun(path[0], es[..a], path[a])
  {
    assert IsPath(path[..a + 1], es[..a]);
  }

  lemma FinishSoFar(es: seq<Event>, s: State, a: nat, npm0: map<Spec, Manifest>)
    requires RunningSoFar(es, s, a, npm0) && Enabled(s, Finish)
    ensures a < |es| && es[a] == Start(s.phase.plan)
    ensures SoFar(s.phase.plan, |s.phase.plan.targets|, es + [Finish], a, npm0, s.disk, s.npm)
  {
    OtherSoFar(s.phase.plan, s.phase.done, es, a, npm0, s.disk, s.npm, Finish);
  }

  /**
   * What a run that completes leaves, after any number of runs that did not.
   * In the checkout: with `--dry-run` or `--prerelease` what it read, else the
   * published manifest of each package it published and all others as it read
   * them. On npm: after a dry run what there was, else also the targets it
   * lacked, as planned, which are the ones the run published.
   */
  lemma CompletedRunLeaves(start: State, es: seq<Event>, s: State)
    returns (plan: Plan, a: nat, npm0: map<Spec, Manifest>)
    requires start.phase.Idle? && IsRun(start, es, s) && IsPlanned(es)
    requires es != [] && es[|es| - 1].Finish?
    ensures IsPlan(plan) && StartedAt(es, a, plan) && IsRun(start, es[..a], State(plan.disk, npm0, Idle))
    ensures DiskLeft(plan, es, a, s.disk)
    ensures NpmLeft(plan, |plan.targets|, npm0, s.npm) && PublishedMissing(plan, |plan.targets|, npm0, es, a)
  {
    var path: seq<State> :| IsPath(path, es) && path[0] == start && path[|es|] == s;
    forall i | 0 <= i < |es| && es[i].Start?
      ensures HasTargetsApart(es[i].plan)
    {
      PlannedApart(es[i].plan);
    }
    a := PathLeaves(path, es, |es| - 1);
    plan, npm0 := es[a].plan, path[a].npm;
    assert path[|es| - 1 + 1] == s && path[a] == State(plan.disk, npm0, Idle);
    RunToStart(path, es, a);
  }

  ghost predicate CommandLeft(plan: Plan, es: seq<Event>, npm0: map<Spec, Manifest>, disk: seq<Package>,
                              npm: map<Spec, Manifest>) {
    && DiskLeft(plan, es, 0, disk)
    && NpmLeft(plan, |plan.targets|, npm0, npm) && PublishedMissing(plan, |plan.targets|, npm0, es, 0)
  }

  /** The same of one command, whose first event started it. */
  lemma CommandLeaves(start: State, es: seq<Event>, s: State, plan: Plan)
    requires start.phase.Idle? && IsRun(start, es, s) && es != [] && es[|es| - 1].Finish?
    requires es[0] == Start(plan) && IsPlan(plan) && forall t :: 0 < t < |es| ==> !es[t].Start?
    ensures CommandLeft(plan, es, start.npm, s.disk, s.npm)
  {
    var started, a, npm0 := CompletedRunLeaves(start, es, s);
    assert a == 0 && es[..a] == [];
    NoEvents(start, State(started.disk, npm0, Idle));
  }

  /** Whatever runs: what npm has it keeps, as it is. */
  lemma {:induction false} NpmOnlyGrows(start: State, es: seq<Event>, s: State, spec: Spec)
    requires IsRun(start, es, s) && spec in start.npm
    ensures spec in s.npm && s.npm[spec] == start.npm[spec]
    decreases |es|
  {
    if es == [] {
      NoEvents(start, s);
    } else {
      var k := |es| - 1;
      var m := RunUpTo(start, es, s, k);
      NpmOnlyGrows(start, es[..k], m, spec);
    }
  }
}
