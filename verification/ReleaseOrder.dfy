/** `order`: the publishable packages, dependencies before dependents. */
module ReleaseOrder {
  import opened Packages
  import opened DependencyGraph

  datatype OrderResult = Ordered(pkgs: seq<Package>) | CycleAmong(names: seq<string>)

  /** Each package name with its internal dependencies. */
  function DepGraph(pkgs: seq<Package>): (g: Graph)
    requires DistinctNames(pkgs)
    ensures g.Keys == Names(pkgs)
    ensures forall p :: p in pkgs ==> g[p.Name()] == InternalDeps(p.manifest, Names(pkgs))
  {
    var names := Names(pkgs);
    map p | p in pkgs :: p.Name() := InternalDeps(p.manifest, names)
  }

  lemma GraphIsClosed(pkgs: seq<Package>)
    requires DistinctNames(pkgs)
    ensures Closed(DepGraph(pkgs))
  {}

  /** `pkgs.filter(p => !done.has(name) && internalDeps(p, names).every(d => done.has(d)))`. */
  function Ready(pkgs: seq<Package>, names: set<string>, done: set<string>): (r: seq<Package>)
    ensures forall p :: p in r <==> p in pkgs && p.Name() !in done && InternalDeps(p.manifest, names) <= done
    ensures forall i, j :: 0 <= i < j < |r| ==> Precedes(pkgs, r[i], r[j])
  {
    if pkgs == [] then []
    else
      var p, before := pkgs[|pkgs| - 1], pkgs[..|pkgs| - 1];
      assert pkgs == before + [p];
      PrecedesInLonger(before, p);
      var rest := Ready(before, names, done);
      if p.Name() !in done && InternalDeps(p.manifest, names) <= done then rest + [p] else rest
  }

  /** The names of the packages not in `done`, in list order. */
  function Left(pkgs: seq<Package>, done: set<string>): seq<string> {
    if pkgs == [] then []
    else
      var p, before := pkgs[|pkgs| - 1], pkgs[..|pkgs| - 1];
      Left(before, done) + (if p.Name() !in done then [p.Name()] else [])
  }

  /** What is left are the names not done. */
  lemma {:induction false} LeftAre(pkgs: seq<Package>, done: set<string>, n: string)
    ensures n in Left(pkgs, done) <==> n in Names(pkgs) && n !in done
  {
    if pkgs != [] {
      var p, before := pkgs[|pkgs| - 1], pkgs[..|pkgs| - 1];
      LeftAre(before, done, n);
      assert pkgs == before + [p];
      assert Names(pkgs) == Names(before) + {p.Name()};
    }
  }

  /** What a list leaves is what its parts leave, one after the other. */
  lemma {:induction false} LeftOfSum(a: seq<Package>, b: seq<Package>, done: set<string>)
    ensures Left(a + b, done) == Left(a, done) + Left(b, done)
  {
    if b == [] {
      assert a + b == a;
    } else {
      var k := |b| - 1;
      LeftOfSum(a, b[..k], done);
      assert (a + b)[..|a + b| - 1] == a + b[..k];
    }
  }

  /** A package not done is left once, under its name. */
  lemma LeftOfOne(p: Package, done: set<string>)
    ensures Left([p], done) == if p.Name() in done then [] else [p.Name()]
  {
    assert [p][..0] == [];
  }

  /** Shallower packages first, equally deep ones in input order. */
  ghost predicate InOrder(pkgs: seq<Package>, g: Graph, a: Package, b: Package) {
    && NoDeeper(g, a.Name(), b.Name())
    && (NoDeeper(g, b.Name(), a.Name()) ==> Precedes(pkgs, a, b))
  }

  ghost predicate IsOrdered(pkgs: seq<Package>, g: Graph, out: seq<Package>) {
    forall i, j :: 0 <= i < j < |out| ==> InOrder(pkgs, g, out[i], out[j])
  }

  /** `out` lists exactly the packages of `pkgs`, each once. */
  ghost predicate IsPermutation(pkgs: seq<Package>, out: seq<Package>) {
    && DistinctNames(out)
    && |out| == |pkgs|
    && forall p :: p in out <==> p in pkgs
  }

  ghost function IntoCycle(g: Graph): set<string> {
    set n | n in g && LeadsIntoCycle(g, n)
  }

  lemma OneMoreName(pkgs: seq<Package>, p: Package)
    requires DistinctNames(pkgs + [p])
    ensures Names(pkgs + [p]) == Names(pkgs) + {p.Name()} && p.Name() !in Names(pkgs)
  {
    var all := pkgs + [p];
    forall q | q in pkgs
      ensures q.Name() != p.Name()
    {
      var i :| 0 <= i < |pkgs| && pkgs[i] == q;
      assert all[i].Name() != all[|pkgs|].Name();
    }
  }

  lemma {:induction false} DistinctNamesCount(pkgs: seq<Package>)
    requires DistinctNames(pkgs)
    ensures |Names(pkgs)| == |pkgs|
  {
    if pkgs != [] {
      var p, before := pkgs[|pkgs| - 1], pkgs[..|pkgs| - 1];
      assert pkgs == before + [p];
      DistinctNamesCount(before);
      OneMoreName(before, p);
    }
  }

  /** A repetition-free part of a list that has as many packages as the list has all of them. */
  lemma PartAsLongIsAll(pkgs: seq<Package>, out: seq<Package>)
    requires DistinctNames(pkgs) && DistinctNames(out)
    requires forall p :: p in out ==> p in pkgs
    ensures |out| <= |pkgs|
    ensures Names(out) <= Names(pkgs)
    ensures Names(out) == Names(pkgs) <==> |out| == |pkgs|
    ensures |out| == |pkgs| ==> IsPermutation(pkgs, out)
  {
    DistinctNamesCount(pkgs);
    DistinctNamesCount(out);
    assert Names(out) <= Names(pkgs);
    assert |Names(pkgs)| == |Names(pkgs) - Names(out)| + |Names(out)|;
    if |out| == |pkgs| {
      assert Names(out) == Names(pkgs);
      forall p | p in pkgs
        ensures p in out
      {
        assert p.Name() in Names(out);
        var q :| q in out && q.Name() == p.Name();
      }
    }
  }

  lemma NamesOfSum(a: seq<Package>, b: seq<Package>)
    ensures Names(a + b) == Names(a) + Names(b)
  {}

  /** The ready packages are the ones that settle in the next round, each once. */
  lemma ReadyIsNextRound(pkgs: seq<Package>, g: Graph, k: nat)
    requires DistinctNames(pkgs) && g == DepGraph(pkgs)
    ensures var ready := Ready(pkgs, Names(pkgs), Settled(g, k));
            && DistinctNames(ready)
            && Settled(g, k + 1) == Settled(g, k) + Names(ready)
            && Names(ready) !! Settled(g, k)
  {
    var ready := Ready(pkgs, Names(pkgs), Settled(g, k));
    SettledGrows(g, k);
    forall n | n in Settled(g, k + 1) && n !in Settled(g, k)
      ensures n in Names(ready)
    {
      var p :| p in pkgs && p.Name() == n;
      assert p in ready;
    }
  }

  /** Two packages of one round come equally deep, and in the order of the round. */
  lemma SameRoundInOrder(pkgs: seq<Package>, g: Graph, k: nat, a: Package, b: Package)
    requires Closed(g) && Precedes(pkgs, a, b)
    requires a.Name() in Settled(g, k + 1) && b.Name() in g && b.Name() !in Settled(g, k)
    ensures InOrder(pkgs, g, a, b)
  {
    SettledEarlierNoDeeper(g, a.Name(), b.Name(), k);
  }

  /** A package settled in an earlier round is strictly shallower. */
  lemma EarlierRoundInOrder(pkgs: seq<Package>, g: Graph, k: nat, a: Package, b: Package)
    requires Closed(g)
    requires a.Name() in Settled(g, k) && b.Name() in g && b.Name() !in Settled(g, k)
    ensures InOrder(pkgs, g, a, b)
  {
    SettledGrows(g, k - 1);
    SettledEarlierNoDeeper(g, a.Name(), b.Name(), k - 1);
    SettledIffNoChain(g, a.Name(), k);
    SettledIffNoChain(g, b.Name(), k);
  }

  /** A round's packages go after everything settled before it. */
  lemma RoundExtendsOrder(pkgs: seq<Package>, g: Graph, k: nat, out: seq<Package>, ready: seq<Package>)
    requires Closed(g)
    requires forall i :: 0 <= i < |out| ==> out[i].Name() in Settled(g, k)
    requires forall i :: 0 <= i < |ready| ==> ready[i].Name() in g && ready[i].Name() !in Settled(g, k)
    requires forall i :: 0 <= i < |ready| ==> ready[i].Name() in Settled(g, k + 1)
    requires forall i, j :: 0 <= i < j < |ready| ==> Precedes(pkgs, ready[i], ready[j])
    requires IsOrdered(pkgs, g, out)
    ensures IsOrdered(pkgs, g, out + ready)
  {
    forall i, j | 0 <= i < j < |out + ready|
      ensures InOrder(pkgs, g, (out + ready)[i], (out + ready)[j])
    {
      if j < |out| {
        assert InOrder(pkgs, g, out[i], out[j]);
      } else if i < |out| {
        EarlierRoundInOrder(pkgs, g, k, out[i], ready[j - |out|]);
      } else {
        SameRoundInOrder(pkgs, g, k, ready[i - |out|], ready[j - |out|]);
      }
    }
  }

  /** A round that settles nothing new leaves exactly the names that lead into a cycle. */
  lemma StuckRound(g: Graph, k: nat)
    requires Closed(g) && k <= |g|
    requires Settled(g, k + 1) == Settled(g, k) != g.Keys
    ensures HasCycle(g)
    ensures Settled(g, k) == g.Keys - IntoCycle(g)
  {
    StuckMeansCycle(g, k);
    SettledGrowsTo(g, k, |g|);
    assert Settled(g, k) <= g.Keys;
    var into := IntoCycle(g);
    forall n | n in g
      ensures n in Settled(g, k) <==> n !in into
    {
      StuckName(g, k, n, into);
    }
    Complement(Settled(g, k), g.Keys, into);
  }

  lemma Complement(a: set<string>, all: set<string>, b: set<string>)
    requires a <= all && forall n :: n in all ==> (n in a <==> n !in b)
    ensures a == all - b
  {}

  lemma StuckName(g: Graph, k: nat, n: string, into: set<string>)
    requires Closed(g) && n in g && Settled(g, k) <= Settled(g, |g|)
    requires n !in Settled(g, k) ==> HasChain(g, n, |g|)
    requires into == IntoCycle(g)
    ensures n in Settled(g, k) <==> n !in into
  {
    SettledIffNoChain(g, n, |g|);
    IntoCycleExactlyWhen(g, n);
  }

  /** After `k` rounds: the settled names are done, and `out` holds their packages in order. */
  ghost predicate AfterRounds(pkgs: seq<Package>, g: Graph, k: nat, done: set<string>, out: seq<Package>) {
    && done == Settled(g, k) == Names(out)
    && k <= |out|
    && DistinctNames(out)
    && (forall p :: p in out ==> p in pkgs)
    && IsOrdered(pkgs, g, out)
  }

  lemma NextRound(pkgs: seq<Package>, g: Graph, k: nat, done: set<string>, out: seq<Package>)
    requires DistinctNames(pkgs) && g == DepGraph(pkgs)
    requires AfterRounds(pkgs, g, k, done, out)
    ensures var ready := Ready(pkgs, Names(pkgs), done);
            ready != [] ==> AfterRounds(pkgs, g, k + 1, done + Names(ready), out + ready)
  {
    var ready := Ready(pkgs, Names(pkgs), done);
    ReadyIsNextRound(pkgs, g, k);
    NamesOfSum(out, ready);
    forall i | 0 <= i < |out|
      ensures out[i].Name() in Settled(g, k)
    {
      assert out[i] in out;
    }
    forall i | 0 <= i < |ready|
      ensures ready[i].Name() in Names(ready)
    {
      assert ready[i] in ready;
    }
    GraphIsClosed(pkgs);
    RoundExtendsOrder(pkgs, g, k, out, ready);
  }

  lemma NothingReady(pkgs: seq<Package>, g: Graph, k: nat)
    requires DistinctNames(pkgs) && g == DepGraph(pkgs)
    requires Ready(pkgs, Names(pkgs), Settled(g, k)) == []
    ensures Settled(g, k + 1) == Settled(g, k)
  {
    ReadyIsNextRound(pkgs, g, k);
    assert Names([]) == {};
  }

  lemma SomeLeft(pkgs: seq<Package>, out: seq<Package>)
    requires DistinctNames(pkgs) && DistinctNames(out) && |out| < |pkgs|
    ensures Names(out) != Names(pkgs)
  {
    DistinctNamesCount(pkgs);
    DistinctNamesCount(out);
  }

  lemma NoRound(pkgs: seq<Package>, g: Graph, k: nat, done: set<string>, out: seq<Package>)
    requires DistinctNames(pkgs) && g == DepGraph(pkgs)
    requires AfterRounds(pkgs, g, k, done, out) && |out| < |pkgs|
    requires Ready(pkgs, Names(pkgs), done) == []
    ensures HasCycle(g) && done == Names(pkgs) - IntoCycle(g)
  {
    NothingReady(pkgs, g, k);
    SomeLeft(pkgs, out);
    DistinctNamesCount(pkgs);
    GraphIsClosed(pkgs);
    StuckRound(g, k);
  }

  lemma AllRounds(pkgs: seq<Package>, g: Graph, k: nat, done: set<string>, out: seq<Package>)
    requires DistinctNames(pkgs) && g == DepGraph(pkgs)
    requires AfterRounds(pkgs, g, k, done, out) && |out| >= |pkgs|
    ensures !HasCycle(g) && IsPermutation(pkgs, out)
  {
    PartAsLongIsAll(pkgs, out);
    if c :| IsCycle(g, c) {
      CycleNeverSettles(g, c, 0, k);
    }
  }

  /**
   * Dependencies before dependents; ties in directory order. Refuses exactly
   * the graphs with a cycle, naming every package that leads into one.
   */
  method Order(pkgs: seq<Package>) returns (r: OrderResult)
    requires DistinctNames(pkgs)
    ensures r.CycleAmong? <==> HasCycle(DepGraph(pkgs))
    ensures r.CycleAmong? ==> r.names == Left(pkgs, Names(pkgs) - IntoCycle(DepGraph(pkgs)))
    ensures r.Ordered? ==> IsPermutation(pkgs, r.pkgs) && IsOrdered(pkgs, DepGraph(pkgs), r.pkgs)
  {
    var names := Names(pkgs);
    ghost var g, k := DepGraph(pkgs), 0;
    var done: set<string>, out := {}, [];
    while |out| < |pkgs|
      invariant AfterRounds(pkgs, g, k, done, out)
    {
      var ready := Ready(pkgs, names, done);
      if |ready| == 0 {
        NoRound(pkgs, g, k, done, out);
        return CycleAmong(Left(pkgs, done));
      }
      NextRound(pkgs, g, k, done, out);
      done, out := Append(ready, done, out);
      k := k + 1;
    }
    AllRounds(pkgs, g, k, done, out);
    r := Ordered(out);
  }

  /** The error is about a cycle "among" the packages it names. */
  ghost predicate NamesCyclesOnly(g: Graph) {
    forall n :: n in IntoCycle(g) ==> OnCycle(g, n)
  }

  /** All of them are on a cycle exactly when nothing off every cycle depends on a package that leads into one. */
  lemma NamesCyclesExactlyWhen(g: Graph)
    ensures NamesCyclesOnly(g) <==>
            forall n, d :: n in g && !OnCycle(g, n) && d in g[n] ==> !LeadsIntoCycle(g, d)
  {
    forall n | n in g
      ensures LeadsIntoCycle(g, n) <==> OnCycle(g, n) || exists d :: d in g[n] && LeadsIntoCycle(g, d)
    {
      IntoCycleByStep(g, n);
    }
  }

  lemma BystanderGraph(a: string, b: string)
    requires a != b
    ensures var g := map[a := {b}, b := {b}];
            IntoCycle(g) == {a, b} && !OnCycle(g, a) && HasCycle(g)
  {
    var g := map[a := {b}, b := {b}];
    assert IsCycle(g, [b, b]);
    IntoCycleByStep(g, b);
    IntoCycleByStep(g, a);
    if OnCycle(g, a) {
      OnCycleIsNeeded(g, a);
    }
  }

  /** A package whose only entry is a dependency on `need`. */
  function Needing(name: string, version: string, need: string, range: string): Package {
    Package(name, Manifest(name, version, map[Dependencies := [Entry(need, range)]], ""))
  }

  lemma GraphOfTwo(p: Package, q: Package)
    requires p.Name() != q.Name()
    ensures DistinctNames([p, q]) && Names([p, q]) == {p.Name(), q.Name()}
    ensures DepGraph([p, q]) == map[
      p.Name() := InternalDeps(p.manifest, {p.Name(), q.Name()}),
      q.Name() := InternalDeps(q.manifest, {p.Name(), q.Name()})]
  {
    var pkgs := [p, q];
    assert pkgs[0] in pkgs && pkgs[1] in pkgs;
    assert Names(pkgs) == {p.Name(), q.Name()};
  }

  /** Of a package that depends on one that depends on itself the error names both, the first on no cycle. */
  lemma NamesABystander(a: string, b: string, version: string)
    requires a != b
    ensures var pkgs := [Needing(a, version, b, version), Needing(b, version, b, version)];
            DistinctNames(pkgs)
            && var g := DepGraph(pkgs); HasCycle(g) && IntoCycle(g) == {a, b} && !OnCycle(g, a) && !NamesCyclesOnly(g)
  {
    var p, q := Needing(a, version, b, version), Needing(b, version, b, version);
    GraphOfTwo(p, q);
    NeedsOnly(p.manifest, b, [Entry(b, version)], {a, b});
    NeedsOnly(q.manifest, b, [Entry(b, version)], {a, b});
    BystanderGraph(a, b);
  }

  lemma NeedsOnly(m: Manifest, b: string, es: seq<Entry>, names: set<string>)
    requires m.ranges == map[Dependencies := es] && |es| == 1 && es[0].name == b && b in names
    ensures InternalDeps(m, names) == {b}
  {
    EveryFieldListed(Dependencies);
    assert es[0] in Entries(m, Dependencies);
  }

  /**
   * Where two packages share a name, and one waits for a third, it waits for
   * ever: its name is done before its turn. The error then names nothing.
   */
  lemma SharedNameStalls(p: Package, q: Package, d: Package)
    requires p.Name() == q.Name() != d.Name()
    requires var names := {p.Name(), d.Name()};
      && InternalDeps(p.manifest, names) == {} == InternalDeps(d.manifest, names)
      && InternalDeps(q.manifest, names) == {d.Name()}
    ensures var pkgs, names := [p, q, d], {p.Name(), d.Name()};
            && Names(pkgs) == names
            && (forall r :: r in Ready(pkgs, names, {}) <==> r == p || r == d)
            && Ready(pkgs, names, names) == [] && Left(pkgs, names) == []
  {
    var pkgs, names := [p, q, d], {p.Name(), d.Name()};
    assert pkgs[0] in pkgs && pkgs[1] in pkgs && pkgs[2] in pkgs;
    assert Names(pkgs) == names;
    AllDone(pkgs, names);
  }

  lemma AllDone(pkgs: seq<Package>, done: set<string>)
    requires Names(pkgs) <= done
    ensures Ready(pkgs, done, done) == [] && Left(pkgs, done) == []
  {
    if Ready(pkgs, done, done) != [] {
      HasElement(Ready(pkgs, done, done));
    }
    if Left(pkgs, done) != [] {
      LeftAre(pkgs, done, Left(pkgs, done)[0]);
    }
  }

  lemma HasElement<T>(s: seq<T>)
    requires s != []
    ensures exists i :: 0 <= i < |s| && s[i] in s
  {
    assert s[0] in s;
  }

  /** `for (const p of ready) { done.add(p.manifest.name); out.push(p); }` */
  method Append(ready: seq<Package>, done: set<string>, out: seq<Package>)
    returns (done': set<string>, out': seq<Package>)
    ensures done' == done + Names(ready) && out' == out + ready
  {
    done', out' := done, out;
    for i := 0 to |ready|
      invariant out' == out + ready[..i]
      invariant done' == done + Names(ready[..i])
    {
      done' := done' + {ready[i].Name()};
      out' := out' + [ready[i]];
      assert ready[..i + 1] == ready[..i] + [ready[i]];
    }
    assert ready[..|ready|] == ready;
  }

  lemma PlaceOf(pkgs: seq<Package>, out: seq<Package>, n: string) returns (i: nat)
    requires IsPermutation(pkgs, out) && n in Names(pkgs)
    ensures i < |out| && out[i].Name() == n
  {
    var q :| q in pkgs && q.Name() == n;
    i :| 0 <= i < |out| && out[i] == q;
  }

  /** Every internal dependency of a listed package is listed before it. */
  lemma DependenciesFirst(pkgs: seq<Package>, out: seq<Package>, j: nat, d: string) returns (i: nat)
    requires DistinctNames(pkgs)
    requires IsPermutation(pkgs, out) && IsOrdered(pkgs, DepGraph(pkgs), out)
    requires !HasCycle(DepGraph(pkgs))
    requires j < |out| && d in InternalDeps(out[j].manifest, Names(pkgs))
    ensures i < j && out[i].Name() == d
  {
    assert out[j] in out;
    i := PlaceOf(pkgs, out, d);
    DependencyComesFirst(pkgs, DepGraph(pkgs), out, j, i);
  }

  lemma DependencyComesFirst(pkgs: seq<Package>, g: Graph, out: seq<Package>, j: nat, i: nat)
    requires IsOrdered(pkgs, g, out) && !HasCycle(g)
    requires j < |out| && i < |out| && out[i].Name() in g && out[j].Name() in g
    requires out[i].Name() in g[out[j].Name()]
    ensures i < j
  {
    DependencyIsShallower(g, out[j].Name(), out[i].Name());
  }

  /** The two requirements leave no choice: an ordered permutation of the packages is unique. */
  lemma OrderIsUnique(pkgs: seq<Package>, a: seq<Package>, b: seq<Package>)
    requires DistinctNames(pkgs)
    requires IsPermutation(pkgs, a) && IsOrdered(pkgs, DepGraph(pkgs), a)
    requires IsPermutation(pkgs, b) && IsOrdered(pkgs, DepGraph(pkgs), b)
    ensures a == b
  {
    if a != b {
      var i := FirstDifference(a, b);
      var j := LaterIndex(a, b[i], b, i);
      var k := LaterIndex(b, a[i], a, i);
      InOrderIsStrict(pkgs, DepGraph(pkgs), a[i], a[j]);
    }
  }

  lemma InOrderIsStrict(pkgs: seq<Package>, g: Graph, a: Package, b: Package)
    requires DistinctNames(pkgs) && a != b
    ensures !(InOrder(pkgs, g, a, b) && InOrder(pkgs, g, b, a))
  {}

  lemma {:induction false} FirstDifference(a: seq<Package>, b: seq<Package>) returns (i: nat)
    requires |a| == |b| && a != b
    ensures i < |a| && a[i] != b[i] && a[..i] == b[..i]
  {
    if a[0] != b[0] {
      i := 0;
    } else {
      assert a == [a[0]] + a[1..] && b == [b[0]] + b[1..];
      i := FirstDifference(a[1..], b[1..]);
      assert a[..i + 1] == [a[0]] + a[1..][..i] && b[..i + 1] == [b[0]] + b[1..][..i];
      i := i + 1;
    }
  }

  /** What `b` has at the first difference, `a` has later. */
  lemma LaterIndex(a: seq<Package>, p: Package, b: seq<Package>, i: nat) returns (j: nat)
    requires |a| == |b| && i < |a| && a[..i] == b[..i] && a[i] != b[i] == p
    requires DistinctNames(b) && p in a
    ensures i < j < |a| && a[j] == p
  {
    forall x | 0 <= x < i
      ensures a[x] != p
    {
      assert a[x] == a[..i][x] == b[..i][x] == b[x];
    }
    j :| 0 <= j < |a| && a[j] == p;
  }
}
