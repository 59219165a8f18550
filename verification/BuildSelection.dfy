/** What a publish run builds: the selection and everything it depends on. */
module BuildSelection {
  import opened Packages
  import opened DependencyGraph
  import opened ReleaseOrder

  ghost predicate DepsClosed(g: Graph, s: set<string>) {
    forall n :: n in s && n in g ==> g[n] <= s
  }

  /** `s` holds the roots and their dependencies, and nothing any such set could do without. */
  ghost predicate IsClosureOf(g: Graph, roots: set<string>, s: set<string>) {
    && roots <= s
    && DepsClosed(g, s)
    && forall t :: roots <= t && DepsClosed(g, t) ==> s <= t
  }

  /** The names `want` collects while it walks the dependencies. */
  class Needed {
    var names: set<string>

    constructor ()
      ensures names == {}
    {
      names := {};
    }

    /**
     * Adds `p` and what it depends on. On return every name that was added
     * has all its dependencies in the set, and no set closed under
     * dependencies that holds `p` and the old names lacks a new one.
     */
    method Want(p: string, g: Graph)
      requires Closed(g) && p in g && names <= g.Keys
      modifies this
      ensures old(names) + {p} <= names <= g.Keys
      ensures forall n :: n in names - old(names) ==> g[n] <= names
      ensures forall t :: old(names) + {p} <= t && DepsClosed(g, t) ==> names <= t
      decreases g.Keys - names
    {
      if p in names {
        return;
      }
      names := names + {p};
      var rest := g[p];
      while rest != {}
        invariant rest <= g[p] <= names + rest
        invariant old(names) + {p} <= names <= g.Keys
        invariant forall n :: n in names - old(names) - {p} ==> g[n] <= names
        invariant forall t :: old(names) + {p} <= t && DepsClosed(g, t) ==> names <= t
        decreases rest
      {
        var d :| d in rest;
        ghost var before := names;
        Want(d, g);
        assert forall t :: old(names) + {p} <= t && DepsClosed(g, t) ==> before + {d} <= t;
        rest := rest - {d};
      }
    }
  }

  /** `!only || p.dir === only`; an empty `only` selects every package. */
  predicate IsSelected(p: Package, only: string) {
    only == "" || p.dir == only
  }

  function Roots(pkgs: seq<Package>, only: string): set<string> {
    set p | p in pkgs && IsSelected(p, only) :: p.Name()
  }

  /** Wanting one more package turns the closure of some roots into the closure of one more root. */
  lemma ClosureOfOneMore(g: Graph, roots: set<string>, s: set<string>, p: string, s': set<string>)
    requires IsClosureOf(g, roots, s)
    requires s + {p} <= s'
    requires forall n :: n in s' - s && n in g ==> g[n] <= s'
    requires forall t :: s + {p} <= t && DepsClosed(g, t) ==> s' <= t
    ensures IsClosureOf(g, roots + {p}, s')
  {
    forall t | roots + {p} <= t && DepsClosed(g, t)
      ensures s' <= t
    {
      assert s <= t;
      assert s + {p} <= t;
    }
    forall n | n in s' && n in g
      ensures g[n] <= s'
    {
      if n in s {
        assert g[n] <= s;
      }
    }
  }

  lemma RootsOfOneMore(pkgs: seq<Package>, i: nat, only: string)
    requires i < |pkgs|
    ensures Roots(pkgs[..i + 1], only) ==
            Roots(pkgs[..i], only) + (if IsSelected(pkgs[i], only) then {pkgs[i].Name()} else {})
  {
    assert pkgs[..i + 1] == pkgs[..i] + [pkgs[i]];
  }

  /** `for (const p of pkgs) if (!only || p.dir === only) want(p)`. */
  method NeededFor(pkgs: seq<Package>, g: Graph, only: string) returns (needed: set<string>)
    requires Closed(g) && Names(pkgs) <= g.Keys
    ensures IsClosureOf(g, Roots(pkgs, only), needed)
    ensures needed <= g.Keys
  {
    var want := new Needed();
    for i := 0 to |pkgs|
      invariant want.names <= g.Keys
      invariant IsClosureOf(g, Roots(pkgs[..i], only), want.names)
    {
      RootsOfOneMore(pkgs, i, only);
      if only == "" || pkgs[i].dir == only {
        ghost var before := want.names;
        assert pkgs[i].Name() in Names(pkgs);
        want.Want(pkgs[i].Name(), g);
        ClosureOfOneMore(g, Roots(pkgs[..i], only), before, pkgs[i].Name(), want.names);
      } else {
        assert Roots(pkgs[..i + 1], only) == Roots(pkgs[..i], only);
      }
    }
    assert pkgs[..|pkgs|] == pkgs;
    needed := want.names;
  }

  /** The packages named in `names`, in list order. */
  function Named(pkgs: seq<Package>, names: set<string>): (r: seq<Package>)
    ensures forall p :: p in r <==> p in pkgs && p.Name() in names
    ensures forall i, j :: 0 <= i < j < |r| ==> Precedes(pkgs, r[i], r[j])
  {
    if pkgs == [] then []
    else
      var p, before := pkgs[|pkgs| - 1], pkgs[..|pkgs| - 1];
      assert pkgs == before + [p];
      PrecedesInLonger(before, p);
      var rest := Named(before, names);
      if p.Name() in names then rest + [p] else rest
  }

  ghost function Reached(g: Graph, roots: set<string>): set<string> {
    set m | m in g && exists r :: r in roots && Reaches(g, r, m)
  }

  lemma ReachedIsClosed(g: Graph, roots: set<string>)
    requires Closed(g) && roots <= g.Keys
    ensures roots <= Reached(g, roots) && DepsClosed(g, Reached(g, roots))
  {
    forall r | r in roots
      ensures Reaches(g, r, r)
    {
      assert IsChain(g, [r]);
    }
    forall m, d | m in Reached(g, roots) && d in g[m]
      ensures d in Reached(g, roots)
    {
      var r :| r in roots && Reaches(g, r, m);
      var c :| IsChain(g, c) && c[0] == r && c[|c| - 1] == m;
      assert IsChain(g, c + [d]);
      assert (c + [d])[0] == r && (c + [d])[|c + [d]| - 1] == d;
      assert Reaches(g, r, d);
    }
  }

  /** The needed packages are exactly those the selection reaches along dependency chains. */
  lemma ClosureIsReachability(g: Graph, roots: set<string>, s: set<string>)
    requires Closed(g) && roots <= g.Keys && IsClosureOf(g, roots, s)
    ensures s == Reached(g, roots)
  {
    ReachedIsClosed(g, roots);
    forall n | n in Reached(g, roots)
      ensures n in s
    {
      var r :| r in roots && Reaches(g, r, n);
      ReachedStaysIn(g, s, r, n);
    }
  }

  lemma ReachedStaysIn(g: Graph, s: set<string>, r: string, n: string)
    requires DepsClosed(g, s) && r in s && Reaches(g, r, n)
    ensures n in s
  {
    var c :| IsChain(g, c) && c[0] == r && c[|c| - 1] == n;
    ChainStaysIn(g, s, c, |c| - 1);
  }

  lemma {:induction false} ChainStaysIn(g: Graph, s: set<string>, c: seq<string>, i: nat)
    requires DepsClosed(g, s) && IsChain(g, c) && c[0] in s && i < |c|
    ensures c[i] in s
  {
    if i > 0 {
      ChainStaysIn(g, s, c, i - 1);
      assert c[i - 1 + 1] in g[c[i - 1]];
    }
  }

  /** A sublist keeps the order of the list it was taken from. */
  lemma SublistKeepsOrder(pkgs: seq<Package>, r: seq<Package>, x: nat, y: nat, j: nat) returns (i: nat)
    requires DistinctNames(pkgs) && x < y < |pkgs| && pkgs[x] in r && j < |r| && r[j] == pkgs[y]
    requires forall a, b :: 0 <= a < b < |r| ==> Precedes(pkgs, r[a], r[b])
    ensures i < j && r[i] == pkgs[x]
  {
    i :| 0 <= i < |r| && r[i] == pkgs[x];
    if j < i {
      PrecedesIsStrict(pkgs, x, y);
    }
  }

  lemma PrecedesIsStrict(pkgs: seq<Package>, x: nat, y: nat)
    requires DistinctNames(pkgs) && x < y < |pkgs|
    ensures !Precedes(pkgs, pkgs[y], pkgs[x])
  {}

  lemma NamedKeepsOrder(pkgs: seq<Package>, names: set<string>, x: nat, y: nat, j: nat) returns (i: nat)
    requires DistinctNames(pkgs) && x < y < |pkgs| && pkgs[x].Name() in names
    requires j < |Named(pkgs, names)| && Named(pkgs, names)[j] == pkgs[y]
    ensures i < j && Named(pkgs, names)[i] == pkgs[x]
  {
    var r := Named(pkgs, names);
    assert pkgs[x] in r;
    i := SublistKeepsOrder(pkgs, r, x, y, j);
  }

  /** In the build list each dependency of a package stands before it. */
  lemma BuildsDependenciesFirst(pkgs: seq<Package>, out: seq<Package>, needed: set<string>, j: nat, d: string)
    returns (i: nat)
    requires DistinctNames(pkgs) && !HasCycle(DepGraph(pkgs))
    requires IsPermutation(pkgs, out) && IsOrdered(pkgs, DepGraph(pkgs), out)
    requires DepsClosed(DepGraph(pkgs), needed)
    requires j < |Named(out, needed)| && d in InternalDeps(Named(out, needed)[j].manifest, Names(pkgs))
    ensures i < j && Named(out, needed)[i].Name() == d
  {
    var p := Named(out, needed)[j];
    assert p in Named(out, needed);
    assert p in out;
    var y :| 0 <= y < |out| && out[y] == p;
    var x := DependenciesFirst(pkgs, out, y, d);
    assert d in DepGraph(pkgs)[p.Name()];
    i := NamedKeepsOrder(out, needed, x, y, j);
  }
}
