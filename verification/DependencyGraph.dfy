/** Chains and cycles of an internal dependency graph, and the rounds that settle it. */
module DependencyGraph {

  /** Package name to the names it depends on. */
  type Graph = map<string, set<string>>

  ghost predicate Closed(g: Graph) {
    forall n :: n in g ==> g[n] <= g.Keys
  }

  /** Each name of a chain depends on the next one. */
  ghost predicate IsChain(g: Graph, c: seq<string>) {
    && |c| > 0
    && (forall i :: 0 <= i < |c| ==> c[i] in g)
    && (forall i :: 0 <= i < |c| - 1 ==> c[i + 1] in g[c[i]])
  }

  /** A chain of `k` dependency steps starts at `n`. */
  ghost predicate HasChain(g: Graph, n: string, k: nat) {
    exists c :: IsChain(g, c) && |c| == k + 1 && c[0] == n
  }

  ghost predicate IsCycle(g: Graph, c: seq<string>) {
    IsChain(g, c) && |c| >= 2 && c[0] == c[|c| - 1]
  }

  ghost predicate HasCycle(g: Graph) {
    exists c :: IsCycle(g, c)
  }

  ghost predicate Reaches(g: Graph, a: string, b: string) {
    exists c :: IsChain(g, c) && c[0] == a && c[|c| - 1] == b
  }

  ghost predicate OnCycle(g: Graph, n: string) {
    exists c :: IsCycle(g, c) && c[0] == n
  }

  ghost predicate LeadsIntoCycle(g: Graph, n: string) {
    exists m :: OnCycle(g, m) && Reaches(g, n, m)
  }

  /** No chain from `a` is longer than every chain from `b`. */
  ghost predicate NoDeeper(g: Graph, a: string, b: string) {
    forall k: nat :: HasChain(g, a, k) ==> HasChain(g, b, k)
  }

  /** The names whose dependencies are settled one round earlier. */
  function Settled(g: Graph, k: nat): set<string> {
    if k == 0 then {} else set n | n in g && g[n] <= Settled(g, k - 1)
  }

  /** A name settles within `k` rounds exactly when no chain of `k` steps starts at it. */
  lemma {:induction false} SettledIffNoChain(g: Graph, n: string, k: nat)
    requires Closed(g) && n in g
    ensures n in Settled(g, k) <==> !HasChain(g, n, k)
    decreases k
  {
    if k == 0 {
      assert IsChain(g, [n]);
    } else {
      forall d | d in g[n]
        ensures d in Settled(g, k - 1) <==> !HasChain(g, d, k - 1)
      {
        SettledIffNoChain(g, d, k - 1);
      }
      if d :| d in g[n] && HasChain(g, d, k - 1) {
        var c :| IsChain(g, c) && |c| == k && c[0] == d;
        assert IsChain(g, [n] + c);
      }
      if HasChain(g, n, k) {
        var c :| IsChain(g, c) && |c| == k + 1 && c[0] == n;
        assert IsChain(g, c[1..]);
        assert c[1] in g[n] && HasChain(g, c[1], k - 1);
      }
    }
  }

  lemma {:induction false} SettledGrows(g: Graph, k: nat)
    ensures Settled(g, k) <= Settled(g, k + 1)
  {
    if k > 0 {
      SettledGrows(g, k - 1);
    }
  }

  lemma {:induction false} SettledGrowsTo(g: Graph, j: nat, k: nat)
    requires j <= k
    ensures Settled(g, j) <= Settled(g, k)
  {
    if j < k {
      SettledGrowsTo(g, j, k - 1);
      SettledGrows(g, k - 1);
    }
  }

  /** Names settled in one round come no deeper than names not yet settled by then. */
  lemma SettledEarlierNoDeeper(g: Graph, a: string, b: string, k: nat)
    requires Closed(g) && a in g && b in g
    requires a in Settled(g, k + 1) && b !in Settled(g, k)
    ensures NoDeeper(g, a, b)
  {
    forall j: nat | HasChain(g, a, j)
      ensures HasChain(g, b, j)
    {
      SettledIffNoChain(g, a, j);
      SettledIffNoChain(g, b, j);
      if j > k {
        SettledGrowsTo(g, k + 1, j);
      } else {
        SettledGrowsTo(g, j, k);
      }
    }
  }

  /** No name of a cycle ever settles. */
  lemma {:induction false} CycleNeverSettles(g: Graph, c: seq<string>, i: nat, k: nat)
    requires IsCycle(g, c) && i < |c|
    ensures c[i] !in Settled(g, k)
    decreases k
  {
    if k > 0 {
      var j := if i + 1 < |c| then i + 1 else 1;
      assert c[j] in g[c[i]] by {
        assert c[i] == c[j - 1];
      }
      CycleNeverSettles(g, c, j, k - 1);
    }
  }

  /** Where every name keeps a dependency among the unsettled ones, chains run on for ever. */
  lemma {:induction false} ChainInside(g: Graph, unsettled: set<string>, n: string, k: nat) returns (c: seq<string>)
    requires unsettled <= g.Keys && n in unsettled
    requires forall m :: m in unsettled ==> g[m] * unsettled != {}
    ensures IsChain(g, c) && |c| == k + 1 && c[0] == n
    decreases k
  {
    if k == 0 {
      c := [n];
    } else {
      var d :| d in g[n] * unsettled;
      var tail := ChainInside(g, unsettled, d, k - 1);
      c := [n] + tail;
    }
  }

  lemma {:induction false} DistinctFitIn(c: seq<string>, s: set<string>)
    requires forall i :: 0 <= i < |c| ==> c[i] in s
    requires forall i, j :: 0 <= i < j < |c| ==> c[i] != c[j]
    ensures |c| <= |s|
  {
    if c != [] {
      DistinctFitIn(c[1..], s - {c[0]});
    }
  }

  lemma NotItsOwnDependency(g: Graph, n: string)
    requires !HasCycle(g) && n in g
    ensures n !in g[n]
  {
    if n in g[n] {
      assert IsCycle(g, [n, n]);
    }
  }

  /** A chain with more names than the graph has comes back to one of them. */
  lemma LongChainCycles(g: Graph, c: seq<string>)
    requires IsChain(g, c) && |c| > |g|
    ensures HasCycle(g)
  {
    var m := LongChainReachesCycle(g, c);
  }

  lemma LongChainReachesCycle(g: Graph, c: seq<string>) returns (m: string)
    requires IsChain(g, c) && |c| > |g|
    ensures HasCycle(g) && OnCycle(g, m) && Reaches(g, c[0], m)
  {
    if forall i, j :: 0 <= i < j < |c| ==> c[i] != c[j] {
      assert |g.Keys| == |g|;
      DistinctFitIn(c, g.Keys);
    }
    var i, j :| 0 <= i < j < |c| && c[i] == c[j];
    m := c[i];
    assert IsCycle(g, c[i..j + 1]) && c[i..j + 1][0] == m;
    var lead := c[..i + 1];
    assert IsChain(g, lead) && lead[0] == c[0] && lead[|lead| - 1] == m;
  }

  /** A name that leads to one that never settles never settles. */
  lemma {:induction false} LeadNeverSettles(g: Graph, lead: seq<string>, i: nat, c: seq<string>, k: nat)
    requires IsCycle(g, c) && IsChain(g, lead) && lead[|lead| - 1] == c[0] && i < |lead|
    ensures lead[i] !in Settled(g, k)
    decreases |lead| - i
  {
    if i == |lead| - 1 {
      CycleNeverSettles(g, c, 0, k);
    } else if k > 0 {
      assert lead[i + 1] in g[lead[i]];
      LeadNeverSettles(g, lead, i + 1, c, k - 1);
    }
  }

  /** The names that lead into a cycle are those that start a chain of as many steps as the graph has names. */
  lemma IntoCycleExactlyWhen(g: Graph, n: string)
    requires Closed(g) && n in g
    ensures LeadsIntoCycle(g, n) <==> HasChain(g, n, |g|)
  {
    if HasChain(g, n, |g|) {
      var c :| IsChain(g, c) && |c| == |g| + 1 && c[0] == n;
      var m := LongChainReachesCycle(g, c);
    }
    if m :| OnCycle(g, m) && Reaches(g, n, m) {
      var c :| IsCycle(g, c) && c[0] == m;
      var lead :| IsChain(g, lead) && lead[0] == n && lead[|lead| - 1] == m;
      LeadNeverSettles(g, lead, 0, c, |g|);
      SettledIffNoChain(g, n, |g|);
    }
  }

  lemma OnCycleIsNeeded(g: Graph, n: string)
    requires OnCycle(g, n)
    ensures exists m :: m in g && n in g[m]
  {
    var c :| IsCycle(g, c) && c[0] == n;
    assert c[|c| - 2 + 1] in g[c[|c| - 2]];
  }

  /**
   * What depends on a name that leads into a cycle leads into one, and only what
   * is on a cycle or depends on such a name does.
   */
  lemma IntoCycleByStep(g: Graph, n: string)
    requires n in g
    ensures LeadsIntoCycle(g, n) <==> OnCycle(g, n) || exists d :: d in g[n] && LeadsIntoCycle(g, d)
  {
    if OnCycle(g, n) {
      assert IsChain(g, [n]);
      assert Reaches(g, n, n);
    }
    if d :| d in g[n] && LeadsIntoCycle(g, d) {
      var m :| OnCycle(g, m) && Reaches(g, d, m);
      var c :| IsChain(g, c) && c[0] == d && c[|c| - 1] == m;
      var longer := [n] + c;
      assert IsChain(g, longer) && longer[0] == n && longer[|longer| - 1] == m;
      assert Reaches(g, n, m);
    }
    if !OnCycle(g, n) && LeadsIntoCycle(g, n) {
      var m :| OnCycle(g, m) && Reaches(g, n, m);
      var c :| IsChain(g, c) && c[0] == n && c[|c| - 1] == m;
      assert |c| > 1;
      var rest := c[1..];
      assert IsChain(g, rest) && rest[0] == c[1] && rest[|rest| - 1] == m;
      assert c[1] in g[n] && Reaches(g, c[1], m);
    }
  }

  lemma StuckOnUnsettled(g: Graph, k: nat)
    requires Closed(g) && Settled(g, k + 1) == Settled(g, k)
    ensures forall m :: m in g.Keys - Settled(g, k) ==> g[m] * (g.Keys - Settled(g, k)) != {}
  {
    forall m | m in g.Keys - Settled(g, k)
      ensures g[m] * (g.Keys - Settled(g, k)) != {}
    {
      assert m !in Settled(g, k + 1);
      var d :| d in g[m] && d !in Settled(g, k);
      assert d in g[m] * (g.Keys - Settled(g, k));
    }
  }

  /** A round that settles nothing new, with names left over, has found a cycle. */
  lemma StuckMeansCycle(g: Graph, k: nat)
    requires Closed(g)
    requires Settled(g, k + 1) == Settled(g, k) != g.Keys
    ensures HasCycle(g)
    ensures forall n, j: nat :: n in g && n !in Settled(g, k) ==> HasChain(g, n, j)
  {
    var unsettled := g.Keys - Settled(g, k);
    StuckOnUnsettled(g, k);
    forall n, j: nat | n in g && n !in Settled(g, k)
      ensures HasChain(g, n, j)
    {
      var c := ChainInside(g, unsettled, n, j);
    }
    SettledGrowsTo(g, 0, k);
    assert Settled(g, k) <= g.Keys;
    var start :| start in unsettled;
    var c := ChainInside(g, unsettled, start, |g|);
    LongChainCycles(g, c);
  }

  /** Without cycles a chain visits each name at most once, so it has fewer steps than the graph has names. */
  lemma AcyclicChainsAreShort(g: Graph, n: string, k: nat)
    requires !HasCycle(g) && HasChain(g, n, k)
    ensures k < |g|
  {
    var c :| IsChain(g, c) && |c| == k + 1 && c[0] == n;
    if |c| > |g| {
      LongChainCycles(g, c);
    }
  }

  /** Without cycles some chain from a name is strictly longer than every chain from its dependency. */
  lemma {:induction false} DependencyIsShallower(g: Graph, n: string, d: string)
    requires !HasCycle(g)
    requires n in g && d in g && d in g[n]
    ensures !NoDeeper(g, n, d)
  {
    assert IsChain(g, [d]);
    assert HasChain(g, d, 0);
    if NoDeeper(g, n, d) {
      ChainsGrowWithoutEnd(g, n, d, |g|);
      AcyclicChainsAreShort(g, d, |g|);
    }
  }

  lemma {:induction false} ChainsGrowWithoutEnd(g: Graph, n: string, d: string, k: nat)
    requires n in g && d in g && d in g[n] && NoDeeper(g, n, d)
    ensures HasChain(g, d, k)
    decreases k
  {
    if k == 0 {
      assert IsChain(g, [d]);
    } else {
      ChainsGrowWithoutEnd(g, n, d, k - 1);
      var c :| IsChain(g, c) && |c| == k && c[0] == d;
      assert IsChain(g, [n] + c);
    }
  }
}
