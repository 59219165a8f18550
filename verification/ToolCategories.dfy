/** Categories linked to their parents: paths, ancestry and depth by following the links. */
module ToolCategories {

  const SEPARATOR := " > "

  class ToolCategory {
    var id: string
    var name: string
    var parent: ToolCategory?

    constructor (id: string, name: string, parent: ToolCategory?)
      ensures this.id == id && this.name == name && this.parent == parent
    {
      this.id, this.name, this.parent := id, name, parent;
    }

    /** The names from the root down to this category, joined. */
    method GetFullPath(ghost all: set<ToolCategory>, ghost rank: map<ToolCategory, nat>) returns (path: string)
      requires IsForest(all, rank) && this in all
      ensures path == Join(NamesDown(Line(this, all, rank)))
    {
      var names: seq<string> := [];
      var current: ToolCategory? := this;
      ghost var line := Line(this, all, rank);
      while current != null
        invariant current != null ==> current in all
        invariant line == (if current == null then [] else Line(current, all, rank))
        invariant NamesDown(Line(this, all, rank)) == NamesDown(line) + names
        decreases |line|
      {
        names := [current.name] + names;
        line := line[1..];
        current := current.parent;
      }
      assert [] + names == names;
      path := Join(names);
    }

    /** Whether `category` is among the parents of this one, by id. */
    method IsChildOf(category: ToolCategory, ghost all: set<ToolCategory>, ghost rank: map<ToolCategory, nat>)
      returns (r: bool)
      requires IsForest(all, rank) && this in all && category in all
      ensures r <==> IsAncestor(category, this, all, rank)
    {
      var current := parent;
      ghost var line := Line(this, all, rank)[1..];
      while current != null
        invariant current != null ==> current in all
        invariant line == (if current == null then [] else Line(current, all, rank))
        invariant IsAncestor(category, this, all, rank) <==> category in line
        decreases |line|
      {
        if current.id == category.id {
          assert current in line;
          return true;
        }
        line := line[1..];
        current := current.parent;
      }
      r := false;
    }

    /** How many parents there are above this category. */
    method GetDepth(ghost all: set<ToolCategory>, ghost rank: map<ToolCategory, nat>) returns (depth: nat)
      requires IsForest(all, rank) && this in all
      ensures depth == |Line(this, all, rank)| - 1
    {
      depth := 0;
      var current := parent;
      ghost var line := Line(this, all, rank)[1..];
      while current != null
        invariant current != null ==> current in all
        invariant line == (if current == null then [] else Line(current, all, rank))
        invariant depth + |line| == |Line(this, all, rank)| - 1
        decreases |line|
      {
        depth := depth + 1;
        line := line[1..];
        current := current.parent;
      }
    }
  }

  /** Parents come from the set and rank below their children, and ids are unique. */
  ghost predicate IsForest(all: set<ToolCategory>, rank: map<ToolCategory, nat>)
    reads all
  {
    && (forall c :: c in all ==> c in rank)
    && (forall c :: c in all && c.parent != null ==> c.parent in all && rank[c.parent] < rank[c])
    && (forall c, d :: c in all && d in all && c.id == d.id ==> c == d)
  }

  /** The category, its parent, and so on up to the root. */
  ghost function Line(c: ToolCategory, all: set<ToolCategory>, rank: map<ToolCategory, nat>): (line: seq<ToolCategory>)
    requires IsForest(all, rank) && c in all
    reads all
    ensures line != [] && line[0] == c
    ensures forall i :: 0 <= i < |line| ==> line[i] in all
    decreases rank[c]
  {
    [c] + (if c.parent == null then [] else Line(c.parent, all, rank))
  }

  ghost function NamesDown(line: seq<ToolCategory>): seq<string>
    reads line
  {
    if line == [] then [] else NamesDown(line[1..]) + [line[0].name]
  }

  function Join(names: seq<string>): string {
    if names == [] then ""
    else if |names| == 1 then names[0]
    else names[0] + SEPARATOR + Join(names[1..])
  }

  /** `a` stands above `c`. */
  ghost predicate IsAncestor(a: ToolCategory, c: ToolCategory, all: set<ToolCategory>, rank: map<ToolCategory, nat>)
    requires IsForest(all, rank) && c in all
    reads all
  {
    a in Line(c, all, rank)[1..]
  }

  // ---- ancestry, depth and path agree ----

  /** A line goes on from each of its categories as that category's own line. */
  lemma {:induction false} LineContinues(c: ToolCategory, all: set<ToolCategory>, rank: map<ToolCategory, nat>, i: nat)
    requires IsForest(all, rank) && c in all && i < |Line(c, all, rank)|
    ensures Line(c, all, rank)[i..] == Line(Line(c, all, rank)[i], all, rank)
    decreases rank[c]
  {
    var line := Line(c, all, rank);
    if i > 0 {
      LineContinues(c.parent, all, rank, i - 1);
      assert line[i..] == line[1..][i - 1..];
    }
  }

  /** The category `n` parent links up, if there is one. */
  ghost function Up(c: ToolCategory, n: nat, all: set<ToolCategory>): ToolCategory?
    requires c in all && forall d :: d in all && d.parent != null ==> d.parent in all
    reads all
  {
    if n == 0 then c else if c.parent == null then null else Up(c.parent, n - 1, all)
  }

  lemma {:induction false} LineIsUp(c: ToolCategory, n: nat, all: set<ToolCategory>, rank: map<ToolCategory, nat>)
    requires IsForest(all, rank) && c in all
    ensures Up(c, n, all) == if n < |Line(c, all, rank)| then Line(c, all, rank)[n] else null
    decreases n
  {
    if n > 0 && c.parent != null {
      LineIsUp(c.parent, n - 1, all, rank);
    }
  }

  /** Being above is being reached by one or more parent links. */
  lemma AncestorExactlyWhen(a: ToolCategory, c: ToolCategory, all: set<ToolCategory>, rank: map<ToolCategory, nat>)
    requires IsForest(all, rank) && c in all
    ensures IsAncestor(a, c, all, rank) <==> exists n: nat :: n > 0 && Up(c, n, all) == a
  {
    var line := Line(c, all, rank);
    if IsAncestor(a, c, all, rank) {
      var k :| 0 <= k < |line[1..]| && line[1..][k] == a;
      LineIsUp(c, k + 1, all, rank);
    }
    if n: nat :| n > 0 && Up(c, n, all) == a {
      LineIsUp(c, n, all, rank);
      assert line[1..][n - 1] == a;
    }
  }

  /** The line of an ancestor is a proper end of the line: it is less deep, and its names start the path. */
  lemma AncestorsLineEnds(a: ToolCategory, c: ToolCategory, all: set<ToolCategory>, rank: map<ToolCategory, nat>)
    returns (i: nat)
    requires IsForest(all, rank) && c in all && IsAncestor(a, c, all, rank)
    ensures 0 < i < |Line(c, all, rank)| && a in all && Line(a, all, rank) == Line(c, all, rank)[i..]
  {
    var line := Line(c, all, rank);
    var k :| 0 <= k < |line[1..]| && line[1..][k] == a;
    i := k + 1;
    assert line[i] == a;
    LineContinues(c, all, rank, i);
  }

  /** No category is above itself, and what is above an ancestor is above. */
  lemma AncestryIsStrictOrder(a: ToolCategory, b: ToolCategory, c: ToolCategory, all: set<ToolCategory>,
                              rank: map<ToolCategory, nat>)
    requires IsForest(all, rank) && a in all && b in all && c in all
    ensures !IsAncestor(c, c, all, rank)
    ensures IsAncestor(a, b, all, rank) && IsAncestor(b, c, all, rank) ==> IsAncestor(a, c, all, rank)
    ensures IsAncestor(a, b, all, rank) ==> !IsAncestor(b, a, all, rank)
  {
    AncestryIsIrreflexive(c, all, rank);
    AncestryIsIrreflexive(a, all, rank);
    if IsAncestor(a, b, all, rank) && IsAncestor(b, c, all, rank) {
      AncestryIsTransitive(a, b, c, all, rank);
    }
    if IsAncestor(a, b, all, rank) && IsAncestor(b, a, all, rank) {
      AncestryIsTransitive(a, b, a, all, rank);
      assert false;
    }
  }

  lemma AncestryIsIrreflexive(c: ToolCategory, all: set<ToolCategory>, rank: map<ToolCategory, nat>)
    requires IsForest(all, rank) && c in all
    ensures !IsAncestor(c, c, all, rank)
  {
    if IsAncestor(c, c, all, rank) {
      var i := AncestorsLineEnds(c, c, all, rank);
      assert false;
    }
  }

  lemma AncestryIsTransitive(a: ToolCategory, b: ToolCategory, c: ToolCategory, all: set<ToolCategory>,
                             rank: map<ToolCategory, nat>)
    requires IsForest(all, rank) && b in all && c in all
    requires IsAncestor(a, b, all, rank) && IsAncestor(b, c, all, rank)
    ensures IsAncestor(a, c, all, rank)
  {
    var i := AncestorsLineEnds(b, c, all, rank);
    EndsInTail(Line(c, all, rank), i, a);
  }

  lemma EndsInTail<T>(line: seq<T>, i: nat, a: T)
    requires 0 < i < |line| && a in line[i..][1..]
    ensures a in line[1..]
  {
    var k :| 0 <= k < |line[i..][1..]| && line[i..][1..][k] == a;
    assert line[1..][i + k] == a;
  }

  lemma {:induction false} NamesDownOfSum(a: seq<ToolCategory>, b: seq<ToolCategory>)
    ensures NamesDown(a + b) == NamesDown(b) + NamesDown(a)
    ensures |NamesDown(a)| == |a|
  {
    if a == [] {
      assert a + b == b;
    } else {
      assert (a + b)[1..] == a[1..] + b;
      NamesDownOfSum(a[1..], b);
    }
  }

  lemma {:induction false} JoinOfSum(a: seq<string>, b: seq<string>)
    requires a != [] && b != []
    ensures Join(a + b) == Join(a) + SEPARATOR + Join(b)
  {
    if |a| == 1 {
      assert (a + b)[1..] == b;
    } else {
      assert (a + b)[1..] == a[1..] + b;
      JoinOfSum(a[1..], b);
      Regroup(a[0] + SEPARATOR, Join(a[1..]), SEPARATOR, Join(b));
    }
  }

  lemma Regroup(a: string, b: string, c: string, d: string)
    ensures a + (b + c + d) == (a + b) + c + d
  {}

  /** A category's path starts with the path of each ancestor, followed by a separator; and it is deeper. */
  lemma AncestorsPathIsPrefix(a: ToolCategory, c: ToolCategory, all: set<ToolCategory>, rank: map<ToolCategory, nat>)
    requires IsForest(all, rank) && a in all && c in all && IsAncestor(a, c, all, rank)
    ensures |Line(a, all, rank)| < |Line(c, all, rank)|
    ensures |NamesDown(Line(c, all, rank))| == |Line(c, all, rank)|
    ensures Join(NamesDown(Line(a, all, rank))) + SEPARATOR <= Join(NamesDown(Line(c, all, rank)))
  {
    var line := Line(c, all, rank);
    var i := AncestorsLineEnds(a, c, all, rank);
    assert line == line[..i] + line[i..];
    NamesDownOfSum(line[..i], line[i..]);
    NamesDownOfSum(line[i..], []);
    NamesDownOfSum(line, []);
    JoinOfSum(NamesDown(line[i..]), NamesDown(line[..i]));
  }

  /** A root's path is its name; any other is its parent's path, ` > ` and its name. */
  lemma PathByParent(c: ToolCategory, all: set<ToolCategory>, rank: map<ToolCategory, nat>)
    requires IsForest(all, rank) && c in all
    ensures var path := Join(NamesDown(Line(c, all, rank)));
            if c.parent == null then path == c.name
            else path == Join(NamesDown(Line(c.parent, all, rank))) + " > " + c.name
  {
    var line := Line(c, all, rank);
    if c.parent == null {
      assert line[1..] == [] && NamesDown(line) == [] + [c.name];
    } else {
      var above := Line(c.parent, all, rank);
      assert line[1..] == above;
      NamesDownOfSum(above, []);
      JoinOfSum(NamesDown(above), [c.name]);
    }
  }
}
