/** The publishable packages of the release tooling: manifests and the ranges they hold. */
module Packages {

  /** The manifest fields whose entries count as dependencies of the published package. */
  datatype Field = Dependencies | PeerDependencies | OptionalDependencies

  /** One `"name": "range"` entry of a dependency field, in file order. */
  datatype Entry = Entry(name: string, range: string)

  /** `ranges` lacks a field the manifest does not have; `rest` is everything the tooling never reads. */
  datatype Manifest = Manifest(name: string, version: string, ranges: map<Field, seq<Entry>>, rest: string)

  datatype Package = Package(dir: string, manifest: Manifest) {
    function Name(): string { manifest.name }
  }

  const INTERNAL_FIELDS: seq<Field> := [Dependencies, PeerDependencies, OptionalDependencies]

  lemma EveryFieldListed(f: Field)
    ensures f in INTERNAL_FIELDS
  {
    assert INTERNAL_FIELDS[0] == Dependencies && INTERNAL_FIELDS[1] == PeerDependencies &&
           INTERNAL_FIELDS[2] == OptionalDependencies;
  }

  function Entries(m: Manifest, f: Field): seq<Entry> {
    if f in m.ranges then m.ranges[f] else []
  }

  /** The packages among `names` that `m` needs at run time. */
  function InternalDeps(m: Manifest, names: set<string>): set<string> {
    set f, e | f in INTERNAL_FIELDS && e in Entries(m, f) && e.name in names :: e.name
  }

  function Names(pkgs: seq<Package>): set<string> {
    set p | p in pkgs :: p.Name()
  }

  ghost predicate DistinctNames(pkgs: seq<Package>) {
    forall i, j :: 0 <= i < j < |pkgs| ==> pkgs[i].Name() != pkgs[j].Name()
  }

  /** `new Map(pkgs.map(p => [name, version]))`: the last package of a name wins. */
  function Versions(pkgs: seq<Package>): map<string, string> {
    if pkgs == [] then map[]
    else Versions(pkgs[..|pkgs| - 1])[pkgs[|pkgs| - 1].Name() := pkgs[|pkgs| - 1].manifest.version]
  }

  /** `a` stands before `b` in the list. */
  ghost predicate Precedes(pkgs: seq<Package>, a: Package, b: Package) {
    exists x, y :: 0 <= x < y < |pkgs| && pkgs[x] == a && pkgs[y] == b
  }

  lemma PrecedesInLonger(pkgs: seq<Package>, p: Package)
    ensures forall a, b :: Precedes(pkgs, a, b) ==> Precedes(pkgs + [p], a, b)
    ensures forall a :: a in pkgs ==> Precedes(pkgs + [p], a, p)
  {
    var longer := pkgs + [p];
    forall a, b | Precedes(pkgs, a, b)
      ensures Precedes(longer, a, b)
    {
      var x, y :| 0 <= x < y < |pkgs| && pkgs[x] == a && pkgs[y] == b;
      assert longer[x] == a && longer[y] == b;
    }
    forall a | a in pkgs
      ensures Precedes(longer, a, p)
    {
      var x :| 0 <= x < |pkgs| && pkgs[x] == a;
      assert longer[x] == a && longer[|pkgs|] == p;
    }
  }
}
