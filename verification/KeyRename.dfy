/** `transformInput` and `transformOutput`: renaming the keys of an object, one entry after the other. */
module KeyRename {
  import opened Options

  datatype Entry = Entry(source: string, target: string)

  /** The entries of a mapping object, in their order; a source occurs once. */
  type Mapping = seq<Entry>

  /** An object's own keys, or a value that is no object. */
  datatype Output<V> = Object(own: map<string, V>) | Plain(value: V)

  /** The value `o[k]` reads: the object's own, or one every object inherits. */
  function Get<V>(o: map<string, V>, inherited: map<string, V>, k: string): V
    requires k in o || k in inherited
  {
    if k in o then o[k] else inherited[k]
  }

  /** One entry of the mapping, if the object answers to its source. */
  function Renamed<V>(o: map<string, V>, inherited: map<string, V>, e: Entry): map<string, V> {
    if e.source !in o && e.source !in inherited then o
    else
      var moved := o[e.target := Get(o, inherited, e.source)];
      if e.source != e.target then moved - {e.source} else moved
  }

  /** The first `n` entries, in order. */
  function RenamedBy<V>(o: map<string, V>, inherited: map<string, V>, entries: Mapping, n: nat): map<string, V>
    requires n <= |entries|
  {
    if n == 0 then o else Renamed(RenamedBy(o, inherited, entries, n - 1), inherited, entries[n - 1])
  }

  class GatewayTool<V> {
    var inputMapping: Option<Mapping>
    var outputMapping: Option<Mapping>

    constructor (inputMapping: Option<Mapping>, outputMapping: Option<Mapping>)
      ensures this.inputMapping == inputMapping && this.outputMapping == outputMapping
    {
      this.inputMapping, this.outputMapping := inputMapping, outputMapping;
    }

    method TransformInput(input: map<string, V>, inherited: map<string, V>) returns (transformed: map<string, V>)
      ensures inputMapping.None? ==> transformed == input
      ensures inputMapping.Some? ==>
        transformed == RenamedBy(input, inherited, inputMapping.value, |inputMapping.value|)
    {
      if inputMapping.None? {
        return input;
      }
      transformed := RenameInOrder(input, inherited, inputMapping.value);
    }

    method TransformOutput(output: Output<V>, inherited: map<string, V>) returns (transformed: Output<V>)
      ensures outputMapping.None? || output.Plain? ==> transformed == output
      ensures outputMapping.Some? && output.Object? ==>
        transformed == Object(RenamedBy(output.own, inherited, outputMapping.value, |outputMapping.value|))
    {
      if outputMapping.None? {
        return output;
      }
      if output.Object? {
        var own := RenameInOrder(output.own, inherited, outputMapping.value);
        return Object(own);
      }
      return output;
    }
  }

  method RenameInOrder<V>(o: map<string, V>, inherited: map<string, V>, entries: Mapping)
    returns (transformed: map<string, V>)
    ensures transformed == RenamedBy(o, inherited, entries, |entries|)
  {
    transformed := o;
    for i := 0 to |entries|
      invariant transformed == RenamedBy(o, inherited, entries, i)
    {
      var source, target := entries[i].source, entries[i].target;
      if source in transformed || source in inherited {
        transformed := transformed[target := Get(transformed, inherited, source)];
        if source != target {
          transformed := transformed - {source};
        }
      }
    }
  }

  // ---- the simultaneous rename ----

  /** What the first `n` entries call the key `k`. */
  function NewName(entries: Mapping, n: nat, k: string): string
    requires n <= |entries|
  {
    if n == 0 then k
    else if entries[n - 1].source == k then entries[n - 1].target
    else NewName(entries, n - 1, k)
  }

  /** `r` holds the value of `k` under its new name. */
  ghost predicate Carries<V>(o: map<string, V>, r: map<string, V>, entries: Mapping, n: nat, k: string)
    requires n <= |entries| && k in o
  {
    NewName(entries, n, k) in r && r[NewName(entries, n, k)] == o[k]
  }

  /** Some key of `o` is now called `k'`. */
  ghost predicate HasOrigin<V>(o: map<string, V>, entries: Mapping, n: nat, k': string)
    requires n <= |entries|
  {
    exists k :: k in o && NewName(entries, n, k) == k'
  }

  /** `r` is `o` with every key renamed at once, each value kept. */
  ghost predicate IsRenaming<V>(o: map<string, V>, r: map<string, V>, entries: Mapping, n: nat)
    requires n <= |entries|
  {
    && (forall k {:trigger Carries(o, r, entries, n, k)} :: k in o ==> Carries(o, r, entries, n, k))
    && (forall k' {:trigger HasOrigin(o, entries, n, k')} :: k' in r ==> HasOrigin(o, entries, n, k'))
  }

  /** Two entries share a source or a target, or one's target is the other's source. */
  predicate Clashes(a: Entry, b: Entry) {
    a.source == b.source || a.target == b.target || a.target == b.source || b.target == a.source
  }

  /** The entry's source is not just inherited, and its target, if new, is free. */
  predicate Fits<V>(o: map<string, V>, inherited: map<string, V>, e: Entry) {
    && (e.source in inherited ==> e.source in o)
    && (e.source != e.target ==> e.target !in o)
  }

  ghost predicate NoClash(entries: Mapping) {
    forall i, j {:trigger Clashes(entries[i], entries[j])} :: 0 <= i < j < |entries| ==>
      !Clashes(entries[i], entries[j])
  }

  ghost predicate AllFit<V>(o: map<string, V>, inherited: map<string, V>, entries: Mapping) {
    forall i {:trigger Fits(o, inherited, entries[i])} :: 0 <= i < |entries| ==> Fits(o, inherited, entries[i])
  }

  /** Which entry renames `k`: the last of the first `n` that has it as source, or none. */
  lemma {:induction false} RenamedByEntry(entries: Mapping, n: nat, k: string) returns (j: nat)
    requires n <= |entries|
    ensures j <= n
    ensures j < n ==> entries[j].source == k && NewName(entries, n, k) == entries[j].target
    ensures j == n ==> NewName(entries, n, k) == k && forall i :: 0 <= i < n ==> entries[i].source != k
    decreases n
  {
    if n == 0 {
      j := 0;
    } else if entries[n - 1].source == k {
      j := n - 1;
    } else {
      j := RenamedByEntry(entries, n - 1, k);
      if j == n - 1 {
        j := n;
      }
    }
  }

  /** Before its turn a source still has its name, and nothing else is called like it or like its target. */
  lemma BeforeItsTurn<V>(o: map<string, V>, inherited: map<string, V>, entries: Mapping, n: nat, k: string)
    requires n < |entries| && k in o && NoClash(entries) && AllFit(o, inherited, entries)
    ensures k == entries[n].source ==> NewName(entries, n, k) == k
    ensures k != entries[n].source ==>
            NewName(entries, n, k) != entries[n].source && NewName(entries, n, k) != entries[n].target
  {
    var j := RenamedByEntry(entries, n, k);
    assert j < n ==> !Clashes(entries[j], entries[n]);
    assert Fits(o, inherited, entries[n]);
  }

  /** One more entry carries a renaming on. */
  lemma RenamingStep<V>(o: map<string, V>, inherited: map<string, V>, e: Entry, r: map<string, V>, entries: Mapping,
                        n: nat)
    requires n < |entries| && e == entries[n] && IsRenaming(o, r, entries, n)
    requires e.source in inherited ==> e.source in o
    requires forall k :: k in o ==>
      if k == e.source then NewName(entries, n, k) == k
      else NewName(entries, n, k) != e.source && NewName(entries, n, k) != e.target
    ensures IsRenaming(o, Renamed(r, inherited, e), entries, n + 1)
  {
    var r' := Renamed(r, inherited, e);
    SourceKept(o, e, r, entries, n);
    forall k | k in o
      ensures Carries(o, r', entries, n + 1, k)
    {
      assert Carries(o, r, entries, n, k);
    }
    forall k' | k' in r'
      ensures HasOrigin(o, entries, n + 1, k')
    {
      if k' == e.target && e.source in o {
        assert NewName(entries, n + 1, e.source) == k';
      } else {
        assert HasOrigin(o, entries, n, k');
        var k :| k in o && NewName(entries, n, k) == k';
        assert NewName(entries, n + 1, k) == k';
      }
    }
  }

  lemma SourceKept<V>(o: map<string, V>, e: Entry, r: map<string, V>, entries: Mapping, n: nat)
    requires n < |entries| && e == entries[n] && IsRenaming(o, r, entries, n)
    requires forall k :: k in o ==>
      if k == e.source then NewName(entries, n, k) == k
      else NewName(entries, n, k) != e.source && NewName(entries, n, k) != e.target
    ensures e.source in r <==> e.source in o
    ensures e.source in o ==> r[e.source] == o[e.source]
  {
    if e.source in o {
      assert Carries(o, r, entries, n, e.source);
    }
    if e.source in r {
      assert HasOrigin(o, entries, n, e.source);
      var k :| k in o && NewName(entries, n, k) == e.source;
    }
  }

  /** Without clashes, renaming in order is renaming at once. */
  lemma {:induction false} InOrderIsAtOnce<V>(o: map<string, V>, inherited: map<string, V>, entries: Mapping, n: nat)
    requires n <= |entries| && NoClash(entries) && AllFit(o, inherited, entries)
    ensures IsRenaming(o, RenamedBy(o, inherited, entries, n), entries, n)
    decreases n
  {
    if n > 0 {
      InOrderIsAtOnce(o, inherited, entries, n - 1);
      forall k | k in o
        ensures if k == entries[n - 1].source then NewName(entries, n - 1, k) == k
                else NewName(entries, n - 1, k) !in {entries[n - 1].source, entries[n - 1].target}
      {
        BeforeItsTurn(o, inherited, entries, n - 1, k);
      }
      assert Fits(o, inherited, entries[n - 1]);
      RenamingStep(o, inherited, entries[n - 1], RenamedBy(o, inherited, entries, n - 1), entries, n - 1);
    }
  }

  function Inverted(entries: Mapping): Mapping {
    seq(|entries|, i requires 0 <= i < |entries| => Entry(entries[i].target, entries[i].source))
  }

  lemma Apart(entries: Mapping, i: nat, j: nat)
    requires NoClash(entries) && i < |entries| && j < |entries| && i != j
    ensures !Clashes(entries[i], entries[j])
  {
    assert i < j ==> !Clashes(entries[i], entries[j]);
    assert j < i ==> !Clashes(entries[j], entries[i]);
  }

  lemma OldNameBack<V>(o: map<string, V>, inherited: map<string, V>, entries: Mapping, k: string)
    requires NoClash(entries) && AllFit(o, inherited, entries) && k in o
    ensures NewName(Inverted(entries), |entries|, NewName(entries, |entries|, k)) == k
  {
    var n, back := |entries|, Inverted(entries);
    var j := RenamedByEntry(entries, n, k);
    var i := RenamedByEntry(back, n, NewName(entries, n, k));
    assert i < n ==> back[i] == Entry(entries[i].target, entries[i].source) && Fits(o, inherited, entries[i]);
    assert j < n ==> back[j] == Entry(entries[j].target, entries[j].source);
    if i < n && j < n && i != j {
      Apart(entries, i, j);
    }
  }

  /** So no two keys get one name, and no value is lost. */
  lemma NewNamesDiffer<V>(o: map<string, V>, inherited: map<string, V>, entries: Mapping, a: string, b: string)
    requires NoClash(entries) && AllFit(o, inherited, entries)
    requires a in o && b in o && a != b
    ensures NewName(entries, |entries|, a) != NewName(entries, |entries|, b)
  {
    OldNameBack(o, inherited, entries, a);
    OldNameBack(o, inherited, entries, b);
  }

  lemma InvertedFits<V>(o: map<string, V>, r: map<string, V>, inherited: map<string, V>, entries: Mapping, i: nat)
    requires i < |entries| && NoClash(entries) && AllFit(o, inherited, entries)
    requires IsRenaming(o, r, entries, |entries|)
    requires entries[i].target in inherited ==> entries[i].source in o
    ensures Fits(r, inherited, Inverted(entries)[i])
  {
    if entries[i].source in o {
      assert Carries(o, r, entries, |entries|, entries[i].source);
      var j := RenamedByEntry(entries, |entries|, entries[i].source);
      if j < |entries| && j != i {
        Apart(entries, i, j);
      }
    }
    if entries[i].source != entries[i].target && entries[i].source in r {
      assert HasOrigin(o, entries, |entries|, entries[i].source);
      var k :| k in o && NewName(entries, |entries|, k) == entries[i].source;
      var j := RenamedByEntry(entries, |entries|, k);
      if j < |entries| && j != i {
        Apart(entries, i, j);
      }
    }
  }

  lemma InvertedNoClash(entries: Mapping)
    requires NoClash(entries)
    ensures NoClash(Inverted(entries))
  {
    forall i, j | 0 <= i < j < |entries|
      ensures !Clashes(Inverted(entries)[i], Inverted(entries)[j])
    {
      assert !Clashes(entries[i], entries[j]);
    }
  }

  /**
   * The inverted mapping undoes a renaming without clashes exactly when each
   * target every object inherits is one a key was renamed to: any other one
   * is taken for a key on the way back.
   */
  lemma InvertedUndoes<V>(o: map<string, V>, inherited: map<string, V>, entries: Mapping)
    requires NoClash(entries) && AllFit(o, inherited, entries)
    ensures var r := RenamedBy(o, inherited, entries, |entries|);
            RenamedBy(r, inherited, Inverted(entries), |entries|) == o <==>
            forall i :: 0 <= i < |entries| && entries[i].target in inherited ==> entries[i].source in o
  {
    var back, r := Inverted(entries), RenamedBy(o, inherited, entries, |entries|);
    if i :| 0 <= i < |entries| && entries[i].target in inherited && entries[i].source !in o {
      InvertedNoClash(entries);
      AddedOnTheWayBack(r, inherited, back, i, |back|);
    } else {
      InOrderIsAtOnce(o, inherited, entries, |entries|);
      InvertedNoClash(entries);
      forall i | 0 <= i < |back|
        ensures Fits(r, inherited, back[i])
      {
        InvertedFits(o, r, inherited, entries, i);
      }
      InOrderIsAtOnce(r, inherited, back, |back|);
      RenamedThereAndBack(o, r, RenamedBy(r, inherited, back, |back|), inherited, entries);
    }
  }

  /** An entry with an inherited source leaves a key, and no other entry touches it. */
  lemma {:induction false} AddedOnTheWayBack<V>(o: map<string, V>, inherited: map<string, V>, entries: Mapping, i: nat,
                                                n: nat)
    requires NoClash(entries) && i < n <= |entries| && entries[i].source in inherited
    ensures entries[i].target in RenamedBy(o, inherited, entries, n)
    decreases n
  {
    if i < n - 1 {
      AddedOnTheWayBack(o, inherited, entries, i, n - 1);
      Apart(entries, i, n - 1);
    }
  }

  lemma RenamedThereAndBack<V>(o: map<string, V>, r: map<string, V>, b: map<string, V>, inherited: map<string, V>,
                               entries: Mapping)
    requires NoClash(entries) && AllFit(o, inherited, entries)
    requires IsRenaming(o, r, entries, |entries|) && IsRenaming(r, b, Inverted(entries), |entries|)
    ensures b == o
  {
    forall k | k in o
      ensures k in b && b[k] == o[k]
    {
      ValueBack(o, r, b, inherited, entries, k);
    }
    forall k | k in b
      ensures k in o
    {
      KeyFromBefore(o, r, b, inherited, entries, k);
    }
  }

  lemma ValueBack<V>(o: map<string, V>, r: map<string, V>, b: map<string, V>, inherited: map<string, V>,
                     entries: Mapping, k: string)
    requires NoClash(entries) && AllFit(o, inherited, entries) && k in o
    requires IsRenaming(o, r, entries, |entries|) && IsRenaming(r, b, Inverted(entries), |entries|)
    ensures k in b && b[k] == o[k]
  {
    var k' := NewName(entries, |entries|, k);
    assert Carries(o, r, entries, |entries|, k);
    assert Carries(r, b, Inverted(entries), |entries|, k');
    OldNameBack(o, inherited, entries, k);
  }

  lemma KeyFromBefore<V>(o: map<string, V>, r: map<string, V>, b: map<string, V>, inherited: map<string, V>,
                         entries: Mapping, k: string)
    requires NoClash(entries) && AllFit(o, inherited, entries) && k in b
    requires IsRenaming(o, r, entries, |entries|) && IsRenaming(r, b, Inverted(entries), |entries|)
    ensures k in o
  {
    assert HasOrigin(r, Inverted(entries), |entries|, k);
    var k' :| k' in r && NewName(Inverted(entries), |entries|, k') == k;
    assert HasOrigin(o, entries, |entries|, k');
    var k0 :| k0 in o && NewName(entries, |entries|, k0) == k';
    OldNameBack(o, inherited, entries, k0);
  }

  /** Whatever the mapping, a key it does not name is left as it is. */
  lemma {:induction false} OtherKeysStay<V>(o: map<string, V>, inherited: map<string, V>, entries: Mapping, n: nat,
                                            k: string)
    requires n <= |entries|
    requires forall i :: 0 <= i < |entries| ==> entries[i].source != k && entries[i].target != k
    ensures var r := RenamedBy(o, inherited, entries, n);
            (k in r <==> k in o) && (k in o ==> r[k] == o[k])
    decreases n
  {
    if n > 0 {
      OtherKeysStay(o, inherited, entries, n - 1, k);
    }
  }

  /** The entry overwrites a key the object has. */
  ghost predicate Overwrites<V>(o: map<string, V>, e: Entry) {
    e.source in o && e.source != e.target && e.target in o
  }

  /** The entry copies an inherited value to a key the object does not have. */
  ghost predicate Adds<V>(o: map<string, V>, inherited: map<string, V>, e: Entry) {
    e.source !in o && e.source in inherited && e.target !in o
  }

  lemma RenamedCount<V>(o: map<string, V>, inherited: map<string, V>, e: Entry)
    ensures |Renamed(o, inherited, e)| ==
            |o| + (if Adds(o, inherited, e) then 1 else 0) - (if Overwrites(o, e) then 1 else 0)
  {
    RenamedKeys(o, inherited, e);
    var r := Renamed(o, inherited, e);
    assert |r| == |r.Keys| && |o| == |o.Keys|;
  }

  lemma RenamedKeys<V>(o: map<string, V>, inherited: map<string, V>, e: Entry)
    ensures Renamed(o, inherited, e).Keys ==
            if e.source in o then (if e.source == e.target then o.Keys else o.Keys - {e.source} + {e.target})
            else if e.source in inherited then o.Keys + {e.target}
            else o.Keys
  {}

  ghost predicate TurnOverwrites<V>(o: map<string, V>, inherited: map<string, V>, entries: Mapping, i: nat)
    requires i < |entries|
  {
    Overwrites(RenamedBy(o, inherited, entries, i), entries[i])
  }

  /** Whether one of the first `n` entries, at its turn, overwrites a key. */
  ghost predicate SomeOverwrites<V>(o: map<string, V>, inherited: map<string, V>, entries: Mapping, n: nat)
    requires n <= |entries|
  {
    exists i :: 0 <= i < n && TurnOverwrites(o, inherited, entries, i)
  }

  /** How many of the first `n` entries, at their turn, overwrite a key. */
  ghost function Overwritten<V>(o: map<string, V>, inherited: map<string, V>, entries: Mapping, n: nat): nat
    requires n <= |entries|
  {
    if n == 0 then 0
    else Overwritten(o, inherited, entries, n - 1) + if TurnOverwrites(o, inherited, entries, n - 1) then 1 else 0
  }

  /** How many, at their turn, add an inherited value. */
  ghost function Added<V>(o: map<string, V>, inherited: map<string, V>, entries: Mapping, n: nat): nat
    requires n <= |entries|
  {
    if n == 0 then 0
    else
      var before := RenamedBy(o, inherited, entries, n - 1);
      Added(o, inherited, entries, n - 1) + if Adds(before, inherited, entries[n - 1]) then 1 else 0
  }

  /**
   * What comes out is what goes in, less a key for each entry that overwrites
   * one at its turn, and a key more for each that adds an inherited value.
   */
  lemma {:induction false} CountOfKeys<V>(o: map<string, V>, inherited: map<string, V>, entries: Mapping, n: nat)
    requires n <= |entries|
    ensures |RenamedBy(o, inherited, entries, n)| ==
            |o| + Added(o, inherited, entries, n) - Overwritten(o, inherited, entries, n)
    decreases n
  {
    if n > 0 {
      CountOfKeys(o, inherited, entries, n - 1);
      RenamedCount(RenamedBy(o, inherited, entries, n - 1), inherited, entries[n - 1]);
    }
  }

  lemma {:induction false} NoneOverwritten<V>(o: map<string, V>, inherited: map<string, V>, entries: Mapping, n: nat)
    requires n <= |entries|
    ensures Overwritten(o, inherited, entries, n) == 0 <==> !SomeOverwrites(o, inherited, entries, n)
    decreases n
  {
    if n > 0 {
      NoneOverwritten(o, inherited, entries, n - 1);
    }
  }

  lemma {:induction false} NoneAdded<V>(o: map<string, V>, inherited: map<string, V>, entries: Mapping, n: nat)
    requires n <= |entries| && forall i :: 0 <= i < |entries| ==> entries[i].source !in inherited
    ensures Added(o, inherited, entries, n) == 0
    decreases n
  {
    if n > 0 {
      NoneAdded(o, inherited, entries, n - 1);
    }
  }

  /**
   * As many keys come out as go in exactly when as many entries overwrite a
   * key as add one: with no inherited source, when none overwrites one.
   */
  lemma CountKeptExactlyWhen<V>(o: map<string, V>, inherited: map<string, V>, entries: Mapping)
    ensures var n := |entries|;
            && (|RenamedBy(o, inherited, entries, n)| == |o| <==>
               Overwritten(o, inherited, entries, n) == Added(o, inherited, entries, n))
            && ((forall i :: 0 <= i < n ==> entries[i].source !in inherited) ==>
                (|RenamedBy(o, inherited, entries, n)| == |o| <==> !SomeOverwrites(o, inherited, entries, n)))
  {
    CountOfKeys(o, inherited, entries, |entries|);
    NoneOverwritten(o, inherited, entries, |entries|);
    if forall i :: 0 <= i < |entries| ==> entries[i].source !in inherited {
      NoneAdded(o, inherited, entries, |entries|);
    }
  }

  // ---- exactly when renaming in order is renaming at once ----

  /** Where the first `n` entries, one after the other, carry the key `k`. */
  function Landing(entries: Mapping, n: nat, k: string): string
    requires n <= |entries|
  {
    if n == 0 then k
    else
      var name := Landing(entries, n - 1, k);
      if entries[n - 1].source == name then entries[n - 1].target else name
  }

  /** An entry with an inherited source finds a key of the object by that name when its turn comes. */
  ghost predicate ReadsOwn<V>(o: map<string, V>, inherited: map<string, V>, entries: Mapping) {
    forall i :: 0 <= i < |entries| && entries[i].source in inherited ==>
      exists k :: k in o && Landing(entries, i, k) == entries[i].source
  }

  /** The key `x` of `r` holds what some key that landed there held. */
  ghost predicate IsHeld<V>(o: map<string, V>, r: map<string, V>, entries: Mapping, n: nat, x: string)
    requires n <= |entries| && x in r
  {
    exists k :: k in o && Landing(entries, n, k) == x && r[x] == o[k]
  }

  ghost predicate AllLanded<V>(o: map<string, V>, r: map<string, V>, entries: Mapping, n: nat)
    requires n <= |entries|
  {
    && (forall k :: k in o ==> Landing(entries, n, k) in r)
    && (forall x {:trigger IsHeld(o, r, entries, n, x)} :: x in r ==> IsHeld(o, r, entries, n, x))
  }

  /** Every key is where it landed, if perhaps under another that landed there later. */
  lemma {:induction false} KeysLand<V>(o: map<string, V>, inherited: map<string, V>, entries: Mapping, n: nat)
    requires n <= |entries| && ReadsOwn(o, inherited, entries)
    ensures AllLanded(o, RenamedBy(o, inherited, entries, n), entries, n)
    decreases n
  {
    var r := RenamedBy(o, inherited, entries, n);
    if n == 0 {
      forall x | x in r
        ensures IsHeld(o, r, entries, n, x)
      {
        assert Landing(entries, n, x) == x;
      }
    } else {
      KeysLand(o, inherited, entries, n - 1);
      var before, e := RenamedBy(o, inherited, entries, n - 1), entries[n - 1];
      if e.source in inherited {
        var k :| k in o && Landing(entries, n - 1, k) == e.source;
        assert e.source in before;
      }
      KeysLandOneMore(o, before, r, entries, n);
    }
  }

  lemma KeysLandOneMore<V>(o: map<string, V>, before: map<string, V>, r: map<string, V>, entries: Mapping, n: nat)
    requires 0 < n <= |entries| && AllLanded(o, before, entries, n - 1)
    requires var e := entries[n - 1];
      r == if e.source !in before then before
           else if e.source != e.target then before[e.target := before[e.source]] - {e.source}
           else before[e.target := before[e.source]]
    ensures AllLanded(o, r, entries, n)
  {
    var e := entries[n - 1];
    forall k | k in o
      ensures Landing(entries, n, k) in r
    {
      assert Landing(entries, n - 1, k) in before;
    }
    forall x | x in r
      ensures IsHeld(o, r, entries, n, x)
    {
      var y := if e.source in before && x == e.target then e.source else x;
      assert IsHeld(o, before, entries, n - 1, y);
      var k :| k in o && Landing(entries, n - 1, k) == y && before[y] == o[k];
      assert Landing(entries, n, k) == x;
    }
  }

  /** Each key lands under its new name, and no two land together. */
  ghost predicate LandsApart<V>(o: map<string, V>, entries: Mapping) {
    && (forall k :: k in o ==> Landing(entries, |entries|, k) == NewName(entries, |entries|, k))
    && (forall a, b :: a in o && b in o && a != b ==> Landing(entries, |entries|, a) != Landing(entries, |entries|, b))
  }

  /**
   * For any mapping and any object with different values, renaming in order
   * is renaming at once exactly when each key lands under its new name and no
   * two land together. Without clashes they do (`InOrderIsAtOnce`).
   */
  lemma AtOnceExactlyWhen<V>(o: map<string, V>, inherited: map<string, V>, entries: Mapping)
    requires ReadsOwn(o, inherited, entries)
    requires forall a, b :: a in o && b in o && o[a] == o[b] ==> a == b
    ensures IsRenaming(o, RenamedBy(o, inherited, entries, |entries|), entries, |entries|) <==> LandsApart(o, entries)
  {
    var n, r := |entries|, RenamedBy(o, inherited, entries, |entries|);
    KeysLand(o, inherited, entries, n);
    if LandsApart(o, entries) {
      LandedApart(o, r, entries);
    }
    if IsRenaming(o, r, entries, n) {
      forall k | k in o
        ensures Landing(entries, n, k) == NewName(entries, n, k)
      {
        assert Carries(o, r, entries, n, k);
        assert IsHeld(o, r, entries, n, NewName(entries, n, k));
      }
      forall a, b | a in o && b in o && a != b
        ensures Landing(entries, n, a) != Landing(entries, n, b)
      {
        assert Carries(o, r, entries, n, a) && Carries(o, r, entries, n, b);
      }
    }
  }

  /** Apart, the values need not differ. */
  lemma LandedApart<V>(o: map<string, V>, r: map<string, V>, entries: Mapping)
    requires LandsApart(o, entries) && AllLanded(o, r, entries, |entries|)
    ensures IsRenaming(o, r, entries, |entries|)
  {
    var n := |entries|;
    forall k | k in o
      ensures Carries(o, r, entries, n, k)
    {
      assert IsHeld(o, r, entries, n, Landing(entries, n, k));
    }
    forall x | x in r
      ensures HasOrigin(o, entries, n, x)
    {
      assert IsHeld(o, r, entries, n, x);
    }
  }

  /** Two keys cannot be swapped: the second value is overwritten before it is read. */
  lemma SwapLosesAValue<V>(a: string, b: string, x: V, y: V)
    requires a != b
    ensures RenamedBy(map[a := x, b := y], map[], [Entry(a, b), Entry(b, a)], 2) == map[a := x]
  {
    var entries: Mapping := [Entry(a, b), Entry(b, a)];
    var o: map<string, V> := map[a := x, b := y];
    assert RenamedBy(o, map[], entries, 0) == o;
    assert RenamedBy(o, map[], entries, 1) == map[b := x];
  }

  /** A chain of entries carries a key all the way, where renaming at once would take one step. */
  lemma ChainGoesAllTheWay<V>(a: string, b: string, c: string, x: V)
    requires a != b && b != c && a != c
    ensures var entries := [Entry(a, b), Entry(b, c)];
            && RenamedBy(map[a := x], map[], entries, 2) == map[c := x]
            && NewName(entries, 2, a) == b
  {
    var entries: Mapping := [Entry(a, b), Entry(b, c)];
    assert RenamedBy(map[a := x], map[], entries, 0) == map[a := x];
    assert RenamedBy(map[a := x], map[], entries, 1) == map[b := x];
    assert NewName(entries, 1, a) == b;
  }
}
