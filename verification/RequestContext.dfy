/** Request scopes: a stack of stores, each opened on what the one below it holds. */
module RequestContext {
  import opened Options

  /** A field given as undefined is not the same as one not given. */
  datatype FieldValue = Undefined | Null | Text(s: string)

  type Fields = map<string, FieldValue>

  const REQUEST_ID := "requestId"

  /** `fields.requestId`, or nothing if it is undefined, null or not given. */
  function NamedId(fields: Fields): Option<string> {
    if REQUEST_ID in fields && fields[REQUEST_ID].Text? then Some(fields[REQUEST_ID].s) else None
  }

  /** `fields.requestId ?? parent?.requestId ?? newRequestId()`. */
  function OpenedId(parent: Option<Fields>, fields: Fields, minted: string): string {
    if NamedId(fields).Some? then NamedId(fields).value
    else if parent.Some? && NamedId(parent.value).Some? then NamedId(parent.value).value
    else minted
  }

  /** The store of a new scope: the enclosing fields, overridden by every given one, undefined or not. */
  function Opened(parent: Option<Fields>, fields: Fields, minted: string): Fields {
    ((if parent.Some? then parent.value else map[]) + fields)[REQUEST_ID := Text(OpenedId(parent, fields, minted))]
  }

  /** A store updated in place: given fields that are undefined change nothing. */
  function Updated(store: Fields, fields: Fields): Fields {
    store + Defined(fields)
  }

  function Defined(fields: Fields): Fields {
    map k | k in fields && fields[k] != Undefined :: fields[k]
  }

  function Part(fields: Fields, keys: set<string>): Fields {
    map k | k in keys && k in fields :: fields[k]
  }

  lemma OneMoreKey(store: Fields, fields: Fields, keys: set<string>, k: string)
    requires k in fields && k !in keys
    ensures Updated(store, Part(fields, keys + {k})) ==
      var before := Updated(store, Part(fields, keys));
      if fields[k] == Undefined then before else before[k := fields[k]]
  {
    var given := Part(fields, keys);
    assert Part(fields, keys + {k}) == given[k := fields[k]];
    UpdatedByOneMore(store, given, k, fields[k]);
  }

  lemma UpdatedByOneMore(store: Fields, given: Fields, k: string, v: FieldValue)
    requires k !in given
    ensures Updated(store, given[k := v]) ==
      if v == Undefined then Updated(store, given) else Updated(store, given)[k := v]
  {
    assert Defined(given[k := v]) == if v == Undefined then Defined(given) else Defined(given)[k := v];
    assert store + Defined(given)[k := v] == (store + Defined(given))[k := v];
  }

  function Top(stack: seq<Fields>): Option<Fields> {
    if stack == [] then None else Some(stack[|stack| - 1])
  }

  class Store {
    var fields: Fields

    constructor (fields: Fields)
      ensures this.fields == fields
    {
      this.fields := fields;
    }

    method Update(given: Fields)
      modifies this
      ensures fields == Updated(old(fields), given)
    {
      var rest := given.Keys;
      while rest != {}
        invariant rest <= given.Keys
        invariant fields == Updated(old(fields), Part(given, given.Keys - rest))
      {
        var k :| k in rest;
        OneMoreKey(old(fields), given, given.Keys - rest, k);
        assert given.Keys - (rest - {k}) == given.Keys - rest + {k};
        if given[k] != Undefined {
          fields := fields[k := given[k]];
        }
        rest := rest - {k};
      }
      assert Part(given, given.Keys - rest) == given;
    }
  }

  // ---- what code running in scopes sees ----

  /** What happens in a scope: updates, and scopes opened and left again. */
  datatype Action = Update(fields: Fields) | Scope(fields: Fields, minted: string, body: seq<Action>)

  /** The stack after one action. */
  function Act(stack: seq<Fields>, a: Action): seq<Fields>
    decreases a, 1, 0
  {
    match a
    case Update(fields) =>
      if stack == [] then stack else stack[..|stack| - 1] + [Updated(stack[|stack| - 1], fields)]
    case Scope(fields, minted, body) =>
      var inner := ActAll(stack + [Opened(Top(stack), fields, minted)], a, |body|);
      if inner == [] then [] else inner[..|inner| - 1]
  }

  /** The stack after the first `n` actions of a scope's body. */
  function ActAll(stack: seq<Fields>, scope: Action, n: nat): seq<Fields>
    requires scope.Scope? && n <= |scope.body|
    decreases scope, 0, n
  {
    if n == 0 then stack else Act(ActAll(stack, scope, n - 1), scope.body[n - 1])
  }

  /** Whatever runs inside a scope changes the top store only; the stores below are as they were. */
  lemma {:induction false} OuterStoresStay(stack: seq<Fields>, a: Action)
    ensures |Act(stack, a)| == |stack|
    ensures stack != [] ==> Act(stack, a)[..|stack| - 1] == stack[..|stack| - 1]
    decreases a, 1, 0
  {
    match a
    case Update(fields) =>
    case Scope(fields, minted, body) =>
      BodyKeepsOuter(stack + [Opened(Top(stack), fields, minted)], a, |body|);
  }

  lemma {:induction false} BodyKeepsOuter(stack: seq<Fields>, scope: Action, n: nat)
    requires scope.Scope? && n <= |scope.body|
    ensures |ActAll(stack, scope, n)| == |stack|
    ensures stack != [] ==> ActAll(stack, scope, n)[..|stack| - 1] == stack[..|stack| - 1]
    decreases scope, 0, n
  {
    if n > 0 {
      BodyKeepsOuter(stack, scope, n - 1);
      OuterStoresStay(ActAll(stack, scope, n - 1), scope.body[n - 1]);
    }
  }

  ghost predicate HasId(fields: Fields, id: string) {
    "requestId" in fields && fields["requestId"] == Text(id)
  }

  /**
   * A scope opens with the request id it is given, any text, the empty one too;
   * else with that of the enclosing store, else with the minted one.
   */
  lemma OpenedIdIs(parent: Option<Fields>, fields: Fields, minted: string, id: string)
    ensures HasId(Opened(parent, fields, minted), id) <==>
            || HasId(fields, id)
            || ((forall other :: !HasId(fields, other)) &&
                if parent.Some? && exists other :: HasId(parent.value, other) then HasId(parent.value, id)
                else id == minted)
  {
    var store := Opened(parent, fields, minted);
    assert store[REQUEST_ID] == Text(OpenedId(parent, fields, minted));
    if NamedId(fields).Some? {
      assert HasId(fields, NamedId(fields).value);
    }
    if parent.Some? && NamedId(parent.value).Some? {
      assert HasId(parent.value, NamedId(parent.value).value);
    }
  }

  /** Leaving a scope restores the stack, whatever ran in it. */
  lemma ScopeRestores(stack: seq<Fields>, scope: Action)
    requires scope.Scope?
    ensures Act(stack, scope) == stack
  {
    var inner := stack + [Opened(Top(stack), scope.fields, scope.minted)];
    BodyKeepsOuter(inner, scope, |scope.body|);
    assert inner[..|inner| - 1] == stack;
  }

  /** The stores of the open scopes, innermost last. */
  class Context {
    var stores: seq<Store>

    ghost predicate Valid()
      reads this
    {
      forall i, j :: 0 <= i < j < |stores| ==> stores[i] != stores[j]
    }

    ghost function Stack(): (r: seq<Fields>)
      reads this, stores
      ensures |r| == |stores|
    {
      seq(|stores|, i requires 0 <= i < |stores| reads this, stores => stores[i].fields)
    }

    constructor ()
      ensures Valid() && Stack() == []
    {
      stores := [];
    }

    /** A new store on the enclosing one. */
    method Open(fields: Fields, minted: string)
      requires Valid()
      modifies this
      ensures Valid() && Stack() == old(Stack()) + [Opened(Top(old(Stack())), fields, minted)]
      ensures |stores| == |old(stores)| + 1 && stores[..|old(stores)|] == old(stores) && fresh(stores[|old(stores)|])
    {
      var parent := if |stores| == 0 then None else Some(stores[|stores| - 1].fields);
      var merged := (if parent.Some? then parent.value else map[]) + fields;
      var store := new Store(merged[REQUEST_ID := Text(OpenedId(parent, fields, minted))]);
      stores := stores + [store];
    }

    method Leave()
      requires Valid() && stores != []
      modifies this
      ensures Valid() && stores == old(stores)[..|old(stores)| - 1]
      ensures Stack() == old(Stack())[..|old(stores)| - 1]
    {
      stores := stores[..|stores| - 1];
    }

    /** Open a store, run the scope's body in it, and leave. */
    method RunWithRequestContext(scope: Action)
      requires Valid() && scope.Scope?
      modifies this, stores
      ensures Valid() && stores == old(stores) && Stack() == old(Stack())
      decreases scope, 0
    {
      ghost var outer := Stack();
      Open(scope.fields, scope.minted);
      ghost var within, inner := stores, Stack();
      for i := 0 to |scope.body|
        invariant Valid() && stores == within
        invariant Stack() == ActAll(inner, scope, i)
      {
        Perform(scope.body[i]);
      }
      BodyKeepsOuter(inner, scope, |scope.body|);
      Leave();
    }

    method Perform(a: Action)
      requires Valid()
      modifies this, stores
      ensures Valid() && stores == old(stores) && Stack() == Act(old(Stack()), a)
      decreases a, 1
    {
      match a
      case Update(fields) =>
        UpdateRequestContext(fields);
      case Scope(_, _, _) =>
        ScopeRestores(Stack(), a);
        RunWithRequestContext(a);
    }

    /** Nothing outside a scope; in one, the innermost store alone is updated. */
    method UpdateRequestContext(fields: Fields)
      requires Valid()
      modifies stores
      ensures Valid() && stores == old(stores) && Stack() == Act(old(Stack()), Update(fields))
    {
      if |stores| == 0 {
        return;
      }
      stores[|stores| - 1].Update(fields);
    }

    method GetRequestId() returns (id: Option<string>)
      requires Valid()
      ensures id == (if Stack() == [] then None else NamedId(Stack()[|Stack()| - 1]))
    {
      if |stores| == 0 {
        return None;
      }
      id := NamedId(stores[|stores| - 1].fields);
    }
  }

  /** A scope being opened, and what is then added to its store before the next one opens. */
  datatype Opening = Opening(fields: Fields, minted: string, updates: seq<Fields>)

  function UpdatedAll(store: Fields, updates: seq<Fields>): Fields {
    if updates == [] then store else Updated(UpdatedAll(store, updates[..|updates| - 1]), updates[|updates| - 1])
  }

  function OpenAll(openings: seq<Opening>): seq<Fields> {
    if openings == [] then []
    else
      var stack, o := OpenAll(openings[..|openings| - 1]), openings[|openings| - 1];
      stack + [UpdatedAll(Opened(Top(stack), o.fields, o.minted), o.updates)]
  }

  predicate KeepsId(fields: Fields) {
    REQUEST_ID in fields ==> fields[REQUEST_ID] == Undefined
  }

  /** The id the innermost of the scopes that named one gave, else the one minted for the outermost. */
  function NearestId(openings: seq<Opening>): string
    requires openings != []
  {
    var o := openings[|openings| - 1];
    if NamedId(o.fields).Some? then NamedId(o.fields).value
    else if |openings| == 1 then o.minted
    else NearestId(openings[..|openings| - 1])
  }

  /** In nested scopes the request id is that of the nearest scope that named one; only the root mints. */
  lemma {:induction false} NestedIdIsNearest(openings: seq<Opening>)
    requires openings != []
    requires forall o, u :: o in openings && u in o.updates ==> KeepsId(u)
    ensures Top(OpenAll(openings)).Some?
    ensures NamedId(Top(OpenAll(openings)).value) == Some(NearestId(openings))
  {
    var before, o := openings[..|openings| - 1], openings[|openings| - 1];
    if before != [] {
      NestedIdIsNearest(before);
    }
    UpdatesKeepId(Opened(Top(OpenAll(before)), o.fields, o.minted), o.updates);
  }

  lemma {:induction false} UpdatesKeepId(store: Fields, updates: seq<Fields>)
    requires forall u :: u in updates ==> KeepsId(u)
    ensures NamedId(UpdatedAll(store, updates)) == NamedId(store)
  {
    if updates != [] {
      UpdatesKeepId(store, updates[..|updates| - 1]);
      assert KeepsId(updates[|updates| - 1]);
    }
  }

  // ---- fields, and places in a program ----

  function Lookup(store: Fields, k: string): Option<FieldValue> {
    if k in store then Some(store[k]) else None
  }

  /** The last update that gave `k` a value, undefined being none. */
  function LastGiven(updates: seq<Fields>, k: string): Option<FieldValue> {
    if updates == [] then None
    else
      var u := updates[|updates| - 1];
      if k in u && u[k] != Undefined then Some(u[k]) else LastGiven(updates[..|updates| - 1], k)
  }

  /**
   * What the innermost of the scopes that gave `k` last gave it. A scope that
   * opens with an undefined field gives it; an update with one does not.
   */
  function NearestField(openings: seq<Opening>, k: string): Option<FieldValue> {
    if openings == [] then None
    else
      var o := openings[|openings| - 1];
      if LastGiven(o.updates, k).Some? then LastGiven(o.updates, k)
      else if k in o.fields then Some(o.fields[k])
      else NearestField(openings[..|openings| - 1], k)
  }

  lemma {:induction false} FieldIsNearest(openings: seq<Opening>, k: string)
    requires openings != [] && k != REQUEST_ID
    ensures Top(OpenAll(openings)).Some? && Lookup(Top(OpenAll(openings)).value, k) == NearestField(openings, k)
  {
    var before, o := openings[..|openings| - 1], openings[|openings| - 1];
    if before != [] {
      FieldIsNearest(before, k);
    }
    FieldAfterUpdates(Opened(Top(OpenAll(before)), o.fields, o.minted), o.updates, k);
  }

  lemma {:induction false} FieldAfterUpdates(store: Fields, updates: seq<Fields>, k: string)
    ensures Lookup(UpdatedAll(store, updates), k) ==
            if LastGiven(updates, k).Some? then LastGiven(updates, k) else Lookup(store, k)
  {
    if updates != [] {
      FieldAfterUpdates(store, updates[..|updates| - 1], k);
    }
  }

  /**
   * The request id through openings and updates: the last one an update gave,
   * which null takes away; else the one the scope opened with, its own, or the
   * one around it, or a minted one where there is none.
   */
  function IdAt(openings: seq<Opening>): Option<string> {
    if openings == [] then None
    else
      var o, around := openings[|openings| - 1], IdAt(openings[..|openings| - 1]);
      match LastGiven(o.updates, REQUEST_ID)
      case Some(v) => if v.Text? then Some(v.s) else None
      case None =>
        if NamedId(o.fields).Some? then NamedId(o.fields)
        else if around.Some? then around
        else Some(o.minted)
  }

  lemma {:induction false} IdIsAt(openings: seq<Opening>)
    requires openings != []
    ensures Top(OpenAll(openings)).Some? && NamedId(Top(OpenAll(openings)).value) == IdAt(openings)
  {
    var before, o := openings[..|openings| - 1], openings[|openings| - 1];
    if before != [] {
      IdIsAt(before);
    }
    var store := Opened(Top(OpenAll(before)), o.fields, o.minted);
    FieldAfterUpdates(store, o.updates, REQUEST_ID);
    GivenIsDefined(o.updates, REQUEST_ID);
  }

  lemma {:induction false} GivenIsDefined(updates: seq<Fields>, k: string)
    ensures LastGiven(updates, k) != Some(Undefined)
  {
    if updates != [] {
      GivenIsDefined(updates[..|updates| - 1], k);
    }
  }

  /** A place in a nest of scopes: how many actions of each enclosing scope's body are done, outermost first. */
  predicate IsPlace(scope: Action, place: seq<nat>)
    decreases |place|
  {
    && scope.Scope? && place != [] && place[0] <= |scope.body|
    && (|place| > 1 ==> place[0] < |scope.body| && IsPlace(scope.body[place[0]], place[1..]))
  }

  /** The stack there. */
  function StackAt(stack: seq<Fields>, scope: Action, place: seq<nat>): seq<Fields>
    requires IsPlace(scope, place)
    decreases |place|
  {
    var here := ActAll(stack + [Opened(Top(stack), scope.fields, scope.minted)], scope, place[0]);
    if |place| == 1 then here else StackAt(here, scope.body[place[0]], place[1..])
  }

  /** The updates among the first `n` actions of a scope, not those of the scopes inside it. */
  function UpdatesIn(scope: Action, n: nat): seq<Fields>
    requires scope.Scope? && n <= |scope.body|
  {
    if n == 0 then []
    else UpdatesIn(scope, n - 1) + (if scope.body[n - 1].Update? then [scope.body[n - 1].fields] else [])
  }

  /** The scopes around a place, with their own updates so far. */
  function OpeningsAt(scope: Action, place: seq<nat>): seq<Opening>
    requires IsPlace(scope, place)
    decreases |place|
  {
    [Opening(scope.fields, scope.minted, UpdatesIn(scope, place[0]))]
    + (if |place| == 1 then [] else OpeningsAt(scope.body[place[0]], place[1..]))
  }

  /** Finished scopes leave no trace in the one they ran in: only its own updates do. */
  lemma {:induction false} OnlyOwnUpdates(stack: seq<Fields>, store: Fields, scope: Action, n: nat)
    requires scope.Scope? && n <= |scope.body|
    ensures ActAll(stack + [store], scope, n) == stack + [UpdatedAll(store, UpdatesIn(scope, n))]
  {
    if n > 0 {
      OnlyOwnUpdates(stack, store, scope, n - 1);
      var before, a := ActAll(stack + [store], scope, n - 1), scope.body[n - 1];
      if a.Scope? {
        ScopeRestores(before, a);
        assert UpdatesIn(scope, n) == UpdatesIn(scope, n - 1);
      } else {
        var updates := UpdatesIn(scope, n);
        assert updates[..|updates| - 1] == UpdatesIn(scope, n - 1);
        assert before[..|before| - 1] == stack;
      }
    }
  }

  /** Anywhere in a nest of scopes the stack is that of the scopes around the place. */
  lemma {:induction false} StackIsOpenings(around: seq<Opening>, scope: Action, place: seq<nat>)
    requires IsPlace(scope, place)
    ensures StackAt(OpenAll(around), scope, place) == OpenAll(around + OpeningsAt(scope, place))
    decreases |place|
  {
    var o := Opening(scope.fields, scope.minted, UpdatesIn(scope, place[0]));
    OneScopeOpened(around, scope, place[0]);
    if |place| == 1 {
      assert OpeningsAt(scope, place) == [o];
    } else {
      var child, rest := scope.body[place[0]], place[1..];
      var inner := OpeningsAt(child, rest);
      StackIsOpenings(around + [o], child, rest);
      assert StackAt(OpenAll(around), scope, place) == OpenAll(around + [o] + inner);
      Regroup(around, [o], inner);
      assert OpeningsAt(scope, place) == [o] + inner;
    }
  }

  lemma Regroup(a: seq<Opening>, b: seq<Opening>, c: seq<Opening>)
    ensures a + b + c == a + (b + c)
  {}

  lemma OneScopeOpened(around: seq<Opening>, scope: Action, n: nat)
    requires scope.Scope? && n <= |scope.body|
    ensures var stack := OpenAll(around);
            OpenAll(around + [Opening(scope.fields, scope.minted, UpdatesIn(scope, n))])
            == ActAll(stack + [Opened(Top(stack), scope.fields, scope.minted)], scope, n)
  {
    var stack, o := OpenAll(around), Opening(scope.fields, scope.minted, UpdatesIn(scope, n));
    OnlyOwnUpdates(stack, Opened(Top(stack), scope.fields, scope.minted), scope, n);
    assert (around + [o])[..|around + [o]| - 1] == around;
  }

  /**
   * Anywhere in a nest of scopes, whatever has run before: the request id is
   * the one the scopes around opened with and were updated to, which is that
   * of the nearest one that named one, else the one minted for the outermost,
   * if no update names one; and every other field is what the nearest scope
   * around that gave it last gave it.
   */
  lemma ReadsNearest(scope: Action, place: seq<nat>, k: string)
    requires IsPlace(scope, place)
    ensures var stack, around := StackAt([], scope, place), OpeningsAt(scope, place);
            && Top(stack).Some?
            && NamedId(Top(stack).value) == IdAt(around)
            && ((forall o, u :: o in around && u in o.updates ==> KeepsId(u)) ==>
               IdAt(around) == Some(NearestId(around)))
            && (k != REQUEST_ID ==> Lookup(Top(stack).value, k) == NearestField(around, k))
  {
    var around := OpeningsAt(scope, place);
    StackIsOpenings([], scope, place);
    assert [] + around == around;
    IdIsAt(around);
    if forall o, u :: o in around && u in o.updates ==> KeepsId(u) {
      NestedIdIsNearest(around);
    }
    if k != REQUEST_ID {
      FieldIsNearest(around, k);
    }
  }
}
