/** `strategyModelViolations`: no strategy names a concrete model. */
module StrategyModels {
  import opened Ascii
  import opened JsonValues
  import opened Options

  const MODEL_KEYS: seq<string> := [
    "model", "modelid", "modelname", "vendormodelid", "providerid", "provider", "pinnedmodel", "deployment"
  ]

  const MODEL_FAMILIES: seq<string> := [
    "gpt", "claude", "gemini", "llama", "qwen", "mistral", "deepseek", "kimi", "glm", "palmyra", "solar", "grok",
    "command",
    "phi", "nemotron", "jamba", "minimax", "doubao", "ernie", "hunyuan", "spark"
  ]

  predicate IsModelKey(key: string) {
    Lower(key) in MODEL_KEYS
  }

  predicate IsModelChar(c: char) {
    c == '-' || c == '.' || c == '_' || 'a' <= c <= 'z' || 'A' <= c <= 'Z' || '0' <= c <= '9'
  }

  predicate IsOfFamily(s: string, family: string) {
    |family| <= |s| && Lower(s[..|family|]) == family && forall i :: |family| <= i < |s| ==> IsModelChar(s[i])
  }

  /** A model family's name, then letters, digits, dots, hyphens and underscores, in any case. */
  predicate IsModelShaped(s: string) {
    exists i :: 0 <= i < |MODEL_FAMILIES| && IsOfFamily(s, MODEL_FAMILIES[i])
  }

  predicate IsSpace(c: char) {
    || '\t' <= c <= '\r' || c == ' ' || c == '\U{00A0}' || c == '\U{1680}' || '\U{2000}' <= c <= '\U{200A}'
    || c == '\U{2028}' || c == '\U{2029}' || c == '\U{202F}' || c == '\U{205F}' || c == '\U{3000}' || c == '\U{FEFF}'
  }

  function Trim(s: string): string {
    if s != "" && IsSpace(s[0]) then Trim(s[1..])
    else if s != "" && IsSpace(s[|s| - 1]) then Trim(s[..|s| - 1])
    else s
  }

  /** The child numbers from the shape down to a value or a property. */
  type Place = seq<nat>

  datatype Problem =
    | NamesModel(place: Place, key: string)        // a key names a model or provider
    | LooksLikeModel(place: Place, text: string)   // a text looks like a model id
    | SlotLooksLikeModel(slot: nat, text: string)  // a role slot looks like a model id

  /** What the walk finds in `v`, itself at `place`. */
  function Violations(v: Json, place: Place): seq<Problem>
    decreases v, 1, 0
  {
    match v
    case Scalar(_) => []
    case Str(s) => if IsModelShaped(Trim(s)) then [LooksLikeModel(place, s)] else []
    case Arr(items) => ItemViolations(v, |items|, place)
    case Obj(props) => PropViolations(v, |props|, place)
  }

  function ItemViolations(v: Json, n: nat, place: Place): seq<Problem>
    requires v.Arr? && n <= |v.items|
    decreases v, 0, n
  {
    if n == 0 then [] else ItemViolations(v, n - 1, place) + Violations(v.items[n - 1], place + [n - 1])
  }

  function PropViolations(v: Json, n: nat, place: Place): seq<Problem>
    requires v.Obj? && n <= |v.props|
    decreases v, 0, n
  {
    if n == 0 then []
    else
      var p := v.props[n - 1];
      PropViolations(v, n - 1, place)
      + (if IsModelKey(p.key) then [NamesModel(place + [n - 1], p.key)] else Violations(p.value, place + [n - 1]))
  }

  function SlotProblems(slots: seq<string>, n: nat): seq<Problem>
    requires n <= |slots|
  {
    if n == 0 then []
    else
      var slot := slots[n - 1];
      SlotProblems(slots, n - 1) + (if IsModelShaped(slot) then [SlotLooksLikeModel(n - 1, slot)] else [])
  }

  datatype Strategy = Strategy(shape: Json, roleSlots: Option<seq<string>>)

  function Problems(strategy: Strategy): seq<Problem> {
    Violations(strategy.shape, [])
    + (if strategy.roleSlots.Some? then SlotProblems(strategy.roleSlots.value, |strategy.roleSlots.value|) else [])
  }

  /** The list the walk pushes onto. */
  class Report {
    var problems: seq<Problem>

    constructor ()
      ensures problems == []
    {
      problems := [];
    }

    method Walk(v: Json, place: Place)
      modifies this
      ensures problems == old(problems) + Violations(v, place)
      decreases v
    {
      ghost var before := problems;
      match v
      case Scalar(_) =>
      case Str(s) =>
        if IsModelShaped(Trim(s)) {
          problems := problems + [LooksLikeModel(place, s)];
        }
      case Arr(items) =>
        for i := 0 to |items|
          invariant problems == before + ItemViolations(v, i, place)
        {
          Walk(items[i], place + [i]);
        }
      case Obj(props) =>
        for i := 0 to |props|
          invariant problems == before + PropViolations(v, i, place)
        {
          if IsModelKey(props[i].key) {
            problems := problems + [NamesModel(place + [i], props[i].key)];
            continue;
          }
          Walk(props[i].value, place + [i]);
        }
    }
  }

  method StrategyModelViolations(strategy: Strategy) returns (problems: seq<Problem>)
    ensures problems == Problems(strategy)
  {
    var report := new Report();
    report.Walk(strategy.shape, []);
    problems := report.problems;
    if strategy.roleSlots.Some? {
      var slots := strategy.roleSlots.value;
      for i := 0 to |slots|
        invariant problems == Violations(strategy.shape, []) + SlotProblems(slots, i)
      {
        if IsModelShaped(slots[i]) {
          problems := problems + [SlotLooksLikeModel(i, slots[i])];
        }
      }
    }
  }

  // ---- what counts as a violation, place by place ----

  function Children(v: Json): nat {
    match v
    case Arr(items) => |items|
    case Obj(props) => |props|
    case _ => 0
  }

  function Child(v: Json, i: nat): (c: Json)
    requires i < Children(v)
    ensures c < v
  {
    if v.Arr? then v.items[i] else v.props[i].value
  }

  function Sub(v: Json, place: Place): Option<Json>
    decreases |place|
  {
    if place == [] then Some(v)
    else if place[0] < Children(v) then Sub(Child(v, place[0]), place[1..])
    else None
  }

  predicate HasModelKeyAt(v: Json, i: nat) {
    v.Obj? && i < |v.props| && IsModelKey(v.props[i].key)
  }

  /** No key on the way names a model. */
  predicate IsExposed(v: Json, place: Place)
    decreases |place|
  {
    place == [] || (place[0] < Children(v) && !HasModelKeyAt(v, place[0]) && IsExposed(Child(v, place[0]), place[1..]))
  }

  predicate IsModelText(v: Json) {
    v.Str? && IsModelShaped(Trim(v.s))
  }

  /** The problem is a model-shaped text or a model key that no model key hides. */
  predicate IsProblemOf(v: Json, place: Place, p: Problem) {
    match p
    case LooksLikeModel(_, text) =>
      IsExposed(v, place) && Sub(v, place).Some? && Sub(v, place).value == Str(text) && IsModelShaped(Trim(text))
    case NamesModel(_, key) =>
      && place != [] && IsExposed(v, place[..|place| - 1])
      && var parent, i := Sub(v, place[..|place| - 1]), place[|place| - 1];
         parent.Some? && HasModelKeyAt(parent.value, i) && parent.value.props[i].key == key
    case SlotLooksLikeModel(_, _) => false
  }

  lemma ProblemOfChild(v: Json, place: Place, p: Problem)
    requires place != [] && place[0] < Children(v)
    ensures IsProblemOf(v, place, p) <==>
            if HasModelKeyAt(v, place[0]) then place == [place[0]] && p.NamesModel? && p.key == v.props[place[0]].key
            else IsProblemOf(Child(v, place[0]), place[1..], p)
  {
    if |place| > 1 {
      assert place[..|place| - 1][1..] == place[1..][..|place| - 2];
    } else {
      assert place[..|place| - 1] == [] && place == [place[0]];
    }
  }

  /** Where a problem of a value at `place` lies: on or below it. */
  predicate IsPlacedBelow(p: Problem, place: Place) {
    !p.SlotLooksLikeModel? && place <= p.place
  }

  lemma {:induction false} FoundExactly(v: Json, place: Place, p: Problem)
    ensures p in Violations(v, place) <==> IsPlacedBelow(p, place) && IsProblemOf(v, p.place[|place|..], p)
    decreases v, 1, 0
  {
    match v
    case Scalar(_) =>
      NoProblemInLeaf(v, place, p);
    case Str(s) =>
      NoProblemInLeaf(v, place, p);
    case Arr(items) =>
      FoundInItems(v, |items|, place, p);
      BelowInChild(v, place, p);
    case Obj(props) =>
      FoundInProps(v, |props|, place, p);
      BelowInChild(v, place, p);
  }

  lemma NoProblemInLeaf(v: Json, place: Place, p: Problem)
    requires v.Scalar? || v.Str?
    ensures IsPlacedBelow(p, place) && IsProblemOf(v, p.place[|place|..], p) <==>
            v.Str? && IsModelShaped(Trim(v.s)) && p == LooksLikeModel(place, v.s)
  {
    if IsPlacedBelow(p, place) && |p.place| == |place| {
      assert p.place == place;
    }
    if p == LooksLikeModel(place, if v.Str? then v.s else "") {
      assert place[|place|..] == [];
    }
    if IsPlacedBelow(p, place) && |p.place| > |place| {
      var rel := p.place[|place|..];
      if |rel| > 1 {
        assert rel[..|rel| - 1] != [];
      }
    }
  }

  /** The problem lies below child `i` of the value at `place`. */
  predicate IsBelowChild(p: Problem, place: Place, i: nat) {
    IsPlacedBelow(p, place) && |p.place| > |place| && p.place[|place|] == i
  }

  /** A composite value has no problem of its own. */
  lemma BelowInChild(v: Json, place: Place, p: Problem)
    requires v.Arr? || v.Obj?
    ensures IsPlacedBelow(p, place) && IsProblemOf(v, p.place[|place|..], p) <==>
            exists i: nat :: i < Children(v) && IsBelowChild(p, place, i) && IsProblemOf(v, p.place[|place|..], p)
  {
    if IsPlacedBelow(p, place) && IsProblemOf(v, p.place[|place|..], p) {
      var rel := p.place[|place|..];
      if |rel| > 1 {
        assert rel[..|rel| - 1][0] == rel[0];
      }
      assert IsBelowChild(p, place, rel[0]);
    }
  }

  lemma BelowChildIsBelow(p: Problem, place: Place, i: nat)
    ensures IsPlacedBelow(p, place + [i]) <==> IsBelowChild(p, place, i)
    ensures IsBelowChild(p, place, i) ==> p.place[|place|..][1..] == p.place[|place + [i]|..]
    ensures IsBelowChild(p, place, i) ==> p.place[|place|..] != [] && p.place[|place|..][0] == i
    ensures IsBelowChild(p, place, i) && p.place[|place|..] == [i] <==> !p.SlotLooksLikeModel? && p.place == place + [i]
  {
    if IsBelowChild(p, place, i) {
      assert p.place == p.place[..|place|] + p.place[|place|..];
      assert p.place == p.place[..|place|] + [i] + p.place[|place| + 1..];
      assert p.place[..|place|] == place;
    }
  }

  lemma {:induction false} FoundInItems(v: Json, n: nat, place: Place, p: Problem)
    requires v.Arr? && n <= |v.items|
    ensures p in ItemViolations(v, n, place) <==>
            exists i: nat :: i < n && IsBelowChild(p, place, i) && IsProblemOf(v, p.place[|place|..], p)
    decreases v, 0, n
  {
    if n > 0 {
      FoundInItems(v, n - 1, place, p);
      FoundExactly(v.items[n - 1], place + [n - 1], p);
      BelowChildIsBelow(p, place, n - 1);
      if IsBelowChild(p, place, n - 1) {
        ProblemOfChild(v, p.place[|place|..], p);
      }
    }
  }

  lemma {:induction false} FoundInProps(v: Json, n: nat, place: Place, p: Problem)
    requires v.Obj? && n <= |v.props|
    ensures p in PropViolations(v, n, place) <==>
            exists i: nat :: i < n && IsBelowChild(p, place, i) && IsProblemOf(v, p.place[|place|..], p)
    decreases v, 0, n
  {
    if n > 0 {
      FoundInProps(v, n - 1, place, p);
      FoundExactly(v.props[n - 1].value, place + [n - 1], p);
      BelowChildIsBelow(p, place, n - 1);
      if IsBelowChild(p, place, n - 1) {
        ProblemOfChild(v, p.place[|place|..], p);
      }
    }
  }

  // ---- in which order ----

  /** Traversal order: an ancestor first, then by child number. */
  predicate Earlier(a: Place, b: Place) {
    if a == [] then b != []
    else b != [] && (a[0] < b[0] || (a[0] == b[0] && Earlier(a[1..], b[1..])))
  }

  /** No place comes before itself, and of two different places one comes before the other. */
  lemma {:induction false} EarlierIsStrict(a: Place, b: Place)
    ensures !Earlier(a, a)
    ensures a != b ==> (Earlier(a, b) <==> !Earlier(b, a))
  {
    if a != [] && b != [] {
      EarlierIsStrict(a[1..], b[1..]);
      assert a == [a[0]] + a[1..] && b == [b[0]] + b[1..];
    } else if a != [] {
      EarlierIsStrict(a[1..], []);
    }
  }

  ghost predicate InTraversalOrder(ps: seq<Problem>, place: Place) {
    && (forall i :: 0 <= i < |ps| ==> IsPlacedBelow(ps[i], place))
    && (forall i, j :: 0 <= i < j < |ps| ==> Earlier(ps[i].place, ps[j].place))
  }

  lemma {:induction false} EarlierUnder(place: Place, a: Place, b: Place)
    requires place <= a && place <= b && |a| > |place| && |b| > |place| && a[|place|] < b[|place|]
    ensures Earlier(a, b)
  {
    if place != [] {
      EarlierUnder(place[1..], a[1..], b[1..]);
    }
  }

  /** Problems of earlier children come before those of a later one. */
  lemma OrderedAppend(place: Place, n: nat, before: seq<Problem>, more: seq<Problem>)
    requires InTraversalOrder(before, place) && InTraversalOrder(more, place + [n])
    requires forall i :: 0 <= i < |before| ==> |before[i].place| > |place| && before[i].place[|place|] < n
    ensures InTraversalOrder(before + more, place)
    ensures forall i :: 0 <= i < |before + more| ==>
            |(before + more)[i].place| > |place| && (before + more)[i].place[|place|] < n + 1
  {
    forall j | 0 <= j < |more|
      ensures IsBelowChild(more[j], place, n)
    {
      BelowChildIsBelow(more[j], place, n);
    }
    forall i, j | 0 <= i < |before| && 0 <= j < |more|
      ensures Earlier(before[i].place, more[j].place)
    {
      EarlierUnder(place, before[i].place, more[j].place);
    }
  }

  /** The problems come in traversal order, so each once. */
  lemma {:induction false} FoundInOrder(v: Json, place: Place)
    ensures InTraversalOrder(Violations(v, place), place)
    decreases v, 1, 0
  {
    match v
    case Scalar(_) =>
    case Str(_) =>
    case Arr(items) => ItemsInOrder(v, |items|, place);
    case Obj(props) => PropsInOrder(v, |props|, place);
  }

  lemma {:induction false} ItemsInOrder(v: Json, n: nat, place: Place)
    requires v.Arr? && n <= |v.items|
    ensures InTraversalOrder(ItemViolations(v, n, place), place)
    ensures forall i :: 0 <= i < |ItemViolations(v, n, place)| ==>
              |ItemViolations(v, n, place)[i].place| > |place| && ItemViolations(v, n, place)[i].place[|place|] < n
    decreases v, 0, n
  {
    if n > 0 {
      ItemsInOrder(v, n - 1, place);
      FoundInOrder(v.items[n - 1], place + [n - 1]);
      OrderedAppend(place, n - 1, ItemViolations(v, n - 1, place), Violations(v.items[n - 1], place + [n - 1]));
    }
  }

  lemma {:induction false} PropsInOrder(v: Json, n: nat, place: Place)
    requires v.Obj? && n <= |v.props|
    ensures InTraversalOrder(PropViolations(v, n, place), place)
    ensures forall i :: 0 <= i < |PropViolations(v, n, place)| ==>
              |PropViolations(v, n, place)[i].place| > |place| && PropViolations(v, n, place)[i].place[|place|] < n
    decreases v, 0, n
  {
    if n > 0 {
      PropsInOrder(v, n - 1, place);
      var p, here := v.props[n - 1], place + [n - 1];
      FoundInOrder(p.value, here);
      OrderedAppend(place, n - 1, PropViolations(v, n - 1, place),
                    if IsModelKey(p.key) then [NamesModel(here, p.key)] else Violations(p.value, here));
    }
  }

  // ---- clean strategies ----

  /** The value is a model-shaped text, or an object with a model key. */
  predicate IsOffending(v: Json) {
    IsModelText(v) || (v.Obj? && exists i :: 0 <= i < |v.props| && IsModelKey(v.props[i].key))
  }

  /** No value at any depth offends. */
  ghost predicate IsClean(v: Json) {
    forall place :: Sub(v, place).Some? ==> !IsOffending(Sub(v, place).value)
  }

  lemma CleanChildren(v: Json)
    ensures IsClean(v) <==> !IsOffending(v) && forall i: nat :: i < Children(v) ==> IsClean(Child(v, i))
  {
    if IsClean(v) {
      assert Sub(v, []) == Some(v);
      forall i: nat | i < Children(v)
        ensures IsClean(Child(v, i))
      {
        forall place | Sub(Child(v, i), place).Some?
          ensures !IsOffending(Sub(Child(v, i), place).value)
        {
          assert ([i] + place)[1..] == place;
          assert Sub(v, [i] + place) == Sub(Child(v, i), place);
        }
      }
    }
    if !IsOffending(v) && forall i: nat :: i < Children(v) ==> IsClean(Child(v, i)) {
      forall place | Sub(v, place).Some?
        ensures !IsOffending(Sub(v, place).value)
      {
        if place != [] {
          assert IsClean(Child(v, place[0]));
        }
      }
    }
  }

  /** The walk finds nothing exactly when nothing at any depth offends, hidden by a model key or not. */
  lemma {:induction false} NothingFoundExactlyWhenClean(v: Json, place: Place)
    ensures Violations(v, place) == [] <==> IsClean(v)
    decreases v, 1, 0
  {
    CleanChildren(v);
    match v
    case Scalar(_) =>
    case Str(_) =>
    case Arr(items) => NothingInItems(v, |items|, place);
    case Obj(props) => NothingInProps(v, |props|, place);
  }

  lemma {:induction false} NothingInItems(v: Json, n: nat, place: Place)
    requires v.Arr? && n <= |v.items|
    ensures ItemViolations(v, n, place) == [] <==> forall i: nat :: i < n ==> IsClean(Child(v, i))
    decreases v, 0, n
  {
    if n > 0 {
      NothingInItems(v, n - 1, place);
      assert Child(v, n - 1) == v.items[n - 1];
      NothingFoundExactlyWhenClean(v.items[n - 1], place + [n - 1]);
    }
  }

  lemma {:induction false} NothingInProps(v: Json, n: nat, place: Place)
    requires v.Obj? && n <= |v.props|
    ensures PropViolations(v, n, place) == [] <==>
            forall i: nat :: i < n ==> !IsModelKey(v.props[i].key) && IsClean(Child(v, i))
    decreases v, 0, n
  {
    if n > 0 {
      NothingInProps(v, n - 1, place);
      NothingFoundExactlyWhenClean(v.props[n - 1].value, place + [n - 1]);
    }
  }

  lemma {:induction false} SlotProblemsAre(slots: seq<string>, n: nat, p: Problem)
    requires n <= |slots|
    ensures p in SlotProblems(slots, n) <==>
            p.SlotLooksLikeModel? && p.slot < n && p.text == slots[p.slot] && IsModelShaped(p.text)
  {
    if n > 0 {
      SlotProblemsAre(slots, n - 1, p);
    }
  }

  lemma {:induction false} NoSlotProblems(slots: seq<string>, n: nat)
    requires n <= |slots|
    ensures SlotProblems(slots, n) == [] <==> forall i :: 0 <= i < n ==> !IsModelShaped(slots[i])
  {
    if n > 0 {
      NoSlotProblems(slots, n - 1);
    }
  }

  /**
   * A strategy is accepted exactly when its shape is clean and no role slot is
   * model-shaped, spaces around it counting.
   */
  lemma AcceptedExactlyWhenClean(strategy: Strategy)
    ensures Problems(strategy) == [] <==>
            && IsClean(strategy.shape)
            && (strategy.roleSlots.Some? ==> forall i :: 0 <= i < |strategy.roleSlots.value| ==>
               !IsModelShaped(strategy.roleSlots.value[i]))
  {
    NothingFoundExactlyWhenClean(strategy.shape, []);
    if strategy.roleSlots.Some? {
      NoSlotProblems(strategy.roleSlots.value, |strategy.roleSlots.value|);
    }
  }
}
