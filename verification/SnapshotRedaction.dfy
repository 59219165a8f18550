/** `redactVersionSnapshot`: what a version snapshot may keep of a serialized entity. */
module SnapshotRedaction {
  import opened JsonValues
  import opened Options
  import SecretNames

  const MAX_DEPTH := 32

  predicate IsEncrypted(s: string) {
    "encrypted:" <= s
  }

  /** Says whether a property of that name holds a secret. */
  type Secret = string -> bool

  /** A property the redacted object does not get: a secret one, or one that would set the prototype instead. */
  predicate IsDropped(secret: Secret, p: Prop) {
    secret(p.key) || (p.value.Str? && IsEncrypted(p.value.s)) || p.key == "__proto__"
  }

  function Redacted(secret: Secret, v: Json, depth: nat): Json
    decreases v, 1, 0
  {
    if depth > MAX_DEPTH || v.Scalar? || v.Str? then v
    else if v.Arr? then Arr(seq(|v.items|, i requires 0 <= i < |v.items| => Redacted(secret, v.items[i], depth + 1)))
    else Obj(RedactedProps(secret, v, |v.props|, depth))
  }

  /** The first `n` properties of an object, those kept. */
  function RedactedProps(secret: Secret, v: Json, n: nat, depth: nat): seq<Prop>
    requires v.Obj? && n <= |v.props|
    decreases v, 0, n
  {
    if n == 0 then []
    else
      var p, before := v.props[n - 1], RedactedProps(secret, v, n - 1, depth);
      if IsDropped(secret, p) then before else before + [Prop(p.key, Redacted(secret, p.value, depth + 1))]
  }

  method Redact(secret: Secret, v: Json, depth: nat) returns (r: Json)
    ensures r == Redacted(secret, v, depth)
    decreases v
  {
    if depth > MAX_DEPTH || v.Scalar? || v.Str? {
      return v;
    }
    if v.Arr? {
      var items := [];
      for i := 0 to |v.items|
        invariant |items| == i
        invariant forall k :: 0 <= k < i ==> items[k] == Redacted(secret, v.items[k], depth + 1)
      {
        var item := Redact(secret, v.items[i], depth + 1);
        items := items + [item];
      }
      assert items == Redacted(secret, v, depth).items;
      return Arr(items);
    }
    var out := [];
    for i := 0 to |v.props|
      invariant out == RedactedProps(secret, v, i, depth)
    {
      var p := v.props[i];
      if secret(p.key) {
        continue;
      }
      if p.value.Str? && IsEncrypted(p.value.s) {
        continue;
      }
      var inner := Redact(secret, p.value, depth + 1);
      if p.key != "__proto__" {
        out := out + [Prop(p.key, inner)];
      }
    }
    return Obj(out);
  }

  /** A copy of a serialized entity with its secrets removed. */
  method RedactVersionSnapshot(snapshot: Json) returns (r: Json)
    ensures r == Redacted(SecretNames.IsSecretPropertyName, snapshot, 0)
  {
    r := Redact(SecretNames.IsSecretPropertyName, snapshot, 0);
  }

  // ---- what is left of a snapshot ----

  datatype Step = Index(i: nat) | Key(k: string)

  function FindKey(props: seq<Prop>, n: nat, k: string): (i: nat)
    requires n <= |props|
    ensures i <= n
    ensures i < n ==> props[i].key == k
    ensures forall j :: 0 <= j < i ==> props[j].key != k
  {
    if n == 0 then 0
    else
      var i := FindKey(props, n - 1, k);
      if i < n - 1 || props[n - 1].key == k then i else n
  }

  /** What a path leads to. */
  function At(v: Json, path: seq<Step>): Option<Json>
    decreases |path|
  {
    if path == [] then Some(v)
    else
      match path[0]
      case Index(i) => if v.Arr? && i < |v.items| then At(v.items[i], path[1..]) else None
      case Key(k) =>
        if v.Obj? && FindKey(v.props, |v.props|, k) < |v.props|
        then At(v.props[FindKey(v.props, |v.props|, k)].value, path[1..])
        else None
  }

  /** No object has a key twice. */
  ghost predicate Proper(v: Json)
    decreases v
  {
    match v
    case Scalar(_) => true
    case Str(_) => true
    case Arr(items) => forall i :: 0 <= i < |items| ==> Proper(items[i])
    case Obj(props) =>
      && (forall i, j :: 0 <= i < j < |props| ==> props[i].key != props[j].key)
      && (forall i :: 0 <= i < |props| ==> Proper(props[i].value))
  }

  /** The path leads somewhere and, down to the depth redaction reaches, passes no dropped property. */
  predicate IsKept(secret: Secret, v: Json, path: seq<Step>, depth: nat)
    decreases |path|
  {
    if path == [] then true
    else
      match path[0]
      case Index(i) => v.Arr? && i < |v.items| && IsKept(secret, v.items[i], path[1..], depth + 1)
      case Key(k) =>
        && v.Obj?
        && var i := FindKey(v.props, |v.props|, k);
           i < |v.props| && (depth <= MAX_DEPTH ==> !IsDropped(secret, v.props[i])) &&
             IsKept(secret, v.props[i].value, path[1..], depth + 1)
  }

  lemma {:induction false} RedactedPropsFind(secret: Secret, v: Json, n: nat, depth: nat, k: string)
    requires v.Obj? && n <= |v.props|
    requires forall i, j :: 0 <= i < j < |v.props| ==> v.props[i].key != v.props[j].key
    ensures var out := RedactedProps(secret, v, n, depth);
            var i, o := FindKey(v.props, n, k), FindKey(out, |out|, k);
            && (o < |out| <==> i < n && !IsDropped(secret, v.props[i]))
            && (o < |out| ==> out[o] == Prop(k, Redacted(secret, v.props[i].value, depth + 1)))
    decreases n
  {
    if n > 0 {
      var p, before, out := v.props[n - 1], RedactedProps(secret, v, n - 1, depth), RedactedProps(secret, v, n, depth);
      RedactedPropsFind(secret, v, n - 1, depth, k);
      if !IsDropped(secret, p) {
        FindKeyInLonger(before, Prop(p.key, Redacted(secret, p.value, depth + 1)), k);
      }
    }
  }

  lemma FindKeyInLonger(props: seq<Prop>, p: Prop, k: string)
    ensures FindKey(props + [p], |props| + 1, k) ==
            if FindKey(props, |props|, k) < |props| then FindKey(props, |props|, k)
            else if p.key == k then |props| else |props| + 1
  {
    var longer := props + [p];
    var i := FindKey(longer, |longer|, k);
    var o := FindKey(props, |props|, k);
    if o < |props| {
      assert longer[o].key == k;
      assert forall j :: 0 <= j < o ==> longer[j].key != k;
    } else {
      assert forall j :: 0 <= j < |props| ==> longer[j].key != k;
      assert longer[|props|] == p;
    }
  }

  /**
   * The redacted snapshot has exactly the kept paths, and each leads to what
   * it led to before, redacted from that depth on: a leaf stays itself.
   */
  lemma {:induction false} PathsOfRedacted(secret: Secret, v: Json, depth: nat, path: seq<Step>)
    requires Proper(v)
    ensures IsKept(secret, v, path, depth) ==> At(v, path).Some?
    ensures At(Redacted(secret, v, depth), path) ==
            if IsKept(secret, v, path, depth) then Some(Redacted(secret, At(v, path).value, depth + |path|)) else None
    decreases |path|
  {
    if path != [] {
      if depth > MAX_DEPTH {
        PathsBelowReach(secret, v, depth, path);
      } else {
        match path[0]
        case Index(i) =>
          if v.Arr? && i < |v.items| {
            PathsOfRedacted(secret, v.items[i], depth + 1, path[1..]);
          }
        case Key(k) =>
          if v.Obj? {
            PathThroughKey(secret, v, depth, path);
            var i := FindKey(v.props, |v.props|, k);
            if i < |v.props| {
              PathsOfRedacted(secret, v.props[i].value, depth + 1, path[1..]);
            }
          }
      }
    }
  }

  /** A path into a redacted object goes on in the redacted property, unless that was dropped. */
  lemma PathThroughKey(secret: Secret, v: Json, depth: nat, path: seq<Step>)
    requires v.Obj? && depth <= MAX_DEPTH && path != [] && path[0].Key?
    requires forall i, j :: 0 <= i < j < |v.props| ==> v.props[i].key != v.props[j].key
    ensures var i := FindKey(v.props, |v.props|, path[0].k);
            At(Redacted(secret, v, depth), path) ==
            if i < |v.props| && !IsDropped(secret, v.props[i])
            then At(Redacted(secret, v.props[i].value, depth + 1), path[1..])
            else None
  {
    RedactedPropsFind(secret, v, |v.props|, depth, path[0].k);
    assert Redacted(secret, v, depth) == Obj(RedactedProps(secret, v, |v.props|, depth));
  }

  lemma {:induction false} PathsBelowReach(secret: Secret, v: Json, depth: nat, path: seq<Step>)
    requires depth > MAX_DEPTH
    ensures IsKept(secret, v, path, depth) <==> At(v, path).Some?
    ensures At(v, path).Some? ==> Redacted(secret, At(v, path).value, depth + |path|) == At(v, path).value
    decreases |path|
  {
    if path != [] {
      match path[0]
      case Index(i) =>
        if v.Arr? && i < |v.items| {
          PathsBelowReach(secret, v.items[i], depth + 1, path[1..]);
        }
      case Key(k) =>
        if v.Obj? && FindKey(v.props, |v.props|, k) < |v.props| {
          PathsBelowReach(secret, v.props[FindKey(v.props, |v.props|, k)].value, depth + 1, path[1..]);
        }
    }
  }

  lemma {:induction false} RedactedPropsKept(secret: Secret, v: Json, n: nat, depth: nat)
    requires v.Obj? && n <= |v.props|
    ensures forall i :: 0 <= i < |RedactedProps(secret, v, n, depth)| ==>
            !IsDropped(secret, RedactedProps(secret, v, n, depth)[i])
    decreases n
  {
    if n > 0 {
      RedactedPropsKept(secret, v, n - 1, depth);
    }
  }

  /** No object down to depth 32 of a redacted snapshot has a secret-named key or an encrypted text. */
  lemma NoSecretsInReach(secret: Secret, snapshot: Json, path: seq<Step>)
    requires Proper(snapshot) && |path| <= MAX_DEPTH
    requires At(Redacted(secret, snapshot, 0), path).Some? && At(Redacted(secret, snapshot, 0), path).value.Obj?
    ensures forall i :: 0 <= i < |At(Redacted(secret, snapshot, 0), path).value.props| ==>
              !IsDropped(secret, At(Redacted(secret, snapshot, 0), path).value.props[i])
  {
    PathsOfRedacted(secret, snapshot, 0, path);
    var sub := At(snapshot, path).value;
    RedactedPropsKept(secret, sub, |sub.props|, |path|);
  }

  // ---- secrets that stay ----

  /** The place holds ciphertext: a property's value, an array element, or the snapshot itself. */
  ghost predicate LeadsToCiphertext(v: Json, path: seq<Step>) {
    At(v, path).Some? && At(v, path).value.Str? && IsEncrypted(At(v, path).value.s)
  }

  /** The place holds an object with a secret-named property. */
  ghost predicate LeadsToSecretName(secret: Secret, v: Json, path: seq<Step>) {
    && At(v, path).Some? && At(v, path).value.Obj?
    && exists i :: 0 <= i < |At(v, path).value.props| && secret(At(v, path).value.props[i].key)
  }

  ghost predicate HoldsSecret(secret: Secret, v: Json) {
    exists path :: LeadsToCiphertext(v, path) || LeadsToSecretName(secret, v, path)
  }

  /**
   * Redaction does not look at a text in this place: the root, an array element,
   * or a property of an object below depth 32.
   */
  predicate IsUnchecked(path: seq<Step>) {
    path == [] || path[|path| - 1].Index? || |path| - 1 > MAX_DEPTH
  }

  /** A longer path is kept when its start is and its last step goes into nothing dropped. */
  lemma {:induction false} KeptOneStep(secret: Secret, v: Json, path: seq<Step>, depth: nat)
    requires path != []
    ensures var start, last := path[..|path| - 1], path[|path| - 1];
            IsKept(secret, v, path, depth) <==>
            && IsKept(secret, v, start, depth) && At(v, start).Some?
            && IsKept(secret, At(v, start).value, [last], depth + |start|)
    ensures At(v, path) ==
            var start, last := path[..|path| - 1], path[|path| - 1];
            if At(v, start).Some? then At(At(v, start).value, [last]) else None
    decreases |path|
  {
    if |path| == 1 {
      assert path == [path[0]];
    } else {
      var start := path[..|path| - 1];
      assert start[1..] == path[1..][..|path| - 2];
      match path[0]
      case Index(i) =>
        if v.Arr? && i < |v.items| {
          KeptOneStep(secret, v.items[i], path[1..], depth + 1);
        }
      case Key(k) =>
        if v.Obj? && FindKey(v.props, |v.props|, k) < |v.props| {
          KeptOneStep(secret, v.props[FindKey(v.props, |v.props|, k)].value, path[1..], depth + 1);
        }
    }
  }

  /**
   * Ciphertext is left in exactly those places where redaction does not look
   * for it: what holds it was kept, and it is the root, an array element, or a
   * property of an object below depth 32.
   */
  lemma CiphertextLeft(secret: Secret, snapshot: Json, path: seq<Step>)
    requires Proper(snapshot)
    ensures LeadsToCiphertext(Redacted(secret, snapshot, 0), path) <==>
            && LeadsToCiphertext(snapshot, path) && IsUnchecked(path)
            && (path == [] || IsKept(secret, snapshot, path[..|path| - 1], 0))
  {
    PathsOfRedacted(secret, snapshot, 0, path);
    if IsKept(secret, snapshot, path, 0) {
      RedactedStaysText(secret, At(snapshot, path).value, |path|);
    }
    if path != [] {
      KeptOneStep(secret, snapshot, path, 0);
    }
  }

  /** A secret-named property is left exactly in the objects below depth 32 that were kept. */
  lemma SecretNamesLeft(secret: Secret, snapshot: Json, path: seq<Step>)
    requires Proper(snapshot)
    ensures LeadsToSecretName(secret, Redacted(secret, snapshot, 0), path) <==>
            |path| > MAX_DEPTH && IsKept(secret, snapshot, path, 0) && LeadsToSecretName(secret, snapshot, path)
  {
    PathsOfRedacted(secret, snapshot, 0, path);
    if |path| <= MAX_DEPTH && LeadsToSecretName(secret, Redacted(secret, snapshot, 0), path) {
      NoSecretsInReach(secret, snapshot, path);
    }
  }

  /**
   * The place is one redaction leaves a secret in: kept, with ciphertext it does
   * not check, or a secret name below depth 32.
   */
  ghost predicate LeavesSecret(secret: Secret, snapshot: Json, path: seq<Step>) {
    || (LeadsToCiphertext(snapshot, path) && IsUnchecked(path) &&
       (path == [] || IsKept(secret, snapshot, path[..|path| - 1], 0)))
    || (LeadsToSecretName(secret, snapshot, path) && |path| > MAX_DEPTH && IsKept(secret, snapshot, path, 0))
  }

  /** A redacted snapshot is free of secrets exactly when no place of the snapshot is one they are left in. */
  lemma SecretFreeExactlyWhen(secret: Secret, snapshot: Json)
    requires Proper(snapshot)
    ensures HoldsSecret(secret, Redacted(secret, snapshot, 0)) <==> exists path :: LeavesSecret(secret, snapshot, path)
  {
    var r := Redacted(secret, snapshot, 0);
    if path :| LeadsToCiphertext(r, path) || LeadsToSecretName(secret, r, path) {
      CiphertextLeft(secret, snapshot, path);
      SecretNamesLeft(secret, snapshot, path);
      assert LeavesSecret(secret, snapshot, path);
    }
    if path :| LeavesSecret(secret, snapshot, path) {
      CiphertextLeft(secret, snapshot, path);
      SecretNamesLeft(secret, snapshot, path);
      assert LeadsToCiphertext(r, path) || LeadsToSecretName(secret, r, path);
    }
  }

  /** Ciphertext in an array stays: `{"a": ["encrypted:gcm:x"]}`. */
  lemma ArrayElementStays(secret: Secret)
    requires !secret("a")
    ensures var snapshot := Obj([Prop("a", Arr([Str("encrypted:gcm:x")]))]);
            && Redacted(secret, snapshot, 0) == snapshot
            && LeadsToCiphertext(snapshot, [Key("a"), Index(0)])
  {
    var inner := Arr([Str("encrypted:gcm:x")]);
    var snapshot := Obj([Prop("a", inner)]);
    assert Redacted(secret, inner, 1).items == inner.items;
    assert RedactedProps(secret, snapshot, 0, 0) == [];
    assert RedactedProps(secret, snapshot, 1, 0) == [Prop("a", inner)];
    assert FindKey(snapshot.props, 1, "a") == 0;
    assert At(inner, [Index(0)]) == Some(Str("encrypted:gcm:x"));
    assert [Key("a"), Index(0)][1..] == [Index(0)];
  }

  /** A property that holds text stays unless its name is secret or the text is ciphertext. */
  lemma TextPropertyStays(secret: Secret, k: string, s: string)
    ensures Redacted(secret, Obj([Prop(k, Str(s))]), 0) ==
            if secret(k) || "encrypted:" <= s || k == "__proto__" then Obj([]) else Obj([Prop(k, Str(s))])
  {
    var p := Prop(k, Str(s));
    var snapshot := Obj([p]);
    assert RedactedProps(secret, snapshot, 0, 0) == [];
    assert RedactedProps(secret, snapshot, 1, 0) == if IsDropped(secret, p) then [] else [p];
  }

  /** A password `n` objects down. */
  function Buried(n: nat): Json {
    if n == 0 then Obj([Prop("password", Str("x"))]) else Obj([Prop("a", Buried(n - 1))])
  }

  function Down(n: nat): seq<Step> {
    seq(n, _ => Key("a"))
  }

  lemma {:induction false} BuriedAt(secret: Secret, n: nat, depth: nat)
    requires secret("password") && !secret("a")
    ensures Proper(Buried(n)) && At(Buried(n), Down(n)) == Some(Buried(0))
    ensures IsKept(secret, Buried(n), Down(n), depth)
  {
    if n > 0 {
      BuriedAt(secret, n - 1, depth + 1);
      assert Down(n)[1..] == Down(n - 1);
      assert FindKey(Buried(n).props, 1, "a") == 0;
    }
  }

  /** It is redacted exactly when it is not below depth 32. */
  lemma BuriedSecretStays(secret: Secret, n: nat)
    requires secret("password") && !secret("a")
    ensures LeadsToSecretName(secret, Redacted(secret, Buried(n), 0), Down(n)) <==> n > 32
  {
    BuriedAt(secret, n, 0);
    assert Buried(0).props[0].key == "password";
    SecretNamesLeft(secret, Buried(n), Down(n));
  }

  lemma BothKindsStay(secret: Secret)
    requires secret("password") && !secret("a")
    ensures HoldsSecret(secret, Redacted(secret, Obj([Prop("a", Arr([Str("encrypted:gcm:x")]))]), 0))
    ensures HoldsSecret(secret, Redacted(secret, Buried(33), 0))
  {
    ArrayElementStays(secret);
    BuriedSecretStays(secret, 33);
  }

  /** With the names snapshots are redacted by, both kinds of secret stay. */
  lemma SnapshotsHoldSecrets()
    ensures HoldsSecret(SecretNames.IsSecretPropertyName,
              Redacted(SecretNames.IsSecretPropertyName, Obj([Prop("a", Arr([Str("encrypted:gcm:x")]))]), 0))
    ensures HoldsSecret(SecretNames.IsSecretPropertyName,
            Redacted(SecretNames.IsSecretPropertyName, Buried(33), 0))
  {
    SecretNames.OneSecretOneNot();
    BothKindsStay(SecretNames.IsSecretPropertyName);
  }

  /** Redacting twice is redacting once. */
  lemma {:induction false} RedactedTwice(secret: Secret, v: Json, depth: nat)
    ensures Redacted(secret, Redacted(secret, v, depth), depth) == Redacted(secret, v, depth)
    decreases v, 1, 0
  {
    if depth <= MAX_DEPTH {
      if v.Arr? {
        forall i | 0 <= i < |v.items|
          ensures Redacted(secret, Redacted(secret, v.items[i], depth + 1), depth + 1) ==
                  Redacted(secret, v.items[i], depth + 1)
        {
          RedactedTwice(secret, v.items[i], depth + 1);
        }
      } else if v.Obj? {
        RedactedPropsTwice(secret, v, |v.props|, depth);
        var out := Redacted(secret, v, depth);
        assert out.props == RedactedProps(secret, v, |v.props|, depth);
      }
    }
  }

  /** What is kept is kept again: redaction of the kept properties drops none of them. */
  lemma {:induction false} RedactedPropsTwice(secret: Secret, v: Json, n: nat, depth: nat)
    requires v.Obj? && n <= |v.props| && depth <= MAX_DEPTH
    ensures var once := RedactedProps(secret, v, n, depth);
            forall w: Json :: w.Obj? && once <= w.props ==> RedactedProps(secret, w, |once|, depth) == once
    decreases v, 0, n
  {
    var once := RedactedProps(secret, v, n, depth);
    if n > 0 {
      var p, before := v.props[n - 1], RedactedProps(secret, v, n - 1, depth);
      RedactedPropsTwice(secret, v, n - 1, depth);
      RedactedTwice(secret, p.value, depth + 1);
      if !IsDropped(secret, p) {
        forall w: Json | w.Obj? && once <= w.props
          ensures RedactedProps(secret, w, |once|, depth) == once
        {
          assert before <= once <= w.props;
          assert w.props[|before|] == once[|before|];
          RedactedStaysText(secret, p.value, depth + 1);
        }
      }
    }
  }

  lemma RedactedStaysText(secret: Secret, v: Json, depth: nat)
    ensures Redacted(secret, v, depth).Str? <==> v.Str?
    ensures v.Str? ==> Redacted(secret, v, depth) == v
  {}
}
