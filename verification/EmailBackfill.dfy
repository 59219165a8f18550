/** The backfill of users.normalizedEmail: canonical addresses, one row per address. */
module EmailBackfill {
  import opened Ascii
  import opened Options

  /** `split_part(s, c, 1)`. */
  function Before(s: string, c: char): string {
    if s == "" || s[0] == c then "" else [s[0]] + Before(s[1..], c)
  }

  /** What follows the first `c`, or nothing. */
  function After(s: string, c: char): string {
    if s == "" then "" else if s[0] == c then s[1..] else After(s[1..], c)
  }

  /** `replace(s, c, '')`. */
  function Strip(s: string, c: char): string {
    if s == "" then "" else if s[0] == c then Strip(s[1..], c) else [s[0]] + Strip(s[1..], c)
  }

  /** A domain in lower case, with one alias folded. */
  function Folded(domain: string): string {
    if Lower(domain) == "googlemail.com" then "gmail.com" else Lower(domain)
  }

  /** The `domain` of the first query step: the second part of the address. */
  function Domain(email: string): string {
    Folded(Before(After(email, '@'), '@'))
  }

  /** A local part in lower case without the tag, and on gmail.com without dots. */
  function Reduced(local: string, domain: string): string {
    var untagged := Before(Lower(local), '+');
    if domain == "gmail.com" then Strip(untagged, '.') else untagged
  }

  /** The `local_final` of the third. */
  function Local(email: string): string {
    Reduced(Before(email, '@'), Domain(email))
  }

  /** The `norm` of the fourth; addresses without an at sign are not candidates. */
  function Norm(email: string): Option<string> {
    if '@' !in email || Local(email) == "" then None else Some(Local(email) + "@" + Domain(email))
  }

  datatype User = User(id: nat, email: string, normalizedEmail: Option<string>)

  ghost predicate DistinctIds(users: seq<User>) {
    forall i, j :: 0 <= i < j < |users| ==> users[i].id != users[j].id
  }

  /** The rows of the same partition with a smaller id. */
  function Earlier(users: seq<User>, u: User): set<nat> {
    set v | v in users && Norm(v.email) == Norm(u.email) && v.id < u.id :: v.id
  }

  /** `ROW_NUMBER() OVER (PARTITION BY norm ORDER BY id)`. */
  function RowNumber(users: seq<User>, u: User): nat {
    |Earlier(users, u)| + 1
  }

  predicate IsUpdated(users: seq<User>, u: User) {
    Norm(u.email).Some? && RowNumber(users, u) == 1
  }

  /** The UPDATE. */
  function Backfilled(users: seq<User>): seq<User> {
    seq(|users|, i requires 0 <= i < |users| =>
      if IsUpdated(users, users[i]) then users[i].(normalizedEmail := Norm(users[i].email)) else users[i])
  }

  /** What the partial unique index demands. */
  ghost predicate IsUnique(users: seq<User>) {
    forall i, j :: 0 <= i < j < |users| && users[i].normalizedEmail.Some? ==>
      users[i].normalizedEmail != users[j].normalizedEmail
  }

  ghost predicate IsFresh(users: seq<User>) {
    forall i :: 0 <= i < |users| ==> users[i].normalizedEmail.None?
  }

  // ---- one row per address ----

  /** The first row of a partition is the one with the least id. */
  lemma FirstRowIsLeast(users: seq<User>, u: User)
    requires u in users
    ensures RowNumber(users, u) == 1 <==> forall v :: v in users && Norm(v.email) == Norm(u.email) ==> u.id <= v.id
  {
    if RowNumber(users, u) == 1 {
      assert Earlier(users, u) == {};
      forall v | v in users && Norm(v.email) == Norm(u.email)
        ensures u.id <= v.id
      {
        assert v.id < u.id ==> v.id in Earlier(users, u);
      }
    }
    if forall v :: v in users && Norm(v.email) == Norm(u.email) ==> u.id <= v.id {
      assert Earlier(users, u) == {};
    }
  }

  /**
   * On a fresh column a row gets its address exactly when it has one and is the
   * least of its class; nothing else changes.
   */
  lemma BackfillPopulatesLeast(users: seq<User>, i: nat)
    requires DistinctIds(users) && IsFresh(users) && i < |users|
    ensures var u, after := users[i], Backfilled(users)[i];
            && after == u.(normalizedEmail := after.normalizedEmail)
            && (after.normalizedEmail.Some? ==> after.normalizedEmail == Norm(u.email))
            && (after.normalizedEmail.Some? <==>
                Norm(u.email).Some? && forall v :: v in users && Norm(v.email) == Norm(u.email) ==> u.id <= v.id)
  {
    FirstRowIsLeast(users, users[i]);
  }

  /** Two rows of one class are not both updated. */
  lemma OnlyOneOfAClass(users: seq<User>, i: nat, j: nat)
    requires DistinctIds(users) && i < |users| && j < |users| && i != j
    requires Norm(users[i].email) == Norm(users[j].email)
    ensures !(IsUpdated(users, users[i]) && IsUpdated(users, users[j]))
  {
    FirstRowIsLeast(users, users[i]);
    FirstRowIsLeast(users, users[j]);
    assert users[i] in users && users[j] in users;
    assert users[i].id != users[j].id;
  }

  /** So the unique index can be built on a fresh column. */
  lemma FreshBackfillIsUnique(users: seq<User>)
    requires DistinctIds(users) && IsFresh(users)
    ensures IsUnique(Backfilled(users))
  {
    var after := Backfilled(users);
    forall i, j | 0 <= i < j < |users| && after[i].normalizedEmail.Some?
      ensures after[i].normalizedEmail != after[j].normalizedEmail
    {
      if Norm(users[i].email) == Norm(users[j].email) {
        OnlyOneOfAClass(users, i, j);
      }
    }
  }

  lemma {:induction false} LeastOfClass(users: seq<User>, n: Option<string>, u: User) returns (least: User)
    requires u in users && Norm(u.email) == n
    ensures least in users && Norm(least.email) == n && least.id <= u.id
    ensures forall v :: v in users && Norm(v.email) == n ==> least.id <= v.id
    decreases u.id
  {
    least := u;
    if v :| v in users && Norm(v.email) == n && v.id < u.id {
      least := LeastOfClass(users, n, v);
    }
  }

  /** Every address that some row normalizes to is populated somewhere, fresh column or not. */
  lemma EveryAddressIsPopulated(users: seq<User>, u: User) returns (i: nat)
    requires u in users && Norm(u.email).Some?
    ensures i < |users| && Backfilled(users)[i].normalizedEmail == Norm(u.email) && IsUpdated(users, users[i])
  {
    var least := LeastOfClass(users, Norm(u.email), u);
    FirstRowIsLeast(users, least);
    i :| 0 <= i < |users| && users[i] == least;
  }

  /** The row has a value, and the backfill leaves it. */
  predicate Stands(users: seq<User>, u: User) {
    u.normalizedEmail.Some? && !IsUpdated(users, u)
  }

  ghost predicate StandingDiffer(users: seq<User>) {
    forall i, j :: (0 <= i < j < |users| && Stands(users, users[i]) && Stands(users, users[j])) ==>
      users[i].normalizedEmail != users[j].normalizedEmail
  }

  ghost predicate StandingAreNoAddress(users: seq<User>) {
    forall u, v :: u in users && v in users && Stands(users, u) ==> u.normalizedEmail != Norm(v.email)
  }

  lemma UniqueAfterDiffers(users: seq<User>)
    requires DistinctIds(users) && IsUnique(Backfilled(users))
    ensures StandingDiffer(users) && StandingAreNoAddress(users)
  {
    var after := Backfilled(users);
    forall i, j | 0 <= i < j < |users| && Stands(users, users[i]) && Stands(users, users[j])
      ensures users[i].normalizedEmail != users[j].normalizedEmail
    {
      assert after[i].normalizedEmail != after[j].normalizedEmail;
    }
    forall u, v | u in users && v in users && Stands(users, u)
      ensures u.normalizedEmail != Norm(v.email)
    {
      if Norm(v.email).Some? {
        var k := EveryAddressIsPopulated(users, v);
        var i :| 0 <= i < |users| && users[i] == u;
        assert after[i].normalizedEmail == u.normalizedEmail && i != k;
      }
    }
  }

  lemma DiffersUniqueAfter(users: seq<User>, i: nat, j: nat)
    requires DistinctIds(users) && StandingDiffer(users) && StandingAreNoAddress(users)
    requires i < j < |users| && Backfilled(users)[i].normalizedEmail.Some?
    ensures Backfilled(users)[i].normalizedEmail != Backfilled(users)[j].normalizedEmail
  {
    assert users[i] in users && users[j] in users;
    if IsUpdated(users, users[i]) && IsUpdated(users, users[j]) && Norm(users[i].email) == Norm(users[j].email) {
      OnlyOneOfAClass(users, i, j);
    }
  }

  /**
   * On a column that already has values the backfill does not look at them:
   * the index can be built exactly when the values it leaves standing differ
   * from each other and from every address some row normalizes to.
   */
  lemma BackfillIsUniqueExactlyWhen(users: seq<User>)
    requires DistinctIds(users)
    ensures IsUnique(Backfilled(users)) <==> StandingDiffer(users) && StandingAreNoAddress(users)
  {
    if IsUnique(Backfilled(users)) {
      UniqueAfterDiffers(users);
    }
    if StandingDiffer(users) && StandingAreNoAddress(users) {
      forall i, j | 0 <= i < j < |users| && Backfilled(users)[i].normalizedEmail.Some?
        ensures Backfilled(users)[i].normalizedEmail != Backfilled(users)[j].normalizedEmail
      {
        DiffersUniqueAfter(users, i, j);
      }
    }
  }

  /** A populated row that is not the least of its class collides with the one that is. */
  lemma PopulatedRowCanCollide(users: seq<User>, i: nat, j: nat)
    requires DistinctIds(users) && i < |users| && j < |users|
    requires users[i].normalizedEmail.Some? && users[i].normalizedEmail == Norm(users[i].email) == Norm(users[j].email)
    requires users[j].id < users[i].id
    ensures !IsUnique(Backfilled(users))
  {
    FirstRowIsLeast(users, users[i]);
    assert users[i] in users && users[j] in users;
    BackfillIsUniqueExactlyWhen(users);
  }

  // ---- the canonical form ----

  lemma {:induction false} BeforeHasNone(s: string, c: char)
    ensures c !in Before(s, c)
    ensures forall d :: d in Before(s, c) ==> d in s
  {
    if s != "" {
      BeforeHasNone(s[1..], c);
    }
  }

  lemma {:induction false} BeforeOfSum(a: string, c: char, rest: string)
    requires c !in a
    ensures Before(a + [c] + rest, c) == a
    ensures After(a + [c] + rest, c) == rest
  {
    var s := a + [c] + rest;
    if a == "" {
      assert s[1..] == rest;
    } else {
      assert a[0] in a && s[0] == a[0];
      assert s[1..] == a[1..] + [c] + rest;
      BeforeOfSum(a[1..], c, rest);
    }
  }

  lemma {:induction false} BeforeWithout(s: string, c: char)
    requires c !in s
    ensures Before(s, c) == s
  {
    if s != "" {
      assert s[0] in s;
      BeforeWithout(s[1..], c);
    }
  }

  lemma {:induction false} StripHasNone(s: string, c: char)
    ensures c !in Strip(s, c)
    ensures forall d :: d in Strip(s, c) ==> d in s
    ensures c !in s ==> Strip(s, c) == s
  {
    if s != "" {
      assert s[0] in s;
      StripHasNone(s[1..], c);
    }
  }

  predicate IsLower(s: string) {
    forall i :: 0 <= i < |s| ==> LowerChar(s[i]) == s[i]
  }

  lemma LowerOfLower(s: string)
    requires IsLower(s)
    ensures Lower(s) == s
  {}

  lemma LowerKeepsSigns(s: string, c: char)
    requires c == '@' || c == '+' || c == '.'
    ensures c in Lower(s) <==> c in s
    ensures IsLower(Lower(s))
  {
    if c in s {
      var i :| 0 <= i < |s| && s[i] == c;
      assert Lower(s)[i] == c;
    }
  }

  lemma IsLowerByMember(s: string, t: string)
    requires IsLower(t) && forall d :: d in s ==> d in t
    ensures IsLower(s)
  {
    forall i | 0 <= i < |s|
      ensures LowerChar(s[i]) == s[i]
    {
      assert s[i] in t;
    }
  }

  /** The local part has neither an at sign nor a tag nor capitals, and on gmail.com no dot. */
  lemma LocalForm(email: string)
    ensures '@' !in Local(email) && '+' !in Local(email) && IsLower(Local(email))
    ensures Domain(email) == "gmail.com" ==> '.' !in Local(email)
  {
    var raw := Before(email, '@');
    BeforeHasNone(email, '@');
    LowerKeepsSigns(raw, '@');
    var untagged := Before(Lower(raw), '+');
    BeforeHasNone(Lower(raw), '+');
    StripHasNone(untagged, '.');
    IsLowerByMember(untagged, Lower(raw));
    IsLowerByMember(Local(email), untagged);
  }

  lemma DomainForm(email: string)
    ensures '@' !in Domain(email) && IsLower(Domain(email)) && Domain(email) != "googlemail.com"
  {
    var raw := Before(After(email, '@'), '@');
    BeforeHasNone(After(email, '@'), '@');
    LowerKeepsSigns(raw, '@');
  }

  /** A canonical address is its own canonical form. */
  lemma NormSettles(email: string)
    requires Norm(email).Some?
    ensures Norm(Norm(email).value) == Norm(email)
  {
    var local, domain := Local(email), Domain(email);
    var n := local + "@" + domain;
    LocalForm(email);
    DomainForm(email);
    BeforeOfSum(local, '@', domain);
    assert n == local + ['@'] + domain;
    BeforeWithout(domain, '@');
    LowerOfLower(domain);
    LowerOfLower(local);
    BeforeWithout(local, '+');
    StripHasNone(local, '.');
    assert n[|local|] == '@';
  }

  // ---- and the application's own ----

  function LastAt(s: string): (i: int)
    ensures -1 <= i < |s|
    ensures i >= 0 ==> s[i] == '@'
    ensures forall j :: i < j < |s| ==> s[j] != '@'
  {
    if s == "" then -1 else if s[|s| - 1] == '@' then |s| - 1 else LastAt(s[..|s| - 1])
  }

  /** `normalizeEmail` of the application, for an address without white space: split at the last at sign. */
  function AppNormalize(email: string): string {
    SplitNormalize(email, LastAt(email))
  }

  function SplitNormalize(email: string, at: int): string
    requires at < |email|
  {
    if at <= 0 || at == |email| - 1 then Lower(email)
    else
      var domain := Folded(email[at + 1..]);
      var local := Reduced(email[..at], domain);
      if local == "" then Lower(email) else local + "@" + domain
  }

  /**
   * Where the backfill has a value, when it is the application's. With one at
   * sign they differ only on a tag before an empty domain. With several the
   * backfill takes the second part for the domain and the application the
   * last: they agree only if a tag cuts off all parts between the two, and
   * the two are the same domain.
   */
  predicate AreAlike(email: string) {
    var local, rest := Before(email, '@'), After(email, '@');
    if '@' !in rest then rest != "" || '+' !in local
    else IsCutTo(email, local, Domain(email), LastAt(email))
  }

  predicate IsCutTo(email: string, local: string, domain: string, at: int)
    requires -1 <= at < |email|
  {
    var last := email[at + 1..];
    '+' in local && last != "" && domain == Folded(last)
  }

  lemma AgreesWithApplication(email: string)
    requires Norm(email).Some?
    ensures Norm(email).value == AppNormalize(email) <==> AreAlike(email)
  {
    if '@' in After(email, '@') {
      SeveralAlike(email);
    } else {
      OneAlike(email);
    }
  }

  lemma OneAlike(email: string)
    requires Norm(email).Some? && '@' !in After(email, '@')
    ensures Norm(email).value == AppNormalize(email) <==> AreAlike(email)
  {
    SplitAtFirst(email, '@');
    AgreesWithOneAt(email, Before(email, '@'), After(email, '@'));
  }

  lemma SeveralAlike(email: string)
    requires Norm(email).Some? && '@' in After(email, '@')
    ensures Norm(email).value == AppNormalize(email) <==> AreAlike(email)
  {
    var local, domain, at := PartsOfSeveral(email);
    AgreesWithSeveral(email, local, domain, at);
  }

  lemma PartsOfSeveral(email: string) returns (local: string, domain: string, at: nat)
    requires Norm(email).Some? && '@' in After(email, '@')
    ensures local == Before(email, '@') && domain == Domain(email) && at == LastAt(email)
    ensures '@' !in local && local <= email && |local| < at < |email| && email[|local|] == '@'
    ensures Reduced(local, domain) != "" && '@' !in Reduced(local, domain) && '@' !in domain
    ensures '@' !in email[at + 1..]
    ensures Norm(email).value == Reduced(local, domain) + "@" + domain
    ensures AreAlike(email) == IsCutTo(email, local, domain, at) && AppNormalize(email) == SplitNormalize(email, at)
  {
    local, domain := Before(email, '@'), Domain(email);
    SplitAtFirst(email, '@');
    LastAtIsLater(email, local, After(email, '@'));
    at := LastAt(email);
    LocalForm(email);
    DomainForm(email);
  }

  lemma LastAtIsLater(email: string, local: string, rest: string)
    requires email == local + ['@'] + rest && '@' in rest
    ensures local <= email && |local| < LastAt(email) && email[|local|] == '@'
  {
    var k :| 0 <= k < |rest| && rest[k] == '@';
    assert email[|local| + 1 + k] == '@';
  }

  lemma {:induction false} SplitAtFirst(s: string, c: char)
    requires c in s
    ensures s == Before(s, c) + [c] + After(s, c)
    ensures c !in Before(s, c)
  {
    if s[0] != c {
      assert s == [s[0]] + s[1..];
      SplitAtFirst(s[1..], c);
    }
  }

  lemma AgreesWithOneAt(email: string, local: string, domain: string)
    requires email == local + ['@'] + domain && '@' !in local && '@' !in domain
    requires local == Before(email, '@') && domain == After(email, '@')
    requires Norm(email).Some?
    ensures Norm(email).value == AppNormalize(email) <==> domain != "" || '+' !in local
  {
    assert email[|local|] == '@';
    assert forall j :: |local| < j < |email| ==> email[j] == domain[j - |local| - 1];
    assert LastAt(email) == |local|;
    assert email[..|local|] == local && email[|local| + 1..] == domain;
    BeforeWithout(domain, '@');
    LowerKeepsSigns(local, '+');
    BeforeHasNone(Lower(local), '+');
    if domain == "" {
      assert email == local + "@" && Lower(email) == Lower(local) + "@";
      assert Domain(email) == "" && Local(email) == Before(Lower(local), '+');
      if '+' !in local {
        BeforeWithout(Lower(local), '+');
      } else {
        assert '+' in Lower(email);
        assert '+' !in Local(email) + "@" + "";
      }
    }
  }

  lemma AgreesWithSeveral(email: string, local: string, domain: string, at: nat)
    requires '@' !in local && local <= email && |local| < at < |email|
    requires email[|local|] == '@' && email[at] == '@' && '@' !in email[at + 1..]
    requires Reduced(local, domain) != "" && '@' !in Reduced(local, domain) && '@' !in domain
    ensures Reduced(local, domain) + "@" + domain == SplitNormalize(email, at) <==>
            IsCutTo(email, local, domain, at)
  {
    OneAtOnly(Lower(email), |local|, at, Reduced(local, domain), domain);
    if at < |email| - 1 {
      FrontDecides(local, domain, email[..at], Folded(email[at + 1..]));
      LowerKeepsSigns(email[at + 1..], '@');
    }
  }

  /** The local part before the first at sign, for `domain`, and all that stands before the last one, for `d`. */
  lemma FrontDecides(local: string, domain: string, front: string, d: string)
    requires '@' !in local && local <= front && |local| < |front| && front[|local|] == '@'
    requires Reduced(local, domain) != "" && '@' !in Reduced(local, domain) && '@' !in domain
    ensures '@' !in d ==>
            (Reduced(front, d) != "" && Reduced(local, domain) + "@" + domain == Reduced(front, d) + "@" + d
             <==> '+' in local && domain == d)
  {
    var rest := front[|local|..];
    LowerKeepsSigns(local, '+');
    assert front == local + rest;
    assert Lower(front) == Lower(local) + Lower(rest);
    if '@' !in d {
      if '+' in local {
        BeforeInPrefix(Lower(local), Lower(rest), '+');
        LocalHasNoAt(local, d);
        SameSplit(Reduced(local, domain), domain, Reduced(front, d), d);
      } else {
        BeforeAfterPrefix(Lower(local), Lower(rest), '+');
        RestStaysLocal(local, front, d);
        var i :| 0 <= i < |Reduced(front, d)| && Reduced(front, d)[i] == '@';
        var whole := Reduced(front, d) + "@" + d;
        assert whole[|Reduced(front, d)|] == '@';
        OneAtOnly(whole, i, |Reduced(front, d)|, Reduced(local, domain), domain);
      }
    }
  }

  lemma LocalHasNoAt(local: string, d: string)
    requires '@' !in local
    ensures '@' !in Reduced(local, d)
  {
    LowerKeepsSigns(local, '@');
    BeforeHasNone(Lower(local), '+');
    StripHasNone(Before(Lower(local), '+'), '.');
  }

  lemma RestStaysLocal(local: string, front: string, d: string)
    requires |local| < |front| && front[|local|] == '@'
    requires Before(Lower(front), '+') == Lower(local) + Before(Lower(front[|local|..]), '+')
    ensures '@' in Reduced(front, d)
  {
    var rest := Lower(front[|local|..]);
    assert rest[0] == '@';
    assert Before(rest, '+')[0] == '@';
    var untagged := Before(Lower(front), '+');
    assert untagged[|Lower(local)|] == '@';
    StripKeeps(untagged, '.', '@');
  }

  lemma OnlyAt(a: string, b: string)
    requires '@' !in a && '@' !in b
    ensures forall i :: 0 <= i < |a + "@" + b| && i != |a| ==> (a + "@" + b)[i] != '@'
  {
    var t := a + "@" + b;
    forall i | 0 <= i < |t| && i != |a|
      ensures t[i] != '@'
    {
      if i < |a| {
        assert t[i] == a[i];
      } else {
        assert t[i] == b[i - |a| - 1];
      }
    }
  }

  /** A text with at signs in two places is not one without any joined to another by one. */
  lemma OneAtOnly(s: string, i: nat, j: nat, a: string, b: string)
    requires i < j < |s| && s[i] == '@' && s[j] == '@' && '@' !in a && '@' !in b
    ensures s != a + "@" + b
  {
    OnlyAt(a, b);
  }

  lemma SameSplit(a: string, b: string, a': string, b': string)
    requires '@' !in a && '@' !in b && '@' !in a' && '@' !in b'
    ensures a + "@" + b == a' + "@" + b' <==> a == a' && b == b'
  {
    var t, t' := a + "@" + b, a' + "@" + b';
    OnlyAt(a, b);
    OnlyAt(a', b');
    if t == t' {
      assert t[|a|] == '@' && t'[|a'|] == '@';
      assert t[..|a|] == a && t'[..|a'|] == a';
      assert t[|a| + 1..] == b && t'[|a'| + 1..] == b';
    }
  }

  lemma {:induction false} BeforeInPrefix(a: string, b: string, c: char)
    requires c in a
    ensures Before(a + b, c) == Before(a, c)
  {
    if a[0] != c {
      assert (a + b)[1..] == a[1..] + b;
      BeforeInPrefix(a[1..], b, c);
    }
  }

  lemma {:induction false} BeforeAfterPrefix(a: string, b: string, c: char)
    requires c !in a
    ensures Before(a + b, c) == a + Before(b, c)
  {
    if a == "" {
      assert a + b == b;
    } else {
      assert a[0] in a;
      assert (a + b)[1..] == a[1..] + b;
      BeforeAfterPrefix(a[1..], b, c);
    }
  }

  lemma {:induction false} StripKeeps(s: string, c: char, d: char)
    requires d in s && d != c
    ensures d in Strip(s, c)
  {
    if s[0] != d {
      StripKeeps(s[1..], c, d);
    }
  }

  lemma TaggedIsSame(tag: string)
    requires '@' !in tag
    ensures Norm("a@b") == Some("a@b") && Norm("a+" + tag + "@b") == Some("a@b")
  {
    PlainNorm("a", "b");
    PlainNorm("a+" + tag, "b");
    assert Folded("b") == "b" by {
      assert Lower("b") == "b";
    }
    assert Reduced("a", "b") == "a" by {
      assert Lower("a") == "a";
      BeforeWithout("a", '+');
    }
    assert Reduced("a+" + tag, "b") == "a" by {
      assert Lower("a+" + tag) == "a" + ['+'] + Lower(tag);
      BeforeOfSum("a", '+', Lower(tag));
    }
    assert "a" + "@" + "b" == "a@b";
    assert "a+" + tag + "@b" == "a+" + tag + "@" + "b";
  }

  lemma PlainNorm(local: string, domain: string)
    requires '@' !in local && '@' !in domain
    ensures var email := local + "@" + domain;
            '@' in email && Local(email) == Reduced(local, Folded(domain)) && Domain(email) == Folded(domain)
  {
    var email := local + "@" + domain;
    assert email == local + ['@'] + domain && email[|local|] == '@';
    BeforeOfSum(local, '@', domain);
    BeforeWithout(domain, '@');
  }

  /** A row that got its address from the application, and an older one with a tag less: no index after the backfill. */
  lemma TaggedRowCollides(tag: string)
    requires '@' !in tag
    ensures var users := [User(1, "a@b", None), User(2, "a+" + tag + "@b", Some("a@b"))]; !IsUnique(Backfilled(users))
  {
    TaggedIsSame(tag);
    PopulatedRowCanCollide([User(1, "a@b", None), User(2, "a+" + tag + "@b", Some("a@b"))], 1, 0);
  }

  /** The two disagree on a@b@c. */
  lemma SeveralAtsDiffer()
    ensures Norm("a@b@c").Some? && Norm("a@b@c").value != AppNormalize("a@b@c")
  {
    var email := "a@b@c";
    assert email == "a" + ['@'] + "b@c";
    BeforeOfSum("a", '@', "b@c");
    assert email[1] == '@' && "b@c"[1] == '@';
    assert '+' !in "a" && Lower("a") == "a";
    BeforeWithout("a", '+');
    StripKeeps("a", '.', 'a');
    assert "a"[0] == 'a';
    AgreesWithApplication(email);
  }
}
