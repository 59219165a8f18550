/** What `older` means for versions as they are written, digit by digit. */
module VersionOrder {
  import opened RunnerEnv

  function Pow10(n: nat): (r: nat)
    ensures r >= 1
  {
    if n == 0 then 1 else 10 * Pow10(n - 1)
  }

  predicate IsZeros(s: string) {
    forall c :: c in s ==> c == '0'
  }

  /** A digit text without the zeros it starts with; the last digit stays. */
  function Stripped(s: Digits): Digits {
    if |s| > 1 && s[0] == '0' then Stripped(s[1..]) else s
  }

  lemma {:induction false} StrippedIs(s: Digits) returns (zeros: string)
    ensures s == zeros + Stripped(s) && IsZeros(zeros)
    ensures Stripped(s)[0] == '0' ==> |Stripped(s)| == 1
  {
    zeros := "";
    if |s| > 1 && s[0] == '0' {
      var more := StrippedIs(s[1..]);
      zeros := ['0'] + more;
      assert s == [s[0]] + s[1..];
    }
  }

  /** The shorter text first, then the one with the smaller digit where they first differ. */
  ghost predicate ComesBefore(a: string, b: string) {
    |a| < |b| || (|a| == |b| && exists k :: IsFirstSmaller(a, b, k))
  }

  ghost predicate IsFirstSmaller(a: string, b: string, k: nat) {
    k < |a| && k < |b| && a[..k] == b[..k] && a[k] < b[k]
  }

  // ---- what number a digit text is ----

  lemma NumberOfMore(s: Digits, c: char)
    requires '0' <= c <= '9'
    ensures Number(s + [c]) == 10 * Number(s) + (c - '0') as nat
  {
    assert (s + [c])[..|s|] == s;
  }

  lemma JoinedOneMore(a: Digits, b: Digits, c: char)
    requires '0' <= c <= '9' && Number(a + b) == Number(a) * Pow10(|b|) + Number(b)
    ensures Number(a + (b + [c])) == Number(a) * Pow10(|b| + 1) + Number(b + [c])
  {
    assert a + (b + [c]) == (a + b) + [c];
    NumberOfMore(b, c);
    NumberOfMore(a + b, c);
    OneMoreDigit(Number(a), Pow10(|b|), Number(b), (c - '0') as nat);
  }

  lemma {:induction false} NumberOfJoined(a: Digits, b: Digits)
    ensures Number(a + b) == Number(a) * Pow10(|b|) + Number(b)
    decreases |b|
  {
    var c := b[|b| - 1];
    if |b| == 1 {
      assert b == [c] && Pow10(1) == 10;
      NumberOfMore(a, c);
    } else {
      var init: Digits := b[..|b| - 1];
      assert b == init + [c];
      NumberOfJoined(a, init);
      JoinedOneMore(a, init, c);
    }
  }

  lemma NumberSplits(s: Digits, k: nat)
    requires 0 < k < |s|
    ensures Number(s) == Number(s[..k]) * Pow10(|s| - k) + Number(s[k..])
  {
    assert s == s[..k] + s[k..];
    NumberOfJoined(s[..k], s[k..]);
  }

  lemma OneMoreDigit(high: nat, power: nat, low: nat, digit: nat)
    ensures 10 * (high * power + low) + digit == high * (10 * power) + (10 * low + digit)
  {}

  lemma ZerosOneMore(s: string, c: char)
    ensures IsZeros(s + [c]) <==> IsZeros(s) && c == '0'
  {
    var more := s + [c];
    assert forall d :: d in more <==> d in s || d == c;
    assert c in more;
  }

  lemma {:induction false} NumberBounds(s: Digits)
    ensures Number(s) < Pow10(|s|)
    ensures s[0] != '0' ==> Pow10(|s| - 1) <= Number(s)
    ensures Number(s) == 0 <==> IsZeros(s)
  {
    if |s| == 1 {
      assert s[0] in s && Pow10(1) == 10;
    } else {
      var init := s[..|s| - 1];
      NumberBounds(init);
      assert s == init + [s[|s| - 1]];
      ZerosOneMore(init, s[|s| - 1]);
    }
  }

  lemma ZeroInFront(s: Digits)
    ensures Number("0" + s) == Number(s)
  {
    NumberOfJoined("0", s);
    assert Number("0") == 0;
  }

  /** Zeros in front do not matter. */
  lemma {:induction false} StrippedNumber(s: Digits)
    ensures Number(Stripped(s)) == Number(s)
  {
    if |s| > 1 && s[0] == '0' {
      StrippedNumber(s[1..]);
      ZeroInFront(s[1..]);
      assert s == "0" + s[1..];
    }
  }

  lemma {:induction false} FirstDifference(a: Digits, b: Digits) returns (k: nat)
    requires |a| == |b| && a != b
    ensures k < |a| && a[..k] == b[..k] && a[k] != b[k]
    decreases |a|
  {
    if a[0] != b[0] {
      return 0;
    }
    assert a == [a[0]] + a[1..] && b == [b[0]] + b[1..];
    var n := FirstDifference(a[1..], b[1..]);
    k := n + 1;
    assert a[..k] == [a[0]] + a[1..][..n] && b[..k] == [b[0]] + b[1..][..n];
  }

  /** From the first smaller digit on, the number is smaller. */
  lemma FromSmallerDigit(a: Digits, b: Digits)
    requires |a| == |b| && a[0] < b[0]
    ensures Number(a) < Number(b)
  {
    if |a| > 1 {
      var power := Pow10(|a| - 1);
      NumberSplits(a, 1);
      NumberSplits(b, 1);
      NumberBounds(a[1..]);
      DigitOutweighs((a[0] - '0') as nat, (b[0] - '0') as nat, power, Number(a[1..]));
    }
  }

  lemma DigitOutweighs(x: nat, y: nat, power: nat, low: nat)
    requires x < y && low < power
    ensures x * power + low < y * power
  {
    assert x * power + power == (x + 1) * power <= y * power;
  }

  lemma SmallerDigitIsLess(a: Digits, b: Digits, k: nat)
    requires |a| == |b| && IsFirstSmaller(a, b, k)
    ensures Number(a) < Number(b)
  {
    assert a[k..][0] == a[k] && b[k..][0] == b[k];
    FromSmallerDigit(a[k..], b[k..]);
    if k > 0 {
      NumberSplits(a, k);
      NumberSplits(b, k);
    } else {
      assert a[0..] == a && b[0..] == b;
    }
  }

  lemma ShorterIsLess(a: Digits, b: Digits)
    requires |a| < |b| && b[0] != '0'
    ensures Number(a) < Number(b)
  {
    NumberBounds(a);
    NumberBounds(b);
    PowersGrow(|a|, |b| - 1);
  }

  lemma {:induction false} PowersGrow(m: nat, n: nat)
    requires m <= n
    ensures Pow10(m) <= Pow10(n)
  {
    if m < n {
      PowersGrow(m, n - 1);
    }
  }

  lemma ComesBeforeIsLess(a: Digits, b: Digits)
    requires (a[0] == '0' ==> |a| == 1) && (b[0] == '0' ==> |b| == 1)
    requires ComesBefore(a, b)
    ensures Number(a) < Number(b)
  {
    if |a| < |b| {
      ShorterIsLess(a, b);
    } else {
      var k: nat :| IsFirstSmaller(a, b, k);
      SmallerDigitIsLess(a, b, k);
    }
  }

  lemma OneComesBefore(a: Digits, b: Digits)
    ensures a == b || ComesBefore(a, b) || ComesBefore(b, a)
  {
    if |a| == |b| && a != b {
      var k := FirstDifference(a, b);
      assert IsFirstSmaller(a, b, k) || IsFirstSmaller(b, a, k);
    }
  }

  ghost predicate PartBefore(a: Digits, b: Digits) {
    ComesBefore(Stripped(a), Stripped(b))
  }

  ghost predicate SamePart(a: Digits, b: Digits) {
    Stripped(a) == Stripped(b)
  }

  /** Digit texts compare as numbers by their length without leading zeros, then by their first different digit. */
  lemma NumbersAsWritten(a: Digits, b: Digits)
    ensures Number(a) < Number(b) <==> PartBefore(a, b)
    ensures Number(a) == Number(b) <==> SamePart(a, b)
  {
    var x, y := Stripped(a), Stripped(b);
    var zeros := StrippedIs(a);
    zeros := StrippedIs(b);
    StrippedNumber(a);
    StrippedNumber(b);
    OneComesBefore(x, y);
    if ComesBefore(x, y) {
      ComesBeforeIsLess(x, y);
    }
    if ComesBefore(y, x) {
      ComesBeforeIsLess(y, x);
    }
  }

  // ---- versions ----

  ghost predicate MinorBefore(v: Version, p: Version) {
    PartBefore(v.minor, p.minor) || (SamePart(v.minor, p.minor) && PartBefore(v.patch, p.patch))
  }

  lemma MinorAsWritten(v: Version, p: Version)
    ensures MinorBefore(v, p) <==>
            Number(v.minor) < Number(p.minor) ||
            (Number(v.minor) == Number(p.minor) && Number(v.patch) < Number(p.patch))
  {
    NumbersAsWritten(v.minor, p.minor);
    NumbersAsWritten(v.patch, p.patch);
  }

  /** A reference is older than an exact version exactly when its first different part comes before. */
  lemma OlderAsWritten(v: Version, p: Version)
    ensures IsOlder(v, Exact(p)) <==>
            PartBefore(v.major, p.major) || (SamePart(v.major, p.major) && MinorBefore(v, p))
  {
    NumbersAsWritten(v.major, p.major);
    MinorAsWritten(v, p);
  }

  /** Nothing in front but a hyphen: the first part is negative, or a zero that ties with zero. */
  lemma OlderThanSigned(v: Version, p: Version)
    ensures IsOlder(v, Prefixed("", p)) <==> IsZeros(v.major) && IsZeros(p.major) && MinorBefore(v, p)
  {
    MinorAsWritten(v, p);
    NumberBounds(v.major);
    NumberBounds(p.major);
  }

  /** A prefix that is neither sign nor exponent leaves no first part to compare. */
  lemma OlderThanNamed(v: Version, prefix: string, p: Version)
    requires prefix != "" && !IsScientific(prefix) && !(prefix[0] == '-' && IsScientific(prefix[1..]))
    ensures IsOlder(v, Prefixed(prefix, p)) <==> MinorBefore(v, p)
  {
    MinorAsWritten(v, p);
  }

  lemma OlderByFirst(v: Version, prefix: string, p: Version, x: real)
    requires FirstPart(prefix, p.major) == Num(x)
    ensures IsOlder(v, Prefixed(prefix, p)) <==>
            (Number(v.major) as real) < x || (Number(v.major) as real == x && MinorBefore(v, p))
  {
    MinorAsWritten(v, p);
  }

  lemma ScientificText(digits: Digits, e: char)
    requires e in "eE"
    ensures IsScientific(digits + [e]) && (digits + [e])[..|digits + [e]| - 1] == digits
    ensures !IsScientific("-" + digits + [e])
  {
    var negative := "-" + digits + [e];
    assert (digits + [e])[..|digits|] == digits && (digits + [e])[|digits|] == e;
    assert negative[..|negative| - 1][0] == '-';
    assert '-' in negative[..|negative| - 1];
  }

  lemma ScientificFirst(digits: Digits, e: char, major: Digits)
    requires e in "eE"
    ensures FirstPart(digits + [e], major) == Num(Scientific(Number(digits), Number(major)))
    ensures FirstPart("-" + digits + [e], major) == Num(-Scientific(Number(digits), Number(major)))
  {
    ScientificText(digits, e);
    assert ("-" + digits + [e])[1..] == digits + [e];
  }

  /** With an exponent, the first part is that many places down. */
  lemma OlderThanScientific(v: Version, digits: Digits, e: char, p: Version)
    requires e in "eE"
    ensures var places := Number(v.major) * Pow10(Number(p.major));
            IsOlder(v, Prefixed(digits + [e], p)) <==>
            places < Number(digits) || (places == Number(digits) && MinorBefore(v, p))
  {
    ScientificFirst(digits, e, p.major);
    OlderByFirst(v, digits + [e], p, Scientific(Number(digits), Number(p.major)));
    PlacesDown(Number(v.major), Number(digits), Number(p.major));
  }

  /** And below zero if a hyphen comes before that. */
  lemma OlderThanNegative(v: Version, digits: Digits, e: char, p: Version)
    requires e in "eE"
    ensures IsOlder(v, Prefixed("-" + digits + [e], p)) <==>
            IsZeros(v.major) && IsZeros(digits) && MinorBefore(v, p)
  {
    ScientificFirst(digits, e, p.major);
    OlderByFirst(v, "-" + digits + [e], p, -Scientific(Number(digits), Number(p.major)));
    NumberBounds(v.major);
    NumberBounds(digits);
    PlacesDown(0, Number(digits), Number(p.major));
  }

  lemma {:induction false} PlacesDown(n: nat, m: nat, places: nat)
    ensures n as real < Scientific(m, places) <==> n * Pow10(places) < m
    ensures n as real == Scientific(m, places) <==> n * Pow10(places) == m
    decreases places
  {
    if places > 0 {
      PlacesDown(10 * n, m, places - 1);
      assert 10 * n * Pow10(places - 1) == n * Pow10(places);
    }
  }

  lemma NineIsOlder()
    ensures IsOlder(Version("1", "9", "0"), Exact(Version("1", "10", "0")))
  {
    assert PartBefore("9", "10");
    OlderAsWritten(Version("1", "9", "0"), Version("1", "10", "0"));
  }

  lemma TagAsWritten()
    ensures Tag("python", Exact(Version("1", "10", "0"))) == "almyty/runner-env:python-1.10.0"
  {}

  lemma OneRepinned(path: string, s: Segment, v: Version, digestOf: Registry)
    requires IsStale(s, Exact(v)) && digestOf(Tag(s.flavour, Exact(v))) != ""
    ensures var after := RepinnedFiles([File(path, [s])], Exact(v), digestOf);
            && |after| == 1 && after[0].path == path
            && after[0].segments == [Ref(s.flavour, v, digestOf(Tag(s.flavour, Exact(v))))]
  {}

  /** 1.9.0 is older than 1.10.0, and gives way to it under the same flavour. */
  lemma TenIsNewerThanNine(path: string, digest: Digest, digestOf: Registry)
    requires digestOf("almyty/runner-env:python-1.10.0") != ""
    ensures var files := [File(path, [Ref("python", Version("1", "9", "0"), digest)])];
            var after := RepinnedFiles(files, Exact(Version("1", "10", "0")), digestOf);
            && |after| == 1 && after[0].path == path
            && after[0].segments ==
               [Ref("python", Version("1", "10", "0"), digestOf("almyty/runner-env:python-1.10.0"))]
  {
    var v := Version("1", "10", "0");
    NineIsOlder();
    TagAsWritten();
    OneRepinned(path, Ref("python", Version("1", "9", "0"), digest), v, digestOf);
  }
}
