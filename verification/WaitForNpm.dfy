/** `waitForNpm`: poll until npm serves every released version, backing off up to a deadline. */
module WaitForNpm {

  datatype Release = Release(name: string, version: string)

  /** Whether npm serves a release when it is asked in the given round. */
  type Serves = (nat, Release) -> bool

  function Min(a: real, b: real): real {
    if a <= b then a else b
  }

  /** `packages.filter(p => !serves(p.name, p.version))`, in one round. */
  function Unserved(packages: seq<Release>, serves: Serves, round: nat): seq<Release> {
    if packages == [] then []
    else (if serves(round, packages[0]) then [] else [packages[0]]) + Unserved(packages[1..], serves, round)
  }

  /** What is pending after so many rounds; each round asks only for what the one before left. */
  function Pending(packages: seq<Release>, serves: Serves, rounds: nat): seq<Release> {
    if rounds == 0 then packages else Unserved(Pending(packages, serves, rounds - 1), serves, rounds - 1)
  }

  /** `x * 2^k`. */
  function Doubled(x: real, k: nat): real {
    if k == 0 then x else 2.0 * Doubled(x, k - 1)
  }

  /** `k * x`. */
  function Times(k: nat, x: real): real {
    if k == 0 then 0.0 else Times(k - 1, x) + x
  }

  /** How long the loop is ready to wait after `k + 1` rounds: the interval first, then doubling up to the cap. */
  function Backoff(interval: real, maxInterval: real, k: nat): real {
    if k == 0 then interval else Min(Doubled(interval, k), maxInterval)
  }

  function Sum(xs: seq<real>): real {
    if xs == [] then 0.0 else Sum(xs[..|xs| - 1]) + xs[|xs| - 1]
  }

  /**
   * The clock and the timer. All that is known of them: readings never go
   * back, and a pause takes at least as long as it was asked to.
   */
  class Clock {
    var time: real
    var answers: nat
    const delay: nat -> real

    constructor (delay: nat -> real) {
      this.delay := delay;
      time, answers := 0.0, 0;
    }

    /** The extra time that passes before each answer. */
    function Late(): real
      reads this
    {
      if delay(answers) > 0.0 then delay(answers) else 0.0
    }

    method Now() returns (t: real)
      modifies this
      ensures t == time >= old(time)
    {
      time, answers := time + Late(), answers + 1;
      t := time;
    }

    method Sleep(ms: real)
      modifies this
      ensures time >= old(time) + ms
    {
      time, answers := time + ms + Late(), answers + 1;
    }
  }

  /**
   * One run as the clock saw it: what was read after each unsuccessful poll,
   * and the pause that followed it.
   */
  ghost predicate IsSchedule(start: real, timeout: real, interval: real, maxInterval: real, readings: seq<real>,
                             pauses: seq<real>)
  {
    && |pauses| <= |readings| <= |pauses| + 1
    && (forall k :: 0 <= k < |readings| ==> readings[k] >= start)
    && (forall k :: 0 <= k < |pauses| ==>
          readings[k] < start + timeout
          && pauses[k] == Min(Backoff(interval, maxInterval, k), start + timeout - readings[k]))
    && (forall k :: 0 <= k < |pauses| && k + 1 < |readings| ==> readings[k + 1] >= readings[k] + pauses[k])
  }

  lemma {:induction false} BackoffAtLeast(interval: real, maxInterval: real, k: nat)
    requires interval > 0.0 && maxInterval > 0.0
    ensures Backoff(interval, maxInterval, k) >= Min(interval, maxInterval) > 0.0
    ensures Doubled(interval, k) >= interval
  {
    if k > 0 {
      BackoffAtLeast(interval, maxInterval, k - 1);
    }
  }

  /** Doubling the capped wait gives the next capped wait. */
  lemma BackoffStep(interval: real, maxInterval: real, k: nat)
    requires interval > 0.0 && maxInterval > 0.0
    ensures Backoff(interval, maxInterval, k + 1) == Min(Backoff(interval, maxInterval, k) * 2.0, maxInterval)
  {
    assert Doubled(interval, k + 1) == 2.0 * Doubled(interval, k);
  }

  /**
   * By the time of a reading, either every pause so far was a full step, or
   * the deadline has passed.
   */
  lemma {:induction false} TimePasses(start: real, timeout: real, interval: real, maxInterval: real,
                                      readings: seq<real>, pauses: seq<real>, k: nat)
    requires interval > 0.0 && maxInterval > 0.0
    requires IsSchedule(start, timeout, interval, maxInterval, readings, pauses)
    requires k < |readings|
    ensures readings[k] >= start + timeout || readings[k] >= start + Times(k, Min(interval, maxInterval))
    ensures readings[k] >= start + Sum(pauses[..k])
    decreases k
  {
    if k > 0 {
      TimePasses(start, timeout, interval, maxInterval, readings, pauses, k - 1);
      BackoffAtLeast(interval, maxInterval, k - 1);
      assert pauses[..k][..k - 1] == pauses[..k - 1];
      assert readings[k - 1 + 1] >= readings[k - 1] + pauses[k - 1];
    }
  }

  /** The pauses add up to no more than the timeout. */
  lemma PausesWithinTimeout(start: real, timeout: real, interval: real, maxInterval: real, readings: seq<real>,
                            pauses: seq<real>)
    requires interval > 0.0 && maxInterval > 0.0
    requires IsSchedule(start, timeout, interval, maxInterval, readings, pauses)
    ensures pauses == [] || Sum(pauses) <= timeout
    ensures timeout <= 0.0 ==> pauses == []
  {
    if pauses != [] {
      var k := |pauses| - 1;
      TimePasses(start, timeout, interval, maxInterval, readings, pauses, k);
    }
  }

  /** Every pause but the last is a full step of the backoff, so there are at most timeout / step + 1 of them. */
  lemma PausesAreFew(start: real, timeout: real, interval: real, maxInterval: real, readings: seq<real>,
                     pauses: seq<real>)
    requires interval > 0.0 && maxInterval > 0.0
    requires IsSchedule(start, timeout, interval, maxInterval, readings, pauses)
    ensures pauses == [] || Times(|pauses| - 1, Min(interval, maxInterval)) < timeout
  {
    if pauses != [] {
      TimePasses(start, timeout, interval, maxInterval, readings, pauses, |pauses| - 1);
    }
  }

  /** The first pause is the interval, unless the deadline is nearer. */
  lemma FirstPause(start: real, timeout: real, interval: real, maxInterval: real, readings: seq<real>,
                   pauses: seq<real>)
    requires IsSchedule(start, timeout, interval, maxInterval, readings, pauses) && pauses != []
    ensures var left := start + timeout - readings[0];
            left > 0.0 && pauses[0] == (if interval <= left then interval else left)
  {
    assert readings[0] < start + timeout;
  }

  /** Each further pause is twice the one before, unless the longest interval is less or the deadline is nearer. */
  lemma NextPause(start: real, timeout: real, interval: real, maxInterval: real, readings: seq<real>,
                  pauses: seq<real>, k: nat)
    requires interval > 0.0 && maxInterval > 0.0
    requires IsSchedule(start, timeout, interval, maxInterval, readings, pauses) && k + 1 < |pauses|
    ensures var left, twice := start + timeout - readings[k + 1], 2.0 * pauses[k];
            && left > 0.0
            && pauses[k + 1] <= twice && pauses[k + 1] <= maxInterval && pauses[k + 1] <= left
            && pauses[k + 1] in {twice, maxInterval, left}
  {
    BackoffStep(interval, maxInterval, k);
    assert readings[k] < start + timeout && readings[k + 1] < start + timeout;
    assert readings[k + 1] >= readings[k] + pauses[k];
    assert pauses[k] == Backoff(interval, maxInterval, k);
  }

  /** What a list leaves pending is what its parts leave, one after the other. */
  lemma {:induction false} PendingOfSum(a: seq<Release>, b: seq<Release>, serves: Serves, rounds: nat)
    ensures Pending(a + b, serves, rounds) == Pending(a, serves, rounds) + Pending(b, serves, rounds)
    decreases rounds
  {
    if rounds > 0 {
      PendingOfSum(a, b, serves, rounds - 1);
      UnservedOfSum(Pending(a, serves, rounds - 1), Pending(b, serves, rounds - 1), serves, rounds - 1);
    }
  }

  lemma {:induction false} UnservedOfSum(a: seq<Release>, b: seq<Release>, serves: Serves, round: nat)
    ensures Unserved(a + b, serves, round) == Unserved(a, serves, round) + Unserved(b, serves, round)
  {
    if a == [] {
      assert a + b == b;
    } else {
      assert (a + b)[1..] == a[1..] + b;
      UnservedOfSum(a[1..], b, serves, round);
    }
  }

  /** And a single release stays as it is until it is served. */
  lemma {:induction false} PendingOfOne(p: Release, serves: Serves, rounds: nat)
    ensures Pending([p], serves, rounds) == if IsServed(p, serves, rounds) then [] else [p]
    decreases rounds
  {
    if rounds > 0 {
      PendingOfOne(p, serves, rounds - 1);
      var last := rounds - 1;
      assert Unserved([p], serves, last) == (if serves(last, p) then [] else [p]) + Unserved([], serves, last);
      assert IsServed(p, serves, rounds) <==> IsServed(p, serves, rounds - 1) || serves(rounds - 1, p);
    }
  }

  ghost predicate IsServed(p: Release, serves: Serves, rounds: nat) {
    exists k :: 0 <= k < rounds && serves(k, p)
  }

  /** A release is still pending exactly when no round so far was answered with it. */
  lemma {:induction false} PendingNeverServed(packages: seq<Release>, serves: Serves, rounds: nat, p: Release)
    ensures p in Pending(packages, serves, rounds) <==> p in packages && forall k :: 0 <= k < rounds ==> !serves(k, p)
    decreases rounds
  {
    if rounds > 0 {
      PendingNeverServed(packages, serves, rounds - 1, p);
      UnservedMembers(Pending(packages, serves, rounds - 1), serves, rounds - 1, p);
    }
  }

  lemma {:induction false} UnservedMembers(packages: seq<Release>, serves: Serves, round: nat, p: Release)
    ensures p in Unserved(packages, serves, round) <==> p in packages && !serves(round, p)
  {
    if packages != [] {
      UnservedMembers(packages[1..], serves, round, p);
    }
  }

  /**
   * Poll for each package until npm serves all of them or the timeout has
   * passed. `rounds` polls were made; the result is what none of them found,
   * and it is only non-empty once a reading after the last poll is at or past
   * the deadline.
   */
  method WaitForNpm(packages: seq<Release>, serves: Serves, timeout: real, interval: real, maxInterval: real,
                    clock: Clock)
    returns (missing: seq<Release>, rounds: nat, ghost start: real, ghost readings: seq<real>, ghost pauses: seq<real>)
    requires interval > 0.0 && maxInterval > 0.0
    modifies clock
    ensures rounds >= 1 && missing == Pending(packages, serves, rounds)
    ensures forall k :: 1 <= k < rounds ==> Pending(packages, serves, k) != []
    ensures IsSchedule(start, timeout, interval, maxInterval, readings, pauses)
    ensures |pauses| == rounds - 1
    ensures missing == [] <==> |readings| == rounds - 1
    ensures missing != [] ==> readings[rounds - 1] >= start + timeout
    ensures rounds == 1 || Times(rounds - 2, Min(interval, maxInterval)) < timeout
  {
    var began := clock.Now();
    var deadline := began + timeout;
    start := began;
    var pending := packages;
    var wait := interval;
    rounds, readings, pauses := 0, [], [];
    BackoffAtLeast(interval, maxInterval, 0);
    ghost var step := Min(interval, maxInterval);
    ghost var enough := EnoughSteps(timeout, step);
    while true
      invariant pending == Pending(packages, serves, rounds)
      invariant forall k :: 1 <= k <= rounds ==> Pending(packages, serves, k) != []
      invariant IsSchedule(start, timeout, interval, maxInterval, readings, pauses)
      invariant |pauses| == |readings| == rounds
      invariant wait == Backoff(interval, maxInterval, rounds)
      invariant rounds > 0 ==> clock.time >= readings[rounds - 1] + pauses[rounds - 1]
      invariant clock.time >= start
      decreases enough - rounds
    {
      pending := Unserved(pending, serves, rounds);
      rounds := rounds + 1;
      if |pending| == 0 {
        PausesAreFew(start, timeout, interval, maxInterval, readings, pauses);
        return [], rounds, start, readings, pauses;
      }
      var now := clock.Now();
      OneMoreReading(start, timeout, interval, maxInterval, readings, pauses, now);
      readings := readings + [now];
      var left := deadline - now;
      if left <= 0.0 {
        PausesAreFew(start, timeout, interval, maxInterval, readings, pauses);
        return pending, rounds, start, readings, pauses;
      }
      var pause := Min(wait, left);
      OneMorePause(start, timeout, interval, maxInterval, readings, pauses, pause);
      pauses := pauses + [pause];
      clock.Sleep(pause);
      BackoffStep(interval, maxInterval, rounds - 1);
      BackoffAtLeast(interval, maxInterval, rounds - 1);
      wait := Min(wait * 2.0, maxInterval);
      PausesAreFew(start, timeout, interval, maxInterval, readings, pauses);
      FewerSteps(rounds - 1, enough, step, timeout);
    }
  }

  lemma OneMoreReading(start: real, timeout: real, interval: real, maxInterval: real, readings: seq<real>,
                       pauses: seq<real>, now: real)
    requires IsSchedule(start, timeout, interval, maxInterval, readings, pauses) && |readings| == |pauses|
    requires now >= start && (pauses != [] ==> now >= readings[|readings| - 1] + pauses[|pauses| - 1])
    ensures IsSchedule(start, timeout, interval, maxInterval, readings + [now], pauses)
  {}

  lemma OneMorePause(start: real, timeout: real, interval: real, maxInterval: real, readings: seq<real>,
                     pauses: seq<real>, pause: real)
    requires IsSchedule(start, timeout, interval, maxInterval, readings, pauses) && |readings| == |pauses| + 1
    requires readings[|pauses|] < start + timeout
    requires pause == Min(Backoff(interval, maxInterval, |pauses|), start + timeout - readings[|pauses|])
    ensures IsSchedule(start, timeout, interval, maxInterval, readings, pauses + [pause])
  {}

  /** In figures: at most timeout / step + 2 rounds. */
  lemma RoundsAreFew(start: real, timeout: real, interval: real, maxInterval: real, readings: seq<real>,
                     pauses: seq<real>)
    requires interval > 0.0 && maxInterval > 0.0
    requires IsSchedule(start, timeout, interval, maxInterval, readings, pauses)
    ensures pauses == [] || (|pauses| - 1) as real * Min(interval, maxInterval) < timeout
  {
    PausesAreFew(start, timeout, interval, maxInterval, readings, pauses);
    if pauses != [] {
      TimesIsProduct(|pauses| - 1, Min(interval, maxInterval));
    }
  }

  lemma {:induction false} TimesIsProduct(k: nat, x: real)
    ensures Times(k, x) == k as real * x
  {
    if k > 0 {
      TimesIsProduct(k - 1, x);
      Distribute((k - 1) as real, 1.0, x);
      assert k as real == (k - 1) as real + 1.0;
    }
  }

  /** However small the step, enough of them outlast the timeout. */
  lemma EnoughSteps(timeout: real, step: real) returns (n: nat)
    requires step > 0.0
    ensures Times(n, step) >= timeout
  {
    if timeout <= 0.0 {
      n := 0;
    } else {
      n := (timeout / step).Floor + 1;
      TimesIsProduct(n, step);
      ProductReaches(n as real, timeout / step, step, timeout);
    }
  }

  lemma ProductReaches(n: real, q: real, step: real, timeout: real)
    requires n >= q && step > 0.0 && q * step == timeout
    ensures n * step >= timeout
  {
    Distribute(q, n - q, step);
    assert q + (n - q) == n;
    NonNegativeProduct(n - q, step);
  }

  lemma Distribute(a: real, b: real, x: real)
    ensures (a + b) * x == a * x + b * x
  {}

  lemma NonNegativeProduct(a: real, b: real)
    requires a >= 0.0 && b >= 0.0
    ensures a * b >= 0.0
  {}

  lemma {:induction false} FewerSteps(k: nat, n: nat, step: real, timeout: real)
    requires step > 0.0 && Times(k, step) < timeout <= Times(n, step)
    ensures k < n
    decreases k + n
  {
    if k > 0 && n > 0 {
      FewerSteps(k - 1, n - 1, step, timeout - step);
    } else if n == 0 {
      TimesGrows(k, step);
    }
  }

  lemma {:induction false} TimesGrows(k: nat, step: real)
    requires step > 0.0
    ensures Times(k, step) >= 0.0
  {
    if k > 0 {
      TimesGrows(k - 1, step);
    }
  }
}
