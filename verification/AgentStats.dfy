/** The execution counters of an agent, and the rounded running average of its execution time. */
module AgentStats {
  import opened Options

  datatype Call = Call(success: bool, time: int, cost: real)

  /** `Math.round(a / n)`: to the nearest integer, halves up. */
  function RoundDiv(a: int, n: nat): int
    requires n > 0
  {
    (2 * a + n) / (2 * n)
  }

  function Successes(calls: seq<Call>): nat {
    if calls == [] then 0 else Successes(calls[..|calls| - 1]) + (if calls[|calls| - 1].success then 1 else 0)
  }

  function TotalCost(calls: seq<Call>): real {
    if calls == [] then 0.0 else TotalCost(calls[..|calls| - 1]) + calls[|calls| - 1].cost
  }

  function TotalTime(calls: seq<Call>): int {
    if calls == [] then 0 else TotalTime(calls[..|calls| - 1]) + calls[|calls| - 1].time
  }

  /** The average the agent stores: each call rounds anew. */
  function Stored(calls: seq<Call>): int {
    if calls == [] then 0 else NextAverage(Stored(calls[..|calls| - 1]), |calls|, calls[|calls| - 1].time)
  }

  function NextAverage(average: int, n: nat, time: int): int
    requires n > 0
  {
    RoundDiv(average * (n - 1) + time, n)
  }

  class Agent {
    var totalExecutions: nat
    var successfulExecutions: nat
    var totalCost: real
    var averageExecutionTime: int
    var lastExecutedAt: Option<int>
    ghost var calls: seq<Call>

    ghost predicate Valid()
      reads this
    {
      && totalExecutions == |calls|
      && successfulExecutions == Successes(calls)
      && totalCost == TotalCost(calls)
      && averageExecutionTime == Stored(calls)
    }

    constructor ()
      ensures Valid() && calls == [] && lastExecutedAt == None
    {
      totalExecutions, successfulExecutions, totalCost, averageExecutionTime, lastExecutedAt := 0, 0, 0.0, 0, None;
      calls := [];
    }

    method IncrementExecution(success: bool, executionTime: int, cost: real, now: int)
      requires Valid()
      modifies this
      ensures Valid() && calls == old(calls) + [Call(success, executionTime, cost)]
      ensures lastExecutedAt == Some(now)
    {
      totalExecutions := totalExecutions + 1;
      if success {
        successfulExecutions := successfulExecutions + 1;
      }
      totalCost := totalCost + cost;
      averageExecutionTime := RoundDiv(averageExecutionTime * (totalExecutions - 1) + executionTime, totalExecutions);
      lastExecutedAt := Some(now);
      calls := calls + [Call(success, executionTime, cost)];
      assert calls[..|calls| - 1] == old(calls);
    }

    /** The successes in percent, 0 before the first call. */
    method GetSuccessRate() returns (rate: real)
      requires Valid()
      ensures 0.0 <= rate <= 100.0
      ensures calls != [] ==> rate * |calls| as real == 100.0 * Successes(calls) as real
      ensures rate == 0.0 <==> Successes(calls) == 0
    {
      SuccessesWithinTotal(calls);
      if totalExecutions == 0 {
        return 0.0;
      }
      rate := successfulExecutions as real / totalExecutions as real * 100.0;
      PercentOf(successfulExecutions as real, totalExecutions as real, rate);
    }
  }

  lemma PercentOf(s: real, n: real, rate: real)
    requires 0.0 <= s <= n && n > 0.0 && rate == s / n * 100.0
    ensures 0.0 <= rate <= 100.0 && rate * n == 100.0 * s && (rate == 0.0 <==> s == 0.0)
  {
    var q := s / n;
    assert q * n == s;
    QuotientInUnit(q, s, n);
    assert rate * n == 100.0 * (q * n);
  }

  lemma QuotientInUnit(q: real, s: real, n: real)
    requires q * n == s && 0.0 <= s <= n && n > 0.0
    ensures 0.0 <= q <= 1.0
  {
    if q < 0.0 {
      MulLt(n, q, 0.0);
    }
    if q > 1.0 {
      MulLt(n, 1.0, q);
    }
  }

  lemma {:induction false} SuccessesWithinTotal(calls: seq<Call>)
    ensures Successes(calls) <= |calls|
  {
    if calls != [] {
      SuccessesWithinTotal(calls[..|calls| - 1]);
    }
  }

  /** The successes are the calls that succeeded. */
  lemma {:induction false} SuccessesAre(calls: seq<Call>)
    ensures Successes(calls) == |SucceededAt(calls)|
  {
    if calls != [] {
      var k := |calls| - 1;
      SuccessesAre(calls[..k]);
      assert SucceededAt(calls) == SucceededAt(calls[..k]) + (if calls[k].success then {k} else {});
    }
  }

  ghost function SucceededAt(calls: seq<Call>): set<nat> {
    set i: nat | i < |calls| && calls[i].success
  }

  /** Cost and time add up over the calls, in any split of them. */
  lemma {:induction false} TotalsOfSum(a: seq<Call>, b: seq<Call>)
    ensures TotalCost(a + b) == TotalCost(a) + TotalCost(b)
    ensures TotalTime(a + b) == TotalTime(a) + TotalTime(b)
  {
    if b == [] {
      assert a + b == a;
    } else {
      var k := |b| - 1;
      TotalsOfSum(a, b[..k]);
      assert (a + b)[..|a + b| - 1] == a + b[..k];
    }
  }

  /** And one call costs and takes what it says. */
  lemma TotalsOfOne(call: Call)
    ensures TotalCost([call]) == call.cost && TotalTime([call]) == call.time
  {
    assert [call][..0] == [];
  }

  // ---- how far the stored average strays ----

  /** Rounding moves a sum of `n` by at most `n / 2`, and rounds halves up. */
  lemma RoundingMoves(a: int, n: int)
    requires n > 0
    ensures -n < 2 * (n * RoundDiv(a, n) - a) <= n
  {
    var d := 2 * n;
    var q := RoundDiv(a, n);
    assert q * d <= 2 * a + n < q * d + d;
    assert q * d == 2 * (n * q);
  }

  /** The nearest integer is determined by its distance. */
  lemma RoundingIs(a: int, n: int, q: int)
    requires n > 0 && -n < 2 * (n * q - a) <= n
    ensures RoundDiv(a, n) == q
  {
    var p := RoundDiv(a, n);
    RoundingMoves(a, n);
    if p < q {
      MulLe(p + 1, q, n);
    } else if q < p {
      MulLe(q + 1, p, n);
    }
  }

  lemma MulLe(a: int, b: int, n: int)
    requires a <= b && n >= 0
    ensures n * a <= n * b
  {}

  lemma Commute(a: int, b: int)
    ensures a * b == b * a
  {}

  /** A quarter of n squared, rounded down: 0, 0, 1, 2, 4, 6, 9, ... */
  function QuarterSquare(n: int): int {
    n * n / 4
  }

  lemma QuarterSquareStep(n: int)
    ensures QuarterSquare(n) == QuarterSquare(n - 1) + n / 2
  {
    SquaresAround(n / 2);
    if n % 2 == 0 {
      assert n == 2 * (n / 2);
    } else {
      assert n == 2 * (n / 2) + 1;
    }
  }

  lemma SquaresAround(k: int)
    ensures QuarterSquare(2 * k) == k * k
    ensures QuarterSquare(2 * k + 1) == k * k + k
    ensures QuarterSquare(2 * k - 1) == k * k - k
  {
    SquareOfDouble(k);
    Quartered((2 * k) * (2 * k), k * k, 0);
    Quartered((2 * k + 1) * (2 * k + 1), k * k + k, 1);
    Quartered((2 * k - 1) * (2 * k - 1), k * k - k, 1);
  }

  lemma SquareOfDouble(k: int)
    ensures (2 * k) * (2 * k) == 4 * (k * k)
    ensures (2 * k + 1) * (2 * k + 1) == 4 * (k * k + k) + 1
    ensures (2 * k - 1) * (2 * k - 1) == 4 * (k * k - k) + 1
  {}

  lemma Quartered(a: int, q: int, r: int)
    requires a == 4 * q + r && 0 <= r < 4
    ensures a / 4 == q
  {}

  /** One call moves the average times n away from the total by no more than the two quarter squares grow. */
  lemma DistanceGrows(x: int, y: int, n: int, total: int, time: int)
    requires n > 0 && -QuarterSquare(n - 2) <= x - total <= QuarterSquare(n - 1)
    requires -n < 2 * (y - (x + time)) <= n
    ensures -QuarterSquare(n - 1) <= y - (total + time) <= QuarterSquare(n)
  {
    QuarterSquareStep(n);
    QuarterSquareStep(n - 1);
  }

  /**
   * After n calls the stored average times n is no more than (n - 1)^2 / 4 below
   * the total time, nor n^2 / 4 above it, both rounded down.
   */
  lemma {:induction false} StoredNearTotal(calls: seq<Call>)
    ensures -QuarterSquare(|calls| - 1) <= |calls| * Stored(calls) - TotalTime(calls) <= QuarterSquare(|calls|)
  {
    if calls != [] {
      var n, before := |calls|, calls[..|calls| - 1];
      StoredNearTotal(before);
      var x, time := (n - 1) * Stored(before), calls[n - 1].time;
      Commute(n - 1, Stored(before));
      RoundingMoves(x + time, n);
      DistanceGrows(x, n * RoundDiv(x + time, n), n, TotalTime(before), time);
    }
  }

  /** So it is within n / 4 of the true mean. */
  lemma StoredNearMean(calls: seq<Call>)
    requires calls != []
    ensures var mean := TotalTime(calls) as real / |calls| as real;
            var slack := |calls| as real / 4.0;
            -slack <= Stored(calls) as real - mean <= slack
  {
    StoredNearTotal(calls);
    QuarterSquareBounds(|calls|);
    MeanOfTotal(|calls|, Stored(calls), TotalTime(calls), |calls| * Stored(calls));
  }

  lemma MeanOfTotal(n: int, s: int, t: int, product: int)
    requires n > 0 && product == n * s && -(n * n) <= 4 * (product - t) <= n * n
    ensures var mean, slack := t as real / n as real, n as real / 4.0;
            -slack <= s as real - mean <= slack
  {
    ProductInReals(n, s);
    ProductInReals(n, n);
    MeanBound(n as real, s as real, t as real, t as real / n as real);
  }

  lemma ProductInReals(a: int, b: int)
    ensures (a * b) as real == a as real * b as real
  {}

  lemma QuarterSquareBounds(n: int)
    requires n > 0
    ensures 4 * QuarterSquare(n) <= n * n && 4 * QuarterSquare(n - 1) <= n * n
  {
    BelowSquare(n);
    BelowSquare(n - 1);
    SmallerSquare(n);
  }

  lemma BelowSquare(n: int)
    ensures 4 * QuarterSquare(n) <= n * n
  {}

  lemma SmallerSquare(n: int)
    requires n > 0
    ensures (n - 1) * (n - 1) <= n * n
  {}

  lemma MeanBound(n: real, s: real, t: real, mean: real)
    requires n > 0.0 && mean == t / n
    requires -(n * n) <= 4.0 * (n * s - t) <= n * n
    ensures -(n / 4.0) <= s - mean <= n / 4.0
  {
    var e := s - mean;
    assert mean * n == t;
    assert n * s - t == n * e;
    if 4.0 * e > n {
      MulLt(n, n, 4.0 * e);
    }
    if 4.0 * e < -n {
      MulLt(n, 4.0 * e, -n);
    }
  }

  lemma MulLt(n: real, a: real, b: real)
    requires n > 0.0 && a < b
    ensures n * a < n * b
  {
    assert n * (b - a) > 0.0;
  }

  /** The stored average lies between the smallest and the largest time seen. */
  lemma {:induction false} StoredWithinRange(calls: seq<Call>, lo: int, hi: int)
    requires calls != []
    requires forall i :: 0 <= i < |calls| ==> lo <= calls[i].time <= hi
    ensures lo <= Stored(calls) <= hi
  {
    var n, before := |calls|, calls[..|calls| - 1];
    if n > 1 {
      StoredWithinRange(before, lo, hi);
    }
    var average, time := Stored(before), calls[n - 1].time;
    if n > 1 {
      WeightedAtLeast(average, time, n, lo);
      WeightedAtMost(average, time, n, hi);
    }
    RoundAtLeast(average * (n - 1) + time, n, lo);
    RoundAtMost(average * (n - 1) + time, n, hi);
  }

  lemma WeightedAtLeast(average: int, time: int, n: int, lo: int)
    requires n > 0 && lo <= average && lo <= time
    ensures n * lo <= average * (n - 1) + time
  {
    MulLe(lo, average, n - 1);
    assert (n - 1) * lo + lo == n * lo;
  }

  lemma WeightedAtMost(average: int, time: int, n: int, hi: int)
    requires n > 0 && average <= hi && time <= hi
    ensures average * (n - 1) + time <= n * hi
  {
    MulLe(average, hi, n - 1);
    assert (n - 1) * hi + hi == n * hi;
  }

  lemma RoundAtLeast(a: int, n: int, lo: int)
    requires n > 0 && n * lo <= a
    ensures lo <= RoundDiv(a, n)
  {
    RoundingMoves(a, n);
    if RoundDiv(a, n) < lo {
      MulLe(RoundDiv(a, n) + 1, lo, n);
    }
  }

  lemma RoundAtMost(a: int, n: int, hi: int)
    requires n > 0 && a <= n * hi
    ensures RoundDiv(a, n) <= hi
  {
    RoundingMoves(a, n);
    if hi < RoundDiv(a, n) {
      MulLe(hi + 1, RoundDiv(a, n), n);
    }
  }

  /** The n-th call leaves the average alone exactly when its time is within n / 2 of it, halves above excepted. */
  lemma AverageStays(average: int, n: int, time: int)
    requires n > 0
    ensures NextAverage(average, n, time) == average <==> -n <= 2 * (time - average) < n
  {
    var a := average * (n - 1) + time;
    assert n * average - a == average - time by {
      assert n * average == average * (n - 1) + average;
    }
    RoundingMoves(a, n);
    if -n <= 2 * (time - average) < n {
      RoundingIs(a, n, average);
    }
  }

  // ---- and that it does stray that far ----

  /** Calls that stray ever further from `a`, below it or above, without ever moving the average. */
  function Drifting(a: int, n: nat, below: bool): (calls: seq<Call>)
    ensures |calls| == n
  {
    if n == 0 then [] else Drifting(a, n - 1, below) + [Call(true, if below then a - n / 2 else a + (n - 1) / 2, 0.0)]
  }

  /** Both bounds are met, for every n and every average. */
  lemma {:induction false} DriftIsReal(a: int, n: nat, below: bool)
    requires n > 0
    ensures var calls := Drifting(a, n, below);
            && Stored(calls) == a
            && n * Stored(calls) - TotalTime(calls) == if below then QuarterSquare(n) else -QuarterSquare(n - 1)
    decreases n
  {
    var calls := Drifting(a, n, below);
    var before, time := Drifting(a, n - 1, below), calls[n - 1].time;
    assert calls[..n - 1] == before;
    QuarterSquareStep(n);
    QuarterSquareStep(n - 1);
    if n == 1 {
      assert before == [] && Stored([]) == 0 && TotalTime([]) == 0;
      RoundingIs(a, 1, a);
    } else {
      DriftIsReal(a, n - 1, below);
      AverageStays(a, n, time);
      MinusOne(n, a);
    }
  }

  lemma MinusOne(n: int, a: int)
    ensures n * a == (n - 1) * a + a
  {}
}
