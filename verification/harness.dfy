/**
 * The repeat-and-aggregate harness `runit` of timeit.js. Each of the
 * `repeats` runs calls timeit and hands its callback a call count and a
 * corrected elapsed time; the harness also reads the wall clock around each
 * run. Those per-run values are the input here. The harness keeps the
 * running minimum and maximum elapsed time and sums calls, elapsed times and
 * wall times, then derives the min, max and average item rates.
 *
 * A JavaScript division whose result is not a finite number (a zero
 * divisor, or no runs at all) is `None` here.
 */
module Harness {
  import opened Wrappers

  /** What one repetition yields: timeit's call count and elapsed time, and the wall clock before and after. */
  datatype Run = Run(ncalls: nat, elapsed: real, started: real, finished: real)

  /** The accumulators of runit once `repeatWhile` is done, and the three rates it prints. */
  datatype Digest = Digest(
    min: Option<real>,
    max: Option<real>,
    totalCallCount: nat,
    totalRunTime: real,
    totalElapsedTime: real,
    rateMin: Option<real>,
    rateMax: Option<real>,
    rateAvg: Option<real>)

  /** How many runs the post-incremented repeat test lets start: repeats, or none when it is not positive. */
  function RunCount(repeats: int): nat {
    if repeats > 0 then repeats else 0
  }

  function TotalCalls(runs: seq<Run>): nat {
    if runs == [] then 0 else TotalCalls(runs[..|runs| - 1]) + runs[|runs| - 1].ncalls
  }

  function TotalRunTime(runs: seq<Run>): real {
    if runs == [] then 0.0 else TotalRunTime(runs[..|runs| - 1]) + runs[|runs| - 1].elapsed
  }

  function TotalElapsedTime(runs: seq<Run>): real {
    if runs == [] then 0.0
    else TotalElapsedTime(runs[..|runs| - 1]) + (runs[|runs| - 1].finished - runs[|runs| - 1].started)
  }

  /** The running minimum after one more run: that run's time when it is the first or lower. */
  function Lower(min: Option<real>, elapsed: real): real {
    if min.None? || elapsed < min.value then elapsed else min.value
  }

  /** The running maximum after one more run: that run's time when it is the first or higher. */
  function Higher(max: Option<real>, elapsed: real): real {
    if max.None? || elapsed > max.value then elapsed else max.value
  }

  /** The running minimum after the given runs; undefined before the first. */
  function MinElapsed(runs: seq<Run>): Option<real> {
    if runs == [] then None else Some(Lower(MinElapsed(runs[..|runs| - 1]), runs[|runs| - 1].elapsed))
  }

  /** The running maximum after the given runs; undefined before the first. */
  function MaxElapsed(runs: seq<Run>): Option<real> {
    if runs == [] then None else Some(Higher(MaxElapsed(runs[..|runs| - 1]), runs[|runs| - 1].elapsed))
  }

  /**
   * The running minimum and maximum are defined once there is a run; they
   * bound every run's elapsed time, and each is some run's elapsed time.
   */
  lemma {:induction false} MinMaxBounds(runs: seq<Run>)
    ensures MinElapsed(runs).Some? <==> runs != []
    ensures MaxElapsed(runs).Some? <==> runs != []
    ensures runs != [] ==> forall i :: 0 <= i < |runs| ==>
      MinElapsed(runs).value <= runs[i].elapsed <= MaxElapsed(runs).value
    ensures runs != [] ==> exists i :: 0 <= i < |runs| && runs[i].elapsed == MinElapsed(runs).value
    ensures runs != [] ==> exists i :: 0 <= i < |runs| && runs[i].elapsed == MaxElapsed(runs).value
  {
    if runs != [] {
      var init := runs[..|runs| - 1];
      var last := |runs| - 1;
      MinMaxBounds(init);
      forall i | 0 <= i < |runs| ensures MinElapsed(runs).value <= runs[i].elapsed <= MaxElapsed(runs).value {
        if i < last { assert runs[i] == init[i]; }
      }
      if init == [] || runs[last].elapsed < MinElapsed(init).value {
        assert runs[last].elapsed == MinElapsed(runs).value;
      } else {
        var k :| 0 <= k < |init| && init[k].elapsed == MinElapsed(init).value;
        assert runs[k] == init[k];
      }
      if init == [] || runs[last].elapsed > MaxElapsed(init).value {
        assert runs[last].elapsed == MaxElapsed(runs).value;
      } else {
        var k :| 0 <= k < |init| && init[k].elapsed == MaxElapsed(init).value;
        assert runs[k] == init[k];
      }
    }
  }

  /** The summed elapsed time lies between |runs| times the minimum and |runs| times the maximum. */
  lemma {:induction false} TotalBetweenBounds(runs: seq<Run>, lo: real, hi: real)
    requires forall i :: 0 <= i < |runs| ==> lo <= runs[i].elapsed <= hi
    ensures |runs| as real * lo <= TotalRunTime(runs) <= |runs| as real * hi
  {
    if runs != [] {
      var init := runs[..|runs| - 1];
      forall i | 0 <= i < |init| ensures lo <= init[i].elapsed <= hi {
        assert init[i] == runs[i];
      }
      TotalBetweenBounds(init, lo, hi);
      assert runs[|runs| - 1].elapsed <= hi;
    }
  }

  /**
   * Items per second for a run lasting `perRun`: the items of all runs,
   * averaged per repetition, divided by `perRun`, and scaled up by one call
   * for the untimed call timeit makes.
   */
  function RateFor(totalCallCount: nat, nItemsPerRun: real, repeats: int, perRun: real): real
    requires totalCallCount > 0 && repeats != 0 && perRun != 0.0
  {
    var t := totalCallCount as real;
    t * nItemsPerRun / repeats as real / perRun * ((t + 1.0) / t)
  }

  /** The rate formula where every divisor is defined, else not a finite number. */
  function ItemRate(totalCallCount: nat, nItemsPerRun: real, repeats: int, perRun: Option<real>): (r: Option<real>)
    ensures r.Some? <==> totalCallCount > 0 && repeats != 0 && perRun.Some? && perRun.value != 0.0
  {
    if totalCallCount == 0 || repeats == 0 || perRun.None? || perRun.value == 0.0 then None
    else Some(RateFor(totalCallCount, nItemsPerRun, repeats, perRun.value))
  }

  /** The summed run time divided by the repeat count, the mean elapsed time of a run. */
  function MeanRunTime(totalRunTime: real, repeats: int): Option<real> {
    if repeats == 0 then None else Some(totalRunTime / repeats as real)
  }

  /** What runit has once all repetitions are done. */
  function Aggregate(repeats: int, nItemsPerRun: real, runs: seq<Run>): Digest {
    var total, runTime := TotalCalls(runs), TotalRunTime(runs);
    Digest(
      MinElapsed(runs), MaxElapsed(runs), total, runTime, TotalElapsedTime(runs),
      ItemRate(total, nItemsPerRun, repeats, MaxElapsed(runs)),
      ItemRate(total, nItemsPerRun, repeats, MinElapsed(runs)),
      ItemRate(total, nItemsPerRun, repeats, MeanRunTime(runTime, repeats)))
  }

  /**
   * runit: `repeatWhile` runs the repetitions one after another, each one
   * updating the accumulators, then the rates are derived.
   */
  method Runit(repeats: int, nItemsPerRun: real, runs: seq<Run>) returns (d: Digest)
    requires |runs| == RunCount(repeats)
    ensures d == Aggregate(repeats, nItemsPerRun, runs)
    ensures d.min.Some? <==> repeats > 0
    ensures repeats > 0 ==> forall i :: 0 <= i < |runs| ==> d.min.value <= runs[i].elapsed <= d.max.value
  {
    var j := 0;
    var min, max: Option<real> := None, None;
    var totalCallCount: nat, totalRunTime, totalElapsedTime := 0, 0.0, 0.0;
    while j < repeats
      invariant 0 <= j <= |runs|
      invariant min == MinElapsed(runs[..j]) && max == MaxElapsed(runs[..j])
      invariant totalCallCount == TotalCalls(runs[..j])
      invariant totalRunTime == TotalRunTime(runs[..j])
      invariant totalElapsedTime == TotalElapsedTime(runs[..j])
    {
      var run := runs[j];
      assert runs[..j + 1][..j] == runs[..j];
      totalElapsedTime := totalElapsedTime + (run.finished - run.started);
      if min.None? || run.elapsed < min.value { min := Some(run.elapsed); }
      if max.None? || run.elapsed > max.value { max := Some(run.elapsed); }
      totalCallCount := totalCallCount + run.ncalls;
      totalRunTime := totalRunTime + run.elapsed;
      j := j + 1;
    }
    assert runs[..j] == runs;
    var rateMin := ItemRate(totalCallCount, nItemsPerRun, repeats, max);
    var rateMax := ItemRate(totalCallCount, nItemsPerRun, repeats, min);
    var rateAvg := ItemRate(totalCallCount, nItemsPerRun, repeats, MeanRunTime(totalRunTime, repeats));
    d := Digest(min, max, totalCallCount, totalRunTime, totalElapsedTime, rateMin, rateMax, rateAvg);
    MinMaxBounds(runs);
  }

  lemma DivideAntitone(c: real, a: real, b: real)
    requires c >= 0.0 && 0.0 < a <= b
    ensures c / b <= c / a
  {
    assert c / a - c / b == c * (b - a) / (a * b);
    assert c * (b - a) >= 0.0;
    assert a * b > 0.0;
  }

  /** A longer run time gives a lower rate, when the item count is not negative. */
  lemma RateAntitone(total: nat, items: real, repeats: int, a: real, b: real)
    requires total > 0 && repeats > 0 && items >= 0.0 && 0.0 < a <= b
    ensures RateFor(total, items, repeats, b) <= RateFor(total, items, repeats, a)
  {
    var t := total as real;
    var c := t * items / repeats as real;
    var f := (t + 1.0) / t;
    assert c >= 0.0 && f > 0.0;
    DivideAntitone(c, a, b);
    assert c / b * f <= c / a * f;
    assert RateFor(total, items, repeats, b) == c / b * f;
    assert RateFor(total, items, repeats, a) == c / a * f;
  }

  /** The mean elapsed time of the runs lies between their minimum and maximum. */
  lemma MeanBetweenBounds(runs: seq<Run>)
    requires runs != []
    ensures MinElapsed(runs).Some? && MaxElapsed(runs).Some?
    ensures var n := |runs| as real;
      MinElapsed(runs).value <= TotalRunTime(runs) / n <= MaxElapsed(runs).value
  {
    MinMaxBounds(runs);
    var lo, hi := MinElapsed(runs).value, MaxElapsed(runs).value;
    TotalBetweenBounds(runs, lo, hi);
    DivideBetween(|runs| as real, lo, TotalRunTime(runs), hi);
  }

  lemma DivideBetween(n: real, lo: real, total: real, hi: real)
    requires n > 0.0 && n * lo <= total <= n * hi
    ensures lo <= total / n <= hi
  {
    assert n * lo / n <= total / n;
    assert total / n <= n * hi / n;
    assert n * lo / n == lo;
    assert n * hi / n == hi;
  }

  /**
   * When every run took a positive time, some call was counted and the item
   * count is not negative, all three rates are defined and the slowest run's
   * rate is at most the average rate, which is at most the fastest run's.
   */
  lemma RateOrder(repeats: int, nItemsPerRun: real, runs: seq<Run>)
    requires repeats > 0 && |runs| == repeats && nItemsPerRun >= 0.0
    requires TotalCalls(runs) > 0
    requires forall i :: 0 <= i < |runs| ==> runs[i].elapsed > 0.0
    ensures var d := Aggregate(repeats, nItemsPerRun, runs);
      d.rateMin.Some? && d.rateMax.Some? && d.rateAvg.Some? &&
      d.rateMin.value <= d.rateAvg.value <= d.rateMax.value
  {
    MinMaxBounds(runs);
    MeanBetweenBounds(runs);
    var lo, hi := MinElapsed(runs).value, MaxElapsed(runs).value;
    assert lo > 0.0 by {
      var k :| 0 <= k < |runs| && runs[k].elapsed == lo;
    }
    var mean := TotalRunTime(runs) / repeats as real;
    RateAntitone(TotalCalls(runs), nItemsPerRun, repeats, mean, hi);
    RateAntitone(TotalCalls(runs), nItemsPerRun, repeats, lo, mean);
  }
}
