/** What both fps-summary scripts print for one overlay log: the average,
    minimum and maximum frame rate, with the running minimum started at 666
    and the running maximum at 0 (fps-analysis/fps-summary.py,
    misc/fps-summary.py). */
module FrameRates {
  import opened Aggregate

  /** The starting values of `min_fps` and `max_fps`. */
  const MIN_START: real := 666.0
  const MAX_START: real := 0.0

  /** The three printed values. */
  datatype Summary = Summary(avg: real, minFps: real, maxFps: real)

  /** The summary of a non-empty list of samples. */
  function Summarize(s: seq<real>): Summary
    requires s != []
  {
    Summary(Sum(s) / |s| as real, RunningMin(MIN_START, s), RunningMax(MAX_START, s))
  }

  /** The reported minimum is at most 666 and the reported maximum at least
      0, and every sample and the average lie between them. */
  lemma SummaryBounds(s: seq<real>)
    requires s != []
    ensures var r := Summarize(s);
      && r.minFps <= MIN_START && r.maxFps >= MAX_START
      && (forall i :: 0 <= i < |s| ==> r.minFps <= s[i] <= r.maxFps)
      && r.minFps <= r.avg <= r.maxFps
  {
    var lo, hi := RunningMin(MIN_START, s), RunningMax(MAX_START, s);
    RunningMinBounds(MIN_START, s);
    RunningMaxBounds(MAX_START, s);
    SumBounds(s, lo, hi);
    AverageBounds(Sum(s), |s| as real, lo, hi);
  }

  /** The reported minimum and maximum are samples or their starting
      values, and samples when every sample lies in [0, 666]. */
  lemma SummaryExtremes(s: seq<real>)
    requires s != []
    ensures var r := Summarize(s);
      && (r.minFps == MIN_START || r.minFps in s)
      && (r.maxFps == MAX_START || r.maxFps in s)
      && ((forall i :: 0 <= i < |s| ==> MAX_START <= s[i] <= MIN_START) ==> r.minFps in s && r.maxFps in s)
  {
    var lo, hi := RunningMin(MIN_START, s), RunningMax(MAX_START, s);
    RunningMinBounds(MIN_START, s);
    RunningMaxBounds(MAX_START, s);
    if forall i :: 0 <= i < |s| ==> MAX_START <= s[i] <= MIN_START {
      assert lo <= s[0] <= MIN_START;
      assert hi >= s[0] >= MAX_START;
    }
  }
}
