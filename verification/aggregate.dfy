/** Reducing each trace's samples to its average and standard deviation,
    optionally after dropping one lowest and one highest sample
    (`process_one_result`, `process_results`,
    fps-analysis/report-fps-traces.py). */
module Aggregate {
  import opened Wrappers
  import opened Dicts

  /** `sys.float_info.max`, the starting value of the running minimum. */
  const FLOAT_MAX: real := 179769313486231570814527423731704356798070567525844996598917476803157260780028538760589558632766878171540458953514382464234321326889464182768467546703537516986049910576551282076245490090389328944075868508455133942304583236903222948165808559332123348274797826204144723168738177180919299881250404026184124858368.0

  /** `math.sqrt`, supplied by the caller. */
  type Sqrt = real -> real

  /** What `process_one_result` returns: `[fps_min, fps_max, fps_avg, std_deviation]`. */
  datatype Stats = Stats(min: real, max: real, avg: real, std: real)

  /** What `process_results` keeps per trace: `[fps_avg, std_deviation]`. */
  datatype Measure = Measure(avg: real, std: real)

  function Min(a: real, b: real): real { if b < a then b else a }
  function Max(a: real, b: real): real { if b > a then b else a }

  function Sum(s: seq<real>): real
  {
    if s == [] then 0.0 else Sum(s[..|s| - 1]) + s[|s| - 1]
  }

  /** The minimum of `init` and the samples, taken one sample at a time. */
  function RunningMin(init: real, s: seq<real>): real
  {
    if s == [] then init else Min(s[|s| - 1], RunningMin(init, s[..|s| - 1]))
  }

  /** The maximum of `init` and the samples, taken one sample at a time. */
  function RunningMax(init: real, s: seq<real>): real
  {
    if s == [] then init else Max(s[|s| - 1], RunningMax(init, s[..|s| - 1]))
  }

  /** `pow(x, 2)`. */
  function Square(x: real): real { x * x }

  /** The sum of the squared deviations from `mean`. */
  function SumSquares(s: seq<real>, mean: real): real
  {
    if s == [] then 0.0
    else SumSquares(s[..|s| - 1], mean) + Square(s[|s| - 1] - mean)
  }

  function Mean(s: seq<real>): real
    requires s != []
  {
    Sum(s) / |s| as real
  }

  /** The population variance: the mean squared deviation from the mean. */
  function Variance(s: seq<real>): real
    requires s != []
  {
    SumSquares(s, Mean(s)) / |s| as real
  }

  /** The statistics of a sample list; an empty list divides by zero. */
  function OneResult(s: seq<real>, sqrt: Sqrt): Result<Stats>
  {
    if s == [] then Err(ZeroDivisionError)
    else Ok(Stats(RunningMin(FLOAT_MAX, s), RunningMax(0.0, s), Mean(s), sqrt(Variance(s))))
  }

  /** `process_one_result`: one loop for the sum and the extremes, then one
      for the squared deviations. */
  method ProcessOneResult(samples: seq<real>, sqrt: Sqrt) returns (r: Result<Stats>)
    ensures r == OneResult(samples, sqrt)
  {
    var fpsAccum := 0.0;
    var fpsMax := 0.0;
    var fpsMin := FLOAT_MAX;
    var i := 0;
    while i < |samples|
      invariant 0 <= i <= |samples|
      invariant fpsAccum == Sum(samples[..i])
      invariant fpsMax == RunningMax(0.0, samples[..i])
      invariant fpsMin == RunningMin(FLOAT_MAX, samples[..i])
    {
      assert samples[..i + 1][..i] == samples[..i];
      var fps := samples[i];
      fpsAccum := fpsAccum + fps;
      fpsMax := Max(fps, fpsMax);
      fpsMin := Min(fps, fpsMin);
      i := i + 1;
    }
    assert samples[..i] == samples;
    if |samples| == 0 {
      return Err(ZeroDivisionError);
    }
    var fpsAvg := fpsAccum / |samples| as real;
    assert fpsAvg == Mean(samples);
    var stdAccum := 0.0;
    i := 0;
    while i < |samples|
      invariant 0 <= i <= |samples|
      invariant stdAccum == SumSquares(samples[..i], fpsAvg)
    {
      assert samples[..i + 1][..i] == samples[..i];
      var fps := samples[i];
      stdAccum := stdAccum + Square(fps - fpsAvg);
      i := i + 1;
    }
    assert samples[..i] == samples;
    r := Ok(Stats(fpsMin, fpsMax, fpsAvg, sqrt(stdAccum / |samples| as real)));
  }

  // ---------------------------------------------------------------------
  // Bounds on the statistics
  // ---------------------------------------------------------------------

  /** Samples as the reader can produce them: finite, non-negative frame rates. */
  predicate InRange(s: seq<real>)
  {
    forall i :: 0 <= i < |s| ==> 0.0 <= s[i] <= FLOAT_MAX
  }

  lemma {:induction false} RunningMinBounds(init: real, s: seq<real>)
    ensures RunningMin(init, s) <= init
    ensures forall i :: 0 <= i < |s| ==> RunningMin(init, s) <= s[i]
    ensures RunningMin(init, s) == init || RunningMin(init, s) in s
  {
    if s != [] {
      var prefix := s[..|s| - 1];
      RunningMinBounds(init, prefix);
      forall i | 0 <= i < |s| - 1 ensures s[i] == prefix[i] { }
    }
  }

  lemma {:induction false} RunningMaxBounds(init: real, s: seq<real>)
    ensures RunningMax(init, s) >= init
    ensures forall i :: 0 <= i < |s| ==> RunningMax(init, s) >= s[i]
    ensures RunningMax(init, s) == init || RunningMax(init, s) in s
  {
    if s != [] {
      var prefix := s[..|s| - 1];
      RunningMaxBounds(init, prefix);
      forall i | 0 <= i < |s| - 1 ensures s[i] == prefix[i] { }
    }
  }

  /** A sum of samples lying in [lo, hi] lies in [n * lo, n * hi]. */
  lemma {:induction false} SumBounds(s: seq<real>, lo: real, hi: real)
    requires forall i :: 0 <= i < |s| ==> lo <= s[i] <= hi
    ensures |s| as real * lo <= Sum(s) <= |s| as real * hi
  {
    if s != [] {
      var prefix := s[..|s| - 1];
      forall i | 0 <= i < |prefix| ensures lo <= prefix[i] <= hi { assert prefix[i] == s[i]; }
      SumBounds(prefix, lo, hi);
      var n := |prefix| as real;
      assert |s| as real == n + 1.0;
      assert (n + 1.0) * lo == n * lo + lo && (n + 1.0) * hi == n * hi + hi;
    }
  }

  lemma {:induction false} SumSquaresNonNegative(s: seq<real>, mean: real)
    ensures SumSquares(s, mean) >= 0.0
  {
    if s != [] {
      SumSquaresNonNegative(s[..|s| - 1], mean);
      var d := s[|s| - 1] - mean;
      assert d * d >= 0.0;
    }
  }

  /** An average of values lying in [lo, hi] lies in [lo, hi]. */
  lemma AverageBounds(total: real, n: real, lo: real, hi: real)
    requires n > 0.0 && n * lo <= total <= n * hi
    ensures lo <= total / n <= hi
  {
  }

  /** The running minimum from `sys.float_info.max` is a sample when some
      sample is at most that value. */
  lemma MinIsSample(s: seq<real>)
    requires s != [] && InRange(s)
    ensures RunningMin(FLOAT_MAX, s) in s
  {
    RunningMinBounds(FLOAT_MAX, s);
    assert RunningMin(FLOAT_MAX, s) <= s[0] <= FLOAT_MAX;
  }

  /** The running maximum from 0 is a sample when some sample is at least 0. */
  lemma MaxIsSample(s: seq<real>)
    requires s != [] && InRange(s)
    ensures RunningMax(0.0, s) in s
  {
    RunningMaxBounds(0.0, s);
    assert RunningMax(0.0, s) >= s[0] >= 0.0;
  }

  /** For a non-empty list of frame rates the minimum and the maximum are
      samples of the list, every sample lies between them, the average
      lies between them too, and the variance is not negative. */
  lemma StatsBounds(s: seq<real>, sqrt: Sqrt)
    requires s != [] && InRange(s)
    ensures OneResult(s, sqrt).Ok?
    ensures var st := OneResult(s, sqrt).value;
      && st.min in s && st.max in s
      && (forall i :: 0 <= i < |s| ==> st.min <= s[i] <= st.max)
      && st.min <= st.avg <= st.max
    ensures Variance(s) >= 0.0
  {
    RunningMinBounds(FLOAT_MAX, s);
    RunningMaxBounds(0.0, s);
    MinIsSample(s);
    MaxIsSample(s);
    MeanBetween(s);
    VarianceNonNegative(s);
  }

  /** The mean of a non-empty list lies between its running minimum and
      maximum, whatever they start from. */
  lemma MeanBetween(s: seq<real>)
    requires s != []
    ensures RunningMin(FLOAT_MAX, s) <= Mean(s) <= RunningMax(0.0, s)
  {
    RunningMinBounds(FLOAT_MAX, s);
    RunningMaxBounds(0.0, s);
    MeanBounds(s, RunningMin(FLOAT_MAX, s), RunningMax(0.0, s));
  }

  /** The mean of values lying in [lo, hi] lies in [lo, hi]. */
  lemma MeanBounds(s: seq<real>, lo: real, hi: real)
    requires s != [] && forall i :: 0 <= i < |s| ==> lo <= s[i] <= hi
    ensures lo <= Mean(s) <= hi
  {
    SumBounds(s, lo, hi);
    AverageBounds(Sum(s), |s| as real, lo, hi);
  }

  lemma VarianceNonNegative(s: seq<real>)
    requires s != []
    ensures Variance(s) >= 0.0
  {
    SumSquaresNonNegative(s, Mean(s));
  }

  // ---------------------------------------------------------------------
  // Trimming one lowest and one highest sample
  // ---------------------------------------------------------------------

  /** The position of the first occurrence of `x`. */
  function IndexOf(s: seq<real>, x: real): (i: nat)
    requires x in s
    ensures i < |s| && s[i] == x && x !in s[..i]
  {
    if s[0] == x then 0
    else
      assert s[1..] + [] == s[1..] && x in s[1..];
      var j := IndexOf(s[1..], x);
      assert s[..j + 1] == [s[0]] + s[1..][..j];
      j + 1
  }

  /** `list.remove(x)`: drop the first occurrence of `x`, or raise
      ValueError when there is none. */
  function RemoveFirst(s: seq<real>, x: real): (r: Result<seq<real>>)
    ensures r.Ok? <==> x in s
    ensures r.Err? ==> r.error == ValueError
  {
    if x in s then
      var i := IndexOf(s, x);
      Ok(s[..i] + s[i + 1..])
    else Err(ValueError)
  }

  /** Removing one occurrence takes exactly that value out of the multiset. */
  lemma RemoveFirstMultiset(s: seq<real>, x: real)
    requires x in s
    ensures |RemoveFirst(s, x).value| == |s| - 1
    ensures multiset(RemoveFirst(s, x).value) == multiset(s) - multiset{x}
  {
    var i := IndexOf(s, x);
    assert s == s[..i] + [x] + s[i + 1..];
    assert multiset(s) == multiset(s[..i]) + multiset{x} + multiset(s[i + 1..]);
  }

  /** The measure of one trace, and its sample list afterwards: with
      `skip_min_max` and at least three samples, one minimum and then one
      maximum are removed and the statistics recomputed. */
  function MeasureOf(s: seq<real>, skipMinMax: bool, sqrt: Sqrt): Result<(Measure, seq<real>)>
  {
    match OneResult(s, sqrt)
    case Err(e) => Err(e)
    case Ok(st) =>
      if skipMinMax && |s| >= 3 then
        match RemoveFirst(s, st.min)
        case Err(e) => Err(e)
        case Ok(s1) =>
          match RemoveFirst(s1, st.max)
          case Err(e) => Err(e)
          case Ok(s2) =>
            match OneResult(s2, sqrt)
            case Err(e) => Err(e)
            case Ok(st2) => Ok((Measure(st2.avg, st2.std), s2))
      else Ok((Measure(st.avg, st.std), s))
  }

  /** With trimming on and at least three frame rates, exactly one
      occurrence of the minimum and one of the maximum leave the list, so
      it is two shorter; otherwise the list and its statistics are kept. */
  lemma TrimmingEffect(s: seq<real>, skipMinMax: bool, sqrt: Sqrt)
    requires s != [] && InRange(s)
    ensures MeasureOf(s, skipMinMax, sqrt).Ok?
    ensures var (m, t) := MeasureOf(s, skipMinMax, sqrt).value;
      var st := OneResult(s, sqrt).value;
      if skipMinMax && |s| >= 3 then
        && |t| == |s| - 2
        && multiset(t) == multiset(s) - multiset{st.min, st.max}
        && t != [] && m == Measure(Mean(t), sqrt(Variance(t)))
      else
        t == s && m == Measure(st.avg, st.std)
  {
    StatsBounds(s, sqrt);
    var st := OneResult(s, sqrt).value;
    if skipMinMax && |s| >= 3 {
      RemoveFirstMultiset(s, st.min);
      var s1 := RemoveFirst(s, st.min).value;
      MaxSurvives(s, st.min, st.max);
      RemoveFirstMultiset(s1, st.max);
    }
  }

  /** After one minimum leaves a list of three or more, a maximum is still there. */
  lemma MaxSurvives(s: seq<real>, lo: real, hi: real)
    requires |s| >= 3 && lo in s && hi in s
    requires forall i :: 0 <= i < |s| ==> lo <= s[i] <= hi
    ensures hi in RemoveFirst(s, lo).value
  {
    RemoveFirstMultiset(s, lo);
    var s1 := RemoveFirst(s, lo).value;
    if lo == hi {
      assert s1[0] in multiset(s1);
      assert s1[0] in s;
    } else {
      assert hi in multiset(s);
      assert multiset(s1)[hi] == multiset(s)[hi];
      assert hi in multiset(s1);
    }
  }

  // ---------------------------------------------------------------------
  // All traces of one run
  // ---------------------------------------------------------------------

  /** The measures of the traces `keys`, or the exception of the first one
      that fails. */
  function Processed(keys: seq<string>, raw: map<string, seq<real>>, skipMinMax: bool,
                     sqrt: Sqrt): Result<map<string, Measure>>
    requires forall k :: k in keys ==> k in raw
  {
    if keys == [] then Ok(map[])
    else
      var k := keys[|keys| - 1];
      match Processed(keys[..|keys| - 1], raw, skipMinMax, sqrt)
      case Err(e) => Err(e)
      case Ok(m) =>
        match MeasureOf(raw[k], skipMinMax, sqrt)
        case Err(e) => Err(e)
        case Ok(p) => Ok(m[k := p.0])
  }

  /** `process_results`: the loop over the traces of one run, in the
      order they were first read. */
  method ProcessResults(raw: Dict<seq<real>>, skipMinMax: bool, sqrt: Sqrt)
      returns (r: Result<Dict<Measure>>)
    requires forall k :: k in raw.keys ==> k in raw.entries
    ensures r.Err? <==> Processed(raw.keys, raw.entries, skipMinMax, sqrt).Err?
    ensures r.Err? ==> r.error == Processed(raw.keys, raw.entries, skipMinMax, sqrt).error
    ensures r.Ok? ==> r.value == Dict(raw.keys, Processed(raw.keys, raw.entries, skipMinMax, sqrt).value)
  {
    var results: map<string, Measure> := map[];
    var i := 0;
    while i < |raw.keys|
      invariant 0 <= i <= |raw.keys|
      invariant Processed(raw.keys[..i], raw.entries, skipMinMax, sqrt) == Ok(results)
    {
      assert raw.keys[..i + 1][..i] == raw.keys[..i];
      var key := raw.keys[i];
      var stats := ProcessOneResult(raw.entries[key], sqrt);
      if stats.Err? {
        ProcessedFailureSticks(raw.keys, i + 1, raw.entries, skipMinMax, sqrt);
        return Err(stats.error);
      }
      var samples := raw.entries[key];
      var st := stats.value;
      if skipMinMax && |samples| >= 3 {
        var removedMin := RemoveFirst(samples, st.min);
        if removedMin.Err? {
          ProcessedFailureSticks(raw.keys, i + 1, raw.entries, skipMinMax, sqrt);
          return Err(removedMin.error);
        }
        var removedMax := RemoveFirst(removedMin.value, st.max);
        if removedMax.Err? {
          ProcessedFailureSticks(raw.keys, i + 1, raw.entries, skipMinMax, sqrt);
          return Err(removedMax.error);
        }
        samples := removedMax.value;
        stats := ProcessOneResult(samples, sqrt);
        if stats.Err? {
          ProcessedFailureSticks(raw.keys, i + 1, raw.entries, skipMinMax, sqrt);
          return Err(stats.error);
        }
        st := stats.value;
      }
      results := results[key := Measure(st.avg, st.std)];
      i := i + 1;
    }
    assert raw.keys[..i] == raw.keys;
    r := Ok(Dict(raw.keys, results));
  }

  lemma {:induction false} ProcessedFailureSticks(keys: seq<string>, n: nat, raw: map<string, seq<real>>,
                                                  skipMinMax: bool, sqrt: Sqrt)
    requires n <= |keys| && forall k :: k in keys ==> k in raw
    requires Processed(keys[..n], raw, skipMinMax, sqrt).Err?
    ensures Processed(keys, raw, skipMinMax, sqrt) == Processed(keys[..n], raw, skipMinMax, sqrt)
    decreases |keys| - n
  {
    if n < |keys| {
      assert keys[..n + 1][..n] == keys[..n];
      ProcessedFailureSticks(keys, n + 1, raw, skipMinMax, sqrt);
    } else {
      assert keys[..n] == keys;
    }
  }

  /** Processing succeeds exactly when every trace's processing does. */
  lemma {:induction false} ProcessedOkIff(keys: seq<string>, raw: map<string, seq<real>>,
                                          skipMinMax: bool, sqrt: Sqrt)
    requires forall k :: k in keys ==> k in raw
    ensures Processed(keys, raw, skipMinMax, sqrt).Ok?
            <==> forall k :: k in keys ==> MeasureOf(raw[k], skipMinMax, sqrt).Ok?
  {
    if keys != [] {
      var prefix := keys[..|keys| - 1];
      ProcessedOkIff(prefix, raw, skipMinMax, sqrt);
      assert keys == prefix + [keys[|keys| - 1]];
      assert forall k :: k in keys <==> k in prefix || k == keys[|keys| - 1];
    }
  }

  /** A successful run maps each of its traces, and nothing else, to the
      trace's own measure. */
  lemma {:induction false} ProcessedContents(keys: seq<string>, raw: map<string, seq<real>>,
                                             skipMinMax: bool, sqrt: Sqrt)
    requires forall k :: k in keys ==> k in raw
    requires Processed(keys, raw, skipMinMax, sqrt).Ok?
    ensures var m := Processed(keys, raw, skipMinMax, sqrt).value;
      && (forall k :: k in m <==> k in keys)
      && (forall k :: k in m ==> MeasureOf(raw[k], skipMinMax, sqrt).Ok?
                                 && m[k] == MeasureOf(raw[k], skipMinMax, sqrt).value.0)
  {
    if keys != [] {
      var prefix := keys[..|keys| - 1];
      var last := keys[|keys| - 1];
      ProcessedContents(prefix, raw, skipMinMax, sqrt);
      assert keys == prefix + [last];
      assert forall k :: k in keys <==> k in prefix || k == last;
    }
  }

  /** A run whose every trace has at least one frame rate is processed
      without an exception, and its averages and deviations are not
      negative when the square root of a non-negative number is not. */
  lemma ProcessedRunSucceeds(raw: Dict<seq<real>>, skipMinMax: bool, sqrt: Sqrt)
    requires forall k :: k in raw.keys ==> k in raw.entries
    requires forall k :: k in raw.entries ==> raw.entries[k] != [] && InRange(raw.entries[k])
    requires forall x :: 0.0 <= x ==> 0.0 <= sqrt(x)
    ensures Processed(raw.keys, raw.entries, skipMinMax, sqrt).Ok?
    ensures var m := Processed(raw.keys, raw.entries, skipMinMax, sqrt).value;
      forall k :: k in m ==> 0.0 <= m[k].avg && 0.0 <= m[k].std
  {
    forall k | k in raw.keys ensures MeasureOf(raw.entries[k], skipMinMax, sqrt).Ok? {
      TrimmingEffect(raw.entries[k], skipMinMax, sqrt);
    }
    ProcessedOkIff(raw.keys, raw.entries, skipMinMax, sqrt);
    ProcessedContents(raw.keys, raw.entries, skipMinMax, sqrt);
    var m := Processed(raw.keys, raw.entries, skipMinMax, sqrt).value;
    forall k | k in m ensures 0.0 <= m[k].avg && 0.0 <= m[k].std {
      var s := raw.entries[k];
      TrimmingEffect(s, skipMinMax, sqrt);
      var t := MeasureOf(s, skipMinMax, sqrt).value.1;
      StatsBounds(s, sqrt);
      if skipMinMax && |s| >= 3 {
        assert forall x :: x in multiset(t) ==> x in multiset(s);
        assert InRange(t) by {
          forall i | 0 <= i < |t| ensures 0.0 <= t[i] <= FLOAT_MAX {
            assert t[i] in multiset(t);
          }
        }
        StatsBounds(t, sqrt);
      }
    }
  }
}
