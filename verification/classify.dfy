/** Comparing a before run with an after run (`main`,
    fps-analysis/report-fps-traces.py): which shared traces were helped or
    hurt beyond the threshold, the totals over all shared traces and over
    the affected ones, which traces were lost or gained, and the order
    the lists are printed in. Only the `fps_avg`
    measurement exists, so the loop over measurements runs once. */
module Classify {
  import opened Wrappers
  import opened Text
  import opened Dicts
  import opened Aggregate
  import opened ReportFormat

  /** The command-line switches that reach the comparison. */
  datatype Options = Options(
    threshold: real,
    summaryOnly: bool,
    skipMinMax: bool,
    skipGfxrecon: bool,
    skipApitrace: bool,
    showStdDeviation: bool)

  // ---------------------------------------------------------------------
  // File extensions
  // ---------------------------------------------------------------------

  /** The position of the last `c` among the first `n` characters, or -1. */
  function LastIndex(s: string, c: char, n: nat): (i: int)
    requires n <= |s|
    ensures -1 <= i < n
  {
    if n == 0 then -1
    else if s[n - 1] == c then n - 1
    else LastIndex(s, c, n - 1)
  }

  /** The position found holds `c`, and none of the positions after it
      (below `n`) does. */
  lemma {:induction false} LastIndexIsLast(s: string, c: char, n: nat)
    requires n <= |s|
    ensures var i := LastIndex(s, c, n);
      (i >= 0 ==> s[i] == c) && forall j :: i < j < n ==> s[j] != c
  {
    if n > 0 && s[n - 1] != c {
      LastIndexIsLast(s, c, n - 1);
    }
  }

  /** The last component of a path: the text after the last '/'. */
  function BaseName(p: string): string
  {
    p[LastIndex(p, '/', |p|) + 1..]
  }

  /** The base name is a '/'-free tail of the path, preceded by a '/'
      unless it is the whole path. */
  lemma BaseNameIsLastComponent(p: string)
    ensures var r := BaseName(p);
      && '/' !in r
      && |r| <= |p| && r == p[|p| - |r|..]
      && (|r| < |p| ==> p[|p| - |r| - 1] == '/')
  {
    LastIndexIsLast(p, '/', |p|);
    var k := LastIndex(p, '/', |p|) + 1;
    forall x | x in p[k..] ensures x != '/' {
      var j :| 0 <= j < |p| - k && p[k..][j] == x;
      assert p[k + j] == x;
    }
  }

  /** The position of the last '.', or -1. */
  function LastDot(name: string): (i: int)
    ensures -1 <= i < |name|
  {
    LastIndex(name, '.', |name|)
  }

  /** The suffix of a file name: from its last dot on, provided that dot
      is neither the first nor the last character of the name. */
  function NameSuffix(name: string): string
  {
    var i := LastDot(name);
    if 0 < i < |name| - 1 then name[i..] else ""
  }

  /** The path without the trailing '/' separators and "." components
      that pathlib drops when it splits a path into parts. */
  function TrimTrailing(p: string): (r: string)
    ensures |r| <= |p| && r == p[..|r|]
    ensures r == [] || (r[|r| - 1] != '/' && !(|r| >= 2 && r[|r| - 2..] == "/."))
    ensures forall i :: |r| <= i < |p| ==> p[i] == '/' || p[i] == '.'
    decreases |p|
  {
    if |p| > 0 && p[|p| - 1] == '/' then TrimTrailing(p[..|p| - 1])
    else if |p| >= 2 && p[|p| - 2..] == "/." then TrimTrailing(p[..|p| - 2])
    else p
  }

  /** `pathlib.Path(p).name`: the last component that is neither empty nor ".". */
  function Name(p: string): string
  {
    BaseName(TrimTrailing(p))
  }

  /** A trailing separator or "." component does not change the name. */
  lemma NameIgnoresTrailing(p: string)
    ensures Name(p + "/") == Name(p)
    ensures Name(p + "/.") == Name(p)
  {
    var q := p + "/";
    assert q[|q| - 1] == '/' && q[..|q| - 1] == p;
    assert TrimTrailing(q) == TrimTrailing(p);
    var q' := p + "/.";
    assert q'[|q'| - 1] != '/' && q'[|q'| - 2..] == "/." && q'[..|q'| - 2] == p;
    assert TrimTrailing(q') == TrimTrailing(p);
  }

  /** `pathlib.Path(p).suffix`. */
  function Suffix(p: string): string
  {
    NameSuffix(Name(p))
  }

  /** For an extension such as ".gfxr", a path has that suffix exactly when
      its name ends with it and has something before it. */
  lemma SuffixIs(p: string, ext: string)
    requires |ext| >= 2 && ext[0] == '.'
    requires forall m :: 1 <= m < |ext| ==> ext[m] != '.'
    ensures Suffix(p) == ext <==>
      var name := Name(p); |name| > |ext| && name[|name| - |ext|..] == ext
  {
    NameSuffixIs(Name(p), ext);
  }

  lemma NameSuffixIs(name: string, ext: string)
    requires |ext| >= 2 && ext[0] == '.'
    requires forall m :: 1 <= m < |ext| ==> ext[m] != '.'
    ensures NameSuffix(name) == ext <==> |name| > |ext| && name[|name| - |ext|..] == ext
  {
    var i := LastDot(name);
    LastIndexIsLast(name, '.', |name|);
    if |name| > |ext| && name[|name| - |ext|..] == ext {
      var j := |name| - |ext|;
      assert name[j] == '.';
      assert forall m :: j < m < |name| ==> name[m] == ext[m - j];
      assert i == j;
    }
  }

  /** The trace is left out of the comparison because of its extension. */
  predicate Skipped(p: string, opts: Options)
  {
    (Suffix(p) == ".gfxr" && opts.skipGfxrecon) || (Suffix(p) == ".trace" && opts.skipApitrace)
  }

  // ---------------------------------------------------------------------
  // Classification of one trace
  // ---------------------------------------------------------------------

  /** `abs(after / before - 1.0) > threshold`, for a non-zero before average. */
  predicate Affected(b: Measure, a: Measure, threshold: real)
  {
    b.avg != 0.0 && Abs(a.avg / b.avg - 1.0) > threshold
  }

  /** `[a.avg, a.std] > [b.avg, b.std]`: Python compares lists element by element. */
  predicate ListGreater(a: Measure, b: Measure)
  {
    a.avg > b.avg || (a.avg == b.avg && a.std > b.std)
  }

  /** The groups a trace of the before run can fall into. */
  datatype Group = Compared | AffectedGroup | Helped | Hurt

  /** The trace is in both runs and not skipped, and, for the narrower
      groups, affected, and better or not better after. */
  predicate InGroup(g: Group, k: string, before: map<string, Measure>, after: map<string, Measure>,
                    opts: Options)
  {
    && k in before && k in after && !Skipped(k, opts)
    && match g
       case Compared => true
       case AffectedGroup => Affected(before[k], after[k], opts.threshold)
       case Helped => Affected(before[k], after[k], opts.threshold) && ListGreater(after[k], before[k])
       case Hurt => Affected(before[k], after[k], opts.threshold) && !ListGreater(after[k], before[k])
  }

  /** The traces of `keys` in group `g`, in the order of `keys`. */
  function Select(g: Group, keys: seq<string>, before: map<string, Measure>, after: map<string, Measure>,
                  opts: Options): (r: seq<string>)
    ensures |r| <= |keys|
  {
    if keys == [] then []
    else
      var k := keys[|keys| - 1];
      Select(g, keys[..|keys| - 1], before, after, opts) + (if InGroup(g, k, before, after, opts) then [k] else [])
  }

  /** The sum of the averages in `m` of `ks` (every compared trace is in
      both runs; a name missing from `m` would add nothing). */
  function SumAvg(ks: seq<string>, m: map<string, Measure>): real
  {
    if ks == [] then 0.0
    else SumAvg(ks[..|ks| - 1], m) + (var k := ks[|ks| - 1]; if k in m then m[k].avg else 0.0)
  }

  lemma SumAvgAppend(ks: seq<string>, k: string, m: map<string, Measure>)
    ensures SumAvg(ks + [k], m) == SumAvg(ks, m) + (if k in m then m[k].avg else 0.0)
  {
    assert (ks + [k])[..|ks|] == ks;
  }

  /** One more trace extends each group by that trace when it belongs. */
  lemma SelectStep(g: Group, keys: seq<string>, i: nat, before: map<string, Measure>,
                   after: map<string, Measure>, opts: Options)
    requires i < |keys|
    ensures InGroup(g, keys[i], before, after, opts) ==>
      Select(g, keys[..i + 1], before, after, opts) == Select(g, keys[..i], before, after, opts) + [keys[i]]
    ensures !InGroup(g, keys[i], before, after, opts) ==>
      Select(g, keys[..i + 1], before, after, opts) == Select(g, keys[..i], before, after, opts)
  {
    assert keys[..i + 1][..i] == keys[..i];
    assert Select(g, keys[..i], before, after, opts) + [] == Select(g, keys[..i], before, after, opts);
  }

  /** Some compared trace has a zero before average, so `after / before` raises. */
  predicate DividesByZero(keys: seq<string>, before: map<string, Measure>, after: map<string, Measure>,
                          opts: Options)
  {
    exists i :: 0 <= i < |keys| && InGroup(Compared, keys[i], before, after, opts) && before[keys[i]].avg == 0.0
  }

  /** What the comparison loop produces. */
  datatype Tally = Tally(
    helped: seq<string>,
    hurt: seq<string>,
    totalBefore: real,
    totalAfter: real,
    affectedBefore: real,
    affectedAfter: real)

  /** The outcome of comparing the runs, trace by trace in `keys` order. */
  function Classification(keys: seq<string>, before: map<string, Measure>, after: map<string, Measure>,
                          opts: Options): Result<Tally>
  {
    if DividesByZero(keys, before, after, opts) then Err(ZeroDivisionError)
    else
      var compared := Select(Compared, keys, before, after, opts);
      var affected := Select(AffectedGroup, keys, before, after, opts);
      Ok(Tally(
        Select(Helped, keys, before, after, opts),
        Select(Hurt, keys, before, after, opts),
        SumAvg(compared, before), SumAvg(compared, after),
        SumAvg(affected, before), SumAvg(affected, after)))
  }

  /** A trace is selected exactly when it is one of `keys` and in the group. */
  lemma {:induction false} SelectIn(g: Group, keys: seq<string>, before: map<string, Measure>,
                                    after: map<string, Measure>, opts: Options)
    ensures forall k :: k in Select(g, keys, before, after, opts) <==> k in keys && InGroup(g, k, before, after, opts)
  {
    if keys != [] {
      var prefix := keys[..|keys| - 1];
      SelectIn(g, prefix, before, after, opts);
      assert keys == prefix + [keys[|keys| - 1]];
    }
  }

  /** A prefix raises exactly when a shorter prefix raises or the new trace
      is compared with a zero before average. */
  lemma DividesByZeroStep(keys: seq<string>, i: nat, before: map<string, Measure>, after: map<string, Measure>,
                          opts: Options)
    requires i < |keys|
    ensures DividesByZero(keys[..i + 1], before, after, opts)
            <==> DividesByZero(keys[..i], before, after, opts)
                 || (InGroup(Compared, keys[i], before, after, opts) && before[keys[i]].avg == 0.0)
  {
    var ks := keys[..i + 1];
    assert ks[..i] == keys[..i];
    assert ks[i] == keys[i];
  }

  /** One pass of the loop of `main`: a skipped trace or one missing from
      the after run changes nothing; otherwise the trace is compared. */
  function Step(t: Tally, k: string, before: map<string, Measure>, after: map<string, Measure>,
                opts: Options): Result<Tally>
  {
    if Skipped(k, opts) || k !in before || k !in after then Ok(t)
    else Compare(t, k, before[k], after[k], opts.threshold)
  }

  /** Comparing a trace present in both runs: the totals grow, the ratio
      of the averages is taken (raising for a zero before average), and an
      affected trace adds to the affected totals and to helped or hurt. */
  function Compare(t: Tally, k: string, b: Measure, a: Measure, threshold: real): Result<Tally>
  {
    if b.avg == 0.0 then Err(ZeroDivisionError)
    else
      var totals := t.(totalBefore := t.totalBefore + b.avg, totalAfter := t.totalAfter + a.avg);
      if !Affected(b, a, threshold) then Ok(totals)
      else
        var affected := totals.(affectedBefore := t.affectedBefore + b.avg, affectedAfter := t.affectedAfter + a.avg);
        if ListGreater(a, b) then Ok(affected.(helped := t.helped + [k]))
        else Ok(affected.(hurt := t.hurt + [k]))
  }

  /** The loop run over `keys`, starting from nothing. */
  function Classified(keys: seq<string>, before: map<string, Measure>, after: map<string, Measure>,
                      opts: Options): Result<Tally>
  {
    if keys == [] then Ok(Tally([], [], 0.0, 0.0, 0.0, 0.0))
    else match Classified(keys[..|keys| - 1], before, after, opts)
      case Err(e) => Err(e)
      case Ok(t) => Step(t, keys[|keys| - 1], before, after, opts)
  }

  /** Running the loop gives the classification described group by group. */
  lemma {:induction false} ClassifiedIsClassification(keys: seq<string>, before: map<string, Measure>,
                                                      after: map<string, Measure>, opts: Options)
    ensures Classified(keys, before, after, opts) == Classification(keys, before, after, opts)
  {
    if keys != [] {
      var n := |keys| - 1;
      var k := keys[n];
      assert keys[..n + 1] == keys;
      ClassifiedIsClassification(keys[..n], before, after, opts);
      DividesByZeroStep(keys, n, before, after, opts);
      if !DividesByZero(keys, before, after, opts) {
        SelectStep(Compared, keys, n, before, after, opts);
        SelectStep(AffectedGroup, keys, n, before, after, opts);
        SelectStep(Helped, keys, n, before, after, opts);
        SelectStep(Hurt, keys, n, before, after, opts);
        SumAvgAppend(Select(Compared, keys[..n], before, after, opts), k, before);
        SumAvgAppend(Select(Compared, keys[..n], before, after, opts), k, after);
        SumAvgAppend(Select(AffectedGroup, keys[..n], before, after, opts), k, before);
        SumAvgAppend(Select(AffectedGroup, keys[..n], before, after, opts), k, after);
      }
    }
  }

  /** The loop of `main` over the before traces. */
  method ClassifyRuns(before: Dict<Measure>, after: Dict<Measure>, opts: Options) returns (r: Result<Tally>)
    requires forall i :: 0 <= i < |before.keys| ==> before.keys[i] in before.entries
    ensures r == Classification(before.keys, before.entries, after.entries, opts)
  {
    var b, a := before.entries, after.entries;
    var keys := before.keys;
    var helped: seq<string> := [];
    var hurt: seq<string> := [];
    var totalBefore, totalAfter, affectedBefore, affectedAfter := 0.0, 0.0, 0.0, 0.0;
    var i := 0;
    while i < |keys|
      invariant 0 <= i <= |keys|
      invariant Classified(keys[..i], b, a, opts) == Ok(Tally(helped, hurt, totalBefore, totalAfter, affectedBefore, affectedAfter))
    {
      var p := keys[i];
      ghost var t := Tally(helped, hurt, totalBefore, totalAfter, affectedBefore, affectedAfter);
      ClassifiedSnoc(keys, i, b, a, opts);
      if Suffix(p) == ".gfxr" && opts.skipGfxrecon {
        assert Skipped(p, opts);
        assert Classified(keys[..i + 1], b, a, opts) == Ok(t);
        i := i + 1;
        continue;
      }
      if Suffix(p) == ".trace" && opts.skipApitrace {
        assert Skipped(p, opts);
        assert Classified(keys[..i + 1], b, a, opts) == Ok(t);
        i := i + 1;
        continue;
      }
      assert !Skipped(p, opts);
      var beforeCount := b[p];
      if p !in a {
        assert Classified(keys[..i + 1], b, a, opts) == Ok(t);
        i := i + 1;
        continue;
      }
      var afterCount := a[p];
      assert Step(t, p, b, a, opts) == Compare(t, p, beforeCount, afterCount, opts.threshold);
      totalBefore := totalBefore + beforeCount.avg;
      totalAfter := totalAfter + afterCount.avg;
      if beforeCount.avg == 0.0 {
        ClassifiedFailureSticks(keys, i + 1, b, a, opts);
        ClassifiedIsClassification(keys, b, a, opts);
        return Err(ZeroDivisionError);
      }
      var kk := afterCount.avg / beforeCount.avg;
      assert Affected(beforeCount, afterCount, opts.threshold) <==> Abs(kk - 1.0) > opts.threshold;
      if Abs(kk - 1.0) > opts.threshold {
        affectedBefore := affectedBefore + beforeCount.avg;
        affectedAfter := affectedAfter + afterCount.avg;
        if ListGreater(afterCount, beforeCount) {
          helped := helped + [p];
        } else {
          hurt := hurt + [p];
        }
      }
      assert Compare(t, p, beforeCount, afterCount, opts.threshold)
             == Ok(Tally(helped, hurt, totalBefore, totalAfter, affectedBefore, affectedAfter));
      assert Classified(keys[..i + 1], b, a, opts)
             == Ok(Tally(helped, hurt, totalBefore, totalAfter, affectedBefore, affectedAfter));
      i := i + 1;
    }
    assert keys[..i] == keys;
    ClassifiedIsClassification(keys, b, a, opts);
    r := Ok(Tally(helped, hurt, totalBefore, totalAfter, affectedBefore, affectedAfter));
  }

  /** One more trace runs one more step of the loop. */
  lemma ClassifiedSnoc(keys: seq<string>, i: nat, before: map<string, Measure>, after: map<string, Measure>,
                       opts: Options)
    requires i < |keys| && Classified(keys[..i], before, after, opts).Ok?
    ensures Classified(keys[..i + 1], before, after, opts)
            == Step(Classified(keys[..i], before, after, opts).value, keys[i], before, after, opts)
  {
    assert keys[..i + 1][..i] == keys[..i];
  }

  /** Once a prefix raises, the whole loop raises the same. */
  lemma {:induction false} ClassifiedFailureSticks(keys: seq<string>, n: nat, before: map<string, Measure>,
                                                   after: map<string, Measure>, opts: Options)
    requires n <= |keys|
    requires Classified(keys[..n], before, after, opts).Err?
    ensures Classified(keys, before, after, opts) == Classified(keys[..n], before, after, opts)
    decreases |keys| - n
  {
    if n < |keys| {
      assert keys[..n + 1][..n] == keys[..n];
      ClassifiedFailureSticks(keys, n + 1, before, after, opts);
    } else {
      assert keys[..n] == keys;
    }
  }

  // ---------------------------------------------------------------------
  // Properties of the classification
  // ---------------------------------------------------------------------

  /** The comparison raises exactly when a compared trace has a zero
      before average; otherwise helped and hurt are disjoint, and a trace
      is in one of them exactly when it is compared and its relative change
      exceeds the threshold: in helped when its after values compare
      greater as a list, in hurt otherwise. */
  lemma HelpedHurtPartition(keys: seq<string>, before: map<string, Measure>, after: map<string, Measure>,
                            opts: Options)
    ensures Classification(keys, before, after, opts).Err?
            <==> exists k :: k in keys && k in before && k in after && !Skipped(k, opts) && before[k].avg == 0.0
    ensures Classification(keys, before, after, opts).Ok? ==>
      var t := Classification(keys, before, after, opts).value;
      forall k ::
        && (k in t.helped <==> k in keys && InGroup(Compared, k, before, after, opts)
                               && Affected(before[k], after[k], opts.threshold) && ListGreater(after[k], before[k]))
        && (k in t.hurt <==> k in keys && InGroup(Compared, k, before, after, opts)
                             && Affected(before[k], after[k], opts.threshold) && !ListGreater(after[k], before[k]))
        && !(k in t.helped && k in t.hurt)
  {
    SelectIn(Helped, keys, before, after, opts);
    SelectIn(Hurt, keys, before, after, opts);
    if DividesByZero(keys, before, after, opts) {
      var i :| 0 <= i < |keys| && InGroup(Compared, keys[i], before, after, opts) && before[keys[i]].avg == 0.0;
      assert keys[i] in keys;
    }
  }

  /** With a non-negative threshold the list comparison reduces to the
      averages: a trace is helped exactly when its after average is larger. */
  lemma HelpedMeansFaster(keys: seq<string>, before: map<string, Measure>, after: map<string, Measure>,
                          opts: Options)
    requires opts.threshold >= 0.0
    requires Classification(keys, before, after, opts).Ok?
    ensures var t := Classification(keys, before, after, opts).value;
      forall k ::
        && (k in t.helped <==> k in keys && InGroup(AffectedGroup, k, before, after, opts) && after[k].avg > before[k].avg)
        && (k in t.hurt <==> k in keys && InGroup(AffectedGroup, k, before, after, opts) && after[k].avg < before[k].avg)
  {
    HelpedHurtPartition(keys, before, after, opts);
    forall k | k in before && k in after && Affected(before[k], after[k], opts.threshold)
      ensures after[k].avg != before[k].avg
    {
      var b, a := before[k].avg, after[k].avg;
      assert a / b != 1.0;
      assert b / b == 1.0;
    }
  }

  /** Raising the threshold never adds a trace to helped or hurt; whether
      the comparison raises does not depend on the threshold. */
  lemma ThresholdMonotone(keys: seq<string>, before: map<string, Measure>, after: map<string, Measure>,
                          opts: Options, higher: real)
    requires opts.threshold <= higher
    ensures var raised := opts.(threshold := higher);
      && (Classification(keys, before, after, opts).Ok? <==> Classification(keys, before, after, raised).Ok?)
      && (Classification(keys, before, after, opts).Ok? ==>
            var t, u := Classification(keys, before, after, opts).value, Classification(keys, before, after, raised).value;
            (forall k :: k in u.helped ==> k in t.helped) && (forall k :: k in u.hurt ==> k in t.hurt))
  {
    var raised := opts.(threshold := higher);
    assert forall k :: Skipped(k, raised) == Skipped(k, opts);
    assert DividesByZero(keys, before, after, opts) == DividesByZero(keys, before, after, raised);
    HelpedHurtPartition(keys, before, after, opts);
    HelpedHurtPartition(keys, before, after, raised);
  }

  /** Over traces whose averages are not negative, the sum over the
      affected traces is at most the sum over the compared ones. */
  lemma {:induction false} AffectedSumBounded(keys: seq<string>, m: map<string, Measure>,
                                              before: map<string, Measure>, after: map<string, Measure>,
                                              opts: Options)
    requires forall k :: k in m ==> m[k].avg >= 0.0
    ensures 0.0 <= SumAvg(Select(AffectedGroup, keys, before, after, opts), m)
            <= SumAvg(Select(Compared, keys, before, after, opts), m)
  {
    if keys != [] {
      var n := |keys| - 1;
      var k := keys[n];
      AffectedSumBounded(keys[..n], m, before, after, opts);
      SelectStep(Compared, keys, n, before, after, opts);
      SelectStep(AffectedGroup, keys, n, before, after, opts);
      assert keys[..n + 1] == keys;
      SumAvgAppend(Select(Compared, keys[..n], before, after, opts), k, m);
      SumAvgAppend(Select(AffectedGroup, keys[..n], before, after, opts), k, m);
    }
  }

  /** The affected totals are sums over a subset of the terms of the
      totals, so with non-negative frame rates they never exceed them. */
  lemma AffectedTotalsBounded(keys: seq<string>, before: map<string, Measure>, after: map<string, Measure>,
                              opts: Options)
    requires forall k :: k in before ==> before[k].avg >= 0.0
    requires forall k :: k in after ==> after[k].avg >= 0.0
    requires Classification(keys, before, after, opts).Ok?
    ensures var t := Classification(keys, before, after, opts).value;
      0.0 <= t.affectedBefore <= t.totalBefore && 0.0 <= t.affectedAfter <= t.totalAfter
  {
    AffectedSumBounded(keys, before, before, after, opts);
    AffectedSumBounded(keys, after, before, after, opts);
  }

  // ---------------------------------------------------------------------
  // Lost and gained traces
  // ---------------------------------------------------------------------

  /** The keys of `keys` that `other` lacks, in order. */
  function Missing(keys: seq<string>, other: map<string, Measure>): (r: seq<string>)
    ensures |r| <= |keys|
  {
    if keys == [] then []
    else
      var k := keys[|keys| - 1];
      Missing(keys[..|keys| - 1], other) + (if k !in other then [k] else [])
  }

  /** A key is missing exactly when it is one of `keys` and `other` lacks it. */
  lemma {:induction false} MissingIn(keys: seq<string>, other: map<string, Measure>)
    ensures forall k :: k in Missing(keys, other) <==> k in keys && k !in other
  {
    if keys != [] {
      MissingIn(keys[..|keys| - 1], other);
      assert keys == keys[..|keys| - 1] + [keys[|keys| - 1]];
    }
  }

  /** One of the two loops of `main` that collect lost and gained traces:
      the keys of one run, in order, that the other run lacks. */
  method CollectMissing(keys: seq<string>, other: map<string, Measure>) returns (missing: seq<string>)
    ensures missing == Missing(keys, other)
  {
    missing := [];
    var i := 0;
    while i < |keys|
      invariant 0 <= i <= |keys|
      invariant missing == Missing(keys[..i], other)
    {
      assert keys[..i + 1][..i] == keys[..i];
      assert Missing(keys[..i + 1], other) == missing + (if keys[i] !in other then [keys[i]] else []);
      if keys[i] !in other {
        missing := missing + [keys[i]];
      }
      i := i + 1;
    }
    assert keys[..i] == keys;
  }

  /** Lost traces are those of the before run missing from the after run;
      gained traces the reverse. */
  method LostAndGained(before: Dict<Measure>, after: Dict<Measure>) returns (lost: seq<string>, gained: seq<string>)
    ensures lost == Missing(before.keys, after.entries)
    ensures gained == Missing(after.keys, before.entries)
  {
    lost := CollectMissing(before.keys, after.entries);
    gained := CollectMissing(after.keys, before.entries);
  }

  /** Lost is exactly the traces of the before run missing from the after
      run, gained the reverse; the two never share a trace. Skipping by
      extension plays no part, so skipped traces can be lost or gained. */
  lemma LostGainedSets(before: Dict<Measure>, after: Dict<Measure>)
    requires before.Valid() && after.Valid()
    ensures var lost, gained := Missing(before.keys, after.entries), Missing(after.keys, before.entries);
      && (forall k :: k in lost <==> k in before.entries && k !in after.entries)
      && (forall k :: k in gained <==> k in after.entries && k !in before.entries)
      && (forall k :: !(k in lost && k in gained))
  {
    MissingIn(before.keys, after.entries);
    MissingIn(after.keys, before.entries);
  }

  // ---------------------------------------------------------------------
  // Order of the per-trace lines
  // ---------------------------------------------------------------------

  /** The sort keys of `main`: for helped traces `(before - after) / before`,
      for hurt ones `(after - before) / before`. The source's other branch,
      for a zero before average, cannot be taken: that trace already raised
      at the division. */
  function SortKey(k: string, before: map<string, Measure>, after: map<string, Measure>, helped: bool): real
  {
    if k in before && k in after && before[k].avg != 0.0 then
      if helped then (before[k].avg - after[k].avg) / before[k].avg
      else (after[k].avg - before[k].avg) / before[k].avg
    else 0.0
  }

  /** Each element's key is at most the next one's. */
  predicate SortedBy(s: seq<string>, before: map<string, Measure>, after: map<string, Measure>, helped: bool)
  {
    forall i, j :: 0 <= i < j < |s| ==> SortKey(s[i], before, after, helped) <= SortKey(s[j], before, after, helped)
  }

  /** Place `k` after every trailing element whose key is larger. */
  function Insert(k: string, s: seq<string>, before: map<string, Measure>, after: map<string, Measure>,
                  helped: bool): (r: seq<string>)
    ensures multiset(r) == multiset(s) + multiset{k}
    ensures forall x :: x in r <==> x in s || x == k
  {
    if s == [] then [k]
    else if SortKey(s[|s| - 1], before, after, helped) <= SortKey(k, before, after, helped) then s + [k]
    else
      assert s == s[..|s| - 1] + [s[|s| - 1]];
      Insert(k, s[..|s| - 1], before, after, helped) + [s[|s| - 1]]
  }

  /** Inserting into a sorted list keeps it sorted. */
  lemma {:induction false} InsertSorted(k: string, s: seq<string>, before: map<string, Measure>,
                                        after: map<string, Measure>, helped: bool)
    requires SortedBy(s, before, after, helped)
    ensures SortedBy(Insert(k, s, before, after, helped), before, after, helped)
  {
    if s != [] {
      var last, init := s[|s| - 1], s[..|s| - 1];
      var key := SortKey(last, before, after, helped);
      if key > SortKey(k, before, after, helped) {
        InsertSorted(k, init, before, after, helped);
        var front := Insert(k, init, before, after, helped);
        forall i | 0 <= i < |front|
          ensures SortKey(front[i], before, after, helped) <= key
        {
          var x := front[i];
          assert x in front;
          if x != k {
            assert x in init;
            var j :| 0 <= j < |init| && init[j] == x;
            assert s[j] == x;
          }
        }
      }
    }
  }

  /** `list.sort(key=...)`: a stable sort by the key, as an insertion sort. */
  function SortBy(s: seq<string>, before: map<string, Measure>, after: map<string, Measure>,
                  helped: bool): (r: seq<string>)
    ensures multiset(r) == multiset(s)
    ensures SortedBy(r, before, after, helped)
  {
    if s == [] then []
    else
      assert s == s[..|s| - 1] + [s[|s| - 1]];
      var sorted := SortBy(s[..|s| - 1], before, after, helped);
      InsertSorted(s[|s| - 1], sorted, before, after, helped);
      Insert(s[|s| - 1], sorted, before, after, helped)
  }

  /** The elements whose key is `v`, in their order in `s`. */
  function WithKey(s: seq<string>, v: real, before: map<string, Measure>, after: map<string, Measure>,
                   helped: bool): seq<string>
  {
    if s == [] then []
    else
      var last := s[|s| - 1];
      WithKey(s[..|s| - 1], v, before, after, helped)
      + (if SortKey(last, before, after, helped) == v then [last] else [])
  }

  /** Appending one element extends the list of its key. */
  lemma WithKeySnoc(s: seq<string>, x: string, v: real, before: map<string, Measure>,
                    after: map<string, Measure>, helped: bool)
    ensures WithKey(s + [x], v, before, after, helped)
            == WithKey(s, v, before, after, helped) + (if SortKey(x, before, after, helped) == v then [x] else [])
  {
    assert (s + [x])[..|s|] == s;
  }

  /** Inserting `k` puts it after every element with the same key. */
  lemma {:induction false} InsertKeepsOrder(k: string, s: seq<string>, v: real, before: map<string, Measure>,
                                            after: map<string, Measure>, helped: bool)
    ensures WithKey(Insert(k, s, before, after, helped), v, before, after, helped)
            == WithKey(s, v, before, after, helped)
               + (if SortKey(k, before, after, helped) == v then [k] else [])
  {
    if s == [] {
      WithKeySnoc([], k, v, before, after, helped);
    } else {
      var last, init := s[|s| - 1], s[..|s| - 1];
      var keyK, keyL := SortKey(k, before, after, helped), SortKey(last, before, after, helped);
      var mine := if keyK == v then [k] else [];
      var theirs := if keyL == v then [last] else [];
      if keyL <= keyK {
        assert Insert(k, s, before, after, helped) == s + [k];
        WithKeySnoc(s, k, v, before, after, helped);
      } else {
        var front := Insert(k, init, before, after, helped);
        assert Insert(k, s, before, after, helped) == front + [last];
        InsertKeepsOrder(k, init, v, before, after, helped);
        WithKeySnoc(front, last, v, before, after, helped);
        var rest := WithKey(init, v, before, after, helped);
        assert keyK != v || keyL != v;
        calc {
          WithKey(Insert(k, s, before, after, helped), v, before, after, helped);
          WithKey(front + [last], v, before, after, helped);
          WithKey(front, v, before, after, helped) + theirs;
          rest + mine + theirs;
          { SwapAbsent(rest, mine, theirs); }
          rest + theirs + mine;
          WithKey(s, v, before, after, helped) + mine;
        }
      }
    }
  }

  /** Two lists of which one is empty can be appended in either order. */
  lemma SwapAbsent(rest: seq<string>, mine: seq<string>, theirs: seq<string>)
    requires mine == [] || theirs == []
    ensures rest + mine + theirs == rest + theirs + mine
  {
    if mine == [] {
      assert rest + mine == rest;
    } else {
      assert rest + theirs == rest;
    }
  }

  /** The sort is stable: the elements with any one key keep the order
      they had before sorting. */
  lemma {:induction false} SortByStable(s: seq<string>, v: real, before: map<string, Measure>,
                                        after: map<string, Measure>, helped: bool)
    ensures WithKey(SortBy(s, before, after, helped), v, before, after, helped)
            == WithKey(s, v, before, after, helped)
  {
    if s != [] {
      var sorted := SortBy(s[..|s| - 1], before, after, helped);
      SortByStable(s[..|s| - 1], v, before, after, helped);
      InsertKeepsOrder(s[|s| - 1], sorted, v, before, after, helped);
    }
  }

  /** The relative change of a trace's average. */
  function RelativeChange(b: Measure, a: Measure): real
    requires b.avg != 0.0
  {
    Abs(a.avg / b.avg - 1.0)
  }

  /** For a helped trace (after not below before) and a hurt one (after not
      above before) the sort key is the relative change, negated. */
  lemma KeyIsNegatedChange(b: Measure, a: Measure, helped: bool)
    requires b.avg > 0.0
    requires if helped then a.avg >= b.avg else a.avg <= b.avg
    ensures (if helped then (b.avg - a.avg) / b.avg else (a.avg - b.avg) / b.avg) == -RelativeChange(b, a)
  {
    var q := a.avg / b.avg;
    assert q * b.avg == a.avg;
    if helped {
      var d := (b.avg - a.avg) / b.avg;
      assert d * b.avg == b.avg - a.avg;
      assert (d - (1.0 - q)) * b.avg == 0.0;
      assert (q - 1.0) * b.avg >= 0.0;
    } else {
      var d := (a.avg - b.avg) / b.avg;
      assert d * b.avg == a.avg - b.avg;
      assert (d - (q - 1.0)) * b.avg == 0.0;
      assert (q - 1.0) * b.avg <= 0.0;
    }
  }

  /** Every trace of the list is in both runs with a non-zero before
      average, and the larger relative change comes first. */
  predicate ByDecreasingChange(r: seq<string>, before: map<string, Measure>, after: map<string, Measure>)
  {
    forall i, j :: 0 <= i < j < |r| ==> NoSmallerChange(r[i], r[j], before, after)
  }

  /** Both traces are in both runs with a non-zero before average, and
      the first changed at least as much as the second. */
  predicate NoSmallerChange(x: string, y: string, before: map<string, Measure>, after: map<string, Measure>)
  {
    x in before && x in after && y in before && y in after
    && before[x].avg != 0.0 && before[y].avg != 0.0
    && RelativeChange(before[x], after[x]) >= RelativeChange(before[y], after[y])
  }

  /** The trace is in both runs and its sort key is its relative change, negated. */
  predicate ChangeKeyed(k: string, before: map<string, Measure>, after: map<string, Measure>, helped: bool)
  {
    k in before && k in after && before[k].avg != 0.0
    && SortKey(k, before, after, helped) == -RelativeChange(before[k], after[k])
  }

  /** A list sorted by a key that is the negated relative change lists
      the largest relative change first. */
  lemma SortedByChange(r: seq<string>, before: map<string, Measure>, after: map<string, Measure>, helped: bool)
    requires SortedBy(r, before, after, helped)
    requires forall k :: k in r ==> ChangeKeyed(k, before, after, helped)
    ensures ByDecreasingChange(r, before, after)
  {
    forall i, j | 0 <= i < j < |r|
      ensures NoSmallerChange(r[i], r[j], before, after)
    {
      assert r[i] in r && r[j] in r;
      assert ChangeKeyed(r[i], before, after, helped) && ChangeKeyed(r[j], before, after, helped);
      assert SortKey(r[i], before, after, helped) <= SortKey(r[j], before, after, helped);
    }
  }

  /** Sorting a list whose keys are negated relative changes lists it by
      decreasing relative change. */
  lemma SortByChange(s: seq<string>, before: map<string, Measure>, after: map<string, Measure>, helped: bool)
    requires forall k :: k in s ==> ChangeKeyed(k, before, after, helped)
    ensures ByDecreasingChange(SortBy(s, before, after, helped), before, after)
  {
    var r := SortBy(s, before, after, helped);
    forall k | k in r ensures ChangeKeyed(k, before, after, helped) {
      assert k in multiset(r);
    }
    SortedByChange(r, before, after, helped);
  }

  /** Both sort keys put the largest relative change first: with
      non-negative before averages, helped and hurt are each listed by decreasing
      relative change. */
  lemma LargestChangeFirst(keys: seq<string>, before: map<string, Measure>, after: map<string, Measure>,
                           opts: Options, helped: bool)
    requires Classification(keys, before, after, opts).Ok?
    requires forall k :: k in before ==> before[k].avg >= 0.0
    ensures var t := Classification(keys, before, after, opts).value;
      ByDecreasingChange(SortBy(if helped then t.helped else t.hurt, before, after, helped), before, after)
  {
    var t := Classification(keys, before, after, opts).value;
    var s := if helped then t.helped else t.hurt;
    forall k | k in s ensures ChangeKeyed(k, before, after, helped) {
      ListedKey(keys, before, after, opts, helped, k);
    }
    SortByChange(s, before, after, helped);
  }

  /** The sort key of a listed trace is its relative change, negated. */
  lemma ListedKey(keys: seq<string>, before: map<string, Measure>, after: map<string, Measure>,
                  opts: Options, helped: bool, k: string)
    requires Classification(keys, before, after, opts).Ok?
    requires forall k :: k in before ==> before[k].avg >= 0.0
    requires var t := Classification(keys, before, after, opts).value;
      k in (if helped then t.helped else t.hurt)
    ensures ChangeKeyed(k, before, after, helped)
  {
    SelectIn(if helped then Helped else Hurt, keys, before, after, opts);
    HelpedHurtPartition(keys, before, after, opts);
    assert before[k].avg != 0.0;
    KeyIsNegatedChange(before[k], after[k], helped);
  }
}
