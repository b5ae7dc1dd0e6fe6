/** What `main` of fps-analysis/report-fps-traces.py prints, and the whole
    run from the two result files to the printed lines. Each element of a
    report is the text of one `print` call. */
module FpsReport {
  import opened Wrappers
  import opened Text
  import opened Dicts
  import opened Ingest
  import opened Aggregate
  import opened ReportFormat
  import opened Classify

  /** The name of the only measurement. */
  const MEASUREMENT := "fps_avg"

  /** Every average and deviation can go through `format_num`. */
  predicate Printable(m: map<string, Measure>)
  {
    forall k :: k in m ==> m[k].avg >= 0.0 && m[k].std >= 0.0
  }

  /** The line of one trace: its heading, then its result string. */
  function TraceLine(heading: string, k: string, before: map<string, Measure>, after: map<string, Measure>,
                     showStdDeviation: bool): (r: string)
    requires Printable(before) && Printable(after)
    requires k in before && k in after
    ensures |r| > |heading| && r[..|heading|] == heading
  {
    PaddedShape(k);
    heading + ResultString(k, before[k], after[k], showStdDeviation)
  }

  /** One printed line per trace, in the order of `ks`. */
  function TraceLines(heading: string, ks: seq<string>, before: map<string, Measure>, after: map<string, Measure>,
                      showStdDeviation: bool): (r: seq<string>)
    requires Printable(before) && Printable(after)
    requires forall k :: k in ks ==> k in before && k in after
    ensures |r| == |ks|
    ensures forall i :: 0 <= i < |r| ==> r[i] == TraceLine(heading, ks[i], before, after, showStdDeviation)
  {
    seq(|ks|, i requires 0 <= i < |ks| => TraceLine(heading, ks[i], before, after, showStdDeviation))
  }

  /** One printed line per name, in the order of `names`. */
  function NameLines(heading: string, names: seq<string>): (r: seq<string>)
    ensures |r| == |names|
    ensures forall i :: 0 <= i < |r| ==> r[i] == heading + names[i]
  {
    seq(|names|, i requires 0 <= i < |names| => heading + names[i])
  }

  /** A blank line after a non-empty list. */
  function BlankAfter<T>(s: seq<T>): seq<string>
  {
    if s != [] then [""] else []
  }

  /** The headings of the per-trace and per-name lines. */
  const HELPED_HEADING := "fps_avg  helped:  "
  const HURT_HEADING := "fps_avg HURT: "
  const LOST_HEADING := "LOST:   "
  const GAINED_HEADING := "GAINED: "

  /** The summary printed when some trace was helped or hurt. */
  function SummaryText(t: Tally): (r: string)
    requires t.totalBefore >= 0.0 && t.totalAfter >= 0.0 && t.affectedBefore >= 0.0 && t.affectedAfter >= 0.0
    ensures |r| > 6 && r[..6] == "total "
  {
    var allRuns := MEASUREMENT + " in all runs: " + Change(t.totalBefore, t.totalAfter) + "\n";
    var affected := "total " + MEASUREMENT + " in affected (through threshold) runs: "
                    + Change(t.affectedBefore, t.affectedAfter) + "\n";
    var counts := "helped: " + NatToString(|t.helped|) + "\n" + "HURT: " + NatToString(|t.hurt|);
    "total " + (allRuns + affected + counts)
  }

  /** What a report needs of a successful comparison. */
  ghost predicate Reportable(t: Tally, before: map<string, Measure>, after: map<string, Measure>)
  {
    && Printable(before) && Printable(after)
    && (forall k :: k in t.helped || k in t.hurt ==> k in before && k in after)
    && t.totalBefore >= 0.0 && t.totalAfter >= 0.0 && t.affectedBefore >= 0.0 && t.affectedAfter >= 0.0
  }

  /** The helped and then the hurt lines, each list in its sorted order. */
  function TraceSection(t: Tally, before: map<string, Measure>, after: map<string, Measure>, opts: Options): seq<string>
    requires Reportable(t, before, after)
  {
    if opts.summaryOnly then []
    else
      var helped := SortBy(t.helped, before, after, true);
      var hurt := SortBy(t.hurt, before, after, false);
      assert forall k :: k in helped ==> k in multiset(t.helped);
      assert forall k :: k in hurt ==> k in multiset(t.hurt);
      TraceLines(HELPED_HEADING, helped, before, after, opts.showStdDeviation) + BlankAfter(helped)
      + TraceLines(HURT_HEADING, hurt, before, after, opts.showStdDeviation) + BlankAfter(hurt)
  }

  /** The lost and then the gained lines, each list sorted by name. */
  function NameSection(lost: seq<string>, gained: seq<string>, opts: Options): seq<string>
  {
    if opts.summaryOnly then []
    else
      NameLines(LOST_HEADING, SortedNames(set k | k in lost)) + BlankAfter(lost)
      + NameLines(GAINED_HEADING, SortedNames(set k | k in gained)) + BlankAfter(gained)
  }

  /** The closing lines: the two counts when a trace was lost or gained,
      otherwise "No changes." when nothing was helped or hurt either. */
  function Closing(t: Tally, lost: seq<string>, gained: seq<string>): seq<string>
  {
    if lost != [] || gained != [] then [LOST_HEADING + NatToString(|lost|), GAINED_HEADING + NatToString(|gained|)]
    else if t.helped == [] && t.hurt == [] then ["No changes."]
    else []
  }

  /** Everything `main` prints after the comparison, in order. */
  function ReportLines(t: Tally, lost: seq<string>, gained: seq<string>,
                       before: map<string, Measure>, after: map<string, Measure>, opts: Options): seq<string>
    requires Reportable(t, before, after)
  {
    TraceSection(t, before, after, opts)
    + NameSection(lost, gained, opts)
    + SummarySection(t)
    + Closing(t, lost, gained)
  }

  // ---------------------------------------------------------------------
  // Properties of the report
  // ---------------------------------------------------------------------

  /** Every line is blank or starts with one of `cs`. */
  predicate AllLead(lines: seq<string>, cs: set<char>)
  {
    forall i :: 0 <= i < |lines| ==> lines[i] == "" || lines[i][0] in cs
  }

  lemma AllLeadConcat(a: seq<string>, b: seq<string>, cs: set<char>)
    requires AllLead(a, cs) && AllLead(b, cs)
    ensures AllLead(a + b, cs)
  {
    forall i | |a| <= i < |a + b| ensures (a + b)[i] == b[i - |a|] { }
  }

  lemma BlankAfterLeads<T>(s: seq<T>, cs: set<char>)
    ensures AllLead(BlankAfter(s), cs)
  {
  }

  lemma TraceLinesLead(heading: string, ks: seq<string>, before: map<string, Measure>, after: map<string, Measure>,
                       showStdDeviation: bool)
    requires heading != []
    requires Printable(before) && Printable(after)
    requires forall k :: k in ks ==> k in before && k in after
    ensures AllLead(TraceLines(heading, ks, before, after, showStdDeviation), {heading[0]})
  {
    var lines := TraceLines(heading, ks, before, after, showStdDeviation);
    forall i | 0 <= i < |lines| ensures lines[i][0] == heading[0] {
      var line := TraceLine(heading, ks[i], before, after, showStdDeviation);
      assert line[..|heading|][0] == heading[0];
    }
  }

  lemma NameLinesLead(heading: string, names: seq<string>)
    requires heading != []
    ensures AllLead(NameLines(heading, names), {heading[0]})
  {
    var lines := NameLines(heading, names);
    forall i | 0 <= i < |lines| ensures lines[i][0] == heading[0] {
      assert lines[i] == heading + names[i];
    }
  }

  /** Per-trace lines start with the measurement name. */
  lemma TraceSectionLeads(t: Tally, before: map<string, Measure>, after: map<string, Measure>, opts: Options)
    requires Reportable(t, before, after)
    ensures AllLead(TraceSection(t, before, after, opts), {'f'})
  {
    if !opts.summaryOnly {
      var helped := SortBy(t.helped, before, after, true);
      var hurt := SortBy(t.hurt, before, after, false);
      assert forall k :: k in helped ==> k in multiset(t.helped);
      assert forall k :: k in hurt ==> k in multiset(t.hurt);
      var l1 := TraceLines(HELPED_HEADING, helped, before, after, opts.showStdDeviation);
      var l2 := TraceLines(HURT_HEADING, hurt, before, after, opts.showStdDeviation);
      TraceLinesLead(HELPED_HEADING, helped, before, after, opts.showStdDeviation);
      TraceLinesLead(HURT_HEADING, hurt, before, after, opts.showStdDeviation);
      BlankAfterLeads(helped, {'f'});
      BlankAfterLeads(hurt, {'f'});
      AllLeadConcat(l1, BlankAfter(helped), {'f'});
      AllLeadConcat(l1 + BlankAfter(helped), l2, {'f'});
      AllLeadConcat(l1 + BlankAfter(helped) + l2, BlankAfter(hurt), {'f'});
    }
  }

  /** Per-name lines start with the first letter of LOST or GAINED. */
  lemma NameSectionLeads(lost: seq<string>, gained: seq<string>, opts: Options)
    ensures AllLead(NameSection(lost, gained, opts), {'L', 'G'})
  {
    if !opts.summaryOnly {
      var n1 := NameLines(LOST_HEADING, SortedNames(set k | k in lost));
      var n2 := NameLines(GAINED_HEADING, SortedNames(set k | k in gained));
      NameLinesLead(LOST_HEADING, SortedNames(set k | k in lost));
      NameLinesLead(GAINED_HEADING, SortedNames(set k | k in gained));
      var cs := {'L', 'G'};
      assert AllLead(n1, cs) && AllLead(n2, cs);
      BlankAfterLeads(lost, cs);
      BlankAfterLeads(gained, cs);
      AllLeadConcat(n1, BlankAfter(lost), cs);
      AllLeadConcat(n1 + BlankAfter(lost), n2, cs);
      AllLeadConcat(n1 + BlankAfter(lost) + n2, BlankAfter(gained), cs);
    }
  }

  /** A non-empty text starting with none of `cs` is not among lines that
      are blank or start with one of `cs`. */
  lemma NotAmong(s: string, lines: seq<string>, cs: set<char>)
    requires AllLead(lines, cs) && s != [] && s[0] !in cs
    ensures s !in lines
  {
  }

  /** The summary lines: the summary and a blank line, or nothing. */
  function SummarySection(t: Tally): seq<string>
    requires t.totalBefore >= 0.0 && t.totalAfter >= 0.0 && t.affectedBefore >= 0.0 && t.affectedAfter >= 0.0
  {
    if t.helped != [] || t.hurt != [] then [SummaryText(t), ""] else []
  }

  /** A text is printed exactly when one of the four parts prints it. */
  lemma InReport(s: string, t: Tally, lost: seq<string>, gained: seq<string>,
                 before: map<string, Measure>, after: map<string, Measure>, opts: Options)
    requires Reportable(t, before, after)
    ensures s in ReportLines(t, lost, gained, before, after, opts) <==>
      s in TraceSection(t, before, after, opts) || s in NameSection(lost, gained, opts)
      || s in SummarySection(t) || s in Closing(t, lost, gained)
  {
    assert ReportLines(t, lost, gained, before, after, opts)
      == TraceSection(t, before, after, opts) + NameSection(lost, gained, opts) + SummarySection(t) + Closing(t, lost, gained);
  }

  /** A text that starts with none of the leading letters of a part is
      printed only when another part prints it. */
  lemma TraceSectionLacks(s: string, t: Tally, before: map<string, Measure>, after: map<string, Measure>,
                          opts: Options)
    requires Reportable(t, before, after)
    requires s != [] && s[0] != 'f'
    ensures s !in TraceSection(t, before, after, opts)
  {
    TraceSectionLeads(t, before, after, opts);
    NotAmong(s, TraceSection(t, before, after, opts), {'f'});
  }

  lemma NameSectionLacks(s: string, lost: seq<string>, gained: seq<string>, opts: Options)
    requires s != [] && s[0] != 'L' && s[0] != 'G'
    ensures s !in NameSection(lost, gained, opts)
  {
    NameSectionLeads(lost, gained, opts);
    NotAmong(s, NameSection(lost, gained, opts), {'L', 'G'});
  }

  /** "No changes." is printed exactly when no trace was helped, hurt,
      lost or gained. */
  lemma NoChangesIff(t: Tally, lost: seq<string>, gained: seq<string>,
                     before: map<string, Measure>, after: map<string, Measure>, opts: Options)
    requires Reportable(t, before, after)
    ensures "No changes." in ReportLines(t, lost, gained, before, after, opts)
            <==> t.helped == [] && t.hurt == [] && lost == [] && gained == []
  {
    var noChanges := "No changes.";
    assert noChanges[0] == 'N';
    InReport(noChanges, t, lost, gained, before, after, opts);
    TraceSectionLacks(noChanges, t, before, after, opts);
    NameSectionLacks(noChanges, lost, gained, opts);
    SummarySectionLacks(noChanges, t);
    ClosingLeads(t, lost, gained);
  }

  /** The summary is printed exactly when some trace was helped or hurt. */
  lemma SummaryIff(t: Tally, lost: seq<string>, gained: seq<string>,
                   before: map<string, Measure>, after: map<string, Measure>, opts: Options)
    requires Reportable(t, before, after)
    ensures SummaryText(t) in ReportLines(t, lost, gained, before, after, opts) <==> t.helped != [] || t.hurt != []
  {
    var summary := SummaryText(t);
    assert summary[..6][0] == 't';
    InReport(summary, t, lost, gained, before, after, opts);
    TraceSectionLacks(summary, t, before, after, opts);
    NameSectionLacks(summary, lost, gained, opts);
    ClosingLacks(summary, t, lost, gained);
  }

  lemma SummarySectionLacks(s: string, t: Tally)
    requires t.totalBefore >= 0.0 && t.totalAfter >= 0.0 && t.affectedBefore >= 0.0 && t.affectedAfter >= 0.0
    requires s != [] && s[0] != 't'
    ensures s !in SummarySection(t)
  {
    SummarySectionLeads(t);
    NotAmong(s, SummarySection(t), {'t'});
  }

  lemma ClosingLacks(s: string, t: Tally, lost: seq<string>, gained: seq<string>)
    requires s != [] && s[0] != 'L' && s[0] != 'G' && s[0] != 'N'
    ensures s !in Closing(t, lost, gained)
  {
    ClosingLeads(t, lost, gained);
    NotAmong(s, Closing(t, lost, gained), {'L', 'G', 'N'});
  }

  lemma SummarySectionLeads(t: Tally)
    requires t.totalBefore >= 0.0 && t.totalAfter >= 0.0 && t.affectedBefore >= 0.0 && t.affectedAfter >= 0.0
    ensures AllLead(SummarySection(t), {'t'})
  {
    if t.helped != [] || t.hurt != [] {
      var summary := SummaryText(t);
      assert summary[0] == 't' by { assert summary[..6][0] == 't'; }
      LineThenBlankLeads(summary, {'t'});
    }
  }

  lemma LineThenBlankLeads(line: string, cs: set<char>)
    requires line != [] && line[0] in cs
    ensures AllLead([line, ""], cs)
  {
    forall i | 0 <= i < 2 ensures [line, ""][i] == "" || [line, ""][i][0] in cs {
      if i == 0 { assert [line, ""][i] == line; }
    }
  }

  /** The closing lines are the two counts, "No changes." or nothing. */
  lemma ClosingLeads(t: Tally, lost: seq<string>, gained: seq<string>)
    ensures AllLead(Closing(t, lost, gained), {'L', 'G', 'N'})
    ensures "No changes." in Closing(t, lost, gained) <==> t.helped == [] && t.hurt == [] && lost == [] && gained == []
  {
    if lost != [] || gained != [] {
      var l := LOST_HEADING + NatToString(|lost|);
      var g := GAINED_HEADING + NatToString(|gained|);
      assert l[0] == 'L' && g[0] == 'G';
      var noChanges := "No changes.";
      assert noChanges[0] == 'N';
    }
  }

  lemma TraceLinesHave(heading: string, ks: seq<string>, k: string, before: map<string, Measure>,
                       after: map<string, Measure>, showStdDeviation: bool)
    requires Printable(before) && Printable(after)
    requires forall k :: k in ks ==> k in before && k in after
    requires k in ks
    ensures TraceLine(heading, k, before, after, showStdDeviation) in TraceLines(heading, ks, before, after, showStdDeviation)
  {
    var i :| 0 <= i < |ks| && ks[i] == k;
    assert TraceLines(heading, ks, before, after, showStdDeviation)[i] == TraceLine(heading, k, before, after, showStdDeviation);
  }

  lemma NameLinesHave(heading: string, names: seq<string>, k: string)
    requires k in names
    ensures heading + k in NameLines(heading, names)
  {
    var i :| 0 <= i < |names| && names[i] == k;
    assert NameLines(heading, names)[i] == heading + k;
  }

  /** Without --summary-only, a helped or hurt trace has its line. */
  lemma TraceListed(t: Tally, lost: seq<string>, gained: seq<string>,
                    before: map<string, Measure>, after: map<string, Measure>, opts: Options, k: string, helped: bool)
    requires Reportable(t, before, after)
    requires !opts.summaryOnly
    requires k in (if helped then t.helped else t.hurt)
    ensures TraceLine(if helped then HELPED_HEADING else HURT_HEADING, k, before, after, opts.showStdDeviation)
            in ReportLines(t, lost, gained, before, after, opts)
  {
    var sorted := SortBy(if helped then t.helped else t.hurt, before, after, helped);
    var heading := if helped then HELPED_HEADING else HURT_HEADING;
    assert forall k :: k in sorted ==> k in multiset(if helped then t.helped else t.hurt);
    assert k in multiset(sorted);
    TraceLinesHave(heading, sorted, k, before, after, opts.showStdDeviation);
    var lines := TraceLines(heading, sorted, before, after, opts.showStdDeviation);
    var helpedSorted := SortBy(t.helped, before, after, true);
    var hurtSorted := SortBy(t.hurt, before, after, false);
    assert forall k :: k in helpedSorted ==> k in multiset(t.helped);
    assert forall k :: k in hurtSorted ==> k in multiset(t.hurt);
    assert TraceSection(t, before, after, opts)
      == TraceLines(HELPED_HEADING, helpedSorted, before, after, opts.showStdDeviation) + BlankAfter(helpedSorted)
         + TraceLines(HURT_HEADING, hurtSorted, before, after, opts.showStdDeviation) + BlankAfter(hurtSorted);
    InReport(TraceLine(heading, k, before, after, opts.showStdDeviation), t, lost, gained, before, after, opts);
  }

  /** Without --summary-only, every helped and every hurt trace has its line. */
  lemma EveryTraceListed(t: Tally, lost: seq<string>, gained: seq<string>,
                         before: map<string, Measure>, after: map<string, Measure>, opts: Options)
    requires Reportable(t, before, after)
    requires !opts.summaryOnly
    ensures var lines := ReportLines(t, lost, gained, before, after, opts);
      && (forall k :: k in t.helped ==> TraceLine(HELPED_HEADING, k, before, after, opts.showStdDeviation) in lines)
      && (forall k :: k in t.hurt ==> TraceLine(HURT_HEADING, k, before, after, opts.showStdDeviation) in lines)
  {
    forall k | k in t.helped
      ensures TraceLine(HELPED_HEADING, k, before, after, opts.showStdDeviation) in ReportLines(t, lost, gained, before, after, opts)
    {
      TraceListed(t, lost, gained, before, after, opts, k, true);
    }
    forall k | k in t.hurt
      ensures TraceLine(HURT_HEADING, k, before, after, opts.showStdDeviation) in ReportLines(t, lost, gained, before, after, opts)
    {
      TraceListed(t, lost, gained, before, after, opts, k, false);
    }
  }

  /** Without --summary-only, every lost and every gained trace has its line. */
  lemma EveryNameListed(t: Tally, lost: seq<string>, gained: seq<string>,
                        before: map<string, Measure>, after: map<string, Measure>, opts: Options)
    requires Reportable(t, before, after)
    requires !opts.summaryOnly
    ensures var lines := ReportLines(t, lost, gained, before, after, opts);
      && (forall k :: k in lost ==> LOST_HEADING + k in lines)
      && (forall k :: k in gained ==> GAINED_HEADING + k in lines)
  {
    var n1 := NameLines(LOST_HEADING, SortedNames(set k | k in lost));
    var n2 := NameLines(GAINED_HEADING, SortedNames(set k | k in gained));
    assert NameSection(lost, gained, opts) == n1 + BlankAfter(lost) + n2 + BlankAfter(gained);
    forall k | k in lost ensures LOST_HEADING + k in ReportLines(t, lost, gained, before, after, opts) {
      NameLinesHave(LOST_HEADING, SortedNames(set k | k in lost), k);
      InReport(LOST_HEADING + k, t, lost, gained, before, after, opts);
    }
    forall k | k in gained ensures GAINED_HEADING + k in ReportLines(t, lost, gained, before, after, opts) {
      NameLinesHave(GAINED_HEADING, SortedNames(set k | k in gained), k);
      InReport(GAINED_HEADING + k, t, lost, gained, before, after, opts);
    }
  }

  /** With --summary-only, only the summary section and the closing lines
      (the counts or "No changes.") are printed. */
  lemma SummaryOnlyLines(t: Tally, lost: seq<string>, gained: seq<string>,
                         before: map<string, Measure>, after: map<string, Measure>, opts: Options)
    requires Reportable(t, before, after)
    requires opts.summaryOnly
    ensures forall line :: line in ReportLines(t, lost, gained, before, after, opts) ==>
      line in SummarySection(t) || line in Closing(t, lost, gained)
  {
    forall line | line in ReportLines(t, lost, gained, before, after, opts)
      ensures line in SummarySection(t) || line in Closing(t, lost, gained)
    {
      InReport(line, t, lost, gained, before, after, opts);
    }
  }

  // ---------------------------------------------------------------------
  // The whole run
  // ---------------------------------------------------------------------

  /** `float` only yields frame rates: finite and not negative. */
  ghost predicate ParsesFrameRates(parse: ParseFloat)
  {
    forall text :: parse(text).Some? ==> 0.0 <= parse(text).value <= FLOAT_MAX
  }

  /** The square root of a non-negative number is not negative. */
  ghost predicate NonNegativeRoot(sqrt: Sqrt)
  {
    forall x :: 0.0 <= x ==> 0.0 <= sqrt(x)
  }

  /** The samples a read run holds for one trace are frame rates. */
  lemma {:induction false} ColumnInRange(rows: seq<Row>, name: string, parse: ParseFloat)
    requires ParsesFrameRates(parse)
    ensures InRange(Column(rows, name, parse))
  {
    if rows != [] {
      ColumnInRange(rows[..|rows| - 1], name, parse);
    }
  }

  /** One result file read and processed: the measures of its traces, in
      the order they first appear. */
  function Measures(rows: seq<Row>, includes: seq<Pattern>, excludes: seq<Pattern>, parse: ParseFloat,
                    skipMinMax: bool, sqrt: Sqrt): (r: Result<Dict<Measure>>)
    requires ParsesFrameRates(parse) && NonNegativeRoot(sqrt)
    ensures r.Ok? <==> forall i :: 0 <= i < |rows| ==> WellFormed(rows[i], includes, excludes, parse)
    ensures r.Ok? ==> r.value.Valid() && Printable(r.value.entries)
    ensures r.Ok? ==> forall name :: name in r.value.entries <==> Kept(name, includes, excludes) && Count(rows, name) > 0
  {
    IngestedOkIff(rows, includes, excludes, parse);
    match Ingested(rows, includes, excludes, parse)
    case Err(e) => Err(e)
    case Ok(raw) =>
      IngestedContents(rows, includes, excludes, parse, raw);
      forall name | name in raw.entries ensures raw.entries[name] != [] && InRange(raw.entries[name]) {
        ColumnInRange(rows, name, parse);
      }
      ProcessedRunSucceeds(raw, skipMinMax, sqrt);
      ProcessedContents(raw.keys, raw.entries, skipMinMax, sqrt);
      Ok(Dict(raw.keys, Processed(raw.keys, raw.entries, skipMinMax, sqrt).value))
  }

  /** `get_results` followed by `process_results` on one file. */
  method ReadRun(rows: seq<Row>, includes: seq<Pattern>, excludes: seq<Pattern>, parse: ParseFloat,
                 skipMinMax: bool, sqrt: Sqrt) returns (r: Result<Dict<Measure>>)
    requires ParsesFrameRates(parse) && NonNegativeRoot(sqrt)
    ensures r == Measures(rows, includes, excludes, parse, skipMinMax, sqrt)
  {
    var raw := GetResults(rows, includes, excludes, parse);
    if raw.Err? {
      return Err(raw.error);
    }
    IngestedContents(rows, includes, excludes, parse, raw.value);
    forall name | name in raw.value.entries ensures raw.value.entries[name] != [] && InRange(raw.value.entries[name]) {
      ColumnInRange(rows, name, parse);
    }
    ProcessedRunSucceeds(raw.value, skipMinMax, sqrt);
    r := ProcessResults(raw.value, skipMinMax, sqrt);
  }

  /** The comparison of two processed runs is printable. */
  lemma ComparisonReportable(before: Dict<Measure>, after: Dict<Measure>, opts: Options)
    requires Printable(before.entries) && Printable(after.entries)
    requires Classification(before.keys, before.entries, after.entries, opts).Ok?
    ensures Reportable(Classification(before.keys, before.entries, after.entries, opts).value,
                       before.entries, after.entries)
  {
    HelpedHurtPartition(before.keys, before.entries, after.entries, opts);
    AffectedTotalsBounded(before.keys, before.entries, after.entries, opts);
  }

  /** The printed report of a whole run of the script, or the exception
      that ends it: reading the before file, then the after file, then the
      comparison. */
  function Run(beforeRows: seq<Row>, afterRows: seq<Row>, includes: seq<Pattern>, excludes: seq<Pattern>,
               opts: Options, parse: ParseFloat, sqrt: Sqrt): Result<seq<string>>
    requires ParsesFrameRates(parse) && NonNegativeRoot(sqrt)
  {
    match Measures(beforeRows, includes, excludes, parse, opts.skipMinMax, sqrt)
    case Err(e) => Err(e)
    case Ok(before) =>
      match Measures(afterRows, includes, excludes, parse, opts.skipMinMax, sqrt)
      case Err(e) => Err(e)
      case Ok(after) =>
        match Classification(before.keys, before.entries, after.entries, opts)
        case Err(e) => Err(e)
        case Ok(t) =>
          ComparisonReportable(before, after, opts);
          Ok(ReportLines(t, Missing(before.keys, after.entries), Missing(after.keys, before.entries),
                         before.entries, after.entries, opts))
  }

  /** `main`: read both files, compare, collect lost and gained traces, and
      print. */
  method CompareRuns(beforeRows: seq<Row>, afterRows: seq<Row>, includes: seq<Pattern>, excludes: seq<Pattern>,
                     opts: Options, parse: ParseFloat, sqrt: Sqrt) returns (out: Result<seq<string>>)
    requires ParsesFrameRates(parse) && NonNegativeRoot(sqrt)
    ensures out == Run(beforeRows, afterRows, includes, excludes, opts, parse, sqrt)
  {
    var before := ReadRun(beforeRows, includes, excludes, parse, opts.skipMinMax, sqrt);
    if before.Err? {
      return Err(before.error);
    }
    var after := ReadRun(afterRows, includes, excludes, parse, opts.skipMinMax, sqrt);
    if after.Err? {
      return Err(after.error);
    }
    var tally := ClassifyRuns(before.value, after.value, opts);
    if tally.Err? {
      return Err(tally.error);
    }
    var lost, gained := LostAndGained(before.value, after.value);
    ComparisonReportable(before.value, after.value, opts);
    out := Ok(ReportLines(tally.value, lost, gained, before.value.entries, after.value.entries, opts));
  }

  /** A run fails exactly when a row of either file is malformed, or a
      compared trace has a zero average in the before run. */
  lemma RunFails(beforeRows: seq<Row>, afterRows: seq<Row>, includes: seq<Pattern>, excludes: seq<Pattern>,
                 opts: Options, parse: ParseFloat, sqrt: Sqrt)
    requires ParsesFrameRates(parse) && NonNegativeRoot(sqrt)
    ensures Run(beforeRows, afterRows, includes, excludes, opts, parse, sqrt).Err? <==>
      || (exists i :: 0 <= i < |beforeRows| && !WellFormed(beforeRows[i], includes, excludes, parse))
      || (exists i :: 0 <= i < |afterRows| && !WellFormed(afterRows[i], includes, excludes, parse))
      || (var before := Measures(beforeRows, includes, excludes, parse, opts.skipMinMax, sqrt);
          var after := Measures(afterRows, includes, excludes, parse, opts.skipMinMax, sqrt);
          before.Ok? && after.Ok? &&
          exists k :: k in before.value.entries && k in after.value.entries && !Skipped(k, opts)
                      && before.value.entries[k].avg == 0.0)
  {
    var before := Measures(beforeRows, includes, excludes, parse, opts.skipMinMax, sqrt);
    var after := Measures(afterRows, includes, excludes, parse, opts.skipMinMax, sqrt);
    if before.Ok? && after.Ok? {
      HelpedHurtPartition(before.value.keys, before.value.entries, after.value.entries, opts);
    }
  }
}
