/** Regressions between two deqp-runner result files
    (deqp/deqp-runner-check-regressions-from-csv.py): each file's failing,
    crashing and timing-out tests, the tests that newly appear in each
    category, and the printed sections. */
module DeqpRegressions {
  import opened Text

  /** One csv row: its fields. */
  type Row = seq<string>

  /** The three sets `load_status` returns. */
  datatype Status = Status(failures: set<string>, crashes: set<string>, timeouts: set<string>)

  /** The row has exactly two fields and its status, stripped and
      lower-cased, is `word`. */
  predicate Reports(row: Row, word: string)
  {
    |row| == 2 && Lower(Strip(row[1])) == word
  }

  /** The test a row names: its first field, stripped (rows without
      fields name no test and are never collected). */
  function TestName(row: Row): string
  {
    if |row| > 0 then Strip(row[0]) else ""
  }

  /** One pass of the row loop: the three independent checks. A row is
      added to at most one set, and a row reporting none of the three
      statuses leaves all of them unchanged. */
  function AddRow(st: Status, row: Row): (r: Status)
    ensures Reports(row, "fail") ==> r == st.(failures := st.failures + {TestName(row)})
    ensures Reports(row, "crash") ==> r == st.(crashes := st.crashes + {TestName(row)})
    ensures Reports(row, "timeout") ==> r == st.(timeouts := st.timeouts + {TestName(row)})
    ensures !Reports(row, "fail") && !Reports(row, "crash") && !Reports(row, "timeout") ==> r == st
  {
    var failures := if Reports(row, "fail") then st.failures + {TestName(row)} else st.failures;
    var crashes := if Reports(row, "crash") then st.crashes + {TestName(row)} else st.crashes;
    var timeouts := if Reports(row, "timeout") then st.timeouts + {TestName(row)} else st.timeouts;
    Status(failures, crashes, timeouts)
  }

  /** The sets after reading `rows`. */
  function Loaded(rows: seq<Row>): Status
  {
    if rows == [] then Status({}, {}, {}) else AddRow(Loaded(rows[..|rows| - 1]), rows[|rows| - 1])
  }

  /** `load_status`: the loop over the rows of one file. */
  method LoadStatus(rows: seq<Row>) returns (failures: set<string>, crashes: set<string>, timeouts: set<string>)
    ensures Status(failures, crashes, timeouts) == Loaded(rows)
  {
    failures, crashes, timeouts := {}, {}, {};
    var i := 0;
    while i < |rows|
      invariant 0 <= i <= |rows|
      invariant Status(failures, crashes, timeouts) == Loaded(rows[..i])
    {
      assert rows[..i + 1][..i] == rows[..i];
      var row := rows[i];
      if |row| == 2 && Lower(Strip(row[1])) == "fail" {
        failures := failures + {Strip(row[0])};
      }
      if |row| == 2 && Lower(Strip(row[1])) == "crash" {
        crashes := crashes + {Strip(row[0])};
      }
      if |row| == 2 && Lower(Strip(row[1])) == "timeout" {
        timeouts := timeouts + {Strip(row[0])};
      }
      i := i + 1;
    }
    assert rows[..i] == rows;
  }

  /** The three status words a row can report. */
  predicate IsStatusWord(word: string)
  {
    word == "fail" || word == "crash" || word == "timeout"
  }

  /** The set of `st` that collects the rows reporting `word`. */
  function Of(st: Status, word: string): set<string>
    requires IsStatusWord(word)
  {
    if word == "fail" then st.failures else if word == "crash" then st.crashes else st.timeouts
  }

  /** The names `f` gives the rows that satisfy `p`. */
  function Collected(rows: seq<Row>, p: Row -> bool, f: Row -> string): set<string>
  {
    set i | 0 <= i < |rows| && p(rows[i]) :: f(rows[i])
  }

  /** The tests of the rows reporting `word`. */
  function Named(rows: seq<Row>, word: string): set<string>
  {
    Collected(rows, row => Reports(row, word), TestName)
  }

  /** Every name collected from the first rows is collected from all of them. */
  lemma CollectedPrefix(rows: seq<Row>, n: nat, p: Row -> bool, f: Row -> string)
    requires n <= |rows|
    ensures Collected(rows[..n], p, f) <= Collected(rows, p, f)
  {
    var prefix := rows[..n];
    forall name | name in Collected(prefix, p, f) ensures name in Collected(rows, p, f) {
      var i :| 0 <= i < |prefix| && p(prefix[i]) && f(prefix[i]) == name;
      assert rows[i] == prefix[i];
    }
  }

  /** A name collected from all rows comes from the first ones or the last. */
  lemma CollectedLast(rows: seq<Row>, p: Row -> bool, f: Row -> string)
    requires rows != []
    ensures var last := rows[|rows| - 1];
      Collected(rows, p, f) <= Collected(rows[..|rows| - 1], p, f) + (if p(last) then {f(last)} else {})
  {
    var n := |rows| - 1;
    var prefix := rows[..n];
    forall i | 0 <= i < n && p(rows[i])
      ensures f(rows[i]) in Collected(prefix, p, f)
    {
      assert prefix[i] == rows[i];
    }
  }

  /** Reading one more row adds its test when the row reports `word`. */
  lemma NamedStep(rows: seq<Row>, word: string)
    requires rows != []
    ensures var last := rows[|rows| - 1];
      Named(rows, word) == Named(rows[..|rows| - 1], word) + (if Reports(last, word) then {TestName(last)} else {})
  {
    var p := row => Reports(row, word);
    CollectedPrefix(rows, |rows| - 1, p, TestName);
    CollectedLast(rows, p, TestName);
    var last := rows[|rows| - 1];
    if Reports(last, word) {
      assert p(last);
      assert TestName(last) in Collected(rows, p, TestName);
    }
  }

  /** A test is in the set of a status exactly when some row of the file
      names it with that status. */
  lemma {:induction false} LoadedIsNamed(rows: seq<Row>, word: string)
    requires IsStatusWord(word)
    ensures Of(Loaded(rows), word) == Named(rows, word)
  {
    if rows != [] {
      LoadedIsNamed(rows[..|rows| - 1], word);
      NamedStep(rows, word);
    }
  }

  // ---------------------------------------------------------------------
  // Regressions and their report
  // ---------------------------------------------------------------------

  /** The tests that are in a category after but not before. */
  function Regressions(before: Status, after: Status): (r: Status)
    ensures forall name :: name in r.failures <==> name in after.failures && name !in before.failures
    ensures forall name :: name in r.crashes <==> name in after.crashes && name !in before.crashes
    ensures forall name :: name in r.timeouts <==> name in after.timeouts && name !in before.timeouts
  {
    Status(after.failures - before.failures, after.crashes - before.crashes, after.timeouts - before.timeouts)
  }

  /** A test regresses in a category exactly when a row of the after file
      reports it so and no row of the before file does; tests that stopped
      failing are never reported. */
  lemma RegressionsOfRows(beforeRows: seq<Row>, afterRows: seq<Row>, word: string, name: string)
    requires IsStatusWord(word)
    ensures name in Of(Regressions(Loaded(beforeRows), Loaded(afterRows)), word)
            <==> name in Named(afterRows, word) && name !in Named(beforeRows, word)
  {
    LoadedIsNamed(beforeRows, word);
    LoadedIsNamed(afterRows, word);
  }

  /** One printed section: a heading followed by the sorted names, or the
      line saying there are no regressions of that kind. */
  datatype Section = Listed(heading: string, names: seq<string>) | NoneFound(line: string)

  /** The section for one category, listing `names` under `heading` when
      `shown`, and printing `none` otherwise. */
  function SectionFor(heading: string, none: string, shown: bool, names: set<string>): Section
  {
    if shown then Listed(heading, SortedNames(names)) else NoneFound(none)
  }

  const FAIL_HEADING := "** Fail regressions ** "
  const NO_FAIL := "\n** No fail regressions ** "
  const CRASH_HEADING := "** Crash regressions ** "
  const NO_CRASH := "\n** No crash regressions ** "
  const TIMEOUT_HEADING := "** Timeout regressions ** "
  const NO_TIMEOUT := "\n** No timeout regressions ** "

  /** The joined names, or "None" when the join is empty (which happens
      for no names or a single empty name). */
  function NameList(names: seq<string>): string
  {
    var text := Join(names, "\n");
    if text == "" then "None" else text
  }

  /** The lines one section prints. */
  function Lines(s: Section): seq<string>
  {
    match s
    case Listed(heading, names) => [heading, NameList(names)]
    case NoneFound(line) => [line]
  }

  /** The lines of all sections, in order. */
  function Output(sections: seq<Section>): seq<string>
  {
    if sections == [] then [] else Lines(sections[0]) + Output(sections[1..])
  }

  /** The sections as written: the timeout section is guarded by the crash
      regressions. */
  function ReportAsWritten(r: Status): seq<Section>
  {
    [ SectionFor(FAIL_HEADING, NO_FAIL, r.failures != {}, r.failures),
      SectionFor(CRASH_HEADING, NO_CRASH, r.crashes != {}, r.crashes),
      SectionFor(TIMEOUT_HEADING, NO_TIMEOUT, r.crashes != {}, r.timeouts) ]
  }

  /** The sections with each one guarded by its own regressions. */
  function Report(r: Status): seq<Section>
  {
    [ SectionFor(FAIL_HEADING, NO_FAIL, r.failures != {}, r.failures),
      SectionFor(CRASH_HEADING, NO_CRASH, r.crashes != {}, r.crashes),
      SectionFor(TIMEOUT_HEADING, NO_TIMEOUT, r.timeouts != {}, r.timeouts) ]
  }

  /** As written, a timeout regression without a crash regression is
      reported as "No timeout regressions". */
  lemma AsWrittenHidesTimeouts()
    ensures var r := Status({}, {}, {"dEQP-VK.api.smoke.triangle"});
      && r.timeouts != {}
      && ReportAsWritten(r)[2] == NoneFound(NO_TIMEOUT)
  {
  }

  /** As written, a crash regression without a timeout regression prints a
      timeout heading followed by "None". */
  lemma AsWrittenInventsTimeoutHeading()
    ensures var r := Status({}, {"dEQP-VK.api.smoke.triangle"}, {});
      && r.timeouts == {}
      && ReportAsWritten(r)[2] == Listed(TIMEOUT_HEADING, [])
      && Lines(ReportAsWritten(r)[2]) == [TIMEOUT_HEADING, "None"]
  {
    assert SortedNames({}) == [];
  }

  /** The category `i` of the report: 0 failures, 1 crashes, 2 timeouts. */
  function Category(r: Status, i: nat): set<string>
    requires i < 3
  {
    if i == 0 then r.failures else if i == 1 then r.crashes else r.timeouts
  }

  /** Each section of the report says "no regressions" exactly when its own
      category is empty, and otherwise lists that category's tests, each
      once, in increasing order. */
  lemma ReportSections(r: Status, i: nat)
    requires i < 3
    ensures |Report(r)| == 3
    ensures Report(r)[i].NoneFound? <==> Category(r, i) == {}
    ensures Report(r)[i].Listed? ==>
              (forall n :: n in Report(r)[i].names <==> n in Category(r, i))
              && (forall j, k :: 0 <= j < k < |Report(r)[i].names| ==>
                    Report(r)[i].names[j] != Report(r)[i].names[k]
                    && LexLe(Report(r)[i].names[j], Report(r)[i].names[k]))
  {
  }

  /** A listed section's name list is empty (and prints "None") exactly
      when its one test has an empty name. */
  lemma EmptyJoinIff(names: set<string>)
    requires names != {}
    ensures Join(SortedNames(names), "\n") == "" <==> names == {""}
  {
    var list := SortedNames(names);
    if Join(list, "\n") == "" {
      assert list[0] == "";
      forall n | n in names ensures n == "" { assert n in list; }
    }
    if names == {""} {
      assert "" in list;
      assert list == [""];
    }
  }

  /** As written, the report differs from the corrected one exactly when
      one of the crash and timeout categories is empty and the other is not. */
  lemma AsWrittenAgreesIff(r: Status)
    ensures ReportAsWritten(r) == Report(r) <==> (r.crashes == {} <==> r.timeouts == {})
  {
    if r.crashes != {} && r.timeouts == {} {
      assert ReportAsWritten(r)[2].Listed? && Report(r)[2].NoneFound?;
    } else if r.crashes == {} && r.timeouts != {} {
      assert ReportAsWritten(r)[2].NoneFound? && Report(r)[2].Listed?;
    }
  }

  /** As written, the fail and crash sections are the corrected ones, and
      the timeout section says "no regressions" exactly when there is no
      crash regression; otherwise it lists every timeout regression once,
      in increasing order (possibly none). */
  lemma AsWrittenSections(r: Status)
    ensures |ReportAsWritten(r)| == 3
    ensures ReportAsWritten(r)[0] == Report(r)[0] && ReportAsWritten(r)[1] == Report(r)[1]
    ensures ReportAsWritten(r)[2].NoneFound? <==> r.crashes == {}
    ensures ReportAsWritten(r)[2].Listed? ==>
              (forall n :: n in ReportAsWritten(r)[2].names <==> n in r.timeouts)
              && (forall j, k :: 0 <= j < k < |ReportAsWritten(r)[2].names| ==>
                    ReportAsWritten(r)[2].names[j] != ReportAsWritten(r)[2].names[k]
                    && LexLe(ReportAsWritten(r)[2].names[j], ReportAsWritten(r)[2].names[k]))
  {
  }

  /** The script: load both files, take the differences, and print the
      three sections, the timeout one guarded by the crash regressions as
      written. */
  method CheckRegressions(beforeRows: seq<Row>, afterRows: seq<Row>) returns (lines: seq<string>)
    ensures lines == Output(ReportAsWritten(Regressions(Loaded(beforeRows), Loaded(afterRows))))
  {
    var beforeFailures, beforeCrashes, beforeTimeouts := LoadStatus(beforeRows);
    var afterFailures, afterCrashes, afterTimeouts := LoadStatus(afterRows);
    var failRegressions := afterFailures - beforeFailures;
    var crashRegressions := afterCrashes - beforeCrashes;
    var timeoutRegressions := afterTimeouts - beforeTimeouts;
    var sections := [ SectionFor(FAIL_HEADING, NO_FAIL, failRegressions != {}, failRegressions),
                      SectionFor(CRASH_HEADING, NO_CRASH, crashRegressions != {}, crashRegressions),
                      SectionFor(TIMEOUT_HEADING, NO_TIMEOUT, crashRegressions != {}, timeoutRegressions) ];
    lines := Output(sections);
  }

  /** The script with the timeout section guarded by its own regressions. */
  method CheckRegressionsCorrected(beforeRows: seq<Row>, afterRows: seq<Row>) returns (lines: seq<string>)
    ensures lines == Output(Report(Regressions(Loaded(beforeRows), Loaded(afterRows))))
  {
    var beforeFailures, beforeCrashes, beforeTimeouts := LoadStatus(beforeRows);
    var afterFailures, afterCrashes, afterTimeouts := LoadStatus(afterRows);
    var failRegressions := afterFailures - beforeFailures;
    var crashRegressions := afterCrashes - beforeCrashes;
    var timeoutRegressions := afterTimeouts - beforeTimeouts;
    var sections := [ SectionFor(FAIL_HEADING, NO_FAIL, failRegressions != {}, failRegressions),
                      SectionFor(CRASH_HEADING, NO_CRASH, crashRegressions != {}, crashRegressions),
                      SectionFor(TIMEOUT_HEADING, NO_TIMEOUT, timeoutRegressions != {}, timeoutRegressions) ];
    lines := Output(sections);
  }
}
