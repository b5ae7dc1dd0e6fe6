/** Reading one run's `trace,fps` rows into a dict from trace name to the
    list of its samples, in file order (`get_results`,
    fps-analysis/report-fps-traces.py). */
module Ingest {
  import opened Wrappers
  import opened Dicts

  /** One row as produced by the csv reader: its fields. */
  type Row = seq<string>

  /** A compiled include or exclude pattern; it holds of a name when
      `pattern.search(name)` finds a match anywhere in it. */
  type Pattern = string -> bool

  /** `float(text)`: the number the text denotes, or None when Python would
      raise ValueError. */
  type ParseFloat = string -> Option<real>

  predicate AnyMatches(patterns: seq<Pattern>, name: string)
  {
    exists i :: 0 <= i < |patterns| && patterns[i](name)
  }

  /** A trace passes the filters when no include pattern is configured or
      one of them matches, and no excludes pattern matches. */
  predicate Kept(name: string, includes: seq<Pattern>, excludes: seq<Pattern>)
  {
    (includes == [] || AnyMatches(includes, name)) && !AnyMatches(excludes, name)
  }

  /** One pass of the row loop: filter the row, then append its value to
      the list of its trace, creating the list for a new trace. */
  function AddRow(d: Dict<seq<real>>, row: Row, includes: seq<Pattern>, excludes: seq<Pattern>,
                  parse: ParseFloat): Result<Dict<seq<real>>>
  {
    if |row| == 0 then Err(IndexError)    // row[0] of an empty row
    else if !Kept(row[0], includes, excludes) then Ok(d)
    else if |row| < 2 then Err(IndexError)
    else match parse(row[1])
      case None => Err(ValueError)
      case Some(v) =>
        if row[0] in d.entries then Ok(Dict(d.keys, d.entries[row[0] := d.entries[row[0]] + [v]]))
        else Ok(Dict(d.keys + [row[0]], d.entries[row[0] := [v]]))
  }

  /** The dict after reading `rows`, or the exception the first bad row raises. */
  function Ingested(rows: seq<Row>, includes: seq<Pattern>, excludes: seq<Pattern>,
                    parse: ParseFloat): Result<Dict<seq<real>>>
  {
    if rows == [] then Ok(Empty())
    else match Ingested(rows[..|rows| - 1], includes, excludes, parse)
      case Err(e) => Err(e)
      case Ok(d) => AddRow(d, rows[|rows| - 1], includes, excludes, parse)
  }

  /** The loop of `get_results` over the rows of one file. */
  method GetResults(rows: seq<Row>, includes: seq<Pattern>, excludes: seq<Pattern>,
                    parse: ParseFloat) returns (r: Result<Dict<seq<real>>>)
    ensures r == Ingested(rows, includes, excludes, parse)
  {
    var results: Dict<seq<real>> := Empty();
    var i := 0;
    while i < |rows|
      invariant 0 <= i <= |rows|
      invariant Ingested(rows[..i], includes, excludes, parse) == Ok(results)
    {
      assert rows[..i + 1][..i] == rows[..i];
      var row := rows[i];
      assert Ingested(rows[..i + 1], includes, excludes, parse) == AddRow(results, row, includes, excludes, parse);
      if |row| == 0 {
        r := Err(IndexError);
        FailureSticks(rows, i + 1, includes, excludes, parse);
        return;
      }
      if includes != [] && !AnyMatches(includes, row[0]) {
        assert !Kept(row[0], includes, excludes);
        i := i + 1;
        continue;
      }
      if AnyMatches(excludes, row[0]) {
        assert !Kept(row[0], includes, excludes);
        i := i + 1;
        continue;
      }
      var resultList: seq<real>;
      if row[0] in results.entries {
        resultList := results.entries[row[0]];
      } else {
        resultList := [];
      }
      if |row| < 2 {
        r := Err(IndexError);
        FailureSticks(rows, i + 1, includes, excludes, parse);
        return;
      }
      var value := parse(row[1]);
      if value.None? {
        r := Err(ValueError);
        FailureSticks(rows, i + 1, includes, excludes, parse);
        return;
      }
      assert Kept(row[0], includes, excludes);
      resultList := resultList + [value.value];
      var keys := if row[0] in results.entries then results.keys else results.keys + [row[0]];
      ghost var previous := results;
      results := Dict(keys, results.entries[row[0] := resultList]);
      assert row[0] !in previous.entries ==> resultList == [value.value];
      assert AddRow(previous, row, includes, excludes, parse) == Ok(results);
      i := i + 1;
    }
    assert rows[..i] == rows;
    r := Ok(results);
  }

  /** Once a prefix of the rows raises, reading the rest raises the same. */
  lemma {:induction false} FailureSticks(rows: seq<Row>, n: nat, includes: seq<Pattern>,
                                         excludes: seq<Pattern>, parse: ParseFloat)
    requires n <= |rows|
    requires Ingested(rows[..n], includes, excludes, parse).Err?
    ensures Ingested(rows, includes, excludes, parse) == Ingested(rows[..n], includes, excludes, parse)
    decreases |rows| - n
  {
    if n < |rows| {
      assert rows[..n + 1][..n] == rows[..n];
      FailureSticks(rows, n + 1, includes, excludes, parse);
    } else {
      assert rows[..n] == rows;
    }
  }

  // ---------------------------------------------------------------------
  // What the ingested dict holds
  // ---------------------------------------------------------------------

  /** A row that reading can accept: it has a name, and when the name
      passes the filters it has a second field that is a number. */
  predicate WellFormed(row: Row, includes: seq<Pattern>, excludes: seq<Pattern>, parse: ParseFloat)
  {
    |row| > 0 && (Kept(row[0], includes, excludes) ==> |row| >= 2 && parse(row[1]).Some?)
  }

  /** The values of the rows named `name`, in file order. */
  function Column(rows: seq<Row>, name: string, parse: ParseFloat): seq<real>
  {
    if rows == [] then []
    else
      var last := rows[|rows| - 1];
      Column(rows[..|rows| - 1], name, parse)
      + (if |last| >= 2 && last[0] == name && parse(last[1]).Some? then [parse(last[1]).value] else [])
  }

  /** The number of rows named `name`. */
  function Count(rows: seq<Row>, name: string): nat
  {
    if rows == [] then 0
    else
      var last := rows[|rows| - 1];
      Count(rows[..|rows| - 1], name) + (if |last| > 0 && last[0] == name then 1 else 0)
  }

  lemma {:induction false} ColumnNoLongerThanCount(rows: seq<Row>, name: string, parse: ParseFloat)
    ensures |Column(rows, name, parse)| <= Count(rows, name)
  {
    if rows != [] {
      ColumnNoLongerThanCount(rows[..|rows| - 1], name, parse);
    }
  }

  /** Reading succeeds exactly when every row is well formed. */
  lemma {:induction false} IngestedOkIff(rows: seq<Row>, includes: seq<Pattern>, excludes: seq<Pattern>,
                                         parse: ParseFloat)
    ensures Ingested(rows, includes, excludes, parse).Ok?
            <==> forall i :: 0 <= i < |rows| ==> WellFormed(rows[i], includes, excludes, parse)
  {
    if rows != [] {
      var prefix := rows[..|rows| - 1];
      IngestedOkIff(prefix, includes, excludes, parse);
      forall i | 0 <= i < |prefix| ensures prefix[i] == rows[i] { }
    }
  }

  /** A successful read holds, for every trace that passes the filters and
      occurs in the file, one sample per row of that trace, in file order;
      traces that do not pass the filters are absent. */
  lemma {:induction false} IngestedContents(rows: seq<Row>, includes: seq<Pattern>, excludes: seq<Pattern>,
                                            parse: ParseFloat, d: Dict<seq<real>>)
    requires Ingested(rows, includes, excludes, parse) == Ok(d)
    ensures d.Valid()
    ensures forall name :: name in d.entries <==> Kept(name, includes, excludes) && Count(rows, name) > 0
    ensures forall name :: name in d.entries ==> d.entries[name] == Column(rows, name, parse)
    ensures forall name :: name in d.entries ==> |d.entries[name]| == Count(rows, name)
  {
    if rows != [] {
      var prefix := rows[..|rows| - 1];
      var d0 := Ingested(prefix, includes, excludes, parse).value;
      IngestedContents(prefix, includes, excludes, parse, d0);
      assert AddRow(d0, rows[|rows| - 1], includes, excludes, parse) == Ok(d);
      AddRowKeepsValid(d0, rows[|rows| - 1], includes, excludes, parse, d);
      forall name
        ensures name in d.entries <==> Kept(name, includes, excludes) && Count(rows, name) > 0
        ensures name in d.entries ==> d.entries[name] == Column(rows, name, parse)
                                      && |d.entries[name]| == Count(rows, name)
      {
        AddRowEntry(rows, name, includes, excludes, parse, d0, d);
      }
    }
  }

  /** The names of the kept traces, each at the row where it first occurs. */
  function FirstSeen(rows: seq<Row>, includes: seq<Pattern>, excludes: seq<Pattern>): seq<string>
  {
    if rows == [] then []
    else
      var seen := FirstSeen(rows[..|rows| - 1], includes, excludes);
      var last := rows[|rows| - 1];
      seen + (if |last| > 0 && Kept(last[0], includes, excludes) && last[0] !in seen then [last[0]] else [])
  }

  /** A successful read lists its traces in the order of their first rows,
      which is the order the dict's keys are later walked in. */
  lemma {:induction false} IngestedKeys(rows: seq<Row>, includes: seq<Pattern>, excludes: seq<Pattern>,
                                        parse: ParseFloat, d: Dict<seq<real>>)
    requires Ingested(rows, includes, excludes, parse) == Ok(d)
    ensures d.keys == FirstSeen(rows, includes, excludes)
  {
    if rows != [] {
      var prefix := rows[..|rows| - 1];
      var d0 := Ingested(prefix, includes, excludes, parse).value;
      IngestedKeys(prefix, includes, excludes, parse, d0);
      IngestedContents(prefix, includes, excludes, parse, d0);
      assert AddRow(d0, rows[|rows| - 1], includes, excludes, parse) == Ok(d);
    }
  }

  /** Reading a row keeps the key order a list of the entries' keys, each
      once. */
  lemma AddRowKeepsValid(d0: Dict<seq<real>>, row: Row, includes: seq<Pattern>, excludes: seq<Pattern>,
                         parse: ParseFloat, d: Dict<seq<real>>)
    requires d0.Valid() && AddRow(d0, row, includes, excludes, parse) == Ok(d)
    ensures d.Valid()
  {
    if Kept(row[0], includes, excludes) && row[0] !in d0.entries {
      assert d.keys == d0.keys + [row[0]];
      forall i, j | 0 <= i < j < |d.keys| ensures d.keys[i] != d.keys[j] {
        if j == |d.keys| - 1 {
          assert d.keys[i] == d0.keys[i];
          assert d0.keys[i] in d0.entries;
        }
      }
    }
  }

  /** What reading the last row does to the entry of one trace. */
  lemma AddRowEntry(rows: seq<Row>, name: string, includes: seq<Pattern>, excludes: seq<Pattern>,
                    parse: ParseFloat, d0: Dict<seq<real>>, d: Dict<seq<real>>)
    requires rows != []
    requires name in d0.entries <==> Kept(name, includes, excludes) && Count(rows[..|rows| - 1], name) > 0
    requires name in d0.entries ==> d0.entries[name] == Column(rows[..|rows| - 1], name, parse)
                                    && |d0.entries[name]| == Count(rows[..|rows| - 1], name)
    requires AddRow(d0, rows[|rows| - 1], includes, excludes, parse) == Ok(d)
    ensures name in d.entries <==> Kept(name, includes, excludes) && Count(rows, name) > 0
    ensures name in d.entries ==> d.entries[name] == Column(rows, name, parse)
                                  && |d.entries[name]| == Count(rows, name)
  {
    var prefix := rows[..|rows| - 1];
    var last := rows[|rows| - 1];
    assert |last| > 0;
    var kept := Kept(last[0], includes, excludes);
    assert Count(rows, name) == Count(prefix, name) + (if last[0] == name then 1 else 0);
    if !kept {
      assert d == d0;
      assert name in d0.entries ==> name != last[0];
    } else if last[0] != name {
      assert name in d.entries <==> name in d0.entries;
      assert name in d.entries ==> d.entries[name] == d0.entries[name];
      assert Column(rows, name, parse) == Column(prefix, name, parse);
    } else {
      var v := parse(last[1]).value;
      assert Column(rows, name, parse) == Column(prefix, name, parse) + [v];
      if name !in d0.entries {
        ColumnNoLongerThanCount(prefix, name, parse);
        assert d.entries[name] == [v];
      } else {
        assert d.entries[name] == d0.entries[name] + [v];
      }
    }
  }
}
