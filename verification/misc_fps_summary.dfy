/** The average, minimum and maximum frame rate of one overlay log in the
    two-column "fps, frame_timing(us)" format (misc/fps-summary.py): every
    line that is neither empty nor the header contributes its first
    comma-separated field; there is no guard for a log without samples. */
module MiscFpsSummary {
  import opened Wrappers
  import opened Text
  import Ingest
  import opened Aggregate
  import opened FrameRates

  /** The header line the overlay layer writes. */
  const HEADER: string := "fps, frame_timing(us)"

  /** A line that counts as a sample: neither empty nor the header. */
  predicate IsData(line: string)
  {
    line != "" && line != HEADER
  }

  /** The data lines, in order. */
  function DataLines(lines: seq<string>): (r: seq<string>)
    ensures |r| <= |lines|
    ensures forall x :: x in r <==> x in lines && IsData(x)
  {
    if lines == [] then []
    else
      var last := lines[|lines| - 1];
      DataLines(lines[..|lines| - 1]) + (if IsData(last) then [last] else [])
  }

  /** The value of a data line: its first field, which must be followed by
      a second one. */
  function Sample(line: string, parse: Ingest.ParseFloat): (r: Result<real>)
    ensures r == Err(IndexError) <==> |Split(line, ",")| < 2
    ensures |Split(line, ",")| >= 2 ==>
              (r == Err(ValueError) <==> parse(Split(line, ",")[0]).None?)
              && (r.Ok? ==> Some(r.value) == parse(Split(line, ",")[0]))
    ensures r.Err? ==> r.error != ZeroDivisionError
  {
    var fields := Split(line, ",");
    if |fields| < 2 then Err(IndexError)
    else match parse(fields[0])
      case None => Err(ValueError)
      case Some(v) => Ok(v)
  }

  /** The values of the data lines, or the exception of the first bad one. */
  function Samples(lines: seq<string>, parse: Ingest.ParseFloat): (r: Result<seq<real>>)
    ensures r.Err? ==> r.error != ZeroDivisionError
  {
    if lines == [] then Ok([])
    else
      var last := lines[|lines| - 1];
      match Samples(lines[..|lines| - 1], parse)
      case Err(e) => Err(e)
      case Ok(s) =>
        if !IsData(last) then Ok(s)
        else match Sample(last, parse)
          case Err(e) => Err(e)
          case Ok(v) => Ok(s + [v])
  }

  /** What the script does with the text of a log. */
  function Summarized(text: string, parse: Ingest.ParseFloat): Result<Summary>
  {
    match Samples(Split(text, "\n"), parse)
    case Err(e) => Err(e)
    case Ok(s) => if s == [] then Err(ZeroDivisionError) else Ok(Summarize(s))
  }

  /** `main` after reading the file: one pass over its lines. */
  method Run(text: string, parse: Ingest.ParseFloat) returns (r: Result<Summary>)
    ensures r == Summarized(text, parse)
  {
    var lines := Split(text, "\n");
    var numLines := 0;
    var totalValue := 0.0;
    var minFps := MIN_START;
    var maxFps := MAX_START;
    ghost var samples: seq<real> := [];
    var i := 0;
    while i < |lines|
      invariant 0 <= i <= |lines|
      invariant Samples(lines[..i], parse) == Ok(samples)
      invariant |samples| == numLines
      invariant totalValue == Sum(samples)
      invariant minFps == RunningMin(MIN_START, samples) && maxFps == RunningMax(MAX_START, samples)
    {
      var line := lines[i];
      assert lines[..i + 1][..i] == lines[..i];
      if line != "" && line != HEADER {
        var parsedLine := Split(line, ",");
        var fps := parsedLine[0];
        if |parsedLine| < 2 {
          r := Err(IndexError);
          SamplesFailureSticks(lines, i + 1, parse);
          return;
        }
        var value := parse(fps);
        if value.None? {
          r := Err(ValueError);
          SamplesFailureSticks(lines, i + 1, parse);
          return;
        }
        totalValue := totalValue + value.value;
        minFps := Min(minFps, value.value);
        maxFps := Max(maxFps, value.value);
        numLines := numLines + 1;
        samples := samples + [value.value];
      }
      i := i + 1;
    }
    assert lines[..i] == lines;
    if numLines == 0 {
      return Err(ZeroDivisionError);
    }
    r := Ok(Summary(totalValue / numLines as real, minFps, maxFps));
  }

  /** Once a prefix of the lines raises, reading the rest raises the same. */
  lemma {:induction false} SamplesFailureSticks(lines: seq<string>, k: nat, parse: Ingest.ParseFloat)
    requires k <= |lines|
    requires Samples(lines[..k], parse).Err?
    ensures Samples(lines, parse) == Samples(lines[..k], parse)
    decreases |lines| - k
  {
    if k < |lines| {
      assert lines[..k + 1][..k] == lines[..k];
      SamplesFailureSticks(lines, k + 1, parse);
    } else {
      assert lines[..k] == lines;
    }
  }

  /** Reading succeeds exactly when every data line has a second field and
      a numeric first field; then there is one sample per data line, in
      order, and skipped lines contribute nothing. */
  lemma {:induction false} SamplesMeaning(lines: seq<string>, parse: Ingest.ParseFloat)
    ensures Samples(lines, parse).Ok?
            <==> forall i :: 0 <= i < |lines| && IsData(lines[i]) ==> Sample(lines[i], parse).Ok?
    ensures Samples(lines, parse).Ok? ==>
              var s := Samples(lines, parse).value;
              var data := DataLines(lines);
              |s| == |data| && forall j :: 0 <= j < |data| ==> Sample(data[j], parse) == Ok(s[j])
  {
    if lines != [] {
      var prefix := lines[..|lines| - 1];
      SamplesMeaning(prefix, parse);
      assert forall i :: 0 <= i < |prefix| ==> prefix[i] == lines[i];
    }
  }

  /** The script divides by zero exactly when every line is well formed but
      none is a data line (an empty log, or one holding only the header). */
  lemma DividesByZeroIff(text: string, parse: Ingest.ParseFloat)
    ensures Summarized(text, parse) == Err(ZeroDivisionError)
            <==> Samples(Split(text, "\n"), parse).Ok? && DataLines(Split(text, "\n")) == []
  {
    SamplesMeaning(Split(text, "\n"), parse);
  }

  /** An empty log and a log holding only the header line both divide by
      zero. */
  lemma NoSamplesDividesByZero(parse: Ingest.ParseFloat)
    ensures Summarized("", parse) == Err(ZeroDivisionError)
    ensures Summarized(HEADER, parse) == Err(ZeroDivisionError)
  {
    SplitWithoutSeparator("", '\n');
    SplitWithoutSeparator(HEADER, '\n');
  }

  /** When the script prints, the minimum is at most 666, the maximum at
      least 0, and the average lies between them. */
  lemma PrintedBounds(text: string, parse: Ingest.ParseFloat)
    requires Summarized(text, parse).Ok?
    ensures var p := Summarized(text, parse).value;
      p.minFps <= MIN_START && p.maxFps >= MAX_START && p.minFps <= p.avg <= p.maxFps
  {
    SummaryBounds(Samples(Split(text, "\n"), parse).value);
  }
}
