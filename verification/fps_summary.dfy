/** The average, minimum and maximum frame rate of one overlay log whose
    first line is a header of ", "-separated column names
    (fps-analysis/fps-summary.py): the `fps` column is located in the
    header, each following line contributes the value in that column, and an
    optional cap bounds the number of samples. */
module FpsSummary {
  import opened Wrappers
  import opened Text
  import Ingest
  import opened Aggregate
  import opened FrameRates

  /** What the script prints: the missing-column message, nothing, or the
      three values. */
  datatype Outcome = HeaderMissing | NothingPrinted | Printed(summary: Summary)

  /** The position of the first header field equal to "fps", or -1. */
  function FpsIndex(words: seq<string>): (r: int)
    ensures -1 <= r < |words|
  {
    if words == [] then -1
    else if words[0] == "fps" then 0
    else
      var r := FpsIndex(words[1..]);
      if r < 0 then -1 else r + 1
  }

  /** `FpsIndex` is the first "fps" field, and -1 only when there is none. */
  lemma {:induction false} FpsIndexIsFirst(words: seq<string>)
    ensures var r := FpsIndex(words);
      && (r >= 0 ==> words[r] == "fps" && forall j :: 0 <= j < r ==> words[j] != "fps")
      && (r == -1 <==> forall j :: 0 <= j < |words| ==> words[j] != "fps")
  {
    if words != [] && words[0] != "fps" {
      FpsIndexIsFirst(words[1..]);
      assert forall j :: 1 <= j < |words| ==> words[j] == words[1..][j - 1];
    }
  }

  /** The header scan: count fields until one is "fps". */
  method FindFpsColumn(parsedLine: seq<string>) returns (fpsIndex: int)
    ensures fpsIndex == FpsIndex(parsedLine)
  {
    fpsIndex := -1;
    var wordCount := 0;
    while wordCount < |parsedLine|
      invariant 0 <= wordCount <= |parsedLine|
      invariant forall j :: 0 <= j < wordCount ==> parsedLine[j] != "fps"
    {
      if parsedLine[wordCount] == "fps" {
        fpsIndex := wordCount;
        break;
      }
      wordCount := wordCount + 1;
    }
    FpsIndexIsFirst(parsedLine);
  }

  /** `max_samples`: the option's value (0 when given without one), or -1
      when absent; only a positive value limits the samples. */
  function Cap(maxSamples: Option<int>): int
  {
    if maxSamples.None? then -1 else maxSamples.value
  }

  /** How many of the `available` data lines are read under `cap`: all of
      them unless a positive cap stops the loop earlier. */
  function Taken(cap: int, available: nat): (n: nat)
    ensures n <= available
    ensures cap > 0 ==> n <= cap
    ensures n < available ==> n == cap
  {
    if cap > 0 && cap < available then cap else available
  }

  /** The value of a data line: the field at the fps column, as a number. */
  function Sample(line: string, fpsIndex: nat, parse: Ingest.ParseFloat): (r: Result<real>)
  {
    var fields := Split(line, ", ");
    if fpsIndex >= |fields| then Err(IndexError)
    else match parse(fields[fpsIndex])
      case None => Err(ValueError)
      case Some(v) => Ok(v)
  }

  /** The values of the data lines, or the exception of the first bad one. */
  function Samples(data: seq<string>, fpsIndex: nat, parse: Ingest.ParseFloat): Result<seq<real>>
  {
    if data == [] then Ok([])
    else match Samples(data[..|data| - 1], fpsIndex, parse)
      case Err(e) => Err(e)
      case Ok(s) =>
        match Sample(data[|data| - 1], fpsIndex, parse)
        case Err(e) => Err(e)
        case Ok(v) => Ok(s + [v])
  }

  /** What the script does with the text of a log: the header is line 0,
      the data lines read are the next `Taken` ones, and the summary is
      printed only when there is at least one sample. */
  function Summarized(text: string, maxSamples: Option<int>, parse: Ingest.ParseFloat): Result<Outcome>
  {
    OfLines(Split(text, "\n"), maxSamples, parse)
  }

  /** `Summarized` for the lines of the log. */
  function OfLines(lines: seq<string>, maxSamples: Option<int>, parse: Ingest.ParseFloat): Result<Outcome>
    requires lines != []
  {
    var fpsIndex := FpsIndex(Split(lines[0], ", "));
    if fpsIndex < 0 then Ok(HeaderMissing)
    else
      var n := Taken(Cap(maxSamples), |lines| - 1);
      match Samples(lines[1..][..n], fpsIndex, parse)
      case Err(e) => Err(e)
      case Ok(s) => if s == [] then Ok(NothingPrinted) else Ok(Printed(Summarize(s)))
  }

  /** `main` after reading the file: one pass over its lines. */
  method Run(text: string, maxSamplesOption: Option<int>, parse: Ingest.ParseFloat) returns (r: Result<Outcome>)
    ensures r == Summarized(text, maxSamplesOption, parse)
  {
    var lines := Split(text, "\n");
    var currentLine := 0;
    var totalValue := 0.0;
    var minFps := MIN_START;
    var maxFps := MAX_START;
    var maxSamples := Cap(maxSamplesOption);
    var numSamples := 0;
    var fpsIndex := -1;
    ghost var samples: seq<real> := [];
    while currentLine < |lines|
      invariant 0 <= currentLine <= |lines|
      invariant currentLine == 0 ==> numSamples == 0
      invariant currentLine > 0 ==>
        && fpsIndex == FpsIndex(Split(lines[0], ", ")) >= 0
        && numSamples == currentLine - 1
        && Samples(lines[1..][..currentLine - 1], fpsIndex, parse) == Ok(samples)
      invariant |samples| == numSamples
      invariant totalValue == Sum(samples)
      invariant minFps == RunningMin(MIN_START, samples) && maxFps == RunningMax(MAX_START, samples)
      invariant maxSamples > 0 ==> numSamples <= maxSamples
    {
      var line := lines[currentLine];
      var parsedLine := Split(line, ", ");
      if currentLine == 0 {
        fpsIndex := FindFpsColumn(parsedLine);
        if fpsIndex == -1 {
          r := Ok(HeaderMissing);
          assert OfLines(lines, maxSamplesOption, parse) == r;
          return;
        }
      }
      if maxSamples > 0 && numSamples >= maxSamples {
        break;
      }
      if currentLine > 0 {
        assert lines[1..][..currentLine][..currentLine - 1] == lines[1..][..currentLine - 1];
        assert lines[1..][currentLine - 1] == line;
        if fpsIndex >= |parsedLine| {
          r := Err(IndexError);
          assert Sample(line, fpsIndex, parse) == Err(IndexError);
          OfLinesRaises(lines, maxSamplesOption, parse, currentLine, samples);
          return;
        }
        var value := parse(parsedLine[fpsIndex]);
        if value.None? {
          r := Err(ValueError);
          assert Sample(line, fpsIndex, parse) == Err(ValueError);
          OfLinesRaises(lines, maxSamplesOption, parse, currentLine, samples);
          return;
        }
        totalValue := totalValue + value.value;
        minFps := Min(minFps, value.value);
        maxFps := Max(maxFps, value.value);
        numSamples := numSamples + 1;
        samples := samples + [value.value];
      }
      currentLine := currentLine + 1;
    }
    assert currentLine == Taken(maxSamples, |lines| - 1) + 1;
    OfLinesFinishes(lines, maxSamplesOption, parse, samples);
    if numSamples > 0 {
      r := Ok(Printed(Summary(totalValue / numSamples as real, minFps, maxFps)));
    } else {
      r := Ok(NothingPrinted);
    }
  }

  /** The outcome when data line `k` (within the cap) is the first that
      cannot be read. */
  lemma OfLinesRaises(lines: seq<string>, maxSamples: Option<int>, parse: Ingest.ParseFloat,
                      k: nat, samples: seq<real>)
    requires lines != [] && FpsIndex(Split(lines[0], ", ")) >= 0
    requires 1 <= k <= Taken(Cap(maxSamples), |lines| - 1)
    requires Samples(lines[1..][..k - 1], FpsIndex(Split(lines[0], ", ")), parse) == Ok(samples)
    requires Sample(lines[k], FpsIndex(Split(lines[0], ", ")), parse).Err?
    ensures OfLines(lines, maxSamples, parse) == Err(Sample(lines[k], FpsIndex(Split(lines[0], ", ")), parse).error)
  {
    var fpsIndex := FpsIndex(Split(lines[0], ", "));
    var data := lines[1..][..Taken(Cap(maxSamples), |lines| - 1)];
    assert data[..k] == lines[1..][..k];
    assert data[..k][..k - 1] == lines[1..][..k - 1];
    assert data[..k][k - 1] == lines[k];
    SamplesFailureSticks(data, k, fpsIndex, parse);
  }

  /** The outcome when every data line within the cap has been read. */
  lemma OfLinesFinishes(lines: seq<string>, maxSamples: Option<int>, parse: Ingest.ParseFloat, samples: seq<real>)
    requires lines != [] && FpsIndex(Split(lines[0], ", ")) >= 0
    requires Samples(lines[1..][..Taken(Cap(maxSamples), |lines| - 1)], FpsIndex(Split(lines[0], ", ")), parse) == Ok(samples)
    ensures OfLines(lines, maxSamples, parse) == if samples == [] then Ok(NothingPrinted) else Ok(Printed(Summarize(samples)))
  {
  }

  /** Once the first data lines raise, reading more raises the same. */
  lemma {:induction false} SamplesFailureSticks(data: seq<string>, k: nat, fpsIndex: nat, parse: Ingest.ParseFloat)
    requires k <= |data|
    requires Samples(data[..k], fpsIndex, parse).Err?
    ensures Samples(data, fpsIndex, parse) == Samples(data[..k], fpsIndex, parse)
    decreases |data| - k
  {
    if k < |data| {
      assert data[..k + 1][..k] == data[..k];
      SamplesFailureSticks(data, k + 1, fpsIndex, parse);
    } else {
      assert data[..k] == data;
    }
  }

  /** Reading succeeds exactly when every data line has a parsable value in
      the fps column; then there is one sample per line, in order. A
      failure is the exception of the first bad line. */
  lemma {:induction false} SamplesMeaning(data: seq<string>, fpsIndex: nat, parse: Ingest.ParseFloat)
    ensures Samples(data, fpsIndex, parse).Ok? <==> forall i :: 0 <= i < |data| ==> Sample(data[i], fpsIndex, parse).Ok?
    ensures Samples(data, fpsIndex, parse).Ok? ==>
              var s := Samples(data, fpsIndex, parse).value;
              |s| == |data| && forall i :: 0 <= i < |data| ==> Sample(data[i], fpsIndex, parse) == Ok(s[i])
    ensures Samples(data, fpsIndex, parse).Err? ==>
              exists i :: 0 <= i < |data| && Sample(data[i], fpsIndex, parse).Err?
                          && Samples(data, fpsIndex, parse).error == Sample(data[i], fpsIndex, parse).error
                          && forall j :: 0 <= j < i ==> Sample(data[j], fpsIndex, parse).Ok?
  {
    if data != [] {
      var prefix := data[..|data| - 1];
      SamplesMeaning(prefix, fpsIndex, parse);
      assert forall i :: 0 <= i < |prefix| ==> prefix[i] == data[i];
      if Samples(prefix, fpsIndex, parse).Err? {
        var i :| 0 <= i < |prefix| && Sample(prefix[i], fpsIndex, parse).Err?
                 && Samples(prefix, fpsIndex, parse).error == Sample(prefix[i], fpsIndex, parse).error
                 && forall j :: 0 <= j < i ==> Sample(prefix[j], fpsIndex, parse).Ok?;
        assert Sample(data[i], fpsIndex, parse).Err?;
      } else if Sample(data[|data| - 1], fpsIndex, parse).Err? {
        assert Sample(data[|data| - 1], fpsIndex, parse).Err?;
      }
    }
  }

  /** When a summary is printed, the minimum is at most 666, the maximum at
      least 0, and the average lies between them. */
  lemma PrintedBounds(text: string, maxSamples: Option<int>, parse: Ingest.ParseFloat)
    requires Summarized(text, maxSamples, parse).Ok? && Summarized(text, maxSamples, parse).value.Printed?
    ensures var p := Summarized(text, maxSamples, parse).value.summary;
      p.minFps <= MIN_START && p.maxFps >= MAX_START && p.minFps <= p.avg <= p.maxFps
  {
    var lines := Split(text, "\n");
    var fpsIndex := FpsIndex(Split(lines[0], ", "));
    var n := Taken(Cap(maxSamples), |lines| - 1);
    SummaryBounds(Samples(lines[1..][..n], fpsIndex, parse).value);
  }

  /** With a positive cap, at most that many samples are summarized; with no
      cap, every line after the header is a sample. */
  lemma SampleCount(text: string, maxSamples: Option<int>, parse: Ingest.ParseFloat)
    requires Summarized(text, maxSamples, parse).Ok? && Summarized(text, maxSamples, parse).value.Printed?
    ensures var lines := Split(text, "\n");
      exists s :: s != [] && Summarized(text, maxSamples, parse).value.summary == Summarize(s)
                 && (Cap(maxSamples) > 0 ==> |s| <= Cap(maxSamples))
                 && (Cap(maxSamples) <= 0 ==> |s| == |lines| - 1)
  {
    var lines := Split(text, "\n");
    var fpsIndex := FpsIndex(Split(lines[0], ", "));
    var n := Taken(Cap(maxSamples), |lines| - 1);
    SamplesMeaning(lines[1..][..n], fpsIndex, parse);
    var s := Samples(lines[1..][..n], fpsIndex, parse).value;
    assert Summarized(text, maxSamples, parse).value.summary == Summarize(s);
  }

  /** The header, line 0, has an "fps" field. */
  predicate HasFpsColumn(lines: seq<string>)
    requires lines != []
  {
    FpsIndex(Split(lines[0], ", ")) >= 0
  }

  /** An empty line has no value: its only field is empty, so a column
      after the first is missing and the first is not a number. */
  lemma EmptyLineRaises(fpsIndex: nat, parse: Ingest.ParseFloat)
    requires parse("") == None
    ensures Sample("", fpsIndex, parse).Err?
  {
    assert Split("", ", ") == [""];
  }

  /** One unreadable data line makes the whole read raise. */
  lemma SamplesRaise(data: seq<string>, fpsIndex: nat, parse: Ingest.ParseFloat, i: nat)
    requires i < |data| && Sample(data[i], fpsIndex, parse).Err?
    ensures Samples(data, fpsIndex, parse).Err?
  {
    SamplesMeaning(data, fpsIndex, parse);
  }

  /** Uncapped, a log whose last line is empty raises. */
  lemma LastLineEmptyRaises(lines: seq<string>, maxSamples: Option<int>, parse: Ingest.ParseFloat)
    requires |lines| >= 2 && lines[|lines| - 1] == ""
    requires HasFpsColumn(lines)
    requires Cap(maxSamples) <= 0
    requires parse("") == None
    ensures OfLines(lines, maxSamples, parse).Err?
  {
    var fpsIndex := FpsIndex(Split(lines[0], ", "));
    var data := lines[1..][..|lines| - 1];
    assert data[|data| - 1] == "";
    EmptyLineRaises(fpsIndex, parse);
    SamplesRaise(data, fpsIndex, parse, |data| - 1);
  }

  /** A log that ends with a newline has an empty last line; unless a cap
      stops the loop first, reading it raises. */
  lemma TrailingNewlineRaises(text: string, maxSamples: Option<int>, parse: Ingest.ParseFloat)
    requires |text| > 0 && text[|text| - 1] == '\n'
    requires HasFpsColumn(Split(text, "\n"))
    requires Cap(maxSamples) <= 0
    requires parse("") == None
    ensures Summarized(text, maxSamples, parse).Err?
  {
    TrailingNewlineLinesRaise(text, maxSamples, parse);
  }

  lemma TrailingNewlineLinesRaise(text: string, maxSamples: Option<int>, parse: Ingest.ParseFloat)
    requires |text| > 0 && text[|text| - 1] == '\n'
    requires HasFpsColumn(Split(text, "\n"))
    requires Cap(maxSamples) <= 0
    requires parse("") == None
    ensures OfLines(Split(text, "\n"), maxSamples, parse).Err?
  {
    SplitTrailingSeparator(text, "\n");
    LastLineEmptyRaises(Split(text, "\n"), maxSamples, parse);
  }
}
