/** The text helpers of the report (`format_percent`, `get_delta`,
    `format_num`, `change`, `change_with_std_deviation`,
    `get_result_string`, fps-analysis/report-fps-traces.py). Numbers are
    rendered from their exact values: `"{:.2f}"` rounds half to even at the
    second decimal, `str(math.floor(n))` prints the integer part. */
module ReportFormat {
  import opened Text
  import opened Aggregate

  function Abs(x: real): real { if x < 0.0 then -x else x }

  /** The integer nearest to `y`, ties going to the even one. */
  function RoundHalfEven(y: real): (q: nat)
    requires y >= 0.0
    ensures Abs(q as real - y) <= 0.5
    ensures Abs(q as real - y) == 0.5 ==> q % 2 == 0
  {
    var f := y.Floor;
    var d := y - f as real;
    if d < 0.5 then f
    else if d > 0.5 then f + 1
    else if f % 2 == 0 then f
    else f + 1
  }

  /** `"{:.2f}".format(x)`: sign, integer part, a point and two decimals. */
  function Fixed2(x: real): (r: string)
    ensures |r| >= 4 && (r[0] == '-' || IsDigit(r[0]))
    ensures forall i :: 0 <= i < |r| ==> r[i] != ' ' && r[i] != '<'
    ensures IsDigit(r[|r| - 1])
  {
    var q := RoundHalfEven(Abs(x) * 100.0);
    var text := FixedText(q / 100, q % 100 / 10, q % 10);
    if x < 0.0 then "-" + text else text
  }

  predicate AllDigits(r: string)
  {
    forall i :: 0 <= i < |r| ==> IsDigit(r[i])
  }

  /** Text of the form `<digits>.<two digits>`. */
  predicate IsFixed2Text(r: string)
  {
    |r| >= 4 && r[|r| - 3] == '.' && AllDigits(r[..|r| - 3]) && AllDigits(r[|r| - 2..])
  }

  /** The number a `<digits>.<two digits>` text denotes. */
  function Fixed2Value(r: string): real
    requires IsFixed2Text(r)
  {
    DigitsValue(r[..|r| - 3]) as real + DigitsValue(r[|r| - 2..]) as real / 100.0
  }

  lemma TwoDigitsValue(d1: nat, d2: nat)
    requires d1 < 10 && d2 < 10
    ensures DigitsValue([DigitChar(d1), DigitChar(d2)]) == 10 * d1 + d2
  {
    var s := [DigitChar(d1), DigitChar(d2)];
    var first := s[..1];
    assert first[..0] == [];
    assert DigitsValue(first) == 10 * DigitsValue(first[..0]) + DigitValue(first[0]);
    assert DigitsValue(first) == d1;
    assert s[..|s| - 1] == first;
  }

  /** A non-negative number printed with two decimals reads back as the
      number rounded to the nearest hundredth. */
  lemma Fixed2RoundTrip(x: real)
    requires x >= 0.0
    ensures IsFixed2Text(Fixed2(x))
    ensures Fixed2Value(Fixed2(x)) == RoundHalfEven(x * 100.0) as real / 100.0
    ensures Abs(Fixed2Value(Fixed2(x)) - x) <= 0.005
  {
    var q := RoundHalfEven(x * 100.0);
    FixedTextValue(q / 100, q % 100 / 10, q % 10);
    HundredthsSplit(q);
    HundredthsClose(q, x);
  }

  /** The integer part and the two decimal digits of `q / 100` add up to it. */
  lemma HundredthsSplit(q: nat)
    ensures (q / 100) as real + (10 * (q % 100 / 10) + q % 10) as real / 100.0 == q as real / 100.0
  {
    var n, r := q / 100, q % 100;
    assert q == 100 * n + r;
    assert r == 10 * (r / 10) + r % 10;
    assert r % 10 == q % 10 by {
      assert q == 10 * (10 * n + r / 10) + r % 10;
    }
    assert q as real == 100.0 * (n as real) + r as real;
  }

  /** An integer within one half of `100 x`, divided by 100, is within
      half a hundredth of `x`. */
  lemma HundredthsClose(q: nat, x: real)
    requires Abs(q as real - x * 100.0) <= 0.5
    ensures Abs(q as real / 100.0 - x) <= 0.005
  {
    assert q as real / 100.0 - x == (q as real - x * 100.0) / 100.0;
  }

  /** An integer part, a point and two decimal digits. */
  function FixedText(n: nat, d1: nat, d2: nat): string
    requires d1 < 10 && d2 < 10
  {
    NatToString(n) + "." + [DigitChar(d1), DigitChar(d2)]
  }

  lemma FixedTextValue(n: nat, d1: nat, d2: nat)
    requires d1 < 10 && d2 < 10
    ensures IsFixed2Text(FixedText(n, d1, d2))
    ensures Fixed2Value(FixedText(n, d1, d2)) == n as real + (10 * d1 + d2) as real / 100.0
  {
    var head := NatToString(n);
    var tail := [DigitChar(d1), DigitChar(d2)];
    var r := FixedText(n, d1, d2);
    assert r[..|r| - 3] == head;
    assert r[|r| - 2..] == tail;
    NatToStringRoundTrip(n);
    TwoDigitsValue(d1, d2);
  }

  /** `format_num(n)`: the integer part when the fraction is below one
      hundredth, otherwise two decimals. The source asserts `n >= 0`. */
  function FormatNum(n: real): (r: string)
    requires n >= 0.0
    ensures |r| >= 1
    ensures forall i :: 0 <= i < |r| ==> IsDigit(r[i]) || r[i] == '.'
    ensures IsDigit(r[|r| - 1])
  {
    if n - n.Floor as real < 0.01 then NatToString(n.Floor) else Fixed2(n)
  }

  /** The number a rendered `format_num` text denotes. */
  function NumValue(r: string): real
    requires AllDigits(r) || IsFixed2Text(r)
  {
    if AllDigits(r) then DigitsValue(r) as real else Fixed2Value(r)
  }

  /** `format_num` prints a whole number exactly when the fraction is below
      a hundredth, and what it prints reads back as a value less than a
      hundredth below `n` and at most half a hundredth above it. */
  lemma FormatNumValue(n: real)
    requires n >= 0.0
    ensures var r := FormatNum(n);
      && (AllDigits(r) || IsFixed2Text(r))
      && (AllDigits(r) <==> n - n.Floor as real < 0.01)
      && n - 0.01 < NumValue(r) <= n + 0.005
  {
    var r := FormatNum(n);
    if n - n.Floor as real < 0.01 {
      NatToStringRoundTrip(n.Floor);
    } else {
      Fixed2RoundTrip(n);
      assert !AllDigits(r) by { assert r[|r| - 3] == '.'; }
    }
  }

  /** `format_percent(frac)`. */
  function FormatPercent(frac: real): (r: string)
    ensures r == "<.01%" <==> 0.0 < Abs(frac) < 0.0001
    ensures |r| >= 2 && r[|r| - 1] == '%'
    ensures forall i :: 0 <= i < |r| ==> r[i] != ' '
  {
    if Abs(frac) > 0.0 && Abs(frac) < 0.0001 then "<.01%"
    else
      var r := Fixed2(frac * 100.0) + "%";
      assert r[0] != '<';
      r
  }

  /** `get_delta(b, a)`: the relative change in parentheses, or nothing
      when either value is zero. */
  function GetDelta(b: real, a: real): (r: string)
    ensures r == "" <==> b == 0.0 || a == 0.0
    ensures r != "" ==> |r| >= 4 && r[0] == ' ' && r[1] == '(' && r[|r| - 1] == ')'
    ensures r == " (<.01%)" <==> b != 0.0 && a != 0.0 && 0.0 < Abs(a / b - 1.0) < 0.0001
  {
    if b != 0.0 && a != 0.0 then
      var p := FormatPercent(a / b - 1.0);
      assert p == "<.01%" <==> (" (" + p + ")")[2..|p| + 2] == "<.01%";
      " (" + p + ")"
    else ""
  }

  /** `change(b, a)`: "before -> after", then the delta. */
  function Change(b: real, a: real): (r: string)
    requires b >= 0.0 && a >= 0.0
  {
    FormatNum(b) + " -> " + FormatNum(a) + GetDelta(b, a)
  }

  /** The text before the first occurrence of `c` (all of it when there is none). */
  function UpTo(s: string, c: char): (r: string)
    ensures |r| <= |s| && r == s[..|r|] && c !in r
  {
    if s == [] || s[0] == c then [] else [s[0]] + UpTo(s[1..], c)
  }

  lemma {:induction false} UpToPrefix(x: string, y: string, c: char)
    requires c !in x && (y == [] || y[0] == c)
    ensures UpTo(x + y, c) == x
  {
    if x != [] {
      assert (x + y)[1..] == x[1..] + y;
      UpToPrefix(x[1..], y, c);
    }
  }

  /** Reads the two rendered numbers back out of a `change` text: the text
      before the first space, and the text after the arrow up to the next
      space. */
  function ChangeNumbers(r: string): (string, string)
  {
    var before := UpTo(r, ' ');
    if |before| + 4 <= |r| then (before, UpTo(r[|before| + 4..], ' ')) else (before, "")
  }

  lemma ChangeNumbersOfParts(fb: string, fa: string, d: string)
    requires ' ' !in fb && ' ' !in fa && (d == [] || d[0] == ' ')
    ensures ChangeNumbers(fb + " -> " + fa + d) == (fb, fa)
  {
    var rest := " -> " + fa + d;
    var r := fb + rest;
    assert fb + " -> " + fa + d == r;
    UpToPrefix(fb, rest, ' ');
    assert r[|fb| + 4..] == fa + d;
    UpToPrefix(fa, d, ' ');
  }

  /** The "before -> after" text gives both rendered numbers back. */
  lemma ChangeNumbersOfChange(b: real, a: real)
    requires b >= 0.0 && a >= 0.0
    ensures ChangeNumbers(Change(b, a)) == (FormatNum(b), FormatNum(a))
  {
    var fb, fa, d := FormatNum(b), FormatNum(a), GetDelta(b, a);
    assert ' ' !in fb by {
      forall i | 0 <= i < |fb| ensures fb[i] != ' ' { }
    }
    assert ' ' !in fa by {
      forall i | 0 <= i < |fa| ensures fa[i] != ' ' { }
    }
    ChangeNumbersOfParts(fb, fa, d);
  }

  /** Reading the numbers back out of a "before -> after" text recovers
      both values up to the rounding of `format_num`. */
  lemma ChangeRoundTrip(b: real, a: real)
    requires b >= 0.0 && a >= 0.0
    ensures var (x, y) := ChangeNumbers(Change(b, a));
      && (AllDigits(x) || IsFixed2Text(x)) && (AllDigits(y) || IsFixed2Text(y))
      && b - 0.01 < NumValue(x) <= b + 0.005 && a - 0.01 < NumValue(y) <= a + 0.005
  {
    ChangeNumbersOfChange(b, a);
    FormatNumValue(b);
    FormatNumValue(a);
  }

  /** `get_avg_std_deviation_string(m)`: "(avg , std)". */
  function AvgStdString(m: Measure): (r: string)
    requires m.avg >= 0.0 && m.std >= 0.0
    ensures |r| >= 2 && r[0] == '(' && r[|r| - 1] == ')'
  {
    "(" + FormatNum(m.avg) + " , " + FormatNum(m.std) + ")"
  }

  /** `change_with_std_deviation(b, a)`: both (avg , std) pairs, then the
      delta of the averages. */
  function ChangeWithStdDeviation(b: Measure, a: Measure): (r: string)
    requires b.avg >= 0.0 && b.std >= 0.0 && a.avg >= 0.0 && a.std >= 0.0
  {
    AvgStdString(b) + " -> " + AvgStdString(a) + GetDelta(b.avg, a.avg)
  }

  /** The trace name, a colon, and blanks up to column 50. */
  function Padded(p: string): (r: string)
  {
    var h := p + ": ";
    if |h| >= 50 then h else h + seq(50 - |h|, _ => ' ')
  }

  /** The name field is `max(len(p) + 2, 50)` characters: the name, ": ",
      then only blanks. */
  lemma PaddedShape(p: string)
    ensures |Padded(p)| == if |p| + 2 >= 50 then |p| + 2 else 50
    ensures Padded(p)[..|p| + 2] == p + ": "
    ensures forall i :: |p| + 2 <= i < |Padded(p)| ==> Padded(p)[i] == ' '
  {
  }

  /** One per-trace line of the report after its label. */
  function ResultString(p: string, b: Measure, a: Measure, showStdDeviation: bool): string
    requires b.avg >= 0.0 && b.std >= 0.0 && a.avg >= 0.0 && a.std >= 0.0
  {
    Padded(p) + (if showStdDeviation then ChangeWithStdDeviation(b, a) else Change(b.avg, a.avg))
  }

  /** `get_result_string`: pads the name with a loop, then appends the change. */
  method GetResultString(p: string, b: Measure, a: Measure, showStdDeviation: bool) returns (r: string)
    requires b.avg >= 0.0 && b.std >= 0.0 && a.avg >= 0.0 && a.std >= 0.0
    ensures |r| >= 50 && |r| >= |p| + 2 && r[..|p| + 2] == p + ": "
    ensures r == ResultString(p, b, a, showStdDeviation)
  {
    var q := p + ": ";
    while |q| < 50
      invariant |p| + 2 <= |q| && q[..|p| + 2] == p + ": "
      invariant |q| <= 50 || |q| == |p| + 2
      invariant forall i :: |p| + 2 <= i < |q| ==> q[i] == ' '
      decreases 50 - |q|
    {
      q := q + " ";
    }
    PaddedShape(p);
    assert q == Padded(p);
    if showStdDeviation {
      r := q + ChangeWithStdDeviation(b, a);
    } else {
      r := q + Change(b.avg, a.avg);
    }
  }
}
