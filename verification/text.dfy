/** The few string operations of Python's `str` that the scripts rely on:
    `split` with a separator, `strip`, `lower`, code-point ordering of
    strings (the order `sorted` uses) and decimal rendering of integers. */
module Text {

  // ---------------------------------------------------------------------
  // split / join
  // ---------------------------------------------------------------------

  /** `s.split(sep)` for a non-empty separator: cut at the leftmost,
      non-overlapping occurrences of `sep`; always at least one piece. */
  function Split(s: string, sep: string): (r: seq<string>)
    requires sep != []
    ensures |r| >= 1
  {
    SplitFrom(s, sep, 0, 0)
  }

  /** The pieces of `s[start..]` when the scan for `sep` has reached `i`
      and the current piece began at `start`. */
  function SplitFrom(s: string, sep: string, start: nat, i: nat): (r: seq<string>)
    requires sep != [] && start <= i <= |s|
    ensures |r| >= 1
    decreases |s| - i
  {
    if i + |sep| > |s| then [s[start..]]
    else if SepAt(s, sep, i, 0) then [s[start..i]] + SplitFrom(s, sep, i + |sep|, i + |sep|)
    else SplitFrom(s, sep, start, i + 1)
  }

  /** The separator occurs at `i`, compared from its `j`-th character on. */
  predicate SepAt(s: string, sep: string, i: nat, j: nat)
    requires i + |sep| <= |s| && j <= |sep|
    decreases |sep| - j
  {
    j == |sep| || (s[i + j] == sep[j] && SepAt(s, sep, i, j + 1))
  }

  lemma {:induction false} SepAtIff(s: string, sep: string, i: nat, j: nat)
    requires i + |sep| <= |s| && j <= |sep|
    ensures SepAt(s, sep, i, j) <==> s[i + j..i + |sep|] == sep[j..]
    decreases |sep| - j
  {
    if j < |sep| {
      SepAtIff(s, sep, i, j + 1);
      assert s[i + j..i + |sep|] == [s[i + j]] + s[i + j + 1..i + |sep|];
      assert sep[j..] == [sep[j]] + sep[j + 1..];
    }
  }

  /** `sep.join(parts)`. */
  function Join(parts: seq<string>, sep: string): string
  {
    if parts == [] then ""
    else if |parts| == 1 then parts[0]
    else parts[0] + sep + Join(parts[1..], sep)
  }

  lemma {:induction false} JoinSplitFrom(s: string, sep: string, start: nat, i: nat)
    requires sep != [] && start <= i <= |s|
    ensures Join(SplitFrom(s, sep, start, i), sep) == s[start..]
    decreases |s| - i
  {
    if i + |sep| > |s| {
      assert SplitFrom(s, sep, start, i) == [s[start..]];
    } else if SepAt(s, sep, i, 0) {
      JoinSplitFrom(s, sep, i + |sep|, i + |sep|);
      JoinAtSeparator(s, sep, start, i);
    } else {
      assert SplitFrom(s, sep, start, i) == SplitFrom(s, sep, start, i + 1);
      JoinSplitFrom(s, sep, start, i + 1);
    }
  }

  /** The step of `JoinSplitFrom` at a separator: the piece before it, the
      separator and the joined rest make up the text again. */
  lemma JoinAtSeparator(s: string, sep: string, start: nat, i: nat)
    requires sep != [] && start <= i && i + |sep| <= |s| && SepAt(s, sep, i, 0)
    requires Join(SplitFrom(s, sep, i + |sep|, i + |sep|), sep) == s[i + |sep|..]
    ensures Join(SplitFrom(s, sep, start, i), sep) == s[start..]
  {
    var k := i + |sep|;
    var rest := SplitFrom(s, sep, k, k);
    assert s[i..k] == sep by {
      SepAtIff(s, sep, i, 0);
      assert sep[0..] == sep;
    }
    assert SplitFrom(s, sep, start, i) == [s[start..i]] + rest;
    JoinCons(s[start..i], rest, sep);
    SliceAt(s, start, i, k);
  }

  /** Joining a first part onto a non-empty rest puts the separator between. */
  lemma JoinCons(first: string, rest: seq<string>, sep: string)
    requires rest != []
    ensures Join([first] + rest, sep) == first + sep + Join(rest, sep)
  {
    assert ([first] + rest)[1..] == rest;
  }

  /** A suffix of a text is cut at two points into three consecutive slices. */
  lemma SliceAt(s: string, a: nat, b: nat, c: nat)
    requires a <= b <= c <= |s|
    ensures s[a..] == s[a..b] + s[b..c] + s[c..]
  {
    assert s[a..] == s[a..b] + s[b..];
    assert s[b..] == s[b..c] + s[c..];
  }

  /** Splitting and joining back with the same separator gives the text back. */
  lemma JoinSplit(s: string, sep: string)
    requires sep != []
    ensures Join(Split(s, sep), sep) == s
  {
    JoinSplitFrom(s, sep, 0, 0);
  }

  lemma {:induction false} SplitFromCharPieces(s: string, c: char, start: nat, i: nat)
    requires start <= i <= |s|
    ensures |SplitFrom(s, [c], start, i)| >= 2 <==> c in s[i..]
    decreases |s| - i
  {
    if i + 1 > |s| {
    } else if SepAt(s, [c], i, 0) {
      assert s[i] == c;
    } else {
      assert s[i] != c by { assert SepAt(s, [c], i, 1); }
      SplitFromCharPieces(s, c, start, i + 1);
      assert s[i..] == [s[i]] + s[i + 1..];
    }
  }

  /** Splitting on one character gives two or more pieces exactly when
      that character occurs in the text. */
  lemma SplitCharPieces(s: string, c: char)
    ensures |Split(s, [c])| >= 2 <==> c in s
  {
    SplitFromCharPieces(s, c, 0, 0);
    assert s[0..] == s;
  }

  /** Text without the separator character splits into itself alone. */
  lemma SplitWithoutSeparator(s: string, c: char)
    requires c !in s
    ensures Split(s, [c]) == [s]
  {
    SplitCharPieces(s, c);
    JoinSplit(s, [c]);
  }

  lemma {:induction false} SplitFromTrailingSeparator(s: string, sep: string, start: nat, i: nat)
    requires |sep| == 1 && start <= i < |s| && s[|s| - 1] == sep[0]
    ensures var pieces := SplitFrom(s, sep, start, i); |pieces| >= 2 && pieces[|pieces| - 1] == ""
    decreases |s| - i
  {
    assert SepAt(s, sep, i, 0) <==> s[i] == sep[0] by { assert SepAt(s, sep, i, 1); }
    if SepAt(s, sep, i, 0) {
      var rest := SplitFrom(s, sep, i + 1, i + 1);
      assert SplitFrom(s, sep, start, i) == [s[start..i]] + rest;
      if i + 1 < |s| {
        SplitFromTrailingSeparator(s, sep, i + 1, i + 1);
      } else {
        assert s[i + 1..] == "";
      }
    } else {
      assert SplitFrom(s, sep, start, i) == SplitFrom(s, sep, start, i + 1);
      SplitFromTrailingSeparator(s, sep, start, i + 1);
    }
  }

  /** Text that ends with a one-character separator splits into two or
      more pieces, the last of them empty. */
  lemma SplitTrailingSeparator(s: string, sep: string)
    requires |sep| == 1 && |s| > 0 && s[|s| - 1] == sep[0]
    ensures var pieces := Split(s, sep); |pieces| >= 2 && pieces[|pieces| - 1] == ""
  {
    SplitFromTrailingSeparator(s, sep, 0, 0);
  }

  // ---------------------------------------------------------------------
  // strip / lower
  // ---------------------------------------------------------------------

  /** Python's `str.isspace` for one character. */
  predicate IsSpace(c: char)
  {
    var n := c as int;
    n == 0x20 || 0x09 <= n <= 0x0D || 0x1C <= n <= 0x1F || n == 0x85 || n == 0xA0
    || n == 0x1680 || 0x2000 <= n <= 0x200A || n == 0x2028 || n == 0x2029
    || n == 0x202F || n == 0x205F || n == 0x3000
  }

  function TrimLeft(s: string): (r: string)
    ensures |r| <= |s| && r == s[|s| - |r|..]
    ensures r == [] || !IsSpace(r[0])
    ensures forall i :: 0 <= i < |s| - |r| ==> IsSpace(s[i])
  {
    if s != [] && IsSpace(s[0]) then TrimLeft(s[1..]) else s
  }

  function TrimRight(s: string): (r: string)
    ensures |r| <= |s| && r == s[..|r|]
    ensures r == [] || !IsSpace(r[|r| - 1])
    ensures forall i :: |r| <= i < |s| ==> IsSpace(s[i])
  {
    if s != [] && IsSpace(s[|s| - 1]) then TrimRight(s[..|s| - 1]) else s
  }

  /** Every character is whitespace. */
  predicate AllSpace(x: string)
  {
    x == [] || (IsSpace(x[0]) && AllSpace(x[1..]))
  }

  lemma {:induction false} AllSpaceIff(x: string)
    ensures AllSpace(x) <==> forall i :: 0 <= i < |x| ==> IsSpace(x[i])
  {
    if x != [] {
      AllSpaceIff(x[1..]);
      assert forall i :: 1 <= i < |x| ==> x[i] == x[1..][i - 1];
    }
  }

  /** `s.strip()`: drop leading and trailing whitespace. The result is the
      middle of `s` cut into whitespace, the result, and whitespace. */
  function Strip(s: string): (r: string)
    ensures |r| <= |s|
    ensures r == [] || (!IsSpace(r[0]) && !IsSpace(r[|r| - 1]))
    ensures var a := |s| - |TrimLeft(s)|;
      && a + |r| <= |s| && s == s[..a] + r + s[a + |r|..]
      && AllSpace(s[..a]) && AllSpace(s[a + |r|..])
  {
    StripSlice(s);
    TrimRight(TrimLeft(s))
  }

  lemma {:induction false} StripSlice(s: string)
    ensures var t := TrimLeft(s); var a := |s| - |t|; var r := TrimRight(t);
      && a + |r| <= |s| && s == s[..a] + r + s[a + |r|..]
      && AllSpace(s[..a]) && AllSpace(s[a + |r|..])
  {
    var t := TrimLeft(s);
    var a := |s| - |t|;
    var r := TrimRight(t);
    LeadingSpace(s);
    TrailingSpace(t);
    Reassemble(s, a, t, r);
  }

  /** A text whose tail `t` starts with `r` is its head, `r`, and the rest. */
  lemma Reassemble(s: string, a: nat, t: string, r: string)
    requires a <= |s| && t == s[a..] && |r| <= |t| && r == t[..|r|]
    requires AllSpace(s[..a]) && AllSpace(t[|r|..])
    ensures a + |r| <= |s| && s == s[..a] + r + s[a + |r|..]
    ensures AllSpace(s[..a]) && AllSpace(s[a + |r|..])
  {
    assert s[a + |r|..] == t[|r|..];
    assert s == s[..a] + s[a..][..|r|] + s[a + |r|..];
  }

  /** What `TrimLeft` drops is whitespace. */
  lemma {:induction false} LeadingSpace(s: string)
    ensures AllSpace(s[..|s| - |TrimLeft(s)|])
  {
    var head := s[..|s| - |TrimLeft(s)|];
    AllSpaceIff(head);
    forall i | 0 <= i < |head| ensures IsSpace(head[i]) {
      assert head[i] == s[i];
    }
  }

  /** What `TrimRight` drops is whitespace. */
  lemma {:induction false} TrailingSpace(t: string)
    ensures AllSpace(t[|TrimRight(t)|..])
  {
    var n := |TrimRight(t)|;
    var tail := t[n..];
    AllSpaceIff(tail);
    forall i | 0 <= i < |tail| ensures IsSpace(tail[i]) {
      assert tail[i] == t[n + i];
    }
  }

  /** Stripping twice is stripping once. */
  lemma StripIdempotent(s: string)
    ensures Strip(Strip(s)) == Strip(s)
  {
    var r := Strip(s);
    assert TrimLeft(r) == r;
    assert TrimRight(r) == r;
  }

  /** `c.lower()` for an ASCII letter; other characters are kept. */
  function LowerChar(c: char): (d: char)
    ensures 'A' <= c <= 'Z' ==> 'a' <= d <= 'z'
    ensures !('A' <= c <= 'Z') ==> d == c
  {
    if 'A' <= c <= 'Z' then (c as int + 32) as char else c
  }

  /** `s.lower()`, ASCII case mapping. */
  function Lower(s: string): (r: string)
    ensures |r| == |s|
    ensures forall i :: 0 <= i < |s| ==> r[i] == LowerChar(s[i])
  {
    seq(|s|, i requires 0 <= i < |s| => LowerChar(s[i]))
  }

  // ---------------------------------------------------------------------
  // Ordering of strings by code point (Python's `<` on str)
  // ---------------------------------------------------------------------

  predicate LexLe(a: string, b: string)
    decreases |a|
  {
    |a| == 0 || (|b| > 0 && (a[0] < b[0] || (a[0] == b[0] && LexLe(a[1..], b[1..]))))
  }

  lemma {:induction false} LexLeTotal(a: string, b: string)
    ensures LexLe(a, b) || LexLe(b, a)
    decreases |a|
  {
    if |a| > 0 && |b| > 0 && a[0] == b[0] {
      LexLeTotal(a[1..], b[1..]);
    }
  }

  lemma {:induction false} LexLeAntisymmetric(a: string, b: string)
    requires LexLe(a, b) && LexLe(b, a)
    ensures a == b
    decreases |a|
  {
    if |a| > 0 {
      LexLeAntisymmetric(a[1..], b[1..]);
      assert a == [a[0]] + a[1..] && b == [b[0]] + b[1..];
    }
  }

  lemma {:induction false} LexLeTransitive(a: string, b: string, c: string)
    requires LexLe(a, b) && LexLe(b, c)
    ensures LexLe(a, c)
    decreases |a|
  {
    if |a| > 0 && a[0] == b[0] && b[0] == c[0] {
      LexLeTransitive(a[1..], b[1..], c[1..]);
    }
  }

  lemma LexLeAntisymmetricAll()
    ensures forall a, b :: LexLe(a, b) && LexLe(b, a) ==> a == b
  {
    forall a, b | LexLe(a, b) && LexLe(b, a) ensures a == b {
      LexLeAntisymmetric(a, b);
    }
  }

  /** `m` is the least element of `s` in code-point order. */
  predicate IsLeast(m: string, s: set<string>)
  {
    m in s && forall y :: y in s ==> LexLe(m, y)
  }

  /** Every finite, non-empty set of strings has a least element. */
  lemma {:induction false} LeastExists(s: set<string>)
    requires s != {}
    ensures exists m :: IsLeast(m, s)
    decreases |s|
  {
    var x :| x in s;
    if s == {x} {
      LexLeTotal(x, x);
      assert IsLeast(x, s);
    } else {
      var rest := s - {x};
      assert |rest| < |s|;
      LeastExists(rest);
      var m :| IsLeast(m, rest);
      LexLeTotal(x, m);
      if LexLe(x, m) {
        forall y | y in s ensures LexLe(x, y) {
          if y != x { assert y in rest; LexLeTransitive(x, m, y); }
          else { LexLeTotal(x, x); }
        }
        assert IsLeast(x, s);
      } else {
        assert LexLe(m, x);
        assert IsLeast(m, s);
      }
    }
  }

  /** `sorted(s)` for a set of strings: its elements in increasing order. */
  function SortedNames(s: set<string>): (r: seq<string>)
    ensures |r| == |s|
    ensures forall x :: x in r <==> x in s
    ensures forall i, j :: 0 <= i < j < |r| ==> r[i] != r[j] && LexLe(r[i], r[j])
    decreases |s|
  {
    if s == {} then []
    else
      LeastExists(s);
      LexLeAntisymmetricAll();
      var m :| IsLeast(m, s);
      [m] + SortedNames(s - {m})
  }

  // ---------------------------------------------------------------------
  // Decimal digits
  // ---------------------------------------------------------------------

  predicate IsDigit(c: char) { '0' <= c <= '9' }

  function DigitValue(c: char): (d: nat)
    requires IsDigit(c)
    ensures d < 10
  {
    c as int - '0' as int
  }

  function DigitChar(d: nat): (c: char)
    requires d < 10
    ensures IsDigit(c) && DigitValue(c) == d
  {
    ('0' as int + d) as char
  }

  /** `str(n)` for a non-negative integer. */
  function NatToString(n: nat): (r: string)
    ensures |r| >= 1
    ensures forall i :: 0 <= i < |r| ==> IsDigit(r[i])
  {
    if n < 10 then [DigitChar(n)] else NatToString(n / 10) + [DigitChar(n % 10)]
  }

  /** The value of a string of decimal digits. */
  function DigitsValue(s: string): nat
    requires forall i :: 0 <= i < |s| ==> IsDigit(s[i])
  {
    if s == [] then 0 else 10 * DigitsValue(s[..|s| - 1]) + DigitValue(s[|s| - 1])
  }

  /** Reading back the rendered digits gives the integer back. */
  lemma {:induction false} NatToStringRoundTrip(n: nat)
    ensures DigitsValue(NatToString(n)) == n
  {
    if n >= 10 {
      NatToStringRoundTrip(n / 10);
      var s := NatToString(n);
      assert s[..|s| - 1] == NatToString(n / 10);
    }
  }
}
