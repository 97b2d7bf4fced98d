/** Character classes, line boundaries, splitting and decimal numerals: the pieces of
    Python's string handling that the diff scanner relies on. */
module Text {

  /** The class `[ \t]` of the patterns. */
  predicate IsBlank(c: char) { c == ' ' || c == '\t' }

  /** The class `[0-9]` of the hunk-header pattern (ASCII digits only). */
  predicate IsDigit(c: char) { '0' <= c <= '9' }

  predicate AllDigits(s: string) { forall i :: 0 <= i < |s| ==> IsDigit(s[i]) }

  /** Position `p` is where a regex `^` matches in MULTILINE mode. */
  predicate IsLineStart(s: string, p: nat)
  {
    p == 0 || (p <= |s| && s[p - 1] == '\n')
  }

  /** `t` occurs in `s` at position `p`. */
  predicate StartsAt(s: string, p: nat, t: string)
  {
    p + |t| <= |s| && s[p..p + |t|] == t
  }

  /** An occurrence of a non-empty `t` at `p` opens with the first character of `t`. */
  lemma StartsAtFirst(s: string, p: nat, t: string)
    requires StartsAt(s, p, t) && |t| > 0
    ensures p < |s| && s[p] == t[0]
  {
    assert s[p] == s[p..p + |t|][0];
  }

  /** The end of the line holding position `p`: the first `\n` at or after `p`, or the end of `s`. */
  function LineEnd(s: string, p: nat): (e: nat)
    requires p <= |s|
    ensures p <= e <= |s|
    ensures e < |s| ==> s[e] == '\n'
    decreases |s| - p
  {
    if p == |s| || s[p] == '\n' then p else LineEnd(s, p + 1)
  }

  /** No newline comes before the end of the line holding `p`. */
  lemma {:induction false} LineEndNoNewline(s: string, p: nat)
    requires p <= |s|
    ensures forall k :: p <= k < LineEnd(s, p) ==> s[k] != '\n'
    decreases |s| - p
  {
    if p < |s| && s[p] != '\n' {
      LineEndNoNewline(s, p + 1);
    }
  }

  /** A position with no newline before it, back to `p`, and a newline or the end of
      the text at it, is the end of the line holding `p`. */
  lemma {:induction false} LineEndAt(s: string, p: nat, e: nat)
    requires p <= e <= |s|
    requires forall k :: p <= k < e ==> s[k] != '\n'
    requires e < |s| ==> s[e] == '\n'
    ensures LineEnd(s, p) == e
    decreases e - p
  {
    if p < e {
      LineEndAt(s, p + 1, e);
    }
  }

  /** Moving forward over characters that are not newlines stays on the same line. */
  lemma {:induction false} LineEndSkip(s: string, p: nat, q: nat)
    requires p <= q <= |s|
    requires forall k :: p <= k < q ==> s[k] != '\n'
    ensures LineEnd(s, p) == LineEnd(s, q)
    decreases q - p
  {
    if p < q {
      LineEndSkip(s, p + 1, q);
    }
  }

  /** A later start gives a line end no earlier. */
  lemma {:induction false} LineEndMonotone(s: string, p: nat, q: nat)
    requires p <= q <= |s|
    ensures LineEnd(s, p) <= LineEnd(s, q)
    decreases q - p
  {
    if p < q && s[p] != '\n' {
      LineEndMonotone(s, p + 1, q);
    }
  }

  /** Python's `str.split(sep)`: the pieces between separators, empty pieces kept. */
  function SplitOn(s: string, sep: char): (parts: seq<string>)
    ensures |parts| >= 1
    ensures forall i :: 0 <= i < |parts| ==> sep !in parts[i]
    decreases |s|
  {
    if s == [] then [[]]
    else
      var rest := SplitOn(s[1..], sep);
      if s[0] == sep then [[]] + rest
      else [[s[0]] + rest[0]] + rest[1..]
  }

  /** Python's `sep.join(parts)`. */
  function JoinWith(parts: seq<string>, sep: char): string
    requires |parts| >= 1
    decreases |parts|
  {
    if |parts| == 1 then parts[0] else parts[0] + [sep] + JoinWith(parts[1..], sep)
  }

  /** Splitting and joining again gives back the string. */
  lemma {:induction false} JoinSplit(s: string, sep: char)
    ensures JoinWith(SplitOn(s, sep), sep) == s
    decreases |s|
  {
    if s != [] {
      JoinSplit(s[1..], sep);
      var rest := SplitOn(s[1..], sep);
      if s[0] != sep {
        if |rest| == 1 {
          assert JoinWith(SplitOn(s, sep), sep) == [s[0]] + rest[0];
        } else {
          assert JoinWith(SplitOn(s, sep), sep) == [s[0]] + rest[0] + [sep] + JoinWith(rest[1..], sep);
        }
      }
    }
  }

  /** Joining pieces free of the separator and splitting again gives back the pieces. */
  lemma {:induction false} SplitJoin(parts: seq<string>, sep: char)
    requires |parts| >= 1
    requires forall i :: 0 <= i < |parts| ==> sep !in parts[i]
    ensures SplitOn(JoinWith(parts, sep), sep) == parts
    decreases |parts|, |parts[0]|
  {
    var p := parts[0];
    if p == [] {
      if |parts| > 1 {
        SplitJoin(parts[1..], sep);
        JoinEmptyHead(parts, sep);
        assert [p] + parts[1..] == parts;
      }
    } else {
      var shorter := [p[1..]] + parts[1..];
      assert sep !in p;
      assert sep !in shorter[0];
      SplitJoin(shorter, sep);
      JoinCharHead(parts, sep);
      assert [p[0]] + p[1..] == p;
      assert [[p[0]] + p[1..]] + parts[1..] == parts;
    }
  }

  /** Joining pieces whose first is empty opens with the separator. */
  lemma JoinEmptyHead(parts: seq<string>, sep: char)
    requires |parts| > 1 && parts[0] == []
    ensures JoinWith(parts, sep) != [] && JoinWith(parts, sep)[0] == sep
    ensures JoinWith(parts, sep)[1..] == JoinWith(parts[1..], sep)
  {
    assert JoinWith(parts, sep) == [sep] + JoinWith(parts[1..], sep);
  }

  /** Joining pieces whose first is not empty opens with that piece's first character,
      followed by the join with it removed. */
  lemma JoinCharHead(parts: seq<string>, sep: char)
    requires |parts| >= 1 && parts[0] != []
    ensures JoinWith(parts, sep) != [] && JoinWith(parts, sep)[0] == parts[0][0]
    ensures JoinWith(parts, sep)[1..] == JoinWith([parts[0][1..]] + parts[1..], sep)
  {
    var p := parts[0];
    var shorter := [p[1..]] + parts[1..];
    if |parts| == 1 {
      assert JoinWith(shorter, sep) == p[1..];
    } else {
      assert JoinWith(parts, sep) == [p[0]] + (p[1..] + [sep] + JoinWith(parts[1..], sep));
      assert shorter[1..] == parts[1..];
    }
  }

  /** The lines of `s` from the line start `p` on, each without its newline. */
  function LinesFrom(s: string, p: nat): seq<string>
    requires p <= |s|
    decreases |s| - p
  {
    if p == |s| then []
    else
      var e := LineEnd(s, p);
      [s[p..e]] + (if e == |s| then [] else LinesFrom(s, e + 1))
  }

  /** Python's `str.splitlines()` restricted to `\n` as the line separator: a final
      `\n` ends the last line rather than starting an empty one. */
  function SplitLines(s: string): seq<string>
  {
    LinesFrom(s, 0)
  }

  /** Every line followed by a newline. */
  function Unlines(lines: seq<string>): string
    decreases |lines|
  {
    if lines == [] then [] else lines[0] + "\n" + Unlines(lines[1..])
  }

  /** No line from `p` on holds a newline. */
  lemma {:induction false} LinesFromNoNewline(s: string, p: nat)
    requires p <= |s|
    ensures forall i :: 0 <= i < |LinesFrom(s, p)| ==> '\n' !in LinesFrom(s, p)[i]
    decreases |s| - p
  {
    if p < |s| {
      var e := LineEnd(s, p);
      LineEndNoNewline(s, p);
      assert forall k :: 0 <= k < e - p ==> s[p..e][k] != '\n';
      if e < |s| {
        LinesFromNoNewline(s, e + 1);
      }
    }
  }

  /** No element of `SplitLines(s)` holds a newline. */
  lemma SplitLinesNoNewline(s: string)
    ensures forall i :: 0 <= i < |SplitLines(s)| ==> '\n' !in SplitLines(s)[i]
  {
    LinesFromNoNewline(s, 0);
  }

  /** A line ended by a newline is followed by the lines after that newline. */
  lemma LinesFromNext(s: string, p: nat)
    requires p < |s| && LineEnd(s, p) < |s|
    ensures LinesFrom(s, p) == [s[p..LineEnd(s, p)]] + LinesFrom(s, LineEnd(s, p) + 1)
  {
  }

  /** A line that runs to the end of the text is the last one. */
  lemma LinesFromLast(s: string, p: nat)
    requires p < |s| && LineEnd(s, p) == |s|
    ensures LinesFrom(s, p) == [s[p..]]
  {
    assert s[p..LineEnd(s, p)] == s[p..];
  }

  /** Cutting the text from `p` at the newline at `e`. */
  lemma CutAtNewline(s: string, p: nat, e: nat)
    requires p <= e < |s| && s[e] == '\n'
    ensures s[p..] == s[p..e] + "\n" + s[e + 1..]
  {
    assert s[p..] == s[p..e] + s[e..];
    assert s[e..] == [s[e]] + s[e + 1..];
  }

  /** The lines from `p` on, each given back its newline, rebuild the text from `p`
      (with a newline added when the text did not end in one). */
  lemma {:induction false} UnlinesLinesFrom(s: string, p: nat)
    requires p <= |s|
    ensures p == |s| || s[|s| - 1] == '\n' ==> Unlines(LinesFrom(s, p)) == s[p..]
    ensures p < |s| && s[|s| - 1] != '\n' ==> Unlines(LinesFrom(s, p)) == s[p..] + "\n"
    decreases |s| - p
  {
    if p == |s| {
      assert LinesFrom(s, p) == [];
    } else {
      var e := LineEnd(s, p);
      if e == |s| {
        LineEndNoNewline(s, p);
        assert s[|s| - 1] != '\n';
        LinesFromLast(s, p);
        assert Unlines([s[p..]]) == s[p..] + "\n";
      } else {
        UnlinesLinesFrom(s, e + 1);
        LinesFromNext(s, p);
        CutAtNewline(s, p, e);
        var rest := LinesFrom(s, e + 1);
        assert Unlines(LinesFrom(s, p)) == s[p..e] + "\n" + Unlines(rest);
        if e + 1 == |s| || s[|s| - 1] == '\n' {
          assert s[|s| - 1] == '\n';
          assert Unlines(rest) == s[e + 1..];
        } else {
          assert Unlines(rest) == s[e + 1..] + "\n";
          assert s[p..e] + "\n" + (s[e + 1..] + "\n") == (s[p..e] + "\n" + s[e + 1..]) + "\n";
        }
      }
    }
  }

  /** The lines, each given back its newline, rebuild the input (with a newline added
      when the input did not end in one). */
  lemma UnlinesSplitLines(s: string)
    ensures Unlines(SplitLines(s)) == if s == [] || s[|s| - 1] == '\n' then s else s + "\n"
  {
    UnlinesLinesFrom(s, 0);
    assert s[0..] == s;
  }

  /** A text that continues at `p` with the newline-free lines `lines`, each ended by a
      newline, splits from `p` into exactly those lines. */
  lemma {:induction false} LinesFromUnlines(s: string, p: nat, lines: seq<string>)
    requires p <= |s| && s[p..] == Unlines(lines)
    requires forall i :: 0 <= i < |lines| ==> '\n' !in lines[i]
    ensures LinesFrom(s, p) == lines
    decreases |lines|
  {
    if lines != [] {
      var l := lines[0];
      var e := p + |l|;
      assert s[p..] == l + "\n" + Unlines(lines[1..]);
      assert e < |s| && s[e] == '\n' by {
        assert s[p..][|l|] == '\n';
      }
      forall k | p <= k < e
        ensures s[k] != '\n'
      {
        assert s[k] == s[p..][k - p] == l[k - p];
      }
      LineEndAt(s, p, e);
      assert s[p..e] == s[p..][..|l|] == l;
      assert s[e + 1..] == s[p..][|l| + 1..] == Unlines(lines[1..]);
      LinesFromUnlines(s, e + 1, lines[1..]);
      LinesFromNext(s, p);
      assert lines == [l] + lines[1..];
    }
  }

  /** Lines free of newlines survive a join and a split unchanged. */
  lemma SplitLinesUnlines(lines: seq<string>)
    requires forall i :: 0 <= i < |lines| ==> '\n' !in lines[i]
    ensures SplitLines(Unlines(lines)) == lines
  {
    var s := Unlines(lines);
    assert s[0..] == s;
    LinesFromUnlines(s, 0, lines);
  }

  /** The first position at or after `i` that is not a digit: `i` plus the length of
      the longest run of digits starting at `i`. */
  function SpanDigits(s: string, i: nat): (j: nat)
    requires i <= |s|
    ensures i <= j <= |s|
    ensures j < |s| ==> !IsDigit(s[j])
    decreases |s| - i
  {
    if i < |s| && IsDigit(s[i]) then SpanDigits(s, i + 1) else i
  }

  /** Everything `SpanDigits` skips is a digit. */
  lemma {:induction false} SpanDigitsSkipsDigits(s: string, i: nat)
    requires i <= |s|
    ensures AllDigits(s[i..SpanDigits(s, i)])
    decreases |s| - i
  {
    if i < |s| && IsDigit(s[i]) {
      SpanDigitsSkipsDigits(s, i + 1);
      var j := SpanDigits(s, i);
      assert forall k :: 0 < k < j - i ==> s[i..j][k] == s[i + 1..j][k - 1];
    }
  }

  /** A run of digits from `i` to `j` followed by a non-digit (or the end) is exactly
      what `SpanDigits` skips. */
  lemma {:induction false} SpanDigitsAt(s: string, i: nat, j: nat)
    requires i <= j <= |s|
    requires forall k :: i <= k < j ==> IsDigit(s[k])
    requires j == |s| || !IsDigit(s[j])
    ensures SpanDigits(s, i) == j
    decreases j - i
  {
    if i < j {
      SpanDigitsAt(s, i + 1, j);
    }
  }

  function DigitValue(c: char): nat
    requires IsDigit(c)
  {
    (c as int - '0' as int) as nat
  }

  function DigitChar(d: nat): (c: char)
    requires d < 10
    ensures IsDigit(c) && DigitValue(c) == d
  {
    ('0' as int + d) as char
  }

  /** Python's `int()` on a string of ASCII digits (leading zeros allowed). */
  function DecimalValue(ds: string): nat
    requires AllDigits(ds)
    decreases |ds|
  {
    if ds == [] then 0 else 10 * DecimalValue(ds[..|ds| - 1]) + DigitValue(ds[|ds| - 1])
  }

  /** Python's `str()` on a non-negative integer: its decimal numeral without leading zeros. */
  function NatToDecimal(n: nat): (ds: string)
    ensures |ds| >= 1 && AllDigits(ds)
    ensures |ds| > 1 ==> ds[0] != '0'
    decreases n
  {
    if n < 10 then [DigitChar(n)] else NatToDecimal(n / 10) + [DigitChar(n % 10)]
  }

  /** Reading back a numeral written by `NatToDecimal` gives the number. */
  lemma {:induction false} DecimalRoundTrip(n: nat)
    ensures DecimalValue(NatToDecimal(n)) == n
    decreases n
  {
    if n >= 10 {
      DecimalRoundTrip(n / 10);
      var ds := NatToDecimal(n);
      assert ds[..|ds| - 1] == NatToDecimal(n / 10);
    }
  }

  /** A run of digits followed by a non-digit (or the end) is exactly what `SpanDigits` skips. */
  lemma SpanDigitsOver(s: string, i: nat, ds: string)
    requires StartsAt(s, i, ds) && AllDigits(ds)
    requires i + |ds| == |s| || !IsDigit(s[i + |ds|])
    ensures SpanDigits(s, i) == i + |ds|
  {
    assert forall k :: i <= k < i + |ds| ==> s[k] == ds[k - i];
    SpanDigitsAt(s, i, i + |ds|);
  }

  /** The line `^…$` of `s` that starts at position `p`. */
  function LineAt(s: string, p: nat): string
    requires p <= |s|
  {
    s[p..LineEnd(s, p)]
  }

  /** No line holds a newline. */
  lemma LineAtNoNewline(s: string, p: nat)
    requires p <= |s|
    ensures '\n' !in LineAt(s, p)
  {
    LineEndNoNewline(s, p);
    assert forall k :: 0 <= k < LineEnd(s, p) - p ==> LineAt(s, p)[k] == s[p + k];
  }

  /** Where the `i`-th of the lines from `p` starts in `s` (the last line's start once
      `i` runs past the last line). */
  function LineStartFrom(s: string, p: nat, i: nat): (t: nat)
    requires p <= |s|
    ensures p <= t <= |s|
    decreases |s| - p
  {
    var e := LineEnd(s, p);
    if i == 0 || e == |s| then p else LineStartFrom(s, e + 1, i - 1)
  }

  /** Where the `i`-th element of `SplitLines(s)` starts in `s`. */
  function LineStartOf(s: string, i: nat): nat
  {
    LineStartFrom(s, 0, i)
  }

  /** The first of the lines from a position before the end is the line there. */
  lemma LinesFromHead(s: string, p: nat)
    requires p < |s|
    ensures |LinesFrom(s, p)| >= 1 && LinesFrom(s, p)[0] == LineAt(s, p)
    ensures LineEnd(s, p) == |s| ==> |LinesFrom(s, p)| == 1
  {
  }

  /** The `i`-th line from a line ended by a newline is the `i-1`-th after it. */
  lemma LinesFromIndex(s: string, p: nat, i: nat)
    requires p < |s| && LineEnd(s, p) < |s| && 0 < i < |LinesFrom(s, p)|
    ensures LineEnd(s, p) + 1 < |s| && IsLineStart(s, LineEnd(s, p) + 1)
    ensures i - 1 < |LinesFrom(s, LineEnd(s, p) + 1)|
    ensures LinesFrom(s, p)[i] == LinesFrom(s, LineEnd(s, p) + 1)[i - 1]
    ensures LineStartFrom(s, p, i) == LineStartFrom(s, LineEnd(s, p) + 1, i - 1)
  {
    LinesFromNext(s, p);
    assert LinesFrom(s, |s|) == [];
  }

  /** Counting lines from a line start only ever lands on line starts. */
  lemma {:induction false} LineStartFromIsLineStart(s: string, p: nat, i: nat)
    requires p <= |s| && IsLineStart(s, p)
    ensures IsLineStart(s, LineStartFrom(s, p, i))
    decreases |s| - p
  {
    var e := LineEnd(s, p);
    if i > 0 && e < |s| {
      assert LineStartFrom(s, p, i) == LineStartFrom(s, e + 1, i - 1);
      LineStartFromIsLineStart(s, e + 1, i - 1);
    }
  }

  /** How many lines there are from `p` on. */
  function LineCountFrom(s: string, p: nat): nat
    requires p <= |s|
    decreases |s| - p
  {
    if p == |s| then 0
    else if LineEnd(s, p) == |s| then 1
    else 1 + LineCountFrom(s, LineEnd(s, p) + 1)
  }

  /** A line ended by a newline adds one to the lines after it. */
  lemma LinesFromNextLength(s: string, p: nat)
    requires p < |s| && LineEnd(s, p) < |s|
    ensures |LinesFrom(s, p)| == 1 + |LinesFrom(s, LineEnd(s, p) + 1)|
  {
    LinesFromNext(s, p);
  }

  /** `LineCountFrom` counts the lines from `p` on. */
  lemma {:induction false} LinesFromLength(s: string, p: nat)
    requires p <= |s|
    ensures |LinesFrom(s, p)| == LineCountFrom(s, p)
    decreases |s| - p
  {
    if p == |s| {
      assert LinesFrom(s, p) == [];
    } else if LineEnd(s, p) == |s| {
      LinesFromHead(s, p);
    } else {
      LinesFromNextLength(s, p);
      LinesFromLength(s, LineEnd(s, p) + 1);
    }
  }

  /** The `i`-th of the lines from `p`, when there is one, starts before the end. */
  lemma {:induction false} LineStartFromInText(s: string, p: nat, i: nat)
    requires p <= |s| && i < LineCountFrom(s, p)
    ensures LineStartFrom(s, p, i) < |s|
    decreases |s| - p
  {
    if i > 0 {
      LineStartFromInText(s, LineEnd(s, p) + 1, i - 1);
    }
  }

  /** Every line from the line start `p` on is the line at a later line start. */
  lemma {:induction false} LinesFromAreLines(s: string, p: nat, i: nat)
    requires p < |s| && i < |LinesFrom(s, p)|
    ensures LinesFrom(s, p)[i] == LineAt(s, LineStartFrom(s, p, i))
    decreases |s| - p
  {
    if i == 0 {
      LinesFromHead(s, p);
    } else {
      LinesFromIndex(s, p, i);
      LinesFromAreLines(s, LineEnd(s, p) + 1, i - 1);
    }
  }

  /** Every element of `SplitLines(s)` is the line at a line start of `s`. */
  lemma SplitLinesAreLines(s: string, i: nat)
    requires i < |SplitLines(s)|
    ensures LineStartOf(s, i) < |s|
    ensures IsLineStart(s, LineStartOf(s, i))
    ensures SplitLines(s)[i] == LineAt(s, LineStartOf(s, i))
  {
    LineStartFromIsLineStart(s, 0, i);
    LinesFromLength(s, 0);
    LineStartFromInText(s, 0, i);
    LinesFromAreLines(s, 0, i);
  }

  /** How many lines, counting from the one at `p`, come before the line holding `t`. */
  function LineNumberFrom(s: string, p: nat, t: nat): nat
    requires p <= t <= |s|
    decreases |s| - p
  {
    var e := LineEnd(s, p);
    if t <= e then 0 else 1 + LineNumberFrom(s, e + 1, t)
  }

  /** How many newlines precede the line holding position `t`. */
  function LineNumberOf(s: string, t: nat): nat
    requires t <= |s|
  {
    LineNumberFrom(s, 0, t)
  }

  /** The only line start on the line that starts at `p` is `p` itself. */
  lemma LineStartWithinLine(s: string, p: nat, t: nat)
    requires p <= t <= |s| && t <= LineEnd(s, p) && IsLineStart(s, t)
    ensures t == p
  {
    LineEndNoNewline(s, p);
  }

  /** Counting lines from `p` up to the line start `t` and then counting that many lines
      forward from `p` comes back to `t`. */
  lemma {:induction false} LineStartOfNumber(s: string, p: nat, t: nat)
    requires p <= t < |s| && IsLineStart(s, t)
    ensures LineNumberFrom(s, p, t) < LineCountFrom(s, p)
    ensures LineStartFrom(s, p, LineNumberFrom(s, p, t)) == t
    decreases |s| - p
  {
    if t <= LineEnd(s, p) {
      LineStartWithinLine(s, p, t);
    } else {
      LineStartOfNumber(s, LineEnd(s, p) + 1, t);
    }
  }

  /** Every line start `t` at or after `p` and before the end holds one of the lines from `p` on. */
  lemma LinesFromHaveLine(s: string, p: nat, t: nat)
    requires p <= t < |s| && IsLineStart(s, t)
    ensures LineNumberFrom(s, p, t) < |LinesFrom(s, p)|
    ensures LinesFrom(s, p)[LineNumberFrom(s, p, t)] == LineAt(s, t)
  {
    LineStartOfNumber(s, p, t);
    LinesFromLength(s, p);
    LinesFromAreLines(s, p, LineNumberFrom(s, p, t));
  }

  /** Every line start of `s` before its end holds one of the elements of `SplitLines(s)`. */
  lemma LinesAreSplitLines(s: string, t: nat)
    requires t < |s| && IsLineStart(s, t)
    ensures LineNumberOf(s, t) < |SplitLines(s)|
    ensures SplitLines(s)[LineNumberOf(s, t)] == LineAt(s, t)
  {
    LinesFromHaveLine(s, 0, t);
  }
}
