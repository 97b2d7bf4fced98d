/** The three fixed patterns the scanner applies to one line of a diff body
    (git-todo.py, lines 183-193), written out as predicates and small parsers.
    A line here never holds `\n`, so `[^\n]` is any character and `$` is the end. */
module Patterns {
  import opened Wrappers
  import opened Text

  /** Length of the comment token (`#`, `//` or slash-star) that `t` opens with, or 0. */
  function CommentTokenLen(t: string): (n: nat)
    ensures n <= |t|
    ensures n == 1 <==> |t| >= 1 && t[0] == '#'
    ensures n == 2 <==> |t| >= 2 && t[0] == '/' && (t[1] == '/' || t[1] == '*')
    ensures n == 0 || n == 1 || n == 2
  {
    if |t| >= 1 && t[0] == '#' then 1
    else if |t| >= 2 && t[0] == '/' && (t[1] == '/' || t[1] == '*') then 2
    else 0
  }

  /** The first position at or after `i` that is not a space or tab. */
  function SkipBlanks(t: string, i: nat): (j: nat)
    requires i <= |t|
    ensures i <= j <= |t|
    ensures forall k :: i <= k < j ==> IsBlank(t[k])
    ensures j < |t| ==> !IsBlank(t[j])
    decreases |t| - i
  {
    if i < |t| && IsBlank(t[i]) then SkipBlanks(t, i + 1) else i
  }

  /** `TODO` in any letter case at position `i` of `t`. */
  predicate IsTodoWordAt(t: string, i: nat)
  {
    i + 4 <= |t|
    && (t[i] == 'T' || t[i] == 't') && (t[i + 1] == 'O' || t[i + 1] == 'o')
    && (t[i + 2] == 'D' || t[i + 2] == 'd') && (t[i + 3] == 'O' || t[i + 3] == 'o')
  }

  /** `t` is, in full, a capture of the TODO pattern's group:
      `(?:#|//|/\*)[ \t]*TODO[: \t][ \t]*[^\n]+` up to the end of the line.
      The blanks before `TODO` must all be skipped, since `T` is not a blank; the
      blanks after the separator may be given back to `[^\n]+`, so one more
      character of any kind is enough. */
  predicate TodoTail(t: string)
  {
    var c := CommentTokenLen(t);
    c > 0
    && var w := SkipBlanks(t, c);
       IsTodoWordAt(t, w) && w + 5 < |t| && (t[w + 4] == ':' || IsBlank(t[w + 4]))
  }

  /** The greatest `h` with `1 <= h < g` from which the TODO group matches to the end. */
  function LastTodoStart(line: string, g: nat): (r: Option<nat>)
    requires g <= |line|
    ensures r.Some? ==> 1 <= r.value < g && TodoTail(line[r.value..])
    ensures forall h :: 1 <= h < g && (r.None? || r.value < h) ==> !TodoTail(line[h..])
    decreases g
  {
    if g <= 1 then None
    else if TodoTail(line[g - 1..]) then Some(g - 1)
    else LastTodoStart(line, g - 1)
  }

  /** `TODO.search(line)` (line 207) and the start of its group 1: the line is an added
      line and, the leading `[^\n]*` being greedy, the group starts at the rightmost
      position from which it matches to the end of the line. */
  function TodoMatch(line: string): (r: Option<nat>)
    ensures r.Some? ==> |line| > 0 && line[0] == '+'
    ensures r.Some? ==> 1 <= r.value < |line| && TodoTail(line[r.value..])
    ensures r.Some? ==> forall h :: r.value < h < |line| ==> !TodoTail(line[h..])
    ensures r.None? ==> line == [] || line[0] != '+' || forall h :: 1 <= h < |line| ==> !TodoTail(line[h..])
  {
    if |line| > 0 && line[0] == '+' then LastTodoStart(line, |line|) else None
  }

  /** The COMMENT pattern `^[ \+][ \t]*((?:#|//|/\*)[^\n]+)$` matches `line` with
      group 1 starting at `g`. */
  predicate CommentAt(line: string, g: nat)
  {
    |line| > 0 && (line[0] == ' ' || line[0] == '+') && 1 <= g < |line|
    && (forall k :: 1 <= k < g ==> IsBlank(line[k]))
    && CommentTokenLen(line[g..]) > 0 && g + CommentTokenLen(line[g..]) < |line|
  }

  /** `COMMENT.search(line)` (line 215) and the start of its group 1: the group can
      only start right after the blanks that follow the marker. */
  function CommentMatch(line: string): (r: Option<nat>)
    ensures r.Some? ==> CommentAt(line, r.value)
    ensures forall g: nat :: CommentAt(line, g) ==> r == Some(g)
  {
    if |line| > 0 && (line[0] == ' ' || line[0] == '+') then
      var g := SkipBlanks(line, 1);
      var c := CommentTokenLen(line[g..]);
      if c > 0 && g + c < |line| then Some(g) else None
    else None
  }

  predicate IsMarker(c: char) { c == '#' || c == '/' || c == ' ' || c == '\t' }

  /** `t.lstrip("#/ \t")` (line 217). */
  function LStripMarkers(t: string): string
    decreases |t|
  {
    if t != [] && IsMarker(t[0]) then LStripMarkers(t[1..]) else t
  }

  /** The strip removes the longest prefix made only of markers: what is left is a
      suffix of `t` that is empty or opens with a character other than a marker. */
  lemma {:induction false} LStripMarkersSuffix(t: string)
    ensures var r := LStripMarkers(t);
            |r| <= |t| && r == t[|t| - |r|..]
            && (forall i :: 0 <= i < |t| - |r| ==> IsMarker(t[i]))
            && (r != [] ==> !IsMarker(r[0]))
    decreases |t|
  {
    if t != [] && IsMarker(t[0]) {
      LStripMarkersSuffix(t[1..]);
    }
  }

  /** The strip leaves something exactly when some character is not a marker. */
  lemma StripEmptyIff(t: string)
    ensures LStripMarkers(t) == [] <==> forall i :: 0 <= i < |t| ==> IsMarker(t[i])
  {
    LStripMarkersSuffix(t);
    var r := LStripMarkers(t);
    if r != [] {
      assert t[|t| - |r|] == r[0];
    }
  }

  /** `(?:,([0-9]+))?` at `a`: past a comma and digits, or nothing. */
  function OptionalCount(line: string, a: nat): (b: nat)
    requires a <= |line|
    ensures a <= b <= |line|
  {
    if a < |line| && line[a] == ',' && SpanDigits(line, a + 1) > a + 1 then SpanDigits(line, a + 1) else a
  }

  /** Where the digits of a field `[0-9]+(?:,([0-9]+))?` end, and where the field ends. */
  datatype FieldSpan = FieldSpan(digitsEnd: nat, end: nat)

  /** The field starting at `i`, if there are digits there. */
  function Field(line: string, i: nat): (r: Option<FieldSpan>)
    requires i <= |line|
    ensures r.Some? ==> i < r.value.digitsEnd <= r.value.end <= |line|
  {
    var j := SpanDigits(line, i);
    if j == i then None else Some(FieldSpan(j, OptionalCount(line, j)))
  }

  /** The new-file side of the hunk header from `k`, just past ` +`: a field, then ` @@`,
      giving the field's first number. */
  function NewSide(line: string, k: nat): (r: Option<nat>)
    requires k <= |line|
    ensures r.Some? ==> exists f :: Field(line, k) == Some(f) && StartsAt(line, f.end, " @@")
  {
    match Field(line, k)
    case None => None
    case Some(newField) =>
      if !StartsAt(line, newField.end, " @@") then None
      else
        SpanDigitsSkipsDigits(line, k);
        Some(DecimalValue(line[k..newField.digitsEnd]))
  }

  /** `HUNK_HEADER.match(line)` (lines 191-193, 202-203) and `int(m.group(3))`:
      `@@ -<a>[,<b>] +<c>[,<d>] @@` followed by anything, giving `c`. */
  function HunkNewStart(line: string): (r: Option<nat>)
    ensures r.Some? ==> StartsAt(line, 0, "@@ -")
  {
    if !StartsAt(line, 0, "@@ -") then None
    else
      match Field(line, 4)
      case None => None
      case Some(oldField) =>
        if !StartsAt(line, oldField.end, " +") then None
        else NewSide(line, oldField.end + 2)
  }

  /** A hunk header opens with `@`, so it is neither an added, a removed nor a context line. */
  lemma HunkHeaderOpensWithAt(line: string)
    ensures HunkNewStart(line).Some? ==> line[0] == '@'
  {
    if HunkNewStart(line).Some? {
      assert line[0] == line[..4][0];
    }
  }

  /** A field read at `i` is a non-empty run of digits followed by the text of an optional
      count: nothing, or a comma and a non-empty run of digits. */
  lemma FieldShape(line: string, i: nat)
    requires i <= |line| && Field(line, i).Some?
    ensures AllDigits(line[i..Field(line, i).value.digitsEnd])
    ensures IsCountText(line[Field(line, i).value.digitsEnd..Field(line, i).value.end])
  {
    var f := Field(line, i).value;
    SpanDigitsSkipsDigits(line, i);
    var j := f.digitsEnd;
    if f.end > j {
      SpanDigitsSkipsDigits(line, j + 1);
      assert line[j..f.end][1..] == line[j + 1..f.end];
    }
  }

  /** The text of a hunk header: `@@ -<a><s1> +<c><s2> @@<rest>`, with `a` and `c` runs of
      digits and `s1`, `s2` optional counts. */
  predicate HunkHeaderText(line: string, a: string, s1: string, c: string, s2: string, rest: string)
  {
    |a| >= 1 && AllDigits(a) && IsCountText(s1) && |c| >= 1 && AllDigits(c) && IsCountText(s2)
    && line == "@@ -" + (a + s1 + (" +" + (c + s2 + (" @@" + rest))))
  }

  /** `line` is a hunk header whose third field has the value `n`. */
  ghost predicate HunkHeaderFor(line: string, n: nat)
  {
    exists a, s1, c, s2, rest :: HunkHeaderText(line, a, s1, c, s2, rest) && DecimalValue(c) == n
  }

  /** Every line read as a hunk header has the header's form, and the number read is the
      value of its third field. */
  lemma HunkNewStartShape(line: string)
    requires HunkNewStart(line).Some?
    ensures HunkHeaderFor(line, HunkNewStart(line).value)
  {
    var d1, e1, d2, e2 := HunkCuts(line);
    HeaderLayout(line, d1, e1, d2, e2, HunkNewStart(line).value);
  }

  /** `line` cut into `@@ -`, digits up to `d1`, a count up to `e1`, ` +`, digits up to `d2`
      worth `n`, a count up to `e2` and ` @@`. */
  predicate HunkCutsAt(line: string, d1: nat, e1: nat, d2: nat, e2: nat, n: nat)
  {
    4 < d1 <= e1 && e1 + 2 < d2 <= e2 && e2 + 3 <= |line|
    && StartsAt(line, 0, "@@ -") && StartsAt(line, e1, " +") && StartsAt(line, e2, " @@")
    && AllDigits(line[4..d1]) && IsCountText(line[d1..e1])
    && AllDigits(line[e1 + 2..d2]) && IsCountText(line[d2..e2]) && DecimalValue(line[e1 + 2..d2]) == n
  }

  /** A line cut this way is a hunk header for `n`. */
  lemma HeaderLayout(line: string, d1: nat, e1: nat, d2: nat, e2: nat, n: nat)
    requires HunkCutsAt(line, d1, e1, d2, e2, n)
    ensures HunkHeaderFor(line, n)
  {
    var k := e1 + 2;
    NewSideText(line, k, d2, e2);
    OldSideText(line, d1, e1, k);
    HeaderPrefix(line);
    HeaderCompose(line, line[4..], line[k..], line[4..d1], line[d1..e1], line[k..d2], line[d2..e2], line[e2 + 3..]);
    HunkHeaderForWitness(line, line[4..d1], line[d1..e1], line[k..d2], line[d2..e2], line[e2 + 3..], n);
  }

  /** Where a line read as a hunk header is cut: the digits of the old-file field end at
      `d1` and its count at `e1`, where ` +` stands; the digits of the new-file field end at
      `d2` and its count at `e2`, where ` @@` stands. The number read is the value of the
      new-file digits. */
  lemma HunkCuts(line: string) returns (d1: nat, e1: nat, d2: nat, e2: nat)
    requires HunkNewStart(line).Some?
    ensures HunkCutsAt(line, d1, e1, d2, e2, HunkNewStart(line).value)
  {
    HunkParts(line);
    var f1 := Field(line, 4).value;
    NewSideParts(line, f1.end + 2);
    var f2 := Field(line, f1.end + 2).value;
    FieldShape(line, 4);
    FieldShape(line, f1.end + 2);
    d1, e1, d2, e2 := f1.digitsEnd, f1.end, f2.digitsEnd, f2.end;
  }

  /** A layout of `line` as a hunk header whose third field has value `n` shows that it is
      one. */
  lemma HunkHeaderForWitness(line: string, a: string, s1: string, c: string, s2: string, rest: string, n: nat)
    requires HunkHeaderText(line, a, s1, c, s2, rest) && DecimalValue(c) == n
    ensures HunkHeaderFor(line, n)
  {
  }

  /** A line opening with `@@ -` is `@@ -` followed by the rest of it. */
  lemma HeaderPrefix(line: string)
    requires StartsAt(line, 0, "@@ -")
    ensures line == "@@ -" + line[4..]
  {
    SliceTwo(line, 0, 4);
    assert line[0..] == line;
  }

  /** The pieces of a hunk header put back together. */
  lemma HeaderCompose(line: string, x: string, y: string, a: string, s1: string, c: string, s2: string, rest: string)
    requires line == "@@ -" + x
    requires x == (a + s1) + (" +" + y)
    requires y == (c + s2) + (" @@" + rest)
    ensures line == "@@ -" + (a + s1 + (" +" + (c + s2 + (" @@" + rest))))
  {
  }

  /** What the parse of a hunk header found: its first field after `@@ -` and then ` +`;
      the number read is that of the new-file side after them. */
  lemma HunkParts(line: string)
    requires HunkNewStart(line).Some?
    ensures 4 <= |line| && Field(line, 4).Some? && StartsAt(line, Field(line, 4).value.end, " +")
            && Field(line, 4).value.end + 2 <= |line|
            && HunkNewStart(line) == NewSide(line, Field(line, 4).value.end + 2)
  {
  }

  /** What the parse of a new-file side found: a field and then ` @@`; the number read is
      the value of the field's digits. */
  lemma NewSideParts(line: string, k: nat)
    requires k <= |line| && NewSide(line, k).Some?
    ensures Field(line, k).Some? && StartsAt(line, Field(line, k).value.end, " @@")
            && AllDigits(line[k..Field(line, k).value.digitsEnd])
            && NewSide(line, k) == Some(DecimalValue(line[k..Field(line, k).value.digitsEnd]))
  {
    SpanDigitsSkipsDigits(line, k);
  }

  /** The new-file side from `k`: a field up to `e`, then ` @@` and the rest of the line. */
  lemma NewSideText(line: string, k: nat, d: nat, e: nat)
    requires k <= d <= e && StartsAt(line, e, " @@")
    ensures line[k..] == (line[k..d] + line[d..e]) + (" @@" + line[e + 3..])
  {
    SliceThree(line, k, d, e);
    SliceTwo(line, e, e + 3);
  }

  /** Past `@@ -`: a field up to `e`, then ` +` and the new-file side from `k`. */
  lemma OldSideText(line: string, d: nat, e: nat, k: nat)
    requires 4 <= d <= e && StartsAt(line, e, " +") && k == e + 2
    ensures line[4..] == (line[4..d] + line[d..e]) + (" +" + line[k..])
  {
    SliceThree(line, 4, d, e);
    SliceTwo(line, e, k);
  }

  /** The text from `i` is the text from `i` to `j` followed by the text from `j`. */
  lemma SliceTwo(s: string, i: nat, j: nat)
    requires i <= j <= |s|
    ensures s[i..] == s[i..j] + s[j..]
  {
  }

  /** The text from `i` is its two pieces up to `k`, grouped, followed by the text from `k`. */
  lemma SliceThree(s: string, i: nat, j: nat, k: nat)
    requires i <= j <= k <= |s|
    ensures s[i..] == (s[i..j] + s[j..k]) + s[k..]
  {
    assert s[i..k] == s[i..j] + s[j..k];
  }

  /** `,<n>` when a count is present. */
  function CountSuffix(n: Option<nat>): string
  {
    match n
    case None => ""
    case Some(k) => "," + NatToDecimal(k)
  }

  /** A unified-diff hunk header as GNU diffutils writes it. */
  function HunkHeader(oldStart: nat, oldCount: Option<nat>, newStart: nat, newCount: Option<nat>, section: string): string
  {
    "@@ -" + (NatToDecimal(oldStart) + CountSuffix(oldCount)
      + (" +" + (NatToDecimal(newStart) + CountSuffix(newCount) + (" @@" + section))))
  }

  /** `x` sits at the front of `x + y`. */
  lemma StartsAtFront(x: string, y: string)
    ensures StartsAt(x + y, 0, x)
  {
    assert (x + y)[..|x|] == x;
  }

  /** An occurrence in `y` moves right by `|x|` when `x` is put in front. */
  lemma StartsAtShifted(x: string, y: string, i: nat, t: string)
    requires StartsAt(y, i, t)
    ensures StartsAt(x + y, |x| + i, t)
  {
    assert (x + y)[|x| + i..|x| + i + |t|] == y[i..i + |t|];
  }

  /** The optional count as written: empty, or a comma and at least one digit. */
  predicate IsCountText(cs: string)
  {
    cs == [] || (|cs| >= 2 && cs[0] == ',' && AllDigits(cs[1..]))
  }

  lemma CountSuffixIsCountText(n: Option<nat>)
    ensures IsCountText(CountSuffix(n))
  {
    match n
    case None =>
    case Some(k) => assert CountSuffix(n)[1..] == NatToDecimal(k);
  }

  /** Digits and an optional count, followed by a space, are read as one field of
      the hunk header: the digits, then the count. */
  lemma NumberField(line: string, i: nat, ds: string, cs: string)
    requires |ds| >= 1 && AllDigits(ds) && IsCountText(cs)
    requires StartsAt(line, i, ds + cs)
    requires i + |ds + cs| < |line| && line[i + |ds + cs|] == ' '
    ensures Field(line, i) == Some(FieldSpan(i + |ds|, i + |ds + cs|))
    ensures line[i..i + |ds|] == ds
  {
    StartsAtSplit(line, i, ds, cs);
    CountField(line, i + |ds|, cs);
    assert line[i + |ds|] == (if cs == [] then ' ' else ',');
    SpanDigitsOver(line, i, ds);
  }

  /** An occurrence of `x + y` is an occurrence of `x` followed by one of `y`. */
  lemma StartsAtSplit(s: string, i: nat, x: string, y: string)
    requires StartsAt(s, i, x + y)
    ensures StartsAt(s, i, x) && StartsAt(s, i + |x|, y)
  {
    var w := s[i..i + |x + y|];
    assert s[i..i + |x|] == w[..|x|];
    assert s[i + |x|..i + |x + y|] == w[|x|..];
  }

  /** A count written as text and followed by a space is read as the optional count. */
  lemma CountField(line: string, j: nat, cs: string)
    requires IsCountText(cs) && StartsAt(line, j, cs)
    requires j + |cs| < |line| && line[j + |cs|] == ' '
    ensures OptionalCount(line, j) == j + |cs|
  {
    if cs != [] {
      var ks := cs[1..];
      assert line[j] == cs[0];
      assert line[j + 1..j + |cs|] == ks;
      SpanDigitsOver(line, j + 1, ks);
    }
  }

  /** A hunk header written in the unified format is read back with its new-file start
      line, whatever the counts and the section text after it. */
  lemma HunkHeaderRoundTrip(oldStart: nat, oldCount: Option<nat>, newStart: nat, newCount: Option<nat>, section: string)
    ensures HunkNewStart(HunkHeader(oldStart, oldCount, newStart, newCount, section)) == Some(newStart)
  {
    var a, s1 := NatToDecimal(oldStart), CountSuffix(oldCount);
    var c, s2 := NatToDecimal(newStart), CountSuffix(newCount);
    CountSuffixIsCountText(oldCount);
    CountSuffixIsCountText(newCount);
    DecimalRoundTrip(newStart);
    HunkFieldsRead(a, s1, c, s2, section);
  }

  /** The parse of a header laid out as `@@ -<a><s1> +<c><s2> @@<section>`. */
  lemma HunkFieldsRead(a: string, s1: string, c: string, s2: string, section: string)
    requires |a| >= 1 && AllDigits(a) && IsCountText(s1)
    requires |c| >= 1 && AllDigits(c) && IsCountText(s2)
    ensures HunkNewStart("@@ -" + (a + s1 + (" +" + (c + s2 + (" @@" + section))))) == Some(DecimalValue(c))
  {
    var line := "@@ -" + (a + s1 + (" +" + (c + s2 + (" @@" + section))));
    HunkLayout(a + s1, c + s2, section);
    HunkFieldsAt(line, a, s1, c, s2);
  }

  /** Where the pieces of ` +<f2> @@<section>` sit. */
  lemma HunkTailLayout(f2: string, section: string)
    ensures StartsAt(" +" + (f2 + (" @@" + section)), 0, " +")
    ensures StartsAt(" +" + (f2 + (" @@" + section)), 2, f2)
    ensures StartsAt(" +" + (f2 + (" @@" + section)), 2 + |f2|, " @@")
  {
    var r3 := " @@" + section;
    var r2 := f2 + r3;
    StartsAtFront(" @@", section);
    StartsAtFront(f2, r3);
    StartsAtShifted(f2, r3, 0, " @@");
    StartsAtFront(" +", r2);
    StartsAtShifted(" +", r2, 0, f2);
    StartsAtShifted(" +", r2, |f2|, " @@");
  }

  /** Where the pieces of `@@ -<f1> +<f2> @@<section>` sit. */
  lemma HunkLayout(f1: string, f2: string, section: string)
    ensures StartsAt("@@ -" + (f1 + (" +" + (f2 + (" @@" + section)))), 0, "@@ -")
    ensures StartsAt("@@ -" + (f1 + (" +" + (f2 + (" @@" + section)))), 4, f1)
    ensures StartsAt("@@ -" + (f1 + (" +" + (f2 + (" @@" + section)))), 4 + |f1|, " +")
    ensures StartsAt("@@ -" + (f1 + (" +" + (f2 + (" @@" + section)))), 6 + |f1|, f2)
    ensures StartsAt("@@ -" + (f1 + (" +" + (f2 + (" @@" + section)))), 6 + |f1| + |f2|, " @@")
  {
    var r1 := " +" + (f2 + (" @@" + section));
    var r0 := f1 + r1;
    HunkTailLayout(f2, section);
    StartsAtFront(f1, r1);
    StartsAtShifted(f1, r1, 0, " +");
    StartsAtShifted(f1, r1, 2, f2);
    StartsAtShifted(f1, r1, 2 + |f2|, " @@");
    StartsAtFront("@@ -", r0);
    StartsAtShifted("@@ -", r0, 0, f1);
    StartsAtShifted("@@ -", r0, |f1|, " +");
    StartsAtShifted("@@ -", r0, |f1| + 2, f2);
    StartsAtShifted("@@ -", r0, |f1| + 2 + |f2|, " @@");
  }

  /** The parse of a line holding `@@ -`, a first field, ` +`, a second field and ` @@`
      one after the other. */
  lemma HunkFieldsAt(line: string, a: string, s1: string, c: string, s2: string)
    requires |a| >= 1 && AllDigits(a) && IsCountText(s1)
    requires |c| >= 1 && AllDigits(c) && IsCountText(s2)
    requires StartsAt(line, 0, "@@ -")
    requires StartsAt(line, 4, a + s1)
    requires StartsAt(line, 4 + |a + s1|, " +")
    requires StartsAt(line, 6 + |a + s1|, c + s2)
    requires StartsAt(line, 6 + |a + s1| + |c + s2|, " @@")
    ensures HunkNewStart(line) == Some(DecimalValue(c))
  {
    OldSideRead(line, a, s1);
    NewSideRead(line, 6 + |a + s1|, c, s2);
  }

  /** Past `@@ -`, digits and an optional count followed by ` +`, the parse is that of
      the new-file side. */
  lemma OldSideRead(line: string, a: string, s1: string)
    requires |a| >= 1 && AllDigits(a) && IsCountText(s1)
    requires StartsAt(line, 0, "@@ -")
    requires StartsAt(line, 4, a + s1)
    requires StartsAt(line, 4 + |a + s1|, " +")
    ensures HunkNewStart(line) == NewSide(line, 6 + |a + s1|)
  {
    StartsAtFirst(line, 4 + |a + s1|, " +");
    NumberField(line, 4, a, s1);
    HunkNewStartFrom(line, FieldSpan(4 + |a|, 4 + |a + s1|), 6 + |a + s1|);
  }

  /** Past `@@ -`, a first field and ` +`, the parse is that of the new-file side. */
  lemma HunkNewStartFrom(line: string, f: FieldSpan, k: nat)
    requires StartsAt(line, 0, "@@ -") && Field(line, 4) == Some(f) && StartsAt(line, f.end, " +")
    requires k == f.end + 2
    ensures HunkNewStart(line) == NewSide(line, k)
  {
  }

  /** The new-file side laid out as a number, an optional count and ` @@`. */
  lemma NewSideRead(line: string, k: nat, c: string, s2: string)
    requires |c| >= 1 && AllDigits(c) && IsCountText(s2)
    requires StartsAt(line, k, c + s2)
    requires StartsAt(line, k + |c + s2|, " @@")
    ensures NewSide(line, k) == Some(DecimalValue(c))
  {
    var j := k + |c + s2|;
    assert line[j] == line[j..j + 3][0] == ' ';
    NumberField(line, k, c, s2);
  }

  /** A comment token opens at `h` of `line`. */
  predicate TokenAt(line: string, h: nat)
  {
    h < |line| && (line[h] == '#' || (line[h] == '/' && h + 1 < |line| && (line[h + 1] == '/' || line[h + 1] == '*')))
  }

  /** Where no comment token opens, the TODO group cannot start. */
  lemma NoTokenNoTodo(line: string, lo: nat, hi: nat)
    requires lo <= hi <= |line|
    requires forall h :: lo <= h < hi ==> !TokenAt(line, h)
    ensures forall h :: lo <= h < hi ==> !TodoTail(line[h..])
  {
    forall h | lo <= h < hi ensures !TodoTail(line[h..]) {
      assert !TokenAt(line, h);
      assert line[h..][0] == line[h];
      if h + 1 < |line| { assert line[h..][1] == line[h + 1]; }
    }
  }

  /** On an added line, a TODO group at `g` with no comment token after it is the match. */
  lemma TodoMatchAt(line: string, g: nat)
    requires |line| > 0 && line[0] == '+' && 1 <= g < |line| && TodoTail(line[g..])
    requires forall h :: g < h < |line| ==> !TokenAt(line, h)
    ensures TodoMatch(line) == Some(g)
  {
    NoTokenNoTodo(line, g + 1, |line|);
  }

  /** On an added line with no TODO group at `g` and no comment token after it, there
      is no match. */
  lemma NoTodoMatchFrom(line: string, g: nat)
    requires |line| > 0 && 1 <= g < |line| && !TodoTail(line[g..])
    requires forall h :: 1 <= h < g ==> !TokenAt(line, h)
    requires forall h :: g < h < |line| ==> !TokenAt(line, h)
    ensures TodoMatch(line) == None
  {
    NoTokenNoTodo(line, 1, g);
    NoTokenNoTodo(line, g + 1, |line|);
  }

  /** The capture starts at the rightmost comment token: in `+/// TODO: x` it is
      `// TODO: x`, at column 2. */
  lemma TodoExampleRightmost()
    ensures TodoMatch("+/// TODO: x") == Some(2)
  {
    var line := "+/// TODO: x";
    assert SkipBlanks("// TODO: x", 2) == 3;
    assert line[2..] == "// TODO: x";
    TodoMatchAt(line, 2);
  }

  /** `TODO` is matched in any letter case: `+// todo fix` matches at column 1. */
  lemma TodoExampleLowerCase()
    ensures TodoMatch("+// todo fix") == Some(1)
  {
    var line := "+// todo fix";
    assert SkipBlanks("// todo fix", 2) == 3;
    assert line[1..] == "// todo fix";
    TodoMatchAt(line, 1);
  }

  /** A longer word is not `TODO`: `+// TODOS: x` does not match. */
  lemma TodoExampleLongerWord()
    ensures TodoMatch("+// TODOS: x") == None
  {
    var line := "+// TODOS: x";
    assert SkipBlanks("// TODOS: x", 2) == 3;
    assert line[1..] == "// TODOS: x";
    NoTodoMatchFrom(line, 1);
  }
}
