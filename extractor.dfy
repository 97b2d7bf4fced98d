/** The scan of one file's diff body for TODO comments (git-todo.py, lines 194-225):
    the three scanner variables, the rule applied to each line, the loop over the
    body's lines, and the report over every file of a diff. */
module Extractor {
  import opened Wrappers
  import opened Text
  import opened Patterns
  import opened Segmenter

  /** The scanner's variables: the line number in the new version of the file, how many
      lines of the current finding were printed (0 when none is open), and the column
      at which the finding's comment starts. */
  datatype Cursor = Cursor(newLine: nat, count: nat, indent: nat)

  /** What the scanner prints: the location of a finding, or one of its comment lines. */
  datatype Event = At(path: string, line: nat) | Note(text: string)

  /** A scanner state together with the events printed so far (or by one step). */
  datatype Scanned = Scanned(cursor: Cursor, events: seq<Event>)

  /** The variables before the first line (lines 198-200). */
  const Start: Cursor := Cursor(0, 0, 0)

  /** One pass of the loop body (lines 202-225) on `line`: the new variables and what is
      printed. */
  function Step(path: string, c: Cursor, line: string): (r: Scanned)
    ensures |r.events| <= 2
    ensures r.events != [] ==> r.cursor.count > 0
  {
    match HunkNewStart(line)
    case Some(n) => Scanned(Cursor(n, 0, c.indent), [])
    case None =>
      if line == [] then Scanned(c, [])
      else
        var r := Classify(path, c, line);
        var n := if line[0] == ' ' || line[0] == '+' then r.cursor.newLine + 1 else r.cursor.newLine;
        Scanned(r.cursor.(newLine := n), r.events)
  }

  /** The TODO / continuation decision for a non-empty line that is not a hunk header
      (lines 207-222), before the line number moves on. */
  function Classify(path: string, c: Cursor, line: string): (r: Scanned)
    requires line != []
    ensures r.cursor.newLine == c.newLine
    ensures r.events != [] ==> r.cursor.count > 0
  {
    match TodoMatch(line)
    case Some(g) =>
      Scanned(Cursor(c.newLine, 1, g), (if c.count == 0 then [At(path, c.newLine)] else []) + [Note(line[g..])])
    case None =>
      if c.count > 0 && line[0] != '-' then
        match CommentMatch(line)
        case Some(g) =>
          if g == c.indent && LStripMarkers(line[g..]) != [] then Scanned(c.(count := c.count + 1), [Note(line[g..])])
          else Scanned(c.(count := 0), [])
        case None => Scanned(c.(count := 0), [])
      else Scanned(c, [])
  }

  /** The loop over the lines of one file (line 201): the variables after the last
      line and every event printed, in order. */
  function Scan(path: string, lines: seq<string>): (r: Scanned)
    ensures |r.events| <= 2 * |lines|
    decreases |lines|
  {
    if lines == [] then Scanned(Start, [])
    else
      var prev := Scan(path, lines[..|lines| - 1]);
      var r := Step(path, prev.cursor, lines[|lines| - 1]);
      Scanned(r.cursor, prev.events + r.events)
  }

  /** The scan of one file's diff body as the loop of lines 198-225 runs it. */
  method ScanFile(path: string, body: string) returns (events: seq<Event>)
    ensures events == Scan(path, SplitLines(body)).events
  {
    var lines := SplitLines(body);
    var newLine, count, indent := 0, 0, 0;
    events := [];
    for i := 0 to |lines|
      invariant Scan(path, lines[..i]) == Scanned(Cursor(newLine, count, indent), events)
    {
      ScanLast(path, lines, i);
      var printed;
      newLine, count, indent, printed := StepLine(path, newLine, count, indent, lines[i]);
      events := events + printed;
    }
    assert lines[..|lines|] == lines;
  }

  /** The body of the loop of lines 202-225 on one line: the new variables and what it
      prints. */
  method StepLine(path: string, newLine: nat, count: nat, indent: nat, line: string)
    returns (newLine': nat, count': nat, indent': nat, printed: seq<Event>)
    ensures Step(path, Cursor(newLine, count, indent), line) == Scanned(Cursor(newLine', count', indent'), printed)
  {
    newLine', count', indent', printed := newLine, count, indent, [];
    var hunk := HunkNewStart(line);
    if hunk.Some? {
      newLine' := hunk.value;
      count' := 0;
    } else if line != [] {
      count', indent', printed := ClassifyLine(path, newLine, count, indent, line);
      if line[0] == ' ' || line[0] == '+' {
        newLine' := newLine + 1;
      }
    }
  }

  /** The TODO / continuation decision of lines 207-222 on a non-empty line. */
  method ClassifyLine(path: string, newLine: nat, count: nat, indent: nat, line: string)
    returns (count': nat, indent': nat, printed: seq<Event>)
    requires line != []
    ensures Classify(path, Cursor(newLine, count, indent), line) == Scanned(Cursor(newLine, count', indent'), printed)
  {
    count', indent', printed := count, indent, [];
    var todo := TodoMatch(line);
    if todo.Some? {
      var opening := if count == 0 then [At(path, newLine)] else [];
      printed := opening + [Note(line[todo.value..])];
      count' := 1;
      indent' := todo.value;
    } else if count > 0 && line[0] != '-' {
      var comment := CommentMatch(line);
      if comment.Some? && comment.value == indent && LStripMarkers(line[comment.value..]) != [] {
        printed := [Note(line[comment.value..])];
        count' := count + 1;
      } else {
        count' := 0;
      }
    }
  }

  /** The scan of one more line is one more step. */
  lemma ScanLast(path: string, lines: seq<string>, i: nat)
    requires i < |lines|
    ensures var prev := Scan(path, lines[..i]);
            var r := Step(path, prev.cursor, lines[i]);
            Scan(path, lines[..i + 1]) == Scanned(r.cursor, prev.events + r.events)
  {
    assert lines[..i + 1][..i] == lines[..i];
  }

  /** A line that parses as a TODO is an added line, so it is never a hunk header. */
  lemma TodoLineIsNoHunk(line: string)
    requires TodoMatch(line).Some?
    ensures HunkNewStart(line).None?
  {
    HunkHeaderOpensWithAt(line);
  }

  /** A TODO line opens a finding, printing its location first, when none is open, and
      otherwise adds its comment to the open one; it is a line of the new file. */
  lemma StepTodoLine(path: string, c: Cursor, line: string, g: nat)
    requires TodoMatch(line) == Some(g)
    ensures Step(path, c, line)
            == Scanned(Cursor(c.newLine + 1, 1, g), (if c.count == 0 then [At(path, c.newLine)] else []) + [Note(line[g..])])
  {
    TodoLineIsNoHunk(line);
  }

  /** An empty line or a removed line prints nothing, keeps an open finding open and is
      not counted as a line of the new file. */
  lemma InertLine(path: string, c: Cursor, line: string)
    requires line == [] || line[0] == '-'
    ensures Step(path, c, line) == Scanned(c, [])
  {
    HunkHeaderOpensWithAt(line);
  }

  /** A hunk header sets the line counter to the new-file start it names, closes any open
      finding and prints nothing; every other line advances the counter by one exactly
      when it is a context or added line. */
  lemma LineCounterRule(path: string, c: Cursor, line: string)
    ensures var r := Step(path, c, line);
            match HunkNewStart(line)
            case Some(n) => r.cursor.newLine == n && r.cursor.count == 0 && r.events == []
            case None => r.cursor.newLine == c.newLine + (if IsNewSide(line) then 1 else 0)
  {
  }

  /** Some line of `lines` matches the TODO pattern. */
  predicate HasTodoLine(lines: seq<string>)
  {
    exists i :: 0 <= i < |lines| && TodoMatch(lines[i]).Some?
  }

  /** Without a TODO line, no finding is ever open and nothing is printed. */
  lemma {:induction false} ScanQuiet(path: string, lines: seq<string>)
    requires !HasTodoLine(lines)
    ensures Scan(path, lines).events == [] && Scan(path, lines).cursor.count == 0
    decreases |lines|
  {
    if lines != [] {
      var n := |lines| - 1;
      assert !HasTodoLine(lines[..n]) by {
        forall i | 0 <= i < n ensures TodoMatch(lines[..n][i]).None? {
          assert lines[..n][i] == lines[i];
        }
      }
      ScanQuiet(path, lines[..n]);
      assert TodoMatch(lines[n]).None?;
    }
  }

  /** What was printed after the first `k` lines is still there at the end. */
  lemma {:induction false} ScanGrows(path: string, lines: seq<string>, k: nat)
    requires k <= |lines|
    ensures Scan(path, lines[..k]).events <= Scan(path, lines).events
    decreases |lines|
  {
    if k < |lines| {
      var n := |lines| - 1;
      assert lines[..n][..k] == lines[..k];
      ScanGrows(path, lines[..n], k);
      assert lines[..|lines|] == lines;
      ScanLast(path, lines, n);
    } else {
      assert lines[..k] == lines;
    }
  }

  /** A file prints something exactly when one of its lines matches the TODO pattern. */
  lemma SilentIffNoTodo(path: string, lines: seq<string>)
    ensures Scan(path, lines).events == [] <==> !HasTodoLine(lines)
  {
    if HasTodoLine(lines) {
      var k :| 0 <= k < |lines| && TodoMatch(lines[k]).Some?;
      ScanLast(path, lines, k);
      StepTodoLine(path, Scan(path, lines[..k]).cursor, lines[k], TodoMatch(lines[k]).value);
      ScanGrows(path, lines, k + 1);
    } else {
      ScanQuiet(path, lines);
    }
  }

  /** The shape of what one file prints: it opens with a location, and its locations and
      comment lines are as `Located` says. */
  predicate WellFormed(path: string, events: seq<Event>)
  {
    (events != [] ==> events[0].At?) && Located(path, events)
  }

  /** Every location in `events` names `path` and is followed by the TODO comment that
      opened its finding; every comment line starts with a comment token and holds no
      newline. */
  predicate Located(path: string, events: seq<Event>)
  {
    (forall i :: 0 <= i < |events| && events[i].At? ==>
       events[i].path == path && i + 1 < |events| && events[i + 1].Note? && TodoTail(events[i + 1].text))
    && (forall i :: 0 <= i < |events| && events[i].Note? ==>
          CommentTokenLen(events[i].text) > 0 && '\n' !in events[i].text)
  }

  /** What a scan keeps true from line to line: the output so far is well formed, ends
      with a comment line, and is non-empty while a finding is open. */
  predicate ScanInvariant(path: string, r: Scanned)
  {
    WellFormed(path, r.events)
    && (r.events != [] ==> r.events[|r.events| - 1].Note?)
    && (r.cursor.count > 0 ==> r.events != [])
  }

  /** What one step prints, from the variables `c`: located comments ending with a
      comment line, opening with a location when no finding was open. */
  predicate StepShaped(path: string, c: Cursor, out: seq<Event>)
  {
    Located(path, out)
    && (out != [] ==> out[|out| - 1].Note?)
    && (c.count == 0 && out != [] ==> out[0].At?)
  }

  /** Appending a step's output keeps the output well formed. */
  lemma AppendKeepsWellFormed(path: string, events: seq<Event>, out: seq<Event>)
    requires WellFormed(path, events) && (events != [] ==> events[|events| - 1].Note?)
    requires Located(path, out)
    requires events == [] && out != [] ==> out[0].At?
    ensures WellFormed(path, events + out)
  {
    AppendKeepsLocations(path, events, out);
    AppendKeepsComments(path, events, out);
  }

  /** Locations stay followed by their opening comment when a step's output is
      appended. */
  lemma AppendKeepsLocations(path: string, events: seq<Event>, out: seq<Event>)
    requires WellFormed(path, events) && (events != [] ==> events[|events| - 1].Note?)
    requires Located(path, out)
    ensures forall i :: 0 <= i < |events + out| && (events + out)[i].At? ==>
              (events + out)[i].path == path && i + 1 < |events + out|
              && (events + out)[i + 1].Note? && TodoTail((events + out)[i + 1].text)
  {
    var all := events + out;
    forall i | 0 <= i < |all| && all[i].At?
      ensures all[i].path == path && i + 1 < |all| && all[i + 1].Note? && TodoTail(all[i + 1].text)
    {
      if i < |events| {
        assert all[i] == events[i];
        assert i + 1 < |events|;
        assert all[i + 1] == events[i + 1];
      } else {
        assert all[i] == out[i - |events|];
        assert all[i + 1] == out[i + 1 - |events|];
      }
    }
  }

  /** Comment lines stay single comment lines when a step's output is appended. */
  lemma AppendKeepsComments(path: string, events: seq<Event>, out: seq<Event>)
    requires WellFormed(path, events)
    requires Located(path, out)
    ensures forall i :: 0 <= i < |events + out| && (events + out)[i].Note? ==>
              CommentTokenLen((events + out)[i].text) > 0 && '\n' !in (events + out)[i].text
  {
    var all := events + out;
    forall i | 0 <= i < |all| && all[i].Note?
      ensures CommentTokenLen(all[i].text) > 0 && '\n' !in all[i].text
    {
      if i < |events| {
        assert all[i] == events[i];
      } else {
        assert all[i] == out[i - |events|];
      }
    }
  }

  /** The decision on a non-empty line free of newlines prints a shaped chunk. */
  lemma ClassifyShaped(path: string, c: Cursor, line: string)
    requires line != [] && '\n' !in line
    ensures StepShaped(path, c, Classify(path, c, line).events)
  {
    match TodoMatch(line)
    case Some(g) =>
      assert '\n' !in line[g..];
    case None =>
      if c.count > 0 && line[0] != '-' {
        match CommentMatch(line)
        case Some(g) =>
          assert '\n' !in line[g..];
        case None =>
      }
  }

  /** A step on a line free of newlines prints a shaped chunk. */
  lemma StepShapedOutput(path: string, c: Cursor, line: string)
    requires '\n' !in line
    ensures StepShaped(path, c, Step(path, c, line).events)
  {
    if HunkNewStart(line).None? && line != [] {
      ClassifyShaped(path, c, line);
    }
  }

  /** A finding is open after a step only if the step printed something or one was
      already open. */
  lemma StepOpensOnlyByPrinting(path: string, c: Cursor, line: string)
    ensures Step(path, c, line).cursor.count > 0 ==> Step(path, c, line).events != [] || c.count > 0
  {
  }

  /** One step keeps the scan invariant, for a line free of newlines. */
  lemma StepKeepsInvariant(path: string, prev: Scanned, line: string)
    requires ScanInvariant(path, prev) && '\n' !in line
    ensures var r := Step(path, prev.cursor, line);
            ScanInvariant(path, Scanned(r.cursor, prev.events + r.events))
  {
    var r := Step(path, prev.cursor, line);
    StepShapedOutput(path, prev.cursor, line);
    StepOpensOnlyByPrinting(path, prev.cursor, line);
    AppendKeepsWellFormed(path, prev.events, r.events);
  }

  /** Every file's output is well formed, whatever its lines. */
  lemma {:induction false} ScanWellFormed(path: string, lines: seq<string>)
    requires forall i :: 0 <= i < |lines| ==> '\n' !in lines[i]
    ensures WellFormed(path, Scan(path, lines).events)
    ensures ScanInvariant(path, Scan(path, lines))
    decreases |lines|
  {
    if lines != [] {
      var n := |lines| - 1;
      assert forall i :: 0 <= i < n ==> lines[..n][i] == lines[i];
      ScanWellFormed(path, lines[..n]);
      StepKeepsInvariant(path, Scan(path, lines[..n]), lines[n]);
    }
  }

  /** A context or added line: one that is part of the new version of the file. */
  predicate IsNewSide(line: string)
  {
    line != [] && (line[0] == ' ' || line[0] == '+')
  }

  /** How many lines of `lines` belong to the new version of the file. */
  function NewSideCount(lines: seq<string>): (n: nat)
    ensures n <= |lines|
    decreases |lines|
  {
    if lines == [] then 0
    else NewSideCount(lines[..|lines| - 1]) + (if IsNewSide(lines[|lines| - 1]) then 1 else 0)
  }

  /** The index of the last hunk header among `lines`, if any. */
  function LastHunk(lines: seq<string>): (r: Option<nat>)
    ensures r.Some? ==> r.value < |lines| && HunkNewStart(lines[r.value]).Some?
    decreases |lines|
  {
    if lines == [] then None
    else if HunkNewStart(lines[|lines| - 1]).Some? then Some(|lines| - 1)
    else LastHunk(lines[..|lines| - 1])
  }

  /** No hunk header comes after the one `LastHunk` finds. */
  lemma {:induction false} LastHunkIsLast(lines: seq<string>)
    ensures forall j :: 0 <= j < |lines| && (LastHunk(lines).None? || LastHunk(lines).value < j) ==>
              HunkNewStart(lines[j]).None?
    decreases |lines|
  {
    if lines != [] && HunkNewStart(lines[|lines| - 1]).None? {
      var prefix := lines[..|lines| - 1];
      LastHunkIsLast(prefix);
      assert forall j :: 0 <= j < |prefix| ==> prefix[j] == lines[j];
    }
  }

  /** The number, in the new version of the file, of the line that follows `lines`:
      the new-file start of the last hunk plus the new-side lines since its header, or,
      before any hunk header, the new-side lines counted from 0. */
  function ExpectedNewLine(lines: seq<string>): nat
  {
    match LastHunk(lines)
    case None => NewSideCount(lines)
    case Some(h) => NewLineSince(lines, h)
  }

  /** The number of the line after `lines` counted from the hunk header at `h`. */
  function NewLineSince(lines: seq<string>, h: nat): nat
    requires h < |lines| && HunkNewStart(lines[h]).Some?
  {
    HunkNewStart(lines[h]).value + NewSideCount(lines[h + 1..])
  }

  /** The scanner's line counter is the new-file number of the line that comes next. */
  lemma {:induction false} ScanTracksNewLine(path: string, lines: seq<string>)
    ensures Scan(path, lines).cursor.newLine == ExpectedNewLine(lines)
    decreases |lines|
  {
    if lines != [] {
      var n := |lines| - 1;
      var prefix := lines[..n];
      ScanTracksNewLine(path, prefix);
      LineCounterRule(path, Scan(path, prefix).cursor, lines[n]);
      if HunkNewStart(lines[n]).None? {
        ExpectedNewLineAfter(lines);
      } else {
        ExpectedNewLineAtHunk(lines);
      }
    }
  }

  /** After a hunk header, the next line is the one the header names. */
  lemma ExpectedNewLineAtHunk(lines: seq<string>)
    requires lines != [] && HunkNewStart(lines[|lines| - 1]).Some?
    ensures ExpectedNewLine(lines) == HunkNewStart(lines[|lines| - 1]).value
  {
    assert lines[|lines|..] == [];
  }

  /** Any other line moves the next line's number on exactly when it is a line of the
      new file. */
  lemma ExpectedNewLineAfter(lines: seq<string>)
    requires lines != [] && HunkNewStart(lines[|lines| - 1]).None?
    ensures ExpectedNewLine(lines)
            == ExpectedNewLine(lines[..|lines| - 1]) + (if IsNewSide(lines[|lines| - 1]) then 1 else 0)
  {
    var n := |lines| - 1;
    LastHunkSkips(lines);
    match LastHunk(lines[..n])
    case None =>
    case Some(h) => ExpectedNewLineInHunk(lines, h);
  }

  /** Inside the hunk opened at `h`, a line that is no hunk header moves the next line's
      number on exactly when it is a line of the new file. */
  lemma ExpectedNewLineInHunk(lines: seq<string>, h: nat)
    requires h < |lines| - 1 && HunkNewStart(lines[h]).Some?
    ensures h < |lines[..|lines| - 1]| && HunkNewStart(lines[..|lines| - 1][h]).Some?
    ensures NewLineSince(lines, h)
            == NewLineSince(lines[..|lines| - 1], h) + (if IsNewSide(lines[|lines| - 1]) then 1 else 0)
  {
    var prefix := lines[..|lines| - 1];
    NewSideCountTail(lines, h + 1);
    assert lines[h] == prefix[h];
  }

  /** A line that is no hunk header leaves the last hunk header where it was. */
  lemma LastHunkSkips(lines: seq<string>)
    requires lines != [] && HunkNewStart(lines[|lines| - 1]).None?
    ensures LastHunk(lines) == LastHunk(lines[..|lines| - 1])
  {
  }

  /** Counting the new-file lines of a tail of `lines` counts its last line last. */
  lemma NewSideCountTail(lines: seq<string>, k: nat)
    requires k < |lines|
    ensures NewSideCount(lines[k..])
            == NewSideCount(lines[..|lines| - 1][k..]) + (if IsNewSide(lines[|lines| - 1]) then 1 else 0)
  {
    var t := lines[k..];
    assert t[..|t| - 1] == lines[..|lines| - 1][k..];
    assert t[|t| - 1] == lines[|lines| - 1];
  }

  /** A TODO line met while no finding is open prints its location, with the new-file
      number of that line, and then its comment. */
  lemma FindingOpensAtTodoLine(path: string, lines: seq<string>, k: nat, g: nat)
    requires k < |lines| && TodoMatch(lines[k]) == Some(g)
    requires Scan(path, lines[..k]).cursor.count == 0
    ensures Scan(path, lines[..k + 1]).events
            == Scan(path, lines[..k]).events + [At(path, ExpectedNewLine(lines[..k])), Note(lines[k][g..])]
  {
    ScanLast(path, lines, k);
    ScanTracksNewLine(path, lines[..k]);
    StepTodoLine(path, Scan(path, lines[..k]).cursor, lines[k], g);
  }

  /** While a finding is open, a line that is neither a hunk header, empty nor a TODO
      prints its comment exactly when it is not a removed line, its comment starts in
      the TODO's column, and the comment holds something besides markers; any other
      such line that is not a removed line closes the finding. */
  lemma ContinuationRule(path: string, c: Cursor, line: string)
    requires HunkNewStart(line).None? && line != [] && TodoMatch(line).None? && c.count > 0
    ensures var r := Step(path, c, line);
            (r.events != [] <==>
               line[0] != '-' && CommentAt(line, c.indent)
               && exists i :: c.indent <= i < |line| && !IsMarker(line[i]))
    ensures var r := Step(path, c, line);
            r.events != [] ==> c.indent < |line| && r.events == [Note(line[c.indent..])]
    ensures var r := Step(path, c, line);
            r.events == [] && line[0] != '-' ==> r.cursor.count == 0
  {
    var r := Step(path, c, line);
    if line[0] != '-' && CommentAt(line, c.indent) {
      var t := line[c.indent..];
      StripEmptyIff(t);
      if LStripMarkers(t) != [] {
        var j :| 0 <= j < |t| && !IsMarker(t[j]);
        assert line[c.indent + j] == t[j];
      } else {
        forall i | c.indent <= i < |line| ensures IsMarker(line[i]) {
          assert line[i] == t[i - c.indent];
        }
      }
    }
  }

  /** `TODO.search(file_diff)` (line 196): in MULTILINE mode the pattern matches when
      the line at some line start of the body matches it. */
  predicate TodoSearch(body: string)
  {
    exists p: nat :: p <= |body| && IsLineStart(body, p) && TodoMatch(LineAt(body, p)).Some?
  }

  /** The search over the whole body finds a TODO exactly when one of the lines the
      loop visits is a TODO line. */
  lemma TodoSearchIffTodoLine(body: string)
    ensures TodoSearch(body) <==> HasTodoLine(SplitLines(body))
  {
    var lines := SplitLines(body);
    if TodoSearch(body) {
      var p: nat :| p <= |body| && IsLineStart(body, p) && TodoMatch(LineAt(body, p)).Some?;
      assert p < |body|;
      LinesAreSplitLines(body, p);
      assert TodoMatch(lines[LineNumberOf(body, p)]).Some?;
    }
    if HasTodoLine(lines) {
      var i :| 0 <= i < |lines| && TodoMatch(lines[i]).Some?;
      SplitLinesAreLines(body, i);
      var p := LineStartOf(body, i);
      assert IsLineStart(body, p) && TodoMatch(LineAt(body, p)).Some?;
    }
  }

  /** The output of one file (lines 196-225): nothing when the body holds no TODO. */
  function FileReport(f: FileDiff): seq<Event>
  {
    if TodoSearch(f.body) then Scan(f.path, SplitLines(f.body)).events else []
  }

  /** Skipping the files without a TODO changes nothing: a scan of such a file would
      print nothing anyway. */
  lemma PrefilterChangesNothing(f: FileDiff)
    ensures FileReport(f) == Scan(f.path, SplitLines(f.body)).events
  {
    TodoSearchIffTodoLine(f.body);
    SilentIffNoTodo(f.path, SplitLines(f.body));
  }

  /** The output of the files in order. */
  function Report(files: seq<FileDiff>): seq<Event>
    decreases |files|
  {
    if files == [] then [] else Report(files[..|files| - 1]) + FileReport(files[|files| - 1])
  }

  /** The report of one more file is the report so far followed by that file's output. */
  lemma ReportLast(files: seq<FileDiff>, i: nat)
    requires i < |files|
    ensures Report(files[..i + 1]) == Report(files[..i]) + FileReport(files[i])
  {
    assert files[..i + 1][..i] == files[..i];
  }

  /** Every location in the report names one of the files of the diff. */
  lemma {:induction false} ReportLocations(files: seq<FileDiff>)
    ensures forall k :: 0 <= k < |Report(files)| && Report(files)[k].At? ==>
              exists j :: 0 <= j < |files| && files[j].path == Report(files)[k].path
    decreases |files|
  {
    if files != [] {
      var n := |files| - 1;
      var f := files[n];
      var before := Report(files[..n]);
      var own := FileReport(f);
      var all: seq<Event> := before + own;
      ReportLocations(files[..n]);
      PrefilterChangesNothing(f);
      SplitLinesNoNewline(f.body);
      ScanWellFormed(f.path, SplitLines(f.body));
      forall k | 0 <= k < |all| && all[k].At?
        ensures exists j :: 0 <= j < |files| && files[j].path == all[k].path
      {
        if k < |before| {
          assert all[k] == before[k];
          var j :| 0 <= j < n && files[..n][j].path == before[k].path;
          assert files[j] == files[..n][j];
        } else {
          assert all[k] == own[k - |before|];
          assert files[n].path == own[k - |before|].path;
        }
      }
    }
  }

  /** A printed line: `at <path>:<line>` (line 209) or a comment indented by four
      spaces (lines 210 and 219). */
  function Render(e: Event): string
  {
    match e
    case At(path, n) => "at " + path + ":" + NatToDecimal(n)
    case Note(text) => "    " + text
  }

  function RenderAll(events: seq<Event>): (out: seq<string>)
    ensures |out| == |events|
    ensures forall i :: 0 <= i < |events| ==> out[i] == Render(events[i])
  {
    seq(|events|, i requires 0 <= i < |events| => Render(events[i]))
  }

  lemma RenderAllAppend(a: seq<Event>, b: seq<Event>)
    ensures RenderAll(a + b) == RenderAll(a) + RenderAll(b)
  {
    var whole, parts := RenderAll(a + b), RenderAll(a) + RenderAll(b);
    forall i | 0 <= i < |a + b| ensures whole[i] == parts[i] {
      if i < |a| {
        assert (a + b)[i] == a[i];
      } else {
        assert (a + b)[i] == b[i - |a|];
      }
    }
  }

  /** The last position of `ch` in `s`. */
  function LastIndexOf(s: string, ch: char): (r: Option<nat>)
    ensures r.Some? ==> r.value < |s| && s[r.value] == ch
    ensures forall j :: 0 <= j < |s| && (r.None? || r.value < j) ==> s[j] != ch
    decreases |s|
  {
    if s == [] then None
    else if s[|s| - 1] == ch then Some(|s| - 1)
    else
      var r := LastIndexOf(s[..|s| - 1], ch);
      assert forall j :: 0 <= j < |s| - 1 ==> s[..|s| - 1][j] == s[j];
      r
  }

  /** Reads a printed line back: a comment line by its indentation, a location by
      its prefix and its last colon, which the decimal line number never contains. */
  function ParseEvent(s: string): Option<Event>
  {
    if StartsAt(s, 0, "    ") then Some(Note(s[4..]))
    else if StartsAt(s, 0, "at ") then
      match LastIndexOf(s, ':')
      case None => None
      case Some(k) =>
        if 3 <= k && k + 1 < |s| && AllDigits(s[k + 1..]) then Some(At(s[3..k], DecimalValue(s[k + 1..])))
        else None
    else None
  }

  /** Every printed line can be read back into the event that printed it, so the
      output is unambiguous even for paths holding colons. */
  lemma RenderParseRoundTrip(e: Event)
    ensures ParseEvent(Render(e)) == Some(e)
  {
    match e
    case Note(text) => NoteRoundTrip(text);
    case At(path, n) => LocationRoundTrip(path, n);
  }

  /** A printed comment line reads back as that comment. */
  lemma NoteRoundTrip(text: string)
    ensures ParseEvent(Render(Note(text))) == Some(Note(text))
  {
    var s := "    " + text;
    assert s[..4] == "    ";
    assert s[4..] == text;
  }

  /** A printed location reads back as that path and line number. */
  lemma LocationRoundTrip(path: string, n: nat)
    ensures ParseEvent(Render(At(path, n))) == Some(At(path, n))
  {
    var ds := NatToDecimal(n);
    var s := "at " + path + ":" + ds;
    var k := 3 + |path|;
    assert s[0] == 'a';
    assert s[..3] == "at ";
    LastColonSeparates(path, ds);
    LocationFields(path, ds);
    DecimalRoundTrip(n);
  }

  /** The last colon of a printed location is the one before its digits. */
  lemma LastColonSeparates(path: string, ds: string)
    requires AllDigits(ds)
    ensures LastIndexOf("at " + path + ":" + ds, ':') == Some(3 + |path|)
  {
    var head := "at " + path + ":";
    var s := head + ds;
    assert s[|head| - 1] == ':';
    forall j | |head| <= j < |s| ensures s[j] != ':' {
      assert s[j] == ds[j - |head|];
    }
    LastIndexOfIs(s, ':', |head| - 1);
  }

  /** A character with none like it after it is the last one. */
  lemma LastIndexOfIs(s: string, ch: char, k: nat)
    requires k < |s| && s[k] == ch
    requires forall j :: k < j < |s| ==> s[j] != ch
    ensures LastIndexOf(s, ch) == Some(k)
  {
  }

  /** The path and the digits of a printed location lie on either side of its colon. */
  lemma LocationFields(path: string, ds: string)
    ensures ("at " + path + ":" + ds)[3..3 + |path|] == path
    ensures ("at " + path + ":" + ds)[3 + |path| + 1..] == ds
  {
    var s := "at " + path + ":" + ds;
    assert s == "at " + (path + (":" + ds));
  }

  /** The report of a whole diff (lines 164-225): the diff cut into files, each file
      with a TODO scanned, every event printed as one line. */
  method ReportTodos(diff: string) returns (out: seq<string>)
    ensures out == RenderAll(Report(Segments(diff)))
  {
    var files := SplitDiff(diff);
    out := [];
    for i := 0 to |files|
      invariant out == RenderAll(Report(files[..i]))
    {
      var f := files[i];
      ReportLast(files, i);
      RenderAllAppend(Report(files[..i]), FileReport(f));
      if TodoSearch(f.body) {
        var events := ScanFile(f.path, f.body);
        out := out + RenderAll(events);
      }
    }
    assert files[..|files|] == files;
  }
}

