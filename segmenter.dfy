/** Slicing the text of `git diff --no-prefix` into one record per file
    (git-todo.py, lines 164-180). */
module Segmenter {
  import opened Wrappers
  import opened Text

  /** One file's part of the diff: the new path, the header text from its
      `diff --git` line through its `+++` line, and the hunk text after it. */
  datatype FileDiff = FileDiff(path: string, header: string, body: string)

  /** `t` opens with `diff --git ` and at least one more character on the same line. */
  predicate IsHeaderStartLine(t: string)
  {
    |t| > 11 && t[..11] == "diff --git " && t[11] != '\n'
  }

  /** The pattern `^diff --git [^\n]+$` (MULTILINE) matches at `p`. */
  predicate HeaderStartAt(s: string, p: nat)
  {
    p <= |s| && IsLineStart(s, p) && IsHeaderStartLine(s[p..])
  }

  /** The pattern `^--- ([^\n]+)\n\+\+\+ ([^\n]+)$` (MULTILINE) matches at `p`:
      a `--- X` line directly followed by a `+++ Y` line, X and Y non-empty. */
  predicate HeaderEndAt(s: string, p: nat)
  {
    IsLineStart(s, p) && StartsAt(s, p, "--- ") && p + 4 < |s| && s[p + 4] != '\n'
    && var q := LineEnd(s, p) + 1;
       q <= |s| && StartsAt(s, q, "+++ ") && q + 4 < |s| && s[q + 4] != '\n'
  }

  /** Where the `+++` line of the pair at `p` starts. */
  function PlusLine(s: string, p: nat): (q: nat)
    requires HeaderEndAt(s, p)
    ensures p < q < |s| && s[q - 1] == '\n' && StartsAt(s, q, "+++ ")
  {
    LineEnd(s, p) + 1
  }

  /** Where the match of the pair at `p` ends: the end of its `+++` line. */
  function PairEnd(s: string, p: nat): (e: nat)
    requires HeaderEndAt(s, p)
    ensures PlusLine(s, p) + 4 < e <= |s|
    ensures e < |s| ==> s[e] == '\n'
  {
    var q := PlusLine(s, p);
    assert forall k :: q <= k < q + 4 ==> s[k] == s[q..q + 4][k - q];
    LineEnd(s, q)
  }

  /** Group 2 of the pair at `p`: the new file's path. */
  function NewPath(s: string, p: nat): (path: string)
    requires HeaderEndAt(s, p)
    ensures |path| > 0 && '\n' !in path
  {
    var q := PlusLine(s, p);
    var path := s[q + 4..PairEnd(s, p)];
    LineEndNoNewline(s, q);
    assert forall k :: 0 <= k < |path| ==> path[k] == s[q + 4 + k];
    path
  }

  /** `FILE_HEADER_START.search(s, from)`: the first match at or after `from`. */
  function FindHeaderStart(s: string, from: nat): (r: Option<nat>)
    requires from <= |s|
    ensures r.Some? ==> from <= r.value < |s| && HeaderStartAt(s, r.value)
    ensures forall q :: from <= q && (r.None? || q < r.value) ==> !HeaderStartAt(s, q)
    decreases |s| - from
  {
    if from == |s| then None
    else if HeaderStartAt(s, from) then Some(from)
    else FindHeaderStart(s, from + 1)
  }

  /** `FILE_HEADER_END.search(s, from)`: the first match at or after `from`. */
  function FindHeaderEnd(s: string, from: nat): (r: Option<nat>)
    requires from <= |s|
    ensures r.Some? ==> from <= r.value < |s| && HeaderEndAt(s, r.value)
    ensures forall q :: from <= q && (r.None? || q < r.value) ==> !HeaderEndAt(s, q)
    decreases |s| - from
  {
    if from == |s| then None
    else if HeaderEndAt(s, from) then Some(from)
    else FindHeaderEnd(s, from + 1)
  }

  /** Where a body that starts at `e` ends: the next `diff --git` line, or the end of input. */
  function BodyEnd(s: string, e: nat): (t: nat)
    requires e <= |s|
    ensures e <= t <= |s|
  {
    match FindHeaderStart(s, e)
    case None => |s|
    case Some(a) => a
  }

  /** The records the scan produces once it stands at `pos`: each starts at the next
      `diff --git` line, its header runs to the first `---`/`+++` pair after that line
      (past any further `diff --git` lines), and its body runs to the next `diff --git`
      line or the end of input. The scan stops at a `diff --git` line with no pair after it. */
  function SegmentsFrom(s: string, pos: nat): seq<FileDiff>
    requires pos <= |s|
    decreases |s| - pos
  {
    match FindHeaderStart(s, pos)
    case None => []
    case Some(a) =>
      match FindHeaderEnd(s, LineEnd(s, a))
      case None => []
      case Some(b) =>
        var e := PairEnd(s, b);
        [FileDiff(NewPath(s, b), s[a..e], s[e..BodyEnd(s, e)])] + SegmentsFrom(s, e)
  }

  function Segments(diff: string): seq<FileDiff>
  {
    SegmentsFrom(diff, 0)
  }

  /** `files[-1][2] = body`. */
  function WithLastBody(files: seq<FileDiff>, body: string): (r: seq<FileDiff>)
    requires files != []
    ensures |r| == |files| && r[..|r| - 1] == files[..|files| - 1]
    ensures r[|r| - 1] == files[|files| - 1].(body := body)
  {
    files[|files| - 1 := files[|files| - 1].(body := body)]
  }

  /** The records with the last body filled in by the text from `pos` to the next
      `diff --git` line: what line 173 or 178 will store there. */
  function Closed(files: seq<FileDiff>, diff: string, pos: nat): seq<FileDiff>
    requires pos <= |diff|
  {
    if files == [] then [] else WithLastBody(files, diff[pos..BodyEnd(diff, pos)])
  }

  /** One turn of the scan: a start line at `a` and a pair at `b` yield one record. */
  lemma SegmentsFromUnfold(s: string, pos: nat, a: nat, b: nat)
    requires pos <= |s|
    requires FindHeaderStart(s, pos) == Some(a)
    requires FindHeaderEnd(s, LineEnd(s, a)) == Some(b)
    ensures pos < PairEnd(s, b)
    ensures SegmentsFrom(s, pos)
         == [FileDiff(NewPath(s, b), s[a..PairEnd(s, b)], s[PairEnd(s, b)..BodyEnd(s, PairEnd(s, b))])]
            + SegmentsFrom(s, PairEnd(s, b))
  {
  }

  /** Where the scan stops, nothing more is produced and the last body is filled in as
      lines 177-180 do. */
  lemma SegmentsFromStop(s: string, pos: nat, mStart: Option<nat>)
    requires pos <= |s|
    requires mStart == FindHeaderStart(s, pos)
    requires mStart.Some? ==> FindHeaderEnd(s, LineEnd(s, mStart.value)).None?
    ensures SegmentsFrom(s, pos) == []
    ensures s[pos..BodyEnd(s, pos)] == if mStart.Some? then s[pos..mStart.value] else s[pos..]
  {
  }

  /** `files` after one turn of the loop with a start line at `a` and a pair at `b`
      (lines 172-174). */
  function Turn(files: seq<FileDiff>, diff: string, pos: nat, a: nat, b: nat): seq<FileDiff>
    requires pos <= a <= |diff| && HeaderEndAt(diff, b) && a <= PairEnd(diff, b)
  {
    (if files == [] then [] else WithLastBody(files, diff[pos..a]))
      + [FileDiff(NewPath(diff, b), diff[a..PairEnd(diff, b)], "")]
  }

  /** Filling in the pending body and appending the new pending record. */
  lemma ClosedTurn(files: seq<FileDiff>, diff: string, pos: nat, a: nat, b: nat)
    requires pos <= a <= |diff| && HeaderEndAt(diff, b) && a <= PairEnd(diff, b)
    requires BodyEnd(diff, pos) == a
    ensures Closed(Turn(files, diff, pos, a, b), diff, PairEnd(diff, b))
         == Closed(files, diff, pos) + [FileDiff(NewPath(diff, b), diff[a..PairEnd(diff, b)],
                                                 diff[PairEnd(diff, b)..BodyEnd(diff, PairEnd(diff, b))])]
  {
    var e := PairEnd(diff, b);
    var filled := if files == [] then [] else WithLastBody(files, diff[pos..a]);
    var rec := FileDiff(NewPath(diff, b), diff[a..e], "");
    var body := diff[e..BodyEnd(diff, e)];
    assert filled == Closed(files, diff, pos);
    assert Turn(files, diff, pos, a, b) == filled + [rec];
    WithLastBodyAppend(filled, rec, body);
  }

  /** Filling in the body of a record just appended. */
  lemma WithLastBodyAppend(files: seq<FileDiff>, f: FileDiff, body: string)
    ensures WithLastBody(files + [f], body) == files + [f.(body := body)]
  {
    var w := WithLastBody(files + [f], body);
    assert w[..|w| - 1] == (files + [f])[..|files|] == files;
  }

  /** Concatenation of sequences is associative. */
  lemma ConcatAssoc<T>(x: seq<T>, y: seq<T>, z: seq<T>)
    ensures (x + y) + z == x + (y + z)
  {
  }

  /** One turn of the loop keeps its invariant: the filled-in records, followed by what
      the scan still produces, stay the same. */
  lemma TurnKeepsInvariant(files: seq<FileDiff>, diff: string, pos: nat, a: nat, b: nat)
    requires pos <= |diff|
    requires FindHeaderStart(diff, pos) == Some(a)
    requires FindHeaderEnd(diff, LineEnd(diff, a)) == Some(b)
    requires pos <= a < PairEnd(diff, b)
    ensures Closed(Turn(files, diff, pos, a, b), diff, PairEnd(diff, b)) + SegmentsFrom(diff, PairEnd(diff, b))
         == Closed(files, diff, pos) + SegmentsFrom(diff, pos)
  {
    var e := PairEnd(diff, b);
    SegmentsFromUnfold(diff, pos, a, b);
    ClosedTurn(files, diff, pos, a, b);
    ConcatAssoc(Closed(files, diff, pos), [FileDiff(NewPath(diff, b), diff[a..e], diff[e..BodyEnd(diff, e)])],
                SegmentsFrom(diff, e));
  }

  /** A turn moves the scan forward, past the start line it found. */
  lemma TurnAdvances(diff: string, pos: nat, a: nat, b: nat)
    requires pos <= |diff|
    requires FindHeaderStart(diff, pos) == Some(a)
    requires FindHeaderEnd(diff, LineEnd(diff, a)) == Some(b)
    ensures pos <= a < PairEnd(diff, b)
  {
  }

  /** The loop of lines 169-180. The body of the newest record is a placeholder
      (Python's `None`) until the next search fills it in. */
  method SplitDiff(diff: string) returns (files: seq<FileDiff>)
    ensures files == Segments(diff)
  {
    files := [];
    var pos: nat := 0;
    var mStart: Option<nat> := None;
    var mEnd: Option<nat> := None;
    while true
      invariant pos <= |diff|
      invariant files == [] ==> pos == 0
      invariant Closed(files, diff, pos) + SegmentsFrom(diff, pos) == Segments(diff)
      decreases |diff| - pos
    {
      mStart := FindHeaderStart(diff, pos);
      if mStart.None? {
        break;
      }
      mEnd := FindHeaderEnd(diff, LineEnd(diff, mStart.value));
      if mEnd.None? {
        break;
      }
      var a, b := mStart.value, mEnd.value;
      TurnAdvances(diff, pos, a, b);
      TurnKeepsInvariant(files, diff, pos, a, b);
      ghost var next := Turn(files, diff, pos, a, b);
      if |files| > 0 {
        files := WithLastBody(files, diff[pos..a]);
      }
      files := files + [FileDiff(NewPath(diff, b), diff[a..PairEnd(diff, b)], "")];
      assert files == next;
      pos := PairEnd(diff, b);
    }
    SegmentsFromStop(diff, pos, mStart);
    if |files| > 0 {
      if mStart.Some? {
        files := WithLastBody(files, diff[pos..mStart.value]);
      } else {
        files := WithLastBody(files, diff[pos..]);
      }
    }
  }

  /** There is a record exactly when some `diff --git` line has a `---`/`+++` pair
      after it; in particular an empty diff has none (lines 165-176). */
  lemma SegmentsNonEmptyIff(s: string)
    ensures Segments(s) != [] <==>
            exists a, b :: HeaderStartAt(s, a) && HeaderEndAt(s, b) && LineEnd(s, a) <= b
  {
    if exists a, b :: HeaderStartAt(s, a) && HeaderEndAt(s, b) && LineEnd(s, a) <= b {
      var a, b :| HeaderStartAt(s, a) && HeaderEndAt(s, b) && LineEnd(s, a) <= b;
      var first := FindHeaderStart(s, 0);
      assert first.Some? && first.value <= a;
      LineEndMonotone(s, first.value, a);
      assert FindHeaderEnd(s, LineEnd(s, first.value)).Some?;
    }
  }

  /** Headers and bodies of the records, laid end to end. */
  function Flatten(files: seq<FileDiff>): string
  {
    if files == [] then [] else files[0].header + files[0].body + Flatten(files[1..])
  }

  /** Where the scan started at `pos` ends its last body. */
  function ScanStop(s: string, pos: nat): (t: nat)
    requires pos <= |s|
    ensures pos <= t <= |s|
    decreases |s| - pos
  {
    match FindHeaderStart(s, pos)
    case None => |s|
    case Some(a) =>
      match FindHeaderEnd(s, LineEnd(s, a))
      case None => a
      case Some(b) => ScanStop(s, PairEnd(s, b))
  }

  /** Some `---`/`+++` pair follows the line at `u`. */
  ghost predicate PairFollows(s: string, u: nat)
    requires u <= |s|
  {
    exists b :: LineEnd(s, u) <= b && HeaderEndAt(s, b)
  }

  /** The scan stops at the end of input, or at a `diff --git` line with no
      `---`/`+++` pair anywhere after it (lines 176-180); every `diff --git` line the
      scan passed before it has a pair after it, so it stops at the first such line. */
  lemma {:induction false} ScanStopShape(s: string, pos: nat)
    requires pos <= |s|
    ensures var t := ScanStop(s, pos);
            t == |s| || (HeaderStartAt(s, t) && forall b :: LineEnd(s, t) <= b ==> !HeaderEndAt(s, b))
    ensures forall u :: pos <= u < ScanStop(s, pos) && HeaderStartAt(s, u) ==> PairFollows(s, u)
    decreases |s| - pos
  {
    match FindHeaderStart(s, pos)
    case None =>
    case Some(a) =>
      match FindHeaderEnd(s, LineEnd(s, a))
      case None =>
      case Some(b) =>
        var e := PairEnd(s, b);
        SegmentsFromUnfold(s, pos, a, b);
        ScanStopUnfold(s, pos, a, b);
        ScanStopShape(s, e);
        forall u | pos <= u < ScanStop(s, pos) && HeaderStartAt(s, u)
          ensures PairFollows(s, u)
        {
          if u < e {
            HeaderStartFirst(s, u);
            if u <= b {
              PairAfterStartLine(s, u, b);
            } else {
              OnlyPlusLineInPair(s, b, u);
              assert false;
            }
          }
        }
  }

  /** A `diff --git` line opens with `d`. */
  lemma HeaderStartFirst(s: string, u: nat)
    requires HeaderStartAt(s, u)
    ensures u < |s| && s[u] == 'd'
  {
    assert s[u] == s[u..][..11][0];
  }

  /** Inside the match of a pair, the only line start is that of its `+++` line. */
  lemma OnlyPlusLineInPair(s: string, b: nat, u: nat)
    requires HeaderEndAt(s, b) && b < u < PairEnd(s, b) && IsLineStart(s, u)
    ensures u == PlusLine(s, b) && s[u] == '+'
  {
    var q := PlusLine(s, b);
    LineEndNoNewline(s, b);
    LineEndNoNewline(s, q);
    StartsAtFirst(s, q, "+++ ");
  }

  /** Two adjacent slices make one. */
  lemma SliceJoin(s: string, i: nat, j: nat, k: nat)
    requires i <= j <= k <= |s|
    ensures s[i..j] + s[j..k] == s[i..k]
  {
  }

  /** After one record, the scan stops where the rest of it stops. */
  lemma ScanStopUnfold(s: string, pos: nat, a: nat, b: nat)
    requires pos <= |s|
    requires FindHeaderStart(s, pos) == Some(a)
    requires FindHeaderEnd(s, LineEnd(s, a)) == Some(b)
    ensures pos < PairEnd(s, b)
    ensures ScanStop(s, pos) == ScanStop(s, PairEnd(s, b))
  {
  }

  /** A body ends where the scan stops when no record follows, and at the next
      record's first line otherwise. */
  lemma BodyEndAtTail(s: string, e: nat)
    requires e <= |s|
    ensures SegmentsFrom(s, e) == [] ==> ScanStop(s, e) == BodyEnd(s, e)
    ensures SegmentsFrom(s, e) != [] ==> FindHeaderStart(s, e) == Some(BodyEnd(s, e))
  {
  }

  /** Laid end to end, the records give back the input from the first `diff --git`
      line up to where the scan stops: nothing is lost, duplicated or reordered
      (lines 172-180). */
  lemma {:induction false} SegmentsCover(s: string, pos: nat)
    requires pos <= |s| && SegmentsFrom(s, pos) != []
    ensures FindHeaderStart(s, pos).Some?
    ensures Flatten(SegmentsFrom(s, pos)) == s[FindHeaderStart(s, pos).value..ScanStop(s, pos)]
    decreases |s| - pos
  {
    var a := FindHeaderStart(s, pos).value;
    var b := FindHeaderEnd(s, LineEnd(s, a)).value;
    var e := PairEnd(s, b);
    SegmentsFromUnfold(s, pos, a, b);
    ScanStopUnfold(s, pos, a, b);
    BodyEndAtTail(s, e);
    var m := BodyEnd(s, e);
    var segs := SegmentsFrom(s, pos);
    assert segs[0].header + segs[0].body == s[a..m] by {
      SliceJoin(s, a, e, m);
    }
    assert segs[1..] == SegmentsFrom(s, e);
    assert Flatten(segs) == s[a..m] + Flatten(SegmentsFrom(s, e));
    if SegmentsFrom(s, e) != [] {
      SegmentsCover(s, e);
      SliceJoin(s, a, m, ScanStop(s, e));
    }
  }

  /** A prefix that opens a `diff --git` line shows the whole string does. */
  lemma HeaderStartLinePrefix(t: string, u: string)
    requires |t| <= |u| && t == u[..|t|]
    requires IsHeaderStartLine(t)
    ensures IsHeaderStartLine(u)
  {
    assert t[..11] == u[..11];
    assert t[11] == u[11];
  }

  /** What every record looks like: a non-empty single-line path; a header that opens
      with a `diff --git` line and closes with the `+++` line naming the path; a body that
      starts with the newline after that line and holds no `diff --git` line. */
  predicate WellShaped(f: FileDiff)
  {
    |f.path| > 0 && '\n' !in f.path && HeaderCloses(f.header, f.path)
    && IsHeaderStartLine(f.header) && BodyShaped(f.body)
  }

  /** `h` ends with the `+++` line naming `path`. */
  predicate HeaderCloses(h: string, path: string)
  {
    |h| >= |path| + 5 && h[|h| - |path| - 5..] == "\n+++ " + path
  }

  /** `body` is empty or starts with a newline, and holds no `diff --git` line. */
  predicate BodyShaped(body: string)
  {
    (body == [] || body[0] == '\n')
    && forall i :: 0 < i < |body| && body[i - 1] == '\n' ==> !IsHeaderStartLine(body[i..])
  }

  /** A `diff --git` line runs at least twelve characters before its newline. */
  lemma HeaderStartLineLength(s: string, a: nat)
    requires HeaderStartAt(s, a)
    ensures LineEnd(s, a) > a + 11
  {
    var e := LineEnd(s, a);
    assert s[a..][..11] == "diff --git ";
    forall k | a <= k < a + 11 ensures s[k] != '\n' {
      assert s[k] == "diff --git "[k - a];
    }
    assert s[a + 11] == s[a..][11];
    LineEndSkip(s, a, a + 12);
  }

  /** The header of the record made from a start line at `a` and a pair at `b` opens
      with that line. */
  lemma HeaderOpens(s: string, a: nat, b: nat)
    requires HeaderStartAt(s, a) && HeaderEndAt(s, b) && LineEnd(s, a) <= b
    ensures IsHeaderStartLine(s[a..PairEnd(s, b)])
  {
    HeaderStartLineLength(s, a);
    HeaderStartLinePrefix(s[a..][..12], s[a..PairEnd(s, b)]);
  }

  /** The header of the record made from a start line at `a` and a pair at `b` closes
      with the pair's `+++` line. */
  lemma HeaderClosesAt(s: string, a: nat, b: nat)
    requires HeaderStartAt(s, a) && HeaderEndAt(s, b) && LineEnd(s, a) <= b
    ensures HeaderCloses(s[a..PairEnd(s, b)], NewPath(s, b))
  {
    var e := PairEnd(s, b);
    var q := PlusLine(s, b);
    HeaderStartLineLength(s, a);
    assert a < q - 1;
    SliceTail(s, a, e, q - 1);
    PlusLineText(s, b);
  }

  /** A slice of a slice. */
  lemma SliceTail(s: string, a: nat, e: nat, k: nat)
    requires a <= k <= e <= |s|
    ensures s[a..e][k - a..] == s[k..e]
  {
  }

  /** The `+++` line of the pair at `b`, with the newline before it. */
  lemma PlusLineText(s: string, b: nat)
    requires HeaderEndAt(s, b)
    ensures s[PlusLine(s, b) - 1..PairEnd(s, b)] == "\n+++ " + NewPath(s, b)
  {
    var q := PlusLine(s, b);
    var e := PairEnd(s, b);
    assert s[q - 1..q + 4] == "\n+++ " by {
      assert s[q..q + 4] == "+++ ";
      assert s[q - 1..q + 4] == [s[q - 1]] + s[q..q + 4];
    }
    SliceJoin(s, q - 1, q + 4, e);
  }

  /** A body holds no `diff --git` line: the search of line 169 would have found it. */
  lemma BodyShape(s: string, e: nat)
    requires e <= |s|
    requires e < |s| ==> s[e] == '\n'
    ensures BodyShaped(s[e..BodyEnd(s, e)])
  {
    var body := s[e..BodyEnd(s, e)];
    forall i | 0 < i < |body| && body[i - 1] == '\n'
      ensures !IsHeaderStartLine(body[i..])
    {
      assert s[e + i - 1] == '\n';
      assert !HeaderStartAt(s, e + i);
      assert body[i..] == s[e + i..][..|body[i..]|];
      if IsHeaderStartLine(body[i..]) {
        HeaderStartLinePrefix(body[i..], s[e + i..]);
      }
    }
  }

  /** The record made from a start line at `a` and a pair at `b` is well shaped. */
  lemma FirstSegmentShape(s: string, pos: nat, a: nat, b: nat)
    requires pos <= |s|
    requires FindHeaderStart(s, pos) == Some(a)
    requires FindHeaderEnd(s, LineEnd(s, a)) == Some(b)
    ensures WellShaped(SegmentsFrom(s, pos)[0])
  {
    SegmentsFromUnfold(s, pos, a, b);
    HeaderOpens(s, a, b);
    HeaderClosesAt(s, a, b);
    BodyShape(s, PairEnd(s, b));
  }

  /** Every record the scan produces is well shaped. */
  lemma {:induction false} SegmentsWellShaped(s: string, pos: nat)
    requires pos <= |s|
    ensures forall i :: 0 <= i < |SegmentsFrom(s, pos)| ==> WellShaped(SegmentsFrom(s, pos)[i])
    decreases |s| - pos
  {
    match FindHeaderStart(s, pos)
    case None =>
    case Some(a) =>
      match FindHeaderEnd(s, LineEnd(s, a))
      case None =>
      case Some(b) =>
        SegmentsWellShaped(s, PairEnd(s, b));
        forall i | 0 <= i < |SegmentsFrom(s, pos)|
          ensures WellShaped(SegmentsFrom(s, pos)[i])
        {
          if i == 0 {
            FirstSegmentShape(s, pos, a, b);
          } else {
            SegmentsFromIndex(s, pos, a, b, i);
          }
        }
  }

  /** Past the first record, the records from `pos` are those from the end of its pair. */
  lemma SegmentsFromIndex(s: string, pos: nat, a: nat, b: nat, i: nat)
    requires pos <= |s|
    requires FindHeaderStart(s, pos) == Some(a)
    requires FindHeaderEnd(s, LineEnd(s, a)) == Some(b)
    requires 0 < i < |SegmentsFrom(s, pos)|
    ensures i - 1 < |SegmentsFrom(s, PairEnd(s, b))| && SegmentsFrom(s, pos)[i] == SegmentsFrom(s, PairEnd(s, b))[i - 1]
  {
    SegmentsFromUnfold(s, pos, a, b);
  }

  /** Record `f` is cut at the `diff --git` line at `a` and the pair at `b`: the pair is
      the FIRST one after that line, the header runs from the line to the end of the pair,
      the path is the pair's `+++` path, and the body runs to the next `diff --git` line. */
  predicate CutAt(s: string, a: nat, b: nat, f: FileDiff)
  {
    HeaderStartAt(s, a) && LineEnd(s, a) <= b && HeaderEndAt(s, b)
    && (forall q :: LineEnd(s, a) <= q < b ==> !HeaderEndAt(s, q))
    && f.header == s[a..PairEnd(s, b)]
    && f.path == NewPath(s, b)
    && f.body == s[PairEnd(s, b)..BodyEnd(s, PairEnd(s, b))]
  }

  /** Record `f` is cut, as `CutAt` says, at some `diff --git` line at or after `pos`. */
  ghost predicate CutAfter(s: string, pos: nat, f: FileDiff)
  {
    exists a, b :: pos <= a && CutAt(s, a, b, f)
  }

  /** Every record is cut at a `diff --git` line at or after `pos` and the first pair
      after that line. */
  lemma {:induction false} SegmentsCutAtFirstPair(s: string, pos: nat)
    requires pos <= |s|
    ensures forall i :: 0 <= i < |SegmentsFrom(s, pos)| ==> CutAfter(s, pos, SegmentsFrom(s, pos)[i])
    decreases |s| - pos
  {
    if SegmentsFrom(s, pos) != [] {
      var a := FindHeaderStart(s, pos).value;
      var b := FindHeaderEnd(s, LineEnd(s, a)).value;
      SegmentsCutAtFirstPair(s, PairEnd(s, b));
      forall i | 0 <= i < |SegmentsFrom(s, pos)|
        ensures CutAfter(s, pos, SegmentsFrom(s, pos)[i])
      {
        if i == 0 {
          FirstCut(s, pos, a, b);
        } else {
          SegmentsFromIndex(s, pos, a, b, i);
          var a', b' :| PairEnd(s, b) <= a' && CutAt(s, a', b', SegmentsFrom(s, PairEnd(s, b))[i - 1]);
          assert pos <= a';
        }
      }
    }
  }

  /** The first record from `pos` is cut at the next `diff --git` line and the first pair
      after it. */
  lemma FirstCut(s: string, pos: nat, a: nat, b: nat)
    requires pos <= |s|
    requires FindHeaderStart(s, pos) == Some(a)
    requires FindHeaderEnd(s, LineEnd(s, a)) == Some(b)
    ensures |SegmentsFrom(s, pos)| > 0 && pos <= a && CutAt(s, a, b, SegmentsFrom(s, pos)[0])
  {
    SegmentsFromUnfold(s, pos, a, b);
  }

  /** With no pair in `[from, to)`, the search from `from` finds the pair the search from `to` finds. */
  lemma PairSearchSkips(s: string, from: nat, to: nat, b: nat)
    requires from <= to <= |s|
    requires forall q :: from <= q < to ==> !HeaderEndAt(s, q)
    requires FindHeaderEnd(s, to) == Some(b)
    ensures FindHeaderEnd(s, from) == Some(b)
  {
    var r := FindHeaderEnd(s, from);
    assert HeaderEndAt(s, b) && from <= b;
    assert to <= r.value;
  }

  /** A pair at or after a `diff --git` line starts after that line. */
  lemma PairAfterStartLine(s: string, a2: nat, b: nat)
    requires HeaderStartAt(s, a2) && HeaderEndAt(s, b) && a2 <= b
    ensures LineEnd(s, a2) < b
  {
    HeaderStartLineLength(s, a2);
    assert b != a2 by {
      assert s[a2] == s[a2..][..11][0] == 'd';
      assert s[b] == s[b..b + 4][0] == '-';
    }
    assert s[b - 1] == '\n';
    LineEndNoNewline(s, a2);
  }

  /** When the next `diff --git` line after `pos` (a binary or mode-only change, say) has
      no `---`/`+++` pair before a later `diff --git` line at `a2`, the later line does not
      start a record of its own: the header of the record opened by the first line runs on
      through the line at `a2`, and that record takes the path of the pair after `a2`. */
  lemma DanglingEntryMerges(s: string, pos: nat, a2: nat)
    requires pos <= |s| && FindHeaderStart(s, pos).Some?
    requires HeaderStartAt(s, a2) && LineEnd(s, FindHeaderStart(s, pos).value) <= a2
    requires forall b :: LineEnd(s, FindHeaderStart(s, pos).value) <= b < a2 ==> !HeaderEndAt(s, b)
    requires FindHeaderEnd(s, a2).Some?
    ensures SegmentsFrom(s, pos) != []
    ensures var a := FindHeaderStart(s, pos).value;
            a < a2 && a2 - a < |SegmentsFrom(s, pos)[0].header| && IsHeaderStartLine(SegmentsFrom(s, pos)[0].header[a2 - a..])
    ensures SegmentsFrom(s, pos)[0].path == NewPath(s, FindHeaderEnd(s, a2).value)
  {
    var a := FindHeaderStart(s, pos).value;
    var b := FindHeaderEnd(s, a2).value;
    DanglingPair(s, a, a2, b);
    var e := PairEnd(s, b);
    SegmentsFromUnfold(s, pos, a, b);
    assert SegmentsFrom(s, pos)[0].header == s[a..e];
    HeaderHoldsStartLine(s, a, a2, e);
  }

  /** The pair found after a dangling `diff --git` line at `a2` is the one the search
      from the start line at `a` before it finds, and it lies past the line at `a2`. */
  lemma DanglingPair(s: string, a: nat, a2: nat, b: nat)
    requires HeaderStartAt(s, a)
    requires HeaderStartAt(s, a2) && LineEnd(s, a) <= a2
    requires forall q :: LineEnd(s, a) <= q < a2 ==> !HeaderEndAt(s, q)
    requires FindHeaderEnd(s, a2) == Some(b)
    ensures FindHeaderEnd(s, LineEnd(s, a)) == Some(b)
    ensures a < a2 && LineEnd(s, a2) < b
  {
    PairSearchSkips(s, LineEnd(s, a), a2, b);
    HeaderStartLineLength(s, a);
    PairAfterStartLine(s, a2, b);
  }

  /** Text from `a` running past the whole `diff --git` line at `a2` shows that line at
      offset `a2 - a`. */
  lemma HeaderHoldsStartLine(s: string, a: nat, a2: nat, e: nat)
    requires a < a2 && HeaderStartAt(s, a2) && LineEnd(s, a2) < e <= |s|
    ensures a2 - a < |s[a..e]| && IsHeaderStartLine(s[a..e][a2 - a..])
  {
    HeaderStartLineLength(s, a2);
    assert s[a..e][a2 - a..] == s[a2..e];
    HeaderStartLinePrefix(s[a2..][..12], s[a2..e]);
  }
}
