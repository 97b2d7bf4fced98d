# git-todo, modelled in Dafny

`git todo` lists the TODO comments that a branch adds, relative to its main branch. It
runs `git diff` and cuts the output into one record per file. Each record holds a path,
a header and a body. It then scans each body line by line. A finding opens at an added
line that holds a `#`, `//` or slash-star comment starting with `TODO`. The finding's
location is printed as `at <path>:<line>`, where `<line>` is the line's number in the
new version of the file. The comment text is printed indented by four spaces. The
finding goes on with the comment lines that directly follow it and start in the same
column.

This project models that core of `git-todo.py`:

- `wrappers.dfy`: `Option` and `Result`.
- `text.dfy` (module `Text`): the Python string operations the core relies on.
  - `str.split`.
  - `str.splitlines` for `\n`.
  - The line structure that `^`/`$` see in MULTILINE mode.
  - Decimal numerals, as read by `int()` and written by `str()`.
- `segmenter.dfy` (module `Segmenter`): the loop that cuts the diff into records
  (lines 164-180).
  - `SplitDiff` is the `while` loop, which fills in each record's body one turn later.
  - `Segments` is its reference definition.
- `patterns.dfy` (module `Patterns`): the three regular expressions `TODO`, `COMMENT`
  and `HUNK_HEADER` (lines 183-193), written out as predicates and small parsers.
- `extractor.dfy` (module `Extractor`): the per-file scan (lines 194-225).
  - `ScanFile` is the `for` loop over the body's lines. It updates `newLine`, `count`
    and `indent` in place.
  - `Step` and `Scan` are its reference definitions.
  - `ReportTodos` runs the whole pipeline from diff text to printed lines.
- `arguments.dfy` (module `Arguments`): the argument split (lines 135-141).
  - It also models the preference-ordered branch guess (lines 78-84), the reading of
    `todo.*` configuration entries (lines 101-117) and the `context-lines` setting
    (lines 144-147).

The output of every git command is a parameter: the diff text, the `git branch` listing
and the `git config` output. Printed lines are returned as a sequence, in order.

The regular expressions are decided as follows:

- **TODO.** The leading `[^\n]*` is greedy, so group 1 starts at the rightmost position
  from which `(#|//|slash-star)[ \t]*TODO[: \t][ \t]*[^\n]+` reaches the end of the line
  (`LastTodoStart`).
- **COMMENT.** Group 1 starts right after the blanks that follow the first character.
  Backtracking cannot move it, because a blank never starts a comment token.
- **HUNK_HEADER.** Its fields are digit runs, so the match is deterministic.

A `diff --git` line with no `---`/`+++` pair of its own does not make a record:

- The search for the pair (line 170) starts after the `diff --git` line and runs past
  later `diff --git` lines. The entry therefore merges into the header of the next file
  that has a pair, and the record takes that file's path. Binary, mode-only and
  pure-rename changes are such entries.
- `Segments`/`SplitDiff` keep this behaviour. `DanglingEntryMerges` states it, and
  `SegmentsCutAtFirstPair` states that every record ends at the first pair after its
  opening line. `SegmentsWellShaped` states what each record then looks like: the
  header may hold several `diff --git` lines, and the body holds none.

`ParseEvent` and `LastIndexOf` are not part of the tool. They are a reader of the printed
lines, and `RenderParseRoundTrip` uses them to show that the output is unambiguous.

## Model

| member | source | states |
|---|---|---|
| Text.SplitOn | git-todo.py:112 | `str.split(sep)` gives at least one piece, and no piece holds the separator |
| Text.JoinSplit | git-todo.py:112 | joining the pieces of a split with the separator gives the string back |
| Text.SplitJoin | git-todo.py:112 | splitting a join of separator-free pieces gives the pieces back |
| Text.SplitLines | git-todo.py:201 | `splitlines()` restricted to `\n`, defined through `LinesFrom`; its properties are the four `SplitLines` lemmas below |
| Text.SplitLinesNoNewline | git-todo.py:201 | `splitlines()` on `\n`: no line holds a newline |
| Text.UnlinesSplitLines | git-todo.py:201 | the lines, each with its newline restored, rebuild the text; a newline is added only when the text did not end in one |
| Text.SplitLinesUnlines | git-todo.py:201 | newline-free lines, joined and split again, come back unchanged |
| Text.LineEnd | git-todo.py:165-166 | a `[^\n]*$` run from `p` stops inside the text at a newline, or at the end of the text |
| Text.LineEndNoNewline | git-todo.py:165-166 | no newline lies between `p` and where the run stops, so it stops at the first newline at or after `p` |
| Text.SplitLinesAreLines | git-todo.py:196-201 | every line the loop visits is the MULTILINE line at some line start of the body |
| Text.LinesAreSplitLines | git-todo.py:196-201 | every MULTILINE line that starts before the end of the body is one of the lines the loop visits |
| Text.NatToDecimal | git-todo.py:209 | `str(n)` is a non-empty digit string without leading zeros |
| Text.DecimalRoundTrip | git-todo.py:203 | `int()` of the decimal numeral of `n` is `n` |
| Segmenter.FindHeaderStart | git-todo.py:165-169 | `FILE_HEADER_START.search(diff, pos)`: the first `diff --git` line start at or after `pos`; no earlier position qualifies |
| Segmenter.FindHeaderEnd | git-todo.py:166-170 | `FILE_HEADER_END.search`: the first adjacent `--- X` / `+++ Y` pair at or after the position; no earlier one exists |
| Segmenter.NewPath | git-todo.py:174 | the path (`m_end.group(2)`) is non-empty and holds no newline |
| Segmenter.Segments | git-todo.py:167-180 | the reference definition of the records: from each first `diff --git` line at or after the scan position to the end of the first pair after that line, with the body up to the next `diff --git` line; its properties are the `Segments` lemmas below |
| Segmenter.SplitDiff | git-todo.py:167-180 | the `while` loop with its delayed body fill-in (lines 172-173, 176-180) yields exactly the records of the reference definition `Segments` |
| Segmenter.SegmentsNonEmptyIff | git-todo.py:169-171 | there is a record exactly when a `diff --git` line has a `---`/`+++` pair after its own line; an empty diff has none |
| Segmenter.ScanStopShape | git-todo.py:176-180 | the records end at the end of the input, or at a `diff --git` line from which no pair follows; every `diff --git` line passed before that point has a pair after it, so the stop is the first such line; later `diff --git` lines without a pair may come after it |
| Segmenter.SegmentsCover | git-todo.py:172-180 | concatenating header and body of every record, in order, gives the input from the first matched `diff --git` line up to where the records end |
| Segmenter.SegmentsWellShaped | git-todo.py:165-180 | every record has a one-line non-empty path; its header opens with a `diff --git` line and closes with the `+++` line that names the path; its body is empty or starts with the newline after that line, and holds no `diff --git` line |
| Segmenter.SegmentsCutAtFirstPair | git-todo.py:165-180 | every record opens at a `diff --git` line at or after the scan position and its header ends at the FIRST `---`/`+++` pair after that line; its path is that pair's and its body runs from there to the next `diff --git` line |
| Segmenter.DanglingEntryMerges | git-todo.py:169-175 | wherever the scan stands, when the first `diff --git` line after it has no pair before a later `diff --git` line `a2`, that line's record has a header that runs on through `a2`'s line, and the record takes the path of the pair after `a2` |
| Patterns.CommentTokenLen | git-todo.py:184-188 | the token `#`, `//` or slash-star at the front has length 1 or 2, and 0 when there is none |
| Patterns.LastTodoStart | git-todo.py:184 | the rightmost start below `g`, from 1 up, from which the TODO group matches to the end of the line; no later start does |
| Patterns.TodoMatch | git-todo.py:183-186 | a match needs an added line (`+` first). The group starts at column 1 or later and matches to the end of the line, and no later column does. No match means the line is empty, is not added, or has no such column |
| Patterns.TodoExampleRightmost | git-todo.py:184 | `+/// TODO: x` is captured from column 2 (`// TODO: x`) |
| Patterns.TodoExampleLowerCase | git-todo.py:184-185 | `+// todo fix` matches: `TODO` ignores letter case, and a blank may follow it |
| Patterns.TodoExampleLongerWord | git-todo.py:184 | `+// TODOS: x` does not match: `TODO` must be followed by `:`, a space or a tab |
| Patterns.CommentMatch | git-todo.py:187-190 | the column returned is one where group 1 can start: the line opens with a space or `+` and blanks, and a comment token with at least one more character follows. Whenever the pattern matches at some column, that column is the one returned |
| Patterns.LStripMarkersSuffix | git-todo.py:217 | `lstrip("#/ \t")` removes exactly the longest prefix of `#`, `/`, space and tab |
| Patterns.StripEmptyIff | git-todo.py:217 | the stripped text is empty exactly when every character is one of `#/ \t` |
| Patterns.FieldShape | git-todo.py:192 | a field `[0-9]+(,[0-9]+)?` read at `i` is a non-empty run of digits followed by nothing or by a comma and a non-empty run of digits |
| Patterns.HunkNewStart | git-todo.py:191-203 | `HUNK_HEADER.match` and `int(m.group(3))`: a line is read as a hunk header only when it opens with `@@ -` |
| Patterns.HunkNewStartShape | git-todo.py:191-203 | every line read as a hunk header is `@@ -<digits>[,<digits>] +<digits>[,<digits>] @@` followed by anything, and the number read is the value of the third field |
| Patterns.HunkHeaderOpensWithAt | git-todo.py:192 | a line that parses as a hunk header starts with `@`, so it is no context, added or removed line |
| Patterns.HunkHeaderRoundTrip | git-todo.py:191-203 | a hunk header in the GNU unified format, with or without counts and with any section text, is parsed back to its new-file start |
| Extractor.Step | git-todo.py:202-225 | one line prints at most two lines, and prints only if a finding is open afterwards |
| Extractor.Classify | git-todo.py:207-222 | the TODO / continuation decision leaves the line counter alone, and prints only with a finding open afterwards |
| Extractor.Scan | git-todo.py:201-225 | the reference definition of the loop; every line prints at most two lines |
| Extractor.ScanFile | git-todo.py:198-225 | the `for` loop over `splitlines()` prints exactly the events of the reference definition `Scan` |
| Extractor.StepLine | git-todo.py:202-225 | the loop body on one line computes the new `new_line`, `count` and `indent` and the printed lines of the reference step `Step` |
| Extractor.ClassifyLine | git-todo.py:207-222 | the TODO / continuation branch on a non-empty line computes the new `count` and `indent` and the printed lines of the reference decision `Classify` |
| Extractor.StepTodoLine | git-todo.py:207-225 | a TODO line prints its location first only when no finding is open, always prints its comment, sets `count` to 1 and the anchor column to the capture's start, and advances the line counter |
| Extractor.InertLine | git-todo.py:205-225 | an empty or removed line prints nothing and changes no variable, so an open finding stays open |
| Extractor.LineCounterRule | git-todo.py:202-225 | a hunk header sets the counter to its new-file start, closes the finding and prints nothing; every other line adds 1 exactly when it is a context or added line |
| Extractor.ContinuationRule | git-todo.py:213-222 | while a finding is open, a non-TODO line prints its comment exactly when it is not removed, COMMENT matches at the anchor column, and something other than `#/ \t` follows; such a line prints nothing else, and any other non-removed line closes the finding |
| Extractor.SilentIffNoTodo | git-todo.py:196-222 | a file prints something exactly when one of its lines matches TODO |
| Extractor.ScanGrows | git-todo.py:209-219 | what was printed after the first `k` lines stays at the front of the output |
| Extractor.TodoSearchIffTodoLine | git-todo.py:196-201 | `TODO.search` over the whole body finds a match exactly when one of the loop's lines matches TODO |
| Extractor.TodoSearch | git-todo.py:196 | `TODO.search` in MULTILINE mode: some line of the body matches; `TodoSearchIffTodoLine` ties it to the loop's lines |
| Extractor.FileReport | git-todo.py:196 | the output of one file: nothing when the search fails, else the scan; `PrefilterChangesNothing` and `SilentIffNoTodo` state its properties |
| Extractor.PrefilterChangesNothing | git-todo.py:194-201 | skipping bodies without a TODO match does not change the output |
| Extractor.ScanWellFormed | git-todo.py:207-222 | a file's output opens with a location; every location names the file and is followed by the TODO comment that opened the finding; every printed comment starts with a comment token and fits on one line |
| Extractor.ScanTracksNewLine | git-todo.py:198-225 | the counter is the start of the last hunk header plus the context and added lines since it (from 0 before any header), which is the new-file number of the next line |
| Extractor.FindingOpensAtTodoLine | git-todo.py:207-210 | a TODO line met with no finding open prints `at` with that line's own new-file number, then its comment |
| Extractor.ReportLocations | git-todo.py:194-209 | every location in the report names one of the diff's files |
| Extractor.Render | git-todo.py:209-219 | the printed line `at <path>:<line>` or four spaces and the comment; `RenderParseRoundTrip` states that it can be read back |
| Extractor.RenderParseRoundTrip | git-todo.py:209-219 | every printed line reads back into the event that printed it, even for paths holding colons |
| Extractor.ReportTodos | git-todo.py:164-225 | the printed lines are those of every record, in order, each record scanned only when `TODO.search` finds something in its body |
| Arguments.PreferredBranch | git-todo.py:78-81 | the pick is a non-empty candidate that is listed |
| Arguments.PreferredBranchIsFirstListed | git-todo.py:78-81 | the pick is the first common branch name that is listed; there is none exactly when no such name is listed |
| Arguments.GuessMainBranch | git-todo.py:76-84 | the `for` loop over the preferred names returns the first one among the listed lines, or none, where the source raises |
| Arguments.ParseEntry | git-todo.py:114-115 | `partition("\n")` and `removeprefix("todo.")`: the key holds no newline, and an entry without a newline has an empty value |
| Arguments.EntryRoundTrip | git-todo.py:114-115 | an entry `todo.<key>\n<value>` is read as that key and value, whatever the value holds |
| Arguments.ApplyEntries | git-todo.py:116 | applying entries keeps every key of the configuration and only adds or overwrites |
| Arguments.GetConfig | git-todo.py:101-117 | the loop over the NUL-separated entries applies every non-empty entry, in order, to the defaults |
| Arguments.LastEntryWins | git-todo.py:113-116 | the last entry that sets a key decides its value |
| Arguments.UnsetKeyKept | git-todo.py:102-116 | a key that no entry sets keeps its default value, or stays absent |
| Arguments.ConfiguredBranch | git-todo.py:138 | `config.get("default-branch")` is taken exactly when the setting is present and non-empty, and then it is that setting's value |
| Arguments.DefaultBranchRule | git-todo.py:138 | the branch used when none is given: a non-empty `default-branch` setting always, ahead of any guess; otherwise the first listed common branch name, or none |
| Arguments.ContextLines | git-todo.py:144-147 | an absent or empty `context-lines`, or one that is not a decimal number, gives 5 |
| Arguments.ContextLinesRoundTrip | git-todo.py:145 | a number written into `context-lines` is the number of context lines used |
| Arguments.BranchArgs | git-todo.py:135 | the branch arguments are those not starting with `-` |
| Arguments.DiffArgs | git-todo.py:136 | the diff arguments are those starting with `-` |
| Arguments.ArgumentPartition | git-todo.py:135-136 | every argument goes to exactly one of the two lists, and merging the lists in order gives back the arguments |
| Arguments.ProcessArguments | git-todo.py:135-141 | fails exactly when no branch is given and none is configured or guessed. The branch list is the given branches, or only the default. `--merge-base` is put first exactly when one branch remains |
| Arguments.SelectionShape | git-todo.py:137-141 | at least one revision is compared; `--merge-base` adds exactly one option when one revision is compared, and always when the default branch is used; the given options follow in order |

## Left out

- `install_alias` (lines 16-61) and `find_repo_root` (lines 87-98) are not modelled. They only run git to change global configuration or to find the repository.
- The subprocess calls are not modelled, nor is the `exit(e.returncode)` handling (lines 121-132). The outputs of the calls are parameters instead.
- The `git diff` command line (lines 148-162) is not modelled. It passes `--unified=<context lines>`, `--diff-algorithm=histogram`, `--no-color`, `--no-prefix`, `--no-relative`, the diff arguments and the branch arguments on to git. The segmenter relies on two of them: `--no-prefix` makes the `+++` line carry the bare path, and `--no-color` keeps escape codes out of the lines the patterns see.
- Printing is left out. The report is returned as a sequence of lines. The stderr message of `guess_main_branch` is dropped.
- Text.SplitLines: it splits on `\n` only. Python's `str.splitlines` also splits on `\r`, `\x0b`, `\x0c`, `\x1c`-`\x1e`, `\x85`, `\u2028` and `\u2029`. The diff is read with universal newlines, so `\r\n` and `\r` never reach the scanner. The other separators would make the loop's lines differ from the lines the patterns see.
- Patterns.TodoMatch: `TODO` is matched ASCII case-insensitively. Python's Unicode case folding is not modelled.
- Arguments.ContextLines: only an unsigned run of ASCII digits counts as a number. Python's `int()` also accepts surrounding whitespace, a sign, underscores and non-ASCII digits. A negative value would reach git unchanged.
- `DEFAULTS` (line 102) is not defined anywhere in the file, so the initial configuration is a parameter of `GetConfig`. As written, `main()` calls `get_config()` (line 130) on every run inside a repository, and line 102 then raises `NameError`. Only `CalledProcessError` is caught there (line 131), so the argument handling, the diff and the scan are never reached. The model describes the code as it would run with `DEFAULTS` defined.
- The placeholder `None` that line 174 stores as the newest record's body is modelled as an empty body. Lines 172-173 or 176-180 always overwrite it before the record is used.
- Only the third number of a hunk header is returned. The other fields are parsed, so that the same lines match, but their values are unused in the source.
