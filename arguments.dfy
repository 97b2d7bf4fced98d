/** The command-line and configuration handling of `main()` (git-todo.py, lines 135-147)
    and the two helpers it relies on: the preference-ordered pick of a main branch
    (lines 78-83) and the reading of `todo.*` configuration entries (lines 113-116).
    The output of the git commands these run is passed in as a parameter. */
module Arguments {
  import opened Wrappers
  import opened Text

  /** Branch names tried, in order of preference (lines 8-12). */
  const CommonBranches: seq<string> := ["develop", "main", "master"]

  /** Lines used when `context-lines` is not set to a number (line 13). */
  const DefaultContextLines: nat := 5

  /** The first preferred branch among the listed branch names. */
  function PreferredBranch(candidates: seq<string>, branches: seq<string>): (r: Option<string>)
    ensures r.Some? ==> r.value != [] && r.value in candidates && r.value in branches
    decreases |candidates|
  {
    if candidates == [] then None
    else if candidates[0] != [] && candidates[0] in branches then Some(candidates[0])
    else PreferredBranch(candidates[1..], branches)
  }

  /** The pick is the earliest candidate that is listed, and there is none exactly when
      no non-empty candidate is listed. */
  lemma {:induction false} PreferredBranchIsFirstListed(candidates: seq<string>, branches: seq<string>)
    ensures var r := PreferredBranch(candidates, branches);
            (r.None? <==> forall i :: 0 <= i < |candidates| ==> candidates[i] == [] || candidates[i] !in branches)
            && (r.Some? ==> exists k :: 0 <= k < |candidates| && r.value == candidates[k]
                              && r.value != [] && r.value in branches
                              && forall i :: 0 <= i < k ==> candidates[i] == [] || candidates[i] !in branches)
    decreases |candidates|
  {
    if candidates != [] && !(candidates[0] != [] && candidates[0] in branches) {
      var rest := candidates[1..];
      PreferredBranchIsFirstListed(rest, branches);
      assert forall i :: 1 <= i < |candidates| ==> candidates[i] == rest[i - 1];
      var r := PreferredBranch(candidates, branches);
      if r.Some? {
        var k :| 0 <= k < |rest| && r.value == rest[k] && r.value != [] && r.value in branches
                 && forall i :: 0 <= i < k ==> rest[i] == [] || rest[i] !in branches;
        assert r.value == candidates[k + 1];
      }
    }
  }

  /** `guess_main_branch()` (lines 78-83) on the output of `git branch --list`: the first
      common branch name that is one of the listed lines, or none (where the source
      raises `ValueError`). */
  method GuessMainBranch(listing: string) returns (r: Option<string>)
    ensures r == PreferredBranch(CommonBranches, SplitLines(listing))
  {
    var branches := SplitLines(listing);
    for i := 0 to |CommonBranches|
      invariant PreferredBranch(CommonBranches, branches) == PreferredBranch(CommonBranches[i..], branches)
    {
      var b := CommonBranches[i];
      assert CommonBranches[i..][1..] == CommonBranches[i + 1..];
      if b != [] && b in branches {
        return Some(b);
      }
    }
    return None;
  }

  /** `key, _sep, value = entry.partition("\n")` and `key.removeprefix("todo.")`
      (lines 114-115): the key up to the first newline without its `todo.` prefix,
      and everything after that newline. */
  function ParseEntry(entry: string): (kv: (string, string))
    ensures '\n' !in kv.0
    ensures '\n' !in entry ==> kv.1 == []
  {
    LineEndNoNewline(entry, 0);
    var e := LineEnd(entry, 0);
    var key := entry[..e];
    var value := if e < |entry| then entry[e + 1..] else "";
    (if |key| >= 5 && key[..5] == "todo." then key[5..] else key, value)
  }

  /** An entry as `git config --null --get-regexp` writes it, `todo.<key>` and a newline
      before the value, is read back as that key and value, whatever the value holds. */
  lemma EntryRoundTrip(key: string, value: string)
    requires '\n' !in key
    ensures ParseEntry("todo." + key + "\n" + value) == (key, value)
  {
    var entry := "todo." + key + "\n" + value;
    var e := 5 + |key|;
    assert entry[e] == '\n';
    assert forall k :: 0 <= k < e ==> entry[k] != '\n' by {
      forall k | 0 <= k < e ensures entry[k] != '\n' {
        if 5 <= k { assert entry[k] == key[k - 5]; }
      }
    }
    LineEndAt(entry, 0, e);
    assert entry[..e][..5] == "todo.";
    assert entry[..e][5..] == key;
    assert entry[e + 1..] == value;
  }

  /** The configuration after the entries, each non-empty one setting its key (line 116). */
  function ApplyEntries(config: map<string, string>, entries: seq<string>): (r: map<string, string>)
    ensures config.Keys <= r.Keys
    decreases |entries|
  {
    if entries == [] then config
    else
      var prev := ApplyEntries(config, entries[..|entries| - 1]);
      var entry := entries[|entries| - 1];
      if entry == [] then prev else prev[ParseEntry(entry).0 := ParseEntry(entry).1]
  }

  /** `get_config()` (lines 101-117) on the NUL-separated output of `git config`. */
  method GetConfig(defaults: map<string, string>, output: string) returns (config: map<string, string>)
    ensures config == ApplyEntries(defaults, SplitOn(output, '\0'))
  {
    var entries := SplitOn(output, '\0');
    config := defaults;
    for i := 0 to |entries|
      invariant config == ApplyEntries(defaults, entries[..i])
    {
      var entry := entries[i];
      assert entries[..i + 1][..i] == entries[..i];
      if entry != [] {
        var kv := ParseEntry(entry);
        config := config[kv.0 := kv.1];
      }
    }
    assert entries[..|entries|] == entries;
  }

  /** Entry `i` is non-empty and sets `key`. */
  predicate SetsKey(entries: seq<string>, i: int, key: string)
  {
    0 <= i < |entries| && entries[i] != [] && ParseEntry(entries[i]).0 == key
  }

  function Lookup(config: map<string, string>, key: string): Option<string>
  {
    if key in config then Some(config[key]) else None
  }

  /** The last entry that sets a key decides its value. */
  lemma {:induction false} LastEntryWins(config: map<string, string>, entries: seq<string>, key: string, i: nat)
    requires SetsKey(entries, i, key) && forall j :: i < j ==> !SetsKey(entries, j, key)
    ensures Lookup(ApplyEntries(config, entries), key) == Some(ParseEntry(entries[i]).1)
    decreases |entries|
  {
    var n := |entries| - 1;
    if i == n {
      ApplyLast(config, entries, key);
    } else {
      DropLastEntry(config, entries, entries[..n], key, i);
      LastEntryWins(config, entries[..n], key, i);
    }
  }

  /** Dropping a last entry that comes after the last one setting `key` keeps both that
      entry and the key's value. */
  lemma DropLastEntry(config: map<string, string>, entries: seq<string>, prefix: seq<string>, key: string, i: nat)
    requires SetsKey(entries, i, key) && forall j :: i < j ==> !SetsKey(entries, j, key)
    requires i < |entries| - 1 && prefix == entries[..|entries| - 1]
    ensures SetsKey(prefix, i, key) && prefix[i] == entries[i]
    ensures forall j :: i < j ==> !SetsKey(prefix, j, key)
    ensures Lookup(ApplyEntries(config, entries), key) == Lookup(ApplyEntries(config, prefix), key)
  {
    var n := |entries| - 1;
    ApplyLast(config, entries, key);
    assert !SetsKey(entries, n, key);
    SameEntries(entries, n, i, key);
    forall j | i < j ensures !SetsKey(prefix, j, key) {
      if j < n { SameEntries(entries, n, j, key); }
    }
  }

  /** A key that no entry sets keeps its default, or stays absent. */
  lemma {:induction false} UnsetKeyKept(config: map<string, string>, entries: seq<string>, key: string)
    requires forall i :: !SetsKey(entries, i, key)
    ensures Lookup(ApplyEntries(config, entries), key) == Lookup(config, key)
    decreases |entries|
  {
    if entries != [] {
      var n := |entries| - 1;
      var prefix := entries[..n];
      ApplyLast(config, entries, key);
      assert !SetsKey(entries, n, key);
      forall i ensures !SetsKey(prefix, i, key) {
        if 0 <= i < n { SameEntries(entries, n, i, key); }
      }
      UnsetKeyKept(config, prefix, key);
    }
  }

  lemma SameEntries(entries: seq<string>, n: nat, i: nat, key: string)
    requires i < n <= |entries|
    ensures SetsKey(entries[..n], i, key) == SetsKey(entries, i, key)
  {
    assert entries[..n][i] == entries[i];
  }

  /** One more entry changes the key's value exactly when it sets that key. */
  lemma ApplyLast(config: map<string, string>, entries: seq<string>, key: string)
    requires entries != []
    ensures SetsKey(entries, |entries| - 1, key)
            ==> Lookup(ApplyEntries(config, entries), key) == Some(ParseEntry(entries[|entries| - 1]).1)
    ensures !SetsKey(entries, |entries| - 1, key)
            ==> Lookup(ApplyEntries(config, entries), key)
                == Lookup(ApplyEntries(config, entries[..|entries| - 1]), key)
  {
  }

  /** `int(config.get("context-lines") or "")` with its `ValueError` fallback (lines
      144-147): a setting of ASCII digits gives its value, anything else gives 5. */
  function ContextLines(config: map<string, string>): (n: nat)
    ensures "context-lines" !in config || config["context-lines"] == [] ==> n == DefaultContextLines
    ensures "context-lines" in config && !AllDigits(config["context-lines"]) ==> n == DefaultContextLines
  {
    if "context-lines" in config && config["context-lines"] != [] && AllDigits(config["context-lines"])
    then DecimalValue(config["context-lines"])
    else DefaultContextLines
  }

  /** A number written into the setting is the number of context lines used. */
  lemma ContextLinesRoundTrip(config: map<string, string>, n: nat)
    ensures ContextLines(config["context-lines" := NatToDecimal(n)]) == n
  {
    DecimalRoundTrip(n);
  }

  /** Whether an argument is an option for `git diff` (lines 135-136). */
  predicate IsDashArg(a: string)
  {
    |a| > 0 && a[0] == '-'
  }

  /** `[a for a in args if not a.startswith("-")]` (line 135). */
  function BranchArgs(args: seq<string>): (r: seq<string>)
    ensures forall i :: 0 <= i < |r| ==> !IsDashArg(r[i])
    decreases |args|
  {
    if args == [] then []
    else (if IsDashArg(args[0]) then [] else [args[0]]) + BranchArgs(args[1..])
  }

  /** `[a for a in args if a.startswith("-")]` (line 136). */
  function DiffArgs(args: seq<string>): (r: seq<string>)
    ensures forall i :: 0 <= i < |r| ==> IsDashArg(r[i])
    decreases |args|
  {
    if args == [] then []
    else (if IsDashArg(args[0]) then [args[0]] else []) + DiffArgs(args[1..])
  }

  /** `xs` can be merged with `ys` into `zs` keeping the order of both. */
  predicate Interleaves(xs: seq<string>, ys: seq<string>, zs: seq<string>)
    decreases |zs|
  {
    if zs == [] then xs == [] && ys == []
    else
      (xs != [] && xs[0] == zs[0] && Interleaves(xs[1..], ys, zs[1..]))
      || (ys != [] && ys[0] == zs[0] && Interleaves(xs, ys[1..], zs[1..]))
  }

  /** The two comprehensions split the arguments: every argument goes to exactly one
      list, and each list keeps the arguments' original order. */
  lemma {:induction false} ArgumentPartition(args: seq<string>)
    ensures Interleaves(BranchArgs(args), DiffArgs(args), args)
    ensures |BranchArgs(args)| + |DiffArgs(args)| == |args|
    decreases |args|
  {
    if args != [] {
      var rest := args[1..];
      ArgumentPartition(rest);
      if IsDashArg(args[0]) {
        assert DiffArgs(args)[1..] == DiffArgs(rest);
        assert BranchArgs(args) == BranchArgs(rest);
      } else {
        assert BranchArgs(args)[1..] == BranchArgs(rest);
        assert DiffArgs(args) == DiffArgs(rest);
      }
    }
  }

  /** The arguments of the `git diff` run: its options, then the revisions to compare. */
  datatype DiffSelection = DiffSelection(diffArgs: seq<string>, branchArgs: seq<string>)

  /** The one failure of the argument handling: no branch given, none configured, and
      no common branch name found (lines 82-84). */
  datatype ArgumentError = NoMainBranch

  /** `config.get("default-branch")` when set to something non-empty (line 138). */
  function ConfiguredBranch(config: map<string, string>): (r: Option<string>)
    ensures r.Some? ==> r.value != []
    ensures r.Some? <==> "default-branch" in config && config["default-branch"] != []
    ensures r.Some? ==> r.value == config["default-branch"]
  {
    if "default-branch" in config && config["default-branch"] != [] then Some(config["default-branch"]) else None
  }

  /** The branch used when none is given: the configured one, else the guessed one. */
  function DefaultBranch(config: map<string, string>, listing: string): Option<string>
  {
    match ConfiguredBranch(config)
    case Some(b) => Some(b)
    case None => PreferredBranch(CommonBranches, SplitLines(listing))
  }

  /** A non-empty `default-branch` setting is always used, ahead of any guess; an absent or
      empty one falls back to the guess from the branch listing (line 138's `or`). */
  lemma DefaultBranchRule(config: map<string, string>, listing: string)
    ensures "default-branch" in config && config["default-branch"] != [] ==>
              DefaultBranch(config, listing) == Some(config["default-branch"])
    ensures !("default-branch" in config && config["default-branch"] != []) ==>
              DefaultBranch(config, listing) == PreferredBranch(CommonBranches, SplitLines(listing))
  {
  }

  /** Lines 135-141: split the arguments, append the default branch when no branch is
      given, and put `--merge-base` in front of the options when one branch remains. */
  method ProcessArguments(args: seq<string>, config: map<string, string>, listing: string)
    returns (r: Result<DiffSelection, ArgumentError>)
    ensures r.Failure? <==> BranchArgs(args) == [] && DefaultBranch(config, listing).None?
    ensures r.Success? ==>
              r.value.branchArgs == (if BranchArgs(args) == [] then [DefaultBranch(config, listing).value] else BranchArgs(args))
    ensures r.Success? ==>
              r.value.diffArgs == (if |r.value.branchArgs| == 1 then ["--merge-base"] + DiffArgs(args) else DiffArgs(args))
  {
    var branchArgs := BranchArgs(args);
    var diffArgs := DiffArgs(args);
    if |branchArgs| == 0 {
      var branch := ConfiguredBranch(config);
      if branch.None? {
        branch := GuessMainBranch(listing);
      }
      if branch.None? {
        return Failure(NoMainBranch);
      }
      branchArgs := branchArgs + [branch.value];
    }
    if |branchArgs| == 1 {
      diffArgs := ["--merge-base"] + diffArgs;
    }
    return Success(DiffSelection(diffArgs, branchArgs));
  }

  /** What `git diff` is asked to compare: the given revisions in order, or only the
      default branch; `--merge-base` is added exactly when one revision is compared, and
      every given option is passed on in order. */
  lemma SelectionShape(args: seq<string>, config: map<string, string>, listing: string, sel: DiffSelection)
    requires BranchArgs(args) != [] || DefaultBranch(config, listing).Some?
    requires sel.branchArgs == if BranchArgs(args) == [] then [DefaultBranch(config, listing).value] else BranchArgs(args)
    requires sel.diffArgs == if |sel.branchArgs| == 1 then ["--merge-base"] + DiffArgs(args) else DiffArgs(args)
    ensures |sel.branchArgs| >= 1
    ensures |sel.diffArgs| == |DiffArgs(args)| + (if |sel.branchArgs| == 1 then 1 else 0)
    ensures sel.diffArgs[|sel.diffArgs| - |DiffArgs(args)|..] == DiffArgs(args)
    ensures BranchArgs(args) == [] ==> sel.diffArgs[0] == "--merge-base"
    ensures Interleaves(BranchArgs(args), DiffArgs(args), args)
  {
    ArgumentPartition(args);
  }
}
