/**
 * The command-line program's own `walk_entire_history`: it keeps every path
 * not under `master` (with or without a `/`), classifies paths with the
 * regular-expression extractors, counts `"unknown"` like any other name,
 * and counts PRs by the `(#digits)` pattern.
 */
module LegacyWalk {
  import opened Wrappers
  import opened Git
  import Classifier
  import Counting
  import Patterns
  import History

  /** The command-line report. */
  datatype LegacyStats = LegacyStats(
    numCommitsToMaster: nat,
    numPrs: nat,
    numFiles: nat,
    componentStats: map<string, nat>,
    langStats: map<string, nat>)

  /** Every step of the walk resolves to a commit (the program panics otherwise). */
  predicate AllFound(revwalk: seq<Option<Commit>>) {
    forall i | 0 <= i < |revwalk| :: revwalk[i].Some?
  }

  /** The diff of each commit of the walk, in walk order. */
  function DiffsOf(revwalk: seq<Option<Commit>>): (diffs: seq<seq<FileDelta>>)
    requires AllFound(revwalk)
    ensures |diffs| == |revwalk|
  {
    seq(|revwalk|, i requires 0 <= i < |revwalk| && revwalk[i].Some? => DiffOf(revwalk[i].value))
  }

  /** `num_files`: every delta of every diff, whatever its path. */
  function TotalDeltas(diffs: seq<seq<FileDelta>>): nat {
    if diffs == [] then 0 else |diffs[0]| + TotalDeltas(diffs[1..])
  }

  /** The paths of a diff that are not under the `master` prefix, in order. */
  function KeptIn(ds: seq<FileDelta>): (paths: seq<string>)
    ensures |paths| <= |ds|
  {
    if ds == [] then []
    else (if !("master" <= ds[0].newPath) then [ds[0].newPath] else []) + KeptIn(ds[1..])
  }

  /** `diff_deltas`: the kept paths of all diffs, in walk order. */
  function KeptPaths(diffs: seq<seq<FileDelta>>): seq<string> {
    if diffs == [] then [] else KeptIn(diffs[0]) + KeptPaths(diffs[1..])
  }

  /** How many steps resolve to a commit. */
  function FoundCount(revwalk: seq<Option<Commit>>): nat {
    if revwalk == [] then 0 else (if revwalk[0].Some? then 1 else 0) + FoundCount(revwalk[1..])
  }

  /** How many commits of the walk have a `(#digits)` in their summary. */
  function PrCount(revwalk: seq<Option<Commit>>): nat {
    if revwalk == [] then 0
    else
      (if revwalk[0].Some? && Patterns.ExtractPrFromCommitMessage(revwalk[0].value.summary).Some? then 1 else 0)
      + PrCount(revwalk[1..])
  }

  function ComponentOrUnknown(path: string): string {
    Patterns.ExtractComponentNameFromDiffSummary(path).UnwrapOr(Classifier.Unknown)
  }

  function LanguageOrUnknown(path: string): string {
    Patterns.ExtractLanguageFromDiffSummary(path).UnwrapOr(Classifier.Unknown)
  }

  /** The command-line `walk_entire_history`. */
  method LegacyWalkEntireHistory(revwalk: seq<Option<Commit>>) returns (stats: LegacyStats)
    requires AllFound(revwalk)
    ensures stats.numCommitsToMaster == |revwalk|
    ensures stats.numPrs == PrCount(revwalk) <= stats.numCommitsToMaster
    ensures stats.numFiles == TotalDeltas(DiffsOf(revwalk))
    ensures var paths := KeptPaths(DiffsOf(revwalk));
            && stats.componentStats == Counting.Occurrences(seq(|paths|, i requires 0 <= i < |paths| => ComponentOrUnknown(paths[i])))
            && stats.langStats == Counting.Occurrences(seq(|paths|, i requires 0 <= i < |paths| => LanguageOrUnknown(paths[i])))
            && Counting.SumValues(stats.componentStats) == |paths| <= stats.numFiles
            && Counting.SumValues(stats.langStats) == |paths|
  {
    var diffs := DiffsOf(revwalk);
    var numFiles := TotalDeltas(diffs);

    var diffDeltas := CollectDiffDeltas(diffs);

    var componentNameOccurrences := seq(|diffDeltas|, i requires 0 <= i < |diffDeltas| => ComponentOrUnknown(diffDeltas[i]));
    var langNameOccurrences := seq(|diffDeltas|, i requires 0 <= i < |diffDeltas| => LanguageOrUnknown(diffDeltas[i]));
    var componentMap := Counting.CountBy(componentNameOccurrences);
    var langMap := Counting.CountBy(langNameOccurrences);

    var numCommits := FoundCount(revwalk);
    var numPrs := PrCount(revwalk);
    AllFoundCount(revwalk);
    KeptAtMostTotal(diffs);
    stats := LegacyStats(numCommits, numPrs, numFiles, componentMap, langMap);
  }

  /** The nested loop that collects the paths not under `master`, diff by diff. */
  method CollectDiffDeltas(diffs: seq<seq<FileDelta>>) returns (diffDeltas: seq<string>)
    ensures diffDeltas == KeptPaths(diffs)
  {
    diffDeltas := [];
    for i := 0 to |diffs|
      invariant diffDeltas + KeptPaths(diffs[i..]) == KeptPaths(diffs)
    {
      assert diffs[i..] == [diffs[i]] + diffs[i + 1..];
      var ds := diffs[i];
      ghost var before := diffDeltas;
      for j := 0 to |ds|
        invariant diffDeltas + KeptIn(ds[j..]) == before + KeptIn(ds)
      {
        assert ds[j..] == [ds[j]] + ds[j + 1..];
        var fileName := ds[j].newPath;
        if !("master" <= fileName) {
          diffDeltas := diffDeltas + [fileName];
        }
      }
      assert ds[|ds|..] == [];
      assert diffDeltas == before + KeptIn(ds);
      assert KeptPaths(diffs[i..]) == KeptIn(ds) + KeptPaths(diffs[i + 1..]);
      assert diffDeltas + KeptPaths(diffs[i + 1..]) == before + (KeptIn(ds) + KeptPaths(diffs[i + 1..]));
    }
    assert diffs[|diffs|..] == [];
  }

  /** Every step resolves, so every step counts as a commit; PRs are among them. */
  lemma {:induction false} AllFoundCount(revwalk: seq<Option<Commit>>)
    requires AllFound(revwalk)
    ensures FoundCount(revwalk) == |revwalk|
    ensures PrCount(revwalk) <= |revwalk|
  {
    if revwalk != [] {
      AllFoundCount(revwalk[1..]);
    }
  }

  /** `num_files` counts at least the kept paths: the `master` filter only removes. */
  lemma {:induction false} KeptAtMostTotal(diffs: seq<seq<FileDelta>>)
    ensures |KeptPaths(diffs)| <= TotalDeltas(diffs)
  {
    if diffs != [] {
      KeptAtMostTotal(diffs[1..]);
    }
  }

  /**
   * On the same walk, the `(#digits)` pattern counts no more PRs than the
   * library walk's plain `(#` test.
   */
  lemma {:induction false} PrsAtMostLibraryPrs(revwalk: seq<Option<Commit>>)
    ensures PrCount(revwalk) <= History.PrCount(History.Found(revwalk))
  {
    if revwalk != [] {
      PrsAtMostLibraryPrs(revwalk[1..]);
      var rest := History.Found(revwalk[1..]);
      if revwalk[0].Some? {
        var c := revwalk[0].value;
        assert History.Found(revwalk) == [c] + rest;
        assert ([c] + rest)[1..] == rest;
        if Patterns.ExtractPrFromCommitMessage(c.summary).Some? {
          Patterns.PrImpliesMarker(c.summary);
        }
      } else {
        assert History.Found(revwalk) == rest;
      }
    }
  }

  /** A kept path without a `/` is counted under the component `"unknown"`. */
  lemma NoSlashIsUnknownComponent(path: string)
    requires '/' !in path
    ensures ComponentOrUnknown(path) == Classifier.Unknown
  {
    Patterns.ComponentShape(path);
    forall i, e ensures !Patterns.ComponentMatch(path, i, e) {
    }
  }

  /** A kept path without an extension is counted under the language `"unknown"`. */
  lemma NoExtensionIsUnknownLanguage(path: string)
    requires '.' !in path
    ensures LanguageOrUnknown(path) == Classifier.Unknown
  {
    Patterns.LanguageShape(path);
    forall i ensures !Patterns.LanguageMatch(path, i) {
    }
  }
}
