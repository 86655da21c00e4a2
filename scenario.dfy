/**
 * What the fold yields on a two-commit history, proved for both walk orders:
 * a root commit that adds `compA/Foo.java`, and its child that modifies it
 * under a `(#42)` summary. The counters agree in both orders; the
 * component's `CommitChanges` entry does not, because `add` is not
 * commutative.
 */
module Scenario {
  import opened Wrappers
  import opened Git
  import opened Changes
  import opened CommitFold
  import Classifier
  import CommitFacts
  import History

  /** The root commit: no parent, one added file. */
  predicate IsRoot(c: Commit) {
    c == Commit("init", 0, 2020, 1, Mon, [], [FileDelta("compA/Foo.java", Added)])
  }

  /** Its child: one parent, the same file modified, a PR marker in the summary. */
  predicate IsFix(c: Commit) {
    c == Commit("fix (#42)", 1, 2020, 2, Tue, [FileDelta("compA/Foo.java", Modified)], [])
  }

  lemma PathFacts(path: string)
    requires path == "compA/Foo.java"
    ensures Considered(path)
    ensures ComponentOf(path) == "compA"
    ensures LanguageOf(path) == "java"
  {
    assert path[5] == '/';
    assert !("master" <= path) by { assert path[0] != 'm'; }
    Classifier.ComponentBeforeFirstSlash(path, 5);
    assert path[9] == '.';
    Classifier.LanguageAfterLastDot(path, 9);
  }

  /** A commit whose diff is one considered delta contributes that delta's kind to its component. */
  lemma SingleDeltaContribution(c: Commit, d: FileDelta)
    requires DiffOf(c) == [d] && Considered(d.newPath)
    ensures var comp := ComponentOf(d.newPath);
            && History.Touches(c, comp)
            && History.Contribution(c, comp)
               == New(CommitFacts.Is(d.status, Added), CommitFacts.Is(d.status, Deleted), CommitFacts.Is(d.status, Modified))
  {
    var comp := ComponentOf(d.newPath);
    assert [d][1..] == [];
    assert CommitFacts.ConsideredDeltas([d]) == [d];
    assert CommitFacts.ComponentsOf([d]) == [comp];
    assert CommitFacts.FirstDeltas([d], {}) == [d];
    assert CommitFacts.UpTo([d], comp) == [d];
    forall kind ensures CommitFacts.StatusCount([d], kind) == CommitFacts.Is(d.status, kind) {
      assert CommitFacts.StatusCount([d], kind) == CommitFacts.Is(d.status, kind) + CommitFacts.StatusCount([], kind);
    }
  }

  /** A commit whose diff is one considered delta has one file change, and uses that delta's language iff it is allow-listed. */
  lemma SingleDeltaUses(c: Commit, d: FileDelta)
    requires DiffOf(c) == [d] && Considered(d.newPath)
    ensures |History.ChangedFiles(c)| == 1
    ensures var lang := LanguageOf(d.newPath);
            History.Uses(c, lang) <==> lang in Classifier.InterestingLangs
  {
    assert [d][1..] == [];
    assert CommitFacts.ConsideredDeltas([d]) == [d];
    assert CommitFacts.LanguagesOf([d]) == [LanguageOf(d.newPath)];
  }

  /** The root commit's one added file is a contribution of `{1, 0, 0}` to `compA`, in `java`. */
  lemma RootContribution(root: Commit)
    requires IsRoot(root)
    ensures History.Touches(root, "compA") && History.Contribution(root, "compA") == New(1, 0, 0)
    ensures History.Uses(root, "java") && |History.ChangedFiles(root)| == 1
  {
    var path := root.rootDiff[0].newPath;
    PathFacts(path);
    assert BaselineOf(root) == NoTree;
    SingleDeltaContribution(root, FileDelta(path, Added));
    SingleDeltaUses(root, FileDelta(path, Added));
    assert Classifier.InterestingLangs[0] == "java";
  }

  /** The fix's one modified file is a contribution of `{0, 0, 1}` to `compA`, in `java`. */
  lemma FixContribution(fix: Commit)
    requires IsFix(fix)
    ensures History.Touches(fix, "compA") && History.Contribution(fix, "compA") == New(0, 0, 1)
    ensures History.Uses(fix, "java") && |History.ChangedFiles(fix)| == 1
  {
    var path := fix.parentDiff[0].newPath;
    PathFacts(path);
    assert BaselineOf(fix) == ParentTree;
    SingleDeltaContribution(fix, FileDelta(path, Modified));
    SingleDeltaUses(fix, FileDelta(path, Modified));
    assert Classifier.InterestingLangs[0] == "java";
  }

  /** Two found commits that both touch `comp` leave its entry at `EMPTY + first + second`, in walk order. */
  lemma TwoCommitEntry(a: Commit, b: Commit, comp: string, x: CommitChanges, y: CommitChanges)
    requires History.Touches(a, comp) && History.Touches(b, comp)
    requires History.Contribution(a, comp) == x && History.Contribution(b, comp) == y
    ensures var m := HistoryStats([Some(a), Some(b)]).changesByComponent;
            comp in m && m[comp] == EmptyChanges.Add(x).Add(y)
  {
    var rw := [Some(a), Some(b)];
    assert rw[1..] == [Some(b)] && rw[1..][1..] == [];
    assert History.Found(rw) == [a, b];
    assert [a, b][1..] == [b] && [b][1..] == [];
    var ps := History.Contributions([a, b], comp);
    assert History.Contributions([b], comp) == [y];
    assert ps == [x, y];
    History.HistoryChanges(rw, comp);
    assert ps[1..] == [y] && ps[1..][1..] == [];
    calc {
      AddAll(EmptyChanges, ps);
      AddAll(EmptyChanges.Add(x), [y]);
      AddAll(EmptyChanges.Add(x).Add(y), []);
    }
  }

  /** Two found commits, exactly one of them with the PR marker: two commits, one PR, one missing. */
  lemma TwoCommitCounts(a: Commit, b: Commit)
    requires Text.Contains(a.summary, CommitMessageStart) != Text.Contains(b.summary, CommitMessageStart)
    ensures var s := HistoryStats([Some(a), Some(b)]);
            s.numCommitsToMaster == 2 && s.numPrs == 1 && s.missingPrs == 1
  {
    var rw := [Some(a), Some(b)];
    assert rw[1..] == [Some(b)] && rw[1..][1..] == [];
    assert History.Found(rw) == [a, b];
    assert [a, b][1..] == [b] && [b][1..] == [];
    assert History.PrCount([a, b]) == 1;
    History.HistoryCounts(rw);
  }

  /**
   * Two found commits with one file change each, both touching `comp` and
   * using `lang`: two file changes, and both `comp` and `lang` counted twice.
   */
  lemma TwoCommitStats(a: Commit, b: Commit, comp: string, lang: string)
    requires History.Touches(a, comp) && History.Touches(b, comp)
    requires History.Uses(a, lang) && History.Uses(b, lang)
    requires |History.ChangedFiles(a)| == 1 && |History.ChangedFiles(b)| == 1
    ensures var s := HistoryStats([Some(a), Some(b)]);
            && s.numFileChanges == 2
            && comp in s.componentStats && s.componentStats[comp] == 2
            && lang in s.langStats && s.langStats[lang] == 2
  {
    var rw := [Some(a), Some(b)];
    assert rw[1..] == [Some(b)] && rw[1..][1..] == [];
    assert History.Found(rw) == [a, b];
    assert [a, b][1..] == [b] && [b][1..] == [];
    assert History.FileChangeCount([b]) == 1 + History.FileChangeCount([]);
    assert History.FileChangeCount([a, b]) == 2;
    assert History.TouchCount([b], comp) == 1 + History.TouchCount([], comp);
    assert History.TouchCount([a, b], comp) == 2;
    assert History.LanguageCount([b], lang) == 1 + History.LanguageCount([], lang);
    assert History.LanguageCount([a, b], lang) == 2;
    History.HistoryCounts(rw);
    History.HistoryComponentStats(rw, comp);
    History.HistoryLanguageStats(rw, lang);
  }

  /** The fix carries the PR marker and the root commit does not. */
  lemma ScenarioMarkers(root: Commit, fix: Commit)
    requires IsRoot(root) && IsFix(fix)
    ensures Text.Contains(fix.summary, CommitMessageStart)
    ensures !Text.Contains(root.summary, CommitMessageStart)
  {
    assert Text.OccursAt(fix.summary, CommitMessageStart, 4);
    forall i | 0 <= i <= |root.summary| - |CommitMessageStart|
      ensures !Text.OccursAt(root.summary, CommitMessageStart, i)
    {
      assert root.summary[i] != '(';
    }
  }

  /** `EMPTY += {0, 0, 1}; += {1, 0, 0}` and the other order. */
  lemma EntrySums()
    ensures EmptyChanges.Add(New(0, 0, 1)).Add(New(1, 0, 0)) == New(1, 0, 1)
    ensures EmptyChanges.Add(New(1, 0, 0)).Add(New(0, 0, 1)) == New(1, 1, 1)
  {
    ZeroIsLeftIdentity(New(0, 0, 1));
    ZeroIsLeftIdentity(New(1, 0, 0));
    AddIsNotCommutative();
  }

  /** Walked newest first, as the revision walk from the head does, the entry is `{1, 0, 1}`. */
  lemma NewestFirst(root: Commit, fix: Commit)
    requires IsRoot(root) && IsFix(fix)
    ensures var s := HistoryStats([Some(fix), Some(root)]);
            && s.numCommitsToMaster == 2 && s.numPrs == 1 && s.missingPrs == 1
            && "compA" in s.changesByComponent && s.changesByComponent["compA"] == New(1, 0, 1)
            && s.numFileChanges == 2
            && "compA" in s.componentStats && s.componentStats["compA"] == 2
            && "java" in s.langStats && s.langStats["java"] == 2
  {
    ScenarioMarkers(root, fix);
    TwoCommitCounts(fix, root);
    RootContribution(root);
    FixContribution(fix);
    TwoCommitEntry(fix, root, "compA", New(0, 0, 1), New(1, 0, 0));
    TwoCommitStats(fix, root, "compA", "java");
    EntrySums();
  }

  /** Walked oldest first, the same two commits leave `{1, 1, 1}`: a deletion that never happened. */
  lemma OldestFirst(root: Commit, fix: Commit)
    requires IsRoot(root) && IsFix(fix)
    ensures var s := HistoryStats([Some(root), Some(fix)]);
            && s.numCommitsToMaster == 2 && s.numPrs == 1 && s.missingPrs == 1
            && "compA" in s.changesByComponent && s.changesByComponent["compA"] == New(1, 1, 1)
            && s.numFileChanges == 2
            && "compA" in s.componentStats && s.componentStats["compA"] == 2
            && "java" in s.langStats && s.langStats["java"] == 2
  {
    ScenarioMarkers(root, fix);
    TwoCommitCounts(root, fix);
    RootContribution(root);
    FixContribution(fix);
    TwoCommitEntry(root, fix, "compA", New(1, 0, 0), New(0, 0, 1));
    TwoCommitStats(root, fix, "compA", "java");
    EntrySums();
  }
}
