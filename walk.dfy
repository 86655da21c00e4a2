/**
 * `walk_entire_history` as the loops it is made of: the revision walk's
 * steps one by one, and each found commit's deltas one by one. The locals
 * that outlive a commit are kept in a `Tally`, those declared afresh for each
 * commit in a `Locals`; each is updated field by field as the source updates
 * the local of the same name.
 */
module Walk {
  import opened Wrappers
  import opened Text
  import opened Git
  import Classifier
  import opened Changes
  import Counting
  import Report
  import opened CommitFold

  /** The body of the loop over a commit's deltas. */
  method VisitDelta(t: Tally, l: Locals, d: FileDelta) returns (t': Tally, l': Locals)
    ensures (t', l') == DeltaStep(t, l, d)
  {
    t', l' := t, l;
    var fileName := d.newPath;
    // only files in the diff that are changes to component code
    if !("master" <= fileName) && Classifier.PathSplit in fileName {
      t' := t'.(numFileChanges := t'.numFileChanges + 1);
      var compName := Classifier.ExtractComponentName(fileName).UnwrapOr(Classifier.Unknown);
      var langName := Classifier.ExtractLanguage(fileName).UnwrapOr(Classifier.Unknown);
      // count the language once per diff
      if langName !in l'.localLangs && langName in Classifier.InterestingLangs {
        l' := l'.(localLangs := l'.localLangs + {langName});
        t' := t'.(langNameOccurrences := t'.langNameOccurrences + [langName]);
      }
      // count the first occurrence of the component per diff
      if compName !in l'.localComps {
        l' := l'.(localComps := l'.localComps + {compName});
        match d.status {
          case Added => l' := l'.(added := l'.added + 1);
          case Deleted => l' := l'.(deleted := l'.deleted + 1);
          case Modified => l' := l'.(modified := l'.modified + 1);
          case _ =>
        }
        var changes := New(l'.added, l'.deleted, l'.modified);
        var entry := if compName in t'.changesByComponent then t'.changesByComponent[compName] else EmptyChanges;
        entry := AddAssign(entry, changes);
        t' := t'.(changesByComponent := t'.changesByComponent[compName := entry],
                  componentNameOccurrences := t'.componentNameOccurrences + [compName]);
      }
    }
  }

  /** The loop over a commit's deltas, starting from zero counters and empty dedup sets. */
  method ScanDiff(t: Tally, ds: seq<FileDelta>) returns (t': Tally)
    ensures t' == ScanDeltas(t, FreshLocals, ds).0
  {
    t' := t;
    var l := Locals(0, 0, 0, {}, {});
    for j := 0 to |ds|
      invariant ScanDeltas(t', l, ds[j..]) == ScanDeltas(t, FreshLocals, ds)
    {
      assert ds[j..] == [ds[j]] + ds[j + 1..];
      t', l := VisitDelta(t', l, ds[j]);
    }
  }

  /** The body of the revision-walk loop for a commit that could be looked up. */
  method VisitCommit(t: Tally, commit: Commit) returns (t': Tally)
    requires TwelveSlots(t.commitsByMonth)
    ensures t' == CommitStep(t, Some(commit))
  {
    t' := t.(numCommitsToMaster := t.numCommitsToMaster + 1);
    if Contains(commit.summary, CommitMessageStart) {
      t' := t'.(numPrs := t'.numPrs + 1);
    } else {
      t' := t'.(missingPrs := t'.missingPrs + 1);
    }
    assert t' == CountCommit(t, commit.summary);
    // record changes by time
    var year := commit.year;
    var month := commit.month - 1;
    var monthVec := if year in t'.commitsByMonth then t'.commitsByMonth[year] else NewMonthVec;
    monthVec := monthVec[month := monthVec[month] + 1];
    var commitDay := WeekdayName(commit.weekday);
    t' := t'.(commitsByMonth := t'.commitsByMonth[year := monthVec],
              commitsByDayOfWeek := t'.commitsByDayOfWeek[commitDay := Counting.Get(t'.commitsByDayOfWeek, commitDay) + 1]);
    assert t' == RecordDate(CountCommit(t, commit.summary), commit);
    t' := ScanDiff(t', DiffOf(commit));
  }

  /**
   * The statistics of a revision walk (a step is `None` when its commit
   * cannot be looked up). The result is the fold's report, whose properties
   * are proved in the `History` module.
   */
  method WalkEntireHistory(revwalk: seq<Option<Commit>>) returns (stats: Report.Stats)
    ensures stats == HistoryStats(revwalk)
  {
    var t := Tally(0, 0, 0, 0, map[], map[], map[], [], []);
    for i := 0 to |revwalk|
      invariant TwelveSlots(t.commitsByMonth)
      invariant Fold(t, revwalk[i..]) == Fold(Start, revwalk)
    {
      assert revwalk[i..] == [revwalk[i]] + revwalk[i + 1..];
      if revwalk[i].Some? {
        t := VisitCommit(t, revwalk[i].value);
      }
    }

    var langStats := Counting.CountByKey(t.langNameOccurrences, (l: string) => l);
    var componentStats := Counting.CountByKey(t.componentNameOccurrences, (c: string) => c);
    assert Counting.KeysOf(t.langNameOccurrences, (l: string) => l) == t.langNameOccurrences;
    assert Counting.KeysOf(t.componentNameOccurrences, (c: string) => c) == t.componentNameOccurrences;
    stats := Report.New(t.numCommitsToMaster, t.numPrs, t.missingPrs, t.numFileChanges, componentStats, langStats,
                        t.commitsByMonth, t.commitsByDayOfWeek, t.changesByComponent);
  }
}
