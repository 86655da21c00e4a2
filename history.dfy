/**
 * What `walk_entire_history` computes over a whole revision walk, stated
 * against reference counts over the commits that were found: how many
 * commits, PRs and file changes, how many commits touch each component and
 * language, what each component's change entry adds up, and how the commits
 * fall into months and weekdays.
 */
module History {
  import opened Wrappers
  import opened Text
  import opened Git
  import Classifier
  import opened Changes
  import opened Counting
  import opened CommitFold
  import opened CommitFacts

  /** The commits of the walk that could be looked up, in walk order. */
  function Found(revwalk: seq<Option<Commit>>): (cs: seq<Commit>)
    ensures |cs| <= |revwalk|
  {
    if revwalk == [] then []
    else (if revwalk[0].Some? then [revwalk[0].value] else []) + Found(revwalk[1..])
  }

  /** How many of the commits have the PR marker in their summary. */
  function PrCount(cs: seq<Commit>): (n: nat)
    ensures n <= |cs|
  {
    if cs == [] then 0
    else (if Contains(cs[0].summary, CommitMessageStart) then 1 else 0) + PrCount(cs[1..])
  }

  /** The considered deltas of a commit's diff. */
  function ChangedFiles(c: Commit): seq<FileDelta> {
    ConsideredDeltas(DiffOf(c))
  }

  /** How many considered deltas the commits have in all. */
  function FileChangeCount(cs: seq<Commit>): nat {
    if cs == [] then 0 else |ChangedFiles(cs[0])| + FileChangeCount(cs[1..])
  }

  /** Some considered delta of the commit belongs to `comp`. */
  predicate Touches(c: Commit, comp: string) {
    comp in ComponentsOf(ChangedFiles(c))
  }

  /** How many of the commits touch `comp`. */
  function TouchCount(cs: seq<Commit>, comp: string): nat {
    if cs == [] then 0 else (if Touches(cs[0], comp) then 1 else 0) + TouchCount(cs[1..], comp)
  }

  /** `lang` is allow-listed and some considered delta of the commit has it. */
  predicate Uses(c: Commit, lang: string) {
    lang in Classifier.InterestingLangs && lang in LanguagesOf(ChangedFiles(c))
  }

  /** How many of the commits use `lang`. */
  function LanguageCount(cs: seq<Commit>, lang: string): nat {
    if cs == [] then 0 else (if Uses(cs[0], lang) then 1 else 0) + LanguageCount(cs[1..], lang)
  }

  /**
   * What a commit adds to the entry of a component it touches: the added,
   * deleted and modified kinds among the first deltas of its components, up
   * to and including the component's own first delta.
   */
  function Contribution(c: Commit, comp: string): CommitChanges {
    CountersAfter(FreshLocals, UpTo(FirstDeltas(DiffOf(c), {}), comp))
  }

  /** The contributions to `comp` of the commits that touch it, in walk order. */
  function Contributions(cs: seq<Commit>, comp: string): seq<CommitChanges> {
    if cs == [] then []
    else (if Touches(cs[0], comp) then [Contribution(cs[0], comp)] else []) + Contributions(cs[1..], comp)
  }

  /** How many of the commits fall in month `month` of year `year`. */
  function MonthCount(cs: seq<Commit>, year: int, month: Month): nat {
    if cs == [] then 0
    else (if cs[0].year == year && cs[0].month == month then 1 else 0) + MonthCount(cs[1..], year, month)
  }

  /** Some commit falls in year `year`. */
  predicate InYear(cs: seq<Commit>, year: int) {
    exists i | 0 <= i < |cs| :: cs[i].year == year
  }

  /** How many of the commits fall on weekday `w`. */
  function DayCount(cs: seq<Commit>, w: Weekday): nat {
    if cs == [] then 0 else (if cs[0].weekday == w then 1 else 0) + DayCount(cs[1..], w)
  }

  /** The seven weekday names, the only keys `commits_by_day_of_week` can have. */
  predicate IsWeekdayName(name: string) {
    exists w: Weekday :: WeekdayName(w) == name
  }

  /** The allow-list keeps exactly the allow-listed elements. */
  lemma {:induction false} InterestingOnlyMembers(xs: seq<string>, x: string)
    ensures x in InterestingOnly(xs) <==> x in xs && x in Classifier.InterestingLangs
  {
    if xs != [] {
      InterestingOnlyMembers(xs[1..], x);
      assert xs == [xs[0]] + xs[1..];
    }
  }

  /**
   * One found commit: counted once, as a PR exactly when its summary has the
   * marker; every considered delta is a file change; each component and each
   * allow-listed language it touches is appended once, in first-seen order.
   */
  lemma CommitStepCounts(t: Tally, c: Commit)
    requires TwelveSlots(t.commitsByMonth)
    ensures var r := CommitStep(t, Some(c));
            var ds := ChangedFiles(c);
            && r.numCommitsToMaster == t.numCommitsToMaster + 1
            && r.numPrs == t.numPrs + (if Contains(c.summary, CommitMessageStart) then 1 else 0)
            && r.numPrs + r.missingPrs == t.numPrs + t.missingPrs + 1
            && r.numFileChanges == t.numFileChanges + |ds|
            && r.componentNameOccurrences == t.componentNameOccurrences + Distinct(ComponentsOf(ds), {})
            && r.langNameOccurrences == t.langNameOccurrences + Distinct(InterestingOnly(LanguagesOf(ds)), {})
  {
    var t2 := RecordDate(CountCommit(t, c.summary), c);
    ScanFileChanges(t2, FreshLocals, DiffOf(c));
    ScanComponents(t2, FreshLocals, DiffOf(c));
    FirstDeltasComponents(DiffOf(c), {});
    ScanLanguages(t2, FreshLocals, DiffOf(c));
  }

  /** A found commit adds its contribution to each component it touches and leaves the other entries alone. */
  lemma CommitStepChanges(t: Tally, c: Commit, comp: string)
    requires TwelveSlots(t.commitsByMonth)
    ensures var m := CommitStep(t, Some(c)).changesByComponent;
            if Touches(c, comp) then
              comp in m && m[comp] == EntryOrEmpty(t.changesByComponent, comp).Add(Contribution(c, comp))
            else
              (comp in m <==> comp in t.changesByComponent) && (comp in m ==> m[comp] == t.changesByComponent[comp])
  {
    var t2 := RecordDate(CountCommit(t, c.summary), c);
    ScanChanges(t2, FreshLocals, DiffOf(c), comp);
    FirstDeltasComponents(DiffOf(c), {});
    DistinctFacts(ComponentsOf(ChangedFiles(c)), {});
  }

  /** The multiset count of `x` in the distinct elements of `xs`: one if it occurs, else none. */
  lemma DistinctOnce(xs: seq<string>, x: string)
    ensures multiset(Distinct(xs, {}))[x] == if x in xs then 1 else 0
  {
    DistinctFacts(xs, {});
  }

  /** Commits, PRs and file changes over the walk. */
  lemma {:induction false} FoldCounts(t: Tally, revwalk: seq<Option<Commit>>)
    requires TwelveSlots(t.commitsByMonth)
    ensures var r := Fold(t, revwalk);
            var cs := Found(revwalk);
            && r.numCommitsToMaster == t.numCommitsToMaster + |cs|
            && r.numPrs == t.numPrs + PrCount(cs)
            && r.numPrs + r.missingPrs == t.numPrs + t.missingPrs + |cs|
            && r.numFileChanges == t.numFileChanges + FileChangeCount(cs)
    decreases |revwalk|
  {
    if revwalk != [] {
      var t1 := CommitStep(t, revwalk[0]);
      FoldCounts(t1, revwalk[1..]);
      if revwalk[0].Some? {
        CommitStepCounts(t, revwalk[0].value);
        assert Found(revwalk) == [revwalk[0].value] + Found(revwalk[1..]);
        assert ([revwalk[0].value] + Found(revwalk[1..]))[1..] == Found(revwalk[1..]);
      } else {
        assert Found(revwalk) == Found(revwalk[1..]);
      }
    }
  }

  /** Each component is appended once per commit that touches it. */
  lemma {:induction false} FoldComponents(t: Tally, revwalk: seq<Option<Commit>>, comp: string)
    requires TwelveSlots(t.commitsByMonth)
    ensures multiset(Fold(t, revwalk).componentNameOccurrences)[comp] ==
      multiset(t.componentNameOccurrences)[comp] + TouchCount(Found(revwalk), comp)
    decreases |revwalk|
  {
    if revwalk != [] {
      var t1 := CommitStep(t, revwalk[0]);
      FoldComponents(t1, revwalk[1..], comp);
      if revwalk[0].Some? {
        var c := revwalk[0].value;
        CommitStepCounts(t, c);
        DistinctOnce(ComponentsOf(ChangedFiles(c)), comp);
        assert Found(revwalk) == [c] + Found(revwalk[1..]);
        assert ([c] + Found(revwalk[1..]))[1..] == Found(revwalk[1..]);
      } else {
        assert Found(revwalk) == Found(revwalk[1..]);
      }
    }
  }

  /** Each allow-listed language is appended once per commit that uses it, and nothing else is appended. */
  lemma {:induction false} FoldLanguages(t: Tally, revwalk: seq<Option<Commit>>, lang: string)
    requires TwelveSlots(t.commitsByMonth)
    ensures multiset(Fold(t, revwalk).langNameOccurrences)[lang] ==
      multiset(t.langNameOccurrences)[lang] + LanguageCount(Found(revwalk), lang)
    ensures lang !in Classifier.InterestingLangs && lang !in t.langNameOccurrences ==>
      lang !in Fold(t, revwalk).langNameOccurrences
    decreases |revwalk|
  {
    if revwalk != [] {
      var t1 := CommitStep(t, revwalk[0]);
      if revwalk[0].Some? {
        var c := revwalk[0].value;
        var xs := LanguagesOf(ChangedFiles(c));
        CommitStepCounts(t, c);
        InterestingOnlyMembers(xs, lang);
        DistinctOnce(InterestingOnly(xs), lang);
        FoldLanguages(t1, revwalk[1..], lang);
        assert Found(revwalk) == [c] + Found(revwalk[1..]);
        assert ([c] + Found(revwalk[1..]))[1..] == Found(revwalk[1..]);
        if lang !in Classifier.InterestingLangs && lang !in t.langNameOccurrences {
          DistinctFacts(InterestingOnly(xs), {});
          assert lang !in t1.langNameOccurrences;
        }
      } else {
        FoldLanguages(t1, revwalk[1..], lang);
        assert Found(revwalk) == Found(revwalk[1..]);
      }
    }
  }

  /**
   * The change entry of a component grows by one `+=` per commit that
   * touches it, in walk order; an untouched component keeps its entry.
   */
  lemma {:induction false} FoldChanges(t: Tally, revwalk: seq<Option<Commit>>, comp: string)
    requires TwelveSlots(t.commitsByMonth)
    ensures var m := Fold(t, revwalk).changesByComponent;
            var ps := Contributions(Found(revwalk), comp);
            if ps == [] then
              (comp in m <==> comp in t.changesByComponent) && (comp in m ==> m[comp] == t.changesByComponent[comp])
            else
              comp in m && m[comp] == AddAll(EntryOrEmpty(t.changesByComponent, comp), ps)
    decreases |revwalk|
  {
    if revwalk != [] {
      var t1 := CommitStep(t, revwalk[0]);
      FoldChanges(t1, revwalk[1..], comp);
      var rest := Contributions(Found(revwalk[1..]), comp);
      if revwalk[0].Some? {
        var c := revwalk[0].value;
        CommitStepChanges(t, c, comp);
        assert Found(revwalk) == [c] + Found(revwalk[1..]);
        assert ([c] + Found(revwalk[1..]))[1..] == Found(revwalk[1..]);
        if Touches(c, comp) {
          var e := EntryOrEmpty(t.changesByComponent, comp);
          var ps := [Contribution(c, comp)] + rest;
          assert Contributions(Found(revwalk), comp) == ps;
          assert ps[1..] == rest;
          assert AddAll(e, ps) == AddAll(e.Add(Contribution(c, comp)), rest);
          if rest == [] {
            assert AddAll(e.Add(Contribution(c, comp)), rest) == e.Add(Contribution(c, comp));
          }
        } else {
          assert Contributions(Found(revwalk), comp) == [] + rest == rest;
          assert t1.changesByComponent == CommitStep(t, Some(c)).changesByComponent;
          assert EntryOrEmpty(t1.changesByComponent, comp) == EntryOrEmpty(t.changesByComponent, comp);
        }
      } else {
        assert t1 == t;
        assert Found(revwalk) == Found(revwalk[1..]);
      }
    }
  }

  /** A found commit adds one to its own month's slot, creating its year as needed, and touches no other slot. */
  lemma CommitStepMonth(t: Tally, c: Commit, year: int, month: Month)
    requires TwelveSlots(t.commitsByMonth)
    ensures var m := CommitStep(t, Some(c)).commitsByMonth;
            && (year in m <==> year in t.commitsByMonth || c.year == year)
            && (year in m ==>
                  m[year][month - 1] ==
                  (if year in t.commitsByMonth then t.commitsByMonth[year][month - 1] else 0)
                  + (if c.year == year && c.month == month then 1 else 0))
  {
    var t2 := RecordDate(CountCommit(t, c.summary), c);
    assert CommitStep(t, Some(c)) == ScanDeltas(t2, FreshLocals, DiffOf(c)).0;
  }

  /** A found commit adds one to its own weekday. */
  lemma CommitStepDay(t: Tally, c: Commit)
    requires TwelveSlots(t.commitsByMonth)
    ensures var day := WeekdayName(c.weekday);
            CommitStep(t, Some(c)).commitsByDayOfWeek == t.commitsByDayOfWeek[day := Get(t.commitsByDayOfWeek, day) + 1]
  {
    var t2 := RecordDate(CountCommit(t, c.summary), c);
    assert CommitStep(t, Some(c)) == ScanDeltas(t2, FreshLocals, DiffOf(c)).0;
  }

  lemma InYearCons(c: Commit, rest: seq<Commit>, year: int)
    ensures InYear([c] + rest, year) <==> c.year == year || InYear(rest, year)
  {
    var cs := [c] + rest;
    assert cs[0] == c;
    if InYear(cs, year) && c.year != year {
      var i :| 0 <= i < |cs| && cs[i].year == year;
      assert rest[i - 1].year == year;
    }
    if InYear(rest, year) {
      var i :| 0 <= i < |rest| && rest[i].year == year;
      assert cs[i + 1].year == year;
    }
  }

  /** Each year bucket counts the commits of each of its months; a year has a bucket once some commit falls in it. */
  lemma {:induction false} FoldMonths(t: Tally, revwalk: seq<Option<Commit>>, year: int, month: Month)
    requires TwelveSlots(t.commitsByMonth)
    ensures var m := Fold(t, revwalk).commitsByMonth;
            var cs := Found(revwalk);
            && (year in m <==> year in t.commitsByMonth || InYear(cs, year))
            && (year in m ==>
                  m[year][month - 1] ==
                  (if year in t.commitsByMonth then t.commitsByMonth[year][month - 1] else 0) + MonthCount(cs, year, month))
    decreases |revwalk|
  {
    if revwalk != [] {
      var t1 := CommitStep(t, revwalk[0]);
      FoldMonths(t1, revwalk[1..], year, month);
      var rest := Found(revwalk[1..]);
      if revwalk[0].Some? {
        var c := revwalk[0].value;
        var cs := [c] + rest;
        assert Found(revwalk) == cs;
        assert cs[1..] == rest;
        CommitStepMonth(t, c, year, month);
        InYearCons(c, rest, year);
      } else {
        assert Found(revwalk) == rest;
      }
    }
  }

  /** The sum of the slots of one year bucket. */
  function SlotSum(v: seq<nat>): nat {
    if v == [] then 0 else v[0] + SlotSum(v[1..])
  }

  /** The sum of all slots of all year buckets. */
  ghost function MonthTotal(m: map<int, seq<nat>>): nat {
    SumValues(map y | y in m :: SlotSum(m[y]))
  }

  /** Adding one to a slot adds one to the bucket's sum. */
  lemma {:induction false} SlotSumBump(v: seq<nat>, i: nat)
    requires i < |v|
    ensures SlotSum(v[i := v[i] + 1]) == SlotSum(v) + 1
    decreases |v|
  {
    var v' := v[i := v[i] + 1];
    if i == 0 {
      assert v'[1..] == v[1..];
    } else {
      SlotSumBump(v[1..], i - 1);
      assert v'[1..] == v[1..][i - 1 := v[i] + 1];
    }
  }

  /** A fresh year bucket sums to zero. */
  lemma NewMonthVecSum()
    ensures SlotSum(NewMonthVec) == 0
  {
    var v := NewMonthVec;
    assert v[1..][1..][1..][1..][1..][1..][1..][1..][1..][1..][1..][1..] == [];
  }

  /** Replacing one year bucket replaces its sum in the total. */
  lemma MonthTotalUpdate(m: map<int, seq<nat>>, year: int, v: seq<nat>)
    ensures MonthTotal(m[year := v]) + (if year in m then SlotSum(m[year]) else 0) == MonthTotal(m) + SlotSum(v)
  {
    var m' := m[year := v];
    var sums := map y | y in m :: SlotSum(m[y]);
    var sums' := map y | y in m' :: SlotSum(m'[y]);
    SumValuesRemove(sums', year);
    assert sums' - {year} == sums - {year};
    if year in m {
      SumValuesRemove(sums, year);
    } else {
      assert sums - {year} == sums;
    }
  }

  /** Adding one to a slot of a year bucket (a fresh one if the year is new) adds one to the total. */
  lemma MonthTotalBump(m: map<int, seq<nat>>, m': map<int, seq<nat>>, year: int, vec: seq<nat>, slot: nat)
    requires slot < |vec|
    requires year in m ==> vec == m[year]
    requires year !in m ==> vec == NewMonthVec
    requires m' == m[year := vec[slot := vec[slot] + 1]]
    ensures MonthTotal(m') == MonthTotal(m) + 1
  {
    NewMonthVecSum();
    SlotSumBump(vec, slot);
    MonthTotalUpdate(m, year, vec[slot := vec[slot] + 1]);
  }

  /**
   * A found commit's year bucket: `vec` is the bucket before the step (a
   * fresh one if the year is new), and the step adds one to its slot
   * `month - 1`.
   */
  lemma CommitStepBucket(t: Tally, c: Commit) returns (vec: seq<nat>)
    requires TwelveSlots(t.commitsByMonth)
    ensures |vec| == 12
    ensures c.year in t.commitsByMonth ==> vec == t.commitsByMonth[c.year]
    ensures c.year !in t.commitsByMonth ==> vec == NewMonthVec
    ensures CommitStep(t, Some(c)).commitsByMonth == t.commitsByMonth[c.year := vec[c.month - 1 := vec[c.month - 1] + 1]]
  {
    vec := if c.year in t.commitsByMonth then t.commitsByMonth[c.year] else NewMonthVec;
    var t2 := RecordDate(CountCommit(t, c.summary), c);
    assert CommitStep(t, Some(c)) == ScanDeltas(t2, FreshLocals, DiffOf(c)).0;
  }

  /** A found commit adds one to the total over all year buckets. */
  lemma CommitStepMonthTotal(t: Tally, c: Commit)
    requires TwelveSlots(t.commitsByMonth)
    ensures MonthTotal(CommitStep(t, Some(c)).commitsByMonth) == MonthTotal(t.commitsByMonth) + 1
  {
    var vec := CommitStepBucket(t, c);
    MonthTotalBump(t.commitsByMonth, CommitStep(t, Some(c)).commitsByMonth, c.year, vec, c.month - 1);
  }

  /** Over the walk, the total over all year buckets grows by the number of found commits. */
  lemma {:induction false} FoldMonthTotal(t: Tally, revwalk: seq<Option<Commit>>)
    requires TwelveSlots(t.commitsByMonth)
    ensures MonthTotal(Fold(t, revwalk).commitsByMonth) == MonthTotal(t.commitsByMonth) + |Found(revwalk)|
    decreases |revwalk|
  {
    if revwalk != [] {
      var t1 := CommitStep(t, revwalk[0]);
      FoldMonthTotal(t1, revwalk[1..]);
      if revwalk[0].Some? {
        CommitStepMonthTotal(t, revwalk[0].value);
      }
    }
  }

  /** Each weekday counts its commits, the keys are weekday names, and the counts add up to the commits. */
  lemma {:induction false} FoldDays(t: Tally, revwalk: seq<Option<Commit>>, w: Weekday)
    requires TwelveSlots(t.commitsByMonth)
    ensures var days := Fold(t, revwalk).commitsByDayOfWeek;
            var cs := Found(revwalk);
            && Get(days, WeekdayName(w)) == Get(t.commitsByDayOfWeek, WeekdayName(w)) + DayCount(cs, w)
            && SumValues(days) == SumValues(t.commitsByDayOfWeek) + |cs|
            && ((forall k | k in t.commitsByDayOfWeek :: IsWeekdayName(k)) ==> forall k | k in days :: IsWeekdayName(k))
    decreases |revwalk|
  {
    if revwalk != [] {
      var t1 := CommitStep(t, revwalk[0]);
      FoldDays(t1, revwalk[1..], w);
      var rest := Found(revwalk[1..]);
      if revwalk[0].Some? {
        var c := revwalk[0].value;
        var cs := [c] + rest;
        assert Found(revwalk) == cs;
        assert cs[1..] == rest;
        var day := WeekdayName(c.weekday);
        CommitStepDay(t, c);
        SumValuesBump(t.commitsByDayOfWeek, day, 1);
        assert IsWeekdayName(day);
        WeekdayNamesDistinct(c.weekday, w);
      } else {
        assert Found(revwalk) == rest;
      }
    }
  }

  /** Different weekdays have different names. */
  lemma WeekdayNamesDistinct(v: Weekday, w: Weekday)
    ensures WeekdayName(v) == WeekdayName(w) <==> v == w
  {
  }

  /** The report's counters: one per found commit, PRs by the marker, file changes by the path filter. */
  lemma HistoryCounts(revwalk: seq<Option<Commit>>)
    ensures var s := HistoryStats(revwalk);
            var cs := Found(revwalk);
            && s.numCommitsToMaster == |cs|
            && s.numPrs == PrCount(cs)
            && s.missingPrs == |cs| - PrCount(cs)
            && s.numFileChanges == FileChangeCount(cs)
  {
    FoldCounts(Start, revwalk);
  }

  /** `component_stats` maps each component to the number of commits that touch it, and has no other key. */
  lemma HistoryComponentStats(revwalk: seq<Option<Commit>>, comp: string)
    ensures var s := HistoryStats(revwalk);
            var n := TouchCount(Found(revwalk), comp);
            (comp in s.componentStats <==> n > 0) && (comp in s.componentStats ==> s.componentStats[comp] == n)
  {
    FoldComponents(Start, revwalk, comp);
  }

  /**
   * `lang_stats` maps each allow-listed language to the number of commits
   * that use it, and has no other key: in particular `"unknown"` never
   * appears.
   */
  lemma HistoryLanguageStats(revwalk: seq<Option<Commit>>, lang: string)
    ensures var s := HistoryStats(revwalk);
            var n := LanguageCount(Found(revwalk), lang);
            && (lang in s.langStats <==> n > 0)
            && (lang in s.langStats ==> s.langStats[lang] == n && lang in Classifier.InterestingLangs)
  {
    FoldLanguages(Start, revwalk, lang);
  }

  /** No language key is `"unknown"`. */
  lemma UnknownIsNeverALanguage(revwalk: seq<Option<Commit>>)
    ensures Classifier.Unknown !in HistoryStats(revwalk).langStats
  {
    HistoryLanguageStats(revwalk, Classifier.Unknown);
  }

  /**
   * `changes_by_component` has an entry for exactly the touched components,
   * and each entry is the empty counter grown by one `+=` per touching
   * commit, in walk order.
   */
  lemma HistoryChanges(revwalk: seq<Option<Commit>>, comp: string)
    ensures var m := HistoryStats(revwalk).changesByComponent;
            var ps := Contributions(Found(revwalk), comp);
            (comp in m <==> ps != []) && (comp in m ==> m[comp] == AddAll(EmptyChanges, ps))
  {
    FoldChanges(Start, revwalk, comp);
  }

  /**
   * `commits_by_month` has a twelve-slot bucket for exactly the years some
   * commit falls in, and slot `month - 1` counts the commits of that month.
   */
  lemma HistoryMonths(revwalk: seq<Option<Commit>>, year: int, month: Month)
    ensures var m := HistoryStats(revwalk).commitsByMonth;
            var cs := Found(revwalk);
            && (year in m <==> InYear(cs, year))
            && (year in m ==> |m[year]| == 12 && m[year][month - 1] == MonthCount(cs, year, month))
  {
    FoldMonths(Start, revwalk, year, month);
  }

  /** The slots of all year buckets together add up to `num_commits_to_master`. */
  lemma HistoryMonthTotal(revwalk: seq<Option<Commit>>)
    ensures var s := HistoryStats(revwalk);
            MonthTotal(s.commitsByMonth) == s.numCommitsToMaster
  {
    FoldMonthTotal(Start, revwalk);
    HistoryCounts(revwalk);
    assert MonthTotal(map[]) == 0;
  }

  /**
   * `commits_by_day_of_week` counts the commits of each weekday under its
   * name, has no other key, and its counts add up to the number of commits.
   */
  lemma HistoryDays(revwalk: seq<Option<Commit>>, w: Weekday)
    ensures var days := HistoryStats(revwalk).commitsByDayOfWeek;
            var cs := Found(revwalk);
            && Get(days, WeekdayName(w)) == DayCount(cs, w)
            && SumValues(days) == |cs|
            && forall k | k in days :: IsWeekdayName(k)
  {
    FoldDays(Start, revwalk, w);
  }
}
