/**
 * The per-commit fold of `walk_entire_history`, as functions on an explicit
 * accumulator: one step per delta of a commit's diff, one step per commit of
 * the revision walk, and the report built from the final accumulator.
 */
module CommitFold {
  import opened Wrappers
  import opened Text
  import opened Git
  import Classifier
  import opened Changes
  import Counting
  import Report

  /** The marker whose presence in a summary counts the commit as a pull request. */
  const CommitMessageStart: string := "(#"
  /** The counter a component's first entry starts from. */
  const EmptyChanges: CommitChanges := New(0, 0, 0)
  /** A fresh year bucket: twelve zero counts, slot 0 for January. */
  const NewMonthVec: seq<nat> := [0, 0, 0, 0, 0, 0, 0, 0, 0, 0, 0, 0]

  /** chrono's `Debug` rendering of a weekday, the key of `commits_by_day_of_week`. */
  function WeekdayName(w: Weekday): string {
    match w
    case Mon => "Mon"
    case Tue => "Tue"
    case Wed => "Wed"
    case Thu => "Thu"
    case Fri => "Fri"
    case Sat => "Sat"
    case Sun => "Sun"
  }

  /** The path filter: under some directory, and not under the legacy `master` prefix. */
  predicate Considered(path: string) {
    !("master" <= path) && '/' in path
  }

  function ComponentOf(path: string): string {
    Classifier.ExtractComponentName(path).UnwrapOr(Classifier.Unknown)
  }

  function LanguageOf(path: string): string {
    Classifier.ExtractLanguage(path).UnwrapOr(Classifier.Unknown)
  }

  /** The mutable locals of `walk_entire_history` that outlive one commit. */
  datatype Tally = Tally(
    numCommitsToMaster: nat,
    numPrs: nat,
    missingPrs: nat,
    numFileChanges: nat,
    commitsByMonth: map<int, seq<nat>>,
    commitsByDayOfWeek: map<string, nat>,
    changesByComponent: map<string, CommitChanges>,
    componentNameOccurrences: seq<string>,
    langNameOccurrences: seq<string>)

  const Start: Tally := Tally(0, 0, 0, 0, map[], map[], map[], [], [])

  /** The locals declared afresh for each commit: three counters and two dedup sets. */
  datatype Locals = Locals(added: nat, deleted: nat, modified: nat, localLangs: set<string>, localComps: set<string>)

  const FreshLocals: Locals := Locals(0, 0, 0, {}, {})

  /** The `match d.status()`: added, deleted and modified bump their counter, any other kind nothing. */
  function Bump(l: Locals, status: Delta): Locals {
    match status
    case Added => l.(added := l.added + 1)
    case Deleted => l.(deleted := l.deleted + 1)
    case Modified => l.(modified := l.modified + 1)
    case _ => l
  }

  /** The entry of `key`, or the empty counter (`entry(key).or_insert(EMPTY_CHANGES)`). */
  function EntryOrEmpty(m: map<string, CommitChanges>, key: string): CommitChanges {
    if key in m then m[key] else EmptyChanges
  }

  /** `*changes_by_component.entry(key).or_insert(EMPTY_CHANGES) += changes`. */
  function AddAssignAt(m: map<string, CommitChanges>, key: string, changes: CommitChanges): map<string, CommitChanges> {
    m[key := EntryOrEmpty(m, key).Add(changes)]
  }

  /** A language is recorded once per commit, and only when it is allow-listed. */
  function NoteLanguage(t: Tally, l: Locals, lang: string): (Tally, Locals) {
    if lang !in l.localLangs && lang in Classifier.InterestingLangs then
      (t.(langNameOccurrences := t.langNameOccurrences + [lang]), l.(localLangs := l.localLangs + {lang}))
    else
      (t, l)
  }

  /**
   * A component is recorded once per commit: its first delta bumps the
   * per-commit counters and adds their current values to the component's entry.
   */
  function NoteComponent(t: Tally, l: Locals, comp: string, status: Delta): (Tally, Locals) {
    if comp in l.localComps then
      (t, l)
    else
      var l' := Bump(l, status).(localComps := l.localComps + {comp});
      var changes := New(l'.added, l'.deleted, l'.modified);
      (t.(changesByComponent := AddAssignAt(t.changesByComponent, comp, changes),
          componentNameOccurrences := t.componentNameOccurrences + [comp]),
       l')
  }

  /** One iteration of the loop over a commit's deltas. */
  function DeltaStep(t: Tally, l: Locals, d: FileDelta): (Tally, Locals) {
    if !Considered(d.newPath) then
      (t, l)
    else
      var t1 := t.(numFileChanges := t.numFileChanges + 1);
      var tl := NoteLanguage(t1, l, LanguageOf(d.newPath));
      NoteComponent(tl.0, tl.1, ComponentOf(d.newPath), d.status)
  }

  /**
   * The whole loop over a commit's deltas. It touches neither the commit and
   * PR counts nor the time buckets.
   */
  function ScanDeltas(t: Tally, l: Locals, ds: seq<FileDelta>): (r: (Tally, Locals))
    ensures r.0.numCommitsToMaster == t.numCommitsToMaster && r.0.numPrs == t.numPrs && r.0.missingPrs == t.missingPrs
    ensures r.0.commitsByMonth == t.commitsByMonth && r.0.commitsByDayOfWeek == t.commitsByDayOfWeek
    decreases |ds|
  {
    if ds == [] then
      (t, l)
    else
      var next := DeltaStep(t, l, ds[0]);
      ScanDeltas(next.0, next.1, ds[1..])
  }

  /** Every year bucket has twelve slots. */
  predicate TwelveSlots(m: map<int, seq<nat>>) {
    forall y | y in m :: |m[y]| == 12
  }

  /** Counts the commit, and counts it as a PR exactly when its summary contains the marker. */
  function CountCommit(t: Tally, summary: string): (r: Tally)
    ensures r.numCommitsToMaster == t.numCommitsToMaster + 1
    ensures r.numPrs + r.missingPrs == t.numPrs + t.missingPrs + 1
    ensures r.numPrs == t.numPrs + (if Contains(summary, CommitMessageStart) then 1 else 0)
  {
    var t1 := t.(numCommitsToMaster := t.numCommitsToMaster + 1);
    if Contains(summary, CommitMessageStart) then t1.(numPrs := t1.numPrs + 1)
    else t1.(missingPrs := t1.missingPrs + 1)
  }

  /**
   * The time bucketing: adds one to slot `month - 1` of the commit's year
   * (creating the year as twelve zeros) and one to its weekday.
   */
  function RecordDate(t: Tally, commit: Commit): (r: Tally)
    requires TwelveSlots(t.commitsByMonth)
    ensures TwelveSlots(r.commitsByMonth)
    ensures r.commitsByMonth.Keys == t.commitsByMonth.Keys + {commit.year}
    ensures forall y | y in t.commitsByMonth && y != commit.year :: r.commitsByMonth[y] == t.commitsByMonth[y]
    ensures forall i | 0 <= i < 12 ::
      r.commitsByMonth[commit.year][i] ==
        (if commit.year in t.commitsByMonth then t.commitsByMonth[commit.year][i] else 0)
        + (if i == commit.month - 1 then 1 else 0)
  {
    var monthVec := if commit.year in t.commitsByMonth then t.commitsByMonth[commit.year] else NewMonthVec;
    var slot := commit.month - 1;
    var day := WeekdayName(commit.weekday);
    t.(commitsByMonth := t.commitsByMonth[commit.year := monthVec[slot := monthVec[slot] + 1]],
       commitsByDayOfWeek := t.commitsByDayOfWeek[day := Counting.Get(t.commitsByDayOfWeek, day) + 1])
  }

  /**
   * One commit of the revision walk. A commit that could not be looked up
   * changes nothing; otherwise it is counted, bucketed by date, and its diff
   * (against its parent's tree when it has exactly one parent, against no
   * tree otherwise) is scanned with fresh per-commit locals.
   */
  function CommitStep(t: Tally, found: Option<Commit>): (r: Tally)
    requires TwelveSlots(t.commitsByMonth)
    ensures TwelveSlots(r.commitsByMonth)
  {
    match found
    case None => t
    case Some(commit) =>
      var t1 := CountCommit(t, commit.summary);
      var t2 := RecordDate(t1, commit);
      ScanDeltas(t2, FreshLocals, DiffOf(commit)).0
  }

  /** The revision walk, commit after commit. */
  function Fold(t: Tally, revwalk: seq<Option<Commit>>): (r: Tally)
    requires TwelveSlots(t.commitsByMonth)
    ensures TwelveSlots(r.commitsByMonth)
    decreases |revwalk|
  {
    if revwalk == [] then t else Fold(CommitStep(t, revwalk[0]), revwalk[1..])
  }

  /** The report built from the final accumulator, with both occurrence lists counted. */
  function Finish(t: Tally): Report.Stats {
    Report.New(
      t.numCommitsToMaster, t.numPrs, t.missingPrs, t.numFileChanges,
      Counting.Occurrences(t.componentNameOccurrences),
      Counting.Occurrences(t.langNameOccurrences),
      t.commitsByMonth, t.commitsByDayOfWeek, t.changesByComponent)
  }

  /** The report `walk_entire_history` produces for a revision walk. */
  function HistoryStats(revwalk: seq<Option<Commit>>): Report.Stats {
    Finish(Fold(Start, revwalk))
  }
}
