# commit-analysis, modelled in Dafny

commit-analysis walks every commit reachable from a git repository's head and
folds the commits into a `Stats` report with these parts:

- how many commits there are;
- how many commits look like merged pull requests, judged by a `(#` in the summary;
- how many files changed;
- per-component and per-language occurrence counts;
- a twelve-slot month vector per year;
- per-weekday counts;
- a `CommitChanges` counter (added, deleted, modified) per component.

A file's component is the text before its first `/`. Its language is the text
after its last `.`.

The command-line program `src/main.rs` has an older walk of its own. It
classifies paths with three regular expressions: a PR number `\(#(\d+)\)`, a
component `([\w-]+)/.+` and a language `\.(\w+)$`.

This project models, in Dafny:

- **The library's path classifiers** (`Classifier`, over `Text.Split`). They are
  proved equal to "before the first `/`" and "after the last `.`, refused
  exactly when a `/` follows it".
- **`count_by` / `count_by_key`** (`Counting`). These are loops over a map,
  proved to build the occurrence map: every key's count is its multiplicity,
  unseen keys are absent, and the values sum to the input length.
- **`CommitChanges`** (`Changes`), with `+` and `+=` exactly as written. The
  algebra `+` actually has is proved: associative, zero a left identity but
  not a right identity, not commutative.
- **`Stats`** (`Report`) and its field-copying constructor.
- **The library's `walk_entire_history`.** It appears twice:
  - as a specification fold over abstract commit records (`CommitFold`);
  - as the imperative loops that implement it (`Walk`), proved equal to that
    fold.

  The fold's properties are proved per delta and per commit (`CommitFacts`),
  and over the whole walk (`History`). Lemmas in `Scenario` prove what the fold
  yields on a two-commit history, walked in either order.
- **The command-line program's three regex extractors** (`Patterns`). Each is a
  leftmost-first scan, proved equal to the regex semantics it implements.
- **The command-line walk** (`LegacyWalk`): its path-collecting loops and
  occurrence counts.

The git backend is replaced by data:

- A revision walk is a `seq<Option<Commit>>`. A step is `None` when
  `find_commit` fails.
- A `Commit` carries its summary, parent count, author date (year, month 1..12,
  weekday), and both diffs the backend could produce: against the first
  parent's tree and against no tree.
- `DiffOf` chooses between the two diffs as the source does, on
  `parents().len() == 1`.

## Model

| member | source | states |
|---|---|---|
| Text.Split | src/lib.rs:70 | `str::split` on a char always yields at least one piece |
| Text.SplitJoin | src/lib.rs:70 | joining the pieces back with the separator gives the original string (split loses nothing) |
| Text.SplitPiecesFree | src/lib.rs:70 | no piece contains the separator |
| Text.SplitFirst | src/lib.rs:71 | the first piece is a prefix without the separator, and is followed by the separator when shorter than the string |
| Text.SplitLast | src/lib.rs:76 | the last piece is a suffix without the separator, and is preceded by the separator when shorter than the string |
| Classifier.ExtractComponentName | src/lib.rs:69-72 | the component is always present |
| Classifier.ComponentIsBeforeFirstSlash | src/lib.rs:69-72 | the component is a prefix of the path without `/`, followed by `/` unless it is the whole path |
| Classifier.ComponentBeforeFirstSlash | src/lib.rs:69-72 | if `path[i]` is the first `/`, the component is exactly `path[..i]` |
| Classifier.ComponentWithoutSlash | src/lib.rs:69-72 | a path without `/` is its own component |
| Classifier.ComponentExample | src/lib.rs:217-221 | the unit test: `component-a/src/test/java/Thing.java` has component `component-a` |
| Classifier.ExtractLanguage | src/lib.rs:74-82 | the last `.`-piece of the path, refused when it holds a `/`; what that means is proved by `Classifier.LanguageIsAfterLastDot` and `Classifier.LanguageAfterLastDot` |
| Classifier.LanguageIsAfterLastDot | src/lib.rs:74-82 | the result is `None` exactly when some `/` has no `.` after it; otherwise it is the suffix after the last `.` and holds neither `.` nor `/` |
| Classifier.LanguageAfterLastDot | src/lib.rs:74-82 | if `path[i]` is a `.` with neither `.` nor `/` after it, the language is `path[i+1..]` |
| Classifier.LanguageExample | src/lib.rs:224-228 | the unit test: the language of `component-a/src/test/java/Thing.java` is `java` |
| Counting.CountBy | src/lib.rs:53-64 | the loop builds the occurrence map: a key is present iff it occurs, with its multiplicity as value, and the values sum to the number of keys |
| Counting.CountByKey | src/lib.rs:45-51 | counting by a key function: the keys present are exactly the images of the values, and the counts sum to the number of values |
| Counting.OccurrencesSum | src/lib.rs:53-64 | the occurrence counts of a sequence sum to its length |
| Counting.KeysOf | src/lib.rs:50 | mapping the key function keeps length and order |
| Counting.CountExample | src/lib.rs:237-242 | the unit test: `a` occurs twice in `["a","a","b","c","c","d"]` |
| Changes.New | src/commit_changes.rs:28-30 | `new(fa, fd, fm)` stores added, deleted and modified in that order |
| Changes.CommitChanges.Add | src/commit_changes.rs:36-42 | `+` as written, `files_deleted` taken from the left operand's `files_added`; its algebra is proved by the `Changes` lemmas below |
| Changes.AddAssign | src/commit_changes.rs:45-52 | `+=` leaves exactly `old self + other` |
| Changes.AddVersusComponentwiseSum | src/commit_changes.rs:36-42 | `+` agrees with the field-wise sum on added and modified; on the whole value iff the left operand's deleted equals its added |
| Changes.ZeroIsLeftIdentity | src/commit_changes.rs:36-42 | `new(0,0,0) + x == x` |
| Changes.ZeroIsRightIdentityIff | src/commit_changes.rs:36-42 | `x + new(0,0,0) == x` iff `x.files_deleted == x.files_added` |
| Changes.AddIsAssociative | src/commit_changes.rs:36-42 | `(x + y) + z == x + (y + z)`, deleted files included |
| Changes.AddCommutesIff | src/commit_changes.rs:36-42 | the added and modified fields commute; the whole sum commutes iff `x.added + y.deleted == y.added + x.deleted` |
| Changes.AddIsNotCommutative | src/commit_changes.rs:39 | one addition then one modification: the two orders give `{1,1,1}` and `{1,0,1}` |
| Changes.AddAllFields | src/commit_changes.rs:36-42 | a chain of `+=` sums added and modified; its deleted is the starting added plus all added but the last, plus the last operand's deleted |
| Report.New | src/stats.rs:35-55 | each of the nine arguments lands unchanged in the field of the same name |
| Report.NewChecksNothing | src/stats.rs:45-55 | the constructor accepts a report whose PR counts do not sum to the commit count and whose month vector is not twelve long |
| Git.BaselineOf | src/lib.rs:126-131 | a commit is diffed against no tree exactly when it has zero or at least two parents |
| Git.DiffOf | src/lib.rs:126-134 | the diff against the parent's tree for a one-parent commit, against no tree otherwise; the choice is stated by `Git.BaselineOf` |
| CommitFold.Considered | src/lib.rs:146 | a path is considered iff it does not start with `master` and contains a `/`; its effect is stated by `CommitFacts.ConsideredDeltas` and `CommitFacts.ScanFileChanges` |
| CommitFold.NoteLanguage | src/lib.rs:151-155 | the once-per-commit allow-listed language step; stated by `CommitFacts.DeltaStepLanguage` |
| CommitFold.NoteComponent | src/lib.rs:157-170 | the once-per-commit component step with its `+=`; stated by `CommitFacts.DeltaStepComponent` |
| CommitFold.DeltaStep | src/lib.rs:142-171 | one delta-loop iteration; stated by `CommitFacts.DeltaStepLanguage`, `CommitFacts.DeltaStepComponent`, and proved equal to `Walk.VisitDelta` |
| CommitFold.CountCommit | src/lib.rs:108-114 | a found commit adds one commit, and one to exactly one of `num_prs` / `missing_prs`, to PRs iff the summary contains `(#` |
| CommitFold.RecordDate | src/lib.rs:116-124 | the year bucket is created as twelve zeros if new; slot `month-1` gains one; other years and other slots are unchanged |
| CommitFold.ScanDeltas | src/lib.rs:142-172 | the delta loop leaves the commit and PR counts and the date buckets alone |
| CommitFold.CommitStep | src/lib.rs:107-173 | every year bucket keeps twelve slots |
| CommitFold.Fold | src/lib.rs:105-174 | every year bucket keeps twelve slots over the whole walk |
| CommitFold.Finish | src/lib.rs:179-209 | the report from the final locals, with both occurrence lists counted by `count_by_key`; stated by the `History.History*` lemmas |
| CommitFold.HistoryStats | src/lib.rs:88-210 | the report for a revision walk; stated by the `History.History*` lemmas and `Walk.WalkEntireHistory` |
| CommitFacts.ConsideredDeltas | src/lib.rs:146 | the path filter only removes deltas |
| CommitFacts.ConsideredDeltasMembers | src/lib.rs:146 | a delta survives the filter iff it is in the diff and its path does not start with `master` and contains `/` |
| CommitFacts.ComponentsOf | src/lib.rs:148 | one component per delta |
| CommitFacts.ComponentsOfAt | src/lib.rs:148 | the i-th component is the component of the i-th delta's path |
| CommitFacts.LanguagesOf | src/lib.rs:149 | one language per delta |
| CommitFacts.LanguagesOfAt | src/lib.rs:149 | the i-th language is the language of the i-th delta's path |
| CommitFacts.DistinctFacts | src/lib.rs:140-141 | dedup with a `HashSet`: an element survives iff it occurs and was not seen, exactly once, with no duplicates |
| CommitFacts.FirstDeltasComponents | src/lib.rs:158-160 | the components of the first delta of each new component are the distinct components of the considered deltas |
| CommitFacts.DeltaStepLanguage | src/lib.rs:151-155 | one delta appends its language iff the path is considered, the language is allow-listed and not yet seen in this commit |
| CommitFacts.DeltaStepComponent | src/lib.rs:157-170 | a considered delta of an unseen component bumps the counter of its kind, adds the counters to the component's entry with `+=`, and appends the component; any other delta changes none of these |
| CommitFacts.ScanFileChanges | src/lib.rs:146-147 | `num_file_changes` grows by the number of considered deltas |
| CommitFacts.ScanLanguages | src/lib.rs:151-155 | the commit appends its distinct allow-listed languages, in first-seen order |
| CommitFacts.ScanComponents | src/lib.rs:157-169 | the commit appends the component of each component's first delta, in order |
| CommitFacts.ScanChangesUntouched | src/lib.rs:168 | the entry of a component the commit does not touch is unchanged |
| CommitFacts.ScanChangesFirst | src/lib.rs:136-168 | the k-th new component's entry grows by the counters over the first k+1 first deltas, so the counters keep growing across components |
| CommitFacts.ScanChanges | src/lib.rs:136-170 | a touched component's entry becomes `entry-or-EMPTY + counters up to its own first delta`; any other entry is unchanged |
| History.Found | src/lib.rs:107 | the commits that resolve are at most the walk's steps |
| History.PrCount | src/lib.rs:110 | at most one PR per commit |
| History.CommitStepCounts | src/lib.rs:107-172 | per commit: one more commit, PR iff `(#`, PRs plus missing grows by one, file changes grow by the considered deltas, the commit's distinct components and allow-listed languages are appended |
| History.CommitStepChanges | src/lib.rs:136-170 | per commit: a touched component's entry grows by `+=` of the commit's contribution; others are unchanged |
| History.CommitStepMonth | src/lib.rs:118-121 | per commit: a year bucket exists after it iff it existed or is the commit's year; the commit's slot gains one |
| History.CommitStepDay | src/lib.rs:122-123 | per commit: the weekday entry gains one |
| History.FoldCounts | src/lib.rs:105-174 | over the walk: commits = found commits, PRs = commits with `(#`, PRs + missing = commits, file changes = all considered deltas |
| History.FoldComponents | src/lib.rs:157-169 | a component occurs as many times as there are commits touching it |
| History.FoldLanguages | src/lib.rs:151-155 | a language occurs as many times as there are commits using it; a non-allow-listed language never appears |
| History.FoldChanges | src/lib.rs:168 | a component's entry is the walk-order `+=` chain of the contributions of the commits touching it |
| History.FoldMonths | src/lib.rs:116-121 | a year bucket exists iff some commit is in that year; each slot counts the commits of that month |
| History.FoldDays | src/lib.rs:122-123 | each weekday counts its commits; the counts sum to the number of commits; keys are weekday names |
| History.WeekdayNamesDistinct | src/lib.rs:122 | distinct weekdays have distinct keys |
| History.HistoryCounts | src/lib.rs:200-209 | the report: commits = found, PRs = with `(#`, missing = the rest, file changes = considered deltas |
| History.HistoryComponentStats | src/lib.rs:189-193 | `component_stats[c]` is present iff some commit touches c, and equals the number of such commits |
| History.HistoryLanguageStats | src/lib.rs:182-185 | `lang_stats[l]` is present iff some commit uses l, equals the number of such commits, and l is allow-listed |
| History.UnknownIsNeverALanguage | src/lib.rs:42 | `unknown` is never a key of `lang_stats` |
| History.HistoryChanges | src/lib.rs:168 | `changes_by_component[c]` is present iff some commit touches c, and equals `EMPTY +=` each contribution in walk order |
| History.HistoryMonths | src/lib.rs:116-121 | a year is a key iff some commit is in it; its vector has twelve slots, each counting that month's commits |
| History.SlotSumBump | src/lib.rs:121 | adding one to a slot adds one to the sum of the year's twelve slots |
| History.MonthTotalUpdate | src/lib.rs:120 | replacing one year bucket replaces its sum in the total over all buckets |
| History.MonthTotalBump | src/lib.rs:120-121 | one slot increment, creating the year as twelve zeros if new, adds one to the total over all buckets |
| History.CommitStepMonthTotal | src/lib.rs:116-121 | per commit: the total over all year buckets grows by one |
| History.FoldMonthTotal | src/lib.rs:105-174 | over the walk: the total over all year buckets grows by the number of found commits |
| History.HistoryMonthTotal | src/lib.rs:116-121 | the slots of all year buckets together add up to `num_commits_to_master` |
| History.HistoryDays | src/lib.rs:122-123 | weekday counts: per weekday the number of its commits, summing to the number of commits, keys only weekday names |
| Walk.VisitDelta | src/lib.rs:142-171 | the imperative delta-loop body equals the fold's delta step |
| Walk.ScanDiff | src/lib.rs:136-172 | the delta loop, from zero counters and empty dedup sets, equals the fold over the diff |
| Walk.VisitCommit | src/lib.rs:107-172 | the revision-walk loop body for a found commit equals the fold's commit step |
| Walk.WalkEntireHistory | src/lib.rs:88-210 | the walk's report equals `HistoryStats`, about which the `History` lemmas hold |
| Scenario.SingleDeltaContribution | src/lib.rs:158-168 | a commit whose diff is one considered delta contributes that delta's kind to its component |
| Scenario.TwoCommitEntry | src/lib.rs:168 | for two commits touching a component, its entry is `EMPTY + first + second`, in walk order |
| Scenario.TwoCommitCounts | src/lib.rs:108-114 | two commits, one with the PR marker: two commits, one PR, one missing |
| Scenario.SingleDeltaUses | src/lib.rs:146-155 | a commit whose diff is one considered delta has one file change, and uses that delta's language iff it is allow-listed |
| Scenario.TwoCommitStats | src/lib.rs:146-193 | two commits, one file change each, both touching a component and using a language: two file changes, and both counted twice |
| Scenario.NewestFirst | src/lib.rs:88-210 | root adds `compA/Foo.java`, child `fix (#42)` modifies it; walked newest first: 2 commits, 1 PR, 1 missing, 2 file changes, `component_stats["compA"] == 2`, `lang_stats["java"] == 2`, entry `{1,0,1}` |
| Scenario.OldestFirst | src/lib.rs:88-210 | the same history walked oldest first gives the same counts but entry `{1,1,1}`: the result depends on walk order |
| Patterns.DigitRun | src/main.rs:32 | the greedy `\d+` run: every char in it is a digit and the next char is not |
| Patterns.PrAtMatches | src/main.rs:32 | the scan at position i finds a match ending at e iff `\(#(\d+)\)` matches there |
| Patterns.FindPrLeftmost | src/main.rs:34 | the search returns the leftmost match, or reports that there is none |
| Patterns.PrIsLeftmostGroup | src/main.rs:30-37 | when the leftmost match is at i, the result is its digit group |
| Patterns.ExtractPrFromCommitMessage | src/main.rs:30-37 | the digit group of the leftmost `\(#(\d+)\)` match, or `None`; stated by `Patterns.PrIsLeftmostGroup`, `Patterns.PrAbsent` and `Patterns.PrShape` |
| Patterns.PrAbsent | src/main.rs:30-37 | `None` exactly when the pattern matches nowhere |
| Patterns.PrShape | src/main.rs:30-37 | a returned PR is non-empty, all digits, and `(#pr)` occurs in the message |
| Patterns.PrImpliesMarker | src/main.rs:140-147 | a message with a PR number contains `(#` |
| Patterns.PrAfterPlainText | src/main.rs:30-37 | text without `(` followed by `(#digits)` yields those digits |
| Patterns.PrExample | src/main.rs:189-194 | the unit test: the message ending in `(#4729)` yields `4729` |
| Patterns.NameRun | src/main.rs:41 | the greedy `[\w-]+` run: every char in it is a name char and the next char is not |
| Patterns.ComponentAtMatches | src/main.rs:41 | the scan at i yields e iff `([\w-]+)/.+` matches with group `[i, e)` |
| Patterns.FindComponentLeftmost | src/main.rs:43 | the search returns the leftmost match, or reports that there is none |
| Patterns.ComponentIsLeftmostGroup | src/main.rs:39-46 | when the leftmost match is at i, the result is its group |
| Patterns.ExtractComponentNameFromDiffSummary | src/main.rs:39-46 | the group of the leftmost `([\w-]+)/.+` match, or `None`; stated by `Patterns.ComponentIsLeftmostGroup` and `Patterns.ComponentShape` |
| Patterns.ComponentShape | src/main.rs:39-46 | `None` iff no match; otherwise the result is a match's group that cannot extend to the left |
| Patterns.ComponentBeforeSlash | src/main.rs:39-46 | a name-char run, `/`, then at least one non-newline char yields that run |
| Patterns.ComponentExample | src/main.rs:182-187 | the unit test: the `voyager-workflow-manager/...` path yields `voyager-workflow-manager` |
| Patterns.TrailingWordRun | src/main.rs:50 | the run of `\w` ending the text: all word chars, preceded by a non-word char or the start |
| Patterns.ExtractLanguageFromDiffSummary | src/main.rs:48-55 | the group of the `\.(\w+)$` match, or `None`; stated by `Patterns.LanguageShape` |
| Patterns.LanguageShape | src/main.rs:48-55 | every match of `\.(\w+)$` yields what follows its `.`; `None` exactly when there is no match |
| Patterns.LanguageAfterDot | src/main.rs:48-55 | text, `.`, then a non-empty word run yields that run |
| Patterns.LanguageExample | src/main.rs:196-201 | the unit test: the `...ServiceTest.java` path yields `java` |
| LegacyWalk.DiffsOf | src/main.rs:68-80 | one diff per walk step |
| LegacyWalk.KeptIn | src/main.rs:94-98 | the `master` filter only removes paths |
| LegacyWalk.LegacyWalkEntireHistory | src/main.rs:57-152 | commits = steps; PRs = messages with a `(#digits)` match, at most the commits; `num_files` = all deltas; each map counts the components (or languages, `unknown` for `None`) of the kept paths, summing to the kept paths, at most `num_files` |
| LegacyWalk.CollectDiffDeltas | src/main.rs:91-100 | the nested loop collects, in order, every path not starting with `master`, with or without a `/` |
| LegacyWalk.AllFoundCount | src/main.rs:130-136 | when every step resolves, the commit count is the number of steps and bounds the PR count |
| LegacyWalk.KeptAtMostTotal | src/main.rs:85-100 | `num_files >= diff_deltas.len()` |
| LegacyWalk.PrsAtMostLibraryPrs | src/main.rs:140-147 | the regex PR count never exceeds the library's `(#` count on the same walk |
| LegacyWalk.NoSlashIsUnknownComponent | src/main.rs:107-110 | a kept path without `/` is counted under component `unknown` |
| LegacyWalk.NoExtensionIsUnknownLanguage | src/main.rs:112-115 | a kept path without `.` is counted under language `unknown` |

### What `+` does, and why walk order matters

`src/commit_changes.rs:39` and `:49` compute `files_deleted` as
`self.files_added + other.files_deleted`, not as the sum of the two
`files_deleted` fields. The model keeps this. The algebra that follows is
proved:

- `+` is associative (`Changes.AddIsAssociative`).
- Zero is a left identity (`Changes.ZeroIsLeftIdentity`). It is a right
  identity only when deleted equals added (`Changes.ZeroIsRightIdentityIff`).
- `+` is not commutative (`Changes.AddIsNotCommutative`, `Changes.AddCommutesIff`).

So `changes_by_component` depends on the walk order. Take a root commit that
adds `compA/Foo.java`, then a child `fix (#42)` that modifies it:

- walked newest first, as a revision walk from the head does, the entry is
  `{1, 0, 1}` (`Scenario.NewestFirst`);
- walked oldest first, it is `{1, 1, 1}` (`Scenario.OldestFirst`).

Every other part of the report is the same in both orders.

The library walk skips a step whose `find_commit` fails (`if let Ok(commit)`
at `src/lib.rs:107`). Skipped steps count nothing (`History.FoldCounts`).

## Left out

- The git2 backend is not part of this model. This covers opening the
  repository, the revision walk, `find_commit`, tree lookup and tree-to-tree
  diffing. Their results are inputs:
  - the walk is a sequence of optional commit records;
  - each record carries both candidate diffs as delta sequences.
- Calendar conversion (`convert_git_time_to_datetime`, the chrono year, month
  and weekday) is not modelled. A commit's year, month (1..12) and weekday are
  given. They are those of the offset-shifted timestamp: `src/lib.rs:84-86`
  adds the author's UTC offset to the seconds and reads the result as UTC.
  That is the author's local wall-clock date, not the UTC date.
- The year key of `commits_by_month` is the year as an integer, not its
  decimal string. The two are in one-to-one correspondence.
- Threads and rayon are modelled as the sequential computations they join:
  - `thread::spawn`/`join` around `count_by_key` (`src/lib.rs:182-195`);
  - `par_iter` in `src/main.rs:107-115`.
- Timing (`Instant`), `println!`, JSON serialisation, `HashMap` iteration
  order and the CLI (`docopt`, `fs::write`, `src/bin/main.rs`) are not modelled.
- The library walk's `unwrap` panics cannot happen in the model. These are
  the unwraps on a walk step, a summary, a non-UTF-8 path and a failed diff:
  every summary and path is a string, and every found commit has its diff.
- The command-line walk panics on a failed `find_commit` twice: while
  collecting diffs (`src/main.rs:70`) and while counting PRs
  (`src/main.rs:142`). The model requires `LegacyWalk.AllFound`.
- Report.New: counters are unbounded naturals. The source's u32 counters and
  map values can overflow (`src/stats.rs:21-31`); overflow (a panic in debug
  builds, wrap-around in release builds) is not modelled.
- Changes.New: the same applies to the u32 fields of `CommitChanges`
  (`src/commit_changes.rs:21-23`). Sums are not bounded.
- LegacyWalk.LegacyWalkEntireHistory: the i32 counters of the command-line
  `Stats` are unbounded naturals.
- Patterns.NameRun: `\w` and `\d` are ASCII approximations of the regex
  crate's Unicode classes:
  - `\w` is letters, digits and `_`;
  - `\d` is `0`-`9`.
- Patterns.ComponentShape: `.` in `.+` matches any character but `\n`. This
  is the regex crate's default, with the `s` (dot matches newline) flag off.
- Patterns.LanguageShape: `$` in `\.(\w+)$` means the end of the text. This
  is the regex crate's default, with the `m` (multi-line) flag off.
- Changes.AddAssign: `+=` overwrites `*self` in place. The model returns the
  new value, which the caller stores back into the map entry.
- The benchmark harness (`benches/`) is not modelled. Neither is
  `tests/tests.rs`, which calls functions and a two-argument
  `CommitChanges::new` that the library does not provide.
- The `test_day` unit test (`src/lib.rs:230-234`) only prints the current
  weekday. It is not modelled.
