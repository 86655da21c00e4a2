/**
 * What the commit fold sees of the version-control backend. Opening the
 * repository, the revision walk, commit lookup and tree-to-tree diffing are
 * not modelled; the fold receives their results as these records.
 */
module Git {

  /** The change kind of one delta (git2's `Delta`). */
  datatype Delta =
    | Unmodified | Added | Deleted | Modified | Renamed | Copied
    | Ignored | Untracked | Typechange | Unreadable | Conflicted

  /** One changed path of a diff: the new file's path and its change kind. */
  datatype FileDelta = FileDelta(newPath: string, status: Delta)

  /** The weekday of the author date (chrono's `Weekday`). */
  datatype Weekday = Mon | Tue | Wed | Thu | Fri | Sat | Sun

  /** A calendar month number as chrono reports it. */
  type Month = m: int | 1 <= m <= 12 witness 1

  /**
   * A resolved commit: its one-line summary, how many parents it has, the
   * calendar date of its author time shifted by the author's UTC offset (as
   * `convert_git_time_to_datetime` computes it), and the two diffs the backend
   * could be asked for: against the first parent's tree, and against no tree
   * at all.
   */
  datatype Commit = Commit(
    summary: string,
    parentCount: nat,
    year: int,
    month: Month,
    weekday: Weekday,
    parentDiff: seq<FileDelta>,
    rootDiff: seq<FileDelta>)

  /** Which tree a commit is diffed against. */
  datatype Baseline = ParentTree | NoTree

  /** A commit with exactly one parent is diffed against that parent; root and merge commits against nothing. */
  function BaselineOf(commit: Commit): (b: Baseline)
    ensures b == NoTree <==> commit.parentCount == 0 || commit.parentCount >= 2
  {
    if commit.parentCount == 1 then ParentTree else NoTree
  }

  /** The deltas of the diff the fold walks for `commit`. */
  function DiffOf(commit: Commit): seq<FileDelta> {
    match BaselineOf(commit)
    case ParentTree => commit.parentDiff
    case NoTree => commit.rootDiff
  }
}
