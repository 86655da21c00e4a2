/** The report the history fold produces (`Stats`). */
module Report {
  import opened Changes

  /**
   * The nine statistics. Years key `commitsByMonth` (whose values are meant
   * to be twelve monthly counts), weekday names key `commitsByDayOfWeek`.
   */
  datatype Stats = Stats(
    numCommitsToMaster: nat,
    numPrs: nat,
    missingPrs: nat,
    numFileChanges: nat,
    componentStats: map<string, nat>,
    langStats: map<string, nat>,
    commitsByMonth: map<int, seq<nat>>,
    commitsByDayOfWeek: map<string, nat>,
    changesByComponent: map<string, CommitChanges>)

  /**
   * `Stats::new`: copies each argument unchanged into the field of the same
   * name. It demands nothing of its arguments.
   */
  function New(
    numCommitsToMaster: nat,
    numPrs: nat,
    missingPrs: nat,
    numFileChanges: nat,
    componentStats: map<string, nat>,
    langStats: map<string, nat>,
    commitsByMonth: map<int, seq<nat>>,
    commitsByDayOfWeek: map<string, nat>,
    changesByComponent: map<string, CommitChanges>): (s: Stats)
    ensures s.numCommitsToMaster == numCommitsToMaster && s.numPrs == numPrs && s.missingPrs == missingPrs
    ensures s.numFileChanges == numFileChanges
    ensures s.componentStats == componentStats && s.langStats == langStats
    ensures s.commitsByMonth == commitsByMonth && s.commitsByDayOfWeek == commitsByDayOfWeek
    ensures s.changesByComponent == changesByComponent
  {
    Stats(numCommitsToMaster, numPrs, missingPrs, numFileChanges, componentStats, langStats,
          commitsByMonth, commitsByDayOfWeek, changesByComponent)
  }

  /** `Stats::new` checks nothing: it builds a report whose PR counts do not add up and whose month vector is short. */
  lemma NewChecksNothing()
    ensures var s := New(3, 1, 1, 0, map[], map[], map[2020 := [1]], map[], map[]);
            s.numCommitsToMaster != s.numPrs + s.missingPrs && |s.commitsByMonth[2020]| != 12
  {
  }
}
