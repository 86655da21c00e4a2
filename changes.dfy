/**
 * The per-component change counter (`CommitChanges`) and its `+` and `+=`,
 * modelled as written: the sum takes `files_deleted` from the left operand's
 * `files_added`.
 */
module Changes {

  datatype CommitChanges = CommitChanges(filesAdded: nat, filesDeleted: nat, filesModified: nat) {

    /** `Add::add`. */
    function Add(other: CommitChanges): CommitChanges {
      CommitChanges(
        filesAdded + other.filesAdded,
        filesAdded + other.filesDeleted,
        filesModified + other.filesModified)
    }
  }

  /** `CommitChanges::new(fa, fd, fm)`: the arguments go, in order, to added, deleted, modified. */
  function New(fa: nat, fd: nat, fm: nat): (c: CommitChanges)
    ensures c.filesAdded == fa && c.filesDeleted == fd && c.filesModified == fm
  {
    CommitChanges(fa, fd, fm)
  }

  /**
   * `AddAssign::add_assign`: `*self` is overwritten by a value built field by
   * field; the model returns that value for the caller to store back. It is
   * exactly `self + other`.
   */
  method AddAssign(self: CommitChanges, other: CommitChanges) returns (updated: CommitChanges)
    ensures updated == self.Add(other)
  {
    updated := CommitChanges(
      self.filesAdded + other.filesAdded,
      self.filesAdded + other.filesDeleted,
      self.filesModified + other.filesModified);
  }

  /** The field-by-field sum: the merge the field names call for, used here as a yardstick. */
  function ComponentwiseSum(a: CommitChanges, b: CommitChanges): CommitChanges {
    CommitChanges(a.filesAdded + b.filesAdded, a.filesDeleted + b.filesDeleted, a.filesModified + b.filesModified)
  }

  /**
   * `+` agrees with the field-by-field sum on added and modified files, and
   * on the whole value exactly when the left operand has as many deletions as
   * additions.
   */
  lemma AddVersusComponentwiseSum(a: CommitChanges, b: CommitChanges)
    ensures a.Add(b).filesAdded == ComponentwiseSum(a, b).filesAdded
    ensures a.Add(b).filesModified == ComponentwiseSum(a, b).filesModified
    ensures a.Add(b) == ComponentwiseSum(a, b) <==> a.filesDeleted == a.filesAdded
  {
  }

  /** The zero counter is a left identity. */
  lemma ZeroIsLeftIdentity(x: CommitChanges)
    ensures New(0, 0, 0).Add(x) == x
  {
  }

  /** The zero counter is a right identity only for counters with as many deletions as additions. */
  lemma ZeroIsRightIdentityIff(x: CommitChanges)
    ensures x.Add(New(0, 0, 0)) == x <==> x.filesDeleted == x.filesAdded
  {
  }

  /** `+` is associative, `files_deleted` included. */
  lemma AddIsAssociative(x: CommitChanges, y: CommitChanges, z: CommitChanges)
    ensures x.Add(y).Add(z) == x.Add(y.Add(z))
  {
  }

  /**
   * The added and modified projections of `+` commute; the whole sum commutes
   * exactly when `x.filesAdded + y.filesDeleted == y.filesAdded + x.filesDeleted`.
   */
  lemma AddCommutesIff(x: CommitChanges, y: CommitChanges)
    ensures x.Add(y).filesAdded == y.Add(x).filesAdded
    ensures x.Add(y).filesModified == y.Add(x).filesModified
    ensures x.Add(y) == y.Add(x) <==> x.filesAdded + y.filesDeleted == y.filesAdded + x.filesDeleted
  {
  }

  /** One addition then one modification: the two orders disagree on `files_deleted`. */
  lemma AddIsNotCommutative()
    ensures New(1, 0, 0).Add(New(0, 0, 1)) == New(1, 1, 1)
    ensures New(0, 0, 1).Add(New(1, 0, 0)) == New(1, 0, 1)
  {
  }

  /** `acc += cs[0]; acc += cs[1]; ...` */
  function AddAll(acc: CommitChanges, cs: seq<CommitChanges>): CommitChanges
    decreases |cs|
  {
    if cs == [] then acc else AddAll(acc.Add(cs[0]), cs[1..])
  }

  /** Total `files_added` of a sequence of counters. */
  function SumAdded(cs: seq<CommitChanges>): nat {
    if cs == [] then 0 else cs[0].filesAdded + SumAdded(cs[1..])
  }

  /** Total `files_modified` of a sequence of counters. */
  function SumModified(cs: seq<CommitChanges>): nat {
    if cs == [] then 0 else cs[0].filesModified + SumModified(cs[1..])
  }

  /**
   * What repeated `+=` accumulates: added and modified files are summed, but
   * `files_deleted` ends up as the additions of every counter but the last
   * plus the deletions of the last one only.
   */
  lemma {:induction false} AddAllFields(acc: CommitChanges, cs: seq<CommitChanges>)
    ensures AddAll(acc, cs).filesAdded == acc.filesAdded + SumAdded(cs)
    ensures AddAll(acc, cs).filesModified == acc.filesModified + SumModified(cs)
    ensures cs != [] ==>
      AddAll(acc, cs).filesDeleted == acc.filesAdded + SumAdded(cs[..|cs| - 1]) + cs[|cs| - 1].filesDeleted
    decreases |cs|
  {
    if cs != [] {
      var next := acc.Add(cs[0]);
      AddAllFields(next, cs[1..]);
      if |cs| > 1 {
        var init := cs[..|cs| - 1];
        assert init[1..] == cs[1..][..|cs[1..]| - 1];
        assert cs[1..][|cs[1..]| - 1] == cs[|cs| - 1];
      }
    }
  }
}
