/**
 * Concrete runs of the clean-up decision on small destination folders:
 * what the policy deletes when the state file sits among the backups.
 */
module Scenarios {
  import opened Retention
  import opened Store
  import opened Scheduler

  const GiB := 1073741824

  /**
   * A 2 GiB source, 4 GiB free and one 3 GiB backup from an earlier day,
   * older than the state file: the budget is 7 GiB, the old backup alone is
   * deleted, and the state file stays.
   */
  lemma OldBackupMakesRoom()
    ensures var old1 := Entry("backup_2024-05-31", 10, 3 * GiB);
      var stateFile := Entry(StateFileName, 20, 100);
      && RequiredSpace(2 * GiB) == 7 * GiB
      && CleanedUp([stateFile, old1], 4 * GiB, 2 * GiB) == [old1]
  {
  }

  /**
   * The state file is a candidate like any backup: when it is the oldest
   * item it is deleted first, before the backup that follows it.
   */
  lemma StateFileEvictedFirst()
    ensures var old1 := Entry("backup_2024-05-31", 10, 3 * GiB);
      var stateFile := Entry(StateFileName, 1, 100);
      CleanedUp([old1, stateFile], 4 * GiB, 2 * GiB + 50) == [stateFile, old1]
  {
  }

  /**
   * Items created at the same time leave in listing order, whatever their
   * names: "b" is listed first and goes first.
   */
  lemma TiesLeaveInListingOrder()
    ensures var b := Entry("b", 5, 1);
      var a := Entry("a", 5, 1);
      Evicted([b, a], 0, 1) == [b]
  {
  }
}
