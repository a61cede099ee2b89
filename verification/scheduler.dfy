/**
 * One pass of the loop in `main` (main.py:77-91): decide whether a backup
 * is due, make room for it, create it and record the month. The clock,
 * `load_state` and `save_state` are replaced by parameters and results; the
 * endless loop and its hour-long sleep (main.py:76, main.py:93) are left to
 * the caller.
 */
module Scheduler {
  import opened Wrappers
  import opened Calendar
  import opened SizeProbe
  import opened Retention
  import opened Store

  /** The one key of the state file the engine reads and writes. */
  const LastBackupKey := "last_backup"

  /** `MIN_FREE_SPACE_GB` (main.py:12). */
  const MinFreeSpaceGB := 5

  /** `1024 ** 3` (main.py:86). */
  const BytesPerGB := 1024 * 1024 * 1024

  /** Bytes kept free on top of the backup itself. */
  const ReserveBytes := MinFreeSpaceGB * BytesPerGB

  /** The space budget `backup_size + MIN_FREE_SPACE_GB * 1024 ** 3` (main.py:86-87). */
  function RequiredSpace(backupSize: nat): int {
    backupSize + MinFreeSpaceGB * BytesPerGB
  }

  /** What a tick decided. */
  datatype Plan =
    | Skip
    | Backup(key: string, folder: string, cleanup: Option<int>)  // cleanup: the argument of clean_old_backups, if called

  /**
   * The decisions of main.py:78-87: a backup is due when the recorded month
   * differs from today's (or none is recorded) and today's folder does not
   * exist; clean-up is called, with the space budget, when free space is
   * below that budget.
   */
  function Decide(state: map<string, string>, today: Date, folderExists: bool, free: nat, backupSize: nat): (p: Plan)
    requires today.Valid()
    ensures p.Backup? ==> p.key == MonthKey(today) && p.folder == BackupFolderName(today)
    ensures p.Backup? ==> (p.cleanup.Some? <==> free < backupSize + 5 * 1073741824)
    ensures p.Backup? && p.cleanup.Some? ==> p.cleanup.value == backupSize + 5 * 1073741824
  {
    var key := MonthKey(today);
    if (LastBackupKey !in state || state[LastBackupKey] != key) && !folderExists then
      Backup(key, BackupFolderName(today),
             if free < RequiredSpace(backupSize) then Some(RequiredSpace(backupSize)) else None)
    else
      Skip
  }

  /** `state["last_backup"] = key` (main.py:90). */
  function Commit(state: map<string, string>, key: string): (r: map<string, string>)
    ensures LastBackupKey in r && r[LastBackupKey] == key
    ensures forall k :: k != LastBackupKey ==> (k in r <==> k in state)
    ensures forall k :: k in state && k != LastBackupKey ==> r[k] == state[k]
  {
    state[LastBackupKey := key]
  }

  /**
   * A tick skips exactly when today's folder exists or the state records a
   * backup made in today's calendar month.
   */
  lemma SkipsExactlyWhenMonthRecorded(state: map<string, string>, today: Date, folderExists: bool, free: nat, backupSize: nat)
    requires today.Valid()
    ensures Decide(state, today, folderExists, free, backupSize) == Skip
        <==> folderExists || (LastBackupKey in state && ParseMonthKey(state[LastBackupKey]) == Some((today.year, today.month)))
  {
    if LastBackupKey in state {
      ParseMonthKeyExactly(state[LastBackupKey], today);
    }
  }

  /**
   * Once a tick has committed today's month key, every later tick in the
   * same calendar month skips, whatever the state held before the commit
   * and whatever the store then looks like: at most one backup a month.
   */
  lemma OneBackupPerMonth(state: map<string, string>, today: Date,
                          later: Date, laterExists: bool, laterFree: nat, laterSize: nat)
    requires today.Valid() && later.Valid()
    requires later.year == today.year && later.month == today.month
    ensures Decide(Commit(state, MonthKey(today)), later, laterExists, laterFree, laterSize) == Skip
  {
  }

  /**
   * In any other calendar month, a committed state makes the next tick due
   * again unless that day's folder already exists.
   */
  lemma DueAgainInAnotherMonth(state: map<string, string>, today: Date, later: Date, laterFree: nat, laterSize: nat)
    requires today.Valid() && later.Valid()
    requires later.year != today.year || later.month != today.month
    ensures Decide(Commit(state, MonthKey(today)), later, false, laterFree, laterSize).Backup?
  {
    MonthKeyIdentifiesMonth(today, later);
  }

  /** The items the due branch deletes for a backup of `backupSize` bytes. */
  function CleanedUp(entries: seq<Entry>, free: nat, backupSize: nat): seq<Entry> {
    if free < RequiredSpace(backupSize) then Evicted(entries, free, RequiredSpace(backupSize)) else []
  }

  /** How a tick ended. */
  datatype TickOutcome =
    | Skipped
    | BackedUp
    | CopyFailed  // the copy raised: the exception leaves `main` before the state is saved

  /**
   * The body of `main`'s loop (main.py:77-91) for the date `today`, the
   * loaded `state`, the source tree and the clock reading `now`. After a
   * backup the state returned is the one `save_state` writes; after a
   * skip it is the unchanged `state`; after a failed copy nothing is
   * written and the state returned is the one loaded, although the file
   * on disk may be gone if clean-up deleted it.
   */
  method Tick(dest: Destination, state: map<string, string>, today: Date, source: Tree, now: int)
    returns (newState: map<string, string>, outcome: TickOutcome)
    requires dest.Valid() && today.Valid()
    modifies dest
    ensures dest.Valid()
    ensures var plan := Decide(state, today, old(dest.Exists(BackupFolderName(today))), old(dest.free), TreeSize(source));
      plan.Skip? ==>
        outcome == Skipped && newState == state && dest.entries == old(dest.entries) && dest.free == old(dest.free)
    ensures var plan := Decide(state, today, old(dest.Exists(BackupFolderName(today))), old(dest.free), TreeSize(source));
      plan.Backup? ==>
        var gone := CleanedUp(old(dest.entries), old(dest.free), TreeSize(source));
        var room := old(dest.free) + SumSizes(gone);
        var size := TreeSize(source);
        && outcome == (if size <= room then BackedUp else CopyFailed)
        && dest.entries == Survivors(old(dest.entries), Names(gone)) + [Entry(plan.folder, now, if size <= room then size else room)]
        && dest.free == (if size <= room then room - size else 0)
        && newState == (if outcome == BackedUp then Commit(state, plan.key) else state)
    ensures outcome != Skipped ==> dest.free >= ReserveBytes || |dest.entries| == 1
  {
    var key := MonthKey(today);
    var backupName := BackupFolderName(today);
    if (LastBackupKey !in state || state[LastBackupKey] != key) && !dest.Exists(backupName) {
      ghost var plan := Decide(state, today, false, dest.free, TreeSize(source));
      assert plan.Backup? && plan.key == key && plan.folder == backupName;
      newState, outcome := BackUp(dest, state, today, source, now, key);
    } else {
      newState, outcome := state, Skipped;
    }
  }

  /**
   * The due branch of the tick (main.py:83-91): measure the source, clean up
   * if free space is below the budget, copy, and record the month.
   */
  method BackUp(dest: Destination, state: map<string, string>, today: Date, source: Tree, now: int, key: string)
    returns (newState: map<string, string>, outcome: TickOutcome)
    requires dest.Valid() && today.Valid() && !dest.Exists(BackupFolderName(today))
    modifies dest
    ensures dest.Valid()
    ensures var gone := CleanedUp(old(dest.entries), old(dest.free), TreeSize(source));
      var room := old(dest.free) + SumSizes(gone);
      var size := TreeSize(source);
      && outcome == (if size <= room then BackedUp else CopyFailed)
      && dest.entries == Survivors(old(dest.entries), Names(gone)) + [Entry(BackupFolderName(today), now, if size <= room then size else room)]
      && dest.free == (if size <= room then room - size else 0)
      && newState == (if outcome == BackedUp then state[LastBackupKey := key] else state)
    ensures dest.free >= ReserveBytes || |dest.entries| == 1
  {
    var backupSize := FolderSizeBytes(source);
    ghost var room := dest.free + SumSizes(CleanedUp(dest.entries, dest.free, backupSize));
    MakeRoom(dest, backupSize);
    ghost var kept := dest.entries;
    assert BackupFolderName(today) !in Names(kept);
    var created := dest.CreateBackup(today, source, now);
    assert dest.entries == kept + [Entry(BackupFolderName(today), now, if backupSize <= room then backupSize else room)];
    if created == DiskFull {
      return state, CopyFailed;
    }
    newState := state[LastBackupKey := key];
    outcome := BackedUp;
  }

  /**
   * main.py:84-87: read the free space and call `clean_old_backups` with the
   * space budget when free space is below it.
   */
  method MakeRoom(dest: Destination, backupSize: nat)
    requires dest.Valid()
    modifies dest
    ensures dest.Valid()
    ensures var gone := CleanedUp(old(dest.entries), old(dest.free), backupSize);
      dest.entries == Survivors(old(dest.entries), Names(gone)) && dest.free == old(dest.free) + SumSizes(gone)
    ensures dest.free >= RequiredSpace(backupSize) || dest.entries == []
  {
    var freeSpace := dest.free;
    if freeSpace < backupSize + MinFreeSpaceGB * BytesPerGB {
      dest.CleanOldBackups(backupSize + MinFreeSpaceGB * BytesPerGB);
    } else {
      SurvivorsOfNothing(dest.entries);
      assert Names([]) == {};
    }
  }
}
