# Backuper retention and scheduling, modelled in Dafny

`backuper` is a small Python service (`main.py`) that, once an hour,
decides whether this calendar month already has a backup. If it does not,
and today's folder `backup_YYYY-MM-DD` is missing from the destination,
it:

- measures the source tree;
- deletes the oldest items in the destination until free space covers the
  backup plus a 5 GiB reserve, or nothing is left to delete;
- copies the tree into today's folder;
- records the month key `YYYY-MM` under `last_backup` in its JSON state
  file.

This project models that engine over an abstract destination folder. The
folder is a sequence of items in listing order, each with a name, a
creation time and a size, plus a free-byte counter. The model proves what
clean-up deletes and what a tick does.

Modules:

- `Calendar` (calendar.dfy): the month key and the folder name. Both are
  zero-padded decimal formats of a date, with parsers and round-trip
  lemmas.
- `SizeProbe` (size_probe.dfy): `get_folder_size_bytes` as nested loops
  over an abstract `os.walk` of a directory tree.
- `Retention` (retention.dfy): the eviction policy as values. It holds the
  stable sort by creation time, the number of items the loop pops, the
  deleted prefix, and the name filters that deletion applies.
- `Store` (store.dfy): the destination as a class whose `entries` and
  `free` fields the methods update in place. It holds the
  `clean_old_backups` loop and the early return of `create_backup`.
- `Scheduler` (scheduler.dfy): the tick. It covers the due check, the
  space budget, the conditional clean-up, the copy and the commit to the
  state map.
- `Scenarios` (scenarios.dfy): concrete folders run through the clean-up
  decision.

Assumptions the model makes about the file system:

- Deleting an item (`shutil.rmtree` or `os.remove`) adds exactly its size
  to the free space `shutil.disk_usage` reports.
- A copy that fits takes exactly the tree's bytes.
- A copy that does not fit fills the volume. `shutil.copy2` then raises,
  the exception leaves `main`, and the state is not saved. The partly
  written folder stays behind.

The model follows the code where a reader might expect otherwise:

- The state file `backup_state.json` lives in the destination and is an
  eviction candidate like any backup.
- Items created at the same time are deleted in `os.listdir` order, since
  `sorted` is stable. There is no tie-break by name.
- Running out of items to delete is not an error, and the copy still runs.
- A folder for today that already exists skips the whole tick, including
  the state update.
- `os.walk` silently skips directories it cannot list, so they count as
  zero bytes.

## Model

| member | source | states |
|---|---|---|
| Calendar.ZeroPad | main.py:20 | The `%Y`/`%m`/`%d` field of a number that fits the width is exactly that many decimal digits |
| Calendar.DecimalValueOfZeroPad | main.py:20 | Reading a zero-padded field back as a decimal number gives the number that was written |
| Calendar.ZeroPadOfDecimalValue | main.py:20 | Every all-digit field is the zero-padded form of its own value, which fits the field's width |
| Calendar.MonthKey | main.py:19-20 | `current_month_key()` is seven characters with a dash at index 4 |
| Calendar.DateStamp | main.py:23 | The `%Y-%m-%d` stamp of a date is ten characters long |
| Calendar.BackupFolderName | main.py:22-23 | `current_backup_folder()` is 17 characters: "backup_" and the day stamp |
| Calendar.MonthKeyRoundTrip | main.py:19-20 | Parsing a month key gives back the year and month it was made from |
| Calendar.ParseMonthKeyExactly | main.py:19-20 | A string parses as the year and month of a date if and only if it is that date's month key |
| Calendar.MonthKeyIdentifiesMonth | main.py:19-20 | Two dates have the same month key if and only if they fall in the same year and month |
| Calendar.DateStampExtendsMonthKey | main.py:20-23 | The day stamp is the month key, a dash and the two-digit day |
| Calendar.DateStampRoundTrip | main.py:23 | Parsing a day stamp gives back the date it was made from |
| Calendar.BackupFolderNameRoundTrip | main.py:22-23 | Parsing a backup folder name gives back the date it was made from |
| Calendar.BackupFolderNameIdentifiesDay | main.py:22-23 | Two dates get the same folder name if and only if they are the same day |
| Calendar.BackupFolderNameExtendsMonthKey | main.py:19-23 | The folder name is "backup_", then the same date's month key, then a dash, and it parses back to that date's day |
| SizeProbe.WalkSumsToTreeSize | main.py:37-40 | The file sizes `os.walk` yields from a tree sum to the tree's total size, unlistable directories counting zero |
| SizeProbe.WalkForestSumsToForestSize | main.py:37-40 | The same total for a list of sibling subtrees |
| SizeProbe.FolderSizeBytes | main.py:35-41 | The nested loops over the walk return the total size of the tree |
| Retention.SortByCtime | main.py:49 | `sorted(files, key=getctime)` returns a permutation of the listing of the same length |
| Retention.SortByCtimeSorts | main.py:49 | The sorted listing is in non-decreasing creation time |
| Retention.SortByCtimeIsStable | main.py:49 | Items with equal creation time keep their listing order: ties are not broken by name |
| Retention.EvictionCount | main.py:50-51 | The loop pops at most every candidate, none when free space meets the requirement, and at least one when it does not and a candidate exists |
| Retention.EvictionCountIsLeast | main.py:50-51 | The popped prefix is the shortest one that meets the requirement: every shorter prefix falls short, and the popped one meets it or takes every candidate |
| Retention.EvictionOutcome | main.py:47-56 | The deleted and kept items together are the listing; nothing is deleted when free space suffices; afterwards free space meets the requirement or nothing is kept; no kept item is older than a deleted one; stopping earlier would fall short |
| Retention.Survivors | main.py:53-56 | Deleting a set of names leaves exactly the listed items, unchanged, whose names are not in the set; their names are the listed names minus the set and stay distinct |
| Retention.Removed | main.py:53-56 | The items a deletion takes are exactly the listed items, unchanged, whose names are in the deleted set |
| Store.Destination.Remove | main.py:53-56 | `rmtree`/`remove` of a listed item takes it out of the listing and adds its bytes to free space; nothing else changes |
| Store.Destination.CleanOldBackups | main.py:47-56 | The loop deletes exactly the evicted prefix of the sorted listing, adds its bytes to free space, and returns with free space at least the requirement or an empty folder |
| Store.Destination.CreateBackup | main.py:58-72 | If today's folder exists, nothing changes. Otherwise one item named after today appears, and the outcome says whether the whole tree fit |
| Store.StateFileIsNoBackupFolder | main.py:11-23 | No date's folder name is `backup_state.json` |
| Scheduler.Decide | main.py:78-87 | A due tick targets today's month key and folder; clean-up is called exactly when free space is below `backup_size + 5 * 1024**3`, with exactly that value |
| Scheduler.Commit | main.py:90 | `state["last_backup"] = key` sets that key and leaves every other key and value unchanged |
| Scheduler.SkipsExactlyWhenMonthRecorded | main.py:82 | A tick skips if and only if today's folder exists or the state records today's year and month |
| Scheduler.OneBackupPerMonth | main.py:82-90 | Once today's month key is committed, every later tick in the same calendar month skips, whatever the state held before |
| Scheduler.DueAgainInAnotherMonth | main.py:82-90 | After a commit, a tick in another month is due unless that day's folder exists |
| Scheduler.Tick | main.py:77-91 | A skipped tick changes neither the folder nor the state. A due tick deletes the clean-up prefix, adds today's folder and commits the month exactly when the copy fits. Afterwards the 5 GiB reserve holds or today's folder is the only item |
| Scheduler.BackUp | main.py:83-91 | The due branch: deletions, the new folder, the free space and the committed state in terms of the clean-up prefix and the tree size |
| Scheduler.MakeRoom | main.py:84-87 | Clean-up runs only below the budget and deletes the evicted prefix; afterwards free space meets the budget or the folder is empty |
| Scenarios.OldBackupMakesRoom | main.py:84-87 | 2 GiB source, 4 GiB free, one older 3 GiB backup and the state file: the budget is 7 GiB and only the backup is deleted |
| Scenarios.StateFileEvictedFirst | main.py:48-51 | When the state file is the oldest item, clean-up deletes it before the backup |
| Scenarios.TiesLeaveInListingOrder | main.py:49-51 | Of two items created at the same time, the one listed first is deleted first, whatever the names |

## Left out

- The recursive copy at main.py:64-72 is reduced to "one item named after today appears". Its size is the tree's size, or the free space when the copy fills the volume. Directory creation, `copy2` metadata and per-file errors are not modelled.
- Store.Destination.CreateBackup: the size of a failed copy's leftover folder (the free space at the time) and the free space of zero afterwards are assumptions about a full volume, not something the code states.
- Reading and writing the JSON state file (main.py:25-33) is left out; the state is a map from strings to strings. A `last_backup` value that is not a string is not modelled; the code treats it as "not this month".
- Store.Destination.CreateBackup: the new folder is placed last in the listing. Its real position in `os.listdir` order is up to the file system (name order on NTFS, hash order on ext4, the server's choice on a network share), and it matters for later creation-time ties. That position is not modelled.
- Scheduler.Tick: after a failed copy nothing is saved. If clean-up emptied the folder, it also deleted `backup_state.json`, and the next `load_state` (main.py:26-29) returns an empty map rather than the state the tick returns.
- `save_state` recreating `backup_state.json` after clean-up deleted it is not reflected in the folder.
- The clock: the date and the creation time of the new folder are parameters, and one date serves the whole tick. The code reads the clock three times: `current_month_key` at main.py:78, `current_backup_folder` at main.py:79, and `current_backup_folder` again inside `create_backup` at main.py:59, after the slow source walk and the clean-up. If midnight passes between them, the early return at main.py:61-62 tests, and the copy creates, the next day's folder; at a month end that folder's month differs from the key committed at main.py:90. None of this is modelled.
- The `while True` loop with its hour-long sleep (main.py:76, main.py:93), `ensure_dirs` (main.py:16-17) and the `__main__` entry point are left out; one tick is modelled.
- `shutil.disk_usage`, `os.listdir`, `os.path.getctime`, `shutil.rmtree`, `os.remove` and `os.path.getsize` are replaced by the abstract folder. Free space is not re-read from the disk: a deletion adds the item's size.
- Other processes writing to the volume, and exceptions raised by deletion or size probing, are not modelled.
- The size computed at main.py:52 is never used and is left out.
- Symbolic links, file systems without creation times, and what `getctime` means on each platform are not modelled; creation times are plain integers.
- Calendar.ZeroPad: years are always padded to four digits. Some platforms' `strftime("%Y")` prints years below 1000 without padding.
