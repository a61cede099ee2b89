/**
 * The destination folder as the engine changes it: its listing and its
 * free space. Deleting an item (`shutil.rmtree` / `os.remove`) is assumed
 * to add the item's size to the free space `shutil.disk_usage` reports.
 */
module Store {
  import opened Retention
  import opened Calendar
  import opened SizeProbe

  /** The state file lives in the destination folder (main.py:11). */
  const StateFileName := "backup_state.json"

  /** How a call of `create_backup` ended. */
  datatype CreateOutcome =
    | AlreadyPresent  // today's folder existed: returned at main.py:62
    | Copied          // the whole source tree was copied
    | DiskFull        // the copy filled the volume and raised

  class Destination {
    /** The items directly under the folder, in `os.listdir` order. */
    var entries: seq<Entry>
    /** Free bytes on the volume holding the folder. */
    var free: nat

    ghost predicate Valid()
      reads this
    {
      DistinctNames(entries)
    }

    constructor (entries: seq<Entry>, free: nat)
      requires DistinctNames(entries)
      ensures Valid() && this.entries == entries && this.free == free
    {
      this.entries := entries;
      this.free := free;
    }

    /** `os.path.exists(os.path.join(DESTINATION_FOLDER, name))`. */
    function Exists(name: string): bool
      reads this
    {
      name in Names(entries)
    }

    /**
     * `shutil.rmtree` or `os.remove` of a listed item (main.py:53-56): the
     * item leaves the listing and its bytes become free.
     */
    method Remove(name: string)
      requires Valid() && Exists(name)
      modifies this
      ensures Valid()
      ensures entries == Survivors(old(entries), {name})
      ensures free == old(free) + SumSizes(Removed(old(entries), {name}))
    {
      free := free + SumSizes(Removed(entries, {name}));
      entries := Survivors(entries, {name});
    }

    /**
     * `clean_old_backups(required_space)` (main.py:47-56): list every item,
     * sort the list oldest first, and delete from its front while free space
     * is below the requirement and the list is not empty. Running out of
     * items is not an error. The size computed at main.py:52 is never used
     * and is left out.
     */
    method CleanOldBackups(required: int)
      requires Valid()
      modifies this
      ensures Valid()
      ensures entries == Survivors(old(entries), Names(Evicted(old(entries), old(free), required)))
      ensures free == old(free) + SumSizes(Evicted(old(entries), old(free), required))
      ensures free >= required || entries == []
    {
      var files := SortByCtime(entries);
      ghost var sorted := files;
      ghost var popped := 0;
      SurvivorsOfNothing(entries);
      assert sorted[..0] == [];
      while files != [] && free < required
        invariant 0 <= popped <= |sorted| && files == sorted[popped..]
        invariant Evicting(old(entries), old(free), required, sorted, popped, entries, free)
        decreases |files|
      {
        var oldest := files[0];
        EvictOldest(old(entries), old(free), required, sorted, popped, entries, free);
        Remove(oldest.name);
        files := files[1..];
        popped := popped + 1;
      }
      assert Valid();
      if files == [] {
        assert entries == [] by {
          assert |multiset(entries)| == 0;
        }
      }
    }

    /**
     * `create_backup()` (main.py:58-72) for the date `today`, with `now` as
     * the creation time of the new folder. If today's folder exists it
     * returns without changing anything. Otherwise the recursive copy, an
     * external collaborator, adds one item holding the bytes of `source`;
     * a copy larger than the free space fills the volume and raises,
     * leaving the partly written folder behind.
     */
    method CreateBackup(today: Date, source: Tree, now: int) returns (outcome: CreateOutcome)
      requires Valid() && today.Valid()
      modifies this
      ensures Valid()
      ensures old(Exists(BackupFolderName(today))) ==>
        outcome == AlreadyPresent && entries == old(entries) && free == old(free)
      ensures !old(Exists(BackupFolderName(today))) ==>
        var size := TreeSize(source);
        && outcome == (if size <= old(free) then Copied else DiskFull)
        && entries == old(entries) + [Entry(BackupFolderName(today), now, if outcome == Copied then size else old(free))]
        && free == (if outcome == Copied then old(free) - size else 0)
    {
      var folderName := BackupFolderName(today);
      if Exists(folderName) {
        return AlreadyPresent;
      }
      var size := TreeSize(source);
      DistinctNamesAppend(entries, Entry(folderName, now, if size <= free then size else free));
      if size <= free {
        entries := entries + [Entry(folderName, now, size)];
        free := free - size;
        outcome := Copied;
      } else {
        entries := entries + [Entry(folderName, now, free)];
        free := 0;
        outcome := DiskFull;
      }
    }
  }

  /**
   * After `popped` passes of the loop, the passes still to come are those
   * that the remaining candidates and the free space reached so far call for.
   */
  ghost predicate PoppedSoFar(sorted: seq<Entry>, free: int, required: int, popped: nat) {
    popped <= |sorted| &&
    EvictionCount(sorted, free, required)
      == popped + EvictionCount(sorted[popped..], free + SumSizes(sorted[..popped]), required)
  }

  lemma {:induction false} PoppedOneMore(sorted: seq<Entry>, free: int, required: int, popped: nat)
    requires PoppedSoFar(sorted, free, required, popped)
    requires popped < |sorted| && free + SumSizes(sorted[..popped]) < required
    ensures PoppedSoFar(sorted, free, required, popped + 1)
  {
    assert sorted[..popped + 1][..popped] == sorted[..popped];
    assert sorted[popped..][1..] == sorted[popped + 1..];
  }

  /**
   * The state of `clean_old_backups` after deleting the first `popped`
   * items of `sorted`, the sorted listing of `original`, from a folder
   * that had `origFree` bytes free.
   */
  ghost predicate Evicting(original: seq<Entry>, origFree: int, required: int, sorted: seq<Entry>,
                           popped: nat, entries: seq<Entry>, free: int)
  {
    && popped <= |sorted|
    && DistinctNames(entries)
    && entries == Survivors(original, Names(sorted[..popped]))
    && multiset(entries) == multiset(sorted[popped..])
    && free == origFree + SumSizes(sorted[..popped])
    && PoppedSoFar(sorted, origFree, required, popped)
  }

  /**
   * One pass of the loop at main.py:50-56: the oldest remaining item is
   * still listed, and deleting it reaches the state after one more deletion.
   */
  lemma EvictOldest(original: seq<Entry>, origFree: int, required: int, sorted: seq<Entry>,
                    popped: nat, entries: seq<Entry>, free: int)
    requires Evicting(original, origFree, required, sorted, popped, entries, free)
    requires popped < |sorted| && free < required
    ensures sorted[popped].name in Names(entries)
    ensures Evicting(original, origFree, required, sorted, popped + 1,
                     Survivors(entries, {sorted[popped].name}),
                     free + SumSizes(Removed(entries, {sorted[popped].name})))
  {
    PoppedOneMore(sorted, origFree, required, popped);
    PopOldest(sorted, popped, entries);
    SumSizesOfLongerPrefix(sorted, popped);
    SurvivorsOfLongerPrefix(original, sorted, popped);
  }

  /**
   * Deleting the oldest remaining candidate: it is still listed, and
   * deleting it frees exactly its own bytes and leaves exactly the
   * candidates after it.
   */
  lemma {:induction false} PopOldest(sorted: seq<Entry>, popped: nat, entries: seq<Entry>)
    requires popped < |sorted| && DistinctNames(entries)
    requires multiset(entries) == multiset(sorted[popped..])
    ensures sorted[popped].name in Names(entries)
    ensures multiset(Survivors(entries, {sorted[popped].name})) == multiset(sorted[popped + 1..])
    ensures SumSizes(Removed(entries, {sorted[popped].name})) == sorted[popped].size
  {
    var oldest := sorted[popped];
    assert sorted[popped..] == [oldest] + sorted[popped + 1..];
    assert oldest in multiset(entries);
    MemberNameListed(entries, oldest);
    RemoveListedEntry(entries, oldest);
    assert [oldest][..0] == [];
  }

  /** The bytes of one more candidate from the front. */
  lemma SumSizesOfLongerPrefix(sorted: seq<Entry>, popped: nat)
    requires popped < |sorted|
    ensures SumSizes(sorted[..popped + 1]) == SumSizes(sorted[..popped]) + sorted[popped].size
  {
    assert sorted[..popped + 1][..popped] == sorted[..popped];
  }

  /** The names of one more candidate from the front. */
  lemma NamesOfLongerPrefix(sorted: seq<Entry>, popped: nat)
    requires popped < |sorted|
    ensures Names(sorted[..popped + 1]) == Names(sorted[..popped]) + {sorted[popped].name}
  {
    var oldest := sorted[popped];
    assert sorted[..popped + 1] == sorted[..popped] + [oldest];
    NamesAppend(sorted[..popped], [oldest]);
    assert [oldest][1..] == [];
  }

  /** Deleting the names of a longer prefix, one more name at a time. */
  lemma SurvivorsOfLongerPrefix(original: seq<Entry>, sorted: seq<Entry>, popped: nat)
    requires popped < |sorted|
    ensures Survivors(Survivors(original, Names(sorted[..popped])), {sorted[popped].name})
         == Survivors(original, Names(sorted[..popped + 1]))
  {
    SurvivorsOfSurvivors(original, Names(sorted[..popped]), {sorted[popped].name});
    NamesOfLongerPrefix(sorted, popped);
  }

  /** The state file can never be mistaken for a day's backup folder. */
  lemma StateFileIsNoBackupFolder(d: Date)
    requires d.Valid()
    ensures BackupFolderName(d) != StateFileName
  {
    BackupFolderNameExtendsMonthKey(d);
    assert BackupFolderName(d)[7] == MonthKey(d)[0];
    assert StateFileName[7] == 's';
  }
}
