/** The index file and its backup: what a launch loads after a crash in the middle of a save. */
module CatalogIndex {
  import opened BookDownload
  import opened OfflineBookCatalog
  import opened OfflineBookModels

  datatype IndexFile = Absent | Corrupt | Good(rows: Rows)

  datatype Disk = Disk(index: IndexFile, backup: IndexFile)

  function Loaded(disk: Disk): Rows {
    if disk.index.Good? then disk.index.rows
    else if disk.backup.Good? then disk.backup.rows
    else map[]
  }

  /** What can be left of the attempt to copy the index: the copy, a part of it, or nothing. */
  predicate CopyOutcome(disk: Disk, copy: IndexFile) {
    copy == disk.index || copy == Corrupt || copy == Absent
  }

  /**
   The states the disk passes through while new rows are saved: the old backup goes, the copy of the
   index grows in its place, and then the index is replaced in one step.
   */
  function SaveStates(disk: Disk, rows: Rows, copy: IndexFile): seq<Disk> {
    if disk.index.Absent? then [disk, disk.(index := Good(rows))]
    else [disk, disk.(backup := Absent), disk.(backup := Corrupt), disk.(backup := copy), Disk(Good(rows), copy)]
  }

  /**
   A crash during a save loads the old rows or the new ones, whichever state it stops in, exactly unless
   the save starts with an undecodable index: its copy replaces the backup that the rows were loaded from.
   */
  lemma SaveIsCrashSafe(disk: Disk, rows: Rows, copy: IndexFile)
    requires CopyOutcome(disk, copy)
    ensures (forall state :: state in SaveStates(disk, rows, copy) ==>
              Loaded(state) == Loaded(disk) || Loaded(state) == rows)
        <==> !(disk.index.Corrupt? && Loaded(disk) != map[] && rows != map[])
  {
    var states := SaveStates(disk, rows, copy);
    if disk.index.Corrupt? && Loaded(disk) != map[] && rows != map[] {
      assert states[1] in states && Loaded(states[1]) == map[];
    }
  }

  /** For example, a crash while the copy grows leaves nothing of the backup's row. */
  lemma CorruptIndexLosesBackup(id: BookId, book: OfflineBook)
    ensures var disk := Disk(Corrupt, Good(map[id := book]));
            Loaded(disk) == map[id := book] &&
            exists state :: state in SaveStates(disk, map[id := book], Corrupt) && Loaded(state) == map[]
  {
    var disk := Disk(Corrupt, Good(map[id := book]));
    var state := SaveStates(disk, map[id := book], Corrupt)[2];
    assert state in SaveStates(disk, map[id := book], Corrupt) && Loaded(state) == map[];
  }

  /** A finished save leaves a decodable index, so every later save is crash-safe. */
  lemma SaveCompletes(disk: Disk, rows: Rows, copy: IndexFile, next: Rows, nextCopy: IndexFile)
    requires CopyOutcome(disk, copy)
    ensures var states := SaveStates(disk, rows, copy);
            var saved := states[|states| - 1];
            Loaded(saved) == rows &&
            (CopyOutcome(saved, nextCopy) ==>
              forall state :: state in SaveStates(saved, next, nextCopy) ==>
                Loaded(state) == rows || Loaded(state) == next)
  {
    var states := SaveStates(disk, rows, copy);
    var saved := states[|states| - 1];
    if CopyOutcome(saved, nextCopy) { SaveIsCrashSafe(saved, next, nextCopy); }
  }

  // ---------------------------------------------------------------- downloads that crash inside a save

  /**
   A crash in the middle of saving a row leaves what a crash just before or just after the step leaves: the
   launch reconciles to the same rows and abandons the same directories as from one of the two worlds.
   */
  lemma CrashInsideSave(layout: Layout, id: BookId, worlds: seq<World>, actions: seq<Action>, n: nat,
                        disk: Disk, copy: IndexFile, state: Disk) returns (k: nat)
    requires Run(layout, id, worlds, actions) && n < |actions| && ChangesRow(actions[n])
    requires Loaded(disk) == worlds[n].books && (disk.index.Corrupt? ==> worlds[n].books == map[])
    requires CopyOutcome(disk, copy) && state in SaveStates(disk, worlds[n + 1].books, copy)
    ensures k == n || k == n + 1
    ensures ReconciledRows(layout, Loaded(state), worlds[n].files)
         == ReconciledRows(layout, worlds[k].books, worlds[k].files)
    ensures worlds[n].files - Abandoned(layout, Loaded(state), worlds[n].files)
         == worlds[k].files - Abandoned(layout, worlds[k].books, worlds[k].files)
    ensures id in Loaded(state) <==> id in worlds[k].books
    ensures id in worlds[k].books ==>
              (ReconciledRows(layout, Loaded(state), worlds[n].files)[id].state == Downloaded <==>
                KeptAfterCrash(layout, id, worlds[k]))
  {
    hide SaveStates, Loaded, ReconciledRows, Abandoned, Next, Enabled, KeptAfterCrash;
    SaveIsCrashSafe(disk, worlds[n + 1].books, copy);
    k := if Loaded(state) == worlds[n].books then n else n + 1;
    assert worlds[n + 1].files == worlds[n].files by { RowStepKeepsFiles(layout, id, worlds[n], actions[n]); }
    if id in worlds[k].books { CrashRecovery(layout, id, worlds, actions, k); }
  }
}
