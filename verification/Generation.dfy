/** What a bundle transaction means for the files: the states an install or a
    rollback passes through, each one a state that a rollback can still undo. */
module Generation {
  import opened Text
  import opened Paths
  import opened Storage
  import opened Journal

  const TRANSACTION_DIR: Path := [".thistle-bundle-transaction"]
  const DOWNLOAD_DIR: Path := [".thistle-bundle-download"]
  const STAGE_DIR: Path := TRANSACTION_DIR + ["stage"]
  const BACKUP_DIR: Path := TRANSACTION_DIR + ["backup"]
  const JOURNAL_FILE: Path := TRANSACTION_DIR + ["journal"]
  const JOURNAL_TMP: Path := TRANSACTION_DIR + ["journal.tmp"]
  const FILES_ACTIVE_MARKER: Path := TRANSACTION_DIR + ["files-active"]
  const FIRMWARE_WRITTEN_MARKER: Path := TRANSACTION_DIR + ["firmware-written"]

  function StagePath(key: Path): (path: Path)
    ensures |path| == |key| + 2 && path[0] == TRANSACTION_DIR[0] && path[1] == "stage" && path[2..] == key
  {
    STAGE_DIR + key
  }

  function BackupPath(key: Path): (path: Path)
    ensures |path| == |key| + 2 && path[0] == TRANSACTION_DIR[0] && path[1] == "backup" && path[2..] == key
  {
    BACKUP_DIR + key
  }

  /** A file the transaction machinery keeps for itself. */
  predicate Reserved(key: Path) {
    TRANSACTION_DIR <= key || DOWNLOAD_DIR <= key
  }

  /** One file of a bundle: where it goes, whether something was there, and what is to be there. */
  datatype Item = Item(key: Path, hadOriginal: bool, incoming: Bytes)

  /** The replacement of the files of `items` in a device that held `before`, recorded in `journal`. */
  datatype Change = Change(before: Files, items: seq<Item>, journal: Bytes)

  ghost predicate WellFormed(c: Change) {
    && c.items != []
    && (forall i, j :: 0 <= i < j < |c.items| ==> c.items[i].key != c.items[j].key)
    && (forall i :: 0 <= i < |c.items| ==>
          && c.items[i].key != []
          && !Reserved(c.items[i].key)
          && (c.items[i].hadOriginal <==> c.items[i].key in c.before))
  }

  /** The journal text reads back as these items. */
  ghost predicate Records(journal: Bytes, items: seq<Item>) {
    var r := ParseJournal(journal);
    r.Ok? && Matches(r.value, items)
  }

  ghost predicate Matches(entries: seq<Entry>, items: seq<Item>) {
    && |entries| == |items|
    && forall i :: 0 <= i < |items| ==>
          Key(entries[i].path) == items[i].key && entries[i].hadOriginal == items[i].hadOriginal
  }

  predicate SameAt(files: Files, other: Files, key: Path) {
    (key in files <==> key in other) && (key in files ==> files[key] == other[key])
  }

  ghost predicate IsDestination(c: Change, key: Path) {
    exists i :: 0 <= i < |c.items| && c.items[i].key == key
  }

  ghost predicate OthersKept(files: Files, c: Change) {
    forall key :: !Reserved(key) && !IsDestination(c, key) ==> SameAt(files, c.before, key)
  }

  ghost predicate JournalHeld(files: Files, c: Change) {
    JOURNAL_FILE in files && files[JOURNAL_FILE] == c.journal
  }

  // ----- The state of one entry -----

  ghost predicate BackupHeld(files: Files, c: Change, i: nat)
    requires i < |c.items|
  {
    BackupPath(c.items[i].key) in files && c.items[i].key in c.before
    && files[BackupPath(c.items[i].key)] == c.before[c.items[i].key]
  }

  /** A rollback that starts here brings entry `i` back. */
  ghost predicate Undoable(files: Files, c: Change, i: nat)
    requires i < |c.items|
  {
    var key := c.items[i].key;
    if c.items[i].hadOriginal then
      BackupHeld(files, c, i) || (BackupPath(key) !in files && SameAt(files, c.before, key))
    else
      StagePath(key) in files ==> key !in files
  }

  /** The old file is back where it was, and nothing is left to bring back. */
  ghost predicate Restored(files: Files, c: Change, i: nat)
    requires i < |c.items|
  {
    SameAt(files, c.before, c.items[i].key) && (c.items[i].hadOriginal ==> BackupPath(c.items[i].key) !in files)
  }

  /** Staged, the destination not yet touched. */
  ghost predicate Pending(files: Files, c: Change, i: nat)
    requires i < |c.items|
  {
    var key := c.items[i].key;
    && StagePath(key) in files && files[StagePath(key)] == c.items[i].incoming
    && BackupPath(key) !in files
    && SameAt(files, c.before, key)
  }

  /** Staged, the original already moved to its backup. */
  ghost predicate BackedUp(files: Files, c: Change, i: nat)
    requires i < |c.items|
  {
    var key := c.items[i].key;
    && StagePath(key) in files && files[StagePath(key)] == c.items[i].incoming
    && key !in files
    && (c.items[i].hadOriginal ==> BackupHeld(files, c, i))
  }

  /** The new file is in place, its original in the backup. */
  ghost predicate Activated(files: Files, c: Change, i: nat)
    requires i < |c.items|
  {
    var key := c.items[i].key;
    && key in files && files[key] == c.items[i].incoming
    && StagePath(key) !in files
    && (c.items[i].hadOriginal ==> BackupHeld(files, c, i))
  }

  // ----- The state of all files -----

  /** Every interrupted transaction is in such a state until its journal is gone. */
  ghost predicate Restorable(files: Files, c: Change) {
    && JournalHeld(files, c)
    && OthersKept(files, c)
    && forall i :: 0 <= i < |c.items| ==> Undoable(files, c, i)
  }

  /** The first `n` entries activated, entry `n` perhaps backed up, the rest pending. */
  ghost predicate Installing(files: Files, c: Change, n: nat, backedUp: bool)
  {
    && n <= |c.items|
    && JournalHeld(files, c)
    && OthersKept(files, c)
    && (forall i :: 0 <= i < n ==> Activated(files, c, i))
    && (forall i :: n < i < |c.items| ==> Pending(files, c, i))
    && (n < |c.items| ==> if backedUp then BackedUp(files, c, n) else Pending(files, c, n))
  }

  /** Every destination new and every original in its backup. */
  ghost predicate Installed(files: Files, c: Change)
  {
    Installing(files, c, |c.items|, false)
  }

  /** The entries from `n` on restored, the ones before still undoable. */
  ghost predicate Rewinding(files: Files, c: Change, n: nat) {
    && n <= |c.items|
    && Restorable(files, c)
    && forall i :: n <= i < |c.items| ==> Restored(files, c, i)
  }

  /** Outside the reserved directories the files are exactly the ones from before. */
  ghost predicate OldGeneration(files: Files, c: Change) {
    forall key :: !Reserved(key) ==> SameAt(files, c.before, key)
  }

  /** Every destination holds its new contents, every other file is as before. */
  ghost predicate NewGeneration(files: Files, c: Change)
  {
    && OthersKept(files, c)
    && forall i :: 0 <= i < |c.items| ==> c.items[i].key in files && files[c.items[i].key] == c.items[i].incoming
  }

  /** Undecided or decided for the old generation: undoable while a journal is
      there, and already undone when there is none. */
  ghost predicate Recoverable(files: Files, c: Change) {
    if JOURNAL_FILE in files then Restorable(files, c) else OldGeneration(files, c)
  }

  /** Decided for what is in place: as long as there is a journal there is also
      the marker that makes recovery finalize. */
  ghost predicate Decided(files: Files, c: Change) {
    JOURNAL_FILE in files ==> JournalHeld(files, c) && FIRMWARE_WRITTEN_MARKER in files
  }

  /** The files outside the reserved directories are the same. */
  ghost predicate SameUserFiles(files: Files, other: Files) {
    forall key :: !Reserved(key) ==> SameAt(files, other, key)
  }

  lemma UserFilesChain(left: Files, files: Files, after: Files)
    ensures SameUserFiles(left, files) && SameUserFiles(files, after) ==> SameUserFiles(left, after)
  {
    if SameUserFiles(left, files) && SameUserFiles(files, after) {
      forall key | !Reserved(key)
        ensures SameAt(left, after, key)
      {
        assert SameAt(left, files, key) && SameAt(files, after, key);
      }
    }
  }

  lemma GenerationOfUserFiles(files: Files, other: Files, c: Change)
    requires WellFormed(c) && SameUserFiles(files, other)
    ensures OldGeneration(files, c) <==> OldGeneration(other, c)
    ensures NewGeneration(files, c) <==> NewGeneration(other, c)
  {
    GenerationCarriesOver(files, other, c);
    GenerationCarriesOver(other, files, c);
  }

  lemma GenerationCarriesOver(files: Files, other: Files, c: Change)
    requires WellFormed(c)
    requires forall key :: !Reserved(key) ==> SameAt(files, other, key)
    ensures OldGeneration(files, c) ==> OldGeneration(other, c)
    ensures NewGeneration(files, c) ==> NewGeneration(other, c)
  {
    if OldGeneration(files, c) {
      forall key | !Reserved(key)
        ensures SameAt(other, c.before, key)
      {
        assert SameAt(files, other, key) && SameAt(files, c.before, key);
      }
    }
    if NewGeneration(files, c) {
      forall key | !Reserved(key) && !IsDestination(c, key)
        ensures SameAt(other, c.before, key)
      {
        assert SameAt(files, other, key) && SameAt(files, c.before, key);
      }
      forall i | 0 <= i < |c.items|
        ensures c.items[i].key in other && other[c.items[i].key] == c.items[i].incoming
      {
        assert SameAt(files, other, c.items[i].key);
      }
    }
  }

  // ----- Which paths are which -----

  /** Everything a step on item `n` touches lies apart from what item `i` is made of. */
  lemma ItemsApart(c: Change, n: nat, i: nat)
    requires WellFormed(c) && n < |c.items| && i < |c.items|
    ensures c.items[n].key == c.items[i].key <==> n == i
    ensures StagePath(c.items[n].key) == StagePath(c.items[i].key) <==> n == i
    ensures BackupPath(c.items[n].key) == BackupPath(c.items[i].key) <==> n == i
    ensures StagePath(c.items[n].key) != BackupPath(c.items[i].key)
    ensures Reserved(StagePath(c.items[n].key)) && Reserved(BackupPath(c.items[n].key))
    ensures |StagePath(c.items[n].key)| > 2 && |BackupPath(c.items[n].key)| > 2
  {
    assert TRANSACTION_DIR <= StagePath(c.items[n].key);
    assert TRANSACTION_DIR <= BackupPath(c.items[n].key);
  }

  lemma MarkersApart()
    ensures |JOURNAL_FILE| == |JOURNAL_TMP| == |FILES_ACTIVE_MARKER| == |FIRMWARE_WRITTEN_MARKER| == 2
    ensures Reserved(JOURNAL_FILE) && Reserved(JOURNAL_TMP) && Reserved(FILES_ACTIVE_MARKER)
            && Reserved(FIRMWARE_WRITTEN_MARKER)
    ensures JOURNAL_FILE != JOURNAL_TMP
    ensures FILES_ACTIVE_MARKER != JOURNAL_FILE && FILES_ACTIVE_MARKER != JOURNAL_TMP
    ensures FIRMWARE_WRITTEN_MARKER != JOURNAL_FILE && FIRMWARE_WRITTEN_MARKER != JOURNAL_TMP
    ensures FIRMWARE_WRITTEN_MARKER != FILES_ACTIVE_MARKER
  {
    assert |JOURNAL_FILE[1]| == 7 && |JOURNAL_TMP[1]| == 11 && |FILES_ACTIVE_MARKER[1]| == 12
           && |FIRMWARE_WRITTEN_MARKER[1]| == 16;
  }

  /** `after` agrees with `files` on every cell that item `i` is made of. */
  ghost predicate SameItem(files: Files, after: Files, c: Change, i: nat)
    requires i < |c.items|
  {
    var key := c.items[i].key;
    SameAt(files, after, key) && SameAt(files, after, StagePath(key)) && SameAt(files, after, BackupPath(key))
  }

  /** Only the cells of item `n` differ. */
  ghost predicate OnlyItem(files: Files, after: Files, c: Change, n: nat)
    requires n < |c.items|
  {
    var key := c.items[n].key;
    forall k :: k != key && k != StagePath(key) && k != BackupPath(key) ==> SameAt(files, after, k)
  }

  lemma OtherItemsKept(files: Files, after: Files, c: Change, n: nat)
    requires WellFormed(c) && n < |c.items| && OnlyItem(files, after, c, n)
    ensures forall i :: 0 <= i < |c.items| && i != n ==> SameItem(files, after, c, i)
    ensures JournalHeld(files, c) ==> JournalHeld(after, c)
    ensures OthersKept(files, c) ==> OthersKept(after, c)
  {
    forall i | 0 <= i < |c.items| && i != n
      ensures SameItem(files, after, c, i)
    {
      ItemsApart(c, n, i);
      ItemsApart(c, i, n);
    }
    ItemsApart(c, n, n);
    MarkersApart();
    assert SameAt(files, after, JOURNAL_FILE);
    if OthersKept(files, c) {
      assert IsDestination(c, c.items[n].key);
      forall k | !Reserved(k) && !IsDestination(c, k)
        ensures SameAt(after, c.before, k)
      {
        assert SameAt(files, after, k);
      }
    }
  }

  // ----- The steps of an install -----

  lemma BackupStep(files: Files, c: Change, n: nat)
    requires WellFormed(c) && Installing(files, c, n, false)
    requires n < |c.items| && c.items[n].hadOriginal
    ensures c.items[n].key in files
    ensures Installing(Moved(files, c.items[n].key, BackupPath(c.items[n].key)), c, n, true)
  {
    assert Pending(files, c, n);
    var after := Moved(files, c.items[n].key, BackupPath(c.items[n].key));
    ItemsApart(c, n, n);
    OtherItemsKept(files, after, c, n);
    OthersInstalling(files, after, c, n);
  }

  lemma ActivateStep(files: Files, c: Change, n: nat, backedUp: bool)
    requires WellFormed(c) && Installing(files, c, n, backedUp)
    requires n < |c.items| && backedUp == c.items[n].hadOriginal
    ensures StagePath(c.items[n].key) in files
    ensures Installing(Moved(files, StagePath(c.items[n].key), c.items[n].key), c, n + 1, false)
  {
    var after := Moved(files, StagePath(c.items[n].key), c.items[n].key);
    ItemsApart(c, n, n);
    OtherItemsKept(files, after, c, n);
    OthersInstalling(files, after, c, n);
    assert Activated(after, c, n);
  }

  lemma OthersInstalling(files: Files, after: Files, c: Change, n: nat)
    requires n < |c.items|
    requires forall i :: 0 <= i < |c.items| && i != n ==> SameItem(files, after, c, i)
    requires forall i :: 0 <= i < n ==> Activated(files, c, i)
    requires forall i :: n < i < |c.items| ==> Pending(files, c, i)
    ensures forall i :: 0 <= i < n ==> Activated(after, c, i)
    ensures forall i :: n < i < |c.items| ==> Pending(after, c, i)
  {
    forall i | 0 <= i < n
      ensures Activated(after, c, i)
    {
      assert SameItem(files, after, c, i) && Activated(files, c, i);
    }
    forall i | n < i < |c.items|
      ensures Pending(after, c, i)
    {
      assert SameItem(files, after, c, i) && Pending(files, c, i);
    }
  }

  /** Whatever point an install has reached, a rollback can undo it. */
  lemma InstallingIsRestorable(files: Files, c: Change, n: nat, backedUp: bool)
    requires WellFormed(c) && Installing(files, c, n, backedUp)
    ensures Restorable(files, c)
  {
    forall i | 0 <= i < |c.items|
      ensures Undoable(files, c, i)
    {
      assert i < n ==> Activated(files, c, i);
      assert i > n ==> Pending(files, c, i);
    }
  }

  /** Two file maps that agree on everything but the transaction's loose files. */
  ghost predicate SameButLoose(files: Files, other: Files, c: Change) {
    && SameAt(files, other, JOURNAL_FILE)
    && (forall key :: !Reserved(key) ==> SameAt(files, other, key))
    && (forall i :: 0 <= i < |c.items| ==> SameItem(files, other, c, i))
  }

  lemma LooseFilesDoNotMatter(files: Files, other: Files, c: Change, n: nat)
    requires SameButLoose(files, other, c)
    ensures Installing(files, c, n, false) ==> Installing(other, c, n, false)
    ensures Restorable(files, c) ==> Restorable(other, c)
    ensures Rewinding(files, c, n) ==> Rewinding(other, c, n)
  {
    forall i | 0 <= i < |c.items|
      ensures Activated(files, c, i) ==> Activated(other, c, i)
      ensures Pending(files, c, i) ==> Pending(other, c, i)
      ensures Undoable(files, c, i) ==> Undoable(other, c, i)
      ensures Restored(files, c, i) ==> Restored(other, c, i)
    {
      assert SameItem(files, other, c, i);
    }
    if OthersKept(files, c) {
      forall k | !Reserved(k) && !IsDestination(c, k)
        ensures SameAt(other, c.before, k)
      {
        assert SameAt(files, other, k);
      }
    }
  }

  /** Writing a marker, or part of one, is such a change. */
  lemma MarkersAreLoose(files: Files, other: Files, c: Change, marker: Path)
    requires WellFormed(c)
    requires marker == FILES_ACTIVE_MARKER || marker == FIRMWARE_WRITTEN_MARKER
    requires forall key :: key != marker ==> SameAt(files, other, key)
    ensures SameButLoose(files, other, c)
  {
    MarkersApart();
    forall i | 0 <= i < |c.items|
      ensures SameItem(files, other, c, i)
    {
      ItemsApart(c, i, i);
    }
  }

  // ----- The steps of a rollback -----

  lemma OthersRewinding(files: Files, after: Files, c: Change, n: nat)
    requires n < |c.items| && Rewinding(files, c, n + 1)
    requires forall i :: 0 <= i < |c.items| && i != n ==> SameItem(files, after, c, i)
    ensures forall i :: 0 <= i < |c.items| && i != n ==> Undoable(after, c, i)
    ensures forall i :: n < i < |c.items| ==> Restored(after, c, i)
  {
    forall i | 0 <= i < |c.items| && i != n
      ensures Undoable(after, c, i)
      ensures i > n ==> Restored(after, c, i)
    {
      assert SameItem(files, after, c, i) && Undoable(files, c, i);
      assert i > n ==> Restored(files, c, i);
    }
  }

  /** Clearing the way for a backup leaves everything undoable; removing a file
      that was not there before restores it. */
  lemma ClearStep(files: Files, c: Change, n: nat)
    requires WellFormed(c) && n < |c.items| && Rewinding(files, c, n + 1)
    requires if c.items[n].hadOriginal then BackupPath(c.items[n].key) in files else StagePath(c.items[n].key) !in files
    ensures Rewinding(files - {c.items[n].key}, c, n + 1)
    ensures c.items[n].hadOriginal ==> BackupHeld(files - {c.items[n].key}, c, n)
    ensures !c.items[n].hadOriginal ==> Rewinding(files - {c.items[n].key}, c, n)
  {
    var after := files - {c.items[n].key};
    assert Undoable(files, c, n);
    ItemsApart(c, n, n);
    OtherItemsKept(files, after, c, n);
    OthersRewinding(files, after, c, n);
    assert Undoable(after, c, n);
  }

  lemma RestoreStep(files: Files, c: Change, n: nat)
    requires WellFormed(c) && n < |c.items| && Rewinding(files, c, n + 1)
    requires c.items[n].hadOriginal && BackupHeld(files, c, n)
    ensures Rewinding(Moved(files, BackupPath(c.items[n].key), c.items[n].key), c, n)
  {
    var after := Moved(files, BackupPath(c.items[n].key), c.items[n].key);
    ItemsApart(c, n, n);
    OtherItemsKept(files, after, c, n);
    OthersRewinding(files, after, c, n);
    assert Restored(after, c, n) && Undoable(after, c, n);
  }

  /** An item that the rollback skips needs nothing done. */
  lemma SkipStep(files: Files, c: Change, n: nat)
    requires WellFormed(c) && n < |c.items| && Rewinding(files, c, n + 1)
    requires if c.items[n].hadOriginal then BackupPath(c.items[n].key) !in files else StagePath(c.items[n].key) in files
    ensures Rewinding(files, c, n)
  {
    assert Undoable(files, c, n);
  }

  /** When all items are restored the old generation is back. */
  lemma RewoundIsOld(files: Files, c: Change)
    requires WellFormed(c) && Rewinding(files, c, 0)
    ensures OldGeneration(files, c)
  {
    forall key | !Reserved(key)
      ensures SameAt(files, c.before, key)
    {
      if IsDestination(c, key) {
        var i :| 0 <= i < |c.items| && c.items[i].key == key;
        assert Restored(files, c, i);
      }
    }
  }

  /** `after` is `files` with some files of the transaction directory removed. */
  ghost predicate TreeThinned(files: Files, after: Files) {
    forall key :: (TRANSACTION_DIR <= key && key !in after) || SameAt(files, after, key)
  }

  /** Once everything is restored, the transaction directory may vanish in any
      order and be interrupted at any point: what is left can be rolled back again. */
  lemma CleanupInAnyOrder(files: Files, after: Files, c: Change)
    requires WellFormed(c) && Rewinding(files, c, 0)
    requires TreeThinned(files, after)
    ensures Recoverable(after, c) && OldGeneration(after, c)
    ensures JOURNAL_FILE in after ==> Rewinding(after, c, 0)
  {
    RewoundIsOld(files, c);
    forall key | !Reserved(key)
      ensures SameAt(after, c.before, key)
    {
      assert SameAt(files, after, key);
    }
    forall i | 0 <= i < |c.items|
      ensures Restored(after, c, i) && Undoable(after, c, i)
    {
      assert Restored(files, c, i);
      assert SameAt(after, c.before, c.items[i].key);
      assert SameAt(files, after, BackupPath(c.items[i].key)) || BackupPath(c.items[i].key) !in after;
    }
    assert SameAt(files, after, JOURNAL_FILE) || JOURNAL_FILE !in after;
  }
}
