/** Finalizing is a single removal of the transaction directory, in whatever order
    the directory is read. Cut short, it can lose the firmware marker before the
    journal, and then the next boot rolls back with what is left of the backups.
    The rollback of a failed boot selector, cut short with the marker still there,
    can be finalized by the next boot in turn. This module says exactly which
    interruptions are harmless. */
module FinalizeOrder {
  import opened Text
  import opened Paths
  import opened Storage
  import opened Journal
  import opened Generation
  import opened BundleTransaction
  import opened Recovery

  /** Whether the two generations differ at item `i`. */
  ghost predicate Changed(c: Change, i: nat)
    requires i < |c.items|
  {
    c.items[i].key in c.before ==> c.before[c.items[i].key] != c.items[i].incoming
  }

  ghost predicate BackupLost(c: Change, removed: set<Path>, i: nat)
    requires i < |c.items|
  {
    BackupPath(c.items[i].key) in removed
  }

  /** A finalize that got as far as removing `removed` is harmless when the journal
      is gone, when the marker is still there, when no needed backup is gone, or
      when a rollback with what is left changes nothing any more. */
  ghost predicate HarmlessInterruption(c: Change, removed: set<Path>) {
    || JOURNAL_FILE in removed
    || FIRMWARE_WRITTEN_MARKER !in removed
    || (forall i :: 0 <= i < |c.items| && c.items[i].hadOriginal && Changed(c, i) ==> !BackupLost(c, removed, i))
    || (forall i :: 0 <= i < |c.items| ==> c.items[i].hadOriginal && (Changed(c, i) ==> BackupLost(c, removed, i)))
  }

  /** The items from `n` on as a rollback with the remaining backups leaves them,
      the ones before as the interrupted finalize left them. */
  ghost predicate HalfRolledBack(files: Files, c: Change, removed: set<Path>, n: nat) {
    && n <= |c.items|
    && OthersKept(files, c)
    && (forall i :: 0 <= i < n ==> LeftBehind(files, c, removed, i))
    && (forall i :: n <= i < |c.items| ==> Resolved(files, c, removed, i))
  }

  ghost predicate LeftBehind(files: Files, c: Change, removed: set<Path>, i: nat)
    requires i < |c.items|
  {
    var key := c.items[i].key;
    && key in files && files[key] == c.items[i].incoming
    && StagePath(key) !in files
    && (c.items[i].hadOriginal ==>
          if BackupLost(c, removed, i) then BackupPath(key) !in files else BackupHeld(files, c, i))
  }

  ghost predicate Resolved(files: Files, c: Change, removed: set<Path>, i: nat)
    requires i < |c.items|
  {
    var key := c.items[i].key;
    if c.items[i].hadOriginal && BackupLost(c, removed, i) then key in files && files[key] == c.items[i].incoming
    else SameAt(files, c.before, key)
  }

  lemma RollbackRound(files: Files, c: Change, removed: set<Path>, n: nat)
    requires WellFormed(c) && HalfRolledBack(files, c, removed, n + 1)
    ensures HalfRolledBack(EntryRestored(files, c.items[n].key, c.items[n].hadOriginal), c, removed, n)
  {
    var after := EntryRestored(files, c.items[n].key, c.items[n].hadOriginal);
    assert LeftBehind(files, c, removed, n);
    ItemsApart(c, n, n);
    OtherItemsKept(files, after, c, n);
    forall i | 0 <= i < |c.items| && i != n
      ensures i < n ==> LeftBehind(after, c, removed, i)
      ensures i > n ==> Resolved(after, c, removed, i)
    {
      assert SameItem(files, after, c, i);
      assert i < n ==> LeftBehind(files, c, removed, i);
      assert i > n ==> Resolved(files, c, removed, i);
    }
    assert Resolved(after, c, removed, n);
  }

  lemma {:induction false} RollbackRounds(files: Files, c: Change, removed: set<Path>, entries: seq<Entry>)
    requires WellFormed(c) && |entries| <= |c.items|
    requires Matches(entries, c.items[..|entries|])
    requires HalfRolledBack(files, c, removed, |entries|)
    ensures HalfRolledBack(EntriesRestored(files, entries), c, removed, 0)
    decreases |entries|
  {
    hide Key, EntryRestored, HalfRolledBack, WellFormed;
    if entries != [] {
      var n := |entries| - 1;
      var last := entries[n];
      assert Key(last.path) == c.items[n].key && last.hadOriginal == c.items[n].hadOriginal;
      RollbackRound(files, c, removed, n);
      assert c.items[..n] == c.items[..|entries|][..n];
      RollbackRounds(EntryRestored(files, Key(last.path), last.hadOriginal), c, removed, entries[..n]);
    }
  }

  lemma ThinnedIsLeftBehind(files: Files, c: Change, removed: set<Path>)
    requires WellFormed(c) && Installed(files, c)
    ensures HalfRolledBack(PartlyWithoutTree(files, TRANSACTION_DIR, removed), c, removed, |c.items|)
  {
    var after := PartlyWithoutTree(files, TRANSACTION_DIR, removed);
    forall i | 0 <= i < |c.items|
      ensures LeftBehind(after, c, removed, i)
    {
      assert Activated(files, c, i);
      ItemsApart(c, i, i);
      assert TRANSACTION_DIR <= BackupPath(c.items[i].key);
    }
    forall key | !Reserved(key) && !IsDestination(c, key)
      ensures SameAt(after, c.before, key)
    {
      assert SameAt(files, c.before, key);
    }
  }

  /** What the next boot makes of it is one of the two generations exactly when
      the interruption was harmless. */
  lemma InterruptedFinalize(files: Files, c: Change, removed: set<Path>)
    requires Sound(c) && Installed(files, c) && FIRMWARE_WRITTEN_MARKER in files
    ensures var next := AfterRecovery(PartlyWithoutTree(files, TRANSACTION_DIR, removed), true);
            OldGeneration(next, c) || NewGeneration(next, c) <==> HarmlessInterruption(c, removed)
  {
    hide Installing, OthersKept, WellFormed, Records, EntriesRestored, OldGeneration, NewGeneration, Key,
      HalfRolledBack;
    var after := PartlyWithoutTree(files, TRANSACTION_DIR, removed);
    var next := AfterRecovery(after, true);
    MarkersApart();
    ThinnedIsLeftBehind(files, c, removed);
    InstalledIsNew(files, c);
    SoundJournal(files, c);
    if JOURNAL_FILE in removed || FIRMWARE_WRITTEN_MARKER !in removed {
      KeptIsNew(after, c, removed);
      if JOURNAL_FILE in after {
        SoundJournal(after, c);
        WithoutTreeKeeps(after, c);
      }
    } else {
      var entries := ParseJournal(files[JOURNAL_FILE]).value;
      assert c.items[..|entries|] == c.items;
      RollbackRounds(after, c, removed, entries);
      var rewound := EntriesRestored(after, entries);
      WithoutTreeKeeps(rewound, c);
      ResolvedGeneration(rewound, c, removed);
    }
  }

  lemma KeptIsNew(after: Files, c: Change, removed: set<Path>)
    requires HalfRolledBack(after, c, removed, |c.items|)
    ensures NewGeneration(after, c)
  {
    forall i | 0 <= i < |c.items|
      ensures c.items[i].key in after && after[c.items[i].key] == c.items[i].incoming
    {
      assert LeftBehind(after, c, removed, i);
    }
  }

  lemma WithoutTreeKeeps(files: Files, c: Change)
    requires WellFormed(c)
    ensures OldGeneration(files, c) <==> OldGeneration(WithoutTree(files, TRANSACTION_DIR), c)
    ensures NewGeneration(files, c) <==> NewGeneration(WithoutTree(files, TRANSACTION_DIR), c)
  {
    GenerationOfUserFiles(files, WithoutTree(files, TRANSACTION_DIR), c);
  }

  lemma ResolvedGeneration(files: Files, c: Change, removed: set<Path>)
    requires WellFormed(c) && HalfRolledBack(files, c, removed, 0)
    ensures OldGeneration(files, c) <==>
            forall i :: 0 <= i < |c.items| && c.items[i].hadOriginal && Changed(c, i) ==> !BackupLost(c, removed, i)
    ensures NewGeneration(files, c) <==>
            forall i :: 0 <= i < |c.items| ==> c.items[i].hadOriginal && (Changed(c, i) ==> BackupLost(c, removed, i))
  {
    if forall i :: 0 <= i < |c.items| && c.items[i].hadOriginal && Changed(c, i) ==> !BackupLost(c, removed, i) {
      forall key | !Reserved(key)
        ensures SameAt(files, c.before, key)
      {
        if IsDestination(c, key) {
          var i :| 0 <= i < |c.items| && c.items[i].key == key;
          assert Resolved(files, c, removed, i);
        }
      }
    } else {
      var i :| 0 <= i < |c.items| && c.items[i].hadOriginal && Changed(c, i) && BackupLost(c, removed, i);
      assert Resolved(files, c, removed, i) && !SameAt(files, c.before, c.items[i].key);
    }
    if forall i :: 0 <= i < |c.items| ==> c.items[i].hadOriginal && (Changed(c, i) ==> BackupLost(c, removed, i)) {
      forall i | 0 <= i < |c.items|
        ensures c.items[i].key in files && files[c.items[i].key] == c.items[i].incoming
      {
        assert Resolved(files, c, removed, i);
      }
    } else {
      var i :| 0 <= i < |c.items| && !(c.items[i].hadOriginal && (Changed(c, i) ==> BackupLost(c, removed, i)));
      assert Resolved(files, c, removed, i);
    }
  }

  /** A removal that takes the journal before the marker is harmless wherever it stops. */
  lemma JournalFirstIsHarmless(c: Change, order: seq<Path>, n: nat)
    requires n <= |order|
    requires forall m :: 0 <= m < |order| && order[m] == FIRMWARE_WRITTEN_MARKER ==> JOURNAL_FILE in order[..m]
    ensures HarmlessInterruption(c, set path | path in order[..n])
  {
    if FIRMWARE_WRITTEN_MARKER in order[..n] {
      var m :| 0 <= m < n && order[m] == FIRMWARE_WRITTEN_MARKER;
      assert JOURNAL_FILE in order[..m];
      assert forall path :: path in order[..m] ==> path in order[..n];
    }
  }

  const TWO_OLD_FILES: Files := map[["a"] := "old", ["b"] := "old"]
  const TWO_NEW_FILES: seq<BundleFile> := [BundleFile("a", Inline("new")), BundleFile("b", Inline("new"))]

  lemma TwoFiles()
    ensures Sound(ChangeOf(TWO_OLD_FILES, TWO_NEW_FILES))
    ensures ChangeOf(TWO_OLD_FILES, TWO_NEW_FILES).items == [Item(["a"], true, "new"), Item(["b"], true, "new")]
  {
    hide Key, ValidRelativePath, WellFormed, Records;
    OneLetterKey('a');
    OneLetterKey('b');
    assert |DOWNLOAD_DIR[0]| == 24 && |TRANSACTION_DIR[0]| == 27;
    assert ["a"][0][0] != ["b"][0][0];
    assert AcceptableFile(TWO_NEW_FILES[0]) && AcceptableFile(TWO_NEW_FILES[1]);
    ChangeIsWellFormed(TWO_OLD_FILES, TWO_NEW_FILES);
    ChangeIsRecorded(TWO_OLD_FILES, TWO_NEW_FILES);
    var c := ChangeOf(TWO_OLD_FILES, TWO_NEW_FILES);
    assert c.items == [c.items[0], c.items[1]];
  }

  lemma OneLetterKey(letter: char)
    requires letter != '/' && letter != '.' && letter != '\t' && letter != '\n' && letter != '\r'
    ensures Key([letter]) == [[letter]] && ValidRelativePath([letter])
  {
    SplitWhole([letter], '/');
    assert ComponentsOf([[letter]], true) == [Normal([letter])];
    assert Names([Normal([letter])]) == [[letter]];
  }

  /** What installing the two files leaves. */
  function TwoInstalled(): Files {
    map[["a"] := "new", ["b"] := "new",
        BackupPath(["a"]) := "old", BackupPath(["b"]) := "old",
        JOURNAL_FILE := ChangeOf(TWO_OLD_FILES, TWO_NEW_FILES).journal,
        FIRMWARE_WRITTEN_MARKER := "firmware_written"]
  }

  /** The cells of `TwoInstalled` are all different. */
  lemma TwoCells()
    ensures var files := TwoInstalled();
            && ["a"] in files && ["b"] in files && JOURNAL_FILE in files
            && BackupPath(["a"]) in files && BackupPath(["b"]) in files
            && files[["a"]] == files[["b"]] == "new"
            && files[BackupPath(["a"])] == files[BackupPath(["b"])] == "old"
            && files[JOURNAL_FILE] == ChangeOf(TWO_OLD_FILES, TWO_NEW_FILES).journal
            && FIRMWARE_WRITTEN_MARKER in files
            && StagePath(["a"]) !in files && StagePath(["b"]) !in files
            && forall key :: key in files && key != ["a"] && key != ["b"] ==> TRANSACTION_DIR <= key
  {
    hide ChangeOf, StagePath, BackupPath;
    MarkersApart();
    var a, b := BackupPath(["a"]), BackupPath(["b"]);
    assert a[2..] == ["a"] && b[2..] == ["b"] && ["a"][0][0] != ["b"][0][0];
    assert |a| == |b| == 3 && |JOURNAL_FILE| == |FIRMWARE_WRITTEN_MARKER| == 2;
    assert |StagePath(["a"])| == |StagePath(["b"])| == 3 && StagePath(["a"])[1] == StagePath(["b"])[1] == "stage";
    assert a[1] == b[1] == "backup" && |"stage"| != |"backup"|;
    BackupsAreReserved(["a"]);
    BackupsAreReserved(["b"]);
    assert TRANSACTION_DIR <= JOURNAL_FILE && TRANSACTION_DIR <= FIRMWARE_WRITTEN_MARKER;
  }

  lemma BackupsAreReserved(key: Path)
    ensures TRANSACTION_DIR <= BackupPath(key)
  {
  }

  lemma TwoAreInstalled()
    ensures Installed(TwoInstalled(), ChangeOf(TWO_OLD_FILES, TWO_NEW_FILES))
            && FIRMWARE_WRITTEN_MARKER in TwoInstalled()
  {
    hide WellFormed, Records, ChangeOf, StagePath, BackupPath, TwoInstalled;
    TwoFiles();
    TwoCells();
    var c, files := ChangeOf(TWO_OLD_FILES, TWO_NEW_FILES), TwoInstalled();
    assert c.items[0].key == ["a"] && c.items[1].key == ["b"];
    assert Activated(files, c, 0) && Activated(files, c, 1);
  }

  lemma InstalledIsRestorable(files: Files, c: Change)
    requires WellFormed(c) && Installed(files, c)
    ensures Restorable(files, c)
  {
    InstallingIsRestorable(files, c, |c.items|, false);
  }

  /** The two counterexamples below do occur. */
  lemma MixturesOccur()
    ensures var c := ChangeOf(TWO_OLD_FILES, TWO_NEW_FILES);
            var removed := {FIRMWARE_WRITTEN_MARKER, BackupPath(["a"])};
            var next := AfterRecovery(PartlyWithoutTree(TwoInstalled(), TRANSACTION_DIR, removed), true);
            !OldGeneration(next, c) && !NewGeneration(next, c)
    ensures var c := ChangeOf(TWO_OLD_FILES, TWO_NEW_FILES);
            var journal := ParseJournal(TwoInstalled()[JOURNAL_FILE]);
            && journal.Ok? && |journal.value| == 2
            && var next := AfterRecovery(EntriesRestored(TwoInstalled(), journal.value[1..]), true);
               !OldGeneration(next, c) && !NewGeneration(next, c)
  {
    hide Installed, AfterRecovery, OldGeneration, NewGeneration, WellFormed, Records, ChangeOf, ParseJournal,
      EntriesRestored;
    var c, files := ChangeOf(TWO_OLD_FILES, TWO_NEW_FILES), TwoInstalled();
    TwoFiles();
    TwoAreInstalled();
    FinalizeCanMixGenerations(files);
    InstalledIsRestorable(files, c);
    RestorableIsRecorded(files, c);
    UnwindingCanMixGenerations(files, EntriesRestored(files, ParseJournal(files[JOURNAL_FILE]).value[1..]));
  }

  /** Two files replaced, the removal stopped after the marker and the backup of the
      first: the next boot leaves the first file new and the second one old. */
  lemma FinalizeCanMixGenerations(files: Files)
    requires Installed(files, ChangeOf(TWO_OLD_FILES, TWO_NEW_FILES)) && FIRMWARE_WRITTEN_MARKER in files
    ensures var c := ChangeOf(TWO_OLD_FILES, TWO_NEW_FILES);
            var removed := {FIRMWARE_WRITTEN_MARKER, BackupPath(["a"])};
            var next := AfterRecovery(PartlyWithoutTree(files, TRANSACTION_DIR, removed), true);
            !OldGeneration(next, c) && !NewGeneration(next, c)
  {
    TwoFiles();
    var c := ChangeOf(TWO_OLD_FILES, TWO_NEW_FILES);
    var removed := {FIRMWARE_WRITTEN_MARKER, BackupPath(["a"])};
    InterruptedFinalize(files, c, removed);
    MixedRemovalHarms(c, removed);
  }

  lemma MixedRemovalHarms(c: Change, removed: set<Path>)
    requires c.before == TWO_OLD_FILES && c.items == [Item(["a"], true, "new"), Item(["b"], true, "new")]
    requires removed == {FIRMWARE_WRITTEN_MARKER, BackupPath(["a"])}
    ensures !HarmlessInterruption(c, removed)
  {
    MarkersApart();
    assert BackupPath(["a"])[2] == "a" && BackupPath(["b"])[2] == "b";
    assert Changed(c, 0) && BackupLost(c, removed, 0);
    assert Changed(c, 1) && !BackupLost(c, removed, 1);
  }

  /** With the marker there and both flags true a boot keeps what is in place, so
      it must find one of the generations whole; with a flag false it rolls back. */
  lemma FinalizeDecides(files: Files, c: Change)
    requires Sound(c) && Restorable(files, c) && FIRMWARE_WRITTEN_MARKER in files
    ensures var next := AfterRecovery(files, true);
            && (OldGeneration(next, c) <==> OldGeneration(files, c))
            && (NewGeneration(next, c) <==> NewGeneration(files, c))
    ensures OldGeneration(AfterRecovery(files, false), c)
  {
    hide Installing, Restorable, OthersKept, WellFormed, Records, EntriesRestored, OldGeneration, NewGeneration, Key;
    RestorableIsRecorded(files, c);
    WithoutTreeKeeps(files, c);
    var entries := ParseJournal(files[JOURNAL_FILE]).value;
    assert c.items[..|entries|] == c.items;
    assert Rewinding(files, c, |c.items|);
    RestorableRounds(files, c, entries);
    RewoundIsOld(EntriesRestored(files, entries), c);
    WithoutTreeKeeps(EntriesRestored(files, entries), c);
  }

  // ----- A rollback cut off with the marker still there -----

  /** The first `n` items as the install left them, the ones from there on restored. */
  ghost predicate Unwound(files: Files, c: Change, n: nat) {
    && n <= |c.items|
    && JournalHeld(files, c) && FIRMWARE_WRITTEN_MARKER in files
    && OthersKept(files, c)
    && (forall i :: 0 <= i < n ==> Activated(files, c, i))
    && (forall i :: n <= i < |c.items| ==> Restored(files, c, i))
  }

  lemma UnwoundRound(files: Files, c: Change, n: nat)
    requires WellFormed(c) && Unwound(files, c, n + 1)
    ensures Unwound(EntryRestored(files, c.items[n].key, c.items[n].hadOriginal), c, n)
  {
    var after := EntryRestored(files, c.items[n].key, c.items[n].hadOriginal);
    assert Activated(files, c, n);
    ItemsApart(c, n, n);
    MarkersApart();
    OtherItemsKept(files, after, c, n);
    forall i | 0 <= i < |c.items| && i != n
      ensures i < n ==> Activated(after, c, i)
      ensures i > n ==> Restored(after, c, i)
    {
      assert SameItem(files, after, c, i);
      assert i < n ==> Activated(files, c, i);
      assert i > n ==> Restored(files, c, i);
    }
    assert Restored(after, c, n);
  }

  lemma {:induction false} UnwoundRounds(files: Files, c: Change, entries: seq<Entry>, n: nat)
    requires WellFormed(c) && n + |entries| <= |c.items|
    requires Matches(entries, c.items[n..n + |entries|])
    requires Unwound(files, c, n + |entries|)
    ensures Unwound(EntriesRestored(files, entries), c, n)
    decreases |entries|
  {
    hide Key, EntryRestored, Unwound, WellFormed;
    if entries != [] {
      var last := entries[|entries| - 1];
      var at := n + |entries| - 1;
      var part := c.items[n..n + |entries|];
      assert part[|entries| - 1] == c.items[at];
      assert Key(last.path) == c.items[at].key && last.hadOriginal == c.items[at].hadOriginal;
      UnwoundRound(files, c, at);
      assert c.items[n..at] == part[..|entries| - 1];
      UnwoundRounds(EntryRestored(files, Key(last.path), last.hadOriginal), c, entries[..|entries| - 1], n);
    }
  }

  lemma UnwoundGeneration(files: Files, c: Change, n: nat)
    requires WellFormed(c) && Unwound(files, c, n)
    ensures Restorable(files, c) && FIRMWARE_WRITTEN_MARKER in files
    ensures OldGeneration(files, c) <==> forall i :: 0 <= i < n ==> !Changed(c, i)
    ensures NewGeneration(files, c) <==> forall i :: n <= i < |c.items| ==> !Changed(c, i)
  {
    forall i | 0 <= i < |c.items|
      ensures Undoable(files, c, i)
      ensures SameAt(files, c.before, c.items[i].key) <==> i >= n || !Changed(c, i)
      ensures c.items[i].key in files && files[c.items[i].key] == c.items[i].incoming <==> i < n || !Changed(c, i)
    {
      assert if i < n then Activated(files, c, i) else Restored(files, c, i);
    }
    if forall i :: 0 <= i < n ==> !Changed(c, i) {
      forall key | !Reserved(key)
        ensures SameAt(files, c.before, key)
      {
        if IsDestination(c, key) {
          var i :| 0 <= i < |c.items| && c.items[i].key == key;
        }
      }
    }
  }

  /** A rollback that got down to the first `n` items is harmless when the two
      generations do not differ there, or only there, and no destination was
      just cleared for its backup. */
  ghost predicate HarmlessUnwinding(c: Change, n: nat, midway: bool)
    requires n <= |c.items|
  {
    && !midway
    && ((forall i :: 0 <= i < n ==> !Changed(c, i)) || (forall i :: n <= i < |c.items| ==> !Changed(c, i)))
  }

  /** Cut off there, the files are of one of the two generations exactly when the
      interruption was harmless. */
  lemma CutOffGeneration(files: Files, after: Files, c: Change, n: nat, midway: bool)
    requires Sound(c) && Installed(files, c) && FIRMWARE_WRITTEN_MARKER in files
    requires ParseJournal(files[JOURNAL_FILE]).Ok?
             && StoppedIn(files, after, ParseJournal(files[JOURNAL_FILE]).value, n, midway)
    ensures n <= |c.items|
    ensures Restorable(after, c) && FIRMWARE_WRITTEN_MARKER in after
    ensures OldGeneration(after, c) || NewGeneration(after, c) <==> HarmlessUnwinding(c, n, midway)
  {
    hide Installing, Restorable, OthersKept, WellFormed, Records, EntriesRestored, OldGeneration, NewGeneration, Key,
      Unwound, HarmlessUnwinding, ParseJournal;
    InstallingIsRestorable(files, c, |c.items|, false);
    RestorableIsRecorded(files, c);
    var entries := ParseJournal(files[JOURNAL_FILE]).value;
    InstalledIsUnwound(files, c);
    UnwoundRounds(files, c, entries[n..], n);
    var done := EntriesRestored(files, entries[n..]);
    UnwoundGeneration(done, c, n);
    if midway {
      ClearedIsNeither(done, c, n);
    }
    HarmlessMeans(c, n, midway);
  }

  /** Cut off after that, in the removal of the transaction directory, they are old. */
  lemma CutOffInCleanup(files: Files, after: Files, c: Change)
    requires Sound(c) && Installed(files, c)
    requires ParseJournal(files[JOURNAL_FILE]).Ok?
             && TreeThinned(EntriesRestored(files, ParseJournal(files[JOURNAL_FILE]).value), after)
    ensures OldGeneration(after, c)
  {
    hide Installing, Restorable, OthersKept, WellFormed, Records, EntriesRestored, OldGeneration, Key, ParseJournal,
      TreeThinned;
    InstallingIsRestorable(files, c, |c.items|, false);
    RestorableIsRecorded(files, c);
    var entries := ParseJournal(files[JOURNAL_FILE]).value;
    assert c.items[..|entries|] == c.items;
    assert Rewinding(files, c, |c.items|);
    RestorableRounds(files, c, entries);
    CleanupInAnyOrder(EntriesRestored(files, entries), after, c);
  }

  /** The boot selector failed, the power went in the rollback, and both flags are
      true: the next boot finalizes what it finds. */
  lemma InterruptedUnwinding(files: Files, after: Files, c: Change, n: nat, midway: bool)
    requires Sound(c) && Installed(files, c) && FIRMWARE_WRITTEN_MARKER in files
    requires ParseJournal(files[JOURNAL_FILE]).Ok?
             && StoppedIn(files, after, ParseJournal(files[JOURNAL_FILE]).value, n, midway)
    ensures n <= |c.items|
    ensures var next := AfterRecovery(after, true);
            OldGeneration(next, c) || NewGeneration(next, c) <==> HarmlessUnwinding(c, n, midway)
  {
    hide Installed, Restorable, WellFormed, Records, StoppedIn, AfterRecovery, OldGeneration, NewGeneration,
      HarmlessUnwinding, ParseJournal;
    CutOffGeneration(files, after, c, n, midway);
    FinalizeDecides(after, c);
  }

  lemma HarmlessMeans(c: Change, n: nat, midway: bool)
    requires n <= |c.items|
    ensures HarmlessUnwinding(c, n, midway) <==>
            && !midway
            && ((forall i :: 0 <= i < n ==> !Changed(c, i)) || (forall i :: n <= i < |c.items| ==> !Changed(c, i)))
  {
  }

  lemma InstalledIsUnwound(files: Files, c: Change)
    requires Installed(files, c) && FIRMWARE_WRITTEN_MARKER in files
    ensures Unwound(files, c, |c.items|)
  {
  }

  /** With a destination cleared for its backup the files are of neither generation. */
  lemma ClearedIsNeither(files: Files, c: Change, n: nat)
    requires WellFormed(c) && Unwound(files, c, n) && n > 0 && c.items[n - 1].hadOriginal
    ensures var after := files - {c.items[n - 1].key};
            && Restorable(after, c) && FIRMWARE_WRITTEN_MARKER in after
            && !OldGeneration(after, c) && !NewGeneration(after, c)
  {
    hide OldGeneration, NewGeneration, OthersKept, JournalHeld;
    var key := c.items[n - 1].key;
    UnwoundGeneration(files, c, n);
    assert Activated(files, c, n - 1);
    ItemsApart(c, n - 1, n - 1);
    MarkersApart();
    UnwoundIsRewinding(files, c, n);
    ClearStep(files, c, n - 1);
    MissingIsNeither(files - {key}, c, n - 1);
  }

  lemma UnwoundIsRewinding(files: Files, c: Change, n: nat)
    requires Unwound(files, c, n) && Restorable(files, c)
    ensures Rewinding(files, c, n)
  {
  }

  lemma MissingIsNeither(files: Files, c: Change, i: nat)
    requires WellFormed(c) && i < |c.items| && c.items[i].hadOriginal && c.items[i].key !in files
    ensures !OldGeneration(files, c) && !NewGeneration(files, c)
  {
    assert !Reserved(c.items[i].key) && !SameAt(files, c.before, c.items[i].key);
  }

  /** For example, one round into the rollback of a bundle of two files: the next
      boot finalizes the first file new and the second one old. */
  lemma UnwindingCanMixGenerations(files: Files, after: Files)
    requires Installed(files, ChangeOf(TWO_OLD_FILES, TWO_NEW_FILES)) && FIRMWARE_WRITTEN_MARKER in files
    requires ParseJournal(files[JOURNAL_FILE]).Ok?
             && StoppedIn(files, after, ParseJournal(files[JOURNAL_FILE]).value, 1, false)
    ensures var c := ChangeOf(TWO_OLD_FILES, TWO_NEW_FILES);
            var next := AfterRecovery(after, true);
            !OldGeneration(next, c) && !NewGeneration(next, c)
  {
    hide Installed, AfterRecovery, OldGeneration, NewGeneration, WellFormed, Records, ChangeOf, StoppedIn, ParseJournal;
    TwoFiles();
    var c := ChangeOf(TWO_OLD_FILES, TWO_NEW_FILES);
    InterruptedUnwinding(files, after, c, 1, false);
    assert Changed(c, 0) && Changed(c, 1);
  }

  /** The loop of `rollback`, run to its end, from any restorable state. */
  lemma {:induction false} RestorableRounds(files: Files, c: Change, entries: seq<Entry>)
    requires WellFormed(c) && |entries| <= |c.items| && Matches(entries, c.items[..|entries|])
    requires Rewinding(files, c, |entries|)
    ensures Rewinding(EntriesRestored(files, entries), c, 0)
    decreases |entries|
  {
    hide Key, WellFormed, OthersKept, Undoable, Restored, JournalHeld;
    if entries != [] {
      var n := |entries| - 1;
      var last := entries[n];
      assert Key(last.path) == c.items[n].key && last.hadOriginal == c.items[n].hadOriginal;
      RestorableRound(files, c, n);
      assert c.items[..n] == c.items[..|entries|][..n];
      RestorableRounds(EntryRestored(files, Key(last.path), last.hadOriginal), c, entries[..n]);
    }
  }

  lemma RestorableRound(files: Files, c: Change, n: nat)
    requires WellFormed(c) && n < |c.items| && Rewinding(files, c, n + 1)
    ensures Rewinding(EntryRestored(files, c.items[n].key, c.items[n].hadOriginal), c, n)
  {
    hide WellFormed, OthersKept, Restored, JournalHeld;
    var key := c.items[n].key;
    if c.items[n].hadOriginal {
      if BackupPath(key) in files {
        ClearStep(files, c, n);
        RestoreStep(files - {key}, c, n);
      } else {
        SkipStep(files, c, n);
      }
    } else if StagePath(key) !in files {
      ClearStep(files, c, n);
    } else {
      SkipStep(files, c, n);
    }
  }
}
