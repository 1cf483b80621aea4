/** The bundle transaction itself: install, rollback, finalize. */
module BundleTransaction {
  import opened Text
  import opened Paths
  import opened Storage
  import opened Journal
  import opened Generation
  import AntiRollback

  datatype BundleContents = Inline(data: Bytes) | Copied(source: Path)

  datatype BundleFile = BundleFile(path: string, contents: BundleContents)

  datatype RecoveryAction = Nothing | Rollback | Finalize

  datatype InstallResult =
    | Done
    | Failed(error: Error)
    | RollbackFailed(error: Error, rollbackError: Error)

  /** What every `BundleFile` holds by construction, and what its makers see to. */
  predicate AcceptableFile(file: BundleFile) {
    && ValidRelativePath(file.path)
    && !Reserved(Key(file.path))
    && (file.contents.Copied? ==> !(TRANSACTION_DIR <= file.contents.source))
  }

  /** The contents a bundle file has when the device holds `files`. */
  function ContentsIn(files: Files, contents: BundleContents): Option<Bytes> {
    match contents
    case Inline(data) => Some(data)
    case Copied(source) => if source in files then Some(files[source]) else None
  }

  function EntriesOf(before: Files, bundle: seq<BundleFile>): (entries: seq<Entry>)
    ensures |entries| == |bundle|
    ensures forall i :: 0 <= i < |bundle| ==> entries[i] == Entry(Key(bundle[i].path) in before, bundle[i].path)
  {
    seq(|bundle|, i requires 0 <= i < |bundle| => Entry(Key(bundle[i].path) in before, bundle[i].path))
  }

  function ItemOf(before: Files, file: BundleFile): Item {
    Item(Key(file.path), Key(file.path) in before,
        match ContentsIn(before, file.contents) case Some(data) => data case None => "")
  }

  /** The change that installing `bundle` makes to a device holding `before`. */
  function ChangeOf(before: Files, bundle: seq<BundleFile>): (c: Change)
    ensures |c.items| == |bundle| && c.before == before
    ensures forall i :: 0 <= i < |bundle| ==> c.items[i] == ItemOf(before, bundle[i])
  {
    Change(before, seq(|bundle|, i requires 0 <= i < |bundle| => ItemOf(before, bundle[i])),
        JournalText(EntriesOf(before, bundle)))
  }

  /** No two bundle files name the same destination. */
  ghost predicate DistinctFiles(bundle: seq<BundleFile>) {
    forall i, j :: 0 <= i < j < |bundle| ==> Key(bundle[i].path) != Key(bundle[j].path)
  }

  lemma AcceptableKey(file: BundleFile)
    requires AcceptableFile(file)
    ensures ValidRelativePath(file.path) && Key(file.path) != [] && !Reserved(Key(file.path))
  {
    ValidPathStaysBelowRoot(file.path);
  }

  lemma EntriesJournalable(before: Files, bundle: seq<BundleFile>)
    requires DistinctFiles(bundle)
    requires forall i :: 0 <= i < |bundle| ==> AcceptableFile(bundle[i])
    ensures Distinct(EntriesOf(before, bundle))
    ensures forall e :: e in EntriesOf(before, bundle) ==> ValidRelativePath(e.path)
  {
    var entries := EntriesOf(before, bundle);
    forall i | 0 <= i < |entries|
      ensures ValidRelativePath(entries[i].path)
    {
      AcceptableKey(bundle[i]);
    }
  }

  lemma ChangeIsWellFormed(before: Files, bundle: seq<BundleFile>)
    requires bundle != [] && DistinctFiles(bundle)
    requires forall i :: 0 <= i < |bundle| ==> AcceptableFile(bundle[i])
    ensures WellFormed(ChangeOf(before, bundle))
  {
    var c := ChangeOf(before, bundle);
    forall i | 0 <= i < |bundle|
      ensures c.items[i].key != [] && !Reserved(c.items[i].key)
    {
      AcceptableKey(bundle[i]);
    }
  }

  lemma ChangeIsRecorded(before: Files, bundle: seq<BundleFile>)
    requires bundle != [] && DistinctFiles(bundle)
    requires forall i :: 0 <= i < |bundle| ==> AcceptableFile(bundle[i])
    ensures Records(ChangeOf(before, bundle).journal, ChangeOf(before, bundle).items)
  {
    EntriesJournalable(before, bundle);
    JournalRoundTrip(EntriesOf(before, bundle));
  }

  predicate TransactionExists(files: Files) {
    JOURNAL_FILE in files
  }

  function PhaseOf(files: Files): Phase {
    if FIRMWARE_WRITTEN_MARKER in files then FirmwareWritten
    else if FILES_ACTIVE_MARKER in files then FilesActive
    else Prepared
  }

  /** The part of `read_journal` that reads the lines one by one. */
  method ParseContents(contents: Bytes) returns (r: Result<seq<Entry>>)
    ensures r == ParseJournal(contents)
  {
    var lines := Lines(contents);
    if |lines| == 0 || lines[0] != JOURNAL_VERSION {
      return Err(InvalidData("unsupported bundle transaction journal"));
    }
    if |lines| == 1 || !("phase=" <= lines[1]) {
      return Err(InvalidData("bundle transaction journal has no phase"));
    }
    var phase := ParsePhase(lines[1][6..]);
    if phase.Err? {
      return Err(phase.error);
    }
    if phase.value != Prepared {
      return Err(InvalidData("bundle journal must begin in prepared phase"));
    }
    var entries := ParseLines(lines[2..]);
    if entries.Ok? && entries.value == [] {
      return Err(InvalidData("empty bundle transaction journal"));
    }
    return entries;
  }

  method ParseLines(lines: seq<string>) returns (r: Result<seq<Entry>>)
    ensures r == ParseEntries(lines, {})
  {
    var entries: seq<Entry>, unique: set<Path> := [], {};
    assert lines[0..] == lines;
    PrependedTwice([], [], ParseEntries(lines, {}));
    for i := 0 to |lines|
      invariant ParseEntries(lines, {}) == Prepended(entries, ParseEntries(lines[i..], unique))
    {
      assert lines[i..][1..] == lines[i + 1..];
      var parts := SplitOnce(lines[i], '\t');
      if parts.Err? {
        return Err(InvalidData("malformed bundle transaction entry"));
      }
      var (existed, path) := parts.value;
      if !ValidRelativePath(path) {
        return Err(InvalidInput("bundle destination"));
      }
      if Key(path) in unique {
        return Err(InvalidData("duplicate path in bundle transaction journal"));
      }
      var flag := ParseFlag(existed);
      if flag.Err? {
        return Err(flag.error);
      }
      unique := unique + {Key(path)};
      PrependedTwice(entries, [Entry(flag.value, path)], ParseEntries(lines[i + 1..], unique));
      entries := entries + [Entry(flag.value, path)];
    }
    assert lines[|lines|..] == [] && entries + [] == entries;
    return Ok(entries);
  }

  lemma PrependedTwice(entries: seq<Entry>, more: seq<Entry>, rest: Result<seq<Entry>>)
    ensures Prepended(entries, Prepended(more, rest)) == Prepended(entries + more, rest)
    ensures Prepended([], rest) == rest
  {
    if rest.Ok? {
      assert entries + (more + rest.value) == entries + more + rest.value;
      assert [] + rest.value == rest.value;
    }
  }

  function Prepended(entries: seq<Entry>, rest: Result<seq<Entry>>): Result<seq<Entry>> {
    match rest
    case Ok(more) => Ok(entries + more)
    case Err(e) => Err(e)
  }

  /** `read_journal`. */
  method ReadJournal(device: Device) returns (r: Result<(Phase, seq<Entry>)>)
    modifies device`clock, device`halted
    ensures r.Ok? <==>
              old(device.Works()) && JOURNAL_FILE in device.files && ParseJournal(device.files[JOURNAL_FILE]).Ok?
    ensures r.Ok? ==> r.value.0 == PhaseOf(device.files) && ParseJournal(device.files[JOURNAL_FILE]) == Ok(r.value.1)
    ensures device.clock == old(device.clock) + 1
    ensures device.halted == (old(device.halted) || device.plan(old(device.clock)).PowersOff())
  {
    var contents := device.Read(JOURNAL_FILE);
    if contents.None? {
      return Err(Io);
    }
    var entries := ParseContents(contents.value);
    if entries.Err? {
      return Err(entries.error);
    }
    return Ok((PhaseOf(device.files), entries.value));
  }

  /** `recovery_action`. */
  method ChooseAction(device: Device, selected: bool, valid: bool) returns (r: Result<RecoveryAction>)
    modifies device`clock, device`halted
    ensures r == Ok(Nothing) <==> !TransactionExists(device.files)
    ensures r == Ok(Nothing) ==> device.clock == old(device.clock) && device.halted == old(device.halted)
    ensures r == Ok(Finalize) ==> selected && valid && PhaseOf(device.files) == FirmwareWritten
    ensures r == Ok(Rollback) ==> !(selected && valid && PhaseOf(device.files) == FirmwareWritten)
    ensures TransactionExists(device.files) && ParseJournal(device.files[JOURNAL_FILE]).Err? ==> r.Err?
    ensures r.Err? && ParseJournal(device.files[JOURNAL_FILE]).Ok?
            ==> old(device.halted) || !device.QuietBetween(old(device.clock), device.clock)
    ensures r.Ok? && (r.value != Nothing || !old(device.halted)) ==> !device.halted
    ensures r.Err? ==> TransactionExists(device.files)
    ensures r.Ok? && r.value != Nothing ==> ParseJournal(device.files[JOURNAL_FILE]).Ok?
    ensures old(device.halted) ==> device.halted
    ensures old(device.clock) <= device.clock <= old(device.clock) + 1
  {
    if !TransactionExists(device.files) {
      return Ok(Nothing);
    }
    var journal := ReadJournal(device);
    if journal.Err? {
      return Err(journal.error);
    }
    if journal.value.0 == FirmwareWritten && selected && valid {
      return Ok(Finalize);
    }
    return Ok(Rollback);
  }

  /** A change that its journal records. */
  ghost predicate Sound(c: Change) {
    WellFormed(c) && Records(c.journal, c.items)
  }

  lemma SoundJournal(files: Files, c: Change)
    requires Sound(c) && JournalHeld(files, c)
    ensures ParseJournal(files[JOURNAL_FILE]).Ok? && Matches(ParseJournal(files[JOURNAL_FILE]).value, c.items)
  {
    hide ParseJournal;
  }

  lemma RestorableIsRecorded(files: Files, c: Change)
    requires Sound(c) && Restorable(files, c)
    ensures JOURNAL_FILE in files && ParseJournal(files[JOURNAL_FILE]).Ok?
    ensures Matches(ParseJournal(files[JOURNAL_FILE]).value, c.items)
  {
    hide ParseJournal;
    SoundJournal(files, c);
  }

  /** What one round of the loop of `rollback` makes of the files. */
  function EntryRestored(files: Files, key: Path, hadOriginal: bool): Files {
    if hadOriginal then
      (if BackupPath(key) in files then Moved(files - {key}, BackupPath(key), key) else files)
    else
      (if StagePath(key) !in files then files - {key} else files)
  }

  /** What the loop of `rollback` makes of the files: the entries one by one, the last one first. */
  function EntriesRestored(files: Files, entries: seq<Entry>): Files
    decreases |entries|
  {
    if entries == [] then files
    else
      var last := entries[|entries| - 1];
      EntriesRestored(EntryRestored(files, Key(last.path), last.hadOriginal), entries[..|entries| - 1])
  }

  /** The loop of `rollback` was cut off before it was through with the first `n`
      entries; `midway` when it had already cleared the last of these for its backup. */
  ghost predicate StoppedIn(files: Files, after: Files, entries: seq<Entry>, n: nat, midway: bool) {
    && n <= |entries|
    && var done := EntriesRestored(files, entries[n..]);
       if midway then n > 0 && entries[n - 1].hadOriginal && after == done - {Key(entries[n - 1].path)}
       else after == done
  }

  /** The states in which a rollback can be cut off: in its loop, or in the removal after it. */
  ghost predicate CutOff(files: Files, after: Files, entries: seq<Entry>) {
    || (exists n: nat, midway: bool :: StoppedIn(files, after, entries, n, midway))
    || TreeThinned(EntriesRestored(files, entries), after)
  }

  lemma {:induction false} OneMoreRestored(files: Files, entries: seq<Entry>)
    requires entries != []
    ensures EntriesRestored(files, entries)
            == EntryRestored(EntriesRestored(files, entries[1..]), Key(entries[0].path), entries[0].hadOriginal)
    decreases |entries|
  {
    hide EntryRestored, Key;
    if |entries| > 1 {
      var last := entries[|entries| - 1];
      var rest := entries[..|entries| - 1];
      assert entries[1..][..|entries| - 2] == rest[1..];
      OneMoreRestored(EntryRestored(files, Key(last.path), last.hadOriginal), rest);
    } else {
      assert entries[..0] == [] && entries[1..] == [];
    }
  }

  /** Bring back entry `n`, as one round of the loop of `rollback`. */
  method RestoreEntry(device: Device, key: Path, hadOriginal: bool, ghost c: Change, ghost n: nat) returns (ok: bool)
    modifies device`files, device`clock, device`halted, device`renameErrors
    ensures old(device.halted) ==> device.files == old(device.files) && device.halted
    ensures device.clock >= old(device.clock)
    ensures !ok ==> old(device.halted) || !device.QuietBetween(old(device.clock), device.clock)
    ensures FIRMWARE_WRITTEN_MARKER !in old(device.files) && !Reserved(key) ==> FIRMWARE_WRITTEN_MARKER !in device.files
    ensures ok && !old(device.halted) ==> !device.halted
    ensures ok ==> device.files == EntryRestored(old(device.files), key, hadOriginal)
    ensures !ok ==> device.files == old(device.files) || (hadOriginal && device.files == old(device.files) - {key})
    ensures WellFormed(c) && n < |c.items| && c.items[n].key == key && c.items[n].hadOriginal == hadOriginal
            && Rewinding(old(device.files), c, n + 1)
            ==> if ok then Rewinding(device.files, c, n) else Restorable(device.files, c)
  {
    MarkersApart();
    ghost var matches := WellFormed(c) && n < |c.items| && c.items[n].key == key
        && c.items[n].hadOriginal == hadOriginal && Rewinding(device.files, c, n + 1);
    if hadOriginal {
      if BackupPath(key) in device.files {
        if matches { ClearStep(device.files, c, n); }
        ok := device.RemoveIfPresent(key);
        if !ok { return; }
        ok := device.Attempt();
        if !ok { return; }
        if matches { RestoreStep(device.files, c, n); }
        ok := device.Rename(BackupPath(key), key);
        return;
      }
      if matches { SkipStep(device.files, c, n); }
    } else if StagePath(key) !in device.files {
      if matches { ClearStep(device.files, c, n); }
      ok := device.RemoveIfPresent(key);
      return;
    } else {
      if matches { SkipStep(device.files, c, n); }
    }
    ok := true;
  }

  /** The loop of `rollback`. */
  method RestoreAll(device: Device, entries: seq<Entry>, ghost c: Change) returns (ok: bool)
    requires !device.halted
    modifies device`files, device`clock, device`halted, device`renameErrors
    ensures device.clock >= old(device.clock)
    ensures !ok ==> !device.QuietBetween(old(device.clock), device.clock)
    ensures ok ==> !device.halted
    ensures ok ==> device.files == EntriesRestored(old(device.files), entries)
    ensures !ok ==> CutOff(old(device.files), device.files, entries)
    ensures WellFormed(c) && Matches(entries, c.items) && Restorable(old(device.files), c) ==>
              && Restorable(device.files, c)
              && (ok ==> Rewinding(device.files, c, 0))
              && (FIRMWARE_WRITTEN_MARKER !in old(device.files) ==> FIRMWARE_WRITTEN_MARKER !in device.files)
  {
    hide Restored, OthersKept, Undoable, Key, JournalHeld, EntryRestored;
    ghost var tracked := WellFormed(c) && Matches(entries, c.items) && Restorable(device.files, c);
    var i := |entries|;
    assert entries[i..] == [];
    while i > 0
      invariant 0 <= i <= |entries|
      invariant device.clock >= old(device.clock)
      invariant !device.halted
      invariant device.files == EntriesRestored(old(device.files), entries[i..])
      invariant tracked ==> Rewinding(device.files, c, i)
      invariant tracked && FIRMWARE_WRITTEN_MARKER !in old(device.files) ==> FIRMWARE_WRITTEN_MARKER !in device.files
    {
      assert entries[i - 1..][1..] == entries[i..];
      OneMoreRestored(old(device.files), entries[i - 1..]);
      i := i - 1;
      ghost var files := device.files;
      ok := RestoreEntry(device, Key(entries[i].path), entries[i].hadOriginal, c, i);
      if !ok {
        assert StoppedIn(old(device.files), device.files, entries, i + 1, device.files != files);
        return;
      }
    }
    assert entries[0..] == entries;
    ok := true;
  }

  lemma NothingRestored(files: Files)
    requires TransactionExists(files)
    ensures var journal := ParseJournal(files[JOURNAL_FILE]);
            journal.Ok? ==> CutOff(files, files, journal.value)
  {
    hide ParseJournal;
    if ParseJournal(files[JOURNAL_FILE]).Ok? {
      var entries := ParseJournal(files[JOURNAL_FILE]).value;
      assert entries[|entries|..] == [];
      assert StoppedIn(files, files, entries, |entries|, false);
    }
  }

  /** `rollback`. From any state an install or an earlier rollback can have been
      cut off in, it either restores the old generation and removes every trace of
      the transaction, or leaves a state from which it can be started again. */
  method RollBack(device: Device, ghost c: Change) returns (r: Result<()>)
    modifies device`files, device`clock, device`halted, device`renameErrors
    ensures old(device.halted) ==> device.files == old(device.files) && device.halted
    ensures device.clock >= old(device.clock)
    ensures Sound(c) && Restorable(old(device.files), c) ==> Recoverable(device.files, c)
    ensures Sound(c) && Restorable(old(device.files), c) && FIRMWARE_WRITTEN_MARKER !in old(device.files)
            ==> FIRMWARE_WRITTEN_MARKER !in device.files
    ensures Sound(c) && Restorable(old(device.files), c) && r.Ok?
            ==> OldGeneration(device.files, c) && !TreeExists(device.files, TRANSACTION_DIR)
    ensures Sound(c) && Restorable(old(device.files), c) && r.Err?
            ==> old(device.halted) || !device.QuietBetween(old(device.clock), device.clock)
    ensures r.Ok? && !old(device.halted) ==> !device.halted
    ensures !TransactionExists(old(device.files)) ==> r.Ok? && device.files == old(device.files)
    ensures TransactionExists(old(device.files)) && ParseJournal(old(device.files)[JOURNAL_FILE]).Err?
            ==> r.Err? && device.files == old(device.files)
    ensures r.Ok? && TransactionExists(old(device.files)) ==>
              var journal := ParseJournal(old(device.files)[JOURNAL_FILE]);
              && journal.Ok?
              && device.files == WithoutTree(EntriesRestored(old(device.files), journal.value), TRANSACTION_DIR)
    ensures r.Err? && TransactionExists(old(device.files)) ==>
              var journal := ParseJournal(old(device.files)[JOURNAL_FILE]);
              journal.Ok? ==> CutOff(old(device.files), device.files, journal.value)
  {
    hide WellFormed, Records, OthersKept, Undoable, Key, Rewinding, ParseJournal, Matches, EntryRestored;
    ghost var tracked := Sound(c) && Restorable(device.files, c);
    if tracked {
      SoundJournal(device.files, c);
    }
    if !TransactionExists(device.files) {
      return Ok(());
    }
    var journal := ReadJournal(device);
    if journal.Err? {
      NothingRestored(device.files);
      return Err(journal.error);
    }
    var restored := RestoreAll(device, journal.value.1, c);
    if !restored {
      return Err(Io);
    }
    ghost var rewound := device.files;
    var removed := device.RemoveTree(TRANSACTION_DIR);
    if tracked {
      CleanupInAnyOrder(rewound, device.files, c);
    }
    return if removed then Ok(()) else Err(Io);
  }

  /** `finalize`: nothing but the removal of the transaction directory. */
  method FinalizeTransaction(device: Device) returns (r: Result<()>)
    modifies device`files, device`clock, device`halted, device`renameErrors
    ensures r.Ok? ==> device.files == WithoutTree(old(device.files), TRANSACTION_DIR)
    ensures r.Err? ==> device.files == old(device.files)
                       || (device.plan(old(device.clock)).Failing? && device.files ==
                           PartlyWithoutTree(old(device.files), TRANSACTION_DIR,
                               device.plan(old(device.clock)).removed))
    ensures r.Err? ==> old(device.halted) || !device.QuietBetween(old(device.clock), device.clock)
    ensures r.Ok? && !old(device.halted) ==> !device.halted
    ensures old(device.clock) <= device.clock <= old(device.clock) + 1
    ensures old(device.halted) ==> device.files == old(device.files) && device.halted
  {
    if TreeExists(device.files, TRANSACTION_DIR) {
      var ok := device.RemoveTree(TRANSACTION_DIR);
      if !ok {
        return Err(Io);
      }
    } else {
      assert device.files == WithoutTree(device.files, TRANSACTION_DIR);
    }
    return Ok(());
  }

  /** `stage_contents`. */
  method StageContents(device: Device, path: Path, contents: BundleContents) returns (ok: bool)
    modifies device`files, device`clock, device`halted, device`renameErrors
    ensures ok ==> ContentsIn(old(device.files), contents).Some?
                   && device.files == old(device.files)[path := ContentsIn(old(device.files), contents).value]
    ensures forall key :: key != path ==> SameAt(old(device.files), device.files, key)
    ensures ok ==> !device.halted
    ensures !ok && ContentsIn(old(device.files), contents).Some? ==>
              old(device.halted) || !device.QuietBetween(old(device.clock), device.clock)
    ensures device.halted <==> old(device.halted) || !device.PoweredBetween(old(device.clock), device.clock)
    ensures device.clock >= old(device.clock)
    ensures old(device.halted) ==> !ok && device.halted
  {
    ok := device.Attempt();
    if !ok { return; }
    match contents {
      case Inline(data) =>
        ok := device.Write(path, data);
      case Copied(source) =>
        var data := device.Read(source);
        if data.None? { return false; }
        ok := device.Write(path, data.value);
        if !ok { return; }
        ok := device.Attempt();
    }
  }

  /** `write_journal`: the journal appears in one step, by the rename. */
  method WriteJournal(device: Device, entries: seq<Entry>) returns (ok: bool)
    requires JOURNAL_FILE !in device.files
    modifies device`files, device`clock, device`halted, device`renameErrors
    ensures ok <==> JOURNAL_FILE in device.files
    ensures ok ==> device.files[JOURNAL_FILE] == JournalText(entries) && !device.halted
    ensures !ok ==> old(device.halted) || !device.QuietBetween(old(device.clock), device.clock)
    ensures forall key :: key != JOURNAL_FILE && key != JOURNAL_TMP ==> SameAt(old(device.files), device.files, key)
    ensures device.halted <==> old(device.halted) || !device.PoweredBetween(old(device.clock), device.clock)
    ensures device.clock >= old(device.clock)
    ensures old(device.halted) ==> !ok && device.halted
  {
    MarkersApart();
    ok := device.Attempt();
    if !ok { return; }
    ok := device.Write(JOURNAL_TMP, JournalText(entries));
    if !ok { return; }
    ok := device.Rename(JOURNAL_TMP, JOURNAL_FILE);
  }

  /** The boundary callback and `write_phase`, for the two phases that have a marker. */
  method WritePhase(device: Device, marker: Path, phase: Phase, ghost c: Change) returns (ok: bool)
    requires WellFormed(c) && Installed(device.files, c) && Restorable(device.files, c)
    requires marker == FILES_ACTIVE_MARKER || marker == FIRMWARE_WRITTEN_MARKER
    modifies device`files, device`clock, device`halted, device`renameErrors
    ensures Installed(device.files, c) && Restorable(device.files, c)
    ensures ok ==> marker in device.files && device.files[marker] == phase.AsStr() && !device.halted
    ensures forall key :: key != marker ==> SameAt(old(device.files), device.files, key)
    ensures !ok ==> old(device.halted) || !device.QuietBetween(old(device.clock), device.clock)
    ensures marker == FILES_ACTIVE_MARKER ==> SameAt(old(device.files), device.files, FIRMWARE_WRITTEN_MARKER)
    ensures device.halted <==> old(device.halted) || !device.PoweredBetween(old(device.clock), device.clock)
    ensures device.clock >= old(device.clock)
    ensures old(device.halted) ==> !ok && device.halted && device.files == old(device.files)
  {
    MarkersApart();
    ok := device.Attempt();
    if !ok { return; }
    ok := device.Attempt();
    if !ok { return; }
    ok := device.Write(marker, phase.AsStr());
    MarkersAreLoose(old(device.files), device.files, c, marker);
    LooseFilesDoNotMatter(old(device.files), device.files, c, |c.items|);
  }

  /** The state while the bundle is staged: nothing but staged files in the
      transaction directory, and all other files untouched. */
  ghost predicate Staging(files: Files, before: Files, bundle: seq<BundleFile>, entries: seq<Entry>) {
    && |entries| <= |bundle|
    && (forall key :: !(TRANSACTION_DIR <= key) ==> SameAt(files, before, key))
    && (forall key :: key in files && TRANSACTION_DIR <= key ==> STAGE_DIR <= key)
    && (forall i :: 0 <= i < |entries| ==> StagedAt(files, before, bundle[i], entries[i]))
  }

  /** A staged file, and the journal entry noted for it. */
  ghost predicate StagedAt(files: Files, before: Files, file: BundleFile, entry: Entry) {
    var key := Key(file.path);
    && entry == Entry(key in before, file.path)
    && StagePath(key) in files
    && ContentsIn(before, file.contents) == Some(files[StagePath(key)])
  }

  lemma StagingStep(files: Files, before: Files, bundle: seq<BundleFile>, entries: seq<Entry>)
    requires Staging(files, before, bundle, entries) && |entries| < |bundle|
    requires AcceptableFile(bundle[|entries|])
    requires forall i :: 0 <= i < |entries| ==> Key(bundle[i].path) != Key(bundle[|entries|].path)
    requires ContentsIn(files, bundle[|entries|].contents).Some?
    ensures var key := Key(bundle[|entries|].path);
            var data := ContentsIn(files, bundle[|entries|].contents).value;
            Staging(files[StagePath(key) := data], before, bundle,
                entries + [Entry(key in files, bundle[|entries|].path)])
  {
    hide Key, ValidRelativePath;
    var n := |entries|;
    var file := bundle[n];
    AcceptableKey(file);
    var key := Key(file.path);
    var after := files[StagePath(key) := ContentsIn(files, file.contents).value];
    assert STAGE_DIR <= StagePath(key) && TRANSACTION_DIR <= StagePath(key);
    assert SameAt(files, before, key);
    assert file.contents.Copied? ==> SameAt(files, before, file.contents.source);
    assert ContentsIn(files, file.contents) == ContentsIn(before, file.contents);
    var longer := entries + [Entry(key in files, file.path)];
    forall k | !(TRANSACTION_DIR <= k)
      ensures SameAt(after, before, k)
    {
      assert SameAt(files, before, k);
    }
    forall i | 0 <= i < |longer|
      ensures StagedAt(after, before, bundle[i], longer[i])
    {
      if i < n {
        StillStaged(files, after, before, bundle[i], entries[i], key);
      }
    }
  }

  lemma StillStaged(files: Files, after: Files, before: Files, file: BundleFile, entry: Entry, key: Path)
    requires StagedAt(files, before, file, entry) && Key(file.path) != key
    requires forall k :: k != StagePath(key) ==> SameAt(files, after, k)
    ensures StagedAt(after, before, file, entry)
  {
    hide Key, ContentsIn;
    var staged := StagePath(Key(file.path));
    assert staged[2..] != StagePath(key)[2..];
    assert SameAt(files, after, staged);
  }

  lemma OutsideKept(files: Files, after: Files, before: Files)
    requires SameOutside(files, before) && SameOutside(files, after)
    ensures SameOutside(after, before)
  {
    forall key | !(TRANSACTION_DIR <= key)
      ensures SameAt(after, before, key)
    {
      assert SameAt(files, before, key) && SameAt(files, after, key);
    }
  }

  lemma StagedIsPending(files: Files, after: Files, c: Change, i: nat)
    requires i < |c.items| && c.items[i].key != [] && !Reserved(c.items[i].key)
    requires SameOutside(files, c.before)
    requires forall key :: key in files && TRANSACTION_DIR <= key ==> STAGE_DIR <= key
    requires StagePath(c.items[i].key) in files && files[StagePath(c.items[i].key)] == c.items[i].incoming
    requires forall key :: key != JOURNAL_FILE && key != JOURNAL_TMP ==> SameAt(files, after, key)
    ensures Pending(after, c, i)
  {
    var key := c.items[i].key;
    MarkersApart();
    assert SameAt(files, after, key) && SameAt(files, after, StagePath(key)) && SameAt(files, after, BackupPath(key));
    assert SameAt(files, c.before, key);
    assert TRANSACTION_DIR <= BackupPath(key) && STAGE_DIR[1] != BackupPath(key)[1];
  }

  /** Once the journal is there the install proper can begin. */
  lemma StagedIsInstalling(files: Files, after: Files, before: Files, bundle: seq<BundleFile>)
    requires bundle != [] && DistinctFiles(bundle)
    requires forall i :: 0 <= i < |bundle| ==> AcceptableFile(bundle[i])
    requires Staging(files, before, bundle, EntriesOf(before, bundle))
    requires JOURNAL_FILE in after && after[JOURNAL_FILE] == JournalText(EntriesOf(before, bundle))
    requires forall key :: key != JOURNAL_FILE && key != JOURNAL_TMP ==> SameAt(files, after, key)
    ensures Installing(after, ChangeOf(before, bundle), 0, false)
  {
    var c := ChangeOf(before, bundle);
    ChangeIsWellFormed(before, bundle);
    MarkersApart();
    forall i | 0 <= i < |bundle|
      ensures Pending(after, c, i)
    {
      ItemsApart(c, i, i);
      assert StagedAt(files, before, bundle[i], EntriesOf(before, bundle)[i]);
      StagedIsPending(files, after, c, i);
    }
    forall key | !Reserved(key)
      ensures SameAt(after, before, key)
    {
      assert SameAt(files, after, key) && SameAt(files, before, key);
    }
  }

  /** One round of the staging loop of `install`. */
  method StageFile(device: Device, ghost before: Files, bundle: seq<BundleFile>, entries: seq<Entry>)
    returns (r: Option<Entry>)
    requires |entries| < |bundle| && AcceptableFile(bundle[|entries|])
    requires forall i :: 0 <= i < |entries| ==> Key(bundle[i].path) != Key(bundle[|entries|].path)
    requires Staging(device.files, before, bundle, entries)
    modifies device`files, device`clock, device`halted, device`renameErrors
    ensures r.Some? ==> Staging(device.files, before, bundle, entries + [r.value]) && !device.halted
    ensures r.None? && ContentsIn(before, bundle[|entries|].contents).Some? ==>
              old(device.halted) || !device.QuietBetween(old(device.clock), device.clock)
    ensures SameOutside(device.files, before) && JOURNAL_FILE !in device.files
    ensures device.halted <==> old(device.halted) || !device.PoweredBetween(old(device.clock), device.clock)
    ensures device.clock >= old(device.clock)
    ensures old(device.halted) ==> r.None? && device.halted
  {
    var file := bundle[|entries|];
    var staged := StagePath(Key(file.path));
    StagingHasNoJournal(device.files, before, bundle, entries);
    AcceptableKey(file);
    assert file.contents.Copied? ==> SameAt(device.files, before, file.contents.source);
    assert TRANSACTION_DIR <= staged && staged != JOURNAL_FILE;
    var ok := device.Attempt();
    if !ok {
      return None;
    }
    ghost var files := device.files;
    ok := StageContents(device, staged, file.contents);
    OutsideKept(files, device.files, before);
    assert SameAt(files, device.files, JOURNAL_FILE);
    if !ok {
      return None;
    }
    StagingStep(files, before, bundle, entries);
    assert SameAt(files, device.files, Key(file.path));
    return Some(Entry(Key(file.path) in device.files, file.path));
  }

  /** Every file to be copied is there. */
  ghost predicate SourcesPresent(files: Files, bundle: seq<BundleFile>) {
    forall i :: 0 <= i < |bundle| ==> ContentsIn(files, bundle[i].contents).Some?
  }

  /** The first half of `install`: stage every file, then write the journal. */
  method Prepare(device: Device, bundle: seq<BundleFile>, ghost before: Files) returns (r: Result<()>)
    requires forall i :: 0 <= i < |bundle| ==> AcceptableFile(bundle[i])
    requires Staging(device.files, before, bundle, [])
    modifies device`files, device`clock, device`halted, device`renameErrors
    ensures SameOutside(device.files, before)
    ensures r.Ok? <==> TransactionExists(device.files)
    ensures r.Ok? ==> DistinctFiles(bundle)
    ensures r.Ok? ==> FIRMWARE_WRITTEN_MARKER !in device.files && FILES_ACTIVE_MARKER !in device.files
    ensures r.Ok? ==> device.files[JOURNAL_FILE] == ChangeOf(before, bundle).journal
    ensures r.Ok? && bundle != [] ==> Installing(device.files, ChangeOf(before, bundle), 0, false)
    ensures r.Ok? ==> SourcesPresent(before, bundle) && !device.halted
    ensures r == Err(InvalidInput("duplicate bundle destination")) ==> !DistinctFiles(bundle)
    ensures r.Err? && DistinctFiles(bundle) && SourcesPresent(before, bundle) ==>
              old(device.halted) || !device.QuietBetween(old(device.clock), device.clock)
    ensures device.halted <==> old(device.halted) || !device.PoweredBetween(old(device.clock), device.clock)
    ensures device.clock >= old(device.clock)
    ensures old(device.halted) ==> r.Err? && device.halted
  {
    hide Staging, ValidRelativePath, AcceptableFile, ContentsIn, Installing, SourcesPresent, DistinctFiles;
    var entries := StageAll(device, bundle, before);
    if entries.Err? {
      return Err(entries.error);
    }
    var ok := device.Attempt();
    if !ok {
      StagingHasNoJournal(device.files, before, bundle, entries.value);
      return Err(Io);
    }
    AllStaged(device.files, before, bundle, entries.value);
    StagingHasNoJournal(device.files, before, bundle, entries.value);
    ghost var staged := device.files;
    ok := WriteJournal(device, entries.value);
    JournalKeepsOthers(staged, device.files, before);
    if !ok {
      return Err(Io);
    }
    if bundle != [] {
      StagedIsInstalling(staged, device.files, before, bundle);
    }
    return Ok(());
  }

  /** The staging loop of `install`. */
  method StageAll(device: Device, bundle: seq<BundleFile>, ghost before: Files) returns (r: Result<seq<Entry>>)
    requires forall i :: 0 <= i < |bundle| ==> AcceptableFile(bundle[i])
    requires Staging(device.files, before, bundle, [])
    modifies device`files, device`clock, device`halted, device`renameErrors
    ensures r.Ok? ==> |r.value| == |bundle| && Staging(device.files, before, bundle, r.value) && DistinctFiles(bundle)
    ensures SameOutside(device.files, before) && JOURNAL_FILE !in device.files
    ensures r == Err(InvalidInput("duplicate bundle destination")) ==> !DistinctFiles(bundle)
    ensures r.Err? && DistinctFiles(bundle) && SourcesPresent(before, bundle) ==>
              old(device.halted) || !device.QuietBetween(old(device.clock), device.clock)
    ensures device.halted <==> old(device.halted) || !device.PoweredBetween(old(device.clock), device.clock)
    ensures device.clock >= old(device.clock)
    ensures old(device.halted) ==> device.halted
  {
    hide Staging, ValidRelativePath, AcceptableFile, ContentsIn, KeysOf, DistinctFiles, SameOutside, Key;
    NoKeys(bundle);
    StagingHasNoJournal(device.files, before, bundle, []);
    var entries: seq<Entry>, unique: set<Path> := [], {};
    for index := 0 to |bundle|
      invariant |entries| == index
      invariant unique == KeysOf(bundle[..index]) && DistinctFiles(bundle[..index])
      invariant Staging(device.files, before, bundle, entries)
      invariant SameOutside(device.files, before) && JOURNAL_FILE !in device.files
      invariant device.clock >= old(device.clock)
      invariant old(device.halted) || !device.halted
      invariant device.halted <==> old(device.halted) || !device.PoweredBetween(old(device.clock), device.clock)
    {
      OneMoreKey(bundle, index);
      if Key(bundle[index].path) in unique {
        return Err(InvalidInput("duplicate bundle destination"));
      }
      unique := unique + {Key(bundle[index].path)};
      var entry := StageFile(device, before, bundle, entries);
      if entry.None? {
        return Err(Io);
      }
      entries := entries + [entry.value];
    }
    assert bundle[..|bundle|] == bundle;
    return Ok(entries);
  }

  function KeysOf(bundle: seq<BundleFile>): set<Path> {
    set i | 0 <= i < |bundle| :: Key(bundle[i].path)
  }

  lemma NoKeys(bundle: seq<BundleFile>)
    ensures KeysOf(bundle[..0]) == {} && DistinctFiles(bundle[..0])
  {
  }

  lemma OneMoreKey(bundle: seq<BundleFile>, n: nat)
    requires n < |bundle| && DistinctFiles(bundle[..n])
    ensures KeysOf(bundle[..n + 1]) == KeysOf(bundle[..n]) + {Key(bundle[n].path)}
    ensures Key(bundle[n].path) in KeysOf(bundle[..n]) ==> !DistinctFiles(bundle)
    ensures Key(bundle[n].path) !in KeysOf(bundle[..n]) ==>
              && DistinctFiles(bundle[..n + 1])
              && forall i :: 0 <= i < n ==> Key(bundle[i].path) != Key(bundle[n].path)
  {
    hide Key;
    var part, longer := bundle[..n], bundle[..n + 1];
    assert forall i :: 0 <= i < n ==> part[i] == bundle[i] == longer[i];
    assert longer[n] == bundle[n];
    if Key(bundle[n].path) in KeysOf(part) {
      var i :| 0 <= i < n && Key(part[i].path) == Key(bundle[n].path);
      assert Key(bundle[i].path) == Key(bundle[n].path);
    } else {
      assert forall i :: 0 <= i < n ==> Key(part[i].path) in KeysOf(part);
    }
  }

  /** Outside the transaction directory, `files` are those of `before`. */
  ghost predicate SameOutside(files: Files, before: Files) {
    forall key :: !(TRANSACTION_DIR <= key) ==> SameAt(files, before, key)
  }

  lemma StagingHasNoJournal(files: Files, before: Files, bundle: seq<BundleFile>, entries: seq<Entry>)
    requires Staging(files, before, bundle, entries)
    ensures JOURNAL_FILE !in files && JOURNAL_TMP !in files
    ensures FIRMWARE_WRITTEN_MARKER !in files && FILES_ACTIVE_MARKER !in files
    ensures SameOutside(files, before)
  {
    MarkersApart();
    assert STAGE_DIR[1] != JOURNAL_FILE[1] && STAGE_DIR[1] != JOURNAL_TMP[1];
    assert STAGE_DIR[1] != FIRMWARE_WRITTEN_MARKER[1] && STAGE_DIR[1] != FILES_ACTIVE_MARKER[1];
  }

  lemma AllStaged(files: Files, before: Files, bundle: seq<BundleFile>, entries: seq<Entry>)
    requires Staging(files, before, bundle, entries) && |entries| == |bundle|
    ensures entries == EntriesOf(before, bundle)
    ensures SourcesPresent(before, bundle)
  {
    assert forall i :: 0 <= i < |bundle| ==> StagedAt(files, before, bundle[i], entries[i]);
  }

  lemma JournalKeepsOthers(files: Files, after: Files, before: Files)
    requires SameOutside(files, before)
    requires forall key :: key != JOURNAL_FILE && key != JOURNAL_TMP ==> SameAt(files, after, key)
    ensures SameOutside(after, before)
    ensures SameAt(files, after, FIRMWARE_WRITTEN_MARKER) && SameAt(files, after, FILES_ACTIVE_MARKER)
  {
    MarkersApart();
    OutsideKept(files, after, before);
  }

  /** Staged and journalled; a journal without entries cannot be read back. */
  ghost predicate Ready(files: Files, c: Change) {
    && JournalHeld(files, c)
    && if c.items == [] then ParseJournal(c.journal).Err? else Sound(c) && Installing(files, c, 0, false)
  }

  /** `read_journal` of the journal of `c`. */
  method ReadEntries(device: Device, ghost c: Change) returns (r: Result<seq<Entry>>)
    requires Ready(device.files, c)
    modifies device`clock, device`halted
    ensures r.Ok? ==> !device.halted && !old(device.halted) && c.items != [] && Matches(r.value, c.items)
    ensures r.Err? && c.items != [] ==> old(device.halted) || !device.QuietBetween(old(device.clock), device.clock)
    ensures device.clock == old(device.clock) + 1
    ensures device.halted == (old(device.halted) || device.plan(old(device.clock)).PowersOff())
  {
    var journal := ReadJournal(device);
    if journal.Err? {
      return Err(journal.error);
    }
    return Ok(journal.value.1);
  }

  /** Both phases are on record, each in its own marker. */
  ghost predicate PhasesRecorded(files: Files) {
    && FILES_ACTIVE_MARKER in files && files[FILES_ACTIVE_MARKER] == "files_active"
    && FIRMWARE_WRITTEN_MARKER in files && files[FIRMWARE_WRITTEN_MARKER] == "firmware_written"
  }

  /** Every bundle file is in its place, with the data given or what its source held,
      and every other file outside the reserved directories is as before. */
  ghost predicate InPlace(files: Files, before: Files, bundle: seq<BundleFile>) {
    && (forall i :: 0 <= i < |bundle| ==>
          && Key(bundle[i].path) in files
          && match bundle[i].contents
             case Inline(data) => files[Key(bundle[i].path)] == data
             case Copied(source) => source in before && files[Key(bundle[i].path)] == before[source])
    && (forall key :: !Reserved(key) && (forall i :: 0 <= i < |bundle| ==> Key(bundle[i].path) != key) ==>
          SameAt(files, before, key))
  }

  /** What the new generation of a bundle is, with its sources there. */
  lemma NewIsInPlace(files: Files, before: Files, bundle: seq<BundleFile>)
    requires NewGeneration(files, ChangeOf(before, bundle)) && SourcesPresent(before, bundle)
    ensures InPlace(files, before, bundle)
  {
    hide Key;
    var c := ChangeOf(before, bundle);
    forall i | 0 <= i < |bundle|
      ensures Key(bundle[i].path) in files && ContentsIn(before, bundle[i].contents) == Some(files[Key(bundle[i].path)])
    {
      assert c.items[i] == ItemOf(before, bundle[i]);
    }
    forall key | !Reserved(key) && (forall i :: 0 <= i < |bundle| ==> Key(bundle[i].path) != key)
      ensures SameAt(files, before, key)
    {
      assert !IsDestination(c, key);
    }
  }

  lemma InstalledIsInPlace(files: Files, before: Files, bundle: seq<BundleFile>)
    requires Installed(files, ChangeOf(before, bundle)) && SourcesPresent(before, bundle)
    ensures InPlace(files, before, bundle)
  {
    hide Key, ItemOf, SourcesPresent, InPlace;
    var c := ChangeOf(before, bundle);
    forall i | 0 <= i < |c.items|
      ensures c.items[i].key in files && files[c.items[i].key] == c.items[i].incoming
    {
      assert Activated(files, c, i);
    }
    NewIsInPlace(files, before, bundle);
  }

  /** The second half of `install` up to the boot selector: activate the files,
      write the firmware, and record each of the two phases. */
  method Activate(device: Device, image: Bytes, ghost c: Change) returns (ok: bool)
    requires Ready(device.files, c)
    requires FIRMWARE_WRITTEN_MARKER !in device.files
    modifies device`files, device`firmware, device`flashes, device`clock, device`halted, device`renameErrors
    ensures c.items != [] ==> Restorable(device.files, c)
    ensures c.items == [] ==> !ok && device.files == old(device.files) && device.flashes == old(device.flashes)
    ensures FlashedOnce(old(device.flashes), device.flashes, c, image)
    ensures device.flashes == old(device.flashes) ==> device.firmware == old(device.firmware) && !ok
    ensures FIRMWARE_WRITTEN_MARKER in device.files ==> Installed(device.files, c) && device.firmware == image
    ensures ok ==> FIRMWARE_WRITTEN_MARKER in device.files && device.firmware == image && !device.halted
    ensures ok ==> PhasesRecorded(device.files)
    ensures !ok && c.items != [] ==> old(device.halted) || !device.QuietBetween(old(device.clock), device.clock)
    ensures device.halted <==> old(device.halted) || !device.PoweredBetween(old(device.clock), device.clock)
    ensures device.clock >= old(device.clock)
    ensures old(device.halted) ==> !ok && device.files == old(device.files) && device.halted
  {
    hide Installing, Restorable, WellFormed, Records, ParseJournal;
    if c.items != [] {
      InstallingIsRestorable(device.files, c, 0, false);
    }
    var entries := ReadEntries(device, c);
    if entries.Err? {
      return false;
    }
    ok := ActivateAll(device, entries.value, c);
    if !ok { return; }
    ok := WritePhase(device, FILES_ACTIVE_MARKER, FilesActive, c);
    if !ok { return; }
    ok := FlashAndRecord(device, image, c);
  }

  method FlashAndRecord(device: Device, image: Bytes, ghost c: Change) returns (ok: bool)
    requires WellFormed(c) && Installed(device.files, c) && Restorable(device.files, c)
    requires !device.halted && FIRMWARE_WRITTEN_MARKER !in device.files && FILES_ACTIVE_MARKER in device.files
    modifies device`files, device`firmware, device`flashes, device`clock, device`halted, device`renameErrors
    ensures Installed(device.files, c) && Restorable(device.files, c)
    ensures FIRMWARE_WRITTEN_MARKER in device.files ==> device.firmware == image
    ensures FlashedOnce(old(device.flashes), device.flashes, c, image)
    ensures device.flashes == old(device.flashes) ==> device.firmware == old(device.firmware) && !ok
    ensures ok ==> FIRMWARE_WRITTEN_MARKER in device.files && device.firmware == image && !device.halted
    ensures ok ==> device.files[FIRMWARE_WRITTEN_MARKER] == "firmware_written"
    ensures SameAt(old(device.files), device.files, FILES_ACTIVE_MARKER)
    ensures !ok ==> old(device.halted) || !device.QuietBetween(old(device.clock), device.clock)
    ensures device.halted <==> old(device.halted) || !device.PoweredBetween(old(device.clock), device.clock)
    ensures device.clock >= old(device.clock)
  {
    MarkersApart();
    ok := device.Attempt();
    if !ok { return; }
    ok := device.WriteFirmware(image);
    if !ok { return; }
    ok := WritePhase(device, FIRMWARE_WRITTEN_MARKER, FirmwareWritten, c);
    if !ok { return; }
    ok := device.Attempt();
  }

  /** The second half of `install`, up to and including the boot selector. */
  method Operate(device: Device, image: Bytes, candidate: u32, ghost c: Change) returns (r: Result<()>)
    requires Ready(device.files, c)
    requires FIRMWARE_WRITTEN_MARKER !in device.files
    modifies device
    ensures c.items != [] ==> Restorable(device.files, c)
    ensures c.items == [] ==> r.Err? && device.files == old(device.files) && device.flashes == old(device.flashes)
    ensures FlashedOnce(old(device.flashes), device.flashes, c, image)
    ensures device.flashes == old(device.flashes) ==> r.Err? && device.Boot() == old(device.Boot())
    ensures r.Err? ==> device.selected == old(device.selected)
    ensures FIRMWARE_WRITTEN_MARKER in device.files ==> Installed(device.files, c) && device.firmware == image
    ensures r.Ok? ==> PhasesRecorded(device.files)
    ensures r.Ok? ==> device.selected && !device.halted && device.selections != old(device.selections)
    ensures r.Err? && c.items != [] && AntiRollback.FloorOf(old(device.floor)) < candidate && !old(device.halted) ==>
              || !device.QuietBetween(old(device.clock), device.clock)
              || !device.StoresBetween(old(device.clock), device.clock)
    ensures device.selections != old(device.selections) ==>
              && device.selections == old(device.selections) + [Selection(candidate, candidate, image, device.files)]
              && FIRMWARE_WRITTEN_MARKER in device.files && device.firmware == image
              && AntiRollback.FloorOf(old(device.floor)) < AntiRollback.FloorOf(device.floor) == candidate
    ensures AntiRollback.FloorOf(old(device.floor)) <= AntiRollback.FloorOf(device.floor)
    ensures AntiRollback.SelectionsCovered(old(device.selections), AntiRollback.FloorOf(old(device.floor)))
            ==> AntiRollback.SelectionsCovered(device.selections, AntiRollback.FloorOf(device.floor))
    ensures device.halted <==> old(device.halted) || !device.PoweredBetween(old(device.clock), device.clock)
    ensures device.clock >= old(device.clock)
    ensures old(device.halted) ==> r.Err? && device.files == old(device.files) && device.halted
  {
    hide Installing, Restorable, Ready, AntiRollback.SelectionsCovered;
    var ok := Activate(device, image, c);
    if !ok {
      return Err(Io);
    }
    r := AntiRollback.AdvanceBeforeActivation(device, candidate);
  }

  method ActivateAll(device: Device, entries: seq<Entry>, ghost c: Change) returns (ok: bool)
    requires WellFormed(c) && Matches(entries, c.items)
    requires Installing(device.files, c, 0, false)
    requires FIRMWARE_WRITTEN_MARKER !in device.files
    modifies device`files, device`clock, device`halted, device`renameErrors
    ensures ok ==> Installed(device.files, c) && (old(device.halted) || !device.halted)
    ensures !ok ==> old(device.halted) || !device.QuietBetween(old(device.clock), device.clock)
    ensures Restorable(device.files, c)
    ensures FIRMWARE_WRITTEN_MARKER !in device.files
    ensures device.halted <==> old(device.halted) || !device.PoweredBetween(old(device.clock), device.clock)
    ensures device.clock >= old(device.clock)
    ensures old(device.halted) ==> !ok && device.halted && device.files == old(device.files)
  {
    hide Installing, Restorable;
    InstallingIsRestorable(device.files, c, 0, false);
    for index := 0 to |entries|
      invariant Installing(device.files, c, index, false) && Restorable(device.files, c)
      invariant FIRMWARE_WRITTEN_MARKER !in device.files
      invariant device.clock >= old(device.clock)
      invariant old(device.halted) || !device.halted
      invariant device.halted <==> old(device.halted) || !device.PoweredBetween(old(device.clock), device.clock)
      invariant old(device.halted) ==> index == 0 && device.halted && device.files == old(device.files)
    {
      ok := ActivateEntry(device, Key(entries[index].path), entries[index].hadOriginal, c, index);
      if !ok { return; }
    }
    ok := true;
  }

  /** One round of the loop of `install`: back the original up, put the new file in place. */
  method ActivateEntry(device: Device, key: Path, hadOriginal: bool, ghost c: Change, ghost n: nat) returns (ok: bool)
    requires WellFormed(c) && n < |c.items|
    requires key == c.items[n].key && hadOriginal == c.items[n].hadOriginal
    requires Installing(device.files, c, n, false)
    requires FIRMWARE_WRITTEN_MARKER !in device.files
    modifies device`files, device`clock, device`halted, device`renameErrors
    ensures ok ==> Installing(device.files, c, n + 1, false) && !device.halted
    ensures !ok ==> old(device.halted) || !device.QuietBetween(old(device.clock), device.clock)
    ensures Restorable(device.files, c)
    ensures FIRMWARE_WRITTEN_MARKER !in device.files
    ensures device.halted <==> old(device.halted) || !device.PoweredBetween(old(device.clock), device.clock)
    ensures device.clock >= old(device.clock)
    ensures old(device.halted) ==> !ok && device.halted && device.files == old(device.files)
  {
    hide Installing, Restorable, WellFormed;
    InstallingIsRestorable(device.files, c, n, false);
    if hadOriginal {
      BackupStep(device.files, c, n);
      MarkersStay(device.files, c, n);
      InstallingIsRestorable(Moved(device.files, key, BackupPath(key)), c, n, true);
      ok := MoveFile(device, key, BackupPath(key));
      if !ok { return; }
    }
    ActivateStep(device.files, c, n, hadOriginal);
    MarkersStay(device.files, c, n);
    InstallingIsRestorable(Moved(device.files, StagePath(key), key), c, n + 1, false);
    ok := MoveFile(device, StagePath(key), key);
  }

  /** The boundary callback, the parent directory, and the rename. */
  method MoveFile(device: Device, source: Path, target: Path) returns (ok: bool)
    requires source in device.files
    modifies device`files, device`clock, device`halted, device`renameErrors
    ensures device.files == if ok then Moved(old(device.files), source, target) else old(device.files)
    ensures ok ==> !device.halted
    ensures !ok ==> old(device.halted) || !device.QuietBetween(old(device.clock), device.clock)
    ensures device.halted <==> old(device.halted) || !device.PoweredBetween(old(device.clock), device.clock)
    ensures device.clock >= old(device.clock)
    ensures old(device.halted) ==> !ok && device.halted
  {
    ok := device.Attempt();
    if !ok { return; }
    ok := device.Attempt();
    if !ok { return; }
    ok := device.Rename(source, target);
  }

  /** Moving the files of an item does not make a marker. */
  lemma MarkersStay(files: Files, c: Change, n: nat)
    requires WellFormed(c) && n < |c.items| && FIRMWARE_WRITTEN_MARKER !in files
    ensures var key := c.items[n].key;
            && key != FIRMWARE_WRITTEN_MARKER
            && (key in files ==> FIRMWARE_WRITTEN_MARKER !in Moved(files, key, BackupPath(key)))
            && (StagePath(key) in files ==> FIRMWARE_WRITTEN_MARKER !in Moved(files, StagePath(key), key))
  {
    ItemsApart(c, n, n);
    MarkersApart();
  }

  /** The start of `install`: clear what an interrupted cleanup left, make the directories. */
  method OpenTransaction(device: Device, bundle: seq<BundleFile>) returns (ok: bool)
    requires !TransactionExists(device.files)
    modifies device`files, device`clock, device`halted, device`renameErrors
    ensures SameOutside(device.files, old(device.files)) && !TransactionExists(device.files)
    ensures ok ==> Staging(device.files, old(device.files), bundle, []) && !device.halted
    ensures !ok ==> old(device.halted) || !device.QuietBetween(old(device.clock), device.clock)
    ensures device.halted <==> old(device.halted) || !device.PoweredBetween(old(device.clock), device.clock)
    ensures device.clock >= old(device.clock)
    ensures old(device.halted) ==> device.halted
  {
    if TreeExists(device.files, TRANSACTION_DIR) {
      ok := device.RemoveTree(TRANSACTION_DIR);
      if !ok { return; }
    }
    ok := device.Attempt();
    if !ok { return; }
    ok := device.Attempt();
  }

  lemma PreparedIsReady(files: Files, before: Files, bundle: seq<BundleFile>)
    requires DistinctFiles(bundle)
    requires forall i :: 0 <= i < |bundle| ==> AcceptableFile(bundle[i])
    requires JOURNAL_FILE in files && files[JOURNAL_FILE] == ChangeOf(before, bundle).journal
    requires bundle != [] ==> Installing(files, ChangeOf(before, bundle), 0, false)
    ensures Ready(files, ChangeOf(before, bundle))
  {
    if bundle == [] {
      JournalRoundTrip([]);
      assert EntriesOf(before, bundle) == [];
    } else {
      ChangeIsWellFormed(before, bundle);
      ChangeIsRecorded(before, bundle);
    }
  }

  /** The boot selector was not called, or once, last of all: with the firmware
      written, every destination new, every original in its backup and the
      floor raised to the version it was called for. */
  ghost predicate SelectorCalledLast(before: seq<Selection>, after: seq<Selection>, c: Change, image: Bytes,
                                     candidate: u32) {
    || after == before
    || (&& |after| == |before| + 1 && after[..|before|] == before
        && var s := after[|before|];
           && s.version == candidate == s.floor
           && s.firmware == image
           && Installed(s.files, c) && Restorable(s.files, c)
           && PhaseOf(s.files) == FirmwareWritten)
  }

  /** The firmware was not written, or once: with every destination new, every
      original in its backup and the first marker there, but not yet the second. */
  ghost predicate FlashedOnce(before: seq<Flash>, after: seq<Flash>, c: Change, image: Bytes) {
    || after == before
    || (&& |after| == |before| + 1 && after[..|before|] == before
        && var f := after[|before|];
           && f.image == image
           && Installed(f.files, c) && Restorable(f.files, c)
           && FILES_ACTIVE_MARKER in f.files && FIRMWARE_WRITTEN_MARKER !in f.files)
  }

  /** How an install went: from which tick on it was undoing what it had done, what
      it had made of the files by then, and whether the power had already failed. */
  datatype Unwinding = Unwinding(since: nat, from: Files, afterPowerLoss: bool)

  /** A rollback begun with everything installed and the firmware marker there, as
      happens when the boot selector fails, was cut off with the marker still there. */
  ghost predicate CutOffWithMarker(from: Files, files: Files, c: Change) {
    && Installed(from, c) && FIRMWARE_WRITTEN_MARKER in from
    && ParseJournal(from[JOURNAL_FILE]).Ok?
    && CutOff(from, files, ParseJournal(from[JOURNAL_FILE]).value)
  }

  /** The end of `install`: operate, and roll back when that fails. */
  method OperateOrRollBack(device: Device, image: Bytes, candidate: u32, ghost c: Change)
    returns (r: InstallResult, ghost unwinding: Unwinding)
    requires Ready(device.files, c)
    requires FIRMWARE_WRITTEN_MARKER !in device.files
    modifies device
    ensures r.Done? ==> PhasesRecorded(device.files)
    ensures r.Done? ==> c.items != [] && Installed(device.files, c) && FIRMWARE_WRITTEN_MARKER in device.files
    ensures r.Done? ==>
              device.selected && device.firmware == image && !device.halted
              && device.selections != old(device.selections)
    ensures r.Failed? ==> c.items != [] && OldGeneration(device.files, c) && !TreeExists(device.files, TRANSACTION_DIR)
    ensures r.RollbackFailed? && c.items != [] ==> Recoverable(device.files, c)
    ensures r.RollbackFailed? && c.items != [] && unwinding.afterPowerLoss && FIRMWARE_WRITTEN_MARKER in device.files
            ==> Installed(device.files, c)
    ensures r.RollbackFailed? && c.items != [] && !unwinding.afterPowerLoss
            ==> !device.QuietBetween(unwinding.since, device.clock)
    ensures r.RollbackFailed? && c.items != [] && FIRMWARE_WRITTEN_MARKER in device.files
            ==> CutOffWithMarker(unwinding.from, device.files, c) && device.firmware == image
    ensures unwinding.afterPowerLoss
            <==> old(device.halted) || !device.PoweredBetween(old(device.clock), unwinding.since)
    ensures c.items == [] ==>
              r.RollbackFailed? && device.files == old(device.files) && device.flashes == old(device.flashes)
    ensures FlashedOnce(old(device.flashes), device.flashes, c, image)
    ensures device.flashes == old(device.flashes) ==> !r.Done? && device.Boot() == old(device.Boot())
    ensures !r.Done? ==> device.selected == old(device.selected)
    ensures JOURNAL_FILE in unwinding.from
    ensures !r.Done? && c.items != [] && AntiRollback.FloorOf(old(device.floor)) < candidate && !old(device.halted) ==>
              || !device.QuietBetween(old(device.clock), unwinding.since)
              || !device.StoresBetween(old(device.clock), unwinding.since)
    ensures old(device.clock) <= unwinding.since <= device.clock
    ensures r.Done? ==> AntiRollback.FloorOf(old(device.floor)) < candidate
    ensures SelectorCalledLast(old(device.selections), device.selections, c, image, candidate)
    ensures AntiRollback.FloorOf(old(device.floor)) <= AntiRollback.FloorOf(device.floor)
    ensures device.selections != old(device.selections) ==> AntiRollback.FloorOf(device.floor) == candidate
    ensures device.clock >= old(device.clock)
  {
    hide Installing, Restorable, OldGeneration, OthersKept, Records, ParseJournal, WellFormed;
    var operated := Operate(device, image, candidate, c);
    unwinding := Unwinding(device.clock, device.files, device.halted);
    if c.items != [] {
      RestorableIsRecorded(device.files, c);
    }
    if operated.Ok? {
      return Done, unwinding;
    }
    var rolledBack := RollBack(device, c);
    if rolledBack.Err? {
      return RollbackFailed(operated.error, rolledBack.error), unwinding;
    }
    return Failed(operated.error), unwinding;
  }

  /** What an install needs of its caller and of the device in order to succeed. */
  ghost predicate Installable(files: Files, bundle: seq<BundleFile>, floor: Option<u32>, candidate: u32) {
    && !TransactionExists(files)
    && bundle != [] && DistinctFiles(bundle) && SourcesPresent(files, bundle)
    && AntiRollback.FloorOf(floor) < candidate
  }

  lemma NothingToStage(files: Files)
    ensures DistinctFiles([]) && SourcesPresent(files, [])
  {
  }

  /** Two operations fail, or the power does. */
  ghost predicate FaultsTwice(plan: nat -> Fault, since: nat, until: nat) {
    exists t, u ::
      since <= t <= u < until && plan(t).Failing? && plan(u).Failing? && (t < u || plan(t).powerLoss)
  }

  lemma FaultBeforeAndAfter(device: Device, since: nat, middle: nat, until: nat)
    requires since <= middle <= until && !device.QuietBetween(since, middle)
    requires !device.PoweredBetween(since, middle) || !device.QuietBetween(middle, until)
    ensures FaultsTwice(device.plan, since, until)
  {
    if !device.PoweredBetween(since, middle) {
      var t :| since <= t < middle && device.plan(t).PowersOff();
    } else {
      var t :| since <= t < middle && !device.plan(t).Fine?;
      var u :| middle <= u < until && !device.plan(u).Fine?;
    }
  }

  lemma NotBooted(flashes: seq<Flash>, selections: seq<Selection>, c: Change, image: Bytes, candidate: u32)
    ensures FlashedOnce(flashes, flashes, c, image) && SelectorCalledLast(selections, selections, c, image, candidate)
  {
  }

  /** `install`. Whatever fails, and wherever the power is lost, the files are left
      in a state that recovery resolves to the old generation, or, once the
      firmware marker is there, to the new one. */
  method Install(device: Device, bundle: seq<BundleFile>, image: Bytes, candidate: u32)
    returns (r: InstallResult, ghost unwinding: Unwinding)
    requires forall i :: 0 <= i < |bundle| ==> AcceptableFile(bundle[i])
    modifies device
    // an unfinished transaction is left alone
    ensures TransactionExists(old(device.files)) ==>
              r == Failed(AlreadyExists) && device.files == old(device.files) && device.Boot() == old(device.Boot())
              && device.clock == old(device.clock) && device.flashes == old(device.flashes)
    // the firmware is written last but for the selector, over the new files, and nothing else of
    // what decides the next boot changes before that
    ensures FlashedOnce(old(device.flashes), device.flashes, ChangeOf(old(device.files), bundle), image)
    ensures device.flashes == old(device.flashes) ==> !r.Done? && device.Boot() == old(device.Boot())
    ensures bundle == [] || !DistinctFiles(bundle) || !SourcesPresent(old(device.files), bundle) ==>
              device.flashes == old(device.flashes)
    ensures JOURNAL_FILE !in unwinding.from ==> device.flashes == old(device.flashes)
    ensures !r.Done? ==> device.selected == old(device.selected)
    // success: everything new, everything old kept in the backup, the selector called last
    ensures r.Done? ==>
              bundle != [] && DistinctFiles(bundle) && Installed(device.files, ChangeOf(old(device.files), bundle))
    ensures r.Done? ==>
              PhaseOf(device.files) == FirmwareWritten && device.selected && device.firmware == image && !device.halted
    ensures r.Done? ==> PhasesRecorded(device.files) && InPlace(device.files, old(device.files), bundle)
    // nothing but a fault keeps a well-formed bundle with a newer version from being installed
    ensures r.Done? ==> Installable(old(device.files), bundle, old(device.floor), candidate)
    ensures !r.Done? && Installable(old(device.files), bundle, old(device.floor), candidate) && !old(device.halted) ==>
              || !device.QuietBetween(old(device.clock), device.clock)
              || !device.StoresBetween(old(device.clock), device.clock)
    // failure with a completed rollback: the old generation, and no journal
    ensures r.Failed? && !TransactionExists(old(device.files)) ==>
              OldGeneration(device.files, ChangeOf(old(device.files), bundle)) && !TransactionExists(device.files)
    // failure in the rollback too: recovery can take over
    ensures r.RollbackFailed? && bundle != [] ==>
              DistinctFiles(bundle) && Recoverable(device.files, ChangeOf(old(device.files), bundle))
    ensures r.RollbackFailed? && bundle != [] && unwinding.afterPowerLoss && FIRMWARE_WRITTEN_MARKER in device.files ==>
              Installed(device.files, ChangeOf(old(device.files), bundle))
    ensures r.RollbackFailed? && bundle != [] && FIRMWARE_WRITTEN_MARKER in device.files ==>
              CutOffWithMarker(unwinding.from, device.files, ChangeOf(old(device.files), bundle))
              && device.firmware == image
    ensures unwinding.afterPowerLoss
            <==> old(device.halted) || !device.PoweredBetween(old(device.clock), unwinding.since)
    ensures old(device.clock) <= unwinding.since <= device.clock
    // a rollback is begun because of a fault, and fails because of another, or of a loss of power
    ensures r.RollbackFailed? && bundle != []
            && AntiRollback.FloorOf(old(device.floor)) < candidate && !old(device.halted) ==>
              || !device.QuietBetween(old(device.clock), unwinding.since)
              || !device.StoresBetween(old(device.clock), unwinding.since)
    ensures r.RollbackFailed? && Installable(old(device.files), bundle, old(device.floor), candidate)
            && !old(device.halted) && device.StoresBetween(old(device.clock), device.clock) ==>
              FaultsTwice(device.plan, old(device.clock), device.clock)
    // when nothing strikes the undoing itself it succeeds and leaves no trace
    ensures !r.Done? && !TransactionExists(old(device.files)) && bundle != [] && !unwinding.afterPowerLoss
            && device.QuietBetween(unwinding.since, device.clock) ==>
              r.Failed? && !TreeExists(device.files, TRANSACTION_DIR)
    // an empty bundle leaves a journal that nothing can read back, unless a fault keeps it from being written
    ensures bundle == [] && !TransactionExists(old(device.files)) && !old(device.halted)
            && device.QuietBetween(old(device.clock), device.clock) ==>
              r.RollbackFailed? && TransactionExists(device.files)
    ensures bundle == [] && !TransactionExists(old(device.files)) ==>
              r.Failed? || (TransactionExists(device.files) && ParseJournal(device.files[JOURNAL_FILE]).Err?)
    ensures var c := ChangeOf(old(device.files), bundle);
            SelectorCalledLast(old(device.selections), device.selections, c, image, candidate)
    ensures r.Done? ==> device.selections != old(device.selections)
    ensures old(device.clock) <= device.clock
    // the floor is raised before the selector runs, and stays raised
    ensures AntiRollback.FloorOf(old(device.floor)) <= AntiRollback.FloorOf(device.floor)
    ensures device.selections != old(device.selections) ==> AntiRollback.FloorOf(device.floor) == candidate
  {
    hide Installing, Restorable, Records, WellFormed, Staging, DistinctFiles, ContentsIn, Key, SourcesPresent,
      Recoverable, CutOffWithMarker, Ready, ItemOf, AcceptableFile, FlashedOnce, SelectorCalledLast, Installed, InPlace,
      PhasesRecorded;
    NotBooted(device.flashes, device.selections, ChangeOf(device.files, bundle), image, candidate);
    ghost var began, floor := device.clock, device.floor;
    NothingToStage(device.files);
    unwinding := Unwinding(device.clock, device.files, device.halted);
    if TransactionExists(device.files) {
      return Failed(AlreadyExists), unwinding;
    }
    ghost var before := device.files;
    ghost var c := ChangeOf(before, bundle);
    var ok := OpenTransaction(device, bundle);
    if !ok {
      return Failed(Io), unwinding;
    }
    var prepared := Prepare(device, bundle, before);
    if prepared.Err? {
      unwinding := Unwinding(device.clock, device.files, device.halted);
      ghost var staged := device.files;
      var _ := device.RemoveTree(TRANSACTION_DIR);
      OutsideKept(staged, device.files, before);
      return Failed(prepared.error), unwinding;
    }
    PreparedIsReady(device.files, before, bundle);
    r, unwinding := OperateOrRollBack(device, image, candidate, c);
    if r.Done? {
      InstalledIsInPlace(device.files, before, bundle);
    }
    if r.RollbackFailed? && Installable(before, bundle, floor, candidate) && !old(device.halted)
       && device.StoresBetween(began, device.clock) {
      FaultBeforeAndAfter(device, began, unwinding.since, device.clock);
    }
  }
}
