/** What Recovery does at every boot with a transaction that a reset left behind. */
module Recovery {
  import opened Text
  import opened Paths
  import opened Storage
  import opened Journal
  import opened Generation
  import opened BundleTransaction

  /** The files outside the download directory are the same. */
  ghost predicate SameButDownloads(files: Files, after: Files) {
    forall key :: !(DOWNLOAD_DIR <= key) ==> SameAt(files, after, key)
  }

  lemma DownloadsChain(files: Files, middle: Files, after: Files)
    requires SameButDownloads(files, middle) && SameButDownloads(middle, after)
    ensures SameButDownloads(files, after)
  {
    forall key | !(DOWNLOAD_DIR <= key)
      ensures SameAt(files, after, key)
    {
      assert SameAt(files, middle, key) && SameAt(middle, after, key);
    }
  }

  /** Removing files below the download directory changes nothing that matters here. */
  lemma DownloadsAreLoose(files: Files, after: Files, c: Change)
    requires WellFormed(c)
    requires SameButDownloads(files, after)
    ensures SameButLoose(files, after, c)
    ensures SameAt(files, after, FIRMWARE_WRITTEN_MARKER)
  {
    assert |DOWNLOAD_DIR[0]| == 24 && |TRANSACTION_DIR[0]| == 27;
    assert JOURNAL_FILE[0] == TRANSACTION_DIR[0] && FIRMWARE_WRITTEN_MARKER[0] == TRANSACTION_DIR[0];
    forall i | 0 <= i < |c.items|
      ensures SameItem(files, after, c, i)
    {
    }
  }

  /** Between boots: still to be rolled back or rolled back, and not about to be finalized. */
  ghost predicate Reverting(files: Files, c: Change, confirmed: bool) {
    Recoverable(files, c) && (confirmed && JOURNAL_FILE in files ==> FIRMWARE_WRITTEN_MARKER !in files)
  }

  lemma DownloadsKeepState(files: Files, after: Files, c: Change, confirmed: bool)
    requires WellFormed(c)
    requires SameButDownloads(files, after)
    ensures Reverting(files, c, confirmed) ==> Reverting(after, c, confirmed)
    ensures Decided(files, c) ==> Decided(after, c)
  {
    DownloadsAreLoose(files, after, c);
    assert SameUserFiles(files, after);
    GenerationOfUserFiles(files, after, c);
    LooseFilesDoNotMatter(files, after, c, 0);
    assert SameAt(files, after, JOURNAL_FILE);
  }

  lemma DownloadsKeepUserFiles(files: Files, after: Files)
    requires SameButDownloads(files, after)
    ensures SameUserFiles(files, after)
    ensures TransactionExists(files) <==> TransactionExists(after)
  {
    assert |DOWNLOAD_DIR[0]| == 24 && |TRANSACTION_DIR[0]| == 27;
    assert SameAt(files, after, JOURNAL_FILE);
  }

  /** From this tick on a tree removal that is cut short never takes the firmware
      marker and leaves the journal. */
  ghost predicate JournalGoesFirst(plan: nat -> Fault, since: nat) {
    forall t :: t >= since && plan(t).Failing? && FIRMWARE_WRITTEN_MARKER in plan(t).removed ==>
        JOURNAL_FILE in plan(t).removed
  }

  lemma FinalizeKeepsDecided(files: Files, after: Files, c: Change)
    requires Decided(files, c) && TreeThinned(files, after)
    requires JOURNAL_FILE in after ==> FIRMWARE_WRITTEN_MARKER in after
    ensures Decided(after, c) && SameUserFiles(files, after)
  {
    assert SameAt(files, after, JOURNAL_FILE) || JOURNAL_FILE !in after;
  }

  /** What a boot makes of the files when nothing fails. */
  function AfterRecovery(files: Files, confirmed: bool): Files {
    if !TransactionExists(files) then files
    else
      match ParseJournal(files[JOURNAL_FILE])
      case Err(_) => files
      case Ok(entries) =>
        if confirmed && PhaseOf(files) == FirmwareWritten then WithoutTree(files, TRANSACTION_DIR)
        else WithoutTree(EntriesRestored(files, entries), TRANSACTION_DIR)
  }

  /** The part of `recover_interrupted_bundle` that deals with the transaction. */
  method Resolve(device: Device, selected: bool, valid: bool, ghost c: Change) returns (r: Result<()>)
    modifies device`files, device`clock, device`halted, device`renameErrors
    ensures device.clock >= old(device.clock)
    ensures r.Ok? && !old(device.halted) ==> !device.halted
    ensures r.Ok? ==> device.files == AfterRecovery(old(device.files), selected && valid)
    ensures Sound(c) && Reverting(old(device.files), c, selected && valid) ==>
              Reverting(device.files, c, selected && valid)
    ensures Sound(c) && selected && valid && Decided(old(device.files), c)
            && JournalGoesFirst(device.plan, old(device.clock))
            ==> Decided(device.files, c) && SameUserFiles(old(device.files), device.files)
    ensures Sound(c) && Resolvable(old(device.files), c, selected && valid) && r.Ok? ==>
              !TransactionExists(device.files)
    ensures Sound(c) && Resolvable(old(device.files), c, selected && valid) && r.Err?
            ==> old(device.halted) || !device.QuietBetween(old(device.clock), device.clock)
    ensures !TransactionExists(old(device.files)) ==>
              !TransactionExists(device.files) && SameUserFiles(old(device.files), device.files)
    ensures !TransactionExists(old(device.files)) && r.Err?
            ==> old(device.halted) || !device.QuietBetween(old(device.clock), device.clock)
    ensures TransactionExists(old(device.files)) && ParseJournal(old(device.files)[JOURNAL_FILE]).Err?
            ==> r.Err? && device.files == old(device.files)
  {
    hide Installing, Restorable, OldGeneration, NewGeneration, OthersKept, WellFormed, Records, ParseJournal;
    MarkersApart();
    ghost var since := device.clock;
    if Sound(c) && Resolvable(device.files, c, selected && valid) {
      ResolvableIsReadable(device.files, c, selected && valid);
    }
    var action := ChooseAction(device, selected, valid);
    if action.Err? {
      return Err(action.error);
    }
    match action.value {
      case Nothing =>
        return Ok(());
      case Rollback =>
        r := RollBack(device, c);
      case Finalize =>
        ghost var files := device.files;
        r := FinalizeTransaction(device);
        if Sound(c) && Decided(files, c) && JournalGoesFirst(device.plan, since) {
          FinalizeKeepsDecided(files, device.files, c);
        }
    }
  }

  /** The states that a boot can meet after an install whose journal is `c.journal`. */
  ghost predicate Resolvable(files: Files, c: Change, confirmed: bool) {
    Reverting(files, c, confirmed) || (confirmed && Decided(files, c))
  }

  lemma ResolvableIsReadable(files: Files, c: Change, confirmed: bool)
    requires Sound(c) && Resolvable(files, c, confirmed)
    ensures TransactionExists(files) ==> ParseJournal(files[JOURNAL_FILE]).Ok?
  {
    if TransactionExists(files) {
      SoundJournal(files, c);
    }
  }

  /** `recover_interrupted_bundle`: resolve the transaction, then drop the downloads. */
  method RecoverInterruptedBundle(device: Device, selected: bool, valid: bool, ghost c: Change) returns (r: Result<()>)
    modifies device`files, device`clock, device`halted, device`renameErrors
    ensures device.clock >= old(device.clock)
    ensures r.Ok? && !old(device.halted) ==> !device.halted
    ensures Sound(c) && Reverting(old(device.files), c, selected && valid) ==>
              Reverting(device.files, c, selected && valid)
    ensures Sound(c) && selected && valid && Decided(old(device.files), c)
            && JournalGoesFirst(device.plan, old(device.clock))
            ==> Decided(device.files, c) && SameUserFiles(old(device.files), device.files)
    ensures Sound(c) && Resolvable(old(device.files), c, selected && valid) && r.Ok?
            ==> !TransactionExists(device.files) && !TreeExists(device.files, DOWNLOAD_DIR)
    ensures Sound(c) && Resolvable(old(device.files), c, selected && valid) && r.Err?
            ==> old(device.halted) || !device.QuietBetween(old(device.clock), device.clock)
    ensures !TransactionExists(old(device.files)) ==>
              !TransactionExists(device.files) && SameUserFiles(old(device.files), device.files)
    ensures !TransactionExists(old(device.files)) && r.Err?
            ==> old(device.halted) || !device.QuietBetween(old(device.clock), device.clock)
    ensures TransactionExists(old(device.files)) && ParseJournal(old(device.files)[JOURNAL_FILE]).Err?
            ==> r.Err? && device.files == old(device.files)
  {
    hide Installing, Restorable, OldGeneration, OthersKept, WellFormed, Records, Reverting, Decided, Resolvable,
      AfterRecovery, ParseJournal;
    r := Resolve(device, selected, valid, c);
    if r.Err? {
      return;
    }
    if TreeExists(device.files, DOWNLOAD_DIR) {
      ghost var files := device.files;
      var ok := device.RemoveTree(DOWNLOAD_DIR);
      DownloadsKeepUserFiles(files, device.files);
      if Sound(c) {
        DownloadsKeepState(files, device.files, c, selected && valid);
      }
      if !ok {
        return Err(Io);
      }
    }
  }

  lemma InstalledIsNew(files: Files, c: Change)
    requires Installed(files, c)
    ensures NewGeneration(files, c) && JournalHeld(files, c)
  {
    forall i | 0 <= i < |c.items|
      ensures c.items[i].key in files && files[c.items[i].key] == c.items[i].incoming
    {
      assert Activated(files, c, i);
    }
  }
}
