/** Whole runs: an install that can be cut off anywhere, then any number of boots
    of Recovery, each of which can be cut off as well. */
module Lifecycle {
  import opened Text
  import opened Paths
  import opened Storage
  import opened Journal
  import opened Generation
  import opened BundleTransaction
  import opened Recovery
  import opened FinalizeOrder
  import AntiRollback

  /** What a run went through: how the install undid its work, the files and the
      tick it left to the first boot, and the tick the last boot began at. */
  datatype Trace = Trace(unwinding: Unwinding, left: Files, booted: nat, last: nat)

  /** The boot selector failed, the power went in the rollback that followed, and
      as both flags are true the next boot takes what it finds for the new generation. */
  ghost predicate CaughtUnwinding(r: InstallResult, trace: Trace, confirmed: bool) {
    confirmed && r.RollbackFailed? && !trace.unwinding.afterPowerLoss && FIRMWARE_WRITTEN_MARKER in trace.left
  }

  /** Where a rollback that began at `from` was cut off decides of which generation `files` are. */
  ghost predicate DecidedByUnwinding(files: Files, c: Change, from: Files, left: Files) {
    && CutOffWithMarker(from, left, c)
    && var entries := ParseJournal(from[JOURNAL_FILE]).value;
       && (forall n: nat, midway: bool :: StoppedIn(from, left, entries, n, midway) ==>
             && n <= |c.items|
             && (OldGeneration(files, c) || NewGeneration(files, c) <==> HarmlessUnwinding(c, n, midway)))
       && (TreeThinned(EntriesRestored(from, entries), left) ==> OldGeneration(files, c))
  }

  /** What is asked of the tree removals of the boots: that they take the journal
      first, and that only when both flags are true and the install went so far as
      to leave the marker. */
  ghost predicate Orderly(plan: nat -> Fault, confirmed: bool, r: InstallResult, trace: Trace) {
    confirmed && !r.Failed? && FIRMWARE_WRITTEN_MARKER in trace.left ==> JournalGoesFirst(plan, trace.booted)
  }

  /** Every fault is a loss of power. */
  ghost predicate OnlyPowerLosses(plan: nat -> Fault, since: nat, until: nat) {
    forall t :: since <= t < until && plan(t).Failing? ==> plan(t).powerLoss
  }

  /** Nothing but losses of power: then none of them is in the rollback of a failed
      boot selector, since no boot selector fails. */
  lemma PowerLossesAreNotCaught(device: Device, r: InstallResult, trace: Trace, confirmed: bool, began: nat)
    requires OnlyPowerLosses(device.plan, began, trace.booted) && trace.unwinding.since <= trace.booted
    requires r.RollbackFailed? ==> !device.QuietBetween(began, trace.unwinding.since)
    requires !trace.unwinding.afterPowerLoss ==> device.PoweredBetween(began, trace.unwinding.since)
    ensures !CaughtUnwinding(r, trace, confirmed)
  {
  }

  /** An install, interrupted anywhere or not at all, and then any number of boots
      of Recovery, each one interruptible too, with the two flags held fixed.
      When the journal is gone, all destinations are old or all are new, every
      other file outside the two reserved directories is as it was, and all-new
      happens only with the firmware written and both flags true.

      Both flags true and the marker left ask for two things: a boot's tree removal
      must not take the firmware marker before the journal (see
      `InterruptedFinalize`), and when the power went in the rollback of a failed
      boot selector, how far that rollback had come decides. Where boots only roll
      back, their removals may go in any order. */
  method Run(device: Device, bundle: seq<BundleFile>, image: Bytes, candidate: u32, selected: bool, valid: bool,
             boots: nat)
    returns (r: InstallResult, recovered: bool, ghost trace: Trace)
    requires forall i :: 0 <= i < |bundle| ==> AcceptableFile(bundle[i])
    requires bundle != [] && !TransactionExists(device.files)
    modifies device
    ensures var c := ChangeOf(old(device.files), bundle);
            Orderly(device.plan, selected && valid, r, trace) && !TransactionExists(device.files) ==>
              if CaughtUnwinding(r, trace, selected && valid) then
                DecidedByUnwinding(device.files, c, trace.unwinding.from, trace.left)
              else
                || OldGeneration(device.files, c)
                || (NewGeneration(device.files, c) && selected && valid && FIRMWARE_WRITTEN_MARKER in trace.left)
    // nothing but a fault keeps the install from succeeding
    ensures r.Done? ==> Installable(old(device.files), bundle, old(device.floor), candidate)
    ensures !r.Done? && Installable(old(device.files), bundle, old(device.floor), candidate) && !old(device.halted) ==>
              || !device.QuietBetween(old(device.clock), trace.booted)
              || !device.StoresBetween(old(device.clock), trace.booted)
    // what the install left, and what it takes to be caught in the rollback of a failed selector
    ensures old(device.clock) <= trace.unwinding.since <= trace.booted <= trace.last <= device.clock
    ensures trace.unwinding.afterPowerLoss
            <==> old(device.halted) || !device.PoweredBetween(old(device.clock), trace.unwinding.since)
    ensures r.RollbackFailed? && AntiRollback.FloorOf(old(device.floor)) < candidate && !old(device.halted) ==>
              || !device.QuietBetween(old(device.clock), trace.unwinding.since)
              || !device.StoresBetween(old(device.clock), trace.unwinding.since)
    ensures !r.Failed? && FIRMWARE_WRITTEN_MARKER in trace.left ==> device.firmware == image
    ensures r.Failed? ==>
              OldGeneration(device.files, ChangeOf(old(device.files), bundle)) && !TransactionExists(device.files)
    // losses of power alone, however many, never leave a mixture
    ensures OnlyPowerLosses(device.plan, old(device.clock), device.clock) && !old(device.halted)
            && device.StoresBetween(old(device.clock), device.clock)
            && AntiRollback.FloorOf(old(device.floor)) < candidate
            && (selected && valid ==> JournalGoesFirst(device.plan, old(device.clock)))
            && !TransactionExists(device.files) ==>
              var c := ChangeOf(old(device.files), bundle);
              || OldGeneration(device.files, c)
              || (NewGeneration(device.files, c) && selected && valid && device.firmware == image)
    // a last boot without faults gets there
    ensures Orderly(device.plan, selected && valid, r, trace)
            && boots > 0 && device.QuietBetween(trace.last, device.clock) ==>
              recovered && !TransactionExists(device.files)
    ensures r.Done? && !(selected && valid) && boots > 0 && recovered ==>
              OldGeneration(device.files, ChangeOf(old(device.files), bundle))
    ensures r.Done? && selected && valid && Orderly(device.plan, true, r, trace) && boots > 0 && recovered ==>
              NewGeneration(device.files, ChangeOf(old(device.files), bundle))
  {
    hide Installing, Restorable, OldGeneration, NewGeneration, OthersKept, WellFormed, Records, DistinctFiles,
      AcceptableFile, SelectorCalledLast, CutOff, SameUserFiles, JournalGoesFirst, CutOffWithMarker, DecidedByUnwinding,
      ParseJournal, Between, Installable, FlashedOnce;
    ghost var c := ChangeOf(device.files, bundle);
    ghost var confirmed := selected && valid;
    ghost var unwinding, began, powered := Unwinding(0, map[], false), device.clock, !device.halted;
    ghost var newer := AntiRollback.FloorOf(device.floor) < candidate;
    r, unwinding := Install(device, bundle, image, candidate);
    ghost var left, booted := device.files, device.clock;
    ghost var distinct := DistinctFiles(bundle);
    if distinct {
      ChangeIsWellFormed(c.before, bundle);
      ChangeIsRecorded(c.before, bundle);
    }
    AfterInstall(left, c, r, confirmed, distinct);
    ghost var last;
    recovered, last := BootRepeatedly(device, selected, valid, boots, c, distinct, !r.Failed?);
    if r.Failed? {
      SameOld(left, device.files, c);
    }
    trace := Trace(unwinding, left, booted, last);
    if OnlyPowerLosses(device.plan, began, device.clock) && powered && newer
        && device.StoresBetween(began, device.clock) {
      PowerLossesAreNotCaught(device, r, trace, confirmed, began);
      if confirmed ==> JournalGoesFirst(device.plan, began) {
        FirstLater(device.plan, confirmed, began, booted);
      }
    }
    if Orderly(device.plan, confirmed, r, trace) && !TransactionExists(device.files) {
      AfterBoots(device.files, c, r, trace, confirmed, distinct);
    }
  }

  /** What any number of boots keep: without a transaction, or with one that was
      decided for what is in place, the files; otherwise that it can be undone. */
  ghost predicate Between(files: Files, left: Files, c: Change, confirmed: bool, distinct: bool, decided: bool) {
    if !distinct then !TransactionExists(files) && SameUserFiles(left, files)
    else if confirmed && decided && FIRMWARE_WRITTEN_MARKER in left then Decided(files, c) && SameUserFiles(left, files)
    else Reverting(files, c, confirmed)
  }

  method BootRepeatedly(device: Device, selected: bool, valid: bool, boots: nat, ghost c: Change, ghost distinct: bool,
                        ghost decided: bool)
    returns (recovered: bool, ghost last: nat)
    requires distinct ==> Sound(c)
    requires Between(device.files, device.files, c, selected && valid, distinct, decided)
    modifies device`files, device`clock, device`halted, device`renameErrors
    ensures old(device.clock) <= last <= device.clock
    ensures !TransactionExists(old(device.files)) ==>
              !TransactionExists(device.files) && SameUserFiles(old(device.files), device.files)
    ensures (selected && valid && decided && FIRMWARE_WRITTEN_MARKER in old(device.files) ==>
            JournalGoesFirst(device.plan, old(device.clock))) ==>
              && Between(device.files, old(device.files), c, selected && valid, distinct, decided)
              && (recovered ==> boots > 0 && !TransactionExists(device.files))
              && (boots > 0 && device.QuietBetween(last, device.clock) ==> recovered)
  {
    hide WellFormed, Records, OldGeneration, JournalGoesFirst, Recoverable, OthersKept, ParseJournal, AfterRecovery;
    recovered, last := false, device.clock;
    ghost var orderly :=
      selected && valid && decided && FIRMWARE_WRITTEN_MARKER in device.files ==>
        JournalGoesFirst(device.plan, device.clock);
    SameUserFilesAlready(device.files);
    for i := 0 to boots
      invariant old(device.clock) <= last <= device.clock
      invariant !TransactionExists(old(device.files)) ==>
                  !TransactionExists(device.files) && SameUserFiles(old(device.files), device.files)
      invariant orderly ==> Between(device.files, old(device.files), c, selected && valid, distinct, decided)
      invariant orderly && recovered ==> i > 0 && !TransactionExists(device.files)
      invariant orderly && i > 0 && device.QuietBetween(last, device.clock) ==> recovered
    {
      device.PowerOn();
      last := device.clock;
      ghost var files := device.files;
      if selected && valid && decided && FIRMWARE_WRITTEN_MARKER in old(device.files) && orderly {
        StillFirst(device.plan, old(device.clock), device.clock);
      }
      var outcome := RecoverInterruptedBundle(device, selected, valid, c);
      recovered := outcome.Ok?;
      UserFilesChain(old(device.files), files, device.files);
    }
  }

  lemma FirstLater(plan: nat -> Fault, confirmed: bool, since: nat, later: nat)
    requires since <= later && (confirmed ==> JournalGoesFirst(plan, since))
    ensures confirmed ==> JournalGoesFirst(plan, later)
  {
  }

  lemma StillFirst(plan: nat -> Fault, since: nat, later: nat)
    requires JournalGoesFirst(plan, since) && since <= later
    ensures JournalGoesFirst(plan, later)
  {
  }

  /** What an install leaves for the first boot to find. */
  lemma AfterInstall(files: Files, c: Change, r: InstallResult, confirmed: bool, distinct: bool)
    requires distinct ==> Sound(c)
    requires r.Done? ==> distinct && Installed(files, c) && FIRMWARE_WRITTEN_MARKER in files
    requires r.Failed? ==> OldGeneration(files, c) && !TransactionExists(files)
    requires r.RollbackFailed? ==> distinct && Recoverable(files, c)
    ensures Between(files, files, c, confirmed, distinct, !r.Failed?)
  {
    if r.Done? {
      InstallingIsRestorable(files, c, |c.items|, false);
    }
  }

  /** What that means once the journal is gone. */
  lemma AfterBoots(files: Files, c: Change, r: InstallResult, trace: Trace, confirmed: bool, distinct: bool)
    requires distinct ==> Sound(c)
    requires r.Done? ==> distinct && Installed(trace.left, c) && FIRMWARE_WRITTEN_MARKER in trace.left
    requires r.Failed? ==> OldGeneration(trace.left, c) && !TransactionExists(trace.left)
    requires r.RollbackFailed? ==> distinct
    requires r.RollbackFailed? && FIRMWARE_WRITTEN_MARKER in trace.left ==>
               CutOffWithMarker(trace.unwinding.from, trace.left, c)
    requires r.RollbackFailed? && trace.unwinding.afterPowerLoss && FIRMWARE_WRITTEN_MARKER in trace.left ==>
               Installed(trace.left, c)
    requires !TransactionExists(files) && Between(files, trace.left, c, confirmed, distinct, !r.Failed?)
    ensures CaughtUnwinding(r, trace, confirmed) ==> DecidedByUnwinding(files, c, trace.unwinding.from, trace.left)
    ensures !CaughtUnwinding(r, trace, confirmed) ==>
              OldGeneration(files, c) || (NewGeneration(files, c) && confirmed && FIRMWARE_WRITTEN_MARKER in trace.left)
    ensures r.Done? ==> if confirmed then NewGeneration(files, c) else OldGeneration(files, c)
  {
    hide Installing, OthersKept, WellFormed, Records, OldGeneration, NewGeneration, ParseJournal, CutOff, SameUserFiles,
      Restorable, DecidedByUnwinding;
    if !distinct {
      SameOld(trace.left, files, c);
    } else if confirmed && !r.Failed? && FIRMWARE_WRITTEN_MARKER in trace.left {
      GenerationOfUserFiles(trace.left, files, c);
      if CaughtUnwinding(r, trace, confirmed) {
        UnwindingDecides(files, c, trace.unwinding.from, trace.left);
      } else {
        InstalledIsNew(trace.left, c);
      }
    }
  }

  lemma SameUserFilesAlready(files: Files)
    ensures SameUserFiles(files, files)
  {
  }

  lemma SameOld(left: Files, files: Files, c: Change)
    requires SameUserFiles(left, files) && OldGeneration(left, c)
    ensures OldGeneration(files, c)
  {
    forall key | !Reserved(key)
      ensures SameAt(files, c.before, key)
    {
      assert SameAt(left, files, key) && SameAt(left, c.before, key);
    }
  }

  lemma UnwindingDecides(files: Files, c: Change, from: Files, left: Files)
    requires Sound(c) && CutOffWithMarker(from, left, c)
    requires OldGeneration(files, c) <==> OldGeneration(left, c)
    requires NewGeneration(files, c) <==> NewGeneration(left, c)
    ensures DecidedByUnwinding(files, c, from, left)
  {
    hide Installing, WellFormed, Records, OldGeneration, NewGeneration, ParseJournal, CutOff, StoppedIn, TreeThinned,
      HarmlessUnwinding;
    InstalledIsNew(from, c);
    var entries := ParseJournal(from[JOURNAL_FILE]).value;
    forall n: nat, midway: bool | StoppedIn(from, left, entries, n, midway)
      ensures n <= |c.items|
              && (OldGeneration(files, c) || NewGeneration(files, c) <==> HarmlessUnwinding(c, n, midway))
    {
      CutOffGeneration(from, left, c, n, midway);
    }
    if TreeThinned(EntriesRestored(from, entries), left) {
      CutOffInCleanup(from, left, c);
    }
  }

  /** An empty bundle, without any fault: the install and its rollback both fail, and
      so does every boot after it, since none can read the journal. */
  method EmptyBundle(device: Device, image: Bytes, candidate: u32, selected: bool, valid: bool, boots: nat)
    returns (r: InstallResult, recovered: bool)
    requires !device.halted && !TransactionExists(device.files) && forall t :: device.plan(t).Fine?
    modifies device
    ensures r.RollbackFailed? && TransactionExists(device.files) && !recovered
  {
    ghost var unwinding;
    r, unwinding := Install(device, [], image, candidate);
    recovered := false;
    for i := 0 to boots
      invariant TransactionExists(device.files) && ParseJournal(device.files[JOURNAL_FILE]).Err? && !recovered
    {
      device.PowerOn();
      var outcome := RecoverInterruptedBundle(device, selected, valid, ChangeOf(device.files, []));
      recovered := outcome.Ok?;
    }
  }
}
