/** Replacing the vault file, and recovering from a replacement that was cut short,
    on a device whose operations can fail and whose power can go at any point. */
module VaultStore {
  import opened Text
  import opened Paths
  import opened Storage

  const VAULT_PATH: Path := ["config", "vault.enc"]
  const VAULT_TEMP_PATH: Path := ["config", "vault.enc.tmp"]
  const VAULT_BACKUP_PATH: Path := ["config", "vault.enc.bak"]

  /** The envelope that recovery would leave as the vault. */
  function Kept(files: Files): Option<Bytes> {
    if VAULT_PATH in files then Some(files[VAULT_PATH])
    else if VAULT_BACKUP_PATH in files then Some(files[VAULT_BACKUP_PATH])
    else None
  }

  /** The state in which a save cannot lose anything: no lone backup. */
  predicate Settled(files: Files) {
    VAULT_PATH in files || VAULT_BACKUP_PATH !in files
  }

  lemma PathsDiffer()
    ensures VAULT_PATH != VAULT_TEMP_PATH && VAULT_PATH != VAULT_BACKUP_PATH && VAULT_TEMP_PATH != VAULT_BACKUP_PATH
  {
    assert |VAULT_PATH[1]| == 9 && |VAULT_TEMP_PATH[1]| == 13 && VAULT_TEMP_PATH[1][10] == 't'
           && VAULT_BACKUP_PATH[1][10] == 'b';
  }

  predicate SameFile(files: Files, after: Files, key: Path) {
    (key in files <==> key in after) && (key in files ==> files[key] == after[key])
  }

  /** Nothing but the vault's own three files differs. */
  ghost predicate OthersUntouched(files: Files, after: Files) {
    forall key :: key != VAULT_PATH && key != VAULT_TEMP_PATH && key != VAULT_BACKUP_PATH ==>
        SameFile(files, after, key)
  }

  predicate IsVaultFile(path: Path) {
    path == VAULT_PATH || path == VAULT_TEMP_PATH || path == VAULT_BACKUP_PATH
  }

  lemma RemovedUntouched(files: Files, after: Files, path: Path)
    requires IsVaultFile(path) && (after == files || after == files - {path})
    ensures OthersUntouched(files, after)
  {
  }

  lemma MovedUntouched(files: Files, after: Files, source: Path, target: Path)
    requires IsVaultFile(source) && IsVaultFile(target)
    requires after == files || (source in files && after == Moved(files, source, target))
    ensures OthersUntouched(files, after)
  {
  }

  lemma WrittenUntouched(files: Files, after: Files, path: Path, data: Bytes, torn: nat)
    requires IsVaultFile(path)
             && (after == files || after == files[path := data] || after == Torn(files, path, data, torn))
    ensures OthersUntouched(files, after)
  {
  }

  lemma UntouchedChain(files: Files, middle: Files, after: Files)
    requires OthersUntouched(files, middle) && OthersUntouched(middle, after)
    ensures OthersUntouched(files, after)
  {
    forall key | key != VAULT_PATH && key != VAULT_TEMP_PATH && key != VAULT_BACKUP_PATH
      ensures SameFile(files, after, key)
    {
      assert SameFile(files, middle, key) && SameFile(middle, after, key);
    }
  }

  /** `recover_interrupted_vault_write`. */
  method RecoverInterruptedWrite(device: Device) returns (ok: bool)
    modifies device`files, device`clock, device`halted, device`renameErrors
    ensures Kept(device.files) == Kept(old(device.files))
    ensures ok <==> VAULT_PATH in device.files
    ensures ok ==> device.files[VAULT_PATH] == Kept(old(device.files)).value
    ensures !ok ==> device.files == old(device.files)
    ensures if VAULT_PATH in old(device.files) || VAULT_BACKUP_PATH !in old(device.files)
            then device.clock == old(device.clock) && device.halted == old(device.halted)
            else ok == old(device.Works()) && device.clock == old(device.clock) + 1
                 && device.halted == (old(device.halted) || device.plan(old(device.clock)).PowersOff())
    ensures device.renameErrors == old(device.renameErrors)
                                   + if ok || device.halted || Settled(old(device.files)) then {}
                                     else {old(device.clock)}
    ensures forall key :: key != VAULT_PATH && key != VAULT_BACKUP_PATH ==>
              SameFile(old(device.files), device.files, key)
  {
    PathsDiffer();
    if VAULT_PATH in device.files {
      return true;
    }
    if VAULT_BACKUP_PATH in device.files {
      ok := device.Rename(VAULT_BACKUP_PATH, VAULT_PATH);
      return;
    }
    return false;
  }

  /** Renames return errors only where a fault strikes. */
  ghost predicate FaultyRenames(device: Device, before: set<nat>, since: nat)
    reads device`renameErrors, device`clock
  {
    forall t :: t in device.renameErrors && t !in before ==> since <= t < device.clock && device.plan(t).Failing?
  }

  /** `replace_vault_file`: the results of the removals are ignored, as in the original. */
  method ReplaceVaultFile(device: Device, ghost envelope: Bytes) returns (ok: bool)
    requires VAULT_TEMP_PATH in device.files && device.files[VAULT_TEMP_PATH] == envelope
    requires !device.halted
    modifies device`files, device`clock, device`halted, device`renameErrors
    ensures old(device.clock) < device.clock && old(device.renameErrors) <= device.renameErrors
    ensures OthersUntouched(old(device.files), device.files)
    ensures FaultyRenames(device, old(device.renameErrors), old(device.clock))
    ensures device.halted <==> old(device.halted) || !device.PoweredBetween(old(device.clock), device.clock)
    ensures Settled(old(device.files)) ==>
              Kept(device.files) == Kept(old(device.files)) || Kept(device.files) == Some(envelope)
    ensures ok ==> Settled(device.files) && Kept(device.files) == Some(envelope)
    ensures Settled(old(device.files)) && !ok && !device.halted ==> Kept(device.files) == Kept(old(device.files))
    ensures Settled(old(device.files)) && !device.halted ==>
              (!Settled(device.files) <==>
                    VAULT_PATH in old(device.files) && BothRenamesFail(device.plan, old(device.clock)))
    ensures Settled(old(device.files)) && !Settled(device.files) && !device.halted ==>
              old(device.clock) + 2 in device.renameErrors && old(device.clock) + 3 in device.renameErrors
    ensures !Settled(old(device.files)) ==>
              && LoneBackup(old(device.files), device.files, device.plan(old(device.clock)).Fine?)
              && Kept(device.files)
                 == LoneAfterReplace(device.plan, old(device.clock), Kept(old(device.files)), envelope)
    ensures device.QuietBetween(old(device.clock), device.clock) ==> ok && VAULT_BACKUP_PATH !in device.files
  {
    hide OthersUntouched;
    PathsDiffer();
    ghost var began := device.files;
    var hadOriginal := VAULT_PATH in device.files;
    ok := MoveAside(device, hadOriginal);
    ghost var moved := device.files;
    if !ok { return; }
    ok := MoveIntoPlace(device, hadOriginal);
    ghost var placed := device.files;
    UntouchedChain(began, moved, placed);
    if ok && hadOriginal {
      var _ := device.RemoveIfPresent(VAULT_BACKUP_PATH);
      RemovedUntouched(placed, device.files, VAULT_BACKUP_PATH);
      UntouchedChain(began, placed, device.files);
    }
  }

  /** The first half of `replace_vault_file`: a stale backup is removed, the vault becomes the backup. */
  method MoveAside(device: Device, hadOriginal: bool) returns (ok: bool)
    requires VAULT_TEMP_PATH in device.files && !device.halted
    requires hadOriginal <==> VAULT_PATH in device.files
    modifies device`files, device`clock, device`halted, device`renameErrors
    ensures OthersUntouched(old(device.files), device.files)
    ensures FaultyRenames(device, old(device.renameErrors), old(device.clock))
    ensures old(device.clock) < device.clock && old(device.renameErrors) <= device.renameErrors
    ensures device.halted <==> !device.PoweredBetween(old(device.clock), device.clock)
    ensures hadOriginal ==>
              (ok <==> !device.plan(old(device.clock)).PowersOff() && device.plan(old(device.clock) + 1).Fine?)
    ensures if hadOriginal then device.clock >= old(device.clock) + 2 else ok && device.clock == old(device.clock) + 1
    ensures ok ==>
              && VAULT_PATH !in device.files && VAULT_TEMP_PATH in device.files
              && device.files[VAULT_TEMP_PATH] == old(device.files)[VAULT_TEMP_PATH]
    ensures ok && hadOriginal ==>
              && !device.halted && device.clock == old(device.clock) + 2
              && VAULT_BACKUP_PATH in device.files && device.files[VAULT_BACKUP_PATH] == old(device.files)[VAULT_PATH]
    ensures !hadOriginal ==>
              if device.plan(old(device.clock)).Fine? then VAULT_BACKUP_PATH !in device.files
              else SameFile(old(device.files), device.files, VAULT_BACKUP_PATH)
    ensures !ok ==> SameFile(old(device.files), device.files, VAULT_PATH)
    ensures !ok && !device.halted ==> old(device.clock) + 1 in device.renameErrors
  {
    hide OthersUntouched;
    PathsDiffer();
    ghost var began := device.files;
    var _ := device.RemoveIfPresent(VAULT_BACKUP_PATH);
    ghost var cleared := device.files;
    RemovedUntouched(began, cleared, VAULT_BACKUP_PATH);
    ok := true;
    if hadOriginal {
      ok := device.Rename(VAULT_PATH, VAULT_BACKUP_PATH);
      ghost var moved := device.files;
      MovedUntouched(cleared, moved, VAULT_PATH, VAULT_BACKUP_PATH);
      UntouchedChain(began, cleared, moved);
      if !ok {
        DropTemp(device);
        UntouchedChain(began, moved, device.files);
      }
    }
  }

  /** The second half of `replace_vault_file`: the new file, or else the old one, to its place. */
  method MoveIntoPlace(device: Device, hadOriginal: bool) returns (ok: bool)
    requires VAULT_TEMP_PATH in device.files && VAULT_PATH !in device.files
    requires hadOriginal ==> VAULT_BACKUP_PATH in device.files
    modifies device`files, device`clock, device`halted, device`renameErrors
    ensures old(device.clock) < device.clock && old(device.renameErrors) <= device.renameErrors
    ensures OthersUntouched(old(device.files), device.files)
    ensures FaultyRenames(device, old(device.renameErrors), old(device.clock))
    ensures device.halted <==> old(device.halted) || !device.PoweredBetween(old(device.clock), device.clock)
    ensures ok == old(device.Works())
    ensures ok ==>
              && VAULT_PATH in device.files && device.files[VAULT_PATH] == old(device.files)[VAULT_TEMP_PATH]
              && device.clock == old(device.clock) + 1 && device.halted == old(device.halted)
    ensures !ok && hadOriginal && !device.halted ==>
              old(device.clock) in device.renameErrors
              && if device.plan(old(device.clock) + 1).Fine? then
                   VAULT_PATH in device.files && device.files[VAULT_PATH] == old(device.files)[VAULT_BACKUP_PATH]
                 else old(device.clock) + 1 in device.renameErrors && VAULT_PATH !in device.files
    ensures !ok && hadOriginal ==> Kept(device.files) == Kept(old(device.files))
    ensures !ok && !hadOriginal ==> VAULT_PATH !in device.files
    ensures ok || !hadOriginal ==>
              (VAULT_BACKUP_PATH in device.files <==> VAULT_BACKUP_PATH in old(device.files))
              && (VAULT_BACKUP_PATH in device.files ==>
                    device.files[VAULT_BACKUP_PATH] == old(device.files)[VAULT_BACKUP_PATH])
    ensures old(device.halted) ==> device.halted
    ensures !ok && !device.halted ==>
              !device.plan(old(device.clock)).PowersOff() && !device.plan(old(device.clock) + 1).PowersOff()
  {
    PathsDiffer();
    ok := device.Rename(VAULT_TEMP_PATH, VAULT_PATH);
    if !ok {
      if hadOriginal {
        var _ := device.Rename(VAULT_BACKUP_PATH, VAULT_PATH);
      }
      var _ := device.RemoveIfPresent(VAULT_TEMP_PATH);
    }
  }

  /** A lone backup after a save: removed or still what it was. */
  ghost predicate LoneBackup(before: Files, after: Files, removed: bool)
    requires !Settled(before)
  {
    if removed then VAULT_BACKUP_PATH !in after
    else VAULT_BACKUP_PATH in after && after[VAULT_BACKUP_PATH] == before[VAULT_BACKUP_PATH]
  }

  /** From a replacement that begins at tick `c`: the old vault is moved to the
      backup, and then neither the new one nor the old one can be moved into place. */
  ghost predicate BothRenamesFail(plan: nat -> Fault, c: nat) {
    && !plan(c).PowersOff()
    && plan(c + 1).Fine?
    && plan(c + 2).Failing? && !plan(c + 2).powerLoss
    && plan(c + 3).Failing? && !plan(c + 3).powerLoss
  }

  /** What a replacement that begins at tick `c` makes of a lone backup. */
  function LoneAfterReplace(plan: nat -> Fault, c: nat, kept: Option<Bytes>, envelope: Bytes): Option<Bytes> {
    if plan(c).Fine? then (if plan(c + 1).Fine? then Some(envelope) else None)
    else if !plan(c).powerLoss && plan(c + 1).Fine? then Some(envelope)
    else kept
  }

  /** The vault and its backup are the same. */
  ghost predicate SameVault(files: Files, after: Files) {
    SameFile(files, after, VAULT_PATH) && SameFile(files, after, VAULT_BACKUP_PATH)
  }

  lemma SameVaultKept(files: Files, after: Files)
    requires SameVault(files, after)
    ensures Kept(after) == Kept(files) && (Settled(after) <==> Settled(files))
  {
  }

  /** Write the temporary file, and close it. */
  method WriteTemp(device: Device, envelope: Bytes) returns (ok: bool)
    requires !device.halted
    modifies device`files, device`clock, device`halted
    ensures ok <==> device.plan(old(device.clock)).Fine?
    ensures ok ==> VAULT_TEMP_PATH in device.files && device.files[VAULT_TEMP_PATH] == envelope
    ensures SameVault(old(device.files), device.files) && OthersUntouched(old(device.files), device.files)
    ensures Kept(device.files) == Kept(old(device.files)) && (Settled(device.files) <==> Settled(old(device.files)))
    ensures device.clock == old(device.clock) + 1
    ensures device.halted == device.plan(old(device.clock)).PowersOff()
  {
    PathsDiffer();
    ghost var began, at := device.files, device.clock;
    ok := device.Write(VAULT_TEMP_PATH, envelope);
    WrittenUntouched(began, device.files, VAULT_TEMP_PATH, envelope, if ok then 0 else device.plan(at).torn);
    SameVaultKept(began, device.files);
  }

  method DropTemp(device: Device)
    modifies device`files, device`clock, device`halted
    ensures SameVault(old(device.files), device.files) && OthersUntouched(old(device.files), device.files)
    ensures Kept(device.files) == Kept(old(device.files)) && (Settled(device.files) <==> Settled(old(device.files)))
    ensures device.clock == old(device.clock) + 1
    ensures device.halted == (old(device.halted) || device.plan(old(device.clock)).PowersOff())
    ensures old(device.halted) ==> device.files == old(device.files)
  {
    PathsDiffer();
    ghost var began := device.files;
    var _ := device.RemoveIfPresent(VAULT_TEMP_PATH);
    RemovedUntouched(began, device.files, VAULT_TEMP_PATH);
    SameVaultKept(began, device.files);
  }

  /** The end of `vault_save`: write the envelope to the temporary file, then replace
      the vault. What recovery would leave is the old envelope or the new one, the
      new one if the save succeeds, the old one if it fails with the power on. The
      copy is left alone in the backup exactly when both renames fail. A save that
      begins with a lone backup removes it exactly when its first three steps work. */
  method SaveEnvelope(device: Device, envelope: Bytes) returns (ok: bool)
    modifies device`files, device`clock, device`halted, device`renameErrors
    ensures device.clock >= old(device.clock) && old(device.renameErrors) <= device.renameErrors
    ensures OthersUntouched(old(device.files), device.files)
    ensures FaultyRenames(device, old(device.renameErrors), old(device.clock))
    ensures device.halted <==> old(device.halted) || !device.PoweredBetween(old(device.clock), device.clock)
    ensures Settled(old(device.files)) ==>
              Kept(device.files) == Kept(old(device.files)) || Kept(device.files) == Some(envelope)
    ensures ok ==> Settled(device.files) && Kept(device.files) == Some(envelope)
    ensures Settled(old(device.files)) && !ok && !device.halted ==> Kept(device.files) == Kept(old(device.files))
    ensures Settled(old(device.files)) && !Settled(device.files) && !device.halted ==>
              old(device.clock) + 4 in device.renameErrors && old(device.clock) + 5 in device.renameErrors
    ensures Settled(old(device.files)) && !device.halted ==>
              (!Settled(device.files) <==>
               && VAULT_PATH in old(device.files)
               && device.plan(old(device.clock)).Fine? && device.plan(old(device.clock) + 1).Fine?
               && BothRenamesFail(device.plan, old(device.clock) + 2))
    ensures !Settled(old(device.files)) && !old(device.halted) ==>
              && LoneBackup(old(device.files), device.files, FirstThreeFine(device.plan, old(device.clock)))
              && Kept(device.files) == LoneAfterSave(device.plan, old(device.clock), Kept(old(device.files)), envelope)
    ensures !old(device.halted) && device.QuietBetween(old(device.clock), device.clock) ==>
              ok && VAULT_BACKUP_PATH !in device.files
    ensures old(device.halted) ==> device.files == old(device.files) && device.halted && !ok
  {
    hide OthersUntouched, Kept, BothRenamesFail, LoneAfterReplace;
    ghost var began := device.files;
    RemovedUntouched(began, began, VAULT_TEMP_PATH);
    ok := device.Attempt();
    if !ok { return; }
    ok := WriteTemp(device, envelope);
    ghost var written := device.files;
    if ok {
      ok := ReplaceVaultFile(device, envelope);
      UntouchedChain(began, written, device.files);
    }
    ghost var replaced := device.files;
    if !ok {
      DropTemp(device);
      UntouchedChain(began, replaced, device.files);
    }
  }

  predicate FirstThreeFine(plan: nat -> Fault, c: nat) {
    plan(c).Fine? && plan(c + 1).Fine? && plan(c + 2).Fine?
  }

  function LoneAfterSave(plan: nat -> Fault, c: nat, kept: Option<Bytes>, envelope: Bytes): Option<Bytes> {
    if plan(c).Fine? && plan(c + 1).Fine? then LoneAfterReplace(plan, c + 2, kept, envelope) else kept
  }

  /** How a save ended, as far as the user knows: told of the success, told of an
      error, or the power went. */
  datatype End = Succeeded | Refused | CutOff

  datatype Attempt = Attempt(envelope: Bytes, end: End)

  /** What `committed` is after these attempts: the envelope of the last one that
      succeeded, or of one that was cut off since; before any of that, `before`. */
  ghost predicate Explains(attempts: seq<Attempt>, before: Option<Bytes>, committed: Option<Bytes>) {
    if attempts == [] then committed == before
    else
      var n := |attempts| - 1;
      match attempts[n].end
      case Succeeded => committed == Some(attempts[n].envelope)
      case Refused => Explains(attempts[..n], before, committed)
      case CutOff => committed == Some(attempts[n].envelope) || Explains(attempts[..n], before, committed)
  }

  lemma {:induction false} ExplainsAppend(attempts: seq<Attempt>, more: seq<Attempt>, before: Option<Bytes>,
                                          middle: Option<Bytes>, committed: Option<Bytes>)
    requires Explains(attempts, before, middle) && Explains(more, middle, committed)
    ensures Explains(attempts + more, before, committed)
    decreases |more|
  {
    if more == [] {
      assert attempts + more == attempts;
    } else {
      var n := |more| - 1;
      assert (attempts + more)[..|attempts| + n] == attempts + more[..n];
      if Explains(more[..n], middle, committed) {
        ExplainsAppend(attempts, more[..n], before, middle, committed);
      }
    }
  }

  lemma {:induction false} SomethingStays(attempts: seq<Attempt>, before: Option<Bytes>, committed: Option<Bytes>)
    requires Explains(attempts, before, committed) && before.Some?
    ensures committed.Some?
    decreases |attempts|
  {
    if attempts != [] && committed.None? {
      SomethingStays(attempts[..|attempts| - 1], before, committed);
    }
  }

  /** A save, and what is committed by it. `exposed`: a save began or ended with a
      lone backup, so that a save would remove the only copy. */
  method SaveAndFollow(device: Device, envelope: Bytes, ghost committed: Option<Bytes>, ghost exposed: bool)
    returns (ok: bool, ghost end: End, ghost nowCommitted: Option<Bytes>, ghost nowExposed: bool)
    requires !exposed && !device.halted ==> Settled(device.files)
    modifies device`files, device`clock, device`halted, device`renameErrors
    ensures device.clock >= old(device.clock) && old(device.renameErrors) <= device.renameErrors
    ensures OthersUntouched(old(device.files), device.files)
    ensures FaultyRenames(device, old(device.renameErrors), old(device.clock))
    ensures device.halted <==> old(device.halted) || !device.PoweredBetween(old(device.clock), device.clock)
    ensures end == if ok then Succeeded else if !device.halted then Refused else CutOff
    ensures !old(device.halted) && device.QuietBetween(old(device.clock), device.clock) ==> ok
    ensures old(device.halted) ==> end.CutOff? && device.halted && device.files == old(device.files)
    ensures match end
            case Succeeded => nowCommitted == Some(envelope)
            case Refused => nowCommitted == committed
            case CutOff => nowCommitted == committed || (nowCommitted == Some(envelope) && !old(device.halted))
    ensures exposed ==> nowExposed
    ensures nowExposed && !exposed ==> LosingRename(device.renameErrors, [], old(device.clock))
    ensures !nowExposed && !device.halted ==> Settled(device.files)
    ensures Kept(old(device.files)) == committed && !nowExposed ==> Kept(device.files) == nowCommitted
  {
    ghost var began := device.clock;
    ok := SaveEnvelope(device, envelope);
    end := if ok then Succeeded else if !device.halted then Refused else CutOff;
    nowCommitted :=
      if ok || (!old(device.halted) && device.halted && Kept(device.files) == Some(envelope)) then Some(envelope)
      else committed;
    nowExposed := exposed || (!device.halted && !Settled(device.files));
    if nowExposed && !exposed {
      assert began + 4 in device.renameErrors && began + 4 + 1 in device.renameErrors;
    }
  }

  /** Since tick `since` a rename returned an error that can leave a lone backup to
      the next save: the one rename of a recovery, which a start begins with, or
      two renames of a save, one right after the other. */
  ghost predicate LosingRename(errors: set<nat>, starts: seq<nat>, since: nat) {
    exists t :: t in errors && since <= t && (t in starts || t + 1 in errors)
  }

  lemma LosingRenameKept(errors: set<nat>, starts: seq<nat>, since: nat, more: set<nat>, others: seq<nat>, before: nat)
    requires LosingRename(errors, starts, since)
    requires errors <= more && (forall t :: t in starts ==> t in others) && before <= since
    ensures LosingRename(more, others, before)
  {
    var t :| t in errors && since <= t && (t in starts || t + 1 in errors);
    assert t in more && before <= t && (t in others || t + 1 in more);
  }

  lemma RecoveryRenameLoses(errors: set<nat>, start: nat)
    requires start in errors
    ensures LosingRename(errors, [start], start)
  {
    assert start in [start];
  }

  lemma NothingAttempted(before: Option<Bytes>)
    ensures Explains([], before, before)
  {
  }

  /** What one start of the app attempted: whether it created a vault, and its saves. */
  datatype StartLog = StartLog(created: bool, attempts: seq<Attempt>)

  function Planned(created: bool, first: Bytes, saves: seq<Bytes>): seq<Bytes> {
    if created then [first] + saves else saves
  }

  /** The attempts of a start are its saves in order, up to where the power went. */
  ghost predicate Follows(log: StartLog, first: Bytes, saves: seq<Bytes>) {
    var planned := Planned(log.created, first, saves);
    && |log.attempts| <= |planned|
    && (forall k :: 0 <= k < |log.attempts| ==> log.attempts[k].envelope == planned[k])
    && (forall k :: 0 <= k < |log.attempts| - 1 ==> !log.attempts[k].end.CutOff?)
  }

  /** None of the saves is missing. */
  ghost predicate Complete(log: StartLog, first: Bytes, saves: seq<Bytes>) {
    |log.attempts| == |Planned(log.created, first, saves)|
  }

  ghost predicate AllSucceeded(log: StartLog) {
    forall k :: 0 <= k < |log.attempts| ==> log.attempts[k].end.Succeeded?
  }

  /** The beginning of a start: recover, and create a vault when there is none. */
  method Start(device: Device, first: Bytes, ghost before: Option<Bytes>)
    returns (ghost log: StartLog, ghost committed: Option<Bytes>, ghost exposed: bool)
    modifies device`files, device`clock, device`halted, device`renameErrors
    ensures device.clock >= old(device.clock) && old(device.renameErrors) <= device.renameErrors
    ensures OthersUntouched(old(device.files), device.files)
    ensures FaultyRenames(device, old(device.renameErrors), old(device.clock))
    ensures device.halted <==> !device.PoweredBetween(old(device.clock), device.clock)
    ensures Kept(old(device.files)) == before && !exposed ==> Kept(device.files) == committed
    ensures Explains(log.attempts, before, committed)
    ensures if log.created then |log.attempts| == 1 else log.attempts == []
    ensures log.created ==> log.attempts[0].envelope == first && (log.attempts[0].end.CutOff? ==> device.halted)
    ensures device.QuietBetween(old(device.clock), device.clock) ==> AllSucceeded(log)
    ensures Kept(old(device.files)).None? ==> log.created
    ensures Kept(old(device.files)).Some? && !exposed ==> !log.created
    ensures exposed ==> LosingRename(device.renameErrors, [old(device.clock)], old(device.clock))
    ensures !exposed && !device.halted ==> Settled(device.files)
  {
    hide Explains, LosingRename;
    ghost var start := device.clock;
    NothingAttempted(before);
    committed, exposed, log := before, false, StartLog(false, []);
    device.PowerOn();
    var recovered := RecoverInterruptedWrite(device);
    if VAULT_PATH !in device.files {
      exposed := !device.halted && !Settled(device.files);
      if exposed {
        RecoveryRenameLoses(device.renameErrors, start);
      }
      log := StartLog(!device.halted, []);
      ghost var attempts;
      attempts, committed, exposed := Follow(device, first, [], before, committed, exposed, start);
      log := log.(attempts := attempts);
    }
  }

  /** One start of the app, and then any number of saves. */
  method Boot(device: Device, first: Bytes, saves: seq<Bytes>, ghost before: Option<Bytes>)
    returns (ghost log: StartLog, ghost committed: Option<Bytes>, ghost exposed: bool)
    modifies device`files, device`clock, device`halted, device`renameErrors
    ensures device.clock >= old(device.clock) && old(device.renameErrors) <= device.renameErrors
    ensures OthersUntouched(old(device.files), device.files)
    ensures FaultyRenames(device, old(device.renameErrors), old(device.clock))
    ensures Kept(old(device.files)) == before && !exposed ==> Kept(device.files) == committed
    ensures Explains(log.attempts, before, committed) && Follows(log, first, saves)
    ensures device.PoweredBetween(old(device.clock), device.clock) ==> Complete(log, first, saves)
    ensures device.QuietBetween(old(device.clock), device.clock) ==> AllSucceeded(log)
    ensures Kept(old(device.files)).None? ==> log.created
    ensures Kept(old(device.files)).Some? && !exposed ==> !log.created
    ensures exposed ==> LosingRename(device.renameErrors, [old(device.clock)], old(device.clock))
  {
    hide Kept, Follows, UpTo, Complete, Explains, LosingRename, AllSucceeded;
    ghost var start := device.clock;
    log, committed, exposed := Start(device, first, before);
    LogBegins(log, first, saves, device.halted);
    ghost var created := log.created;
    for i := 0 to |saves|
      invariant device.clock >= start && old(device.renameErrors) <= device.renameErrors
      invariant FaultyRenames(device, old(device.renameErrors), start)
      invariant OthersUntouched(old(device.files), device.files)
      invariant Kept(old(device.files)) == before && !exposed ==> Kept(device.files) == committed
      invariant Explains(log.attempts, before, committed)
      invariant UpTo(log, first, saves, i, device.halted) && log.created == created
      invariant device.QuietBetween(start, device.clock) ==> AllSucceeded(log)
      invariant device.halted <==> !device.PoweredBetween(start, device.clock)
      invariant exposed ==> LosingRename(device.renameErrors, [start], start)
      invariant !exposed && !device.halted ==> Settled(device.files)
      invariant Kept(old(device.files)).Some? && !exposed ==> !created
    {
      ghost var attempts, on, past := log.attempts, !device.halted, device.files;
      attempts, committed, exposed := Follow(device, saves[i], log.attempts, before, committed, exposed, start);
      UntouchedChain(old(device.files), past, device.files);
      if on {
        LogGrows(log, first, saves, i, attempts[|log.attempts|], device.halted);
        assert attempts == log.attempts + [attempts[|log.attempts|]];
      } else {
        LogStays(log, first, saves, i);
      }
      log := log.(attempts := attempts);
    }
    LogEnds(log, first, saves, device.halted);
  }

  /** The log after `n` of the saves: complete so far unless the power went. */
  ghost predicate UpTo(log: StartLog, first: Bytes, saves: seq<Bytes>, n: nat, halted: bool) {
    var made := n + if log.created then 1 else 0;
    && n <= |saves| && Follows(log, first, saves)
    && |log.attempts| <= made
    && (!halted ==> |log.attempts| == made && forall k :: 0 <= k < |log.attempts| ==> !log.attempts[k].end.CutOff?)
  }

  lemma LogBegins(log: StartLog, first: Bytes, saves: seq<Bytes>, halted: bool)
    requires if log.created then |log.attempts| == 1 else log.attempts == []
    requires log.created ==> log.attempts[0].envelope == first && (log.attempts[0].end.CutOff? ==> halted)
    ensures UpTo(log, first, saves, 0, halted)
  {
  }

  lemma LogGrows(log: StartLog, first: Bytes, saves: seq<Bytes>, n: nat, attempt: Attempt, halted: bool)
    requires UpTo(log, first, saves, n, false) && n < |saves|
    requires attempt.envelope == saves[n] && (attempt.end.CutOff? ==> halted)
    ensures UpTo(log.(attempts := log.attempts + [attempt]), first, saves, n + 1, halted)
    ensures AllSucceeded(log) && attempt.end.Succeeded? ==> AllSucceeded(log.(attempts := log.attempts + [attempt]))
  {
  }

  lemma LogStays(log: StartLog, first: Bytes, saves: seq<Bytes>, n: nat)
    requires UpTo(log, first, saves, n, true) && n < |saves|
    ensures UpTo(log, first, saves, n + 1, true)
  {
  }

  lemma LogEnds(log: StartLog, first: Bytes, saves: seq<Bytes>, halted: bool)
    requires UpTo(log, first, saves, |saves|, halted)
    ensures Follows(log, first, saves) && (!halted ==> Complete(log, first, saves))
  {
  }

  /** A save of the start that began at tick `start`, noted if the power is on when it begins. */
  method Follow(device: Device, envelope: Bytes, ghost attempts: seq<Attempt>, ghost before: Option<Bytes>,
                ghost committed: Option<Bytes>, ghost exposed: bool, ghost start: nat)
    returns (ghost now: seq<Attempt>, ghost nowCommitted: Option<Bytes>, ghost nowExposed: bool)
    requires !exposed && !device.halted ==> Settled(device.files)
    requires start <= device.clock && Explains(attempts, before, committed)
    requires exposed ==> LosingRename(device.renameErrors, [start], start)
    modifies device`files, device`clock, device`halted, device`renameErrors
    ensures device.clock >= old(device.clock) && old(device.renameErrors) <= device.renameErrors
    ensures OthersUntouched(old(device.files), device.files)
    ensures FaultyRenames(device, old(device.renameErrors), old(device.clock))
    ensures device.halted <==> old(device.halted) || !device.PoweredBetween(old(device.clock), device.clock)
    ensures Explains(now, before, nowCommitted)
    ensures old(device.halted) ==> now == attempts && nowCommitted == committed && device.halted
    ensures !old(device.halted) ==>
              && |now| == |attempts| + 1 && now[..|attempts|] == attempts && now[|attempts|].envelope == envelope
              && (now[|attempts|].end.CutOff? ==> device.halted)
              && (device.QuietBetween(old(device.clock), device.clock) ==> now[|attempts|].end.Succeeded?)
    ensures exposed ==> nowExposed
    ensures nowExposed ==> LosingRename(device.renameErrors, [start], start)
    ensures !nowExposed && !device.halted ==> Settled(device.files)
    ensures Kept(old(device.files)) == committed && !nowExposed ==> Kept(device.files) == nowCommitted
  {
    ghost var errors, began, powered := device.renameErrors, device.clock, !device.halted;
    ghost var end;
    var ok;
    ok, end, nowCommitted, nowExposed := SaveAndFollow(device, envelope, committed, exposed);
    now := if powered then attempts + [Attempt(envelope, end)] else attempts;
    assert powered ==> now[..|attempts|] == attempts;
    if exposed {
      LosingRenameKept(errors, [start], start, device.renameErrors, [start], start);
    } else if nowExposed {
      LosingRenameKept(device.renameErrors, [], began, device.renameErrors, [start], start);
    }
  }

  function AllAttempts(logs: seq<StartLog>): seq<Attempt> {
    if logs == [] then [] else AllAttempts(logs[..|logs| - 1]) + logs[|logs| - 1].attempts
  }

  /** Where the start after start `i` begins, or the run ends. */
  function EndOf(starts: seq<nat>, i: nat, end: nat): nat
    requires i < |starts|
  {
    if i + 1 < |starts| then starts[i + 1] else end
  }

  /** The first of these ticks is `since`, and none is after `until`. */
  ghost predicate Ascending(starts: seq<nat>, since: nat, until: nat) {
    && (starts != [] ==> starts[0] == since)
    && (forall i :: 0 <= i < |starts| ==> starts[i] <= until)
    && forall i, j :: 0 <= i < j < |starts| ==> starts[i] <= starts[j]
  }

  /** The logs are those of these starts: the saves in order, all of them where the
      power stays on, and all of them successful where nothing fails. */
  ghost predicate LogsOf(device: Device, logs: seq<StartLog>, starts: seq<nat>, first: seq<Bytes>,
                         saves: seq<seq<Bytes>>,
                         end: nat)
    requires |first| == |saves|
  {
    && |logs| == |starts| <= |saves|
    && forall i :: 0 <= i < |logs| ==>
         && Follows(logs[i], first[i], saves[i])
         && (device.PoweredBetween(starts[i], EndOf(starts, i, end)) ==> Complete(logs[i], first[i], saves[i]))
         && (device.QuietBetween(starts[i], EndOf(starts, i, end)) ==> AllSucceeded(logs[i]))
  }

  /** Any number of starts, saves and losses of power, with any other failures. As
      long as no recovery rename and no two renames of one save return an error,
      recovery always leaves the envelope of the last save that succeeded, or of
      one that was under way since when the power went: a vault is never lost. */
  method Boots(device: Device, first: seq<Bytes>, saves: seq<seq<Bytes>>)
    returns (ghost logs: seq<StartLog>, ghost committed: Option<Bytes>, ghost starts: seq<nat>)
    requires |first| == |saves|
    modifies device`files, device`clock, device`halted, device`renameErrors
    ensures OthersUntouched(old(device.files), device.files)
    ensures FaultyRenames(device, old(device.renameErrors), old(device.clock))
    ensures |starts| == |saves| && Ascending(starts, old(device.clock), device.clock)
    ensures LogsOf(device, logs, starts, first, saves, device.clock)
    ensures Explains(AllAttempts(logs), Kept(old(device.files)), committed)
    ensures !LosingRename(device.renameErrors, starts, old(device.clock)) ==> Kept(device.files) == committed
    ensures (forall t :: t in device.renameErrors ==> t < old(device.clock)) ==> Kept(device.files) == committed
    ensures Kept(old(device.files)).Some? ==> committed.Some?
    ensures Kept(old(device.files)).Some? && !LosingRename(device.renameErrors, starts, old(device.clock)) ==>
              forall i :: 0 <= i < |logs| ==> !logs[i].created
    ensures Kept(old(device.files)).None? && |logs| > 0 ==> logs[0].created
  {
    hide Kept, Explains, LosingRename, LogsOf, Follows, Complete, AllSucceeded;
    ghost var began, kept := device.clock, Kept(device.files);
    committed, starts, logs := kept, [], [];
    NothingAttempted(kept);
    NothingLogged(device, first, saves);
    ghost var exposed := false;
    for i := 0 to |saves|
      invariant device.clock >= began && |starts| == |logs| == i
      invariant FaultyRenames(device, old(device.renameErrors), began)
      invariant OthersUntouched(old(device.files), device.files)
      invariant Ascending(starts, began, device.clock)
      invariant LogsOf(device, logs, starts, first, saves, device.clock)
      invariant Explains(AllAttempts(logs), kept, committed)
      invariant !exposed ==> Kept(device.files) == committed
      invariant exposed ==> LosingRename(device.renameErrors, starts, began)
      invariant kept.Some? && !exposed ==> forall k :: 0 <= k < |logs| ==> !logs[k].created
      invariant i == 0 ==> device.clock == began
      invariant if i == 0 then device.files == old(device.files) else kept.None? ==> logs[0].created
    {
      ghost var errors, start, past := device.renameErrors, device.clock, starts;
      ghost var before, filesBefore := committed, device.files;
      ghost var exposedNow: bool;
      ghost var log: StartLog;
      if kept.Some? {
        SomethingStays(AllAttempts(logs), kept, committed);
      }
      log, committed, exposedNow := Boot(device, first[i], saves[i], before);
      UntouchedChain(old(device.files), filesBefore, device.files);
      starts := past + [start];
      ExplainsAppend(AllAttempts(logs), log.attempts, kept, before, committed);
      assert (logs + [log])[..i] == logs;
      OneMoreStart(device, logs, past, first, saves, log, start, device.clock);
      logs := logs + [log];
      if exposed {
        LosingRenameKept(errors, past, began, device.renameErrors, starts, began);
      } else if exposedNow {
        LosingRenameKept(device.renameErrors, [start], start, device.renameErrors, starts, began);
      }
      exposed := exposed || exposedNow;
    }
    if kept.Some? {
      SomethingStays(AllAttempts(logs), kept, committed);
    }
    NoneLost(device.renameErrors, starts, began);
  }

  lemma NothingLogged(device: Device, first: seq<Bytes>, saves: seq<seq<Bytes>>)
    requires |first| == |saves|
    ensures LogsOf(device, [], [], first, saves, device.clock) && AllAttempts([]) == []
  {
  }

  lemma NoneLost(errors: set<nat>, starts: seq<nat>, since: nat)
    ensures (forall t :: t in errors ==> t < since) ==> !LosingRename(errors, starts, since)
  {
  }

  lemma OneMoreStart(device: Device, logs: seq<StartLog>, starts: seq<nat>, first: seq<Bytes>, saves: seq<seq<Bytes>>,
                     log: StartLog, start: nat, end: nat)
    requires |first| == |saves| && |starts| < |saves| && LogsOf(device, logs, starts, first, saves, start)
    requires Follows(log, first[|starts|], saves[|starts|])
    requires device.PoweredBetween(start, end) ==> Complete(log, first[|starts|], saves[|starts|])
    requires device.QuietBetween(start, end) ==> AllSucceeded(log)
    ensures LogsOf(device, logs + [log], starts + [start], first, saves, end)
  {
    hide Follows, Complete, AllSucceeded;
  }

  /** For example, one start without any fault that saves twice: the second envelope is kept. */
  method TwoSaves(device: Device, first: Bytes, one: Bytes, other: Bytes)
    requires (forall t :: device.plan(t).Fine?) && forall t :: t in device.renameErrors ==> t < device.clock
    modifies device`files, device`clock, device`halted, device`renameErrors
    ensures Kept(device.files) == Some(other)
  {
    ghost var logs, committed, starts := Boots(device, [first], [[one, other]]);
    ghost var log := logs[0];
    assert Follows(log, first, [one, other]) && Complete(log, first, [one, other]) && AllSucceeded(log);
    assert AllAttempts(logs[..0]) == [] && AllAttempts(logs) == log.attempts;
  }

  /** A start that finds the vault in its backup only, up to the first save: when the
      renaming of the backup fails, the app takes it for a first use and saves an
      empty vault. The copy is then gone exactly when the recovery rename returned
      an error and the next three steps work; otherwise it is the vault or still
      the backup. What recovery would leave is given for every plan. */
  method FirstUse(device: Device, first: Bytes) returns (recovered: bool)
    requires !device.halted && VAULT_PATH !in device.files && VAULT_BACKUP_PATH in device.files
    modifies device`files, device`clock, device`halted, device`renameErrors
    ensures OthersUntouched(old(device.files), device.files)
    ensures recovered <==> device.plan(old(device.clock)).Fine?
    ensures recovered ==> VAULT_PATH in device.files && device.files[VAULT_PATH] == old(device.files)[VAULT_BACKUP_PATH]
    ensures !recovered ==>
              LoneBackup(old(device.files), device.files,
                         !device.plan(old(device.clock)).PowersOff()
                             && FirstThreeFine(device.plan, old(device.clock) + 1))
    ensures !recovered && !device.plan(old(device.clock)).PowersOff() ==>
              Kept(device.files) == LoneAfterSave(device.plan, old(device.clock) + 1, Kept(old(device.files)), first)
    ensures device.plan(old(device.clock)).PowersOff() ==> device.files == old(device.files)
  {
    recovered := RecoverInterruptedWrite(device);
    if !recovered {
      var _ := SaveEnvelope(device, first);
    }
  }

  /** For example, with nothing but that one error the vault is gone. */
  method FirstUseAfterFailedRecovery(device: Device, first: Bytes) returns (ok: bool)
    requires !device.halted && VAULT_PATH !in device.files && VAULT_BACKUP_PATH in device.files
    requires device.plan(device.clock).Failing? && !device.plan(device.clock).powerLoss
    requires forall t :: t > device.clock ==> device.plan(t).Fine?
    modifies device`files, device`clock, device`halted, device`renameErrors
    ensures ok && Kept(device.files) == Some(first) && VAULT_BACKUP_PATH !in device.files
  {
    var recovered := RecoverInterruptedWrite(device);
    assert !recovered;
    ok := SaveEnvelope(device, first);
  }
}
