/** The storage the recovery image works on: a flat map from files to contents,
    the persistent security-version floor and the firmware slot, behind
    operations that can each fail or be cut short by a loss of power.

    Every operation takes one tick of `clock`, and `plan` says what happens at
    that tick. After a power loss the device is `halted`: the rest of the code
    still runs to its end in the model, but nothing it does reaches storage, so
    a contract that holds of a halted device holds of a crash at that point. */
module Storage {
  import opened Text
  import opened Paths

  type Bytes = string
  type Files = map<Path, Bytes>

  /** What happens at one tick. A failing write can leave a prefix of its data
      (`torn - 1` bytes of it), a failing tree removal any part of the tree, and a
      failing store of the floor can have stored it all the same. */
  datatype Fault =
    | Fine
    | Failing(powerLoss: bool, torn: nat, removed: set<Path>, stored: bool)
  {
    predicate PowersOff() {
      Failing? && powerLoss
    }
  }

  function Moved(files: Files, source: Path, target: Path): Files
    requires source in files
  {
    (files - {source})[target := files[source]]
  }

  /** `files` without the tree below `dir`. */
  function WithoutTree(files: Files, dir: Path): Files {
    map k | k in files && !(dir <= k) :: files[k]
  }

  /** `files` without those files of the tree below `dir` that are in `removed`. */
  function PartlyWithoutTree(files: Files, dir: Path, removed: set<Path>): Files {
    map k | k in files && !(dir <= k && k in removed) :: files[k]
  }

  function Torn(files: Files, path: Path, data: Bytes, torn: nat): Files {
    if torn == 0 then files
    else files[path := if torn - 1 < |data| then data[..torn - 1] else data]
  }

  function Prefix(data: Bytes, length: nat): Bytes {
    if length < |data| then data[..length] else data
  }

  predicate TreeExists(files: Files, dir: Path) {
    exists k :: k in files && dir <= k
  }

  /** One call of the boot selector: the version it was called for, the floor then
      persisted, and the firmware and the files then in place. */
  datatype Selection = Selection(version: u32, floor: u32, firmware: Bytes, files: Files)

  /** One call of the firmware writer: the image, and the files then in place. */
  datatype Flash = Flash(image: Bytes, files: Files)

  /** What is kept when the power goes, but for the boot selector. */
  datatype View = View(files: Files, firmware: Bytes, floor: Option<u32>, selections: seq<Selection>)

  datatype BootState = BootState(firmware: Bytes, floor: Option<u32>, selected: bool, selections: seq<Selection>)

  class Device {
    const plan: nat -> Fault
    /** Ticks at which a store of the floor reports success and stores nothing. */
    const dropsStore: nat -> bool
    var clock: nat
    var halted: bool
    var files: Files
    var floor: Option<u32>
    var firmware: Bytes
    var selected: bool
    ghost var selections: seq<Selection>
    ghost var flashes: seq<Flash>
    /** The ticks at which a rename returned an error, the power being on and staying on. */
    ghost var renameErrors: set<nat>

    constructor (plan: nat -> Fault, dropsStore: nat -> bool, files: Files, floor: Option<u32>, firmware: Bytes,
        selected: bool)
      ensures this.plan == plan && this.dropsStore == dropsStore && clock == 0 && !halted
      ensures this.files == files && this.floor == floor && this.firmware == firmware
      ensures this.selected == selected && selections == [] && flashes == [] && renameErrors == {}
    {
      this.plan := plan;
      this.dropsStore := dropsStore;
      clock := 0;
      halted := false;
      this.files := files;
      this.floor := floor;
      this.firmware := firmware;
      this.selected := selected;
      selections := [];
      flashes := [];
      renameErrors := {};
    }

    ghost function Seen(): View
      reads this
    {
      View(files, firmware, floor, selections)
    }

    /** What decides how the device boots next. */
    ghost function Boot(): BootState
      reads this
    {
      BootState(firmware, floor, selected, selections)
    }

    /** Whether the operation of the current tick takes effect. */
    predicate Works()
      reads this`clock, this`halted
    {
      !halted && plan(clock).Fine?
    }

    /** No fault strikes at a tick from `since` on and before `until`. */
    ghost predicate QuietBetween(since: nat, until: nat) {
      forall t :: since <= t < until ==> plan(t).Fine?
    }

    /** The power does not fail at a tick from `since` on and before `until`. */
    ghost predicate PoweredBetween(since: nat, until: nat) {
      forall t :: since <= t < until ==> !plan(t).PowersOff()
    }

    /** No store of the floor between these ticks reports success and stores nothing. */
    ghost predicate StoresBetween(since: nat, until: nat) {
      forall t :: since <= t < until ==> !dropsStore(t)
    }

    method PowerOn()
      modifies this`halted
      ensures !halted
    {
      halted := false;
    }

    /** Any step that may fail and leaves no trace in the files: a boundary
        callback, the creation of a directory, a closed file handle. */
    method Attempt() returns (ok: bool)
      modifies this`clock, this`halted
      ensures ok == old(Works())
      ensures clock == old(clock) + 1
      ensures halted == (old(halted) || plan(old(clock)).PowersOff())
    {
      ok := Works();
      halted := halted || plan(clock).PowersOff();
      clock := clock + 1;
    }

    method Read(path: Path) returns (content: Option<Bytes>)
      modifies this`clock, this`halted
      ensures content == if old(Works()) && path in files then Some(files[path]) else None
      ensures clock == old(clock) + 1
      ensures halted == (old(halted) || plan(old(clock)).PowersOff())
    {
      var ok := Attempt();
      content := if ok && path in files then Some(files[path]) else None;
    }

    method Rename(source: Path, target: Path) returns (ok: bool)
      modifies this`files, this`clock, this`halted, this`renameErrors
      ensures ok == (old(Works()) && source in old(files))
      ensures files == if ok then Moved(old(files), source, target) else old(files)
      ensures clock == old(clock) + 1
      ensures halted == (old(halted) || plan(old(clock)).PowersOff())
      ensures renameErrors == old(renameErrors) + if ok || halted then {} else {old(clock)}
    {
      ok := Attempt();
      ok := ok && source in files;
      if ok {
        files := Moved(files, source, target);
      } else if !halted {
        renameErrors := renameErrors + {clock - 1};
      }
    }

    /** Succeeds as well when there is no such file. */
    method RemoveIfPresent(path: Path) returns (ok: bool)
      modifies this`files, this`clock, this`halted
      ensures ok == old(Works())
      ensures files == if ok then old(files) - {path} else old(files)
      ensures clock == old(clock) + 1
      ensures halted == (old(halted) || plan(old(clock)).PowersOff())
    {
      ok := Attempt();
      if ok {
        files := files - {path};
      }
    }

    /** Creates or truncates the file, writes all of it and syncs it. */
    method Write(path: Path, data: Bytes) returns (ok: bool)
      modifies this`files, this`clock, this`halted
      ensures ok == old(Works())
      ensures files == if ok then old(files)[path := data]
                       else if old(halted) || plan(old(clock)).Fine? then old(files)
                       else Torn(old(files), path, data, plan(old(clock)).torn)
      ensures clock == old(clock) + 1
      ensures halted == (old(halted) || plan(old(clock)).PowersOff())
    {
      var alive, fault := !halted, plan(clock);
      ok := Attempt();
      if ok {
        files := files[path := data];
      } else if alive && fault.Failing? {
        files := Torn(files, path, data, fault.torn);
      }
    }

    /** Removes a directory tree, in no particular order. */
    method RemoveTree(dir: Path) returns (ok: bool)
      modifies this`files, this`clock, this`halted
      ensures ok == old(Works())
      ensures files == if ok then WithoutTree(old(files), dir)
                       else if old(halted) || plan(old(clock)).Fine? then old(files)
                       else PartlyWithoutTree(old(files), dir, plan(old(clock)).removed)
      ensures clock == old(clock) + 1
      ensures halted == (old(halted) || plan(old(clock)).PowersOff())
    {
      var alive, fault := !halted, plan(clock);
      ok := Attempt();
      if ok {
        files := WithoutTree(files, dir);
      } else if alive && fault.Failing? {
        files := PartlyWithoutTree(files, dir, fault.removed);
      }
    }

    /** Writes the firmware slot without touching the boot selector. */
    method WriteFirmware(image: Bytes) returns (ok: bool)
      modifies this`firmware, this`flashes, this`clock, this`halted
      ensures ok == old(Works())
      ensures firmware == if ok then image
                          else if old(halted) || plan(old(clock)).Fine? then old(firmware)
                          else Prefix(image, plan(old(clock)).torn)
      ensures flashes == old(flashes) + if old(halted) then [] else [Flash(image, files)]
      ensures clock == old(clock) + 1
      ensures halted == (old(halted) || plan(old(clock)).PowersOff())
    {
      var alive, fault := !halted, plan(clock);
      flashes := flashes + if halted then [] else [Flash(image, files)];
      ok := Attempt();
      if ok {
        firmware := image;
      } else if alive && fault.Failing? {
        firmware := Prefix(image, fault.torn);
      }
    }

    method LoadFloor() returns (value: Option<Option<u32>>)
      modifies this`clock, this`halted
      ensures value == if old(Works()) then Some(floor) else None
      ensures clock == old(clock) + 1
      ensures halted == (old(halted) || plan(old(clock)).PowersOff())
    {
      var ok := Attempt();
      value := if ok then Some(floor) else None;
    }

    method StoreFloor(value: u32) returns (ok: bool)
      modifies this`floor, this`clock, this`halted
      ensures ok == old(Works())
      ensures floor == if ok && !dropsStore(old(clock)) then Some(value)
                       else if !old(halted) && plan(old(clock)).Failing? && plan(old(clock)).stored then Some(value)
                       else old(floor)
      ensures clock == old(clock) + 1
      ensures halted == (old(halted) || plan(old(clock)).PowersOff())
    {
      var alive, at := !halted, clock;
      ok := Attempt();
      if (ok && !dropsStore(at)) || (alive && plan(at).Failing? && plan(at).stored) {
        floor := Some(value);
      }
    }

    /** The boot selector. Each call is recorded, whether it then fails or not. */
    method SelectBootPartition(version: u32) returns (ok: bool)
      modifies this`selected, this`selections, this`clock, this`halted
      ensures ok == old(Works())
      ensures selected == (ok || old(selected))
      ensures selections == if old(halted) then old(selections)
                            else old(selections)
                                 + [Selection(version, if floor.Some? then floor.value else 0, firmware, files)]
      ensures clock == old(clock) + 1
      ensures halted == (old(halted) || plan(old(clock)).PowersOff())
    {
      if !halted {
        selections := selections + [Selection(version, if floor.Some? then floor.value else 0, firmware, files)];
      }
      ok := Attempt();
      if ok {
        selected := true;
      }
    }
  }
}
