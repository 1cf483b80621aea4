/** The monotone security-version floor that gates the boot selector. */
module AntiRollback {
  import opened Text
  import opened Storage

  /** `load` failing is not the same as nothing being stored yet. */
  function CurrentVersion(loaded: Option<Option<u32>>): Result<u32> {
    match loaded
    case None => Err(Io)
    case Some(None) => Ok(0)
    case Some(Some(value)) => Ok(value)
  }

  method RequireNewer(device: Device, candidate: u32) returns (r: Result<u32>)
    modifies device`clock, device`halted
    ensures r.Ok? ==> candidate > 0 && r.value == FloorOf(device.floor) && r.value < candidate
    ensures r.Ok? ==> if device.floor.None? then r.value == 0 else device.floor == Some(r.value)
    ensures r.Ok? ==> !device.halted && !old(device.halted)
    ensures old(device.halted) ==> device.halted
    ensures device.halted <==> old(device.halted) || !device.PoweredBetween(old(device.clock), device.clock)
    ensures device.clock >= old(device.clock)
    ensures r.Err? ==>
              old(device.halted) || candidate == 0 || (device.floor.Some? && candidate <= device.floor.value)
              || !device.QuietBetween(old(device.clock), device.clock)
    ensures device.clock <= old(device.clock) + 1
  {
    if candidate == 0 {
      return Err(InvalidInput("firmware security version must be greater than zero"));
    }
    var loaded := device.LoadFloor();
    var current := CurrentVersion(loaded);
    if current.Err? {
      return Err(current.error);
    }
    if candidate <= current.value {
      return Err(InvalidInput("firmware security version is not newer"));
    }
    return current;
  }

  function FloorOf(floor: Option<u32>): u32 {
    match floor
    case None => 0
    case Some(value) => value
  }

  /** Every selector call was made with the floor persisted at the very version it
      was made for, and their versions strictly increase up to the floor. */
  ghost predicate SelectionsCovered(selections: seq<Selection>, floor: u32) {
    && (forall s :: s in selections ==> s.version == s.floor && s.version <= floor)
    && (forall i, j :: 0 <= i < j < |selections| ==> selections[i].version < selections[j].version)
  }

  /** `advance_before_activation`, with the boot selector as its `activate`. */
  method AdvanceBeforeActivation(device: Device, candidate: u32) returns (r: Result<()>)
    modifies device`clock, device`halted, device`floor, device`selected, device`selections
    ensures FloorOf(device.floor) == FloorOf(old(device.floor))
            || FloorOf(old(device.floor)) < FloorOf(device.floor) == candidate
    ensures r.Ok? ==>
              FloorOf(device.floor) == candidate > FloorOf(old(device.floor)) && device.selected && !device.halted
    ensures r.Ok? ==> |device.selections| == |old(device.selections)| + 1
    ensures device.selections == old(device.selections)
            || device.selections == old(device.selections)
                + [Selection(candidate, candidate, device.firmware, device.files)]
    ensures device.selections != old(device.selections) ==>
              FloorOf(old(device.floor)) < candidate == FloorOf(device.floor)
    ensures SelectionsCovered(old(device.selections), FloorOf(old(device.floor)))
            ==> SelectionsCovered(device.selections, FloorOf(device.floor))
    ensures r.Err? ==> device.selected == old(device.selected)
    // a newer candidate is refused only because of a fault or a store that did not happen
    ensures r.Err? && FloorOf(old(device.floor)) < candidate && !old(device.halted) ==>
              || !device.QuietBetween(old(device.clock), device.clock)
              || !device.StoresBetween(old(device.clock), device.clock)
    ensures old(device.halted) ==> device.halted && r.Err? && device.floor == old(device.floor)
    ensures device.halted <==> old(device.halted) || !device.PoweredBetween(old(device.clock), device.clock)
    ensures device.clock >= old(device.clock)
  {
    var newer := RequireNewer(device, candidate);
    if newer.Err? {
      return Err(newer.error);
    }
    var stored := device.StoreFloor(candidate);
    if !stored {
      return Err(Io);
    }
    var loaded := device.LoadFloor();
    var persisted := CurrentVersion(loaded);
    if persisted.Err? {
      return Err(persisted.error);
    }
    if persisted.value != candidate {
      return Err(InvalidData("anti-rollback readback mismatch"));
    }
    var ok := device.SelectBootPartition(candidate);
    return if ok then Ok(()) else Err(Io);
  }

  /** What an activation attempt starts from and ends with. */
  datatype Standing = Standing(clock: nat, floor: u32, selections: seq<Selection>)

  ghost function StandingOf(device: Device): Standing
    reads device
  {
    Standing(device.clock, FloorOf(device.floor), device.selections)
  }

  /** One attempt, on a device with power: it succeeds for a newer candidate unless a
      fault strikes or a store does not happen, and never for another one. */
  ghost predicate Attempts(device: Device, before: Standing, candidate: u32, r: Result<()>, after: Standing) {
    && before.clock <= after.clock
    && (r.Ok? ==> before.floor < candidate == after.floor && |after.selections| == |before.selections| + 1)
    && (r.Err? && before.floor < candidate ==>
          !device.QuietBetween(before.clock, after.clock) || !device.StoresBetween(before.clock, after.clock))
    && (after.floor == before.floor || before.floor < after.floor == candidate)
    && before.selections <= after.selections
    && (after.selections != before.selections ==>
          && |after.selections| == |before.selections| + 1
          && after.selections[|before.selections|].version == after.selections[|before.selections|].floor == candidate
          && before.floor < candidate == after.floor)
  }

  /** Any number of activation attempts, each on a freshly powered device, with any
      faults: the floor never decreases, and the boot selector is only ever called
      for strictly increasing versions, each with its own version as the floor. */
  method AdvanceRuns(device: Device, candidates: seq<u32>)
    returns (results: seq<Result<()>>, ghost standings: seq<Standing>)
    requires SelectionsCovered(device.selections, FloorOf(device.floor))
    modifies device`clock, device`halted, device`floor, device`selected, device`selections
    ensures |results| == |candidates| == |standings| - 1
    ensures standings[0] == old(StandingOf(device)) && standings[|candidates|] == StandingOf(device)
    ensures forall i :: 0 <= i < |candidates| ==>
              Attempts(device, standings[i], candidates[i], results[i], standings[i + 1])
    ensures FloorOf(old(device.floor)) <= FloorOf(device.floor)
    ensures SelectionsCovered(device.selections, FloorOf(device.floor))
    ensures old(device.selections) <= device.selections
    ensures forall s :: s in device.selections[|old(device.selections)|..] ==>
              FloorOf(old(device.floor)) < s.version && s.version in candidates
  {
    results, standings := [], [StandingOf(device)];
    for i := 0 to |candidates|
      invariant |results| == i && |standings| == i + 1
      invariant standings[0] == old(StandingOf(device)) && standings[i] == StandingOf(device)
      invariant forall k :: 0 <= k < i ==> Attempts(device, standings[k], candidates[k], results[k], standings[k + 1])
      invariant FloorOf(old(device.floor)) <= FloorOf(device.floor)
      invariant SelectionsCovered(device.selections, FloorOf(device.floor))
      invariant old(device.selections) <= device.selections
      invariant forall s :: s in device.selections[|old(device.selections)|..] ==>
                  FloorOf(old(device.floor)) < s.version && s.version in candidates
    {
      device.PowerOn();
      var r := AdvanceBeforeActivation(device, candidates[i]);
      assert Attempts(device, standings[i], candidates[i], r, StandingOf(device));
      results, standings := results + [r], standings + [StandingOf(device)];
    }
  }
}
