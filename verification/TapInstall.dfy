/** The transactional installation of TAP packages: numbered generations, a receipt,
    and an activation record that is switched last.

    As in `Storage`, every operation takes one tick of `clock`, and `plan` says
    whether it raises an exception or the machine stops there; on a stopped
    machine nothing that the code still does has any effect. */
module TapInstall {
  import opened Text

  type Bytes = string
  type Contents = map<string, Bytes>

  /** A failing write leaves a file cut off at `partial` bytes, a failing tree removal takes only `removed`. */
  datatype Fault = Fine | Failing(stops: bool, partial: nat, removed: set<string>)

  /** The parts of a validated package that the installation uses; its entries are distinct. */
  datatype Package = Package(version: string, sequence: nat, entries: seq<(string, Bytes)>)

  datatype Record = Record(version: string, sequence: nat)

  datatype RecordFile = Missing | Unreadable | Readable(record: Record)

  datatype TapResult =
    | Installed
    | InvalidRecord
    | RefusedDowngrade(from: nat)
    | GenerationExists
    | Raised

  function ContentsOf(entries: seq<(string, Bytes)>): Contents {
    if entries == [] then map[]
    else
      var n := |entries| - 1;
      ContentsOf(entries[..n])[entries[n].0 := entries[n].1]
  }

  lemma {:induction false} NamesOf(entries: seq<(string, Bytes)>)
    ensures ContentsOf(entries).Keys == set i | 0 <= i < |entries| :: entries[i].0
  {
    if entries != [] {
      NamesOf(entries[..|entries| - 1]);
    }
  }

  /** Each name has the data of its entry, and there is no other name. */
  lemma {:induction false} ContentsMeaning(entries: seq<(string, Bytes)>, k: nat)
    requires DistinctNames(entries) && k < |entries|
    ensures entries[k].0 in ContentsOf(entries) && ContentsOf(entries)[entries[k].0] == entries[k].1
    decreases |entries|
  {
    var n := |entries| - 1;
    assert DistinctNames(entries[..n]) by {
      assert forall i :: 0 <= i < n ==> entries[..n][i] == entries[i];
    }
    if k < n {
      ContentsMeaning(entries[..n], k);
      assert entries[..n][k] == entries[k];
    }
  }

  /** A generation holds a package: every file of the package with its data, and no other file. */
  ghost predicate Contains(contents: Contents, package: Package) {
    && (forall k :: 0 <= k < |package.entries| ==>
          && package.entries[k].0 in contents
          && contents[package.entries[k].0] == package.entries[k].1)
    && forall name :: name in contents ==> exists k :: 0 <= k < |package.entries| && package.entries[k].0 == name
  }

  lemma ContentsAreContained(package: Package)
    requires DistinctNames(package.entries)
    ensures Contains(ContentsOf(package.entries), package)
  {
    hide ContentsOf;
    NamesOf(package.entries);
    forall k | 0 <= k < |package.entries|
      ensures package.entries[k].0 in ContentsOf(package.entries)
      ensures ContentsOf(package.entries)[package.entries[k].0] == package.entries[k].1
    {
      ContentsMeaning(package.entries, k);
    }
  }

  /** The name of entry `n` is in the way of itself exactly when it was there before. */
  lemma RepeatedName(entries: seq<(string, Bytes)>, n: nat)
    requires n < |entries| && DistinctNames(entries[..n])
    ensures DistinctNames(entries[..n + 1]) <==> entries[n].0 !in ContentsOf(entries[..n])
    ensures DistinctNames(entries) ==> DistinctNames(entries[..n + 1])
  {
    NamesOf(entries[..n]);
    if entries[n].0 in ContentsOf(entries[..n]) {
      var i :| 0 <= i < n && entries[..n][i].0 == entries[n].0;
      assert entries[..n + 1][i].0 == entries[..n + 1][n].0;
    }
  }

  /** The names in an archive are distinct, as validation sees to. */
  ghost predicate DistinctNames(entries: seq<(string, Bytes)>) {
    forall i, j :: 0 <= i < j < |entries| ==> entries[i].0 != entries[j].0
  }

  ghost predicate AllFine(plan: nat -> Fault, from: nat, until: nat) {
    forall t :: from <= t < until ==> plan(t).Fine?
  }

  /** The steps of an installation that begins at tick `c`: two directories, the
      entries and the move, then two steps each for the receipt and the record. */
  function MoveTick(package: Package, c: nat): nat {
    c + 2 + |package.entries|
  }

  /** An installation that begins at tick `c` moves its generation into place and is
      then cut off: a step for the receipt or the record stops the machine, or it
      fails and so does the removal of the generation. */
  ghost predicate LeavesGeneration(plan: nat -> Fault, package: Package, c: nat) {
    && DistinctNames(package.entries)
    && AllFine(plan, c, MoveTick(package, c) + 1)
    && CutOffWithin(plan, MoveTick(package, c) + 1, 4)
  }

  /** One of the `steps` steps from tick `t` on is the last: it stops the machine,
      or it fails and the step after it fails as well. */
  ghost predicate CutOffWithin(plan: nat -> Fault, t: nat, steps: nat)
    decreases steps
  {
    steps > 0 && if plan(t).Fine? then CutOffWithin(plan, t + 1, steps - 1) else plan(t).stops || plan(t + 1).Failing?
  }

  lemma {:induction false} CutOffAt(plan: nat -> Fault, from: nat, steps: nat, t: nat)
    requires from <= t < from + steps && AllFine(plan, from, t) && plan(t).Failing?
    ensures CutOffWithin(plan, from, steps) <==> plan(t).stops || plan(t + 1).Failing?
    decreases steps
  {
    if from < t {
      CutOffAt(plan, from + 1, steps - 1, t);
    }
  }

  lemma {:induction false} NeverCutOff(plan: nat -> Fault, from: nat, steps: nat)
    requires AllFine(plan, from, from + steps)
    ensures !CutOffWithin(plan, from, steps)
    decreases steps
  {
    if steps > 0 {
      NeverCutOff(plan, from + 1, steps - 1);
    }
  }

  lemma Kept(before: map<nat, Contents>, after: map<nat, Contents>, sequence: nat)
    requires after - {sequence} == before - {sequence}
    ensures forall n :: n in before && n != sequence ==> n in after && after[n] == before[n]
  {
    forall n | n in before && n != sequence
      ensures n in after && after[n] == before[n]
    {
      assert n in before - {sequence};
      assert (after - {sequence})[n] == before[n];
    }
  }

  /** What decides how an installation goes, and what it changes. */
  datatype AppState = AppState(clock: nat, generations: map<nat, Contents>, active: RecordFile)

  /** The checks on the activation record let the package pass. */
  predicate Admits(active: RecordFile, package: Package, allowDowngrade: bool) {
    active.Missing? || (active.Readable? && (allowDowngrade || package.sequence >= active.record.sequence))
  }

  /** An installation on a running machine, from one state to the next: which outcome
      it has, and everything it leaves. */
  ghost predicate Installs(plan: nat -> Fault, before: AppState, package: Package, allowDowngrade: bool,
                           r: TapResult, after: AppState) {
    var here := package.sequence in before.generations;
    var admitted := Admits(before.active, package, allowDowngrade);
    && before.clock <= after.clock
    && (r.InvalidRecord? <==> before.active.Unreadable?)
    && (r.RefusedDowngrade? <==>
          before.active.Readable? && !allowDowngrade && before.active.record.sequence > package.sequence)
    && (r.RefusedDowngrade? ==> r.from == before.active.record.sequence)
    && (r.GenerationExists? <==> admitted && here)
    && (r.Installed? || r.Raised? <==> admitted && !here)
    && (r.Installed? <==>
          && admitted && !here && DistinctNames(package.entries)
          && AllFine(plan, before.clock, MoveTick(package, before.clock) + 5))
    && after.active == (if r.Installed? then Readable(Record(package.version, package.sequence)) else before.active)
    && (r.Installed? ==> Holds(after.generations, package))
    && after.generations - {package.sequence} == before.generations - {package.sequence}
    && (!r.Installed? && !r.Raised? ==> after.generations == before.generations)
    && (r.Raised? ==>
          (package.sequence in after.generations <==> LeavesGeneration(plan, package, before.clock)))
  }

  /** What one application has under the apps root. */
  class AppDir {
    const plan: nat -> Fault
    var clock: nat
    var stopped: bool
    var generations: map<nat, Contents>
    var stage: Option<Contents>
    var receipt: RecordFile
    var active: RecordFile

    constructor (plan: nat -> Fault)
      ensures this.plan == plan && clock == 0 && !stopped
      ensures generations == map[] && stage == None && receipt == Missing && active == Missing
    {
      this.plan, clock, stopped := plan, 0, false;
      generations, stage, receipt, active := map[], None, Missing, Missing;
    }

    /** The activation record, if there is one, names a generation that is there. */
    ghost predicate Sound()
      reads this
    {
      active.Readable? ==> active.record.sequence in generations
    }

    ghost function State(): AppState
      reads this
    {
      AppState(clock, generations, active)
    }

    /** One operation: whether it takes effect. */
    method Step() returns (ok: bool)
      modifies this`clock, this`stopped
      ensures ok == (!old(stopped) && plan(old(clock)).Fine?)
      ensures clock == old(clock) + 1
      ensures stopped == (old(stopped) || (plan(old(clock)).Failing? && plan(old(clock)).stops))
    {
      ok := !stopped && plan(clock).Fine?;
      stopped := stopped || (plan(clock).Failing? && plan(clock).stops);
      clock := clock + 1;
    }

    /** Copy one entry into the stage; a file of that name must not be there. */
    method Extract(name: string, data: Bytes) returns (ok: bool)
      requires stage.Some?
      modifies this`clock, this`stopped, this`stage
      ensures stage.Some?
      ensures ok == (name !in old(stage).value && !old(stopped) && plan(old(clock)).Fine?)
      ensures ok ==> stage.value == old(stage).value[name := data] && clock == old(clock) + 1 && !stopped
      ensures old(stopped) ==> stage == old(stage) && stopped
      ensures old(clock) <= clock
    {
      var alive, fault := !stopped, plan(clock);
      if name in stage.value {
        return false;
      }
      ok := Step();
      if ok {
        stage := Some(stage.value[name := data]);
      } else if alive && fault.Failing? && fault.partial > 0 {
        stage := Some(stage.value[name := if fault.partial <= |data| then data[..fault.partial - 1] else data]);
      }
    }

    /** `shutil.rmtree` of the stage. */
    method RemoveStage()
      modifies this`clock, this`stopped, this`stage
      ensures old(stopped) ==> stage == old(stage) && stopped
      ensures old(clock) <= clock
    {
      var ok := Step();
      if ok {
        stage := None;
      }
    }

    /** `shutil.rmtree` of a generation. */
    method RemoveGeneration(sequence: nat)
      modifies this`clock, this`stopped, this`generations
      ensures generations - {sequence} == old(generations) - {sequence}
      ensures sequence in generations <==> sequence in old(generations) && (old(stopped) || plan(old(clock)).Failing?)
      ensures old(stopped) ==> generations == old(generations) && stopped
      ensures old(clock) <= clock
    {
      var alive, fault := !stopped, plan(clock);
      var ok := Step();
      if ok {
        generations := generations - {sequence};
      } else if alive && fault.Failing? && sequence in generations {
        var left := map name | name in generations[sequence] && name !in fault.removed :: generations[sequence][name];
        generations := generations[sequence := left];
      }
    }

    /** The extraction loop. */
    method ExtractAll(package: Package) returns (ok: bool)
      requires stage == Some(map[]) && !stopped
      modifies this`clock, this`stopped, this`stage
      ensures stage.Some?
      ensures ok == (DistinctNames(package.entries) && AllFine(plan, old(clock), old(clock) + |package.entries|))
      ensures ok ==> stage.value == ContentsOf(package.entries) && clock == old(clock) + |package.entries| && !stopped
      ensures old(clock) <= clock
    {
      var entries := package.entries;
      assert entries[..0] == [];
      for i := 0 to |entries|
        invariant stage == Some(ContentsOf(entries[..i])) && DistinctNames(entries[..i])
        invariant clock == old(clock) + i && AllFine(plan, old(clock), clock)
        invariant !stopped
      {
        assert entries[..i + 1][..i] == entries[..i];
        NamesOf(entries[..i]);
        RepeatedName(entries, i);
        ok := Extract(entries[i].0, entries[i].1);
        if !ok { return; }
      }
      assert entries[..|entries|] == entries;
      ok := true;
    }

    /** Write a file under a temporary name, then move it into place: whether it is. */
    method ReplaceFile() returns (ok: bool)
      modifies this`clock, this`stopped
      ensures ok ==> !old(stopped) && !stopped && clock == old(clock) + 2 && AllFine(plan, old(clock), clock)
      ensures !ok && !old(stopped) ==>
                && old(clock) < clock <= old(clock) + 2
                && AllFine(plan, old(clock), clock - 1) && plan(clock - 1).Failing? && stopped == plan(clock - 1).stops
      ensures old(stopped) ==> !ok && stopped
    {
      ok := Step();
      if !ok { return; }
      ok := Step();
    }

    /** The `try` block: extract, move into place, write the receipt, switch the record. */
    method Activate(package: Package) returns (ok: bool, activated: bool)
      requires stage == Some(map[]) && package.sequence !in generations && !stopped
      modifies this
      ensures ok <==> DistinctNames(package.entries) && AllFine(plan, old(clock), old(clock) + |package.entries| + 5)
      ensures activated <==>
                DistinctNames(package.entries) && AllFine(plan, old(clock), old(clock) + |package.entries| + 1)
      ensures ok ==> active == Readable(Record(package.version, package.sequence)) && receipt == active
      ensures !ok ==> active == old(active)
      ensures activated ==> Holds(generations, package)
      ensures generations == if !activated then old(generations)
                             else old(generations)[package.sequence := ContentsOf(package.entries)]
      ensures activated ==> stage == None
      ensures old(clock) <= clock
      ensures activated && !ok ==>
                && old(clock) + |package.entries| + 1 < clock <= old(clock) + |package.entries| + 5
                && AllFine(plan, old(clock), clock - 1) && plan(clock - 1).Failing? && stopped == plan(clock - 1).stops
    {
      hide ContentsOf, Contains, DistinctNames;
      if DistinctNames(package.entries) {
        ContentsAreContained(package);
      }
      activated := false;
      ok := ExtractAll(package);
      if !ok { return; }
      ok := Step();
      if !ok { return; }
      generations := generations[package.sequence := stage.value];
      stage := None;
      activated := true;
      var record := Readable(Record(package.version, package.sequence));
      ok := ReplaceFile();
      if !ok { return; }
      receipt := record;
      ok := ReplaceFile();
      if !ok { return; }
      active := record;
    }

    /** The `except` block. */
    method CleanUp(sequence: nat, activated: bool)
      modifies this`clock, this`stopped, this`stage, this`generations
      ensures generations - {sequence} == old(generations) - {sequence}
      ensures !activated ==> generations == old(generations)
      ensures activated && old(stage) == None ==>
                (sequence in generations <==>
                      sequence in old(generations) && (old(stopped) || plan(old(clock)).Failing?))
      ensures old(stopped) ==> generations == old(generations) && stopped
      ensures old(clock) <= clock
    {
      if stage.Some? {
        RemoveStage();
      }
      if activated && sequence in generations {
        RemoveGeneration(sequence);
      }
    }

    /** `install_package`, after the package has been validated: the checks. */
    method Install(package: Package, allowDowngrade: bool) returns (r: TapResult)
      requires Sound()
      modifies this
      ensures Sound()
      // on a running machine: which outcome, and what it leaves
      ensures !old(stopped) ==> Installs(plan, old(State()), package, allowDowngrade, r, State())
      ensures !r.Installed? && !r.Raised? ==>
                State() == old(State()) && receipt == old(receipt) && stage == old(stage) && stopped == old(stopped)
      ensures r.Installed? ==> receipt == active
      // on a stopped one nothing happens
      ensures old(stopped) ==> !r.Installed? && stopped && generations == old(generations) && active == old(active)
    {
      hide ContentsOf, Contains, DistinctNames, AllFine, LeavesGeneration;
      if active != Missing {
        if active == Unreadable {
          return InvalidRecord;
        }
        if !allowDowngrade && package.sequence < active.record.sequence {
          return RefusedDowngrade(active.record.sequence);
        }
      }
      if package.sequence in generations {
        return GenerationExists;
      }
      var ok := InstallGeneration(package);
      Kept(old(generations), generations, package.sequence);
      return if ok then Installed else Raised;
    }

    /** The rest of `install_package`, for a generation that is not there. */
    method InstallGeneration(package: Package) returns (ok: bool)
      requires package.sequence !in generations
      modifies this
      ensures ok <==>
                && !old(stopped) && DistinctNames(package.entries)
                && AllFine(plan, old(clock), MoveTick(package, old(clock)) + 5)
      ensures ok ==>
                active == Readable(Record(package.version, package.sequence)) && receipt == active
                && Holds(generations, package)
      ensures !ok ==> active == old(active)
      ensures generations - {package.sequence} == old(generations) - {package.sequence}
      ensures !ok ==>
                (package.sequence in generations <==> !old(stopped) && LeavesGeneration(plan, package, old(clock)))
      ensures old(stopped) ==> generations == old(generations) && stopped
      ensures old(clock) <= clock
    {
      hide ContentsOf, Contains, DistinctNames, CutOffWithin;
      ghost var began := clock;
      ok := Step();
      if !ok { return; }
      ok := Step();
      if !ok { return; }
      stage := Some(map[]);
      var activated: bool;
      ok, activated := Activate(package);
      if ok { return; }
      if activated {
        CutOffAt(plan, MoveTick(package, began) + 1, 4, clock - 1);
      }
      CleanUp(package.sequence, activated);
    }
  }

  /** Which requests were installed, in order. */
  function Activated(results: seq<TapResult>): (activated: seq<nat>)
    ensures forall k :: 0 <= k < |activated| ==> activated[k] < |results|
  {
    if results == [] then []
    else
      var n := |results| - 1;
      Activated(results[..n]) + (if results[n].Installed? then [n] else [])
  }

  /** Each request, in turn, takes the application from one state to the next. */
  ghost predicate RunOf(plan: nat -> Fault, requests: seq<(Package, bool)>, results: seq<TapResult>,
                        states: seq<AppState>) {
    && |results| <= |requests| && |states| == |results| + 1
    && forall i :: 0 <= i < |results| ==>
         Installs(plan, states[i], requests[i].0, requests[i].1, results[i], states[i + 1])
  }

  /** Any number of installations, each with any exceptions and stops, with their
      results and the states between them. The record names the last request that
      was installed, the generations of all that were are there, each with the
      contents of its package, and without `allow_downgrade` their sequence numbers
      only ever grow. */
  method InstallRuns(dir: AppDir, requests: seq<(Package, bool)>)
    returns (results: seq<TapResult>, ghost states: seq<AppState>)
    requires dir.Sound()
    modifies dir
    ensures dir.Sound()
    ensures |results| == |requests| && RunOf(dir.plan, requests, results, states)
    ensures states[0] == old(dir.State()) && states[|requests|] == dir.State()
    ensures var activated := Activated(results);
            && (activated == [] ==> dir.active == old(dir.active))
            && (activated != [] ==>
                  var last := requests[activated[|activated| - 1]].0;
                  dir.active == Readable(Record(last.version, last.sequence)))
            && AllHeld(requests, activated, old(dir.generations), dir.generations)
            && InOrder(requests, activated, |requests|, old(dir.active))
  {
    hide ContentsOf, Contains, DistinctNames, AllFine, LeavesGeneration, AllHeld, InOrder, Installs, RunOf, Activated;
    results, states := [], [dir.State()];
    Nothing(requests, dir.generations, dir.active);
    NothingRun(dir.plan, requests, dir.State());
    for i := 0 to |requests|
      invariant dir.Sound() && |results| == i && |states| == i + 1
      invariant states[0] == old(dir.State()) && states[i] == dir.State()
      invariant RunOf(dir.plan, requests, results, states)
      invariant InOrder(requests, Activated(results), i, old(dir.active))
      invariant dir.active == LastRecord(requests, Activated(results), old(dir.active))
      invariant AllHeld(requests, Activated(results), old(dir.generations), dir.generations)
    {
      dir.stopped := false;
      ghost var before, active, activated := dir.generations, dir.active, Activated(results);
      var r := dir.Install(requests[i].0, requests[i].1);
      InstallsMeans(dir.plan, states[i], requests[i].0, requests[i].1, r, dir.State());
      StillHeld(requests, activated, old(dir.generations), before, dir.generations, requests[i].0.sequence);
      OneMoreResult(results, r);
      OneMoreStep(dir.plan, requests, results, states, r, dir.State());
      if r.Installed? {
        OneMoreHeld(requests, activated, old(dir.generations), before, dir.generations, i);
        OneMoreInOrder(requests, activated, i, old(dir.active), active);
      }
      Later(requests, activated, i, old(dir.active));
      results, states := results + [r], states + [dir.State()];
    }
  }

  function LastRecord(requests: seq<(Package, bool)>, activated: seq<nat>, first: RecordFile): RecordFile
    requires forall k :: 0 <= k < |activated| ==> activated[k] < |requests|
  {
    if activated == [] then first
    else
      var last := requests[activated[|activated| - 1]].0;
      Readable(Record(last.version, last.sequence))
  }

  lemma InstallsMeans(plan: nat -> Fault, before: AppState, package: Package, allowDowngrade: bool,
                      r: TapResult, after: AppState)
    requires Installs(plan, before, package, allowDowngrade, r, after)
    requires before.active.Readable? ==> before.active.record.sequence in before.generations
    ensures after.generations - {package.sequence} == before.generations - {package.sequence}
    ensures package.sequence in before.generations ==> after.generations == before.generations
    ensures after.active == if r.Installed? then Readable(Record(package.version, package.sequence)) else before.active
    ensures r.Installed? ==> package.sequence !in before.generations && Holds(after.generations, package)
    ensures r.Installed? && before.active.Readable? && !allowDowngrade ==>
              before.active.record.sequence < package.sequence
  {
    hide ContentsOf, Contains, DistinctNames, AllFine, LeavesGeneration;
  }

  lemma NothingRun(plan: nat -> Fault, requests: seq<(Package, bool)>, state: AppState)
    ensures RunOf(plan, requests, [], [state]) && Activated([]) == []
  {
  }

  lemma OneMoreResult(results: seq<TapResult>, r: TapResult)
    ensures Activated(results + [r]) == if r.Installed? then Activated(results) + [|results|] else Activated(results)
  {
    assert (results + [r])[..|results|] == results;
    assert Activated(results) + [] == Activated(results);
  }

  lemma OneMoreStep(plan: nat -> Fault, requests: seq<(Package, bool)>, results: seq<TapResult>, states: seq<AppState>,
                    r: TapResult, state: AppState)
    requires RunOf(plan, requests, results, states) && |results| < |requests|
    requires Installs(plan, states[|results|], requests[|results|].0, requests[|results|].1, r, state)
    ensures RunOf(plan, requests, results + [r], states + [state])
  {
    hide Installs;
  }

  /** The generations of the requests `activated` hold the contents of their
      packages, and were not there before; what was there before still is. */
  ghost predicate AllHeld(requests: seq<(Package, bool)>, activated: seq<nat>, before: map<nat, Contents>,
                          after: map<nat, Contents>) {
    && (forall k :: 0 <= k < |activated| ==>
          && activated[k] < |requests|
          && Holds(after, requests[activated[k]].0)
          && requests[activated[k]].0.sequence !in before)
    && (forall n :: n in before ==> n in after && after[n] == before[n])
  }

  /** The requests `activated` are among the first `n`, in order, and their sequence
      numbers strictly increase unless a request allows a downgrade. */
  ghost predicate InOrder(requests: seq<(Package, bool)>, activated: seq<nat>, n: nat, first: RecordFile) {
    && (forall k :: 0 <= k < |activated| ==> activated[k] < n <= |requests|)
    && (forall k, l :: 0 <= k < l < |activated| ==> activated[k] < activated[l])
    && ((forall i :: 0 <= i < |requests| ==> !requests[i].1) ==>
          && (forall k, l :: 0 <= k < l < |activated| ==>
                requests[activated[k]].0.sequence < requests[activated[l]].0.sequence)
          && (first.Readable? ==>
                forall k :: 0 <= k < |activated| ==> first.record.sequence < requests[activated[k]].0.sequence))
  }

  lemma StillHeld(requests: seq<(Package, bool)>, activated: seq<nat>,
                  first: map<nat, Contents>, before: map<nat, Contents>, after: map<nat, Contents>, sequence: nat)
    requires AllHeld(requests, activated, first, before)
    requires after - {sequence} == before - {sequence}
    requires sequence in before ==> after == before
    ensures AllHeld(requests, activated, first, after)
  {
    hide ContentsOf;
    Kept(before, after, sequence);
  }

  lemma OneMoreHeld(requests: seq<(Package, bool)>, activated: seq<nat>,
                    first: map<nat, Contents>, before: map<nat, Contents>, after: map<nat, Contents>, i: nat)
    requires i < |requests| && AllHeld(requests, activated, first, before) && AllHeld(requests, activated, first, after)
    requires requests[i].0.sequence !in before && Holds(after, requests[i].0)
    ensures AllHeld(requests, activated + [i], first, after)
  {
  }

  lemma Nothing(requests: seq<(Package, bool)>, generations: map<nat, Contents>, active: RecordFile)
    ensures AllHeld(requests, [], generations, generations) && InOrder(requests, [], 0, active)
  {
  }

  lemma OneMoreInOrder(requests: seq<(Package, bool)>, activated: seq<nat>, i: nat, first: RecordFile,
                       active: RecordFile)
    requires i < |requests| && InOrder(requests, activated, i, first)
    requires (forall k :: 0 <= k < |activated| ==> activated[k] < |requests|)
             && active == LastRecord(requests, activated, first)
    requires active.Readable? && !requests[i].1 ==> active.record.sequence < requests[i].0.sequence
    ensures InOrder(requests, activated + [i], i + 1, first)
  {
  }

  lemma Later(requests: seq<(Package, bool)>, activated: seq<nat>, i: nat, first: RecordFile)
    requires i < |requests|
    ensures InOrder(requests, activated, i, first) ==> InOrder(requests, activated, i + 1, first)
  {
  }

  ghost predicate Holds(generations: map<nat, Contents>, package: Package) {
    package.sequence in generations && Contains(generations[package.sequence], package)
  }

  /** A package whose installation raised or was cut off, and then again: the second
      attempt is refused because of the first exactly when that one left its
      generation behind. */
  method InstallAgain(dir: AppDir, package: Package, allowDowngrade: bool) returns (first: TapResult, second: TapResult)
    requires dir.Sound() && !dir.stopped
    modifies dir
    ensures first.Raised? ==>
              (second.GenerationExists? <==> LeavesGeneration(dir.plan, package, old(dir.clock)))
    ensures LeavesGeneration(dir.plan, package, old(dir.clock)) ==>
              package.sequence !in old(dir.generations) && Admits(old(dir.active), package, allowDowngrade) ==>
                first.Raised? && second.GenerationExists?
    ensures first.Raised? && !second.GenerationExists? ==> second.Installed? || second.Raised?
    ensures first.Raised? && second.GenerationExists? ==>
              dir.active == old(dir.active) && package.sequence in dir.generations
  {
    hide ContentsOf, Contains, DistinctNames, AllFine, LeavesGeneration;
    LeavingIsFailing(dir.plan, package, dir.clock);
    first := dir.Install(package, allowDowngrade);
    dir.stopped := false;
    second := dir.Install(package, allowDowngrade);
  }

  lemma LeavingIsFailing(plan: nat -> Fault, package: Package, c: nat)
    ensures LeavesGeneration(plan, package, c) ==> !AllFine(plan, c, MoveTick(package, c) + 5)
  {
    if AllFine(plan, c, MoveTick(package, c) + 5) {
      NeverCutOff(plan, MoveTick(package, c) + 1, 4);
    }
  }

  /** The machine stops at tick 3, in the receipt of a package without entries; nothing else fails. */
  function StopsAtTheReceipt(): nat -> Fault {
    t => if t == 3 then Failing(true, 0, {}) else Fine
  }

  lemma ReceiptLeavesGeneration(version: string, sequence: nat)
    ensures LeavesGeneration(StopsAtTheReceipt(), Package(version, sequence, []), 0)
  {
    assert MoveTick(Package(version, sequence, []), 0) == 2;
  }

  /** Such a run: the same package is refused from then on, although it was never activated. */
  method BlockedByItsOwnRemains(version: string, sequence: nat) returns (first: TapResult, second: TapResult)
    ensures first == Raised && second == GenerationExists
  {
    var dir := new AppDir(StopsAtTheReceipt());
    ReceiptLeavesGeneration(version, sequence);
    first, second := InstallAgain(dir, Package(version, sequence, []), false);
  }
}
