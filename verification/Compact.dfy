/** Compacting a disk: trim, stop, wait until it is released, compact, start again (src/lib/ops/compact.cpp, with
    `run_fstrim` of src/lib/ops/trim.cpp). */
module Compact {
  import opened Results
  import opened Units
  import Distro
  import opened Machine
  import opened Operations
  import Paths
  import Size
  import opened TrimOutput

  const POLL_INTERVAL_MS: nat := 500

  datatype Options = Options(trim: bool, shutdown: bool, restart: bool, unlockTimeout: nat)

  predicate AnyMatches(names: seq<Bytes>, wanted: Bytes) {
    exists k | 0 <= k < |names| :: Distro.FindMatches(wanted, names[k])
  }

  /** The names that are not `wanted`. */
  function Others(names: seq<Bytes>, wanted: Bytes): (others: seq<Bytes>)
    ensures others == [] <==> forall k | 0 <= k < |names| :: Distro.FindMatches(wanted, names[k])
  {
    if names == [] then [] else
      (if Distro.FindMatches(wanted, names[0]) then [] else [names[0]]) + Others(names[1..], wanted)
  }

  // ---- What was done ----------------------------------------------------------------------------

  /** Calls that neither measure the disk, nor open it, nor start a distribution for good. */
  predicate Quiet(call: Call) {
    !call.Measure? && !call.Open? && !call.Compact? && !call.Boot?
  }

  /** Event by event since `from`, the registry and the files stayed as they were. */
  ghost predicate Untouched(journal: seq<Event>, from: nat, w: World) {
    forall k | from <= k < |journal| :: journal[k].before == w && journal[k].after == w && Step(journal[k])
  }

  /** And nothing was measured, opened, compacted or started, and nothing but `stop` stopped anything. */
  ghost predicate Idle(journal: seq<Event>, from: nat, w: World, stop: Call) {
    && Untouched(journal, from, w)
    && forall k | from <= k < |journal| :: Quiet(journal[k].call) && (Stops(journal[k].call) ==> journal[k].call == stop)
  }

  predicate Stops(call: Call) {
    call.ShutDown? || call.Terminate?
  }

  /** The last thing known about the disk is that nobody has it open. */
  ghost predicate KnownFree(journal: seq<Event>, path: Path, n: nat)
    requires n <= |journal|
  {
    n > 0 && journal[n - 1].call == AskLock(path, false) && journal[n - 1].ok
  }

  ghost predicate StoppedSince(journal: seq<Event>, from: nat, to: nat) {
    exists k | from <= k < to && k < |journal| :: Stops(journal[k].call) && journal[k].ok
  }

  lemma UntouchedOneMore(journal: seq<Event>, from: nat, w: World, e: Event)
    requires Untouched(journal, from, w) && e.before == w && Step(e) && PartOf(e.call).None?
    ensures Untouched(journal + [e], from, w) && e.after == w
  {
    NoChange(e);
    hide Step;
    assert forall k | 0 <= k < |journal| :: (journal + [e])[k] == journal[k];
  }

  lemma IdleAtFirst(journal: seq<Event>, w: World, stop: Call)
    ensures Idle(journal, |journal|, w, stop)
  {
  }

  lemma IdleOneMore(journal: seq<Event>, from: nat, w: World, stop: Call, e: Event)
    requires Idle(journal, from, w, stop) && e.before == w && Step(e) && PartOf(e.call).None?
    requires Quiet(e.call) && (Stops(e.call) ==> e.call == stop)
    ensures Idle(journal + [e], from, w, stop) && e.after == w
  {
    hide Quiet, Stops;
    UntouchedOneMore(journal, from, w, e);
    assert forall k | 0 <= k < |journal| :: (journal + [e])[k] == journal[k];
  }

  /** Two idle stretches are one. */
  lemma IdleJoins(journal: seq<Event>, from: nat, more: seq<Event>, w: World, stop: Call)
    requires Idle(journal, from, w, stop) && journal <= more && Idle(more, |journal|, w, stop)
    ensures Idle(more, from, w, stop)
  {
    hide Quiet, Step, Stops;
    assert forall k | 0 <= k < |journal| :: more[k] == journal[k];
  }

  lemma IdleIsUntouched(journal: seq<Event>, from: nat, w: World, stop: Call)
    requires Idle(journal, from, w, stop)
    ensures Untouched(journal, from, w)
  {
  }

  lemma PrefixOfSum(first: seq<Event>, journal: seq<Event>, some: seq<Event>, more: seq<Event>)
    requires first <= journal
    ensures first <= journal + some + more
  {
    assert forall k | 0 <= k < |journal| :: (journal + some + more)[k] == journal[k];
  }

  lemma UntouchedJoins(journal: seq<Event>, from: nat, events: seq<Event>, w: World)
    requires Untouched(journal, from, w) && Untouched(events, 0, w)
    ensures Untouched(journal + events, from, w)
  {
    hide Step;
    assert forall k | 0 <= k < |journal| :: (journal + events)[k] == journal[k];
    assert forall k | |journal| <= k < |journal + events| :: (journal + events)[k] == events[k - |journal|];
  }

  lemma StoppedInMore(journal: seq<Event>, from: nat, more: seq<Event>)
    requires StoppedSince(journal, from, |journal|) && journal <= more
    ensures StoppedSince(more, from, |journal|)
  {
    var k :| from <= k < |journal| && Stops(journal[k].call) && journal[k].ok;
    assert Stops(more[k].call) && more[k].ok;
  }

  lemma StoppedAt(journal: seq<Event>, from: nat, k: nat)
    requires from <= k < |journal| && Stops(journal[k].call) && journal[k].ok
    ensures StoppedSince(journal, from, |journal|)
  {
  }

  /** An untouched run is linked. */
  lemma UntouchedIsLinked(journal: seq<Event>, from: nat, w: World)
    requires Untouched(journal, from, w)
    ensures Linked(w, journal, from) && Last(w, journal, from) == w
    ensures forall k | from <= k < |journal| :: journal[k].after == w
  {
    hide Step;
  }

  /** The last answer about the file's size from event `from` to event `end`. */
  ghost function LastSize(journal: seq<Event>, path: Path, from: nat, end: nat): Option<nat>
    requires end <= |journal|
    decreases end
  {
    if end <= from then None
    else if journal[end - 1].call.Measure? && journal[end - 1].call.path == path && journal[end - 1].ok then
      Some(journal[end - 1].call.size)
    else LastSize(journal, path, from, end - 1)
  }

  lemma {:induction false} LastSizeOfMore(journal: seq<Event>, more: seq<Event>, path: Path, from: nat, end: nat)
    requires end <= |journal| && journal <= more
    ensures LastSize(more, path, from, end) == LastSize(journal, path, from, end)
    decreases end
  {
    if end > from {
      LastSizeOfMore(journal, more, path, from, end - 1);
    }
  }

  lemma LastSizeAt(journal: seq<Event>, path: Path, from: nat, end: nat)
    requires from < end <= |journal|
    ensures var e := journal[end - 1];
            LastSize(journal, path, from, end) ==
            if e.call.Measure? && e.call.path == path && e.ok then Some(e.call.size) else LastSize(journal, path, from, end - 1)
  {
  }

  lemma LastSizeOfNone(journal: seq<Event>, path: Path, from: nat)
    requires from <= |journal|
    ensures LastSize(journal, path, from, from) == None
  {
  }

  /** Calls that measure nothing do not change it. */
  lemma {:induction false} LastSizeOfOthers(journal: seq<Event>, path: Path, from: nat, middle: nat, end: nat)
    requires from <= middle <= end <= |journal|
    requires forall k | middle <= k < end :: !journal[k].call.Measure?
    ensures LastSize(journal, path, from, end) == LastSize(journal, path, from, middle)
    decreases end
  {
    if end > middle {
      LastSizeOfOthers(journal, path, from, middle, end - 1);
    }
  }

  lemma LastSizeAfterIdle(journal: seq<Event>, more: seq<Event>, path: Path, from: nat, w: World, stop: Call)
    requires from <= |journal| && journal <= more && Idle(more, |journal|, w, stop)
    ensures LastSize(more, path, from, |more|) == LastSize(journal, path, from, |journal|)
  {
    LastSizeOfMore(journal, more, path, from, |journal|);
    LastSizeOfOthers(more, path, from, |journal|, |more|);
  }

  datatype TrimResult = TrimResult(trimmedBytes: Option<Size.u64>, usedFallback: bool)

  /** `fstrim -v`, and again without `-v` exactly when the guest refused the option. The count is the one in the output
      of the last attempt. */
  method RunFstrim(machine: Machine, key: Wide, ghost stop: Call) returns (r: Result<TrimResult>)
    modifies machine`world, machine`journal, machine`running, machine`occupied
    ensures old(machine.journal) <= machine.journal && machine.world == old(machine.world)
    ensures Idle(machine.journal, |old(machine.journal)|, machine.world, stop)
    ensures |old(machine.journal)| + 1 <= |machine.journal| <= |old(machine.journal)| + 2
    ensures IsTrim(machine.journal[|old(machine.journal)|].call, key, true)
    ensures var first := machine.journal[|old(machine.journal)|];
            |machine.journal| == |old(machine.journal)| + 2 <==>
            && !first.ok
            && (Contains(first.call.errors, Ascii("unrecognized option")) || Contains(first.call.errors, Ascii("invalid option")))
    ensures |machine.journal| == |old(machine.journal)| + 2 ==>
              IsTrim(machine.journal[|old(machine.journal)| + 1].call, key, false)
    ensures r.Ok? <==> machine.journal[|machine.journal| - 1].ok
    ensures r.Ok? ==> IsCountIn(r.value.trimmedBytes, machine.journal[|machine.journal| - 1].call.output)
    ensures r.Ok? ==> (r.value.usedFallback <==> |machine.journal| == |old(machine.journal)| + 2)
  {
    hide Step, Idle, IsCountIn, Contains;
    SilenceRejectsNothing();
    ghost var from, earlier := |machine.journal|, machine.journal;
    IdleAtFirst(machine.journal, machine.world, stop);
    var result := machine.RunTrim(key, true);
    IdleOneMore(earlier, from, machine.world, stop, machine.journal[from]);
    if result.Err? {
      return Err(result.error);
    }
    var fallback := false;
    if result.value.exitCode != 0 && RejectedAnOption(result.value.errors) {
      fallback := true;
      earlier := machine.journal;
      result := machine.RunTrim(key, false);
      IdleOneMore(earlier, from, machine.world, stop, machine.journal[from + 1]);
      if result.Err? {
        return Err(result.error);
      }
    }
    if result.value.exitCode != 0 {
      return Err(Generic);
    }
    var count := ParseTrimmedBytes(result.value.output);
    return Ok(TrimResult(count, fallback));
  }

  predicate IsTrim(call: Call, key: Wide, verbose: bool) {
    call.Trim? && call.key == key && call.verbose == verbose
  }

  class CompactOperation {
    const machine: Machine
    const distro: Option<Distro.Distro>
    const path: Path
    const options: Options
    var before: Option<nat>
    var after: Option<nat>
    var trimmedBytes: Option<Size.u64>
    var wasRunning: bool
    var runningBefore: Option<seq<Bytes>>

    constructor OfDistro(machine: Machine, distro: Distro.Distro, options: Options)
      ensures this.machine == machine && this.distro == Some(distro) && path == distro.vhdxPath && this.options == options
    {
      this.machine, this.distro, path, this.options := machine, Some(distro), distro.vhdxPath, options;
      before, after, trimmedBytes, wasRunning, runningBefore := None, None, None, false, None;
    }

    constructor OfFile(machine: Machine, path: Path, options: Options)
      ensures this.machine == machine && distro == None && this.path == path && this.options == options
    {
      this.machine, distro, this.path, this.options := machine, None, path, options;
      before, after, trimmedBytes, wasRunning, runningBefore := None, None, None, false, None;
    }

    method SetRunningBefore(names: seq<Bytes>)
      modifies this`runningBefore
      ensures runningBefore == Some(names)
    {
      runningBefore := Some(names);
    }

    /** What the file shrank by; nothing when it grew, and unknown unless both ends were measured. */
    function Reclaimed(): (bytes: Option<nat>)
      reads this`before, this`after
      ensures bytes.Some? <==> before.Some? && after.Some?
      ensures bytes.Some? ==> (after.value + bytes.value == before.value || (bytes.value == 0 && after.value >= before.value))
    {
      if before.None? || after.None? then None
      else if after.value >= before.value then Some(0)
      else Some(before.value - after.value)
    }

    /** Whether the distribution is to be started again. */
    predicate RestartIsAsked()
      reads this`wasRunning
    {
      distro.Some? && options.restart && wasRunning
    }

    /** The steps of a plan. */
    ghost predicate PlansAsAsked(steps: seq<StepPlan>)
      reads this`wasRunning
    {
      steps ==
      (if distro.Some? && options.trim then [StepPlan(TrimGuest, true, false)] else []) +
      (if distro.Some? then [StepPlan(StepKind.ReleaseDisk, true, false)] else []) +
      [StepPlan(CompactDisk, true, false)] +
      (if distro.Some? && options.restart && wasRunning then [StepPlan(StartAgain, true, false)] else [])
    }

    function Key(): Wide {
      if distro.Some? then Distro.RegistryKeyFor(distro.value) else []
    }

    function File(): Path {
      Paths.Canonical(path)
    }

    ghost predicate Compactable()
      reads machine
    {
      (distro.Some? ==> distro.value.version == 2) && File() in machine.world.files
    }

    method Plan() returns (plan: Result<Plan>)
      modifies this`before, this`wasRunning, machine`journal, machine`unsure
      ensures OnlyAsks(old(machine.journal), machine.journal, machine.world) && machine.unsure >= old(machine.unsure)
      ensures plan.Ok? ==> PlansAsAsked(plan.value.steps) && (distro.Some? ==> distro.value.version == 2)
      ensures plan.Ok? && distro.Some? && runningBefore.Some? ==>
                wasRunning == AnyMatches(runningBefore.value, distro.value.name)
      ensures plan.Ok? && distro.Some? && runningBefore.None? ==>
                && machine.journal != [] && machine.journal[|machine.journal| - 1].call.AskRunning?
                && wasRunning == AnyMatches(machine.journal[|machine.journal| - 1].call.names, distro.value.name)
      ensures old(before) == None && plan.Ok? ==>
                before == LastSize(machine.journal, File(), |old(machine.journal)|, |machine.journal|)
      ensures machine.unsure == old(machine.unsure) ==> (plan.Ok? <==> Compactable())
    {
      hide Paths.Canonical, Step, AnyMatches;
      ghost var from := |machine.journal|;
      if distro.Some? && distro.value.version != 2 {
        return Err(Preflight);
      }
      var there := machine.Exists(path);
      if !there {
        return Err(Preflight);
      }
      var size := MeasureDisk();
      if size.Some? {
        before := size;
      }
      ghost var measured := machine.journal;
      if distro.Some? {
        if runningBefore.Some? {
          wasRunning := AnyMatches(runningBefore.value, distro.value.name);
        } else {
          var running := machine.Running();
          NobodyMatches(distro.value.name);
          wasRunning := running.Ok? && AnyMatches(running.value, distro.value.name);
        }
      }
      LastSizeOfMore(measured, machine.journal, File(), from, from + 1);
      LastSizeOfOthers(machine.journal, File(), from, from + 1, |machine.journal|);
      return Ok(Operations.Plan.Plan(
        GuestSteps() + [StepPlan(CompactDisk, true, false)] + (if RestartIsAsked() then [StepPlan(StartAgain, true, false)] else [])));
    }

    /** Stops the distribution, or everything, and waits until nobody has the disk open. It sleeps only while nothing else
        runs, no more than once for every started half second of the timeout, and gives up only on a disk that was still
        open when it last asked. */
    method ReleaseDisk() returns (released: Status, ghost waitedOut: bool)
      requires distro.Some?
      modifies machine`world, machine`journal, machine`running, machine`occupied, machine`clock, machine`sleeps, machine`unsure
      ensures old(machine.journal) <= machine.journal && machine.world == old(machine.world)
      ensures machine.unsure >= old(machine.unsure)
      ensures Idle(machine.journal, |old(machine.journal)|, machine.world, StopCall())
      ensures |machine.journal| > |old(machine.journal)|
      ensures machine.journal[|old(machine.journal)|].call ==
                if options.shutdown then ShutDown else Terminate(Distro.RegistryKeyFor(distro.value))
      ensures released.Done? ==>
                machine.journal[|old(machine.journal)|].ok && KnownFree(machine.journal, File(), |machine.journal|)
      ensures released.Failed? ==> HasReason(machine.journal, File())
      ensures released.Failed? && !waitedOut ==> !machine.journal[|machine.journal| - 1].ok
      ensures waitedOut ==> released == Failed(DistroBusy) && StillLocked(machine.journal, File())
      ensures machine.sleeps > old(machine.sleeps) ==> NothingElseRan(machine.journal, |old(machine.journal)| + 1)
      ensures FewSleeps(machine.sleeps - old(machine.sleeps))
      ensures machine.clock >= old(machine.clock) + (machine.sleeps - old(machine.sleeps)) * POLL_INTERVAL_MS
      ensures waitedOut && NothingElseRan(machine.journal, |old(machine.journal)| + 1) ==>
                machine.clock >= old(machine.clock) + options.unlockTimeout
    {
      hide Step, Idle, Paths.Canonical, Others, Distro.RegistryKeyFor, FewSleeps, StillLocked, KnownFree;
      ghost var from, earlier, w := |machine.journal|, machine.journal, machine.world;
      IdleAtFirst(machine.journal, w, StopCall());
      var stopped := machine.Perform(StopCall());
      IdleOneMore(earlier, from, w, StopCall(), machine.journal[from]);
      NoSleeps();
      if stopped.Failed? {
        return stopped, false;
      }
      ghost var first := machine.journal[from];
      earlier := machine.journal;
      var named := machine.Running();
      IdleOneMore(earlier, from, w, StopCall(), machine.journal[from + 1]);
      ghost var second := machine.journal[from + 1];
      var blockers := Others(if named.Ok? then named.value else [], distro.value.name);

      earlier := machine.journal;
      var gaveUp;
      released, gaveUp := WaitUntilFree(blockers == []);
      waitedOut := gaveUp;
      IdleJoins(earlier, from, machine.journal, w, StopCall());
      assert machine.journal[from] == first && machine.journal[from + 1] == second;
      // Who has it is asked again for the message, if there was a wait.
      if gaveUp && blockers == [] {
        earlier := machine.journal;
        var others := machine.Running();
        IdleOneMore(earlier, from, w, StopCall(), machine.journal[|earlier|]);
        StillLockedAfterAsking(earlier, File(), machine.journal[|earlier|]);
        assert machine.journal[from] == first && machine.journal[from + 1] == second;
      }
    }

    /** Asks whether the disk is open, again every half second until the timeout is over; only once if waiting cannot
        help. */
    method WaitUntilFree(waitingCanHelp: bool) returns (free: Status, gaveUp: bool)
      modifies machine`journal, machine`running, machine`clock, machine`sleeps
      ensures old(machine.journal) <= machine.journal && |machine.journal| > |old(machine.journal)|
      ensures Idle(machine.journal, |old(machine.journal)|, machine.world, StopCall())
      ensures free.Done? ==> KnownFree(machine.journal, File(), |machine.journal|) && !gaveUp
      ensures free.Failed? && !gaveUp ==>
                !machine.journal[|machine.journal| - 1].ok && machine.journal[|machine.journal| - 1].call.AskLock?
      ensures gaveUp ==> free == Failed(DistroBusy) && StillLocked(machine.journal, File())
      ensures machine.sleeps >= old(machine.sleeps) && (machine.sleeps > old(machine.sleeps) ==> waitingCanHelp)
      ensures FewSleeps(machine.sleeps - old(machine.sleeps))
      ensures machine.clock >= old(machine.clock) + (machine.sleeps - old(machine.sleeps)) * POLL_INTERVAL_MS
      ensures gaveUp && waitingCanHelp ==> machine.clock >= old(machine.clock) + options.unlockTimeout
    {
      hide Step, Idle, Paths.Canonical, StillLocked;
      ghost var from, earlier, w, started := |machine.journal|, machine.journal, machine.world, machine.clock;
      ghost var slept: nat := 0;
      IdleAtFirst(machine.journal, w, StopCall());
      var now := machine.Now();
      var deadline := now + options.unlockTimeout;
      while true
        invariant old(machine.journal) <= machine.journal && Idle(machine.journal, from, w, StopCall())
        invariant machine.sleeps == old(machine.sleeps) + slept && (slept > 0 ==> waitingCanHelp) && FewSleeps(slept)
        invariant deadline >= started + options.unlockTimeout
        invariant machine.clock >= deadline - options.unlockTimeout + slept * POLL_INTERVAL_MS
        decreases deadline - machine.clock
      {
        earlier := machine.journal;
        var locked := machine.IsLocked(path);
        IdleOneMore(earlier, from, w, StopCall(), machine.journal[|earlier|]);
        if locked.Err? {
          return Failed(locked.error), false;
        }
        if !locked.value {
          return Done, false;
        }
        LockedJustNow(machine.journal, File());
        if !waitingCanHelp {
          return Failed(DistroBusy), true;
        }
        now := machine.Now();
        if now >= deadline {
          return Failed(DistroBusy), true;
        }
        earlier := machine.journal;
        machine.SleepFor(POLL_INTERVAL_MS);
        slept := slept + 1;
        IdleOneMore(earlier, from, w, StopCall(), machine.journal[|earlier|]);
      }
    }

    /** One for every half second of the timeout that has begun. */
    ghost predicate FewSleeps(slept: int) {
      slept <= 0 || (slept - 1) * POLL_INTERVAL_MS < options.unlockTimeout
    }

    lemma NoSleeps()
      ensures FewSleeps(0)
    {
    }

    function StopCall(): Call {
      if options.shutdown then ShutDown else Terminate(Key())
    }

    /** When it was asked, nothing but the target was named as running. */
    ghost predicate NothingElseRan(journal: seq<Event>, k: nat)
      requires distro.Some?
    {
      && k < |journal| && journal[k].call.AskRunning?
      && Others(journal[k].call.names, distro.value.name) == []
    }

    function GuestSteps(): seq<StepPlan> {
      (if distro.Some? && options.trim then [StepPlan(TrimGuest, true, false)] else []) +
      (if distro.Some? then [StepPlan(StepKind.ReleaseDisk, true, false)] else [])
    }

    /** What comes before the disk is opened. */
    ghost function Preparations(): seq<StepKind> {
      (if distro.Some? && options.trim then [TrimGuest] else []) + (if distro.Some? then [StepKind.ReleaseDisk] else [])
    }

    method RunGuestSteps() returns (prepared: Status, completed: seq<StepKind>)
      requires distro.Some?
      modifies this`trimmedBytes, machine`world, machine`journal, machine`running, machine`occupied, machine`clock,
               machine`sleeps, machine`unsure
      ensures old(machine.journal) <= machine.journal && machine.world == old(machine.world)
      ensures machine.unsure >= old(machine.unsure)
      ensures Idle(machine.journal, |old(machine.journal)|, machine.world, StopCall())
      ensures TrimsFirst(machine.journal, |old(machine.journal)|)
      ensures prepared.Failed? ==> HasReason(machine.journal, File())
      ensures prepared.Done? ==>
                && completed == Preparations()
                && KnownFree(machine.journal, File(), |machine.journal|)
                && StoppedSince(machine.journal, |old(machine.journal)|, |machine.journal|)
      ensures if !options.trim then trimmedBytes == old(trimmedBytes) else
                prepared.Done? ==> TrimReported(machine.journal, |old(machine.journal)|)
    {
      hide Step, Idle, Paths.Canonical, StillLocked, FewSleeps, NothingElseRan, StoppedSince, Distro.RegistryKeyFor;
      hide IsCountIn;
      ghost var from, w := |machine.journal|, machine.world;
      completed := [];
      IdleAtFirst(machine.journal, w, StopCall());
      if options.trim {
        var trimmed := RunFstrim(machine, Key(), StopCall());
        if trimmed.Err? {
          return Failed(trimmed.error), completed;
        }
        trimmedBytes := trimmed.value.trimmedBytes;
        completed := completed + [TrimGuest];
      }
      ghost var earlier := machine.journal;
      ghost var waitedOut;
      prepared, waitedOut := ReleaseDisk();
      IdleJoins(earlier, from, machine.journal, w, StopCall());
      if prepared.Failed? {
        return;
      }
      StoppedAt(machine.journal, from, |earlier|);
      completed := completed + [StepKind.ReleaseDisk];
    }

    /** The count kept is the one that a trim that worked has printed. */
    ghost predicate TrimReported(journal: seq<Event>, from: nat)
      reads this
    {
      exists k | from <= k < |journal| ::
        journal[k].call.Trim? && journal[k].ok && IsCountIn(trimmedBytes, journal[k].call.output)
    }

    ghost predicate TrimsFirst(journal: seq<Event>, from: nat)
      requires distro.Some?
    {
      from < |journal| &&
      if options.trim then IsTrim(journal[from].call, Distro.RegistryKeyFor(distro.value), true)
      else journal[from].call == if options.shutdown then ShutDown else Terminate(Distro.RegistryKeyFor(distro.value))
    }

    /** Everything is shut down only if that was asked, and otherwise only the target is stopped. */
    ghost predicate StopsAsAsked(call: Call) {
      && (call.ShutDown? ==> distro.Some? && options.shutdown)
      && (call.Terminate? ==> distro.Some? && !options.shutdown && call.key == Distro.RegistryKeyFor(distro.value))
    }

    /** Whatever comes before the disk can be opened. */
    method Prepare() returns (prepared: Status, completed: seq<StepKind>)
      modifies this`trimmedBytes, machine`world, machine`journal, machine`running, machine`occupied, machine`clock,
               machine`sleeps, machine`unsure
      ensures old(machine.journal) <= machine.journal && machine.world == old(machine.world)
      ensures machine.unsure >= old(machine.unsure)
      ensures Idle(machine.journal, |old(machine.journal)|, machine.world, StopCall())
      ensures distro.Some? ==> TrimsFirst(machine.journal, |old(machine.journal)|)
      ensures forall k | |old(machine.journal)| <= k < |machine.journal| :: StopsAsAsked(machine.journal[k].call)
      ensures |machine.journal| > |old(machine.journal)|
      ensures prepared.Failed? ==> HasReason(machine.journal, File())
      ensures prepared.Done? ==>
                && completed == Preparations()
                && KnownFree(machine.journal, File(), |machine.journal|)
                && (distro.Some? ==> StoppedSince(machine.journal, |old(machine.journal)|, |machine.journal|))
    {
      hide Idle, KnownFree, StoppedSince, Paths.Canonical, Distro.RegistryKeyFor;
      if distro.Some? {
        ghost var from := |machine.journal|;
        prepared, completed := RunGuestSteps();
        IdleStopsAsAsked(machine.journal, from, machine.world);
      } else {
        completed := [];
        prepared := RequireFreeFile();
      }
    }

    lemma IdleStopsAsAsked(journal: seq<Event>, from: nat, w: World)
      requires distro.Some? && Idle(journal, from, w, StopCall())
      ensures forall k | from <= k < |journal| :: StopsAsAsked(journal[k].call)
    {
    }

    /** A loose file has nothing to stop, but somebody may have it open. */
    method RequireFreeFile() returns (free: Status)
      modifies machine`journal
      ensures old(machine.journal) <= machine.journal
      ensures Idle(machine.journal, |old(machine.journal)|, machine.world, StopCall())
      ensures |machine.journal| == |old(machine.journal)| + 1 && machine.journal[|old(machine.journal)|].call.AskLock?
      ensures free.Done? ==> KnownFree(machine.journal, File(), |machine.journal|)
      ensures free.Failed? ==> HasReason(machine.journal, File())
    {
      hide Step, Idle, Paths.Canonical;
      ghost var earlier := machine.journal;
      IdleAtFirst(earlier, machine.world, StopCall());
      var locked := machine.IsLocked(path);
      IdleOneMore(earlier, |earlier|, machine.world, StopCall(), machine.journal[|earlier|]);
      if locked.Err? {
        return Failed(locked.error);
      }
      if locked.value {
        LockedJustNow(machine.journal, File());
        return Failed(DistroBusy);
      }
      return Done;
    }

    /** One attempt to start the distribution. Only a program that ran and exited with zero counts. */
    method RestartGuest() returns (started: bool)
      requires distro.Some?
      modifies machine`world, machine`journal, machine`running, machine`occupied
      ensures machine.Logged(old(machine.world), old(machine.journal), Boot(Key()), started) && machine.world == old(machine.world)
    {
      var r := machine.RunAsRoot(Key());
      if r.Err? {
        return false;
      }
      return r.value.exitCode == 0;
    }

    method RestartIfAsked() returns (ghost tail: seq<Event>)
      modifies machine`world, machine`journal, machine`running, machine`occupied
      ensures machine.world == old(machine.world) && machine.journal == old(machine.journal) + tail
      ensures IsRestart(tail, machine.world)
    {
      hide Step;
      tail := [];
      if distro.None? || !options.restart || !wasRunning {
        return;
      }
      var started := RestartGuest();
      tail := [machine.journal[|machine.journal| - 1]];
    }

    /** One start if it was asked, and none if not. */
    ghost predicate IsRestart(tail: seq<Event>, w: World)
      reads this`wasRunning
    {
      if distro.Some? && options.restart && wasRunning
      then |tail| == 1 && tail[0].call == Boot(Distro.RegistryKeyFor(distro.value)) && tail[0].before == w && Step(tail[0])
      else tail == []
    }

    /** Measures the disk, opens it, compacts it if it opens, and measures it again if that worked. */
    method OpenAndCompact() returns (compacted: Status, ghost opening: seq<Event>)
      modifies this`before, this`after, machine`world, machine`journal, machine`running, machine`occupied, machine`unsure
      ensures machine.world == old(machine.world) && machine.journal == old(machine.journal) + opening
      ensures machine.unsure >= old(machine.unsure)
      ensures IsOpening(opening, machine.world) && (compacted.Done? <==> |opening| == 4)
      ensures before == if opening[0].ok then Some(opening[0].call.size) else old(before)
      ensures after == if |opening| == 4 && opening[3].ok then Some(opening[3].call.size) else old(after)
    {
      hide Step, Paths.Canonical, IsOpening, Apply, Possible;
      ghost var w := machine.world;
      var size := MeasureDisk();
      ghost var first := machine.journal[|machine.journal| - 1];
      if size.Some? {
        before := size;
      }
      var handle := machine.Perform(Open(File()));
      ghost var second := machine.journal[|machine.journal| - 1];
      NoChange(second);
      opening := [first, second];
      if handle.Failed? {
        NotOpened(first, second, w);
        return handle, opening;
      }
      compacted := machine.Perform(Compact(File()));
      ghost var third := machine.journal[|machine.journal| - 1];
      NoChange(third);
      opening := [first, second, third];
      if compacted.Failed? {
        NotCompacted(first, second, third, w);
        return;
      }
      size := MeasureDisk();
      opening := [first, second, third, machine.journal[|machine.journal| - 1]];
      if size.Some? {
        after := size;
      }
      OpenedAndCompacted(first, second, third, opening[3], w);
    }

    /** What the file takes up, if that is known. */
    method MeasureDisk() returns (size: Option<nat>)
      modifies machine`journal, machine`unsure
      ensures machine.Logged(machine.world, old(machine.journal), Measure(File(), if size.Some? then size.value else 0), size.Some?)
      ensures machine.unsure >= old(machine.unsure)
    {
      var answer := machine.FileSizeOnDisk(path);
      size := if answer.Ok? then Some(answer.value) else None;
    }

    ghost predicate Measures(e: Event, w: World) {
      e.call.Measure? && e.call.path == File() && e.before == w && Step(e)
    }

    lemma NotOpened(first: Event, second: Event, w: World)
      requires Measures(first, w) && second.call == Open(File()) && second.before == w && Step(second) && !second.ok
      ensures IsOpening([first, second], w)
    {
      hide Step;
    }

    lemma NotCompacted(first: Event, second: Event, third: Event, w: World)
      requires Measures(first, w) && second.call == Open(File()) && second.before == w && Step(second) && second.ok
      requires third.call == Compact(File()) && third.before == w && Step(third) && !third.ok
      ensures IsOpening([first, second, third], w)
    {
      hide Step;
    }

    lemma OpenedAndCompacted(first: Event, second: Event, third: Event, fourth: Event, w: World)
      requires Measures(first, w) && second.call == Open(File()) && second.before == w && Step(second) && second.ok
      requires third.call == Compact(File()) && third.before == w && Step(third) && third.ok && Measures(fourth, w)
      ensures IsOpening([first, second, third, fourth], w)
    {
      hide Step;
    }

    /** A measurement, the opening, the compaction if it opened, and another measurement if it was compacted. */
    ghost predicate IsOpening(opening: seq<Event>, w: World) {
      && 2 <= |opening| <= 4
      && opening[0].call.Measure? && opening[0].call.path == File() && opening[1].call == Open(File())
      && (opening[1].ok <==> |opening| > 2) && (|opening| > 2 ==> opening[2].call == Compact(File()))
      && (|opening| == 4 <==> |opening| > 2 && opening[2].ok)
      && (|opening| == 4 ==> opening[3].call.Measure? && opening[3].call.path == File())
      && forall k | 0 <= k < |opening| :: opening[k].before == w && Step(opening[k])
    }

    /** The disk was opened once, at event `o`, right after it was measured, when it was known to be free and everything that
        holds it had been stopped; it was compacted if it opened, and measured again if that worked; and then the
        distribution was started once if that was asked, and not at all if not. */
    ghost predicate OpenedAt(journal: seq<Event>, from: nat, o: nat)
      reads this`wasRunning
    {
      && from < o < |journal| && journal[o].call == Open(File())
      && journal[o - 1].call.Measure? && journal[o - 1].call.path == File()
      && KnownFree(journal, File(), o - 1) && (distro.Some? ==> StoppedSince(journal, from, o - 1))
      && (forall k | from <= k < o - 1 :: Quiet(journal[k].call) && StopsAsAsked(journal[k].call))
      && (journal[o].ok ==> o + 1 < |journal| && journal[o + 1].call == Compact(File()))
      && var compacted := journal[o].ok && journal[o + 1].ok;
      && (compacted ==> o + 2 < |journal| && journal[o + 2].call.Measure? && journal[o + 2].call.path == File())
      && var rest := if compacted then o + 3 else if journal[o].ok then o + 2 else o + 1;
      if distro.Some? && options.restart && wasRunning
      then |journal| == rest + 1 && journal[rest].call == Boot(Distro.RegistryKeyFor(distro.value))
      else |journal| == rest
    }

    /** The size before is the last one given before the disk was opened, and the size after the one given once it was
        compacted. */
    ghost predicate MeasuredAround(journal: seq<Event>, began: nat, o: nat)
      reads this`before, this`after
    {
      && began <= o <= |journal|
      && before == LastSize(journal, File(), began, o) && after == LastSize(journal, File(), o, |journal|)
    }

    /** `openedAt` is the event that opened the disk, or the end of the journal. A disk that is known to be free is opened:
        if it was not, the last call had failed or the disk was open when it was last asked. */
    method Execute(ghost began: nat) returns (r: Result<Report>, ghost openedAt: nat)
      requires began <= |machine.journal| && before == LastSize(machine.journal, File(), began, |machine.journal|)
      requires after == None
      modifies this`before, this`after, this`trimmedBytes, machine`world, machine`journal, machine`running,
               machine`occupied, machine`clock, machine`sleeps, machine`unsure
      ensures old(machine.journal) <= machine.journal && machine.world == old(machine.world)
      ensures machine.unsure >= old(machine.unsure)
      ensures Untouched(machine.journal, |old(machine.journal)|, machine.world)
      ensures || (openedAt == |machine.journal| && Idle(machine.journal, |old(machine.journal)|, machine.world, StopCall()) && r.Err?)
              || OpenedAt(machine.journal, |old(machine.journal)|, openedAt)
      ensures openedAt == |machine.journal| ==>
                HasReason(machine.journal, File()) && !KnownFree(machine.journal, File(), |machine.journal|)
      ensures forall k | |old(machine.journal)| <= k < |machine.journal| :: StopsAsAsked(machine.journal[k].call)
      ensures openedAt < |machine.journal| ==>
                && (r.Ok? <==> machine.journal[openedAt].ok && machine.journal[openedAt + 1].ok)
                && MeasuredAround(machine.journal, began, openedAt)
      ensures r.Ok? ==> Reports(r.value)
      ensures r.Err? ==>
                SomethingFailed(machine.journal, |old(machine.journal)|) || StillLocked(machine.journal, File())
    {
      hide Step, Idle, Untouched, Paths.Canonical, OpenedAt, KnownFree, TrimsFirst, HasReason, Reports, StoppedSince, StopsAsAsked,
           MeasuredAround, LastSize;
      hide SomethingFailed, StillLocked;
      ghost var from, w := |machine.journal|, machine.world;
      ghost var earlier := machine.journal;
      var prepared, completed := Prepare();
      LastSizeAfterIdle(earlier, machine.journal, File(), began, w, StopCall());
      if prepared.Failed? {
        IdleIsUntouched(machine.journal, from, w, StopCall());
        ReasonIsNotFree(machine.journal, File());
        ReasonIsFailure(machine.journal, from, File());
        return Err(prepared.error), |machine.journal|;
      }
      openedAt := |machine.journal| + 1;
      r := CompactReleased(completed, from, began);
      if r.Err? {
        FailedAt(machine.journal, from, if machine.journal[openedAt].ok then openedAt + 1 else openedAt);
      }
    }

    /** The steps that were asked, without a restart that did not work, and what the file shrank by. */
    ghost predicate Reports(report: Report)
      reads this, machine`journal
    {
      && machine.journal != []
      && report.completed ==
         (if distro.Some? && options.trim then [TrimGuest] else []) + (if distro.Some? then [StepKind.ReleaseDisk] else []) +
         [CompactDisk] +
         (if distro.Some? && options.restart && wasRunning && machine.journal[|machine.journal| - 1].ok then [StartAgain] else [])
      && report.bytesFreed ==
         if before.None? || after.None? then None
         else Some(if after.value < before.value then before.value - after.value else 0)
    }

    /** What is done with a disk that is free: it is opened, compacted, and the distribution started again if that was
        asked. */
    method CompactReleased(prepared: seq<StepKind>, ghost from: nat, ghost began: nat) returns (r: Result<Report>)
      requires Idle(machine.journal, from, machine.world, StopCall()) && from <= |machine.journal|
      requires KnownFree(machine.journal, File(), |machine.journal|) && prepared == Preparations()
      requires distro.Some? ==> StoppedSince(machine.journal, from, |machine.journal|)
      requires forall k | from <= k < |machine.journal| :: StopsAsAsked(machine.journal[k].call)
      requires began <= |machine.journal| && before == LastSize(machine.journal, File(), began, |machine.journal|)
      requires after == None
      modifies this`before, this`after, machine`world, machine`journal, machine`running, machine`occupied, machine`unsure
      ensures old(machine.journal) <= machine.journal && machine.world == old(machine.world)
      ensures machine.unsure >= old(machine.unsure)
      ensures Untouched(machine.journal, from, machine.world)
      ensures forall k | from <= k < |machine.journal| :: StopsAsAsked(machine.journal[k].call)
      ensures var o := |old(machine.journal)| + 1;
              && o < |machine.journal| && OpenedAt(machine.journal, from, o)
              && machine.journal[o].call == Open(File())
              && (machine.journal[o].ok ==> o + 1 < |machine.journal| && machine.journal[o + 1].call == Compact(File()))
              && (r.Ok? <==> machine.journal[o].ok && machine.journal[o + 1].ok)
              && MeasuredAround(machine.journal, began, o)
      ensures r.Ok? ==> Reports(r.value)
    {
      hide Step, Idle, Untouched, Paths.Canonical, Quiet, StoppedSince, OpenedAt, Distro.RegistryKeyFor, IsOpening, KnownFree,
           StopsAsAsked, LastSize;
      ghost var idle, w, earlier := machine.journal, machine.world, before;
      var completed := prepared;
      var compacted;
      ghost var opening, tail;
      compacted, opening := OpenAndCompact();
      OpeningsAre(opening, w);
      if compacted.Failed? {
        tail := RestartIfAsked();
        assert machine.journal == idle + opening + tail;
        Finished(idle, opening, tail, from, w);
        OpeningWorked(idle, opening, tail, w);
        SizesAround(idle, opening, tail, w, began);
        return Err(compacted.error);
      }
      completed := completed + [CompactDisk];
      tail := [];
      if distro.Some? && options.restart && wasRunning {
        var started := RestartGuest();
        tail := [machine.journal[|machine.journal| - 1]];
        if started {
          completed := completed + [StartAgain];
        }
      }
      assert machine.journal == idle + opening + tail;
      Finished(idle, opening, tail, from, w);
      OpeningWorked(idle, opening, tail, w);
      SizesAround(idle, opening, tail, w, began);
      return Ok(Report(completed, Reclaimed()));
    }

    lemma OpeningsAre(opening: seq<Event>, w: World)
      requires IsOpening(opening, w)
      ensures 2 <= |opening| <= 4
    {
    }

    lemma OpeningWorked(idle: seq<Event>, opening: seq<Event>, tail: seq<Event>, w: World)
      requires IsOpening(opening, w)
      ensures var journal, o := idle + opening + tail, |idle| + 1;
              && o < |journal| && idle <= journal && (journal[o].ok ==> o + 1 < |journal|)
              && journal[o].call == Open(File()) && (journal[o].ok ==> journal[o + 1].call == Compact(File()))
              && (journal[o].ok && journal[o + 1].ok <==> |opening| == 4)
              && (tail != [] ==> journal[|journal| - 1] == tail[|tail| - 1])
    {
      hide Step;
      var journal := idle + opening + tail;
      PrefixOfSum(idle, idle, opening, tail);
      assert journal[|idle| + 1] == opening[1];
      if |opening| > 2 {
        assert journal[|idle| + 2] == opening[2];
      }
    }

    /** What was measured around the opening. */
    lemma SizesAround(idle: seq<Event>, opening: seq<Event>, tail: seq<Event>, w: World, began: nat)
      requires IsOpening(opening, w) && IsRestart(tail, w) && began <= |idle|
      ensures var journal, o := idle + opening + tail, |idle| + 1;
              && o <= |journal|
              && LastSize(journal, File(), began, o) ==
                 (if opening[0].ok then Some(opening[0].call.size) else LastSize(idle, File(), began, |idle|))
              && LastSize(journal, File(), o, |journal|) ==
                 if |opening| == 4 && opening[3].ok then Some(opening[3].call.size) else None
    {
      hide Step, Paths.Canonical, LastSize, Distro.RegistryKeyFor;
      var journal, o := idle + opening + tail, |idle| + 1;
      assert idle <= journal by {
        PrefixOfSum(idle, idle, opening, tail);
      }
      assert forall k | 0 <= k < |opening| :: journal[|idle| + k] == opening[k];
      assert forall k | 0 <= k < |tail| :: journal[|idle| + |opening| + k] == tail[k];
      LastSizeOfMore(idle, journal, File(), began, |idle|);
      LastSizeAt(journal, File(), began, o);
      if |opening| == 4 {
        LastSizeOfOthers(journal, File(), o, o, o + 2);
        LastSizeAt(journal, File(), o, o + 3);
        LastSizeOfOthers(journal, File(), o, o + 3, |journal|);
      } else {
        LastSizeOfOthers(journal, File(), o, o, |journal|);
      }
      LastSizeOfNone(journal, File(), o);
    }

    lemma EventsStand(events: seq<Event>, w: World)
      requires IsOpening(events, w) || IsRestart(events, w)
      ensures Untouched(events, 0, w)
    {
      forall k | 0 <= k < |events|
        ensures events[k].before == w && events[k].after == w && Step(events[k])
      {
        NoChange(events[k]);
      }
    }

    /** The end of an execution that got as far as opening the disk. */
    lemma Finished(idle: seq<Event>, opening: seq<Event>, tail: seq<Event>, from: nat, w: World)
      requires Idle(idle, from, w, StopCall()) && from <= |idle| && KnownFree(idle, File(), |idle|)
      requires distro.Some? ==> StoppedSince(idle, from, |idle|)
      requires forall k | from <= k < |idle| :: StopsAsAsked(idle[k].call)
      requires IsOpening(opening, w) && IsRestart(tail, w)
      ensures var journal := idle + opening + tail;
              && Untouched(journal, from, w) && OpenedAt(journal, from, |idle| + 1)
              && forall k | from <= k < |journal| :: StopsAsAsked(journal[k].call)
    {
      hide Step, Paths.Canonical, Distro.RegistryKeyFor, Untouched, StopsAsAsked, OpenedAt;
      EventsStand(opening, w);
      EventsStand(tail, w);
      UntouchedJoins(idle, from, opening, w);
      UntouchedJoins(idle + opening, from, tail, w);
      StopsInSum(idle, opening, tail, from, w);
      OpenedInSum(idle, opening, tail, from, w);
    }

    lemma StopsInSum(idle: seq<Event>, opening: seq<Event>, tail: seq<Event>, from: nat, w: World)
      requires from <= |idle| && forall k | from <= k < |idle| :: StopsAsAsked(idle[k].call)
      requires IsOpening(opening, w) && IsRestart(tail, w)
      ensures var journal := idle + opening + tail; forall k | from <= k < |journal| :: StopsAsAsked(journal[k].call)
    {
      hide Step, Distro.RegistryKeyFor, Paths.Canonical;
      var journal := idle + opening + tail;
      assert forall k | 0 <= k < |opening| :: StopsAsAsked(opening[k].call);
      assert forall k | 0 <= k < |tail| :: StopsAsAsked(tail[k].call);
      hide StopsAsAsked, IsOpening, IsRestart;
      forall k | from <= k < |journal|
        ensures StopsAsAsked(journal[k].call)
      {
        if k < |idle| {
          assert journal[k] == idle[k];
        } else if k < |idle| + |opening| {
          assert journal[k] == opening[k - |idle|];
        } else {
          assert journal[k] == tail[k - |idle| - |opening|];
        }
      }
    }

    lemma OpenedInSum(idle: seq<Event>, opening: seq<Event>, tail: seq<Event>, from: nat, w: World)
      requires Idle(idle, from, w, StopCall()) && from <= |idle| && KnownFree(idle, File(), |idle|)
      requires distro.Some? ==> StoppedSince(idle, from, |idle|)
      requires forall k | from <= k < |idle| :: StopsAsAsked(idle[k].call)
      requires IsOpening(opening, w) && IsRestart(tail, w)
      ensures OpenedAt(idle + opening + tail, from, |idle| + 1)
    {
      hide Step, Paths.Canonical, Distro.RegistryKeyFor, Untouched, StopsAsAsked, Quiet;
      var journal := idle + opening + tail;
      assert forall k | 0 <= k < |idle| :: journal[k] == idle[k];
      assert forall k | 0 <= k < |opening| :: journal[|idle| + k] == opening[k];
      assert forall k | 0 <= k < |tail| :: journal[|idle| + |opening| + k] == tail[k];
      if distro.Some? {
        StoppedInMore(idle, from, journal);
      }
    }

    /** A file that grew is the one thing that is wrong; nothing is said when either end is not known. */
    method Verify() returns (verified: Status)
      ensures verified.Failed? <==> before.Some? && after.Some? && after.value > before.value
      ensures verified.Failed? ==> verified.error == Partial
    {
      if before.None? || after.None? {
        return Done;
      }
      return if after.value > before.value then Failed(Partial) else Done;
    }
  }

  /** The last time it was asked, the disk was open. */
  ghost predicate StillLocked(journal: seq<Event>, path: Path) {
    exists k | 0 <= k < |journal| :: LockedAt(journal, path, k)
  }

  ghost predicate LockedAt(journal: seq<Event>, path: Path, k: nat)
    requires k < |journal|
  {
    && journal[k].call == AskLock(path, true) && journal[k].ok
    && forall j | k < j < |journal| :: journal[j].call.AskRunning?
  }

  lemma LockedJustNow(journal: seq<Event>, path: Path)
    requires journal != [] && journal[|journal| - 1].call == AskLock(path, true) && journal[|journal| - 1].ok
    ensures StillLocked(journal, path)
  {
    assert LockedAt(journal, path, |journal| - 1);
  }

  /** Why a disk is not opened: the last call failed, or the disk was open when it was last asked. */
  ghost predicate HasReason(journal: seq<Event>, path: Path) {
    && journal != []
    && var last := journal[|journal| - 1];
       (!last.ok && !last.call.Measure?) || StillLocked(journal, path)
  }

  lemma ReasonIsFailure(journal: seq<Event>, from: nat, path: Path)
    requires HasReason(journal, path) && from < |journal|
    ensures SomethingFailed(journal, from) || StillLocked(journal, path)
  {
    hide StillLocked;
    if !StillLocked(journal, path) {
      FailedAt(journal, from, |journal| - 1);
    }
  }

  lemma ReasonIsNotFree(journal: seq<Event>, path: Path)
    requires HasReason(journal, path)
    ensures !KnownFree(journal, path, |journal|)
  {
    if StillLocked(journal, path) {
      var k :| 0 <= k < |journal| && LockedAt(journal, path, k);
      assert k == |journal| - 1 || journal[|journal| - 1].call.AskRunning?;
    }
  }

  lemma StillLockedAfterAsking(journal: seq<Event>, path: Path, e: Event)
    requires StillLocked(journal, path) && e.call.AskRunning?
    ensures StillLocked(journal + [e], path)
  {
    var k :| 0 <= k < |journal| && LockedAt(journal, path, k);
    assert LockedAt(journal + [e], path, k);
  }

  lemma NobodyMatches(wanted: Bytes)
    ensures !AnyMatches([], wanted)
  {
  }
}
