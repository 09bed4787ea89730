/** Moving a distribution's disk to another directory (src/lib/ops/move.cpp). */
module Move {
  import opened Results
  import opened Units
  import Distro
  import opened Machine
  import opened Operations
  import Paths
  import opened Repointing

  // 64 MiB.
  const FREE_SPACE_MARGIN: nat := 67_108_864

  // ---- What every step keeps -----------------------------------------------------------------

  /** What a move is about: the two files by canonical path, and the registry entry. */
  datatype Errand = Errand(entry: Entry, source: Path, target: Path) {

    /** The target is free. */
    ghost predicate Ready(w: World) {
      target != source && target !in w.files
    }

    /** What was at the source is at `path`. */
    ghost predicate IsAt(w0: World, w: World, path: Path) {
      source in w0.files && path in w.files && w.files[path] == w0.files[source]
    }

    /** The whole disk that was at the source is at the source or at the target. */
    ghost predicate DiskIsSafe(w0: World, w: World) {
      HasDisk(w0, source) ==> IsAt(w0, w, source) || IsAt(w0, w, target)
    }

    ghost predicate OtherFilesStay(w0: World, w: World) {
      forall path | path != source && path != target ::
        (path in w.files <==> path in w0.files) && (path in w.files ==> w.files[path] == w0.files[path])
    }

    ghost predicate Keeps(w0: World, w: World) {
      && DiskIsSafe(w0, w) && OtherFilesStay(w0, w)
      && entry.OthersStay(w0, w) && entry.IsEither(w0, w)
    }
  }

  lemma KeptAtFirst(d: Errand, w: World)
    requires d.entry.Registered(w)
    ensures d.Keeps(w, w)
  {
  }

  lemma KeptByWrite(d: Errand, w0: World, w: World, call: Call)
    requires d.Keeps(w0, w) && (d.entry.Puts(call) || d.entry.PutsBack(call))
    ensures d.Keeps(w0, Apply(w, call)) && Apply(w, call).files == w.files
  {
    hide Entry.OthersStay, Entry.IsEither;
    KeptByWriting(d.entry, w0, w, call);
  }

  lemma KeptByTransfer(d: Errand, w0: World, call: Call)
    requires d.entry.Registered(w0) && d.Ready(w0) && Possible(w0, call)
    requires call == Rename(d.source, d.target) || call == Copy(d.source, d.target)
    ensures d.Keeps(w0, Apply(w0, call))
    ensures d.IsAt(w0, Apply(w0, call), d.target)
    ensures call.Copy? ==> d.IsAt(w0, Apply(w0, call), d.source)
  {
  }

  /** Half a copy, or half a copy cleaned up, takes nothing away. */
  lemma KeptByLitter(d: Errand, w0: World, w: World)
    requires d.entry.Registered(w0) && d.Ready(w0)
    requires w == w0 || w == w0.(files := w0.files[d.target := Fragment])
    ensures d.Keeps(w0, w) && d.Keeps(w0, Apply(w, Remove(d.target)))
    ensures Apply(w, Remove(d.target)) == w0
  {
    assert Apply(w, Remove(d.target)).files == w0.files;
  }

  /** The source may go once the target holds the disk. */
  lemma KeptByDeleting(d: Errand, w0: World, w: World)
    requires d.Keeps(w0, w) && d.IsAt(w0, w, d.target) && d.target != d.source
    ensures d.Keeps(w0, Apply(w, Remove(d.source)))
  {
  }

  // ---- Taking it back ----------------------------------------------------------------------------

  /** An entry that a move pushes. Only a copy is ever deleted. */
  ghost predicate TakesBack(d: Errand, call: Call, copied: bool) {
    || d.entry.PutsBack(call)
    || call == if copied then Remove(d.target) else Rename(d.target, d.source)
  }

  /** A call that only a failed move makes. */
  ghost predicate CleansUp(d: Errand, call: Call) {
    d.entry.PutsBack(call) || call == Remove(d.target) || call == Rename(d.target, d.source)
  }

  /** What holds while entries are taken back: a copy was made of a source that is still there. */
  ghost predicate Recoverable(d: Errand, w0: World, w: World, copied: bool) {
    d.Keeps(w0, w) && (copied ==> d.IsAt(w0, w, d.source))
  }

  /** Taking back any entry, in any order, whether it works or fails, keeps the disk. */
  lemma TakingBackKeeps(d: Errand, w0: World, e: Event, copied: bool)
    requires Recoverable(d, w0, e.before, copied) && TakesBack(d, e.call, copied) && Step(e) && d.target != d.source
    ensures Recoverable(d, w0, e.after, copied)
  {
    if e.ok {
      if e.call.Write? {
        KeptByWrite(d, w0, e.before, e.call);
      }
    }
  }

  /** So a rollback keeps the disk in every state, whichever of its entries fail. */
  lemma {:induction false} RollbackKeeps(d: Errand, w0: World, w: World, journal: seq<Event>, from: nat, copied: bool, k: nat)
    requires Recoverable(d, w0, w, copied) && d.target != d.source && Linked(w, journal, from) && from <= k < |journal|
    requires forall i | from <= i < |journal| :: TakesBack(d, journal[i].call, copied)
    ensures Recoverable(d, w0, journal[k].after, copied)
  {
    hide Recoverable, TakesBack, Step;
    if k > from {
      RollbackKeeps(d, w0, w, journal, from, copied, k - 1);
    }
    TakingBackKeeps(d, w0, journal[k], copied);
  }

  // ---- What was done, event by event ----------------------------------------------------------------

  /** Since event `from`, when the world was `w0`: every state keeps the disk, and the source was not deleted. */
  ghost predicate Trace(d: Errand, w0: World, journal: seq<Event>, from: nat, w: World) {
    && from <= |journal| && Linked(w0, journal, from) && w == Last(w0, journal, from)
    && forall k | from <= k < |journal| :: d.Keeps(w0, journal[k].after) && journal[k].call != Remove(d.source)
  }

  lemma TraceStarts(d: Errand, w: World, journal: seq<Event>)
    ensures Trace(d, w, journal, |journal|, w)
  {
    NothingYet(w, journal);
  }

  lemma TraceOneMore(d: Errand, w0: World, journal: seq<Event>, from: nat, e: Event)
    requires Trace(d, w0, journal, from, e.before) && Step(e) && d.Keeps(w0, e.after) && e.call != Remove(d.source)
    ensures Trace(d, w0, journal + [e], from, e.after)
  {
    hide Step, Linked, Last;
    LinkOneMore(w0, journal, from, e);
    assert forall k | 0 <= k < |journal| :: (journal + [e])[k] == journal[k];
  }

  /** The source is deleted at most once, as the very last call, right after the distribution started with the entry
      rewritten and the disk at the target. */
  ghost predicate DeletedLast(d: Errand, w0: World, journal: seq<Event>, from: nat) {
    forall k | from <= k < |journal| && journal[k].call == Remove(d.source) ::
      && k == |journal| - 1 && k > from
      && journal[k - 1].call == Boot(d.entry.key) && journal[k - 1].ok
      && TextAt(journal[k].before, d.entry.Base()) == d.entry.newBase
      && d.IsAt(w0, journal[k].before, d.target)
  }

  /** Nothing was lost: every state keeps the disk, and the source is deleted only as the very last thing. */
  ghost predicate SafeRun(d: Errand, w0: World, journal: seq<Event>, from: nat, w: World) {
    && from <= |journal| && Linked(w0, journal, from) && w == Last(w0, journal, from)
    && (forall k | from <= k < |journal| :: d.Keeps(w0, journal[k].after))
    && DeletedLast(d, w0, journal, from)
  }

  lemma TraceIsSafe(d: Errand, w0: World, journal: seq<Event>, from: nat, w: World)
    requires Trace(d, w0, journal, from, w)
    ensures SafeRun(d, w0, journal, from, w)
  {
  }

  lemma TraceKeeps(d: Errand, w0: World, journal: seq<Event>, from: nat, w: World)
    requires Trace(d, w0, journal, from, w) && |journal| > from
    ensures d.Keeps(w0, w)
  {
  }

  lemma DeletingIsSafe(d: Errand, w0: World, journal: seq<Event>, from: nat, e: Event)
    requires Trace(d, w0, journal, from, e.before) && Step(e) && d.Keeps(w0, e.before) && d.target != d.source
    requires e.call == Remove(d.source) && d.IsAt(w0, e.before, d.target) && TextAt(e.before, d.entry.Base()) == d.entry.newBase
    requires |journal| > from && journal[|journal| - 1].call == Boot(d.entry.key) && journal[|journal| - 1].ok
    ensures SafeRun(d, w0, journal + [e], from, e.after)
  {
    hide Linked, Last, Step, Apply, Errand.Keeps, Errand.IsAt;
    var more := journal + [e];
    assert forall k | 0 <= k < |journal| :: more[k] == journal[k];
    LinkOneMore(w0, journal, from, e);
    NoChange(e);
    KeptByDeleting(d, w0, e.before);
  }

  /** From `w` the entries lead back to `w0`, and none of them can lose the disk. */
  ghost predicate CanGoBack(d: Errand, w0: World, w: World, entries: seq<Call>, copied: bool) {
    && Unwound(w, entries) == w0 && Recoverable(d, w0, w, copied)
    && forall k | 0 <= k < |entries| :: TakesBack(d, entries[k], copied)
  }

  lemma TransferGoesBack(d: Errand, w0: World, renamed: bool)
    requires d.entry.Registered(w0) && d.Ready(w0) && Possible(w0, TransferCall(d, renamed))
    ensures CanGoBack(d, w0, Apply(w0, TransferCall(d, renamed)), [TakeBackCall(d, renamed)], !renamed)
    ensures d.IsAt(w0, Apply(w0, TransferCall(d, renamed)), d.target)
    ensures d.entry.Registered(Apply(w0, TransferCall(d, renamed)))
  {
    var call, undo := TransferCall(d, renamed), TakeBackCall(d, renamed);
    KeptByTransfer(d, w0, call);
    RenameIsInverted(w0, d.source, d.target);
    CopyIsInverted(w0, d.source, d.target);
    PushKeepsUnwound(w0, [], call, undo);
    assert [] + [undo] == [undo];
  }

  lemma RewriteGoesBack(d: Errand, w0: World, w: World, entries: seq<Call>, copied: bool, put: Call, back: Call)
    requires CanGoBack(d, w0, w, entries, copied) && d.entry.Puts(put) && d.entry.PutsBack(back) && put.slot == back.slot
    requires put.slot in w.values && w.values[put.slot] == back.text
    ensures CanGoBack(d, w0, Apply(w, put), entries + [back], copied)
  {
    hide Apply, Unwound, Errand.Keeps;
    KeptByWrite(d, w0, w, put);
    WriteGoesBack(d.entry, w0, w, entries, put.slot, put.text, back.text);
  }

  /** The move is done: the disk is at the target, gone from the source if `sourceGone`, the entry says so, and nothing
      else changed. */
  ghost predicate Moved(d: Errand, w0: World, w: World, sourceGone: bool) {
    && d.IsAt(w0, w, d.target) && d.OtherFilesStay(w0, w)
    && (if sourceGone then d.source !in w.files else d.IsAt(w0, w, d.source))
    && d.entry.OthersStay(w0, w) && d.entry.IsNew(w0, w)
  }

  lemma MovedAtLast(d: Errand, w0: World, renamed: bool)
    requires d.entry.Registered(w0) && d.Ready(w0) && Possible(w0, TransferCall(d, renamed))
    ensures var w := d.entry.Rewritten(Apply(w0, TransferCall(d, renamed)));
            Moved(d, w0, w, renamed) && (!renamed ==> Moved(d, w0, Apply(w, Remove(d.source)), true))
  {
  }

  // ---- The operation ------------------------------------------------------------------------------------

  function TransferCall(d: Errand, renamed: bool): Call {
    if renamed then Rename(d.source, d.target) else Copy(d.source, d.target)
  }

  function TakeBackCall(d: Errand, renamed: bool): Call {
    if renamed then Rename(d.target, d.source) else Remove(d.target)
  }

  /** The room a copy asks for: the disk and 64 MiB, in 64-bit arithmetic. */
  function RoomFor(occupied: nat): nat {
    (occupied + FREE_SPACE_MARGIN) % (U64_MAX + 1)
  }

  /** That is 64 MiB more than the disk exactly when the sum fits 64 bits. */
  lemma RoomForHasMargin(occupied: nat)
    ensures RoomFor(occupied) == occupied + 64 * 1024 * 1024 <==> occupied + 64 * 1024 * 1024 <= 0xFFFF_FFFF_FFFF_FFFF
    ensures 0xFFFF_FFFF_FFFF_FFFF < occupied + 64 * 1024 * 1024 <= 2 * 0xFFFF_FFFF_FFFF_FFFF ==>
              RoomFor(occupied) == occupied + 64 * 1024 * 1024 - 0x1_0000_0000_0000_0000
  {
  }

  class MoveOperation {
    const machine: Machine
    const distro: Distro.Distro
    const destination: Path
    const target: Path
    const keepSource: bool
    const undo: UndoStack
    var size: nat
    var sameVolume: bool

    constructor (machine: Machine, distro: Distro.Distro, destination: Path, keepSource: bool)
      ensures this.machine == machine && this.distro == distro && this.destination == destination
      ensures this.keepSource == keepSource && target == Paths.Join(destination, Paths.Filename(distro.vhdxPath))
      ensures fresh(undo) && undo.entries == []
    {
      this.machine, this.distro, this.destination, this.keepSource := machine, distro, destination, keepSource;
      target := Paths.Join(destination, Paths.Filename(distro.vhdxPath));
      undo := new UndoStack();
      size, sameVolume := 0, false;
    }

    function IntendedBasePath(): Wide {
      InFormOf(distro.basePath, destination)
    }

    function Job(): Errand {
      Errand(Entry(Distro.RegistryKeyFor(distro), distro.basePath, IntendedBasePath(), distro.vhdFileName,
                   Paths.Filename(target)),
             Paths.Canonical(distro.vhdxPath), Paths.Canonical(target))
    }

    function WasRenamed(): bool
      reads this`sameVolume
    {
      sameVolume && !keepSource
    }

    /** The directory is on the disk's own volume. */
    ghost predicate OnOneVolume() {
      machine.volumeRoot(distro.vhdxPath) == machine.volumeRoot(destination)
    }

    /** A copy needs a volume that can hold the disk, and room on it. */
    ghost predicate HasRoom()
      reads machine`occupied
    {
      && machine.volume(destination).supportsVhdx
      && machine.volume(destination).freeBytes >= RoomFor(machine.occupied(distro.vhdxPath))
    }

    /** What a move asks of the machine. */
    ghost predicate Movable()
      reads machine
    {
      && distro.version == 2 && Job().Ready(machine.world) && Job().source in machine.world.files
      && distro.name !in machine.running
      && ((OnOneVolume() && !keepSource) || HasRoom())
    }

    /** The steps of a plan: on one volume the disk is moved, unless the source is to be kept; otherwise it is copied, and
        the source deleted at the end, unless it is to be kept. */
    ghost predicate PlansAsAsked(steps: seq<StepPlan>) {
      steps ==
      [StepPlan(if OnOneVolume() && !keepSource then MoveFile else CopyFile, true, true), StepPlan(StepKind.Repoint, true, true),
       StepPlan(Smoke, false, false)] +
      (if !OnOneVolume() && !keepSource then [StepPlan(DeleteSource, true, false)] else [])
    }

    method Plan() returns (plan: Result<Plan>)
      modifies this`size, this`sameVolume, machine`journal, machine`unsure
      ensures OnlyAsks(old(machine.journal), machine.journal, machine.world) && machine.unsure >= old(machine.unsure)
      ensures plan.Ok? ==> PlansAsAsked(plan.value.steps) && sameVolume == OnOneVolume()
      ensures plan.Ok? ==> size == machine.occupied(distro.vhdxPath)
      ensures plan.Ok? ==> Job().Ready(machine.world) && distro.name !in machine.running
      ensures plan.Ok? && (!OnOneVolume() || keepSource) ==> HasRoom()
      ensures machine.unsure == old(machine.unsure) ==> (plan.Ok? <==> Movable())
    {
      hide Paths.Canonical, Paths.StartsWith, Paths.Filename, Distro.RegistryKeyFor, RoomFor, Step;
      if distro.version != 2 {
        return Err(Preflight);
      }
      var there := machine.Exists(distro.vhdxPath);
      if !there {
        return Err(Preflight);
      }
      if Paths.SamePath(distro.vhdxPath, target) {
        return Err(Preflight);
      }
      there := machine.Exists(target);
      if there {
        return Err(Preflight);
      }
      var running := machine.Running();
      if running.Err? {
        return Err(Preflight);
      }
      if distro.name in running.value {
        return Err(DistroBusy);
      }
      var same := machine.SameVolume(distro.vhdxPath, destination);
      if same.Err? {
        return Err(same.error);
      }
      sameVolume := same.value;
      var occupied := machine.FileSizeOnDisk(distro.vhdxPath);
      if occupied.Err? {
        return Err(occupied.error);
      }
      size := occupied.value;
      if !WasRenamed() {
        var volume := machine.VolumeInfo(destination);
        if volume.Err? {
          return Err(volume.error);
        }
        if !volume.value.supportsVhdx {
          return Err(Preflight);
        }
        if volume.value.freeBytes < RoomFor(occupied.value) {
          return Err(Preflight);
        }
      }
      var steps := [StepPlan(if WasRenamed() then MoveFile else CopyFile, true, true), StepPlan(StepKind.Repoint, true, true),
                    StepPlan(Smoke, false, false)];
      if !WasRenamed() && !keepSource {
        steps := steps + [StepPlan(DeleteSource, true, false)];
      }
      return Ok(Operations.Plan.Plan(steps));
    }

    /** Puts the file in its place. If that fails the files are as they were, unless cleaning up half a copy failed too. */
    method Transfer() returns (moved: Status, ghost takingBack: nat)
      requires Job().entry.Registered(machine.world) && Job().Ready(machine.world) && undo.entries == []
      modifies undo`entries, machine`world, machine`journal, machine`running, machine`occupied
      ensures old(machine.journal) <= machine.journal && |old(machine.journal)| <= takingBack <= |machine.journal|
      ensures Trace(Job(), old(machine.world), machine.journal, |old(machine.journal)|, machine.world)
      ensures MakesDirectoryFirst(machine.journal, |old(machine.journal)|, moved)
      ensures moved.Failed? ==> SomethingFailed(machine.journal, |old(machine.journal)|)
      ensures moved.Done? ==> NothingStarted(machine.journal, |old(machine.journal)|)
      ensures moved.Done? ==>
                && undo.entries == [TakeBackCall(Job(), WasRenamed())]
                && Possible(old(machine.world), TransferCall(Job(), WasRenamed()))
                && machine.world == Apply(old(machine.world), TransferCall(Job(), WasRenamed()))
      ensures moved.Failed? ==>
                && undo.entries == []
                && (forall k | takingBack <= k < |machine.journal| :: machine.journal[k].call == Remove(Job().target))
                && forall part | AllGood(machine.journal, takingBack, part) ::
                     Agree(machine.world, old(machine.world), part)
    {
      hide Apply, Agree, Possible, Linked, Last, Trace, Step, Paths.Canonical, AllGood, SomethingFailed, NothingStarted;
      hide Errand.Keeps, Errand.IsAt, Entry.Registered, Errand.Ready;
      var d := Job();
      ghost var w0, from := machine.world, |machine.journal|;
      TraceStarts(d, w0, machine.journal);
      KeptAtFirst(d, w0);
      ghost var earlier := machine.journal;
      var made := machine.Perform(MakeDirectories(Paths.Canonical(destination)));
      NoChange(machine.journal[from]);
      TraceOneMore(d, w0, earlier, from, machine.journal[from]);
      NothingStartedYet(earlier);
      NothingStartedBy(earlier, from, machine.journal[from]);
      takingBack := |machine.journal|;
      forall part
        ensures Agree(w0, w0, part)
      {
        AgreesWithItself(w0, part);
      }
      if made.Failed? {
        FailedAt(machine.journal, from, from);
        return made, takingBack;
      }
      earlier := machine.journal;
      if WasRenamed() {
        moved := machine.Perform(Rename(d.source, d.target));
        NoChange(machine.journal[from + 1]);
        if moved.Failed? {
          FailedAt(machine.journal, from, from + 1);
          TraceOneMore(d, w0, earlier, from, machine.journal[from + 1]);
          takingBack := |machine.journal|;
          return;
        }
        KeptByTransfer(d, w0, Rename(d.source, d.target));
        TraceOneMore(d, w0, earlier, from, machine.journal[from + 1]);
        NothingStartedBy(earlier, from, machine.journal[from + 1]);
        undo.Push(Rename(d.target, d.source));
        return Done, takingBack;
      }
      moved := machine.Perform(Copy(d.source, d.target));
      takingBack := |machine.journal|;
      ghost var copying := machine.journal[from + 1];
      NoChange(copying);
      if moved.Failed? {
        var ignored := machine.Perform(Remove(d.target));
        HalfCopyIsTraced(d, w0, earlier, from, copying, machine.journal[from + 2]);
        FailedAt(machine.journal, from, from + 1);
        return;
      }
      KeptByTransfer(d, w0, Copy(d.source, d.target));
      TraceOneMore(d, w0, earlier, from, copying);
      NothingStartedBy(earlier, from, copying);
      undo.Push(Remove(d.target));
      return Done, takingBack;
    }

    /** The directory is made before anything is put there. */
    ghost predicate MakesDirectoryFirst(journal: seq<Event>, from: nat, moved: Status) {
      && from < |journal| && journal[from].call == MakeDirectories(Paths.Canonical(destination))
      && (moved.Done? ==> journal[from].ok)
    }

    /** Rewrites BasePath, and VhdFileName where there is one. */
    method Repoint(ghost w0: World, ghost from: nat) returns (pointed: Status)
      requires Trace(Job(), w0, machine.journal, from, machine.world) && Job().entry.Registered(machine.world)
      requires CanGoBack(Job(), w0, machine.world, undo.entries, !WasRenamed()) && NothingStarted(machine.journal, from)
      modifies undo`entries, machine`world, machine`journal, machine`running, machine`occupied
      ensures old(machine.journal) <= machine.journal && NothingStarted(machine.journal, from)
      ensures Trace(Job(), w0, machine.journal, from, machine.world)
      ensures CanGoBack(Job(), w0, machine.world, undo.entries, !WasRenamed())
      ensures pointed.Done? ==> machine.world == Job().entry.Rewritten(old(machine.world))
      ensures pointed.Failed? ==> EndsInFailure(machine.journal)
      ensures |machine.journal| > |old(machine.journal)|
    {
      hide Apply, Trace, Step, CanGoBack, Paths.Canonical, NothingStarted;
      var d := Job();
      ghost var earlier, w, entries := machine.journal, machine.world, undo.entries;
      pointed := machine.Perform(Write(d.entry.Base(), d.entry.newBase));
      ghost var e := machine.journal[|earlier|];
      NoChange(e);
      NothingStartedBy(earlier, from, e);
      if pointed.Failed? {
        TraceStands(d, w0, earlier, from, e, entries, !WasRenamed());
        return;
      }
      RewriteGoesBack(d, w0, w, entries, !WasRenamed(), Write(d.entry.Base(), d.entry.newBase), Write(d.entry.Base(), d.entry.oldBase));
      undo.Push(Write(d.entry.Base(), distro.basePath));
      TraceGoesOn(d, w0, earlier, from, e, undo.entries, !WasRenamed());
      if distro.vhdFileName == [] {
        return Done;
      }
      earlier, w, entries := machine.journal, machine.world, undo.entries;
      FileStaysRegistered(d.entry, old(machine.world));
      pointed := machine.Perform(Write(d.entry.File(), d.entry.newFile));
      e := machine.journal[|earlier|];
      NoChange(e);
      NothingStartedBy(earlier, from, e);
      if pointed.Failed? {
        TraceStands(d, w0, earlier, from, e, entries, !WasRenamed());
        return;
      }
      RewriteGoesBack(d, w0, w, entries, !WasRenamed(), Write(d.entry.File(), d.entry.newFile), Write(d.entry.File(), d.entry.oldFile));
      undo.Push(Write(d.entry.File(), distro.vhdFileName));
      TraceGoesOn(d, w0, earlier, from, e, undo.entries, !WasRenamed());
      return Done;
    }

    /** Starts the distribution from what the registry says now. */
    method ProveItBoots(ghost w0: World, ghost from: nat) returns (booted: Status)
      requires from <= |machine.journal|
      requires Trace(Job(), w0, machine.journal, from, machine.world)
      requires CanGoBack(Job(), w0, machine.world, undo.entries, !WasRenamed()) && NothingStarted(machine.journal, from)
      modifies machine`world, machine`journal, machine`running, machine`occupied
      ensures old(machine.journal) <= machine.journal && |machine.journal| == |old(machine.journal)| + 1
      ensures Trace(Job(), w0, machine.journal, from, machine.world) && machine.world == old(machine.world)
      ensures var e := machine.journal[|old(machine.journal)|];
                e.call == Boot(Job().entry.key) && e.ok == booted.Done? && e.before == machine.world
      ensures booted.Failed? ==> EndsInFailure(machine.journal)
      ensures booted.Done? && Job().entry.IsNew(w0, machine.world) ==>
                StartedFromNew(Job().entry, w0, machine.journal, from)
    {
      hide Apply, Trace, Step, CanGoBack, Paths.Canonical, NothingStarted, StartedFromNew, Entry.IsNew;
      var d := Job();
      ghost var earlier := machine.journal;
      var started := machine.RunAsRoot(d.entry.key);
      ghost var e := machine.journal[|earlier|];
      TraceStands(d, w0, earlier, from, e, undo.entries, !WasRenamed());
      if started.Err? {
        return Failed(started.error);
      }
      if started.value.exitCode != 0 {
        return Failed(Preflight);
      }
      StartedNow(d.entry, w0, earlier, from, e);
      return Done;
    }

    /** On success the move is done, and only the leftover source may be missing from what was completed. On failure the
        entries lead back to where it started, unless half a copy could not be cleaned up. Nothing is lost either way. */
    method Execute() returns (r: Result<Report>, ghost takingBack: nat)
      requires Job().entry.Registered(machine.world) && Job().Ready(machine.world) && undo.entries == []
      requires sameVolume == OnOneVolume()
      modifies undo`entries, machine`world, machine`journal, machine`running, machine`occupied
      ensures old(machine.journal) <= machine.journal && |old(machine.journal)| <= takingBack <= |machine.journal|
      ensures SafeRun(Job(), old(machine.world), machine.journal, |old(machine.journal)|, machine.world)
      ensures r.Ok? ==>
                && Delivered(old(machine.world), r.value.completed)
                && StartedFromNew(Job().entry, old(machine.world), machine.journal, |old(machine.journal)|)
      ensures r.Ok? && keepSource ==> Job().IsAt(old(machine.world), machine.world, Job().source)
      ensures r.Err? ==>
                && Interrupted(old(machine.world), |old(machine.journal)|, takingBack)
                && SomethingFailed(machine.journal, |old(machine.journal)|)
    {
      hide Apply, Trace, Step, CanGoBack, SafeRun, Moved, Entry.Rewritten, Linked, Last, Agree, AllGood, Possible,
           Paths.Canonical, TransferCall, TakeBackCall, Unwound, Errand.Keeps, Entry.Registered,
           Errand.Ready, Entry.IsNew, StartedFromNew, Errand.IsAt, MakesDirectoryFirst, SomethingFailed, NothingStarted,
           EndsInFailure, Delivered, OnOneVolume;
      var d := Job();
      ghost var w0, from := machine.world, |machine.journal|;
      var completed: seq<StepKind> := [];

      var moved;
      moved, takingBack := Transfer();
      if moved.Failed? {
        GivenUp(d, w0, machine.journal, from, machine.world, undo.entries, takingBack);
        return Err(moved.error), takingBack;
      }
      TransferGoesBack(d, w0, WasRenamed());
      MovedAtLast(d, w0, WasRenamed());
      completed := completed + [if WasRenamed() then MoveFile else CopyFile];

      var pointed := Repoint(w0, from);
      takingBack := |machine.journal|;
      if pointed.Failed? {
        Stopped(d, w0, machine.journal, from, machine.world, undo.entries, !WasRenamed());
        return Err(pointed.error), takingBack;
      }
      completed := completed + [StepKind.Repoint];

      var booted := ProveItBoots(w0, from);
      takingBack := |machine.journal|;
      if booted.Failed? {
        Stopped(d, w0, machine.journal, from, machine.world, undo.entries, !WasRenamed());
        return Err(booted.error), takingBack;
      }
      completed := completed + [Smoke];
      MovedSays(d, w0, machine.world, WasRenamed());

      var deleted := false;
      if WasRenamed() || keepSource {
        TraceIsSafe(d, w0, machine.journal, from, machine.world);
      } else {
        deleted := DeleteLeftover(w0, from);
        if deleted {
          completed := completed + [DeleteSource];
        }
      }
      Delivers(w0, deleted, completed);
      return Ok(Report(completed, None)), takingBack;
    }

    /** What was delivered is what the check looks for. */
    lemma DeliveredSays(w0: World, completed: seq<StepKind>)
      requires Delivered(w0, completed)
      ensures Job().target in machine.world.files
      ensures TextAt(machine.world, Job().entry.Base()) == Job().entry.newBase
    {
      hide Moved, Errand.IsAt;
      MovedSays(Job(), w0, machine.world, if keepSource then false else if OnOneVolume() then true else
                                            machine.journal[|machine.journal| - 1].ok);
      TargetIsThere(Job(), w0, machine.world);
    }

    lemma Delivers(w0: World, deleted: bool, completed: seq<StepKind>)
      requires sameVolume == OnOneVolume()
      requires Moved(Job(), w0, machine.world, WasRenamed() || deleted)
      requires WasRenamed() || keepSource ==> !deleted
      requires !WasRenamed() && !keepSource ==>
                 && machine.journal != []
                 && var last := machine.journal[|machine.journal| - 1];
                    last.call == Remove(Job().source) && last.ok == deleted
      requires completed == [if WasRenamed() then MoveFile else CopyFile] + [StepKind.Repoint] + [Smoke] +
                            (if deleted then [DeleteSource] else [])
      ensures Delivered(w0, completed)
      ensures keepSource ==> Job().IsAt(w0, machine.world, Job().source)
    {
      hide Paths.Canonical, Entry.IsNew, Entry.OthersStay, Errand.OtherFilesStay;
    }

    /** The point of no return. A source that cannot be deleted is left, and the move has still worked. */
    method DeleteLeftover(ghost w0: World, ghost from: nat) returns (deleted: bool)
      requires Trace(Job(), w0, machine.journal, from, machine.world) && Job().Ready(w0)
      requires Moved(Job(), w0, machine.world, false) && Moved(Job(), w0, Apply(machine.world, Remove(Job().source)), true)
      requires var n := |machine.journal|;
               n > from && machine.journal[n - 1].call == Boot(Job().entry.key) && machine.journal[n - 1].ok
      requires StartedFromNew(Job().entry, w0, machine.journal, from)
      modifies machine`world, machine`journal, machine`running, machine`occupied
      ensures old(machine.journal) <= machine.journal && |machine.journal| == |old(machine.journal)| + 1
      ensures machine.journal[|old(machine.journal)|].call == Remove(Job().source)
      ensures machine.journal[|old(machine.journal)|].ok == deleted
      ensures SafeRun(Job(), w0, machine.journal, from, machine.world)
      ensures Moved(Job(), w0, machine.world, deleted)
      ensures StartedFromNew(Job().entry, w0, machine.journal, from)
    {
      hide Apply, Trace, Step, SafeRun, Moved, Linked, Last, Possible, Paths.Canonical, StartedFromNew;
      var d := Job();
      ghost var earlier := machine.journal;
      MovedSays(d, w0, machine.world, false);
      TraceKeeps(d, w0, earlier, from, machine.world);
      var removed := machine.Perform(Remove(d.source));
      DeletingIsSafe(d, w0, earlier, from, machine.journal[|earlier|]);
      StillStarted(d.entry, w0, earlier, from, machine.journal[|earlier|]);
      NoChange(machine.journal[|earlier|]);
      return removed.Done?;
    }

    /** Whether the disk is at the target and the registry names its directory. A failure changes nothing. */
    method Verify() returns (verified: Status)
      modifies machine`unsure
      ensures machine.unsure >= old(machine.unsure)
      ensures verified.Done? ==> TextAt(machine.world, Job().entry.Base()) == Job().entry.newBase
      ensures machine.unsure == old(machine.unsure) ==>
                (verified.Done? <==> Job().target in machine.world.files && TextAt(machine.world, Job().entry.Base()) == Job().entry.newBase)
    {
      hide Paths.Canonical;
      var there := machine.Exists(target);
      if !there {
        return Failed(Partial);
      }
      var written := machine.ReadString(Job().entry.Base());
      if written.Err? {
        return Failed(written.error);
      }
      if Distro.OrEmpty(written.value) != IntendedBasePath() {
        return Failed(Partial);
      }
      return Done;
    }

    /** Whichever entries fail, nothing is lost, and every part whose entries worked is as it was. */
    method Rollback(ghost w0: World, ghost from: nat, ghost takingBack: nat)
      requires Interrupted(w0, from, takingBack) && takingBack <= |machine.journal| && Job().Ready(w0)
      modifies undo`entries, machine`world, machine`journal, machine`running, machine`occupied
      ensures undo.entries == [] && old(machine.journal) <= machine.journal
      ensures Trace(Job(), w0, machine.journal, from, machine.world)
      ensures forall k | takingBack <= k < |machine.journal| :: CleansUp(Job(), machine.journal[k].call)
      ensures forall part | AllGood(machine.journal, takingBack, part) :: Agree(machine.world, w0, part)
    {
      hide Step, Linked, Last, Agree, AllGood, Unwound, TakesBack, Recoverable, Trace, CanGoBack, Paths.Canonical;
      ghost var d, w, earlier, entries, copied := Job(), machine.world, machine.journal, undo.entries, !WasRenamed();
      EntriesAreCalls(d, w0, w, entries, copied);
      undo.Unwind(machine);
      RolledBackSafely(d, w0, earlier, from, w, entries, copied, machine.journal, machine.world);
      EntriesCleanUp(d, earlier, takingBack, w0, w, entries, copied, machine.journal);
      forall part | AllGood(machine.journal, takingBack, part)
        ensures Agree(machine.world, w0, part)
      {
        AllGoodInPart(earlier, machine.journal, takingBack, part);
        AgreeIsTransitive(machine.world, Unwound(w, entries), w0, part);
      }
    }

    /** What a move has done and what it reports. A source that is to be kept is still there; on one volume it became the
        target; otherwise the last call was to delete it, and it is gone if that worked. */
    ghost predicate Delivered(w0: World, completed: seq<StepKind>)
      reads machine`world, machine`journal
    {
      var d, w := Job(), machine.world;
      if keepSource then
        completed == [CopyFile, StepKind.Repoint, Smoke] && Moved(d, w0, w, false)
      else if OnOneVolume() then
        completed == [MoveFile, StepKind.Repoint, Smoke] && Moved(d, w0, w, true)
      else
        && machine.journal != [] && machine.journal[|machine.journal| - 1].call == Remove(d.source)
        && var deleted := machine.journal[|machine.journal| - 1].ok;
        && completed == [CopyFile, StepKind.Repoint, Smoke] + (if deleted then [DeleteSource] else [])
        && Moved(d, w0, w, deleted)
    }

    /** What a failed execution leaves: the source was never deleted, and with the entries it goes back part by part. */
    ghost predicate Interrupted(w0: World, from: nat, takingBack: nat)
      reads this, undo, machine
    {
      && Trace(Job(), w0, machine.journal, from, machine.world)
      && (forall k | takingBack <= k < |machine.journal| :: machine.journal[k].call == Remove(Job().target))
      && (forall part | AllGood(machine.journal, takingBack, part) :: Agree(Unwound(machine.world, undo.entries), w0, part))
      && (undo.entries != [] ==> CanGoBack(Job(), w0, machine.world, undo.entries, !WasRenamed()))
    }
  }

  lemma EntriesAreCalls(d: Errand, w0: World, w: World, entries: seq<Call>, copied: bool)
    requires entries != [] ==> CanGoBack(d, w0, w, entries, copied)
    ensures forall k | 0 <= k < |entries| :: PartOf(entries[k]).Some? && !entries[k].Copy?
  {
  }

  lemma EntriesCleanUp(d: Errand, journal: seq<Event>, takingBack: nat, w0: World, w: World, entries: seq<Call>, copied: bool,
                       more: seq<Event>)
    requires entries != [] ==> CanGoBack(d, w0, w, entries, copied)
    requires journal <= more && |more| == |journal| + |entries|
    requires forall k | takingBack <= k < |journal| :: journal[k].call == Remove(d.target)
    requires forall k | |journal| <= k < |more| :: more[k].call == entries[|more| - 1 - k]
    ensures forall k | takingBack <= k < |more| :: CleansUp(d, more[k].call)
  {
    hide Recoverable, Unwound;
    forall k | takingBack <= k < |more|
      ensures CleansUp(d, more[k].call)
    {
      if k < |journal| {
        assert more[k] == journal[k];
      } else {
        assert TakesBack(d, entries[|more| - 1 - k], copied);
      }
    }
  }

  lemma RolledBackSafely(d: Errand, w0: World, journal: seq<Event>, from: nat, w: World, entries: seq<Call>, copied: bool,
                         more: seq<Event>, w': World)
    requires Trace(d, w0, journal, from, w) && d.Ready(w0) && (entries != [] ==> CanGoBack(d, w0, w, entries, copied))
    requires journal <= more && |more| == |journal| + |entries| && Linked(w, more, |journal|) && w' == Last(w, more, |journal|)
    requires forall k | |journal| <= k < |more| :: more[k].call == entries[|more| - 1 - k]
    ensures Trace(d, w0, more, from, w')
  {
    hide Linked, Last, Step, TakesBack, Recoverable;
    LinksJoin(w0, journal, from, more);
    assert forall k | 0 <= k < |journal| :: more[k] == journal[k];
    forall k | |journal| <= k < |more|
      ensures d.Keeps(w0, more[k].after) && more[k].call != Remove(d.source)
    {
      RollbackKeeps(d, w0, w, more, |journal|, copied, k);
      TakingBackIsNotDeleting(d, more[k].call, copied);
      RecoverableKeeps(d, w0, more[k].after, copied);
    }
  }

  lemma TakingBackIsNotDeleting(d: Errand, call: Call, copied: bool)
    requires TakesBack(d, call, copied) && d.target != d.source
    ensures call != Remove(d.source)
  {
  }

  lemma RecoverableKeeps(d: Errand, w0: World, w: World, copied: bool)
    requires Recoverable(d, w0, w, copied)
    ensures d.Keeps(w0, w)
  {
  }

  lemma AllGoodInPart(journal: seq<Event>, more: seq<Event>, from: nat, part: Part)
    requires journal <= more && from <= |journal| && AllGood(more, from, part)
    ensures AllGood(journal, from, part) && AllGood(more, |journal|, part)
  {
    hide Good;
    assert forall k | 0 <= k < |journal| :: more[k] == journal[k];
  }

  lemma GivenUp(d: Errand, w0: World, journal: seq<Event>, from: nat, w: World, entries: seq<Call>, takingBack: nat)
    requires Trace(d, w0, journal, from, w) && entries == []
    requires forall part | AllGood(journal, takingBack, part) :: Agree(w, w0, part)
    ensures SafeRun(d, w0, journal, from, w)
    ensures forall part | AllGood(journal, takingBack, part) :: Agree(Unwound(w, entries), w0, part)
  {
    hide Trace, SafeRun, AllGood, Agree;
    TraceIsSafe(d, w0, journal, from, w);
  }

  lemma Stopped(d: Errand, w0: World, journal: seq<Event>, from: nat, w: World, entries: seq<Call>, copied: bool)
    requires Trace(d, w0, journal, from, w) && CanGoBack(d, w0, w, entries, copied)
    requires from < |journal| && EndsInFailure(journal)
    ensures SafeRun(d, w0, journal, from, w) && SomethingFailed(journal, from)
    ensures forall part :: Agree(Unwound(w, entries), w0, part)
  {
    hide Trace, SafeRun;
    FailedAt(journal, from, |journal| - 1);
    TraceIsSafe(d, w0, journal, from, w);
  }

  lemma MovedSays(d: Errand, w0: World, w: World, sourceGone: bool)
    requires Moved(d, w0, w, sourceGone)
    ensures d.IsAt(w0, w, d.target) && d.entry.IsNew(w0, w) && TextAt(w, d.entry.Base()) == d.entry.newBase
    ensures !sourceGone ==> d.IsAt(w0, w, d.source)
  {
  }

  lemma TargetIsThere(d: Errand, w0: World, w: World)
    requires d.IsAt(w0, w, d.target)
    ensures d.target in w.files
  {
  }

  /** A step that changed something which can go back. */
  lemma TraceGoesOn(d: Errand, w0: World, journal: seq<Event>, from: nat, e: Event, entries: seq<Call>, copied: bool)
    requires Trace(d, w0, journal, from, e.before) && Step(e) && e.call != Remove(d.source)
    requires CanGoBack(d, w0, e.after, entries, copied)
    ensures Trace(d, w0, journal + [e], from, e.after)
  {
    TraceOneMore(d, w0, journal, from, e);
  }

  /** A step that changed nothing. */
  lemma TraceStands(d: Errand, w0: World, journal: seq<Event>, from: nat, e: Event, entries: seq<Call>, copied: bool)
    requires Trace(d, w0, journal, from, e.before) && Step(e) && e.call != Remove(d.source)
    requires CanGoBack(d, w0, e.before, entries, copied) && e.after == e.before
    ensures Trace(d, w0, journal + [e], from, e.after)
  {
    TraceOneMore(d, w0, journal, from, e);
  }


  lemma FailedCopy(e: Event)
    requires Step(e) && e.call.Copy? && !e.ok
    ensures e.after == e.before || e.after == e.before.(files := e.before.files[e.call.to := Fragment])
  {
  }

  /** A copy that failed, and the attempt to clean it up. */
  lemma HalfCopyIsTraced(d: Errand, w0: World, earlier: seq<Event>, from: nat, copying: Event, cleaning: Event)
    requires d.entry.Registered(w0) && d.Ready(w0) && Trace(d, w0, earlier, from, w0)
    requires Step(copying) && copying.call == Copy(d.source, d.target) && !copying.ok && copying.before == w0
    requires Step(cleaning) && cleaning.call == Remove(d.target) && cleaning.before == copying.after
    ensures Trace(d, w0, earlier + [copying] + [cleaning], from, cleaning.after)
    ensures forall part | AllGood(earlier + [copying] + [cleaning], |earlier| + 1, part) :: Agree(cleaning.after, w0, part)
  {
    hide Step, Trace, Apply, Possible, AllGood, Agree, Errand.Keeps, Entry.Registered;
    FailedCopy(copying);
    KeptByLitter(d, w0, copying.after);
    TraceOneMore(d, w0, earlier, from, copying);
    NoChange(cleaning);
    TraceOneMore(d, w0, earlier + [copying], from, cleaning);
    forall part | AllGood(earlier + [copying] + [cleaning], |earlier| + 1, part)
      ensures Agree(cleaning.after, w0, part)
    {
      CleanedUp(d, w0, earlier + [copying] + [cleaning], |earlier| + 1, part);
    }
  }

  lemma CleanedUp(d: Errand, w0: World, journal: seq<Event>, k: nat, part: Part)
    requires d.entry.Registered(w0) && d.Ready(w0) && k < |journal| && AllGood(journal, k, part)
    requires var e := journal[k];
             && (e.before == w0 || e.before == w0.(files := w0.files[d.target := Fragment]))
             && Step(e) && e.call == Remove(d.target)
    ensures Agree(journal[k].after, w0, part)
  {
    KeptByLitter(d, w0, journal[k].before);
    assert part == Files ==> Good(journal[k]);
  }
}
