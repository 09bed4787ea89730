/** Pointing a distribution's entry at a disk that has moved (src/lib/ops/relink.cpp). */
module Relink {
  import opened Results
  import opened Units
  import Distro
  import opened Machine
  import opened Operations
  import Paths
  import opened Repointing

  /** Only the entry's two values ever change, and each is the old or the new one. */
  ghost predicate Keeps(entry: Entry, w0: World, w: World) {
    w.files == w0.files && entry.OthersStay(w0, w) && entry.IsEither(w0, w)
  }

  ghost predicate Trace(entry: Entry, w0: World, journal: seq<Event>, from: nat, w: World) {
    && from <= |journal| && Linked(w0, journal, from) && w == Last(w0, journal, from)
    && forall k | from <= k < |journal| :: Keeps(entry, w0, journal[k].after)
  }

  lemma TraceStarts(entry: Entry, w: World, journal: seq<Event>)
    ensures Trace(entry, w, journal, |journal|, w)
  {
    NothingYet(w, journal);
  }

  lemma TraceOneMore(entry: Entry, w0: World, journal: seq<Event>, from: nat, e: Event)
    requires Trace(entry, w0, journal, from, e.before) && Step(e) && Keeps(entry, w0, e.after)
    ensures Trace(entry, w0, journal + [e], from, e.after)
  {
    hide Step, Linked, Last, Keeps;
    LinkOneMore(w0, journal, from, e);
    assert forall k | 0 <= k < |journal| :: (journal + [e])[k] == journal[k];
  }

  /** From `w` the entries lead back to `w0`. */
  ghost predicate CanGoBack(entry: Entry, w0: World, w: World, entries: seq<Call>) {
    && Unwound(w, entries) == w0 && Keeps(entry, w0, w)
    && forall k | 0 <= k < |entries| :: entry.PutsBack(entries[k])
  }

  lemma StartsWhole(entry: Entry, w: World)
    requires entry.Registered(w)
    ensures CanGoBack(entry, w, w, [])
  {
  }

  lemma RewriteGoesBack(entry: Entry, w0: World, w: World, entries: seq<Call>, put: Call, back: Call)
    requires CanGoBack(entry, w0, w, entries) && entry.Puts(put) && entry.PutsBack(back) && put.slot == back.slot
    requires put.slot in w.values && w.values[put.slot] == back.text
    ensures CanGoBack(entry, w0, Apply(w, put), entries + [back])
  {
    hide Apply, Unwound, Entry.OthersStay, Entry.IsEither;
    KeptByWriting(entry, w0, w, put);
    WriteGoesBack(entry, w0, w, entries, put.slot, put.text, back.text);
  }

  lemma KeptByEvent(entry: Entry, w0: World, e: Event)
    requires Keeps(entry, w0, e.before) && Step(e) && entry.PutsBack(e.call)
    ensures Keeps(entry, w0, e.after)
  {
    NoChange(e);
    if e.ok {
      hide Apply, Entry.OthersStay, Entry.IsEither;
      KeptByWriting(entry, w0, e.before, e.call);
    }
  }

  lemma {:induction false} RollbackKeeps(entry: Entry, w0: World, w: World, journal: seq<Event>, from: nat, k: nat)
    requires Keeps(entry, w0, w) && Linked(w, journal, from) && from <= k < |journal|
    requires forall i | from <= i < |journal| :: entry.PutsBack(journal[i].call)
    ensures Keeps(entry, w0, journal[k].after)
  {
    hide Keeps, Step, Entry.PutsBack;
    if k > from {
      RollbackKeeps(entry, w0, w, journal, from, k - 1);
    }
    KeptByEvent(entry, w0, journal[k]);
  }

  lemma RolledBackSafely(entry: Entry, w0: World, journal: seq<Event>, from: nat, w: World, entries: seq<Call>,
                         more: seq<Event>, w': World)
    requires Trace(entry, w0, journal, from, w) && CanGoBack(entry, w0, w, entries)
    requires journal <= more && |more| == |journal| + |entries| && Linked(w, more, |journal|) && w' == Last(w, more, |journal|)
    requires forall k | |journal| <= k < |more| :: more[k].call == entries[|more| - 1 - k]
    ensures Trace(entry, w0, more, from, w')
  {
    hide Linked, Last, Step, Keeps, Entry.PutsBack;
    LinksJoin(w0, journal, from, more);
    assert forall k | 0 <= k < |journal| :: more[k] == journal[k];
    forall k | |journal| <= k < |more|
      ensures Keeps(entry, w0, more[k].after)
    {
      RollbackKeeps(entry, w0, w, more, |journal|, k);
    }
  }

  lemma EntriesAreCalls(entry: Entry, entries: seq<Call>)
    requires forall k | 0 <= k < |entries| :: entry.PutsBack(entries[k])
    ensures forall k | 0 <= k < |entries| :: PartOf(entries[k]).Some? && !entries[k].Copy?
  {
  }

  /** The entry names the new disk, and nothing else changed. */
  ghost predicate Relinked(entry: Entry, w0: World, w: World) {
    w.files == w0.files && entry.OthersStay(w0, w) && entry.IsNew(w0, w)
  }

  lemma RelinkedAtLast(entry: Entry, w0: World)
    requires entry.Registered(w0)
    ensures Relinked(entry, w0, entry.Rewritten(w0))
  {
    RewrittenIsNew(entry, w0);
  }

  lemma RelinkedSays(entry: Entry, w0: World, w: World)
    requires Relinked(entry, w0, w)
    ensures entry.IsNew(w0, w)
  {
  }

  class RelinkOperation {
    const machine: Machine
    const distro: Distro.Distro
    const target: Path
    const undo: UndoStack

    constructor (machine: Machine, distro: Distro.Distro, target: Path)
      ensures this.machine == machine && this.distro == distro && this.target == target && fresh(undo) && undo.entries == []
    {
      this.machine, this.distro, this.target := machine, distro, target;
      undo := new UndoStack();
    }

    function IntendedBasePath(): Wide {
      InFormOf(distro.basePath, Paths.ParentPath(target))
    }

    function Job(): Entry {
      Entry(Distro.RegistryKeyFor(distro), distro.basePath, IntendedBasePath(), distro.vhdFileName, Paths.Filename(target))
    }

    ghost predicate Relinkable()
      reads machine
    {
      && distro.version == 2 && Paths.Canonical(target) in machine.world.files
      && !Paths.SamePath(distro.vhdxPath, target) && distro.name !in machine.running
    }

    method Plan() returns (plan: Result<Plan>)
      modifies machine`journal, machine`unsure
      ensures OnlyAsks(old(machine.journal), machine.journal, machine.world) && machine.unsure >= old(machine.unsure)
      ensures plan.Ok? ==> plan.value.steps == [StepPlan(Repoint, true, true), StepPlan(Smoke, false, false)]
      ensures plan.Ok? ==> distro.name !in machine.running
      ensures plan.Ok? ==> !Paths.SamePath(distro.vhdxPath, target)
      ensures machine.unsure == old(machine.unsure) ==> (plan.Ok? <==> Relinkable())
    {
      hide Paths.Canonical, Step;
      if distro.version != 2 {
        return Err(Preflight);
      }
      var there := machine.Exists(target);
      if !there {
        return Err(Preflight);
      }
      if Paths.SamePath(distro.vhdxPath, target) {
        return Err(Preflight);
      }
      var running := machine.Running();
      if running.Err? {
        return Err(Preflight);
      }
      if distro.name in running.value {
        return Err(DistroBusy);
      }
      return Ok(Operations.Plan.Plan([StepPlan(Repoint, true, true), StepPlan(Smoke, false, false)]));
    }

    /** Rewrites the entry and starts the distribution from it. On failure the entries lead back to where it started. */
    method Execute() returns (r: Result<Report>)
      requires Job().Registered(machine.world) && undo.entries == []
      modifies undo`entries, machine`world, machine`journal, machine`running, machine`occupied
      ensures old(machine.journal) <= machine.journal
      ensures Trace(Job(), old(machine.world), machine.journal, |old(machine.journal)|, machine.world)
      ensures CanGoBack(Job(), old(machine.world), machine.world, undo.entries)
      ensures r.Ok? ==>
                && r.value.completed == [Repoint, Smoke]
                && Relinked(Job(), old(machine.world), machine.world)
                && StartedFromNew(Job(), old(machine.world), machine.journal, |old(machine.journal)|)
      ensures r.Err? ==> SomethingFailed(machine.journal, |old(machine.journal)|)
    {
      hide Apply, Trace, Step, CanGoBack, Keeps, Relinked, StartedFromNew, SomethingFailed, NothingStarted, Entry.IsNew, Paths.ParentPath;
      var d := Job();
      ghost var w0, from, earlier, w, entries := machine.world, |machine.journal|, machine.journal, machine.world, undo.entries;
      TraceStarts(d, w0, machine.journal);
      StartsWhole(d, w0);
      NothingStartedYet(machine.journal);
      RelinkedAtLast(d, w0);

      var written := machine.Perform(Write(d.Base(), d.newBase));
      NoChange(machine.journal[|earlier|]);
      NothingStartedBy(earlier, from, machine.journal[|earlier|]);
      if written.Failed? {
        TraceGoesOn(d, w0, earlier, from, machine.journal[|earlier|], entries);
        FailedAt(machine.journal, from, |earlier|);
        return Err(written.error);
      }
      RewriteGoesBack(d, w0, w, entries, Write(d.Base(), d.newBase), Write(d.Base(), d.oldBase));
      undo.Push(Write(d.Base(), distro.basePath));
      TraceGoesOn(d, w0, earlier, from, machine.journal[|earlier|], undo.entries);

      if distro.vhdFileName != [] {
        earlier, w, entries := machine.journal, machine.world, undo.entries;
        FileStaysRegistered(d, w0);
        written := machine.Perform(Write(d.File(), d.newFile));
        NoChange(machine.journal[|earlier|]);
        NothingStartedBy(earlier, from, machine.journal[|earlier|]);
        if written.Failed? {
          TraceGoesOn(d, w0, earlier, from, machine.journal[|earlier|], entries);
          FailedAt(machine.journal, from, |earlier|);
          return Err(written.error);
        }
        RewriteGoesBack(d, w0, w, entries, Write(d.File(), d.newFile), Write(d.File(), d.oldFile));
        undo.Push(Write(d.File(), distro.vhdFileName));
        TraceGoesOn(d, w0, earlier, from, machine.journal[|earlier|], undo.entries);
      }

      earlier := machine.journal;
      RelinkedSays(d, w0, machine.world);
      var started := machine.RunAsRoot(d.key);
      TraceGoesOn(d, w0, earlier, from, machine.journal[|earlier|], undo.entries);
      if started.Err? {
        FailedAt(machine.journal, from, |earlier|);
        return Err(started.error);
      }
      if started.value.exitCode != 0 {
        FailedAt(machine.journal, from, |earlier|);
        return Err(Preflight);
      }
      StartedNow(d, w0, earlier, from, machine.journal[|earlier|]);
      return Ok(Report([StepKind.Repoint, Smoke], None));
    }

    /** Whether the registry names the new directory. A failure changes nothing. */
    method Verify() returns (verified: Status)
      modifies machine`unsure
      ensures machine.unsure >= old(machine.unsure)
      ensures verified.Done? ==> TextAt(machine.world, Job().Base()) == Job().newBase
      ensures machine.unsure == old(machine.unsure) ==>
                (verified.Done? <==> TextAt(machine.world, Job().Base()) == Job().newBase)
    {
      hide Paths.ParentPath;
      var written := machine.ReadString(Job().Base());
      if written.Err? {
        return Failed(written.error);
      }
      if Distro.OrEmpty(written.value) != IntendedBasePath() {
        return Failed(Partial);
      }
      return Done;
    }

    /** Whichever entries fail, every value whose entry worked is as it was. */
    method Rollback(ghost w0: World, ghost from: nat)
      requires Trace(Job(), w0, machine.journal, from, machine.world)
      requires CanGoBack(Job(), w0, machine.world, undo.entries)
      modifies undo`entries, machine`world, machine`journal, machine`running, machine`occupied
      ensures undo.entries == [] && old(machine.journal) <= machine.journal
      ensures Trace(Job(), w0, machine.journal, from, machine.world)
      ensures forall k | |old(machine.journal)| <= k < |machine.journal| :: Job().PutsBack(machine.journal[k].call)
      ensures forall part | AllGood(machine.journal, |old(machine.journal)|, part) :: Agree(machine.world, w0, part)
    {
      hide Step, Linked, Last, Agree, AllGood, Unwound, Trace, Keeps, Entry.PutsBack, Paths.ParentPath;
      ghost var d, w, earlier, entries := Job(), machine.world, machine.journal, undo.entries;
      EntriesAreCalls(d, entries);
      undo.Unwind(machine);
      RolledBackSafely(d, w0, earlier, from, w, entries, machine.journal, machine.world);
    }
  }

  /** A step after which the entries still lead back. */
  lemma TraceGoesOn(entry: Entry, w0: World, journal: seq<Event>, from: nat, e: Event, entries: seq<Call>)
    requires Trace(entry, w0, journal, from, e.before) && Step(e) && CanGoBack(entry, w0, e.after, entries)
    ensures Trace(entry, w0, journal + [e], from, e.after)
  {
    TraceOneMore(entry, w0, journal, from, e);
  }
}
