/** The lifecycle every operation goes through: plan, execute, verify, and roll back (src/lib/ops/runner.cpp). */
module Runner {
  import opened Results
  import Compact
  import opened Machine
  import Move
  import opened Operations
  import Relink
  import opened Repointing

  // ---- Points of no return ---------------------------------------------------------------

  /** After a step that cannot be undone, nothing changes anything but such steps. */
  predicate IrreversibleLast(steps: seq<StepPlan>) {
    forall i, j | 0 <= i < j < |steps| && steps[i].mutates && !steps[i].undoable && steps[j].mutates :: !steps[j].undoable
  }

  method IrreversibleStepsAreLast(plan: Plan) returns (last: bool)
    ensures last == IrreversibleLast(plan.steps)
  {
    var pastNoReturn := false;
    for i := 0 to |plan.steps|
      invariant pastNoReturn == exists k | 0 <= k < i :: plan.steps[k].IsIrreversible()
      invariant IrreversibleLast(plan.steps[..i])
    {
      if plan.steps[i].IsIrreversible() {
        pastNoReturn := true;
        continue;
      }
      if pastNoReturn && plan.steps[i].mutates {
        return false;
      }
    }
    return true;
  }

  // ---- An operation, whichever it is -----------------------------------------------------------

  datatype RunOutcome = RunOutcome(plan: Plan, report: Option<Report>)

  // How far a run got. `Unverified` is an execution that worked and a check that did not say so.
  datatype Stage = Refused | Planned | RolledBack | Unverified | Completed

  datatype Operation =
    | Moving(move: Move.MoveOperation)
    | Relinking(relink: Relink.RelinkOperation)
    | Compacting(compact: Compact.CompactOperation) {

    function On(): Machine {
      match this
      case Moving(move) => move.machine
      case Relinking(relink) => relink.machine
      case Compacting(compact) => compact.machine
    }

    ghost function Frame(): set<object> {
      match this
      case Moving(move) => {move, move.undo, move.machine}
      case Relinking(relink) => {relink, relink.undo, relink.machine}
      case Compacting(compact) => {compact, compact.machine}
    }

    /** The operation is new, and the record it was given is what the registry says. */
    ghost predicate Fresh()
      reads Frame()
    {
      match this
      case Moving(move) => move.undo.entries == [] && move.Job().entry.Registered(move.machine.world)
      case Relinking(relink) => relink.undo.entries == [] && relink.Job().Registered(relink.machine.world)
      case Compacting(compact) => compact.before == None && compact.after == None
    }

    /** Nobody else has touched the machine since the preflight, and what was asked since event `began` is known. */
    ghost predicate Ready(began: nat)
      reads Frame()
    {
      && began <= |On().journal|
      && match this
         case Moving(move) =>
           && move.undo.entries == [] && move.Job().entry.Registered(move.machine.world)
           && move.Job().Ready(move.machine.world) && move.sameVolume == move.OnOneVolume()
         case Relinking(relink) => Fresh()
         case Compacting(compact) =>
           && compact.before == Compact.LastSize(compact.machine.journal, compact.File(), began, |compact.machine.journal|)
           && compact.after == None
    }

    /** The plan is the one for what the preflight found. */
    ghost predicate Plans(plan: Plan)
      reads Frame()
    {
      match this
      case Moving(move) => move.PlansAsAsked(plan.steps)
      case Relinking(relink) => plan.steps == [StepPlan(Repoint, true, true), StepPlan(Smoke, false, false)]
      case Compacting(compact) => compact.PlansAsAsked(plan.steps)
    }

    /** What the operation asks of the machine. */
    ghost predicate Possible()
      reads Frame()
    {
      match this
      case Moving(move) => move.Movable()
      case Relinking(relink) => relink.Relinkable()
      case Compacting(compact) => compact.Compactable()
    }

    /** No plan of the operation is out of order. */
    ghost predicate Orderly()
      reads Frame()
    {
      forall plan | Plans(plan) :: IrreversibleLast(plan.steps)
    }

    lemma IsOrderly()
      ensures Orderly()
    {
      forall plan | Plans(plan)
        ensures IrreversibleLast(plan.steps)
      {
      }
    }

    /** Why an execution failed: a call failed, or for a compaction the disk was open when it was last asked. */
    ghost predicate HasReason(from: nat)
      reads Frame()
    {
      || SomethingFailed(On().journal, from)
      || (Compacting? && Compact.StillLocked(compact.machine.journal, compact.File()))
    }

    /** What holds in every state of a run. */
    ghost predicate Keeps(w0: World, w: World) {
      match this
      case Moving(move) => move.Job().Keeps(w0, w)
      case Relinking(relink) => Relink.Keeps(relink.Job(), w0, w)
      case Compacting(compact) => w == w0
    }

    /** What holds of the calls of a run, in order. */
    ghost predicate InOrder(w0: World, from: nat)
      reads Frame()
    {
      match this
      case Moving(move) => Move.DeletedLast(move.Job(), w0, move.machine.journal, from)
      case Relinking(relink) => true
      case Compacting(compact) =>
        && (forall k | from <= k < |compact.machine.journal| :: compact.StopsAsAsked(compact.machine.journal[k].call))
        && (|| Compact.Idle(compact.machine.journal, from, w0, compact.StopCall())
            || exists o | from <= o < |compact.machine.journal| :: compact.OpenedAt(compact.machine.journal, from, o))
    }

    ghost predicate Safe(w0: World, from: nat)
      reads Frame()
    {
      && from <= |On().journal| && Linked(w0, On().journal, from) && On().world == Last(w0, On().journal, from)
      && (forall k | from <= k < |On().journal| :: Keeps(w0, On().journal[k].after))
      && InOrder(w0, from)
    }

    /** What an execution that worked has done, and what it reports. */
    ghost predicate Achieved(w0: World, began: nat, from: nat, report: Report)
      reads Frame()
    {
      match this
      case Moving(move) =>
        && move.Delivered(w0, report.completed)
        && StartedFromNew(move.Job().entry, w0, move.machine.journal, from)
      case Relinking(relink) =>
        && report.completed == [Repoint, Smoke]
        && Relink.Relinked(relink.Job(), w0, relink.machine.world)
        && StartedFromNew(relink.Job(), w0, relink.machine.journal, from)
      case Compacting(compact) =>
        && compact.Reports(report)
        && exists o | from <= o < |compact.machine.journal| ::
             compact.OpenedAt(compact.machine.journal, from, o) && compact.MeasuredAround(compact.machine.journal, began, o)
    }

    /** A call that only a rollback makes. */
    ghost predicate TakesBack(call: Call) {
      match this
      case Moving(move) => Move.CleansUp(move.Job(), call)
      case Relinking(relink) => relink.Job().PutsBack(call)
      case Compacting(compact) => false
    }

    /** What an execution that failed has left for the rollback. */
    ghost predicate Interrupted(w0: World, from: nat, takingBack: nat)
      reads Frame()
    {
      match this
      case Moving(move) => move.Interrupted(w0, from, takingBack) && move.Job().Ready(w0)
      case Relinking(relink) =>
        && Relink.Trace(relink.Job(), w0, relink.machine.journal, from, relink.machine.world)
        && Relink.CanGoBack(relink.Job(), w0, relink.machine.world, relink.undo.entries)
        && takingBack == |relink.machine.journal|
      case Compacting(compact) => compact.machine.world == w0 && takingBack == |compact.machine.journal|
    }

    /** What the check at the end looks for. */
    ghost predicate Checks()
      reads Frame()
    {
      match this
      case Moving(move) =>
        && move.Job().target in move.machine.world.files
        && TextAt(move.machine.world, move.Job().entry.Base()) == move.Job().entry.newBase
      case Relinking(relink) =>
        TextAt(relink.machine.world, relink.Job().Base()) == relink.Job().newBase
      case Compacting(compact) =>
        compact.before.Some? && compact.after.Some? ==> compact.after.value <= compact.before.value
    }

    lemma AchievedChecks(w0: World, began: nat, from: nat, report: Report)
      requires Achieved(w0, began, from, report) && !Compacting?
      ensures Checks()
    {
      hide Move.MoveOperation.Delivered, StartedFromNew, Relink.Relinked, Paths.Canonical, Distro.RegistryKeyFor;
      match this
      case Moving(move) => move.DeliveredSays(w0, report.completed);
      case Relinking(relink) => Relink.RelinkedSays(relink.Job(), w0, relink.machine.world);
    }

    method Preflight() returns (plan: Result<Plan>)
      requires Fresh()
      modifies Frame()
      ensures OnlyAsks(old(On().journal), On().journal, old(On().world)) && On().world == old(On().world)
      ensures On().unsure >= old(On().unsure)
      ensures plan.Ok? ==> Ready(|old(On().journal)|) && Plans(plan.value)
      ensures On().unsure == old(On().unsure) ==> (plan.Ok? <==> old(Possible()))
    {
      match this
      case Moving(move) => plan := move.Plan();
      case Relinking(relink) => plan := relink.Plan();
      case Compacting(compact) => plan := compact.Plan();
    }

    method Execute(ghost plan: Plan, ghost began: nat) returns (r: Result<Report>, ghost takingBack: nat)
      requires Ready(began) && Plans(plan)
      modifies Frame()
      ensures Plans(plan)
      ensures old(On().journal) <= On().journal && |old(On().journal)| <= takingBack <= |On().journal|
      ensures On().unsure >= old(On().unsure)
      ensures Safe(old(On().world), |old(On().journal)|)
      ensures r.Ok? ==> Achieved(old(On().world), began, |old(On().journal)|, r.value)
      ensures r.Err? ==> Interrupted(old(On().world), |old(On().journal)|, takingBack) && HasReason(|old(On().journal)|)
    {
      hide Linked, Last, Move.DeletedLast, SomethingFailed, Compact.StillLocked, Compact.Idle, Compact.Untouched;
      hide Move.CanGoBack, Relink.CanGoBack, Move.Moved, Relink.Relinked, StartedFromNew, AllGood, Agree, Unwound;
      hide Move.Errand.Keeps, Relink.Keeps, Move.MoveOperation.Delivered, Move.MoveOperation.Interrupted, Paths.Canonical,
           Compact.CompactOperation.Reports, Compact.LastSize, Distro.RegistryKeyFor, Step;
      match this
      case Moving(move) =>
        r, takingBack := move.Execute();
      case Relinking(relink) =>
        r := relink.Execute();
        takingBack := |relink.machine.journal|;
      case Compacting(compact) =>
        ghost var openedAt;
        r, openedAt := compact.Execute(began);
        takingBack := |compact.machine.journal|;
        Compact.UntouchedIsLinked(compact.machine.journal, |old(compact.machine.journal)|, compact.machine.world);
    }

    method Verify(ghost w0: World, ghost began: nat, ghost from: nat, ghost plan: Plan, ghost report: Report) returns (verified: Status)
      requires Achieved(w0, began, from, report) && Safe(w0, from) && Plans(plan)
      modifies Frame()
      ensures On().world == old(On().world) && On().journal == old(On().journal)
      ensures Achieved(w0, began, from, report) && Safe(w0, from) && Plans(plan)
      ensures On().unsure >= old(On().unsure)
      ensures On().unsure == old(On().unsure) ==> (verified.Done? <==> Checks())
      ensures Compacting? ==> (verified.Done? <==> Checks())
    {
      hide Linked, Last, Move.DeletedLast, Compact.Idle, Move.MoveOperation.Delivered, Relink.Relinked, StartedFromNew;
      hide Paths.Canonical, Distro.RegistryKeyFor, Compact.LastSize, Compact.CompactOperation.OpenedAt,
           Compact.CompactOperation.Reports, Compact.CompactOperation.StopsAsAsked;
      match this
      case Moving(move) => verified := move.Verify();
      case Relinking(relink) => verified := relink.Verify();
      case Compacting(compact) => verified := compact.Verify();
    }

    method Rollback(ghost w0: World, ghost from: nat, ghost takingBack: nat)
      requires Interrupted(w0, from, takingBack) && Safe(w0, from) && takingBack <= |On().journal| && HasReason(from)
      modifies Frame()
      ensures old(On().journal) <= On().journal && HasReason(from)
      ensures Safe(w0, from)
      ensures forall k | takingBack <= k < |On().journal| :: TakesBack(On().journal[k].call)
      ensures forall part | AllGood(On().journal, takingBack, part) :: Agree(On().world, w0, part)
    {
      hide Linked, Last, Step, Distro.RegistryKeyFor, Paths.Canonical, Move.CanGoBack, Relink.CanGoBack, Unwound;
      match this
      case Moving(move) =>
        move.Rollback(w0, from, takingBack);
      case Relinking(relink) =>
        relink.Rollback(w0, from);
      case Compacting(compact) =>
    }
  }

  /** When everything was taken back, nothing is left of the run. */
  lemma AllIsBack(journal: seq<Event>, takingBack: nat, w: World, w0: World)
    requires forall k | takingBack <= k < |journal| :: Good(journal[k])
    requires forall part | AllGood(journal, takingBack, part) :: Agree(w, w0, part)
    ensures w == w0
  {
    hide Good, Agree;
    forall part
      ensures Agree(w, w0, part)
    {
      assert AllGood(journal, takingBack, part);
    }
    AgreeEverywhere(w, w0);
  }

  lemma OrderlyPlan(op: Operation, plan: Plan)
    ensures op.Orderly() && op.Plans(plan) ==> IrreversibleLast(plan.steps)
  {
  }

  /** One run. Wherever it stops, every state since `start` kept what the operation keeps: for a move, the whole disk at the
      source or at the target. A refusal and a dry run change nothing. A failed execution is taken back, and every part
      whose calls to take it back worked is as it was before, whatever happened to the others. An execution that worked
      stands even if the check afterwards does not say so, and for a move or a relink that is only because a question got
      no answer. */
  method Run(op: Operation, dryRun: bool)
    returns (r: Result<RunOutcome>, ghost stage: Stage, ghost start: nat, ghost takingBack: nat)
    requires op.Fresh()
    modifies op.Frame()
    ensures r.Ok? <==> stage.Planned? || stage.Completed?
    ensures r.Ok? ==> op.Plans(r.value.plan)
    ensures stage.Planned? ==> r.value.report == None
    ensures dryRun ==> stage.Refused? || stage.Planned?
    ensures !dryRun ==> !stage.Planned?
    ensures stage.Refused? || stage.Planned? ==>
              && op.On().world == old(op.On().world)
              && OnlyAsks(old(op.On().journal), op.On().journal, old(op.On().world))
    ensures stage.Refused? && op.Orderly() && op.On().unsure == old(op.On().unsure) ==> !old(op.Possible())
    ensures stage.RolledBack? || stage.Unverified? || stage.Completed? ==>
              && |old(op.On().journal)| <= start <= |op.On().journal|
              && old(op.On().journal) <= op.On().journal
              && OnlyAsks(old(op.On().journal), op.On().journal[..start], old(op.On().world))
              && op.Safe(old(op.On().world), start)
    ensures stage.RolledBack? ==>
              && op.HasReason(start)
              && start <= takingBack <= |op.On().journal|
              && (forall k | takingBack <= k < |op.On().journal| :: op.TakesBack(op.On().journal[k].call))
              && (forall part | AllGood(op.On().journal, takingBack, part) ::
                    Agree(op.On().world, old(op.On().world), part))
              && ((forall k | takingBack <= k < |op.On().journal| :: Good(op.On().journal[k])) ==>
                    op.On().world == old(op.On().world))
    ensures stage.Completed? ==>
              r.value.report.Some? && op.Achieved(old(op.On().world), |old(op.On().journal)|, start, r.value.report.value)
    ensures stage.Unverified? ==>
              exists report :: op.Achieved(old(op.On().world), |old(op.On().journal)|, start, report)
    ensures stage.Completed? ==> op.Checks()
    ensures stage.Unverified? && op.Compacting? ==> !op.Checks()
    ensures stage.Unverified? && !op.Compacting? ==> op.On().unsure > old(op.On().unsure)
  {
    hide Operation.Safe, Operation.Achieved, Operation.Interrupted, Operation.Keeps, Operation.Checks, Operation.Ready;
    hide Operation.Fresh, Operation.TakesBack, Operation.Plans, Operation.Possible, Operation.Orderly, Operation.HasReason,
         IrreversibleLast, AllGood, Agree, Good;
    takingBack, start := 0, 0;
    ghost var w0, earlier := op.On().world, op.On().journal;
    var planned := op.Preflight();
    if planned.Err? {
      return Err(planned.error), Refused, start, takingBack;
    }
    var last := IrreversibleStepsAreLast(planned.value);
    if !last {
      OrderlyPlan(op, planned.value);
      return Err(Generic), Refused, start, takingBack;
    }
    if dryRun {
      return Ok(RunOutcome(planned.value, None)), Planned, start, takingBack;
    }
    start := |op.On().journal|;
    ghost var asked := op.On().journal;
    var report;
    report, takingBack := op.Execute(planned.value, |earlier|);
    if report.Err? {
      op.Rollback(w0, start, takingBack);
      if forall k | takingBack <= k < |op.On().journal| :: Good(op.On().journal[k]) {
        AllIsBack(op.On().journal, takingBack, op.On().world, w0);
      }
      return Err(report.error), RolledBack, start, takingBack;
    }
    var verified := op.Verify(w0, |earlier|, start, planned.value, report.value);
    if !op.Compacting? {
      op.AchievedChecks(w0, |earlier|, start, report.value);
    }
    if verified.Failed? {
      return Err(verified.error), Unverified, start, takingBack;
    }
    r := Ok(RunOutcome(planned.value, Some(report.value)));
    stage := Completed;
  }
}
