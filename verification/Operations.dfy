/** Plans, reports, and the stack that takes a half-done operation back (src/lib/ops/operation.cpp). */
module Operations {
  import opened Results
  import opened Units
  import Distro
  import opened Machine

  // ---- Plans ------------------------------------------------------------------------------

  // What a step is; the wording is not modelled.
  datatype StepKind = MoveFile | CopyFile | Repoint | Smoke | DeleteSource | TrimGuest | ReleaseDisk | CompactDisk | StartAgain

  datatype StepPlan = StepPlan(kind: StepKind, mutates: bool, undoable: bool) {
    predicate IsIrreversible() {
      mutates && !undoable
    }
  }

  datatype Plan = Plan(steps: seq<StepPlan>) {
    method Mutates() returns (any: bool)
      ensures any <==> exists k | 0 <= k < |steps| :: steps[k].mutates
    {
      for i := 0 to |steps|
        invariant forall k | 0 <= k < i :: !steps[k].mutates
      {
        if steps[i].mutates {
          return true;
        }
      }
      return false;
    }
  }

  /** What ran, in order. */
  datatype Report = Report(completed: seq<StepKind>, bytesFreed: Option<nat>)

  function Kinds(steps: seq<StepPlan>): (r: seq<StepKind>)
    ensures |r| == |steps| && forall k | 0 <= k < |steps| :: r[k] == steps[k].kind
  {
    seq(|steps|, i requires 0 <= i < |steps| => steps[i].kind)
  }

  // ---- Taking back ---------------------------------------------------------------------------

  /** The world after taking back every entry, the last one first. */
  function Unwound(w: World, entries: seq<Call>): World
    decreases |entries|
  {
    if entries == [] then w else Unwound(Apply(w, entries[|entries| - 1]), entries[..|entries| - 1])
  }

  /** `undo` takes back what `call` does to `w`. */
  predicate Inverts(w: World, call: Call, undo: Call) {
    Apply(Apply(w, call), undo) == w
  }

  /** Every entry is a closure over one call; `undo_.push` records it. */
  lemma PushKeepsUnwound(w: World, entries: seq<Call>, call: Call, undo: Call)
    requires Inverts(w, call, undo)
    ensures Unwound(Apply(w, call), entries + [undo]) == Unwound(w, entries)
  {
    hide Apply;
    assert (entries + [undo])[..|entries|] == entries;
  }

  lemma WriteIsInverted(w: World, slot: Distro.Slot, text: Wide, previous: Wide)
    ensures Inverts(w, Write(slot, text), Write(slot, previous)) <==> slot in w.values && w.values[slot] == previous
  {
    var back := w.values[slot := text][slot := previous];
    if slot in w.values && w.values[slot] == previous {
      assert back == w.values;
    } else {
      assert back[slot] == previous;
    }
  }

  lemma RenameIsInverted(w: World, from: Path, to: Path)
    requires from in w.files && from != to
    ensures Inverts(w, Rename(from, to), Rename(to, from)) <==> to !in w.files
  {
    var there := Apply(w, Rename(from, to));
    var back := Apply(there, Rename(to, from));
    assert back.files == w.files - {to} + map[from := w.files[from]];
    if to !in w.files {
      assert back.files == w.files;
    }
  }

  lemma CopyIsInverted(w: World, from: Path, to: Path)
    requires from in w.files
    ensures Inverts(w, Copy(from, to), Remove(to)) <==> to !in w.files
  {
    var back := Apply(Apply(w, Copy(from, to)), Remove(to));
    assert back.files == w.files - {to};
  }

  datatype Taken = Taken(call: Call, undo: Call)

  function After(w: World, steps: seq<Taken>): World {
    if steps == [] then w else Apply(After(w, steps[..|steps| - 1]), steps[|steps| - 1].call)
  }

  function Undos(steps: seq<Taken>): (r: seq<Call>)
    ensures |r| == |steps| && forall k | 0 <= k < |steps| :: r[k] == steps[k].undo
  {
    seq(|steps|, i requires 0 <= i < |steps| => steps[i].undo)
  }

  /** Each step pushed an entry that took it back where it was made. */
  predicate EachInverted(w: World, steps: seq<Taken>) {
    forall k | 0 <= k < |steps| :: Inverts(After(w, steps[..k]), steps[k].call, steps[k].undo)
  }

  lemma FrontIsInverted(w: World, steps: seq<Taken>, n: nat)
    requires EachInverted(w, steps) && n <= |steps|
    ensures EachInverted(w, steps[..n])
  {
    hide Apply, Inverts, After;
    forall k | 0 <= k < n
      ensures Inverts(After(w, steps[..n][..k]), steps[..n][k].call, steps[..n][k].undo)
    {
      assert steps[..n][..k] == steps[..k];
    }
  }

  lemma LastIsInverted(w: World, steps: seq<Taken>, n: nat)
    requires EachInverted(w, steps) && n < |steps|
    ensures Inverts(After(w, steps[..n]), steps[n].call, steps[n].undo)
  {
  }

  /** Unwinding undoes a run of any length, although each entry only undoes its own step. */
  lemma {:induction false} UnwindingUndoesARun(w: World, steps: seq<Taken>)
    requires EachInverted(w, steps)
    ensures Unwound(After(w, steps), Undos(steps)) == w
    decreases |steps|
  {
    hide Apply, Inverts, EachInverted;
    if steps != [] {
      var n := |steps| - 1;
      FrontIsInverted(w, steps, n);
      LastIsInverted(w, steps, n);
      UnwindingUndoesARun(w, steps[..n]);
      assert Undos(steps) == Undos(steps[..n]) + [steps[n].undo];
      PushKeepsUnwound(After(w, steps[..n]), Undos(steps[..n]), steps[n].call, steps[n].undo);
    }
  }

  // ---- A failing entry --------------------------------------------------------------------------

  // What one call can touch: one registry value, or the files.
  datatype Part = Value(slot: Distro.Slot) | Files

  function PartOf(call: Call): Option<Part> {
    match call
    case Write(slot, _) => Some(Value(slot))
    case Rename(_, _) => Some(Files)
    case Copy(_, _) => Some(Files)
    case Remove(_) => Some(Files)
    case _ => None
  }

  predicate Agree(a: World, b: World, part: Part) {
    match part
    case Value(slot) => (slot in a.values <==> slot in b.values) && (slot in a.values ==> a.values[slot] == b.values[slot])
    case Files => a.files == b.files
  }

  lemma AgreeEverywhere(a: World, b: World)
    requires forall part :: Agree(a, b, part)
    ensures a == b
  {
    assert Agree(a, b, Files);
    forall slot
      ensures (slot in a.values <==> slot in b.values) && (slot in a.values ==> a.values[slot] == b.values[slot])
    {
      assert Agree(a, b, Value(slot));
    }
    assert a.values == b.values;
  }

  lemma ApplyByPart(a: World, b: World, call: Call, part: Part)
    ensures Agree(a, b, part) ==> Agree(Apply(a, call), Apply(b, call), part)
    ensures PartOf(call) != Some(part) ==> Agree(Apply(a, call), a, part)
  {
  }

  lemma {:induction false} UnwoundByPart(a: World, b: World, entries: seq<Call>, part: Part)
    requires Agree(a, b, part)
    ensures Agree(Unwound(a, entries), Unwound(b, entries), part)
    decreases |entries|
  {
    hide Apply, Agree;
    if entries != [] {
      var last := entries[|entries| - 1];
      ApplyByPart(a, b, last, part);
      UnwoundByPart(Apply(a, last), Apply(b, last), entries[..|entries| - 1], part);
    }
  }

  /** An entry that fails and leaves its part alone does not show in any other part. */
  lemma SkippingShowsInItsPart(w: World, entries: seq<Call>, part: Part)
    requires entries != [] && PartOf(entries[|entries| - 1]) != Some(part)
    ensures Agree(Unwound(w, entries[..|entries| - 1]), Unwound(w, entries), part)
  {
    hide Apply, Agree;
    var last := entries[|entries| - 1];
    ApplyByPart(w, w, last, part);
    AgreeIsSymmetric(Apply(w, last), w, part);
    UnwoundByPart(w, Apply(w, last), entries[..|entries| - 1], part);
  }

  lemma AgreeIsSymmetric(a: World, b: World, part: Part)
    requires Agree(a, b, part)
    ensures Agree(b, a, part)
  {
  }

  lemma AgreeIsTransitive(a: World, b: World, c: World, part: Part)
    requires Agree(a, b, part) && Agree(b, c, part)
    ensures Agree(a, c, part)
  {
  }

  /** An event that worked, or that had nothing to do. */
  predicate Good(e: Event) {
    e.ok || Apply(e.before, e.call) == e.before
  }

  /** Every call on `part` from event `from` on was good. */
  ghost predicate AllGood(journal: seq<Event>, from: nat, part: Part) {
    forall k | from <= k < |journal| && PartOf(journal[k].call) == Some(part) :: Good(journal[k])
  }

  /** From event `from` on, each event starts where the one before it ended. */
  ghost predicate Linked(w: World, journal: seq<Event>, from: nat) {
    && (forall k | from <= k < |journal| :: Step(journal[k]))
    && (from < |journal| ==> journal[from].before == w)
    && forall k | from < k < |journal| :: journal[k].before == journal[k - 1].after
  }

  ghost function Last(w: World, journal: seq<Event>, from: nat): World {
    if from < |journal| then journal[|journal| - 1].after else w
  }

  lemma LinkOneMore(w: World, journal: seq<Event>, from: nat, e: Event)
    requires from <= |journal| && Linked(w, journal, from)
    requires Step(e) && e.before == Last(w, journal, from)
    ensures Linked(w, journal + [e], from) && Last(w, journal + [e], from) == e.after
  {
    var more := journal + [e];
    assert forall k | 0 <= k < |journal| :: more[k] == journal[k];
    assert more[|journal|] == e;
    forall k | from < k < |more|
      ensures more[k].before == more[k - 1].after
    {
      assert more[k - 1] == journal[k - 1];
      assert k < |journal| ==> journal[k].before == journal[k - 1].after;
    }
  }

  /** Some call failed from event `from` on, other than one that only measures. */
  ghost predicate SomethingFailed(journal: seq<Event>, from: nat) {
    exists k | from <= k < |journal| :: !journal[k].ok && !journal[k].call.Measure?
  }

  /** The last call failed. */
  ghost predicate EndsInFailure(journal: seq<Event>) {
    journal != [] && !journal[|journal| - 1].ok && !journal[|journal| - 1].call.Measure?
  }

  lemma FailedAt(journal: seq<Event>, from: nat, k: nat)
    requires from <= k < |journal| && !journal[k].ok && !journal[k].call.Measure?
    ensures SomethingFailed(journal, from)
  {
  }

  predicate Question(call: Call) {
    call.AskRunning? || call.Measure?
  }

  /** A preflight may ask what is running and how large a file is, and does nothing else. */
  ghost predicate OnlyAsks(earlier: seq<Event>, journal: seq<Event>, w: World) {
    && earlier <= journal
    && forall k | |earlier| <= k < |journal| ::
         Question(journal[k].call) && journal[k].before == w && journal[k].after == w
  }

  lemma LinksJoin(w: World, journal: seq<Event>, from: nat, more: seq<Event>)
    requires from <= |journal| && Linked(w, journal, from) && journal <= more
    requires Linked(Last(w, journal, from), more, |journal|)
    ensures Linked(w, more, from) && Last(w, more, from) == Last(Last(w, journal, from), more, |journal|)
  {
    hide Step;
    assert forall k | 0 <= k < |journal| :: more[k] == journal[k];
    forall k | from < k < |more|
      ensures more[k].before == more[k - 1].after
    {
      if k < |journal| {
        assert journal[k].before == journal[k - 1].after;
      } else if k == |journal| {
        assert more[k].before == journal[k - 1].after;
      }
    }
  }

  lemma NothingYet(w: World, journal: seq<Event>)
    ensures Linked(w, journal, |journal|) && Last(w, journal, |journal|) == w
  {
  }

  /** A call that changes nothing when it works, or one that is not a copy and failed. */
  lemma NoChange(e: Event)
    requires Step(e)
    ensures !e.ok && !e.call.Copy? ==> e.after == e.before
    ensures e.ok ==> Possible(e.before, e.call) && e.after == Apply(e.before, e.call)
    ensures PartOf(e.call).None? ==> e.after == e.before
  {
  }

  class UndoStack {
    var entries: seq<Call>

    constructor ()
      ensures entries == []
    {
      entries := [];
    }

    method Push(undo: Call)
      modifies this`entries
      ensures entries == old(entries) + [undo]
    {
      entries := entries + [undo];
    }

    /** Runs every entry once, most recent first, whichever of them fail. Every part whose own entries worked is as if all
        of them had. */
    method Unwind(machine: Machine)
      requires forall k | 0 <= k < |entries| :: PartOf(entries[k]).Some? && !entries[k].Copy?
      modifies this`entries, machine`world, machine`journal, machine`running, machine`occupied
      ensures entries == []
      ensures |machine.journal| == |old(machine.journal)| + |old(entries)| && old(machine.journal) <= machine.journal
      ensures forall k | |old(machine.journal)| <= k < |machine.journal| ::
                machine.journal[k].call == old(entries)[|machine.journal| - 1 - k]
      ensures Linked(old(machine.world), machine.journal, |old(machine.journal)|)
      ensures machine.world == Last(old(machine.world), machine.journal, |old(machine.journal)|)
      ensures forall part | AllGood(machine.journal, |old(machine.journal)|, part) ::
                Agree(machine.world, Unwound(old(machine.world), old(entries)), part)
    {
      hide Apply, Agree, Step, Linked, Last, Unwound, AllGood;
      NothingYet(machine.world, machine.journal);
      ghost var all, w, from := entries, machine.world, |machine.journal|;
      forall part
        ensures Agree(Unwound(w, all), Unwound(w, all), part)
      {
        AgreesWithItself(Unwound(w, all), part);
      }
      while entries != []
        invariant |entries| <= |all| && entries == all[..|entries|]
        invariant old(machine.journal) <= machine.journal && |machine.journal| == from + |all| - |entries|
        invariant forall k | from <= k < |machine.journal| :: machine.journal[k].call == all[|all| - 1 - (k - from)]
        invariant Linked(w, machine.journal, from) && machine.world == Last(w, machine.journal, from)
        invariant forall part | AllGood(machine.journal, from, part) ::
                    Agree(Unwound(machine.world, entries), Unwound(w, all), part)
        decreases |entries|
      {
        ghost var before, earlier, stack := machine.world, machine.journal, entries;
        var entry := entries[|entries| - 1];
        entries := entries[..|entries| - 1];
        var undone := machine.Perform(entry);
        LinkOneMore(w, earlier, from, machine.journal[|earlier|]);
        forall part | AllGood(machine.journal, from, part)
          ensures Agree(Unwound(machine.world, entries), Unwound(w, all), part)
        {
          StillAgrees(w, all, before, earlier, stack, machine.world, machine.journal, from, part);
        }
      }
      NothingToUnwind(machine.world);
    }
  }

  lemma NothingToUnwind(w: World)
    ensures Unwound(w, []) == w
  {
  }

  lemma AgreesWithItself(w: World, part: Part)
    ensures Agree(w, w, part)
  {
  }

  /** One entry taken back keeps what the whole stack would do to `part`. */
  lemma StillAgrees(w: World, all: seq<Call>, before: World, earlier: seq<Event>, stack: seq<Call>, world: World,
                    journal: seq<Event>, from: nat, part: Part)
    requires stack != [] && from <= |earlier| && PartOf(stack[|stack| - 1]).Some? && !stack[|stack| - 1].Copy?
    requires |journal| == |earlier| + 1 && earlier <= journal
    requires var e := journal[|earlier|]; e.before == before && e.after == world && e.call == stack[|stack| - 1] && Step(e)
    requires AllGood(earlier, from, part) ==> Agree(Unwound(before, stack), Unwound(w, all), part)
    requires AllGood(journal, from, part)
    ensures Agree(Unwound(world, stack[..|stack| - 1]), Unwound(w, all), part)
  {
    hide Apply, Agree, Possible;
    assert AllGood(earlier, from, part) by {
      assert forall k | from <= k < |earlier| :: journal[k] == earlier[k];
    }
    var e := journal[|earlier|];
    if PartOf(e.call) == Some(part) {
      assert Good(e);
      assert world == Apply(before, e.call);
    } else if !e.ok {
      SkippingShowsInItsPart(before, stack, part);
      AgreeIsTransitive(Unwound(before, stack[..|stack| - 1]), Unwound(before, stack), Unwound(w, all), part);
    }
  }
}
