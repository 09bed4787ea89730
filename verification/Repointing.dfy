/** Rewriting the two values of a distribution's registry entry that say where its disk is, as both the move and the
    relink do (src/lib/ops/move.cpp, src/lib/ops/relink.cpp). */
module Repointing {
  import opened Units
  import Distro
  import opened Machine
  import opened Operations
  import Paths

  /** The new directory, in whichever prefix form the entry already used. */
  function InFormOf(basePath: Wide, directory: Path): Wide {
    if Paths.StartsWith(basePath, Paths.EXTENDED) then Paths.EXTENDED + directory else directory
  }

  /** An entry, and its values before and after. An entry without VhdFileName does not get one. */
  datatype Entry = Entry(key: Wide, oldBase: Wide, newBase: Wide, oldFile: Wide, newFile: Wide) {

    function Base(): Distro.Slot {
      Distro.Slot(key, Distro.BasePath)
    }

    function File(): Distro.Slot {
      Distro.Slot(key, Distro.VhdFileName)
    }

    /** The record the operation was given is what the registry says. */
    ghost predicate Registered(w: World) {
      && Base() in w.values && w.values[Base()] == oldBase
      && TextAt(w, File()) == oldFile
    }

    ghost predicate OthersStay(w0: World, w: World) {
      forall slot | slot != Base() && slot != File() :: Agree(w, w0, Value(slot))
    }

    /** Each value is the old or the new one. */
    ghost predicate IsEither(w0: World, w: World) {
      && Base() in w.values && w.values[Base()] in {oldBase, newBase}
      && (if oldFile == [] then Agree(w, w0, Value(File())) else File() in w.values && w.values[File()] in {oldFile, newFile})
    }

    ghost predicate IsNew(w0: World, w: World) {
      && Base() in w.values && w.values[Base()] == newBase
      && (if oldFile == [] then Agree(w, w0, Value(File())) else File() in w.values && w.values[File()] == newFile)
    }

    function Rewritten(w: World): World {
      var based := Apply(w, Write(Base(), newBase));
      if oldFile == [] then based else Apply(based, Write(File(), newFile))
    }

    ghost predicate Puts(call: Call) {
      || call == Write(Base(), newBase) || (oldFile != [] && call == Write(File(), newFile))
    }

    ghost predicate PutsBack(call: Call) {
      || call == Write(Base(), oldBase) || (oldFile != [] && call == Write(File(), oldFile))
    }
  }

  lemma KeptByWriting(entry: Entry, w0: World, w: World, call: Call)
    requires entry.OthersStay(w0, w) && entry.IsEither(w0, w) && (entry.Puts(call) || entry.PutsBack(call))
    ensures var w' := Apply(w, call); entry.OthersStay(w0, w') && entry.IsEither(w0, w') && w'.files == w.files
  {
  }

  lemma RewrittenIsNew(entry: Entry, w: World)
    requires entry.Registered(w)
    ensures var w' := entry.Rewritten(w); entry.OthersStay(w, w') && entry.IsNew(w, w') && w'.files == w.files
  {
  }

  /** Once BasePath is rewritten, VhdFileName is still the old one. */
  lemma FileStaysRegistered(entry: Entry, w: World)
    requires entry.Registered(w) && entry.oldFile != []
    ensures var based := Apply(w, Write(entry.Base(), entry.newBase));
            entry.File() in based.values && based.values[entry.File()] == entry.oldFile
  {
  }

  /** A value that is rewritten goes back if what is pushed is what was there. */
  lemma WriteGoesBack(entry: Entry, w0: World, w: World, entries: seq<Call>, slot: Distro.Slot, text: Wide, previous: Wide)
    requires Unwound(w, entries) == w0 && slot in w.values && w.values[slot] == previous
    ensures Unwound(Apply(w, Write(slot, text)), entries + [Write(slot, previous)]) == w0
  {
    WriteIsInverted(w, slot, text, previous);
    PushKeepsUnwound(w, entries, Write(slot, text), Write(slot, previous));
  }

  /** Nothing was started since event `from`. */
  ghost predicate NothingStarted(journal: seq<Event>, from: nat) {
    forall k | from <= k < |journal| :: !journal[k].call.Boot?
  }

  /** One start since event `from`: from the rewritten entry, and it worked. */
  ghost predicate StartedFromNew(entry: Entry, w0: World, journal: seq<Event>, from: nat) {
    exists k | from <= k < |journal| :: OnlyStart(entry, w0, journal, from, k)
  }

  ghost predicate OnlyStart(entry: Entry, w0: World, journal: seq<Event>, from: nat, k: nat)
    requires k < |journal|
  {
    && IsGoodStart(entry, w0, journal[k])
    && forall j | from <= j < |journal| && j != k :: !journal[j].call.Boot?
  }

  ghost predicate IsGoodStart(entry: Entry, w0: World, e: Event) {
    e.call == Boot(entry.key) && e.ok && entry.IsNew(w0, e.before)
  }

  lemma NothingStartedYet(journal: seq<Event>)
    ensures NothingStarted(journal, |journal|)
  {
  }

  lemma NothingStartedBy(journal: seq<Event>, from: nat, e: Event)
    requires NothingStarted(journal, from) && !e.call.Boot?
    ensures NothingStarted(journal + [e], from)
  {
    assert forall k | 0 <= k < |journal| :: (journal + [e])[k] == journal[k];
  }

  lemma StartedNow(entry: Entry, w0: World, journal: seq<Event>, from: nat, e: Event)
    requires NothingStarted(journal, from) && from <= |journal| && e.call == Boot(entry.key) && e.ok
    ensures entry.IsNew(w0, e.before) ==> StartedFromNew(entry, w0, journal + [e], from)
  {
    hide Entry.IsNew;
    var more := journal + [e];
    assert forall k | 0 <= k < |journal| :: more[k] == journal[k];
    if entry.IsNew(w0, e.before) {
      assert OnlyStart(entry, w0, more, from, |journal|);
    }
  }

  lemma StillStarted(entry: Entry, w0: World, journal: seq<Event>, from: nat, e: Event)
    requires StartedFromNew(entry, w0, journal, from) && !e.call.Boot?
    ensures StartedFromNew(entry, w0, journal + [e], from)
  {
    hide IsGoodStart;
    var more := journal + [e];
    assert forall k | 0 <= k < |journal| :: more[k] == journal[k];
    var k :| from <= k < |journal| && OnlyStart(entry, w0, journal, from, k);
    assert OnlyStart(entry, w0, more, from, k);
  }
}
