/** The machine an operation works on: the registry, the files, WSL and the clock (src/lib/interfaces.h). Any call may
    fail, and every call that can change something is written down. */
module Machine {
  import opened Results
  import opened Units
  import Distro
  import Paths

  type Path = Paths.Path

  // What is at a path: a whole disk, known by the data it holds, or what a failed copy left behind.
  datatype File = Disk(data: nat) | Fragment

  /** What a rollback has to put back: the registry's strings, and the files by canonical path. Directories are apart,
      because making one is never undone. */
  datatype World = World(values: map<Distro.Slot, Wide>, files: map<Path, File>)

  /** A call, with the answer where it only asks. A file goes by its canonical path, and a distribution by its key. */
  datatype Call =
    | Write(slot: Distro.Slot, text: Wide)
    | Rename(from: Path, to: Path)
    | Copy(from: Path, to: Path)
    | Remove(path: Path)
    | MakeDirectories(path: Path)
    | Boot(key: Wide)
    | Trim(key: Wide, verbose: bool, output: Bytes, errors: Bytes)
    | Terminate(key: Wide)
    | ShutDown
    | Open(path: Path)
    | Compact(path: Path)
    | AskLock(path: Path, locked: bool)
    | AskRunning(names: seq<Bytes>)
    | Sleep(ms: nat)
    | Measure(path: Path, size: nat)

  datatype Event = Event(call: Call, ok: bool, before: World, after: World)

  /** What a call does when it works. Nothing but these four changes the world. */
  function Apply(w: World, call: Call): World {
    match call
    case Write(slot, text) => w.(values := w.values[slot := text])
    case Rename(from, to) => if from in w.files then w.(files := (w.files - {from})[to := w.files[from]]) else w
    case Copy(from, to) => if from in w.files then w.(files := w.files[to := w.files[from]]) else w
    case Remove(path) => w.(files := w.files - {path})
    case _ => w
  }

  function TextAt(w: World, slot: Distro.Slot): Wide {
    if slot in w.values then w.values[slot] else []
  }

  /** The file WSL would boot `key` from. */
  function BootFile(w: World, key: Wide): Path {
    Paths.Canonical(Distro.VhdxPathFor(TextAt(w, Distro.Slot(key, Distro.BasePath)), TextAt(w, Distro.Slot(key, Distro.VhdFileName))))
  }

  predicate HasDisk(w: World, path: Path) {
    path in w.files && w.files[path].Disk?
  }

  /** What a call cannot work without. Neither a rename nor a copy replaces a file. */
  predicate Possible(w: World, call: Call) {
    match call
    case Rename(from, to) => from in w.files && to !in w.files
    case Copy(from, to) => from in w.files && to !in w.files
    case Remove(path) => path in w.files
    case Boot(key) => HasDisk(w, BootFile(w, key))
    case _ => true
  }

  /** A failed copy may leave a fragment where there was nothing. Every other failed call changes nothing. */
  predicate MayLeave(w: World, call: Call, after: World) {
    after == w || (call.Copy? && call.to !in w.files && after == w.(files := w.files[call.to := Fragment]))
  }

  /** What one event may be. */
  predicate Step(e: Event) {
    if e.ok then Possible(e.before, e.call) && e.after == Apply(e.before, e.call) else MayLeave(e.before, e.call, e.after)
  }

  datatype Volume = Volume(supportsVhdx: bool, freeBytes: nat)

  /** What a program said: its exit code, its standard output and its standard error. */
  datatype GuestResult = GuestResult(exitCode: int, output: Bytes, errors: Bytes)

  class Machine {
    const numbers: map<Distro.Slot, nat>
    const subkeys: map<Wide, seq<Wide>>
    // Where a path lives, and what is free there.
    const volumeRoot: Path -> Path
    const volume: Path -> Volume

    var world: World
    // What runs and what the files take up may change with every call.
    var running: seq<Bytes>
    var occupied: Path -> nat
    var clock: nat
    ghost var journal: seq<Event>
    ghost var sleeps: nat
    // Questions without a definite answer.
    ghost var unsure: nat

    constructor (hive: Distro.Hive, files: map<Path, File>, volumeRoot: Path -> Path, volume: Path -> Volume)
      ensures Hive() == hive && world.files == files && journal == [] && sleeps == 0 && unsure == 0
    {
      numbers, subkeys, world := hive.numbers, hive.subkeys, World(hive.strings, files);
      this.volumeRoot, this.volume := volumeRoot, volume;
      running, occupied, clock := *, *, *;
      journal, sleeps, unsure := [], 0, 0;
    }

    function Hive(): Distro.Hive
      reads this
    {
      Distro.Hive(world.values, numbers, subkeys)
    }

    ghost predicate Logged(before: World, earlier: seq<Event>, call: Call, ok: bool)
      reads this
    {
      journal == earlier + [Event(call, ok, before, world)] && Step(Event(call, ok, before, world))
    }

    /** One call that works or fails. */
    method Perform(call: Call) returns (done: Status)
      modifies this`world, this`journal, this`running, this`occupied
      ensures Logged(old(world), old(journal), call, done.Done?)
    {
      ghost var before := world;
      var works: bool := *;
      if works && Possible(world, call) {
        world := Apply(world, call);
        done := Done;
      } else {
        var litters: bool := *;
        if litters && call.Copy? && call.to !in world.files {
          world := world.(files := world.files[call.to := Fragment]);
        }
        var error: Error := *;
        done := Failed(error);
      }
      running, occupied := *, *;
      journal := journal + [Event(call, done.Done?, before, world)];
    }

    /** A distribution started to run a program that does nothing. The event is good when it ran and exited with zero. */
    method RunAsRoot(key: Wide) returns (r: Result<GuestResult>)
      modifies this`world, this`journal, this`running, this`occupied
      ensures Logged(old(world), old(journal), Boot(key), r.Ok? && r.value.exitCode == 0) && world == old(world)
    {
      var done := Perform(Boot(key));
      r := Said(done.Done?);
    }

    /** `fstrim` run as root, and what it said. */
    method RunTrim(key: Wide, verbose: bool) returns (r: Result<GuestResult>)
      modifies this`journal, this`running, this`occupied
      ensures Logged(world, old(journal), TrimCall(key, verbose, r), r.Ok? && r.value.exitCode == 0)
    {
      var works: bool := *;
      r := Said(works);
      running, occupied := *, *;
      journal := journal + [Event(TrimCall(key, verbose, r), r.Ok? && r.value.exitCode == 0, world, world)];
    }

    static function TrimCall(key: Wide, verbose: bool, r: Result<GuestResult>): Call {
      if r.Ok? then Trim(key, verbose, r.value.output, r.value.errors) else Trim(key, verbose, [], [])
    }

    /** What a program says that works, or that does not: then it may not have run at all. */
    static method Said(works: bool) returns (r: Result<GuestResult>)
      ensures works <==> r.Ok? && r.value.exitCode == 0
    {
      var started: bool, code: int, output: Bytes, errors: Bytes, error: Error := *, *, *, *, *;
      if works {
        r := Ok(GuestResult(0, output, errors));
      } else if started && code != 0 {
        r := Ok(GuestResult(code, output, errors));
      } else {
        r := Err(error);
      }
    }

    /** Whether another process has the file open. */
    method IsLocked(path: Path) returns (r: Result<bool>)
      modifies this`journal
      ensures Logged(world, old(journal), AskLock(Paths.Canonical(path), r.Ok? && r.value), r.Ok?)
    {
      var locked: bool := *;
      r := Any(locked);
      journal := journal + [Event(AskLock(Paths.Canonical(path), r.Ok? && r.value), r.Ok?, world, world)];
    }

    /** The clock only goes forward, at its own pace. */
    method Now() returns (t: nat)
      modifies this`clock
      ensures t == clock && clock >= old(clock)
    {
      clock := Later(clock);
      t := clock;
    }

    method SleepFor(ms: nat)
      modifies this`clock, this`journal, this`sleeps, this`running
      ensures Logged(world, old(journal), Sleep(ms), true)
      ensures clock >= old(clock) + ms && sleeps == old(sleeps) + 1
    {
      clock := Later(clock + ms);
      sleeps, running := sleeps + 1, *;
      journal := journal + [Event(Sleep(ms), true, world, world)];
    }

    // ---- Questions -----------------------------------------------------------------------

    /** A file that is there is never denied; one that is not may be taken to be there. */
    method Exists(path: Path) returns (there: bool)
      modifies this`unsure
      ensures Paths.Canonical(path) in world.files ==> there
      ensures unsure >= old(unsure)
      ensures unsure == old(unsure) ==> (there <==> Paths.Canonical(path) in world.files)
    {
      var doubtful: bool := *;
      there := Paths.Canonical(path) in world.files || doubtful;
      if doubtful {
        unsure := unsure + 1;
      }
    }

    /** The names of the running distributions, if WSL says. */
    method Running() returns (r: Result<seq<Bytes>>)
      modifies this`journal, this`unsure
      ensures Logged(world, old(journal), AskRunning(if r.Ok? then r.value else []), r.Ok?)
      ensures r.Ok? ==> r.value == running && unsure == old(unsure)
      ensures r.Err? ==> unsure == old(unsure) + 1
    {
      r := Answer(running);
      journal := journal + [Event(AskRunning(if r.Ok? then r.value else []), r.Ok?, world, world)];
    }

    method SameVolume(first: Path, second: Path) returns (r: Result<bool>)
      modifies this`unsure
      ensures r.Ok? ==> r.value == (volumeRoot(first) == volumeRoot(second)) && unsure == old(unsure)
      ensures r.Err? ==> unsure == old(unsure) + 1
    {
      r := Answer(volumeRoot(first) == volumeRoot(second));
    }

    /** How much a file takes up. */
    method FileSizeOnDisk(path: Path) returns (r: Result<nat>)
      modifies this`journal, this`unsure
      ensures Logged(world, old(journal), Measure(Paths.Canonical(path), if r.Ok? then r.value else 0), r.Ok?)
      ensures r.Ok? ==> r.value == occupied(path) && unsure == old(unsure)
      ensures r.Err? ==> unsure == old(unsure) + 1
    {
      r := Answer(occupied(path));
      journal := journal + [Event(Measure(Paths.Canonical(path), if r.Ok? then r.value else 0), r.Ok?, world, world)];
    }

    method VolumeInfo(path: Path) returns (r: Result<Volume>)
      modifies this`unsure
      ensures r.Ok? ==> r.value == volume(path) && unsure == old(unsure)
      ensures r.Err? ==> unsure == old(unsure) + 1
    {
      r := Answer(volume(path));
    }

    method ReadString(slot: Distro.Slot) returns (r: Result<Option<Wide>>)
      modifies this`unsure
      ensures r.Ok? ==> r.value == Distro.TextIn(Hive(), slot) && unsure == old(unsure)
      ensures r.Err? ==> unsure == old(unsure) + 1
    {
      r := Answer(Distro.TextIn(Hive(), slot));
    }

    static method Later(time: nat) returns (later: nat)
      ensures later >= time
    {
      var other: int := *;
      later := if other >= time then other else time;
    }

    static method Any<T>(value: T) returns (r: Result<T>)
      ensures r.Ok? ==> r.value == value
    {
      var works: bool, error: Error := *, *;
      r := if works then Ok(value) else Err(error);
    }

    /** The truth, or no answer. */
    method Answer<T>(truth: T) returns (r: Result<T>)
      modifies this`unsure
      ensures r.Ok? ==> r.value == truth && unsure == old(unsure)
      ensures r.Err? ==> unsure == old(unsure) + 1
    {
      var works: bool := *;
      if works {
        r := Ok(truth);
      } else {
        var error: Error := *;
        unsure := unsure + 1;
        r := Err(error);
      }
    }
  }
}
