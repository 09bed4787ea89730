/** Virtual disks that no distribution claims (src/lib/model/orphans.cpp). */
module Orphans {
  import opened Results
  import opened Units
  import Distro
  import Paths

  type Path = Paths.Path

  const DOT: Unit := 0x2E
  const WILDCARD: Wide := [0x2A]

  // `*.vhdx` and `.vhdx`.
  const VHDX_PATTERN: Wide := [0x2A, 0x2E, 0x76, 0x68, 0x64, 0x78]
  const VHDX: Wide := [0x2E, 0x76, 0x68, 0x64, 0x78]

  datatype DirEntry = DirEntry(path: Path, isDirectory: bool)

  datatype Orphan = Orphan(path: Path, sizeOnDisk: Option<nat>)

  /** What the disk answers to the `n`-th listing and the `n`-th measurement. Any of them may fail, and the same question may
      get another answer later. */
  datatype Disk = Disk(list: (nat, Path, Wide) -> Result<seq<DirEntry>>, sizeOnDisk: (nat, Path) -> Result<nat>)

  /** `p.extension()`: from the last dot of the file name, unless that dot begins it. */
  function Extension(p: Path): Path {
    var name := Paths.Filename(p);
    var dot := LastDot(name, |name|);
    if dot == 0 || dot == |name| || name == [DOT, DOT] then [] else name[dot..]
  }

  /** The last dot of `name` before `end`, or `|name|` when there is none. */
  function LastDot(name: Path, end: nat): (n: nat)
    requires end <= |name|
    ensures n <= |name|
  {
    if end == 0 then |name| else if name[end - 1] == DOT then end - 1 else LastDot(name, end - 1)
  }

  predicate IsDisk(entry: DirEntry) {
    !entry.isDirectory && Paths.Canonical(Extension(entry.path)) == VHDX
  }

  // ---- Specification ------------------------------------------------------------------------

  /** An entry to report: a disk nobody claims. */
  predicate Unclaimed(entry: DirEntry, claimed: seq<Path>) {
    IsDisk(entry) && Paths.Canonical(entry.path) !in claimed
  }

  /** Entry `k` is the first of `entries` that is an unclaimed disk under its canonical path. */
  predicate FirstSeen(entries: seq<DirEntry>, claimed: seq<Path>, k: nat)
    requires k < |entries|
  {
    && Unclaimed(entries[k], claimed)
    && forall j | 0 <= j < k && Unclaimed(entries[j], claimed) ::
        Paths.Canonical(entries[j].path) != Paths.Canonical(entries[k].path)
  }

  /** An orphan, by the `n`-th measurement. */
  function Measured(disk: Disk, n: nat, path: Path): Orphan {
    Orphan(path, match disk.sizeOnDisk(n, path) case Ok(size) => Some(size) case Err(_) => None)
  }

  /** The orphans among the first `n` of `entries`, in order. */
  function OrphansIn(disk: Disk, entries: seq<DirEntry>, claimed: seq<Path>): seq<Orphan> {
    if entries == [] then [] else
      var n := |entries| - 1;
      var before := OrphansIn(disk, entries[..n], claimed);
      if FirstSeen(entries, claimed, n) then before + [Measured(disk, |before|, entries[n].path)] else before
  }

  /** A scan pattern, and the components it is made of. */
  datatype Pattern = Pattern(text: Path, parts: seq<Wide>)

  function JoinAll(parts: seq<Wide>): Path {
    if parts == [] then [] else Paths.Join(JoinAll(parts[..|parts| - 1]), parts[|parts| - 1])
  }

  /** Where the first wildcard component is. */
  function WildcardAt(parts: seq<Wide>): (n: nat)
    ensures n <= |parts|
  {
    if parts == [] || parts[0] == WILDCARD then 0 else 1 + WildcardAt(parts[1..])
  }

  /** The directories of a listing, each with `after` below it. */
  function Directories(entries: seq<DirEntry>, after: Path): seq<Path> {
    if entries == [] then [] else
      var last := entries[|entries| - 1];
      Directories(entries[..|entries| - 1], after) +
      (if !last.isDirectory then [] else if after == [] then [last.path] else [Paths.Join(last.path, after)])
  }

  /** A directory that cannot be listed stands for nothing. */
  function DirectoriesIn(listing: Result<seq<DirEntry>>, after: Path): seq<Path> {
    match listing
    case Ok(entries) => Directories(entries, after)
    case Err(_) => []
  }

  /** The directories a pattern stands for: itself, or one for each directory in place of the wildcard, by the `n`-th
      listing. */
  function Expanded(disk: Disk, n: nat, pattern: Pattern): seq<Path> {
    var at := WildcardAt(pattern.parts);
    if at == |pattern.parts| then [pattern.text] else
      DirectoriesIn(disk.list(n, JoinAll(pattern.parts[..at]), WILDCARD), JoinAll(pattern.parts[at + 1..]))
  }

  /** How many listings that takes. */
  function ListingsFor(pattern: Pattern): nat {
    if WildcardAt(pattern.parts) == |pattern.parts| then 0 else 1
  }

  /** How far a scan has got: what the readable directories listed, in order; how many could not be listed; and how many
      listings there were. */
  datatype Scan = Scan(entries: seq<DirEntry>, failures: nat, listings: nat)

  /** One directory more. */
  function Visited(disk: Disk, scan: Scan, directory: Path): Scan {
    match disk.list(scan.listings, directory, VHDX_PATTERN)
    case Ok(entries) => Scan(scan.entries + entries, scan.failures, scan.listings + 1)
    case Err(_) => Scan(scan.entries, scan.failures + 1, scan.listings + 1)
  }

  function VisitedAll(disk: Disk, scan: Scan, directories: seq<Path>): Scan {
    if directories == [] then scan else
      Visited(disk, VisitedAll(disk, scan, directories[..|directories| - 1]), directories[|directories| - 1])
  }

  /** Pattern after pattern. */
  function Scanned(disk: Disk, patterns: seq<Pattern>): Scan {
    if patterns == [] then Scan([], 0, 0) else
      var before, pattern := Scanned(disk, patterns[..|patterns| - 1]), patterns[|patterns| - 1];
      VisitedAll(disk, before.(listings := before.listings + ListingsFor(pattern)),
                 Expanded(disk, before.listings, pattern))
  }

  function Claims(distros: seq<Distro.Distro>): (r: seq<Path>)
    ensures |r| == |distros| && forall k | 0 <= k < |r| :: r[k] == Paths.Canonical(distros[k].vhdxPath)
  {
    seq(|distros|, i requires 0 <= i < |distros| => Paths.Canonical(distros[i].vhdxPath))
  }

  // ---- What a pattern stands for -------------------------------------------------------------

  /** The first component that is `*`. */
  predicate IsWildcard(parts: seq<Wide>, n: nat) {
    n < |parts| && parts[n] == [0x2A] && forall k | 0 <= k < n :: parts[k] != [0x2A]
  }

  /** What directory entry `e` stands for: the part of the pattern behind the wildcard, below it. */
  function Beneath(e: DirEntry, behind: Path): Path {
    if behind == [] then e.path else Paths.Join(e.path, behind)
  }

  /** `directories` are what the directories among `entries` stand for, in the order of the listing. */
  ghost predicate AreBeneath(directories: seq<Path>, entries: seq<DirEntry>, behind: Path) {
    exists at: seq<nat> :: Picks(at, directories, entries, behind)
  }

  /** `at` are the places of the directories among `entries`. */
  predicate Picks(at: seq<nat>, directories: seq<Path>, entries: seq<DirEntry>, behind: Path) {
    && |at| == |directories|
    && (forall i | 0 <= i < |at| ::
          at[i] < |entries| && entries[at[i]].isDirectory && directories[i] == Beneath(entries[at[i]], behind))
    && (forall i, j | 0 <= i < j < |at| :: at[i] < at[j])
    && forall k: nat | k < |entries| && entries[k].isDirectory :: k in at
  }

  lemma {:induction false} DirectoriesAreBeneath(entries: seq<DirEntry>, behind: Path) returns (at: seq<nat>)
    ensures Picks(at, Directories(entries, behind), entries, behind)
  {
    hide Paths.Join;
    if entries == [] {
      at := [];
    } else {
      var n := |entries| - 1;
      at := DirectoriesAreBeneath(entries[..n], behind);
      if entries[n].isDirectory {
        at := at + [n];
      }
    }
  }

  lemma DirectoriesSay(entries: seq<DirEntry>, behind: Path)
    ensures AreBeneath(Directories(entries, behind), entries, behind)
  {
    hide Beneath;
    var at := DirectoriesAreBeneath(entries, behind);
  }

  /** What a pattern stands for, in terms of its parts and of one listing. */
  ghost predicate StandsFor(directories: seq<Path>, pattern: Pattern, disk: Disk, n: nat) {
    && ((forall k | 0 <= k < |pattern.parts| :: pattern.parts[k] != [0x2A]) ==> directories == [pattern.text])
    && forall w: nat | IsWildcard(pattern.parts, w) ::
         match disk.list(n, JoinAll(pattern.parts[..w]), [0x2A])
         case Ok(entries) => AreBeneath(directories, entries, JoinAll(pattern.parts[w + 1..]))
         case Err(_) => directories == []
  }

  lemma ExpandedStandsFor(disk: Disk, n: nat, pattern: Pattern)
    ensures StandsFor(Expanded(disk, n, pattern), pattern, disk, n)
    ensures ListingsFor(pattern) == if exists k :: 0 <= k < |pattern.parts| && pattern.parts[k] == [0x2A] then 1 else 0
  {
    hide JoinAll, AreBeneath;
    var parts := pattern.parts;
    WildcardIsFirst(parts);
    forall w: nat | IsWildcard(parts, w)
      ensures w == WildcardAt(parts)
    {
    }
    var at := WildcardAt(parts);
    if at < |parts| {
      var listing := disk.list(n, JoinAll(parts[..at]), WILDCARD);
      if listing.Ok? {
        DirectoriesSay(listing.value, JoinAll(parts[at + 1..]));
      }
    }
  }

  /** Names with a backslash between them. */
  function Backslashed(names: seq<Wide>): Path
    requires names != []
  {
    if |names| == 1 then names[0] else names[0] + [0x5C] + Backslashed(names[1..])
  }

  lemma {:induction false} BackslashedOneMore(names: seq<Wide>, name: Wide)
    requires names != []
    ensures Backslashed(names + [name]) == Backslashed(names) + [0x5C] + name
  {
    if |names| > 1 {
      BackslashedOneMore(names[1..], name);
      assert (names + [name])[1..] == names[1..] + [name];
    }
  }

  lemma SeparatorAfterName(p: Path)
    requires p != [] && !Paths.Slash(p[0]) && !Paths.Slash(p[|p| - 1]) && !Paths.HasDrive(p)
    ensures Paths.NeedsSeparator(p)
  {
  }

  lemma NameGoesOn(p: Path, name: Wide)
    requires p != [] && !Paths.Slash(p[0]) && !Paths.HasDrive(p) && Paths.Plain(name)
    ensures var q := p + [0x5C] + name; !Paths.Slash(q[0]) && !Paths.Slash(q[|q| - 1]) && !Paths.HasDrive(q)
  {
    var q := p + [0x5C] + name;
    assert q[0] == p[0] && q[1] == (if |p| >= 2 then p[1] else 0x5C) && q[|q| - 1] == name[|name| - 1];
  }

  /** What is behind the wildcard is the rest of the pattern, as it was written. */
  lemma {:induction false} JoinAllOfNames(names: seq<Wide>)
    requires names != [] && forall k | 0 <= k < |names| :: Paths.Plain(names[k])
    ensures JoinAll(names) == Backslashed(names)
    ensures var p := JoinAll(names); p != [] && !Paths.Slash(p[0]) && !Paths.Slash(p[|p| - 1]) && !Paths.HasDrive(p)
  {
    var last, front := names[|names| - 1], names[..|names| - 1];
    if front == [] {
      assert JoinAll([]) == [];
      Paths.JoinOfPlain([], last);
      Paths.PlainHasNoRoot(last);
    } else {
      JoinAllOfNames(front);
      SeparatorAfterName(JoinAll(front));
      NameGoesOn(JoinAll(front), last);
      Paths.JoinOfPlain(JoinAll(front), last);
      BackslashedOneMore(front, last);
      assert names == front + [last];
    }
  }

  // ---- What a scan finds, on a disk that does not change -----------------------------------------

  /** `directory` is one that `pattern` stands for. */
  ghost predicate LeadsTo(disk: Disk, pattern: Pattern, directory: Path) {
    || ((forall k | 0 <= k < |pattern.parts| :: pattern.parts[k] != [0x2A]) && directory == pattern.text)
    || exists w: nat | IsWildcard(pattern.parts, w) ::
         IsBeneathOne(directory, disk.list(0, JoinAll(pattern.parts[..w]), [0x2A]), JoinAll(pattern.parts[w + 1..]))
  }

  /** The listing worked, and `directory` is what one of its directories stands for. */
  ghost predicate IsBeneathOne(directory: Path, listing: Result<seq<DirEntry>>, behind: Path) {
    exists k: nat :: ListsDirectory(listing, k) && directory == Beneath(listing.value[k], behind)
  }

  /** Entry `k` of a listing that worked is a directory. */
  predicate ListsDirectory(listing: Result<seq<DirEntry>>, k: nat) {
    listing.Ok? && k < |listing.value| && listing.value[k].isDirectory
  }

  /** Asking for `*.vhdx` in `directory` lists `entry`. */
  predicate Lists(disk: Disk, directory: Path, entry: DirEntry) {
    var listing := disk.list(0, directory, [0x2A, 0x2E, 0x76, 0x68, 0x64, 0x78]);
    listing.Ok? && entry in listing.value
  }

  /** A disk by its name: a file called something, a dot and `vhdx` in any case. */
  lemma IsDiskByName(entry: DirEntry)
    ensures var name := Paths.Filename(entry.path);
            IsDisk(entry) <==>
            && !entry.isDirectory && |name| > 5 && name[|name| - 5] == 0x2E
            && name[|name| - 4] in {0x56, 0x76} && name[|name| - 3] in {0x48, 0x68}
            && name[|name| - 2] in {0x44, 0x64} && name[|name| - 1] in {0x58, 0x78}
  {
    hide Paths.Filename, Paths.Canonical, Paths.FoldAll, LastDot;
    var name := Paths.Filename(entry.path);
    var extension := Extension(entry.path);
    Paths.FilenameHasNoSlash(entry.path);
    ExtensionOf(name);
    assert forall k | 0 <= k < |extension| :: extension[k] == name[|name| - |extension| + k];
    NameIsFolded(extension);
    if |extension| == 5 {
      FoldsToVhdx(extension);
    } else {
      FoldKeepsLength(extension);
    }
  }

  lemma FoldsToVhdx(p: Path)
    requires |p| == 5
    ensures Paths.FoldAll(p) == VHDX <==>
            p[0] == 0x2E && p[1] in {0x56, 0x76} && p[2] in {0x48, 0x68} && p[3] in {0x44, 0x64} && p[4] in {0x58, 0x78}
  {
    var f := Paths.FoldAll(p);
    assert f == [f[0], f[1], f[2], f[3], f[4]];
  }

  lemma FoldKeepsLength(p: Path)
    ensures |Paths.FoldAll(p)| == |p|
  {
  }

  lemma {:induction false} LastDotIsLast(name: Path, end: nat)
    requires end <= |name|
    ensures var dot := LastDot(name, end);
            if dot == |name| then forall k | 0 <= k < end :: name[k] != DOT
            else dot < end && name[dot] == DOT && forall k | dot < k < end :: name[k] != DOT
  {
    if end > 0 && name[end - 1] != DOT {
      LastDotIsLast(name, end - 1);
    }
  }

  lemma ExtensionOf(name: Path)
    ensures LastDot(name, |name|) <= |name|
    ensures |name| > 5 && name[|name| - 5] == DOT && (forall k | |name| - 5 < k < |name| :: name[k] != DOT) ==>
              LastDot(name, |name|) == |name| - 5
    ensures LastDot(name, |name|) < |name| ==> name[LastDot(name, |name|)] == DOT
  {
    LastDotIsLast(name, |name|);
  }

  /** Without separators there is nothing to strip or trim. */
  lemma NameIsFolded(p: Path)
    requires forall k | 0 <= k < |p| :: !Paths.Slash(p[k])
    ensures Paths.Canonical(p) == Paths.FoldAll(p)
  {
    assert Paths.Slash(Paths.EXTENDED[0]) && Paths.Slash(Paths.EXTENDED_UNC[0]);
    assert Paths.StripExtendedPrefix(p) == p && Paths.TrimSlashes(p) == p;
  }

  lemma {:induction false} VisitedHolds(disk: Disk, scan: Scan, directories: seq<Path>, entry: DirEntry)
    requires forall n, p, what :: disk.list(n, p, what) == disk.list(0, p, what)
    ensures entry in VisitedAll(disk, scan, directories).entries <==>
            entry in scan.entries || exists k | 0 <= k < |directories| :: Lists(disk, directories[k], entry)
  {
    if directories != [] {
      VisitedHolds(disk, scan, directories[..|directories| - 1], entry);
    }
  }

  lemma ExpandedHolds(disk: Disk, n: nat, pattern: Pattern, directory: Path)
    requires forall m, p, what :: disk.list(m, p, what) == disk.list(0, p, what)
    ensures directory in Expanded(disk, n, pattern) <==> LeadsTo(disk, pattern, directory)
  {
    hide JoinAll, Beneath, Expanded;
    var parts, directories := pattern.parts, Expanded(disk, n, pattern);
    ExpandedStandsFor(disk, n, pattern);
    if w: nat :| IsWildcard(parts, w) {
      assert forall v: nat | IsWildcard(parts, v) :: v == w;
      BeneathWildcard(disk, n, pattern, w, directories, directory);
    } else {
      WildcardIsFirst(parts);
      assert WildcardAt(parts) < |parts| ==> IsWildcard(parts, WildcardAt(parts));
    }
  }

  lemma BeneathWildcard(disk: Disk, n: nat, pattern: Pattern, w: nat, directories: seq<Path>, directory: Path)
    requires forall m, p, what :: disk.list(m, p, what) == disk.list(0, p, what)
    requires IsWildcard(pattern.parts, w) && StandsFor(directories, pattern, disk, n)
    ensures directory in directories <==>
            IsBeneathOne(directory, disk.list(0, JoinAll(pattern.parts[..w]), [0x2A]), JoinAll(pattern.parts[w + 1..]))
  {
    hide JoinAll, Beneath, Picks;
    var listing := disk.list(0, JoinAll(pattern.parts[..w]), [0x2A]);
    if listing.Ok? {
      var behind := JoinAll(pattern.parts[w + 1..]);
      var at :| Picks(at, directories, listing.value, behind);
      PicksAll(at, directories, listing, behind, directory);
    }
  }

  lemma PicksAll(at: seq<nat>, directories: seq<Path>, listing: Result<seq<DirEntry>>, behind: Path, directory: Path)
    requires listing.Ok? && Picks(at, directories, listing.value, behind)
    ensures directory in directories <==> IsBeneathOne(directory, listing, behind)
  {
    hide Beneath;
    if i :| 0 <= i < |directories| && directories[i] == directory {
      assert ListsDirectory(listing, at[i]);
    }
    if k: nat :| ListsDirectory(listing, k) && directory == Beneath(listing.value[k], behind) {
      var i :| 0 <= i < |at| && at[i] == k;
      assert directories[i] == directory;
    }
  }

  lemma {:induction false} ScannedHolds(disk: Disk, patterns: seq<Pattern>, entry: DirEntry)
    requires forall m, p, what :: disk.list(m, p, what) == disk.list(0, p, what)
    ensures entry in Scanned(disk, patterns).entries <==>
            exists i, directory | 0 <= i < |patterns| :: LeadsTo(disk, patterns[i], directory) && Lists(disk, directory, entry)
  {
    hide LeadsTo, Lists, VisitedAll, Expanded;
    if patterns != [] {
      var n := |patterns| - 1;
      var before, pattern := Scanned(disk, patterns[..n]), patterns[n];
      var directories := Expanded(disk, before.listings, pattern);
      ScannedHolds(disk, patterns[..n], entry);
      VisitedHolds(disk, before.(listings := before.listings + ListingsFor(pattern)), directories, entry);
      forall directory
        ensures directory in directories <==> LeadsTo(disk, pattern, directory)
      {
        ExpandedHolds(disk, before.listings, pattern, directory);
      }
      if directory :| LeadsTo(disk, pattern, directory) && Lists(disk, directory, entry) {
        assert directory in directories;
      }
    }
  }

  // ---- Exactly one of each ---------------------------------------------------------------------

  /** Whether `path` is the canonical path of an unclaimed disk among `entries`. */
  predicate Found(entries: seq<DirEntry>, claimed: seq<Path>, path: Path) {
    exists k | 0 <= k < |entries| :: Unclaimed(entries[k], claimed) && Paths.Canonical(entries[k].path) == path
  }

  /** Whether `path` is the canonical path of one of the orphans. */
  predicate Reported(orphans: seq<Orphan>, path: Path) {
    exists i | 0 <= i < |orphans| :: Paths.Canonical(orphans[i].path) == path
  }

  predicate Different(orphans: seq<Orphan>) {
    forall i, j | 0 <= i < j < |orphans| :: Paths.Canonical(orphans[i].path) != Paths.Canonical(orphans[j].path)
  }

  lemma FirstSeenIsNotFound(entries: seq<DirEntry>, claimed: seq<Path>)
    requires entries != []
    ensures var n := |entries| - 1;
            Unclaimed(entries[n], claimed) ==>
              (FirstSeen(entries, claimed, n) <==> !Found(entries[..n], claimed, Paths.Canonical(entries[n].path)))
  {
    hide Paths.Canonical;
    var n := |entries| - 1;
    assert forall k | 0 <= k < n :: entries[..n][k] == entries[k];
  }

  lemma FoundInOneMore(entries: seq<DirEntry>, claimed: seq<Path>, path: Path)
    requires entries != []
    ensures var n := |entries| - 1;
            Found(entries, claimed, path) <==>
            Found(entries[..n], claimed, path) ||
              (Unclaimed(entries[n], claimed) && Paths.Canonical(entries[n].path) == path)
  {
    hide Paths.Canonical, Unclaimed;
    var n := |entries| - 1;
    assert forall k | 0 <= k < n :: entries[..n][k] == entries[k];
  }

  lemma ReportedInOneMore(orphans: seq<Orphan>, last: Orphan, path: Path)
    ensures Reported(orphans + [last], path) <==> Reported(orphans, path) || Paths.Canonical(last.path) == path
    ensures Different(orphans) && !Reported(orphans, Paths.Canonical(last.path)) ==> Different(orphans + [last])
  {
    hide Paths.Canonical;
    var r := orphans + [last];
    assert r[|orphans|] == last && forall i | 0 <= i < |orphans| :: r[i] == orphans[i];
  }

  /** No two orphans are the same file, and the files are exactly those of the unclaimed disks that were listed. */
  lemma {:induction false} OneOrphanPerFile(disk: Disk, entries: seq<DirEntry>, claimed: seq<Path>, path: Path)
    ensures Different(OrphansIn(disk, entries, claimed))
    ensures Reported(OrphansIn(disk, entries, claimed), path) <==> Found(entries, claimed, path)
  {
    hide Paths.Canonical, Unclaimed, Reported, Found, Different, FirstSeen;
    if entries == [] {
      NothingFound(claimed, path);
    } else {
      var n := |entries| - 1;
      var front := entries[..n];
      var before := OrphansIn(disk, front, claimed);
      var last := Measured(disk, |before|, entries[n].path);
      OneOrphanPerFile(disk, front, claimed, path);
      OneOrphanPerFile(disk, front, claimed, Paths.Canonical(last.path));
      FirstSeenIsNotFound(entries, claimed);
      FirstSeenIsUnclaimed(entries, claimed, n);
      FoundInOneMore(entries, claimed, path);
      ReportedInOneMore(before, last, path);
    }
  }

  lemma FirstSeenIsUnclaimed(entries: seq<DirEntry>, claimed: seq<Path>, k: nat)
    requires k < |entries|
    ensures FirstSeen(entries, claimed, k) ==> Unclaimed(entries[k], claimed)
  {
  }

  lemma NothingFound(claimed: seq<Path>, path: Path)
    ensures !Found([], claimed, path) && !Reported([], path) && Different([])
  {
  }

  lemma {:induction false} FoundInPart(entries: seq<DirEntry>, more: seq<DirEntry>, claimed: seq<Path>, path: Path)
    requires Found(entries, claimed, path)
    ensures Found(entries + more, claimed, path)
  {
    hide Paths.Canonical, Unclaimed;
    var k :| 0 <= k < |entries| && Unclaimed(entries[k], claimed) && Paths.Canonical(entries[k].path) == path;
    assert (entries + more)[k] == entries[k];
  }

  /** Listing again what was already listed, through another pattern, adds nothing. */
  lemma {:induction false} OverlapAddsNothing(disk: Disk, entries: seq<DirEntry>, again: seq<DirEntry>, claimed: seq<Path>)
    requires forall k | 0 <= k < |again| && Unclaimed(again[k], claimed) ::
               Found(entries, claimed, Paths.Canonical(again[k].path))
    ensures OrphansIn(disk, entries + again, claimed) == OrphansIn(disk, entries, claimed)
    decreases |again|
  {
    hide Paths.Canonical, Unclaimed, Found, FirstSeen;
    if again == [] {
      assert entries + again == entries;
    } else {
      var n := |again| - 1;
      var all := entries + again;
      OverlapAddsNothing(disk, entries, again[..n], claimed);
      assert all[..|all| - 1] == entries + again[..n] && all[|all| - 1] == again[n];
      if Unclaimed(again[n], claimed) {
        FoundInPart(entries, again[..n], claimed, Paths.Canonical(again[n].path));
      }
      FirstSeenIsNotFound(all, claimed);
      FirstSeenIsUnclaimed(all, claimed, |all| - 1);
    }
  }

  // ---- The code ------------------------------------------------------------------------------------

  /** Whether an entry is worth reporting; if so it is remembered. */
  method IsUnclaimedDisk(entry: DirEntry, claimed: seq<Path>, seen: seq<Path>) returns (report: bool, remembered: seq<Path>)
    ensures report == (Unclaimed(entry, claimed) && Paths.Canonical(entry.path) !in seen)
    ensures remembered == if report then seen + [Paths.Canonical(entry.path)] else seen
  {
    remembered := seen;
    if entry.isDirectory {
      return false, seen;
    }
    var extension := Paths.CanonicalPath(Extension(entry.path));
    if extension != VHDX {
      return false, seen;
    }
    var canonical := Paths.CanonicalPath(entry.path);
    if canonical in claimed {
      return false, seen;
    }
    if canonical in seen {
      return false, seen;
    }
    return true, seen + [canonical];
  }

  /** `seen` holds the canonical paths of the unclaimed disks among `entries`. */
  predicate Remembers(seen: seq<Path>, entries: seq<DirEntry>, claimed: seq<Path>) {
    && (forall k | 0 <= k < |seen| :: Found(entries, claimed, seen[k]))
    && forall k | 0 <= k < |entries| && Unclaimed(entries[k], claimed) :: Paths.Canonical(entries[k].path) in seen
  }

  lemma RemembersFound(seen: seq<Path>, entries: seq<DirEntry>, claimed: seq<Path>, path: Path)
    requires Remembers(seen, entries, claimed)
    ensures Found(entries, claimed, path) <==> path in seen
  {
    hide Paths.Canonical, Unclaimed;
  }

  lemma RememberedBy(seen: seq<Path>, entries: seq<DirEntry>, claimed: seq<Path>)
    requires forall path :: Found(entries, claimed, path) <==> path in seen
    ensures Remembers(seen, entries, claimed)
  {
    hide Paths.Canonical, Unclaimed, Found;
    forall k | 0 <= k < |entries| && Unclaimed(entries[k], claimed)
      ensures Paths.Canonical(entries[k].path) in seen
    {
      FoundAt(entries, claimed, k);
    }
  }

  lemma FoundAt(entries: seq<DirEntry>, claimed: seq<Path>, k: nat)
    requires k < |entries| && Unclaimed(entries[k], claimed)
    ensures Found(entries, claimed, Paths.Canonical(entries[k].path))
  {
    hide Paths.Canonical, Unclaimed;
  }

  lemma RemembersOneMore(seen: seq<Path>, entries: seq<DirEntry>, claimed: seq<Path>, entry: DirEntry)
    requires Remembers(seen, entries, claimed)
    ensures var report := Unclaimed(entry, claimed) && Paths.Canonical(entry.path) !in seen;
            Remembers(if report then seen + [Paths.Canonical(entry.path)] else seen, entries + [entry], claimed)
  {
    hide Paths.Canonical, Unclaimed, Found, Remembers;
    var more := entries + [entry];
    assert more[..|more| - 1] == entries;
    var canonical := Paths.Canonical(entry.path);
    var seenNow := if Unclaimed(entry, claimed) && canonical !in seen then seen + [canonical] else seen;
    forall path
      ensures Found(more, claimed, path) <==> path in seenNow
    {
      FoundInOneMore(more, claimed, path);
      RemembersFound(seen, entries, claimed, path);
    }
    RememberedBy(seenNow, more, claimed);
  }

  lemma ReportsOneMore(seen: seq<Path>, entries: seq<DirEntry>, claimed: seq<Path>, entry: DirEntry, disk: Disk)
    requires Remembers(seen, entries, claimed)
    ensures var report := Unclaimed(entry, claimed) && Paths.Canonical(entry.path) !in seen;
            var before := OrphansIn(disk, entries, claimed);
            OrphansIn(disk, entries + [entry], claimed) ==
            if report then before + [Measured(disk, |before|, entry.path)] else before
  {
    hide Paths.Canonical, Unclaimed, Found, Remembers, FirstSeen, Measured;
    var more := entries + [entry];
    assert more[..|more| - 1] == entries;
    FirstSeenIsNotFound(more, claimed);
    FirstSeenIsUnclaimed(more, claimed, |entries|);
    RemembersFound(seen, entries, claimed, Paths.Canonical(entry.path));
  }

  /** On a disk that does not change, a path is reported exactly when it is the canonical path of a disk, by its name, that
      is listed in a directory some pattern stands for, and no distribution claims that path. */
  lemma FoundWherePatternsLead(disk: Disk, distros: seq<Distro.Distro>, patterns: seq<Pattern>, path: Path)
    requires forall m, p, what :: disk.list(m, p, what) == disk.list(0, p, what)
    ensures Reported(OrphansIn(disk, Scanned(disk, patterns).entries, Claims(distros)), path) <==>
            && (forall k | 0 <= k < |distros| :: Paths.Canonical(distros[k].vhdxPath) != path)
            && exists i, directory, entry | 0 <= i < |patterns| ::
                 && LeadsTo(disk, patterns[i], directory) && Lists(disk, directory, entry)
                 && IsDisk(entry) && Paths.Canonical(entry.path) == path
  {
    hide LeadsTo, Lists, IsDisk, Scanned, OrphansIn, Reported, Paths.Canonical;
    var entries, claimed := Scanned(disk, patterns).entries, Claims(distros);
    OneOrphanPerFile(disk, entries, claimed, path);
    if Found(entries, claimed, path) {
      var k :| 0 <= k < |entries| && Unclaimed(entries[k], claimed) && Paths.Canonical(entries[k].path) == path;
      ScannedHolds(disk, patterns, entries[k]);
      assert forall d | 0 <= d < |distros| :: claimed[d] in claimed;
    }
    if i, directory, entry :|
      0 <= i < |patterns| && LeadsTo(disk, patterns[i], directory) && Lists(disk, directory, entry) &&
      IsDisk(entry) && Paths.Canonical(entry.path) == path {
      ScannedHolds(disk, patterns, entry);
      var k :| 0 <= k < |entries| && entries[k] == entry;
    }
  }

  method CollectUnclaimed(disk: Disk, entries: seq<DirEntry>, claimed: seq<Path>, seen: seq<Path>, orphans: seq<Orphan>,
                          ghost before: seq<DirEntry>)
    returns (seenNow: seq<Path>, orphansNow: seq<Orphan>)
    requires Remembers(seen, before, claimed) && orphans == OrphansIn(disk, before, claimed)
    ensures Remembers(seenNow, before + entries, claimed) && orphansNow == OrphansIn(disk, before + entries, claimed)
  {
    hide Remembers, OrphansIn, Unclaimed;
    seenNow, orphansNow := seen, orphans;
    assert before + entries[..0] == before;
    for i := 0 to |entries|
      invariant Remembers(seenNow, before + entries[..i], claimed)
      invariant orphansNow == OrphansIn(disk, before + entries[..i], claimed)
    {
      RemembersOneMore(seenNow, before + entries[..i], claimed, entries[i]);
      ReportsOneMore(seenNow, before + entries[..i], claimed, entries[i], disk);
      assert before + entries[..i + 1] == before + entries[..i] + [entries[i]];
      var report;
      report, seenNow := IsUnclaimedDisk(entries[i], claimed, seenNow);
      if report {
        orphansNow := orphansNow + [Measured(disk, |orphansNow|, entries[i].path)];
      }
    }
    assert entries[..|entries|] == entries;
  }

  method ExpandScanPattern(disk: Disk, listings: nat, pattern: Pattern) returns (directories: seq<Path>, listingsNow: nat)
    ensures directories == Expanded(disk, listings, pattern) && listingsNow == listings + ListingsFor(pattern)
    ensures StandsFor(directories, pattern, disk, listings)
  {
    hide JoinAll, Directories, Paths.Join, StandsFor;
    ExpandedStandsFor(disk, listings, pattern);
    var before, after: Path, seenWildcard := [], [], false;
    var parts := pattern.parts;
    ghost var n := WildcardAt(parts);
    WildcardIsFirst(parts);
    NothingJoined();
    for i := 0 to |parts|
      invariant seenWildcard == (i > n)
      invariant before == JoinAll(parts[..Min(i, n)])
      invariant after == if seenWildcard then JoinAll(parts[n + 1..i]) else []
    {
      if !seenWildcard && parts[i] == WILDCARD {
        seenWildcard := true;
        assert parts[n + 1..i + 1] == [];
        continue;
      }
      if seenWildcard {
        JoinsOneMore(parts, n + 1, i);
        after := Paths.Join(after, parts[i]);
      } else {
        JoinsOneMore(parts, 0, i);
        before := Paths.Join(before, parts[i]);
      }
    }
    if !seenWildcard {
      return [pattern.text], listings;
    }
    SliceToTheEnd(parts, n + 1);
    directories := DirectoriesListed(disk, listings, before, after);
    listingsNow := listings + 1;
  }

  method DirectoriesListed(disk: Disk, listings: nat, before: Path, after: Path) returns (directories: seq<Path>)
    ensures directories == DirectoriesIn(disk.list(listings, before, WILDCARD), after)
  {
    hide Paths.Join;
    var entries := disk.list(listings, before, WILDCARD);
    if entries.Err? {
      return [];
    }
    directories := [];
    for i := 0 to |entries.value|
      invariant directories == Directories(entries.value[..i], after)
    {
      assert entries.value[..i + 1][..i] == entries.value[..i];
      var entry := entries.value[i];
      if !entry.isDirectory {
        continue;
      }
      directories := directories + [if after == [] then entry.path else Paths.Join(entry.path, after)];
    }
    assert entries.value[..|entries.value|] == entries.value;
  }

  lemma SliceToTheEnd(parts: seq<Wide>, from: nat)
    requires from <= |parts|
    ensures parts[from..|parts|] == parts[from..]
  {
  }

  lemma NothingJoined()
    ensures JoinAll([]) == []
  {
  }

  lemma JoinsOneMore(parts: seq<Wide>, from: nat, i: nat)
    requires from <= i < |parts|
    ensures JoinAll(parts[from..i + 1]) == Paths.Join(JoinAll(parts[from..i]), parts[i])
  {
    hide Paths.Join;
    assert parts[from..i + 1][..i - from] == parts[from..i];
  }

  lemma {:induction false} WildcardIsFirst(parts: seq<Wide>)
    ensures var n := WildcardAt(parts);
            (n < |parts| ==> parts[n] == WILDCARD) && forall k | 0 <= k < n :: parts[k] != WILDCARD
  {
    if parts != [] && parts[0] != WILDCARD {
      WildcardIsFirst(parts[1..]);
    }
  }

  /** One directory after another, after `scan`. */
  method ScanDirectories(disk: Disk, directories: seq<Path>, claimed: seq<Path>, seen: seq<Path>, orphans: seq<Orphan>,
                         warnings: nat, listings: nat, ghost scan: Scan)
    returns (seenNow: seq<Path>, orphansNow: seq<Orphan>, warningsNow: nat, listingsNow: nat)
    requires Remembers(seen, scan.entries, claimed) && orphans == OrphansIn(disk, scan.entries, claimed)
    requires warnings == scan.failures && listings == scan.listings
    ensures var after := VisitedAll(disk, scan, directories);
            && Remembers(seenNow, after.entries, claimed) && orphansNow == OrphansIn(disk, after.entries, claimed)
            && warningsNow == after.failures && listingsNow == after.listings
  {
    hide OrphansIn, Remembers;
    seenNow, orphansNow, warningsNow, listingsNow := seen, orphans, warnings, listings;
    for i := 0 to |directories|
      invariant var now := VisitedAll(disk, scan, directories[..i]);
                && Remembers(seenNow, now.entries, claimed) && orphansNow == OrphansIn(disk, now.entries, claimed)
                && warningsNow == now.failures && listingsNow == now.listings
    {
      assert directories[..i + 1][..i] == directories[..i];
      ghost var before := VisitedAll(disk, scan, directories[..i]).entries;
      var entries := disk.list(listingsNow, directories[i], VHDX_PATTERN);
      listingsNow := listingsNow + 1;
      if entries.Err? {
        warningsNow := warningsNow + 1;
      } else {
        seenNow, orphansNow := CollectUnclaimed(disk, entries.value, claimed, seenNow, orphansNow, before);
      }
    }
    assert directories[..|directories|] == directories;
  }

  method ClaimedPaths(distros: seq<Distro.Distro>) returns (claimed: seq<Path>)
    ensures claimed == Claims(distros)
  {
    hide Paths.Canonical;
    claimed := [];
    for i := 0 to |distros|
      invariant |claimed| == i && forall k | 0 <= k < i :: claimed[k] == Paths.Canonical(distros[k].vhdxPath)
    {
      var canonical := Paths.CanonicalPath(distros[i].vhdxPath);
      claimed := claimed + [canonical];
    }
  }

  /** One orphan for every file that is an unclaimed disk in a readable directory of any pattern, the first seen under its
      canonical path; and one warning for every listing of a directory that failed. */
  method FindOrphans(disk: Disk, distros: seq<Distro.Distro>, patterns: seq<Pattern>)
    returns (orphans: seq<Orphan>, warnings: nat)
    ensures orphans == OrphansIn(disk, Scanned(disk, patterns).entries, Claims(distros))
    ensures warnings == Scanned(disk, patterns).failures
  {
    hide OrphansIn, Remembers, Scanned, VisitedAll, Expanded, ListingsFor, Claims;
    var claimed := ClaimedPaths(distros);
    var seen: seq<Path>, listings := [], 0;
    orphans, warnings := [], 0;
    NothingSeen(disk, claimed);
    assert patterns[..0] == [];
    ghost var scan := Scan([], 0, 0);
    for i := 0 to |patterns|
      invariant scan == Scanned(disk, patterns[..i])
      invariant Remembers(seen, scan.entries, claimed)
      invariant orphans == OrphansIn(disk, scan.entries, claimed)
      invariant warnings == scan.failures && listings == scan.listings
    {
      ScannedOneMore(disk, patterns, i);
      var directories;
      directories, listings := ExpandScanPattern(disk, listings, patterns[i]);
      scan := scan.(listings := listings);
      seen, orphans, warnings, listings :=
        ScanDirectories(disk, directories, claimed, seen, orphans, warnings, listings, scan);
      scan := VisitedAll(disk, scan, directories);
    }
    assert patterns[..|patterns|] == patterns;
  }

  lemma NothingSeen(disk: Disk, claimed: seq<Path>)
    ensures Remembers([], [], claimed) && OrphansIn(disk, [], claimed) == [] && Scanned(disk, []) == Scan([], 0, 0)
  {
  }

  lemma ScannedOneMore(disk: Disk, patterns: seq<Pattern>, n: nat)
    requires n < |patterns|
    ensures var before := Scanned(disk, patterns[..n]);
            Scanned(disk, patterns[..n + 1]) ==
            VisitedAll(disk, before.(listings := before.listings + ListingsFor(patterns[n])),
                       Expanded(disk, before.listings, patterns[n]))
  {
    hide VisitedAll, Expanded, ListingsFor;
    assert patterns[..n + 1][..n] == patterns[..n];
  }
}
