/** Windows paths as the tool compares and joins them (src/lib/model/distro.cpp, src/lib/model/orphans.cpp), over the
    path operations of the C++ standard library as they are on Windows. */
module Paths {
  import opened Units

  type Path = Wide

  const BACKSLASH: Unit := 0x5C
  const COLON: Unit := 0x3A

  // `\\?\` and `\\?\UNC\`.
  const EXTENDED: Wide := [0x5C, 0x5C, 0x3F, 0x5C]
  const EXTENDED_UNC: Wide := [0x5C, 0x5C, 0x3F, 0x5C, 0x55, 0x4E, 0x43, 0x5C]
  const UNC: Wide := [0x55, 0x4E, 0x43, 0x5C]

  predicate Slash(u: Unit) {
    u == BACKSLASH || u == 0x2F
  }

  function Lower(u: Unit): Unit {
    if 0x41 <= u <= 0x5A then u + 0x20 else u
  }

  // ---- std::filesystem::path ---------------------------------------------------------

  predicate HasDrive(p: Path) {
    |p| >= 2 && p[1] == COLON && 0x61 <= Lower(p[0]) <= 0x7A
  }

  predicate IsDevice(p: Path) {
    && |p| >= 4 && Slash(p[0]) && Slash(p[3]) && (|p| == 4 || !Slash(p[4]))
    && ((Slash(p[1]) && (p[2] == 0x3F || p[2] == 0x2E)) || (p[1] == 0x3F && p[2] == 0x3F))
  }

  predicate IsServer(p: Path) {
    |p| >= 3 && Slash(p[0]) && Slash(p[1]) && !Slash(p[2])
  }

  /** The length of the root name: a drive, a device prefix, or a server. */
  function RootName(p: Path): (n: nat)
    ensures n <= |p|
  {
    if HasDrive(p) then 2
    else if IsDevice(p) then 3
    else if IsServer(p) then NextSlash(p, 3)
    else 0
  }

  function NextSlash(p: Path, from: nat): (n: nat)
    requires from <= |p|
    ensures from <= n <= |p| && (n < |p| ==> Slash(p[n]))
    ensures forall k | from <= k < n :: !Slash(p[k])
    decreases |p| - from
  {
    if from == |p| || Slash(p[from]) then from else NextSlash(p, from + 1)
  }

  predicate IsAbsolute(p: Path) {
    if HasDrive(p) then |p| > 2 && Slash(p[2]) else RootName(p) > 0
  }

  /** `base / name`. */
  function Join(base: Path, name: Path): Path {
    var b, n := RootName(base), RootName(name);
    if IsAbsolute(name) || (n > 0 && base[..b] != name[..n]) then name
    else if n < |name| && Slash(name[n]) then base[..b] + name[n..]
    else base + (if NeedsSeparator(base) then [BACKSLASH] else []) + name[n..]
  }

  predicate NeedsSeparator(base: Path) {
    if RootName(base) == |base| then |base| >= 3 else !Slash(base[|base| - 1])
  }

  /** `p.filename()`: what follows the last separator after the root. */
  function Filename(p: Path): Path {
    p[LastComponent(p, |p|)..]
  }

  function LastComponent(p: Path, end: nat): (n: nat)
    requires RootName(p) <= end <= |p|
    ensures RootName(p) <= n <= end
    ensures forall k | n <= k < end :: !Slash(p[k])
    ensures n > RootName(p) ==> Slash(p[n - 1])
  {
    if end == RootName(p) || Slash(p[end - 1]) then end else LastComponent(p, end - 1)
  }

  /** Where the relative part of a path begins: after the root and the separators that follow it. */
  function RelativeAt(p: Path, from: nat): (n: nat)
    requires from <= |p|
    ensures from <= n <= |p| && forall k | from <= k < n :: Slash(p[k])
    ensures n < |p| ==> !Slash(p[n])
    decreases |p| - from
  {
    if from < |p| && Slash(p[from]) then RelativeAt(p, from + 1) else from
  }

  /** `p.parent_path()`: without the last component and the separators before it, but never without the root. */
  function ParentPath(p: Path): Path {
    var r := RelativeAt(p, RootName(p));
    p[..SlashesBefore(p, NameBefore(p, |p|, r), r)]
  }

  function NameBefore(p: Path, end: nat, r: nat): (n: nat)
    requires r <= end <= |p|
    ensures r <= n <= end && (n > r ==> Slash(p[n - 1])) && forall k | n <= k < end :: !Slash(p[k])
  {
    if end == r || Slash(p[end - 1]) then end else NameBefore(p, end - 1, r)
  }

  function SlashesBefore(p: Path, end: nat, r: nat): (n: nat)
    requires r <= end <= |p|
    ensures r <= n <= end && (n > r ==> !Slash(p[n - 1])) && forall k | n <= k < end :: Slash(p[k])
  {
    if end == r || !Slash(p[end - 1]) then end else SlashesBefore(p, end - 1, r)
  }

  /** A name that is one component and nothing else. */
  predicate Plain(name: Path) {
    name != [] && !HasDrive(name) && forall k | 0 <= k < |name| :: !Slash(name[k])
  }

  lemma PlainHasNoRoot(name: Path)
    requires Plain(name)
    ensures RootName(name) == 0 && !IsAbsolute(name)
  {
  }

  /** Joining a plain name puts it after the base and at most one separator. */
  lemma JoinOfPlain(base: Path, name: Path)
    requires Plain(name)
    ensures Join(base, name) == base + (if NeedsSeparator(base) then [BACKSLASH] else []) + name
  {
    PlainHasNoRoot(name);
    assert name[0..] == name;
  }

  /** Two separators and nothing else, which a name after them would turn into a server. */
  predicate BareServer(p: Path) {
    |p| == 2 && Slash(p[0]) && Slash(p[1])
  }

  lemma RootStaysInFront(front: Path, name: Path)
    requires Plain(name) && !BareServer(front)
    requires front == [] || Slash(front[|front| - 1]) || (HasDrive(front) && |front| == 2)
    ensures RootName(front + name) <= |front|
  {
    var p := front + name;
    assert forall k | 0 <= k < |front| :: p[k] == front[k];
    assert forall k | 0 <= k < |name| :: p[|front| + k] == name[k];
    if front == [] {
      assert p == name;
      PlainHasNoRoot(name);
    } else if IsDevice(p) && !HasDrive(p) {
      assert Slash(p[3]);
    } else if IsServer(p) && !HasDrive(p) {
      assert |front| >= 3;
      assert Slash(p[|front| - 1]);
    }
  }

  lemma {:induction false} LastComponentIs(p: Path, end: nat, n: nat)
    requires RootName(p) <= n <= end <= |p|
    requires (forall k | n <= k < end :: !Slash(p[k])) && (n > RootName(p) ==> Slash(p[n - 1]))
    ensures LastComponent(p, end) == n
    decreases end
  {
    hide RootName;
    if end > n {
      LastComponentIs(p, end - 1, n);
    }
  }

  lemma DriveIsRoot(front: Path, name: Path)
    requires HasDrive(front)
    ensures RootName(front + name) == 2
  {
    assert (front + name)[0] == front[0] && (front + name)[1] == front[1];
  }

  lemma FilenameAfter(front: Path, name: Path)
    requires Plain(name) && !BareServer(front)
    requires front == [] || Slash(front[|front| - 1]) || (HasDrive(front) && |front| == 2)
    ensures Filename(front + name) == name
  {
    hide RootName, BareServer;
    var p := front + name;
    RootStaysInFront(front, name);
    if HasDrive(front) {
      DriveIsRoot(front, name);
    }
    hide HasDrive;
    assert forall k | 0 <= k < |name| :: p[|front| + k] == name[k];
    assert front != [] ==> p[|front| - 1] == front[|front| - 1];
    LastComponentIs(p, |p|, |front|);
    assert p[|front|..] == name;
  }

  /** The file name of a join is the name that was joined. */
  lemma FilenameOfJoin(base: Path, name: Path)
    requires Plain(name) && !BareServer(base)
    ensures Filename(Join(base, name)) == name
  {
    JoinOfPlain(base, name);
    var front := base + (if NeedsSeparator(base) then [BACKSLASH] else []);
    if NeedsSeparator(base) {
      assert front[|front| - 1] == BACKSLASH;
      assert !BareServer(front) by {
        if |base| == 1 {
          assert RootName(base) == 0 && !Slash(base[0]);
        }
      }
    } else {
      assert front == base;
    }
    FilenameAfter(front, name);
  }

  /** A join adds at most a separator. */
  lemma JoinIsShort(base: Path, name: Path)
    ensures |Join(base, name)| <= |base| + 1 + |name|
  {
  }

  /** A directory joined with no name at all has no file name. */
  lemma JoinOfNothing(base: Path)
    ensures var p := Join(base, []);
            Filename(p) == [] && (|p| < 3 || Slash(p[|p| - 1]))
  {
    var p := Join(base, []);
    assert p == base + (if NeedsSeparator(base) then [BACKSLASH] else []);
    if NeedsSeparator(base) {
      assert p[|p| - 1] == BACKSLASH;
    } else {
      assert p == base;
    }
  }

  /** A name after two separators is a server, and no file name. */
  lemma ServerHasNoFilename(base: Path, name: Path)
    requires BareServer(base) && Plain(name)
    ensures Join(base, name) == base + name && Filename(base + name) == [] && ParentPath(base + name) == base + name
  {
    JoinOfPlain(base, name);
    var p := base + name;
    assert p[0] == base[0] && p[1] == base[1];
    assert forall k | 0 <= k < |name| :: p[2 + k] == name[k];
    assert base + [] + name == p;
    assert IsServer(p) && !IsDevice(p) && RootName(p) == |p|;
  }

  lemma FilenameHasNoSlash(p: Path)
    ensures forall k | 0 <= k < |Filename(p)| :: !Slash(Filename(p)[k])
    ensures Plain(Filename(p)) <==> Filename(p) != [] && !HasDrive(Filename(p))
  {
  }

  /** The directory and the file name are apart. */
  lemma PartsAreApart(p: Path)
    ensures ParentPath(p) <= p && |ParentPath(p)| + |Filename(p)| <= |p|
  {
    var root := RootName(p);
    var r := RelativeAt(p, root);
    var n := LastComponent(p, |p|);
    var before := NameBefore(p, |p|, r);
    assert (r > root ==> Slash(p[r - 1])) && (before > r ==> Slash(p[before - 1]));
  }

  // ---- Prefixes ------------------------------------------------------------------------

  predicate StartsWith(p: Path, prefix: Path) {
    prefix <= p
  }

  /** A path without its extended-length prefix. The UNC form is looked for first, because it begins with the other. */
  function StripExtendedPrefix(p: Path): Path {
    if StartsWith(p, EXTENDED_UNC) then [BACKSLASH, BACKSLASH] + p[|EXTENDED_UNC|..]
    else if StartsWith(p, EXTENDED) then p[|EXTENDED|..]
    else p
  }

  /** `\\?\` in front of a directory comes off again exactly when the directory does not begin with `UNC\`. */
  lemma StripUndoesExtending(directory: Path)
    ensures StripExtendedPrefix(EXTENDED + directory) == directory <==> !StartsWith(directory, UNC)
    ensures |StripExtendedPrefix(EXTENDED + directory)| ==
            if StartsWith(directory, UNC) then |directory| - 2 else |directory|
  {
    var p := EXTENDED + directory;
    assert StartsWith(p, EXTENDED);
    assert EXTENDED_UNC == EXTENDED + UNC;
    if StartsWith(directory, UNC) {
      assert directory == UNC + directory[4..];
      assert p == EXTENDED_UNC + directory[4..];
    } else {
      assert |directory| >= 4 ==> p[4..8] == directory[..4];
      assert EXTENDED_UNC[4..8] == UNC;
    }
  }

  lemma StripKeepsPlain(directory: Path)
    ensures StripExtendedPrefix(directory) == directory <==> !StartsWith(directory, EXTENDED)
    ensures |StripExtendedPrefix(directory)| <= |directory|
  {
    assert EXTENDED <= EXTENDED_UNC;
    if StartsWith(directory, EXTENDED_UNC) {
      assert directory[..4] == EXTENDED_UNC[..4] == EXTENDED;
      assert |StripExtendedPrefix(directory)| == |directory| - 6;
    }
  }

  // ---- The form paths are compared in ----------------------------------------------------

  function TrimSlashes(p: Path): (r: Path)
    ensures r <= p
    ensures |r| > 1 ==> !Slash(r[|r| - 1])
  {
    if |p| > 1 && Slash(p[|p| - 1]) then TrimSlashes(p[..|p| - 1]) else p
  }

  function Folded(u: Unit): Unit {
    Lower(if u == 0x2F then BACKSLASH else u)
  }

  function FoldAll(p: Path): (r: Path)
    ensures |r| == |p| && forall k | 0 <= k < |p| :: r[k] == Folded(p[k])
  {
    seq(|p|, i requires 0 <= i < |p| => Folded(p[i]))
  }

  function Canonical(p: Path): Path {
    FoldAll(TrimSlashes(StripExtendedPrefix(p)))
  }

  /** What the prefixes are. */
  lemma PrefixesAre(rest: Path)
    ensures StripExtendedPrefix(Ascii("\\\\?\\UNC\\") + rest) == Ascii("\\\\") + rest
    ensures StripExtendedPrefix(Ascii("\\\\?\\") + rest) != rest ==> Ascii("UNC\\") <= rest
    ensures !(Ascii("\\\\?\\") <= rest) ==> StripExtendedPrefix(rest) == rest
  {
    assert EXTENDED == Ascii("\\\\?\\") && UNC == Ascii("UNC\\") && [BACKSLASH, BACKSLASH] == Ascii("\\\\");
    assert EXTENDED_UNC == Ascii("\\\\?\\UNC\\");
    assert (EXTENDED_UNC + rest)[8..] == rest;
    StripUndoesExtending(rest);
    StripKeepsPlain(rest);
  }

  /** The canonical form, unit by unit: capitals are small, slashes are backslashes, and nothing but separators has gone from
      the end, as many as there were, except for one that is all there is. */
  lemma CanonicalSays(p: Path)
    ensures var s, c := StripExtendedPrefix(p), Canonical(p);
            && |c| <= |s| && (s != [] ==> c != [])
            && (forall k | 0 <= k < |c| :: c[k] ==
                  if s[k] == 0x2F then 0x5C else if 0x41 <= s[k] <= 0x5A then s[k] + 0x20 else s[k])
            && (forall k | |c| <= k < |s| :: s[k] in {0x5C, 0x2F})
            && (|c| > 1 ==> c[|c| - 1] != 0x5C)
  {
    var s := StripExtendedPrefix(p);
    TrimmedAreSlashes(s);
    assert TrimSlashes(s) == s[..|TrimSlashes(s)|];
  }

  lemma {:induction false} TrimmedAreSlashes(p: Path)
    ensures forall k | |TrimSlashes(p)| <= k < |p| :: p[k] in {0x5C, 0x2F}
    ensures p != [] ==> TrimSlashes(p) != []
  {
    if |p| > 1 && Slash(p[|p| - 1]) {
      TrimmedAreSlashes(p[..|p| - 1]);
    }
  }

  method CanonicalPath(path: Path) returns (result: Path)
    ensures result == Canonical(path)
  {
    result := StripExtendedPrefix(path);
    ghost var stripped := result;
    while |result| > 1 && Slash(result[|result| - 1])
      invariant TrimSlashes(result) == TrimSlashes(stripped)
      decreases |result|
    {
      result := result[..|result| - 1];
    }
    ghost var trimmed := result;
    for i := 0 to |result|
      invariant |result| == |trimmed|
      invariant forall k | 0 <= k < i :: result[k] == Folded(trimmed[k])
      invariant forall k | i <= k < |result| :: result[k] == trimmed[k]
    {
      var character := result[i];
      if character == 0x2F {
        character := BACKSLASH;
      }
      result := result[i := Lower(character)];
    }
    assert result == FoldAll(trimmed);
  }

  predicate SamePath(left: Path, right: Path) {
    Canonical(left) == Canonical(right)
  }

  /** What a prefix written with either separator looks like once the trailing ones are gone. */
  predicate FoldsToExtended(p: Path) {
    |p| >= 4 && Slash(p[0]) && Slash(p[1]) && p[2] == 0x3F && Slash(p[3])
  }

  /** A second pass changes nothing exactly when the first did not uncover another prefix: `//?/c:/x` needs two. */
  lemma CanonicalTwice(p: Path)
    ensures Canonical(Canonical(p)) == Canonical(p) <==> !FoldsToExtended(TrimSlashes(StripExtendedPrefix(p)))
  {
    var t := TrimSlashes(StripExtendedPrefix(p));
    var c := FoldAll(t);
    FoldIsIdempotent(t);
    assert StartsWith(c, EXTENDED) <==> FoldsToExtended(t) by {
      if FoldsToExtended(t) {
        assert c[..4] == EXTENDED;
      }
    }
    StripKeepsPlain(c);
    if StartsWith(c, EXTENDED) {
      StripShortens(c);
    } else {
      assert |c| > 1 ==> !Slash(c[|c| - 1]);
      assert TrimSlashes(c) == c;
    }
  }

  lemma FoldIsIdempotent(t: Path)
    ensures FoldAll(FoldAll(t)) == FoldAll(t)
    ensures forall k | 0 <= k < |t| :: Slash(Folded(t[k])) <==> Slash(t[k])
  {
  }

  lemma StripShortens(p: Path)
    requires StartsWith(p, EXTENDED)
    ensures |StripExtendedPrefix(p)| < |p|
  {
    if StartsWith(p, EXTENDED_UNC) {
      assert |p| >= 8;
    }
  }

  /** `//?/c:/x` is such a path. */
  lemma TwoPassesAreNeeded()
    ensures var p: Path := [0x2F, 0x2F, 0x3F, 0x2F, 0x63, 0x3A, 0x2F, 0x78];
            Canonical(Canonical(p)) != Canonical(p)
  {
    var p: Path := [0x2F, 0x2F, 0x3F, 0x2F, 0x63, 0x3A, 0x2F, 0x78];
    hide Canonical, FoldAll;
    assert p[0] != EXTENDED[0] && p[0] != EXTENDED_UNC[0];
    assert StripExtendedPrefix(p) == p && TrimSlashes(p) == p;
    CanonicalTwice(p);
  }
}
