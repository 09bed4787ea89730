/** Which file a moved entry leads to, whatever its spelling: the paths are compared in the canonical form of
    src/lib/model/orphans.cpp. */
module Landing {
  import opened Units
  import Distro
  import Paths
  import opened Repointing

  // ---- Paths that end in a name -----------------------------------------------------------------

  predicate SlashFree(name: Wide) {
    forall k | 0 <= k < |name| :: !Paths.Slash(name[k])
  }

  lemma StripCuts(p: Wide)
    ensures |Paths.StripExtendedPrefix(p)| == |p| - Cut(p)
    ensures Cut(p) == 0 ==> Paths.StripExtendedPrefix(p) == p
  {
  }

  /** How much shorter a path is without its prefix. */
  function Cut(p: Wide): (n: nat)
    ensures n <= |p| && n in {0, 4, 6}
  {
    if Paths.StartsWith(p, Paths.EXTENDED_UNC) then 6 else if Paths.StartsWith(p, Paths.EXTENDED) then 4 else 0
  }

  lemma CanonicalIsShort(p: Wide)
    ensures |Paths.Canonical(p)| <= |p| - Cut(p)
  {
    StripCuts(p);
  }

  /** A path that ends in a name has nothing to trim. */
  lemma NothingToTrim(p: Wide)
    requires p != [] && !Paths.Slash(p[|p| - 1])
    ensures Paths.Canonical(p) == Paths.FoldAll(Paths.StripExtendedPrefix(p))
    ensures |Paths.Canonical(p)| == |p| - Cut(p)
  {
    StripCuts(p);
    var stripped := Paths.StripExtendedPrefix(p);
    assert Paths.EXTENDED_UNC[7] == Paths.BACKSLASH && Paths.EXTENDED[3] == Paths.BACKSLASH;
    if Paths.StartsWith(p, Paths.EXTENDED_UNC) {
      assert p[7] == Paths.EXTENDED_UNC[7];
      assert stripped[|stripped| - 1] == p[|p| - 1];
    } else if Paths.StartsWith(p, Paths.EXTENDED) {
      assert p[3] == Paths.EXTENDED[3];
      assert stripped[|stripped| - 1] == p[|p| - 1];
    }
    assert Paths.TrimSlashes(stripped) == stripped;
  }

  lemma EndsInName(front: Wide, name: Wide)
    requires name != [] && SlashFree(name)
    ensures Paths.Canonical(front + name) == Paths.FoldAll(Paths.StripExtendedPrefix(front + name))
    ensures |Paths.Canonical(front + name)| == |front| + |name| - Cut(front + name)
  {
    assert (front + name)[|front + name| - 1] == name[|name| - 1];
    NothingToTrim(front + name);
  }

  lemma FoldOfSum(a: Wide, b: Wide)
    ensures Paths.FoldAll(a + b) == Paths.FoldAll(a) + Paths.FoldAll(b)
  {
  }

  lemma FoldsAlike(a: Wide, b: Wide, name: Wide)
    requires |a| == |b|
    ensures Paths.FoldAll(a + name) == Paths.FoldAll(b + name) <==> Paths.FoldAll(a) == Paths.FoldAll(b)
  {
    FoldOfSum(a, name);
    FoldOfSum(b, name);
    assert (Paths.FoldAll(a) + Paths.FoldAll(name))[..|a|] == Paths.FoldAll(a);
    assert (Paths.FoldAll(b) + Paths.FoldAll(name))[..|a|] == Paths.FoldAll(b);
  }

  function Separator(directory: Wide): (s: Wide)
    ensures |s| <= 1
  {
    if Paths.NeedsSeparator(directory) then [Paths.BACKSLASH] else []
  }

  /** The prefix that is written comes off again, and no other does. */
  predicate PrefixSurvives(basePath: Wide, directory: Wide) {
    if Paths.StartsWith(basePath, Paths.EXTENDED) then !Paths.StartsWith(directory, Paths.UNC)
    else !Paths.StartsWith(directory, Paths.EXTENDED)
  }

  lemma StrippedIsDirectory(basePath: Wide, directory: Wide)
    ensures var stripped := Paths.StripExtendedPrefix(InFormOf(basePath, directory));
            && (stripped == directory <==> PrefixSurvives(basePath, directory))
            && (stripped != directory ==> |stripped| <= |directory| - 2)
  {
    if Paths.StartsWith(basePath, Paths.EXTENDED) {
      Paths.StripUndoesExtending(directory);
    } else {
      Paths.StripKeepsPlain(directory);
    }
  }

  // ---- A file name without a drive ----------------------------------------------------------------

  /** Two directories, the written one without its prefix and the intended one, with one name. */
  lemma SameName(s: Wide, directory: Wide, name: Wide)
    requires Paths.Plain(name)
    ensures Paths.Join(s, name) == s + Separator(s) + name && Paths.Join(directory, name) == directory + Separator(directory) + name
    ensures |Paths.Canonical(Paths.Join(s, name))| == |s + Separator(s)| + |name| - Cut(Paths.Join(s, name))
    ensures |Paths.Canonical(Paths.Join(directory, name))| ==
            |directory + Separator(directory)| + |name| - Cut(Paths.Join(directory, name))
  {
    hide Paths.Join, Paths.Canonical, Paths.NeedsSeparator, Cut;
    Paths.JoinOfPlain(s, name);
    Paths.JoinOfPlain(directory, name);
    EndsInName(s + Separator(s), name);
    EndsInName(directory + Separator(directory), name);
  }

  /** A directory that begins with `UNC\` comes back as a server. */
  lemma ServerIsElsewhere(directory: Wide, name: Wide)
    requires Paths.Plain(name) && Paths.StartsWith(directory, Paths.UNC)
    ensures !Paths.SamePath(Paths.Join(Paths.StripExtendedPrefix(Paths.EXTENDED + directory), name), Paths.Join(directory, name))
  {
    hide Paths.Join, Paths.Canonical, Paths.NeedsSeparator, Paths.StripExtendedPrefix;
    Paths.StripUndoesExtending(directory);
    SameName(Paths.StripExtendedPrefix(Paths.EXTENDED + directory), directory, name);
    var p := Paths.Join(directory, name);
    assert p[0] == directory[0] == Paths.UNC[0];
    assert p[0] != Paths.EXTENDED[0] && p[0] != Paths.EXTENDED_UNC[0];
  }

  /** What a directory with the prefix leads to without it. The target is compared without its prefix too, so this is the
      same file, unless the rest is a bare drive or server word, or another prefix. */
  predicate SparesThePrefix(directory: Wide, name: Wide)
    requires Paths.StartsWith(directory, Paths.EXTENDED)
  {
    var rest := directory[4..];
    && !(|rest| == 2 && Paths.HasDrive(rest)) && rest != Paths.UNC[..3]
    && !Paths.StartsWith(Paths.Join(Paths.StripExtendedPrefix(directory), name), Paths.EXTENDED)
  }

  /** A separator is needed exactly after what does not end in one, except a bare drive and nothing at all. */
  lemma SeparatorAfter(p: Wide)
    ensures Paths.NeedsSeparator(p) <==> p != [] && !Paths.Slash(p[|p| - 1]) && !(|p| == 2 && Paths.HasDrive(p))
  {
  }

  lemma FrontEndsInSlash(p: Wide)
    ensures var front := p + Separator(p); |front| > 2 ==> Paths.Slash(front[|front| - 1])
  {
    hide Paths.NeedsSeparator;
    SeparatorAfter(p);
  }

  lemma SeparatorOfExtended(directory: Wide)
    requires Paths.StartsWith(directory, Paths.EXTENDED)
    ensures var s := Paths.StripExtendedPrefix(directory);
            Separator(s) == if |s| == 2 && Paths.HasDrive(s) then [] else Separator(directory)
    ensures |directory| == 6 && Paths.HasDrive(directory[4..]) ==> Separator(directory) == [Paths.BACKSLASH]
  {
    hide Paths.NeedsSeparator;
    var s := Paths.StripExtendedPrefix(directory);
    SeparatorAfter(s);
    SeparatorAfter(directory);
    assert directory[1] == Paths.EXTENDED[1] && directory[3] == Paths.EXTENDED[3];
    if Paths.StartsWith(directory, Paths.EXTENDED_UNC) {
      assert directory[7] == Paths.EXTENDED_UNC[7] == Paths.BACKSLASH;
    }
  }

  /** Taking the prefix off the target gives the written directory with the name, but for two short cases. */
  lemma StripOfTarget(directory: Wide, name: Wide)
    requires Paths.StartsWith(directory, Paths.EXTENDED) && Paths.Plain(name)
    ensures var target, rest := directory + Separator(directory) + name, directory[4..];
            && Paths.StartsWith(target, Paths.EXTENDED)
            && (rest == Paths.UNC[..3] ==> Cut(target) == 6)
            && (rest != Paths.UNC[..3] ==>
                  Paths.StripExtendedPrefix(target) == Paths.StripExtendedPrefix(directory) + Separator(directory) + name)
  {
    hide Paths.NeedsSeparator;
    SeparatorAfter(directory);
    var middle := Separator(directory);
    var target, rest := directory + middle + name, directory[4..];
    assert directory == Paths.EXTENDED + rest;
    assert target == Paths.EXTENDED + (rest + middle + name);
    assert target == directory + (middle + name);
    UncBegins(rest, middle, name);
    PrefixOfUnc(rest + middle + name);
    PrefixOfUnc(rest);
    if Paths.StartsWith(directory, Paths.EXTENDED_UNC) {
      assert target[8..] == directory[8..] + middle + name;
    } else if rest != Paths.UNC[..3] {
      assert target[4..] == rest + middle + name;
    }
  }

  lemma PrefixOfUnc(rest: Wide)
    ensures Paths.StartsWith(Paths.EXTENDED + rest, Paths.EXTENDED_UNC) <==> Paths.StartsWith(rest, Paths.UNC)
  {
    assert Paths.EXTENDED_UNC == Paths.EXTENDED + Paths.UNC;
    assert (Paths.EXTENDED + rest)[4..] == rest;
  }

  lemma UncBegins(rest: Wide, middle: Wide, name: Wide)
    requires SlashFree(name) && name != [] && |middle| <= 1 && (middle == [Paths.BACKSLASH] || middle == [])
    requires rest == Paths.UNC[..3] ==> middle == [Paths.BACKSLASH]
    ensures Paths.StartsWith(rest + middle + name, Paths.UNC) <==> Paths.StartsWith(rest, Paths.UNC) || rest == Paths.UNC[..3]
  {
    var p := rest + middle + name;
    assert forall k | 0 <= k < |rest| :: p[k] == rest[k];
    assert Paths.UNC[3] == Paths.BACKSLASH;
    if Paths.StartsWith(p, Paths.UNC) && |rest| < 4 {
      assert p[..4] == Paths.UNC;
      assert p[3] == Paths.BACKSLASH;
    }
  }

  lemma NoPrefixAfter(front: Wide, name: Wide)
    requires |front| >= 2 && (front[0] != Paths.BACKSLASH || front[1] != Paths.BACKSLASH)
    ensures Cut(front + name) == 0
  {
    var p := front + name;
    assert p[0] == front[0] && p[1] == front[1];
    assert Paths.EXTENDED_UNC[1] == Paths.BACKSLASH;
  }

  lemma ShortRests(directory: Wide)
    requires Paths.StartsWith(directory, Paths.EXTENDED)
    requires var rest := directory[4..]; rest == Paths.UNC[..3] || (|rest| == 2 && Paths.HasDrive(rest))
    ensures Paths.StripExtendedPrefix(directory) == directory[4..]
    ensures directory[4] != Paths.BACKSLASH && |directory| >= 6 && Separator(directory) == [Paths.BACKSLASH]
  {
    hide Paths.NeedsSeparator;
    SeparatorAfter(directory);
    assert directory[|directory| - 1] == directory[4..][|directory| - 5];
    assert directory == Paths.EXTENDED + directory[4..];
    PrefixOfUnc(directory[4..]);
  }

  lemma ShortRestIsElsewhere(directory: Wide, name: Wide)
    requires Paths.StartsWith(directory, Paths.EXTENDED) && Paths.Plain(name)
    requires var rest := directory[4..]; rest == Paths.UNC[..3] || (|rest| == 2 && Paths.HasDrive(rest))
    ensures !Paths.SamePath(Paths.Join(Paths.StripExtendedPrefix(directory), name), Paths.Join(directory, name))
  {
    hide Paths.Join, Paths.Canonical, Paths.NeedsSeparator, Paths.StripExtendedPrefix, Separator, Cut;
    var s := Paths.StripExtendedPrefix(directory);
    ShortRests(directory);
    SameName(s, directory, name);
    StripOfTarget(directory, name);
    SeparatorOfExtended(directory);
    NoPrefixAfter(s, Separator(s) + name);
    assert s + Separator(s) + name == s + (Separator(s) + name);
    StripCuts(Paths.Join(directory, name));
  }

  /** A directory with the prefix that comes back without it. */
  lemma ExtendedLands(directory: Wide, name: Wide)
    requires Paths.StartsWith(directory, Paths.EXTENDED) && Paths.Plain(name)
    ensures Paths.SamePath(Paths.Join(Paths.StripExtendedPrefix(directory), name), Paths.Join(directory, name)) <==>
            SparesThePrefix(directory, name)
  {
    var rest := directory[4..];
    if rest == Paths.UNC[..3] || (|rest| == 2 && Paths.HasDrive(rest)) {
      ShortRestIsElsewhere(directory, name);
    } else {
      LongRestLands(directory, name);
    }
  }

  lemma LongRestLands(directory: Wide, name: Wide)
    requires Paths.StartsWith(directory, Paths.EXTENDED) && Paths.Plain(name)
    requires directory[4..] != Paths.UNC[..3]
    requires !(|directory[4..]| == 2 && Paths.HasDrive(directory[4..]))
    ensures var found := Paths.Join(Paths.StripExtendedPrefix(directory), name);
            Paths.SamePath(found, Paths.Join(directory, name)) <==> !Paths.StartsWith(found, Paths.EXTENDED)
  {
    hide Paths.Join, Paths.Canonical, Paths.NeedsSeparator, Paths.StripExtendedPrefix, Paths.FoldAll, Separator;
    var s := Paths.StripExtendedPrefix(directory);
    var found, target := Paths.Join(s, name), Paths.Join(directory, name);
    SameName(s, directory, name);
    StripOfTarget(directory, name);
    RestHasNoDrive(directory);
    SeparatorOfExtended(directory);
    StripCuts(found);
    EndsInName(s + Separator(s), name);
    EndsInName(directory + Separator(directory), name);
    assert found == Paths.StripExtendedPrefix(target);
  }

  lemma RestHasNoDrive(directory: Wide)
    requires Paths.StartsWith(directory, Paths.EXTENDED)
    requires !(|directory[4..]| == 2 && Paths.HasDrive(directory[4..]))
    ensures var s := Paths.StripExtendedPrefix(directory); !(|s| == 2 && Paths.HasDrive(s))
  {
  }

  /** To two bare separators a name is added as a server. */
  lemma BareServerLands(directory: Wide, name: Wide)
    requires Paths.BareServer(directory) && Paths.Plain(name)
    ensures Paths.SamePath(Paths.Join(directory, Distro.DEFAULT_VHD_NAME), Paths.Join(directory, name)) <==>
            Paths.FoldAll(name) == Distro.DEFAULT_VHD_NAME
  {
    hide Paths.Join, Paths.Canonical, Paths.FoldAll;
    ServerIsItself(directory, Distro.DEFAULT_VHD_NAME);
    ServerIsItself(directory, name);
    FoldOfSum(directory, Distro.DEFAULT_VHD_NAME);
    FoldOfSum(directory, name);
    DefaultIsFolded();
    SameTail(Paths.FoldAll(directory), Paths.FoldAll(Distro.DEFAULT_VHD_NAME), Paths.FoldAll(name));
  }

  lemma SameTail(front: Wide, a: Wide, b: Wide)
    ensures front + a == front + b <==> a == b
  {
    assert (front + a)[|front|..] == a && (front + b)[|front|..] == b;
  }

  lemma DefaultIsFolded()
    ensures Paths.FoldAll(Distro.DEFAULT_VHD_NAME) == Distro.DEFAULT_VHD_NAME
  {
  }

  lemma ServerIsItself(directory: Wide, name: Wide)
    requires Paths.BareServer(directory) && Paths.Plain(name)
    ensures Paths.Canonical(Paths.Join(directory, name)) == Paths.FoldAll(directory + name)
  {
    hide Paths.Join, Paths.Canonical, Paths.FoldAll;
    Paths.ServerHasNoFilename(directory, name);
    EndsInName(directory, name);
    var p := directory + name;
    assert forall k | 0 <= k < |name| :: p[2 + k] == name[k];
    assert Paths.EXTENDED[3] == Paths.EXTENDED_UNC[3] == Paths.BACKSLASH;
    StripCuts(p);
  }

  lemma NothingJoined(directory: Wide)
    ensures Paths.Join(directory, []) == directory + Separator(directory)
    ensures |Paths.Canonical(Paths.Join(directory, []))| <= |directory|
    ensures |Paths.Canonical(Paths.Join(directory, []))| <= |directory| + 1 - Cut(directory)
  {
    hide Paths.NeedsSeparator, Paths.Canonical;
    var p := directory + Separator(directory);
    assert p + [] == p;
    SeparatorAfter(directory);
    CanonicalIsShort(p);
    LongerIsCut(directory, Separator(directory));
    if Separator(directory) != [] && Cut(p) == 0 {
      LastIsTrimmed(directory);
    }
  }

  lemma LongerIsCut(p: Wide, more: Wide)
    ensures Cut(p + more) >= Cut(p)
  {
    assert p <= p + more;
  }

  lemma LastIsTrimmed(directory: Wide)
    requires directory != [] && Cut(directory + [Paths.BACKSLASH]) == 0
    ensures |Paths.Canonical(directory + [Paths.BACKSLASH])| <= |directory|
  {
    var p := directory + [Paths.BACKSLASH];
    StripCuts(p);
    assert p[..|p| - 1] == directory;
  }

  /** A path with a name is longer than the directory it is in. */
  lemma NamedIsLonger(s: Wide)
    ensures |Paths.Canonical(Paths.Join(s, Distro.DEFAULT_VHD_NAME))| >= |s| + 3
  {
    hide Paths.Join, Paths.Canonical, Paths.NeedsSeparator;
    SameName(s, s, Distro.DEFAULT_VHD_NAME);
  }

  /** A disk without a file name. */
  lemma NamelessIsElsewhere(basePath: Wide, directory: Wide)
    ensures var s := Paths.StripExtendedPrefix(InFormOf(basePath, directory));
            !Paths.SamePath(Paths.Join(s, Distro.DEFAULT_VHD_NAME), Paths.Join(directory, []))
  {
    hide Paths.Join, Paths.Canonical, Paths.StripExtendedPrefix;
    NamedIsLonger(Paths.StripExtendedPrefix(InFormOf(basePath, directory)));
    NothingJoined(directory);
    if Paths.StartsWith(basePath, Paths.EXTENDED) {
      Paths.StripUndoesExtending(directory);
    } else {
      StripCuts(directory);
    }
  }

  // ---- A file name that begins with a drive ------------------------------------------------------------

  predicate SameDrive(directory: Wide, name: Wide) {
    Paths.HasDrive(directory) && Paths.HasDrive(name) && directory[..2] == name[..2]
  }

  /** Joined to a directory on its own drive, such a name loses the drive; anywhere else it replaces the directory. */
  lemma JoinOfDriveName(directory: Wide, name: Wide)
    requires Paths.HasDrive(name) && SlashFree(name)
    ensures Paths.Join(directory, name) ==
            if SameDrive(directory, name) then directory + Separator(directory) + name[2..] else name
  {
    var b := Paths.RootName(directory);
    assert directory[..b] == name[..2] ==> b == 2 && directory[0] == directory[..b][0] && directory[1] == directory[..b][1];
  }

  lemma FilenameOfDriveName(directory: Wide, name: Wide)
    requires Paths.HasDrive(name) && SlashFree(name)
    ensures Paths.Filename(Paths.Join(directory, name)) == name[2..]
  {
    hide Paths.Join, Paths.NeedsSeparator, Paths.Filename;
    JoinOfDriveName(directory, name);
    var front := if SameDrive(directory, name) then directory + Separator(directory) else name[..2];
    assert front + name[2..] == Paths.Join(directory, name);
    FrontOfDrive(directory, name, front);
    AfterDrive(front, name[2..]);
  }

  lemma AfterDrive(front: Wide, rest: Wide)
    requires Paths.HasDrive(front) && (|front| > 2 ==> Paths.Slash(front[|front| - 1])) && SlashFree(rest)
    ensures Paths.Filename(front + rest) == rest
  {
    hide Paths.RootName;
    var p := front + rest;
    Paths.DriveIsRoot(front, rest);
    assert forall k | |front| <= k < |p| :: p[k] == rest[k - |front|];
    assert p[|front| - 1] == front[|front| - 1];
    Paths.LastComponentIs(p, |p|, |front|);
    assert p[|front|..] == rest;
  }

  lemma FrontOfDrive(directory: Wide, name: Wide, front: Wide)
    requires Paths.HasDrive(name)
    requires front == if SameDrive(directory, name) then directory + Separator(directory) else name[..2]
    ensures Paths.HasDrive(front) && (|front| > 2 ==> Paths.Slash(front[|front| - 1]))
  {
    hide Paths.NeedsSeparator;
    SeparatorAfter(directory);
  }

  /** What the entry is read with after a target with such a name: what follows the drive. */
  function RestRead(name: Wide): Wide
    requires Paths.HasDrive(name)
  {
    if name[2..] == [] then Distro.DEFAULT_VHD_NAME else name[2..]
  }

  /** A path that begins with a drive has no prefix, and one that ends in a name is only folded. */
  lemma DriveIsFolded(p: Wide)
    requires Paths.HasDrive(p)
    ensures Cut(p) == 0 && Paths.Canonical(p) == Paths.FoldAll(Paths.TrimSlashes(p)) && |Paths.Canonical(p)| <= |p|
    ensures !Paths.Slash(p[|p| - 1]) ==> Paths.Canonical(p) == Paths.FoldAll(p)
  {
    hide Paths.FoldAll;
    assert Paths.EXTENDED[1] != Paths.COLON && Paths.EXTENDED_UNC[1] != Paths.COLON;
    StripCuts(p);
  }

  lemma OnItsOwnDrive(directory: Wide, name: Wide)
    requires SameDrive(directory, name) && SlashFree(name)
    ensures var found, target := Paths.Join(directory, RestRead(name)), Paths.Join(directory, name);
            && (Paths.SamePath(found, target) <==> Paths.Plain(name[2..]))
            && (found == target <==> Paths.Plain(name[2..]))
  {
    hide Paths.Join, Paths.Canonical, Paths.NeedsSeparator;
    var rest := name[2..];
    JoinOfDriveName(directory, name);
    if Paths.Plain(rest) {
      Paths.JoinOfPlain(directory, rest);
    } else if rest == [] {
      NamedIsLonger(directory);
      CanonicalIsShort(Paths.Join(directory, name));
    } else {
      DriveInside(directory, rest);
    }
  }

  lemma DriveInside(directory: Wide, rest: Wide)
    requires Paths.HasDrive(directory) && Paths.HasDrive(rest) && SlashFree(rest)
    ensures |Paths.Canonical(Paths.Join(directory, rest))| < |Paths.Canonical(directory + Separator(directory) + rest)|
  {
    hide Paths.Join, Paths.Canonical, Paths.NeedsSeparator;
    JoinOfDriveName(directory, rest);
    CanonicalIsShort(Paths.Join(directory, rest));
    EndsInName(directory + Separator(directory), rest);
    DriveInFront(directory, Separator(directory) + rest);
    assert directory + Separator(directory) + rest == directory + (Separator(directory) + rest);
  }

  lemma DriveInFront(front: Wide, rest: Wide)
    requires Paths.HasDrive(front)
    ensures Paths.HasDrive(front + rest) && Cut(front + rest) == 0
  {
    var p := front + rest;
    assert p[0] == front[0] && p[1] == front[1];
    DriveIsFolded(p);
  }

  /** Where the name replaces the directory, what is written leads to it only from a bare drive, up to case. One more
      name is a path to itself: two drives and nothing else. */
  predicate LeadsToDriveName(written: Wide, name: Wide)
    requires Paths.HasDrive(name)
  {
    var rest := name[2..];
    if Paths.Plain(rest) then |written| == 2 && Paths.FoldAll(written) == Paths.FoldAll(name[..2])
    else |rest| == 2 && SameDrive(written, rest) && Paths.FoldAll(Paths.TrimSlashes(written)) == Paths.FoldAll(name)
  }

  lemma OnAnotherDrive(written: Wide, name: Wide)
    requires Paths.HasDrive(name) && SlashFree(name)
    ensures var found := Paths.Join(written, RestRead(name));
            && (Paths.SamePath(found, name) <==> LeadsToDriveName(written, name))
            && (found == name <==> Paths.Plain(name[2..]) && written == name[..2])
  {
    var rest := name[2..];
    if Paths.Plain(rest) {
      PlainAfterDrive(written, name);
    } else if rest == [] {
      hide Paths.Join, Paths.Canonical;
      NamedIsLonger(written);
      CanonicalIsShort(name);
    } else {
      DriveAfterDrive(written, name);
    }
  }

  lemma FoldsToDrive(a: Wide, name: Wide)
    requires |a| == 2 && Paths.HasDrive(name) && Paths.FoldAll(a) == Paths.FoldAll(name[..2])
    ensures Paths.HasDrive(a)
  {
    assert Paths.Folded(a[0]) == Paths.FoldAll(a)[0] == Paths.FoldAll(name[..2])[0] == Paths.Folded(name[0]);
    assert Paths.Folded(a[1]) == Paths.FoldAll(a)[1] == Paths.FoldAll(name[..2])[1] == Paths.Folded(name[1]);
  }

  /** A prefix and a drive would need a separator, and a server begins with one. */
  lemma PrefixedIsNoDrive(written: Wide, name: Wide, rest: Wide)
    requires Paths.HasDrive(name) && SlashFree(rest) && rest != []
    requires var found := written + Separator(written) + rest;
             Cut(found) != 0 && |written + Separator(written)| - Cut(found) == 2
    ensures var found := written + Separator(written) + rest;
            Paths.FoldAll(Paths.StripExtendedPrefix(found)) != Paths.FoldAll(name[..2] + rest)
  {
    hide Paths.NeedsSeparator, Paths.FoldAll;
    var front := written + Separator(written);
    var stripped := Paths.StripExtendedPrefix(front + rest);
    FrontEndsInSlash(written);
    assert (name[..2] + rest)[0] == name[0] && (name[..2] + rest)[1] == name[1];
    if Cut(front + rest) == 4 {
      assert stripped[1] == front[5];
      FoldsDiffer(stripped, name[..2] + rest, 1);
    } else {
      FoldsDiffer(stripped, name[..2] + rest, 0);
    }
  }

  lemma FoldsDiffer(a: Wide, b: Wide, k: nat)
    requires k < |a| && k < |b| && Paths.Folded(a[k]) != Paths.Folded(b[k])
    ensures Paths.FoldAll(a) != Paths.FoldAll(b)
  {
    assert Paths.FoldAll(a)[k] != Paths.FoldAll(b)[k];
  }

  lemma PlainAfterDrive(written: Wide, name: Wide)
    requires Paths.HasDrive(name) && Paths.Plain(name[2..])
    ensures var found := Paths.Join(written, name[2..]);
            && (Paths.SamePath(found, name) <==> |written| == 2 && Paths.FoldAll(written) == Paths.FoldAll(name[..2]))
            && (found == name <==> written == name[..2])
  {
    hide Paths.Join, Paths.Canonical, Paths.NeedsSeparator, Paths.FoldAll, Paths.StripExtendedPrefix, Cut;
    var rest := name[2..];
    var front := written + Separator(written);
    Paths.JoinOfPlain(written, rest);
    assert name == name[..2] + rest;
    assert name[|name| - 1] == rest[|rest| - 1];
    EndsInName(front, rest);
    DriveIsFolded(name);
    SeparatorAfter(written);
    StripCuts(front + rest);
    if |written| == 2 && Paths.FoldAll(written) == Paths.FoldAll(name[..2]) {
      FoldsToDrive(written, name);
      assert front == written;
      DriveInFront(written, rest);
      FoldsAlike(written, name[..2], rest);
    } else if Cut(front + rest) == 0 && |front| == 2 {
      FoldsAlike(front, name[..2], rest);
      if Paths.FoldAll(front) == Paths.FoldAll(name[..2]) {
        FoldsToDrive(front, name);
      }
    } else if |front| - Cut(front + rest) == 2 {
      PrefixedIsNoDrive(written, name, rest);
    }
  }

  lemma DriveAfterDrive(written: Wide, name: Wide)
    requires Paths.HasDrive(name) && SlashFree(name) && Paths.HasDrive(name[2..])
    ensures var found := Paths.Join(written, name[2..]);
            && (Paths.SamePath(found, name) <==> LeadsToDriveName(written, name))
            && found != name
  {
    hide Paths.Join, Paths.Canonical, Paths.NeedsSeparator, Paths.FoldAll, Paths.TrimSlashes;
    var rest := name[2..];
    assert name[3] == rest[1] == Paths.COLON;
    JoinOfDriveName(written, rest);
    DriveIsFolded(name);
    DriveIsFolded(rest);
    assert name[|name| - 1] == rest[|rest| - 1];
    if SameDrive(written, rest) {
      var front := written + Separator(written);
      DriveInFront(written, Separator(written));
      SeparatorAfter(written);
      if |rest| == 2 {
        assert front + rest[2..] == front;
        DriveIsFolded(front);
        TrimAfterSeparator(written);
      } else {
        assert rest[2..] == name[4..];
        NoFourthColon(written, name);
      }
    }
  }

  lemma NoFourthColon(written: Wide, name: Wide)
    requires Paths.HasDrive(name) && Paths.HasDrive(written)
    requires |name| > 4 && name[3] == Paths.COLON && SlashFree(name[4..])
    ensures var found := written + Separator(written) + name[4..]; found != name && !Paths.SamePath(found, name)
  {
    hide Paths.Canonical, Paths.NeedsSeparator, Paths.FoldAll, Paths.TrimSlashes;
    var front, tail := written + Separator(written), name[4..];
    var found := front + tail;
    FrontEndsInSlash(written);
    assert found == written + (Separator(written) + tail);
    DriveInFront(written, Separator(written) + tail);
    EndsInName(front, tail);
    assert name == name[..4] + tail;
    EndsInName(name[..4], tail);
    DriveIsFolded(name);
    StripCuts(found);
    StripCuts(name);
    if |front| == 4 {
      assert found[3] == front[3];
      FoldsDiffer(found, name, 3);
    }
  }

  lemma TrimAfterSeparator(written: Wide)
    requires Paths.HasDrive(written)
    ensures Paths.TrimSlashes(written + Separator(written)) == Paths.TrimSlashes(written)
    ensures var front := written + Separator(written); |front| == 4 ==> front[3] != Paths.COLON
  {
    hide Paths.NeedsSeparator;
    FrontEndsInSlash(written);
    var p := written + Separator(written);
    if Separator(written) != [] {
      assert p[..|p| - 1] == written;
    } else {
      assert p == written;
    }
  }
}
