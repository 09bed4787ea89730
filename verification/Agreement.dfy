/** Whether a rewritten entry leads back to the disk: what the move and the relink write, read by the enumeration
    (src/lib/ops/move.cpp and src/lib/ops/relink.cpp, with src/lib/model/distro.cpp). */
module Agreement {
  import opened Results
  import opened Units
  import Distro
  import opened Landing
  import opened Machine
  import Move
  import opened Operations
  import Paths
  import Relink
  import opened Repointing
  import Text

  lemma JoinTellsApart(a: Path, b: Path, name: Path)
    requires Paths.Plain(name) && |a| <= |b| - 2
    ensures Paths.Join(a, name) != Paths.Join(b, name)
  {
    hide Paths.Join, Paths.NeedsSeparator;
    Paths.JoinOfPlain(a, name);
    Paths.JoinOfPlain(b, name);
  }

  /** A directory written in the entry's form leads to `name` inside it exactly when the prefix survives. */
  lemma LeadsToName(basePath: Wide, directory: Path, name: Path)
    requires Paths.Plain(name)
    ensures Paths.Join(Paths.StripExtendedPrefix(InFormOf(basePath, directory)), name) == Paths.Join(directory, name) <==>
            PrefixSurvives(basePath, directory)
  {
    hide Paths.Join, Paths.StripExtendedPrefix, InFormOf, PrefixSurvives;
    StrippedIsDirectory(basePath, directory);
    var stripped := Paths.StripExtendedPrefix(InFormOf(basePath, directory));
    if stripped != directory {
      JoinTellsApart(stripped, directory, name);
    }
  }

  /** Once both values are new, the entry is the one that was there with these two values rewritten. */
  lemma EntryAfterRewrite(hive: Distro.Hive, guid: Wide, entry: Entry, w0: World, w: World)
    requires Distro.EntryFor(hive, guid).Usable? && w0.values == hive.strings && entry.key == Distro.KeyOf(guid)
    requires entry.oldFile == Distro.EntryFor(hive, guid).distro.vhdFileName
    requires entry.OthersStay(w0, w) && entry.IsNew(w0, w)
    ensures var before := Distro.EntryFor(hive, guid).distro;
            var file := if entry.oldFile == [] then [] else entry.newFile;
            var after := Distro.EntryFor(hive.(strings := w.values), guid);
            && (after.Usable? <==> entry.newBase != [])
            && (after.Usable? ==>
                  after.distro == before.(basePath := entry.newBase, vhdFileName := file,
                                          vhdxPath := Distro.VhdxPathFor(entry.newBase, file)))
    ensures forall other | other != guid ::
              Distro.EntryFor(hive.(strings := w.values), other) == Distro.EntryFor(hive, other)
  {
    hide Distro.EntryFor, Distro.KeyOf, Distro.VhdxPathFor, Distro.Repointed;
    var file := if entry.oldFile == [] then None else Some(entry.newFile);
    RewriteIsRepointing(hive, entry, w0, w, file);
    if entry.newBase == [] {
      Distro.RepointedToNothing(hive, guid, file);
    } else {
      Distro.RepointedEntry(hive, guid, entry.newBase, file);
    }
    forall other | other != guid
      ensures Distro.EntryFor(hive.(strings := w.values), other) == Distro.EntryFor(hive, other)
    {
      Distro.OtherEntries(hive, guid, entry.newBase, file, other);
    }
  }

  lemma RewriteIsRepointing(hive: Distro.Hive, entry: Entry, w0: World, w: World, file: Option<Wide>)
    requires w0.values == hive.strings && entry.OthersStay(w0, w) && entry.IsNew(w0, w)
    requires file == if entry.oldFile == [] then None else Some(entry.newFile)
    ensures hive.(strings := w.values) == Distro.Repointed(hive, entry.key, entry.newBase, file)
  {
    var repointed := Distro.Repointed(hive, entry.key, entry.newBase, file).strings;
    forall slot
      ensures (slot in w.values <==> slot in repointed) && (slot in w.values ==> w.values[slot] == repointed[slot])
    {
      assert slot != entry.Base() && slot != entry.File() ==> Agree(w, w0, Value(slot));
    }
    assert w.values == repointed;
  }

  /** A disk without a VhdFileName is called `ext4.vhdx`, or has no file name at all. */
  lemma LegacyName(basePath: Wide)
    ensures Paths.Filename(Distro.VhdxPathFor(basePath, [])) in {[], Distro.DEFAULT_VHD_NAME}
  {
    var stripped := Paths.StripExtendedPrefix(basePath);
    if Paths.BareServer(stripped) {
      Paths.ServerHasNoFilename(stripped, Distro.DEFAULT_VHD_NAME);
    } else {
      Paths.FilenameOfJoin(stripped, Distro.DEFAULT_VHD_NAME);
    }
  }

  /** What is left of nothing but a written directory. */
  lemma NothingIsWritten(basePath: Wide, directory: Path)
    ensures InFormOf(basePath, directory) == [] <==> directory == [] && !Paths.StartsWith(basePath, Paths.EXTENDED)
  {
  }

  /** What the enumeration returns is what the registry says, so an operation may start from it. */
  lemma EnumeratedIsRegistered(hive: Distro.Hive, guid: Wide, newBase: Wide, newFile: Wide, w: World)
    requires Distro.EntryFor(hive, guid).Usable? && Text.WellFormed16(guid) && w.values == hive.strings
    ensures var d := Distro.EntryFor(hive, guid).distro;
            Entry(Distro.RegistryKeyFor(d), d.basePath, newBase, d.vhdFileName, newFile).Registered(w)
  {
    Distro.KeyOfEntry(hive, guid);
  }

  /** The file name that an entry will be read with. */
  function NameRead(oldFile: Wide, newFile: Wide): Wide {
    if oldFile == [] || newFile == [] then Distro.DEFAULT_VHD_NAME else newFile
  }

  // ---- Move ------------------------------------------------------------------------------------

  /** A move leads back. When the disk's file name does not begin with a drive: the prefix survives, there is a name, and
      if the destination is two bare separators, to which no file name can be added, it is the one that an entry without
      any is read with. When it does: what follows the drive is a name, and the disk goes to a directory on that drive, or
      what is written comes back as the bare drive. */
  predicate MoveLeadsBack(basePath: Wide, destination: Path, name: Path) {
    if Paths.HasDrive(name) then
      && Paths.Plain(name[2..])
      && (SameDrive(destination, name) || Paths.StripExtendedPrefix(InFormOf(basePath, destination)) == name[..2])
    else
      && PrefixSurvives(basePath, destination) && name != []
      && (Paths.BareServer(destination) ==> name == Distro.DEFAULT_VHD_NAME)
  }

  lemma ServerLeadsBack(basePath: Wide, destination: Path, name: Path)
    requires Paths.BareServer(destination) && Paths.Plain(name)
    ensures Paths.Filename(Paths.Join(destination, name)) == [] && PrefixSurvives(basePath, destination)
    ensures (Paths.Join(Paths.StripExtendedPrefix(InFormOf(basePath, destination)), Distro.DEFAULT_VHD_NAME) ==
             Paths.Join(destination, name)) <==> name == Distro.DEFAULT_VHD_NAME
  {
    StrippedIsDirectory(basePath, destination);
    hide Paths.Join, Paths.StripExtendedPrefix, Paths.Filename, Paths.ParentPath, InFormOf;
    Paths.ServerHasNoFilename(destination, name);
    Paths.ServerHasNoFilename(destination, Distro.DEFAULT_VHD_NAME);
    assert (destination + name)[2..] == name;
    assert (destination + Distro.DEFAULT_VHD_NAME)[2..] == Distro.DEFAULT_VHD_NAME;
  }

  /** The path that a move writes is the target exactly when it leads back. */
  lemma WrittenPathIsTarget(op: Move.MoveOperation)
    requires op.distro.vhdxPath == Distro.VhdxPathFor(op.distro.basePath, op.distro.vhdFileName)
    requires op.target == Paths.Join(op.destination, Paths.Filename(op.distro.vhdxPath))
    ensures FoundPath(op) == op.target <==>
            MoveLeadsBack(op.distro.basePath, op.destination, Paths.Filename(op.distro.vhdxPath))
  {
    var name := Paths.Filename(op.distro.vhdxPath);
    Paths.FilenameHasNoSlash(op.distro.vhdxPath);
    hide Paths.Join, Paths.StripExtendedPrefix, Paths.Filename, Paths.Plain, Paths.BareServer, PrefixSurvives, InFormOf;
    hide Paths.HasDrive, SameDrive;
    if op.distro.vhdFileName == [] {
      LegacyName(op.distro.basePath);
    }
    if Paths.HasDrive(name) {
      DriveNameIsRead(op);
      DriveNameLands(op.distro.basePath, op.destination, name);
    } else if name == [] {
      NamelessIsElsewhere(op.distro.basePath, op.destination);
      Paths.JoinOfNothing(op.destination);
    } else if Paths.BareServer(op.destination) {
      ServerLeadsBack(op.distro.basePath, op.destination, name);
    } else {
      Paths.FilenameOfJoin(op.destination, name);
      LeadsToName(op.distro.basePath, op.destination, name);
    }
  }

  /** Where the entry that a move writes says the disk is. */
  function FoundPath(op: Move.MoveOperation): Path {
    var entry := op.Job().entry;
    Distro.VhdxPathFor(entry.newBase, if entry.oldFile == [] then [] else entry.newFile)
  }

  lemma DriveNameIsRead(op: Move.MoveOperation)
    requires op.distro.vhdxPath == Distro.VhdxPathFor(op.distro.basePath, op.distro.vhdFileName)
    requires op.target == Paths.Join(op.destination, Paths.Filename(op.distro.vhdxPath))
    requires Paths.HasDrive(Paths.Filename(op.distro.vhdxPath))
    ensures FoundPath(op) == Paths.Join(Paths.StripExtendedPrefix(InFormOf(op.distro.basePath, op.destination)),
                                        RestRead(Paths.Filename(op.distro.vhdxPath)))
  {
    var name := Paths.Filename(op.distro.vhdxPath);
    Paths.FilenameHasNoSlash(op.distro.vhdxPath);
    hide Paths.Join, Paths.StripExtendedPrefix, Paths.Filename;
    LegacyName(op.distro.basePath);
    assert Distro.DEFAULT_VHD_NAME[1] != Paths.COLON;
    FilenameOfDriveName(op.destination, name);
  }

  /** What is written for a name with a drive leads to the target exactly as it should, by its text and by its file. */
  lemma DriveNameLands(basePath: Wide, destination: Path, name: Path)
    requires Paths.HasDrive(name) && SlashFree(name)
    ensures var written := Paths.StripExtendedPrefix(InFormOf(basePath, destination));
            var found, target := Paths.Join(written, RestRead(name)), Paths.Join(destination, name);
            && (found == target <==> MoveLeadsBack(basePath, destination, name))
            && (Paths.SamePath(found, target) <==> MoveLeadsToFile(basePath, destination, name))
  {
    hide Paths.Join, Paths.StripExtendedPrefix, Paths.Canonical, LeadsToDriveName;
    var written := Paths.StripExtendedPrefix(InFormOf(basePath, destination));
    JoinOfDriveName(destination, name);
    if SameDrive(destination, name) {
      DriveSurvives(basePath, destination);
      StrippedIsDirectory(basePath, destination);
      OnItsOwnDrive(destination, name);
    } else {
      OnAnotherDrive(written, name);
    }
  }

  lemma DriveSurvives(basePath: Wide, directory: Path)
    requires Paths.HasDrive(directory)
    ensures PrefixSurvives(basePath, directory)
  {
    assert Paths.UNC[1] != Paths.COLON && Paths.EXTENDED[1] != Paths.COLON;
  }

  /** A move leads to the file that is the target, perhaps under another spelling: the canonical form has no prefix and no
      case. */
  predicate MoveLeadsToFile(basePath: Wide, destination: Path, name: Path) {
    if Paths.HasDrive(name) then
      if SameDrive(destination, name) then Paths.Plain(name[2..])
      else LeadsToDriveName(Paths.StripExtendedPrefix(InFormOf(basePath, destination)), name)
    else
      && name != []
      && if PrefixSurvives(basePath, destination) then
           Paths.BareServer(destination) ==> Paths.FoldAll(name) == Distro.DEFAULT_VHD_NAME
         else
           !Paths.StartsWith(basePath, Paths.EXTENDED) && SparesThePrefix(destination, name)
  }

  /** The path that a move writes names the target's file exactly when it leads to that file. */
  lemma WrittenFileIsTarget(op: Move.MoveOperation)
    requires op.distro.vhdxPath == Distro.VhdxPathFor(op.distro.basePath, op.distro.vhdFileName)
    requires op.target == Paths.Join(op.destination, Paths.Filename(op.distro.vhdxPath))
    ensures Paths.SamePath(FoundPath(op), op.target) <==>
            MoveLeadsToFile(op.distro.basePath, op.destination, Paths.Filename(op.distro.vhdxPath))
  {
    var name := Paths.Filename(op.distro.vhdxPath);
    Paths.FilenameHasNoSlash(op.distro.vhdxPath);
    hide Paths.Join, Paths.StripExtendedPrefix, Paths.Filename, Paths.Plain, Paths.BareServer, PrefixSurvives, InFormOf;
    hide Paths.HasDrive, SameDrive, Paths.Canonical, SparesThePrefix, LeadsToDriveName, Paths.StartsWith;
    if op.distro.vhdFileName == [] {
      LegacyName(op.distro.basePath);
    }
    if Paths.HasDrive(name) {
      DriveNameIsRead(op);
      DriveNameLands(op.distro.basePath, op.destination, name);
    } else if name == [] {
      NamelessIsElsewhere(op.distro.basePath, op.destination);
      Paths.JoinOfNothing(op.destination);
    } else if Paths.BareServer(op.destination) {
      ServerLeadsBack(op.distro.basePath, op.destination, name);
      StrippedIsDirectory(op.distro.basePath, op.destination);
      BareServerLands(op.destination, name);
    } else {
      Paths.FilenameOfJoin(op.destination, name);
      PlainNameLands(op.distro.basePath, op.destination, name);
    }
  }

  lemma PlainNameLands(basePath: Wide, directory: Path, name: Path)
    requires Paths.Plain(name)
    ensures Paths.SamePath(Paths.Join(Paths.StripExtendedPrefix(InFormOf(basePath, directory)), name),
                           Paths.Join(directory, name)) <==>
            PrefixSurvives(basePath, directory) ||
            (!Paths.StartsWith(basePath, Paths.EXTENDED) && SparesThePrefix(directory, name))
  {
    hide Paths.Join, Paths.StripExtendedPrefix, Paths.Canonical, SparesThePrefix;
    StrippedIsDirectory(basePath, directory);
    if !PrefixSurvives(basePath, directory) {
      if Paths.StartsWith(basePath, Paths.EXTENDED) {
        ServerIsElsewhere(directory, name);
      } else {
        ExtendedLands(directory, name);
      }
    }
  }

  /** After a move, enumerating the registry again finds the distribution exactly when its entry names a directory, and
      then at exactly the target, whichever prefix form its entry has and with VhdFileName or without, if and only if the
      move leads back; and it finds every other distribution as it was. */
  lemma MovedIsFoundAtTarget(hive: Distro.Hive, guid: Wide, op: Move.MoveOperation, w0: World, w: World, sourceGone: bool)
    requires Distro.EntryFor(hive, guid) == Distro.Usable(op.distro) && Text.WellFormed16(guid) && w0.values == hive.strings
    requires Move.Moved(op.Job(), w0, w, sourceGone)
    requires op.target == Paths.Join(op.destination, Paths.Filename(op.distro.vhdxPath))
    ensures var found, name := Distro.EntryFor(hive.(strings := w.values), guid), Paths.Filename(op.distro.vhdxPath);
            && (found.Usable? <==> op.destination != [] || Paths.StartsWith(op.distro.basePath, Paths.EXTENDED))
            && (found.Usable? ==> found.distro.name == op.distro.name && found.distro.guid == op.distro.guid)
            && (found.Usable? ==>
                  (found.distro.vhdxPath == op.target <==> MoveLeadsBack(op.distro.basePath, op.destination, name)))
    ensures forall other | other != guid ::
              Distro.EntryFor(hive.(strings := w.values), other) == Distro.EntryFor(hive, other)
  {
    EntrySays(hive, guid);
    Distro.KeyOfEntry(hive, guid);
    hide Distro.EntryFor, Distro.KeyOf, Paths.Join, Paths.StripExtendedPrefix, Paths.Filename, Paths.HasDrive, MoveLeadsBack;
    NothingIsWritten(op.distro.basePath, op.destination);
    WrittenPathIsTarget(op);
    EntryAfterRewrite(hive, guid, op.Job().entry, w0, w);
  }

  /** An unprefixed entry moved to a destination that has the prefix is read without it: another path, but the same
      file. */
  lemma PrefixIsLostButNotTheFile()
    ensures var here: Path, there: Path := [0x43, 0x3A, 0x5C, 0x77], Paths.EXTENDED + [0x43, 0x3A, 0x5C, 0x78];
            && !MoveLeadsBack(here, there, Distro.DEFAULT_VHD_NAME)
            && MoveLeadsToFile(here, there, Distro.DEFAULT_VHD_NAME)
            && Paths.StripExtendedPrefix(InFormOf(here, there)) == [0x43, 0x3A, 0x5C, 0x78]
  {
    var here: Path, there: Path := [0x43, 0x3A, 0x5C, 0x77], Paths.EXTENDED + [0x43, 0x3A, 0x5C, 0x78];
    assert here[0] != Paths.EXTENDED[0];
    assert there[4] != Paths.EXTENDED_UNC[4];
    assert Paths.EXTENDED <= there && there[4..] == [0x43, 0x3A, 0x5C, 0x78];
    assert Paths.Join(there[4..], Distro.DEFAULT_VHD_NAME)[0] != Paths.EXTENDED[0];
  }

  /** The smoke test of a move starts the distribution from the target's file, so that the disk still at the source is
      not touched, exactly when the move leads to that file. */
  lemma MoveStartsFromTarget(op: Move.MoveOperation, w0: World, e: Event)
    requires op.Job().entry.Registered(w0) && IsGoodStart(op.Job().entry, w0, e) && Step(e)
    requires op.distro.vhdxPath == Distro.VhdxPathFor(op.distro.basePath, op.distro.vhdFileName)
    requires op.target == Paths.Join(op.destination, Paths.Filename(op.distro.vhdxPath))
    ensures BootFile(e.before, op.Job().entry.key) == op.Job().target <==>
            MoveLeadsToFile(op.distro.basePath, op.destination, Paths.Filename(op.distro.vhdxPath))
    ensures HasDisk(e.before, BootFile(e.before, op.Job().entry.key))
  {
    hide Paths.Join, Paths.StripExtendedPrefix, Paths.Filename, Paths.Canonical, MoveLeadsToFile;
    WrittenFileIsTarget(op);
  }

  /** A move to an empty destination writes an empty BasePath, which is the intended one; the distribution is not found
      any more. */
  lemma EmptyDestinationLosesTheDistribution(
    hive: Distro.Hive, guid: Wide, op: Move.MoveOperation, w0: World, w: World, sourceGone: bool)
    requires Distro.EntryFor(hive, guid) == Distro.Usable(op.distro) && Text.WellFormed16(guid) && w0.values == hive.strings
    requires Move.Moved(op.Job(), w0, w, sourceGone)
    requires op.target == Paths.Join(op.destination, Paths.Filename(op.distro.vhdxPath))
    requires op.destination == [] && !Paths.StartsWith(op.distro.basePath, Paths.EXTENDED)
    ensures op.IntendedBasePath() == [] == TextAt(w, op.Job().entry.Base())
    ensures Distro.EntryFor(hive.(strings := w.values), guid).Unusable?
  {
    hide Distro.EntryFor, Paths.Join, Paths.Filename, MoveLeadsBack;
    MovedIsFoundAtTarget(hive, guid, op, w0, w, sourceGone);
    NothingIsWritten(op.distro.basePath, []);
  }

  // ---- Relink --------------------------------------------------------------------------------

  /** A relink leads back: the prefix survives, the path is its own directory joined with its own file name, and the name
      is the one the entry will be read with. */
  predicate RelinkLeadsBack(basePath: Wide, vhdFileName: Wide, target: Path) {
    var directory, name := Paths.ParentPath(target), Paths.Filename(target);
    && PrefixSurvives(basePath, directory)
    && Paths.Join(directory, name) == target
    && NameRead(vhdFileName, name) == name
  }

  lemma ServerSurvives(basePath: Wide, p: Path)
    requires |p| >= 3 && Paths.Slash(p[0]) && p[2] != Paths.EXTENDED[2]
    ensures PrefixSurvives(basePath, p)
  {
    assert p[0] != Paths.UNC[0];
  }

  /** Another name never leads to the same path. */
  lemma OtherNameIsElsewhere(basePath: Wide, target: Path)
    requires Paths.Filename(target) != Distro.DEFAULT_VHD_NAME
    ensures Paths.Join(Paths.StripExtendedPrefix(InFormOf(basePath, Paths.ParentPath(target))), Distro.DEFAULT_VHD_NAME) !=
            target
  {
    var directory := Paths.ParentPath(target);
    var stripped := Paths.StripExtendedPrefix(InFormOf(basePath, directory));
    StrippedIsDirectory(basePath, directory);
    hide Paths.Join, Paths.StripExtendedPrefix, Paths.Filename, Paths.ParentPath, InFormOf;
    if Paths.BareServer(stripped) {
      Paths.ServerHasNoFilename(stripped, Distro.DEFAULT_VHD_NAME);
      if stripped + Distro.DEFAULT_VHD_NAME == target {
        ServerSurvives(basePath, target);
      }
    } else {
      Paths.FilenameOfJoin(stripped, Distro.DEFAULT_VHD_NAME);
    }
  }

  /** The path that a relink writes is the target exactly when it leads back, for any target at all. */
  lemma RelinkedPathIsTarget(basePath: Wide, vhdFileName: Wide, target: Path)
    ensures var name := Paths.Filename(target);
            Distro.VhdxPathFor(InFormOf(basePath, Paths.ParentPath(target)), if vhdFileName == [] then [] else name) == target
            <==> RelinkLeadsBack(basePath, vhdFileName, target)
  {
    var directory, name := Paths.ParentPath(target), Paths.Filename(target);
    var stripped := Paths.StripExtendedPrefix(InFormOf(basePath, directory));
    hide Paths.Join, Paths.StripExtendedPrefix, Paths.Filename, Paths.ParentPath, InFormOf, PrefixSurvives;
    StrippedIsDirectory(basePath, directory);
    Paths.PartsAreApart(target);
    if NameRead(vhdFileName, name) == name {
      Paths.JoinIsShort(stripped, name);
    } else {
      OtherNameIsElsewhere(basePath, target);
    }
  }

  /** After a relink, enumerating the registry again finds the distribution exactly when its entry names a directory, and
      then at exactly the target if and only if the relink leads back; and it finds every other distribution as it was. */
  lemma RelinkedIsFoundAtTarget(hive: Distro.Hive, guid: Wide, op: Relink.RelinkOperation, w0: World, w: World)
    requires Distro.EntryFor(hive, guid) == Distro.Usable(op.distro) && Text.WellFormed16(guid) && w0.values == hive.strings
    requires Relink.Relinked(op.Job(), w0, w)
    ensures var found := Distro.EntryFor(hive.(strings := w.values), guid);
            && (found.Usable? <==>
                  Paths.ParentPath(op.target) != [] || Paths.StartsWith(op.distro.basePath, Paths.EXTENDED))
            && (found.Usable? ==>
                  && found.distro.name == op.distro.name && found.distro.guid == op.distro.guid
                  && (found.distro.vhdxPath == op.target <==>
                        RelinkLeadsBack(op.distro.basePath, op.distro.vhdFileName, op.target)))
    ensures forall other | other != guid ::
              Distro.EntryFor(hive.(strings := w.values), other) == Distro.EntryFor(hive, other)
  {
    hide Distro.EntryFor, Distro.KeyOf, Paths.Filename, Paths.ParentPath, RelinkLeadsBack, Distro.VhdxPathFor;
    Distro.KeyOfEntry(hive, guid);
    NothingIsWritten(op.distro.basePath, Paths.ParentPath(op.target));
    RelinkedPathIsTarget(op.distro.basePath, op.distro.vhdFileName, op.target);
    EntryAfterRewrite(hive, guid, op.Job(), w0, w);
  }

  // `d.vhdx`
  const BARE_NAME: Path := [0x64, 0x2E, 0x76, 0x68, 0x64, 0x78]

  lemma BareNameHasNoDirectory()
    ensures Paths.ParentPath(BARE_NAME) == []
  {
    var p := BARE_NAME;
    assert |p| == 6 && forall k | 0 <= k < 6 :: !Paths.Slash(p[k]);
    assert p[1] != Paths.COLON && Paths.RootName(p) == 0;
    assert Paths.NameBefore(p, 6, 0) == 0;
  }

  /** A relink to a bare file name writes an empty BasePath, which its own check accepts; the distribution is not found
      any more. */
  lemma BareNameLosesTheDistribution(hive: Distro.Hive, guid: Wide, op: Relink.RelinkOperation, w0: World, w: World)
    requires Distro.EntryFor(hive, guid) == Distro.Usable(op.distro) && Text.WellFormed16(guid) && w0.values == hive.strings
    requires Relink.Relinked(op.Job(), w0, w)
    requires op.target == BARE_NAME && !Paths.StartsWith(op.distro.basePath, Paths.EXTENDED)
    ensures op.Job().newBase == [] == TextAt(w, op.Job().Base())
    ensures Distro.EntryFor(hive.(strings := w.values), guid).Unusable?
  {
    hide Distro.EntryFor, Paths.ParentPath, Paths.Filename, RelinkLeadsBack;
    BareNameHasNoDirectory();
    RelinkedIsFoundAtTarget(hive, guid, op, w0, w);
    NothingIsWritten(op.distro.basePath, []);
  }

  lemma EntrySays(hive: Distro.Hive, guid: Wide)
    requires Distro.EntryFor(hive, guid).Usable?
    ensures var d := Distro.EntryFor(hive, guid).distro; d.vhdxPath == Distro.VhdxPathFor(d.basePath, d.vhdFileName)
  {
  }
}
