/** The registered distributions, as the registry describes them (src/lib/model/distro.cpp). */
module Distro {
  import opened Results
  import opened Units
  import Paths
  import Text

  // ---- The registry ---------------------------------------------------------------------

  datatype ValueName =
    | DistributionName | BasePath | VhdFileName | Flavor | OsVersion | DefaultDistribution
    | Version | DefaultUid | Flags | State | Modern

  datatype Slot = Slot(key: Wide, name: ValueName)

  /** Everything under HKEY_CURRENT_USER that the tool looks at. */
  datatype Hive = Hive(strings: map<Slot, Wide>, numbers: map<Slot, nat>, subkeys: map<Wide, seq<Wide>>)

  const LXSS: Wide :=
    Ascii("Software\\") + Ascii("Microsoft\\") + Ascii("Windows\\") + Ascii("CurrentVersion\\") + Ascii("Lxss")

  // `ext4.vhdx`
  const DEFAULT_VHD_NAME: Wide := [0x65, 0x78, 0x74, 0x34, 0x2E, 0x76, 0x68, 0x64, 0x78]

  function KeyOf(guid: Wide): Wide {
    LXSS + [0x5C] + guid
  }

  function TextIn(hive: Hive, slot: Slot): Option<Wide> {
    if slot in hive.strings then Some(hive.strings[slot]) else None
  }

  function NumberIn(hive: Hive, slot: Slot, fallback: nat): nat {
    if slot in hive.numbers then hive.numbers[slot] else fallback
  }

  // ---- One distribution --------------------------------------------------------------------

  datatype Distro = Distro(
    name: Bytes, guid: Bytes, version: nat, basePath: Wide, vhdFileName: Wide, vhdxPath: Wide,
    defaultUid: nat, flags: nat, state: nat, isDefault: bool, modern: bool, flavor: Bytes, osVersion: Bytes)

  datatype Warning = NoName(guid: Bytes) | NoBasePath(name: Bytes)

  datatype DistroList = DistroList(distros: seq<Distro>, warnings: seq<Warning>)

  function LowerByte(b: Byte): Byte {
    if 0x41 <= b <= 0x5A then b + 0x20 else b
  }

  /** Names are the same whatever the case of their ASCII letters. */
  predicate FindMatches(name: Bytes, wanted: Bytes) {
    |name| == |wanted| && forall k | 0 <= k < |name| :: LowerByte(name[k]) == LowerByte(wanted[k])
  }

  function OrEmpty(text: Option<Wide>): Wide {
    if text.Some? then text.value else []
  }

  /** Where the disk is: the directory without its prefix, and the file's name or `ext4.vhdx`. */
  function VhdxPathFor(basePath: Wide, vhdFileName: Wide): Wide {
    Paths.Join(Paths.StripExtendedPrefix(basePath), if vhdFileName == [] then DEFAULT_VHD_NAME else vhdFileName)
  }

  function RegistryKeyFor(distro: Distro): Wide {
    KeyOf(Text.Widened(distro.guid))
  }

  /** What one subkey says: a distribution, or why it is not one. */
  datatype Entry = Usable(distro: Distro) | Unusable(warning: Warning)

  function EntryFor(hive: Hive, guid: Wide): Entry {
    var key := KeyOf(guid);
    var name, base := OrEmpty(TextIn(hive, Slot(key, DistributionName))), OrEmpty(TextIn(hive, Slot(key, BasePath)));
    var file := OrEmpty(TextIn(hive, Slot(key, VhdFileName)));
    if name == [] then Unusable(NoName(Text.Narrowed(guid)))
    else if base == [] then Unusable(NoBasePath(Text.Narrowed(name)))
    else Usable(Distro(
      Text.Narrowed(name), Text.Narrowed(guid), NumberIn(hive, Slot(key, Version), 2), base, file,
      VhdxPathFor(base, file),
      NumberIn(hive, Slot(key, DefaultUid), 0), NumberIn(hive, Slot(key, Flags), 0),
      NumberIn(hive, Slot(key, State), 0), TextIn(hive, Slot(LXSS, DefaultDistribution)) == Some(guid),
      NumberIn(hive, Slot(key, Modern), 0) != 0,
      Text.Narrowed(OrEmpty(TextIn(hive, Slot(key, Flavor)))), Text.Narrowed(OrEmpty(TextIn(hive, Slot(key, OsVersion))))))
  }

  /** Which value each field comes from, and what an absent one stands for. A key without a name, or with a name but
      without a directory, is no distribution. */
  lemma EntryReadsItsValues(hive: Hive, guid: Wide)
    ensures var key := LXSS + Ascii("\\") + guid;
            var name, base := Slot(key, DistributionName), Slot(key, BasePath);
            var entry := EntryFor(hive, guid);
            && (entry.Usable? <==>
                  && name in hive.strings && hive.strings[name] != []
                  && base in hive.strings && hive.strings[base] != [])
            && (entry.Unusable? ==>
                  entry.warning == if name in hive.strings && hive.strings[name] != []
                                   then NoBasePath(Text.Narrowed(hive.strings[name])) else NoName(Text.Narrowed(guid)))
            && (entry.Usable? ==> FieldsComeFrom(hive, key, guid, entry.distro))
  {
    NamesAreWritten();
  }

  predicate FieldsComeFrom(hive: Hive, key: Wide, guid: Wide, d: Distro) {
    && Slot(key, DistributionName) in hive.strings && d.name == Text.Narrowed(hive.strings[Slot(key, DistributionName)])
    && d.guid == Text.Narrowed(guid)
    && Slot(key, BasePath) in hive.strings && d.basePath == hive.strings[Slot(key, BasePath)]
    && d.vhdFileName == (if Slot(key, VhdFileName) in hive.strings then hive.strings[Slot(key, VhdFileName)] else [])
    && d.vhdxPath == Paths.Join(Paths.StripExtendedPrefix(d.basePath),
                                if d.vhdFileName == [] then Ascii("ext4.vhdx") else d.vhdFileName)
    && d.version == (if Slot(key, Version) in hive.numbers then hive.numbers[Slot(key, Version)] else 2)
    && d.defaultUid == (if Slot(key, DefaultUid) in hive.numbers then hive.numbers[Slot(key, DefaultUid)] else 0)
    && d.flags == (if Slot(key, Flags) in hive.numbers then hive.numbers[Slot(key, Flags)] else 0)
    && d.state == (if Slot(key, State) in hive.numbers then hive.numbers[Slot(key, State)] else 0)
    && (d.modern <==> Slot(key, Modern) in hive.numbers && hive.numbers[Slot(key, Modern)] != 0)
    && (Slot(key, Flavor) in hive.strings ==> d.flavor == Text.Narrowed(hive.strings[Slot(key, Flavor)]))
    && (Slot(key, Flavor) !in hive.strings ==> d.flavor == [])
    && (Slot(key, OsVersion) in hive.strings ==> d.osVersion == Text.Narrowed(hive.strings[Slot(key, OsVersion)]))
    && (Slot(key, OsVersion) !in hive.strings ==> d.osVersion == [])
    && var byDefault := Slot(LXSS, DefaultDistribution);
       (d.isDefault <==> byDefault in hive.strings && hive.strings[byDefault] == guid)
  }

  lemma NamesAreWritten()
    ensures [0x5C] == Ascii("\\") && DEFAULT_VHD_NAME == Ascii("ext4.vhdx")
  {
  }

  /** Names are the same up to the case of each letter. */
  lemma MatchesUpToCase(name: Bytes, wanted: Bytes)
    ensures FindMatches(name, wanted) <==>
            |name| == |wanted| && forall k | 0 <= k < |name| ::
              || name[k] == wanted[k]
              || (0x41 <= name[k] <= 0x5A && wanted[k] == name[k] + 0x20)
              || (0x41 <= wanted[k] <= 0x5A && name[k] == wanted[k] + 0x20)
  {
  }

  function WithEntry(list: DistroList, entry: Entry): DistroList {
    match entry
    case Usable(distro) => list.(distros := list.distros + [distro])
    case Unusable(warning) => list.(warnings := list.warnings + [warning])
  }

  function Listed(hive: Hive, guids: seq<Wide>): DistroList {
    if guids == [] then DistroList([], [])
    else WithEntry(Listed(hive, guids[..|guids| - 1]), EntryFor(hive, guids[|guids| - 1]))
  }

  /** `at` are the places of the usable entries, in order, and `not` those of the others. */
  predicate Sorts(at: seq<nat>, not: seq<nat>, list: DistroList, hive: Hive, guids: seq<Wide>) {
    && |at| == |list.distros| && |not| == |list.warnings| && |at| + |not| == |guids|
    && (forall i, j | 0 <= i < j < |at| :: at[i] < at[j]) && (forall i, j | 0 <= i < j < |not| :: not[i] < not[j])
    && (forall i | 0 <= i < |at| :: at[i] < |guids| && EntryFor(hive, guids[at[i]]) == Usable(list.distros[i]))
    && (forall i | 0 <= i < |not| :: not[i] < |guids| && EntryFor(hive, guids[not[i]]) == Unusable(list.warnings[i]))
  }

  /** The list has every usable subkey as a distribution and every other as a warning, each in the order of the subkeys. */
  lemma {:induction false} ListedInOrder(hive: Hive, guids: seq<Wide>) returns (at: seq<nat>, not: seq<nat>)
    ensures Sorts(at, not, Listed(hive, guids), hive, guids)
  {
    hide EntryFor;
    at, not := [], [];
    if guids != [] {
      var n := |guids| - 1;
      at, not := ListedInOrder(hive, guids[..n]);
      if EntryFor(hive, guids[n]).Usable? {
        at := at + [n];
      } else {
        not := not + [n];
      }
    }
  }

  // ---- The code ------------------------------------------------------------------------------

  /** Reads, any of which may fail. `failures` counts those that did. */
  class Registry {
    var hive: Hive
    ghost var failures: nat

    constructor (hive: Hive)
      ensures this.hive == hive && failures == 0
    {
      this.hive := hive;
      failures := 0;
    }

    method Subkeys(key: Wide) returns (r: Result<seq<Wide>>)
      modifies this`failures
      ensures if r.Ok? then failures == old(failures) && key in hive.subkeys && r.value == hive.subkeys[key]
              else failures == old(failures) + 1
    {
      var works: bool := *;
      if works && key in hive.subkeys {
        r := Ok(hive.subkeys[key]);
      } else {
        failures := failures + 1;
        r := Err(Generic);
      }
    }

    method ReadString(slot: Slot) returns (r: Result<Option<Wide>>)
      modifies this`failures
      ensures if r.Ok? then failures == old(failures) && r.value == TextIn(hive, slot)
              else failures == old(failures) + 1
    {
      var works: bool := *;
      if works {
        r := Ok(TextIn(hive, slot));
      } else {
        failures := failures + 1;
        r := Err(Generic);
      }
    }

    method ReadDword(slot: Slot, fallback: nat) returns (r: Result<nat>)
      modifies this`failures
      ensures if r.Ok? then failures == old(failures) && r.value == NumberIn(hive, slot, fallback)
              else failures == old(failures) + 1
    {
      var works: bool := *;
      if works {
        r := Ok(NumberIn(hive, slot, fallback));
      } else {
        failures := failures + 1;
        r := Err(Generic);
      }
    }
  }

  /** Reads the values of one subkey, remembering the first failure and reading nothing after it. */
  class KeyReader {
    const registry: Registry
    const key: Wide
    var failure: Option<Error>

    constructor (registry: Registry, key: Wide)
      ensures this.registry == registry && this.key == key && failure == None
    {
      this.registry, this.key, failure := registry, key, None;
    }

    method Text(name: ValueName) returns (text: Option<Wide>)
      modifies this`failure, registry`failures
      ensures old(failure).Some? ==> text == None && failure == old(failure) && registry.failures == old(registry.failures)
      ensures old(failure).None? && failure.None? ==>
                text == TextIn(registry.hive, Slot(key, name)) && registry.failures == old(registry.failures)
      ensures old(failure).None? && failure.Some? ==> text == None && registry.failures == old(registry.failures) + 1
    {
      if failure.Some? {
        return None;
      }
      var read := registry.ReadString(Slot(key, name));
      if read.Err? {
        failure := Some(read.error);
        return None;
      }
      text := read.value;
    }

    method Number(name: ValueName, fallback: nat) returns (number: nat)
      modifies this`failure, registry`failures
      ensures old(failure).Some? ==> number == fallback && failure == old(failure) && registry.failures == old(registry.failures)
      ensures old(failure).None? && failure.None? ==>
                number == NumberIn(registry.hive, Slot(key, name), fallback) && registry.failures == old(registry.failures)
      ensures old(failure).None? && failure.Some? ==> number == fallback && registry.failures == old(registry.failures) + 1
    {
      if failure.Some? {
        return fallback;
      }
      var read := registry.ReadDword(Slot(key, name), fallback);
      if read.Err? {
        failure := Some(read.error);
        return fallback;
      }
      number := read.value;
    }
  }

  /** One subkey, or the first read that failed. */
  method ReadEntry(registry: Registry, guid: Wide, defaultGuid: Option<Wide>) returns (entry: Result<Entry>)
    requires defaultGuid == TextIn(registry.hive, Slot(LXSS, DefaultDistribution))
    modifies registry`failures
    ensures if entry.Ok? then entry.value == EntryFor(registry.hive, guid) && registry.failures == old(registry.failures)
            else registry.failures == old(registry.failures) + 1
  {
    var key := new KeyReader(registry, KeyOf(guid));
    var name := key.Text(DistributionName);
    var basePath := key.Text(BasePath);
    var vhdFileName := key.Text(VhdFileName);
    var flavor := key.Text(Flavor);
    var osVersion := key.Text(OsVersion);
    var version := key.Number(Version, 2);
    var defaultUid := key.Number(DefaultUid, 0);
    var flags := key.Number(Flags, 0);
    var state := key.Number(State, 0);
    var modern := key.Number(Modern, 0);
    if key.failure.Some? {
      return Err(key.failure.value);
    }
    if name.None? || name.value == [] {
      return Ok(Unusable(NoName(Text.Narrowed(guid))));
    }
    if basePath.None? || basePath.value == [] {
      return Ok(Unusable(NoBasePath(Text.Narrowed(name.value))));
    }
    var file := OrEmpty(vhdFileName);
    return Ok(Usable(Distro(
      Text.Narrowed(name.value), Text.Narrowed(guid), version, basePath.value, file,
      VhdxPathFor(basePath.value, file), defaultUid, flags, state, defaultGuid == Some(guid), modern != 0,
      Text.Narrowed(OrEmpty(flavor)), Text.Narrowed(OrEmpty(osVersion)))));
  }

  /** Every distribution under the Lxss key. It fails exactly when a read fails; a subkey that names no distribution or no
      disk is a warning. */
  method Enumerate(registry: Registry) returns (list: Result<DistroList>)
    modifies registry`failures
    ensures list.Ok? <==> registry.failures == old(registry.failures)
    ensures list.Ok? ==> LXSS in registry.hive.subkeys && list.value == Listed(registry.hive, registry.hive.subkeys[LXSS])
  {
    var guids := registry.Subkeys(LXSS);
    if guids.Err? {
      return Err(guids.error);
    }
    var defaultGuid := registry.ReadString(Slot(LXSS, DefaultDistribution));
    if defaultGuid.Err? {
      return Err(defaultGuid.error);
    }
    var found := DistroList([], []);
    for i := 0 to |guids.value|
      invariant found == Listed(registry.hive, guids.value[..i]) && registry.failures == old(registry.failures)
    {
      assert guids.value[..i + 1][..i] == guids.value[..i];
      var entry := ReadEntry(registry, guids.value[i], defaultGuid.value);
      if entry.Err? {
        return Err(entry.error);
      }
      found := WithEntry(found, entry.value);
    }
    assert guids.value[..|guids.value|] == guids.value;
    list := Ok(found);
  }

  // ---- What a repointed entry says -------------------------------------------------------------

  lemma KeysAreDistinct(a: Wide, b: Wide)
    ensures KeyOf(a) == KeyOf(b) <==> a == b
    ensures KeyOf(a) != LXSS
  {
    var n := |LXSS| + 1;
    assert KeyOf(a)[n..] == a && KeyOf(b)[n..] == b;
    assert |KeyOf(a)| > |LXSS|;
  }

  /** The key of a distribution is the subkey it came from, if its name was well-formed. */
  lemma KeyOfEntry(hive: Hive, guid: Wide)
    requires EntryFor(hive, guid).Usable?
    ensures RegistryKeyFor(EntryFor(hive, guid).distro) == KeyOf(guid) <==> Text.WellFormed16(guid)
  {
    Text.WideRoundTrip(guid);
    KeysAreDistinct(Text.Widened(Text.Narrowed(guid)), guid);
  }

  /** The hive after BasePath, and VhdFileName where there was one, have been rewritten. */
  function Repointed(hive: Hive, key: Wide, basePath: Wide, vhdFileName: Option<Wide>): Hive {
    var moved := hive.strings[Slot(key, BasePath) := basePath];
    hive.(strings := if vhdFileName.Some? then moved[Slot(key, VhdFileName) := vhdFileName.value] else moved)
  }

  lemma RepointedSlots(hive: Hive, key: Wide, basePath: Wide, file: Option<Wide>)
    ensures var h := Repointed(hive, key, basePath, file);
            && h.numbers == hive.numbers && h.subkeys == hive.subkeys
            && forall slot :: TextIn(h, slot) ==
                 if slot == Slot(key, BasePath) then Some(basePath)
                 else if file.Some? && slot == Slot(key, VhdFileName) then file
                 else TextIn(hive, slot)
  {
  }

  /** Rewriting one distribution's entry changes where its disk is, and nothing else about it. */
  lemma RepointedEntry(hive: Hive, guid: Wide, basePath: Wide, file: Option<Wide>)
    requires EntryFor(hive, guid).Usable? && basePath != []
    ensures var before := EntryFor(hive, guid).distro;
            var name := if file.Some? then file.value else before.vhdFileName;
            EntryFor(Repointed(hive, KeyOf(guid), basePath, file), guid) ==
            Usable(before.(basePath := basePath, vhdFileName := name, vhdxPath := VhdxPathFor(basePath, name)))
  {
    hide Text.Narrowed, KeyOf, VhdxPathFor, Repointed, TextIn;
    KeysAreDistinct(guid, guid);
    RepointedSlots(hive, KeyOf(guid), basePath, file);
  }

  /** An entry that names no directory is no distribution any more. */
  lemma RepointedToNothing(hive: Hive, guid: Wide, file: Option<Wide>)
    ensures EntryFor(Repointed(hive, KeyOf(guid), [], file), guid).Unusable?
  {
    hide Text.Narrowed, KeyOf, VhdxPathFor, Repointed, TextIn;
    RepointedSlots(hive, KeyOf(guid), [], file);
  }

  /** Every other distribution stays as it was. */
  lemma OtherEntries(hive: Hive, guid: Wide, basePath: Wide, file: Option<Wide>, other: Wide)
    requires other != guid
    ensures EntryFor(Repointed(hive, KeyOf(guid), basePath, file), other) == EntryFor(hive, other)
  {
    hide Text.Narrowed, KeyOf, VhdxPathFor, Repointed, TextIn;
    KeysAreDistinct(guid, other);
    KeysAreDistinct(other, guid);
    RepointedSlots(hive, KeyOf(guid), basePath, file);
  }
}
