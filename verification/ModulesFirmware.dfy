/** Firmware candidates from modules.firmware and modules.builtin.modinfo (src/scan.rs,
    parse_modules_firmware and annotate_linux_firmware_candidates). */
module ModulesFirmware {
  import opened Wrappers
  import opened Text
  import opened Sorting
  import opened Facts
  import opened Metadata
  import opened Properties
  import Preflight

  datatype ModuleFirmware = ModuleFirmware(module_: string, firmware: seq<string>, sources: seq<TablePath>)

  // ----- Reading one table

  predicate SeparatesFirmware(c: char) {
    IsAsciiWhitespace(c) || c == ','
  }

  function ValidNames(text: string): seq<string> {
    Filter(Words(text, SeparatesFirmware), ValidFirmwareCandidate)
  }

  /** A module and the valid firmware names listed with it, if there are both. */
  datatype Mention = Mention(module_: string, names: seq<string>)

  function NewMention(owner: string, names: string): Option<Mention> {
    var module_ := CanonicalModuleName(owner);
    if module_ == "" || ValidNames(names) == [] then None else Some(Mention(module_, ValidNames(names)))
  }

  /** `MODULE.firmware=NAMES`. */
  function MentionOfRecord(record: string): Option<Mention> {
    var pair := SplitOnce(record, '=');
    if pair == None then None
    else
      var owner := StripSuffix(pair.value.0, ".firmware");
      if owner == None then None else NewMention(owner.value, pair.value.1)
  }

  /** `MODULE: NAMES`, unless the line is blank or a comment. */
  function MentionOfLine(line: string): Option<Mention> {
    var trimmed := Trim(line);
    if trimmed == "" || trimmed[0] == '#' then None
    else
      var pair := SplitOnce(trimmed, ':');
      if pair == None then None else NewMention(pair.value.0, pair.value.1)
  }

  type MentionReader = string -> Option<Mention>

  /** How one record, and one line, is read. Merging needs only that what is read is well made. */
  datatype Readers = Readers(record: MentionReader, line: MentionReader)

  const LINUX_READERS := Readers(MentionOfRecord, MentionOfLine)

  ghost predicate MakesWell(read: MentionReader) {
    forall piece | read(piece).Some? ::
      read(piece).value.names != []
      && forall name | name in read(piece).value.names :: ValidFirmwareCandidate(name)
  }

  ghost predicate Sound(r: Readers) {
    MakesWell(r.record) && MakesWell(r.line)
  }

  lemma LinuxReadersSound()
    ensures Sound(LINUX_READERS)
  {
  }

  function PairsOf(read: MentionReader, piece: string): Relation {
    if read(piece).Some? then Pairs(read(piece).value.module_, ToSet(read(piece).value.names)) else {}
  }

  function Reading(read: MentionReader): string -> Relation {
    (piece: string) => PairsOf(read, piece)
  }

  /** What a text says: which modules want which names. */
  function FirmwareIn(r: Readers, text: string): Relation {
    (if '\0' in text then Union(Split(text, '\0'), Reading(r.record)) else {})
    + Union(Lines(text), Reading(r.line))
  }

  // ----- parse_modules_firmware

  /** What a list of records says. */
  function Named(records: seq<ModuleFirmware>): Relation {
    set record, name | record in records && name in record.firmware :: (record.module_, name)
  }

  ghost predicate DistinctModules(records: seq<ModuleFirmware>) {
    forall i, j | 0 <= i < j < |records| :: records[i].module_ != records[j].module_
  }

  ghost predicate NoneEmpty(records: seq<ModuleFirmware>) {
    forall record | record in records :: record.firmware != []
  }

  predicate SameName(a: string, b: string) {
    a == b
  }

  lemma NamesKept(names: seq<string>)
    ensures ToSet(Dedup(StableSort(names, AtMost), SameName)) == ToSet(names)
  {
    SameElements(names, StableSort(names, AtMost));
    DedupMembers(StableSort(names, AtMost), SameName);
  }

  /** The record of a module, if there is one. */
  method FindRecord(records: seq<ModuleFirmware>, module_: string) returns (found: Option<nat>)
    ensures found.Some? ==> found.value < |records| && records[found.value].module_ == module_
    ensures found == None ==> forall record | record in records :: record.module_ != module_
  {
    for i := 0 to |records|
      invariant forall j | 0 <= j < i :: records[j].module_ != module_
    {
      if records[i].module_ == module_ {
        return Some(i);
      }
    }
    return None;
  }

  lemma NamedAppend(records: seq<ModuleFirmware>, record: ModuleFirmware)
    ensures Named(records + [record]) == Named(records) + Pairs(record.module_, ToSet(record.firmware))
  {
    var more := records + [record];
    forall name | name in record.firmware ensures (record.module_, name) in Named(more) {
      assert record in more;
    }
    forall r, name | r in records && name in r.firmware ensures (r.module_, name) in Named(more) {
      assert r in more;
    }
  }

  lemma NamedUpdate(records: seq<ModuleFirmware>, i: nat, firmware: seq<string>, added: set<string>)
    requires i < |records| && ToSet(firmware) == ToSet(records[i].firmware) + added
    ensures var record := records[i];
            Named(records[i := record.(firmware := firmware)]) == Named(records) + Pairs(record.module_, added)
  {
    var updated := records[i := records[i].(firmware := firmware)];
    forall pair | pair in Named(updated) ensures pair in Named(records) + Pairs(records[i].module_, added) {
      var record, name :| record in updated && name in record.firmware && pair == (record.module_, name);
      if record !in records {
        assert record == updated[i] && name in ToSet(firmware);
        assert records[i] in records;
      }
    }
    forall pair | pair in Named(records) ensures pair in Named(updated) {
      var record, name :| record in records && name in record.firmware && pair == (record.module_, name);
      KeptInUpdate(records, i, firmware, record, name);
    }
    forall name | name in added ensures (records[i].module_, name) in Named(updated) {
      assert name in ToSet(firmware) && updated[i] in updated;
    }
  }

  lemma KeptInUpdate(records: seq<ModuleFirmware>, i: nat, firmware: seq<string>, record: ModuleFirmware, name: string)
    requires i < |records| && ToSet(records[i].firmware) <= ToSet(firmware)
    requires record in records && name in record.firmware
    ensures (record.module_, name) in Named(records[i := records[i].(firmware := firmware)])
  {
    var updated := records[i := records[i].(firmware := firmware)];
    var j :| 0 <= j < |records| && records[j] == record;
    assert j == i ==> name in ToSet(records[i].firmware);
    assert name in updated[j].firmware && updated[j] in updated;
  }

  /** Merge one mention into the records: extend its module's record, kept sorted and without
      repeats, or add one. */
  method MergeMention(records: seq<ModuleFirmware>, module_: string, firmware: seq<string>)
    returns (r: seq<ModuleFirmware>)
    requires DistinctModules(records) && NoneEmpty(records) && firmware != []
    ensures DistinctModules(r) && NoneEmpty(r)
    ensures Named(r) == Named(records) + Pairs(module_, ToSet(firmware))
  {
    var found := FindRecord(records, module_);
    if found.Some? {
      var i := found.value;
      var all := records[i].firmware + firmware;
      NamesKept(all);
      var merged := Dedup(StableSort(all, AtMost), SameName);
      assert ToSet(all) == ToSet(records[i].firmware) + ToSet(firmware);
      NamedUpdate(records, i, merged, ToSet(firmware));
      assert firmware[0] in ToSet(all) && firmware[0] in ToSet(merged);
      r := records[i := records[i].(firmware := merged)];
    } else {
      NamedAppend(records, ModuleFirmware(module_, firmware, []));
      r := records + [ModuleFirmware(module_, firmware, [])];
    }
  }

  /** One pass: merge what each piece mentions. */
  method MergePieces(records: seq<ModuleFirmware>, pieces: seq<string>, read: MentionReader, sortNew: bool)
    returns (r: seq<ModuleFirmware>)
    requires DistinctModules(records) && NoneEmpty(records) && MakesWell(read)
    ensures DistinctModules(r) && NoneEmpty(r)
    ensures Named(r) == Named(records) + Union(pieces, Reading(read))
  {
    r := records;
    for i := 0 to |pieces|
      invariant DistinctModules(r) && NoneEmpty(r)
      invariant Named(r) == Named(records) + Union(pieces[..i], Reading(read))
    {
      UnionStep(pieces, i, Reading(read));
      var mention := read(pieces[i]);
      if mention == None {
        continue;
      }
      var firmware := mention.value.names;
      if sortNew {
        NamesKept(firmware);
        assert firmware[0] in ToSet(firmware);
        firmware := Dedup(StableSort(firmware, AtMost), SameName);
      }
      r := MergeMention(r, mention.value.module_, firmware);
    }
    assert pieces[..|pieces|] == pieces;
  }

  /** parse_modules_firmware: pairwise distinct modules, each holding exactly the valid names that
      either pass finds for it. */
  method ParseModulesFirmware(r: Readers, text: string) returns (records: seq<ModuleFirmware>)
    requires Sound(r)
    ensures DistinctModules(records) && NoneEmpty(records)
    ensures Named(records) == FirmwareIn(r, text)
  {
    records := [];
    assert Named(records) == {};
    if '\0' in text {
      records := MergePieces(records, Split(text, '\0'), r.record, false);
    }
    records := MergePieces(records, Lines(text), r.line, true);
  }

  // ----- Merging all tables

  function NamesOfTable(r: Readers, files: Tables): TablePath -> Relation {
    (path: TablePath) => FirmwareIn(r, TextOf(files, path))
  }

  /** Which modules want which names, over all tables. */
  function AllNames(r: Readers, files: Tables, tables: seq<TablePath>): Relation {
    Union(tables, NamesOfTable(r, files))
  }

  function MentionedIn(r: Readers, files: Tables, path: TablePath): Relation {
    set module_ | module_ in Keys(FirmwareIn(r, TextOf(files, path))) :: (module_, path)
  }

  function SourcesOfTable(r: Readers, files: Tables): TablePath -> Relation {
    (path: TablePath) => MentionedIn(r, files, path)
  }

  /** Which modules are mentioned in which table. */
  function AllSources(r: Readers, files: Tables, tables: seq<TablePath>): Relation {
    Union(tables, SourcesOfTable(r, files))
  }

  /** What the merged records say depends on which tables there are, not on their order or repeats. */
  lemma TableOrderIrrelevant(r: Readers, files: Tables, tables: seq<TablePath>, others: seq<TablePath>)
    requires ToSet(tables) == ToSet(others)
    ensures AllNames(r, files, tables) == AllNames(r, files, others)
    ensures AllSources(r, files, tables) == AllSources(r, files, others)
  {
    UnionOrderless(tables, others, NamesOfTable(r, files));
    UnionOrderless(tables, others, SourcesOfTable(r, files));
  }

  ghost predicate AllValid(names: Relation) {
    forall pair | pair in names :: ValidFirmwareCandidate(pair.1)
  }

  lemma NamesInValid(r: Readers, text: string)
    requires Sound(r)
    ensures AllValid(FirmwareIn(r, text))
  {
    forall pair | pair in FirmwareIn(r, text) ensures ValidFirmwareCandidate(pair.1) {
      UnionMembers(Split(text, '\0'), Reading(r.record), pair);
      UnionMembers(Lines(text), Reading(r.line), pair);
    }
  }

  lemma AllNamesValid(r: Readers, files: Tables, tables: seq<TablePath>)
    requires Sound(r)
    ensures AllValid(AllNames(r, files, tables))
  {
    forall pair | pair in AllNames(r, files, tables) ensures ValidFirmwareCandidate(pair.1) {
      UnionMembers(tables, NamesOfTable(r, files), pair);
      var path :| path in tables && pair in NamesOfTable(r, files)(path);
      NamesInValid(r, TextOf(files, path));
    }
  }

  /** What a list of records says about tables. */
  function Located(records: seq<ModuleFirmware>): Relation {
    set record, path | record in records && path in record.sources :: (record.module_, path)
  }

  /** The modules, each paired with the table being read. */
  function At(records: seq<ModuleFirmware>, path: TablePath): Relation {
    set record | record in records :: (record.module_, path)
  }

  /** The two maps, as one table's records are added to them. */
  method MergeRecords(
    recordMap: map<string, set<string>>, sourceMap: map<string, set<TablePath>>,
    records: seq<ModuleFirmware>, path: TablePath, ghost names: Relation, ghost sources: Relation)
    returns (recordMap': map<string, set<string>>, sourceMap': map<string, set<TablePath>>)
    requires NoneEmpty(records) && recordMap == Grouped(names) && sourceMap == Grouped(sources)
    ensures recordMap' == Grouped(names + Named(records)) && sourceMap' == Grouped(sources + At(records, path))
  {
    recordMap', sourceMap' := recordMap, sourceMap;
    assert names + Named([]) == names && sources + At([], path) == sources;
    for i := 0 to |records|
      invariant recordMap' == Grouped(names + Named(records[..i]))
      invariant sourceMap' == Grouped(sources + At(records[..i], path))
    {
      var record := records[i];
      ghost var done := records[..i];
      assert records[..i + 1] == done + [record];
      NamedAppend(done, record);
      AtAppend(done, record, path);
      assert record.firmware[0] in ToSet(record.firmware);
      GroupedExtended(names + Named(done), record.module_, ToSet(record.firmware));
      GroupedInserted(sources + At(done, path), record.module_, path);
      Associate(names, Named(done), Pairs(record.module_, ToSet(record.firmware)));
      Associate(sources, At(done, path), {(record.module_, path)});
      recordMap' := Extended(recordMap', record.module_, ToSet(record.firmware));
      sourceMap' := Inserted(sourceMap', record.module_, path);
    }
    assert records[..|records|] == records;
  }

  lemma Associate<T>(a: set<T>, b: set<T>, c: set<T>)
    ensures a + (b + c) == a + b + c
  {
  }

  lemma AtAppend(records: seq<ModuleFirmware>, record: ModuleFirmware, path: TablePath)
    ensures At(records + [record], path) == At(records, path) + {(record.module_, path)}
  {
    var more := records + [record];
    assert record in more;
    forall r | r in records ensures (r.module_, path) in At(more, path) {
      assert r in more;
    }
  }

  lemma ModulesMentioned(r: Readers, files: Tables, records: seq<ModuleFirmware>, path: TablePath)
    requires NoneEmpty(records) && Named(records) == FirmwareIn(r, TextOf(files, path))
    ensures At(records, path) == MentionedIn(r, files, path)
  {
    forall record | record in records ensures record.module_ in Keys(Named(records)) {
      assert record.firmware[0] in record.firmware;
      assert (record.module_, record.firmware[0]) in Named(records);
    }
  }

  method ReadFirmwareTables(r: Readers, files: Tables, tables: seq<TablePath>)
    returns (ok: bool, recordMap: map<string, set<string>>, sourceMap: map<string, set<TablePath>>)
    requires Sound(r)
    ensures ok <==> AllReadable(files, tables)
    ensures ok ==> recordMap == Grouped(AllNames(r, files, tables))
    ensures ok ==> sourceMap == Grouped(AllSources(r, files, tables))
  {
    recordMap, sourceMap := map[], map[];
    assert Grouped({}) == map[];
    for i := 0 to |tables|
      invariant AllReadable(files, tables[..i])
      invariant recordMap == Grouped(AllNames(r, files, tables[..i]))
      invariant sourceMap == Grouped(AllSources(r, files, tables[..i]))
    {
      var path := tables[i];
      var text := ReadTable(files, path);
      if text == None {
        assert path in tables;
        return false, recordMap, sourceMap;
      }
      var records := ParseModulesFirmware(r, text.value);
      ModulesMentioned(r, files, records, path);
      UnionStep(tables, i, NamesOfTable(r, files));
      UnionStep(tables, i, SourcesOfTable(r, files));
      recordMap, sourceMap := MergeRecords(
        recordMap, sourceMap, records, path,
        AllNames(r, files, tables[..i]), AllSources(r, files, tables[..i]));
    }
    assert tables[..|tables|] == tables;
    return true, recordMap, sourceMap;
  }

  /** The maps as records, ascending by module. */
  method ListRecords(
    recordMap: map<string, set<string>>, sourceMap: map<string, set<TablePath>>,
    ghost names: Relation, ghost sources: Relation)
    returns (records: seq<ModuleFirmware>)
    requires recordMap == Grouped(names) && sourceMap == Grouped(sources)
    requires Keys(names) == Keys(sources)
    ensures Named(records) == names && Located(records) == sources && DistinctModules(records)
  {
    var modules := ToSorted(recordMap.Keys);
    records := [];
    for i := 0 to |modules|
      invariant |records| == i
      invariant forall j | 0 <= j < i :: ListsModule(records[j], modules[j], names, sources)
    {
      assert modules[i] in modules && modules[i] in recordMap.Keys;
      var listed := ToSorted(recordMap[modules[i]]);
      var located := ToSorted(if modules[i] in sourceMap then sourceMap[modules[i]] else {});
      records := records + [ModuleFirmware(modules[i], listed, located)];
    }
    RecordsListed(records, modules, names, sources);
  }

  ghost predicate ListsModule(record: ModuleFirmware, module_: string, names: Relation, sources: Relation) {
    && record.module_ == module_
    && (forall name :: name in record.firmware <==> name in ValuesOf(names, module_))
    && (forall path :: path in record.sources <==> path in ValuesOf(sources, module_))
  }

  lemma RecordsListed(records: seq<ModuleFirmware>, modules: seq<string>, names: Relation, sources: Relation)
    requires Enumerates(modules, Keys(names)) && |records| == |modules| && Keys(names) == Keys(sources)
    requires forall j | 0 <= j < |records| :: ListsModule(records[j], modules[j], names, sources)
    ensures Named(records) == names && Located(records) == sources && DistinctModules(records)
  {
    forall i, j | 0 <= i < j < |records| ensures records[i].module_ != records[j].module_ {
      LessIrreflexive(modules[i]);
    }
    forall pair | pair in names ensures pair in Named(records) {
      assert pair.0 in modules && pair == (pair.0, pair.1);
      var i :| 0 <= i < |modules| && modules[i] == pair.0;
      assert records[i] in records && pair.1 in records[i].firmware;
    }
    forall pair | pair in sources ensures pair in Located(records) {
      assert pair.0 in Keys(sources) && pair.0 in modules && pair == (pair.0, pair.1);
      var i :| 0 <= i < |modules| && modules[i] == pair.0;
      assert records[i] in records && pair.1 in records[i].sources;
    }
  }

  // ----- Annotating devices

  predicate SeparatesSysfsFirmware(c: char) {
    c == ',' || c == ' ' || c == '\t'
  }

  /** The names the device itself reports. */
  function SysfsFirmware(d: HardwareDevice): set<string> {
    if "firmware" in d.properties
    then ToSet(Filter(Words(d.properties["firmware"], SeparatesSysfsFirmware), ValidFirmwareCandidate))
    else {}
  }

  /** How a device is read: the names it reports, and its drivers. */
  datatype View = View(reported: HardwareDevice -> set<string>, drivers: HardwareDevice -> set<string>)

  const LINUX_VIEW := View(SysfsFirmware, DriversOf)

  ghost predicate ReportsValid(v: View) {
    forall d, name | name in v.reported(d) :: ValidFirmwareCandidate(name)
  }

  lemma LinuxViewReportsValid()
    ensures ReportsValid(LINUX_VIEW)
  {
  }

  function FirmwareNames(v: View, names: Relation, d: HardwareDevice): set<string> {
    v.reported(d) + Selected(names, v.drivers(d))
  }

  /** The `module=table` texts of the device's drivers. */
  function FirmwareSources(sources: Relation, drivers: set<string>): set<string> {
    set pair | pair in sources && pair.0 in drivers :: Entry(pair.0, Display(pair.1))
  }

  ghost function FirmwareCandidates(v: View, names: Relation, d: HardwareDevice): seq<string> {
    Take(Ascending(FirmwareNames(v, names, d)), MAX_FIRMWARE_CANDIDATES)
  }

  ghost function AnnotatedDevice(v: View, names: Relation, sources: Relation, d: HardwareDevice): HardwareDevice {
    WithList(
      WithList(d, "linux_firmware_candidates", FirmwareCandidates(v, names, d)),
      "linux_firmware_candidate_sources", Ascending(FirmwareSources(sources, v.drivers(d))))
  }

  ghost function Annotated(v: View, names: Relation, sources: Relation): HardwareDevice -> HardwareDevice {
    (d: HardwareDevice) => AnnotatedDevice(v, names, sources, d)
  }

  method ShowSources(module_: string, paths: seq<TablePath>) returns (shown: set<string>)
    ensures shown == ToSet(Map(paths, ShowSource(module_)))
  {
    shown := {};
    for j := 0 to |paths|
      invariant shown == ToSet(Map(paths[..j], ShowSource(module_)))
    {
      ShowAppend(paths, j, module_);
      shown := shown + {Entry(module_, Display(paths[j]))};
    }
    assert paths[..|paths|] == paths;
  }

  /** What the records say for some drivers. */
  method SelectFirmware(records: seq<ModuleFirmware>, drivers: set<string>)
    returns (firmware: set<string>, sources: set<string>)
    ensures firmware == Selected(Named(records), drivers)
    ensures sources == FirmwareSources(Located(records), drivers)
  {
    firmware, sources := {}, {};
    for i := 0 to |records|
      invariant firmware == Selected(Named(records[..i]), drivers)
      invariant sources == FirmwareSources(Located(records[..i]), drivers)
    {
      var record := records[i];
      assert records[..i + 1] == records[..i] + [record];
      SelectedAppend(records[..i], record, drivers);
      if record.module_ in drivers {
        firmware := firmware + ToSet(record.firmware);
        var shown := ShowSources(record.module_, record.sources);
        sources := sources + shown;
      }
    }
    assert records[..|records|] == records;
  }

  function ShowSource(module_: string): TablePath -> string {
    (path: TablePath) => Entry(module_, Display(path))
  }

  lemma ShowAppend(paths: seq<TablePath>, j: nat, module_: string)
    requires j < |paths|
    ensures ToSet(Map(paths[..j + 1], ShowSource(module_)))
            == ToSet(Map(paths[..j], ShowSource(module_))) + {Entry(module_, Display(paths[j]))}
  {
    var show := ShowSource(module_);
    assert Map(paths[..j + 1], show) == Map(paths[..j], show) + [show(paths[j])];
  }

  lemma SelectedAppend(records: seq<ModuleFirmware>, record: ModuleFirmware, drivers: set<string>)
    ensures Selected(Named(records + [record]), drivers)
            == Selected(Named(records), drivers) + (if record.module_ in drivers then ToSet(record.firmware) else {})
    ensures FirmwareSources(Located(records + [record]), drivers)
            == FirmwareSources(Located(records), drivers)
               + (if record.module_ in drivers then ToSet(Map(record.sources, ShowSource(record.module_))) else {})
  {
    NamedAppend(records, record);
    LocatedAppend(records, record);
    SelectedPairs(Named(records), record.module_, ToSet(record.firmware), drivers);
    SourcesPairs(Located(records), record.module_, record.sources, drivers);
  }

  lemma LocatedAppend(records: seq<ModuleFirmware>, record: ModuleFirmware)
    ensures Located(records + [record]) == Located(records) + Pairs(record.module_, ToSet(record.sources))
  {
    var more := records + [record];
    forall path | path in record.sources ensures (record.module_, path) in Located(more) {
      assert record in more;
    }
    forall r, path | r in records && path in r.sources ensures (r.module_, path) in Located(more) {
      assert r in more;
    }
  }

  lemma SelectedPairs(relation: Relation, key: string, values: set<string>, keys: set<string>)
    ensures Selected(relation + Pairs(key, values), keys)
            == Selected(relation, keys) + (if key in keys then values else {})
  {
    var more := relation + Pairs(key, values);
    forall pair | pair in relation && pair.0 in keys ensures pair.1 in Selected(more, keys) {
      assert pair in more;
    }
    forall value | key in keys && value in values ensures value in Selected(more, keys) {
      assert (key, value) in more && (key, value).0 in keys;
    }
  }

  lemma SourcesPairs(relation: Relation, key: string, paths: seq<TablePath>, keys: set<string>)
    ensures FirmwareSources(relation + Pairs(key, ToSet(paths)), keys)
            == FirmwareSources(relation, keys) + (if key in keys then ToSet(Map(paths, ShowSource(key))) else {})
  {
    var more, shown := relation + Pairs(key, ToSet(paths)), Map(paths, ShowSource(key));
    forall pair | pair in relation && pair.0 in keys
      ensures Entry(pair.0, Display(pair.1)) in FirmwareSources(more, keys)
    {
      assert pair in more;
    }
    forall i | 0 <= i < |paths| && key in keys ensures shown[i] in FirmwareSources(more, keys) {
      assert (key, paths[i]) in more && (key, paths[i]).0 in keys;
    }
    forall path | path in paths ensures Entry(key, Display(path)) in shown {
      var i :| 0 <= i < |paths| && paths[i] == path;
      assert shown[i] == Entry(key, Display(path));
    }
  }

  method AnnotateDevice(v: View, records: seq<ModuleFirmware>, d: HardwareDevice) returns (r: HardwareDevice)
    ensures r == AnnotatedDevice(v, Named(records), Located(records), d)
  {
    var drivers := v.drivers(d);
    var firmware, sources := SelectFirmware(records, drivers);
    firmware := v.reported(d) + firmware;
    var names := ToSorted(firmware);
    if |names| > MAX_FIRMWARE_CANDIDATES {
      names := Take(names, MAX_FIRMWARE_CANDIDATES);
    }
    assert names == FirmwareCandidates(v, Named(records), d);
    r := d;
    if names != [] {
      r := r.(properties := r.properties["linux_firmware_candidates" := CommaList(names)]);
    }
    var listed := ToSorted(sources);
    if listed != [] {
      r := r.(properties := r.properties["linux_firmware_candidate_sources" := CommaList(listed)]);
    }
  }

  method AnnotateDevices(v: View, devices: array<HardwareDevice>, records: seq<ModuleFirmware>)
    modifies devices
    ensures devices[..] == Map(old(devices[..]), Annotated(v, Named(records), Located(records)))
  {
    ghost var f := Annotated(v, Named(records), Located(records));
    for i := 0 to devices.Length
      invariant forall j | 0 <= j < i :: devices[j] == f(old(devices[j]))
      invariant forall j | i <= j < devices.Length :: devices[j] == old(devices[j])
    {
      var annotated := AnnotateDevice(v, records, devices[i]);
      devices[i] := annotated;
    }
    assert devices[..] == Map(old(devices[..]), f);
  }

  lemma ModulesNamedAreLocated(r: Readers, files: Tables, tables: seq<TablePath>, key: string)
    requires key in Keys(AllNames(r, files, tables))
    ensures key in Keys(AllSources(r, files, tables))
  {
    var pair :| pair in AllNames(r, files, tables) && pair.0 == key;
    UnionMembers(tables, NamesOfTable(r, files), pair);
    var path :| path in tables && pair in NamesOfTable(r, files)(path);
    assert key in Keys(FirmwareIn(r, TextOf(files, path)));
    assert (key, path) in SourcesOfTable(r, files)(path);
    UnionMembers(tables, SourcesOfTable(r, files), (key, path));
    assert (key, path).0 == key;
  }

  lemma ModulesLocatedAreNamed(r: Readers, files: Tables, tables: seq<TablePath>, key: string)
    requires key in Keys(AllSources(r, files, tables))
    ensures key in Keys(AllNames(r, files, tables))
  {
    var pair :| pair in AllSources(r, files, tables) && pair.0 == key;
    UnionMembers(tables, SourcesOfTable(r, files), pair);
    var path :| path in tables && pair in SourcesOfTable(r, files)(path);
    var named :| named in FirmwareIn(r, TextOf(files, path)) && named.0 == key;
    assert named in NamesOfTable(r, files)(path);
    UnionMembers(tables, NamesOfTable(r, files), named);
  }

  lemma SameModules(r: Readers, files: Tables, tables: seq<TablePath>)
    ensures Keys(AllNames(r, files, tables)) == Keys(AllSources(r, files, tables))
  {
    forall key | key in Keys(AllNames(r, files, tables)) ensures key in Keys(AllSources(r, files, tables)) {
      ModulesNamedAreLocated(r, files, tables, key);
    }
    forall key | key in Keys(AllSources(r, files, tables)) ensures key in Keys(AllNames(r, files, tables)) {
      ModulesLocatedAreNamed(r, files, tables, key);
    }
  }

  /** annotate_linux_firmware_candidates: either some table cannot be read and no device changes,
      or every device is annotated from all tables together. */
  method AnnotateLinuxFirmwareCandidates(devices: array<HardwareDevice>, files: Tables, modulesFirmware: seq<TablePath>)
    returns (ok: bool)
    modifies devices
    ensures ok <==> AllReadable(files, modulesFirmware)
    ensures ok ==> devices[..] == Map(
                     old(devices[..]), Annotated(LINUX_VIEW, AllNames(LINUX_READERS, files, modulesFirmware),
                                                 AllSources(LINUX_READERS, files, modulesFirmware)))
    ensures !ok ==> devices[..] == old(devices[..])
  {
    LinuxReadersSound();
    var recordMap, sourceMap;
    ok, recordMap, sourceMap := ReadFirmwareTables(LINUX_READERS, files, modulesFirmware);
    if ok {
      ghost var names := AllNames(LINUX_READERS, files, modulesFirmware);
      ghost var sources := AllSources(LINUX_READERS, files, modulesFirmware);
      SameModules(LINUX_READERS, files, modulesFirmware);
      var records := ListRecords(recordMap, sourceMap, names, sources);
      AnnotateDevices(LINUX_VIEW, devices, records);
    }
  }

  // ----- What a device ends up with

  lemma DifferentProperties()
    ensures "linux_firmware_candidates" != "linux_firmware_candidate_sources"
  {
    assert |"linux_firmware_candidates"| != |"linux_firmware_candidate_sources"|;
  }

  /** The firmware names written to a device, read back, are exactly the 64 least of the valid
      names it reports itself and those of its drivers; without any, the property is left alone. */
  lemma FirmwareIsLeast(v: View, names: Relation, sources: Relation, d: HardwareDevice)
    requires AllValid(names) && ReportsValid(v)
    ensures var (all, after) := (FirmwareNames(v, names, d), AnnotatedDevice(v, names, sources, d));
            var kept := Preflight.PropertyValues(after, "linux_firmware_candidates");
            if all == {} then kept == Preflight.PropertyValues(d, "linux_firmware_candidates")
            else StrictlyAscending(kept) && AreLeast(ToSet(kept), all, MAX_FIRMWARE_CANDIDATES)
  {
    var all, listed := FirmwareNames(v, names, d), FirmwareCandidates(v, names, d);
    var key := "linux_firmware_candidates";
    DifferentProperties();
    OthersUntouched(WithList(d, key, listed), "linux_firmware_candidate_sources",
                    Ascending(FirmwareSources(sources, v.drivers(d))), key);
    CandidatesListed(v, names, d);
    if all != {} {
      WrittenIsRead(d, key, listed);
    }
  }

  lemma CandidatesListed(v: View, names: Relation, d: HardwareDevice)
    requires AllValid(names) && ReportsValid(v)
    ensures var (all, listed) := (FirmwareNames(v, names, d), FirmwareCandidates(v, names, d));
            && (listed == [] <==> all == {}) && CommaFree(listed)
            && StrictlyAscending(listed) && AreLeast(ToSet(listed), all, MAX_FIRMWARE_CANDIDATES)
  {
    var all, listed := FirmwareNames(v, names, d), FirmwareCandidates(v, names, d);
    EnumerationLength(Ascending(all), all);
    TakeLeast(all, MAX_FIRMWARE_CANDIDATES);
    forall name | name in listed ensures name != "" && ',' !in name {
      assert name in Ascending(all) && name in all;
      ValidFirmwarePlain(name);
    }
  }

  lemma ValidFirmwarePlain(name: string)
    requires ValidFirmwareCandidate(name)
    ensures name != "" && ',' !in name
  {
  }

  /** The recorded tables read back, all of them, exactly when none has a comma in its path, for
      drivers whose names have none. */
  lemma SourcesReadBack(v: View, names: Relation, sources: Relation, d: HardwareDevice)
    requires forall driver | driver in v.drivers(d) :: ',' !in driver
    requires FirmwareSources(sources, v.drivers(d)) != {}
    ensures var all := FirmwareSources(sources, v.drivers(d));
            Preflight.PropertyValues(AnnotatedDevice(v, names, sources, d), "linux_firmware_candidate_sources")
            == Ascending(all)
            <==> forall pair | pair in sources && pair.0 in v.drivers(d) :: ',' !in pair.1
  {
    var all := FirmwareSources(sources, v.drivers(d));
    EnumerationLength(Ascending(all), all);
    CommaRoundTrip(Ascending(all));
    forall pair | pair in sources && pair.0 in v.drivers(d)
      ensures Entry(pair.0, Display(pair.1)) in Ascending(all)
      ensures Entry(pair.0, Display(pair.1)) != ""
      ensures ',' in Entry(pair.0, Display(pair.1)) <==> ',' in pair.1
    {
      EntryCommas(pair.0, pair.1);
      assert Entry(pair.0, Display(pair.1)) in all;
    }
    assert forall entry | entry in Ascending(all) :: entry in all;
  }

  /** Candidate drivers never have a comma in their name: only a bound driver could. */
  lemma DriversCommaFree(d: HardwareDevice)
    requires d.driver.Some? ==> ',' !in d.driver.value
    ensures forall driver | driver in DriversOf(d) :: ',' !in driver
  {
    forall driver | driver in DriversOf(d) ensures ',' !in driver {
      if d.driver.Some? && driver == CanonicalModuleName(d.driver.value) {
      } else {
        var value := d.properties["linux_driver_candidates"];
        var pieces := Split(value, ',');
        var i :| 0 <= i < |pieces| && Map(pieces, CanonicalModuleName)[i] == driver;
        assert pieces[i] in pieces;
      }
    }
  }
}
