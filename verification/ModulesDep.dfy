/** Module payloads, their dependencies and built-in modules (src/scan.rs, parse_modules_dep,
    parse_modules_builtin and annotate_linux_driver_files). */
module ModulesDep {
  import opened Wrappers
  import opened Text
  import opened Sorting
  import opened Facts
  import opened Metadata
  import opened Properties
  import Preflight

  datatype ModulePayload = ModulePayload(module_: string, path: string, dependencies: seq<string>)

  // ----- Reading one line

  /** `PATH: DEPENDENCIES`. */
  function PayloadOfLine(line: string): Option<ModulePayload> {
    var pair := SplitOnce(line, ':');
    if pair == None || !ValidModulePath(Trim(pair.value.0)) then None
    else
      var path := Trim(pair.value.0);
      Some(ModulePayload(
        CanonicalModuleName(path), path, Filter(Words(pair.value.1, IsAsciiWhitespace), ValidModulePath)))
  }

  function BuiltinOfLine(line: string): Option<string> {
    var path := Trim(line);
    if ValidModulePath(path) && CanonicalModuleName(path) != "" then Some(CanonicalModuleName(path)) else None
  }

  /** How one line of either table is read. Merging needs only that what is read is well made. */
  datatype Readers = Readers(payload: string -> Option<ModulePayload>, builtin: string -> Option<string>)

  const LINUX_READERS := Readers(PayloadOfLine, BuiltinOfLine)

  predicate WellMade(p: ModulePayload) {
    && p.module_ == CanonicalModuleName(p.path)
    && ',' !in p.module_ && ',' !in p.path
    && forall dependency | dependency in p.dependencies :: ',' !in dependency
  }

  ghost predicate Sound(r: Readers) {
    && (forall line | r.payload(line).Some? :: WellMade(r.payload(line).value))
    && (forall line | r.builtin(line).Some? :: r.builtin(line).value != "" && ',' !in r.builtin(line).value)
  }

  lemma ValidPathPlain(path: string)
    requires ValidModulePath(path)
    ensures ',' !in path && ',' !in CanonicalModuleName(path)
  {
  }

  lemma LinuxReadersSound()
    ensures Sound(LINUX_READERS)
  {
    forall line | PayloadOfLine(line).Some? ensures WellMade(PayloadOfLine(line).value) {
      var p := PayloadOfLine(line).value;
      ValidPathPlain(p.path);
      forall dependency | dependency in p.dependencies ensures ',' !in dependency {
        ValidPathPlain(dependency);
      }
    }
    forall line | BuiltinOfLine(line).Some? ensures ',' !in BuiltinOfLine(line).value {
      ValidPathPlain(Trim(line));
    }
  }

  // ----- parse_modules_dep

  predicate PayloadAtMost(a: ModulePayload, b: ModulePayload) {
    Less(a.module_, b.module_) || (a.module_ == b.module_ && AtMost(a.path, b.path))
  }

  predicate SamePayload(a: ModulePayload, b: ModulePayload) {
    a.module_ == b.module_ && a.path == b.path
  }

  predicate PayloadBefore(a: ModulePayload, b: ModulePayload) {
    Less(a.module_, b.module_) || (a.module_ == b.module_ && Less(a.path, b.path))
  }

  /** What the lines say, in file order. */
  function PayloadsIn(r: Readers, lines: seq<string>): seq<ModulePayload> {
    if lines == [] then []
    else (if r.payload(lines[0]).Some? then [r.payload(lines[0]).value] else []) + PayloadsIn(r, lines[1..])
  }

  function ParsedDep(r: Readers, text: string): seq<ModulePayload> {
    Dedup(StableSort(PayloadsIn(r, Lines(text)), PayloadAtMost), SamePayload)
  }

  method ReadPayloads(r: Readers, lines: seq<string>) returns (records: seq<ModulePayload>)
    ensures records == PayloadsIn(r, lines)
  {
    records := [];
    for i := 0 to |lines|
      invariant records + PayloadsIn(r, lines[i..]) == PayloadsIn(r, lines)
    {
      assert lines[i..][0] == lines[i] && lines[i..][1..] == lines[i + 1..];
      var payload := r.payload(lines[i]);
      if payload.Some? {
        records := records + [payload.value];
      }
    }
  }

  lemma PayloadBeforeTransitive(a: ModulePayload, b: ModulePayload, c: ModulePayload)
    requires PayloadBefore(a, b) && PayloadBefore(b, c)
    ensures PayloadBefore(a, c)
  {
    if a.module_ != b.module_ && b.module_ != c.module_ {
      LessTransitive(a.module_, b.module_, c.module_);
    } else if a.module_ == b.module_ == c.module_ {
      LessIrreflexive(a.module_);
      LessTransitive(a.path, b.path, c.path);
    }
  }

  lemma PayloadOrder()
    ensures TotalPreorder(PayloadAtMost)
    ensures forall a, b, c :: PayloadBefore(a, b) && PayloadBefore(b, c) ==> PayloadBefore(a, c)
  {
    forall a: ModulePayload, b: ModulePayload ensures PayloadAtMost(a, b) || PayloadAtMost(b, a) {
      LessTotal(a.module_, b.module_);
      LessTotal(a.path, b.path);
    }
    forall a: ModulePayload, b: ModulePayload, c: ModulePayload | PayloadBefore(a, b) && PayloadBefore(b, c)
      ensures PayloadBefore(a, c)
    {
      PayloadBeforeTransitive(a, b, c);
    }
    assert forall a, b :: PayloadAtMost(a, b) <==> SamePayload(a, b) || PayloadBefore(a, b);
  }

  /** The record of a path. */
  function IsPayload(path: string): ModulePayload -> bool {
    (p: ModulePayload) => p.path == path && p.module_ == CanonicalModuleName(path)
  }

  lemma PayloadsWellMade(r: Readers, lines: seq<string>)
    requires Sound(r)
    ensures forall p | p in PayloadsIn(r, lines) :: WellMade(p)
  {
  }

  /** Parsing leaves one record for each path, in strictly ascending order, and each is the first
      that the file has for its path. */
  lemma OneRecordPerPath(r: Readers, text: string)
    requires Sound(r)
    ensures SortedBy(ParsedDep(r, text), PayloadBefore)
    ensures forall p | p in ParsedDep(r, text) :: WellMade(p)
    ensures forall path ::
              First(ParsedDep(r, text), IsPayload(path)) == First(PayloadsIn(r, Lines(text)), IsPayload(path))
  {
    var read := PayloadsIn(r, Lines(text));
    PayloadOrder();
    PayloadsWellMade(r, Lines(text));
    SameElements(read, StableSort(read, PayloadAtMost));
    StableSortSorted(read, PayloadAtMost);
    DedupAscends(StableSort(read, PayloadAtMost), PayloadAtMost, SamePayload, PayloadBefore);
    forall path ensures First(ParsedDep(r, text), IsPayload(path)) == First(read, IsPayload(path)) {
      SortKeepsFirst(read, PayloadAtMost, IsPayload(path));
      DedupKeepsFirst(StableSort(read, PayloadAtMost), SamePayload, IsPayload(path));
    }
  }

  /** parse_modules_dep: one record for each path, strictly ascending, each the first that the file
      has for its path. */
  method ParseModulesDep(r: Readers, text: string) returns (records: seq<ModulePayload>)
    requires Sound(r)
    ensures SortedBy(records, PayloadBefore) && forall p | p in records :: WellMade(p)
    ensures forall path :: First(records, IsPayload(path)) == First(PayloadsIn(r, Lines(text)), IsPayload(path))
    ensures records == ParsedDep(r, text)
  {
    OneRecordPerPath(r, text);
    records := ReadPayloads(r, Lines(text));
    records := StableSort(records, PayloadAtMost);
    records := Dedup(records, SamePayload);
  }

  // ----- parse_modules_builtin

  function BuiltinsIn(r: Readers, lines: seq<string>): set<string> {
    set line | line in lines && r.builtin(line).Some? :: r.builtin(line).value
  }

  predicate SameModule(a: string, b: string) {
    a == b
  }

  predicate ModuleBefore(a: string, b: string) {
    Less(a, b)
  }

  lemma ModuleOrder()
    ensures TotalPreorder(AtMost)
    ensures forall a, b, c :: ModuleBefore(a, b) && ModuleBefore(b, c) ==> ModuleBefore(a, c)
  {
    forall a: string, b: string ensures AtMost(a, b) || AtMost(b, a) {
      LessTotal(a, b);
    }
    forall a: string, b: string, c: string | ModuleBefore(a, b) && ModuleBefore(b, c) ensures ModuleBefore(a, c) {
      LessTransitive(a, b, c);
    }
    assert forall a, b :: AtMost(a, b) <==> a == b || ModuleBefore(a, b);
  }

  lemma ModulesAscend(modules: seq<string>)
    ensures StrictlyAscending(Dedup(StableSort(modules, AtMost), SameModule))
    ensures ToSet(Dedup(StableSort(modules, AtMost), SameModule)) == ToSet(modules)
  {
    ModuleOrder();
    StableSortSorted(modules, AtMost);
    DedupAscends(StableSort(modules, AtMost), AtMost, SameModule, ModuleBefore);
    SameElements(modules, StableSort(modules, AtMost));
    DedupMembers(StableSort(modules, AtMost), SameModule);
  }

  /** parse_modules_builtin: the canonical names of the valid lines, strictly ascending. */
  method ParseModulesBuiltin(r: Readers, text: string) returns (modules: seq<string>)
    ensures ToSet(modules) == BuiltinsIn(r, Lines(text)) && StrictlyAscending(modules)
  {
    var lines := Lines(text);
    modules := [];
    for i := 0 to |lines|
      invariant ToSet(modules) == BuiltinsIn(r, lines[..i])
    {
      assert lines[..i + 1] == lines[..i] + [lines[i]];
      var builtin := r.builtin(lines[i]);
      if builtin.Some? {
        ghost var before := modules;
        modules := modules + [builtin.value];
        assert ToSet(modules) == ToSet(before) + {builtin.value};
      }
    }
    assert lines[..|lines|] == lines;
    ModulesAscend(modules);
    modules := Dedup(StableSort(modules, AtMost), SameModule);
  }

  // ----- Merging all tables

  function Payloads(records: seq<ModulePayload>): Relation {
    set p | p in records :: (p.module_, p.path)
  }

  function Dependencies(records: seq<ModulePayload>): Relation {
    set p, dependency | p in records && dependency in p.dependencies :: (p.module_, dependency)
  }

  function PayloadSources(records: seq<ModulePayload>, table: TablePath): Relation {
    set p | p in records :: (p.module_, table)
  }

  function DependencySources(records: seq<ModulePayload>, table: TablePath): Relation {
    set p | p in records && p.dependencies != [] :: (p.module_, table)
  }

  /** The four maps that modules.dep tables fill. */
  datatype Index = Index(
    payloads: map<string, set<string>>, dependencies: map<string, set<string>>,
    payloadSources: map<string, set<TablePath>>, dependencySources: map<string, set<TablePath>>)

  /** The relations those maps hold. */
  datatype Relations = Relations(
    payloads: Relation, dependencies: Relation, payloadSources: Relation, dependencySources: Relation)

  function IndexOf(s: Relations): Index {
    Index(Grouped(s.payloads), Grouped(s.dependencies), Grouped(s.payloadSources), Grouped(s.dependencySources))
  }

  function Merged(s: Relations, records: seq<ModulePayload>, table: TablePath): Relations {
    Relations(s.payloads + Payloads(records), s.dependencies + Dependencies(records),
              s.payloadSources + PayloadSources(records, table),
              s.dependencySources + DependencySources(records, table))
  }

  function WithPayload(s: Relations, p: ModulePayload, table: TablePath): Relations {
    Relations(s.payloads + {(p.module_, p.path)}, s.dependencies + Pairs(p.module_, ToSet(p.dependencies)),
              s.payloadSources + {(p.module_, table)},
              s.dependencySources + (if p.dependencies != [] then {(p.module_, table)} else {}))
  }

  method AddPayload(index: Index, p: ModulePayload, table: TablePath, ghost s: Relations) returns (index': Index)
    requires index == IndexOf(s)
    ensures index' == IndexOf(WithPayload(s, p, table))
  {
    GroupedInserted(s.payloads, p.module_, p.path);
    GroupedInserted(s.payloadSources, p.module_, table);
    index' := index.(
      payloads := Inserted(index.payloads, p.module_, p.path),
      payloadSources := Inserted(index.payloadSources, p.module_, table));
    if p.dependencies != [] {
      assert p.dependencies[0] in ToSet(p.dependencies);
      GroupedExtended(s.dependencies, p.module_, ToSet(p.dependencies));
      GroupedInserted(s.dependencySources, p.module_, table);
      index' := index'.(
        dependencies := Extended(index.dependencies, p.module_, ToSet(p.dependencies)),
        dependencySources := Inserted(index.dependencySources, p.module_, table));
    } else {
      assert s.dependencies + Pairs(p.module_, ToSet(p.dependencies)) == s.dependencies;
      assert s.dependencySources + {} == s.dependencySources;
    }
  }

  lemma MergedSnoc(s: Relations, records: seq<ModulePayload>, p: ModulePayload, table: TablePath)
    ensures Merged(s, records + [p], table) == WithPayload(Merged(s, records, table), p, table)
  {
    var more := records + [p];
    assert forall q :: q in more <==> q in records || q == p;
    assert Payloads(more) == Payloads(records) + {(p.module_, p.path)};
    assert Dependencies(more) == Dependencies(records) + Pairs(p.module_, ToSet(p.dependencies));
    assert PayloadSources(more, table) == PayloadSources(records, table) + {(p.module_, table)};
    assert DependencySources(more, table)
           == DependencySources(records, table) + (if p.dependencies != [] then {(p.module_, table)} else {});
  }

  lemma MergedNothing(s: Relations, table: TablePath)
    ensures Merged(s, [], table) == s
  {
  }

  method MergePayloads(index: Index, records: seq<ModulePayload>, table: TablePath, ghost s: Relations)
    returns (index': Index)
    requires index == IndexOf(s)
    ensures index' == IndexOf(Merged(s, records, table))
  {
    index' := index;
    ghost var merged := s;
    MergedNothing(s, table);
    for i := 0 to |records|
      invariant merged == Merged(s, records[..i], table) && index' == IndexOf(merged)
    {
      index' := AddPayload(index', records[i], table, merged);
      MergedSnoc(s, records[..i], records[i], table);
      assert records[..i + 1] == records[..i] + [records[i]];
      merged := WithPayload(merged, records[i], table);
    }
    assert records[..|records|] == records;
  }

  function PayloadsOf(r: Readers, files: Tables, path: TablePath): Relation {
    Payloads(ParsedDep(r, TextOf(files, path)))
  }

  function DependenciesOf(r: Readers, files: Tables, path: TablePath): Relation {
    Dependencies(ParsedDep(r, TextOf(files, path)))
  }

  function PayloadSourcesOf(r: Readers, files: Tables, path: TablePath): Relation {
    PayloadSources(ParsedDep(r, TextOf(files, path)), path)
  }

  function DependencySourcesOf(r: Readers, files: Tables, path: TablePath): Relation {
    DependencySources(ParsedDep(r, TextOf(files, path)), path)
  }

  /** What all tables say together: the payloads of each module, the dependencies its kept records
      name, and the tables each comes from. */
  function AllPayloads(r: Readers, files: Tables, tables: seq<TablePath>): Relations {
    Relations(
      Union(tables, (path: TablePath) => PayloadsOf(r, files, path)),
      Union(tables, (path: TablePath) => DependenciesOf(r, files, path)),
      Union(tables, (path: TablePath) => PayloadSourcesOf(r, files, path)),
      Union(tables, (path: TablePath) => DependencySourcesOf(r, files, path)))
  }

  lemma AllPayloadsStep(r: Readers, files: Tables, tables: seq<TablePath>, i: nat)
    requires i < |tables|
    ensures AllPayloads(r, files, tables[..i + 1])
            == Merged(AllPayloads(r, files, tables[..i]), ParsedDep(r, TextOf(files, tables[i])), tables[i])
  {
    UnionStep(tables, i, (path: TablePath) => PayloadsOf(r, files, path));
    UnionStep(tables, i, (path: TablePath) => DependenciesOf(r, files, path));
    UnionStep(tables, i, (path: TablePath) => PayloadSourcesOf(r, files, path));
    UnionStep(tables, i, (path: TablePath) => DependencySourcesOf(r, files, path));
  }

  /** Table order and repeats change nothing. */
  lemma TableOrderIrrelevant(r: Readers, files: Tables, tables: seq<TablePath>, others: seq<TablePath>)
    requires ToSet(tables) == ToSet(others)
    ensures AllPayloads(r, files, tables) == AllPayloads(r, files, others)
    ensures AllBuiltins(r, files, tables) == AllBuiltins(r, files, others)
  {
    UnionOrderless(tables, others, (path: TablePath) => PayloadsOf(r, files, path));
    UnionOrderless(tables, others, (path: TablePath) => DependenciesOf(r, files, path));
    UnionOrderless(tables, others, (path: TablePath) => PayloadSourcesOf(r, files, path));
    UnionOrderless(tables, others, (path: TablePath) => DependencySourcesOf(r, files, path));
    UnionOrderless(tables, others, BuiltinsOfTable(r, files));
  }

  method ReadDepTable(r: Readers, files: Tables, path: TablePath, index: Index, ghost merged: Relations)
    returns (index': Option<Index>)
    requires Sound(r)
    requires index == IndexOf(merged)
    ensures index'.Some? <==> Readable(files, path)
    ensures index'.Some? ==> index'.value == IndexOf(Merged(merged, ParsedDep(r, TextOf(files, path)), path))
  {
    var text := ReadTable(files, path);
    if text == None {
      return None;
    }
    var records := ParseModulesDep(r, text.value);
    var filled := MergePayloads(index, records, path, merged);
    return Some(filled);
  }

  method ReadDepTables(r: Readers, files: Tables, tables: seq<TablePath>) returns (ok: bool, index: Index)
    requires Sound(r)
    ensures ok <==> AllReadable(files, tables)
    ensures ok ==> index == IndexOf(AllPayloads(r, files, tables))
  {
    index := Index(map[], map[], map[], map[]);
    ghost var merged := AllPayloads(r, files, tables[..0]);
    NothingIndexed(r, files, tables[..0]);
    for i := 0 to |tables|
      invariant AllReadable(files, tables[..i])
      invariant merged == AllPayloads(r, files, tables[..i])
      invariant index == IndexOf(merged)
    {
      var filled := ReadDepTable(r, files, tables[i], index, merged);
      if filled == None {
        assert tables[i] in tables;
        return false, index;
      }
      index := filled.value;
      AllPayloadsStep(r, files, tables, i);
      merged := AllPayloads(r, files, tables[..i + 1]);
    }
    assert tables[..|tables|] == tables;
    return true, index;
  }

  lemma NothingIndexed(r: Readers, files: Tables, none: seq<TablePath>)
    requires none == []
    ensures IndexOf(AllPayloads(r, files, none)) == Index(map[], map[], map[], map[])
  {
    assert Grouped({}) == map[];
  }

  function BuiltinsOf(r: Readers, files: Tables, path: TablePath): Relation {
    set module_ | module_ in BuiltinsIn(r, Lines(TextOf(files, path))) :: (module_, path)
  }

  function BuiltinsOfTable(r: Readers, files: Tables): TablePath -> Relation {
    (path: TablePath) => BuiltinsOf(r, files, path)
  }

  /** Which built-in modules which tables list. */
  function AllBuiltins(r: Readers, files: Tables, tables: seq<TablePath>): Relation {
    Union(tables, BuiltinsOfTable(r, files))
  }

  function Listed(modules: seq<string>, table: TablePath): Relation {
    set module_ | module_ in modules :: (module_, table)
  }

  method MergeBuiltins(
    builtins: set<string>, sources: map<string, set<TablePath>>,
    modules: seq<string>, table: TablePath, ghost s: Relation)
    returns (builtins': set<string>, sources': map<string, set<TablePath>>)
    requires builtins == Keys(s) && sources == Grouped(s)
    ensures builtins' == Keys(s + Listed(modules, table)) && sources' == Grouped(s + Listed(modules, table))
  {
    builtins', sources' := builtins, sources;
    ghost var merged := s;
    assert s + Listed([], table) == s;
    for i := 0 to |modules|
      invariant merged == s + Listed(modules[..i], table)
      invariant builtins' == Keys(merged) && sources' == Grouped(merged)
    {
      KeysInserted(merged, modules[i], table);
      GroupedInserted(merged, modules[i], table);
      builtins' := builtins' + {modules[i]};
      sources' := Inserted(sources', modules[i], table);
      assert modules[..i + 1] == modules[..i] + [modules[i]];
      assert Listed(modules[..i + 1], table) == Listed(modules[..i], table) + {(modules[i], table)};
      merged := merged + {(modules[i], table)};
    }
    assert modules[..|modules|] == modules;
  }

  lemma ListedAgain(r: Readers, files: Tables, modules: seq<string>, path: TablePath)
    requires ToSet(modules) == BuiltinsIn(r, Lines(TextOf(files, path)))
    ensures Listed(modules, path) == BuiltinsOfTable(r, files)(path)
  {
    assert forall module_ :: module_ in modules <==> module_ in ToSet(modules);
  }

  method ReadBuiltinTables(r: Readers, files: Tables, tables: seq<TablePath>)
    returns (ok: bool, builtins: set<string>, sources: map<string, set<TablePath>>)
    ensures ok <==> AllReadable(files, tables)
    ensures ok ==> builtins == Keys(AllBuiltins(r, files, tables)) && sources == Grouped(AllBuiltins(r, files, tables))
  {
    builtins, sources := {}, map[];
    ghost var merged: Relation := {};
    assert Grouped({}) == map[];
    for i := 0 to |tables|
      invariant AllReadable(files, tables[..i])
      invariant merged == AllBuiltins(r, files, tables[..i])
      invariant builtins == Keys(merged) && sources == Grouped(merged)
    {
      var text := ReadTable(files, tables[i]);
      if text == None {
        assert tables[i] in tables;
        return false, builtins, sources;
      }
      var modules := ParseModulesBuiltin(r, text.value);
      builtins, sources := MergeBuiltins(builtins, sources, modules, tables[i], merged);
      ListedAgain(r, files, modules, tables[i]);
      UnionStep(tables, i, BuiltinsOfTable(r, files));
      merged := merged + Listed(modules, tables[i]);
    }
    assert tables[..|tables|] == tables;
    return true, builtins, sources;
  }

  // ----- Annotating devices

  type View = HardwareDevice -> set<string>

  function Itself(value: string): string {
    value
  }

  /** The first 64 entries under the drivers, by module and then by value. */
  ghost function Capped(relation: Relation, drivers: set<string>, show: string -> string): seq<string> {
    Take(Listing(relation, drivers, show), MAX_DRIVER_FILES)
  }

  /** The lists a device is given. */
  ghost function Writes(s: Relations, builtins: Relation, drivers: set<string>): seq<Write> {
    [Write("linux_driver_files", Capped(s.payloads, drivers, Itself)),
     Write("linux_driver_file_sources", Capped(s.payloadSources, drivers, Display)),
     Write("linux_driver_dependency_sources", Capped(s.dependencySources, drivers, Display)),
     Write("linux_driver_dependencies", Capped(s.dependencies, drivers, Itself)),
     Write("linux_driver_builtins", Ascending(Keys(builtins) * drivers)),
     Write("linux_driver_builtin_sources", Capped(builtins, drivers, Display))]
  }

  ghost function AnnotatedDevice(v: View, s: Relations, builtins: Relation, d: HardwareDevice): HardwareDevice {
    WithLists(d, Writes(s, builtins, v(d)))
  }

  ghost function Annotated(v: View, s: Relations, builtins: Relation): HardwareDevice -> HardwareDevice {
    (d: HardwareDevice) => AnnotatedDevice(v, s, builtins, d)
  }

  method AnnotateDevice(
    v: View, index: Index, builtins: set<string>, builtinSources: map<string, set<TablePath>>,
    d: HardwareDevice, ghost s: Relations, ghost b: Relation)
    returns (r: HardwareDevice)
    requires index == IndexOf(s) && builtins == Keys(b) && builtinSources == Grouped(b)
    ensures r == AnnotatedDevice(v, s, b, d)
  {
    var drivers := v(d);
    ghost var writes;
    r, writes := AnnotateFiles(index, drivers, d, s);
    var candidates := set driver | driver in drivers && driver in builtins;
    assert candidates == Keys(b) * drivers;
    if candidates != {} {
      var listed := ToSorted(candidates);
      var sources := ListEntries(builtinSources, drivers, Display, b);
      sources := Take(sources, MAX_DRIVER_FILES);
      WithListsSnoc(d, writes, Write("linux_driver_builtins", listed));
      writes := writes + [Write("linux_driver_builtins", listed)];
      WithListsSnoc(d, writes, Write("linux_driver_builtin_sources", sources));
      writes := writes + [Write("linux_driver_builtin_sources", sources)];
      EnumerationLength(listed, candidates);
      r := r.(properties := r.properties["linux_driver_builtins" := CommaList(listed)]);
      r := WithList(r, "linux_driver_builtin_sources", sources);
    } else {
      NoBuiltins(b, drivers);
      WithListsSnoc(d, writes, Write("linux_driver_builtins", []));
      writes := writes + [Write("linux_driver_builtins", [])];
      WithListsSnoc(d, writes, Write("linux_driver_builtin_sources", []));
      writes := writes + [Write("linux_driver_builtin_sources", [])];
    }
    assert writes == Writes(s, b, drivers);
  }

  lemma NoBuiltins(b: Relation, drivers: set<string>)
    requires Keys(b) * drivers == {}
    ensures Ascending(Keys(b) * drivers) == [] && Capped(b, drivers, Display) == []
  {
    EnumerationLength(Ascending(Keys(b) * drivers), {});
  }

  method AnnotateFiles(index: Index, drivers: set<string>, d: HardwareDevice, ghost s: Relations)
    returns (r: HardwareDevice, ghost writes: seq<Write>)
    requires index == IndexOf(s)
    ensures r == WithLists(d, writes)
    ensures forall b :: writes == Writes(s, b, drivers)[..4]
  {
    var files := ListEntries(index.payloads, drivers, Itself, s.payloads);
    var fileSources := ListEntries(index.payloadSources, drivers, Display, s.payloadSources);
    var dependencySources := ListEntries(index.dependencySources, drivers, Display, s.dependencySources);
    var dependencies := ListEntries(index.dependencies, drivers, Itself, s.dependencies);
    r, writes := WriteNext(d, d, [], "linux_driver_files", files);
    r, writes := WriteNext(d, r, writes, "linux_driver_file_sources", fileSources);
    r, writes := WriteNext(d, r, writes, "linux_driver_dependency_sources", dependencySources);
    r, writes := WriteNext(d, r, writes, "linux_driver_dependencies", dependencies);
  }

  method WriteNext(d: HardwareDevice, r: HardwareDevice, ghost writes: seq<Write>, key: string, all: seq<string>)
    returns (r': HardwareDevice, ghost writes': seq<Write>)
    requires r == WithLists(d, writes)
    ensures writes' == writes + [Write(key, Take(all, MAX_DRIVER_FILES))] && r' == WithLists(d, writes')
  {
    var items := Take(all, MAX_DRIVER_FILES);
    WithListsSnoc(d, writes, Write(key, items));
    writes' := writes + [Write(key, items)];
    r' := WithList(r, key, items);
  }

  method AnnotateDevices(
    v: View, devices: array<HardwareDevice>,
    index: Index, builtins: set<string>, builtinSources: map<string, set<TablePath>>,
    ghost s: Relations, ghost b: Relation)
    requires index == IndexOf(s) && builtins == Keys(b) && builtinSources == Grouped(b)
    modifies devices
    ensures devices[..] == Map(old(devices[..]), Annotated(v, s, b))
  {
    ghost var f := Annotated(v, s, b);
    for i := 0 to devices.Length
      invariant forall j | 0 <= j < i :: devices[j] == f(old(devices[j]))
      invariant forall j | i <= j < devices.Length :: devices[j] == old(devices[j])
    {
      var annotated := AnnotateDevice(v, index, builtins, builtinSources, devices[i], s, b);
      devices[i] := annotated;
    }
    assert devices[..] == Map(old(devices[..]), f);
  }

  /** annotate_linux_driver_files: either some table cannot be read and no device changes, or every
      device is annotated from all tables together. */
  method AnnotateLinuxDriverFiles(
    devices: array<HardwareDevice>, files: Tables, modulesDep: seq<TablePath>, modulesBuiltin: seq<TablePath>)
    returns (ok: bool)
    modifies devices
    ensures ok <==> AllReadable(files, modulesDep) && AllReadable(files, modulesBuiltin)
    ensures ok ==> devices[..] == Map(
                     old(devices[..]), Annotated(DriversOf, AllPayloads(LINUX_READERS, files, modulesDep),
                                                 AllBuiltins(LINUX_READERS, files, modulesBuiltin)))
    ensures !ok ==> devices[..] == old(devices[..])
  {
    LinuxReadersSound();
    var index, builtins, builtinSources;
    ok, index := ReadDepTables(LINUX_READERS, files, modulesDep);
    if ok {
      ok, builtins, builtinSources := ReadBuiltinTables(LINUX_READERS, files, modulesBuiltin);
    }
    if ok {
      AnnotateDevices(DriversOf, devices, index, builtins, builtinSources,
                      AllPayloads(LINUX_READERS, files, modulesDep), AllBuiltins(LINUX_READERS, files, modulesBuiltin));
    }
  }

  // ----- What a device ends up with

  /** Only the file sources and the dependencies have names of equal length. */
  lemma WrittenApart(s: Relations, b: Relation, drivers: set<string>)
    ensures DistinctKeys(Writes(s, b, drivers))
  {
    var writes := Writes(s, b, drivers);
    assert |writes[0].key| == 18 && |writes[1].key| == 25 && |writes[2].key| == 31;
    assert |writes[3].key| == 25 && |writes[4].key| == 21 && |writes[5].key| == 28;
    assert writes[1].key[13] != writes[3].key[13];
  }

  /** Keys and values that no validator lets a comma into. */
  ghost predicate Plain(s: Relations, b: Relation) {
    && (forall pair | pair in s.payloads :: ',' !in pair.0 && ',' !in pair.1)
    && (forall pair | pair in s.dependencies :: ',' !in pair.0 && ',' !in pair.1)
    && (forall pair | pair in s.payloadSources :: ',' !in pair.0)
    && (forall pair | pair in s.dependencySources :: ',' !in pair.0)
    && (forall pair | pair in b :: pair.0 != "" && ',' !in pair.0)
  }

  lemma ParsedPlain(r: Readers, text: string)
    requires Sound(r)
    ensures forall p | p in ParsedDep(r, text) :: WellMade(p)
  {
    OneRecordPerPath(r, text);
  }

  lemma TablesPlain(r: Readers, files: Tables, modulesDep: seq<TablePath>, modulesBuiltin: seq<TablePath>)
    requires Sound(r)
    ensures Plain(AllPayloads(r, files, modulesDep), AllBuiltins(r, files, modulesBuiltin))
  {
    var s, b := AllPayloads(r, files, modulesDep), AllBuiltins(r, files, modulesBuiltin);
    forall path ensures forall p | p in ParsedDep(r, TextOf(files, path)) :: WellMade(p) {
      ParsedPlain(r, TextOf(files, path));
    }
    forall pair | pair in s.payloads ensures ',' !in pair.0 && ',' !in pair.1 {
      UnionMembers(modulesDep, (path: TablePath) => PayloadsOf(r, files, path), pair);
    }
    forall pair | pair in s.dependencies ensures ',' !in pair.0 && ',' !in pair.1 {
      UnionMembers(modulesDep, (path: TablePath) => DependenciesOf(r, files, path), pair);
    }
    forall pair | pair in s.payloadSources ensures ',' !in pair.0 {
      UnionMembers(modulesDep, (path: TablePath) => PayloadSourcesOf(r, files, path), pair);
    }
    forall pair | pair in s.dependencySources ensures ',' !in pair.0 {
      UnionMembers(modulesDep, (path: TablePath) => DependencySourcesOf(r, files, path), pair);
    }
    forall pair | pair in b ensures pair.0 != "" && ',' !in pair.0 {
      UnionMembers(modulesBuiltin, BuiltinsOfTable(r, files), pair);
    }
  }

  /** Under drivers free of commas, a capped list of entries is free of commas exactly when the
      values it shows are. */
  lemma CappedCommaFree(relation: Relation, drivers: set<string>, show: string -> string)
    requires forall pair | pair in relation :: ',' !in pair.0
    ensures CommaFree(Capped(relation, drivers, show))
            <==> forall pair | pair in relation && pair.0 in drivers
                               && Entry(pair.0, show(pair.1)) in Capped(relation, drivers, show) :: ',' !in show(pair.1)
  {
    assert forall entry | entry in Capped(relation, drivers, show) :: entry in Listing(relation, drivers, show);
    EntriesCommaFree(relation, drivers, show, Capped(relation, drivers, show));
  }

  lemma BuiltinsCommaFree(b: Relation, drivers: set<string>)
    requires forall pair | pair in b :: pair.0 != "" && ',' !in pair.0
    ensures CommaFree(Ascending(Keys(b) * drivers))
  {
    forall key | key in Ascending(Keys(b) * drivers) ensures key != "" && ',' !in key {
      assert key in Keys(b);
    }
  }

  /** Files, dependencies and built-ins read back exactly as they were listed. */
  lemma NamesReadBack(v: View, s: Relations, b: Relation, d: HardwareDevice, i: nat)
    requires Plain(s, b) && i in {0, 3, 4}
    ensures var write := Writes(s, b, v(d))[i];
            write.items != [] ==> Preflight.PropertyValues(AnnotatedDevice(v, s, b, d), write.key) == write.items
  {
    var writes := Writes(s, b, v(d));
    WrittenApart(s, b, v(d));
    CappedCommaFree(s.payloads, v(d), Itself);
    CappedCommaFree(s.dependencies, v(d), Itself);
    BuiltinsCommaFree(b, v(d));
    if writes[i].items != [] {
      EachIsRead(d, writes, i);
    }
  }

  /** The relation whose tables the i-th list names. */
  function SourcesAt(s: Relations, b: Relation, i: nat): Relation {
    if i == 1 then s.payloadSources else if i == 2 then s.dependencySources else b
  }

  /** Source lists read back exactly when no table they name has a comma in its path. */
  lemma SourcesReadBack(v: View, s: Relations, b: Relation, d: HardwareDevice, i: nat)
    requires Plain(s, b) && i in {1, 2, 5} && Writes(s, b, v(d))[i].items != []
    ensures var write := Writes(s, b, v(d))[i];
            Preflight.PropertyValues(AnnotatedDevice(v, s, b, d), write.key) == write.items
            <==> forall pair | pair in SourcesAt(s, b, i) && pair.0 in v(d)
                               && Entry(pair.0, Display(pair.1)) in write.items :: ',' !in pair.1
  {
    var writes := Writes(s, b, v(d));
    WrittenApart(s, b, v(d));
    EachIsRead(d, writes, i);
    CappedCommaFree(SourcesAt(s, b, i), v(d), Display);
    forall path ensures ',' in Display(path) <==> ',' in path {
      DisplayCommas(path);
    }
  }

  /** A list with nothing in it leaves the property as it was. */
  lemma NothingWritten(v: View, s: Relations, b: Relation, d: HardwareDevice, i: nat)
    requires i < 6 && Writes(s, b, v(d))[i].items == []
    ensures var key := Writes(s, b, v(d))[i].key;
            Preflight.PropertyValues(AnnotatedDevice(v, s, b, d), key) == Preflight.PropertyValues(d, key)
  {
    WrittenApart(s, b, v(d));
    EmptyIsUntouched(d, Writes(s, b, v(d)), i);
  }
}
