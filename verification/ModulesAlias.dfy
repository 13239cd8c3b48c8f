/** Driver candidates from modules.alias and modules.builtin.modinfo (src/scan.rs,
    annotate_linux_driver_candidates). */
module ModulesAlias {
  import opened Wrappers
  import opened Text
  import opened Sorting
  import opened Facts
  import opened Glob
  import opened Metadata
  import Preflight

  datatype LinuxAlias = LinuxAlias(pattern: string, driver: string, literalPrefix: string, source: TablePath)

  predicate AliasAtMost(a: LinuxAlias, b: LinuxAlias) {
    Less(a.pattern, b.pattern) || (a.pattern == b.pattern && AtMost(a.driver, b.driver))
  }

  lemma AliasOrder()
    ensures TotalPreorder(AliasAtMost)
  {
    forall a: LinuxAlias, b: LinuxAlias ensures AliasAtMost(a, b) || AliasAtMost(b, a) {
      LessTotal(a.pattern, b.pattern);
      LessTotal(a.driver, b.driver);
    }
    forall a: LinuxAlias, b: LinuxAlias, c: LinuxAlias | AliasAtMost(a, b) && AliasAtMost(b, c)
      ensures AliasAtMost(a, c)
    {
      AliasTransitive(a, b, c);
    }
  }

  lemma AliasTransitive(a: LinuxAlias, b: LinuxAlias, c: LinuxAlias)
    requires AliasAtMost(a, b) && AliasAtMost(b, c)
    ensures AliasAtMost(a, c)
  {
    if a.pattern != b.pattern && b.pattern != c.pattern {
      LessTransitive(a.pattern, b.pattern, c.pattern);
    } else if a.pattern == b.pattern == c.pattern && a.driver != b.driver && b.driver != c.driver {
      LessIrreflexive(a.pattern);
      LessTransitive(a.driver, b.driver, c.driver);
    }
  }

  // ----- Reading one table

  function NewAlias(pattern: string, driver: string): LinuxAlias {
    LinuxAlias(pattern, driver, LiteralPrefix(pattern), "")
  }

  /** `alias PATTERN DRIVER`, and nothing more on the line. */
  function AliasOfLine(line: string): Option<LinuxAlias> {
    var fields := Words(line, IsAsciiWhitespace);
    if |fields| == 3 && fields[0] == "alias" && ValidDriverCandidate(fields[2])
    then Some(NewAlias(fields[1], fields[2]))
    else None
  }

  /** `MODULE.alias=PATTERN`. */
  function AliasOfRecord(record: string): Option<LinuxAlias> {
    var pair := SplitOnce(record, '=');
    if pair == None then None
    else
      var driver := StripSuffix(pair.value.0, ".alias");
      if driver == None then None
      else
        var name := CanonicalModuleName(driver.value);
        if pair.value.1 != "" && ValidDriverCandidate(name) then Some(NewAlias(pair.value.1, name)) else None
  }

  type AliasReader = string -> Option<LinuxAlias>

  /** How a text is cut into lines, and how one line, and one record, is read. Merging and matching
      need only that what is read is well made. */
  datatype Readers = Readers(lines: string -> seq<string>, line: AliasReader, record: AliasReader)

  const LINUX_READERS := Readers(Lines, AliasOfLine, AliasOfRecord)

  function AliasesIn(pieces: seq<string>, read: AliasReader): set<LinuxAlias> {
    set piece | piece in pieces && read(piece).Some? :: read(piece).value
  }

  /** An alias as the readers make it: a valid driver, and the prefix its pattern determines. */
  predicate WellMade(a: LinuxAlias) {
    ValidDriverCandidate(a.driver) && a.literalPrefix == LiteralPrefix(a.pattern)
  }

  ghost predicate AllWellMade(aliases: set<LinuxAlias>) {
    forall a | a in aliases :: WellMade(a)
  }

  ghost predicate MakesWell(read: AliasReader) {
    forall piece | read(piece).Some? :: WellMade(read(piece).value) && read(piece).value.source == ""
  }

  ghost predicate Sound(r: Readers) {
    MakesWell(r.line) && MakesWell(r.record)
  }

  lemma LinuxReadersSound()
    ensures Sound(LINUX_READERS)
  {
  }

  method ReadPieces(pieces: seq<string>, read: AliasReader) returns (aliases: seq<LinuxAlias>)
    ensures ToSet(aliases) == AliasesIn(pieces, read)
  {
    aliases := [];
    for i := 0 to |pieces|
      invariant ToSet(aliases) == AliasesIn(pieces[..i], read)
    {
      assert pieces[..i + 1] == pieces[..i] + [pieces[i]];
      var alias := read(pieces[i]);
      if alias == None {
        continue;
      }
      ghost var before := aliases;
      aliases := aliases + [alias.value];
      assert ToSet(aliases) == ToSet(before) + {alias.value};
    }
    assert pieces[..|pieces|] == pieces;
  }

  lemma SortKeepsSet<T(!new)>(s: seq<T>, le: (T, T) -> bool)
    ensures ToSet(StableSort(s, le)) == ToSet(s)
  {
    SameElements(s, StableSort(s, le));
    forall x ensures x in ToSet(StableSort(s, le)) <==> x in ToSet(s) {
    }
  }

  lemma DedupKeepsSet<T>(s: seq<T>, same: (T, T) -> bool)
    requires forall x, y | x in s && y in s && same(x, y) :: x == y
    ensures ToSet(Dedup(s, same)) == ToSet(s)
  {
    DedupMembers(s, same);
  }

  /** parse_modules_alias: every alias line of the text, ascending by pattern and driver. */
  method ParseModulesAlias(r: Readers, text: string) returns (aliases: seq<LinuxAlias>)
    ensures ToSet(aliases) == AliasesIn(r.lines(text), r.line)
    ensures forall i, j | 0 <= i < j < |aliases| ::
              var (a, b) := (aliases[i], aliases[j]);
              Less(a.pattern, b.pattern) || (a.pattern == b.pattern && AtMost(a.driver, b.driver))
  {
    aliases := ReadPieces(r.lines(text), r.line);
    SortKeepsSet(aliases, AliasAtMost);
    AliasOrder();
    StableSortSorted(aliases, AliasAtMost);
    aliases := StableSort(aliases, AliasAtMost);
  }

  predicate SamePatternDriver(a: LinuxAlias, b: LinuxAlias) {
    a.pattern == b.pattern && a.driver == b.driver
  }

  predicate AliasBefore(a: LinuxAlias, b: LinuxAlias) {
    AliasAtMost(a, b) && !SamePatternDriver(a, b)
  }

  /** parse_modules_builtin_modinfo_aliases: likewise for NUL-separated records, without repeats. */
  method ParseModulesBuiltinModinfoAliases(r: Readers, text: string) returns (aliases: seq<LinuxAlias>)
    requires Sound(r)
    ensures ToSet(aliases) == AliasesIn(Split(text, '\0'), r.record)
    ensures forall i, j | 0 <= i < j < |aliases| ::
              var (a, b) := (aliases[i], aliases[j]);
              Less(a.pattern, b.pattern) || (a.pattern == b.pattern && Less(a.driver, b.driver))
  {
    var pieces := Split(text, '\0');
    aliases := ReadPieces(pieces, r.record);
    SortKeepsSet(aliases, AliasAtMost);
    AliasOrder();
    StableSortSorted(aliases, AliasAtMost);
    AliasBeforeTransitive();
    aliases := StableSort(aliases, AliasAtMost);
    DedupAscends(aliases, AliasAtMost, SamePatternDriver, AliasBefore);
    RecordsDetermined(r, pieces, aliases);
    DedupKeepsSet(aliases, SamePatternDriver);
    aliases := Dedup(aliases, SamePatternDriver);
  }

  lemma AliasAntisymmetric(a: LinuxAlias, b: LinuxAlias)
    requires AliasBefore(a, b)
    ensures !AliasAtMost(b, a)
  {
    LessIrreflexive(a.pattern);
    if a.pattern == b.pattern {
      LessAsymmetric(a.driver, b.driver);
    } else {
      LessAsymmetric(a.pattern, b.pattern);
    }
  }

  lemma AliasBeforeTransitive()
    ensures forall a, b, c :: AliasBefore(a, b) && AliasBefore(b, c) ==> AliasBefore(a, c)
  {
    forall a: LinuxAlias, b: LinuxAlias, c: LinuxAlias | AliasBefore(a, b) && AliasBefore(b, c)
      ensures AliasBefore(a, c)
    {
      AliasTransitive(a, b, c);
      if SamePatternDriver(a, c) {
        AliasAntisymmetric(a, b);
        assert AliasAtMost(b, a);
      }
    }
  }

  /** Records that agree on pattern and driver are the same alias. */
  lemma RecordsDetermined(r: Readers, pieces: seq<string>, aliases: seq<LinuxAlias>)
    requires Sound(r) && ToSet(aliases) == AliasesIn(pieces, r.record)
    ensures forall a, b | a in aliases && b in aliases && SamePatternDriver(a, b) :: a == b
  {
    forall a | a in aliases ensures a == NewAlias(a.pattern, a.driver) {
      assert a in ToSet(aliases);
    }
  }

  // ----- Reading all tables

  predicate IsModinfo(path: TablePath) {
    TableName(path) == "modules.builtin.modinfo"
  }

  function From(path: TablePath): LinuxAlias -> LinuxAlias {
    (a: LinuxAlias) => a.(source := path)
  }

  function Sourced(aliases: set<LinuxAlias>, path: TablePath): set<LinuxAlias> {
    set a | a in aliases :: a.(source := path)
  }

  function AliasesOfLines(r: Readers, files: Tables, path: TablePath): set<LinuxAlias> {
    Sourced(AliasesIn(r.lines(TextOf(files, path)), r.line), path)
  }

  function AliasesOfRecords(r: Readers, files: Tables, path: TablePath): set<LinuxAlias> {
    Sourced(AliasesIn(Split(TextOf(files, path), '\0'), r.record), path)
  }

  function LinesOfTable(r: Readers, files: Tables): TablePath -> set<LinuxAlias> {
    (path: TablePath) => AliasesOfLines(r, files, path)
  }

  function RecordsOfTable(r: Readers, files: Tables): TablePath -> set<LinuxAlias> {
    (path: TablePath) => AliasesOfRecords(r, files, path)
  }

  /** Every alias of every table, with the table it comes from. */
  function AllAliases(r: Readers, files: Tables, modulesAlias: seq<TablePath>, modulesFirmware: seq<TablePath>)
    : set<LinuxAlias>
  {
    Union(modulesAlias, LinesOfTable(r, files)) + Union(Filter(modulesFirmware, IsModinfo), RecordsOfTable(r, files))
  }

  lemma SourcedSet(aliases: seq<LinuxAlias>, path: TablePath)
    ensures ToSet(Map(aliases, From(path))) == Sourced(ToSet(aliases), path)
  {
    var mapped := Map(aliases, From(path));
    forall a | a in mapped ensures a in Sourced(ToSet(aliases), path) {
      var i :| 0 <= i < |mapped| && mapped[i] == a;
      assert aliases[i] in ToSet(aliases);
    }
    forall a | a in aliases ensures a.(source := path) in mapped {
      var i :| 0 <= i < |aliases| && aliases[i] == a;
      assert mapped[i] == a.(source := path);
    }
  }

  lemma AppendSet<T>(s: seq<T>, t: seq<T>)
    ensures ToSet(s + t) == ToSet(s) + ToSet(t)
  {
  }

  method ReadAliasTable(r: Readers, files: Tables, path: TablePath) returns (aliases: Option<seq<LinuxAlias>>)
    ensures aliases.Some? <==> Readable(files, path)
    ensures aliases.Some? ==> ToSet(aliases.value) == LinesOfTable(r, files)(path)
  {
    var text := ReadTable(files, path);
    if text == None {
      return None;
    }
    var parsed := ParseModulesAlias(r, text.value);
    SourcedSet(parsed, path);
    return Some(Map(parsed, From(path)));
  }

  method ReadAliasTables(r: Readers, files: Tables, modulesAlias: seq<TablePath>)
    returns (ok: bool, aliases: seq<LinuxAlias>)
    ensures ok <==> AllReadable(files, modulesAlias)
    ensures ok ==> ToSet(aliases) == Union(modulesAlias, LinesOfTable(r, files))
  {
    aliases := [];
    ghost var done: seq<TablePath> := [];
    for i := 0 to |modulesAlias|
      invariant done == modulesAlias[..i] && AllReadable(files, done)
      invariant ToSet(aliases) == Union(done, LinesOfTable(r, files))
    {
      var path := modulesAlias[i];
      var more := ReadAliasTable(r, files, path);
      if more == None {
        assert path in modulesAlias;
        return false, aliases;
      }
      UnionSnoc(done, path, LinesOfTable(r, files));
      AppendSet(aliases, more.value);
      aliases := aliases + more.value;
      done := done + [path];
    }
    assert done == modulesAlias;
    return true, aliases;
  }

  method ReadModinfoTable(r: Readers, files: Tables, path: TablePath) returns (aliases: Option<seq<LinuxAlias>>)
    requires Sound(r)
    ensures aliases.Some? <==> Readable(files, path)
    ensures aliases.Some? ==> ToSet(aliases.value) == RecordsOfTable(r, files)(path)
  {
    var text := ReadTable(files, path);
    if text == None {
      return None;
    }
    var parsed := ParseModulesBuiltinModinfoAliases(r, text.value);
    SourcedSet(parsed, path);
    return Some(Map(parsed, From(path)));
  }

  method ReadModinfoTables(r: Readers, files: Tables, modulesFirmware: seq<TablePath>)
    returns (ok: bool, aliases: seq<LinuxAlias>)
    requires Sound(r)
    ensures ok <==> AllReadable(files, Filter(modulesFirmware, IsModinfo))
    ensures ok ==> ToSet(aliases) == Union(Filter(modulesFirmware, IsModinfo), RecordsOfTable(r, files))
  {
    aliases := [];
    for i := 0 to |modulesFirmware|
      invariant AllReadable(files, Filter(modulesFirmware[..i], IsModinfo))
      invariant ToSet(aliases) == Union(Filter(modulesFirmware[..i], IsModinfo), RecordsOfTable(r, files))
    {
      var path := modulesFirmware[i];
      ghost var done := Filter(modulesFirmware[..i], IsModinfo);
      FilterStep(modulesFirmware, i, IsModinfo);
      if !IsModinfo(path) {
        assert Filter(modulesFirmware[..i + 1], IsModinfo) == done;
        continue;
      }
      var more := ReadModinfoTable(r, files, path);
      if more == None {
        assert path in Filter(modulesFirmware, IsModinfo);
        return false, aliases;
      }
      assert Filter(modulesFirmware[..i + 1], IsModinfo) == done + [path];
      UnionSnoc(done, path, RecordsOfTable(r, files));
      AppendSet(aliases, more.value);
      aliases := aliases + more.value;
    }
    assert modulesFirmware[..|modulesFirmware|] == modulesFirmware;
    return true, aliases;
  }

  lemma UnionSnoc<T, U>(xs: seq<T>, x: T, f: T -> set<U>)
    ensures Union(xs + [x], f) == Union(xs, f) + f(x)
  {
    assert (xs + [x])[..|xs|] == xs;
  }

  predicate SameAlias(a: LinuxAlias, b: LinuxAlias) {
    a.pattern == b.pattern && a.driver == b.driver && a.source == b.source
  }

  lemma AllAliasesWellMade(r: Readers, files: Tables, modulesAlias: seq<TablePath>, modulesFirmware: seq<TablePath>)
    requires Sound(r)
    ensures AllWellMade(AllAliases(r, files, modulesAlias, modulesFirmware))
  {
    forall a | a in AllAliases(r, files, modulesAlias, modulesFirmware) ensures WellMade(a) {
      UnionMembers(modulesAlias, LinesOfTable(r, files), a);
      UnionMembers(Filter(modulesFirmware, IsModinfo), RecordsOfTable(r, files), a);
    }
  }

  /** The merged table. Sorting is by pattern and driver alone, so equal aliases need not become
      neighbours and some repeats stay; as a set, nothing is lost or added. */
  method CollectAliases(r: Readers, files: Tables, modulesAlias: seq<TablePath>, modulesFirmware: seq<TablePath>)
    returns (ok: bool, aliases: seq<LinuxAlias>)
    requires Sound(r)
    ensures ok <==> AllReadable(files, modulesAlias) && AllReadable(files, Filter(modulesFirmware, IsModinfo))
    ensures ok ==> ToSet(aliases) == AllAliases(r, files, modulesAlias, modulesFirmware)
  {
    ok, aliases := ReadAliasTables(r, files, modulesAlias);
    if !ok {
      return;
    }
    var builtin;
    ok, builtin := ReadModinfoTables(r, files, modulesFirmware);
    if !ok {
      return;
    }
    AppendSet(aliases, builtin);
    aliases := aliases + builtin;
    SortKeepsSet(aliases, AliasAtMost);
    aliases := StableSort(aliases, AliasAtMost);
    AllAliasesWellMade(r, files, modulesAlias, modulesFirmware);
    MergedDetermined(aliases);
    DedupKeepsSet(aliases, SameAlias);
    aliases := Dedup(aliases, SameAlias);
  }

  lemma MergedDetermined(aliases: seq<LinuxAlias>)
    requires AllWellMade(ToSet(aliases))
    ensures forall a, b | a in aliases && b in aliases && SameAlias(a, b) :: a == b
  {
    assert forall a | a in aliases :: a in ToSet(aliases);
  }

  /** The merged aliases depend on which tables there are, not on their order or repeats. */
  lemma TableOrderIrrelevant(
    r: Readers, files: Tables, alias1: seq<TablePath>, alias2: seq<TablePath>,
    firmware1: seq<TablePath>, firmware2: seq<TablePath>)
    requires ToSet(alias1) == ToSet(alias2) && ToSet(firmware1) == ToSet(firmware2)
    ensures AllAliases(r, files, alias1, firmware1) == AllAliases(r, files, alias2, firmware2)
  {
    UnionOrderless(alias1, alias2, LinesOfTable(r, files));
    var f1, f2 := Filter(firmware1, IsModinfo), Filter(firmware2, IsModinfo);
    assert forall path :: path in firmware1 <==> path in ToSet(firmware2);
    assert ToSet(f1) == ToSet(f2);
    UnionOrderless(f1, f2, RecordsOfTable(r, files));
  }

  // ----- Matching

  /** What the two filters let through. */
  ghost predicate Hit(a: LinuxAlias, modalias: string) {
    HasPrefix(modalias, a.literalPrefix) && Matches(a.pattern, modalias)
  }

  /** Which driver is claimed by which table. */
  ghost function Hits(aliases: set<LinuxAlias>, modalias: string): Relation {
    set a | a in aliases && Hit(a, modalias) :: (a.driver, a.source)
  }

  ghost function HitBy(modalias: string): LinuxAlias -> bool {
    (a: LinuxAlias) => Hit(a, modalias)
  }

  method SelectAliases(aliases: seq<LinuxAlias>, modalias: string) returns (selected: seq<LinuxAlias>)
    ensures selected == Filter(aliases, HitBy(modalias))
  {
    selected := [];
    for i := 0 to |aliases|
      invariant selected == Filter(aliases[..i], HitBy(modalias))
    {
      FilterStep(aliases, i, HitBy(modalias));
      if HasPrefix(modalias, aliases[i].literalPrefix) {
        var matched := GlobMatches(aliases[i].pattern, modalias);
        if matched {
          selected := selected + [aliases[i]];
        }
      }
    }
    assert aliases[..|aliases|] == aliases;
  }

  function Claims(aliases: set<LinuxAlias>): Relation {
    set a | a in aliases :: (a.driver, a.source)
  }

  lemma HitsSelected(aliases: seq<LinuxAlias>, modalias: string)
    ensures Hits(ToSet(aliases), modalias) == Claims(ToSet(Filter(aliases, HitBy(modalias))))
  {
    var selected := Filter(aliases, HitBy(modalias));
    forall a | a in aliases && Hit(a, modalias) ensures (a.driver, a.source) in Claims(ToSet(selected)) {
      assert HitBy(modalias)(a) && a in ToSet(selected);
    }
  }

  lemma ClaimsStep(aliases: seq<LinuxAlias>, i: nat)
    requires i < |aliases|
    ensures Claims(ToSet(aliases[..i + 1]))
            == Claims(ToSet(aliases[..i])) + {(aliases[i].driver, aliases[i].source)}
  {
    assert aliases[..i + 1] == aliases[..i] + [aliases[i]];
    AppendSet(aliases[..i], [aliases[i]]);
    assert ToSet([aliases[i]]) == {aliases[i]};
    assert aliases[i] in ToSet(aliases[..i + 1]);
  }

  method GroupClaims(selected: seq<LinuxAlias>) returns (candidates: set<string>, sources: map<string, set<TablePath>>)
    ensures candidates == Keys(Claims(ToSet(selected))) && sources == Grouped(Claims(ToSet(selected)))
  {
    candidates, sources := {}, map[];
    for i := 0 to |selected|
      invariant candidates == Keys(Claims(ToSet(selected[..i])))
      invariant sources == Grouped(Claims(ToSet(selected[..i])))
    {
      var alias := selected[i];
      ghost var claims := Claims(ToSet(selected[..i]));
      ClaimsStep(selected, i);
      KeysInserted(claims, alias.driver, alias.source);
      GroupedInserted(claims, alias.driver, alias.source);
      candidates := candidates + {alias.driver};
      sources := Inserted(sources, alias.driver, alias.source);
    }
    assert selected[..|selected|] == selected;
  }

  method MatchAliases(aliases: seq<LinuxAlias>, modalias: string)
    returns (candidates: set<string>, sources: map<string, set<TablePath>>)
    ensures var hits := Hits(ToSet(aliases), modalias); candidates == Keys(hits) && sources == Grouped(hits)
  {
    var selected := SelectAliases(aliases, modalias);
    candidates, sources := GroupClaims(selected);
    HitsSelected(aliases, modalias);
  }

  // ----- Annotating devices

  ghost function Candidates(hits: Relation): seq<string> {
    Take(Ascending(Keys(hits)), MAX_DRIVER_CANDIDATES)
  }

  ghost function CandidateSources(hits: Relation): seq<string> {
    Take(Listing(hits, ToSet(Candidates(hits)), Display), MAX_DRIVER_FILES)
  }

  ghost function WithCandidates(d: HardwareDevice, hits: Relation): HardwareDevice {
    var annotated := WithList(d, "linux_driver_candidates", Candidates(hits));
    WithList(annotated, "linux_driver_candidate_sources", CandidateSources(hits))
  }

  ghost function AnnotatedDevice(aliases: set<LinuxAlias>, d: HardwareDevice): HardwareDevice {
    if d.modalias == "" then d else WithCandidates(d, Hits(aliases, d.modalias))
  }

  ghost function Annotated(aliases: set<LinuxAlias>): HardwareDevice -> HardwareDevice {
    (d: HardwareDevice) => AnnotatedDevice(aliases, d)
  }

  lemma ValidDriverPlain(driver: string)
    requires ValidDriverCandidate(driver)
    ensures driver != "" && ',' !in driver && '=' !in driver
  {
  }

  ghost predicate PlainKeys(hits: Relation) {
    forall key | key in Keys(hits) :: key != "" && ',' !in key && '=' !in key
  }

  lemma HitsPlain(aliases: set<LinuxAlias>, modalias: string)
    requires AllWellMade(aliases)
    ensures PlainKeys(Hits(aliases, modalias))
  {
    forall key | key in Keys(Hits(aliases, modalias)) ensures key != "" && ',' !in key && '=' !in key {
      var a :| a in aliases && a.driver == key;
      ValidDriverPlain(key);
    }
  }

  /** The joined candidates, split again, are the candidates. */
  lemma CandidatesSplit(hits: Relation)
    requires PlainKeys(hits) && Keys(hits) != {}
    ensures Candidates(hits) != [] && Split(CommaList(Candidates(hits)), ',') == Candidates(hits)
    ensures CommaFree(Candidates(hits))
  {
    var all := Ascending(Keys(hits));
    EnumerationLength(all, Keys(hits));
    assert forall x | x in Candidates(hits) :: x in all;
    SplitJoin(Candidates(hits), ',');
  }

  method AnnotateDevice(aliases: seq<LinuxAlias>, d: HardwareDevice) returns (r: HardwareDevice)
    requires AllWellMade(ToSet(aliases))
    ensures r == Annotated(ToSet(aliases))(d)
  {
    r := d;
    if d.modalias == "" {
      return;
    }
    ghost var hits := Hits(ToSet(aliases), d.modalias);
    var candidates, sources := MatchAliases(aliases, d.modalias);
    var listed := ToSorted(candidates);
    if |listed| > MAX_DRIVER_CANDIDATES {
      listed := Take(listed, MAX_DRIVER_CANDIDATES);
    }
    assert listed == Candidates(hits);
    if candidates != {} {
      HitsPlain(ToSet(aliases), d.modalias);
      CandidatesSplit(hits);
      r := r.(properties := r.properties["linux_driver_candidates" := CommaList(listed)]);
      var selected := ToSet(Split(CommaList(listed), ','));
      var encoded := ListEntries(sources, selected, Display, hits);
      encoded := Take(encoded, MAX_DRIVER_FILES);
      if encoded != [] {
        r := r.(properties := r.properties["linux_driver_candidate_sources" := CommaList(encoded)]);
      }
    } else {
      NothingListed(hits);
    }
  }

  lemma NothingListed(hits: Relation)
    requires Keys(hits) == {}
    ensures Candidates(hits) == [] && CandidateSources(hits) == []
  {
    EnumerationLength(Ascending(Keys(hits)), Keys(hits));
    EnumerationLength(Ascending(Keys(hits) * ToSet(Candidates(hits))), {});
  }

  method AnnotateDevices(devices: array<HardwareDevice>, aliases: seq<LinuxAlias>)
    requires AllWellMade(ToSet(aliases))
    modifies devices
    ensures devices[..] == Map(old(devices[..]), Annotated(ToSet(aliases)))
  {
    ghost var f := Annotated(ToSet(aliases));
    for i := 0 to devices.Length
      invariant forall j | 0 <= j < i :: devices[j] == f(old(devices[j]))
      invariant forall j | i <= j < devices.Length :: devices[j] == old(devices[j])
    {
      var annotated := AnnotateDevice(aliases, devices[i]);
      devices[i] := annotated;
    }
    assert devices[..] == Map(old(devices[..]), f);
  }

  /** annotate_linux_driver_candidates: either some table cannot be read and no device changes,
      or every device is annotated from all tables together. */
  method AnnotateLinuxDriverCandidates(
    devices: array<HardwareDevice>, files: Tables,
    modulesAlias: seq<TablePath>, modulesFirmware: seq<TablePath>)
    returns (ok: bool)
    modifies devices
    ensures ok <==> AllReadable(files, modulesAlias) && AllReadable(files, Filter(modulesFirmware, IsModinfo))
    ensures ok ==> devices[..] == Map(old(devices[..]),
                                      Annotated(AllAliases(LINUX_READERS, files, modulesAlias, modulesFirmware)))
    ensures !ok ==> devices[..] == old(devices[..])
  {
    LinuxReadersSound();
    var aliases;
    ok, aliases := CollectAliases(LINUX_READERS, files, modulesAlias, modulesFirmware);
    if ok {
      AllAliasesWellMade(LINUX_READERS, files, modulesAlias, modulesFirmware);
      AnnotateDevices(devices, aliases);
    }
  }

  // ----- What a device ends up with

  /** The drivers whose pattern matches, without the prefix filter. */
  ghost function MatchingDrivers(aliases: set<LinuxAlias>, modalias: string): set<string> {
    set a | a in aliases && Matches(a.pattern, modalias) :: a.driver
  }

  predicate AsciiLiterals(aliases: set<LinuxAlias>) {
    forall a | a in aliases :: IsAscii(LiteralBytes(a.pattern))
  }

  /** The drivers both filters let through. */
  ghost function HitDrivers(aliases: set<LinuxAlias>, modalias: string): set<string> {
    Keys(Hits(aliases, modalias))
  }

  lemma HitDriver(aliases: set<LinuxAlias>, modalias: string, a: LinuxAlias)
    requires a in aliases && Hit(a, modalias)
    ensures a.driver in HitDrivers(aliases, modalias)
  {
    assert (a.driver, a.source) in Hits(aliases, modalias);
    assert (a.driver, a.source).0 == a.driver;
  }

  /** The prefix filter lets through only matches. For an ASCII modalias, or patterns with ASCII
      literal parts, it drops none; otherwise, what it drops are drivers all of whose matching
      aliases have a literal part that is not ASCII. */
  lemma HitsAreMatches(aliases: set<LinuxAlias>, modalias: string)
    requires AllWellMade(aliases)
    ensures HitDrivers(aliases, modalias) <= MatchingDrivers(aliases, modalias)
    ensures IsAscii(modalias) || AsciiLiterals(aliases) ==>
              (forall a | a in aliases :: Hit(a, modalias) <==> Matches(a.pattern, modalias))
              && HitDrivers(aliases, modalias) == MatchingDrivers(aliases, modalias)
    ensures forall a | a in aliases && Matches(a.pattern, modalias) && a.driver !in HitDrivers(aliases, modalias) ::
              !IsAscii(LiteralBytes(a.pattern))
  {
    forall a | a in aliases && Matches(a.pattern, modalias) && (IsAscii(modalias) || IsAscii(LiteralBytes(a.pattern)))
      ensures Hit(a, modalias) && a.driver in HitDrivers(aliases, modalias)
    {
      AsciiValueNeverMissed(a.pattern, modalias);
      HitDriver(aliases, modalias, a);
    }
  }

  lemma DifferentProperties()
    ensures "linux_driver_candidates" != "linux_driver_candidate_sources"
  {
    assert |"linux_driver_candidates"| != |"linux_driver_candidate_sources"|;
  }

  lemma SomeCandidates(hits: Relation)
    requires Keys(hits) != {}
    ensures Candidates(hits) != []
  {
    EnumerationLength(Ascending(Keys(hits)), Keys(hits));
  }

  /** The candidates written to a device, read back, are exactly the 32 least drivers that both
      filters let through; a device without any is left alone. With an ASCII modalias, whatever the
      tables hold, those are the drivers with some matching alias in some table. */
  lemma CandidatesAreLeast(aliases: set<LinuxAlias>, d: HardwareDevice)
    requires AllWellMade(aliases) && d.modalias != ""
    ensures var (all, after) := (HitDrivers(aliases, d.modalias), AnnotatedDevice(aliases, d));
            if all == {} then after == d
            else
              var kept := Preflight.PropertyValues(after, "linux_driver_candidates");
              StrictlyAscending(kept) && AreLeast(ToSet(kept), all, MAX_DRIVER_CANDIDATES)
    ensures IsAscii(d.modalias) || AsciiLiterals(aliases) ==>
              HitDrivers(aliases, d.modalias) == MatchingDrivers(aliases, d.modalias)
  {
    var hits := Hits(aliases, d.modalias);
    HitsAreMatches(aliases, d.modalias);
    HitsPlain(aliases, d.modalias);
    if Keys(hits) == {} {
      NothingListed(hits);
    } else {
      DifferentProperties();
      CandidatesSplit(hits);
      CommaRoundTrip(Candidates(hits));
      TakeLeast(Keys(hits), MAX_DRIVER_CANDIDATES);
    }
  }

  /** The later passes look up exactly the canonical names of the kept candidates, and of the bound
      driver. */
  lemma CandidatesAreDrivers(aliases: set<LinuxAlias>, d: HardwareDevice)
    requires AllWellMade(aliases) && d.modalias != "" && Keys(Hits(aliases, d.modalias)) != {}
    ensures DriversOf(AnnotatedDevice(aliases, d))
            == ToSet(Map(Candidates(Hits(aliases, d.modalias)), CanonicalModuleName))
               + (if d.driver.Some? then {CanonicalModuleName(d.driver.value)} else {})
  {
    HitsPlain(aliases, d.modalias);
    CandidatesSplit(Hits(aliases, d.modalias));
    DifferentProperties();
  }

  function Sources(aliases: set<LinuxAlias>): set<TablePath> {
    set a | a in aliases :: a.source
  }

  /** What is recorded about where a candidate comes from belongs to a kept candidate and a table
      that really names it. */
  lemma SourcesBelongToKept(aliases: set<LinuxAlias>, modalias: string, entry: string)
    requires entry in CandidateSources(Hits(aliases, modalias))
    ensures exists a | a in aliases ::
              && Matches(a.pattern, modalias) && a.driver in Candidates(Hits(aliases, modalias))
              && entry == Entry(a.driver, Display(a.source))
  {
    var hits := Hits(aliases, modalias);
    assert entry in Listing(hits, ToSet(Candidates(hits)), Display);
    ListingMembers(hits, ToSet(Candidates(hits)), Display, entry);
    var driver, source :| (driver, source) in hits && driver in Candidates(hits)
                          && entry == Entry(driver, Display(source));
  }

  lemma FewSources(aliases: set<LinuxAlias>, modalias: string, driver: string)
    ensures |ValuesOf(Hits(aliases, modalias), driver)| <= |Sources(aliases)|
  {
    assert ValuesOf(Hits(aliases, modalias), driver) <= Sources(aliases);
    SubsetSmaller(ValuesOf(Hits(aliases, modalias), driver), Sources(aliases));
  }

  lemma SubsetSmaller<T>(a: set<T>, b: set<T>)
    requires a <= b
    ensures |a| <= |b|
  {
    assert b == a + (b - a);
  }

  /** With at most two tables the cap of 64 drops nothing: every alias of every kept candidate is
      recorded. */
  lemma TwoTablesKeepAllSources(aliases: set<LinuxAlias>, modalias: string)
    requires |Sources(aliases)| <= 2
    ensures forall a | a in aliases && Hit(a, modalias) && a.driver in Candidates(Hits(aliases, modalias)) ::
              Entry(a.driver, Display(a.source)) in CandidateSources(Hits(aliases, modalias))
  {
    var hits := Hits(aliases, modalias);
    var kept := ToSet(Candidates(hits));
    ListingFits(aliases, modalias);
    forall a | a in aliases && Hit(a, modalias) && a.driver in kept
      ensures Entry(a.driver, Display(a.source)) in CandidateSources(hits)
    {
      assert (a.driver, a.source) in hits;
      ListingMembers(hits, kept, Display, Entry(a.driver, Display(a.source)));
    }
  }

  lemma ListingFits(aliases: set<LinuxAlias>, modalias: string)
    requires |Sources(aliases)| <= 2
    ensures var hits := Hits(aliases, modalias);
            |Listing(hits, ToSet(Candidates(hits)), Display)| <= MAX_DRIVER_FILES
  {
    var hits := Hits(aliases, modalias);
    var kept := ToSet(Candidates(hits));
    var listed := Ascending(Keys(hits) * kept);
    forall driver ensures |ValuesOf(hits, driver)| <= 2 {
      FewSources(aliases, modalias, driver);
    }
    TakeLeast(Keys(hits), MAX_DRIVER_CANDIDATES);
    SubsetSmaller(Keys(hits) * kept, kept);
    EnumerationLength(listed, Keys(hits) * kept);
    EntriesOfAllLength(hits, listed, Display, 2);
  }

  /** The tables aliases can come from. */
  lemma SourcesAreTables(r: Readers, files: Tables, modulesAlias: seq<TablePath>, modulesFirmware: seq<TablePath>)
    ensures Sources(AllAliases(r, files, modulesAlias, modulesFirmware))
            <= ToSet(modulesAlias) + ToSet(Filter(modulesFirmware, IsModinfo))
  {
    forall a | a in AllAliases(r, files, modulesAlias, modulesFirmware)
      ensures a.source in modulesAlias || a.source in Filter(modulesFirmware, IsModinfo)
    {
      UnionMembers(modulesAlias, LinesOfTable(r, files), a);
      UnionMembers(Filter(modulesFirmware, IsModinfo), RecordsOfTable(r, files), a);
    }
  }

  /** So at most two tables give aliases of at most two sources. */
  lemma FewTables(r: Readers, files: Tables, modulesAlias: seq<TablePath>, modulesFirmware: seq<TablePath>)
    ensures |Sources(AllAliases(r, files, modulesAlias, modulesFirmware))|
            <= |ToSet(modulesAlias) + ToSet(Filter(modulesFirmware, IsModinfo))|
  {
    SourcesAreTables(r, files, modulesAlias, modulesFirmware);
    SubsetSmaller(Sources(AllAliases(r, files, modulesAlias, modulesFirmware)),
                  ToSet(modulesAlias) + ToSet(Filter(modulesFirmware, IsModinfo)));
  }

  /** The recorded sources read back exactly when no table they name has a comma in its path. */
  lemma SourcesReadBack(aliases: set<LinuxAlias>, d: HardwareDevice)
    requires AllWellMade(aliases) && d.modalias != "" && Keys(Hits(aliases, d.modalias)) != {}
    ensures var hits := Hits(aliases, d.modalias);
            Preflight.PropertyValues(AnnotatedDevice(aliases, d), "linux_driver_candidate_sources")
            == CandidateSources(hits)
            <==> forall pair | pair in hits && Entry(pair.0, Display(pair.1)) in CandidateSources(hits) ::
                   ',' !in pair.1
  {
    var hits := Hits(aliases, d.modalias);
    SomeSources(hits);
    CommaRoundTrip(CandidateSources(hits));
    HitsPlain(aliases, d.modalias);
    EntriesCommaFree(hits, ToSet(Candidates(hits)), Display, CandidateSources(hits));
    forall pair | pair in hits ensures ',' in Display(pair.1) <==> ',' in pair.1 {
      DisplayCommas(pair.1);
    }
    forall pair | pair in hits && Entry(pair.0, Display(pair.1)) in CandidateSources(hits)
      ensures pair.0 in Candidates(hits)
    {
      ListedKeyIsKept(hits, pair.0, pair.1);
    }
  }

  /** An entry has no '=' before the one that ends its key, so it tells the key. */
  lemma ListedKeyIsKept(hits: Relation, driver: string, source: TablePath)
    requires (driver, source) in hits && Entry(driver, Display(source)) in CandidateSources(hits)
    requires forall key | key in Keys(hits) :: '=' !in key
    ensures driver in Candidates(hits)
  {
    var kept := ToSet(Candidates(hits));
    ListingMembers(hits, kept, Display, Entry(driver, Display(source)));
    var key, value :| (key, value) in hits && key in kept
                      && Entry(driver, Display(source)) == Entry(key, Display(value));
    assert (key, value).0 == key && (driver, source).0 == driver;
    EntryTellsKey(driver, Display(source));
    EntryTellsKey(key, Display(value));
  }

  lemma SomeSources(hits: Relation)
    requires Keys(hits) != {}
    ensures CandidateSources(hits) != []
  {
    SomeCandidates(hits);
    var first := Candidates(hits)[0];
    assert first in Ascending(Keys(hits)) && first in Keys(hits);
    var pair :| pair in hits && pair.0 == first;
    ListingMembers(hits, ToSet(Candidates(hits)), Display, Entry(pair.0, Display(pair.1)));
  }

}
