/** What the driver tables say, told by their texts: which lines and records name which drivers,
    payloads and firmware (src/scan.rs, the parse functions and the name validators). */
module Readings {
  import opened Wrappers
  import opened Text
  import opened Sorting
  import opened Facts
  import opened Metadata
  import Glob
  import Preflight
  import DriverSources
  import FirmwareFiles
  import Scan
  import ReportContents
  import ModulesAlias
  import ModulesFirmware
  import ModulesDep

  // ----- Names

  predicate DriverName(s: string) {
    s != "" && forall c | c in s :: IsAsciiAlphanumeric(c) || c == '_' || c == '-' || c == '.'
  }

  /** A relative path of a module that stays below where it starts. */
  ghost predicate ModulePath(s: string) {
    && s != "" && s[0] != '/' && StaysBelow(s)
    && forall c | c in s :: IsAsciiAlphanumeric(c) || c == '_' || c == '-' || c == '.' || c == '/'
  }

  ghost predicate FirmwareName(s: string) {
    && s != "" && s[0] != '/' && StaysBelow(s) && |s| <= 256
    && forall c | c in s ::
         IsAsciiAlphanumeric(c) || c == '_' || c == '-' || c == '.' || c == '/' || c == '+' || c == '@'
  }

  /** The validators accept exactly these names. */
  lemma NamesDecided(s: string)
    ensures ValidDriverCandidate(s) <==> DriverName(s)
    ensures ValidModulePath(s) <==> ModulePath(s)
    ensures ValidFirmwareCandidate(s) <==> FirmwareName(s)
  {
    ParentStands(s);
  }

  lemma NoSuffix(s: string, suffix: string)
    requires '.' !in s && suffix != "" && suffix[0] == '.'
    ensures !HasSuffix(s, suffix)
  {
    assert |suffix| <= |s| ==> s[|s| - |suffix|..][0] in s;
  }

  lemma {:induction false} StripNoDot(s: string, suffixes: seq<string>)
    requires '.' !in s && forall suffix | suffix in suffixes :: suffix != "" && suffix[0] == '.'
    ensures StripFirst(s, suffixes) == s
  {
    if suffixes != [] {
      assert suffixes[0] in suffixes && forall suffix | suffix in suffixes[1..] :: suffix in suffixes;
      NoSuffix(s, suffixes[0]);
      StripNoDot(s, suffixes[1..]);
    }
  }

  /** A module's plain name. */
  predicate PlainModule(s: string) {
    s != "" && forall c | c in s :: IsAsciiAlphanumeric(c) || c == '_' || c == '-'
  }

  /** The canonical name of a plain module name is that name with underscores for hyphens. */
  lemma CanonicalOfPlain(s: string)
    requires PlainModule(s)
    ensures CanonicalModuleName(s) == Replace(s, '-', '_')
    ensures |CanonicalModuleName(s)| == |s|
    ensures forall i | 0 <= i < |s| :: CanonicalModuleName(s)[i] == if s[i] == '-' then '_' else s[i]
  {
    assert '.' !in s && '/' !in s;
    assert "."[0] == '.' && ".."[0] == '.';
    FileNameIn("", s);
    StripNoDot(s, COMPRESSION_SUFFIXES);
    StripNoDot(s, [".ko"]);
  }

  // ----- Alias lines and records

  predicate SetApartBy(
    line: string, g0: string, a: string, g1: string, b: string, g2: string, c: string, g3: string)
  {
    && line == g0 + (a + (g1 + (b + (g2 + (c + g3)))))
    && AllSeparate(g0, IsAsciiWhitespace) && AllSeparate(g1, IsAsciiWhitespace)
    && AllSeparate(g2, IsAsciiWhitespace) && AllSeparate(g3, IsAsciiWhitespace)
    && g1 != "" && g2 != ""
  }

  /** The line is three words, set apart by white space. */
  ghost predicate SetApart(line: string, a: string, b: string, c: string) {
    exists g0, g1, g2, g3 :: SetApartBy(line, g0, a, g1, b, g2, c, g3)
  }

  /** The line is `alias PATTERN DRIVER`. */
  ghost predicate SpellsAlias(line: string, pattern: string, driver: string) {
    && pattern != "" && NoneSeparates(pattern, IsAsciiWhitespace) && DriverName(driver)
    && SetApart(line, "alias", pattern, driver)
  }

  /** The record is `MODULE.alias=PATTERN`, and the driver is the module's canonical name. */
  ghost predicate RecordsAlias(record: string, pattern: string, driver: string) {
    pattern != "" && DriverName(driver) && exists module_ :: RecordsFor(record, module_, pattern, driver)
  }

  predicate RecordsFor(record: string, module_: string, pattern: string, driver: string) {
    '=' !in module_ && record == module_ + (".alias=" + pattern) && driver == CanonicalModuleName(module_)
  }

  predicate Reads(read: ModulesAlias.AliasReader, piece: string, pattern: string, driver: string) {
    read(piece).Some? && read(piece).value.pattern == pattern && read(piece).value.driver == driver
  }

  lemma DriverIsWord(driver: string)
    requires DriverName(driver)
    ensures NoneSeparates(driver, IsAsciiWhitespace)
  {
  }

  /** Three words between gaps are the words of the line. */
  lemma ThreeWords(
    g0: string, a: string, g1: string, b: string, g2: string, c: string, g3: string, separator: char -> bool)
    requires AreWords([a, b, c], separator)
    requires AllSeparate(g0, separator) && AllSeparate(g1, separator)
    requires AllSeparate(g2, separator) && AllSeparate(g3, separator) && g1 != "" && g2 != ""
    ensures Words(g0 + (a + (g1 + (b + (g2 + (c + g3))))), separator) == [a, b, c]
  {
    assert a in [a, b, c] && b in [a, b, c] && c in [a, b, c];
    assert g3 != "" ==> g3[0] in g3;
    assert (g2 + (c + g3))[0] in g2 && (g1 + (b + (g2 + (c + g3))))[0] in g1;
    WordsNone(g3, separator);
    WordsPeel(g2, c, g3, separator);
    WordsPeel(g1, b, g2 + (c + g3), separator);
    WordsPeel(g0, a, g1 + (b + (g2 + (c + g3))), separator);
  }

  /** And a line of three words is put together like that. */
  lemma WordsApart(s: string, separator: char -> bool) returns (g0: string, g1: string, g2: string, g3: string)
    requires |Words(s, separator)| == 3
    ensures var w := Words(s, separator); s == g0 + (w[0] + (g1 + (w[1] + (g2 + (w[2] + g3)))))
    ensures AllSeparate(g0, separator) && AllSeparate(g1, separator)
    ensures AllSeparate(g2, separator) && AllSeparate(g3, separator) && g1 != "" && g2 != ""
  {
    var w := Words(s, separator);
    assert w[1] in w && w[2] in w;
    var rest0, rest1;
    g0, rest0 := WordsHead(s, separator);
    assert Words(rest0, separator) == w[1..];
    g1, rest1 := WordsHead(rest0, separator);
    assert Words(rest1, separator) == w[2..];
    g2, g3 := WordsHead(rest1, separator);
    assert Words(g3, separator) == [];
    NoWordsBlank(g3, separator);
    assert w[1][0] in w[1] && w[2][0] in w[2];
  }

  lemma SetApartReads(line: string, a: string, b: string, c: string)
    requires AreWords([a, b, c], IsAsciiWhitespace) && SetApart(line, a, b, c)
    ensures Words(line, IsAsciiWhitespace) == [a, b, c]
  {
    var g0, g1, g2, g3 :| SetApartBy(line, g0, a, g1, b, g2, c, g3);
    ThreeWords(g0, a, g1, b, g2, c, g3, IsAsciiWhitespace);
  }

  lemma WordsSetApart(line: string, words: seq<string>)
    requires Words(line, IsAsciiWhitespace) == words && |words| == 3
    ensures SetApart(line, words[0], words[1], words[2])
  {
    var g0, g1, g2, g3 := WordsApart(line, IsAsciiWhitespace);
    assert SetApartBy(line, g0, words[0], g1, words[1], g2, words[2], g3);
  }

  lemma AliasOfWords(line: string, pattern: string, driver: string)
    ensures Reads(ModulesAlias.AliasOfLine, line, pattern, driver)
            <==> Words(line, IsAsciiWhitespace) == ["alias", pattern, driver] && ValidDriverCandidate(driver)
  {
    var words := Words(line, IsAsciiWhitespace);
    assert |words| == 3 ==> words == [words[0], words[1], words[2]];
  }

  /** An alias is read from a line exactly when the line spells it. */
  lemma AliasLineExactly(line: string, pattern: string, driver: string)
    ensures Reads(ModulesAlias.AliasOfLine, line, pattern, driver) <==> SpellsAlias(line, pattern, driver)
  {
    NamesDecided(driver);
    AliasOfWords(line, pattern, driver);
    var words := ["alias", pattern, driver];
    if SpellsAlias(line, pattern, driver) {
      SpelledAreWords(pattern, driver);
      SetApartReads(line, "alias", pattern, driver);
    }
    if Reads(ModulesAlias.AliasOfLine, line, pattern, driver) {
      assert pattern in words;
      WordsSetApart(line, words);
    }
  }

  lemma SpelledAreWords(pattern: string, driver: string)
    requires DriverName(driver) && pattern != "" && NoneSeparates(pattern, IsAsciiWhitespace)
    ensures AreWords(["alias", pattern, driver], IsAsciiWhitespace)
  {
    DriverIsWord(driver);
  }

  lemma SplitOnceExactly(s: string, c: char, before: string, after: string)
    ensures SplitOnce(s, c) == Some((before, after)) <==> c !in before && s == before + ([c] + after)
  {
    if c !in before && s == before + ([c] + after) {
      BeforeAppend(before, [c] + after, c);
      assert s[|before| + 1..] == after;
    }
  }

  lemma StripSuffixExactly(s: string, suffix: string, before: string)
    ensures StripSuffix(s, suffix) == Some(before) <==> s == before + suffix
  {
    if s == before + suffix {
      assert s[|s| - |suffix|..] == suffix && s[..|before|] == before;
    }
  }

  lemma RecordReads(module_: string, pattern: string, record: string)
    requires '=' !in module_ && record == module_ + (".alias=" + pattern)
    ensures SplitOnce(record, '=') == Some((module_ + ".alias", pattern))
    ensures StripSuffix(module_ + ".alias", ".alias") == Some(module_)
  {
    assert record == (module_ + ".alias") + (['='] + pattern);
    assert forall c | c in module_ + ".alias" :: c in module_ || c in ".alias";
    SplitOnceExactly(record, '=', module_ + ".alias", pattern);
    StripSuffixExactly(module_ + ".alias", ".alias", module_);
  }

  lemma RecordSpells(record: string, owner: string, pattern: string, module_: string)
    requires SplitOnce(record, '=') == Some((owner, pattern)) && StripSuffix(owner, ".alias") == Some(module_)
    ensures '=' !in module_ && record == module_ + (".alias=" + pattern)
  {
    SplitOnceExactly(record, '=', owner, pattern);
    StripSuffixExactly(owner, ".alias", module_);
    assert forall c | c in module_ :: c in owner;
    assert record == module_ + (".alias=" + pattern);
  }

  lemma AliasOfParts(record: string, owner: string, module_: string, value: string, pattern: string, driver: string)
    requires SplitOnce(record, '=') == Some((owner, value)) && StripSuffix(owner, ".alias") == Some(module_)
    ensures Reads(ModulesAlias.AliasOfRecord, record, pattern, driver)
            <==> && pattern == value != "" && driver == CanonicalModuleName(module_)
                 && ValidDriverCandidate(driver)
  {
  }

  lemma RecordedIsRead(record: string, pattern: string, driver: string)
    requires RecordsAlias(record, pattern, driver)
    ensures Reads(ModulesAlias.AliasOfRecord, record, pattern, driver)
  {
    NamesDecided(driver);
    var module_ :| RecordsFor(record, module_, pattern, driver);
    RecordReads(module_, pattern, record);
    AliasOfParts(record, module_ + ".alias", module_, pattern, pattern, driver);
  }

  lemma ReadIsRecorded(record: string, pattern: string, driver: string)
    requires Reads(ModulesAlias.AliasOfRecord, record, pattern, driver)
    ensures RecordsAlias(record, pattern, driver)
  {
    NamesDecided(driver);
    var pair := SplitOnce(record, '=').value;
    var module_ := StripSuffix(pair.0, ".alias").value;
    AliasOfParts(record, pair.0, module_, pair.1, pattern, driver);
    RecordSpells(record, pair.0, pair.1, module_);
    assert RecordsFor(record, module_, pattern, driver);
  }

  /** An alias is read from a record exactly when the record spells it. */
  lemma AliasRecordExactly(record: string, pattern: string, driver: string)
    ensures Reads(ModulesAlias.AliasOfRecord, record, pattern, driver) <==> RecordsAlias(record, pattern, driver)
  {
    if RecordsAlias(record, pattern, driver) {
      RecordedIsRead(record, pattern, driver);
    }
    if Reads(ModulesAlias.AliasOfRecord, record, pattern, driver) {
      ReadIsRecorded(record, pattern, driver);
    }
  }

  // ----- What the alias tables say

  /** Each line, and each record, is read as it is spelled. */
  ghost predicate ReadsAsSpelled(r: ModulesAlias.Readers) {
    && (forall text :: r.lines(text) == Lines(text))
    && (forall line, pattern, driver :: Reads(r.line, line, pattern, driver) <==> SpellsAlias(line, pattern, driver))
    && (forall record, pattern, driver ::
          Reads(r.record, record, pattern, driver) <==> RecordsAlias(record, pattern, driver))
  }

  lemma LinuxReadersReadAsSpelled()
    ensures ReadsAsSpelled(ModulesAlias.LINUX_READERS)
  {
    forall line, pattern, driver
      ensures Reads(ModulesAlias.AliasOfLine, line, pattern, driver) <==> SpellsAlias(line, pattern, driver)
    {
      AliasLineExactly(line, pattern, driver);
    }
    forall record, pattern, driver
      ensures Reads(ModulesAlias.AliasOfRecord, record, pattern, driver) <==> RecordsAlias(record, pattern, driver)
    {
      AliasRecordExactly(record, pattern, driver);
    }
  }

  ghost predicate LineSays(text: string, pattern: string, driver: string) {
    exists line | line in Lines(text) :: SpellsAlias(line, pattern, driver)
  }

  ghost predicate RecordSays(text: string, pattern: string, driver: string) {
    exists record | record in Split(text, '\0') :: RecordsAlias(record, pattern, driver)
  }

  /** Some line of a modules.alias table, or some record of a modules.builtin.modinfo table, names the
      driver for the pattern. */
  ghost predicate TablesSay(
    files: Tables, modulesAlias: seq<TablePath>, modulesFirmware: seq<TablePath>, pattern: string, driver: string)
  {
    || (exists path | path in modulesAlias :: LineSays(TextOf(files, path), pattern, driver))
    || (exists path | path in modulesFirmware && TableName(path) == "modules.builtin.modinfo" ::
          RecordSays(TextOf(files, path), pattern, driver))
  }

  predicate IsAliasOf(a: ModulesAlias.LinuxAlias, pattern: string, driver: string) {
    a.pattern == pattern && a.driver == driver
  }

  lemma LineAliases(r: ModulesAlias.Readers, files: Tables, path: TablePath, pattern: string, driver: string)
    requires ReadsAsSpelled(r)
    ensures (exists a | a in ModulesAlias.AliasesOfLines(r, files, path) :: IsAliasOf(a, pattern, driver))
            <==> LineSays(TextOf(files, path), pattern, driver)
  {
    var lines := Lines(TextOf(files, path));
    assert r.lines(TextOf(files, path)) == lines;
    var aliases := ModulesAlias.AliasesIn(lines, r.line);
    if a :| a in ModulesAlias.AliasesOfLines(r, files, path) && IsAliasOf(a, pattern, driver) {
      var b :| b in aliases && b.(source := path) == a;
      var line :| line in lines && r.line(line).Some? && r.line(line).value == b;
      assert Reads(r.line, line, pattern, driver);
    }
    if line :| line in lines && SpellsAlias(line, pattern, driver) {
      assert Reads(r.line, line, pattern, driver);
      var b := r.line(line).value;
      assert b in aliases;
      assert b.(source := path) in ModulesAlias.AliasesOfLines(r, files, path);
      assert IsAliasOf(b.(source := path), pattern, driver);
    }
  }

  lemma RecordAliases(r: ModulesAlias.Readers, files: Tables, path: TablePath, pattern: string, driver: string)
    requires ReadsAsSpelled(r)
    ensures (exists a | a in ModulesAlias.AliasesOfRecords(r, files, path) :: IsAliasOf(a, pattern, driver))
            <==> RecordSays(TextOf(files, path), pattern, driver)
  {
    var records := Split(TextOf(files, path), '\0');
    var aliases := ModulesAlias.AliasesIn(records, r.record);
    if a :| a in ModulesAlias.AliasesOfRecords(r, files, path) && IsAliasOf(a, pattern, driver) {
      var b :| b in aliases && b.(source := path) == a;
      var record :| record in records && r.record(record).Some? && r.record(record).value == b;
      assert Reads(r.record, record, pattern, driver);
    }
    if record :| record in records && RecordsAlias(record, pattern, driver) {
      assert Reads(r.record, record, pattern, driver);
      var b := r.record(record).value;
      assert b in aliases;
      assert b.(source := path) in ModulesAlias.AliasesOfRecords(r, files, path);
      assert IsAliasOf(b.(source := path), pattern, driver);
    }
  }

  lemma AliasIsSaid(
    r: ModulesAlias.Readers, files: Tables, modulesAlias: seq<TablePath>, modulesFirmware: seq<TablePath>,
    a: ModulesAlias.LinuxAlias)
    requires ReadsAsSpelled(r) && a in ModulesAlias.AllAliases(r, files, modulesAlias, modulesFirmware)
    ensures TablesSay(files, modulesAlias, modulesFirmware, a.pattern, a.driver)
  {
    var modinfo := Filter(modulesFirmware, ModulesAlias.IsModinfo);
    var (lines, records) := (ModulesAlias.LinesOfTable(r, files), ModulesAlias.RecordsOfTable(r, files));
    assert IsAliasOf(a, a.pattern, a.driver);
    UnionMembers(modulesAlias, lines, a);
    UnionMembers(modinfo, records, a);
    if path :| path in modulesAlias && a in lines(path) {
      LineAliases(r, files, path, a.pattern, a.driver);
    } else {
      var path :| path in modinfo && a in records(path);
      RecordAliases(r, files, path, a.pattern, a.driver);
    }
  }

  lemma SaidByLine(
    r: ModulesAlias.Readers, files: Tables, modulesAlias: seq<TablePath>, modulesFirmware: seq<TablePath>,
    path: TablePath, pattern: string, driver: string)
    requires ReadsAsSpelled(r) && path in modulesAlias && LineSays(TextOf(files, path), pattern, driver)
    ensures exists a | a in ModulesAlias.AllAliases(r, files, modulesAlias, modulesFirmware) ::
              IsAliasOf(a, pattern, driver)
  {
    LineAliases(r, files, path, pattern, driver);
    var a :| a in ModulesAlias.LinesOfTable(r, files)(path) && IsAliasOf(a, pattern, driver);
    UnionMembers(modulesAlias, ModulesAlias.LinesOfTable(r, files), a);
  }

  lemma SaidByRecord(
    r: ModulesAlias.Readers, files: Tables, modulesAlias: seq<TablePath>, modulesFirmware: seq<TablePath>,
    path: TablePath, pattern: string, driver: string)
    requires ReadsAsSpelled(r) && path in modulesFirmware && TableName(path) == "modules.builtin.modinfo"
    requires RecordSays(TextOf(files, path), pattern, driver)
    ensures exists a | a in ModulesAlias.AllAliases(r, files, modulesAlias, modulesFirmware) ::
              IsAliasOf(a, pattern, driver)
  {
    RecordAliases(r, files, path, pattern, driver);
    var a :| a in ModulesAlias.RecordsOfTable(r, files)(path) && IsAliasOf(a, pattern, driver);
    assert path in Filter(modulesFirmware, ModulesAlias.IsModinfo);
    UnionMembers(Filter(modulesFirmware, ModulesAlias.IsModinfo), ModulesAlias.RecordsOfTable(r, files), a);
  }

  /** The merged table holds an alias exactly when some table says it. */
  lemma AliasesAreSaid(
    r: ModulesAlias.Readers, files: Tables, modulesAlias: seq<TablePath>, modulesFirmware: seq<TablePath>,
    pattern: string, driver: string)
    requires ReadsAsSpelled(r)
    ensures (exists a | a in ModulesAlias.AllAliases(r, files, modulesAlias, modulesFirmware) ::
               IsAliasOf(a, pattern, driver))
            <==> TablesSay(files, modulesAlias, modulesFirmware, pattern, driver)
  {
    if a :| a in ModulesAlias.AllAliases(r, files, modulesAlias, modulesFirmware) && IsAliasOf(a, pattern, driver) {
      AliasIsSaid(r, files, modulesAlias, modulesFirmware, a);
    }
    if path :| path in modulesAlias && LineSays(TextOf(files, path), pattern, driver) {
      SaidByLine(r, files, modulesAlias, modulesFirmware, path, pattern, driver);
    }
    if path :| path in modulesFirmware && TableName(path) == "modules.builtin.modinfo"
               && RecordSays(TextOf(files, path), pattern, driver) {
      SaidByRecord(r, files, modulesAlias, modulesFirmware, path, pattern, driver);
    }
  }

  /** Some table names the driver for a pattern that matches. */
  ghost predicate ClaimedBy(
    files: Tables, modulesAlias: seq<TablePath>, modulesFirmware: seq<TablePath>, modalias: string, driver: string)
  {
    exists pattern ::
      TablesSay(files, modulesAlias, modulesFirmware, pattern, driver) && Glob.Matches(pattern, modalias)
  }

  lemma MatchingAreClaimed(
    r: ModulesAlias.Readers, files: Tables, modulesAlias: seq<TablePath>, modulesFirmware: seq<TablePath>,
    modalias: string, driver: string)
    requires ReadsAsSpelled(r)
    ensures driver in ModulesAlias.MatchingDrivers(
                        ModulesAlias.AllAliases(r, files, modulesAlias, modulesFirmware), modalias)
            <==> ClaimedBy(files, modulesAlias, modulesFirmware, modalias, driver)
  {
    var aliases := ModulesAlias.AllAliases(r, files, modulesAlias, modulesFirmware);
    if driver in ModulesAlias.MatchingDrivers(aliases, modalias) {
      var a :| a in aliases && Glob.Matches(a.pattern, modalias) && a.driver == driver;
      assert IsAliasOf(a, a.pattern, driver);
      AliasesAreSaid(r, files, modulesAlias, modulesFirmware, a.pattern, driver);
    }
    if pattern :| TablesSay(files, modulesAlias, modulesFirmware, pattern, driver) && Glob.Matches(pattern, modalias) {
      AliasesAreSaid(r, files, modulesAlias, modulesFirmware, pattern, driver);
      var a :| a in aliases && IsAliasOf(a, pattern, driver);
    }
  }

  /** The set holds exactly the drivers that the tables claim for the modalias. */
  ghost predicate AreClaimed(
    all: set<string>, files: Tables, modulesAlias: seq<TablePath>, modulesFirmware: seq<TablePath>, modalias: string)
  {
    forall driver :: driver in all <==> ClaimedBy(files, modulesAlias, modulesFirmware, modalias, driver)
  }

  lemma MatchingDriversAre(
    r: ModulesAlias.Readers, all: set<string>, files: Tables,
    modulesAlias: seq<TablePath>, modulesFirmware: seq<TablePath>, modalias: string)
    requires ReadsAsSpelled(r) && AreClaimed(all, files, modulesAlias, modulesFirmware, modalias)
    ensures ModulesAlias.MatchingDrivers(
              ModulesAlias.AllAliases(r, files, modulesAlias, modulesFirmware), modalias) == all
  {
    forall driver
      ensures driver in ModulesAlias.MatchingDrivers(
                          ModulesAlias.AllAliases(r, files, modulesAlias, modulesFirmware), modalias)
              <==> driver in all
    {
      MatchingAreClaimed(r, files, modulesAlias, modulesFirmware, modalias, driver);
    }
  }

  /** So the candidates of a device with an ASCII modalias follow from the texts of the tables: they
      are the 32 least drivers that some line or record names for a matching pattern. */
  lemma CandidatesFollowTables(
    files: Tables, modulesAlias: seq<TablePath>, modulesFirmware: seq<TablePath>,
    d: HardwareDevice, all: set<string>)
    requires d.modalias != "" && Glob.IsAscii(d.modalias)
    requires AreClaimed(all, files, modulesAlias, modulesFirmware, d.modalias)
    ensures var aliases := ModulesAlias.AllAliases(ModulesAlias.LINUX_READERS, files, modulesAlias, modulesFirmware);
            var after := ModulesAlias.AnnotatedDevice(aliases, d);
            if all == {} then after == d
            else
              var kept := Preflight.PropertyValues(after, "linux_driver_candidates");
              StrictlyAscending(kept) && AreLeast(ToSet(kept), all, 32)
  {
    LinuxReadersReadAsSpelled();
    ModulesAlias.LinuxReadersSound();
    CandidatesFollow(ModulesAlias.LINUX_READERS, files, modulesAlias, modulesFirmware, d, all);
  }

  lemma CandidatesFollow(
    r: ModulesAlias.Readers, files: Tables, modulesAlias: seq<TablePath>, modulesFirmware: seq<TablePath>,
    d: HardwareDevice, all: set<string>)
    requires ReadsAsSpelled(r) && ModulesAlias.Sound(r)
    requires d.modalias != "" && Glob.IsAscii(d.modalias)
    requires AreClaimed(all, files, modulesAlias, modulesFirmware, d.modalias)
    ensures var aliases := ModulesAlias.AllAliases(r, files, modulesAlias, modulesFirmware);
            var after := ModulesAlias.AnnotatedDevice(aliases, d);
            if all == {} then after == d
            else
              var kept := Preflight.PropertyValues(after, "linux_driver_candidates");
              StrictlyAscending(kept) && AreLeast(ToSet(kept), all, 32)
  {
    MatchingDriversAre(r, all, files, modulesAlias, modulesFirmware, d.modalias);
    ModulesAlias.AllAliasesWellMade(r, files, modulesAlias, modulesFirmware);
    ModulesAlias.CandidatesAreLeast(ModulesAlias.AllAliases(r, files, modulesAlias, modulesFirmware), d);
  }

  /** And so do the drivers that a report shows. */
  lemma ReportFollowsTables(
    found: seq<HardwareDevice>, files: Tables, s: DriverSources.Sources, r: FirmwareFiles.Resolver,
    inventory: Inventory, e: Preflight.UnresolvedDevice, all: set<string>)
    requires inventory.devices == Scan.Scanned(found, files, s, r) && e in Preflight.Unresolved(inventory)
    requires ReportContents.ReadsAliases(s) && e.modalias != "" && Glob.IsAscii(e.modalias)
    requires all != {} && AreClaimed(all, files, s.modulesAlias, s.modulesFirmware, e.modalias)
    ensures StrictlyAscending(e.candidateDrivers) && AreLeast(ToSet(e.candidateDrivers), all, 32)
  {
    LinuxReadersReadAsSpelled();
    MatchingDriversAre(ModulesAlias.LINUX_READERS, all, files, s.modulesAlias, s.modulesFirmware, e.modalias);
    ReportContents.ReportedDriversAreLeast(found, files, s, r, inventory, e);
  }

  // ----- A table of alias lines

  function AliasLine(entry: (string, string)): string {
    "alias" + (" " + (entry.0 + (" " + entry.1)))
  }

  ghost predicate AliasEntries(entries: seq<(string, string)>) {
    forall entry | entry in entries ::
      entry.0 != "" && NoneSeparates(entry.0, IsAsciiWhitespace) && DriverName(entry.1)
  }

  lemma AliasLineSpells(entry: (string, string))
    requires entry.0 != "" && NoneSeparates(entry.0, IsAsciiWhitespace) && DriverName(entry.1)
    ensures SpellsAlias(AliasLine(entry), entry.0, entry.1) && PlainLine(AliasLine(entry))
  {
    var line := AliasLine(entry);
    assert line == "" + ("alias" + (" " + (entry.0 + (" " + (entry.1 + "")))));
    assert SetApartBy(line, "", "alias", " ", entry.0, " ", entry.1, "");
    DriverIsWord(entry.1);
    assert entry.1[|entry.1| - 1] in entry.1 && line[|line| - 1] == entry.1[|entry.1| - 1];
    forall c | c in line ensures c != '\n' {
      assert c in "alias" || c == ' ' || c in entry.0 || c in entry.1;
    }
  }

  /** A spelled line names one pattern and one driver. */
  lemma SpelledOnce(line: string, pattern: string, driver: string, pattern': string, driver': string)
    requires SpellsAlias(line, pattern, driver) && SpellsAlias(line, pattern', driver')
    ensures pattern == pattern' && driver == driver'
  {
    AliasLineExactly(line, pattern, driver);
    AliasLineExactly(line, pattern', driver');
  }

  /** A text of lines `alias PATTERN DRIVER` says exactly the pairs written. */
  lemma AliasTextReads(entries: seq<(string, string)>, pattern: string, driver: string)
    requires AliasEntries(entries)
    ensures LineSays(TextOfLines(Map(entries, AliasLine)), pattern, driver) <==> (pattern, driver) in entries
  {
    var lines := Map(entries, AliasLine);
    forall line | line in lines ensures PlainLine(line) {
      var i :| 0 <= i < |lines| && lines[i] == line;
      assert entries[i] in entries;
      AliasLineSpells(entries[i]);
    }
    LinesWritten(lines);
    if line :| line in lines && SpellsAlias(line, pattern, driver) {
      var i :| 0 <= i < |lines| && lines[i] == line;
      assert entries[i] in entries;
      AliasLineSpells(entries[i]);
      SpelledOnce(line, pattern, driver, entries[i].0, entries[i].1);
    }
    if (pattern, driver) in entries {
      var i :| 0 <= i < |entries| && entries[i] == (pattern, driver);
      AliasLineSpells(entries[i]);
      assert lines[i] in lines;
    }
  }

  function AliasRecord(entry: (string, string)): string {
    entry.0 + (".alias=" + entry.1)
  }

  ghost predicate RecordEntries(entries: seq<(string, string)>) {
    forall entry | entry in entries :: PlainModule(entry.0) && entry.1 != "" && '\0' !in entry.1
  }

  lemma AliasRecordSpells(entry: (string, string))
    requires PlainModule(entry.0) && entry.1 != "" && '\0' !in entry.1
    ensures '\0' !in AliasRecord(entry)
    ensures RecordsAlias(AliasRecord(entry), entry.1, Replace(entry.0, '-', '_'))
  {
    var record := AliasRecord(entry);
    CanonicalOfPlain(entry.0);
    PlainNames(entry.0);
    assert RecordsFor(record, entry.0, entry.1, Replace(entry.0, '-', '_'));
    forall c | c in record ensures c != '\0' {
      assert c in entry.0 || c in ".alias=" || c in entry.1;
    }
  }

  /** A spelled record names one pattern and one driver. */
  lemma RecordedOnce(record: string, pattern: string, driver: string, pattern': string, driver': string)
    requires RecordsAlias(record, pattern, driver) && RecordsAlias(record, pattern', driver')
    ensures pattern == pattern' && driver == driver'
  {
    AliasRecordExactly(record, pattern, driver);
    AliasRecordExactly(record, pattern', driver');
  }

  lemma PlainNames(s: string)
    requires PlainModule(s)
    ensures '=' !in s && '\0' !in s && DriverName(Replace(s, '-', '_'))
  {
    var replaced := Replace(s, '-', '_');
    forall c | c in replaced ensures IsAsciiAlphanumeric(c) || c == '_' {
      var i :| 0 <= i < |replaced| && replaced[i] == c;
      assert s[i] in s;
    }
  }

  /** A text of records `MODULE.alias=PATTERN`, with NUL between them, says exactly the patterns
      written, each for its module with underscores for hyphens. */
  lemma AliasRecordsRead(entries: seq<(string, string)>, pattern: string, driver: string)
    requires entries != [] && RecordEntries(entries)
    ensures RecordSays(Join(Map(entries, AliasRecord), '\0'), pattern, driver)
            <==> exists entry | entry in entries :: pattern == entry.1 && driver == Replace(entry.0, '-', '_')
  {
    var records := Map(entries, AliasRecord);
    forall i | 0 <= i < |entries|
      ensures '\0' !in records[i] && RecordsAlias(records[i], entries[i].1, Replace(entries[i].0, '-', '_'))
    {
      assert entries[i] in entries;
      AliasRecordSpells(entries[i]);
    }
    SplitJoin(records, '\0');
    if record :| record in records && RecordsAlias(record, pattern, driver) {
      var i :| 0 <= i < |records| && records[i] == record;
      assert entries[i] in entries;
      RecordedOnce(record, pattern, driver, entries[i].1, Replace(entries[i].0, '-', '_'));
    }
    if entry :| entry in entries && pattern == entry.1 && driver == Replace(entry.0, '-', '_') {
      var i :| 0 <= i < |entries| && entries[i] == entry;
      assert records[i] in records;
    }
  }

  // ----- Lines of modules.dep and modules.builtin

  lemma ModulePathPlain(path: string)
    requires ModulePath(path)
    ensures ':' !in path && '\n' !in path && !IsTrimmed(path[0]) && !IsTrimmed(path[|path| - 1])
    ensures NoneSeparates(path, IsAsciiWhitespace)
  {
    assert path[0] in path && path[|path| - 1] in path;
  }

  lemma {:induction false} FilterAll<T>(s: seq<T>, p: T -> bool)
    requires forall x | x in s :: p(x)
    ensures Filter(s, p) == s
  {
    if s != [] {
      assert s[0] in s && forall x | x in s[1..] :: x in s;
      FilterAll(s[1..], p);
    }
  }

  lemma OwnerBeforeColon(before: string, path: string, after: string, rest: string)
    requires ModulePath(path)
    requires AllSeparate(before, IsTrimmed) && AllSeparate(after, IsTrimmed)
    ensures SplitOnce(before + (path + (after + (":" + rest))), ':') == Some((before + (path + after), rest))
    ensures Trim(before + (path + after)) == path
  {
    var owner := before + (path + after);
    ModulePathPlain(path);
    forall c | c in owner ensures c != ':' {
      assert c in before || c in path || c in after;
    }
    assert before + (path + (after + (":" + rest))) == owner + ([':'] + rest);
    SplitOnceExactly(owner + ([':'] + rest), ':', owner, rest);
    TrimGaps(before, path, after);
  }

  lemma PayloadOf(line: string, owner: string, path: string, rest: string)
    requires SplitOnce(line, ':') == Some((owner, rest)) && Trim(owner) == path && ValidModulePath(path)
    ensures ModulesDep.PayloadOfLine(line)
            == Some(ModulesDep.ModulePayload(
                      CanonicalModuleName(path), path, Filter(Words(rest, IsAsciiWhitespace), ValidModulePath)))
  {
  }

  lemma FilterPaths(words: seq<string>)
    ensures forall w :: w in Filter(words, ValidModulePath) <==> w in words && ModulePath(w)
    ensures (forall w | w in words :: ModulePath(w)) ==> Filter(words, ValidModulePath) == words
  {
    forall w ensures ValidModulePath(w) <==> ModulePath(w) {
      NamesDecided(w);
    }
    if forall w | w in words :: ModulePath(w) {
      FilterAll(words, ValidModulePath);
    }
  }

  /** A line `PATH: DEPENDENCIES` is read as that path with the module paths among the words after the
      colon, in their order; all of them, when all are module paths. */
  lemma PayloadReads(before: string, path: string, after: string, rest: string)
    requires ModulePath(path)
    requires AllSeparate(before, IsTrimmed) && AllSeparate(after, IsTrimmed)
    ensures var words := Words(rest, IsAsciiWhitespace);
            match ModulesDep.PayloadOfLine(before + (path + (after + (":" + rest))))
            case None => false
            case Some(p) =>
              && p.path == path && p.module_ == CanonicalModuleName(path)
              && (forall w :: w in p.dependencies <==> w in words && ModulePath(w))
              && ((forall w | w in words :: ModulePath(w)) ==> p.dependencies == words)
  {
    OwnerBeforeColon(before, path, after, rest);
    NamesDecided(path);
    PayloadOf(before + (path + (after + (":" + rest))), before + (path + after), path, rest);
    FilterPaths(Words(rest, IsAsciiWhitespace));
  }

  lemma NoPayload(line: string)
    requires ':' !in line
    ensures ModulesDep.PayloadOfLine(line) == None
  {
    BeforeAppend(line, "", ':');
    assert line + "" == line;
  }

  lemma PayloadLineParts(path: string, dependencies: seq<string>)
    requires ModulePath(path)
    ensures SplitOnce(path + (": " + Join(dependencies, ' ')), ':') == Some((path, " " + Join(dependencies, ' ')))
    ensures Trim(path) == path
  {
    var rest := " " + Join(dependencies, ' ');
    OwnerBeforeColon("", path, "", rest);
    assert path + (": " + Join(dependencies, ' ')) == "" + (path + ("" + (":" + rest)));
    assert "" + (path + "") == path;
  }

  /** So the dependencies written after a payload are read, in order and none dropped. */
  lemma PayloadLineReads(path: string, dependencies: seq<string>)
    requires ModulePath(path) && forall d | d in dependencies :: ModulePath(d)
    ensures ModulesDep.PayloadOfLine(path + (": " + Join(dependencies, ' ')))
            == Some(ModulesDep.ModulePayload(CanonicalModuleName(path), path, dependencies))
  {
    PayloadLineParts(path, dependencies);
    DependenciesRead(dependencies);
    NamesDecided(path);
    PayloadOf(path + (": " + Join(dependencies, ' ')), path, path, " " + Join(dependencies, ' '));
    FilterPaths(dependencies);
  }

  lemma DependenciesRead(dependencies: seq<string>)
    requires forall d | d in dependencies :: ModulePath(d)
    ensures Words(" " + Join(dependencies, ' '), IsAsciiWhitespace) == dependencies
  {
    forall d | d in dependencies ensures d != "" && NoneSeparates(d, IsAsciiWhitespace) {
      ModulePathPlain(d);
    }
    WordsJoin(dependencies, ' ', IsAsciiWhitespace);
    WordsSkip(" ", Join(dependencies, ' '), IsAsciiWhitespace);
  }

  type PayloadEntry = (string, seq<string>)

  function PayloadLine(entry: PayloadEntry): string {
    entry.0 + (": " + Join(entry.1, ' '))
  }

  function PayloadRecord(entry: PayloadEntry): ModulesDep.ModulePayload {
    ModulesDep.ModulePayload(CanonicalModuleName(entry.0), entry.0, entry.1)
  }

  ghost predicate IsPayloadEntry(entry: PayloadEntry) {
    ModulePath(entry.0) && forall d | d in entry.1 :: ModulePath(d)
  }

  /** A line of modules.builtin is read as the canonical name of the payload it shows, whatever white
      space is around it. */
  lemma BuiltinReads(before: string, directory: string, name: string, compression: string, after: string)
    requires name != "" && '/' !in name && (compression == "" || compression in COMPRESSION_SUFFIXES)
    requires ModulePath(directory + (['/'] + (name + ".ko" + compression)))
    requires AllSeparate(before, IsTrimmed) && AllSeparate(after, IsTrimmed)
    ensures ModulesDep.BuiltinOfLine(before + ((directory + (['/'] + (name + ".ko" + compression))) + after))
            == Some(Replace(name, '-', '_'))
  {
    var path := directory + (['/'] + (name + ".ko" + compression));
    ModulePathPlain(path);
    NamesDecided(path);
    TrimGaps(before, path, after);
    CanonicalOfPayload(directory, name, compression);
  }

  ghost predicate ReadsPayloads(r: ModulesDep.Readers) {
    forall entry | IsPayloadEntry(entry) :: r.payload(PayloadLine(entry)) == Some(PayloadRecord(entry))
  }

  lemma LinuxReadersReadPayloads()
    ensures ReadsPayloads(ModulesDep.LINUX_READERS)
  {
    forall entry | IsPayloadEntry(entry)
      ensures ModulesDep.PayloadOfLine(PayloadLine(entry)) == Some(PayloadRecord(entry))
    {
      PayloadLineReads(entry.0, entry.1);
    }
  }

  /** A text of lines `PATH: DEPENDENCIES` holds exactly the payloads written, in order, each with all
      its dependencies. */
  lemma PayloadTextReads(r: ModulesDep.Readers, entries: seq<PayloadEntry>)
    requires ReadsPayloads(r) && forall entry | entry in entries :: IsPayloadEntry(entry)
    ensures ModulesDep.PayloadsIn(r, Lines(TextOfLines(Map(entries, PayloadLine)))) == Map(entries, PayloadRecord)
  {
    var lines := Map(entries, PayloadLine);
    forall i | 0 <= i < |entries| ensures PlainLine(lines[i]) {
      assert entries[i] in entries;
      PayloadLinePlain(entries[i]);
    }
    LinesWritten(lines);
    forall i | 0 <= i < |entries| ensures r.payload(lines[i]) == Some(PayloadRecord(entries[i])) {
      assert entries[i] in entries;
    }
    LinesRead(r, lines, Map(entries, PayloadRecord));
  }

  lemma {:induction false} LinesRead(
    r: ModulesDep.Readers, lines: seq<string>, records: seq<ModulesDep.ModulePayload>)
    requires |lines| == |records| && forall i | 0 <= i < |lines| :: r.payload(lines[i]) == Some(records[i])
    ensures ModulesDep.PayloadsIn(r, lines) == records
  {
    if lines != [] {
      LinesRead(r, lines[1..], records[1..]);
      assert records == [records[0]] + records[1..];
    }
  }

  lemma PayloadLinePlain(entry: PayloadEntry)
    requires IsPayloadEntry(entry)
    ensures PlainLine(PayloadLine(entry))
  {
    ModulePathPlain(entry.0);
    forall d | d in entry.1 ensures d != "" && NoLineEnd(d) {
      ModulePathPlain(d);
    }
    JoinedLines(entry.1);
  }

  predicate NoLineEnd(s: string) {
    '\n' !in s && '\r' !in s
  }

  lemma {:induction false} JoinedLines(words: seq<string>)
    requires forall w | w in words :: NoLineEnd(w)
    ensures NoLineEnd(Join(words, ' '))
  {
    if |words| >= 1 {
      assert words[0] in words;
    }
    if |words| > 1 {
      assert forall w | w in words[1..] :: w in words;
      JoinedLines(words[1..]);
    }
  }

  // ----- Lines and records of modules.firmware

  predicate SeparatesNames(c: char) {
    c == ' ' || c == ','
  }

  lemma FirmwareNamePlain(name: string)
    requires FirmwareName(name)
    ensures NoneSeparates(name, ModulesFirmware.SeparatesFirmware)
    ensures !IsTrimmed(name[0]) && !IsTrimmed(name[|name| - 1])
  {
    assert name[0] in name && name[|name| - 1] in name;
  }

  ghost predicate FirmwareNames(names: seq<string>) {
    names != [] && forall name | name in names :: FirmwareName(name)
  }

  lemma NamesRead(names: seq<string>, c: char)
    requires FirmwareNames(names) && SeparatesNames(c)
    ensures ModulesFirmware.ValidNames(Join(names, c)) == names
    ensures ModulesFirmware.ValidNames(" " + Join(names, c)) == names
  {
    forall name | name in names ensures name != "" && NoneSeparates(name, ModulesFirmware.SeparatesFirmware) {
      FirmwareNamePlain(name);
    }
    WordsJoin(names, c, ModulesFirmware.SeparatesFirmware);
    WordsSkip(" ", Join(names, c), ModulesFirmware.SeparatesFirmware);
    forall name | name in names ensures ValidFirmwareCandidate(name) {
      NamesDecided(name);
    }
    FilterAll(names, ValidFirmwareCandidate);
  }

  /** A record `MODULE.firmware=NAMES` is read as the module, with underscores for hyphens, and its
      names, in order and none dropped, whether commas or spaces separate them. */
  lemma MentionRecordReads(module_: string, names: seq<string>, c: char)
    requires PlainModule(module_) && FirmwareNames(names) && SeparatesNames(c)
    ensures ModulesFirmware.MentionOfRecord(module_ + (".firmware=" + Join(names, c)))
            == Some(ModulesFirmware.Mention(Replace(module_, '-', '_'), names))
  {
    var owner, text := module_ + ".firmware", Join(names, c);
    PlainNames(module_);
    forall x | x in owner ensures x != '=' {
      assert x in module_ || x in ".firmware";
    }
    assert module_ + (".firmware=" + text) == owner + (['='] + text);
    SplitOnceExactly(owner + (['='] + text), '=', owner, text);
    StripSuffixExactly(owner, ".firmware", module_);
    MentionOf(module_, text, names, c);
  }

  lemma MentionOf(module_: string, text: string, names: seq<string>, c: char)
    requires PlainModule(module_) && FirmwareNames(names) && SeparatesNames(c)
    requires text == Join(names, c) || text == " " + Join(names, c)
    ensures ModulesFirmware.NewMention(module_, text)
            == Some(ModulesFirmware.Mention(Replace(module_, '-', '_'), names))
  {
    NamesRead(names, c);
    CanonicalOfPlain(module_);
  }

  lemma {:induction false} JoinEnds(names: seq<string>, c: char)
    requires names != [] && forall name | name in names :: name != "" && !IsTrimmed(name[|name| - 1])
    ensures Join(names, c) != "" && !IsTrimmed(Join(names, c)[|Join(names, c)| - 1])
  {
    assert names[0] in names;
    if |names| > 1 {
      assert forall name | name in names[1..] :: name in names;
      JoinEnds(names[1..], c);
    }
  }

  /** Likewise a line `MODULE: NAMES`. */
  lemma MentionLineReads(module_: string, names: seq<string>, c: char)
    requires PlainModule(module_) && FirmwareNames(names) && SeparatesNames(c)
    ensures ModulesFirmware.MentionOfLine(module_ + (": " + Join(names, c)))
            == Some(ModulesFirmware.Mention(Replace(module_, '-', '_'), names))
  {
    var text := Join(names, c);
    var line := module_ + (": " + text);
    MentionLineParts(module_, names, c);
    SplitOnceExactly(line, ':', module_, " " + text);
    MentionOf(module_, " " + text, names, c);
  }

  lemma MentionLineParts(module_: string, names: seq<string>, c: char)
    requires PlainModule(module_) && FirmwareNames(names) && SeparatesNames(c)
    ensures var line := module_ + (": " + Join(names, c));
            && Trim(line) == line && line[0] != '#'
            && line == module_ + ([':'] + (" " + Join(names, c))) && ':' !in module_
  {
    var text := Join(names, c);
    var line := module_ + (": " + text);
    PlainTrims(module_);
    forall name | name in names ensures name != "" && !IsTrimmed(name[|name| - 1]) {
      FirmwareNamePlain(name);
    }
    JoinEnds(names, c);
    assert line[0] == module_[0] && line[|line| - 1] == text[|text| - 1];
    TrimGaps("", line, "");
    assert "" + (line + "") == line;
  }

  lemma PlainTrims(module_: string)
    requires PlainModule(module_)
    ensures ':' !in module_ && !IsTrimmed(module_[0]) && module_[0] != '#'
  {
    assert module_[0] in module_;
  }

  /** A comment is no mention. */
  lemma CommentSaysNothing(comment: string)
    requires comment == "" || !IsTrimmed(comment[|comment| - 1])
    ensures ModulesFirmware.MentionOfLine("#" + comment) == None
  {
    TrimGaps("", "#" + comment, "");
    assert "" + (("#" + comment) + "") == "#" + comment;
  }

  /** The names a device reports are read whether commas, spaces or tabs separate them; a device without
      the property reports none. */
  lemma ReportedNamesRead(d: HardwareDevice, names: seq<string>, c: char)
    requires FirmwareNames(names) && (c == ',' || c == ' ' || c == '\t')
    requires "firmware" in d.properties ==> d.properties["firmware"] == Join(names, c)
    ensures ModulesFirmware.SysfsFirmware(d) == if "firmware" in d.properties then ToSet(names) else {}
  {
    forall name | name in names
      ensures name != "" && NoneSeparates(name, ModulesFirmware.SeparatesSysfsFirmware)
      ensures ValidFirmwareCandidate(name)
    {
      FirmwareNamePlain(name);
      NamesDecided(name);
    }
    WordsJoin(names, c, ModulesFirmware.SeparatesSysfsFirmware);
    FilterAll(names, ValidFirmwareCandidate);
  }

  /** The firmware names written to a device are the ones looked for among the firmware files. */
  lemma WrittenNamesRead(d: HardwareDevice, names: seq<string>)
    requires FirmwareNames(names)
    requires "linux_firmware_candidates" in d.properties ==>
               d.properties["linux_firmware_candidates"] == CommaList(names)
    ensures FirmwareFiles.CandidatesOf(d) == if "linux_firmware_candidates" in d.properties then names else []
  {
    forall name | name in names ensures ',' !in name && ValidFirmwareCandidate(name) {
      NamesDecided(name);
    }
    SplitJoin(names, ',');
    FilterAll(names, ValidFirmwareCandidate);
  }

  /** Whatever the property holds, only relative names that stay below the roots are looked for. */
  lemma OnlyNamesLookedFor(d: HardwareDevice)
    ensures forall name | name in FirmwareFiles.CandidatesOf(d) :: FirmwareName(name)
  {
    forall name | name in FirmwareFiles.CandidatesOf(d) ensures FirmwareName(name) {
      NamesDecided(name);
    }
  }

  type FirmwareEntry = (string, seq<string>)

  function FirmwareLine(entry: FirmwareEntry): string {
    entry.0 + (": " + Join(entry.1, ' '))
  }

  function FirmwareRecord(entry: FirmwareEntry): string {
    entry.0 + (".firmware=" + Join(entry.1, ' '))
  }

  predicate PlainText(s: string) {
    '\n' !in s && '\0' !in s
  }

  ghost predicate FirmwareEntries(entries: seq<FirmwareEntry>) {
    forall entry | entry in entries :: PlainModule(entry.0) && FirmwareNames(entry.1)
  }

  /** Each line, and each record, is read as the entry it spells, and a text without a colon is no line. */
  ghost predicate ReadsMentions(r: ModulesFirmware.Readers) {
    && (forall entry: FirmwareEntry | PlainModule(entry.0) && FirmwareNames(entry.1) ::
          && r.line(FirmwareLine(entry)) == Some(ModulesFirmware.Mention(Replace(entry.0, '-', '_'), entry.1))
          && r.record(FirmwareRecord(entry)) == Some(ModulesFirmware.Mention(Replace(entry.0, '-', '_'), entry.1)))
    && (forall line | ':' !in line :: r.line(line) == None)
  }

  lemma {:induction false} TrimEndWithin(s: string)
    ensures forall c | c in TrimEnd(s) :: c in s
  {
    if s != "" && IsTrimmed(s[|s| - 1]) {
      TrimEndWithin(s[..|s| - 1]);
    }
  }

  lemma NoColonSaysNothing(line: string)
    requires ':' !in line
    ensures ModulesFirmware.MentionOfLine(line) == None
  {
    TrimStartBlank(line);
    TrimEndWithin(TrimStart(line));
    BeforeAppend(Trim(line), "", ':');
    assert Trim(line) + "" == Trim(line);
  }

  lemma LinuxReadersReadMentions()
    ensures ReadsMentions(ModulesFirmware.LINUX_READERS)
  {
    forall entry: FirmwareEntry | PlainModule(entry.0) && FirmwareNames(entry.1)
      ensures ModulesFirmware.MentionOfLine(FirmwareLine(entry))
              == Some(ModulesFirmware.Mention(Replace(entry.0, '-', '_'), entry.1))
      ensures ModulesFirmware.MentionOfRecord(FirmwareRecord(entry))
              == Some(ModulesFirmware.Mention(Replace(entry.0, '-', '_'), entry.1))
    {
      MentionLineReads(entry.0, entry.1, ' ');
      MentionRecordReads(entry.0, entry.1, ' ');
    }
    forall line | ':' !in line ensures ModulesFirmware.MentionOfLine(line) == None {
      NoColonSaysNothing(line);
    }
  }

  /** Some entry lists the name for the module. */
  ghost predicate Lists(entries: seq<FirmwareEntry>, module_: string, name: string) {
    exists entry | entry in entries :: module_ == Replace(entry.0, '-', '_') && name in entry.1
  }

  /** What pieces say, each read as the entry it spells. */
  lemma PiecesSay(
    read: ModulesFirmware.MentionReader, pieces: seq<string>, entries: seq<FirmwareEntry>,
    module_: string, name: string)
    requires |pieces| == |entries|
    requires forall i | 0 <= i < |pieces| ::
               read(pieces[i]) == Some(ModulesFirmware.Mention(Replace(entries[i].0, '-', '_'), entries[i].1))
    ensures (module_, name) in Union(pieces, ModulesFirmware.Reading(read)) <==> Lists(entries, module_, name)
  {
    UnionMembers(pieces, ModulesFirmware.Reading(read), (module_, name));
    if piece :| piece in pieces && (module_, name) in ModulesFirmware.Reading(read)(piece) {
      var i :| 0 <= i < |pieces| && pieces[i] == piece;
      assert entries[i] in entries;
    }
    if entry :| entry in entries && module_ == Replace(entry.0, '-', '_') && name in entry.1 {
      var i :| 0 <= i < |entries| && entries[i] == entry;
      assert pieces[i] in pieces && (module_, name) in ModulesFirmware.Reading(read)(pieces[i]);
    }
  }

  lemma {:induction false} JoinedPlain(names: seq<string>, c: char)
    requires PlainText([c]) && c != ':' && forall name | name in names :: PlainText(name) && ':' !in name
    ensures PlainText(Join(names, c)) && ':' !in Join(names, c)
  {
    if |names| >= 1 {
      assert names[0] in names;
      assert c in [c];
    }
    if |names| > 1 {
      assert forall name | name in names[1..] :: name in names;
      JoinedPlain(names[1..], c);
    }
  }

  lemma EntryTexts(entry: FirmwareEntry)
    requires PlainModule(entry.0) && FirmwareNames(entry.1)
    ensures PlainLine(FirmwareLine(entry)) && PlainText(FirmwareLine(entry))
    ensures PlainText(FirmwareRecord(entry)) && ':' !in FirmwareRecord(entry)
  {
    var text := Join(entry.1, ' ');
    forall name | name in entry.1 ensures PlainText(name) && ':' !in name {
      NameText(name);
    }
    JoinedPlain(entry.1, ' ');
    MentionLineParts(entry.0, entry.1, ' ');
    ModuleText(entry.0);
    forall name | name in entry.1 ensures name != "" && !IsTrimmed(name[|name| - 1]) {
      FirmwareNamePlain(name);
    }
    JoinEnds(entry.1, ' ');
    var line := FirmwareLine(entry);
    assert line[|line| - 1] == text[|text| - 1];
    assert PlainText(": ") && PlainText(".firmware=") && ':' !in ".firmware=";
  }

  lemma NameText(name: string)
    requires FirmwareName(name)
    ensures PlainText(name) && ':' !in name
  {
  }

  lemma ModuleText(module_: string)
    requires PlainModule(module_)
    ensures PlainText(module_) && ':' !in module_
  {
  }

  /** A text of lines `MODULE: NAMES` says exactly the names written, each for its module with
      underscores for hyphens. */
  lemma FirmwareTextReads(r: ModulesFirmware.Readers, entries: seq<FirmwareEntry>, module_: string, name: string)
    requires ReadsMentions(r) && FirmwareEntries(entries)
    ensures (module_, name) in ModulesFirmware.FirmwareIn(r, TextOfLines(Map(entries, FirmwareLine)))
            <==> Lists(entries, module_, name)
  {
    var lines := Map(entries, FirmwareLine);
    forall i | 0 <= i < |entries| ensures PlainLine(lines[i]) && PlainText(lines[i]) {
      assert entries[i] in entries;
      EntryTexts(entries[i]);
    }
    LinesWritten(lines);
    NoNulInLines(lines);
    forall i | 0 <= i < |entries|
      ensures r.line(lines[i]) == Some(ModulesFirmware.Mention(Replace(entries[i].0, '-', '_'), entries[i].1))
    {
      assert entries[i] in entries;
    }
    PiecesSay(r.line, lines, entries, module_, name);
  }

  lemma {:induction false} NoNulInLines(lines: seq<string>)
    requires forall line | line in lines :: PlainText(line)
    ensures '\0' !in TextOfLines(lines)
  {
    if lines != [] {
      assert lines[0] in lines;
      NoNulInLines(lines[1..]);
    }
  }

  /** A text of two or more records `MODULE.firmware=NAMES`, with NUL between them, likewise. */
  lemma FirmwareRecordsRead(r: ModulesFirmware.Readers, entries: seq<FirmwareEntry>, module_: string, name: string)
    requires ReadsMentions(r) && FirmwareEntries(entries) && |entries| >= 2
    ensures (module_, name) in ModulesFirmware.FirmwareIn(r, Join(Map(entries, FirmwareRecord), '\0'))
            <==> Lists(entries, module_, name)
  {
    var records := Map(entries, FirmwareRecord);
    RecordsRead(r, entries);
    PiecesSay(r.record, records, entries, module_, name);
    SplitJoin(records, '\0');
    RecordsAreNoLine(records);
    assert Join(records, '\0')[|records[0]|] == '\0';
    OneLineSaysNothing(r.line, Join(records, '\0'));
  }

  lemma RecordsRead(r: ModulesFirmware.Readers, entries: seq<FirmwareEntry>)
    requires ReadsMentions(r) && FirmwareEntries(entries)
    ensures var records := Map(entries, FirmwareRecord);
            && (forall record | record in records :: PlainText(record) && ':' !in record)
            && (forall i | 0 <= i < |records| ::
                  r.record(records[i]) == Some(ModulesFirmware.Mention(Replace(entries[i].0, '-', '_'), entries[i].1)))
  {
    var records := Map(entries, FirmwareRecord);
    forall i | 0 <= i < |entries|
      ensures PlainText(records[i]) && ':' !in records[i]
      ensures r.record(records[i]) == Some(ModulesFirmware.Mention(Replace(entries[i].0, '-', '_'), entries[i].1))
    {
      assert entries[i] in entries;
      EntryTexts(entries[i]);
    }
  }

  lemma OneLineSaysNothing(read: ModulesFirmware.MentionReader, text: string)
    requires '\n' !in text && read(text) == None
    ensures Union(Lines(text), ModulesFirmware.Reading(read)) == {}
  {
    LinesLast(text);
    if text != "" {
      assert [text][..0] == [];
      assert ModulesFirmware.Reading(read)(text) == {};
    }
  }

  lemma {:induction false} RecordsAreNoLine(records: seq<string>)
    requires forall record | record in records :: PlainText(record) && ':' !in record
    ensures '\n' !in Join(records, '\0') && ':' !in Join(records, '\0')
  {
    if |records| >= 1 {
      assert records[0] in records;
    }
    if |records| > 1 {
      assert forall record | record in records[1..] :: record in records;
      RecordsAreNoLine(records[1..]);
    }
  }
}
