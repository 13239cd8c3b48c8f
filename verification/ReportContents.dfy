/** What the lists of a reported entry hold, from the tables and the devices found to the report
    (src/scan.rs, scan_inventory; src/preflight.rs, preflight_inventory). */
module ReportContents {
  import opened Wrappers
  import opened Text
  import opened Sorting
  import opened Facts
  import opened Capabilities
  import opened Metadata
  import opened Properties
  import opened Preflight
  import opened DriverSources
  import opened Scan
  import opened Reported
  import Glob
  import ModulesAlias
  import ModulesDep
  import ModulesFirmware
  import FirmwareFiles

  // ----- A right list stays right on its way to the report

  /** Which list is right for a device, as the device was before the pass that writes the list. */
  type Right = (HardwareDevice, seq<string>) -> bool

  datatype Rights = Rights(
    drivers: Right, firmware: Right, firmwareFiles: Right, files: Right, dependencies: Right, builtins: Right)

  ghost predicate WritesRight(pass: Pass, read: ListReader, name: string, right: Right) {
    forall d :: right(d, read(pass(d), name))
  }

  ghost predicate PassesRight(p: Passes, read: ListReader, n: PropertyNames, w: Rights) {
    && WritesRight(p.candidates, read, n.drivers, w.drivers)
    && WritesRight(p.firmware, read, n.firmware, w.firmware)
    && WritesRight(p.firmwareFiles, read, n.firmwareFiles, w.firmwareFiles)
    && WritesRight(p.driverFiles, read, n.files, w.files)
    && WritesRight(p.driverFiles, read, n.dependencies, w.dependencies)
    && WritesRight(p.driverFiles, read, n.builtins, w.builtins)
  }

  /** Each list of the entry is right for the device it was written for. */
  ghost predicate EntryIsRight(e: UnresolvedDevice, d: HardwareDevice, p: Passes, w: Rights) {
    var d1 := p.candidates(d);
    var d2 := p.firmware(d1);
    var d3 := p.firmwareFiles(d2);
    && e.deviceKey == d.key && e.modalias == d.modalias
    && w.drivers(d, e.candidateDrivers)
    && w.firmware(d1, e.candidateFirmware)
    && w.firmwareFiles(d2, e.candidateFirmwareFiles)
    && w.files(d3, e.candidateDriverFiles)
    && w.dependencies(d3, e.candidateDriverDependencies)
    && w.builtins(d3, e.candidateDriverBuiltins)
  }

  lemma ShownIsRight(
    e: UnresolvedDevice, d: HardwareDevice, p: Passes, read: ListReader, n: PropertyNames, w: Rights)
    requires Shows(e, d, p, read, n) && PassesRight(p, read, n, w)
    ensures EntryIsRight(e, d, p, w)
  {
  }

  lemma EntryRight(
    devices: seq<HardwareDevice>, p: Passes, read: ListReader, n: PropertyNames,
    d': HardwareDevice, e: UnresolvedDevice, w: Rights)
    returns (d: HardwareDevice)
    requires KeepsEarlier(p, n) && OnlyProperties(Run(p)) && ReadsProperty(read) && PassesRight(p, read, n, w)
    requires d' in Map(devices, Run(p)) && ShowsStages(e, d', d', d', d', d', read, n)
    ensures d in devices && EntryIsRight(e, d, p, w)
  {
    d := EntryShows(devices, p, read, n, d', e);
    ShownIsRight(e, d, p, read, n, w);
  }

  // ----- What is right

  /** Items that replace the list the device had, if there are any. */
  ghost predicate Replaced(before: seq<string>, items: seq<string>, shown: seq<string>) {
    shown == if items == [] then before else items
  }

  /** The n least of a set that replace the list the device had, if there are any. */
  ghost predicate LeastShown(before: seq<string>, all: set<string>, n: nat, shown: seq<string>) {
    if all == {} then shown == before else StrictlyAscending(shown) && AreLeast(ToSet(shown), all, n)
  }

  /** The 32 least drivers that both filters let through. For an ASCII modalias, or patterns with
      ASCII literal parts, those are all that some alias of some table matches. */
  ghost predicate DriversRight(aliases: set<ModulesAlias.LinuxAlias>, d: HardwareDevice, shown: seq<string>) {
    var before := PropertyValues(d, LINUX_NAMES.drivers);
    if d.modalias == "" then shown == before
    else
      && LeastShown(before, ModulesAlias.HitDrivers(aliases, d.modalias), MAX_DRIVER_CANDIDATES, shown)
      && (Glob.IsAscii(d.modalias) || ModulesAlias.AsciiLiterals(aliases) ==>
            LeastShown(before, ModulesAlias.MatchingDrivers(aliases, d.modalias), MAX_DRIVER_CANDIDATES, shown))
  }

  /** The 64 least valid names that the device reports or its drivers want. */
  ghost predicate FirmwareRight(v: ModulesFirmware.View, names: Relation, d: HardwareDevice, shown: seq<string>) {
    LeastShown(PropertyValues(d, LINUX_NAMES.firmware), ModulesFirmware.FirmwareNames(v, names, d),
               MAX_FIRMWARE_CANDIDATES, shown)
  }

  /** No file found for the device, and kept, has a comma in its path. */
  ghost predicate CommaFreeFiles(
    v: FirmwareFiles.View, r: FirmwareFiles.Resolver, roots: seq<TablePath>, suffixes: seq<string>,
    d: HardwareDevice, kept: seq<string>)
  {
    forall candidate, root, suffix, file
      | candidate in v(d) && root in roots && suffix in suffixes
        && FirmwareFiles.Found(r, root, candidate + suffix) == Some(file)
        && Entry(candidate, Display(file)) in kept :: ',' !in file
  }

  /** The 64 least files found, if and only if none of those has a comma in its path. */
  ghost predicate FirmwareFilesRight(
    v: FirmwareFiles.View, r: FirmwareFiles.Resolver, roots: seq<TablePath>, suffixes: seq<string>,
    d: HardwareDevice, shown: seq<string>)
  {
    var all := FirmwareFiles.Files(v, r, roots, suffixes, d);
    var kept := Take(Ascending(all), MAX_FIRMWARE_FILES);
    if all == {} then shown == PropertyValues(d, LINUX_NAMES.firmwareFiles)
    else
      AreLeast(ToSet(kept), all, MAX_FIRMWARE_FILES)
      && (shown == kept <==> CommaFreeFiles(v, r, roots, suffixes, d, kept))
  }

  /** The i-th list of the driver-files pass. */
  ghost predicate WriteRight(
    v: ModulesDep.View, s: ModulesDep.Relations, b: Relation, i: nat, d: HardwareDevice, shown: seq<string>)
    requires i < 6
  {
    var write := ModulesDep.Writes(s, b, v(d))[i];
    Replaced(PropertyValues(d, write.key), write.items, shown)
  }

  // ----- Each pass writes what is right

  lemma CandidatesRight(aliases: set<ModulesAlias.LinuxAlias>, pass: Pass, right: Right)
    requires ModulesAlias.AllWellMade(aliases) && pass == ModulesAlias.Annotated(aliases)
    requires forall d, shown :: right(d, shown) == DriversRight(aliases, d, shown)
    ensures WritesRight(pass, PropertyValues, LINUX_NAMES.drivers, right)
  {
    forall d: HardwareDevice ensures DriversRight(aliases, d, PropertyValues(pass(d), LINUX_NAMES.drivers)) {
      if d.modalias != "" {
        ModulesAlias.CandidatesAreLeast(aliases, d);
      }
    }
  }

  lemma NamesRight(v: ModulesFirmware.View, names: Relation, sources: Relation, pass: Pass, right: Right)
    requires ModulesFirmware.AllValid(names) && ModulesFirmware.ReportsValid(v)
    requires pass == ModulesFirmware.Annotated(v, names, sources)
    requires forall d, shown :: right(d, shown) == FirmwareRight(v, names, d, shown)
    ensures WritesRight(pass, PropertyValues, LINUX_NAMES.firmware, right)
  {
    forall d: HardwareDevice ensures FirmwareRight(v, names, d, PropertyValues(pass(d), LINUX_NAMES.firmware)) {
      ModulesFirmware.FirmwareIsLeast(v, names, sources, d);
    }
  }

  lemma FoundRight(
    v: FirmwareFiles.View, r: FirmwareFiles.Resolver, roots: seq<TablePath>, suffixes: seq<string>,
    pass: Pass, right: Right)
    requires forall d, candidate | candidate in v(d) :: ',' !in candidate
    requires pass == FirmwareFiles.Annotated(v, r, roots, suffixes)
    requires forall d, shown :: right(d, shown) == FirmwareFilesRight(v, r, roots, suffixes, d, shown)
    ensures WritesRight(pass, PropertyValues, LINUX_NAMES.firmwareFiles, right)
  {
    forall d: HardwareDevice
      ensures FirmwareFilesRight(v, r, roots, suffixes, d, PropertyValues(pass(d), LINUX_NAMES.firmwareFiles))
    {
      if FirmwareFiles.Files(v, r, roots, suffixes, d) == {} {
        EnumerationLength(Ascending({}), {});
      } else {
        FirmwareFiles.FilesReadBack(v, r, roots, suffixes, d);
      }
    }
  }

  lemma WrittenRight(
    v: ModulesDep.View, s: ModulesDep.Relations, b: Relation, i: nat, name: string, pass: Pass, right: Right)
    requires ModulesDep.Plain(s, b) && i in {0, 3, 4} && forall d :: ModulesDep.Writes(s, b, v(d))[i].key == name
    requires pass == ModulesDep.Annotated(v, s, b)
    requires forall d, shown :: right(d, shown) == WriteRight(v, s, b, i, d, shown)
    ensures WritesRight(pass, PropertyValues, name, right)
  {
    forall d: HardwareDevice ensures WriteRight(v, s, b, i, d, PropertyValues(pass(d), name)) {
      ModulesDep.NamesReadBack(v, s, b, d, i);
      if ModulesDep.Writes(s, b, v(d))[i].items == [] {
        ModulesDep.NothingWritten(v, s, b, d, i);
      }
    }
  }

  // ----- The Linux passes, each run when there is something to read

  /** The rule of a pass that was run, or the list as it was. */
  ghost function WhenRun(ran: bool, name: string, right: Right): Right {
    (d: HardwareDevice, shown: seq<string>) => if ran then right(d, shown) else shown == PropertyValues(d, name)
  }

  lemma WhenRunRight(ran: bool, name: string, right: Right, pass: Pass)
    requires if ran then WritesRight(pass, PropertyValues, name, right) else pass == Unchanged()
    ensures WritesRight(pass, PropertyValues, name, WhenRun(ran, name, right))
  {
  }

  ghost function DriversRule(aliases: set<ModulesAlias.LinuxAlias>): Right {
    (d: HardwareDevice, shown: seq<string>) => DriversRight(aliases, d, shown)
  }

  ghost function FirmwareRule(v: ModulesFirmware.View, names: Relation): Right {
    (d: HardwareDevice, shown: seq<string>) => FirmwareRight(v, names, d, shown)
  }

  ghost function FirmwareFilesRule(
    v: FirmwareFiles.View, r: FirmwareFiles.Resolver, roots: seq<TablePath>, suffixes: seq<string>): Right
  {
    (d: HardwareDevice, shown: seq<string>) => FirmwareFilesRight(v, r, roots, suffixes, d, shown)
  }

  ghost function WriteRule(v: ModulesDep.View, s: ModulesDep.Relations, b: Relation, i: nat): Right
    requires i < 6
  {
    (d: HardwareDevice, shown: seq<string>) => WriteRight(v, s, b, i, d, shown)
  }

  ghost function MergedAliases(files: Tables, s: Sources): set<ModulesAlias.LinuxAlias> {
    ModulesAlias.AllAliases(ModulesAlias.LINUX_READERS, files, s.modulesAlias, s.modulesFirmware)
  }

  ghost function MergedNames(files: Tables, s: Sources): Relation {
    ModulesFirmware.AllNames(ModulesFirmware.LINUX_READERS, files, s.modulesFirmware)
  }

  ghost function MergedPayloads(files: Tables, s: Sources): ModulesDep.Relations {
    ModulesDep.AllPayloads(ModulesDep.LINUX_READERS, files, s.modulesDep)
  }

  ghost function MergedBuiltins(files: Tables, s: Sources): Relation {
    ModulesDep.AllBuiltins(ModulesDep.LINUX_READERS, files, s.modulesBuiltin)
  }

  predicate ReadsAliases(s: Sources) {
    s.modulesAlias != [] || s.modulesFirmware != []
  }

  predicate ReadsFirmware(s: Sources) {
    s.modulesFirmware != [] || s.firmwareRoots != []
  }

  predicate ReadsPayloads(s: Sources) {
    s.modulesDep != [] || s.modulesBuiltin != []
  }

  /** What the six lists have to be. */
  ghost function LinuxRights(files: Tables, s: Sources, r: FirmwareFiles.Resolver): Rights {
    var (payloads, builtins) := (MergedPayloads(files, s), MergedBuiltins(files, s));
    Rights(
      WhenRun(ReadsAliases(s), LINUX_NAMES.drivers, DriversRule(MergedAliases(files, s))),
      WhenRun(ReadsFirmware(s), LINUX_NAMES.firmware, FirmwareRule(ModulesFirmware.LINUX_VIEW, MergedNames(files, s))),
      WhenRun(s.firmwareRoots != [], LINUX_NAMES.firmwareFiles,
              FirmwareFilesRule(FirmwareFiles.CandidatesOf, r, s.firmwareRoots, FirmwareFiles.FIRMWARE_SUFFIXES)),
      WhenRun(ReadsPayloads(s), LINUX_NAMES.files, WriteRule(DriversOf, payloads, builtins, 0)),
      WhenRun(ReadsPayloads(s), LINUX_NAMES.dependencies, WriteRule(DriversOf, payloads, builtins, 3)),
      WhenRun(ReadsPayloads(s), LINUX_NAMES.builtins, WriteRule(DriversOf, payloads, builtins, 4)))
  }

  lemma CandidatesPassRight(files: Tables, s: Sources)
    ensures WritesRight(CandidatesPass(files, s), PropertyValues, LINUX_NAMES.drivers,
                        WhenRun(ReadsAliases(s), LINUX_NAMES.drivers, DriversRule(MergedAliases(files, s))))
  {
    var (aliases, pass) := (MergedAliases(files, s), CandidatesPass(files, s));
    if ReadsAliases(s) {
      ModulesAlias.LinuxReadersSound();
      ModulesAlias.AllAliasesWellMade(ModulesAlias.LINUX_READERS, files, s.modulesAlias, s.modulesFirmware);
      CandidatesRight(aliases, pass, DriversRule(aliases));
    }
    WhenRunRight(ReadsAliases(s), LINUX_NAMES.drivers, DriversRule(aliases), pass);
  }

  lemma FirmwarePassRight(files: Tables, s: Sources)
    ensures WritesRight(FirmwarePass(files, s), PropertyValues, LINUX_NAMES.firmware,
                        WhenRun(ReadsFirmware(s), LINUX_NAMES.firmware,
                                FirmwareRule(ModulesFirmware.LINUX_VIEW, MergedNames(files, s))))
  {
    var (names, pass) := (MergedNames(files, s), FirmwarePass(files, s));
    var rule := FirmwareRule(ModulesFirmware.LINUX_VIEW, names);
    if ReadsFirmware(s) {
      ModulesFirmware.LinuxReadersSound();
      ModulesFirmware.LinuxViewReportsValid();
      ModulesFirmware.AllNamesValid(ModulesFirmware.LINUX_READERS, files, s.modulesFirmware);
      NamesRight(ModulesFirmware.LINUX_VIEW, names,
                 ModulesFirmware.AllSources(ModulesFirmware.LINUX_READERS, files, s.modulesFirmware), pass, rule);
    }
    WhenRunRight(ReadsFirmware(s), LINUX_NAMES.firmware, rule, pass);
  }

  lemma FirmwareFilesPassRight(s: Sources, r: FirmwareFiles.Resolver)
    ensures WritesRight(FirmwareFilesPass(s, r), PropertyValues, LINUX_NAMES.firmwareFiles,
                        WhenRun(s.firmwareRoots != [], LINUX_NAMES.firmwareFiles,
                                FirmwareFilesRule(FirmwareFiles.CandidatesOf, r, s.firmwareRoots,
                                                  FirmwareFiles.FIRMWARE_SUFFIXES)))
  {
    var (v, pass) := (FirmwareFiles.CandidatesOf, FirmwareFilesPass(s, r));
    var rule := FirmwareFilesRule(v, r, s.firmwareRoots, FirmwareFiles.FIRMWARE_SUFFIXES);
    if s.firmwareRoots != [] {
      FirmwareFiles.CandidatesCommaFree();
      FoundRight(v, r, s.firmwareRoots, FirmwareFiles.FIRMWARE_SUFFIXES, pass, rule);
    }
    WhenRunRight(s.firmwareRoots != [], LINUX_NAMES.firmwareFiles, rule, pass);
  }

  lemma DriverFilesPassRight(files: Tables, s: Sources, i: nat, name: string)
    requires (i == 0 && name == LINUX_NAMES.files) || (i == 3 && name == LINUX_NAMES.dependencies)
             || (i == 4 && name == LINUX_NAMES.builtins)
    ensures WritesRight(DriverFilesPass(files, s), PropertyValues, name,
                        WhenRun(ReadsPayloads(s), name,
                                WriteRule(DriversOf, MergedPayloads(files, s), MergedBuiltins(files, s), i)))
  {
    var (payloads, builtins) := (MergedPayloads(files, s), MergedBuiltins(files, s));
    var (pass, rule) := (DriverFilesPass(files, s), WriteRule(DriversOf, payloads, builtins, i));
    if ReadsPayloads(s) {
      ModulesDep.LinuxReadersSound();
      ModulesDep.TablesPlain(ModulesDep.LINUX_READERS, files, s.modulesDep, s.modulesBuiltin);
      WrittenRight(DriversOf, payloads, builtins, i, name, pass, rule);
    }
    WhenRunRight(ReadsPayloads(s), name, rule, pass);
  }

  lemma LinuxPassesRight(files: Tables, s: Sources, r: FirmwareFiles.Resolver)
    ensures PassesRight(LinuxPasses(files, s, r), PropertyValues, LINUX_NAMES, LinuxRights(files, s, r))
  {
    CandidatesPassRight(files, s);
    FirmwarePassRight(files, s);
    FirmwareFilesPassRight(s, r);
    DriverFilesPassRight(files, s, 0, LINUX_NAMES.files);
    DriverFilesPassRight(files, s, 3, LINUX_NAMES.dependencies);
    DriverFilesPassRight(files, s, 4, LINUX_NAMES.builtins);
  }

  /** End to end: for every entry of a scanned machine's report there is a device that was found, and
      the entry's candidate drivers are its 32 least matching drivers, its firmware names the 64
      least of its own and its drivers', its firmware files the 64 least found for those names, and
      its driver files, dependencies and built-ins those the tables list for its drivers. */
  lemma EveryEntryIsRight(
    found: seq<HardwareDevice>, files: Tables, s: Sources, r: FirmwareFiles.Resolver,
    inventory: Inventory, e: UnresolvedDevice)
    returns (d: HardwareDevice)
    requires inventory.devices == Scanned(found, files, s, r) && e in Unresolved(inventory)
    ensures d in SortedDevices(found)
    ensures EntryIsRight(e, d, LinuxPasses(files, s, r), LinuxRights(files, s, r))
  {
    PassesOnlyProperties(files, s, r);
    LinuxPassesKeepEarlier(files, s, r);
    PreflightReadsProperty();
    LinuxPassesRight(files, s, r);
    var d' := ReportedShowAsIs(inventory, e);
    d := EntryRight(SortedDevices(found), LinuxPasses(files, s, r), PropertyValues, LINUX_NAMES, d', e,
                    LinuxRights(files, s, r));
  }

  /** The drivers of a device depend on one property and its bound driver. */
  lemma SameDrivers(d: HardwareDevice, d': HardwareDevice)
    requires SameProperty(d, d', "linux_driver_candidates") && d.driver == d'.driver
    ensures DriversOf(d') == DriversOf(d)
  {
  }

  lemma KeptDrivers(pass: Pass, d: HardwareDevice)
    requires Keeps(pass, LINUX_NAMES.drivers) && OnlyProperties(pass)
    ensures DriversOf(pass(d)) == DriversOf(d)
  {
    assert pass(d) == d.(properties := pass(d).properties);
    SameDrivers(d, pass(d));
  }

  /** The drivers that the firmware and driver-files passes look up are those the candidates pass left. */
  lemma LaterPassesKeepDrivers(files: Tables, s: Sources, r: FirmwareFiles.Resolver, d: HardwareDevice)
    ensures var d2 := FirmwarePass(files, s)(d);
            DriversOf(d2) == DriversOf(d) && DriversOf(FirmwareFilesPass(s, r)(d2)) == DriversOf(d)
  {
    FirmwareKeysApart();
    FirmwareFilesKeyApart();
    FirmwarePassKeeps(files, s, LINUX_NAMES.drivers);
    FirmwareFilesPassKeeps(s, r, LINUX_NAMES.drivers);
    FirmwarePassOnlyProperties(files, s);
    FirmwareFilesPassOnlyProperties(s, r);
    KeptDrivers(FirmwarePass(files, s), d);
    KeptDrivers(FirmwareFilesPass(s, r), FirmwarePass(files, s)(d));
  }

  /** The device is matched by some alias, and it or all aliases' literal parts are ASCII. */
  ghost predicate Matched(aliases: set<ModulesAlias.LinuxAlias>, modalias: string) {
    modalias != "" && (Glob.IsAscii(modalias) || ModulesAlias.AsciiLiterals(aliases))
    && ModulesAlias.MatchingDrivers(aliases, modalias) != {}
  }

  /** The 32 least drivers with an alias whose pattern matches, in ascending order. */
  ghost predicate LeastMatching(shown: seq<string>, aliases: set<ModulesAlias.LinuxAlias>, modalias: string) {
    StrictlyAscending(shown)
    && AreLeast(ToSet(shown), ModulesAlias.MatchingDrivers(aliases, modalias), MAX_DRIVER_CANDIDATES)
  }

  /** What ReportedDriversAreLeast says of one entry. */
  ghost predicate DriversShown(aliases: set<ModulesAlias.LinuxAlias>, modalias: string, shown: seq<string>) {
    Matched(aliases, modalias) ==> LeastMatching(shown, aliases, modalias)
  }

  type ByModalias = (string, seq<string>) -> bool

  lemma RightDrivers(e: UnresolvedDevice, d: HardwareDevice, p: Passes, w: Rights, right: ByModalias)
    requires EntryIsRight(e, d, p, w)
    requires forall d: HardwareDevice, shown | w.drivers(d, shown) :: right(d.modalias, shown)
    ensures right(e.modalias, e.candidateDrivers)
  {
  }

  lemma ReportedDriversAre(
    found: seq<HardwareDevice>, files: Tables, s: Sources, r: FirmwareFiles.Resolver,
    inventory: Inventory, e: UnresolvedDevice, right: ByModalias)
    requires inventory.devices == Scanned(found, files, s, r) && e in Unresolved(inventory)
    requires forall d: HardwareDevice, shown | LinuxRights(files, s, r).drivers(d, shown) :: right(d.modalias, shown)
    ensures right(e.modalias, e.candidateDrivers)
  {
    var d := EveryEntryIsRight(found, files, s, r, inventory, e);
    RightDrivers(e, d, LinuxPasses(files, s, r), LinuxRights(files, s, r), right);
  }

  lemma RuleIsLeast(aliases: set<ModulesAlias.LinuxAlias>, rule: Right)
    requires rule == WhenRun(true, LINUX_NAMES.drivers, DriversRule(aliases))
    ensures forall d: HardwareDevice, shown | rule(d, shown) :: DriversShown(aliases, d.modalias, shown)
  {
  }

  /** In particular, the candidate drivers of an entry whose modalias is ASCII are exactly the 32
      least drivers that have, in some table, an alias whose pattern matches it. */
  lemma ReportedDriversAreLeast(
    found: seq<HardwareDevice>, files: Tables, s: Sources, r: FirmwareFiles.Resolver,
    inventory: Inventory, e: UnresolvedDevice)
    requires inventory.devices == Scanned(found, files, s, r) && e in Unresolved(inventory) && ReadsAliases(s)
    ensures DriversShown(MergedAliases(files, s), e.modalias, e.candidateDrivers)
  {
    var right := (modalias: string, shown: seq<string>) => DriversShown(MergedAliases(files, s), modalias, shown);
    RuleIsLeast(MergedAliases(files, s), LinuxRights(files, s, r).drivers);
    ReportedDriversAre(found, files, s, r, inventory, e, right);
  }
}
