/** From the tables and the devices found to the installer's report: what each reported entry shows
    (src/scan.rs, scan_inventory; src/preflight.rs, preflight_inventory). */
module Reported {
  import opened Wrappers
  import opened Text
  import opened Sorting
  import opened Facts
  import opened Capabilities
  import opened Metadata
  import opened Properties
  import opened Preflight
  import opened DriverSources
  import opened Scan
  import ModulesAlias
  import ModulesDep
  import ModulesFirmware
  import FirmwareFiles

  // ----- No pass overwrites what another writes

  ghost predicate Keeps(f: Pass, key: string) {
    forall d :: SameProperty(d, f(d), key)
  }

  lemma SamePropertyTransitive(a: HardwareDevice, b: HardwareDevice, c: HardwareDevice, key: string)
    requires SameProperty(a, b, key) && SameProperty(b, c, key)
    ensures SameProperty(a, c, key)
  {
  }

  lemma FirmwareKeeps(v: ModulesFirmware.View, names: Relation, sources: Relation, key: string)
    requires key != "linux_firmware_candidates" && key != "linux_firmware_candidate_sources"
    ensures Keeps(ModulesFirmware.Annotated(v, names, sources), key)
  {
    forall d ensures SameProperty(d, ModulesFirmware.AnnotatedDevice(v, names, sources, d), key) {
      var first := WithList(d, "linux_firmware_candidates", ModulesFirmware.FirmwareCandidates(v, names, d));
      OthersUntouched(d, "linux_firmware_candidates", ModulesFirmware.FirmwareCandidates(v, names, d), key);
      OthersUntouched(first, "linux_firmware_candidate_sources",
                      Ascending(ModulesFirmware.FirmwareSources(sources, v.drivers(d))), key);
      SamePropertyTransitive(d, first, ModulesFirmware.AnnotatedDevice(v, names, sources, d), key);
    }
  }

  lemma FirmwareFilesKeep(
    v: FirmwareFiles.View, r: FirmwareFiles.Resolver, roots: seq<TablePath>, suffixes: seq<string>, key: string)
    requires key != "linux_firmware_files"
    ensures Keeps(FirmwareFiles.Annotated(v, r, roots, suffixes), key)
  {
  }

  predicate DriverFilesKey(key: string) {
    || key == "linux_driver_files" || key == "linux_driver_file_sources"
    || key == "linux_driver_dependency_sources" || key == "linux_driver_dependencies"
    || key == "linux_driver_builtins" || key == "linux_driver_builtin_sources"
  }

  lemma DriverFilesKeep(v: ModulesDep.View, s: ModulesDep.Relations, b: Relation, key: string)
    requires !DriverFilesKey(key)
    ensures Keeps(ModulesDep.Annotated(v, s, b), key)
  {
    forall d ensures SameProperty(d, ModulesDep.Annotated(v, s, b)(d), key) {
      RestIsUntouched(d, ModulesDep.Writes(s, b, v(d)), key);
    }
  }

  lemma UnchangedKeeps(key: string)
    ensures Keeps(Unchanged(), key)
  {
  }

  lemma FirmwarePassKeeps(files: Tables, s: Sources, key: string)
    requires key != "linux_firmware_candidates" && key != "linux_firmware_candidate_sources"
    ensures Keeps(FirmwarePass(files, s), key)
  {
    UnchangedKeeps(key);
    FirmwareKeeps(
      ModulesFirmware.LINUX_VIEW,
      ModulesFirmware.AllNames(ModulesFirmware.LINUX_READERS, files, s.modulesFirmware),
      ModulesFirmware.AllSources(ModulesFirmware.LINUX_READERS, files, s.modulesFirmware), key);
  }

  lemma FirmwareFilesPassKeeps(s: Sources, r: FirmwareFiles.Resolver, key: string)
    requires key != "linux_firmware_files"
    ensures Keeps(FirmwareFilesPass(s, r), key)
  {
    UnchangedKeeps(key);
    FirmwareFilesKeep(FirmwareFiles.CandidatesOf, r, s.firmwareRoots, FirmwareFiles.FIRMWARE_SUFFIXES, key);
  }

  lemma DriverFilesPassKeeps(files: Tables, s: Sources, key: string)
    requires !DriverFilesKey(key)
    ensures Keeps(DriverFilesPass(files, s), key)
  {
    UnchangedKeeps(key);
    DriverFilesKeep(
      DriversOf, ModulesDep.AllPayloads(ModulesDep.LINUX_READERS, files, s.modulesDep),
      ModulesDep.AllBuiltins(ModulesDep.LINUX_READERS, files, s.modulesBuiltin), key);
  }

  // ----- What one entry shows

  /** Four passes of which the later ones leave alone what the earlier ones write. */
  datatype Passes = Passes(candidates: Pass, firmware: Pass, firmwareFiles: Pass, driverFiles: Pass)

  ghost function LinuxPasses(files: Tables, s: Sources, r: FirmwareFiles.Resolver): Passes {
    Passes(CandidatesPass(files, s), FirmwarePass(files, s), FirmwareFilesPass(s, r), DriverFilesPass(files, s))
  }

  ghost function Run(p: Passes): Pass {
    Then(Then(Then(p.candidates, p.firmware), p.firmwareFiles), p.driverFiles)
  }

  /** The properties that hold the lists. */
  datatype PropertyNames = PropertyNames(
    drivers: string, driverSources: string, firmware: string, firmwareSources: string, firmwareFiles: string,
    files: string, fileSources: string, dependencies: string, dependencySources: string,
    builtins: string, builtinSources: string)

  const LINUX_NAMES := PropertyNames(
    "linux_driver_candidates", "linux_driver_candidate_sources",
    "linux_firmware_candidates", "linux_firmware_candidate_sources", "linux_firmware_files",
    "linux_driver_files", "linux_driver_file_sources",
    "linux_driver_dependencies", "linux_driver_dependency_sources",
    "linux_driver_builtins", "linux_driver_builtin_sources")

  ghost predicate KeepsEarlier(p: Passes, n: PropertyNames) {
    && Keeps(p.firmware, n.drivers) && Keeps(p.firmware, n.driverSources)
    && Keeps(p.firmwareFiles, n.drivers) && Keeps(p.firmwareFiles, n.driverSources)
    && Keeps(p.firmwareFiles, n.firmware) && Keeps(p.firmwareFiles, n.firmwareSources)
    && Keeps(p.driverFiles, n.drivers) && Keeps(p.driverFiles, n.driverSources)
    && Keeps(p.driverFiles, n.firmware) && Keeps(p.driverFiles, n.firmwareSources)
    && Keeps(p.driverFiles, n.firmwareFiles)
  }

  /** Equal only if of equal length and equal letters. */
  lemma KeysApart()
    ensures !DriverFilesKey("linux_driver_candidates") && !DriverFilesKey("linux_driver_candidate_sources")
    ensures !DriverFilesKey("linux_firmware_candidates") && !DriverFilesKey("linux_firmware_candidate_sources")
    ensures !DriverFilesKey("linux_firmware_files")
  {
    assert |"linux_driver_files"| == 18 && |"linux_driver_file_sources"| == 25;
    assert |"linux_driver_dependency_sources"| == 31 && |"linux_driver_dependencies"| == 25;
    assert |"linux_driver_builtins"| == 21 && |"linux_driver_builtin_sources"| == 28;
    assert |"linux_driver_candidates"| == 23 && |"linux_driver_candidate_sources"| == 30;
    assert |"linux_firmware_candidates"| == 25 && |"linux_firmware_candidate_sources"| == 32;
    assert |"linux_firmware_files"| == 20;
    assert "linux_firmware_candidates"[6] == 'f';
    assert "linux_driver_file_sources"[6] == 'd' && "linux_driver_dependencies"[6] == 'd';
  }

  lemma FirmwareKeysApart()
    ensures "linux_driver_candidates" != "linux_firmware_candidates"
    ensures "linux_driver_candidates" != "linux_firmware_candidate_sources"
    ensures "linux_driver_candidate_sources" != "linux_firmware_candidates"
    ensures "linux_driver_candidate_sources" != "linux_firmware_candidate_sources"
  {
    assert |"linux_driver_candidates"| == 23 && |"linux_driver_candidate_sources"| == 30;
    assert |"linux_firmware_candidates"| == 25 && |"linux_firmware_candidate_sources"| == 32;
  }

  lemma FirmwareFilesKeyApart()
    ensures "linux_driver_candidates" != "linux_firmware_files"
    ensures "linux_driver_candidate_sources" != "linux_firmware_files"
    ensures "linux_firmware_candidates" != "linux_firmware_files"
    ensures "linux_firmware_candidate_sources" != "linux_firmware_files"
  {
    assert |"linux_driver_candidates"| == 23 && |"linux_driver_candidate_sources"| == 30;
    assert |"linux_firmware_candidates"| == 25 && |"linux_firmware_candidate_sources"| == 32;
    assert |"linux_firmware_files"| == 20;
  }

  lemma LinuxPassesKeepEarlier(files: Tables, s: Sources, r: FirmwareFiles.Resolver)
    ensures KeepsEarlier(LinuxPasses(files, s, r), LINUX_NAMES)
  {
    KeysApart();
    FirmwareKeysApart();
    FirmwareFilesKeyApart();
    FirmwarePassKeeps(files, s, "linux_driver_candidates");
    FirmwarePassKeeps(files, s, "linux_driver_candidate_sources");
    FirmwareFilesPassKeeps(s, r, "linux_driver_candidates");
    FirmwareFilesPassKeeps(s, r, "linux_driver_candidate_sources");
    FirmwareFilesPassKeeps(s, r, "linux_firmware_candidates");
    FirmwareFilesPassKeeps(s, r, "linux_firmware_candidate_sources");
    DriverFilesPassKeeps(files, s, "linux_driver_candidates");
    DriverFilesPassKeeps(files, s, "linux_driver_candidate_sources");
    DriverFilesPassKeeps(files, s, "linux_firmware_candidates");
    DriverFilesPassKeeps(files, s, "linux_firmware_candidate_sources");
    DriverFilesPassKeeps(files, s, "linux_firmware_files");
  }

  /** How a list property is read: by preflight as PropertyValues, but all that matters here is that
      it depends on the one property. */
  type ListReader = (HardwareDevice, string) -> seq<string>

  ghost predicate ReadsProperty(read: ListReader) {
    forall d, d', key {:trigger SameProperty(d, d', key)} :: SameProperty(d, d', key) ==> read(d, key) == read(d', key)
  }

  /** The entry describes the device d, and shows in each list what it was at the stage at which it
      was written. */
  ghost predicate ShowsStages(
    e: UnresolvedDevice, d: HardwareDevice, d1: HardwareDevice, d2: HardwareDevice, d3: HardwareDevice,
    d4: HardwareDevice, read: ListReader, n: PropertyNames)
  {
    && e.deviceKey == d.key && e.bus == d.bus && e.modalias == d.modalias && e.vendor == d.vendor
    && e.product == d.product && e.deviceClass == d.deviceClass && e.currentDriver == d.driver
    && e.candidateDrivers == read(d1, n.drivers)
    && e.candidateDriverSources == read(d1, n.driverSources)
    && e.candidateFirmware == read(d2, n.firmware)
    && e.candidateFirmwareSources == read(d2, n.firmwareSources)
    && e.candidateFirmwareFiles == read(d3, n.firmwareFiles)
    && e.candidateDriverFiles == read(d4, n.files)
    && e.candidateDriverFileSources == read(d4, n.fileSources)
    && e.candidateDriverDependencies == read(d4, n.dependencies)
    && e.candidateDriverDependencySources == read(d4, n.dependencySources)
    && e.candidateDriverBuiltins == read(d4, n.builtins)
    && e.candidateDriverBuiltinSources == read(d4, n.builtinSources)
  }

  /** The entry describes the device as it was found, and shows in each list what the pass that
      writes it made of the device. */
  ghost predicate Shows(e: UnresolvedDevice, d: HardwareDevice, p: Passes, read: ListReader, n: PropertyNames) {
    var d1 := p.candidates(d);
    var d2 := p.firmware(d1);
    var d3 := p.firmwareFiles(d2);
    ShowsStages(e, d, d1, d2, d3, p.driverFiles(d3), read, n)
  }

  lemma EntryShowsAsIs(capability: HardwareCapability, d: HardwareDevice)
    ensures ShowsStages(UnresolvedEntry(capability, d), d, d, d, d, d, PropertyValues, LINUX_NAMES)
  {
  }

  lemma PreflightReadsProperty()
    ensures ReadsProperty(PropertyValues)
  {
  }

  /** Each stage agrees with the last on what the stages after it leave alone. */
  ghost predicate StagesAgree(
    d1: HardwareDevice, d2: HardwareDevice, d3: HardwareDevice, d4: HardwareDevice, n: PropertyNames)
  {
    && SameProperty(d1, d4, n.drivers) && SameProperty(d1, d4, n.driverSources)
    && SameProperty(d2, d4, n.firmware) && SameProperty(d2, d4, n.firmwareSources)
    && SameProperty(d3, d4, n.firmwareFiles)
  }

  lemma KeptTwice(f: Pass, g: Pass, d: HardwareDevice, key: string)
    requires Keeps(f, key) && Keeps(g, key)
    ensures SameProperty(d, g(f(d)), key)
  {
    SamePropertyTransitive(d, f(d), g(f(d)), key);
  }

  lemma KeptThrice(f: Pass, g: Pass, h: Pass, d: HardwareDevice, key: string)
    requires Keeps(f, key) && Keeps(g, key) && Keeps(h, key)
    ensures SameProperty(d, h(g(f(d))), key)
  {
    KeptTwice(f, g, d, key);
    SamePropertyTransitive(d, g(f(d)), h(g(f(d))), key);
  }

  lemma PassesAgree(p: Passes, n: PropertyNames, d1: HardwareDevice)
    requires KeepsEarlier(p, n)
    ensures var d2 := p.firmware(d1);
            var d3 := p.firmwareFiles(d2);
            StagesAgree(d1, d2, d3, p.driverFiles(d3), n)
  {
    KeptThrice(p.firmware, p.firmwareFiles, p.driverFiles, d1, n.drivers);
    KeptThrice(p.firmware, p.firmwareFiles, p.driverFiles, d1, n.driverSources);
    KeptTwice(p.firmwareFiles, p.driverFiles, p.firmware(d1), n.firmware);
    KeptTwice(p.firmwareFiles, p.driverFiles, p.firmware(d1), n.firmwareSources);
  }

  /** What an entry shows of the last stage is what it was at each stage. */
  lemma LastStageShows(
    e: UnresolvedDevice, d: HardwareDevice, d1: HardwareDevice, d2: HardwareDevice, d3: HardwareDevice,
    d4: HardwareDevice, read: ListReader, n: PropertyNames)
    requires ReadsProperty(read) && StagesAgree(d1, d2, d3, d4, n) && d4 == d.(properties := d4.properties)
    requires ShowsStages(e, d4, d4, d4, d4, d4, read, n)
    ensures ShowsStages(e, d, d1, d2, d3, d4, read, n)
  {
  }

  lemma RunInStages(p: Passes, d: HardwareDevice)
    ensures Run(p)(d) == p.driverFiles(p.firmwareFiles(p.firmware(p.candidates(d))))
  {
  }

  lemma StagesShow(
    p: Passes, read: ListReader, n: PropertyNames, d: HardwareDevice, d': HardwareDevice, e: UnresolvedDevice)
    requires KeepsEarlier(p, n) && ReadsProperty(read)
    requires d' == Run(p)(d) && d' == d.(properties := d'.properties)
    requires ShowsStages(e, d', d', d', d', d', read, n)
    ensures Shows(e, d, p, read, n)
  {
    RunInStages(p, d);
    var d1 := p.candidates(d);
    var d2 := p.firmware(d1);
    var d3 := p.firmwareFiles(d2);
    PassesAgree(p, n, d1);
    LastStageShows(e, d, d1, d2, d3, d', read, n);
  }

  lemma MappedFrom(devices: seq<HardwareDevice>, f: Pass, d': HardwareDevice) returns (d: HardwareDevice)
    requires d' in Map(devices, f)
    ensures d in devices && d' == f(d)
  {
    var i :| 0 <= i < |devices| && Map(devices, f)[i] == d';
    d := devices[i];
  }

  /** The reported entry, and the scanned device it was made from. */
  lemma ReportedShowAsIs(inventory: Inventory, e: UnresolvedDevice) returns (d: HardwareDevice)
    requires e in Unresolved(inventory)
    ensures d in inventory.devices && ShowsStages(e, d, d, d, d, d, PropertyValues, LINUX_NAMES)
  {
    ReportedDevicesExist(inventory);
    d :| d in inventory.devices && e == UnresolvedEntry(e.capability, d);
    EntryShowsAsIs(e.capability, d);
  }

  lemma EntryShows(
    devices: seq<HardwareDevice>, p: Passes, read: ListReader, n: PropertyNames,
    d': HardwareDevice, e: UnresolvedDevice)
    returns (d: HardwareDevice)
    requires KeepsEarlier(p, n) && OnlyProperties(Run(p)) && ReadsProperty(read)
    requires d' in Map(devices, Run(p)) && ShowsStages(e, d', d', d', d', d', read, n)
    ensures d in devices && Shows(e, d, p, read, n)
  {
    d := MappedFrom(devices, Run(p), d');
    StagesShow(p, read, n, d, d', e);
  }

  /** Every entry of a scanned machine's report describes a device that was found, and each of its
      lists is what the pass that writes it found for that device: no later pass overwrites it. */
  lemma EveryEntryShowsItsDevice(
    found: seq<HardwareDevice>, files: Tables, s: Sources, r: FirmwareFiles.Resolver,
    inventory: Inventory, e: UnresolvedDevice)
    requires inventory.devices == Scanned(found, files, s, r) && e in Unresolved(inventory)
    ensures exists d | d in SortedDevices(found) :: Shows(e, d, LinuxPasses(files, s, r), PropertyValues, LINUX_NAMES)
  {
    PassesOnlyProperties(files, s, r);
    LinuxPassesKeepEarlier(files, s, r);
    PreflightReadsProperty();
    var d' := ReportedShowAsIs(inventory, e);
    var d := EntryShows(SortedDevices(found), LinuxPasses(files, s, r), PropertyValues, LINUX_NAMES, d', e);
  }
}
