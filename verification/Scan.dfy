/** The scanner's last stage: sort and de-duplicate what was found, annotate it from the driver
    metadata, and derive what the hardware functions require (src/scan.rs, scan_inventory). */
module Scan {
  import opened Wrappers
  import opened Text
  import opened Sorting
  import opened Facts
  import opened Capabilities
  import opened Metadata
  import opened DriverSources
  import Properties
  import ModulesAlias
  import ModulesDep
  import ModulesFirmware
  import FirmwareFiles

  // ----- What each pass makes of a device

  type Pass = HardwareDevice -> HardwareDevice

  function Unchanged(): Pass {
    (d: HardwareDevice) => d
  }

  function Then(f: Pass, g: Pass): Pass {
    (d: HardwareDevice) => g(f(d))
  }

  lemma MapThen(devices: seq<HardwareDevice>, f: Pass, g: Pass)
    ensures Map(Map(devices, f), g) == Map(devices, Then(f, g))
  {
  }

  ghost function CandidatesPass(files: Tables, s: Sources): Pass {
    if s.modulesAlias == [] && s.modulesFirmware == [] then Unchanged()
    else ModulesAlias.Annotated(
        ModulesAlias.AllAliases(ModulesAlias.LINUX_READERS, files, s.modulesAlias, s.modulesFirmware))
  }

  ghost function FirmwarePass(files: Tables, s: Sources): Pass {
    if s.modulesFirmware == [] && s.firmwareRoots == [] then Unchanged()
    else ModulesFirmware.Annotated(
        ModulesFirmware.LINUX_VIEW,
        ModulesFirmware.AllNames(ModulesFirmware.LINUX_READERS, files, s.modulesFirmware),
        ModulesFirmware.AllSources(ModulesFirmware.LINUX_READERS, files, s.modulesFirmware))
  }

  ghost function FirmwareFilesPass(s: Sources, r: FirmwareFiles.Resolver): Pass {
    if s.firmwareRoots == [] then Unchanged()
    else FirmwareFiles.Annotated(FirmwareFiles.CandidatesOf, r, s.firmwareRoots, FirmwareFiles.FIRMWARE_SUFFIXES)
  }

  ghost function DriverFilesPass(files: Tables, s: Sources): Pass {
    if s.modulesDep == [] && s.modulesBuiltin == [] then Unchanged()
    else ModulesDep.Annotated(
        DriversOf, ModulesDep.AllPayloads(ModulesDep.LINUX_READERS, files, s.modulesDep),
        ModulesDep.AllBuiltins(ModulesDep.LINUX_READERS, files, s.modulesBuiltin))
  }

  /** Candidates first, since the later passes read them; then firmware names, since the files pass
      reads those. */
  ghost function AllPasses(files: Tables, s: Sources, r: FirmwareFiles.Resolver): Pass {
    Then(Then(Then(CandidatesPass(files, s), FirmwarePass(files, s)), FirmwareFilesPass(s, r)),
         DriverFilesPass(files, s))
  }

  predicate CandidatesReadable(files: Tables, s: Sources) {
    AllReadable(files, s.modulesAlias) && AllReadable(files, Filter(s.modulesFirmware, ModulesAlias.IsModinfo))
  }

  // ----- The passes, run in place

  method RunCandidatesPass(devices: array<HardwareDevice>, files: Tables, s: Sources) returns (ok: bool)
    modifies devices
    ensures ok <==> CandidatesReadable(files, s)
    ensures ok ==> devices[..] == Map(old(devices[..]), CandidatesPass(files, s))
  {
    if s.modulesAlias != [] {
      ok := ModulesAlias.AnnotateLinuxDriverCandidates(devices, files, s.modulesAlias, s.modulesFirmware);
    } else if s.modulesFirmware != [] {
      ok := ModulesAlias.AnnotateLinuxDriverCandidates(devices, files, [], s.modulesFirmware);
    } else {
      ok := true;
    }
  }

  method RunFirmwarePass(devices: array<HardwareDevice>, files: Tables, s: Sources) returns (ok: bool)
    modifies devices
    ensures ok <==> AllReadable(files, s.modulesFirmware)
    ensures ok ==> devices[..] == Map(old(devices[..]), FirmwarePass(files, s))
  {
    ok := true;
    if s.modulesFirmware != [] || s.firmwareRoots != [] {
      ok := ModulesFirmware.AnnotateLinuxFirmwareCandidates(devices, files, s.modulesFirmware);
    }
  }

  method RunFirmwareFilesPass(devices: array<HardwareDevice>, s: Sources, r: FirmwareFiles.Resolver) returns (ok: bool)
    modifies devices
    ensures ok <==> FirmwareFiles.AllDirectories(r, s.firmwareRoots)
    ensures ok ==> devices[..] == Map(old(devices[..]), FirmwareFilesPass(s, r))
  {
    ok := true;
    if s.firmwareRoots != [] {
      ok := FirmwareFiles.AnnotateLinuxFirmwareFiles(
        FirmwareFiles.CandidatesOf, devices, r, s.firmwareRoots, FirmwareFiles.FIRMWARE_SUFFIXES);
    }
  }

  method RunDriverFilesPass(devices: array<HardwareDevice>, files: Tables, s: Sources) returns (ok: bool)
    modifies devices
    ensures ok <==> AllReadable(files, s.modulesDep) && AllReadable(files, s.modulesBuiltin)
    ensures ok ==> devices[..] == Map(old(devices[..]), DriverFilesPass(files, s))
  {
    ok := true;
    if s.modulesDep != [] || s.modulesBuiltin != [] {
      ok := ModulesDep.AnnotateLinuxDriverFiles(devices, files, s.modulesDep, s.modulesBuiltin);
    }
  }

  method RunPasses(devices: array<HardwareDevice>, files: Tables, s: Sources, r: FirmwareFiles.Resolver)
    returns (ok: bool)
    modifies devices
    ensures ok <==> AllSourcesReadable(files, s, r)
    ensures ok ==> devices[..] == Map(old(devices[..]), AllPasses(files, s, r))
  {
    ghost var found := devices[..];
    ghost var f, g, h := CandidatesPass(files, s), FirmwarePass(files, s), FirmwareFilesPass(s, r);
    ok := RunCandidatesPass(devices, files, s);
    if !ok {
      return;
    }
    ok := RunFirmwarePass(devices, files, s);
    if !ok {
      return;
    }
    MapThen(found, f, g);
    ok := RunFirmwareFilesPass(devices, s, r);
    if !ok {
      return;
    }
    MapThen(found, Then(f, g), h);
    ok := RunDriverFilesPass(devices, files, s);
    MapThen(found, Then(Then(f, g), h), DriverFilesPass(files, s));
  }

  // ----- Only properties change

  ghost predicate OnlyProperties(f: Pass) {
    forall d :: f(d) == d.(properties := f(d).properties)
  }

  lemma ThenOnlyProperties(f: Pass, g: Pass)
    requires OnlyProperties(f) && OnlyProperties(g)
    ensures OnlyProperties(Then(f, g))
  {
    forall d ensures Then(f, g)(d) == d.(properties := Then(f, g)(d).properties) {
      assert f(d) == d.(properties := f(d).properties);
    }
  }

  lemma {:induction false} WritesOnlyProperties(d: HardwareDevice, writes: seq<Properties.Write>)
    ensures Properties.WithLists(d, writes) == d.(properties := Properties.WithLists(d, writes).properties)
  {
    if writes != [] {
      WritesOnlyProperties(d, writes[..|writes| - 1]);
    }
  }

  lemma HitsOnlyProperties(d: HardwareDevice, hits: Relation)
    ensures ModulesAlias.WithCandidates(d, hits) == d.(properties := ModulesAlias.WithCandidates(d, hits).properties)
  {
  }

  lemma AliasesOnlyProperties(aliases: set<ModulesAlias.LinuxAlias>)
    ensures OnlyProperties(ModulesAlias.Annotated(aliases))
  {
    forall d
      ensures ModulesAlias.Annotated(aliases)(d) == d.(properties := ModulesAlias.Annotated(aliases)(d).properties)
    {
      HitsOnlyProperties(d, ModulesAlias.Hits(aliases, d.modalias));
    }
  }

  lemma ListsOnlyProperties(d: HardwareDevice, key: string, items: seq<string>, key': string, items': seq<string>)
    ensures var r := WithList(WithList(d, key, items), key', items'); r == d.(properties := r.properties)
  {
  }

  lemma NamesOnlyProperties(v: ModulesFirmware.View, names: Relation, sources: Relation)
    ensures OnlyProperties(ModulesFirmware.Annotated(v, names, sources))
  {
    var pass := ModulesFirmware.Annotated(v, names, sources);
    forall d ensures pass(d) == d.(properties := pass(d).properties) {
      ListsOnlyProperties(
        d, "linux_firmware_candidates", ModulesFirmware.FirmwareCandidates(v, names, d),
        "linux_firmware_candidate_sources", Ascending(ModulesFirmware.FirmwareSources(sources, v.drivers(d))));
    }
  }

  lemma PayloadsOnlyProperties(v: ModulesDep.View, s: ModulesDep.Relations, b: Relation)
    ensures OnlyProperties(ModulesDep.Annotated(v, s, b))
  {
    var pass := ModulesDep.Annotated(v, s, b);
    forall d ensures pass(d) == d.(properties := pass(d).properties) {
      WritesOnlyProperties(d, ModulesDep.Writes(s, b, v(d)));
      assert pass(d) == ModulesDep.AnnotatedDevice(v, s, b, d);
    }
  }

  lemma CandidatesPassOnlyProperties(files: Tables, s: Sources)
    ensures OnlyProperties(CandidatesPass(files, s))
  {
    if s.modulesAlias != [] || s.modulesFirmware != [] {
      AliasesOnlyProperties(
        ModulesAlias.AllAliases(ModulesAlias.LINUX_READERS, files, s.modulesAlias, s.modulesFirmware));
    }
  }

  lemma FirmwarePassOnlyProperties(files: Tables, s: Sources)
    ensures OnlyProperties(FirmwarePass(files, s))
  {
    if s.modulesFirmware != [] || s.firmwareRoots != [] {
      NamesOnlyProperties(
        ModulesFirmware.LINUX_VIEW,
        ModulesFirmware.AllNames(ModulesFirmware.LINUX_READERS, files, s.modulesFirmware),
        ModulesFirmware.AllSources(ModulesFirmware.LINUX_READERS, files, s.modulesFirmware));
    }
  }

  lemma FirmwareFilesPassOnlyProperties(s: Sources, r: FirmwareFiles.Resolver)
    ensures OnlyProperties(FirmwareFilesPass(s, r))
  {
  }

  lemma DriverFilesPassOnlyProperties(files: Tables, s: Sources)
    ensures OnlyProperties(DriverFilesPass(files, s))
  {
    if s.modulesDep != [] || s.modulesBuiltin != [] {
      PayloadsOnlyProperties(
        DriversOf, ModulesDep.AllPayloads(ModulesDep.LINUX_READERS, files, s.modulesDep),
        ModulesDep.AllBuiltins(ModulesDep.LINUX_READERS, files, s.modulesBuiltin));
    }
  }

  lemma FourOnlyProperties(f: Pass, g: Pass, h: Pass, k: Pass)
    requires OnlyProperties(f) && OnlyProperties(g) && OnlyProperties(h) && OnlyProperties(k)
    ensures OnlyProperties(Then(Then(Then(f, g), h), k))
  {
    ThenOnlyProperties(f, g);
    ThenOnlyProperties(Then(f, g), h);
    ThenOnlyProperties(Then(Then(f, g), h), k);
  }

  /** No pass changes anything of a device but its properties. */
  lemma PassesOnlyProperties(files: Tables, s: Sources, r: FirmwareFiles.Resolver)
    ensures OnlyProperties(AllPasses(files, s, r))
  {
    CandidatesPassOnlyProperties(files, s);
    FirmwarePassOnlyProperties(files, s);
    FirmwareFilesPassOnlyProperties(s, r);
    DriverFilesPassOnlyProperties(files, s);
    FourOnlyProperties(
      CandidatesPass(files, s), FirmwarePass(files, s), FirmwareFilesPass(s, r), DriverFilesPass(files, s));
  }

  lemma AnnotatedKeysAscend(devices: seq<HardwareDevice>, f: Pass)
    requires AscendingKeys(devices) && OnlyProperties(f)
    ensures AscendingKeys(Map(devices, f))
  {
    forall i | 0 <= i < |devices| ensures f(devices[i]).key == devices[i].key {
      assert f(devices[i]) == devices[i].(properties := f(devices[i]).properties);
    }
    assert Map(Map(devices, f), Key) == Map(devices, Key);
  }

  ghost function Scanned(found: seq<HardwareDevice>, files: Tables, s: Sources, r: FirmwareFiles.Resolver)
    : seq<HardwareDevice>
  {
    Map(SortedDevices(found), AllPasses(files, s, r))
  }

  lemma ScannedKeysAscend(found: seq<HardwareDevice>, files: Tables, s: Sources, r: FirmwareFiles.Resolver)
    ensures AscendingKeys(Scanned(found, files, s, r))
  {
    SortedDevicesKeepFirst(found);
    PassesOnlyProperties(files, s, r);
    AnnotatedKeysAscend(SortedDevices(found), AllPasses(files, s, r));
  }

  method AnnotateFound(found: seq<HardwareDevice>, files: Tables, s: Sources, r: FirmwareFiles.Resolver)
    returns (annotated: Option<seq<HardwareDevice>>)
    ensures annotated.Some? <==> AllSourcesReadable(files, s, r)
    ensures annotated.Some? ==> annotated.value == Scanned(found, files, s, r)
  {
    var sorted := SortedDevices(found);
    var devices := new HardwareDevice[|sorted|](i requires 0 <= i < |sorted| => sorted[i]);
    assert devices[..] == sorted;
    var ok := RunPasses(devices, files, s, r);
    return if ok then Some(devices[..]) else None;
  }

  /** From the devices found on the buses to an inventory: it fails exactly when some table or root
      cannot be read, and otherwise, however many devices were found, in whatever order and however
      often, it has strictly ascending keys, holds for each key the first device found, as the
      passes annotate it, records every table and root once, and derives its requirements from what
      it holds. */
  method BuildInventory(
    system: SystemFacts, found: seq<HardwareDevice>, files: Tables, digest: Digest, s: Sources,
    r: FirmwareFiles.Resolver, c: Classifier)
    returns (inventory: Option<Inventory>)
    ensures inventory.Some? <==> AllSourcesReadable(files, s, r)
    ensures inventory.Some? ==> inventory.value.devices == Scanned(found, files, s, r)
    ensures inventory.Some? ==> ScannerBuilt(inventory.value, c) && inventory.value.system == system
    ensures inventory.Some? ==> SortedBy(inventory.value.driverSources, EvidenceBefore)
    ensures inventory.Some? ==>
              forall e :: e in inventory.value.driverSources <==> e in AllEvidence(files, digest, s)
  {
    var devices := AnnotateFound(found, files, s, r);
    if devices == None {
      return None;
    }
    var requirements := CapabilityRequirements(devices.value, c);
    var evidence := DriverSourceManifest(files, digest, s, r);
    if evidence == None {
      return None;
    }
    ScannedKeysAscend(found, files, s, r);
    return Some(Inventory(system, devices.value, evidence.value, requirements));
  }
}
