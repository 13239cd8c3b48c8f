/** The installer-facing report of devices without a driver (src/preflight.rs). */
module Preflight {
  import opened Wrappers
  import opened Text
  import opened Sorting
  import opened Facts
  import opened Capabilities

  datatype UnresolvedDevice = UnresolvedDevice(
    capability: HardwareCapability,
    deviceKey: string,
    bus: Bus,
    modalias: string,
    vendor: Option<nat>,
    product: Option<nat>,
    deviceClass: Option<nat>,
    currentDriver: Option<string>,
    candidateDrivers: seq<string>,
    candidateDriverSources: seq<string>,
    candidateFirmware: seq<string>,
    candidateFirmwareSources: seq<string>,
    candidateDriverFiles: seq<string>,
    candidateDriverFileSources: seq<string>,
    candidateDriverDependencies: seq<string>,
    candidateDriverDependencySources: seq<string>,
    candidateDriverBuiltins: seq<string>,
    candidateDriverBuiltinSources: seq<string>,
    candidateFirmwareFiles: seq<string>)

  datatype PreflightReport = PreflightReport(
    ready: bool,
    requirements: seq<CapabilityRequirement>,
    unresolved: seq<UnresolvedDevice>)

  /** The items of a comma-encoded device property. */
  function PropertyValues(d: HardwareDevice, key: string): seq<string> {
    if key in d.properties then CommaItems(d.properties[key]) else []
  }

  function UnresolvedEntry(capability: HardwareCapability, d: HardwareDevice): UnresolvedDevice {
    UnresolvedDevice(
      capability, d.key, d.bus, d.modalias, d.vendor, d.product, d.deviceClass, d.driver,
      PropertyValues(d, "linux_driver_candidates"),
      PropertyValues(d, "linux_driver_candidate_sources"),
      PropertyValues(d, "linux_firmware_candidates"),
      PropertyValues(d, "linux_firmware_candidate_sources"),
      PropertyValues(d, "linux_driver_files"),
      PropertyValues(d, "linux_driver_file_sources"),
      PropertyValues(d, "linux_driver_dependencies"),
      PropertyValues(d, "linux_driver_dependency_sources"),
      PropertyValues(d, "linux_driver_builtins"),
      PropertyValues(d, "linux_driver_builtin_sources"),
      PropertyValues(d, "linux_firmware_files"))
  }

  /** By capability, then by device key. */
  predicate EntryAtMost(a: UnresolvedDevice, b: UnresolvedDevice) {
    CapabilityOrder(a.capability) < CapabilityOrder(b.capability)
    || (a.capability == b.capability && AtMost(a.deviceKey, b.deviceKey))
  }

  predicate EntryBefore(a: UnresolvedDevice, b: UnresolvedDevice) {
    CapabilityOrder(a.capability) < CapabilityOrder(b.capability)
    || (a.capability == b.capability && Less(a.deviceKey, b.deviceKey))
  }

  // ----- preflight_inventory

  /** `collect::<BTreeMap>`: of devices that share a key, the last. */
  function ByKey(devices: seq<HardwareDevice>): map<string, HardwareDevice> {
    if devices == [] then map[]
    else ByKey(devices[..|devices| - 1])[devices[|devices| - 1].key := devices[|devices| - 1]]
  }

  /** How one unbound device is written up. The report uses UnresolvedEntry; most of what follows
      needs only that the write-up keeps the capability and the key. */
  type Describer = (HardwareCapability, HardwareDevice) -> UnresolvedDevice

  ghost predicate KeepsIdentity(describe: Describer) {
    forall capability, d ::
      describe(capability, d).capability == capability && describe(capability, d).deviceKey == d.key
  }

  function RequirementEntries(
    describe: Describer, byKey: map<string, HardwareDevice>, capability: HardwareCapability, keys: seq<string>)
    : seq<UnresolvedDevice>
  {
    if keys == [] then []
    else
      (if keys[0] in byKey then [describe(capability, byKey[keys[0]])] else [])
      + RequirementEntries(describe, byKey, capability, keys[1..])
  }

  function Entries(describe: Describer, byKey: map<string, HardwareDevice>, requirements: seq<CapabilityRequirement>)
    : seq<UnresolvedDevice>
  {
    if requirements == [] then []
    else
      RequirementEntries(describe, byKey, requirements[0].capability, requirements[0].unboundDeviceKeys)
      + Entries(describe, byKey, requirements[1..])
  }

  function Unresolved(inventory: Inventory): seq<UnresolvedDevice> {
    StableSort(Entries(UnresolvedEntry, ByKey(inventory.devices), inventory.capabilities), EntryAtMost)
  }

  method CollectDevices(devices: seq<HardwareDevice>) returns (byKey: map<string, HardwareDevice>)
    ensures byKey == ByKey(devices)
  {
    byKey := map[];
    for i := 0 to |devices|
      invariant byKey == ByKey(devices[..i])
    {
      byKey := byKey[devices[i].key := devices[i]];
      assert devices[..i + 1][..i] == devices[..i];
    }
    assert devices[..|devices|] == devices;
  }

  method CollectEntries(
    describe: Describer, byKey: map<string, HardwareDevice>, requirements: seq<CapabilityRequirement>)
    returns (unresolved: seq<UnresolvedDevice>)
    ensures unresolved == Entries(describe, byKey, requirements)
  {
    unresolved := [];
    for i := 0 to |requirements|
      invariant Entries(describe, byKey, requirements) == unresolved + Entries(describe, byKey, requirements[i..])
    {
      var capability, keys := requirements[i].capability, requirements[i].unboundDeviceKeys;
      ghost var before := unresolved;
      assert requirements[i..][1..] == requirements[i + 1..];
      for j := 0 to |keys|
        invariant before + RequirementEntries(describe, byKey, capability, keys)
                  == unresolved + RequirementEntries(describe, byKey, capability, keys[j..])
      {
        assert keys[j..][1..] == keys[j + 1..];
        if keys[j] !in byKey {
          continue;
        }
        unresolved := unresolved + [describe(capability, byKey[keys[j]])];
      }
      assert unresolved == before + RequirementEntries(describe, byKey, capability, keys);
    }
  }

  method PreflightInventory(inventory: Inventory) returns (report: PreflightReport)
    ensures report.unresolved == Unresolved(inventory)
    ensures report.ready <==> report.unresolved == []
    ensures report.requirements == inventory.capabilities
  {
    var byKey := CollectDevices(inventory.devices);
    var unresolved := CollectEntries(UnresolvedEntry, byKey, inventory.capabilities);
    unresolved := StableSort(unresolved, EntryAtMost);
    report := PreflightReport(unresolved == [], inventory.capabilities, unresolved);
  }

  // ----- What the report of a scanned inventory says

  lemma {:induction false} ByKeyMembers(devices: seq<HardwareDevice>)
    ensures forall key | key in ByKey(devices) :: ByKey(devices)[key] in devices && ByKey(devices)[key].key == key
    ensures forall d | d in devices :: d.key in ByKey(devices)
  {
    if devices != [] {
      var n := |devices| - 1;
      assert devices == devices[..n] + [devices[n]];
      ByKeyMembers(devices[..n]);
    }
  }

  lemma UniqueKeys(devices: seq<HardwareDevice>, d: HardwareDevice, e: HardwareDevice)
    requires AscendingKeys(devices) && d in devices && e in devices && d.key == e.key
    ensures d == e
  {
    var i :| 0 <= i < |devices| && devices[i] == d;
    var j :| 0 <= j < |devices| && devices[j] == e;
    LessIrreflexive(d.key);
    assert Map(devices, Key)[i] == Map(devices, Key)[j];
  }

  /** The entries one capability contributes: one for each unbound device, keys ascending. */
  ghost predicate EntriesOf(
    es: seq<UnresolvedDevice>, describe: Describer,
    devices: seq<HardwareDevice>, c: Classifier, capability: HardwareCapability)
  {
    && (forall i, j | 0 <= i < j < |es| :: EntryBefore(es[i], es[j]))
    && (forall e | e in es ::
          exists d | d in devices :: Unbound(c, d, capability) && e == describe(capability, d))
    && (forall d | d in devices && Unbound(c, d, capability) :: describe(capability, d) in es)
  }

  lemma {:induction false} MappedEntries(
    describe: Describer, byKey: map<string, HardwareDevice>, capability: HardwareCapability, keys: seq<string>)
    requires forall key | key in keys :: key in byKey
    ensures var es := RequirementEntries(describe, byKey, capability, keys);
            |es| == |keys| && forall i | 0 <= i < |keys| :: es[i] == describe(capability, byKey[keys[i]])
  {
    if keys != [] {
      assert keys[0] in keys;
      MappedEntries(describe, byKey, capability, keys[1..]);
    }
  }

  /** The unbound keys of a capability lead back to exactly its unbound devices. */
  lemma UnboundKeysLead(devices: seq<HardwareDevice>, c: Classifier, capability: HardwareCapability)
    requires AscendingKeys(devices)
    ensures var keys := Requirement(devices, c, capability).unboundDeviceKeys;
            var byKey := ByKey(devices);
            && StrictlyAscending(keys)
            && (forall key | key in keys :: key in byKey && byKey[key].key == key && byKey[key] in devices
                                            && Unbound(c, byKey[key], capability))
            && (forall d | d in devices && Unbound(c, d, capability) :: d.key in keys && byKey[d.key] == d)
  {
    ByKeyMembers(devices);
    var keys := Requirement(devices, c, capability).unboundDeviceKeys;
    var byKey := ByKey(devices);
    forall key | key in keys
      ensures key in byKey && byKey[key].key == key && byKey[key] in devices && Unbound(c, byKey[key], capability)
    {
      UnionMembers(devices, UnboundKey(c, capability), key);
      var d :| d in devices && Unbound(c, d, capability) && d.key == key;
      UniqueKeys(devices, d, byKey[key]);
    }
    forall d | d in devices && Unbound(c, d, capability) ensures d.key in keys && byKey[d.key] == d {
      UnionMembers(devices, UnboundKey(c, capability), d.key);
      UniqueKeys(devices, d, byKey[d.key]);
    }
  }

  lemma OneCapability(
    describe: Describer, devices: seq<HardwareDevice>, c: Classifier, capability: HardwareCapability)
    requires AscendingKeys(devices) && KeepsIdentity(describe)
    ensures var keys := Requirement(devices, c, capability).unboundDeviceKeys;
            var es := RequirementEntries(describe, ByKey(devices), capability, keys);
            |es| == |keys| && EntriesOf(es, describe, devices, c, capability)
  {
    var byKey := ByKey(devices);
    var keys := Requirement(devices, c, capability).unboundDeviceKeys;
    UnboundKeysLead(devices, c, capability);
    MappedEntries(describe, byKey, capability, keys);
    var es := RequirementEntries(describe, byKey, capability, keys);
    forall d | d in devices && Unbound(c, d, capability) ensures describe(capability, d) in es {
      var i :| 0 <= i < |keys| && keys[i] == d.key;
      assert es[i] == describe(capability, d);
    }
    forall e | e in es ensures exists d | d in devices :: Unbound(c, d, capability) && e == describe(capability, d) {
      var i :| 0 <= i < |es| && es[i] == e;
      assert keys[i] in keys;
    }
  }

  function UnboundTotal(requirements: seq<CapabilityRequirement>): nat {
    if requirements == [] then 0 else |requirements[0].unboundDeviceKeys| + UnboundTotal(requirements[1..])
  }

  /** The entries of every capability from the n-th on. */
  ghost predicate EntriesFrom(
    es: seq<UnresolvedDevice>, describe: Describer, devices: seq<HardwareDevice>, c: Classifier, n: nat)
  {
    && (forall i, j | 0 <= i < j < |es| :: EntryBefore(es[i], es[j]))
    && (forall e | e in es ::
          CapabilityOrder(e.capability) >= n
          && exists d | d in devices :: Unbound(c, d, e.capability) && e == describe(e.capability, d))
    && (forall capability, d | CapabilityOrder(capability) >= n && d in devices && Unbound(c, d, capability) ::
          describe(capability, d) in es)
  }

  lemma JoinCapabilities(
    first: seq<UnresolvedDevice>, later: seq<UnresolvedDevice>, describe: Describer,
    devices: seq<HardwareDevice>, c: Classifier, n: nat)
    requires n < |ALL_CAPABILITIES| && KeepsIdentity(describe)
    requires EntriesOf(first, describe, devices, c, ALL_CAPABILITIES[n])
    requires EntriesFrom(later, describe, devices, c, n + 1)
    ensures EntriesFrom(first + later, describe, devices, c, n)
  {
    var es := first + later;
    assert CapabilityOrder(ALL_CAPABILITIES[n]) == n;
    forall i, j | 0 <= i < j < |es| ensures EntryBefore(es[i], es[j]) {
      if i < |first| <= j {
        assert es[i] in first && es[j] in later;
      }
    }
  }

  lemma RequirementsFrom(devices: seq<HardwareDevice>, c: Classifier, n: nat)
    requires n < |ALL_CAPABILITIES|
    ensures var rs := Requirements(devices, c)[n..];
            && rs != [] && rs[1..] == Requirements(devices, c)[n + 1..]
            && rs[0].capability == ALL_CAPABILITIES[n]
            && rs[0].unboundDeviceKeys == Requirement(devices, c, ALL_CAPABILITIES[n]).unboundDeviceKeys
  {
    var all := Requirements(devices, c);
    assert all[n..][1..] == all[n + 1..];
  }

  lemma {:induction false} CapabilitiesFrom(describe: Describer, devices: seq<HardwareDevice>, c: Classifier, n: nat)
    requires AscendingKeys(devices) && n <= |ALL_CAPABILITIES| && KeepsIdentity(describe)
    ensures var rs := Requirements(devices, c)[n..];
            var es := Entries(describe, ByKey(devices), rs);
            |es| == UnboundTotal(rs) && EntriesFrom(es, describe, devices, c, n)
    decreases |ALL_CAPABILITIES| - n
  {
    if n < |ALL_CAPABILITIES| {
      var rs := Requirements(devices, c)[n..];
      RequirementsFrom(devices, c, n);
      OneCapability(describe, devices, c, ALL_CAPABILITIES[n]);
      CapabilitiesFrom(describe, devices, c, n + 1);
      JoinCapabilities(
        RequirementEntries(describe, ByKey(devices), ALL_CAPABILITIES[n], rs[0].unboundDeviceKeys),
        Entries(describe, ByKey(devices), rs[1..]), describe, devices, c, n);
    }
  }

  lemma StrictIsSorted(es: seq<UnresolvedDevice>)
    requires forall i, j | 0 <= i < j < |es| :: EntryBefore(es[i], es[j])
    ensures StableSort(es, EntryAtMost) == es
  {
    SortIdentity(es, EntryAtMost);
  }

  /** For devices sorted and de-duplicated by key, the report has exactly one entry for each
      (capability, device) pair that is capable, a candidate and unbound; entries strictly ascend;
      and their number is the sum of the unbound lists, so no key was skipped. */
  lemma ReportIsExact(inventory: Inventory, c: Classifier)
    requires ScannerBuilt(inventory, c)
    ensures EntriesFrom(Unresolved(inventory), UnresolvedEntry, inventory.devices, c, 0)
    ensures |Unresolved(inventory)| == UnboundTotal(inventory.capabilities)
  {
    CapabilitiesFrom(UnresolvedEntry, inventory.devices, c, 0);
    assert inventory.capabilities[0..] == inventory.capabilities;
    StrictIsSorted(Entries(UnresolvedEntry, ByKey(inventory.devices), inventory.capabilities));
  }

  /** The machine is ready exactly when no capable candidate is unbound. */
  lemma ReadyExactly(inventory: Inventory, c: Classifier)
    requires ScannerBuilt(inventory, c)
    ensures Unresolved(inventory) == []
            <==> forall capability, d | d in inventory.devices :: !Unbound(c, d, capability)
  {
    ReportIsExact(inventory, c);
    if Unresolved(inventory) != [] {
      assert Unresolved(inventory)[0] in Unresolved(inventory);
    }
  }

  /** On any inventory, every reported entry describes one of its devices. */
  lemma ReportedDevicesExist(inventory: Inventory)
    ensures forall e | e in Unresolved(inventory) ::
              exists d | d in inventory.devices :: e == UnresolvedEntry(e.capability, d)
  {
    ByKeyMembers(inventory.devices);
    EntriesFromMap(UnresolvedEntry, ByKey(inventory.devices), inventory.capabilities);
    SameElements(Entries(UnresolvedEntry, ByKey(inventory.devices), inventory.capabilities), Unresolved(inventory));
  }

  lemma {:induction false} RequirementEntriesFromMap(
    describe: Describer, byKey: map<string, HardwareDevice>, capability: HardwareCapability, keys: seq<string>)
    requires KeepsIdentity(describe)
    ensures forall e | e in RequirementEntries(describe, byKey, capability, keys) ::
              exists key | key in byKey :: e == describe(e.capability, byKey[key])
  {
    if keys != [] {
      RequirementEntriesFromMap(describe, byKey, capability, keys[1..]);
    }
  }

  lemma {:induction false} EntriesFromMap(
    describe: Describer, byKey: map<string, HardwareDevice>, requirements: seq<CapabilityRequirement>)
    requires KeepsIdentity(describe)
    ensures forall e | e in Entries(describe, byKey, requirements) ::
              exists key | key in byKey :: e == describe(e.capability, byKey[key])
  {
    if requirements != [] {
      RequirementEntriesFromMap(describe, byKey, requirements[0].capability, requirements[0].unboundDeviceKeys);
      EntriesFromMap(describe, byKey, requirements[1..]);
    }
  }
}
