/** Which devices each hardware function needs (src/scan.rs, capability_requirements and
    target_profile_required), and the scanner's device order. */
module Capabilities {
  import opened Wrappers
  import opened Text
  import opened Sorting
  import opened Facts

  /** The keyword tables of the scanner, taken as arbitrary functions of the device. */
  datatype Classifier = Classifier(
    capabilities: HardwareDevice -> set<HardwareCapability>,
    candidate: (HardwareDevice, HardwareCapability) -> bool)

  // ----- Device order

  predicate KeyAtMost(a: HardwareDevice, b: HardwareDevice) {
    AtMost(a.key, b.key)
  }

  predicate SameKey(a: HardwareDevice, b: HardwareDevice) {
    a.key == b.key
  }

  function Key(d: HardwareDevice): string {
    d.key
  }

  /** `devices.sort_by(key)` then `devices.dedup_by(key)`. */
  function SortedDevices(found: seq<HardwareDevice>): seq<HardwareDevice> {
    Dedup(StableSort(found, KeyAtMost), SameKey)
  }

  ghost predicate AscendingKeys(devices: seq<HardwareDevice>) {
    StrictlyAscending(Map(devices, Key))
  }

  function HasKey(key: string): HardwareDevice -> bool {
    (d: HardwareDevice) => d.key == key
  }

  /** The first device with a key, in the order given. */
  function FirstWithKey(devices: seq<HardwareDevice>, key: string): Option<HardwareDevice> {
    First(devices, HasKey(key))
  }

  predicate KeyBefore(a: HardwareDevice, b: HardwareDevice) {
    Less(a.key, b.key)
  }

  lemma KeyOrder()
    ensures TotalPreorder(KeyAtMost)
    ensures forall a, b, c :: KeyBefore(a, b) && KeyBefore(b, c) ==> KeyBefore(a, c)
  {
    forall a: HardwareDevice, b: HardwareDevice ensures KeyAtMost(a, b) || KeyAtMost(b, a) {
      LessTotal(a.key, b.key);
    }
    forall a: HardwareDevice, b: HardwareDevice, c: HardwareDevice | KeyBefore(a, b) && KeyBefore(b, c)
      ensures KeyBefore(a, c)
    {
      LessTransitive(a.key, b.key, c.key);
    }
    assert forall a, b :: KeyAtMost(a, b) <==> a.key == b.key || KeyBefore(a, b);
  }

  /** Sorting and de-duplicating leaves strictly ascending keys, and for every key the device
      that was found first. */
  lemma SortedDevicesKeepFirst(found: seq<HardwareDevice>)
    ensures AscendingKeys(SortedDevices(found))
    ensures forall key :: FirstWithKey(SortedDevices(found), key) == FirstWithKey(found, key)
  {
    KeyOrder();
    StableSortSorted(found, KeyAtMost);
    DedupAscends(StableSort(found, KeyAtMost), KeyAtMost, SameKey, KeyBefore);
    assert SortedBy(SortedDevices(found), KeyBefore);
    forall key ensures FirstWithKey(SortedDevices(found), key) == FirstWithKey(found, key) {
      SortKeepsFirst(found, KeyAtMost, HasKey(key));
      DedupKeepsFirst(StableSort(found, KeyAtMost), SameKey, HasKey(key));
    }
  }

  // ----- capability_requirements

  predicate Needs(c: Classifier, d: HardwareDevice, capability: HardwareCapability) {
    capability in c.capabilities(d) && c.candidate(d, capability)
  }

  predicate Unbound(c: Classifier, d: HardwareDevice, capability: HardwareCapability) {
    Needs(c, d, capability) && d.driver == None
  }

  function NeededKey(c: Classifier, capability: HardwareCapability): HardwareDevice -> set<string> {
    d => if Needs(c, d, capability) then {d.key} else {}
  }

  function NeededModalias(c: Classifier, capability: HardwareCapability): HardwareDevice -> set<string> {
    d => if Needs(c, d, capability) && d.modalias != "" then {d.modalias} else {}
  }

  function BoundDriver(c: Classifier, capability: HardwareCapability): HardwareDevice -> set<string> {
    d => if Needs(c, d, capability) && d.driver.Some? then {d.driver.value} else {}
  }

  function UnboundKey(c: Classifier, capability: HardwareCapability): HardwareDevice -> set<string> {
    d => if Unbound(c, d, capability) then {d.key} else {}
  }

  ghost function Requirement(devices: seq<HardwareDevice>, c: Classifier, capability: HardwareCapability)
    : CapabilityRequirement
  {
    CapabilityRequirement(
      capability,
      Ascending(Union(devices, NeededKey(c, capability))),
      Ascending(Union(devices, NeededModalias(c, capability))),
      Ascending(Union(devices, BoundDriver(c, capability))),
      Ascending(Union(devices, UnboundKey(c, capability))))
  }

  ghost function Requirements(devices: seq<HardwareDevice>, c: Classifier): (r: seq<CapabilityRequirement>)
    ensures |r| == |ALL_CAPABILITIES|
    ensures forall i | 0 <= i < |r| :: r[i] == Requirement(devices, c, ALL_CAPABILITIES[i])
  {
    seq(|ALL_CAPABILITIES|, i requires 0 <= i < |ALL_CAPABILITIES| => Requirement(devices, c, ALL_CAPABILITIES[i]))
  }

  method NeededBy(devices: seq<HardwareDevice>, c: Classifier, capability: HardwareCapability)
    returns (deviceKeys: set<string>, modaliases: set<string>, boundDrivers: set<string>, unbound: set<string>)
    ensures deviceKeys == Union(devices, NeededKey(c, capability))
    ensures modaliases == Union(devices, NeededModalias(c, capability))
    ensures boundDrivers == Union(devices, BoundDriver(c, capability))
    ensures unbound == Union(devices, UnboundKey(c, capability))
  {
    deviceKeys, modaliases, boundDrivers, unbound := {}, {}, {}, {};
    for i := 0 to |devices|
      invariant deviceKeys == Union(devices[..i], NeededKey(c, capability))
      invariant modaliases == Union(devices[..i], NeededModalias(c, capability))
      invariant boundDrivers == Union(devices[..i], BoundDriver(c, capability))
      invariant unbound == Union(devices[..i], UnboundKey(c, capability))
    {
      var device := devices[i];
      UnionStep(devices, i, NeededKey(c, capability));
      UnionStep(devices, i, NeededModalias(c, capability));
      UnionStep(devices, i, BoundDriver(c, capability));
      UnionStep(devices, i, UnboundKey(c, capability));
      if capability in c.capabilities(device) && c.candidate(device, capability) {
        deviceKeys := deviceKeys + {device.key};
        if device.modalias != "" {
          modaliases := modaliases + {device.modalias};
        }
        if device.driver.Some? {
          boundDrivers := boundDrivers + {device.driver.value};
        } else {
          unbound := unbound + {device.key};
        }
      }
    }
    assert devices[..|devices|] == devices;
  }

  method CapabilityRequirements(devices: seq<HardwareDevice>, c: Classifier) returns (r: seq<CapabilityRequirement>)
    ensures r == Requirements(devices, c)
  {
    r := [];
    for i := 0 to |ALL_CAPABILITIES|
      invariant r == Requirements(devices, c)[..i]
    {
      var capability := ALL_CAPABILITIES[i];
      var deviceKeys, modaliases, boundDrivers, unbound := NeededBy(devices, c, capability);
      var keyList := ToSorted(deviceKeys);
      var modaliasList := ToSorted(modaliases);
      var driverList := ToSorted(boundDrivers);
      var unboundList := ToSorted(unbound);
      r := r + [CapabilityRequirement(capability, keyList, modaliasList, driverList, unboundList)];
    }
  }

  /** An inventory as the scanner assembles it: ascending keys, requirements derived from the devices. */
  ghost predicate ScannerBuilt(inventory: Inventory, c: Classifier) {
    AscendingKeys(inventory.devices) && inventory.capabilities == Requirements(inventory.devices, c)
  }

  // ----- target_profile_required

  predicate TargetDriverEvidence(d: HardwareDevice) {
    "linux_driver_candidates" in d.properties
    || "linux_driver_files" in d.properties
    || "linux_driver_builtins" in d.properties
  }

  predicate TargetProfileRequired(d: HardwareDevice, c: Classifier) {
    d.bus != Bus.Sysfs
    && (c.capabilities(d) != {}
        || (d.modalias != "" && (d.driver == None || TargetDriverEvidence(d)))
        || TargetDriverEvidence(d))
  }
}
