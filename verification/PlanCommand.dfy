/** The plan command, from the preflight report to the plan set (src/main.rs, plan_command). */
module PlanCommand {
  import opened Wrappers
  import opened Text
  import opened Sorting
  import opened Facts
  import opened Profile
  import opened Resolve
  import opened ResolveProperties
  import opened Evidence
  import opened Plan
  import opened Capabilities
  import opened Preflight

  /** Why a run prints no plan set; `pass` says which of the three passes over devices refused. */
  datatype CommandError =
    | Refused(pass: nat, resolveError: ResolveError)
    | NotBuilt(planError: PlanError)
    | NoTargetProfile(deviceKey: string)
    | MissingDevice(deviceKey: string)
    | NoProfile(deviceKey: string)

  datatype PlanSet = PlanSet(schema: nat, plan: seq<ProvisionPlan>)

  /** Resolving and planning for one machine, catalog and ABI. */
  datatype Planner = Planner(
    resolve: HardwareDevice -> Resolved,
    build: (VerifiedProfile, HardwareDevice) -> Result<ProvisionPlan, PlanError>)

  function PlannerFor(inventory: Inventory, profiles: seq<VerifiedProfile>, driverAbi: string): Planner {
    Planner(
      (d: HardwareDevice) => Resolution(inventory.system, d, profiles),
      (w: VerifiedProfile, d: HardwareDevice) => BuildPlan(w, inventory.system, d, driverAbi))
  }

  /** The device resolves, and its profile, if there is one, can be planned. */
  predicate Plannable(p: Planner, d: HardwareDevice) {
    match p.resolve(d)
    case Err(_) => false
    case Ok(None) => true
    case Ok(Some(w)) => p.build(w, d).Ok?
  }

  predicate HasProfile(p: Planner, d: HardwareDevice) {
    p.resolve(d).Ok? && p.resolve(d).value.Some?
  }

  function Profiled(p: Planner): HardwareDevice -> bool {
    d => HasProfile(p, d)
  }

  /** The plans of the devices that have a profile, in device order. */
  function Plans(p: Planner, devices: seq<HardwareDevice>): seq<ProvisionPlan>
    requires forall d | d in devices :: Plannable(p, d)
  {
    if devices == [] then []
    else
      var n := |devices| - 1;
      var d := devices[n];
      assert d in devices && Plannable(p, d);
      Plans(p, devices[..n]) + if HasProfile(p, d) then [p.build(p.resolve(d).value.value, d).value] else []
  }

  // ----- The three passes

  method PlanDevices(p: Planner, devices: seq<HardwareDevice>) returns (r: Result<seq<ProvisionPlan>, CommandError>)
    ensures r.Ok? <==> forall d | d in devices :: Plannable(p, d)
    ensures r.Ok? ==> r.value == Plans(p, devices)
    ensures r.Err? ==> (r.error.Refused? && r.error.pass == 1) || r.error.NotBuilt?
  {
    var plans: seq<ProvisionPlan> := [];
    for i := 0 to |devices|
      invariant forall d | d in devices[..i] :: Plannable(p, d)
      invariant plans == Plans(p, devices[..i])
    {
      var device := devices[i];
      assert device in devices;
      var resolved := p.resolve(device);
      if resolved.Err? {
        return Err(Refused(1, resolved.error));
      }
      if resolved.value.Some? {
        var plan := p.build(resolved.value.value, device);
        if plan.Err? {
          return Err(NotBuilt(plan.error));
        }
        plans := plans + [plan.value];
      }
      assert devices[..i + 1] == devices[..i] + [device];
      assert devices[..i + 1][..i] == devices[..i];
    }
    assert devices[..|devices|] == devices;
    return Ok(plans);
  }

  /** The pass that runs only under --require-target-profiles. */
  method RequireTargets(p: Planner, devices: seq<HardwareDevice>, c: Classifier) returns (error: Option<CommandError>)
    ensures error == None <==> forall d | d in devices && TargetProfileRequired(d, c) :: HasProfile(p, d)
    ensures error.Some? ==>
              match error.value
              case Refused(pass, _) => pass == 2 && exists d | d in devices :: p.resolve(d).Err?
              case NoTargetProfile(key) =>
                exists d | d in devices && d.key == key :: TargetProfileRequired(d, c) && p.resolve(d) == Ok(None)
              case _ => false
  {
    for i := 0 to |devices|
      invariant forall j | 0 <= j < i :: TargetProfileRequired(devices[j], c) ==> HasProfile(p, devices[j])
    {
      var device := devices[i];
      assert device in devices;
      if TargetProfileRequired(device, c) {
        var resolved := p.resolve(device);
        if resolved.Err? {
          return Some(Refused(2, resolved.error));
        }
        if resolved.value == None {
          return Some(NoTargetProfile(device.key));
        }
      }
    }
    return None;
  }

  method FindDevice(devices: seq<HardwareDevice>, key: string) returns (r: Option<HardwareDevice>)
    ensures r == FirstWithKey(devices, key)
  {
    for i := 0 to |devices|
      invariant FirstWithKey(devices, key) == FirstWithKey(devices[i..], key)
    {
      assert devices[i..][1..] == devices[i + 1..];
      if devices[i].key == key {
        return Some(devices[i]);
      }
    }
    return None;
  }

  /** The first device with the key is there and has a profile. */
  predicate KeyHasProfile(p: Planner, devices: seq<HardwareDevice>, key: string) {
    FirstWithKey(devices, key).Some? && HasProfile(p, FirstWithKey(devices, key).value)
  }

  method RequireResolved(p: Planner, devices: seq<HardwareDevice>, keys: seq<string>)
    returns (error: Option<CommandError>)
    ensures error == None <==> forall key | key in keys :: KeyHasProfile(p, devices, key)
    ensures error.Some? ==>
              match error.value
              case Refused(pass, _) => pass == 3 && exists d | d in devices :: p.resolve(d).Err?
              case MissingDevice(key) => key in keys && FirstWithKey(devices, key) == None
              case NoProfile(key) => key in keys && !KeyHasProfile(p, devices, key)
              case _ => false
  {
    for i := 0 to |keys|
      invariant forall j | 0 <= j < i :: KeyHasProfile(p, devices, keys[j])
    {
      assert keys[i] in keys;
      var found := FindDevice(devices, keys[i]);
      if found == None {
        return Some(MissingDevice(keys[i]));
      }
      FirstIsMember(devices, keys[i]);
      var resolved := p.resolve(found.value);
      if resolved.Err? {
        return Some(Refused(3, resolved.error));
      }
      if resolved.value == None {
        return Some(NoProfile(keys[i]));
      }
    }
    return None;
  }

  lemma {:induction false} FirstIsMember(devices: seq<HardwareDevice>, key: string)
    ensures var first := FirstWithKey(devices, key);
            && (first.Some? ==> first.value in devices && first.value.key == key)
            && (first == None ==> forall d | d in devices :: d.key != key)
  {
    if devices != [] && devices[0].key != key {
      FirstIsMember(devices[1..], key);
    }
  }

  // ----- plan_command

  method UnresolvedKeys(unresolved: seq<UnresolvedDevice>) returns (keys: set<string>)
    ensures forall key :: key in keys <==> exists e | e in unresolved :: e.deviceKey == key
  {
    keys := {};
    for i := 0 to |unresolved|
      invariant forall key :: key in keys <==> exists j | 0 <= j < i :: unresolved[j].deviceKey == key
    {
      keys := keys + {unresolved[i].deviceKey};
    }
  }

  /** Everything a run demands before it prints a plan set. */
  ghost predicate Succeeds(
    p: Planner, devices: seq<HardwareDevice>, unresolved: seq<UnresolvedDevice>, requireTargets: bool, c: Classifier)
  {
    && (forall d | d in devices :: Plannable(p, d))
    && (requireTargets ==> forall d | d in devices && TargetProfileRequired(d, c) :: HasProfile(p, d))
    && (forall e | e in unresolved :: KeyHasProfile(p, devices, e.deviceKey))
  }

  /** The three passes over the devices and the report's unresolved keys. Only the first pass can
      meet a resolve error, and no key of a device of the inventory is ever missing. */
  method RunPasses(
    p: Planner, devices: seq<HardwareDevice>, unresolved: seq<UnresolvedDevice>, requireTargets: bool, c: Classifier)
    returns (r: Result<PlanSet, CommandError>)
    requires forall e | e in unresolved :: exists d | d in devices :: d.key == e.deviceKey
    ensures r.Ok? <==> Succeeds(p, devices, unresolved, requireTargets, c)
    ensures r.Ok? ==> r.value == PlanSet(PLAN_SCHEMA, Plans(p, devices))
    ensures r.Err? && r.error.Refused? ==> r.error.pass == 1
    ensures r.Err? ==> !r.error.MissingDevice?
    ensures r.Err? && r.error.NoTargetProfile? ==>
              requireTargets
              && exists d | d in devices && d.key == r.error.deviceKey ::
                   TargetProfileRequired(d, c) && p.resolve(d) == Ok(None)
  {
    var keySet := UnresolvedKeys(unresolved);
    var planned := PlanDevices(p, devices);
    if planned.Err? {
      return Err(planned.error);
    }
    if requireTargets {
      var error := RequireTargets(p, devices, c);
      if error.Some? {
        return Err(error.value);
      }
    }
    var keys := ToSorted(keySet);
    var error := RequireResolved(p, devices, keys);
    if error.Some? {
      if error.value.MissingDevice? {
        FirstIsMember(devices, error.value.deviceKey);
      }
      return Err(error.value);
    }
    return Ok(PlanSet(PLAN_SCHEMA, planned.value));
  }

  /** A device stands for hardware that some package must serve: off sysfs, it has a function, or it
      names itself and nothing drives it, or the target's tables name a driver for it. */
  ghost predicate DemandsProfile(d: HardwareDevice, c: Classifier) {
    d.bus != Bus.Sysfs
    && (c.capabilities(d) != {}
        || (d.modalias != "" && d.driver == None)
        || "linux_driver_candidates" in d.properties
        || "linux_driver_files" in d.properties
        || "linux_driver_builtins" in d.properties)
  }

  lemma RequiredIsDemanded(d: HardwareDevice, c: Classifier)
    ensures TargetProfileRequired(d, c) <==> DemandsProfile(d, c)
  {
  }

  /** plan_command. With the flag, a printed set has a plan for every device that demands one, and
      the run fails for want of a profile only at such a device. */
  method PlanMachine(
    inventory: Inventory, profiles: seq<VerifiedProfile>, driverAbi: string, requireTargets: bool, c: Classifier)
    returns (r: Result<PlanSet, CommandError>)
    ensures var p := PlannerFor(inventory, profiles, driverAbi);
            && (r.Ok? <==> Succeeds(p, inventory.devices, Unresolved(inventory), requireTargets, c))
            && (r.Ok? ==> r.value == PlanSet(PLAN_SCHEMA, Plans(p, inventory.devices)))
    ensures r.Err? && r.error.Refused? ==> r.error.pass == 1
    ensures r.Err? ==> !r.error.MissingDevice?
    ensures r.Ok? && requireTargets ==>
              forall d | d in inventory.devices && DemandsProfile(d, c) ::
                exists plan | plan in r.value.plan :: plan.deviceKey == d.key
    ensures r.Err? && r.error.NoTargetProfile? ==>
              requireTargets
              && exists d | d in inventory.devices && d.key == r.error.deviceKey ::
                   DemandsProfile(d, c) && !exists v | v in profiles :: Fits(v.profile, inventory.system, d)
  {
    var preflight := PreflightInventory(inventory);
    ReportedKeysExist(inventory);
    var p := PlannerFor(inventory, profiles, driverAbi);
    r := RunPasses(p, inventory.devices, preflight.unresolved, requireTargets, c);
    if r.Ok? && requireTargets {
      BuiltPlansKeepKeys(inventory, profiles, driverAbi);
      DemandedArePlanned(p, inventory.devices, c);
    }
    if r.Err? && r.error.NoTargetProfile? {
      UnservedFitsNothing(inventory, profiles, driverAbi, r.error.deviceKey, c);
    }
  }

  lemma DemandedArePlanned(p: Planner, devices: seq<HardwareDevice>, c: Classifier)
    requires KeepsKeys(p) && forall d | d in devices :: Plannable(p, d)
    requires forall d | d in devices && TargetProfileRequired(d, c) :: HasProfile(p, d)
    ensures forall d | d in devices && DemandsProfile(d, c) ::
              exists plan | plan in Plans(p, devices) :: plan.deviceKey == d.key
  {
    forall d | d in devices && DemandsProfile(d, c)
      ensures exists plan | plan in Plans(p, devices) :: plan.deviceKey == d.key
    {
      RequiredIsDemanded(d, c);
      PlanOfDevice(p, devices, d);
    }
  }

  lemma {:induction false} PlanOfDevice(p: Planner, devices: seq<HardwareDevice>, d: HardwareDevice)
    requires d in devices && HasProfile(p, d) && forall d' | d' in devices :: Plannable(p, d')
    ensures Plannable(p, d) && p.build(p.resolve(d).value.value, d).value in Plans(p, devices)
  {
    var n := |devices| - 1;
    assert devices == devices[..n] + [devices[n]];
    if d != devices[n] {
      PlanOfDevice(p, devices[..n], d);
    }
  }

  lemma {:induction false} DeviceOfPlan(p: Planner, devices: seq<HardwareDevice>, plan: ProvisionPlan)
    returns (d: HardwareDevice)
    requires (forall d' | d' in devices :: Plannable(p, d')) && plan in Plans(p, devices)
    ensures d in devices && HasProfile(p, d) && p.build(p.resolve(d).value.value, d) == Ok(plan)
  {
    var n := |devices| - 1;
    d := devices[n];
    assert d in devices && Plannable(p, d);
    if plan in Plans(p, devices[..n]) {
      d := DeviceOfPlan(p, devices[..n], plan);
    }
  }

  lemma UnservedFitsNothing(
    inventory: Inventory, profiles: seq<VerifiedProfile>, driverAbi: string, key: string, c: Classifier)
    requires exists d | d in inventory.devices && d.key == key ::
               TargetProfileRequired(d, c) && PlannerFor(inventory, profiles, driverAbi).resolve(d) == Ok(None)
    ensures exists d | d in inventory.devices && d.key == key ::
              DemandsProfile(d, c) && !exists v | v in profiles :: Fits(v.profile, inventory.system, d)
  {
    var d :| d in inventory.devices && d.key == key
             && TargetProfileRequired(d, c) && PlannerFor(inventory, profiles, driverAbi).resolve(d) == Ok(None);
    RequiredIsDemanded(d, c);
    RefusedExactly(inventory.system, d, profiles);
    FittingAreMatching(inventory.system, d, profiles);
  }

  /** The flag adds exactly this to what a run demands: every device off sysfs that has a function,
      names itself unbound, or has driver evidence must fit some profile of the catalog. So neither a
      sysfs device nor a bound one without function and evidence makes a run fail with the flag that
      succeeds without it. */
  lemma FlagDemandsExactly(inventory: Inventory, profiles: seq<VerifiedProfile>, driverAbi: string, c: Classifier)
    ensures var p := PlannerFor(inventory, profiles, driverAbi);
            Succeeds(p, inventory.devices, Unresolved(inventory), true, c)
            <==> && Succeeds(p, inventory.devices, Unresolved(inventory), false, c)
                 && forall d | d in inventory.devices && DemandsProfile(d, c) ::
                      exists v | v in profiles :: Fits(v.profile, inventory.system, d)
  {
    var p := PlannerFor(inventory, profiles, driverAbi);
    if forall d | d in inventory.devices :: Plannable(p, d) {
      forall d | d in inventory.devices
        ensures HasProfile(p, d) <==> exists v | v in profiles :: Fits(v.profile, inventory.system, d)
        ensures TargetProfileRequired(d, c) <==> DemandsProfile(d, c)
      {
        RequiredIsDemanded(d, c);
        RefusedExactly(inventory.system, d, profiles);
        FittingAreMatching(inventory.system, d, profiles);
        FilterNone(profiles, Eligible(inventory.system, d));
      }
    }
  }

  /** Every plan of a run is for a device of the inventory and carries, field by field, the profile
      that was resolved for it and fits it, its signed bytes' digest and its signing key. */
  lemma PlansAreBacked(inventory: Inventory, profiles: seq<VerifiedProfile>, driverAbi: string, plan: ProvisionPlan)
    requires forall d | d in inventory.devices :: Plannable(PlannerFor(inventory, profiles, driverAbi), d)
    requires plan in Plans(PlannerFor(inventory, profiles, driverAbi), inventory.devices)
    ensures exists d, v ::
              && d in inventory.devices && v in profiles
              && Fits(v.profile, inventory.system, d)
              && Resolution(inventory.system, d, profiles) == Ok(Some(v))
              && Carries(plan, v, inventory.system.cpu, d.key, driverAbi)
  {
    var p := PlannerFor(inventory, profiles, driverAbi);
    var d := DeviceOfPlan(p, inventory.devices, plan);
    var v := p.resolve(d).value.value;
    EvidenceSelects(inventory.system, d, profiles, v);
    PlanCarries(v, inventory.system, d, driverAbi);
    assert Carries(plan, v, inventory.system.cpu, d.key, driverAbi);
  }

  lemma ReportedKeysExist(inventory: Inventory)
    ensures forall e | e in Unresolved(inventory) :: exists d | d in inventory.devices :: d.key == e.deviceKey
  {
    ReportedDevicesExist(inventory);
  }

  // ----- What a printed plan set covers

  function PlanKey(p: ProvisionPlan): string {
    p.deviceKey
  }

  /** A plan names the device it was built for. */
  ghost predicate KeepsKeys(p: Planner) {
    forall w, d | p.build(w, d).Ok? :: p.build(w, d).value.deviceKey == d.key
  }

  lemma {:induction false} PlansPerProfile(p: Planner, devices: seq<HardwareDevice>)
    requires KeepsKeys(p) && forall d | d in devices :: Plannable(p, d)
    ensures Map(Plans(p, devices), PlanKey) == Map(Filter(devices, Profiled(p)), Key)
  {
    if devices != [] {
      var n := |devices| - 1;
      assert devices[n] in devices;
      PlansPerProfile(p, devices[..n]);
      FilterStep(devices, n, Profiled(p));
      assert devices[..n + 1] == devices;
    }
  }

  lemma {:induction false} FilterAscends(devices: seq<HardwareDevice>, p: HardwareDevice -> bool)
    requires AscendingKeys(devices)
    ensures AscendingKeys(Filter(devices, p))
  {
    if devices != [] {
      var keys := Map(devices, Key);
      assert Map(devices[1..], Key) == keys[1..];
      FilterAscends(devices[1..], p);
      var kept := Filter(devices, p);
      var rest := Filter(devices[1..], p);
      forall j | 0 <= j < |rest| ensures Less(devices[0].key, rest[j].key) {
        assert rest[j] in devices[1..];
        var k :| 0 <= k < |devices[1..]| && devices[1..][k] == rest[j];
        assert Less(keys[0], keys[k + 1]);
      }
      forall i, j | 0 <= i < j < |kept| ensures Less(Map(kept, Key)[i], Map(kept, Key)[j]) {
        if p(devices[0]) {
          if i > 0 {
            assert Less(Map(rest, Key)[i - 1], Map(rest, Key)[j - 1]);
          }
        }
      }
    }
  }

  /** The keys planned: ascending, and those of exactly the devices that have a profile. */
  lemma PlannedKeys(p: Planner, devices: seq<HardwareDevice>)
    requires KeepsKeys(p) && AscendingKeys(devices) && forall d | d in devices :: Plannable(p, d)
    ensures var keys := Map(Plans(p, devices), PlanKey);
            && StrictlyAscending(keys)
            && (forall d | d in devices :: d.key in keys <==> HasProfile(p, d))
            && (forall key | key in keys :: exists d | d in devices :: d.key == key)
  {
    var matched := Filter(devices, Profiled(p));
    var keys := Map(matched, Key);
    PlansPerProfile(p, devices);
    FilterAscends(devices, Profiled(p));
    forall d | d in devices ensures d.key in keys <==> HasProfile(p, d) {
      if d.key in keys {
        var i :| 0 <= i < |matched| && keys[i] == d.key;
        assert matched[i] in matched;
        UniqueKeys(devices, d, matched[i]);
      }
      if HasProfile(p, d) {
        assert d in matched;
        var i :| 0 <= i < |matched| && matched[i] == d;
        assert keys[i] == d.key;
      }
    }
    forall key | key in keys ensures exists d | d in devices :: d.key == key {
      var i :| 0 <= i < |matched| && keys[i] == key;
      assert matched[i] in matched;
    }
  }

  lemma BuiltPlansKeepKeys(inventory: Inventory, profiles: seq<VerifiedProfile>, driverAbi: string)
    ensures KeepsKeys(PlannerFor(inventory, profiles, driverAbi))
  {
  }

  /** Where every device resolves, having a profile is having a match. */
  lemma ProfileExactlyWhenMatched(
    inventory: Inventory, profiles: seq<VerifiedProfile>, driverAbi: string, d: HardwareDevice)
    requires Plannable(PlannerFor(inventory, profiles, driverAbi), d)
    ensures HasProfile(PlannerFor(inventory, profiles, driverAbi), d)
            <==> exists v | v in profiles :: ProfileMatches(v.profile, inventory.system, d)
  {
    RefusedExactly(inventory.system, d, profiles);
    FilterNone(profiles, Eligible(inventory.system, d));
  }

  /** For a scanned inventory, a printed plan set has exactly one plan for each device some
      profile matches, with strictly ascending device keys; it covers every device the preflight
      reports unresolved and, with the flag, every device that requires a target profile. */
  lemma PlanSetCovers(
    inventory: Inventory, profiles: seq<VerifiedProfile>, driverAbi: string, requireTargets: bool, c: Classifier)
    requires ScannerBuilt(inventory, c)
    requires Succeeds(PlannerFor(inventory, profiles, driverAbi), inventory.devices, Unresolved(inventory),
                      requireTargets, c)
    ensures var keys := Map(Plans(PlannerFor(inventory, profiles, driverAbi), inventory.devices), PlanKey);
            && StrictlyAscending(keys)
            && (forall d | d in inventory.devices ::
                  d.key in keys <==> exists v | v in profiles :: ProfileMatches(v.profile, inventory.system, d))
            && (forall key | key in keys :: exists d | d in inventory.devices :: d.key == key)
            && (forall d, capability | d in inventory.devices && Unbound(c, d, capability) :: d.key in keys)
            && (requireTargets ==> forall d | d in inventory.devices && TargetProfileRequired(d, c) :: d.key in keys)
  {
    var p := PlannerFor(inventory, profiles, driverAbi);
    var keys := Map(Plans(p, inventory.devices), PlanKey);
    BuiltPlansKeepKeys(inventory, profiles, driverAbi);
    PlannedKeys(p, inventory.devices);
    forall d | d in inventory.devices
      ensures d.key in keys <==> exists v | v in profiles :: ProfileMatches(v.profile, inventory.system, d)
    {
      ProfileExactlyWhenMatched(inventory, profiles, driverAbi, d);
    }
    UnresolvedCovered(p, inventory, c);
  }

  lemma UnresolvedCovered(p: Planner, inventory: Inventory, c: Classifier)
    requires ScannerBuilt(inventory, c)
    requires forall e | e in Unresolved(inventory) :: KeyHasProfile(p, inventory.devices, e.deviceKey)
    ensures forall d, capability | d in inventory.devices && Unbound(c, d, capability) :: HasProfile(p, d)
  {
    ReportIsExact(inventory, c);
    forall d, capability | d in inventory.devices && Unbound(c, d, capability) ensures HasProfile(p, d) {
      assert UnresolvedEntry(capability, d) in Unresolved(inventory);
      FirstIsMember(inventory.devices, d.key);
      UniqueKeys(inventory.devices, d, FirstWithKey(inventory.devices, d.key).value);
    }
  }
}
