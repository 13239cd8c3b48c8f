/** Turning a chosen profile into a provisioning plan (src/plan.rs). */
module Plan {
  import opened Wrappers
  import opened Text
  import opened Sorting
  import opened Facts
  import opened Profile

  const PLAN_SCHEMA := 2

  datatype CompilerTarget = CompilerTarget(
    architecture: CpuArchitecture,
    vendor: string,
    family: Option<nat>,
    model: Option<nat>,
    stepping: Option<nat>,
    features: seq<CpuFeature>)

  /** An install intent: the profile's package, with the only verb there is. */
  datatype CorinthIntent = Install(intent: PackageIntent)

  datatype ProvisionPlan = ProvisionPlan(
    schema: nat,
    profileId: string,
    profileSha256: string,
    signingKeyId: string,
    deviceKey: string,
    driverAbi: string,
    compiler: CompilerTarget,
    package: seq<CorinthIntent>,
    health: seq<HealthCheck>,
    rollback: RollbackPolicy,
    recovery: Option<RecoveryPolicy>)

  datatype PlanError =
    | InvalidRunningAbi
    | ProfileHasNoDriverAbi
    | DriverAbiUnsupported(running: string, minimum: string, maximum: string)
    | CompilerArchitectureUnsupported(observed: CpuArchitecture, required: CpuArchitecture)
    | CompilerFeaturesMissing(missing: seq<CpuFeature>)

  function Observed(system: SystemFacts): CpuFeature -> bool {
    f => f in system.cpu.features
  }

  predicate FeatureAtMost(a: CpuFeature, b: CpuFeature) {
    FeatureOrder(a) <= FeatureOrder(b)
  }

  predicate SameFeature(a: CpuFeature, b: CpuFeature) {
    a == b
  }

  function Unobserved(system: SystemFacts): CpuFeature -> bool {
    f => f !in system.cpu.features
  }

  /** The difference of the required and the observed feature sets, in feature order. */
  function Missing(required: seq<CpuFeature>, system: SystemFacts): seq<CpuFeature> {
    Filter(Dedup(StableSort(required, FeatureAtMost), SameFeature), Unobserved(system))
  }

  function BuildCompilerTarget(policy: Option<CompilerPolicy>, system: SystemFacts): Result<CompilerTarget, PlanError> {
    var target := (features: seq<CpuFeature>) =>
      CompilerTarget(system.cpu.architecture, system.cpu.vendor, system.cpu.family,
                     system.cpu.model, system.cpu.stepping, features);
    match policy
    case None => Ok(target([]))
    case Some(policy) =>
      if system.cpu.architecture != policy.architecture then
        Err(CompilerArchitectureUnsupported(system.cpu.architecture, policy.architecture))
      else
        var missing := Missing(policy.requiredFeatures, system);
        if missing != [] then Err(CompilerFeaturesMissing(missing))
        else Ok(target(Filter(policy.allowedFeatures, Observed(system))))
  }

  function AbiCheck(profile: HardwareProfile, running: AbiVersion, text: string): Option<PlanError> {
    if !HasHardware(profile) then None
    else if profile.driverAbi == None then Some(ProfileHasNoDriverAbi)
    else
      var range := profile.driverAbi.value;
      var (minimum, maximum) := (ParseAbi(range.minimum), ParseAbi(range.maximum));
      if minimum == None || maximum == None then Some(ProfileHasNoDriverAbi)
      else if !AbiAtMost(minimum.value, running) || !AbiAtMost(running, maximum.value) then
        Some(DriverAbiUnsupported(text, range.minimum, range.maximum))
      else None
  }

  function BuildPlan(
    verified: VerifiedProfile, system: SystemFacts, device: HardwareDevice, runningDriverAbi: string)
    : Result<ProvisionPlan, PlanError>
  {
    var running := ParseAbi(runningDriverAbi);
    if running == None then Err(InvalidRunningAbi)
    else
      var refused := AbiCheck(verified.profile, running.value, runningDriverAbi);
      if refused.Some? then Err(refused.value)
      else
        var compiler := BuildCompilerTarget(verified.profile.compiler, system);
        if compiler.Err? then Err(compiler.error)
        else
          Ok(ProvisionPlan(
               PLAN_SCHEMA, verified.profile.id, verified.profileSha256, verified.keyId, device.key,
               runningDriverAbi, compiler.value, Map(verified.profile.package, (p: PackageIntent) => Install(p)),
               verified.profile.health, verified.profile.rollback, verified.profile.recovery))
  }

  // ----- The compiler target

  lemma MissingMembers(required: seq<CpuFeature>, system: SystemFacts)
    ensures forall f :: f in Missing(required, system) <==> f in required && f !in system.cpu.features
    ensures Missing(required, system) == [] <==> forall f | f in required :: f in system.cpu.features
  {
    var sorted := StableSort(required, FeatureAtMost);
    SameElements(sorted, required);
    DedupMembers(sorted, SameFeature);
    FilterNone(Dedup(sorted, SameFeature), Unobserved(system));
  }

  predicate FeatureBefore(a: CpuFeature, b: CpuFeature) {
    FeatureOrder(a) < FeatureOrder(b)
  }

  lemma OneFeatureEach(a: CpuFeature, b: CpuFeature)
    requires FeatureOrder(a) == FeatureOrder(b)
    ensures a == b
  {
  }

  /** The missing features are listed in strict order. */
  lemma MissingOrdered(required: seq<CpuFeature>, system: SystemFacts)
    ensures Ordered(Missing(required, system))
  {
    forall a, b ensures FeatureAtMost(a, b) && !SameFeature(b, a) ==> FeatureBefore(a, b) {
      if FeatureOrder(a) == FeatureOrder(b) {
        OneFeatureEach(a, b);
      }
    }
    StableSortSorted(required, FeatureAtMost);
    var sorted := StableSort(required, FeatureAtMost);
    DedupAscends(sorted, FeatureAtMost, SameFeature, FeatureBefore);
    assert Ordered(Dedup(sorted, SameFeature));
    FilterOrdered(Dedup(sorted, SameFeature), Unobserved(system));
  }

  lemma {:induction false} FilterOrdered(features: seq<CpuFeature>, p: CpuFeature -> bool)
    requires Ordered(features)
    ensures Ordered(Filter(features, p))
  {
    if features != [] {
      FilterOrdered(features[1..], p);
      var rest := Filter(features[1..], p);
      forall j | 0 <= j < |rest| ensures FeatureOrder(features[0]) < FeatureOrder(rest[j]) {
        assert rest[j] in features[1..];
      }
    }
  }

  /** For a valid policy the target succeeds exactly when the architecture agrees and every
      required feature is observed. Its features are then allowed ∩ observed in strict order,
      hold every required one, and are all supported by the architecture. Otherwise the error says
      what is amiss: the two architectures, or, in strict order, exactly the features missing. */
  lemma CompilerTargetIsOrderedIntersection(policy: CompilerPolicy, system: SystemFacts)
    requires ValidCompilerPolicy(policy)
    ensures var r := BuildCompilerTarget(Some(policy), system);
            && (r.Ok? <==> system.cpu.architecture == policy.architecture
                           && forall f | f in policy.requiredFeatures :: f in system.cpu.features)
            && (r.Err? && system.cpu.architecture != policy.architecture ==>
                  r.error == CompilerArchitectureUnsupported(system.cpu.architecture, policy.architecture))
            && (r.Err? && system.cpu.architecture == policy.architecture ==>
                  && r.error.CompilerFeaturesMissing? && Ordered(r.error.missing)
                  && forall f :: f in r.error.missing
                                 <==> f in policy.requiredFeatures && f !in system.cpu.features)
            && (r.Ok? ==>
                  && Ordered(r.value.features)
                  && (forall f :: f in r.value.features
                                  <==> f in policy.allowedFeatures && f in system.cpu.features)
                  && (forall f | f in policy.requiredFeatures :: f in r.value.features)
                  && (forall f | f in r.value.features :: Supports(system.cpu.architecture, f)))
  {
    MissingMembers(policy.requiredFeatures, system);
    MissingOrdered(policy.requiredFeatures, system);
    FilterOrdered(policy.allowedFeatures, Observed(system));
  }

  /** Only the set of observed features counts: neither their order nor repeats. */
  lemma CompilerTargetDependsOnFeatureSet(
    policy: Option<CompilerPolicy>, system: SystemFacts, features: seq<CpuFeature>)
    requires ToSet(features) == ToSet(system.cpu.features)
    ensures BuildCompilerTarget(policy, system.(cpu := system.cpu.(features := features)))
            == BuildCompilerTarget(policy, system)
  {
    if policy.Some? {
      var system' := system.(cpu := system.cpu.(features := features));
      assert forall f :: f in features <==> f in ToSet(features);
      assert forall f :: f in system.cpu.features <==> f in ToSet(system.cpu.features);
      FilterCongruent(policy.value.allowedFeatures, Observed(system), Observed(system'));
      FilterCongruent(Dedup(StableSort(policy.value.requiredFeatures, FeatureAtMost), SameFeature),
                      Unobserved(system), Unobserved(system'));
    }
  }

  // ----- Plans for validated profiles

  /** What a plan installs, by name. */
  function Installed(plan: ProvisionPlan): seq<string> {
    Map(plan.package, (i: CorinthIntent) => i.intent.name)
  }

  /** The running ABI, as a number, lies between the ends of the profile's range. */
  predicate AbiInRange(profile: HardwareProfile, running: AbiVersion) {
    profile.driverAbi.Some? ==>
      var (minimum, maximum) := (ParseAbi(profile.driverAbi.value.minimum), ParseAbi(profile.driverAbi.value.maximum));
      minimum.Some? && maximum.Some?
      && minimum.value.major * U32_LIMIT + minimum.value.minor <= running.major * U32_LIMIT + running.minor
      && running.major * U32_LIMIT + running.minor <= maximum.value.major * U32_LIMIT + maximum.value.minor
  }

  lemma AbiCheckIsNumeric(profile: HardwareProfile, running: AbiVersion, text: string)
    requires running.minor < U32_LIMIT && ValidProfile(profile)
    ensures AbiCheck(profile, running, text) == None
            <==> !(exists p | p in profile.package :: p.scope != PackageScope.System) || AbiInRange(profile, running)
    ensures var r := AbiCheck(profile, running, text);
            r.Some? ==> r.value.DriverAbiUnsupported? && r.value.running == text
  {
    if profile.driverAbi.Some? {
      var (minimum, maximum) := (ParseAbi(profile.driverAbi.value.minimum), ParseAbi(profile.driverAbi.value.maximum));
      if minimum.Some? && maximum.Some? {
        AbiOrderIsNumeric(minimum.value, running);
        AbiOrderIsNumeric(running, maximum.value);
      }
    }
  }

  /** For a profile that passed validation, planning fails only for an unreadable running ABI, an
      ABI outside the range that a driver or firmware package demands, both as numbers, or a compiler
      mismatch, in that order. */
  lemma PlanFailsExactly(
    verified: VerifiedProfile, system: SystemFacts, device: HardwareDevice, runningDriverAbi: string)
    requires ValidProfile(verified.profile)
    ensures var r := BuildPlan(verified, system, device, runningDriverAbi);
            var running := ParseAbi(runningDriverAbi);
            var compiler := BuildCompilerTarget(verified.profile.compiler, system);
            if running == None then r == Err(InvalidRunningAbi)
            else if (exists p | p in verified.profile.package :: p.scope != PackageScope.System)
                    && !AbiInRange(verified.profile, running.value) then
              r.Err? && r.error.DriverAbiUnsupported? && r.error.running == runningDriverAbi
            else if compiler.Err? then r == Err(compiler.error)
            else r.Ok? && r.value.compiler == compiler.value
    ensures BuildPlan(verified, system, device, runningDriverAbi) != Err(ProfileHasNoDriverAbi)
  {
    if ParseAbi(runningDriverAbi).Some? {
      AbiCheckIsNumeric(verified.profile, ParseAbi(runningDriverAbi).value, runningDriverAbi);
    }
  }

  /** A plan carries its profile's packages in order, and its rollback removes exactly the
      packages it installs, each once. */
  lemma RollbackUndoesInstall(
    verified: VerifiedProfile, system: SystemFacts, device: HardwareDevice, runningDriverAbi: string)
    requires ValidProfile(verified.profile)
    requires BuildPlan(verified, system, device, runningDriverAbi).Ok?
    ensures var plan := BuildPlan(verified, system, device, runningDriverAbi).value;
            && Installed(plan) == Names(verified.profile.package)
            && multiset(plan.rollback.removePackages) == multiset(Installed(plan))
            && Distinct(Installed(plan)) && Distinct(plan.rollback.removePackages)
            && plan.deviceKey == device.key && plan.profileId == verified.profile.id
  {
    var plan := BuildPlan(verified, system, device, runningDriverAbi).value;
    assert Installed(plan) == Names(verified.profile.package);
    DistinctPermuted(Installed(plan), plan.rollback.removePackages);
  }

  /** A plan shows the profile it was made from, the machine and the device. */
  ghost predicate Carries(
    plan: ProvisionPlan, v: VerifiedProfile, cpu: CpuFacts, deviceKey: string, driverAbi: string)
  {
    && plan.schema == 2 && plan.deviceKey == deviceKey && plan.driverAbi == driverAbi
    && plan.profileId == v.profile.id && plan.profileSha256 == v.profileSha256 && plan.signingKeyId == v.keyId
    && |plan.package| == |v.profile.package|
    && (forall i | 0 <= i < |plan.package| :: plan.package[i].intent == v.profile.package[i])
    && plan.health == v.profile.health && plan.rollback == v.profile.rollback && plan.recovery == v.profile.recovery
    && plan.compiler.architecture == cpu.architecture && plan.compiler.vendor == cpu.vendor
    && plan.compiler.family == cpu.family && plan.compiler.model == cpu.model
    && plan.compiler.stepping == cpu.stepping
    && (forall f | f in plan.compiler.features :: f in cpu.features)
    && (v.profile.compiler == None ==> plan.compiler.features == [])
  }

  lemma PlanCarries(verified: VerifiedProfile, system: SystemFacts, device: HardwareDevice, driverAbi: string)
    requires BuildPlan(verified, system, device, driverAbi).Ok?
    ensures Carries(BuildPlan(verified, system, device, driverAbi).value, verified, system.cpu, device.key, driverAbi)
  {
  }

  /** A plan pins what was signed: the same plan is never built from profiles that differ in identity,
      signed bytes, signing key, any package intent, health checks, rollback or recovery, nor for
      another device, driver ABI or processor. */
  lemma PlanPinsEvidence(
    verified: VerifiedProfile, system: SystemFacts, device: HardwareDevice, driverAbi: string,
    verified': VerifiedProfile, system': SystemFacts, device': HardwareDevice, driverAbi': string)
    requires BuildPlan(verified, system, device, driverAbi).Ok?
    requires BuildPlan(verified, system, device, driverAbi) == BuildPlan(verified', system', device', driverAbi')
    ensures verified.profileSha256 == verified'.profileSha256 && verified.keyId == verified'.keyId
    ensures verified.profile.id == verified'.profile.id && verified.profile.package == verified'.profile.package
    ensures verified.profile.health == verified'.profile.health
    ensures verified.profile.rollback == verified'.profile.rollback
    ensures verified.profile.recovery == verified'.profile.recovery
    ensures device.key == device'.key && driverAbi == driverAbi'
    ensures system.cpu.architecture == system'.cpu.architecture && system.cpu.vendor == system'.cpu.vendor
    ensures system.cpu.family == system'.cpu.family && system.cpu.model == system'.cpu.model
    ensures system.cpu.stepping == system'.cpu.stepping
  {
    var plan := BuildPlan(verified, system, device, driverAbi).value;
    var (package, package') := (verified.profile.package, verified'.profile.package);
    assert |plan.package| == |package| == |package'|;
    forall i | 0 <= i < |package| ensures package[i] == package'[i] {
      assert plan.package[i] == Install(package[i]) && plan.package[i] == Install(package'[i]);
    }
  }
}
