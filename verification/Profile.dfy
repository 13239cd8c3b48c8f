/** Signed hardware profiles: their shape, what they match and what validation admits
    (src/profile.rs). */
module Profile {
  import opened Wrappers
  import opened Text
  import opened Sorting
  import opened Facts
  import Health

  const PROFILE_FORMAT := 1
  const U32_LIMIT := 0x1_0000_0000

  datatype MatchRule = MatchRule(
    bus: Option<Bus>,
    vendor: Option<nat>,
    product: Option<nat>,
    subsystemVendor: Option<nat>,
    subsystemProduct: Option<nat>,
    deviceClass: Option<nat>,
    revision: Option<nat>,
    nameContains: Option<string>,
    modaliasContains: Option<string>,
    driver: Option<string>,
    dmiVendorContains: Option<string>,
    dmiProductContains: Option<string>,
    dmiBoardContains: Option<string>,
    propertyKey: Option<string>,
    propertyValue: Option<string>)

  datatype PackageScope = System | Driver | Firmware

  datatype RepositoryAuthority = ArachNative | ArachHardware

  datatype PackageIntent = PackageIntent(
    name: string,
    version: string,
    scope: PackageScope,
    repository: RepositoryAuthority,
    metadataSha256: string,
    artifactSha256: string,
    sourceLockSha256: string)

  datatype DriverAbiRange = DriverAbiRange(minimum: string, maximum: string)

  datatype CompilerPolicy = CompilerPolicy(
    architecture: CpuArchitecture,
    allowedFeatures: seq<CpuFeature>,
    requiredFeatures: seq<CpuFeature>)

  datatype HealthCheckKind = DriverBound | SysfsExists | EventNodePresent | ElanRuntimeWatchdog

  datatype HealthCheck = HealthCheck(kind: HealthCheckKind, value: Option<string>, required: bool)

  datatype RollbackPolicy = RollbackPolicy(
    removePackages: seq<string>, restorePreviousDriver: bool, rebootIfRequired: bool)

  type RecoveryPolicy = Health.RecoveryPolicy

  datatype HardwareProfile = HardwareProfile(
    format: nat,
    id: string,
    name: string,
    priority: int,
    matchRules: seq<MatchRule>,
    package: seq<PackageIntent>,
    driverAbi: Option<DriverAbiRange>,
    compiler: Option<CompilerPolicy>,
    health: seq<HealthCheck>,
    rollback: RollbackPolicy,
    recovery: Option<RecoveryPolicy>,
    conflicts: seq<string>)

  datatype VerifiedProfile = VerifiedProfile(profile: HardwareProfile, keyId: string, profileSha256: string)

  datatype ProfileError =
    | UnsupportedFormat
    | InvalidId
    | EmptyName
    | NoMatchRules
    | EmptyMatchRule(index: nat)
    | PartialPropertyRule(index: nat)
    | InvalidMatchValue(index: nat)
    | NoPackages
    | DuplicatePackage(name: string)
    | InvalidPackage(name: string)
    | InvalidDigest(name: string)
    | InvalidAuthority(name: string)
    | DriverAbiRequired
    | InvalidDriverAbi
    | InvalidCompilerPolicy
    | HealthChecksRequired
    | InvalidHealthCheck(index: nat)
    | InvalidRollback
    | InvalidRecovery
    | InvalidConflict(name: string)
    | DuplicateConflict(name: string)
    | SelfConflict

  // ----- Matching and ranking

  predicate OptionEq(required: Option<nat>, actual: Option<nat>) {
    required == None || actual == required
  }

  function LowerAscii(s: string): string {
    seq(|s|, i requires 0 <= i < |s| => if 'A' <= s[i] <= 'Z' then (s[i] as int + 32) as char else s[i])
  }

  predicate ContainsOptional(value: string, required: Option<string>) {
    required == None ||
    var (hay, needle) := (LowerAscii(value), LowerAscii(required.value));
    exists i | 0 <= i <= |hay| - |needle| :: OccursAt(hay, needle, i)
  }

  predicate OccursAt(hay: string, needle: string, i: nat) {
    i + |needle| <= |hay| && hay[i..i + |needle|] == needle
  }

  predicate PropertyMatches(rule: MatchRule, device: HardwareDevice) {
    match (rule.propertyKey, rule.propertyValue)
    case (Some(key), Some(value)) => key in device.properties && device.properties[key] == value
    case (None, None) => true
    case _ => false
  }

  predicate RuleMatches(rule: MatchRule, system: SystemFacts, device: HardwareDevice) {
    && (rule.bus == None || rule.bus.value == device.bus)
    && OptionEq(rule.vendor, device.vendor)
    && OptionEq(rule.product, device.product)
    && OptionEq(rule.subsystemVendor, device.subsystemVendor)
    && OptionEq(rule.subsystemProduct, device.subsystemProduct)
    && OptionEq(rule.deviceClass, device.deviceClass)
    && OptionEq(rule.revision, device.revision)
    && ContainsOptional(device.name, rule.nameContains)
    && ContainsOptional(device.modalias, rule.modaliasContains)
    && (rule.driver == None || device.driver == rule.driver)
    && ContainsOptional(system.dmiVendor, rule.dmiVendorContains)
    && ContainsOptional(system.dmiProduct + " " + system.dmiProductVersion, rule.dmiProductContains)
    && ContainsOptional(system.dmiBoard, rule.dmiBoardContains)
    && PropertyMatches(rule, device)
  }

  function Count(b: bool): nat {
    if b then 1 else 0
  }

  function Specificity(rule: MatchRule): nat {
    Count(rule.bus.Some?) + Count(rule.vendor.Some?) + Count(rule.product.Some?)
    + Count(rule.subsystemVendor.Some?) + Count(rule.subsystemProduct.Some?)
    + Count(rule.deviceClass.Some?) + Count(rule.revision.Some?)
    + Count(rule.nameContains.Some?) + Count(rule.modaliasContains.Some?) + Count(rule.driver.Some?)
    + Count(rule.dmiVendorContains.Some?) + Count(rule.dmiProductContains.Some?)
    + Count(rule.dmiBoardContains.Some?)
    + Count(rule.propertyKey.Some? && rule.propertyValue.Some?)
  }

  predicate ProfileMatches(profile: HardwareProfile, system: SystemFacts, device: HardwareDevice) {
    forall rule | rule in profile.matchRules :: RuleMatches(rule, system, device)
  }

  /** What one rule adds to the rank: 4 * specificity + 2 * exact identity + driver match. */
  function RuleRank(rule: MatchRule, device: HardwareDevice): nat {
    4 * Specificity(rule)
    + 2 * Count(rule.vendor.Some? && rule.product.Some?)
    + Count(rule.driver.Some? && device.driver == rule.driver)
  }

  function RulesRank(rules: seq<MatchRule>, device: HardwareDevice): nat {
    if rules == [] then 0 else RuleRank(rules[0], device) + RulesRank(rules[1..], device)
  }

  /** `advisory_rank`. Every summand is a small whole number, so the program's floating-point
      total order is the integer order. */
  function AdvisoryRank(profile: HardwareProfile, device: HardwareDevice): nat {
    RulesRank(profile.matchRules, device)
  }

  // ----- Driver ABI versions

  datatype AbiVersion = AbiVersion(major: nat, minor: nat)

  predicate AbiAtMost(a: AbiVersion, b: AbiVersion) {
    a.major < b.major || (a.major == b.major && a.minor <= b.minor)
  }

  predicate AllDigits(s: string) {
    forall c | c in s :: '0' <= c <= '9'
  }

  function Decimal(s: string): nat
    requires AllDigits(s)
  {
    if s == "" then 0
    else
      var n := |s| - 1;
      assert s[n] in s && forall c | c in s[..n] :: c in s;
      Decimal(s[..n]) * 10 + (s[n] as int - '0' as int)
  }

  /** `MAJOR.MINOR`, split at the first dot, each part decimal digits that fit 32 bits. */
  function ParseAbi(value: string): (r: Option<AbiVersion>)
    ensures r.Some? ==> r.value.major < U32_LIMIT && r.value.minor < U32_LIMIT
  {
    var major := Before(value, '.');
    if |major| == |value| then None
    else
      var minor := value[|major| + 1..];
      if major == "" || minor == "" || !AllDigits(major) || !AllDigits(minor) then None
      else if Decimal(major) >= U32_LIMIT || Decimal(minor) >= U32_LIMIT then None
      else Some(AbiVersion(Decimal(major), Decimal(minor)))
  }

  /** A version as one number: the order of versions is the order of these numbers. */
  function AbiNumber(v: AbiVersion): nat {
    v.major * U32_LIMIT + v.minor
  }

  /** The order of versions that can be read is that of 2^32 * major + minor. */
  lemma AbiOrderIsNumeric(a: AbiVersion, b: AbiVersion)
    requires a.minor < U32_LIMIT && b.minor < U32_LIMIT
    ensures AbiAtMost(a, b) <==> AbiNumber(a) <= AbiNumber(b)
    ensures AbiNumber(a) == AbiNumber(b) ==> a == b
  {
  }

  /** The decimal numeral of a number, without leading zeros. */
  function Numeral(n: nat): (r: string)
    ensures r != "" && AllDigits(r)
  {
    var digit := [(n % 10 + '0' as int) as char];
    if n < 10 then digit else Numeral(n / 10) + digit
  }

  lemma {:induction false} NumeralReads(n: nat)
    ensures Decimal(Numeral(n)) == n
  {
    var text := Numeral(n);
    if n >= 10 {
      NumeralReads(n / 10);
      assert text[..|text| - 1] == Numeral(n / 10);
    } else {
      assert text[..0] == "";
    }
  }

  /** Leading zeros do not count. */
  lemma {:induction false} ZeroInFront(s: string)
    requires AllDigits(s)
    ensures AllDigits("0" + s) && Decimal("0" + s) == Decimal(s)
  {
    var padded := "0" + s;
    assert forall c | c in padded :: c == '0' || c in s;
    if s == "" {
      assert padded[..0] == "";
    } else {
      var most := s[..|s| - 1];
      assert AllDigits(most) by {
        assert forall c | c in most :: c in s;
      }
      ZeroInFront(most);
      assert padded[..|padded| - 1] == "0" + most;
    }
  }

  /** A version is read from exactly two runs of digits around a dot, each a number below 2^32. */
  lemma AbiReading(major: string, minor: string)
    requires '.' !in major
    ensures var r := ParseAbi(major + ("." + minor));
            if major != "" && minor != "" && AllDigits(major) && AllDigits(minor)
               && Decimal(major) < U32_LIMIT && Decimal(minor) < U32_LIMIT
            then r == Some(AbiVersion(Decimal(major), Decimal(minor)))
            else r == None
  {
    BeforeAppend(major, "." + minor, '.');
    assert (major + ("." + minor))[|major| + 1..] == minor;
  }

  lemma AbiNeedsDot(value: string)
    requires '.' !in value
    ensures ParseAbi(value) == None
  {
    BeforeAppend(value, "", '.');
    assert value + "" == value;
  }

  /** Two numbers spelled with a dot between them are read back. */
  lemma AbiRoundTrip(major: nat, minor: nat)
    requires major < U32_LIMIT && minor < U32_LIMIT
    ensures ParseAbi(Numeral(major) + ("." + Numeral(minor))) == Some(AbiVersion(major, minor))
  {
    NumeralReads(major);
    NumeralReads(minor);
    assert '.' !in Numeral(major);
    AbiReading(Numeral(major), Numeral(minor));
  }

  // ----- Field validators

  predicate ValidName(value: string) {
    value != ""
    && 'a' <= value[0] <= 'z'
    && IsAsciiAlphanumeric(value[|value| - 1])
    && forall c | c in value :: 'a' <= c <= 'z' || '0' <= c <= '9' || c == '-'
  }

  predicate ValidDigest(value: string) {
    |value| == 64 && forall c | c in value :: '0' <= c <= '9' || 'a' <= c <= 'f'
  }

  predicate NonemptyMatchText(value: string) {
    Trim(value) != ""
  }

  /** `valid_driver_name` and `valid_property_key`, which accept the same texts. */
  predicate ValidDriverName(value: string) {
    value != "" && forall c | c in value :: IsAsciiAlphanumeric(c) || c == '_' || c == '-'
  }

  predicate ValidRelativePath(value: string) {
    value != "" && value[0] != '/'
    && forall component | component in Split(value, '/') :: component !in ["", ".", ".."]
  }

  predicate ValidText(value: Option<string>) {
    value == None || NonemptyMatchText(value.value)
  }

  predicate ValidValues(rule: MatchRule) {
    && ValidText(rule.nameContains) && ValidText(rule.modaliasContains)
    && ValidText(rule.dmiVendorContains) && ValidText(rule.dmiProductContains)
    && ValidText(rule.dmiBoardContains)
    && (rule.driver == None || ValidDriverName(rule.driver.value))
    && match (rule.propertyKey, rule.propertyValue)
       case (Some(key), Some(value)) => ValidDriverName(key) && NonemptyMatchText(value)
       case (None, None) => true
       case _ => false
  }

  predicate ValidHealthCheck(check: HealthCheck) {
    match check.kind
    case DriverBound => check.value.Some? && ValidDriverName(check.value.value)
    case SysfsExists => check.value.Some? && ValidRelativePath(check.value.value)
    case EventNodePresent => check.value == None
    case ElanRuntimeWatchdog => check.value == None
  }

  predicate IsHardware(package: PackageIntent) {
    package.scope == PackageScope.Driver || package.scope == PackageScope.Firmware
  }

  function Authority(scope: PackageScope): RepositoryAuthority {
    match scope
    case System => ArachNative
    case Driver => ArachHardware
    case Firmware => ArachHardware
  }

  predicate ValidDigests(package: PackageIntent) {
    ValidDigest(package.metadataSha256) && ValidDigest(package.artifactSha256)
    && ValidDigest(package.sourceLockSha256)
  }

  predicate ValidAbiRange(abi: DriverAbiRange) {
    var (minimum, maximum) := (ParseAbi(abi.minimum), ParseAbi(abi.maximum));
    minimum.Some? && maximum.Some? && AbiAtMost(minimum.value, maximum.value)
  }

  predicate ValidRecovery(recovery: RecoveryPolicy) {
    recovery.maxRecoveries > 0 && recovery.windowSeconds > 0 && recovery.quarantineSeconds > 0
    && 0 < recovery.cooldownSeconds < recovery.windowSeconds
  }

  /** `windows(2).any(|pair| pair[0] >= pair[1])`. */
  predicate OutOfOrder(features: seq<CpuFeature>) {
    exists i | 0 <= i < |features| - 1 :: FeatureOrder(features[i]) >= FeatureOrder(features[i + 1])
  }

  /** The compiler-policy check as the program performs it. */
  predicate CompilerPolicyAccepted(compiler: CompilerPolicy) {
    var allowed := ToSet(compiler.allowedFeatures);
    var required := ToSet(compiler.requiredFeatures);
    !(compiler.architecture == CpuArchitecture.Unknown
      || allowed == {}
      || |allowed| != |compiler.allowedFeatures|
      || |required| != |compiler.requiredFeatures|
      || OutOfOrder(compiler.allowedFeatures)
      || OutOfOrder(compiler.requiredFeatures)
      || (exists feature | feature in allowed :: !Supports(compiler.architecture, feature))
      || !(required <= allowed))
  }

  // ----- What validation admits

  predicate Ordered(features: seq<CpuFeature>) {
    forall i, j | 0 <= i < j < |features| :: FeatureOrder(features[i]) < FeatureOrder(features[j])
  }

  /** A strictly ordered, non-empty, supported feature list holding a strictly ordered required part. */
  predicate ValidCompilerPolicy(compiler: CompilerPolicy) {
    && compiler.architecture != CpuArchitecture.Unknown
    && compiler.allowedFeatures != []
    && Ordered(compiler.allowedFeatures)
    && Ordered(compiler.requiredFeatures)
    && (forall f | f in compiler.allowedFeatures :: Supports(compiler.architecture, f))
    && (forall f | f in compiler.requiredFeatures :: f in compiler.allowedFeatures)
  }

  predicate Distinct<T(==)>(s: seq<T>) {
    forall i, j | 0 <= i < j < |s| :: s[i] != s[j]
  }

  function Names(packages: seq<PackageIntent>): (r: seq<string>)
    ensures |r| == |packages| && forall i | 0 <= i < |r| :: r[i] == packages[i].name
  {
    seq(|packages|, i requires 0 <= i < |packages| => packages[i].name)
  }

  predicate ValidRule(rule: MatchRule) {
    Specificity(rule) > 0 && (rule.propertyKey.Some? <==> rule.propertyValue.Some?) && ValidValues(rule)
  }

  predicate ValidPackage(package: PackageIntent) {
    ValidName(package.name) && Trim(package.version) != "" && ValidDigests(package)
    && package.repository == Authority(package.scope)
  }

  predicate ValidPackages(profile: HardwareProfile) {
    && profile.package != []
    && (forall package | package in profile.package :: ValidPackage(package))
    && Distinct(Names(profile.package))
  }

  predicate HasHardware(profile: HardwareProfile) {
    exists package | package in profile.package :: IsHardware(package)
  }

  predicate ValidConflicts(profile: HardwareProfile) {
    profile.id !in profile.conflicts && Distinct(profile.conflicts)
    && forall conflict | conflict in profile.conflicts :: ValidName(conflict)
  }

  ghost predicate ValidIdentity(profile: HardwareProfile) {
    && profile.format == PROFILE_FORMAT
    && ValidName(profile.id)
    && Trim(profile.name) != ""
    && profile.matchRules != []
    && (forall rule | rule in profile.matchRules :: ValidRule(rule))
  }

  /** A hardware package needs an ABI range and a health check. */
  ghost predicate ValidHardwareDemands(profile: HardwareProfile) {
    && (HasHardware(profile) ==> profile.driverAbi.Some? && profile.health != [])
    && (profile.driverAbi.Some? ==> ValidAbiRange(profile.driverAbi.value))
    && (profile.compiler.Some? ==> ValidCompilerPolicy(profile.compiler.value))
    && (forall check | check in profile.health :: ValidHealthCheck(check))
  }

  /** The rollback list is a rearrangement of the package names. */
  ghost predicate ValidRollback(profile: HardwareProfile) {
    multiset(profile.rollback.removePackages) == multiset(Names(profile.package))
  }

  /** The profiles format 1 admits (docs/PROFILE_FORMAT.md). */
  ghost predicate ValidProfile(profile: HardwareProfile) {
    && ValidIdentity(profile)
    && ValidPackages(profile)
    && ValidHardwareDemands(profile)
    && ValidRollback(profile)
    && (profile.recovery.Some? ==> ValidRecovery(profile.recovery.value))
    && ValidConflicts(profile)
  }

  ghost predicate PackageDefect(package: PackageIntent, error: ProfileError) {
    match error
    case InvalidPackage(name) => package.name == name && (!ValidName(name) || Trim(package.version) == "")
    case InvalidDigest(name) => package.name == name && !ValidDigests(package)
    case InvalidAuthority(name) => package.name == name && package.repository != Authority(package.scope)
    case _ => false
  }

  /** The defect each error names is really there. */
  ghost predicate Defect(profile: HardwareProfile, error: ProfileError) {
    match error
    case UnsupportedFormat => profile.format != PROFILE_FORMAT
    case InvalidId => !ValidName(profile.id)
    case EmptyName => Trim(profile.name) == ""
    case NoMatchRules => profile.matchRules == []
    case EmptyMatchRule(i) => i < |profile.matchRules| && Specificity(profile.matchRules[i]) == 0
    case PartialPropertyRule(i) =>
      i < |profile.matchRules|
      && profile.matchRules[i].propertyKey.Some? != profile.matchRules[i].propertyValue.Some?
    case InvalidMatchValue(i) => i < |profile.matchRules| && !ValidValues(profile.matchRules[i])
    case NoPackages => profile.package == []
    case DuplicatePackage(name) =>
      exists i, j | 0 <= i < j < |profile.package| :: profile.package[i].name == profile.package[j].name == name
    case InvalidPackage(_) => exists p | p in profile.package :: PackageDefect(p, error)
    case InvalidDigest(_) => exists p | p in profile.package :: PackageDefect(p, error)
    case InvalidAuthority(_) => exists p | p in profile.package :: PackageDefect(p, error)
    case DriverAbiRequired => HasHardware(profile) && profile.driverAbi == None
    case InvalidDriverAbi => profile.driverAbi.Some? && !ValidAbiRange(profile.driverAbi.value)
    case InvalidCompilerPolicy => profile.compiler.Some? && !ValidCompilerPolicy(profile.compiler.value)
    case HealthChecksRequired => HasHardware(profile) && profile.health == []
    case InvalidHealthCheck(i) => i < |profile.health| && !ValidHealthCheck(profile.health[i])
    case InvalidRollback => !ValidRollback(profile)
    case InvalidRecovery => profile.recovery.Some? && !ValidRecovery(profile.recovery.value)
    case InvalidConflict(name) => name in profile.conflicts && !ValidName(name)
    case DuplicateConflict(name) =>
      exists i, j | 0 <= i < j < |profile.conflicts| :: profile.conflicts[i] == profile.conflicts[j] == name
    case SelfConflict => profile.id in profile.conflicts
  }

  // ----- Why the program's set-based checks decide those properties

  lemma {:induction false} OrderedByNeighbours(features: seq<CpuFeature>)
    requires !OutOfOrder(features)
    ensures Ordered(features)
  {
    if |features| > 1 {
      var init := features[..|features| - 1];
      assert !OutOfOrder(init) by {
        forall i | 0 <= i < |init| - 1 ensures FeatureOrder(init[i]) < FeatureOrder(init[i + 1]) {
          assert init[i] == features[i] && init[i + 1] == features[i + 1];
        }
      }
      OrderedByNeighbours(init);
      var last := |init| - 1;
      assert FeatureOrder(features[last]) < FeatureOrder(features[last + 1]);
      forall i | 0 <= i < |init| ensures FeatureOrder(features[i]) < FeatureOrder(features[last + 1]) {
        assert i == last || FeatureOrder(init[i]) < FeatureOrder(init[last]);
      }
    }
  }

  lemma CompilerPolicyDecided(compiler: CompilerPolicy)
    ensures CompilerPolicyAccepted(compiler) <==> ValidCompilerPolicy(compiler)
  {
    var allowed, required := compiler.allowedFeatures, compiler.requiredFeatures;
    if CompilerPolicyAccepted(compiler) {
      OrderedByNeighbours(allowed);
      OrderedByNeighbours(required);
      forall f | f in allowed ensures Supports(compiler.architecture, f) {
        assert f in ToSet(allowed);
      }
      forall f | f in required ensures f in allowed {
        assert f in ToSet(required);
      }
    }
    if ValidCompilerPolicy(compiler) {
      DistinctCount(allowed);
      DistinctCount(required);
      assert allowed[0] in ToSet(allowed);
    }
  }

  /** Pigeonhole: distinct names, all found in a list of the same length, are that list rearranged. */
  lemma {:induction false} CoveredByEqualLength(names: seq<string>, removals: seq<string>)
    requires |names| == |removals| && Distinct(names)
    requires forall name | name in names :: name in removals
    ensures multiset(names) == multiset(removals)
  {
    if names == [] {
    } else {
      var name, rest := names[0], names[1..];
      assert name in names;
      var i :| 0 <= i < |removals| && removals[i] == name;
      var left := RemoveAt(removals, i);
      forall x | x in rest ensures x in left {
        assert x in names && x != name;
        var j :| 0 <= j < |removals| && removals[j] == x;
        assert left[if j < i then j else j - 1] == x;
      }
      assert Distinct(rest);
      CoveredByEqualLength(rest, left);
      assert names == [name] + rest;
    }
  }

  /** The length-and-membership test for the rollback list decides whether it is a
      rearrangement of the package names. */
  lemma RollbackDecided(names: seq<string>, removals: seq<string>)
    requires Distinct(names)
    ensures |removals| == |names| && (forall name | name in names :: name in removals)
            <==> multiset(removals) == multiset(names)
  {
    if |removals| == |names| && forall name | name in names :: name in removals {
      CoveredByEqualLength(names, removals);
    }
    if multiset(removals) == multiset(names) {
      SameElements(removals, names);
    }
  }

  // ----- HardwareProfile::validate

  method ValidateRules(profile: HardwareProfile) returns (error: Option<ProfileError>)
    ensures error == None <==> forall rule | rule in profile.matchRules :: ValidRule(rule)
    ensures error.Some? ==> Defect(profile, error.value)
  {
    for index := 0 to |profile.matchRules|
      invariant forall i | 0 <= i < index :: ValidRule(profile.matchRules[i])
    {
      var rule := profile.matchRules[index];
      assert rule in profile.matchRules;
      if Specificity(rule) == 0 {
        return Some(EmptyMatchRule(index));
      }
      if rule.propertyKey.Some? != rule.propertyValue.Some? {
        return Some(PartialPropertyRule(index));
      }
      if !ValidValues(rule) {
        return Some(InvalidMatchValue(index));
      }
    }
    return None;
  }

  /** The checks on one package that need no other: everything but uniqueness. */
  method ValidatePackage(package: PackageIntent, packages: set<string>)
    returns (error: Option<ProfileError>, duplicate: bool)
    ensures error == None && !duplicate <==> ValidPackage(package) && package.name !in packages
    ensures error.Some? ==> PackageDefect(package, error.value)
    ensures duplicate ==> package.name in packages
  {
    duplicate := false;
    if !ValidName(package.name) || Trim(package.version) == "" {
      return Some(InvalidPackage(package.name)), false;
    }
    if package.name in packages {
      return None, true;
    }
    if !ValidDigests(package) {
      return Some(InvalidDigest(package.name)), false;
    }
    if package.repository != Authority(package.scope) {
      return Some(InvalidAuthority(package.name)), false;
    }
    return None, false;
  }

  method ValidatePackages(profile: HardwareProfile)
    returns (error: Option<ProfileError>, packages: set<string>, hasHardware: bool)
    requires profile.package != []
    ensures error == None <==> ValidPackages(profile)
    ensures error.Some? ==> Defect(profile, error.value)
    ensures error == None ==> packages == ToSet(Names(profile.package)) && hasHardware == HasHardware(profile)
  {
    packages := {};
    hasHardware := false;
    ghost var names := Names(profile.package);
    for index := 0 to |profile.package|
      invariant forall i | 0 <= i < index :: ValidPackage(profile.package[i])
      invariant Distinct(names[..index])
      invariant packages == ToSet(names[..index])
      invariant hasHardware <==> exists i | 0 <= i < index :: IsHardware(profile.package[i])
    {
      var package := profile.package[index];
      assert package in profile.package;
      var duplicate;
      error, duplicate := ValidatePackage(package, packages);
      if duplicate {
        RepeatedName(profile, index);
        return Some(DuplicatePackage(package.name)), packages, hasHardware;
      }
      if error.Some? {
        return error, packages, hasHardware;
      }
      packages := packages + {package.name};
      hasHardware := hasHardware || IsHardware(package);
      assert names[..index + 1] == names[..index] + [package.name];
    }
    assert names[..|profile.package|] == names;
    return None, packages, hasHardware;
  }

  lemma RepeatedName(profile: HardwareProfile, index: nat)
    requires index < |profile.package| && profile.package[index].name in Names(profile.package)[..index]
    ensures Defect(profile, DuplicatePackage(profile.package[index].name)) && !ValidPackages(profile)
  {
    var names := Names(profile.package);
    var i :| 0 <= i < index && names[..index][i] == profile.package[index].name;
    assert names[i] == names[index];
  }

  method ValidateHealth(profile: HardwareProfile) returns (error: Option<ProfileError>)
    ensures error == None <==> forall check | check in profile.health :: ValidHealthCheck(check)
    ensures error.Some? ==> Defect(profile, error.value)
  {
    for index := 0 to |profile.health|
      invariant forall i | 0 <= i < index :: ValidHealthCheck(profile.health[i])
    {
      if !ValidHealthCheck(profile.health[index]) {
        return Some(InvalidHealthCheck(index));
      }
    }
    return None;
  }

  method ValidateConflicts(profile: HardwareProfile) returns (error: Option<ProfileError>)
    ensures error == None <==> ValidConflicts(profile)
    ensures error.Some? ==> Defect(profile, error.value)
  {
    var conflicts: set<string> := {};
    for index := 0 to |profile.conflicts|
      invariant conflicts == ToSet(profile.conflicts[..index])
      invariant Distinct(profile.conflicts[..index])
      invariant forall i | 0 <= i < index :: profile.conflicts[i] != profile.id && ValidName(profile.conflicts[i])
    {
      var conflict := profile.conflicts[index];
      if conflict == profile.id {
        return Some(SelfConflict);
      }
      if !ValidName(conflict) {
        return Some(InvalidConflict(conflict));
      }
      if conflict in conflicts {
        ghost var i :| 0 <= i < index && profile.conflicts[..index][i] == conflict;
        assert profile.conflicts[i] == profile.conflicts[index];
        return Some(DuplicateConflict(conflict));
      }
      conflicts := conflicts + {conflict};
      assert profile.conflicts[..index + 1] == profile.conflicts[..index] + [conflict];
    }
    assert profile.conflicts[..|profile.conflicts|] == profile.conflicts;
    return None;
  }

  method ValidateIdentity(profile: HardwareProfile) returns (error: Option<ProfileError>)
    ensures error == None <==> ValidIdentity(profile)
    ensures error.Some? ==> Defect(profile, error.value)
  {
    if profile.format != PROFILE_FORMAT {
      return Some(UnsupportedFormat);
    }
    if !ValidName(profile.id) {
      return Some(InvalidId);
    }
    if Trim(profile.name) == "" {
      return Some(EmptyName);
    }
    if profile.matchRules == [] {
      return Some(NoMatchRules);
    }
    error := ValidateRules(profile);
  }

  method ValidateHardwareDemands(profile: HardwareProfile, hasHardware: bool) returns (error: Option<ProfileError>)
    requires hasHardware == HasHardware(profile)
    ensures error == None <==> ValidHardwareDemands(profile)
    ensures error.Some? ==> Defect(profile, error.value)
  {
    if hasHardware && profile.driverAbi == None {
      return Some(DriverAbiRequired);
    }
    if profile.driverAbi.Some? && !ValidAbiRange(profile.driverAbi.value) {
      return Some(InvalidDriverAbi);
    }
    if profile.compiler.Some? {
      CompilerPolicyDecided(profile.compiler.value);
      if !CompilerPolicyAccepted(profile.compiler.value) {
        return Some(InvalidCompilerPolicy);
      }
    }
    if hasHardware && profile.health == [] {
      return Some(HealthChecksRequired);
    }
    error := ValidateHealth(profile);
  }

  /** What a driver ABI range of a validated profile says of its two ends. */
  lemma ValidRangeIsNumeric(abi: DriverAbiRange)
    ensures ValidAbiRange(abi) <==>
              ParseAbi(abi.minimum).Some? && ParseAbi(abi.maximum).Some?
              && AbiNumber(ParseAbi(abi.minimum).value) <= AbiNumber(ParseAbi(abi.maximum).value)
  {
    if ParseAbi(abi.minimum).Some? && ParseAbi(abi.maximum).Some? {
      AbiOrderIsNumeric(ParseAbi(abi.minimum).value, ParseAbi(abi.maximum).value);
    }
  }

  /** Validation accepts exactly the valid profiles and names a defect that is there. */
  method Validate(profile: HardwareProfile) returns (r: Result<(), ProfileError>)
    ensures r.Ok? <==> ValidProfile(profile)
    ensures r.Err? ==> Defect(profile, r.error)
  {
    var error := ValidateIdentity(profile);
    if error.Some? {
      return Err(error.value);
    }
    if profile.package == [] {
      return Err(NoPackages);
    }
    var packages, hasHardware;
    error, packages, hasHardware := ValidatePackages(profile);
    if error.Some? {
      return Err(error.value);
    }
    error := ValidateHardwareDemands(profile, hasHardware);
    if error.Some? {
      return Err(error.value);
    }
    var removals := ToSet(profile.rollback.removePackages);
    ghost var names := Names(profile.package);
    DistinctCount(names);
    RollbackDecided(names, profile.rollback.removePackages);
    if |profile.rollback.removePackages| != |packages| || exists name | name in packages :: name !in removals {
      return Err(InvalidRollback);
    }
    assert forall name | name in names :: name in packages && name in removals;
    if profile.recovery.Some? && !ValidRecovery(profile.recovery.value) {
      return Err(InvalidRecovery);
    }
    error := ValidateConflicts(profile);
    if error.Some? {
      return Err(error.value);
    }
    return Ok(());
  }

  /** A validated profile's recovery policy quarantines, whatever the flags, from twice its
      threshold on. */
  lemma ValidRecoveryQuarantines(profile: HardwareProfile, e: Health.HealthEvidence)
    requires ValidProfile(profile) && profile.recovery.Some?
    requires e.windowAgeSeconds <= profile.recovery.value.windowSeconds
    requires e.kernelRecoveries + e.guardianRecoveries >= Health.SaturatingDouble(profile.recovery.value.maxRecoveries)
    ensures Health.AssessRecovery(profile.recovery.value, e) == Health.Quarantine
  {
    Health.QuarantineAtTwiceTheThreshold(profile.recovery.value);
  }
}
