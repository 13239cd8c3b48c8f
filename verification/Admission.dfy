/** What the validators admit, told by the fields alone: an independent account of a valid profile and
    of a valid manifest (docs/PROFILE_FORMAT.md; src/profile.rs, validate_profile; src/repository.rs,
    validate_manifest). */
module Admission {
  import opened Wrappers
  import opened Text
  import opened Sorting
  import opened Facts
  import opened Profile
  import opened Evidence
  import Health
  import Repository

  // ----- Texts

  /** There is something other than white space. */
  predicate Shows(s: string) {
    exists c | c in s :: !IsTrimmed(c)
  }

  /** Lower-case letters, digits and hyphens, a letter first and no hyphen last. */
  predicate Slug(s: string) {
    && s != "" && 'a' <= s[0] && s[|s| - 1] != '-'
    && forall c | c in s :: 'a' <= c <= 'z' || '0' <= c <= '9' || c == '-'
  }

  predicate Sha256Text(s: string) {
    |s| == 64 && forall i | 0 <= i < 64 :: '0' <= s[i] <= '9' || 'a' <= s[i] <= 'f'
  }

  /** Letters, digits, underscores and hyphens. */
  predicate Identifier(s: string) {
    s != "" && forall c | c in s :: IsAsciiAlphanumeric(c) || c == '_' || c == '-'
  }

  /** A relative path without an empty component, `.` or `..`. */
  ghost predicate CleanPath(s: string) {
    && s != "" && s[0] != '/'
    && forall i: nat :: !StandsAt(s, '/', "", i) && !StandsAt(s, '/', ".", i) && !StandsAt(s, '/', "..", i)
  }

  lemma TextsDecided(s: string)
    ensures Trim(s) != "" <==> Shows(s)
    ensures ValidName(s) <==> Slug(s)
    ensures ValidDigest(s) <==> Sha256Text(s)
    ensures ValidDriverName(s) <==> Identifier(s)
  {
    TrimBlank(s);
    if s != "" {
      assert s[0] in s && s[|s| - 1] in s;
    }
    assert forall i | 0 <= i < |s| :: s[i] in s;
  }

  lemma PathDecided(s: string)
    ensures ValidRelativePath(s) <==> CleanPath(s)
  {
    SplitPieces(s, '/', "");
    SplitPieces(s, '/', ".");
    SplitPieces(s, '/', "..");
  }

  // ----- Profiles

  ghost predicate TextGiven(s: Option<string>) {
    s.Some? ==> Shows(s.value)
  }

  /** A rule names at least one field, no half of a property, and only texts that can occur. */
  ghost predicate AdmittedRule(r: MatchRule) {
    && (exists f :: NamesField(r, f))
    && (r.propertyKey.Some? <==> r.propertyValue.Some?)
    && TextGiven(r.nameContains) && TextGiven(r.modaliasContains) && TextGiven(r.dmiVendorContains)
    && TextGiven(r.dmiProductContains) && TextGiven(r.dmiBoardContains) && TextGiven(r.propertyValue)
    && (r.driver.Some? ==> Identifier(r.driver.value))
    && (r.propertyKey.Some? ==> Identifier(r.propertyKey.value))
  }

  lemma RuleDecided(r: MatchRule)
    ensures ValidRule(r) <==> AdmittedRule(r)
  {
    SomeFieldNamed(r);
    TextDecided(r.nameContains);
    TextDecided(r.modaliasContains);
    TextDecided(r.dmiVendorContains);
    TextDecided(r.dmiProductContains);
    TextDecided(r.dmiBoardContains);
    TextDecided(r.propertyValue);
    if r.driver.Some? {
      TextsDecided(r.driver.value);
    }
    if r.propertyKey.Some? {
      TextsDecided(r.propertyKey.value);
    }
  }

  lemma TextDecided(s: Option<string>)
    ensures ValidText(s) <==> TextGiven(s)
  {
    if s.Some? {
      TextsDecided(s.value);
    }
  }

  lemma SomeFieldNamed(r: MatchRule)
    ensures Specificity(r) > 0 <==> exists f :: NamesField(r, f)
  {
    FieldsCounted(r);
    if Specificity(r) > 0 {
      var f :| f in FieldsOf(r);
      assert NamesField(r, f);
    }
    if f :| NamesField(r, f) {
      assert f in FieldsOf(r);
    }
  }

  ghost predicate AdmittedPackage(p: PackageIntent) {
    && Slug(p.name) && Shows(p.version)
    && Sha256Text(p.metadataSha256) && Sha256Text(p.artifactSha256) && Sha256Text(p.sourceLockSha256)
    && p.repository == (if p.scope == PackageScope.System then ArachNative else ArachHardware)
  }

  lemma PackageDecided(p: PackageIntent)
    ensures ValidPackage(p) <==> AdmittedPackage(p)
  {
    TextsDecided(p.name);
    TextsDecided(p.version);
    TextsDecided(p.metadataSha256);
    TextsDecided(p.artifactSha256);
    TextsDecided(p.sourceLockSha256);
  }

  /** Both ends are readable versions, and as numbers they are in order. */
  ghost predicate AdmittedRange(abi: DriverAbiRange) {
    match (ParseAbi(abi.minimum), ParseAbi(abi.maximum))
    case (Some(low), Some(high)) =>
      low.major * 0x1_0000_0000 + low.minor <= high.major * 0x1_0000_0000 + high.minor
    case _ => false
  }

  ghost predicate AdmittedCompiler(c: CompilerPolicy) {
    && c.architecture != CpuArchitecture.Unknown && c.allowedFeatures != []
    && (forall i, j | 0 <= i < j < |c.allowedFeatures| ::
          FeatureOrder(c.allowedFeatures[i]) < FeatureOrder(c.allowedFeatures[j]))
    && (forall i, j | 0 <= i < j < |c.requiredFeatures| ::
          FeatureOrder(c.requiredFeatures[i]) < FeatureOrder(c.requiredFeatures[j]))
    && (forall f | f in c.allowedFeatures :: Supports(c.architecture, f))
    && (forall f | f in c.requiredFeatures :: f in c.allowedFeatures)
  }

  ghost predicate AdmittedCheck(check: HealthCheck) {
    match check.kind
    case DriverBound => check.value.Some? && Identifier(check.value.value)
    case SysfsExists => check.value.Some? && CleanPath(check.value.value)
    case EventNodePresent => check.value == None
    case ElanRuntimeWatchdog => check.value == None
  }

  lemma CheckDecided(check: HealthCheck)
    ensures ValidHealthCheck(check) <==> AdmittedCheck(check)
  {
    if check.value.Some? {
      TextsDecided(check.value.value);
      PathDecided(check.value.value);
    }
  }

  ghost predicate AdmittedRecovery(r: RecoveryPolicy) {
    && r.maxRecoveries >= 1 && r.quarantineSeconds >= 1
    && 1 <= r.cooldownSeconds < r.windowSeconds
  }

  ghost predicate AdmittedIdentity(p: HardwareProfile) {
    && p.format == 1 && Slug(p.id) && Shows(p.name)
    && p.matchRules != [] && forall r | r in p.matchRules :: AdmittedRule(r)
  }

  ghost predicate AdmittedPackages(p: HardwareProfile) {
    && p.package != [] && (forall package | package in p.package :: AdmittedPackage(package))
    && (forall i, j | 0 <= i < j < |p.package| :: p.package[i].name != p.package[j].name)
    && multiset(p.rollback.removePackages) == multiset(Names(p.package))
  }

  ghost predicate AdmittedDemands(p: HardwareProfile) {
    && (forall package | package in p.package && package.scope != PackageScope.System ::
          p.driverAbi.Some? && p.health != [])
    && (p.driverAbi.Some? ==> AdmittedRange(p.driverAbi.value))
    && (p.compiler.Some? ==> AdmittedCompiler(p.compiler.value))
    && (forall check | check in p.health :: AdmittedCheck(check))
    && (p.recovery.Some? ==> AdmittedRecovery(p.recovery.value))
  }

  ghost predicate AdmittedConflicts(p: HardwareProfile) {
    && (forall id | id in p.conflicts :: Slug(id) && id != p.id)
    && (forall i, j | 0 <= i < j < |p.conflicts| :: p.conflicts[i] != p.conflicts[j])
  }

  lemma IdentityDecided(p: HardwareProfile)
    ensures ValidIdentity(p) <==> AdmittedIdentity(p)
  {
    TextsDecided(p.id);
    TextsDecided(p.name);
    forall r | r in p.matchRules ensures ValidRule(r) <==> AdmittedRule(r) {
      RuleDecided(r);
    }
  }

  lemma PackagesDecided(p: HardwareProfile)
    ensures ValidPackages(p) && ValidRollback(p) <==> AdmittedPackages(p)
  {
    forall package | package in p.package ensures ValidPackage(package) <==> AdmittedPackage(package) {
      PackageDecided(package);
    }
  }

  lemma RangeDecided(abi: DriverAbiRange)
    ensures ValidAbiRange(abi) <==> AdmittedRange(abi)
  {
    ValidRangeIsNumeric(abi);
  }

  lemma DemandsDecided(p: HardwareProfile)
    ensures ValidHardwareDemands(p) && (p.recovery.Some? ==> ValidRecovery(p.recovery.value)) <==> AdmittedDemands(p)
  {
    forall check | check in p.health ensures ValidHealthCheck(check) <==> AdmittedCheck(check) {
      CheckDecided(check);
    }
    if p.driverAbi.Some? {
      RangeDecided(p.driverAbi.value);
    }
    assert HasHardware(p) <==> exists package | package in p.package :: package.scope != PackageScope.System;
  }

  lemma ConflictsDecided(p: HardwareProfile)
    ensures ValidConflicts(p) <==> AdmittedConflicts(p)
  {
    forall id | id in p.conflicts ensures ValidName(id) <==> Slug(id) {
      TextsDecided(id);
    }
  }

  /** Validation admits exactly these profiles. */
  lemma ProfilesDecided(p: HardwareProfile)
    ensures ValidProfile(p)
            <==> AdmittedIdentity(p) && AdmittedPackages(p) && AdmittedDemands(p) && AdmittedConflicts(p)
  {
    IdentityDecided(p);
    PackagesDecided(p);
    DemandsDecided(p);
    ConflictsDecided(p);
  }

  // ----- Manifests

  /** A relative path of a file that stays below the snapshot. */
  ghost predicate SnapshotPath(s: string) {
    s != "" && |s| <= 4096 && s[0] != '/' && s[|s| - 1] != '/' && StaysBelow(s)
  }

  /** An address without credentials, fragment, white space or control characters. */
  predicate HttpsAddress(s: string) {
    && |s| <= 4096 && "https://" <= s
    && forall c | c in s :: c != '@' && c != '#' && c != ' ' && 32 < c as int != 127
  }

  ghost predicate AdmittedObject(o: Repository.RepositoryObject) {
    SnapshotPath(o.path) && HttpsAddress(o.url) && Sha256Text(o.sha256) && 1 <= o.size <= 0x400_0000
  }

  lemma AddressDecided(s: string)
    ensures Repository.ValidHttpsUrl(s) <==> HttpsAddress(s)
  {
    assert HasPrefix(s, "https://") <==> "https://" <= s;
  }

  lemma ObjectDecided(o: Repository.RepositoryObject)
    ensures Repository.ValidObject(o) <==> AdmittedObject(o)
  {
    TextsDecided(o.sha256);
    AddressDecided(o.url);
    ParentStands(o.path);
    assert o.path != "" ==> (HasSuffix(o.path, "/") <==> o.path[|o.path| - 1] == '/');
  }

  /** Validation admits exactly the manifests of one to 4096 objects, each admitted, no path or URL
      twice, and 512 MiB in all. */
  lemma ManifestsDecided(m: Repository.RepositoryManifest)
    ensures Repository.ValidManifest(m)
            <==> && m.format == 1 && m.repository == "arach-hardware" && Shows(m.snapshot)
                 && 1 <= |m.objects| <= 4096 && (forall o | o in m.objects :: AdmittedObject(o))
                 && (forall i, j | 0 <= i < j < |m.objects| ::
                       m.objects[i].path != m.objects[j].path && m.objects[i].url != m.objects[j].url)
                 && Repository.TotalSize(m.objects) <= 0x2000_0000
  {
    TextsDecided(m.snapshot);
    forall o | o in m.objects ensures Repository.ValidObject(o) <==> AdmittedObject(o) {
      ObjectDecided(o);
    }
    SameNames(m.objects, Repository.ObjectPath);
    SameNames(m.objects, Repository.ObjectUrl);
  }

  lemma SameNames<T, U>(s: seq<T>, name: T -> U)
    ensures Distinct(Map(s, name)) <==> forall i, j | 0 <= i < j < |s| :: name(s[i]) != name(s[j])
  {
  }
}
