/** What decides between profiles, told by the fields their rules name, without the rank
    (src/profile.rs, rule_matches, advisory_rank and resolve). */
module Evidence {
  import opened Wrappers
  import opened Sorting
  import Text
  import opened Facts
  import opened Profile
  import opened Resolve
  import opened ResolveProperties
  import opened Specialise

  /** What a rule may name of a device or its machine. A property's key and value are one field. */
  datatype MatchField =
    | BusField | VendorField | ProductField | SubsystemVendorField | SubsystemProductField
    | ClassField | RevisionField | NameField | ModaliasField | DriverField
    | DmiVendorField | DmiProductField | DmiBoardField | PropertyField

  predicate NamesField(rule: MatchRule, f: MatchField) {
    match f
    case BusField => rule.bus.Some?
    case VendorField => rule.vendor.Some?
    case ProductField => rule.product.Some?
    case SubsystemVendorField => rule.subsystemVendor.Some?
    case SubsystemProductField => rule.subsystemProduct.Some?
    case ClassField => rule.deviceClass.Some?
    case RevisionField => rule.revision.Some?
    case NameField => rule.nameContains.Some?
    case ModaliasField => rule.modaliasContains.Some?
    case DriverField => rule.driver.Some?
    case DmiVendorField => rule.dmiVendorContains.Some?
    case DmiProductField => rule.dmiProductContains.Some?
    case DmiBoardField => rule.dmiBoardContains.Some?
    case PropertyField => rule.propertyKey.Some? && rule.propertyValue.Some?
  }

  // ----- When a rule matches, field by field

  /** The same letter, or the same character. */
  predicate SameIgnoringCase(c: char, d: char) {
    c == d
    || ('A' <= c <= 'Z' && d as int == c as int + 32)
    || ('A' <= d <= 'Z' && c as int == d as int + 32)
  }

  predicate SameTextAt(value: string, needle: string, k: nat) {
    k + |needle| <= |value| && forall i | 0 <= i < |needle| :: SameIgnoringCase(value[k + i], needle[i])
  }

  /** The value has the needle somewhere, in letters of either case. */
  ghost predicate ContainsIgnoringCase(value: string, needle: string) {
    exists k: nat :: SameTextAt(value, needle, k)
  }

  /** What the rule names is so on this device and machine. */
  ghost predicate Agrees(rule: MatchRule, f: MatchField, system: SystemFacts, device: HardwareDevice)
    requires NamesField(rule, f)
  {
    match f
    case BusField => device.bus == rule.bus.value
    case VendorField => device.vendor == Some(rule.vendor.value)
    case ProductField => device.product == Some(rule.product.value)
    case SubsystemVendorField => device.subsystemVendor == Some(rule.subsystemVendor.value)
    case SubsystemProductField => device.subsystemProduct == Some(rule.subsystemProduct.value)
    case ClassField => device.deviceClass == Some(rule.deviceClass.value)
    case RevisionField => device.revision == Some(rule.revision.value)
    case NameField => ContainsIgnoringCase(device.name, rule.nameContains.value)
    case ModaliasField => ContainsIgnoringCase(device.modalias, rule.modaliasContains.value)
    case DriverField => device.driver == Some(rule.driver.value)
    case DmiVendorField => ContainsIgnoringCase(system.dmiVendor, rule.dmiVendorContains.value)
    case DmiProductField =>
      ContainsIgnoringCase(system.dmiProduct + " " + system.dmiProductVersion, rule.dmiProductContains.value)
    case DmiBoardField => ContainsIgnoringCase(system.dmiBoard, rule.dmiBoardContains.value)
    case PropertyField =>
      rule.propertyKey.value in device.properties
      && device.properties[rule.propertyKey.value] == rule.propertyValue.value
  }

  ghost predicate AgreesThroughout(rule: MatchRule, system: SystemFacts, device: HardwareDevice) {
    PairedProperty(rule) && forall f | NamesField(rule, f) :: Agrees(rule, f, system, device)
  }

  /** Every field that some rule of the profile names is so. */
  ghost predicate Fits(profile: HardwareProfile, system: SystemFacts, device: HardwareDevice) {
    forall rule | rule in profile.matchRules :: AgreesThroughout(rule, system, device)
  }

  lemma LowerIgnoresCase(c: char, d: char)
    ensures SameIgnoringCase(c, d) <==> LowerAscii([c]) == LowerAscii([d])
  {
    assert LowerAscii([c]) == LowerAscii([d]) <==> LowerAscii([c])[0] == LowerAscii([d])[0];
  }

  lemma OccursIgnoringCase(value: string, needle: string, k: nat)
    ensures OccursAt(LowerAscii(value), LowerAscii(needle), k) <==> SameTextAt(value, needle, k)
  {
    var (hay, low) := (LowerAscii(value), LowerAscii(needle));
    if k + |needle| <= |value| {
      forall i | 0 <= i < |needle|
        ensures hay[k..k + |low|][i] == low[i] <==> SameIgnoringCase(value[k + i], needle[i])
      {
        LowerIgnoresCase(value[k + i], needle[i]);
        assert LowerAscii([value[k + i]])[0] == hay[k + i] && LowerAscii([needle[i]])[0] == low[i];
      }
      assert hay[k..k + |low|] == low <==> forall i | 0 <= i < |needle| :: hay[k..k + |low|][i] == low[i];
    }
  }

  lemma ContainsByLetters(value: string, needle: string)
    ensures ContainsOptional(value, Some(needle)) <==> ContainsIgnoringCase(value, needle)
  {
    var (hay, low) := (LowerAscii(value), LowerAscii(needle));
    forall k: nat ensures OccursAt(hay, low, k) <==> SameTextAt(value, needle, k) {
      OccursIgnoringCase(value, needle, k);
    }
    if k: nat :| SameTextAt(value, needle, k) {
      assert OccursAt(hay, low, k);
    }
  }

  lemma TextByLetters(value: string, required: Option<string>)
    ensures ContainsOptional(value, required) <==> required == None || ContainsIgnoringCase(value, required.value)
  {
    if required.Some? {
      ContainsByLetters(value, required.value);
    }
  }

  /** A rule matches exactly when each field it names is so, and it names no half of a property. */
  lemma MatchesByField(rule: MatchRule, system: SystemFacts, device: HardwareDevice)
    ensures RuleMatches(rule, system, device) <==> AgreesThroughout(rule, system, device)
  {
    TextByLetters(device.name, rule.nameContains);
    TextByLetters(device.modalias, rule.modaliasContains);
    TextByLetters(system.dmiVendor, rule.dmiVendorContains);
    TextByLetters(system.dmiProduct + " " + system.dmiProductVersion, rule.dmiProductContains);
    TextByLetters(system.dmiBoard, rule.dmiBoardContains);
    if AgreesThroughout(rule, system, device) {
      IdentityAgrees(rule, system, device);
      ClassAgrees(rule, system, device);
      TextAgrees(rule, system, device);
      MachineAgrees(rule, system, device);
    }
  }

  lemma IdentityAgrees(rule: MatchRule, system: SystemFacts, device: HardwareDevice)
    requires AgreesThroughout(rule, system, device)
    ensures rule.bus == None || rule.bus.value == device.bus
    ensures OptionEq(rule.vendor, device.vendor) && OptionEq(rule.product, device.product)
    ensures OptionEq(rule.subsystemVendor, device.subsystemVendor)
    ensures OptionEq(rule.subsystemProduct, device.subsystemProduct)
  {
    assert rule.bus.Some? ==> NamesField(rule, BusField);
    assert rule.vendor.Some? ==> NamesField(rule, VendorField);
    assert rule.product.Some? ==> NamesField(rule, ProductField);
    assert rule.subsystemVendor.Some? ==> NamesField(rule, SubsystemVendorField);
    assert rule.subsystemProduct.Some? ==> NamesField(rule, SubsystemProductField);
  }

  lemma ClassAgrees(rule: MatchRule, system: SystemFacts, device: HardwareDevice)
    requires AgreesThroughout(rule, system, device)
    ensures OptionEq(rule.deviceClass, device.deviceClass) && OptionEq(rule.revision, device.revision)
    ensures rule.driver == None || device.driver == rule.driver
    ensures PropertyMatches(rule, device)
  {
    assert rule.deviceClass.Some? ==> NamesField(rule, ClassField);
    assert rule.revision.Some? ==> NamesField(rule, RevisionField);
    assert rule.driver.Some? ==> NamesField(rule, DriverField);
    assert rule.propertyKey.Some? && rule.propertyValue.Some? ==> NamesField(rule, PropertyField);
  }

  lemma TextAgrees(rule: MatchRule, system: SystemFacts, device: HardwareDevice)
    requires AgreesThroughout(rule, system, device)
    ensures rule.nameContains == None || ContainsIgnoringCase(device.name, rule.nameContains.value)
    ensures rule.modaliasContains == None || ContainsIgnoringCase(device.modalias, rule.modaliasContains.value)
  {
    assert rule.nameContains.Some? ==> NamesField(rule, NameField);
    assert rule.modaliasContains.Some? ==> NamesField(rule, ModaliasField);
  }

  lemma MachineAgrees(rule: MatchRule, system: SystemFacts, device: HardwareDevice)
    requires AgreesThroughout(rule, system, device)
    ensures rule.dmiVendorContains == None || ContainsIgnoringCase(system.dmiVendor, rule.dmiVendorContains.value)
    ensures rule.dmiProductContains == None
            || ContainsIgnoringCase(system.dmiProduct + " " + system.dmiProductVersion, rule.dmiProductContains.value)
    ensures rule.dmiBoardContains == None || ContainsIgnoringCase(system.dmiBoard, rule.dmiBoardContains.value)
  {
    assert rule.dmiVendorContains.Some? ==> NamesField(rule, DmiVendorField);
    assert rule.dmiProductContains.Some? ==> NamesField(rule, DmiProductField);
    assert rule.dmiBoardContains.Some? ==> NamesField(rule, DmiBoardField);
  }

  lemma FitsExactly(profile: HardwareProfile, system: SystemFacts, device: HardwareDevice)
    ensures ProfileMatches(profile, system, device) <==> Fits(profile, system, device)
  {
    forall rule | rule in profile.matchRules
      ensures RuleMatches(rule, system, device) <==> AgreesThroughout(rule, system, device)
    {
      MatchesByField(rule, system, device);
    }
  }

  // ----- Three sets of evidence

  function FieldsOf(rule: MatchRule): set<MatchField> {
    set f: MatchField | NamesField(rule, f)
  }

  /** Every field named, with the place of the rule that names it. */
  function Named(rules: seq<MatchRule>): set<(nat, MatchField)> {
    set i: nat, f: MatchField | i < |rules| && NamesField(rules[i], f) :: (i, f)
  }

  /** The places of the rules that name both vendor and product. */
  function ExactIdentities(rules: seq<MatchRule>): set<nat> {
    set i: nat | i < |rules| && rules[i].vendor.Some? && rules[i].product.Some?
  }

  /** The places of the rules that name the driver the device is bound to. */
  function BoundDrivers(rules: seq<MatchRule>, device: HardwareDevice): set<nat> {
    set i: nat | i < |rules| && rules[i].driver.Some? && device.driver == Some(rules[i].driver.value)
  }

  function Place(f: MatchField): nat {
    match f
    case BusField => 0 case VendorField => 1 case ProductField => 2 case SubsystemVendorField => 3
    case SubsystemProductField => 4 case ClassField => 5 case RevisionField => 6 case NameField => 7
    case ModaliasField => 8 case DriverField => 9 case DmiVendorField => 10 case DmiProductField => 11
    case DmiBoardField => 12 case PropertyField => 13
  }

  lemma OnePlaceEach(f: MatchField, g: MatchField)
    requires Place(f) == Place(g)
    ensures f == g
  {
  }

  function FieldsFrom(rule: MatchRule, k: nat): set<MatchField> {
    set f: MatchField | NamesField(rule, f) && Place(f) >= k
  }

  lemma OneField(rule: MatchRule, f: MatchField)
    ensures |FieldsFrom(rule, Place(f))| == |FieldsFrom(rule, Place(f) + 1)| + Count(NamesField(rule, f))
  {
    forall g | g in FieldsFrom(rule, Place(f)) && g != f ensures g in FieldsFrom(rule, Place(f) + 1) {
      if Place(g) == Place(f) {
        OnePlaceEach(f, g);
      }
    }
    var rest := FieldsFrom(rule, Place(f) + 1);
    assert FieldsFrom(rule, Place(f)) == if NamesField(rule, f) then rest + {f} else rest;
  }

  lemma FirstFieldsCounted(rule: MatchRule)
    ensures |FieldsFrom(rule, 0)|
            == |FieldsFrom(rule, 7)| + Count(rule.bus.Some?) + Count(rule.vendor.Some?) + Count(rule.product.Some?)
               + Count(rule.subsystemVendor.Some?) + Count(rule.subsystemProduct.Some?)
               + Count(rule.deviceClass.Some?) + Count(rule.revision.Some?)
  {
    OneField(rule, BusField);
    OneField(rule, VendorField);
    OneField(rule, ProductField);
    OneField(rule, SubsystemVendorField);
    OneField(rule, SubsystemProductField);
    OneField(rule, ClassField);
    OneField(rule, RevisionField);
  }

  lemma LastFieldsCounted(rule: MatchRule)
    ensures |FieldsFrom(rule, 7)|
            == Count(rule.nameContains.Some?) + Count(rule.modaliasContains.Some?) + Count(rule.driver.Some?)
               + Count(rule.dmiVendorContains.Some?) + Count(rule.dmiProductContains.Some?)
               + Count(rule.dmiBoardContains.Some?) + Count(rule.propertyKey.Some? && rule.propertyValue.Some?)
  {
    OneField(rule, NameField);
    OneField(rule, ModaliasField);
    OneField(rule, DriverField);
    OneField(rule, DmiVendorField);
    OneField(rule, DmiProductField);
    OneField(rule, DmiBoardField);
    OneField(rule, PropertyField);
    assert FieldsFrom(rule, 14) == {};
  }

  lemma FieldsCounted(rule: MatchRule)
    ensures |FieldsOf(rule)| == Specificity(rule)
  {
    FirstFieldsCounted(rule);
    LastFieldsCounted(rule);
    assert FieldsOf(rule) == FieldsFrom(rule, 0);
  }

  function At(i: nat, fields: set<MatchField>): set<(nat, MatchField)> {
    set f | f in fields :: (i, f)
  }

  lemma {:induction false} AtCount(i: nat, fields: set<MatchField>)
    ensures |At(i, fields)| == |fields|
  {
    if fields == {} {
      assert At(i, fields) == {};
    } else {
      var f :| f in fields;
      AtCount(i, fields - {f});
      assert At(i, fields) == At(i, fields - {f}) + {(i, f)};
    }
  }

  lemma OneMoreNamed(rules: seq<MatchRule>, last: MatchRule)
    ensures |Named(rules + [last])| == |Named(rules)| + Specificity(last)
  {
    FieldsCounted(last);
    AtCount(|rules|, FieldsOf(last));
    assert Named(rules + [last]) == Named(rules) + At(|rules|, FieldsOf(last));
  }

  lemma OneMoreExact(rules: seq<MatchRule>, last: MatchRule)
    ensures |ExactIdentities(rules + [last])|
            == |ExactIdentities(rules)| + Count(last.vendor.Some? && last.product.Some?)
  {
    assert ExactIdentities(rules + [last])
           == ExactIdentities(rules) + (if last.vendor.Some? && last.product.Some? then {|rules|} else {});
  }

  lemma OneMoreBound(rules: seq<MatchRule>, last: MatchRule, device: HardwareDevice)
    ensures |BoundDrivers(rules + [last], device)|
            == |BoundDrivers(rules, device)| + Count(last.driver.Some? && device.driver == last.driver)
  {
    assert BoundDrivers(rules + [last], device)
           == BoundDrivers(rules, device)
              + (if last.driver.Some? && device.driver == last.driver then {|rules|} else {});
  }

  /** The rank counts four for each field, two for each exact identity and one for each bound driver. */
  lemma {:induction false} RankCountsEvidence(rules: seq<MatchRule>, device: HardwareDevice)
    ensures RulesRank(rules, device)
            == 4 * |Named(rules)| + 2 * |ExactIdentities(rules)| + |BoundDrivers(rules, device)|
  {
    if rules == [] {
      assert Named(rules) == {};
    } else {
      var n := |rules| - 1;
      RankRemoved(rules, n, device);
      assert RemoveAt(rules, n) == rules[..n];
      RankCountsEvidence(rules[..n], device);
      assert rules == rules[..n] + [rules[n]];
      OneMoreNamed(rules[..n], rules[n]);
      OneMoreExact(rules[..n], rules[n]);
      OneMoreBound(rules[..n], rules[n], device);
    }
  }

  // ----- Who is ahead

  function FieldCount(v: VerifiedProfile): nat {
    |Named(v.profile.matchRules)|
  }

  function ExactCount(v: VerifiedProfile): nat {
    |ExactIdentities(v.profile.matchRules)|
  }

  function BoundCount(v: VerifiedProfile, device: HardwareDevice): nat {
    |BoundDrivers(v.profile.matchRules, device)|
  }

  /** More priority; or the same, and more evidence: a field is worth two exact identities, and an
      exact identity two bound drivers. */
  predicate Outweighs(a: VerifiedProfile, b: VerifiedProfile, device: HardwareDevice) {
    a.profile.priority > b.profile.priority
    || (a.profile.priority == b.profile.priority
        && 4 * FieldCount(a) + 2 * ExactCount(a) + BoundCount(a, device)
           > 4 * FieldCount(b) + 2 * ExactCount(b) + BoundCount(b, device))
  }

  lemma BeatsByEvidence(a: VerifiedProfile, b: VerifiedProfile, device: HardwareDevice)
    ensures Beats(a, b, device) <==> Outweighs(a, b, device)
  {
    RankCountsEvidence(a.profile.matchRules, device);
    RankCountsEvidence(b.profile.matchRules, device);
  }

  /** Among profiles of one priority that name equally many fields, more exact identities win when
      the bound drivers are as many, more bound drivers win when the exact identities are as many,
      and one exact identity is ahead of one bound driver, level with two and behind three. */
  lemma EqualFieldsDecided(a: VerifiedProfile, b: VerifiedProfile, device: HardwareDevice)
    requires a.profile.priority == b.profile.priority && FieldCount(a) == FieldCount(b)
    ensures BoundCount(a, device) == BoundCount(b, device) ==>
              (Beats(a, b, device) <==> ExactCount(a) > ExactCount(b))
    ensures ExactCount(a) == ExactCount(b) ==>
              (Beats(a, b, device) <==> BoundCount(a, device) > BoundCount(b, device))
    ensures ExactCount(a) == ExactCount(b) + 1 ==>
              && (Beats(a, b, device) <==> BoundCount(b, device) <= BoundCount(a, device) + 1)
              && (Beats(b, a, device) <==> BoundCount(b, device) >= BoundCount(a, device) + 3)
  {
    BeatsByEvidence(a, b, device);
    BeatsByEvidence(b, a, device);
  }

  /** One more field is ahead of one more exact identity, level with two and behind three; and
      likewise ahead of three more bound drivers, level with four and behind five. */
  lemma OneMoreFieldDecided(a: VerifiedProfile, b: VerifiedProfile, device: HardwareDevice)
    requires a.profile.priority == b.profile.priority && FieldCount(a) == FieldCount(b) + 1
    ensures BoundCount(a, device) == BoundCount(b, device) ==>
              && (Beats(a, b, device) <==> ExactCount(b) <= ExactCount(a) + 1)
              && (Beats(b, a, device) <==> ExactCount(b) >= ExactCount(a) + 3)
    ensures ExactCount(a) == ExactCount(b) ==>
              && (Beats(a, b, device) <==> BoundCount(b, device) <= BoundCount(a, device) + 3)
              && (Beats(b, a, device) <==> BoundCount(b, device) >= BoundCount(a, device) + 5)
  {
    BeatsByEvidence(a, b, device);
    BeatsByEvidence(b, a, device);
  }

  // ----- What is selected

  /** The profile at place i fits the device and outweighs every other one that fits. */
  ghost predicate Foremost(
    system: SystemFacts, device: HardwareDevice, profiles: seq<VerifiedProfile>, i: nat)
  {
    && i < |profiles| && Fits(profiles[i].profile, system, device)
    && forall j | 0 <= j < |profiles| && j != i && Fits(profiles[j].profile, system, device) ::
         Outweighs(profiles[i], profiles[j], device)
  }

  predicate LeadsIn(pool: seq<VerifiedProfile>, system: SystemFacts, device: HardwareDevice, v: VerifiedProfile) {
    ProfileMatches(v.profile, system, device) && Unbeaten(pool, device)(v)
  }

  function Leading(pool: seq<VerifiedProfile>, system: SystemFacts, device: HardwareDevice): VerifiedProfile -> bool {
    (v: VerifiedProfile) => LeadsIn(pool, system, device, v)
  }

  lemma TopsAreLeading(system: SystemFacts, device: HardwareDevice, profiles: seq<VerifiedProfile>)
    ensures var pool := Matching(system, device, profiles);
            Tops(pool, device) == Filter(profiles, Leading(pool, system, device))
  {
    var pool := Matching(system, device, profiles);
    FilterTwice(profiles, Eligible(system, device), Unbeaten(pool, device), Leading(pool, system, device));
  }

  lemma ForemostIsTop(system: SystemFacts, device: HardwareDevice, profiles: seq<VerifiedProfile>, i: nat)
    requires Foremost(system, device, profiles, i)
    ensures Tops(Matching(system, device, profiles), device) == [profiles[i]]
  {
    var pool := Matching(system, device, profiles);
    var w := profiles[i];
    FitsExactly(w.profile, system, device);
    assert w in profiles && Eligible(system, device)(w) && w in pool;
    forall j | 0 <= j < |profiles| && j != i ensures !Leading(pool, system, device)(profiles[j]) {
      FitsExactly(profiles[j].profile, system, device);
      BeatsByEvidence(w, profiles[j], device);
    }
    forall other | other in pool ensures !Beats(other, w, device) {
      var j :| 0 <= j < |profiles| && profiles[j] == other;
      FitsExactly(other.profile, system, device);
      BeatsByEvidence(other, w, device);
      assert j == i || Outweighs(w, profiles[j], device);
    }
    FilterAtMost(profiles, Leading(pool, system, device), i);
    TopsAreLeading(system, device, profiles);
  }

  lemma TopIsForemost(system: SystemFacts, device: HardwareDevice, profiles: seq<VerifiedProfile>) returns (i: nat)
    requires |Tops(Matching(system, device, profiles), device)| == 1
    ensures Foremost(system, device, profiles, i)
    ensures profiles[i] == Tops(Matching(system, device, profiles), device)[0]
  {
    var pool := Matching(system, device, profiles);
    var leading := Leading(pool, system, device);
    TopsAreLeading(system, device, profiles);
    var w := Tops(pool, device)[0];
    assert w in Filter(profiles, leading);
    i :| i < |profiles| && profiles[i] == w;
    FitsExactly(w.profile, system, device);
    forall j | 0 <= j < |profiles| && j != i && Fits(profiles[j].profile, system, device)
      ensures Outweighs(w, profiles[j], device)
    {
      FitsExactly(profiles[j].profile, system, device);
      BeatsByEvidence(w, profiles[j], device);
      if !Beats(w, profiles[j], device) {
        assert leading(profiles[j]) by {
          assert !Beats(profiles[j], w, device) && forall other | other in pool :: !Beats(other, w, device);
        }
        FilterKeepsBoth(profiles, leading, if i < j then i else j, if i < j then j else i);
      }
    }
  }

  /** A profile is selected exactly when it stands at a place that fits the device and outweighs
      every other place that fits, and no profile that fits lists it, or is listed by it, under
      another id as a conflict. */
  lemma EvidenceSelects(
    system: SystemFacts, device: HardwareDevice, profiles: seq<VerifiedProfile>, w: VerifiedProfile)
    ensures Resolution(system, device, profiles) == Ok(Some(w))
            <==> && (exists i: nat :: Foremost(system, device, profiles, i) && profiles[i] == w)
                 && (forall other | other in profiles && Fits(other.profile, system, device) ::
                       other.profile.id == w.profile.id
                       || (other.profile.id !in w.profile.conflicts && w.profile.id !in other.profile.conflicts))
  {
    var pool := Matching(system, device, profiles);
    SelectedExactly(system, device, profiles, w);
    ConflictsAmongFitting(system, device, profiles, w);
    if i: nat :| Foremost(system, device, profiles, i) && profiles[i] == w {
      ForemostIsTop(system, device, profiles, i);
      var k := OnlyTopIsAhead(pool, device);
    }
    if k :| 0 <= k < |pool| && pool[k] == w && StrictlyAhead(pool, k, device) {
      AheadIsOnlyTop(pool, k, device);
      var i := TopIsForemost(system, device, profiles);
    }
  }

  lemma ConflictsAmongFitting(
    system: SystemFacts, device: HardwareDevice, profiles: seq<VerifiedProfile>, w: VerifiedProfile)
    ensures (forall other | other in Matching(system, device, profiles) :: !ConflictsWith(w, other))
            <==> (forall other | other in profiles && Fits(other.profile, system, device) ::
                    other.profile.id == w.profile.id
                    || (other.profile.id !in w.profile.conflicts && w.profile.id !in other.profile.conflicts))
  {
    FittingAreMatching(system, device, profiles);
  }

  /** The profile fits the device, and no other one that fits outweighs it. */
  ghost predicate InLead(
    system: SystemFacts, device: HardwareDevice, profiles: seq<VerifiedProfile>, v: VerifiedProfile)
  {
    && v in profiles && Fits(v.profile, system, device)
    && forall other | other in profiles && Fits(other.profile, system, device) :: !Outweighs(other, v, device)
  }

  lemma FittingAreMatching(system: SystemFacts, device: HardwareDevice, profiles: seq<VerifiedProfile>)
    ensures forall v :: v in Matching(system, device, profiles) <==> v in profiles && Fits(v.profile, system, device)
  {
    forall v ensures v in Matching(system, device, profiles) <==> v in profiles && Fits(v.profile, system, device) {
      FitsExactly(v.profile, system, device);
      assert Eligible(system, device)(v) <==> ProfileMatches(v.profile, system, device);
    }
  }

  lemma TopsInLead(system: SystemFacts, device: HardwareDevice, profiles: seq<VerifiedProfile>)
    ensures forall v :: v in Tops(Matching(system, device, profiles), device) <==> InLead(system, device, profiles, v)
  {
    var pool := Matching(system, device, profiles);
    FittingAreMatching(system, device, profiles);
    forall v ensures v in Tops(pool, device) <==> InLead(system, device, profiles, v) {
      forall other | other in pool ensures Beats(other, v, device) <==> Outweighs(other, v, device) {
        BeatsByEvidence(other, v, device);
      }
      assert Unbeaten(pool, device)(v) <==> forall other | other in pool :: !Beats(other, v, device);
    }
  }

  /** Resolving is ambiguous exactly when some profile fits and none is foremost; the ids it then
      lists are those of the profiles in the lead, ascending. */
  lemma LevelIsAmbiguous(system: SystemFacts, device: HardwareDevice, profiles: seq<VerifiedProfile>)
    ensures var r := Resolution(system, device, profiles);
            r.Err? && r.error.Ambiguous?
            <==> && (exists v | v in profiles :: Fits(v.profile, system, device))
                 && !exists i: nat :: Foremost(system, device, profiles, i)
    ensures match Resolution(system, device, profiles)
            case Err(Ambiguous(ids)) =>
              && SortedBy(ids, Text.AtMost)
              && forall id :: id in ids <==> exists v :: InLead(system, device, profiles, v) && v.profile.id == id
            case _ => true
  {
    var pool := Matching(system, device, profiles);
    RefusedExactly(system, device, profiles);
    FittingAreMatching(system, device, profiles);
    FilterNone(profiles, Eligible(system, device));
    if i: nat :| Foremost(system, device, profiles, i) {
      ForemostIsTop(system, device, profiles, i);
      var k := OnlyTopIsAhead(pool, device);
    }
    if k: nat :| StrictlyAhead(pool, k, device) {
      AheadIsOnlyTop(pool, k, device);
      var i := TopIsForemost(system, device, profiles);
    }
    LeadIdsListed(system, device, profiles);
  }

  lemma SortedIdsAre(tops: seq<VerifiedProfile>)
    ensures SortedBy(SortedIds(tops), Text.AtMost)
    ensures forall id :: id in SortedIds(tops) <==> exists v | v in tops :: Id(v) == id
  {
    IdOrder();
    StableSortSorted(Map(tops, Id), Text.AtMost);
    SameElements(SortedIds(tops), Map(tops, Id));
    forall id ensures id in Map(tops, Id) <==> exists v | v in tops :: Id(v) == id {
      if v :| v in tops && Id(v) == id {
        var i :| 0 <= i < |tops| && tops[i] == v;
        assert Map(tops, Id)[i] == id;
      }
    }
  }

  lemma LeadIdsListed(system: SystemFacts, device: HardwareDevice, profiles: seq<VerifiedProfile>)
    ensures var ids := SortedIds(Tops(Matching(system, device, profiles), device));
            && SortedBy(ids, Text.AtMost)
            && forall id :: id in ids <==> exists v :: InLead(system, device, profiles, v) && v.profile.id == id
  {
    var tops := Tops(Matching(system, device, profiles), device);
    SortedIdsAre(tops);
    TopsInLead(system, device, profiles);
    forall id ensures id in SortedIds(tops) <==> exists v :: InLead(system, device, profiles, v) && v.profile.id == id {
      if v :| InLead(system, device, profiles, v) && v.profile.id == id {
        assert v in tops && Id(v) == id;
      }
    }
  }

  /** A conflict names the foremost profile and a fitting one with another id that lists it, or that
      it lists. */
  lemma ConflictNames(
    system: SystemFacts, device: HardwareDevice, profiles: seq<VerifiedProfile>, winner: string, other: string)
    requires Resolution(system, device, profiles) == Err(Conflict(winner, other))
    ensures winner != other
    ensures exists i: nat, v ::
              && Foremost(system, device, profiles, i) && profiles[i].profile.id == winner
              && v in profiles && Fits(v.profile, system, device) && v.profile.id == other
              && (other in profiles[i].profile.conflicts || winner in v.profile.conflicts)
  {
    var pool := Matching(system, device, profiles);
    var tops := Tops(pool, device);
    FittingAreMatching(system, device, profiles);
    var i := TopIsForemost(system, device, profiles);
    var rivals := Filter(pool, Rivals(tops[0]));
    assert rivals[0] in rivals && Rivals(tops[0])(rivals[0]);
    assert Foremost(system, device, profiles, i) && rivals[0] in profiles && Fits(rivals[0].profile, system, device);
  }
}
