/** More specific profiles outrank the profiles they extend (src/profile.rs, matching and ranking). */
module Specialise {
  import opened Wrappers
  import opened Sorting
  import opened Facts
  import opened Profile
  import opened Resolve
  import opened ResolveProperties

  predicate Kept<T(==)>(a: Option<T>, b: Option<T>) {
    a == None || a == b
  }

  /** Every field r sets, r' sets to the same value. */
  predicate RuleExtends(r: MatchRule, r': MatchRule) {
    && Kept(r.bus, r'.bus) && Kept(r.vendor, r'.vendor) && Kept(r.product, r'.product)
    && Kept(r.subsystemVendor, r'.subsystemVendor) && Kept(r.subsystemProduct, r'.subsystemProduct)
    && Kept(r.deviceClass, r'.deviceClass) && Kept(r.revision, r'.revision)
    && Kept(r.nameContains, r'.nameContains) && Kept(r.modaliasContains, r'.modaliasContains)
    && Kept(r.driver, r'.driver) && Kept(r.dmiVendorContains, r'.dmiVendorContains)
    && Kept(r.dmiProductContains, r'.dmiProductContains) && Kept(r.dmiBoardContains, r'.dmiBoardContains)
    && Kept(r.propertyKey, r'.propertyKey) && Kept(r.propertyValue, r'.propertyValue)
  }

  /** Every rule of rs is extended by a rule of rs' of its own, wherever it stands. */
  predicate RulesExtend(rs: seq<MatchRule>, rs': seq<MatchRule>) {
    rs == []
    || exists k | 0 <= k < |rs'| :: RuleExtends(rs[0], rs'[k]) && RulesExtend(rs[1..], RemoveAt(rs', k))
  }

  predicate PairedProperty(r: MatchRule) {
    r.propertyKey.Some? <==> r.propertyValue.Some?
  }

  lemma ExtendedRuleMatchesLess(r: MatchRule, r': MatchRule, system: SystemFacts, device: HardwareDevice)
    requires RuleExtends(r, r') && PairedProperty(r) && RuleMatches(r', system, device)
    ensures RuleMatches(r, system, device)
  {
  }

  /** A field set in r is set in r', and when r' sets no more of them, it holds the same value. */
  lemma KeptCounts<T>(a: Option<T>, b: Option<T>)
    requires Kept(a, b)
    ensures Count(b.Some?) >= Count(a.Some?)
    ensures Count(b.Some?) == Count(a.Some?) ==> a == b
  {
  }

  function IdentityFields(r: MatchRule): nat {
    Count(r.bus.Some?) + Count(r.vendor.Some?) + Count(r.product.Some?)
    + Count(r.subsystemVendor.Some?) + Count(r.subsystemProduct.Some?)
  }

  function ClassFields(r: MatchRule): nat {
    Count(r.deviceClass.Some?) + Count(r.revision.Some?) + Count(r.propertyKey.Some?)
  }

  function TextFields(r: MatchRule): nat {
    Count(r.nameContains.Some?) + Count(r.modaliasContains.Some?) + Count(r.driver.Some?)
  }

  function MachineFields(r: MatchRule): nat {
    Count(r.dmiVendorContains.Some?) + Count(r.dmiProductContains.Some?) + Count(r.dmiBoardContains.Some?)
  }

  lemma MoreIdentityFields(r: MatchRule, r': MatchRule)
    requires RuleExtends(r, r')
    ensures IdentityFields(r') >= IdentityFields(r)
    ensures IdentityFields(r') == IdentityFields(r) ==>
              && r.bus == r'.bus && r.vendor == r'.vendor && r.product == r'.product
              && r.subsystemVendor == r'.subsystemVendor && r.subsystemProduct == r'.subsystemProduct
  {
    KeptCounts(r.bus, r'.bus);
    KeptCounts(r.vendor, r'.vendor);
    KeptCounts(r.product, r'.product);
    KeptCounts(r.subsystemVendor, r'.subsystemVendor);
    KeptCounts(r.subsystemProduct, r'.subsystemProduct);
  }

  lemma MoreClassFields(r: MatchRule, r': MatchRule)
    requires RuleExtends(r, r')
    ensures ClassFields(r') >= ClassFields(r)
    ensures ClassFields(r') == ClassFields(r) ==>
              r.deviceClass == r'.deviceClass && r.revision == r'.revision && r.propertyKey == r'.propertyKey
  {
    KeptCounts(r.deviceClass, r'.deviceClass);
    KeptCounts(r.revision, r'.revision);
    KeptCounts(r.propertyKey, r'.propertyKey);
  }

  lemma MoreTextFields(r: MatchRule, r': MatchRule)
    requires RuleExtends(r, r')
    ensures TextFields(r') >= TextFields(r)
    ensures TextFields(r') == TextFields(r) ==>
              && r.nameContains == r'.nameContains && r.modaliasContains == r'.modaliasContains
              && r.driver == r'.driver
  {
    KeptCounts(r.nameContains, r'.nameContains);
    KeptCounts(r.modaliasContains, r'.modaliasContains);
    KeptCounts(r.driver, r'.driver);
  }

  lemma MoreMachineFields(r: MatchRule, r': MatchRule)
    requires RuleExtends(r, r')
    ensures MachineFields(r') >= MachineFields(r)
    ensures MachineFields(r') == MachineFields(r) ==>
              && r.dmiVendorContains == r'.dmiVendorContains
              && r.dmiProductContains == r'.dmiProductContains && r.dmiBoardContains == r'.dmiBoardContains
  {
    KeptCounts(r.dmiVendorContains, r'.dmiVendorContains);
    KeptCounts(r.dmiProductContains, r'.dmiProductContains);
    KeptCounts(r.dmiBoardContains, r'.dmiBoardContains);
  }

  lemma SpecificityParts(r: MatchRule)
    requires PairedProperty(r)
    ensures Specificity(r) == IdentityFields(r) + TextFields(r) + MachineFields(r) + ClassFields(r)
  {
  }

  lemma ExtendedRuleIsMoreSpecific(r: MatchRule, r': MatchRule)
    requires RuleExtends(r, r') && PairedProperty(r) && PairedProperty(r')
    ensures Specificity(r') >= Specificity(r)
    ensures Specificity(r') == Specificity(r) ==> r == r'
  {
    MoreIdentityFields(r, r');
    MoreTextFields(r, r');
    MoreMachineFields(r, r');
    MoreClassFields(r, r');
    SpecificityParts(r);
    SpecificityParts(r');
    assert r.propertyKey == r'.propertyKey ==> r.propertyValue == r'.propertyValue;
  }

  lemma ExtendedRuleRanksMore(r: MatchRule, r': MatchRule, device: HardwareDevice)
    requires RuleExtends(r, r') && PairedProperty(r) && PairedProperty(r')
    ensures RuleRank(r', device) >= RuleRank(r, device)
    ensures r != r' ==> RuleRank(r', device) >= RuleRank(r, device) + 4
  {
    ExtendedRuleIsMoreSpecific(r, r');
  }

  lemma {:induction false} ExtendedRulesMatchLess(
    rs: seq<MatchRule>, rs': seq<MatchRule>, system: SystemFacts, device: HardwareDevice)
    requires RulesExtend(rs, rs') && forall r | r in rs :: PairedProperty(r)
    requires forall r | r in rs' :: RuleMatches(r, system, device)
    ensures forall r | r in rs :: RuleMatches(r, system, device)
  {
    if rs != [] {
      var k :| 0 <= k < |rs'| && RuleExtends(rs[0], rs'[k]) && RulesExtend(rs[1..], RemoveAt(rs', k));
      assert rs[0] in rs && rs'[k] in rs';
      assert forall r | r in RemoveAt(rs', k) :: r in rs';
      ExtendedRuleMatchesLess(rs[0], rs'[k], system, device);
      ExtendedRulesMatchLess(rs[1..], RemoveAt(rs', k), system, device);
    }
  }

  /** The rank is a sum: any rule can be counted first. */
  lemma {:induction false} RankRemoved(rs: seq<MatchRule>, k: nat, device: HardwareDevice)
    requires k < |rs|
    ensures RulesRank(rs, device) == RuleRank(rs[k], device) + RulesRank(RemoveAt(rs, k), device)
  {
    if k == 0 {
      assert RemoveAt(rs, 0) == rs[1..];
    } else {
      RankRemoved(rs[1..], k - 1, device);
      assert RemoveAt(rs, k)[1..] == RemoveAt(rs[1..], k - 1);
    }
  }

  lemma {:induction false} ExtendedRulesRankMore(rs: seq<MatchRule>, rs': seq<MatchRule>, device: HardwareDevice)
    requires RulesExtend(rs, rs') && forall r | r in rs :: PairedProperty(r)
    requires forall r | r in rs' :: PairedProperty(r) && Specificity(r) > 0
    ensures RulesRank(rs', device) >= RulesRank(rs, device)
    ensures multiset(rs) != multiset(rs') ==> RulesRank(rs', device) >= RulesRank(rs, device) + 4
  {
    if rs == [] {
      if rs' != [] {
        assert rs'[0] in rs';
      }
    } else {
      var k :| 0 <= k < |rs'| && RuleExtends(rs[0], rs'[k]) && RulesExtend(rs[1..], RemoveAt(rs', k));
      var rest := RemoveAt(rs', k);
      assert rs[0] in rs && rs'[k] in rs' && forall r | r in rest :: r in rs';
      ExtendedRuleRanksMore(rs[0], rs'[k], device);
      ExtendedRulesRankMore(rs[1..], rest, device);
      RankRemoved(rs', k, device);
      if multiset(rs) != multiset(rs') {
        DifferOnce(rs, rs', k);
      }
    }
  }

  lemma DifferOnce(rs: seq<MatchRule>, rs': seq<MatchRule>, k: nat)
    requires rs != [] && k < |rs'| && multiset(rs) != multiset(rs')
    ensures rs[0] != rs'[k] || multiset(rs[1..]) != multiset(RemoveAt(rs', k))
  {
    assert RemoveAt(rs, 0) == rs[1..];
  }

  /** p' says everything p says about the machine, and strictly more: in whatever order, it has more
      rules or a rule that sets more. */
  predicate StrictlyExtends(p: HardwareProfile, p': HardwareProfile) {
    RulesExtend(p.matchRules, p'.matchRules) && multiset(p.matchRules) != multiset(p'.matchRules)
  }

  /** Among valid profiles, an extension matches only where the profile it extends matches, and
      ranks at least four higher there. */
  lemma ExtensionNarrowsAndOutranks(
    p: HardwareProfile, p': HardwareProfile, system: SystemFacts, device: HardwareDevice)
    requires ValidProfile(p) && ValidProfile(p') && StrictlyExtends(p, p')
    ensures ProfileMatches(p', system, device) ==> ProfileMatches(p, system, device)
    ensures AdvisoryRank(p', device) >= AdvisoryRank(p, device) + 4
  {
    assert forall r | r in p.matchRules + p'.matchRules :: ValidRule(r);
    if ProfileMatches(p', system, device) {
      ExtendedRulesMatchLess(p.matchRules, p'.matchRules, system, device);
    }
    ExtendedRulesRankMore(p.matchRules, p'.matchRules, device);
  }

  ghost predicate UniqueIds(profiles: seq<VerifiedProfile>) {
    forall v, w | v in profiles && w in profiles && Id(v) == Id(w) :: v == w
  }

  /** Where an extension of no lower priority matches, the profile it extends is never among the
      leaders. */
  lemma ExtendedProfileIsBeaten(
    p: VerifiedProfile, p': VerifiedProfile,
    system: SystemFacts, device: HardwareDevice, profiles: seq<VerifiedProfile>)
    requires ValidProfile(p.profile) && ValidProfile(p'.profile) && StrictlyExtends(p.profile, p'.profile)
    requires p' in profiles && ProfileMatches(p'.profile, system, device)
    requires p'.profile.priority >= p.profile.priority
    ensures p !in Tops(Matching(system, device, profiles), device)
  {
    ExtensionNarrowsAndOutranks(p.profile, p'.profile, system, device);
    var pool := Matching(system, device, profiles);
    assert p' in pool && Beats(p', p, device);
  }

  /** So it is never returned; and where ids are unique, as loading ensures, it is neither listed
      as tied nor named the winner of a conflict. */
  lemma ExtendedProfileNeverLeads(
    p: VerifiedProfile, p': VerifiedProfile,
    system: SystemFacts, device: HardwareDevice, profiles: seq<VerifiedProfile>)
    requires ValidProfile(p.profile) && ValidProfile(p'.profile) && StrictlyExtends(p.profile, p'.profile)
    requires p' in profiles && ProfileMatches(p'.profile, system, device)
    requires p'.profile.priority >= p.profile.priority
    ensures Resolution(system, device, profiles) != Ok(Some(p))
    ensures p in profiles && UniqueIds(profiles) ==>
              match Resolution(system, device, profiles)
              case Err(Ambiguous(ids)) => Id(p) !in ids
              case Err(Conflict(winner, _)) => winner != Id(p)
              case Ok(_) => true
  {
    ExtendedProfileIsBeaten(p, p', system, device, profiles);
    NotAmongTops(p, system, device, profiles);
  }

  /** What is not among the leaders is not returned, listed as tied, or named the winner. */
  lemma NotAmongTops(p: VerifiedProfile, system: SystemFacts, device: HardwareDevice, profiles: seq<VerifiedProfile>)
    requires p !in Tops(Matching(system, device, profiles), device)
    ensures Resolution(system, device, profiles) != Ok(Some(p))
    ensures p in profiles && UniqueIds(profiles) ==>
              match Resolution(system, device, profiles)
              case Err(Ambiguous(ids)) => Id(p) !in ids
              case Err(Conflict(winner, _)) => winner != Id(p)
              case Ok(_) => true
  {
    var tops := Tops(Matching(system, device, profiles), device);
    if tops != [] {
      assert tops[0] in tops;
    }
    if p in profiles && UniqueIds(profiles) {
      LeaderIds(p, system, device, profiles);
    }
  }

  lemma LeaderIds(p: VerifiedProfile, system: SystemFacts, device: HardwareDevice, profiles: seq<VerifiedProfile>)
    requires p in profiles && UniqueIds(profiles)
    requires p !in Tops(Matching(system, device, profiles), device)
    ensures var tops := Tops(Matching(system, device, profiles), device);
            Id(p) !in SortedIds(tops) && forall v | v in tops :: Id(v) != Id(p)
  {
    var tops := Tops(Matching(system, device, profiles), device);
    forall v | v in tops ensures Id(v) != Id(p) {
      assert v in profiles;
    }
    SameElements(SortedIds(tops), Map(tops, Id));
  }
}
