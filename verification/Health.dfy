/** Recovery assessment (src/health.rs): what a bounded number of device recoveries means. */
module Health {

  const U32_MAX: int := 0xffff_ffff

  type u32 = x: int | 0 <= x <= 0xffff_ffff
  type u64 = x: int | 0 <= x <= 0xffff_ffff_ffff_ffff

  datatype RecoveryPolicy = RecoveryPolicy(
    maxRecoveries: u32, windowSeconds: u64, cooldownSeconds: u64, quarantineSeconds: u64)

  datatype HealthEvidence = HealthEvidence(
    driverBound: bool,
    eventNodesPresent: bool,
    kernelRecoveries: u32,
    guardianRecoveries: u32,
    windowAgeSeconds: u64,
    lastRecoverySucceeded: bool)

  datatype RecoveryDisposition = Healthy | Recovered | Degraded | Quarantine

  function SaturatingAdd(a: u32, b: u32): u32 {
    if a + b > U32_MAX then U32_MAX else a + b
  }

  function SaturatingDouble(a: u32): u32 {
    if a * 2 > U32_MAX then U32_MAX else a * 2
  }

  predicate FlagsGood(e: HealthEvidence) {
    e.driverBound && e.eventNodesPresent && e.lastRecoverySucceeded
  }

  function AssessRecovery(policy: RecoveryPolicy, evidence: HealthEvidence): RecoveryDisposition {
    var recoveries :=
      if evidence.windowAgeSeconds <= policy.windowSeconds
      then SaturatingAdd(evidence.kernelRecoveries, evidence.guardianRecoveries)
      else 0;
    if !FlagsGood(evidence) then
      if recoveries >= policy.maxRecoveries then Quarantine else Degraded
    else if recoveries == 0 then Healthy
    else if recoveries < policy.maxRecoveries then Recovered
    else if recoveries < SaturatingDouble(policy.maxRecoveries) then Degraded
    else Quarantine
  }

  // ----- The same policy over unbounded counters, and how the two compare

  /** Recoveries that count: both counters, without any bound, while the window lasts. */
  function Recoveries(policy: RecoveryPolicy, e: HealthEvidence): int {
    if e.windowAgeSeconds <= policy.windowSeconds
    then e.kernelRecoveries + e.guardianRecoveries
    else 0
  }

  /** The documented policy, stated over exact arithmetic (docs/RECOVERY.md). */
  function ExactAssessment(policy: RecoveryPolicy, e: HealthEvidence): RecoveryDisposition {
    var n := Recoveries(policy, e);
    if e.driverBound && e.eventNodesPresent && e.lastRecoverySucceeded then
      if n == 0 then Healthy
      else if n < policy.maxRecoveries then Recovered
      else if n < 2 * policy.maxRecoveries then Degraded
      else Quarantine
    else if n < policy.maxRecoveries then Degraded
    else Quarantine
  }

  function Severity(d: RecoveryDisposition): nat {
    match d
    case Healthy => 0
    case Recovered => 1
    case Degraded => 2
    case Quarantine => 3
  }

  /** Evidence e' is no better than e: counters at least as high, no flag turned good,
      the window no further gone. */
  predicate NoBetter(e: HealthEvidence, e': HealthEvidence) {
    && e.kernelRecoveries <= e'.kernelRecoveries
    && e.guardianRecoveries <= e'.guardianRecoveries
    && e'.windowAgeSeconds <= e.windowAgeSeconds
    && (e'.driverBound ==> e.driverBound)
    && (e'.eventNodesPresent ==> e.eventNodesPresent)
    && (e'.lastRecoverySucceeded ==> e.lastRecoverySucceeded)
  }

  /** Worse evidence is never assessed as milder. */
  lemma SeverityIsMonotone(policy: RecoveryPolicy, e: HealthEvidence, e': HealthEvidence)
    requires NoBetter(e, e')
    ensures Severity(AssessRecovery(policy, e)) <= Severity(AssessRecovery(policy, e'))
  {
  }

  /** From min(2 * max, 2^32 - 1) recoveries on, every combination of flags is quarantined
      if and only if the policy's threshold is not zero. */
  lemma QuarantineAtTwiceTheThreshold(policy: RecoveryPolicy)
    ensures (forall e: HealthEvidence |
                e.windowAgeSeconds <= policy.windowSeconds
                && (e.kernelRecoveries + e.guardianRecoveries >= 2 * policy.maxRecoveries
                    || e.kernelRecoveries + e.guardianRecoveries >= U32_MAX) ::
                AssessRecovery(policy, e) == Quarantine)
            <==> policy.maxRecoveries >= 1
  {
    if policy.maxRecoveries == 0 {
      var e := HealthEvidence(true, true, 0, 0, 0, true);
      assert AssessRecovery(policy, e) == Healthy;
    }
  }

  /** Saturating counters never soften an assessment, and they change it exactly when
      healthy flags meet a total that saturates below an unrepresentable 2 * max. */
  lemma SaturationIsNeverMilder(policy: RecoveryPolicy, e: HealthEvidence)
    ensures Severity(AssessRecovery(policy, e)) >= Severity(ExactAssessment(policy, e))
    ensures AssessRecovery(policy, e) == ExactAssessment(policy, e)
            <==> !(e.driverBound && e.eventNodesPresent && e.lastRecoverySucceeded
                   && U32_MAX <= Recoveries(policy, e) < 2 * policy.maxRecoveries)
  {
  }
}
