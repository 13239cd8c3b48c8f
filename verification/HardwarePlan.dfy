/** The repository's formal reference selector (formal/idris2/HardwarePlan.idr): one left fold
    over the eligible profiles. */
module HardwarePlan {
  import opened Wrappers
  import opened Sorting
  import opened Facts
  import opened Profile
  import opened Resolve
  import opened ResolveProperties

  datatype Trust = Unsigned | Signed

  datatype MatchState = Unmatched | Matched

  datatype Candidate = Candidate(
    profileId: string, priority: int, advisoryRank: nat, trust: Trust, matchState: MatchState)

  datatype Selection = NoProfile | Selected(candidate: Candidate) | Tied(priority: int, rank: nat)

  predicate IsEligible(c: Candidate) {
    c.trust == Signed && c.matchState == Matched
  }

  function Consider(selection: Selection, c: Candidate): Selection {
    match selection
    case NoProfile => Selected(c)
    case Selected(current) =>
      if c.priority > current.priority then Selected(c)
      else if c.priority < current.priority then Selected(current)
      else if c.advisoryRank > current.advisoryRank then Selected(c)
      else if c.advisoryRank < current.advisoryRank then Selected(current)
      else Tied(c.priority, c.advisoryRank)
    case Tied(priority, rank) =>
      if c.priority > priority then Selected(c)
      else if c.priority < priority then selection
      else if c.advisoryRank > rank then Selected(c)
      else selection
  }

  /** `foldl consider`. */
  function Fold(selection: Selection, s: seq<Candidate>): Selection
    decreases |s|
  {
    if s == [] then selection else Fold(Consider(selection, s[0]), s[1..])
  }

  function Select(profiles: seq<Candidate>): Selection {
    Fold(NoProfile, Filter(profiles, IsEligible))
  }

  // ----- What the fold has found after a prefix

  predicate Ahead(a: Candidate, b: Candidate) {
    a.priority > b.priority || (a.priority == b.priority && a.advisoryRank > b.advisoryRank)
  }

  predicate Level(a: Candidate, priority: int, rank: nat) {
    a.priority == priority && a.advisoryRank == rank
  }

  ghost predicate Leads(s: seq<Candidate>, i: nat) {
    i < |s| && forall j | 0 <= j < |s| && j != i :: Ahead(s[i], s[j])
  }

  ghost predicate Describes(selection: Selection, s: seq<Candidate>) {
    match selection
    case NoProfile => s == []
    case Selected(c) => exists i | 0 <= i < |s| :: s[i] == c && Leads(s, i)
    case Tied(priority, rank) =>
      && (exists i, j | 0 <= i < j < |s| :: Level(s[i], priority, rank) && Level(s[j], priority, rank))
      && (forall c | c in s :: c.priority < priority || (c.priority == priority && c.advisoryRank <= rank))
  }

  lemma ConsiderDescribes(selection: Selection, s: seq<Candidate>, c: Candidate)
    requires Describes(selection, s)
    ensures Describes(Consider(selection, c), s + [c])
  {
    var t := s + [c];
    var next := Consider(selection, c);
    assert t[|s|] == c && forall j | 0 <= j < |s| :: t[j] == s[j];
    match selection
    case NoProfile =>
      assert Leads(t, 0);
    case Selected(current) =>
      var i :| 0 <= i < |s| && s[i] == current && Leads(s, i);
      if next == Tied(c.priority, c.advisoryRank) {
        assert Level(t[i], c.priority, c.advisoryRank) && Level(t[|s|], c.priority, c.advisoryRank);
      } else if Ahead(c, current) {
        assert Leads(t, |s|);
      } else {
        assert Leads(t, i);
      }
    case Tied(priority, rank) =>
      var i, j :| 0 <= i < j < |s| && Level(s[i], priority, rank) && Level(s[j], priority, rank);
      if next == Selected(c) {
        assert forall k | 0 <= k < |s| :: s[k] in s && t[k] in s;
        assert Leads(t, |s|);
      } else {
        assert Level(t[i], priority, rank) && Level(t[j], priority, rank);
      }
  }

  lemma {:induction false} FoldDescribes(selection: Selection, done: seq<Candidate>, s: seq<Candidate>)
    requires Describes(selection, done)
    ensures Describes(Fold(selection, s), done + s)
    decreases |s|
  {
    if s == [] {
      assert done + s == done;
    } else {
      ConsiderDescribes(selection, done, s[0]);
      FoldDescribes(Consider(selection, s[0]), done + [s[0]], s[1..]);
      assert done + s == done + [s[0]] + s[1..];
    }
  }

  // ----- Resolution refines the fold

  /** A loaded profile is signed; whether it matches is decided for the device. */
  function Evidence(system: SystemFacts, device: HardwareDevice): VerifiedProfile -> Candidate {
    (v: VerifiedProfile) =>
      Candidate(Id(v), v.profile.priority, Rank(v, device), Signed,
                if ProfileMatches(v.profile, system, device) then Matched else Unmatched)
  }

  /** A resolution and a selection that say the same: nothing, this profile (whatever the
      conflict stage then decides), or a tie at this priority and rank. */
  ghost predicate Agree(
    system: SystemFacts, device: HardwareDevice, profiles: seq<VerifiedProfile>, selection: Selection)
  {
    var pool := Matching(system, device, profiles);
    var tops := Tops(pool, device);
    var r := Resolution(system, device, profiles);
    match selection
    case NoProfile => r == Ok(None)
    case Selected(c) =>
      |tops| == 1 && c == Evidence(system, device)(tops[0])
      && (r == Ok(Some(tops[0])) || (r.Err? && r.error.Conflict? && r.error.winner == c.profileId))
    case Tied(priority, rank) =>
      r == Err(Ambiguous(SortedIds(tops)))
      && forall v | v in tops :: v.profile.priority == priority && Rank(v, device) == rank
  }

  /** For every catalog and device, the resolve pipeline and the reference fold agree: on finding
      nothing, on the profile selected, and on a tie with its priority and rank. */
  lemma ResolutionRefinesFold(system: SystemFacts, device: HardwareDevice, profiles: seq<VerifiedProfile>)
    ensures Agree(system, device, profiles, Select(Map(profiles, Evidence(system, device))))
  {
    var pool := Matching(system, device, profiles);
    FoldOverMatching(system, device, profiles);
    match Select(Map(profiles, Evidence(system, device)))
    case NoProfile =>
      assert Map(pool, Evidence(system, device)) == [] && pool == [];
    case Selected(c) =>
      LeaderIsOnlyTop(system, device, pool, c);
    case Tied(priority, rank) =>
      TieIsTops(system, device, pool, priority, rank);
  }

  lemma FoldOverMatching(system: SystemFacts, device: HardwareDevice, profiles: seq<VerifiedProfile>)
    ensures Describes(Select(Map(profiles, Evidence(system, device))),
                      Map(Matching(system, device, profiles), Evidence(system, device)))
  {
    var f := Evidence(system, device);
    FilterMap(profiles, f, Eligible(system, device), IsEligible);
    var s := Map(Matching(system, device, profiles), f);
    FoldDescribes(NoProfile, [], s);
    assert [] + s == s;
  }

  lemma LeaderIsOnlyTop(system: SystemFacts, device: HardwareDevice, pool: seq<VerifiedProfile>, c: Candidate)
    requires Describes(Selected(c), Map(pool, Evidence(system, device)))
    ensures |Tops(pool, device)| == 1 && c == Evidence(system, device)(Tops(pool, device)[0])
  {
    var s := Map(pool, Evidence(system, device));
    var i :| 0 <= i < |s| && s[i] == c && Leads(s, i);
    forall j | 0 <= j < |pool| && j != i ensures Beats(pool[i], pool[j], device) {
      assert Ahead(s[i], s[j]);
    }
    AheadIsOnlyTop(pool, i, device);
  }

  lemma TieIsTops(
    system: SystemFacts, device: HardwareDevice, pool: seq<VerifiedProfile>, priority: int, rank: nat)
    requires Describes(Tied(priority, rank), Map(pool, Evidence(system, device)))
    ensures |Tops(pool, device)| >= 2
    ensures forall v | v in Tops(pool, device) :: v.profile.priority == priority && Rank(v, device) == rank
  {
    var s := Map(pool, Evidence(system, device));
    var i, j :| 0 <= i < j < |s| && Level(s[i], priority, rank) && Level(s[j], priority, rank);
    forall v | v in pool
      ensures v.profile.priority < priority || (v.profile.priority == priority && Rank(v, device) <= rank)
    {
      var k :| 0 <= k < |pool| && pool[k] == v;
      assert s[k] in s;
    }
    LevelIsTop(pool, i, j, priority, rank, device);
  }

  lemma LevelIsTop(
    pool: seq<VerifiedProfile>, i: nat, j: nat, priority: int, rank: nat, device: HardwareDevice)
    requires i < j < |pool|
    requires pool[i].profile.priority == pool[j].profile.priority == priority
    requires Rank(pool[i], device) == Rank(pool[j], device) == rank
    requires forall v | v in pool ::
               v.profile.priority < priority || (v.profile.priority == priority && Rank(v, device) <= rank)
    ensures |Tops(pool, device)| >= 2
    ensures forall v | v in Tops(pool, device) :: v.profile.priority == priority && Rank(v, device) == rank
  {
    FilterKeepsBoth(pool, Unbeaten(pool, device), i, j);
    forall v | v in Tops(pool, device) ensures v.profile.priority == priority && Rank(v, device) == rank {
      assert pool[i] in pool && !Beats(pool[i], v, device);
    }
  }
}
