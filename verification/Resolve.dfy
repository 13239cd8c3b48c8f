/** Choosing the profile for one device (src/profile.rs, resolve). */
module Resolve {
  import opened Wrappers
  import opened Text
  import opened Sorting
  import opened Facts
  import opened Profile

  datatype ResolveError = Ambiguous(ids: seq<string>) | Conflict(winner: string, other: string)

  type Resolved = Result<Option<VerifiedProfile>, ResolveError>

  // ----- The meaning of a resolution

  function Eligible(system: SystemFacts, device: HardwareDevice): VerifiedProfile -> bool {
    (v: VerifiedProfile) => ProfileMatches(v.profile, system, device)
  }

  /** The profiles that match, in catalog order. */
  function Matching(system: SystemFacts, device: HardwareDevice, profiles: seq<VerifiedProfile>): seq<VerifiedProfile> {
    Filter(profiles, Eligible(system, device))
  }

  function Rank(v: VerifiedProfile, device: HardwareDevice): nat {
    AdvisoryRank(v.profile, device)
  }

  function Id(v: VerifiedProfile): string {
    v.profile.id
  }

  /** a is strictly ahead of b: by priority, then by rank. */
  predicate Beats(a: VerifiedProfile, b: VerifiedProfile, device: HardwareDevice) {
    a.profile.priority > b.profile.priority
    || (a.profile.priority == b.profile.priority && Rank(a, device) > Rank(b, device))
  }

  function Unbeaten(pool: seq<VerifiedProfile>, device: HardwareDevice): VerifiedProfile -> bool {
    (v: VerifiedProfile) => forall other | other in pool :: !Beats(other, v, device)
  }

  /** The members of the pool nothing in it beats. */
  function Tops(pool: seq<VerifiedProfile>, device: HardwareDevice): seq<VerifiedProfile> {
    Filter(pool, Unbeaten(pool, device))
  }

  function SortedIds(s: seq<VerifiedProfile>): seq<string> {
    StableSort(Map(s, Id), AtMost)
  }

  predicate ConflictsWith(w: VerifiedProfile, other: VerifiedProfile) {
    Id(other) != Id(w) && (Id(other) in w.profile.conflicts || Id(w) in other.profile.conflicts)
  }

  function Rivals(w: VerifiedProfile): VerifiedProfile -> bool {
    (other: VerifiedProfile) => ConflictsWith(w, other)
  }

  function Conflicting(system: SystemFacts, device: HardwareDevice, w: VerifiedProfile): VerifiedProfile -> bool {
    (v: VerifiedProfile) => ProfileMatches(v.profile, system, device) && ConflictsWith(w, v)
  }

  /** What resolving means: the one unbeaten matching profile, unless it is tied or in conflict. */
  function Resolution(system: SystemFacts, device: HardwareDevice, profiles: seq<VerifiedProfile>): Resolved {
    var pool := Matching(system, device, profiles);
    var tops := Tops(pool, device);
    if tops == [] then Ok(None)
    else if |tops| > 1 then Err(Ambiguous(SortedIds(tops)))
    else
      var rivals := Filter(pool, Rivals(tops[0]));
      if rivals == [] then Ok(Some(tops[0])) else Err(Conflict(Id(tops[0]), Id(rivals[0])))
  }

  // ----- resolve

  function HasPriority(priority: int): VerifiedProfile -> bool {
    (v: VerifiedProfile) => v.profile.priority == priority
  }

  function HasRank(rank: nat, device: HardwareDevice): VerifiedProfile -> bool {
    (v: VerifiedProfile) => Rank(v, device) == rank
  }

  /** Higher rank first, then ids ascending. */
  function RankThenId(device: HardwareDevice): (VerifiedProfile, VerifiedProfile) -> bool {
    (l: VerifiedProfile, r: VerifiedProfile) =>
      Rank(l, device) > Rank(r, device) || (Rank(l, device) == Rank(r, device) && AtMost(Id(l), Id(r)))
  }

  function TakeWhile<T>(s: seq<T>, p: T -> bool): seq<T> {
    if s == [] || !p(s[0]) then [] else [s[0]] + TakeWhile(s[1..], p)
  }

  method HighestPriority(pool: seq<VerifiedProfile>) returns (priority: int)
    requires pool != []
    ensures exists v | v in pool :: v.profile.priority == priority
    ensures forall v | v in pool :: v.profile.priority <= priority
  {
    priority := pool[0].profile.priority;
    for i := 1 to |pool|
      invariant exists v | v in pool :: v.profile.priority == priority
      invariant forall j | 0 <= j < i :: pool[j].profile.priority <= priority
    {
      if pool[i].profile.priority > priority {
        priority := pool[i].profile.priority;
        assert pool[i] in pool;
      }
    }
  }

  /** The closing loop over the whole catalog: the first matching profile in conflict. */
  method FindConflict(
    system: SystemFacts, device: HardwareDevice, profiles: seq<VerifiedProfile>, winner: VerifiedProfile)
    returns (r: Option<VerifiedProfile>)
    ensures var conflicts := Filter(profiles, Conflicting(system, device, winner));
            r == if conflicts == [] then None else Some(conflicts[0])
  {
    ghost var conflicting := Conflicting(system, device, winner);
    for i := 0 to |profiles|
      invariant forall j | 0 <= j < i :: !conflicting(profiles[j])
    {
      var other := profiles[i];
      if ProfileMatches(other.profile, system, device) && Id(other) != Id(winner) {
        if Id(other) in winner.profile.conflicts || Id(winner) in other.profile.conflicts {
          FilterFirst(profiles, conflicting, i);
          return Some(other);
        }
      }
    }
    FilterNone(profiles, conflicting);
    return None;
  }

  /** The filter, maximum, retain, sort, tie and conflict pipeline computes the resolution. */
  method Resolve(system: SystemFacts, device: HardwareDevice, profiles: seq<VerifiedProfile>) returns (r: Resolved)
    ensures r == Resolution(system, device, profiles)
  {
    var eligible := Filter(profiles, Eligible(system, device));
    if eligible == [] {
      return Ok(None);
    }
    ghost var pool := eligible;
    var priority := HighestPriority(eligible);
    eligible := Filter(eligible, HasPriority(priority));
    eligible := StableSort(eligible, RankThenId(device));
    TopsFirst(pool, priority, eligible, device);
    var winner := eligible[0];
    var tied := TakeWhile(eligible, HasRank(Rank(winner, device), device));
    if |eligible| > 1 && Rank(winner, device) == Rank(eligible[1], device) {
      return Err(Ambiguous(Map(tied, Id)));
    }
    var other := FindConflict(system, device, profiles, winner);
    FilterTwice(profiles, Eligible(system, device), Rivals(winner), Conflicting(system, device, winner));
    if other.Some? {
      return Err(Conflict(Id(winner), Id(other.value)));
    }
    return Ok(Some(winner));
  }

  lemma IdOrder()
    ensures TotalPreorder(AtMost) && Antisymmetric(AtMost)
  {
    forall a, b ensures AtMost(a, b) || AtMost(b, a) {
      LessTotal(a, b);
    }
    forall a, b, c | AtMost(a, b) && AtMost(b, c) ensures AtMost(a, c) {
      if a != b && b != c {
        LessTransitive(a, b, c);
      }
    }
    forall a, b | AtMost(a, b) && AtMost(b, a) ensures a == b {
      if a != b {
        LessAsymmetric(a, b);
      }
    }
  }

  lemma RankOrder(device: HardwareDevice)
    ensures TotalPreorder(RankThenId(device))
  {
    IdOrder();
    var le := RankThenId(device);
    forall a, b, c | le(a, b) && le(b, c) ensures le(a, c) {
      assert AtMost(Id(a), Id(b)) && AtMost(Id(b), Id(c)) ==> AtMost(Id(a), Id(c));
    }
    forall a, b ensures le(a, b) || le(b, a) {
      assert AtMost(Id(a), Id(b)) || AtMost(Id(b), Id(a));
    }
  }

  /** In a list sorted by falling rank, what comes first is what has the first rank. */
  lemma {:induction false} TakeWhileIsFilter(s: seq<VerifiedProfile>, rank: nat, device: HardwareDevice)
    requires SortedBy(s, RankThenId(device)) && forall v | v in s :: Rank(v, device) <= rank
    ensures TakeWhile(s, HasRank(rank, device)) == Filter(s, HasRank(rank, device))
  {
    if s != [] {
      assert s[0] in s;
      if Rank(s[0], device) == rank {
        TakeWhileIsFilter(s[1..], rank, device);
      } else {
        forall v | v in s ensures Rank(v, device) < rank {
          var i :| 0 <= i < |s| && s[i] == v;
          assert i == 0 || RankThenId(device)(s[0], s[i]);
        }
        FilterNone(s, HasRank(rank, device));
      }
    }
  }

  /** Retaining the highest priority and sorting puts a profile of the highest rank first. */
  lemma BestIsFirst(kept: seq<VerifiedProfile>, device: HardwareDevice)
    requires kept != []
    ensures var sorted := StableSort(kept, RankThenId(device));
            && sorted != [] && sorted[0] in kept && SortedBy(sorted, RankThenId(device))
            && (forall v | v in sorted :: Rank(v, device) <= Rank(sorted[0], device))
            && (forall v | v in kept :: Rank(v, device) <= Rank(sorted[0], device))
  {
    var sorted := StableSort(kept, RankThenId(device));
    SameElements(sorted, kept);
    RankOrder(device);
    StableSortSorted(kept, RankThenId(device));
    forall v | v in sorted ensures Rank(v, device) <= Rank(sorted[0], device) {
      var i :| 0 <= i < |sorted| && sorted[i] == v;
      assert i == 0 || RankThenId(device)(sorted[0], sorted[i]);
    }
  }

  /** The profiles that share the first rank are then the unbeaten ones. */
  lemma TiedAreTops(pool: seq<VerifiedProfile>, priority: int, sorted: seq<VerifiedProfile>, device: HardwareDevice)
    requires exists v | v in pool :: v.profile.priority == priority
    requires forall v | v in pool :: v.profile.priority <= priority
    requires sorted == StableSort(Filter(pool, HasPriority(priority)), RankThenId(device))
    ensures sorted != [] && SortedBy(sorted, RankThenId(device))
    ensures multiset(TakeWhile(sorted, HasRank(Rank(sorted[0], device), device))) == multiset(Tops(pool, device))
  {
    var kept := Filter(pool, HasPriority(priority));
    FilterNone(pool, HasPriority(priority));
    BestIsFirst(kept, device);
    var rank := Rank(sorted[0], device);
    TakeWhileIsFilter(sorted, rank, device);
    FilterPermuted(sorted, kept, HasRank(rank, device));
    RankedAreTops(pool, priority, sorted[0], device);
  }

  lemma RankedAreTops(pool: seq<VerifiedProfile>, priority: int, best: VerifiedProfile, device: HardwareDevice)
    requires forall v | v in pool :: v.profile.priority <= priority
    requires best in pool && best.profile.priority == priority
    requires forall v | v in Filter(pool, HasPriority(priority)) :: Rank(v, device) <= Rank(best, device)
    ensures Filter(Filter(pool, HasPriority(priority)), HasRank(Rank(best, device), device)) == Tops(pool, device)
  {
    forall v | v in pool && v.profile.priority == priority ensures Rank(v, device) <= Rank(best, device) {
      assert HasPriority(priority)(v) && v in Filter(pool, HasPriority(priority));
    }
    TopsByRank(pool, priority, best, device);
    FilterTwice(pool, HasPriority(priority), HasRank(Rank(best, device), device), Unbeaten(pool, device));
  }

  /** Those profiles, in the sorted order, list the unbeaten ids ascending, and there is more
      than one exactly when the second profile has the first one's rank. */
  lemma TopsFirst(pool: seq<VerifiedProfile>, priority: int, sorted: seq<VerifiedProfile>, device: HardwareDevice)
    requires exists v | v in pool :: v.profile.priority == priority
    requires forall v | v in pool :: v.profile.priority <= priority
    requires sorted == StableSort(Filter(pool, HasPriority(priority)), RankThenId(device))
    ensures sorted != []
    ensures var tied := TakeWhile(sorted, HasRank(Rank(sorted[0], device), device));
            && Map(tied, Id) == SortedIds(Tops(pool, device))
            && |tied| == |Tops(pool, device)| > 0
            && (|tied| > 1 <==> |sorted| > 1 && Rank(sorted[0], device) == Rank(sorted[1], device))
            && (|tied| == 1 ==> Tops(pool, device)[0] == sorted[0])
  {
    TiedAreTops(pool, priority, sorted, device);
    var tied, tops := TakeWhile(sorted, HasRank(Rank(sorted[0], device), device)), Tops(pool, device);
    TiedIdsSorted(sorted, Rank(sorted[0], device), device);
    SameIds(tied, tops);
    TiedStart(sorted, device);
  }

  lemma SameIds(tied: seq<VerifiedProfile>, tops: seq<VerifiedProfile>)
    requires multiset(tied) == multiset(tops) && SortedBy(Map(tied, Id), AtMost)
    ensures Map(tied, Id) == SortedIds(tops) && |tied| == |tops| && (|tied| == 1 ==> tops[0] == tied[0])
  {
    IdOrder();
    StableSortSorted(Map(tops, Id), AtMost);
    MapPermuted(tied, tops, Id);
    SortedUnique(Map(tied, Id), SortedIds(tops), AtMost);
    SameElements(tied, tops);
    if |tied| == 1 {
      assert tied[0] in tops;
    }
  }

  lemma TiedStart(sorted: seq<VerifiedProfile>, device: HardwareDevice)
    requires sorted != []
    ensures var tied := TakeWhile(sorted, HasRank(Rank(sorted[0], device), device));
            && tied != [] && tied[0] == sorted[0]
            && (|tied| > 1 <==> |sorted| > 1 && Rank(sorted[0], device) == Rank(sorted[1], device))
  {
    if |sorted| > 1 {
      assert sorted[1..][0] == sorted[1];
    }
  }

  lemma TopsByRank(pool: seq<VerifiedProfile>, priority: int, best: VerifiedProfile, device: HardwareDevice)
    requires forall v | v in pool :: v.profile.priority <= priority
    requires best in pool && best.profile.priority == priority
    requires forall v | v in pool && v.profile.priority == priority :: Rank(v, device) <= Rank(best, device)
    ensures forall v | v in pool ::
              Unbeaten(pool, device)(v) <==> v.profile.priority == priority && Rank(v, device) == Rank(best, device)
  {
    forall v | v in pool && Unbeaten(pool, device)(v)
      ensures v.profile.priority == priority && Rank(v, device) == Rank(best, device)
    {
      assert !Beats(best, v, device);
    }
  }

  lemma {:induction false} TiedIdsSorted(s: seq<VerifiedProfile>, rank: nat, device: HardwareDevice)
    requires SortedBy(s, RankThenId(device))
    ensures var tied := TakeWhile(s, HasRank(rank, device));
            |tied| <= |s| && tied == s[..|tied|]
            && (forall v | v in tied :: Rank(v, device) == rank)
            && SortedBy(Map(tied, Id), AtMost)
  {
    if s != [] && Rank(s[0], device) == rank {
      TiedIdsSorted(s[1..], rank, device);
      var tied := TakeWhile(s, HasRank(rank, device));
      var rest := TakeWhile(s[1..], HasRank(rank, device));
      assert tied == [s[0]] + rest;
      forall i, j | 0 <= i < j < |tied| ensures AtMost(Map(tied, Id)[i], Map(tied, Id)[j]) {
        assert tied[i] in tied && tied[j] in tied;
        assert RankThenId(device)(s[i], s[j]);
      }
    }
  }
}
