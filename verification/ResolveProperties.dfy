/** What callers may rely on when a profile is resolved (src/profile.rs, resolve). */
module ResolveProperties {
  import opened Wrappers
  import opened Sorting
  import opened Facts
  import opened Profile
  import opened Resolve

  // ----- Exactly one profile, strictly ahead of every other

  /** The i-th matching profile is strictly ahead of every other one, by priority then rank. */
  ghost predicate StrictlyAhead(pool: seq<VerifiedProfile>, i: nat, device: HardwareDevice) {
    i < |pool| && forall j | 0 <= j < |pool| && j != i :: Beats(pool[i], pool[j], device)
  }

  lemma {:induction false} FilterAtMost<T>(s: seq<T>, p: T -> bool, i: nat)
    requires i < |s| && forall j | 0 <= j < |s| && j != i :: !p(s[j])
    ensures Filter(s, p) == if p(s[i]) then [s[i]] else []
  {
    if i == 0 {
      FilterNone(s[1..], p);
    } else {
      FilterAtMost(s[1..], p, i - 1);
    }
  }

  lemma {:induction false} FilterKeepsBoth<T>(s: seq<T>, p: T -> bool, i: nat, j: nat)
    requires i < j < |s| && p(s[i]) && p(s[j])
    ensures |Filter(s, p)| >= 2
  {
    if i == 0 {
      assert s[1..][j - 1] == s[j];
      FilterNone(s[1..], p);
    } else {
      FilterKeepsBoth(s[1..], p, i - 1, j - 1);
    }
  }

  lemma AheadIsOnlyTop(pool: seq<VerifiedProfile>, i: nat, device: HardwareDevice)
    requires StrictlyAhead(pool, i, device)
    ensures Tops(pool, device) == [pool[i]]
  {
    forall j | 0 <= j < |pool| && j != i ensures !Unbeaten(pool, device)(pool[j]) {
      assert pool[i] in pool && Beats(pool[i], pool[j], device);
    }
    FilterAtMost(pool, Unbeaten(pool, device), i);
  }

  lemma OnlyTopIsAhead(pool: seq<VerifiedProfile>, device: HardwareDevice) returns (i: nat)
    requires |Tops(pool, device)| == 1
    ensures StrictlyAhead(pool, i, device) && pool[i] == Tops(pool, device)[0]
  {
    var w := Tops(pool, device)[0];
    assert w in Tops(pool, device);
    i :| i < |pool| && pool[i] == w;
    forall j | 0 <= j < |pool| && j != i ensures Beats(pool[i], pool[j], device) {
      if !Beats(pool[i], pool[j], device) {
        assert pool[j] in pool && !Beats(pool[j], w, device);
        assert Unbeaten(pool, device)(pool[j]);
        FilterKeepsBoth(pool, Unbeaten(pool, device), if i < j then i else j, if i < j then j else i);
      }
    }
  }

  lemma {:induction false} SomethingIsUnbeaten(pool: seq<VerifiedProfile>, device: HardwareDevice)
    requires pool != []
    ensures Tops(pool, device) != []
  {
    var best := BestOf(pool, device);
    FilterNone(pool, Unbeaten(pool, device));
    assert Unbeaten(pool, device)(best);
  }

  lemma {:induction false} BestOf(pool: seq<VerifiedProfile>, device: HardwareDevice) returns (best: VerifiedProfile)
    requires pool != []
    ensures best in pool && forall other | other in pool :: !Beats(other, best, device)
  {
    best := pool[0];
    if |pool| > 1 {
      best := BestOf(pool[1..], device);
      var runnerUp := best;
      if Beats(pool[0], best, device) {
        best := pool[0];
      }
      forall other | other in pool ensures !Beats(other, best, device) {
        assert other == pool[0] || other in pool[1..];
        assert other in pool[1..] ==> !Beats(other, runnerUp, device);
      }
    }
  }

  /** A profile is returned exactly when it is strictly ahead of all the other matching profiles
      and no matching profile with another id conflicts with it in either direction. */
  lemma SelectedExactly(
    system: SystemFacts, device: HardwareDevice, profiles: seq<VerifiedProfile>, w: VerifiedProfile)
    ensures var pool := Matching(system, device, profiles);
            Resolution(system, device, profiles) == Ok(Some(w))
            <==> && (exists i | 0 <= i < |pool| :: pool[i] == w && StrictlyAhead(pool, i, device))
                 && (forall other | other in pool :: !ConflictsWith(w, other))
  {
    var pool := Matching(system, device, profiles);
    var tops := Tops(pool, device);
    if |tops| == 1 {
      var i := OnlyTopIsAhead(pool, device);
      FilterNone(pool, Rivals(tops[0]));
    }
    if i :| 0 <= i < |pool| && pool[i] == w && StrictlyAhead(pool, i, device) {
      AheadIsOnlyTop(pool, i, device);
    }
  }

  /** The other outcomes: nothing matches; two positions share the lead; the leader has a rival. */
  lemma RefusedExactly(system: SystemFacts, device: HardwareDevice, profiles: seq<VerifiedProfile>)
    ensures var pool := Matching(system, device, profiles);
            var r := Resolution(system, device, profiles);
            && (r == Ok(None) <==> pool == [])
            && (r.Err? && r.error.Ambiguous? <==> pool != [] && !exists i :: StrictlyAhead(pool, i, device))
            && (r.Err? && r.error.Conflict? ==>
                  exists i, other | 0 <= i < |pool| && other in pool ::
                    StrictlyAhead(pool, i, device) && ConflictsWith(pool[i], other)
                    && r.error == Conflict(Id(pool[i]), Id(other)))
  {
    var pool := Matching(system, device, profiles);
    var tops := Tops(pool, device);
    if pool != [] {
      SomethingIsUnbeaten(pool, device);
    }
    if i: nat :| StrictlyAhead(pool, i, device) {
      AheadIsOnlyTop(pool, i, device);
    }
    if |tops| == 1 {
      var i := OnlyTopIsAhead(pool, device);
      var rivals := Filter(pool, Rivals(tops[0]));
      if rivals != [] {
        assert rivals[0] in rivals;
      }
    }
  }

  // ----- The order of the catalog does not matter

  /** The same outcome, up to which rival a conflict names. */
  predicate SameDecision(a: Resolved, b: Resolved) {
    match (a, b)
    case (Err(Conflict(winner, _)), Err(Conflict(winner', _))) => winner == winner'
    case _ => a == b
  }

  lemma TopsPermuted(pool: seq<VerifiedProfile>, pool': seq<VerifiedProfile>, device: HardwareDevice)
    requires multiset(pool) == multiset(pool')
    ensures multiset(Tops(pool, device)) == multiset(Tops(pool', device))
  {
    SameElements(pool, pool');
    FilterPermuted(pool, pool', Unbeaten(pool, device));
    FilterCongruent(pool', Unbeaten(pool, device), Unbeaten(pool', device));
  }

  lemma SortedIdsPermuted(s: seq<VerifiedProfile>, t: seq<VerifiedProfile>)
    requires multiset(s) == multiset(t)
    ensures SortedIds(s) == SortedIds(t)
  {
    IdOrder();
    MapPermuted(s, t, Id);
    StableSortSorted(Map(s, Id), Text.AtMost);
    StableSortSorted(Map(t, Id), Text.AtMost);
    SortedUnique(SortedIds(s), SortedIds(t), Text.AtMost);
  }

  /** Permuting the catalog preserves the returned profile, the list of ambiguous ids, and the
      fact and winner of a conflict. */
  lemma CatalogOrderIrrelevant(
    system: SystemFacts, device: HardwareDevice,
    profiles: seq<VerifiedProfile>, profiles': seq<VerifiedProfile>)
    requires multiset(profiles) == multiset(profiles')
    ensures SameDecision(Resolution(system, device, profiles), Resolution(system, device, profiles'))
  {
    var pool, pool' := Matching(system, device, profiles), Matching(system, device, profiles');
    FilterPermuted(profiles, profiles', Eligible(system, device));
    TopsPermuted(pool, pool', device);
    var tops, tops' := Tops(pool, device), Tops(pool', device);
    SameElements(tops, tops');
    SortedIdsPermuted(tops, tops');
    if |tops| == 1 {
      assert tops[0] in tops';
      FilterPermuted(pool, pool', Rivals(tops[0]));
      SameElements(Filter(pool, Rivals(tops[0])), Filter(pool', Rivals(tops[0])));
    }
  }
}
