/** What the standard library's sorts and ordered sets compute: stable sorting, adjacent
    de-duplication, and the ascending enumeration of a set of strings. */
module Sorting {
  import opened Wrappers
  import opened Text

  function ToSet<T>(s: seq<T>): set<T> {
    set x | x in s
  }

  function Filter<T>(s: seq<T>, p: T -> bool): (r: seq<T>)
    ensures forall x | x in r :: x in s && p(x)
    ensures forall x | x in s && p(x) :: x in r
  {
    if s == [] then [] else (if p(s[0]) then [s[0]] else []) + Filter(s[1..], p)
  }

  function Map<T, U>(s: seq<T>, f: T -> U): (r: seq<U>)
    ensures |r| == |s| && forall i | 0 <= i < |s| :: r[i] == f(s[i])
  {
    seq(|s|, i requires 0 <= i < |s| => f(s[i]))
  }

  /** The union of what each item contributes. */
  function Union<T, U>(xs: seq<T>, f: T -> set<U>): set<U> {
    if xs == [] then {} else Union(xs[..|xs| - 1], f) + f(xs[|xs| - 1])
  }

  lemma {:induction false} UnionMembers<T, U>(xs: seq<T>, f: T -> set<U>, y: U)
    ensures y in Union(xs, f) <==> exists x | x in xs :: y in f(x)
  {
    if xs != [] {
      var n := |xs| - 1;
      UnionMembers(xs[..n], f, y);
      assert xs == xs[..n] + [xs[n]];
      assert xs[n] in xs;
    }
  }

  lemma UnionStep<T, U>(xs: seq<T>, i: nat, f: T -> set<U>)
    requires i < |xs|
    ensures Union(xs[..i + 1], f) == Union(xs[..i], f) + f(xs[i])
  {
    assert xs[..i + 1][..i] == xs[..i];
  }

  /** A union depends on which items there are, not on their order or repeats. */
  lemma UnionOrderless<T, U(!new)>(xs: seq<T>, ys: seq<T>, f: T -> set<U>)
    requires ToSet(xs) == ToSet(ys)
    ensures Union(xs, f) == Union(ys, f)
  {
    assert forall x :: x in xs <==> x in ToSet(xs);
    assert forall y :: y in ys <==> y in ToSet(ys);
    forall y: U ensures y in Union(xs, f) <==> y in Union(ys, f) {
      UnionMembers(xs, f, y);
      UnionMembers(ys, f, y);
    }
  }

  lemma {:induction false} FilterAppend<T>(s: seq<T>, t: seq<T>, p: T -> bool)
    ensures Filter(s + t, p) == Filter(s, p) + Filter(t, p)
  {
    if s == [] {
      assert s + t == t;
    } else {
      assert (s + t)[1..] == s[1..] + t;
      FilterAppend(s[1..], t, p);
    }
  }

  lemma FilterStep<T>(s: seq<T>, i: nat, p: T -> bool)
    requires i < |s|
    ensures Filter(s[..i + 1], p) == Filter(s[..i], p) + (if p(s[i]) then [s[i]] else [])
  {
    assert s[..i + 1] == s[..i] + [s[i]];
    FilterAppend(s[..i], [s[i]], p);
    assert [s[i]][1..] == [];
  }

  lemma FilterNone<T>(s: seq<T>, p: T -> bool)
    ensures Filter(s, p) == [] <==> forall x | x in s :: !p(x)
  {
    if Filter(s, p) != [] {
      assert Filter(s, p)[0] in Filter(s, p);
    }
  }

  /** The first item kept is the first that passes. */
  lemma {:induction false} FilterFirst<T>(s: seq<T>, p: T -> bool, i: nat)
    requires i < |s| && p(s[i]) && forall j | 0 <= j < i :: !p(s[j])
    ensures Filter(s, p) != [] && Filter(s, p)[0] == s[i]
  {
    if i > 0 {
      FilterFirst(s[1..], p, i - 1);
    }
  }

  lemma {:induction false} FilterTwice<T>(s: seq<T>, p: T -> bool, q: T -> bool, both: T -> bool)
    requires forall x | x in s :: both(x) <==> p(x) && q(x)
    ensures Filter(Filter(s, p), q) == Filter(s, both)
  {
    if s != [] {
      assert s[0] in s;
      FilterTwice(s[1..], p, q, both);
      var kept, rest := Filter(s, p), Filter(s[1..], p);
      if p(s[0]) {
        assert kept[1..] == rest;
        assert Filter(kept, q) == (if q(s[0]) then [s[0]] else []) + Filter(rest, q);
      } else {
        assert kept == rest;
      }
    }
  }

  lemma {:induction false} FilterCongruent<T>(s: seq<T>, p: T -> bool, q: T -> bool)
    requires forall x | x in s :: p(x) == q(x)
    ensures Filter(s, p) == Filter(s, q)
  {
    if s != [] {
      assert s[0] in s;
      FilterCongruent(s[1..], p, q);
    }
  }

  /** Filtering after mapping is mapping after filtering, when the tests correspond. */
  lemma {:induction false} FilterMap<T, U>(s: seq<T>, f: T -> U, p: T -> bool, q: U -> bool)
    requires forall x | x in s :: q(f(x)) == p(x)
    ensures Filter(Map(s, f), q) == Map(Filter(s, p), f)
  {
    if s == [] {
    } else {
      assert s[0] in s;
      FilterMap(s[1..], f, p, q);
      assert Map(s, f)[1..] == Map(s[1..], f);
      assert Map(Filter(s, p), f) == (if p(s[0]) then [f(s[0])] else []) + Map(Filter(s[1..], p), f);
    }
  }

  /** Filtering keeps every multiplicity of what it keeps. */
  lemma {:induction false} FilterCount<T>(s: seq<T>, p: T -> bool, x: T)
    ensures multiset(Filter(s, p))[x] == if p(x) then multiset(s)[x] else 0
  {
    if s != [] {
      FilterCount(s[1..], p, x);
      assert s == [s[0]] + s[1..];
    }
  }

  lemma FilterPermuted<T(!new)>(s: seq<T>, t: seq<T>, p: T -> bool)
    requires multiset(s) == multiset(t)
    ensures multiset(Filter(s, p)) == multiset(Filter(t, p))
  {
    forall x: T ensures multiset(Filter(s, p))[x] == multiset(Filter(t, p))[x] {
      FilterCount(s, p, x);
      FilterCount(t, p, x);
    }
  }

  lemma {:induction false} DistinctOnce<T>(s: seq<T>, x: T)
    requires forall i, j | 0 <= i < j < |s| :: s[i] != s[j]
    ensures multiset(s)[x] <= 1
  {
    if s != [] {
      assert s == [s[0]] + s[1..];
      DistinctOnce(s[1..], x);
    }
  }

  lemma RepeatedTwice<T>(s: seq<T>, i: nat, j: nat)
    requires i < j < |s| && s[i] == s[j]
    ensures multiset(s)[s[i]] >= 2
  {
    assert s == s[..j] + ([s[j]] + s[j + 1..]);
    assert s[..j][i] in multiset(s[..j]);
  }

  /** A rearrangement of distinct items is distinct. */
  lemma DistinctPermuted<T>(s: seq<T>, t: seq<T>)
    requires multiset(s) == multiset(t) && forall i, j | 0 <= i < j < |s| :: s[i] != s[j]
    ensures forall i, j | 0 <= i < j < |t| :: t[i] != t[j]
  {
    forall i, j | 0 <= i < j < |t| ensures t[i] != t[j] {
      DistinctOnce(s, t[i]);
      if t[i] == t[j] {
        RepeatedTwice(t, i, j);
      }
    }
  }

  function RemoveAt<T>(s: seq<T>, i: nat): (r: seq<T>)
    requires i < |s|
    ensures multiset(s) == multiset(r) + multiset{s[i]}
  {
    assert s == s[..i] + ([s[i]] + s[i + 1..]);
    s[..i] + s[i + 1..]
  }

  lemma Cancel<T>(a: multiset<T>, b: multiset<T>, x: T)
    requires a + multiset{x} == b + multiset{x}
    ensures a == b
  {
    assert a == (a + multiset{x}) - multiset{x};
    assert b == (b + multiset{x}) - multiset{x};
  }

  lemma {:induction false} MapPermuted<T, U>(s: seq<T>, t: seq<T>, f: T -> U)
    requires multiset(s) == multiset(t)
    ensures multiset(Map(s, f)) == multiset(Map(t, f))
  {
    SameElements(s, t);
    if s == [] {
    } else {
      assert s[0] in t;
      var i :| 0 <= i < |t| && t[i] == s[0];
      assert RemoveAt(s, 0) == s[1..];
      Cancel(multiset(RemoveAt(t, i)), multiset(s[1..]), s[0]);
      MapPermuted(s[1..], RemoveAt(t, i), f);
      assert RemoveAt(Map(s, f), 0) == Map(s[1..], f);
      assert RemoveAt(Map(t, f), i) == Map(RemoveAt(t, i), f);
    }
  }

  // ----- Stable sorting

  ghost predicate TotalPreorder<T(!new)>(le: (T, T) -> bool) {
    && (forall a, b :: le(a, b) || le(b, a))
    && (forall a, b, c :: le(a, b) && le(b, c) ==> le(a, c))
  }

  ghost predicate SortedBy<T>(s: seq<T>, le: (T, T) -> bool) {
    forall i, j | 0 <= i < j < |s| :: le(s[i], s[j])
  }

  function Insert<T>(x: T, s: seq<T>, le: (T, T) -> bool): (r: seq<T>)
    ensures multiset(r) == multiset{x} + multiset(s)
  {
    if s == [] || le(x, s[0]) then [x] + s
    else
      assert s == [s[0]] + s[1..];
      [s[0]] + Insert(x, s[1..], le)
  }

  /** `slice::sort_by`: a stable sort. */
  function StableSort<T>(s: seq<T>, le: (T, T) -> bool): (r: seq<T>)
    ensures multiset(r) == multiset(s)
  {
    if s == [] then []
    else
      assert s == [s[0]] + s[1..];
      Insert(s[0], StableSort(s[1..], le), le)
  }

  lemma SameElements<T>(s: seq<T>, t: seq<T>)
    requires multiset(s) == multiset(t)
    ensures |s| == |t| && forall x :: x in s <==> x in t
  {
    assert |multiset(s)| == |s| && |multiset(t)| == |t|;
    forall x ensures x in s <==> x in t {
      assert x in s <==> x in multiset(s);
      assert x in t <==> x in multiset(t);
    }
  }

  lemma {:induction false} InsertSorted<T(!new)>(x: T, s: seq<T>, le: (T, T) -> bool)
    requires TotalPreorder(le) && SortedBy(s, le)
    ensures SortedBy(Insert(x, s, le), le)
  {
    if s == [] || le(x, s[0]) {
      forall j | 0 <= j < |s| ensures le(x, s[j]) {
        assert le(x, s[0]) && (j == 0 || le(s[0], s[j]));
      }
    } else {
      InsertSorted(x, s[1..], le);
      var tail := Insert(x, s[1..], le);
      SameElements(tail, [x] + s[1..]);
      forall j | 0 <= j < |tail| ensures le(s[0], tail[j]) {
        assert tail[j] in tail;
        assert tail[j] in [x] + s[1..];
        if tail[j] != x {
          var k :| 0 <= k < |s[1..]| && s[1..][k] == tail[j];
          assert s[k + 1] == tail[j];
        }
      }
    }
  }

  lemma {:induction false} StableSortSorted<T(!new)>(s: seq<T>, le: (T, T) -> bool)
    requires TotalPreorder(le)
    ensures SortedBy(StableSort(s, le), le)
  {
    if s != [] {
      StableSortSorted(s[1..], le);
      InsertSorted(s[0], StableSort(s[1..], le), le);
    }
  }

  /** Sorting what is already sorted changes nothing. */
  lemma {:induction false} SortIdentity<T>(s: seq<T>, le: (T, T) -> bool)
    requires SortedBy(s, le)
    ensures StableSort(s, le) == s
  {
    if s != [] {
      assert SortedBy(s[1..], le);
      SortIdentity(s[1..], le);
      assert |s| > 1 ==> le(s[0], s[1]);
    }
  }

  lemma SortedHead<T>(s: seq<T>, x: T, le: (T, T) -> bool)
    requires s != [] && x in s && SortedBy(s, le)
    ensures x == s[0] || le(s[0], x)
  {
  }

  ghost predicate Antisymmetric<T(!new)>(le: (T, T) -> bool) {
    forall a, b | le(a, b) && le(b, a) :: a == b
  }

  lemma SameHead<T(!new)>(s: seq<T>, t: seq<T>, le: (T, T) -> bool)
    requires s != [] && multiset(s) == multiset(t) && SortedBy(s, le) && SortedBy(t, le)
    requires Antisymmetric(le)
    ensures t != [] && s[0] == t[0]
  {
    SameElements(s, t);
    SortedHead(s, t[0], le);
    SortedHead(t, s[0], le);
  }

  lemma DropHeads<T(!new)>(s: seq<T>, t: seq<T>, le: (T, T) -> bool)
    requires s != [] && t != [] && s[0] == t[0] && multiset(s) == multiset(t)
    requires SortedBy(s, le) && SortedBy(t, le)
    ensures multiset(s[1..]) == multiset(t[1..]) && SortedBy(s[1..], le) && SortedBy(t[1..], le)
  {
    assert RemoveAt(s, 0) == s[1..] && RemoveAt(t, 0) == t[1..];
    Cancel(multiset(s[1..]), multiset(t[1..]), s[0]);
  }

  /** Two sorted arrangements of the same items agree when ties are equal items. */
  lemma {:induction false} SortedUnique<T(!new)>(s: seq<T>, t: seq<T>, le: (T, T) -> bool)
    requires multiset(s) == multiset(t) && SortedBy(s, le) && SortedBy(t, le)
    requires Antisymmetric(le)
    ensures s == t
  {
    if s == [] {
      SameElements(s, t);
    } else {
      SameHead(s, t, le);
      DropHeads(s, t, le);
      SortedUnique(s[1..], t[1..], le);
      assert s == [s[0]] + s[1..] && t == [t[0]] + t[1..];
    }
  }

  // ----- Adjacent de-duplication

  /** `Vec::dedup_by`: drop an item that is the same as the one kept before it. */
  function Dedup<T>(s: seq<T>, same: (T, T) -> bool): (r: seq<T>)
    ensures s != [] ==> r != [] && r[0] == s[0]
    ensures |r| <= |s| && forall x | x in r :: x in s
    decreases |s|
  {
    if |s| <= 1 then s
    else if same(s[1], s[0]) then Dedup([s[0]] + s[2..], same)
    else [s[0]] + Dedup(s[1..], same)
  }

  /** Dropping only repeats of equal items loses no item. */
  lemma {:induction false} DedupMembers<T>(s: seq<T>, same: (T, T) -> bool)
    requires forall x, y | x in s && y in s && same(x, y) :: x == y
    ensures forall x | x in s :: x in Dedup(s, same)
    decreases |s|
  {
    if |s| <= 1 {
    } else if same(s[1], s[0]) {
      assert s[0] in s && s[1] in s;
      var rest := [s[0]] + s[2..];
      assert forall x | x in rest :: x in s;
      DedupMembers(rest, same);
      forall x | x in s ensures x in rest {
        assert x == s[0] || x == s[1] || x in s[2..];
      }
    } else {
      DedupMembers(s[1..], same);
    }
  }

  /** Repeats dropped from a sorted list leave it strictly ascending. */
  lemma {:induction false} DedupAscends<T(!new)>(
    s: seq<T>, le: (T, T) -> bool, same: (T, T) -> bool, before: (T, T) -> bool)
    requires SortedBy(s, le)
    requires forall a, b :: le(a, b) && !same(b, a) ==> before(a, b)
    requires forall a, b, c :: before(a, b) && before(b, c) ==> before(a, c)
    ensures SortedBy(Dedup(s, same), before)
    decreases |s|
  {
    if |s| <= 1 {
    } else if same(s[1], s[0]) {
      var rest := [s[0]] + s[2..];
      assert forall i | 0 <= i < |rest| :: rest[i] == if i == 0 then s[0] else s[i + 1];
      DedupAscends(rest, le, same, before);
    } else {
      assert SortedBy(s[1..], le);
      DedupAscends(s[1..], le, same, before);
      var rest := Dedup(s[1..], same);
      assert before(s[0], rest[0]);
      assert Dedup(s, same) == [s[0]] + rest;
    }
  }

  /** The first item that passes a test. */
  function First<T>(s: seq<T>, p: T -> bool): Option<T> {
    if s == [] then None
    else if p(s[0]) then Some(s[0])
    else First(s[1..], p)
  }

  lemma {:induction false} InsertKeepsFirst<T(!new)>(x: T, s: seq<T>, le: (T, T) -> bool, p: T -> bool)
    requires forall a, b | p(a) && p(b) :: le(a, b)
    ensures First(Insert(x, s, le), p) == First([x] + s, p)
  {
    if s != [] && !le(x, s[0]) {
      InsertKeepsFirst(x, s[1..], le, p);
      assert s == [s[0]] + s[1..];
    }
    assert ([x] + s)[1..] == s;
  }

  /** A stable sort keeps the first of the items that tie. */
  lemma {:induction false} SortKeepsFirst<T(!new)>(s: seq<T>, le: (T, T) -> bool, p: T -> bool)
    requires forall a, b | p(a) && p(b) :: le(a, b)
    ensures First(StableSort(s, le), p) == First(s, p)
  {
    if s != [] {
      SortKeepsFirst(s[1..], le, p);
      var sorted := StableSort(s[1..], le);
      InsertKeepsFirst(s[0], sorted, le, p);
      assert ([s[0]] + sorted)[1..] == sorted;
    }
  }

  /** So does dropping the later of two that are the same. */
  lemma {:induction false} DedupKeepsFirst<T(!new)>(s: seq<T>, same: (T, T) -> bool, p: T -> bool)
    requires forall a, b | same(a, b) :: p(a) == p(b)
    ensures First(Dedup(s, same), p) == First(s, p)
    decreases |s|
  {
    if |s| <= 1 {
    } else if same(s[1], s[0]) {
      DedupKeepsFirst([s[0]] + s[2..], same, p);
      assert ([s[0]] + s[2..])[1..] == s[2..] && s[1..][1..] == s[2..];
    } else {
      DedupKeepsFirst(s[1..], same, p);
      assert Dedup(s, same)[1..] == Dedup(s[1..], same);
    }
  }

  // ----- The ascending enumeration of a set of strings (`BTreeSet<String>`)

  ghost predicate StrictlyAscending(xs: seq<string>) {
    forall i, j | 0 <= i < j < |xs| :: Less(xs[i], xs[j])
  }

  ghost predicate Enumerates(xs: seq<string>, s: set<string>) {
    StrictlyAscending(xs) && forall x :: x in xs <==> x in s
  }

  ghost predicate IsLeast(m: string, s: set<string>) {
    m in s && forall x | x in s :: AtMost(m, x)
  }

  lemma {:induction false} LeastExists(s: set<string>)
    requires s != {}
    ensures exists m :: IsLeast(m, s)
  {
    var y :| y in s;
    var rest := s - {y};
    if rest == {} {
      forall x | x in s ensures AtMost(y, x) {
        assert x !in rest;
      }
      assert IsLeast(y, s);
    } else {
      LeastExists(rest);
      var m :| IsLeast(m, rest);
      LessTotal(m, y);
      var least := if Less(y, m) then y else m;
      forall x | x in s ensures AtMost(least, x) {
        if x != y && x != m && least == y {
          assert x in rest && AtMost(m, x);
          LessTransitive(y, m, x);
        }
      }
      assert IsLeast(least, s);
    }
  }

  lemma PrependLeast(m: string, rest: seq<string>, s: set<string>)
    requires IsLeast(m, s) && Enumerates(rest, s - {m})
    ensures Enumerates([m] + rest, s)
  {
    forall j | 0 <= j < |rest| ensures Less(m, rest[j]) {
      assert rest[j] in s - {m};
    }
  }

  lemma {:induction false} EnumerationExists(s: set<string>)
    ensures exists xs :: Enumerates(xs, s)
  {
    if s == {} {
      assert Enumerates([], s);
    } else {
      LeastExists(s);
      var m :| IsLeast(m, s);
      EnumerationExists(s - {m});
      var rest :| Enumerates(rest, s - {m});
      PrependLeast(m, rest, s);
    }
  }

  /** The members of a set in ascending order. */
  ghost function Ascending(s: set<string>): (r: seq<string>)
    ensures Enumerates(r, s)
  {
    EnumerationExists(s);
    var r :| Enumerates(r, s);
    r
  }

  /** An ascending enumeration is determined by its elements. */
  lemma {:induction false} EnumerationUnique(xs: seq<string>, ys: seq<string>, s: set<string>)
    requires Enumerates(xs, s) && Enumerates(ys, s)
    ensures xs == ys
  {
    EnumerationLength(xs, s);
    EnumerationLength(ys, s);
    if xs != [] {
      EnumerationHead(xs, ys, s);
      EnumerationTail(xs, s);
      EnumerationTail(ys, s);
      EnumerationUnique(xs[1..], ys[1..], s - {xs[0]});
    }
  }

  lemma EnumerationHead(xs: seq<string>, ys: seq<string>, s: set<string>)
    requires Enumerates(xs, s) && Enumerates(ys, s) && xs != [] && ys != []
    ensures xs[0] == ys[0]
  {
    assert xs[0] in ys && ys[0] in xs;
    var i :| 0 <= i < |ys| && ys[i] == xs[0];
    var j :| 0 <= j < |xs| && xs[j] == ys[0];
    if i > 0 && j > 0 {
      LessAsymmetric(ys[0], ys[i]);
    }
  }

  lemma EnumerationTail(xs: seq<string>, s: set<string>)
    requires Enumerates(xs, s) && xs != []
    ensures Enumerates(xs[1..], s - {xs[0]})
  {
    forall x | x in xs[1..] ensures x != xs[0] {
      LessIrreflexive(x);
    }
    forall x | x in s - {xs[0]} ensures x in xs[1..] {
      assert x in xs;
    }
  }

  lemma EnumerationLength(xs: seq<string>, s: set<string>)
    requires Enumerates(xs, s)
    ensures |xs| == |s|
  {
    forall i, j | 0 <= i < j < |xs| ensures xs[i] != xs[j] {
      LessIrreflexive(xs[i]);
    }
    DistinctCount(xs);
    assert ToSet(xs) == s;
  }

  /** List an ordered set. */
  method ToSorted(s: set<string>) returns (r: seq<string>)
    ensures r == Ascending(s)
  {
    r := [];
    var left := s;
    while left != {}
      invariant left <= s && Enumerates(r, s - left)
      invariant forall x, y | x in s - left && y in left :: Less(x, y)
    {
      LeastExists(left);
      var m :| m in left && forall x | x in left :: AtMost(m, x);
      assert IsLeast(m, left);
      forall i | 0 <= i < |r| ensures Less(r[i], m) {
        assert r[i] in s - left;
      }
      r := r + [m];
      assert s - (left - {m}) == (s - left) + {m};
      left := left - {m};
    }
    assert s - left == s;
    EnumerationUnique(r, Ascending(s), s);
  }

  /** The first n items of an ascending enumeration: what `take(n)` leaves of an ordered set. */
  function Take<T>(s: seq<T>, n: nat): seq<T> {
    if |s| <= n then s else s[..n]
  }

  /** `kept` are the n least members of s (all of them when there are no more than n). */
  ghost predicate AreLeast(kept: set<string>, s: set<string>, n: nat) {
    && kept <= s
    && |kept| == (if |s| <= n then |s| else n)
    && forall x, y | x in kept && y in s - kept :: Less(x, y)
  }

  lemma {:induction false} DistinctCount<T>(xs: seq<T>)
    requires forall i, j | 0 <= i < j < |xs| :: xs[i] != xs[j]
    ensures |ToSet(xs)| == |xs|
  {
    if xs != [] {
      DistinctCount(xs[1..]);
      assert ToSet(xs) == {xs[0]} + ToSet(xs[1..]);
    }
  }

  lemma TakeLeast(s: set<string>, n: nat)
    ensures AreLeast(ToSet(Take(Ascending(s), n)), s, n)
    ensures StrictlyAscending(Take(Ascending(s), n))
  {
    var all := Ascending(s);
    EnumerationLength(all, s);
    var kept := Take(all, n);
    assert forall i | 0 <= i < |kept| :: kept[i] == all[i];
    EnumerationLength(kept, ToSet(kept));
    forall x, y | x in ToSet(kept) && y in s - ToSet(kept) ensures Less(x, y) {
      var i :| 0 <= i < |kept| && kept[i] == x;
      assert y in all && y !in kept;
      var j :| 0 <= j < |all| && all[j] == y;
      if j < |kept| {
        assert false;
      }
    }
  }
}
