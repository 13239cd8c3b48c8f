/** The part of a POSIX file system that catalog publication uses: a tree of entries, changed one
    atomic step at a time. Every step may fail, and a crash may follow any of them. */
module FileTree {
  import opened Wrappers
  import opened Text

  type Bytes = string

  /** An absolute path as its component names. */
  type Path = seq<string>

  /** A symbolic link holds the absolute path it leads to. */
  datatype Entry = Dir | File(bytes: Bytes) | Symlink(target: Path)

  type Tree = map<Path, Entry>

  predicate Proper(name: string) {
    name != "" && name != "." && name != ".." && '/' !in name
  }

  predicate ProperPath(p: Path) {
    forall name | name in p :: Proper(name)
  }

  function Parent(p: Path): Path {
    if p == [] then [] else p[..|p| - 1]
  }

  predicate IsDir(t: Tree, p: Path) {
    p in t && t[p] == Dir
  }

  predicate ProperEntry(e: Entry) {
    e.Symlink? ==> ProperPath(e.target)
  }

  /** The root is a directory, names are proper, and everything else sits in a directory. */
  ghost predicate WellFormed(t: Tree) {
    && IsDir(t, [])
    && (forall p | p in t :: ProperPath(p) && ProperEntry(t[p]))
    && (forall p {:trigger Parent(p)} | p in t && p != [] :: IsDir(t, Parent(p)))
  }

  // ----- Following symbolic links

  /** As many links as Linux follows in one path. */
  const MAX_LINKS := 40

  /** Where a path leads: to an entry that is no link; to a first name that is not there, with what
      would come after it; or nowhere, through a file or too many links. */
  datatype Lead = Reaches(path: Path) | Missing(path: Path, rest: Path) | Blocked

  function Follow(t: Tree, at: Path, rest: Path, links: nat): Lead
    decreases links, |rest|
  {
    if rest == [] then Reaches(at)
    else
      var next := at + [rest[0]];
      if next !in t then Missing(next, rest[1..])
      else
        match t[next]
        case Dir => Follow(t, next, rest[1..], links)
        case File(_) => if |rest| == 1 then Reaches(next) else Blocked
        case Symlink(target) => if links == 0 then Blocked else Follow(t, [], target + rest[1..], links - 1)
  }

  /** Where a path leads from the root. */
  function LeadOf(t: Tree, p: Path): Lead {
    Follow(t, [], p, MAX_LINKS)
  }

  /** `Path::exists`, which follows links. */
  predicate Exists(t: Tree, p: Path) {
    LeadOf(t, p).Reaches?
  }

  /** Directories lead to themselves. */
  lemma {:induction false} DirectoriesLead(t: Tree, p: Path, n: nat, links: nat)
    requires n <= |p| && forall i | n < i <= |p| :: IsDir(t, p[..i])
    ensures Follow(t, p[..n], p[n..], links) == Reaches(p)
    decreases |p| - n
  {
    if n < |p| {
      assert p[..n] + [p[n]] == p[..n + 1] && p[n..][1..] == p[n + 1..];
      DirectoriesLead(t, p, n + 1, links);
    } else {
      assert p[..n] == p;
    }
  }

  lemma DirectoryLeads(t: Tree, p: Path)
    requires WellFormed(t) && IsDir(t, p)
    ensures LeadOf(t, p) == Reaches(p)
  {
    forall i | 0 < i <= |p| ensures IsDir(t, p[..i]) {
      AncestorIsDir(t, p, i);
      assert i == |p| ==> p[..i] == p;
    }
    assert p[..0] == [] && p[0..] == p;
    DirectoriesLead(t, p, 0, MAX_LINKS);
  }

  /** A name that is not there, in a directory, is the first that is missing. */
  lemma {:induction false} AbsentLeads(t: Tree, p: Path, n: nat, links: nat)
    requires n < |p| && p !in t && forall i | n < i < |p| :: IsDir(t, p[..i])
    ensures Follow(t, p[..n], p[n..], links) == Missing(p, [])
    decreases |p| - n
  {
    assert p[..n] + [p[n]] == p[..n + 1] && p[n..][1..] == p[n + 1..];
    if n + 1 < |p| {
      AbsentLeads(t, p, n + 1, links);
    } else {
      assert p[..n + 1] == p;
    }
  }

  lemma AbsentIsMissing(t: Tree, p: Path)
    requires WellFormed(t) && p != [] && p !in t && IsDir(t, Parent(p))
    ensures LeadOf(t, p) == Missing(p, [])
  {
    forall i | 0 < i < |p| ensures IsDir(t, p[..i]) {
      AncestorIsDir(t, Parent(p), i);
      assert Parent(p)[..i] == p[..i];
      assert i == |p| - 1 ==> p[..i] == Parent(p);
    }
    assert p[..0] == [] && p[0..] == p;
    AbsentLeads(t, p, 0, MAX_LINKS);
  }

  /** Changes below a root that is not the first missing name change nothing about where a path
      leads, as long as it leads nowhere yet. */
  lemma {:induction false} LeadKept(t: Tree, t': Tree, root: Path, at: Path, rest: Path, links: nat)
    requires WellFormed(t) && Confined(t, t', root) && root !in t && at in t
    requires var lead := Follow(t, at, rest, links); !lead.Reaches? && (lead.Missing? ==> lead.path != root)
    ensures Follow(t', at, rest, links) == Follow(t, at, rest, links)
    decreases links, |rest|
  {
    NothingBelowAbsent(t, root);
    var next := at + [rest[0]];
    if next in t {
      match t[next]
      case Dir => LeadKept(t, t', root, next, rest[1..], links);
      case File(_) =>
      case Symlink(target) =>
        if links > 0 {
          LeadKept(t, t', root, [], target + rest[1..], links - 1);
        }
    } else {
      assert root < next ==> root <= at;
    }
  }

  /** If it is the first missing name, directories put there and on the way are where the path leads. */
  lemma {:induction false} LeadOpened(t: Tree, t': Tree, root: Path, at: Path, rest: Path, links: nat, tail: Path)
    requires WellFormed(t) && Confined(t, t', root) && root !in t && at in t
    requires Follow(t, at, rest, links) == Missing(root, tail)
    requires forall i | 0 <= i <= |tail| :: IsDir(t', root + tail[..i])
    ensures Follow(t', at, rest, links) == Reaches(root + tail)
    decreases links, |rest|
  {
    NothingBelowAbsent(t, root);
    var next := at + [rest[0]];
    if next in t {
      match t[next]
      case Dir => LeadOpened(t, t', root, next, rest[1..], links, tail);
      case Symlink(target) => LeadOpened(t, t', root, [], target + rest[1..], links - 1, tail);
    } else {
      var whole := root + tail;
      assert root + tail[..0] == root && IsDir(t', next);
      forall i | |root| < i <= |whole| ensures IsDir(t', whole[..i]) {
        assert whole[..i] == root + tail[..i - |root|];
      }
      assert whole[..|root|] == root && whole[|root|..] == tail;
      DirectoriesLead(t', whole, |root|, links);
    }
  }

  /** What is missing after the first missing name is proper. */
  lemma {:induction false} MissingProper(t: Tree, at: Path, rest: Path, links: nat)
    requires WellFormed(t) && ProperPath(rest) && Follow(t, at, rest, links).Missing?
    ensures ProperPath(Follow(t, at, rest, links).rest)
    decreases links, |rest|
  {
    var next := at + [rest[0]];
    if next in t {
      match t[next]
      case Dir => MissingProper(t, next, rest[1..], links);
      case Symlink(target) => MissingProper(t, [], target + rest[1..], links - 1);
    }
  }

  /** What lies at and below a path, as a tree of its own. */
  function Below(t: Tree, root: Path): Tree {
    var names := set p | p in t && root <= p :: p[|root|..];
    map q | q in names && root + q in t :: t[root + q]
  }

  lemma BelowAt(t: Tree, root: Path, q: Path)
    ensures q in Below(t, root) <==> root + q in t
    ensures q in Below(t, root) ==> Below(t, root)[q] == t[root + q]
  {
    assert root <= root + q && (root + q)[|root|..] == q;
  }

  /** A tree of its own, put in place at a path. */
  function Raised(sub: Tree, root: Path): Tree {
    var paths := set q | q in sub :: root + q;
    map p | p in paths && p[|root|..] in sub :: sub[p[|root|..]]
  }

  lemma RaisedAt(sub: Tree, root: Path, p: Path)
    ensures p in Raised(sub, root) <==> root <= p && p[|root|..] in sub
    ensures p in Raised(sub, root) ==> Raised(sub, root)[p] == sub[p[|root|..]]
  {
    if root <= p {
      assert p == root + p[|root|..];
    }
    if q :| q in sub && root + q == p {
      assert p[|root|..] == q;
    }
  }

  /** The tree without anything at or below a path. */
  function Without(t: Tree, root: Path): Tree {
    map p | p in t && !(root <= p) :: t[p]
  }

  /** The tree after a directory has been moved to a path where nothing was. */
  function Moved(t: Tree, from: Path, to: Path): Tree {
    Without(t, from) + Raised(Below(t, from), to)
  }

  /** Each path of a moved tree: below the new place, what was below the old one; elsewhere, what
      was there, unless it was moved away. */
  lemma MovedAt(t: Tree, from: Path, to: Path, p: Path)
    requires forall p | p in t :: !(to <= p)
    ensures to <= p ==> (p in Moved(t, from, to) <==> from + p[|to|..] in t)
                        && (p in Moved(t, from, to) ==> Moved(t, from, to)[p] == t[from + p[|to|..]])
    ensures !(to <= p) ==> (p in Moved(t, from, to) <==> p in t && !(from <= p))
                           && (p in Moved(t, from, to) ==> Moved(t, from, to)[p] == t[p])
  {
    RaisedAt(Below(t, from), to, p);
    if to <= p {
      BelowAt(t, from, p[|to|..]);
    }
  }

  /** What was below the old place is what is below the new one. */
  lemma MovedBelow(t: Tree, from: Path, to: Path)
    requires forall p | p in t :: !(to <= p)
    ensures Below(Moved(t, from, to), to) == Below(t, from)
  {
    var m := Moved(t, from, to);
    forall q ensures (q in Below(m, to) <==> q in Below(t, from))
                     && (q in Below(m, to) ==> Below(m, to)[q] == Below(t, from)[q])
    {
      BelowAt(m, to, q);
      BelowAt(t, from, q);
      assert to <= to + q && (to + q)[|to|..] == q;
      MovedAt(t, from, to, to + q);
    }
  }

  // ----- What one step may change

  /** Nothing outside root differs. */
  ghost predicate Confined(t: Tree, t': Tree, root: Path) {
    forall p | !(root <= p) :: (p in t <==> p in t') && (p in t ==> t'[p] == t[p])
  }

  lemma ConfinedTransitive(t: Tree, t': Tree, t'': Tree, root: Path)
    requires Confined(t, t', root) && Confined(t', t'', root)
    ensures Confined(t, t'', root)
  {
  }

  /** Entries at or below root may be gone; nothing else differs. */
  ghost predicate Pruned(t: Tree, t': Tree, root: Path) {
    Confined(t, t', root) && forall p | p in t' :: p in t
  }

  /** Nothing is at or below root. */
  predicate NothingBelow(t: Tree, root: Path) {
    forall p | p in t :: !(root <= p)
  }

  /** Only the one entry differs. */
  ghost predicate WrittenAt(t: Tree, t': Tree, at: Path) {
    forall p | p != at :: (p in t <==> p in t') && (p in t ==> t'[p] == t[p])
  }

  /** Only directories were added, each below root and on the way to the destination. */
  ghost predicate DirsAdded(t: Tree, t': Tree, root: Path, destination: Path) {
    && (forall p | p in t :: p in t' && t'[p] == t[p])
    && (forall p | p in t' && p !in t :: t'[p] == Dir && root < p <= destination)
  }

  lemma MovedWellFormed(t: Tree, from: Path, to: Path)
    requires WellFormed(t) && from != [] && to != [] && from in t && IsDir(t, Parent(to))
    requires ProperPath(to) && !(from <= to) && forall p | p in t :: !(to <= p)
    ensures WellFormed(Moved(t, from, to))
  {
    var m := Moved(t, from, to);
    MovedAt(t, from, to, []);
    forall p | p in m ensures ProperPath(p) && ProperEntry(m[p]) && (p != [] ==> IsDir(m, Parent(p))) {
      MovedEntry(t, from, to, p);
    }
  }

  lemma MovedEntry(t: Tree, from: Path, to: Path, p: Path)
    requires WellFormed(t) && from != [] && to != [] && from in t && IsDir(t, Parent(to))
    requires ProperPath(to) && !(from <= to) && forall p | p in t :: !(to <= p)
    requires p in Moved(t, from, to)
    ensures ProperPath(p) && ProperEntry(Moved(t, from, to)[p])
    ensures p != [] ==> IsDir(Moved(t, from, to), Parent(p))
  {
    MovedAt(t, from, to, p);
    MovedAt(t, from, to, Parent(p));
    if !(to <= p) {
      assert Parent(p) <= p;
    } else if p == to {
      assert !(to <= Parent(to)) && p[|to|..] == [];
      assert from <= Parent(to) ==> from <= to;
    } else {
      MovedInside(t, from, to, p[|to|..]);
    }
  }

  lemma MovedInside(t: Tree, from: Path, to: Path, q: Path)
    requires WellFormed(t) && ProperPath(to) && q != [] && from + q in t
    ensures ProperPath(to + q) && IsDir(t, from + Parent(q))
    ensures Parent(to + q) == to + Parent(q) && (to + Parent(q))[|to|..] == Parent(q)
  {
    assert forall name | name in q :: name in from + q;
    assert Parent(from + q) == from + Parent(q);
  }

  /** One write, or removal, at a destination. */
  function Written(t: Tree, destination: Path, entry: Option<Entry>): Tree {
    match entry
    case None => t - {destination}
    case Some(entry) => t[destination := entry]
  }

  lemma WrittenWellFormed(t: Tree, destination: Path, entry: Option<Entry>)
    requires WellFormed(t) && destination != [] && ProperPath(destination) && IsDir(t, Parent(destination))
    requires (entry.Some? ==> ProperEntry(entry.value)) && forall p | p in t :: !(destination < p)
    ensures var t' := Written(t, destination, entry);
            && WellFormed(t') && WrittenAt(t, t', destination) && IsDir(t', Parent(destination))
            && forall p | p in t' :: !(destination < p)
  {
    var t' := Written(t, destination, entry);
    forall p | p in t' && p != [] ensures ProperPath(p) && IsDir(t', Parent(p)) {
      assert Parent(p) < p;
    }
    assert Parent(destination) < destination;
  }

  /** One fetch that has returned: its destination, and the tree it left. */
  datatype Delivery = Delivery(destination: Path, tree: Tree)

  /** A mounted file system and, for reasoning about runs: every tree it has gone through, every
      fetch that has returned, and whether it, or the fetcher, has refused a step for reasons of its
      own. */
  class FileSystem {
    var tree: Tree
    ghost var history: seq<Tree>
    ghost var deliveries: seq<Delivery>
    ghost var refused: bool

    ghost predicate Valid()
      reads this
    {
      WellFormed(tree) && history != [] && history[|history| - 1] == tree
    }

    constructor ()
      ensures Valid() && tree == map[[] := Dir] && deliveries == [] && !refused
    {
      tree := map[[] := Dir];
      history := [map[[] := Dir]];
      deliveries := [];
      refused := false;
    }

    /** mkdir(2). */
    method MakeDirectory(path: Path) returns (ok: bool)
      requires Valid() && path != [] && ProperPath(path)
      modifies this`tree, this`history, this`refused
      ensures Valid()
      ensures ok ==> path !in old(tree) && tree == old(tree)[path := Dir] && history == old(history) + [tree]
      ensures !ok ==> tree == old(tree) && history == old(history)
      ensures !ok && !refused ==> path in tree || !IsDir(tree, Parent(path))
      ensures old(refused) ==> refused
    {
      var refuse: bool := *;
      refused := refused || refuse;
      ok := !refuse && path !in tree && IsDir(tree, Parent(path));
      if ok {
        tree := tree[path := Dir];
        history := history + [tree];
      }
    }

    /** rename(2) of a directory, to its own path or to one where there is no directory: it fails
        on a file or a link that is there, which is not followed. */
    method Rename(from: Path, to: Path) returns (ok: bool)
      requires Valid() && from != [] && to != [] && ProperPath(to) && |from| == |to|
      requires from == to || !IsDir(tree, to)
      modifies this`tree, this`history, this`refused
      ensures Valid()
      ensures ok ==> from in old(tree)
                     && (if from == to then tree == old(tree) && history == old(history)
                         else to !in old(tree) && tree == Moved(old(tree), from, to)
                              && history == old(history) + [tree])
      ensures !ok ==> tree == old(tree) && history == old(history)
      ensures !ok && !refused ==> from !in tree || (from != to && (to in tree || !IsDir(tree, Parent(to))))
      ensures old(refused) ==> refused
    {
      var refuse: bool := *;
      refused := refused || refuse;
      ok := !refuse && from in tree && (from == to || (to !in tree && IsDir(tree, Parent(to))));
      if ok && from != to {
        NothingBelowAbsent(tree, to);
        assert from <= to ==> from == to;
        MovedWellFormed(tree, from, to);
        tree := Moved(tree, from, to);
        history := history + [tree];
      }
    }

    /** Steps that leave the tree as it is: changing a mode, syncing a directory. */
    method Settle(path: Path) returns (ok: bool)
      modifies this`refused
      ensures ok ==> path in tree
      ensures !ok && !refused ==> path !in tree
      ensures old(refused) ==> refused
    {
      var refuse: bool := *;
      refused := refused || refuse;
      ok := !refuse && path in tree;
    }

    /** unlink(2) or rmdir(2) of some entry at or below a root that has nothing below it. */
    method RemoveLeaf(root: Path) returns (ok: bool)
      requires Valid() && root != [] && exists p | p in tree :: root <= p
      modifies this`tree, this`history, this`refused
      ensures Valid() && Pruned(old(tree), tree, root)
      ensures ok ==> |tree| < |old(tree)| && history == old(history) + [tree] && refused == old(refused)
      ensures !ok ==> tree == old(tree) && history == old(history) && refused
    {
      var refuse: bool := *;
      if refuse {
        refused := true;
        return false;
      }
      LeafExists(tree, root);
      var leaf :| leaf in tree && root <= leaf && forall p | p in tree :: !(leaf < p);
      RemovedLeaf(tree, leaf);
      tree := tree - {leaf};
      history := history + [tree];
      return true;
    }

    /** remove_dir_all: removes entries one at a time, leaves first, until none is left or a removal
        is refused. */
    method RemoveTree(root: Path)
      requires Valid() && root != []
      modifies this`tree, this`history, this`refused
      ensures Valid()
      ensures Pruned(old(tree), tree, root)
      ensures old(history) <= history
      ensures forall i | |old(history)| <= i < |history| :: Pruned(old(tree), history[i], root)
      ensures NothingBelow(old(tree), root) ==> tree == old(tree) && history == old(history)
      ensures !refused ==> NothingBelow(tree, root)
      ensures old(refused) ==> refused
    {
      while exists p | p in tree :: root <= p
        invariant Valid() && Pruned(old(tree), tree, root) && old(history) <= history
        invariant forall i | |old(history)| <= i < |history| :: Pruned(old(tree), history[i], root)
        invariant NothingBelow(old(tree), root) ==> tree == old(tree) && history == old(history)
        invariant old(refused) ==> refused
        decreases |tree|
      {
        ghost var t := tree;
        var ok := RemoveLeaf(root);
        if !ok {
          return;
        }
        PrunedTransitive(old(tree), t, tree, root);
      }
    }

    /** Any writes to one path, each a whole entry or its removal. */
    method WriteAll(destination: Path, writes: seq<Option<Entry>>)
      requires Valid() && destination != [] && ProperPath(destination)
      requires !IsDir(tree, destination) && IsDir(tree, Parent(destination))
      modifies this`tree, this`history
      ensures Valid() && WrittenAt(old(tree), tree, destination)
      ensures old(history) <= history
      ensures forall i | |old(history)| <= i < |history| :: WrittenAt(old(tree), history[i], destination)
    {
      NothingBelowNonDirectory(tree, destination);
      for i := 0 to |writes|
        invariant Valid() && IsDir(tree, Parent(destination)) && old(history) <= history
        invariant WrittenAt(old(tree), tree, destination)
        invariant forall p | p in tree :: !(destination < p)
        invariant forall i | |old(history)| <= i < |history| :: WrittenAt(old(tree), history[i], destination)
      {
        if writes[i].Some? && !ProperEntry(writes[i].value) {
          continue;
        }
        WrittenWellFormed(tree, destination, writes[i]);
        tree := Written(tree, destination, writes[i]);
        history := history + [tree];
      }
    }

    /** A fetcher given one destination: any number of writes there, complete or not, then a verdict. */
    method Fetch(destination: Path) returns (ok: bool)
      requires Valid() && destination != [] && ProperPath(destination)
      modifies this
      ensures Valid()
      ensures WrittenAt(old(tree), tree, destination)
      ensures deliveries == old(deliveries) + [Delivery(destination, tree)]
      ensures !ok ==> refused
      ensures old(refused) ==> refused
      ensures old(history) <= history
      ensures forall i | |old(history)| <= i < |history| :: WrittenAt(old(tree), history[i], destination)
    {
      var writes: seq<Option<Entry>> := *;
      if !IsDir(tree, destination) && IsDir(tree, Parent(destination)) {
        WriteAll(destination, writes);
      }
      ok := *;
      refused := refused || !ok;
      deliveries := deliveries + [Delivery(destination, tree)];
    }
  }

  /** Some entry at or below the root has nothing below it: the longest. */
  lemma LeafExists(t: Tree, root: Path)
    requires exists p | p in t :: root <= p
    ensures exists leaf | leaf in t :: root <= leaf && forall p | p in t :: !(leaf < p)
  {
    var paths := set p | p in t && root <= p;
    var start :| start in t && root <= start;
    assert start in paths;
    var leaf := Longest(paths, start);
    forall p | p in t && root <= p ensures !(leaf < p) {
      assert p in paths;
    }
    assert forall p | p in t && leaf < p :: root <= p;
  }

  lemma {:induction false} Longest(paths: set<Path>, start: Path) returns (longest: Path)
    requires start in paths
    ensures longest in paths && forall p | p in paths :: |p| <= |longest|
  {
    longest := start;
    if other :| other in paths && other != start {
      longest := Longest(paths - {start}, other);
      var rest := longest;
      if |rest| < |start| {
        longest := start;
      }
      forall p | p in paths ensures |p| <= |longest| {
        assert p == start || p in paths - {start};
      }
    }
  }

  lemma NothingBelowAbsent(t: Tree, p: Path)
    requires WellFormed(t) && p !in t
    ensures forall q | q in t :: !(p <= q)
  {
    forall q | q in t && |p| <= |q| ensures q[..|p|] != p {
      AncestorIsDir(t, q, |p|);
    }
  }

  /** Every proper ancestor of an entry is a directory. */
  lemma {:induction false} AncestorIsDir(t: Tree, q: Path, n: nat)
    requires WellFormed(t) && q in t && n <= |q|
    ensures q[..n] in t && (n < |q| ==> IsDir(t, q[..n]))
    decreases |q|
  {
    if n < |q| {
      AncestorIsDir(t, Parent(q), n);
      assert Parent(q)[..n] == q[..n];
      assert n == |q| - 1 ==> q[..n] == Parent(q);
    } else {
      assert q[..n] == q;
    }
  }

  lemma NothingBelowNonDirectory(t: Tree, p: Path)
    requires WellFormed(t) && !IsDir(t, p)
    ensures forall q | q in t :: !(p < q)
  {
    forall q | q in t && |p| < |q| ensures q[..|p|] != p {
      AncestorIsDir(t, q, |p|);
    }
  }

  lemma PrunedTransitive(t: Tree, t': Tree, t'': Tree, root: Path)
    requires Pruned(t, t', root) && Pruned(t', t'', root)
    ensures Pruned(t, t'', root)
  {
  }

  lemma RemovedLeaf(t: Tree, leaf: Path)
    requires WellFormed(t) && leaf in t && leaf != [] && forall p | p in t :: !(leaf < p)
    ensures WellFormed(t - {leaf})
  {
    forall p | p in t && p != leaf && p != [] ensures Parent(p) != leaf {
      assert Parent(p) < p;
    }
  }
}
