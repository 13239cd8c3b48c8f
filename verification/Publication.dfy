/** Fetching, checking and atomically publishing a catalog (src/repository.rs,
    sync_catalog_with_fetcher), over a file system in which every step may fail and a crash may
    follow any step. */
module Publication {
  import opened Wrappers
  import opened Text
  import opened Sorting
  import opened FileTree
  import opened Paths
  import opened Catalog
  import opened Repository

  const MAX_MANIFEST_BYTES := 4 * 1024 * 1024

  // ----- What is published

  predicate IsObject(a: Authority, e: Entry, o: RepositoryObject) {
    e.File? && |e.bytes| == o.size && a.reader.digest(e.bytes) == o.sha256
  }

  /** Each object of the manifest is a file of its listed size and digest, and nothing else is
      there but the directories on the way to them. */
  ghost predicate ExactObjects(a: Authority, m: RepositoryManifest, t: Tree) {
    && (forall o | o in m.objects :: Components(o.path) in t && IsObject(a, t[Components(o.path)], o))
    && (forall p | p in t :: p == [] || OnTheWay(m.objects, t[p], p))
  }

  ghost predicate OnTheWay(objects: seq<RepositoryObject>, e: Entry, p: Path) {
    (e.File? && exists o | o in objects :: p == Components(o.path))
    || (e == Dir && exists o | o in objects :: p < Components(o.path))
  }

  /** A tree that passed verification and holds exactly the manifest's objects, ten and two for each
      profile, each at a place of its own. */
  ghost predicate ExactSnapshot(a: Authority, m: RepositoryManifest, t: Tree) {
    && StagedCatalogHolds(a, m, t)
    && ExactObjects(a, m, t)
    && |m.objects| == 10 + 2 * |LockAt(a.reader, t, LOCK_PATH).value.profile|
    && PlacedApart(m)
  }

  /** A complete catalog: an exact snapshot whose index, profiles and lock are signed. */
  ghost predicate Complete(a: Authority, m: RepositoryManifest, t: Tree) {
    ExactSnapshot(a, m, t) && SignedCatalog(a, t)
  }

  // ----- The staging tree after some objects

  type Placement = RepositoryObject -> Path

  /** Where the program puts an object. */
  function Destination(stage: Path): Placement {
    (o: RepositoryObject) => stage + Components(o.path)
  }

  /** The last of the first k objects with a destination has its bytes there; and only those
      destinations and the directories on the way exist below the stage. */
  ghost predicate Staged(
    a: Authority, objects: seq<RepositoryObject>, k: nat, t: Tree, stage: Path, at: Placement)
    requires k <= |objects|
  {
    && IsDir(t, stage)
    && (forall i | 0 <= i < k && Latest(objects, i, k, at) ::
          at(objects[i]) in t && IsObject(a, t[at(objects[i])], objects[i]))
    && (forall p | p in t && stage < p :: StagedEntry(objects, k, t[p], p, at))
  }

  ghost predicate Latest(objects: seq<RepositoryObject>, i: nat, k: nat, at: Placement)
    requires i < k <= |objects|
  {
    forall j | i < j < k :: at(objects[j]) != at(objects[i])
  }

  predicate Fits(e: Entry, p: Path, destination: Path) {
    (e.File? && p == destination) || (e == Dir && p < destination)
  }

  ghost predicate StagedEntry(objects: seq<RepositoryObject>, k: nat, e: Entry, p: Path, at: Placement)
    requires k <= |objects|
  {
    exists i | 0 <= i < k :: Fits(e, p, at(objects[i]))
  }

  /** What staging one object does to the tree. */
  ghost predicate StagedOne(a: Authority, o: RepositoryObject, t: Tree, t': Tree, stage: Path, destination: Path) {
    && stage < destination
    && destination in t' && IsObject(a, t'[destination], o)
    && (forall p | p in t && p != destination :: p in t' && t'[p] == t[p])
    && (forall p | p in t' && p !in t && p != destination :: t'[p] == Dir && p < destination)
  }

  lemma StagedStep(
    a: Authority, objects: seq<RepositoryObject>, k: nat, t: Tree, t': Tree, stage: Path, at: Placement)
    requires k < |objects| && Staged(a, objects, k, t, stage, at)
    requires StagedOne(a, objects[k], t, t', stage, at(objects[k]))
    ensures Staged(a, objects, k + 1, t', stage, at)
  {
    forall i | 0 <= i < k + 1 && Latest(objects, i, k + 1, at)
      ensures at(objects[i]) in t' && IsObject(a, t'[at(objects[i])], objects[i])
    {
      if i < k {
        assert Latest(objects, i, k, at);
        assert at(objects[k]) != at(objects[i]);
      }
    }
    forall p | p in t' && stage < p ensures StagedEntry(objects, k + 1, t'[p], p, at) {
      if p == at(objects[k]) || p !in t {
        assert Fits(t'[p], p, at(objects[k]));
      } else {
        assert StagedEntry(objects, k, t[p], p, at);
        var i :| 0 <= i < k && Fits(t[p], p, at(objects[i]));
        assert Fits(t'[p], p, at(objects[i]));
      }
    }
  }

  ghost predicate PlacedApart(m: RepositoryManifest) {
    forall i, j | 0 <= i < j < |m.objects| :: Components(m.objects[i].path) != Components(m.objects[j].path)
  }

  lemma VerifiedDestinations(a: Authority, m: RepositoryManifest, t: Tree)
    requires ValidManifest(m) && WellFormed(t) && StagedCatalogHolds(a, m, t)
    ensures PlacedApart(m) && |m.objects| == 10 + 2 * |LockAt(a.reader, t, LOCK_PATH).value.profile|
  {
    forall i, j | 0 <= i < j < |m.objects| ensures Components(m.objects[i].path) != Components(m.objects[j].path) {
      DestinationsDistinct(a, m, t, i, j);
    }
    SnapshotSize(a, m, t);
  }

  lemma StagedObject(a: Authority, m: RepositoryManifest, t: Tree, stage: Path, i: nat)
    requires PlacedApart(m) && Staged(a, m.objects, |m.objects|, t, stage, Destination(stage)) && i < |m.objects|
    ensures var (p, sub) := (Components(m.objects[i].path), Below(t, stage));
            p in sub && IsObject(a, sub[p], m.objects[i])
  {
    var p := Components(m.objects[i].path);
    forall j | i < j < |m.objects|
      ensures Destination(stage)(m.objects[j]) != Destination(stage)(m.objects[i])
    {
      var q := Components(m.objects[j].path);
      assert (stage + q)[|stage|..] == q && (stage + p)[|stage|..] == p;
    }
    assert Latest(m.objects, i, |m.objects|, Destination(stage));
    BelowAt(t, stage, p);
  }

  lemma FitsBelow(e: Entry, stage: Path, p: Path, q: Path)
    requires Fits(e, stage + p, stage + q)
    ensures Fits(e, p, q)
  {
    assert (stage + p)[|stage|..] == p && (stage + q)[|stage|..] == q;
  }

  lemma StagedNothingElse(a: Authority, m: RepositoryManifest, t: Tree, stage: Path, p: Path)
    requires Staged(a, m.objects, |m.objects|, t, stage, Destination(stage))
    requires p in Below(t, stage) && p != []
    ensures OnTheWay(m.objects, Below(t, stage)[p], p)
  {
    BelowAt(t, stage, p);
    var e, whole := t[stage + p], stage + p;
    assert stage < whole;
    assert StagedEntry(m.objects, |m.objects|, e, whole, Destination(stage));
    var i :| 0 <= i < |m.objects| && Fits(e, whole, Destination(stage)(m.objects[i]));
    FitsBelow(e, stage, p, Components(m.objects[i].path));
    assert m.objects[i] in m.objects;
  }

  lemma StagedIsExact(a: Authority, m: RepositoryManifest, t: Tree, stage: Path)
    requires PlacedApart(m) && Staged(a, m.objects, |m.objects|, t, stage, Destination(stage))
    ensures ExactObjects(a, m, Below(t, stage))
  {
    var sub := Below(t, stage);
    forall o | o in m.objects ensures Components(o.path) in sub && IsObject(a, sub[Components(o.path)], o) {
      var i :| 0 <= i < |m.objects| && m.objects[i] == o;
      StagedObject(a, m, t, stage, i);
    }
    forall p | p in sub && p != [] ensures OnTheWay(m.objects, sub[p], p) {
      StagedNothingElse(a, m, t, stage, p);
    }
  }

  /** In retrospect, no fetch overwrote an earlier one: once the staged tree verifies, every
      object is the latest at its destination. */
  lemma VerifiedStageIsExact(a: Authority, m: RepositoryManifest, t: Tree, stage: Path)
    requires ValidManifest(m) && Staged(a, m.objects, |m.objects|, t, stage, Destination(stage))
    requires WellFormed(Below(t, stage)) && StagedCatalogHolds(a, m, Below(t, stage))
    ensures ExactSnapshot(a, m, Below(t, stage))
  {
    VerifiedDestinations(a, m, Below(t, stage));
    StagedIsExact(a, m, t, stage);
  }

  lemma VerifiedStageIsComplete(a: Authority, m: RepositoryManifest, t: Tree, stage: Path)
    requires ValidManifest(m) && Staged(a, m.objects, |m.objects|, t, stage, Destination(stage))
    requires WellFormed(Below(t, stage)) && StagedCatalogHolds(a, m, Below(t, stage))
    ensures Complete(a, m, Below(t, stage))
  {
    VerifiedStageIsExact(a, m, t, stage);
    VerifiedIsSigned(a, m, Below(t, stage));
  }

  lemma BelowWellFormed(t: Tree, root: Path)
    requires WellFormed(t) && IsDir(t, root)
    ensures WellFormed(Below(t, root))
  {
    var sub := Below(t, root);
    BelowAt(t, root, []);
    assert root + [] == root;
    forall p | p in sub ensures ProperPath(p) && (p != [] ==> IsDir(sub, Parent(p))) {
      BelowAt(t, root, p);
      assert forall name | name in p :: name in root + p;
      if p != [] {
        assert Parent(root + p) == root + Parent(p);
        BelowAt(t, root, Parent(p));
      }
    }
  }

  // ----- Steps on the file system

  /** Every tree the file system has gone through since its n-th differs from t only below the stage. */
  ghost predicate ConfinedSince(history: seq<Tree>, n: nat, t: Tree, stage: Path) {
    forall i | n <= i < |history| :: Confined(t, history[i], stage)
  }

  lemma ConfinedLater(history: seq<Tree>, history': seq<Tree>, n: nat, t: Tree, t': Tree, stage: Path)
    requires n <= |history| <= |history'| && history <= history'
    requires ConfinedSince(history, n, t, stage) && Confined(t, t', stage)
    requires ConfinedSince(history', |history|, t', stage)
    ensures ConfinedSince(history', n, t, stage)
  {
    forall i | n <= i < |history'| ensures Confined(t, history'[i], stage) {
      if i < |history| {
        assert history'[i] == history[i];
      } else {
        ConfinedTransitive(t, t', history'[i], stage);
      }
    }
  }

  /** Something other than a directory is in the way. */
  ghost predicate Obstructed(t: Tree, root: Path, destination: Path) {
    exists p | p in t :: root < p <= destination && t[p] != Dir
  }

  /** create_private_tree: make the missing directories between a root and a destination. */
  method CreatePrivateTree(fs: FileSystem, root: Path, destination: Path) returns (error: Option<RepositoryError>)
    requires fs.Valid() && ProperPath(destination)
    modifies fs`tree, fs`history, fs`refused
    ensures fs.Valid() && old(fs.history) <= fs.history
    ensures DirsAdded(old(fs.tree), fs.tree, root, destination)
    ensures ConfinedSince(fs.history, |old(fs.history)|, old(fs.tree), root)
    ensures error == None ==> root <= destination && (root < destination ==> IsDir(fs.tree, destination))
    ensures error.Some? && !fs.refused ==>
              !(root <= destination) || !IsDir(old(fs.tree), root) || Obstructed(old(fs.tree), root, destination)
    ensures old(fs.refused) ==> fs.refused
  {
    if !(root <= destination) {
      return Some(RepositoryError.Invalid);
    }
    var relative := destination[|root|..];
    var current := root;
    for i := 0 to |relative|
      invariant fs.Valid() && old(fs.history) <= fs.history
      invariant current == destination[..|root| + i] && (old(fs.refused) ==> fs.refused)
      invariant IsDir(old(fs.tree), root) ==> IsDir(fs.tree, current)
      invariant DirsAdded(old(fs.tree), fs.tree, root, destination)
      invariant ConfinedSince(fs.history, |old(fs.history)|, old(fs.tree), root)
      invariant i > 0 ==> IsDir(fs.tree, current)
    {
      current := current + [relative[i]];
      assert current == destination[..|root| + i + 1] && root < current <= destination;
      if current in fs.tree {
        if fs.tree[current] != Dir {
          assert current in old(fs.tree);
          return Some(RepositoryError.Invalid);
        }
      } else {
        assert forall name | name in current :: name in destination;
        assert Parent(current) == destination[..|root| + i];
        ghost var t, h := fs.tree, fs.history;
        var ok := fs.MakeDirectory(current);
        DirectoryMade(old(fs.tree), t, fs.tree, h, fs.history, |old(fs.history)|, root, current, destination);
        if !ok {
          return Some(RepositoryError.Io);
        }
      }
    }
    assert current == destination;
    return None;
  }

  lemma DirectoryMade(
    t0: Tree, t: Tree, t': Tree, h: seq<Tree>, h': seq<Tree>, n: nat, root: Path, current: Path, destination: Path)
    requires DirsAdded(t0, t, root, destination) && ConfinedSince(h, n, t0, root)
    requires (t' == t && h' == h) || (current !in t && t' == t[current := Dir] && h' == h + [t'])
    requires root < current <= destination
    ensures DirsAdded(t0, t', root, destination) && ConfinedSince(h', n, t0, root)
    ensures forall p | IsDir(t, p) :: IsDir(t', p)
  {
    forall i | n <= i < |h'| ensures Confined(t0, h'[i], root) {
      if i < |h| {
        assert h'[i] == h[i];
      }
    }
  }

  // ----- What the fetches of a run deliver

  /** What lies at the destination when a fetch returns is the object. */
  ghost predicate RightAt(a: Authority, o: RepositoryObject, d: Delivery) {
    d.destination in d.tree && IsObject(a, d.tree[d.destination], o)
  }

  /** One fetch for each of the first objects, each to its object's place. */
  ghost predicate Logged(m: RepositoryManifest, stage: Path, log: seq<Delivery>) {
    |log| <= |m.objects|
    && forall k | 0 <= k < |log| :: log[k].destination == stage + Components(m.objects[k].path)
  }

  ghost predicate AllRight(a: Authority, m: RepositoryManifest, log: seq<Delivery>) {
    |log| <= |m.objects| && forall k | 0 <= k < |log| :: RightAt(a, m.objects[k], log[k])
  }

  /** Every object was delivered, and what the last fetch left at the stage verifies. */
  ghost predicate Delivered(a: Authority, m: RepositoryManifest, stage: Path, log: seq<Delivery>) {
    && |log| == |m.objects| > 0 && AllRight(a, m, log)
    && StagedCatalogHolds(a, m, Below(log[|log| - 1].tree, stage))
  }

  /** Each object has a place, and none lies below the place of an earlier one. */
  predicate Placeable(m: RepositoryManifest) {
    && (forall o | o in m.objects :: Components(o.path) != [])
    && (forall i, j | 0 <= i < j < |m.objects| ::
          !(Components(m.objects[i].path) < Components(m.objects[j].path)))
  }

  /** The directories above the object's place are there or can be made. */
  ghost predicate Preparable(o: RepositoryObject, t: Tree, stage: Path) {
    && SafeRelative(o.path).Some? && Components(o.path) != []
    && forall p | p in t && stage < p < stage + Components(o.path) :: t[p] == Dir
  }

  lemma NotPrepared(t: Tree, stage: Path, o: RepositoryObject)
    requires IsDir(t, stage) && SafeRelative(o.path).Some?
    requires var place := Parent(Destination(stage)(o));
             !(stage <= place) || !IsDir(t, stage) || Obstructed(t, stage, place)
    ensures !Preparable(o, t, stage)
  {
    var destination := stage + Components(o.path);
    if Components(o.path) != [] {
      assert stage <= Parent(destination) < destination;
    }
  }

  lemma PlaceablePrepares(a: Authority, m: RepositoryManifest, k: nat, t: Tree, stage: Path)
    requires ValidManifest(m) && Placeable(m) && k < |m.objects|
    requires Staged(a, m.objects, k, t, stage, Destination(stage))
    ensures Preparable(m.objects[k], t, stage)
  {
    assert m.objects[k] in m.objects;
    var place := stage + Components(m.objects[k].path);
    forall p | p in t && stage < p < place ensures t[p] == Dir {
      assert StagedEntry(m.objects, k, t[p], p, Destination(stage));
      var i :| 0 <= i < k && Fits(t[p], p, Destination(stage)(m.objects[i]));
      PrefixBelow(stage, Components(m.objects[i].path), Components(m.objects[k].path));
    }
  }

  lemma PrefixBelow(root: Path, p: Path, q: Path)
    ensures root + p < root + q <==> p < q
  {
    assert (root + p)[|root|..] == p && (root + q)[|root|..] == q;
    assert root + p < root + q ==> (root + q)[..|root + p|][|root|..] == q[..|p|];
    assert p < q ==> (root + q)[..|root + p|] == root + q[..|p|];
  }

  /** Where every object is a file, none lies below another. */
  lemma ExactIsPlaceable(a: Authority, m: RepositoryManifest, t: Tree)
    requires WellFormed(t) && ExactObjects(a, m, t)
    ensures Placeable(m)
  {
    forall i, j | 0 <= i < j < |m.objects| ensures !(Components(m.objects[i].path) < Components(m.objects[j].path)) {
      var (o, p) := (m.objects[i], Components(m.objects[j].path));
      assert o in m.objects && m.objects[j] in m.objects;
      assert Components(o.path) < p ==> p[..|Components(o.path)|] == Components(o.path);
      if Components(o.path) < p {
        AncestorIsDir(t, p, |Components(o.path)|);
      }
    }
  }

  /** Stage one object: make its directories, have it fetched, and check what arrived. */
  method StageObject(a: Authority, fs: FileSystem, stage: Path, o: RepositoryObject)
    returns (error: Option<RepositoryError>)
    requires fs.Valid() && ProperPath(stage) && stage != [] && IsDir(fs.tree, stage)
    modifies fs
    ensures fs.Valid() && old(fs.history) <= fs.history
    ensures Confined(old(fs.tree), fs.tree, stage)
    ensures ConfinedSince(fs.history, |old(fs.history)|, old(fs.tree), stage)
    ensures fs.deliveries == old(fs.deliveries)
            || fs.deliveries == old(fs.deliveries) + [Delivery(Destination(stage)(o), fs.tree)]
    ensures error == None ==> StagedOne(a, o, old(fs.tree), fs.tree, stage, Destination(stage)(o))
                              && fs.deliveries != old(fs.deliveries)
    ensures error.Some? && !fs.refused ==>
              if fs.deliveries == old(fs.deliveries) then !Preparable(o, old(fs.tree), stage)
              else !RightAt(a, o, Delivery(Destination(stage)(o), fs.tree))
    ensures old(fs.refused) ==> fs.refused
  {
    var relative := SafeRelative(o.path);
    if relative == None {
      return Some(RepositoryError.Invalid);
    }
    ComponentsProper(o.path);
    var destination := stage + relative.value;
    error := CreatePrivateTree(fs, stage, Parent(destination));
    if error.Some? {
      if !fs.refused {
        NotPrepared(old(fs.tree), stage, o);
      }
      return;
    }
    ghost var prepared, before := fs.tree, fs.history;
    error := FetchObject(a, fs, stage, o, destination);
    ConfinedOn(before, fs.history, |old(fs.history)|, old(fs.tree), prepared, fs.tree, stage);
  }

  method FetchObject(a: Authority, fs: FileSystem, stage: Path, o: RepositoryObject, destination: Path)
    returns (error: Option<RepositoryError>)
    requires fs.Valid() && SafeRelative(o.path).Some? && ProperPath(destination)
    requires stage < destination && destination == Destination(stage)(o)
    modifies fs
    ensures fs.Valid() && old(fs.history) <= fs.history
    ensures WrittenAt(old(fs.tree), fs.tree, destination)
    ensures ConfinedSince(fs.history, |old(fs.history)|, old(fs.tree), stage)
    ensures fs.deliveries == old(fs.deliveries) + [Delivery(destination, fs.tree)]
    ensures error == None ==> destination in fs.tree && IsObject(a, fs.tree[destination], o)
    ensures error.Some? && !fs.refused ==> !RightAt(a, o, Delivery(destination, fs.tree))
    ensures old(fs.refused) ==> fs.refused
  {
    var fetched := fs.Fetch(destination);
    if !fetched {
      return Some(RepositoryError.Download);
    }
    var bytes := ReadBounded(fs.tree, destination, o.size);
    if bytes == None || |bytes.value| != o.size || a.reader.digest(bytes.value) != o.sha256 {
      return Some(RepositoryError.Invalid);
    }
    var moded := fs.Settle(destination);
    if !moded {
      return Some(RepositoryError.Io);
    }
    return None;
  }

  lemma ConfinedOn(h: seq<Tree>, h': seq<Tree>, n: nat, t0: Tree, t: Tree, t': Tree, stage: Path)
    requires n <= |h| && h <= h' && ConfinedSince(h, n, t0, stage) && Confined(t0, t, stage)
    requires ConfinedSince(h', |h|, t, stage) && Confined(t, t', stage)
    ensures ConfinedSince(h', n, t0, stage) && Confined(t0, t', stage)
  {
    ConfinedLater(h, h', n, t0, t, stage);
    ConfinedTransitive(t0, t, t', stage);
  }

  /** What holds after each number of objects, of the tree and of the fetches so far. */
  type Progress = (nat, Tree, seq<Delivery>) -> bool

  ghost predicate Advances(staged: Progress, a: Authority, m: RepositoryManifest, stage: Path) {
    forall k: nat, t, t', log | k < |m.objects| && staged(k, t, log)
                                && StagedOne(a, m.objects[k], t, t', stage, Destination(stage)(m.objects[k])) ::
      staged(k + 1, t', log + [Delivery(Destination(stage)(m.objects[k]), t')])
  }

  /** Where the loop stopped: at which object, with which tree and which fetches before it. */
  datatype Stop = Stop(k: nat, before: Tree, sofar: seq<Delivery>)

  /** Why it stopped there, if nothing was refused: the object's directories could not be made, or
      what was fetched is not the object. */
  ghost predicate Stopped(
    a: Authority, m: RepositoryManifest, stage: Path, staged: Progress, stop: Stop, log: seq<Delivery>, t: Tree)
  {
    stop.k < |m.objects| && staged(stop.k, stop.before, stop.sofar) &&
    var o := m.objects[stop.k];
    var d := Delivery(Destination(stage)(o), t);
    if log == stop.sofar then !Preparable(o, stop.before, stage) else log == stop.sofar + [d] && !RightAt(a, o, d)
  }

  /** The loop over the objects. */
  method StageObjects(a: Authority, fs: FileSystem, m: RepositoryManifest, stage: Path, ghost staged: Progress)
    returns (error: Option<RepositoryError>, ghost log: seq<Delivery>, ghost stop: Stop)
    requires fs.Valid() && ProperPath(stage) && stage != [] && IsDir(fs.tree, stage)
    requires staged(0, fs.tree, []) && Advances(staged, a, m, stage)
    modifies fs
    ensures fs.Valid() && old(fs.history) <= fs.history
    ensures Confined(old(fs.tree), fs.tree, stage)
    ensures ConfinedSince(fs.history, |old(fs.history)|, old(fs.tree), stage)
    ensures fs.deliveries == old(fs.deliveries) + log
    ensures error == None ==> staged(|m.objects|, fs.tree, log)
    ensures error.Some? && !fs.refused ==> Stopped(a, m, stage, staged, stop, log, fs.tree)
    ensures old(fs.refused) ==> fs.refused
  {
    ghost var t0, n := fs.tree, |fs.history|;
    log, stop := [], Stop(0, fs.tree, []);
    for k := 0 to |m.objects|
      invariant fs.Valid() && old(fs.history) <= fs.history && IsDir(fs.tree, stage)
      invariant Confined(t0, fs.tree, stage) && ConfinedSince(fs.history, n, t0, stage)
      invariant staged(k, fs.tree, log) && fs.deliveries == old(fs.deliveries) + log
      invariant old(fs.refused) ==> fs.refused
    {
      ghost var h, d := fs.history, fs.deliveries;
      stop := Stop(k, fs.tree, log);
      error := StageObject(a, fs, stage, m.objects[k]);
      ConfinedOn(h, fs.history, n, t0, stop.before, fs.tree, stage);
      if fs.deliveries != d {
        log := log + [Delivery(Destination(stage)(m.objects[k]), fs.tree)];
      }
      if error.Some? {
        return;
      }
    }
    return None, log, stop;
  }

  ghost predicate StagedSoFar(
    a: Authority, m: RepositoryManifest, stage: Path, k: nat, t: Tree, log: seq<Delivery>)
  {
    && k <= |m.objects| && Staged(a, m.objects, k, t, stage, Destination(stage))
    && |log| == k && Logged(m, stage, log) && AllRight(a, m, log) && (log != [] ==> log[|log| - 1].tree == t)
  }

  ghost function StagedUpTo(a: Authority, m: RepositoryManifest, stage: Path): Progress {
    (k: nat, t: Tree, log: seq<Delivery>) => StagedSoFar(a, m, stage, k, t, log)
  }

  lemma LogStep(a: Authority, m: RepositoryManifest, stage: Path, log: seq<Delivery>, t: Tree)
    requires |log| < |m.objects| && Logged(m, stage, log) && AllRight(a, m, log)
    ensures var o := m.objects[|log|];
            var d := Delivery(Destination(stage)(o), t);
            Logged(m, stage, log + [d]) && (AllRight(a, m, log + [d]) <==> RightAt(a, o, d))
  {
    var o := m.objects[|log|];
    var more := log + [Delivery(Destination(stage)(o), t)];
    assert more[|log|] == Delivery(Destination(stage)(o), t);
  }

  lemma StagingStep(
    a: Authority, m: RepositoryManifest, stage: Path, k: nat, t: Tree, t': Tree, log: seq<Delivery>)
    requires k < |m.objects| && StagedUpTo(a, m, stage)(k, t, log)
    requires StagedOne(a, m.objects[k], t, t', stage, Destination(stage)(m.objects[k]))
    ensures StagedUpTo(a, m, stage)(k + 1, t', log + [Delivery(Destination(stage)(m.objects[k]), t')])
  {
    StagedStep(a, m.objects, k, t, t', stage, Destination(stage));
    LogStep(a, m, stage, log, t');
  }

  lemma StagingAdvances(a: Authority, m: RepositoryManifest, stage: Path)
    ensures Advances(StagedUpTo(a, m, stage), a, m, stage)
  {
    var (at, upTo) := (Destination(stage), StagedUpTo(a, m, stage));
    forall k: nat, t, t', log | k < |m.objects| && upTo(k, t, log)
                                && StagedOne(a, m.objects[k], t, t', stage, at(m.objects[k]))
      ensures upTo(k + 1, t', log + [Delivery(at(m.objects[k]), t')])
    {
      StagingStep(a, m, stage, k, t, t', log);
    }
  }

  lemma StagingStarts(a: Authority, m: RepositoryManifest, t: Tree, stage: Path)
    requires IsDir(t, stage) && forall p | p in t :: !(stage < p)
    ensures StagedUpTo(a, m, stage)(0, t, [])
  {
  }

  /** With placeable objects only a wrong delivery stops the loop. */
  lemma StoppedByDelivery(
    a: Authority, m: RepositoryManifest, stage: Path, stop: Stop, log: seq<Delivery>, t: Tree)
    requires ValidManifest(m) && Placeable(m) && Stopped(a, m, stage, StagedUpTo(a, m, stage), stop, log, t)
    ensures Logged(m, stage, log) && !AllRight(a, m, log)
  {
    assert StagedSoFar(a, m, stage, stop.k, stop.before, stop.sofar);
    PlaceablePrepares(a, m, stop.k, stop.before, stage);
    LogStep(a, m, stage, stop.sofar, t);
  }

  // ----- Publication

  /** Completeness for one manifest, as a test of trees. Most of what follows holds of any such test. */
  ghost function CompleteFor(a: Authority, m: RepositoryManifest): Tree -> bool {
    (t: Tree) => Complete(a, m, t)
  }

  /** The output and the stage are siblings: neither contains the other. */
  predicate Siblings(stage: Path, output: Path) {
    stage != [] && |stage| == |output| && Parent(stage) == Parent(output)
  }

  /** The tree after publication: what is at the output passed the test, nothing is left of the
      stage, and nothing else differs. */
  ghost predicate Placed(good: Tree -> bool, t0: Tree, t: Tree, stage: Path, output: Path) {
    && output != stage && output !in t0
    && IsDir(t, output) && good(Below(t, output)) && NothingBelow(t, stage)
    && forall p | !(stage <= p) && !(output <= p) :: (p in t <==> p in t0) && (p in t ==> t[p] == t0[p])
  }

  /** How a run goes since its n-th tree: each differs from the first below the stage only, except
      that the last may be a tree after publication. */
  ghost predicate Course(good: Tree -> bool, t0: Tree, h: seq<Tree>, n: nat, stage: Path, output: Path) {
    forall i | n <= i < |h| :: Confined(t0, h[i], stage) || (i == |h| - 1 && Placed(good, t0, h[i], stage, output))
  }

  lemma MovedLeavesNothing(t: Tree, stage: Path, output: Path)
    requires WellFormed(t) && output !in t && Siblings(stage, output) && stage != output
    ensures NothingBelow(Moved(t, stage, output), stage)
  {
    NothingBelowAbsent(t, output);
    forall p ensures p in Moved(t, stage, output) ==> !(stage <= p) {
      MovedAt(t, stage, output, p);
      assert stage <= p && output <= p ==> stage == output;
    }
  }

  lemma MovedElsewhere(t: Tree, stage: Path, output: Path, p: Path)
    requires WellFormed(t) && output !in t && !(stage <= p) && !(output <= p)
    ensures var t' := Moved(t, stage, output); (p in t' <==> p in t) && (p in t' ==> t'[p] == t[p])
  {
    NothingBelowAbsent(t, output);
    MovedAt(t, stage, output, p);
  }

  lemma MovedArrives(t: Tree, stage: Path, output: Path)
    requires WellFormed(t) && output !in t && IsDir(t, stage)
    ensures IsDir(Moved(t, stage, output), output)
  {
    NothingBelowAbsent(t, output);
    MovedAt(t, stage, output, output);
    assert stage + [] == stage && output[|output|..] == [];
  }

  lemma MovedIsPlaced(good: Tree -> bool, t0: Tree, t: Tree, stage: Path, output: Path)
    requires WellFormed(t) && Confined(t0, t, stage) && output !in t && Siblings(stage, output) && stage != output
    requires IsDir(t, stage) && good(Below(t, stage))
    ensures var t' := Moved(t, stage, output);
            Placed(good, t0, t', stage, output) && Below(t', output) == Below(t, stage)
  {
    var t' := Moved(t, stage, output);
    MovedLeavesNothing(t, stage, output);
    MovedArrives(t, stage, output);
    NothingBelowAbsent(t, output);
    MovedBelow(t, stage, output);
    assert !(stage <= output);
    forall p | !(stage <= p) && !(output <= p) ensures (p in t' <==> p in t0) && (p in t' ==> t'[p] == t0[p]) {
      MovedElsewhere(t, stage, output, p);
    }
  }

  /** Everything is staged; what verification accepts is then a complete catalog. */
  method VerifyStage(a: Authority, m: RepositoryManifest, t: Tree, stage: Path)
    returns (error: Option<RepositoryError>)
    requires WellFormed(t) && ValidManifest(m) && Staged(a, m.objects, |m.objects|, t, stage, Destination(stage))
    ensures error == None <==> StagedCatalogHolds(a, m, Below(t, stage))
    ensures error == None ==> CompleteFor(a, m)(Below(t, stage)) && Placeable(m)
  {
    BelowWellFormed(t, stage);
    var verified := VerifyStagedCatalog(a, m, Below(t, stage));
    if verified.Err? {
      return Some(verified.error);
    }
    VerifiedStageIsComplete(a, m, t, stage);
    ExactIsPlaceable(a, m, Below(t, stage));
    return None;
  }

  /** Sync the stage, rename it to the output, sync the parent. */
  method MoveIntoPlace(fs: FileSystem, stage: Path, output: Path) returns (error: Option<RepositoryError>)
    requires fs.Valid() && ProperPath(output) && Siblings(stage, output) && IsDir(fs.tree, stage)
    requires output == stage || !IsDir(fs.tree, output)
    modifies fs`tree, fs`history, fs`refused
    ensures fs.Valid()
    ensures if fs.tree == old(fs.tree) then fs.history == old(fs.history)
            else output != stage && output !in old(fs.tree) && fs.tree == Moved(old(fs.tree), stage, output)
                 && fs.history == old(fs.history) + [fs.tree]
    ensures error == None && output != stage ==> fs.tree != old(fs.tree)
    ensures error.Some? && !fs.refused ==> output != stage && output in fs.tree && fs.tree == old(fs.tree)
    ensures old(fs.refused) ==> fs.refused
  {
    assert Parent(stage) < stage;
    var synced := fs.Settle(stage);
    if !synced {
      return Some(RepositoryError.Io);
    }
    ghost var t := fs.tree;
    if output != stage && output !in t {
      MovedDiffers(t, stage, output);
    }
    var renamed := fs.Rename(stage, output);
    if !renamed {
      return Some(RepositoryError.Io);
    }
    if output != stage {
      MovedKeepsParent(t, stage, output);
    }
    synced := fs.Settle(Parent(output));
    if !synced {
      return Some(RepositoryError.Io);
    }
    return None;
  }

  lemma MovedDiffers(t: Tree, stage: Path, output: Path)
    requires WellFormed(t) && stage in t && output !in t
    ensures Moved(t, stage, output) != t
  {
    NothingBelowAbsent(t, output);
    MovedAt(t, stage, output, output);
    assert stage + [] == stage && output[|output|..] == [];
  }

  lemma MovedKeepsParent(t: Tree, stage: Path, output: Path)
    requires WellFormed(t) && stage in t && output !in t && Siblings(stage, output)
    ensures Parent(output) in Moved(t, stage, output)
  {
    NothingBelowAbsent(t, output);
    MovedAt(t, stage, output, Parent(output));
    assert !(output <= Parent(output)) && !(stage <= Parent(output));
  }

  /** Why publication of a placeable manifest fails, if nothing was refused. */
  ghost predicate NotPublished(
    a: Authority, m: RepositoryManifest, stage: Path, output: Path, t0: Tree, log: seq<Delivery>)
  {
    Logged(m, stage, log)
    && (!AllRight(a, m, log)
        || (|log| == |m.objects| > 0 && !StagedCatalogHolds(a, m, Below(log[|log| - 1].tree, stage)))
        || (output != stage && output in t0))
  }

  /** What a successful run leaves at the output. */
  ghost predicate Published(
    a: Authority, m: RepositoryManifest, stage: Path, output: Path, t: Tree, log: seq<Delivery>)
  {
    && Logged(m, stage, log) && Delivered(a, m, stage, log) && Placeable(m)
    && output in t && Below(t, output) == Below(log[|log| - 1].tree, stage) && CompleteFor(a, m)(Below(t, output))
    && (output != stage ==> NothingBelow(t, stage))
  }

  lemma CourseOf(good: Tree -> bool, t0: Tree, h: seq<Tree>, n: nat, stage: Path, output: Path)
    requires ConfinedSince(h, n, t0, stage)
    ensures Course(good, t0, h, n, stage, output)
  {
  }

  lemma CourseEnds(good: Tree -> bool, t0: Tree, h: seq<Tree>, n: nat, t: Tree, stage: Path, output: Path)
    requires ConfinedSince(h, n, t0, stage) && Placed(good, t0, t, stage, output)
    ensures Course(good, t0, h + [t], n, stage, output)
  {
    forall i | n <= i < |h| ensures Confined(t0, (h + [t])[i], stage) {
      assert (h + [t])[i] == h[i];
    }
  }

  /** Verify what is staged and move it into place. */
  method PublishVerified(
    a: Authority, fs: FileSystem, m: RepositoryManifest, stage: Path, output: Path,
    ghost t0: Tree, ghost n: nat, ghost log: seq<Delivery>)
    returns (error: Option<RepositoryError>)
    requires fs.Valid() && ValidManifest(m) && ProperPath(output) && Siblings(stage, output)
    requires Staged(a, m.objects, |m.objects|, fs.tree, stage, Destination(stage))
    requires output == stage || !IsDir(fs.tree, output)
    requires n <= |fs.history| && ConfinedSince(fs.history, n, t0, stage) && Confined(t0, fs.tree, stage)
    requires |log| == |m.objects| && Logged(m, stage, log) && AllRight(a, m, log) && log[|log| - 1].tree == fs.tree
    modifies fs`tree, fs`history, fs`refused
    ensures fs.Valid() && old(fs.history) <= fs.history
    ensures Course(CompleteFor(a, m), t0, fs.history, n, stage, output)
    ensures error == None ==> Published(a, m, stage, output, fs.tree, log)
    ensures error == None ==> output == stage || output !in t0
    ensures error.Some? ==> Confined(t0, fs.tree, stage) || (fs.refused && NothingBelow(fs.tree, stage))
    ensures error.Some? && !fs.refused ==> NotPublished(a, m, stage, output, t0, log)
    ensures old(fs.refused) ==> fs.refused
  {
    ghost var good, t, h := CompleteFor(a, m), fs.tree, fs.history;
    CourseOf(good, t0, h, n, stage, output);
    error := VerifyStage(a, m, fs.tree, stage);
    if error.Some? {
      return;
    }
    if output != stage && output !in t {
      MovedIsPlaced(good, t0, t, stage, output);
      CourseEnds(good, t0, h, n, Moved(t, stage, output), stage, output);
    }
    error := MoveIntoPlace(fs, stage, output);
  }

  /** Stage every object, verify the staged catalog, and rename it into place. */
  method PublishStage(a: Authority, fs: FileSystem, m: RepositoryManifest, stage: Path, output: Path)
    returns (error: Option<RepositoryError>, ghost log: seq<Delivery>)
    requires fs.Valid() && ValidManifest(m) && ProperPath(stage) && ProperPath(output)
    requires Siblings(stage, output) && (output == stage || !IsDir(fs.tree, output))
    requires IsDir(fs.tree, stage) && forall p | p in fs.tree :: !(stage < p)
    modifies fs
    ensures fs.Valid() && old(fs.history) <= fs.history
    ensures Course(CompleteFor(a, m), old(fs.tree), fs.history, |old(fs.history)|, stage, output)
    ensures fs.deliveries == old(fs.deliveries) + log
    ensures error == None ==> Published(a, m, stage, output, fs.tree, log)
    ensures error == None ==> output == stage || output !in old(fs.tree)
    ensures error.Some? ==> Confined(old(fs.tree), fs.tree, stage) || (fs.refused && NothingBelow(fs.tree, stage))
    ensures error.Some? && !fs.refused && Placeable(m) ==> NotPublished(a, m, stage, output, old(fs.tree), log)
    ensures old(fs.refused) ==> fs.refused
  {
    StagingStarts(a, m, fs.tree, stage);
    StagingAdvances(a, m, stage);
    ghost var stop;
    error, log, stop := StageObjects(a, fs, m, stage, StagedUpTo(a, m, stage));
    if error.Some? {
      CourseOf(CompleteFor(a, m), old(fs.tree), fs.history, |old(fs.history)|, stage, output);
      if !fs.refused && Placeable(m) {
        StoppedByDelivery(a, m, stage, stop, log, fs.tree);
      }
      return;
    }
    assert output != stage ==> !(stage <= output);
    error := PublishVerified(a, fs, m, stage, output, old(fs.tree), |old(fs.history)|, log);
  }

  lemma PrunedIsConfined(t0: Tree, t: Tree, t': Tree, stage: Path)
    requires Confined(t0, t, stage) && Pruned(t, t', stage)
    ensures Confined(t0, t', stage)
  {
  }

  lemma CoursePruned(
    good: Tree -> bool, t0: Tree, h: seq<Tree>, h': seq<Tree>, n: nat, t: Tree, stage: Path, output: Path)
    requires 0 < |h| && n <= |h| && h <= h' && h[|h| - 1] == t && Course(good, t0, h, n, stage, output)
    requires h' == h || Confined(t0, t, stage)
    requires forall i | |h| <= i < |h'| :: Pruned(t, h'[i], stage)
    ensures Course(good, t0, h', n, stage, output)
  {
    if h' != h {
      forall i | n <= i < |h'| ensures Confined(t0, h'[i], stage) {
        if i < |h| {
          assert h'[i] == h[i];
        } else {
          PrunedIsConfined(t0, t, h'[i], stage);
        }
      }
    }
  }

  /** On any error, the stage is removed as far as that is not refused. */
  method PublishOrRemove(a: Authority, fs: FileSystem, m: RepositoryManifest, stage: Path, output: Path)
    returns (r: Result<RepositoryManifest, RepositoryError>, ghost log: seq<Delivery>)
    requires fs.Valid() && ValidManifest(m) && ProperPath(stage) && ProperPath(output)
    requires Siblings(stage, output) && (output == stage || !IsDir(fs.tree, output))
    requires IsDir(fs.tree, stage) && forall p | p in fs.tree :: !(stage < p)
    modifies fs
    ensures fs.Valid() && old(fs.history) <= fs.history
    ensures Course(CompleteFor(a, m), old(fs.tree), fs.history, |old(fs.history)|, stage, output)
    ensures fs.deliveries == old(fs.deliveries) + log
    ensures r.Ok? ==> r.value == m && Published(a, m, stage, output, fs.tree, log)
    ensures r.Ok? ==> output == stage || output !in old(fs.tree)
    ensures r.Err? && !fs.refused ==> Confined(old(fs.tree), fs.tree, stage) && NothingBelow(fs.tree, stage)
    ensures r.Err? && !fs.refused && Placeable(m) ==> NotPublished(a, m, stage, output, old(fs.tree), log)
    ensures old(fs.refused) ==> fs.refused
  {
    var error;
    error, log := PublishStage(a, fs, m, stage, output);
    if error == None {
      return Ok(m), log;
    }
    ghost var good, t, h := CompleteFor(a, m), fs.tree, fs.history;
    fs.RemoveTree(stage);
    CoursePruned(good, old(fs.tree), h, fs.history, |old(fs.history)|, t, stage, output);
    return Err(error.value), log;
  }

  // ----- A whole run

  /** What a caller asks for, and the name the run gives its staging directory. */
  datatype Request = Request(manifest: Bytes, signature: string, output: Path, stageName: string)

  function StageOf(q: Request): Path {
    Parent(q.output) + [q.stageName]
  }

  /** What a run demands of its inputs, to be checked before the call. */
  predicate Publishable(a: Authority, q: Request, t: Tree) {
    && 0 < |q.manifest| <= MAX_MANIFEST_BYTES && a.acceptsManifest(q.manifest, q.signature)
    && a.parseManifest(q.manifest).Some? && ValidManifest(a.parseManifest(q.manifest).value)
    && Placeable(a.parseManifest(q.manifest).value)
    && q.output != [] && IsDir(t, Parent(q.output)) && q.output !in t && StageOf(q) !in t
  }

  /** Nothing differs but at and below the stage and, if nothing was there, the output. */
  ghost predicate Untouched(t0: Tree, t: Tree, q: Request) {
    forall p | !(StageOf(q) <= p) && (q.output <= p ==> q.output in t0) ::
      (p in t <==> p in t0) && (p in t ==> t[p] == t0[p])
  }

  /** Whoever opens the output finds nothing, or a complete catalog. */
  ghost predicate Shown(a: Authority, q: Request, t: Tree) {
    Exists(t, q.output) ==>
      a.parseManifest(q.manifest).Some?
      && Complete(a, a.parseManifest(q.manifest).value, Below(t, LeadOf(t, q.output).path))
  }

  /** Following the output's path, links included, the first name missing is that of the stage. */
  predicate LeadsToStage(t: Tree, q: Request) {
    LeadOf(t, q.output).Missing? && LeadOf(t, q.output).path == StageOf(q)
  }

  /** Once there is a directory at the output, nothing changes any more. */
  ghost predicate Stays(h: seq<Tree>, n: nat, output: Path) {
    forall i, j | n <= i <= j < |h| && IsDir(h[i], output) :: h[j] == h[i]
  }

  ghost predicate AlwaysUntouched(t0: Tree, h: seq<Tree>, n: nat, q: Request) {
    forall i | n <= i < |h| :: Untouched(t0, h[i], q)
  }

  ghost predicate AlwaysShown(a: Authority, q: Request, h: seq<Tree>, n: nat) {
    forall i | n <= i < |h| :: Shown(a, q, h[i])
  }

  /** What holds after every step of a run, wherever it stops. */
  ghost predicate SafeRun(a: Authority, q: Request, t0: Tree, h: seq<Tree>, n: nat) {
    && AlwaysUntouched(t0, h, n, q)
    && (!LeadsToStage(t0, q) ==> AlwaysShown(a, q, h, n))
    && (q.output != StageOf(q) ==> Stays(h, n, q.output))
  }

  /** The verdict on a publishable request when nothing was refused: every fetch goes to the place of
      its object, the fetches go on as long as the objects are right, and the run succeeds exactly
      when all were delivered and what they make verifies. */
  ghost predicate Verdict(a: Authority, m: RepositoryManifest, stage: Path, log: seq<Delivery>, ok: bool) {
    && Logged(m, stage, log)
    && (AllRight(a, m, log) ==> |log| == |m.objects|)
    && (ok <==> Delivered(a, m, stage, log))
  }

  lemma OutputShown(a: Authority, q: Request, t0: Tree, t: Tree)
    requires WellFormed(t0) && StageOf(q) !in t0 && !Exists(t0, q.output) && !LeadsToStage(t0, q)
    requires Confined(t0, t, StageOf(q))
    ensures Shown(a, q, t)
  {
    LeadKept(t0, t, StageOf(q), [], q.output, MAX_LINKS);
  }

  lemma PlacedShown(a: Authority, m: RepositoryManifest, q: Request, t0: Tree, t: Tree)
    requires WellFormed(t) && a.parseManifest(q.manifest) == Some(m)
    requires Placed(CompleteFor(a, m), t0, t, StageOf(q), q.output)
    ensures Shown(a, q, t)
  {
    DirectoryLeads(t, q.output);
  }

  lemma NotYetThere(t0: Tree, t: Tree, q: Request)
    requires WellFormed(t0) && !Exists(t0, q.output) && Confined(t0, t, StageOf(q))
    requires Siblings(StageOf(q), q.output) && q.output != StageOf(q)
    ensures !IsDir(t, q.output)
  {
    assert !(StageOf(q) <= q.output);
    if IsDir(t0, q.output) {
      DirectoryLeads(t0, q.output);
    }
  }

  lemma StepUntouched(good: Tree -> bool, q: Request, t0: Tree, t: Tree)
    requires Confined(t0, t, StageOf(q)) || Placed(good, t0, t, StageOf(q), q.output)
    ensures Untouched(t0, t, q)
  {
  }

  lemma StepShown(a: Authority, m: RepositoryManifest, q: Request, t0: Tree, t: Tree)
    requires WellFormed(t0) && StageOf(q) !in t0 && !Exists(t0, q.output) && !LeadsToStage(t0, q)
    requires a.parseManifest(q.manifest) == Some(m)
    requires Confined(t0, t, StageOf(q))
             || (WellFormed(t) && Placed(CompleteFor(a, m), t0, t, StageOf(q), q.output))
    ensures Shown(a, q, t)
  {
    if Confined(t0, t, StageOf(q)) {
      OutputShown(a, q, t0, t);
    } else {
      PlacedShown(a, m, q, t0, t);
    }
  }

  lemma CourseStays(good: Tree -> bool, q: Request, t0: Tree, h: seq<Tree>, n: nat)
    requires WellFormed(t0) && !Exists(t0, q.output)
    requires Siblings(StageOf(q), q.output) && q.output != StageOf(q)
    requires Course(good, t0, h, n, StageOf(q), q.output)
    ensures Stays(h, n, q.output)
  {
    forall i, j | n <= i <= j < |h| && IsDir(h[i], q.output) ensures h[j] == h[i] {
      if Confined(t0, h[i], StageOf(q)) {
        NotYetThere(t0, h[i], q);
      }
    }
  }

  lemma CourseUntouched(good: Tree -> bool, q: Request, t0: Tree, h: seq<Tree>, n: nat)
    requires Course(good, t0, h, n, StageOf(q), q.output)
    ensures AlwaysUntouched(t0, h, n, q)
  {
    forall i | n <= i < |h| ensures Untouched(t0, h[i], q) {
      StepUntouched(good, q, t0, h[i]);
    }
  }

  lemma CourseShown(a: Authority, m: RepositoryManifest, q: Request, t0: Tree, h: seq<Tree>, n: nat)
    requires WellFormed(t0) && StageOf(q) !in t0 && !Exists(t0, q.output) && !LeadsToStage(t0, q)
    requires a.parseManifest(q.manifest) == Some(m) && h != [] && WellFormed(h[|h| - 1])
    requires Course(CompleteFor(a, m), t0, h, n, StageOf(q), q.output)
    ensures AlwaysShown(a, q, h, n)
  {
    forall i | n <= i < |h| ensures Shown(a, q, h[i]) {
      StepShown(a, m, q, t0, h[i]);
    }
  }

  lemma CourseIsSafe(a: Authority, m: RepositoryManifest, q: Request, t0: Tree, h: seq<Tree>, n: nat)
    requires WellFormed(t0) && StageOf(q) !in t0 && !Exists(t0, q.output) && a.parseManifest(q.manifest) == Some(m)
    requires h != [] && WellFormed(h[|h| - 1]) && Siblings(StageOf(q), q.output)
    requires Course(CompleteFor(a, m), t0, h, n, StageOf(q), q.output)
    ensures SafeRun(a, q, t0, h, n)
  {
    CourseUntouched(CompleteFor(a, m), q, t0, h, n);
    if !LeadsToStage(t0, q) {
      CourseShown(a, m, q, t0, h, n);
    }
    if q.output != StageOf(q) {
      CourseStays(CompleteFor(a, m), q, t0, h, n);
    }
  }

  lemma CourseFromStart(
    good: Tree -> bool, t0: Tree, t1: Tree, h: seq<Tree>, n: nat, stage: Path, output: Path)
    requires n < |h| && h[n] == t1 && Confined(t0, t1, stage) && Siblings(stage, output)
    requires Course(good, t1, h, n + 1, stage, output)
    ensures Course(good, t0, h, n, stage, output)
  {
    forall i | n <= i < |h|
      ensures Confined(t0, h[i], stage) || (i == |h| - 1 && Placed(good, t0, h[i], stage, output))
    {
      if i > n {
        if Confined(t1, h[i], stage) {
          ConfinedTransitive(t0, t1, h[i], stage);
        } else {
          assert output != stage ==> !(stage <= output);
        }
      }
    }
  }

  lemma StageIsFresh(t0: Tree, q: Request)
    requires WellFormed(t0) && q.output != [] && ProperPath(q.output) && Proper(q.stageName) && StageOf(q) !in t0
    ensures var t := t0[StageOf(q) := Dir];
            Confined(t0, t, StageOf(q)) && forall p | p in t :: !(StageOf(q) < p)
    ensures ProperPath(StageOf(q)) && Siblings(StageOf(q), q.output)
  {
    assert forall name | name in Parent(q.output) :: name in q.output;
    assert Parent(StageOf(q)) == Parent(q.output);
    NothingBelowAbsent(t0, StageOf(q));
  }

  lemma StageIsProper(q: Request)
    requires q.output != [] && ProperPath(q.output) && Proper(q.stageName)
    ensures ProperPath(StageOf(q))
  {
    assert forall name | name in Parent(q.output) :: name in q.output;
  }

  /** With the stage gone, everything is as before. */
  lemma NoTrace(t0: Tree, t: Tree, stage: Path)
    requires WellFormed(t0) && stage !in t0 && Confined(t0, t, stage) && NothingBelow(t, stage)
    ensures t == t0
  {
    NothingBelowAbsent(t0, stage);
    forall p ensures (p in t <==> p in t0) && (p in t ==> t[p] == t0[p]) {
    }
  }

  lemma RunUnchanged(a: Authority, q: Request, t: Tree, h: seq<Tree>)
    ensures SafeRun(a, q, t, h, |h|)
  {
  }

  /** Make the staging directory: new and empty, beside the output. */
  method MakeStage(fs: FileSystem, q: Request) returns (made: bool)
    requires fs.Valid() && q.output != [] && ProperPath(q.output) && Proper(q.stageName)
    requires !Exists(fs.tree, q.output) && IsDir(fs.tree, Parent(q.output))
    modifies fs`tree, fs`history, fs`refused
    ensures fs.Valid() && ProperPath(StageOf(q)) && Siblings(StageOf(q), q.output)
    ensures made ==> StageOf(q) !in old(fs.tree) && fs.history == old(fs.history) + [fs.tree]
    ensures made ==> IsDir(fs.tree, StageOf(q)) && forall p | p in fs.tree :: !(StageOf(q) < p)
    ensures made ==> Confined(old(fs.tree), fs.tree, StageOf(q))
    ensures made ==> q.output == StageOf(q) || !IsDir(fs.tree, q.output)
    ensures !made ==> fs.tree == old(fs.tree) && fs.history == old(fs.history)
    ensures !made && !fs.refused ==> StageOf(q) in fs.tree
    ensures old(fs.refused) ==> fs.refused
  {
    ghost var t0 := fs.tree;
    StageIsProper(q);
    made := fs.MakeDirectory(StageOf(q));
    if made {
      StageIsFresh(t0, q);
      if q.output != StageOf(q) {
        NotYetThere(t0, fs.tree, q);
      }
    }
  }

  lemma AbsentAgain(t0: Tree, t1: Tree, q: Request)
    requires Confined(t0, t1, StageOf(q)) && Siblings(StageOf(q), q.output) && StageOf(q) !in t0
    ensures q.output == StageOf(q) || q.output !in t1 ==> q.output !in t0
    ensures q.output !in t0 && q.output != StageOf(q) ==> q.output !in t1
  {
    assert q.output != StageOf(q) ==> !(StageOf(q) <= q.output);
  }

  /** Make the stage, publish, clean up. */
  method RunStage(a: Authority, fs: FileSystem, q: Request, m: RepositoryManifest)
    returns (r: Result<RepositoryManifest, RepositoryError>, ghost log: seq<Delivery>)
    requires fs.Valid() && q.output != [] && ProperPath(q.output) && Proper(q.stageName) && ValidManifest(m)
    requires !Exists(fs.tree, q.output) && IsDir(fs.tree, Parent(q.output))
    modifies fs
    ensures fs.Valid() && old(fs.history) <= fs.history && Siblings(StageOf(q), q.output)
    ensures fs.deliveries == old(fs.deliveries) + log
    ensures Course(CompleteFor(a, m), old(fs.tree), fs.history, |old(fs.history)|, StageOf(q), q.output)
    ensures r.Ok? ==> r.value == m && Published(a, m, StageOf(q), q.output, fs.tree, log)
    ensures r.Ok? ==> q.output !in old(fs.tree)
    ensures StageOf(q) in old(fs.tree) ==> r.Err? && fs.history == old(fs.history)
    ensures r.Err? && !fs.refused ==> fs.tree == old(fs.tree)
    ensures r.Err? && !fs.refused && Placeable(m) && q.output !in old(fs.tree) && StageOf(q) !in old(fs.tree) ==>
              NotPublished(a, m, StageOf(q), q.output, old(fs.tree), log)
  {
    ghost var t0, n := fs.tree, |fs.history|;
    var made := MakeStage(fs, q);
    if !made {
      return Err(RepositoryError.Io), [];
    }
    ghost var t1 := fs.tree;
    AbsentAgain(t0, t1, q);
    r, log := PublishOrRemove(a, fs, m, StageOf(q), q.output);
    CourseFromStart(CompleteFor(a, m), t0, t1, fs.history, n, StageOf(q), q.output);
    if r.Err? && !fs.refused {
      ConfinedTransitive(t0, t1, fs.tree, StageOf(q));
      NoTrace(t0, fs.tree, StageOf(q));
    }
  }

  lemma GivesVerdict(
    a: Authority, m: RepositoryManifest, stage: Path, output: Path, t0: Tree, t: Tree, log: seq<Delivery>, ok: bool)
    requires output !in t0
    requires if ok then Published(a, m, stage, output, t, log) else NotPublished(a, m, stage, output, t0, log)
    ensures Verdict(a, m, stage, log, ok)
  {
  }

  lemma RunIsSafe(a: Authority, m: RepositoryManifest, q: Request, t0: Tree, h: seq<Tree>, n: nat)
    requires WellFormed(t0) && !Exists(t0, q.output) && a.parseManifest(q.manifest) == Some(m)
    requires h != [] && WellFormed(h[|h| - 1]) && Siblings(StageOf(q), q.output)
    requires Course(CompleteFor(a, m), t0, h, n, StageOf(q), q.output)
    requires StageOf(q) in t0 ==> n == |h|
    ensures SafeRun(a, q, t0, h, n)
  {
    if StageOf(q) in t0 {
      RunUnchanged(a, q, t0, h);
    } else {
      CourseIsSafe(a, m, q, t0, h, n);
    }
  }

  /** From a valid manifest and an output that is not there. */
  method SyncValid(a: Authority, fs: FileSystem, q: Request, m: RepositoryManifest)
    returns (r: Result<RepositoryManifest, RepositoryError>, ghost log: seq<Delivery>)
    requires fs.Valid() && q.output != [] && ProperPath(q.output) && Proper(q.stageName)
    requires a.parseManifest(q.manifest) == Some(m) && ValidManifest(m)
    requires !Exists(fs.tree, q.output) && IsDir(fs.tree, Parent(q.output))
    modifies fs
    ensures fs.Valid() && old(fs.history) <= fs.history
    ensures fs.deliveries == old(fs.deliveries) + log
    ensures SafeRun(a, q, old(fs.tree), fs.history, |old(fs.history)|)
    ensures r.Ok? ==> r.value == m && Published(a, m, StageOf(q), q.output, fs.tree, log)
    ensures r.Ok? ==> q.output !in old(fs.tree) && StageOf(q) !in old(fs.tree)
    ensures !fs.refused && Placeable(m) && q.output !in old(fs.tree) && StageOf(q) !in old(fs.tree) ==>
              Verdict(a, m, StageOf(q), log, r.Ok?)
    ensures r.Err? && !fs.refused ==> fs.tree == old(fs.tree)
  {
    ghost var t0, n := fs.tree, |fs.history|;
    r, log := RunStage(a, fs, q, m);
    RunIsSafe(a, m, q, t0, fs.history, n);
    if StageOf(q) !in t0 && !fs.refused && Placeable(m) && q.output !in t0 {
      GivesVerdict(a, m, StageOf(q), q.output, t0, fs.tree, log, r.Ok?);
    }
  }

  /** sync_catalog_with_fetcher. Whatever the fetcher and the file system do, and wherever the run
      stops, whoever opens the output finds nothing or a complete catalog, provided its path does not
      lead to the staging directory; and once the catalog is there it stays. A publishable request
      that meets no refusal succeeds exactly when every object is delivered and together they
      verify; a run that fails without a refusal leaves no trace. */
  method SyncCatalog(a: Authority, fs: FileSystem, q: Request) returns (r: Result<RepositoryManifest, RepositoryError>)
    requires fs.Valid() && ProperPath(q.output) && Proper(q.stageName)
    modifies fs
    ensures fs.Valid() && old(fs.history) <= fs.history && old(fs.deliveries) <= fs.deliveries
    ensures Exists(old(fs.tree), q.output) ==> r.Err? && fs.tree == old(fs.tree) && fs.history == old(fs.history)
    ensures SafeRun(a, q, old(fs.tree), fs.history, |old(fs.history)|)
    ensures r.Ok? ==>
              && Publishable(a, q, old(fs.tree)) && a.parseManifest(q.manifest) == Some(r.value)
              && Published(a, r.value, StageOf(q), q.output, fs.tree, fs.deliveries[|old(fs.deliveries)|..])
    ensures r.Ok? ==>
              var published := Below(fs.tree, q.output);
              && a.acceptsIndex(FileAt(published, ["keys.toml"]), FileAt(published, ["packages.toml"]),
                                FileAt(published, ["packages.toml.sig"]))
              && forall directory: Path, name: string | HasProfile(published, directory, name) ::
                   HasFile(published, ProfileSignature(directory, name))
                   && ProfileIdAt(a, published, directory, name).Some?
    ensures !fs.refused && Publishable(a, q, old(fs.tree)) ==>
              Verdict(a, a.parseManifest(q.manifest).value, StageOf(q), fs.deliveries[|old(fs.deliveries)|..], r.Ok?)
    ensures r.Err? && !fs.refused ==> fs.tree == old(fs.tree)
  {
    RunUnchanged(a, q, fs.tree, fs.history);
    if q.manifest == "" || |q.manifest| > MAX_MANIFEST_BYTES {
      return Err(RepositoryError.Invalid);
    }
    if !a.acceptsManifest(q.manifest, q.signature) {
      return Err(RepositoryError.Signature);
    }
    var parsed := a.parseManifest(q.manifest);
    if parsed == None {
      return Err(RepositoryError.Parse);
    }
    var m := parsed.value;
    var valid := ValidateManifest(m);
    if !valid {
      return Err(RepositoryError.Invalid);
    }
    if q.output == [] || Exists(fs.tree, q.output) || !IsDir(fs.tree, Parent(q.output)) {
      OutputAbsent(fs.tree, q.output);
      return Err(RepositoryError.Invalid);
    }
    ghost var log;
    r, log := SyncValid(a, fs, q, m);
    assert fs.deliveries[|old(fs.deliveries)|..] == log;
  }

  /** In a directory, a name that is not there does not exist for whoever follows links either. */
  lemma OutputAbsent(t: Tree, output: Path)
    requires WellFormed(t)
    ensures output != [] && IsDir(t, Parent(output)) && output !in t ==> !Exists(t, output)
  {
    if output != [] && IsDir(t, Parent(output)) && output !in t {
      AbsentIsMissing(t, output);
    }
  }

  // ----- When the guarantee fails

  /** A path and the directories above it, down from a root. */
  function Ways(root: Path, tail: Path): set<Path> {
    set i | 0 <= i <= |tail| :: root + tail[..i]
  }

  /** The tree with directories at and below a root that was not there. */
  function WithDirectories(t: Tree, root: Path, tail: Path): Tree {
    var ways := Ways(root, tail);
    map p | p in t.Keys + ways :: if p in ways then Dir else t[p]
  }

  lemma DirectoriesWellFormed(t: Tree, root: Path, tail: Path)
    requires WellFormed(t) && root != [] && root !in t && ProperPath(root + tail) && IsDir(t, Parent(root))
    ensures WellFormed(WithDirectories(t, root, tail)) && Confined(t, WithDirectories(t, root, tail), root)
    ensures forall i | 0 <= i <= |tail| :: IsDir(WithDirectories(t, root, tail), root + tail[..i])
    ensures forall p | p in WithDirectories(t, root, tail) :: !(root + tail < p)
  {
    var t' := WithDirectories(t, root, tail);
    NothingBelowAbsent(t, root);
    forall i | 0 <= i <= |tail| ensures IsDir(t', root + tail[..i]) {
      assert root + tail[..i] in Ways(root, tail);
    }
    forall p | p in t' ensures ProperPath(p) && ProperEntry(t'[p]) && (p != [] ==> IsDir(t', Parent(p))) {
      if p in Ways(root, tail) {
        var i :| 0 <= i <= |tail| && p == root + tail[..i];
        assert forall name | name in p :: name in root + tail;
        if i == 0 {
          assert p == root;
        } else {
          assert Parent(p) == root + tail[..i - 1];
        }
      }
    }
  }

  lemma NoLockIncomplete(a: Authority, m: RepositoryManifest, t: Tree)
    requires LOCK_PATH !in t
    ensures !Complete(a, m, t)
  {
  }

  /** An output that leads to a directory with nothing in it shows no catalog. */
  lemma EmptyDirectoryShown(a: Authority, q: Request, t: Tree, p: Path)
    requires LeadOf(t, q.output) == Reaches(p) && forall other | other in t :: !(p < other)
    ensures !Shown(a, q, t)
  {
    BelowAt(t, p, LOCK_PATH);
    assert p < p + LOCK_PATH;
    if a.parseManifest(q.manifest).Some? {
      NoLockIncomplete(a, a.parseManifest(q.manifest).value, Below(t, p));
    }
  }

  /** The condition of the guarantee is exact. If the output's path does not lead to the stage, no
      content of the stage shows anything but a complete catalog there; if it does, some content
      does, and if it leads to the stage itself, so does the stage as soon as it is made. */
  lemma StageExposedExactly(a: Authority, q: Request, t0: Tree)
    requires WellFormed(t0) && q.output != [] && ProperPath(q.output) && Proper(q.stageName)
    requires !Exists(t0, q.output) && IsDir(t0, Parent(q.output)) && StageOf(q) !in t0
    ensures (forall t | WellFormed(t) && Confined(t0, t, StageOf(q)) :: Shown(a, q, t)) <==> !LeadsToStage(t0, q)
    ensures Shown(a, q, t0[StageOf(q) := Dir]) <==> LeadOf(t0, q.output) != Missing(StageOf(q), [])
  {
    StageIsFresh(t0, q);
    forall t | WellFormed(t) && Confined(t0, t, StageOf(q)) && !LeadsToStage(t0, q) ensures Shown(a, q, t) {
      OutputShown(a, q, t0, t);
    }
    if LeadsToStage(t0, q) {
      ExposedByDirectories(a, q, t0);
      MadeStageShown(a, q, t0);
    } else {
      OutputShown(a, q, t0, t0[StageOf(q) := Dir]);
    }
  }

  lemma ExposedByDirectories(a: Authority, q: Request, t0: Tree)
    requires WellFormed(t0) && q.output != [] && ProperPath(q.output) && ProperPath(StageOf(q))
    requires IsDir(t0, Parent(q.output)) && StageOf(q) !in t0 && LeadsToStage(t0, q)
    ensures exists t | WellFormed(t) && Confined(t0, t, StageOf(q)) :: !Shown(a, q, t)
  {
    var stage, tail := StageOf(q), LeadOf(t0, q.output).rest;
    MissingProper(t0, [], q.output, MAX_LINKS);
    assert Parent(stage) == Parent(q.output);
    assert forall name | name in stage + tail :: name in stage || name in tail;
    DirectoriesWellFormed(t0, stage, tail);
    var t := WithDirectories(t0, stage, tail);
    LeadOpened(t0, t, stage, [], q.output, MAX_LINKS, tail);
    EmptyDirectoryShown(a, q, t, stage + tail);
  }

  lemma MadeStageShown(a: Authority, q: Request, t0: Tree)
    requires WellFormed(t0) && StageOf(q) !in t0 && LeadsToStage(t0, q)
    ensures Shown(a, q, t0[StageOf(q) := Dir]) <==> LeadOf(t0, q.output) != Missing(StageOf(q), [])
  {
    var stage, t := StageOf(q), t0[StageOf(q) := Dir];
    NothingBelowAbsent(t0, stage);
    if LeadOf(t0, q.output).rest == [] {
      assert stage + [] == stage;
      LeadOpened(t0, t, stage, [], q.output, MAX_LINKS, []);
      EmptyDirectoryShown(a, q, t, stage);
    } else {
      LeadClosed(t0, t, stage, [], q.output, MAX_LINKS);
    }
  }

  /** With the stage made and empty, a path that leads further stops at the next name. */
  lemma {:induction false} LeadClosed(t: Tree, t': Tree, root: Path, at: Path, rest: Path, links: nat)
    requires WellFormed(t) && root !in t && at in t && t' == t[root := Dir]
    requires var lead := Follow(t, at, rest, links); lead.Missing? && lead.path == root && lead.rest != []
    ensures Follow(t', at, rest, links).Missing?
    decreases links, |rest|
  {
    NothingBelowAbsent(t, root);
    var next := at + [rest[0]];
    if next in t {
      match t[next]
      case Dir => LeadClosed(t, t', root, next, rest[1..], links);
      case Symlink(target) => LeadClosed(t, t', root, [], target + rest[1..], links - 1);
    } else {
      var beyond := root + [rest[1]];
      assert root <= beyond && beyond != root;
      assert rest[1..][0] == rest[1];
    }
  }
}
