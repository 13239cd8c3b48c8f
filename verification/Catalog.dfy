/** Catalog-lock verification (src/catalog.rs): which exact files a catalog was built with. */
module Catalog {
  import opened Wrappers
  import opened Text
  import opened Sorting
  import opened FileTree
  import opened Paths
  import Profile

  const CATALOG_LOCK_FORMAT := 1
  const MAX_CATALOG_LOCK_BYTES := 4 * 1024 * 1024
  const MAX_CATALOG_FILE_BYTES := 4 * 1024 * 1024
  const RECIPES := "https://github.com/SisyphusAeolides/Arach-Packages.git"
  const DRIVER_SOURCES := "driver-sources"

  datatype CatalogProfile = CatalogProfile(path: string, profileSha256: string, signatureSha256: string)

  datatype CatalogDriverSource = CatalogDriverSource(path: string, sha256: string)

  datatype CatalogLock = CatalogLock(
    format: nat,
    snapshot: string,
    keyringSha256: string,
    recipeRepository: string,
    recipeRevision: string,
    profile: seq<CatalogProfile>,
    driverSource: seq<CatalogDriverSource>)

  /** SHA-256 and the TOML reader of lock files, taken as arbitrary functions of the bytes. */
  datatype Reader = Reader(digest: Bytes -> string, parseLock: Bytes -> Option<CatalogLock>)

  datatype CatalogError = Io | Parse | Invalid

  // ----- Validators

  predicate AllHexDigits(s: string) {
    forall c | c in s :: '0' <= c <= '9' || 'a' <= c <= 'f' || 'A' <= c <= 'F'
  }

  predicate ValidLockDigest(s: string) {
    |s| == 64 && AllHexDigits(s)
  }

  predicate ValidLockShape(lock: CatalogLock) {
    && lock.format == CATALOG_LOCK_FORMAT
    && Trim(lock.snapshot) != ""
    && lock.profile != []
    && ValidLockDigest(lock.keyringSha256)
    && lock.recipeRepository == RECIPES
    && |lock.recipeRevision| == 40 && AllHexDigits(lock.recipeRevision)
    && forall entry | entry in lock.profile ::
         ValidLockDigest(entry.profileSha256) && ValidLockDigest(entry.signatureSha256)
  }

  /** `safe_relative`: the components of a bounded `.toml` path. */
  function SafeProfilePath(value: string): Option<Path> {
    if value == "" || IsAbsolute(value) || MentionsParent(value) || !HasSuffix(value, ".toml") then None
    else Some(Components(value))
  }

  function SafeDriverSource(value: string): Option<Path> {
    if !HasPrefix(value, DRIVER_SOURCES + "/") || MentionsParent(value) || HasSuffix(value, "/") then None
    else Some(Components(value))
  }

  /** A regular file of at most `limit` bytes. */
  function ReadBounded(t: Tree, path: Path, limit: nat): Option<Bytes> {
    if path in t && t[path].File? && |t[path].bytes| <= limit then Some(t[path].bytes) else None
  }

  /** `format!("{}.sig", path.display())`: the last component with `.sig` appended. */
  function SignaturePath(path: Path): Path {
    if path == [] then [".sig"] else path[..|path| - 1] + [path[|path| - 1] + ".sig"]
  }

  /** `path.extension() == "toml"`: the name ends in `.toml` and has something before it. */
  predicate IsTomlFile(t: Tree, path: Path) {
    path in t && t[path].File? && path != []
    && HasSuffix(path[|path| - 1], ".toml") && |path[|path| - 1]| > 5
  }

  // ----- What a lock promises about a tree

  predicate HasDigest(r: Reader, bytes: Option<Bytes>, sha256: string) {
    bytes.Some? && r.digest(bytes.value) == sha256
  }

  predicate EntryHolds(r: Reader, t: Tree, profilesDir: Path, entry: CatalogProfile) {
    var relative := SafeProfilePath(entry.path);
    relative.Some? &&
    var path := profilesDir + relative.value;
    && HasDigest(r, ReadBounded(t, path, MAX_CATALOG_FILE_BYTES), entry.profileSha256)
    && HasDigest(r, ReadBounded(t, SignaturePath(path), MAX_CATALOG_FILE_BYTES), entry.signatureSha256)
  }

  predicate SourceHolds(r: Reader, t: Tree, catalogRoot: Path, source: CatalogDriverSource) {
    var relative := SafeDriverSource(source.path);
    relative.Some?
    && HasDigest(r, ReadBounded(t, catalogRoot + relative.value, MAX_CATALOG_FILE_BYTES), source.sha256)
  }

  predicate NoSymlinkBelow(t: Tree, directory: Path) {
    forall p | p in t && directory < p :: !t[p].Symlink?
  }

  /** `strip_prefix(root)`. */
  function Relative(p: Path, root: Path): Path {
    if |root| <= |p| then p[|root|..] else []
  }

  /** The profile files below a directory, as texts relative to a root. */
  ghost function Discovered(t: Tree, root: Path, directory: Path): set<string> {
    set p | p in t && directory < p && IsTomlFile(t, p) :: Spelled(Relative(p, root))
  }

  function EntryPath(e: CatalogProfile): string {
    e.path
  }

  function SourcePath(s: CatalogDriverSource): string {
    s.path
  }

  function EntryTest(r: Reader, t: Tree, profilesDir: Path): CatalogProfile -> bool {
    (e: CatalogProfile) => EntryHolds(r, t, profilesDir, e)
  }

  function SourceTest(r: Reader, t: Tree, catalogRoot: Path): CatalogDriverSource -> bool {
    (s: CatalogDriverSource) => SourceHolds(r, t, catalogRoot, s)
  }

  function EntryPaths(entries: seq<CatalogProfile>): seq<string> {
    Map(entries, EntryPath)
  }

  function SourcePaths(sources: seq<CatalogDriverSource>): seq<string> {
    Map(sources, SourcePath)
  }

  const REQUIRED_NAMES: set<string> :=
    {"modules.alias", "modules.dep", "modules.builtin", "modules.firmware", "modules.builtin.modinfo"}

  /** Every member with something put before and after it. */
  function Affix(s: set<string>, before: string, after: string): set<string> {
    set x | x in s :: before + x + after
  }

  /** `REQUIRED_DRIVER_SOURCES`. */
  function RequiredSources(): set<string> {
    Affix(REQUIRED_NAMES, DRIVER_SOURCES + "/", "")
  }

  ghost predicate SourcesHold(r: Reader, t: Tree, lock: CatalogLock, catalogRoot: Path) {
    && Profile.Distinct(SourcePaths(lock.driverSource))
    && (forall source | source in lock.driverSource :: SourceHolds(r, t, catalogRoot, source))
    && ToSet(SourcePaths(lock.driverSource)) == RequiredSources()
  }

  ghost predicate ProfilesHold(r: Reader, t: Tree, lock: CatalogLock, profilesDir: Path) {
    && Profile.Distinct(EntryPaths(lock.profile))
    && (forall entry | entry in lock.profile :: EntryHolds(r, t, profilesDir, entry))
    && NoSymlinkBelow(t, profilesDir)
    && Discovered(t, profilesDir, profilesDir) == ToSet(EntryPaths(lock.profile))
  }

  ghost predicate LockHolds(r: Reader, t: Tree, lock: CatalogLock, profilesDir: Path, keyringPath: Path) {
    && ValidLockShape(lock)
    && HasDigest(r, ReadBounded(t, keyringPath, MAX_CATALOG_FILE_BYTES), lock.keyringSha256)
    && IsDir(t, profilesDir)
    && ProfilesHold(r, t, lock, profilesDir)
    && profilesDir != [] && SourcesHold(r, t, lock, Parent(profilesDir))
  }

  function LockAt(r: Reader, t: Tree, lockPath: Path): Option<CatalogLock> {
    var bytes := ReadBounded(t, lockPath, MAX_CATALOG_LOCK_BYTES);
    if bytes == None then None else r.parseLock(bytes.value)
  }

  // ----- collect_profiles

  ghost predicate Under(tops: set<Path>, p: Path) {
    exists top | top in tops :: top <= p
  }

  ghost function FoundUnder(t: Tree, root: Path, tops: set<Path>): set<string> {
    set p | p in t && Under(tops, p) && IsTomlFile(t, p) :: Spelled(Relative(p, root))
  }

  ghost predicate NoSymlinkUnder(t: Tree, tops: set<Path>) {
    forall p | p in t && Under(tops, p) :: !t[p].Symlink?
  }

  function Children(t: Tree, directory: Path): set<Path> {
    set p | p in t && p != [] && Parent(p) == directory
  }

  /** What lies strictly below a directory lies at or below one of its children. */
  lemma ChildrenCover(t: Tree, root: Path, directory: Path)
    requires WellFormed(t)
    ensures forall p | p in t :: Under(Children(t, directory), p) <==> directory < p
    ensures FoundUnder(t, root, Children(t, directory)) == Discovered(t, root, directory)
    ensures NoSymlinkUnder(t, Children(t, directory)) <==> NoSymlinkBelow(t, directory)
  {
    forall p | p in t ensures Under(Children(t, directory), p) <==> directory < p {
      if directory < p {
        var top := p[..|directory| + 1];
        AncestorIsDir(t, p, |directory| + 1);
        assert Parent(top) == directory && top in Children(t, directory);
      }
      if top :| top in Children(t, directory) && top <= p {
        assert Parent(top) < top;
      }
    }
  }

  lemma UnderOneMore(tops: set<Path>, path: Path, p: Path)
    ensures Under(tops + {path}, p) <==> Under(tops, p) || path <= p
  {
    if path <= p {
      assert path in tops + {path};
    }
    if top :| top in tops && top <= p {
      assert top in tops + {path};
    }
  }

  function Own(t: Tree, root: Path, path: Path): set<string> {
    if IsTomlFile(t, path) then {Spelled(Relative(path, root))} else {}
  }

  /** What one more visited entry adds: itself, if it is a profile, and what is below it. */
  lemma VisitOneMore(t: Tree, root: Path, visited: set<Path>, path: Path)
    requires path in t
    ensures FoundUnder(t, root, visited + {path})
            == FoundUnder(t, root, visited) + Own(t, root, path) + Discovered(t, root, path)
    ensures NoSymlinkUnder(t, visited + {path})
            <==> NoSymlinkUnder(t, visited) && !t[path].Symlink? && NoSymlinkBelow(t, path)
  {
    forall p ensures Under(visited + {path}, p) <==> Under(visited, p) || p == path || path < p {
      UnderOneMore(visited, path, p);
    }
  }

  lemma NothingInside(t: Tree, root: Path, path: Path)
    requires WellFormed(t) && path in t && t[path] != Dir
    ensures Discovered(t, root, path) == {} && NoSymlinkBelow(t, path)
  {
    NothingBelowNonDirectory(t, path);
  }

  lemma SymlinkSpoils(t: Tree, directory: Path, path: Path)
    requires path in Children(t, directory) && (t[path].Symlink? || !NoSymlinkBelow(t, path))
    ensures !NoSymlinkBelow(t, directory)
  {
    assert Parent(path) < path;
    if !t[path].Symlink? {
      var p :| p in t && path < p && t[p].Symlink?;
      assert directory < p;
    }
  }

  /** Entries strictly below a directory: what bounds the recursion. */
  ghost function Inside(t: Tree, directory: Path): set<Path> {
    set p | p in t && directory < p
  }

  lemma InsideShrinks(t: Tree, directory: Path, path: Path)
    requires path in Children(t, directory)
    ensures Inside(t, path) < Inside(t, directory)
  {
    assert Parent(path) < path;
    assert path in Inside(t, directory) && path !in Inside(t, path);
  }

  /** One directory entry: a symlink refuses, a directory is walked, a profile file is recorded. */
  method CollectEntry(t: Tree, root: Path, directory: Path, path: Path, output: set<string>)
    returns (ok: bool, collected: set<string>)
    requires WellFormed(t) && path in Children(t, directory)
    ensures ok <==> !t[path].Symlink? && NoSymlinkBelow(t, path)
    ensures ok ==> collected == output + Own(t, root, path) + Discovered(t, root, path)
    decreases Inside(t, directory), 0
  {
    if t[path].Symlink? {
      return false, output;
    }
    if t[path] == Dir {
      InsideShrinks(t, directory, path);
      ok, collected := CollectProfiles(t, root, path, output);
    } else {
      NothingInside(t, root, path);
      ok, collected := true, output;
      if IsTomlFile(t, path) {
        collected := output + {Spelled(Relative(path, root))};
      }
    }
  }

  /** Walk one directory in whatever order it lists, adding what is found to `output`. */
  method CollectProfiles(t: Tree, root: Path, directory: Path, output: set<string>)
    returns (ok: bool, collected: set<string>)
    requires WellFormed(t)
    ensures ok <==> NoSymlinkBelow(t, directory)
    ensures ok ==> collected == output + Discovered(t, root, directory)
    decreases Inside(t, directory), 1
  {
    ok, collected := true, output;
    var entries := Children(t, directory);
    ghost var visited: set<Path> := {};
    ChildrenCover(t, root, directory);
    NothingVisited(t, root);
    while entries != {}
      invariant ok && entries + visited == Children(t, directory)
      invariant NoSymlinkUnder(t, visited) && collected == output + FoundUnder(t, root, visited)
      decreases |entries|
    {
      var path :| path in entries;
      VisitOneMore(t, root, visited, path);
      ghost var before := collected;
      ok, collected := CollectEntry(t, root, directory, path, collected);
      if !ok {
        SymlinkSpoils(t, directory, path);
        return;
      }
      AddToOutput(output, before, collected, FoundUnder(t, root, visited), FoundUnder(t, root, visited + {path}),
                  Own(t, root, path), Discovered(t, root, path));
      MoveAcross(entries, visited, path);
      entries, visited := entries - {path}, visited + {path};
    }
  }

  lemma NothingVisited(t: Tree, root: Path)
    ensures FoundUnder(t, root, {}) == {} && NoSymlinkUnder(t, {})
  {
  }

  lemma AddToOutput(
    output: set<string>, before: set<string>, after: set<string>,
    found: set<string>, found': set<string>, own: set<string>, inside: set<string>)
    requires before == output + found && after == before + own + inside && found' == found + own + inside
    ensures after == output + found'
  {
  }

  lemma MoveAcross(entries: set<Path>, visited: set<Path>, path: Path)
    requires path in entries
    ensures (entries - {path}) + (visited + {path}) == entries + visited
  {
  }

  // ----- verify_catalog

  /** The loop both tables of a lock go through: no path twice, and every entry must hold. */
  method VerifyListed<T>(items: seq<T>, path: T -> string, holds: T -> bool) returns (ok: bool, listed: set<string>)
    ensures ok <==> Profile.Distinct(Map(items, path)) && forall item | item in items :: holds(item)
    ensures ok ==> listed == ToSet(Map(items, path))
  {
    listed := {};
    ghost var paths := Map(items, path);
    for i := 0 to |items|
      invariant listed == ToSet(paths[..i]) && Profile.Distinct(paths[..i])
      invariant forall j | 0 <= j < i :: holds(items[j])
    {
      assert items[i] in items;
      if path(items[i]) in listed {
        ghost var j :| 0 <= j < i && paths[..i][j] == path(items[i]);
        assert paths[j] == paths[i];
        return false, listed;
      }
      listed := listed + {path(items[i])};
      if !holds(items[i]) {
        return false, listed;
      }
      assert paths[..i + 1] == paths[..i] + [path(items[i])];
    }
    assert paths[..|items|] == paths;
    return true, listed;
  }

  /** Verification succeeds exactly when the lock file parses and everything it promises holds. */
  method VerifyCatalog(r: Reader, t: Tree, lockPath: Path, profilesDir: Path, keyringPath: Path)
    returns (result: Result<CatalogLock, CatalogError>)
    requires WellFormed(t)
    ensures result.Ok? <==> LockAt(r, t, lockPath).Some?
                            && LockHolds(r, t, LockAt(r, t, lockPath).value, profilesDir, keyringPath)
    ensures result.Ok? ==> result.value == LockAt(r, t, lockPath).value
  {
    var lockBytes := ReadBounded(t, lockPath, MAX_CATALOG_LOCK_BYTES);
    if lockBytes == None {
      return Err(Io);
    }
    var parsed := r.parseLock(lockBytes.value);
    if parsed == None {
      return Err(Parse);
    }
    var lock := parsed.value;
    if !ValidLockShape(lock) {
      return Err(Invalid);
    }
    var keyring := ReadBounded(t, keyringPath, MAX_CATALOG_FILE_BYTES);
    if keyring == None {
      return Err(Io);
    }
    if r.digest(keyring.value) != lock.keyringSha256 || !IsDir(t, profilesDir) {
      return Err(Invalid);
    }
    var ok, listed := VerifyListed(lock.profile, EntryPath, EntryTest(r, t, profilesDir));
    if !ok {
      return Err(Invalid);
    }
    var discovered: set<string>;
    ok, discovered := CollectProfiles(t, profilesDir, profilesDir, {});
    if !ok || discovered != listed {
      return Err(Invalid);
    }
    if profilesDir == [] {
      return Err(Invalid);
    }
    var sources: set<string>;
    ok, sources := VerifyListed(lock.driverSource, SourcePath, SourceTest(r, t, Parent(profilesDir)));
    if !ok || sources != RequiredSources() {
      return Err(Invalid);
    }
    return Ok(lock);
  }
}
