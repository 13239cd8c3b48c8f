/** A catalog that can be published: the conditions under which a run has to succeed are met by an
    actual request, manifest and delivery (src/repository.rs). */
module Witness {
  import opened Wrappers
  import opened Text
  import opened Sorting
  import opened FileTree
  import opened Paths
  import opened Catalog
  import opened Repository
  import opened Publication
  import Profile

  /** Hexadecimal digits, as many as a digest or a revision needs. */
  function Zeros(n: nat): (r: string)
    ensures |r| == n && forall c | c in r :: c == '0'
  {
    if n == 0 then "" else Zeros(n - 1) + "0"
  }

  const CONTENT: Bytes := "1.0"
  const PROFILE_NAME := "a.toml"
  const SIGNATURE_NAME := "a.toml.sig"

  /** One profile, and the five required sources. */
  ghost predicate OneProfile(lock: CatalogLock) {
    && lock.format == CATALOG_LOCK_FORMAT && lock.snapshot == "s" && lock.keyringSha256 == Zeros(64)
    && lock.recipeRepository == RECIPES && lock.recipeRevision == Zeros(40)
    && lock.profile == [CatalogProfile(PROFILE_NAME, Zeros(64), Zeros(64))]
    && SourcePaths(lock.driverSource) == Ascending(RequiredSources())
    && forall source | source in lock.driverSource :: source.sha256 == Zeros(64)
  }

  /** An authority that reads every lock file as this lock and accepts everything. */
  ghost predicate Accepts(a: Authority, lock: CatalogLock) {
    && (forall b :: a.reader.digest(b) == Zeros(64) && a.reader.parseLock(b) == Some(lock))
    && (forall b :: a.loadsKeyring(b) && a.isUtf8(b))
    && (forall k, b, s :: a.profileId(k, b, s) == Some("id") && a.acceptsIndex(k, b, s))
  }

  /** It also reads every manifest as this one. */
  ghost predicate Signs(a: Authority, m: RepositoryManifest) {
    forall b, s :: a.acceptsManifest(b, s) && a.parseManifest(b) == Some(m)
  }

  // ----- The tree

  lemma NameIsComponent(name: string)
    requires Proper(name)
    ensures Components(name) == [name] && !MentionsParent(name)
  {
    var p: Path := [name];
    assert Spelled(p) == name;
    ComponentsOfSpelled(p);
  }

  lemma PairIsComponents(directory: string, name: string)
    requires Proper(directory) && Proper(name)
    ensures Components(directory + "/" + name) == [directory, name] && !MentionsParent(directory + "/" + name)
  {
    var p: Path := [directory, name];
    assert p[1..] == [name] && Join([name], '/') == name;
    assert Spelled(p) == directory + ['/'] + name;
    assert directory + ['/'] + name == directory + "/" + name;
    ComponentsOfSpelled(p);
  }

  predicate IsSourceFile(p: Path) {
    |p| == 2 && p[0] == DRIVER_SOURCES && p[1] in REQUIRED_NAMES
  }

  predicate IsFile(p: Path) {
    || (|p| == 1 && p[0] in FIXED_PATHS)
    || IsSourceFile(p)
    || p == [PROFILES, PROFILE_NAME] || p == [PROFILES, SIGNATURE_NAME]
  }

  const DIRECTORIES: set<Path> := {[], [PROFILES], [DRIVER_SOURCES]}

  /** Every file holds the same three bytes. */
  function TreeOf(files: set<Path>): Tree {
    map p | p in files + DIRECTORIES :: if p in files then File(CONTENT) else Dir
  }

  lemma ProperNames()
    ensures Proper(PROFILES) && Proper(DRIVER_SOURCES) && Proper(PROFILE_NAME) && Proper(SIGNATURE_NAME)
    ensures forall name | name in FIXED_PATHS :: Proper(name) && name != PROFILES && name != DRIVER_SOURCES
    ensures forall name | name in REQUIRED_NAMES :: Proper(name)
  {
    assert |PROFILES| == 8 && |DRIVER_SOURCES| == 14;
    assert |"keys.toml"| == 9 && |"catalog.lock"| == 12 && |"packages.toml"| == 13 && |"packages.toml.sig"| == 17;
    assert |"driver-abi"| == 10;
  }

  ghost predicate HoldsFiles(files: set<Path>) {
    forall p :: p in files <==> IsFile(p)
  }

  lemma FilePaths(p: Path)
    requires IsFile(p)
    ensures ProperPath(p) && p !in DIRECTORIES && Parent(p) in DIRECTORIES
  {
    ProperNames();
    if |p| == 2 {
      assert Parent(p) == [p[0]];
    } else {
      assert p == [p[0]] && Parent(p) == [];
    }
  }

  lemma TreeIsWellFormed(files: set<Path>)
    requires HoldsFiles(files)
    ensures WellFormed(TreeOf(files))
    ensures forall p | p in DIRECTORIES :: IsDir(TreeOf(files), p)
    ensures forall p | IsFile(p) :: p in TreeOf(files) && TreeOf(files)[p] == File(CONTENT)
    ensures forall p | p in TreeOf(files) :: IsFile(p) || p in DIRECTORIES
  {
    ProperNames();
    var t := TreeOf(files);
    forall p | IsFile(p) ensures p !in DIRECTORIES {
      FilePaths(p);
    }
    forall p | p in t ensures ProperPath(p) && ProperEntry(t[p]) && (p != [] ==> IsDir(t, Parent(p))) {
      if IsFile(p) {
        FilePaths(p);
      } else {
        assert p in DIRECTORIES;
      }
    }
  }

  // ----- The lock holds

  lemma ZerosAreHex(n: nat)
    ensures AllHexDigits(Zeros(n))
  {
  }

  lemma ShapeIsValid(lock: CatalogLock)
    requires OneProfile(lock)
    ensures ValidLockShape(lock)
  {
    ZerosAreHex(64);
    ZerosAreHex(40);
    assert TrimStart("s") == "s" && TrimEnd("s") == "s";
  }

  /** Everything the tree holds reads as the three bytes. */
  lemma ReadsContent(t: Tree, p: Path, limit: nat)
    requires HasContent(t, p) && limit >= 3
    ensures ReadBounded(t, p, limit) == Some(CONTENT)
  {
  }

  /** The tree holds the content at a path. */
  predicate HasContent(t: Tree, p: Path) {
    p in t && t[p] == File(CONTENT)
  }

  lemma HeldFiles(t: Tree)
    requires forall p | IsFile(p) :: HasContent(t, p)
    ensures HasContent(t, KEYRING_PATH) && HasContent(t, LOCK_PATH) && HasContent(t, ["driver-abi"])
    ensures HasContent(t, ["packages.toml"]) && HasContent(t, ["packages.toml.sig"])
    ensures HasContent(t, [PROFILES, PROFILE_NAME]) && HasContent(t, [PROFILES, SIGNATURE_NAME])
  {
    assert IsFile(KEYRING_PATH) && IsFile(LOCK_PATH) && IsFile(["driver-abi"]);
    assert IsFile(["packages.toml"]) && IsFile(["packages.toml.sig"]);
  }

  lemma SignatureOfProfile()
    ensures SignaturePath([PROFILES, PROFILE_NAME]) == [PROFILES, SIGNATURE_NAME]
    ensures SafeProfilePath(PROFILE_NAME) == Some([PROFILE_NAME])
  {
    var only: Path := [PROFILES, PROFILE_NAME];
    assert only[..1] == [PROFILES] && PROFILE_NAME + ".sig" == SIGNATURE_NAME;
    ProperNames();
    NameIsComponent(PROFILE_NAME);
    assert HasSuffix(PROFILE_NAME, ".toml");
  }

  lemma ProfileHolds(r: Reader, t: Tree, entry: CatalogProfile)
    requires entry == CatalogProfile(PROFILE_NAME, Zeros(64), Zeros(64)) && forall b :: r.digest(b) == Zeros(64)
    requires HasContent(t, [PROFILES, PROFILE_NAME]) && HasContent(t, [PROFILES, SIGNATURE_NAME])
    ensures EntryHolds(r, t, PROFILES_DIR, entry)
  {
    SignatureOfProfile();
    assert PROFILES_DIR + [PROFILE_NAME] == [PROFILES, PROFILE_NAME];
    ReadsContent(t, [PROFILES, PROFILE_NAME], MAX_CATALOG_FILE_BYTES);
    ReadsContent(t, [PROFILES, SIGNATURE_NAME], MAX_CATALOG_FILE_BYTES);
  }

  lemma SourceIsSafe(name: string)
    requires name in REQUIRED_NAMES
    ensures SafeDriverSource(DRIVER_SOURCES + "/" + name) == Some([DRIVER_SOURCES, name])
  {
    ProperNames();
    PairIsComponents(DRIVER_SOURCES, name);
    var path := DRIVER_SOURCES + "/" + name;
    assert path[|path| - 1] == name[|name| - 1];
    assert path[..|DRIVER_SOURCES + "/"|] == DRIVER_SOURCES + "/";
  }

  lemma SourceIsHeld(r: Reader, t: Tree, source: CatalogDriverSource, name: string)
    requires name in REQUIRED_NAMES && source == CatalogDriverSource(DRIVER_SOURCES + "/" + name, Zeros(64))
    requires (forall b :: r.digest(b) == Zeros(64)) && HasContent(t, [DRIVER_SOURCES, name])
    ensures SourceHolds(r, t, [], source)
  {
    SourceIsSafe(name);
    assert [] + [DRIVER_SOURCES, name] == [DRIVER_SOURCES, name];
    ReadsContent(t, [DRIVER_SOURCES, name], MAX_CATALOG_FILE_BYTES);
  }

  lemma RequiredName(path: string) returns (name: string)
    requires path in RequiredSources()
    ensures name in REQUIRED_NAMES && path == DRIVER_SOURCES + "/" + name && IsFile([DRIVER_SOURCES, name])
  {
    name :| name in REQUIRED_NAMES && path == DRIVER_SOURCES + "/" + name + "";
    assert IsSourceFile([DRIVER_SOURCES, name]);
  }

  lemma OnlyTomlFile(t: Tree, p: Path)
    requires IsFile(p) && PROFILES_DIR < p && HasSuffix(p[|p| - 1], ".toml")
    ensures p == [PROFILES, PROFILE_NAME]
  {
    ProperNames();
    assert p[0] == PROFILES;
    assert SIGNATURE_NAME[|SIGNATURE_NAME| - 5..][4] == 'g';
  }

  lemma OneDiscovered(t: Tree)
    requires HasContent(t, [PROFILES, PROFILE_NAME])
    requires forall p | p in t :: (IsFile(p) && HasContent(t, p)) || p in DIRECTORIES
    ensures forall p | p in t && PROFILES_DIR < p && IsTomlFile(t, p) :: p == [PROFILES, PROFILE_NAME]
    ensures Discovered(t, PROFILES_DIR, PROFILES_DIR) == {PROFILE_NAME}
    ensures NoSymlinkBelow(t, PROFILES_DIR)
  {
    var only: Path := [PROFILES, PROFILE_NAME];
    forall p | p in t && PROFILES_DIR < p
      ensures IsFile(p) && HasContent(t, p) && (IsTomlFile(t, p) ==> p == only)
    {
      NotDirectoryBelow(p);
      if IsTomlFile(t, p) {
        OnlyTomlFile(t, p);
      }
    }
    ProfileIsToml(t);
  }

  lemma NotDirectoryBelow(p: Path)
    requires PROFILES_DIR < p
    ensures p !in DIRECTORIES
  {
  }

  lemma ProfileIsToml(t: Tree)
    requires HasContent(t, [PROFILES, PROFILE_NAME])
    ensures IsTomlFile(t, [PROFILES, PROFILE_NAME]) && PROFILES_DIR < [PROFILES, PROFILE_NAME]
    ensures Spelled(Relative([PROFILES, PROFILE_NAME], PROFILES_DIR)) == PROFILE_NAME
  {
    assert HasSuffix(PROFILE_NAME, ".toml");
    assert Relative([PROFILES, PROFILE_NAME], PROFILES_DIR) == [PROFILE_NAME];
    assert Spelled([PROFILE_NAME]) == PROFILE_NAME;
  }

  lemma LockIsHeld(a: Authority, lock: CatalogLock, t: Tree)
    requires OneProfile(lock) && Accepts(a, lock)
    requires forall p | IsFile(p) :: HasContent(t, p)
    requires forall p | p in t :: (IsFile(p) && HasContent(t, p)) || p in DIRECTORIES
    requires IsDir(t, PROFILES_DIR)
    ensures LockHolds(a.reader, t, lock, PROFILES_DIR, KEYRING_PATH)
  {
    ShapeIsValid(lock);
    HeldFiles(t);
    ReadsContent(t, KEYRING_PATH, MAX_CATALOG_FILE_BYTES);
    OneDiscovered(t);
    ProfilesAreHeld(a, lock, t);
    SourcesAreHeld(a, lock, t);
    assert Parent(PROFILES_DIR) == [];
  }

  lemma OneEntry(entry: CatalogProfile)
    requires entry.path == PROFILE_NAME
    ensures EntryPaths([entry]) == [PROFILE_NAME] && ToSet(EntryPaths([entry])) == {PROFILE_NAME}
  {
    assert EntryPaths([entry]) == [PROFILE_NAME];
    assert ToSet([PROFILE_NAME]) == {PROFILE_NAME};
  }

  lemma ProfilesAreHeld(a: Authority, lock: CatalogLock, t: Tree)
    requires lock.profile == [CatalogProfile(PROFILE_NAME, Zeros(64), Zeros(64))]
    requires forall b :: a.reader.digest(b) == Zeros(64)
    requires HasContent(t, [PROFILES, PROFILE_NAME]) && HasContent(t, [PROFILES, SIGNATURE_NAME])
    requires Discovered(t, PROFILES_DIR, PROFILES_DIR) == {PROFILE_NAME} && NoSymlinkBelow(t, PROFILES_DIR)
    ensures ProfilesHold(a.reader, t, lock, PROFILES_DIR)
  {
    ProfileHolds(a.reader, t, lock.profile[0]);
    OneEntry(lock.profile[0]);
  }

  lemma SourcesAreHeld(a: Authority, lock: CatalogLock, t: Tree)
    requires OneProfile(lock) && Accepts(a, lock)
    requires forall p | IsFile(p) :: HasContent(t, p)
    ensures SourcesHold(a.reader, t, lock, [])
  {
    var paths := SourcePaths(lock.driverSource);
    assert ToSet(paths) == RequiredSources();
    forall i, j | 0 <= i < j < |paths| ensures paths[i] != paths[j] {
      LessIrreflexive(paths[i]);
    }
    forall source | source in lock.driverSource ensures SourceHolds(a.reader, t, [], source) {
      var i :| 0 <= i < |lock.driverSource| && lock.driverSource[i] == source;
      assert paths[i] == source.path && paths[i] in paths;
      var name := RequiredName(source.path);
      SourceIsHeld(a.reader, t, source, name);
    }
  }

  lemma ContentIsAbi()
    ensures ValidDriverAbi(Trim(CONTENT))
  {
    assert TrimStart(CONTENT) == CONTENT && TrimEnd(CONTENT) == CONTENT;
    assert CONTENT == "1" + ([ '.' ] + "0");
    BeforeAppend("1", ".0", '.');
    assert CONTENT == "1" + ".0" && CONTENT[2..] == "0";
  }

  lemma OneProfileLoads(a: Authority, lock: CatalogLock, t: Tree)
    requires Accepts(a, lock)
    requires forall p | p in t && PROFILES_DIR < p && IsTomlFile(t, p) :: p == [PROFILES, PROFILE_NAME]
    requires HasContent(t, [PROFILES, SIGNATURE_NAME])
    ensures ProfilesLoad(a, t, CONTENT)
  {
    SignatureOfProfile();
  }

  lemma KeysAreAccepted(a: Authority, lock: CatalogLock, t: Tree)
    requires Accepts(a, lock)
    requires ProfilesLoad(a, t, CONTENT)
    requires HasContent(t, KEYRING_PATH) && HasContent(t, ["driver-abi"])
    requires HasContent(t, ["packages.toml"]) && HasContent(t, ["packages.toml.sig"])
    ensures KeysAccept(a, t) && AbiReadable(a, t)
  {
    ContentIsAbi();
    ReadsContent(t, ["packages.toml"], MAX_OBJECT_BYTES);
    ReadsContent(t, ["packages.toml.sig"], MAX_SIGNATURE_BYTES);
    ReadsContent(t, ["driver-abi"], MAX_SIGNATURE_BYTES);
  }

  // ----- The manifest

  /** A path the manifest may list, and the file it names. */
  ghost predicate Names(path: string, p: Path) {
    && Components(path) == p && IsFile(p) && !MentionsParent(path)
    && 0 < |path| <= 100 && path[0] != '/' && path[|path| - 1] != '/'
  }

  lemma ShortNames()
    ensures |PROFILES| == 8 && |DRIVER_SOURCES| == 14 && |PROFILE_NAME| == 6 && |SIGNATURE_NAME| == 10
    ensures forall name | name in FIXED_PATHS :: |name| <= 17
    ensures forall name | name in REQUIRED_NAMES :: |name| <= 23
  {
  }

  lemma NameNames(name: string)
    requires name in FIXED_PATHS
    ensures Names(name, [name])
  {
    ProperNames();
    ShortNames();
    NameIsComponent(name);
  }

  lemma PairNames(directory: string, name: string)
    requires IsFile([directory, name])
    ensures Names(directory + "/" + name, [directory, name])
  {
    ProperNames();
    ShortNames();
    PairIsComponents(directory, name);
    var path := directory + "/" + name;
    assert path[0] == directory[0] && path[|path| - 1] == name[|name| - 1];
  }

  lemma EntryNames(lock: CatalogLock)
    requires OneProfile(lock)
    ensures ToSet(EntryPaths(lock.profile)) == {PROFILE_NAME}
    ensures ExpectedPaths(lock)
            == FIXED_PATHS + RequiredSources() + {PROFILES + "/" + PROFILE_NAME} + {PROFILES + "/" + SIGNATURE_NAME}
  {
    assert EntryPaths(lock.profile) == [PROFILE_NAME];
    var entries := ToSet(EntryPaths(lock.profile));
    assert entries == {PROFILE_NAME};
    var file, signature := PROFILES + "/" + PROFILE_NAME, PROFILES + "/" + SIGNATURE_NAME;
    assert file + "" == file && PROFILES + "/" + PROFILE_NAME + ".sig" == signature;
    assert ProfileFiles(entries) == {file};
    assert SignatureFiles(entries) == {signature};
  }

  lemma ExpectedNames(lock: CatalogLock, path: string) returns (p: Path)
    requires OneProfile(lock) && path in ExpectedPaths(lock)
    ensures Names(path, p)
  {
    EntryNames(lock);
    if path in FIXED_PATHS {
      NameNames(path);
      p := [path];
    } else if path in RequiredSources() {
      var name := RequiredName(path);
      PairNames(DRIVER_SOURCES, name);
      p := [DRIVER_SOURCES, name];
    } else if path == PROFILES + "/" + PROFILE_NAME {
      PairNames(PROFILES, PROFILE_NAME);
      p := [PROFILES, PROFILE_NAME];
    } else {
      PairNames(PROFILES, SIGNATURE_NAME);
      p := [PROFILES, SIGNATURE_NAME];
    }
  }

  /** The manifest lists the expected paths, each under a URL of its own. */
  ghost predicate ListsExpected(m: RepositoryManifest, lock: CatalogLock) {
    && m.format == REPOSITORY_FORMAT && m.repository == "arach-hardware" && m.snapshot == "s"
    && Map(m.objects, ObjectPath) == Ascending(ExpectedPaths(lock))
    && forall i | 0 <= i < |m.objects| ::
         m.objects[i].url == "https://" + Zeros(i) && m.objects[i].sha256 == Zeros(64) && m.objects[i].size == 3
  }

  lemma TwelveExpected(lock: CatalogLock)
    requires OneProfile(lock)
    ensures |ExpectedPaths(lock)| == 12
  {
    EntryNames(lock);
    assert EndsWith(PROFILE_NAME, 'l');
    ExpectedCount(lock);
  }

  lemma {:induction false} SizesSum(objects: seq<RepositoryObject>)
    requires forall o | o in objects :: o.size == 3
    ensures TotalSize(objects) == 3 * |objects|
  {
    if objects != [] {
      SizesSum(objects[..|objects| - 1]);
    }
  }

  lemma UrlIsValid(n: nat)
    requires n <= 4000
    ensures ValidHttpsUrl("https://" + Zeros(n))
  {
    var prefix, url := "https://", "https://" + Zeros(n);
    assert url[..8] == prefix;
    forall c | c in url ensures c != '@' && c != '#' && !IsAsciiWhitespace(c) && 32 <= c as int != 127 {
      assert c in prefix || c in Zeros(n);
    }
  }

  lemma ObjectIsValid(lock: CatalogLock, o: RepositoryObject, n: nat)
    requires OneProfile(lock) && o.path in ExpectedPaths(lock) && n <= 4000
    requires o.url == "https://" + Zeros(n) && o.sha256 == Zeros(64) && o.size == 3
    ensures ValidObject(o)
  {
    var p := ExpectedNames(lock, o.path);
    UrlIsValid(n);
  }

  lemma ListedObjects(m: RepositoryManifest, lock: CatalogLock)
    requires OneProfile(lock) && ListsExpected(m, lock)
    ensures |m.objects| == 12 && ToSet(Map(m.objects, ObjectPath)) == ExpectedPaths(lock)
    ensures forall i | 0 <= i < |m.objects| :: m.objects[i].path in ExpectedPaths(lock)
    ensures Profile.Distinct(Map(m.objects, ObjectPath))
  {
    var paths := Map(m.objects, ObjectPath);
    TwelveExpected(lock);
    EnumerationLength(paths, ExpectedPaths(lock));
    forall i, j | 0 <= i < j < |paths| ensures paths[i] != paths[j] {
      LessIrreflexive(paths[i]);
    }
    forall i | 0 <= i < |m.objects| ensures m.objects[i].path in ExpectedPaths(lock) {
      assert paths[i] in paths;
    }
  }

  lemma UrlsDistinct(m: RepositoryManifest, lock: CatalogLock)
    requires ListsExpected(m, lock)
    ensures Profile.Distinct(Map(m.objects, ObjectUrl))
  {
    forall i, j | 0 <= i < j < |m.objects| ensures m.objects[i].url != m.objects[j].url {
      assert |m.objects[i].url| == 8 + i && |m.objects[j].url| == 8 + j;
    }
  }

  lemma ObjectsValid(m: RepositoryManifest, lock: CatalogLock)
    requires OneProfile(lock) && ListsExpected(m, lock)
    ensures forall o | o in m.objects :: ValidObject(o)
    ensures TotalSize(m.objects) == 36
  {
    ListedObjects(m, lock);
    forall o | o in m.objects ensures ValidObject(o) && o.size == 3 {
      var i :| 0 <= i < |m.objects| && m.objects[i] == o;
      ObjectIsValid(lock, o, i);
    }
    SizesSum(m.objects);
  }

  lemma SnapshotNamed()
    ensures Trim("s") != ""
  {
    assert TrimStart("s") == "s" && TrimEnd("s") == "s";
  }

  lemma ManifestIsValid(m: RepositoryManifest, lock: CatalogLock)
    requires OneProfile(lock) && ListsExpected(m, lock)
    ensures ValidManifest(m)
  {
    ListedObjects(m, lock);
    UrlsDistinct(m, lock);
    ObjectsValid(m, lock);
    SnapshotNamed();
  }

  lemma ObjectIsHeld(a: Authority, lock: CatalogLock, t: Tree, o: RepositoryObject)
    requires OneProfile(lock) && o.path in ExpectedPaths(lock) && o.sha256 == Zeros(64) && o.size == 3
    requires (forall b :: a.reader.digest(b) == Zeros(64)) && forall p | IsFile(p) :: HasContent(t, p)
    ensures Components(o.path) in t && IsObject(a, t[Components(o.path)], o)
  {
    var p := ExpectedNames(lock, o.path);
    assert HasContent(t, p);
  }

  lemma FilesApart(p: Path, q: Path)
    requires IsFile(p) && IsFile(q)
    ensures p != [] && !(p < q)
  {
    ProperNames();
  }

  lemma FilesPlaceable(m: RepositoryManifest)
    requires forall i | 0 <= i < |m.objects| :: IsFile(Components(m.objects[i].path))
    ensures Placeable(m)
  {
    forall i, j | 0 <= i < j < |m.objects|
      ensures !(Components(m.objects[i].path) < Components(m.objects[j].path))
    {
      FilesApart(Components(m.objects[i].path), Components(m.objects[j].path));
    }
  }

  lemma ManifestIsPlaceable(m: RepositoryManifest, lock: CatalogLock)
    requires OneProfile(lock) && forall i | 0 <= i < |m.objects| :: m.objects[i].path in ExpectedPaths(lock)
    ensures Placeable(m)
  {
    forall i | 0 <= i < |m.objects| ensures IsFile(Components(m.objects[i].path)) {
      var p := ExpectedNames(lock, m.objects[i].path);
    }
    FilesPlaceable(m);
  }

  // ----- Together

  lemma LockExists() returns (lock: CatalogLock)
    ensures OneProfile(lock)
  {
    var sources := Map(Ascending(RequiredSources()), (path: string) => CatalogDriverSource(path, Zeros(64)));
    lock := CatalogLock(CATALOG_LOCK_FORMAT, "s", Zeros(64), RECIPES, Zeros(40),
                        [CatalogProfile(PROFILE_NAME, Zeros(64), Zeros(64))], sources);
    assert SourcePaths(sources) == Ascending(RequiredSources());
  }

  lemma AuthorityExists(lock: CatalogLock, m: RepositoryManifest) returns (a: Authority)
    ensures Accepts(a, lock) && Signs(a, m)
  {
    a := Authority(Reader(_ => Zeros(64), _ => Some(lock)), (_, _) => true, _ => Some(m), _ => true,
                   (_, _, _) => Some("id"), (_, _, _) => true, _ => true);
  }

  lemma ManifestExists(lock: CatalogLock) returns (m: RepositoryManifest)
    ensures ListsExpected(m, lock)
  {
    var paths := Ascending(ExpectedPaths(lock));
    var objects := seq(|paths|, i requires 0 <= i < |paths| =>
                         RepositoryObject(paths[i], "https://" + Zeros(i), Zeros(64), 3));
    m := RepositoryManifest(REPOSITORY_FORMAT, "arach-hardware", "s", objects);
    assert Map(m.objects, ObjectPath) == paths;
  }

  lemma TreeExists() returns (t: Tree)
    ensures WellFormed(t) && IsDir(t, PROFILES_DIR)
    ensures forall p | IsFile(p) :: HasContent(t, p)
    ensures forall p | p in t && !IsFile(p) :: p in DIRECTORIES && t[p] == Dir
  {
    var files := (set name | name in FIXED_PATHS :: [name])
                 + (set name | name in REQUIRED_NAMES :: [DRIVER_SOURCES, name])
                 + {[PROFILES, PROFILE_NAME], [PROFILES, SIGNATURE_NAME]};
    FilesHeld(files);
    TreeIsWellFormed(files);
    t := TreeOf(files);
  }

  lemma FilesHeld(files: set<Path>)
    requires files == (set name | name in FIXED_PATHS :: [name])
                      + (set name | name in REQUIRED_NAMES :: [DRIVER_SOURCES, name])
                      + {[PROFILES, PROFILE_NAME], [PROFILES, SIGNATURE_NAME]}
    ensures HoldsFiles(files)
  {
    forall p ensures p in files <==> IsFile(p) {
      if IsFile(p) && |p| == 1 {
        assert p == [p[0]];
      }
      if IsSourceFile(p) {
        assert p == [DRIVER_SOURCES, p[1]];
      }
    }
  }

  lemma PartsVerify(a: Authority, m: RepositoryManifest, lock: CatalogLock, t: Tree)
    requires ToSet(Map(m.objects, ObjectPath)) == ExpectedPaths(lock)
    requires LockAt(a.reader, t, LOCK_PATH) == Some(lock) && LockHolds(a.reader, t, lock, PROFILES_DIR, KEYRING_PATH)
    requires KeysAccept(a, t) && AbiReadable(a, t)
    ensures StagedCatalogHolds(a, m, t)
  {
  }

  lemma KeysInTree(a: Authority, lock: CatalogLock, t: Tree)
    requires Accepts(a, lock) && forall p | IsFile(p) :: HasContent(t, p)
    requires forall p | p in t && !IsFile(p) :: p in DIRECTORIES && t[p] == Dir
    ensures KeysAccept(a, t) && AbiReadable(a, t)
  {
    HeldFiles(t);
    OneDiscovered(t);
    OneProfileLoads(a, lock, t);
    KeysAreAccepted(a, lock, t);
  }

  lemma LockInTree(a: Authority, lock: CatalogLock, t: Tree)
    requires Accepts(a, lock) && forall p | IsFile(p) :: HasContent(t, p)
    ensures LockAt(a.reader, t, LOCK_PATH) == Some(lock)
  {
    HeldFiles(t);
    ReadsContent(t, LOCK_PATH, MAX_CATALOG_LOCK_BYTES);
  }

  lemma TreeVerifies(a: Authority, m: RepositoryManifest, lock: CatalogLock, t: Tree)
    requires OneProfile(lock) && Accepts(a, lock) && ToSet(Map(m.objects, ObjectPath)) == ExpectedPaths(lock)
    requires IsDir(t, PROFILES_DIR) && forall p | IsFile(p) :: HasContent(t, p)
    requires forall p | p in t && !IsFile(p) :: p in DIRECTORIES && t[p] == Dir
    ensures StagedCatalogHolds(a, m, t)
  {
    LockIsHeld(a, lock, t);
    KeysInTree(a, lock, t);
    LockInTree(a, lock, t);
    PartsVerify(a, m, lock, t);
  }

  /** A tree planted in an otherwise empty file system, right below the root. */
  function Planted(t: Tree, name: string): Tree {
    Raised(t, [name])[[] := Dir]
  }

  lemma PlantedAt(t: Tree, name: string, p: Path)
    ensures [name] + p in Planted(t, name) <==> p in t
    ensures p in t ==> Planted(t, name)[[name] + p] == t[p]
  {
    RaisedAt(t, [name], [name] + p);
    assert ([name] + p)[1..] == p;
  }

  lemma PlantedBelow(t: Tree, name: string)
    ensures Below(Planted(t, name), [name]) == t
  {
    var sub := Below(Planted(t, name), [name]);
    forall p ensures (p in sub <==> p in t) && (p in t ==> sub[p] == t[p]) {
      BelowAt(Planted(t, name), [name], p);
      PlantedAt(t, name, p);
    }
  }

  lemma PlantedWellFormed(t: Tree, name: string)
    requires WellFormed(t) && Proper(name)
    ensures WellFormed(Planted(t, name))
  {
    var whole := Planted(t, name);
    forall p | p in whole && p != []
      ensures ProperPath(p) && ProperEntry(whole[p]) && IsDir(whole, Parent(p))
    {
      RaisedAt(t, [name], p);
      var q := p[1..];
      assert p == [name] + q;
      if q == [] {
        assert Parent(p) == [];
      } else {
        assert Parent(p) == [name] + Parent(q);
        PlantedAt(t, name, Parent(q));
      }
    }
  }

  /** Fetches that leave a tree at the stage. */
  function LogOf(m: RepositoryManifest, name: string, t: Tree): seq<Delivery> {
    seq(|m.objects|, k requires 0 <= k < |m.objects| =>
      Delivery([name] + Components(m.objects[k].path), Planted(t, name)))
  }

  lemma LogIsRight(a: Authority, m: RepositoryManifest, t: Tree, name: string)
    requires forall o | o in m.objects :: Components(o.path) in t && IsObject(a, t[Components(o.path)], o)
    ensures Logged(m, [name], LogOf(m, name, t)) && AllRight(a, m, LogOf(m, name, t))
  {
    var log := LogOf(m, name, t);
    forall k | 0 <= k < |log| ensures RightAt(a, m.objects[k], log[k]) {
      assert m.objects[k] in m.objects;
      PlantedAt(t, name, Components(m.objects[k].path));
    }
  }

  lemma ObjectsAreHeld(a: Authority, m: RepositoryManifest, lock: CatalogLock, t: Tree)
    requires OneProfile(lock) && ListsExpected(m, lock) && forall b :: a.reader.digest(b) == Zeros(64)
    requires forall p | IsFile(p) :: HasContent(t, p)
    ensures forall o | o in m.objects :: Components(o.path) in t && IsObject(a, t[Components(o.path)], o)
  {
    ListedObjects(m, lock);
    forall o | o in m.objects ensures Components(o.path) in t && IsObject(a, t[Components(o.path)], o) {
      var i :| 0 <= i < |m.objects| && m.objects[i] == o;
      ObjectIsHeld(a, lock, t, o);
    }
  }

  lemma LogTrees(m: RepositoryManifest, t: Tree, name: string)
    requires WellFormed(t) && Proper(name) && m.objects != []
    ensures var log := LogOf(m, name, t);
            Below(log[|log| - 1].tree, [name]) == t && forall d | d in log :: WellFormed(d.tree)
  {
    PlantedBelow(t, name);
    PlantedWellFormed(t, name);
  }

  lemma AllDelivered(a: Authority, m: RepositoryManifest, stage: Path, log: seq<Delivery>)
    requires |log| == |m.objects| > 0 && AllRight(a, m, log)
    requires StagedCatalogHolds(a, m, Below(log[|log| - 1].tree, stage))
    ensures Delivered(a, m, stage, log)
  {
  }

  lemma DeliveryExists(a: Authority, m: RepositoryManifest, t: Tree, name: string) returns (log: seq<Delivery>)
    requires m.objects != [] && WellFormed(t) && Proper(name) && StagedCatalogHolds(a, m, t)
    requires forall o | o in m.objects :: Components(o.path) in t && IsObject(a, t[Components(o.path)], o)
    ensures Logged(m, [name], log) && Delivered(a, m, [name], log) && forall d | d in log :: WellFormed(d.tree)
  {
    log := LogOf(m, name, t);
    LogIsRight(a, m, t, name);
    LogTrees(m, t, name);
    AllDelivered(a, m, [name], log);
  }

  lemma RequestExists(a: Authority, m: RepositoryManifest) returns (q: Request, t0: Tree)
    requires Signs(a, m) && ValidManifest(m) && Placeable(m)
    ensures WellFormed(t0) && Publishable(a, q, t0) && !LeadsToStage(t0, q)
    ensures a.parseManifest(q.manifest) == Some(m) && StageOf(q) == [q.stageName] && Proper(q.stageName)
  {
    q, t0 := Request("m", "", ["catalog"], "stage"), map[[] := Dir];
    assert |"catalog"| == 7 && |"stage"| == 5;
    assert Parent(q.output) == [] && StageOf(q)[0] == "stage";
    AbsentIsMissing(t0, q.output);
    assert q.output[0] != StageOf(q)[0];
  }

  /** What a run has to meet to succeed can be met: there is a publishable request on an empty file
      system, whose output does not lead to its stage, and a delivery of the whole catalog. */
  lemma SomeRequestIsDelivered()
    returns (a: Authority, m: RepositoryManifest, q: Request, t0: Tree, log: seq<Delivery>)
    ensures WellFormed(t0) && Publishable(a, q, t0) && !LeadsToStage(t0, q)
    ensures a.parseManifest(q.manifest) == Some(m)
    ensures Logged(m, StageOf(q), log) && Delivered(a, m, StageOf(q), log)
    ensures forall d | d in log :: WellFormed(d.tree)
  {
    var lock, t;
    lock, a, m, t := CatalogExists();
    q, t0 := RequestExists(a, m);
    log := DeliveryExists(a, m, t, q.stageName);
  }

  lemma CatalogExists() returns (lock: CatalogLock, a: Authority, m: RepositoryManifest, t: Tree)
    ensures Signs(a, m) && ValidManifest(m) && Placeable(m) && m.objects != []
    ensures WellFormed(t) && StagedCatalogHolds(a, m, t)
    ensures forall o | o in m.objects :: Components(o.path) in t && IsObject(a, t[Components(o.path)], o)
  {
    lock := LockExists();
    m := ManifestExists(lock);
    a := AuthorityExists(lock, m);
    t := TreeExists();
    ManifestIsValid(m, lock);
    ListedObjects(m, lock);
    ManifestIsPlaceable(m, lock);
    TreeVerifies(a, m, lock, t);
    ObjectsAreHeld(a, m, lock, t);
  }
}
