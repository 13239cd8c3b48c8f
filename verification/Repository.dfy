/** Repository manifests and the checks on a staged catalog (src/repository.rs). A staged catalog
    is a tree of its own, with the staging root as its origin. */
module Repository {
  import opened Wrappers
  import opened Text
  import opened Sorting
  import opened FileTree
  import opened Paths
  import opened Catalog
  import Profile

  const REPOSITORY_FORMAT := 1
  const MAX_SIGNATURE_BYTES := 64 * 1024
  const MAX_OBJECT_BYTES := 64 * 1024 * 1024
  const MAX_TOTAL_BYTES := 512 * 1024 * 1024
  const MAX_OBJECTS := 4096
  const U64_MAX := 0xffff_ffff_ffff_ffff

  datatype RepositoryObject = RepositoryObject(path: string, url: string, sha256: string, size: nat)

  datatype RepositoryManifest = RepositoryManifest(
    format: nat, repository: string, snapshot: string, objects: seq<RepositoryObject>)

  datatype RepositoryError = Io | Parse | Invalid | Signature | Download | Catalog

  /** Signatures, digests and TOML, taken as arbitrary functions of the bytes they read. */
  datatype Authority = Authority(
    reader: Reader,
    acceptsManifest: (Bytes, string) -> bool,
    parseManifest: Bytes -> Option<RepositoryManifest>,
    loadsKeyring: Bytes -> bool,
    profileId: (Bytes, Bytes, Bytes) -> Option<string>,
    acceptsIndex: (Bytes, Bytes, Bytes) -> bool,
    isUtf8: Bytes -> bool)

  // ----- Manifest validation

  /** `safe_relative`: the components of a bounded relative path. */
  function SafeRelative(value: string): Option<Path> {
    if value == "" || |value| > 4096 || IsAbsolute(value) || HasSuffix(value, "/") || MentionsParent(value) then None
    else Some(Components(value))
  }

  predicate ValidHttpsUrl(value: string) {
    HasPrefix(value, "https://") && |value| <= 4096
    && forall c | c in value :: c != '@' && c != '#' && !IsAsciiWhitespace(c) && 32 <= c as int != 127
  }

  predicate ValidObject(o: RepositoryObject) {
    SafeRelative(o.path).Some? && Profile.ValidDigest(o.sha256) && 0 < o.size <= MAX_OBJECT_BYTES
    && ValidHttpsUrl(o.url)
  }

  predicate ValidHeader(m: RepositoryManifest) {
    m.format == REPOSITORY_FORMAT && m.repository == "arach-hardware" && Trim(m.snapshot) != ""
    && 0 < |m.objects| <= MAX_OBJECTS
  }

  function ObjectPath(o: RepositoryObject): string {
    o.path
  }

  function ObjectUrl(o: RepositoryObject): string {
    o.url
  }

  function TotalSize(objects: seq<RepositoryObject>): nat {
    if objects == [] then 0 else TotalSize(objects[..|objects| - 1]) + objects[|objects| - 1].size
  }

  lemma {:induction false} PrefixSize(objects: seq<RepositoryObject>, n: nat)
    requires n <= |objects|
    ensures TotalSize(objects[..n]) <= TotalSize(objects)
    decreases |objects|
  {
    if n < |objects| {
      PrefixSize(objects[..|objects| - 1], n);
      assert objects[..|objects| - 1][..n] == objects[..n];
    } else {
      assert objects[..n] == objects;
    }
  }

  predicate ValidManifest(m: RepositoryManifest) {
    && ValidHeader(m)
    && (forall o | o in m.objects :: ValidObject(o))
    && Profile.Distinct(Map(m.objects, ObjectPath))
    && Profile.Distinct(Map(m.objects, ObjectUrl))
    && TotalSize(m.objects) <= MAX_TOTAL_BYTES
  }

  /** The loop over the objects: each valid, no path or URL twice, a bounded total. The running
      total never comes near 64 bits, so the program's overflow check cannot fire. */
  method ValidateObjects(objects: seq<RepositoryObject>, valid: RepositoryObject -> bool) returns (ok: bool)
    requires forall o | valid(o) :: o.size <= MAX_OBJECT_BYTES
    ensures ok <==> && (forall o | o in objects :: valid(o))
                    && Profile.Distinct(Map(objects, ObjectPath))
                    && Profile.Distinct(Map(objects, ObjectUrl))
                    && TotalSize(objects) <= MAX_TOTAL_BYTES
  {
    var paths: set<string>, urls: set<string>, total: nat := {}, {}, 0;
    for i := 0 to |objects|
      invariant Accepted(objects, i, valid, paths, urls, total)
    {
      var o := objects[i];
      OneMoreObject(objects, i, valid, paths, urls, total);
      if o.path in paths || o.url in urls || !valid(o) {
        return false;
      }
      assert total + o.size <= U64_MAX;
      paths, urls, total := paths + {o.path}, urls + {o.url}, total + o.size;
      if total > MAX_TOTAL_BYTES {
        return false;
      }
    }
    AllAccepted(objects, valid, paths, urls, total);
    return true;
  }

  /** What the loop has established after i objects. */
  ghost predicate Accepted(
    objects: seq<RepositoryObject>, i: nat, valid: RepositoryObject -> bool,
    paths: set<string>, urls: set<string>, total: nat)
    requires i <= |objects|
  {
    && (forall j | 0 <= j < i :: valid(objects[j]))
    && paths == ToSet(Map(objects[..i], ObjectPath)) && Profile.Distinct(Map(objects[..i], ObjectPath))
    && urls == ToSet(Map(objects[..i], ObjectUrl)) && Profile.Distinct(Map(objects[..i], ObjectUrl))
    && total == TotalSize(objects[..i]) <= MAX_TOTAL_BYTES
  }

  lemma OneMoreName(objects: seq<RepositoryObject>, i: nat, name: RepositoryObject -> string)
    requires i < |objects| && Profile.Distinct(Map(objects[..i], name))
    ensures var seen := ToSet(Map(objects[..i], name));
            var o := objects[i];
            && ToSet(Map(objects[..i + 1], name)) == seen + {name(o)}
            && (Profile.Distinct(Map(objects[..i + 1], name)) <==> name(o) !in seen)
            && (name(o) in seen ==> !Profile.Distinct(Map(objects, name)))
  {
    var before, after := Map(objects[..i], name), Map(objects[..i + 1], name);
    assert after == before + [name(objects[i])];
    if name(objects[i]) in ToSet(before) {
      var j :| 0 <= j < i && before[j] == name(objects[i]);
      assert Map(objects, name)[j] == Map(objects, name)[i] && after[j] == after[i];
    }
  }

  lemma OneMoreObject(
    objects: seq<RepositoryObject>, i: nat, valid: RepositoryObject -> bool,
    paths: set<string>, urls: set<string>, total: nat)
    requires i < |objects| && Accepted(objects, i, valid, paths, urls, total)
    ensures var o := objects[i];
            && o in objects
            && (o.path in paths ==> !Profile.Distinct(Map(objects, ObjectPath)))
            && (o.url in urls ==> !Profile.Distinct(Map(objects, ObjectUrl)))
            && total + o.size <= TotalSize(objects)
            && (o.path !in paths && o.url !in urls && valid(o) && total + o.size <= MAX_TOTAL_BYTES ==>
                  Accepted(objects, i + 1, valid, paths + {o.path}, urls + {o.url}, total + o.size))
  {
    OneMoreName(objects, i, ObjectPath);
    OneMoreName(objects, i, ObjectUrl);
    assert objects[..i + 1][..i] == objects[..i];
    PrefixSize(objects, i + 1);
  }

  lemma AllAccepted(
    objects: seq<RepositoryObject>, valid: RepositoryObject -> bool,
    paths: set<string>, urls: set<string>, total: nat)
    requires Accepted(objects, |objects|, valid, paths, urls, total)
    ensures (forall o | o in objects :: valid(o)) && TotalSize(objects) <= MAX_TOTAL_BYTES
    ensures Profile.Distinct(Map(objects, ObjectPath)) && Profile.Distinct(Map(objects, ObjectUrl))
  {
    assert objects[..|objects|] == objects;
  }

  /** Accepts exactly the valid manifests. */
  method ValidateManifest(m: RepositoryManifest) returns (ok: bool)
    ensures ok <==> ValidManifest(m)
  {
    if !ValidHeader(m) {
      return false;
    }
    ok := ValidateObjects(m.objects, ValidObject);
  }

  // ----- The paths a lock entitles a snapshot to

  const PROFILES := "profiles"

  const FIXED_PATHS: set<string> := {"keys.toml", "catalog.lock", "packages.toml", "packages.toml.sig", "driver-abi"}

  function ProfileFiles(entries: set<string>): set<string> {
    Affix(entries, PROFILES + "/", "")
  }

  function SignatureFiles(entries: set<string>): set<string> {
    Affix(entries, PROFILES + "/", ".sig")
  }

  function ExpectedPaths(lock: CatalogLock): set<string> {
    var entries := ToSet(EntryPaths(lock.profile));
    FIXED_PATHS + RequiredSources() + ProfileFiles(entries) + SignatureFiles(entries)
  }

  // ----- What a staged catalog must satisfy

  predicate ValidDriverAbi(value: string) {
    var major := Before(value, '.');
    |major| < |value| &&
    var minor := value[|major| + 1..];
    major != "" && minor != "" && Profile.AllDigits(major) && Profile.AllDigits(minor)
  }

  const PROFILES_DIR: Path := [PROFILES]
  const KEYRING_PATH: Path := ["keys.toml"]
  const LOCK_PATH: Path := ["catalog.lock"]

  /** Every profile file verifies under its detached signature, and no two share an id. */
  predicate ProfilesLoad(a: Authority, t: Tree, keyring: Bytes) {
    && (forall p | p in t && PROFILES_DIR < p && IsTomlFile(t, p) ::
          SignaturePath(p) in t && t[SignaturePath(p)].File? && a.isUtf8(t[SignaturePath(p)].bytes)
          && a.profileId(keyring, t[p].bytes, t[SignaturePath(p)].bytes).Some?)
    && (forall p, q | p in t && q in t && PROFILES_DIR < p && PROFILES_DIR < q && IsTomlFile(t, p) && IsTomlFile(t, q)
          && SignaturePath(p) in t && t[SignaturePath(p)].File? && SignaturePath(q) in t && t[SignaturePath(q)].File?
          && a.profileId(keyring, t[p].bytes, t[SignaturePath(p)].bytes)
             == a.profileId(keyring, t[q].bytes, t[SignaturePath(q)].bytes) ::
          p == q)
  }

  predicate KeysAccept(a: Authority, t: Tree) {
    KEYRING_PATH in t && t[KEYRING_PATH].File? &&
    var keys := t[KEYRING_PATH].bytes;
    var index := ReadBounded(t, ["packages.toml"], MAX_OBJECT_BYTES);
    var signature := ReadBounded(t, ["packages.toml.sig"], MAX_SIGNATURE_BYTES);
    && a.isUtf8(keys) && a.loadsKeyring(keys)
    && ProfilesLoad(a, t, keys)
    && index.Some? && signature.Some? && a.isUtf8(signature.value)
    && a.acceptsIndex(keys, index.value, signature.value)
  }

  predicate AbiReadable(a: Authority, t: Tree) {
    var abi := ReadBounded(t, ["driver-abi"], MAX_SIGNATURE_BYTES);
    abi.Some? && a.isUtf8(abi.value) && ValidDriverAbi(Trim(abi.value))
  }

  /** `verify_staged_catalog`, as a property of the staged tree. */
  ghost predicate StagedCatalogHolds(a: Authority, m: RepositoryManifest, t: Tree) {
    var lock := LockAt(a.reader, t, LOCK_PATH);
    && lock.Some? && LockHolds(a.reader, t, lock.value, PROFILES_DIR, KEYRING_PATH)
    && KeysAccept(a, t)
    && AbiReadable(a, t)
    && ToSet(Map(m.objects, ObjectPath)) == ExpectedPaths(lock.value)
  }

  // ----- What a verified catalog is, told by its files

  /** The bytes of the regular file at a path, if there is one. */
  function FileAt(t: Tree, p: Path): Bytes {
    if p in t && t[p].File? then t[p].bytes else ""
  }

  predicate HasFile(t: Tree, p: Path) {
    p in t && t[p].File?
  }

  /** The package index is signed for the keyring: all three files are there, and the authority
      accepts their bytes. */
  ghost predicate IndexSigned(a: Authority, t: Tree) {
    && HasFile(t, ["keys.toml"]) && HasFile(t, ["packages.toml"]) && HasFile(t, ["packages.toml.sig"])
    && |FileAt(t, ["packages.toml"])| <= 0x400_0000 && |FileAt(t, ["packages.toml.sig"])| <= 0x1_0000
    && a.loadsKeyring(FileAt(t, ["keys.toml"]))
    && a.acceptsIndex(FileAt(t, ["keys.toml"]), FileAt(t, ["packages.toml"]), FileAt(t, ["packages.toml.sig"]))
  }

  /** The file NAME.toml in a directory below `profiles`, and its signature file. */
  function ProfilePath(directory: Path, name: string): Path {
    ["profiles"] + directory + [name + ".toml"]
  }

  function ProfileSignature(directory: Path, name: string): Path {
    ["profiles"] + directory + [name + ".toml.sig"]
  }

  predicate HasProfile(t: Tree, directory: Path, name: string) {
    name != "" && HasFile(t, ProfilePath(directory, name))
  }

  /** Whose profile the authority finds in a file below `profiles` and its signature. */
  function ProfileIdAt(a: Authority, t: Tree, directory: Path, name: string): Option<string> {
    a.profileId(FileAt(t, ["keys.toml"]), FileAt(t, ProfilePath(directory, name)),
                FileAt(t, ProfileSignature(directory, name)))
  }

  /** Every profile file below `profiles` is signed by a file of its own. */
  ghost predicate ProfilesSigned(a: Authority, t: Tree) {
    forall directory: Path, name: string | HasProfile(t, directory, name) ::
      HasFile(t, ProfileSignature(directory, name)) && ProfileIdAt(a, t, directory, name).Some?
  }

  /** No two profile files have one id. */
  ghost predicate ProfilesDiffer(a: Authority, t: Tree) {
    forall directory: Path, name: string, directory': Path, name': string
      | HasProfile(t, directory, name) && HasProfile(t, directory', name')
        && ProfileIdAt(a, t, directory, name) == ProfileIdAt(a, t, directory', name') ::
      directory == directory' && name == name'
  }

  /** A regular file of at most 4 MiB with this digest. */
  predicate FileHasDigest(a: Authority, t: Tree, p: Path, digest: string) {
    HasFile(t, p) && |FileAt(t, p)| <= 0x40_0000 && a.reader.digest(FileAt(t, p)) == digest
  }

  predicate HexText(s: string, n: nat) {
    |s| == n && forall i | 0 <= i < n :: '0' <= s[i] <= '9' || 'a' <= s[i] <= 'f' || 'A' <= s[i] <= 'F'
  }

  /** The lock names its snapshot, its profiles, the recipes and their revision. */
  ghost predicate LockShaped(lock: CatalogLock) {
    && lock.format == 1 && (exists c | c in lock.snapshot :: !IsTrimmed(c)) && lock.profile != []
    && lock.recipeRepository == RECIPES && HexText(lock.recipeRevision, 40) && HexText(lock.keyringSha256, 64)
    && forall entry | entry in lock.profile ::
         HexText(entry.profileSha256, 64) && HexText(entry.signatureSha256, 64)
  }

  /** Every profile file below `profiles` is listed, and nothing there is a link. */
  ghost predicate AllListed(t: Tree, lock: CatalogLock) {
    && (forall directory: Path, name: string | HasProfile(t, directory, name) ::
          exists entry | entry in lock.profile :: Components("profiles/" + entry.path) == ProfilePath(directory, name))
    && forall p | p in t && ["profiles"] < p :: !t[p].Symlink?
  }

  /** Every listed profile and its signature are there, with the digests listed. */
  ghost predicate EntriesKept(a: Authority, t: Tree, lock: CatalogLock) {
    forall entry | entry in lock.profile ::
      && FileHasDigest(a, t, Components("profiles/" + entry.path), entry.profileSha256)
      && FileHasDigest(a, t, Components("profiles/" + entry.path + ".sig"), entry.signatureSha256)
  }

  /** The five driver sources are listed, and what is listed is there, with the digest listed. */
  ghost predicate SourcesKept(a: Authority, t: Tree, lock: CatalogLock) {
    && (forall source | source in lock.driverSource :: FileHasDigest(a, t, Components(source.path), source.sha256))
    && forall name | name in REQUIRED_NAMES ::
         exists source | source in lock.driverSource :: source.path == "driver-sources/" + name
  }

  /** The lock file has the shape it must have and lists every profile; it holds the digest of the
      keyring, of every profile and signature it lists, and of the five driver sources. */
  ghost predicate LockKept(a: Authority, t: Tree) {
    HasFile(t, ["catalog.lock"]) && |FileAt(t, ["catalog.lock"])| <= 0x40_0000 &&
    match a.reader.parseLock(FileAt(t, ["catalog.lock"]))
    case None => false
    case Some(lock) =>
      && LockShaped(lock) && AllListed(t, lock) && EntriesKept(a, t, lock) && SourcesKept(a, t, lock)
      && FileHasDigest(a, t, ["keys.toml"], lock.keyringSha256)
  }

  /** The driver ABI file holds two runs of digits around a dot. */
  ghost predicate AbiSpelled(t: Tree) {
    exists major: string, minor: string ::
      && Trim(FileAt(t, ["driver-abi"])) == major + ("." + minor)
      && major != "" && minor != "" && Profile.AllDigits(major) && Profile.AllDigits(minor)
  }

  lemma TomlFile(t: Tree, directory: Path, name: string)
    requires HasProfile(t, directory, name)
    ensures var p := ProfilePath(directory, name);
            PROFILES_DIR < p && IsTomlFile(t, p) && SignaturePath(p) == ProfileSignature(directory, name)
  {
    var p := ProfilePath(directory, name);
    assert p[|p| - 1] == name + ".toml" && p[..|p| - 1] == ["profiles"] + directory;
    assert (name + ".toml")[|name|..] == ".toml";
    assert name + ".toml" + ".sig" == name + ".toml.sig";
  }

  lemma IndexIsSigned(a: Authority, t: Tree)
    requires KeysAccept(a, t)
    ensures IndexSigned(a, t)
  {
  }

  lemma ProfileIsSigned(a: Authority, t: Tree, directory: Path, name: string)
    requires KeysAccept(a, t) && HasProfile(t, directory, name)
    ensures HasFile(t, ProfileSignature(directory, name)) && ProfileIdAt(a, t, directory, name).Some?
  {
    TomlFile(t, directory, name);
  }

  lemma SameFile(directory: Path, name: string, directory': Path, name': string)
    requires ProfilePath(directory, name) == ProfilePath(directory', name')
    ensures directory == directory' && name == name'
  {
    var (p, p') := (ProfilePath(directory, name), ProfilePath(directory', name'));
    assert p[1..|p| - 1] == directory && p'[1..|p'| - 1] == directory';
    assert p[|p| - 1] == name + ".toml" && p'[|p'| - 1] == name' + ".toml";
    assert (name + ".toml")[..|name|] == name && (name' + ".toml")[..|name'|] == name';
  }

  lemma SameIdSameFile(
    a: Authority, t: Tree, directory: Path, name: string, directory': Path, name': string)
    requires KeysAccept(a, t) && HasProfile(t, directory, name) && HasProfile(t, directory', name')
    requires ProfileIdAt(a, t, directory, name) == ProfileIdAt(a, t, directory', name')
    ensures directory == directory' && name == name'
  {
    TomlFile(t, directory, name);
    TomlFile(t, directory', name');
    SamePath(a, t, ProfilePath(directory, name), ProfilePath(directory', name'));
    SameFile(directory, name, directory', name');
  }

  lemma SamePath(a: Authority, t: Tree, p: Path, q: Path)
    requires KeysAccept(a, t) && PROFILES_DIR < p && PROFILES_DIR < q && p in t && q in t
    requires IsTomlFile(t, p) && IsTomlFile(t, q)
    requires a.profileId(FileAt(t, ["keys.toml"]), FileAt(t, p), FileAt(t, SignaturePath(p)))
             == a.profileId(FileAt(t, ["keys.toml"]), FileAt(t, q), FileAt(t, SignaturePath(q)))
    ensures p == q
  {
  }

  lemma ProfilesAreSigned(a: Authority, t: Tree)
    requires KeysAccept(a, t)
    ensures ProfilesSigned(a, t)
  {
    forall directory: Path, name: string | HasProfile(t, directory, name)
      ensures HasFile(t, ProfileSignature(directory, name)) && ProfileIdAt(a, t, directory, name).Some?
    {
      ProfileIsSigned(a, t, directory, name);
    }
  }

  lemma ProfilesHaveIds(a: Authority, t: Tree)
    requires KeysAccept(a, t)
    ensures ProfilesDiffer(a, t)
  {
    forall directory: Path, name: string, directory': Path, name': string
      | HasProfile(t, directory, name) && HasProfile(t, directory', name')
        && ProfileIdAt(a, t, directory, name) == ProfileIdAt(a, t, directory', name')
      ensures directory == directory' && name == name'
    {
      SameIdSameFile(a, t, directory, name, directory', name');
    }
  }

  /** Where a listed profile lies. */
  lemma EntryPlace(path: string)
    requires Normal(path)
    ensures Components("profiles/" + path) == PROFILES_DIR + Components(path)
  {
    var p: Path :| p != [] && ProperPath(p) && path == Spelled(p);
    ComponentsOfSpelled(p);
    var whole: Path := [PROFILES] + p;
    assert whole[1..] == p && Spelled(whole) == PROFILES + ['/'] + path;
    assert PROFILES + ['/'] + path == "profiles/" + path;
    ComponentsOfSpelled(whole);
  }

  /** Where the signature of a file lies. */
  lemma SignaturePlace(path: string)
    requires Normal(path)
    ensures Components(path) != [] && Components(path + ".sig") == SignaturePath(Components(path))
  {
    var p: Path :| p != [] && ProperPath(p) && path == Spelled(p);
    ComponentsOfSpelled(p);
    var n := |p| - 1;
    var signed := p[..n] + [p[n] + ".sig"];
    SpelledSuffix(p, ".sig");
    assert p[n] in p && '/' !in p[n] + ".sig";
    forall name | name in signed ensures Proper(name) {
      assert name in p || name == p[n] + ".sig";
    }
    ComponentsOfSpelled(signed);
  }

  lemma ListedEntry(lock: CatalogLock, entry: CatalogProfile)
    requires entry in lock.profile
    ensures entry.path in ToSet(EntryPaths(lock.profile))
  {
    var i :| 0 <= i < |lock.profile| && lock.profile[i] == entry;
    assert EntryPaths(lock.profile)[i] == entry.path;
  }

  lemma EntryFiles(a: Authority, t: Tree, entry: CatalogProfile)
    requires EntryHolds(a.reader, t, PROFILES_DIR, entry)
    ensures var path := PROFILES_DIR + Components(entry.path);
            FileHasDigest(a, t, path, entry.profileSha256)
            && FileHasDigest(a, t, SignaturePath(path), entry.signatureSha256)
  {
  }

  lemma EntryIsKept(a: Authority, t: Tree, lock: CatalogLock, entry: CatalogProfile)
    requires WellFormed(t) && ProfilesHold(a.reader, t, lock, PROFILES_DIR) && entry in lock.profile
    ensures FileHasDigest(a, t, Components("profiles/" + entry.path), entry.profileSha256)
    ensures FileHasDigest(a, t, Components("profiles/" + entry.path + ".sig"), entry.signatureSha256)
  {
    ListedEntry(lock, entry);
    ListedPathsNormal(a.reader, t, lock, PROFILES_DIR, entry.path);
    EntryPlace(entry.path);
    NormalPrepend(PROFILES, entry.path);
    SignaturePlace("profiles/" + entry.path);
    EntryFiles(a, t, entry);
  }

  lemma SourceIsKept(a: Authority, t: Tree, lock: CatalogLock, source: CatalogDriverSource)
    requires SourcesHold(a.reader, t, lock, []) && source in lock.driverSource
    ensures FileHasDigest(a, t, Components(source.path), source.sha256)
  {
    assert SourceHolds(a.reader, t, [], source);
    assert [] + Components(source.path) == Components(source.path);
  }

  lemma SourceIsThere(a: Authority, t: Tree, lock: CatalogLock, name: string)
    requires SourcesHold(a.reader, t, lock, []) && name in REQUIRED_NAMES
    ensures exists source | source in lock.driverSource :: source.path == "driver-sources/" + name
  {
    var path := DRIVER_SOURCES + "/" + name + "";
    assert path == "driver-sources/" + name && path in RequiredSources();
    assert path in ToSet(SourcePaths(lock.driverSource));
    var i :| 0 <= i < |lock.driverSource| && SourcePaths(lock.driverSource)[i] == path;
    assert lock.driverSource[i] in lock.driverSource;
  }

  lemma LockIsShaped(lock: CatalogLock)
    requires ValidLockShape(lock)
    ensures LockShaped(lock)
  {
    TrimBlank(lock.snapshot);
    assert forall s: string, i | 0 <= i < |s| :: s[i] in s;
  }

  lemma ProfileIsListed(a: Authority, t: Tree, lock: CatalogLock, directory: Path, name: string)
    requires WellFormed(t) && ProfilesHold(a.reader, t, lock, PROFILES_DIR) && HasProfile(t, directory, name)
    ensures exists entry | entry in lock.profile ::
              Components("profiles/" + entry.path) == ProfilePath(directory, name)
  {
    var p := ProfilePath(directory, name);
    TomlFile(t, directory, name);
    var relative := Relative(p, PROFILES_DIR);
    assert Spelled(relative) in Discovered(t, PROFILES_DIR, PROFILES_DIR);
    var i :| 0 <= i < |lock.profile| && EntryPaths(lock.profile)[i] == Spelled(relative);
    var entry := lock.profile[i];
    assert entry in lock.profile && relative == p[1..] && forall part | part in relative :: part in p;
    ComponentsOfSpelled(relative);
    assert Normal(entry.path);
    EntryPlace(entry.path);
  }

  lemma AllAreListed(a: Authority, t: Tree, lock: CatalogLock)
    requires WellFormed(t) && ProfilesHold(a.reader, t, lock, PROFILES_DIR)
    ensures AllListed(t, lock)
  {
    forall directory: Path, name: string | HasProfile(t, directory, name)
      ensures exists entry | entry in lock.profile ::
                Components("profiles/" + entry.path) == ProfilePath(directory, name)
    {
      ProfileIsListed(a, t, lock, directory, name);
    }
    assert PROFILES_DIR == ["profiles"];
  }

  lemma EntriesAreKept(a: Authority, t: Tree, lock: CatalogLock)
    requires WellFormed(t) && ProfilesHold(a.reader, t, lock, PROFILES_DIR)
    ensures EntriesKept(a, t, lock)
  {
    forall entry | entry in lock.profile
      ensures FileHasDigest(a, t, Components("profiles/" + entry.path), entry.profileSha256)
      ensures FileHasDigest(a, t, Components("profiles/" + entry.path + ".sig"), entry.signatureSha256)
    {
      EntryIsKept(a, t, lock, entry);
    }
  }

  lemma SourcesAreKept(a: Authority, t: Tree, lock: CatalogLock)
    requires SourcesHold(a.reader, t, lock, [])
    ensures SourcesKept(a, t, lock)
  {
    forall source | source in lock.driverSource ensures FileHasDigest(a, t, Components(source.path), source.sha256) {
      SourceIsKept(a, t, lock, source);
    }
    forall name | name in REQUIRED_NAMES
      ensures exists source | source in lock.driverSource :: source.path == "driver-sources/" + name
    {
      SourceIsThere(a, t, lock, name);
    }
  }

  lemma LockIsKept(a: Authority, t: Tree)
    requires WellFormed(t) && LockAt(a.reader, t, LOCK_PATH).Some?
    requires LockHolds(a.reader, t, LockAt(a.reader, t, LOCK_PATH).value, PROFILES_DIR, KEYRING_PATH)
    ensures LockKept(a, t)
  {
    var lock := LockAt(a.reader, t, LOCK_PATH).value;
    assert Parent(PROFILES_DIR) == [];
    LockIsShaped(lock);
    AllAreListed(a, t, lock);
    EntriesAreKept(a, t, lock);
    SourcesAreKept(a, t, lock);
  }

  lemma AbiIsSpelled(a: Authority, t: Tree)
    requires AbiReadable(a, t)
    ensures AbiSpelled(t)
  {
    var text := Trim(FileAt(t, ["driver-abi"]));
    var major := Before(text, '.');
    var minor := text[|major| + 1..];
    assert text == major + ("." + minor);
  }

  /** A catalog that verifies, told by its files alone. */
  ghost predicate SignedCatalog(a: Authority, t: Tree) {
    IndexSigned(a, t) && ProfilesSigned(a, t) && ProfilesDiffer(a, t) && LockKept(a, t) && AbiSpelled(t)
  }

  lemma VerifiedIsSigned(a: Authority, m: RepositoryManifest, t: Tree)
    requires WellFormed(t) && StagedCatalogHolds(a, m, t)
    ensures SignedCatalog(a, t)
    ensures a.acceptsIndex(FileAt(t, ["keys.toml"]), FileAt(t, ["packages.toml"]), FileAt(t, ["packages.toml.sig"]))
  {
    IndexIsSigned(a, t);
    ProfilesAreSigned(a, t);
    ProfilesHaveIds(a, t);
    LockIsKept(a, t);
    AbiIsSpelled(a, t);
  }

  /** verify_staged_catalog. What verifies is signed, and an index that the authority does not accept
      is never verified. */
  method VerifyStagedCatalog(a: Authority, m: RepositoryManifest, t: Tree) returns (r: Result<(), RepositoryError>)
    requires WellFormed(t)
    ensures r.Ok? <==> StagedCatalogHolds(a, m, t)
    ensures r.Ok? ==> SignedCatalog(a, t)
    ensures var (keys, index) := (FileAt(t, ["keys.toml"]), FileAt(t, ["packages.toml"]));
            !a.acceptsIndex(keys, index, FileAt(t, ["packages.toml.sig"])) ==> r.Err?
  {
    var verified := VerifyCatalog(a.reader, t, LOCK_PATH, PROFILES_DIR, KEYRING_PATH);
    if verified.Err? {
      return Err(RepositoryError.Catalog);
    }
    if !KeysAccept(a, t) {
      return Err(RepositoryError.Signature);
    }
    if !AbiReadable(a, t) {
      return Err(RepositoryError.Invalid);
    }
    var expected := ExpectedPaths(verified.value);
    var actual := ToSet(Map(m.objects, ObjectPath));
    if actual != expected {
      return Err(RepositoryError.Invalid);
    }
    VerifiedIsSigned(a, m, t);
    return Ok(());
  }

  // ----- A verified manifest names distinct files

  lemma ListedPathsNormal(r: Reader, t: Tree, lock: CatalogLock, profilesDir: Path, path: string)
    requires WellFormed(t) && ProfilesHold(r, t, lock, profilesDir) && path in ToSet(EntryPaths(lock.profile))
    ensures Normal(path) && HasSuffix(path, ".toml")
  {
    assert path in Discovered(t, profilesDir, profilesDir);
    var p :| p in t && profilesDir < p && IsTomlFile(t, p) && Spelled(Relative(p, profilesDir)) == path;
    var relative := Relative(p, profilesDir);
    assert forall name | name in relative :: name in p;
    assert relative != [] && ProperPath(relative);
    assert path in EntryPaths(lock.profile);
    var i :| 0 <= i < |lock.profile| && lock.profile[i].path == path;
    assert lock.profile[i] in lock.profile && EntryHolds(r, t, profilesDir, lock.profile[i]);
  }

  lemma FixedNamesNormal()
    ensures forall name | name in FIXED_PATHS :: Normal(name)
  {
    forall name | name in FIXED_PATHS ensures Normal(name) {
      assert name == "keys.toml" || name == "catalog.lock" || name == "packages.toml"
             || name == "packages.toml.sig" || name == "driver-abi";
      NormalName(name);
    }
  }

  lemma SourceNamesNormal()
    ensures forall path | path in RequiredSources() :: Normal(path)
  {
    forall path | path in RequiredSources() ensures Normal(path) {
      var name :| name in REQUIRED_NAMES && path == DRIVER_SOURCES + "/" + name + "";
      assert Proper(name);
      NormalName(name);
      NormalPrepend(DRIVER_SOURCES, name);
    }
  }

  /** Every path a verified lock entitles a snapshot to spells its own components. */
  lemma ExpectedPathsNormal(r: Reader, t: Tree, lock: CatalogLock, profilesDir: Path)
    requires WellFormed(t) && ProfilesHold(r, t, lock, profilesDir)
    ensures forall path | path in ExpectedPaths(lock) :: Normal(path)
  {
    FixedNamesNormal();
    SourceNamesNormal();
    forall path | path in ToSet(EntryPaths(lock.profile))
      ensures Normal(PROFILES + "/" + path + "") && Normal(PROFILES + "/" + path + ".sig")
    {
      ListedPathsNormal(r, t, lock, profilesDir, path);
      NormalPrepend(PROFILES, path);
      assert PROFILES + "/" + path + "" == PROFILES + "/" + path;
      NormalSuffix(PROFILES + "/" + path, ".sig");
    }
  }

  /** So the objects of a manifest that equals the expected set go to distinct destinations, no
      matter that several texts can name one file. */
  lemma DestinationsDistinct(a: Authority, m: RepositoryManifest, t: Tree, i: nat, j: nat)
    requires WellFormed(t) && StagedCatalogHolds(a, m, t) && ValidManifest(m)
    requires i < j < |m.objects|
    ensures Components(m.objects[i].path) != Components(m.objects[j].path)
  {
    var paths := Map(m.objects, ObjectPath);
    var lock := LockAt(a.reader, t, LOCK_PATH).value;
    ExpectedPathsNormal(a.reader, t, lock, PROFILES_DIR);
    assert paths[i] in ToSet(paths) && paths[j] in ToSet(paths);
    assert paths[i] != paths[j];
    if Components(paths[i]) == Components(paths[j]) {
      NormalInjective(paths[i], paths[j]);
    }
  }

  // ----- Which paths, and how many, a snapshot has

  lemma AffixMembers(s: set<string>, before: string, after: string, path: string)
    ensures path in Affix(s, before, after) <==> exists x | x in s :: path == before + x + after
  {
  }

  /** The five fixed files, the five driver sources and, for each profile of the lock, its file and its
      signature. */
  ghost predicate InSnapshot(lock: CatalogLock, path: string) {
    || path in {"keys.toml", "catalog.lock", "packages.toml", "packages.toml.sig", "driver-abi"}
    || (exists name | name in REQUIRED_NAMES :: path == "driver-sources/" + name)
    || (exists entry | entry in lock.profile ::
          path == "profiles/" + entry.path || path == "profiles/" + entry.path + ".sig")
  }

  lemma ExpectedNames(lock: CatalogLock, path: string)
    ensures path in ExpectedPaths(lock) <==> InSnapshot(lock, path)
  {
    SourceNamed(path);
    EntryNamed(lock, path);
  }

  /** A manifest that passes the exact-set check names these paths and nothing else. */
  lemma ManifestNames(a: Authority, m: RepositoryManifest, t: Tree, path: string)
    requires StagedCatalogHolds(a, m, t)
    ensures (exists o | o in m.objects :: o.path == path)
            <==> InSnapshot(LockAt(a.reader, t, LOCK_PATH).value, path)
  {
    ObjectNamed(m.objects, path);
    ExpectedNames(LockAt(a.reader, t, LOCK_PATH).value, path);
  }

  lemma ObjectNamed(objects: seq<RepositoryObject>, path: string)
    ensures path in ToSet(Map(objects, ObjectPath)) <==> exists o | o in objects :: o.path == path
  {
    if o :| o in objects && o.path == path {
      var i :| 0 <= i < |objects| && objects[i] == o;
      assert Map(objects, ObjectPath)[i] == path;
    }
  }

  lemma SourceNamed(path: string)
    ensures path in RequiredSources() <==> exists name | name in REQUIRED_NAMES :: path == "driver-sources/" + name
  {
    AffixMembers(REQUIRED_NAMES, DRIVER_SOURCES + "/", "", path);
    forall name: string ensures DRIVER_SOURCES + "/" + name + "" == "driver-sources/" + name {
    }
  }

  lemma EntryNamed(lock: CatalogLock, path: string)
    ensures path in ProfileFiles(ToSet(EntryPaths(lock.profile))) + SignatureFiles(ToSet(EntryPaths(lock.profile)))
            <==> exists entry | entry in lock.profile ::
                   path == "profiles/" + entry.path || path == "profiles/" + entry.path + ".sig"
  {
    var paths := ToSet(EntryPaths(lock.profile));
    AffixMembers(paths, PROFILES + "/", "", path);
    AffixMembers(paths, PROFILES + "/", ".sig", path);
    forall x: string
      ensures PROFILES + "/" + x + "" == "profiles/" + x && PROFILES + "/" + x + ".sig" == "profiles/" + x + ".sig"
    {
    }
    if x :| x in paths && (path == "profiles/" + x || path == "profiles/" + x + ".sig") {
      var i :| 0 <= i < |lock.profile| && EntryPaths(lock.profile)[i] == x;
      assert lock.profile[i] in lock.profile && lock.profile[i].path == x;
    }
    if entry :| entry in lock.profile
                && (path == "profiles/" + entry.path || path == "profiles/" + entry.path + ".sig") {
      ListedEntry(lock, entry);
    }
  }

  predicate StartsLikeProfiles(path: string) {
    |path| >= 2 && path[0] == 'p' && path[1] == 'r'
  }

  lemma FixedCount()
    ensures |FIXED_PATHS| == 5 && forall path | path in FIXED_PATHS :: |path| <= 17 && !StartsLikeProfiles(path)
  {
    assert |"keys.toml"| == 9 && |"catalog.lock"| == 12 && |"packages.toml"| == 13
           && |"packages.toml.sig"| == 17 && |"driver-abi"| == 10;
    Distinct5("keys.toml", "catalog.lock", "packages.toml", "packages.toml.sig", "driver-abi");
  }

  lemma Distinct5(a: string, b: string, c: string, d: string, e: string)
    requires a != b && a != c && a != d && a != e && b != c && b != d && b != e && c != d && c != e && d != e
    ensures |{a, b, c, d, e}| == 5
  {
    assert {a, b, c, d, e} == {a} + ({b} + ({c} + ({d} + {e})));
  }

  lemma {:induction false} AffixCount(s: set<string>, before: string, after: string)
    ensures |Affix(s, before, after)| == |s|
  {
    if s == {} {
      assert Affix(s, before, after) == {};
    } else {
      var x :| x in s;
      var rest := s - {x};
      AffixCount(rest, before, after);
      forall y | y in rest ensures before + y + after != before + x + after {
        Affixed(before, y, after);
        Affixed(before, x, after);
      }
      assert Affix(s, before, after) == Affix(rest, before, after) + {before + x + after};
    }
  }

  lemma Affixed(before: string, x: string, after: string)
    ensures var s := before + x + after; s[|before|..|s| - |after|] == x
  {
  }

  lemma SourceCount()
    ensures |RequiredSources()| == 5
    ensures forall path | path in RequiredSources() :: |path| > 17 && !StartsLikeProfiles(path)
  {
    assert |"modules.alias"| == 13 && |"modules.dep"| == 11 && |"modules.builtin"| == 15
           && |"modules.firmware"| == 16 && |"modules.builtin.modinfo"| == 23;
    Distinct5("modules.alias", "modules.dep", "modules.builtin", "modules.firmware", "modules.builtin.modinfo");
    AffixCount(REQUIRED_NAMES, DRIVER_SOURCES + "/", "");
  }

  predicate EndsWith(path: string, c: char) {
    path != "" && path[|path| - 1] == c
  }

  lemma ProfileFileShapes(entries: set<string>)
    requires forall path | path in entries :: EndsWith(path, 'l')
    ensures forall path | path in ProfileFiles(entries) :: StartsLikeProfiles(path) && EndsWith(path, 'l')
    ensures forall path | path in SignatureFiles(entries) :: StartsLikeProfiles(path) && EndsWith(path, 'g')
  {
    forall path | path in ProfileFiles(entries) ensures StartsLikeProfiles(path) && EndsWith(path, 'l') {
      var x :| x in entries && path == PROFILES + "/" + x + "";
      assert path[|path| - 1] == x[|x| - 1];
    }
    forall path | path in SignatureFiles(entries) ensures StartsLikeProfiles(path) && EndsWith(path, 'g') {
      var x :| x in entries && path == PROFILES + "/" + x + ".sig";
      assert path[|path| - 1] == ".sig"[3];
    }
  }

  lemma DisjointCount(a: set<string>, b: set<string>, c: set<string>, d: set<string>)
    requires a !! b && (a + b) !! (c + d) && c !! d
    ensures |a + b + c + d| == |a| + |b| + |c| + |d|
  {
    assert a + b + c + d == (a + b) + (c + d);
  }

  lemma ExpectedCount(lock: CatalogLock)
    requires forall path | path in ToSet(EntryPaths(lock.profile)) :: EndsWith(path, 'l')
    ensures |ExpectedPaths(lock)| == 10 + 2 * |ToSet(EntryPaths(lock.profile))|
  {
    var entries := ToSet(EntryPaths(lock.profile));
    FixedCount();
    SourceCount();
    ProfileFileShapes(entries);
    AffixCount(entries, PROFILES + "/", "");
    AffixCount(entries, PROFILES + "/", ".sig");
    Separate(FIXED_PATHS, RequiredSources(), ProfileFiles(entries), SignatureFiles(entries));
    DisjointCount(FIXED_PATHS, RequiredSources(), ProfileFiles(entries), SignatureFiles(entries));
  }

  lemma Separate(fixed: set<string>, sources: set<string>, files: set<string>, signatures: set<string>)
    requires forall path | path in fixed :: |path| <= 17 && !StartsLikeProfiles(path)
    requires forall path | path in sources :: |path| > 17 && !StartsLikeProfiles(path)
    requires forall path | path in files :: StartsLikeProfiles(path) && EndsWith(path, 'l')
    requires forall path | path in signatures :: StartsLikeProfiles(path) && EndsWith(path, 'g')
    ensures fixed !! sources && (fixed + sources) !! (files + signatures) && files !! signatures
  {
  }

  /** A snapshot has ten fixed files and two for each profile. */
  lemma SnapshotSize(a: Authority, m: RepositoryManifest, t: Tree)
    requires WellFormed(t) && StagedCatalogHolds(a, m, t) && ValidManifest(m)
    ensures |m.objects| == 10 + 2 * |LockAt(a.reader, t, LOCK_PATH).value.profile|
  {
    var lock := LockAt(a.reader, t, LOCK_PATH).value;
    forall path | path in ToSet(EntryPaths(lock.profile)) ensures EndsWith(path, 'l') {
      ListedPathsNormal(a.reader, t, lock, PROFILES_DIR, path);
      assert path[|path| - 5..][4] == ".toml"[4];
    }
    ExpectedCount(lock);
    DistinctCount(EntryPaths(lock.profile));
    DistinctCount(Map(m.objects, ObjectPath));
  }
}
