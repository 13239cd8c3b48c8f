/** Firmware files found under the installer's firmware roots (src/scan.rs,
    annotate_linux_firmware_files). */
module FirmwareFiles {
  import opened Wrappers
  import opened Text
  import opened Sorting
  import opened Facts
  import opened Metadata
  import opened Properties
  import Preflight

  /** The file system: the canonical form of a root, if it is a directory, and the regular file
      inside it that a name under the root resolves to, if there is one. */
  datatype Resolver = Resolver(
    root: TablePath -> Option<TablePath>, file: (TablePath, TablePath, string) -> Option<TablePath>)

  const FIRMWARE_SUFFIXES: seq<string> := ["", ".xz", ".zst", ".gz", ".bz2", ".lz4", ".lz"]

  function Found(r: Resolver, root: TablePath, name: string): Option<TablePath> {
    var canonical := r.root(root);
    if canonical == None then None else r.file(canonical.value, root, name)
  }

  function FoundEntry(r: Resolver, candidate: string, root: TablePath, suffix: string): set<string> {
    var file := Found(r, root, candidate + suffix);
    if file == None then {} else {Entry(candidate, Display(file.value))}
  }

  function WithSuffix(r: Resolver, candidate: string, root: TablePath): string -> set<string> {
    (suffix: string) => FoundEntry(r, candidate, root, suffix)
  }

  function FoundUnder(r: Resolver, candidate: string, suffixes: seq<string>, root: TablePath): set<string> {
    Union(suffixes, WithSuffix(r, candidate, root))
  }

  function UnderRoot(r: Resolver, candidate: string, suffixes: seq<string>): TablePath -> set<string> {
    (root: TablePath) => FoundUnder(r, candidate, suffixes, root)
  }

  function FoundFor(r: Resolver, roots: seq<TablePath>, suffixes: seq<string>, candidate: string): set<string> {
    Union(roots, UnderRoot(r, candidate, suffixes))
  }

  function ForCandidate(r: Resolver, roots: seq<TablePath>, suffixes: seq<string>): string -> set<string> {
    (candidate: string) => FoundFor(r, roots, suffixes, candidate)
  }

  /** Every `candidate=file` entry. */
  function AllFound(r: Resolver, roots: seq<TablePath>, suffixes: seq<string>, candidates: seq<string>): set<string> {
    Union(candidates, ForCandidate(r, roots, suffixes))
  }

  lemma AllFoundEntries(
    r: Resolver, roots: seq<TablePath>, suffixes: seq<string>, candidates: seq<string>, entry: string)
    ensures entry in AllFound(r, roots, suffixes, candidates)
            <==> exists candidate, root, suffix | candidate in candidates && root in roots && suffix in suffixes ::
                   entry in FoundEntry(r, candidate, root, suffix)
  {
    UnionMembers(candidates, ForCandidate(r, roots, suffixes), entry);
    forall candidate
      ensures entry in FoundFor(r, roots, suffixes, candidate)
              <==> exists root, suffix | root in roots && suffix in suffixes ::
                     entry in FoundEntry(r, candidate, root, suffix)
    {
      UnionMembers(roots, UnderRoot(r, candidate, suffixes), entry);
      forall root
        ensures entry in FoundUnder(r, candidate, suffixes, root)
                <==> exists suffix | suffix in suffixes :: entry in FoundEntry(r, candidate, root, suffix)
      {
        UnionMembers(suffixes, WithSuffix(r, candidate, root), entry);
      }
    }
  }

  /** An entry is there exactly when some candidate with some suffix resolves, inside the canonical form
      of some root that is a directory, to its file. */
  lemma AllFoundMembers(
    r: Resolver, roots: seq<TablePath>, suffixes: seq<string>, candidates: seq<string>, entry: string)
    ensures entry in AllFound(r, roots, suffixes, candidates)
            <==> exists candidate, root, suffix, directory, file
                   | candidate in candidates && root in roots && suffix in suffixes ::
                   && r.root(root) == Some(directory) && r.file(directory, root, candidate + suffix) == Some(file)
                   && entry == candidate + "=" + Replace(file, '\0', '/')
  {
    AllFoundEntries(r, roots, suffixes, candidates, entry);
    if candidate, root, suffix :| candidate in candidates && root in roots && suffix in suffixes
                                  && entry in FoundEntry(r, candidate, root, suffix) {
      var directory := r.root(root).value;
      var file := r.file(directory, root, candidate + suffix).value;
      assert r.root(root) == Some(directory) && r.file(directory, root, candidate + suffix) == Some(file);
    }
    if candidate, root, suffix, directory, file :|
      && candidate in candidates && root in roots && suffix in suffixes
      && r.root(root) == Some(directory) && r.file(directory, root, candidate + suffix) == Some(file)
      && entry == candidate + "=" + Replace(file, '\0', '/')
    {
      assert entry in FoundEntry(r, candidate, root, suffix);
    }
  }

  method FindUnder(r: Resolver, candidate: string, suffixes: seq<string>, root: TablePath) returns (found: set<string>)
    ensures found == FoundUnder(r, candidate, suffixes, root)
  {
    found := {};
    for i := 0 to |suffixes|
      invariant found == Union(suffixes[..i], WithSuffix(r, candidate, root))
    {
      UnionStep(suffixes, i, WithSuffix(r, candidate, root));
      var file := Found(r, root, candidate + suffixes[i]);
      if file.Some? {
        found := found + {Entry(candidate, Display(file.value))};
      }
    }
    assert suffixes[..|suffixes|] == suffixes;
  }

  method FindFor(r: Resolver, roots: seq<TablePath>, suffixes: seq<string>, candidate: string)
    returns (found: set<string>)
    ensures found == FoundFor(r, roots, suffixes, candidate)
  {
    found := {};
    for i := 0 to |roots|
      invariant found == Union(roots[..i], UnderRoot(r, candidate, suffixes))
    {
      UnionStep(roots, i, UnderRoot(r, candidate, suffixes));
      var under := FindUnder(r, candidate, suffixes, roots[i]);
      found := found + under;
    }
    assert roots[..|roots|] == roots;
  }

  method FindAll(r: Resolver, roots: seq<TablePath>, suffixes: seq<string>, candidates: seq<string>)
    returns (found: set<string>)
    ensures found == AllFound(r, roots, suffixes, candidates)
  {
    found := {};
    for i := 0 to |candidates|
      invariant found == Union(candidates[..i], ForCandidate(r, roots, suffixes))
    {
      UnionStep(candidates, i, ForCandidate(r, roots, suffixes));
      var more := FindFor(r, roots, suffixes, candidates[i]);
      found := found + more;
    }
    assert candidates[..|candidates|] == candidates;
  }

  // ----- Annotating devices

  function CandidatesOf(d: HardwareDevice): seq<string> {
    if "linux_firmware_candidates" in d.properties
    then Filter(Split(d.properties["linux_firmware_candidates"], ','), ValidFirmwareCandidate)
    else []
  }

  lemma CandidatesCommaFree()
    ensures forall d, candidate | candidate in CandidatesOf(d) :: ',' !in candidate
  {
  }

  type View = HardwareDevice -> seq<string>

  ghost function Files(v: View, r: Resolver, roots: seq<TablePath>, suffixes: seq<string>, d: HardwareDevice)
    : set<string>
  {
    AllFound(r, roots, suffixes, v(d))
  }

  ghost function AnnotatedDevice(
    v: View, r: Resolver, roots: seq<TablePath>, suffixes: seq<string>, d: HardwareDevice): HardwareDevice
  {
    WithList(d, "linux_firmware_files", Take(Ascending(Files(v, r, roots, suffixes, d)), MAX_FIRMWARE_FILES))
  }

  ghost function Annotated(v: View, r: Resolver, roots: seq<TablePath>, suffixes: seq<string>)
    : HardwareDevice -> HardwareDevice
  {
    (d: HardwareDevice) => AnnotatedDevice(v, r, roots, suffixes, d)
  }

  /** Each root once; the order in which they are searched does not matter. */
  lemma RootOrderIrrelevant(
    v: View, r: Resolver, roots: seq<TablePath>, others: seq<TablePath>, suffixes: seq<string>, d: HardwareDevice)
    requires ToSet(roots) == ToSet(others)
    ensures Files(v, r, roots, suffixes, d) == Files(v, r, others, suffixes, d)
  {
    assert forall root :: root in roots <==> root in ToSet(others);
    forall entry ensures entry in Files(v, r, roots, suffixes, d) <==> entry in Files(v, r, others, suffixes, d) {
      AllFoundEntries(r, roots, suffixes, v(d), entry);
      AllFoundEntries(r, others, suffixes, v(d), entry);
    }
  }

  method AnnotateDevice(v: View, r: Resolver, roots: seq<TablePath>, suffixes: seq<string>, d: HardwareDevice)
    returns (d': HardwareDevice)
    ensures d' == AnnotatedDevice(v, r, roots, suffixes, d)
  {
    var found := FindAll(r, roots, suffixes, v(d));
    var files := ToSorted(found);
    if |files| > MAX_FIRMWARE_FILES {
      files := Take(files, MAX_FIRMWARE_FILES);
    }
    d' := d;
    if files != [] {
      d' := d.(properties := d.properties["linux_firmware_files" := CommaList(files)]);
    }
  }

  predicate AllDirectories(r: Resolver, roots: seq<TablePath>) {
    forall root | root in roots :: r.root(root).Some?
  }

  method AnnotateDevices(
    v: View, devices: array<HardwareDevice>, r: Resolver, roots: seq<TablePath>, suffixes: seq<string>)
    modifies devices
    ensures devices[..] == Map(old(devices[..]), Annotated(v, r, roots, suffixes))
  {
    ghost var f := Annotated(v, r, roots, suffixes);
    for i := 0 to devices.Length
      invariant forall j | 0 <= j < i :: devices[j] == f(old(devices[j]))
      invariant forall j | i <= j < devices.Length :: devices[j] == old(devices[j])
    {
      var annotated := AnnotateDevice(v, r, roots, suffixes, devices[i]);
      devices[i] := annotated;
    }
    assert devices[..] == Map(old(devices[..]), f);
  }

  predicate SameRoot(a: TablePath, b: TablePath) {
    a == b
  }

  lemma RootsKept(roots: seq<TablePath>)
    ensures ToSet(Dedup(StableSort(roots, AtMost), SameRoot)) == ToSet(roots)
    ensures forall root :: root in Dedup(StableSort(roots, AtMost), SameRoot) <==> root in roots
  {
    SameElements(roots, StableSort(roots, AtMost));
    DedupMembers(StableSort(roots, AtMost), SameRoot);
  }

  lemma SameAnnotation(
    v: View, r: Resolver, roots: seq<TablePath>, others: seq<TablePath>, suffixes: seq<string>,
    devices: seq<HardwareDevice>)
    requires ToSet(roots) == ToSet(others)
    ensures Map(devices, Annotated(v, r, roots, suffixes)) == Map(devices, Annotated(v, r, others, suffixes))
  {
    forall d ensures Annotated(v, r, roots, suffixes)(d) == Annotated(v, r, others, suffixes)(d) {
      RootOrderIrrelevant(v, r, roots, others, suffixes, d);
    }
  }

  method SortRoots(firmwareRoots: seq<TablePath>) returns (roots: seq<TablePath>)
    ensures ToSet(roots) == ToSet(firmwareRoots) && forall root :: root in roots <==> root in firmwareRoots
  {
    RootsKept(firmwareRoots);
    roots := Dedup(StableSort(firmwareRoots, AtMost), SameRoot);
  }

  /** `sort` and `dedup`, then every root must be a directory. */
  method CheckRoots(r: Resolver, firmwareRoots: seq<TablePath>) returns (ok: bool, roots: seq<TablePath>)
    ensures ok <==> AllDirectories(r, firmwareRoots)
    ensures ToSet(roots) == ToSet(firmwareRoots)
  {
    roots := SortRoots(firmwareRoots);
    for i := 0 to |roots|
      invariant forall j | 0 <= j < i :: r.root(roots[j]).Some?
    {
      if r.root(roots[i]) == None {
        assert roots[i] in roots;
        return false, roots;
      }
    }
    return true, roots;
  }

  /** annotate_linux_firmware_files: either some root is not a directory and no device changes, or
      every device is annotated from all roots together. */
  method AnnotateLinuxFirmwareFiles(
    v: View, devices: array<HardwareDevice>, r: Resolver, firmwareRoots: seq<TablePath>, suffixes: seq<string>)
    returns (ok: bool)
    modifies devices
    ensures ok <==> AllDirectories(r, firmwareRoots)
    ensures ok ==> devices[..] == Map(old(devices[..]), Annotated(v, r, firmwareRoots, suffixes))
    ensures !ok ==> devices[..] == old(devices[..])
  {
    var roots;
    ok, roots := CheckRoots(r, firmwareRoots);
    if ok {
      SameAnnotation(v, r, roots, firmwareRoots, suffixes, devices[..]);
      AnnotateDevices(v, devices, r, roots, suffixes);
    }
  }

  // ----- What a device ends up with

  /** The files written to a device are the 64 least that were found, and read back exactly when
      none of them has a comma in its path. */
  lemma FilesReadBack(v: View, r: Resolver, roots: seq<TablePath>, suffixes: seq<string>, d: HardwareDevice)
    requires forall candidate | candidate in v(d) :: ',' !in candidate
    requires Files(v, r, roots, suffixes, d) != {}
    ensures var kept := Take(Ascending(Files(v, r, roots, suffixes, d)), MAX_FIRMWARE_FILES);
            && AreLeast(ToSet(kept), Files(v, r, roots, suffixes, d), MAX_FIRMWARE_FILES)
            && (Preflight.PropertyValues(AnnotatedDevice(v, r, roots, suffixes, d), "linux_firmware_files") == kept
                <==> forall candidate, root, suffix, file
                       | candidate in v(d) && root in roots && suffix in suffixes
                         && Found(r, root, candidate + suffix) == Some(file)
                         && Entry(candidate, Display(file)) in kept :: ',' !in file)
  {
    var all := Files(v, r, roots, suffixes, d);
    var kept := Take(Ascending(all), MAX_FIRMWARE_FILES);
    TakeLeast(all, MAX_FIRMWARE_FILES);
    EnumerationLength(Ascending(all), all);
    WrittenIsRead(d, "linux_firmware_files", kept);
    forall entry | entry in kept
      ensures exists candidate, root, suffix, file
                | candidate in v(d) && root in roots && suffix in suffixes
                  && Found(r, root, candidate + suffix) == Some(file) :: entry == Entry(candidate, Display(file))
    {
      assert entry in Ascending(all) && entry in all;
      AllFoundEntries(r, roots, suffixes, v(d), entry);
    }
    forall candidate, file | candidate in v(d)
      ensures Entry(candidate, Display(file)) != "" && (',' in Entry(candidate, Display(file)) <==> ',' in file)
    {
      EntryCommas(candidate, file);
    }
  }
}
