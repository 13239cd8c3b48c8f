/** The record of exactly which tables and roots a scan read (src/scan.rs, driver_source_manifest). */
module DriverSources {
  import opened Wrappers
  import opened Text
  import opened Sorting
  import opened Facts
  import opened Metadata
  import FirmwareFiles

  datatype Sources = Sources(
    modulesAlias: seq<TablePath>, modulesFirmware: seq<TablePath>, firmwareRoots: seq<TablePath>,
    modulesDep: seq<TablePath>, modulesBuiltin: seq<TablePath>)

  predicate AllSourcesReadable(files: Tables, s: Sources, r: FirmwareFiles.Resolver) {
    && AllReadable(files, s.modulesAlias) && AllReadable(files, s.modulesFirmware)
    && FirmwareFiles.AllDirectories(r, s.firmwareRoots)
    && AllReadable(files, s.modulesDep) && AllReadable(files, s.modulesBuiltin)
  }

  /** The directory of a table, if that lies in one named `modules`. */
  function KernelRelease(path: TablePath): Option<string> {
    var components := Split(path, '\0');
    var n := |components|;
    if n < 3 || components[n - 3] != "modules" || Trim(components[n - 2]) == "" then None
    else Some(Trim(components[n - 2]))
  }

  lemma LastThree(before: string, a: string, b: string, c: string, separator: char)
    requires separator !in a && separator !in b && separator !in c
    ensures Split(before + ([separator] + a) + ([separator] + b) + ([separator] + c), separator)
            == Split(before, separator) + [a] + [b] + [c]
  {
    SplitAppend(before, a, separator);
    SplitAppend(before + ([separator] + a), b, separator);
    SplitAppend(before + ([separator] + a) + ([separator] + b), c, separator);
  }

  /** A table at `.../modules/RELEASE/NAME` is of that release, trimmed, if that leaves anything. */
  lemma ReleaseOfTable(before: string, release: string, name: string)
    requires '\0' !in release && '\0' !in name
    ensures var path := before + (['\0'] + "modules") + (['\0'] + release) + (['\0'] + name);
            && TableName(path) == name
            && KernelRelease(path) == if Trim(release) == "" then None else Some(Trim(release))
  {
    LastThree(before, "modules", release, name, '\0');
  }

  /** SHA-256, as an arbitrary function of the bytes. */
  type Digest = string -> string

  function TableEvidence(files: Tables, digest: Digest, kind: DriverSourceKind): TablePath -> DriverSourceEvidence {
    (path: TablePath) =>
      DriverSourceEvidence(kind, path, KernelRelease(path), Some(digest(TextOf(files, path))))
  }

  function RootEvidence(path: TablePath): DriverSourceEvidence {
    DriverSourceEvidence(FirmwareTree, path, None, None)
  }

  /** One record for every table and root given. */
  function AllEvidence(files: Tables, digest: Digest, s: Sources): seq<DriverSourceEvidence> {
    Map(s.modulesAlias, TableEvidence(files, digest, KernelMetadata))
    + Map(s.modulesFirmware, TableEvidence(files, digest, FirmwareMetadata))
    + Map(s.modulesDep, TableEvidence(files, digest, KernelMetadata))
    + Map(s.modulesBuiltin, TableEvidence(files, digest, KernelMetadata))
    + Map(s.firmwareRoots, RootEvidence)
  }

  predicate EvidenceAtMost(a: DriverSourceEvidence, b: DriverSourceEvidence) {
    KindOrder(a.kind) < KindOrder(b.kind) || (a.kind == b.kind && AtMost(a.path, b.path))
  }

  predicate EvidenceBefore(a: DriverSourceEvidence, b: DriverSourceEvidence) {
    KindOrder(a.kind) < KindOrder(b.kind) || (a.kind == b.kind && Less(a.path, b.path))
  }

  predicate SameEvidence(a: DriverSourceEvidence, b: DriverSourceEvidence) {
    a == b
  }

  lemma EvidenceOrder()
    ensures TotalPreorder(EvidenceAtMost)
    ensures forall a, b, c :: EvidenceBefore(a, b) && EvidenceBefore(b, c) ==> EvidenceBefore(a, c)
  {
    forall a: DriverSourceEvidence, b: DriverSourceEvidence ensures EvidenceAtMost(a, b) || EvidenceAtMost(b, a) {
      LessTotal(a.path, b.path);
    }
    forall a: DriverSourceEvidence, b: DriverSourceEvidence, c: DriverSourceEvidence
      | EvidenceBefore(a, b) && EvidenceBefore(b, c)
      ensures EvidenceBefore(a, c)
    {
      if a.kind == b.kind == c.kind {
        LessTransitive(a.path, b.path, c.path);
      }
    }
    assert forall a, b ::
        EvidenceAtMost(a, b) <==> (a.kind == b.kind && a.path == b.path) || EvidenceBefore(a, b);
  }

  lemma MapMembers<T, U>(xs: seq<T>, f: T -> U, y: U)
    ensures y in Map(xs, f) <==> exists x | x in xs :: y == f(x)
  {
    if x :| x in xs && y == f(x) {
      var i :| 0 <= i < |xs| && xs[i] == x;
      assert Map(xs, f)[i] == y;
    }
  }

  /** What a record says follows from its kind and its path. */
  predicate Determined(files: Tables, digest: Digest, e: DriverSourceEvidence) {
    e == if e.kind == FirmwareTree then RootEvidence(e.path) else TableEvidence(files, digest, e.kind)(e.path)
  }

  lemma EvidenceDetermined(files: Tables, digest: Digest, s: Sources)
    ensures forall e | e in AllEvidence(files, digest, s) :: Determined(files, digest, e)
  {
    forall e | e in AllEvidence(files, digest, s) ensures Determined(files, digest, e) {
      MapMembers(s.modulesAlias, TableEvidence(files, digest, KernelMetadata), e);
      MapMembers(s.modulesFirmware, TableEvidence(files, digest, FirmwareMetadata), e);
      MapMembers(s.modulesDep, TableEvidence(files, digest, KernelMetadata), e);
      MapMembers(s.modulesBuiltin, TableEvidence(files, digest, KernelMetadata), e);
      MapMembers(s.firmwareRoots, RootEvidence, e);
    }
  }

  /** Sorted records that their kind and path determine: neighbours dropped as equal are all repeats. */
  lemma RecordsAscend(files: Tables, digest: Digest, all: seq<DriverSourceEvidence>)
    requires forall e | e in all :: Determined(files, digest, e)
    ensures var r := Dedup(StableSort(all, EvidenceAtMost), SameEvidence);
            SortedBy(r, EvidenceBefore) && forall e :: e in r <==> e in all
  {
    var sorted := StableSort(all, EvidenceAtMost);
    EvidenceOrder();
    StableSortSorted(all, EvidenceAtMost);
    SameElements(all, sorted);
    DedupMembers(sorted, SameEvidence);
    RepeatsDropped(files, digest, sorted);
  }

  lemma {:induction false} RepeatsDropped(files: Tables, digest: Digest, s: seq<DriverSourceEvidence>)
    requires SortedBy(s, EvidenceAtMost) && forall e | e in s :: Determined(files, digest, e)
    ensures SortedBy(Dedup(s, SameEvidence), EvidenceBefore)
    decreases |s|
  {
    if |s| <= 1 {
    } else if SameEvidence(s[1], s[0]) {
      var rest := [s[0]] + s[2..];
      assert forall i | 0 <= i < |rest| :: rest[i] == if i == 0 then s[0] else s[i + 1];
      RepeatsDropped(files, digest, rest);
    } else {
      assert SortedBy(s[1..], EvidenceAtMost);
      RepeatsDropped(files, digest, s[1..]);
      EvidenceOrder();
      assert s[0] in s && s[1] in s && EvidenceAtMost(s[0], s[1]);
      assert EvidenceBefore(s[0], s[1]);
      var rest := Dedup(s[1..], SameEvidence);
      assert rest[0] == s[1] && Dedup(s, SameEvidence) == [s[0]] + rest;
    }
  }

  method HashTables(files: Tables, digest: Digest, kind: DriverSourceKind, paths: seq<TablePath>)
    returns (ok: bool, evidence: seq<DriverSourceEvidence>)
    ensures ok <==> AllReadable(files, paths)
    ensures ok ==> evidence == Map(paths, TableEvidence(files, digest, kind))
  {
    evidence := [];
    for i := 0 to |paths|
      invariant AllReadable(files, paths[..i])
      invariant evidence == Map(paths[..i], TableEvidence(files, digest, kind))
    {
      var text := ReadTable(files, paths[i]);
      if text == None {
        assert paths[i] in paths;
        return false, evidence;
      }
      evidence := evidence + [DriverSourceEvidence(kind, paths[i], KernelRelease(paths[i]), Some(digest(text.value)))];
    }
    assert paths[..|paths|] == paths;
    return true, evidence;
  }

  lemma SameRecords(files: Tables, digest: Digest, s: Sources, roots: seq<TablePath>)
    requires ToSet(roots) == ToSet(s.firmwareRoots)
    ensures forall e ::
              e in AllEvidence(files, digest, s.(firmwareRoots := roots)) <==> e in AllEvidence(files, digest, s)
  {
    assert forall root :: root in roots <==> root in ToSet(roots);
    assert forall root :: root in s.firmwareRoots <==> root in ToSet(roots);
    forall e ensures e in Map(roots, RootEvidence) <==> e in Map(s.firmwareRoots, RootEvidence) {
      MapMembers(roots, RootEvidence, e);
      MapMembers(s.firmwareRoots, RootEvidence, e);
    }
  }

  /** driver_source_manifest: exactly when every table and root can be read, one record for each
      table and root, strictly ascending by kind and path. */
  method DriverSourceManifest(files: Tables, digest: Digest, s: Sources, r: FirmwareFiles.Resolver)
    returns (evidence: Option<seq<DriverSourceEvidence>>)
    ensures evidence.Some? <==> AllSourcesReadable(files, s, r)
    ensures evidence.Some? ==> SortedBy(evidence.value, EvidenceBefore)
    ensures evidence.Some? ==> forall e :: e in evidence.value <==> e in AllEvidence(files, digest, s)
  {
    var ok, aliases := HashTables(files, digest, KernelMetadata, s.modulesAlias);
    if !ok {
      return None;
    }
    var firmware;
    ok, firmware := HashTables(files, digest, FirmwareMetadata, s.modulesFirmware);
    if !ok {
      return None;
    }
    var dependencies;
    ok, dependencies := HashTables(files, digest, KernelMetadata, s.modulesDep);
    if !ok {
      return None;
    }
    var builtins;
    ok, builtins := HashTables(files, digest, KernelMetadata, s.modulesBuiltin);
    if !ok {
      return None;
    }
    var roots;
    ok, roots := FirmwareFiles.CheckRoots(r, s.firmwareRoots);
    if !ok {
      return None;
    }
    var all := aliases + firmware + dependencies + builtins + Map(roots, RootEvidence);
    assert all == AllEvidence(files, digest, s.(firmwareRoots := roots));
    SameRecords(files, digest, s, roots);
    EvidenceDetermined(files, digest, s.(firmwareRoots := roots));
    RecordsAscend(files, digest, all);
    return Some(Dedup(StableSort(all, EvidenceAtMost), SameEvidence));
  }
}
