# Arach-HWD: a verified model

Arach-HWD scans a machine, annotates what it finds from Linux driver metadata, resolves signed hardware
profiles against it, and turns the chosen profiles into an install plan. The profiles come from a catalog that
is fetched, verified and published atomically. This project models that path in Dafny and proves what it
promises. `dafny verify dfyconfig.toml` checks everything.

The modules follow the program:

* `Text`, `Sorting`, `Wrappers` — byte strings, splitting and joining, words and lines, stable sorts, adjacent
  de-duplication, ordered sets.
* `Glob`, `Metadata`, `ModulesAlias`, `ModulesFirmware`, `FirmwareFiles`, `ModulesDep`, `Properties`,
  `DriverSources`, `Scan`, `Reported`, `ReportContents`, `Readings` — `src/scan.rs`: the glob matcher, the
  driver-metadata tables, the in-place annotation of devices, the inventory, what of all that reaches the report,
  and what the texts of the tables say.
* `Facts`, `Capabilities`, `Preflight` — `src/facts.rs`, the requirements of `src/scan.rs`, `src/preflight.rs`.
* `Profile`, `Resolve`, `ResolveProperties`, `Evidence`, `HardwarePlan`, `Specialise`, `Plan`, `PlanCommand`,
  `Admission` — `src/profile.rs`, `src/plan.rs`, `plan_command` of `src/main.rs`, and the fold of
  `formal/idris2/HardwarePlan.idr`. `Evidence` says which profile is chosen without the rank, `Admission` which
  profiles and manifests are valid without the validators.
* `Paths`, `FileTree`, `Catalog`, `Repository`, `Publication` — `src/catalog.rs`, `src/repository.rs`, over a
  file system in which every step may fail and a crash may follow any step. `Witness` gives a
  request and a delivery that meet what success asks for.
* `Health`, `Signature` — `src/health.rs`, the hexadecimal codec of `src/signature.rs`.

Some functions of the program are parameters of the model, so that everything holds whatever they are: the
digest, the signature check and the TOML readers (`Catalog.Reader`, `Repository.Authority`), the scanner's
keyword tables (`Capabilities.Classifier`), the file system's answers about firmware roots
(`FirmwareFiles.Resolver`), and the readable driver-metadata tables (`Metadata.Tables`). Where a proof about
merging or folding does not depend on how one line or one device is read, the reader is a parameter there too
(`Readers`, `View`, `Describer`, `Planner`), and the concrete reader is passed in at the end; `Readings` says what
the concrete readers read.

## What the proofs found

* **The literal-prefix shortcut.** `literal_prefix` maps each pattern byte to a character of its own, so a byte
  from 128 on becomes two bytes. Skipping on it loses no match if and only if the pattern is ASCII up to its
  first wildcard (`Glob.PrefixFilterLossless`). A modalias that is itself ASCII never loses one, whatever the tables
  hold (`Glob.AsciiValueNeverMissed`).
* **Publication.** Over every run, whoever opens the output finds nothing or a complete catalog, provided the
  output's path, links followed, does not lead to the staging directory. The condition is exact
  (`Publication.StageExposedExactly`). The path leads there when the output is the staging directory itself, and
  when it is a dangling link to or below it: `validate_output` lets a dangling link pass, because `exists` follows
  it. A run on such an output fills the stage in sight, and ends at the rename, which does not follow the link.
* **Placeable objects.** A valid manifest may list an object below the place of an earlier one, or one without a
  place; such a run always fails. Without those, and without a refusal, only what is delivered decides
  (`Publication.StoppedByDelivery`, `Publication.SyncCatalog`).
* **Recovery.** From min(2·max, 2³²−1) recoveries on, every combination of flags is quarantined if and only if
  max is at least 1 (`Health.QuarantineAtTwiceTheThreshold`); profile validation demands that
  (`Profile.ValidRecoveryQuarantines`). Saturating counters differ from exact ones exactly when healthy flags meet
  a saturated total below an unrepresentable 2·max, and then they are stricter
  (`Health.SaturationIsNeverMilder`).
* **Dead branches.** In `plan_command`, a reported device is never missing from the inventory, whatever the
  inventory (`PlanCommand.PlanMachine`). In `validate_manifest`, the running total can never overflow: every size
  is bounded before it is added.
* **Comma lists.** Driver candidates, firmware names, driver files, dependencies and built-ins always survive
  the trip through a comma-joined property, from the tables to the report (`ReportContents.EveryEntryIsRight`).
  Lists of sources and of firmware files do exactly when the paths they show hold no comma (`SourcesReadBack`,
  `FilesReadBack`); for firmware sources, a bound driver's name must hold none either.
* **Evidence.** Within a priority, one more field named is worth two more exact identities or four more bound
  drivers, exactly: `Evidence.EqualFieldsDecided` and `Evidence.OneMoreFieldDecided` say where the balance tips.
* **Partial de-duplication.** The merged alias table is sorted by pattern and driver but de-duplicated by
  pattern, driver and source, so repeats can stay. As a set it is exact, and candidates and sources depend on
  that set alone (`ModulesAlias.CollectAliases`).

## Model

| member | source | states |
|---|---|---|
| Publication.SyncCatalog | src/repository.rs:105-174 | After every step, whatever the fetcher and the file system do: nothing outside the stage and the output differs; whoever opens the output, following links, finds nothing or a complete catalog, provided its path does not lead to the stage; and once the catalog is there nothing changes any more, also after a failed parent sync. Ok means the request was publishable, every object was delivered, and the output holds what the last fetch left at the stage. A publishable request that meets no refusal fetches on as long as the objects are right, and succeeds exactly when all are right and what they make verifies. An error without a refusal leaves no trace. Told by the published files alone: the authority accepts the package index under the keyring, and finds an id in every `.toml` file below `profiles` with the signature file beside it |
| Publication.StageExposedExactly | src/repository.rs:126-133 | The condition is exact: some content of the stage shows something incomplete at the output if and only if, before the run, the first name missing on the output's path, links followed, is the stage; and the empty stage itself does if and only if the path leads to just that name |
| FileTree.LeadKept | src/repository.rs:281-286 | A path that leads nowhere, links followed, leads nowhere after any change below a root that is not its first missing name |
| FileTree.LeadOpened | src/repository.rs:281-286 | If that root is its first missing name, directories put there are where it leads |
| Publication.VerifiedStageIsComplete | src/repository.rs:134-163 | In retrospect no fetch overwrote an earlier one: if every object passed when it arrived and the staged tree verifies, every manifest object is there with its size and digest, nothing else is, and there are 10 and two per profile |
| Witness.SomeRequestIsDelivered | src/repository.rs:105-174 | What a run has to meet to succeed can be met: a publishable request on an empty file system, whose output does not lead to its stage, and fetches, over well-formed trees, that deliver every object and verify |
| Publication.StageObjects | src/repository.rs:135-158 | The loop keeps every tree confined to the stage; success carries whatever progress staging one object advances; a failure without refusal happens at an object whose directories cannot be made, or whose fetch left something else at its place |
| Publication.StoppedByDelivery | src/repository.rs:135-158 | When no object lies below the place of an earlier one, only a wrong delivery stops the loop |
| Publication.StageObject | src/repository.rs:136-157 | On success one fetch was made and left the object, with its size and digest, and only directories on the way to it were added; a failure that is no refusal means its directories could not be made or the fetch left something else |
| Publication.MoveIntoPlace | src/repository.rs:160-168 | The tree stays or the stage is moved to the absent output, in one step, and stays moved when the parent sync fails; without a refusal only a link at the output stops it |
| Publication.PublishOrRemove | src/repository.rs:134-173 | Every tree is confined to the stage except that the last may be the one after publication: removal after an error never touches a published output, and without a refusal leaves nothing of the stage |
| Publication.CreatePrivateTree | src/repository.rs:308-335 | Only directories below the root and on the way to the destination are added; success leaves the destination a directory; refusal aside it fails only if the destination is outside the root or cannot be one |
| Publication.MovedIsPlaced | src/repository.rs:163-165 | One rename takes a tree without the output to one whose output is exactly what was staged, with nothing left of the stage and nothing else changed |
| Publication.CourseIsSafe | src/repository.rs:134-173 | A run whose trees are confined to the stage until a last, published one is safe at each: untouched elsewhere, nothing or a complete catalog at the output, and final once published |
| Repository.VerifyStagedCatalog | src/repository.rs:176-218 | Succeeds exactly when the lock holds, the profiles load under the keyring, the package index is signed, the driver ABI is well formed and the manifest names exactly the expected paths. Told by the files alone, what verifies is signed, and an index that the authority does not accept is never verified |
| Repository.VerifiedIsSigned | src/repository.rs:176-218 | Of a tree that verifies, by its files: the authority accepts the bytes of `packages.toml` and `packages.toml.sig` under `keys.toml`; every profile file below `profiles` is signed by its own `.sig`, no two have one id, and none is a link; the lock has its shape, lists every profile file, and holds the digests of the keyring, of every profile and signature and of the five driver sources; the ABI file is two runs of digits around a dot |
| Repository.ValidateManifest | src/repository.rs:241-279 | Succeeds exactly on a manifest with a valid header, 1 to 4096 valid objects, distinct paths, distinct URLs and a bounded total, though paths, URLs and total are checked as they accumulate |
| Admission.ManifestsDecided | src/repository.rs:241-279 | A manifest is valid exactly when it has format 1, the right repository, a snapshot that is not blank, and 1 to 4096 objects, no path or URL twice and 512 MiB in all, each with a relative path whose components never are `..`, an https address, 64 lower-case hexadecimal digits and 1 byte to 64 MiB |
| Repository.DestinationsDistinct | src/repository.rs:134-158 | In a staged catalog that verifies, two objects of the manifest never share a destination |
| Repository.ExpectedPathsNormal | src/repository.rs:220-239 | Once the lock holds, every expected path is the one text that spells its components |
| Repository.SnapshotSize | src/repository.rs:206-239 | A manifest that passes the exact-set check lists ten objects and two for each profile of the lock |
| Repository.ManifestNames | src/repository.rs:206-239 | A manifest that passes the exact-set check names exactly the five fixed files, the five driver sources and, for each profile of the lock, its file and its signature |
| Catalog.VerifyCatalog | src/catalog.rs:78-139 | Returns the lock exactly when its shape is valid, the keyring, every listed profile, signature and source have their digests, and the listed profiles are exactly those found on disk |
| Catalog.CollectProfiles | src/catalog.rs:218-253 | Visiting directories in any order finds exactly the profile files below, and refuses exactly when there is a symbolic link |
| Catalog.VerifyListed | src/catalog.rs:100-130 | The loop that accumulates the listed paths accepts exactly when they are distinct and each entry holds |
| Paths.NormalInjective | src/catalog.rs:255-270 | Texts that spell their own components and name the same components are the same text |
| Paths.ComponentsOfSpelled | src/repository.rs:391-409 | Spelling a component list and reading it back gives the list |
| FileTree.MovedBelow | src/repository.rs:163-164 | After a rename, what was below the old place is below the new one, entry for entry |
| FileTree.FileSystem.Fetch | src/repository.rs:143 | A fetcher may write its own destination any number of times and then fail; nothing else changes at any step |
| FileTree.FileSystem.RemoveTree | src/repository.rs:170-172 | Removal takes entries below its root only, leaves first; unrefused it leaves none, and it does nothing where there are none |
| Resolve.Resolve | src/profile.rs:439-495 | The program's filter, maximum, retain, stable sort, tie and conflict stages compute the outcome defined by the unbeaten profiles alone; what that outcome is in terms of fields and rules, `Evidence.EvidenceSelects`, `Evidence.LevelIsAmbiguous` and `Evidence.ConflictNames` say |
| Resolve.TopsFirst | src/profile.rs:452-479 | After the sort, the run of equal ranks lists the unbeaten profiles by ascending id, and is longer than one exactly when the second has the first one's rank |
| ResolveProperties.SelectedExactly | src/profile.rs:439-495 | A profile is returned if and only if it is strictly ahead of every other match by priority then rank and conflicts with no match of another id in either direction |
| ResolveProperties.RefusedExactly | src/profile.rs:444-492 | None exactly when nothing matches; ambiguity exactly when no match is strictly ahead; a conflict names the leader and a real rival |
| ResolveProperties.CatalogOrderIrrelevant | src/profile.rs:439-495 | Permuting the profiles keeps the selected profile, the ambiguous ids, and the fact and winner of a conflict |
| HardwarePlan.ResolutionRefinesFold | formal/idris2/HardwarePlan.idr:92-108 | For every profile list the fold and resolution agree: none, the same selected profile, or a tie at the same priority and rank |
| HardwarePlan.FoldDescribes | formal/idris2/HardwarePlan.idr:92-104 | The fold's state after any list says which candidate leads it, or at which level two lead together |
| Evidence.MatchesByField | src/profile.rs:378-403 | A rule matches exactly when it names no half of a property and each of the 14 fields it names is so of the device or its machine; a text field is so when the text occurs somewhere, in letters of either case |
| Evidence.RankCountsEvidence | src/profile.rs:497-532 | The rank of a rule list is four for each field named, two for each rule naming vendor and product, and one for each rule naming the bound driver, counted as sets of places |
| Evidence.EqualFieldsDecided | src/profile.rs:497-532 | Of two profiles of one priority naming equally many fields, more exact identities win when bound drivers are as many, more bound drivers when exact identities are as many, and one exact identity is ahead of one bound driver, level with two and behind three |
| Evidence.OneMoreFieldDecided | src/profile.rs:497-532 | One more field is ahead of one more exact identity, level with two and behind three, and ahead of three more bound drivers, level with four and behind five |
| Evidence.EvidenceSelects | src/profile.rs:439-495 | A profile is selected if and only if it stands at a place where every field its rules name is so, outweighs by priority and then by that evidence every other such place, and no such profile lists it, or is listed by it, as a conflict under another id |
| Evidence.LevelIsAmbiguous | src/profile.rs:458-479 | Ambiguous if and only if some profile fits and none outweighs all others; the ids listed are those of the fitting profiles nothing outweighs, ascending |
| Evidence.ConflictNames | src/profile.rs:480-493 | A conflict names the foremost profile and a fitting one with another id that lists it, or that it lists |
| Specialise.ExtensionNarrowsAndOutranks | src/profile.rs:378-437 | A profile that strictly extends another, each rule extended by one of its own in whatever order, matches only where the other does and ranks at least 4 higher |
| Specialise.ExtendedProfileIsBeaten | src/profile.rs:497-519 | An eligible strict extension of at least the same priority beats the profile it extends |
| Specialise.ExtendedProfileNeverLeads | src/profile.rs:439-479 | Then resolution never selects the extended profile and never lists its id as ambiguous |
| Profile.Validate | src/profile.rs:197-342 | Accepts exactly the profiles format 1 admits, and every error names a defect the profile has |
| Admission.ProfilesDecided | src/profile.rs:197-376 | An independent account of what validation admits, field by field and without its validators: names and digests by their characters, rules that name a field and no half of a property, authorities by scope, the ABI range by numbers, ordered supported features, clean paths, recovery bounds, a rollback that rearranges the package names, conflicts |
| Profile.AbiOrderIsNumeric | src/profile.rs:534-538 | The order of two versions that can be read is that of 2³²·major + minor |
| Profile.AbiReading | src/profile.rs:540-558 | A version is read from exactly two non-empty runs of digits around the first dot, each a number below 2³² |
| Profile.AbiNeedsDot | src/profile.rs:543 | A text without a dot is no version |
| Profile.AbiRoundTrip | src/profile.rs:540-558 | Two numbers below 2³² spelled with a dot between them are read back |
| Profile.RollbackDecided | src/profile.rs:312-317 | Equal length and containment hold exactly when the rollback list is a rearrangement of the distinct package names |
| Profile.CompilerPolicyDecided | src/profile.rs:263-293 | The set sizes, neighbour comparisons and containment tests decide exactly the strictly ordered, supported policies whose required features are allowed |
| Profile.ValidatePackages | src/profile.rs:224-257 | The loop over packages accepts exactly valid packages with distinct names, and reports whether one is a driver or firmware |
| Plan.PlanFailsExactly | src/plan.rs:90-152 | For a validated profile planning fails only for an unreadable running ABI, one that as a number lies outside the range while some package is a driver or firmware, or a compiler mismatch, in that order; never for a missing ABI |
| Plan.RollbackUndoesInstall | src/plan.rs:120-151 | A plan installs the profile's packages in order, and its rollback removes exactly those, each once |
| Plan.PlanPinsEvidence | src/plan.rs:120-151 | The same plan is never built from profiles that differ in signed bytes, signing key, any package intent, health checks, rollback or recovery, nor for another device, ABI or processor |
| Plan.CompilerTargetIsOrderedIntersection | src/plan.rs:154-192 | For a valid policy a target exists exactly when the architecture agrees and required features are observed; its features are allowed ∩ observed, strictly ordered, supported, and hold the required ones. The error names the two architectures, or lists exactly the features missing, strictly ordered |
| Plan.CompilerTargetDependsOnFeatureSet | src/plan.rs:154-192 | Order and repeats of observed features change neither target nor error |
| PlanCommand.PlanMachine | src/main.rs:182-245 | Succeeds exactly when every device can be planned, the demanded targets have profiles, and every unresolved device resolves to one; resolve errors come from the first pass only and no reported device is ever missing. With the flag, a printed set has a plan for every device off sysfs with a function, with a modalias and no driver, or with one of the three driver properties, and the run fails for want of a target profile only at such a device, which no profile fits |
| PlanCommand.FlagDemandsExactly | src/main.rs:199-217 | A run with the flag succeeds if and only if it succeeds without it and every such device fits some profile: neither a sysfs device nor a bound one without function and evidence makes it fail |
| PlanCommand.PlansAreBacked | src/main.rs:188-198 | Every plan is for a device of the inventory and carries, field by field, the profile selected for it, the digest of its signed bytes, its signing key, the processor observed and the running ABI |
| PlanCommand.PlanSetCovers | src/main.rs:182-237 | For a scanned inventory: one plan for each device some profile matches, keys strictly ascending, every unresolved device and, with the flag, every device that requires a target covered |
| Preflight.PreflightInventory | src/preflight.rs:80-159 | The nested loops and sort yield exactly the specified report, and ready means it is empty |
| Preflight.ReportIsExact | src/preflight.rs:80-159 | For a scanned inventory: exactly one entry for each capability and device that is capable, a candidate and unbound, strictly ordered, as many as the unbound lists hold, so no key was skipped |
| Preflight.ReadyExactly | src/preflight.rs:150-158 | Ready exactly when no capable candidate is unbound |
| Preflight.ReportedDevicesExist | src/preflight.rs:88-101 | On any inventory every reported entry describes one of its devices |
| Capabilities.SortedDevicesKeepFirst | src/scan.rs:117-118 | Sorting and de-duplicating leaves strictly ascending keys and, for each key, the device found first |
| Capabilities.CapabilityRequirements | src/scan.rs:1731-1763 | The per-capability loops compute, for each capability, the ascending keys, modaliases, bound drivers and unbound keys of its candidates |
| Scan.BuildInventory | src/scan.rs:117-148 | Fails exactly when some table or root cannot be read; otherwise the devices are those found first, annotated by the four passes in order, with strictly ascending keys, every table and root is recorded, and the requirements are derived from the devices |
| DriverSources.DriverSourceManifest | src/scan.rs:155-208 | Exactly when every table and root can be read: one record for each, with the table's digest, strictly ascending by kind and path although repeats are dropped by whole records only |
| DriverSources.ReleaseOfTable | src/scan.rs:213-221 | A table at `.../modules/RELEASE/NAME` is recorded under that release, trimmed, unless that leaves nothing |
| ReportContents.EveryEntryIsRight | src/scan.rs:117-148 | From tables and found devices to the report: every entry stems from a found device; its candidate drivers are that device's 32 least hits, its firmware names the 64 least valid names of device and drivers, its firmware files the 64 least found for those names exactly when comma-free, and its driver files, dependencies and built-ins those the tables list for its drivers |
| ReportContents.ReportedDriversAreLeast | src/scan.rs:117-148 | In particular, for an ASCII modalias, or tables with ASCII literal parts, the candidate drivers an entry shows are exactly the 32 least drivers with, in some table, an alias whose pattern matches |
| ReportContents.LaterPassesKeepDrivers | src/scan.rs:127-136 | The drivers the firmware and driver-files passes look up are those the candidates pass left |
| Reported.EveryEntryShowsItsDevice | src/preflight.rs:103-142 | Every entry describes a device that was found, and each of its eleven lists is what the pass that writes it made of that device: no later pass overwrites it and none is read from another property |
| Scan.PassesOnlyProperties | src/scan.rs:119-136 | No annotation pass changes anything of a device but its properties |
| Glob.GlobMatches | src/scan.rs:1704-1729 | The row-by-row matcher decides the inductive meaning of `*`, `?` and literal bytes on every pattern and value |
| Glob.NextRow | src/scan.rs:1708-1726 | Each pass turns the row for i pattern bytes into the row for i + 1 |
| Glob.MatchesComposes | src/scan.rs:1704-1729 | A concatenated pattern matches exactly the values that split into a part for each half |
| Glob.PrefixFilterLossless | src/scan.rs:1533-1537 | Skipping on the literal prefix loses no match if and only if the pattern is ASCII up to its first wildcard |
| ModulesAlias.ParseModulesAlias | src/scan.rs:1517-1547 | The aliases of all alias lines, ascending by pattern and driver; which lines those are, `Readings.AliasLineExactly` says |
| ModulesAlias.ParseModulesBuiltinModinfoAliases | src/scan.rs:1549-1580 | The aliases of all alias records, strictly ascending: de-duplication loses none |
| Readings.AliasLineExactly | src/scan.rs:1519-1531 | A pattern and a driver are read from a line if and only if the line is `alias`, the pattern and the driver set apart by white space, nothing more, and the driver is letters, digits, `_`, `-` and `.` |
| Readings.AliasRecordExactly | src/scan.rs:1551-1562 | A pattern and a driver are read from a record if and only if it is a module without `=`, `.alias=` and a pattern, and the driver is the module's canonical name |
| Readings.AliasTextReads | src/scan.rs:1517-1547 | A text of lines `alias PATTERN DRIVER` says exactly the pairs written |
| Readings.AliasRecordsRead | src/scan.rs:1549-1580 | A text of records `MODULE.alias=PATTERN`, NUL between them, says exactly the patterns written, for the modules with underscores for hyphens |
| Readings.AliasesAreSaid | src/scan.rs:1036-1070 | The merged table holds an alias if and only if some line of an alias table or some record of a modinfo table spells it |
| Readings.CandidatesFollowTables | src/scan.rs:1071-1098 | From the texts of the tables to a device with an ASCII modalias: its candidates are the 32 least drivers that some line or record names for a matching pattern |
| Readings.ReportFollowsTables | src/scan.rs:117-148 | And so are the candidate drivers its entry in the report shows |
| Readings.NamesDecided | src/scan.rs:1682-1702 | The validators of driver, module path and firmware names accept exactly the names of the stated characters and length that are relative and have no component `..` |
| ModulesAlias.CollectAliases | src/scan.rs:1036-1070 | The merged, sorted, partly de-duplicated table holds, as a set, exactly the aliases of all tables with their sources |
| ModulesAlias.TableOrderIrrelevant | src/scan.rs:1036-1070 | The merged aliases do not depend on the order or repeats of the tables |
| ModulesAlias.AnnotateLinuxDriverCandidates | src/scan.rs:1031-1121 | In place: either a table cannot be read and no device changes, or every device becomes what the merged aliases make of it |
| ModulesAlias.CandidatesAreLeast | src/scan.rs:1071-1098 | The candidates read back from a device are exactly the 32 least drivers both filters let through, which for an ASCII modalias are those with some matching alias in some table; a device without any is unchanged |
| ModulesAlias.HitsAreMatches | src/scan.rs:1075-1079 | For an ASCII modalias, whatever the tables hold, or for ASCII literal parts, prefix filter then glob selects exactly what glob alone selects; otherwise what is lost are drivers all of whose matching aliases have a literal part that is not ASCII |
| ModulesAlias.SourcesBelongToKept | src/scan.rs:1099-1111 | Every recorded source belongs to a kept candidate and a table with a matching alias for it |
| ModulesAlias.TwoTablesKeepAllSources | src/scan.rs:1099-1111 | With at most two tables the cap of 64 drops no source of a kept candidate |
| ModulesAlias.FewTables | src/scan.rs:1036-1059 | Aliases come from no more sources than there are tables that can hold them |
| ModulesAlias.SourcesReadBack | src/scan.rs:1099-1117 | The recorded sources read back if and only if no table they name has a comma in its path |
| ModulesAlias.CandidatesAreDrivers | src/scan.rs:1184-1190 | The drivers later passes look up are exactly the canonical names of the kept candidates and of the bound driver |
| ModulesFirmware.ParseModulesFirmware | src/scan.rs:1582-1662 | Ends with pairwise distinct modules, none empty, holding exactly the union of valid names that either pass finds |
| ModulesFirmware.MergeMention | src/scan.rs:1612-1626 | Extending a module's record or adding one keeps modules distinct and adds exactly the mentioned pairs |
| Readings.MentionLineReads | src/scan.rs:1629-1650 | A line `MODULE: NAMES` is read as the module, with underscores for hyphens, and its names in order, none dropped, whether spaces or commas separate them |
| Readings.MentionRecordReads | src/scan.rs:1588-1611 | Likewise a record `MODULE.firmware=NAMES` |
| Readings.FirmwareTextReads | src/scan.rs:1628-1661 | A text of such lines says exactly the names written, each for its module |
| Readings.FirmwareRecordsRead | src/scan.rs:1584-1627 | Likewise a text of two or more such records, NUL between them, and the pass over lines adds nothing |
| Readings.LinuxReadersReadMentions | src/scan.rs:1582-1662 | The program's own readers read lines and records as the two rows above ask, and what has no colon is no line |
| Readings.CommentSaysNothing | src/scan.rs:1630-1632 | A comment names no firmware |
| ModulesFirmware.TableOrderIrrelevant | src/scan.rs:1348-1374 | The merged names and sources do not depend on the order or repeats of the tables |
| ModulesFirmware.ListRecords | src/scan.rs:1363-1374 | Listing the merged maps as records loses and adds nothing |
| ModulesFirmware.AnnotateLinuxFirmwareCandidates | src/scan.rs:1344-1417 | In place: either a table cannot be read and no device changes, or every device is annotated from all tables together |
| ModulesFirmware.FirmwareIsLeast | src/scan.rs:1385-1408 | The names read back from a device are exactly the 64 least of the valid names it reports and those of its drivers |
| Readings.ReportedNamesRead | src/scan.rs:1384-1392 | The names a device reports itself are read whether commas, spaces or tabs separate them, none dropped |
| ModulesFirmware.AllNamesValid | src/scan.rs:1682-1692 | Whatever the tables hold, every merged firmware name passed the validator |
| ModulesFirmware.SourcesReadBack | src/scan.rs:1409-1414 | All recorded tables read back if and only if none has a comma in its path, for drivers whose names have none |
| ModulesFirmware.DriversCommaFree | src/scan.rs:1377-1383 | A device's driver names hold no comma unless its bound driver's does |
| FirmwareFiles.AnnotateLinuxFirmwareFiles | src/scan.rs:1425-1476 | In place: either a root is not a directory and no device changes, or every device is annotated from all roots |
| FirmwareFiles.AllFoundMembers | src/scan.rs:1455-1463 | An entry is listed exactly when it is a candidate, `=` and a file, and that candidate with some suffix resolves to the file inside the canonical form of some root |
| Readings.WrittenNamesRead | src/scan.rs:1446-1453 | The firmware names written to a device are the candidates looked for, in order |
| Readings.OnlyNamesLookedFor | src/scan.rs:1446-1453 | Whatever the property holds, only relative names without a component `..` are looked for |
| FirmwareFiles.RootOrderIrrelevant | src/scan.rs:1429-1431 | The order and repeats of the roots do not matter |
| FirmwareFiles.FilesReadBack | src/scan.rs:1464-1473 | The 64 least files are kept, and read back if and only if no kept file has a comma in its path |
| ModulesDep.OneRecordPerPath | src/scan.rs:1304-1310 | Stable sorting by module and path, then dropping neighbours that agree on both, keeps for each path its first record |
| ModulesDep.ParseModulesDep | src/scan.rs:1283-1311 | The loop, sort and de-duplication leave one record per path, strictly ascending, each the first that the file has for its path |
| ModulesDep.ParseModulesBuiltin | src/scan.rs:1313-1324 | Exactly the canonical names of the valid lines, strictly ascending |
| Readings.PayloadReads | src/scan.rs:1285-1302 | A line `PATH: WORDS`, white space around the path or not, is read as that path with the module paths among the words, in order |
| Readings.PayloadTextReads | src/scan.rs:1283-1303 | A text of lines `PATH: DEPENDENCIES` holds exactly the payloads written, in order, each with all its dependencies |
| Readings.LinuxReadersReadPayloads | src/scan.rs:1283-1303 | The program's own reader reads lines as that row asks |
| Readings.NoPayload | src/scan.rs:1286-1288 | A line without a colon holds no payload |
| Readings.BuiltinReads | src/scan.rs:1313-1324 | A line of modules.builtin is read as the canonical name of the payload it shows, whatever white space is around it |
| ModulesDep.TableOrderIrrelevant | src/scan.rs:1140-1181 | What the tables say together does not depend on their order or repeats |
| ModulesDep.AnnotateLinuxDriverFiles | src/scan.rs:1135-1281 | In place: either a table cannot be read and no device changes, or every device is annotated from all tables together |
| ModulesDep.TablesPlain | src/scan.rs:1326-1335 | Whatever the tables hold, the module path validator keeps commas out of modules, paths, dependencies and built-ins |
| ModulesDep.NamesReadBack | src/scan.rs:1207-1271 | Driver files, dependencies and built-ins read back exactly as listed |
| ModulesDep.SourcesReadBack | src/scan.rs:1224-1279 | Each source list reads back if and only if no table it names has a comma in its path |
| ModulesDep.WrittenApart | src/scan.rs:1218-1277 | The six properties are distinct, so none overwrites another |
| Metadata.CanonicalOfPayload | src/scan.rs:1664-1680 | Wherever a module's payload lies and however it is compressed, its canonical name is its own, with underscores for hyphens |
| Readings.CanonicalOfPlain | src/scan.rs:1664-1680 | The canonical name of a plain module name is, character by character, that name with underscores for hyphens |
| Metadata.ListingMembers | src/scan.rs:1224-1235 | An entry is listed exactly when it comes from a pair under a selected module |
| Metadata.GroupedExtended | src/scan.rs:1353-1360 | Extending a map of sets adds exactly the new pairs to the relation it holds |
| Properties.EachIsRead | src/preflight.rs:161-173 | Of several lists written under distinct properties, each reads back exactly when no item is empty or holds a comma |
| Text.CommaRoundTrip | src/preflight.rs:161-173 | Splitting a joined list and dropping empty items recovers it if and only if no item is empty or holds a comma |
| Text.JoinSplit | src/preflight.rs:161-173 | Joining the pieces of a split text gives the text back |
| Text.SplitPieces | src/scan.rs:1326-1335 | The pieces of a split are exactly what stands between separators or the ends and holds none, so `..` is a piece exactly where it is a whole component |
| Text.LineEnds | src/scan.rs:1519 | A line ends at a line feed, or at a carriage return and a line feed, and neither belongs to it |
| Text.LinesWritten | src/scan.rs:1519 | Reading the lines of a text written line by line gives them back |
| Text.WordsJoin | src/scan.rs:1520 | Words joined by a separator are found again |
| Text.LessDecided | src/scan.rs:1541-1545 | The order of texts is decided by the first difference, a proper prefix first |
| Sorting.TakeLeast | src/scan.rs:1090-1092 | Taking n from an ordered set keeps exactly its n least members, in order |
| Sorting.DedupMembers | src/scan.rs:1068-1070 | Dropping neighbours that are the same item loses no item |
| Sorting.ToSorted | src/scan.rs:1093-1097 | Lists a set of strings in strictly ascending order |
| Health.SeverityIsMonotone | src/health.rs:24-49 | Within a window, severity never drops as a counter grows or a flag turns bad |
| Health.QuarantineAtTwiceTheThreshold | src/health.rs:24-49 | From min(2·max, 2³²−1) recoveries on every flag combination is quarantined, if and only if max is at least 1 |
| Profile.ValidRecoveryQuarantines | src/profile.rs:318-327 | The policy of a validated profile meets that condition |
| Health.SaturationIsNeverMilder | src/health.rs:24-49 | Saturating arithmetic is never milder than exact arithmetic, and equals it except on healthy flags with a saturated total below 2·max |
| Signature.Encode | src/signature.rs:208-216 | The loop spells each byte as its two lower-case digits, high nibble first |
| Signature.DecodeArray | src/signature.rs:218-227 | Succeeds exactly when the specified reading of digit pairs does, with its bytes |
| Signature.DecodeEncode | src/signature.rs:208-236 | Decoding undoes encoding, for every byte string |
| Signature.EncodeDecode | src/signature.rs:218-236 | Decoding succeeds exactly on 2n hexadecimal digits of either case (Base16, section 8 of RFC 4648), and encoding the result spells them in lower case |

## Left out

- Publication.SyncCatalog: paths are absolute component lists whose directories are real ones: an output given through a linked ancestor, or with `..`, is modelled by the path that leads to. The output itself may be a link; a link's target is an absolute path without `..`.
- Publication.SyncCatalog: says nothing of concurrent writers, of permission bits, or of durability beyond rename being one step; reading staged files while verifying them is taken to succeed where the tree has them.
- Publication.StageObject: a fetcher replaces whole entries; partial writes are writes of other bytes.
- Repository.VerifyStagedCatalog: error texts are dropped, and TOML, UTF-8, SHA-256 and Ed25519 are arbitrary functions, so only their use is modelled.
- Catalog.VerifyCatalog: directories are listed in any order; the lock's revision and date texts are checked as the program checks them, not for meaning.
- Resolve.Resolve: a rank is an exact integer; the sums the program forms in 32 bits and in floating point are small enough to be exact for any profile that fits in memory, and overflow is not modelled.
- PlanCommand.PlanMachine: calls resolution and planning through the functions that `Resolve.Resolve` and `Plan.BuildPlan` are proved to be; reading files, parsing options and printing JSON are not part of it.
- Capabilities.CapabilityRequirements: the keyword tables of `device_capabilities` and `is_requirement_candidate` are arbitrary functions of the device.
- ModulesAlias.CollectAliases: a table's path is its component list, so `.` and repeated slashes are gone, and the place of `..` among components is that of its bytes; a table that is a symbolic link counts as unreadable.
- Metadata.CanonicalModuleName: texts are bytes, so Unicode whitespace and invalid UTF-8, which the program replaces, are not modelled.
- Scan.BuildInventory: a table is taken to read the same in every pass; the fixed list of authorities in the record of driver sources is left out, and what the bus walkers and `scan_system` read are arguments.
- FirmwareFiles.AnnotateLinuxFirmwareFiles: canonicalising a path and confining it to its root is a parameter.
- Sysfs walkers, default roots and `/proc/cpuinfo`: file reading without an invariant; the model starts from an arbitrary list of found devices.
- `sync_catalog`, `download_https` and curl: network and process plumbing behind the fetcher.
- `Keyring`, `load_profiles` beyond their use in verification, `src/qualification.rs`, `src/sources.rs`, `src/bin/`, `native/`, `formal/agda`, build scripts: they would add only easy members.
