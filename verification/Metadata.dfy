/** What the driver-metadata readers share: table paths and texts, module and firmware names, and
    lists of `key=value` entries drawn from relations (src/scan.rs). */
module Metadata {
  import opened Wrappers
  import opened Text
  import opened Sorting
  import opened Facts

  const MAX_TABLE_BYTES := 32 * 1024 * 1024
  const MAX_DRIVER_CANDIDATES := 32
  const MAX_DRIVER_FILES := 64
  const MAX_FIRMWARE_CANDIDATES := 64
  const MAX_FIRMWARE_FILES := 64

  // ----- Tables

  /** A table's path, its components separated by NUL, so that the order of paths, which is that
      of their component lists, is the order of these texts. */
  type TablePath = string

  function Display(path: TablePath): string {
    Replace(path, '\0', '/')
  }

  function TableName(path: TablePath): string {
    var components := Split(path, '\0');
    components[|components| - 1]
  }

  /** The readable regular files, by path. */
  type Tables = map<TablePath, string>

  predicate Readable(files: Tables, path: TablePath) {
    path in files && |files[path]| <= MAX_TABLE_BYTES
  }

  predicate AllReadable(files: Tables, paths: seq<TablePath>) {
    forall path | path in paths :: Readable(files, path)
  }

  /** `read_modules_metadata`. */
  function ReadTable(files: Tables, path: TablePath): (r: Option<string>)
    ensures r.Some? <==> Readable(files, path)
    ensures r.Some? ==> r.value == TextOf(files, path)
  {
    if path in files && |files[path]| <= MAX_TABLE_BYTES then Some(files[path]) else None
  }

  function TextOf(files: Tables, path: TablePath): string {
    if path in files then files[path] else ""
  }

  // ----- Names

  /** `split_once`: what is before the first c and what is after it. */
  function SplitOnce(s: string, c: char): Option<(string, string)> {
    var head := Before(s, c);
    if |head| == |s| then None else Some((head, s[|head| + 1..]))
  }

  function StripSuffix(s: string, suffix: string): Option<string> {
    if HasSuffix(s, suffix) then Some(s[..|s| - |suffix|]) else None
  }

  function StripFirst(s: string, suffixes: seq<string>): (r: string)
    ensures |r| <= |s| && r == s[..|r|]
  {
    if suffixes == [] then s
    else if HasSuffix(s, suffixes[0]) then s[..|s| - |suffixes[0]|]
    else StripFirst(s, suffixes[1..])
  }

  const COMPRESSION_SUFFIXES: seq<string> := [".xz", ".zst", ".gz", ".bz2", ".lz4", ".lz"]

  /** `Path::new(value).file_name()`. */
  function FileName(value: string): (r: Option<string>)
    ensures r.Some? ==> forall c | c in r.value :: c in value
  {
    var pieces := Filter(Split(value, '/'), IsComponent);
    if pieces == [] || pieces[|pieces| - 1] == ".." then None
    else
      SplitWithin(value, '/');
      assert pieces[|pieces| - 1] in pieces;
      Some(pieces[|pieces| - 1])
  }

  lemma {:induction false} SplitWithin(s: string, separator: char)
    ensures forall piece | piece in Split(s, separator) :: forall c | c in piece :: c in s
    decreases |s|
  {
    var head := Before(s, separator);
    if |head| < |s| {
      SplitWithin(s[|head| + 1..], separator);
    }
  }

  function CanonicalModuleName(value: string): (r: string)
    ensures forall c | c in r :: c in value || c == '_'
  {
    var name := if FileName(value).Some? then FileName(value).value else value;
    var uncompressed := StripFirst(name, COMPRESSION_SUFFIXES);
    Replace(StripFirst(uncompressed, [".ko"]), '-', '_')
  }

  /** One more piece after a separator. */
  lemma SplitAppend(s: string, last: string, c: char)
    requires c !in last
    ensures Split(s + ([c] + last), c) == Split(s, c) + [last]
  {
    JoinSplit(s, c);
    JoinAppend(Split(s, c), last, c);
    SplitJoin(Split(s, c) + [last], c);
  }

  lemma LastKept(pieces: seq<string>, name: string)
    requires IsComponent(name)
    ensures Filter(pieces + [name], IsComponent) == Filter(pieces, IsComponent) + [name]
  {
    FilterAppend(pieces, [name], IsComponent);
    assert [name][1..] == [];
  }

  /** In any directory, or in none, the last component is the file name. */
  lemma FileNameIn(directory: string, name: string)
    requires '/' !in name && name != "" && name != "." && name != ".."
    ensures FileName(directory + (['/'] + name)) == Some(name) && FileName(name) == Some(name)
  {
    SplitAppend(directory, name, '/');
    LastKept(Split(directory, '/'), name);
    SplitWhole(name, '/');
    LastKept([], name);
    assert [] + [name] == [name];
  }

  lemma SuffixByItsEnd(s: string, compression: string, other: string)
    requires compression in COMPRESSION_SUFFIXES && other in COMPRESSION_SUFFIXES && |s| >= 4
    ensures HasSuffix(s + compression, other) <==> compression == other
  {
    var whole := s + compression;
    assert whole[|whole| - 1] == compression[|compression| - 1];
    assert whole[|whole| - 2] == compression[|compression| - 2];
    assert whole[|whole| - 3] == compression[|compression| - 3];
    if HasSuffix(whole, other) {
      var tail := whole[|whole| - |other|..];
      assert tail[|other| - 1] == whole[|whole| - 1] && tail[|other| - 2] == whole[|whole| - 2];
    }
    if compression == other {
      assert whole[|s|..] == compression;
    }
  }

  lemma {:induction false} StripOne(s: string, compression: string, suffixes: seq<string>)
    requires |s| >= 4 && compression in suffixes && compression in COMPRESSION_SUFFIXES
    requires forall other | other in suffixes :: other in COMPRESSION_SUFFIXES
    ensures StripFirst(s + compression, suffixes) == s
  {
    SuffixByItsEnd(s, compression, suffixes[0]);
    if suffixes[0] == compression {
      assert (s + compression)[..|s|] == s;
    } else {
      StripOne(s, compression, suffixes[1..]);
    }
  }

  lemma {:induction false} StripNone(s: string, suffixes: seq<string>)
    requires s != "" && s[|s| - 1] == 'o' && forall other | other in suffixes :: other in COMPRESSION_SUFFIXES
    ensures StripFirst(s, suffixes) == s
  {
    if suffixes != [] {
      assert suffixes[0] in COMPRESSION_SUFFIXES;
      StripNone(s, suffixes[1..]);
    }
  }

  /** Wherever a module's payload lies and however it is compressed, its canonical name is its own,
      with underscores for hyphens. */
  lemma CanonicalOfPayload(directory: string, name: string, compression: string)
    requires name != "" && '/' !in name && (compression == "" || compression in COMPRESSION_SUFFIXES)
    ensures CanonicalModuleName(directory + (['/'] + (name + ".ko" + compression))) == Replace(name, '-', '_')
    ensures CanonicalModuleName(name + ".ko" + compression) == Replace(name, '-', '_')
  {
    var payload := name + ".ko" + compression;
    SuffixesPlain(compression);
    assert |payload| >= 4;
    FileNameIn(directory, payload);
    if compression == "" {
      assert payload == name + ".ko";
      assert payload[|payload| - 1] == 'o';
      StripNone(payload, COMPRESSION_SUFFIXES);
    } else {
      StripOne(name + ".ko", compression, COMPRESSION_SUFFIXES);
    }
    assert (name + ".ko")[|name|..] == ".ko" && (name + ".ko")[..|name|] == name;
  }

  lemma SuffixesPlain(compression: string)
    requires compression == "" || compression in COMPRESSION_SUFFIXES
    ensures '/' !in compression
  {
  }

  predicate IsModuleByte(c: char) {
    IsAsciiAlphanumeric(c) || c == '_' || c == '-' || c == '.' || c == '/'
  }

  predicate ValidModulePath(value: string) {
    value != "" && value[0] != '/' && !MentionsParent(value) && forall c | c in value :: IsModuleByte(c)
  }

  predicate ValidFirmwareCandidate(value: string) {
    value != "" && |value| <= 256 && value[0] != '/' && !MentionsParent(value)
    && forall c | c in value :: IsModuleByte(c) || c == '+' || c == '@'
  }

  predicate ValidDriverCandidate(value: string) {
    value != "" && forall c | c in value :: IsAsciiAlphanumeric(c) || c == '_' || c == '-' || c == '.'
  }

  // ----- Relations from keys to values

  type Relation = set<(string, string)>

  function Keys(relation: Relation): set<string> {
    set pair | pair in relation :: pair.0
  }

  function ValuesOf(relation: Relation, key: string): set<string> {
    set pair | pair in relation && pair.0 == key :: pair.1
  }

  /** The relation as a map to sets, the form in which it is built up. */
  function Grouped(relation: Relation): map<string, set<string>> {
    map key | key in Keys(relation) :: ValuesOf(relation, key)
  }

  /** `entry(key).or_default().insert(value)`. */
  function Inserted(m: map<string, set<string>>, key: string, value: string): map<string, set<string>> {
    m[key := (if key in m then m[key] else {}) + {value}]
  }

  lemma KeysInserted(relation: Relation, key: string, value: string)
    ensures Keys(relation + {(key, value)}) == Keys(relation) + {key}
  {
    assert (key, value) in relation + {(key, value)};
  }

  lemma ValuesInserted(relation: Relation, key: string, value: string, k: string)
    ensures ValuesOf(relation + {(key, value)}, k) == ValuesOf(relation, k) + (if k == key then {value} else {})
  {
    assert (key, value) in relation + {(key, value)};
  }

  lemma NoValues(relation: Relation, key: string)
    requires key !in Keys(relation)
    ensures ValuesOf(relation, key) == {}
  {
  }

  lemma GroupedInserted(relation: Relation, key: string, value: string)
    ensures Grouped(relation + {(key, value)}) == Inserted(Grouped(relation), key, value)
  {
    KeysInserted(relation, key, value);
    if key !in Keys(relation) {
      NoValues(relation, key);
    }
    var more, inserted := Grouped(relation + {(key, value)}), Inserted(Grouped(relation), key, value);
    assert more.Keys == inserted.Keys;
    forall k | k in more ensures more[k] == inserted[k] {
      ValuesInserted(relation, key, value, k);
    }
  }

  /** `entry(key).or_default().extend(values)`. */
  function Extended(m: map<string, set<string>>, key: string, values: set<string>): map<string, set<string>> {
    m[key := (if key in m then m[key] else {}) + values]
  }

  function Pairs(key: string, values: set<string>): Relation {
    set value | value in values :: (key, value)
  }

  lemma KeysExtended(relation: Relation, key: string, values: set<string>)
    requires values != {}
    ensures Keys(relation + Pairs(key, values)) == Keys(relation) + {key}
  {
    var value :| value in values;
    assert (key, value) in relation + Pairs(key, values);
    forall k | k in Keys(relation) ensures k in Keys(relation + Pairs(key, values)) {
      var pair :| pair in relation && pair.0 == k;
      assert pair in relation + Pairs(key, values);
    }
  }

  lemma ValuesExtended(relation: Relation, key: string, values: set<string>, k: string)
    ensures ValuesOf(relation + Pairs(key, values), k) == ValuesOf(relation, k) + (if k == key then values else {})
  {
    forall value | (k, value) in relation ensures value in ValuesOf(relation + Pairs(key, values), k) {
      assert (k, value) in relation + Pairs(key, values);
    }
    forall value | k == key && value in values ensures value in ValuesOf(relation + Pairs(key, values), k) {
      assert (k, value) in relation + Pairs(key, values);
    }
  }

  lemma GroupedExtended(relation: Relation, key: string, values: set<string>)
    requires values != {}
    ensures Grouped(relation + Pairs(key, values)) == Extended(Grouped(relation), key, values)
  {
    KeysExtended(relation, key, values);
    if key !in Keys(relation) {
      NoValues(relation, key);
    }
    var more, extended := Grouped(relation + Pairs(key, values)), Extended(Grouped(relation), key, values);
    assert more.Keys == extended.Keys;
    forall k | k in more ensures more[k] == extended[k] {
      ValuesExtended(relation, key, values, k);
    }
  }

  /** The values under any of the keys. */
  function Selected(relation: Relation, keys: set<string>): set<string> {
    set pair | pair in relation && pair.0 in keys :: pair.1
  }

  // ----- Lists of entries

  function Entry(key: string, value: string): string {
    key + "=" + value
  }

  lemma EntryCommas(key: string, path: TablePath)
    requires ',' !in key
    ensures Entry(key, Display(path)) != ""
    ensures ',' in Entry(key, Display(path)) <==> ',' in path
  {
    DisplayCommas(path);
    CommaInEntry(key, Display(path));
    assert |Entry(key, Display(path))| > 0;
  }

  /** Listed entries are free of commas exactly when the values they show are. */
  lemma EntriesCommaFree(relation: Relation, keys: set<string>, show: string -> string, kept: seq<string>)
    requires forall key | key in Keys(relation) * keys :: ',' !in key
    requires forall entry | entry in kept :: entry in Listing(relation, keys, show)
    ensures CommaFree(kept)
            <==> forall pair | pair in relation && pair.0 in keys && Entry(pair.0, show(pair.1)) in kept ::
                   ',' !in show(pair.1)
  {
    forall entry | entry in kept
      ensures entry != ""
      ensures exists pair | pair in relation && pair.0 in keys :: entry == Entry(pair.0, show(pair.1))
    {
      ListingMembers(relation, keys, show, entry);
      var key, value :| (key, value) in relation && key in keys && entry == Entry(key, show(value));
      assert (key, value).0 == key;
    }
    forall pair | pair in relation && pair.0 in keys
      ensures ',' in Entry(pair.0, show(pair.1)) <==> ',' in show(pair.1)
    {
      assert pair.0 in Keys(relation) * keys;
      CommaInEntry(pair.0, show(pair.1));
    }
  }

  lemma CommaInEntry(key: string, value: string)
    requires ',' !in key
    ensures ',' in Entry(key, value) <==> ',' in value
  {
    assert Entry(key, value) == key + ['='] + value;
    assert ',' in key + ['='] + value <==> ',' in key || ',' in value;
  }

  lemma EntryTellsKey(key: string, value: string)
    requires '=' !in key
    ensures Before(Entry(key, value), '=') == key
  {
    assert Entry(key, value) == key + (['='] + value);
    BeforeAppend(key, ['='] + value, '=');
  }

  lemma DisplayCommas(path: TablePath)
    ensures ',' in Display(path) <==> ',' in path
  {
    var shown := Display(path);
    if i :| 0 <= i < |path| && path[i] == ',' {
      assert shown[i] == ',';
    }
    if i :| 0 <= i < |shown| && shown[i] == ',' {
      assert path[i] == ',';
    }
  }

  /** The entries of one key, one for each of its values in ascending order. */
  ghost function EntriesOf(relation: Relation, key: string, show: string -> string): seq<string> {
    Map(Ascending(ValuesOf(relation, key)), (value: string) => Entry(key, show(value)))
  }

  ghost function EntriesOfAll(relation: Relation, keys: seq<string>, show: string -> string): seq<string> {
    if keys == [] then []
    else EntriesOfAll(relation, keys[..|keys| - 1], show) + EntriesOf(relation, keys[|keys| - 1], show)
  }

  /** The entries of the selected keys, ascending by key and then by value. */
  ghost function Listing(relation: Relation, keys: set<string>, show: string -> string): seq<string> {
    EntriesOfAll(relation, Ascending(Keys(relation) * keys), show)
  }

  lemma EntriesOfMembers(relation: Relation, key: string, show: string -> string, entry: string)
    ensures entry in EntriesOf(relation, key, show)
            <==> exists value | (key, value) in relation :: entry == Entry(key, show(value))
  {
    var values := Ascending(ValuesOf(relation, key));
    if entry in EntriesOf(relation, key, show) {
      var i :| 0 <= i < |values| && EntriesOf(relation, key, show)[i] == entry;
      assert values[i] in values && (key, values[i]) in relation;
    }
    forall value | (key, value) in relation && entry == Entry(key, show(value))
      ensures entry in EntriesOf(relation, key, show)
    {
      assert value in ValuesOf(relation, key) && value in values;
      var i :| 0 <= i < |values| && values[i] == value;
      assert EntriesOf(relation, key, show)[i] == entry;
    }
  }

  lemma {:induction false} EntriesOfAllMembers(
    relation: Relation, keys: seq<string>, show: string -> string, entry: string)
    ensures entry in EntriesOfAll(relation, keys, show)
            <==> exists key | key in keys :: entry in EntriesOf(relation, key, show)
  {
    if keys != [] {
      var n := |keys| - 1;
      EntriesOfAllMembers(relation, keys[..n], show, entry);
      assert keys == keys[..n] + [keys[n]];
      assert keys[n] in keys;
    }
  }

  /** An entry is listed exactly when it comes from a pair of the relation under a selected key. */
  lemma ListingMembers(relation: Relation, keys: set<string>, show: string -> string, entry: string)
    ensures entry in Listing(relation, keys, show)
            <==> exists key, value | (key, value) in relation ::
                   key in keys && entry == Entry(key, show(value))
  {
    var listed := Ascending(Keys(relation) * keys);
    EntriesOfAllMembers(relation, listed, show, entry);
    forall key ensures entry in EntriesOf(relation, key, show)
                       <==> exists value | (key, value) in relation :: entry == Entry(key, show(value))
    {
      EntriesOfMembers(relation, key, show, entry);
    }
    forall key, value | (key, value) in relation && key in keys ensures key in listed {
      assert key in Keys(relation);
    }
  }

  lemma {:induction false} EntriesOfAllLength(relation: Relation, keys: seq<string>, show: string -> string, n: nat)
    requires forall key :: |ValuesOf(relation, key)| <= n
    ensures |EntriesOfAll(relation, keys, show)| <= |keys| * n
  {
    if keys != [] {
      EntriesOfAllLength(relation, keys[..|keys| - 1], show, n);
      var last := keys[|keys| - 1];
      EntriesOfLength(relation, last, show);
      assert |keys| * n == (|keys| - 1) * n + n;
    }
  }

  lemma EntriesOfLength(relation: Relation, key: string, show: string -> string)
    ensures |EntriesOf(relation, key, show)| == |ValuesOf(relation, key)|
  {
    EnumerationLength(Ascending(ValuesOf(relation, key)), ValuesOf(relation, key));
  }

  /** List the entries of a relation, given as a map to sets, under the selected keys. */
  method ListEntries(
    m: map<string, set<string>>, keys: set<string>, show: string -> string, ghost relation: Relation)
    returns (r: seq<string>)
    requires m == Grouped(relation)
    ensures r == Listing(relation, keys, show)
  {
    var selected := set key | key in m && key in keys;
    assert selected == Keys(relation) * keys;
    var sorted := ToSorted(selected);
    r := [];
    for i := 0 to |sorted|
      invariant r == EntriesOfAll(relation, sorted[..i], show)
    {
      var key := sorted[i];
      assert key in selected;
      var values := ToSorted(m[key]);
      r := r + Map(values, (value: string) => Entry(key, show(value)));
      assert sorted[..i + 1][..i] == sorted[..i];
    }
    assert sorted[..|sorted|] == sorted;
  }

  // ----- Properties of a device

  /** `properties.insert(key, items.join(","))`, left out when there is nothing to list. */
  function WithList(d: HardwareDevice, key: string, items: seq<string>): HardwareDevice {
    if items == [] then d else d.(properties := d.properties[key := CommaList(items)])
  }

  /** The canonical names of the device's candidates and of its bound driver. */
  function DriversOf(d: HardwareDevice): set<string> {
    var candidates :=
      if "linux_driver_candidates" in d.properties
      then ToSet(Map(Split(d.properties["linux_driver_candidates"], ','), CanonicalModuleName))
      else {};
    candidates + (if d.driver.Some? then {CanonicalModuleName(d.driver.value)} else {})
  }
}
