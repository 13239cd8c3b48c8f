/** Device properties as the scanner writes them (src/scan.rs) and as preflight reads them back
    (src/preflight.rs, property_values). */
module Properties {
  import opened Text
  import opened Facts
  import opened Metadata
  import opened Preflight

  /** A written list reads back exactly when no item is empty or holds a comma. */
  lemma WrittenIsRead(d: HardwareDevice, key: string, items: seq<string>)
    requires items != []
    ensures PropertyValues(WithList(d, key, items), key) == items <==> CommaFree(items)
  {
    CommaRoundTrip(items);
  }

  /** The two devices agree on a property, or both lack it. */
  predicate SameProperty(d: HardwareDevice, d': HardwareDevice, key: string) {
    (key in d.properties <==> key in d'.properties)
    && (key in d.properties ==> d'.properties[key] == d.properties[key])
  }

  /** Writing one property changes no other. */
  lemma OthersUntouched(d: HardwareDevice, key: string, items: seq<string>, other: string)
    requires other != key
    ensures SameProperty(d, WithList(d, key, items), other)
    ensures PropertyValues(WithList(d, key, items), other) == PropertyValues(d, other)
  {
  }

  /** A list to write, and the property to write it to. */
  datatype Write = Write(key: string, items: seq<string>)

  /** Several lists, written one after another. */
  function WithLists(d: HardwareDevice, writes: seq<Write>): HardwareDevice {
    if writes == [] then d
    else
      var n := |writes| - 1;
      WithList(WithLists(d, writes[..n]), writes[n].key, writes[n].items)
  }

  lemma WithListsSnoc(d: HardwareDevice, writes: seq<Write>, write: Write)
    ensures WithLists(d, writes + [write]) == WithList(WithLists(d, writes), write.key, write.items)
  {
    assert (writes + [write])[..|writes|] == writes;
  }

  ghost predicate DistinctKeys(writes: seq<Write>) {
    forall i, j | 0 <= i < j < |writes| :: writes[i].key != writes[j].key
  }

  /** Written under distinct keys, each list reads back exactly when none of its items is empty or
      holds a comma. */
  lemma {:induction false} EachIsRead(d: HardwareDevice, writes: seq<Write>, i: nat)
    requires DistinctKeys(writes) && i < |writes| && writes[i].items != []
    ensures PropertyValues(WithLists(d, writes), writes[i].key) == writes[i].items <==> CommaFree(writes[i].items)
    decreases |writes|
  {
    var n := |writes| - 1;
    if i == n {
      WrittenIsRead(WithLists(d, writes[..n]), writes[n].key, writes[n].items);
    } else {
      EachIsRead(d, writes[..n], i);
      OthersUntouched(WithLists(d, writes[..n]), writes[n].key, writes[n].items, writes[i].key);
    }
  }

  /** A property no list is written to is what it was. */
  lemma {:induction false} RestIsUntouched(d: HardwareDevice, writes: seq<Write>, key: string)
    requires forall i | 0 <= i < |writes| :: writes[i].key != key
    ensures SameProperty(d, WithLists(d, writes), key)
  {
    if writes != [] {
      var n := |writes| - 1;
      RestIsUntouched(d, writes[..n], key);
      OthersUntouched(WithLists(d, writes[..n]), writes[n].key, writes[n].items, key);
    }
  }

  /** Written under distinct keys, an empty list leaves its property as it was. */
  lemma {:induction false} EmptyIsUntouched(d: HardwareDevice, writes: seq<Write>, i: nat)
    requires DistinctKeys(writes) && i < |writes| && writes[i].items == []
    ensures SameProperty(d, WithLists(d, writes), writes[i].key)
    decreases |writes|
  {
    var n := |writes| - 1;
    if i == n {
      RestIsUntouched(d, writes[..n], writes[n].key);
    } else {
      EmptyIsUntouched(d, writes[..n], i);
      OthersUntouched(WithLists(d, writes[..n]), writes[n].key, writes[n].items, writes[i].key);
    }
  }
}
