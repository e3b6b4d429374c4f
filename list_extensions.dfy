/** Helpers that keep two caller-owned lists in step: a list of keys and the
    list of values paired with them by position. */
module ListExtensions {

  /** A growable list owned by its caller and changed in place. */
  class List<T> {
    var items: seq<T>

    constructor (items: seq<T>)
      ensures this.items == items
    {
      this.items := items;
    }

    method Clear()
      modifies this
      ensures items == []
    {
      items := [];
    }

    method Add(x: T)
      modifies this
      ensures items == old(items) + [x]
    {
      items := items + [x];
    }

    method RemoveAt(index: nat)
      requires index < |items|
      modifies this
      ensures items == old(items[..index] + items[index + 1..])
    {
      items := items[..index] + items[index + 1..];
    }
  }

  /** Empties both lists. */
  method ClearPairedValues<T>(keys: List<string>, values: List<T>)
    modifies keys, values
    ensures keys.items == [] && values.items == []
  {
    keys.Clear();
    values.Clear();
  }

  /** Appends `key`, and the value stored for it in `previous`, or
      `defaultValue` when there is none. */
  method AddPairedValues<T>(keys: List<string>, values: List<T>, previous: map<string, T>,
                            key: string, defaultValue: T)
    requires keys as object != values as object
    modifies keys, values
    ensures keys.items == old(keys.items) + [key]
    ensures values.items == old(values.items) + [if key in previous then previous[key] else defaultValue]
  {
    keys.Add(key);
    values.Add(if key in previous then previous[key] else defaultValue);
  }

  /** The position of the first entry with `key`, or -1 when no entry has it. */
  function FirstKeyIndex<T>(entries: seq<(string, T)>, key: string): (r: int)
    ensures -1 <= r < |entries|
    ensures r >= 0 ==> entries[r].0 == key
    ensures forall j :: 0 <= j < |entries| && (r < 0 || j < r) ==> entries[j].0 != key
  {
    if entries == [] then -1
    else if entries[0].0 == key then 0
    else
      var k := FirstKeyIndex(entries[1..], key);
      if k < 0 then -1 else k + 1
  }

  /** Finds the first entry with `key` by scanning from the front. */
  method IndexOfKey<T>(entries: seq<(string, T)>, key: string) returns (index: int)
    ensures index == FirstKeyIndex(entries, key)
  {
    index := 0;
    while index < |entries| && entries[index].0 != key
      invariant 0 <= index <= |entries|
      invariant forall j :: 0 <= j < index ==> entries[j].0 != key
    {
      index := index + 1;
    }
    if index == |entries| {
      index := -1;
    }
    FirstKeyIndexUnique(entries, key, index);
  }

  /** `FirstKeyIndex` is the only position that has the key and no earlier
      entry with it, and -1 is right exactly when no entry has the key. */
  lemma FirstKeyIndexUnique<T>(entries: seq<(string, T)>, key: string, k: int)
    requires -1 <= k < |entries|
    requires k >= 0 ==> entries[k].0 == key
    requires forall j :: 0 <= j < |entries| && (k < 0 || j < k) ==> entries[j].0 != key
    ensures k == FirstKeyIndex(entries, key)
  {
    var r := FirstKeyIndex(entries, key);
    if r >= 0 {
      assert entries[r].0 == key;
    }
    if k >= 0 {
      assert entries[k].0 == key;
    }
  }

  /** Appends `key` and the value of the first entry of `previous` with that
      key, which is then removed from `previous`; when no entry has the key,
      appends `defaultValue` and leaves `previous` as it is. */
  method AddPairedValuesTaking<T>(keys: List<string>, values: List<T>, previous: List<(string, T)>,
                                  key: string, defaultValue: T)
    requires keys as object != values as object
    requires previous as object != keys as object && previous as object != values as object
    modifies keys, values, previous
    ensures keys.items == old(keys.items) + [key]
    ensures var i := FirstKeyIndex(old(previous.items), key);
            if i < 0 then
              values.items == old(values.items) + [defaultValue] && previous.items == old(previous.items)
            else
              && values.items == old(values.items) + [old(previous.items)[i].1]
              && previous.items == old(previous.items)[..i] + old(previous.items)[i + 1..]
  {
    keys.Add(key);
    var index := IndexOfKey(previous.items, key);
    if index < 0 {
      values.Add(defaultValue);
    } else {
      values.Add(previous.items[index].1);
      previous.RemoveAt(index);
    }
  }

  /** Taking one entry out keeps the others, in their order, and shortens the
      list by one. */
  lemma RemoveAtKeepsOthers<T>(s: seq<T>, i: nat)
    requires i < |s|
    ensures var r := s[..i] + s[i + 1..];
            && |r| == |s| - 1
            && multiset(r) + multiset{s[i]} == multiset(s)
            && (forall j :: 0 <= j < i ==> r[j] == s[j])
            && (forall j :: i <= j < |r| ==> r[j] == s[j + 1])
  {
    assert s == s[..i] + [s[i]] + s[i + 1..];
  }
}
