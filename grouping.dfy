/** The group dictionaries the string map and the settings rebuild: parsed
    names gathered by group in list order, and one comparer per group carried
    over from the comparers stored for the groups before. */
module Grouping {
  import opened Common
  import opened ParsedStrings
  import opened Comparison
  import opened ListExtensions

  /** A dictionary from group to its members, in the order they were added. */
  type GroupMap = map<string, seq<Parsed>>

  /** Adds each item, in order, to the list of its group, starting the list
      when the group is new. */
  function Grouped(table: GroupMap, items: seq<Parsed>): GroupMap
    decreases |items|
  {
    if items == [] then table
    else
      var t := Grouped(table, items[..|items| - 1]);
      var item := items[|items| - 1];
      var g := item.Group();
      t[g := (if g in t then t[g] else []) + [item]]
  }

  /** The items of group `g`, in list order. */
  function Members(items: seq<Parsed>, g: string): (r: seq<Parsed>)
    ensures |r| <= |items|
    decreases |items|
  {
    if items == [] then []
    else
      var item := items[|items| - 1];
      Members(items[..|items| - 1], g) + (if item.Group() == g then [item] else [])
  }

  /** The groups of the items, each once, in order of first appearance. */
  function GroupOrder(items: seq<Parsed>): seq<string>
    decreases |items|
  {
    if items == [] then []
    else
      var order := GroupOrder(items[..|items| - 1]);
      var g := items[|items| - 1].Group();
      if g in order then order else order + [g]
  }

  /** The group of the item at `i`, for set comprehensions over positions. */
  function GroupAt(items: seq<Parsed>, i: nat): string
    requires i < |items|
  {
    items[i].Group()
  }

  /** The groups that occur among the items. */
  function GroupsOf(items: seq<Parsed>): set<string> {
    set i | 0 <= i < |items| :: GroupAt(items, i)
  }

  lemma GroupsOfAppend(items: seq<Parsed>, item: Parsed)
    ensures GroupsOf(items + [item]) == GroupsOf(items) + {item.Group()}
  {
    var s := items + [item];
    forall g | g in GroupsOf(s)
      ensures g in GroupsOf(items) + {item.Group()}
    {
      var i :| 0 <= i < |s| && GroupAt(s, i) == g;
      if i < |items| {
        assert GroupAt(items, i) == g;
      }
    }
    forall g | g in GroupsOf(items)
      ensures g in GroupsOf(s)
    {
      var i :| 0 <= i < |items| && GroupAt(items, i) == g;
      assert GroupAt(s, i) == g;
    }
    assert GroupAt(s, |items|) == item.Group();
  }

  /** The group order lists exactly the groups that occur, each once. */
  lemma {:induction false} GroupOrderSpec(items: seq<Parsed>)
    ensures forall g :: g in GroupOrder(items) <==> g in GroupsOf(items)
    ensures forall i, j :: 0 <= i < j < |GroupOrder(items)| ==> GroupOrder(items)[i] != GroupOrder(items)[j]
    decreases |items|
  {
    if items != [] {
      var init := items[..|items| - 1];
      assert items == init + [items[|items| - 1]];
      GroupOrderSpec(init);
      GroupsOfAppend(init, items[|items| - 1]);
    }
  }

  /** Every group in the grouped dictionary was there before or occurs among
      the items. */
  lemma {:induction false} GroupedKeys(table: GroupMap, items: seq<Parsed>)
    ensures forall g :: g in Grouped(table, items) <==> g in table || g in GroupsOf(items)
    decreases |items|
  {
    if items != [] {
      var init := items[..|items| - 1];
      assert items == init + [items[|items| - 1]];
      GroupedKeys(table, init);
      GroupsOfAppend(init, items[|items| - 1]);
    }
  }

  /** The list of a group is what it held before followed by its members, in
      list order. */
  lemma {:induction false} GroupedLists(table: GroupMap, items: seq<Parsed>, g: string)
    requires g in Grouped(table, items)
    ensures Grouped(table, items)[g] == (if g in table then table[g] else []) + Members(items, g)
    decreases |items|
  {
    if items != [] {
      var init := items[..|items| - 1];
      var item := items[|items| - 1];
      var before := if g in table then table[g] else [];
      var t0 := Grouped(table, init);
      if g in t0 {
        GroupedLists(table, init, g);
      } else {
        GroupedKeys(table, init);
        MembersAbsent(init, g);
      }
      if g == item.Group() {
        assert before + Members(items, g) == before + Members(init, g) + [item];
      }
    }
  }

  lemma GroupedSpec(table: GroupMap, items: seq<Parsed>)
    ensures var t := Grouped(table, items);
            forall g :: g in t <==> g in table || g in GroupsOf(items)
    ensures var t := Grouped(table, items);
            forall g :: g in t ==> t[g] == (if g in table then table[g] else []) + Members(items, g)
  {
    GroupedKeys(table, items);
    forall g | g in Grouped(table, items)
      ensures Grouped(table, items)[g] == (if g in table then table[g] else []) + Members(items, g)
    {
      GroupedLists(table, items, g);
    }
  }

  /** A group that does not occur has no members. */
  lemma {:induction false} MembersAbsent(items: seq<Parsed>, g: string)
    requires g !in GroupsOf(items)
    ensures Members(items, g) == []
    decreases |items|
  {
    if items != [] {
      var init := items[..|items| - 1];
      assert items == init + [items[|items| - 1]];
      GroupsOfAppend(init, items[|items| - 1]);
      MembersAbsent(init, g);
    }
  }

  /** The members of a group are exactly the items of that group. */
  lemma {:induction false} MembersSpec(items: seq<Parsed>, g: string)
    ensures forall x :: x in Members(items, g) <==> x in items && x.Group() == g
    decreases |items|
  {
    if items != [] {
      var init := items[..|items| - 1];
      assert items == init + [items[|items| - 1]];
      MembersSpec(init, g);
    }
  }

  /** The dictionary a refresh builds from scratch. */
  function GroupTable(items: seq<Parsed>): GroupMap {
    Grouped(map[], items)
  }

  /** Every item sits in the list of its own group, and every list holds
      only items of its group. */
  lemma GroupTableSpec(items: seq<Parsed>)
    ensures var t := GroupTable(items);
            && (forall g :: g in t <==> g in GroupOrder(items))
            && (forall g :: g in t ==> t[g] == Members(items, g))
            && (forall i :: 0 <= i < |items| ==> GroupAt(items, i) in t && items[i] in t[GroupAt(items, i)])
  {
    var t := GroupTable(items);
    GroupedSpec(map[], items);
    assert forall g :: g in t <==> g in GroupOrder(items) by {
      GroupOrderSpec(items);
    }
    forall i | 0 <= i < |items|
      ensures GroupAt(items, i) in t && items[i] in t[GroupAt(items, i)]
    {
      var g := GroupAt(items, i);
      assert g in GroupsOf(items);
      MembersSpec(items, g);
    }
  }

  /** The comparer of a group: the one stored for it, unless none or null
      was stored, in which case the fallback. */
  function GetComparer(stored: map<string, Option<Comparer>>, group: string, fallback: Option<Comparer>): (r: Option<Comparer>)
    ensures r == fallback || (group in stored && stored[group].Some? && r == stored[group])
    ensures group in stored && stored[group].Some? ==> r == stored[group]
  {
    if group in stored && stored[group].Some? then stored[group] else fallback
  }

  /** The comparers chosen for the groups of `order`. */
  function ComparerTable(order: seq<string>, stored: map<string, Option<Comparer>>,
                         fallback: Option<Comparer>): map<string, Option<Comparer>>
    decreases |order|
  {
    if order == [] then map[]
    else
      var g := order[|order| - 1];
      ComparerTable(order[..|order| - 1], stored, fallback)[g := GetComparer(stored, g, fallback)]
  }

  /** The comparer table has a key for each group of the order, holding the
      comparer chosen for it. */
  lemma {:induction false} ComparerTableSpec(order: seq<string>, stored: map<string, Option<Comparer>>,
                                             fallback: Option<Comparer>)
    ensures var t := ComparerTable(order, stored, fallback);
            forall g :: g in t <==> g in order
    ensures var t := ComparerTable(order, stored, fallback);
            forall g :: g in t ==> t[g] == GetComparer(stored, g, fallback)
    decreases |order|
  {
    if order != [] {
      var init := order[..|order| - 1];
      assert order == init + [order[|order| - 1]];
      ComparerTableSpec(init, stored, fallback);
    }
  }

  /** After a refresh the two dictionaries have exactly the same keys: the
      groups of the listed items. */
  lemma RefreshedKeysMatch(items: seq<Parsed>, stored: map<string, Option<Comparer>>, fallback: Option<Comparer>)
    ensures GroupTable(items).Keys == ComparerTable(GroupOrder(items), stored, fallback).Keys
  {
    GroupTableSpec(items);
    ComparerTableSpec(GroupOrder(items), stored, fallback);
  }

  /** The values the paired comparer list holds after a refresh: for each
      group, what was stored for it, or null. */
  function StoredComparers(order: seq<string>, stored: map<string, Option<Comparer>>): (r: seq<Option<Comparer>>)
    ensures |r| == |order|
  {
    seq(|order|, i requires 0 <= i < |order| => if order[i] in stored then stored[order[i]] else None)
  }

  /** Each group's entry is what was stored for it, or null. */
  lemma StoredComparersAt(order: seq<string>, stored: map<string, Option<Comparer>>)
    ensures forall i :: 0 <= i < |order| ==>
              StoredComparers(order, stored)[i] == (if order[i] in stored then stored[order[i]] else None)
  {
  }

  /** The keys zipped with the values into a dictionary: the pairs up to the
      shorter list, or None when a key repeats, where building the
      dictionary would throw. */
  function ZipToDictionary<V>(keys: seq<string>, values: seq<V>): (r: Option<map<string, V>>)
    decreases |keys|
  {
    var n := if |keys| < |values| then |keys| else |values|;
    if n == 0 then Some(map[])
    else
      match ZipToDictionary(keys[..n - 1], values[..n - 1])
      case None => None
      case Some(m) => if keys[n - 1] in m then None else Some(m[keys[n - 1] := values[n - 1]])
  }

  predicate Distinct(keys: seq<string>) {
    forall i, j :: 0 <= i < j < |keys| ==> keys[i] != keys[j]
  }

  /** Zipping keys without repeats never fails, and maps each key to the
      value at its position. */
  lemma {:induction false} ZipToDictionaryDistinct<V>(keys: seq<string>, values: seq<V>)
    requires |keys| == |values| && Distinct(keys)
    ensures ZipToDictionary(keys, values).Some?
    ensures var m := ZipToDictionary(keys, values).value;
            && (forall k :: k in m <==> k in keys)
            && (forall i :: 0 <= i < |keys| ==> m[keys[i]] == values[i])
    decreases |keys|
  {
    if keys != [] {
      var n := |keys|;
      ZipToDictionaryDistinct(keys[..n - 1], values[..n - 1]);
      var m := ZipToDictionary(keys, values).value;
      forall i | 0 <= i < n
        ensures m[keys[i]] == values[i]
      {
        if i < n - 1 {
          assert keys[i] == keys[..n - 1][i];
        }
      }
    }
  }

  /** Zipping fails exactly when a key repeats within the zipped pairs. */
  lemma {:induction false} ZipToDictionaryRepeat<V>(keys: seq<string>, values: seq<V>, i: nat, j: nat)
    requires i < j < |keys| && j < |values| && keys[i] == keys[j]
    ensures ZipToDictionary(keys, values).None?
    decreases |keys|
  {
    var n := if |keys| < |values| then |keys| else |values|;
    var init := ZipToDictionary(keys[..n - 1], values[..n - 1]);
    if j < n - 1 {
      ZipToDictionaryRepeat(keys[..n - 1], values[..n - 1], i, j);
    } else if init.Some? {
      ZipToDictionaryKeys(keys[..n - 1], values[..n - 1]);
      assert keys[..n - 1][i] == keys[n - 1];
    }
  }

  /** Every zipped key is in the dictionary. */
  lemma {:induction false} ZipToDictionaryKeys<V>(keys: seq<string>, values: seq<V>)
    requires ZipToDictionary(keys, values).Some?
    ensures var n := if |keys| < |values| then |keys| else |values|;
            forall i :: 0 <= i < n ==> keys[i] in ZipToDictionary(keys, values).value
    decreases |keys|
  {
    var n := if |keys| < |values| then |keys| else |values|;
    if n > 0 {
      ZipToDictionaryKeys(keys[..n - 1], values[..n - 1]);
      forall i | 0 <= i < n - 1
        ensures keys[i] in ZipToDictionary(keys, values).value
      {
        assert keys[i] == keys[..n - 1][i];
      }
    }
  }

  /** What a refresh keeps from the previous comparers: the stored entries of
      the current groups, with null for a group that had none. Refreshing again
      from these keeps the same comparer for every group. */
  lemma RefreshStable(order: seq<string>, stored: map<string, Option<Comparer>>, fallback: Option<Comparer>)
    requires Distinct(order)
    ensures ZipToDictionary(order, StoredComparers(order, stored)).Some?
    ensures var kept := ZipToDictionary(order, StoredComparers(order, stored)).value;
            && ComparerTable(order, kept, fallback) == ComparerTable(order, stored, fallback)
            && StoredComparers(order, kept) == StoredComparers(order, stored)
  {
    var values := StoredComparers(order, stored);
    StoredComparersAt(order, stored);
    ZipToDictionaryDistinct(order, values);
    var kept := ZipToDictionary(order, values).value;
    KeptComparers(order, stored, kept, fallback);
  }

  /** A map holding, for every group of the order, the stored entry or null
      yields the same comparer table and the same stored list. */
  lemma KeptComparers(order: seq<string>, stored: map<string, Option<Comparer>>,
                      kept: map<string, Option<Comparer>>, fallback: Option<Comparer>)
    requires forall i :: 0 <= i < |order| ==>
               order[i] in kept && kept[order[i]] == (if order[i] in stored then stored[order[i]] else None)
    ensures ComparerTable(order, kept, fallback) == ComparerTable(order, stored, fallback)
    ensures StoredComparers(order, kept) == StoredComparers(order, stored)
  {
    ComparerTableSpec(order, kept, fallback);
    ComparerTableSpec(order, stored, fallback);
    var a, b := ComparerTable(order, kept, fallback), ComparerTable(order, stored, fallback);
    forall g | g in a
      ensures a[g] == b[g]
    {
      var i :| 0 <= i < |order| && order[i] == g;
    }
    StoredComparersAt(order, kept);
    StoredComparersAt(order, stored);
  }

  /** One more item: it joins the list of its group, and its group is added
      to the order when new. */
  lemma GroupStep(prefix: seq<Parsed>, item: Parsed)
    ensures var g := item.Group();
            var t := GroupTable(prefix);
            && (g in t <==> g in GroupOrder(prefix))
            && GroupTable(prefix + [item]) == t[g := (if g in t then t[g] else []) + [item]]
            && GroupOrder(prefix + [item]) == (if g in t then GroupOrder(prefix) else GroupOrder(prefix) + [g])
  {
    assert (prefix + [item])[..|prefix|] == prefix;
    GroupTableSpec(prefix);
  }

  lemma StoredComparersAppend(order: seq<string>, stored: map<string, Option<Comparer>>, g: string)
    ensures StoredComparers(order + [g], stored)
         == StoredComparers(order, stored) + [if g in stored then stored[g] else None]
  {
  }

  lemma ComparerTableAppend(order: seq<string>, stored: map<string, Option<Comparer>>,
                            fallback: Option<Comparer>, g: string)
    ensures ComparerTable(order + [g], stored, fallback)
         == ComparerTable(order, stored, fallback)[g := GetComparer(stored, g, fallback)]
  {
    assert (order + [g])[..|order|] == order;
  }

  /** Grouping one more item appends it to the list of its group. */
  lemma GroupedAppend(table: GroupMap, items: seq<Parsed>, item: Parsed)
    ensures var t := Grouped(table, items);
            var g := item.Group();
            Grouped(table, items + [item]) == t[g := (if g in t then t[g] else []) + [item]]
  {
    assert (items + [item])[..|items|] == items;
  }

  /** Adds each item to the list of its group in `table`, starting the list
      when the group is new. */
  method AddAll(table: GroupMap, items: seq<Parsed>) returns (t: GroupMap)
    ensures t == Grouped(table, items)
  {
    t := table;
    var i := 0;
    while i < |items|
      invariant 0 <= i <= |items|
      invariant t == Grouped(table, items[..i])
    {
      var item := items[i];
      var g := item.Group();
      GroupedAppend(table, items[..i], item);
      assert items[..i + 1] == items[..i] + [item];
      if g in t {
        t := t[g := t[g] + [item]];
      } else {
        assert [] + [item] == [item];
        t := t[g := [item]];
      }
      i := i + 1;
    }
    assert items[..i] == items;
  }

  /** One step of the loop below: `item` joins the list of its group; a new
      group also gets its comparer and a new pair in the paired lists. */
  method CollectItem(item: Parsed, groups: GroupMap, comparers: map<string, Option<Comparer>>,
                     previous: map<string, Option<Comparer>>, fallback: Option<Comparer>,
                     keys: List<string>, values: List<Option<Comparer>>)
    returns (groups': GroupMap, comparers': map<string, Option<Comparer>>)
    requires keys as object != values as object
    modifies keys, values
    ensures var g := item.Group();
            groups' == groups[g := (if g in groups then groups[g] else []) + [item]]
    ensures var g := item.Group();
            if g in groups then
              comparers' == comparers && keys.items == old(keys.items) && values.items == old(values.items)
            else
              && comparers' == comparers[g := GetComparer(previous, g, fallback)]
              && keys.items == old(keys.items) + [g]
              && values.items == old(values.items) + [if g in previous then previous[g] else None]
  {
    var g := item.Group();
    if g in groups {
      groups', comparers' := groups[g := groups[g] + [item]], comparers;
    } else {
      assert [] + [item] == [item];
      groups' := groups[g := [item]];
      comparers' := comparers[g := GetComparer(previous, g, fallback)];
      AddPairedValues(keys, values, previous, g, None);
    }
  }

  lemma AppendAssociative<T>(a: seq<T>, b: seq<T>, c: seq<T>)
    ensures a + b + c == a + (b + c)
  {
  }

  /** What one step of the loop below keeps: the dictionaries and the order
      of the groups seen so far, after one more item. */
  lemma CollectStep(prefix: seq<Parsed>, item: Parsed, previous: map<string, Option<Comparer>>,
                    fallback: Option<Comparer>, order: seq<string>, groups: GroupMap,
                    comparers: map<string, Option<Comparer>>, groups': GroupMap,
                    comparers': map<string, Option<Comparer>>)
    requires order == GroupOrder(prefix) && groups == GroupTable(prefix)
    requires comparers == ComparerTable(order, previous, fallback)
    requires var g := item.Group();
             groups' == groups[g := (if g in groups then groups[g] else []) + [item]]
    requires var g := item.Group();
             comparers' == if g in groups then comparers else comparers[g := GetComparer(previous, g, fallback)]
    ensures var g := item.Group();
            var order' := if g in groups then order else order + [g];
            && order' == GroupOrder(prefix + [item])
            && groups' == GroupTable(prefix + [item])
            && comparers' == ComparerTable(order', previous, fallback)
            && StoredComparers(order', previous)
               == StoredComparers(order, previous) + (if g in groups then [] else [if g in previous then previous[g] else None])
  {
    var g := item.Group();
    GroupStep(prefix, item);
    if g in groups {
      assert StoredComparers(order, previous) + [] == StoredComparers(order, previous);
    } else {
      StoredComparersAppend(order, previous, g);
      ComparerTableAppend(order, previous, fallback, g);
    }
  }

  /** One pass of the collecting loops: the tables and the pairs built for
      `prefix` become those for `prefix + [item]`. */
  method CollectNext(item: Parsed, ghost prefix: seq<Parsed>, ghost order: seq<string>,
                     groups: GroupMap, comparers: map<string, Option<Comparer>>,
                     previous: map<string, Option<Comparer>>, fallback: Option<Comparer>,
                     keys: List<string>, values: List<Option<Comparer>>,
                     ghost keys0: seq<string>, ghost values0: seq<Option<Comparer>>)
    returns (groups': GroupMap, comparers': map<string, Option<Comparer>>, ghost order': seq<string>)
    requires keys as object != values as object
    requires order == GroupOrder(prefix) && groups == GroupTable(prefix)
    requires comparers == ComparerTable(order, previous, fallback)
    requires keys.items == keys0 + order
    requires values.items == values0 + StoredComparers(order, previous)
    modifies keys, values
    ensures order' == GroupOrder(prefix + [item])
    ensures groups' == GroupTable(prefix + [item])
    ensures comparers' == ComparerTable(order', previous, fallback)
    ensures keys.items == keys0 + order'
    ensures values.items == values0 + StoredComparers(order', previous)
  {
    var g := item.Group();
    order' := if g in groups then order else order + [g];
    groups', comparers' := CollectItem(item, groups, comparers, previous, fallback, keys, values);
    CollectStep(prefix, item, previous, fallback, order, groups, comparers, groups', comparers');
    if g !in groups {
      AppendAssociative(keys0, order, [g]);
      AppendAssociative(values0, StoredComparers(order, previous), [if g in previous then previous[g] else None]);
    }
  }

  /** The loop both refreshes run over their list: each item joins the list
      of its group; a new group gets its comparer and a new pair in the
      paired key and value lists. */
  method CollectGroups(items: seq<Parsed>, previous: map<string, Option<Comparer>>, fallback: Option<Comparer>,
                       keys: List<string>, values: List<Option<Comparer>>)
    returns (groups: GroupMap, comparers: map<string, Option<Comparer>>)
    requires keys as object != values as object
    modifies keys, values
    ensures groups == GroupTable(items)
    ensures comparers == ComparerTable(GroupOrder(items), previous, fallback)
    ensures keys.items == old(keys.items) + GroupOrder(items)
    ensures values.items == old(values.items) + StoredComparers(GroupOrder(items), previous)
  {
    groups, comparers := map[], map[];
    ghost var order: seq<string> := [];
    ghost var prefix: seq<Parsed> := [];
    var i := 0;
    while i < |items|
      invariant 0 <= i <= |items|
      invariant prefix == items[..i]
      invariant order == GroupOrder(prefix)
      invariant groups == GroupTable(prefix)
      invariant comparers == ComparerTable(order, previous, fallback)
      invariant keys.items == old(keys.items) + order
      invariant values.items == old(values.items) + StoredComparers(order, previous)
    {
      var item := items[i];
      groups, comparers, order := CollectNext(item, prefix, order, groups, comparers, previous, fallback,
                                              keys, values, old(keys.items), old(values.items));
      assert items[..i + 1] == prefix + [item];
      prefix := prefix + [item];
      i := i + 1;
    }
    assert prefix == items;
  }
}
