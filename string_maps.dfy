/** A string map asset: a list of names carrying resolutions, grouped by the
    name they share, with a comparer per group. */
module StringMaps {
  import opened Common
  import opened ParsedStrings
  import opened Comparison
  import opened ListExtensions
  import opened Grouping

  class StringMap {
    var identifier: string
    var comparerOverride: Option<Comparer>
    var extension: string
    var stringList: seq<string>
    /** The serialized pairs of group and comparer chosen for it in the editor. */
    const groupComparerKeys: List<string>
    const groupComparerValues: List<Option<Comparer>>
    /** The dictionaries rebuilt after deserialization. */
    var strings: GroupMap
    var comparers: map<string, Option<Comparer>>

    ghost predicate Valid()
      reads this
    {
      groupComparerKeys as object != groupComparerValues as object
    }

    constructor (identifier: string, comparerOverride: Option<Comparer>, extension: string,
                 stringList: seq<string>, keys: seq<string>, values: seq<Option<Comparer>>)
      ensures Valid()
      ensures this.identifier == identifier && this.comparerOverride == comparerOverride
      ensures this.extension == extension && this.stringList == stringList
      ensures groupComparerKeys.items == keys && groupComparerValues.items == values
      ensures fresh(groupComparerKeys) && fresh(groupComparerValues)
      ensures strings == map[] && comparers == map[]
    {
      this.identifier := identifier;
      this.comparerOverride := comparerOverride;
      this.extension := extension;
      this.stringList := stringList;
      groupComparerKeys := new List(keys);
      groupComparerValues := new List(values);
      strings := map[];
      comparers := map[];
    }

    /** The list parsed with the map's extension, in list order. */
    function ParsedList(): (r: seq<Parsed>)
      reads this`stringList, this`extension
      ensures |r| == |stringList|
      ensures forall i :: 0 <= i < |r| ==> r[i] == NewParsedString(stringList[i], extension)
    {
      var names, ext := stringList, extension;
      seq(|names|, i requires 0 <= i < |names| => NewParsedString(names[i], ext))
    }

    /** Rebuilds the dictionaries from the list. The comparer of a group is the
        one the editor stored for it, or the map's override when none was
        stored; the stored pairs are rewritten for the current groups. When a
        key repeats among the stored pairs the dictionary cannot be built: the
        refresh stops with both dictionaries empty and the pairs untouched. */
    method RefreshScenesDictionary() returns (completed: bool)
      requires Valid()
      modifies this`strings, this`comparers, groupComparerKeys, groupComparerValues
      ensures var stored := ZipToDictionary(old(groupComparerKeys.items), old(groupComparerValues.items));
              completed <==> stored.Some?
      ensures !completed ==> strings == map[] && comparers == map[]
      ensures !completed ==> unchanged(groupComparerKeys, groupComparerValues)
      ensures var stored := ZipToDictionary(old(groupComparerKeys.items), old(groupComparerValues.items));
              var order := GroupOrder(ParsedList());
              completed ==>
                && strings == GroupTable(ParsedList())
                && comparers == ComparerTable(order, stored.value, comparerOverride)
                && groupComparerKeys.items == order
                && groupComparerValues.items == StoredComparers(order, stored.value)
    {
      strings, comparers := map[], map[];
      var stored := ZipToDictionary(groupComparerKeys.items, groupComparerValues.items);
      if stored.None? {
        return false;
      }
      ClearPairedValues(groupComparerKeys, groupComparerValues);
      var items := ParsedList();
      strings, comparers := CollectGroups(items, stored.value, comparerOverride,
                                          groupComparerKeys, groupComparerValues);
      assert items == ParsedList();
      return true;
    }
  }

  /** After a completed refresh every listed name sits in the list of its
      group, and every group's list holds exactly the names of that group. */
  lemma RefreshedStrings(m: StringMap)
    requires m.strings == GroupTable(m.ParsedList())
    ensures forall i :: 0 <= i < |m.stringList| ==>
              var p := NewParsedString(m.stringList[i], m.extension);
              p.Group() in m.strings && p in m.strings[p.Group()]
    ensures forall g :: g in m.strings ==> m.strings[g] == Members(m.ParsedList(), g)
  {
    var items := m.ParsedList();
    GroupTableSpec(items);
    forall i | 0 <= i < |m.stringList|
      ensures var p := NewParsedString(m.stringList[i], m.extension);
              p.Group() in m.strings && p in m.strings[p.Group()]
    {
      assert GroupAt(items, i) == items[i].Group();
    }
  }

  /** The pairs a completed refresh leaves are read back by the next refresh
      without a repeat, and give every group the same comparer again. */
  lemma RefreshedPairsStable(m: StringMap, stored: map<string, Option<Comparer>>)
    requires m.groupComparerKeys.items == GroupOrder(m.ParsedList())
    requires m.groupComparerValues.items == StoredComparers(GroupOrder(m.ParsedList()), stored)
    ensures var kept := ZipToDictionary(m.groupComparerKeys.items, m.groupComparerValues.items);
            && kept.Some?
            && ComparerTable(GroupOrder(m.ParsedList()), kept.value, m.comparerOverride)
               == ComparerTable(GroupOrder(m.ParsedList()), stored, m.comparerOverride)
  {
    var order := GroupOrder(m.ParsedList());
    GroupOrderSpec(m.ParsedList());
    RefreshStable(order, stored, m.comparerOverride);
  }
}
