/** The settings asset: the registered scenes grouped by scene path, a
    comparer per group, the default comparer, the aspect-ratio epsilon and the
    string maps. */
module EasyResolutionsSettings {
  import opened Common
  import opened ParsedStrings
  import opened Comparison
  import opened ListExtensions
  import opened Grouping
  import opened StringMaps

  /** The default epsilon for comparing aspect ratios. */
  const DefaultEpsilon: real := 0.008

  /** Whether `p` is the scene at build index 0. */
  predicate IsZeroScene(p: Parsed) {
    p.ParsedScenePath? && p.index == 0
  }

  /** The zero scene after visiting `scenes` in order, starting from `current`:
      the last scene with index 0, or `current` when there is none. */
  function LastZeroScene(scenes: seq<Parsed>, current: Option<Parsed>): (r: Option<Parsed>)
    ensures r == current || (r.Some? && r.value in scenes && IsZeroScene(r.value))
    decreases |scenes|
  {
    if scenes == [] then current
    else if IsZeroScene(scenes[|scenes| - 1]) then Some(scenes[|scenes| - 1])
    else LastZeroScene(scenes[..|scenes| - 1], current)
  }

  /** With no scene of index 0 the zero scene is left as it was. */
  lemma {:induction false} LastZeroSceneNone(scenes: seq<Parsed>, current: Option<Parsed>)
    requires forall i :: 0 <= i < |scenes| ==> !IsZeroScene(scenes[i])
    ensures LastZeroScene(scenes, current) == current
    decreases |scenes|
  {
    if scenes != [] {
      var init := scenes[..|scenes| - 1];
      assert forall i :: 0 <= i < |init| ==> init[i] == scenes[i];
      LastZeroSceneNone(init, current);
    }
  }

  /** The zero scene is the last scene with index 0. */
  lemma {:induction false} LastZeroSceneLast(scenes: seq<Parsed>, current: Option<Parsed>, k: nat)
    requires k < |scenes| && IsZeroScene(scenes[k])
    requires forall j :: k < j < |scenes| ==> !IsZeroScene(scenes[j])
    ensures LastZeroScene(scenes, current) == Some(scenes[k])
    decreases |scenes|
  {
    if k < |scenes| - 1 {
      var init := scenes[..|scenes| - 1];
      assert forall j :: k < j < |init| ==> init[j] == scenes[j];
      LastZeroSceneLast(init, current, k);
    }
  }

  lemma LastZeroSceneAppend(scenes: seq<Parsed>, scene: Parsed, current: Option<Parsed>)
    ensures LastZeroScene(scenes + [scene], current)
         == if IsZeroScene(scene) then Some(scene) else LastZeroScene(scenes, current)
  {
    assert (scenes + [scene])[..|scenes|] == scenes;
  }

  /** One pass of the refresh loop: the zero scene, the tables and the pairs
      built for `prefix` become those for `prefix + [scene]`. */
  method CollectScene(scene: Parsed, ghost prefix: seq<Parsed>, zero: Option<Parsed>, zero0: Option<Parsed>,
                      ghost order: seq<string>, groups: GroupMap, comparers: map<string, Option<Comparer>>,
                      previous: map<string, Option<Comparer>>, fallback: Option<Comparer>,
                      keys: List<string>, values: List<Option<Comparer>>,
                      ghost keys0: seq<string>, ghost values0: seq<Option<Comparer>>)
    returns (zero': Option<Parsed>, groups': GroupMap, comparers': map<string, Option<Comparer>>,
             ghost order': seq<string>)
    requires keys as object != values as object
    requires zero == LastZeroScene(prefix, zero0)
    requires order == GroupOrder(prefix) && groups == GroupTable(prefix)
    requires comparers == ComparerTable(order, previous, fallback)
    requires keys.items == keys0 + order
    requires values.items == values0 + StoredComparers(order, previous)
    modifies keys, values
    ensures zero' == LastZeroScene(prefix + [scene], zero0)
    ensures order' == GroupOrder(prefix + [scene])
    ensures groups' == GroupTable(prefix + [scene])
    ensures comparers' == ComparerTable(order', previous, fallback)
    ensures keys.items == keys0 + order'
    ensures values.items == values0 + StoredComparers(order', previous)
  {
    zero' := zero;
    if IsZeroScene(scene) {
      zero' := Some(scene);
    }
    LastZeroSceneAppend(prefix, scene, zero0);
    groups', comparers', order' := CollectNext(scene, prefix, order, groups, comparers, previous, fallback,
                                               keys, values, keys0, values0);
  }

  /** The loop of the refresh: the grouping loop shared with the string map,
      which also keeps the last scene with index 0. */
  method CollectScenes(scenes: seq<Parsed>, zero0: Option<Parsed>, previous: map<string, Option<Comparer>>,
                       fallback: Option<Comparer>, keys: List<string>, values: List<Option<Comparer>>)
    returns (zero: Option<Parsed>, groups: GroupMap, comparers: map<string, Option<Comparer>>)
    requires keys as object != values as object
    modifies keys, values
    ensures zero == LastZeroScene(scenes, zero0)
    ensures groups == GroupTable(scenes)
    ensures comparers == ComparerTable(GroupOrder(scenes), previous, fallback)
    ensures keys.items == old(keys.items) + GroupOrder(scenes)
    ensures values.items == old(values.items) + StoredComparers(GroupOrder(scenes), previous)
  {
    zero, groups, comparers := zero0, map[], map[];
    ghost var order: seq<string> := [];
    ghost var prefix: seq<Parsed> := [];
    var i := 0;
    while i < |scenes|
      invariant 0 <= i <= |scenes|
      invariant prefix == scenes[..i]
      invariant zero == LastZeroScene(prefix, zero0)
      invariant order == GroupOrder(prefix)
      invariant groups == GroupTable(prefix)
      invariant comparers == ComparerTable(order, previous, fallback)
      invariant keys.items == old(keys.items) + order
      invariant values.items == old(values.items) + StoredComparers(order, previous)
    {
      var scene := scenes[i];
      zero, groups, comparers, order := CollectScene(scene, prefix, zero, zero0, order, groups, comparers,
                                                     previous, fallback, keys, values,
                                                     old(keys.items), old(values.items));
      assert scenes[..i + 1] == prefix + [scene];
      prefix := prefix + [scene];
      i := i + 1;
    }
    assert prefix == scenes;
  }

  class Settings {
    var defaultComparer: Option<Comparer>
    var epsilon: real
    var startingSceneGroup: string
    var sceneList: seq<Parsed>
    /** The serialized pairs of group and comparer chosen for it in the editor. */
    const groupComparerKeys: List<string>
    const groupComparerValues: List<Option<Comparer>>
    var stringMaps: seq<StringMap?>
    /** The state rebuilt after deserialization. */
    var zeroScene: Option<Parsed>
    var scenes: GroupMap
    var comparers: map<string, Option<Comparer>>

    /** The pair lists are two objects, and the scene list holds scene paths
        only. */
    ghost predicate Valid()
      reads this`sceneList
    {
      && groupComparerKeys as object != groupComparerValues as object
      && forall i :: 0 <= i < |sceneList| ==> sceneList[i].ParsedScenePath?
    }

    /** A new asset with the field defaults and the given serialized lists. */
    constructor (sceneList: seq<Parsed>, keys: seq<string>, values: seq<Option<Comparer>>,
                 stringMaps: seq<StringMap?>)
      requires forall i :: 0 <= i < |sceneList| ==> sceneList[i].ParsedScenePath?
      ensures Valid()
      ensures defaultComparer == None && epsilon == DefaultEpsilon && startingSceneGroup == ""
      ensures this.sceneList == sceneList && this.stringMaps == stringMaps
      ensures groupComparerKeys.items == keys && groupComparerValues.items == values
      ensures fresh(groupComparerKeys) && fresh(groupComparerValues)
      ensures zeroScene == None && scenes == map[] && comparers == map[]
    {
      defaultComparer := None;
      epsilon := DefaultEpsilon;
      startingSceneGroup := "";
      this.sceneList := sceneList;
      groupComparerKeys := new List(keys);
      groupComparerValues := new List(values);
      this.stringMaps := stringMaps;
      zeroScene := None;
      scenes := map[];
      comparers := map[];
    }

    /** When no starting group is set, the group of the only scene, or of the
        second scene when there are several; otherwise nothing changes. */
    method ApplyStartingSceneGroupDefault()
      modifies this`startingSceneGroup
      ensures old(startingSceneGroup) != "" || |sceneList| == 0 ==> startingSceneGroup == old(startingSceneGroup)
      ensures old(startingSceneGroup) == "" && |sceneList| == 1 ==> startingSceneGroup == sceneList[0].Group()
      ensures old(startingSceneGroup) == "" && |sceneList| > 1 ==> startingSceneGroup == sceneList[1].Group()
    {
      if startingSceneGroup == "" {
        if |sceneList| == 1 {
          startingSceneGroup := sceneList[0].Group();
        } else if |sceneList| > 1 {
          startingSceneGroup := sceneList[1].Group();
        }
      }
    }

    /** Outside the editor a missing default comparer is replaced by a new
        default one. */
    method EnsureDefaultComparer(created: Comparer)
      modifies this`defaultComparer
      ensures old(defaultComparer).Some? ==> defaultComparer == old(defaultComparer)
      ensures old(defaultComparer).None? ==> defaultComparer == Some(created)
    {
      if defaultComparer.None? {
        defaultComparer := Some(created);
      }
    }

    /** Rebuilds the scene dictionaries from the scene list. The comparer of a
        group is the one the editor stored for it, or the default comparer
        when none was stored; the stored pairs are rewritten for the current
        groups; the zero scene becomes the last listed scene with index 0.
        When a key repeats among the stored pairs the dictionary cannot be
        built: the refresh stops with both dictionaries empty, the pairs
        untouched and the zero scene as it was. */
    method RefreshScenesDictionary() returns (completed: bool)
      requires Valid()
      modifies this`scenes, this`comparers, this`zeroScene, groupComparerKeys, groupComparerValues
      ensures Valid()
      ensures var stored := ZipToDictionary(old(groupComparerKeys.items), old(groupComparerValues.items));
              completed <==> stored.Some?
      ensures !completed ==> scenes == map[] && comparers == map[] && zeroScene == old(zeroScene)
      ensures !completed ==> unchanged(groupComparerKeys, groupComparerValues)
      ensures completed ==> zeroScene == LastZeroScene(sceneList, old(zeroScene))
      ensures var stored := ZipToDictionary(old(groupComparerKeys.items), old(groupComparerValues.items));
              var order := GroupOrder(sceneList);
              completed ==>
                && scenes == GroupTable(sceneList)
                && comparers == ComparerTable(order, stored.value, defaultComparer)
                && groupComparerKeys.items == order
                && groupComparerValues.items == StoredComparers(order, stored.value)
    {
      scenes, comparers := map[], map[];
      var stored := ZipToDictionary(groupComparerKeys.items, groupComparerValues.items);
      if stored.None? {
        return false;
      }
      ClearPairedValues(groupComparerKeys, groupComparerValues);
      zeroScene, scenes, comparers := CollectScenes(sceneList, zeroScene, stored.value, defaultComparer,
                                                    groupComparerKeys, groupComparerValues);
      return true;
    }
  }
}
