/** The picker: finds the group a name refers to, chooses the comparer for
    it and picks the member whose resolution fits the target best. Every
    failed check gives the source name back unchanged. */
module Picker {
  import opened Common
  import opened Text
  import opened StringExtensions
  import opened ParsedStrings
  import opened Comparison
  import opened Grouping
  import opened Sorting
  import opened StringMaps
  import opened EasyResolutionsSettings

  /** The target resolution: one the caller asked for, which is checked, or
      the screen size, which only the overloads with a comparer override or
      a dictionary and no size use unchecked. The other overloads without a
      size pass the screen size on as a requested size. */
  datatype Target = Requested(width: int, height: int) | Screen(width: int, height: int)

  /** The comparer of a pick: the one configured for the group, or one the
      caller passes, which may be null. */
  datatype ComparerChoice = Configured | Override(comparer: Option<Comparer>)

  /** The parameter checks: a non-empty name, a positive requested size and
      a non-null override. */
  predicate ValidateParameters(name: string, target: Target, choice: ComparerChoice) {
    && name != ""
    && (target.Requested? ==> target.width > 0 && target.height > 0)
    && (choice.Override? ==> choice.comparer.Some?)
  }

  /** The extension as the lookup uses it: with a leading '.'. */
  function DottedExtension(extension: string): (r: string)
    ensures StartsWith(r, ".")
    ensures StartsWith(extension, ".") ==> r == extension
  {
    if StartsWith(extension, ".") then extension else "." + extension
  }

  /** The name with the extension and then a trailing `.WxH` taken off. */
  function StrippedName(name: string, extension: string): (r: string)
    ensures StartsWith(name, r)
  {
    var ext := DottedExtension(extension);
    var withoutExtension := if EndsWith(name, ext) then name[..|name| - |ext|] else name;
    var group := ParseResolution(withoutExtension).group;
    assert StartsWith(withoutExtension, group) by {
      if group != withoutExtension {
        StartsWithTransitive(withoutExtension, group + ".", group);
      }
    }
    StartsWithTransitive(name, withoutExtension, group);
    group
  }

  /** The first key, in enumeration order, that ends with `suffix`. */
  function FirstEndingWith(keys: seq<string>, suffix: string): (r: Option<string>)
    ensures r.Some? ==> r.value in keys && EndsWith(r.value, suffix)
    ensures r.None? ==> forall k :: k in keys ==> !EndsWith(k, suffix)
  {
    if keys == [] then None
    else if EndsWith(keys[0], suffix) then Some(keys[0])
    else FirstEndingWith(keys[1..], suffix)
  }

  /** `keys` is an enumeration of the dictionary's keys: each key once. */
  predicate Enumerates(keys: seq<string>, groups: GroupMap) {
    && Distinct(keys)
    && (forall k :: k in keys ==> k in groups)
    && (forall k :: k in groups ==> k in keys)
  }

  /** The key of the group `name` refers to: the name itself when it is a
      key; otherwise the name without extension and resolution when that is
      a key; otherwise the first key, in the order `keys` enumerates the
      dictionary, that ends with it; otherwise none. */
  function GetGroup(name: string, groups: GroupMap, keys: seq<string>, extension: string): (r: Option<string>)
    requires Enumerates(keys, groups)
    ensures r.Some? ==> r.value in groups
    ensures name == "" ==> r == None
    ensures name != "" && name in groups ==> r == Some(name)
    ensures name != "" && name !in groups && StrippedName(name, extension) in groups
            ==> r == Some(StrippedName(name, extension))
    ensures var stripped := StrippedName(name, extension);
            name != "" && name !in groups && stripped !in groups ==>
              && (r.Some? <==> exists k :: k in groups && EndsWith(k, stripped))
              && (r.Some? ==> r == FirstEndingWith(keys, stripped))
  {
    if name == "" then None
    else if name in groups then Some(name)
    else
      var stripped := StrippedName(name, extension);
      if stripped in groups then Some(stripped)
      else
        match FirstEndingWith(keys, stripped)
        case Some(key) => if key in groups then Some(key) else None
        case None => None
  }

  /** The string-map overload: the group's own comparer, else the map's
      override, else the default. */
  function GetComparerWithOverride(groupName: string, comparers: map<string, Option<Comparer>>,
                                   stringMapComparer: Option<Comparer>, defaultComparer: Option<Comparer>)
    : (r: Option<Comparer>)
    ensures var own := groupName in comparers && comparers[groupName].Some?;
            && (own ==> r == comparers[groupName])
            && (!own && stringMapComparer.Some? ==> r == stringMapComparer)
            && (!own && stringMapComparer.None? ==> r == defaultComparer)
  {
    GetComparer(comparers, groupName, if stringMapComparer.Some? then stringMapComparer else defaultComparer)
  }

  /** The value picked from a group and the group in the order the pick left
      it in. */
  datatype Picked = Picked(value: string, group: seq<Parsed>)

  /** A single member is picked without sorting; otherwise the group is
      sorted with the comparer aimed at the target and its first member is
      picked. */
  function PickBestResolution(target: Resolution, comparer: Comparer, group: seq<Parsed>,
                              epsilon: real, ops: FloatOps): (r: Picked)
    requires group != []
    ensures multiset(r.group) == multiset(group)
    ensures r.group != [] && r.value == r.group[0].Value() && r.group[0] in group
    ensures |group| == 1 ==> r.group == group
  {
    if |group| == 1 then Picked(group[0].Value(), group)
    else
      var sorted := SortBy(ByComparer(comparer, Context(target, epsilon, ops)), group);
      assert sorted[0] in multiset(group);
      Picked(sorted[0].Value(), sorted)
  }

  /** When the comparer is antisymmetric and consistent on the group, no
      member goes before the picked one. */
  lemma PickBestLeast(target: Resolution, comparer: Comparer, group: seq<Parsed>, epsilon: real, ops: FloatOps)
    requires group != []
    requires Antisymmetric(ByComparer(comparer, Context(target, epsilon, ops)), group)
    requires Consistent(ByComparer(comparer, Context(target, epsilon, ops)), group)
    ensures var r := PickBestResolution(target, comparer, group, epsilon, ops);
            forall y :: y in group ==> Compare(comparer, Context(target, epsilon, ops), Some(y.Size()), Some(r.group[0].Size())) >= 0
  {
    var ctx := Context(target, epsilon, ops);
    if |group| == 1 {
      CompareReflexive(comparer, ctx, Some(group[0].Size()));
    } else {
      SortByFirstLeast(ByComparer(comparer, ctx), group);
    }
  }

  /** A member of exactly the target size is always picked over the others. */
  lemma PickBestTarget(target: Resolution, comparer: Comparer, group: seq<Parsed>, epsilon: real,
                       ops: FloatOps, k: nat)
    requires !IsNegative(target) && !IsZero(target)
    requires k < |group| && group[k].Size() == target
    ensures PickBestResolution(target, comparer, group, epsilon, ops).group[0].Size() == target
  {
    if |group| > 1 {
      SortByTargetFirst(comparer, Context(target, epsilon, ops), group, k);
    }
  }

  /** What a pick did: nothing, or picked `value` from the group at `key`,
      which it left in the order `group`. */
  datatype Outcome = Unchanged | Chosen(key: string, group: seq<Parsed>, value: string)

  /** The name a pick returns. */
  function Result(outcome: Outcome, source: string): string {
    if outcome.Chosen? then outcome.value else source
  }

  /** The steps every overload shares once the settings (and the string map)
      are found: the parameter checks, the group lookup, the comparer and the
      pick. The comparer is the override, or else the group's own, else the
      string map's, else the default; the scene and dictionary overloads have
      no string map comparer. The comparer of a group is looked up by the
      group of its first member. */
  function PickIn(source: string, target: Target, choice: ComparerChoice, groups: GroupMap,
                  keys: seq<string>, extension: string, comparers: map<string, Option<Comparer>>,
                  stringMapComparer: Option<Comparer>, defaultComparer: Option<Comparer>,
                  epsilon: real, ops: FloatOps): (r: Outcome)
    requires Enumerates(keys, groups)
    ensures var key := GetGroup(source, groups, keys, extension);
            r.Unchanged? <==>
              || source == ""
              || (target.Requested? && (target.width <= 0 || target.height <= 0))
              || (choice.Override? && choice.comparer.None?)
              || key.None?
              || groups[key.value] == []
              || (choice.Configured? &&
                  GetComparerWithOverride(groups[key.value][0].Group(), comparers, stringMapComparer,
                                          defaultComparer).None?)
    ensures r.Chosen? ==>
              && GetGroup(source, groups, keys, extension) == Some(r.key)
              && multiset(r.group) == multiset(groups[r.key])
              && r.group != [] && r.value == r.group[0].Value() && r.group[0] in groups[r.key]
    ensures r.Chosen? ==>
              && r.key in groups && groups[r.key] != []
              && var comparer := if choice.Override? then choice.comparer
                                 else GetComparerWithOverride(groups[r.key][0].Group(), comparers,
                                                              stringMapComparer, defaultComparer);
                 && comparer.Some?
                 && Picked(r.value, r.group)
                    == PickBestResolution(Resolution(target.width, target.height), comparer.value,
                                          groups[r.key], epsilon, ops)
  {
    if !ValidateParameters(source, target, choice) then Unchanged
    else
      match GetGroup(source, groups, keys, extension)
      case None => Unchanged
      case Some(key) =>
        var group := groups[key];
        if group == [] then Unchanged
        else
          var comparer := if choice.Override? then choice.comparer
                          else GetComparerWithOverride(group[0].Group(), comparers, stringMapComparer, defaultComparer);
          if comparer.None? then Unchanged
          else
            var p := PickBestResolution(Resolution(target.width, target.height), comparer.value, group, epsilon, ops);
            Chosen(key, p.group, p.value)
  }

  /** Asking for a size that a member of the named group has picks a member
      of that size. */
  lemma PickInExactSize(source: string, width: int, height: int, choice: ComparerChoice, groups: GroupMap,
                        keys: seq<string>, extension: string, comparers: map<string, Option<Comparer>>,
                        stringMapComparer: Option<Comparer>, defaultComparer: Option<Comparer>,
                        epsilon: real, ops: FloatOps, k: nat)
    requires Enumerates(keys, groups)
    requires width > 0 && height > 0 && source != "" && source in groups
    requires k < |groups[source]| && groups[source][k].Size() == Resolution(width, height)
    ensures var r := PickIn(source, Requested(width, height), choice, groups, keys, extension,
                            comparers, stringMapComparer, defaultComparer, epsilon, ops);
            r.Chosen? ==> r.group[0].Size() == Resolution(width, height)
  {
    var target := Resolution(width, height);
    forall c: Comparer
      ensures PickBestResolution(target, c, groups[source], epsilon, ops).group[0].Size() == target
    {
      PickBestTarget(target, c, groups[source], epsilon, ops, k);
    }
  }

  /** The scene overloads: the group among the settings' scenes, with the
      group's comparer or the default. The picked group is left sorted in the
      settings. */
  method PickScene(source: string, target: Target, choice: ComparerChoice, settings: Settings?,
                   keys: seq<string>, ops: FloatOps)
    returns (result: string)
    requires settings != null ==> Enumerates(keys, settings.scenes)
    modifies (if settings == null then {} else {settings})`scenes
    ensures settings == null ==> result == source
    ensures settings != null ==>
              var outcome := PickIn(source, target, choice, old(settings.scenes), keys, "unity",
                                    old(settings.comparers), None, old(settings.defaultComparer),
                                    old(settings.epsilon), ops);
              && result == Result(outcome, source)
              && settings.scenes == (if outcome.Chosen? then old(settings.scenes)[outcome.key := outcome.group]
                                     else old(settings.scenes))
    ensures settings != null ==>
              unchanged(settings`defaultComparer, settings`epsilon, settings`startingSceneGroup,
                        settings`sceneList, settings`stringMaps, settings`zeroScene, settings`comparers)
  {
    if settings == null {
      return source;
    }
    var outcome := PickIn(source, target, choice, settings.scenes, keys, "unity",
                          settings.comparers, None, settings.defaultComparer, settings.epsilon, ops);
    if outcome.Chosen? {
      settings.scenes := settings.scenes[outcome.key := outcome.group];
    }
    return Result(outcome, source);
  }

  /** The first string map in the list with the identifier, or null. */
  function FirstStringMap(maps: seq<StringMap?>, identifier: string): (r: StringMap?)
    reads maps
    ensures r != null ==> r in maps && r.identifier == identifier
    ensures r == null ==> forall m :: m in maps && m != null ==> m.identifier != identifier
  {
    if maps == [] then null
    else if maps[0] != null && maps[0].identifier == identifier then maps[0]
    else FirstStringMap(maps[1..], identifier)
  }

  /** Scans the settings' string maps for the first with the identifier. */
  method GetStringMap(identifier: string, settings: Settings) returns (m: StringMap?)
    ensures m == FirstStringMap(settings.stringMaps, identifier)
  {
    var maps := settings.stringMaps;
    var i := 0;
    while i < |maps|
      invariant 0 <= i <= |maps|
      invariant FirstStringMap(maps[i..], identifier) == FirstStringMap(maps, identifier)
    {
      if maps[i] != null && maps[i].identifier == identifier {
        return maps[i];
      }
      assert maps[i..][1..] == maps[i + 1..];
      i := i + 1;
    }
    return null;
  }

  /** The pick inside one string map: the group's comparer, else the map's
      override, else `defaultComparer`; the picked group is left sorted in
      the map. */
  method PickInStringMap(m: StringMap, source: string, target: Target, choice: ComparerChoice,
                         keys: seq<string>, defaultComparer: Option<Comparer>, epsilon: real, ops: FloatOps)
    returns (result: string)
    requires Enumerates(keys, m.strings)
    modifies m`strings
    ensures var outcome := PickIn(source, target, choice, old(m.strings), keys, m.extension, m.comparers,
                                  m.comparerOverride, defaultComparer, epsilon, ops);
            && result == Result(outcome, source)
            && m.strings == (if outcome.Chosen? then old(m.strings)[outcome.key := outcome.group] else old(m.strings))
  {
    var outcome := PickIn(source, target, choice, m.strings, keys, m.extension, m.comparers,
                          m.comparerOverride, defaultComparer, epsilon, ops);
    if outcome.Chosen? {
      m.strings := m.strings[outcome.key := outcome.group];
    }
    return Result(outcome, source);
  }

  /** The string-map overloads: the group in the string map with the
      identifier, picked as above with the settings' default comparer and
      epsilon. Without settings or without such a map the source is
      returned. */
  method PickString(source: string, identifier: string, target: Target, choice: ComparerChoice,
                    settings: Settings?, keys: seq<string>, ops: FloatOps)
    returns (result: string, m: StringMap?)
    requires settings != null && FirstStringMap(settings.stringMaps, identifier) != null ==>
               Enumerates(keys, FirstStringMap(settings.stringMaps, identifier).strings)
    modifies if settings == null then [] else settings.stringMaps`strings
    ensures settings == null ==> result == source && m == null
    ensures settings != null ==> m == old(FirstStringMap(settings.stringMaps, identifier))
    ensures m == null ==> result == source
    ensures settings != null && m != null ==>
              var outcome := PickIn(source, target, choice, old(m.strings), keys, old(m.extension),
                                    old(m.comparers), old(m.comparerOverride), old(settings.defaultComparer),
                                    old(settings.epsilon), ops);
              && result == Result(outcome, source)
              && m.strings == (if outcome.Chosen? then old(m.strings)[outcome.key := outcome.group] else old(m.strings))
    ensures settings != null ==> unchanged(settings)
    ensures settings != null ==>
              forall mm :: mm in old(settings.stringMaps) && mm != null ==>
                && unchanged(mm`identifier, mm`extension, mm`comparerOverride, mm`stringList, mm`comparers)
                && (mm != m ==> mm.strings == old(mm.strings))
  {
    if settings == null {
      return source, null;
    }
    m := GetStringMap(identifier, settings);
    if m == null {
      return source, m;
    }
    result := PickInStringMap(m, source, target, choice, keys, settings.defaultComparer, settings.epsilon, ops);
  }

  /** The dictionary overloads: the group in a dictionary the caller passes,
      which must not be empty, with the default comparer. The outcome holds
      the picked group in the order the pick left it in the caller's
      dictionary. */
  function PickFromDictionary(source: string, target: Target, choice: ComparerChoice, groups: GroupMap,
                              keys: seq<string>, extension: string, settings: Settings?, ops: FloatOps)
    : (r: Outcome)
    requires Enumerates(keys, groups)
    reads settings
    ensures |groups| == 0 || settings == null ==> r == Unchanged
    ensures |groups| != 0 && settings != null ==>
              r == PickIn(source, target, choice, groups, keys, extension, map[], None, settings.defaultComparer,
                          settings.epsilon, ops)
  {
    if |groups| == 0 || settings == null then Unchanged
    else PickIn(source, target, choice, groups, keys, extension, map[], None, settings.defaultComparer, settings.epsilon, ops)
  }

  /** The scenes each path names, in list order. */
  function ScenePaths(scenes: seq<string>): (r: seq<Parsed>)
    ensures |r| == |scenes|
    ensures forall i :: 0 <= i < |scenes| ==> r[i] == NewParsedScenePath(scenes[i])
  {
    seq(|scenes|, i requires 0 <= i < |scenes| => NewParsedScenePath(scenes[i]))
  }

  /** Adds each scene path to the list of its group in the settings,
      starting the list when the group is new; with no paths or no settings
      nothing changes. */
  method AddScenes(scenes: seq<string>, settings: Settings?)
    modifies (if settings == null then {} else {settings})`scenes
    ensures settings != null ==>
              unchanged(settings`defaultComparer, settings`epsilon, settings`startingSceneGroup,
                        settings`sceneList, settings`stringMaps, settings`zeroScene, settings`comparers)
    ensures settings != null ==> settings.scenes == Grouped(old(settings.scenes), ScenePaths(scenes))
  {
    if |scenes| == 0 || settings == null {
      return;
    }
    settings.scenes := AddAll(settings.scenes, ScenePaths(scenes));
  }

  /** Adding scenes keeps every group and its earlier members, and appends
      each new scene to the list of its group, in order. */
  lemma AddedScenes(before: GroupMap, scenes: seq<string>)
    ensures var after := Grouped(before, ScenePaths(scenes));
            && (forall g :: g in after <==> g in before || g in GroupsOf(ScenePaths(scenes)))
            && (forall g :: g in after ==>
                  after[g] == (if g in before then before[g] else []) + Members(ScenePaths(scenes), g))
  {
    GroupedSpec(before, ScenePaths(scenes));
  }
}
