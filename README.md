# EasyResolutions — a verified model of the resolution picker

EasyResolutions is a Unity package. It picks, from a group of assets that
differ only in the resolution written in their names (`Menu.1920x1080.unity`,
`Logo.800x600.png`), the one that fits the screen best. This project models
the package's core in Dafny and proves properties of that model:

- **Name parsing** (`StringExtensions`, `ParsedStrings`). A trailing
  `.WxH` is split off a name into a group and a size. A scene path is
  normalised and cut into folder, name, group path and build index.
- **The comparer** (`Comparison`). A cascade of stages orders two
  candidate sizes relative to a target. The first stages are fixed: null
  candidates, candidates negative in both dimensions, 0x0, then equality
  and the target itself. The order of the rest depends on the comparer's
  settings. Orientation comes next when the comparer respects orientation,
  and last otherwise. The size stage (closest, closest larger or closest
  smaller) comes before the aspect ratio stage, unless the comparer
  prefers aspect over resolution; then the aspect stage comes first. The picker sorts with this
  cascade as the package has it. Its aspect stage can decide two sizes near
  the target aspect the same way in both orders; a corrected cascade,
  which passes such pairs on to the next stage, is modelled beside it and
  proved antisymmetric, and the two agree on every other pair.
- **Grouping** (`Grouping`, `StringMaps`, `EasyResolutionsSettings`). After
  deserialization the settings asset and each string map rebuild their
  dictionaries from the serialized list: group name to members, and group
  name to comparer. They also rewrite the serialized pairs of group and
  comparer. `ListExtensions` holds the paired-list helpers this uses.
- **The picker** (`Sorting`, `Picker`). The picker finds the group a name
  refers to and chooses a comparer: the override, the group's own, the map's
  override or the default. It sorts the group and returns the first member's
  name. Every failed check returns the source name unchanged.
- **The string map editor's edit classification** (`StringMapEditor`). It
  decides whether an edit of the list is structural, such as an entry
  added, removed or moved.

Floating-point measures the comparer leaves to the host (vector length,
excess area) are parameters (`FloatOps`); aspect ratios are reals. The
screen size, the settings singleton and the order in which a dictionary
enumerates its keys are parameters as well.

## Model

| member | source | states |
|---|---|---|
| Text.Split | Runtime/EasyResolutions/Extensions/StringExtensions.cs:50 | splitting gives at least one piece |
| Text.TryParse | Runtime/EasyResolutions/Extensions/StringExtensions.cs:58-61 | a parsed value is a 32-bit integer, read from non-empty text |
| Text.SplitSingle | Runtime/EasyResolutions/Extensions/StringExtensions.cs:50-52 | a string without the separator splits into itself alone, and one with it into at least two pieces |
| Text.JoinSplit | Runtime/EasyResolutions/Extensions/StringExtensions.cs:70 | joining the split pieces with the separator gives the original string back |
| Text.TryParseIntToString | Runtime/EasyResolutions/Extensions/StringExtensions.cs:54-62 | the decimal text of any 32-bit integer, sign included, parses back to that integer |
| StringExtensions.ParseResolution | Runtime/EasyResolutions/Extensions/StringExtensions.cs:49-70 | when the group is the whole name the size is -1x-1; otherwise the name starts with the group and a '.', and both sizes are 32-bit integers |
| StringExtensions.ResolutionToken | Runtime/EasyResolutions/Extensions/StringExtensions.cs:54-62 | a token that gives a size holds an 'x', and both sizes are 32-bit integers |
| StringExtensions.ParseResolutionNoDot | Runtime/EasyResolutions/Extensions/StringExtensions.cs:50-52 | a name without '.' is its own group with size -1x-1 |
| StringExtensions.ParseResolutionByLastDot | Runtime/EasyResolutions/Extensions/StringExtensions.cs:49-70 | the group is everything before the last '.' when the last piece is a `WxH` token, and the whole name otherwise |
| StringExtensions.ResolutionTokenByIndex | Runtime/EasyResolutions/Extensions/StringExtensions.cs:54-62 | a token gives a size exactly when it has a single 'x' with an integer on each side, and then those are the width and height |
| StringExtensions.ResolutionTokenRoundTrip | Runtime/EasyResolutions/Extensions/StringExtensions.cs:54-62 | the token `WxH` written from two 32-bit integers parses back to that size |
| StringExtensions.ParseResolutionRoundTrip | Runtime/EasyResolutions/Extensions/StringExtensions.cs:49-70 | a group followed by `.WxH` parses back to that group and size |
| StringExtensions.WithSceneExtension | Runtime/EasyResolutions/Extensions/StringExtensions.cs:27-30 | the path ends with `.unity`, and a path that already does is kept |
| StringExtensions.RuntimePath | Runtime/EasyResolutions/Extensions/StringExtensions.cs:32 | a full path starting with `Assets/` is `Assets/` followed by the runtime path; any other full path is its own runtime path |
| StringExtensions.PrepareSceneData | Runtime/EasyResolutions/Extensions/StringExtensions.cs:24-47 | a scene is the first scene exactly when its index is 0, and it keeps the index it is given |
| StringExtensions.SplitRuntimePathParts | Runtime/EasyResolutions/Extensions/StringExtensions.cs:34-43 | the path without extension is the folder (empty or ending in '/') followed by a name without '/', and adding `.unity` gives the runtime path back |
| StringExtensions.PrepareSceneDataPaths | Runtime/EasyResolutions/Extensions/StringExtensions.cs:24-47 | the full path has no '\\', ends with `.unity` and is the slashed path with `.unity` added only when missing; the path without extension plus `.unity` is the runtime path |
| StringExtensions.PrepareSceneDataName | Runtime/EasyResolutions/Extensions/StringExtensions.cs:34-46 | the group path is the folder followed by the group read off the name, and the size is the one in the name |
| StringExtensions.ScenePathSeparators | Runtime/EasyResolutions/Extensions/StringExtensions.cs:34-43 | a path ending with `.unity` has its last '.' at the suffix, after its last '/' |
| ParsedStrings.NewParsedString | Runtime/EasyResolutions/StringMap/ParsedString.cs:36-62 | the result is a string-map name whose extension is the given one without its leading dots |
| ParsedStrings.ParsedStringValue | Runtime/EasyResolutions/StringMap/ParsedString.cs:45-55 | the value ends with the extension's suffix, appended only when the original name lacked it |
| ParsedStrings.ParsedStringFields | Runtime/EasyResolutions/StringMap/ParsedString.cs:36-62 | group and size are those parsed from the value's stem, and the value holds no '\' |
| ParsedStrings.NewParsedStringIdempotent | Runtime/EasyResolutions/StringMap/ParsedString.cs:36-62 | parsing a parsed value again with the same extension changes nothing |
| ParsedStrings.NewParsedStringRoundTrip | Runtime/EasyResolutions/StringMap/ParsedString.cs:36-62 | a group written with `.WxH` and the extension parses back to that group and size |
| ParsedStrings.PlainExtension | Runtime/EasyResolutions/StringMap/ParsedString.cs:45-47 | an extension without a leading '.' is used as given, and the suffix is '.' followed by it |
| ParsedStrings.ParsedStringAppends | Runtime/EasyResolutions/StringMap/ParsedString.cs:47-55 | a name lacking the extension gets the suffix appended |
| ParsedStrings.ParsedStringKeeps | Runtime/EasyResolutions/StringMap/ParsedString.cs:47-55 | a name already ending with the extension's suffix is kept |
| ParsedStrings.ParsedStringWhole | Runtime/EasyResolutions/StringMap/ParsedString.cs:40-43 | with an empty extension the whole name is the value and the extension stays empty |
| ParsedStrings.TxtNameNoResolution | Runtime/EasyResolutions/Extensions/StringExtensions.cs:54-64 | a name ending in `.txt` has no resolution, so it is its own group |
| ParsedStrings.ParsedStringTxtWhole | Runtime/EasyResolutions/StringMap/ParsedString.cs:6 | a `.txt` name with no extension: the group is the whole name and there is no size |
| ParsedStrings.ParsedStringResolutionKept | Runtime/EasyResolutions/StringMap/ParsedString.cs:8 | a name `.WxH.txt` with extension `txt`: the extension is kept and the group and size are read off the stem |
| ParsedStrings.ParsedStringResolutionAppends | Runtime/EasyResolutions/StringMap/ParsedString.cs:10 | a name `.WxH` with extension `txt`: `.txt` is appended and the group and size are read off the name |
| ParsedStrings.ParsedStringNoResolutionAppends | Runtime/EasyResolutions/StringMap/ParsedString.cs:47-61 | a name without a resolution, given an extension it lacks, gets it appended and stays its own group with -1x-1 |
| ParsedStrings.ParsedStringTxtPng | Runtime/EasyResolutions/StringMap/ParsedString.cs:12 | a `.txt` name with extension `png`: `.png` is appended and the name is its own group |
| ParsedStrings.NewParsedScenePath | Runtime/EasyResolutions/Settings/ParsedScenePath.cs:38-51 | a scene path parses to a scene entry with the extension `unity` and the given index |
| ParsedStrings.NewParsedScenePathIdempotent | Runtime/EasyResolutions/Settings/ParsedScenePath.cs:38-51 | parsing the stored path again gives the same entry |
| ParsedStrings.NewParsedScenePathRoundTrip | Runtime/EasyResolutions/Settings/ParsedScenePath.cs:38-51 | `Assets/<folder><group>.WxH.unity` parses back to that folder, group path and size |
| ParsedStrings.SplitFolderAndName | Runtime/EasyResolutions/Extensions/StringExtensions.cs:34-43 | a path of a folder ending in '/' and a name without '/' is cut back into that folder and name |
| Comparison.NullValues | Runtime/EasyResolutions/Comparer/EasyResolutions_Comparer.cs:91-109 | the stage passes exactly when both candidates are present |
| Comparison.NegativeValues | Runtime/EasyResolutions/Comparer/EasyResolutions_Comparer.cs:111-129 | the stage passes exactly when neither size is negative in both dimensions; two such sizes are equal, and only one such second size puts the first one first |
| Comparison.ZeroValues | Runtime/EasyResolutions/Comparer/EasyResolutions_Comparer.cs:131-149 | the stage passes exactly when neither size is 0x0; two 0x0 sizes are equal, and only a 0x0 second size puts the first one first |
| Comparison.EqualValues | Runtime/EasyResolutions/Comparer/EasyResolutions_Comparer.cs:151-169 | the stage passes exactly when the sizes differ and neither is the target; equal sizes are equal, and the first goes first exactly when it is the target |
| Comparison.OrientationValues | Runtime/EasyResolutions/Comparer/EasyResolutions_Comparer.cs:171-207 | the stage decides only sizes of different orientation, never as equal; the first goes first exactly when it alone is oriented like the target; it passes when neither is |
| Comparison.AspectRatios | Runtime/EasyResolutions/Comparer/EasyResolutions_Comparer.cs:209-229 | the package's aspect stage never decides a tie; sizes of nearly equal aspect pass; when it decides, a first size near the target aspect goes first |
| Comparison.AspectRatiosCorrected | Runtime/EasyResolutions/Comparer/EasyResolutions_Comparer.cs:209-229 | the corrected aspect stage never decides a tie; it passes two sizes that are both near the target aspect, and otherwise decides as the package's stage |
| Comparison.Resolutions | Runtime/EasyResolutions/Comparer/EasyResolutions_Comparer.cs:273-332 | the size stage never decides a tie; preferring larger, a size other than the target that is at least the target goes before one that is not; likewise for smaller |
| Comparison.Cascade | Runtime/EasyResolutions/Comparer/EasyResolutions_Comparer.cs:49-86 | with an aspect stage that never decides a tie, the stages after the null test give -1, 0 or 1, and declare a tie only for two sizes negative in both dimensions, two 0x0 sizes or equal sizes |
| Comparison.CompareNulls | Runtime/EasyResolutions/Comparer/EasyResolutions_Comparer.cs:91-109 | two nulls are equal, and a null goes after any size |
| Comparison.CompareNegatives | Runtime/EasyResolutions/Comparer/EasyResolutions_Comparer.cs:111-129 | sizes negative in both dimensions are equal to each other and go after every other size |
| Comparison.CompareZeros | Runtime/EasyResolutions/Comparer/EasyResolutions_Comparer.cs:131-149 | 0x0 goes after every size that is not negative in both dimensions |
| Comparison.CompareReflexive | Runtime/EasyResolutions/Comparer/EasyResolutions_Comparer.cs:151-169 | every candidate compares equal to itself |
| Comparison.CompareTargetFirst | Runtime/EasyResolutions/Comparer/EasyResolutions_Comparer.cs:151-169 | the target size goes before any other size, in both argument orders |
| Comparison.OrientationOf | Runtime/EasyResolutions/Comparer/EasyResolutions_Comparer.cs:171-207 | landscape, portrait and square each hold exactly when width exceeds height, height exceeds width, or they are equal |
| Comparison.CompareOrientation | Runtime/EasyResolutions/Comparer/EasyResolutions_Comparer.cs:171-207 | with orientation respected, of two differently oriented sizes the one oriented like the target goes first |
| Comparison.CompareClosestLarger | Runtime/EasyResolutions/Comparer/EasyResolutions_Comparer.cs:273-332 | preferring larger: a size at least the target in both dimensions goes before one that is not |
| Comparison.CompareClosestSmaller | Runtime/EasyResolutions/Comparer/EasyResolutions_Comparer.cs:273-332 | preferring smaller: a size at most the target in both dimensions goes before one that is not |
| Comparison.CandidateVector | Runtime/EasyResolutions/Comparer/EasyResolutions_Comparer.cs:355-362 | the vector is the size itself, or with orientation ignored its longer side first |
| Comparison.CandidateVectorRotation | Runtime/EasyResolutions/Comparer/EasyResolutions_Comparer.cs:231-241 | with orientation ignored, a size and its rotation have the same vector and aspect ratio |
| Comparison.Compare | Runtime/EasyResolutions/Comparer/EasyResolutions_Comparer.cs:27-89 | the cascade as the package has it: the result is -1, 0 or 1 |
| Comparison.CompareCorrected | Runtime/EasyResolutions/Comparer/EasyResolutions_Comparer.cs:27-89 | the cascade with the corrected aspect stage: the result is -1, 0 or 1 |
| Comparison.FirstStagesOpposite | Runtime/EasyResolutions/Comparer/EasyResolutions_Comparer.cs:111-207 | the negative, zero, equality and orientation stages decide swapped candidates the opposite way |
| Comparison.ResolutionsClosestOpposite | Runtime/EasyResolutions/Comparer/EasyResolutions_Comparer.cs:334-353 | with a positive epsilon the distance stage decides swapped candidates the opposite way |
| Comparison.ResolutionsOpposite | Runtime/EasyResolutions/Comparer/EasyResolutions_Comparer.cs:273-332 | with a positive epsilon the size stage decides swapped candidates the opposite way |
| Comparison.AspectRatiosOpposite | Runtime/EasyResolutions/Comparer/EasyResolutions_Comparer.cs:209-229 | the corrected aspect stage decides swapped candidates the opposite way |
| Comparison.SizeStagesOpposite | Runtime/EasyResolutions/Comparer/EasyResolutions_Comparer.cs:60-80 | with the corrected aspect stage, the size and aspect stages, in either configured order, decide swapped candidates the opposite way |
| Comparison.CascadeOpposite | Runtime/EasyResolutions/Comparer/EasyResolutions_Comparer.cs:27-89 | with the corrected aspect stage, the whole cascade after the null test decides swapped candidates the opposite way |
| Comparison.CompareCorrectedAntisymmetric | Runtime/EasyResolutions/Comparer/EasyResolutions_Comparer.cs:27-89 | with a positive epsilon, swapping the candidates negates the corrected cascade's result, as a sort requires |
| Comparison.CompareCorrectedAgrees | Runtime/EasyResolutions/Comparer/EasyResolutions_Comparer.cs:209-229 | unless both sizes are near the target aspect with aspect ratios not nearly equal, the corrected cascade gives the package's result |
| Comparison.CompareAntisymmetricApart | Runtime/EasyResolutions/Comparer/EasyResolutions_Comparer.cs:27-89 | with a positive epsilon, swapping two candidates that do not clash on aspect negates the package's result |
| Comparison.CompareNotAntisymmetric | Runtime/EasyResolutions/Comparer/EasyResolutions_Comparer.cs:209-229 | with the aspect stage as written, two sizes near the target aspect each go before the other |
| ListExtensions.ClearPairedValues | Runtime/EasyResolutions/Extensions/IListExtensions.cs:8-11 | both lists are emptied |
| ListExtensions.AddPairedValues | Runtime/EasyResolutions/Extensions/IListExtensions.cs:13-17 | the key is appended, with the value stored for it or the default |
| ListExtensions.FirstKeyIndex | Runtime/EasyResolutions/Extensions/IListExtensions.cs:19-31 | the index is of an entry with the key and no earlier entry has it, or it is -1 and no entry has it |
| ListExtensions.IndexOfKey | Runtime/EasyResolutions/Extensions/IListExtensions.cs:19-31 | the scan finds the first entry with the key |
| ListExtensions.FirstKeyIndexUnique | Runtime/EasyResolutions/Extensions/IListExtensions.cs:19-31 | the first index with the key is the only index meeting that description |
| ListExtensions.AddPairedValuesTaking | Runtime/EasyResolutions/Extensions/IListExtensions.cs:19-31 | the key is appended with the value of the first entry with it, which is removed; without one, the default is appended and the entries are kept |
| ListExtensions.RemoveAtKeepsOthers | Runtime/EasyResolutions/Extensions/IListExtensions.cs:26-28 | removing one entry keeps the others in their order |
| Grouping.GroupedSpec | Runtime/EasyResolutions/StringMap/EasyResolutions_StringMap.cs:74-97 | grouping keeps every earlier group and appends each item to its group's list, in order |
| Grouping.GroupedKeys | Runtime/EasyResolutions/StringMap/EasyResolutions_StringMap.cs:74-97 | the groups after grouping are the earlier ones and those of the items |
| Grouping.GroupedLists | Runtime/EasyResolutions/StringMap/EasyResolutions_StringMap.cs:74-97 | each group's list is its earlier list followed by the items of that group |
| Grouping.MembersSpec | Runtime/EasyResolutions/StringMap/EasyResolutions_StringMap.cs:74-97 | a group's members are exactly the items with that group, in order |
| Grouping.GroupOrderSpec | Runtime/EasyResolutions/StringMap/EasyResolutions_StringMap.cs:74-97 | the order of first appearance lists each group of the items once |
| Grouping.GroupTableSpec | Runtime/EasyResolutions/StringMap/EasyResolutions_StringMap.cs:74-97 | the rebuilt dictionary has the items' groups as keys and each group's members as its list |
| Grouping.GetComparer | Runtime/EasyResolutions/StringMap/EasyResolutions_StringMap.cs:100-104 | the group's own comparer when set, the fallback otherwise |
| Grouping.ComparerTableSpec | Runtime/EasyResolutions/StringMap/EasyResolutions_StringMap.cs:74-97 | each group gets the comparer stored for it, or the fallback |
| Grouping.RefreshedKeysMatch | Runtime/EasyResolutions/StringMap/EasyResolutions_StringMap.cs:74-97 | both rebuilt dictionaries have the same keys |
| Grouping.ZipToDictionaryDistinct | Runtime/EasyResolutions/StringMap/EasyResolutions_StringMap.cs:68-70 | distinct keys build a dictionary mapping each key to the value at the same position |
| Grouping.ZipToDictionaryRepeat | Runtime/EasyResolutions/StringMap/EasyResolutions_StringMap.cs:68-70 | a repeated key makes the dictionary fail |
| Grouping.ZipToDictionaryKeys | Runtime/EasyResolutions/StringMap/EasyResolutions_StringMap.cs:68-70 | a built dictionary has exactly the listed keys |
| Grouping.RefreshStable | Runtime/EasyResolutions/StringMap/EasyResolutions_StringMap.cs:68-97 | the rewritten pairs build again without a repeat and give every group the same comparer |
| Grouping.AddAll | Runtime/EasyResolutions/EasyResolutionsPicker.cs:140-149 | the loop's dictionary is the grouping of the items into the starting dictionary |
| Grouping.CollectItem | Runtime/EasyResolutions/StringMap/EasyResolutions_StringMap.cs:74-97 | one item is added to its group; a new group gets its comparer and a new pair |
| Grouping.CollectNext | Runtime/EasyResolutions/StringMap/EasyResolutions_StringMap.cs:74-97 | one pass of the loop turns the group table, comparer table and pairs built for a prefix of the items into those for the prefix and the next item |
| Grouping.CollectGroups | Runtime/EasyResolutions/StringMap/EasyResolutions_StringMap.cs:74-97 | the loop builds the group table, the comparer table and the rewritten pairs |
| StringMaps.StringMap.ParsedList | Runtime/EasyResolutions/StringMap/EasyResolutions_StringMap.cs:76-77 | each listed name is parsed with the map's extension, in list order |
| StringMaps.StringMap.RefreshScenesDictionary | Runtime/EasyResolutions/StringMap/EasyResolutions_StringMap.cs:50-98 | a repeated stored key stops the refresh with empty dictionaries; otherwise the dictionaries are the group and comparer tables and the pairs are rewritten |
| StringMaps.RefreshedStrings | Runtime/EasyResolutions/StringMap/EasyResolutions_StringMap.cs:74-97 | after a refresh each listed name sits in its group's list, which holds exactly that group's names |
| StringMaps.RefreshedPairsStable | Runtime/EasyResolutions/StringMap/EasyResolutions_StringMap.cs:68-97 | the pairs a refresh leaves give the same comparers on the next refresh |
| EasyResolutionsSettings.LastZeroScene | Runtime/EasyResolutions/Settings/EasyResolutions_Settings.cs:159-160 | the zero scene is the one it was or a listed scene of index 0 |
| EasyResolutionsSettings.LastZeroSceneNone | Runtime/EasyResolutions/Settings/EasyResolutions_Settings.cs:159-160 | without a scene of index 0 the zero scene is kept |
| EasyResolutionsSettings.LastZeroSceneLast | Runtime/EasyResolutions/Settings/EasyResolutions_Settings.cs:159-160 | the zero scene is the last listed scene of index 0 |
| EasyResolutionsSettings.CollectScenes | Runtime/EasyResolutions/Settings/EasyResolutions_Settings.cs:158-183 | the loop builds the tables and pairs and keeps the last scene of index 0 |
| EasyResolutionsSettings.CollectScene | Runtime/EasyResolutions/Settings/EasyResolutions_Settings.cs:158-183 | one pass of the refresh loop turns the zero scene, tables and pairs built for a prefix of the scenes into those for the prefix and the next scene; the zero scene becomes that scene when its index is 0 |
| EasyResolutionsSettings.Settings.constructor | Runtime/EasyResolutions/Settings/EasyResolutions_Settings.cs:37-43 | a new asset has no default comparer, epsilon 0.008 and empty dictionaries |
| EasyResolutionsSettings.Settings.ApplyStartingSceneGroupDefault | Runtime/EasyResolutions/Settings/EasyResolutions_Settings.cs:110-115 | an unset starting group becomes the group of the only scene, or of the second of several |
| EasyResolutionsSettings.Settings.EnsureDefaultComparer | Runtime/EasyResolutions/Settings/EasyResolutions_Settings.cs:122-125 | a missing default comparer is replaced, and a set one is kept |
| EasyResolutionsSettings.Settings.RefreshScenesDictionary | Runtime/EasyResolutions/Settings/EasyResolutions_Settings.cs:134-184 | as for the string map, with the default comparer as fallback and the zero scene updated |
| Sorting.Insert | Runtime/EasyResolutions/EasyResolutionsPicker.cs:611-614 | insertion adds one element and keeps the others |
| Sorting.SortBy | Runtime/EasyResolutions/EasyResolutionsPicker.cs:611-614 | the sorted group is a permutation of the group |
| Sorting.SortByMembers | Runtime/EasyResolutions/EasyResolutionsPicker.cs:611-614 | the sorted group holds the same members |
| Sorting.InsertSorted | Runtime/EasyResolutions/EasyResolutionsPicker.cs:611-614 | inserting into a sorted list keeps it sorted |
| Sorting.SortBySorted | Runtime/EasyResolutions/EasyResolutionsPicker.cs:611-614 | with an antisymmetric comparison no element goes after its successor |
| Sorting.SortByFirstLeastIn | Runtime/EasyResolutions/EasyResolutionsPicker.cs:611-614 | under a consistent comparison no member goes before the first sorted one |
| Sorting.SortByFirstLeast | Runtime/EasyResolutions/EasyResolutionsPicker.cs:611-614 | the same, for the whole group |
| Sorting.SortByBestFirst | Runtime/EasyResolutions/EasyResolutionsPicker.cs:611-614 | when one size beats all others, a member of that size is sorted first |
| Sorting.ComparerAntisymmetric | Runtime/EasyResolutions/Comparer/EasyResolutions_Comparer.cs:27-89 | the package's comparer on names is antisymmetric on a group with a positive epsilon and no two members clashing on aspect |
| Sorting.SortByTargetFirst | Runtime/EasyResolutions/EasyResolutionsPicker.cs:611-614 | a member of the target size is sorted first |
| Picker.DottedExtension | Runtime/EasyResolutions/EasyResolutionsPicker.cs:551-553 | the extension starts with '.', and one that already does is kept |
| Picker.StrippedName | Runtime/EasyResolutions/EasyResolutionsPicker.cs:551-558 | the name without extension and resolution is a prefix of the name |
| Picker.FirstEndingWith | Runtime/EasyResolutions/EasyResolutionsPicker.cs:562 | the first key ending with the name, or none when no key ends with it |
| Picker.GetGroup | Runtime/EasyResolutions/EasyResolutionsPicker.cs:543-567 | no group for an empty name; the name itself when a key; else the name without extension and resolution when a key; else a group exactly when some key ends with the stripped name, and then the first such key in enumeration order; a result is always a key |
| Picker.GetComparerWithOverride | Runtime/EasyResolutions/EasyResolutionsPicker.cs:579-590 | the group's comparer comes before the map's override, which comes before the default |
| Picker.PickBestResolution | Runtime/EasyResolutions/EasyResolutionsPicker.cs:603-615 | the picked value is a member's; the group is only reordered; a single member is left as it is |
| Picker.PickBestLeast | Runtime/EasyResolutions/EasyResolutionsPicker.cs:603-615 | for a non-empty group on which the package's comparer is antisymmetric and consistent, no member goes before the picked one |
| Picker.PickBestTarget | Runtime/EasyResolutions/EasyResolutionsPicker.cs:603-615 | a member of exactly the target size is picked |
| Picker.PickIn | Runtime/EasyResolutions/EasyResolutionsPicker.cs:168-188 | the name is unchanged exactly when a parameter check fails (an empty name, a requested size not positive in both dimensions, or a null override, as `ValidateParameters` at lines 494-519 has them; the screen size is not checked), the group lookup fails or no comparer is found; otherwise the found group is sorted with the override, or else the group's own comparer, the string map's or the default, and its first member is picked |
| Picker.PickInExactSize | Runtime/EasyResolutions/EasyResolutionsPicker.cs:168-188 | asking for a size a member has picks a member of that size |
| Picker.PickScene | Runtime/EasyResolutions/EasyResolutionsPicker.cs:168-188 | the scene overloads: the pick among the settings' scenes with the group's comparer or the default, leaving the picked group sorted; no other field of the settings changes |
| Picker.FirstStringMap | Runtime/EasyResolutions/EasyResolutionsPicker.cs:617-626 | the first map with the identifier, or null when none has it |
| Picker.GetStringMap | Runtime/EasyResolutions/EasyResolutionsPicker.cs:617-626 | the scan returns the first map with the identifier |
| Picker.PickInStringMap | Runtime/EasyResolutions/EasyResolutionsPicker.cs:261-286 | the pick in one map with the group's comparer, else the map's override, else the default, leaving the picked group sorted |
| Picker.PickString | Runtime/EasyResolutions/EasyResolutionsPicker.cs:261-286 | the string-map overloads: no settings or no map returns the name, otherwise the pick in the first map with the identifier; only that map's dictionary changes, and the settings and every other field of every map stay as they were |
| Picker.PickFromDictionary | Runtime/EasyResolutions/EasyResolutionsPicker.cs:390-412 | the dictionary overloads: an empty dictionary or no settings returns the name, otherwise the pick with the default comparer |
| Picker.ScenePaths | Runtime/EasyResolutions/EasyResolutionsPicker.cs:140-149 | each path is parsed as a scene path, in order |
| Picker.AddScenes | Runtime/EasyResolutions/EasyResolutionsPicker.cs:133-150 | each scene is added to its group's list; no other field of the settings changes |
| Picker.AddedScenes | Runtime/EasyResolutions/EasyResolutionsPicker.cs:133-150 | adding keeps every group and its earlier members, and appends each scene to its group in order |
| StringMapEditor.Differences | Editor/EasyResolutions/EasyResolutionsStringMapEditor.cs:157-170 | the count is at most the length, and zero exactly when the lists are equal |
| StringMapEditor.DifferencesCountsIndices | Editor/EasyResolutions/EasyResolutionsStringMapEditor.cs:157-170 | the count is the number of differing positions |
| StringMapEditor.CountDifferences | Editor/EasyResolutions/EasyResolutionsStringMapEditor.cs:157-170 | lists of different lengths are rejected; otherwise the loop counts the differing positions |
| StringMapEditor.IsStructuralChange | Editor/EasyResolutions/EasyResolutionsStringMapEditor.cs:154-155 | a change of length, or more than one differing position, is structural, and nothing else is |
| StringMapEditor.SingleEditNotStructural | Editor/EasyResolutions/EasyResolutionsStringMapEditor.cs:150-155 | editing one entry is not structural |
| StringMapEditor.MoveIsStructural | Editor/EasyResolutions/EasyResolutionsStringMapEditor.cs:150-155 | two differing positions, as a move makes, are structural |

## Left out

- Floating point: aspect ratios and epsilon are exact reals. Vector length and excess area are uninterpreted functions (`FloatOps`), so results that depend on rounding are not captured.
- SizeStagesOpposite: proved for the corrected aspect stage only. With the package's aspect stage two sizes near the target aspect whose ratios are not nearly equal are decided the same way in both orders (Comparison.CompareNotAntisymmetric).
- CascadeOpposite: proved for the corrected aspect stage only, for the same reason. For the package's cascade, Comparison.CompareAntisymmetricApart gives antisymmetry on every pair without that aspect clash.
- Comparison.CompareCorrectedAntisymmetric: holds only for a positive epsilon. With epsilon 0 the stages that compare reals can decide both orders the same way.
- Comparison.CompareAntisymmetricApart: needs a positive epsilon and excludes the aspect-clashing pairs, on which the package's comparer is not antisymmetric.
- Sorting.ComparerAntisymmetric: needs a positive epsilon and no aspect clash between members of the group, for the same reasons.
- Picker.PickBestLeast: takes antisymmetry and consistency (transitive "does not go before") of the package's comparer on the group as hypotheses. The comparer is neither in general.
- Sorting.SortByFirstLeast: assumes the same consistency.
- The host's `List.Sort` is unstable and its algorithm is unknown. The model sorts by insertion, so the order among members the comparer calls equal is not captured.
- Picker.PickIn: looks the comparer up by the group of the first member. This follows the code, which does not use the dictionary key.
- Unity lifecycle: scene loading, play-mode callbacks and logging are left out. The screen size is a parameter. The scene and string overloads without a size pass the screen size on to the sized overloads, which check it, so they are `Requested` targets. Only the overloads with a comparer override or a dictionary and no size use the screen size unchecked; they are `Screen` targets. The settings singleton is a nullable parameter.
- The serialized-object helpers the settings editor calls on enable (setting the default comparer, re-registering scenes) are not part of this model.
- `EasyResolutions_DefaultComparer` is not part of this model. `Settings.EnsureDefaultComparer` takes the created comparer as a parameter.
- Custom comparer classes are left out. A comparer is its configuration (`Comparer`), and the target and epsilon the picker sets on it are a `Context` value, not state.
- Null strings and null lists are treated as empty.
- Culture-sensitive `StartsWith`/`EndsWith` are modelled as ordinal.
- Integer parsing accepts an optional sign and decimal digits within 32 bits. Whitespace, culture and other number styles are not modelled.
- The string map's generic identifier is a string.
- The order in which a dictionary enumerates its keys is a `keys` parameter.
- Group lists are values, not shared objects. A pick returns the sorted group; the scene and string-map picks write it back into their dictionary. The dictionary overloads return it in the `Outcome` instead of sorting the caller's dictionary in place.
- Picker.AddScenes: builds the new dictionary with a loop over values and assigns it once. The settings' list objects are not aliased.
- The editors' foldout state lists and the user-interface code around the structural-change test are not part of this model.

## Findings

| source | as written | input that shows it | evidently intended | confidence | as-written member | corrected member |
|---|---|---|---|---|---|---|
| Runtime/EasyResolutions/Comparer/EasyResolutions_Comparer.cs:209-229 | when the two aspect ratios are not nearly equal, a candidate whose ratio is near the target's goes first, even when the other's is near the target's too | epsilon 0.008, target 1920x1080, aspect stage first: 1700x960 vs 1785x1000 gives -1 in both argument orders | two candidates both near the target aspect are passed on to the next stage, so the comparer is antisymmetric as the list sort requires | not executed | Comparison.CompareNotAntisymmetric | Comparison.CompareCorrectedAntisymmetric |
