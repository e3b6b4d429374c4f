/** `StringExtensions`: the naming convention `group.WxH[.ext]`.
    `ParseResolution` reads a trailing `.WxH` token off a name, and
    `PrepareSceneData` turns a scene path into the pieces a scene entry
    stores (full asset path, runtime path without extension, group path
    and resolution). */
module StringExtensions {
  import opened Common
  import opened Text

  /** The result of `ParseResolution`: the returned group name and the two
      `out` parameters. */
  datatype NameResolution = NameResolution(group: string, width: int, height: int)

  /** `PrepareNoResolution`: the name unchanged, and -1 for both sizes. */
  function NoResolution(name: string): NameResolution {
    NameResolution(name, -1, -1)
  }

  /** Splits off a trailing `.WxH` token: the text after the last '.' must
      split on 'x' into exactly two integers; then the group is the text
      before that '.', otherwise the name comes back unchanged with -1 x -1. */
  function ParseResolution(name: string): (r: NameResolution)
    ensures r.group == name ==> r == NoResolution(name)
    ensures r.group != name ==> StartsWith(name, r.group + ".") && IsInt32(r.width) && IsInt32(r.height)
  {
    var nameTokens := Split(name, '.');
    if |nameTokens| <= 1 then NoResolution(name)
    else
      JoinAllButLast(name, '.');
      var k := LastIndexOf(name, '.');
      DotPrefix(name, k);
      WithGroup(name, Join('.', nameTokens[..|nameTokens| - 1]), ResolutionToken(nameTokens[|nameTokens| - 1]))
  }

  /** The group and the sizes when a resolution was read, otherwise the
      whole name with -1 x -1. */
  function WithGroup(name: string, group: string, resolution: Option<Resolution>): NameResolution {
    match resolution
    case Some(res) => NameResolution(group, res.width, res.height)
    case None => NoResolution(name)
  }

  /** The text before a '.' followed by the '.' starts the string. */
  lemma DotPrefix(name: string, k: int)
    requires 0 <= k < |name| && name[k] == '.'
    ensures StartsWith(name, name[..k] + ".") && |name[..k]| < |name|
  {
    assert name[..k + 1] == name[..k] + ".";
  }

  /** The `WxH` reading of one token: it must split on 'x' into exactly two
      pieces, each an integer. */
  function ResolutionToken(token: string): (r: Option<Resolution>)
    ensures r.Some? ==> 'x' in token && IsInt32(r.value.width) && IsInt32(r.value.height)
  {
    SplitSingle(token, 'x');
    var resolutionTokens := Split(token, 'x');
    if |resolutionTokens| != 2 then None
    else
      var width := TryParse(resolutionTokens[0]);
      var height := TryParse(resolutionTokens[1]);
      if width.None? || height.None? then None
      else Some(Resolution(width.value, height.value))
  }

  /** A token holds a resolution exactly when it has one 'x' with an integer
      on each side, and then those are the width and the height. */
  lemma ResolutionTokenByIndex(token: string)
    ensures var m := LastIndexOf(token, 'x');
            ResolutionToken(token).Some?
            <==> (m >= 0 && 'x' !in token[..m]
                  && TryParse(token[..m]).Some? && TryParse(token[m + 1..]).Some?)
    ensures var m := LastIndexOf(token, 'x');
            ResolutionToken(token).Some? ==>
              ResolutionToken(token).value
              == Resolution(TryParse(token[..m]).value, TryParse(token[m + 1..]).value)
  {
    SplitInTwo(token, 'x');
  }

  /** A name without '.' has no resolution and is its own group. */
  lemma ParseResolutionNoDot(name: string)
    requires '.' !in name
    ensures ParseResolution(name) == NoResolution(name)
  {
    SplitSingle(name, '.');
  }

  /** `ParseResolution` looks only at the text after the last '.', and when
      that is a resolution the group is exactly the text before it. */
  lemma ParseResolutionByLastDot(name: string)
    requires '.' in name
    ensures var k := LastIndexOf(name, '.');
            ParseResolution(name) == WithGroup(name, name[..k], ResolutionToken(name[k + 1..]))
  {
    var k := LastIndexOf(name, '.');
    var tokens := Split(name, '.');
    assert |tokens| >= 2 by {
      SplitSingle(name, '.');
    }
    assert Join('.', tokens[..|tokens| - 1]) == name[..k] && tokens[|tokens| - 1] == name[k + 1..] by {
      JoinAllButLast(name, '.');
    }
  }

  /** A written `WxH` token reads back as the same resolution. */
  lemma ResolutionTokenRoundTrip(width: int, height: int)
    requires IsInt32(width) && IsInt32(height)
    ensures ResolutionToken(IntToString(width) + "x" + IntToString(height)) == Some(Resolution(width, height))
  {
    var w, h := IntToString(width), IntToString(height);
    var token := w + "x" + h;
    IntToStringChars(width, 'x');
    IntToStringChars(height, 'x');
    assert token == w + ['x'] + h;
    LastIndexOfAround(w, 'x', h);
    assert token[..|w|] == w && token[|w| + 1..] == h;
    TryParseIntToString(width);
    TryParseIntToString(height);
    ResolutionTokenByIndex(token);
  }

  /** Writing a resolution after a group and parsing it back gives both back. */
  lemma ParseResolutionRoundTrip(group: string, width: int, height: int)
    requires IsInt32(width) && IsInt32(height)
    ensures ParseResolution(group + "." + IntToString(width) + "x" + IntToString(height))
            == NameResolution(group, width, height)
  {
    var token := IntToString(width) + "x" + IntToString(height);
    var name := group + "." + token;
    assert name == group + "." + IntToString(width) + "x" + IntToString(height);
    assert '.' !in token by {
      IntToStringChars(width, '.');
      IntToStringChars(height, '.');
    }
    assert name == group + ['.'] + token;
    LastIndexOfAround(group, '.', token);
    assert name[|group| + 1..] == token && name[..|group|] == group;
    ResolutionTokenRoundTrip(width, height);
    ParseResolutionByLastDot(name);
  }

  /** The tuple `PrepareSceneData` returns. */
  datatype SceneData = SceneData(
    isFirst: bool, fullPath: string, nameWithoutExtension: string,
    index: int, pathWithoutExtension: string,
    groupPath: string, width: int, height: int)

  /** Adds `.unity` unless the path already ends with it. */
  function WithSceneExtension(p: string): (r: string)
    ensures EndsWith(r, ".unity")
    ensures r == p || (!EndsWith(p, ".unity") && r == p + ".unity")
  {
    if EndsWith(p, ".unity") then p
    else
      EndsWithAppended(p, ".unity");
      p + ".unity"
  }

  /** The path as the runtime loads it: the full path without `Assets/`. */
  function RuntimePath(fullPath: string): (r: string)
    ensures StartsWith(fullPath, "Assets/") ==> fullPath == "Assets/" + r
    ensures !StartsWith(fullPath, "Assets/") ==> r == fullPath
  {
    if StartsWith(fullPath, "Assets/") then fullPath[|"Assets/"|..] else fullPath
  }

  /** Dropping `Assets/` keeps the `.unity` suffix. */
  lemma RuntimePathKeepsSuffix(fullPath: string)
    requires EndsWith(fullPath, ".unity")
    ensures EndsWith(RuntimePath(fullPath), ".unity")
  {
    if StartsWith(fullPath, "Assets/") {
      var n := |fullPath|;
      assert fullPath[n - 6] == '.';
      assert forall i :: 0 <= i < 7 ==> fullPath[i] == "Assets/"[i] != '.';
      assert fullPath[7..][n - 7 - 6..] == fullPath[n - 6..];
    }
  }

  /** In a path ending with `.unity`, the last '.' is the one of the suffix,
      and the last '/' (if any) comes before it. */
  lemma ScenePathSeparators(p: string)
    requires EndsWith(p, ".unity")
    ensures LastIndexOf(p, '.') == |p| - 6
    ensures LastIndexOf(p, '/') < |p| - 6
  {
    var n := |p|;
    var suffix := p[n - 6..];
    assert suffix == ".unity";
    assert p == p[..n - 6] + suffix;
    SuffixSeparators(p[..n - 6]);
  }

  lemma SuffixSeparators(stem: string)
    ensures LastIndexOf(stem + ".unity", '.') == |stem|
    ensures LastIndexOf(stem + ".unity", '/') < |stem|
  {
    assert stem + ".unity" == stem + ['.'] + "unity";
    LastIndexOfAround(stem, '.', "unity");
    assert '/' !in ".unity";
    LastIndexOfAppend(stem, ".unity", '/');
  }

  /** Normalises a scene path: '/' separators and one `.unity` suffix; the
      runtime path is cut into folder, name and extension, and the group
      path is the folder followed by the group read off the name. */
  function PrepareSceneData(path: string, index: int := -1): (r: SceneData)
    ensures r.isFirst <==> index == 0
    ensures r.index == index
  {
    var isFirst := index == 0;
    var fullPath := WithSceneExtension(Replace(path, '\\', '/'));
    RuntimePathKeepsSuffix(fullPath);
    SceneEntry(isFirst, fullPath, index, SplitRuntimePath(RuntimePath(fullPath)))
  }

  /** The entry built from the pieces of the runtime path: the group path is
      the folder followed by the group read off the name. */
  function SceneEntry(isFirst: bool, fullPath: string, index: int, parts: PathParts): (r: SceneData)
    ensures r.isFirst == isFirst && r.index == index
  {
    var parsed := ParseResolution(parts.nameWithoutExtension);
    SceneData(isFirst, fullPath, parts.nameWithoutExtension, index, parts.pathWithoutExtension,
              parts.pathOnly + parsed.group, parsed.width, parsed.height)
  }

  /** The pieces of a runtime path: without its extension, its last segment,
      and the folder part before that segment. */
  datatype PathParts = PathParts(pathWithoutExtension: string, nameWithoutExtension: string, pathOnly: string)

  function SplitRuntimePath(runtimePath: string): PathParts
    requires EndsWith(runtimePath, ".unity")
  {
    ScenePathSeparators(runtimePath);
    var lastDotIndex := LastIndexOf(runtimePath, '.');
    var pathWithoutExtension := runtimePath[..lastDotIndex];
    var lastSlashIndex := LastIndexOf(runtimePath, '/');
    var nameWithoutExtension := pathWithoutExtension[lastSlashIndex + 1..];
    var pathOnly := runtimePath[..lastSlashIndex + 1];
    PathParts(pathWithoutExtension, nameWithoutExtension, pathOnly)
  }

  /** The path without extension is the folder part (empty or ending with
      '/') followed by a name without '/'. */
  predicate PartsConsistent(p: PathParts) {
    && p.pathWithoutExtension == p.pathOnly + p.nameWithoutExtension
    && (p.pathOnly == "" || p.pathOnly[|p.pathOnly| - 1] == '/')
    && '/' !in p.nameWithoutExtension
  }

  /** The pieces of a runtime path fit together, and the path without
      extension is the runtime path less `.unity`. */
  lemma SplitRuntimePathParts(runtimePath: string)
    requires EndsWith(runtimePath, ".unity")
    ensures PartsConsistent(SplitRuntimePath(runtimePath))
    ensures SplitRuntimePath(runtimePath).pathWithoutExtension + ".unity" == runtimePath
  {
    ScenePathSeparators(runtimePath);
    var n, k := |runtimePath|, LastIndexOf(runtimePath, '/');
    var p := SplitRuntimePath(runtimePath);
    assert p == PathParts(runtimePath[..n - 6], runtimePath[..n - 6][k + 1..], runtimePath[..k + 1]);
    SliceParts(runtimePath, n - 6);
    SliceParts(runtimePath[..n - 6], k + 1);
    assert runtimePath[..n - 6][..k + 1] == runtimePath[..k + 1];
    NothingAfterLast(runtimePath[..n - 6], '/', k);
  }

  /** A sequence is its prefix followed by the rest. */
  lemma SliceParts(s: string, i: nat)
    requires i <= |s|
    ensures s == s[..i] + s[i..]
  {
  }

  /** After the last `c` below `n`, no `c` remains below `n`. */
  lemma NothingAfterLast(s: string, c: char, k: int)
    requires -1 <= k < |s|
    requires forall i :: k < i < |s| ==> s[i] != c
    ensures c !in s[k + 1..]
  {
    var rest := s[k + 1..];
    forall j | 0 <= j < |rest|
      ensures rest[j] != c
    {
      assert rest[j] == s[k + 1 + j];
    }
  }

  /** The slashed path with its suffix has no '\\' left. */
  lemma SlashedScenePath(path: string)
    ensures '\\' !in WithSceneExtension(Replace(path, '\\', '/'))
  {
  }

  /** The full path has no '\\', ends with `.unity` and differs from the
      given path only by separators and an added suffix; the path without
      extension plus `.unity` is the runtime path. */
  lemma PrepareSceneDataPaths(path: string, index: int)
    ensures var r := PrepareSceneData(path, index);
            var slashed := Replace(path, '\\', '/');
            && '\\' !in r.fullPath
            && EndsWith(r.fullPath, ".unity")
            && (r.fullPath == slashed || (!EndsWith(slashed, ".unity") && r.fullPath == slashed + ".unity"))
            && r.pathWithoutExtension + ".unity" == RuntimePath(r.fullPath)
  {
    SlashedScenePath(path);
    var r := PrepareSceneData(path, index);
    RuntimePathKeepsSuffix(r.fullPath);
    SplitRuntimePathParts(RuntimePath(r.fullPath));
  }

  /** How the name, the group path and the sizes of a scene entry relate:
      the name is the last segment of the path without extension and has no
      '/'; the group path is the folder part before it (empty or ending with
      '/') followed by the group `ParseResolution` reads off the name, and
      the sizes are the ones it reads. */
  predicate NameConsistent(r: SceneData) {
    var name := r.nameWithoutExtension;
    && '/' !in name
    && EndsWith(r.pathWithoutExtension, name)
    && var folder := r.pathWithoutExtension[..|r.pathWithoutExtension| - |name|];
    && (folder == "" || folder[|folder| - 1] == '/')
    && r.groupPath == folder + ParseResolution(name).group
    && r.width == ParseResolution(name).width
    && r.height == ParseResolution(name).height
  }

  lemma PrepareSceneDataName(path: string, index: int)
    ensures NameConsistent(PrepareSceneData(path, index))
  {
    var fullPath := WithSceneExtension(Replace(path, '\\', '/'));
    RuntimePathKeepsSuffix(fullPath);
    var parts := SplitRuntimePath(RuntimePath(fullPath));
    SplitRuntimePathParts(RuntimePath(fullPath));
    SceneEntryName(index == 0, fullPath, index, parts);
  }

  lemma SceneEntryName(isFirst: bool, fullPath: string, index: int, parts: PathParts)
    requires PartsConsistent(parts)
    ensures NameConsistent(SceneEntry(isFirst, fullPath, index, parts))
  {
    var r := SceneEntry(isFirst, fullPath, index, parts);
    assert r.pathWithoutExtension[..|parts.pathOnly|] == parts.pathOnly;
    assert r.pathWithoutExtension[|parts.pathOnly|..] == parts.nameWithoutExtension;
  }
}
