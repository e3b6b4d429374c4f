/** The two kinds of parsed name the picker chooses among: a free string with
    an optional extension (`ParsedString`), and a scene path as recorded in
    the build settings (`ParsedScenePath`). Both expose a group, a value, an
    extension and a size. */
module ParsedStrings {
  import opened Common
  import opened Text
  import opened StringExtensions

  datatype Parsed =
    | ParsedString(group: string, value: string, width: int, height: int, extension: string)
    | ParsedScenePath(index: int, fullPath: string, nameWithoutExtension: string,
                      groupPath: string, pathWithoutExtension: string, width: int, height: int)
  {
    /** The group the name belongs to; for a scene, its folder and group name. */
    function Group(): string {
      if ParsedString? then group else groupPath
    }

    /** The name itself; for a scene, its path without `.unity`. */
    function Value(): string {
      if ParsedString? then value else pathWithoutExtension
    }

    function Extension(): string {
      if ParsedString? then extension else "unity"
    }

    function Size(): Resolution {
      Resolution(width, height)
    }
  }

  /** The extension a `ParsedString` reports: none, or the given one without
      its leading dots. */
  function TrimmedExtension(extension: string): string {
    if extension == "" then "" else TrimStart(extension, '.')
  }

  /** What the value ends with: nothing, or a dot and the trimmed extension. */
  function ExtensionSuffix(extension: string): string {
    if extension == "" then "" else "." + TrimStart(extension, '.')
  }

  /** The value and the part of it that is parsed for a resolution. */
  datatype ValueParts = ValueParts(value: string, stem: string)

  /** `value` with slashes normalised and the extension appended when the
      given value does not already end with it; the stem is the value without
      that extension. The test for the extension is made on the value as
      given, before the slashes are normalised. */
  function SplitValue(value: string, extension: string): (r: ValueParts)
    ensures |r.stem| <= |r.value|
  {
    var sanitized := Replace(value, '\\', '/');
    if extension == "" then ValueParts(sanitized, sanitized)
    else
      var extensionWithDot := ExtensionSuffix(extension);
      if EndsWith(value, extensionWithDot) then
        ValueParts(sanitized, sanitized[..|sanitized| - |extensionWithDot|])
      else
        ValueParts(sanitized + extensionWithDot, sanitized)
  }

  /** The `ParsedString` constructor. */
  function NewParsedString(value: string, extension: string): (r: Parsed)
    ensures r.ParsedString?
    ensures r.Extension() == TrimmedExtension(extension)
  {
    var parts := SplitValue(value, extension);
    var parsed := ParseResolution(parts.stem);
    ParsedString(parsed.group, parts.value, parsed.width, parsed.height, TrimmedExtension(extension))
  }

  /** The value is the given one with '\' turned into '/', and with the
      extension added exactly when it was missing. */
  lemma ParsedStringValue(value: string, extension: string)
    ensures var suffix := ExtensionSuffix(extension);
            NewParsedString(value, extension).Value()
            == Replace(value, '\\', '/') + (if EndsWith(value, suffix) then "" else suffix)
  {
    var suffix := ExtensionSuffix(extension);
    if extension == "" {
      assert EndsWith(value, suffix);
    }
  }

  /** A suffix of a string without '\' has none either. */
  lemma SuffixWithoutBackslash(s: string, t: string)
    requires '\\' !in s
    requires |t| <= |s| && t == s[|s| - |t|..]
    ensures '\\' !in t
  {
    forall i | 0 <= i < |t|
      ensures t[i] != '\\'
    {
      assert t[i] == s[|s| - |t| + i];
    }
  }

  lemma SuffixWithoutBackslashExt(extension: string)
    requires '\\' !in extension
    ensures '\\' !in ExtensionSuffix(extension)
  {
    if extension != "" {
      SuffixWithoutBackslash(extension, TrimStart(extension, '.'));
    }
  }

  /** When the extension has no '\', the value is the stem followed by the
      extension, and neither holds a '\'. */
  lemma SplitValueParts(value: string, extension: string)
    requires '\\' !in extension
    ensures var p := SplitValue(value, extension);
            && p.value == p.stem + ExtensionSuffix(extension)
            && '\\' !in p.value
  {
    var sanitized := Replace(value, '\\', '/');
    var suffix := ExtensionSuffix(extension);
    var p := SplitValue(value, extension);
    SuffixWithoutBackslashExt(extension);
    if extension == "" {
      assert p.value == p.stem + suffix;
    } else if EndsWith(value, suffix) {
      var n := |value| - |suffix|;
      assert value == value[..n] + suffix;
      ReplaceAppend(value[..n], suffix, '\\', '/');
      ReplaceAbsent(suffix, '\\', '/');
      assert sanitized == Replace(value[..n], '\\', '/') + suffix;
      assert p.stem == Replace(value[..n], '\\', '/');
    } else {
      assert '\\' !in p.value by {
        assert p.value == sanitized + suffix;
      }
    }
  }

  /** What the parsed group and size mean: the value is a stem followed by
      the extension, and group and size are the resolution read off that stem
      (the group is the value minus the extension minus `WxH`). */
  lemma ParsedStringFields(value: string, extension: string)
    requires '\\' !in extension
    ensures var r := NewParsedString(value, extension);
            var suffix := ExtensionSuffix(extension);
            && EndsWith(r.Value(), suffix)
            && var stem := r.Value()[..|r.Value()| - |suffix|];
            && ParseResolution(stem) == NameResolution(r.Group(), r.width, r.height)
            && '\\' !in r.Value()
  {
    var p := SplitValue(value, extension);
    SplitValueParts(value, extension);
    var suffix := ExtensionSuffix(extension);
    EndsWithAppended(p.stem, suffix);
    assert p.value[..|p.value| - |suffix|] == p.stem;
  }

  /** Parsing a value once more with the same extension changes nothing. */
  lemma NewParsedStringIdempotent(value: string, extension: string)
    requires '\\' !in extension
    ensures var r := NewParsedString(value, extension);
            NewParsedString(r.Value(), extension) == r
  {
    var p := SplitValue(value, extension);
    SplitValueParts(value, extension);
    var suffix := ExtensionSuffix(extension);
    ReplaceAbsent(p.value, '\\', '/');
    EndsWithAppended(p.stem, suffix);
    assert SplitValue(p.value, extension).stem == p.stem by {
      assert p.value[..|p.value| - |suffix|] == p.stem;
    }
  }

  /** A name written as `group.WxH` with the extension after it parses back
      to that group and size. */
  lemma NewParsedStringRoundTrip(group: string, width: int, height: int, extension: string)
    requires IsInt32(width) && IsInt32(height)
    requires '\\' !in group && '\\' !in extension
    ensures var name := group + "." + IntToString(width) + "x" + IntToString(height);
            NewParsedString(name + ExtensionSuffix(extension), extension)
            == ParsedString(group, name + ExtensionSuffix(extension), width, height, TrimmedExtension(extension))
  {
    var name := group + "." + IntToString(width) + "x" + IntToString(height);
    var suffix := ExtensionSuffix(extension);
    var value := name + suffix;
    IntToStringChars(width, '\\');
    IntToStringChars(height, '\\');
    SuffixWithoutBackslashExt(extension);
    assert '\\' !in value;
    ReplaceAbsent(value, '\\', '/');
    EndsWithAppended(name, suffix);
    assert SplitValue(value, extension) == ValueParts(value, name) by {
      assert value[..|value| - |suffix|] == name;
    }
    ParseResolutionRoundTrip(group, width, height);
  }

  /** The `ParsedScenePath` constructor: the fields of `PrepareSceneData`. */
  function NewParsedScenePath(scenePath: string, sceneIndex: int := -1): (r: Parsed)
    ensures r.ParsedScenePath? && r.index == sceneIndex
    ensures r.Extension() == "unity"
  {
    var d := PrepareSceneData(scenePath, sceneIndex);
    ParsedScenePath(d.index, d.fullPath, d.nameWithoutExtension, d.groupPath,
                    d.pathWithoutExtension, d.width, d.height)
  }

  /** Building a scene path again from its own full path changes nothing. */
  lemma NewParsedScenePathIdempotent(scenePath: string, sceneIndex: int)
    ensures var r := NewParsedScenePath(scenePath, sceneIndex);
            NewParsedScenePath(r.fullPath, sceneIndex) == r
  {
    var full := PrepareSceneData(scenePath, sceneIndex).fullPath;
    PrepareSceneDataPaths(scenePath, sceneIndex);
    ReplaceAbsent(full, '\\', '/');
    assert WithSceneExtension(Replace(full, '\\', '/')) == full;
  }

  /** A path under `Assets/` that already has the scene extension and no '\'
      is kept as it is, and only `Assets/` is dropped before it is split. */
  lemma AssetsScenePath(runtime: string, path: string, index: int)
    requires '\\' !in runtime
    requires path == "Assets/" + runtime + ".unity"
    ensures EndsWith(runtime + ".unity", ".unity")
    ensures PrepareSceneData(path, index)
            == SceneEntry(index == 0, path, index, SplitRuntimePath(runtime + ".unity"))
  {
    assert '\\' !in path;
    ReplaceAbsent(path, '\\', '/');
    AssetsPathParts(runtime, path);
  }

  lemma AssetsPathParts(runtime: string, path: string)
    requires path == "Assets/" + runtime + ".unity"
    ensures EndsWith(runtime + ".unity", ".unity")
    ensures WithSceneExtension(path) == path
    ensures RuntimePath(path) == runtime + ".unity"
  {
    assert path == ("Assets/" + runtime) + ".unity";
    EndsWithAppended("Assets/" + runtime, ".unity");
    EndsWithAppended(runtime, ".unity");
    assert path[..|"Assets/"|] == "Assets/";
    assert path[|"Assets/"|..] == runtime + ".unity";
  }

  /** A runtime path made of a folder and a name without '/' is split back
      into that folder and name. */
  lemma SplitFolderAndName(folder: string, name: string)
    requires folder == "" || folder[|folder| - 1] == '/'
    requires '/' !in name
    ensures EndsWith(folder + name + ".unity", ".unity")
    ensures SplitRuntimePath(folder + name + ".unity") == PathParts(folder + name, name, folder)
  {
    var runtime := folder + name + ".unity";
    EndsWithAppended(folder + name, ".unity");
    var parts := SplitRuntimePath(runtime);
    SplitRuntimePathParts(runtime);
    assert parts.pathWithoutExtension == folder + name by {
      assert runtime[..|runtime| - 6] == folder + name;
      assert parts.pathWithoutExtension == runtime[..|runtime| - 6];
    }
    FolderSplitUnique(folder, name, parts.pathOnly, parts.nameWithoutExtension);
  }

  /** The scene data of `Assets/<folder><name>.unity`, before the name is
      parsed for a resolution. */
  lemma AssetsSceneData(folder: string, name: string, path: string, index: int)
    requires folder == "" || folder[|folder| - 1] == '/'
    requires '/' !in name && '\\' !in name && '\\' !in folder
    requires path == "Assets/" + (folder + name) + ".unity"
    ensures PrepareSceneData(path, index)
            == SceneEntry(index == 0, path, index, PathParts(folder + name, name, folder))
  {
    AssetsScenePath(folder + name, path, index);
    SplitFolderAndName(folder, name);
  }

  /** A scene saved as `Assets/<folder><group>.<W>x<H>.unity` is read back as
      group `<folder><group>` with that size, and its value is the path
      without `Assets/` and without the extension. */
  lemma NewParsedScenePathRoundTrip(folder: string, group: string, width: int, height: int, index: int)
    requires IsInt32(width) && IsInt32(height)
    requires folder == "" || folder[|folder| - 1] == '/'
    requires '\\' !in folder && '\\' !in group && '/' !in group
    ensures var name := group + "." + IntToString(width) + "x" + IntToString(height);
            var r := NewParsedScenePath("Assets/" + folder + name + ".unity", index);
            && r.Group() == folder + group
            && r.Size() == Resolution(width, height)
            && r.Value() == folder + name
            && r.nameWithoutExtension == name
  {
    var name := group + "." + IntToString(width) + "x" + IntToString(height);
    var path := "Assets/" + folder + name + ".unity";
    assert path == "Assets/" + (folder + name) + ".unity";
    ResolutionSceneData(folder, group, name, path, width, height, index);
    assert NewParsedScenePath(path, index)
        == ParsedScenePath(index, path, name, folder + group, folder + name, width, height);
  }

  /** The scene data of `Assets/<folder><group>.<W>x<H>.unity`, field by field. */
  lemma ResolutionSceneData(folder: string, group: string, name: string, path: string,
                            width: int, height: int, index: int)
    requires IsInt32(width) && IsInt32(height)
    requires folder == "" || folder[|folder| - 1] == '/'
    requires '\\' !in folder && '\\' !in group && '/' !in group
    requires name == group + "." + IntToString(width) + "x" + IntToString(height)
    requires path == "Assets/" + (folder + name) + ".unity"
    ensures PrepareSceneData(path, index)
            == SceneData(index == 0, path, name, index, folder + name, folder + group, width, height)
  {
    ResolutionNameChars(group, width, height);
    AssetsSceneData(folder, name, path, index);
    ParseResolutionRoundTrip(group, width, height);
  }

  /** `group.WxH` holds a '/' or a '\' only where the group does. */
  lemma ResolutionNameChars(group: string, width: int, height: int)
    requires '\\' !in group && '/' !in group
    ensures var name := group + "." + IntToString(width) + "x" + IntToString(height);
            '/' !in name && '\\' !in name
  {
    IntToStringChars(width, '\\');
    IntToStringChars(height, '\\');
    IntToStringChars(width, '/');
    IntToStringChars(height, '/');
  }

  /** A '/' in a folder prefix (empty or ending in '/') followed by a name
      without '/' lies inside the prefix. */
  lemma SlashInFolder(folder: string, name: string, k: nat)
    requires folder == "" || folder[|folder| - 1] == '/'
    requires '/' !in name
    requires k < |folder + name| && (folder + name)[k] == '/'
    ensures k < |folder|
  {
  }

  /** A folder prefix (empty or ending in '/') followed by a name without
      '/' can be split in one way only. */
  lemma FolderSplitUnique(folder: string, name: string, folder': string, name': string)
    requires folder == "" || folder[|folder| - 1] == '/'
    requires folder' == "" || folder'[|folder'| - 1] == '/'
    requires '/' !in name && '/' !in name'
    requires folder + name == folder' + name'
    ensures folder == folder' && name == name'
  {
    var s := folder + name;
    if folder' != "" {
      assert s[|folder'| - 1] == folder'[|folder'| - 1];
      SlashInFolder(folder, name, |folder'| - 1);
    }
    if folder != "" {
      assert s[|folder| - 1] == folder[|folder| - 1];
      SlashInFolder(folder', name', |folder| - 1);
    }
    assert folder == s[..|folder|] == folder';
  }

  // ---------------------------------------------------------------------
  // The parsing examples documented on `ParsedString`
  // ---------------------------------------------------------------------

  /** An extension without a leading dot is kept as given. */
  lemma PlainExtension(ext: string)
    requires ext != "" && ext[0] != '.'
    ensures TrimmedExtension(ext) == ext && ExtensionSuffix(ext) == "." + ext
  {
    assert TrimStart(ext, '.') == ext;
  }

  /** A stem without '\' and without the extension gains it. */
  lemma ParsedStringAppends(stem: string, ext: string)
    requires '\\' !in stem && ext != "" && ext[0] != '.'
    requires !EndsWith(stem, "." + ext)
    ensures var p := ParseResolution(stem);
            NewParsedString(stem, ext) == ParsedString(p.group, stem + "." + ext, p.width, p.height, ext)
  {
    PlainExtension(ext);
    ReplaceAbsent(stem, '\\', '/');
    assert SplitValue(stem, ext) == ValueParts(stem + ("." + ext), stem);
    assert stem + ("." + ext) == stem + "." + ext;
  }

  /** A value without '\' that already ends with the extension keeps it. */
  lemma ParsedStringKeeps(stem: string, ext: string)
    requires '\\' !in stem && '\\' !in ext && ext != "" && ext[0] != '.'
    ensures var p := ParseResolution(stem);
            NewParsedString(stem + "." + ext, ext) == ParsedString(p.group, stem + "." + ext, p.width, p.height, ext)
  {
    PlainExtension(ext);
    var value := stem + ("." + ext);
    assert value == stem + "." + ext;
    assert '\\' !in value;
    ReplaceAbsent(value, '\\', '/');
    EndsWithAppended(stem, "." + ext);
    assert value[..|value| - |"." + ext|] == stem;
  }

  /** Without an extension a value without '\' is parsed whole. */
  lemma ParsedStringWhole(value: string)
    requires '\\' !in value
    ensures var p := ParseResolution(value);
            NewParsedString(value, "") == ParsedString(p.group, value, p.width, p.height, "")
  {
    ReplaceAbsent(value, '\\', '/');
  }

  /** A last token `txt` is not a resolution: it splits on 'x' into two
      pieces, but neither is an integer. */
  lemma TxtIsNoResolution()
    ensures ResolutionToken("txt") == None
  {
    assert "txt" == "t" + ['x'] + "t";
    LastIndexOfAround("t", 'x', "t");
    ResolutionTokenByIndex("txt");
    assert "txt"[..1] == "t";
  }

  /** A name ending in `.txt` has no resolution and is its own group. */
  lemma TxtNameNoResolution(stem: string)
    ensures ParseResolution(stem + ".txt") == NoResolution(stem + ".txt")
  {
    var name := stem + ".txt";
    assert name == stem + ['.'] + "txt";
    LastIndexOfAround(stem, '.', "txt");
    assert name[|stem| + 1..] == "txt";
    ParseResolutionByLastDot(name);
    TxtIsNoResolution();
  }

  /** `group.WxH` with an extension it lacks gains the extension and keeps
      group and size, as `abc.1366x768` with `txt` does. */
  lemma ParsedStringResolutionAppends(group: string, width: int, height: int, ext: string)
    requires IsInt32(width) && IsInt32(height)
    requires '\\' !in group && ext != "" && ext[0] != '.'
    requires !EndsWith(group + "." + IntToString(width) + "x" + IntToString(height), "." + ext)
    ensures var name := group + "." + IntToString(width) + "x" + IntToString(height);
            NewParsedString(name, ext) == ParsedString(group, name + "." + ext, width, height, ext)
  {
    var name := group + "." + IntToString(width) + "x" + IntToString(height);
    ResolutionNameBackslash(group, width, height);
    ParseResolutionRoundTrip(group, width, height);
    ParsedStringAppends(name, ext);
  }

  /** `group.WxH.ext` with that extension is group `group` at W x H, as
      `abc.1366x768.txt` with `txt` is. */
  lemma ParsedStringResolutionKept(group: string, width: int, height: int, ext: string)
    requires IsInt32(width) && IsInt32(height)
    requires '\\' !in group && '\\' !in ext && ext != "" && ext[0] != '.'
    ensures var name := group + "." + IntToString(width) + "x" + IntToString(height);
            NewParsedString(name + "." + ext, ext) == ParsedString(group, name + "." + ext, width, height, ext)
  {
    var name := group + "." + IntToString(width) + "x" + IntToString(height);
    ResolutionNameBackslash(group, width, height);
    ParseResolutionRoundTrip(group, width, height);
    ParsedStringKeeps(name, ext);
  }

  lemma ResolutionNameBackslash(group: string, width: int, height: int)
    requires '\\' !in group
    ensures '\\' !in group + "." + IntToString(width) + "x" + IntToString(height)
  {
    IntToStringChars(width, '\\');
    IntToStringChars(height, '\\');
  }

  /** Without an extension, a name whose last token is `txt` is not read as
      a resolution even when a `WxH` token precedes it, as for
      `abc.1366x768.txt`: it is its own group with -1 x -1. */
  lemma ParsedStringTxtWhole(stem: string)
    requires '\\' !in stem
    ensures NewParsedString(stem + ".txt", "") == ParsedString(stem + ".txt", stem + ".txt", -1, -1, "")
  {
    TxtNameNoResolution(stem);
    ParsedStringWhole(stem + ".txt");
  }

  /** A name that holds no resolution, given an extension it lacks, gets
      the extension appended and stays its own group with -1 x -1. */
  lemma ParsedStringNoResolutionAppends(name: string, ext: string)
    requires '\\' !in name && ext != "" && ext[0] != '.'
    requires !EndsWith(name, "." + ext)
    requires ParseResolution(name) == NoResolution(name)
    ensures NewParsedString(name, ext) == ParsedString(name, name + "." + ext, -1, -1, ext)
  {
    ParsedStringAppends(name, ext);
  }

  /** A name ending in `.txt` given the extension `png` gets `.png` appended
      and has no resolution, as `abc.txt` does. */
  lemma ParsedStringTxtPng(stem: string)
    requires '\\' !in stem
    ensures NewParsedString(stem + ".txt", "png")
            == ParsedString(stem + ".txt", stem + ".txt" + "." + "png", -1, -1, "png")
  {
    var name, ext := stem + ".txt", "png";
    TxtNameNoResolution(stem);
    assert name[|name| - 1] != ext[|ext| - 1];
    ParsedStringNoResolutionAppends(name, ext);
  }
}
