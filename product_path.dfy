/** `get_product_json_path` of bypass_version.py: where the application's
    product.json lives on the running platform.

    The platform, the `LOCALAPPDATA` variable, the home directory and the two
    optional overrides from config.ini are inputs; the filesystem is seen only
    through the set of paths that exist. */
module ProductPath {
  import opened Wrappers

  type Path = string

  /** What `platform.system()` reports; `Other(name)` stands for every name
      other than "Windows", "Darwin" and "Linux". */
  datatype Platform = Windows | Darwin | Linux | Other(name: string)

  /** The parts of the environment the resolver reads. */
  datatype Host = Host(
    system: Platform,
    localAppData: Option<string>,       // os.environ.get("LOCALAPPDATA")
    windowsCursorPath: Option<string>,  // [WindowsPaths] cursor_path in config.ini
    macProductJsonPath: Option<string>, // [MacPaths] product_json_path in config.ini
    home: string)                       // the directory "~" expands to

  /** The OSError raised on each failing branch. */
  datatype PathError =
    | LocalAppDataMissing
    | UnsupportedOS(system: string)
    | NotInLinuxPaths
    | FileNotFound(path: Path)

  const ProductJson := "product.json"
  const WindowsRelative := ["Programs", "Cursor", "resources", "app", ProductJson]
  const MacDefault := "/Applications/Cursor.app/Contents/Resources/app/" + ProductJson
  const LinuxFixed := [
    "/opt/Cursor/resources/app/" + ProductJson,
    "/usr/share/cursor/resources/app/" + ProductJson,
    "/usr/lib/cursor/app/" + ProductJson
  ]
  const AppImageRest := "/squashfs-root/usr/share/cursor/resources/app/" + ProductJson

  predicate EndsWith(s: string, suffix: string) {
    |suffix| <= |s| && s[|s| - |suffix|..] == suffix
  }

  /** `os.path.join(dir, name)` for a relative `name`, with `/` as separator. */
  function Join(dir: Path, name: string): (p: Path)
    ensures EndsWith(p, name)
  {
    if dir == [] || dir[|dir| - 1] == '/' then dir + name else dir + "/" + name
  }

  /** `os.path.join(dir, *names)`. */
  function JoinAll(dir: Path, names: seq<string>): (p: Path)
    ensures |names| > 0 ==> EndsWith(p, names[|names| - 1])
    decreases |names|
  {
    if names == [] then dir else JoinAll(Join(dir, names[0]), names[1..])
  }

  /** `rstrip('/')` of the home directory, as posixpath.expanduser does. */
  function StripTrailingSlashes(s: string): (t: string)
    ensures |t| <= |s| && t == s[..|t|]
    ensures t == [] || t[|t| - 1] != '/'
    ensures forall k :: |t| <= k < |s| ==> s[k] == '/'
    decreases |s|
  {
    if s != [] && s[|s| - 1] == '/' then StripTrailingSlashes(s[..|s| - 1]) else s
  }

  /** `os.path.expanduser("~" + rest)` for a `rest` starting with `/`. */
  function ExpandHome(home: string, rest: string): (p: Path)
    ensures EndsWith(p, rest)
    ensures |p| <= |home| + |rest| && p[..|p| - |rest|] == home[..|p| - |rest|]
  {
    StripTrailingSlashes(home) + rest
  }

  /** The extracted-AppImage candidate under the home directory. */
  function AppImagePath(host: Host): Path {
    ExpandHome(host.home, AppImageRest)
  }

  /** `possible_paths` once the AppImage path has been appended when it exists. */
  function LinuxCandidates(host: Host, existing: set<Path>): (paths: seq<Path>)
    ensures |paths| >= 3 && paths[..3] == LinuxFixed
    ensures |paths| == if AppImagePath(host) in existing then 4 else 3
    ensures |paths| == 3 || paths[3] == AppImagePath(host)
  {
    if AppImagePath(host) in existing then LinuxFixed + [AppImagePath(host)] else LinuxFixed
  }

  /** The first of `paths` that exists: the for/else search. */
  function FirstExisting(paths: seq<Path>, existing: set<Path>): (r: Option<Path>)
    ensures r.Some? <==> exists k :: 0 <= k < |paths| && paths[k] in existing
    ensures r.Some? ==> exists k :: 0 <= k < |paths| && paths[k] == r.value && r.value in existing
                            && forall j :: 0 <= j < k ==> paths[j] !in existing
    decreases |paths|
  {
    if paths == [] then None
    else if paths[0] in existing then Some(paths[0])
    else
      var r := FirstExisting(paths[1..], existing);
      assert forall k :: 1 <= k < |paths| ==> paths[k] == paths[1..][k - 1];
      assert r.Some? ==> exists k :: 0 <= k < |paths| && paths[k] == r.value && r.value in existing
                            && forall j :: 0 <= j < k ==> paths[j] !in existing by {
        if r.Some? {
          var k :| 0 <= k < |paths[1..]| && paths[1..][k] == r.value && r.value in existing
                     && forall j :: 0 <= j < k ==> paths[1..][j] !in existing;
          assert paths[k + 1] == r.value;
          assert forall j :: 0 <= j < k + 1 ==> paths[j] !in existing by {
            forall j | 0 <= j < k + 1 ensures paths[j] !in existing {
              if j > 0 { assert paths[j] == paths[1..][j - 1]; }
            }
          }
        }
      }
      r
  }

  /** The path each branch settles on, before the final existence check. */
  function BranchPath(host: Host, existing: set<Path>): (r: Result<Path, PathError>)
    ensures r.Failure? ==> !r.error.FileNotFound?
    ensures host.system.Other? ==> r == Failure(UnsupportedOS(host.system.name))
    ensures r.Failure? && r.error.UnsupportedOS? ==> host.system.Other?
    ensures host.system.Windows? && r.Success? ==> EndsWith(r.value, ProductJson)
    ensures host.system.Linux? && r.Success? ==> r.value in existing
    ensures host.system.Windows? && r.Failure? ==> r.error == LocalAppDataMissing
    ensures host.system.Darwin? ==> r.Success?
    ensures host.system.Linux? && r.Failure? ==> r.error == NotInLinuxPaths
  {
    match host.system
    case Windows =>
      if !Truthy(host.localAppData) then Failure(LocalAppDataMissing)
      else if host.windowsCursorPath.Some? then Success(Join(host.windowsCursorPath.value, ProductJson))
      else Success(JoinAll(host.localAppData.value, WindowsRelative))
    case Darwin =>
      Success(if host.macProductJsonPath.Some? then host.macProductJsonPath.value else MacDefault)
    case Linux =>
      (match FirstExisting(LinuxCandidates(host, existing), existing)
       case None => Failure(NotInLinuxPaths)
       case Some(p) => Success(p))
    case Other(name) => Failure(UnsupportedOS(name))
  }

  /** `get_product_json_path`: the branch's path, provided it exists. */
  function ResolveProductJsonPath(host: Host, existing: set<Path>): (r: Result<Path, PathError>)
    ensures r.Success? ==> r.value in existing
  {
    match BranchPath(host, existing)
    case Failure(e) => Failure(e)
    case Success(p) => if p in existing then Success(p) else Failure(FileNotFound(p))
  }

  /** `get_product_json_path` as the source writes it. */
  method GetProductJsonPath(host: Host, existing: set<Path>) returns (r: Result<Path, PathError>)
    ensures r == ResolveProductJsonPath(host, existing)
  {
    var productJsonPath: Path;
    match host.system {
      case Windows =>
        var localAppData := host.localAppData;
        if localAppData.None? || localAppData.value == "" {
          return Failure(LocalAppDataMissing);
        }
        productJsonPath := JoinAll(localAppData.value, WindowsRelative);
        if host.windowsCursorPath.Some? {
          productJsonPath := Join(host.windowsCursorPath.value, ProductJson);
        }
      case Darwin =>
        productJsonPath := MacDefault;
        if host.macProductJsonPath.Some? {
          productJsonPath := host.macProductJsonPath.value;
        }
      case Linux =>
        var possiblePaths := LinuxFixed;
        var extracted := ExpandHome(host.home, AppImageRest);
        if extracted in existing {
          possiblePaths := possiblePaths + [extracted];
        }
        var found := false;
        productJsonPath := "";
        for i := 0 to |possiblePaths|
          invariant possiblePaths == LinuxCandidates(host, existing)
          invariant !found
          invariant FirstExisting(possiblePaths[i..], existing) == FirstExisting(possiblePaths, existing)
        {
          if possiblePaths[i] in existing {
            productJsonPath := possiblePaths[i];
            found := true;
            break;
          }
          assert possiblePaths[i..][1..] == possiblePaths[i + 1..];
        }
        if !found {
          return Failure(NotInLinuxPaths);
        }
      case Other(name) =>
        return Failure(UnsupportedOS(name));
    }
    if productJsonPath !in existing {
      return Failure(FileNotFound(productJsonPath));
    }
    return Success(productJsonPath);
  }

  // ---------------------------------------------------------------------------
  // What the resolver promises
  // ---------------------------------------------------------------------------

  /** Any platform other than Windows, macOS and Linux is refused by name. */
  lemma UnsupportedPlatform(host: Host, existing: set<Path>)
    requires host.system.Other?
    ensures ResolveProductJsonPath(host, existing) == Failure(UnsupportedOS(host.system.name))
  {
  }

  /** On Windows an absent or empty LOCALAPPDATA is an error, override or not. */
  lemma WindowsNeedsLocalAppData(host: Host, existing: set<Path>)
    requires host.system.Windows?
    ensures ResolveProductJsonPath(host, existing) == Failure(LocalAppDataMissing) <==> !Truthy(host.localAppData)
  {
  }

  /** On Windows the path is `cursor_path/product.json` with an override and
      `LOCALAPPDATA/Programs/Cursor/resources/app/product.json` without one, and
      it must exist. The file is always called product.json, and with an
      override LOCALAPPDATA's value no longer matters. */
  lemma WindowsOverride(host: Host, existing: set<Path>, otherLocalAppData: string)
    requires host.system.Windows? && Truthy(host.localAppData) && otherLocalAppData != ""
    ensures var p := if host.windowsCursorPath.Some? then Join(host.windowsCursorPath.value, ProductJson)
                     else JoinAll(host.localAppData.value, WindowsRelative);
            ResolveProductJsonPath(host, existing) == if p in existing then Success(p) else Failure(FileNotFound(p))
    ensures var r := ResolveProductJsonPath(host, existing);
            (r.Success? ==> EndsWith(r.value, ProductJson))
            && (host.windowsCursorPath.Some? ==>
                  r == ResolveProductJsonPath(host.(localAppData := Some(otherLocalAppData)), existing))
  {
  }

  /** On macOS an override replaces the whole default path. */
  lemma MacOverride(host: Host, existing: set<Path>)
    requires host.system.Darwin?
    ensures var p := if host.macProductJsonPath.Some? then host.macProductJsonPath.value else MacDefault;
            ResolveProductJsonPath(host, existing) == if p in existing then Success(p) else Failure(FileNotFound(p))
  {
  }

  /** On Linux the result is the first existing path, in the order /opt,
      /usr/share, /usr/lib and then the AppImage path; the AppImage path being
      appended only when it exists makes no difference to that search. */
  lemma LinuxFirstExisting(host: Host, existing: set<Path>)
    requires host.system.Linux?
    ensures var order := LinuxFixed + [AppImagePath(host)];
            var r := ResolveProductJsonPath(host, existing);
            (r.Failure? <==> forall k :: 0 <= k < |order| ==> order[k] !in existing)
            && (r.Failure? ==> r == Failure(NotInLinuxPaths))
            && (r.Success? ==> exists k :: 0 <= k < |order| && order[k] == r.value
                                  && forall j :: 0 <= j < k ==> order[j] !in existing)
  {
    var order := LinuxFixed + [AppImagePath(host)];
    var cands := LinuxCandidates(host, existing);
    var r := FirstExisting(cands, existing);
    assert forall k :: 0 <= k < |cands| ==> cands[k] == order[k];
    if r.Some? {
      var k :| 0 <= k < |cands| && cands[k] == r.value && r.value in existing
                 && forall j :: 0 <= j < k ==> cands[j] !in existing;
      assert order[k] == r.value;
    } else {
      assert forall k :: 0 <= k < |order| ==> order[k] !in existing by {
        forall k | 0 <= k < |order| ensures order[k] !in existing {
          if k < |cands| { assert cands[k] == order[k]; }
        }
      }
    }
  }

  // ---------------------------------------------------------------------------
  // Files that are not called product.json do not affect the result
  // ---------------------------------------------------------------------------

  lemma EndsWithAppend(a: string, b: string)
    ensures EndsWith(a + b, b)
  {
    assert (a + b)[|a + b| - |b|..] == b;
  }

  lemma {:induction false} FirstExistingIgnores(paths: seq<Path>, existing: set<Path>, x: Path)
    requires x !in paths
    ensures FirstExisting(paths, existing + {x}) == FirstExisting(paths, existing)
    decreases |paths|
  {
    if paths != [] {
      assert x !in paths[1..];
      FirstExistingIgnores(paths[1..], existing, x);
    }
  }

  /** Creating a file whose name is not product.json (a backup, say) never
      changes which path the resolver returns. */
  lemma ResolveIgnoresOtherFiles(host: Host, existing: set<Path>, x: Path)
    requires !EndsWith(x, ProductJson)
    requires ResolveProductJsonPath(host, existing).Success?
    ensures ResolveProductJsonPath(host, existing + {x}) == ResolveProductJsonPath(host, existing)
  {
    if host.system.Linux? {
      LinuxCandidatesIgnore(host, existing, x);
      FirstExistingIgnores(LinuxCandidates(host, existing), existing, x);
    }
  }

  /** The Linux candidate list does not depend on files not named product.json,
      and contains none of them. */
  lemma LinuxCandidatesIgnore(host: Host, existing: set<Path>, x: Path)
    requires !EndsWith(x, ProductJson)
    ensures LinuxCandidates(host, existing + {x}) == LinuxCandidates(host, existing)
    ensures x !in LinuxCandidates(host, existing)
  {
    EndsWithAppend(StripTrailingSlashes(host.home) + "/squashfs-root/usr/share/cursor/resources/app/", ProductJson);
    assert AppImagePath(host) != x;
    EndsWithAppend("/opt/Cursor/resources/app/", ProductJson);
    EndsWithAppend("/usr/share/cursor/resources/app/", ProductJson);
    EndsWithAppend("/usr/lib/cursor/app/", ProductJson);
  }
}
