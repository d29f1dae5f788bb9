# cursor-free-vip version bypass, modelled in Dafny

This project models `bypass_version.py` of cursor-free-vip. The script finds
the installed Cursor application's `product.json`, reads the version recorded
there and decides whether to rewrite it. If it does, it copies the file to a
timestamped backup and writes the document back with only its `"version"`
member changed. The model covers the three parts of that script that hold
logic:

- `Versions` (`versions.dfy`) is `compare_versions`. `CompareVersions` is the
  loop with early returns. It is proved equal to the recursive `CompareFrom`
  applied to `ParseVersion` of both strings, which splits on `.` and parses
  each piece.
- `ProductPath` (`product_path.dfy`) is `get_product_json_path`.
  `ResolveProductJsonPath` is the specification and `GetProductJsonPath` is
  the method with the branch assignments, the `append` of the AppImage path
  and the for/else search. The inputs are the platform, `LOCALAPPDATA`, the
  two `config.ini` overrides and the home directory. The filesystem is given
  as the set of paths that exist.
- `Bypass` (`bypass.dfy`) is `bypass_version`. `BypassVersion` is a method
  over a mutable `FileSystem.Disk` (`filesystem.dfy`). It is proved to end
  with the outcome and the disk state that the pure `BypassRun` gives for the
  disk before the call. The lemmas about `BypassRun` state what the script
  promises:
  - nothing changes before the backup;
  - the backup holds the original bytes and is taken before the write;
  - only the `version` member is rewritten;
  - the exact condition for taking the update branch;
  - every failure returns `False`. A failure before the backup leaves the
    disk as it was (`UnchangedUntilBackup`), and a failed write keeps the
    backup (`BackupBeforeWrite`).
- `Document` (`document.dfy`) holds the JSON values. It covers the read and
  the write of the `version` member, and the manifest selection of
  `get_latest_version`.

The `json.load`/`json.dump` pair is an input of the run (`Bypass.Codec`). So
are the latest-version hint, which comes from the network, and the timestamp,
which comes from the clock. `False` from the source is an `Outcome` naming the
step that failed. `Outcome.Succeeded()` is the Boolean that is returned.

`int("")` raises `ValueError`, so an empty piece, as in `"1..2"`, makes
`compare_versions` raise (`Versions.CompareExampleEmptySegment`). `bypass_version`
then returns `False` with no backup and no write (`Bypass.MalformedVersionNoChange`).

The model also shows one behaviour of line 153 (`Bypass.HintBelowFloorRewritesAgain`).
Suppose the hint is a well-formed version below the 1.5.4 floor. The script
writes that version, and on the next run the version is below the floor again.
So every run takes the update branch again and attempts another backup.
`Bypass.SecondRunIsNoOp` states when a second run does find nothing to do. It
needs all three of these conditions:

- the hint is absent, empty, or well formed and at least 1.5.4;
- the timestamp is numeric;
- the codec reads back what it writes.

A malformed hint does not settle either. Suppose current is below the floor
and the hint is `"latest"`. The script writes `"latest"`, and on the next run
`compare_versions("latest", "1.5.4")` raises.

## Model

| member | source | states |
|---|---|---|
| Versions.Split | bypass_version.py:109-110 | `str.split('.')` always yields at least one piece (`""` splits into `[""]`) |
| Versions.SplitDotFree | bypass_version.py:109-110 | no piece produced by the split contains a dot |
| Versions.JoinSplit | bypass_version.py:109-110 | joining the pieces with `.` gives back the original string, so the split loses nothing |
| Versions.SplitJoin | bypass_version.py:109-110 | splitting the `.`-join of dot-free pieces gives back exactly those pieces |
| Versions.SplitAppendZero | bypass_version.py:109-110 | appending `".0"` to a version appends exactly one piece `"0"` |
| Versions.DecimalRoundTrip | bypass_version.py:109-110 | `int(str(n)) == n`: the decimal numeral of every natural parses back to it |
| Versions.LeadingZeroIgnored | bypass_version.py:109-110 | like `int`, a leading zero does not change the value of a segment |
| Versions.ParseSegment | bypass_version.py:109-110 | `int(x)` on one piece succeeds exactly on non-empty ASCII digit strings (its value inverts `str` by DecimalRoundTrip) |
| Versions.ParseParts | bypass_version.py:109-110 | a successful parse yields one integer per piece |
| Versions.ParsePartsMeaning | bypass_version.py:109-110 | the list comprehension succeeds iff every piece is a digit string; each value is its piece's value; a failure names a piece that is in the list and is not a number |
| Versions.ParsePartsSnoc | bypass_version.py:109-110 | parsing one more valid piece appends its value to the parsed list |
| Versions.ParsePartsDecimals | bypass_version.py:109-110 | parsing the decimal numerals of a list of values gives that list back |
| Versions.FormatRoundTrip | bypass_version.py:109-110 | every non-empty list of segment values, written as a dotted string, parses back to itself |
| Versions.ParseVersion | bypass_version.py:109-110 | a version string that parses yields at least one segment |
| Versions.CompareFrom | bypass_version.py:112-120 | the loop from index `i` on returns only -1, 0 or 1 |
| Versions.CompareFromMeaning | bypass_version.py:112-120 | the result is 0 iff all segments from `i` agree (missing ones as 0); it is -1 (resp. 1) iff at the first index where they differ the left segment is smaller (resp. larger) |
| Versions.CompareVersions | bypass_version.py:107-120 | the loop with early returns computes exactly the recursive comparison of the two parsed lists, and fails exactly when parsing fails |
| Versions.CompareStrings | bypass_version.py:107-120 | `compare_versions` succeeds iff both strings are well formed, returns -1, 0 or 1, and when the first string is malformed raises on that string before parsing the second |
| Versions.CompareStringsDefined | bypass_version.py:107-120 | `compare_versions` returns -1, 0 or 1 iff both strings are well formed; otherwise it fails on a piece of one of them that is not a number |
| Versions.ComparePartsReflexive | bypass_version.py:112-120 | a segment list compares equal to itself |
| Versions.ComparePartsAntisymmetric | bypass_version.py:112-120 | swapping the arguments negates the result |
| Versions.ComparePartsTransitive | bypass_version.py:112-120 | "at most" is transitive over segment lists |
| Versions.ComparePartsTrailingZero | bypass_version.py:113-114 | an extra trailing 0 segment never changes a comparison |
| Versions.CompareStringsReflexive | bypass_version.py:107-120 | `compare_versions(s, s) == 0` for every well-formed `s` |
| Versions.CompareStringsAntisymmetric | bypass_version.py:107-120 | `compare_versions(b, a) == -compare_versions(a, b)` for well-formed `a`, `b` |
| Versions.CompareStringsTransitive | bypass_version.py:107-120 | `a <= b` and `b <= c` give `a <= c` for well-formed versions |
| Versions.CompareStringsTrailingZero | bypass_version.py:113-114 | `v + ".0"` is well formed when `v` is, and compares like `v` against every version |
| Versions.CompareExampleEqual | bypass_version.py:112-120 | `"1.5"` and `"1.5.0"` compare equal |
| Versions.CompareExampleOlder | bypass_version.py:112-120 | `"1.5"` is smaller than `"1.5.1"` |
| Versions.CompareExampleNewer | bypass_version.py:112-120 | `"2.0.0"` is greater than `"1.9.9"` |
| Versions.CompareExampleEmptySegment | bypass_version.py:109-110 | `"1..2"` fails on its empty piece, whatever it is compared with |
| ProductPath.Join | bypass_version.py:72 | `os.path.join(dir, name)` ends with `name` |
| ProductPath.JoinAll | bypass_version.py:67 | a multi-part join ends with its last part |
| ProductPath.StripTrailingSlashes | bypass_version.py:88 | the home directory loses only its trailing slashes when `~` is expanded |
| ProductPath.ExpandHome | bypass_version.py:88 | `expanduser("~" + rest)` ends with `rest` and starts with a prefix of the home directory |
| ProductPath.LinuxCandidates | bypass_version.py:81-90 | `possible_paths` is the three fixed paths, followed by the AppImage path as a fourth and last entry exactly when that path exists |
| ProductPath.FirstExisting | bypass_version.py:92-97 | the for/else search finds a path iff some candidate exists, and then returns the first existing one |
| ProductPath.BranchPath | bypass_version.py:62-100 | each branch fails only with its own error: Windows only with the LOCALAPPDATA error, macOS never, Linux only with the not-found error, an unknown system by name; never file-not-found. A Windows path always ends in `product.json` and a Linux path always exists |
| ProductPath.ResolveProductJsonPath | bypass_version.py:102-105 | every path returned exists |
| ProductPath.GetProductJsonPath | bypass_version.py:50-105 | the branch assignments, the append and the search loop compute exactly the resolver's result, error cases included |
| ProductPath.UnsupportedPlatform | bypass_version.py:99-100 | any other `platform.system()` value is refused, naming the system |
| ProductPath.WindowsNeedsLocalAppData | bypass_version.py:62-65 | on Windows the run fails with the LOCALAPPDATA error iff the variable is absent or empty, even when an override is configured |
| ProductPath.WindowsOverride | bypass_version.py:67-72 | on Windows with LOCALAPPDATA set, the candidate is `cursor_path/product.json` when the override is configured and `LOCALAPPDATA/Programs/Cursor/resources/app/product.json` otherwise; the result is that path if it exists, else a file-not-found error for it. It always ends in `product.json`, and with an override it does not depend on LOCALAPPDATA's value |
| ProductPath.MacOverride | bypass_version.py:74-77 | on macOS the override replaces the default path entirely, and the result is that path if it exists, else a file-not-found error for it |
| ProductPath.LinuxFirstExisting | bypass_version.py:79-97 | on Linux the result is the first existing of `/opt`, `/usr/share`, `/usr/lib` and the AppImage path, in that order; it is the not-found error iff none exists |
| ProductPath.FirstExistingIgnores | bypass_version.py:92-97 | creating a file that is not a candidate does not change the search |
| ProductPath.LinuxCandidatesIgnore | bypass_version.py:81-90 | the candidate list never contains, and does not depend on, a file not named `product.json` |
| ProductPath.ResolveIgnoresOtherFiles | bypass_version.py:50-105 | creating a file not named `product.json` (such as a backup) never changes the resolved path |
| Document.CurrentVersion | bypass_version.py:149 | `.get("version", "0.0.0")` yields `"0.0.0"` when the member is missing, the string when it is a string, and fails on a non-object document or a non-string version |
| Document.WithVersion | bypass_version.py:162 | after `product_data["version"] = v` the document is an object whose `version` member is `v` |
| Document.WithVersionSingleField | bypass_version.py:162 | after `product_data["version"] = v` the version reads back as `v`, the keys are the old ones plus `version`, and every other member is unchanged |
| Document.WithVersionIdempotent | bypass_version.py:162 | setting the version already recorded gives back the same document |
| Document.LatestFromManifest | bypass_version.py:39-45 | the latest version is present iff `versions` is a non-empty list whose first entry has a string `version`, and it is that string |
| Document.LatestIgnoresLaterEntries | bypass_version.py:39-40 | only the first entry of the list is consulted |
| FileSystem.FsState.Copied | bypass_version.py:157 | after a copy the destination holds the source's bytes, at most the key `dst` is added, and every other file is unchanged |
| FileSystem.FsState.Overwritten | bypass_version.py:166-167 | after a write only the written path has new contents |
| FileSystem.Disk.Access | bypass_version.py:136 | `os.access(p, W_OK)` is true iff `p` is writable |
| FileSystem.Disk.ReadAll | bypass_version.py:141-143 | reading succeeds iff the file exists and is readable, and yields its bytes |
| FileSystem.Disk.Copy | bypass_version.py:157 | `shutil.copy2` succeeds iff the source is readable and the destination can be created; on success the state is the copied one, otherwise it is unchanged |
| FileSystem.Disk.Overwrite | bypass_version.py:165-167 | the write succeeds iff the target is writable and not faulty; on success only the target changes, otherwise nothing does |
| Bypass.NeedsUpdate | bypass_version.py:153 | a malformed current version always raises; a failure comes only from a malformed current version or a consulted malformed hint; without a truthy hint the decision is "below 1.5.4" |
| Bypass.NewVersion | bypass_version.py:161 | the new version is never empty: it is the hint when the hint is a non-empty string, else `"1.5.4"` |
| Bypass.BackupPath | bypass_version.py:156 | the backup path is the target path followed by `.` and more, so it is never the target itself |
| Bypass.BypassRun | bypass_version.py:122-183 | a run fails at path resolution iff the resolver fails, and never deletes a file |
| Bypass.RunAt | bypass_version.py:136-146 | a run past resolution ends NoWritePermission iff the file is not writable, and ReadFailed iff it is writable but cannot be read or parsed |
| Bypass.RunOnDocument | bypass_version.py:149-178 | a loaded document ends BadDocument iff its version cannot be read, AlreadyCurrent iff line 153 is false, and BadVersion iff line 153 raises |
| Bypass.Rewrite | bypass_version.py:155-172 | the update branch ends BackupFailed iff the copy cannot be made, otherwise past the backup; an Updated outcome carries the old version and `NewVersion(latest)` |
| Bypass.DecideUpdate | bypass_version.py:153 | the short-circuit evaluation of line 153 yields exactly `NeedsUpdate`, including which comparison raises |
| Bypass.BypassVersion | bypass_version.py:122-183 | the step-by-step run ends with exactly the outcome and disk state of `BypassRun` on the disk before it, and returns True iff the outcome is AlreadyCurrent or Updated |
| Bypass.BackUpAndWrite | bypass_version.py:155-172 | backup, version change and overwrite end exactly as the `Rewrite` stage of `BypassRun` |
| Bypass.FallbackParses | bypass_version.py:129 | the fallback `"1.5.4"` parses to `[1, 5, 4]` |
| Bypass.NeedsUpdateMeaning | bypass_version.py:153 | a malformed current version always fails. A malformed hint fails only when it is consulted. For well-formed inputs, the update is decided iff `compare(current, "1.5.4") < 0` or (the hint is non-empty and `compare(current, hint) != 0`) |
| Bypass.NoUpdateAtHint | bypass_version.py:153 | a version equal to a non-empty hint at or above the floor needs no update |
| Bypass.UpdateAwayFromHint | bypass_version.py:153 | a version that differs from a non-empty hint is rewritten, even when it is newer |
| Bypass.NeedsUpdateBelowFloor | bypass_version.py:153 | `"1.0.0"` with no hint is rewritten |
| Bypass.NeedsUpdateDefaultVersion | bypass_version.py:149-153 | the default `"0.0.0"` is below the floor and is rewritten, whatever the hint |
| Bypass.NeedsUpdateAtFloor | bypass_version.py:153 | `"1.5.4"` with hint `"1.5.4"`, or with no hint, is not rewritten |
| Bypass.Parses160 | bypass_version.py:109-110 | `"1.6.0"` parses to `[1, 6, 0]` |
| Bypass.Parses159 | bypass_version.py:109-110 | `"1.5.9"` parses to `[1, 5, 9]` |
| Bypass.NeedsUpdateAboveHint | bypass_version.py:153 | `"1.6.0"` with hint `"1.5.9"` is rewritten |
| Bypass.NeedsUpdateEmptyHint | bypass_version.py:153 | an empty hint is falsy: `"1.6.0"` with hint `""` is not rewritten |
| Bypass.UnchangedUntilBackup | bypass_version.py:136-157 | each of these ends with the filesystem exactly as it was: a missing path, no permission, a read or parse failure, a bad document or version, a failed backup, and no update needed |
| Bypass.BackupBeforeWrite | bypass_version.py:155-172 | once the backup is taken, `path.timestamp` holds the original bytes, and the key set grows by at most `path.timestamp` (an earlier backup with the same timestamp is overwritten). Only the target and the backup can differ. When the write fails, the target keeps its old bytes and the backup is kept |
| Bypass.SingleFieldRewrite | bypass_version.py:149-167 | an Updated run rewrote because line 153 held. What it wrote is the loaded document with `version` set to the hint, or to `"1.5.4"` without one, and every other member kept |
| Bypass.UpdateBranchIff | bypass_version.py:132-153 | the backup is attempted iff the path resolves, the file is writable, readable and parses, its version is a string, and line 153 holds |
| Bypass.MissingTargetFails | bypass_version.py:102-103 | when the branch's path does not exist, the run fails with file-not-found and touches nothing |
| Bypass.NoPermissionNoChange | bypass_version.py:136-138 | without write permission the run returns False and the disk is unchanged |
| Bypass.MalformedVersionNoChange | bypass_version.py:153 | a version `"1..2"` makes the comparison raise, so the run returns False with no backup and no write |
| Bypass.UpdateWhenAllStepsSucceed | bypass_version.py:153-169 | when every step succeeds and line 153 holds, the run ends Updated. The backup holds the original bytes and product.json holds the document with the new version |
| Bypass.OldVersionWithoutHint | bypass_version.py:153-162 | product.json at `1.0.0` with no hint is rewritten to `1.5.4` after a backup of the original |
| Bypass.NewerThanHint | bypass_version.py:153-162 | product.json at `1.6.0` with hint `1.5.9` is rewritten to `1.5.9` after a backup |
| Bypass.AtHintUntouched | bypass_version.py:173-178 | product.json at `1.5.4` with hint `1.5.4` ends AlreadyCurrent with the disk unchanged |
| Bypass.NoUpdateAtHintOrFallback | bypass_version.py:153-161 | the version the script writes needs no further update, unless the hint is malformed or below the floor |
| Bypass.UpdatedRunSteps | bypass_version.py:132-172 | an Updated run resolved product.json, found it writable and readable, loaded an object document from it, and left the disk as the backup followed by the overwrite with the new version |
| Bypass.SecondRunRereads | bypass_version.py:132-149 | after an Updated run, with a numeric timestamp and a codec that reads back what it writes, the next run resolves the same path as the first, passes the permission and read steps, and loads exactly the first run's document with `version` set to the new version |
| Bypass.SecondRunIsNoOp | bypass_version.py:153-162 | a run right after an update, with a hint that is absent, empty or at least 1.5.4, ends AlreadyCurrent and changes nothing |
| Bypass.HintBelowFloorRewritesAgain | bypass_version.py:153-162 | with a well-formed hint below 1.5.4, the run after an update takes the update branch again |
| Bypass.MalformedHintFailsNextRun | bypass_version.py:153-162 | after an update that wrote a non-empty malformed hint, the next run raises in the comparison with 1.5.4 and changes nothing |

## Left out

- The HTTP fetch in `get_latest_version` (lines 32-38, 46-48) is left out, because it is network I/O. The hint is an `Option<string>` input. Only the selection over an already-parsed manifest is modelled (`Document.LatestFromManifest`).
- Document.LatestFromManifest: a non-string `version` in the first entry is treated as no version (`None`), because the hint is modelled as an optional string. The script would return that value, and what follows depends on it:
  - Below the floor, line 153 short-circuits. A truthy value (such as the number `1.5`) is then written into product.json by lines 161-162 without any split. A falsy one (`0`, `false`, `[]`) selects the fallback `"1.5.4"`.
  - At or above the floor, a truthy value reaches `compare_versions`, whose `.split` raises inside the outer `try`.
- Console output, colorama, the emoji table, the translator strings and the traceback printing are left out. They do not affect control flow.
- Reading `config.ini` with configparser, and `get_user_documents_path` from `utils`, are left out because `utils` is not part of this model. The two overrides are inputs. The DEFAULT section and value interpolation of configparser are not modelled.
- `platform.system()`, `os.environ`, `os.path.exists` and the home directory are inputs.
- ProductPath.Join: paths are joined with `/` in the posix manner. The Windows separator and ntpath's drive and absolute-part rules are not modelled.
- ProductPath.ResolveProductJsonPath: `os.path.exists("")` is always false, but the model trusts the given set of existing paths for every string.
- Versions.ParseSegment: Python's `int()` also accepts surrounding whitespace, a sign, underscores between digits and non-ASCII digits. Python 3.11 and later also reject `int()` of a string of more than 4300 digits, which the model accepts. The model accepts only non-empty ASCII digit strings and treats everything else as a parse failure.
- JSON text (`json.load`, `json.dump` with `indent=2`) is an abstract codec: loading may fail and dumping yields some bytes. The order of dictionary keys is not modelled.
- `time.strftime` is an input string (`stamp`).
- FileSystem.Disk.Copy: the metadata that `shutil.copy2` preserves is not modelled, and a failed copy is assumed to change nothing.
- FileSystem.Disk.Overwrite: a write that fails partway is assumed to change nothing, so a truncated product.json is not modelled.
- Exceptions are modelled only where the code raises them on the data modelled here. Errors such as `MemoryError` or a `KeyboardInterrupt` are not modelled.
- Other processes changing the filesystem between the steps (the time between `os.access` and `open`) are not modelled.
- `main` and the `__main__` entry point (lines 185-190) are left out. They only call `bypass_version`.
