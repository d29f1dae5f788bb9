/** `bypass_version` of bypass_version.py: find product.json, read its
    version, decide whether to rewrite it and, if so, take a timestamped
    backup and overwrite the file with only the `version` member changed.

    Every exception the source raises inside its outer `try` ends the run with
    `False`; the model keeps which step ended it as an Outcome. */
module Bypass {
  import opened Wrappers
  import opened Versions
  import opened Document
  import PP = ProductPath
  import opened FileSystem

  /** `fallback_version`, also the floor of the update test at line 153. */
  const FallbackVersion := "1.5.4"

  /** `json.load` and `json.dump`: loading may fail, dumping writes some bytes. */
  datatype Codec = Codec(load: Bytes -> Option<Json>, dump: Json -> Bytes)

  /** Where a run ended; only AlreadyCurrent and Updated return True. */
  datatype Outcome =
    | PathFailed(pathError: PP.PathError)  // get_product_json_path raised
    | NoWritePermission                    // os.access said no
    | ReadFailed                           // open or json.load raised
    | BadDocument(docError: DocumentError) // `.get` or `.split` raised on the document
    | BadVersion(parseError: ParseError)   // int() raised inside compare_versions
    | AlreadyCurrent                       // no update needed
    | BackupFailed                         // shutil.copy2 raised
    | WriteFailed                          // writing product.json raised
    | Updated(oldVersion: string, newVersion: string)
  {
    /** The value `bypass_version` returns. */
    predicate Succeeded() {
      AlreadyCurrent? || Updated?
    }

    /** The backup was taken: the run got past `shutil.copy2`. */
    predicate BackedUp() {
      WriteFailed? || Updated?
    }
  }

  datatype Run = Run(outcome: Outcome, after: FsState)

  /** The condition at line 153, with Python's short-circuit `or`/`and`: the
      comparison with the hint runs only when the version is not below the
      floor and the hint is a non-empty string. */
  function NeedsUpdate(current: string, latest: Option<string>): (r: Result<bool, ParseError>)
    ensures !WellFormed(current) ==> r.Failure?
    ensures r.Failure? ==> !WellFormed(current) || (Truthy(latest) && !WellFormed(latest.value))
    ensures !Truthy(latest) && r.Success? ==> (r.value <==> CompareStrings(current, FallbackVersion).value < 0)
  {
    var belowFloor :- CompareStrings(current, FallbackVersion);
    if belowFloor < 0 then Success(true)
    else if !Truthy(latest) then Success(false)
    else
      var vsLatest :- CompareStrings(current, latest.value);
      Success(vsLatest != 0)
  }

  /** `latest_version if latest_version else fallback_version`. */
  function NewVersion(latest: Option<string>): (v: string)
    ensures v != ""
    ensures v == FallbackVersion || (latest.Some? && v == latest.value)
    ensures latest.Some? && latest.value != "" ==> v == latest.value
  {
    if Truthy(latest) then latest.value else FallbackVersion
  }

  /** `f"{product_json_path}.{timestamp}"`. */
  function BackupPath(path: Path, stamp: string): (b: Path)
    ensures |b| > |path| && b[..|path|] == path && b[|path|] == '.'
    ensures b != path
  {
    path + "." + stamp
  }

  /** One run of bypass_version, given the filesystem before it: how it ends
      and the filesystem after it. */
  function BypassRun(s: FsState, host: PP.Host, latest: Option<string>, stamp: string, codec: Codec): (r: Run)
    ensures r.outcome.PathFailed? <==> PP.ResolveProductJsonPath(host, s.files.Keys).Failure?
    ensures s.files.Keys <= r.after.files.Keys
  {
    match PP.ResolveProductJsonPath(host, s.files.Keys)
    case Failure(e) => Run(PathFailed(e), s)
    case Success(path) => RunAt(s, path, latest, stamp, codec)
  }

  /** The run from the permission check on, once product.json is found at `path`. */
  function RunAt(s: FsState, path: Path, latest: Option<string>, stamp: string, codec: Codec): (r: Run)
    ensures !r.outcome.PathFailed?
    ensures r.outcome.NoWritePermission? <==> path !in s.writable
    ensures r.outcome.ReadFailed? <==> path in s.writable && (!s.CanRead(path) || codec.load(s.files[path]).None?)
    ensures s.files.Keys <= r.after.files.Keys
  {
    if path !in s.writable then Run(NoWritePermission, s)
    else if !s.CanRead(path) then Run(ReadFailed, s)
    else
      match codec.load(s.files[path])
      case None => Run(ReadFailed, s)
      case Some(doc) => RunOnDocument(s, path, doc, latest, stamp, codec)
  }

  /** The run from line 149 on, once the file has loaded as `doc`. */
  function RunOnDocument(s: FsState, path: Path, doc: Json, latest: Option<string>, stamp: string, codec: Codec): (r: Run)
    ensures r.outcome.BadDocument? <==> CurrentVersion(doc).Failure?
    ensures r.outcome.AlreadyCurrent? <==>
              CurrentVersion(doc).Success? && NeedsUpdate(CurrentVersion(doc).value, latest) == Success(false)
    ensures r.outcome.BadVersion? <==>
              CurrentVersion(doc).Success? && NeedsUpdate(CurrentVersion(doc).value, latest).Failure?
    ensures s.files.Keys <= r.after.files.Keys
  {
    match CurrentVersion(doc)
    case Failure(e) => Run(BadDocument(e), s)
    case Success(current) =>
      match NeedsUpdate(current, latest)
      case Failure(e) => Run(BadVersion(e), s)
      case Success(update) =>
        if !update then Run(AlreadyCurrent, s)
        else Rewrite(s, path, doc, current, latest, stamp, codec)
  }

  /** The update branch: backup first, then the single-field overwrite. */
  function Rewrite(s: FsState, path: Path, doc: Json, current: string, latest: Option<string>, stamp: string, codec: Codec): (r: Run)
    requires doc.Object?
    ensures r.outcome.BackupFailed? || r.outcome.BackedUp()
    ensures r.outcome.BackupFailed? <==> !s.CanCopy(path, BackupPath(path, stamp))
    ensures r.outcome.Updated? ==> r.outcome == Updated(current, NewVersion(latest))
    ensures s.files.Keys <= r.after.files.Keys
  {
    var backup := BackupPath(path, stamp);
    if !s.CanCopy(path, backup) then Run(BackupFailed, s)
    else
      var backedUp := s.Copied(path, backup);
      var newVersion := NewVersion(latest);
      if !backedUp.CanOverwrite(path) then Run(WriteFailed, backedUp)
      else Run(Updated(current, newVersion), backedUp.Overwritten(path, codec.dump(WithVersion(doc, newVersion))))
  }

  /** The test at line 153 as the source evaluates it: the comparison with
      the floor first, then, only when that is not below and the hint is
      truthy, the comparison with the hint. */
  method DecideUpdate(current: string, latest: Option<string>) returns (r: Result<bool, ParseError>)
    ensures r == NeedsUpdate(current, latest)
  {
    var belowFloor := CompareVersions(current, FallbackVersion);
    if belowFloor.Failure? {
      return Failure(belowFloor.error);
    }
    if belowFloor.value < 0 {
      return Success(true);
    }
    if latest.None? || latest.value == "" {
      return Success(false);
    }
    var vsLatest := CompareVersions(current, latest.value);
    if vsLatest.Failure? {
      return Failure(vsLatest.error);
    }
    return Success(vsLatest.value != 0);
  }

  /** bypass_version as the source writes it, step by step over the disk. */
  method BypassVersion(disk: Disk, host: PP.Host, latest: Option<string>, stamp: string, codec: Codec)
    returns (ok: bool, outcome: Outcome)
    modifies disk
    ensures var run := BypassRun(old(disk.State()), host, latest, stamp, codec);
            outcome == run.outcome && disk.State() == run.after
    ensures ok <==> outcome.Succeeded()
  {
    ghost var before := disk.State();
    var resolved := PP.GetProductJsonPath(host, disk.files.Keys);
    if resolved.Failure? {
      return false, PathFailed(resolved.error);
    }
    var productJsonPath := resolved.value;
    assert BypassRun(before, host, latest, stamp, codec) == RunAt(before, productJsonPath, latest, stamp, codec);

    var canWrite := disk.Access(productJsonPath);
    if !canWrite {
      return false, NoWritePermission;
    }

    var contents := disk.ReadAll(productJsonPath);
    if contents.None? {
      return false, ReadFailed;
    }
    var parsed := codec.load(contents.value);
    if parsed.None? {
      return false, ReadFailed;
    }
    var productData := parsed.value;
    assert RunAt(before, productJsonPath, latest, stamp, codec)
        == RunOnDocument(before, productJsonPath, productData, latest, stamp, codec);

    var currentVersion := CurrentVersion(productData);
    if currentVersion.Failure? {
      return false, BadDocument(currentVersion.error);
    }
    var current := currentVersion.value;

    var decision := DecideUpdate(current, latest);
    if decision.Failure? {
      return false, BadVersion(decision.error);
    }
    var update := decision.value;
    if !update {
      return true, AlreadyCurrent;
    }
    assert RunOnDocument(before, productJsonPath, productData, latest, stamp, codec)
        == Rewrite(before, productJsonPath, productData, current, latest, stamp, codec);
    ok, outcome := BackUpAndWrite(disk, productJsonPath, productData, current, latest, stamp, codec);
  }

  /** Lines 155-172: copy product.json to its timestamped backup, then write
      the document back with the new version. */
  method BackUpAndWrite(disk: Disk, productJsonPath: Path, productData: Json, current: string,
                        latest: Option<string>, stamp: string, codec: Codec)
    returns (ok: bool, outcome: Outcome)
    requires productData.Object?
    modifies disk
    ensures var run := Rewrite(old(disk.State()), productJsonPath, productData, current, latest, stamp, codec);
            outcome == run.outcome && disk.State() == run.after
    ensures ok <==> outcome.Succeeded()
  {
    var fallbackVersion := FallbackVersion;
    var backupPath := productJsonPath + "." + stamp;
    var copied := disk.Copy(productJsonPath, backupPath);
    if !copied {
      return false, BackupFailed;
    }

    var newVersion := if latest.Some? && latest.value != "" then latest.value else fallbackVersion;
    var updated := WithVersion(productData, newVersion);
    var written := disk.Overwrite(productJsonPath, codec.dump(updated));
    if !written {
      return false, WriteFailed;
    }
    return true, Updated(current, newVersion);
  }

  // ---------------------------------------------------------------------------
  // The update decision
  // ---------------------------------------------------------------------------

  lemma FallbackParses()
    ensures ParseVersion(FallbackVersion) == Success([1, 5, 4])
  {
    assert Decimal(1) == "1" && Decimal(5) == "5" && Decimal(4) == "4";
    ParsesAs(FallbackVersion, [1, 5, 4]);
  }

  /** For well-formed versions the decision is `compare(current, "1.5.4") < 0 or
      (latest and compare(current, latest) != 0)`; a malformed current version
      always fails, and a malformed hint fails only when it is consulted. */
  lemma NeedsUpdateMeaning(current: string, latest: Option<string>)
    ensures !WellFormed(current) ==> NeedsUpdate(current, latest).Failure?
    ensures WellFormed(current) && CompareStrings(current, FallbackVersion).value < 0 ==>
              NeedsUpdate(current, latest) == Success(true)
    ensures WellFormed(current) && CompareStrings(current, FallbackVersion).value >= 0 && Truthy(latest) ==>
              (NeedsUpdate(current, latest).Failure? <==> !WellFormed(latest.value))
    ensures WellFormed(current) && (Truthy(latest) ==> WellFormed(latest.value)) ==>
              NeedsUpdate(current, latest) ==
              Success(CompareStrings(current, FallbackVersion).value < 0
                      || (Truthy(latest) && CompareStrings(current, latest.value).value != 0))
  {
    FallbackParses();
  }

  /** A version equal to a non-empty hint at or above the floor needs no update. */
  lemma NoUpdateAtHint(v: string)
    requires WellFormed(v) && v != "" && CompareStrings(v, FallbackVersion).value >= 0
    ensures NeedsUpdate(v, Some(v)) == Success(false)
  {
    FallbackParses();
    CompareStringsReflexive(v);
  }

  /** A version different from the hint is rewritten even when it is newer. */
  lemma UpdateAwayFromHint(current: string, hint: string)
    requires WellFormed(current) && WellFormed(hint) && hint != ""
    requires CompareStrings(current, hint).value != 0
    ensures NeedsUpdate(current, Some(hint)) == Success(true)
  {
    FallbackParses();
  }

  /** With no hint, 1.0.0 is below the floor and is rewritten. */
  lemma NeedsUpdateBelowFloor()
    ensures NeedsUpdate("1.0.0", None) == Success(true)
  {
    assert Decimal(0) == "0" && Decimal(1) == "1";
    FallbackParses();
    ParsesAs("1.0.0", [1, 0, 0]);
    assert CompareFrom([1, 0, 0], [1, 5, 4], 0) == -1 by { assert At([1, 0, 0], 1) < At([1, 5, 4], 1); }
  }

  /** A document without a version member reads as 0.0.0, which is rewritten. */
  lemma NeedsUpdateDefaultVersion(latest: Option<string>)
    ensures NeedsUpdate(DefaultVersion, latest) == Success(true)
  {
    assert Decimal(0) == "0";
    FallbackParses();
    ParsesAs("0.0.0", [0, 0, 0]);
    assert CompareFrom([0, 0, 0], [1, 5, 4], 0) == -1 by { assert At([0, 0, 0], 0) < At([1, 5, 4], 0); }
  }

  /** 1.5.4 with hint 1.5.4, or with no hint, is left alone. */
  lemma NeedsUpdateAtFloor()
    ensures NeedsUpdate("1.5.4", Some("1.5.4")) == Success(false)
    ensures NeedsUpdate("1.5.4", None) == Success(false)
  {
    FallbackParses();
  }

  lemma Parses160()
    ensures ParseVersion("1.6.0") == Success([1, 6, 0])
  {
    assert Decimal(0) == "0" && Decimal(1) == "1" && Decimal(6) == "6";
    ParsesAs("1.6.0", [1, 6, 0]);
  }

  lemma Parses159()
    ensures ParseVersion("1.5.9") == Success([1, 5, 9])
  {
    assert Decimal(1) == "1" && Decimal(5) == "5" && Decimal(9) == "9";
    ParsesAs("1.5.9", [1, 5, 9]);
  }

  /** 1.6.0 with hint 1.5.9 is rewritten although it is newer. */
  lemma NeedsUpdateAboveHint()
    ensures NeedsUpdate("1.6.0", Some("1.5.9")) == Success(true)
  {
    Parses160();
    Parses159();
    assert CompareFrom([1, 6, 0], [1, 5, 9], 0) == 1 by { assert At([1, 6, 0], 1) > At([1, 5, 9], 1); }
    UpdateAwayFromHint("1.6.0", "1.5.9");
  }

  /** An empty hint counts as no hint: 1.6.0 is then left alone. */
  lemma NeedsUpdateEmptyHint()
    ensures NeedsUpdate("1.6.0", Some("")) == Success(false)
  {
    FallbackParses();
    Parses160();
    assert CompareFrom([1, 6, 0], [1, 5, 4], 0) == 1 by { assert At([1, 6, 0], 1) > At([1, 5, 4], 1); }
  }

  // ---------------------------------------------------------------------------
  // What a run does to the filesystem
  // ---------------------------------------------------------------------------

  /** Until the backup has been taken nothing on disk changes: no write
      permission, a read or parse failure, a malformed version, a failed backup
      and "no update needed" all leave the filesystem as it was. */
  lemma UnchangedUntilBackup(s: FsState, host: PP.Host, latest: Option<string>, stamp: string, codec: Codec)
    ensures var r := BypassRun(s, host, latest, stamp, codec);
            !r.outcome.BackedUp() ==> r.after == s
  {
  }

  /** Once the backup is taken it holds the original bytes of product.json,
      under `path.timestamp`, and it stays there whether or not the write
      then succeeds; only the target and the backup path can change. */
  lemma BackupBeforeWrite(s: FsState, host: PP.Host, latest: Option<string>, stamp: string, codec: Codec, path: Path)
    requires PP.ResolveProductJsonPath(host, s.files.Keys) == Success(path)
    ensures var r := BypassRun(s, host, latest, stamp, codec);
            var backup := BackupPath(path, stamp);
            r.outcome.BackedUp() ==>
              backup != path && path in s.files
              && r.after.files.Keys == s.files.Keys + {backup}
              && r.after.files[backup] == s.files[path]
              && (forall q :: q in s.files && q != path && q != backup ==> r.after.files[q] == s.files[q])
              && (r.outcome.WriteFailed? ==> r.after.files[path] == s.files[path])
              && r.after.writable == s.writable && r.after.readable == s.readable && r.after.faulty == s.faulty
  {
    var r := BypassRun(s, host, latest, stamp, codec);
    if r.outcome.BackedUp() {
      var backup := BackupPath(path, stamp);
      assert |backup| > |path|;
      var ra := RunAt(s, path, latest, stamp, codec);
      assert r == ra;
      var doc := codec.load(s.files[path]).value;
      var rd := RunOnDocument(s, path, doc, latest, stamp, codec);
      assert ra == rd;
      var current := CurrentVersion(doc).value;
      assert rd == Rewrite(s, path, doc, current, latest, stamp, codec);
      assert s.CanCopy(path, backup);
      var backedUp := s.Copied(path, backup);
      assert r.outcome.WriteFailed? ==> r.after == backedUp;
      assert r.outcome.Updated? ==> r.after == backedUp.Overwritten(path, codec.dump(WithVersion(doc, NewVersion(latest))));
    }
  }

  /** A run writes product.json only after deciding to update, and then it
      writes the loaded document with the `version` member set to the hint,
      or to 1.5.4 when there is none, and every other member as it was. */
  lemma SingleFieldRewrite(s: FsState, host: PP.Host, latest: Option<string>, stamp: string, codec: Codec, path: Path)
    requires PP.ResolveProductJsonPath(host, s.files.Keys) == Success(path)
    ensures var r := BypassRun(s, host, latest, stamp, codec);
            r.outcome.Updated? ==>
              s.CanRead(path) && codec.load(s.files[path]).Some?
              && var doc := codec.load(s.files[path]).value;
                 var written := WithVersion(doc, r.outcome.newVersion);
                 doc.Object?
                 && CurrentVersion(doc) == Success(r.outcome.oldVersion)
                 && NeedsUpdate(r.outcome.oldVersion, latest) == Success(true)
                 && r.outcome.newVersion == NewVersion(latest)
                 && r.after.files[path] == codec.dump(written)
                 && CurrentVersion(written) == Success(NewVersion(latest))
                 && written.members.Keys == doc.members.Keys + {VersionKey}
                 && (forall k :: k in doc.members && k != VersionKey ==> written.members[k] == doc.members[k])
  {
    var r := BypassRun(s, host, latest, stamp, codec);
    if r.outcome.Updated? {
      var doc;
      var p;
      p, doc := UpdatedRunSteps(s, host, latest, stamp, codec);
      var current := CurrentVersion(doc).value;
      assert r == RunOnDocument(s, path, doc, latest, stamp, codec);
      assert r == Rewrite(s, path, doc, current, latest, stamp, codec);
      WithVersionSingleField(doc, r.outcome.newVersion);
    }
  }

  /** The run takes the update branch exactly when the path resolves, the file
      is writable, readable and loads, its version is a string, and the line 153
      condition holds. */
  lemma UpdateBranchIff(s: FsState, host: PP.Host, latest: Option<string>, stamp: string, codec: Codec)
    ensures var r := BypassRun(s, host, latest, stamp, codec);
            (r.outcome.BackupFailed? || r.outcome.BackedUp()) <==>
              (PP.ResolveProductJsonPath(host, s.files.Keys).Success?
               && var path := PP.ResolveProductJsonPath(host, s.files.Keys).value;
                  path in s.writable && s.CanRead(path) && codec.load(s.files[path]).Some?
                  && CurrentVersion(codec.load(s.files[path]).value).Success?
                  && NeedsUpdate(CurrentVersion(codec.load(s.files[path]).value).value, latest) == Success(true))
  {
  }

  /** Without product.json on disk a run fails before touching anything. */
  lemma MissingTargetFails(s: FsState, host: PP.Host, latest: Option<string>, stamp: string, codec: Codec)
    requires PP.BranchPath(host, s.files.Keys).Success?
    requires PP.BranchPath(host, s.files.Keys).value !in s.files
    ensures BypassRun(s, host, latest, stamp, codec)
         == Run(PathFailed(PP.FileNotFound(PP.BranchPath(host, s.files.Keys).value)), s)
  {
  }

  /** Without write permission a run returns False and creates no backup. */
  lemma NoPermissionNoChange(s: FsState, host: PP.Host, latest: Option<string>, stamp: string, codec: Codec, path: Path)
    requires PP.ResolveProductJsonPath(host, s.files.Keys) == Success(path)
    requires path !in s.writable
    ensures BypassRun(s, host, latest, stamp, codec) == Run(NoWritePermission, s)
  {
  }

  /** A version with an empty segment makes compare_versions raise before the
      backup, so the run returns False and the disk is untouched. */
  lemma MalformedVersionNoChange(s: FsState, host: PP.Host, latest: Option<string>, stamp: string, codec: Codec, path: Path)
    requires PP.ResolveProductJsonPath(host, s.files.Keys) == Success(path)
    requires path in s.writable && s.CanRead(path)
    requires codec.load(s.files[path]).Some?
    requires codec.load(s.files[path]).value.Object?
    requires VersionKey in codec.load(s.files[path]).value.members
    requires codec.load(s.files[path]).value.members[VersionKey] == Str("1..2")
    ensures BypassRun(s, host, latest, stamp, codec) == Run(BadVersion(InvalidSegment("")), s)
  {
    CompareExampleEmptySegment(FallbackVersion);
  }

  /** When every step succeeds and line 153 asks for an update, the run ends
      Updated: the backup holds the original bytes and product.json holds the
      document with the new version. */
  lemma UpdateWhenAllStepsSucceed(s: FsState, host: PP.Host, latest: Option<string>, stamp: string, codec: Codec,
                                  path: Path, doc: Json, current: string)
    requires PP.ResolveProductJsonPath(host, s.files.Keys) == Success(path)
    requires path in s.writable && s.CanRead(path) && codec.load(s.files[path]) == Some(doc)
    requires CurrentVersion(doc) == Success(current) && NeedsUpdate(current, latest) == Success(true)
    requires s.CanCopy(path, BackupPath(path, stamp)) && s.CanOverwrite(path)
    ensures doc.Object?
    ensures BypassRun(s, host, latest, stamp, codec)
         == Run(Updated(current, NewVersion(latest)),
                s.Copied(path, BackupPath(path, stamp)).Overwritten(path, codec.dump(WithVersion(doc, NewVersion(latest)))))
  {
  }

  /** product.json at 1.0.0 and no hint: the run rewrites it to 1.5.4. */
  lemma OldVersionWithoutHint(s: FsState, host: PP.Host, stamp: string, codec: Codec, path: Path, doc: Json)
    requires PP.ResolveProductJsonPath(host, s.files.Keys) == Success(path)
    requires path in s.writable && s.CanRead(path) && codec.load(s.files[path]) == Some(doc)
    requires doc.Object? && VersionKey in doc.members && doc.members[VersionKey] == Str("1.0.0")
    requires s.CanCopy(path, BackupPath(path, stamp)) && s.CanOverwrite(path)
    ensures var r := BypassRun(s, host, None, stamp, codec);
            r.outcome == Updated("1.0.0", "1.5.4")
            && r.after.files[path] == codec.dump(WithVersion(doc, "1.5.4"))
            && r.after.files[BackupPath(path, stamp)] == s.files[path]
  {
    NeedsUpdateBelowFloor();
    UpdateWhenAllStepsSucceed(s, host, None, stamp, codec, path, doc, "1.0.0");
  }

  /** product.json at 1.6.0 and hint 1.5.9: the run rewrites it to 1.5.9. */
  lemma NewerThanHint(s: FsState, host: PP.Host, stamp: string, codec: Codec, path: Path, doc: Json)
    requires PP.ResolveProductJsonPath(host, s.files.Keys) == Success(path)
    requires path in s.writable && s.CanRead(path) && codec.load(s.files[path]) == Some(doc)
    requires doc.Object? && VersionKey in doc.members && doc.members[VersionKey] == Str("1.6.0")
    requires s.CanCopy(path, BackupPath(path, stamp)) && s.CanOverwrite(path)
    ensures var r := BypassRun(s, host, Some("1.5.9"), stamp, codec);
            r.outcome == Updated("1.6.0", "1.5.9")
            && r.after.files[path] == codec.dump(WithVersion(doc, "1.5.9"))
            && r.after.files[BackupPath(path, stamp)] == s.files[path]
  {
    NeedsUpdateAboveHint();
    UpdateWhenAllStepsSucceed(s, host, Some("1.5.9"), stamp, codec, path, doc, "1.6.0");
  }

  /** product.json at 1.5.4 and hint 1.5.4: nothing is written, no backup is made. */
  lemma AtHintUntouched(s: FsState, host: PP.Host, stamp: string, codec: Codec, path: Path, doc: Json)
    requires PP.ResolveProductJsonPath(host, s.files.Keys) == Success(path)
    requires path in s.writable && s.CanRead(path) && codec.load(s.files[path]) == Some(doc)
    requires doc.Object? && VersionKey in doc.members && doc.members[VersionKey] == Str("1.5.4")
    ensures BypassRun(s, host, Some("1.5.4"), stamp, codec) == Run(AlreadyCurrent, s)
  {
    NeedsUpdateAtFloor();
  }

  /** Once a run has updated product.json, an immediate second run with the
      same hint finds nothing to do, provided the hint is absent, empty, or a
      well-formed version at or above 1.5.4, the timestamp is numeric (so the
      backup is not mistaken for a product.json) and the JSON codec reads back
      what it writes. */
  lemma SecondRunIsNoOp(s: FsState, host: PP.Host, latest: Option<string>, stamp: string, stamp2: string, codec: Codec)
    requires forall d :: codec.load(codec.dump(d)) == Some(d)
    requires IsDigits(stamp)
    requires Truthy(latest) ==> WellFormed(latest.value) && CompareStrings(latest.value, FallbackVersion).value >= 0
    requires BypassRun(s, host, latest, stamp, codec).outcome.Updated?
    ensures var s1 := BypassRun(s, host, latest, stamp, codec).after;
            BypassRun(s1, host, latest, stamp2, codec) == Run(AlreadyCurrent, s1)
  {
    var path, written := SecondRunRereads(s, host, latest, stamp, stamp2, codec);
    NoUpdateAtHintOrFallback(latest);
  }

  lemma NoUpdateAtHintOrFallback(latest: Option<string>)
    requires Truthy(latest) ==> WellFormed(latest.value) && CompareStrings(latest.value, FallbackVersion).value >= 0
    ensures NeedsUpdate(NewVersion(latest), latest) == Success(false)
  {
    FallbackParses();
    if Truthy(latest) {
      NoUpdateAtHint(latest.value);
    }
  }

  /** With a well-formed hint below 1.5.4 the rewrite never settles: the second
      run takes the update branch again and makes another backup. */
  lemma HintBelowFloorRewritesAgain(s: FsState, host: PP.Host, hint: string, stamp: string, stamp2: string, codec: Codec)
    requires forall d :: codec.load(codec.dump(d)) == Some(d)
    requires IsDigits(stamp)
    requires hint != "" && WellFormed(hint) && CompareStrings(hint, FallbackVersion).value < 0
    requires BypassRun(s, host, Some(hint), stamp, codec).outcome.Updated?
    ensures var s1 := BypassRun(s, host, Some(hint), stamp, codec).after;
            var r2 := BypassRun(s1, host, Some(hint), stamp2, codec);
            r2.outcome.BackupFailed? || r2.outcome.BackedUp()
  {
    var path, written := SecondRunRereads(s, host, Some(hint), stamp, stamp2, codec);
    NeedsUpdateMeaning(hint, Some(hint));
    assert NeedsUpdate(hint, Some(hint)) == Success(true);
    var s1 := BypassRun(s, host, Some(hint), stamp, codec).after;
    assert RunOnDocument(s1, path, written, Some(hint), stamp2, codec)
        == Rewrite(s1, path, written, hint, Some(hint), stamp2, codec);
  }

  /** What an Updated run did: every step up to the write succeeded on the
      resolved product.json, and the disk after it is the backup followed by
      the overwrite with the new version. */
  lemma UpdatedRunSteps(s: FsState, host: PP.Host, latest: Option<string>, stamp: string, codec: Codec)
    returns (path: Path, doc: Json)
    requires BypassRun(s, host, latest, stamp, codec).outcome.Updated?
    ensures PP.ResolveProductJsonPath(host, s.files.Keys) == Success(path)
    ensures path in s.writable && s.CanRead(path) && codec.load(s.files[path]) == Some(doc)
    ensures doc.Object?
    ensures BypassRun(s, host, latest, stamp, codec).after
         == s.Copied(path, BackupPath(path, stamp)).Overwritten(path, codec.dump(WithVersion(doc, NewVersion(latest))))
  {
    var r := BypassRun(s, host, latest, stamp, codec);
    path := PP.ResolveProductJsonPath(host, s.files.Keys).value;
    doc := codec.load(s.files[path]).value;
    var current := CurrentVersion(doc).value;
    assert r == RunAt(s, path, latest, stamp, codec) == RunOnDocument(s, path, doc, latest, stamp, codec);
    assert r == Rewrite(s, path, doc, current, latest, stamp, codec);
  }

  /** After an Updated run the second run finds the same product.json, may
      write and read it, and loads the rewritten document, whose version is the
      new one. */
  lemma SecondRunRereads(s: FsState, host: PP.Host, latest: Option<string>, stamp: string, stamp2: string, codec: Codec)
    returns (path: Path, written: Json)
    requires forall d :: codec.load(codec.dump(d)) == Some(d)
    requires IsDigits(stamp)
    requires BypassRun(s, host, latest, stamp, codec).outcome.Updated?
    ensures PP.ResolveProductJsonPath(host, s.files.Keys) == Success(path)
    ensures path in s.files && codec.load(s.files[path]).Some?
    ensures codec.load(s.files[path]).value.Object?
    ensures written == WithVersion(codec.load(s.files[path]).value, NewVersion(latest))
    ensures written.Object? && CurrentVersion(written) == Success(NewVersion(latest))
    ensures var s1 := BypassRun(s, host, latest, stamp, codec).after;
            BypassRun(s1, host, latest, stamp2, codec) == RunOnDocument(s1, path, written, latest, stamp2, codec)
  {
    var doc;
    path, doc := UpdatedRunSteps(s, host, latest, stamp, codec);
    var backup := BackupPath(path, stamp);
    written := WithVersion(doc, NewVersion(latest));
    WithVersionSingleField(doc, NewVersion(latest));
    var s1 := BypassRun(s, host, latest, stamp, codec).after;
    assert s1.files.Keys == s.files.Keys + {backup};
    assert !PP.EndsWith(backup, PP.ProductJson) by {
      assert backup[|backup| - 1] == stamp[|stamp| - 1];
      assert IsDigit(stamp[|stamp| - 1]);
    }
    PP.ResolveIgnoresOtherFiles(host, s.files.Keys, backup);
    assert codec.load(s1.files[path]) == Some(written);
    assert BypassRun(s1, host, latest, stamp2, codec) == RunAt(s1, path, latest, stamp2, codec);
  }

  /** A malformed hint does not settle either: after an update that wrote such
      a hint, the next run's comparison with the floor raises. */
  lemma MalformedHintFailsNextRun(s: FsState, host: PP.Host, hint: string, stamp: string, stamp2: string, codec: Codec)
    requires forall d :: codec.load(codec.dump(d)) == Some(d)
    requires IsDigits(stamp)
    requires hint != "" && !WellFormed(hint)
    requires BypassRun(s, host, Some(hint), stamp, codec).outcome.Updated?
    ensures var s1 := BypassRun(s, host, Some(hint), stamp, codec).after;
            BypassRun(s1, host, Some(hint), stamp2, codec) == Run(BadVersion(ParseVersion(hint).error), s1)
  {
    var path, written := SecondRunRereads(s, host, Some(hint), stamp, stamp2, codec);
  }
}
