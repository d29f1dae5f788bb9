/** The parsed product.json document and the version manifest, as JSON values.
    Only the top-level `"version"` member of the document is read or written;
    every other value is carried along untouched. */
module Document {
  import opened Wrappers

  datatype Json =
    | Null
    | Bool(b: bool)
    | Number(literal: string)
    | Str(s: string)
    | Array(items: seq<Json>)
    | Object(members: map<string, Json>)

  const VersionKey := "version"
  const DefaultVersion := "0.0.0"

  /** Why `product_data.get("version", "0.0.0")` yields no version string. */
  datatype DocumentError =
    | NotAnObject       // the document is not a JSON object: `.get` raises
    | VersionNotString  // the member is there but is not a string: `.split` raises

  /** `product_data.get("version", "0.0.0")`, when it yields a string. */
  function CurrentVersion(doc: Json): (r: Result<string, DocumentError>)
    ensures r.Success? ==> doc.Object?
    ensures doc.Object? && VersionKey !in doc.members ==> r == Success(DefaultVersion)
    ensures doc.Object? && VersionKey in doc.members ==>
              (r.Success? <==> doc.members[VersionKey].Str?)
              && (r.Success? ==> doc.members[VersionKey] == Str(r.value))
  {
    match doc
    case Object(m) =>
      if VersionKey !in m then Success(DefaultVersion)
      else (match m[VersionKey]
            case Str(v) => Success(v)
            case _ => Failure(VersionNotString))
    case _ => Failure(NotAnObject)
  }

  /** `product_data["version"] = v` on an object document. */
  function WithVersion(doc: Json, v: string): (r: Json)
    requires doc.Object?
    ensures r.Object? && VersionKey in r.members && r.members[VersionKey] == Str(v)
  {
    Object(doc.members[VersionKey := Str(v)])
  }

  /** Setting the version changes that member alone and reads back as `v`. */
  lemma WithVersionSingleField(doc: Json, v: string)
    requires doc.Object?
    ensures WithVersion(doc, v).Object?
    ensures CurrentVersion(WithVersion(doc, v)) == Success(v)
    ensures WithVersion(doc, v).members.Keys == doc.members.Keys + {VersionKey}
    ensures forall k :: k in doc.members && k != VersionKey ==> WithVersion(doc, v).members[k] == doc.members[k]
  {
  }

  /** Setting the version to the one already recorded gives back the same document. */
  lemma WithVersionIdempotent(doc: Json, v: string)
    requires doc.Object? && VersionKey in doc.members && doc.members[VersionKey] == Str(v)
    ensures WithVersion(doc, v) == doc
  {
    assert WithVersion(doc, v).members == doc.members;
  }

  /** The manifest's `versions` member is a non-empty list whose first entry
      holds a string `version`. */
  predicate FirstEntryHasVersion(manifest: Json) {
    manifest.Object? && "versions" in manifest.members
    && manifest.members["versions"].Array? && |manifest.members["versions"].items| > 0
    && manifest.members["versions"].items[0].Object?
    && VersionKey in manifest.members["versions"].items[0].members
    && manifest.members["versions"].items[0].members[VersionKey].Str?
  }

  /** The selection in get_latest_version: the first entry's `version` of a
      non-empty `versions` list, and nothing for every other shape (each of
      them raises a KeyError, IndexError or TypeError that the source catches). */
  function LatestFromManifest(manifest: Json): (r: Option<string>)
    ensures r.Some? <==> FirstEntryHasVersion(manifest)
    ensures r.Some? ==> manifest.members["versions"].items[0].members[VersionKey] == Str(r.value)
  {
    if manifest.Object? && "versions" in manifest.members then
      match manifest.members["versions"]
      case Array(entries) =>
        if |entries| > 0 && entries[0].Object? && VersionKey in entries[0].members
           && entries[0].members[VersionKey].Str?
        then Some(entries[0].members[VersionKey].s)
        else None
      case _ => None
    else None
  }

  /** Only the first entry of the list is consulted. */
  lemma LatestIgnoresLaterEntries(first: Json, rest: seq<Json>, others: map<string, Json>)
    ensures LatestFromManifest(Object(others["versions" := Array([first] + rest)]))
         == LatestFromManifest(Object(others["versions" := Array([first])]))
  {
  }
}
