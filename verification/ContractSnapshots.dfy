/** Classifying a pair of contract snapshots: the worst verdict over all recorded changes. */
module ContractSnapshots {
  import opened Wrappers
  import opened Ordering
  import opened Json
  import opened JsonText
  import opened ContractImpact
  import ReleaseTags

  datatype Snapshot = Snapshot(
    releaseVersion: string,
    runtimeApi: seq<Member>,
    contractManifest: seq<Member>,
    schemas: seq<Member>,
    typescript: string,
    python: string,
    events: seq<Value>,
    errorCodes: seq<Value>,
    contractSetSha256: string)

  datatype Error = BadCandidateId | NotAnObject | Incomplete

  datatype ImpactResult = ImpactResult(
    classification: Impact, baselineRelease: string, candidateId: string, changes: seq<Change>)

  function Text(v: Option<Value>): Option<string> {
    if v.Some? && v.value.String? then Some(v.value.s) else None
  }

  function ValidateSnapshot(v: Value): Result<Snapshot, Error> {
    if !v.Object? then Failure(NotAnObject)
    else
      var ms := v.members;
      var release, typescript, python := Text(Find(ms, "releaseVersion")), Text(Find(ms, "typescript")), Text(Find(ms, "python"));
      var api, manifest, schemas := Find(ms, "runtimeApi"), Find(ms, "contractManifest"), Find(ms, "schemas");
      var events, errorCodes := Find(ms, "events"), Find(ms, "errorCodes");
      var sha := Text(Find(ms, "contractSetSha256"));
      if Text(Find(ms, "schemaVersion")) != Some("1")
         || release.None? || typescript.None? || python.None? || sha.None? || !ReleaseTags.IsSha(sha.value)
         || api.None? || !api.value.Object? || manifest.None? || !manifest.value.Object?
         || schemas.None? || !schemas.value.Object?
         || events.None? || !events.value.Array? || errorCodes.None? || !errorCodes.value.Array?
      then Failure(Incomplete)
      else
        Success(Snapshot(release.value, api.value.members, manifest.value.members, schemas.value.members,
                         typescript.value, python.value, events.value.items, errorCodes.value.items, sha.value))
  }

  // ---- The manifest without its generator fields ------------------------------------

  const GENERATED: set<string> := {
    "generator", "packageVersion", "runtimeVersion", "schemaSha256", "captureDocumentSchemaSha256"
  }

  function SemanticMembers(ms: seq<Member>): seq<Member> {
    if ms == [] then []
    else
      (if ms[0].key in GENERATED then [] else [Member(ms[0].key, SemanticManifest(ms[0].value))])
      + SemanticMembers(ms[1..])
  }

  function SemanticManifest(v: Value): Value {
    match v
    case Array(items) => Array(seq(|items|, i requires 0 <= i < |items| => SemanticManifest(items[i])))
    case Object(ms) => Object(SemanticMembers(ms))
    case _ => v
  }

  /** `{ ...manifest, enums: undefined }`, whose text has no such member. */
  function WithoutEnums(ms: seq<Member>): seq<Member> {
    if ms == [] then []
    else (if ms[0].key == "enums" then [] else [ms[0]]) + WithoutEnums(ms[1..])
  }

  function SameManifest(b: seq<Member>, c: seq<Member>): bool {
    Equal(Some(SemanticManifest(Object(b))), Some(SemanticManifest(Object(c))))
  }

  function ManifestDiff(collate: (string, string) -> bool, b: seq<Member>, c: seq<Member>): seq<Change> {
    if SameManifest(b, c) then []
    else
      CollectionDiff(collate, Items(Find(b, "enums")), Items(Find(c, "enums")), "contractManifest.enums")
      + (if SameManifest(WithoutEnums(b), WithoutEnums(c)) then []
         else [Change(ManualReview, "contractManifest", "Generated contract metadata changed.")])
  }

  // ---- Schemas by name -----------------------------------------------------------------

  function SchemaNames(b: seq<Member>, c: seq<Member>): seq<string> {
    Sort(StrLeq, AllKeys(b, c))
  }

  function NamedSchemaDiff(b: seq<Member>, c: seq<Member>, name: string): seq<Change> {
    if name !in Keys(b) then [Change(Additive, "schemas." + name, "New schema definition added.")]
    else if name !in Keys(c) then [Change(Breaking, "schemas." + name, "Schema definition removed.")]
    else SchemaDiff(Some(Get(b, name)), Some(Get(c, name)), "schemas." + name)
  }

  function SchemasDiff(b: seq<Member>, c: seq<Member>, names: seq<string>): seq<Change> {
    if names == [] then []
    else SchemasDiff(b, c, names[..|names| - 1]) + NamedSchemaDiff(b, c, names[|names| - 1])
  }

  // ---- The whole comparison --------------------------------------------------------------

  function OneIf(condition: bool, change: Change): seq<Change> {
    if condition then [change] else []
  }

  function ApiFieldDiff(b: Snapshot, c: Snapshot, field: string, reason: string): seq<Change> {
    OneIf(!Equal(Find(b.runtimeApi, field), Find(c.runtimeApi, field)),
          Change(Breaking, "runtimeApi." + field, reason))
  }

  function HeaderDiff(b: Snapshot, c: Snapshot): seq<Change> {
    OneIf(b.contractSetSha256 != c.contractSetSha256,
          Change(Breaking, "contractSetSha256", "Canonical contract-set bundle hash changed."))
    + ApiFieldDiff(b, c, "apiVersion", "Runtime API version changed.")
    + ApiFieldDiff(b, c, "documentSchemaVersion", "Document schema version changed.")
    + ApiFieldDiff(b, c, "documentSchemaId", "Document schema ID changed.")
  }

  function GeneratedDiff(b: string, c: string, path: string, reason: string): seq<Change> {
    OneIf(b != c, Change(ManualReview, path, reason))
  }

  function SnapshotDiff(collate: (string, string) -> bool, b: Snapshot, c: Snapshot): seq<Change> {
    HeaderDiff(b, c)
    + SchemasDiff(b.schemas, c.schemas, SchemaNames(b.schemas, c.schemas))
    + ManifestDiff(collate, b.contractManifest, c.contractManifest)
    + GeneratedDiff(b.typescript, c.typescript, "typescript", "Generated TypeScript contract semantics changed.")
    + GeneratedDiff(b.python, c.python, "python", "Generated Python contract semantics changed.")
    + CollectionDiff(collate, b.events, c.events, "events")
    + CollectionDiff(collate, b.errorCodes, c.errorCodes, "errorCodes")
  }

  predicate Records(changes: seq<Change>, verdict: Verdict) {
    exists i :: 0 <= i < |changes| && changes[i].classification == verdict
  }

  /** The worst verdict. */
  function Classification(changes: seq<Change>): Impact {
    if Records(changes, Breaking) then Breaking
    else if Records(changes, ManualReview) then ManualReview
    else if changes != [] then Additive
    else NoImpact
  }

  method CompareSchemas(b: seq<Member>, c: seq<Member>, log: ChangeLog)
    modifies log
    ensures log.changes == AddAll(old(log.changes), SchemasDiff(b, c, SchemaNames(b, c)))
  {
    var names := SchemaNames(b, c);
    for i := 0 to |names|
      invariant log.changes == AddAll(old(log.changes), SchemasDiff(b, c, names[..i]))
    {
      assert names[..i + 1][..i] == names[..i];
      var name := names[i];
      if name !in Keys(b) {
        log.Add(Additive, "schemas." + name, "New schema definition added.");
      } else if name !in Keys(c) {
        log.Add(Breaking, "schemas." + name, "Schema definition removed.");
      } else {
        CompareSchema(Some(Get(b, name)), Some(Get(c, name)), "schemas." + name, log);
      }
      AddAllConcat(old(log.changes), SchemasDiff(b, c, names[..i]), NamedSchemaDiff(b, c, name));
    }
    assert names[..|names|] == names;
  }

  method CompareHeader(b: Snapshot, c: Snapshot, log: ChangeLog)
    modifies log
    ensures log.changes == AddAll(old(log.changes), HeaderDiff(b, c))
  {
    ghost var start := log.changes;
    ghost var done := OneIf(b.contractSetSha256 != c.contractSetSha256,
                            Change(Breaking, "contractSetSha256", "Canonical contract-set bundle hash changed."));
    if b.contractSetSha256 != c.contractSetSha256 {
      log.Add(Breaking, "contractSetSha256", "Canonical contract-set bundle hash changed.");
    }
    CompareApiField(b, c, "apiVersion", "Runtime API version changed.", log);
    AddAllConcat(start, done, ApiFieldDiff(b, c, "apiVersion", "Runtime API version changed."));
    done := done + ApiFieldDiff(b, c, "apiVersion", "Runtime API version changed.");
    CompareApiField(b, c, "documentSchemaVersion", "Document schema version changed.", log);
    AddAllConcat(start, done, ApiFieldDiff(b, c, "documentSchemaVersion", "Document schema version changed."));
    done := done + ApiFieldDiff(b, c, "documentSchemaVersion", "Document schema version changed.");
    CompareApiField(b, c, "documentSchemaId", "Document schema ID changed.", log);
    AddAllConcat(start, done, ApiFieldDiff(b, c, "documentSchemaId", "Document schema ID changed."));
  }

  method CompareApiField(b: Snapshot, c: Snapshot, field: string, reason: string, log: ChangeLog)
    modifies log
    ensures log.changes == AddAll(old(log.changes), ApiFieldDiff(b, c, field, reason))
  {
    if !Equal(Find(b.runtimeApi, field), Find(c.runtimeApi, field)) {
      log.Add(Breaking, "runtimeApi." + field, reason);
    }
  }

  method CompareGenerated(b: string, c: string, path: string, reason: string, log: ChangeLog)
    modifies log
    ensures log.changes == AddAll(old(log.changes), GeneratedDiff(b, c, path, reason))
  {
    if b != c {
      log.Add(ManualReview, path, reason);
    }
  }

  method CompareManifest(collate: (string, string) -> bool, b: seq<Member>, c: seq<Member>, log: ChangeLog)
    modifies log
    ensures log.changes == AddAll(old(log.changes), ManifestDiff(collate, b, c))
  {
    if SameManifest(b, c) {
      return;
    }
    ghost var start := log.changes;
    CompareCollections(collate, Items(Find(b, "enums")), Items(Find(c, "enums")), "contractManifest.enums", log);
    ghost var done := CollectionDiff(collate, Items(Find(b, "enums")), Items(Find(c, "enums")), "contractManifest.enums");
    if !SameManifest(WithoutEnums(b), WithoutEnums(c)) {
      log.Add(ManualReview, "contractManifest", "Generated contract metadata changed.");
      AddAllConcat(start, done, [Change(ManualReview, "contractManifest", "Generated contract metadata changed.")]);
    } else {
      assert done + [] == done;
    }
  }

  /** The recorded changes are those of `SnapshotDiff` without repeats; the verdict is the worst one. */
  method ClassifyContractImpact(collate: (string, string) -> bool, baseline: Value, candidate: Value, candidateId: string)
    returns (r: Result<ImpactResult, Error>)
    ensures !ReleaseTags.IsSha(candidateId) ==> r == Failure(BadCandidateId)
    ensures ReleaseTags.IsSha(candidateId) ==>
      match (ValidateSnapshot(baseline), ValidateSnapshot(candidate))
      case (Failure(e), _) => r == Failure(e)
      case (_, Failure(e)) => r == Failure(e)
      case (Success(b), Success(c)) =>
        var changes := AddAll([], SnapshotDiff(collate, b, c));
        r == Success(ImpactResult(Classification(changes), b.releaseVersion, candidateId, changes))
  {
    if !ReleaseTags.IsSha(candidateId) {
      return Failure(BadCandidateId);
    }
    var vb, vc := ValidateSnapshot(baseline), ValidateSnapshot(candidate);
    if vb.Failure? {
      return Failure(vb.error);
    }
    if vc.Failure? {
      return Failure(vc.error);
    }
    var b, c := vb.value, vc.value;
    var log := new ChangeLog();
    CompareHeader(b, c, log);
    ghost var done := HeaderDiff(b, c);
    CompareSchemas(b.schemas, c.schemas, log);
    AddAllConcat([], done, SchemasDiff(b.schemas, c.schemas, SchemaNames(b.schemas, c.schemas)));
    done := done + SchemasDiff(b.schemas, c.schemas, SchemaNames(b.schemas, c.schemas));
    CompareManifest(collate, b.contractManifest, c.contractManifest, log);
    AddAllConcat([], done, ManifestDiff(collate, b.contractManifest, c.contractManifest));
    done := done + ManifestDiff(collate, b.contractManifest, c.contractManifest);
    CompareGenerated(b.typescript, c.typescript, "typescript", "Generated TypeScript contract semantics changed.", log);
    AddAllConcat([], done, GeneratedDiff(b.typescript, c.typescript, "typescript", "Generated TypeScript contract semantics changed."));
    done := done + GeneratedDiff(b.typescript, c.typescript, "typescript", "Generated TypeScript contract semantics changed.");
    CompareGenerated(b.python, c.python, "python", "Generated Python contract semantics changed.", log);
    AddAllConcat([], done, GeneratedDiff(b.python, c.python, "python", "Generated Python contract semantics changed."));
    done := done + GeneratedDiff(b.python, c.python, "python", "Generated Python contract semantics changed.");
    CompareCollections(collate, b.events, c.events, "events", log);
    AddAllConcat([], done, CollectionDiff(collate, b.events, c.events, "events"));
    done := done + CollectionDiff(collate, b.events, c.events, "events");
    CompareCollections(collate, b.errorCodes, c.errorCodes, "errorCodes", log);
    AddAllConcat([], done, CollectionDiff(collate, b.errorCodes, c.errorCodes, "errorCodes"));
    r := Success(ImpactResult(Classification(log.changes), b.releaseVersion, candidateId, log.changes));
  }
}
