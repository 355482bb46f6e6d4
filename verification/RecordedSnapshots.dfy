/**
 Exactly which changes are recorded for two contract snapshots, and exactly when their
 classification is which, stated on the snapshots themselves.
 */
module RecordedSnapshots {
  import opened Wrappers
  import opened Ordering
  import opened Json
  import opened JsonText
  import opened ContractImpact
  import opened ContractSnapshots
  import opened SchemaMeaning
  import opened ContractVerdicts
  import opened ReorderedSnapshots
  import opened RecordedChanges
  import ReleaseTags

  // ---- The manifest ----------------------------------------------------------------------

  /** Fields that the generator writes. */
  const WRITTEN: set<string> := {
    "packageVersion", "runtimeVersion", "generator", "captureDocumentSchemaSha256", "schemaSha256"
  }

  /** Two values that differ at most in key order and in generated fields, at any depth. */
  ghost predicate SameContent(a: Value, b: Value)
    decreases a
  {
    match a
    case Array(xs) => b.Array? && |xs| == |b.items| && forall i | 0 <= i < |xs| :: SameContent(xs[i], b.items[i])
    case Object(ms) =>
      && b.Object?
      && (forall key | key !in WRITTEN :: key in Keys(ms) <==> key in Keys(b.members))
      && forall i | 0 <= i < |ms| && ms[i].key !in WRITTEN ::
           ms[i].key in Keys(b.members) && SameContent(ms[i].value, Get(b.members, ms[i].key))
    case _ => a == b
  }

  /** The same for the fields of two manifests, some of them left aside. */
  ghost predicate SameFields(ms: seq<Member>, ns: seq<Member>, aside: set<string>) {
    && (forall key | key !in aside :: key in Keys(ms) <==> key in Keys(ns))
    && forall key | key in Keys(ms) && key in Keys(ns) && key !in aside :: SameContent(Get(ms, key), Get(ns, key))
  }

  lemma FieldsExactly(ms: seq<Member>, ns: seq<Member>)
    requires Valid(Object(ms)) && Valid(Object(ns))
    ensures SameContent(Object(ms), Object(ns)) <==> SameFields(ms, ns, WRITTEN)
  {
    forall i | 0 <= i < |ms| ensures ms[i].key in Keys(ms) && Get(ms, ms[i].key) == ms[i].value { GetAt(ms, i); }
    if SameFields(ms, ns, WRITTEN) {
      forall i | 0 <= i < |ms| && ms[i].key !in WRITTEN
        ensures ms[i].key in Keys(ns) && SameContent(ms[i].value, Get(ns, ms[i].key))
      {
        assert ms[i].key in Keys(ms);
      }
    }
    if SameContent(Object(ms), Object(ns)) {
      forall key | key in Keys(ms) && key in Keys(ns) && key !in WRITTEN ensures SameContent(Get(ms, key), Get(ns, key)) {
        var i :| 0 <= i < |ms| && ms[i].key == key;
      }
    }
  }

  /** Objects are the same when they have the same keys and the same value under each. */
  lemma SameByKey(ms: seq<Member>, ns: seq<Member>)
    requires DistinctKeys(ms)
    ensures Same(Object(ms), Object(ns)) <==>
              Keys(ms) == Keys(ns) && forall key | key in Keys(ms) :: key in Keys(ns) && Same(Get(ms, key), Get(ns, key))
  {
    forall i | 0 <= i < |ms| ensures ms[i].key in Keys(ms) && Get(ms, ms[i].key) == ms[i].value { GetAt(ms, i); }
    if Same(Object(ms), Object(ns)) {
      forall key | key in Keys(ms) ensures key in Keys(ns) && Same(Get(ms, key), Get(ns, key)) {
        var i :| 0 <= i < |ms| && ms[i].key == key;
      }
    }
  }

  lemma WrittenExactly(key: string)
    ensures key in GENERATED <==> key in WRITTEN
  {
  }

  /** Without their generated fields values are the same exactly when they differ in nothing else. */
  lemma {:induction false} SemanticExactly(v: Value, w: Value)
    requires Valid(v) && Valid(w)
    ensures Same(SemanticManifest(v), SemanticManifest(w)) <==> SameContent(v, w)
    decreases v, 1
  {
    match v
    case Array(items) =>
      if w.Array? && |w.items| == |items| {
        forall i | 0 <= i < |items|
          ensures Same(SemanticManifest(items[i]), SemanticManifest(w.items[i])) <==> SameContent(items[i], w.items[i])
        {
          SemanticExactly(items[i], w.items[i]);
        }
        var xs, ys := SemanticManifest(v).items, SemanticManifest(w).items;
        assert forall i | 0 <= i < |items| ::
            xs[i] == SemanticManifest(items[i]) && ys[i] == SemanticManifest(w.items[i]);
        assert Same(Array(xs), Array(ys)) <==> forall i | 0 <= i < |items| :: Same(xs[i], ys[i]);
      }
    case Object(ms) => if w.Object? { SemanticObjects(ms, w.members, v, w); }
    case _ =>
  }

  lemma {:induction false} SemanticObjects(ms: seq<Member>, ns: seq<Member>, v: Value, w: Value)
    requires Valid(v) && Valid(w) && v == Object(ms) && w == Object(ns)
    ensures Same(Object(SemanticMembers(ms)), Object(SemanticMembers(ns))) <==> SameContent(v, w)
    decreases v, 0
  {
    var xs, ys := SemanticMembers(ms), SemanticMembers(ns);
    SemanticMembersValid(ms);
    SameByKey(xs, ys);
    FieldsExactly(ms, ns);
    forall key
      ensures key in Keys(xs) <==> key in Keys(ms) && key !in WRITTEN
      ensures key in Keys(ys) <==> key in Keys(ns) && key !in WRITTEN
    {
      SemanticMember(ms, key);
      SemanticMember(ns, key);
      WrittenExactly(key);
    }
    forall key | key in Keys(xs) && key in Keys(ys)
      ensures key in Keys(ms) && key in Keys(ns)
      ensures Same(Get(xs, key), Get(ys, key)) <==> SameContent(Get(ms, key), Get(ns, key))
    {
      SemanticMember(ms, key);
      SemanticMember(ns, key);
      ValidFind(v, key);
      ValidFind(w, key);
      var i :| 0 <= i < |ms| && ms[i] == Member(key, Get(ms, key));
      SemanticExactly(ms[i].value, Get(ns, key));
    }
    hide SemanticMembers, SameContent, Valid, Same, WRITTEN;
  }

  lemma {:induction false} EnumsAside(ms: seq<Member>, key: string)
    ensures key in Keys(WithoutEnums(ms)) <==> key in Keys(ms) && key != "enums"
    ensures key in Keys(WithoutEnums(ms)) ==> Get(WithoutEnums(ms), key) == Get(ms, key)
  {
    if ms != [] {
      EnumsAside(ms[1..], key);
      var first := if ms[0].key == "enums" then [] else [ms[0]];
      var rest := WithoutEnums(ms[1..]);
      assert ms == [ms[0]] + ms[1..];
      KeysConcat(first, rest);
      KeysConcat([ms[0]], ms[1..]);
      if first != [] {
        assert (first + rest)[0] == first[0] && (first + rest)[1..] == rest;
      } else {
        assert first + rest == rest;
      }
    }
  }

  lemma {:induction false} WithoutEnumsValid(ms: seq<Member>)
    requires Valid(Object(ms))
    ensures Valid(Object(WithoutEnums(ms)))
  {
    if ms != [] {
      WithoutEnumsValid(ms[1..]);
      EnumsAside(ms[1..], ms[0].key);
      var rest := WithoutEnums(ms[1..]);
      forall j | 0 <= j < |rest| && ms[0].key != "enums" ensures rest[j].key != ms[0].key {
        assert rest[j].key in Keys(rest);
      }
    }
  }

  lemma ManifestsExactly(ms: seq<Member>, ns: seq<Member>)
    requires Valid(Object(ms)) && Valid(Object(ns))
    ensures SameManifest(ms, ns) <==> SameFields(ms, ns, WRITTEN)
    ensures SameManifest(WithoutEnums(ms), WithoutEnums(ns)) <==> SameFields(ms, ns, WRITTEN + {"enums"})
  {
    hide Valid, SemanticManifest, SameContent, WithoutEnums, WRITTEN;
    OneManifest(ms, ns);
    WithoutEnumsValid(ms);
    WithoutEnumsValid(ns);
    OneManifest(WithoutEnums(ms), WithoutEnums(ns));
    var xs, ys := WithoutEnums(ms), WithoutEnums(ns);
    forall key
      ensures key in Keys(xs) <==> key in Keys(ms) && key != "enums"
      ensures key in Keys(xs) ==> Get(xs, key) == Get(ms, key)
      ensures key in Keys(ys) <==> key in Keys(ns) && key != "enums"
      ensures key in Keys(ys) ==> Get(ys, key) == Get(ns, key)
    {
      EnumsAside(ms, key);
      EnumsAside(ns, key);
    }
  }

  lemma OneManifest(ms: seq<Member>, ns: seq<Member>)
    requires Valid(Object(ms)) && Valid(Object(ns))
    ensures SameManifest(ms, ns) <==> SameFields(ms, ns, WRITTEN)
  {
    SemanticValid(Object(ms));
    SemanticValid(Object(ns));
    EqualExactlySame(SemanticManifest(Object(ms)), SemanticManifest(Object(ns)));
    SemanticExactly(Object(ms), Object(ns));
    FieldsExactly(ms, ns);
    hide Valid, SemanticManifest, SameContent, SameFields;
  }

  // ---- Collections -----------------------------------------------------------------------

  ghost predicate Among(x: Value, ys: seq<Value>) {
    exists y :: y in ys && Same(x, y)
  }

  /** Entries as a set, up to key order: one that disappears breaks, a new one needs review. */
  ghost predicate CollectionRecorded(xs: seq<Value>, ys: seq<Value>, path: string, ch: Change) {
    || (exists x | x in xs && !Among(x, ys) ::
          ch == Change(Breaking, path, "Entry removed: " + Stringify(Canonicalize(x)) + "."))
    || (exists y | y in ys && !Among(y, xs) ::
          ch == Change(ManualReview, path, "Entry added: " + Stringify(Canonicalize(y)) + "."))
  }

  lemma CanonicalIn(collate: (string, string) -> bool, x: Value, ys: seq<Value>)
    requires Valid(x) && Valid(Array(ys))
    ensures Stringify(Canonicalize(x)) in Distinct(SortedCollection(collate, ys)) <==> Among(x, ys)
  {
    SortPermutes(collate, CanonicalTexts(ys));
    var text := Stringify(Canonicalize(x));
    if text in CanonicalTexts(ys) {
      var i :| 0 <= i < |ys| && CanonicalTexts(ys)[i] == text;
      EqualExactlySame(x, ys[i]);
      assert ys[i] in ys;
    }
    if y :| y in ys && Same(x, y) {
      var i :| 0 <= i < |ys| && ys[i] == y;
      EqualExactlySame(x, y);
      assert CanonicalTexts(ys)[i] == text;
    }
  }

  lemma CollectionSide(collate: (string, string) -> bool, xs: seq<Value>, ys: seq<Value>, verdict: Verdict, path: string,
                       intro: string, ch: Change)
    requires Valid(Array(xs)) && Valid(Array(ys))
    ensures ch in Absent(Distinct(SortedCollection(collate, xs)), Distinct(SortedCollection(collate, ys)), verdict, path, intro)
            <==> exists x | x in xs && !Among(x, ys) :: ch == Change(verdict, path, intro + Stringify(Canonicalize(x)) + ".")
  {
    var bs, cs := Distinct(SortedCollection(collate, xs)), Distinct(SortedCollection(collate, ys));
    AbsentHolds(bs, cs, verdict, path, intro, ch);
    if t :| t in bs && t !in cs && ch == Change(verdict, path, intro + t + ".") {
      SortPermutes(collate, CanonicalTexts(xs));
      var i :| 0 <= i < |xs| && CanonicalTexts(xs)[i] == t;
      CanonicalIn(collate, xs[i], ys);
      assert xs[i] in xs;
    }
    if x :| x in xs && !Among(x, ys) && ch == Change(verdict, path, intro + Stringify(Canonicalize(x)) + ".") {
      SameReflexive(x);
      assert Among(x, xs);
      CanonicalIn(collate, x, xs);
      CanonicalIn(collate, x, ys);
    }
  }

  lemma CollectionHolds(collate: (string, string) -> bool, xs: seq<Value>, ys: seq<Value>, path: string, ch: Change)
    requires Valid(Array(xs)) && Valid(Array(ys))
    ensures ch in CollectionDiff(collate, xs, ys, path) <==> CollectionRecorded(xs, ys, path, ch)
  {
    hide Absent, SortedCollection, Distinct, Valid, Among;
    CollectionSide(collate, xs, ys, Breaking, path, "Entry removed: ", ch);
    CollectionSide(collate, ys, xs, ManualReview, path, "Entry added: ", ch);
  }

  // ---- Snapshots -------------------------------------------------------------------------

  ghost predicate HeaderRecorded(b: Snapshot, c: Snapshot, ch: Change) {
    || (b.contractSetSha256 != c.contractSetSha256
        && ch == Change(Breaking, "contractSetSha256", "Canonical contract-set bundle hash changed."))
    || ApiRecorded(b, c, "apiVersion", "Runtime API version changed.", ch)
    || ApiRecorded(b, c, "documentSchemaVersion", "Document schema version changed.", ch)
    || ApiRecorded(b, c, "documentSchemaId", "Document schema ID changed.", ch)
  }

  ghost predicate ApiRecorded(b: Snapshot, c: Snapshot, field: string, reason: string, ch: Change) {
    !Alike(Find(b.runtimeApi, field), Find(c.runtimeApi, field)) && ch == Change(Breaking, "runtimeApi." + field, reason)
  }

  /** For one schema name. */
  ghost predicate NamedRecorded(b: seq<Member>, c: seq<Member>, name: string, ch: Change) {
    || (name !in Keys(b) && name in Keys(c) && ch == Change(Additive, "schemas." + name, "New schema definition added."))
    || (name in Keys(b) && name !in Keys(c) && ch == Change(Breaking, "schemas." + name, "Schema definition removed."))
    || (name in Keys(b) && name in Keys(c) && Recorded(Get(b, name), Get(c, name), "schemas." + name, ch))
  }

  ghost predicate ManifestRecorded(b: seq<Member>, c: seq<Member>, ch: Change) {
    && !SameFields(b, c, WRITTEN)
    && (|| CollectionRecorded(Items(Find(b, "enums")), Items(Find(c, "enums")), "contractManifest.enums", ch)
        || (!SameFields(b, c, WRITTEN + {"enums"})
            && ch == Change(ManualReview, "contractManifest", "Generated contract metadata changed.")))
  }

  /** The classification records this change for the two snapshots. */
  ghost predicate SnapshotRecorded(b: Snapshot, c: Snapshot, ch: Change) {
    || HeaderRecorded(b, c, ch)
    || (exists name :: NamedRecorded(b.schemas, c.schemas, name, ch))
    || ManifestRecorded(b.contractManifest, c.contractManifest, ch)
    || (b.typescript != c.typescript
        && ch == Change(ManualReview, "typescript", "Generated TypeScript contract semantics changed."))
    || (b.python != c.python && ch == Change(ManualReview, "python", "Generated Python contract semantics changed."))
    || CollectionRecorded(b.events, c.events, "events", ch)
    || CollectionRecorded(b.errorCodes, c.errorCodes, "errorCodes", ch)
  }

  lemma ApiHolds(b: Snapshot, c: Snapshot, field: string, reason: string, ch: Change)
    requires ValidSnapshot(b) && ValidSnapshot(c)
    ensures ch in ApiFieldDiff(b, c, field, reason) <==> ApiRecorded(b, c, field, reason, ch)
  {
    EqualExactlyAlike(Object(b.runtimeApi), Object(c.runtimeApi), field);
  }

  lemma HeaderHolds(b: Snapshot, c: Snapshot, ch: Change)
    requires ValidSnapshot(b) && ValidSnapshot(c)
    ensures ch in HeaderDiff(b, c) <==> HeaderRecorded(b, c, ch)
  {
    hide ApiFieldDiff, ApiRecorded, ValidSnapshot;
    ApiHolds(b, c, "apiVersion", "Runtime API version changed.", ch);
    ApiHolds(b, c, "documentSchemaVersion", "Document schema version changed.", ch);
    ApiHolds(b, c, "documentSchemaId", "Document schema ID changed.", ch);
  }

  lemma NamedHolds(b: seq<Member>, c: seq<Member>, name: string, ch: Change)
    requires Valid(Object(b)) && Valid(Object(c)) && (name in Keys(b) || name in Keys(c))
    ensures ch in NamedSchemaDiff(b, c, name) <==> NamedRecorded(b, c, name, ch)
  {
    hide SchemaDiff, Recorded;
    if name in Keys(b) && name in Keys(c) {
      ValidSchema(b, name);
      ValidSchema(c, name);
      RecordedExactly(Get(b, name), Get(c, name), "schemas." + name, ch);
    }
  }

  lemma {:induction false} SchemasHold(b: seq<Member>, c: seq<Member>, names: seq<string>, ch: Change)
    requires Valid(Object(b)) && Valid(Object(c)) && forall name | name in names :: name in Keys(b) || name in Keys(c)
    ensures ch in SchemasDiff(b, c, names) <==> exists name :: name in names && NamedRecorded(b, c, name, ch)
  {
    hide NamedSchemaDiff, NamedRecorded, Valid;
    if names != [] {
      var front, last := names[..|names| - 1], names[|names| - 1];
      assert names == front + [last];
      SchemasHold(b, c, front, ch);
      NamedHolds(b, c, last, ch);
    }
  }

  lemma AllSchemasHold(b: seq<Member>, c: seq<Member>, ch: Change)
    requires Valid(Object(b)) && Valid(Object(c))
    ensures ch in SchemasDiff(b, c, SchemaNames(b, c)) <==> exists name :: NamedRecorded(b, c, name, ch)
  {
    SortPermutes(StrLeq, AllKeys(b, c));
    var names := SchemaNames(b, c);
    forall name ensures name in names <==> name in Keys(b) || name in Keys(c) { AllKeysExactly(b, c, name); }
    hide SchemaNames, SchemasDiff, Valid, Recorded;
    SchemasHold(b, c, names, ch);
    if name :| NamedRecorded(b, c, name, ch) { assert name in names; }
  }

  lemma ManifestHolds(collate: (string, string) -> bool, b: seq<Member>, c: seq<Member>, ch: Change)
    requires Valid(Object(b)) && Valid(Object(c))
    ensures ch in ManifestDiff(collate, b, c) <==> ManifestRecorded(b, c, ch)
  {
    hide SameManifest, SameFields, CollectionDiff, CollectionRecorded;
    ManifestsExactly(b, c);
    ValidFind(Object(b), "enums");
    ValidFind(Object(c), "enums");
    var xs, ys := Items(Find(b, "enums")), Items(Find(c, "enums"));
    CollectionHolds(collate, xs, ys, "contractManifest.enums", ch);
  }

  /** A change is recorded exactly when the snapshots give reason to. */
  lemma SnapshotRecordedExactly(collate: (string, string) -> bool, b: Snapshot, c: Snapshot, ch: Change)
    requires ValidSnapshot(b) && ValidSnapshot(c)
    ensures ch in SnapshotDiff(collate, b, c) <==> SnapshotRecorded(b, c, ch)
  {
    hide HeaderDiff, SchemasDiff, SchemaNames, ManifestDiff, CollectionDiff;
    hide HeaderRecorded, NamedRecorded, ManifestRecorded, CollectionRecorded, Valid;
    HeaderHolds(b, c, ch);
    AllSchemasHold(b.schemas, c.schemas, ch);
    ManifestHolds(collate, b.contractManifest, c.contractManifest, ch);
    CollectionHolds(collate, b.events, c.events, "events", ch);
    CollectionHolds(collate, b.errorCodes, c.errorCodes, "errorCodes", ch);
  }

  /** Some recorded change has this verdict. */
  ghost predicate Gives(b: Snapshot, c: Snapshot, verdict: Verdict) {
    exists ch :: SnapshotRecorded(b, c, ch) && ch.classification == verdict
  }

  /** The classification is the worst verdict that the snapshots give reason to. */
  lemma ClassifiedExactly(collate: (string, string) -> bool, b: Snapshot, c: Snapshot)
    requires ValidSnapshot(b) && ValidSnapshot(c)
    ensures Classification(AddAll([], SnapshotDiff(collate, b, c))) ==
            if Gives(b, c, Breaking) then Breaking
            else if Gives(b, c, ManualReview) then ManualReview
            else if Gives(b, c, Additive) then Additive
            else NoImpact
  {
    hide SnapshotDiff, SnapshotRecorded, ValidSnapshot;
    var diff := SnapshotDiff(collate, b, c);
    var changes := AddAll([], diff);
    AddAllElements([], diff);
    forall ch ensures ch in changes <==> SnapshotRecorded(b, c, ch) { SnapshotRecordedExactly(collate, b, c, ch); }
    forall verdict: Verdict ensures Records(changes, verdict) <==> Gives(b, c, verdict) { GivesExactly(b, c, changes, verdict); }
    if changes != [] {
      assert changes[0] in changes;
      assert Gives(b, c, changes[0].classification);
    }
    hide Records, Gives;
  }

  lemma GivesExactly(b: Snapshot, c: Snapshot, changes: seq<Change>, verdict: Verdict)
    requires forall ch :: ch in changes <==> SnapshotRecorded(b, c, ch)
    ensures Records(changes, verdict) <==> Gives(b, c, verdict)
  {
    hide SnapshotRecorded;
    if Records(changes, verdict) {
      var i :| 0 <= i < |changes| && changes[i].classification == verdict;
      assert changes[i] in changes;
    }
    if ch :| SnapshotRecorded(b, c, ch) && ch.classification == verdict {
      var i :| 0 <= i < |changes| && changes[i] == ch;
    }
  }

  // ---- When a classification is breaking, and when it asks for review --------------------

  /** Some entry of the first list is not in the second, up to key order. */
  ghost predicate Lost(xs: seq<Value>, ys: seq<Value>) {
    exists x :: x in xs && !Among(x, ys)
  }

  ghost predicate HeaderDiffers(b: Snapshot, c: Snapshot) {
    || b.contractSetSha256 != c.contractSetSha256
    || !Alike(Find(b.runtimeApi, "apiVersion"), Find(c.runtimeApi, "apiVersion"))
    || !Alike(Find(b.runtimeApi, "documentSchemaVersion"), Find(c.runtimeApi, "documentSchemaVersion"))
    || !Alike(Find(b.runtimeApi, "documentSchemaId"), Find(c.runtimeApi, "documentSchemaId"))
  }

  ghost predicate SnapshotBreaks(b: Snapshot, c: Snapshot) {
    || HeaderDiffers(b, c)
    || (exists name :: name in Keys(b.schemas) && name !in Keys(c.schemas))
    || (exists name :: name in Keys(b.schemas) && name in Keys(c.schemas) && Breaks(Get(b.schemas, name), Get(c.schemas, name)))
    || (!SameFields(b.contractManifest, c.contractManifest, WRITTEN)
        && Lost(Items(Find(b.contractManifest, "enums")), Items(Find(c.contractManifest, "enums"))))
    || Lost(b.events, c.events) || Lost(b.errorCodes, c.errorCodes)
  }

  ghost predicate SnapshotNeedsReview(b: Snapshot, c: Snapshot) {
    || (exists name :: name in Keys(b.schemas) && name in Keys(c.schemas)
                       && NeedsReview(Get(b.schemas, name), Get(c.schemas, name)))
    || (!SameFields(b.contractManifest, c.contractManifest, WRITTEN)
        && (|| Lost(Items(Find(c.contractManifest, "enums")), Items(Find(b.contractManifest, "enums")))
            || !SameFields(b.contractManifest, c.contractManifest, WRITTEN + {"enums"})))
    || b.typescript != c.typescript || b.python != c.python
    || Lost(c.events, b.events) || Lost(c.errorCodes, b.errorCodes)
  }

  lemma CollectionGives(xs: seq<Value>, ys: seq<Value>, path: string)
    ensures (exists ch :: CollectionRecorded(xs, ys, path, ch) && ch.classification == Breaking) <==> Lost(xs, ys)
    ensures (exists ch :: CollectionRecorded(xs, ys, path, ch) && ch.classification == ManualReview) <==> Lost(ys, xs)
  {
    hide Among, Stringify, Canonicalize;
    if Lost(xs, ys) {
      var x :| x in xs && !Among(x, ys);
      assert CollectionRecorded(xs, ys, path, Change(Breaking, path, "Entry removed: " + Stringify(Canonicalize(x)) + "."));
    }
    if Lost(ys, xs) {
      var y :| y in ys && !Among(y, xs);
      assert CollectionRecorded(xs, ys, path, Change(ManualReview, path, "Entry added: " + Stringify(Canonicalize(y)) + "."));
    }
  }

  lemma HeaderChange(b: Snapshot, c: Snapshot) returns (ch: Change)
    requires HeaderDiffers(b, c)
    ensures HeaderRecorded(b, c, ch)
  {
    hide Alike, Find;
    ch :=
      if b.contractSetSha256 != c.contractSetSha256 then
        Change(Breaking, "contractSetSha256", "Canonical contract-set bundle hash changed.")
      else if !Alike(Find(b.runtimeApi, "apiVersion"), Find(c.runtimeApi, "apiVersion")) then
        Change(Breaking, "runtimeApi." + "apiVersion", "Runtime API version changed.")
      else if !Alike(Find(b.runtimeApi, "documentSchemaVersion"), Find(c.runtimeApi, "documentSchemaVersion")) then
        Change(Breaking, "runtimeApi." + "documentSchemaVersion", "Document schema version changed.")
      else
        Change(Breaking, "runtimeApi." + "documentSchemaId", "Document schema ID changed.");
  }

  lemma HeaderGives(b: Snapshot, c: Snapshot)
    ensures forall ch | HeaderRecorded(b, c, ch) :: ch.classification == Breaking && HeaderDiffers(b, c)
    ensures HeaderDiffers(b, c) ==> exists ch :: HeaderRecorded(b, c, ch)
  {
    if HeaderDiffers(b, c) { var ch := HeaderChange(b, c); }
  }

  ghost predicate NamedGiven(b: seq<Member>, c: seq<Member>, name: string, verdict: Verdict) {
    exists ch :: NamedRecorded(b, c, name, ch) && ch.classification == verdict
  }

  lemma NamedGives(b: seq<Member>, c: seq<Member>, name: string)
    ensures NamedGiven(b, c, name, Breaking) <==>
              name in Keys(b) && (name !in Keys(c) || Breaks(Get(b, name), Get(c, name)))
    ensures NamedGiven(b, c, name, ManualReview) <==>
              name in Keys(b) && name in Keys(c) && NeedsReview(Get(b, name), Get(c, name))
  {
    hide Recorded, Breaks, NeedsReview, Keys;
    if name in Keys(b) && name in Keys(c) {
      BreaksExactly(Get(b, name), Get(c, name), "schemas." + name);
      NeedsReviewExactly(Get(b, name), Get(c, name), "schemas." + name);
    } else if name in Keys(b) {
      assert NamedRecorded(b, c, name, Change(Breaking, "schemas." + name, "Schema definition removed."));
    }
  }

  lemma ManifestGives(b: seq<Member>, c: seq<Member>)
    ensures (exists ch :: ManifestRecorded(b, c, ch) && ch.classification == Breaking) <==>
              !SameFields(b, c, WRITTEN) && Lost(Items(Find(b, "enums")), Items(Find(c, "enums")))
    ensures (exists ch :: ManifestRecorded(b, c, ch) && ch.classification == ManualReview) <==>
              !SameFields(b, c, WRITTEN)
              && (Lost(Items(Find(c, "enums")), Items(Find(b, "enums"))) || !SameFields(b, c, WRITTEN + {"enums"}))
  {
    hide SameFields, Lost, Find, CollectionRecorded, WRITTEN;
    CollectionGives(Items(Find(b, "enums")), Items(Find(c, "enums")), "contractManifest.enums");
    if !SameFields(b, c, WRITTEN) && !SameFields(b, c, WRITTEN + {"enums"}) {
      assert ManifestRecorded(b, c, Change(ManualReview, "contractManifest", "Generated contract metadata changed."));
    }
  }

  lemma GeneratedChange(b: Snapshot, c: Snapshot) returns (ch: Change)
    requires b.typescript != c.typescript || b.python != c.python
    ensures SnapshotRecorded(b, c, ch) && ch.classification == ManualReview
  {
    hide HeaderRecorded, NamedRecorded, ManifestRecorded, CollectionRecorded;
    ch := if b.typescript != c.typescript then
            Change(ManualReview, "typescript", "Generated TypeScript contract semantics changed.")
          else Change(ManualReview, "python", "Generated Python contract semantics changed.");
  }

  /** A change recorded for one part is recorded. */
  lemma PartRecorded(b: Snapshot, c: Snapshot, ch: Change)
    requires || HeaderRecorded(b, c, ch) || (exists name :: NamedRecorded(b.schemas, c.schemas, name, ch))
             || ManifestRecorded(b.contractManifest, c.contractManifest, ch)
             || CollectionRecorded(b.events, c.events, "events", ch)
             || CollectionRecorded(b.errorCodes, c.errorCodes, "errorCodes", ch)
    ensures SnapshotRecorded(b, c, ch)
  {
  }

  lemma GivesParts(b: Snapshot, c: Snapshot, verdict: Verdict)
    ensures Gives(b, c, verdict) <==>
              || (exists ch :: HeaderRecorded(b, c, ch) && ch.classification == verdict)
              || (exists name :: NamedGiven(b.schemas, c.schemas, name, verdict))
              || (exists ch :: ManifestRecorded(b.contractManifest, c.contractManifest, ch) && ch.classification == verdict)
              || (verdict == ManualReview && (b.typescript != c.typescript || b.python != c.python))
              || (exists ch :: CollectionRecorded(b.events, c.events, "events", ch) && ch.classification == verdict)
              || (exists ch :: CollectionRecorded(b.errorCodes, c.errorCodes, "errorCodes", ch) && ch.classification == verdict)
  {
    if b.typescript != c.typescript || b.python != c.python { var ch := GeneratedChange(b, c); }
    forall ch | || HeaderRecorded(b, c, ch) || (exists name :: NamedRecorded(b.schemas, c.schemas, name, ch))
                || ManifestRecorded(b.contractManifest, c.contractManifest, ch)
                || CollectionRecorded(b.events, c.events, "events", ch)
                || CollectionRecorded(b.errorCodes, c.errorCodes, "errorCodes", ch)
      ensures SnapshotRecorded(b, c, ch)
    {
      PartRecorded(b, c, ch);
    }
    hide HeaderRecorded, NamedRecorded, ManifestRecorded, CollectionRecorded;
    if Gives(b, c, verdict) {
      var ch :| SnapshotRecorded(b, c, ch) && ch.classification == verdict;
      if name :| NamedRecorded(b.schemas, c.schemas, name, ch) {
        assert NamedGiven(b.schemas, c.schemas, name, verdict);
      }
    }
  }

  /** The classification is `breaking` exactly when the snapshots break consumers. */
  lemma BreakingExactly(collate: (string, string) -> bool, b: Snapshot, c: Snapshot)
    requires ValidSnapshot(b) && ValidSnapshot(c)
    ensures Classification(AddAll([], SnapshotDiff(collate, b, c))) == Breaking <==> SnapshotBreaks(b, c)
  {
    ClassifiedExactly(collate, b, c);
    GivesBreaking(b, c);
    hide Gives, SnapshotBreaks, SnapshotDiff, ValidSnapshot;
  }

  /** It is `manual-review` exactly when they do not, but something calls for review. */
  lemma ManualReviewExactly(collate: (string, string) -> bool, b: Snapshot, c: Snapshot)
    requires ValidSnapshot(b) && ValidSnapshot(c)
    ensures Classification(AddAll([], SnapshotDiff(collate, b, c))) == ManualReview
            <==> !SnapshotBreaks(b, c) && SnapshotNeedsReview(b, c)
  {
    ClassifiedExactly(collate, b, c);
    GivesBreaking(b, c);
    GivesReview(b, c);
    hide Gives, SnapshotBreaks, SnapshotNeedsReview, SnapshotDiff, ValidSnapshot;
  }

  lemma GivesBreaking(b: Snapshot, c: Snapshot)
    ensures Gives(b, c, Breaking) <==> SnapshotBreaks(b, c)
  {
    hide Gives, HeaderRecorded, NamedGiven, ManifestRecorded, CollectionRecorded, HeaderDiffers, Breaks, Lost;
    hide SameFields, Find, Keys;
    GivesParts(b, c, Breaking);
    HeaderGives(b, c);
    forall name
      ensures NamedGiven(b.schemas, c.schemas, name, Breaking) <==>
                name in Keys(b.schemas)
                && (name !in Keys(c.schemas) || Breaks(Get(b.schemas, name), Get(c.schemas, name)))
    {
      NamedGives(b.schemas, c.schemas, name);
    }
    ManifestGives(b.contractManifest, c.contractManifest);
    CollectionGives(b.events, c.events, "events");
    CollectionGives(b.errorCodes, c.errorCodes, "errorCodes");
  }

  lemma GivesReview(b: Snapshot, c: Snapshot)
    ensures Gives(b, c, ManualReview) <==> SnapshotNeedsReview(b, c)
  {
    hide Gives, HeaderRecorded, NamedGiven, ManifestRecorded, CollectionRecorded, HeaderDiffers, NeedsReview, Lost;
    hide SameFields, Find, Keys;
    GivesParts(b, c, ManualReview);
    HeaderGives(b, c);
    forall name
      ensures NamedGiven(b.schemas, c.schemas, name, ManualReview) <==>
                name in Keys(b.schemas) && name in Keys(c.schemas) && NeedsReview(Get(b.schemas, name), Get(c.schemas, name))
    {
      NamedGives(b.schemas, c.schemas, name);
    }
    ManifestGives(b.contractManifest, c.contractManifest);
    CollectionGives(b.events, c.events, "events");
    CollectionGives(b.errorCodes, c.errorCodes, "errorCodes");
  }

  // ---- Reading a snapshot --------------------------------------------------------------------

  /** The object has this member. */
  predicate Has(v: Value, key: string, value: Value) {
    v.Object? && Member(key, value) in v.members
  }

  /** The value is a snapshot with these parts, each under its own name and of its own kind. */
  ghost predicate IsSnapshot(v: Value, s: Snapshot) {
    && Has(v, "schemaVersion", String("1")) && Has(v, "releaseVersion", String(s.releaseVersion))
    && Has(v, "runtimeApi", Object(s.runtimeApi)) && Has(v, "contractManifest", Object(s.contractManifest))
    && Has(v, "schemas", Object(s.schemas))
    && Has(v, "typescript", String(s.typescript)) && Has(v, "python", String(s.python))
    && Has(v, "events", Array(s.events)) && Has(v, "errorCodes", Array(s.errorCodes))
    && Has(v, "contractSetSha256", String(s.contractSetSha256))
    && ReleaseTags.LowerHex(s.contractSetSha256, 64)
  }

  lemma HasExactly(v: Value, key: string, value: Value)
    requires v.Object? && DistinctKeys(v.members)
    ensures Has(v, key, value) <==> Find(v.members, key) == Some(value)
  {
    var ms := v.members;
    if Has(v, key, value) {
      var i :| 0 <= i < |ms| && ms[i] == Member(key, value);
      GetAt(ms, i);
    }
  }

  /** Which text the value of a key is, if it is one. */
  lemma TextExactly(v: Value, key: string, text: string)
    requires v.Object? && DistinctKeys(v.members)
    ensures Has(v, key, String(text)) <==> Text(Find(v.members, key)) == Some(text)
  {
    HasExactly(v, key, String(text));
  }

  /** A value is refused exactly when it is no snapshot, as `NotAnObject` when it is no object at all. */
  lemma SnapshotReadExactly(v: Value, s: Snapshot)
    requires Valid(v)
    ensures ValidateSnapshot(v) == Success(s) <==> IsSnapshot(v, s)
    ensures ValidateSnapshot(v) == Failure(NotAnObject) <==> !v.Object?
  {
    if v.Object? {
      ReleaseTags.ShaExactly(s.contractSetSha256);
      TextExactly(v, "schemaVersion", "1");
      TextExactly(v, "releaseVersion", s.releaseVersion);
      TextExactly(v, "typescript", s.typescript);
      TextExactly(v, "python", s.python);
      TextExactly(v, "contractSetSha256", s.contractSetSha256);
      HasExactly(v, "runtimeApi", Object(s.runtimeApi));
      HasExactly(v, "contractManifest", Object(s.contractManifest));
      HasExactly(v, "schemas", Object(s.schemas));
      HasExactly(v, "events", Array(s.events));
      HasExactly(v, "errorCodes", Array(s.errorCodes));
      hide Has, Find, Valid, ReleaseTags.IsSha, ReleaseTags.LowerHex;
    }
  }
}
