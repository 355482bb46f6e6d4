/** A snapshot against a key-reordered copy of itself is `no-impact`, with an empty list. */
module ReorderedSnapshots {
  import opened Wrappers
  import opened Ordering
  import opened Json
  import opened JsonText
  import opened ContractImpact
  import opened ContractSnapshots
  import opened SchemaMeaning
  import opened ContractVerdicts
  import opened ReorderedContracts

  /** Every schema of a snapshot hides reorderings. */
  ghost predicate StableSchemas(s: Snapshot) {
    forall i | 0 <= i < |s.schemas| :: OrderStable(s.schemas[i].value)
  }

  ghost predicate SameSnapshot(b: Snapshot, c: Snapshot) {
    && b.releaseVersion == c.releaseVersion && b.typescript == c.typescript && b.python == c.python
    && b.contractSetSha256 == c.contractSetSha256
    && Same(Object(b.runtimeApi), Object(c.runtimeApi))
    && Same(Object(b.contractManifest), Object(c.contractManifest))
    && Same(Object(b.schemas), Object(c.schemas))
    && Same(Array(b.events), Array(c.events)) && Same(Array(b.errorCodes), Array(c.errorCodes))
  }

  /** What one field of a snapshot and its copy have in common. */
  ghost predicate SameField(b: Option<Value>, c: Option<Value>) {
    && Text(b) == Text(c)
    && (b.Some? && b.value.Object? ==> c.Some? && c.value.Object?)
    && (b.Some? && b.value.Array? ==> c.Some? && c.value.Array?)
  }

  lemma FieldSame(v: Value, w: Value, key: string)
    requires v.Object? && Same(v, w)
    ensures SameField(Find(v.members, key), Find(w.members, key))
    ensures Find(v.members, key).Some? ==> Same(Get(v.members, key), Get(w.members, key))
  {
    FindSame(v, w, key);
  }

  lemma FieldsValidate(v: Value, w: Value)
    requires v.Object? && w.Object? && ValidateSnapshot(v).Success?
    requires forall key :: SameField(Find(v.members, key), Find(w.members, key))
    ensures ValidateSnapshot(w).Success?
    ensures var b, c := ValidateSnapshot(v).value, ValidateSnapshot(w).value;
      && b.releaseVersion == c.releaseVersion && b.typescript == c.typescript && b.python == c.python
      && b.contractSetSha256 == c.contractSetSha256
  {
    assert SameField(Find(v.members, "schemaVersion"), Find(w.members, "schemaVersion"));
    assert SameField(Find(v.members, "releaseVersion"), Find(w.members, "releaseVersion"));
  }

  lemma ReorderedValidates(v: Value, w: Value)
    requires Valid(v) && Valid(w) && Same(v, w) && ValidateSnapshot(v).Success?
    ensures ValidateSnapshot(w).Success?
    ensures SameSnapshot(ValidateSnapshot(v).value, ValidateSnapshot(w).value)
  {
    forall key ensures SameField(Find(v.members, key), Find(w.members, key)) {
      FieldSame(v, w, key);
    }
    FieldsValidate(v, w);
    PartsSame(v, w);
  }

  lemma PartsSame(v: Value, w: Value)
    requires v.Object? && w.Object? && Same(v, w) && ValidateSnapshot(v).Success? && ValidateSnapshot(w).Success?
    ensures var b, c := ValidateSnapshot(v).value, ValidateSnapshot(w).value;
      && Same(Object(b.runtimeApi), Object(c.runtimeApi))
      && Same(Object(b.contractManifest), Object(c.contractManifest))
      && Same(Object(b.schemas), Object(c.schemas))
      && Same(Array(b.events), Array(c.events)) && Same(Array(b.errorCodes), Array(c.errorCodes))
  {
    hide Same, Valid;
    FieldSame(v, w, "runtimeApi");
    FieldSame(v, w, "contractManifest");
    FieldSame(v, w, "schemas");
    FieldSame(v, w, "events");
    FieldSame(v, w, "errorCodes");
  }

  // ---- The parts of the comparison ------------------------------------------------------

  lemma NoHeaderDiff(b: Snapshot, c: Snapshot)
    requires ValidSnapshot(b) && ValidSnapshot(c) && SameSnapshot(b, c)
    ensures HeaderDiff(b, c) == []
  {
    NoApiFieldDiff(b, c, "apiVersion", "Runtime API version changed.");
    NoApiFieldDiff(b, c, "documentSchemaVersion", "Document schema version changed.");
    NoApiFieldDiff(b, c, "documentSchemaId", "Document schema ID changed.");
  }

  lemma NoApiFieldDiff(b: Snapshot, c: Snapshot, field: string, reason: string)
    requires ValidSnapshot(b) && ValidSnapshot(c) && SameSnapshot(b, c)
    ensures ApiFieldDiff(b, c, field, reason) == []
  {
    FindSame(Object(b.runtimeApi), Object(c.runtimeApi), field);
    EqualExactlyAlike(Object(b.runtimeApi), Object(c.runtimeApi), field);
  }

  lemma {:induction false} NoSchemasDiff(b: seq<Member>, c: seq<Member>, names: seq<string>)
    requires Valid(Object(b)) && Valid(Object(c)) && Same(Object(b), Object(c))
    requires forall i | 0 <= i < |b| :: OrderStable(b[i].value)
    requires forall name | name in names :: name in Keys(b) && name in Keys(c)
    ensures SchemasDiff(b, c, names) == []
  {
    if names == [] {
    } else {
      var name := names[|names| - 1];
      NoSchemasDiff(b, c, names[..|names| - 1]);
      FindSame(Object(b), Object(c), name);
      ValidSchema(b, name);
      ValidSchema(c, name);
      ReorderingHidden(Get(b, name), Get(c, name), "schemas." + name);
    }
  }

  lemma SharedNames(b: seq<Member>, c: seq<Member>)
    requires Keys(b) == Keys(c)
    ensures forall name | name in SchemaNames(b, c) :: name in Keys(b) && name in Keys(c)
  {
    SortPermutes(StrLeq, AllKeys(b, c));
    forall name | name in SchemaNames(b, c) ensures name in Keys(b) && name in Keys(c) {
      assert name in KeyList(b) + KeyList(c);
    }
  }

  lemma NoCollectionDiff(collate: (string, string) -> bool, b: seq<Value>, c: seq<Value>, path: string)
    requires Valid(Array(b)) && Valid(Array(c)) && Same(Array(b), Array(c))
    ensures CollectionDiff(collate, b, c, path) == []
  {
    forall i | 0 <= i < |b| ensures Canonicalize(b[i]) == Canonicalize(c[i]) {
      CanonicalExactlySame(b[i], c[i]);
    }
    assert CanonicalTexts(b) == CanonicalTexts(c);
    var texts := Distinct(SortedCollection(collate, b));
    NothingAbsent(texts, texts, Breaking, path, "Entry removed: ");
    NothingAbsent(texts, texts, ManualReview, path, "Entry added: ");
  }

  // ---- The manifest without generated fields ----------------------------------------------

  lemma {:induction false} SemanticMember(ms: seq<Member>, key: string)
    ensures key in Keys(SemanticMembers(ms)) <==> key in Keys(ms) && key !in GENERATED
    ensures key in Keys(SemanticMembers(ms)) ==>
              Get(SemanticMembers(ms), key) == SemanticManifest(Get(ms, key))
  {
    if ms == [] {
    } else {
      SemanticMember(ms[1..], key);
      var first := if ms[0].key in GENERATED then [] else [Member(ms[0].key, SemanticManifest(ms[0].value))];
      var rest := SemanticMembers(ms[1..]);
      assert ms == [ms[0]] + ms[1..];
      assert Keys(first + rest) == Keys(first) + Keys(rest) by { KeysConcat(first, rest); }
      KeysConcat([ms[0]], ms[1..]);
      if first != [] {
        assert (first + rest)[0] == first[0] && (first + rest)[1..] == rest;
      } else {
        assert first + rest == rest;
      }
    }
  }

  lemma KeysConcat(xs: seq<Member>, ys: seq<Member>)
    ensures Keys(xs + ys) == Keys(xs) + Keys(ys)
  {
    forall key | key in Keys(ys) ensures key in Keys(xs + ys) {
      var i :| 0 <= i < |ys| && ys[i].key == key;
      assert (xs + ys)[|xs| + i].key == key;
    }
    forall key | key in Keys(xs) ensures key in Keys(xs + ys) {
      var i :| 0 <= i < |xs| && xs[i].key == key;
      assert (xs + ys)[i].key == key;
    }
  }

  lemma {:induction false} SemanticValid(v: Value)
    requires Valid(v)
    ensures Valid(SemanticManifest(v))
    decreases v, 1
  {
    match v
    case Array(items) =>
      forall i | 0 <= i < |items| ensures Valid(SemanticManifest(items[i])) { SemanticValid(items[i]); }
    case Object(ms) => SemanticMembersValid(ms);
    case _ =>
  }

  lemma {:induction false} SemanticMembersValid(ms: seq<Member>)
    requires Valid(Object(ms))
    ensures Valid(Object(SemanticMembers(ms)))
    decreases ms, 0
  {
    if ms == [] {
    } else {
      SemanticMembersValid(ms[1..]);
      SemanticValid(ms[0].value);
      SemanticMember(ms[1..], ms[0].key);
      var rest := SemanticMembers(ms[1..]);
      forall j | 0 <= j < |rest| ensures rest[j].key != ms[0].key {
        assert rest[j].key in Keys(rest);
      }
    }
  }

  lemma {:induction false} SemanticSame(v: Value, w: Value)
    requires Valid(v) && Valid(w) && Same(v, w)
    ensures Same(SemanticManifest(v), SemanticManifest(w))
    decreases v
  {
    match v
    case Array(items) =>
      forall i | 0 <= i < |items| ensures Same(SemanticManifest(items[i]), SemanticManifest(w.items[i])) {
        SemanticSame(items[i], w.items[i]);
      }
    case Object(ms) =>
      var ns := w.members;
      var xs, ys := SemanticMembers(ms), SemanticMembers(ns);
      forall key ensures key in Keys(xs) <==> key in Keys(ys) {
        SemanticMember(ms, key);
        SemanticMember(ns, key);
      }
      SemanticMembersValid(ms);
      forall i | 0 <= i < |xs| ensures Same(xs[i].value, Get(ys, xs[i].key)) {
        var key := xs[i].key;
        assert key in Keys(xs);
        SemanticMember(ms, key);
        SemanticMember(ns, key);
        GetAt(xs, i);
        FindSame(v, w, key);
        var k :| 0 <= k < |ms| && ms[k] == Member(key, Get(ms, key));
        ValidFind(w, key);
        SemanticSame(ms[k].value, Get(ns, key));
      }
    case _ =>
  }

  lemma NoManifestDiff(collate: (string, string) -> bool, b: seq<Member>, c: seq<Member>)
    requires Valid(Object(b)) && Valid(Object(c)) && Same(Object(b), Object(c))
    ensures ManifestDiff(collate, b, c) == []
  {
    SemanticSame(Object(b), Object(c));
    SemanticValid(Object(b));
    SemanticValid(Object(c));
    EqualExactlySame(SemanticManifest(Object(b)), SemanticManifest(Object(c)));
  }

  lemma SameSnapshotNoDiff(collate: (string, string) -> bool, b: Snapshot, c: Snapshot)
    requires ValidSnapshot(b) && ValidSnapshot(c) && SameSnapshot(b, c) && StableSchemas(b)
    ensures SnapshotDiff(collate, b, c) == []
  {
    NoHeaderDiff(b, c);
    SharedNames(b.schemas, c.schemas);
    NoSchemasDiff(b.schemas, c.schemas, SchemaNames(b.schemas, c.schemas));
    NoManifestDiff(collate, b.contractManifest, c.contractManifest);
    NoCollectionDiff(collate, b.events, c.events, "events");
    NoCollectionDiff(collate, b.errorCodes, c.errorCodes, "errorCodes");
  }

  /** Classifying a valid snapshot against a reordered copy gives `no-impact` and no changes. */
  lemma ReorderedSnapshotNoImpact(collate: (string, string) -> bool, v: Value, w: Value)
    requires Valid(v) && Valid(w) && Same(v, w)
    requires ValidateSnapshot(v).Success? && StableSchemas(ValidateSnapshot(v).value)
    ensures ValidateSnapshot(w).Success?
    ensures var changes := AddAll([], SnapshotDiff(collate, ValidateSnapshot(v).value, ValidateSnapshot(w).value));
      changes == [] && Classification(changes) == NoImpact
  {
    hide ValidateSnapshot, SnapshotDiff, Valid, Same;
    ReorderedValidates(v, w);
    SnapshotOfValidJson(v);
    SnapshotOfValidJson(w);
    var b, c := ValidateSnapshot(v).value, ValidateSnapshot(w).value;
    SameSnapshotNoDiff(collate, b, c);
    NoImpactExactlyEmpty(SnapshotDiff(collate, b, c));
  }

  // ---- The condition is exact --------------------------------------------------------------

  function WithMember(ms: seq<Member>, i: nat, x: Value): seq<Member>
    requires i < |ms|
  {
    ms[i := Member(ms[i].key, x)]
  }

  /** Reordering inside one member reorders the object, and leaves its other members alone. */
  lemma MemberReordered(ms: seq<Member>, i: nat, x: Value)
    requires Valid(Object(ms)) && i < |ms| && Valid(x) && Same(ms[i].value, x)
    ensures Valid(Object(WithMember(ms, i, x))) && Same(Object(ms), Object(WithMember(ms, i, x)))
    ensures Find(WithMember(ms, i, x), ms[i].key) == Some(x)
  {
    var ns := WithMember(ms, i, x);
    forall k | 0 <= k < |ms| ensures ns[k].key == ms[k].key && Valid(ns[k].value) && Same(ms[k].value, ns[k].value) {
      SameReflexive(ms[k].value);
    }
    SameKeys(ms, ns);
    forall k | 0 <= k < |ms| ensures ms[k].key in Keys(ns) && Get(ns, ms[k].key) == ns[k].value {
      GetAt(ns, k);
    }
  }

  lemma SameKeys(ms: seq<Member>, ns: seq<Member>)
    requires |ms| == |ns| && forall k | 0 <= k < |ms| :: ns[k].key == ms[k].key
    ensures Keys(ms) == Keys(ns)
  {
    forall key | key in Keys(ms) ensures key in Keys(ns) {
      var k :| 0 <= k < |ms| && ms[k].key == key;
      assert ns[k].key == key;
    }
    forall key | key in Keys(ns) ensures key in Keys(ms) {
      var k :| 0 <= k < |ns| && ns[k].key == key;
      assert ms[k].key == key;
    }
  }

  lemma SchemasMember(v: Value) returns (j: nat)
    requires Valid(v) && ValidateSnapshot(v).Success?
    ensures v.Object? && j < |v.members| && v.members[j].key == "schemas"
    ensures v.members[j].value == Object(ValidateSnapshot(v).value.schemas)
  {
    j :| 0 <= j < |v.members| && v.members[j].key == "schemas";
    GetAt(v.members, j);
  }

  lemma SchemasOf(w: Value, schemas: seq<Member>)
    requires w.Object? && ValidateSnapshot(w).Success? && Find(w.members, "schemas") == Some(Object(schemas))
    ensures ValidateSnapshot(w).value.schemas == schemas
  {
  }

  lemma ReportedCopy(collate: (string, string) -> bool, b: Snapshot, c: Snapshot, i: nat, x: Value)
    requires ValidSnapshot(b) && i < |b.schemas| && c.schemas == WithMember(b.schemas, i, x)
    requires Find(c.schemas, b.schemas[i].key) == Some(x)
    requires SchemaDiff(Some(b.schemas[i].value), Some(x), "schemas." + b.schemas[i].key) != []
    ensures SnapshotDiff(collate, b, c) != []
  {
    hide SchemaDiff, SnapshotDiff;
    var name := b.schemas[i].key;
    GetAt(b.schemas, i);
    var named := NamedSchemaDiff(b.schemas, c.schemas, name);
    SchemaWithin(collate, b, c, name);
    assert named != [];
    assert named[0] in named;
  }

  /** The copy of one schema that the checker tells from it. */
  lemma UnstableMember(ms: seq<Member>) returns (i: nat, x: Value)
    requires Valid(Object(ms)) && exists k :: 0 <= k < |ms| && !OrderStable(ms[k].value)
    ensures i < |ms| && Valid(x) && Same(ms[i].value, x)
    ensures SchemaDiff(Some(ms[i].value), Some(x), "schemas." + ms[i].key) != []
  {
    hide OrderStable, SchemaDiff;
    i :| 0 <= i < |ms| && !OrderStable(ms[i].value);
    var mode := UnstableReported(ms[i].value, "schemas." + ms[i].key);
    x := Copy(mode, ms[i].value);
    CopyIsSame(mode, ms[i].value);
  }

  /** A snapshot with an unstable schema has a reordered copy that the classification reports. */
  lemma UnstableSnapshotReported(collate: (string, string) -> bool, v: Value) returns (w: Value)
    requires Valid(v) && ValidateSnapshot(v).Success? && !StableSchemas(ValidateSnapshot(v).value)
    ensures Valid(w) && Same(v, w) && ValidateSnapshot(w).Success?
    ensures SnapshotDiff(collate, ValidateSnapshot(v).value, ValidateSnapshot(w).value) != []
  {
    hide ValidateSnapshot, SnapshotDiff, OrderStable, SchemaDiff, Valid, Same, WithMember, Find;
    var b := ValidateSnapshot(v).value;
    SnapshotOfValidJson(v);
    var j := SchemasMember(v);
    var i, x := UnstableMember(b.schemas);
    MemberReordered(b.schemas, i, x);
    var schemas := WithMember(b.schemas, i, x);
    MemberReordered(v.members, j, Object(schemas));
    w := Object(WithMember(v.members, j, Object(schemas)));
    AsObject(v);
    ReorderedValidates(v, w);
    SchemasOf(w, schemas);
    ReportedCopy(collate, b, ValidateSnapshot(w).value, i, x);
  }

  lemma AsObject(v: Value)
    requires v.Object?
    ensures v == Object(v.members)
  {
  }

  /** All valid reordered copies of a valid snapshot are `no-impact` exactly when its schemas are stable. */
  lemma ReorderedSnapshotNoImpactExactly(collate: (string, string) -> bool, v: Value)
    requires Valid(v) && ValidateSnapshot(v).Success?
    ensures (forall w | Valid(w) && Same(v, w) && ValidateSnapshot(w).Success? ::
               Classification(AddAll([], SnapshotDiff(collate, ValidateSnapshot(v).value, ValidateSnapshot(w).value))) == NoImpact)
            <==> StableSchemas(ValidateSnapshot(v).value)
  {
    hide ValidateSnapshot, SnapshotDiff, Valid, Same, StableSchemas, Classification;
    if StableSchemas(ValidateSnapshot(v).value) {
      forall w | Valid(w) && Same(v, w) && ValidateSnapshot(w).Success?
        ensures Classification(AddAll([], SnapshotDiff(collate, ValidateSnapshot(v).value, ValidateSnapshot(w).value))) == NoImpact
      {
        ReorderedSnapshotNoImpact(collate, v, w);
      }
    } else {
      var w := UnstableSnapshotReported(collate, v);
      NoImpactExactlyEmpty(SnapshotDiff(collate, ValidateSnapshot(v).value, ValidateSnapshot(w).value));
    }
  }
}
