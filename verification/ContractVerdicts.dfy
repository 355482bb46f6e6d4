/** What the classification of two snapshots promises about the documents of their schemas. */
module ContractVerdicts {
  import opened Wrappers
  import opened Ordering
  import opened Json
  import opened JsonText
  import opened ContractImpact
  import opened ContractSnapshots
  import opened SchemaMeaning
  import opened SchemaVerdicts

  ghost predicate ValidSnapshot(s: Snapshot) {
    && Valid(Object(s.runtimeApi)) && Valid(Object(s.contractManifest)) && Valid(Object(s.schemas))
    && Valid(Array(s.events)) && Valid(Array(s.errorCodes))
  }

  lemma SnapshotOfValidJson(v: Value)
    requires Valid(v) && ValidateSnapshot(v).Success?
    ensures ValidSnapshot(ValidateSnapshot(v).value)
  {
    ValidFind(v, "runtimeApi");
    ValidFind(v, "contractManifest");
    ValidFind(v, "schemas");
    ValidFind(v, "events");
    ValidFind(v, "errorCodes");
  }

  /** `no-impact` means that nothing at all was recorded. */
  lemma NoImpactExactlyEmpty(diff: seq<Change>)
    ensures Classification(AddAll([], diff)) == NoImpact <==> diff == []
  {
    AddAllElements([], diff);
    var changes := AddAll([], diff);
    HeadIn(diff);
    if diff != [] {
      assert diff[0] in changes;
    }
  }

  /** A classification is `additive` exactly when something is recorded, all of it additive. */
  lemma AdditiveExactlyQuiet(diff: seq<Change>)
    ensures Classification(AddAll([], diff)) == Additive <==> diff != [] && Quiet(diff)
  {
    AddAllElements([], diff);
    var changes := AddAll([], diff);
    HeadIn(diff);
    if Quiet(diff) {
      forall i | 0 <= i < |changes| ensures changes[i].classification == Additive {
        assert changes[i] in diff;
      }
    } else {
      var ch :| ch in diff && ch.classification != Additive;
      assert ch in changes;
      var i :| 0 <= i < |changes| && changes[i] == ch;
      assert Records(changes, ch.classification);
    }
  }

  /** Whether two headers differ, field by field. */
  predicate SameHeader(b: Snapshot, c: Snapshot) {
    && b.contractSetSha256 == c.contractSetSha256
    && forall field | field in ["apiVersion", "documentSchemaVersion", "documentSchemaId"] ::
         Equal(Find(b.runtimeApi, field), Find(c.runtimeApi, field))
  }

  /** Any difference between the headers makes the classification `breaking`, whatever else changed. */
  lemma HeaderChangeIsBreaking(collate: (string, string) -> bool, b: Snapshot, c: Snapshot)
    ensures HeaderDiff(b, c) == [] <==> SameHeader(b, c)
    ensures !SameHeader(b, c) ==> Classification(AddAll([], SnapshotDiff(collate, b, c))) == Breaking
  {
    var header, diff := HeaderDiff(b, c), SnapshotDiff(collate, b, c);
    HeaderIsSilent(b, c);
    AddAllElements([], diff);
    if header != [] {
      assert header[0].classification == Breaking && header[0] in header;
      assert header[0] in diff;
      var changes := AddAll([], diff);
      var i :| 0 <= i < |changes| && changes[i] == header[0];
      assert Records(changes, Breaking);
    }
  }

  lemma HeaderIsSilent(b: Snapshot, c: Snapshot)
    ensures HeaderDiff(b, c) == [] <==> SameHeader(b, c)
    ensures forall ch | ch in HeaderDiff(b, c) :: ch.classification == Breaking
  {
    var fields := ["apiVersion", "documentSchemaVersion", "documentSchemaId"];
    assert fields[0] in fields && fields[1] in fields && fields[2] in fields;
  }

  // ---- From a snapshot diff to one schema ----------------------------------------------

  lemma SchemasWithin(collate: (string, string) -> bool, b: Snapshot, c: Snapshot)
    ensures Within(SchemasDiff(b.schemas, c.schemas, SchemaNames(b.schemas, c.schemas)), SnapshotDiff(collate, b, c))
  {
  }

  lemma {:induction false} NamedWithin(b: seq<Member>, c: seq<Member>, names: seq<string>, name: string)
    requires name in names
    ensures Within(NamedSchemaDiff(b, c, name), SchemasDiff(b, c, names))
  {
    var n := |names| - 1;
    WithinConcat(SchemasDiff(b, c, names[..n]), NamedSchemaDiff(b, c, names[n]));
    if name != names[n] {
      assert names == names[..n] + [names[n]];
      NamedWithin(b, c, names[..n], name);
    }
  }

  lemma SchemaWithin(collate: (string, string) -> bool, b: Snapshot, c: Snapshot, name: string)
    requires name in Keys(b.schemas) || name in Keys(c.schemas)
    ensures Within(NamedSchemaDiff(b.schemas, c.schemas, name), SnapshotDiff(collate, b, c))
  {
    KeyListed(b.schemas, c.schemas, name);
    SortPermutes(StrLeq, AllKeys(b.schemas, c.schemas));
    NamedWithin(b.schemas, c.schemas, SchemaNames(b.schemas, c.schemas), name);
    SchemasWithin(collate, b, c);
  }

  lemma RemovedSchemaReported(b: seq<Member>, c: seq<Member>, name: string)
    requires name in Keys(b) && Quiet(NamedSchemaDiff(b, c, name))
    ensures name in Keys(c)
  {
    HeadIn(NamedSchemaDiff(b, c, name));
  }

  lemma ValidSchema(ms: seq<Member>, name: string)
    requires Valid(Object(ms)) && name in Keys(ms)
    ensures Valid(Get(ms, name))
  {
    ValidFind(Object(ms), name);
  }

  /** `no-impact`: the same schema names, and each schema keeps exactly its documents. */
  lemma NoImpactKeepsDocuments(collate: (string, string) -> bool, dl: Dialect, b: Snapshot, c: Snapshot, name: string, d: Value)
    requires RespectsOrder(dl) && ValidSnapshot(b) && ValidSnapshot(c) && Valid(d)
    requires Classification(AddAll([], SnapshotDiff(collate, b, c))) == NoImpact
    requires name in Keys(b.schemas) || name in Keys(c.schemas)
    ensures name in Keys(b.schemas) && name in Keys(c.schemas)
    ensures Accepts(dl, Get(b.schemas, name), d) <==> Accepts(dl, Get(c.schemas, name), d)
  {
    NoImpactExactlyEmpty(SnapshotDiff(collate, b, c));
    SchemaWithin(collate, b, c, name);
    WithinEmpty(NamedSchemaDiff(b.schemas, c.schemas, name), SnapshotDiff(collate, b, c));
    ValidSchema(b.schemas, name);
    ValidSchema(c.schemas, name);
    NothingRecorded(dl, Get(b.schemas, name), Get(c.schemas, name), "schemas." + name, d);
  }

  /**
   `additive` without a loosened object: no schema disappears, and whatever a candidate schema
   accepts its baseline accepts, where new properties fit under `additionalProperties`.
   */
  lemma AdditiveNarrows(collate: (string, string) -> bool, dl: Dialect, b: Snapshot, c: Snapshot, name: string, d: Value)
    requires RespectsOrder(dl) && ValidSnapshot(b) && ValidSnapshot(c) && Valid(d)
    requires Classification(AddAll([], SnapshotDiff(collate, b, c))) == Additive
    requires forall ch | ch in SnapshotDiff(collate, b, c) :: ch.reason != LOOSENED
    requires name in Keys(b.schemas)
    requires name in Keys(c.schemas) ==> Fits(dl, Get(b.schemas, name), Get(c.schemas, name))
    ensures name in Keys(c.schemas)
    ensures Accepts(dl, Get(c.schemas, name), d) ==> Accepts(dl, Get(b.schemas, name), d)
  {
    AdditiveExactlyQuiet(SnapshotDiff(collate, b, c));
    SchemaWithin(collate, b, c, name);
    RemovedSchemaReported(b.schemas, c.schemas, name);
    ValidSchema(b.schemas, name);
    ValidSchema(c.schemas, name);
    if Accepts(dl, Get(c.schemas, name), d) {
      CandidateNarrows(dl, Get(b.schemas, name), Get(c.schemas, name), "schemas." + name, d);
    }
  }

  /** `additive` with nothing but loosened objects: no schema disappears, and none rejects more. */
  lemma AdditiveWidens(collate: (string, string) -> bool, dl: Dialect, b: Snapshot, c: Snapshot, name: string, d: Value)
    requires RespectsOrder(dl) && ValidSnapshot(b) && ValidSnapshot(c) && Valid(d)
    requires Classification(AddAll([], SnapshotDiff(collate, b, c))) == Additive
    requires forall ch | ch in SnapshotDiff(collate, b, c) :: ch.reason == LOOSENED
    requires name in Keys(b.schemas)
    ensures name in Keys(c.schemas)
    ensures Accepts(dl, Get(b.schemas, name), d) ==> Accepts(dl, Get(c.schemas, name), d)
  {
    AdditiveExactlyQuiet(SnapshotDiff(collate, b, c));
    SchemaWithin(collate, b, c, name);
    RemovedSchemaReported(b.schemas, c.schemas, name);
    ValidSchema(b.schemas, name);
    ValidSchema(c.schemas, name);
    if Accepts(dl, Get(b.schemas, name), d) {
      CandidateWidens(dl, Get(b.schemas, name), Get(c.schemas, name), "schemas." + name, d);
    }
  }

  // ---- Each condition is needed: additive changes alone promise neither direction --------

  /** Keywords that neither side has are no change. */
  lemma {:induction false} NoSuchKeys(rule: KeyRule, bm: seq<Member>, cm: seq<Member>, path: string, keys: seq<string>)
    requires forall key | key in keys ::
               (key !in Keys(bm) && key !in Keys(cm)) || (rule == Constraint && key in IGNORED)
    ensures KeyDiffs(rule, bm, cm, path, keys) == []
  {
    if keys != [] {
      var key := keys[|keys| - 1];
      assert key in keys;
      NoSuchKeys(rule, bm, cm, path, keys[..|keys| - 1]);
    }
  }

  /** Schemas of properties only: no other keyword can change. */
  lemma OtherKeysStay(bm: seq<Member>, cm: seq<Member>, path: string)
    requires Keys(bm) + Keys(cm) <= {"properties", "additionalProperties"}
    ensures KeyDiffs(Identity, bm, cm, path, IDENTITY_KEYS) == []
    ensures KeyDiffs(Composition, bm, cm, path, COMPOSITION_KEYS) == []
    ensures KeyDiffs(Constraint, bm, cm, path, AllKeys(bm, cm)) == []
    ensures Find(bm, "type") == None && Find(cm, "type") == None
    ensures Find(bm, "items") == None && Find(cm, "items") == None
  {
    hide KeyDiffs, AllKeys;
    assert "properties" in IGNORED && "additionalProperties" in IGNORED;
    forall key | key in IDENTITY_KEYS + COMPOSITION_KEYS + ["type", "items"]
      ensures key !in Keys(bm) && key !in Keys(cm)
    {
      assert key[0] != 'p' && |key| != |"additionalProperties"|;
    }
    NoSuchKeys(Identity, bm, cm, path, IDENTITY_KEYS);
    NoSuchKeys(Composition, bm, cm, path, COMPOSITION_KEYS);
    forall key | key in AllKeys(bm, cm) ensures key in IGNORED {
      KeysListed(bm, cm, key);
    }
    NoSuchKeys(Constraint, bm, cm, path, AllKeys(bm, cm));
  }

  lemma KeysListed(bm: seq<Member>, cm: seq<Member>, key: string)
    ensures key in AllKeys(bm, cm) ==> key in Keys(bm) || key in Keys(cm)
  {
    if key in AllKeys(bm, cm) {
      assert key in KeyList(bm) || key in KeyList(cm);
    }
  }

  lemma PropertiesDiffer(bm: seq<Member>, cm: seq<Member>, path: string)
    requires Keys(bm) + Keys(cm) <= {"properties", "additionalProperties"}
    ensures ObjectDiff(bm, Object(cm), path) == FlatDiff(bm, cm, path) + Flatten(PropertyDiffs(bm, Object(cm), path))
  {
    hide KeyDiffs, AllKeys, FlatDiff, PropertyDiffs, Flatten;
    OtherKeysStay(bm, cm, path);
  }

  lemma OneMember(key: string, v: Value)
    ensures var ms := [Member(key, v)]; Keys(ms) == {key} && Get(ms, key) == v
    ensures Keys([]) == {}
  {
    assert [Member(key, v)][0].key == key;
  }

  function OneProperty(name: string, property: Value): Value {
    Object([Member("properties", Object([Member(name, property)]))])
  }

  lemma OnePropertyParts(name: string, property: Value)
    ensures var ms := OneProperty(name, property).members;
      Keys(ms) == {"properties"} && Members(Find(ms, "properties")) == [Member(name, property)]
  {
    OneMember("properties", Object([Member(name, property)]));
  }

  lemma OnePropertyIsFlat(name: string, property: Value, path: string)
    ensures FlatDiff([], OneProperty(name, property).members, path) == []
  {
    OnePropertyParts(name, property);
    var ms := OneProperty(name, property).members;
    forall key | key in {"enum", "required", "additionalProperties"} ensures Find(ms, key) == None {
      assert |key| != |"properties"|;
    }
  }

  lemma OnePropertyRecorded(name: string, property: Value, path: string)
    ensures SchemaDiff(Some(Object([])), Some(OneProperty(name, property)), path) == [NewProperty(name, {}, false, path)]
  {
    hide FlatDiff, NewProperty, ObjectDiff;
    var c := OneProperty(name, property);
    OnePropertyParts(name, property);
    PropertiesDiffer([], c.members, path);
    OnePropertyIsFlat(name, property, path);
    assert Find(c.members, "required") == None by {
      assert |"required"| != |"properties"|;
    }
    assert Names([]) == {} && Keys([]) == {};
    assert PropertyDiff([], c, 0, path) == [NewProperty(name, {}, false, path)];
    assert PropertyDiffs([], c, path) == [[NewProperty(name, {}, false, path)]];
  }

  /** A new optional property of an open object is additive, yet rejects documents that the baseline accepts. */
  lemma NewPropertyRejects(dl: Dialect, name: string, property: Value, v: Value, path: string)
    returns (b: Value, c: Value, d: Value)
    requires !Accepts(dl, property, v)
    ensures Classification(AddAll([], SchemaDiff(Some(b), Some(c), path))) == Additive
    ensures Accepts(dl, b, d) && !Accepts(dl, c, d)
  {
    hide SchemaDiff;
    b, c, d := Object([]), OneProperty(name, property), Object([Member(name, v)]);
    OnePropertyParts(name, property);
    OneMember(name, v);
    OnePropertyRecorded(name, property, path);
    AdditiveExactlyQuiet(SchemaDiff(Some(b), Some(c), path));
    assert !PropertiesOk(dl, c, d) by {
      assert Members(Find(c.members, "properties"))[0] == Member(name, property);
    }
  }

  // ---- A new property under a schema for unnamed members ---------------------------------

  /** Objects whose unnamed members `a` describes, before and after one of them gets a name. */
  function Unnamed(a: Value): Value {
    Object([Member("additionalProperties", a)])
  }

  function Named(a: Value, name: string, property: Value): Value {
    Object([Member("additionalProperties", a), Member("properties", Object([Member(name, property)]))])
  }

  lemma NamedParts(a: Value, name: string, property: Value)
    ensures var ms := Named(a, name, property).members;
      && Keys(ms) == {"additionalProperties", "properties"}
      && Find(ms, "additionalProperties") == Some(a) && Members(Find(ms, "properties")) == [Member(name, property)]
    ensures Keys(Unnamed(a).members) == {"additionalProperties"}
    ensures Find(Unnamed(a).members, "additionalProperties") == Some(a)
  {
    var ms := Named(a, name, property).members;
    assert ms[0].key == "additionalProperties" && ms[1].key == "properties";
    assert |"additionalProperties"| != |"properties"|;
    assert ms[1..] == [Member("properties", Object([Member(name, property)]))];
    OneMember("properties", Object([Member(name, property)]));
    OneMember("additionalProperties", a);
  }

  lemma NamedIsFlat(a: Value, name: string, property: Value, path: string)
    ensures FlatDiff(Unnamed(a).members, Named(a, name, property).members, path) == []
  {
    NamedParts(a, name, property);
    var bm, cm := Unnamed(a).members, Named(a, name, property).members;
    forall key | key in {"enum", "required"} ensures Find(bm, key) == None && Find(cm, key) == None {
      assert |key| != |"additionalProperties"| && |key| != |"properties"|;
    }
    assert |"additionalProperties"| != |"properties"|;
    assert Members(Find(bm, "properties")) == [];
  }

  lemma NamedRecorded(a: Value, name: string, property: Value, path: string)
    requires a != Bool(false)
    ensures SchemaDiff(Some(Unnamed(a)), Some(Named(a, name, property)), path) == [NewProperty(name, {}, false, path)]
  {
    hide FlatDiff, NewProperty, ObjectDiff;
    var bm, c := Unnamed(a).members, Named(a, name, property);
    NamedParts(a, name, property);
    PropertiesDiffer(bm, c.members, path);
    NamedIsFlat(a, name, property, path);
    assert Find(c.members, "required") == None && Find(bm, "properties") == None by {
      assert |"required"| != |"properties"| && |"required"| != |"additionalProperties"|;
      assert |"additionalProperties"| != |"properties"|;
    }
    assert Names([]) == {} && Keys([]) == {};
    assert PropertyDiff(bm, c, 0, path) == [NewProperty(name, {}, false, path)];
    assert PropertyDiffs(bm, c, path) == [[NewProperty(name, {}, false, path)]];
  }

  lemma PlainAccepts(dl: Dialect, s: Value, d: Value)
    requires s.Object? && Keys(s.members) <= {"additionalProperties", "properties"}
    ensures Accepts(dl, s, d) <==> PropertiesOk(dl, s, d) && AdditionalOk(dl, s, d)
  {
    assert "additionalProperties" in NOT_LOCAL && "properties" in NOT_LOCAL;
    forall key | key in {"type", "enum", "required", "items"} ensures Find(s.members, key) == None {
      assert |key| != |"additionalProperties"| && |key| != |"properties"|;
    }
  }

  /**
   A new property is additive, also where a schema describes unnamed members; yet the candidate
   accepts a document that the baseline rejects when the property accepts what that schema rejects.
   */
  lemma NewPropertyEscapes(dl: Dialect, a: Value, name: string, property: Value, v: Value, path: string)
    returns (b: Value, c: Value, d: Value)
    requires a != Bool(false) && Accepts(dl, property, v) && !Accepts(dl, a, v)
    ensures b == Unnamed(a) && c == Named(a, name, property) && d == Object([Member(name, v)])
    ensures OnlyNewProperties(SchemaDiff(Some(b), Some(c), path))
    ensures Classification(AddAll([], SchemaDiff(Some(b), Some(c), path))) == Additive
    ensures !Accepts(dl, b, d) && Accepts(dl, c, d)
  {
    hide SchemaDiff, Accepts;
    b, c, d := Unnamed(a), Named(a, name, property), Object([Member(name, v)]);
    NamedParts(a, name, property);
    OneMember(name, v);
    OneMember(name, property);
    NamedRecorded(a, name, property, path);
    NewIsNotLoosened(name, path);
    AdditiveExactlyQuiet(SchemaDiff(Some(b), Some(c), path));
    PlainAccepts(dl, b, d);
    PlainAccepts(dl, c, d);
    assert |"additionalProperties"| != |"properties"|;
    assert !AdditionalOk(dl, b, d) by {
      assert d.members[0] == Member(name, v);
    }
  }

  lemma NewIsNotLoosened(name: string, path: string)
    ensures OnlyNewProperties([NewProperty(name, {}, false, path)])
  {
    assert |NewProperty(name, {}, false, path).reason| != |LOOSENED|;
  }

  /** For such a pair the candidate accepts no more than the baseline exactly when the property fits. */
  lemma NamedNarrowsExactly(dl: Dialect, a: Value, name: string, property: Value)
    requires a != Bool(false)
    ensures (forall d | Valid(d) :: Accepts(dl, Named(a, name, property), d) ==> Accepts(dl, Unnamed(a), d))
            <==> FitsUnder(dl, property, Some(a))
  {
    hide Accepts;
    var b, c := Unnamed(a), Named(a, name, property);
    if FitsUnder(dl, property, Some(a)) {
      forall d | Valid(d) && Accepts(dl, c, d) ensures Accepts(dl, b, d) {
        NamedNarrows(dl, a, name, property, d);
      }
    } else {
      var v :| Valid(v) && Accepts(dl, property, v) && !Accepts(dl, a, v);
      var _, _, d := NewPropertyEscapes(dl, a, name, property, v, "");
      assert Valid(d);
    }
  }

  lemma NamedNarrows(dl: Dialect, a: Value, name: string, property: Value, d: Value)
    requires Valid(d) && FitsUnder(dl, property, Some(a)) && Accepts(dl, Named(a, name, property), d)
    ensures Accepts(dl, Unnamed(a), d)
  {
    hide Accepts;
    var b, c := Unnamed(a), Named(a, name, property);
    NamedParts(a, name, property);
    PlainAccepts(dl, b, d);
    PlainAccepts(dl, c, d);
    assert |"additionalProperties"| != |"properties"|;
    if d.Object? {
      var cp := Members(Find(c.members, "properties"));
      assert cp[0] == Member(name, property) && Keys(cp) == {name};
      forall j | 0 <= j < |d.members| ensures Accepts(dl, a, d.members[j].value) {
        GetAt(d.members, j);
      }
    }
  }

  lemma LoosenedRecorded(bm: seq<Member>, path: string)
    requires Keys(bm) == {"additionalProperties"} && IsFalse(Find(bm, "additionalProperties"))
    ensures SchemaDiff(Some(Object(bm)), Some(Object([])), path) ==
            [Change(Additive, path + ".additionalProperties", LOOSENED)]
  {
    hide ObjectDiff;
    PropertiesDiffer(bm, [], path);
    forall key | key in {"enum", "required", "properties"} ensures Find(bm, key) == None {
      assert |key| != |"additionalProperties"|;
    }
    assert Keys([]) == {};
  }

  /** An object that stops rejecting unnamed members is additive, yet accepts documents that the baseline rejects. */
  lemma LoosenedAccepts(dl: Dialect, name: string, v: Value, path: string)
    returns (b: Value, c: Value, d: Value)
    ensures Classification(AddAll([], SchemaDiff(Some(b), Some(c), path))) == Additive
    ensures !Accepts(dl, b, d) && Accepts(dl, c, d)
  {
    var closed := [Member("additionalProperties", Bool(false))];
    b, c, d := Object(closed), Object([]), Object([Member(name, v)]);
    OneMember("additionalProperties", Bool(false));
    LoosenedRecorded(closed, path);
    AdditiveExactlyQuiet(SchemaDiff(Some(b), Some(c), path));
    hide SchemaDiff;
    assert !AdditionalOk(dl, b, d) by {
      assert d.members[0] == Member(name, v);
    }
  }
}
