/**
 What the documents of a JSON Schema are, and what each verdict of the compatibility
 checker says about them.

 Keywords follow JSON Schema 2020-12: `type`, `enum` and `required` (Validation, sections
 6.1.1, 6.1.2 and 6.5.3), `items`, `properties` and `additionalProperties` (Core, sections
 10.3.1.2, 10.3.2.1 and 10.3.2.3). `title` and `description` accept everything. Every other
 keyword is an arbitrary local predicate of (key, value, document).
 */
module SchemaMeaning {
  import opened Wrappers
  import opened Json
  import opened JsonText
  import opened ContractImpact

  /** What the schema language leaves open: integral number tokens, and the local keywords. */
  datatype Dialect = Dialect(integral: string -> bool, local: (string, Value, Value) -> bool)

  /** Local keywords cannot see the order of object members. */
  ghost predicate RespectsOrder(dl: Dialect) {
    forall key, v, w, doc | Valid(v) && Valid(w) && Same(v, w) :: dl.local(key, v, doc) == dl.local(key, w, doc)
  }

  const NOT_LOCAL: set<string> := {
    "additionalProperties", "description", "enum", "items", "properties", "required", "title", "type"
  }

  predicate HasType(dl: Dialect, name: string, d: Value) {
    match d
    case Null => name == "null"
    case Bool(_) => name == "boolean"
    case Number(token) => name == "number" || (name == "integer" && dl.integral(token))
    case String(_) => name == "string"
    case Array(_) => name == "array"
    case Object(_) => name == "object"
  }

  ghost predicate TypeOk(dl: Dialect, t: Option<Value>, d: Value) {
    match t
    case Some(String(name)) => HasType(dl, name, d)
    case Some(Array(names)) => exists i :: 0 <= i < |names| && names[i].String? && HasType(dl, names[i].s, d)
    case _ => true
  }

  ghost predicate EnumOk(e: Option<Value>, d: Value) {
    e.Some? && e.value.Array? ==> exists i :: 0 <= i < |e.value.items| && Same(e.value.items[i], d)
  }

  ghost predicate RequiredOk(r: Option<Value>, d: Value) {
    r.Some? && r.value.Array? && d.Object? ==>
      forall i | 0 <= i < |r.value.items| && r.value.items[i].String? :: r.value.items[i].s in Keys(d.members)
  }

  ghost predicate LocalsOk(dl: Dialect, ms: seq<Member>, d: Value) {
    forall key | key in Keys(ms) && key !in NOT_LOCAL :: dl.local(key, Get(ms, key), d)
  }

  ghost predicate Accepts(dl: Dialect, s: Value, d: Value)
    decreases s, 1
  {
    match s
    case Bool(b) => b
    case Object(ms) =>
      && LocalsOk(dl, ms, d)
      && TypeOk(dl, Find(ms, "type"), d)
      && EnumOk(Find(ms, "enum"), d)
      && RequiredOk(Find(ms, "required"), d)
      && PropertiesOk(dl, s, d)
      && AdditionalOk(dl, s, d)
      && ItemsOk(dl, s, d)
    case _ => false
  }

  ghost predicate PropertiesOk(dl: Dialect, s: Value, d: Value)
    requires s.Object?
    decreases s, 0
  {
    var ps := Members(Find(s.members, "properties"));
    d.Object? ==>
      forall i | 0 <= i < |ps| && ps[i].key in Keys(d.members) ::
        Accepts(dl, ps[i].value, Get(d.members, ps[i].key))
  }

  /** The members that `properties` does not name. */
  ghost predicate AdditionalOk(dl: Dialect, s: Value, d: Value)
    requires s.Object?
    decreases s, 0
  {
    var additional := Find(s.members, "additionalProperties");
    var named := Keys(Members(Find(s.members, "properties")));
    additional.Some? && d.Object? ==>
      forall j | 0 <= j < |d.members| && d.members[j].key !in named ::
        Accepts(dl, additional.value, d.members[j].value)
  }

  /** The elements behind those that `prefixItems` describes. */
  ghost predicate ItemsOk(dl: Dialect, s: Value, d: Value)
    requires s.Object?
    decreases s, 0
  {
    var items := Find(s.members, "items");
    items.Some? && d.Array? ==>
      forall i | |Items(Find(s.members, "prefixItems"))| <= i < |d.items| :: Accepts(dl, items.value, d.items[i])
  }

  /** `additionalProperties` is absent, true or false, here and in every compared subschema. */
  ghost predicate SimpleAdditional(s: Value) {
    s.Object? ==>
      && (Find(s.members, "additionalProperties").Some? ==> Get(s.members, "additionalProperties").Bool?)
      && (forall i | 0 <= i < |Members(Find(s.members, "properties"))| ::
            SimpleAdditional(Members(Find(s.members, "properties"))[i].value))
      && (Find(s.members, "items").Some? ==> SimpleAdditional(Get(s.members, "items")))
  }

  // ---- Keywords that agree --------------------------------------------------------

  /** Both missing, or both there and the same up to member order. */
  ghost predicate Alike(a: Option<Value>, b: Option<Value>) {
    match (a, b)
    case (Some(x), Some(y)) => Same(x, y)
    case _ => a == b
  }

  lemma ValidFind(s: Value, key: string)
    requires Valid(s) && s.Object?
    ensures Find(s.members, key).Some? ==> Valid(Get(s.members, key))
  {
  }

  lemma EqualExactlyAlike(s: Value, t: Value, key: string)
    requires Valid(s) && Valid(t) && s.Object? && t.Object?
    ensures Equal(Find(s.members, key), Find(t.members, key)) <==> Alike(Find(s.members, key), Find(t.members, key))
  {
    ValidFind(s, key);
    ValidFind(t, key);
    if Find(s.members, key).Some? && Find(t.members, key).Some? {
      EqualExactlySame(Get(s.members, key), Get(t.members, key));
    }
  }

  lemma FindSame(s: Value, t: Value, key: string)
    requires s.Object? && Same(s, t)
    ensures Alike(Find(s.members, key), Find(t.members, key))
  {
    if key in Keys(s.members) {
      var i :| 0 <= i < |s.members| && s.members[i] == Member(key, Get(s.members, key));
      assert Same(s.members[i].value, Get(t.members, key));
    }
  }

  lemma TypeAlike(dl: Dialect, s: Option<Value>, t: Option<Value>, d: Value)
    requires Alike(s, t) && TypeOk(dl, s, d)
    ensures TypeOk(dl, t, d)
  {
    if s.Some? && s.value.Array? {
      var i :| 0 <= i < |s.value.items| && s.value.items[i].String? && HasType(dl, s.value.items[i].s, d);
      assert Same(s.value.items[i], t.value.items[i]);
    }
  }

  lemma EnumAlike(s: Option<Value>, t: Option<Value>, d: Value)
    requires s.Some? && t.Some? ==> Valid(s.value) && Valid(t.value)
    requires Valid(d) && Alike(s, t) && EnumOk(s, d)
    ensures EnumOk(t, d)
  {
    if s.Some? && s.value.Array? {
      var i :| 0 <= i < |s.value.items| && Same(s.value.items[i], d);
      var x, y := s.value.items[i], t.value.items[i];
      SameSymmetric(x, y);
      SameTransitive(y, x, d);
    }
  }

  lemma RequiredAlike(s: Option<Value>, t: Option<Value>, d: Value)
    requires Alike(s, t) && RequiredOk(s, d)
    ensures RequiredOk(t, d)
  {
    if s.Some? && s.value.Array? && d.Object? {
      forall i | 0 <= i < |t.value.items| && t.value.items[i].String?
        ensures t.value.items[i].s in Keys(d.members)
      {
        assert Same(s.value.items[i], t.value.items[i]);
      }
    }
  }

  lemma LocalsAlike(dl: Dialect, s: Value, t: Value, d: Value)
    requires RespectsOrder(dl) && Valid(s) && Valid(t) && s.Object? && t.Object?
    requires forall key | key !in NOT_LOCAL :: Alike(Find(s.members, key), Find(t.members, key))
    requires LocalsOk(dl, s.members, d)
    ensures LocalsOk(dl, t.members, d)
  {
    forall key | key in Keys(t.members) && key !in NOT_LOCAL
      ensures dl.local(key, Get(t.members, key), d)
    {
      assert Alike(Find(s.members, key), Find(t.members, key));
      ValidFind(s, key);
      ValidFind(t, key);
    }
  }

  /** Reordering the members of a schema does not change its documents. */
  lemma {:induction false} ReorderedSchemaAccepts(dl: Dialect, s: Value, t: Value, d: Value)
    requires RespectsOrder(dl) && Valid(s) && Valid(t) && Valid(d) && Same(s, t)
    requires Accepts(dl, s, d)
    ensures Accepts(dl, t, d)
    decreases s
  {
    if s.Object? {
      forall key ensures Alike(Find(s.members, key), Find(t.members, key)) { FindSame(s, t, key); }
      LocalsAlike(dl, s, t, d);
      TypeAlike(dl, Find(s.members, "type"), Find(t.members, "type"), d);
      ValidFind(s, "enum");
      ValidFind(t, "enum");
      EnumAlike(Find(s.members, "enum"), Find(t.members, "enum"), d);
      RequiredAlike(Find(s.members, "required"), Find(t.members, "required"), d);
      ReorderedProperties(dl, s, t, d);
      ReorderedAdditional(dl, s, t, d);
      ReorderedItems(dl, s, t, d);
    }
  }

  lemma SameMembers(s: Option<Value>, t: Option<Value>)
    requires Alike(s, t)
    ensures Keys(Members(s)) == Keys(Members(t))
  {
  }

  lemma ReorderedProperties(dl: Dialect, s: Value, t: Value, d: Value)
    requires RespectsOrder(dl) && Valid(s) && Valid(t) && Valid(d) && Same(s, t) && s.Object?
    requires PropertiesOk(dl, s, d)
    ensures PropertiesOk(dl, t, d)
    decreases s, 0
  {
    FindSame(s, t, "properties");
    ValidFind(s, "properties");
    ValidFind(t, "properties");
    var ps, qs := Members(Find(s.members, "properties")), Members(Find(t.members, "properties"));
    if d.Object? {
      forall i | 0 <= i < |qs| && qs[i].key in Keys(d.members)
        ensures Accepts(dl, qs[i].value, Get(d.members, qs[i].key))
      {
        assert qs[i].key in Keys(ps);
        var k :| 0 <= k < |ps| && ps[k].key == qs[i].key;
        GetAt(qs, i);
        assert Same(ps[k].value, Get(qs, ps[k].key));
        ReorderedSchemaAccepts(dl, ps[k].value, qs[i].value, Get(d.members, qs[i].key));
      }
    }
  }

  lemma ReorderedAdditional(dl: Dialect, s: Value, t: Value, d: Value)
    requires RespectsOrder(dl) && Valid(s) && Valid(t) && Valid(d) && Same(s, t) && s.Object?
    requires AdditionalOk(dl, s, d)
    ensures AdditionalOk(dl, t, d)
    decreases s, 0
  {
    FindSame(s, t, "properties");
    FindSame(s, t, "additionalProperties");
    ValidFind(s, "additionalProperties");
    ValidFind(t, "additionalProperties");
    SameMembers(Find(s.members, "properties"), Find(t.members, "properties"));
    if Find(t.members, "additionalProperties").Some? && d.Object? {
      forall j | 0 <= j < |d.members| && d.members[j].key !in Keys(Members(Find(t.members, "properties")))
        ensures Accepts(dl, Get(t.members, "additionalProperties"), d.members[j].value)
      {
        ReorderedSchemaAccepts(dl, Get(s.members, "additionalProperties"), Get(t.members, "additionalProperties"),
                               d.members[j].value);
      }
    }
  }

  lemma ReorderedItems(dl: Dialect, s: Value, t: Value, d: Value)
    requires RespectsOrder(dl) && Valid(s) && Valid(t) && Valid(d) && Same(s, t) && s.Object?
    requires ItemsOk(dl, s, d)
    ensures ItemsOk(dl, t, d)
    decreases s, 0
  {
    FindSame(s, t, "items");
    FindSame(s, t, "prefixItems");
    ValidFind(s, "items");
    ValidFind(t, "items");
    if Find(t.members, "items").Some? && d.Array? {
      forall i | |Items(Find(t.members, "prefixItems"))| <= i < |d.items|
        ensures Accepts(dl, Get(t.members, "items"), d.items[i])
      {
        ReorderedSchemaAccepts(dl, Get(s.members, "items"), Get(t.members, "items"), d.items[i]);
      }
    }
  }
}
