/**
 Exactly which changes the compatibility checker records for two schemas, and with which verdict,
 stated on the schemas themselves.
 */
module RecordedChanges {
  import opened Wrappers
  import opened Ordering
  import opened Json
  import opened JsonText
  import opened ContractImpact
  import opened SchemaMeaning

  // ---- What is recorded for one keyword --------------------------------------------------

  /** `enum`: a value that only the baseline has breaks, one that only the candidate has needs review. */
  ghost predicate EnumRecorded(b: Option<Value>, c: Option<Value>, path: string, ch: Change) {
    if b.Some? && b.value.Array? && c.Some? && c.value.Array? then
      || (exists x | x in b.value.items && x !in c.value.items ::
            ch == Change(Breaking, path, "Enum value removed: " + Stringify(x) + "."))
      || (exists y | y in c.value.items && y !in b.value.items ::
            ch == Change(ManualReview, path, "Closed enum value added: " + Stringify(y) + "."))
    else !Alike(b, c) && ch == Change(ManualReview, path, "Enum representation changed.")
  }

  predicate Scalar(x: Value) {
    !x.Array? && !x.Object?
  }

  /** `required`: a name that only the candidate lists breaks. A composite entry is never the same as another. */
  ghost predicate RequiredRecorded(b: Option<Value>, c: Option<Value>, path: string, ch: Change) {
    if b.Some? && b.value.Array? && c.Some? && c.value.Array? then
      || (exists y | y in c.value.items && !(y in b.value.items && Scalar(y)) ::
            ch == Change(Breaking, path, "Required property added: " + AsString(y) + "."))
      || (exists x | x in b.value.items && !(x in c.value.items && Scalar(x)) ::
            ch == Change(ManualReview, path, "Required property removed: " + AsString(x) + "."))
    else !Alike(b, c) && ch == Change(ManualReview, path, "Required-property policy changed.")
  }

  /** `additionalProperties`: opening is additive, closing breaks, anything else needs review. */
  ghost predicate AdditionalRecorded(b: Option<Value>, c: Option<Value>, path: string, ch: Change) {
    var closed := Some(Bool(false));
    || (b == closed && c != closed && ch == Change(Additive, path, "Object became more permissive."))
    || (b != closed && c == closed && ch == Change(Breaking, path, "Object became restrictive."))
    || (b != closed && c != closed && !Alike(b, c)
        && ch == Change(ManualReview, path, "Additional-property policy changed."))
  }

  ghost predicate RemovedRecorded(bp: seq<Member>, cp: seq<Member>, path: string, ch: Change) {
    exists key | key in Keys(bp) && key !in Keys(cp) ::
      ch == Change(Breaking, path + ".properties." + key, "Property removed or renamed.")
  }

  ghost predicate IsRequired(required: Option<Value>, key: string) {
    exists y | y in Items(required) :: AsString(y) == key
  }

  /** A new property breaks when it is required, and needs review under a closed object. */
  ghost predicate NewRecorded(bp: seq<Member>, cp: seq<Member>, required: Option<Value>, closed: bool, path: string,
                              ch: Change)
  {
    exists key | key in Keys(cp) && key !in Keys(bp) ::
      ch == if IsRequired(required, key) then
              Change(Breaking, path + ".properties." + key, "New property is required.")
            else if closed then
              Change(ManualReview, path + ".properties." + key,
                     "Optional property may be rejected by existing strict consumers.")
            else
              Change(Additive, path + ".properties." + key,
                     "New optional property is accepted by existing consumers.")
  }

  ghost predicate IdentityRecorded(b: Value, c: Value, path: string, ch: Change)
    requires b.Object? && c.Object?
  {
    exists key | key in {"$id", "$schema"} ::
      !Alike(Find(b.members, key), Find(c.members, key)) && ch == Change(Breaking, path + "." + key, key + " changed.")
  }

  ghost predicate CompositionRecorded(b: Value, c: Value, path: string, ch: Change)
    requires b.Object? && c.Object?
  {
    exists key | key in {"anyOf", "oneOf", "allOf"} ::
      && !Alike(Find(b.members, key), Find(c.members, key))
      && ch == Change(ManualReview, path + "." + key, key + " composition changed.")
  }

  /** Keywords that are compared on their own, and the two that only describe. */
  const HANDLED: set<string> := {
    "$id", "$schema", "type", "enum", "required", "additionalProperties", "properties", "items",
    "anyOf", "oneOf", "allOf", "title", "description"
  }

  ghost predicate ConstraintRecorded(b: Value, c: Value, path: string, ch: Change)
    requires b.Object? && c.Object?
  {
    exists key | key in Keys(b.members) + Keys(c.members) && key !in HANDLED ::
      && !Alike(Find(b.members, key), Find(c.members, key))
      && ch == Change(ManualReview, path + "." + key, "Schema constraint changed.")
  }

  // ---- What is recorded for two schemas --------------------------------------------------

  /** Everything of an object schema but its subschemas, where the types agree. */
  ghost predicate OwnRecorded(b: Value, c: Value, path: string, ch: Change)
    requires b.Object? && c.Object?
  {
    var bm, cm := b.members, c.members;
    var bp, cp := Members(Find(bm, "properties")), Members(Find(cm, "properties"));
    || EnumRecorded(Find(bm, "enum"), Find(cm, "enum"), path + ".enum", ch)
    || RequiredRecorded(Find(bm, "required"), Find(cm, "required"), path + ".required", ch)
    || AdditionalRecorded(Find(bm, "additionalProperties"), Find(cm, "additionalProperties"),
                          path + ".additionalProperties", ch)
    || RemovedRecorded(bp, cp, path, ch)
    || NewRecorded(bp, cp, Find(cm, "required"), Find(bm, "additionalProperties") == Some(Bool(false)), path, ch)
    || CompositionRecorded(b, c, path, ch)
    || ConstraintRecorded(b, c, path, ch)
  }

  ghost predicate ShapeRecorded(path: string, ch: Change) {
    ch == Change(ManualReview, path, "Schema shape changed in an unknown way.")
  }

  /** The checker records this change for the two schemas. */
  ghost predicate Recorded(b: Value, c: Value, path: string, ch: Change)
    decreases b, 1
  {
    if !b.Object? || !c.Object? then !Same(b, c) && ShapeRecorded(path, ch)
    else
      || IdentityRecorded(b, c, path, ch)
      || if !Alike(Find(b.members, "type"), Find(c.members, "type")) then
           ch == Change(ManualReview, path + ".type", "Schema type changed.")
         else
           || OwnRecorded(b, c, path, ch)
           || SharedRecorded(b, c, path, ch)
           || ItemsRecorded(b, c, path, ch)
  }

  /** For a property that both sides name. */
  ghost predicate SharedRecorded(b: Value, c: Value, path: string, ch: Change)
    requires b.Object? && c.Object?
    decreases b, 0
  {
    var bp, cp := Members(Find(b.members, "properties")), Members(Find(c.members, "properties"));
    exists i, k | 0 <= i < |bp| && 0 <= k < |cp| && bp[i].key == cp[k].key ::
      Recorded(bp[i].value, cp[k].value, path + ".properties." + bp[i].key, ch)
  }

  ghost predicate ItemsRecorded(b: Value, c: Value, path: string, ch: Change)
    requires b.Object? && c.Object?
    decreases b, 0
  {
    match (Find(b.members, "items"), Find(c.members, "items"))
    case (Some(_), Some(y)) => Recorded(Get(b.members, "items"), y, path + ".items", ch)
    case (None, None) => false
    case _ => ShapeRecorded(path + ".items", ch)
  }

  // ---- The keyword lists hold exactly that -----------------------------------------------

  lemma {:induction false} AbsentHolds(texts: seq<string>, other: seq<string>, verdict: Verdict, path: string,
                                       intro: string, ch: Change)
    ensures ch in Absent(texts, other, verdict, path, intro) <==>
              exists t | t in texts && t !in other :: ch == Change(verdict, path, intro + t + ".")
  {
    if texts != [] {
      var front, last := texts[..|texts| - 1], texts[|texts| - 1];
      assert texts == front + [last];
      AbsentHolds(front, other, verdict, path, intro, ch);
    }
  }

  lemma TextIn(xs: seq<Value>, x: Value)
    requires Valid(Array(xs)) && Valid(x)
    ensures Stringify(x) in Distinct(Texts(xs)) <==> x in xs
  {
    if Stringify(x) in Texts(xs) {
      var i :| 0 <= i < |xs| && Texts(xs)[i] == Stringify(x);
      StringifyInjective(xs[i], x);
    }
    if x in xs {
      var i :| 0 <= i < |xs| && xs[i] == x;
      assert Texts(xs)[i] == Stringify(x);
    }
  }

  /** One half of an `enum` comparison. */
  lemma EnumSide(xs: seq<Value>, ys: seq<Value>, verdict: Verdict, path: string, intro: string, ch: Change)
    requires Valid(Array(xs)) && Valid(Array(ys))
    ensures ch in Absent(Distinct(Texts(xs)), Distinct(Texts(ys)), verdict, path, intro) <==>
              exists x | x in xs && x !in ys :: ch == Change(verdict, path, intro + Stringify(x) + ".")
  {
    var bs, cs := Distinct(Texts(xs)), Distinct(Texts(ys));
    AbsentHolds(bs, cs, verdict, path, intro, ch);
    if t :| t in bs && t !in cs && ch == Change(verdict, path, intro + t + ".") {
      var i :| 0 <= i < |xs| && Texts(xs)[i] == t;
      TextIn(ys, xs[i]);
      assert xs[i] in xs;
    }
    if x :| x in xs && x !in ys && ch == Change(verdict, path, intro + Stringify(x) + ".") {
      TextIn(xs, x);
      TextIn(ys, x);
    }
  }

  lemma EnumHolds(s: Value, t: Value, path: string, ch: Change)
    requires Valid(s) && Valid(t) && s.Object? && t.Object?
    ensures ch in EnumKeywordDiff(Find(s.members, "enum"), Find(t.members, "enum"), path)
            <==> EnumRecorded(Find(s.members, "enum"), Find(t.members, "enum"), path, ch)
  {
    var b, c := Find(s.members, "enum"), Find(t.members, "enum");
    ValidFind(s, "enum");
    ValidFind(t, "enum");
    EqualExactlyAlike(s, t, "enum");
    if b.Some? && b.value.Array? && c.Some? && c.value.Array? {
      hide Absent, Distinct, Texts, Valid;
      EnumSide(b.value.items, c.value.items, Breaking, path, "Enum value removed: ", ch);
      EnumSide(c.value.items, b.value.items, ManualReview, path, "Closed enum value added: ", ch);
    }
  }

  ghost predicate NameRecorded(names: seq<Value>, other: seq<Value>, verdict: Verdict, path: string, intro: string,
                               ch: Change)
  {
    exists x | x in names && !(x in other && Scalar(x)) :: ch == Change(verdict, path, intro + AsString(x) + ".")
  }

  lemma {:induction false} RequiredAbsentHolds(names: seq<Value>, other: seq<Value>, verdict: Verdict, path: string,
                                               intro: string, ch: Change)
    ensures ch in RequiredAbsent(names, other, verdict, path, intro)
            <==> NameRecorded(names, other, verdict, path, intro, ch)
  {
    hide AsString;
    if names != [] {
      var front, last := names[..|names| - 1], names[|names| - 1];
      assert names == front + [last];
      assert forall x :: x in names <==> x in front || x == last;
      RequiredAbsentHolds(front, other, verdict, path, intro, ch);
    }
  }

  lemma RequiredHolds(s: Value, t: Value, path: string, ch: Change)
    requires Valid(s) && Valid(t) && s.Object? && t.Object?
    ensures ch in RequiredDiff(Find(s.members, "required"), Find(t.members, "required"), path)
            <==> RequiredRecorded(Find(s.members, "required"), Find(t.members, "required"), path, ch)
  {
    var b, c := Find(s.members, "required"), Find(t.members, "required");
    EqualExactlyAlike(s, t, "required");
    if b.Some? && b.value.Array? && c.Some? && c.value.Array? {
      hide RequiredAbsent, Valid, AsString, Scalar, Equal, Alike;
      var bs, cs := Distinct(b.value.items), Distinct(c.value.items);
      RequiredAbsentHolds(cs, bs, Breaking, path, "Required property added: ", ch);
      RequiredAbsentHolds(bs, cs, ManualReview, path, "Required property removed: ", ch);
    }
  }

  lemma AdditionalHolds(s: Value, t: Value, path: string, ch: Change)
    requires Valid(s) && Valid(t) && s.Object? && t.Object?
    ensures ch in AdditionalDiff(Find(s.members, "additionalProperties"), Find(t.members, "additionalProperties"), path)
            <==> AdditionalRecorded(Find(s.members, "additionalProperties"), Find(t.members, "additionalProperties"),
                                    path, ch)
  {
    EqualExactlyAlike(s, t, "additionalProperties");
  }

  lemma {:induction false} RemovedHolds(bp: seq<Member>, cp: seq<Member>, path: string, ch: Change)
    ensures ch in RemovedProperties(bp, cp, path) <==> RemovedRecorded(bp, cp, path, ch)
  {
    if bp != [] {
      var front, last := bp[..|bp| - 1], bp[|bp| - 1];
      RemovedHolds(front, cp, path, ch);
      KeysSnoc(front, last);
      assert bp == front + [last];
    }
  }

  lemma KeysSnoc(front: seq<Member>, last: Member)
    ensures Keys(front + [last]) == Keys(front) + {last.key}
  {
    var ms := front + [last];
    assert ms[|front|] == last;
    forall key | key in Keys(front) ensures key in Keys(ms) {
      var i :| 0 <= i < |front| && front[i].key == key;
      assert ms[i].key == key;
    }
  }

  lemma {:induction false} KeysHold(rule: KeyRule, s: Value, t: Value, path: string, keys: seq<string>, ch: Change)
    requires Valid(s) && Valid(t) && s.Object? && t.Object?
    ensures ch in KeyDiffs(rule, s.members, t.members, path, keys) <==>
              exists key | key in keys && !(rule == Constraint && key in IGNORED) ::
                && !Alike(Find(s.members, key), Find(t.members, key))
                && ch == match rule
                         case Identity => Change(Breaking, path + "." + key, key + " changed.")
                         case Composition => Change(ManualReview, path + "." + key, key + " composition changed.")
                         case Constraint => Change(ManualReview, path + "." + key, "Schema constraint changed.")
  {
    if keys != [] {
      var front, last := keys[..|keys| - 1], keys[|keys| - 1];
      assert keys == front + [last];
      KeysHold(rule, s, t, path, front, ch);
      EqualExactlyAlike(s, t, last);
    }
  }

  lemma AllKeysExactly(bm: seq<Member>, cm: seq<Member>, key: string)
    ensures key in AllKeys(bm, cm) <==> key in Keys(bm) || key in Keys(cm)
  {
    if key in Keys(bm) {
      var i :| 0 <= i < |bm| && bm[i].key == key;
      assert KeyList(bm)[i] == key;
    }
    if key in Keys(cm) {
      var i :| 0 <= i < |cm| && cm[i].key == key;
      assert KeyList(cm)[i] == key;
    }
    if key in AllKeys(bm, cm) {
      assert key in KeyList(bm) || key in KeyList(cm);
    }
  }

  lemma IdentityHolds(s: Value, t: Value, path: string, ch: Change)
    requires Valid(s) && Valid(t) && s.Object? && t.Object?
    ensures ch in KeyDiffs(Identity, s.members, t.members, path, IDENTITY_KEYS) <==> IdentityRecorded(s, t, path, ch)
  {
    hide KeyDiffs, Alike;
    KeysHold(Identity, s, t, path, IDENTITY_KEYS, ch);
    assert forall key :: key in IDENTITY_KEYS <==> key in {"$id", "$schema"};
  }

  lemma CompositionHolds(s: Value, t: Value, path: string, ch: Change)
    requires Valid(s) && Valid(t) && s.Object? && t.Object?
    ensures ch in KeyDiffs(Composition, s.members, t.members, path, COMPOSITION_KEYS)
            <==> CompositionRecorded(s, t, path, ch)
  {
    hide KeyDiffs, Alike;
    KeysHold(Composition, s, t, path, COMPOSITION_KEYS, ch);
    assert forall key :: key in COMPOSITION_KEYS <==> key in {"anyOf", "oneOf", "allOf"};
  }

  lemma HandledExactly(key: string)
    ensures key in IGNORED <==> key in HANDLED
  {
  }

  lemma ConstraintHolds(s: Value, t: Value, path: string, ch: Change)
    requires Valid(s) && Valid(t) && s.Object? && t.Object?
    ensures ch in KeyDiffs(Constraint, s.members, t.members, path, AllKeys(s.members, t.members))
            <==> ConstraintRecorded(s, t, path, ch)
  {
    hide KeyDiffs, Alike, AllKeys, Valid, Find;
    var keys := AllKeys(s.members, t.members);
    KeysHold(Constraint, s, t, path, keys, ch);
    forall key ensures key in keys <==> key in Keys(s.members) + Keys(t.members) {
      AllKeysExactly(s.members, t.members, key);
    }
    forall key ensures key in IGNORED <==> key in HANDLED { HandledExactly(key); }
    hide IGNORED, HANDLED;
  }

  // ---- And so do the schema diffs --------------------------------------------------------

  lemma {:induction false} FlattenHolds(lists: seq<seq<Change>>, ch: Change)
    ensures ch in Flatten(lists) <==> exists k :: 0 <= k < |lists| && ch in lists[k]
  {
    if lists != [] {
      var front, last := lists[..|lists| - 1], lists[|lists| - 1];
      FlattenHolds(front, ch);
      assert forall k | 0 <= k < |front| :: front[k] == lists[k];
    }
  }

  lemma RequiredNames(required: Option<Value>, key: string)
    ensures key in Names(Items(required)) <==> IsRequired(required, key)
  {
    var xs := Items(required);
    if key in Names(xs) {
      var i :| 0 <= i < |xs| && AsString(xs[i]) == key;
      assert xs[i] in xs;
    }
    if y :| y in xs && AsString(y) == key {
      var i :| 0 <= i < |xs| && xs[i] == y;
    }
  }

  /** One candidate property: new, or compared with the baseline's. */
  lemma {:induction false} PropertyHolds(b: Value, c: Value, k: nat, path: string, ch: Change)
    requires Valid(b) && Valid(c) && b.Object? && c.Object? && k < |Members(Find(c.members, "properties"))|
    ensures var bp, p := Members(Find(b.members, "properties")), Members(Find(c.members, "properties"))[k];
      ch in PropertyDiff(b.members, c, k, path) <==>
        if p.key in Keys(bp) then
          exists i | 0 <= i < |bp| && bp[i].key == p.key :: Recorded(bp[i].value, p.value, path + ".properties." + p.key, ch)
        else
          ch == NewProperty(p.key, Names(Items(Find(c.members, "required"))),
                            Find(b.members, "additionalProperties") == Some(Bool(false)), path)
    decreases b, 0
  {
    hide NewProperty, Recorded, SchemaDiff, Names, Items;
    ValidFind(b, "properties");
    ValidFind(c, "properties");
    var bp, p := Members(Find(b.members, "properties")), Members(Find(c.members, "properties"))[k];
    if p.key in Keys(bp) {
      var i :| 0 <= i < |bp| && bp[i].key == p.key;
      GetAt(bp, i);
      RecordedExactly(bp[i].value, p.value, path + ".properties." + p.key, ch);
    }
  }

  lemma NewPropertyIs(key: string, required: Option<Value>, closed: bool, path: string)
    ensures NewProperty(key, Names(Items(required)), closed, path) ==
            if IsRequired(required, key) then
              Change(Breaking, path + ".properties." + key, "New property is required.")
            else if closed then
              Change(ManualReview, path + ".properties." + key,
                     "Optional property may be rejected by existing strict consumers.")
            else
              Change(Additive, path + ".properties." + key,
                     "New optional property is accepted by existing consumers.")
  {
    RequiredNames(required, key);
  }

  lemma NewHolds(bp: seq<Member>, cp: seq<Member>, required: Option<Value>, closed: bool, path: string, ch: Change)
    ensures NewRecorded(bp, cp, required, closed, path, ch) <==>
              exists k | 0 <= k < |cp| :: cp[k].key !in Keys(bp) && ch == NewProperty(cp[k].key, Names(Items(required)), closed, path)
  {
    forall key | key in Keys(cp)
      ensures ch == NewProperty(key, Names(Items(required)), closed, path) && key !in Keys(bp)
              ==> NewRecorded(bp, cp, required, closed, path, ch)
    {
      NewPropertyIs(key, required, closed, path);
    }
    hide Names, IsRequired, Items, NewProperty;
    if NewRecorded(bp, cp, required, closed, path, ch) {
      var key := NewKey(bp, cp, required, closed, path, ch);
      var k :| 0 <= k < |cp| && cp[k].key == key;
    }
  }

  lemma NewKey(bp: seq<Member>, cp: seq<Member>, required: Option<Value>, closed: bool, path: string, ch: Change)
    returns (key: string)
    requires NewRecorded(bp, cp, required, closed, path, ch)
    ensures key in Keys(cp) && key !in Keys(bp) && ch == NewProperty(key, Names(Items(required)), closed, path)
  {
    hide Names, IsRequired, Items, NewProperty, Keys;
    key :| key in Keys(cp) && key !in Keys(bp) &&
           ch == if IsRequired(required, key) then
                   Change(Breaking, path + ".properties." + key, "New property is required.")
                 else if closed then
                   Change(ManualReview, path + ".properties." + key,
                          "Optional property may be rejected by existing strict consumers.")
                 else
                   Change(Additive, path + ".properties." + key,
                          "New optional property is accepted by existing consumers.");
    NewPropertyIs(key, required, closed, path);
  }

  /** All candidate properties. */
  lemma {:induction false} PropertiesHold(b: Value, c: Value, path: string, ch: Change)
    requires Valid(b) && Valid(c) && b.Object? && c.Object?
    ensures var bp, cp := Members(Find(b.members, "properties")), Members(Find(c.members, "properties"));
      ch in Flatten(PropertyDiffs(b.members, c, path)) <==>
        || NewRecorded(bp, cp, Find(c.members, "required"), Find(b.members, "additionalProperties") == Some(Bool(false)),
                       path, ch)
        || SharedRecorded(b, c, path, ch)
    decreases b, 1
  {
    hide Valid, Recorded, Find, NewProperty, Names, Items, NewRecorded, PropertyDiff;
    var bp, cp := Members(Find(b.members, "properties")), Members(Find(c.members, "properties"));
    var lists := PropertyDiffs(b.members, c, path);
    FlattenHolds(lists, ch);
    NewHolds(bp, cp, Find(c.members, "required"), Find(b.members, "additionalProperties") == Some(Bool(false)), path, ch);
    forall k | 0 <= k < |cp|
      ensures ch in lists[k] <==>
                if cp[k].key in Keys(bp) then
                  exists i | 0 <= i < |bp| && bp[i].key == cp[k].key ::
                    Recorded(bp[i].value, cp[k].value, path + ".properties." + cp[k].key, ch)
                else
                  ch == NewProperty(cp[k].key, Names(Items(Find(c.members, "required"))),
                                    Find(b.members, "additionalProperties") == Some(Bool(false)), path)
    {
      PropertyHolds(b, c, k, path, ch);
    }
  }

  lemma {:induction false} ItemsHold(b: Value, c: Value, path: string, ch: Change)
    requires Valid(b) && Valid(c) && b.Object? && c.Object?
    ensures ch in ItemsDiff(Find(b.members, "items"), Find(c.members, "items"), path) <==> ItemsRecorded(b, c, path, ch)
    decreases b, 1
  {
    hide Recorded, Valid, SchemaDiff;
    ValidFind(b, "items");
    ValidFind(c, "items");
    var x, y := Find(b.members, "items"), Find(c.members, "items");
    if x.Some? && y.Some? {
      RecordedExactly(x.value, y.value, path + ".items", ch);
    } else {
      LoneItems(x, y, path + ".items", ch);
    }
  }

  lemma LoneItems(x: Option<Value>, y: Option<Value>, path: string, ch: Change)
    requires x.None? || y.None?
    ensures (x.Some? || y.Some?) ==> (ch in SchemaDiff(x, y, path) <==> ShapeRecorded(path, ch))
  {
  }

  lemma FlatHolds(b: Value, c: Value, path: string, ch: Change)
    requires Valid(b) && Valid(c) && b.Object? && c.Object?
    ensures var bm, cm := b.members, c.members;
      ch in FlatDiff(bm, cm, path) <==>
        || EnumRecorded(Find(bm, "enum"), Find(cm, "enum"), path + ".enum", ch)
        || RequiredRecorded(Find(bm, "required"), Find(cm, "required"), path + ".required", ch)
        || AdditionalRecorded(Find(bm, "additionalProperties"), Find(cm, "additionalProperties"),
                              path + ".additionalProperties", ch)
        || RemovedRecorded(Members(Find(bm, "properties")), Members(Find(cm, "properties")), path, ch)
  {
    hide Valid, EnumKeywordDiff, RequiredDiff, AdditionalDiff, RemovedProperties, Find, Members;
    hide EnumRecorded, RequiredRecorded, AdditionalRecorded, RemovedRecorded;
    EnumHolds(b, c, path + ".enum", ch);
    RequiredHolds(b, c, path + ".required", ch);
    AdditionalHolds(b, c, path + ".additionalProperties", ch);
    RemovedHolds(Members(Find(b.members, "properties")), Members(Find(c.members, "properties")), path, ch);
  }

  /** The checker records a change exactly when the schemas give reason to. */
  lemma {:induction false} RecordedExactly(b: Value, c: Value, path: string, ch: Change)
    requires Valid(b) && Valid(c)
    ensures ch in SchemaDiff(Some(b), Some(c), path) <==> Recorded(b, c, path, ch)
    decreases b, 3
  {
    if b.Object? && c.Object? {
      ObjectHolds(b, c, path, ch);
      hide ObjectDiff, Recorded;
    } else {
      EqualExactlySame(b, c);
    }
  }

  lemma {:induction false} ObjectHolds(b: Value, c: Value, path: string, ch: Change)
    requires Valid(b) && Valid(c) && b.Object? && c.Object?
    ensures ch in ObjectDiff(b.members, c, path) <==> Recorded(b, c, path, ch)
    decreases b, 2
  {
    hide Valid, Find, KeyDiffs, FlatDiff, Flatten, PropertyDiffs, ItemsDiff, AllKeys, Alike, Equal, Members;
    hide EnumRecorded, RequiredRecorded, AdditionalRecorded, RemovedRecorded, NewRecorded, SharedRecorded, ItemsRecorded;
    hide IdentityRecorded, CompositionRecorded, ConstraintRecorded;
    EqualExactlyAlike(b, c, "type");
    IdentityHolds(b, c, path, ch);
    FlatHolds(b, c, path, ch);
    PropertiesHold(b, c, path, ch);
    ItemsHold(b, c, path, ch);
    CompositionHolds(b, c, path, ch);
    ConstraintHolds(b, c, path, ch);
  }

  // ---- Which verdicts two schemas give reason to -----------------------------------------

  /** Two lists, one of which has what the other lacks. */
  ghost predicate Lacks(xs: Option<Value>, ys: Option<Value>) {
    xs.Some? && xs.value.Array? && ys.Some? && ys.value.Array? && exists x :: x in xs.value.items && x !in ys.value.items
  }

  ghost predicate LacksName(xs: Option<Value>, ys: Option<Value>) {
    && xs.Some? && xs.value.Array? && ys.Some? && ys.value.Array?
    && exists x :: x in xs.value.items && !(x in ys.value.items && Scalar(x))
  }

  ghost predicate BothLists(x: Option<Value>, y: Option<Value>) {
    x.Some? && x.value.Array? && y.Some? && y.value.Array?
  }

  /** An object of the candidate rejects more, or speaks of other values, than the baseline's. */
  ghost predicate BreaksHere(b: Value, c: Value)
    requires b.Object? && c.Object?
  {
    var bm, cm := b.members, c.members;
    var bp, cp := Members(Find(bm, "properties")), Members(Find(cm, "properties"));
    || Lacks(Find(bm, "enum"), Find(cm, "enum"))
    || LacksName(Find(cm, "required"), Find(bm, "required"))
    || (Find(bm, "additionalProperties") != Some(Bool(false)) && Find(cm, "additionalProperties") == Some(Bool(false)))
    || (exists key :: key in Keys(bp) && key !in Keys(cp))
    || exists key :: key in Keys(cp) && key !in Keys(bp) && IsRequired(Find(cm, "required"), key)
  }

  /** The change breaks consumers: at the root, in a shared property or in `items`. */
  ghost predicate Breaks(b: Value, c: Value)
    decreases b
  {
    && b.Object? && c.Object?
    && (|| !Alike(Find(b.members, "$id"), Find(c.members, "$id"))
        || !Alike(Find(b.members, "$schema"), Find(c.members, "$schema"))
        || (&& Alike(Find(b.members, "type"), Find(c.members, "type"))
            && (|| BreaksHere(b, c)
                || (var bp, cp := Members(Find(b.members, "properties")), Members(Find(c.members, "properties"));
                    exists i, k | 0 <= i < |bp| && 0 <= k < |cp| && bp[i].key == cp[k].key :: Breaks(bp[i].value, cp[k].value))
                || (Find(b.members, "items").Some? && Find(c.members, "items").Some?
                    && Breaks(Get(b.members, "items"), Get(c.members, "items"))))))
  }

  ghost predicate ReviewsHere(b: Value, c: Value)
    requires b.Object? && c.Object?
  {
    var bm, cm := b.members, c.members;
    var bp, cp := Members(Find(bm, "properties")), Members(Find(cm, "properties"));
    var closed := Some(Bool(false));
    || Lacks(Find(cm, "enum"), Find(bm, "enum"))
    || (!BothLists(Find(bm, "enum"), Find(cm, "enum")) && !Alike(Find(bm, "enum"), Find(cm, "enum")))
    || LacksName(Find(bm, "required"), Find(cm, "required"))
    || (!BothLists(Find(bm, "required"), Find(cm, "required")) && !Alike(Find(bm, "required"), Find(cm, "required")))
    || (Find(bm, "additionalProperties") != closed && Find(cm, "additionalProperties") != closed
        && !Alike(Find(bm, "additionalProperties"), Find(cm, "additionalProperties")))
    || (Find(bm, "additionalProperties") == closed
        && exists key :: key in Keys(cp) && key !in Keys(bp) && !IsRequired(Find(cm, "required"), key))
    || (exists key :: key in {"anyOf", "oneOf", "allOf"} && !Alike(Find(bm, key), Find(cm, key)))
    || exists key :: key in Keys(bm) + Keys(cm) && key !in HANDLED && !Alike(Find(bm, key), Find(cm, key))
  }

  /** The change needs review, there or there. */
  ghost predicate NeedsReview(b: Value, c: Value)
    decreases b
  {
    if !b.Object? || !c.Object? then !Same(b, c)
    else
      || !Alike(Find(b.members, "type"), Find(c.members, "type"))
      || ReviewsHere(b, c)
      || (var bp, cp := Members(Find(b.members, "properties")), Members(Find(c.members, "properties"));
          exists i, k | 0 <= i < |bp| && 0 <= k < |cp| && bp[i].key == cp[k].key :: NeedsReview(bp[i].value, cp[k].value))
      || match (Find(b.members, "items"), Find(c.members, "items"))
         case (Some(_), Some(y)) => NeedsReview(Get(b.members, "items"), y)
         case (None, None) => false
         case _ => true
  }

  ghost predicate Given(b: Value, c: Value, path: string, verdict: Verdict) {
    exists ch :: Recorded(b, c, path, ch) && ch.classification == verdict
  }

  ghost predicate OwnGiven(b: Value, c: Value, path: string, verdict: Verdict)
    requires b.Object? && c.Object?
  {
    exists ch :: OwnRecorded(b, c, path, ch) && ch.classification == verdict
  }

  lemma EnumBreaks(b: Option<Value>, c: Option<Value>, path: string)
    ensures (exists ch :: EnumRecorded(b, c, path, ch) && ch.classification == Breaking) <==> Lacks(b, c)
  {
    hide Alike, Stringify;
    if Lacks(b, c) {
      var x :| x in b.value.items && x !in c.value.items;
      assert EnumRecorded(b, c, path, Change(Breaking, path, "Enum value removed: " + Stringify(x) + "."));
    }
  }

  lemma EnumNeedsReview(b: Option<Value>, c: Option<Value>, path: string)
    ensures (exists ch :: EnumRecorded(b, c, path, ch) && ch.classification == ManualReview)
            <==> Lacks(c, b) || (!BothLists(b, c) && !Alike(b, c))
  {
    hide Alike, Stringify;
    if Lacks(c, b) {
      var y :| y in c.value.items && y !in b.value.items;
      assert EnumRecorded(b, c, path, Change(ManualReview, path, "Closed enum value added: " + Stringify(y) + "."));
    } else if !BothLists(b, c) && !Alike(b, c) {
      assert EnumRecorded(b, c, path, Change(ManualReview, path, "Enum representation changed."));
    }
  }

  lemma RequiredBreaks(b: Option<Value>, c: Option<Value>, path: string)
    ensures (exists ch :: RequiredRecorded(b, c, path, ch) && ch.classification == Breaking) <==> LacksName(c, b)
  {
    hide Alike, AsString, Scalar;
    if LacksName(c, b) {
      var y :| y in c.value.items && !(y in b.value.items && Scalar(y));
      assert RequiredRecorded(b, c, path, Change(Breaking, path, "Required property added: " + AsString(y) + "."));
    }
  }

  lemma RequiredNeedsReview(b: Option<Value>, c: Option<Value>, path: string)
    ensures (exists ch :: RequiredRecorded(b, c, path, ch) && ch.classification == ManualReview)
            <==> LacksName(b, c) || (!BothLists(b, c) && !Alike(b, c))
  {
    hide Alike, AsString, Scalar;
    if LacksName(b, c) {
      var x :| x in b.value.items && !(x in c.value.items && Scalar(x));
      assert RequiredRecorded(b, c, path, Change(ManualReview, path, "Required property removed: " + AsString(x) + "."));
    } else if !BothLists(b, c) && !Alike(b, c) {
      assert RequiredRecorded(b, c, path, Change(ManualReview, path, "Required-property policy changed."));
    }
  }

  lemma AdditionalGives(b: Option<Value>, c: Option<Value>, path: string)
    ensures (exists ch :: AdditionalRecorded(b, c, path, ch) && ch.classification == Breaking)
            <==> b != Some(Bool(false)) && c == Some(Bool(false))
    ensures (exists ch :: AdditionalRecorded(b, c, path, ch) && ch.classification == ManualReview)
            <==> b != Some(Bool(false)) && c != Some(Bool(false)) && !Alike(b, c)
  {
    if b != Some(Bool(false)) && c == Some(Bool(false)) {
      assert AdditionalRecorded(b, c, path, Change(Breaking, path, "Object became restrictive."));
    }
    if b != Some(Bool(false)) && c != Some(Bool(false)) && !Alike(b, c) {
      assert AdditionalRecorded(b, c, path, Change(ManualReview, path, "Additional-property policy changed."));
    }
  }

  lemma RemovedGives(bp: seq<Member>, cp: seq<Member>, path: string)
    ensures forall ch | RemovedRecorded(bp, cp, path, ch) :: ch.classification == Breaking
    ensures (exists ch :: RemovedRecorded(bp, cp, path, ch)) <==> exists key :: key in Keys(bp) && key !in Keys(cp)
  {
    hide Keys;
    if key :| key in Keys(bp) && key !in Keys(cp) {
      assert RemovedRecorded(bp, cp, path, Change(Breaking, path + ".properties." + key, "Property removed or renamed."));
    }
  }

  lemma NewBreaks(bp: seq<Member>, cp: seq<Member>, required: Option<Value>, closed: bool, path: string)
    ensures (exists ch :: NewRecorded(bp, cp, required, closed, path, ch) && ch.classification == Breaking)
            <==> exists key :: key in Keys(cp) && key !in Keys(bp) && IsRequired(required, key)
  {
    hide Keys, IsRequired;
    if key :| key in Keys(cp) && key !in Keys(bp) && IsRequired(required, key) {
      var ch := Change(Breaking, path + ".properties." + key, "New property is required.");
      assert NewRecorded(bp, cp, required, closed, path, ch);
    }
  }

  lemma NewNeedsReview(bp: seq<Member>, cp: seq<Member>, required: Option<Value>, closed: bool, path: string)
    ensures (exists ch :: NewRecorded(bp, cp, required, closed, path, ch) && ch.classification == ManualReview)
            <==> closed && exists key :: key in Keys(cp) && key !in Keys(bp) && !IsRequired(required, key)
  {
    hide Keys, IsRequired;
    if exists ch :: NewRecorded(bp, cp, required, closed, path, ch) && ch.classification == ManualReview {
      var ch :| NewRecorded(bp, cp, required, closed, path, ch) && ch.classification == ManualReview;
      var key :| key in Keys(cp) && key !in Keys(bp) && !IsRequired(required, key);
    } else if closed && exists key :: key in Keys(cp) && key !in Keys(bp) && !IsRequired(required, key) {
      var key :| key in Keys(cp) && key !in Keys(bp) && !IsRequired(required, key);
      var ch := NewReviewed(bp, cp, required, path, key);
    }
  }

  lemma NewReviewed(bp: seq<Member>, cp: seq<Member>, required: Option<Value>, path: string, key: string)
    returns (ch: Change)
    requires key in Keys(cp) && key !in Keys(bp) && !IsRequired(required, key)
    ensures NewRecorded(bp, cp, required, true, path, ch) && ch.classification == ManualReview
  {
    hide Keys, IsRequired;
    ch := Change(ManualReview, path + ".properties." + key,
                 "Optional property may be rejected by existing strict consumers.");
  }

  lemma KeysGive(b: Value, c: Value, path: string)
    requires b.Object? && c.Object?
    ensures forall ch | CompositionRecorded(b, c, path, ch) || ConstraintRecorded(b, c, path, ch) ::
              ch.classification == ManualReview
    ensures (exists ch :: CompositionRecorded(b, c, path, ch))
            <==> exists key :: key in {"anyOf", "oneOf", "allOf"} && !Alike(Find(b.members, key), Find(c.members, key))
    ensures (exists ch :: ConstraintRecorded(b, c, path, ch))
            <==> exists key :: key in Keys(b.members) + Keys(c.members) && key !in HANDLED
                               && !Alike(Find(b.members, key), Find(c.members, key))
  {
    hide Alike, Find, HANDLED;
    if key :| key in {"anyOf", "oneOf", "allOf"} && !Alike(Find(b.members, key), Find(c.members, key)) {
      assert CompositionRecorded(b, c, path, Change(ManualReview, path + "." + key, key + " composition changed."));
    }
    if key :| key in Keys(b.members) + Keys(c.members) && key !in HANDLED
              && !Alike(Find(b.members, key), Find(c.members, key))
    {
      assert ConstraintRecorded(b, c, path, Change(ManualReview, path + "." + key, "Schema constraint changed."));
    }
  }

  lemma OwnBreaks(b: Value, c: Value, path: string)
    requires b.Object? && c.Object?
    ensures OwnGiven(b, c, path, Breaking) <==> BreaksHere(b, c)
  {
    hide Find, Members, Alike, Lacks, LacksName, BothLists, IsRequired, HANDLED, Keys;
    hide EnumRecorded, RequiredRecorded, AdditionalRecorded, RemovedRecorded, NewRecorded;
    hide CompositionRecorded, ConstraintRecorded;
    var bm, cm := b.members, c.members;
    var bp, cp := Members(Find(bm, "properties")), Members(Find(cm, "properties"));
    EnumBreaks(Find(bm, "enum"), Find(cm, "enum"), path + ".enum");
    RequiredBreaks(Find(bm, "required"), Find(cm, "required"), path + ".required");
    AdditionalGives(Find(bm, "additionalProperties"), Find(cm, "additionalProperties"), path + ".additionalProperties");
    RemovedGives(bp, cp, path);
    NewBreaks(bp, cp, Find(cm, "required"), Find(bm, "additionalProperties") == Some(Bool(false)), path);
    KeysGive(b, c, path);
  }

  lemma OwnNeedsReview(b: Value, c: Value, path: string)
    requires b.Object? && c.Object?
    ensures OwnGiven(b, c, path, ManualReview) <==> ReviewsHere(b, c)
  {
    hide Find, Members, Alike, Lacks, LacksName, BothLists, IsRequired, HANDLED, Keys;
    hide EnumRecorded, RequiredRecorded, AdditionalRecorded, RemovedRecorded, NewRecorded;
    hide CompositionRecorded, ConstraintRecorded;
    var bm, cm := b.members, c.members;
    var bp, cp := Members(Find(bm, "properties")), Members(Find(cm, "properties"));
    EnumNeedsReview(Find(bm, "enum"), Find(cm, "enum"), path + ".enum");
    RequiredNeedsReview(Find(bm, "required"), Find(cm, "required"), path + ".required");
    AdditionalGives(Find(bm, "additionalProperties"), Find(cm, "additionalProperties"), path + ".additionalProperties");
    RemovedGives(bp, cp, path);
    NewNeedsReview(bp, cp, Find(cm, "required"), Find(bm, "additionalProperties") == Some(Bool(false)), path);
    KeysGive(b, c, path);
  }

  lemma IdentityGives(b: Value, c: Value, path: string)
    requires b.Object? && c.Object?
    ensures forall ch | IdentityRecorded(b, c, path, ch) :: ch.classification == Breaking
    ensures (exists ch :: IdentityRecorded(b, c, path, ch))
            <==> !Alike(Find(b.members, "$id"), Find(c.members, "$id"))
                 || !Alike(Find(b.members, "$schema"), Find(c.members, "$schema"))
  {
    hide Alike, Find;
    if key :| key in {"$id", "$schema"} && !Alike(Find(b.members, key), Find(c.members, key)) {
      assert IdentityRecorded(b, c, path, Change(Breaking, path + "." + key, key + " changed."));
    }
  }

  lemma ItemsGive(b: Value, c: Value, path: string, verdict: Verdict)
    requires b.Object? && c.Object?
    ensures (exists ch :: ItemsRecorded(b, c, path, ch) && ch.classification == verdict) <==>
              match (Find(b.members, "items"), Find(c.members, "items"))
              case (Some(_), Some(y)) => Given(Get(b.members, "items"), y, path + ".items", verdict)
              case (None, None) => false
              case _ => verdict == ManualReview
  {
    hide Recorded;
    match (Find(b.members, "items"), Find(c.members, "items"))
    case (Some(_), Some(y)) =>
    case (None, None) =>
    case _ =>
      var ch := Change(ManualReview, path + ".items", "Schema shape changed in an unknown way.");
      assert verdict == ManualReview ==> ItemsRecorded(b, c, path, ch);
  }

  lemma SharedGives(b: Value, c: Value, path: string, verdict: Verdict)
    requires b.Object? && c.Object?
    ensures var bp, cp := Members(Find(b.members, "properties")), Members(Find(c.members, "properties"));
      (exists ch :: SharedRecorded(b, c, path, ch) && ch.classification == verdict) <==>
        exists i, k | 0 <= i < |bp| && 0 <= k < |cp| && bp[i].key == cp[k].key ::
          Given(bp[i].value, cp[k].value, path + ".properties." + bp[i].key, verdict)
  {
    hide Recorded, Find, Members;
    var bp, cp := Members(Find(b.members, "properties")), Members(Find(c.members, "properties"));
    if i, k :| 0 <= i < |bp| && 0 <= k < |cp| && bp[i].key == cp[k].key
               && Given(bp[i].value, cp[k].value, path + ".properties." + bp[i].key, verdict)
    {
      var sub := path + ".properties." + bp[i].key;
      var ch :| Recorded(bp[i].value, cp[k].value, sub, ch) && ch.classification == verdict;
      assert SharedRecorded(b, c, path, ch);
    }
  }

  /** A `breaking` change is recorded exactly when the change breaks consumers. */
  lemma {:induction false} BreaksExactly(b: Value, c: Value, path: string)
    ensures Given(b, c, path, Breaking) <==> Breaks(b, c)
    decreases b
  {
    hide Recorded, Same, Given, OwnGiven;
    if b.Object? && c.Object? {
      var bp, cp := Members(Find(b.members, "properties")), Members(Find(c.members, "properties"));
      forall i, k | 0 <= i < |bp| && 0 <= k < |cp| && bp[i].key == cp[k].key
        ensures Given(bp[i].value, cp[k].value, path + ".properties." + bp[i].key, Breaking)
                <==> Breaks(bp[i].value, cp[k].value)
      {
        BreaksExactly(bp[i].value, cp[k].value, path + ".properties." + bp[i].key);
      }
      if Find(b.members, "items").Some? && Find(c.members, "items").Some? {
        BreaksExactly(Get(b.members, "items"), Get(c.members, "items"), path + ".items");
      }
      IdentityGives(b, c, path);
      OwnBreaks(b, c, path);
      SharedGives(b, c, path, Breaking);
      ItemsGive(b, c, path, Breaking);
      hide Find, Members, Alike, BreaksHere, OwnRecorded, IdentityRecorded, SharedRecorded, ItemsRecorded;
      ObjectGives(b, c, path, Breaking);
    } else {
      ShapeGives(b, c, path);
    }
  }

  /** What an object diff gives, part by part. */
  lemma ObjectGives(b: Value, c: Value, path: string, verdict: Verdict)
    requires b.Object? && c.Object?
    ensures Given(b, c, path, verdict) <==>
              || (exists ch :: IdentityRecorded(b, c, path, ch) && ch.classification == verdict)
              || if !Alike(Find(b.members, "type"), Find(c.members, "type")) then verdict == ManualReview
                 else
                   || OwnGiven(b, c, path, verdict)
                   || (exists ch :: SharedRecorded(b, c, path, ch) && ch.classification == verdict)
                   || (exists ch :: ItemsRecorded(b, c, path, ch) && ch.classification == verdict)
  {
    hide Find, Alike, OwnRecorded, IdentityRecorded, SharedRecorded, ItemsRecorded;
    if !Alike(Find(b.members, "type"), Find(c.members, "type")) {
      assert Recorded(b, c, path, Change(ManualReview, path + ".type", "Schema type changed."));
    }
  }

  /** A change for review is recorded exactly when something calls for it. */
  lemma {:induction false} NeedsReviewExactly(b: Value, c: Value, path: string)
    ensures Given(b, c, path, ManualReview) <==> NeedsReview(b, c)
    decreases b
  {
    hide Recorded, Same, Given, OwnGiven;
    if b.Object? && c.Object? {
      var bp, cp := Members(Find(b.members, "properties")), Members(Find(c.members, "properties"));
      forall i, k | 0 <= i < |bp| && 0 <= k < |cp| && bp[i].key == cp[k].key
        ensures Given(bp[i].value, cp[k].value, path + ".properties." + bp[i].key, ManualReview)
                <==> NeedsReview(bp[i].value, cp[k].value)
      {
        NeedsReviewExactly(bp[i].value, cp[k].value, path + ".properties." + bp[i].key);
      }
      if Find(b.members, "items").Some? && Find(c.members, "items").Some? {
        NeedsReviewExactly(Get(b.members, "items"), Get(c.members, "items"), path + ".items");
      }
      IdentityGives(b, c, path);
      OwnNeedsReview(b, c, path);
      SharedGives(b, c, path, ManualReview);
      ItemsGive(b, c, path, ManualReview);
      hide Find, Members, Alike, ReviewsHere, OwnRecorded, IdentityRecorded, SharedRecorded, ItemsRecorded;
      ObjectGives(b, c, path, ManualReview);
    } else {
      ShapeGives(b, c, path);
    }
  }

  lemma ShapeGives(b: Value, c: Value, path: string)
    requires !b.Object? || !c.Object?
    ensures Given(b, c, path, ManualReview) <==> !Same(b, c)
    ensures !Given(b, c, path, Breaking)
  {
    hide Same;
    assert !Same(b, c) ==> Recorded(b, c, path, Change(ManualReview, path, "Schema shape changed in an unknown way."));
  }
}
