/**
 The contract compatibility checker: a recursive diff of two JSON schemas into one shared
 list of changes, and the classification of a pair of contract snapshots.

 Each `...Diff` function lists the changes in the order the checker reports them, repeats
 included; the methods below push them one by one into a `ChangeLog`, which drops repeats.
 */
module ContractImpact {
  import opened Wrappers
  import opened Ordering
  import opened Json
  import opened JsonText

  datatype Impact = NoImpact | Additive | Breaking | ManualReview

  type Verdict = i: Impact | i != NoImpact witness Additive

  datatype Change = Change(classification: Verdict, path: string, reason: string)

  // ---- The change list ------------------------------------------------------

  function AddChange(log: seq<Change>, change: Change): seq<Change> {
    if change in log then log else log + [change]
  }

  function AddAll(log: seq<Change>, changes: seq<Change>): seq<Change> {
    if changes == [] then log
    else AddChange(AddAll(log, changes[..|changes| - 1]), changes[|changes| - 1])
  }

  lemma {:induction false} AddAllConcat(log: seq<Change>, xs: seq<Change>, ys: seq<Change>)
    ensures AddAll(log, xs + ys) == AddAll(AddAll(log, xs), ys)
  {
    if ys == [] {
      assert xs + ys == xs;
    } else {
      var n := |ys| - 1;
      assert (xs + ys)[..|xs + ys| - 1] == xs + ys[..n];
      AddAllConcat(log, xs, ys[..n]);
    }
  }

  /** The log gains exactly the new changes, once each. */
  lemma {:induction false} AddAllElements(log: seq<Change>, changes: seq<Change>)
    ensures forall c :: c in AddAll(log, changes) <==> c in log || c in changes
    ensures NoDuplicates(log) ==> NoDuplicates(AddAll(log, changes))
  {
    if changes == [] {
    } else {
      var n := |changes| - 1;
      AddAllElements(log, changes[..n]);
      assert changes == changes[..n] + [changes[n]];
    }
  }

  class ChangeLog {
    var changes: seq<Change>

    constructor ()
      ensures changes == []
    {
      changes := [];
    }

    method Add(classification: Verdict, path: string, reason: string)
      modifies this
      ensures changes == AddChange(old(changes), Change(classification, path, reason))
    {
      var change := Change(classification, path, reason);
      if change in changes {
        return;
      }
      changes := changes + [change];
    }
  }

  // ---- Sets of texts ----------------------------------------------------------

  function Texts(xs: seq<Value>): seq<string> {
    seq(|xs|, i requires 0 <= i < |xs| => Stringify(xs[i]))
  }

  /** One change per text that the other side lacks. */
  function Absent(texts: seq<string>, other: seq<string>, verdict: Verdict, path: string, intro: string): seq<Change> {
    if texts == [] then []
    else
      var last := texts[|texts| - 1];
      Absent(texts[..|texts| - 1], other, verdict, path, intro)
      + (if last in other then [] else [Change(verdict, path, intro + last + ".")])
  }

  function EnumDiff(baseline: seq<Value>, candidate: seq<Value>, path: string): seq<Change> {
    var b, c := Distinct(Texts(baseline)), Distinct(Texts(candidate));
    Absent(b, c, Breaking, path, "Enum value removed: ")
    + Absent(c, b, ManualReview, path, "Closed enum value added: ")
  }

  function CanonicalTexts(xs: seq<Value>): seq<string> {
    seq(|xs|, i requires 0 <= i < |xs| => Stringify(Canonicalize(xs[i])))
  }

  /** The canonical texts in the order `localeCompare` puts them in. */
  function SortedCollection(collate: (string, string) -> bool, xs: seq<Value>): seq<string> {
    Sort(collate, CanonicalTexts(xs))
  }

  function CollectionDiff(collate: (string, string) -> bool,
                          baseline: seq<Value>, candidate: seq<Value>, path: string): seq<Change> {
    var b, c := Distinct(SortedCollection(collate, baseline)), Distinct(SortedCollection(collate, candidate));
    Absent(b, c, Breaking, path, "Entry removed: ")
    + Absent(c, b, ManualReview, path, "Entry added: ")
  }

  // ---- Required names -----------------------------------------------------------

  /** `Set.prototype.has` on parsed JSON: composite values are distinct objects, so never found. */
  predicate SetHas(xs: seq<Value>, x: Value) {
    x in xs && !x.Array? && !x.Object?
  }

  /** `String(value)`. */
  function AsString(v: Value): string {
    match v
    case Null => "null"
    case Bool(b) => if b then "true" else "false"
    case Number(token) => token
    case String(s) => s
    case Array(items) => JoinItems(items)
    case Object(_) => "[object Object]"
  }

  function JoinItems(items: seq<Value>): string {
    if items == [] then ""
    else
      var n := |items| - 1;
      (if n == 0 then "" else JoinItems(items[..n]) + ",")
      + (if items[n].Null? then "" else AsString(items[n]))
  }

  function Names(xs: seq<Value>): set<string> {
    set i | 0 <= i < |xs| :: AsString(xs[i])
  }

  function RequiredAbsent(names: seq<Value>, other: seq<Value>, verdict: Verdict, path: string, intro: string): seq<Change> {
    if names == [] then []
    else
      var last := names[|names| - 1];
      RequiredAbsent(names[..|names| - 1], other, verdict, path, intro)
      + (if SetHas(other, last) then [] else [Change(verdict, path, intro + AsString(last) + ".")])
  }

  function RequiredDiff(b: Option<Value>, c: Option<Value>, path: string): seq<Change> {
    if b.Some? && b.value.Array? && c.Some? && c.value.Array? then
      var bs, cs := Distinct(b.value.items), Distinct(c.value.items);
      RequiredAbsent(cs, bs, Breaking, path, "Required property added: ")
      + RequiredAbsent(bs, cs, ManualReview, path, "Required property removed: ")
    else if Equal(b, c) then []
    else [Change(ManualReview, path, "Required-property policy changed.")]
  }

  // ---- One keyword ---------------------------------------------------------------

  datatype KeyRule = Identity | Composition | Constraint

  const IGNORED: set<string> := {
    "$id", "$schema", "additionalProperties", "anyOf", "allOf", "description", "enum",
    "items", "oneOf", "properties", "required", "title", "type"
  }

  function KeyDiff(rule: KeyRule, bm: seq<Member>, cm: seq<Member>, path: string, key: string): seq<Change> {
    if rule == Constraint && key in IGNORED then []
    else if Equal(Find(bm, key), Find(cm, key)) then []
    else
      match rule
      case Identity => [Change(Breaking, path + "." + key, key + " changed.")]
      case Composition => [Change(ManualReview, path + "." + key, key + " composition changed.")]
      case Constraint => [Change(ManualReview, path + "." + key, "Schema constraint changed.")]
  }

  function KeyDiffs(rule: KeyRule, bm: seq<Member>, cm: seq<Member>, path: string, keys: seq<string>): seq<Change> {
    if keys == [] then []
    else
      KeyDiffs(rule, bm, cm, path, keys[..|keys| - 1]) + KeyDiff(rule, bm, cm, path, keys[|keys| - 1])
  }

  const IDENTITY_KEYS := ["$id", "$schema"]
  const COMPOSITION_KEYS := ["anyOf", "oneOf", "allOf"]

  function KeyList(ms: seq<Member>): seq<string> {
    seq(|ms|, i requires 0 <= i < |ms| => ms[i].key)
  }

  function AllKeys(bm: seq<Member>, cm: seq<Member>): seq<string> {
    Distinct(KeyList(bm) + KeyList(cm))
  }

  function EnumKeywordDiff(b: Option<Value>, c: Option<Value>, path: string): seq<Change> {
    if b.Some? && b.value.Array? && c.Some? && c.value.Array? then EnumDiff(b.value.items, c.value.items, path)
    else if Equal(b, c) then []
    else [Change(ManualReview, path, "Enum representation changed.")]
  }

  predicate IsFalse(v: Option<Value>) {
    v == Some(Bool(false))
  }

  const LOOSENED := "Object became more permissive."

  function AdditionalDiff(b: Option<Value>, c: Option<Value>, path: string): seq<Change> {
    if IsFalse(b) && !IsFalse(c) then [Change(Additive, path, LOOSENED)]
    else if !IsFalse(b) && IsFalse(c) then [Change(Breaking, path, "Object became restrictive.")]
    else if Equal(b, c) then []
    else [Change(ManualReview, path, "Additional-property policy changed.")]
  }

  // ---- Properties ------------------------------------------------------------------

  /** A keyword whose value is an object, read as empty when it is anything else. */
  function Members(v: Option<Value>): seq<Member> {
    if v.Some? && v.value.Object? then v.value.members else []
  }

  function Items(v: Option<Value>): seq<Value> {
    if v.Some? && v.value.Array? then v.value.items else []
  }

  function RemovedProperties(bp: seq<Member>, cp: seq<Member>, path: string): seq<Change> {
    if bp == [] then []
    else
      var name := bp[|bp| - 1].key;
      RemovedProperties(bp[..|bp| - 1], cp, path)
      + (if name in Keys(cp) then []
         else [Change(Breaking, path + ".properties." + name, "Property removed or renamed.")])
  }

  function NewProperty(name: string, required: set<string>, closed: bool, path: string): Change {
    if name in required then
      Change(Breaking, path + ".properties." + name, "New property is required.")
    else if closed then
      Change(ManualReview, path + ".properties." + name,
             "Optional property may be rejected by existing strict consumers.")
    else
      Change(Additive, path + ".properties." + name,
             "New optional property is accepted by existing consumers.")
  }

  function Flatten(lists: seq<seq<Change>>): seq<Change> {
    if lists == [] then [] else Flatten(lists[..|lists| - 1]) + lists[|lists| - 1]
  }

  // ---- A whole schema ----------------------------------------------------------------

  const SHAPE_CHANGED := "Schema shape changed in an unknown way."

  /** The changes `compareSchema` reports; undefined stands for a missing subschema. */
  function SchemaDiff(b: Option<Value>, c: Option<Value>, path: string): seq<Change>
    decreases c.Some?, c.GetOr(Null), 3, 0
  {
    if b.Some? && b.value.Object? && c.Some? && c.value.Object? then
      ObjectDiff(b.value.members, c.value, path)
    else if Equal(b, c) then []
    else [Change(ManualReview, path, SHAPE_CHANGED)]
  }

  function ObjectDiff(bm: seq<Member>, c: Value, path: string): seq<Change>
    requires c.Object?
    decreases true, c, 2, 0
  {
    var cm := c.members;
    var identity := KeyDiffs(Identity, bm, cm, path, IDENTITY_KEYS);
    if !Equal(Find(bm, "type"), Find(cm, "type")) then
      identity + [Change(ManualReview, path + ".type", "Schema type changed.")]
    else
      identity
      + FlatDiff(bm, cm, path)
      + Flatten(PropertyDiffs(bm, c, path))
      + ItemsDiff(Find(bm, "items"), Find(cm, "items"), path)
      + KeyDiffs(Composition, bm, cm, path, COMPOSITION_KEYS)
      + KeyDiffs(Constraint, bm, cm, path, AllKeys(bm, cm))
  }

  /** The keywords compared before any subschema. */
  function FlatDiff(bm: seq<Member>, cm: seq<Member>, path: string): seq<Change> {
    EnumKeywordDiff(Find(bm, "enum"), Find(cm, "enum"), path + ".enum")
    + RequiredDiff(Find(bm, "required"), Find(cm, "required"), path + ".required")
    + AdditionalDiff(Find(bm, "additionalProperties"), Find(cm, "additionalProperties"), path + ".additionalProperties")
    + RemovedProperties(Members(Find(bm, "properties")), Members(Find(cm, "properties")), path)
  }

  function ItemsDiff(b: Option<Value>, c: Option<Value>, path: string): seq<Change>
    decreases c.Some?, c.GetOr(Null), 4, 0
  {
    if b.Some? || c.Some? then SchemaDiff(b, c, path + ".items") else []
  }

  /** The changes of each candidate property. */
  function PropertyDiffs(bm: seq<Member>, c: Value, path: string): seq<seq<Change>>
    requires c.Object?
    decreases true, c, 1, 0
  {
    seq(|Members(Find(c.members, "properties"))|,
        k requires 0 <= k < |Members(Find(c.members, "properties"))| => PropertyDiff(bm, c, k, path))
  }

  function PropertyDiff(bm: seq<Member>, c: Value, k: nat, path: string): seq<Change>
    requires c.Object? && k < |Members(Find(c.members, "properties"))|
    decreases true, c, 0, k
  {
    var property := Members(Find(c.members, "properties"))[k];
    var bp := Members(Find(bm, "properties"));
    if property.key in Keys(bp) then
      SchemaDiff(Some(Get(bp, property.key)), Some(property.value), path + ".properties." + property.key)
    else
      [NewProperty(property.key, Names(Items(Find(c.members, "required"))),
                   IsFalse(Find(bm, "additionalProperties")), path)]
  }

  // ---- The checker's methods -----------------------------------------------------------

  method CompareEnum(baseline: seq<Value>, candidate: seq<Value>, path: string, log: ChangeLog)
    modifies log
    ensures log.changes == AddAll(old(log.changes), EnumDiff(baseline, candidate, path))
  {
    var b, c := Distinct(Texts(baseline)), Distinct(Texts(candidate));
    RecordAbsent(b, c, Breaking, path, "Enum value removed: ", log);
    RecordAbsent(c, b, ManualReview, path, "Closed enum value added: ", log);
    AddAllConcat(old(log.changes), Absent(b, c, Breaking, path, "Enum value removed: "),
                 Absent(c, b, ManualReview, path, "Closed enum value added: "));
  }

  lemma AddAllOne(start: seq<Change>, done: seq<Change>, change: Change)
    ensures AddAll(start, done + [change]) == AddChange(AddAll(start, done), change)
  {
    assert (done + [change])[..|done|] == done;
  }

  lemma AbsentStep(start: seq<Change>, texts: seq<string>, i: nat, other: seq<string>, verdict: Verdict,
                   path: string, intro: string)
    requires i < |texts|
    ensures var before := AddAll(start, Absent(texts[..i], other, verdict, path, intro));
      AddAll(start, Absent(texts[..i + 1], other, verdict, path, intro)) ==
        if texts[i] in other then before else AddChange(before, Change(verdict, path, intro + texts[i] + "."))
  {
    assert texts[..i + 1][..i] == texts[..i];
    var done := Absent(texts[..i], other, verdict, path, intro);
    AddAllOne(start, done, Change(verdict, path, intro + texts[i] + "."));
    assert done + [] == done;
  }

  method RecordAbsent(texts: seq<string>, other: seq<string>, verdict: Verdict, path: string, intro: string,
                      log: ChangeLog)
    modifies log
    ensures log.changes == AddAll(old(log.changes), Absent(texts, other, verdict, path, intro))
  {
    for i := 0 to |texts|
      invariant log.changes == AddAll(old(log.changes), Absent(texts[..i], other, verdict, path, intro))
    {
      AbsentStep(old(log.changes), texts, i, other, verdict, path, intro);
      if texts[i] !in other {
        log.Add(verdict, path, intro + texts[i] + ".");
      }
    }
    assert texts[..|texts|] == texts;
  }

  method CompareCollections(collate: (string, string) -> bool, baseline: seq<Value>, candidate: seq<Value>,
                            path: string, log: ChangeLog)
    modifies log
    ensures log.changes == AddAll(old(log.changes), CollectionDiff(collate, baseline, candidate, path))
  {
    var b, c := Distinct(SortedCollection(collate, baseline)), Distinct(SortedCollection(collate, candidate));
    RecordAbsent(b, c, Breaking, path, "Entry removed: ", log);
    RecordAbsent(c, b, ManualReview, path, "Entry added: ", log);
    AddAllConcat(old(log.changes), Absent(b, c, Breaking, path, "Entry removed: "),
                 Absent(c, b, ManualReview, path, "Entry added: "));
  }

  lemma RequiredAbsentStep(start: seq<Change>, names: seq<Value>, i: nat, other: seq<Value>, verdict: Verdict,
                           path: string, intro: string)
    requires i < |names|
    ensures var before := AddAll(start, RequiredAbsent(names[..i], other, verdict, path, intro));
      AddAll(start, RequiredAbsent(names[..i + 1], other, verdict, path, intro)) ==
        if SetHas(other, names[i]) then before
        else AddChange(before, Change(verdict, path, intro + AsString(names[i]) + "."))
  {
    assert names[..i + 1][..i] == names[..i];
    var done := RequiredAbsent(names[..i], other, verdict, path, intro);
    AddAllOne(start, done, Change(verdict, path, intro + AsString(names[i]) + "."));
    assert done + [] == done;
  }

  method RecordMissingNames(names: seq<Value>, other: seq<Value>, verdict: Verdict, path: string, intro: string,
                            log: ChangeLog)
    modifies log
    ensures log.changes == AddAll(old(log.changes), RequiredAbsent(names, other, verdict, path, intro))
  {
    for i := 0 to |names|
      invariant log.changes == AddAll(old(log.changes), RequiredAbsent(names[..i], other, verdict, path, intro))
    {
      RequiredAbsentStep(old(log.changes), names, i, other, verdict, path, intro);
      if !SetHas(other, names[i]) {
        log.Add(verdict, path, intro + AsString(names[i]) + ".");
      }
    }
    assert names[..|names|] == names;
  }

  method CompareKeys(rule: KeyRule, bm: seq<Member>, cm: seq<Member>, path: string, keys: seq<string>, log: ChangeLog)
    modifies log
    ensures log.changes == AddAll(old(log.changes), KeyDiffs(rule, bm, cm, path, keys))
  {
    for i := 0 to |keys|
      invariant log.changes == AddAll(old(log.changes), KeyDiffs(rule, bm, cm, path, keys[..i]))
    {
      assert keys[..i + 1][..i] == keys[..i];
      ghost var before := KeyDiffs(rule, bm, cm, path, keys[..i]);
      var key := keys[i];
      if !(rule == Constraint && key in IGNORED) && !Equal(Find(bm, key), Find(cm, key)) {
        match rule {
          case Identity => log.Add(Breaking, path + "." + key, key + " changed.");
          case Composition => log.Add(ManualReview, path + "." + key, key + " composition changed.");
          case Constraint => log.Add(ManualReview, path + "." + key, "Schema constraint changed.");
        }
        AddAllConcat(old(log.changes), before, KeyDiff(rule, bm, cm, path, key));
      } else {
        assert before + [] == before;
      }
    }
    assert keys[..|keys|] == keys;
  }

  method CompareRequired(b: Option<Value>, c: Option<Value>, path: string, log: ChangeLog)
    modifies log
    ensures log.changes == AddAll(old(log.changes), RequiredDiff(b, c, path))
  {
    if b.Some? && b.value.Array? && c.Some? && c.value.Array? {
      var bs, cs := Distinct(b.value.items), Distinct(c.value.items);
      RecordMissingNames(cs, bs, Breaking, path, "Required property added: ", log);
      RecordMissingNames(bs, cs, ManualReview, path, "Required property removed: ", log);
      AddAllConcat(old(log.changes), RequiredAbsent(cs, bs, Breaking, path, "Required property added: "),
                   RequiredAbsent(bs, cs, ManualReview, path, "Required property removed: "));
    } else if !Equal(b, c) {
      log.Add(ManualReview, path, "Required-property policy changed.");
    }
  }

  method CompareAdditional(b: Option<Value>, c: Option<Value>, path: string, log: ChangeLog)
    modifies log
    ensures log.changes == AddAll(old(log.changes), AdditionalDiff(b, c, path))
  {
    if IsFalse(b) && !IsFalse(c) {
      log.Add(Additive, path, LOOSENED);
    } else if !IsFalse(b) && IsFalse(c) {
      log.Add(Breaking, path, "Object became restrictive.");
    } else if !Equal(b, c) {
      log.Add(ManualReview, path, "Additional-property policy changed.");
    }
  }

  method CompareRemoved(bp: seq<Member>, cp: seq<Member>, path: string, log: ChangeLog)
    modifies log
    ensures log.changes == AddAll(old(log.changes), RemovedProperties(bp, cp, path))
  {
    for i := 0 to |bp|
      invariant log.changes == AddAll(old(log.changes), RemovedProperties(bp[..i], cp, path))
    {
      assert bp[..i + 1][..i] == bp[..i];
      ghost var before := RemovedProperties(bp[..i], cp, path);
      if bp[i].key !in Keys(cp) {
        log.Add(Breaking, path + ".properties." + bp[i].key, "Property removed or renamed.");
        AddAllConcat(old(log.changes), before,
                     [Change(Breaking, path + ".properties." + bp[i].key, "Property removed or renamed.")]);
      } else {
        assert before + [] == before;
      }
    }
    assert bp[..|bp|] == bp;
  }

  method CompareFlat(bm: seq<Member>, cm: seq<Member>, path: string, log: ChangeLog)
    modifies log
    ensures log.changes == AddAll(old(log.changes), FlatDiff(bm, cm, path))
  {
    ghost var start := log.changes;
    var b, c := Find(bm, "enum"), Find(cm, "enum");
    if b.Some? && b.value.Array? && c.Some? && c.value.Array? {
      CompareEnum(b.value.items, c.value.items, path + ".enum", log);
    } else if !Equal(b, c) {
      log.Add(ManualReview, path + ".enum", "Enum representation changed.");
    }
    ghost var done := EnumKeywordDiff(b, c, path + ".enum");
    assert log.changes == AddAll(start, done);
    b, c := Find(bm, "required"), Find(cm, "required");
    CompareRequired(b, c, path + ".required", log);
    AddAllConcat(start, done, RequiredDiff(b, c, path + ".required"));
    done := done + RequiredDiff(b, c, path + ".required");
    b, c := Find(bm, "additionalProperties"), Find(cm, "additionalProperties");
    CompareAdditional(b, c, path + ".additionalProperties", log);
    AddAllConcat(start, done, AdditionalDiff(b, c, path + ".additionalProperties"));
    done := done + AdditionalDiff(b, c, path + ".additionalProperties");
    var bp, cp := Members(Find(bm, "properties")), Members(Find(cm, "properties"));
    CompareRemoved(bp, cp, path, log);
    AddAllConcat(start, done, RemovedProperties(bp, cp, path));
  }

  /** The recursive comparison: it pushes exactly the changes of `SchemaDiff`, in order. */
  method CompareSchema(b: Option<Value>, c: Option<Value>, path: string, log: ChangeLog)
    modifies log
    ensures log.changes == AddAll(old(log.changes), SchemaDiff(b, c, path))
    decreases c.Some?, c.GetOr(Null), 1
  {
    if !(b.Some? && b.value.Object? && c.Some? && c.value.Object?) {
      if !Equal(b, c) {
        log.Add(ManualReview, path, SHAPE_CHANGED);
      }
      return;
    }
    ghost var start := log.changes;
    var bm, cm := b.value.members, c.value.members;
    CompareKeys(Identity, bm, cm, path, IDENTITY_KEYS, log);
    ghost var done := KeyDiffs(Identity, bm, cm, path, IDENTITY_KEYS);
    if !Equal(Find(bm, "type"), Find(cm, "type")) {
      log.Add(ManualReview, path + ".type", "Schema type changed.");
      AddAllConcat(start, done, [Change(ManualReview, path + ".type", "Schema type changed.")]);
      return;
    }
    CompareFlat(bm, cm, path, log);
    AddAllConcat(start, done, FlatDiff(bm, cm, path));
    done := done + FlatDiff(bm, cm, path);
    CompareProperties(bm, c.value, path, log);
    AddAllConcat(start, done, Flatten(PropertyDiffs(bm, c.value, path)));
    done := done + Flatten(PropertyDiffs(bm, c.value, path));
    if Find(bm, "items").Some? || Find(cm, "items").Some? {
      CompareSchema(Find(bm, "items"), Find(cm, "items"), path + ".items", log);
    }
    AddAllConcat(start, done, ItemsDiff(Find(bm, "items"), Find(cm, "items"), path));
    done := done + ItemsDiff(Find(bm, "items"), Find(cm, "items"), path);
    CompareKeys(Composition, bm, cm, path, COMPOSITION_KEYS, log);
    AddAllConcat(start, done, KeyDiffs(Composition, bm, cm, path, COMPOSITION_KEYS));
    done := done + KeyDiffs(Composition, bm, cm, path, COMPOSITION_KEYS);
    CompareKeys(Constraint, bm, cm, path, AllKeys(bm, cm), log);
    AddAllConcat(start, done, KeyDiffs(Constraint, bm, cm, path, AllKeys(bm, cm)));
  }

  method CompareProperties(bm: seq<Member>, c: Value, path: string, log: ChangeLog)
    requires c.Object?
    modifies log
    ensures log.changes == AddAll(old(log.changes), Flatten(PropertyDiffs(bm, c, path)))
    decreases true, c, 0
  {
    var bp, cp := Members(Find(bm, "properties")), Members(Find(c.members, "properties"));
    var required := Names(Items(Find(c.members, "required")));
    var closed := IsFalse(Find(bm, "additionalProperties"));
    ghost var diffs := PropertyDiffs(bm, c, path);
    for k := 0 to |cp|
      invariant log.changes == AddAll(old(log.changes), Flatten(diffs[..k]))
    {
      assert diffs[..k + 1][..k] == diffs[..k] && diffs[k] == PropertyDiff(bm, c, k, path);
      if cp[k].key !in Keys(bp) {
        var change := NewProperty(cp[k].key, required, closed, path);
        log.Add(change.classification, change.path, change.reason);
      } else {
        CompareSchema(Some(Get(bp, cp[k].key)), Some(cp[k].value), path + ".properties." + cp[k].key, log);
      }
      AddAllConcat(old(log.changes), Flatten(diffs[..k]), diffs[k]);
    }
    assert diffs[..|cp|] == diffs;
  }
}
