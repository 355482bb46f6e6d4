/** What a list of schema changes guarantees about documents. */
module SchemaVerdicts {
  import opened Wrappers
  import opened Ordering
  import opened Json
  import opened JsonText
  import opened ContractImpact
  import opened SchemaMeaning

  /** Nothing breaking, nothing to review. */
  ghost predicate Quiet(changes: seq<Change>) {
    forall ch | ch in changes :: ch.classification == Additive
  }

  /** Only new optional properties. */
  ghost predicate OnlyNewProperties(changes: seq<Change>) {
    forall ch | ch in changes :: ch.classification == Additive && ch.reason != LOOSENED
  }

  /** Only objects that stopped rejecting unnamed members. */
  ghost predicate OnlyLoosened(changes: seq<Change>) {
    forall ch | ch in changes :: ch.classification == Additive && ch.reason == LOOSENED
  }

  ghost predicate Within(part: seq<Change>, whole: seq<Change>) {
    forall ch | ch in part :: ch in whole
  }

  lemma HeadIn(changes: seq<Change>)
    ensures changes == [] || changes[0] in changes
  {
  }

  lemma WithinEmpty(part: seq<Change>, whole: seq<Change>)
    requires Within(part, whole) && whole == []
    ensures part == []
  {
    HeadIn(part);
  }

  lemma WithinConcat(x: seq<Change>, y: seq<Change>)
    ensures Within(x, x + y) && Within(y, x + y)
    ensures Quiet(x + y) <==> Quiet(x) && Quiet(y)
  {
  }

  // ---- What silence about a keyword means ------------------------------------------

  lemma {:induction false} SilentKeys(rule: KeyRule, s: Value, t: Value, path: string, keys: seq<string>)
    requires Valid(s) && Valid(t) && s.Object? && t.Object?
    requires Quiet(KeyDiffs(rule, s.members, t.members, path, keys))
    ensures forall key | key in keys && !(rule == Constraint && key in IGNORED) ::
              Alike(Find(s.members, key), Find(t.members, key))
  {
    if keys == [] {
    } else {
      var n := |keys| - 1;
      var last := KeyDiff(rule, s.members, t.members, path, keys[n]);
      var front := KeyDiffs(rule, s.members, t.members, path, keys[..n]);
      WithinConcat(front, last);
      SilentKeys(rule, s, t, path, keys[..n]);
      EqualExactlyAlike(s, t, keys[n]);
      HeadIn(last);
      assert keys == keys[..n] + [keys[n]];
    }
  }

  lemma SilentLocals(s: Value, t: Value, path: string)
    requires Valid(s) && Valid(t) && s.Object? && t.Object?
    requires Quiet(KeyDiffs(Identity, s.members, t.members, path, IDENTITY_KEYS))
    requires Quiet(KeyDiffs(Composition, s.members, t.members, path, COMPOSITION_KEYS))
    requires Quiet(KeyDiffs(Constraint, s.members, t.members, path, AllKeys(s.members, t.members)))
    ensures forall key | key !in NOT_LOCAL :: Alike(Find(s.members, key), Find(t.members, key))
  {
    SilentKeys(Identity, s, t, path, IDENTITY_KEYS);
    SilentKeys(Composition, s, t, path, COMPOSITION_KEYS);
    SilentKeys(Constraint, s, t, path, AllKeys(s.members, t.members));
    forall key | key !in NOT_LOCAL ensures Alike(Find(s.members, key), Find(t.members, key)) {
      if key in IGNORED {
        assert IDENTITY_KEYS[0] in IDENTITY_KEYS && IDENTITY_KEYS[1] in IDENTITY_KEYS;
        assert COMPOSITION_KEYS[0] in COMPOSITION_KEYS && COMPOSITION_KEYS[1] in COMPOSITION_KEYS
            && COMPOSITION_KEYS[2] in COMPOSITION_KEYS;
        assert key in IDENTITY_KEYS || key in COMPOSITION_KEYS;
      } else if key in Keys(s.members) || key in Keys(t.members) {
        KeyListed(s.members, t.members, key);
      }
    }
  }

  lemma KeyListed(bm: seq<Member>, cm: seq<Member>, key: string)
    requires key in Keys(bm) || key in Keys(cm)
    ensures key in AllKeys(bm, cm)
  {
    var both := KeyList(bm) + KeyList(cm);
    if key in Keys(bm) {
      var i :| 0 <= i < |bm| && bm[i].key == key;
      assert both[i] == key;
    } else {
      var i :| 0 <= i < |cm| && cm[i].key == key;
      assert both[|bm| + i] == key;
    }
  }

  lemma {:induction false} SilentAbsent(texts: seq<string>, other: seq<string>, verdict: Verdict, path: string, intro: string)
    requires verdict != Additive && Quiet(Absent(texts, other, verdict, path, intro))
    ensures forall t | t in texts :: t in other
  {
    if texts == [] {
    } else {
      var n := |texts| - 1;
      var front := Absent(texts[..n], other, verdict, path, intro);
      var last := if texts[n] in other then [] else [Change(verdict, path, intro + texts[n] + ".")];
      WithinConcat(front, last);
      HeadIn(last);
      SilentAbsent(texts[..n], other, verdict, path, intro);
    }
  }

  /** Enumerations with the same texts have the same members. */
  lemma SilentEnum(s: Value, t: Value, path: string, d: Value)
    requires Valid(s) && Valid(t) && s.Object? && t.Object? && Valid(d)
    requires Quiet(EnumKeywordDiff(Find(s.members, "enum"), Find(t.members, "enum"), path))
    ensures EnumOk(Find(s.members, "enum"), d) <==> EnumOk(Find(t.members, "enum"), d)
  {
    var b, c := Find(s.members, "enum"), Find(t.members, "enum");
    ValidFind(s, "enum");
    ValidFind(t, "enum");
    if b.Some? && b.value.Array? && c.Some? && c.value.Array? {
      SilentEnumItems(b.value.items, c.value.items, path, d);
    } else {
      HeadIn(EnumKeywordDiff(b, c, path));
      EqualExactlyAlike(s, t, "enum");
      AlikeSymmetric(s, t, "enum");
      if EnumOk(b, d) { EnumAlike(b, c, d); }
      if EnumOk(c, d) { EnumAlike(c, b, d); }
    }
  }

  lemma SilentEnumItems(xs: seq<Value>, ys: seq<Value>, path: string, d: Value)
    requires Valid(Array(xs)) && Valid(Array(ys)) && Quiet(EnumDiff(xs, ys, path))
    ensures EnumOk(Some(Array(xs)), d) <==> EnumOk(Some(Array(ys)), d)
  {
    var b, c := Distinct(Texts(xs)), Distinct(Texts(ys));
    WithinConcat(Absent(b, c, Breaking, path, "Enum value removed: "),
                 Absent(c, b, ManualReview, path, "Closed enum value added: "));
    SilentAbsent(b, c, Breaking, path, "Enum value removed: ");
    SilentAbsent(c, b, ManualReview, path, "Closed enum value added: ");
    if EnumOk(Some(Array(xs)), d) { SharedEnumMember(xs, ys, d); }
    if EnumOk(Some(Array(ys)), d) { SharedEnumMember(ys, xs, d); }
  }

  lemma SharedEnumMember(xs: seq<Value>, ys: seq<Value>, d: Value)
    requires Valid(Array(xs)) && Valid(Array(ys))
    requires forall x | x in Texts(xs) :: x in Texts(ys)
    requires exists i :: 0 <= i < |xs| && Same(xs[i], d)
    ensures exists i :: 0 <= i < |ys| && Same(ys[i], d)
  {
    var i :| 0 <= i < |xs| && Same(xs[i], d);
    assert Texts(xs)[i] in Texts(ys);
    var j :| 0 <= j < |ys| && Texts(ys)[j] == Texts(xs)[i];
    StringifyInjective(xs[i], ys[j]);
  }

  lemma {:induction false} SilentNames(names: seq<Value>, other: seq<Value>, verdict: Verdict, path: string, intro: string)
    requires verdict != Additive && Quiet(RequiredAbsent(names, other, verdict, path, intro))
    ensures forall x | x in names :: x in other
  {
    if names == [] {
    } else {
      var n := |names| - 1;
      var front := RequiredAbsent(names[..n], other, verdict, path, intro);
      var last := if SetHas(other, names[n]) then [] else [Change(verdict, path, intro + AsString(names[n]) + ".")];
      WithinConcat(front, last);
      HeadIn(last);
      SilentNames(names[..n], other, verdict, path, intro);
    }
  }

  lemma SilentRequired(s: Value, t: Value, path: string, d: Value)
    requires Valid(s) && Valid(t) && s.Object? && t.Object?
    requires Quiet(RequiredDiff(Find(s.members, "required"), Find(t.members, "required"), path))
    ensures RequiredOk(Find(s.members, "required"), d) <==> RequiredOk(Find(t.members, "required"), d)
  {
    hide RequiredAbsent, Distinct;
    var b, c := Find(s.members, "required"), Find(t.members, "required");
    ValidFind(s, "required");
    ValidFind(t, "required");
    if b.Some? && b.value.Array? && c.Some? && c.value.Array? {
      var xs, ys := Distinct(b.value.items), Distinct(c.value.items);
      var added := RequiredAbsent(ys, xs, Breaking, path, "Required property added: ");
      var removed := RequiredAbsent(xs, ys, ManualReview, path, "Required property removed: ");
      WithinConcat(added, removed);
      SilentNames(ys, xs, Breaking, path, "Required property added: ");
      SilentNames(xs, ys, ManualReview, path, "Required property removed: ");
      if RequiredOk(b, d) { SharedNames(b.value.items, c.value.items, d); }
      if RequiredOk(c, d) { SharedNames(c.value.items, b.value.items, d); }
    } else {
      var diff := RequiredDiff(b, c, path);
      HeadIn(diff);
      EqualExactlyAlike(s, t, "required");
      if b.Some? && c.Some? { SameSymmetric(b.value, c.value); }
      if RequiredOk(b, d) { RequiredAlike(b, c, d); }
      if RequiredOk(c, d) { RequiredAlike(c, b, d); }
    }
  }

  lemma SharedNames(xs: seq<Value>, ys: seq<Value>, d: Value)
    requires forall y | y in ys :: y in xs
    requires RequiredOk(Some(Array(xs)), d)
    ensures RequiredOk(Some(Array(ys)), d)
  {
    if d.Object? {
      forall i | 0 <= i < |ys| && ys[i].String? ensures ys[i].s in Keys(d.members) {
        assert ys[i] in xs;
      }
    }
  }

  lemma {:induction false} SilentRemoved(bp: seq<Member>, cp: seq<Member>, path: string)
    requires Quiet(RemovedProperties(bp, cp, path))
    ensures Keys(bp) <= Keys(cp)
  {
    if bp == [] {
    } else {
      var n := |bp| - 1;
      var front := RemovedProperties(bp[..n], cp, path);
      var last := if bp[n].key in Keys(cp) then []
                  else [Change(Breaking, path + ".properties." + bp[n].key, "Property removed or renamed.")];
      WithinConcat(front, last);
      HeadIn(last);
      SilentRemoved(bp[..n], cp, path);
      assert Keys(bp) <= Keys(bp[..n]) + {bp[n].key};
    }
  }

  lemma {:induction false} FlattenWithin(lists: seq<seq<Change>>, k: nat)
    requires k < |lists|
    ensures Within(lists[k], Flatten(lists))
  {
    var n := |lists| - 1;
    WithinConcat(Flatten(lists[..n]), lists[n]);
    if k < n {
      FlattenWithin(lists[..n], k);
      assert lists[..n][k] == lists[k];
    }
  }

  lemma PropertyDiffWithin(bm: seq<Member>, c: Value, k: nat, path: string)
    requires c.Object? && k < |Members(Find(c.members, "properties"))|
    ensures Within(PropertyDiff(bm, c, k, path), Flatten(PropertyDiffs(bm, c, path)))
  {
    var diffs := PropertyDiffs(bm, c, path);
    FlattenWithin(diffs, k);
    assert diffs[k] == PropertyDiff(bm, c, k, path);
  }

  // ---- Taking an object diff apart ----------------------------------------------------

  /** The parts of a quiet object diff: the types agree, and every part is reported. */
  lemma ObjectDiffParts(bm: seq<Member>, c: Value, path: string)
    requires c.Object? && Quiet(ObjectDiff(bm, c, path))
    ensures Equal(Find(bm, "type"), Find(c.members, "type"))
    ensures var whole := ObjectDiff(bm, c, path);
      var cm := c.members;
      && Within(KeyDiffs(Identity, bm, cm, path, IDENTITY_KEYS), whole)
      && Within(FlatDiff(bm, cm, path), whole)
      && Within(Flatten(PropertyDiffs(bm, c, path)), whole)
      && Within(ItemsDiff(Find(bm, "items"), Find(cm, "items"), path), whole)
      && Within(KeyDiffs(Composition, bm, cm, path, COMPOSITION_KEYS), whole)
      && Within(KeyDiffs(Constraint, bm, cm, path, AllKeys(bm, cm)), whole)
  {
    var cm := c.members;
    if !Equal(Find(bm, "type"), Find(cm, "type")) {
      TypeChangeReported(bm, c, path);
      assert false;
    }
    SixParts(KeyDiffs(Identity, bm, cm, path, IDENTITY_KEYS),
             FlatDiff(bm, cm, path),
             Flatten(PropertyDiffs(bm, c, path)),
             ItemsDiff(Find(bm, "items"), Find(cm, "items"), path),
             KeyDiffs(Composition, bm, cm, path, COMPOSITION_KEYS),
             KeyDiffs(Constraint, bm, cm, path, AllKeys(bm, cm)));
  }

  lemma TypeChangeReported(bm: seq<Member>, c: Value, path: string)
    requires c.Object? && !Equal(Find(bm, "type"), Find(c.members, "type"))
    ensures exists ch :: ch in ObjectDiff(bm, c, path) && ch.classification == ManualReview
  {
    var change := Change(ManualReview, path + ".type", "Schema type changed.");
    WithinConcat(KeyDiffs(Identity, bm, c.members, path, IDENTITY_KEYS), [change]);
    assert change in [change];
    assert change in ObjectDiff(bm, c, path);
  }

  lemma SixParts(p1: seq<Change>, p2: seq<Change>, p3: seq<Change>, p4: seq<Change>, p5: seq<Change>, p6: seq<Change>)
    ensures var whole := p1 + p2 + p3 + p4 + p5 + p6;
      && Within(p1, whole) && Within(p2, whole) && Within(p3, whole)
      && Within(p4, whole) && Within(p5, whole) && Within(p6, whole)
  {
  }

  lemma FlatDiffParts(bm: seq<Member>, cm: seq<Member>, path: string)
    ensures var whole := FlatDiff(bm, cm, path);
      && Within(EnumKeywordDiff(Find(bm, "enum"), Find(cm, "enum"), path + ".enum"), whole)
      && Within(RequiredDiff(Find(bm, "required"), Find(cm, "required"), path + ".required"), whole)
      && Within(AdditionalDiff(Find(bm, "additionalProperties"), Find(cm, "additionalProperties"),
                               path + ".additionalProperties"), whole)
      && Within(RemovedProperties(Members(Find(bm, "properties")), Members(Find(cm, "properties")), path), whole)
  {
  }

  /** Every part of a quiet object diff is quiet. */
  lemma QuietParts(s: Value, t: Value, path: string)
    requires s.Object? && t.Object? && Quiet(ObjectDiff(s.members, t, path))
    ensures Equal(Find(s.members, "type"), Find(t.members, "type"))
    ensures Quiet(KeyDiffs(Identity, s.members, t.members, path, IDENTITY_KEYS))
    ensures Quiet(FlatDiff(s.members, t.members, path))
    ensures Quiet(KeyDiffs(Composition, s.members, t.members, path, COMPOSITION_KEYS))
    ensures Quiet(KeyDiffs(Constraint, s.members, t.members, path, AllKeys(s.members, t.members)))
  {
    ObjectDiffParts(s.members, t, path);
  }

  lemma QuietFlat(s: Value, t: Value, path: string, d: Value)
    requires Valid(s) && Valid(t) && s.Object? && t.Object? && Valid(d)
    requires Quiet(FlatDiff(s.members, t.members, path))
    ensures EnumOk(Find(s.members, "enum"), d) <==> EnumOk(Find(t.members, "enum"), d)
    ensures RequiredOk(Find(s.members, "required"), d) <==> RequiredOk(Find(t.members, "required"), d)
    ensures Keys(Members(Find(s.members, "properties"))) <= Keys(Members(Find(t.members, "properties")))
  {
    FlatDiffParts(s.members, t.members, path);
    SilentEnum(s, t, path + ".enum", d);
    SilentRequired(s, t, path + ".required", d);
    SilentRemoved(Members(Find(s.members, "properties")), Members(Find(t.members, "properties")), path);
  }

  /** Keywords on which a quiet diff means full agreement. */
  lemma QuietKeywords(dl: Dialect, s: Value, t: Value, path: string, d: Value)
    requires RespectsOrder(dl) && Valid(s) && Valid(t) && s.Object? && t.Object? && Valid(d)
    requires Quiet(ObjectDiff(s.members, t, path))
    ensures LocalsOk(dl, s.members, d) <==> LocalsOk(dl, t.members, d)
    ensures TypeOk(dl, Find(s.members, "type"), d) <==> TypeOk(dl, Find(t.members, "type"), d)
    ensures EnumOk(Find(s.members, "enum"), d) <==> EnumOk(Find(t.members, "enum"), d)
    ensures RequiredOk(Find(s.members, "required"), d) <==> RequiredOk(Find(t.members, "required"), d)
    ensures |Items(Find(s.members, "prefixItems"))| == |Items(Find(t.members, "prefixItems"))|
    ensures Keys(Members(Find(s.members, "properties"))) <= Keys(Members(Find(t.members, "properties")))
  {
    QuietParts(s, t, path);
    QuietFlat(s, t, path, d);
    EqualExactlyAlike(s, t, "type");
    QuietType(dl, s, t, d);
    SilentLocalsOk(dl, s, t, path, d);
  }

  lemma SilentLocalsOk(dl: Dialect, s: Value, t: Value, path: string, d: Value)
    requires RespectsOrder(dl) && Valid(s) && Valid(t) && s.Object? && t.Object?
    requires Quiet(KeyDiffs(Identity, s.members, t.members, path, IDENTITY_KEYS))
    requires Quiet(KeyDiffs(Composition, s.members, t.members, path, COMPOSITION_KEYS))
    requires Quiet(KeyDiffs(Constraint, s.members, t.members, path, AllKeys(s.members, t.members)))
    ensures LocalsOk(dl, s.members, d) <==> LocalsOk(dl, t.members, d)
    ensures |Items(Find(s.members, "prefixItems"))| == |Items(Find(t.members, "prefixItems"))|
  {
    SilentLocals(s, t, path);
    SamePrefixLength(s, t);
    QuietLocals(dl, s, t, d);
  }

  lemma SamePrefixLength(s: Value, t: Value)
    requires s.Object? && t.Object?
    requires forall key | key !in NOT_LOCAL :: Alike(Find(s.members, key), Find(t.members, key))
    ensures |Items(Find(s.members, "prefixItems"))| == |Items(Find(t.members, "prefixItems"))|
  {
    var key := "prefixItems";
    assert key !in NOT_LOCAL by {
      assert key[0] == 'p' && key[1] == 'r' && key[2] == 'e';
      assert forall k | k in NOT_LOCAL :: |k| == 11 ==> k[0] == 'd';
    }
    AlikeItems(Find(s.members, key), Find(t.members, key));
  }

  lemma AlikeItems(s: Option<Value>, t: Option<Value>)
    requires Alike(s, t)
    ensures |Items(s)| == |Items(t)|
  {
  }

  lemma QuietLocals(dl: Dialect, s: Value, t: Value, d: Value)
    requires RespectsOrder(dl) && Valid(s) && Valid(t) && s.Object? && t.Object?
    requires forall key | key !in NOT_LOCAL :: Alike(Find(s.members, key), Find(t.members, key))
    ensures LocalsOk(dl, s.members, d) <==> LocalsOk(dl, t.members, d)
  {
    forall key | key !in NOT_LOCAL ensures Alike(Find(t.members, key), Find(s.members, key)) {
      assert Alike(Find(s.members, key), Find(t.members, key));
      AlikeSymmetric(s, t, key);
    }
    if LocalsOk(dl, s.members, d) { LocalsAlike(dl, s, t, d); }
    if LocalsOk(dl, t.members, d) { LocalsAlike(dl, t, s, d); }
  }

  lemma AlikeSymmetric(s: Value, t: Value, key: string)
    requires Valid(s) && Valid(t) && s.Object? && t.Object?
    requires Alike(Find(s.members, key), Find(t.members, key))
    ensures Alike(Find(t.members, key), Find(s.members, key))
  {
    ValidFind(s, key);
    ValidFind(t, key);
    if key in Keys(s.members) {
      SameSymmetric(Get(s.members, key), Get(t.members, key));
    }
  }

  lemma QuietType(dl: Dialect, s: Value, t: Value, d: Value)
    requires Valid(s) && Valid(t) && s.Object? && t.Object?
    requires Alike(Find(s.members, "type"), Find(t.members, "type"))
    ensures TypeOk(dl, Find(s.members, "type"), d) <==> TypeOk(dl, Find(t.members, "type"), d)
  {
    AlikeSymmetric(s, t, "type");
    var x, y := Find(s.members, "type"), Find(t.members, "type");
    if TypeOk(dl, x, d) { TypeAlike(dl, x, y, d); }
    if TypeOk(dl, y, d) { TypeAlike(dl, y, x, d); }
  }

  /** How a quiet diff constrains the two policies for unnamed members. */
  lemma QuietAdditional(s: Value, t: Value, path: string)
    requires Valid(s) && Valid(t) && s.Object? && t.Object?
    requires Quiet(ObjectDiff(s.members, t, path))
    ensures var b, c := Find(s.members, "additionalProperties"), Find(t.members, "additionalProperties");
      || Alike(b, c)
      || (IsFalse(b) && !IsFalse(c) && exists ch :: ch in ObjectDiff(s.members, t, path) && ch.reason == LOOSENED)
  {
    hide ObjectDiff, Valid, FlatDiff;
    ObjectDiffParts(s.members, t, path);
    FlatDiffParts(s.members, t.members, path);
    var b, c := Find(s.members, "additionalProperties"), Find(t.members, "additionalProperties");
    var diff := AdditionalDiff(b, c, path + ".additionalProperties");
    EqualExactlyAlike(s, t, "additionalProperties");
    if diff != [] {
      assert diff[0] in diff;
      assert diff[0] in ObjectDiff(s.members, t, path);
    }
  }

  /** A candidate property the baseline lacks is reported, as the reason says. */
  lemma NewPropertyReported(s: Value, t: Value, path: string, k: nat)
    requires s.Object? && t.Object? && Quiet(ObjectDiff(s.members, t, path))
    requires k < |Members(Find(t.members, "properties"))|
    requires Members(Find(t.members, "properties"))[k].key !in Keys(Members(Find(s.members, "properties")))
    ensures !IsFalse(Find(s.members, "additionalProperties"))
    ensures exists ch :: ch in ObjectDiff(s.members, t, path) && ch.reason != LOOSENED
  {
    ObjectDiffParts(s.members, t, path);
    PropertyDiffWithin(s.members, t, k, path);
    var diff := PropertyDiff(s.members, t, k, path);
    assert diff[0] in diff;
    assert diff[0] in ObjectDiff(s.members, t, path);
    assert diff[0].classification == Additive;
    assert |diff[0].reason| != |LOOSENED|;
  }

  // ---- Subschemas ---------------------------------------------------------------------

  lemma SubschemaWithin(s: Value, t: Value, path: string, k: nat)
    requires s.Object? && t.Object? && Quiet(ObjectDiff(s.members, t, path))
    requires k < |Members(Find(t.members, "properties"))|
    requires Members(Find(t.members, "properties"))[k].key in Keys(Members(Find(s.members, "properties")))
    ensures var p := Members(Find(t.members, "properties"))[k];
      Within(SchemaDiff(Some(Get(Members(Find(s.members, "properties")), p.key)), Some(p.value),
                        path + ".properties." + p.key),
             ObjectDiff(s.members, t, path))
  {
    ObjectDiffParts(s.members, t, path);
    PropertyDiffWithin(s.members, t, k, path);
  }

  lemma QuietItems(s: Value, t: Value, path: string)
    requires Valid(s) && Valid(t) && s.Object? && t.Object? && Quiet(ObjectDiff(s.members, t, path))
    ensures Find(s.members, "items").Some? <==> Find(t.members, "items").Some?
    ensures Find(s.members, "items").Some? ==>
      Within(SchemaDiff(Find(s.members, "items"), Find(t.members, "items"), path + ".items"),
             ObjectDiff(s.members, t, path))
  {
    ObjectDiffParts(s.members, t, path);
    var b, c := Find(s.members, "items"), Find(t.members, "items");
    assert Quiet(ItemsDiff(b, c, path));
    LoneItemsReported(b, c, path);
  }

  lemma LoneItemsReported(b: Option<Value>, c: Option<Value>, path: string)
    requires Quiet(ItemsDiff(b, c, path))
    ensures b.Some? <==> c.Some?
  {
    if b.Some? != c.Some? {
      assert SchemaDiff(b, c, path + ".items") == [Change(ManualReview, path + ".items", SHAPE_CHANGED)];
      HeadIn(ItemsDiff(b, c, path));
    }
  }

  // ---- Only new properties: the candidate accepts no more ------------------------------

  /**
   Wherever the candidate names a new property, the baseline's `additionalProperties` accepts
   whatever the property accepts: here, in shared properties and in `items`.
   */
  ghost predicate Fits(dl: Dialect, b: Value, c: Value)
    decreases b
  {
    b.Object? && c.Object? ==>
      var bp, cp := Members(Find(b.members, "properties")), Members(Find(c.members, "properties"));
      && (forall k | 0 <= k < |cp| && cp[k].key !in Keys(bp) ::
            FitsUnder(dl, cp[k].value, Find(b.members, "additionalProperties")))
      && (forall i, k | 0 <= i < |bp| && 0 <= k < |cp| && bp[i].key == cp[k].key :: Fits(dl, bp[i].value, cp[k].value))
      && (Find(b.members, "items").Some? && Find(c.members, "items").Some? ==>
            Fits(dl, Get(b.members, "items"), Get(c.members, "items")))
  }

  ghost predicate FitsUnder(dl: Dialect, property: Value, additional: Option<Value>) {
    additional.Some? ==> forall v | Valid(v) && Accepts(dl, property, v) :: Accepts(dl, additional.value, v)
  }

  /** The same, read off the schemas: a new property only where `additionalProperties` is absent or true. */
  ghost predicate OpenToNew(b: Value, c: Value)
    decreases b
  {
    b.Object? && c.Object? ==>
      var bp, cp := Members(Find(b.members, "properties")), Members(Find(c.members, "properties"));
      && ((exists k :: 0 <= k < |cp| && cp[k].key !in Keys(bp)) ==>
            Find(b.members, "additionalProperties") in {None, Some(Bool(true))})
      && (forall i, k | 0 <= i < |bp| && 0 <= k < |cp| && bp[i].key == cp[k].key :: OpenToNew(bp[i].value, cp[k].value))
      && (Find(b.members, "items").Some? && Find(c.members, "items").Some? ==>
            OpenToNew(Get(b.members, "items"), Get(c.members, "items")))
  }

  lemma {:induction false} OpenFits(dl: Dialect, b: Value, c: Value)
    requires OpenToNew(b, c)
    ensures Fits(dl, b, c)
    decreases b
  {
    if b.Object? && c.Object? {
      var bp, cp := Members(Find(b.members, "properties")), Members(Find(c.members, "properties"));
      forall i, k | 0 <= i < |bp| && 0 <= k < |cp| && bp[i].key == cp[k].key
        ensures Fits(dl, bp[i].value, cp[k].value)
      {
        OpenFits(dl, bp[i].value, cp[k].value);
      }
      if Find(b.members, "items").Some? && Find(c.members, "items").Some? {
        OpenFits(dl, Get(b.members, "items"), Get(c.members, "items"));
      }
    }
  }

  /** The subdiff of a property that both sides name. */
  lemma SharedWithin(b: Value, c: Value, path: string, i: nat, k: nat)
    requires Valid(b) && b.Object? && c.Object? && Quiet(ObjectDiff(b.members, c, path))
    requires i < |Members(Find(b.members, "properties"))| && k < |Members(Find(c.members, "properties"))|
    requires Members(Find(b.members, "properties"))[i].key == Members(Find(c.members, "properties"))[k].key
    ensures var p, q := Members(Find(b.members, "properties"))[i], Members(Find(c.members, "properties"))[k];
      Within(SchemaDiff(Some(p.value), Some(q.value), path + ".properties." + q.key), ObjectDiff(b.members, c, path))
  {
    hide ObjectDiff, SchemaDiff;
    ValidFind(b, "properties");
    GetAt(Members(Find(b.members, "properties")), i);
    SubschemaWithin(b, c, path, k);
  }

  /** Where nothing is recorded no property is new. */
  lemma {:induction false} SilentIsOpen(b: Value, c: Value, path: string)
    requires Valid(b) && Valid(c) && SchemaDiff(Some(b), Some(c), path) == []
    ensures OpenToNew(b, c)
    decreases b
  {
    if b.Object? && c.Object? {
      assert ObjectDiff(b.members, c, path) == [];
      hide ObjectDiff, SchemaDiff;
      var bp, cp := Members(Find(b.members, "properties")), Members(Find(c.members, "properties"));
      ValidFind(b, "properties");
      ValidFind(c, "properties");
      forall k | 0 <= k < |cp| ensures cp[k].key in Keys(bp) {
        if cp[k].key !in Keys(bp) { NewPropertyReported(b, c, path, k); }
      }
      forall i, k | 0 <= i < |bp| && 0 <= k < |cp| && bp[i].key == cp[k].key
        ensures OpenToNew(bp[i].value, cp[k].value)
      {
        SharedWithin(b, c, path, i, k);
        var sub := path + ".properties." + cp[k].key;
        WithinEmpty(SchemaDiff(Some(bp[i].value), Some(cp[k].value), sub), ObjectDiff(b.members, c, path));
        SilentIsOpen(bp[i].value, cp[k].value, sub);
      }
      QuietItems(b, c, path);
      var bi, ci := Find(b.members, "items"), Find(c.members, "items");
      if bi.Some? && ci.Some? {
        ValidFind(b, "items");
        ValidFind(c, "items");
        WithinEmpty(SchemaDiff(bi, ci, path + ".items"), ObjectDiff(b.members, c, path));
        SilentIsOpen(bi.value, ci.value, path + ".items");
      }
    }
  }

  /** Without a schema under `additionalProperties` every additive diff is open to what is new. */
  lemma {:induction false} SimpleIsOpen(b: Value, c: Value, path: string)
    requires Valid(b) && Valid(c) && Quiet(SchemaDiff(Some(b), Some(c), path)) && SimpleAdditional(b)
    ensures OpenToNew(b, c)
    decreases b
  {
    if b.Object? && c.Object? {
      assert Quiet(ObjectDiff(b.members, c, path));
      hide ObjectDiff, SchemaDiff;
      var bp, cp := Members(Find(b.members, "properties")), Members(Find(c.members, "properties"));
      ValidFind(b, "properties");
      ValidFind(c, "properties");
      forall k | 0 <= k < |cp| && cp[k].key !in Keys(bp)
        ensures Find(b.members, "additionalProperties") in {None, Some(Bool(true))}
      {
        NewPropertyReported(b, c, path, k);
      }
      forall i, k | 0 <= i < |bp| && 0 <= k < |cp| && bp[i].key == cp[k].key
        ensures OpenToNew(bp[i].value, cp[k].value)
      {
        SharedWithin(b, c, path, i, k);
        SimpleIsOpen(bp[i].value, cp[k].value, path + ".properties." + cp[k].key);
      }
      QuietItems(b, c, path);
      var bi, ci := Find(b.members, "items"), Find(c.members, "items");
      if bi.Some? && ci.Some? {
        ValidFind(b, "items");
        ValidFind(c, "items");
        SimpleIsOpen(bi.value, ci.value, path + ".items");
      }
    }
  }

  /**
   If the checker records only new optional properties, and each of them fits under the baseline's
   `additionalProperties`, every document the candidate accepts the baseline accepts too.
   */
  lemma {:induction false} CandidateNarrows(dl: Dialect, b: Value, c: Value, path: string, d: Value)
    requires RespectsOrder(dl) && Valid(b) && Valid(c) && Valid(d)
    requires OnlyNewProperties(SchemaDiff(Some(b), Some(c), path))
    requires Fits(dl, b, c)
    requires Accepts(dl, c, d)
    ensures Accepts(dl, b, d)
    decreases b, 1
  {
    var diff := SchemaDiff(Some(b), Some(c), path);
    if b.Object? && c.Object? {
      QuietKeywords(dl, b, c, path, d);
      NarrowProperties(dl, b, c, path, d);
      NarrowAdditional(dl, b, c, path, d);
      NarrowItems(dl, b, c, path, d);
    } else {
      HeadIn(diff);
      EqualExactlySame(b, c);
      SameSymmetric(b, c);
      ReorderedSchemaAccepts(dl, c, b, d);
    }
  }

  lemma {:induction false} NarrowProperties(dl: Dialect, b: Value, c: Value, path: string, d: Value)
    requires RespectsOrder(dl) && Valid(b) && Valid(c) && Valid(d) && b.Object? && c.Object?
    requires OnlyNewProperties(ObjectDiff(b.members, c, path))
    requires Fits(dl, b, c)
    requires PropertiesOk(dl, c, d)
    ensures PropertiesOk(dl, b, d)
    decreases b, 0
  {
    ValidFind(b, "properties");
    ValidFind(c, "properties");
    var bp := Members(Find(b.members, "properties"));
    if d.Object? {
      forall i | 0 <= i < |bp| && bp[i].key in Keys(d.members)
        ensures Accepts(dl, bp[i].value, Get(d.members, bp[i].key))
      {
        hide ObjectDiff, SchemaDiff, Accepts;
        QuietKeywords(dl, b, c, path, d);
        var k := PropertyNarrows(b, c, path, i);
        var p := Members(Find(c.members, "properties"))[k];
        CandidateNarrows(dl, bp[i].value, p.value, path + ".properties." + p.key, Get(d.members, bp[i].key));
      }
    }
  }

  /** The candidate's schema of a property that both sides name, and what the diff says of it. */
  lemma PropertyNarrows(b: Value, c: Value, path: string, i: nat) returns (k: nat)
    requires Valid(b) && b.Object? && c.Object? && OnlyNewProperties(ObjectDiff(b.members, c, path))
    requires i < |Members(Find(b.members, "properties"))|
    requires Members(Find(b.members, "properties"))[i].key in Keys(Members(Find(c.members, "properties")))
    ensures k < |Members(Find(c.members, "properties"))|
    ensures var p, q := Members(Find(b.members, "properties"))[i], Members(Find(c.members, "properties"))[k];
      p.key == q.key && OnlyNewProperties(SchemaDiff(Some(p.value), Some(q.value), path + ".properties." + q.key))
  {
    hide ObjectDiff, SchemaDiff;
    var bp, cp := Members(Find(b.members, "properties")), Members(Find(c.members, "properties"));
    k :| 0 <= k < |cp| && cp[k].key == bp[i].key;
    SharedWithin(b, c, path, i, k);
  }

  lemma {:induction false} NarrowAdditional(dl: Dialect, b: Value, c: Value, path: string, d: Value)
    requires RespectsOrder(dl) && Valid(b) && Valid(c) && Valid(d) && b.Object? && c.Object?
    requires OnlyNewProperties(ObjectDiff(b.members, c, path))
    requires Fits(dl, b, c)
    requires PropertiesOk(dl, c, d) && AdditionalOk(dl, c, d)
    ensures AdditionalOk(dl, b, d)
  {
    QuietAdditional(b, c, path);
    var ba, ca := Find(b.members, "additionalProperties"), Find(c.members, "additionalProperties");
    assert Alike(ba, ca);
    ValidFind(b, "additionalProperties");
    ValidFind(c, "additionalProperties");
    if ba.Some? && d.Object? {
      var bp, cp := Members(Find(b.members, "properties")), Members(Find(c.members, "properties"));
      forall j | 0 <= j < |d.members| && d.members[j].key !in Keys(bp)
        ensures Accepts(dl, ba.value, d.members[j].value)
      {
        if d.members[j].key in Keys(cp) {
          var k :| 0 <= k < |cp| && cp[k].key == d.members[j].key;
          GetAt(d.members, j);
          assert FitsUnder(dl, cp[k].value, ba);
        } else {
          SameSymmetric(ba.value, ca.value);
          ReorderedSchemaAccepts(dl, ca.value, ba.value, d.members[j].value);
        }
      }
    }
  }

  lemma {:induction false} NarrowItems(dl: Dialect, b: Value, c: Value, path: string, d: Value)
    requires RespectsOrder(dl) && Valid(b) && Valid(c) && Valid(d) && b.Object? && c.Object?
    requires OnlyNewProperties(ObjectDiff(b.members, c, path))
    requires Fits(dl, b, c)
    requires ItemsOk(dl, c, d)
    ensures ItemsOk(dl, b, d)
    decreases b, 0
  {
    QuietItems(b, c, path);
    ValidFind(b, "items");
    ValidFind(c, "items");
    var bi, ci := Find(b.members, "items"), Find(c.members, "items");
    if bi.Some? && d.Array? {
      QuietKeywords(dl, b, c, path, d);
      forall i | |Items(Find(b.members, "prefixItems"))| <= i < |d.items| ensures Accepts(dl, bi.value, d.items[i]) {
        CandidateNarrows(dl, bi.value, ci.value, path + ".items", d.items[i]);
      }
    }
  }

  // ---- Only loosenings: the candidate accepts no less ---------------------------------

  /**
   If the checker records only objects that became more permissive, every document the
   baseline accepts the candidate accepts too.
   */
  lemma {:induction false} CandidateWidens(dl: Dialect, b: Value, c: Value, path: string, d: Value)
    requires RespectsOrder(dl) && Valid(b) && Valid(c) && Valid(d)
    requires OnlyLoosened(SchemaDiff(Some(b), Some(c), path))
    requires Accepts(dl, b, d)
    ensures Accepts(dl, c, d)
    decreases b, 1
  {
    var diff := SchemaDiff(Some(b), Some(c), path);
    if b.Object? && c.Object? {
      QuietKeywords(dl, b, c, path, d);
      WidenProperties(dl, b, c, path, d);
      WidenAdditional(dl, b, c, path, d);
      WidenItems(dl, b, c, path, d);
    } else {
      HeadIn(diff);
      EqualExactlySame(b, c);
      ReorderedSchemaAccepts(dl, b, c, d);
    }
  }

  /** Without new-property changes, both sides name the same properties. */
  lemma SameNames(b: Value, c: Value, path: string)
    requires Valid(b) && Valid(c) && b.Object? && c.Object?
    requires OnlyLoosened(ObjectDiff(b.members, c, path))
    ensures Keys(Members(Find(c.members, "properties"))) == Keys(Members(Find(b.members, "properties")))
  {
    var bp, cp := Members(Find(b.members, "properties")), Members(Find(c.members, "properties"));
    ObjectDiffParts(b.members, c, path);
    FlatDiffParts(b.members, c.members, path);
    SilentRemoved(bp, cp, path);
    forall k | 0 <= k < |cp| ensures cp[k].key in Keys(bp) {
      if cp[k].key !in Keys(bp) {
        NewPropertyReported(b, c, path, k);
      }
    }
  }

  lemma {:induction false} WidenProperties(dl: Dialect, b: Value, c: Value, path: string, d: Value)
    requires RespectsOrder(dl) && Valid(b) && Valid(c) && Valid(d) && b.Object? && c.Object?
    requires OnlyLoosened(ObjectDiff(b.members, c, path))
    requires PropertiesOk(dl, b, d)
    ensures PropertiesOk(dl, c, d)
    decreases b, 0
  {
    SameNames(b, c, path);
    ValidFind(b, "properties");
    ValidFind(c, "properties");
    var bp, cp := Members(Find(b.members, "properties")), Members(Find(c.members, "properties"));
    if d.Object? {
      forall k | 0 <= k < |cp| && cp[k].key in Keys(d.members)
        ensures Accepts(dl, cp[k].value, Get(d.members, cp[k].key))
      {
        assert cp[k].key in Keys(bp);
        var i :| 0 <= i < |bp| && bp[i].key == cp[k].key;
        GetAt(bp, i);
        SubschemaWithin(b, c, path, k);
        CandidateWidens(dl, bp[i].value, cp[k].value, path + ".properties." + cp[k].key, Get(d.members, cp[k].key));
      }
    }
  }

  lemma {:induction false} WidenAdditional(dl: Dialect, b: Value, c: Value, path: string, d: Value)
    requires RespectsOrder(dl) && Valid(b) && Valid(c) && Valid(d) && b.Object? && c.Object?
    requires OnlyLoosened(ObjectDiff(b.members, c, path))
    requires AdditionalOk(dl, b, d)
    ensures AdditionalOk(dl, c, d)
  {
    hide ObjectDiff;
    QuietAdditional(b, c, path);
    SameNames(b, c, path);
    var ba, ca := Find(b.members, "additionalProperties"), Find(c.members, "additionalProperties");
    ValidFind(b, "additionalProperties");
    ValidFind(c, "additionalProperties");
    if ca.Some? && d.Object? && !IsFalse(ba) {
      assert Alike(ba, ca);
      forall j | 0 <= j < |d.members| && d.members[j].key !in Keys(Members(Find(c.members, "properties")))
        ensures Accepts(dl, ca.value, d.members[j].value)
      {
        ReorderedSchemaAccepts(dl, ba.value, ca.value, d.members[j].value);
      }
    }
  }

  lemma {:induction false} WidenItems(dl: Dialect, b: Value, c: Value, path: string, d: Value)
    requires RespectsOrder(dl) && Valid(b) && Valid(c) && Valid(d) && b.Object? && c.Object?
    requires OnlyLoosened(ObjectDiff(b.members, c, path))
    requires ItemsOk(dl, b, d)
    ensures ItemsOk(dl, c, d)
    decreases b, 0
  {
    QuietItems(b, c, path);
    ValidFind(b, "items");
    ValidFind(c, "items");
    var bi, ci := Find(b.members, "items"), Find(c.members, "items");
    if ci.Some? && d.Array? {
      QuietKeywords(dl, b, c, path, d);
      forall i | |Items(Find(c.members, "prefixItems"))| <= i < |d.items| ensures Accepts(dl, ci.value, d.items[i]) {
        CandidateWidens(dl, bi.value, ci.value, path + ".items", d.items[i]);
      }
    }
  }

  /** If the checker records nothing, both schemas accept exactly the same documents. */
  lemma NothingRecorded(dl: Dialect, b: Value, c: Value, path: string, d: Value)
    requires RespectsOrder(dl) && Valid(b) && Valid(c) && Valid(d)
    requires SchemaDiff(Some(b), Some(c), path) == []
    ensures Accepts(dl, b, d) <==> Accepts(dl, c, d)
  {
    if Accepts(dl, b, d) { CandidateWidens(dl, b, c, path, d); }
    if Accepts(dl, c, d) {
      SilentIsOpen(b, c, path);
      OpenFits(dl, b, c);
      CandidateNarrows(dl, b, c, path, d);
    }
  }
}
