/**
 Key order is invisible to the checker, except inside enumeration members, which it
 compares by their raw text, and for composite entries of `required`, which it compares
 by identity. The condition is exact.
 */
module ReorderedContracts {
  import opened Wrappers
  import opened Ordering
  import opened Json
  import opened JsonText
  import opened ContractImpact
  import opened SchemaMeaning
  import opened SchemaVerdicts

  /** No object anywhere inside has two members to swap. */
  ghost predicate OrderFree(v: Value) {
    match v
    case Array(items) => forall i | 0 <= i < |items| :: OrderFree(items[i])
    case Object(ms) => |ms| <= 1 && forall i | 0 <= i < |ms| :: OrderFree(ms[i].value)
    case _ => true
  }

  ghost predicate OrderFreeEnum(e: Option<Value>) {
    forall i | 0 <= i < |Items(e)| :: OrderFree(Items(e)[i])
  }

  ghost predicate ScalarNames(r: Option<Value>) {
    forall i | 0 <= i < |Items(r)| :: !Items(r)[i].Array? && !Items(r)[i].Object?
  }

  /** In every schema the comparison reaches: order-free `enum` members, scalar `required` entries. */
  ghost predicate OrderStable(s: Value) {
    s.Object? ==>
      && OrderFreeEnum(Find(s.members, "enum"))
      && ScalarNames(Find(s.members, "required"))
      && (forall i | 0 <= i < |Members(Find(s.members, "properties"))| ::
            OrderStable(Members(Find(s.members, "properties"))[i].value))
      && (Find(s.members, "items").Some? ==> OrderStable(Get(s.members, "items")))
  }

  lemma SomeKey(ms: seq<Member>)
    requires ms != []
    ensures ms[0].key in Keys(ms)
  {
  }

  lemma OneKey(ms: seq<Member>, key: string)
    requires DistinctKeys(ms) && Keys(ms) == {key}
    ensures |ms| == 1 && ms[0].key == key
  {
    assert ms != [];
    var j := if |ms| >= 2 then 1 else 0;
    assert ms[0].key in Keys(ms) && ms[j].key in Keys(ms);
  }

  lemma {:induction false} OrderFreeSame(a: Value, b: Value)
    requires Valid(a) && Valid(b) && Same(a, b) && OrderFree(a)
    ensures a == b
  {
    match a
    case Array(xs) =>
      forall i | 0 <= i < |xs| ensures xs[i] == b.items[i] { OrderFreeSame(xs[i], b.items[i]); }
    case Object(ms) =>
      if ms == [] {
        NoKeys(b.members);
      } else {
        assert Keys(ms) == {ms[0].key};
        OneKey(b.members, ms[0].key);
        OrderFreeSame(ms[0].value, b.members[0].value);
      }
    case _ =>
  }

  lemma NoKeys(ms: seq<Member>)
    ensures Keys(ms) == {} <==> ms == []
  {
    if ms != [] { SomeKey(ms); }
  }

  // ---- Sufficient: a stable schema hides every reordering --------------------------------

  lemma {:induction false} NothingAbsent(texts: seq<string>, other: seq<string>, verdict: Verdict, path: string, intro: string)
    requires forall t | t in texts :: t in other
    ensures Absent(texts, other, verdict, path, intro) == []
  {
    if texts == [] {
    } else {
      NothingAbsent(texts[..|texts| - 1], other, verdict, path, intro);
    }
  }

  lemma {:induction false} NoNameAbsent(names: seq<Value>, other: seq<Value>, verdict: Verdict, path: string, intro: string)
    requires forall x | x in names :: SetHas(other, x)
    ensures RequiredAbsent(names, other, verdict, path, intro) == []
  {
    if names == [] {
    } else {
      NoNameAbsent(names[..|names| - 1], other, verdict, path, intro);
    }
  }

  lemma {:induction false} NoKeyDiffs(rule: KeyRule, s: Value, t: Value, path: string, keys: seq<string>)
    requires Valid(s) && Valid(t) && s.Object? && Same(s, t)
    ensures KeyDiffs(rule, s.members, t.members, path, keys) == []
  {
    if keys == [] {
    } else {
      NoKeyDiffs(rule, s, t, path, keys[..|keys| - 1]);
      FindSame(s, t, keys[|keys| - 1]);
      EqualExactlyAlike(s, t, keys[|keys| - 1]);
    }
  }

  lemma {:induction false} NoneRemoved(bp: seq<Member>, cp: seq<Member>, path: string)
    requires Keys(bp) <= Keys(cp)
    ensures RemovedProperties(bp, cp, path) == []
  {
    if bp == [] {
    } else {
      assert bp[|bp| - 1].key in Keys(bp);
      assert Keys(bp[..|bp| - 1]) <= Keys(bp);
      NoneRemoved(bp[..|bp| - 1], cp, path);
    }
  }

  lemma NoEnumDiff(s: Value, t: Value, path: string)
    requires Valid(s) && Valid(t) && s.Object? && Same(s, t) && OrderFreeEnum(Find(s.members, "enum"))
    ensures EnumKeywordDiff(Find(s.members, "enum"), Find(t.members, "enum"), path) == []
  {
    FindSame(s, t, "enum");
    EqualExactlyAlike(s, t, "enum");
    ValidFind(s, "enum");
    ValidFind(t, "enum");
    NoEnumDiffOf(Find(s.members, "enum"), Find(t.members, "enum"), path);
  }

  lemma NoEnumDiffOf(b: Option<Value>, c: Option<Value>, path: string)
    requires b.Some? && c.Some? ==> Valid(b.value) && Valid(c.value)
    requires Alike(b, c) && Equal(b, c) && OrderFreeEnum(b)
    ensures EnumKeywordDiff(b, c, path) == []
  {
    if b.Some? && b.value.Array? {
      assert Items(b) == b.value.items;
      OrderFreeArrays(b.value.items, c.value.items);
      NoItemDiff(b.value.items, path);
    }
  }

  lemma NoItemDiff(xs: seq<Value>, path: string)
    ensures EnumDiff(xs, xs, path) == []
  {
    var texts := Distinct(Texts(xs));
    NothingAbsent(texts, texts, Breaking, path, "Enum value removed: ");
    NothingAbsent(texts, texts, ManualReview, path, "Closed enum value added: ");
  }

  lemma OrderFreeArrays(xs: seq<Value>, ys: seq<Value>)
    requires Valid(Array(xs)) && Valid(Array(ys)) && Same(Array(xs), Array(ys))
    requires forall i | 0 <= i < |xs| :: OrderFree(xs[i])
    ensures xs == ys
  {
    forall i | 0 <= i < |xs| ensures xs[i] == ys[i] { OrderFreeSame(xs[i], ys[i]); }
  }

  lemma NoRequiredDiff(s: Value, t: Value, path: string)
    requires Valid(s) && Valid(t) && s.Object? && Same(s, t) && ScalarNames(Find(s.members, "required"))
    ensures RequiredDiff(Find(s.members, "required"), Find(t.members, "required"), path) == []
  {
    FindSame(s, t, "required");
    EqualExactlyAlike(s, t, "required");
    ValidFind(s, "required");
    ValidFind(t, "required");
    NoRequiredDiffOf(Find(s.members, "required"), Find(t.members, "required"), path);
  }

  lemma NoRequiredDiffOf(b: Option<Value>, c: Option<Value>, path: string)
    requires b.Some? && c.Some? ==> Valid(b.value) && Valid(c.value)
    requires Alike(b, c) && Equal(b, c) && ScalarNames(b)
    ensures RequiredDiff(b, c, path) == []
  {
    if b.Some? && b.value.Array? {
      forall i | 0 <= i < |b.value.items| ensures OrderFree(b.value.items[i]) {
        assert !Items(b)[i].Array? && !Items(b)[i].Object?;
      }
      OrderFreeArrays(b.value.items, c.value.items);
      NoNameDiff(b.value.items, path);
    }
  }

  lemma NoNameDiff(xs: seq<Value>, path: string)
    requires ScalarNames(Some(Array(xs)))
    ensures RequiredDiff(Some(Array(xs)), Some(Array(xs)), path) == []
  {
    var names := Distinct(xs);
    forall x | x in names ensures SetHas(names, x) {
      var i :| 0 <= i < |xs| && xs[i] == x;
      assert Items(Some(Array(xs)))[i] == x;
    }
    NoNameAbsent(names, names, Breaking, path, "Required property added: ");
    NoNameAbsent(names, names, ManualReview, path, "Required property removed: ");
  }

  lemma NoFlatDiff(s: Value, t: Value, path: string)
    requires Valid(s) && Valid(t) && s.Object? && Same(s, t)
    requires OrderFreeEnum(Find(s.members, "enum")) && ScalarNames(Find(s.members, "required"))
    ensures FlatDiff(s.members, t.members, path) == []
  {
    NoEnumDiff(s, t, path + ".enum");
    NoRequiredDiff(s, t, path + ".required");
    FindSame(s, t, "additionalProperties");
    EqualExactlyAlike(s, t, "additionalProperties");
    FindSame(s, t, "properties");
    NoneRemoved(Members(Find(s.members, "properties")), Members(Find(t.members, "properties")), path);
  }

  lemma {:induction false} FlattenNothing(lists: seq<seq<Change>>)
    requires forall i | 0 <= i < |lists| :: lists[i] == []
    ensures Flatten(lists) == []
  {
    if lists == [] {
    } else {
      FlattenNothing(lists[..|lists| - 1]);
    }
  }

  /** Comparing a stable schema with a reordered copy of itself records nothing. */
  lemma {:induction false} ReorderingHidden(s: Value, t: Value, path: string)
    requires Valid(s) && Valid(t) && Same(s, t) && OrderStable(s)
    ensures SchemaDiff(Some(s), Some(t), path) == []
    decreases s
  {
    if s.Object? {
      forall k | 0 <= k < |PropertyDiffs(s.members, t, path)| ensures PropertyDiffs(s.members, t, path)[k] == [] {
        ReorderedProperty(s, t, path, k);
      }
      FlattenNothing(PropertyDiffs(s.members, t, path));
      FindSame(s, t, "items");
      if Find(s.members, "items").Some? {
        ValidFind(s, "items");
        ValidFind(t, "items");
        ReorderingHidden(Get(s.members, "items"), Get(t.members, "items"), path + ".items");
      }
      NoObjectDiff(s, t, path);
    } else {
      EqualExactlySame(s, t);
    }
  }

  lemma NoObjectDiff(s: Value, t: Value, path: string)
    requires Valid(s) && Valid(t) && Same(s, t) && OrderStable(s) && s.Object?
    requires Flatten(PropertyDiffs(s.members, t, path)) == []
    requires ItemsDiff(Find(s.members, "items"), Find(t.members, "items"), path) == []
    ensures ObjectDiff(s.members, t, path) == []
  {
    NoKeyDiffs(Identity, s, t, path, IDENTITY_KEYS);
    NoKeyDiffs(Composition, s, t, path, COMPOSITION_KEYS);
    NoKeyDiffs(Constraint, s, t, path, AllKeys(s.members, t.members));
    FindSame(s, t, "type");
    EqualExactlyAlike(s, t, "type");
    NoFlatDiff(s, t, path);
  }

  lemma {:induction false} ReorderedProperty(s: Value, t: Value, path: string, k: nat)
    requires Valid(s) && Valid(t) && Same(s, t) && OrderStable(s) && s.Object?
    requires k < |Members(Find(t.members, "properties"))|
    ensures PropertyDiff(s.members, t, k, path) == []
    decreases s, 0
  {
    FindSame(s, t, "properties");
    ValidFind(s, "properties");
    ValidFind(t, "properties");
    var ps, qs := Members(Find(s.members, "properties")), Members(Find(t.members, "properties"));
    assert qs[k].key in Keys(qs);
    var i :| 0 <= i < |ps| && ps[i].key == qs[k].key;
    GetAt(ps, i);
    GetAt(qs, k);
    ReorderingHidden(ps[i].value, qs[k].value, path + ".properties." + qs[k].key);
  }

  // ---- Necessary: an unstable schema has a copy that is reported --------------------------

  /** Three copies of a value: as it is, and with every object sorted upwards or downwards. */
  datatype Mode = AsIs | Ascending | Descending

  function Reversed<T>(xs: seq<T>): seq<T> {
    seq(|xs|, i requires 0 <= i < |xs| => xs[|xs| - 1 - i])
  }

  function Arrange(mode: Mode, ms: seq<Member>): seq<Member> {
    match mode
    case AsIs => ms
    case Ascending => Sort(KeyLeq, ms)
    case Descending => Reversed(Sort(KeyLeq, ms))
  }

  function CopyMembers(mode: Mode, ms: seq<Member>): seq<Member> {
    seq(|ms|, i requires 0 <= i < |ms| => Member(ms[i].key, Copy(mode, ms[i].value)))
  }

  function CopyItems(mode: Mode, items: seq<Value>): seq<Value> {
    seq(|items|, i requires 0 <= i < |items| => Copy(mode, items[i]))
  }

  function Copy(mode: Mode, v: Value): Value {
    match v
    case Array(items) => Array(CopyItems(mode, items))
    case Object(ms) => Object(Arrange(mode, CopyMembers(mode, ms)))
    case _ => v
  }

  lemma ArrangePermutes(mode: Mode, ms: seq<Member>)
    ensures |Arrange(mode, ms)| == |ms|
    ensures forall m :: m in Arrange(mode, ms) <==> m in ms
    ensures DistinctKeys(ms) ==> DistinctKeys(Arrange(mode, ms))
  {
    SortPermutes(KeyLeq, ms);
    var sorted := Sort(KeyLeq, ms);
    if mode == Descending {
      var r := Reversed(sorted);
      forall i | 0 <= i < |sorted| ensures sorted[i] in r {
        assert r[|sorted| - 1 - i] == sorted[i];
      }
    }
    if DistinctKeys(ms) {
      SortedKeysDistinct(ms);
    }
  }

  lemma ArrangedMember(mode: Mode, ms: seq<Member>, i: nat) returns (k: nat)
    requires i < |ms|
    ensures k < |Arrange(mode, CopyMembers(mode, ms))|
    ensures Arrange(mode, CopyMembers(mode, ms))[k] == Member(ms[i].key, Copy(mode, ms[i].value))
  {
    ArrangePermutes(mode, CopyMembers(mode, ms));
    assert CopyMembers(mode, ms)[i] in Arrange(mode, CopyMembers(mode, ms));
    k :| 0 <= k < |Arrange(mode, CopyMembers(mode, ms))|
         && Arrange(mode, CopyMembers(mode, ms))[k] == CopyMembers(mode, ms)[i];
  }

  lemma OriginalMember(mode: Mode, ms: seq<Member>, k: nat) returns (i: nat)
    requires k < |Arrange(mode, CopyMembers(mode, ms))|
    ensures i < |ms| && Arrange(mode, CopyMembers(mode, ms))[k] == Member(ms[i].key, Copy(mode, ms[i].value))
  {
    ArrangePermutes(mode, CopyMembers(mode, ms));
    assert Arrange(mode, CopyMembers(mode, ms))[k] in CopyMembers(mode, ms);
    i :| 0 <= i < |ms| && CopyMembers(mode, ms)[i] == Arrange(mode, CopyMembers(mode, ms))[k];
  }

  /** A copy is valid and differs in member order only. */
  lemma {:induction false} CopyIsSame(mode: Mode, v: Value)
    requires Valid(v)
    ensures Valid(Copy(mode, v)) && Same(v, Copy(mode, v))
  {
    match v
    case Array(items) =>
      forall i | 0 <= i < |items|
        ensures Valid(Copy(mode, items[i])) && Same(items[i], Copy(mode, items[i]))
      {
        CopyIsSame(mode, items[i]);
      }
    case Object(ms) =>
      var cs := Arrange(mode, CopyMembers(mode, ms));
      ArrangePermutes(mode, CopyMembers(mode, ms));
      forall k | 0 <= k < |cs| ensures Valid(cs[k].value) && cs[k].key in Keys(ms) {
        var i := OriginalMember(mode, ms, k);
        CopyIsSame(mode, ms[i].value);
      }
      forall i | 0 <= i < |ms| ensures ms[i].key in Keys(cs) && Same(ms[i].value, Get(cs, ms[i].key)) {
        var k := ArrangedMember(mode, ms, i);
        GetAt(cs, k);
        CopyIsSame(mode, ms[i].value);
      }
    case _ =>
  }

  lemma CopyFind(mode: Mode, v: Value, key: string)
    requires Valid(v) && v.Object?
    ensures Find(Copy(mode, v).members, key) ==
            if key in Keys(v.members) then Some(Copy(mode, Get(v.members, key))) else None
  {
    var ms, cs := v.members, Copy(mode, v).members;
    CopyIsSame(mode, v);
    if key in Keys(ms) {
      var i :| 0 <= i < |ms| && ms[i] == Member(key, Get(ms, key));
      var k := ArrangedMember(mode, ms, i);
      GetAt(cs, k);
    }
  }

  /** An ascending copy that is also a descending one has nothing to order. */
  lemma {:induction false} BothWays(a: Value, b: Value)
    requires Valid(a) && Valid(b) && Copy(Ascending, a) == Copy(Descending, b)
    ensures OrderFree(a)
    decreases a
  {
    match a
    case Array(xs) =>
      forall i | 0 <= i < |xs| ensures OrderFree(xs[i]) {
        assert Copy(Ascending, a).items[i] == Copy(Descending, b).items[i];
        BothWays(xs[i], b.items[i]);
      }
    case Object(ms) =>
      var up, down := CopyMembers(Ascending, ms), CopyMembers(Descending, b.members);
      BothSorted(up, down);
      SortPermutes(KeyLeq, up);
      if ms != [] {
        var i := OriginalMember(Descending, b.members, 0);
        var j := OriginalMember(Ascending, ms, 0);
        BothWays(ms[j].value, b.members[i].value);
      }
    case _ =>
  }

  lemma BothSorted(up: seq<Member>, down: seq<Member>)
    requires DistinctKeys(up) && Sort(KeyLeq, up) == Reversed(Sort(KeyLeq, down))
    ensures |up| <= 1
  {
    KeyLeqPreorder();
    SortSorted(KeyLeq, up);
    SortSorted(KeyLeq, down);
    SortPermutes(KeyLeq, up);
    SortedKeysDistinct(up);
    var xs, ys := Sort(KeyLeq, up), Sort(KeyLeq, down);
    if |xs| >= 2 {
      assert KeyLeq(xs[0], xs[1]);
      assert xs[0] == ys[|ys| - 1] && xs[1] == ys[|ys| - 2];
      StrLeqTotal(xs[0].key, xs[1].key);
    }
  }

  /** An enumeration with an order-sensitive member changes its texts in one of the copies. */
  lemma UnstableEnum(xs: seq<Value>, path: string) returns (mode: Mode)
    requires Valid(Array(xs)) && exists i :: 0 <= i < |xs| && !OrderFree(xs[i])
    ensures EnumDiff(xs, CopyItems(mode, xs), path) != []
  {
    mode := if EnumDiff(xs, CopyItems(Ascending, xs), path) != [] then Ascending else Descending;
    if EnumDiff(xs, CopyItems(mode, xs), path) == [] {
      var i :| 0 <= i < |xs| && !OrderFree(xs[i]);
      SilentTexts(xs, CopyItems(Ascending, xs), path);
      SilentTexts(xs, CopyItems(Descending, xs), path);
      assert Texts(CopyItems(Ascending, xs))[i] in Texts(CopyItems(Descending, xs));
      var j :| 0 <= j < |xs| && Texts(CopyItems(Descending, xs))[j] == Texts(CopyItems(Ascending, xs))[i];
      CopyIsSame(Ascending, xs[i]);
      CopyIsSame(Descending, xs[j]);
      StringifyInjective(Copy(Ascending, xs[i]), Copy(Descending, xs[j]));
      BothWays(xs[i], xs[j]);
    }
  }

  lemma SilentTexts(xs: seq<Value>, ys: seq<Value>, path: string)
    requires EnumDiff(xs, ys, path) == []
    ensures forall t :: t in Texts(xs) <==> t in Texts(ys)
  {
    var b, c := Distinct(Texts(xs)), Distinct(Texts(ys));
    SilentAbsent(b, c, Breaking, path, "Enum value removed: ");
    SilentAbsent(c, b, ManualReview, path, "Closed enum value added: ");
  }

  lemma {:induction false} CompositeAlwaysAbsent(names: seq<Value>, other: seq<Value>, x: Value,
                                                 verdict: Verdict, path: string, intro: string)
    requires x in names && (x.Array? || x.Object?)
    ensures RequiredAbsent(names, other, verdict, path, intro) != []
  {
    var n := |names| - 1;
    if names[n] != x {
      assert names == names[..n] + [names[n]];
      CompositeAlwaysAbsent(names[..n], other, x, verdict, path, intro);
    }
  }

  lemma UnstableRequired(xs: seq<Value>, path: string)
    requires !ScalarNames(Some(Array(xs)))
    ensures RequiredDiff(Some(Array(xs)), Some(Array(xs)), path) != []
  {
    var i :| 0 <= i < |xs| && (xs[i].Array? || xs[i].Object?);
    CompositeAlwaysAbsent(Distinct(xs), Distinct(xs), xs[i], Breaking, path, "Required property added: ");
  }

  /** Every schema that is not stable differs, for the checker, from one of its own copies. */
  lemma {:induction false} UnstableReported(s: Value, path: string) returns (mode: Mode)
    requires Valid(s) && !OrderStable(s)
    ensures SchemaDiff(Some(s), Some(Copy(mode, s)), path) != []
    decreases s
  {
    hide SchemaDiff, ObjectDiff, Copy;
    var ps := Members(Find(s.members, "properties"));
    ValidFind(s, "enum");
    ValidFind(s, "required");
    ValidFind(s, "properties");
    ValidFind(s, "items");
    if !OrderFreeEnum(Find(s.members, "enum")) {
      mode := UnstableEnum(Get(s.members, "enum").items, path + ".enum");
      EnumPartReported(s, mode, path);
    } else if !ScalarNames(Find(s.members, "required")) {
      mode := AsIs;
      CopyAsIs(s);
      UnstableRequired(Get(s.members, "required").items, path + ".required");
      FlatPartReported(s, s, path);
    } else if i :| 0 <= i < |ps| && !OrderStable(ps[i].value) {
      mode := UnstableReported(ps[i].value, path + ".properties." + ps[i].key);
      PropertyPartReported(s, mode, i, path);
    } else {
      mode := UnstableReported(Get(s.members, "items"), path + ".items");
      ItemsPartReported(s, mode, path);
    }
    ReportedWhole(s, mode, path);
  }

  lemma ReportedWhole(s: Value, mode: Mode, path: string)
    requires s.Object? && ObjectDiff(s.members, Copy(mode, s), path) != []
    ensures SchemaDiff(Some(s), Some(Copy(mode, s)), path) != []
  {
  }

  lemma {:induction false} CopyAsIs(v: Value)
    ensures Copy(AsIs, v) == v
  {
    match v
    case Array(items) =>
      forall i | 0 <= i < |items| ensures Copy(AsIs, items[i]) == items[i] { CopyAsIs(items[i]); }
      assert CopyItems(AsIs, items) == items;
    case Object(ms) =>
      forall i | 0 <= i < |ms| ensures CopyMembers(AsIs, ms)[i] == ms[i] { CopyAsIs(ms[i].value); }
      assert CopyMembers(AsIs, ms) == ms;
    case _ =>
  }

  lemma FlatPartReported(s: Value, t: Value, path: string)
    requires s.Object? && t.Object? && FlatDiff(s.members, t.members, path) != []
    ensures ObjectDiff(s.members, t, path) != []
  {
    if ObjectDiff(s.members, t, path) == [] {
      ObjectDiffParts(s.members, t, path);
      WithinEmpty(FlatDiff(s.members, t.members, path), ObjectDiff(s.members, t, path));
    }
  }

  lemma EnumPartReported(s: Value, mode: Mode, path: string)
    requires Valid(s) && s.Object? && Find(s.members, "enum").Some? && Get(s.members, "enum").Array?
    requires EnumDiff(Get(s.members, "enum").items, CopyItems(mode, Get(s.members, "enum").items), path + ".enum") != []
    ensures ObjectDiff(s.members, Copy(mode, s), path) != []
  {
    CopyFind(mode, s, "enum");
    FlatPartReported(s, Copy(mode, s), path);
  }

  lemma PropertyPartReported(s: Value, mode: Mode, i: nat, path: string)
    requires Valid(s) && s.Object? && i < |Members(Find(s.members, "properties"))|
    requires var p := Members(Find(s.members, "properties"))[i];
      SchemaDiff(Some(p.value), Some(Copy(mode, p.value)), path + ".properties." + p.key) != []
    ensures ObjectDiff(s.members, Copy(mode, s), path) != []
  {
    var t := Copy(mode, s);
    var ps := Members(Find(s.members, "properties"));
    CopyFind(mode, s, "properties");
    ValidFind(s, "properties");
    if ObjectDiff(s.members, t, path) == [] {
      var k := ArrangedMember(mode, ps, i);
      GetAt(ps, i);
      SubschemaWithin(s, t, path, k);
      WithinEmpty(SchemaDiff(Some(ps[i].value), Some(Copy(mode, ps[i].value)), path + ".properties." + ps[i].key),
                  ObjectDiff(s.members, t, path));
    }
  }

  lemma ItemsPartReported(s: Value, mode: Mode, path: string)
    requires Valid(s) && s.Object? && Find(s.members, "items").Some?
    requires SchemaDiff(Find(s.members, "items"), Some(Copy(mode, Get(s.members, "items"))), path + ".items") != []
    ensures ObjectDiff(s.members, Copy(mode, s), path) != []
  {
    CopyFind(mode, s, "items");
    CopyIsSame(mode, s);
    if ObjectDiff(s.members, Copy(mode, s), path) == [] {
      QuietItems(s, Copy(mode, s), path);
      WithinEmpty(SchemaDiff(Find(s.members, "items"), Find(Copy(mode, s).members, "items"), path + ".items"),
                  ObjectDiff(s.members, Copy(mode, s), path));
    }
  }

  /**
   The checker records nothing for any reordered copy of a schema exactly when the schema
   is stable. The condition looks at the baseline only.
   */
  lemma ReorderingHiddenExactly(s: Value, path: string)
    requires Valid(s)
    ensures (forall t | Valid(t) && Same(s, t) :: SchemaDiff(Some(s), Some(t), path) == []) <==> OrderStable(s)
  {
    if OrderStable(s) {
      forall t | Valid(t) && Same(s, t) ensures SchemaDiff(Some(s), Some(t), path) == [] {
        ReorderingHidden(s, t, path);
      }
    } else {
      var mode := UnstableReported(s, path);
      CopyIsSame(mode, s);
    }
  }
}
