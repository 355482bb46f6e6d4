/**
 JSON values as the tools see them after `JSON.parse`: objects are ordered member lists
 with distinct names, numbers are opaque tokens. `Equal` is the tools' own comparison,
 through canonical text; `Same` says independently what it is for.
 */
module Json {
  import opened Wrappers
  import opened Ordering

  datatype Member = Member(key: string, value: Value)

  datatype Value =
    | Null
    | Bool(b: bool)
    | Number(token: string)
    | String(s: string)
    | Array(items: seq<Value>)
    | Object(members: seq<Member>)

  /** What `JSON.parse` can return: distinct member names, number tokens of number characters. */
  ghost predicate Valid(v: Value) {
    match v
    case Number(token) => token != [] && forall i | 0 <= i < |token| :: NumberChar(token[i])
    case Array(items) => forall i | 0 <= i < |items| :: Valid(items[i])
    case Object(ms) => DistinctKeys(ms) && forall i | 0 <= i < |ms| :: Valid(ms[i].value)
    case _ => true
  }

  predicate NumberChar(c: char) {
    '0' <= c <= '9' || c in "+-.eE"
  }

  ghost predicate DistinctKeys(ms: seq<Member>) {
    forall i, j | 0 <= i < j < |ms| :: ms[i].key != ms[j].key
  }

  function Keys(ms: seq<Member>): set<string> {
    set i | 0 <= i < |ms| :: ms[i].key
  }

  /** `object[key]`, for a key that is there. */
  function Get(ms: seq<Member>, key: string): (v: Value)
    requires key in Keys(ms)
    ensures exists i :: 0 <= i < |ms| && ms[i] == Member(key, v)
    decreases |ms|
  {
    if ms[0].key == key then
      assert ms[0] == Member(key, ms[0].value);
      ms[0].value
    else
      var v := Get(ms[1..], key);
      var i :| 0 <= i < |ms[1..]| && ms[1..][i] == Member(key, v);
      assert ms[i + 1] == Member(key, v);
      v
  }

  /** `object[key]`, where a missing key reads as undefined. */
  function Find(ms: seq<Member>, key: string): Option<Value> {
    if key in Keys(ms) then Some(Get(ms, key)) else None
  }

  lemma GetAt(ms: seq<Member>, i: nat)
    requires i < |ms| && DistinctKeys(ms)
    ensures ms[i].key in Keys(ms) && Get(ms, ms[i].key) == ms[i].value
  {
  }

  /** Two values that differ at most in the order of object members, at any depth. */
  ghost predicate Same(a: Value, b: Value)
    decreases a
  {
    match a
    case Array(xs) =>
      b.Array? && |xs| == |b.items| && forall i | 0 <= i < |xs| :: Same(xs[i], b.items[i])
    case Object(ms) =>
      && b.Object?
      && Keys(ms) == Keys(b.members)
      && forall i | 0 <= i < |ms| :: Same(ms[i].value, Get(b.members, ms[i].key))
    case _ => a == b
  }

  // ---- Canonical form -------------------------------------------------------

  predicate KeyLeq(a: Member, b: Member) {
    StrLeq(a.key, b.key)
  }

  lemma KeyLeqPreorder()
    ensures TotalPreorder(KeyLeq)
  {
    forall a: Member, b: Member ensures KeyLeq(a, b) || KeyLeq(b, a) {
      StrLeqTotal(a.key, b.key);
    }
    forall a: Member, b: Member, c: Member | KeyLeq(a, b) && KeyLeq(b, c) ensures KeyLeq(a, c) {
      StrLeqTransitive(a.key, b.key, c.key);
    }
  }

  lemma KeyLeqAntisymmetric(ms: seq<Member>)
    requires DistinctKeys(ms)
    ensures Antisymmetric(KeyLeq, ms)
  {
    forall a, b | a in ms && b in ms && KeyLeq(a, b) && KeyLeq(b, a) ensures a == b {
      StrLeqTotal(a.key, b.key);
    }
  }

  function CanonicalMembers(ms: seq<Member>): seq<Member> {
    seq(|ms|, i requires 0 <= i < |ms| => Member(ms[i].key, Canonicalize(ms[i].value)))
  }

  function Canonicalize(v: Value): Value {
    match v
    case Array(items) => Array(seq(|items|, i requires 0 <= i < |items| => Canonicalize(items[i])))
    case Object(ms) => Object(Sort(KeyLeq, CanonicalMembers(ms)))
    case _ => v
  }

  lemma {:induction false} CanonicalValid(v: Value)
    requires Valid(v)
    ensures Valid(Canonicalize(v))
  {
    match v
    case Array(items) =>
      forall i | 0 <= i < |items| ensures Valid(Canonicalize(items[i])) { CanonicalValid(items[i]); }
    case Object(ms) =>
      var cs := CanonicalMembers(ms);
      var sorted := Sort(KeyLeq, cs);
      SortPermutes(KeyLeq, cs);
      forall i | 0 <= i < |sorted| ensures Valid(sorted[i].value) {
        assert sorted[i] in cs;
        var j :| 0 <= j < |cs| && cs[j] == sorted[i];
        CanonicalValid(ms[j].value);
      }
      SortedKeysDistinct(cs);
    case _ =>
  }

  lemma SortedKeysDistinct(ms: seq<Member>)
    requires DistinctKeys(ms)
    ensures DistinctKeys(Sort(KeyLeq, ms))
  {
    SortPermutes(KeyLeq, ms);
    NoDuplicatesPermuted(ms, Sort(KeyLeq, ms));
    forall i, j | 0 <= i < j < |Sort(KeyLeq, ms)|
      ensures Sort(KeyLeq, ms)[i].key != Sort(KeyLeq, ms)[j].key
    {
      var x, y := Sort(KeyLeq, ms)[i], Sort(KeyLeq, ms)[j];
      assert x in ms && y in ms && x != y;
    }
  }

  /** The members of every object, at any depth, stand in the order of their keys. */
  ghost predicate KeysSorted(v: Value) {
    match v
    case Array(items) => forall i | 0 <= i < |items| :: KeysSorted(items[i])
    case Object(ms) =>
      && (forall i, j | 0 <= i < j < |ms| :: StrLeq(ms[i].key, ms[j].key))
      && forall i | 0 <= i < |ms| :: KeysSorted(ms[i].value)
    case _ => true
  }

  lemma {:induction false} CanonicalIsSorted(v: Value)
    ensures KeysSorted(Canonicalize(v))
  {
    match v
    case Array(items) =>
      forall i | 0 <= i < |items| ensures KeysSorted(Canonicalize(items[i])) { CanonicalIsSorted(items[i]); }
    case Object(ms) =>
      var cs := CanonicalMembers(ms);
      var sorted := Sort(KeyLeq, cs);
      SortPermutes(KeyLeq, cs);
      KeyLeqPreorder();
      SortSorted(KeyLeq, cs);
      forall i, j | 0 <= i < j < |sorted| ensures StrLeq(sorted[i].key, sorted[j].key) {
        assert KeyLeq(sorted[i], sorted[j]);
      }
      forall i | 0 <= i < |sorted| ensures KeysSorted(sorted[i].value) {
        assert sorted[i] in cs;
        var j :| 0 <= j < |cs| && cs[j] == sorted[i];
        CanonicalIsSorted(ms[j].value);
      }
    case _ =>
  }

  /** Canonicalizing is idempotent. */
  lemma {:induction false} CanonicalizeIdempotent(v: Value)
    requires Valid(v)
    ensures Canonicalize(Canonicalize(v)) == Canonicalize(v)
  {
    match v
    case Array(items) =>
      forall i | 0 <= i < |items| ensures Canonicalize(Canonicalize(items[i])) == Canonicalize(items[i]) {
        CanonicalizeIdempotent(items[i]);
      }
    case Object(ms) =>
      var cs := CanonicalMembers(ms);
      var sorted := Sort(KeyLeq, cs);
      SortPermutes(KeyLeq, cs);
      forall i | 0 <= i < |sorted| ensures CanonicalMembers(sorted)[i] == sorted[i] {
        assert sorted[i] in cs;
        var j :| 0 <= j < |cs| && cs[j] == sorted[i];
        CanonicalizeIdempotent(ms[j].value);
      }
      assert CanonicalMembers(sorted) == sorted;
      KeyLeqPreorder();
      KeyLeqAntisymmetric(cs);
      SortUnique(KeyLeq, cs, sorted);
    case _ =>
  }

  /** Canonical forms coincide exactly for values that differ only in member order. */
  lemma {:induction false} CanonicalExactlySame(a: Value, b: Value)
    requires Valid(a) && Valid(b)
    ensures Canonicalize(a) == Canonicalize(b) <==> Same(a, b)
    decreases a
  {
    match a
    case Array(xs) =>
      if b.Array? && |xs| == |b.items| {
        var ys := b.items;
        forall i | 0 <= i < |xs| ensures Canonicalize(xs[i]) == Canonicalize(ys[i]) <==> Same(xs[i], ys[i]) {
          CanonicalExactlySame(xs[i], ys[i]);
        }
        if Canonicalize(a) == Canonicalize(b) {
          forall i | 0 <= i < |xs| ensures Same(xs[i], ys[i]) {
            assert Canonicalize(a).items[i] == Canonicalize(b).items[i];
          }
        }
      } else if b.Array? {
        assert |Canonicalize(a).items| == |xs| != |b.items| == |Canonicalize(b).items|;
      }
    case Object(ms) =>
      if b.Object? {
        if Canonicalize(a) == Canonicalize(b) {
          CanonicalObjectsSame(a, b);
        }
        if Same(a, b) {
          SameObjectsCanonical(a, b);
        }
      }
    case _ =>
  }

  /** Equal canonical objects pair their members by name. */
  lemma CanonicalCounterpart(ms: seq<Member>, ns: seq<Member>, i: nat) returns (j: nat)
    requires i < |ms|
    requires Sort(KeyLeq, CanonicalMembers(ms)) == Sort(KeyLeq, CanonicalMembers(ns))
    ensures j < |ns| && ns[j].key == ms[i].key && Canonicalize(ns[j].value) == Canonicalize(ms[i].value)
  {
    SortPermutes(KeyLeq, CanonicalMembers(ms));
    SortPermutes(KeyLeq, CanonicalMembers(ns));
    assert CanonicalMembers(ms)[i] in CanonicalMembers(ns);
    j :| 0 <= j < |ns| && CanonicalMembers(ns)[j] == CanonicalMembers(ms)[i];
  }

  lemma {:induction false} CanonicalObjectsSame(a: Value, b: Value)
    requires Valid(a) && Valid(b) && a.Object? && b.Object?
    requires Canonicalize(a) == Canonicalize(b)
    ensures Same(a, b)
    decreases a, 0
  {
    var ms, ns := a.members, b.members;
    forall i | 0 <= i < |ms|
      ensures ms[i].key in Keys(ns) && Same(ms[i].value, Get(ns, ms[i].key))
    {
      var j := CanonicalCounterpart(ms, ns, i);
      GetAt(ns, j);
      CanonicalExactlySame(ms[i].value, ns[j].value);
    }
    forall j | 0 <= j < |ns| ensures ns[j].key in Keys(ms) {
      var i := CanonicalCounterpart(ns, ms, j);
    }
  }

  lemma {:induction false} SameObjectsCanonical(a: Value, b: Value)
    requires Valid(a) && Valid(b) && a.Object? && b.Object?
    requires Same(a, b)
    ensures Canonicalize(a) == Canonicalize(b)
    decreases a, 0
  {
    var ms, ns := a.members, b.members;
    var cs, ds := CanonicalMembers(ms), CanonicalMembers(ns);
    forall i | 0 <= i < |ms| ensures cs[i] in ds {
      assert ms[i].key in Keys(ns);
      var j :| 0 <= j < |ns| && ns[j].key == ms[i].key;
      GetAt(ns, j);
      CanonicalExactlySame(ms[i].value, ns[j].value);
      assert ds[j] == cs[i];
    }
    forall j | 0 <= j < |ns| ensures ds[j] in cs {
      assert ns[j].key in Keys(ms);
      var i :| 0 <= i < |ms| && ms[i].key == ns[j].key;
      assert cs[i] in ds;
      var k :| 0 <= k < |ds| && ds[k] == cs[i];
      assert k == j;
    }
    SameElements(cs, ds);
    KeyLeqPreorder();
    KeyLeqAntisymmetric(cs);
    SortUnique(KeyLeq, cs, ds);
  }

  /** Only the order of members changes: a value and its canonical form are the same value. */
  lemma CanonicalIsSame(v: Value)
    requires Valid(v)
    ensures Same(v, Canonicalize(v))
  {
    CanonicalValid(v);
    CanonicalizeIdempotent(v);
    CanonicalExactlySame(v, Canonicalize(v));
  }

  lemma SameSymmetric(a: Value, b: Value)
    requires Valid(a) && Valid(b) && Same(a, b)
    ensures Same(b, a)
  {
    CanonicalExactlySame(a, b);
    CanonicalExactlySame(b, a);
  }

  lemma SameTransitive(a: Value, b: Value, c: Value)
    requires Valid(a) && Valid(b) && Valid(c) && Same(a, b) && Same(b, c)
    ensures Same(a, c)
  {
    CanonicalExactlySame(a, b);
    CanonicalExactlySame(b, c);
    CanonicalExactlySame(a, c);
  }

  lemma SameReflexive(a: Value)
    requires Valid(a)
    ensures Same(a, a)
  {
    CanonicalExactlySame(a, a);
  }
}
