/**
 The dead-code ratchet (tools/dead-code-gate.ts): findings are keys, repeats get an ordinal, and
 a check compares sets. Numbering is what makes comparing sets compare multisets.
 */
module Ratchet {
  import opened Decimals

  /** The `n`-th repeat of a key. */
  function Label(key: string, n: nat): string
    requires n >= 1
  {
    if n == 1 then key else key + "#" + Decimal(n)
  }

  function Count(keys: seq<string>, key: string): nat {
    multiset(keys)[key]
  }

  function Numbered(keys: seq<string>): seq<string> {
    if keys == [] then []
    else
      var front, key := keys[..|keys| - 1], keys[|keys| - 1];
      Numbered(front) + [Label(key, Count(front, key) + 1)]
  }

  lemma CountSnoc(keys: seq<string>, key: string, k: string)
    ensures Count(keys + [key], k) == Count(keys, k) + if k == key then 1 else 0
  {
  }

  /** A finding's label is its key, with `#n` behind it when it is the `n`-th of that key and not the first. */
  lemma {:induction false} NumberedAt(keys: seq<string>, i: nat)
    requires i < |keys|
    ensures |Numbered(keys)| == |keys|
    ensures var before := multiset(keys[..i])[keys[i]];
      Numbered(keys)[i] == if before == 0 then keys[i] else keys[i] + "#" + Decimal(before + 1)
    decreases |keys|
  {
    var front := keys[..|keys| - 1];
    if i < |front| {
      NumberedAt(front, i);
      assert front[..i] == keys[..i];
    } else if front != [] {
      NumberedAt(front, 0);
    }
  }

  lemma CountStep(keys: seq<string>, i: nat)
    requires i < |keys|
    ensures forall k :: Count(keys[..i + 1], k) == Count(keys[..i], k) + if k == keys[i] then 1 else 0
  {
    assert keys[..i + 1] == keys[..i] + [keys[i]];
  }

  method NumberKeys(keys: seq<string>) returns (labels: seq<string>)
    ensures labels == Numbered(keys)
  {
    var seen: map<string, nat> := map[];
    labels := [];
    for i := 0 to |keys|
      invariant labels == Numbered(keys[..i])
      invariant forall k :: k in seen <==> Count(keys[..i], k) > 0
      invariant forall k | k in seen :: seen[k] == Count(keys[..i], k)
    {
      var key := keys[i];
      var count := (if key in seen then seen[key] else 0) + 1;
      hide Numbered, Count;
      CountStep(keys, i);
      assert keys[..i + 1] == keys[..i] + [key];
      NumberedSnoc(keys[..i], key);
      seen := seen[key := count];
      labels := labels + [if count == 1 then key else key + "#" + Decimal(count)];
    }
    assert keys[..|keys|] == keys;
  }

  function Missing(keys: seq<string>, known: seq<string>): seq<string> {
    if keys == [] then []
    else (if keys[0] in known then [] else [keys[0]]) + Missing(keys[1..], known)
  }

  datatype Comparison = Comparison(added: seq<string>, stale: seq<string>)

  function CompareWithBaseline(current: seq<string>, baseline: seq<string>): Comparison {
    Comparison(Missing(current, baseline), Missing(baseline, current))
  }

  /** The exit code: new keys always fail, keys that are gone fail in continuous integration only. */
  function CheckRatchet(current: seq<string>, baseline: seq<string>, ci: bool): int {
    var c := CompareWithBaseline(current, baseline);
    if |c.added| > 0 then 1 else if |c.stale| > 0 && ci then 1 else 0
  }

  lemma {:induction false} NothingMissing(keys: seq<string>, known: seq<string>)
    ensures Missing(keys, known) == [] <==> forall k | k in keys :: k in known
  {
    if keys != [] {
      NothingMissing(keys[1..], known);
      assert keys == [keys[0]] + keys[1..];
    }
  }

  /** New keys are the current ones not in the baseline, stale keys the other way round, each list in its own order. */
  lemma MissingExactly(keys: seq<string>, known: seq<string>) returns (at: seq<nat>)
    ensures |at| == |Missing(keys, known)| && forall j, k | 0 <= j < k < |at| :: at[j] < at[k]
    ensures forall k | 0 <= k < |at| :: at[k] < |keys| && keys[at[k]] == Missing(keys, known)[k] && keys[at[k]] !in known
    ensures forall i | 0 <= i < |keys| && keys[i] !in known :: i in at
  {
    at := MissingFrom(keys, known, 0);
    assert keys[0..] == keys;
  }

  lemma {:induction false} MissingFrom(keys: seq<string>, known: seq<string>, i: nat) returns (at: seq<nat>)
    requires i <= |keys|
    ensures var r := Missing(keys[i..], known);
      && |at| == |r| && (forall j, k | 0 <= j < k < |at| :: at[j] < at[k])
      && (forall k | 0 <= k < |at| :: i <= at[k] < |keys| && keys[at[k]] == r[k] && keys[at[k]] !in known)
      && forall j | i <= j < |keys| && keys[j] !in known :: j in at
    decreases |keys| - i
  {
    at := [];
    if i < |keys| {
      var rest := MissingFrom(keys, known, i + 1);
      assert keys[i..][0] == keys[i] && keys[i..][1..] == keys[i + 1..];
      at := if keys[i] in known then rest else [i] + rest;
    }
  }

  /** The exit code fails on a new key always, and on a stale one in continuous integration. */
  lemma CheckRatchetExactly(current: seq<string>, baseline: seq<string>, ci: bool)
    ensures CheckRatchet(current, baseline, ci) ==
            if (forall k | k in current :: k in baseline) && (ci ==> forall k | k in baseline :: k in current) then 0 else 1
  {
    NothingMissing(current, baseline);
    NothingMissing(baseline, current);
  }

  // ---- Labels ----------------------------------------------------------------------------

  /** No key is another key with an ordinal. */
  ghost predicate PlainKeys(keys: set<string>) {
    forall a, b, n: nat | a in keys && b in keys && n >= 2 :: a != Label(b, n)
  }

  /** A label's last number sign ends the key. */
  lemma {:induction false} SameTail(a: string, x: string, b: string, y: string)
    requires '#' !in x && '#' !in y && a + "#" + x == b + "#" + y
    ensures a == b && x == y
  {
    var s := a + "#" + x;
    assert s[|a|] == '#' && s[|b|] == '#';
    var k := if |a| < |b| then |b| else |a|;
    assert s[k] == ("#" + x)[k - |a|] && s[k] == ("#" + y)[k - |b|];
    assert a == s[..|a|] && b == s[..|b|];
    assert x == s[|a| + 1..] && y == s[|b| + 1..];
  }

  lemma LabelsDiffer(keys: set<string>, a: string, i: nat, b: string, j: nat)
    requires PlainKeys(keys) && a in keys && b in keys && i >= 1 && j >= 1 && Label(a, i) == Label(b, j)
    ensures a == b && i == j
  {
    if i >= 2 && j >= 2 {
      SameTail(a, Decimal(i), b, Decimal(j));
      DecimalInjective(i, j);
    }
  }

  ghost predicate LabelOf(keys: seq<string>, text: string, key: string, i: nat) {
    1 <= i <= Count(keys, key) && text == Label(key, i)
  }

  lemma {:induction false} LabelsOf(keys: seq<string>, text: string)
    ensures text in Numbered(keys) <==> exists key, i :: LabelOf(keys, text, key, i)
  {
    if keys == [] {
    } else {
      var front, last := keys[..|keys| - 1], keys[|keys| - 1];
      assert keys == front + [last];
      LabelsOf(front, text);
      CountSnoc(front, last, last);
      if text in Numbered(front) {
        var key, i :| LabelOf(front, text, key, i);
        CountSnoc(front, last, key);
        assert LabelOf(keys, text, key, i);
      }
      if text == Label(last, Count(front, last) + 1) {
        assert LabelOf(keys, text, last, Count(front, last) + 1);
      }
      if key, i :| LabelOf(keys, text, key, i) {
        CountSnoc(front, last, key);
        assert LabelOf(front, text, key, i) || (key == last && i == Count(front, last) + 1);
      }
    }
  }

  // ---- What the check decides ---------------------------------------------------------------

  ghost predicate From(keys: seq<string>, universe: set<string>) {
    forall k | k in keys :: k in universe
  }

  /** All labels are known exactly when every key is known as often. */
  lemma LabelsKnownExactly(universe: set<string>, xs: seq<string>, ys: seq<string>)
    requires PlainKeys(universe) && From(xs, universe) && From(ys, universe)
    ensures (forall l | l in Numbered(xs) :: l in Numbered(ys)) <==> multiset(xs) <= multiset(ys)
  {
    if multiset(xs) <= multiset(ys) {
      forall l | l in Numbered(xs) ensures l in Numbered(ys) {
        LabelsOf(xs, l);
        LabelsOf(ys, l);
        var key, i :| LabelOf(xs, l, key, i);
        assert LabelOf(ys, l, key, i);
      }
    }
    if forall l | l in Numbered(xs) :: l in Numbered(ys) {
      forall key ensures multiset(xs)[key] <= multiset(ys)[key] {
        var n := Count(xs, key);
        if n > 0 { AsOftenKnown(universe, xs, ys, key, n); }
      }
    }
  }

  lemma AsOftenKnown(universe: set<string>, xs: seq<string>, ys: seq<string>, key: string, n: nat)
    requires PlainKeys(universe) && From(xs, universe) && From(ys, universe)
    requires forall l | l in Numbered(xs) :: l in Numbered(ys)
    requires 1 <= n <= Count(xs, key)
    ensures n <= Count(ys, key)
  {
    var l := Label(key, n);
    assert LabelOf(xs, l, key, n);
    LabelsOf(xs, l);
    LabelsOf(ys, l);
    var other, i :| LabelOf(ys, l, other, i);
    assert key in multiset(xs) && other in multiset(ys);
    LabelsDiffer(universe, key, n, other, i);
  }

  /**
   The ratchet counts repeats: nothing is new exactly when no finding occurs more often than in
   the baseline, and the strict check passes exactly when every finding occurs as often.
   */
  lemma RatchetCountsRepeats(universe: set<string>, xs: seq<string>, ys: seq<string>, current: seq<string>,
                             baseline: seq<string>)
    requires PlainKeys(universe) && From(xs, universe) && From(ys, universe)
    requires multiset(current) == multiset(Numbered(xs)) && multiset(baseline) == multiset(Numbered(ys))
    ensures CompareWithBaseline(current, baseline).added == [] <==> multiset(xs) <= multiset(ys)
    ensures CheckRatchet(current, baseline, false) == 0 <==> multiset(xs) <= multiset(ys)
    ensures CheckRatchet(current, baseline, true) == 0 <==> multiset(xs) == multiset(ys)
  {
    NothingMissing(current, baseline);
    NothingMissing(baseline, current);
    LabelsKnownExactly(universe, xs, ys);
    LabelsKnownExactly(universe, ys, xs);
    SameMembers(current, Numbered(xs));
    SameMembers(baseline, Numbered(ys));
  }

  lemma SameMembers(a: seq<string>, b: seq<string>)
    requires multiset(a) == multiset(b)
    ensures forall x :: x in a <==> x in b
  {
    forall x ensures x in a <==> x in b {
      assert x in a <==> x in multiset(a);
      assert x in b <==> x in multiset(b);
    }
  }

  // ---- And only for plain keys --------------------------------------------------------------

  function Repeated(key: string, n: nat): seq<string> {
    if n == 0 then [] else Repeated(key, n - 1) + [key]
  }

  lemma {:induction false} RepeatedCount(key: string, n: nat, k: string)
    ensures Count(Repeated(key, n), k) == if k == key then n else 0
  {
    if n > 0 {
      RepeatedCount(key, n - 1, k);
      CountSnoc(Repeated(key, n - 1), key, k);
    }
  }

  lemma NumberedSnoc(front: seq<string>, key: string)
    ensures Numbered(front + [key]) == Numbered(front) + [Label(key, Count(front, key) + 1)]
  {
    assert (front + [key])[..|front|] == front;
  }

  /** A key that reads like a repeat hides one: two different sets of findings are numbered alike. */
  lemma RepeatIsHidden(a: string, b: string, n: nat) returns (xs: seq<string>, ys: seq<string>)
    requires n >= 2 && a == Label(b, n)
    ensures From(xs, {a, b}) && From(ys, {a, b}) && Numbered(xs) == Numbered(ys) && multiset(xs) != multiset(ys)
  {
    hide Numbered, Decimal, Repeated;
    var front := Repeated(b, n - 1);
    xs, ys := front + [b], front + [a];
    RepeatedCount(b, n - 1, b);
    RepeatedCount(b, n - 1, a);
    assert |a| > |b|;
    NumberedSnoc(front, b);
    NumberedSnoc(front, a);
    RepeatedFrom(b, n - 1);
    CountSnoc(front, b, b);
    CountSnoc(front, a, b);
    assert multiset(xs)[b] != multiset(ys)[b];
  }

  lemma {:induction false} RepeatedFrom(key: string, n: nat)
    ensures From(Repeated(key, n), {key})
  {
    if n > 0 { RepeatedFrom(key, n - 1); }
  }

  /** The strict check compares multisets, over all findings with keys from a set, exactly when the set is plain. */
  lemma CountsRepeatsExactly(universe: set<string>)
    ensures (forall xs, ys | From(xs, universe) && From(ys, universe) ::
               CheckRatchet(Numbered(xs), Numbered(ys), true) == 0 <==> multiset(xs) == multiset(ys))
            <==> PlainKeys(universe)
  {
    if PlainKeys(universe) {
      forall xs, ys | From(xs, universe) && From(ys, universe)
        ensures CheckRatchet(Numbered(xs), Numbered(ys), true) == 0 <==> multiset(xs) == multiset(ys)
      {
        RatchetCountsRepeats(universe, xs, ys, Numbered(xs), Numbered(ys));
      }
    } else {
      var a, b, n: nat :| a in universe && b in universe && n >= 2 && a == Label(b, n);
      var xs, ys := RepeatIsHidden(a, b, n);
      NothingMissing(Numbered(xs), Numbered(ys));
      NothingMissing(Numbered(ys), Numbered(xs));
      assert From(xs, universe) && From(ys, universe);
      assert CheckRatchet(Numbered(xs), Numbered(ys), true) == 0;
    }
  }
}
