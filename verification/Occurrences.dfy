/** One sequence standing inside another. */
module Occurrences {
  import opened Wrappers

  /** `x` stands in `s` at `i`. */
  predicate Occurs<T(==)>(s: seq<T>, i: nat, x: seq<T>) {
    i + |x| <= |s| && forall k | 0 <= k < |x| :: s[i + k] == x[k]
  }

  lemma OccursConcat<T>(s: seq<T>, i: nat, x: seq<T>, y: seq<T>)
    ensures Occurs(s, i, x + y) <==> Occurs(s, i, x) && Occurs(s, i + |x|, y)
  {
    if Occurs(s, i, x + y) {
      forall k | 0 <= k < |x| ensures s[i + k] == x[k] { assert s[i + k] == (x + y)[k]; }
      forall k | 0 <= k < |y| ensures s[i + |x| + k] == y[k] { assert s[i + (|x| + k)] == (x + y)[|x| + k]; }
    }
    if Occurs(s, i, x) && Occurs(s, i + |x|, y) {
      forall k | 0 <= k < |x + y| ensures s[i + k] == (x + y)[k] {
        assert k >= |x| ==> s[i + |x| + (k - |x|)] == y[k - |x|];
      }
    }
  }

  lemma OccursAt<T>(s: seq<T>, i: nat, x: seq<T>, k: nat)
    requires Occurs(s, i, x) && k < |x|
    ensures s[i + k] == x[k]
  {
  }

  /** `s.indexOf(x, from)`. */
  function IndexOf<T(==)>(s: seq<T>, x: seq<T>, from: nat): (r: Option<nat>)
    ensures r.Some? ==> from <= r.value && Occurs(s, r.value, x)
    ensures forall i | from <= i && Occurs(s, i, x) :: r.Some? && r.value <= i
    decreases |s| - from
  {
    if from + |x| > |s| then None
    else if Occurs(s, from, x) then Some(from)
    else IndexOf(s, x, from + 1)
  }
}
