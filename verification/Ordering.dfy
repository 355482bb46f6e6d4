/**
 Sorting and de-duplication, as the tools use them: `Array.prototype.sort` with a
 comparison, and `[...new Set(xs)]`, which keeps the first copy of each element.
 */
module Ordering {

  ghost predicate TotalPreorder<T(!new)>(leq: (T, T) -> bool) {
    && (forall a, b :: leq(a, b) || leq(b, a))
    && (forall a, b, c :: leq(a, b) && leq(b, c) ==> leq(a, c))
  }

  ghost predicate Sorted<T>(leq: (T, T) -> bool, xs: seq<T>) {
    forall i, j | 0 <= i < j < |xs| :: leq(xs[i], xs[j])
  }

  /** Elements that the order does not tell apart are equal. */
  ghost predicate Antisymmetric<T>(leq: (T, T) -> bool, xs: seq<T>) {
    forall a, b | a in xs && b in xs && leq(a, b) && leq(b, a) :: a == b
  }

  ghost predicate NoDuplicates<T>(xs: seq<T>) {
    forall i, j | 0 <= i < j < |xs| :: xs[i] != xs[j]
  }

  function Insert<T>(leq: (T, T) -> bool, x: T, ys: seq<T>): seq<T> {
    if ys == [] || leq(x, ys[0]) then [x] + ys else [ys[0]] + Insert(leq, x, ys[1..])
  }

  /** A stable sort. */
  function Sort<T>(leq: (T, T) -> bool, xs: seq<T>): seq<T> {
    if xs == [] then [] else Insert(leq, xs[0], Sort(leq, xs[1..]))
  }

  lemma {:induction false} InsertPermutes<T>(leq: (T, T) -> bool, x: T, ys: seq<T>)
    ensures multiset(Insert(leq, x, ys)) == multiset{x} + multiset(ys)
  {
    if ys == [] || leq(x, ys[0]) {
    } else {
      InsertPermutes(leq, x, ys[1..]);
      assert ys == [ys[0]] + ys[1..];
    }
  }

  lemma {:induction false} SortPermutes<T>(leq: (T, T) -> bool, xs: seq<T>)
    ensures multiset(Sort(leq, xs)) == multiset(xs)
    ensures |Sort(leq, xs)| == |xs|
    ensures forall x :: x in Sort(leq, xs) <==> x in xs
  {
    if xs == [] {
    } else {
      SortPermutes(leq, xs[1..]);
      InsertPermutes(leq, xs[0], Sort(leq, xs[1..]));
      assert xs == [xs[0]] + xs[1..];
    }
    assert |multiset(Sort(leq, xs))| == |multiset(xs)|;
    forall x ensures x in Sort(leq, xs) <==> x in xs {
      assert x in Sort(leq, xs) <==> x in multiset(Sort(leq, xs));
      assert x in xs <==> x in multiset(xs);
    }
  }

  lemma {:induction false} InsertSorted<T(!new)>(leq: (T, T) -> bool, x: T, ys: seq<T>)
    requires TotalPreorder(leq) && Sorted(leq, ys)
    ensures Sorted(leq, Insert(leq, x, ys))
  {
    if ys == [] || leq(x, ys[0]) {
    } else {
      InsertSorted(leq, x, ys[1..]);
      var rest := Insert(leq, x, ys[1..]);
      InsertPermutes(leq, x, ys[1..]);
      forall k | 0 <= k < |rest| ensures leq(ys[0], rest[k]) {
        assert rest[k] in multiset(rest);
        assert rest[k] == x || rest[k] in ys[1..];
      }
    }
  }

  lemma {:induction false} SortSorted<T(!new)>(leq: (T, T) -> bool, xs: seq<T>)
    requires TotalPreorder(leq)
    ensures Sorted(leq, Sort(leq, xs))
  {
    if xs == [] {
    } else {
      SortSorted(leq, xs[1..]);
      InsertSorted(leq, xs[0], Sort(leq, xs[1..]));
    }
  }

  /** A sorted arrangement of given elements is unique, so the order they arrive in is irrelevant. */
  lemma {:induction false} SortedUnique<T(!new)>(leq: (T, T) -> bool, xs: seq<T>, ys: seq<T>)
    requires Sorted(leq, xs) && Sorted(leq, ys) && Antisymmetric(leq, xs)
    requires forall a :: a in xs ==> leq(a, a)
    requires multiset(xs) == multiset(ys)
    ensures xs == ys
  {
    assert |xs| == |multiset(xs)| == |multiset(ys)| == |ys|;
    if xs == [] {
    } else {
      assert xs[0] in multiset(ys) && ys[0] in multiset(xs);
      assert leq(xs[0], ys[0]) && leq(ys[0], xs[0]);
      assert xs == [xs[0]] + xs[1..] && ys == [ys[0]] + ys[1..];
      assert multiset(xs[1..]) == multiset(xs) - multiset{xs[0]};
      assert multiset(ys[1..]) == multiset(ys) - multiset{ys[0]};
      SortedUnique(leq, xs[1..], ys[1..]);
    }
  }

  lemma SortUnique<T(!new)>(leq: (T, T) -> bool, xs: seq<T>, ys: seq<T>)
    requires TotalPreorder(leq) && Antisymmetric(leq, xs)
    requires multiset(xs) == multiset(ys)
    ensures Sort(leq, xs) == Sort(leq, ys)
  {
    SortSorted(leq, xs);
    SortSorted(leq, ys);
    SortPermutes(leq, xs);
    SortPermutes(leq, ys);
    SortedUnique(leq, Sort(leq, xs), Sort(leq, ys));
  }

  /** Without repeats, having the same elements is having the same multiset. */
  lemma {:induction false} SameElements<T>(xs: seq<T>, ys: seq<T>)
    requires NoDuplicates(xs) && NoDuplicates(ys)
    requires forall x :: x in xs <==> x in ys
    ensures multiset(xs) == multiset(ys)
  {
    forall x ensures multiset(xs)[x] == multiset(ys)[x] {
      CountOnce(xs, x);
      CountOnce(ys, x);
    }
  }

  lemma {:induction false} CountOnce<T>(xs: seq<T>, x: T)
    requires NoDuplicates(xs)
    ensures multiset(xs)[x] == if x in xs then 1 else 0
  {
    if xs == [] {
    } else {
      assert xs == [xs[0]] + xs[1..];
      CountOnce(xs[1..], x);
    }
  }

  lemma NoDuplicatesPermuted<T>(xs: seq<T>, ys: seq<T>)
    requires NoDuplicates(xs) && multiset(xs) == multiset(ys)
    ensures NoDuplicates(ys)
  {
    forall i, j | 0 <= i < j < |ys| ensures ys[i] != ys[j] {
      TwoCopies(ys, i, j);
      CountOnce(xs, ys[i]);
    }
  }

  lemma TwoCopies<T>(xs: seq<T>, i: nat, j: nat)
    requires i < j < |xs|
    ensures xs[i] == xs[j] ==> multiset(xs)[xs[i]] >= 2
  {
    assert xs == xs[..j] + [xs[j]] + xs[j + 1..];
    assert xs[i] in xs[..j];
  }

  /** `[...new Set(xs)]`: the first copy of each element, in order. */
  function Distinct<T(==,!new)>(xs: seq<T>): (r: seq<T>)
    ensures forall x :: x in r <==> x in xs
    ensures NoDuplicates(r)
    ensures |r| <= |xs|
  {
    if xs == [] then []
    else
      var front := Distinct(xs[..|xs| - 1]);
      assert xs == xs[..|xs| - 1] + [xs[|xs| - 1]];
      if xs[|xs| - 1] in front then front else front + [xs[|xs| - 1]]
  }

  // ---- Keys -----------------------------------------------------------------

  ghost function Image<T(!new), K(!new)>(f: T -> K, xs: seq<T>): set<K> {
    set x | x in xs :: f(x)
  }

  /** The elements have different keys. */
  ghost predicate Apart<T(!new), K(!new)>(f: T -> K, xs: seq<T>) {
    forall i, j | 0 <= i < j < |xs| :: f(xs[i]) != f(xs[j])
  }

  /** Keys are different exactly when there are as many of them as elements. */
  lemma {:induction false} ApartExactly<T(!new), K(!new)>(f: T -> K, xs: seq<T>)
    ensures |Image(f, xs)| <= |xs|
    ensures Apart(f, xs) <==> |Image(f, xs)| == |xs|
  {
    if xs == [] {
    } else {
      var front, last := xs[..|xs| - 1], xs[|xs| - 1];
      ApartExactly(f, front);
      assert xs == front + [last];
      LastApart(f, front, last);
    }
  }

  lemma LastApart<T(!new), K(!new)>(f: T -> K, front: seq<T>, last: T)
    ensures Apart(f, front + [last]) <==> Apart(f, front) && f(last) !in Image(f, front)
    ensures Image(f, front + [last]) == Image(f, front) + {f(last)}
  {
    var xs := front + [last];
    assert forall x :: x in xs <==> x in front || x == last;
    if Apart(f, xs) {
      forall i, j | 0 <= i < j < |front| ensures f(front[i]) != f(front[j]) {
        assert xs[i] == front[i] && xs[j] == front[j];
      }
      forall i | 0 <= i < |front| ensures f(front[i]) != f(last) {
        assert xs[i] == front[i] && xs[|front|] == last;
      }
    }
  }

  /** Whether keys are different does not depend on the order. */
  lemma ApartPermuted<T(!new), K(!new)>(f: T -> K, xs: seq<T>, ys: seq<T>)
    requires multiset(xs) == multiset(ys)
    ensures Apart(f, xs) <==> Apart(f, ys)
    ensures |xs| == |ys| && (forall x :: x in xs <==> x in ys) && Image(f, xs) == Image(f, ys)
  {
    assert |multiset(xs)| == |multiset(ys)|;
    forall x ensures x in xs <==> x in ys {
      assert x in xs <==> x in multiset(xs);
      assert x in ys <==> x in multiset(ys);
    }
    assert Image(f, xs) == Image(f, ys);
    ApartExactly(f, xs);
    ApartExactly(f, ys);
  }

  lemma SubsetSize<T>(a: set<T>, b: set<T>)
    requires a <= b
    ensures |a| <= |b|
    ensures |a| == |b| ==> a == b
  {
    assert b == (b - a) + a;
  }

  /** As many different keys as there are places fill all the places. */
  lemma Onto<T(!new), K(!new)>(f: T -> K, xs: seq<T>, places: set<K>)
    requires Apart(f, xs) && Image(f, xs) <= places
    ensures |xs| == |places| <==> Image(f, xs) == places
  {
    ApartExactly(f, xs);
    SubsetSize(Image(f, xs), places);
  }

  // ---- Strings --------------------------------------------------------------

  /** Lexicographic order on characters. */
  predicate StrLeq(a: string, b: string) {
    a == [] || (b != [] && (a[0] < b[0] || (a[0] == b[0] && StrLeq(a[1..], b[1..]))))
  }

  /** The two strings agree before `n`, where the first one ends or has the smaller character. */
  predicate FirstDifference(a: string, b: string, n: nat) {
    n <= |a| && n <= |b| && a[..n] == b[..n] && (n == |a| || (n < |b| && a[n] < b[n]))
  }

  lemma {:induction false} StrLeqExactly(a: string, b: string)
    ensures StrLeq(a, b) <==> exists n: nat :: FirstDifference(a, b, n)
  {
    if a == [] {
      assert FirstDifference(a, b, 0);
    } else if b != [] {
      if a[0] < b[0] { assert FirstDifference(a, b, 0); }
      if a[0] == b[0] {
        StrLeqExactly(a[1..], b[1..]);
        if n: nat :| FirstDifference(a, b, n) { DifferenceShift(a, b, n - 1); }
        if n: nat :| FirstDifference(a[1..], b[1..], n) { DifferenceShift(a, b, n); }
      }
    }
  }

  lemma DifferenceShift(a: string, b: string, n: nat)
    requires a != [] && b != [] && a[0] == b[0]
    ensures FirstDifference(a, b, n + 1) <==> FirstDifference(a[1..], b[1..], n)
  {
    if n + 1 <= |a| && n + 1 <= |b| {
      assert a[..n + 1] == [a[0]] + a[1..][..n] && b[..n + 1] == [b[0]] + b[1..][..n];
    }
  }

  lemma {:induction false} StrLeqTotal(a: string, b: string)
    ensures StrLeq(a, b) || StrLeq(b, a)
    ensures StrLeq(a, b) && StrLeq(b, a) ==> a == b
  {
    if a == [] || b == [] || a[0] != b[0] {
    } else {
      StrLeqTotal(a[1..], b[1..]);
      assert a == [a[0]] + a[1..] && b == [b[0]] + b[1..];
    }
  }

  lemma {:induction false} StrLeqTransitive(a: string, b: string, c: string)
    requires StrLeq(a, b) && StrLeq(b, c)
    ensures StrLeq(a, c)
  {
    if a == [] || c == [] || a[0] != b[0] || b[0] != c[0] {
    } else {
      StrLeqTransitive(a[1..], b[1..], c[1..]);
    }
  }
}
