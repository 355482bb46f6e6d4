/**
 Worker stage names and the bounded diagnostic sequence (tools/generated-worker-stage-policy.ts),
 for any table of names.
 */
module WorkerStages {
  import opened Wrappers
  import opened Ordering

  const MAX_STAGES: nat := 32
  const MAX_LENGTH: nat := 128
  const HEAD: nat := 16
  const TAIL: nat := 8
  const MAX_CRITICAL: nat := 6

  // ---- Names ---------------------------------------------------------------------------

  predicate IsWordChar(c: char) {
    'a' <= c <= 'z' || '0' <= c <= '9'
  }

  /** `/^[a-z0-9]+(?:-[a-z0-9]+)*$/u`: words between single hyphens. */
  predicate IsName(s: string) {
    && s != "" && s[0] != '-' && s[|s| - 1] != '-'
    && (forall i | 0 <= i < |s| :: IsWordChar(s[i]) || s[i] == '-')
    && forall i | 0 <= i < |s| - 1 :: s[i] != '-' || s[i + 1] != '-'
  }

  /** A name short enough to report. */
  type Stage = s: string | IsName(s) && |s| <= MAX_LENGTH witness "a"

  /** Two names joined by a hyphen. */
  function Compound(first: Stage, rest: Stage): Stage
    requires |first| + 1 + |rest| <= MAX_LENGTH
  {
    first + "-" + rest
  }

  /** A piece of a family pattern: fixed text, one of some words, or up to `max` digits. */
  datatype Piece = Fixed(text: string) | OneOf(words: seq<string>) | Digits(max: nat)

  predicate DigitsAt(s: string, n: nat) {
    0 < n <= |s| && forall i | 0 <= i < n :: '0' <= s[i] <= '9'
  }

  /** The whole of `s` is a text of the pattern. */
  predicate Matches(pattern: seq<Piece>, s: string) {
    if pattern == [] then s == ""
    else
      match pattern[0]
      case Fixed(text) => text <= s && Matches(pattern[1..], s[|text|..])
      case OneOf(words) => exists w | w in words :: w <= s && Matches(pattern[1..], s[|w|..])
      case Digits(max) => exists n | 0 <= n <= max :: DigitsAt(s, n) && Matches(pattern[1..], s[n..])
  }

  /** A stage that begins with `prefix` and is nothing known stands for `sentinel`. */
  datatype Fallback = Fallback(prefix: string, sentinel: Stage)

  datatype Policy = Policy(exact: set<string>, families: seq<seq<Piece>>, fallbacks: seq<Fallback>,
                           critical: set<string>, marker: Stage)

  predicate Known(policy: Policy, stage: string) {
    stage in policy.exact || exists k | 0 <= k < |policy.families| :: Matches(policy.families[k], stage)
  }

  function FallbackOf(fallbacks: seq<Fallback>, stage: string): Option<string> {
    if fallbacks == [] then None
    else if fallbacks[0].prefix <= stage then Some(fallbacks[0].sentinel)
    else FallbackOf(fallbacks[1..], stage)
  }

  function Sanitize(policy: Policy, stage: string): Option<string> {
    if |stage| > MAX_LENGTH || !IsName(stage) then None
    else if Known(policy, stage) then Some(stage)
    else FallbackOf(policy.fallbacks, stage)
  }

  predicate IsAllowed(policy: Policy, stage: string) {
    Sanitize(policy, stage) == Some(stage)
  }

  /** A table whose replacement names are themselves exact stages. */
  ghost predicate Sound(policy: Policy) {
    && (forall f | f in policy.fallbacks :: f.sentinel in policy.exact)
    && policy.marker in policy.exact
    && |policy.critical| <= MAX_CRITICAL
  }

  lemma {:induction false} FallbackIsListed(fallbacks: seq<Fallback>, stage: string)
    ensures match FallbackOf(fallbacks, stage)
      case Some(s) => exists f :: f in fallbacks && f.sentinel == s && f.prefix <= stage
      case None => forall f | f in fallbacks :: !(f.prefix <= stage)
  {
    if fallbacks != [] {
      FallbackIsListed(fallbacks[1..], stage);
      assert fallbacks == [fallbacks[0]] + fallbacks[1..];
    }
  }

  /** Sanitizing is idempotent: what comes out is allowed. */
  lemma SanitizedIsAllowed(policy: Policy, stage: string)
    requires Sound(policy) && Sanitize(policy, stage).Some?
    ensures IsAllowed(policy, Sanitize(policy, stage).value)
  {
    FallbackIsListed(policy.fallbacks, stage);
  }

  // ---- The bounded sequence --------------------------------------------------------------

  function SanitizeAll(policy: Policy, stages: seq<string>): seq<string> {
    if stages == [] then []
    else
      (match Sanitize(policy, stages[0]) case Some(s) => [s] case None => []) + SanitizeAll(policy, stages[1..])
  }

  function Range(low: nat, high: nat): (r: set<nat>)
    ensures forall i :: i in r <==> low <= i < high
    ensures low <= high ==> |r| == high - low
  {
    if low >= high then {} else Range(low, high - 1) + {high - 1}
  }

  /** The critical stages among the first `n`, and where each occurs first. */
  function CriticalSeen(policy: Policy, s: seq<string>, n: nat): set<string>
    requires n <= |s|
  {
    if n == 0 then {}
    else if s[n - 1] in policy.critical then CriticalSeen(policy, s, n - 1) + {s[n - 1]}
    else CriticalSeen(policy, s, n - 1)
  }

  function FirstCritical(policy: Policy, s: seq<string>, n: nat): set<nat>
    requires n <= |s|
  {
    if n == 0 then {}
    else if s[n - 1] in policy.critical && s[n - 1] !in CriticalSeen(policy, s, n - 1)
    then FirstCritical(policy, s, n - 1) + {n - 1}
    else FirstCritical(policy, s, n - 1)
  }

  function Min(a: nat, b: nat): nat {
    if a < b then a else b
  }

  /** Indexes that are always kept: the head, the tail, and each critical stage once. */
  function Essential(policy: Policy, s: seq<string>): set<nat>
    requires |s| > MAX_STAGES
  {
    Range(0, Min(HEAD, |s|)) + Range(|s| - TAIL, |s|) + FirstCritical(policy, s, |s|)
  }

  /** The lowest free indexes fill the remaining places. */
  function Fill(selected: set<nat>, i: nat, n: nat): set<nat>
    decreases n - i
  {
    if i >= n || |selected| >= MAX_STAGES - 1 then selected else Fill(selected + {i}, i + 1, n)
  }

  function Chosen(policy: Policy, s: seq<string>): set<nat>
    requires |s| > MAX_STAGES
  {
    Fill(Essential(policy, s), 0, |s|)
  }

  function FirstOmitted(selected: set<nat>, i: nat, n: nat): Option<nat>
    decreases n - i
  {
    if i >= n then None else if i !in selected then Some(i) else FirstOmitted(selected, i + 1, n)
  }

  /** The chosen stages among the first `n`, with the marker where the first one is left out. */
  function Rendered(policy: Policy, s: seq<string>, selected: set<nat>, omitted: Option<nat>, n: nat): seq<string>
    requires n <= |s|
  {
    if n == 0 then []
    else
      Rendered(policy, s, selected, omitted, n - 1)
      + (if omitted == Some(n - 1) then [policy.marker] else [])
      + if n - 1 in selected then [s[n - 1]] else []
  }

  function Bounded(policy: Policy, stages: seq<string>): seq<string> {
    var s := SanitizeAll(policy, stages);
    if |s| <= MAX_STAGES then s
    else
      var chosen := Chosen(policy, s);
      var omitted := FirstOmitted(chosen, 0, |s|);
      Rendered(policy, s, chosen, omitted, |s|) + if omitted.None? then [policy.marker] else []
  }

  method AddRange(base: set<nat>, low: nat, high: nat) returns (selected: set<nat>)
    requires low <= high
    ensures selected == base + Range(low, high)
  {
    selected := base;
    for index := low to high
      invariant selected == base + Range(low, index)
    {
      selected := selected + {index};
    }
  }

  method AddCritical(policy: Policy, stages: seq<string>, base: set<nat>) returns (selected: set<nat>)
    ensures selected == base + FirstCritical(policy, stages, |stages|)
  {
    selected := base;
    var seen: set<string> := {};
    for index := 0 to |stages|
      invariant seen == CriticalSeen(policy, stages, index)
      invariant selected == base + FirstCritical(policy, stages, index)
    {
      if stages[index] in policy.critical && stages[index] !in seen {
        selected := selected + {index};
        seen := seen + {stages[index]};
      }
    }
  }

  method FillUp(base: set<nat>, n: nat) returns (selected: set<nat>)
    ensures selected == Fill(base, 0, n)
  {
    selected := base;
    var index := 0;
    while index < n && |selected| < MAX_STAGES - 1
      invariant 0 <= index <= n && Fill(selected, index, n) == Fill(base, 0, n)
    {
      selected := selected + {index};
      index := index + 1;
    }
  }

  method Render(policy: Policy, stages: seq<string>, selected: set<nat>) returns (bounded: seq<string>)
    ensures var omitted := FirstOmitted(selected, 0, |stages|);
      bounded == Rendered(policy, stages, selected, omitted, |stages|) + if omitted.None? then [policy.marker] else []
  {
    var omitted := FirstOmitted(selected, 0, |stages|);
    OmittedInRange(selected, 0, |stages|);
    bounded := [];
    var markerAdded := false;
    for index := 0 to |stages|
      invariant bounded == Rendered(policy, stages, selected, omitted, index)
      invariant markerAdded <==> omitted.Some? && omitted.value < index
    {
      if !markerAdded && omitted == Some(index) {
        bounded := bounded + [policy.marker];
        markerAdded := true;
      }
      if index in selected {
        bounded := bounded + [stages[index]];
      }
    }
    if !markerAdded {
      bounded := bounded + [policy.marker];
    }
  }

  method BoundWorkerStageSequence(policy: Policy, raw: seq<string>) returns (bounded: seq<string>)
    ensures bounded == Bounded(policy, raw)
  {
    var stages := SanitizeAll(policy, raw);
    if |stages| <= MAX_STAGES {
      return stages;
    }
    var selected := AddRange({}, 0, Min(HEAD, |stages|));
    selected := AddRange(selected, |stages| - TAIL, |stages|);
    selected := AddCritical(policy, stages, selected);
    assert selected == Essential(policy, stages);
    selected := FillUp(selected, |stages|);
    bounded := Render(policy, stages, selected);
  }

  lemma {:induction false} OmittedInRange(selected: set<nat>, i: nat, n: nat)
    ensures match FirstOmitted(selected, i, n)
      case Some(k) => i <= k < n && k !in selected && forall j | i <= j < k :: j in selected
      case None => forall j | i <= j < n :: j in selected
    decreases n - i
  {
    if i < n && i in selected { OmittedInRange(selected, i + 1, n); }
  }

  // ---- What is kept ----------------------------------------------------------------------

  lemma {:induction false} CriticalIsKnown(policy: Policy, s: seq<string>, n: nat)
    requires n <= |s|
    ensures CriticalSeen(policy, s, n) <= policy.critical
  {
    if n > 0 { CriticalIsKnown(policy, s, n - 1); }
  }

  lemma {:induction false} FirstCriticalBefore(policy: Policy, s: seq<string>, n: nat)
    requires n <= |s|
    ensures forall i | i in FirstCritical(policy, s, n) :: i < n
  {
    if n > 0 { FirstCriticalBefore(policy, s, n - 1); }
  }

  lemma OneMore<T>(a: set<T>, x: T)
    ensures |a + {x}| == if x in a then |a| else |a| + 1
  {
    assert x in a ==> a + {x} == a;
  }

  lemma {:induction false} CriticalCounted(policy: Policy, s: seq<string>, n: nat)
    requires n <= |s|
    ensures |FirstCritical(policy, s, n)| <= |CriticalSeen(policy, s, n)|
  {
    if n > 0 {
      CriticalCounted(policy, s, n - 1);
      OneMore(CriticalSeen(policy, s, n - 1), s[n - 1]);
      OneMore(FirstCritical(policy, s, n - 1), n - 1);
    }
  }

  /** The first index of a critical stage is among the essential ones. */
  lemma {:induction false} FirstCriticalExactly(policy: Policy, s: seq<string>, n: nat, i: nat)
    requires n <= |s|
    ensures forall c :: c in CriticalSeen(policy, s, n) <==> c in policy.critical && c in s[..n]
    ensures i in FirstCritical(policy, s, n) <==> i < n && s[i] in policy.critical && s[i] !in s[..i]
  {
    if n > 0 {
      FirstCriticalExactly(policy, s, n - 1, i);
      assert s[..n] == s[..n - 1] + [s[n - 1]];
      if i < n - 1 { assert s[..n - 1][i] == s[i]; }
    }
  }

  lemma UnionSize<T>(a: set<T>, b: set<T>)
    ensures |a + b| <= |a| + |b|
  {
    assert a + b == a + (b - a);
    SubsetSize(b - a, b);
  }

  lemma ThreeSizes(head: nat, tail: nat, n: nat, c: set<nat>)
    requires head <= n && tail <= n && forall i | i in c :: i < n
    ensures |Range(0, head) + Range(n - tail, n) + c| <= head + tail + |c|
    ensures Range(0, head) + Range(n - tail, n) + c <= Range(0, n)
  {
    UnionSize(Range(0, head) + Range(n - tail, n), c);
    UnionSize(Range(0, head), Range(n - tail, n));
  }

  lemma EssentialSize(policy: Policy, s: seq<string>)
    requires Sound(policy) && |s| > MAX_STAGES
    ensures |Essential(policy, s)| <= HEAD + TAIL + MAX_CRITICAL < MAX_STAGES
    ensures Essential(policy, s) <= Range(0, |s|)
  {
    CriticalCounted(policy, s, |s|);
    CriticalIsKnown(policy, s, |s|);
    FirstCriticalBefore(policy, s, |s|);
    SubsetSize(CriticalSeen(policy, s, |s|), policy.critical);
    ThreeSizes(Min(HEAD, |s|), TAIL, |s|, FirstCritical(policy, s, |s|));
  }

  lemma {:induction false} FillBounds(selected: set<nat>, i: nat, n: nat)
    ensures selected <= Fill(selected, i, n) <= selected + Range(i, n)
    decreases n - i
  {
    if i < n && |selected| < MAX_STAGES - 1 {
      FillBounds(selected + {i}, i + 1, n);
    }
  }

  lemma RangeStep(selected: set<nat>, i: nat, n: nat)
    requires i < n
    ensures (selected + {i}) + Range(i + 1, n) == selected + Range(i, n)
    ensures |selected + {i}| <= |selected| + 1
  {
    OneMore(selected, i);
  }

  lemma {:induction false} FillSize(selected: set<nat>, i: nat, n: nat)
    requires |selected| <= MAX_STAGES - 1 <= |selected + Range(i, n)|
    ensures |Fill(selected, i, n)| == MAX_STAGES - 1
    decreases n - i
  {
    hide Range;
    if i >= n {
      assert Range(i, n) == {};
      assert selected + Range(i, n) == selected;
    } else if |selected| < MAX_STAGES - 1 {
      RangeStep(selected, i, n);
      FillSize(selected + {i}, i + 1, n);
    }
  }

  lemma {:induction false} FillLowest(selected: set<nat>, i: nat, n: nat, j: nat, k: nat)
    requires k in Fill(selected, i, n) && k !in selected && i <= j < k
    ensures j in Fill(selected, i, n)
    decreases n - i
  {
    if i < n && |selected| < MAX_STAGES - 1 {
      FillBounds(selected + {i}, i + 1, n);
      if i < j { FillLowest(selected + {i}, i + 1, n, j, k); }
    }
  }

  lemma ChosenExactly(policy: Policy, s: seq<string>)
    requires Sound(policy) && |s| > MAX_STAGES
    ensures var r := Chosen(policy, s); |r| == MAX_STAGES - 1 && Essential(policy, s) <= r <= Range(0, |s|)
  {
    EssentialSize(policy, s);
    SubsetSize(Range(0, |s|), Essential(policy, s) + Range(0, |s|));
    FillBounds(Essential(policy, s), 0, |s|);
    FillSize(Essential(policy, s), 0, |s|);
  }

  /** The indexes of a set below `n`, in order. */
  ghost function Listed(selected: set<nat>, n: nat): (r: seq<nat>)
    ensures forall k | 0 <= k < |r| :: r[k] < n
    ensures forall j, k | 0 <= j < k < |r| :: r[j] < r[k]
    ensures forall i :: i in r <==> i in selected && i < n
  {
    if n == 0 then []
    else if n - 1 in selected then Listed(selected, n - 1) + [n - 1]
    else Listed(selected, n - 1)
  }

  ghost function Picked(s: seq<string>, at: seq<nat>): (r: seq<string>)
    requires forall k | 0 <= k < |at| :: at[k] < |s|
    ensures |r| == |at| && forall k | 0 <= k < |at| :: r[k] == s[at[k]]
  {
    if at == [] then [] else Picked(s, at[..|at| - 1]) + [s[at[|at| - 1]]]
  }

  /** The members of a set below `n`. */
  ghost function Below(selected: set<nat>, n: nat): set<nat> {
    if n == 0 then {} else if n - 1 in selected then Below(selected, n - 1) + {n - 1} else Below(selected, n - 1)
  }

  lemma {:induction false} BelowExactly(selected: set<nat>, n: nat, i: nat)
    ensures i in Below(selected, n) <==> i in selected && i < n
  {
    if n > 0 { BelowExactly(selected, n - 1, i); }
  }

  lemma {:induction false} ListedSize(selected: set<nat>, n: nat)
    ensures |Listed(selected, n)| == |Below(selected, n)|
  {
    if n > 0 {
      ListedSize(selected, n - 1);
      BelowExactly(selected, n - 1, n - 1);
      ListedStep(selected, n);
      hide Listed, Below;
      OneMore(Below(selected, n - 1), n - 1);
    }
  }

  lemma ListedStep(selected: set<nat>, n: nat)
    requires n > 0
    ensures Below(selected, n) ==
            if n - 1 in selected then Below(selected, n - 1) + {n - 1} else Below(selected, n - 1)
    ensures |Listed(selected, n)| == |Listed(selected, n - 1)| + if n - 1 in selected then 1 else 0
  {
  }

  lemma {:induction false} ListedFull(selected: set<nat>, omitted: nat, n: nat)
    requires forall j | 0 <= j < omitted :: j in selected
    ensures |Listed(selected, n)| >= Min(n, omitted) && (n <= omitted ==> |Listed(selected, n)| == n)
    ensures forall k | 0 <= k < Min(n, omitted) :: Listed(selected, n)[k] == k
  {
    if n > 0 {
      ListedFull(selected, omitted, n - 1);
      var front := Listed(selected, n - 1);
      assert Listed(selected, n) == if n - 1 in selected then front + [n - 1] else front;
    }
  }

  /** `xs` with the marker at `at`. */
  ghost function Marked(xs: seq<string>, at: nat, marker: string): seq<string>
    requires at <= |xs|
  {
    xs[..at] + [marker] + xs[at..]
  }

  lemma MarkedGrows(xs: seq<string>, x: string, at: nat, marker: string)
    requires at <= |xs|
    ensures Marked(xs + [x], at, marker) == Marked(xs, at, marker) + [x]
  {
    assert (xs + [x])[..at] == xs[..at];
    assert (xs + [x])[at..] == xs[at..] + [x];
  }

  /** The chosen stages among the first `n`. */
  ghost function Kept(s: seq<string>, selected: set<nat>, n: nat): seq<string>
    requires n <= |s|
  {
    if n == 0 then [] else Kept(s, selected, n - 1) + if n - 1 in selected then [s[n - 1]] else []
  }

  lemma {:induction false} KeptIsPicked(s: seq<string>, selected: set<nat>, n: nat)
    requires n <= |s|
    ensures Kept(s, selected, n) == Picked(s, Listed(selected, n))
  {
    if n > 0 {
      KeptIsPicked(s, selected, n - 1);
      var at := Listed(selected, n);
      if n - 1 in selected { assert at[..|at| - 1] == Listed(selected, n - 1); }
    }
  }

  lemma {:induction false} RenderedBefore(policy: Policy, s: seq<string>, selected: set<nat>, omitted: nat, n: nat)
    requires n <= |s| && n <= omitted && forall j | 0 <= j < omitted :: j in selected
    ensures Rendered(policy, s, selected, Some(omitted), n) == Kept(s, selected, n) && |Kept(s, selected, n)| == n
  {
    if n > 0 { RenderedBefore(policy, s, selected, omitted, n - 1); }
  }

  /** Rendering is listing what is chosen, with the marker put in where the first stage is missing. */
  lemma {:induction false} RenderedIs(policy: Policy, s: seq<string>, selected: set<nat>, omitted: nat, n: nat)
    requires omitted < n <= |s| && omitted !in selected && forall j | 0 <= j < omitted :: j in selected
    ensures omitted <= |Kept(s, selected, n)|
    ensures Rendered(policy, s, selected, Some(omitted), n) == Marked(Kept(s, selected, n), omitted, policy.marker)
  {
    var front := Kept(s, selected, n - 1);
    if n == omitted + 1 {
      RenderedBefore(policy, s, selected, omitted, omitted);
      MarkedAtEnd(front, policy.marker);
      assert Kept(s, selected, n) == front;
    } else {
      RenderedIs(policy, s, selected, omitted, n - 1);
      MarkedGrows(front, s[n - 1], omitted, policy.marker);
    }
  }

  lemma MarkedAtEnd(xs: seq<string>, marker: string)
    ensures Marked(xs, |xs|, marker) == xs + [marker]
  {
  }

  // ---- The guarantees --------------------------------------------------------------------

  /** `at` places `xs` in `s`, in order. */
  ghost predicate InOrder(xs: seq<string>, s: seq<string>, at: seq<nat>) {
    && |at| == |xs|
    && (forall k | 0 <= k < |at| :: at[k] < |s| && xs[k] == s[at[k]])
    && forall j, k | 0 <= j < k < |at| :: at[j] < at[k]
  }

  /** A stage that is always kept: one of the first 16, of the last 8, or a critical one where it occurs first. */
  predicate Promised(policy: Policy, s: seq<string>, i: nat) {
    i < |s| && (i < 16 || |s| - i <= 8 || (s[i] in policy.critical && s[i] !in s[..i]))
  }

  lemma EssentialExactly(policy: Policy, s: seq<string>, i: nat)
    requires |s| > MAX_STAGES
    ensures i in Essential(policy, s) <==> Promised(policy, s, i)
  {
    hide FirstCritical, CriticalSeen, Range;
    FirstCriticalExactly(policy, s, |s|, i);
  }

  /** Within the limit nothing is dropped but what sanitizing drops. */
  lemma ShortIsKept(policy: Policy, raw: seq<string>)
    requires |SanitizeAll(policy, raw)| <= 32
    ensures Bounded(policy, raw) == SanitizeAll(policy, raw)
  {
  }

  /**
   A longer sequence comes out at exactly the limit: one marker, where the first stage is left
   out, and around it an in-order selection with the first 16 stages, the last 8 and every
   critical stage where it occurs first; the remaining places go to the lowest free indexes.
   */
  lemma Truncated(policy: Policy, raw: seq<string>) returns (kept: seq<string>, at: seq<nat>, m: nat)
    requires Sound(policy) && |SanitizeAll(policy, raw)| > 32
    ensures |Bounded(policy, raw)| == 32
    ensures m <= |kept| && Bounded(policy, raw) == Marked(kept, m, policy.marker)
    ensures var s := SanitizeAll(policy, raw);
      && InOrder(kept, s, at)
      && m <= |at| && (forall k | 0 <= k < m :: at[k] == k) && m !in at && m < |s|
      && (forall i: nat | Promised(policy, s, i) :: i in at)
      && (forall j, k | 0 <= j < k && k in at && !Promised(policy, s, k) :: j in at)
  {
    var s := SanitizeAll(policy, raw);
    var chosen := Chosen(policy, s);
    ChosenExactly(policy, s);
    m := SomeOmitted(chosen, |s|);
    kept, at := TruncatedTo(policy, s, chosen, m);
    hide Promised, Essential;
    forall i: nat ensures i in Essential(policy, s) <==> Promised(policy, s, i) {
      EssentialExactly(policy, s, i);
    }
    forall j, k | 0 <= j < k && k in at && !Promised(policy, s, k) ensures j in at {
      FillLowest(Essential(policy, s), 0, |s|, j, k);
    }
  }

  lemma TruncatedTo(policy: Policy, s: seq<string>, chosen: set<nat>, m: nat)
    returns (kept: seq<string>, at: seq<nat>)
    requires |chosen| == MAX_STAGES - 1 && chosen <= Range(0, |s|)
    requires m < |s| && m !in chosen && forall j | 0 <= j < m :: j in chosen
    ensures |kept| == MAX_STAGES - 1 && m <= |kept| && InOrder(kept, s, at)
    ensures Rendered(policy, s, chosen, Some(m), |s|) == Marked(kept, m, policy.marker)
    ensures m <= |at| && (forall k | 0 <= k < m :: at[k] == k) && forall i :: i in at <==> i in chosen
  {
    at := Listed(chosen, |s|);
    kept := Picked(s, at);
    RenderedIs(policy, s, chosen, m, |s|);
    KeptIsPicked(s, chosen, |s|);
    ListedFull(chosen, m, |s|);
    ListedSize(chosen, |s|);
    AllBelow(chosen, |s|);
  }

  lemma AllBelow(chosen: set<nat>, n: nat)
    requires chosen <= Range(0, n)
    ensures Below(chosen, n) == chosen
  {
    forall i ensures i in Below(chosen, n) <==> i in chosen { BelowExactly(chosen, n, i); }
  }

  lemma SomeOmitted(chosen: set<nat>, n: nat) returns (m: nat)
    requires |chosen| < n
    ensures FirstOmitted(chosen, 0, n) == Some(m) && m < n && m !in chosen
    ensures forall j | 0 <= j < m :: j in chosen
  {
    OmittedInRange(chosen, 0, n);
    if FirstOmitted(chosen, 0, n).None? {
      SubsetSize(Range(0, n), chosen);
    }
    m := FirstOmitted(chosen, 0, n).value;
  }

  /** The result never exceeds the limit, whatever comes in. */
  lemma AlwaysBounded(policy: Policy, raw: seq<string>)
    requires Sound(policy)
    ensures |Bounded(policy, raw)| <= 32
  {
    if |SanitizeAll(policy, raw)| > MAX_STAGES {
      var kept, at, m := Truncated(policy, raw);
    }
  }

  lemma {:induction false} SanitizeAllAllowed(policy: Policy, raw: seq<string>)
    requires Sound(policy)
    ensures forall s | s in SanitizeAll(policy, raw) :: IsAllowed(policy, s)
  {
    if raw != [] {
      SanitizeAllAllowed(policy, raw[1..]);
      if Sanitize(policy, raw[0]).Some? { SanitizedIsAllowed(policy, raw[0]); }
    }
  }

  lemma {:induction false} AllowedStay(policy: Policy, s: seq<string>)
    requires forall x | x in s :: IsAllowed(policy, x)
    ensures SanitizeAll(policy, s) == s
  {
    if s != [] {
      assert s[0] in s;
      AllowedStay(policy, s[1..]);
    }
  }

  lemma MarkedMembers(kept: seq<string>, s: seq<string>, at: seq<nat>, m: nat, marker: string)
    requires InOrder(kept, s, at) && m <= |kept|
    ensures forall x | x in Marked(kept, m, marker) :: x == marker || x in s
  {
    forall x | x in Marked(kept, m, marker) ensures x == marker || x in s {
      if x != marker {
        assert x in kept;
        var k :| 0 <= k < |kept| && kept[k] == x;
        assert s[at[k]] in s;
      }
    }
  }

  lemma BoundedAllowed(policy: Policy, raw: seq<string>)
    requires Sound(policy)
    ensures forall x | x in Bounded(policy, raw) :: IsAllowed(policy, x)
  {
    SanitizeAllAllowed(policy, raw);
    if |SanitizeAll(policy, raw)| > MAX_STAGES {
      var kept, at, m := Truncated(policy, raw);
      MarkedMembers(kept, SanitizeAll(policy, raw), at, m, policy.marker);
    }
  }

  /** Bounding a bounded sequence changes nothing. */
  lemma BoundedIsIdempotent(policy: Policy, raw: seq<string>)
    requires Sound(policy)
    ensures Bounded(policy, Bounded(policy, raw)) == Bounded(policy, raw)
  {
    AlwaysBounded(policy, raw);
    BoundedAllowed(policy, raw);
    AllowedStay(policy, Bounded(policy, raw));
  }
}
