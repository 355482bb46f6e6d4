/**
 Replacing the marked section of a pull-request description (tools/architecture-diff.ts).
 The splice is a lens between a description and the section it carries.
 */
module ArchitectureSplice {
  import opened Wrappers
  import opened Occurrences

  const SECTION_START := "<!-- architecture:start -->"
  const SECTION_END := "<!-- architecture:end -->"

  const LF := "\n"
  const CRLF := "\r\n"

  datatype Refusal = BadSection | UnclosedSection

  predicate IsBreak(c: char) {
    c == '\r' || c == '\n'
  }

  /** A marker begins with a character it repeats nowhere, and stays on one line. */
  predicate Marker(m: string) {
    m != "" && (forall k | 0 < k < |m| :: m[k] != m[0]) && forall k | 0 <= k < |m| :: !IsBreak(m[k])
  }

  ghost predicate Markers(open: string, close: string) {
    && Marker(open) && Marker(close) && open[0] == close[0]
    && exists k | 0 <= k < |open| && k < |close| :: open[k] != close[k]
  }

  // ---- Lines -------------------------------------------------------------------------

  predicate CrLfAt(s: string, i: nat) {
    i + 1 < |s| && s[i] == '\r' && s[i + 1] == '\n'
  }

  predicate HasCrLf(s: string) {
    exists i | 0 <= i < |s| :: CrLfAt(s, i)
  }

  /** The line ending a description is given: CRLF as soon as it has one. */
  function Eol(body: string): string {
    if HasCrLf(body) then CRLF else LF
  }

  /** A line ends at `i`, or the text does. */
  predicate LineEnds(s: string, i: nat) {
    i == |s| || (i < |s| && s[i] == '\n') || CrLfAt(s, i)
  }

  /** `m` fills a whole line at `i`. */
  predicate MarkerAt(s: string, i: nat, m: string) {
    Occurs(s, i, m) && (i == 0 || s[i - 1] == '\n') && LineEnds(s, i + |m|)
  }

  /** The first line from `from` on that `m` fills. */
  function FirstMarker(s: string, m: string, from: nat): (r: Option<nat>)
    ensures r.Some? ==> from <= r.value && MarkerAt(s, r.value, m)
    ensures forall i | from <= i && MarkerAt(s, i, m) :: r.Some? && r.value <= i
    decreases |s| - from
  {
    if from + |m| > |s| then None
    else if MarkerAt(s, from, m) then Some(from)
    else FirstMarker(s, m, from + 1)
  }

  lemma NoOverlap(s: string, m: string, i: nat, j: nat)
    requires Marker(m) && Occurs(s, i, m) && Occurs(s, j, m) && i < j
    ensures i + |m| <= j
  {
    SharedCharacter(s, m, i, j);
  }

  lemma SharedCharacter(s: string, m: string, i: nat, j: nat)
    requires Occurs(s, i, m) && Occurs(s, j, m) && i <= j
    ensures j < i + |m| ==> m[j - i] == m[0]
  {
    if j < i + |m| {
      OccursAt(s, j, m, 0);
      OccursAt(s, i, m, j - i);
    }
  }

  lemma FirstMarkerIs(s: string, m: string, from: nat, at: nat)
    requires from <= at && MarkerAt(s, at, m) && forall i | from <= i < at :: !MarkerAt(s, i, m)
    ensures FirstMarker(s, m, from) == Some(at)
  {
  }

  lemma NoMarkerFrom(s: string, m: string, from: nat)
    requires forall i | from <= i :: !MarkerAt(s, i, m)
    ensures FirstMarker(s, m, from) == None
  {
  }

  /** The search jumps from occurrence to occurrence, and misses no line that the marker fills. */
  method MarkerLine(body: string, marker: string, from: nat) returns (index: Option<nat>)
    requires Marker(marker)
    ensures index == FirstMarker(body, marker, from)
  {
    index := IndexOf(body, marker, from);
    while index.Some?
      invariant index.Some? ==> from <= index.value && Occurs(body, index.value, marker)
      invariant forall i | from <= i && MarkerAt(body, i, marker) :: index.Some? && index.value <= i
      decreases if index.Some? then |body| - index.value + 1 else 0
    {
      var at := index.value;
      if (at == 0 || body[at - 1] == '\n') && LineEnds(body, at + |marker|) {
        FirstMarkerIs(body, marker, from, at);
        return;
      }
      index := IndexOf(body, marker, at + |marker|);
      forall i | from <= i && MarkerAt(body, i, marker) ensures index.Some? && index.value <= i {
        NoOverlap(body, marker, at, i);
      }
    }
    NoMarkerFrom(body, marker, from);
  }

  // ---- The section -------------------------------------------------------------------

  /** `section.replace(/\r?\n$/u, '')`. */
  function StripEol(s: string): string {
    if |s| >= 2 && CrLfAt(s, |s| - 2) then s[..|s| - 2]
    else if |s| >= 1 && s[|s| - 1] == '\n' then s[..|s| - 1]
    else s
  }

  /** How many times `split(m)` cuts. */
  function Cuts(s: string, m: string, from: nat): nat
    requires m != ""
    decreases |s| - from
  {
    match IndexOf(s, m, from)
    case None => 0
    case Some(i) => 1 + Cuts(s, m, i + |m|)
  }

  /** `s.replace(/\r?\n/gu, eol)`. */
  function ReplaceEol(s: string, eol: string): string {
    if s == "" then ""
    else if s[0] == '\n' then eol + ReplaceEol(s[1..], eol)
    else if CrLfAt(s, 0) then eol + ReplaceEol(s[2..], eol)
    else [s[0]] + ReplaceEol(s[1..], eol)
  }

  /** What the code checks of a trimmed section: it begins and ends with the markers, once each. */
  predicate Proper(open: string, close: string, t: string)
    requires open != "" && close != ""
  {
    && Occurs(t, 0, open) && |t| >= |close| && Occurs(t, |t| - |close|, close)
    && Cuts(t, open, 0) == 1 && Cuts(t, close, 0) == 1
  }

  /** The first section in a description, markers included. */
  function Region(open: string, close: string, body: string): Result<Option<(nat, nat)>, Refusal> {
    match FirstMarker(body, open, 0)
    case None => Success(None)
    case Some(start) =>
      match FirstMarker(body, close, start + |open|)
      case None => Failure(UnclosedSection)
      case Some(end) => Success(Some((start, end + |close|)))
  }

  function Gap(body: string): string {
    if body == "" then "" else if body[|body| - 1] == '\n' then Eol(body) else Eol(body) + Eol(body)
  }

  /** The description outside its section: what stands before and what stands after it. */
  function Frame(open: string, close: string, body: string): Result<(string, string), Refusal> {
    match Region(open, close, body)
    case Failure(e) => Failure(e)
    case Success(None) => Success((body + Gap(body), ""))
    case Success(Some((a, b))) => Success((body[..a], body[b..]))
  }

  /** The section between the frame's two parts. */
  function Put(open: string, close: string, body: string, section: string): Result<string, Refusal>
    requires open != "" && close != ""
  {
    var t := StripEol(section);
    if !Proper(open, close, t) then Failure(BadSection)
    else
      match Frame(open, close, body)
      case Failure(e) => Failure(e)
      case Success((before, after)) => Success(before + ReplaceEol(t, Eol(body)) + after)
  }

  /** The markers of the architecture section. */
  function Splice(body: string, section: string): Result<string, Refusal> {
    Put(SECTION_START, SECTION_END, body, section)
  }

  lemma SectionMarkers()
    ensures Markers(SECTION_START, SECTION_END)
  {
    assert SECTION_START[18] != SECTION_END[18];
  }

  method PutSection(open: string, close: string, body: string, section: string) returns (r: Result<string, Refusal>)
    requires Markers(open, close)
    ensures r == Put(open, close, body, section)
  {
    var trimmed := StripEol(section);
    if !Proper(open, close, trimmed) {
      return Failure(BadSection);
    }
    var eol := Eol(body);
    var block := ReplaceEol(trimmed, eol);
    var start := MarkerLine(body, open, 0);
    if start.Some? {
      var end := MarkerLine(body, close, start.value + |open|);
      if end.None? {
        return Failure(UnclosedSection);
      }
      return Success(body[..start.value] + block + body[end.value + |close|..]);
    }
    if body == "" {
      assert body + Gap(body) + block + "" == block;
      return Success(block);
    }
    var text := body + (if body[|body| - 1] == '\n' then eol else eol + eol) + block;
    assert text + "" == text;
    r := Success(text);
  }

  method SpliceSection(body: string, section: string) returns (r: Result<string, Refusal>)
    ensures r == Splice(body, section)
  {
    SectionMarkers();
    r := PutSection(SECTION_START, SECTION_END, body, section);
  }

  // ---- Line endings of a block ---------------------------------------------------------

  lemma {:induction false} PlainPrefix(m: string, s: string, eol: string)
    requires forall k | 0 <= k < |m| :: !IsBreak(m[k])
    ensures ReplaceEol(m + s, eol) == m + ReplaceEol(s, eol)
  {
    if m == "" {
      assert m + s == s;
    } else {
      assert m + s == [m[0]] + (m[1..] + s);
      PlainPrefix(m[1..], s, eol);
    }
  }

  /** A text starting with a break-free word after the replacement did so before. */
  lemma {:induction false} PrefixBack(s: string, eol: string, m: string)
    requires eol == LF || eol == CRLF
    requires Occurs(ReplaceEol(s, eol), 0, m) && forall k | 0 <= k < |m| :: !IsBreak(m[k])
    ensures Occurs(s, 0, m) && ReplaceEol(s, eol) == m + ReplaceEol(s[|m|..], eol)
  {
    if m == "" {
    } else {
      OccursAt(ReplaceEol(s, eol), 0, m, 0);
      assert s != "" && s[0] == m[0];
      var tail := ReplaceEol(s[1..], eol);
      forall k | 0 <= k < |m[1..]| ensures tail[k] == m[1..][k] {
        OccursAt(ReplaceEol(s, eol), 0, m, k + 1);
      }
      PrefixBack(s[1..], eol, m[1..]);
      forall k | 0 <= k < |m| ensures s[k] == m[k] {
        if k > 0 { OccursAt(s[1..], 0, m[1..], k - 1); }
      }
      assert s[1..][|m[1..]|..] == s[|m|..];
    }
  }

  /** Every occurrence of a break-free word in the block comes from one in the section. */
  lemma {:induction false} OccursBack(s: string, eol: string, m: string, j: nat) returns (k: nat)
    requires (eol == LF || eol == CRLF) && m != "" && forall k | 0 <= k < |m| :: !IsBreak(m[k])
    requires Occurs(ReplaceEol(s, eol), j, m)
    ensures Occurs(s, k, m) && (k == 0 ==> j == 0)
    ensures j + |m| < |ReplaceEol(s, eol)| ==> k + |m| < |s|
    decreases |s|, 1
  {
    var r := ReplaceEol(s, eol);
    OccursAt(r, j, m, 0);
    if j == 0 {
      k := 0;
      PrefixBack(s, eol, m);
    } else {
      var skip, cut := FirstUnit(s, eol);
      if j < cut {
        assert false;
      } else {
        var i := OccursBackIn(s, eol, m, j, skip, cut);
        k := i;
      }
    }
  }

  /** How far one replacement step reads in the section and writes in the block. */
  lemma FirstUnit(s: string, eol: string) returns (skip: nat, cut: nat)
    requires (eol == LF || eol == CRLF) && s != ""
    ensures 0 < skip <= |s| && cut <= |ReplaceEol(s, eol)| && 0 < cut
    ensures ReplaceEol(s, eol)[cut..] == ReplaceEol(s[skip..], eol)
    ensures cut == 1 || (cut == 2 && eol == CRLF && ReplaceEol(s, eol)[..cut] == eol)
  {
    if s[0] == '\n' {
      skip, cut := 1, |eol|;
    } else if CrLfAt(s, 0) {
      skip, cut := 2, |eol|;
    } else {
      skip, cut := 1, 1;
    }
  }

  lemma {:induction false} OccursBackIn(s: string, eol: string, m: string, j: nat, skip: nat, cut: nat)
    returns (k: nat)
    requires (eol == LF || eol == CRLF) && m != "" && forall k | 0 <= k < |m| :: !IsBreak(m[k])
    requires Occurs(ReplaceEol(s, eol), j, m) && 0 < skip <= |s| && 0 < cut <= j
    requires cut <= |ReplaceEol(s, eol)| && ReplaceEol(s, eol)[cut..] == ReplaceEol(s[skip..], eol)
    ensures Occurs(s, k, m) && k > 0
    ensures j + |m| < |ReplaceEol(s, eol)| ==> k + |m| < |s|
    decreases |s|, 0
  {
    var r, tail := ReplaceEol(s, eol), ReplaceEol(s[skip..], eol);
    forall i | 0 <= i < |m| ensures tail[j - cut + i] == m[i] { OccursAt(r, j, m, i); }
    var i := OccursBack(s[skip..], eol, m, j - cut);
    k := i + skip;
    forall n | 0 <= n < |m| ensures s[k + n] == m[n] { OccursAt(s[skip..], i, m, n); }
  }

  lemma {:induction false} EolLength(s: string)
    ensures |ReplaceEol(s, LF)| <= |ReplaceEol(s, CRLF)|
    ensures |ReplaceEol(s, LF)| < |ReplaceEol(s, CRLF)| <==> '\n' in s
  {
    if s == "" {
    } else if CrLfAt(s, 0) {
      EolLength(s[2..]);
      assert s[1] == '\n';
    } else {
      EolLength(s[1..]);
      assert s == [s[0]] + s[1..];
    }
  }

  /** `\r\r\n`, the one text whose line ending the replacement changes by joining. */
  ghost predicate BareCrBeforeBreak(s: string) {
    exists i | 0 <= i < |s| :: s[i] == '\r' && CrLfAt(s, i + 1)
  }

  lemma {:induction false} LfBlock(s: string)
    ensures HasCrLf(ReplaceEol(s, LF)) <==> BareCrBeforeBreak(s)
  {
    var r := ReplaceEol(s, LF);
    if s == "" {
    } else if CrLfAt(s, 0) {
      LfBlock(s[2..]);
      CrLfTail(['\n'], ReplaceEol(s[2..], LF));
      BareTail(s, 2);
    } else {
      LfBlock(s[1..]);
      var tail := ReplaceEol(s[1..], LF);
      CrLfTail([s[0]], tail);
      BareTail(s, 1);
      FirstOfBlock(s[1..]);
    }
  }

  lemma CrLfTail(x: string, s: string)
    requires |x| == 1
    ensures HasCrLf(x + s) <==> HasCrLf(s) || (x[0] == '\r' && s != "" && s[0] == '\n')
  {
    var r := x + s;
    if i :| 0 <= i < |r| && CrLfAt(r, i) {
      if i > 0 { assert CrLfAt(s, i - 1); }
    }
    if i :| 0 <= i < |s| && CrLfAt(s, i) {
      assert CrLfAt(r, i + 1);
    }
    if x[0] == '\r' && s != "" && s[0] == '\n' { assert CrLfAt(r, 0); }
  }

  lemma BareTail(s: string, n: nat)
    requires 0 < n <= |s| && (n == 1 || (n == 2 && CrLfAt(s, 0)))
    ensures BareCrBeforeBreak(s) <==> BareCrBeforeBreak(s[n..]) || (n == 1 && s[0] == '\r' && CrLfAt(s[1..], 0))
  {
    if i :| 0 <= i < |s| && s[i] == '\r' && CrLfAt(s, i + 1) {
      if i >= n { assert s[n..][i - n] == '\r' && CrLfAt(s[n..], i - n + 1); }
    }
    if i :| 0 <= i < |s[n..]| && s[n..][i] == '\r' && CrLfAt(s[n..], i + 1) {
      assert s[i + n] == '\r' && CrLfAt(s, i + n + 1);
    }
    if n == 1 && s[0] == '\r' && CrLfAt(s[1..], 0) { assert CrLfAt(s, 1); }
  }

  lemma FirstOfBlock(s: string)
    ensures var r := ReplaceEol(s, LF); r != "" && r[0] == '\n' <==> s != "" && (s[0] == '\n' || CrLfAt(s, 0))
  {
  }

  /** No line feed stands alone. */
  predicate OnlyCrLf(s: string) {
    forall i | 0 <= i < |s| && s[i] == '\n' :: i > 0 && s[i - 1] == '\r'
  }

  lemma {:induction false} CrLfBlock(s: string)
    ensures OnlyCrLf(ReplaceEol(s, CRLF))
    ensures '\n' in s ==> HasCrLf(ReplaceEol(s, CRLF))
  {
    if s == "" {
    } else if s[0] == '\n' {
      CrLfBlock(s[1..]);
      assert CrLfAt(ReplaceEol(s, CRLF), 0);
    } else if CrLfAt(s, 0) {
      CrLfBlock(s[2..]);
      assert CrLfAt(ReplaceEol(s, CRLF), 0);
    } else {
      CrLfBlock(s[1..]);
      assert s == [s[0]] + s[1..];
      CrLfTail([s[0]], ReplaceEol(s[1..], CRLF));
    }
  }

  /** A text that already ends its lines that way is left alone. */
  lemma {:induction false} BlockUnchanged(s: string, eol: string)
    requires if eol == CRLF then OnlyCrLf(s) else eol == LF && !HasCrLf(s)
    ensures ReplaceEol(s, eol) == s
  {
    if s == "" {
    } else {
      assert eol == LF ==> !CrLfAt(s, 0);
      var n := if CrLfAt(s, 0) then 2 else 1;
      if eol == LF {
        forall i | 0 <= i < |s[n..]| ensures !CrLfAt(s[n..], i) { assert !CrLfAt(s, i + n); }
      } else {
        forall i | 0 <= i < |s[n..]| && s[n..][i] == '\n' ensures i > 0 && s[n..][i - 1] == '\r' {
          assert s[i + n] == '\n';
        }
      }
      BlockUnchanged(s[n..], eol);
      assert s == s[..n] + s[n..];
    }
  }

  // ---- Where a section stands ----------------------------------------------------------

  /** The markers of a section stand on their own lines. */
  predicate OwnLines(open: string, close: string, t: string) {
    LineEnds(t, |open|) && |close| < |t| && t[|t| - |close| - 1] == '\n'
  }

  lemma {:induction false} SingleCut(t: string, m: string, at: nat)
    requires Marker(m) && Cuts(t, m, 0) == 1 && Occurs(t, at, m)
    ensures forall i | 0 <= i && Occurs(t, i, m) :: i == at
  {
    var first := IndexOf(t, m, 0).value;
    assert IndexOf(t, m, first + |m|) == None;
    forall i | 0 <= i && Occurs(t, i, m) ensures i == first {
      if first < i { NoOverlap(t, m, first, i); }
    }
  }

  /** The closing marker of a section begins behind the opening one. */
  lemma MarkersApart(open: string, close: string, t: string, at: nat)
    requires Markers(open, close) && Occurs(t, 0, open) && Occurs(t, at, close)
    ensures |open| <= at
  {
    OccursAt(t, at, close, 0);
    OccursAt(t, 0, open, if at < |open| then at else 0);
    var k :| 0 <= k < |open| && k < |close| && open[k] != close[k];
    OccursAt(t, 0, open, k);
    OccursAt(t, at, close, k);
  }

  /** A block the search can find: both markers on their own lines, and no earlier closing marker. */
  ghost predicate Findable(open: string, close: string, block: string) {
    && |open| + |close| < |block| && Occurs(block, 0, open) && LineEnds(block, |open|)
    && Occurs(block, |block| - |close|, close) && block[|block| - |close| - 1] == '\n'
    && forall i | 0 <= i && Occurs(block, i, close) :: i == |block| - |close|
  }

  lemma Middle(open: string, close: string, t: string) returns (body: string)
    requires |open| + |close| <= |t| && Occurs(t, 0, open) && Occurs(t, |t| - |close|, close)
    ensures t == open + (body + close)
  {
    body := t[|open|..|t| - |close|];
    forall k | 0 <= k < |t| ensures t[k] == (open + (body + close))[k] {
      if k < |open| { OccursAt(t, 0, open, k); }
      if k >= |t| - |close| { OccursAt(t, |t| - |close|, close, k - (|t| - |close|)); }
    }
  }

  /** Behind a text that ends in a line feed the replacement starts afresh. */
  lemma {:induction false} ReplaceConcat(x: string, y: string, eol: string)
    requires x == "" || x[|x| - 1] != '\r' || y == "" || y[0] != '\n'
    ensures ReplaceEol(x + y, eol) == ReplaceEol(x, eol) + ReplaceEol(y, eol)
  {
    if x == "" {
      assert x + y == y;
    } else {
      var n := if x[0] != '\n' && CrLfAt(x, 0) then 2 else 1;
      assert CrLfAt(x + y, 0) ==> CrLfAt(x, 0);
      assert (x + y)[n..] == x[n..] + y;
      ReplaceConcat(x[n..], y, eol);
    }
  }

  lemma {:induction false} LastOfBlock(x: string, eol: string)
    requires eol == LF || eol == CRLF
    requires x != ""
    ensures var r := ReplaceEol(x, eol); r != "" && (r[|r| - 1] == '\n' <==> x[|x| - 1] == '\n')
  {
    var n := if x[0] != '\n' && CrLfAt(x, 0) then 2 else 1;
    if n == |x| {
      assert x[n..] == "";
    } else {
      LastOfBlock(x[n..], eol);
    }
  }

  lemma PlainBlock(m: string, eol: string)
    requires forall k | 0 <= k < |m| :: !IsBreak(m[k])
    ensures ReplaceEol(m, eol) == m
  {
    assert m + "" == m;
    PlainPrefix(m, "", eol);
  }

  lemma BlockOf(open: string, body: string, close: string, eol: string)
    requires Marker(open) && Marker(close)
    ensures ReplaceEol(open + (body + close), eol) == open + (ReplaceEol(body, eol) + close)
  {
    PlainPrefix(open, body + close, eol);
    ReplaceConcat(body, close, eol);
    PlainBlock(close, eol);
  }

  /** The block of a proper section between its markers. */
  lemma BlockParts(open: string, close: string, t: string, eol: string) returns (body: string)
    requires Markers(open, close) && Proper(open, close, t)
    ensures t == open + (body + close) && ReplaceEol(t, eol) == open + (ReplaceEol(body, eol) + close)
  {
    MarkersApart(open, close, t, |t| - |close|);
    body := Middle(open, close, t);
    BlockOf(open, body, close, eol);
  }

  lemma {:induction false} OnlyAt(t: string, m: string, at: nat, eol: string, place: nat)
    requires Marker(m) && (eol == LF || eol == CRLF) && Cuts(t, m, 0) == 1 && Occurs(t, at, m)
    requires (at == 0 && place == 0) || (at == |t| - |m| && place == |ReplaceEol(t, eol)| - |m|)
    ensures forall i | 0 <= i && Occurs(ReplaceEol(t, eol), i, m) :: i == place
  {
    SingleCut(t, m, at);
    forall i | 0 <= i && Occurs(ReplaceEol(t, eol), i, m) ensures i == place {
      var k := OccursBack(t, eol, m, i);
    }
  }

  lemma FindableFrom(open: string, inner: string, close: string, r: string)
    requires r == open + (inner + close) && inner != "" && inner[|inner| - 1] == '\n' && LineEnds(r, |open|)
    requires forall i | 0 <= i && Occurs(r, i, close) :: i == |r| - |close|
    ensures Findable(open, close, r)
  {
    assert r[|open| + |inner| - 1] == inner[|inner| - 1];
  }

  lemma {:induction false} BlockFindable(open: string, close: string, t: string, eol: string)
    requires Markers(open, close) && Proper(open, close, t) && OwnLines(open, close, t)
    requires eol == LF || eol == CRLF
    ensures Findable(open, close, ReplaceEol(t, eol))
  {
    var body := BlockParts(open, close, t, eol);
    BodyLines(open, body, close);
    LastOfBlock(body, eol);
    FirstBreak(body, eol, open, close);
    OnlyAt(t, close, |t| - |close|, eol, |ReplaceEol(t, eol)| - |close|);
    FindableFrom(open, ReplaceEol(body, eol), close, ReplaceEol(t, eol));
  }

  lemma BodyLines(open: string, body: string, close: string)
    requires Marker(close) && OwnLines(open, close, open + (body + close))
    ensures body != "" && LineEnds(body, 0) && body[|body| - 1] == '\n'
  {
    var t := open + (body + close);
    assert t[|open|] == (body + close)[0];
    assert |body + close| > 1 ==> t[|open| + 1] == (body + close)[1];
    assert body != "" ==> t[|t| - |close| - 1] == body[|body| - 1];
  }

  lemma FirstBreak(body: string, eol: string, open: string, close: string)
    requires body != "" && LineEnds(body, 0) && (eol == LF || eol == CRLF)
    ensures LineEnds(open + (ReplaceEol(body, eol) + close), |open|)
  {
    var r := open + (ReplaceEol(body, eol) + close);
    assert ReplaceEol(body, eol)[..|eol|] == eol;
    forall k | 0 <= k < |eol| ensures r[|open| + k] == eol[k] { assert ReplaceEol(body, eol)[k] == eol[k]; }
  }

  /** Whether a marker fills a line depends on nothing behind the next line feed. */
  lemma MarkerLocal(u: string, v: string, p: nat, i: nat, m: string)
    requires i < p <= |u| && p <= |v| && u[..p] == v[..p] && u[p - 1] == '\n'
    requires Marker(m) && MarkerAt(u, i, m)
    ensures MarkerAt(v, i, m)
  {
    assert v[p - 1] == '\n' by { assert u[..p][p - 1] == v[..p][p - 1]; }
    if p - 1 < i + |m| { OccursAt(u, i, m, p - 1 - i); }
    forall k | 0 <= k < p ensures u[k] == v[k] { assert u[..p][k] == v[..p][k]; }
    forall k | 0 <= k < |m| ensures v[i + k] == m[k] { OccursAt(u, i, m, k); }
  }

  ghost predicate EndsLine(before: string) {
    before == "" || before[|before| - 1] == '\n'
  }

  ghost predicate NoneBefore(s: string, m: string, p: nat) {
    forall i | 0 <= i < p :: !MarkerAt(s, i, m)
  }

  /** A findable block set between whole lines is the first section of the text. */
  lemma Found(open: string, close: string, before: string, block: string, after: string)
    requires Markers(open, close) && Findable(open, close, block) && EndsLine(before) && LineEnds(after, 0)
    requires NoneBefore(before, open, |before|)
    ensures Region(open, close, before + block + after) == Success(Some((|before|, |before| + |block|)))
  {
    var r := before + block + after;
    var a, b := |before|, |before| + |block|;
    forall i | 0 <= i < a ensures !MarkerAt(r, i, open) {
      if MarkerAt(r, i, open) { MarkerLocal(r, before, a, i, open); }
    }
    MarkerAtOpen(open, close, before, block, after);
    FirstMarkerIs(r, open, 0, a);
    MarkerAtClose(open, close, before, block, after);
    forall i | a + |open| <= i < b - |close| ensures !MarkerAt(r, i, close) {
      if MarkerAt(r, i, close) {
        forall k | 0 <= k < |close| ensures block[i - a + k] == close[k] { OccursAt(r, i, close, k); }
        assert Occurs(block, i - a, close);
      }
    }
    FirstMarkerIs(r, close, a + |open|, b - |close|);
  }

  lemma MarkerAtOpen(open: string, close: string, before: string, block: string, after: string)
    requires Findable(open, close, block) && EndsLine(before)
    ensures MarkerAt(before + block + after, |before|, open)
  {
    var r, a := before + block + after, |before|;
    forall k | 0 <= k < |block| ensures r[a + k] == block[k] {}
    forall k | 0 <= k < |open| ensures r[a + k] == open[k] { OccursAt(block, 0, open, k); }
  }

  lemma MarkerAtClose(open: string, close: string, before: string, block: string, after: string)
    requires Findable(open, close, block) && LineEnds(after, 0)
    ensures |open| <= |block| - |close| && MarkerAt(before + block + after, |before| + |block| - |close|, close)
  {
    var r, e := before + block + after, |before| + |block|;
    FindableLength(open, close, block);
    forall k | 0 <= k < |close| ensures r[e - |close| + k] == close[k] {
      OccursAt(block, |block| - |close|, close, k);
    }
    forall k | 0 <= k < |after| ensures r[e + k] == after[k] {}
    assert r[e - |close| - 1] == block[|block| - |close| - 1];
  }

  lemma FindableLength(open: string, close: string, block: string)
    requires Findable(open, close, block)
    ensures |open| + |close| < |block|
  {
  }

  lemma {:induction false} CrLfConcat(x: string, y: string)
    ensures HasCrLf(x + y) <==>
              HasCrLf(x) || HasCrLf(y) || (x != "" && y != "" && x[|x| - 1] == '\r' && y[0] == '\n')
  {
    var r := x + y;
    if i :| 0 <= i < |r| && CrLfAt(r, i) {
      if i + 1 < |x| { assert CrLfAt(x, i); }
      if i >= |x| { assert CrLfAt(y, i - |x|); }
    }
    if i :| 0 <= i < |x| && CrLfAt(x, i) { assert CrLfAt(r, i); }
    if i :| 0 <= i < |y| && CrLfAt(y, i) { assert CrLfAt(r, i + |x|); }
    if x != "" && y != "" && x[|x| - 1] == '\r' && y[0] == '\n' { assert CrLfAt(r, |x| - 1); }
  }

  /** The one kind of description whose line ending an append changes. */
  predicate CrTrap(open: string, body: string) {
    FirstMarker(body, open, 0) == None && body != "" && body[|body| - 1] == '\r' && !HasCrLf(body)
  }

  /** What a frame promises the block it surrounds. */
  ghost predicate Whole(open: string, body: string, before: string, after: string) {
    && EndsLine(before) && LineEnds(after, 0) && NoneBefore(before, open, |before|)
    && (!HasCrLf(body) ==> !HasCrLf(before) && !HasCrLf(after))
  }

  lemma AppendedWhole(open: string, body: string)
    requires Marker(open) && FirstMarker(body, open, 0) == None && !CrTrap(open, body)
    ensures Whole(open, body, body + Gap(body), "")
  {
    var before, gap := body + Gap(body), Gap(body);
    CrLfConcat(body, gap);
    forall i | 0 <= i < |before| ensures !MarkerAt(before, i, open) {
      if MarkerAt(before, i, open) { MarkerInBody(open, body, i); }
    }
  }

  lemma MarkerInBody(open: string, body: string, i: nat)
    requires Marker(open) && !CrTrap(open, body) && MarkerAt(body + Gap(body), i, open)
    requires FirstMarker(body, open, 0) == None
    ensures MarkerAt(body, i, open)
  {
    var before := body + Gap(body);
    OccursAt(before, i, open, 0);
    if |body| < i + |open| && i < |body| { OccursAt(before, i, open, |body| - i); }
    assert i + |open| <= |body|;
    forall k | 0 <= k < |open| ensures body[i + k] == open[k] { OccursAt(before, i, open, k); }
    assert i > 0 ==> before[i - 1] == body[i - 1];
  }

  lemma MarkedWhole(open: string, close: string, body: string, a: nat, b: nat)
    requires Markers(open, close) && Region(open, close, body) == Success(Some((a, b)))
    ensures a <= b <= |body| && Whole(open, body, body[..a], body[b..])
  {
    var before, after := body[..a], body[b..];
    forall i | 0 <= i < a ensures !MarkerAt(before, i, open) {
      if MarkerAt(before, i, open) { MarkerLocal(before, body, a, i, open); }
    }
    forall k | 0 <= k < |after| ensures after[k] == body[b + k] {}
    if !HasCrLf(body) {
      forall i | 0 <= i < |before| ensures !CrLfAt(before, i) { assert !CrLfAt(body, i); }
      forall i | 0 <= i < |after| ensures !CrLfAt(after, i) { assert b + i < |body| && !CrLfAt(body, b + i); }
    }
  }

  // ---- The lens laws -------------------------------------------------------------------

  /** A section a second splice leaves alone. */
  ghost predicate Settled(open: string, close: string, section: string) {
    var t := StripEol(section);
    OwnLines(open, close, t) && !BareCrBeforeBreak(t)
  }

  lemma FrameWhole(open: string, close: string, body: string) returns (before: string, after: string)
    requires Markers(open, close) && Frame(open, close, body).Success? && !CrTrap(open, body)
    ensures Frame(open, close, body) == Success((before, after)) && Whole(open, body, before, after)
  {
    before, after := Frame(open, close, body).value.0, Frame(open, close, body).value.1;
    match Region(open, close, body).value
    case None => AppendedWhole(open, body);
    case Some((a, b)) => MarkedWhole(open, close, body, a, b);
  }

  /** A line ending of a description survives in what surrounds the block and in the block. */
  lemma EolKept(open: string, body: string, before: string, t: string, after: string)
    requires Whole(open, body, before, after) && '\n' in t && !BareCrBeforeBreak(t)
    requires var r := ReplaceEol(t, Eol(body)); r != "" && !IsBreak(r[0]) && !IsBreak(r[|r| - 1])
    ensures Eol(before + ReplaceEol(t, Eol(body)) + after) == Eol(body)
  {
    var block := ReplaceEol(t, Eol(body));
    if HasCrLf(body) { CrLfBlock(t); } else { LfBlock(t); }
    CrLfConcat(before, block);
    CrLfConcat(before + block, after);
    assert (before + block)[|before + block| - 1] == block[|block| - 1];
  }

  lemma EndsOf(open: string, inner: string, close: string)
    requires Marker(open) && Marker(close)
    ensures var r := open + (inner + close); r != "" && !IsBreak(r[0]) && !IsBreak(r[|r| - 1])
  {
    var r := open + (inner + close);
    assert r[0] == open[0] && r[|r| - 1] == close[|close| - 1];
  }

  lemma BlockEnds(open: string, close: string, t: string, eol: string)
    requires Markers(open, close) && Proper(open, close, t)
    ensures var r := ReplaceEol(t, eol); r != "" && !IsBreak(r[0]) && !IsBreak(r[|r| - 1])
  {
    var body := BlockParts(open, close, t, eol);
    EndsOf(open, ReplaceEol(body, eol), close);
  }

  lemma OwnLinesBreak(open: string, close: string, t: string)
    requires OwnLines(open, close, t)
    ensures '\n' in t
  {
    assert t[|t| - |close| - 1] in t;
  }

  /**
   The outside of the markers is kept, and so is the line ending: what a splice returns has
   the frame of the description it was given.
   */
  lemma FrameKept(open: string, close: string, body: string, section: string)
    requires Markers(open, close) && Settled(open, close, section) && !CrTrap(open, body)
    requires Put(open, close, body, section).Success?
    ensures var r := Put(open, close, body, section).value;
      && Frame(open, close, r) == Frame(open, close, body) && Eol(r) == Eol(body)
      && exists a, b :: Region(open, close, r) == Success(Some((a, b))) && r[a..b] == ReplaceEol(StripEol(section), Eol(body))
  {
    var t, eol := StripEol(section), Eol(body);
    var before, after := FrameWhole(open, close, body);
    var block := ReplaceEol(t, eol);
    OwnLinesBreak(open, close, t);
    BlockEnds(open, close, t, eol);
    EolKept(open, body, before, t, after);
    BlockFindable(open, close, t, eol);
    Found(open, close, before, block, after);
    Surrounded(before, block, after);
  }

  lemma Surrounded(before: string, block: string, after: string)
    ensures var r := before + block + after; var a, b := |before|, |before| + |block|;
      r[..a] == before && r[a..b] == block && r[b..] == after
  {
  }

  /** No text outside the markers is touched, whatever the section and the line endings are. */
  lemma OutsideKept(body: string, section: string)
    requires Splice(body, section).Success?
    ensures var r := Splice(body, section).value;
      match Region(SECTION_START, SECTION_END, body).value
      case None => body <= r
      case Some((a, b)) =>
        a <= b <= |body| && a + (|body| - b) <= |r| && r[..a] == body[..a] && r[|r| - (|body| - b)..] == body[b..]
  {
    var before, after := Frame(SECTION_START, SECTION_END, body).value.0, Frame(SECTION_START, SECTION_END, body).value.1;
    Surrounded(before, ReplaceEol(StripEol(section), Eol(body)), after);
  }

  /** Splicing one section and then another is splicing the other. */
  lemma LastSpliceWins(body: string, section: string, other: string)
    requires Settled(SECTION_START, SECTION_END, section) && !CrTrap(SECTION_START, body)
    requires Splice(body, section).Success?
    ensures Splice(Splice(body, section).value, other) == Splice(body, other)
  {
    SectionMarkers();
    FrameKept(SECTION_START, SECTION_END, body, section);
  }

  /** What a splice put in is what stands in the description, in its line endings. */
  lemma SpliceIsRead(body: string, section: string) returns (a: nat, b: nat)
    requires Settled(SECTION_START, SECTION_END, section) && !CrTrap(SECTION_START, body)
    requires Splice(body, section).Success?
    ensures var r := Splice(body, section).value;
      && a <= b <= |r| && Region(SECTION_START, SECTION_END, r) == Success(Some((a, b)))
      && r[a..b] == ReplaceEol(StripEol(section), Eol(body))
  {
    SectionMarkers();
    FrameKept(SECTION_START, SECTION_END, body, section);
    a, b := Region(SECTION_START, SECTION_END, Splice(body, section).value).value.value.0,
            Region(SECTION_START, SECTION_END, Splice(body, section).value).value.value.1;
  }

  /** A splice that changes nothing put back the very section that stood there. */
  lemma PutSame(open: string, close: string, body: string, section: string) returns (a: nat, b: nat)
    requires Markers(open, close) && Put(open, close, body, section) == Success(body)
    ensures Region(open, close, body) == Success(Some((a, b))) && a <= b <= |body|
    ensures body[a..b] == ReplaceEol(StripEol(section), Eol(body))
  {
    BlockEnds(open, close, StripEol(section), Eol(body));
    var block := ReplaceEol(StripEol(section), Eol(body));
    var found := Region(open, close, body).value.GetOr((0, 0));
    a, b := found.0, found.1;
    if Region(open, close, body).value.Some? {
      Surrounded(body[..a], block, body[b..]);
      assert |body[..a] + block + body[b..]| == |body|;
    }
  }

  /** In the trap the section found after an append holds a line feed on its own. */
  lemma TrapRegion(open: string, close: string, body: string, block: string, a: nat, b: nat) returns (q: nat)
    requires Markers(open, close) && CrTrap(open, body) && Findable(open, close, block)
    requires forall i | 0 <= i && Occurs(block, i, open) :: i == 0
    requires !CrLfAt(block, |open|)
    requires Region(open, close, body + "\n\n" + block) == Success(Some((a, b)))
    ensures a < q < b <= |body| + 2 + |block|
    ensures (body + "\n\n" + block)[q] == '\n' && (body + "\n\n" + block)[q - 1] != '\r'
  {
    var p := |body| + 2;
    var r := body + "\n\n" + block;
    TrapOpen(open, body, block, a);
    if a == p {
      q := a + |open|;
      assert r[q] == block[|open|];
      OccursAt(r, a, open, |open| - 1);
    } else {
      q := |body| + 1;
      if b - |close| <= q { OccursAt(r, b - |close|, close, q - (b - |close|)); }
    }
  }

  lemma TrapOpen(open: string, body: string, block: string, a: nat)
    requires Marker(open) && CrTrap(open, body) && MarkerAt(body + "\n\n" + block, a, open)
    requires forall i | 0 <= i && Occurs(block, i, open) :: i == 0
    ensures a == |body| + 2 || a + |open| + 1 == |body|
  {
    var r, p := body + "\n\n" + block, |body| + 2;
    OccursAt(r, a, open, 0);
    if a >= p {
      forall k | 0 <= k < |open| ensures block[a - p + k] == open[k] { OccursAt(r, a, open, k); }
      assert Occurs(block, a - p, open);
    } else {
      if |body| < a + |open| { OccursAt(r, a, open, |body| - a); }
      forall k | 0 <= k < |open| ensures body[a + k] == open[k] { OccursAt(r, a, open, k); }
      assert a > 0 ==> body[a - 1] == r[a - 1];
      assert !MarkerAt(body, a, open);
    }
  }

  lemma BareInside(r: string, a: nat, b: nat, q: nat)
    requires a < q < b <= |r| && r[q] == '\n' && r[q - 1] != '\r'
    ensures !OnlyCrLf(r[a..b])
  {
    assert r[a..b][q - a] == r[q] && r[a..b][q - a - 1] == r[q - 1];
  }

  lemma TrapTwice(open: string, close: string, body: string, section: string)
    requires Markers(open, close) && Settled(open, close, section) && CrTrap(open, body)
    requires Put(open, close, body, section).Success?
    ensures var r := Put(open, close, body, section).value; Put(open, close, r, section) != Success(r)
  {
    var t := StripEol(section);
    var block := ReplaceEol(t, LF);
    var r := body + "\n\n" + block;
    assert (body + Gap(body)) + block + "" == r;
    CrLfConcat(body, "\n\n");
    CrLfConcat(body + "\n\n", block);
    if Put(open, close, r, section) == Success(r) {
      var a, b := PutSame(open, close, r, section);
      BlockFindable(open, close, t, LF);
      OnlyAt(t, open, 0, LF, 0);
      LfBlock(t);
      var q := TrapRegion(open, close, body, block, a, b);
      BareInside(r, a, b, q);
      CrLfBlock(t);
    }
  }

  /** For a settled section a second splice changes nothing, exactly outside the trap. */
  lemma SecondSpliceExactly(body: string, section: string)
    requires Settled(SECTION_START, SECTION_END, section) && Splice(body, section).Success?
    ensures Splice(Splice(body, section).value, section) == Splice(body, section) <==> !CrTrap(SECTION_START, body)
  {
    SectionMarkers();
    if CrTrap(SECTION_START, body) {
      TrapTwice(SECTION_START, SECTION_END, body, section);
    } else {
      FrameKept(SECTION_START, SECTION_END, body, section);
    }
  }

  /** For a settled section a splice keeps the frame and the line ending exactly outside the trap. */
  lemma FrameKeptExactly(body: string, section: string)
    requires Settled(SECTION_START, SECTION_END, section) && Splice(body, section).Success?
    ensures var r := Splice(body, section).value;
      (Frame(SECTION_START, SECTION_END, r) == Frame(SECTION_START, SECTION_END, body) && Eol(r) == Eol(body))
      <==> !CrTrap(SECTION_START, body)
  {
    SectionMarkers();
    if CrTrap(SECTION_START, body) {
      assert CrLfAt(Splice(body, section).value, |body| - 1);
    } else {
      FrameKept(SECTION_START, SECTION_END, body, section);
    }
  }

  /** For a settled section the last splice wins, whatever comes last, exactly outside the trap. */
  lemma LastSpliceWinsExactly(body: string, section: string)
    requires Settled(SECTION_START, SECTION_END, section) && Splice(body, section).Success?
    ensures (forall other :: Splice(Splice(body, section).value, other) == Splice(body, other))
            <==> !CrTrap(SECTION_START, body)
  {
    hide Splice, CrTrap, Settled;
    SecondSpliceExactly(body, section);
    if !CrTrap(SECTION_START, body) {
      forall other ensures Splice(Splice(body, section).value, other) == Splice(body, other) {
        LastSpliceWins(body, section, other);
      }
    }
  }

  /** The law holds for all descriptions outside the trap exactly when the section is settled. */
  lemma LastSpliceNeedsSettled(section: string)
    requires Proper(SECTION_START, SECTION_END, StripEol(section))
    ensures (forall body, other | Splice(body, section).Success? && !CrTrap(SECTION_START, body) ::
               Splice(Splice(body, section).value, other) == Splice(body, other))
            <==> Settled(SECTION_START, SECTION_END, section)
  {
    assert !CrTrap(SECTION_START, "");
    hide Splice, CrTrap, Settled;
    SettledExactly(section);
    if Settled(SECTION_START, SECTION_END, section) {
      forall body, other | Splice(body, section).Success? && !CrTrap(SECTION_START, body)
        ensures Splice(Splice(body, section).value, other) == Splice(body, other)
      {
        LastSpliceWins(body, section, other);
      }
    }
  }

  /** The section found in a description is this block. */
  ghost predicate Reads(open: string, close: string, r: string, block: string) {
    exists a, b :: 0 <= a <= b <= |r| && Region(open, close, r) == Success(Some((a, b))) && r[a..b] == block
  }

  /** The last line of the description is the opening marker and a carriage return. */
  predicate OpenTrap(open: string, body: string) {
    CrTrap(open, body) && FirstMarker(body + "\n\n", open, 0).Some?
  }

  lemma TrapReads(open: string, close: string, body: string, section: string)
    requires Markers(open, close) && Settled(open, close, section) && CrTrap(open, body)
    requires Put(open, close, body, section).Success?
    ensures Reads(open, close, Put(open, close, body, section).value, ReplaceEol(StripEol(section), LF))
            <==> !OpenTrap(open, body)
  {
    var t := StripEol(section);
    var block, before := ReplaceEol(t, LF), body + "\n\n";
    var r := before + block + "";
    assert before == body + Gap(body) && Put(open, close, body, section).value == r;
    BlockFindable(open, close, t, LF);
    if OpenTrap(open, body) {
      OnlyAt(t, open, 0, LF, 0);
      LfBlock(t);
      OpenTrapReads(open, close, body, block);
    } else {
      Found(open, close, before, block, "");
      Surrounded(before, block, "");
    }
  }

  lemma OpenTrapReads(open: string, close: string, body: string, block: string)
    requires Markers(open, close) && OpenTrap(open, body) && Findable(open, close, block) && !HasCrLf(block)
    requires forall i | 0 <= i && Occurs(block, i, open) :: i == 0
    ensures !Reads(open, close, body + "\n\n" + block + "", block)
  {
    var before, r := body + "\n\n", body + "\n\n" + block;
    assert r + "" == r;
    var i := FirstMarker(before, open, 0).value;
    MarkerLocal(before, r, |before|, i, open);
    if Reads(open, close, r, block) {
      var a, b :| 0 <= a <= b <= |r| && Region(open, close, r) == Success(Some((a, b))) && r[a..b] == block;
      RegionMarkers(open, close, r, a, b);
      assert a <= i;
      hide Region, FirstMarker;
      TrapOpen(open, body, block, a);
      TrapLine(open, body, block, a, b);
    }
  }

  lemma TrapLine(open: string, body: string, block: string, a: nat, b: nat)
    requires 0 < |open| < |block| && body != "" && body[|body| - 1] == '\r' && a + |open| + 1 == |body|
    requires a <= b <= |body| + 2 + |block| && (body + "\n\n" + block)[a..b] == block
    ensures LineEnds(block, |open|) ==> HasCrLf(block)
  {
    var r := body + "\n\n" + block;
    assert r[a..b][|open|] == r[a + |open|] == '\r';
    if LineEnds(block, |open|) { assert CrLfAt(block, |open|); }
  }

  /** The section just spliced in is the one that is read, exactly unless the last line was a marker with a carriage return. */
  lemma SpliceIsReadExactly(body: string, section: string)
    requires Settled(SECTION_START, SECTION_END, section) && Splice(body, section).Success?
    ensures Reads(SECTION_START, SECTION_END, Splice(body, section).value, ReplaceEol(StripEol(section), Eol(body)))
            <==> !OpenTrap(SECTION_START, body)
  {
    SectionMarkers();
    if CrTrap(SECTION_START, body) {
      TrapReads(SECTION_START, SECTION_END, body, section);
    } else {
      var a, b := SpliceIsRead(body, section);
    }
  }

  lemma BareCrBreak(t: string)
    requires BareCrBeforeBreak(t)
    ensures '\n' in t
  {
    var i :| 0 <= i < |t| && t[i] == '\r' && CrLfAt(t, i + 1);
    assert t[i + 2] in t;
  }

  /** The markers of a block found whole in its own text stood on their own lines in the section. */
  lemma OwnLinesBack(open: string, body: string, close: string)
    requires Marker(open) && Marker(close)
    requires var r := open + (ReplaceEol(body, LF) + close);
      && LineEnds(r, |open|) && !HasCrLf(r) && r[|r| - |close| - 1] == '\n'
    ensures OwnLines(open, close, open + (body + close))
  {
    var inner, t := ReplaceEol(body, LF), open + (body + close);
    var r := open + (inner + close);
    assert !CrLfAt(r, |open|);
    assert r[|open|] == (inner + close)[0];
    assert inner != "";
    assert r[|r| - |close| - 1] == inner[|inner| - 1];
    FirstOfBlock(body);
    LastOfBlock(body, LF);
    assert t[|open|] == body[0] && t[|t| - |close| - 1] == body[|body| - 1];
    assert |body| > 1 ==> t[|open| + 1] == body[1];
  }

  /** A block that a splice finds unchanged has no CRLF: the other line ending would make it longer. */
  lemma SameLength(t: string, r: string, a: nat, b: nat)
    requires r == ReplaceEol(t, LF) && a <= b <= |r| && r[a..b] == ReplaceEol(t, Eol(r))
    ensures !BareCrBeforeBreak(t) && !HasCrLf(r)
  {
    EolLength(t);
    LfBlock(t);
    if BareCrBeforeBreak(t) { BareCrBreak(t); }
  }

  lemma OwnLinesFound(open: string, close: string, t: string, r: string, a: nat, b: nat)
    requires Markers(open, close) && Proper(open, close, t) && r == ReplaceEol(t, LF) && !HasCrLf(r)
    requires MarkerAt(r, a, open) && MarkerAt(r, b, close)
    ensures OwnLines(open, close, t)
  {
    hide ReplaceEol, HasCrLf, OwnLines, Cuts;
    var body := BlockParts(open, close, t, LF);
    OnlyAt(t, open, 0, LF, 0);
    OnlyAt(t, close, |t| - |close|, LF, |r| - |close|);
    OwnLinesBack(open, body, close);
  }

  lemma RegionMarkers(open: string, close: string, r: string, a: nat, b: nat)
    requires Region(open, close, r) == Success(Some((a, b)))
    ensures a <= b <= |r| && |close| <= b && MarkerAt(r, a, open) && MarkerAt(r, b - |close|, close)
  {
  }

  lemma RegionSettled(open: string, close: string, t: string, r: string, a: nat, b: nat)
    requires Markers(open, close) && Proper(open, close, t) && r == ReplaceEol(t, LF)
    requires Region(open, close, r) == Success(Some((a, b))) && a <= b <= |r|
    requires r[a..b] == ReplaceEol(t, Eol(r))
    ensures OwnLines(open, close, t) && !BareCrBeforeBreak(t)
  {
    SameLength(t, r, a, b);
    RegionMarkers(open, close, r, a, b);
    OwnLinesFound(open, close, t, r, a, b - |close|);
  }

  lemma SettledBack(open: string, close: string, section: string, r: string)
    requires Markers(open, close) && Proper(open, close, StripEol(section)) && r == ReplaceEol(StripEol(section), LF)
    requires Put(open, close, r, section) == Success(r)
    ensures Settled(open, close, section)
  {
    var a, b := PutSame(open, close, r, section);
    RegionSettled(open, close, StripEol(section), r, a, b);
  }

  /**
   Whether a section is settled can be tried on the empty description: splicing it twice there
   is splicing it once exactly when it is.
   */
  lemma SettledExactly(section: string)
    requires Proper(SECTION_START, SECTION_END, StripEol(section))
    ensures Splice("", section).Success?
    ensures Splice(Splice("", section).value, section) == Splice("", section)
            <==> Settled(SECTION_START, SECTION_END, section)
  {
    SectionMarkers();
    var block := ReplaceEol(StripEol(section), LF);
    assert "" + Gap("") + block + "" == block;
    if Settled(SECTION_START, SECTION_END, section) {
      FrameKept(SECTION_START, SECTION_END, "", section);
    }
    if Splice(block, section) == Success(block) {
      SettledBack(SECTION_START, SECTION_END, section, block);
    }
  }

  /** Splicing in what already stands there changes nothing, exactly when its line endings agree. */
  lemma SpliceReadBack(body: string, a: nat, b: nat)
    requires Region(SECTION_START, SECTION_END, body) == Success(Some((a, b)))
    ensures a <= b <= |body|
    ensures Proper(SECTION_START, SECTION_END, body[a..b]) ==>
              (Splice(body, body[a..b]) == Success(body) <==> (HasCrLf(body) ==> OnlyCrLf(body[a..b])))
  {
    SectionMarkers();
    MarkedWhole(SECTION_START, SECTION_END, body, a, b);
    if Proper(SECTION_START, SECTION_END, body[a..b]) {
      PutReadBack(SECTION_START, SECTION_END, body, a, b);
    }
  }

  /** What the replacement makes of a stretch of the text whose line ending it takes. */
  lemma StretchUnchanged(body: string, a: nat, b: nat)
    requires a <= b <= |body|
    ensures ReplaceEol(body[a..b], Eol(body)) == body[a..b] <==> (HasCrLf(body) ==> OnlyCrLf(body[a..b]))
  {
    var x := body[a..b];
    if HasCrLf(body) {
      CrLfBlock(x);
      if OnlyCrLf(x) { BlockUnchanged(x, CRLF); }
    } else {
      forall i | 0 <= i < |x| ensures !CrLfAt(x, i) { assert !CrLfAt(body, a + i); }
      BlockUnchanged(x, LF);
    }
  }

  lemma StripSection(close: string, x: string)
    requires Marker(close) && |close| <= |x| && Occurs(x, |x| - |close|, close)
    ensures StripEol(x) == x
  {
    OccursAt(x, |x| - |close|, close, |close| - 1);
  }

  lemma PutFound(open: string, close: string, body: string, section: string, a: nat, b: nat)
    requires Region(open, close, body) == Success(Some((a, b))) && a <= b <= |body|
    requires open != "" && close != "" && Proper(open, close, StripEol(section))
    ensures Put(open, close, body, section) ==
            Success(body[..a] + ReplaceEol(StripEol(section), Eol(body)) + body[b..])
  {
  }

  lemma SameStretch(body: string, a: nat, b: nat, block: string)
    requires a <= b <= |body|
    ensures body[..a] + block + body[b..] == body <==> block == body[a..b]
  {
    Surrounded(body[..a], block, body[b..]);
    assert body == body[..a] + body[a..b] + body[b..];
    assert |body[..a] + block + body[b..]| == |body| ==> a + |block| == b;
  }

  lemma PutReadBack(open: string, close: string, body: string, a: nat, b: nat)
    requires Markers(open, close) && Region(open, close, body) == Success(Some((a, b)))
    requires a <= b <= |body| && Proper(open, close, body[a..b])
    ensures Put(open, close, body, body[a..b]) == Success(body) <==> (HasCrLf(body) ==> OnlyCrLf(body[a..b]))
  {
    StripSection(close, body[a..b]);
    StretchUnchanged(body, a, b);
    PutFound(open, close, body, body[a..b], a, b);
    SameStretch(body, a, b, ReplaceEol(body[a..b], Eol(body)));
  }
}
