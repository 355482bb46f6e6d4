/**
 Where in a JSON text a quoted value behind a name and a colon can stand, and what putting other
 characters there makes of the text: the same tree with one string in it changed.
 */
module JsonHoles {
  import opened Occurrences
  import opened JsonScanner
  import opened JsonGrammar

  /** An atom of the RFC: a literal name or a number. */
  ghost predicate StrictAtom(text: Text) {
    text in LITERALS || exists n: Numeral :: n.Valid() && n.Print() == text
  }

  /** The grammar of the RFC, and no repeated name. */
  ghost predicate Strict(t: Tree) {
    match t
    case Atom(text) => StrictAtom(text)
    case Str(ps) => ValidPieces(ps)
    case Loose(_) => false
    case Arr(blank, es) => Blank(blank) && forall i | 0 <= i < |es| :: StrictElement(es[i])
    case Obj(blank, es) =>
      && Blank(blank) && (forall i | 0 <= i < |es| :: StrictEntry(es[i]))
      && forall i, j | 0 <= i < j < |es| :: Name(es[i].name) != Name(es[j].name)
  }

  ghost predicate StrictElement(e: Element) {
    Blank(e.before) && Blank(e.after) && Strict(e.value)
  }

  ghost predicate StrictEntry(e: Entry) {
    && ValidPieces(e.name) && Blank(e.before) && Blank(e.beforeColon) && Blank(e.beforeValue) && Blank(e.after)
    && Strict(e.value)
  }

  lemma {:induction false} NumbersHaveNoQuote(n: Numeral)
    requires n.Valid()
    ensures QUOTE !in n.Print()
  {
  }

  lemma AtomsHaveNoQuote(text: Text)
    requires StrictAtom(text)
    ensures QUOTE !in text
  {
    if text !in LITERALS {
      var n: Numeral :| n.Valid() && n.Print() == text;
      NumbersHaveNoQuote(n);
    }
  }

  /** The RFC's texts are among those the scanner passes, so it accepts every JSON text without repeated names. */
  lemma {:induction false} StrictIsValid(t: Tree)
    requires Strict(t)
    ensures Valid(t) && DistinctNames(t)
  {
    match t
    case Atom(text) =>
      if text !in LITERALS {
        var n: Numeral :| n.Valid() && n.Print() == text;
        NumbersAreAtoms(n);
      } else {
        var k :| 0 <= k < |LITERALS| && LITERALS[k] == text;
        LiteralsAreAtoms(k);
      }
    case Str(_) =>
    case Arr(_, es) =>
      forall i | 0 <= i < |es| ensures Valid(es[i].value) && DistinctNames(es[i].value) {
        assert StrictElement(es[i]);
        StrictIsValid(es[i].value);
      }
    case Obj(_, es) =>
      forall i | 0 <= i < |es| ensures Valid(es[i].value) && DistinctNames(es[i].value) {
        assert StrictEntry(es[i]);
        StrictIsValid(es[i].value);
      }
  }

  // ---- The text around one value ---------------------------------------------------------

  /** The entries from number `n` on, up to the value of entry `k`. */
  function UpTo(es: seq<Entry>, n: nat, k: nat): Text
    requires n <= k < |es|
    decreases k - n
  {
    if n == k then Label(es[k]) + es[k].beforeValue else PrintEntry(es[n]) + [COMMA] + UpTo(es, n + 1, k)
  }

  /** What follows the value of entry `k`. */
  function Behind(es: seq<Entry>, k: nat): Text
    requires k < |es|
  {
    es[k].after + if k + 1 == |es| then [RBRACE] else [COMMA] + PrintEntries(es, k + 1)
  }

  function WithValue(es: seq<Entry>, k: nat, v: Tree): seq<Entry>
    requires k < |es|
  {
    es[k := es[k].(value := v)]
  }

  lemma EntryParts(e: Entry)
    ensures PrintEntry(e) == Label(e) + e.beforeValue + Print(e.value) + e.after
  {
  }

  lemma {:induction false} SplitEntries(es: seq<Entry>, n: nat, k: nat)
    requires n <= k < |es|
    ensures PrintEntries(es, n) == UpTo(es, n, k) + Print(es[k].value) + Behind(es, k)
    decreases k - n
  {
    hide Print, Label, PrintEntry;
    if n == k {
      EntryParts(es[k]);
    } else {
      SplitEntries(es, n + 1, k);
      var head := PrintEntry(es[n]) + [COMMA];
      assert PrintEntries(es, n) == head + PrintEntries(es, n + 1);
      assert UpTo(es, n, k) == head + UpTo(es, n + 1, k);
    }
  }

  lemma {:induction false} SameEntries(es: seq<Entry>, fs: seq<Entry>, n: nat)
    requires n < |es| == |fs| && es[n..] == fs[n..]
    ensures PrintEntries(es, n) == PrintEntries(fs, n)
    decreases |es| - n
  {
    assert es[n] == es[n..][0] == fs[n..][0] == fs[n];
    if n + 1 < |es| {
      assert es[n + 1..] == es[n..][1..] == fs[n..][1..] == fs[n + 1..];
      SameEntries(es, fs, n + 1);
    }
  }

  lemma {:induction false} SameUpTo(es: seq<Entry>, n: nat, k: nat, v: Tree)
    requires n <= k < |es|
    ensures UpTo(WithValue(es, k, v), n, k) == UpTo(es, n, k)
    decreases k - n
  {
    if n < k { SameUpTo(es, n + 1, k, v); }
  }

  /** Another value of one member leaves the text around it as it is. */
  lemma Revalued(es: seq<Entry>, k: nat, v: Tree)
    requires k < |es|
    ensures PrintEntries(WithValue(es, k, v), 0) == UpTo(es, 0, k) + Print(v) + Behind(es, k)
  {
    var fs := WithValue(es, k, v);
    SplitEntries(fs, 0, k);
    SameUpTo(es, 0, k, v);
    if k + 1 < |es| { SameEntries(es, fs, k + 1); }
  }

  /** The elements from number `n` on, up to the value of element `k`. */
  function UpToElement(es: seq<Element>, n: nat, k: nat): Text
    requires n <= k < |es|
    decreases k - n
  {
    if n == k then es[k].before else PrintElement(es[n]) + [COMMA] + UpToElement(es, n + 1, k)
  }

  function BehindElement(es: seq<Element>, k: nat): Text
    requires k < |es|
  {
    es[k].after + if k + 1 == |es| then [RBRACKET] else [COMMA] + PrintElements(es, k + 1)
  }

  function WithElement(es: seq<Element>, k: nat, v: Tree): seq<Element>
    requires k < |es|
  {
    es[k := es[k].(value := v)]
  }

  lemma {:induction false} SplitElements(es: seq<Element>, n: nat, k: nat)
    requires n <= k < |es|
    ensures PrintElements(es, n) == UpToElement(es, n, k) + Print(es[k].value) + BehindElement(es, k)
    decreases k - n
  {
    if n < k {
      SplitElements(es, n + 1, k);
      var head := PrintElement(es[n]) + [COMMA];
      assert PrintElements(es, n) == head + PrintElements(es, n + 1);
      assert UpToElement(es, n, k) == head + UpToElement(es, n + 1, k);
    }
  }

  lemma {:induction false} SameElements(es: seq<Element>, fs: seq<Element>, n: nat)
    requires n < |es| == |fs| && es[n..] == fs[n..]
    ensures PrintElements(es, n) == PrintElements(fs, n)
    decreases |es| - n
  {
    assert es[n] == es[n..][0] == fs[n..][0] == fs[n];
    if n + 1 < |es| {
      assert es[n + 1..] == es[n..][1..] == fs[n..][1..] == fs[n + 1..];
      SameElements(es, fs, n + 1);
    }
  }

  lemma {:induction false} SameUpToElement(es: seq<Element>, n: nat, k: nat, v: Tree)
    requires n <= k < |es|
    ensures UpToElement(WithElement(es, k, v), n, k) == UpToElement(es, n, k)
    decreases k - n
  {
    if n < k { SameUpToElement(es, n + 1, k, v); }
  }

  lemma RevaluedElement(es: seq<Element>, k: nat, v: Tree)
    requires k < |es|
    ensures PrintElements(WithElement(es, k, v), 0) == UpToElement(es, 0, k) + Print(v) + BehindElement(es, k)
  {
    var fs := WithElement(es, k, v);
    SplitElements(fs, 0, k);
    SameUpToElement(es, 0, k, v);
    if k + 1 < |es| { SameElements(es, fs, k + 1); }
  }

  // ---- A quoted value behind a name ------------------------------------------------------

  /** What the last character of a name may be: nothing that can precede a string. */
  predicate NameUnit(u: CodeUnit) {
    !IsSpace(u) && u != COLON && u != COMMA && u != LBRACE && u != LBRACKET && u != QUOTE && u != BACKSLASH
  }

  /** The quoted text from `a` to `b`, with white space and colons between it and the quote at `q`. */
  ghost predicate Held(u: Text, q: nat, a: nat, b: nat) {
    && 0 < q && q + 2 < a <= b < |u|
    && NameUnit(u[q - 1]) && u[q] == QUOTE && u[a - 1] == QUOTE && u[b] == QUOTE
    && (forall p | q < p < a - 1 :: IsSpace(u[p]) || u[p] == COLON)
    && forall p | a <= p < b :: u[p] != QUOTE && u[p] != BACKSLASH
  }

  /** A quote inside a printed string is escaped. */
  lemma {:induction false} QuoteIsEscaped(ps: seq<Piece>, k: nat, j: nat)
    requires ValidPieces(ps) && k <= |ps| && j < |PrintPieces(ps, k)| && PrintPieces(ps, k)[j] == QUOTE
    ensures 0 < j && PrintPieces(ps, k)[j - 1] == BACKSLASH
    decreases |ps| - k
  {
    var head := ps[k].Print();
    assert PrintPieces(ps, k) == head + PrintPieces(ps, k + 1);
    if j >= |head| { QuoteIsEscaped(ps, k + 1, j - |head|); }
  }

  lemma EscapedIn(u: Text, r: nat, ps: seq<Piece>, j: nat)
    requires ValidPieces(ps) && Occurs(u, r, Quoted(ps)) && r < j < r + |Quoted(ps)| - 1 && u[j] == QUOTE
    ensures j - 1 > r && u[j - 1] == BACKSLASH
  {
    QuotedParts(u, r, PrintPieces(ps, 0));
    OccursAt(u, r + 1, PrintPieces(ps, 0), j - r - 1);
    QuoteIsEscaped(ps, 0, j - r - 1);
    OccursAt(u, r + 1, PrintPieces(ps, 0), j - r - 2);
  }

  /** A quoted value that begins inside a string token begins with it, and ends with it. */
  lemma StringQuote(u: Text, r: nat, ps: seq<Piece>, q: nat, a: nat, b: nat)
    requires Held(u, q, a, b) && ValidPieces(ps) && Occurs(u, r, Quoted(ps))
    requires 0 < r <= a - 1 < r + |Quoted(ps)| && !NameUnit(u[r - 1])
    ensures a - 1 == r && b == r + |Quoted(ps)| - 1
  {
    var end := r + |Quoted(ps)| - 1;
    OccursAt(u, r, Quoted(ps), 0);
    OccursAt(u, r, Quoted(ps), end - r);
    if r < a - 1 {
      assert IsSpace(u[a - 2]) || u[a - 2] == COLON;
      if a - 1 < end { EscapedIn(u, r, ps, a - 1); }
      assert q < r || q == r || r < q;
      if r < q { EscapedIn(u, r, ps, q); }
      assert false;
    }
    if b < end { EscapedIn(u, r, ps, b); }
  }

  /** A quoted value is no name: it does not follow a separator. */
  lemma NotAName(u: Text, r: nat, w: Text, q: nat, a: nat, b: nat)
    requires Held(u, q, a, b) && Blank(w) && |w| < r && Occurs(u, r - |w|, w)
    requires u[r - |w| - 1] in {COMMA, LBRACE}
    ensures a - 1 != r
  {
    if a - 1 == r {
      var z := r - |w| - 1;
      if z < q { OccursAt(u, r - |w|, w, q - z - 1); }
      assert false;
    }
  }

  lemma NotBlank(u: Text, i: nat, w: Text, j: nat)
    requires Blank(w) && Occurs(u, i, w) && i <= j < i + |w|
    ensures u[j] != QUOTE && !NameUnit(u[j])
  {
    OccursAt(u, i, w, j - i);
  }

  // ---- Filling in another string ---------------------------------------------------------

  predicate Unescaped(w: Text) {
    forall i | 0 <= i < |w| :: w[i] >= 0x20 && w[i] != QUOTE && w[i] != BACKSLASH
  }

  function Raws(w: Text): (r: seq<Piece>)
    requires Unescaped(w)
    ensures |r| == |w| && ValidPieces(r) && Name(r) == w
  {
    seq(|w|, i requires 0 <= i < |w| => Raw(w[i]))
  }

  lemma {:induction false} RawPrint(w: Text, k: nat)
    requires Unescaped(w) && k <= |w|
    ensures PrintPieces(Raws(w), k) == w[k..]
    decreases |w| - k
  {
    if k < |w| { RawPrint(w, k + 1); }
  }

  /** `y` is `x`, which stands at `p`, with `w` in place of the text from `a` to `b`. */
  ghost predicate Refilled(x: Tree, y: Tree, p: nat, a: nat, b: nat, w: Text) {
    && Strict(y) && p < a <= b < p + |Print(x)|
    && Print(y) == Print(x)[..a - p] + w + Print(x)[b - p..]
    && (x.Str? ==> a == p + 1 && y.Str? && ValidPieces(y.pieces) && Name(y.pieces) == w)
  }

  /** A change inside one part of a text is a change of the text. */
  lemma Around(before: Text, x: Text, after: Text, c: nat, d: nat, y: Text, w: Text)
    requires c <= d <= |x| && y == x[..c] + w + x[d..]
    ensures var s, n := before + x + after, |before|; before + y + after == s[..n + c] + w + s[n + d..]
  {
    var s, n := before + x + after, |before|;
    assert s[..n + c] == before + x[..c];
    assert s[n + d..] == x[d..] + after;
  }

  lemma AroundAt(p: nat, before: Text, x: Text, after: Text, a: nat, b: nat, y: Text, w: Text)
    requires p + |before| <= a <= b <= p + |before| + |x|
    requires y == x[..a - (p + |before|)] + w + x[b - (p + |before|)..]
    ensures var s := before + x + after; before + y + after == s[..a - p] + w + s[b - p..]
  {
    var at := p + |before|;
    Around(before, x, after, a - at, b - at, y, w);
    assert a - p == |before| + (a - at) && b - p == |before| + (b - at);
  }

  lemma RefilledAround(x: Tree, y: Tree, p: nat, head: Text, part: Tree, v: Tree, tail: Text, a: nat, b: nat, w: Text)
    requires !x.Str? && Strict(y) && Refilled(part, v, p + |head|, a, b, w)
    requires Print(x) == head + Print(part) + tail && Print(y) == head + Print(v) + tail
    ensures Refilled(x, y, p, a, b, w)
  {
    hide Print, Strict, Name, ValidPieces;
    AroundAt(p, head, Print(part), tail, a, b, Print(v), w);
    assert |Print(x)| == |head| + |Print(part)| + |tail|;
  }

  lemma StrictWithElement(blank: Text, es: seq<Element>, k: nat, v: Tree)
    requires Strict(Arr(blank, es)) && k < |es| && Strict(v)
    ensures Strict(Arr(blank, WithElement(es, k, v)))
  {
    var fs := WithElement(es, k, v);
    forall i | 0 <= i < |fs| ensures StrictElement(fs[i]) { assert StrictElement(es[i]); }
  }

  lemma StrictWithValue(blank: Text, es: seq<Entry>, k: nat, v: Tree)
    requires Strict(Obj(blank, es)) && k < |es| && Strict(v)
    ensures Strict(Obj(blank, WithValue(es, k, v)))
  {
    var fs := WithValue(es, k, v);
    forall i | 0 <= i < |fs| ensures StrictEntry(fs[i]) && fs[i].name == es[i].name { assert StrictEntry(es[i]); }
  }

  /** The text of an array around one element's value. */
  lemma ArrayAround(blank: Text, es: seq<Element>, k: nat, v: Tree)
    requires k < |es|
    ensures var head, tail := [LBRACKET] + UpToElement(es, 0, k), BehindElement(es, k);
      && Print(Arr(blank, es)) == head + Print(es[k].value) + tail
      && Print(Arr(blank, WithElement(es, k, v))) == head + Print(v) + tail
  {
    hide PrintElements, UpToElement, BehindElement;
    SplitElements(es, 0, k);
    RevaluedElement(es, k, v);
  }

  lemma ObjectAround(blank: Text, es: seq<Entry>, k: nat, v: Tree)
    requires k < |es|
    ensures var head, tail := [LBRACE] + UpTo(es, 0, k), Behind(es, k);
      && Print(Obj(blank, es)) == head + Print(es[k].value) + tail
      && Print(Obj(blank, WithValue(es, k, v))) == head + Print(v) + tail
  {
    hide PrintEntries, UpTo, Behind;
    SplitEntries(es, 0, k);
    Revalued(es, k, v);
  }

  lemma ValueQuote(u: Text, q: nat, a: nat, b: nat)
    requires Held(u, q, a, b)
    ensures 0 < a <= |u| && u[a - 1] == QUOTE
  {
  }

  lemma FillString(u: Text, p: nat, ps: seq<Piece>, q: nat, a: nat, b: nat, w: Text) returns (y: Tree)
    requires Held(u, q, a, b) && ValidPieces(ps) && Occurs(u, p, Quoted(ps)) && Unescaped(w)
    requires 0 < p <= a - 1 < p + |Quoted(ps)| && !NameUnit(u[p - 1])
    ensures Refilled(Str(ps), y, p, a, b, w)
  {
    StringQuote(u, p, ps, q, a, b);
    y := Str(Raws(w));
    RawPrint(w, 0);
    var x := Quoted(ps);
    assert x[..1] == [QUOTE] && x[|x| - 1..] == [QUOTE];
  }

  lemma {:induction false} FillValue(u: Text, p: nat, x: Tree, q: nat, a: nat, b: nat, w: Text) returns (y: Tree)
    requires Held(u, q, a, b) && Strict(x) && Occurs(u, p, Print(x)) && Unescaped(w)
    requires 0 < p <= a - 1 < p + |Print(x)| && !NameUnit(u[p - 1])
    ensures Refilled(x, y, p, a, b, w)
    decreases x, 3
  {
    match x
    case Atom(text) =>
      AtomsHaveNoQuote(text);
      OccursAt(u, p, text, a - 1 - p);
      assert false;
    case Loose(_) =>
      assert false;
    case Str(ps) =>
      y := FillString(u, p, ps, q, a, b, w);
    case Arr(blank, es) =>
      y := FillArray(u, p, x, q, a, b, w);
    case Obj(blank, es) =>
      var k;
      y, k := FillObject(u, p, x, q, a, b, w);
  }

  /** Nothing but white space between the brackets. */
  lemma NotEmpty(u: Text, p: nat, open: CodeUnit, blank: Text, close: CodeUnit, q: nat, a: nat, b: nat)
    requires Held(u, q, a, b) && Blank(blank) && open != QUOTE && close != QUOTE
    requires Occurs(u, p, [open] + (blank + [close]))
    ensures !(p <= a - 1 < p + |blank| + 2)
  {
    var x := [open] + (blank + [close]);
    if p <= a - 1 < p + |blank| + 2 {
      OccursAt(u, p, x, a - 1 - p);
      assert false;
    }
  }

  lemma {:induction false} FillArray(u: Text, p: nat, x: Tree, q: nat, a: nat, b: nat, w: Text) returns (y: Tree)
    requires x.Arr? && Held(u, q, a, b) && Strict(x) && Occurs(u, p, Print(x)) && Unescaped(w)
    requires p <= a - 1 < p + |Print(x)|
    ensures Refilled(x, y, p, a, b, w)
    decreases x, 2
  {
    hide Held, PrintElements, UpToElement, BehindElement;
    var es := x.elements;
    ValueQuote(u, q, a, b);
    if es == [] { NotEmpty(u, p, LBRACKET, x.blank, RBRACKET, q, a, b); assert false; }
    OccursConcat(u, p, [LBRACKET], PrintElements(es, 0));
    OccursAt(u, p, [LBRACKET], 0);
    var k, v := FillElements(u, p + 1, es, 0, q, a, b, w);
    y := Arr(x.blank, WithElement(es, k, v));
    StrictWithElement(x.blank, es, k, v);
    ArrayAround(x.blank, es, k, v);
    RefilledAround(x, y, p, [LBRACKET] + UpToElement(es, 0, k), es[k].value, v, BehindElement(es, k), a, b, w);
  }

  /** A quoted value in a list of elements is in the first one, or behind its comma. */
  lemma ElementPlace(u: Text, i: nat, es: seq<Element>, n: nat, q: nat, a: nat, b: nat)
    returns (start: nat, end: nat, next: nat)
    requires Held(u, q, a, b) && n < |es| && StrictElement(es[n])
    requires Occurs(u, i, PrintElements(es, n)) && i <= a - 1 < i + |PrintElements(es, n)|
    requires 0 < i && u[i - 1] in {COMMA, LBRACKET}
    ensures start == i + |es[n].before| && end == start + |Print(es[n].value)| && next == i + |PrintElement(es[n])| + 1
    ensures Occurs(u, start, Print(es[n].value)) && 0 < start && (start <= |u| ==> !NameUnit(u[start - 1]))
    ensures start <= a - 1 < end ||
            (n + 1 < |es| && InRest(u, i, PrintElements(es, n), next, PrintElements(es, n + 1), a))
  {
    var e := es[n];
    ElementsSplit(es, n);
    hide Held, PrintElements, Print;
    start, end, next := FiveParts(u, i, e.before, Print(e.value), e.after, ElementStop(es, n), MoreElements(es, n));
    ValueQuote(u, q, a, b);
    if a - 1 < start { NotBlank(u, i, e.before, a - 1); }
    if start > i { NotBlank(u, i, e.before, start - 1); }
    if end <= a - 1 < next - 1 { NotBlank(u, end, e.after, a - 1); }
  }

  /** The quoted value lies behind a comma, in the rest of a list. */
  ghost predicate InRest(u: Text, i: nat, whole: Text, next: nat, rest: Text, a: nat) {
    && 0 < next <= a - 1 < next + |rest| == i + |whole|
    && Occurs(u, next, rest) && u[next - 1] == COMMA
  }

  lemma {:induction false} FillElements(u: Text, i: nat, es: seq<Element>, n: nat, q: nat, a: nat, b: nat, w: Text)
    returns (k: nat, v: Tree)
    requires Held(u, q, a, b) && n < |es| && (forall j | 0 <= j < |es| :: StrictElement(es[j])) && Unescaped(w)
    requires Occurs(u, i, PrintElements(es, n)) && i <= a - 1 < i + |PrintElements(es, n)|
    requires 0 < i && u[i - 1] in {COMMA, LBRACKET}
    ensures n <= k < |es| && Refilled(es[k].value, v, i + |UpToElement(es, n, k)|, a, b, w)
    decreases es, |es| - n
  {
    hide Held, Refilled, PrintElements, Print;
    assert StrictElement(es[n]);
    var start, end, next := ElementPlace(u, i, es, n, q, a, b);
    if a - 1 < end && start <= a - 1 {
      v := FillValue(u, start, es[n].value, q, a, b, w);
      k := n;
    } else {
      k, v := FillElements(u, next, es, n + 1, q, a, b, w);
      assert |UpToElement(es, n, k)| == |PrintElement(es[n])| + 1 + |UpToElement(es, n + 1, k)|;
    }
  }

  lemma FiveParts(u: Text, i: nat, before: Text, x: Text, after: Text, stop: CodeUnit, rest: Text)
    returns (start: nat, end: nat, next: nat)
    requires Occurs(u, i, before + x + after + [stop] + rest)
    ensures start == i + |before| && end == start + |x| && next == end + |after| + 1
    ensures Occurs(u, i, before) && Occurs(u, start, x) && Occurs(u, end, after)
    ensures next <= |u| && u[next - 1] == stop && Occurs(u, next, rest)
  {
    start := i + |before|;
    end := start + |x|;
    next := end + |after| + 1;
    OccursConcat(u, i, before + x + after + [stop], rest);
    OccursConcat(u, i, before + x + after, [stop]);
    OccursConcat(u, i, before + x, after);
    OccursConcat(u, i, before, x);
    OccursAt(u, next - 1, [stop], 0);
  }

  lemma {:induction false} FillObject(u: Text, p: nat, x: Tree, q: nat, a: nat, b: nat, w: Text)
    returns (y: Tree, k: nat)
    requires x.Obj? && Held(u, q, a, b) && Strict(x) && Occurs(u, p, Print(x)) && Unescaped(w)
    requires p <= a - 1 < p + |Print(x)|
    ensures Refilled(x, y, p, a, b, w)
    ensures k < |x.entries| && y.Obj? && |y.entries| == |x.entries|
    ensures Refilled(x.entries[k].value, y.entries[k].value, p + 1 + |UpTo(x.entries, 0, k)|, a, b, w)
    ensures y.entries == WithValue(x.entries, k, y.entries[k].value)
    decreases x, 2
  {
    hide Held, PrintEntries, UpTo, Behind, StrictEntry;
    var es := x.entries;
    ValueQuote(u, q, a, b);
    if es == [] { NotEmpty(u, p, LBRACE, x.blank, RBRACE, q, a, b); assert false; }
    OccursConcat(u, p, [LBRACE], PrintEntries(es, 0));
    OccursAt(u, p, [LBRACE], 0);
    var v;
    k, v := FillEntries(u, p + 1, es, 0, q, a, b, w);
    y := Obj(x.blank, WithValue(es, k, v));
    StrictWithValue(x.blank, es, k, v);
    ObjectAround(x.blank, es, k, v);
    RefilledAround(x, y, p, [LBRACE] + UpTo(es, 0, k), es[k].value, v, Behind(es, k), a, b, w);
  }

  /** Behind the colon of a member a quoted value is the member's, or behind the next separator. */
  lemma TailPlace(u: Text, c: nat, e: Entry, stop: CodeUnit, rest: Text, q: nat, a: nat, b: nat)
    returns (start: nat, end: nat, next: nat)
    requires Held(u, q, a, b) && Blank(e.beforeValue) && Blank(e.after) && stop != QUOTE
    requires Occurs(u, c, e.beforeValue + Print(e.value) + e.after + [stop] + rest)
    requires 0 < c <= a - 1 && u[c - 1] == COLON
    ensures start == c + |e.beforeValue| && end == start + |Print(e.value)| && next == end + |e.after| + 1
    ensures Occurs(u, start, Print(e.value)) && !NameUnit(u[start - 1])
    ensures start <= a - 1 < end || next <= a - 1
    ensures next <= |u| && Occurs(u, next, rest) && u[next - 1] == stop
  {
    hide Held, Print;
    start, end, next := FiveParts(u, c, e.beforeValue, Print(e.value), e.after, stop, rest);
    ValueQuote(u, q, a, b);
    if a - 1 < start { NotBlank(u, c, e.beforeValue, a - 1); }
    if start > c { NotBlank(u, c, e.beforeValue, start - 1); }
    if end <= a - 1 < next - 1 { NotBlank(u, end, e.after, a - 1); }
  }

  lemma LabelColon(u: Text, i: nat, e: Entry)
    requires Occurs(u, i, Label(e))
    ensures 0 < |Label(e)| && i + |Label(e)| <= |u| && u[i + |Label(e)| - 1] == COLON
  {
    OccursAt(u, i, Label(e), |Label(e)| - 1);
  }

  /** A quoted value in a list of members is the first one's, in it, or behind its comma. */
  lemma EntryPlace(u: Text, i: nat, es: seq<Entry>, n: nat, q: nat, a: nat, b: nat)
    returns (start: nat, end: nat, next: nat)
    requires Held(u, q, a, b) && n < |es| && StrictEntry(es[n])
    requires Occurs(u, i, PrintEntries(es, n)) && i <= a - 1 < i + |PrintEntries(es, n)|
    requires 0 < i && u[i - 1] in {COMMA, LBRACE}
    ensures start == i + |UpTo(es, n, n)| && end == start + |Print(es[n].value)| && next == i + |PrintEntry(es[n])| + 1
    ensures Occurs(u, start, Print(es[n].value)) && 0 < start && (start <= |u| ==> !NameUnit(u[start - 1]))
    ensures start <= a - 1 < end ||
            (n + 1 < |es| && InRest(u, i, PrintEntries(es, n), next, PrintEntries(es, n + 1), a))
  {
    hide Held, PrintEntries, Print, PrintEntry, Label, Occurs, NameUnit;
    var e := es[n];
    EntriesSplit(es, n);
    EntryParts(e);
    OccursConcat(u, i, Label(e), EntryTail(es, n));
    NotInLabel(u, i, e, q, a, b);
    LabelColon(u, i, e);
    start, end, next := TailPlace(u, i + |Label(e)|, e, EntryStop(es, n), MoreEntries(es, n), q, a, b);
  }

  lemma UpToStep(es: seq<Entry>, n: nat, k: nat)
    requires n < k < |es|
    ensures |UpTo(es, n, k)| == |PrintEntry(es[n])| + 1 + |UpTo(es, n + 1, k)|
  {
    hide PrintEntry;
  }

  lemma {:induction false} FillEntries(u: Text, i: nat, es: seq<Entry>, n: nat, q: nat, a: nat, b: nat, w: Text)
    returns (k: nat, v: Tree)
    requires Held(u, q, a, b) && n < |es| && (forall j | 0 <= j < |es| :: StrictEntry(es[j])) && Unescaped(w)
    requires Occurs(u, i, PrintEntries(es, n)) && i <= a - 1 < i + |PrintEntries(es, n)|
    requires 0 < i && u[i - 1] in {COMMA, LBRACE}
    ensures n <= k < |es| && Refilled(es[k].value, v, i + |UpTo(es, n, k)|, a, b, w)
    decreases es, |es| - n
  {
    hide Held, Refilled, PrintEntries, Print, UpTo, PrintEntry, Label, NameUnit;
    assert StrictEntry(es[n]);
    hide StrictEntry, Occurs, MoreEntries, EntryStop, Unescaped;
    var start, end, next := EntryPlace(u, i, es, n, q, a, b);
    if a - 1 < end && start <= a - 1 {
      v := FillValue(u, start, es[n].value, q, a, b, w);
      k := n;
    } else {
      k, v := FillEntries(u, next, es, n + 1, q, a, b, w);
      UpToStep(es, n, k);
    }
  }

  lemma NotInLabel(u: Text, i: nat, e: Entry, q: nat, a: nat, b: nat)
    requires Held(u, q, a, b) && StrictEntry(e) && Occurs(u, i, Label(e))
    requires 0 < i && u[i - 1] in {COMMA, LBRACE}
    ensures !(i <= a - 1 < i + |Label(e)|)
  {
    LabelParts(u, i, e.before, Quoted(e.name), e.beforeColon);
    assert |Label(e)| == |e.before| + |Quoted(e.name)| + |e.beforeColon| + 1;
    hide Held, Label, Quoted, Occurs, NameUnit;
    ValueQuote(u, q, a, b);
    var r := i + |e.before|;
    var c := r + |Quoted(e.name)|;
    if i <= a - 1 < r {
      NotBlank(u, i, e.before, a - 1);
    } else if r <= a - 1 < c {
      if r > i { NotBlank(u, i, e.before, r - 1); }
      StringQuote(u, r, e.name, q, a, b);
      NotAName(u, r, e.before, q, a, b);
    } else if c <= a - 1 < c + |e.beforeColon| {
      NotBlank(u, c, e.beforeColon, a - 1);
    }
  }
}
