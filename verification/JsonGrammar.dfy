/**
 Every text of the JSON grammar (RFC 8259, sections 2 to 7), as a concrete syntax tree with
 its white space and its string escapes, and the proof that the scanner decides it.
 */
module JsonGrammar {
  import opened Wrappers
  import opened Occurrences
  import opened JsonScanner

  /** White space of RFC 8259, section 2. */
  predicate IsBlank(u: CodeUnit) {
    u == 0x20 || u == 0x09 || u == 0x0A || u == 0x0D
  }

  predicate Blank(s: Text) {
    forall i | 0 <= i < |s| :: IsBlank(s[i])
  }

  /** The digit for `n` in base 16, in either case. */
  function HexDigit(n: nat, upper: bool): CodeUnit
    requires n < 16
  {
    if n < 10 then 0x30 + n else if upper then 0x41 + (n - 10) else 0x61 + (n - 10)
  }

  /** The letter behind the backslash of a two-character escape (section 7). */
  function ShortLetter(u: CodeUnit): Option<CodeUnit> {
    match u
    case 0x22 => Some(0x22)
    case 0x5C => Some(0x5C)
    case 0x2F => Some(0x2F)
    case 0x08 => Some(0x62)
    case 0x0C => Some(0x66)
    case 0x0A => Some(0x6E)
    case 0x0D => Some(0x72)
    case 0x09 => Some(0x74)
    case _ => None
  }

  /**
   How one code unit `u` of a string is written: as it is, with a two-character escape, or as
   `\uXXXX` with each of its four base-16 digits in either case (section 7).
   */
  datatype Piece = Raw(u: CodeUnit) | Short(u: CodeUnit) | Hex(u: CodeUnit, a: bool, b: bool, c: bool, d: bool) {
    predicate Valid() {
      match this
      case Raw(u) => u >= 0x20 && u != QUOTE && u != BACKSLASH
      case Short(u) => ShortLetter(u).Some?
      case Hex(_, _, _, _, _) => true
    }

    function Print(): Text {
      match this
      case Raw(u) => [u]
      case Short(u) => [BACKSLASH, ShortLetter(u).GetOr(u)]
      case Hex(u, a, b, c, d) =>
        [BACKSLASH, 0x75, HexDigit(u / 0x1000, a), HexDigit(u / 0x100 % 16, b), HexDigit(u / 0x10 % 16, c),
         HexDigit(u % 16, d)]
    }
  }

  predicate ValidPieces(ps: seq<Piece>) {
    forall i | 0 <= i < |ps| :: ps[i].Valid()
  }

  function PrintPieces(ps: seq<Piece>, k: nat): Text
    requires k <= |ps|
    decreases |ps| - k
  {
    if k == |ps| then [] else ps[k].Print() + PrintPieces(ps, k + 1)
  }

  /** The name that the pieces write: one code unit for each. */
  function Name(ps: seq<Piece>): Text {
    seq(|ps|, i requires 0 <= i < |ps| => ps[i].u)
  }

  function Quoted(ps: seq<Piece>): Text {
    [QUOTE] + PrintPieces(ps, 0) + [QUOTE]
  }

  datatype Entry = Entry(before: Text, name: seq<Piece>, beforeColon: Text, beforeValue: Text, value: Tree, after: Text)

  datatype Element = Element(before: Text, value: Tree, after: Text)

  /**
   A value as written. An atom is a number or a literal name. `Loose` is a string value that the
   scanner passes without decoding it, well formed or not.
   */
  datatype Tree =
    | Atom(text: Text)
    | Str(pieces: seq<Piece>)
    | Loose(body: Text)
    | Arr(blank: Text, elements: seq<Element>)
    | Obj(blank: Text, entries: seq<Entry>)

  /** White space as the scanner knows it. */
  predicate Wide(s: Text) {
    forall i | 0 <= i < |s| :: IsSpace(s[i])
  }

  /** No quote but behind a backslash, and no backslash at the end. */
  predicate LooseBody(s: Text) {
    s == []
    || (s[0] == BACKSLASH && |s| >= 2 && LooseBody(s[2..]))
    || (s[0] != BACKSLASH && s[0] != QUOTE && LooseBody(s[1..]))
  }

  /** Wider than the numbers and literal names of the RFC; see `NumbersAreAtoms`. */
  predicate ValidAtom(s: Text) {
    && s != [] && s[0] != QUOTE && s[0] != LBRACE && s[0] != LBRACKET
    && forall i | 0 <= i < |s| :: !EndsAtom(s[i])
  }

  /** What the scanner takes for a value: every value of the RFC, and a little more. */
  predicate Valid(t: Tree) {
    match t
    case Atom(text) => ValidAtom(text)
    case Str(ps) => ValidPieces(ps)
    case Loose(body) => LooseBody(body)
    case Arr(blank, es) =>
      Wide(blank) && forall i | 0 <= i < |es| :: Wide(es[i].before) && Wide(es[i].after) && Valid(es[i].value)
    case Obj(blank, es) =>
      Wide(blank) && forall i | 0 <= i < |es| ::
        && ValidPieces(es[i].name) && Wide(es[i].before) && Wide(es[i].beforeColon)
        && Wide(es[i].beforeValue) && Wide(es[i].after) && Valid(es[i].value)
  }

  function PrintElement(e: Element): Text {
    e.before + Print(e.value) + e.after
  }

  /** The elements from number `k` on, with the closing bracket. */
  function PrintElements(es: seq<Element>, k: nat): Text
    requires k < |es|
    decreases es, |es| - k
  {
    PrintElement(es[k]) + if k + 1 == |es| then [RBRACKET] else [COMMA] + PrintElements(es, k + 1)
  }

  function PrintEntry(e: Entry): Text {
    e.before + Quoted(e.name) + e.beforeColon + [COLON] + e.beforeValue + Print(e.value) + e.after
  }

  function PrintEntries(es: seq<Entry>, k: nat): Text
    requires k < |es|
    decreases es, |es| - k
  {
    PrintEntry(es[k]) + if k + 1 == |es| then [RBRACE] else [COMMA] + PrintEntries(es, k + 1)
  }

  /** The text of a value. The white space around it belongs to its surroundings. */
  function Print(t: Tree): Text {
    match t
    case Atom(text) => text
    case Str(ps) => Quoted(ps)
    case Loose(body) => [QUOTE] + body + [QUOTE]
    case Arr(blank, es) => [LBRACKET] + if es == [] then blank + [RBRACKET] else PrintElements(es, 0)
    case Obj(blank, es) => [LBRACE] + if es == [] then blank + [RBRACE] else PrintEntries(es, 0)
  }

  // ---- Duplicates --------------------------------------------------------------------

  /** No object, at any depth, has two members with equal decoded names. */
  ghost predicate DistinctNames(t: Tree)
    requires Valid(t)
  {
    match t
    case Arr(_, es) => forall i | 0 <= i < |es| :: DistinctNames(es[i].value)
    case Obj(_, es) =>
      && (forall i, j | 0 <= i < j < |es| :: Name(es[i].name) != Name(es[j].name))
      && forall i | 0 <= i < |es| :: DistinctNames(es[i].value)
    case _ => true
  }

  ghost predicate ValidElements(es: seq<Element>) {
    forall i | 0 <= i < |es| :: Valid(es[i].value)
  }

  ghost predicate ValidEntries(es: seq<Entry>) {
    forall i | 0 <= i < |es| :: ValidPieces(es[i].name) && Valid(es[i].value)
  }

  /** The first repeated name in reading order, as the path to its second occurrence. */
  function FirstDuplicate(t: Tree, path: Path): Option<Path>
    requires Valid(t)
    decreases t, 0
  {
    match t
    case Arr(_, es) => DuplicateInItems(es, 0, path)
    case Obj(_, es) => DuplicateInEntries(es, 0, {}, path)
    case _ => None
  }

  function DuplicateInItems(es: seq<Element>, k: nat, path: Path): Option<Path>
    requires k <= |es| && ValidElements(es)
    decreases es, |es| - k
  {
    if k == |es| then None
    else
      match FirstDuplicate(es[k].value, Item(path, k))
      case Some(p) => Some(p)
      case None => DuplicateInItems(es, k + 1, path)
  }

  function DuplicateInEntries(es: seq<Entry>, k: nat, seen: set<Text>, path: Path): Option<Path>
    requires k <= |es| && ValidEntries(es)
    decreases es, |es| - k
  {
    if k == |es| then None
    else
      var name := Name(es[k].name);
      if name in seen then Some(Member(path, name))
      else
        match FirstDuplicate(es[k].value, Member(path, name))
        case Some(p) => Some(p)
        case None => DuplicateInEntries(es, k + 1, seen + {name}, path)
  }

  lemma {:induction false} NoDuplicateExactlyDistinct(t: Tree, path: Path)
    requires Valid(t)
    ensures FirstDuplicate(t, path) == None <==> DistinctNames(t)
    decreases t, 0
  {
    match t
    case Arr(_, es) => NoDuplicateInItems(es, 0, path);
    case Obj(_, es) => NoDuplicateInEntries(es, 0, {}, path);
    case _ =>
  }

  lemma {:induction false} NoDuplicateInItems(es: seq<Element>, k: nat, path: Path)
    requires k <= |es| && ValidElements(es)
    ensures DuplicateInItems(es, k, path) == None <==> forall i | k <= i < |es| :: DistinctNames(es[i].value)
    decreases es, |es| - k
  {
    if k == |es| {
    } else {
      NoDuplicateExactlyDistinct(es[k].value, Item(path, k));
      NoDuplicateInItems(es, k + 1, path);
    }
  }

  lemma {:induction false} NoDuplicateInEntries(es: seq<Entry>, k: nat, seen: set<Text>, path: Path)
    requires k <= |es| && ValidEntries(es)
    ensures DuplicateInEntries(es, k, seen, path) == None <==>
      && (forall i | k <= i < |es| :: Name(es[i].name) !in seen && DistinctNames(es[i].value))
      && (forall i, j | k <= i < j < |es| :: Name(es[i].name) != Name(es[j].name))
    decreases es, |es| - k
  {
    if k == |es| {
    } else {
      var name := Name(es[k].name);
      NoDuplicateExactlyDistinct(es[k].value, Member(path, name));
      NoDuplicateInEntries(es, k + 1, seen + {name}, path);
    }
  }

  // ---- Reading what was printed --------------------------------------------------------

  lemma {:induction false} SkipsBlank(s: Text, i: nat, w: Text)
    requires Occurs(s, i, w) && Wide(w)
    requires i + |w| < |s| ==> !IsSpace(s[i + |w|])
    ensures SkipSpace(s, i) == i + |w|
    decreases |w|
  {
    if w == [] {
    } else {
      OccursAt(s, i, w, 0);
      assert w == [w[0]] + w[1..];
      OccursConcat(s, i, [w[0]], w[1..]);
      SkipsBlank(s, i + 1, w[1..]);
    }
  }

  lemma {:induction false} ReadsPieces(s: Text, i: nat, ps: seq<Piece>, k: nat)
    requires k <= |ps| && ValidPieces(ps) && Occurs(s, i, PrintPieces(ps, k) + [QUOTE])
    ensures StringEnd(s, i) == Some(i + |PrintPieces(ps, k)| + 1)
    decreases |ps| - k
  {
    OccursConcat(s, i, PrintPieces(ps, k), [QUOTE]);
    if k == |ps| {
      OccursAt(s, i, [QUOTE], 0);
    } else {
      var head, tail := ps[k].Print(), PrintPieces(ps, k + 1);
      OccursConcat(s, i, head, tail);
      OccursConcat(s, i + |head|, tail, [QUOTE]);
      ReadsPieces(s, i + |head|, ps, k + 1);
      SkipsPiece(s, i, ps[k]);
    }
  }

  /** A closing quote is never found inside a piece. */
  lemma SkipsPiece(s: Text, i: nat, p: Piece)
    requires p.Valid() && Occurs(s, i, p.Print())
    ensures StringEnd(s, i) == StringEnd(s, i + |p.Print()|)
  {
    OccursAt(s, i, p.Print(), 0);
    if p.Hex? {
      OccursAt(s, i, p.Print(), 2);
      OccursAt(s, i, p.Print(), 3);
      OccursAt(s, i, p.Print(), 4);
      OccursAt(s, i, p.Print(), 5);
      assert StringEnd(s, i) == StringEnd(s, i + 2) == StringEnd(s, i + 3);
      assert StringEnd(s, i + 3) == StringEnd(s, i + 4) == StringEnd(s, i + 5);
    }
  }

  function NameTail(ps: seq<Piece>, k: nat): (r: Text)
    requires k <= |ps| && ValidPieces(ps)
    ensures r == Name(ps)[k..]
    decreases |ps| - k
  {
    if k == |ps| then [] else [ps[k].u] + NameTail(ps, k + 1)
  }

  /** Decoding undoes every way of escaping. */
  lemma {:induction false} DecodesName(s: Text, i: nat, ps: seq<Piece>, k: nat)
    requires k <= |ps| && ValidPieces(ps) && Occurs(s, i, PrintPieces(ps, k))
    ensures Decode(s, i, i + |PrintPieces(ps, k)|) == Some(NameTail(ps, k))
    decreases |ps| - k
  {
    if k == |ps| {
    } else {
      hide HexUnit, IsHex, ShortEscape;
      var head, tail := ps[k].Print(), PrintPieces(ps, k + 1);
      OccursConcat(s, i, head, tail);
      DecodesName(s, i + |head|, ps, k + 1);
      DecodesPiece(s, i, ps[k], i + |head| + |tail|);
    }
  }

  lemma DecodesPiece(s: Text, i: nat, p: Piece, end: nat)
    requires p.Valid() && Occurs(s, i, p.Print()) && i + |p.Print()| <= end <= |s|
    ensures Decode(s, i, end) == Prepend(p.u, Decode(s, i + |p.Print()|, end))
  {
    OccursAt(s, i, p.Print(), 0);
    if !p.Raw? { OccursAt(s, i, p.Print(), 1); }
    if p.Hex? {
      OccursAt(s, i, p.Print(), 2);
      OccursAt(s, i, p.Print(), 3);
      OccursAt(s, i, p.Print(), 4);
      OccursAt(s, i, p.Print(), 5);
      DecodesHex(p.u, p.a, p.b, p.c, p.d);
    }
  }

  /** Every spelling of a digit has its value. */
  lemma DecodesDigit(n: nat, upper: bool)
    requires n < 16
    ensures IsHex(HexDigit(n, upper)) && HexValue(HexDigit(n, upper)) == n
  {
  }

  /** Every spelling of the four digits of a code unit is decoded to that code unit. */
  lemma DecodesHex(u: CodeUnit, a: bool, b: bool, c: bool, d: bool)
    ensures var w, x, y, z := HexDigit(u / 0x1000, a), HexDigit(u / 0x100 % 16, b), HexDigit(u / 0x10 % 16, c),
                              HexDigit(u % 16, d);
      IsHex(w) && IsHex(x) && IsHex(y) && IsHex(z) && HexUnit(w, x, y, z) == u
  {
    DecodesDigit(u / 0x1000, a);
    DecodesDigit(u / 0x100 % 16, b);
    DecodesDigit(u / 0x10 % 16, c);
    DecodesDigit(u % 16, d);
    FourDigits(u);
    hide HexDigit, HexValue, IsHex;
  }

  lemma FourDigits(u: CodeUnit)
    ensures 0x1000 * (u / 0x1000) + 0x100 * (u / 0x100 % 16) + 0x10 * (u / 0x10 % 16) + u % 16 == u
  {
    assert u == 0x10 * (u / 0x10) + u % 16;
    assert u / 0x10 == 0x10 * (u / 0x100) + u / 0x10 % 16;
    assert u / 0x100 == 0x10 * (u / 0x1000) + u / 0x100 % 16;
  }

  lemma QuotedParts(s: Text, i: nat, body: Text)
    requires Occurs(s, i, [QUOTE] + body + [QUOTE])
    ensures Sees(s, i, QUOTE) && Occurs(s, i + 1, body) && Occurs(s, i + 1, body + [QUOTE])
  {
    assert [QUOTE] + body + [QUOTE] == [QUOTE] + (body + [QUOTE]);
    OccursConcat(s, i, [QUOTE], body + [QUOTE]);
    OccursConcat(s, i + 1, body, [QUOTE]);
    OccursAt(s, i, [QUOTE], 0);
  }

  lemma ReadsString(s: Text, i: nat, ps: seq<Piece>)
    requires ValidPieces(ps) && Occurs(s, i, Quoted(ps))
    ensures s[i] == QUOTE && ReadString(s, i) == At(i + |Quoted(ps)|)
    ensures Decode(s, i + 1, i + |Quoted(ps)| - 1) == Some(Name(ps))
  {
    QuotedParts(s, i, PrintPieces(ps, 0));
    ReadsPieces(s, i + 1, ps, 0);
    DecodesName(s, i + 1, ps, 0);
  }

  lemma {:induction false} LooseEnd(s: Text, i: nat, body: Text)
    requires LooseBody(body) && Occurs(s, i, body + [QUOTE])
    ensures StringEnd(s, i) == Some(i + |body| + 1)
    decreases |body|
  {
    OccursConcat(s, i, body, [QUOTE]);
    OccursAt(s, i, body + [QUOTE], 0);
    if body != [] {
      var n := if body[0] == BACKSLASH then 2 else 1;
      assert body + [QUOTE] == body[..n] + (body[n..] + [QUOTE]);
      OccursConcat(s, i, body[..n], body[n..] + [QUOTE]);
      LooseEnd(s, i + n, body[n..]);
    }
  }

  lemma ReadsLoose(s: Text, i: nat, body: Text)
    requires LooseBody(body) && Occurs(s, i, [QUOTE] + body + [QUOTE])
    ensures s[i] == QUOTE && ReadString(s, i) == At(i + |body| + 2)
  {
    QuotedParts(s, i, body);
    LooseEnd(s, i + 1, body);
  }

  /** What may follow a value: the end, or a character that ends an atom. */
  predicate Ends(s: Text, i: nat) {
    i >= |s| || EndsAtom(s[i])
  }

  lemma {:induction false} ReadsAtom(s: Text, i: nat, x: Text)
    requires Occurs(s, i, x) && forall k | 0 <= k < |x| :: !EndsAtom(x[k])
    requires Ends(s, i + |x|)
    ensures SkipAtom(s, i) == i + |x|
    decreases |x|
  {
    if x == [] {
    } else {
      OccursAt(s, i, x, 0);
      assert x == [x[0]] + x[1..];
      OccursConcat(s, i, [x[0]], x[1..]);
      ReadsAtom(s, i + 1, x[1..]);
    }
  }

  /** A printed value begins with a character that no white space skip passes. */
  lemma Begins(t: Tree)
    requires Valid(t)
    ensures Print(t) != [] && !IsSpace(Print(t)[0]) && Print(t)[0] != RBRACKET && Print(t)[0] != RBRACE
    ensures t.Atom? ==> Print(t)[0] != QUOTE && Print(t)[0] != LBRACE && Print(t)[0] != LBRACKET
  {
  }

  /** Where reading a value ends, or the duplicate it stops at. */
  function Outcome(duplicate: Option<Path>, end: nat): Scan {
    match duplicate
    case Some(p) => Fail(DuplicateKey(p))
    case None => At(end)
  }

  /** Reading a printed value, after any white space, ends behind it or at its first duplicate. */
  lemma {:induction false} ReadsValue(s: Text, i: nat, w: Text, t: Tree, path: Path)
    requires Valid(t) && Wide(w) && Occurs(s, i, w + Print(t)) && Ends(s, i + |w| + |Print(t)|)
    ensures ReadValue(s, i, path) == Outcome(FirstDuplicate(t, path), i + |w| + |Print(t)|)
    decreases t, 3
  {
    hide ReadItems, ReadMembers, Decode, PrintPieces, ValidPieces;
    var j := i + |w|;
    OccursConcat(s, i, w, Print(t));
    Begins(t);
    OccursAt(s, j, Print(t), 0);
    SkipsBlank(s, i, w);
    match t
    case Atom(text) => ReadsAtom(s, j, text);
    case Str(ps) => ReadsString(s, j, ps);
    case Loose(body) => ReadsLoose(s, j, body);
    case Arr(_, es) => ReadsArray(s, i, j, t, path);
    case Obj(_, es) => ReadsObject(s, i, j, t, path);
  }

  /** Reading does not depend on white space already skipped. */
  lemma {:induction false} SkipTwice(s: Text, i: nat)
    requires i <= |s|
    ensures SkipSpace(s, SkipSpace(s, i)) == SkipSpace(s, i)
    decreases |s| - i
  {
    if i < |s| && IsSpace(s[i]) {
      SkipTwice(s, i + 1);
    }
  }

  lemma SameItems(s: Text, i: nat, path: Path)
    requires i < |s| && SkipSpace(s, i) < |s|
    ensures ReadItems(s, SkipSpace(s, i), 0, path) == ReadItems(s, i, 0, path)
  {
    SkipTwice(s, i);
    assert ReadValue(s, SkipSpace(s, i), Item(path, 0)) == ReadValue(s, i, Item(path, 0));
  }

  lemma SameMembers(s: Text, i: nat, path: Path)
    requires i < |s| && SkipSpace(s, i) < |s|
    ensures ReadMembers(s, SkipSpace(s, i), {}, path) == ReadMembers(s, i, {}, path)
  {
    SkipTwice(s, i);
    assert ReadName(s, SkipSpace(s, i), {}, path) == ReadName(s, i, {}, path);
  }

  /** An empty container: white space, then its closing bracket. */
  lemma EmptyPart(s: Text, j: nat, open: CodeUnit, blank: Text, close: CodeUnit)
    requires Wide(blank) && !IsSpace(close) && Occurs(s, j, [open] + (blank + [close]))
    ensures Sees(s, j, open)
    ensures j + 1 + |blank| < |s| && SkipSpace(s, j + 1) == j + 1 + |blank| && s[j + 1 + |blank|] == close
  {
    OccursConcat(s, j, [open], blank + [close]);
    OccursAt(s, j, [open], 0);
    OccursConcat(s, j + 1, blank, [close]);
    OccursAt(s, j + 1 + |blank|, [close], 0);
    SkipsBlank(s, j + 1, blank);
  }

  /** A piece of text, the white space behind it, and the separator behind that. */
  lemma AfterText(s: Text, i: nat, x: Text, after: Text, stop: CodeUnit, rest: Text)
    requires Wide(after) && EndsAtom(stop) && !IsSpace(stop)
    requires Occurs(s, i, x + after + [stop] + rest)
    ensures Occurs(s, i, x) && i + |x| <= |s| && Ends(s, i + |x|)
    ensures SkipSpace(s, i + |x|) == i + |x| + |after| && Sees(s, i + |x| + |after|, stop)
    ensures Occurs(s, i + |x| + |after| + 1, rest)
  {
    OccursConcat(s, i, x + after + [stop], rest);
    OccursConcat(s, i, x + after, [stop]);
    OccursConcat(s, i, x, after);
    var end := i + |x|;
    OccursAt(s, end + |after|, [stop], 0);
    if after != [] { OccursAt(s, end, after, 0); }
    SkipsBlank(s, end, after);
  }

  // ---- Arrays ------------------------------------------------------------------------

  /** What follows element `k`, behind its separator. */
  function MoreElements(es: seq<Element>, k: nat): Text
    requires k < |es|
  {
    if k + 1 == |es| then [] else PrintElements(es, k + 1)
  }

  function ElementStop(es: seq<Element>, k: nat): CodeUnit {
    if k + 1 == |es| then RBRACKET else COMMA
  }

  lemma ElementsSplit(es: seq<Element>, k: nat)
    requires k < |es|
    ensures PrintElements(es, k) ==
            es[k].before + Print(es[k].value) + es[k].after + [ElementStop(es, k)] + MoreElements(es, k)
  {
    if k + 1 < |es| {
      Joined(PrintElement(es[k]), COMMA, PrintElements(es, k + 1));
    }
  }

  lemma Joined(x: Text, stop: CodeUnit, y: Text)
    ensures x + ([stop] + y) == x + [stop] + y
  {
  }

  lemma ElementPart(s: Text, i: nat, es: seq<Element>, k: nat) returns (end: nat, next: nat)
    requires k < |es| && Valid(Arr([], es)) && Occurs(s, i, PrintElements(es, k))
    ensures end == i + |es[k].before| + |Print(es[k].value)| && end < next <= |s|
    ensures Occurs(s, i, es[k].before + Print(es[k].value)) && Ends(s, end)
    ensures ReadSeparator(s, end, RBRACKET) == if k + 1 == |es| then Close(next) else Comma(next)
    ensures Occurs(s, next, MoreElements(es, k)) && next + |MoreElements(es, k)| == i + |PrintElements(es, k)|
  {
    var x := es[k].before + Print(es[k].value);
    end := i + |x|;
    next := end + |es[k].after| + 1;
    ElementsSplit(es, k);
    AfterText(s, i, x, es[k].after, ElementStop(es, k), MoreElements(es, k));
  }

  lemma ElementStart(s: Text, i: nat, e: Element)
    requires Valid(e.value) && Wide(e.before) && Occurs(s, i, e.before + Print(e.value))
    ensures i < |s| && SkipSpace(s, i) < |s| && s[SkipSpace(s, i)] != RBRACKET
  {
    OccursConcat(s, i, e.before, Print(e.value));
    Begins(e.value);
    OccursAt(s, i + |e.before|, Print(e.value), 0);
    SkipsBlank(s, i, e.before);
  }

  /** One turn of the item loop. */
  lemma ItemTurn(s: Text, i: nat, n: nat, path: Path, duplicate: Option<Path>, end: nat, last: bool, next: nat)
    requires i < |s| && end < next <= |s| && ReadValue(s, i, Item(path, n)) == Outcome(duplicate, end)
    requires ReadSeparator(s, end, RBRACKET) == if last then Close(next) else Comma(next)
    ensures ReadItems(s, i, n, path) ==
            if duplicate.Some? then Fail(DuplicateKey(duplicate.value))
            else if last then At(next)
            else ReadItems(s, next, n + 1, path)
  {
  }

  /** What reading element `k` leads to. */
  lemma {:induction false} ElementTurn(s: Text, i: nat, es: seq<Element>, k: nat, path: Path) returns (next: nat)
    requires k < |es| && Valid(Arr([], es)) && Occurs(s, i, PrintElements(es, k))
    ensures i < |s| && SkipSpace(s, i) < |s| && s[SkipSpace(s, i)] != RBRACKET
    ensures next <= |s| && Occurs(s, next, MoreElements(es, k))
    ensures next + |MoreElements(es, k)| == i + |PrintElements(es, k)|
    ensures var duplicate := FirstDuplicate(es[k].value, Item(path, k));
      ReadItems(s, i, k, path) ==
        if duplicate.Some? then Fail(DuplicateKey(duplicate.value))
        else if k + 1 == |es| then At(next)
        else ReadItems(s, next, k + 1, path)
    decreases es, |es| - k, 1
  {
    var end: nat;
    end, next := ElementPart(s, i, es, k);
    ElementStart(s, i, es[k]);
    ReadsValue(s, i, es[k].before, es[k].value, Item(path, k));
    ItemTurn(s, i, k, path, FirstDuplicate(es[k].value, Item(path, k)), end, k + 1 == |es|, next);
  }

  lemma {:induction false} ReadsElements(s: Text, i: nat, es: seq<Element>, k: nat, path: Path, end: nat)
    requires k < |es| && Valid(Arr([], es)) && Occurs(s, i, PrintElements(es, k))
    requires end == i + |PrintElements(es, k)|
    ensures ReadItems(s, i, k, path) == Outcome(DuplicateInItems(es, k, path), end)
    ensures i < |s| && SkipSpace(s, i) < |s| && s[SkipSpace(s, i)] != RBRACKET
    decreases es, |es| - k, 2
  {
    var next := ElementTurn(s, i, es, k, path);
    if k + 1 < |es| {
      ReadsElements(s, next, es, k + 1, path, end);
    }
  }

  lemma {:induction false} ReadsArray(s: Text, i: nat, j: nat, t: Tree, path: Path)
    requires Valid(t) && t.Arr? && i <= |s| && SkipSpace(s, i) == j && Occurs(s, j, Print(t))
    ensures ReadValue(s, i, path) == Outcome(FirstDuplicate(t, path), j + |Print(t)|)
    decreases t, 2
  {
    var es := t.elements;
    if es == [] {
      ReadsEmptyArray(s, i, j, t.blank, path);
    } else {
      ArrayText(s, j, es);
      ReadsFullArray(s, i, j, es, path, j + 1 + |PrintElements(es, 0)|);
    }
  }

  lemma ReadsEmptyArray(s: Text, i: nat, j: nat, blank: Text, path: Path)
    requires Wide(blank) && i <= |s| && SkipSpace(s, i) == j && Occurs(s, j, [LBRACKET] + (blank + [RBRACKET]))
    ensures ReadValue(s, i, path) == At(j + |blank| + 2)
  {
    EmptyPart(s, j, LBRACKET, blank, RBRACKET);
    ArrayTurn(s, i, j, path);
  }

  lemma ArrayText(s: Text, j: nat, es: seq<Element>)
    requires es != [] && Occurs(s, j, [LBRACKET] + PrintElements(es, 0))
    ensures Sees(s, j, LBRACKET) && Occurs(s, j + 1, PrintElements(es, 0))
  {
    OccursConcat(s, j, [LBRACKET], PrintElements(es, 0));
    OccursAt(s, j, [LBRACKET], 0);
  }

  lemma {:induction false} ReadsFullArray(s: Text, i: nat, j: nat, es: seq<Element>, path: Path, end: nat)
    requires es != [] && Valid(Arr([], es)) && i <= |s| && SkipSpace(s, i) == j
    requires Sees(s, j, LBRACKET) && Occurs(s, j + 1, PrintElements(es, 0)) && end == j + 1 + |PrintElements(es, 0)|
    ensures ReadValue(s, i, path) == Outcome(DuplicateInItems(es, 0, path), end)
    decreases es, |es|, 3
  {
    ReadsElements(s, j + 1, es, 0, path, end);
    ArrayTurn(s, i, j, path);
  }

  lemma ArrayTurn(s: Text, i: nat, j: nat, path: Path)
    requires i <= |s| && SkipSpace(s, i) == j && Sees(s, j, LBRACKET) && SkipSpace(s, j + 1) < |s|
    ensures ReadValue(s, i, path) ==
            if s[SkipSpace(s, j + 1)] == RBRACKET then At(SkipSpace(s, j + 1) + 1) else ReadItems(s, j + 1, 0, path)
  {
    if s[SkipSpace(s, j + 1)] != RBRACKET {
      SameItems(s, j + 1, path);
    }
  }

  // ---- Objects -----------------------------------------------------------------------

  /** Everything of a member up to its value. */
  function Label(e: Entry): Text {
    e.before + Quoted(e.name) + e.beforeColon + [COLON]
  }

  function MoreEntries(es: seq<Entry>, k: nat): Text
    requires k < |es|
  {
    if k + 1 == |es| then [] else PrintEntries(es, k + 1)
  }

  function EntryStop(es: seq<Entry>, k: nat): CodeUnit {
    if k + 1 == |es| then RBRACE else COMMA
  }

  /** A member list behind the colon of member `k`. */
  function EntryTail(es: seq<Entry>, k: nat): Text
    requires k < |es|
  {
    es[k].beforeValue + Print(es[k].value) + es[k].after + [EntryStop(es, k)] + MoreEntries(es, k)
  }

  lemma EntriesSplit(es: seq<Entry>, k: nat)
    requires k < |es|
    ensures PrintEntries(es, k) == Label(es[k]) + EntryTail(es, k)
  {
    var e := es[k];
    Regroup(Label(e), e.beforeValue, Print(e.value), e.after, [EntryStop(es, k)], MoreEntries(es, k));
  }

  lemma Regroup(a: Text, b: Text, c: Text, d: Text, e: Text, f: Text)
    ensures a + b + c + d + (e + f) == a + (b + c + d + e + f)
    ensures f == [] ==> a + b + c + d + e == a + (b + c + d + e + f)
  {
  }

  lemma LabelParts(s: Text, i: nat, before: Text, quoted: Text, beforeColon: Text)
    requires Occurs(s, i, before + quoted + beforeColon + [COLON])
    ensures Occurs(s, i, before) && Occurs(s, i + |before|, quoted)
    ensures Occurs(s, i + |before| + |quoted|, beforeColon)
    ensures Sees(s, i + |before| + |quoted| + |beforeColon|, COLON)
  {
    OccursConcat(s, i, before + quoted + beforeColon, [COLON]);
    OccursConcat(s, i, before + quoted, beforeColon);
    OccursConcat(s, i, before, quoted);
    OccursAt(s, i + |before| + |quoted| + |beforeColon|, [COLON], 0);
  }

  /** Reading a printed label gives the decoded name. */
  lemma ReadsLabel(s: Text, i: nat, e: Entry, keys: set<Text>, path: Path)
    requires ValidPieces(e.name) && Wide(e.before) && Wide(e.beforeColon) && Occurs(s, i, Label(e))
    ensures i < |s| && SkipSpace(s, i) == i + |e.before| && Sees(s, i + |e.before|, QUOTE)
    ensures ReadName(s, i, keys, path) ==
            if Name(e.name) in keys then Failure(DuplicateKey(Member(path, Name(e.name))))
            else Success((Name(e.name), i + |Label(e)|))
  {
    var j := i + |e.before|;
    LabelParts(s, i, e.before, Quoted(e.name), e.beforeColon);
    ReadsString(s, j, e.name);
    SkipsBlank(s, i, e.before);
    SkipsBlank(s, j + |Quoted(e.name)|, e.beforeColon);
  }

  lemma EntryTexts(s: Text, i: nat, es: seq<Entry>, n: nat) returns (k: nat)
    requires n < |es| && Occurs(s, i, PrintEntries(es, n))
    ensures k == i + |Label(es[n])| && Occurs(s, i, Label(es[n])) && Occurs(s, k, EntryTail(es, n))
    ensures k + |EntryTail(es, n)| == i + |PrintEntries(es, n)|
  {
    k := i + |Label(es[n])|;
    EntriesSplit(es, n);
    OccursConcat(s, i, Label(es[n]), EntryTail(es, n));
  }

  lemma EntryPart(s: Text, i: nat, es: seq<Entry>, n: nat, keys: set<Text>, path: Path)
    returns (k: nat, end: nat, next: nat)
    requires n < |es| && Valid(Obj([], es)) && Occurs(s, i, PrintEntries(es, n))
    ensures i < |s| && SkipSpace(s, i) < |s| && s[SkipSpace(s, i)] == QUOTE
    ensures ReadName(s, i, keys, path) ==
            if Name(es[n].name) in keys then Failure(DuplicateKey(Member(path, Name(es[n].name))))
            else Success((Name(es[n].name), k))
    ensures end == k + |es[n].beforeValue| + |Print(es[n].value)| && end < next <= |s|
    ensures Occurs(s, k, es[n].beforeValue + Print(es[n].value)) && Ends(s, end)
    ensures ReadSeparator(s, end, RBRACE) == if n + 1 == |es| then Close(next) else Comma(next)
    ensures Occurs(s, next, MoreEntries(es, n)) && next + |MoreEntries(es, n)| == i + |PrintEntries(es, n)|
  {
    k := EntryTexts(s, i, es, n);
    ReadsLabel(s, i, es[n], keys, path);
    end, next := TailPart(s, k, es, n);
  }

  lemma TailPart(s: Text, k: nat, es: seq<Entry>, n: nat) returns (end: nat, next: nat)
    requires n < |es| && Wide(es[n].after) && Occurs(s, k, EntryTail(es, n))
    ensures end == k + |es[n].beforeValue| + |Print(es[n].value)| && end < next <= |s|
    ensures Occurs(s, k, es[n].beforeValue + Print(es[n].value)) && Ends(s, end)
    ensures ReadSeparator(s, end, RBRACE) == if n + 1 == |es| then Close(next) else Comma(next)
    ensures Occurs(s, next, MoreEntries(es, n)) && next + |MoreEntries(es, n)| == k + |EntryTail(es, n)|
  {
    var x := es[n].beforeValue + Print(es[n].value);
    end := k + |x|;
    next := end + |es[n].after| + 1;
    AfterText(s, k, x, es[n].after, EntryStop(es, n), MoreEntries(es, n));
  }

  /** One turn of the member loop. */
  lemma MemberTurn(s: Text, i: nat, keys: set<Text>, path: Path, name: Text, k: nat,
                   duplicate: Option<Path>, end: nat, last: bool, next: nat)
    requires i < |s| && ReadName(s, i, keys, path) == Success((name, k)) && k <= end < next <= |s|
    requires ReadValue(s, k, Member(path, name)) == Outcome(duplicate, end)
    requires ReadSeparator(s, end, RBRACE) == if last then Close(next) else Comma(next)
    ensures ReadMembers(s, i, keys, path) ==
            if duplicate.Some? then Fail(DuplicateKey(duplicate.value))
            else if last then At(next)
            else ReadMembers(s, next, keys + {name}, path)
  {
  }

  lemma RepeatedName(s: Text, i: nat, keys: set<Text>, path: Path)
    requires i < |s| && ReadName(s, i, keys, path).Failure?
    ensures ReadMembers(s, i, keys, path) == Fail(ReadName(s, i, keys, path).error)
  {
  }

  /** What reading member `n` leads to. */
  lemma {:induction false} EntryTurn(s: Text, i: nat, es: seq<Entry>, n: nat, keys: set<Text>, path: Path)
    returns (next: nat)
    requires n < |es| && Valid(Obj([], es)) && Occurs(s, i, PrintEntries(es, n))
    ensures i < |s| && SkipSpace(s, i) < |s| && s[SkipSpace(s, i)] == QUOTE
    ensures next <= |s| && next == i + |PrintEntries(es, n)| - |MoreEntries(es, n)|
    ensures n + 1 < |es| ==> Occurs(s, next, PrintEntries(es, n + 1))
    ensures var name := Name(es[n].name);
      var duplicate := FirstDuplicate(es[n].value, Member(path, name));
      ReadMembers(s, i, keys, path) ==
        if name in keys then Fail(DuplicateKey(Member(path, name)))
        else if duplicate.Some? then Fail(DuplicateKey(duplicate.value))
        else if n + 1 == |es| then At(next)
        else ReadMembers(s, next, keys + {name}, path)
    decreases es, |es| - n, 1
  {
    var k, end: nat;
    k, end, next := EntryPart(s, i, es, n, keys, path);
    if Name(es[n].name) in keys {
      RepeatedName(s, i, keys, path);
    } else {
      EntryValue(s, i, es[n], keys, path, k, end, n + 1 == |es|, next);
    }
  }

  lemma {:induction false} EntryValue(s: Text, i: nat, e: Entry, keys: set<Text>, path: Path,
                                      k: nat, end: nat, last: bool, next: nat)
    requires i < |s| && Valid(e.value) && ValidPieces(e.name) && Wide(e.beforeValue)
    requires ReadName(s, i, keys, path) == Success((Name(e.name), k))
    requires Occurs(s, k, e.beforeValue + Print(e.value)) && end == k + |e.beforeValue| + |Print(e.value)|
    requires end < next <= |s| && Ends(s, end)
    requires ReadSeparator(s, end, RBRACE) == if last then Close(next) else Comma(next)
    ensures var duplicate := FirstDuplicate(e.value, Member(path, Name(e.name)));
      ReadMembers(s, i, keys, path) ==
        if duplicate.Some? then Fail(DuplicateKey(duplicate.value))
        else if last then At(next)
        else ReadMembers(s, next, keys + {Name(e.name)}, path)
    decreases e, 3
  {
    var place := Member(path, Name(e.name));
    ReadsValue(s, k, e.beforeValue, e.value, place);
    MemberTurn(s, i, keys, path, Name(e.name), k, FirstDuplicate(e.value, place), end, last, next);
  }

  lemma {:induction false} ReadsEntries(s: Text, i: nat, es: seq<Entry>, n: nat, keys: set<Text>, path: Path,
                                        end: nat)
    requires n < |es| && Valid(Obj([], es)) && Occurs(s, i, PrintEntries(es, n))
    requires end == i + |PrintEntries(es, n)|
    ensures ReadMembers(s, i, keys, path) == Outcome(DuplicateInEntries(es, n, keys, path), end)
    ensures i < |s| && SkipSpace(s, i) < |s| && s[SkipSpace(s, i)] == QUOTE
    decreases es, |es| - n, 2
  {
    var name := Name(es[n].name);
    var next := EntryTurn(s, i, es, n, keys, path);
    if name in keys || FirstDuplicate(es[n].value, Member(path, name)).Some? || n + 1 == |es| {
      LastEntry(es, n, keys, path);
    } else {
      ReadsEntries(s, next, es, n + 1, keys + {name}, path, end);
    }
  }

  /** The entry that decides what the rest of the object comes to. */
  lemma LastEntry(es: seq<Entry>, n: nat, keys: set<Text>, path: Path)
    requires n < |es| && ValidEntries(es)
    ensures var name := Name(es[n].name);
      var duplicate := FirstDuplicate(es[n].value, Member(path, name));
      && (name in keys ==> DuplicateInEntries(es, n, keys, path) == Some(Member(path, name)))
      && (name !in keys && duplicate.Some? ==> DuplicateInEntries(es, n, keys, path) == duplicate)
      && (name !in keys && duplicate.None? && n + 1 == |es| ==> DuplicateInEntries(es, n, keys, path) == None)
    ensures n + 1 == |es| ==> MoreEntries(es, n) == []
  {
  }

  lemma {:induction false} ReadsFullObject(s: Text, i: nat, j: nat, es: seq<Entry>, path: Path, end: nat)
    requires es != [] && Valid(Obj([], es)) && i <= |s| && SkipSpace(s, i) == j
    requires Sees(s, j, LBRACE) && Occurs(s, j + 1, PrintEntries(es, 0)) && end == j + 1 + |PrintEntries(es, 0)|
    ensures ReadValue(s, i, path) == Outcome(DuplicateInEntries(es, 0, {}, path), end)
    decreases es, |es|, 3
  {
    ReadsEntries(s, j + 1, es, 0, {}, path, end);
    ObjectTurn(s, i, j, path);
  }

  lemma ReadsEmptyObject(s: Text, i: nat, j: nat, blank: Text, path: Path)
    requires Wide(blank) && i <= |s| && SkipSpace(s, i) == j && Occurs(s, j, [LBRACE] + (blank + [RBRACE]))
    ensures ReadValue(s, i, path) == At(j + |blank| + 2)
  {
    EmptyPart(s, j, LBRACE, blank, RBRACE);
    ObjectTurn(s, i, j, path);
  }

  lemma ObjectText(s: Text, j: nat, es: seq<Entry>)
    requires es != [] && Occurs(s, j, [LBRACE] + PrintEntries(es, 0))
    ensures Sees(s, j, LBRACE) && Occurs(s, j + 1, PrintEntries(es, 0))
  {
    OccursConcat(s, j, [LBRACE], PrintEntries(es, 0));
    OccursAt(s, j, [LBRACE], 0);
  }

  lemma {:induction false} ReadsObject(s: Text, i: nat, j: nat, t: Tree, path: Path)
    requires Valid(t) && t.Obj? && i <= |s| && SkipSpace(s, i) == j && Occurs(s, j, Print(t))
    ensures ReadValue(s, i, path) == Outcome(FirstDuplicate(t, path), j + |Print(t)|)
    decreases t, 2
  {
    var es := t.entries;
    if es == [] {
      ReadsEmptyObject(s, i, j, t.blank, path);
    } else {
      ObjectText(s, j, es);
      ReadsFullObject(s, i, j, es, path, j + 1 + |PrintEntries(es, 0)|);
    }
  }

  lemma ObjectTurn(s: Text, i: nat, j: nat, path: Path)
    requires i <= |s| && SkipSpace(s, i) == j && Sees(s, j, LBRACE) && SkipSpace(s, j + 1) < |s|
    ensures ReadValue(s, i, path) ==
            if s[SkipSpace(s, j + 1)] == RBRACE then At(SkipSpace(s, j + 1) + 1) else ReadMembers(s, j + 1, {}, path)
  {
    if s[SkipSpace(s, j + 1)] != RBRACE {
      SameMembers(s, j + 1, path);
    }
  }

  /**
   The scanner accepts a printed JSON text exactly when no object in it repeats a name, and
   otherwise reports the first repetition.
   */
  lemma ScannerDecides(before: Text, t: Tree, after: Text)
    requires Valid(t) && Wide(before) && Wide(after)
    ensures Scanned(before + Print(t) + after) ==
            match FirstDuplicate(t, Root) case Some(p) => Some(DuplicateKey(p)) case None => None
    ensures Scanned(before + Print(t) + after) == None <==> DistinctNames(t)
  {
    var s := before + Print(t) + after;
    OccursConcat(s, 0, before + Print(t), after);
    ReadsDocument(s, before, t, after);
    NoDuplicateExactlyDistinct(t, Root);
  }

  lemma ReadsDocument(s: Text, before: Text, t: Tree, after: Text)
    requires Valid(t) && Wide(before) && Wide(after) && |s| == |before| + |Print(t)| + |after|
    requires Occurs(s, 0, before + Print(t)) && Occurs(s, |before| + |Print(t)|, after)
    ensures Scanned(s) == match FirstDuplicate(t, Root) case Some(p) => Some(DuplicateKey(p)) case None => None
  {
    var end := |before| + |Print(t)|;
    if after != [] { OccursAt(s, end, after, 0); }
    ReadsValue(s, 0, before, t, Root);
    SkipsBlank(s, end, after);
  }

  // ---- Numbers and literals (sections 3 and 6 of RFC 8259) -----------------------------

  predicate IsDigit(u: CodeUnit) {
    0x30 <= u <= 0x39
  }

  predicate Digits(s: Text) {
    s != [] && forall i | 0 <= i < |s| :: IsDigit(s[i])
  }

  /** `int [ frac ] [ exp ]` with an optional minus; an absent part is empty. */
  datatype Numeral = Numeral(minus: bool, whole: Text, fraction: Text, exponentMark: Text, exponent: Text) {
    predicate Valid() {
      && Digits(whole) && (|whole| > 1 ==> whole[0] != 0x30)
      && (fraction == [] || Digits(fraction))
      && if exponentMark == [] then exponent == []
         else exponentMark in [[0x65], [0x45], [0x65, 0x2B], [0x65, 0x2D], [0x45, 0x2B], [0x45, 0x2D]] && Digits(exponent)
    }

    function Print(): Text {
      (if minus then [0x2D] else []) + whole + (if fraction == [] then [] else [0x2E] + fraction)
      + exponentMark + exponent
    }
  }

  const LITERALS: seq<Text> := [
    [0x74, 0x72, 0x75, 0x65], [0x66, 0x61, 0x6C, 0x73, 0x65], [0x6E, 0x75, 0x6C, 0x6C]
  ]

  lemma NumbersAreAtoms(n: Numeral)
    requires n.Valid()
    ensures ValidAtom(n.Print())
  {
    var sign: Text := if n.minus then [0x2D] else [];
    var frac: Text := if n.fraction == [] then [] else [0x2E] + n.fraction;
    PlainConcat(sign, n.whole);
    PlainConcat(sign + n.whole, frac);
    PlainConcat(sign + n.whole + frac, n.exponentMark);
    PlainConcat(sign + n.whole + frac + n.exponentMark, n.exponent);
  }

  /** Units that can stand in a number. */
  predicate Plain(s: Text) {
    forall i | 0 <= i < |s| :: IsDigit(s[i]) || s[i] in [0x2B, 0x2D, 0x2E, 0x45, 0x65]
  }

  lemma PlainConcat(x: Text, y: Text)
    requires Plain(x) && Plain(y)
    ensures Plain(x + y)
  {
  }

  lemma LiteralsAreAtoms(k: nat)
    requires k < |LITERALS|
    ensures ValidAtom(LITERALS[k])
  {
  }
}
