/**
 Every text the scanner lets through has the shape it looks for: read backwards, an accepted text
 is a syntax tree, so the scanner decides exactly its own grammar.
 */
module JsonShape {
  import opened Wrappers
  import opened JsonScanner
  import opened JsonGrammar

  // ---- Runs of characters ----------------------------------------------------------------

  lemma {:induction false} SpaceRead(s: Text, i: nat)
    requires i <= |s|
    ensures Wide(s[i..SkipSpace(s, i)])
    decreases |s| - i
  {
    if i < |s| && IsSpace(s[i]) {
      SpaceRead(s, i + 1);
      assert s[i..SkipSpace(s, i)] == [s[i]] + s[i + 1..SkipSpace(s, i + 1)];
    }
  }

  lemma {:induction false} AtomRead(s: Text, i: nat)
    requires i <= |s|
    ensures forall u | u in s[i..SkipAtom(s, i)] :: !EndsAtom(u)
    decreases |s| - i
  {
    if i < |s| && !EndsAtom(s[i]) {
      AtomRead(s, i + 1);
      assert s[i..SkipAtom(s, i)] == [s[i]] + s[i + 1..SkipAtom(s, i + 1)];
    }
  }

  lemma {:induction false} LooseRead(s: Text, i: nat)
    requires StringEnd(s, i).Some?
    ensures var j := StringEnd(s, i).value; s[j - 1] == QUOTE && LooseBody(s[i..j - 1])
    decreases |s| - i
  {
    var j := StringEnd(s, i).value;
    if s[i] == BACKSLASH {
      LooseRead(s, i + 2);
      assert s[i..j - 1][2..] == s[i + 2..j - 1];
    } else if s[i] != QUOTE {
      LooseRead(s, i + 1);
      assert s[i..j - 1][1..] == s[i + 1..j - 1];
    }
  }

  // ---- Names -----------------------------------------------------------------------------

  lemma {:induction false} PiecesShift(p: Piece, rest: seq<Piece>, k: nat)
    requires k <= |rest|
    ensures PrintPieces([p] + rest, k + 1) == PrintPieces(rest, k)
    decreases |rest| - k
  {
    hide Piece.Print;
    if k < |rest| {
      assert ([p] + rest)[k + 1] == rest[k];
      PiecesShift(p, rest, k + 1);
    }
  }

  lemma MorePieces(p: Piece, rest: seq<Piece>)
    requires p.Valid() && ValidPieces(rest)
    ensures ValidPieces([p] + rest) && Name([p] + rest) == [p.u] + Name(rest)
    ensures PrintPieces([p] + rest, 0) == p.Print() + PrintPieces(rest, 0)
  {
    PiecesShift(p, rest, 0);
  }

  /** Every four digits spell a code unit. */
  lemma HexSpelled(a: CodeUnit, b: CodeUnit, c: CodeUnit, d: CodeUnit) returns (p: Piece)
    requires IsHex(a) && IsHex(b) && IsHex(c) && IsHex(d)
    ensures p.Valid() && p.Print() == [BACKSLASH, 0x75, a, b, c, d] && p.u == HexUnit(a, b, c, d)
  {
    var u := HexUnit(a, b, c, d);
    p := Hex(u, a < 0x61, b < 0x61, c < 0x61, d < 0x61);
    DigitsOf(HexValue(a), HexValue(b), HexValue(c), HexValue(d));
    DigitSpelled(a);
    DigitSpelled(b);
    DigitSpelled(c);
    DigitSpelled(d);
    hide HexValue, HexDigit, IsHex;
  }

  lemma DigitSpelled(h: CodeUnit)
    requires IsHex(h)
    ensures HexDigit(HexValue(h), h < 0x61) == h
  {
  }

  lemma LastDigit(q: nat, r: nat)
    requires r < 16
    ensures (0x10 * q + r) / 0x10 == q && (0x10 * q + r) % 16 == r
  {
  }

  lemma DigitsOf(w: nat, x: nat, y: nat, z: nat)
    requires w < 16 && x < 16 && y < 16 && z < 16
    ensures var u := 0x1000 * w + 0x100 * x + 0x10 * y + z;
      u / 0x1000 == w && u / 0x100 % 16 == x && u / 0x10 % 16 == y && u % 16 == z
  {
    var wx := 0x10 * w + x;
    var wxy := 0x10 * wx + y;
    var u := 0x10 * wxy + z;
    LastDigit(w, x);
    LastDigit(wx, y);
    LastDigit(wxy, z);
    assert u / 0x100 == u / 0x10 / 0x10 && u / 0x1000 == u / 0x10 / 0x10 / 0x10;
  }

  lemma {:induction false} PiecesRead(s: Text, i: nat, end: nat) returns (ps: seq<Piece>)
    requires i <= end <= |s| && Decode(s, i, end).Some?
    ensures ValidPieces(ps) && PrintPieces(ps, 0) == s[i..end] && Name(ps) == Decode(s, i, end).value
    decreases end - i
  {
    if i == end {
      ps := [];
    } else {
      var p, n := FirstPiece(s, i, end);
      var rest := PiecesRead(s, i + n, end);
      ps := [p] + rest;
      MorePieces(p, rest);
      assert s[i..end] == s[i..i + n] + s[i + n..end];
    }
  }

  lemma FirstPiece(s: Text, i: nat, end: nat) returns (p: Piece, n: nat)
    requires i < end <= |s| && Decode(s, i, end).Some?
    ensures 0 < n && i + n <= end && p.Valid() && p.Print() == s[i..i + n]
    ensures Decode(s, i, end) == Prepend(p.u, Decode(s, i + n, end))
  {
    if s[i] != BACKSLASH {
      p, n := Raw(s[i]), 1;
    } else if i + 1 < end && ShortEscape(s[i + 1]).Some? {
      p, n := Short(ShortEscape(s[i + 1]).value), 2;
      LetterOf(s[i + 1]);
    } else {
      n := 6;
      p := HexSpelled(s[i + 2], s[i + 3], s[i + 4], s[i + 5]);
    }
  }

  lemma LetterOf(x: CodeUnit)
    requires ShortEscape(x).Some?
    ensures ShortLetter(ShortEscape(x).value) == Some(x)
  {
  }

  lemma NameParts(s: Text, i: nat, keys: set<Text>, path: Path) returns (j: nat, end: nat)
    requires i <= |s| && ReadName(s, i, keys, path).Success?
    ensures j == SkipSpace(s, i) && Sees(s, j, QUOTE) && j + 2 <= end <= |s| && StringEnd(s, j + 1) == Some(end)
    ensures Decode(s, j + 1, end - 1).Some? && Sees(s, SkipSpace(s, end), COLON)
    ensures ReadName(s, i, keys, path).value.1 == SkipSpace(s, end) + 1
  {
    j := SkipSpace(s, i);
    end := ReadString(s, j).index;
  }

  lemma NameRead(s: Text, i: nat, keys: set<Text>, path: Path)
    returns (before: Text, name: seq<Piece>, beforeColon: Text)
    requires i <= |s| && ReadName(s, i, keys, path).Success?
    ensures Wide(before) && ValidPieces(name) && Wide(beforeColon)
    ensures s[i..ReadName(s, i, keys, path).value.1] == before + Quoted(name) + beforeColon + [COLON]
  {
    hide ReadName, Decode, StringEnd, SkipSpace, PrintPieces, ValidPieces, LooseBody, Name;
    var j, end := NameParts(s, i, keys, path);
    var k := SkipSpace(s, end);
    SpaceRead(s, i);
    SpaceRead(s, end);
    LooseRead(s, j + 1);
    name := PiecesRead(s, j + 1, end - 1);
    before, beforeColon := s[i..j], s[end..k];
    QuotedSlice(s, j, end);
    FourSlices(s, i, j, end, k);
  }

  lemma QuotedSlice(s: Text, j: nat, end: nat)
    requires j + 2 <= end <= |s| && s[j] == QUOTE && s[end - 1] == QUOTE
    ensures s[j..end] == [QUOTE] + s[j + 1..end - 1] + [QUOTE]
  {
  }

  lemma FourSlices(s: Text, i: nat, j: nat, end: nat, k: nat)
    requires i <= j <= end <= k < |s|
    ensures s[i..k + 1] == s[i..j] + s[j..end] + s[end..k] + [s[k]]
  {
  }

  // ---- Lists -----------------------------------------------------------------------------

  lemma {:induction false} ElementsShift(e: Element, rest: seq<Element>, k: nat)
    requires k < |rest|
    ensures PrintElements([e] + rest, k + 1) == PrintElements(rest, k)
    decreases |rest| - k
  {
    if k + 1 < |rest| { ElementsShift(e, rest, k + 1); }
  }

  lemma {:induction false} EntriesShift(e: Entry, rest: seq<Entry>, k: nat)
    requires k < |rest|
    ensures PrintEntries([e] + rest, k + 1) == PrintEntries(rest, k)
    decreases |rest| - k
  {
    if k + 1 < |rest| { EntriesShift(e, rest, k + 1); }
  }

  /** White space and the separator behind an entry. */
  lemma SeparatorRead(s: Text, i: nat, close: CodeUnit) returns (after: Text, stop: CodeUnit)
    requires i <= |s| && !ReadSeparator(s, i, close).Neither?
    ensures var j := ReadSeparator(s, i, close).index;
      Wide(after) && s[i..j] == after + [stop] && stop == if ReadSeparator(s, i, close).Close? then close else COMMA
  {
    SpaceRead(s, i);
    after := s[i..SkipSpace(s, i)];
    stop := s[SkipSpace(s, i)];
  }

  // ---- Values ----------------------------------------------------------------------------

  lemma {:induction false} ValueRead(s: Text, i: nat, path: Path) returns (w: Text, t: Tree)
    requires i <= |s| && ReadValue(s, i, path).At?
    ensures Wide(w) && Valid(t) && s[i..ReadValue(s, i, path).index] == w + Print(t)
    decreases |s| - i, 1
  {
    hide ReadItems, ReadMembers, PrintElements, PrintEntries, PrintPieces, ValidPieces, Decode;
    var j, end := SkipSpace(s, i), ReadValue(s, i, path).index;
    SpaceRead(s, i);
    w := s[i..j];
    assert s[i..end] == w + s[j..end];
    if Sees(s, j, QUOTE) {
      LooseRead(s, j + 1);
      t := Loose(s[j + 1..end - 1]);
      assert s[j..end] == [QUOTE] + s[j + 1..end - 1] + [QUOTE];
    } else if Sees(s, j, LBRACE) {
      t := ObjectRead(s, i, j, path);
    } else if Sees(s, j, LBRACKET) {
      t := ArrayRead(s, i, j, path);
    } else {
      AtomRead(s, j);
      t := Atom(s[j..end]);
      forall k | 0 <= k < |t.text| ensures !EndsAtom(t.text[k]) { assert t.text[k] in t.text; }
    }
  }

  lemma {:induction false} ArrayRead(s: Text, i: nat, j: nat, path: Path) returns (t: Tree)
    requires i <= |s| && j == SkipSpace(s, i) && Sees(s, j, LBRACKET) && ReadValue(s, i, path).At?
    ensures Valid(t) && s[j..ReadValue(s, i, path).index] == Print(t)
    decreases |s| - i, 0
  {
    hide ReadItems, ReadMembers, PrintElements, ReadString, SkipAtom;
    var k, end := SkipSpace(s, j + 1), ReadValue(s, i, path).index;
    SpaceRead(s, j + 1);
    if Sees(s, k, RBRACKET) {
      t := Arr(s[j + 1..k], []);
      assert s[j..end] == [LBRACKET] + (s[j + 1..k] + [RBRACKET]);
    } else {
      SameItems(s, j + 1, path);
      var es := ItemsRead(s, j + 1, 0, path);
      t := Arr([], es);
      assert s[j..end] == [LBRACKET] + s[j + 1..end];
    }
  }

  /** What an accepted item is made of, and what follows it. */
  lemma ItemsStep(s: Text, i: nat, n: nat, path: Path)
    requires i <= |s| && ReadItems(s, i, n, path).At?
    ensures ReadValue(s, i, Item(path, n)).At?
    ensures var end, separator := ReadItems(s, i, n, path).index,
                                  ReadSeparator(s, ReadValue(s, i, Item(path, n)).index, RBRACKET);
      match separator
      case Close(j) => j == end
      case Comma(j) => ReadItems(s, j, n + 1, path).At? && ReadItems(s, j, n + 1, path).index == end
      case Neither => false
  {
    hide ReadValue, ReadSeparator;
  }

  lemma {:induction false} ItemsRead(s: Text, i: nat, n: nat, path: Path) returns (es: seq<Element>)
    requires i <= |s| && ReadItems(s, i, n, path).At?
    ensures es != [] && Valid(Arr([], es)) && s[i..ReadItems(s, i, n, path).index] == PrintElements(es, 0)
    decreases |s| - i, 2
  {
    hide ReadItems, ReadValue, ReadSeparator, Valid, PrintElements, PrintElement, Wide, Print;
    ItemsStep(s, i, n, path);
    var value, end := ReadValue(s, i, Item(path, n)).index, ReadItems(s, i, n, path).index;
    var w, t := ValueRead(s, i, Item(path, n));
    var after, stop := SeparatorRead(s, value, RBRACKET);
    var separator := ReadSeparator(s, value, RBRACKET);
    var next, e := separator.index, Element(w, t, after);
    Sliced(s, i, value, next);
    ElementRead(e, s[i..value], s[value..next], stop);
    if separator.Close? {
      es := [e];
      LastElement(e);
    } else {
      var rest := ItemsRead(s, next, n + 1, path);
      es := [e] + rest;
      Sliced(s, i, next, end);
      MoreRead(e, rest);
    }
  }

  lemma Sliced(s: Text, i: nat, j: nat, k: nat)
    requires i <= j <= k <= |s|
    ensures s[i..k] == s[i..j] + s[j..k]
  {
  }

  lemma ElementRead(e: Element, value: Text, tail: Text, stop: CodeUnit)
    requires value == e.before + Print(e.value) && tail == e.after + [stop]
    ensures value + tail == PrintElement(e) + [stop]
  {
  }

  lemma LastElement(e: Element)
    requires Wide(e.before) && Wide(e.after) && Valid(e.value)
    ensures Valid(Arr([], [e])) && PrintElements([e], 0) == PrintElement(e) + [RBRACKET]
  {
  }

  lemma MoreRead(e: Element, rest: seq<Element>)
    requires Wide(e.before) && Wide(e.after) && Valid(e.value) && Valid(Arr([], rest)) && rest != []
    ensures Valid(Arr([], [e] + rest))
    ensures PrintElements([e] + rest, 0) == PrintElement(e) + [COMMA] + PrintElements(rest, 0)
  {
    ElementsShift(e, rest, 0);
    ValidMore(e, rest);
    hide Valid;
    assert ([e] + rest)[0] == e;
  }

  lemma ValidMore(e: Element, rest: seq<Element>)
    requires Wide(e.before) && Wide(e.after) && Valid(e.value) && Valid(Arr([], rest))
    ensures Valid(Arr([], [e] + rest))
  {
  }

  lemma {:induction false} ObjectRead(s: Text, i: nat, j: nat, path: Path) returns (t: Tree)
    requires i <= |s| && j == SkipSpace(s, i) && Sees(s, j, LBRACE) && ReadValue(s, i, path).At?
    ensures Valid(t) && s[j..ReadValue(s, i, path).index] == Print(t)
    decreases |s| - i, 0
  {
    hide ReadItems, ReadMembers, PrintEntries, ReadString, SkipAtom;
    var k, end := SkipSpace(s, j + 1), ReadValue(s, i, path).index;
    SpaceRead(s, j + 1);
    if Sees(s, k, RBRACE) {
      t := Obj(s[j + 1..k], []);
      assert s[j..end] == [LBRACE] + (s[j + 1..k] + [RBRACE]);
    } else {
      SameMembers(s, j + 1, path);
      var es := MembersRead(s, j + 1, {}, path);
      t := Obj([], es);
      assert s[j..end] == [LBRACE] + s[j + 1..end];
    }
  }

  /** What an accepted member is made of, and what follows it. */
  lemma MembersStep(s: Text, i: nat, keys: set<Text>, path: Path) returns (name: Text, k: nat)
    requires i <= |s| && ReadMembers(s, i, keys, path).At?
    ensures ReadName(s, i, keys, path) == Success((name, k)) && i < k <= |s| && ReadValue(s, k, Member(path, name)).At?
    ensures var end, separator := ReadMembers(s, i, keys, path).index,
                                  ReadSeparator(s, ReadValue(s, k, Member(path, name)).index, RBRACE);
      match separator
      case Close(j) => j == end
      case Comma(j) =>
        ReadMembers(s, j, keys + {name}, path).At? && ReadMembers(s, j, keys + {name}, path).index == end
      case Neither => false
  {
    hide ReadValue, ReadSeparator, ReadName;
    name, k := ReadName(s, i, keys, path).value.0, ReadName(s, i, keys, path).value.1;
  }

  lemma {:induction false} MembersRead(s: Text, i: nat, keys: set<Text>, path: Path) returns (es: seq<Entry>)
    requires i <= |s| && ReadMembers(s, i, keys, path).At?
    ensures es != [] && Valid(Obj([], es)) && s[i..ReadMembers(s, i, keys, path).index] == PrintEntries(es, 0)
    decreases |s| - i, 2
  {
    hide ReadMembers, ReadName, ReadValue, ReadSeparator, Valid, PrintEntries, PrintEntry, Wide, Print, Quoted;
    hide ValidPieces;
    var name, k := MembersStep(s, i, keys, path);
    var end, value := ReadMembers(s, i, keys, path).index, ReadValue(s, k, Member(path, name)).index;
    var before, pieces, beforeColon := NameRead(s, i, keys, path);
    var w, t := ValueRead(s, k, Member(path, name));
    var after, stop := SeparatorRead(s, value, RBRACE);
    var separator := ReadSeparator(s, value, RBRACE);
    var next, e := separator.index, Entry(before, pieces, beforeColon, w, t, after);
    Sliced(s, i, k, value);
    Sliced(s, i, value, next);
    EntryRead(e, s[i..k], s[k..value], s[value..next], stop);
    if separator.Close? {
      es := [e];
      LastEntryRead(e);
    } else {
      var rest := MembersRead(s, next, keys + {name}, path);
      es := [e] + rest;
      Sliced(s, i, next, end);
      MoreEntriesRead(e, rest);
    }
  }

  predicate ValidEntry(e: Entry) {
    && ValidPieces(e.name) && Wide(e.before) && Wide(e.beforeColon) && Wide(e.beforeValue) && Wide(e.after)
    && Valid(e.value)
  }

  lemma LastEntryRead(e: Entry)
    requires ValidEntry(e)
    ensures Valid(Obj([], [e])) && PrintEntries([e], 0) == PrintEntry(e) + [RBRACE]
  {
  }

  lemma MoreEntriesRead(e: Entry, rest: seq<Entry>)
    requires ValidEntry(e) && Valid(Obj([], rest)) && rest != []
    ensures Valid(Obj([], [e] + rest))
    ensures PrintEntries([e] + rest, 0) == PrintEntry(e) + [COMMA] + PrintEntries(rest, 0)
  {
    EntriesShift(e, rest, 0);
    ValidMoreEntries(e, rest);
    hide Valid, PrintEntry;
    assert ([e] + rest)[0] == e;
  }

  lemma EntryRead(e: Entry, name: Text, value: Text, tail: Text, stop: CodeUnit)
    requires name == e.before + Quoted(e.name) + e.beforeColon + [COLON]
    requires value == e.beforeValue + Print(e.value) && tail == e.after + [stop]
    ensures name + value + tail == PrintEntry(e) + [stop]
  {
  }

  lemma ValidMoreEntries(e: Entry, rest: seq<Entry>)
    requires ValidEntry(e) && Valid(Obj([], rest))
    ensures Valid(Obj([], [e] + rest))
  {
  }

  // ---- The whole text --------------------------------------------------------------------

  /** White space, a value and white space. */
  ghost predicate IsText(content: Text, before: Text, t: Tree, after: Text) {
    Wide(before) && Valid(t) && Wide(after) && content == before + Print(t) + after
  }

  /**
   The scanner returns normally exactly for the texts of its grammar in which no object, at any
   depth, repeats a decoded name.
   */
  lemma ScannedExactly(content: Text)
    ensures Scanned(content) == None <==>
              exists before, t, after :: IsText(content, before, t, after) && DistinctNames(t)
  {
    if Scanned(content) == None {
      var before, t, after := TextRead(content);
    }
    if before, t, after :| IsText(content, before, t, after) && DistinctNames(t) {
      ScannerDecides(before, t, after);
    }
  }

  lemma TextRead(content: Text) returns (before: Text, t: Tree, after: Text)
    requires Scanned(content) == None
    ensures IsText(content, before, t, after) && DistinctNames(t)
  {
    hide ReadValue, SkipSpace, Print, Valid, Wide, DistinctNames, FirstDuplicate;
    var i := ReadValue(content, 0, Root).index;
    before, t := ValueRead(content, 0, Root);
    SpaceRead(content, i);
    after := content[i..];
    assert content == content[0..i] + after;
    assert content[i..SkipSpace(content, i)] == after;
    ScannerDecides(before, t, after);
  }
}
