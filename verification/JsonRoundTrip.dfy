/**
 `JSON.stringify` and the JSON grammar: the compact text of a value is a text of the grammar
 that denotes this value and no other.
 */
module JsonRoundTrip {
  import opened Wrappers
  import J = Json
  import T = JsonText
  import opened JsonScanner
  import opened JsonGrammar
  import Shape = JsonShape

  // ---- Code units ----------------------------------------------------------------------

  /** The UTF-16 code units of a character: one, or a surrogate pair. */
  function CharUnits(c: char): Text {
    var n := c as int;
    if n < 0x1_0000 then [n] else [0xD800 + (n - 0x1_0000) / 0x400, 0xDC00 + (n - 0x1_0000) % 0x400]
  }

  function Units(s: string): Text {
    if s == "" then [] else CharUnits(s[0]) + Units(s[1..])
  }

  lemma {:induction false} UnitsConcat(s: string, t: string)
    ensures Units(s + t) == Units(s) + Units(t)
  {
    if s == "" {
      assert s + t == t;
    } else {
      UnitsConcat(s[1..], t);
      hide CharUnits;
      assert (s + t)[1..] == s[1..] + t && (s + t)[0] == s[0];
      assert CharUnits(s[0]) + (Units(s[1..]) + Units(t)) == CharUnits(s[0]) + Units(s[1..]) + Units(t);
    }
  }

  lemma UnitsOne(c: char)
    ensures Units([c]) == CharUnits(c)
  {
    assert Units([c][1..]) == [];
  }

  lemma CharUnitsUnique(c: char, d: char, x: Text, y: Text)
    requires CharUnits(c) + x == CharUnits(d) + y
    ensures c == d && x == y
  {
    var s, t := CharUnits(c), CharUnits(d);
    var whole := s + x;
    assert whole[0] == s[0] == t[0];
    assert |s| == |t|;
    if |s| == 2 { assert whole[1] == s[1] == t[1]; }
    assert c as int == d as int;
    assert x == whole[|s|..] == y;
  }

  lemma {:induction false} UnitsInjective(s: string, t: string)
    requires Units(s) == Units(t)
    ensures s == t
  {
    if s != "" && t != "" {
      CharUnitsUnique(s[0], t[0], Units(s[1..]), Units(t[1..]));
      UnitsInjective(s[1..], t[1..]);
      assert s == [s[0]] + s[1..] && t == [t[0]] + t[1..];
    }
  }

  // ---- What a text denotes ---------------------------------------------------------------

  /** The tree writes this value: names and strings by what their escapes mean, members in order. */
  ghost predicate Denotes(t: Tree, v: J.Value) {
    match t
    case Atom(x) =>
      || (v.Null? && x == [0x6E, 0x75, 0x6C, 0x6C])
      || (v.Bool? && x == if v.b then [0x74, 0x72, 0x75, 0x65] else [0x66, 0x61, 0x6C, 0x73, 0x65])
      || (v.Number? && x == Units(v.token))
    case Str(ps) => v.String? && Name(ps) == Units(v.s)
    case Loose(_) => false
    case Arr(_, es) => v.Array? && |es| == |v.items| && forall i | 0 <= i < |es| :: Denotes(es[i].value, v.items[i])
    case Obj(_, es) =>
      v.Object? && |es| == |v.members| && forall i | 0 <= i < |es| ::
        Name(es[i].name) == Units(v.members[i].key) && Denotes(es[i].value, v.members[i].value)
  }

  lemma NumberIsNoWord(token: string)
    requires J.Valid(J.Number(token))
    ensures Units(token) != [] && Units(token)[0] != 0x6E && Units(token)[0] != 0x74 && Units(token)[0] != 0x66
  {
    assert J.NumberChar(token[0]);
  }

  /** A tree writes one value. */
  lemma {:induction false} DenotesOne(t: Tree, v: J.Value, w: J.Value)
    requires J.Valid(v) && J.Valid(w) && Denotes(t, v) && Denotes(t, w)
    ensures v == w
  {
    match t
    case Atom(x) =>
      if v.Number? { NumberIsNoWord(v.token); }
      if w.Number? { NumberIsNoWord(w.token); }
      if v.Number? && w.Number? { UnitsInjective(v.token, w.token); }
    case Str(ps) =>
      UnitsInjective(v.s, w.s);
    case Arr(_, es) =>
      forall i | 0 <= i < |es| ensures v.items[i] == w.items[i] { DenotesOne(es[i].value, v.items[i], w.items[i]); }
    case Obj(_, es) =>
      forall i | 0 <= i < |es| ensures v.members[i] == w.members[i] {
        UnitsInjective(v.members[i].key, w.members[i].key);
        DenotesOne(es[i].value, v.members[i].value, w.members[i].value);
      }
  }

  // ---- Strings ---------------------------------------------------------------------------

  /** How a character is written inside a string. */
  function CharPieces(c: char): seq<Piece> {
    var n := c as int;
    if c == '\"' || c == '\\' || n == 8 || n == 9 || n == 10 || n == 12 || n == 13 then [Short(n)]
    else if n < 0x20 then [Hex(n, false, false, false, false)]
    else if n < 0x1_0000 then [Raw(n)]
    else [Raw(CharUnits(c)[0]), Raw(CharUnits(c)[1])]
  }

  function StringPieces(s: string): seq<Piece> {
    if s == "" then [] else CharPieces(s[0]) + StringPieces(s[1..])
  }

  lemma OnePiece(p: Piece, rest: seq<Piece>)
    requires p.Valid() && ValidPieces(rest)
    ensures ValidPieces([p] + rest) && Name([p] + rest) == [p.u] + Name(rest)
    ensures PrintPieces([p] + rest, 0) == p.Print() + PrintPieces(rest, 0)
  {
    Shape.MorePieces(p, rest);
  }

  lemma PiecesAdd(c: char, rest: seq<Piece>)
    requires ValidPieces(rest)
    ensures ValidPieces(CharPieces(c) + rest) && Name(CharPieces(c) + rest) == CharUnits(c) + Name(rest)
    ensures PrintPieces(CharPieces(c) + rest, 0) == CharText(c) + PrintPieces(rest, 0)
  {
    hide Piece.Print, PrintPieces, Name, ValidPieces;
    var ps := CharPieces(c);
    if |ps| == 1 {
      OnePiece(ps[0], rest);
    } else {
      OnePiece(ps[1], rest);
      OnePiece(ps[0], [ps[1]] + rest);
      assert ps + rest == [ps[0]] + ([ps[1]] + rest);
      assert ps[0].Print() == [ps[0].u] && ps[1].Print() == [ps[1].u] by { RawPrints(ps[0].u); RawPrints(ps[1].u); }
    }
  }

  lemma RawPrints(u: CodeUnit)
    ensures Raw(u).Print() == [u]
  {
  }

  /** The code units of an escaped character. */
  function CharText(c: char): Text {
    var ps := CharPieces(c);
    if |ps| == 1 then ps[0].Print() else CharUnits(c)
  }

  lemma CharWritten(c: char)
    ensures Units(T.Escape(c)) == CharText(c)
  {
    var n := c as int;
    if |CharPieces(c)| == 2 || CharPieces(c)[0].Raw? {
      UnitsOne(c);
    } else if CharPieces(c)[0].Short? {
      var e := T.Escape(c);
      assert e == [e[0]] + [e[1]];
      UnitsConcat([e[0]], [e[1]]);
      UnitsOne(e[0]);
      UnitsOne(e[1]);
    } else {
      ControlWritten(n);
    }
  }

  lemma ControlWritten(n: nat)
    requires n < 0x20 && n != 8 && n != 9 && n != 10 && n != 12 && n != 13
    ensures Units(T.Escape(n as char)) == Hex(n, false, false, false, false).Print()
  {
    var e := T.Escape(n as char);
    var a, b := T.HexDigit(n / 16), T.HexDigit(n % 16);
    assert e == "\\u00" + [a, b];
    SixUnits(e);
    assert n / 0x10 % 16 == n / 16;
    DigitUnits(n / 16);
    DigitUnits(n % 16);
  }

  lemma DigitUnits(k: nat)
    requires k < 16
    ensures CharUnits(T.HexDigit(k)) == [HexDigit(k, false)]
  {
  }

  lemma TwoUnits(c: char, d: char)
    ensures Units([c, d]) == CharUnits(c) + CharUnits(d)
  {
    assert [c, d] == [c] + [d];
    UnitsConcat([c], [d]);
    UnitsOne(c);
    UnitsOne(d);
  }

  lemma FourUnits(e: string)
    requires |e| == 4
    ensures Units(e) == CharUnits(e[0]) + CharUnits(e[1]) + CharUnits(e[2]) + CharUnits(e[3])
  {
    hide CharUnits, Units;
    assert e == [e[0], e[1]] + [e[2], e[3]];
    UnitsConcat([e[0], e[1]], [e[2], e[3]]);
    TwoUnits(e[0], e[1]);
    TwoUnits(e[2], e[3]);
  }

  lemma SixUnits(e: string)
    requires |e| == 6
    ensures Units(e) == CharUnits(e[0]) + CharUnits(e[1]) + CharUnits(e[2]) + CharUnits(e[3]) + CharUnits(e[4])
                        + CharUnits(e[5])
  {
    hide CharUnits, Units;
    assert e == e[..4] + [e[4], e[5]];
    UnitsConcat(e[..4], [e[4], e[5]]);
    FourUnits(e[..4]);
    TwoUnits(e[4], e[5]);
  }

  lemma {:induction false} StringWritten(s: string)
    ensures ValidPieces(StringPieces(s)) && Name(StringPieces(s)) == Units(s)
    ensures Units(T.StringTail(s)) == PrintPieces(StringPieces(s), 0) + [QUOTE]
  {
    if s == "" {
      UnitsOne('\"');
    } else {
      StringWritten(s[1..]);
      hide T.Escape, CharUnits, CharPieces, CharText;
      PiecesAdd(s[0], StringPieces(s[1..]));
      CharWritten(s[0]);
      UnitsConcat(T.Escape(s[0]), T.StringTail(s[1..]));
    }
  }

  lemma QuoteWritten(s: string)
    ensures Units(T.Quote(s)) == Quoted(StringPieces(s))
  {
    StringWritten(s);
    UnitsConcat("\"", T.StringTail(s));
    UnitsOne('\"');
  }

  // ---- Values ----------------------------------------------------------------------------

  function ElementsOf(items: seq<J.Value>): seq<Element> {
    if items == [] then [] else [Element([], TreeOf(items[0]), [])] + ElementsOf(items[1..])
  }

  function EntryOf(m: J.Member): Entry {
    Entry([], StringPieces(m.key), [], [], TreeOf(m.value), [])
  }

  function EntriesOf(ms: seq<J.Member>): seq<Entry> {
    if ms == [] then [] else [EntryOf(ms[0])] + EntriesOf(ms[1..])
  }

  /** The tree of the compact text. */
  function TreeOf(v: J.Value): Tree {
    match v
    case Null => Atom([0x6E, 0x75, 0x6C, 0x6C])
    case Bool(b) => Atom(if b then [0x74, 0x72, 0x75, 0x65] else [0x66, 0x61, 0x6C, 0x73, 0x65])
    case Number(token) => Atom(Units(token))
    case String(s) => Str(StringPieces(s))
    case Array(items) => Arr([], ElementsOf(items))
    case Object(ms) => Obj([], EntriesOf(ms))
  }

  lemma {:induction false} ElementsDenote(items: seq<J.Value>)
    ensures |ElementsOf(items)| == |items|
    ensures forall i | 0 <= i < |items| :: Denotes(ElementsOf(items)[i].value, items[i])
    decreases items
  {
    if items != [] {
      TreeDenotes(items[0]);
      ElementsDenote(items[1..]);
    }
  }

  lemma {:induction false} EntriesDenote(ms: seq<J.Member>)
    ensures |EntriesOf(ms)| == |ms|
    ensures forall i | 0 <= i < |ms| ::
              Name(EntriesOf(ms)[i].name) == Units(ms[i].key) && Denotes(EntriesOf(ms)[i].value, ms[i].value)
    decreases ms
  {
    if ms != [] {
      StringWritten(ms[0].key);
      TreeDenotes(ms[0].value);
      EntriesDenote(ms[1..]);
    }
  }

  lemma {:induction false} TreeDenotes(v: J.Value)
    ensures Denotes(TreeOf(v), v)
  {
    match v
    case String(s) => StringWritten(s);
    case Array(items) => ElementsDenote(items);
    case Object(ms) => EntriesDenote(ms);
    case _ =>
  }

  lemma {:induction false} PlainUnits(token: string)
    requires forall i | 0 <= i < |token| :: J.NumberChar(token[i])
    ensures Plain(Units(token)) && |Units(token)| == |token|
  {
    if token != "" {
      PlainUnits(token[1..]);
      var c := token[0];
      assert J.NumberChar(c);
      assert Plain(CharUnits(c));
      PlainConcat(CharUnits(c), Units(token[1..]));
    }
  }

  lemma {:induction false} ElementsValid(items: seq<J.Value>)
    requires forall i | 0 <= i < |items| :: J.Valid(items[i])
    ensures Valid(Arr([], ElementsOf(items)))
    decreases items
  {
    if items != [] {
      TreeValid(items[0]);
      ElementsValid(items[1..]);
      Shape.ValidMore(Element([], TreeOf(items[0]), []), ElementsOf(items[1..]));
    }
  }

  lemma {:induction false} EntriesValid(ms: seq<J.Member>)
    requires forall i | 0 <= i < |ms| :: J.Valid(ms[i].value)
    ensures Valid(Obj([], EntriesOf(ms)))
    decreases ms
  {
    if ms != [] {
      StringWritten(ms[0].key);
      TreeValid(ms[0].value);
      EntriesValid(ms[1..]);
      Shape.ValidMoreEntries(EntryOf(ms[0]), EntriesOf(ms[1..]));
    }
  }

  lemma {:induction false} TreeValid(v: J.Value)
    requires J.Valid(v)
    ensures Valid(TreeOf(v))
  {
    match v
    case Number(token) => PlainUnits(token);
    case String(s) => StringWritten(s);
    case Array(items) => ElementsValid(items);
    case Object(ms) => EntriesValid(ms);
    case _ =>
  }

  lemma WordsWritten()
    ensures Units("null") == [0x6E, 0x75, 0x6C, 0x6C]
    ensures Units("true") == [0x74, 0x72, 0x75, 0x65]
    ensures Units("false") == [0x66, 0x61, 0x6C, 0x73, 0x65]
  {
    hide Units;
    FourUnits("null");
    FourUnits("true");
    assert "false" == "fals" + "e";
    UnitsConcat("fals", "e");
    FourUnits("fals");
    UnitsOne('e');
  }

  lemma {:induction false} ItemsWritten(items: seq<J.Value>)
    requires items != [] && forall i | 0 <= i < |items| :: J.Valid(items[i])
    ensures PrintElements(ElementsOf(items), 0) == Units(T.Stringify(items[0]) + T.ItemsTail(items[1..]))
    decreases items
  {
    hide T.Stringify, Print, Valid, TreeOf, Units, J.Valid, CharUnits;
    var e, rest := Element([], TreeOf(items[0]), []), items[1..];
    var x, y := T.Stringify(items[0]), T.ItemsTail(rest);
    ValueWritten(items[0]);
    TreeValid(items[0]);
    UnitsConcat(x, y);
    assert PrintElement(e) == Units(x);
    if rest == [] {
      Shape.LastElement(e);
      assert ElementsOf(items) == [e];
      CloseUnits();
    } else {
      ItemsWritten(rest);
      ElementsValid(rest);
      Shape.MoreRead(e, ElementsOf(rest));
      CommaUnits();
      TailWritten(',', T.Stringify(rest[0]), T.ItemsTail(rest[1..]), COMMA);
    }
  }

  lemma CommaUnits()
    ensures CharUnits(',') == [COMMA]
  {
  }

  lemma CloseUnits()
    ensures Units("]") == [RBRACKET] && Units("}") == [RBRACE]
    ensures Units("[]") == [LBRACKET, RBRACKET] && Units("{}") == [LBRACE, RBRACE]
  {
    UnitsOne(']');
    UnitsOne('}');
    TwoUnits('[', ']');
    TwoUnits('{', '}');
  }

  lemma TailWritten(c: char, x: string, y: string, u: CodeUnit)
    requires CharUnits(c) == [u]
    ensures Units([c] + x + y) == [u] + Units(x + y)
  {
    assert [c] + x + y == [c] + (x + y);
    UnitsConcat([c], x + y);
    UnitsOne(c);
  }

  lemma EntryPrinted(m: J.Member)
    ensures PrintEntry(EntryOf(m)) == Quoted(StringPieces(m.key)) + [COLON] + Print(TreeOf(m.value))
  {
    hide Quoted, Print, TreeOf, StringPieces;
  }

  lemma PairWritten(x: string, y: string)
    ensures Units(x + ":" + y) == Units(x) + [COLON] + Units(y)
  {
    UnitsConcat(x + ":", y);
    UnitsConcat(x, ":");
    UnitsOne(':');
  }

  lemma {:induction false} MemberWritten(m: J.Member)
    requires J.Valid(m.value)
    ensures PrintEntry(EntryOf(m)) == Units(T.MemberText(m))
    decreases m, 0
  {
    hide T.Quote, T.Stringify, Quoted, Print, PrintEntry, TreeOf, Units, J.Valid;
    ValueWritten(m.value);
    QuoteWritten(m.key);
    EntryPrinted(m);
    PairWritten(T.Quote(m.key), T.Stringify(m.value));
  }

  lemma {:induction false} MembersWritten(ms: seq<J.Member>)
    requires ms != [] && forall i | 0 <= i < |ms| :: J.Valid(ms[i].value)
    ensures PrintEntries(EntriesOf(ms), 0) == Units(T.MemberText(ms[0]) + T.MembersTail(ms[1..]))
    decreases ms
  {
    hide T.Stringify, T.MemberText, Print, PrintEntry, Valid, TreeOf, Units, J.Valid, CharUnits, StringPieces;
    var e, rest := EntryOf(ms[0]), ms[1..];
    var x, y := T.MemberText(ms[0]), T.MembersTail(rest);
    MemberWritten(ms[0]);
    TreeValid(ms[0].value);
    StringWritten(ms[0].key);
    UnitsConcat(x, y);
    if rest == [] {
      Shape.LastEntryRead(e);
      assert EntriesOf(ms) == [e];
      CloseUnits();
    } else {
      MembersWritten(rest);
      EntriesValid(rest);
      Shape.MoreEntriesRead(e, EntriesOf(rest));
      CommaUnits();
      TailWritten(',', T.MemberText(rest[0]), T.MembersTail(rest[1..]), COMMA);
    }
  }

  /** The compact text is the text of the tree. */
  lemma {:induction false} ValueWritten(v: J.Value)
    requires J.Valid(v)
    ensures Print(TreeOf(v)) == Units(T.Stringify(v))
  {
    match v
    case Null => WordsWritten();
    case Bool(_) => WordsWritten();
    case Number(_) =>
    case String(s) => QuoteWritten(s);
    case Array(items) =>
      hide Units, PrintElements, T.ItemsTail, T.Quote, PrintEntries;
      if items == [] {
        CloseUnits();
      } else {
        ItemsWritten(items);
        TailWritten('[', T.Stringify(items[0]), T.ItemsTail(items[1..]), LBRACKET);
      }
    case Object(ms) =>
      hide Units, PrintEntries, T.MembersTail, T.MemberText, T.Quote, PrintElements;
      if ms == [] {
        CloseUnits();
      } else {
        MembersWritten(ms);
        TailWritten('{', T.MemberText(ms[0]), T.MembersTail(ms[1..]), LBRACE);
      }
  }

  /** Where names denote the keys of a value, they differ because the keys do. */
  lemma {:induction false} DenotesDistinct(t: Tree, v: J.Value)
    requires Valid(t) && J.Valid(v) && Denotes(t, v)
    ensures DistinctNames(t)
  {
    match t
    case Arr(_, es) =>
      forall i | 0 <= i < |es| ensures DistinctNames(es[i].value) { DenotesDistinct(es[i].value, v.items[i]); }
    case Obj(_, es) =>
      forall i, j | 0 <= i < j < |es| ensures Name(es[i].name) != Name(es[j].name) {
        if Name(es[i].name) == Name(es[j].name) { UnitsInjective(v.members[i].key, v.members[j].key); }
      }
      forall i | 0 <= i < |es| ensures DistinctNames(es[i].value) { DenotesDistinct(es[i].value, v.members[i].value); }
    case _ =>
  }

  /**
   The compact text of a value is a text of the grammar that denotes this value and no other, and
   the scanner finds no repeated name in it.
   */
  lemma StringifyDenotes(v: J.Value) returns (t: Tree)
    requires J.Valid(v)
    ensures Valid(t) && Print(t) == Units(T.Stringify(v)) && Scanned(Units(T.Stringify(v))) == None
    ensures Denotes(t, v) && forall w | J.Valid(w) && Denotes(t, w) :: w == v
  {
    hide J.Valid, Valid, Denotes, Print, DistinctNames, Scanned, Units;
    t := TreeOf(v);
    TreeValid(v);
    ValueWritten(v);
    TreeDenotes(v);
    DenotesDistinct(t, v);
    Alone(t);
    forall w | J.Valid(w) && Denotes(t, w) ensures w == v { DenotesOne(t, v, w); }
  }

  lemma Alone(t: Tree)
    requires Valid(t) && DistinctNames(t)
    ensures Scanned(Print(t)) == None
  {
    hide Valid, Print, Scanned;
    ScannerDecides([], t, []);
    assert [] + Print(t) + [] == Print(t);
  }
}
