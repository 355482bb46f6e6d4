/**
 A file that the owner check accepts and a version change leaves unsettled: the pattern finds the
 version of a nested object, and the top level spells the field's name with an escape.
 */
module NestedVersion {
  import opened Wrappers
  import opened Occurrences
  import opened ReleaseTags
  import opened VersionPlan
  import opened VersionOwners
  import opened JsonHoles
  import opened JsonOwners
  import S = JsonScanner
  import G = JsonGrammar

  const HEAD := "{\"a\":{"
  const NESTED := "\"version\":\"1.0.0\""
  const MIDDLE := "},\"\\u0076ersion\":"
  const TAIL := "\"1.0.0\"}"
  const CONTENT := HEAD + NESTED + MIDDLE + TAIL

  /** A member without white space. */
  function Tight(name: seq<G.Piece>, value: G.Tree): G.Entry {
    G.Entry([], name, [], [], value, [])
  }

  const A: S.Text := [0x61]
  const ERSION: S.Text := [0x65, 0x72, 0x73, 0x69, 0x6F, 0x6E]
  const VERSION: S.Text := [0x76] + ERSION
  const ONE: S.Text := [0x31, 0x2E, 0x30, 0x2E, 0x30]
  const ESCAPED: seq<G.Piece> := [G.Hex(0x76, false, false, false, false)] + Raws(ERSION)

  const INNER := G.Obj([], [Tight(Raws(VERSION), G.Str(Raws(ONE)))])
  const ENTRIES := [Tight(Raws(A), INNER), Tight(ESCAPED, G.Str(Raws(ONE)))]
  const TREE := G.Obj([], ENTRIES)

  lemma QuotedRaws(w: S.Text)
    requires Unescaped(w)
    ensures G.Quoted(Raws(w)) == [S.QUOTE] + w + [S.QUOTE]
  {
    RawPrint(w, 0);
  }

  lemma EscapedName()
    ensures G.ValidPieces(ESCAPED) && G.Name(ESCAPED) == VERSION
  {
    forall i | 0 <= i < |ESCAPED| ensures ESCAPED[i].Valid() && ESCAPED[i].u == VERSION[i] {
      if i > 0 { assert ESCAPED[i] == Raws(ERSION)[i - 1] == G.Raw(ERSION[i - 1]); }
    }
  }

  lemma EscapedText()
    ensures G.Quoted(ESCAPED) == [S.QUOTE, S.BACKSLASH, 0x75, 0x30, 0x30, 0x37, 0x36] + ERSION + [S.QUOTE]
    ensures G.ValidPieces(ESCAPED) && G.Name(ESCAPED) == VERSION
  {
    EscapedName();
    hide G.Name, G.ValidPieces;
    var tail := Raws(ERSION);
    assert ESCAPED[0] == G.Hex(0x76, false, false, false, false) && ESCAPED[1..] == tail;
    RawTail(ESCAPED, 1, ERSION, 0);
    assert G.PrintPieces(ESCAPED, 0) == ESCAPED[0].Print() + G.PrintPieces(ESCAPED, 1);
  }

  /** Raw pieces behind others. */
  lemma {:induction false} RawTail(ps: seq<G.Piece>, k: nat, w: S.Text, n: nat)
    requires |ps| == k + |w| && n <= |w| && forall i | 0 <= i < |w| :: ps[k + i] == G.Raw(w[i])
    ensures G.PrintPieces(ps, k + n) == w[n..]
    decreases |w| - n
  {
    if n < |w| {
      assert ps[k + n] == G.Raw(w[n]);
      RawTail(ps, k, w, n + 1);
    }
  }

  lemma TightText(name: seq<G.Piece>, value: G.Tree)
    ensures G.PrintEntry(Tight(name, value)) == G.Quoted(name) + [S.COLON] + G.Print(value)
    ensures G.Label(Tight(name, value)) == G.Quoted(name) + [S.COLON]
  {
  }

  const U_NESTED := [S.QUOTE] + VERSION + [S.QUOTE, S.COLON, S.QUOTE] + ONE + [S.QUOTE]
  const U_HEAD: S.Text := [S.LBRACE, S.QUOTE, 0x61, S.QUOTE, S.COLON, S.LBRACE]
  const U_MIDDLE := [S.RBRACE, S.COMMA, S.QUOTE, S.BACKSLASH, 0x75, 0x30, 0x30, 0x37, 0x36] + ERSION + [S.QUOTE, S.COLON]
  const U_TAIL := [S.QUOTE] + ONE + [S.QUOTE, S.RBRACE]

  lemma InnerText()
    ensures G.Print(INNER) == [S.LBRACE] + U_NESTED + [S.RBRACE]
  {
    TightText(Raws(VERSION), G.Str(Raws(ONE)));
    QuotedRaws(VERSION);
    QuotedRaws(ONE);
    var e := Tight(Raws(VERSION), G.Str(Raws(ONE)));
    assert G.PrintEntries([e], 0) == G.PrintEntry(e) + [S.RBRACE];
    assert G.PrintEntry(e) == U_NESTED by {
      hide G.PrintEntry, G.PrintEntries;
      assert G.Print(e.value) == [S.QUOTE] + ONE + [S.QUOTE];
    }
  }

  lemma LastText()
    ensures G.PrintEntries(ENTRIES, 1) == U_MIDDLE[2..] + U_TAIL
  {
    TightText(ESCAPED, G.Str(Raws(ONE)));
    QuotedRaws(ONE);
    EscapedText();
  }

  lemma FirstText()
    ensures G.PrintEntry(ENTRIES[0]) == U_HEAD[1..] + U_NESTED + [S.RBRACE]
  {
    TightText(Raws(A), INNER);
    QuotedRaws(A);
    InnerText();
    hide G.Print, G.Quoted, G.PrintEntry;
    assert U_HEAD[1..] == [S.QUOTE] + A + [S.QUOTE] + [S.COLON] + [S.LBRACE];
  }

  lemma TreeText()
    ensures G.Print(TREE) == U_HEAD + U_NESTED + U_MIDDLE + U_TAIL
  {
    FirstText();
    LastText();
    assert G.PrintEntries(ENTRIES, 0) == G.PrintEntry(ENTRIES[0]) + ([S.COMMA] + G.PrintEntries(ENTRIES, 1));
    assert G.Print(TREE) == [S.LBRACE] + G.PrintEntries(ENTRIES, 0);
    hide G.PrintEntry, G.PrintEntries, G.Print;
    assert [S.LBRACE] + U_HEAD[1..] == U_HEAD && [S.RBRACE, S.COMMA] + U_MIDDLE[2..] == U_MIDDLE;
    Regroup(U_HEAD[1..], U_NESTED, U_MIDDLE[2..], U_TAIL);
  }

  lemma Regroup(head: S.Text, nested: S.Text, middle: S.Text, tail: S.Text)
    ensures [S.LBRACE] + ((head + nested + [S.RBRACE]) + ([S.COMMA] + (middle + tail)))
            == ([S.LBRACE] + head) + nested + ([S.RBRACE, S.COMMA] + middle) + tail
  {
  }

  lemma EncodesBoth(s: string, t: string, u: S.Text, v: S.Text)
    requires Encodes(s, u) && Encodes(t, v)
    ensures Encodes(s + t, u + v)
  {
  }

  lemma ContentEncodes()
    ensures Encodes(CONTENT, U_HEAD + U_NESTED + U_MIDDLE + U_TAIL)
  {
    assert Encodes(NESTED, U_NESTED);
    assert Encodes(MIDDLE, U_MIDDLE);
    EncodesBoth(HEAD, NESTED, U_HEAD, U_NESTED);
    EncodesBoth(HEAD + NESTED, MIDDLE, U_HEAD + U_NESTED, U_MIDDLE);
    EncodesBoth(HEAD + NESTED + MIDDLE, TAIL, U_HEAD + U_NESTED + U_MIDDLE, U_TAIL);
  }

  lemma TreeIsStrict()
    ensures Strict(TREE)
  {
    EscapedName();
    assert Strict(INNER) by { assert StrictEntry(INNER.entries[0]); }
    assert StrictEntry(ENTRIES[0]) && StrictEntry(ENTRIES[1]);
    assert |G.Name(Raws(A))| != |G.Name(ESCAPED)|;
  }

  lemma WholeDocument(s: string, t: G.Tree)
    requires Strict(t) && Encodes(s, G.Print(t))
    ensures Document(s, [], t, [])
  {
    assert [] + G.Print(t) + [] == G.Print(t);
  }

  lemma ContentIsTree()
    ensures Document(CONTENT, [], TREE, [])
  {
    hide G.Print, Strict, Encodes, Document;
    TreeText();
    TreeIsStrict();
    ContentEncodes();
    WholeDocument(CONTENT, TREE);
  }

  // ---- What the pattern finds ------------------------------------------------------------

  lemma ContentAt(k: nat)
    requires k < |NESTED|
    ensures |HEAD| == 6 && |NESTED| == 17 && 6 + k < |CONTENT| && CONTENT[6 + k] == NESTED[k]
  {
  }

  lemma OneV(k: nat)
    requires k < |CONTENT| && CONTENT[k] == 'v'
    ensures k == 7
  {
    assert forall i | 0 <= i < |HEAD| :: HEAD[i] != 'v';
    assert forall i | 0 <= i < |NESTED| && NESTED[i] == 'v' :: i == 1;
    assert forall i | 0 <= i < |MIDDLE| :: MIDDLE[i] != 'v';
    assert forall i | 0 <= i < |TAIL| :: TAIL[i] != 'v';
  }

  lemma PatternStart(k: nat)
    requires k < |CONTENT| && MatchAt(JsonField("version"), CONTENT, k)
    ensures k == 6
  {
    OccursAt(CONTENT, k, Quoted("version"), 1);
    OneV(k + 1);
  }

  lemma NestedParts()
    ensures NESTED == Quoted("version") + ":\"1.0.0\""
  {
  }

  lemma NestedStands()
    ensures Occurs(CONTENT, 6, NESTED) && Occurs(CONTENT, 6, Quoted("version")) && |CONTENT| > 22
  {
    forall k | 0 <= k < |NESTED| ensures 6 + k < |CONTENT| && CONTENT[6 + k] == NESTED[k] { ContentAt(k); }
    NestedParts();
    OccursConcat(CONTENT, 6, Quoted("version"), ":\"1.0.0\"");
  }

  lemma NestedOpens()
    ensures PrefixEnd(JsonField("version"), CONTENT, 6) == Some(17)
  {
    NestedStands();
    ContentAt(9);
    ContentAt(10);
    assert |Quoted("version")| == 9;
    hide Occurs;
    assert OpenValue(CONTENT, 15, ':', true) == Some(17);
  }

  lemma NestedValue()
    ensures ValueEnd(CONTENT, 17) == 22 && Sees(CONTENT, 22, '"') && CONTENT[17..22] == "1.0.0"
  {
    NestedStands();
    ContentAt(16);
    forall k | 17 <= k < 22 ensures CONTENT[k] == "1.0.0"[k - 17] { ContentAt(k - 6); }
    ValueIs(CONTENT, 17, 22);
  }

  lemma PatternMatches()
    ensures PrefixEnd(JsonField("version"), CONTENT, 6) == Some(17) && ValueEnd(CONTENT, 17) == 22
    ensures MatchAt(JsonField("version"), CONTENT, 6) && CONTENT[17..22] == "1.0.0"
  {
    NestedOpens();
    NestedValue();
    hide PrefixEnd, ValueEnd;
  }

  lemma OnlyNested()
    ensures OnlyValue(JsonField("version"), CONTENT) == Some((17, 22)) && CONTENT[17..22] == "1.0.0"
  {
    PatternMatches();
    forall k | 0 <= k < |CONTENT| && k != 6 ensures !MatchAt(JsonField("version"), CONTENT, k) {
      if MatchAt(JsonField("version"), CONTENT, k) { PatternStart(k); }
    }
    OnlyValueIs(JsonField("version"), CONTENT, 6, 17, 22);
  }

  lemma {:induction false} Unsplit(s: string, c: char)
    requires c !in s
    ensures Split(s, c) == [s]
  {
    if s != "" {
      Unsplit(s[1..], c);
      assert s == [s[0]] + s[1..];
    }
  }

  lemma PlainDigits(d: char)
    requires d == '1' || d == '2'
    ensures IsReleaseVersion([d] + ".0.0")
  {
    var v := [d] + ".0.0";
    assert v[1..] == ".0.0" && ".0.0"[1..] == "0.0" && "0.0"[1..] == ".0" && ".0"[1..] == "0" && "0"[1..] == "";
    Unsplit(v, '-');
    assert [d] + "" == [d];
    assert Split("0", '.') == ["0"] && Split(".0", '.') == ["", "0"] && Split("0.0", '.') == ["0", "0"];
    assert Split(".0.0", '.') == ["", "0", "0"] && Split(v, '.') == [[d], "0", "0"];
  }

  lemma StatesOne()
    ensures States(TREE, "version", "1.0.0")
  {
    EscapedText();
    assert Encodes("version", VERSION) && Encodes("1.0.0", ONE);
    assert StatesIn(ENTRIES[1], "version", "1.0.0");
  }

  lemma NotOnTop()
    ensures !OnTop([], TREE, "version", 17)
  {
    EscapedText();
    InnerText();
    Later(ENTRIES, 0, 0, 1);
    assert |UpTo(ENTRIES, 0, 1)| > |U_NESTED|;
    assert |G.Name(ENTRIES[0].name)| == 1;
  }

  lemma Versions()
    ensures IsReleaseVersion("1.0.0") && IsReleaseVersion("2.0.0") && "1.0.0" != "2.0.0"
  {
    PlainDigits('1');
    PlainDigits('2');
    assert ['1'] + ".0.0" == "1.0.0" && ['2'] + ".0.0" == "2.0.0";
  }

  lemma NestedIsRead(parse: JsonReading, file: OwnerFile)
    requires ReadsJson(parse) && file.pattern == JsonField("version") && file.section == None
    requires OnlyValue(JsonField("version"), CONTENT) == Some((17, 22)) && CONTENT[17..22] == "1.0.0"
    requires IsReleaseVersion("1.0.0") && Document(CONTENT, [], TREE, []) && States(TREE, "version", "1.0.0")
    ensures ReadOwner(file, parse, CONTENT) == Some((17, 22)) && PlainField("version")
  {
    hide IsReleaseVersion, OnlyValue, Document, States;
    assert CONTENT[0..|CONTENT|] == CONTENT;
    assert parse(CONTENT, "version") == Some("1.0.0");
  }

  /** The file is accepted as an owner of version 1.0.0, and stamping 2.0.0 does not settle it. */
  lemma NestedOwnerStaysUnsettled(parse: JsonReading, path: FilePath)
    requires ReadsJson(parse)
    ensures var file, files := JsonOwner(path, "version"), map[path := CONTENT];
      && UsableFile(file) && Readable(files, AsOwner(file, parse)) && IsReleaseVersion("2.0.0")
      && !Settles(files, AsOwner(file, parse), "2.0.0")
  {
    hide IsReleaseVersion, OnlyValue, Document, States, OnTop, Settles, UsableFile, ReadOwner, PlainField, ReadsJson;
    var file, files := JsonOwner(path, "version"), map[path := CONTENT];
    JsonOwnersUsable(path);
    Versions();
    OnlyNested();
    StatesOne();
    ContentIsTree();
    NotOnTop();
    NestedIsRead(parse, file);
    JsonOwnerSettlesExactly(file, parse, files, "2.0.0", [], TREE, []);
  }
}
