/**
 The duplicate-key scanner: a recursive descent over one mutable cursor. Text is a sequence
 of UTF-16 code units, as in the scanner's own language. The functions say where each reader
 leaves a cursor that starts at `i`; the class does the same work by moving `index`.
 */
module JsonScanner {
  import opened Wrappers

  type CodeUnit = u: int | 0 <= u < 0x1_0000
  type Text = seq<CodeUnit>

  const QUOTE: CodeUnit := 0x22
  const COMMA: CodeUnit := 0x2C
  const SLASH: CodeUnit := 0x2F
  const COLON: CodeUnit := 0x3A
  const LBRACKET: CodeUnit := 0x5B
  const BACKSLASH: CodeUnit := 0x5C
  const RBRACKET: CodeUnit := 0x5D
  const LBRACE: CodeUnit := 0x7B
  const RBRACE: CodeUnit := 0x7D

  /** The scanner's `\s`, which is wider than JSON's white space. */
  predicate IsSpace(u: CodeUnit) {
    9 <= u <= 13 || u == 0x20 || u == 0xA0 || u == 0x1680 || 0x2000 <= u <= 0x200A
    || u == 0x2028 || u == 0x2029 || u == 0x202F || u == 0x205F || u == 0x3000 || u == 0xFEFF
  }

  predicate EndsAtom(u: CodeUnit) {
    IsSpace(u) || u == COMMA || u == RBRACKET || u == RBRACE
  }

  /** Where a value stands in the document. */
  datatype Path = Root | Member(parent: Path, name: Text) | Item(parent: Path, n: nat)

  datatype Error =
    | ExpectedKey
    | UnterminatedString
    | MalformedKey
    | DuplicateKey(path: Path)
    | MissingColon
    | MissingSeparator
    | UnterminatedObject
    | MissingArraySeparator
    | UnterminatedArray
    | MissingValue
    | TrailingContent

  /** Where a reader leaves the cursor. */
  datatype Scan = At(index: nat) | Fail(error: Error)

  // ---- Strings ----------------------------------------------------------------

  /** Where a string ends whose opening quote lies before `i`, past its closing quote. */
  function StringEnd(s: Text, i: nat): (r: Option<nat>)
    ensures r.Some? ==> i < r.value <= |s|
    decreases |s| - i
  {
    if i >= |s| then None
    else if s[i] == BACKSLASH then StringEnd(s, i + 2)
    else if s[i] == QUOTE then Some(i + 1)
    else StringEnd(s, i + 1)
  }

  predicate IsHex(u: CodeUnit) {
    0x30 <= u <= 0x39 || 0x41 <= u <= 0x46 || 0x61 <= u <= 0x66
  }

  function HexValue(u: CodeUnit): (v: nat)
    requires IsHex(u)
    ensures v < 16
  {
    if u <= 0x39 then u - 0x30 else if u <= 0x46 then u - 0x41 + 10 else u - 0x61 + 10
  }

  function HexUnit(a: CodeUnit, b: CodeUnit, c: CodeUnit, d: CodeUnit): CodeUnit
    requires IsHex(a) && IsHex(b) && IsHex(c) && IsHex(d)
  {
    0x1000 * HexValue(a) + 0x100 * HexValue(b) + 0x10 * HexValue(c) + HexValue(d)
  }

  /** The two-character escapes. */
  function ShortEscape(u: CodeUnit): Option<CodeUnit> {
    if u == QUOTE || u == BACKSLASH || u == SLASH then Some(u)
    else if u == 0x62 then Some(0x08)
    else if u == 0x66 then Some(0x0C)
    else if u == 0x6E then Some(0x0A)
    else if u == 0x72 then Some(0x0D)
    else if u == 0x74 then Some(0x09)
    else None
  }

  function Prepend(head: CodeUnit, rest: Option<Text>): Option<Text> {
    match rest
    case Some(t) => Some([head] + t)
    case None => None
  }

  /** What `JSON.parse` makes of the string body from `i` to `end`; `None` when it rejects it. */
  function Decode(s: Text, i: nat, end: nat): Option<Text>
    requires end <= |s|
    decreases end - i
  {
    if i >= end then (if i == end then Some([]) else None)
    else if s[i] == BACKSLASH then
      if i + 1 < end && ShortEscape(s[i + 1]).Some? then
        Prepend(ShortEscape(s[i + 1]).value, Decode(s, i + 2, end))
      else if i + 5 < end && s[i + 1] == 0x75
              && IsHex(s[i + 2]) && IsHex(s[i + 3]) && IsHex(s[i + 4]) && IsHex(s[i + 5]) then
        Prepend(HexUnit(s[i + 2], s[i + 3], s[i + 4], s[i + 5]), Decode(s, i + 6, end))
      else None
    else if s[i] < 0x20 || s[i] == QUOTE then None
    else Prepend(s[i], Decode(s, i + 1, end))
  }

  /** Decoding a string token is decoding in place. */
  lemma {:induction false} DecodeShift(s: Text, start: nat, stop: nat, i: nat, end: nat)
    requires start <= stop <= |s| && end <= stop - start
    ensures Decode(s[start..stop], i, end) == Decode(s, start + i, start + end)
    decreases end - i
  {
    if i < end {
      var n := if s[start + i] != BACKSLASH then 1
               else if i + 1 < end && ShortEscape(s[start + i + 1]).Some? then 2 else 6;
      DecodeShift(s, start, stop, i + n, end);
    }
  }

  // ---- The readers ----------------------------------------------------------------

  predicate Sees(s: Text, i: nat, u: CodeUnit) {
    i < |s| && s[i] == u
  }

  function SkipSpace(s: Text, i: nat): (j: nat)
    requires i <= |s|
    ensures i <= j <= |s|
    decreases |s| - i
  {
    if i < |s| && IsSpace(s[i]) then SkipSpace(s, i + 1) else i
  }

  function SkipAtom(s: Text, i: nat): (j: nat)
    requires i <= |s|
    ensures i <= j <= |s|
    decreases |s| - i
  {
    if i < |s| && !EndsAtom(s[i]) then SkipAtom(s, i + 1) else i
  }

  function ReadString(s: Text, i: nat): (r: Scan)
    requires i <= |s|
    ensures r.At? ==> i + 2 <= r.index <= |s|
  {
    if !Sees(s, i, QUOTE) then Fail(ExpectedKey)
    else
      match StringEnd(s, i + 1)
      case Some(j) => At(j)
      case None => Fail(UnterminatedString)
  }

  /** What ends one entry of a container, and where the cursor is then. */
  datatype Separator = Close(index: nat) | Comma(index: nat) | Neither

  function ReadSeparator(s: Text, i: nat, close: CodeUnit): (r: Separator)
    requires i <= |s|
    ensures !r.Neither? ==> i < r.index <= |s|
  {
    var j := SkipSpace(s, i);
    if Sees(s, j, close) then Close(j + 1)
    else if Sees(s, j, COMMA) then Comma(j + 1)
    else Neither
  }

  function ReadValue(s: Text, i: nat, path: Path): (r: Scan)
    requires i <= |s|
    ensures r.At? ==> i < r.index <= |s|
    decreases |s| - i, 1
  {
    var j := SkipSpace(s, i);
    if Sees(s, j, QUOTE) then ReadString(s, j)
    else if Sees(s, j, LBRACE) then
      var k := SkipSpace(s, j + 1);
      if Sees(s, k, RBRACE) then At(k + 1) else ReadMembers(s, k, {}, path)
    else if Sees(s, j, LBRACKET) then
      var k := SkipSpace(s, j + 1);
      if Sees(s, k, RBRACKET) then At(k + 1) else ReadItems(s, k, 0, path)
    else
      var k := SkipAtom(s, j);
      if k == j then Fail(MissingValue) else At(k)
  }

  /** A new member's decoded name, and where its value starts. */
  function ReadName(s: Text, i: nat, keys: set<Text>, path: Path): (r: Result<(Text, nat), Error>)
    requires i <= |s|
    ensures r.Success? ==> i < r.value.1 <= |s|
  {
    var j := SkipSpace(s, i);
    var name := ReadString(s, j);
    if name.Fail? then Failure(name.error)
    else
      var key := Decode(s, j + 1, name.index - 1);
      if key.None? then Failure(MalformedKey)
      else if key.value in keys then Failure(DuplicateKey(Member(path, key.value)))
      else
        var k := SkipSpace(s, name.index);
        if Sees(s, k, COLON) then Success((key.value, k + 1)) else Failure(MissingColon)
  }

  /** The rest of an object, from the start of a member. */
  function ReadMembers(s: Text, i: nat, keys: set<Text>, path: Path): (r: Scan)
    requires i <= |s|
    ensures r.At? ==> i < r.index <= |s|
    decreases |s| - i, 2
  {
    if i == |s| then Fail(UnterminatedObject)
    else
      var name := ReadName(s, i, keys, path);
      if name.Failure? then Fail(name.error)
      else
        var value := ReadValue(s, name.value.1, Member(path, name.value.0));
        if value.Fail? then value
        else
          match ReadSeparator(s, value.index, RBRACE)
          case Close(j) => At(j)
          case Comma(j) => ReadMembers(s, j, keys + {name.value.0}, path)
          case Neither => Fail(MissingSeparator)
  }

  /** The rest of an array, from the start of item `n`. */
  function ReadItems(s: Text, i: nat, n: nat, path: Path): (r: Scan)
    requires i <= |s|
    ensures r.At? ==> i < r.index <= |s|
    decreases |s| - i, 2
  {
    if i == |s| then Fail(UnterminatedArray)
    else
      var value := ReadValue(s, i, Item(path, n));
      if value.Fail? then value
      else
        match ReadSeparator(s, value.index, RBRACKET)
        case Close(j) => At(j)
        case Comma(j) => ReadItems(s, j, n + 1, path)
        case Neither => Fail(MissingArraySeparator)
  }

  /** `None` when the scanner returns normally. */
  function Scanned(content: Text): Option<Error> {
    match ReadValue(content, 0, Root)
    case Fail(e) => Some(e)
    case At(i) => if SkipSpace(content, i) == |content| then None else Some(TrailingContent)
  }

  // ---- The scanner ------------------------------------------------------------------

  class Scanner {
    const content: Text
    var index: nat

    constructor (content: Text)
      ensures this.content == content && index == 0
    {
      this.content := content;
      index := 0;
    }

    method SkipWhitespace()
      requires index <= |content|
      modifies this
      ensures index == SkipSpace(content, old(index))
    {
      while index < |content| && IsSpace(content[index])
        invariant index <= |content| && SkipSpace(content, index) == SkipSpace(content, old(index))
      {
        index := index + 1;
      }
    }

    /** After a failure the cursor is not used again. */
    method ReadStringToken() returns (token: Result<Text, Error>)
      requires index <= |content|
      modifies this
      ensures match ReadString(content, old(index))
        case At(j) => index == j && token == Success(content[old(index)..j])
        case Fail(e) => token == Failure(e)
    {
      var start := index;
      if index == |content| || content[index] != QUOTE {
        return Failure(ExpectedKey);
      }
      index := index + 1;
      while index < |content|
        invariant start < index && StringEnd(content, index) == StringEnd(content, start + 1)
        decreases |content| - index
      {
        var character := content[index];
        if character == BACKSLASH {
          index := index + 2;
          continue;
        }
        index := index + 1;
        if character == QUOTE {
          return Success(content[start..index]);
        }
      }
      return Failure(UnterminatedString);
    }

    method ReadSeparatorAt(close: CodeUnit) returns (separator: Separator)
      requires index <= |content|
      modifies this
      ensures separator == ReadSeparator(content, old(index), close)
      ensures !separator.Neither? ==> index == separator.index
    {
      SkipWhitespace();
      if index < |content| && content[index] == close {
        index := index + 1;
        return Close(index);
      }
      if index == |content| || content[index] != COMMA {
        return Neither;
      }
      index := index + 1;
      return Comma(index);
    }

    method ReadValueAt(path: Path) returns (error: Option<Error>)
      requires index <= |content|
      modifies this
      ensures match ReadValue(content, old(index), path)
        case At(j) => error == None && index == j
        case Fail(e) => error == Some(e)
      decreases |content| - index, 1
    {
      SkipWhitespace();
      if index < |content| && content[index] == QUOTE {
        var token := ReadStringToken();
        return if token.Failure? then Some(token.error) else None;
      }
      if index < |content| && content[index] == LBRACE {
        error := ReadObject(path);
        return;
      }
      if index < |content| && content[index] == LBRACKET {
        error := ReadArray(path);
        return;
      }
      var start := index;
      while index < |content| && !EndsAtom(content[index])
        invariant start <= index <= |content| && SkipAtom(content, index) == SkipAtom(content, start)
      {
        index := index + 1;
      }
      return if index == start then Some(MissingValue) else None;
    }

    method ReadMemberName(keys: set<Text>, path: Path) returns (key: Result<Text, Error>)
      requires index <= |content|
      modifies this
      ensures match ReadName(content, old(index), keys, path)
        case Success((name, j)) => key == Success(name) && index == j
        case Failure(e) => key == Failure(e)
    {
      SkipWhitespace();
      ghost var start := index;
      var token := ReadStringToken();
      if token.Failure? {
        return Failure(token.error);
      }
      DecodeShift(content, start, index, 1, index - start - 1);
      var name := Decode(token.value, 1, |token.value| - 1);
      if name.None? {
        return Failure(MalformedKey);
      }
      if name.value in keys {
        return Failure(DuplicateKey(Member(path, name.value)));
      }
      SkipWhitespace();
      if index == |content| || content[index] != COLON {
        return Failure(MissingColon);
      }
      index := index + 1;
      return Success(name.value);
    }

    method ReadObject(path: Path) returns (error: Option<Error>)
      requires index < |content| && content[index] == LBRACE
      modifies this
      ensures match ReadValue(content, old(index), path)
        case At(j) => error == None && index == j
        case Fail(e) => error == Some(e)
      decreases |content| - index, 0
    {
      hide ReadMembers, ReadItems, ReadString, SkipAtom;
      index := index + 1;
      SkipWhitespace();
      if index < |content| && content[index] == RBRACE {
        index := index + 1;
        return None;
      }
      error := ReadMemberList(path);
    }

    method ReadMemberList(path: Path) returns (error: Option<Error>)
      requires index <= |content|
      modifies this
      ensures match ReadMembers(content, old(index), {}, path)
        case At(j) => error == None && index == j
        case Fail(e) => error == Some(e)
      decreases |content| - index, 2
    {
      ghost var whole := ReadMembers(content, index, {}, path);
      var keys: set<Text> := {};
      while index < |content|
        invariant old(index) <= index <= |content| && ReadMembers(content, index, keys, path) == whole
        decreases |content| - index
      {
        var key := ReadMemberName(keys, path);
        if key.Failure? {
          return Some(key.error);
        }
        error := ReadValueAt(Member(path, key.value));
        if error.Some? {
          return;
        }
        var separator := ReadSeparatorAt(RBRACE);
        if separator.Close? {
          return None;
        }
        if separator.Neither? {
          return Some(MissingSeparator);
        }
        keys := keys + {key.value};
      }
      return Some(UnterminatedObject);
    }

    method ReadArray(path: Path) returns (error: Option<Error>)
      requires index < |content| && content[index] == LBRACKET
      modifies this
      ensures match ReadValue(content, old(index), path)
        case At(j) => error == None && index == j
        case Fail(e) => error == Some(e)
      decreases |content| - index, 0
    {
      index := index + 1;
      SkipWhitespace();
      if index < |content| && content[index] == RBRACKET {
        index := index + 1;
        return None;
      }
      error := ReadItemList(path);
    }

    method ReadItemList(path: Path) returns (error: Option<Error>)
      requires index <= |content|
      modifies this
      ensures match ReadItems(content, old(index), 0, path)
        case At(j) => error == None && index == j
        case Fail(e) => error == Some(e)
      decreases |content| - index, 2
    {
      ghost var whole := ReadItems(content, index, 0, path);
      var item := 0;
      while index < |content|
        invariant old(index) <= index <= |content| && ReadItems(content, index, item, path) == whole
        decreases |content| - index
      {
        error := ReadValueAt(Item(path, item));
        if error.Some? {
          return;
        }
        item := item + 1;
        var separator := ReadSeparatorAt(RBRACKET);
        if separator.Close? {
          return None;
        }
        if separator.Neither? {
          return Some(MissingArraySeparator);
        }
      }
      return Some(UnterminatedArray);
    }
  }

  method RejectDuplicateJsonKeys(content: Text) returns (error: Option<Error>)
    ensures error == Scanned(content)
  {
    var scanner := new Scanner(content);
    error := scanner.ReadValueAt(Root);
    if error.Some? {
      return;
    }
    scanner.SkipWhitespace();
    if scanner.index != |content| {
      return Some(TrailingContent);
    }
  }
}
