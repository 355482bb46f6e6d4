/**
 `JSON.stringify`, and that it never maps two values to one text: the comparison through
 text used by the tools is a comparison of values.
 */
module JsonText {
  import opened Wrappers
  import opened Json

  function HexDigit(n: nat): char
    requires n < 16
  {
    "0123456789abcdef"[n]
  }

  /** One character inside a JSON string. */
  function Escape(c: char): string {
    if c == '\"' then "\\\""
    else if c == '\\' then "\\\\"
    else if c == '\U{0008}' then "\\b"
    else if c == '\U{000C}' then "\\f"
    else if c == '\n' then "\\n"
    else if c == '\r' then "\\r"
    else if c == '\t' then "\\t"
    else if c < ' ' then "\\u00" + [HexDigit(c as int / 16), HexDigit(c as int % 16)]
    else [c]
  }

  function StringTail(s: string): string {
    if s == "" then "\"" else Escape(s[0]) + StringTail(s[1..])
  }

  function Quote(s: string): string {
    "\"" + StringTail(s)
  }

  function ItemsTail(items: seq<Value>): string {
    if items == [] then "]" else "," + Stringify(items[0]) + ItemsTail(items[1..])
  }

  function MemberText(m: Member): string {
    Quote(m.key) + ":" + Stringify(m.value)
  }

  function MembersTail(ms: seq<Member>): string {
    if ms == [] then "}" else "," + MemberText(ms[0]) + MembersTail(ms[1..])
  }

  /** The compact text of a value. */
  function Stringify(v: Value): string {
    match v
    case Null => "null"
    case Bool(b) => if b then "true" else "false"
    case Number(token) => token
    case String(s) => Quote(s)
    case Array(items) =>
      if items == [] then "[]" else "[" + Stringify(items[0]) + ItemsTail(items[1..])
    case Object(ms) =>
      if ms == [] then "{}" else "{" + MemberText(ms[0]) + MembersTail(ms[1..])
  }

  // ---- Unique decoding --------------------------------------------------------

  /** The first two characters of an escape tell its length. */
  lemma EscapeShape(c: char)
    ensures var e := Escape(c);
      || (|e| == 1 && e[0] != '\\' && e[0] == c)
      || (|e| == 2 && e[0] == '\\' && e[1] != 'u')
      || (|e| == 6 && e[0] == '\\' && e[1] == 'u' && c < ' ')
  {
  }

  lemma EscapeInjective(c: char, d: char)
    requires Escape(c) == Escape(d)
    ensures c == d
  {
    EscapeShape(c);
    EscapeShape(d);
    if |Escape(c)| == 1 {
    } else if |Escape(c)| == 2 {
      assert Escape(c)[1] == Escape(d)[1];
    } else {
      assert Escape(c)[4] == Escape(d)[4] && Escape(c)[5] == Escape(d)[5];
      assert c as int / 16 == d as int / 16 && c as int % 16 == d as int % 16;
    }
  }

  lemma EscapeUnique(c: char, d: char, s: string, t: string)
    requires Escape(c) + s == Escape(d) + t
    ensures c == d && s == t
  {
    EscapeShape(c);
    EscapeShape(d);
    var x, y := Escape(c), Escape(d);
    SamePieces(x, y, s, t);
    EscapeInjective(c, d);
  }

  lemma SamePieces(x: string, y: string, s: string, t: string)
    requires x + s == y + t && |x| >= 1 && |y| >= 1
    requires |x| == 1 <==> x[0] != '\\'
    requires |y| == 1 <==> y[0] != '\\'
    requires |x| > 1 ==> if x[1] == 'u' then |x| == 6 else |x| == 2
    requires |y| > 1 ==> if y[1] == 'u' then |y| == 6 else |y| == 2
    ensures x == y && s == t
  {
    var whole := x + s;
    assert whole[0] == x[0] == y[0];
    if |x| > 1 {
      assert whole[1] == x[1] == y[1];
    }
    Split(x, y, s, t);
  }

  lemma Split(x: string, y: string, s: string, t: string)
    requires x + s == y + t && |x| == |y|
    ensures x == y && s == t
  {
    assert x == (x + s)[..|x|] && y == (y + t)[..|y|];
    assert s == (x + s)[|x|..] && t == (y + t)[|y|..];
  }

  lemma Cut(c: char, d: char, x: string, y: string, s: string, t: string)
    requires [c] + x + s == [d] + y + t
    ensures c == d && x + s == y + t
  {
    assert [c] + x + s == [c] + (x + s) && [d] + y + t == [d] + (y + t);
    Split([c], [d], x + s, y + t);
  }

  lemma CutPair(c: char, d: char, x: string, x': string, y: string, y': string, s: string, t: string)
    requires [c] + x + x' + s == [d] + y + y' + t
    ensures c == d && x + (x' + s) == y + (y' + t)
  {
    assert [c] + x + x' + s == [c] + (x + (x' + s)) && [d] + y + y' + t == [d] + (y + (y' + t));
    Split([c], [d], x + (x' + s), y + (y' + t));
  }

  lemma Regrouped(x: string, y: string, z: string)
    ensures x + y + z == x + (y + z)
  {
  }

  lemma {:induction false} StringTailUnique(a: string, b: string, s: string, t: string)
    requires StringTail(a) + s == StringTail(b) + t
    ensures a == b && s == t
  {
    var whole := StringTail(a) + s;
    if a == "" || b == "" {
      assert whole[0] == StringTail(a)[0] == StringTail(b)[0];
      assert s == whole[1..] && t == whole[1..];
    } else {
      hide Escape;
      Regrouped(Escape(a[0]), StringTail(a[1..]), s);
      Regrouped(Escape(b[0]), StringTail(b[1..]), t);
      EscapeUnique(a[0], b[0], StringTail(a[1..]) + s, StringTail(b[1..]) + t);
      StringTailUnique(a[1..], b[1..], s, t);
      assert a == [a[0]] + a[1..] && b == [b[0]] + b[1..];
    }
  }

  lemma QuoteUnique(a: string, b: string, s: string, t: string)
    requires Quote(a) + s == Quote(b) + t
    ensures a == b && s == t
  {
    Cut('\"', '\"', StringTail(a), StringTail(b), s, t);
    StringTailUnique(a, b, s, t);
  }

  /** What may follow a value: the end, or a separator. */
  predicate Stops(s: string) {
    s == "" || s[0] in ",]}"
  }

  lemma NumberUnique(a: string, b: string, s: string, t: string)
    requires Valid(Number(a)) && Valid(Number(b)) && Stops(s) && Stops(t)
    requires a + s == b + t
    ensures a == b && s == t
  {
    if |a| < |b| {
      NumberNotLonger(a, b, s, t);
    } else if |b| < |a| {
      NumberNotLonger(b, a, t, s);
    }
    Split(a, b, s, t);
  }

  /** A number token ends where a separator begins. */
  lemma NumberNotLonger(a: string, b: string, s: string, t: string)
    requires Valid(Number(b)) && Stops(s) && a + s == b + t
    ensures |b| <= |a|
  {
    var k := if |a| < |b| then |a| else 0;
    assert b[k] == (b + t)[k] == (a + s)[k];
  }

  /** The first character tells the kind of value. */
  predicate Begins(v: Value, c: char) {
    match v
    case Null => c == 'n'
    case Bool(b) => c == if b then 't' else 'f'
    case Number(_) => NumberChar(c)
    case String(_) => c == '\"'
    case Array(_) => c == '['
    case Object(_) => c == '{'
  }

  lemma FirstCharacter(v: Value)
    requires Valid(v)
    ensures Stringify(v) != "" && Begins(v, Stringify(v)[0])
  {
  }

  /** Texts decode uniquely, also in front of more text. */
  lemma {:induction false} StringifyUnique(a: Value, b: Value, s: string, t: string)
    requires Valid(a) && Valid(b) && Stops(s) && Stops(t)
    requires Stringify(a) + s == Stringify(b) + t
    ensures a == b && s == t
    decreases a, 1
  {
    FirstCharacter(a);
    FirstCharacter(b);
    var whole := Stringify(a) + s;
    assert whole[0] == Stringify(a)[0] == Stringify(b)[0];
    match a
    case Number(token) =>
      NumberUnique(token, b.token, s, t);
    case String(x) =>
      QuoteUnique(x, b.s, s, t);
    case Array(items) =>
      ArraysUnique(items, b.items, s, t);
    case Object(ms) =>
      ObjectsUnique(ms, b.members, s, t);
    case _ =>
      assert Stringify(a) == Stringify(b);
      assert s == whole[|Stringify(a)|..] == t;
  }

  lemma {:induction false} ArraysUnique(xs: seq<Value>, ys: seq<Value>, s: string, t: string)
    requires Valid(Array(xs)) && Valid(Array(ys)) && Stops(s) && Stops(t)
    requires Stringify(Array(xs)) + s == Stringify(Array(ys)) + t
    ensures xs == ys && s == t
    decreases xs, 3
  {
    if xs == [] || ys == [] {
      EmptyOrNot('[', ']', Stringify(Array(xs)), Stringify(Array(ys)), s, t);
      if xs != [] { FirstCharacter(xs[0]); }
      if ys != [] { FirstCharacter(ys[0]); }
    } else {
      var x, y := Stringify(xs[0]), Stringify(ys[0]);
      CutPair('[', '[', x, ItemsTail(xs[1..]), y, ItemsTail(ys[1..]), s, t);
      StringifyUnique(xs[0], ys[0], ItemsTail(xs[1..]) + s, ItemsTail(ys[1..]) + t);
      ItemsUnique(xs[1..], ys[1..], s, t);
      assert xs == [xs[0]] + xs[1..] && ys == [ys[0]] + ys[1..];
    }
  }

  /** An empty container's text is not the beginning of a non-empty one's. */
  lemma EmptyOrNot(open: char, close: char, x: string, y: string, s: string, t: string)
    requires x + s == y + t && |x| >= 2 && |y| >= 2
    ensures x[1] == y[1]
    ensures x == [open, close] && y == [open, close] ==> s == t
  {
    assert (x + s)[1] == x[1] && (y + t)[1] == y[1];
    if |x| == |y| {
      Split(x, y, s, t);
    }
  }

  lemma {:induction false} ItemsUnique(xs: seq<Value>, ys: seq<Value>, s: string, t: string)
    requires Valid(Array(xs)) && Valid(Array(ys)) && Stops(s) && Stops(t)
    requires ItemsTail(xs) + s == ItemsTail(ys) + t
    ensures xs == ys && s == t
    decreases xs, 2
  {
    assert (ItemsTail(xs) + s)[0] == ItemsTail(xs)[0] && (ItemsTail(ys) + t)[0] == ItemsTail(ys)[0];
    if xs == [] || ys == [] {
      Split(ItemsTail(xs), ItemsTail(ys), s, t);
    } else {
      var x, y := Stringify(xs[0]), Stringify(ys[0]);
      CutPair(',', ',', x, ItemsTail(xs[1..]), y, ItemsTail(ys[1..]), s, t);
      StringifyUnique(xs[0], ys[0], ItemsTail(xs[1..]) + s, ItemsTail(ys[1..]) + t);
      ItemsUnique(xs[1..], ys[1..], s, t);
      assert xs == [xs[0]] + xs[1..] && ys == [ys[0]] + ys[1..];
    }
  }

  lemma MemberUnique(m: Member, n: Member, s: string, t: string)
    requires Valid(m.value) && Valid(n.value) && Stops(s) && Stops(t)
    requires MemberText(m) + s == MemberText(n) + t
    ensures m == n && s == t
    decreases m, 2
  {
    var x, y := Stringify(m.value), Stringify(n.value);
    Regroup(Quote(m.key), x, s);
    Regroup(Quote(n.key), y, t);
    QuoteUnique(m.key, n.key, ":" + x + s, ":" + y + t);
    Cut(':', ':', x, y, s, t);
    StringifyUnique(m.value, n.value, s, t);
  }

  lemma Regroup(key: string, x: string, s: string)
    ensures key + ":" + x + s == key + (":" + x + s)
  {
  }

  lemma {:induction false} ObjectsUnique(ms: seq<Member>, ns: seq<Member>, s: string, t: string)
    requires Valid(Object(ms)) && Valid(Object(ns)) && Stops(s) && Stops(t)
    requires Stringify(Object(ms)) + s == Stringify(Object(ns)) + t
    ensures ms == ns && s == t
    decreases ms, 3
  {
    if ms == [] || ns == [] {
      EmptyOrNot('{', '}', Stringify(Object(ms)), Stringify(Object(ns)), s, t);
    } else {
      var x, y := MemberText(ms[0]), MemberText(ns[0]);
      CutPair('{', '{', x, MembersTail(ms[1..]), y, MembersTail(ns[1..]), s, t);
      MemberUnique(ms[0], ns[0], MembersTail(ms[1..]) + s, MembersTail(ns[1..]) + t);
      MembersUnique(ms[1..], ns[1..], s, t);
      assert ms == [ms[0]] + ms[1..] && ns == [ns[0]] + ns[1..];
    }
  }

  lemma {:induction false} MembersUnique(ms: seq<Member>, ns: seq<Member>, s: string, t: string)
    requires Valid(Object(ms)) && Valid(Object(ns)) && Stops(s) && Stops(t)
    requires MembersTail(ms) + s == MembersTail(ns) + t
    ensures ms == ns && s == t
    decreases ms, 2
  {
    assert (MembersTail(ms) + s)[0] == MembersTail(ms)[0] && (MembersTail(ns) + t)[0] == MembersTail(ns)[0];
    if ms == [] || ns == [] {
      Split(MembersTail(ms), MembersTail(ns), s, t);
    } else {
      var x, y := MemberText(ms[0]), MemberText(ns[0]);
      CutPair(',', ',', x, MembersTail(ms[1..]), y, MembersTail(ns[1..]), s, t);
      MemberUnique(ms[0], ns[0], MembersTail(ms[1..]) + s, MembersTail(ns[1..]) + t);
      MembersUnique(ms[1..], ns[1..], s, t);
      assert ms == [ms[0]] + ms[1..] && ns == [ns[0]] + ns[1..];
    }
  }

  lemma StringifyInjective(a: Value, b: Value)
    requires Valid(a) && Valid(b)
    ensures Stringify(a) == Stringify(b) <==> a == b
  {
    if Stringify(a) == Stringify(b) {
      StringifyUnique(a, b, "", "");
    }
  }

  // ---- The tools' comparison ----------------------------------------------------

  /** `JSON.stringify(canonicalize(l)) === JSON.stringify(canonicalize(r))`; undefined only equals itself. */
  predicate Equal(a: Option<Value>, b: Option<Value>) {
    match (a, b)
    case (Some(x), Some(y)) => Stringify(Canonicalize(x)) == Stringify(Canonicalize(y))
    case _ => a == b
  }

  /** `equal` holds exactly for values that differ at most in object member order. */
  lemma EqualExactlySame(a: Value, b: Value)
    requires Valid(a) && Valid(b)
    ensures Equal(Some(a), Some(b)) <==> Same(a, b)
  {
    CanonicalValid(a);
    CanonicalValid(b);
    StringifyInjective(Canonicalize(a), Canonicalize(b));
    CanonicalExactlySame(a, b);
  }
}
