/**
 Where each owner file states the version (tools/release/version-owners.ts): the one quoted
 value a pattern finds, and why stamping another version there is found again.
 */
module VersionOwners {
  import opened Wrappers
  import opened Occurrences
  import opened ReleaseTags
  import opened VersionPlan

  predicate IsBreak(c: char) {
    c == '\r' || c == '\n'
  }

  /** `[\t ]` */
  predicate IsBlank(c: char) {
    c == '\t' || c == ' '
  }

  /** `\s` */
  predicate IsSpace(c: char) {
    || IsBlank(c) || IsBreak(c)
    || c as int in {0x0B, 0x0C, 0xA0, 0x1680, 0x2028, 0x2029, 0x202F, 0x205F, 0x3000, 0xFEFF}
    || 0x2000 <= c as int <= 0x200A
  }

  /** The end of the run of blanks (or of any white space) at `i`. */
  function Skip(s: string, i: nat, wide: bool): (r: nat)
    ensures i <= r && (i <= |s| ==> r <= |s|)
    decreases |s| - i
  {
    if i < |s| && (if wide then IsSpace(s[i]) else IsBlank(s[i])) then Skip(s, i + 1, wide) else i
  }

  /** The end of the value at `i`: the next quote or line break, or the end of the text. */
  function ValueEnd(s: string, i: nat): (r: nat)
    ensures i <= r && (i <= |s| ==> r <= |s|)
    decreases |s| - i
  {
    if i < |s| && s[i] != '"' && !IsBreak(s[i]) then ValueEnd(s, i + 1) else i
  }

  lemma {:induction false} SkipRun(s: string, i: nat, wide: bool, k: nat)
    requires i <= k < Skip(s, i, wide)
    ensures k < |s| && if wide then IsSpace(s[k]) else IsBlank(s[k])
    decreases k - i
  {
    if i < k { SkipRun(s, i + 1, wide, k); }
  }

  lemma {:induction false} ValueRun(s: string, i: nat, k: nat)
    requires i <= k < ValueEnd(s, i)
    ensures k < |s| && s[k] != '"' && !IsBreak(s[k])
    decreases k - i
  {
    if i < k { ValueRun(s, i + 1, k); }
  }

  /** `^` with the flag `m`. */
  predicate LineStart(s: string, i: nat) {
    i == 0 || (i <= |s| && IsBreak(s[i - 1]))
  }

  predicate Sees(s: string, i: nat, c: char) {
    i < |s| && s[i] == c
  }

  // ---- The patterns ----------------------------------------------------------------------

  /** A JSON member, a key at the start of a TOML line, or a typed Python constant (its name with the colon). */
  datatype Pattern = JsonField(field: string) | TomlKey(key: string) | PythonConstant(name: string, hint: string)

  /** White space, `sign`, white space and the opening quote. */
  function OpenValue(s: string, i: nat, sign: char, wide: bool): Option<nat> {
    var b := Skip(s, i, wide);
    if !Sees(s, b, sign) then None
    else
      var d := Skip(s, b + 1, wide);
      if Sees(s, d, '"') then Some(d + 1) else None
  }

  function Quoted(field: string): string {
    ['"'] + field + ['"']
  }

  function JsonPrefix(field: string, s: string, i: nat): Option<nat> {
    if Occurs(s, i, Quoted(field)) then OpenValue(s, i + |Quoted(field)|, ':', true) else None
  }

  /** White space, a word, and then the value's opening behind an equals sign. */
  function WordPrefix(word: string, s: string, i: nat, wide: bool): Option<nat> {
    var a := Skip(s, i, wide);
    if Occurs(s, a, word) then OpenValue(s, a + |word|, '=', wide) else None
  }

  function TomlPrefix(key: string, s: string, i: nat): Option<nat> {
    if LineStart(s, i) then WordPrefix(key, s, i, false) else None
  }

  function PythonPrefix(name: string, hint: string, s: string, i: nat): Option<nat> {
    if LineStart(s, i) && Occurs(s, i, name) then WordPrefix(hint, s, i + |name|, true) else None
  }

  /** Where the value of a match that begins at `i` begins. */
  function PrefixEnd(p: Pattern, s: string, i: nat): Option<nat> {
    match p
    case JsonField(field) => JsonPrefix(field, s, i)
    case TomlKey(key) => TomlPrefix(key, s, i)
    case PythonConstant(name, hint) => PythonPrefix(name, hint, s, i)
  }

  predicate MatchAt(p: Pattern, s: string, i: nat) {
    match PrefixEnd(p, s, i)
    case None => false
    case Some(j) => j < ValueEnd(s, j) && Sees(s, ValueEnd(s, j), '"')
  }

  function FirstMatch(p: Pattern, s: string, i: nat): (r: Option<nat>)
    ensures r.Some? ==> i <= r.value < |s| && MatchAt(p, s, r.value) && forall k | i <= k < r.value :: !MatchAt(p, s, k)
    ensures r.None? ==> forall k | i <= k < |s| :: !MatchAt(p, s, k)
    decreases |s| - i
  {
    if i >= |s| then None else if MatchAt(p, s, i) then Some(i) else FirstMatch(p, s, i + 1)
  }

  /** The value of the only match of the pattern, as `matchAll` finds them. */
  function OnlyValue(p: Pattern, s: string): Option<(nat, nat)> {
    match FirstMatch(p, s, 0)
    case None => None
    case Some(i) =>
      var vs := PrefixEnd(p, s, i).value;
      var ve := ValueEnd(s, vs);
      if FirstMatch(p, s, ve + 1).Some? then None else Some((vs, ve))
  }

  // ---- Locality --------------------------------------------------------------------------

  ghost predicate Agree(s: string, t: string, n: nat) {
    n <= |s| && n <= |t| && forall k | 0 <= k < n :: s[k] == t[k]
  }

  lemma {:induction false} SkipLocal(s: string, t: string, n: nat, i: nat, wide: bool)
    requires Agree(s, t, n) && Skip(s, i, wide) < n
    ensures Skip(t, i, wide) == Skip(s, i, wide)
    decreases |s| - i
  {
    if i < |s| && (if wide then IsSpace(s[i]) else IsBlank(s[i])) { SkipLocal(s, t, n, i + 1, wide); }
  }

  lemma {:induction false} ValueLocal(s: string, t: string, n: nat, i: nat)
    requires Agree(s, t, n) && ValueEnd(s, i) < n
    ensures ValueEnd(t, i) == ValueEnd(s, i)
    decreases |s| - i
  {
    if i < |s| && s[i] != '"' && !IsBreak(s[i]) { ValueLocal(s, t, n, i + 1); }
  }

  lemma OpenLocal(s: string, t: string, n: nat, i: nat, sign: char, wide: bool)
    requires Agree(s, t, n) && OpenValue(s, i, sign, wide).Some? && OpenValue(s, i, sign, wide).value <= n
    ensures OpenValue(t, i, sign, wide) == OpenValue(s, i, sign, wide)
  {
    var b := Skip(s, i, wide);
    SkipLocal(s, t, n, i, wide);
    SkipLocal(s, t, n, b + 1, wide);
  }

  lemma OpenAfter(s: string, i: nat, sign: char, wide: bool)
    requires OpenValue(s, i, sign, wide).Some?
    ensures i + 2 <= OpenValue(s, i, sign, wide).value <= |s| && s[OpenValue(s, i, sign, wide).value - 1] == '"'
  {
  }

  lemma OccursLocal(s: string, t: string, n: nat, i: nat, x: string)
    requires Agree(s, t, n) && Occurs(s, i, x) && i + |x| <= n
    ensures Occurs(t, i, x)
  {
    forall k | 0 <= k < |x| ensures t[i + k] == x[k] { OccursAt(s, i, x, k); }
  }

  lemma WordAfter(word: string, s: string, i: nat, wide: bool)
    requires WordPrefix(word, s, i, wide).Some?
    ensures i + |word| + 2 <= WordPrefix(word, s, i, wide).value <= |s| && s[WordPrefix(word, s, i, wide).value - 1] == '"'
  {
    OpenAfter(s, Skip(s, i, wide) + |word|, '=', wide);
  }

  lemma PrefixEndsInQuote(p: Pattern, s: string, i: nat)
    requires PrefixEnd(p, s, i).Some?
    ensures i + 1 < PrefixEnd(p, s, i).value <= |s| && s[PrefixEnd(p, s, i).value - 1] == '"'
  {
    match p
    case JsonField(field) => OpenAfter(s, i + |Quoted(field)|, ':', true);
    case TomlKey(key) => WordAfter(key, s, i, false);
    case PythonConstant(name, hint) => WordAfter(hint, s, i + |name|, true);
  }

  lemma JsonLocal(field: string, s: string, t: string, n: nat, i: nat)
    requires Agree(s, t, n) && JsonPrefix(field, s, i).Some? && JsonPrefix(field, s, i).value <= n
    ensures JsonPrefix(field, t, i) == JsonPrefix(field, s, i)
  {
    var a := i + |Quoted(field)|;
    OpenAfter(s, a, ':', true);
    OccursLocal(s, t, n, i, Quoted(field));
    OpenLocal(s, t, n, a, ':', true);
  }

  lemma WordLocal(word: string, s: string, t: string, n: nat, i: nat, wide: bool)
    requires Agree(s, t, n) && WordPrefix(word, s, i, wide).Some? && WordPrefix(word, s, i, wide).value <= n
    ensures WordPrefix(word, t, i, wide) == WordPrefix(word, s, i, wide)
  {
    var a := Skip(s, i, wide);
    OpenAfter(s, a + |word|, '=', wide);
    SkipLocal(s, t, n, i, wide);
    OccursLocal(s, t, n, a, word);
    OpenLocal(s, t, n, a + |word|, '=', wide);
  }

  lemma LineStartLocal(s: string, t: string, n: nat, i: nat)
    requires Agree(s, t, n) && i <= n
    ensures LineStart(t, i) <==> LineStart(s, i)
  {
  }

  /** Whether a prefix matches depends on nothing behind its opening quote. */
  lemma PrefixLocal(p: Pattern, s: string, t: string, n: nat, i: nat)
    requires Agree(s, t, n) && PrefixEnd(p, s, i).Some? && PrefixEnd(p, s, i).value <= n
    ensures PrefixEnd(p, t, i) == PrefixEnd(p, s, i)
  {
    match p
    case JsonField(field) => JsonLocal(field, s, t, n, i);
    case TomlKey(key) =>
      WordLocal(key, s, t, n, i, false);
      WordAfter(key, s, i, false);
      LineStartLocal(s, t, n, i);
    case PythonConstant(name, hint) =>
      WordLocal(hint, s, t, n, i + |name|, true);
      WordAfter(hint, s, i + |name|, true);
      OccursLocal(s, t, n, i, name);
      LineStartLocal(s, t, n, i);
  }

  // ---- Shifting --------------------------------------------------------------------------

  /** `t` from `y` on is `s` from `x` on. */
  ghost predicate Shifted(s: string, x: nat, t: string, y: nat) {
    x <= |s| && y <= |t| && |s| - x == |t| - y && forall k | x <= k < |s| :: s[k] == t[k - x + y]
  }

  lemma {:induction false} SkipShift(s: string, x: nat, t: string, y: nat, i: nat, wide: bool)
    requires Shifted(s, x, t, y) && x <= i
    ensures Skip(t, i - x + y, wide) == Skip(s, i, wide) - x + y
    decreases |s| - i
  {
    if i < |s| && (if wide then IsSpace(s[i]) else IsBlank(s[i])) { SkipShift(s, x, t, y, i + 1, wide); }
  }

  lemma {:induction false} ValueShift(s: string, x: nat, t: string, y: nat, i: nat)
    requires Shifted(s, x, t, y) && x <= i
    ensures ValueEnd(t, i - x + y) == ValueEnd(s, i) - x + y
    decreases |s| - i
  {
    if i < |s| && s[i] != '"' && !IsBreak(s[i]) { ValueShift(s, x, t, y, i + 1); }
  }

  lemma OpenShift(s: string, x: nat, t: string, y: nat, i: nat, sign: char, wide: bool)
    requires Shifted(s, x, t, y) && x <= i
    ensures OpenValue(t, i - x + y, sign, wide) ==
            match OpenValue(s, i, sign, wide) case None => None case Some(j) => Some(j - x + y)
  {
    var b := Skip(s, i, wide);
    SkipShift(s, x, t, y, i, wide);
    SkipShift(s, x, t, y, b + 1, wide);
  }

  lemma OccursShift(s: string, x: nat, t: string, y: nat, i: nat, w: string)
    requires Shifted(s, x, t, y) && x <= i
    ensures Occurs(t, i - x + y, w) <==> Occurs(s, i, w)
  {
    if Occurs(s, i, w) {
      forall k | 0 <= k < |w| ensures t[i - x + y + k] == w[k] { OccursAt(s, i, w, k); }
    }
    if Occurs(t, i - x + y, w) {
      forall k | 0 <= k < |w| ensures s[i + k] == w[k] { OccursAt(t, i - x + y, w, k); }
    }
  }

  /** A place moved along with the text. */
  function Moved(place: Option<nat>, x: nat, y: nat): Option<int> {
    match place case None => None case Some(j) => Some(j - x + y)
  }

  lemma JsonShift(field: string, s: string, x: nat, t: string, y: nat, i: nat)
    requires Shifted(s, x, t, y) && x < i
    ensures JsonPrefix(field, t, i - x + y) == Moved(JsonPrefix(field, s, i), x, y)
  {
    OccursShift(s, x, t, y, i, Quoted(field));
    OpenShift(s, x, t, y, i + |Quoted(field)|, ':', true);
  }

  lemma WordShift(word: string, s: string, x: nat, t: string, y: nat, i: nat, wide: bool)
    requires Shifted(s, x, t, y) && x <= i
    ensures WordPrefix(word, t, i - x + y, wide) == Moved(WordPrefix(word, s, i, wide), x, y)
  {
    var a := Skip(s, i, wide);
    SkipShift(s, x, t, y, i, wide);
    OccursShift(s, x, t, y, a, word);
    OpenShift(s, x, t, y, a + |word|, '=', wide);
  }

  lemma LineStartShift(s: string, x: nat, t: string, y: nat, i: nat)
    requires Shifted(s, x, t, y) && x < i
    ensures LineStart(t, i - x + y) <==> LineStart(s, i)
  {
  }

  lemma PrefixShift(p: Pattern, s: string, x: nat, t: string, y: nat, i: nat)
    requires Shifted(s, x, t, y) && x < i
    ensures PrefixEnd(p, t, i - x + y) == Moved(PrefixEnd(p, s, i), x, y)
  {
    match p
    case JsonField(field) => JsonShift(field, s, x, t, y, i);
    case TomlKey(key) =>
      LineStartShift(s, x, t, y, i);
      WordShift(key, s, x, t, y, i, false);
    case PythonConstant(name, hint) =>
      LineStartShift(s, x, t, y, i);
      OccursShift(s, x, t, y, i, name);
      WordShift(hint, s, x, t, y, i + |name|, true);
  }

  lemma MatchShift(p: Pattern, s: string, x: nat, t: string, y: nat, i: nat)
    requires Shifted(s, x, t, y) && x < i
    ensures MatchAt(p, t, i - x + y) <==> MatchAt(p, s, i)
  {
    PrefixShift(p, s, x, t, y, i);
    match PrefixEnd(p, s, i)
    case None =>
    case Some(j) =>
      PrefixEndsInQuote(p, s, i);
      ValueShift(s, x, t, y, j);
  }

  // ---- One value -------------------------------------------------------------------------

  /** What the owner table makes of the patterns: names that no prefix can hold a second time. */
  ghost predicate Usable(p: Pattern) {
    match p
    case JsonField(field) =>
      field != "" && '"' !in field && !IsSpace(field[0]) && field[0] != ':'
    case TomlKey(key) => forall k | 0 <= k < |key| :: !IsBreak(key[k])
    case PythonConstant(name, hint) =>
      && name != "" && (forall k | 0 <= k < |name| :: !IsBreak(name[k]))
      && !IsSpace(name[0]) && name[0] != '=' && name[0] != '"' && name[0] !in hint
  }

  /** What stands between the name of a value and its opening quote. */
  lemma OpenParts(s: string, i: nat, sign: char, wide: bool, k: nat)
    requires OpenValue(s, i, sign, wide).Some? && i <= k < OpenValue(s, i, sign, wide).value - 1
    ensures k < |s| && (s[k] == sign || if wide then IsSpace(s[k]) else IsBlank(s[k]))
  {
    var b := Skip(s, i, wide);
    if k < b { SkipRun(s, i, wide, k); }
    if b < k { SkipRun(s, b + 1, wide, k); }
  }

  lemma NoQuoteInField(field: string, q: nat)
    requires '"' !in field && 0 < q <= |field|
    ensures Quoted(field)[q] != '"'
  {
    assert Quoted(field)[q] == field[q - 1];
    assert field[q - 1] in field;
  }

  /** The one quote inside a JSON prefix closes the name. */
  lemma JsonQuote(field: string, s: string, i: nat, x: nat)
    requires '"' !in field && JsonPrefix(field, s, i).Some? && i < x < JsonPrefix(field, s, i).value - 1
    requires x < |s| && s[x] == '"'
    ensures x == i + |field| + 1
  {
    if x < i + |field| + 1 {
      NoQuoteInField(field, x - i);
      OccursAt(s, i, Quoted(field), x - i);
    } else if x > i + |field| + 1 {
      OpenParts(s, i + |Quoted(field)|, ':', true, x);
    }
  }

  lemma JsonName(field: string, s: string, i: nat)
    requires field != "" && JsonPrefix(field, s, i).Some?
    ensures i + |field| + 3 < JsonPrefix(field, s, i).value <= |s|
    ensures s[i] == '"' && s[i + 1] == field[0]
    ensures s[i + |field| + 2] == ':' || IsSpace(s[i + |field| + 2])
  {
    OccursAt(s, i, Quoted(field), 0);
    OccursAt(s, i, Quoted(field), 1);
    OpenAfter(s, i + |Quoted(field)|, ':', true);
    OpenParts(s, i + |Quoted(field)|, ':', true, i + |Quoted(field)|);
  }

  lemma JsonApart(field: string, s: string, i: nat, k: nat)
    requires Usable(JsonField(field)) && JsonPrefix(field, s, i).Some? && i < k
    requires JsonPrefix(field, s, k).Some?
    ensures JsonPrefix(field, s, i).value < JsonPrefix(field, s, k).value
  {
    JsonName(field, s, i);
    JsonName(field, s, k);
    if k < JsonPrefix(field, s, i).value - 1 { JsonQuote(field, s, i, k); }
  }

  /** What stands in a word prefix before its opening quote. */
  lemma WordParts(word: string, s: string, i: nat, wide: bool, k: nat)
    requires WordPrefix(word, s, i, wide).Some? && i <= k < WordPrefix(word, s, i, wide).value - 1
    ensures k < |s| && (s[k] in word || s[k] == '=' || if wide then IsSpace(s[k]) else IsBlank(s[k]))
  {
    var a := Skip(s, i, wide);
    if k < a { SkipRun(s, i, wide, k); }
    if a <= k < a + |word| { OccursAt(s, a, word, k - a); }
    if a + |word| <= k { OpenParts(s, a + |word|, '=', wide, k); }
  }

  lemma TomlApart(key: string, s: string, i: nat, k: nat)
    requires Usable(TomlKey(key)) && TomlPrefix(key, s, i).Some? && i < k
    requires TomlPrefix(key, s, k).Some?
    ensures TomlPrefix(key, s, i).value < TomlPrefix(key, s, k).value
  {
    WordAfter(key, s, k, false);
    if k < TomlPrefix(key, s, i).value { WordParts(key, s, i, false, k - 1); }
  }

  /** No line starts inside a word. */
  lemma BreakBehind(name: string, s: string, i: nat, k: nat)
    requires Occurs(s, i, name) && (forall n | 0 <= n < |name| :: !IsBreak(name[n])) && i < k <= |s| && IsBreak(s[k - 1])
    ensures i + |name| < k
  {
    if k <= i + |name| { OccursAt(s, i, name, k - 1 - i); }
  }

  lemma NotInWord(word: string, s: string, i: nat, k: nat)
    requires WordPrefix(word, s, i, true).Some? && i <= k < |s|
    requires s[k] !in word && s[k] != '=' && s[k] != '"' && !IsSpace(s[k])
    ensures WordPrefix(word, s, i, true).value <= k
  {
    WordAfter(word, s, i, true);
    if k < WordPrefix(word, s, i, true).value - 1 { WordParts(word, s, i, true, k); }
  }

  lemma PythonApart(name: string, hint: string, s: string, i: nat, k: nat)
    requires Usable(PythonConstant(name, hint)) && PythonPrefix(name, hint, s, i).Some? && i < k
    requires PythonPrefix(name, hint, s, k).Some?
    ensures PythonPrefix(name, hint, s, i).value < PythonPrefix(name, hint, s, k).value
  {
    WordAfter(hint, s, k + |name|, true);
    OccursAt(s, k, name, 0);
    BreakBehind(name, s, i, k);
    NotInWord(hint, s, i + |name|, k);
  }

  /** Prefixes that begin earlier end earlier. */
  lemma PrefixesApart(p: Pattern, s: string, i: nat, k: nat)
    requires Usable(p) && PrefixEnd(p, s, i).Some? && PrefixEnd(p, s, k).Some? && i < k
    ensures PrefixEnd(p, s, i).value < PrefixEnd(p, s, k).value
  {
    match p
    case JsonField(field) => JsonApart(field, s, i, k);
    case TomlKey(key) => TomlApart(key, s, i, k);
    case PythonConstant(name, hint) => PythonApart(name, hint, s, i, k);
  }

  /** Text that can stand in a value. */
  predicate Plain(w: string) {
    w != "" && forall k | 0 <= k < |w| :: w[k] != '"' && !IsBreak(w[k])
  }

  function Replaced(s: string, a: nat, b: nat, w: string): string
    requires a <= b <= |s|
  {
    s[..a] + w + s[b..]
  }

  lemma {:induction false} ValueIs(t: string, i: nat, e: nat)
    requires i <= e < |t| && t[e] == '"' && forall k | i <= k < e :: t[k] != '"' && !IsBreak(t[k])
    ensures ValueEnd(t, i) == e
    decreases e - i
  {
    if i < e { ValueIs(t, i + 1, e); }
  }

  /** The only match, once it is known where it is and that there is no other. */
  lemma OnlyValueIs(p: Pattern, s: string, i: nat, vs: nat, ve: nat)
    requires i < |s| && MatchAt(p, s, i) && PrefixEnd(p, s, i) == Some(vs) && ValueEnd(s, vs) == ve
    requires forall k | 0 <= k < i :: !MatchAt(p, s, k)
    requires forall k | ve < k < |s| :: !MatchAt(p, s, k)
    ensures OnlyValue(p, s) == Some((vs, ve))
  {
    var first := FirstMatch(p, s, 0);
    assert first == Some(i);
    assert FirstMatch(p, s, ve + 1) == None;
  }

  /** Before the value nothing new matches: an earlier prefix closes its value no later than the quote that opens ours. */
  lemma NoEarlierMatch(p: Pattern, s: string, t: string, i: nat, vs: nat, k: nat)
    requires Usable(p) && Agree(s, t, vs) && PrefixEnd(p, s, i) == Some(vs) && k < i && MatchAt(p, t, k)
    ensures MatchAt(p, s, k)
  {
    PrefixEndsInQuote(p, s, i);
    PrefixLocal(p, s, t, vs, i);
    PrefixesApart(p, t, k, i);
    PrefixEndsInQuote(p, t, k);
    var j := PrefixEnd(p, t, k).value;
    PrefixLocal(p, t, s, vs, k);
    QuoteStops(t, j, vs - 1);
    ValueLocal(t, s, vs, j);
  }

  lemma {:induction false} QuoteStops(t: string, i: nat, q: nat)
    requires i <= q < |t| && t[q] == '"'
    ensures ValueEnd(t, i) <= q
    decreases q - i
  {
    if i < q && t[i] != '"' && !IsBreak(t[i]) { QuoteStops(t, i + 1, q); }
  }

  lemma OnlyValueParts(p: Pattern, s: string, vs: nat, ve: nat) returns (i: nat)
    requires OnlyValue(p, s) == Some((vs, ve))
    ensures i < |s| && PrefixEnd(p, s, i) == Some(vs) && 0 < vs < ve < |s| && s[vs - 1] == '"' && s[ve] == '"' && i < vs
    ensures MatchAt(p, s, i) && ValueEnd(s, vs) == ve
    ensures forall k | 0 <= k < i :: !MatchAt(p, s, k)
    ensures forall k | ve < k < |s| :: !MatchAt(p, s, k)
  {
    i := FirstMatch(p, s, 0).value;
    PrefixEndsInQuote(p, s, i);
  }

  /** `t` is `s` with `w` in place of the text from `a` to `b`. */
  ghost predicate Stamps(s: string, a: nat, b: nat, w: string, t: string) {
    a <= b && Agree(s, t, a) && Shifted(s, b, t, a + |w|) && forall k | a <= k < a + |w| :: t[k] == w[k - a]
  }

  /** A stamped value is found again, and nothing else is. */
  lemma OnlyValueStable(p: Pattern, s: string, vs: nat, ve: nat, w: string, t: string)
    requires Usable(p) && OnlyValue(p, s) == Some((vs, ve)) && Plain(w) && Stamps(s, vs, ve, w, t)
    ensures OnlyValue(p, t) == Some((vs, vs + |w|))
  {
    hide MatchAt, OnlyValue, Usable, Plain;
    var i := OnlyValueParts(p, s, vs, ve);
    StampedMatch(p, s, t, i, vs, ve, w);
    forall k | 0 <= k < i ensures !MatchAt(p, t, k) {
      NoMatchBefore(p, s, t, i, vs, k);
    }
    forall k | vs + |w| < k < |t| ensures !MatchAt(p, t, k) {
      NoMatchBehind(p, s, t, ve, vs + |w|, k);
    }
    OnlyValueIs(p, t, i, vs, vs + |w|);
  }

  lemma NoMatchBefore(p: Pattern, s: string, t: string, i: nat, vs: nat, k: nat)
    requires Usable(p) && Agree(s, t, vs) && PrefixEnd(p, s, i) == Some(vs) && k < i && !MatchAt(p, s, k)
    ensures !MatchAt(p, t, k)
  {
    if MatchAt(p, t, k) { NoEarlierMatch(p, s, t, i, vs, k); }
  }

  lemma NoMatchBehind(p: Pattern, s: string, t: string, x: nat, y: nat, k: nat)
    requires Shifted(s, x, t, y) && y < k && !MatchAt(p, s, k - y + x)
    ensures !MatchAt(p, t, k)
  {
    MatchShift(p, s, x, t, y, k - y + x);
  }

  lemma StampedMatch(p: Pattern, s: string, t: string, i: nat, vs: nat, ve: nat, w: string)
    requires Plain(w) && PrefixEnd(p, s, i) == Some(vs) && vs <= ve < |s| && s[ve] == '"' && Stamps(s, vs, ve, w, t)
    ensures MatchAt(p, t, i) && PrefixEnd(p, t, i) == Some(vs) && ValueEnd(t, vs) == vs + |w|
  {
    PrefixLocal(p, s, t, vs, i);
    ValueIs(t, vs, vs + |w|);
  }

  // ---- Sections --------------------------------------------------------------------------

  function LineEnd(s: string, i: nat): (r: nat)
    ensures i <= r && (i <= |s| ==> r <= |s|)
    ensures r < |s| ==> IsBreak(s[r])
    decreases |s| - i
  {
    if i < |s| && !IsBreak(s[i]) then LineEnd(s, i + 1) else i
  }

  /** A header line with a given name and perhaps a comment, or any line that opens a section. */
  datatype LineTest = Header(name: string) | Section

  /** `\r?$` with the flag `m`: the end of the line, behind its carriage return where that ends it. */
  function EndOfLine(s: string, c: nat): Option<nat> {
    if Sees(s, c, '\r') && (c + 1 == |s| || IsBreak(s[c + 1])) then Some(c + 1)
    else if c == |s| || (c < |s| && IsBreak(s[c])) then Some(c)
    else None
  }

  /** Where a header's comment, if it has one, ends. */
  function BehindComment(s: string, b: nat): nat {
    if Sees(s, b, '#') then LineEnd(s, b) else b
  }

  /** The end of a header line whose text begins at `a`. */
  function HeaderEnd(name: string, s: string, a: nat): Option<nat> {
    if Occurs(s, a, name) then EndOfLine(s, BehindComment(s, Skip(s, a + |name|, false))) else None
  }

  /** The end of the test's match at `i`. */
  function TestAt(test: LineTest, s: string, i: nat): Option<nat> {
    var a := Skip(s, i, false);
    if !LineStart(s, i) then None
    else
      match test
      case Header(name) => HeaderEnd(name, s, a)
      case Section => if Sees(s, a, '[') then Some(i) else None
  }

  predicate Hit(test: LineTest, s: string, i: nat) {
    TestAt(test, s, i).Some?
  }

  function FirstLine(test: LineTest, s: string, i: nat): (r: Option<nat>)
    ensures r.Some? ==> i <= r.value <= |s| && Hit(test, s, r.value)
    decreases |s| + 1 - i
  {
    if i > |s| then None else if Hit(test, s, i) then Some(i) else FirstLine(test, s, i + 1)
  }

  lemma {:induction false} FirstLineExactly(test: LineTest, s: string, i: nat, k: nat)
    requires i <= k <= |s| && Hit(test, s, k)
    ensures FirstLine(test, s, i).Some? && FirstLine(test, s, i).value <= k
    decreases k - i
  {
    if i < k && !Hit(test, s, i) { FirstLineExactly(test, s, i + 1, k); }
  }

  ghost predicate UsableTest(test: LineTest) {
    test.Header? ==> test.name != "" && test.name[0] == '[' && forall k | 0 <= k < |test.name| :: !IsBreak(test.name[k])
  }

  lemma {:induction false} SkipBefore(s: string, i: nat, z: nat)
    requires i <= z < |s| && IsBreak(s[z])
    ensures Skip(s, i, false) <= z
    decreases z - i
  {
    if i < z && IsBlank(s[i]) { SkipBefore(s, i + 1, z); }
  }

  lemma {:induction false} LineEndBefore(s: string, t: string, i: nat, z: nat)
    requires i <= z < |s| && IsBreak(s[z]) && Agree(s, t, z + 1)
    ensures LineEnd(s, i) <= z && LineEnd(t, i) == LineEnd(s, i)
    decreases z - i
  {
    if i < z && !IsBreak(s[i]) { LineEndBefore(s, t, i + 1, z); }
  }

  lemma WordBefore(s: string, a: nat, name: string, z: nat)
    requires Occurs(s, a, name) && (forall k | 0 <= k < |name| :: !IsBreak(name[k])) && a <= z < |s| && IsBreak(s[z])
    ensures a + |name| <= z
  {
    if z < a + |name| { OccursAt(s, a, name, z - a); }
  }

  /** A line test looks no further than one character behind the line's end. */
  lemma TestLocal(test: LineTest, s: string, t: string, z: nat, i: nat)
    requires UsableTest(test) && i <= z && z + 1 < |s| && IsBreak(s[z]) && Agree(s, t, z + 2)
    ensures TestAt(test, t, i) == TestAt(test, s, i)
  {
    var a := Skip(s, i, false);
    SkipBefore(s, i, z);
    SkipLocal(s, t, z + 1, i, false);
    LineStartLocal(s, t, z + 1, i);
    if test.Header? { HeaderLocal(test.name, s, t, z, a); }
  }

  lemma HeaderLocal(name: string, s: string, t: string, z: nat, a: nat)
    requires UsableTest(Header(name)) && a <= z && z + 1 < |s| && IsBreak(s[z]) && Agree(s, t, z + 2)
    ensures HeaderEnd(name, t, a) == HeaderEnd(name, s, a)
  {
    OccursSame(name, s, t, z, a);
    if Occurs(s, a, name) {
      WordBefore(s, a, name, z);
      HeaderTail(s, t, z, a + |name|);
    }
  }

  lemma OccursSame(name: string, s: string, t: string, z: nat, a: nat)
    requires (forall k | 0 <= k < |name| :: !IsBreak(name[k])) && a <= z < |s| && IsBreak(s[z]) && Agree(s, t, z + 1)
    ensures Occurs(t, a, name) <==> Occurs(s, a, name)
  {
    if Occurs(s, a, name) {
      WordBefore(s, a, name, z);
      OccursLocal(s, t, z + 1, a, name);
    }
    if Occurs(t, a, name) {
      WordBefore(t, a, name, z);
      OccursLocal(t, s, z + 1, a, name);
    }
  }

  lemma HeaderTail(s: string, t: string, z: nat, i: nat)
    requires i <= z && z + 1 < |s| && IsBreak(s[z]) && Agree(s, t, z + 2)
    ensures EndOfLine(t, BehindComment(t, Skip(t, i, false))) == EndOfLine(s, BehindComment(s, Skip(s, i, false)))
  {
    var b := Skip(s, i, false);
    SkipBefore(s, i, z);
    SkipLocal(s, t, z + 1, i, false);
    LineEndBefore(s, t, b, z);
  }

  lemma {:induction false} LineEndShift(s: string, x: nat, t: string, y: nat, i: nat)
    requires Shifted(s, x, t, y) && x <= i
    ensures LineEnd(t, i - x + y) == LineEnd(s, i) - x + y
    decreases |s| - i
  {
    if i < |s| && !IsBreak(s[i]) { LineEndShift(s, x, t, y, i + 1); }
  }

  lemma TestShift(test: LineTest, s: string, x: nat, t: string, y: nat, i: nat)
    requires Shifted(s, x, t, y) && x < i
    ensures TestAt(test, t, i - x + y) == Moved(TestAt(test, s, i), x, y)
  {
    var a := Skip(s, i, false);
    SkipShift(s, x, t, y, i, false);
    LineStartShift(s, x, t, y, i);
    if test.Header? { HeaderShift(test.name, s, x, t, y, a); }
  }

  lemma HeaderShift(name: string, s: string, x: nat, t: string, y: nat, a: nat)
    requires Shifted(s, x, t, y) && x <= a
    ensures HeaderEnd(name, t, a - x + y) == Moved(HeaderEnd(name, s, a), x, y)
  {
    OccursShift(s, x, t, y, a, name);
    HeaderTailShift(s, x, t, y, a + |name|);
  }

  lemma HeaderTailShift(s: string, x: nat, t: string, y: nat, i: nat)
    requires Shifted(s, x, t, y) && x <= i
    ensures EndOfLine(t, BehindComment(t, Skip(t, i - x + y, false))) ==
            Moved(EndOfLine(s, BehindComment(s, Skip(s, i, false))), x, y)
  {
    var b := Skip(s, i, false);
    SkipShift(s, x, t, y, i, false);
    LineEndShift(s, x, t, y, b);
  }

  /** A line of the text that holds the stamped stretch and passes no line test. */
  ghost predicate ValueLine(test: LineTest, s: string, q: nat, a: nat, b: nat, w: string, t: string) {
    && UsableTest(test) && Stamps(s, a, b, w, t) && Plain(w) && 0 < q < a <= b < |s| && IsBreak(s[q - 1])
    && (forall k | q <= k <= b :: !IsBreak(s[k]))
    && TestAt(test, s, q) == None && TestAt(test, t, q) == None
  }

  lemma HitBefore(test: LineTest, s: string, q: nat, a: nat, b: nat, w: string, t: string, k: nat)
    requires ValueLine(test, s, q, a, b, w, t) && k < q
    ensures TestAt(test, t, k) == TestAt(test, s, k)
  {
    TestLocal(test, s, t, q - 1, k);
  }

  lemma NoHitInside(test: LineTest, s: string, q: nat, a: nat, b: nat, w: string, t: string, k: nat)
    requires ValueLine(test, s, q, a, b, w, t)
    ensures q <= k <= b ==> !Hit(test, s, k)
    ensures q <= k <= a + |w| ==> !Hit(test, t, k)
  {
    if q < k <= a + |w| {
      assert k <= a ==> t[k - 1] == s[k - 1];
      assert a < k ==> t[k - 1] == w[k - 1 - a];
    }
  }

  lemma HitBehind(test: LineTest, s: string, q: nat, a: nat, b: nat, w: string, t: string, k: nat)
    requires ValueLine(test, s, q, a, b, w, t) && b < k
    ensures TestAt(test, t, k - b + a + |w|) == Moved(TestAt(test, s, k), b, a + |w|)
  {
    TestShift(test, s, b, t, a + |w|, k);
  }

  /** Where a line of `t` comes from. */
  lemma HitOrigin(test: LineTest, s: string, q: nat, a: nat, b: nat, w: string, t: string, k: nat)
    requires ValueLine(test, s, q, a, b, w, t) && Hit(test, t, k)
    ensures (k < q && Hit(test, s, k)) || (a + |w| < k && Hit(test, s, k - (a + |w|) + b))
  {
    hide TestAt, UsableTest, Plain;
    if k < q {
      HitBefore(test, s, q, a, b, w, t, k);
    } else if a + |w| < k {
      HitBehind(test, s, q, a, b, w, t, k - (a + |w|) + b);
    } else {
      NoHitInside(test, s, q, a, b, w, t, k);
    }
  }

  /** Stamping moves the first matching line along with the text, and makes no new one. */
  lemma LinesStable(test: LineTest, s: string, q: nat, a: nat, b: nat, w: string, t: string, i: nat)
    requires ValueLine(test, s, q, a, b, w, t) && i <= q
    ensures match FirstLine(test, s, i)
      case None => FirstLine(test, t, i) == None
      case Some(x) =>
        || (x < q && FirstLine(test, t, i) == Some(x))
        || (b < x && FirstLine(test, t, i) == Some(x - b + a + |w|))
  {
    hide TestAt, UsableTest, Plain;
    if FirstLine(test, t, i).Some? {
      var y := FirstLine(test, t, i).value;
      HitOrigin(test, s, q, a, b, w, t, y);
      FirstLineExactly(test, s, i, if y < q then y else y - (a + |w|) + b);
    }
    if FirstLine(test, s, i).Some? {
      var x := FirstLine(test, s, i).value;
      NoHitInside(test, s, q, a, b, w, t, x);
      if x < q { HitBefore(test, s, q, a, b, w, t, x); } else { HitBehind(test, s, q, a, b, w, t, x); }
      FirstLineExactly(test, t, i, if x < q then x else x - b + a + |w|);
    }
  }

  // ---- Release versions ------------------------------------------------------------------

  /** `0|[1-9]\d*` */
  predicate IsPlainNumber(s: string) {
    IsNumber(s) && (s[0] == '0' ==> |s| == 1)
  }

  /** A pre-release identifier: a plain number, or letters, digits and hyphens with something besides digits. */
  predicate IsIdentifier(s: string) {
    IsPlainNumber(s) || (s != "" && (forall i | 0 <= i < |s| :: IsSuffixChar(s[i]) && s[i] != '.') && !IsNumber(s))
  }

  predicate IsCore(s: string) {
    var parts := Split(s, '.');
    |parts| == 3 && IsPlainNumber(parts[0]) && IsPlainNumber(parts[1]) && IsPlainNumber(parts[2])
  }

  predicate IsPreRelease(s: string) {
    forall part | part in Split(s, '.') :: IsIdentifier(part)
  }

  /** `assertReleaseVersion`: three plain numbers, and perhaps identifiers behind the first hyphen. */
  predicate IsReleaseVersion(v: string) {
    var parts := Split(v, '-');
    if |parts| == 1 then IsCore(v)
    else |parts[0]| < |v| && IsCore(parts[0]) && IsPreRelease(v[|parts[0]| + 1..])
  }

  lemma {:induction false} SplitChars(s: string, c: char)
    ensures forall i | 0 <= i < |s| :: s[i] == c || exists part :: part in Split(s, c) && s[i] in part
    decreases |s|
  {
    if s != "" {
      SplitChars(s[1..], c);
      var rest := Split(s[1..], c);
      forall i | 0 <= i < |s| ensures s[i] == c || exists part :: part in Split(s, c) && s[i] in part {
        if i > 0 && s[i] != c {
          assert s[i] == s[1..][i - 1];
          var part :| part in rest && s[i] in part;
          SplitKeeps(s, c, part, s[i]);
        } else if s[i] != c {
          assert s[0] in Split(s, c)[0];
        }
      }
    }
  }

  lemma SplitKeeps(s: string, c: char, part: string, x: char)
    requires s != "" && part in Split(s[1..], c) && x in part
    ensures exists p :: p in Split(s, c) && x in p
  {
    var rest := Split(s[1..], c);
    var k :| 0 <= k < |rest| && rest[k] == part;
    if s[0] == c {
      assert Split(s, c)[k + 1] == part;
    } else if k == 0 {
      assert x in Split(s, c)[0];
    } else {
      assert Split(s, c)[k] == part;
    }
  }

  /** The first part of a split text, and the separator behind it. */
  lemma {:induction false} FirstPartOf(s: string, c: char)
    ensures var head := Split(s, c)[0];
      |head| <= |s| && head == s[..|head|] && (|Split(s, c)| > 1 ==> |head| < |s| && s[|head|] == c)
    decreases |s|
  {
    if s != "" { FirstPartOf(s[1..], c); }
  }

  predicate VersionChars(s: string) {
    forall i | 0 <= i < |s| :: IsSuffixChar(s[i])
  }

  lemma CoreChars(s: string)
    requires IsCore(s)
    ensures VersionChars(s) && s != ""
  {
    SplitChars(s, '.');
    var parts := Split(s, '.');
    forall i | 0 <= i < |s| ensures IsSuffixChar(s[i]) {
      if s[i] != '.' {
        var part :| part in parts && s[i] in part;
        assert part == parts[0] || part == parts[1] || part == parts[2];
      }
    }
  }

  lemma PreReleaseChars(s: string)
    requires IsPreRelease(s)
    ensures VersionChars(s)
  {
    SplitChars(s, '.');
    forall i | 0 <= i < |s| ensures IsSuffixChar(s[i]) {
      if s[i] != '.' {
        var part :| part in Split(s, '.') && s[i] in part;
        assert IsIdentifier(part);
      }
    }
  }

  lemma VersionIsSuffix(v: string)
    requires IsReleaseVersion(v)
    ensures VersionChars(v) && v != ""
  {
    var head := Split(v, '-')[0];
    FirstPartOf(v, '-');
    if |Split(v, '-')| == 1 {
      CoreChars(v);
    } else {
      CoreChars(head);
      PreReleaseChars(v[|head| + 1..]);
      forall i | 0 <= i < |v| ensures IsSuffixChar(v[i]) {
        assert i < |head| ==> v[i] == head[i];
        assert i > |head| ==> v[i] == v[|head| + 1..][i - |head| - 1];
      }
    }
  }

  /** A release version can stand in a value. */
  lemma VersionIsPlain(v: string)
    requires IsReleaseVersion(v)
    ensures Plain(v)
  {
    VersionIsSuffix(v);
    forall i | 0 <= i < |v| ensures v[i] != '"' && !IsBreak(v[i]) { assert IsSuffixChar(v[i]); }
  }

  // ---- Finding the value -----------------------------------------------------------------

  /** The part of the file the pattern is tried on: all of it, or the one named TOML section. */
  function Body(section: Option<string>, s: string): (r: Option<(nat, nat)>)
    ensures r.Some? ==> r.value.0 <= r.value.1 <= |s|
  {
    match section
    case None => Some((0, |s|))
    case Some(name) =>
      match FirstLine(Header(name), s, 0)
      case None => None
      case Some(h) =>
        var end := TestAt(Header(name), s, h).value;
        HeaderEnds(name, s, h);
        if FirstLine(Header(name), s, end).Some? then None
        else
          match FirstLine(Section, s[end..], 0)
          case None => Some((end, |s|))
          case Some(x) => Some((end, end + x))
  }

  lemma HeaderEnds(name: string, s: string, h: nat)
    requires TestAt(Header(name), s, h).Some?
    ensures var end := TestAt(Header(name), s, h).value;
      h + |name| <= end <= |s| && (end == |s| || IsBreak(s[end]))
  {
  }

  /** The place of the version in a file's text, before the JSON check. */
  function Find(section: Option<string>, p: Pattern, s: string): Option<(nat, nat)> {
    match Body(section, s)
    case None => None
    case Some((lo, hi)) =>
      match OnlyValue(p, s[lo..hi])
      case None => None
      case Some((vs, ve)) =>
        OnlyValueBounds(p, s[lo..hi], vs, ve);
        if IsReleaseVersion(s[lo + vs..lo + ve]) then Some((lo + vs, lo + ve)) else None
  }

  lemma OnlyValueBounds(p: Pattern, s: string, vs: nat, ve: nat)
    requires OnlyValue(p, s) == Some((vs, ve))
    ensures vs < ve < |s|
  {
    var i := OnlyValueParts(p, s, vs, ve);
  }

  /** An owner file. `parse` answers what the strict JSON reading finds at the top level under a name. */
  datatype OwnerFile = OwnerFile(path: FilePath, pattern: Pattern, section: Option<string>)

  type JsonReading = (string, string) -> Option<string>

  function ReadOwner(file: OwnerFile, parse: JsonReading, s: string): Option<(nat, nat)> {
    match Find(file.section, file.pattern, s)
    case None => None
    case Some((a, b)) =>
      FindBounds(file.section, file.pattern, s, a, b);
      if file.pattern.JsonField? && parse(s, file.pattern.field) != Some(s[a..b]) then None else Some((a, b))
  }

  lemma FindBounds(section: Option<string>, p: Pattern, s: string, a: nat, b: nat)
    requires Find(section, p, s) == Some((a, b))
    ensures a < b < |s|
  {
  }

  // ---- Stamping is found again -------------------------------------------------------------

  /** What the owner table keeps to: a section only with a key, and names that say which line they are on. */
  ghost predicate UsableFile(file: OwnerFile) {
    && Usable(file.pattern)
    && (file.section.Some? ==> UsableTest(Header(file.section.value)) && UsableKey(file.pattern))
  }

  ghost predicate UsableKey(p: Pattern) {
    p.TomlKey? && p.key != "" && !IsBlank(p.key[0]) && p.key[0] != '['
  }

  lemma StampsSlice(s: string, a: nat, b: nat, w: string, t: string, lo: nat, hi: nat)
    requires Stamps(s, a, b, w, t) && lo <= a && b <= hi <= |s|
    ensures hi - b + a + |w| <= |t| && Stamps(s[lo..hi], a - lo, b - lo, w, t[lo..hi - b + a + |w|])
  {
    var x, y := s[lo..hi], t[lo..hi - b + a + |w|];
    forall k | b - lo <= k < |x| ensures x[k] == y[k - (b - lo) + a - lo + |w|] {
      assert s[lo + k] == t[lo + k - b + a + |w|];
    }
  }

  /** A line from `q` on whose first word, at `c`, begins like the key, unbroken up to `b`. */
  ghost predicate KeyLine(p: Pattern, s: string, q: nat, c: nat, b: nat) {
    && UsableKey(p) && 0 < q <= c <= b < |s| && IsBreak(s[q - 1]) && c == Skip(s, q, false) && s[c] == p.key[0]
    && forall k | q <= k <= b :: !IsBreak(s[k])
  }

  lemma {:induction false} SkipSlice(s: string, lo: nat, hi: nat, i: nat)
    requires lo <= hi <= |s| && Skip(s[lo..hi], i, false) < hi - lo
    ensures Skip(s, lo + i, false) == lo + Skip(s[lo..hi], i, false)
    decreases |s| - i
  {
    if i < hi - lo && IsBlank(s[lo..hi][i]) { SkipSlice(s, lo, hi, i + 1); }
  }

  /** The characters from the key to the closing quote stay on one line. */
  lemma OneLine(key: string, s: string, i: nat, vs: nat, ve: nat, k: nat)
    requires Usable(TomlKey(key)) && TomlPrefix(key, s, i) == Some(vs) && ValueEnd(s, vs) == ve
    requires i <= k <= ve && ve < |s| && s[ve] == '"'
    ensures !IsBreak(s[k])
  {
    WordAfter(key, s, i, false);
    if k < vs - 1 {
      WordParts(key, s, i, false, k);
    } else if vs <= k < ve {
      ValueRun(s, vs, k);
    }
  }

  lemma KeyPlace(key: string, s: string, i: nat, vs: nat) returns (a: nat)
    requires key != "" && TomlPrefix(key, s, i) == Some(vs)
    ensures a == Skip(s, i, false) && i <= a && a + |key| < vs && a < |s| && s[a] == key[0] && LineStart(s, i)
  {
    a := Skip(s, i, false);
    OpenAfter(s, a + |key|, '=', false);
    OccursAt(s, a, key, 0);
  }

  /** The line of the value starts inside the section and with the key. */
  lemma ValueLineStarts(p: Pattern, s: string, lo: nat, hi: nat, vs: nat, ve: nat) returns (q: nat, c: nat)
    requires UsableKey(p) && Usable(p) && lo < hi <= |s| && IsBreak(s[lo]) && OnlyValue(p, s[lo..hi]) == Some((vs, ve))
    ensures lo < q <= c < lo + vs && lo + ve < hi && vs < ve && KeyLine(p, s, q, c, lo + ve)
  {
    var scope := s[lo..hi];
    var i := OnlyValueParts(p, scope, vs, ve);
    var a := KeyPlace(p.key, scope, i, vs);
    q, c := lo + i, lo + a;
    SkipSlice(s, lo, hi, i);
    NotAtBreak(p, scope, i, vs);
    assert scope[i - 1] == s[q - 1];
    forall k | q <= k <= lo + ve ensures !IsBreak(s[k]) {
      OneLine(p.key, scope, i, vs, ve, k - lo);
      assert s[k] == scope[k - lo];
    }
  }

  lemma NotAtBreak(p: Pattern, scope: string, i: nat, vs: nat)
    requires UsableKey(p) && Usable(p) && scope != "" && IsBreak(scope[0]) && TomlPrefix(p.key, scope, i) == Some(vs)
    ensures i > 0
  {
    var a := KeyPlace(p.key, scope, i, vs);
  }

  /** No line test passes on a line that starts with the key. */
  lemma KeyLineFails(p: Pattern, test: LineTest, s: string, q: nat, c: nat)
    requires UsableKey(p) && UsableTest(test) && c == Skip(s, q, false) && c < |s| && s[c] == p.key[0]
    ensures TestAt(test, s, q) == None
  {
    if test.Header? { OtherWord(test.name, s, c); }
  }

  lemma OtherWord(name: string, s: string, c: nat)
    requires name != "" && c < |s| && s[c] != name[0]
    ensures !Occurs(s, c, name)
  {
  }

  lemma StampedLine(p: Pattern, test: LineTest, s: string, q: nat, c: nat, a: nat, b: nat, w: string, t: string)
    requires UsableTest(test) && Plain(w) && Stamps(s, a, b, w, t) && KeyLine(p, s, q, c, b) && c < a
    ensures ValueLine(test, s, q, a, b, w, t)
  {
    SkipLocal(s, t, a, q, false);
    KeyLineFails(p, test, s, q, c);
    KeyLineFails(p, test, t, q, c);
  }

  lemma BodyParts(name: string, s: string, lo: nat, hi: nat) returns (h: nat)
    requires Body(Some(name), s) == Some((lo, hi))
    ensures h + |name| <= lo <= hi <= |s| && (lo == |s| || IsBreak(s[lo]))
    ensures FirstLine(Header(name), s, 0) == Some(h) && TestAt(Header(name), s, h) == Some(lo)
    ensures FirstLine(Header(name), s, lo) == None
    ensures match FirstLine(Section, s[lo..], 0) case None => hi == |s| case Some(x) => hi == lo + x
  {
    h := FirstLine(Header(name), s, 0).value;
    HeaderEnds(name, s, h);
  }

  lemma BodyIs(name: string, t: string, h: nat, lo: nat)
    requires FirstLine(Header(name), t, 0) == Some(h) && TestAt(Header(name), t, h) == Some(lo) && lo <= |t|
    requires FirstLine(Header(name), t, lo) == None
    ensures Body(Some(name), t) ==
            match FirstLine(Section, t[lo..], 0) case None => Some((lo, |t|)) case Some(x) => Some((lo, lo + x))
  {
    hide FirstLine, TestAt;
  }

  /** The section is found again around the stamped value. */
  lemma BodyStable(name: string, p: Pattern, s: string, lo: nat, hi: nat, vs: nat, ve: nat, w: string, t: string)
    requires UsableTest(Header(name)) && UsableKey(p) && Usable(p) && Plain(w)
    requires Body(Some(name), s) == Some((lo, hi)) && OnlyValue(p, s[lo..hi]) == Some((vs, ve))
    requires lo + ve <= |s| && Stamps(s, lo + vs, lo + ve, w, t)
    ensures Body(Some(name), t) == Some((lo, hi - (lo + ve) + lo + vs + |w|))
  {
    hide Body, OnlyValue, FirstLine, TestAt;
    var h := BodyParts(name, s, lo, hi);
    OnlyValueBounds(p, s[lo..hi], vs, ve);
    var q, c := ValueLineStarts(p, s, lo, hi, vs, ve);
    HeadersStable(p, name, s, h, lo, q, c, lo + vs, lo + ve, w, t);
    SectionStable(p, s, lo, q, c, lo + vs, lo + ve, w, t);
    BodyIs(name, t, h, lo);
  }

  lemma HeadersStable(p: Pattern, name: string, s: string, h: nat, lo: nat, q: nat, c: nat, a: nat, b: nat,
                      w: string, t: string)
    requires UsableTest(Header(name)) && Plain(w) && Stamps(s, a, b, w, t)
    requires h < lo < q && c < a && KeyLine(p, s, q, c, b)
    requires FirstLine(Header(name), s, 0) == Some(h) && TestAt(Header(name), s, h) == Some(lo)
    requires FirstLine(Header(name), s, lo) == None
    ensures FirstLine(Header(name), t, 0) == Some(h) && TestAt(Header(name), t, h) == Some(lo)
    ensures FirstLine(Header(name), t, lo) == None && lo <= |t|
  {
    var header := Header(name);
    StampedLine(p, header, s, q, c, a, b, w, t);
    LinesStable(header, s, q, a, b, w, t, 0);
    HitBefore(header, s, q, a, b, w, t, h);
    LinesStable(header, s, q, a, b, w, t, lo);
  }

  lemma KeyLineBehind(p: Pattern, s: string, lo: nat, q: nat, c: nat, b: nat)
    requires KeyLine(p, s, q, c, b) && lo < q
    ensures KeyLine(p, s[lo..], q - lo, c - lo, b - lo)
  {
    SkipShift(s, lo, s[lo..], 0, q, false);
  }

  lemma SectionStable(p: Pattern, s: string, lo: nat, q: nat, c: nat, a: nat, b: nat, w: string, t: string)
    requires Plain(w) && Stamps(s, a, b, w, t) && lo < q && c < a && KeyLine(p, s, q, c, b)
    ensures lo <= |t|
    ensures match FirstLine(Section, s[lo..], 0)
      case None => FirstLine(Section, t[lo..], 0) == None
      case Some(x) => b - lo < x ==> FirstLine(Section, t[lo..], 0) == Some(x - (b - lo) + a - lo + |w|)
  {
    hide FirstLine, Plain;
    StampsSlice(s, a, b, w, t, lo, |s|);
    assert s[lo..|s|] == s[lo..] && t[lo..|t|] == t[lo..];
    KeyLineBehind(p, s, lo, q, c, b);
    SectionMoves(p, s[lo..], q - lo, c - lo, a - lo, b - lo, w, t[lo..]);
  }

  lemma SectionMoves(p: Pattern, s: string, q: nat, c: nat, a: nat, b: nat, w: string, t: string)
    requires Plain(w) && Stamps(s, a, b, w, t) && c < a && KeyLine(p, s, q, c, b)
    ensures match FirstLine(Section, s, 0)
      case None => FirstLine(Section, t, 0) == None
      case Some(x) => b < x ==> FirstLine(Section, t, 0) == Some(x - b + a + |w|)
  {
    StampedLine(p, Section, s, q, c, a, b, w, t);
    LinesStable(Section, s, q, a, b, w, t, 0);
  }

  lemma FindParts(section: Option<string>, p: Pattern, s: string, a: nat, b: nat)
    returns (lo: nat, hi: nat, vs: nat, ve: nat)
    requires Find(section, p, s) == Some((a, b))
    ensures Body(section, s) == Some((lo, hi)) && lo <= hi <= |s| && OnlyValue(p, s[lo..hi]) == Some((vs, ve))
    ensures a == lo + vs && b == lo + ve && vs < ve && lo + ve < hi
  {
    lo, hi := Body(section, s).value.0, Body(section, s).value.1;
    vs, ve := OnlyValue(p, s[lo..hi]).value.0, OnlyValue(p, s[lo..hi]).value.1;
    OnlyValueBounds(p, s[lo..hi], vs, ve);
  }

  lemma FindIs(section: Option<string>, p: Pattern, t: string, lo: nat, hi: nat, vs: nat, ve: nat, w: string)
    requires Body(section, t) == Some((lo, hi)) && lo <= hi <= |t| && OnlyValue(p, t[lo..hi]) == Some((vs, ve))
    requires vs <= ve && lo + ve <= hi && t[lo + vs..lo + ve] == w && IsReleaseVersion(w)
    ensures Find(section, p, t) == Some((lo + vs, lo + ve))
  {
    hide Body, OnlyValue, IsReleaseVersion;
  }

  lemma StampedText(s: string, a: nat, b: nat, w: string, t: string)
    requires Stamps(s, a, b, w, t)
    ensures a + |w| <= |t| && t[a..a + |w|] == w
  {
  }

  lemma BodyFollows(file: OwnerFile, s: string, lo: nat, hi: nat, vs: nat, ve: nat, w: string, t: string)
    requires UsableFile(file) && Plain(w) && Body(file.section, s) == Some((lo, hi)) && lo <= hi <= |s|
    requires OnlyValue(file.pattern, s[lo..hi]) == Some((vs, ve)) && lo + ve < hi && Stamps(s, lo + vs, lo + ve, w, t)
    ensures hi - ve + vs + |w| <= |t| && Body(file.section, t) == Some((lo, hi - ve + vs + |w|))
  {
    if file.section.Some? {
      BodyStable(file.section.value, file.pattern, s, lo, hi, vs, ve, w, t);
    }
  }

  lemma ValueFollows(p: Pattern, s: string, lo: nat, hi: nat, vs: nat, ve: nat, w: string, t: string)
    requires Usable(p) && Plain(w) && lo <= hi <= |s|
    requires OnlyValue(p, s[lo..hi]) == Some((vs, ve)) && lo + ve < hi && Stamps(s, lo + vs, lo + ve, w, t)
    ensures lo <= hi - ve + vs + |w| <= |t| && OnlyValue(p, t[lo..hi - ve + vs + |w|]) == Some((vs, vs + |w|))
  {
    hide OnlyValue, Usable, Plain;
    StampsSlice(s, lo + vs, lo + ve, w, t, lo, hi);
    OnlyValueStable(p, s[lo..hi], vs, ve, w, t[lo..hi - ve + vs + |w|]);
  }

  /** A version stamped where the value was found is found there again. */
  lemma FindStable(file: OwnerFile, s: string, a: nat, b: nat, w: string, t: string)
    requires UsableFile(file) && Find(file.section, file.pattern, s) == Some((a, b))
    requires IsReleaseVersion(w) && b <= |s| && Stamps(s, a, b, w, t)
    ensures Find(file.section, file.pattern, t) == Some((a, a + |w|))
  {
    hide Body, OnlyValue, Find, IsReleaseVersion;
    var lo, hi, vs, ve := FindParts(file.section, file.pattern, s, a, b);
    VersionIsPlain(w);
    BodyFollows(file, s, lo, hi, vs, ve, w, t);
    ValueFollows(file.pattern, s, lo, hi, vs, ve, w, t);
    StampedText(s, a, b, w, t);
    FindIs(file.section, file.pattern, t, lo, hi - ve + vs + |w|, vs, vs + |w|, w);
  }

  // ---- The owners of the release version ---------------------------------------------------

  function JsonOwner(path: FilePath, field: string): OwnerFile {
    OwnerFile(path, JsonField(field), None)
  }

  function TomlOwner(path: FilePath, section: string): OwnerFile {
    OwnerFile(path, TomlKey("version"), Some(section))
  }

  const PYTHON_OWNER := OwnerFile("packages/capture-runtime/src/capture_runtime/constants/versions.py",
                                  PythonConstant("RUNTIME_VERSION:", "Final"), None)

  const OWNER_FILES: seq<OwnerFile> := [
    JsonOwner("release/version.json", "releaseVersion"),
    JsonOwner("packages/capture-workbench-ui/package.json", "version"),
    JsonOwner("packages/capture-runtime-client/package.json", "version"),
    TomlOwner("packages/capture-runtime/pyproject.toml", "[project]"),
    TomlOwner("packages/capture-runtime-client-python/pyproject.toml", "[project]"),
    TomlOwner("packages/capture-sidecar-launcher/Cargo.toml", "[package]"),
    TomlOwner("packages/capture-sidecar-launcher/tests/fixtures/activation-probe/Cargo.toml", "[package]"),
    TomlOwner("apps/capture-workbench-desktop/scripts/fixtures/deterministic-runtime/Cargo.toml", "[package]"),
    TomlOwner("apps/capture-workbench-desktop/src-tauri/Cargo.toml", "[package]"),
    JsonOwner("apps/capture-workbench-desktop/src-tauri/tauri.conf.json", "version"),
    PYTHON_OWNER,
    JsonOwner("apps/capture-workbench-desktop/src-tauri/resources/capture-runtime-manifest.example.json",
              "runtimeVersion")
  ]

  lemma JsonOwnersUsable(path: FilePath)
    ensures UsableFile(JsonOwner(path, "releaseVersion")) && UsableFile(JsonOwner(path, "version"))
    ensures UsableFile(JsonOwner(path, "runtimeVersion"))
  {
  }

  lemma TomlOwnersUsable(path: FilePath)
    ensures UsableFile(TomlOwner(path, "[project]")) && UsableFile(TomlOwner(path, "[package]"))
  {
  }

  lemma OwnersUsable()
    ensures forall file | file in OWNER_FILES :: UsableFile(file)
  {
    forall file | file in OWNER_FILES ensures UsableFile(file) {
      JsonOwnersUsable(file.path);
      TomlOwnersUsable(file.path);
    }
  }

  /** The owner as the plan sees it. */
  function AsOwner(file: OwnerFile, parse: JsonReading): Owner {
    Owner(file.path, s => ReadOwner(file, parse, s))
  }

  lemma StampedStamps(s: string, a: nat, b: nat, w: string)
    requires a <= b <= |s|
    ensures Stamps(s, a, b, w, s[..a] + w + s[b..])
  {
  }

  /**
   Stamping a file settles it: always for TOML and Python, and for JSON exactly when the strict
   reading of the stamped text finds the version at the top level.
   */
  lemma OwnerSettlesExactly(file: OwnerFile, parse: JsonReading, files: Files, version: string)
    requires UsableFile(file) && IsReleaseVersion(version) && Readable(files, AsOwner(file, parse))
    ensures Settles(files, AsOwner(file, parse), version) <==>
              (file.pattern.JsonField? ==>
                 parse(Stamped(AsOwner(file, parse), files[file.path], version), file.pattern.field) == Some(version))
  {
    hide Find, IsReleaseVersion, UsableFile;
    var s := files[file.path];
    var (a, b) := ReadOwner(file, parse, s).value;
    FindBounds(file.section, file.pattern, s, a, b);
    var t := s[..a] + version + s[b..];
    assert t == Stamped(AsOwner(file, parse), s, version);
    StampedStamps(s, a, b, version);
    FindStable(file, s, a, b, version, t);
    StampedText(s, a, b, version, t);
    assert t[..a] + version + t[a + |version|..] == t;
  }

  function AsOwners(owners: seq<OwnerFile>, parse: JsonReading): (r: seq<Owner>)
    ensures |r| == |owners| && forall i | 0 <= i < |owners| :: r[i] == AsOwner(owners[i], parse)
  {
    if owners == [] then [] else AsOwners(owners[..|owners| - 1], parse) + [AsOwner(owners[|owners| - 1], parse)]
  }
}
