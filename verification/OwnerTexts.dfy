/**
 What the patterns of the owner files match, as texts (tools/release/version-owners.ts): a version,
 the text that introduces a value, the only match in a file, and the body of a TOML section.
 */
module OwnerTexts {
  import opened Wrappers
  import opened Decimals
  import opened Occurrences
  import opened Separators
  import opened ReleaseTags
  import opened VersionPlan
  import opened VersionOwners
  import Steps = ReleaseSteps

  // ---- Versions ------------------------------------------------------------------------

  lemma {:induction false} PlainDecimal(s: string)
    requires IsPlainNumber(s)
    ensures s == Decimal(NumberOf(s)) && (s[0] != '0' ==> NumberOf(s) > 0)
    decreases |s|
  {
    var d := s[|s| - 1] as int - '0' as int;
    assert Digit(d) == s[|s| - 1];
    if |s| > 1 {
      var front := s[..|s| - 1];
      PlainDecimal(front);
      assert NumberOf(s) / 10 == NumberOf(front) && NumberOf(s) % 10 == d;
      assert s == front + [Digit(d)];
    }
  }

  lemma {:induction false} DecimalIsPlain(n: nat)
    ensures IsPlainNumber(Decimal(n)) && (n > 0 ==> Decimal(n)[0] != '0')
  {
    Steps.NumberOfDecimal(n);
    if n >= 10 { DecimalIsPlain(n / 10); }
  }

  /** A number without leading zeros. */
  ghost predicate IsDecimal(s: string) {
    exists n: nat :: s == Decimal(n)
  }

  lemma PlainNumberExactly(s: string)
    ensures IsPlainNumber(s) <==> IsDecimal(s)
  {
    if IsPlainNumber(s) { PlainDecimal(s); }
    if n: nat :| s == Decimal(n) { DecimalIsPlain(n); }
  }

  predicate IdentifierChar(c: char) {
    '0' <= c <= '9' || 'A' <= c <= 'Z' || 'a' <= c <= 'z' || c == '-'
  }

  /** Letters, digits and hyphens that are not all digits. */
  ghost predicate IsMixed(x: string) {
    (forall k | 0 <= k < |x| :: IdentifierChar(x[k])) && exists k | 0 <= k < |x| :: !('0' <= x[k] <= '9')
  }

  ghost predicate Identifier(x: string) {
    IsDecimal(x) || IsMixed(x)
  }

  lemma IdentifierExactly(x: string)
    ensures IsIdentifier(x) <==> Identifier(x)
  {
    PlainNumberExactly(x);
    if IsIdentifier(x) && !IsPlainNumber(x) {
      forall k | 0 <= k < |x| ensures IdentifierChar(x[k]) { assert IsSuffixChar(x[k]); }
      assert exists k | 0 <= k < |x| :: !IsDigit(x[k]);
    }
    if IsMixed(x) {
      forall k | 0 <= k < |x| ensures IsSuffixChar(x[k]) && x[k] != '.' { assert IdentifierChar(x[k]); }
      var k :| 0 <= k < |x| && !('0' <= x[k] <= '9');
      assert !IsDigit(x[k]);
    }
  }

  function Core(a: nat, b: nat, c: nat): string {
    Decimal(a) + "." + Decimal(b) + "." + Decimal(c)
  }

  lemma CoreJoined(a: nat, b: nat, c: nat)
    ensures Joined([Decimal(a), Decimal(b), Decimal(c)], '.') == Core(a, b, c)
    ensures Apart([Decimal(a), Decimal(b), Decimal(c)], '.') && '-' !in Core(a, b, c)
  {
    hide Decimal, Joined;
    JoinedOne(Decimal(c), '.');
    JoinedMore(Decimal(b), [Decimal(c)], '.');
    JoinedMore(Decimal(a), [Decimal(b), Decimal(c)], '.');
    assert [Decimal(a)] + [Decimal(b), Decimal(c)] == [Decimal(a), Decimal(b), Decimal(c)];
    assert [Decimal(b)] + [Decimal(c)] == [Decimal(b), Decimal(c)];
    forall n: nat ensures '.' !in Decimal(n) && '-' !in Decimal(n) { DigitsOnly(n); }
  }

  lemma DigitsOnly(n: nat)
    ensures '.' !in Decimal(n) && '-' !in Decimal(n)
  {
    var s := Decimal(n);
    assert forall k | 0 <= k < |s| :: s[k] != '.' && s[k] != '-';
  }

  lemma CoreExactly(s: string)
    ensures IsCore(s) <==> exists a: nat, b: nat, c: nat :: s == Core(a, b, c)
  {
    var parts := Split(s, '.');
    Steps.SplitExactly(s, '.', parts);
    hide Decimal, Split, Core;
    if IsCore(s) {
      PlainNumberExactly(parts[0]);
      PlainNumberExactly(parts[1]);
      PlainNumberExactly(parts[2]);
      var a: nat :| parts[0] == Decimal(a);
      var b: nat :| parts[1] == Decimal(b);
      var c: nat :| parts[2] == Decimal(c);
      assert parts == [Decimal(a), Decimal(b), Decimal(c)];
      CoreJoined(a, b, c);
    }
    if a: nat, b: nat, c: nat :| s == Core(a, b, c) {
      CoreJoined(a, b, c);
      Steps.SplitExactly(s, '.', [Decimal(a), Decimal(b), Decimal(c)]);
      PlainNumberExactly(Decimal(a));
      PlainNumberExactly(Decimal(b));
      PlainNumberExactly(Decimal(c));
    }
  }

  ghost predicate Identifiers(ids: seq<string>) {
    forall k | 0 <= k < |ids| :: Identifier(ids[k])
  }

  ghost predicate IsTail(x: string) {
    exists ids :: ids != [] && Identifiers(ids) && x == Joined(ids, '.')
  }

  lemma TailExactly(x: string)
    ensures IsPreRelease(x) <==> IsTail(x)
  {
    hide IsIdentifier, Identifier, Joined, Split;
    forall y: string ensures IsIdentifier(y) <==> Identifier(y) { IdentifierExactly(y); }
    var parts := Split(x, '.');
    Steps.SplitExactly(x, '.', parts);
    if IsPreRelease(x) { assert Identifiers(parts); }
    if IsTail(x) {
      var ids :| ids != [] && Identifiers(ids) && x == Joined(ids, '.');
      forall k | 0 <= k < |ids| ensures '.' !in ids[k] { NoDotInside(ids[k]); }
      Steps.SplitExactly(x, '.', ids);
    }
  }

  lemma NoDotInside(x: string)
    requires Identifier(x)
    ensures '.' !in x
  {
    if n: nat :| x == Decimal(n) { DigitsOnly(n); }
  }

  /** Three numbers without leading zeros between dots, and perhaps a hyphen and dotted identifiers. */
  ghost predicate IsVersionText(v: string) {
    exists a: nat, b: nat, c: nat ::
      v == Core(a, b, c) || (exists tail :: v == Core(a, b, c) + "-" + tail && IsTail(tail))
  }

  lemma VersionExactly(v: string)
    ensures IsReleaseVersion(v) <==> IsVersionText(v)
  {
    if IsReleaseVersion(v) { VersionRead(v); }
    if IsVersionText(v) { VersionAccepted(v); }
  }

  lemma VersionRead(v: string)
    requires IsReleaseVersion(v)
    ensures IsVersionText(v)
  {
    hide IsCore, IsPreRelease, IsTail, Core;
    var head := Split(v, '-')[0];
    Steps.JoinedSplit(v, '-');
    FirstPartOf(v, '-');
    if |Split(v, '-')| == 1 {
      JoinedOne(head, '-');
      assert Split(v, '-') == [head];
    }
    CoreExactly(head);
    var a: nat, b: nat, c: nat :| head == Core(a, b, c);
    if |Split(v, '-')| > 1 {
      var tail := v[|head| + 1..];
      TailExactly(tail);
      assert v == Core(a, b, c) + "-" + tail;
    }
  }

  lemma VersionAccepted(v: string)
    requires IsVersionText(v)
    ensures IsReleaseVersion(v)
  {
    hide IsCore, IsPreRelease, IsTail, Core;
    var a: nat, b: nat, c: nat :|
      v == Core(a, b, c) || (exists tail :: v == Core(a, b, c) + "-" + tail && IsTail(tail));
    var head := Core(a, b, c);
    CoreExactly(head);
    CoreJoined(a, b, c);
    if v == head {
      JoinedOne(head, '-');
      Steps.SplitExactly(v, '-', [head]);
    } else {
      var tail :| v == head + "-" + tail && IsTail(tail);
      TailExactly(tail);
      Steps.JoinedSplit(tail, '-');
      JoinedMore(head, Split(tail, '-'), '-');
      Steps.SplitExactly(v, '-', [head] + Split(tail, '-'));
      assert v[|head| + 1..] == tail;
    }
  }

  // ---- Blanks and values ---------------------------------------------------------------

  predicate BlankChar(c: char, wide: bool) {
    if wide then IsSpace(c) else c == '\t' || c == ' '
  }

  predicate Blanks(w: string, wide: bool) {
    forall k | 0 <= k < |w| :: BlankChar(w[k], wide)
  }

  /** A run of blanks that the text does not go on with is all that is skipped. */
  lemma {:induction false} SkipIs(s: string, i: nat, wide: bool, j: nat)
    requires i <= j <= |s| && (forall k | i <= k < j :: BlankChar(s[k], wide)) && (j < |s| ==> !BlankChar(s[j], wide))
    ensures Skip(s, i, wide) == j
    decreases j - i
  {
    if i < j { SkipIs(s, i + 1, wide, j); }
  }

  lemma {:induction false} Skipped(s: string, i: nat, wide: bool)
    requires i <= |s|
    ensures forall k | i <= k < Skip(s, i, wide) :: BlankChar(s[k], wide)
    decreases |s| - i
  {
    if i < |s| && BlankChar(s[i], wide) { Skipped(s, i + 1, wide); }
  }

  lemma SkippedText(s: string, i: nat, wide: bool) returns (w: string)
    requires i <= |s|
    ensures Blanks(w, wide) && Occurs(s, i, w) && Skip(s, i, wide) == i + |w|
  {
    w := s[i..Skip(s, i, wide)];
    Skipped(s, i, wide);
  }

  lemma SkipsText(s: string, i: nat, wide: bool, w: string)
    requires Blanks(w, wide) && Occurs(s, i, w) && i + |w| < |s| && !BlankChar(s[i + |w|], wide)
    ensures Skip(s, i, wide) == i + |w|
  {
    forall k | i <= k < i + |w| ensures BlankChar(s[k], wide) { OccursAt(s, i, w, k - i); }
    SkipIs(s, i, wide, i + |w|);
  }

  /** A non-empty text without quotes and line breaks, closed by a quote. */
  predicate IsValue(s: string, vs: nat, ve: nat) {
    vs < ve < |s| && s[ve] == '"' && forall k | vs <= k < ve :: s[k] != '"' && s[k] != '\r' && s[k] != '\n'
  }

  lemma ValueExactly(s: string, vs: nat, ve: nat)
    ensures vs < ValueEnd(s, vs) && Sees(s, ValueEnd(s, vs), '"') && ve == ValueEnd(s, vs) <==> IsValue(s, vs, ve)
  {
    if vs < ValueEnd(s, vs) && ve == ValueEnd(s, vs) {
      forall k | vs <= k < ve ensures k < |s| && s[k] != '"' && !IsBreak(s[k]) { ValueRun(s, vs, k); }
    }
    if IsValue(s, vs, ve) { ValueIs(s, vs, ve); }
  }

  // ---- What introduces a value ---------------------------------------------------------

  /** `x` is `v`, the sign, `w` and a quote. */
  ghost predicate Opens(x: string, sign: char, wide: bool) {
    exists v, w :: Blanks(v, wide) && Blanks(w, wide) && x == v + ([sign] + (w + "\""))
  }

  lemma OneOccurs(s: string, i: nat, c: char)
    ensures Occurs(s, i, [c]) <==> Sees(s, i, c)
  {
    if Occurs(s, i, [c]) { OccursAt(s, i, [c], 0); }
  }

  lemma OpenOccurs(s: string, i: nat, sign: char, v: string, w: string)
    ensures Occurs(s, i, v + ([sign] + (w + "\""))) <==>
              && Occurs(s, i, v) && Sees(s, i + |v|, sign) && Occurs(s, i + |v| + 1, w)
              && Sees(s, i + |v| + 1 + |w|, '"')
  {
    OneOccurs(s, i + |v|, sign);
    OneOccurs(s, i + |v| + 1 + |w|, '"');
    OccursConcat(s, i, v, [sign] + (w + "\""));
    OccursConcat(s, i + |v|, [sign], w + "\"");
    OccursConcat(s, i + |v| + 1, w, "\"");
    hide Occurs, Sees;
  }

  lemma OpenFound(s: string, i: nat, sign: char, wide: bool) returns (x: string)
    requires i <= |s| && OpenValue(s, i, sign, wide).Some?
    ensures Opens(x, sign, wide) && Occurs(s, i, x) && OpenValue(s, i, sign, wide) == Some(i + |x|)
  {
    hide Occurs, Blanks, Skip;
    var v := SkippedText(s, i, wide);
    var w := SkippedText(s, i + |v| + 1, wide);
    x := v + ([sign] + (w + "\""));
    OpenOccurs(s, i, sign, v, w);
  }

  lemma OpenRead(s: string, i: nat, sign: char, wide: bool, x: string)
    requires i <= |s| && !BlankChar(sign, wide) && Opens(x, sign, wide) && Occurs(s, i, x)
    ensures OpenValue(s, i, sign, wide) == Some(i + |x|)
  {
    hide Occurs, Blanks, Skip;
    var v, w :| Blanks(v, wide) && Blanks(w, wide) && x == v + ([sign] + (w + "\""));
    OpenOccurs(s, i, sign, v, w);
    SkipsText(s, i, wide, v);
    SkipsText(s, i + |v| + 1, wide, w);
  }

  /** Blanks, the word, and the opening of a value behind an equals sign. */
  ghost predicate WordOpens(x: string, word: string, wide: bool) {
    exists u, y :: Blanks(u, wide) && Opens(y, '=', wide) && x == u + (word + y)
  }

  lemma WordFound(word: string, s: string, i: nat, wide: bool) returns (x: string)
    requires i <= |s| && WordPrefix(word, s, i, wide).Some?
    ensures WordOpens(x, word, wide) && Occurs(s, i, x) && WordPrefix(word, s, i, wide) == Some(i + |x|)
  {
    var u := SkippedText(s, i, wide);
    var y := OpenFound(s, i + |u| + |word|, '=', wide);
    hide Occurs, Blanks, Skip, OpenValue, Opens;
    OccursConcat(s, i, u, word + y);
    OccursConcat(s, i + |u|, word, y);
    x := u + (word + y);
  }

  lemma WordRead(word: string, s: string, i: nat, wide: bool, x: string)
    requires i <= |s| && word != "" && !BlankChar(word[0], wide) && WordOpens(x, word, wide) && Occurs(s, i, x)
    ensures WordPrefix(word, s, i, wide) == Some(i + |x|)
  {
    var u, y :| Blanks(u, wide) && Opens(y, '=', wide) && x == u + (word + y);
    OccursConcat(s, i, u, word + y);
    OccursConcat(s, i + |u|, word, y);
    OccursAt(s, i + |u|, word, 0);
    OccursFits(s, i + |u| + |word|, y);
    assert !BlankChar('=', wide);
    hide Occurs, Blanks, Skip, OpenValue, Opens, BlankChar;
    SkipsText(s, i, wide, u);
    OpenRead(s, i + |u| + |word|, '=', wide, y);
  }

  lemma OccursFits(s: string, i: nat, x: string)
    requires Occurs(s, i, x)
    ensures i + |x| <= |s|
  {
  }

  /**
   The text in front of a value: for JSON the quoted name, a colon and a quote with any white space
   between them; for TOML the key, an equals sign and a quote with blanks around them; for Python the
   constant, its type, an equals sign and a quote with any white space between them.
   */
  ghost predicate Introduces(p: Pattern, x: string) {
    match p
    case JsonField(field) => exists y :: Opens(y, ':', true) && x == "\"" + field + "\"" + y
    case TomlKey(key) => WordOpens(x, key, false)
    case PythonConstant(name, hint) => exists y :: WordOpens(y, hint, true) && x == name + y
  }

  /** Words that do not begin with white space, as in the owner table. */
  predicate Solid(p: Pattern) {
    match p
    case JsonField(_) => true
    case TomlKey(key) => key != "" && !IsSpace(key[0])
    case PythonConstant(_, hint) => hint != "" && !IsSpace(hint[0])
  }

  ghost predicate IntroducedAt(p: Pattern, s: string, i: nat, n: nat) {
    && (p.JsonField? || LineStart(s, i))
    && exists x :: Introduces(p, x) && Occurs(s, i, x) && n == i + |x|
  }

  lemma JsonExactly(field: string, s: string, i: nat, n: nat)
    ensures JsonPrefix(field, s, i) == Some(n) <==> IntroducedAt(JsonField(field), s, i, n)
  {
    hide Occurs, OpenValue, Opens;
    var q := Quoted(field);
    assert q == "\"" + field + "\"";
    if JsonPrefix(field, s, i) == Some(n) {
      OccursFits(s, i, q);
      var y := OpenFound(s, i + |q|, ':', true);
      OccursConcat(s, i, q, y);
      assert Introduces(JsonField(field), q + y);
    }
    if IntroducedAt(JsonField(field), s, i, n) {
      var x :| Introduces(JsonField(field), x) && Occurs(s, i, x) && n == i + |x|;
      var y :| Opens(y, ':', true) && x == "\"" + field + "\"" + y;
      assert x == q + y;
      OccursConcat(s, i, q, y);
      OccursFits(s, i, q);
      OpenRead(s, i + |q|, ':', true, y);
    }
  }

  lemma TomlExactly(key: string, s: string, i: nat, n: nat)
    requires Solid(TomlKey(key)) && i <= |s|
    ensures TomlPrefix(key, s, i) == Some(n) <==> IntroducedAt(TomlKey(key), s, i, n)
  {
    hide Occurs, WordPrefix, WordOpens;
    if TomlPrefix(key, s, i) == Some(n) {
      var x := WordFound(key, s, i, false);
      assert Introduces(TomlKey(key), x);
    }
    if IntroducedAt(TomlKey(key), s, i, n) {
      var x :| Introduces(TomlKey(key), x) && Occurs(s, i, x) && n == i + |x|;
      WordRead(key, s, i, false, x);
    }
  }

  lemma PythonExactly(name: string, hint: string, s: string, i: nat, n: nat)
    requires Solid(PythonConstant(name, hint))
    ensures PythonPrefix(name, hint, s, i) == Some(n) <==> IntroducedAt(PythonConstant(name, hint), s, i, n)
  {
    hide Occurs, WordPrefix, WordOpens;
    if PythonPrefix(name, hint, s, i) == Some(n) {
      OccursFits(s, i, name);
      var y := WordFound(hint, s, i + |name|, true);
      OccursConcat(s, i, name, y);
      assert Introduces(PythonConstant(name, hint), name + y);
    }
    if IntroducedAt(PythonConstant(name, hint), s, i, n) {
      var x :| Introduces(PythonConstant(name, hint), x) && Occurs(s, i, x) && n == i + |x|;
      var y :| WordOpens(y, hint, true) && x == name + y;
      OccursConcat(s, i, name, y);
      OccursFits(s, i, name);
      WordRead(hint, s, i + |name|, true, y);
    }
  }

  lemma IntroducedExactly(p: Pattern, s: string, i: nat, n: nat)
    requires Solid(p) && i <= |s|
    ensures PrefixEnd(p, s, i) == Some(n) <==> IntroducedAt(p, s, i, n)
  {
    match p
    case JsonField(field) => JsonExactly(field, s, i, n);
    case TomlKey(key) => TomlExactly(key, s, i, n);
    case PythonConstant(name, hint) => PythonExactly(name, hint, s, i, n);
  }

  /** A match that begins at `i` states the value from `vs` to `ve`. */
  ghost predicate StatesAt(p: Pattern, s: string, i: nat, vs: nat, ve: nat) {
    IntroducedAt(p, s, i, vs) && IsValue(s, vs, ve)
  }

  lemma MatchExactly(p: Pattern, s: string, i: nat, vs: nat, ve: nat)
    requires Solid(p) && i <= |s|
    ensures MatchAt(p, s, i) && PrefixEnd(p, s, i) == Some(vs) && ve == ValueEnd(s, vs) <==> StatesAt(p, s, i, vs, ve)
  {
    IntroducedExactly(p, s, i, vs);
    ValueExactly(s, vs, ve);
    hide IntroducedAt, IsValue;
  }

  /** A match that begins at `i`, and no other begins in front of it or behind its value. */
  ghost predicate OnlyMatch(p: Pattern, s: string, i: nat, vs: nat, ve: nat) {
    && i <= |s| && StatesAt(p, s, i, vs, ve)
    && forall k: nat, x: nat, y: nat | k <= |s| && StatesAt(p, s, k, x, y) :: i <= k <= ve
  }

  /** The one value of a text: there is a match, and every match that begins elsewhere begins inside it. */
  lemma OnlyValueExactly(p: Pattern, s: string, vs: nat, ve: nat)
    requires Solid(p)
    ensures OnlyValue(p, s) == Some((vs, ve)) <==> exists i: nat :: OnlyMatch(p, s, i, vs, ve)
  {
    hide MatchAt, StatesAt, Solid, PrefixEnd;
    if OnlyValue(p, s) == Some((vs, ve)) {
      var i := OnlyValueParts(p, s, vs, ve);
      MatchExactly(p, s, i, vs, ve);
      forall k: nat, x: nat, y: nat | k <= |s| && StatesAt(p, s, k, x, y) ensures i <= k <= ve {
        MatchExactly(p, s, k, x, y);
        StatesEarly(p, s, k, x, y);
      }
      assert OnlyMatch(p, s, i, vs, ve);
    }
    if i: nat :| OnlyMatch(p, s, i, vs, ve) {
      MatchExactly(p, s, i, vs, ve);
      StatesEarly(p, s, i, vs, ve);
      forall k: nat | k < |s| && MatchAt(p, s, k) ensures i <= k <= ve {
        Stated(p, s, k);
        MatchExactly(p, s, k, PrefixEnd(p, s, k).value, ValueEnd(s, PrefixEnd(p, s, k).value));
      }
      OnlyValueIs(p, s, i, vs, ve);
    }
  }

  lemma StatesEarly(p: Pattern, s: string, i: nat, vs: nat, ve: nat)
    requires StatesAt(p, s, i, vs, ve)
    ensures i < |s|
  {
  }

  lemma Stated(p: Pattern, s: string, k: nat)
    requires MatchAt(p, s, k)
    ensures PrefixEnd(p, s, k).Some?
  {
  }

  // ---- Sections ------------------------------------------------------------------------

  /** The line that begins at `i` ends in front of `n`. */
  predicate LineAt(s: string, i: nat, n: nat) {
    && (i == 0 || (i <= |s| && IsBreak(s[i - 1])))
    && i <= n <= |s| && (forall k | i <= k < n :: !IsBreak(s[k])) && (n == |s| || IsBreak(s[n]))
  }

  /** The section's name in blanks, and perhaps a comment. */
  ghost predicate IsHeader(name: string, x: string) {
    exists u, v, c :: Blanks(u, false) && Blanks(v, false) && (c == "" || c[0] == '#') && x == u + (name + (v + c))
  }

  /** The header line at `h` is read up to `e`: a carriage return at its end belongs to it. */
  ghost predicate HeaderAt(name: string, s: string, h: nat, e: nat) {
    exists n: nat :: LineAt(s, h, n) && IsHeader(name, s[h..n]) && e == n + if ReturnEnds(s, n) then 1 else 0
  }

  predicate ReturnEnds(s: string, n: nat) {
    n < |s| && s[n] == '\r' && (n + 1 == |s| || IsBreak(s[n + 1]))
  }

  predicate SoundName(name: string) {
    name != "" && name[0] == '[' && forall k | 0 <= k < |name| :: !IsBreak(name[k])
  }

  lemma {:induction false} LineEndIs(s: string, i: nat, n: nat)
    requires i <= n <= |s| && (forall k | i <= k < n :: !IsBreak(s[k])) && (n == |s| || IsBreak(s[n]))
    ensures LineEnd(s, i) == n
    decreases n - i
  {
    if i < n { LineEndIs(s, i + 1, n); }
  }

  lemma {:induction false} LineEndRun(s: string, i: nat)
    requires i <= |s|
    ensures forall k | i <= k < LineEnd(s, i) :: !IsBreak(s[k])
    decreases |s| - i
  {
    if i < |s| && !IsBreak(s[i]) { LineEndRun(s, i + 1); }
  }

  lemma HeaderOccurs(s: string, h: nat, u: string, name: string, v: string, c: string)
    ensures Occurs(s, h, u + (name + (v + c))) <==>
              && Occurs(s, h, u) && Occurs(s, h + |u|, name) && Occurs(s, h + |u| + |name|, v)
              && Occurs(s, h + |u| + |name| + |v|, c)
  {
    hide Occurs;
    OccursConcat(s, h, u, name + (v + c));
    OccursConcat(s, h + |u|, name, v + c);
    OccursConcat(s, h + |u| + |name|, v, c);
  }

  predicate NoBreak(x: string) {
    forall k | 0 <= k < |x| :: !IsBreak(x[k])
  }

  lemma CommentText(s: string, b: nat) returns (c: string)
    requires b <= |s|
    ensures Occurs(s, b, c) && BehindComment(s, b) == b + |c| && (c == "" || c[0] == '#') && NoBreak(c)
  {
    LineEndRun(s, b);
    c := s[b..BehindComment(s, b)];
  }

  lemma HeaderHasNoBreak(u: string, name: string, v: string, c: string)
    requires Blanks(u, false) && SoundName(name) && Blanks(v, false) && NoBreak(c)
    ensures NoBreak(u + (name + (v + c)))
  {
    assert NoBreak(u) && NoBreak(v) && NoBreak(name);
    NoBreakConcat(v, c);
    NoBreakConcat(name, v + c);
    NoBreakConcat(u, name + (v + c));
  }

  lemma NoBreakConcat(x: string, y: string)
    requires NoBreak(x) && NoBreak(y)
    ensures NoBreak(x + y)
  {
  }

  lemma LineOf(s: string, h: nat, x: string)
    requires LineStart(s, h) && Occurs(s, h, x) && NoBreak(x) && EndOfLine(s, h + |x|).Some?
    ensures LineAt(s, h, h + |x|) && s[h..h + |x|] == x
    ensures EndOfLine(s, h + |x|).value == h + |x| + if ReturnEnds(s, h + |x|) then 1 else 0
  {
    forall k | h <= k < h + |x| ensures !IsBreak(s[k]) { OccursAt(s, h, x, k - h); }
  }

  /** A header that is found stands on its line. */
  lemma HeaderFound(name: string, s: string, h: nat, e: nat)
    requires SoundName(name) && TestAt(Header(name), s, h) == Some(e)
    ensures HeaderAt(name, s, h, e)
  {
    hide Occurs, Skip, Blanks, BehindComment, EndOfLine, SoundName, NoBreak, LineAt;
    var u := SkippedText(s, h, false);
    var a := h + |u|;
    OccursFits(s, a, name);
    var v := SkippedText(s, a + |name|, false);
    OccursFits(s, a + |name|, v);
    var c := CommentText(s, a + |name| + |v|);
    var x := u + (name + (v + c));
    HeaderOccurs(s, h, u, name, v, c);
    HeaderHasNoBreak(u, name, v, c);
    LineOf(s, h, x);
    assert IsHeader(name, x);
  }

  lemma SliceOccurs(s: string, i: nat, n: nat, x: string)
    requires i <= n <= |s| && s[i..n] == x
    ensures Occurs(s, i, x) && n == i + |x|
  {
  }

  /** A header line is found. */
  lemma HeaderRead(name: string, s: string, h: nat, e: nat)
    requires SoundName(name) && HeaderAt(name, s, h, e)
    ensures TestAt(Header(name), s, h) == Some(e)
  {
    hide Occurs, Skip, Blanks, BehindComment, EndOfLine;
    var n: nat :| LineAt(s, h, n) && IsHeader(name, s[h..n]) && e == n + if ReturnEnds(s, n) then 1 else 0;
    var u, v, c :| Blanks(u, false) && Blanks(v, false) && (c == "" || c[0] == '#') && s[h..n] == u + (name + (v + c));
    SliceOccurs(s, h, n, u + (name + (v + c)));
    HeaderOccurs(s, h, u, name, v, c);
    var a := h + |u|;
    OccursAt(s, a, name, 0);
    SkipsText(s, h, false, u);
    BehindHeader(s, a + |name|, v, c, n);
  }

  lemma BehindHeader(s: string, i: nat, v: string, c: string, n: nat)
    requires Blanks(v, false) && (c == "" || c[0] == '#') && Occurs(s, i, v) && Occurs(s, i + |v|, c)
    requires i <= n == i + |v| + |c| <= |s| && (forall k | i <= k < n :: !IsBreak(s[k])) && (n == |s| || IsBreak(s[n]))
    ensures EndOfLine(s, BehindComment(s, Skip(s, i, false))) == Some(n + if ReturnEnds(s, n) then 1 else 0)
  {
    var b := i + |v|;
    if c == "" {
      forall k | i <= k < b ensures BlankChar(s[k], false) { OccursAt(s, i, v, k - i); }
      SkipIs(s, i, false, b);
    } else {
      OccursAt(s, b, c, 0);
      SkipsText(s, i, false, v);
      LineEndIs(s, b, n);
    }
  }

  lemma HeaderExactly(name: string, s: string, h: nat, e: nat)
    requires SoundName(name)
    ensures TestAt(Header(name), s, h) == Some(e) <==> HeaderAt(name, s, h, e)
  {
    if TestAt(Header(name), s, h) == Some(e) { HeaderFound(name, s, h, e); }
    if HeaderAt(name, s, h, e) { HeaderRead(name, s, h, e); }
  }

  /** A line whose first character besides blanks is an opening bracket. */
  ghost predicate SectionAt(s: string, i: nat) {
    LineStart(s, i) && exists u :: Blanks(u, false) && Occurs(s, i, u + "[")
  }

  lemma SectionExactly(s: string, i: nat)
    requires i <= |s|
    ensures Hit(Section, s, i) <==> SectionAt(s, i)
  {
    if Hit(Section, s, i) {
      var u := SkippedText(s, i, false);
      OccursConcat(s, i, u, "[");
      OneOccurs(s, i + |u|, '[');
    }
    if SectionAt(s, i) {
      var u :| Blanks(u, false) && Occurs(s, i, u + "[");
      OccursConcat(s, i, u, "[");
      OneOccurs(s, i + |u|, '[');
      SkipsText(s, i, false, u);
    }
  }

  /** The section's only header line ends at `lo`; `hi` is where the next section opens, or the end. */
  ghost predicate SectionBody(name: string, s: string, h: nat, lo: nat, hi: nat) {
    && HeaderAt(name, s, h, lo) && (forall k: nat, e: nat | HeaderAt(name, s, k, e) :: k == h)
    && lo <= hi <= |s| && (hi == |s| || SectionAt(s[lo..], hi - lo))
    && forall k: nat | k < hi - lo :: !SectionAt(s[lo..], k)
  }

  lemma InsideHeader(name: string, s: string, h: nat, lo: nat, k: nat)
    requires HeaderAt(name, s, h, lo) && h < k < lo
    ensures !LineStart(s, k)
  {
  }

  lemma {:induction false} NoLineBefore(test: LineTest, s: string, i: nat, k: nat)
    requires match FirstLine(test, s, i) case Some(x) => i <= k < x case None => i <= k <= |s|
    ensures !Hit(test, s, k)
    decreases k - i
  {
    if i < k { NoLineBefore(test, s, i + 1, k); }
  }

  lemma {:induction false} FirstLineIs(test: LineTest, s: string, i: nat, x: nat)
    requires i <= x <= |s| && Hit(test, s, x) && forall k | i <= k < x :: !Hit(test, s, k)
    ensures FirstLine(test, s, i) == Some(x)
    decreases x - i
  {
    if i < x { FirstLineIs(test, s, i + 1, x); }
  }

  lemma {:induction false} NoFirstLine(test: LineTest, s: string, i: nat)
    requires forall k | i <= k <= |s| :: !Hit(test, s, k)
    ensures FirstLine(test, s, i) == None
    decreases |s| + 1 - i
  {
    if i <= |s| { NoFirstLine(test, s, i + 1); }
  }

  lemma HeaderHits(name: string, s: string)
    requires SoundName(name)
    ensures forall k: nat | k <= |s| :: Hit(Header(name), s, k) <==> exists e: nat :: HeaderAt(name, s, k, e)
  {
    hide HeaderAt;
    forall k: nat | k <= |s| ensures Hit(Header(name), s, k) <==> exists e: nat :: HeaderAt(name, s, k, e) {
      if Hit(Header(name), s, k) { HeaderExactly(name, s, k, TestAt(Header(name), s, k).value); }
      if e: nat :| HeaderAt(name, s, k, e) { HeaderExactly(name, s, k, e); }
    }
  }

  lemma HeaderInText(name: string, s: string, k: nat, e: nat)
    requires HeaderAt(name, s, k, e)
    ensures k <= e <= |s|
  {
  }

  lemma NextSection(rest: string, hi: nat)
    ensures (match FirstLine(Section, rest, 0) case None => hi == |rest| case Some(x) => hi == x) <==>
              && hi <= |rest| && (hi == |rest| || SectionAt(rest, hi))
              && forall k: nat | k < hi :: !SectionAt(rest, k)
  {
    hide Hit, SectionAt;
    forall k: nat | k <= |rest| ensures Hit(Section, rest, k) <==> SectionAt(rest, k) { SectionExactly(rest, k); }
    assert !Hit(Section, rest, |rest|) by { NoSectionAtEnd(rest); }
    forall k: nat | match FirstLine(Section, rest, 0) case Some(x) => k < x case None => k <= |rest|
      ensures !Hit(Section, rest, k)
    {
      NoLineBefore(Section, rest, 0, k);
    }
    if hi <= |rest| && (forall k: nat | k < hi :: !SectionAt(rest, k)) {
      if hi < |rest| && SectionAt(rest, hi) { FirstLineIs(Section, rest, 0, hi); }
      if hi == |rest| { NoFirstLine(Section, rest, 0); }
    }
  }

  lemma NoSectionAtEnd(s: string)
    ensures !Hit(Section, s, |s|)
  {
  }

  /**
   The body of a section is found exactly when one line is its header; it reaches from that line's
   end to the next line that opens a section, or to the end of the text.
   */
  lemma BodyExactly(name: string, s: string, lo: nat, hi: nat)
    requires SoundName(name)
    ensures Body(Some(name), s) == Some((lo, hi)) <==> exists h: nat :: SectionBody(name, s, h, lo, hi)
  {
    hide HeaderAt, SectionAt, Hit, TestAt, SoundName, FirstLine;
    HeaderHits(name, s);
    if Body(Some(name), s) == Some((lo, hi)) {
      var h := BodyParts(name, s, lo, hi);
      OneHeader(name, s, h, lo);
      NextSection(s[lo..], hi - lo);
      assert SectionBody(name, s, h, lo, hi);
    }
    if h: nat :| SectionBody(name, s, h, lo, hi) {
      HeaderInText(name, s, h, lo);
      HeaderExactly(name, s, h, lo);
      FirstHeader(name, s, h, lo);
      BodyIs(name, s, h, lo);
      NextSection(s[lo..], hi - lo);
    }
  }

  lemma OneHeader(name: string, s: string, h: nat, lo: nat)
    requires SoundName(name) && FirstLine(Header(name), s, 0) == Some(h) && TestAt(Header(name), s, h) == Some(lo)
    requires lo <= |s| && FirstLine(Header(name), s, lo) == None
    ensures HeaderAt(name, s, h, lo) && forall k: nat, e: nat | HeaderAt(name, s, k, e) :: k == h
  {
    hide HeaderAt, SoundName;
    HeaderExactly(name, s, h, lo);
    forall k: nat, e: nat | HeaderAt(name, s, k, e) ensures k == h {
      HeaderInText(name, s, k, e);
      HeaderExactly(name, s, k, e);
      if k < h { NoLineBefore(Header(name), s, 0, k); }
      if h < k < lo { InsideHeader(name, s, h, lo, k); }
      if lo <= k { NoLineBefore(Header(name), s, lo, k); }
    }
  }

  lemma FirstHeader(name: string, s: string, h: nat, lo: nat)
    requires SoundName(name) && h <= lo <= |s| && HeaderAt(name, s, h, lo)
    requires forall k: nat, e: nat | HeaderAt(name, s, k, e) :: k == h
    ensures FirstLine(Header(name), s, 0) == Some(h) && FirstLine(Header(name), s, lo) == None
  {
    hide HeaderAt, SoundName;
    HeaderExactly(name, s, h, lo);
    forall k: nat | k <= |s| && k != h ensures !Hit(Header(name), s, k) {
      if Hit(Header(name), s, k) { HeaderExactly(name, s, k, TestAt(Header(name), s, k).value); }
    }
    HeaderEnds(name, s, h);
    NameNotEmpty(name);
    FirstLineIs(Header(name), s, 0, h);
    NoFirstLine(Header(name), s, lo);
  }

  lemma NameNotEmpty(name: string)
    requires SoundName(name)
    ensures name != ""
  {
  }

  // ---- The version in a file -----------------------------------------------------------

  /** The part of the file the version is looked for in. */
  ghost predicate InBody(section: Option<string>, s: string, lo: nat, hi: nat) {
    match section
    case None => lo == 0 && hi == |s|
    case Some(name) => exists h: nat :: SectionBody(name, s, h, lo, hi)
  }

  ghost predicate HoldsOnly(p: Pattern, s: string, vs: int, ve: int) {
    0 <= vs && 0 <= ve && exists i: nat :: OnlyMatch(p, s, i, vs, ve)
  }

  /** The file states its version from `a` to `b`: its body has one match, and its value is a version. */
  ghost predicate StatesVersion(section: Option<string>, p: Pattern, s: string, lo: nat, hi: nat, a: nat, b: nat) {
    && lo <= hi <= |s| && a <= b <= |s| && InBody(section, s, lo, hi)
    && HoldsOnly(p, s[lo..hi], a - lo, b - lo) && IsVersionText(s[a..b])
  }

  predicate Sound(section: Option<string>, p: Pattern) {
    Solid(p) && (section.Some? ==> SoundName(section.value))
  }

  lemma BodyIsIn(section: Option<string>, s: string, lo: nat, hi: nat)
    requires section.Some? ==> SoundName(section.value)
    ensures Body(section, s) == Some((lo, hi)) <==> InBody(section, s, lo, hi)
  {
    if section.Some? { BodyExactly(section.value, s, lo, hi); }
  }

  lemma FoundExactly(section: Option<string>, p: Pattern, s: string, a: nat, b: nat)
    requires Sound(section, p)
    ensures Find(section, p, s) == Some((a, b)) <==>
              exists lo: nat, hi: nat :: StatesVersion(section, p, s, lo, hi, a, b)
  {
    hide Body, InBody, OnlyValue, OnlyMatch, IsVersionText, IsReleaseVersion, Solid, SoundName;
    if Find(section, p, s) == Some((a, b)) {
      var lo, hi, vs, ve := FindParts(section, p, s, a, b);
      BodyIsIn(section, s, lo, hi);
      OnlyValueExactly(p, s[lo..hi], vs, ve);
      VersionExactly(s[a..b]);
      assert StatesVersion(section, p, s, lo, hi, a, b);
    }
    if lo: nat, hi: nat :| StatesVersion(section, p, s, lo, hi, a, b) {
      BodyIsIn(section, s, lo, hi);
      OnlyValueExactly(p, s[lo..hi], a - lo, b - lo);
      OnlyValueBounds(p, s[lo..hi], a - lo, b - lo);
      VersionExactly(s[a..b]);
      FindIs(section, p, s, lo, hi, a - lo, b - lo, s[a..b]);
    }
  }

  lemma OwnersAreSound()
    ensures forall file | file in OWNER_FILES :: Sound(file.section, file.pattern)
  {
    forall file | file in OWNER_FILES ensures Sound(file.section, file.pattern) {
      WordsAreSound();
    }
  }

  lemma WordsAreSound()
    ensures SoundName("[project]") && SoundName("[package]")
    ensures Solid(TomlKey("version")) && Solid(PythonConstant("RUNTIME_VERSION:", "Final"))
  {
  }
}
