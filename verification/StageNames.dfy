/**
 Worker stage names as the words and pieces they are made of, and which stages are reported,
 replaced or dropped (tools/generated-worker-stage-policy.ts).
 */
module StageNames {
  import opened Wrappers
  import opened Separators
  import opened WorkerStages

  // ---- Names as words ------------------------------------------------------------------

  predicate IsWord(w: string) {
    w != "" && forall i | 0 <= i < |w| :: 'a' <= w[i] <= 'z' || '0' <= w[i] <= '9'
  }

  ghost predicate AreWords(words: seq<string>) {
    words != [] && forall i | 0 <= i < |words| :: IsWord(words[i])
  }

  lemma WordIsName(w: string)
    requires IsWord(w)
    ensures IsName(w)
  {
  }

  lemma NameGrows(w: string, rest: string)
    requires IsWord(w) && IsName(rest)
    ensures IsName(w + "-" + rest)
  {
    var s := w + "-" + rest;
    forall i | 0 <= i < |s| ensures IsWordChar(s[i]) || s[i] == '-' {
      if i > |w| { assert s[i] == rest[i - |w| - 1]; }
    }
    forall i | 0 <= i < |s| - 1 ensures s[i] != '-' || s[i + 1] != '-' {
      if i > |w| { assert s[i] == rest[i - |w| - 1] && s[i + 1] == rest[i - |w|]; }
    }
    assert s[|s| - 1] == rest[|rest| - 1];
  }

  lemma {:induction false} WordsAreName(words: seq<string>)
    requires AreWords(words)
    ensures IsName(Joined(words, '-'))
    decreases |words|
  {
    if |words| == 1 {
      JoinedOne(words[0], '-');
      assert words == [words[0]];
      WordIsName(words[0]);
    } else {
      assert words == [words[0]] + words[1..];
      JoinedMore(words[0], words[1..], '-');
      WordsAreName(words[1..]);
      NameGrows(words[0], Joined(words[1..], '-'));
    }
  }

  lemma NameSuffix(s: string, k: nat)
    requires IsName(s) && k < |s| && s[k] != '-'
    ensures IsName(s[k..])
  {
    var t := s[k..];
    forall i | 0 <= i < |t| ensures IsWordChar(t[i]) || t[i] == '-' { assert t[i] == s[k + i]; }
    forall i | 0 <= i < |t| - 1 ensures t[i] != '-' || t[i + 1] != '-' {
      assert t[i] == s[k + i] && t[i + 1] == s[k + i + 1];
    }
    assert t[|t| - 1] == s[|s| - 1];
  }

  lemma WordGrows(c: string, w: string)
    requires IsWord(c) && IsWord(w)
    ensures IsWord(c + w)
  {
  }

  lemma WordsPrefixed(c: string, words: seq<string>)
    requires IsWord(c) && AreWords(words)
    ensures AreWords([c + words[0]] + words[1..])
    ensures Joined([c + words[0]] + words[1..], '-') == c + Joined(words, '-')
  {
    var w, rest := words[0], words[1..];
    WordGrows(c, w);
    hide Joined, IsWord;
    assert words == [w] + rest;
    if |words| == 1 {
      JoinedOne(w, '-');
      JoinedOne(c + w, '-');
      assert words == [w] && [c + w] + rest == [c + w];
    } else {
      JoinedMore(w, rest, '-');
      JoinedMore(c + w, rest, '-');
      assert c + (w + ['-'] + Joined(rest, '-')) == (c + w) + ['-'] + Joined(rest, '-');
    }
  }

  lemma {:induction false} WordsOf(s: string) returns (words: seq<string>)
    requires IsName(s)
    ensures AreWords(words) && Joined(words, '-') == s
    decreases |s|
  {
    var c := [s[0]];
    assert s == c + s[1..];
    if |s| == 1 {
      words := [s];
      JoinedOne(s, '-');
    } else if s[1] == '-' {
      NameSuffix(s, 2);
      var rest := WordsOf(s[2..]);
      words := [c] + rest;
      JoinedMore(c, rest, '-');
      assert s == c + "-" + s[2..];
    } else {
      NameSuffix(s, 1);
      var rest := WordsOf(s[1..]);
      WordsPrefixed(c, rest);
      words := [c + rest[0]] + rest[1..];
    }
  }

  /** Stage names are exactly words of small letters and digits, joined by single hyphens. */
  lemma NameExactly(s: string)
    ensures IsName(s) <==> exists words :: AreWords(words) && Joined(words, '-') == s
  {
    if IsName(s) { var words := WordsOf(s); }
    if words :| AreWords(words) && Joined(words, '-') == s { WordsAreName(words); }
  }

  // ---- Families as pieces --------------------------------------------------------------

  predicate Fits(p: Piece, x: string) {
    match p
    case Fixed(text) => x == text
    case OneOf(words) => x in words
    case Digits(max) => 1 <= |x| <= max && forall i | 0 <= i < |x| :: x[i] in "0123456789"
  }

  function Concat(parts: seq<string>): string {
    if parts == [] then "" else parts[0] + Concat(parts[1..])
  }

  ghost predicate Spells(pattern: seq<Piece>, parts: seq<string>) {
    |parts| == |pattern| && forall i | 0 <= i < |parts| :: Fits(pattern[i], parts[i])
  }

  lemma FitsStart(p: Piece, x: string, s: string)
    requires Fits(p, x) && x <= s
    ensures match p
      case Fixed(text) => x == text
      case OneOf(words) => x in words
      case Digits(max) => |x| <= max && DigitsAt(s, |x|)
  {
    if p.Digits? {
      forall i | 0 <= i < |x| ensures '0' <= s[i] <= '9' { assert x[i] == s[i]; }
    }
  }

  lemma {:induction false} PartsMatch(pattern: seq<Piece>, parts: seq<string>)
    requires Spells(pattern, parts)
    ensures Matches(pattern, Concat(parts))
  {
    if pattern != [] {
      var x, rest := parts[0], parts[1..];
      var s := Concat(parts);
      PartsMatch(pattern[1..], rest);
      assert s[|x|..] == Concat(rest);
      FitsStart(pattern[0], x, s);
      assert Fits(pattern[0], parts[0]);
    }
  }

  lemma FirstPiece(pattern: seq<Piece>, s: string) returns (n: nat)
    requires pattern != [] && Matches(pattern, s)
    ensures n <= |s| && Fits(pattern[0], s[..n]) && Matches(pattern[1..], s[n..])
  {
    match pattern[0]
    case Fixed(text) =>
      n := |text|;
    case OneOf(words) =>
      var w :| w in words && w <= s && Matches(pattern[1..], s[|w|..]);
      n := |w|;
      assert s[..n] == w;
    case Digits(max) =>
      n :| 0 <= n <= max && DigitsAt(s, n) && Matches(pattern[1..], s[n..]);
  }

  lemma SpellsMore(pattern: seq<Piece>, x: string, parts: seq<string>)
    requires pattern != [] && Fits(pattern[0], x) && Spells(pattern[1..], parts)
    ensures Spells(pattern, [x] + parts) && Concat([x] + parts) == x + Concat(parts)
  {
    hide Fits;
    assert ([x] + parts)[1..] == parts;
  }

  lemma {:induction false} PartsOf(pattern: seq<Piece>, s: string) returns (parts: seq<string>)
    requires Matches(pattern, s)
    ensures Spells(pattern, parts) && Concat(parts) == s
    decreases |pattern|
  {
    parts := [];
    if pattern != [] {
      var n := FirstPiece(pattern, s);
      hide Fits, Matches, Spells, Concat;
      var rest := PartsOf(pattern[1..], s[n..]);
      SpellsMore(pattern, s[..n], rest);
      parts := [s[..n]] + rest;
      assert s == s[..n] + s[n..];
    }
  }

  /** A stage belongs to a family exactly when it is spelled piece by piece, in order. */
  lemma MatchesExactly(pattern: seq<Piece>, s: string)
    ensures Matches(pattern, s) <==> exists parts :: Spells(pattern, parts) && Concat(parts) == s
  {
    if Matches(pattern, s) { var parts := PartsOf(pattern, s); }
    if parts :| Spells(pattern, parts) && Concat(parts) == s { PartsMatch(pattern, parts); }
  }

  // ---- Sanitizing ------------------------------------------------------------------------

  /** A name of words, short enough, known by its text or by a family. */
  ghost predicate Reportable(s: string) {
    |s| <= 128 && exists words :: AreWords(words) && Joined(words, '-') == s
  }

  ghost predicate InFamily(policy: Policy, k: nat, s: string) {
    k < |policy.families| && exists parts :: Spells(policy.families[k], parts) && Concat(parts) == s
  }

  ghost predicate Recognized(policy: Policy, s: string) {
    s in policy.exact || exists k: nat :: InFamily(policy, k, s)
  }

  predicate FirstPrefix(fallbacks: seq<Fallback>, s: string, k: nat) {
    k < |fallbacks| && fallbacks[k].prefix <= s && forall j | 0 <= j < k :: !(fallbacks[j].prefix <= s)
  }

  lemma {:induction false} FallbackExactly(fallbacks: seq<Fallback>, s: string, sentinel: string)
    ensures FallbackOf(fallbacks, s) == Some(sentinel) <==>
              exists k: nat :: FirstPrefix(fallbacks, s, k) && fallbacks[k].sentinel == sentinel
  {
    if fallbacks != [] {
      var rest := fallbacks[1..];
      FallbackExactly(rest, s, sentinel);
      if fallbacks[0].prefix <= s {
        assert FirstPrefix(fallbacks, s, 0);
      } else {
        if k: nat :| FirstPrefix(fallbacks, s, k) && fallbacks[k].sentinel == sentinel {
          assert FirstPrefix(rest, s, k - 1) && rest[k - 1].sentinel == sentinel;
        }
        if k: nat :| FirstPrefix(rest, s, k) && rest[k].sentinel == sentinel {
          assert FirstPrefix(fallbacks, s, k + 1) && fallbacks[k + 1].sentinel == sentinel;
        }
      }
    }
  }

  lemma RecognizedExactly(policy: Policy, s: string)
    ensures Known(policy, s) <==> Recognized(policy, s)
  {
    forall k | 0 <= k < |policy.families| ensures Matches(policy.families[k], s) <==> InFamily(policy, k, s) {
      MatchesExactly(policy.families[k], s);
    }
  }

  /**
   A recognized name is reported as it is; any other name is reported as the sentinel of the first
   prefix listed for it, if there is one; nothing else is reported.
   */
  lemma SanitizeExactly(policy: Policy, s: string, reported: string)
    ensures Sanitize(policy, s) == Some(reported) <==>
              && Reportable(s)
              && if Recognized(policy, s) then reported == s
                 else exists k: nat :: FirstPrefix(policy.fallbacks, s, k) && policy.fallbacks[k].sentinel == reported
  {
    NameExactly(s);
    RecognizedExactly(policy, s);
    FallbackExactly(policy.fallbacks, s, reported);
    hide Known, Recognized, AreWords, IsName, FirstPrefix, FallbackOf;
  }

  /** The stages of `raw` from `i` on that are reported are at `at`, in order, and come out as `out`. */
  ghost predicate ReportedAt(policy: Policy, raw: seq<string>, i: nat, at: seq<nat>, out: seq<string>) {
    && |at| == |out| && (forall j, k | 0 <= j < k < |at| :: at[j] < at[k])
    && (forall k | 0 <= k < |at| :: i <= at[k] < |raw| && Sanitize(policy, raw[at[k]]) == Some(out[k]))
    && forall j | i <= j < |raw| && Sanitize(policy, raw[j]).Some? :: j in at
  }

  lemma ReportedMore(policy: Policy, raw: seq<string>, i: nat, at: seq<nat>, out: seq<string>)
    requires i < |raw| && ReportedAt(policy, raw, i + 1, at, out)
    ensures match Sanitize(policy, raw[i])
      case Some(s) => ReportedAt(policy, raw, i, [i] + at, [s] + out)
      case None => ReportedAt(policy, raw, i, at, out)
  {
    hide Sanitize;
  }

  lemma {:induction false} SanitizedFrom(policy: Policy, raw: seq<string>, i: nat) returns (at: seq<nat>)
    requires i <= |raw|
    ensures ReportedAt(policy, raw, i, at, SanitizeAll(policy, raw[i..]))
    decreases |raw| - i
  {
    hide Sanitize;
    at := [];
    if i < |raw| {
      hide ReportedAt;
      var rest := SanitizedFrom(policy, raw, i + 1);
      var tail := SanitizeAll(policy, raw[i + 1..]);
      ReportedMore(policy, raw, i, rest, tail);
      assert raw[i..][0] == raw[i] && raw[i..][1..] == raw[i + 1..];
      if Sanitize(policy, raw[i]).Some? {
        at := [i] + rest;
        assert SanitizeAll(policy, raw[i..]) == [Sanitize(policy, raw[i]).value] + tail;
      } else {
        at := rest;
        assert SanitizeAll(policy, raw[i..]) == tail;
      }
    }
  }

  /** A sequence is sanitized stage by stage, in order; what is not reported leaves no gap. */
  lemma SanitizeAllExactly(policy: Policy, raw: seq<string>) returns (at: seq<nat>)
    ensures ReportedAt(policy, raw, 0, at, SanitizeAll(policy, raw))
  {
    at := SanitizedFrom(policy, raw, 0);
    assert raw[0..] == raw;
  }
}
