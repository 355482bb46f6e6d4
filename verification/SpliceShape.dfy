/**
 What a splice returns, character by character: where the section goes, what separates it from
 the description, and how its lines end (tools/architecture-diff.ts).
 */
module SpliceShape {
  import opened Wrappers
  import opened Occurrences
  import opened ReleaseTags
  import opened ArchitectureSplice

  // ---- The section as it is put in -------------------------------------------------------

  /** In front of the marker: nothing, or text up to a line feed. */
  predicate OpensLine(before: string) {
    before == "" || before[|before| - 1] == '\n'
  }

  /** Behind it: nothing, or a line ending. */
  predicate ClosesLine(after: string) {
    after == "" || "\n" <= after || "\r\n" <= after
  }

  lemma MarkerCuts(s: string, i: nat, m: string)
    requires MarkerAt(s, i, m)
    ensures i + |m| <= |s| && s == s[..i] + m + s[i + |m|..] && OpensLine(s[..i]) && ClosesLine(s[i + |m|..])
  {
    assert s[i..i + |m|] == m;
    assert s == s[..i] + s[i..i + |m|] + s[i + |m|..];
  }

  lemma CutMarks(before: string, m: string, after: string)
    requires OpensLine(before) && ClosesLine(after)
    ensures MarkerAt(before + m + after, |before|, m)
  {
    var s := before + m + after;
    forall k | 0 <= k < |m| ensures s[|before| + k] == m[k] {
    }
    forall k | 0 <= k < |after| ensures s[|before| + |m| + k] == after[k] {
    }
  }

  /** A marker counts exactly where it is a whole line. */
  lemma WholeLineExactly(s: string, i: nat, m: string)
    ensures MarkerAt(s, i, m) <==>
              exists before, after :: s == before + m + after && |before| == i && OpensLine(before) && ClosesLine(after)
  {
    hide MarkerAt, OpensLine, ClosesLine;
    if MarkerAt(s, i, m) {
      MarkerCuts(s, i, m);
      var before, after := s[..i], s[i + |m|..];
      assert s == before + m + after && |before| == i;
    }
    if before, after :| s == before + m + after && |before| == i && OpensLine(before) && ClosesLine(after) {
      CutMarks(before, m, after);
    }
  }

  /** A line without the carriage return at its end. */
  function Chomp(line: string): string {
    if line != "" && line[|line| - 1] == '\r' then line[..|line| - 1] else line
  }

  /** Lines joined by another line ending; the last one has none. */
  function Relined(lines: seq<string>, eol: string): string
    requires lines != []
  {
    if |lines| == 1 then lines[0] else Chomp(lines[0]) + eol + Relined(lines[1..], eol)
  }

  lemma {:induction false} RelinedHead(c: char, lines: seq<string>, eol: string)
    requires lines != [] && (c != '\r' || lines[0] != "" || |lines| == 1)
    ensures Relined([[c] + lines[0]] + lines[1..], eol) == [c] + Relined(lines, eol)
  {
    var more := [[c] + lines[0]] + lines[1..];
    assert more[1..] == lines[1..];
    if |lines| > 1 {
      assert Chomp([c] + lines[0]) == [c] + Chomp(lines[0]);
    }
  }

  /** Every line of the section is kept, and every line ending becomes the description's. */
  lemma {:induction false} RelinedExactly(s: string, eol: string)
    ensures ReplaceEol(s, eol) == Relined(Split(s, '\n'), eol)
    decreases |s|
  {
    if s == "" {
    } else if s[0] == '\n' {
      RelinedExactly(s[1..], eol);
      var lines := Split(s, '\n');
      assert lines[0] == "" && lines[1..] == Split(s[1..], '\n');
    } else if CrLfAt(s, 0) {
      RelinedExactly(s[2..], eol);
      CrLfSplit(s);
    } else {
      RelinedExactly(s[1..], eol);
      var rest := Split(s[1..], '\n');
      FirstLineEmpty(s[1..]);
      RelinedHead(s[0], rest, eol);
    }
  }

  lemma CrLfSplit(s: string)
    requires CrLfAt(s, 0)
    ensures Split(s, '\n') == ["\r"] + Split(s[2..], '\n')
  {
    assert s[1..][0] == '\n' && s[1..][1..] == s[2..];
    assert Split(s[1..], '\n') == [""] + Split(s[2..], '\n');
    assert [s[0]] + "" == "\r";
  }

  lemma FirstLineEmpty(s: string)
    ensures Split(s, '\n')[0] == "" && |Split(s, '\n')| > 1 ==> s != "" && s[0] == '\n'
  {
  }

  /** One line ending at the end of the section is dropped, and nothing else. */
  lemma StripExactly(s: string)
    ensures s == StripEol(s) || s == StripEol(s) + "\n" || s == StripEol(s) + "\r\n"
    ensures s == StripEol(s) <==> s == "" || s[|s| - 1] != '\n'
    ensures s == StripEol(s) + "\n" ==> StripEol(s) == "" || StripEol(s)[|StripEol(s)| - 1] != '\r'
  {
  }

  /** A section is proper exactly when it begins and ends with the markers, which stand nowhere else in it. */
  lemma ProperExactly(t: string)
    ensures Proper(SECTION_START, SECTION_END, t) <==>
              && Occurs(t, 0, SECTION_START) && |t| >= |SECTION_END| && Occurs(t, |t| - |SECTION_END|, SECTION_END)
              && (forall i | 0 <= i && Occurs(t, i, SECTION_START) :: i == 0)
              && forall i | 0 <= i && Occurs(t, i, SECTION_END) :: i == |t| - |SECTION_END|
  {
    SectionMarkers();
    if Occurs(t, 0, SECTION_START) { OneCut(t, SECTION_START, 0); }
    if |t| >= |SECTION_END| && Occurs(t, |t| - |SECTION_END|, SECTION_END) {
      OneCut(t, SECTION_END, |t| - |SECTION_END|);
    }
  }

  lemma OneCut(t: string, m: string, at: nat)
    requires Marker(m) && Occurs(t, at, m)
    ensures Cuts(t, m, 0) == 1 <==> forall i | 0 <= i && Occurs(t, i, m) :: i == at
  {
    if Cuts(t, m, 0) == 1 { SingleCut(t, m, at); }
    if forall i | 0 <= i && Occurs(t, i, m) :: i == at {
      var first := IndexOf(t, m, 0).value;
      assert first == at;
      assert IndexOf(t, m, first + |m|) == None;
    }
  }

  // ---- What a splice returns -------------------------------------------------------------

  /** The line ending of a description. */
  function Ending(body: string): string {
    if HasCrLf(body) then "\r\n" else "\n"
  }

  /** The section in the line endings of a description. */
  function Block(body: string, section: string): string {
    Relined(Split(StripEol(section), '\n'), Ending(body))
  }

  /** A section that is not proper is refused, whatever the description holds. */
  lemma SpliceRefuses(body: string, section: string)
    ensures Splice(body, section) == Failure(BadSection) <==> !Proper(SECTION_START, SECTION_END, StripEol(section))
  {
  }

  /**
   Into a description without a section the section goes behind it, after an empty line: one
   line ending where the description ends in one, and two where it does not.
   */
  lemma SpliceAppends(body: string, section: string)
    requires Proper(SECTION_START, SECTION_END, StripEol(section))
    requires forall i :: 0 <= i ==> !MarkerAt(body, i, SECTION_START)
    ensures body == "" ==> Splice(body, section) == Success(Block(body, section))
    ensures body != "" ==>
              var eol := Ending(body);
              var between := if body[|body| - 1] == '\n' then eol else eol + eol;
              var above := body + between;
              && Splice(body, section) == Success(above + Block(body, section))
              && above[|above| - 1] == '\n' && above[|above| - 1 - |eol|] == '\n'
  {
    RelinedExactly(StripEol(section), Ending(body));
    assert FirstMarker(body, SECTION_START, 0) == None;
    hide Proper, ReplaceEol, Relined, MarkerAt, FirstMarker, Occurs, StripEol, Split, HasCrLf;
    var block := Block(body, section);
    assert Splice(body, section) == Success(body + Gap(body) + block + "");
    NothingBehind(body, block);
  }

  lemma NothingBehind(body: string, block: string)
    ensures body + Gap(body) + block + "" == body + Gap(body) + block
    ensures body == "" ==> body + Gap(body) + block == block
  {
  }

  /** Into a description with a section it goes in the place of the first one, markers included. */
  lemma SpliceReplaces(body: string, section: string, a: nat, e: nat)
    requires Proper(SECTION_START, SECTION_END, StripEol(section))
    requires MarkerAt(body, a, SECTION_START) && forall i | 0 <= i < a :: !MarkerAt(body, i, SECTION_START)
    requires MarkerAt(body, e, SECTION_END) && a + |SECTION_START| <= e
    requires forall i | a + |SECTION_START| <= i < e :: !MarkerAt(body, i, SECTION_END)
    ensures e + |SECTION_END| <= |body|
    ensures Splice(body, section) == Success(body[..a] + Block(body, section) + body[e + |SECTION_END|..])
  {
    RelinedExactly(StripEol(section), Ending(body));
    FirstMarkerIs(body, SECTION_START, 0, a);
    FirstMarkerIs(body, SECTION_END, a + |SECTION_START|, e);
    hide Proper, ReplaceEol, Relined, MarkerAt, FirstMarker, Occurs, StripEol;
    MarkerInside(body, e, SECTION_END);
    PutFound(SECTION_START, SECTION_END, body, section, a, e + |SECTION_END|);
  }

  lemma MarkerInside(body: string, e: nat, m: string)
    requires MarkerAt(body, e, m)
    ensures e + |m| <= |body|
  {
  }

  /** An opening marker without a closing one behind it is refused. */
  lemma SpliceUnclosed(body: string, section: string, a: nat)
    requires Proper(SECTION_START, SECTION_END, StripEol(section))
    requires MarkerAt(body, a, SECTION_START) && forall i | 0 <= i < a :: !MarkerAt(body, i, SECTION_START)
    requires forall i :: a + |SECTION_START| <= i ==> !MarkerAt(body, i, SECTION_END)
    ensures Splice(body, section) == Failure(UnclosedSection)
  {
    FirstMarkerIs(body, SECTION_START, 0, a);
    NoMarkerFrom(body, SECTION_END, a + |SECTION_START|);
  }
}
