/**
 A version that a JSON file owns: the text pattern looks for a quoted value behind the field's
 name, the strict reading looks at the members of the top level (tools/release/version-owners.ts).
 Stamping keeps the two together exactly when they are the same place.
 */
module JsonOwners {
  import opened Wrappers
  import opened Occurrences
  import opened VersionPlan
  import opened VersionOwners
  import opened JsonHoles
  import S = JsonScanner
  import G = JsonGrammar

  /** The code units of a text, one for each character. */
  ghost predicate Encodes(s: string, u: S.Text) {
    |s| == |u| && forall i | 0 <= i < |s| :: s[i] as int == u[i]
  }

  /** `s` is a JSON text without repeated names. */
  ghost predicate Document(s: string, before: S.Text, t: G.Tree, after: S.Text) {
    Strict(t) && G.Blank(before) && G.Blank(after) && Encodes(s, before + G.Print(t) + after)
  }

  ghost predicate StatesIn(e: G.Entry, field: string, v: string) {
    && e.value.Str? && G.ValidPieces(e.name) && G.ValidPieces(e.value.pieces)
    && Encodes(field, G.Name(e.name)) && Encodes(v, G.Name(e.value.pieces))
  }

  /** The top level is an object with a member of that name, and the member is that string. */
  ghost predicate States(t: G.Tree, field: string, v: string) {
    t.Obj? && exists k :: 0 <= k < |t.entries| && StatesIn(t.entries[k], field, v)
  }

  /** The reading knows what every JSON text without repeated names states. */
  ghost predicate ReadsJson(parse: JsonReading) {
    forall s, before, t, after, field, v | Document(s, before, t, after) ::
      parse(s, field) == Some(v) <==> States(t, field, v)
  }

  /** The value at `a` is the string that the top level has under the field's name. */
  ghost predicate OnTop(before: S.Text, t: G.Tree, field: string, a: nat) {
    t.Obj? && exists m :: 0 <= m < |t.entries| && OnTopAt(before, t.entries, m, field, a)
  }

  ghost predicate OnTopAt(before: S.Text, es: seq<G.Entry>, m: nat, field: string, a: nat)
    requires m < |es|
  {
    && es[m].value.Str? && G.ValidPieces(es[m].name) && Encodes(field, G.Name(es[m].name))
    && a == |before| + 1 + |UpTo(es, 0, m)| + 1
  }

  /** A field name that ends in what cannot precede a string: all that the owner table uses. */
  predicate PlainField(field: string) {
    field != "" && var c := field[|field| - 1] as int; c < 0x80 && NameUnit(c)
  }

  // ---- From the pattern to the text ------------------------------------------------------

  function Units(w: string): (r: S.Text)
    requires forall i | 0 <= i < |w| :: w[i] as int < 0x80
    ensures Encodes(w, r)
  {
    seq(|w|, i requires 0 <= i < |w| => w[i] as int)
  }

  predicate PlainVersion(w: string) {
    forall i | 0 <= i < |w| :: ' ' <= w[i] && w[i] as int < 0x80 && w[i] != '"' && w[i] != '\\'
  }

  lemma VersionIsPlainText(w: string)
    requires IsReleaseVersion(w)
    ensures PlainVersion(w)
  {
    VersionIsSuffix(w);
  }

  lemma FoundByPattern(field: string, s: string, a: nat, b: nat) returns (i: nat)
    requires Usable(JsonField(field)) && OnlyValue(JsonField(field), s) == Some((a, b))
    ensures JsonPrefix(field, s, i) == Some(a) && i + |field| + 3 < a < b < |s|
    ensures s[a - 1] == '"' && s[b] == '"' && forall k | a <= k < b :: s[k] != '"'
  {
    i := OnlyValueParts(JsonField(field), s, a, b);
    JsonName(field, s, i);
    forall k | a <= k < b ensures s[k] != '"' { ValueRun(s, a, k); }
  }

  /** What the pattern found is a quoted value behind the quote that closes the field's name. */
  lemma FoundIsHeld(field: string, s: string, u: S.Text, a: nat, b: nat) returns (q: nat)
    requires Usable(JsonField(field)) && PlainField(field) && Encodes(s, u)
    requires OnlyValue(JsonField(field), s) == Some((a, b)) && b <= |s| && PlainVersion(s[a..b])
    ensures Held(u, q, a, b)
  {
    var i := FoundByPattern(field, s, a, b);
    q := i + |field| + 1;
    OccursAt(s, i, Quoted(field), |field|);
    OccursAt(s, i, Quoted(field), |field| + 1);
    forall p | q < p < a - 1 ensures S.IsSpace(u[p]) || u[p] == S.COLON {
      OpenParts(s, q + 1, ':', true, p);
    }
    forall p | a <= p < b ensures u[p] != S.QUOTE && u[p] != S.BACKSLASH {
      assert s[a..b][p - a] == s[p];
    }
  }

  // ---- Stamping a document ---------------------------------------------------------------

  lemma EncodesOne(s: string, v: string, u: S.Text)
    requires Encodes(s, u) && Encodes(v, u)
    ensures s == v
  {
  }

  lemma StampedEncodes(s: string, u: S.Text, a: nat, b: nat, w: string, x: S.Text)
    requires Encodes(s, u) && a <= b <= |s| && Encodes(w, x)
    ensures Encodes(s[..a] + w + s[b..], u[..a] + x + u[b..])
  {
  }

  /** Where in a document, between the white space around it, a quoted value can be. */
  lemma InsideTree(before: S.Text, x: S.Text, after: S.Text, q: nat, a: nat, b: nat)
    requires G.Blank(before) && G.Blank(after) && Held(before + x + after, q, a, b)
    ensures |before| <= a - 1 < |before| + |x| && Occurs(before + x + after, |before|, x)
  {
    var u, p := before + x + after, |before|;
    hide Held;
    OccursConcat(u, 0, before + x, after);
    OccursConcat(u, 0, before, x);
    ValueQuote(u, q, a, b);
    if a - 1 < p { NotBlank(u, 0, before, a - 1); }
  }

  /** The text of one changed string, at the top level or inside one of its members. */
  lemma RefilledDocument(before: S.Text, t: G.Tree, after: S.Text, q: nat, a: nat, b: nat, w: S.Text)
    returns (y: G.Tree, k: nat)
    requires G.Blank(before) && G.Blank(after) && Strict(t) && t.Obj? && Unescaped(w)
    requires Held(before + G.Print(t) + after, q, a, b)
    ensures var u := before + G.Print(t) + after;
      a <= b <= |u| && before + G.Print(y) + after == u[..a] + w + u[b..]
    ensures Strict(y) && y.Obj? && k < |t.entries| == |y.entries|
    ensures y.entries == WithValue(t.entries, k, y.entries[k].value)
    ensures Refilled(t.entries[k].value, y.entries[k].value, |before| + 1 + |UpTo(t.entries, 0, k)|, a, b, w)
  {
    hide Held, G.Print, Strict, UpTo, WithValue;
    var x := G.Print(t);
    InsideTree(before, x, after, q, a, b);
    y, k := FillObject(before + x + after, |before|, t, q, a, b, w);
    Around(before, x, after, a - |before|, b - |before|, G.Print(y), w);
  }

  /** Stamping a document gives a document with one string changed. */
  lemma StampedDocument(field: string, s: string, before: S.Text, t: G.Tree, after: S.Text, a: nat, b: nat, w: string)
    returns (y: G.Tree, k: nat)
    requires Usable(JsonField(field)) && PlainField(field) && t.Obj? && Document(s, before, t, after)
    requires OnlyValue(JsonField(field), s) == Some((a, b)) && b <= |s| && PlainVersion(s[a..b]) && PlainVersion(w)
    ensures a <= b && Document(s[..a] + w + s[b..], before, y, after)
    ensures y.Obj? && k < |t.entries| == |y.entries| && y.entries == WithValue(t.entries, k, y.entries[k].value)
    ensures Refilled(t.entries[k].value, y.entries[k].value, |before| + 1 + |UpTo(t.entries, 0, k)|, a, b, Units(w))
  {
    hide Held, G.Print, Strict, UpTo, WithValue, Refilled, OnlyValue, Usable, PlainField;
    var u := before + G.Print(t) + after;
    var q := FoundIsHeld(field, s, u, a, b);
    y, k := RefilledDocument(before, t, after, q, a, b, Units(w));
    StampedEncodes(s, u, a, b, w, Units(w));
  }

  /** Two members of one top level have different names. */
  lemma OneMember(t: G.Tree, field: string, i: nat, j: nat)
    requires t.Obj? && Strict(t) && i < |t.entries| && j < |t.entries|
    requires G.ValidPieces(t.entries[i].name) && G.ValidPieces(t.entries[j].name)
    requires Encodes(field, G.Name(t.entries[i].name)) && Encodes(field, G.Name(t.entries[j].name))
    ensures i == j
  {
    assert G.Name(t.entries[i].name) == G.Name(t.entries[j].name);
  }

  /** The values of different members do not overlap. */
  lemma {:induction false} Later(es: seq<G.Entry>, n: nat, i: nat, j: nat)
    requires n <= i < j < |es|
    ensures |UpTo(es, n, i)| + |G.Print(es[i].value)| < |UpTo(es, n, j)|
    decreases i - n
  {
    hide G.Print, G.PrintEntry, G.Label;
    if n < i { Later(es, n + 1, i, j); } else { EntryParts(es[i]); }
  }

  /** The string of member `m` stands nowhere in the value of another member. */
  lemma ElsewhereOnTop(before: S.Text, es: seq<G.Entry>, k: nat, m: nat, field: string, a: nat)
    requires k < |es| && m < |es| && k != m && OnTopAt(before, es, m, field, a)
    ensures var p := |before| + 1 + |UpTo(es, 0, k)|; !(p < a < p + |G.Print(es[k].value)|)
  {
    hide UpTo;
    if k < m { Later(es, 0, k, m); } else { Later(es, 0, m, k); }
  }

  /** What the changed document states, when the change is in member `k` and member `m` has the field's name. */
  lemma ChangedStates(before: S.Text, t: G.Tree, y: G.Tree, k: nat, m: nat, field: string, was: string, w: string,
                      a: nat, b: nat)
    requires t.Obj? && Strict(t) && m < |t.entries| && StatesIn(t.entries[m], field, was) && PlainVersion(w)
    requires Strict(y) && y.Obj? && k < |t.entries| == |y.entries|
    requires y.entries == WithValue(t.entries, k, y.entries[k].value)
    requires Refilled(t.entries[k].value, y.entries[k].value, |before| + 1 + |UpTo(t.entries, 0, k)|, a, b, Units(w))
    ensures States(y, field, w) <==> k == m || was == w
    ensures OnTop(before, t, field, a) <==> k == m
  {
    hide Strict, UpTo, G.Print;
    if k == m {
      assert StatesIn(y.entries[m], field, w);
      assert OnTopAt(before, t.entries, m, field, a);
    } else {
      assert y.entries[m] == t.entries[m];
      if States(y, field, w) {
        var j :| 0 <= j < |y.entries| && StatesIn(y.entries[j], field, w);
        OneMember(y, field, j, m);
        EncodesOne(was, w, G.Name(y.entries[m].value.pieces));
      }
      if OnTop(before, t, field, a) {
        var j :| 0 <= j < |t.entries| && OnTopAt(before, t.entries, j, field, a);
        OneMember(t, field, j, m);
        ElsewhereOnTop(before, t.entries, k, m, field, a);
      }
    }
  }

  lemma StatedMember(parse: JsonReading, s: string, before: S.Text, t: G.Tree, after: S.Text, field: string, v: string)
    returns (m: nat)
    requires ReadsJson(parse) && Document(s, before, t, after) && parse(s, field) == Some(v)
    ensures Strict(t) && t.Obj? && m < |t.entries| && StatesIn(t.entries[m], field, v)
  {
    assert States(t, field, v);
    m :| 0 <= m < |t.entries| && StatesIn(t.entries[m], field, v);
  }

  /** What an accepted JSON owner says: the pattern's only value is a version, and it is stated on top. */
  lemma OwnerParts(file: OwnerFile, parse: JsonReading, s: string, a: nat, b: nat)
    requires UsableFile(file) && file.pattern.JsonField? && ReadOwner(file, parse, s) == Some((a, b))
    ensures Usable(file.pattern) && OnlyValue(file.pattern, s) == Some((a, b))
    ensures a <= b <= |s| && IsReleaseVersion(s[a..b]) && parse(s, file.pattern.field) == Some(s[a..b])
  {
    hide IsReleaseVersion, OnlyValue;
    FindBounds(file.section, file.pattern, s, a, b);
    assert s[0..|s|] == s;
  }

  /**
   Stamping a JSON owner settles it exactly when the value that the pattern found is the top
   level's own string under the field's name, or already the version.
   */
  lemma JsonOwnerSettlesExactly(file: OwnerFile, parse: JsonReading, files: Files, version: string,
                                before: S.Text, t: G.Tree, after: S.Text)
    requires ReadsJson(parse) && UsableFile(file) && file.pattern.JsonField? && PlainField(file.pattern.field)
    requires IsReleaseVersion(version) && Readable(files, AsOwner(file, parse))
    requires Document(files[file.path], before, t, after)
    ensures var s := files[file.path]; var (a, b) := ReadOwner(file, parse, s).value;
      && a <= b <= |s|
      && (Settles(files, AsOwner(file, parse), version) <==>
            OnTop(before, t, file.pattern.field, a) || s[a..b] == version)
  {
    hide IsReleaseVersion, Settles, Strict, UpTo, G.Print, Refilled, OnlyValue, WithValue, UsableFile, ReadOwner;
    hide PlainField, PlainVersion, OnTop, States, Usable;
    var s, field := files[file.path], file.pattern.field;
    var (a, b) := ReadOwner(file, parse, s).value;
    OwnerParts(file, parse, s, a, b);
    VersionIsPlainText(s[a..b]);
    VersionIsPlainText(version);
    var m := StatedMember(parse, s, before, t, after, field, s[a..b]);
    var y, k := StampedDocument(field, s, before, t, after, a, b, version);
    ChangedStates(before, t, y, k, m, field, s[a..b], version, a, b);
    OwnerSettlesExactly(file, parse, files, version);
    assert Stamped(AsOwner(file, parse), s, version) == s[..a] + version + s[b..];
  }

  /** A JSON text taken apart: its tree and the white space around it. */
  datatype Parsed = Parsed(before: S.Text, tree: G.Tree, after: S.Text)

  /** The owner holds a JSON text, or no JSON at all. */
  ghost predicate HoldsJson(file: OwnerFile, files: Files, doc: Parsed) {
    file.pattern.JsonField? ==>
      PlainField(file.pattern.field) && file.path in files
      && Document(files[file.path], doc.before, doc.tree, doc.after)
  }

  /** The value found is the one the top level states, or already the version. TOML and Python state it once. */
  ghost predicate FindsItsOwn(file: OwnerFile, parse: JsonReading, files: Files, doc: Parsed, version: string) {
    file.pattern.JsonField? ==>
      file.path in files && var s := files[file.path];
      ReadOwner(file, parse, s).Some? && var (a, b) := ReadOwner(file, parse, s).value;
      OnTop(doc.before, doc.tree, file.pattern.field, a) || (a <= b <= |s| && s[a..b] == version)
  }

  /**
   After a version is applied, planning it again finds nothing to do, exactly when in every JSON
   owner the pattern had found the top level's own value, or the version itself.
   */
  lemma AppliedVersionSettlesExactly(owners: seq<OwnerFile>, parse: JsonReading, files: Files, docs: seq<Parsed>,
                                     version: string)
    requires ReadsJson(parse) && (forall file | file in owners :: UsableFile(file)) && |docs| == |owners|
    requires forall i, j | 0 <= i < j < |owners| :: owners[i].path != owners[j].path
    requires forall i | 0 <= i < |owners| :: HoldsJson(owners[i], files, docs[i])
    requires Plan(files, AsOwners(owners, parse), version, IsReleaseVersion).Success?
    ensures var all := AsOwners(owners, parse);
      var after := Applied(files, Plan(files, all, version, IsReleaseVersion).value);
      Plan(after, all, version, IsReleaseVersion) == Success([]) <==>
        forall i | 0 <= i < |owners| :: FindsItsOwn(owners[i], parse, files, docs[i], version)
  {
    hide UsableFile, ReadOwner, IsReleaseVersion, ReadsJson, Document, OnTop, PlainField;
    var all := AsOwners(owners, parse);
    PlanReads(files, all, version, |all|);
    ReplanExactly(files, all, version, IsReleaseVersion);
    forall i | 0 <= i < |owners|
      ensures Settles(files, all[i], version) <==> FindsItsOwn(owners[i], parse, files, docs[i], version)
    {
      assert owners[i] in owners && HoldsJson(owners[i], files, docs[i]);
      OwnerSettlesExactly(owners[i], parse, files, version);
      if owners[i].pattern.JsonField? {
        JsonOwnerSettlesExactly(owners[i], parse, files, version, docs[i].before, docs[i].tree, docs[i].after);
      }
    }
  }

  /** The owner table uses plain field names only. */
  lemma OwnerFieldsArePlain()
    ensures forall file | file in OWNER_FILES && file.pattern.JsonField? :: PlainField(file.pattern.field)
  {
    assert PlainField("version") && PlainField("releaseVersion") && PlainField("runtimeVersion");
  }
}
