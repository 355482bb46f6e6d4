/**
 Exactly when a step of the release index and a resolution succeed, and exactly what they give
 (tools/update-release-index.ts, tools/resolve-capture-release.ts).
 */
module ReleaseSteps {
  import opened Wrappers
  import opened Decimals
  import opened Separators
  import opened ReleaseTags
  import opened ReleaseIndex
  import opened CaptureResolver
  import ContractImpact

  // ---- Texts -----------------------------------------------------------------------------

  lemma {:induction false} NumberOfDecimal(n: nat)
    ensures IsNumber(Decimal(n)) && NumberOf(Decimal(n)) == n
  {
    LastDigit(n);
    var s := Decimal(n);
    if n >= 10 { NumberOfDecimal(n / 10); }
    forall i | 0 <= i < |s| ensures IsDigit(s[i]) {}
  }

  lemma {:induction false} JoinedSplit(s: string, c: char)
    ensures Joined(Split(s, c), c) == s && Apart(Split(s, c), c)
    decreases |s|
  {
    if s == "" {
      JoinedOne("", c);
    } else {
      JoinedSplit(s[1..], c);
      var rest := Split(s[1..], c);
      assert s == [s[0]] + s[1..];
      if s[0] == c {
        JoinedMore("", rest, c);
      } else {
        Prefixed([s[0]], rest, c);
        assert c !in [s[0]] + rest[0];
      }
    }
  }

  lemma Prefixed(x: string, parts: seq<string>, c: char)
    requires parts != []
    ensures Joined([x + parts[0]] + parts[1..], c) == x + Joined(parts, c)
  {
    assert parts == [parts[0]] + parts[1..];
    if |parts| == 1 {
      JoinedOne(parts[0], c);
      JoinedOne(x + parts[0], c);
    } else {
      JoinedMore(parts[0], parts[1..], c);
      JoinedMore(x + parts[0], parts[1..], c);
    }
  }

  /** Splitting undoes joining, and nothing else does. */
  lemma SplitExactly(s: string, c: char, parts: seq<string>)
    ensures Split(s, c) == parts <==> parts != [] && Apart(parts, c) && s == Joined(parts, c)
  {
    JoinedSplit(s, c);
    if parts != [] && Apart(parts, c) && s == Joined(parts, c) { JoinedInjective(Split(s, c), parts, c); }
  }

  lemma {:induction false} LeadingZero(s: string)
    requires IsNumber(s)
    ensures IsNumber("0" + s) && NumberOf("0" + s) == NumberOf(s)
    decreases |s|
  {
    var z := "0" + s;
    assert z[..|z| - 1] == "0" + s[..|s| - 1];
    if |s| > 1 {
      LeadingZero(s[..|s| - 1]);
    } else {
      assert z[..1] == "0" && NumberOf("0") == 0;
    }
  }

  /** `v` and three numbers, with whatever leading zeros, between dots. */
  ghost predicate IsVersionTag(tag: string, v: Version) {
    exists a, b, c ::
      && IsNumber(a) && IsNumber(b) && IsNumber(c) && tag == "v" + (a + "." + b + "." + c)
      && v == Version(NumberOf(a), NumberOf(b), NumberOf(c))
  }

  lemma ThreeParts(a: string, b: string, c: string)
    ensures Joined([a, b, c], '.') == a + "." + b + "." + c
  {
    JoinedOne(c, '.');
    JoinedMore(b, [c], '.');
    JoinedMore(a, [b, c], '.');
    assert [a] + [b, c] == [a, b, c] && [b] + [c] == [b, c];
  }

  lemma VersionOfExactly(tag: string, v: Version)
    ensures VersionOf(tag) == Some(v) <==> IsVersionTag(tag, v)
  {
    hide NumberOf, Split, IsNumber;
    if VersionOf(tag) == Some(v) {
      var parts := Split(tag[1..], '.');
      SplitExactly(tag[1..], '.', parts);
      ThreeParts(parts[0], parts[1], parts[2]);
      assert parts == [parts[0], parts[1], parts[2]];
      assert tag == "v" + tag[1..];
    }
    if IsVersionTag(tag, v) {
      var a, b, c :| IsNumber(a) && IsNumber(b) && IsNumber(c) && tag == "v" + (a + "." + b + "." + c)
                     && v == Version(NumberOf(a), NumberOf(b), NumberOf(c));
      NumberHasNoDot(a);
      NumberHasNoDot(b);
      NumberHasNoDot(c);
      ThreeParts(a, b, c);
      SplitExactly(tag[1..], '.', [a, b, c]);
    }
  }

  /** The version read from a tag is the one it was printed from. */
  lemma VersionPrinted(major: nat, minor: nat, patch: nat)
    ensures VersionOf("v" + (Decimal(major) + "." + Decimal(minor) + "." + Decimal(patch))) ==
            Some(Version(major, minor, patch))
  {
    hide VersionOf, Decimal, NumberOf;
    NumberOfDecimal(major);
    NumberOfDecimal(minor);
    NumberOfDecimal(patch);
    VersionOfExactly("v" + (Decimal(major) + "." + Decimal(minor) + "." + Decimal(patch)), Version(major, minor, patch));
  }

  lemma NumberHasNoDot(s: string)
    requires IsNumber(s)
    ensures '.' !in s
  {
    forall i | 0 <= i < |s| ensures s[i] != '.' { assert IsDigit(s[i]); }
  }

  ghost predicate IsPlainTag(tag: string) {
    exists v :: IsVersionTag(tag, v)
  }

  predicate IsSuffix(s: string) {
    s != "" && forall k | 0 <= k < |s| :: IsDigit(s[k]) || 'A' <= s[k] <= 'Z' || 'a' <= s[k] <= 'z' || s[k] in ".-"
  }

  ghost predicate IsSuffixedTag(tag: string) {
    exists front, suffix :: IsPlainTag(front) && IsSuffix(suffix) && tag == front + "-" + suffix
  }

  lemma PlainTagExactly(tag: string)
    ensures VersionOf(tag).Some? <==> IsPlainTag(tag)
  {
    hide VersionOf, IsVersionTag;
    if VersionOf(tag).Some? { VersionOfExactly(tag, VersionOf(tag).value); }
    if v :| IsVersionTag(tag, v) { VersionOfExactly(tag, v); }
  }

  lemma SuffixFound(tag: string, i: nat)
    requires SuffixAt(tag, i)
    ensures IsSuffixedTag(tag)
  {
    hide VersionOf, IsPlainTag;
    var front, suffix := tag[..i], tag[i + 1..];
    PlainTagExactly(front);
    forall k | 0 <= k < |suffix| ensures IsSuffixChar(suffix[k]) { assert suffix[k] == tag[i + 1 + k]; }
    assert IsSuffix(suffix);
    assert tag == front + "-" + suffix;
  }

  lemma SuffixRead(tag: string, front: string, suffix: string)
    requires IsPlainTag(front) && IsSuffix(suffix) && tag == front + "-" + suffix
    ensures SuffixAt(tag, |front|)
  {
    hide VersionOf, IsPlainTag;
    PlainTagExactly(front);
    assert tag[..|front|] == front && tag[|front|] == '-';
    forall k | |front| < k < |tag| ensures IsSuffixChar(tag[k]) { assert tag[k] == suffix[k - |front| - 1]; }
  }

  /** A version, or one with a hyphen and a suffix of letters, digits, dots and hyphens. */
  lemma TagExactly(tag: string)
    ensures IsTag(tag) <==> IsPlainTag(tag) || IsSuffixedTag(tag)
  {
    hide VersionOf, IsPlainTag, IsSuffix;
    PlainTagExactly(tag);
    if i :| 0 <= i < |tag| && SuffixAt(tag, i) { SuffixFound(tag, i); }
    if IsSuffixedTag(tag) {
      var front, suffix :| IsPlainTag(front) && IsSuffix(suffix) && tag == front + "-" + suffix;
      SuffixRead(tag, front, suffix);
    }
  }

  /** Versions are ordered by their first component that differs. */
  lemma VersionOrderExactly(a: Version, b: Version)
    ensures var x, y := [a.major, a.minor, a.patch], [b.major, b.minor, b.patch];
      VersionLeq(a, b) <==> x == y || exists k :: 0 <= k < 3 && x[..k] == y[..k] && x[k] < y[k]
  {
    var x, y := [a.major, a.minor, a.patch], [b.major, b.minor, b.patch];
    assert x[..0] == y[..0];
    if a.major == b.major { assert x[..1] == y[..1]; }
    if a.major == b.major && a.minor == b.minor { assert x[..2] == y[..2]; }
    if k :| 0 <= k < 3 && x[..k] == y[..k] && x[k] < y[k] {
      assert k > 0 ==> x[0] == x[..k][0] == y[..k][0] == y[0];
      assert k > 1 ==> x[1] == x[..k][1] == y[..k][1] == y[1];
    }
  }

  /** Trimming drops white space at both ends, and only that. */
  lemma TrimExactly(s: string) returns (before: string, after: string)
    ensures s == before + Trim(s) + after
    ensures (forall i | 0 <= i < |before| :: IsWhite(before[i])) && forall i | 0 <= i < |after| :: IsWhite(after[i])
    ensures Trim(s) == "" || (!IsWhite(Trim(s)[0]) && !IsWhite(Trim(s)[|Trim(s)| - 1]))
  {
    before := TrimsStart(s);
    var t := TrimStart(s);
    after := TrimsEnd(t);
    if TrimEnd(t) != "" { assert TrimEnd(t)[0] == t[0]; }
  }

  lemma {:induction false} TrimsStart(s: string) returns (before: string)
    ensures s == before + TrimStart(s) && forall i | 0 <= i < |before| :: IsWhite(before[i])
    ensures TrimStart(s) == "" || !IsWhite(TrimStart(s)[0])
    decreases |s|
  {
    before := "";
    if s != "" && IsWhite(s[0]) {
      var rest := TrimsStart(s[1..]);
      before := [s[0]] + rest;
      assert s == [s[0]] + s[1..];
    }
  }

  lemma {:induction false} TrimsEnd(s: string) returns (after: string)
    ensures s == TrimEnd(s) + after && forall i | 0 <= i < |after| :: IsWhite(after[i])
    ensures TrimEnd(s) == "" || !IsWhite(TrimEnd(s)[|TrimEnd(s)| - 1])
    decreases |s|
  {
    after := "";
    if s != "" && IsWhite(s[|s| - 1]) {
      var front := TrimsEnd(s[..|s| - 1]);
      after := front + [s[|s| - 1]];
      assert s == s[..|s| - 1] + [s[|s| - 1]];
    }
  }

  // ---- Steps of the index ----------------------------------------------------------------

  /** No release is stable, or the stable one is a released entry together with its digest. */
  predicate Consistent(index: Index) {
    match index.stable.tag
    case None => index.stable.digest.None? && index.stable.updatedAt.None?
    case Some(tag) =>
      && IsTag(tag) && tag in index.releases && index.releases[tag].status == Released
      && index.stable.digest == Some(index.releases[tag].digest) && IsSha(index.releases[tag].digest)
  }

  lemma ConsistentExactly(index: Index)
    ensures AssertIndexes(index) == None <==> Consistent(index)
  {
  }

  /** Every entry but one is as it was. */
  ghost predicate OthersStay(before: Index, after: Index, tag: Tag) {
    && (forall t | t in before.releases && t != tag :: t in after.releases && after.releases[t] == before.releases[t])
    && forall t | t in after.releases && t != tag :: t in before.releases
  }

  /** A promotion succeeds exactly for a new entry or the same one again, and makes it the stable one. */
  lemma PromoteExactly(index: Index, tag: Tag, candidateId: string, digest: string, at: string)
    ensures var r := Update(index, Promote(tag, candidateId, digest, at));
      && (r.Success? <==>
            && Consistent(index) && IsTag(tag) && IsSha(candidateId) && IsSha(digest)
            && (tag in index.releases ==>
                  && index.releases[tag].status == Released
                  && index.releases[tag].digest == digest && index.releases[tag].candidateId == candidateId))
      && (r.Success? ==>
            && r.value.stable == Stable(Some(tag), Some(digest), Some(at))
            && tag in r.value.releases && r.value.releases[tag] == Record(Released, digest, candidateId, None, None)
            && OthersStay(index, r.value, tag))
  {
    ConsistentExactly(index);
  }

  /**
   A supersession succeeds exactly for two different released entries, given their protected digests
   and a reason. Then the replacement is the stable one, and the defective entry says what
   replaced it and why.
   */
  lemma SupersedeExactly(index: Index, defective: Tag, replacement: Tag, defectiveDigest: string,
                         replacementDigest: string, reason: string, at: string)
    ensures var r := Update(index, Supersede(defective, replacement, defectiveDigest, replacementDigest, reason, at));
      && (r.Success? <==>
            && Consistent(index) && IsTag(defective) && IsTag(replacement) && defective != replacement
            && Trim(reason) != "" && IsSha(defectiveDigest) && IsSha(replacementDigest)
            && IsReleased(index, defective) && index.releases[defective].digest == defectiveDigest
            && IsReleased(index, replacement) && index.releases[replacement].digest == replacementDigest)
      && (r.Success? ==>
            && r.value.stable == Stable(Some(replacement), Some(replacementDigest), Some(at))
            && defective in r.value.releases
            && r.value.releases[defective] ==
               Record(Superseded, defectiveDigest, index.releases[defective].candidateId, Some(replacement),
                      Some(Trim(reason)))
            && OthersStay(index, r.value, defective))
  {
    ConsistentExactly(index);
  }

  // ---- Resolving -------------------------------------------------------------------------

  /** What the caller says about itself is well formed, and the index is consistent. */
  predicate Askable(source: Source, current: string, contractSet: Option<string>) {
    && VersionOf("v" + WithoutV(current)).Some? && (contractSet.Some? ==> IsSha(contractSet.value))
    && Consistent(source.index)
  }

  /** An attested manifest of a runtime candidate of that release. */
  predicate Describes(m: Option<RuntimeManifest>, tag: Tag) {
    && m.Some? && m.value.attested && m.value.schemaVersion == "1" && m.value.candidateKind == "runtime"
    && "v" + m.value.releaseVersion == tag && IsSha(m.value.candidateId) && IsSha(m.value.contractSet)
  }

  /**
   Route-a resolves exactly when there is an eligible release whose highest one has an attested
   manifest; the migration needs no review exactly when nothing changes or the contract set is
   the caller's own.
   */
  lemma RouteAExactly(source: Source, current: string, contractSet: Option<string>)
    ensures var r := Resolve(source, RouteA, current, contractSet);
      var selected := SelectRouteATag(source);
      && (r.Success? <==>
            Askable(source, current, contractSet) && selected.Success?
            && Describes(source.runtimeManifest(selected.value), selected.value))
      && (r.Success? ==>
            var m := source.runtimeManifest(selected.value).value;
            && r.value.tag == selected.value == "v" + r.value.version
            && r.value.manifestDigest == m.digest && r.value.contractSet == m.contractSet
            && (r.value.changed <==> r.value.version != WithoutV(current))
            && r.value.classification ==
               if !r.value.changed || contractSet == Some(m.contractSet) then ContractImpact.NoImpact
               else ContractImpact.ManualReview)
  {
    ConsistentExactly(source.index);
    if AssertIndexes(source.index) == None && SelectRouteATag(source).Success? {
      SelectedTag(source, RouteA);
      var tag := SelectRouteATag(source).value;
      assert tag == "v" + tag[1..];
    }
  }

  /** An attested release manifest that the protected entry and its own candidate manifest agree with. */
  predicate Certifies(source: Source, tag: Tag)
    requires tag in source.index.releases
  {
    var m := source.releaseManifest(tag);
    && m.Some? && m.value.attested && m.value.digest == source.index.releases[tag].digest
    && m.value.schemaVersion == "1" && m.value.status == "released" && m.value.releaseTag == tag
    && "v" + m.value.releaseVersion == tag && m.value.candidateId == source.index.releases[tag].candidateId
    && m.value.hasComponents && m.value.classification.Some? && IsSha(m.value.candidateManifest)
    && var c := source.candidateManifest(tag);
    && c.Some? && c.value.digest == m.value.candidateManifest && c.value.candidateId == m.value.candidateId
    && IsSha(c.value.contractSet)
  }

  /** The stable mode resolves exactly the release that the index points at, when its manifests certify it. */
  lemma StableExactly(source: Source, current: string, contractSet: Option<string>)
    ensures var r := Resolve(source, StableMode, current, contractSet);
      var stable := source.index.stable.tag;
      && (r.Success? <==>
            Askable(source, current, contractSet) && stable.Some? && VersionOf(stable.value).Some?
            && Certifies(source, stable.value))
      && (r.Success? ==>
            && r.value.tag == stable.value == "v" + r.value.version
            && r.value.manifestDigest == source.index.releases[stable.value].digest
            && r.value.contractSet == source.candidateManifest(stable.value).value.contractSet
            && Some(r.value.classification) == source.releaseManifest(stable.value).value.classification
            && (r.value.changed <==> r.value.version != WithoutV(current)))
  {
    ConsistentExactly(source.index);
    if source.index.stable.tag.Some? && VersionOf(source.index.stable.tag.value).Some? {
      var tag := source.index.stable.tag.value;
      assert tag == "v" + tag[1..];
    }
  }
}
