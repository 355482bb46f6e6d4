/** Choosing the Capture release a consumer pins next (tools/resolve-capture-release.ts). */
module CaptureResolver {
  import opened Wrappers
  import opened Ordering
  import opened ReleaseTags
  import opened ReleaseIndex
  import ContractImpact

  datatype Mode = RouteA | StableMode

  datatype Summary = Summary(tag: Tag, draft: bool, prerelease: bool)

  /** A downloaded manifest: what its bytes say and whether the expected workflow attests them. */
  datatype RuntimeManifest = RuntimeManifest(digest: string, attested: bool, schemaVersion: string,
                                             candidateKind: string, releaseVersion: string,
                                             candidateId: string, contractSet: string)

  datatype ReleaseManifest = ReleaseManifest(digest: string, attested: bool, schemaVersion: string, status: string,
                                             releaseTag: string, releaseVersion: string, candidateId: string,
                                             hasComponents: bool, candidateManifest: string,
                                             classification: Option<ContractImpact.Impact>)

  datatype CandidateManifest = CandidateManifest(digest: string, candidateId: string, contractSet: string)

  /** Everything read from outside. A manifest that is missing or malformed is `None`. */
  datatype Source = Source(listed: seq<Summary>, index: Index,
                           runtimeManifest: Tag -> Option<RuntimeManifest>,
                           releaseManifest: Tag -> Option<ReleaseManifest>,
                           candidateManifest: Tag -> Option<CandidateManifest>)

  datatype Verified = Verified(manifestDigest: string, contractSet: string, recorded: Option<ContractImpact.Impact>)

  datatype Resolved = Resolved(tag: Tag, version: string, manifestDigest: string, classification: ContractImpact.Impact,
                               contractSet: string, changed: bool)

  datatype Problem =
    | BadCurrentVersion | BadCurrentDigest | BadIndex(refusal: Refusal) | NoStableRelease | StableNotPlain
    | NothingPublished | Unavailable | NotAttested | NotDescribed | DigestDiffers | BadManifestDigest

  // ---- Selection -----------------------------------------------------------------------

  predicate Eligible(index: Index, release: Summary) {
    && !release.draft && !release.prerelease && VersionOf(release.tag).Some?
    && !(release.tag in index.releases && index.releases[release.tag].status == Superseded)
  }

  function Candidates(listed: seq<Summary>, index: Index): seq<Tag> {
    if listed == [] then []
    else (if Eligible(index, listed[0]) then [listed[0].tag] else []) + Candidates(listed[1..], index)
  }

  function Parts(tag: Tag): Version {
    VersionOf(tag).GetOr(Version(0, 0, 0))
  }

  /** `compareTags(right, left) <= 0`: highest first. */
  predicate NotLower(left: Tag, right: Tag) {
    VersionLeq(Parts(right), Parts(left))
  }

  function SelectRouteATag(source: Source): Result<Tag, Problem> {
    var candidates := Candidates(source.listed, source.index);
    if candidates == [] then Failure(NothingPublished)
    else
      SortPermutes(NotLower, candidates);
      Success(Sort(NotLower, candidates)[0])
  }

  lemma {:induction false} CandidatesExactly(listed: seq<Summary>, index: Index)
    ensures forall t :: t in Candidates(listed, index) <==> exists r :: r in listed && Eligible(index, r) && r.tag == t
  {
    if listed == [] {
    } else {
      CandidatesExactly(listed[1..], index);
      assert listed == [listed[0]] + listed[1..];
      forall t ensures t in Candidates(listed, index) <==> exists r :: r in listed && Eligible(index, r) && r.tag == t {
        if t in Candidates(listed[1..], index) {
          var r :| r in listed[1..] && Eligible(index, r) && r.tag == t;
          assert r in listed;
        }
        if r :| r in listed && Eligible(index, r) && r.tag == t {
          assert r == listed[0] || r in listed[1..];
        }
      }
    }
  }

  lemma NotLowerOrders()
    ensures TotalPreorder(NotLower)
  {
  }

  /**
   The selected tag is published, well formed and not superseded, and no such release is higher;
   selection fails exactly when there is none.
   */
  lemma SelectsHighest(source: Source)
    ensures match SelectRouteATag(source)
      case Success(tag) =>
        && (exists r :: r in source.listed && Eligible(source.index, r) && r.tag == tag)
        && forall r | r in source.listed && Eligible(source.index, r) :: VersionLeq(Parts(r.tag), Parts(tag))
      case Failure(_) => forall r | r in source.listed :: !Eligible(source.index, r)
  {
    var candidates := Candidates(source.listed, source.index);
    CandidatesExactly(source.listed, source.index);
    if candidates == [] {
      forall r | r in source.listed ensures !Eligible(source.index, r) {
        assert Eligible(source.index, r) ==> r.tag in candidates;
      }
    } else {
      NotLowerOrders();
      SortSorted(NotLower, candidates);
      SortPermutes(NotLower, candidates);
      var sorted := Sort(NotLower, candidates);
      assert sorted[0] in candidates;
      forall r | r in source.listed && Eligible(source.index, r) ensures VersionLeq(Parts(r.tag), Parts(sorted[0])) {
        assert r.tag in sorted;
        var i :| 0 <= i < |sorted| && sorted[i] == r.tag;
        assert NotLower(sorted[0], sorted[i]);
      }
    }
  }

  // ---- Verification --------------------------------------------------------------------

  function VerifyRouteA(source: Source, tag: Tag): Result<Verified, Problem>
    requires tag != ""
  {
    match source.runtimeManifest(tag)
    case None => Failure(Unavailable)
    case Some(m) =>
      if !m.attested then Failure(NotAttested)
      else if m.schemaVersion != "1" || m.candidateKind != "runtime" || m.releaseVersion != tag[1..]
      then Failure(NotDescribed)
      else if !IsSha(m.candidateId) || !IsSha(m.contractSet) then Failure(BadManifestDigest)
      else Success(Verified(m.digest, m.contractSet, None))
  }

  function VerifyStable(source: Source, tag: Tag): Result<Verified, Problem>
    requires tag != "" && tag in source.index.releases
  {
    match source.releaseManifest(tag)
    case None => Failure(Unavailable)
    case Some(m) =>
      if Some(m.digest) != source.index.stable.digest then Failure(DigestDiffers)
      else if !m.attested then Failure(NotAttested)
      else if m.schemaVersion != "1" || m.status != "released" || m.releaseTag != tag || m.releaseVersion != tag[1..]
              || m.candidateId != source.index.releases[tag].candidateId || !m.hasComponents || m.classification.None?
      then Failure(NotDescribed)
      else if !IsSha(m.candidateManifest) then Failure(BadManifestDigest)
      else
        match source.candidateManifest(tag)
        case None => Failure(Unavailable)
        case Some(c) =>
          if c.digest != m.candidateManifest then Failure(DigestDiffers)
          else if c.candidateId != m.candidateId then Failure(NotDescribed)
          else if !IsSha(c.contractSet) then Failure(BadManifestDigest)
          else Success(Verified(m.digest, c.contractSet, m.classification))
  }

  function WithoutV(s: string): string {
    if s != "" && s[0] == 'v' then s[1..] else s
  }

  /** The tag to use, before its manifests are verified. */
  function SelectTag(source: Source, mode: Mode): Result<Tag, Problem> {
    match mode
    case RouteA => SelectRouteATag(source)
    case StableMode =>
      match source.index.stable.tag
      case None => Failure(NoStableRelease)
      case Some(tag) => if VersionOf(tag).None? then Failure(StableNotPlain) else Success(tag)
  }

  function Resolve(source: Source, mode: Mode, current: string, contractSet: Option<string>): Result<Resolved, Problem> {
    var currentVersion := WithoutV(current);
    if VersionOf("v" + currentVersion).None? then Failure(BadCurrentVersion)
    else if contractSet.Some? && !IsSha(contractSet.value) then Failure(BadCurrentDigest)
    else
      match AssertIndexes(source.index)
      case Some(refusal) => Failure(BadIndex(refusal))
      case None =>
        var tag :- SelectTag(source, mode);
        SelectedTag(source, mode);
        var verified :- if mode == StableMode then VerifyStable(source, tag) else VerifyRouteA(source, tag);
        var changed := tag[1..] != currentVersion;
        var fallback := if !changed || Some(verified.contractSet) == contractSet then ContractImpact.NoImpact else ContractImpact.ManualReview;
        Success(Resolved(tag, tag[1..], verified.manifestDigest, verified.recorded.GetOr(fallback),
                         verified.contractSet, changed))
  }

  lemma SelectedTag(source: Source, mode: Mode)
    requires AssertIndexes(source.index) == None && SelectTag(source, mode).Success?
    ensures var tag := SelectTag(source, mode).value;
      && VersionOf(tag).Some? && tag != "" && !IsSuperseded(source.index, tag)
      && (mode == StableMode ==> IsReleased(source.index, tag))
  {
    if mode == RouteA { SelectsHighest(source); }
  }

  // ---- Safety --------------------------------------------------------------------------

  /** Once superseded, a tag is never resolved again, in either mode, whatever happens to the index next. */
  lemma SupersededIsNeverResolved(earlier: seq<Input>, later: seq<Input>, tag: Tag, source: Source, mode: Mode,
                                  current: string, contractSet: Option<string>)
    requires IsSuperseded(After(EMPTY, earlier), tag) && source.index == After(EMPTY, earlier + later)
    ensures var r := Resolve(source, mode, current, contractSet); r.Success? ==> r.value.tag != tag
  {
    RecordsAreImmutable(earlier, later);
    if Resolve(source, mode, current, contractSet).Success? {
      SelectedTag(source, mode);
    }
  }

  /** A route-a result is at least as high as every published release that is not superseded. */
  lemma RouteAResolvesHighest(source: Source, current: string, contractSet: Option<string>, r: Summary)
    requires Resolve(source, RouteA, current, contractSet).Success?
    requires r in source.listed && Eligible(source.index, r)
    ensures VersionLeq(Parts(r.tag), Parts(Resolve(source, RouteA, current, contractSet).value.tag))
  {
    SelectsHighest(source);
  }

  /** A stable result is the released entry the protected index points at, with the digest recorded there. */
  lemma StableResolvesProtected(source: Source, current: string, contractSet: Option<string>)
    requires Resolve(source, StableMode, current, contractSet).Success?
    ensures var r := Resolve(source, StableMode, current, contractSet).value;
      && IsReleased(source.index, r.tag)
      && source.index.stable.tag == Some(r.tag)
      && source.index.releases[r.tag].digest == r.manifestDigest
      && source.releaseManifest(r.tag).Some?
      && source.releaseManifest(r.tag).value.candidateId == source.index.releases[r.tag].candidateId
      && source.releaseManifest(r.tag).value.classification == Some(r.classification)
  {
    SelectedTag(source, StableMode);
  }

  /** What promotion recorded last is what the stable mode resolves from then on, until the next step. */
  lemma PromotedIsResolved(inputs: seq<Input>, tag: Tag, candidateId: string, digest: string, at: string,
                           source: Source, current: string, contractSet: Option<string>)
    requires var before := After(EMPTY, inputs); Update(before, Promote(tag, candidateId, digest, at)).Success?
    requires source.index == After(EMPTY, inputs + [Promote(tag, candidateId, digest, at)])
    requires Resolve(source, StableMode, current, contractSet).Success?
    ensures var r := Resolve(source, StableMode, current, contractSet).value; r.tag == tag && r.manifestDigest == digest
  {
    var all := inputs + [Promote(tag, candidateId, digest, at)];
    assert all[..|all| - 1] == inputs;
    StableResolvesProtected(source, current, contractSet);
  }
}
