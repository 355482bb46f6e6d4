/**
 The protected release index (tools/update-release-index.ts): promoting a release and
 superseding a defective one, and what holds over every run of such steps.
 */
module ReleaseIndex {
  import opened Wrappers
  import opened ReleaseTags

  type Tag = string

  datatype Status = Released | Superseded

  datatype Record = Record(status: Status, digest: string, candidateId: string,
                           supersededBy: Option<Tag>, reason: Option<string>)

  datatype Stable = Stable(tag: Option<Tag>, digest: Option<string>, updatedAt: Option<string>)

  datatype Index = Index(stable: Stable, releases: map<Tag, Record>)

  const EMPTY := Index(Stable(None, None, None), map[])

  datatype Input =
    | Promote(tag: Tag, candidateId: string, digest: string, updatedAt: string)
    | Supersede(defective: Tag, replacement: Tag, defectiveDigest: string, replacementDigest: string,
                reason: string, updatedAt: string)

  datatype Refusal =
    | BadTag | BadDigest | BadCandidateId | StableNotReleased | StableDigestDiffers | EmptyStableCarriesData
    | AlreadySuperseded | Conflict | SameRelease | NoReason | DefectiveNotReleased | ReplacementNotReleased
    | DigestsNotProtected

  /** The stable release is a released entry with its digest, or there is none. */
  function AssertIndexes(index: Index): Option<Refusal> {
    var stable := index.stable;
    match stable.tag
    case None => if stable.digest.Some? || stable.updatedAt.Some? then Some(EmptyStableCarriesData) else None
    case Some(tag) =>
      if !IsTag(tag) then Some(BadTag)
      else if !IsSha(stable.digest.GetOr("")) then Some(BadDigest)
      else if tag !in index.releases || index.releases[tag].status != Released then Some(StableNotReleased)
      else if Some(index.releases[tag].digest) != stable.digest then Some(StableDigestDiffers)
      else None
  }

  function Promoted(index: Index, input: Input): Result<Index, Refusal>
    requires input.Promote?
  {
    var Promote(tag, candidateId, digest, updatedAt) := input;
    if !IsTag(tag) then Failure(BadTag)
    else if !IsSha(candidateId) then Failure(BadCandidateId)
    else if !IsSha(digest) then Failure(BadDigest)
    else if tag in index.releases && index.releases[tag].status == Superseded then Failure(AlreadySuperseded)
    else if tag in index.releases
            && (index.releases[tag].digest != digest || index.releases[tag].candidateId != candidateId)
    then Failure(Conflict)
    else
      Success(Index(Stable(Some(tag), Some(digest), Some(updatedAt)),
                    index.releases[tag := Record(Released, digest, candidateId, None, None)]))
  }

  function Replaced(index: Index, input: Input): Result<Index, Refusal>
    requires input.Supersede?
  {
    var Supersede(defective, replacement, defectiveDigest, replacementDigest, reason, updatedAt) := input;
    var releases := index.releases;
    if !IsTag(defective) || !IsTag(replacement) then Failure(BadTag)
    else if defective == replacement then Failure(SameRelease)
    else if Trim(reason) == "" then Failure(NoReason)
    else if !IsSha(defectiveDigest) || !IsSha(replacementDigest) then Failure(BadDigest)
    else if defective !in releases || releases[defective].status != Released then Failure(DefectiveNotReleased)
    else if replacement !in releases || releases[replacement].status != Released then Failure(ReplacementNotReleased)
    else if releases[defective].digest != defectiveDigest || releases[replacement].digest != replacementDigest
    then Failure(DigestsNotProtected)
    else
      Success(Index(
        Stable(Some(replacement), Some(releases[replacement].digest), Some(updatedAt)),
        releases[defective := releases[defective].(status := Superseded, supersededBy := Some(replacement),
                                                   reason := Some(Trim(reason)))]))
  }

  function Update(index: Index, input: Input): Result<Index, Refusal> {
    match AssertIndexes(index)
    case Some(refusal) => Failure(refusal)
    case None => if input.Promote? then Promoted(index, input) else Replaced(index, input)
  }

  /** The index after a run: a refused step leaves it as it was. */
  function After(start: Index, inputs: seq<Input>): Index
    decreases |inputs|
  {
    if inputs == [] then start
    else
      var before := After(start, inputs[..|inputs| - 1]);
      match Update(before, inputs[|inputs| - 1])
      case Success(index) => index
      case Failure(_) => before
  }

  lemma {:induction false} AfterConcat(start: Index, xs: seq<Input>, ys: seq<Input>)
    ensures After(start, xs + ys) == After(After(start, xs), ys)
    decreases |ys|
  {
    if ys == [] {
      assert xs + ys == xs;
    } else {
      AfterConcat(start, xs, ys[..|ys| - 1]);
      assert (xs + ys)[..|xs + ys| - 1] == xs + ys[..|ys| - 1];
    }
  }

  // ---- The order of supersessions ------------------------------------------------------

  ghost predicate IsSuperseded(index: Index, tag: Tag) {
    tag in index.releases && index.releases[tag].status == Superseded
  }

  ghost predicate IsReleased(index: Index, tag: Tag) {
    tag in index.releases && index.releases[tag].status == Released
  }

  /** What an entry names as its replacement. */
  function Replacement(index: Index, tag: Tag): Option<Tag> {
    if tag in index.releases then index.releases[tag].supersededBy else None
  }

  ghost predicate Later(order: seq<Tag>, i: nat, tag: Tag) {
    exists j | i < j < |order| :: order[j] == tag
  }

  /** The replacement of an entry is released, or was itself superseded later. */
  ghost predicate Onward(index: Index, order: seq<Tag>, i: nat)
    requires i < |order|
  {
    && Replacement(index, order[i]).Some?
    && var next := Replacement(index, order[i]).value;
       IsReleased(index, next) || Later(order, i, next)
  }

  /** `order` lists the superseded tags in the order they were superseded. */
  ghost predicate Ordered(index: Index, order: seq<Tag>) {
    && (forall t :: IsSuperseded(index, t) <==> t in order)
    && (forall i, j | 0 <= i < j < |order| :: order[i] != order[j])
    && forall i | 0 <= i < |order| :: Onward(index, order, i)
  }

  lemma PromoteKeepsOrder(index: Index, input: Input, order: seq<Tag>)
    requires input.Promote? && Ordered(index, order) && Promoted(index, input).Success?
    ensures Ordered(Promoted(index, input).value, order)
  {
    var next := Promoted(index, input).value;
    forall t ensures IsSuperseded(next, t) <==> t in order {
      assert IsSuperseded(next, t) <==> IsSuperseded(index, t);
    }
    forall i | 0 <= i < |order| ensures Onward(next, order, i) {
      assert Onward(index, order, i) && IsSuperseded(index, order[i]);
    }
  }

  lemma SupersedeKeepsOrder(index: Index, input: Input, order: seq<Tag>)
    requires input.Supersede? && Ordered(index, order) && Replaced(index, input).Success?
    ensures Ordered(Replaced(index, input).value, order + [input.defective])
  {
    var next, more := Replaced(index, input).value, order + [input.defective];
    assert !IsSuperseded(index, input.defective);
    forall t ensures IsSuperseded(next, t) <==> t in more {
      assert IsSuperseded(next, t) <==> IsSuperseded(index, t) || t == input.defective;
    }
    forall i | 0 <= i < |more| ensures Onward(next, more, i) {
      if i < |order| { OnwardStays(index, input, order, i); }
    }
  }

  lemma OnwardStays(index: Index, input: Input, order: seq<Tag>, i: nat)
    requires input.Supersede? && Replaced(index, input).Success? && i < |order|
    requires IsSuperseded(index, order[i]) && Onward(index, order, i)
    ensures Onward(Replaced(index, input).value, order + [input.defective], i)
  {
    var more, target := order + [input.defective], Replacement(index, order[i]).value;
    if target == input.defective {
      assert more[|order|] == target;
    } else if !IsReleased(index, target) {
      var j :| i < j < |order| && order[j] == target;
      assert more[j] == target;
    }
  }

  lemma {:induction false} RunKeepsOrder(inputs: seq<Input>) returns (order: seq<Tag>)
    ensures Ordered(After(EMPTY, inputs), order)
  {
    if inputs == [] {
      order := [];
    } else {
      var last := inputs[|inputs| - 1];
      order := RunKeepsOrder(inputs[..|inputs| - 1]);
      var before := After(EMPTY, inputs[..|inputs| - 1]);
      if Update(before, last).Success? {
        if last.Promote? {
          PromoteKeepsOrder(before, last, order);
        } else {
          SupersedeKeepsOrder(before, last, order);
          order := order + [last.defective];
        }
      }
    }
  }

  // ---- Safety over runs ------------------------------------------------------------------

  /** The index is consistent after every run. */
  lemma {:induction false} AlwaysConsistent(inputs: seq<Input>)
    ensures AssertIndexes(After(EMPTY, inputs)) == None
  {
    if inputs != [] {
      AlwaysConsistent(inputs[..|inputs| - 1]);
    }
  }

  /** What no step may change in an entry, and that a superseded entry is final. */
  ghost predicate Keeps(before: Index, after: Index) {
    forall t | t in before.releases ::
      && t in after.releases
      && after.releases[t].digest == before.releases[t].digest
      && after.releases[t].candidateId == before.releases[t].candidateId
      && (before.releases[t].status == Superseded ==> after.releases[t] == before.releases[t])
  }

  lemma {:induction false} EntriesAreKept(start: Index, inputs: seq<Input>)
    ensures Keeps(start, After(start, inputs))
    decreases |inputs|
  {
    if inputs != [] {
      EntriesAreKept(start, inputs[..|inputs| - 1]);
    }
  }

  /** Recorded digests and candidate ids never change, and a supersession is never undone. */
  lemma RecordsAreImmutable(earlier: seq<Input>, later: seq<Input>)
    ensures Keeps(After(EMPTY, earlier), After(EMPTY, earlier + later))
  {
    AfterConcat(EMPTY, earlier, later);
    EntriesAreKept(After(EMPTY, earlier), later);
  }

  /** A walk along `supersededBy` that ends at a released entry and meets no tag twice. */
  ghost predicate LeadsToRelease(index: Index, chain: seq<Tag>) {
    && chain != []
    && (forall i, j | 0 <= i < j < |chain| :: chain[i] != chain[j])
    && (forall i | 0 <= i < |chain| - 1 ::
          IsSuperseded(index, chain[i]) && Replacement(index, chain[i]) == Some(chain[i + 1]))
    && IsReleased(index, chain[|chain| - 1])
  }

  ghost predicate FromOrder(order: seq<Tag>, i: nat, tag: Tag) {
    exists j | i <= j < |order| :: order[j] == tag
  }

  lemma {:induction false} FollowOrder(index: Index, order: seq<Tag>, i: nat) returns (chain: seq<Tag>)
    requires Ordered(index, order) && i < |order|
    ensures LeadsToRelease(index, chain) && chain[0] == order[i]
    ensures forall k | 0 <= k < |chain| - 1 :: FromOrder(order, i, chain[k])
    decreases |order| - i
  {
    assert IsSuperseded(index, order[i]) && Onward(index, order, i);
    var next := Replacement(index, order[i]).value;
    if IsReleased(index, next) {
      chain := [order[i], next];
    } else {
      var j :| i < j < |order| && order[j] == next;
      var rest := FollowOrder(index, order, j);
      chain := Prepended(index, order, i, j, rest);
    }
  }

  lemma Prepended(index: Index, order: seq<Tag>, i: nat, j: nat, rest: seq<Tag>) returns (chain: seq<Tag>)
    requires Ordered(index, order) && i < j < |order| && LeadsToRelease(index, rest) && rest[0] == order[j]
    requires forall k | 0 <= k < |rest| - 1 :: FromOrder(order, j, rest[k])
    requires Replacement(index, order[i]) == Some(order[j])
    ensures chain == [order[i]] + rest && LeadsToRelease(index, chain)
    ensures forall k | 0 <= k < |chain| - 1 :: FromOrder(order, i, chain[k])
  {
    chain := [order[i]] + rest;
    assert IsSuperseded(index, order[i]);
    forall k | 0 <= k < |rest| ensures rest[k] != order[i] {
      if k < |rest| - 1 { assert FromOrder(order, j, rest[k]); }
    }
    forall k | 0 <= k < |chain| - 1 ensures FromOrder(order, i, chain[k]) {
      if k > 0 { assert FromOrder(order, j, rest[k - 1]); }
    }
    forall k | 0 <= k < |chain| - 1
      ensures IsSuperseded(index, chain[k]) && Replacement(index, chain[k]) == Some(chain[k + 1])
    {
      if k > 0 { assert IsSuperseded(index, rest[k - 1]) && rest[k - 1 + 1] == chain[k + 1]; }
    }
  }

  /** Where a chain of replacements ends nothing is left to follow. */
  lemma {:induction false} ReleasedIsNotReplaced(inputs: seq<Input>, tag: Tag)
    requires IsReleased(After(EMPTY, inputs), tag)
    ensures Replacement(After(EMPTY, inputs), tag) == None
  {
    if inputs != [] {
      var front := inputs[..|inputs| - 1];
      if IsReleased(After(EMPTY, front), tag) { ReleasedIsNotReplaced(front, tag); }
    }
  }

  /** From every superseded entry the replacements lead, without a cycle, to a released entry. */
  lemma ReplacementsLeadToRelease(inputs: seq<Input>, tag: Tag) returns (chain: seq<Tag>)
    requires IsSuperseded(After(EMPTY, inputs), tag)
    ensures LeadsToRelease(After(EMPTY, inputs), chain) && chain[0] == tag
  {
    var order := RunKeepsOrder(inputs);
    var i :| 0 <= i < |order| && order[i] == tag;
    chain := FollowOrder(After(EMPTY, inputs), order, i);
  }
}
