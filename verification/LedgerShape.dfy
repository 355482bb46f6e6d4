/**
 What the consumer ledger's producer and verifier accept, said of the recorded values alone:
 which gates a classification needs, what each result must show, and how digests go with results.
 */
module LedgerShape {
  import opened Wrappers
  import opened Ordering
  import opened ReleaseTags
  import opened ConsumerLedger

  // ---- Gates ---------------------------------------------------------------------------

  /** A gate that is not for every candidate is needed as soon as the contract changed at all. */
  predicate Needed(g: GateConfig, classification: string) {
    g.always || classification != "no-impact"
  }

  /** The last of the needed gates listed for the repository is at `i`. */
  predicate GateAt(config: seq<GateConfig>, classification: string, repository: string, i: nat) {
    && i < |config| && config[i].repository == repository && Needed(config[i], classification)
    && forall j | i < j < |config| && config[j].repository == repository :: !Needed(config[j], classification)
  }

  ghost predicate GateFor(config: seq<GateConfig>, classification: string, repository: string, g: GateConfig) {
    exists i: nat :: GateAt(config, classification, repository, i) && config[i] == g
  }

  lemma {:induction false} RequiredExactly(config: seq<GateConfig>, classification: string, g: GateConfig)
    ensures g in Required(config, classification) <==> g in config && Needed(g, classification)
  {
    if config != [] {
      var front, last := config[..|config| - 1], config[|config| - 1];
      assert config == front + [last];
      RequiredExactly(front, classification, g);
    }
  }

  lemma GateForStep(front: seq<GateConfig>, last: GateConfig, classification: string, repository: string,
                    g: GateConfig)
    ensures GateFor(front + [last], classification, repository, g) <==>
              if last.repository == repository && Needed(last, classification) then last == g
              else GateFor(front, classification, repository, g)
  {
    var config := front + [last];
    if last.repository == repository && Needed(last, classification) {
      assert GateAt(config, classification, repository, |front|);
    } else {
      if i: nat :| GateAt(config, classification, repository, i) && config[i] == g {
        forall j | i < j < |front| && front[j].repository == repository ensures !Needed(front[j], classification) {
          assert config[j] == front[j];
        }
        assert GateAt(front, classification, repository, i);
      }
      if i: nat :| GateAt(front, classification, repository, i) && front[i] == g {
        assert GateAt(config, classification, repository, i);
      }
    }
  }

  /** The gate a result of this repository is held to: the last needed one listed for it. */
  lemma {:induction false} ExpectedGateExactly(config: seq<GateConfig>, classification: string, repository: string,
                                              g: GateConfig)
    ensures var gates := ExpectedGates(Required(config, classification));
      repository in gates && gates[repository] == g <==> GateFor(config, classification, repository, g)
  {
    if config != [] {
      var front, last := config[..|config| - 1], config[|config| - 1];
      assert config == front + [last];
      ExpectedGateExactly(front, classification, repository, g);
      GateForStep(front, last, classification, repository, g);
      var required := Required(front, classification);
      if Needed(last, classification) { assert (required + [last])[..|required|] == required; }
    }
  }

  // ---- One result ----------------------------------------------------------------------

  lemma CommitExactly(s: string)
    ensures IsCommit(s) <==> LowerHex(s, 40)
  {
    forall i | 0 <= i < |s| ensures s[i] in s && (IsDigit(s[i]) || 'a' <= s[i] <= 'f' <==> s[i] in "0123456789abcdef") {
      HexDigits(s[i]);
    }
  }

  /** The result is a passing run of the gate's workflow on this candidate. */
  predicate PassedGate(r: GateResult, g: GateConfig, candidateId: string, manifest: string) {
    && r.repository == g.repository && r.workflowPath == g.workflowPath
    && r.candidateId == candidateId && r.manifest == manifest
    && r.schemaVersion == "1" && r.verdict == "passed" && r.checksListed
    && 1 <= r.runId < 0x20_0000_0000_0000 && LowerHex(r.commit, 40)
    && match (r.startedAt, r.completedAt)
       case (Some(start), Some(end)) => start <= end
       case _ => false
  }

  /** `r` is the passing result of the gate expected for its repository. */
  ghost predicate Covers(r: GateResult, config: seq<GateConfig>, expected: Metadata) {
    exists g :: GateFor(config, expected.classification, r.repository, g)
                && PassedGate(r, g, expected.candidateId, expected.manifest)
  }

  lemma GateOkExactly(r: GateResult, config: seq<GateConfig>, expected: Metadata)
    ensures GateOk(r, ExpectedGates(Required(config, expected.classification)), expected)
            <==> Covers(r, config, expected)
  {
    var gates := ExpectedGates(Required(config, expected.classification));
    CommitExactly(r.commit);
    if GateOk(r, gates, expected) {
      ExpectedGateExactly(config, expected.classification, r.repository, gates[r.repository]);
      assert PassedGate(r, gates[r.repository], expected.candidateId, expected.manifest);
    }
    if g :| GateFor(config, expected.classification, r.repository, g)
            && PassedGate(r, g, expected.candidateId, expected.manifest) {
      ExpectedGateExactly(config, expected.classification, r.repository, g);
    }
  }

  // ---- Digests -------------------------------------------------------------------------

  predicate SameRun(d: Digest, r: GateResult) {
    d.repository == r.repository && d.runId == r.runId
  }

  /** The digest at `i` is the one of the result at `k`. */
  predicate Pair(ds: seq<Digest>, gs: seq<GateResult>, i: nat, k: nat) {
    i < |ds| && k < |gs| && SameRun(ds[i], gs[k])
  }

  ghost predicate HasResult(ds: seq<Digest>, gs: seq<GateResult>, i: nat) {
    exists k: nat :: Pair(ds, gs, i, k)
  }

  ghost predicate HasDigest(ds: seq<Digest>, gs: seq<GateResult>, k: nat) {
    exists i: nat :: Pair(ds, gs, i, k)
  }

  /** Each digest is of exactly one result, and each result has exactly one digest. */
  ghost predicate Paired(ds: seq<Digest>, gs: seq<GateResult>) {
    && (forall i: nat | i < |ds| :: HasResult(ds, gs, i))
    && (forall k: nat | k < |gs| :: HasDigest(ds, gs, k))
    && (forall i: nat, j: nat, k: nat :: Pair(ds, gs, i, k) && Pair(ds, gs, j, k) ==> i == j)
    && forall i: nat, k: nat, m: nat :: Pair(ds, gs, i, k) && Pair(ds, gs, i, m) ==> k == m
  }

  predicate ProperDigest(d: Digest) {
    1 <= d.runId < 0x20_0000_0000_0000 && LowerHex(d.sha, 64)
  }

  lemma SameRunExactly(d: Digest, r: GateResult)
    ensures SameRun(d, r) <==> DigestKey(d) == ResultKey(r)
  {
    if DigestKey(d) == ResultKey(r) { RunKeyInjective(d.repository, d.runId, r.repository, r.runId); }
  }

  lemma PairExactly(ds: seq<Digest>, gs: seq<GateResult>, i: nat, k: nat)
    requires i < |ds| && k < |gs|
    ensures Pair(ds, gs, i, k) <==> DigestKey(ds[i]) == ResultKey(gs[k])
  {
    SameRunExactly(ds[i], gs[k]);
  }

  lemma PairedExactly(ds: seq<Digest>, gs: seq<GateResult>)
    ensures Paired(ds, gs) <==>
              Apart(DigestKey, ds) && Apart(ResultKey, gs) && Image(DigestKey, ds) == Image(ResultKey, gs)
  {
    hide Paired;
    if Paired(ds, gs) { PairedApart(ds, gs); PairedImages(ds, gs); }
    if Apart(DigestKey, ds) && Apart(ResultKey, gs) && Image(DigestKey, ds) == Image(ResultKey, gs) {
      ImagesPair(ds, gs);
    }
  }

  lemma PairedApart(ds: seq<Digest>, gs: seq<GateResult>)
    requires Paired(ds, gs)
    ensures Apart(DigestKey, ds) && Apart(ResultKey, gs)
  {
    hide DigestKey, ResultKey, Pair;
    forall i: nat, j: nat | i < j < |ds| ensures DigestKey(ds[i]) != DigestKey(ds[j]) {
      assert HasResult(ds, gs, i);
      var k: nat :| Pair(ds, gs, i, k);
      PairInRange(ds, gs, i, k);
      PairExactly(ds, gs, i, k);
      PairExactly(ds, gs, j, k);
    }
    forall k: nat, m: nat | k < m < |gs| ensures ResultKey(gs[k]) != ResultKey(gs[m]) {
      assert HasDigest(ds, gs, k);
      var i: nat :| Pair(ds, gs, i, k);
      PairInRange(ds, gs, i, k);
      PairExactly(ds, gs, i, k);
      PairExactly(ds, gs, i, m);
    }
  }

  lemma PairInRange(ds: seq<Digest>, gs: seq<GateResult>, i: nat, k: nat)
    requires Pair(ds, gs, i, k)
    ensures i < |ds| && k < |gs|
  {
  }

  lemma PairedImages(ds: seq<Digest>, gs: seq<GateResult>)
    requires Paired(ds, gs)
    ensures Image(DigestKey, ds) == Image(ResultKey, gs)
  {
    hide DigestKey, ResultKey, Pair;
    forall x | x in Image(DigestKey, ds) ensures x in Image(ResultKey, gs) {
      var i: nat :| i < |ds| && DigestKey(ds[i]) == x;
      assert HasResult(ds, gs, i);
      var k: nat :| Pair(ds, gs, i, k);
      PairInRange(ds, gs, i, k);
      PairExactly(ds, gs, i, k);
    }
    forall x | x in Image(ResultKey, gs) ensures x in Image(DigestKey, ds) {
      var k: nat :| k < |gs| && ResultKey(gs[k]) == x;
      assert HasDigest(ds, gs, k);
      var i: nat :| Pair(ds, gs, i, k);
      PairInRange(ds, gs, i, k);
      PairExactly(ds, gs, i, k);
    }
  }

  lemma ImagesPair(ds: seq<Digest>, gs: seq<GateResult>)
    requires Apart(DigestKey, ds) && Apart(ResultKey, gs) && Image(DigestKey, ds) == Image(ResultKey, gs)
    ensures Paired(ds, gs)
  {
    hide DigestKey, ResultKey, Pair;
    forall i: nat | i < |ds| ensures HasResult(ds, gs, i) {
      assert DigestKey(ds[i]) in Image(ResultKey, gs);
      var k: nat :| k < |gs| && ResultKey(gs[k]) == DigestKey(ds[i]);
      PairExactly(ds, gs, i, k);
    }
    forall k: nat | k < |gs| ensures HasDigest(ds, gs, k) {
      assert ResultKey(gs[k]) in Image(DigestKey, ds);
      var i: nat :| i < |ds| && ResultKey(gs[k]) == DigestKey(ds[i]);
      PairExactly(ds, gs, i, k);
    }
    forall i: nat, j: nat, k: nat | Pair(ds, gs, i, k) && Pair(ds, gs, j, k) ensures i == j {
      PairInRange(ds, gs, i, k);
      PairInRange(ds, gs, j, k);
      PairExactly(ds, gs, i, k);
      PairExactly(ds, gs, j, k);
    }
    forall i: nat, k: nat, m: nat | Pair(ds, gs, i, k) && Pair(ds, gs, i, m) ensures k == m {
      PairInRange(ds, gs, i, k);
      PairInRange(ds, gs, i, m);
      PairExactly(ds, gs, i, k);
      PairExactly(ds, gs, i, m);
    }
  }

  // ---- The verifier ----------------------------------------------------------------------

  /** One result for each repository that has a needed gate, in any order, and no other. */
  ghost predicate CoversAll(gs: seq<GateResult>, config: seq<GateConfig>, expected: Metadata) {
    && (forall i | 0 <= i < |gs| :: Covers(gs[i], config, expected))
    && (forall i, j | 0 <= i < j < |gs| :: gs[i].repository != gs[j].repository)
    && forall g | g in config && Needed(g, expected.classification) ::
         exists i | 0 <= i < |gs| :: gs[i].repository == g.repository
  }

  lemma CoverExactlyAll(gs: seq<GateResult>, config: seq<GateConfig>, expected: Metadata)
    ensures CoverExactly(gs, expected, config) <==> CoversAll(gs, config, expected)
  {
    hide GateOk, Covers, ExpectedGates, Required;
    var required := Required(config, expected.classification);
    var gates := ExpectedGates(required);
    forall r: GateResult ensures GateOk(r, gates, expected) <==> Covers(r, config, expected) {
      GateOkExactly(r, config, expected);
    }
    forall g ensures g in required <==> g in config && Needed(g, expected.classification) {
      RequiredExactly(config, expected.classification, g);
    }
    forall x ensures x in gates <==> exists g :: g in required && g.repository == x {
      ExpectedGatesOf(required, x);
    }
    if CoverExactly(gs, expected, config) {
      forall g | g in config && Needed(g, expected.classification)
        ensures exists i | 0 <= i < |gs| :: gs[i].repository == g.repository
      {
        assert g.repository in Image(RepositoryOf, gs);
      }
    }
    if CoversAll(gs, config, expected) { AllAreCovered(gs, config, expected); }
  }

  lemma AllAreCovered(gs: seq<GateResult>, config: seq<GateConfig>, expected: Metadata)
    requires CoversAll(gs, config, expected)
    ensures Apart(RepositoryOf, gs)
    ensures Image(RepositoryOf, gs) == ExpectedGates(Required(config, expected.classification)).Keys
  {
    hide Covers, ExpectedGates, Required;
    var required := Required(config, expected.classification);
    var gates := ExpectedGates(required);
    forall x | x in gates ensures x in Image(RepositoryOf, gs) {
      ExpectedGatesOf(required, x);
      var g :| g in required && g.repository == x;
      RequiredExactly(config, expected.classification, g);
      var i :| 0 <= i < |gs| && gs[i].repository == g.repository;
      assert RepositoryOf(gs[i]) == x;
    }
    forall x | x in Image(RepositoryOf, gs) ensures x in gates {
      var i :| 0 <= i < |gs| && RepositoryOf(gs[i]) == x;
      GateOkExactly(gs[i], config, expected);
      KnownGate(gs[i], gates, expected);
    }
  }

  lemma KnownGate(r: GateResult, gates: map<string, GateConfig>, expected: Metadata)
    requires GateOk(r, gates, expected)
    ensures r.repository in gates
  {
  }

  /** The ledger is about this candidate, and says it passed. */
  predicate Names(l: Ledger, expected: Metadata) {
    && l.schemaVersion == "1" && l.verdict == "passed"
    && l.candidateId == expected.candidateId && l.manifest == expected.manifest
    && l.classification == expected.classification
    && (l.classification == "no-impact" || l.classification == "additive" || l.classification == "breaking"
        || l.classification == "manual-review")
  }

  /**
   A ledger is accepted exactly when it names the candidate, its results are the passing ones of the
   needed gates, and its digests are well formed and go one to one with the results.
   */
  lemma AcceptedExactly(l: Ledger, expected: Metadata, config: seq<GateConfig>)
    ensures Accepts(l, expected, config) <==>
              && Names(l, expected) && CoversAll(l.gates, config, expected)
              && (forall i | 0 <= i < |l.digests| :: ProperDigest(l.digests[i])) && Paired(l.digests, l.gates)
  {
    hide GatesOk, CoversAll, Paired, ProperDigest, DigestsOk;
    CoverCounts(l.gates, expected, config);
    CoverExactlyAll(l.gates, config, expected);
    assert HeaderOk(l, expected) <==> Names(l, expected);
    if CoversAll(l.gates, config, expected) {
      ResultsApart(l.gates, config, expected);
      DigestsPaired(l.digests, l.gates);
    }
  }

  lemma ResultsApart(gs: seq<GateResult>, config: seq<GateConfig>, expected: Metadata)
    requires CoversAll(gs, config, expected)
    ensures Apart(ResultKey, gs)
  {
    hide Covers, RunKey;
    forall k, m | 0 <= k < m < |gs| ensures ResultKey(gs[k]) != ResultKey(gs[m]) {
      if ResultKey(gs[k]) == ResultKey(gs[m]) {
        RunKeyInjective(gs[k].repository, gs[k].runId, gs[m].repository, gs[m].runId);
      }
    }
  }

  lemma DigestsPaired(ds: seq<Digest>, gs: seq<GateResult>)
    requires Apart(ResultKey, gs)
    ensures |ds| == |gs| && DigestsOk(ds, gs) <==>
              (forall i | 0 <= i < |ds| :: ProperDigest(ds[i])) && Paired(ds, gs)
  {
    hide RunKey, ValidDigest, ProperDigest, Paired;
    forall d: Digest ensures ValidDigest(d) <==> ProperDigest(d) { ProperDigestExactly(d); }
    PairedExactly(ds, gs);
    MatchesExactly(ds, gs);
    assert (forall i, j | 0 <= i < j < |ds| :: DigestKey(ds[i]) != DigestKey(ds[j])) <==> Apart(DigestKey, ds);
    if Apart(DigestKey, ds) {
      ApartExactly(DigestKey, ds);
      ApartExactly(ResultKey, gs);
      if Image(DigestKey, ds) <= Image(ResultKey, gs) { Onto(DigestKey, ds, Image(ResultKey, gs)); }
    }
  }

  lemma ProperDigestExactly(d: Digest)
    ensures ValidDigest(d) <==> ProperDigest(d)
  {
    ShaExactly(d.sha);
  }

  lemma MatchesExactly(ds: seq<Digest>, gs: seq<GateResult>)
    ensures (forall i | 0 <= i < |ds| :: Matches(ds[i], gs)) <==> Image(DigestKey, ds) <= Image(ResultKey, gs)
  {
    hide DigestKey, ResultKey;
    forall i | 0 <= i < |ds| ensures Matches(ds[i], gs) <==> DigestKey(ds[i]) in Image(ResultKey, gs) {
      OneMatch(ds[i], gs);
    }
  }

  lemma OneMatch(d: Digest, gs: seq<GateResult>)
    ensures Matches(d, gs) <==> DigestKey(d) in Image(ResultKey, gs)
  {
    hide RunKey;
    if Matches(d, gs) {
      var k :| 0 <= k < |gs| && gs[k].repository == d.repository && gs[k].runId == d.runId;
      assert ResultKey(gs[k]) == DigestKey(d);
    }
    if DigestKey(d) in Image(ResultKey, gs) {
      var r :| r in gs && ResultKey(r) == DigestKey(d);
      RunKeyInjective(r.repository, r.runId, d.repository, d.runId);
    }
  }

  // ---- The producer ------------------------------------------------------------------------

  /**
   A ledger is built exactly from results that go one to one with well-formed digests, for a
   candidate named by two digests.
   */
  lemma BuiltExactly(collate: (string, string) -> bool, results: seq<GateResult>, candidateId: string,
                     manifest: string, classification: string, digests: seq<Digest>)
    ensures Aggregate(collate, results, candidateId, manifest, classification, digests).Success? <==>
              && LowerHex(candidateId, 64) && LowerHex(manifest, 64) && results != []
              && (forall i | 0 <= i < |digests| :: ProperDigest(digests[i])) && Paired(digests, results)
  {
    hide ValidDigest, ProperDigest, Paired, DigestKey, ResultKey;
    ShaExactly(candidateId);
    ShaExactly(manifest);
    forall d: Digest ensures ValidDigest(d) <==> ProperDigest(d) { ProperDigestExactly(d); }
    PairedExactly(digests, results);
    KeysAgreeExactly(results, digests);
    if Apart(DigestKey, digests) && Apart(ResultKey, results) && Image(DigestKey, digests) == Image(ResultKey, results) {
      PairsCount(results, digests);
    }
  }

  lemma KeysAgreeExactly(results: seq<GateResult>, digests: seq<Digest>)
    ensures |digests| == |results| && KeysAgree(results, digests) <==>
              |digests| == |results| && Apart(DigestKey, digests) && Apart(ResultKey, results)
              && Image(DigestKey, digests) == Image(ResultKey, results)
  {
    hide DigestKey, ResultKey;
    var r, d := Image(ResultKey, results), Image(DigestKey, digests);
    assert r == set x | x in results :: ResultKey(x);
    assert d == set x | x in digests :: DigestKey(x);
    ApartExactly(DigestKey, digests);
    ApartExactly(ResultKey, results);
    if r <= d { SubsetSize(r, d); }
  }

  lemma PairsCount(results: seq<GateResult>, digests: seq<Digest>)
    requires Apart(DigestKey, digests) && Apart(ResultKey, results)
    requires Image(DigestKey, digests) == Image(ResultKey, results)
    ensures |digests| == |results|
  {
    ApartExactly(DigestKey, digests);
    ApartExactly(ResultKey, results);
  }

  lemma ByRepositorySorted(collate: (string, string) -> bool, results: seq<GateResult>, digests: seq<Digest>)
    requires TotalPreorder(collate)
    ensures var gs := Sort((a, b) => ByRepository(collate, a, b), results);
      forall i, j | 0 <= i < j < |gs| :: collate(gs[i].repository, gs[j].repository)
    ensures var ds := Sort((a, b) => DigestByRepository(collate, a, b), digests);
      forall i, j | 0 <= i < j < |ds| :: collate(ds[i].repository, ds[j].repository)
  {
    SortSorted((a, b) => ByRepository(collate, a, b), results);
    SortSorted((a, b) => DigestByRepository(collate, a, b), digests);
  }

  /** It holds exactly these results and digests, each list by repository, and says the candidate passed. */
  lemma BuiltLedger(collate: (string, string) -> bool, results: seq<GateResult>, candidateId: string,
                    manifest: string, classification: string, digests: seq<Digest>)
    requires TotalPreorder(collate)
    requires Aggregate(collate, results, candidateId, manifest, classification, digests).Success?
    ensures var l := Aggregate(collate, results, candidateId, manifest, classification, digests).value;
      && l.schemaVersion == "1" && l.verdict == "passed" && l.candidateId == candidateId && l.manifest == manifest
      && l.classification == classification
      && multiset(l.gates) == multiset(results) && multiset(l.digests) == multiset(digests)
      && (forall i, j | 0 <= i < j < |l.gates| :: collate(l.gates[i].repository, l.gates[j].repository))
      && forall i, j | 0 <= i < j < |l.digests| :: collate(l.digests[i].repository, l.digests[j].repository)
  {
    hide KeysAgree, IsSha, ValidDigest, ByRepository, DigestByRepository, Sort, TotalPreorder;
    SortedGates(collate, results);
    SortedDigests(collate, digests);
    ByRepositorySorted(collate, results, digests);
  }
}
