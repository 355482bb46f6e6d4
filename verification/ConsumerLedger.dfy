/**
 Consumer gates: what one result must show, the ledger built from the results
 (tools/consumer-gate.ts), and the checks of the evidence before a promotion
 (tools/verify-promotion-evidence.ts).
 */
module ConsumerLedger {
  import opened Wrappers
  import opened Ordering
  import opened Decimals
  import opened ReleaseTags

  datatype GateResult = GateResult(schemaVersion: string, repository: string, commit: string, workflowPath: string,
                                   runId: int, candidateId: string, manifest: string, verdict: string,
                                   checksListed: bool, startedAt: Option<int>, completedAt: Option<int>)

  datatype Digest = Digest(repository: string, runId: int, sha: string)

  datatype Ledger = Ledger(schemaVersion: string, candidateId: string, manifest: string, classification: string,
                           verdict: string, gates: seq<GateResult>, digests: seq<Digest>)

  datatype GateConfig = GateConfig(repository: string, workflowPath: string, always: bool)

  datatype Expectation = Expectation(repository: string, workflowPath: string, runId: int, candidateId: string,
                                     manifest: string)

  datatype Metadata = Metadata(candidateId: string, manifest: string, classification: string)

  const MAX_SAFE: int := 0x1F_FFFF_FFFF_FFFF

  const CLASSIFICATIONS: seq<string> := ["no-impact", "additive", "breaking", "manual-review"]

  predicate IsCommit(s: string) {
    |s| == 40 && forall i | 0 <= i < |s| :: IsDigit(s[i]) || 'a' <= s[i] <= 'f'
  }

  predicate IsRunId(n: int) {
    1 <= n <= MAX_SAFE
  }

  /** `verifyConsumerGateResult` accepts. Times are milliseconds, or nothing when they do not parse. */
  predicate VerifiedResult(r: GateResult, e: Expectation) {
    && r.schemaVersion == "1" && r.repository == e.repository && r.workflowPath == e.workflowPath
    && r.runId == e.runId && r.candidateId == e.candidateId && r.manifest == e.manifest
    && r.verdict == "passed" && r.checksListed && IsRunId(r.runId) && IsCommit(r.commit)
    && r.startedAt.Some? && r.completedAt.Some? && r.startedAt.value <= r.completedAt.value
  }

  // ---- Keys ----------------------------------------------------------------------------

  function NumberText(n: int): string {
    if n < 0 then "-" + Decimal(-n) else Decimal(n)
  }

  function RunKey(repository: string, runId: int): string {
    repository + ":" + NumberText(runId)
  }

  lemma NumberTextInjective(a: int, b: int)
    requires NumberText(a) == NumberText(b)
    ensures a == b
  {
    assert NumberText(a)[0] == NumberText(b)[0];
    if a < 0 && b < 0 {
      assert Decimal(-a) == NumberText(a)[1..] == NumberText(b)[1..] == Decimal(-b);
      DecimalInjective(-a, -b);
    } else if a >= 0 && b >= 0 {
      DecimalInjective(a, b);
    }
  }

  /** The last colon ends the repository, so a key tells repository and run. */
  lemma RunKeyInjective(r: string, m: int, q: string, n: int)
    requires RunKey(r, m) == RunKey(q, n)
    ensures r == q && m == n
  {
    var s, x, y := RunKey(r, m), NumberText(m), NumberText(n);
    var k := if |r| < |q| then |q| else |r|;
    assert s[k] == (":" + x)[k - |r|] && s[k] == (":" + y)[k - |q|];
    assert r == s[..|r|] && q == s[..|q|];
    assert x == s[|r| + 1..] && y == s[|q| + 1..];
    NumberTextInjective(m, n);
  }

  function DigestKey(d: Digest): string {
    RunKey(d.repository, d.runId)
  }

  function ResultKey(r: GateResult): string {
    RunKey(r.repository, r.runId)
  }

  function RepositoryOf(r: GateResult): string {
    r.repository
  }

  predicate ValidDigest(d: Digest) {
    IsRunId(d.runId) && IsSha(d.sha)
  }

  // ---- The producer ----------------------------------------------------------------------

  datatype Problem = BadCandidate | NoResults | DigestsMissing | BadDigest | DigestsDiffer

  predicate ByRepository(collate: (string, string) -> bool, a: GateResult, b: GateResult) {
    collate(a.repository, b.repository)
  }

  predicate DigestByRepository(collate: (string, string) -> bool, a: Digest, b: Digest) {
    collate(a.repository, b.repository)
  }

  /** The keys of the digests are the keys of the results, each once. */
  predicate KeysAgree(results: seq<GateResult>, digests: seq<Digest>) {
    var r, d := set x | x in results :: ResultKey(x), set x | x in digests :: DigestKey(x);
    |r| == |results| && |d| == |digests| && |r| == |d| && r <= d
  }

  function Aggregate(collate: (string, string) -> bool, results: seq<GateResult>, candidateId: string,
                     manifest: string, classification: string, digests: seq<Digest>): Result<Ledger, Problem> {
    if !IsSha(candidateId) || !IsSha(manifest) then Failure(BadCandidate)
    else if results == [] then Failure(NoResults)
    else if |digests| != |results| then Failure(DigestsMissing)
    else if exists i | 0 <= i < |digests| :: !ValidDigest(digests[i]) then Failure(BadDigest)
    else if !KeysAgree(results, digests) then Failure(DigestsDiffer)
    else
      Success(Ledger("1", candidateId, manifest, classification, "passed",
                     Sort((a, b) => ByRepository(collate, a, b), results),
                     Sort((a, b) => DigestByRepository(collate, a, b), digests)))
  }

  // ---- The verifier ----------------------------------------------------------------------

  function Required(config: seq<GateConfig>, classification: string): seq<GateConfig> {
    if config == [] then []
    else
      var front := Required(config[..|config| - 1], classification);
      var last := config[|config| - 1];
      if last.always || classification != "no-impact" then front + [last] else front
  }

  /** The required gates by repository. A repository listed twice keeps its last gate. */
  function ExpectedGates(required: seq<GateConfig>): map<string, GateConfig> {
    if required == [] then map[]
    else
      var last := required[|required| - 1];
      ExpectedGates(required[..|required| - 1])[last.repository := last]
  }

  predicate HeaderOk(l: Ledger, expected: Metadata) {
    && l.schemaVersion == "1" && l.candidateId == expected.candidateId && l.manifest == expected.manifest
    && l.classification == expected.classification && l.verdict == "passed" && l.classification in CLASSIFICATIONS
  }

  predicate GateOk(g: GateResult, gates: map<string, GateConfig>, expected: Metadata) {
    && g.repository in gates
    && VerifiedResult(g, Expectation(gates[g.repository].repository, gates[g.repository].workflowPath, g.runId,
                                     expected.candidateId, expected.manifest))
  }

  ghost predicate GatesOk(gs: seq<GateResult>, gates: map<string, GateConfig>, expected: Metadata) {
    && (forall i | 0 <= i < |gs| :: GateOk(gs[i], gates, expected))
    && forall i, j | 0 <= i < j < |gs| :: gs[i].repository != gs[j].repository
  }

  predicate Matches(d: Digest, gs: seq<GateResult>) {
    exists i | 0 <= i < |gs| :: gs[i].repository == d.repository && gs[i].runId == d.runId
  }

  ghost predicate DigestsOk(ds: seq<Digest>, gs: seq<GateResult>) {
    && (forall i | 0 <= i < |ds| :: ValidDigest(ds[i]) && Matches(ds[i], gs))
    && forall i, j | 0 <= i < j < |ds| ::
         DigestKey(ds[i]) != DigestKey(ds[j])
  }

  ghost predicate Accepts(l: Ledger, expected: Metadata, config: seq<GateConfig>) {
    var gates := ExpectedGates(Required(config, l.classification));
    && HeaderOk(l, expected)
    && |l.gates| == |gates| && GatesOk(l.gates, gates, expected)
    && |l.digests| == |l.gates| && DigestsOk(l.digests, l.gates)
  }

  method RequiredGates(config: seq<GateConfig>, classification: string) returns (gates: map<string, GateConfig>)
    ensures gates == ExpectedGates(Required(config, classification))
  {
    var required: seq<GateConfig> := [];
    gates := map[];
    for i := 0 to |config|
      invariant required == Required(config[..i], classification) && gates == ExpectedGates(required)
    {
      assert config[..i + 1][..i] == config[..i];
      if config[i].always || classification != "no-impact" {
        assert (required + [config[i]])[..|required|] == required;
        required := required + [config[i]];
        gates := gates[config[i].repository := config[i]];
      }
    }
    assert config[..|config|] == config;
  }

  method CheckGates(gs: seq<GateResult>, gates: map<string, GateConfig>, expected: Metadata) returns (ok: bool)
    ensures ok <==> GatesOk(gs, gates, expected)
  {
    var seen: set<string> := {};
    for i := 0 to |gs|
      invariant forall j | 0 <= j < i :: GateOk(gs[j], gates, expected) && gs[j].repository in seen
      invariant forall r | r in seen :: exists j | 0 <= j < i :: gs[j].repository == r
      invariant forall j, k | 0 <= j < k < i :: gs[j].repository != gs[k].repository
    {
      var g := gs[i];
      if g.repository !in gates || g.repository in seen || !GateOk(g, gates, expected) {
        return false;
      }
      seen := seen + {g.repository};
    }
    ok := true;
  }

  method CheckDigests(ds: seq<Digest>, gs: seq<GateResult>) returns (ok: bool)
    ensures ok <==> DigestsOk(ds, gs)
  {
    hide RunKey;
    var keys: set<string> := {};
    for i := 0 to |ds|
      invariant forall j | 0 <= j < i ::
                  ValidDigest(ds[j]) && Matches(ds[j], gs) && DigestKey(ds[j]) in keys
      invariant forall k | k in keys :: exists j | 0 <= j < i :: DigestKey(ds[j]) == k
      invariant forall j, k | 0 <= j < k < i ::
                  DigestKey(ds[j]) != DigestKey(ds[k])
    {
      var key := DigestKey(ds[i]);
      if !ValidDigest(ds[i]) || key in keys || !Matches(ds[i], gs) {
        return false;
      }
      keys := keys + {key};
    }
    ok := true;
  }

  method VerifyConsumerLedger(l: Ledger, expected: Metadata, config: seq<GateConfig>) returns (ok: bool)
    ensures ok <==> Accepts(l, expected, config)
  {
    if !HeaderOk(l, expected) {
      return false;
    }
    var gates := RequiredGates(config, l.classification);
    if |l.gates| != |gates| {
      return false;
    }
    ok := CheckGates(l.gates, gates, expected);
    if !ok || |l.digests| != |l.gates| {
      return false;
    }
    ok := CheckDigests(l.digests, l.gates);
  }

  // ---- An accepted ledger ------------------------------------------------------------------

  lemma {:induction false} ExpectedGatesOf(required: seq<GateConfig>, repository: string)
    ensures repository in ExpectedGates(required) <==> exists g :: g in required && g.repository == repository
    ensures repository in ExpectedGates(required) ==> ExpectedGates(required)[repository].repository == repository
  {
    if required != [] {
      var front, last := required[..|required| - 1], required[|required| - 1];
      assert required == front + [last];
      ExpectedGatesOf(front, repository);
      if g :| g in required && g.repository == repository { assert g in front || g == last; }
      if g :| g in front && g.repository == repository { assert g in required; }
      assert last in required;
    }
  }

  /** The gate results of an accepted ledger are one for each required repository. */
  lemma AcceptedGates(l: Ledger, expected: Metadata, config: seq<GateConfig>)
    requires Accepts(l, expected, config)
    ensures var required := Required(config, l.classification);
      && Apart(RepositoryOf, l.gates)
      && (forall g | g in required :: exists r :: r in l.gates && r.repository == g.repository)
      && forall r | r in l.gates :: exists g :: g in required && g.repository == r.repository
  {
    var required := Required(config, l.classification);
    var gates := ExpectedGates(required);
    forall r | r in l.gates ensures r.repository in gates { assert GatesOk(l.gates, gates, expected); }
    Onto(RepositoryOf, l.gates, gates.Keys);
    forall g | g in required ensures exists r :: r in l.gates && r.repository == g.repository {
      ExpectedGatesOf(required, g.repository);
      assert g.repository in Image(RepositoryOf, l.gates);
    }
    forall r | r in l.gates ensures exists g :: g in required && g.repository == r.repository {
      ExpectedGatesOf(required, r.repository);
    }
  }

  /** Its digests are one for each gate result, of the same repository and run. */
  lemma AcceptedDigests(l: Ledger, expected: Metadata, config: seq<GateConfig>)
    requires Accepts(l, expected, config)
    ensures Apart(DigestKey, l.digests) && |l.digests| == |l.gates|
    ensures forall d | d in l.digests :: exists r :: r in l.gates && r.repository == d.repository && r.runId == d.runId
    ensures forall r | r in l.gates :: exists d :: d in l.digests && d.repository == r.repository && d.runId == r.runId
  {
    hide GatesOk, HeaderOk, RunKey, ValidDigest;
    forall d | d in l.digests ensures exists r :: r in l.gates && r.repository == d.repository && r.runId == d.runId {
      assert DigestsOk(l.digests, l.gates);
      assert Matches(d, l.gates);
    }
    DigestsOnto(l.digests, l.gates);
    forall r | r in l.gates ensures exists d :: d in l.digests && d.repository == r.repository && d.runId == r.runId {
      assert ResultKey(r) in Image(DigestKey, l.digests);
      var d :| d in l.digests && DigestKey(d) == ResultKey(r);
      RunKeyInjective(d.repository, d.runId, r.repository, r.runId);
    }
  }

  lemma DigestsOnto(ds: seq<Digest>, gs: seq<GateResult>)
    requires |ds| == |gs| && Apart(DigestKey, ds)
    requires forall d | d in ds :: exists r :: r in gs && r.repository == d.repository && r.runId == d.runId
    ensures Image(DigestKey, ds) == Image(ResultKey, gs)
  {
    forall k | k in Image(DigestKey, ds) ensures k in Image(ResultKey, gs) {
      var d :| d in ds && DigestKey(d) == k;
      var r :| r in gs && r.repository == d.repository && r.runId == d.runId;
      assert ResultKey(r) == k;
    }
    ApartExactly(DigestKey, ds);
    ApartExactly(ResultKey, gs);
    SubsetSize(Image(DigestKey, ds), Image(ResultKey, gs));
  }

  // ---- Producer and verifier -----------------------------------------------------------------

  /** The results are verified ones for exactly the required repositories, each once. */
  ghost predicate CoverExactly(results: seq<GateResult>, expected: Metadata, config: seq<GateConfig>) {
    var gates := ExpectedGates(Required(config, expected.classification));
    && Apart(RepositoryOf, results) && Image(RepositoryOf, results) == gates.Keys
    && forall r | r in results :: GateOk(r, gates, expected)
  }

  lemma SortedGates(collate: (string, string) -> bool, results: seq<GateResult>)
    ensures multiset(Sort((a, b) => ByRepository(collate, a, b), results)) == multiset(results)
  {
    SortPermutes((a, b) => ByRepository(collate, a, b), results);
  }

  lemma SortedDigests(collate: (string, string) -> bool, digests: seq<Digest>)
    ensures multiset(Sort((a, b) => DigestByRepository(collate, a, b), digests)) == multiset(digests)
  {
    SortPermutes((a, b) => DigestByRepository(collate, a, b), digests);
  }

  lemma CoverCounts(gs: seq<GateResult>, expected: Metadata, config: seq<GateConfig>)
    ensures var gates := ExpectedGates(Required(config, expected.classification));
      |gs| == |gates| && GatesOk(gs, gates, expected) <==> CoverExactly(gs, expected, config)
  {
    hide VerifiedResult, Required, ExpectedGates;
    var gates := ExpectedGates(Required(config, expected.classification));
    assert GatesOk(gs, gates, expected) <==> (forall r | r in gs :: GateOk(r, gates, expected)) && Apart(RepositoryOf, gs);
    if Apart(RepositoryOf, gs) && forall r | r in gs :: GateOk(r, gates, expected) {
      assert Image(RepositoryOf, gs) <= gates.Keys;
      Onto(RepositoryOf, gs, gates.Keys);
    }
  }

  lemma AgreeingDigests(results: seq<GateResult>, digests: seq<Digest>, ds: seq<Digest>, gs: seq<GateResult>)
    requires |digests| == |results| && KeysAgree(results, digests)
    requires forall i | 0 <= i < |digests| :: ValidDigest(digests[i])
    requires multiset(ds) == multiset(digests) && multiset(gs) == multiset(results)
    ensures DigestsOk(ds, gs)
  {
    hide RunKey;
    ApartPermuted(DigestKey, ds, digests);
    ApartPermuted(ResultKey, gs, results);
    assert Image(DigestKey, digests) == set x | x in digests :: DigestKey(x);
    assert Image(ResultKey, results) == set x | x in results :: ResultKey(x);
    ApartExactly(DigestKey, digests);
    SubsetSize(Image(ResultKey, results), Image(DigestKey, digests));
    forall i | 0 <= i < |ds| ensures ValidDigest(ds[i]) && Matches(ds[i], gs) {
      assert ds[i] in digests;
      assert DigestKey(ds[i]) in Image(ResultKey, gs);
      var r :| r in gs && ResultKey(r) == DigestKey(ds[i]);
      RunKeyInjective(r.repository, r.runId, ds[i].repository, ds[i].runId);
    }
  }

  /**
   The verifier accepts a ledger the producer built exactly when its classification is one of the
   four and its results cover the required gates.
   */
  lemma ProducerAcceptedExactly(collate: (string, string) -> bool, results: seq<GateResult>, expected: Metadata,
                                digests: seq<Digest>, config: seq<GateConfig>)
    requires Aggregate(collate, results, expected.candidateId, expected.manifest, expected.classification, digests).Success?
    ensures Accepts(Aggregate(collate, results, expected.candidateId, expected.manifest, expected.classification,
                              digests).value, expected, config)
            <==> expected.classification in CLASSIFICATIONS && CoverExactly(results, expected, config)
  {
    hide KeysAgree, ValidDigest, Required, ExpectedGates, GateOk, DigestsOk;
    var l := Aggregate(collate, results, expected.candidateId, expected.manifest, expected.classification, digests).value;
    SortedGates(collate, results);
    SortedDigests(collate, digests);
    AgreeingDigests(results, digests, l.digests, l.gates);
    ApartPermuted(RepositoryOf, l.gates, results);
    CoverCounts(l.gates, expected, config);
    assert |multiset(l.digests)| == |multiset(digests)|;
    assert CoverExactly(l.gates, expected, config) <==> CoverExactly(results, expected, config);
  }

  // ---- Evidence of the candidate -------------------------------------------------------------

  datatype Report = Report(schemaVersion: string, candidateId: string, verification: string, status: string)

  datatype Job = Job(name: string, status: string, conclusion: string)

  function RequiredVerifications(modelEnabled: bool): set<string> {
    {"windows-install", "runtime-product", "cross-framework-consumers"}
    + if modelEnabled then {"model-enabled-runtime"} else {}
  }

  function RequiredJobs(modelEnabled: bool): set<string> {
    {"build-candidate", "verify-windows-install", "verify-runtime-product", "verify-cross-framework-consumers"}
    + if modelEnabled then {"verify-model-enabled-runtime"} else {}
  }

  predicate Passing(r: Report, candidateId: string) {
    r.schemaVersion == "1" && r.candidateId == candidateId && r.status == "success"
  }

  predicate Passed(j: Job) {
    j.status == "completed" && j.conclusion == "success"
  }

  function VerificationOf(r: Report): string {
    r.verification
  }

  function NameOf(j: Job): string {
    j.name
  }

  /** Accepts exactly the passing reports of this candidate, one for each required verification and no other. */
  method VerifyReports(reports: seq<Report>, candidateId: string, modelEnabled: bool) returns (ok: bool)
    ensures ok <==>
              && (forall r | r in reports :: r.schemaVersion == "1" && r.candidateId == candidateId && r.status == "success")
              && Apart(VerificationOf, reports)
              && Image(VerificationOf, reports) ==
                 {"windows-install", "runtime-product", "cross-framework-consumers"}
                 + if modelEnabled then {"model-enabled-runtime"} else {}
  {
    var required := RequiredVerifications(modelEnabled);
    var seen: set<string> := {};
    for i := 0 to |reports|
      invariant forall r | r in reports[..i] :: Passing(r, candidateId)
      invariant Apart(VerificationOf, reports[..i]) && seen == Image(VerificationOf, reports[..i]) && seen <= required
    {
      hide RequiredVerifications;
      var item := reports[i];
      OneMoreReport(reports, i);
      if !Passing(item, candidateId) {
        assert item in reports;
        return false;
      }
      if item.verification !in required || item.verification in seen {
        RefusedReport(reports, i, required);
        return false;
      }
      seen := seen + {item.verification};
    }
    assert reports[..|reports|] == reports;
    ok := |seen| == |required| && required <= seen;
  }

  lemma OneMoreReport(reports: seq<Report>, i: nat)
    requires i < |reports|
    ensures reports[..i + 1] == reports[..i] + [reports[i]]
    ensures Image(VerificationOf, reports[..i + 1]) == Image(VerificationOf, reports[..i]) + {reports[i].verification}
    ensures Apart(VerificationOf, reports[..i + 1]) <==>
              Apart(VerificationOf, reports[..i]) && reports[i].verification !in Image(VerificationOf, reports[..i])
  {
    assert reports[..i + 1] == reports[..i] + [reports[i]];
    LastApart(VerificationOf, reports[..i], reports[i]);
  }

  lemma RefusedReport(reports: seq<Report>, i: nat, required: set<string>)
    requires i < |reports|
    requires reports[i].verification !in required || reports[i].verification in Image(VerificationOf, reports[..i])
    ensures !(Apart(VerificationOf, reports) && Image(VerificationOf, reports) == required)
  {
    assert VerificationOf(reports[i]) in Image(VerificationOf, reports);
    if reports[i].verification in Image(VerificationOf, reports[..i]) {
      var r :| r in reports[..i] && VerificationOf(r) == reports[i].verification;
      var j :| 0 <= j < i && reports[j] == r;
      assert VerificationOf(reports[j]) == VerificationOf(reports[i]);
    }
  }

  /** Accepts exactly the job lists without repeated names in which every required job passed. */
  method VerifyProducerJobs(jobs: seq<Job>, modelEnabled: bool) returns (ok: bool)
    ensures ok <==>
              && Apart(NameOf, jobs)
              && forall name | name in RequiredJobs(modelEnabled) ::
                   exists j :: j in jobs && j.name == name && j.status == "completed" && j.conclusion == "success"
    ensures RequiredJobs(modelEnabled) ==
            {"build-candidate", "verify-windows-install", "verify-runtime-product", "verify-cross-framework-consumers"}
            + if modelEnabled then {"verify-model-enabled-runtime"} else {}
  {
    var byName: map<string, Job> := map[];
    for i := 0 to |jobs|
      invariant Apart(NameOf, jobs[..i])
      invariant forall j | j in jobs[..i] :: j.name in byName && byName[j.name] == j
      invariant forall name | name in byName :: byName[name] in jobs[..i] && byName[name].name == name
    {
      assert jobs[..i + 1] == jobs[..i] + [jobs[i]];
      if jobs[i].name in byName {
        var other := byName[jobs[i].name];
        ghost var k :| 0 <= k < i && jobs[k] == other;
        assert NameOf(jobs[k]) == NameOf(jobs[i]);
        return false;
      }
      LastApart(NameOf, jobs[..i], jobs[i]);
      byName := byName[jobs[i].name := jobs[i]];
    }
    assert jobs[..|jobs|] == jobs;
    forall name
      ensures name in byName && Passed(byName[name]) <==> exists j :: j in jobs && j.name == name && Passed(j)
    {
      if name in byName { assert byName[name] in jobs; }
    }
    ok := forall name | name in RequiredJobs(modelEnabled) ::
      name in byName && Passed(byName[name]);
  }
}
