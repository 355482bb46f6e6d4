/** Running the acceptance projects in sequence, failing closed (tools/three-project-acceptance.ts). */
module AcceptanceSequence {
  import opened Wrappers
  import opened Ordering
  import opened AcceptanceScope

  datatype ManifestStatus = StatusCompleted | StatusFailed | StatusOther

  /**
   A child's manifest: its status, whether schema, identity and lists are as they must be, its
   cleanup flags when they have the right shape, whether fixture, evidence, empty error lists and
   artifacts hold up, and the hash of its artifacts.
   */
  datatype Manifest = Manifest(status: ManifestStatus, framed: bool, cleanup: Option<Cleanup>, contentOk: bool,
                               artifactHash: Option<string>)

  /** How the cleanup is verified: by the default verifier, reading the scope again, or by a hook. */
  datatype Verifier = Default(scope: Option<Scope>, probes: Probes) | Hook(proof: Option<Proof>)

  datatype Item = Item(project: string, runId: string, artifactId: string, contract: Expected)

  /**
   Everything the hooks answer for one project. A spawn that throws has no exit code; `readable`
   is false when reading the manifest or an artifact of it throws, which nothing catches.
   */
  datatype Observation = Observation(prepared: bool, spawn: Option<int>, readable: bool, manifest: Option<Manifest>,
                                     scope: Option<Scope>, verifier: Verifier)

  datatype Outcome = ScopePreparationFailed | Completed | Failed | Invalid | Missing

  datatype ProjectResult = ProjectResult(project: string, outcome: Outcome, exitCode: int, cleanupVerified: bool)

  predicate TerminalManifest(manifest: Option<Manifest>) {
    manifest.Some? && manifest.value.status != StatusOther && manifest.value.framed && manifest.value.cleanup.Some?
  }

  predicate ChildValid(manifest: Option<Manifest>) {
    && TerminalManifest(manifest) && manifest.value.status == StatusCompleted
    && manifest.value.cleanup == Some(ALL_CLEAN) && manifest.value.contentOk
  }

  function ContextOf(item: Item, o: Observation): Context {
    Context(item.project, item.runId, item.artifactId, item.contract,
            if o.manifest.Some? then o.manifest.value.artifactHash else None)
  }

  method VerifyCleanup(ctx: Context, verifier: Verifier) returns (proof: Proof)
    ensures verifier.Hook? ==> proof == verifier.proof.GetOr(AcceptanceScope.Failed())
    ensures verifier.Default? && (!ValidScope(ctx, verifier.scope) || SomeThrow(verifier.scope.value, verifier.probes)) ==>
              proof == AcceptanceScope.Failed()
    ensures verifier.Default? && ValidScope(ctx, verifier.scope) && !SomeThrow(verifier.scope.value, verifier.probes) ==>
              && proof.scopeVerified && FlagsOf(verifier.scope.value, verifier.probes, proof.cleanup)
              && (proof.clean <==> CleanFacts(verifier.scope.value, verifier.probes))
  {
    var r: Option<Proof>;
    var asked: seq<Question>;
    match verifier {
      case Hook(p) => r := p;
      case Default(scope, probes) => r, asked := VerifyRecordedCleanupScope(ctx, scope, probes);
    }
    proof := r.GetOr(AcceptanceScope.Failed());
  }

  /** The cleanup counts as verified. */
  ghost predicate CleanupProven(ctx: Context, o: Observation) {
    && ValidScope(ctx, o.scope)
    && o.manifest.Some? && o.manifest.value.cleanup == Some(ALL_CLEAN)
    && match o.verifier
       case Hook(proof) => proof == Some(Proof(ALL_CLEAN, true, true))
       case Default(scope, probes) =>
         && ValidScope(ctx, scope) && !SomeThrow(scope.value, probes) && CleanFacts(scope.value, probes)
  }

  /** A project that lets the next one start. */
  ghost predicate Proceeds(item: Item, o: Observation) {
    && o.prepared && o.spawn == Some(0) && o.readable && ChildValid(o.manifest)
    && CleanupProven(ContextOf(item, o), o)
  }

  /** Reading what the child left ends the whole run. */
  predicate Aborts(o: Observation) {
    o.prepared && !o.readable
  }

  method RunProject(item: Item, o: Observation) returns (result: ProjectResult, goOn: bool)
    requires o.prepared && o.readable
    ensures result.project == item.project && result.exitCode == o.spawn.GetOr(1)
    ensures result.outcome ==
            if ChildValid(o.manifest) then Completed
            else if TerminalManifest(o.manifest) && o.manifest.value.status == StatusFailed then Outcome.Failed
            else if o.manifest.Some? then Invalid else Outcome.Missing
    ensures result.cleanupVerified <==> CleanupProven(ContextOf(item, o), o)
    ensures goOn <==> Proceeds(item, o)
  {
    var exitCode := o.spawn.GetOr(1);
    var childValid := ChildValid(o.manifest);
    var ctx := ContextOf(item, o);
    var scopeErrors := ValidateAcceptanceScope(ctx, o.scope);
    var proof := VerifyCleanup(ctx, o.verifier);
    var flagsMatch := o.manifest.Some? && o.manifest.value.cleanup == Some(proof.cleanup);
    var cleanupVerified := scopeErrors == [] && proof.scopeVerified && proof.clean && proof.cleanup == ALL_CLEAN && flagsMatch;
    if o.verifier.Default? && ValidScope(ctx, o.verifier.scope) && CleanFacts(o.verifier.scope.value, o.verifier.probes) {
      NoThrow(o.verifier.scope.value, o.verifier.probes);
      CleanMeansAllFlags(o.verifier.scope.value, o.verifier.probes, proof.cleanup);
    }
    var outcome :=
      if childValid then Completed
      else if TerminalManifest(o.manifest) && o.manifest.value.status == StatusFailed then Outcome.Failed
      else if o.manifest.Some? then Invalid else Outcome.Missing;
    result := ProjectResult(item.project, outcome, exitCode, cleanupVerified);
    goOn := exitCode == 0 && childValid && cleanupVerified;
  }

  lemma NoThrow(s: Scope, probes: Probes)
    requires CleanFacts(s, probes)
    ensures !SomeThrow(s, probes)
  {
  }

  // ---- What a run shows --------------------------------------------------------------------

  /** What has been established about a project, and under the default verifier about its scope. */
  ghost predicate Established(item: Item, o: Observation) {
    && o.spawn == Some(0) && ChildValid(o.manifest)
    && (o.verifier.Default? ==> o.verifier.scope.Some? && LeftNothing(o.verifier.scope.value, o.verifier.probes))
  }

  /** Recorded processes, listeners and paths are gone, the others still run, and no identity is both. */
  ghost predicate LeftNothing(s: Scope, probes: Probes) {
    && (forall i: nat | i < |s.processes| :: probes.process(i) == Absent)
    && (forall i: nat | i < |s.listeners| :: probes.listener(i) == Absent)
    && (forall i: nat | i < |s.baseline| :: probes.baseline(i) == Present)
    && (forall i: nat, attempt: nat | i < |AllPaths(s)| && attempt <= 1 :: probes.look(i, attempt) == NotFound)
    && (forall i, j | 0 <= i < j < |s.processes| :: s.processes[i].identity.key != s.processes[j].identity.key)
    && (forall i, j | 0 <= i < |s.processes| && 0 <= j < |s.baseline| ::
          s.processes[i].identity.key != s.baseline[j].identity.key)
  }

  lemma ProceedsIsEstablished(item: Item, o: Observation)
    requires Proceeds(item, o)
    ensures Established(item, o)
  {
    if o.verifier.Default? {
      var s, probes := o.verifier.scope.value, o.verifier.probes;
      assert IdentitiesOk(s);
      forall i: nat, attempt: nat | i < |AllPaths(s)| && attempt <= 1 ensures probes.look(i, attempt) == NotFound {
        assert Gone(probes, i);
      }
      DistinctIdentities(s);
    }
  }

  lemma DistinctIdentities(s: Scope)
    requires IdentitiesOk(s)
    ensures forall i, j | 0 <= i < j < |s.processes| :: s.processes[i].identity.key != s.processes[j].identity.key
    ensures forall i, j | 0 <= i < |s.processes| && 0 <= j < |s.baseline| ::
              s.processes[i].identity.key != s.baseline[j].identity.key
  {
    forall i, j | 0 <= i < j < |s.processes| ensures s.processes[i].identity.key != s.processes[j].identity.key {
      assert ProcessKey(s.processes[i]) != ProcessKey(s.processes[j]);
    }
    forall i, j | 0 <= i < |s.processes| && 0 <= j < |s.baseline|
      ensures s.processes[i].identity.key != s.baseline[j].identity.key
    {
      assert ProcessKey(s.processes[i]) in Image(ProcessKey, s.processes);
      assert BaselineKey(s.baseline[j]) in Image(BaselineKey, s.baseline);
    }
  }

  // ---- The sequence ----------------------------------------------------------------------

  predicate Succeeded(r: ProjectResult) {
    r.exitCode == 0 && r.outcome == Completed && r.cleanupVerified
  }

  /** A result that reads as a success belongs to a project that proceeds, and the other way round. */
  ghost predicate ResultFits(item: Item, o: Observation, r: ProjectResult) {
    r.project == item.project && (Succeeded(r) <==> Proceeds(item, o))
  }

  function MapAcceptanceExitCode(results: seq<ProjectResult>, expectedProjectCount: nat): int {
    if |results| == expectedProjectCount && forall r | r in results :: Succeeded(r) then 0 else 1
  }

  /** The first `n` projects ran to a result, and all but the last of them let the next one start. */
  ghost predicate Ran(plan: seq<Item>, seen: seq<Observation>, results: seq<ProjectResult>, n: nat)
    requires |plan| == |seen|
  {
    && |results| == n <= |plan|
    && (forall i | 0 <= i < n :: ResultFits(plan[i], seen[i], results[i]) && !Aborts(seen[i]))
    && forall i | 0 <= i < n - 1 :: Proceeds(plan[i], seen[i])
  }

  /**
   The next project is spawned only after the one before it proceeded, whatever the hooks answer;
   the exit code is 0 exactly when all of them did. There are no results when a manifest reader
   throws, and that is the only way to have none.
   */
  method RunAcceptanceSequence(plan: seq<Item>, seen: seq<Observation>)
    returns (outcome: Option<seq<ProjectResult>>, spawned: seq<nat>)
    requires |plan| == |seen|
    ensures outcome.None? <==>
              exists n: nat :: n < |plan| && Aborts(seen[n]) && forall i | 0 <= i < n :: Proceeds(plan[i], seen[i])
    ensures outcome.Some? ==>
              var results := outcome.value;
              && Ran(plan, seen, results, |results|)
              && (|results| < |plan| ==> results != [] && !Proceeds(plan[|results| - 1], seen[|results| - 1]))
              && (forall i :: i in spawned <==> 0 <= i < |results| && seen[i].prepared)
              && (MapAcceptanceExitCode(results, |plan|) == 0 <==>
                    forall i | 0 <= i < |plan| :: Proceeds(plan[i], seen[i]))
    ensures forall i | i in spawned :: 0 <= i < |plan| && seen[i].prepared
    ensures forall i: nat | i < |plan| && i + 1 in spawned :: Established(plan[i], seen[i])
  {
    var results: seq<ProjectResult> := [];
    spawned := [];
    var i := 0;
    var goOn := true;
    while i < |plan| && goOn
      invariant 0 <= i <= |plan| && Ran(plan, seen, results, i)
      invariant if goOn then i > 0 ==> Proceeds(plan[i - 1], seen[i - 1])
                else i > 0 && !Proceeds(plan[i - 1], seen[i - 1])
      invariant forall k :: k in spawned <==> 0 <= k < i && seen[k].prepared
    {
      hide Proceeds, ResultFits;
      if Aborts(seen[i]) {
        spawned := spawned + [i];
        SpawnedAfter(plan, seen, spawned, i);
        return None, spawned;
      }
      var result: ProjectResult;
      if seen[i].prepared {
        spawned := spawned + [i];
        result, goOn := RunProject(plan[i], seen[i]);
        RunFits(plan[i], seen[i], result, goOn);
      } else {
        result, goOn := ProjectResult(plan[i].project, ScopePreparationFailed, 1, false), false;
        Unprepared(plan[i], seen[i], result);
      }
      results := results + [result];
      i := i + 1;
    }
    ExitCodeExactly(plan, seen, results);
    SpawnedAfter(plan, seen, spawned, i - 1);
    NeverAborted(plan, seen, results);
    outcome := Some(results);
  }

  /** What was spawned lies within the projects up to `n`, before which all proceeded. */
  lemma SpawnedAfter(plan: seq<Item>, seen: seq<Observation>, spawned: seq<nat>, n: int)
    requires |plan| == |seen| && n < |plan|
    requires forall i | 0 <= i < n :: Proceeds(plan[i], seen[i])
    requires forall i | i in spawned :: i <= n
    ensures forall i: nat | i < |plan| && i + 1 in spawned :: Established(plan[i], seen[i])
  {
    forall i: nat | i < |plan| && i + 1 in spawned ensures Established(plan[i], seen[i]) {
      ProceedsIsEstablished(plan[i], seen[i]);
    }
  }

  lemma NeverAborted(plan: seq<Item>, seen: seq<Observation>, results: seq<ProjectResult>)
    requires |plan| == |seen| && Ran(plan, seen, results, |results|)
    requires |results| < |plan| ==> results != [] && !Proceeds(plan[|results| - 1], seen[|results| - 1])
    ensures !exists n: nat :: n < |plan| && Aborts(seen[n]) && forall i | 0 <= i < n :: Proceeds(plan[i], seen[i])
  {
  }

  lemma Unprepared(item: Item, o: Observation, r: ProjectResult)
    requires !o.prepared && r == ProjectResult(item.project, ScopePreparationFailed, 1, false)
    ensures !Proceeds(item, o) && !Aborts(o) && ResultFits(item, o, r)
  {
  }

  lemma RunFits(item: Item, o: Observation, r: ProjectResult, goOn: bool)
    requires o.prepared && o.readable && r.project == item.project && r.exitCode == o.spawn.GetOr(1)
    requires r.outcome == Completed <==> ChildValid(o.manifest)
    requires r.cleanupVerified <==> CleanupProven(ContextOf(item, o), o)
    requires goOn <==> Proceeds(item, o)
    ensures ResultFits(item, o, r)
  {
  }

  lemma ExitCodeExactly(plan: seq<Item>, seen: seq<Observation>, results: seq<ProjectResult>)
    requires |plan| == |seen| && |results| <= |plan|
    requires forall i | 0 <= i < |results| :: ResultFits(plan[i], seen[i], results[i])
    requires |results| < |plan| ==> results != [] && !Proceeds(plan[|results| - 1], seen[|results| - 1])
    ensures MapAcceptanceExitCode(results, |plan|) == 0 <==> forall i | 0 <= i < |plan| :: Proceeds(plan[i], seen[i])
  {
    hide Proceeds;
    if MapAcceptanceExitCode(results, |plan|) == 0 {
      forall i | 0 <= i < |plan| ensures Proceeds(plan[i], seen[i]) {
        assert results[i] in results;
      }
    }
    if forall i | 0 <= i < |plan| :: Proceeds(plan[i], seen[i]) {
      forall r | r in results ensures Succeeded(r) {
        var i :| 0 <= i < |results| && results[i] == r;
        assert Proceeds(plan[i], seen[i]);
      }
    }
  }
}
