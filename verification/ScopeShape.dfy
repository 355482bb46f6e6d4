/**
 A valid acceptance scope, said of its recorded values alone (tools/three-project-acceptance.ts):
 which records belong to the child, which process may serve a listener, and what must be there.
 */
module ScopeShape {
  import opened Wrappers
  import opened Ordering
  import opened ReleaseTags
  import opened AcceptanceScope
  import Steps = ReleaseSteps

  /** A debugging port is the session's, the runtime's is a sidecar's, the model's a model worker's. */
  predicate Serves(process: ProcessRole, listener: ListenerRole) {
    || (process.Session? && listener.Cdp?)
    || (process.Sidecar? && listener.RuntimeListener?)
    || (process.ModelWorker? && listener.ModelListener?)
  }

  lemma ServesExactly(process: ProcessRole, listener: ListenerRole)
    ensures process == OwnerRole(listener) <==> Serves(process, listener)
  {
  }

  // ---- Lists that name the same things ---------------------------------------------------

  /** As many entries as expected, none twice, and every expected one among them. */
  ghost predicate Lists<T(!new)>(actual: seq<T>, expected: seq<T>) {
    |actual| == |expected| && NoDuplicates(actual) && forall x | x in expected :: x in actual
  }

  lemma ListsExactly<T(!new)>(actual: seq<T>, expected: seq<T>)
    ensures SameSet(actual, expected) <==> Lists(actual, expected)
  {
    ApartExactly(Itself<T>, actual);
    assert Image(Itself<T>, actual) == set x | x in actual;
    assert Apart(Itself<T>, actual) <==> NoDuplicates(actual);
  }

  ghost predicate KeepsContract(actual: Expected, expected: Expected) {
    && Lists(actual.processRoles, expected.processRoles)
    && Lists(actual.listenerRoles, expected.listenerRoles)
    && Lists(actual.optionalProcessRoles, expected.optionalProcessRoles)
    && Lists(actual.optionalListenerRoles, expected.optionalListenerRoles)
    && Lists(actual.pathKinds, expected.pathKinds)
  }

  lemma KeepsContractExactly(actual: Expected, expected: Expected)
    ensures SameExpected(actual, expected) <==> KeepsContract(actual, expected)
  {
    hide SameSet, Lists;
    ListsExactly(actual.processRoles, expected.processRoles);
    ListsExactly(actual.listenerRoles, expected.listenerRoles);
    ListsExactly(actual.optionalProcessRoles, expected.optionalProcessRoles);
    ListsExactly(actual.optionalListenerRoles, expected.optionalListenerRoles);
    ListsExactly(actual.pathKinds, expected.pathKinds);
  }

  // ---- Records -----------------------------------------------------------------------------

  /** The record carries the run and artifact of its scope. */
  predicate Stamped(s: Scope, runId: string, artifactId: string) {
    && runId == s.runId && artifactId == s.artifactId
    && (exists c | c in runId :: !IsWhite(c))
    && LowerHex(artifactId, 64)
  }

  /** No two records of the list have the same key. */
  ghost predicate Distinct<T(!new)>(key: T -> string, xs: seq<T>) {
    forall i, j | 0 <= i < |xs| && 0 <= j < |xs| && key(xs[i]) == key(xs[j]) :: i == j
  }

  /** Every process is a sound record of this run in a role the contract knows, recorded once. */
  ghost predicate ProcessesBelong(s: Scope) {
    && Distinct((p: OwnedProcess) => p.identity.key, s.processes)
    && forall p | p in s.processes ::
         && p.identity.wellFormed && Stamped(s, p.runId, p.artifactId)
         && (p.role in s.expected.processRoles || p.role in s.expected.optionalProcessRoles)
  }

  /** The processes from before are sound, recorded once, and none of them is the child's. */
  ghost predicate BaselineApart(s: Scope) {
    && Distinct((b: BaselineProcess) => b.identity.key, s.baseline)
    && forall b | b in s.baseline ::
         b.identity.wellFormed && forall p | p in s.processes :: p.identity.key != b.identity.key
  }

  /** Every listener is local, of this run, in a known role, and served by a recorded process of the right role. */
  ghost predicate ListenersServed(s: Scope) {
    && Distinct((l: Listener) => l.endpoint + "|" + l.owner.key, s.listeners)
    && forall l | l in s.listeners ::
         && l.loopback && l.owner.wellFormed && Stamped(s, l.runId, l.artifactId)
         && (l.role in s.expected.listenerRoles || l.role in s.expected.optionalListenerRoles)
         && exists p :: p in s.processes && p.identity.key == l.owner.key && Serves(p.role, l.role)
  }

  lemma TrimNotEmpty(s: string)
    ensures Trim(s) != "" <==> exists c | c in s :: !IsWhite(c)
  {
    var before, after := Steps.TrimExactly(s);
    if Trim(s) != "" {
      assert s[|before|] == Trim(s)[0];
    } else {
      assert s == before + after;
    }
  }

  lemma StampedExactly(s: Scope, runId: string, artifactId: string)
    ensures Bound(s, runId, artifactId) && Trim(runId) != "" && IsSha(artifactId) <==> Stamped(s, runId, artifactId)
  {
    TrimNotEmpty(runId);
    ShaExactly(artifactId);
  }

  lemma KeysDistinct<T(!new)>(key: T -> string, other: T -> string, xs: seq<T>)
    requires forall x: T :: key(x) == other(x)
    ensures Apart(key, xs) <==> Distinct(other, xs)
  {
    if Apart(key, xs) {
      forall i, j | 0 <= i < |xs| && 0 <= j < |xs| && other(xs[i]) == other(xs[j]) ensures i == j {
        assert key(xs[i]) == other(xs[i]) && key(xs[j]) == other(xs[j]);
      }
    }
  }

  lemma ProcessesExactly(s: Scope)
    ensures ProcessesOk(s) && (forall p | p in s.processes :: ProcessOk(p)) <==> ProcessesBelong(s)
  {
    hide Stamped, Bound, Trim, IsSha;
    KeysDistinct(ProcessKey, (p: OwnedProcess) => p.identity.key, s.processes);
    forall p: OwnedProcess
      ensures Bound(s, p.runId, p.artifactId) && Trim(p.runId) != "" && IsSha(p.artifactId)
              <==> Stamped(s, p.runId, p.artifactId)
    {
      StampedExactly(s, p.runId, p.artifactId);
    }
  }

  lemma BaselineExactly(s: Scope)
    ensures BaselineOk(s) && (forall b | b in s.baseline :: b.identity.wellFormed) <==> BaselineApart(s)
  {
    KeysDistinct(BaselineKey, (b: BaselineProcess) => b.identity.key, s.baseline);
    if BaselineOk(s) {
      forall b, p | b in s.baseline && p in s.processes ensures p.identity.key != b.identity.key {
        assert BaselineKey(b) in Image(BaselineKey, s.baseline);
        assert ProcessKey(p) in Image(ProcessKey, s.processes);
      }
    }
  }

  lemma ListenersExactly(s: Scope)
    ensures ListenersOk(s) && (forall l | l in s.listeners :: ListenerOk(l)) <==> ListenersServed(s)
  {
    hide Stamped, Bound, Trim, IsSha, Serves;
    KeysDistinct(ListenerKey, (l: Listener) => l.endpoint + "|" + l.owner.key, s.listeners);
    forall l: Listener
      ensures Bound(s, l.runId, l.artifactId) && Trim(l.runId) != "" && IsSha(l.artifactId)
              <==> Stamped(s, l.runId, l.artifactId)
      ensures OwnedBy(s, l) <==>
                exists p :: p in s.processes && p.identity.key == l.owner.key && Serves(p.role, l.role)
    {
      StampedExactly(s, l.runId, l.artifactId);
      OwnedExactly(s, l);
    }
  }

  lemma OwnedExactly(s: Scope, l: Listener)
    ensures OwnedBy(s, l) <==>
              exists p :: p in s.processes && p.identity.key == l.owner.key && Serves(p.role, l.role)
  {
    forall p: OwnedProcess ensures p.role == OwnerRole(l.role) <==> Serves(p.role, l.role) {
      ServesExactly(p.role, l.role);
    }
  }

  // ---- The scope ---------------------------------------------------------------------------

  /** Everything the contract requires was recorded: each process and listener role, and paths of each kind. */
  ghost predicate Recorded(s: Scope, contract: Expected) {
    && (forall role | role in contract.processRoles :: exists p :: p in s.processes && p.role == role)
    && (forall role | role in contract.listenerRoles :: exists l :: l in s.listeners && l.role == role)
    && (ModelPaths in contract.pathKinds ==> s.modelPaths != [])
    && (AppDataPaths in contract.pathKinds ==> s.appDataPaths != [])
    && (SessionPaths in contract.pathKinds ==> s.sessionPaths != [])
    && s.baseline != []
  }

  lemma RecordedExactly(ctx: Context, s: Scope)
    ensures Complete(ctx, s) <==> Recorded(s, ctx.contract)
  {
    forall role: ProcessRole ensures HasProcess(s, role) <==> exists p :: p in s.processes && p.role == role {
    }
    forall role: ListenerRole ensures HasListener(s, role) <==> exists l :: l in s.listeners && l.role == role {
    }
    forall kind: PathKind
      ensures PathsOf(s, kind) ==
              if kind.ModelPaths? then s.modelPaths else if kind.AppDataPaths? then s.appDataPaths else s.sessionPaths
    {
    }
    hide HasProcess, HasListener, PathsOf;
  }

  /** The child itself: same project, run and artifacts, launched and finished, with its evidence complete. */
  predicate IsChild(ctx: Context, s: Scope) {
    && s.project == ctx.project && s.runId == ctx.runId && s.artifactId == ctx.artifactId
    && s.launchAttempted && s.terminal && s.evidenceComplete
    && s.artifactHash.Some? && s.artifactHash == ctx.artifactHash
  }

  /**
   A scope is valid exactly when it is the child's, keeps the contract, has recorded everything the
   contract requires, and all its records belong to it.
   */
  lemma ValidScopeExactly(ctx: Context, scope: Option<Scope>)
    ensures ValidScope(ctx, scope) <==>
              && scope.Some? && IsChild(ctx, scope.value) && KeepsContract(scope.value.expected, ctx.contract)
              && Recorded(scope.value, ctx.contract)
              && ProcessesBelong(scope.value) && BaselineApart(scope.value) && ListenersServed(scope.value)
  {
    if scope.Some? {
      var s := scope.value;
      KeepsContractExactly(s.expected, ctx.contract);
      RecordedExactly(ctx, s);
      ProcessesExactly(s);
      BaselineExactly(s);
      ListenersExactly(s);
      hide SameExpected, KeepsContract, Complete, Recorded, ProcessesOk, ProcessesBelong, BaselineOk, BaselineApart;
      hide ListenersOk, ListenersServed;
    }
  }
}
