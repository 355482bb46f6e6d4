/**
 The recorded scope of an acceptance child (tools/three-project-acceptance.ts): the checks it
 must pass before anything recorded in it is probed, and the proof that it was cleaned up.
 */
module AcceptanceScope {
  import opened Wrappers
  import opened Ordering
  import opened ReleaseTags

  datatype ProcessRole = Root | App | Session | Sidecar | ModelWorker

  datatype ListenerRole = Cdp | RuntimeListener | ModelListener

  datatype PathKind = ModelPaths | AppDataPaths | SessionPaths

  /** A process as recorded: the code's identity checks and its comparison key are given with it. */
  datatype Identity = Identity(key: string, wellFormed: bool)

  datatype OwnedProcess = OwnedProcess(identity: Identity, role: ProcessRole, runId: string, artifactId: string)

  datatype BaselineProcess = BaselineProcess(identity: Identity)

  /** A listening endpoint; `endpoint` is its normalized host, port and protocol. */
  datatype Listener = Listener(endpoint: string, loopback: bool, owner: Identity, role: ListenerRole, runId: string,
                               artifactId: string)

  datatype Expected = Expected(processRoles: seq<ProcessRole>, listenerRoles: seq<ListenerRole>,
                               optionalProcessRoles: seq<ProcessRole>, optionalListenerRoles: seq<ListenerRole>,
                               pathKinds: seq<PathKind>)

  datatype Scope = Scope(project: string, runId: string, artifactId: string, artifactHash: Option<string>,
                         expected: Expected, terminal: bool, evidenceComplete: bool, launchAttempted: bool,
                         processes: seq<OwnedProcess>, baseline: seq<BaselineProcess>, listeners: seq<Listener>,
                         modelPaths: seq<string>, appDataPaths: seq<string>, sessionPaths: seq<string>)

  /** What the runner knows of the child: its identity, its contract, and the hash of its manifest's artifacts. */
  datatype Context = Context(project: string, runId: string, artifactId: string, contract: Expected,
                             artifactHash: Option<string>)

  datatype ScopeError =
    | Missing | IdentityMismatch | NotTerminal | ContractMismatch | HashUnavailable | HashMismatch
    | RequiredProcessRole(role: ProcessRole) | RequiredListenerRole(listenerRole: ListenerRole)
    | RequiredPathKind(kind: PathKind) | BaselineRequired
    | ProcessInvalid | BaselineInvalid | ListenerInvalid | ProcessRoleUnexpected | ListenerRoleUnexpected
    | ProcessUnbound | ProcessDuplicate | BaselineDuplicate | BaselineOverlap
    | ListenerUnbound | OwnerMismatch | OwnerRoleMismatch | ListenerDuplicate

  // ---- Sets of strings -------------------------------------------------------------------

  predicate SameSet<T(==,!new)>(actual: seq<T>, expected: seq<T>) {
    |actual| == |expected| && |set x | x in actual| == |actual| && forall x | x in expected :: x in actual
  }

  function Itself<T>(x: T): T {
    x
  }

  /** Against a list without repeats, the test means: the same elements, each once. */
  lemma SameSetExactly<T(!new)>(actual: seq<T>, expected: seq<T>)
    requires NoDuplicates(expected)
    ensures SameSet(actual, expected) <==> NoDuplicates(actual) && forall x :: x in actual <==> x in expected
  {
    ApartExactly(Itself<T>, actual);
    ApartExactly(Itself<T>, expected);
    assert Image(Itself<T>, actual) == set x | x in actual;
    assert Image(Itself<T>, expected) == set x | x in expected;
    assert Apart(Itself<T>, actual) <==> NoDuplicates(actual);
    assert Apart(Itself<T>, expected) <==> NoDuplicates(expected);
    if SameSet(actual, expected) {
      assert Image(Itself<T>, expected) <= Image(Itself<T>, actual);
      SubsetSize(Image(Itself<T>, expected), Image(Itself<T>, actual));
      forall x ensures x in actual <==> x in expected {
        assert x in actual <==> x in Image(Itself<T>, actual);
        assert x in expected <==> x in Image(Itself<T>, expected);
      }
    }
    if forall x :: x in actual <==> x in expected {
      assert Image(Itself<T>, actual) == Image(Itself<T>, expected);
    }
  }

  predicate SameExpected(actual: Expected, expected: Expected) {
    && SameSet(actual.processRoles, expected.processRoles)
    && SameSet(actual.listenerRoles, expected.listenerRoles)
    && SameSet(actual.optionalProcessRoles, expected.optionalProcessRoles)
    && SameSet(actual.optionalListenerRoles, expected.optionalListenerRoles)
    && SameSet(actual.pathKinds, expected.pathKinds)
  }

  // ---- Identity records --------------------------------------------------------------------

  predicate ProcessOk(p: OwnedProcess) {
    p.identity.wellFormed && Trim(p.runId) != "" && IsSha(p.artifactId)
  }

  predicate ListenerOk(l: Listener) {
    l.loopback && l.owner.wellFormed && Trim(l.runId) != "" && IsSha(l.artifactId)
  }

  function ProcessKey(p: OwnedProcess): string {
    p.identity.key
  }

  function BaselineKey(p: BaselineProcess): string {
    p.identity.key
  }

  function ListenerKey(l: Listener): string {
    l.endpoint + "|" + l.owner.key
  }

  function OwnerRole(role: ListenerRole): ProcessRole {
    match role
    case Cdp => Session
    case RuntimeListener => Sidecar
    case ModelListener => ModelWorker
  }

  predicate Bound(s: Scope, runId: string, artifactId: string) {
    runId == s.runId && artifactId == s.artifactId
  }

  ghost predicate RecordsOk(s: Scope) {
    && (forall p | p in s.processes :: ProcessOk(p)) && (forall b | b in s.baseline :: b.identity.wellFormed)
    && forall l | l in s.listeners :: ListenerOk(l)
  }

  ghost predicate ProcessesOk(s: Scope) {
    && Apart(ProcessKey, s.processes)
    && forall p | p in s.processes ::
         && (p.role in s.expected.processRoles || p.role in s.expected.optionalProcessRoles)
         && Bound(s, p.runId, p.artifactId)
  }

  ghost predicate BaselineOk(s: Scope) {
    && Apart(BaselineKey, s.baseline)
    && Image(BaselineKey, s.baseline) !! Image(ProcessKey, s.processes)
  }

  ghost predicate OwnedBy(s: Scope, l: Listener) {
    exists p :: p in s.processes && p.identity.key == l.owner.key && p.role == OwnerRole(l.role)
  }

  ghost predicate ListenersOk(s: Scope) {
    && Apart(ListenerKey, s.listeners)
    && forall l | l in s.listeners ::
         && (l.role in s.expected.listenerRoles || l.role in s.expected.optionalListenerRoles)
         && Bound(s, l.runId, l.artifactId) && OwnedBy(s, l)
  }

  /** What the identity records of an acceptable scope satisfy. */
  ghost predicate IdentitiesOk(s: Scope) {
    RecordsOk(s) && ProcessesOk(s) && BaselineOk(s) && ListenersOk(s)
  }

  method CheckRecords(s: Scope) returns (errors: seq<ScopeError>)
    ensures errors == [] <==> RecordsOk(s)
  {
    errors := [];
    if exists p | p in s.processes :: !ProcessOk(p) { errors := errors + [ProcessInvalid]; }
    if exists b | b in s.baseline :: !b.identity.wellFormed { errors := errors + [BaselineInvalid]; }
    if exists l | l in s.listeners :: !ListenerOk(l) { errors := errors + [ListenerInvalid]; }
  }

  /** The owned processes, filling `processKeys` and `ownedByIdentity`. */
  method CheckProcesses(s: Scope) returns (errors: seq<ScopeError>, owned: map<string, OwnedProcess>)
    ensures errors == [] <==> ProcessesOk(s)
    ensures owned.Keys == Image(ProcessKey, s.processes)
    ensures forall k | k in owned :: owned[k] in s.processes && owned[k].identity.key == k
  {
    errors := [];
    owned := map[];
    var keys: set<string> := {};
    for i := 0 to |s.processes|
      invariant keys == owned.Keys == Image(ProcessKey, s.processes[..i])
      invariant forall k | k in owned :: owned[k] in s.processes && owned[k].identity.key == k
      invariant errors == [] <==>
                  && Apart(ProcessKey, s.processes[..i])
                  && forall p | p in s.processes[..i] :: ProcessExpected(s, p)
    {
      var record := s.processes[i];
      assert s.processes[..i + 1] == s.processes[..i] + [record];
      LastApart(ProcessKey, s.processes[..i], record);
      if record.role !in s.expected.processRoles && record.role !in s.expected.optionalProcessRoles {
        errors := errors + [ProcessRoleUnexpected];
      }
      if !Bound(s, record.runId, record.artifactId) {
        errors := errors + [ProcessUnbound];
      }
      if record.identity.key in keys {
        errors := errors + [ProcessDuplicate];
      }
      keys := keys + {record.identity.key};
      owned := owned[record.identity.key := record];
    }
    assert s.processes[..|s.processes|] == s.processes;
  }

  predicate ProcessExpected(s: Scope, p: OwnedProcess) {
    && (p.role in s.expected.processRoles || p.role in s.expected.optionalProcessRoles)
    && Bound(s, p.runId, p.artifactId)
  }

  method CheckBaseline(s: Scope, processKeys: set<string>) returns (errors: seq<ScopeError>)
    requires processKeys == Image(ProcessKey, s.processes)
    ensures errors == [] <==> BaselineOk(s)
  {
    errors := [];
    var keys: set<string> := {};
    for i := 0 to |s.baseline|
      invariant keys == Image(BaselineKey, s.baseline[..i])
      invariant errors == [] <==> Apart(BaselineKey, s.baseline[..i]) && keys !! processKeys
    {
      var record := s.baseline[i];
      assert s.baseline[..i + 1] == s.baseline[..i] + [record];
      LastApart(BaselineKey, s.baseline[..i], record);
      if record.identity.key in keys { errors := errors + [BaselineDuplicate]; }
      if record.identity.key in processKeys { errors := errors + [BaselineOverlap]; }
      keys := keys + {record.identity.key};
    }
    assert s.baseline[..|s.baseline|] == s.baseline;
  }

  predicate ListenerExpected(s: Scope, owned: map<string, OwnedProcess>, l: Listener) {
    && (l.role in s.expected.listenerRoles || l.role in s.expected.optionalListenerRoles)
    && Bound(s, l.runId, l.artifactId)
    && l.owner.key in owned && owned[l.owner.key].role == OwnerRole(l.role)
  }

  method CheckListeners(s: Scope, owned: map<string, OwnedProcess>) returns (errors: seq<ScopeError>)
    ensures errors == [] <==>
              Apart(ListenerKey, s.listeners) && forall l | l in s.listeners :: ListenerExpected(s, owned, l)
  {
    errors := [];
    var keys: set<string> := {};
    for i := 0 to |s.listeners|
      invariant keys == Image(ListenerKey, s.listeners[..i])
      invariant errors == [] <==>
                  && Apart(ListenerKey, s.listeners[..i])
                  && forall l | l in s.listeners[..i] :: ListenerExpected(s, owned, l)
    {
      var record := s.listeners[i];
      assert s.listeners[..i + 1] == s.listeners[..i] + [record];
      LastApart(ListenerKey, s.listeners[..i], record);
      if record.role !in s.expected.listenerRoles && record.role !in s.expected.optionalListenerRoles {
        errors := errors + [ListenerRoleUnexpected];
      }
      if !Bound(s, record.runId, record.artifactId) {
        errors := errors + [ListenerUnbound];
      }
      if record.owner.key !in owned {
        errors := errors + [OwnerMismatch];
      } else if owned[record.owner.key].role != OwnerRole(record.role) {
        errors := errors + [OwnerRoleMismatch];
      }
      var key := record.endpoint + "|" + record.owner.key;
      if key in keys { errors := errors + [ListenerDuplicate]; }
      keys := keys + {key};
    }
    assert s.listeners[..|s.listeners|] == s.listeners;
  }

  /** With distinct process keys the map finds the owner. */
  lemma OwnersFound(s: Scope, owned: map<string, OwnedProcess>)
    requires Apart(ProcessKey, s.processes) && owned.Keys == Image(ProcessKey, s.processes)
    requires forall k | k in owned :: owned[k] in s.processes && owned[k].identity.key == k
    ensures forall l: Listener :: l.owner.key in owned && owned[l.owner.key].role == OwnerRole(l.role) <==> OwnedBy(s, l)
  {
    forall l: Listener
      ensures l.owner.key in owned && owned[l.owner.key].role == OwnerRole(l.role) <==> OwnedBy(s, l)
    {
      if p :| p in s.processes && p.identity.key == l.owner.key && p.role == OwnerRole(l.role) {
        assert ProcessKey(p) in Image(ProcessKey, s.processes);
        OneOwner(s.processes, p, owned[l.owner.key]);
      }
    }
  }

  lemma OneOwner(ps: seq<OwnedProcess>, p: OwnedProcess, q: OwnedProcess)
    requires Apart(ProcessKey, ps) && p in ps && q in ps && p.identity.key == q.identity.key
    ensures p == q
  {
    var i :| 0 <= i < |ps| && ps[i] == p;
    var j :| 0 <= j < |ps| && ps[j] == q;
    assert ProcessKey(ps[i]) == ProcessKey(ps[j]);
  }

  method ValidateIdentityRecords(s: Scope) returns (errors: seq<ScopeError>)
    ensures errors == [] <==> IdentitiesOk(s)
  {
    errors := CheckRecords(s);
    if errors != [] {
      return;
    }
    var owned: map<string, OwnedProcess>;
    errors, owned := CheckProcesses(s);
    var more := CheckBaseline(s, owned.Keys);
    errors := errors + more;
    more := CheckListeners(s, owned);
    if Apart(ProcessKey, s.processes) { OwnersFound(s, owned); }
    errors := errors + more;
  }

  // ---- The whole scope ---------------------------------------------------------------------

  function PathsOf(s: Scope, kind: PathKind): seq<string> {
    match kind
    case ModelPaths => s.modelPaths
    case AppDataPaths => s.appDataPaths
    case SessionPaths => s.sessionPaths
  }

  /** The scope belongs to this child, is finished, keeps the contract, and names the manifest's artifacts. */
  predicate Belongs(ctx: Context, s: Scope) {
    && s.project == ctx.project && s.runId == ctx.runId && s.artifactId == ctx.artifactId
    && s.terminal && s.evidenceComplete && s.launchAttempted
    && SameExpected(s.expected, ctx.contract)
    && ctx.artifactHash.Some? && s.artifactHash == ctx.artifactHash
  }

  predicate HasProcess(s: Scope, role: ProcessRole) {
    exists p :: p in s.processes && p.role == role
  }

  predicate HasListener(s: Scope, role: ListenerRole) {
    exists l :: l in s.listeners && l.role == role
  }

  predicate Complete(ctx: Context, s: Scope) {
    && (forall role | role in ctx.contract.processRoles :: HasProcess(s, role))
    && (forall role | role in ctx.contract.listenerRoles :: HasListener(s, role))
    && (forall kind | kind in ctx.contract.pathKinds :: PathsOf(s, kind) != [])
    && s.baseline != []
  }

  ghost predicate ValidScope(ctx: Context, scope: Option<Scope>) {
    scope.Some? && Belongs(ctx, scope.value) && Complete(ctx, scope.value) && IdentitiesOk(scope.value)
  }

  method MissingProcessRoles(roles: seq<ProcessRole>, s: Scope) returns (errors: seq<ScopeError>)
    ensures errors == [] <==> forall role | role in roles :: HasProcess(s, role)
  {
    errors := [];
    for i := 0 to |roles|
      invariant errors == [] <==> forall k | 0 <= k < i :: HasProcess(s, roles[k])
    {
      if !HasProcess(s, roles[i]) { errors := errors + [RequiredProcessRole(roles[i])]; }
    }
  }

  method MissingListenerRoles(roles: seq<ListenerRole>, s: Scope) returns (errors: seq<ScopeError>)
    ensures errors == [] <==> forall role | role in roles :: HasListener(s, role)
  {
    errors := [];
    for i := 0 to |roles|
      invariant errors == [] <==> forall k | 0 <= k < i :: HasListener(s, roles[k])
    {
      if !HasListener(s, roles[i]) { errors := errors + [RequiredListenerRole(roles[i])]; }
    }
  }

  method MissingPathKinds(kinds: seq<PathKind>, s: Scope) returns (errors: seq<ScopeError>)
    ensures errors == [] <==> forall kind | kind in kinds :: PathsOf(s, kind) != []
  {
    errors := [];
    for i := 0 to |kinds|
      invariant errors == [] <==> forall k | 0 <= k < i :: PathsOf(s, kinds[k]) != []
    {
      if |PathsOf(s, kinds[i])| == 0 { errors := errors + [RequiredPathKind(kinds[i])]; }
    }
  }

  /** No error exactly for a valid scope; the identity records are looked at only when nothing required is missing. */
  method ValidateAcceptanceScope(ctx: Context, scope: Option<Scope>) returns (errors: seq<ScopeError>)
    ensures errors == [] <==> ValidScope(ctx, scope)
  {
    if scope.None? {
      return [Missing];
    }
    var s := scope.value;
    errors := [];
    if s.project != ctx.project || s.runId != ctx.runId || s.artifactId != ctx.artifactId {
      errors := errors + [IdentityMismatch];
    }
    if !s.terminal || !s.evidenceComplete || !s.launchAttempted {
      errors := errors + [NotTerminal];
    }
    if !SameExpected(s.expected, ctx.contract) {
      errors := errors + [ContractMismatch];
    }
    if ctx.artifactHash.None? {
      errors := errors + [HashUnavailable];
    } else if s.artifactHash != ctx.artifactHash {
      errors := errors + [HashMismatch];
    }
    var processes := MissingProcessRoles(ctx.contract.processRoles, s);
    var listeners := MissingListenerRoles(ctx.contract.listenerRoles, s);
    var paths := MissingPathKinds(ctx.contract.pathKinds, s);
    var required := processes + listeners + paths;
    errors := errors + required;
    if |s.baseline| == 0 {
      errors := errors + [BaselineRequired];
    }
    if required != [] {
      return;
    }
    var identity := ValidateIdentityRecords(s);
    errors := errors + identity;
  }

  // ---- Probing -----------------------------------------------------------------------------

  /** What a probe of a recorded process or listener answers; it may also fail. */
  datatype Probe = Absent | Present | Unknown | Throws

  /** What looking at a path finds. */
  datatype Look = Exists | NotFound | Denied | IoError | OtherError

  /** The hooks' behaviour: by record number, and for paths by number and attempt. */
  datatype Probes = Probes(process: nat -> Probe, baseline: nat -> Probe, listener: nat -> Probe, look: (nat, nat) -> Look)

  /** What the verifier can ask about: a record of some kind, or a path for the first or second time. */
  datatype Subject = AProcess | ABaseline | AListener | APath(attempt: nat)

  /** One question, about the record or path with that number. */
  datatype Question = Question(subject: Subject, i: nat)

  function Questions(subject: Subject, n: nat): (r: seq<Question>)
    ensures |r| == n && forall i | 0 <= i < n :: r[i] == Question(subject, i)
  {
    if n == 0 then [] else Questions(subject, n - 1) + [Question(subject, n - 1)]
  }

  /** Each path twice, one path after the other. */
  function PathQuestions(n: nat): seq<Question> {
    if n == 0 then [] else PathQuestions(n - 1) + [Question(APath(0), n - 1), Question(APath(1), n - 1)]
  }

  datatype PathReport = PathReport(present: seq<string>, unknown: seq<string>)

  /** Both looks find nothing. */
  predicate Gone(probes: Probes, i: nat) {
    probes.look(i, 0) == NotFound && probes.look(i, 1) == NotFound
  }

  predicate Stays(probes: Probes, i: nat) {
    probes.look(i, 0) == Exists && probes.look(i, 1) == Exists
  }

  /** Two looks that disagree, or that fail, are no answer. */
  predicate Unclear(probes: Probes, i: nat) {
    !Stays(probes, i) && !Gone(probes, i)
  }

  ghost predicate PresentAt(paths: seq<string>, probes: Probes, n: nat, p: string)
    requires n <= |paths|
  {
    exists i: nat :: i < n && paths[i] == p && Stays(probes, i)
  }

  ghost predicate UnclearAt(paths: seq<string>, probes: Probes, n: nat, p: string)
    requires n <= |paths|
  {
    exists i: nat :: i < n && paths[i] == p && Unclear(probes, i)
  }

  /** Every path is looked at twice; only two agreeing answers count as an answer. */
  method InspectExistingPaths(paths: seq<string>, probes: Probes) returns (report: PathReport, asked: seq<Question>)
    ensures forall p :: p in report.present <==> PresentAt(paths, probes, |paths|, p)
    ensures forall p :: p in report.unknown <==> UnclearAt(paths, probes, |paths|, p)
    ensures report == PathReport([], []) <==> forall i | 0 <= i < |paths| :: Gone(probes, i)
    ensures asked == PathQuestions(|paths|)
  {
    var present: seq<string>, unknown: seq<string> := [], [];
    asked := [];
    for i := 0 to |paths|
      invariant asked == PathQuestions(i)
      invariant forall p :: p in present <==> PresentAt(paths, probes, i, p)
      invariant forall p :: p in unknown <==> UnclearAt(paths, probes, i, p)
    {
      OnePathMore(paths, probes, i);
      var first, second := probes.look(i, 0), probes.look(i, 1);
      asked := asked + [Question(APath(0), i), Question(APath(1), i)];
      assert Stays(probes, i) <==> first == Exists && second == Exists;
      assert Gone(probes, i) <==> first == NotFound && second == NotFound;
      if first == second && (first == Exists || first == NotFound) {
        if first == Exists { present := present + [paths[i]]; }
      } else {
        unknown := unknown + [paths[i]];
      }
    }
    report := PathReport(present, unknown);
    AllGone(paths, probes, report);
  }

  lemma OnePathMore(paths: seq<string>, probes: Probes, i: nat)
    requires i < |paths|
    ensures forall p :: PresentAt(paths, probes, i + 1, p) <==>
                          PresentAt(paths, probes, i, p) || (p == paths[i] && Stays(probes, i))
    ensures forall p :: UnclearAt(paths, probes, i + 1, p) <==>
                          UnclearAt(paths, probes, i, p) || (p == paths[i] && Unclear(probes, i))
  {
    forall p
      ensures PresentAt(paths, probes, i + 1, p) <==>
                PresentAt(paths, probes, i, p) || (p == paths[i] && Stays(probes, i))
      ensures UnclearAt(paths, probes, i + 1, p) <==>
                UnclearAt(paths, probes, i, p) || (p == paths[i] && Unclear(probes, i))
    {
      if k: nat :| k < i && paths[k] == p && Stays(probes, k) { assert PresentAt(paths, probes, i + 1, p); }
      if k: nat :| k < i && paths[k] == p && Unclear(probes, k) { assert UnclearAt(paths, probes, i + 1, p); }
      if p == paths[i] && Stays(probes, i) { assert PresentAt(paths, probes, i + 1, p); }
      if p == paths[i] && Unclear(probes, i) { assert UnclearAt(paths, probes, i + 1, p); }
    }
  }

  lemma AllGone(paths: seq<string>, probes: Probes, report: PathReport)
    requires forall p :: p in report.present <==> PresentAt(paths, probes, |paths|, p)
    requires forall p :: p in report.unknown <==> UnclearAt(paths, probes, |paths|, p)
    ensures report == PathReport([], []) <==> forall i | 0 <= i < |paths| :: Gone(probes, i)
  {
    if report == PathReport([], []) {
      forall i | 0 <= i < |paths| ensures Gone(probes, i) {
        assert paths[i] !in report.present && paths[i] !in report.unknown;
      }
    } else if report.present != [] {
      var p := report.present[0];
      assert p in report.present;
      var i: nat :| i < |paths| && paths[i] == p && Stays(probes, i);
      assert !Gone(probes, i);
    } else {
      var p := report.unknown[0];
      assert p in report.unknown;
      var i: nat :| i < |paths| && paths[i] == p && Unclear(probes, i);
      assert !Gone(probes, i);
    }
  }

  datatype Cleanup = Cleanup(app: bool, sidecar: bool, cdpPort: bool, temporaryAppData: bool, ownedPids: bool,
                             ownedListeners: bool, ownedWorkers: bool)

  const ALL_CLEAN := Cleanup(true, true, true, true, true, true, true)

  const NOTHING_CLEAN := Cleanup(false, false, false, false, false, false, false)

  datatype Proof = Proof(cleanup: Cleanup, clean: bool, scopeVerified: bool)

  ghost predicate All(n: nat, probe: nat -> Probe, wanted: Probe) {
    forall i: nat | i < n :: probe(i) == wanted
  }

  /** The answers to a probe, in record order. */
  ghost predicate Answers(states: seq<Probe>, n: nat, probe: nat -> Probe) {
    |states| == n && forall i: nat | i < n :: states[i] == probe(i)
  }

  /** Asks the probe about each record in turn; nothing when it fails. */
  method ProbeAll(n: nat, probe: nat -> Probe, subject: Subject)
    returns (states: Option<seq<Probe>>, asked: seq<Question>)
    ensures states.None? <==> exists i: nat :: i < n && probe(i) == Throws
    ensures states.Some? ==> Answers(states.value, n, probe) && Throws !in states.value
    ensures asked <= Questions(subject, n) && (states.Some? ==> asked == Questions(subject, n))
  {
    var seen: seq<Probe> := [];
    asked := [];
    for i := 0 to n
      invariant |seen| == i && forall k: nat | k < i :: seen[k] == probe(k) && seen[k] != Throws
      invariant |asked| == i && forall k | 0 <= k < i :: asked[k] == Question(subject, k)
    {
      asked := asked + [Question(subject, i)];
      if probe(i) == Throws {
        return None, asked;
      }
      seen := seen + [probe(i)];
    }
    states := Some(seen);
  }

  /** Everything the verifier of a valid scope asks, in order: each record once, each path twice. */
  function AllQuestions(s: Scope): seq<Question> {
    Questions(AProcess, |s.processes|) + Questions(ABaseline, |s.baseline|) + Questions(AListener, |s.listeners|)
    + PathQuestions(|AllPaths(s)|)
  }

  function AllPaths(s: Scope): seq<string> {
    s.modelPaths + s.appDataPaths + s.sessionPaths
  }

  /** Nothing recorded is left, and what was there before still is. */
  ghost predicate CleanFacts(s: Scope, probes: Probes) {
    && All(|s.processes|, probes.process, Absent)
    && All(|s.baseline|, probes.baseline, Present)
    && All(|s.listeners|, probes.listener, Absent)
    && forall i | 0 <= i < |AllPaths(s)| :: Gone(probes, i)
  }

  ghost predicate SomeThrow(s: Scope, probes: Probes) {
    || (exists i: nat :: i < |s.processes| && probes.process(i) == Throws)
    || (exists i: nat :: i < |s.baseline| && probes.baseline(i) == Throws)
    || (exists i: nat :: i < |s.listeners| && probes.listener(i) == Throws)
  }

  ghost predicate RoleGone(s: Scope, probes: Probes, role: ProcessRole) {
    forall i: nat | i < |s.processes| && s.processes[i].role == role :: probes.process(i) == Absent
  }

  ghost predicate CdpGone(s: Scope, probes: Probes) {
    forall i: nat | i < |s.listeners| && s.listeners[i].role == Cdp :: probes.listener(i) == Absent
  }

  ghost predicate ModelPathsGone(s: Scope, probes: Probes) {
    forall i | 0 <= i < |AllPaths(s)| && AllPaths(s)[i] in s.modelPaths :: Gone(probes, i)
  }

  /** The flags of a proof, one by one. */
  ghost predicate FlagsOf(s: Scope, probes: Probes, c: Cleanup) {
    && (c.app <==> RoleGone(s, probes, App)) && (c.sidecar <==> RoleGone(s, probes, Sidecar))
    && (c.cdpPort <==> CdpGone(s, probes))
    && (c.temporaryAppData <==> forall i | 0 <= i < |AllPaths(s)| :: Gone(probes, i))
    && (c.ownedPids <==> All(|s.processes|, probes.process, Absent))
    && (c.ownedListeners <==> All(|s.listeners|, probes.listener, Absent))
    && (c.ownedWorkers <==>
          All(|s.baseline|, probes.baseline, Present) && RoleGone(s, probes, ModelWorker) && ModelPathsGone(s, probes))
  }

  function Failed(): Proof {
    Proof(NOTHING_CLEAN, false, false)
  }

  predicate RoleAbsent(s: Scope, states: seq<Probe>, role: ProcessRole)
    requires |states| == |s.processes|
  {
    forall i | 0 <= i < |states| && s.processes[i].role == role :: states[i] == Absent
  }

  lemma RoleAbsentIs(s: Scope, states: seq<Probe>, role: ProcessRole, probes: Probes)
    requires Answers(states, |s.processes|, probes.process)
    ensures RoleAbsent(s, states, role) <==> RoleGone(s, probes, role)
  {
  }

  lemma AllAre(states: seq<Probe>, n: nat, probe: nat -> Probe, wanted: Probe)
    requires Answers(states, n, probe)
    ensures (forall i | 0 <= i < |states| :: states[i] == wanted) <==> All(n, probe, wanted)
  {
  }

  predicate CdpAbsent(s: Scope, states: seq<Probe>)
    requires |states| == |s.listeners|
  {
    forall i | 0 <= i < |states| && s.listeners[i].role == Cdp :: states[i] == Absent
  }

  predicate NoModelResidue(s: Scope, report: PathReport) {
    forall p | p in s.modelPaths :: p !in report.present && p !in report.unknown
  }

  lemma ResidueIs(s: Scope, report: PathReport, probes: Probes)
    requires forall p :: p in report.present <==> PresentAt(AllPaths(s), probes, |AllPaths(s)|, p)
    requires forall p :: p in report.unknown <==> UnclearAt(AllPaths(s), probes, |AllPaths(s)|, p)
    ensures NoModelResidue(s, report) <==> ModelPathsGone(s, probes)
  {
    if ModelPathsGone(s, probes) {
      forall p | p in s.modelPaths ensures p !in report.present && p !in report.unknown {}
    }
    if NoModelResidue(s, report) {
      forall i | 0 <= i < |AllPaths(s)| && AllPaths(s)[i] in s.modelPaths ensures Gone(probes, i) {
        assert !PresentAt(AllPaths(s), probes, |AllPaths(s)|, AllPaths(s)[i]);
        assert !UnclearAt(AllPaths(s), probes, |AllPaths(s)|, AllPaths(s)[i]);
      }
    }
  }

  lemma CdpAbsentIs(s: Scope, states: seq<Probe>, probes: Probes)
    requires Answers(states, |s.listeners|, probes.listener)
    ensures CdpAbsent(s, states) <==> CdpGone(s, probes)
  {
  }

  method FlagsFor(s: Scope, processes: seq<Probe>, baseline: seq<Probe>, listeners: seq<Probe>, report: PathReport,
                  probes: Probes)
    returns (c: Cleanup)
    requires Answers(processes, |s.processes|, probes.process) && Answers(baseline, |s.baseline|, probes.baseline)
    requires Answers(listeners, |s.listeners|, probes.listener)
    requires report == PathReport([], []) <==> forall i | 0 <= i < |AllPaths(s)| :: Gone(probes, i)
    requires forall p :: p in report.present <==> PresentAt(AllPaths(s), probes, |AllPaths(s)|, p)
    requires forall p :: p in report.unknown <==> UnclearAt(AllPaths(s), probes, |AllPaths(s)|, p)
    ensures FlagsOf(s, probes, c)
  {
    RoleAbsentIs(s, processes, App, probes);
    RoleAbsentIs(s, processes, Sidecar, probes);
    RoleAbsentIs(s, processes, ModelWorker, probes);
    AllAre(processes, |s.processes|, probes.process, Absent);
    AllAre(listeners, |s.listeners|, probes.listener, Absent);
    AllAre(baseline, |s.baseline|, probes.baseline, Present);
    CdpAbsentIs(s, listeners, probes);
    ResidueIs(s, report, probes);
    hide RoleAbsent, RoleGone, All, CdpAbsent, CdpGone, NoModelResidue, ModelPathsGone, AllPaths;
    c := Cleanup(
      RoleAbsent(s, processes, App), RoleAbsent(s, processes, Sidecar), CdpAbsent(s, listeners),
      |report.present| == 0 && |report.unknown| == 0,
      forall i | 0 <= i < |processes| :: processes[i] == Absent,
      forall i | 0 <= i < |listeners| :: listeners[i] == Absent,
      (forall i | 0 <= i < |baseline| :: baseline[i] == Present) && RoleAbsent(s, processes, ModelWorker)
      && NoModelResidue(s, report));
  }

  /**
   The proof of a cleanup: without errors exactly when nothing recorded is left. For a scope that
   is not valid nothing at all is asked; for a valid one everything, up to a probe that fails.
   */
  method VerifyRecordedCleanupScope(ctx: Context, scope: Option<Scope>, probes: Probes)
    returns (proof: Option<Proof>, asked: seq<Question>)
    ensures !ValidScope(ctx, scope) ==> proof == Some(Failed()) && asked == []
    ensures ValidScope(ctx, scope) ==>
              && (proof.None? <==> SomeThrow(scope.value, probes))
              && asked <= AllQuestions(scope.value) && (proof.Some? ==> asked == AllQuestions(scope.value))
              && (proof.Some? ==>
                    && proof.value.scopeVerified && FlagsOf(scope.value, probes, proof.value.cleanup)
                    && (proof.value.clean <==> CleanFacts(scope.value, probes)))
  {
    asked := [];
    var errors := ValidateAcceptanceScope(ctx, scope);
    if errors != [] {
      return Some(Failed()), [];
    }
    hide FlagsOf, CleanFacts, Questions;
    var s := scope.value;
    var more: seq<Question>;
    var processes, baseline, listeners: Option<seq<Probe>>;
    processes, more := ProbeAll(|s.processes|, probes.process, AProcess);
    asked := more;
    if processes.None? { return None, asked; }
    baseline, more := ProbeAll(|s.baseline|, probes.baseline, ABaseline);
    asked := asked + more;
    if baseline.None? { return None, asked; }
    listeners, more := ProbeAll(|s.listeners|, probes.listener, AListener);
    asked := asked + more;
    if listeners.None? { return None, asked; }
    var report;
    report, more := InspectExistingPaths(AllPaths(s), probes);
    asked := asked + more;
    var cleanup := FlagsFor(s, processes.value, baseline.value, listeners.value, report, probes);
    var clean :=
      && Present !in processes.value && Unknown !in processes.value
      && Absent !in baseline.value && Unknown !in baseline.value
      && Present !in listeners.value && Unknown !in listeners.value
      && |report.unknown| == 0 && |report.present| == 0;
    assert clean <==> CleanFacts(s, probes) by {
      Only(|s.processes|, processes.value, probes.process, Absent);
      Only(|s.baseline|, baseline.value, probes.baseline, Present);
      Only(|s.listeners|, listeners.value, probes.listener, Absent);
    }
    proof := Some(Proof(cleanup, clean, true));
  }

  /** States that are none of the other answers are the wanted one. */
  lemma Only(n: nat, states: seq<Probe>, probe: nat -> Probe, wanted: Probe)
    requires Answers(states, n, probe) && Throws !in states
    ensures All(n, probe, wanted) <==> forall x | x in states :: x == wanted
  {
    forall i: nat | i < n ensures states[i] in states {}
  }

  /** A proof without errors has every flag set. */
  lemma CleanMeansAllFlags(s: Scope, probes: Probes, c: Cleanup)
    requires CleanFacts(s, probes) && FlagsOf(s, probes, c)
    ensures c == ALL_CLEAN
  {
  }
}
