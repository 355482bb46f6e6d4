/**
 The checkpoint journal of an acceptance run (tools/acceptance-checkpoint-journal.ts): the
 writer's guards, the independent check of a saved journal, and the terminal verdict.
 */
module CheckpointJournal {
  import opened Wrappers

  datatype Stage = Launch | Cdp | Runtime | OcrCompute | OcrSemantic

  datatype CheckpointId = DesktopProcess | InitialAttach | RuntimeReady | ComputePreflight | OcrResult

  datatype State = Started | Completed | Failed

  datatype Code =
    | CheckpointStarted | CheckpointCompleted
    | LaunchFailed | CdpFailed | RuntimeFailed | OcrGpuFailed | OcrSemanticFailed | RunnerInterrupted

  const STAGES: seq<Stage> := [Launch, Cdp, Runtime, OcrCompute, OcrSemantic]
  const IDS: seq<CheckpointId> := [DesktopProcess, InitialAttach, RuntimeReady, ComputePreflight, OcrResult]

  const LAST: nat := 5

  function FailureOf(stage: Stage): Code {
    match stage
    case Launch => LaunchFailed
    case Cdp => CdpFailed
    case Runtime => RuntimeFailed
    case OcrCompute => OcrGpuFailed
    case OcrSemantic => OcrSemanticFailed
  }

  datatype Pair = Pair(stage: Stage, id: CheckpointId)

  datatype Entry = Entry(number: int, pair: Pair, state: State, code: Code)

  datatype Journal = Journal(project: string, runId: string, sequence: int, entries: seq<Entry>, active: seq<Pair>)

  function PairAt(k: nat): (p: Pair)
    requires k < LAST
  {
    Pair(STAGES[k], IDS[k])
  }

  predicate IsPair(p: Pair) {
    exists k | 0 <= k < LAST :: p == PairAt(k)
  }

  lemma PairsDiffer(i: nat, j: nat)
    requires i < LAST && j < LAST && (STAGES[i] == STAGES[j] || IDS[i] == IDS[j])
    ensures i == j
  {
  }

  // ---- The states ----------------------------------------------------------------------

  /** Between checkpoints with `done` completed, in checkpoint `done`, or stopped in it. */
  datatype Phase = Between(done: nat) | Running(done: nat) | Stopped(done: nat, code: Code)

  predicate FailureCode(k: nat, code: Code)
    requires k < LAST
  {
    code == FailureOf(STAGES[k]) || code == RunnerInterrupted
  }

  predicate IsPhase(phase: Phase) {
    match phase
    case Between(done) => done <= LAST
    case Running(done) => done < LAST
    case Stopped(done, code) => done < LAST && FailureCode(done, code)
  }

  function Begun(k: nat): Entry
    requires k < LAST
  {
    Entry(2 * k + 1, PairAt(k), Started, CheckpointStarted)
  }

  function Ended(k: nat): Entry
    requires k < LAST
  {
    Entry(2 * k + 2, PairAt(k), Completed, CheckpointCompleted)
  }

  function Broken(k: nat, code: Code): Entry
    requires k < LAST
  {
    Entry(2 * k + 2, PairAt(k), Failed, code)
  }

  function Done(k: nat): seq<Entry>
    requires k <= LAST
  {
    if k == 0 then [] else Done(k - 1) + [Begun(k - 1), Ended(k - 1)]
  }

  /** The one list of entries that leads to a phase. */
  function EntriesOf(phase: Phase): seq<Entry>
    requires IsPhase(phase)
  {
    match phase
    case Between(done) => Done(done)
    case Running(done) => Done(done) + [Begun(done)]
    case Stopped(done, code) => Done(done) + [Begun(done), Broken(done, code)]
  }

  function ActiveOf(phase: Phase): seq<Pair>
    requires IsPhase(phase)
  {
    if phase.Running? then [PairAt(phase.done)] else []
  }

  function JournalOf(project: string, runId: string, phase: Phase): Journal
    requires IsPhase(phase)
  {
    Journal(project, runId, |EntriesOf(phase)|, EntriesOf(phase), ActiveOf(phase))
  }

  lemma {:induction false} DoneLength(k: nat)
    requires k <= LAST
    ensures |Done(k)| == 2 * k
  {
    if k > 0 { DoneLength(k - 1); }
  }

  /** The valid journals of a run, in closed form. */
  ghost predicate Valid(j: Journal, project: string, runId: string) {
    exists phase :: IsPhase(phase) && j == JournalOf(project, runId, phase)
  }

  // ---- Reading a list of entries ---------------------------------------------------------

  /** What one more entry makes of a phase. */
  function Step(phase: Phase, e: Entry): Option<Phase>
    requires IsPhase(phase)
  {
    match phase
    case Between(done) => if done < LAST && e == Begun(done) then Some(Running(done)) else None
    case Running(done) =>
      if e == Ended(done) then Some(Between(done + 1))
      else if FailureCode(done, e.code) && e == Broken(done, e.code) then Some(Stopped(done, e.code))
      else None
    case Stopped(_, _) => None
  }

  function Scan(entries: seq<Entry>): (r: Option<Phase>)
    ensures r.Some? ==> IsPhase(r.value)
  {
    if entries == [] then Some(Between(0))
    else
      match Scan(entries[..|entries| - 1])
      case None => None
      case Some(phase) => Step(phase, entries[|entries| - 1])
  }

  /** Reading succeeds exactly on the entries of a phase, and finds that phase. */
  lemma {:induction false} ScanFinds(entries: seq<Entry>)
    ensures match Scan(entries) case Some(phase) => EntriesOf(phase) == entries case None => true
  {
    if entries != [] {
      var front := entries[..|entries| - 1];
      ScanFinds(front);
      assert entries == front + [entries[|entries| - 1]];
      if Scan(front).Some? { StepAppends(Scan(front).value, entries[|entries| - 1]); }
    }
  }

  lemma StepAppends(phase: Phase, e: Entry)
    requires IsPhase(phase)
    ensures match Step(phase, e) case Some(next) => EntriesOf(next) == EntriesOf(phase) + [e] case None => true
  {
    match phase
    case Between(done) =>
    case Running(done) => assert Done(done) + [Begun(done)] + [e] == Done(done) + [Begun(done), e];
    case Stopped(_, _) =>
  }

  lemma {:induction false} ScanDone(k: nat)
    requires k <= LAST
    ensures Scan(Done(k)) == Some(Between(k))
  {
    if k > 0 {
      ScanDone(k - 1);
      ScanOne(Done(k - 1), Begun(k - 1));
      assert Scan(Done(k - 1) + [Begun(k - 1)]) == Some(Running(k - 1));
      ScanTwo(Done(k - 1), Begun(k - 1), Ended(k - 1));
    }
  }

  lemma ScanOne(entries: seq<Entry>, e: Entry)
    ensures Scan(entries + [e]) == match Scan(entries) case None => None case Some(phase) => Step(phase, e)
  {
    assert (entries + [e])[..|entries|] == entries;
  }

  lemma ScanTwo(entries: seq<Entry>, e: Entry, f: Entry)
    ensures Scan(entries + [e, f]) ==
            match Scan(entries + [e]) case None => None case Some(phase) => Step(phase, f)
  {
    assert (entries + [e]) + [f] == entries + [e, f];
    ScanOne(entries + [e], f);
    ScanOne(entries, e);
  }

  lemma ScanEntries(phase: Phase)
    requires IsPhase(phase)
    ensures Scan(EntriesOf(phase)) == Some(phase)
  {
    ScanDone(phase.done);
    match phase
    case Between(done) =>
    case Running(done) => ScanOne(Done(done), Begun(done));
    case Stopped(done, code) =>
      ScanOne(Done(done), Begun(done));
      ScanTwo(Done(done), Begun(done), Broken(done, code));
  }

  ghost predicate Recognized(j: Journal, project: string, runId: string) {
    && j.project == project && j.runId == runId && j.sequence == |j.entries|
    && Scan(j.entries).Some? && j.active == ActiveOf(Scan(j.entries).value)
  }

  lemma RecognizedExactly(j: Journal, project: string, runId: string)
    ensures Recognized(j, project, runId) <==> Valid(j, project, runId)
  {
    ScanFinds(j.entries);
    if Recognized(j, project, runId) {
      assert j == JournalOf(project, runId, Scan(j.entries).value);
    }
    if phase :| IsPhase(phase) && j == JournalOf(project, runId, phase) {
      ScanEntries(phase);
    }
  }

  lemma ValidLength(j: Journal, project: string, runId: string)
    requires Valid(j, project, runId)
    ensures |j.entries| <= 2 * LAST && |j.active| <= 1
  {
    var phase :| IsPhase(phase) && j == JournalOf(project, runId, phase);
    DoneLength(phase.done);
  }

  // ---- The check of a saved journal ------------------------------------------------------

  /** One turn of the checking loop, on its three variables. */
  method CheckEntry(raw: Entry, index: nat, completed: nat, active: Option<Pair>, failed: bool)
    returns (ok: bool, done: nat, running: Option<Pair>, stopped: bool)
    ensures forall phase | At(phase, index, completed, active, failed) ::
              if Step(phase, raw).Some? then ok && Tracks(Step(phase, raw).value, done, running, stopped) else !ok
  {
    done, running, stopped := completed, active, failed;
    ok := false;
    forall phase | At(phase, index, completed, active, failed) ensures |Done(phase.done)| == 2 * phase.done {
      DoneLength(phase.done);
    }
    if raw.number != index + 1 || !IsPair(raw.pair) {
      return false, done, running, stopped;
    }
    if raw.state == Started {
      if failed || active.Some? || completed >= LAST || raw.pair != PairAt(completed) || raw.code != CheckpointStarted {
        return false, done, running, stopped;
      }
      running := Some(raw.pair);
    } else {
      if active != Some(raw.pair) {
        return false, done, running, stopped;
      }
      if raw.state == Completed {
        if raw.code != CheckpointCompleted {
          return false, done, running, stopped;
        }
        done := completed + 1;
      } else if raw.code != FailureOf(raw.pair.stage) && raw.code != RunnerInterrupted {
        return false, done, running, stopped;
      } else {
        stopped := true;
      }
      running := None;
    }
    ok := true;
  }

  ghost predicate At(phase: Phase, index: nat, completed: nat, active: Option<Pair>, failed: bool) {
    IsPhase(phase) && index == |EntriesOf(phase)| && Tracks(phase, completed, active, failed)
  }

  /** The loop's variables in a phase. */
  ghost predicate Tracks(phase: Phase, completed: nat, active: Option<Pair>, failed: bool)
    requires IsPhase(phase)
  {
    && completed == phase.done
    && active == (if phase.Running? then Some(PairAt(phase.done)) else None)
    && (failed <==> phase.Stopped?)
  }

  method CheckEntries(entries: seq<Entry>) returns (ok: bool, active: Option<Pair>)
    ensures ok <==> Scan(entries).Some?
    ensures ok ==> active == match Scan(entries).value case Running(done) => Some(PairAt(done)) case _ => None
  {
    hide EntriesOf, Step;
    var completed, failed := 0, false;
    active := None;
    ghost var phase := Between(0);
    for index := 0 to |entries|
      invariant IsPhase(phase) && Scan(entries[..index]) == Some(phase)
      invariant Tracks(phase, completed, active, failed)
    {
      ScanFinds(entries[..index]);
      assert entries[..index + 1] == entries[..index] + [entries[index]];
      ScanOne(entries[..index], entries[index]);
      assert At(phase, index, completed, active, failed);
      ok, completed, active, failed := CheckEntry(entries[index], index, completed, active, failed);
      if !ok {
        ScanStops(entries, index + 1);
        return;
      }
      phase := Step(phase, entries[index]).value;
    }
    assert entries[..|entries|] == entries;
    ok := true;
  }

  method ValidState(value: Journal, project: string, runId: string) returns (ok: bool)
    ensures ok <==> Valid(value, project, runId)
  {
    RecognizedExactly(value, project, runId);
    if value.project != project || value.runId != runId || value.sequence < 0 || value.sequence != |value.entries|
       || |value.entries| > |STAGES| * 2 + 1 || |value.active| > 1
    {
      if Valid(value, project, runId) { ValidLength(value, project, runId); }
      return false;
    }
    var active: Option<Pair>;
    ok, active := CheckEntries(value.entries);
    if ok {
      ok := if |value.active| == 0 then active.None? else active == Some(value.active[0]);
    }
  }

  lemma {:induction false} ScanStops(entries: seq<Entry>, n: nat)
    requires n <= |entries| && Scan(entries[..n]) == None
    ensures Scan(entries) == None
    decreases |entries| - n
  {
    if n == |entries| {
      assert entries[..n] == entries;
    } else {
      assert entries[..n + 1][..n] == entries[..n];
      ScanStops(entries, n + 1);
    }
  }

  // ---- The writer ------------------------------------------------------------------------

  datatype Move = Begin(pair: Pair) | Complete(pair: Pair) | Fail(pair: Pair, code: Option<Code>)

  function Initial(project: string, runId: string): Journal {
    Journal(project, runId, 0, [], [])
  }

  function CompletedCount(entries: seq<Entry>): nat {
    if entries == [] then 0
    else CompletedCount(entries[..|entries| - 1]) + if entries[|entries| - 1].state == Completed then 1 else 0
  }

  function Appended(j: Journal, e: Entry, active: seq<Pair>): Journal {
    j.(sequence := e.number, entries := j.entries + [e], active := active)
  }

  /** What the guards of a transition let through, before it is saved. */
  function Guarded(j: Journal, move: Move): Option<Journal> {
    var completed := CompletedCount(j.entries);
    if !IsPair(move.pair) then None
    else if move.Begin? then
      if j.active != [] || (exists i | 0 <= i < |j.entries| :: j.entries[i].pair.id == move.pair.id)
         || completed >= LAST || PairAt(completed) != move.pair
      then None
      else Some(Appended(j, Entry(j.sequence + 1, move.pair, Started, CheckpointStarted), [move.pair]))
    else if j.active == [] || j.active[|j.active| - 1] != move.pair then None
    else if move.Complete? then
      Some(Appended(j, Entry(j.sequence + 1, move.pair, Completed, CheckpointCompleted), []))
    else
      var code := move.code.GetOr(FailureOf(move.pair.stage));
      if code != FailureOf(move.pair.stage) && code != RunnerInterrupted then None
      else Some(Appended(j, Entry(j.sequence + 1, move.pair, Failed, code), []))
  }

  /** The move as a step between phases. */
  function Moved(phase: Phase, move: Move): Option<Phase>
    requires IsPhase(phase)
  {
    match (phase, move)
    case (Between(done), Begin(pair)) => if done < LAST && pair == PairAt(done) then Some(Running(done)) else None
    case (Running(done), Complete(pair)) => if pair == PairAt(done) then Some(Between(done + 1)) else None
    case (Running(done), Fail(pair, code)) =>
      if pair == PairAt(done) && FailureCode(done, code.GetOr(FailureOf(pair.stage)))
      then Some(Stopped(done, code.GetOr(FailureOf(pair.stage)))) else None
    case _ => None
  }

  lemma {:induction false} DoneAt(k: nat, i: nat)
    requires k <= LAST && i < 2 * k
    ensures |Done(k)| == 2 * k && Done(k)[i] == if i % 2 == 0 then Begun(i / 2) else Ended(i / 2)
  {
    DoneLength(k - 1);
    if i < 2 * (k - 1) { DoneAt(k - 1, i); }
  }

  lemma CountOne(entries: seq<Entry>, e: Entry)
    ensures CompletedCount(entries + [e]) == CompletedCount(entries) + if e.state == Completed then 1 else 0
  {
    assert (entries + [e])[..|entries|] == entries;
  }

  lemma CountTwo(entries: seq<Entry>, e: Entry, f: Entry)
    requires e.state == Started
    ensures CompletedCount(entries + [e, f]) == CompletedCount(entries) + if f.state == Completed then 1 else 0
  {
    assert (entries + [e]) + [f] == entries + [e, f];
    CountOne(entries, e);
    CountOne(entries + [e], f);
  }

  lemma {:induction false} CountDone(k: nat)
    requires k <= LAST
    ensures CompletedCount(Done(k)) == k
  {
    if k > 0 {
      CountDone(k - 1);
      CountTwo(Done(k - 1), Begun(k - 1), Ended(k - 1));
    }
  }

  lemma CountPhase(phase: Phase)
    requires IsPhase(phase)
    ensures CompletedCount(EntriesOf(phase)) == phase.done
  {
    CountDone(phase.done);
    match phase
    case Between(_) =>
    case Running(done) => CountOne(Done(done), Begun(done));
    case Stopped(done, code) => CountTwo(Done(done), Begun(done), Broken(done, code));
  }

  lemma PairOfEntry(phase: Phase, i: nat)
    requires IsPhase(phase) && i < |EntriesOf(phase)|
    ensures var k := if i < 2 * phase.done then i / 2 else phase.done;
      k < LAST && EntriesOf(phase)[i].pair == PairAt(k) && (k == phase.done ==> !phase.Between?)
  {
    DoneLength(phase.done);
    if i < 2 * phase.done { DoneAt(phase.done, i); }
  }

  /** Which checkpoints have been begun. */
  lemma BegunBefore(phase: Phase, k: nat)
    requires IsPhase(phase) && k < LAST
    ensures (exists i | 0 <= i < |EntriesOf(phase)| :: EntriesOf(phase)[i].pair.id == IDS[k])
            <==> k < phase.done || (!phase.Between? && k == phase.done)
  {
    var entries := EntriesOf(phase);
    DoneLength(phase.done);
    forall i | 0 <= i < |entries| && entries[i].pair.id == IDS[k]
      ensures k < phase.done || (!phase.Between? && k == phase.done)
    {
      PairOfEntry(phase, i);
      PairsDiffer(if i < 2 * phase.done then i / 2 else phase.done, k);
    }
    if k < phase.done || (!phase.Between? && k == phase.done) {
      PairOfEntry(phase, 2 * k);
      assert entries[2 * k].pair.id == IDS[k];
    }
  }

  /** In a valid journal the guards let through exactly the steps between phases. */
  lemma GuardsExactly(project: string, runId: string, phase: Phase, move: Move)
    requires IsPhase(phase)
    ensures Guarded(JournalOf(project, runId, phase), move) ==
            match Moved(phase, move) case None => None case Some(next) => Some(JournalOf(project, runId, next))
  {
    hide CompletedCount, Done;
    CountPhase(phase);
    DoneLength(phase.done);
    if move.Begin? {
      if phase.done < LAST { BegunBefore(phase, phase.done); }
    } else if phase.Running? {
      EndsCheckpoint(project, runId, phase.done, move);
    }
  }

  lemma EndsCheckpoint(project: string, runId: string, done: nat, move: Move)
    requires done < LAST && !move.Begin?
    ensures var j := JournalOf(project, runId, Running(done));
      Guarded(j, move) ==
        match Moved(Running(done), move) case None => None case Some(next) => Some(JournalOf(project, runId, next))
  {
    hide Done;
    DoneLength(done);
    if move.pair == PairAt(done) {
      var code := if move.Fail? then move.code.GetOr(FailureOf(move.pair.stage)) else RunnerInterrupted;
      StepAppends(Running(done), Ended(done));
      if FailureCode(done, code) { StepAppends(Running(done), Broken(done, code)); }
    }
  }

  /** What the guards accept is valid, so saving it is never refused. */
  lemma AcceptedIsValid(j: Journal, project: string, runId: string, move: Move)
    requires Valid(j, project, runId) && Guarded(j, move).Some?
    ensures Valid(Guarded(j, move).value, project, runId)
  {
    var phase :| IsPhase(phase) && j == JournalOf(project, runId, phase);
    GuardsExactly(project, runId, phase, move);
  }

  class Writer {
    const project: string
    const runId: string
    var current: Journal

    ghost predicate Sound()
      reads this
    {
      Valid(current, project, runId)
    }

    constructor (start: Journal, project: string, runId: string)
      requires Valid(start, project, runId)
      ensures current == start && this.project == project && this.runId == runId && Sound()
    {
      this.project := project;
      this.runId := runId;
      current := start;
    }

    method Save(next: Journal) returns (saved: bool)
      modifies this`current
      ensures saved <==> Valid(next, project, runId)
      ensures current == if saved then next else old(current)
    {
      saved := ValidState(next, project, runId);
      if saved { current := next; }
    }

    /** A transition succeeds exactly when its guards do: its saving never fails. */
    method Transition(move: Move) returns (accepted: bool)
      requires Sound()
      modifies this`current
      ensures Sound()
      ensures accepted <==> Guarded(old(current), move).Some?
      ensures current == Guarded(old(current), move).GetOr(old(current))
    {
      match Guarded(current, move)
      case None => accepted := false;
      case Some(next) =>
        AcceptedIsValid(current, project, runId, move);
        accepted := Save(next);
    }

    method FailActive(code: Option<Code>) returns (failed: bool, refused: bool)
      requires Sound()
      modifies this`current
      ensures Sound()
      ensures old(current.active) == [] ==> !failed && !refused && current == old(current)
      ensures old(current.active) != [] ==>
                var move := Fail(old(current.active)[|old(current.active)| - 1], code);
                && (failed <==> Guarded(old(current), move).Some?) && (refused <==> !failed)
                && current == Guarded(old(current), move).GetOr(old(current))
    {
      if current.active == [] {
        return false, false;
      }
      failed := Transition(Fail(current.active[|current.active| - 1], code));
      refused := !failed;
    }
  }

  /**
   What is where the journal is kept: no file, a file that cannot be read as JSON, JSON of another
   shape, or some journal.
   */
  datatype File = Missing | Unreadable | Shapeless | Holds(journal: Journal)

  datatype OpenError = InvalidRequest | ReadFailed | InvalidJournal

  predicate IsSafeChar(c: char) {
    IsSafeStart(c) || c == '.' || c == '_' || c == '-'
  }

  predicate IsSafeStart(c: char) {
    'A' <= c <= 'Z' || 'a' <= c <= 'z' || '0' <= c <= '9'
  }

  /** A project or run name that can be used: a letter or digit, and at most 63 more characters. */
  predicate IsSafe(s: string) {
    1 <= |s| <= 64 && IsSafeStart(s[0]) && forall i | 0 <= i < |s| :: IsSafeChar(s[i])
  }

  /** Opening reads the journal that is there, or starts a new one; each other case is its own error. */
  method OpenWriter(file: File, project: string, runId: string) returns (r: Result<Writer, OpenError>)
    ensures r.Failure? ==>
              r.error == if !IsSafe(project) || !IsSafe(runId) then InvalidRequest
                         else if file == Unreadable then ReadFailed else InvalidJournal
    ensures r.Success? <==>
              IsSafe(project) && IsSafe(runId) && (file.Missing? || (file.Holds? && Valid(file.journal, project, runId)))
    ensures r.Success? ==>
              && fresh(r.value) && r.value.Sound() && r.value.project == project && r.value.runId == runId
              && r.value.current == if file.Holds? then file.journal else Initial(project, runId)
  {
    if !IsSafe(project) || !IsSafe(runId) { return Failure(InvalidRequest); }
    if file == Unreadable { return Failure(ReadFailed); }
    if file == Shapeless { return Failure(InvalidJournal); }
    var value := if file.Holds? then file.journal else Initial(project, runId);
    assert file.Missing? ==> value == JournalOf(project, runId, Between(0));
    var ok := ValidState(value, project, runId);
    if !ok { return Failure(InvalidJournal); }
    var w := new Writer(value, project, runId);
    r := Success(w);
  }

  // ---- The state space -------------------------------------------------------------------

  /** A run of moves; a refused move changes nothing. */
  function Run(j: Journal, moves: seq<Move>): Journal
    decreases |moves|
  {
    if moves == [] then j
    else
      var before := Run(j, moves[..|moves| - 1]);
      Guarded(before, moves[|moves| - 1]).GetOr(before)
  }

  lemma {:induction false} RunStaysValid(j: Journal, project: string, runId: string, moves: seq<Move>)
    requires Valid(j, project, runId)
    ensures Valid(Run(j, moves), project, runId)
    decreases |moves|
  {
    if moves != [] {
      var before := Run(j, moves[..|moves| - 1]);
      RunStaysValid(j, project, runId, moves[..|moves| - 1]);
      if Guarded(before, moves[|moves| - 1]).Some? {
        AcceptedIsValid(before, project, runId, moves[|moves| - 1]);
      }
    }
  }

  lemma RunOne(j: Journal, moves: seq<Move>, move: Move)
    ensures Run(j, moves + [move]) == Guarded(Run(j, moves), move).GetOr(Run(j, moves))
  {
    assert (moves + [move])[..|moves|] == moves;
  }

  lemma {:induction false} ReachesBetween(project: string, runId: string, k: nat) returns (moves: seq<Move>)
    requires k <= LAST
    ensures Run(Initial(project, runId), moves) == JournalOf(project, runId, Between(k))
  {
    if k == 0 {
      moves := [];
    } else {
      var first := ReachesBetween(project, runId, k - 1);
      var more := ReachesOne(project, runId, first, Between(k - 1), Begin(PairAt(k - 1)));
      moves := ReachesOne(project, runId, more, Running(k - 1), Complete(PairAt(k - 1)));
    }
  }

  lemma ReachesOne(project: string, runId: string, moves: seq<Move>, phase: Phase, move: Move)
    returns (more: seq<Move>)
    requires IsPhase(phase) && Run(Initial(project, runId), moves) == JournalOf(project, runId, phase)
    requires Moved(phase, move).Some?
    ensures Run(Initial(project, runId), more) == JournalOf(project, runId, Moved(phase, move).value)
  {
    more := moves + [move];
    RunOne(Initial(project, runId), moves, move);
    GuardsExactly(project, runId, phase, move);
  }

  lemma Reaches(project: string, runId: string, phase: Phase) returns (moves: seq<Move>)
    requires IsPhase(phase)
    ensures Run(Initial(project, runId), moves) == JournalOf(project, runId, phase)
  {
    moves := ReachesBetween(project, runId, phase.done);
    if !phase.Between? {
      moves := ReachesOne(project, runId, moves, Between(phase.done), Begin(PairAt(phase.done)));
    }
    if phase.Stopped? {
      moves := ReachesOne(project, runId, moves, Running(phase.done), Fail(PairAt(phase.done), Some(phase.code)));
    }
  }

  /** The guards and the check describe the same journals: valid is reachable from the empty journal. */
  lemma ValidExactlyReachable(j: Journal, project: string, runId: string)
    ensures Valid(j, project, runId) <==> exists moves :: Run(Initial(project, runId), moves) == j
  {
    if phase :| IsPhase(phase) && j == JournalOf(project, runId, phase) {
      var moves := Reaches(project, runId, phase);
    }
    if moves :| Run(Initial(project, runId), moves) == j {
      assert Initial(project, runId) == JournalOf(project, runId, Between(0));
      RunStaysValid(Initial(project, runId), project, runId, moves);
    }
  }

  // ---- The terminal verdict --------------------------------------------------------------

  datatype JournalStatus = Absent | ValidComplete | ValidActive | Invalid

  datatype Observation = Observation(status: JournalStatus, state: Option<Journal>)

  method ReadJournal(file: File, project: string, runId: string) returns (seen: Result<Observation, OpenError>)
    ensures seen.Failure? <==> !IsSafe(project) || !IsSafe(runId)
    ensures seen.Failure? ==> seen.error == InvalidRequest
    ensures seen.Success? ==>
      match file
      case Missing => seen.value == Observation(Absent, None)
      case Unreadable => seen.value == Observation(Invalid, None)
      case Shapeless => seen.value == Observation(Invalid, None)
      case Holds(j) =>
        if !Valid(j, project, runId) then seen.value == Observation(Invalid, None)
        else seen.value == Observation(if j.active == [] then ValidComplete else ValidActive, Some(j))
  {
    if !IsSafe(project) || !IsSafe(runId) { return Failure(InvalidRequest); }
    match file
    case Missing => seen := Success(Observation(Absent, None));
    case Unreadable => seen := Success(Observation(Invalid, None));
    case Shapeless => seen := Success(Observation(Invalid, None));
    case Holds(j) =>
      var ok := ValidState(j, project, runId);
      seen := if ok then Success(Observation(if |j.active| > 0 then ValidActive else ValidComplete, Some(j)))
              else Success(Observation(Invalid, None));
  }

  /** Every checkpoint begun and completed, in order. */
  predicate HasMandatoryCoverage(state: Option<Journal>) {
    && state.Some? && state.value.active == [] && |state.value.entries| == |STAGES| * 2
    && forall i | 0 <= i < |state.value.entries| ::
         var e := state.value.entries[i];
         && e.pair == PairAt(i / 2)
         && e.state == (if i % 2 == 1 then Completed else Started)
         && e.code == if i % 2 == 1 then CheckpointCompleted else CheckpointStarted
  }

  datatype OuterScope = ScopeCompleted | ScopeFailed | NotApplicable

  /** What the manifest says of the run and of each of its cleanups; no cleanup record is `None`. */
  datatype Manifest = Manifest(completed: bool, cleanup: Option<seq<bool>>, artifacts: nat)

  datatype Child = Child(status: int, error: bool)

  datatype Terminal = Terminal(journal: Observation, child: Child, manifest: Option<Manifest>, outer: OuterScope)

  datatype PrimaryCode = Checkpoint(code: Code) | AcceptanceFailed | ManifestMissingOrInvalid | CleanupFailed

  datatype Primary = Primary(code: PrimaryCode, at: Option<Pair>)

  datatype Derived = Derived(primary: Option<Primary>, producerCompleted: bool, artifacts: nat)

  function FirstFailed(entries: seq<Entry>): (r: Option<Entry>)
    ensures r.Some? <==> exists i :: 0 <= i < |entries| && entries[i].state == Failed
  {
    if entries == [] then None
    else if entries[0].state == Failed then Some(entries[0])
    else
      assert entries == [entries[0]] + entries[1..];
      FirstFailed(entries[1..])
  }

  predicate CleanupComplete(cleanup: Option<seq<bool>>) {
    cleanup.Some? && cleanup.value != [] && forall i | 0 <= i < |cleanup.value| :: cleanup.value[i]
  }

  function Derive(input: Terminal): Derived {
    var state := input.journal.state;
    var failed := if state.Some? then FirstFailed(state.value.entries) else None;
    if failed.Some? then Derived(Some(Primary(Checkpoint(failed.value.code), Some(failed.value.pair))), false, 0)
    else if state.Some? && state.value.active != [] then
      Derived(Some(Primary(Checkpoint(RunnerInterrupted), Some(state.value.active[|state.value.active| - 1]))), false, 0)
    else
      match input.manifest
      case None => Derived(Some(Primary(ManifestMissingOrInvalid, None)), false, 0)
      case Some(m) =>
        var cleaned := CleanupComplete(m.cleanup);
        var producer, artifacts := m.completed && cleaned, if m.completed then m.artifacts else 0;
        if input.journal.status != ValidComplete || !HasMandatoryCoverage(state) || input.child.status != 0
           || input.child.error || !m.completed
        then Derived(Some(Primary(AcceptanceFailed, None)), producer, artifacts)
        else if !cleaned || input.outer == ScopeFailed then Derived(Some(Primary(CleanupFailed, None)), producer, artifacts)
        else Derived(None, producer, artifacts)
  }

  /** `phase1Verdict` is `pass`. */
  predicate Passes(input: Terminal) {
    Derive(input).primary == None
  }

  /** `artifactCleanup` is `allowed`. */
  predicate MayCleanArtifacts(input: Terminal) {
    Derive(input).producerCompleted && input.outer != ScopeFailed
  }

  /** Covering all checkpoints is having completed the last one. */
  lemma CoverageExactly(j: Journal, project: string, runId: string)
    requires Valid(j, project, runId)
    ensures HasMandatoryCoverage(Some(j)) <==> j == JournalOf(project, runId, Between(LAST))
  {
    var phase :| IsPhase(phase) && j == JournalOf(project, runId, phase);
    DoneLength(phase.done);
    forall i | 0 <= i < 2 * phase.done { DoneAt(phase.done, i); }
  }

  /** What a verdict of `pass` takes, exactly. */
  lemma PassesExactly(input: Terminal)
    ensures Passes(input) <==>
              && input.journal.status == ValidComplete && HasMandatoryCoverage(input.journal.state)
              && input.child.status == 0 && !input.child.error
              && input.manifest.Some? && input.manifest.value.completed && CleanupComplete(input.manifest.value.cleanup)
              && input.outer != ScopeFailed
    ensures Passes(input) ==> MayCleanArtifacts(input)
  {
    var state := input.journal.state;
    if HasMandatoryCoverage(state) {
      forall i | 0 <= i < |state.value.entries| ensures state.value.entries[i].state != Failed {}
    }
  }

  /** A pass read from a saved journal shows all five checkpoints completed and nothing else. */
  lemma PassMeansAllCompleted(input: Terminal, j: Journal, project: string, runId: string)
    requires Passes(input) && input.journal.state == Some(j) && Valid(j, project, runId)
    ensures j == JournalOf(project, runId, Between(LAST))
  {
    PassesExactly(input);
    CoverageExactly(j, project, runId);
  }

  lemma {:induction false} EntriesStay(j: Journal, moves: seq<Move>)
    ensures j.entries <= Run(j, moves).entries
    decreases |moves|
  {
    if moves != [] { EntriesStay(j, moves[..|moves| - 1]); }
  }

  /** A run that ever recorded a failure never passes, and its terminal record names that failure. */
  lemma FailureNeverPasses(project: string, runId: string, before: seq<Move>, after: seq<Move>, i: nat, input: Terminal)
    requires var j := Run(Initial(project, runId), before); i < |j.entries| && j.entries[i].state == Failed
    requires input.journal.state == Some(Run(Run(Initial(project, runId), before), after))
    ensures !Passes(input) && !MayCleanArtifacts(input)
    ensures var e := Run(Initial(project, runId), before).entries[i];
      Derive(input).primary == Some(Primary(Checkpoint(e.code), Some(e.pair)))
  {
    var start := Initial(project, runId);
    var j := Run(start, before);
    var end := Run(j, after);
    EntriesStay(j, after);
    assert end.entries[i] == j.entries[i];
    assert start == JournalOf(project, runId, Between(0));
    RunStaysValid(start, project, runId, before);
    RunStaysValid(j, project, runId, after);
    OnlyOneFailure(end, project, runId, i);
  }

  lemma {:induction false} FirstFailedIs(entries: seq<Entry>, i: nat)
    requires i < |entries| && entries[i].state == Failed
    requires forall k | 0 <= k < i :: entries[k].state != Failed
    ensures FirstFailed(entries) == Some(entries[i])
  {
    if i > 0 { FirstFailedIs(entries[1..], i - 1); }
  }

  lemma OnlyOneFailure(j: Journal, project: string, runId: string, i: nat)
    requires Valid(j, project, runId) && i < |j.entries| && j.entries[i].state == Failed
    ensures FirstFailed(j.entries) == Some(j.entries[i])
  {
    var phase :| IsPhase(phase) && j == JournalOf(project, runId, phase);
    DoneLength(phase.done);
    forall k | 0 <= k < 2 * phase.done ensures j.entries[k].state != Failed { DoneAt(phase.done, k); }
    FirstFailedIs(j.entries, i);
  }
}
