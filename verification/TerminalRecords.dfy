/**
 What a terminal record says and when, for every journal, child, manifest and outer scope it can
 be written from (tools/acceptance-checkpoint-journal.ts).
 */
module TerminalRecords {
  import opened Wrappers
  import opened CheckpointJournal

  /** No checkpoint in the journal failed. */
  ghost predicate NoneFailed(input: Terminal) {
    input.journal.state.Some? ==>
      forall i | 0 <= i < |input.journal.state.value.entries| :: input.journal.state.value.entries[i].state != Failed
  }

  /** No checkpoint was left running. */
  predicate NoneActive(input: Terminal) {
    input.journal.state.Some? ==> input.journal.state.value.active == []
  }

  predicate ManifestCompleted(input: Terminal) {
    input.manifest.Some? && input.manifest.value.completed
  }

  /** The manifest lists cleanups, and all of them were done. */
  predicate CleanedUp(input: Terminal) {
    input.manifest.Some? &&
    match input.manifest.value.cleanup
    case None => false
    case Some(flags) => |flags| > 0 && false !in flags
  }

  lemma FlagsExactly(cleanup: Option<seq<bool>>)
    ensures CleanupComplete(cleanup) <==> cleanup.Some? && |cleanup.value| > 0 && false !in cleanup.value
  {
    if cleanup.Some? && false in cleanup.value {
      var i :| 0 <= i < |cleanup.value| && cleanup.value[i] == false;
    }
  }

  /** The producer completed exactly when nothing failed or stayed active, and its manifest and cleanup are complete. */
  lemma ProducerCompletedExactly(input: Terminal)
    ensures Derive(input).producerCompleted <==>
              NoneFailed(input) && NoneActive(input) && ManifestCompleted(input) && CleanedUp(input)
  {
    if input.manifest.Some? { FlagsExactly(input.manifest.value.cleanup); }
  }

  /** Artifacts may be cleaned exactly when the producer completed and the outer scope did not fail. */
  lemma MayCleanArtifactsExactly(input: Terminal)
    ensures MayCleanArtifacts(input) <==>
              && NoneFailed(input) && NoneActive(input) && ManifestCompleted(input) && CleanedUp(input)
              && input.outer != ScopeFailed
  {
    ProducerCompletedExactly(input);
  }

  /** Artifacts are counted exactly from a completed manifest of a run in which nothing failed or stayed active. */
  lemma ArtifactsExactly(input: Terminal)
    ensures Derive(input).artifacts ==
            if NoneFailed(input) && NoneActive(input) && ManifestCompleted(input) then input.manifest.value.artifacts else 0
  {
  }

  /** The child did what it had to, as far as the journal and the child itself tell. */
  predicate Accepted(input: Terminal) {
    && input.journal.status == ValidComplete && HasMandatoryCoverage(input.journal.state)
    && input.child.status == 0 && !input.child.error && ManifestCompleted(input)
  }

  /** Which failure a terminal record names first, each exactly. */
  lemma PrimaryExactly(input: Terminal)
    ensures var primary := Derive(input).primary;
      var quiet := NoneFailed(input) && NoneActive(input);
      && (primary == Some(Primary(ManifestMissingOrInvalid, None)) <==> quiet && input.manifest.None?)
      && (primary == Some(Primary(AcceptanceFailed, None)) <==> quiet && input.manifest.Some? && !Accepted(input))
      && (primary == Some(Primary(CleanupFailed, None)) <==>
            quiet && Accepted(input) && (!CleanedUp(input) || input.outer == ScopeFailed))
      && (primary == None <==> quiet && Accepted(input) && CleanedUp(input) && input.outer != ScopeFailed)
  {
    if input.manifest.Some? { FlagsExactly(input.manifest.value.cleanup); }
  }

  /** A failed checkpoint is named with its code: the first one, also when another is still active. */
  lemma FailureIsNamed(input: Terminal, i: nat)
    requires input.journal.state.Some? && i < |input.journal.state.value.entries|
    requires var entries := input.journal.state.value.entries;
      entries[i].state == Failed && forall k | 0 <= k < i :: entries[k].state != Failed
    ensures var e := input.journal.state.value.entries[i];
      Derive(input).primary == Some(Primary(Checkpoint(e.code), Some(e.pair)))
  {
    FirstFailedIs(input.journal.state.value.entries, i);
  }

  /** Without a failure, a checkpoint that is still active counts as interrupted. */
  lemma InterruptionIsNamed(input: Terminal)
    requires NoneFailed(input) && !NoneActive(input)
    ensures var active := input.journal.state.value.active;
      Derive(input).primary == Some(Primary(Checkpoint(RunnerInterrupted), Some(active[|active| - 1])))
  {
  }
}
