/** Planning and applying a release version across its owner files (tools/release/sync-versions.ts). */
module VersionPlan {
  import opened Wrappers

  type FilePath = string

  /** Where a file states the version: `locate` gives the value's place, or nothing when the file is refused. */
  datatype Owner = Owner(path: FilePath, locate: string -> Option<(nat, nat)>)

  type Files = map<FilePath, string>

  datatype Change = Change(path: FilePath, before: string, after: string)

  datatype Refusal = BadVersion | OwnerRefused(path: FilePath)

  /** An owner found in a file: the value's bounds are bounds of the text. */
  predicate Located(owner: Owner, content: string) {
    match owner.locate(content)
    case None => false
    case Some((a, b)) => a <= b <= |content|
  }

  /** The content with the version put in place of the value. */
  function Stamped(owner: Owner, content: string, version: string): string
    requires Located(owner, content)
  {
    var (a, b) := owner.locate(content).value;
    content[..a] + version + content[b..]
  }

  predicate Readable(files: Files, owner: Owner) {
    owner.path in files && Located(owner, files[owner.path])
  }

  function PlanFirst(files: Files, owners: seq<Owner>, version: string, n: nat): Result<seq<Change>, Refusal>
    requires n <= |owners|
  {
    if n == 0 then Success([])
    else
      var changes :- PlanFirst(files, owners, version, n - 1);
      var owner := owners[n - 1];
      if !Readable(files, owner) then Failure(OwnerRefused(owner.path))
      else
        var before, after := files[owner.path], Stamped(owner, files[owner.path], version);
        Success(if before != after then changes + [Change(owner.path, before, after)] else changes)
  }

  /** Every owner is validated before any change is planned. */
  function Plan(files: Files, owners: seq<Owner>, version: string, isVersion: string -> bool): Result<seq<Change>, Refusal> {
    if !isVersion(version) then Failure(BadVersion) else PlanFirst(files, owners, version, |owners|)
  }

  method PlanReleaseVersion(files: Files, owners: seq<Owner>, version: string, isVersion: string -> bool)
    returns (r: Result<seq<Change>, Refusal>)
    ensures r == Plan(files, owners, version, isVersion)
  {
    if !isVersion(version) {
      return Failure(BadVersion);
    }
    var changes: seq<Change> := [];
    for i := 0 to |owners|
      invariant PlanFirst(files, owners, version, i) == Success(changes)
    {
      var owner := owners[i];
      if !Readable(files, owner) {
        RefusedStays(files, owners, version, i + 1);
        return Failure(OwnerRefused(owner.path));
      }
      var before := files[owner.path];
      var after := Stamped(owner, before, version);
      if before != after {
        changes := changes + [Change(owner.path, before, after)];
      }
    }
    r := Success(changes);
  }

  lemma {:induction false} RefusedStays(files: Files, owners: seq<Owner>, version: string, n: nat)
    requires n <= |owners| && PlanFirst(files, owners, version, n).Failure?
    ensures PlanFirst(files, owners, version, |owners|) == PlanFirst(files, owners, version, n)
    decreases |owners| - n
  {
    if n < |owners| { RefusedStays(files, owners, version, n + 1); }
  }

  // ---- What a plan says ------------------------------------------------------------------

  ghost predicate DistinctOwners(owners: seq<Owner>) {
    forall i, j | 0 <= i < j < |owners| :: owners[i].path != owners[j].path
  }

  ghost predicate DistinctPaths(changes: seq<Change>) {
    forall i, j | 0 <= i < j < |changes| :: changes[i].path != changes[j].path
  }

  /** The files after the first `n` changes. */
  function AppliedFirst(files: Files, changes: seq<Change>, n: nat): Files
    requires n <= |changes|
  {
    if n == 0 then files else AppliedFirst(files, changes, n - 1)[changes[n - 1].path := changes[n - 1].after]
  }

  function Applied(files: Files, changes: seq<Change>): Files {
    AppliedFirst(files, changes, |changes|)
  }

  /** What the first `n` changes come to depends on them only. */
  lemma {:induction false} AppliedSame(files: Files, xs: seq<Change>, ys: seq<Change>, n: nat)
    requires n <= |xs| && n <= |ys| && forall i | 0 <= i < n :: xs[i] == ys[i]
    ensures AppliedFirst(files, xs, n) == AppliedFirst(files, ys, n)
  {
    if n > 0 { AppliedSame(files, xs, ys, n - 1); }
  }

  /** The files that the first `n` changes touch. */
  function PathsFirst(changes: seq<Change>, n: nat): set<FilePath>
    requires n <= |changes|
  {
    if n == 0 then {} else PathsFirst(changes, n - 1) + {changes[n - 1].path}
  }

  lemma {:induction false} PathsExactly(changes: seq<Change>, n: nat, p: FilePath)
    requires n <= |changes|
    ensures p in PathsFirst(changes, n) <==> exists i | 0 <= i < n :: changes[i].path == p
  {
    if n > 0 { PathsExactly(changes, n - 1, p); }
  }

  /** Every change starts from what the file holds. */
  ghost predicate Fresh(files: Files, changes: seq<Change>) {
    DistinctPaths(changes) && forall c | c in changes :: c.path in files && files[c.path] == c.before
  }

  ghost predicate OwnedBefore(owners: seq<Owner>, n: nat, path: FilePath)
    requires n <= |owners|
  {
    exists i | 0 <= i < n :: owners[i].path == path
  }

  /** A plan starts from the files as they are and changes owner files only, each once. */
  lemma {:induction false} PlanIsFresh(files: Files, owners: seq<Owner>, version: string, n: nat)
    requires n <= |owners| && DistinctOwners(owners) && PlanFirst(files, owners, version, n).Success?
    ensures var changes := PlanFirst(files, owners, version, n).value;
      Fresh(files, changes) && forall c | c in changes :: OwnedBefore(owners, n, c.path)
  {
    if n > 0 {
      PlanIsFresh(files, owners, version, n - 1);
      var front, all := PlanFirst(files, owners, version, n - 1).value, PlanFirst(files, owners, version, n).value;
      forall c | c in all ensures OwnedBefore(owners, n, c.path) {
        if c in front {
          var i :| 0 <= i < n - 1 && owners[i].path == c.path;
        } else {
          assert owners[n - 1].path == c.path;
        }
      }
      forall c | c in front ensures c.path != owners[n - 1].path {
        var i :| 0 <= i < n - 1 && owners[i].path == c.path;
      }
    }
  }

  lemma {:induction false} PlanReads(files: Files, owners: seq<Owner>, version: string, n: nat)
    requires n <= |owners|
    ensures PlanFirst(files, owners, version, n).Success? <==> forall i | 0 <= i < n :: Readable(files, owners[i])
  {
    if n > 0 { PlanReads(files, owners, version, n - 1); }
  }

  /** `after` holds the owner's file of `files` with the version stamped in. */
  ghost predicate Carries(after: Files, files: Files, owner: Owner, version: string) {
    && Readable(files, owner) && owner.path in after
    && after[owner.path] == Stamped(owner, files[owner.path], version)
  }

  lemma AppliedMore(files: Files, front: seq<Change>, c: Change)
    ensures Applied(files, front + [c]) == Applied(files, front)[c.path := c.after]
  {
    AppliedSame(files, front, front + [c], |front|);
  }

  lemma OwnedMore(owners: seq<Owner>, n: nat, p: FilePath)
    requires 0 < n <= |owners|
    ensures OwnedBefore(owners, n, p) <==> OwnedBefore(owners, n - 1, p) || owners[n - 1].path == p
  {
    if i :| 0 <= i < n - 1 && owners[i].path == p {
      assert 0 <= i < n && owners[i].path == p;
    }
  }

  lemma {:induction false} AppliedOthers(files: Files, owners: seq<Owner>, version: string, n: nat, p: FilePath)
    requires n <= |owners| && PlanFirst(files, owners, version, n).Success?
    requires p in files && !OwnedBefore(owners, n, p)
    ensures var after := Applied(files, PlanFirst(files, owners, version, n).value); p in after && after[p] == files[p]
  {
    if n > 0 {
      OwnedMore(owners, n, p);
      AppliedOthers(files, owners, version, n - 1, p);
      PlanStep(files, owners, version, n);
    }
  }

  lemma PlanStep(files: Files, owners: seq<Owner>, version: string, n: nat)
    requires 0 < n <= |owners| && PlanFirst(files, owners, version, n).Success?
    ensures PlanFirst(files, owners, version, n - 1).Success? && Readable(files, owners[n - 1])
    ensures var owner, before := owners[n - 1], Applied(files, PlanFirst(files, owners, version, n - 1).value);
      var stamped := Stamped(owner, files[owner.path], version);
      Applied(files, PlanFirst(files, owners, version, n).value) ==
        if stamped != files[owner.path] then before[owner.path := stamped] else before
  {
    var owner, front := owners[n - 1], PlanFirst(files, owners, version, n - 1).value;
    AppliedMore(files, front, Change(owner.path, files[owner.path], Stamped(owner, files[owner.path], version)));
  }

  /** Carrying out a plan puts the version into every owner. */
  lemma {:induction false} AppliedPlan(files: Files, owners: seq<Owner>, version: string, n: nat, i: nat)
    requires i < n <= |owners| && DistinctOwners(owners) && PlanFirst(files, owners, version, n).Success?
    ensures Carries(Applied(files, PlanFirst(files, owners, version, n).value), files, owners[i], version)
  {
    PlanStep(files, owners, version, n);
    if i < n - 1 {
      AppliedPlan(files, owners, version, n - 1, i);
    } else {
      AppliedOthers(files, owners, version, n - 1, owners[i].path);
    }
  }

  /** The owner finds its value again in what was stamped, and stamping once more changes nothing. */
  predicate Settles(files: Files, owner: Owner, version: string) {
    && Readable(files, owner)
    && var stamped := Stamped(owner, files[owner.path], version);
       Located(owner, stamped) && Stamped(owner, stamped, version) == stamped
  }

  lemma {:induction false} NothingToDo(files: Files, owners: seq<Owner>, version: string, n: nat)
    requires n <= |owners|
    ensures PlanFirst(files, owners, version, n) == Success([]) <==>
              forall i | 0 <= i < n ::
                Readable(files, owners[i]) && Stamped(owners[i], files[owners[i].path], version) == files[owners[i].path]
  {
    if n > 0 {
      NothingToDo(files, owners, version, n - 1);
    }
  }

  /** After a plan is carried out, planning the same version again finds nothing to do, exactly when every owner settles. */
  lemma ReplanExactly(files: Files, owners: seq<Owner>, version: string, isVersion: string -> bool)
    requires DistinctOwners(owners) && Plan(files, owners, version, isVersion).Success?
    ensures var after := Applied(files, Plan(files, owners, version, isVersion).value);
      Plan(after, owners, version, isVersion) == Success([]) <==>
        forall i | 0 <= i < |owners| :: Settles(files, owners[i], version)
  {
    var after := Applied(files, Plan(files, owners, version, isVersion).value);
    NothingToDo(after, owners, version, |owners|);
    forall i | 0 <= i < |owners|
      ensures Settles(files, owners[i], version) <==>
                Readable(after, owners[i])
                && Stamped(owners[i], after[owners[i].path], version) == after[owners[i].path]
    {
      AppliedPlan(files, owners, version, |owners|, i);
    }
  }

  // ---- Applying --------------------------------------------------------------------------

  /** What a write does: it succeeds, or fails and leaves the file in some state. */
  datatype Write = Written | Torn(left: string)

  /** The disk's answers, by the number of the read or write since the apply began. */
  datatype Disk = Disk(write: nat -> Write, readFails: nat -> bool)

  datatype Failed = Stale | Refused(refusal: Refusal) | RolledBack | NeedsAttention(paths: seq<FilePath>)

  /** Only the files named can differ from before. */
  ghost predicate RestoredBut(files: Files, original: Files, open: set<FilePath>) {
    files.Keys == original.Keys && forall p | p in original && p !in open :: files[p] == original[p]
  }

  function Elements(paths: seq<FilePath>): set<FilePath> {
    set p | p in paths
  }

  function Outcome(files: Files, path: FilePath, content: string, answer: Write): Files {
    files[path := if answer.Written? then content else answer.left]
  }

  /** The files of `written` whose restoring write failed, last written first. */
  function Unrestored(written: seq<Change>, disk: Disk, first: nat, k: nat): seq<FilePath>
    requires k <= |written|
  {
    if k == 0 then []
    else
      Unrestored(written, disk, first, k - 1)
      + if disk.write(first + k - 1).Written? then [] else [written[|written| - k].path]
  }

  lemma UnrestoredStep(written: seq<Change>, disk: Disk, first: nat, k: nat)
    requires k < |written|
    ensures var path, lost := written[|written| - 1 - k].path, Unrestored(written, disk, first, k);
      Unrestored(written, disk, first, k + 1) == if disk.write(first + k).Written? then lost else lost + [path]
  {
  }

  lemma RestoreStep(files: Files, original: Files, written: seq<Change>, n: nat, failures: seq<FilePath>, answer: Write)
    requires 0 < n <= |written| && RestoredBut(files, original, PathsFirst(written, n) + Elements(failures))
    requires written[n - 1].path in original && original[written[n - 1].path] == written[n - 1].before
    ensures var c := written[n - 1];
      RestoredBut(Outcome(files, c.path, c.before, answer), original,
                  PathsFirst(written, n - 1) + Elements(if answer.Written? then failures else failures + [c.path]))
  {
    assert Elements(failures + [written[n - 1].path]) == Elements(failures) + {written[n - 1].path};
  }

  /** Everything was undone but the files that could not be written again. */
  ghost predicate Undone(files: Files, original: Files, lost: seq<FilePath>) {
    RestoredBut(files, original, Elements(lost))
  }

  class Workspace {
    var files: Files

    constructor (files: Files)
      ensures this.files == files
    {
      this.files := files;
    }

    /** `writeFileSync`. */
    method WriteFile(path: FilePath, content: string, answer: Write) returns (ok: bool)
      modifies this
      ensures ok <==> answer.Written?
      ensures files == Outcome(old(files), path, content, answer)
    {
      files := Outcome(files, path, content, answer);
      ok := answer.Written?;
    }

    /** Undoes the writes in reverse order and reports the files it could not restore. */
    method Restore(written: seq<Change>, disk: Disk, first: nat, ghost original: Files)
      returns (failures: seq<FilePath>)
      requires Fresh(original, written) && RestoredBut(files, original, PathsFirst(written, |written|))
      modifies this
      ensures failures == Unrestored(written, disk, first, |written|)
      ensures Undone(files, original, failures)
    {
      failures := [];
      var k := 0;
      while k < |written|
        invariant 0 <= k <= |written|
        invariant failures == Unrestored(written, disk, first, k)
        invariant RestoredBut(files, original, PathsFirst(written, |written| - k) + Elements(failures))
      {
        var change := written[|written| - 1 - k];
        assert change in written;
        var answer := disk.write(first + k);
        RestoreStep(files, original, written, |written| - k, failures, answer);
        var ok := WriteFile(change.path, change.before, answer);
        UnrestoredStep(written, disk, first, k);
        if !ok {
          failures := failures + [change.path];
        }
        k := k + 1;
      }
    }

    /**
     Writes the planned changes one by one. When one fails, everything written so far is put
     back: only the files whose restoring write failed as well can differ from before.
     */
    method Apply(owners: seq<Owner>, version: string, isVersion: string -> bool, changes: seq<Change>, disk: Disk)
      returns (r: Result<seq<FilePath>, Failed>)
      requires DistinctOwners(owners)
      modifies this
      ensures match Plan(old(files), owners, version, isVersion)
        case Failure(refusal) => r == Failure(Refused(refusal)) && files == old(files)
        case Success(expected) =>
          if expected != changes then r == Failure(Stale) && files == old(files)
          else
            match FirstFailure(disk, 0, |changes|)
            case None => r == Success(ChangedPaths(changes)) && files == Applied(old(files), changes)
            case Some(k) =>
              var lost := Lost(changes, disk, k);
              && r == Failure(if lost == [] then RolledBack else NeedsAttention(lost))
              && Undone(files, old(files), lost)
    {
      var expected := PlanReleaseVersion(files, owners, version, isVersion);
      if expected.Failure? {
        return Failure(Refused(expected.error));
      }
      if expected.value != changes {
        return Failure(Stale);
      }
      PlanIsFresh(files, owners, version, |owners|);
      r := WriteAll(changes, disk);
    }

    method WriteAll(changes: seq<Change>, disk: Disk) returns (r: Result<seq<FilePath>, Failed>)
      requires Fresh(files, changes)
      modifies this
      ensures match FirstFailure(disk, 0, |changes|)
        case None => r == Success(ChangedPaths(changes)) && files == Applied(old(files), changes)
        case Some(k) =>
          var lost := Lost(changes, disk, k);
          && r == Failure(if lost == [] then RolledBack else NeedsAttention(lost))
          && Undone(files, old(files), lost)
    {
      hide Unrestored, Undone, RestoredBut, Outcome;
      ghost var original := files;
      var written: seq<Change> := [];
      var k := 0;
      while k < |changes|
        invariant 0 <= k <= |changes| && written == changes[..k]
        invariant files == AppliedFirst(original, changes, k)
        invariant FirstFailure(disk, 0, |changes|) == FirstFailure(disk, k, |changes|)
      {
        var change := changes[k];
        AppliedStep(original, changes, k);
        UnchangedSoFar(original, changes, k);
        assert files[change.path] == change.before;
        var ok := !disk.readFails(k);
        if ok {
          written := written + [change];
          ok := WriteFile(change.path, change.after, disk.write(k));
        }
        if !ok {
          assert written == ToUndo(changes, disk, k);
          FailedStep(original, changes, k, |written|, files, disk.write(k));
          var failures := Restore(written, disk, k + 1, original);
          return Failure(if failures == [] then RolledBack else NeedsAttention(failures));
        }
        k := k + 1;
      }
      r := Success(ChangedPaths(changes));
    }
  }

  function ChangedPaths(changes: seq<Change>): seq<FilePath> {
    seq(|changes|, i requires 0 <= i < |changes| => changes[i].path)
  }

  lemma AppliedStep(original: Files, changes: seq<Change>, k: nat)
    requires k < |changes|
    ensures AppliedFirst(original, changes, k + 1) ==
            Outcome(AppliedFirst(original, changes, k), changes[k].path, changes[k].after, Written)
  {
  }

  /** The change about to be written finds its file as it was planned. */
  lemma UnchangedSoFar(original: Files, changes: seq<Change>, k: nat)
    requires k < |changes| && Fresh(original, changes)
    ensures var now := AppliedFirst(original, changes, k);
      now.Keys == original.Keys && changes[k].path in now && now[changes[k].path] == changes[k].before
  {
    assert changes[k] in changes;
    PathsExactly(changes, k, changes[k].path);
    AppliedKeys(original, changes, k);
    AppliedElsewhere(original, changes, k, changes[k].path);
  }

  lemma {:induction false} AppliedKeys(original: Files, changes: seq<Change>, n: nat)
    requires n <= |changes| && forall c | c in changes :: c.path in original
    ensures AppliedFirst(original, changes, n).Keys == original.Keys
  {
    if n > 0 {
      AppliedKeys(original, changes, n - 1);
      assert changes[n - 1] in changes;
    }
  }

  lemma {:induction false} AppliedElsewhere(files: Files, changes: seq<Change>, n: nat, p: FilePath)
    requires n <= |changes| && p in files && p !in PathsFirst(changes, n)
    ensures p in AppliedFirst(files, changes, n) && AppliedFirst(files, changes, n)[p] == files[p]
  {
    if n > 0 { AppliedElsewhere(files, changes, n - 1, p); }
  }

  lemma {:induction false} PathsSame(xs: seq<Change>, ys: seq<Change>, n: nat)
    requires n <= |xs| && n <= |ys| && forall i | 0 <= i < n :: xs[i] == ys[i]
    ensures PathsFirst(xs, n) == PathsFirst(ys, n)
  {
    if n > 0 { PathsSame(xs, ys, n - 1); }
  }

  /** What a failing change leaves behind: only files still to be undone can differ. */
  lemma FailedStep(original: Files, changes: seq<Change>, k: nat, n: nat, files: Files, answer: Write)
    requires k < |changes| && k <= n <= k + 1 && Fresh(original, changes)
    requires n == k ==> files == AppliedFirst(original, changes, k)
    requires n == k + 1 ==> files == Outcome(AppliedFirst(original, changes, k), changes[k].path, changes[k].after, answer)
    ensures Fresh(original, changes[..n])
    ensures RestoredBut(files, original, PathsFirst(changes[..n], n))
  {
    assert changes[k] in changes;
    AppliedKeys(original, changes, k);
    PathsSame(changes[..n], changes, n);
    forall p | p in original && p !in PathsFirst(changes, n) ensures files[p] == original[p] {
      AppliedElsewhere(original, changes, k, p);
    }
    forall c | c in changes[..n] ensures c in changes {}
  }

  // ---- The transaction -------------------------------------------------------------------

  /** The number of the first change whose reading or writing fails. */
  function FirstFailure(disk: Disk, k: nat, n: nat): (r: Option<nat>)
    ensures r.Some? ==> k <= r.value < n
    decreases n - k
  {
    if k >= n then None
    else if disk.readFails(k) || disk.write(k).Torn? then Some(k)
    else FirstFailure(disk, k + 1, n)
  }

  /** The changes to undo: the write that failed as well, but not one whose file could not be read. */
  function ToUndo(changes: seq<Change>, disk: Disk, failed: nat): seq<Change>
    requires failed < |changes|
  {
    if disk.readFails(failed) then changes[..failed] else changes[..failed + 1]
  }

  /** The files that stay damaged when change `failed` fails. */
  function Lost(changes: seq<Change>, disk: Disk, failed: nat): seq<FilePath>
    requires failed < |changes|
  {
    Unrestored(ToUndo(changes, disk, failed), disk, failed + 1, |ToUndo(changes, disk, failed)|)
  }

  /** When every restoring write succeeds nothing is lost. */
  lemma {:induction false} NothingLost(written: seq<Change>, disk: Disk, first: nat, k: nat)
    requires k <= |written|
    ensures Unrestored(written, disk, first, k) == [] <==> forall i | first <= i < first + k :: disk.write(i).Written?
  {
    if k > 0 { NothingLost(written, disk, first, k - 1); }
  }

  /** A failed apply whose restoring writes succeed leaves every file exactly as it was. */
  lemma UndoneIsAtomic(files: Files, original: Files, changes: seq<Change>, disk: Disk, failed: nat)
    requires failed < |changes| && Undone(files, original, Lost(changes, disk, failed))
    requires forall i | failed < i <= failed + |ToUndo(changes, disk, failed)| :: disk.write(i).Written?
    ensures files == original
  {
    var undo := ToUndo(changes, disk, failed);
    NothingLost(undo, disk, failed + 1, |undo|);
  }
}
