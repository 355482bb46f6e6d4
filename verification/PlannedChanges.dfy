/** Exactly which changes a version plan holds, and when it is refused (tools/release/sync-versions.ts). */
module PlannedChanges {
  import opened Wrappers
  import opened VersionPlan

  /** The first owner whose file is missing or refused. */
  predicate FirstRefused(files: Files, owners: seq<Owner>, i: nat) {
    i < |owners| && !Readable(files, owners[i]) && forall j | 0 <= j < i :: Readable(files, owners[j])
  }

  lemma {:induction false} PlannedFirst(files: Files, owners: seq<Owner>, version: string, n: nat)
    requires n <= |owners|
    ensures PlanFirst(files, owners, version, n).Success? <==> forall i | 0 <= i < n :: Readable(files, owners[i])
    ensures forall i: nat | i < n && FirstRefused(files, owners, i) ::
              PlanFirst(files, owners, version, n) == Failure(OwnerRefused(owners[i].path))
  {
    if n > 0 { PlannedFirst(files, owners, version, n - 1); }
  }

  /** A plan is refused exactly for a bad version or, with the first such path, for a file that is missing or refused. */
  lemma PlanRefusedExactly(files: Files, owners: seq<Owner>, version: string, isVersion: string -> bool)
    ensures var r := Plan(files, owners, version, isVersion);
      && (r == Failure(BadVersion) <==> !isVersion(version))
      && (r.Success? <==> isVersion(version) && forall i | 0 <= i < |owners| :: Readable(files, owners[i]))
      && forall i: nat | isVersion(version) && FirstRefused(files, owners, i) :: r == Failure(OwnerRefused(owners[i].path))
  {
    PlannedFirst(files, owners, version, |owners|);
    NeverBadVersion(files, owners, version, |owners|);
  }

  lemma {:induction false} NeverBadVersion(files: Files, owners: seq<Owner>, version: string, n: nat)
    requires n <= |owners|
    ensures PlanFirst(files, owners, version, n) != Failure(BadVersion)
  {
    if n > 0 { NeverBadVersion(files, owners, version, n - 1); }
  }

  /** The change for the owner: the version in place of the value, and all else as it was. */
  predicate IsChange(files: Files, owner: Owner, version: string, c: Change) {
    && owner.path in files && c.path == owner.path && c.before == files[owner.path]
    && match owner.locate(c.before)
       case None => false
       case Some((a, b)) => a <= b <= |c.before| && c.after == c.before[..a] + version + c.before[b..]
  }

  /** The changes are those of the owners at `at`, in the owners' order; what is not among them keeps its text. */
  ghost predicate Planned(files: Files, owners: seq<Owner>, version: string, n: nat, changes: seq<Change>, at: seq<nat>)
    requires n <= |owners|
  {
    && |at| == |changes| && (forall j, k | 0 <= j < k < |at| :: at[j] < at[k])
    && (forall k | 0 <= k < |at| ::
          at[k] < n && IsChange(files, owners[at[k]], version, changes[k]) && changes[k].before != changes[k].after)
    && forall i: nat | i < n && i !in at ::
         exists c :: IsChange(files, owners[i], version, c) && c.before == c.after
  }

  lemma {:induction false} PlanExactly(files: Files, owners: seq<Owner>, version: string, n: nat) returns (at: seq<nat>)
    requires n <= |owners| && PlanFirst(files, owners, version, n).Success?
    ensures Planned(files, owners, version, n, PlanFirst(files, owners, version, n).value, at)
  {
    at := [];
    if n > 0 {
      var owner := owners[n - 1];
      var c := Change(owner.path, files[owner.path], Stamped(owner, files[owner.path], version));
      at := PlanExactly(files, owners, version, n - 1);
      assert IsChange(files, owner, version, c);
      PlannedMore(files, owners, version, n, PlanFirst(files, owners, version, n - 1).value, at, c);
      if c.before != c.after { at := at + [n - 1]; }
    }
  }

  lemma PlannedMore(files: Files, owners: seq<Owner>, version: string, n: nat, changes: seq<Change>, at: seq<nat>,
                    c: Change)
    requires 0 < n <= |owners| && Planned(files, owners, version, n - 1, changes, at)
    requires IsChange(files, owners[n - 1], version, c)
    ensures if c.before != c.after then Planned(files, owners, version, n, changes + [c], at + [n - 1])
            else Planned(files, owners, version, n, changes, at)
  {
    hide IsChange;
    if c.before != c.after {
      forall i: nat | i < n && i !in at + [n - 1]
        ensures exists d :: IsChange(files, owners[i], version, d) && d.before == d.after
      {
        assert (at + [n - 1])[|at|] == n - 1;
        assert i !in at;
      }
    }
  }
}
