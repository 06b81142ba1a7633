/**
 * The `watched` flags: `updateWatched`, which carries each job's flag over
 * from the previous snapshot of the same server, and the flag update made
 * by `toggleWatch`.
 */
module Watch {
  import opened Wrappers
  import opened Jobs
  import opened Notification

  /**
   * The flag `updateWatched` gives the job called `name`: true exactly when
   * there is an old snapshot, it has a job of that name, and the last such
   * job has `watched` set to true.
   */
  function CarriedWatched(oldJobs: Option<seq<Job>>, name: string): bool
  {
    oldJobs.Some? && name in Index(oldJobs.value) &&
    Truthy(oldJobs.value[Index(oldJobs.value)[name].pos].watched)
  }

  /** Position k is the one `updateWatched` writes: the entry of its name points at it. */
  predicate Written(jobs: seq<Job>, k: nat)
    requires k < |jobs|
  {
    Index(jobs)[jobs[k].name].pos == k
  }

  /** One job with the flag `updateWatched` writes for it. */
  function Merged(oldJobs: Option<seq<Job>>, j: Job): Job
  {
    j.(watched := Some(CarriedWatched(oldJobs, j.name)))
  }

  /** The new job list after `updateWatched(oldData, newData)`. */
  function MergeWatched(oldJobs: Option<seq<Job>>, jobs: seq<Job>): (r: seq<Job>)
    ensures SameButWatched(jobs, r)
  {
    seq(|jobs|, k requires 0 <= k < |jobs| => if Written(jobs, k) then Merged(oldJobs, jobs[k]) else jobs[k])
  }

  /** `cur` is `a0` with the writes for the names in `done` made. */
  predicate PartlyMerged(oldJobs: Option<seq<Job>>, a0: seq<Job>, cur: seq<Job>, done: seq<string>)
  {
    |cur| == |a0| &&
    forall k :: 0 <= k < |a0| ==>
      cur[k] == if a0[k].name in done && Written(a0, k) then Merged(oldJobs, a0[k]) else a0[k]
  }

  /** One more name written, at the position its entry records. */
  lemma MergeStep(oldJobs: Option<seq<Job>>, a0: seq<Job>, cur: seq<Job>, done: seq<string>, name: string)
    requires PartlyMerged(oldJobs, a0, cur, done) && name in Index(a0) && name !in done
    ensures var p := Index(a0)[name].pos;
      PartlyMerged(oldJobs, a0, cur[p := Merged(oldJobs, cur[p])], done + [name])
  {
    var p := Index(a0)[name].pos;
    var next := cur[p := Merged(oldJobs, cur[p])];
    forall k | 0 <= k < |a0|
      ensures next[k] == if a0[k].name in done + [name] && Written(a0, k) then Merged(oldJobs, a0[k]) else a0[k]
    {
      if k != p && a0[k].name == name {
        assert !Written(a0, k);
      }
    }
  }

  /**
   * `updateWatched`, in place on the job array of the new snapshot: one write
   * per name, at the position the index keeps for it.
   */
  method UpdateWatched(oldJobs: Option<seq<Job>>, jobs: array<Job>)
    modifies jobs
    ensures jobs[..] == MergeWatched(oldJobs, old(jobs[..]))
  {
    ghost var a0 := jobs[..];
    var newIx, order := HashJobByNames(jobs[..]);
    var oldIx: map<string, Entry> := map[];
    if oldJobs.Some? {
      var oldOrder;
      oldIx, oldOrder := HashJobByNames(oldJobs.value);
    }
    for i := 0 to |order|
      invariant newIx == Index(a0) && order == Names(a0)
      invariant oldJobs.Some? ==> oldIx == Index(oldJobs.value)
      invariant oldJobs.None? ==> oldIx == map[]
      invariant PartlyMerged(oldJobs, a0, jobs[..], order[..i])
    {
      var name := order[i];
      var p := newIx[name].pos;
      var w := name in oldIx && Truthy(oldJobs.value[oldIx[name].pos].watched);
      DistinctAt(order, i);
      MergeStep(oldJobs, a0, jobs[..], order[..i], name);
      PrefixStep(order, i);
      jobs[p] := jobs[p].(watched := Some(w));
    }
    MergeDone(oldJobs, a0, jobs[..], order);
  }

  /** Extending a prefix by one element. */
  lemma PrefixStep(s: seq<string>, i: nat)
    requires i < |s|
    ensures s[..i + 1] == s[..i] + [s[i]]
  {
  }

  /** Once every name is written, the result is `MergeWatched`. */
  lemma MergeDone(oldJobs: Option<seq<Job>>, a0: seq<Job>, cur: seq<Job>, order: seq<string>)
    requires order == Names(a0) && PartlyMerged(oldJobs, a0, cur, order[..|order|])
    ensures cur == MergeWatched(oldJobs, a0)
  {
    assert order[..|order|] == order;
    forall k | 0 <= k < |a0| ensures cur[k] == MergeWatched(oldJobs, a0)[k] {
      assert a0[k].name in order;
    }
  }

  /** Only the flags change, and each job whose flag is written is the last job of its name. */
  lemma MergeWritesLast(oldJobs: Option<seq<Job>>, jobs: seq<Job>, k: nat)
    requires k < |jobs|
    ensures var r := MergeWatched(oldJobs, jobs);
      IsLast(jobs, k, jobs[k].name) ==> r[k].watched == Some(CarriedWatched(oldJobs, jobs[k].name))
    ensures var r := MergeWatched(oldJobs, jobs);
      !IsLast(jobs, k, jobs[k].name) ==> r[k] == jobs[k]
  {
    IndexEntryIsLast(jobs, jobs[k].name);
    var p := Index(jobs)[jobs[k].name].pos;
    if IsLast(jobs, k, jobs[k].name) {
      LastIsUnique(jobs, k, p, jobs[k].name);
    }
  }

  /** There is only one last job of a name. */
  lemma LastIsUnique(jobs: seq<Job>, a: nat, b: nat, name: string)
    requires IsLast(jobs, a, name) && IsLast(jobs, b, name)
    ensures a == b
  {
  }

  /** With unique names every job gets the flag of its namesake in the old snapshot. */
  lemma MergeUnique(oldJobs: Option<seq<Job>>, jobs: seq<Job>)
    requires UniqueNames(jobs)
    ensures var r := MergeWatched(oldJobs, jobs);
      forall k :: 0 <= k < |jobs| ==> r[k].watched == Some(CarriedWatched(oldJobs, jobs[k].name))
  {
    forall k | 0 <= k < |jobs|
      ensures MergeWatched(oldJobs, jobs)[k].watched == Some(CarriedWatched(oldJobs, jobs[k].name))
    {
      UniqueIndexSeq(jobs, k);
    }
  }

  /** Without an old snapshot, or for a new name, the flag becomes false. */
  lemma CarriedForNewName(oldJobs: Option<seq<Job>>, name: string)
    requires oldJobs.None? || forall k :: 0 <= k < |oldJobs.value| ==> oldJobs.value[k].name != name
    ensures !CarriedWatched(oldJobs, name)
  {
    if oldJobs.Some? {
      IndexKeys(oldJobs.value);
    }
  }

  /** The flag carried for `name` is the last old job of that name's own flag. */
  lemma CarriedIsLastOld(oldJobs: seq<Job>, k: nat)
    requires k < |oldJobs| && IsLast(oldJobs, k, oldJobs[k].name)
    ensures CarriedWatched(Some(oldJobs), oldJobs[k].name) == Truthy(oldJobs[k].watched)
  {
    var name := oldJobs[k].name;
    IndexEntryIsLast(oldJobs, name);
    LastIsUnique(oldJobs, k, Index(oldJobs)[name].pos, name);
  }

  /** Merging a second time with the same old snapshot changes nothing. */
  lemma MergeIdempotent(oldJobs: Option<seq<Job>>, jobs: seq<Job>)
    ensures MergeWatched(oldJobs, MergeWatched(oldJobs, jobs)) == MergeWatched(oldJobs, jobs)
  {
    var r := MergeWatched(oldJobs, jobs);
    IndexIgnoresWatched(jobs, r);
    var rr := MergeWatched(oldJobs, r);
    forall k | 0 <= k < |jobs| ensures rr[k] == r[k] {
      assert r[k].name == jobs[k].name;
    }
  }

  /** Carrying flags over does not change the events of the next comparison. */
  lemma MergeKeepsDiff(cm: ColorMap, oldJobs: Option<seq<Job>>, before: seq<Job>, jobs: seq<Job>)
    ensures Diff(cm, before, MergeWatched(oldJobs, jobs)) == Diff(cm, before, jobs)
    ensures Diff(cm, MergeWatched(oldJobs, jobs), before) == Diff(cm, jobs, before)
  {
    IndexIgnoresWatched(jobs, MergeWatched(oldJobs, jobs));
  }

  /** How `toggleWatch` sets one flag: undefined `watch` flips it, any other value sets `!!watch`. */
  function NewFlag(current: Option<bool>, watch: Option<bool>): bool
  {
    if watch.None? then !Truthy(current) else watch.value
  }

  /**
   * The rule on one flag: a flip always changes the flag's truth value, two
   * flips restore it, and setting a value again after setting it changes
   * nothing.
   */
  lemma NewFlagFlipsAndSets(current: Option<bool>, b: bool)
    ensures Truthy(Some(NewFlag(current, None))) != Truthy(current)
    ensures NewFlag(Some(NewFlag(current, None)), None) == Truthy(current)
    ensures NewFlag(Some(NewFlag(current, Some(b))), Some(b)) == NewFlag(current, Some(b))
  {
  }

  /** `toggleWatch` applied to one job. */
  function ToggledJob(j: Job, jobName: string, watch: Option<bool>): Job
  {
    if j.name == jobName then j.(watched := Some(NewFlag(j.watched, watch))) else j
  }

  /** `toggleWatch` applied to one snapshot: every job of the name is updated. */
  function ToggledJobs(jobs: seq<Job>, jobName: string, watch: Option<bool>): seq<Job>
  {
    seq(|jobs|, k requires 0 <= k < |jobs| => ToggledJob(jobs[k], jobName, watch))
  }

  /** `toggleWatch` applied to the stored list of snapshots. */
  function ToggledData(data: seq<Snapshot>, jobName: string, watch: Option<bool>): seq<Snapshot>
  {
    seq(|data|, i requires 0 <= i < |data| => data[i].(jobs := ToggledJobs(data[i].jobs, jobName, watch)))
  }

  /** Some stored snapshot has a job called `jobName`. */
  predicate HasJob(data: seq<Snapshot>, jobName: string)
  {
    exists i :: 0 <= i < |data| && JobIn(data[i].jobs, jobName)
  }

  /** Some job of the list is called `jobName`. */
  predicate JobIn(jobs: seq<Job>, jobName: string)
  {
    exists k :: 0 <= k < |jobs| && jobs[k].name == jobName
  }

  /** A toggle changes only flags, and only those of jobs called `jobName`. */
  lemma ToggleChangesOnlyFlags(data: seq<Snapshot>, jobName: string, watch: Option<bool>)
    ensures var r := ToggledData(data, jobName, watch);
      forall i :: 0 <= i < |data| ==>
        r[i].jenkinsUrl == data[i].jenkinsUrl && SameButWatched(data[i].jobs, r[i].jobs) &&
        forall k :: 0 <= k < |data[i].jobs| && data[i].jobs[k].name != jobName ==> r[i].jobs[k] == data[i].jobs[k]
  {
  }

  /** After a toggle every job called `jobName` has the flag `NewFlag` computed from its old one. */
  lemma ToggleSetsMatching(data: seq<Snapshot>, jobName: string, watch: Option<bool>)
    ensures var r := ToggledData(data, jobName, watch);
      forall i, k :: 0 <= i < |data| && 0 <= k < |data[i].jobs| && data[i].jobs[k].name == jobName ==>
        r[i].jobs[k].watched == Some(NewFlag(data[i].jobs[k].watched, watch))
  {
  }

  /** When no job has the name, a toggle is the identity. */
  lemma ToggleWithoutMatch(data: seq<Snapshot>, jobName: string, watch: Option<bool>)
    requires !HasJob(data, jobName)
    ensures ToggledData(data, jobName, watch) == data
  {
    var r := ToggledData(data, jobName, watch);
    forall i | 0 <= i < |data| ensures r[i] == data[i] {
      assert r[i].jobs == data[i].jobs;
    }
  }

  /** Setting an explicit flag twice is the same as setting it once. */
  lemma ToggleSetIdempotent(data: seq<Snapshot>, jobName: string, b: bool)
    ensures var once := ToggledData(data, jobName, Some(b));
      ToggledData(once, jobName, Some(b)) == once
  {
    var once := ToggledData(data, jobName, Some(b));
    var twice := ToggledData(once, jobName, Some(b));
    forall i | 0 <= i < |data| ensures twice[i] == once[i] {
      assert twice[i].jobs == once[i].jobs;
    }
  }

  /** Flipping twice gives every job called `jobName` its original truth value, stored as a boolean. */
  lemma FlipTwice(data: seq<Snapshot>, jobName: string)
    ensures var twice := ToggledData(ToggledData(data, jobName, None), jobName, None);
      forall i, k :: 0 <= i < |data| && 0 <= k < |data[i].jobs| ==>
        twice[i].jobs[k] == if data[i].jobs[k].name == jobName
                            then data[i].jobs[k].(watched := Some(Truthy(data[i].jobs[k].watched)))
                            else data[i].jobs[k]
  {
  }
}
