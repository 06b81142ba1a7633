/**
 * The background page's state and its entry points: the snapshot list kept
 * in local storage, and the `handleNewData`, `toggleWatch` and
 * `requestData` functions that read and rewrite it.
 */
module Background {
  import opened Wrappers
  import opened Jobs
  import opened Notification
  import opened Watch
  import opened Storage
  import opened Poll

  /**
   * The background page. `store` is the value under `jenkins_data` in local
   * storage; `None` is the `null` that `start` writes. Storage reads and
   * writes copy values, so the store is a value the methods reassign.
   */
  class BackgroundPage {
    var store: Option<seq<Snapshot>>

    /** `start`: the stored data is cleared to `null`. */
    constructor()
      ensures store == None
    {
      store := None;
    }

    /**
     * `handleNewData(newData)`: raise the events against the stored snapshot
     * of the same server, carry the `watched` flags over into the new
     * snapshot's jobs in place, and store it in place of the old one or
     * after the others.
     */
    method HandleNewData(cm: ColorMap, newData: Snapshot) returns (events: seq<Event>, merged: Snapshot)
      modifies this
      ensures var h := Handle(cm, old(store), newData);
        events == h.events && merged == h.merged && store == Some(h.store)
    {
      var data := if store.Some? then store.value else [];
      var ix := FindLast(data, newData.jenkinsUrl);
      var oldJobs: Option<seq<Job>> := None;
      events := [];
      if ix.Some? {
        oldJobs := Some(data[ix.value].jobs);
        events := MakeNotification(cm, data[ix.value].jobs, newData.jobs);
      }
      var n := |newData.jobs|;
      var jobs := new Job[n](k requires 0 <= k < n => newData.jobs[k]);
      assert jobs[..] == newData.jobs;
      UpdateWatched(oldJobs, jobs);
      merged := newData.(jobs := jobs[..]);
      if ix.Some? {
        data := data[ix.value := merged];
      } else {
        data := data + [merged];
      }
      store := Some(data);
    }

    /**
     * `toggleWatch(jobName, watch)`: every job called `jobName`, in every
     * stored snapshot, gets its flag flipped (`watch` undefined) or set; the
     * list is written back only when such a job was found.
     */
    method ToggleWatch(jobName: string, watch: Option<bool>) returns (found: bool)
      modifies this
      ensures found <==> old(store).Some? && HasJob(old(store).value, jobName)
      ensures store == if found then Some(ToggledData(old(store).value, jobName, watch)) else old(store)
    {
      found := false;
      if store.None? {
        return;
      }
      var data := store.value;
      var out: seq<Snapshot> := [];
      for i := 0 to |data|
        invariant |out| == i
        invariant forall m :: 0 <= m < i ==> out[m] == data[m].(jobs := ToggledJobs(data[m].jobs, jobName, watch))
        invariant found <==> exists m :: 0 <= m < i && JobIn(data[m].jobs, jobName)
      {
        var jobs := data[i].jobs;
        var newJobs: seq<Job> := [];
        var foundHere := false;
        for k := 0 to |jobs|
          invariant newJobs == ToggledJobs(jobs[..k], jobName, watch)
          invariant foundHere <==> exists m :: 0 <= m < k && jobs[m].name == jobName
        {
          assert jobs[..k + 1] == jobs[..k] + [jobs[k]];
          if jobs[k].name == jobName {
            foundHere := true;
            newJobs := newJobs + [jobs[k].(watched := Some(NewFlag(jobs[k].watched, watch)))];
          } else {
            newJobs := newJobs + [jobs[k]];
          }
        }
        assert jobs[..|jobs|] == jobs;
        found := found || foundHere;
        out := out + [data[i].(jobs := newJobs)];
      }
      if found {
        assert out == ToggledData(data, jobName, watch);
        store := Some(out);
      }
    }

    /**
     * The callback `requestData` passes to `getJobs`, up to the completion
     * check: a failure sets the failure text; a snapshot adds its job count,
     * colours the badge by whether it has a red job, goes through
     * `handleNewData` and is collected.
     */
    method Answer(cm: ColorMap, r: FetchResult, events: seq<Event>, collected: seq<Snapshot>)
      returns (ops: seq<BadgeOp>, added: nat, events': seq<Event>, collected': seq<Snapshot>)
      modifies this
      ensures ops == CallbackOps(r) && added == Added(r)
      ensures Round(events', store, collected') == AnswerStep(cm, Round(events, old(store), collected), r)
    {
      if r.FetchError? {
        ops, added, events', collected' := [SetIcon(FailText)], 0, events, collected;
      } else {
        var d := r.data;
        added := |d.jobs|;
        var failed := HasRedJob(d.jobs);
        ops := [SetIconColor(if failed then FailedColor else PassedColor)];
        var ev, merged := HandleNewData(cm, d);
        events', collected' := events + ev, collected + [merged];
      }
    }

    /**
     * `requestData` for one round over `sourceCount` servers whose answers,
     * in the order the callbacks run, are `results`: the badge calls, the
     * events raised, and the snapshots collected for the `data` listeners.
     */
    method RequestData(cm: ColorMap, sourceCount: nat, results: seq<FetchResult>)
      returns (badge: seq<BadgeOp>, events: seq<Event>, collected: seq<Snapshot>)
      modifies this
      ensures badge == BadgeTrace(sourceCount, results)
      ensures Round(events, store, collected) == AfterAnswers(cm, old(store), results)
    {
      badge := [SetIcon(LoadingText)];
      events, collected := [], [];
      var finished := 0;
      var total := 0;
      for i := 0 to |results|
        invariant finished == i
        invariant badge == BadgeTrace(sourceCount, results[..i])
        invariant total == JobTotal(results[..i])
        invariant Round(events, store, collected) == AfterAnswers(cm, old(store), results[..i])
      {
        BadgeStep(sourceCount, results, i);
        AnswersStep(cm, old(store), results, i);
        finished := finished + 1;
        var ops, added;
        ops, added, events, collected := Answer(cm, results[i], events, collected);
        total := total + added;
        CompletionCheck(sourceCount, results[..i + 1], finished, total, |collected|);
        var shown: seq<BadgeOp> := [];
        if finished >= sourceCount && |collected| > 0 {
          shown := [SetIcon(DecimalString(total))];
        }
        badge := badge + ops + shown;
      }
      assert results[..|results|] == results;
    }
  }
}
