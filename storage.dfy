/**
 * The snapshot list kept under the storage key `jenkins_data`, and what
 * `handleNewData` does with it when a new snapshot of one server arrives:
 * compare with the stored snapshot of the same server, carry the watched
 * flags over, and replace that snapshot or append the new one.
 */
module Storage {
  import opened Wrappers
  import opened Jobs
  import opened Notification
  import opened Watch

  /**
   * The position `handleNewData`'s `forEach` settles on: the last stored
   * snapshot with the url, or none.
   */
  function LastWithUrl(data: seq<Snapshot>, url: string): (r: Option<nat>)
    ensures r.Some? ==> r.value < |data| && data[r.value].jenkinsUrl == url &&
                        forall j :: r.value < j < |data| ==> data[j].jenkinsUrl != url
    ensures r.None? <==> forall j :: 0 <= j < |data| ==> data[j].jenkinsUrl != url
  {
    if data == [] then None
    else
      var i := |data| - 1;
      if data[i].jenkinsUrl == url then Some(i)
      else
        var p := LastWithUrl(data[..i], url);
        assert forall j :: 0 <= j < i ==> data[..i][j] == data[j];
        p
  }

  /** The `forEach` over the stored snapshots, remembering the last match. */
  method FindLast(data: seq<Snapshot>, url: string) returns (found: Option<nat>)
    ensures found == LastWithUrl(data, url)
  {
    found := None;
    for i := 0 to |data|
      invariant found == LastWithUrl(data[..i], url)
    {
      assert data[..i + 1][..i] == data[..i];
      if data[i].jenkinsUrl == url {
        found := Some(i);
      }
    }
    assert data[..|data|] == data;
  }

  /** The stored list as `handleNewData` reads it: `items['jenkins_data'] || []`. */
  function StoredList(store: Option<seq<Snapshot>>): seq<Snapshot>
  {
    if store.Some? then store.value else []
  }

  /** What one `handleNewData(newData)` produces. */
  datatype Handled = Handled(events: seq<Event>, merged: Snapshot, store: seq<Snapshot>)

  /**
   * `handleNewData`: events against the stored snapshot of the same server
   * (none when there is none), the new snapshot with its flags carried over,
   * and the list with that snapshot replaced in place or appended.
   */
  function Handle(cm: ColorMap, store: Option<seq<Snapshot>>, newData: Snapshot): Handled
  {
    var data := StoredList(store);
    var ix := LastWithUrl(data, newData.jenkinsUrl);
    var oldJobs := if ix.Some? then Some(data[ix.value].jobs) else None;
    var events := if ix.Some? then Diff(cm, data[ix.value].jobs, newData.jobs) else [];
    var merged := newData.(jobs := MergeWatched(oldJobs, newData.jobs));
    Handled(events, merged, if ix.Some? then data[ix.value := merged] else data + [merged])
  }

  /** The urls of the stored snapshots. */
  function Urls(data: seq<Snapshot>): set<string>
  {
    set i | 0 <= i < |data| :: data[i].jenkinsUrl
  }

  /** No two stored snapshots come from the same url. */
  predicate UniqueUrls(data: seq<Snapshot>)
  {
    forall i, j :: 0 <= i < j < |data| ==> data[i].jenkinsUrl != data[j].jenkinsUrl
  }

  /**
   * The new snapshot takes the place of the last one with its url, or is
   * appended when there is none; every other stored snapshot is unchanged.
   */
  lemma HandleReplacesOrAppends(cm: ColorMap, store: Option<seq<Snapshot>>, newData: Snapshot)
    ensures var data, h := StoredList(store), Handle(cm, store, newData);
      var ix := LastWithUrl(data, newData.jenkinsUrl);
      (ix.Some? ==> |h.store| == |data| && h.store[ix.value] == h.merged &&
                    forall j :: 0 <= j < |data| && j != ix.value ==> h.store[j] == data[j]) &&
      (ix.None? ==> |h.store| == |data| + 1 && h.store[|data|] == h.merged &&
                    forall j :: 0 <= j < |data| ==> h.store[j] == data[j])
  {
  }

  /** The stored snapshot for the url, looked up as the next call will, is the merged new one. */
  lemma HandleThenLookup(cm: ColorMap, store: Option<seq<Snapshot>>, newData: Snapshot)
    ensures var h := Handle(cm, store, newData);
      var ix := LastWithUrl(h.store, newData.jenkinsUrl);
      ix.Some? && h.store[ix.value] == h.merged
  {
    var data, h := StoredList(store), Handle(cm, store, newData);
    var url := newData.jenkinsUrl;
    var ix := LastWithUrl(data, url);
    if ix.Some? {
      assert h.store[ix.value].jenkinsUrl == url;
      assert forall j :: ix.value < j < |h.store| ==> h.store[j] == data[j];
      LastIsPosition(h.store, ix.value, url);
    } else {
      LastIsPosition(h.store, |data|, url);
    }
  }

  /** The last position with a url, when known, is what `LastWithUrl` returns. */
  lemma LastIsPosition(data: seq<Snapshot>, k: nat, url: string)
    requires k < |data| && data[k].jenkinsUrl == url
    requires forall j :: k < j < |data| ==> data[j].jenkinsUrl != url
    ensures LastWithUrl(data, url) == Some(k)
  {
    var r := LastWithUrl(data, url);
    assert r.Some?;
    assert !(r.value < k) && !(k < r.value);
  }

  /** The new snapshot keeps its url and jobs, apart from the `watched` flags. */
  lemma HandleKeepsJobs(cm: ColorMap, store: Option<seq<Snapshot>>, newData: Snapshot)
    ensures var m := Handle(cm, store, newData).merged;
      m.jenkinsUrl == newData.jenkinsUrl && SameButWatched(newData.jobs, m.jobs)
  {
  }

  /** The urls after the call are those before plus the new one. */
  lemma HandleUrls(cm: ColorMap, store: Option<seq<Snapshot>>, newData: Snapshot)
    ensures Urls(Handle(cm, store, newData).store) == Urls(StoredList(store)) + {newData.jenkinsUrl}
  {
    var data, h := StoredList(store), Handle(cm, store, newData);
    var ix := LastWithUrl(data, newData.jenkinsUrl);
    if ix.Some? {
      UrlsReplace(data, ix.value, h.merged);
    } else {
      UrlsAppend(data, h.merged);
    }
  }

  /** Replacing a snapshot by one with the same url keeps the urls. */
  lemma UrlsReplace(s: seq<Snapshot>, i: nat, d: Snapshot)
    requires i < |s| && s[i].jenkinsUrl == d.jenkinsUrl
    ensures Urls(s[i := d]) == Urls(s) + {d.jenkinsUrl}
  {
    var t := s[i := d];
    forall u | u in Urls(t) ensures u in Urls(s) + {d.jenkinsUrl} {
      var k :| 0 <= k < |t| && t[k].jenkinsUrl == u;
      if k != i { assert s[k].jenkinsUrl == u; }
    }
    forall u | u in Urls(s) + {d.jenkinsUrl} ensures u in Urls(t) {
      if u == d.jenkinsUrl {
        assert t[i].jenkinsUrl == u;
      } else {
        var k :| 0 <= k < |s| && s[k].jenkinsUrl == u;
        assert t[k].jenkinsUrl == u;
      }
    }
  }

  /** The urls of a list with one more snapshot. */
  lemma UrlsAppend(s: seq<Snapshot>, d: Snapshot)
    ensures Urls(s + [d]) == Urls(s) + {d.jenkinsUrl}
  {
    var t := s + [d];
    forall u | u in Urls(t) ensures u in Urls(s) + {d.jenkinsUrl} {
      var i :| 0 <= i < |t| && t[i].jenkinsUrl == u;
      if i < |s| { assert s[i].jenkinsUrl == u; }
    }
    forall u | u in Urls(s) ensures u in Urls(t) {
      var i :| 0 <= i < |s| && s[i].jenkinsUrl == u;
      assert t[i].jenkinsUrl == u;
    }
    assert t[|s|].jenkinsUrl == d.jenkinsUrl;
  }

  /** Storing never introduces a second snapshot for one server. */
  lemma HandleKeepsUrlsUnique(cm: ColorMap, store: Option<seq<Snapshot>>, newData: Snapshot)
    requires UniqueUrls(StoredList(store))
    ensures UniqueUrls(Handle(cm, store, newData).store)
  {
    HandleReplacesOrAppends(cm, store, newData);
  }

  /** The first snapshot of a server raises no events. */
  lemma HandleFirstIsSilent(cm: ColorMap, store: Option<seq<Snapshot>>, newData: Snapshot)
    requires forall j :: 0 <= j < |StoredList(store)| ==> StoredList(store)[j].jenkinsUrl != newData.jenkinsUrl
    ensures Handle(cm, store, newData).events == []
  {
  }

  /** Handling the same data twice: the second time raises no events. */
  lemma HandleTwiceIsSilent(cm: ColorMap, store: Option<seq<Snapshot>>, newData: Snapshot)
    ensures var h := Handle(cm, store, newData);
      Handle(cm, Some(h.store), newData).events == []
  {
    var h := Handle(cm, store, newData);
    HandleThenLookup(cm, store, newData);
    DiffOfSameButWatched(cm, h.merged.jobs, newData.jobs);
  }
}
