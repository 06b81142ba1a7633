/**
 * `makeNotification`: the events raised when an old snapshot of one Jenkins
 * server is compared with a new one. The colour table (`ColorMap`) is a
 * parameter: a total map from a colour to whether the job is building and
 * its human-readable status.
 */
module Notification {
  import opened Wrappers
  import opened Jobs

  /** What `ColorMap` says about one colour. */
  datatype StatInfo = StatInfo(building: bool, status: string)

  type ColorMap = string -> StatInfo

  /** The calls made on the notification object, one constructor per `notify...` method. */
  datatype Event =
    | BuildStart(name: string, previousStatus: string, url: string)
    | BuildDone(name: string, previousStatus: string, newStatus: string, url: string)
    | StatusChange(name: string, previousStatus: string, newStatus: string, url: string)
    | Remove(name: string, status: string, url: string)
    | Add(name: string, status: string, url: string)

  /**
   * The event (none or one) for a job `name` of the old snapshot, with entry
   * `o`, given the index of the new snapshot.
   */
  function OldJobEvent(cm: ColorMap, name: string, o: Entry, newIx: map<string, Entry>): (r: seq<Event>)
    ensures |r| <= 1 && forall e <- r :: e.name == name
  {
    if name in newIx then
      var oi := cm(o.color);
      var ni := cm(newIx[name].color);
      if ni.building && !oi.building then [BuildStart(name, oi.status, o.url)]
      else if !ni.building && oi.building then [BuildDone(name, oi.status, ni.status, o.url)]
      else if ni.status != oi.status then [StatusChange(name, oi.status, ni.status, o.url)]
      else []
    else
      [Remove(name, cm(o.color).status, o.url)]
  }

  /** The events of the first loop, over the old names in the given order. */
  function OldSideEvents(cm: ColorMap, oldIx: map<string, Entry>, newIx: map<string, Entry>,
                         names: seq<string>): seq<Event>
    requires forall n <- names :: n in oldIx
  {
    if names == [] then []
    else
      var i := |names| - 1;
      OldSideEvents(cm, oldIx, newIx, names[..i]) + OldJobEvent(cm, names[i], oldIx[names[i]], newIx)
  }

  /** The event (none or one) for a job `name` of the new snapshot. */
  function NewJobEvent(cm: ColorMap, name: string, oldIx: map<string, Entry>, n: Entry): (r: seq<Event>)
    ensures |r| <= 1 && forall e <- r :: e.name == name
  {
    if name in oldIx then [] else [Add(name, cm(n.color).status, n.url)]
  }

  /** The events of the second loop, over the new names in the given order. */
  function AddedEvents(cm: ColorMap, oldIx: map<string, Entry>, newIx: map<string, Entry>,
                       names: seq<string>): seq<Event>
    requires forall n <- names :: n in newIx
  {
    if names == [] then []
    else
      var i := |names| - 1;
      AddedEvents(cm, oldIx, newIx, names[..i]) + NewJobEvent(cm, names[i], oldIx, newIx[names[i]])
  }

  /** All events of `makeNotification(oldData, newData)`, in the order they are raised. */
  function Diff(cm: ColorMap, oldJobs: seq<Job>, newJobs: seq<Job>): seq<Event>
  {
    var oldIx, newIx := Index(oldJobs), Index(newJobs);
    OldSideEvents(cm, oldIx, newIx, Names(oldJobs)) + AddedEvents(cm, oldIx, newIx, Names(newJobs))
  }

  /** The events in `es` about the job called `name`. */
  function EventsNamed(es: seq<Event>, name: string): (r: seq<Event>)
    ensures |r| <= |es|
  {
    if es == [] then []
    else
      var i := |es| - 1;
      EventsNamed(es[..i], name) + (if es[i].name == name then [es[i]] else [])
  }

  lemma {:induction false} EventsNamedAppend(a: seq<Event>, b: seq<Event>, name: string)
    ensures EventsNamed(a + b, name) == EventsNamed(a, name) + EventsNamed(b, name)
  {
    if b != [] {
      var i := |b| - 1;
      var ab := a + b;
      assert ab[..|ab| - 1] == a + b[..i];
      assert ab[|ab| - 1] == b[i];
      EventsNamedAppend(a, b[..i], name);
      var tail := if b[i].name == name then [b[i]] else [];
      assert EventsNamed(ab, name) == EventsNamed(a, name) + EventsNamed(b[..i], name) + tail;
      assert EventsNamed(b, name) == EventsNamed(b[..i], name) + tail;
    } else {
      assert a + b == a;
    }
  }

  /** Filtering events that all carry `name` keeps them all. */
  lemma EventsNamedAll(es: seq<Event>, name: string)
    requires |es| <= 1 && forall e <- es :: e.name == name
    ensures EventsNamed(es, name) == es
  {
    if es != [] {
      assert es[..0] == [];
    }
  }

  /** Filtering events that carry other names keeps none. */
  lemma EventsNamedNone(es: seq<Event>, name: string)
    requires |es| <= 1 && forall e <- es :: e.name != name
    ensures EventsNamed(es, name) == []
  {
    if es != [] {
      assert es[..0] == [];
    }
  }

  /** Over distinct names, the first loop raises for `name` exactly its own event. */
  lemma {:induction false} OldSideNamed(cm: ColorMap, oldIx: map<string, Entry>, newIx: map<string, Entry>,
                                        names: seq<string>, name: string)
    requires forall n <- names :: n in oldIx
    requires Distinct(names)
    ensures EventsNamed(OldSideEvents(cm, oldIx, newIx, names), name) ==
            if name in names then OldJobEvent(cm, name, oldIx[name], newIx) else []
  {
    if names != [] {
      var i := |names| - 1;
      var p := names[..i];
      OldSideNamed(cm, oldIx, newIx, p, name);
      var a := OldSideEvents(cm, oldIx, newIx, p);
      var last := OldJobEvent(cm, names[i], oldIx[names[i]], newIx);
      assert OldSideEvents(cm, oldIx, newIx, names) == a + last;
      EventsNamedAppend(a, last, name);
      assert EventsNamed(OldSideEvents(cm, oldIx, newIx, names), name) ==
             EventsNamed(a, name) + EventsNamed(last, name);
      if names[i] == name {
        EventsNamedAll(last, name);
        assert EventsNamed(a, name) == [];
        assert name in names;
        assert last == OldJobEvent(cm, name, oldIx[name], newIx);
      } else {
        EventsNamedNone(last, name);
        MemberOfPrefix(names, name);
      }
    }
  }

  /** Over distinct names, the second loop raises for `name` exactly its own event. */
  lemma {:induction false} AddedNamed(cm: ColorMap, oldIx: map<string, Entry>, newIx: map<string, Entry>,
                                      names: seq<string>, name: string)
    requires forall n <- names :: n in newIx
    requires Distinct(names)
    ensures EventsNamed(AddedEvents(cm, oldIx, newIx, names), name) ==
            if name in names then NewJobEvent(cm, name, oldIx, newIx[name]) else []
  {
    if names != [] {
      var i := |names| - 1;
      var p := names[..i];
      AddedNamed(cm, oldIx, newIx, p, name);
      var a := AddedEvents(cm, oldIx, newIx, p);
      var last := NewJobEvent(cm, names[i], oldIx, newIx[names[i]]);
      assert AddedEvents(cm, oldIx, newIx, names) == a + last;
      EventsNamedAppend(a, last, name);
      assert EventsNamed(AddedEvents(cm, oldIx, newIx, names), name) ==
             EventsNamed(a, name) + EventsNamed(last, name);
      if names[i] == name {
        EventsNamedAll(last, name);
        assert EventsNamed(a, name) == [];
        assert name in names;
        assert last == NewJobEvent(cm, name, oldIx, newIx[name]);
      } else {
        EventsNamedNone(last, name);
        MemberOfPrefix(names, name);
      }
    }
  }

  /** The events of `Diff` about one job: its old-side event, then its addition. */
  lemma DiffNamed(cm: ColorMap, oldJobs: seq<Job>, newJobs: seq<Job>, name: string)
    ensures EventsNamed(Diff(cm, oldJobs, newJobs), name) ==
      (if name in Index(oldJobs) then OldJobEvent(cm, name, Index(oldJobs)[name], Index(newJobs)) else []) +
      (if name in Index(newJobs) then NewJobEvent(cm, name, Index(oldJobs), Index(newJobs)[name]) else [])
  {
    var oldIx, newIx := Index(oldJobs), Index(newJobs);
    EventsNamedAppend(OldSideEvents(cm, oldIx, newIx, Names(oldJobs)),
                      AddedEvents(cm, oldIx, newIx, Names(newJobs)), name);
    OldSideNamed(cm, oldIx, newIx, Names(oldJobs), name);
    AddedNamed(cm, oldIx, newIx, Names(newJobs), name);
  }

  /**
   * A job in both snapshots gets at most one event, chosen by priority:
   * build started, then build done, then status changed, else none.
   */
  lemma DiffForJobInBoth(cm: ColorMap, oldJobs: seq<Job>, newJobs: seq<Job>, name: string)
    requires name in Index(oldJobs) && name in Index(newJobs)
    ensures var o := Index(oldJobs)[name];
      var oi, ni := cm(o.color), cm(Index(newJobs)[name].color);
      var es := EventsNamed(Diff(cm, oldJobs, newJobs), name);
      (ni.building && !oi.building ==> es == [BuildStart(name, oi.status, o.url)]) &&
      (!ni.building && oi.building ==> es == [BuildDone(name, oi.status, ni.status, o.url)]) &&
      (ni.building == oi.building && ni.status != oi.status ==>
         es == [StatusChange(name, oi.status, ni.status, o.url)]) &&
      (ni.building == oi.building && ni.status == oi.status ==> es == [])
  {
    DiffNamed(cm, oldJobs, newJobs, name);
  }

  /** A job that starts building never also gets a status-change event. */
  lemma BuildStartExcludesStatusChange(cm: ColorMap, oldJobs: seq<Job>, newJobs: seq<Job>, name: string)
    requires name in Index(oldJobs) && name in Index(newJobs)
    requires cm(Index(newJobs)[name].color).building && !cm(Index(oldJobs)[name].color).building
    ensures forall e <- Diff(cm, oldJobs, newJobs) :: e.name == name ==> e.BuildStart?
    ensures |EventsNamed(Diff(cm, oldJobs, newJobs), name)| == 1
  {
    DiffForJobInBoth(cm, oldJobs, newJobs, name);
    var d := Diff(cm, oldJobs, newJobs);
    forall e <- d | e.name == name ensures e.BuildStart? {
      EventsNamedContains(d, e, name);
    }
  }

  /** Every event about `name` survives the filter. */
  lemma {:induction false} EventsNamedContains(es: seq<Event>, e: Event, name: string)
    requires e in es && e.name == name
    ensures e in EventsNamed(es, name)
  {
    var i := |es| - 1;
    if es[i] != e {
      assert e in es[..i];
      EventsNamedContains(es[..i], e, name);
    }
  }

  /** A job only in the old snapshot gets exactly one removal, with its own old status. */
  lemma DiffForRemovedJob(cm: ColorMap, oldJobs: seq<Job>, newJobs: seq<Job>, name: string)
    requires name in Index(oldJobs) && name !in Index(newJobs)
    ensures var o := Index(oldJobs)[name];
      EventsNamed(Diff(cm, oldJobs, newJobs), name) == [Remove(name, cm(o.color).status, o.url)]
  {
    DiffNamed(cm, oldJobs, newJobs, name);
  }

  /** A job only in the new snapshot gets exactly one addition, with its new status. */
  lemma DiffForAddedJob(cm: ColorMap, oldJobs: seq<Job>, newJobs: seq<Job>, name: string)
    requires name !in Index(oldJobs) && name in Index(newJobs)
    ensures var n := Index(newJobs)[name];
      EventsNamed(Diff(cm, oldJobs, newJobs), name) == [Add(name, cm(n.color).status, n.url)]
  {
    DiffNamed(cm, oldJobs, newJobs, name);
  }

  /** No event names a job that is in neither snapshot. */
  lemma DiffForAbsentJob(cm: ColorMap, oldJobs: seq<Job>, newJobs: seq<Job>, name: string)
    requires name !in Index(oldJobs) && name !in Index(newJobs)
    ensures forall e <- Diff(cm, oldJobs, newJobs) :: e.name != name
  {
    DiffNamed(cm, oldJobs, newJobs, name);
    var d := Diff(cm, oldJobs, newJobs);
    forall e <- d ensures e.name != name {
      if e.name == name { EventsNamedContains(d, e, name); }
    }
  }

  lemma {:induction false} OldSideHasNoAdd(cm: ColorMap, oldIx: map<string, Entry>, newIx: map<string, Entry>,
                                           names: seq<string>)
    requires forall n <- names :: n in oldIx
    ensures forall e <- OldSideEvents(cm, oldIx, newIx, names) :: !e.Add?
  {
    if names != [] {
      OldSideHasNoAdd(cm, oldIx, newIx, names[..|names| - 1]);
    }
  }

  lemma {:induction false} AddedAreAdds(cm: ColorMap, oldIx: map<string, Entry>, newIx: map<string, Entry>,
                                        names: seq<string>)
    requires forall n <- names :: n in newIx
    ensures forall e <- AddedEvents(cm, oldIx, newIx, names) :: e.Add?
  {
    if names != [] {
      AddedAreAdds(cm, oldIx, newIx, names[..|names| - 1]);
    }
  }

  /** In `a + b`, where only `b` holds additions, an addition is never followed by anything else. */
  lemma AddsAfterOthers(a: seq<Event>, b: seq<Event>)
    requires forall e <- a :: !e.Add?
    requires forall e <- b :: e.Add?
    ensures forall i, j :: 0 <= i < j < |a + b| && (a + b)[i].Add? ==> (a + b)[j].Add?
  {
    var d := a + b;
    forall k | 0 <= k < |a| ensures !d[k].Add? {
      assert d[k] == a[k];
      assert a[k] in a;
    }
    forall k | |a| <= k < |d| ensures d[k].Add? {
      assert d[k] == b[k - |a|];
      assert b[k - |a|] in b;
    }
  }

  /** All additions come after every removal and transition. */
  lemma AddsComeLast(cm: ColorMap, oldJobs: seq<Job>, newJobs: seq<Job>)
    ensures var d := Diff(cm, oldJobs, newJobs);
      forall i, j :: 0 <= i < j < |d| && d[i].Add? ==> d[j].Add?
  {
    var oldIx, newIx := Index(oldJobs), Index(newJobs);
    var a := OldSideEvents(cm, oldIx, newIx, Names(oldJobs));
    var b := AddedEvents(cm, oldIx, newIx, Names(newJobs));
    OldSideHasNoAdd(cm, oldIx, newIx, Names(oldJobs));
    AddedAreAdds(cm, oldIx, newIx, Names(newJobs));
    AddsAfterOthers(a, b);
  }

  lemma {:induction false} OldSideSelf(cm: ColorMap, ix: map<string, Entry>, names: seq<string>)
    requires forall n <- names :: n in ix
    ensures OldSideEvents(cm, ix, ix, names) == []
  {
    if names != [] {
      OldSideSelf(cm, ix, names[..|names| - 1]);
    }
  }

  lemma {:induction false} AddedWhenAllOld(cm: ColorMap, oldIx: map<string, Entry>, newIx: map<string, Entry>,
                                           names: seq<string>)
    requires forall n <- names :: n in newIx && n in oldIx
    ensures AddedEvents(cm, oldIx, newIx, names) == []
  {
    if names != [] {
      AddedWhenAllOld(cm, oldIx, newIx, names[..|names| - 1]);
    }
  }

  /** Comparing a snapshot with itself raises nothing. */
  lemma DiffOfIdentical(cm: ColorMap, jobs: seq<Job>)
    ensures Diff(cm, jobs, jobs) == []
  {
    OldSideSelf(cm, Index(jobs), Names(jobs));
    AddedWhenAllOld(cm, Index(jobs), Index(jobs), Names(jobs));
  }

  /** Comparing snapshots that differ only in `watched` raises nothing. */
  lemma DiffOfSameButWatched(cm: ColorMap, oldJobs: seq<Job>, newJobs: seq<Job>)
    requires SameButWatched(oldJobs, newJobs)
    ensures Diff(cm, oldJobs, newJobs) == []
  {
    IndexIgnoresWatched(oldJobs, newJobs);
    DiffOfIdentical(cm, oldJobs);
  }

  /** The events never depend on the `watched` flags of either snapshot. */
  lemma DiffIgnoresWatched(cm: ColorMap, oldJobs: seq<Job>, oldJobs': seq<Job>,
                           newJobs: seq<Job>, newJobs': seq<Job>)
    requires SameButWatched(oldJobs, oldJobs') && SameButWatched(newJobs, newJobs')
    ensures Diff(cm, oldJobs, newJobs) == Diff(cm, oldJobs', newJobs')
  {
    IndexIgnoresWatched(oldJobs, oldJobs');
    IndexIgnoresWatched(newJobs, newJobs');
  }

  lemma {:induction false} OldSideDisjoint(cm: ColorMap, oldIx: map<string, Entry>, newIx: map<string, Entry>,
                                           names: seq<string>)
    requires forall n <- names :: n in oldIx && n !in newIx
    ensures var r := OldSideEvents(cm, oldIx, newIx, names);
      |r| == |names| && forall k :: 0 <= k < |names| ==> r[k].Remove? && r[k].name == names[k]
  {
    if names != [] {
      OldSideDisjoint(cm, oldIx, newIx, names[..|names| - 1]);
    }
  }

  lemma {:induction false} AddedDisjoint(cm: ColorMap, oldIx: map<string, Entry>, newIx: map<string, Entry>,
                                         names: seq<string>)
    requires forall n <- names :: n in newIx && n !in oldIx
    ensures var r := AddedEvents(cm, oldIx, newIx, names);
      |r| == |names| && forall k :: 0 <= k < |names| ==> r[k].Add? && r[k].name == names[k]
  {
    if names != [] {
      AddedDisjoint(cm, oldIx, newIx, names[..|names| - 1]);
    }
  }

  /** The names of one list, when its keys avoid another index, all lie outside it. */
  lemma NamesOutside(jobs: seq<Job>, other: map<string, Entry>)
    requires Index(jobs).Keys !! other.Keys
    ensures forall n <- Names(jobs) :: n in Index(jobs) && n !in other
  {
  }

  /**
   * With no name in common, there is one removal per old name (in old
   * order), then one addition per new name (in new order), and nothing
   * else; what each carries is given by DiffForRemovedJob and DiffForAddedJob.
   */
  lemma DiffOfDisjoint(cm: ColorMap, oldJobs: seq<Job>, newJobs: seq<Job>)
    requires Index(oldJobs).Keys !! Index(newJobs).Keys
    ensures RemovesThenAdds(Diff(cm, oldJobs, newJobs), Names(oldJobs), Names(newJobs))
  {
    var oldIx, newIx := Index(oldJobs), Index(newJobs);
    var on, nn := Names(oldJobs), Names(newJobs);
    var a := OldSideEvents(cm, oldIx, newIx, on);
    var b := AddedEvents(cm, oldIx, newIx, nn);
    NamesOutside(oldJobs, newIx);
    NamesOutside(newJobs, oldIx);
    OldSideDisjoint(cm, oldIx, newIx, on);
    AddedDisjoint(cm, oldIx, newIx, nn);
    RemovalsThenAdditions(Diff(cm, oldJobs, newJobs), a, b, on, nn);
  }


  /** `d` removes the names `on`, in order, then adds the names `nn`, in order. */
  predicate RemovesThenAdds(d: seq<Event>, on: seq<string>, nn: seq<string>)
  {
    |d| == |on| + |nn| &&
    (forall k :: 0 <= k < |on| ==> d[k].Remove? && d[k].name == on[k]) &&
    (forall k :: |on| <= k < |d| ==> d[k].Add? && d[k].name == nn[k - |on|])
  }

  /** Removals for `on` followed by additions for `nn`, position by position. */
  lemma RemovalsThenAdditions(d: seq<Event>, a: seq<Event>, b: seq<Event>, on: seq<string>, nn: seq<string>)
    requires d == a + b
    requires |a| == |on| && forall k :: 0 <= k < |on| ==> a[k].Remove? && a[k].name == on[k]
    requires |b| == |nn| && forall k :: 0 <= k < |nn| ==> b[k].Add? && b[k].name == nn[k]
    ensures RemovesThenAdds(d, on, nn)
  {
    forall k | |on| <= k < |d| ensures d[k].Add? && d[k].name == nn[k - |on|] {
      assert d[k] == b[k - |a|];
    }
  }


  /** For job lists with unique names and no name in common: |old| removals and |new| additions. */
  lemma DiffOfDisjointUnique(cm: ColorMap, oldJobs: seq<Job>, newJobs: seq<Job>)
    requires UniqueNames(oldJobs) && UniqueNames(newJobs)
    requires forall i, j :: 0 <= i < |oldJobs| && 0 <= j < |newJobs| ==> oldJobs[i].name != newJobs[j].name
    ensures RemovesThenAdds(Diff(cm, oldJobs, newJobs), JobNames(oldJobs), JobNames(newJobs))
  {
    assert Index(oldJobs).Keys !! Index(newJobs).Keys by {
      IndexKeys(oldJobs);
      IndexKeys(newJobs);
    }
    UniqueNamesAreAllNames(oldJobs);
    UniqueNamesAreAllNames(newJobs);
    assert Names(oldJobs) == JobNames(oldJobs);
    assert Names(newJobs) == JobNames(newJobs);
    DiffOfDisjoint(cm, oldJobs, newJobs);
  }


  /** One more old name: its event is appended. */
  lemma OldSidePrefix(cm: ColorMap, oldIx: map<string, Entry>, newIx: map<string, Entry>,
                      names: seq<string>, k: nat)
    requires forall n <- names :: n in oldIx
    requires k < |names|
    ensures OldSideEvents(cm, oldIx, newIx, names[..k + 1]) ==
            OldSideEvents(cm, oldIx, newIx, names[..k]) + OldJobEvent(cm, names[k], oldIx[names[k]], newIx)
  {
    assert names[..k + 1][..k] == names[..k];
  }

  /** One more new name: its event is appended. */
  lemma AddedPrefix(cm: ColorMap, oldIx: map<string, Entry>, newIx: map<string, Entry>,
                    names: seq<string>, k: nat)
    requires forall n <- names :: n in newIx
    requires k < |names|
    ensures AddedEvents(cm, oldIx, newIx, names[..k + 1]) ==
            AddedEvents(cm, oldIx, newIx, names[..k]) + NewJobEvent(cm, names[k], oldIx, newIx[names[k]])
  {
    assert names[..k + 1][..k] == names[..k];
  }

  /** The first `for ... in` loop of `makeNotification`, over the old names. */
  method NotifyOldJobs(cm: ColorMap, oldIx: map<string, Entry>, newIx: map<string, Entry>,
                       oldOrder: seq<string>) returns (events: seq<Event>)
    requires forall n <- oldOrder :: n in oldIx
    ensures events == OldSideEvents(cm, oldIx, newIx, oldOrder)
  {
    events := [];
    for k := 0 to |oldOrder|
      invariant events == OldSideEvents(cm, oldIx, newIx, oldOrder[..k])
    {
      OldSidePrefix(cm, oldIx, newIx, oldOrder, k);
      var name := oldOrder[k];
      var oldJob := oldIx[name];
      if name in newIx {
        var oldStatInfo := cm(oldJob.color);
        var newStatInfo := cm(newIx[name].color);
        if newStatInfo.building && !oldStatInfo.building {
          events := events + [BuildStart(name, oldStatInfo.status, oldJob.url)];
        } else if !newStatInfo.building && oldStatInfo.building {
          events := events + [BuildDone(name, oldStatInfo.status, newStatInfo.status, oldJob.url)];
        } else if newStatInfo.status != oldStatInfo.status {
          events := events + [StatusChange(name, oldStatInfo.status, newStatInfo.status, oldJob.url)];
        }
      } else {
        events := events + [Remove(name, cm(oldJob.color).status, oldJob.url)];
      }
    }
    assert oldOrder[..|oldOrder|] == oldOrder;
  }

  /** The second `for ... in` loop of `makeNotification`, over the new names. */
  method NotifyNewJobs(cm: ColorMap, oldIx: map<string, Entry>, newIx: map<string, Entry>,
                       newOrder: seq<string>) returns (events: seq<Event>)
    requires forall n <- newOrder :: n in newIx
    ensures events == AddedEvents(cm, oldIx, newIx, newOrder)
  {
    events := [];
    for k := 0 to |newOrder|
      invariant events == AddedEvents(cm, oldIx, newIx, newOrder[..k])
    {
      AddedPrefix(cm, oldIx, newIx, newOrder, k);
      var name := newOrder[k];
      if name !in oldIx {
        events := events + [Add(name, cm(newIx[name].color).status, newIx[name].url)];
      }
    }
    assert newOrder[..|newOrder|] == newOrder;
  }

  /**
   * `makeNotification`: index both lists, raise removals and transitions
   * over the old names, then additions over the new names. `events` is the
   * sequence of calls made on the notifier.
   */
  method MakeNotification(cm: ColorMap, oldJobs: seq<Job>, newJobs: seq<Job>) returns (events: seq<Event>)
    ensures events == Diff(cm, oldJobs, newJobs)
  {
    var oldIx, oldOrder := HashJobByNames(oldJobs);
    var newIx, newOrder := HashJobByNames(newJobs);
    var changes := NotifyOldJobs(cm, oldIx, newIx, oldOrder);
    var additions := NotifyNewJobs(cm, oldIx, newIx, newOrder);
    events := changes + additions;
  }

  /** The index and key order of a one-job list. */
  lemma IndexOfOne(j: Job)
    ensures Index([j]) == map[j.name := Entry(ColorOrUnknown(j.color), j.url, 0)]
    ensures Names([j]) == [j.name]
  {
    assert [j][..0] == [];
  }

  /** The first loop over a single old name. */
  lemma OldSideOne(cm: ColorMap, oldIx: map<string, Entry>, newIx: map<string, Entry>, name: string)
    requires name in oldIx
    ensures OldSideEvents(cm, oldIx, newIx, [name]) == OldJobEvent(cm, name, oldIx[name], newIx)
  {
    assert [name][..0] == [];
  }

  /** The second loop over a single new name. */
  lemma AddedOne(cm: ColorMap, oldIx: map<string, Entry>, newIx: map<string, Entry>, name: string)
    requires name in newIx
    ensures AddedEvents(cm, oldIx, newIx, [name]) == NewJobEvent(cm, name, oldIx, newIx[name])
  {
    assert [name][..0] == [];
  }

  /** Old "A" blue, new "A" red: one status change from "success" to "failure". */
  lemma ScenarioStatusChange(cm: ColorMap, u: string)
    requires cm("blue") == StatInfo(false, "success") && cm("red") == StatInfo(false, "failure")
    ensures Diff(cm, [Job("A", Some("blue"), u, None)], [Job("A", Some("red"), u, None)]) ==
            [StatusChange("A", "success", "failure", u)]
  {
    ScenarioOneJob(cm, Job("A", Some("blue"), u, None), Job("A", Some("red"), u, None));
  }

  /** Old "A" blue, new "A" blue_anime (building): one build start. */
  lemma ScenarioBuildStart(cm: ColorMap, u: string)
    requires cm("blue") == StatInfo(false, "success") && cm("blue_anime") == StatInfo(true, "success")
    ensures Diff(cm, [Job("A", Some("blue"), u, None)], [Job("A", Some("blue_anime"), u, None)]) ==
            [BuildStart("A", "success", u)]
  {
    ScenarioOneJob(cm, Job("A", Some("blue"), u, None), Job("A", Some("blue_anime"), u, None));
  }

  /** Old "A" blue_anime, new "A" red: one build done, "success" to "failure". */
  lemma ScenarioBuildDone(cm: ColorMap, u: string)
    requires cm("blue_anime") == StatInfo(true, "success") && cm("red") == StatInfo(false, "failure")
    ensures Diff(cm, [Job("A", Some("blue_anime"), u, None)], [Job("A", Some("red"), u, None)]) ==
            [BuildDone("A", "success", "failure", u)]
  {
    ScenarioOneJob(cm, Job("A", Some("blue_anime"), u, None), Job("A", Some("red"), u, None));
  }

  /** The same job in both snapshots: the first loop's one verdict, and no addition. */
  lemma ScenarioOneJob(cm: ColorMap, o: Job, n: Job)
    requires o.name == n.name
    ensures Diff(cm, [o], [n]) ==
            OldJobEvent(cm, o.name, Entry(ColorOrUnknown(o.color), o.url, 0),
                        map[n.name := Entry(ColorOrUnknown(n.color), n.url, 0)])
  {
    IndexOfOne(o);
    IndexOfOne(n);
    OldSideOne(cm, Index([o]), Index([n]), o.name);
    AddedOne(cm, Index([o]), Index([n]), n.name);
  }

  /** A job without a colour is looked up as "unknown". */
  lemma ScenarioMissingColor(cm: ColorMap, u: string)
    ensures Diff(cm, [], [Job("B", None, u, None)]) == [Add("B", cm("unknown").status, u)]
    ensures Diff(cm, [Job("B", Some(""), u, None)], []) == [Remove("B", cm("unknown").status, u)]
  {
    var j1, j2 := Job("B", None, u, None), Job("B", Some(""), u, None);
    IndexOfOne(j1);
    IndexOfOne(j2);
    AddedOne(cm, Index([]), Index([j1]), "B");
    OldSideOne(cm, Index([j2]), Index([]), "B");
  }
}

/**
 * `makeNotification` as the code is written: for a job that has disappeared,
 * the removal reports `oldStatInfo`, the variable last assigned for an
 * earlier old job that still exists, and reading `.status` of it throws a
 * TypeError when there is no such earlier job.
 */
module NotificationAsWritten {
  import opened Wrappers
  import opened Jobs
  import opened Notification

  /** The events raised before the call returned or threw, and whether it threw. */
  datatype Run = Run(events: seq<Event>, threw: bool)

  /** What `oldStatInfo` holds after the first loop has visited `names`. */
  function StaleInfo(cm: ColorMap, oldIx: map<string, Entry>, newIx: map<string, Entry>,
                     names: seq<string>): (r: Option<StatInfo>)
    requires forall n <- names :: n in oldIx
    ensures r.None? <==> forall n <- names :: n !in newIx
  {
    if names == [] then None
    else
      var i := |names| - 1;
      if names[i] in newIx then Some(cm(oldIx[names[i]].color))
      else StaleInfo(cm, oldIx, newIx, names[..i])
  }

  /** The first loop as written. */
  function OldSideAsWritten(cm: ColorMap, oldIx: map<string, Entry>, newIx: map<string, Entry>,
                            names: seq<string>): Run
    requires forall n <- names :: n in oldIx
  {
    if names == [] then Run([], false)
    else
      var i := |names| - 1;
      var p := OldSideAsWritten(cm, oldIx, newIx, names[..i]);
      var name := names[i];
      if p.threw then p
      else if name in newIx then Run(p.events + OldJobEvent(cm, name, oldIx[name], newIx), false)
      else
        match StaleInfo(cm, oldIx, newIx, names[..i])
        case None => Run(p.events, true)
        case Some(si) => Run(p.events + [Remove(name, si.status, oldIx[name].url)], false)
  }

  /** `makeNotification(oldData, newData)` as written: the second loop runs only if the first did not throw. */
  function DiffAsWritten(cm: ColorMap, oldJobs: seq<Job>, newJobs: seq<Job>): Run
  {
    var oldIx, newIx := Index(oldJobs), Index(newJobs);
    var first := OldSideAsWritten(cm, oldIx, newIx, Names(oldJobs));
    if first.threw then first
    else Run(first.events + AddedEvents(cm, oldIx, newIx, Names(newJobs)), false)
  }

  /** When no job disappears, the code as written raises exactly the intended events. */
  lemma {:induction false} AsWrittenAgreesWithoutRemovals(cm: ColorMap, oldIx: map<string, Entry>,
                                                          newIx: map<string, Entry>, names: seq<string>)
    requires forall n <- names :: n in oldIx && n in newIx
    ensures OldSideAsWritten(cm, oldIx, newIx, names) == Run(OldSideEvents(cm, oldIx, newIx, names), false)
  {
    if names != [] {
      AsWrittenAgreesWithoutRemovals(cm, oldIx, newIx, names[..|names| - 1]);
    }
  }

  /** The same, for whole snapshots whose old jobs all survive. */
  lemma DiffAsWrittenAgrees(cm: ColorMap, oldJobs: seq<Job>, newJobs: seq<Job>)
    requires forall k :: 0 <= k < |oldJobs| ==> oldJobs[k].name in Index(newJobs)
    ensures DiffAsWritten(cm, oldJobs, newJobs) == Run(Diff(cm, oldJobs, newJobs), false)
  {
    IndexKeys(oldJobs);
    AsWrittenAgreesWithoutRemovals(cm, Index(oldJobs), Index(newJobs), Names(oldJobs));
  }

  /** Old [A blue, B red], new [A blue]: the removal of B reports A's status "success", not B's "failure". */
  lemma StaleStatusOnRemoval(cm: ColorMap, u: string)
    requires cm("blue") == StatInfo(false, "success") && cm("red") == StatInfo(false, "failure")
    ensures DiffAsWritten(cm, [Job("A", Some("blue"), u, None), Job("B", Some("red"), u, None)],
                          [Job("A", Some("blue"), u, None)]) ==
            Run([Remove("B", "success", u)], false)
    ensures Diff(cm, [Job("A", Some("blue"), u, None), Job("B", Some("red"), u, None)],
                 [Job("A", Some("blue"), u, None)]) ==
            [Remove("B", "failure", u)]
  {
    var a, b := Job("A", Some("blue"), u, None), Job("B", Some("red"), u, None);
    var o := [a, b];
    assert o[..1] == [a];
    IndexOfOne(a);
    var oldIx, newIx := Index(o), Index([a]);
    assert oldIx == map["A" := Entry("blue", u, 0), "B" := Entry("red", u, 1)];
    assert Names(o) == ["A", "B"];
    assert ["A", "B"][..1] == ["A"];
    OldSideOne(cm, oldIx, newIx, "A");
    AddedOne(cm, oldIx, newIx, "A");
    assert OldSideAsWritten(cm, oldIx, newIx, ["A"]) == Run([], false) by {
      assert ["A"][..0] == [];
    }
  }

  /** Old [B red], new []: reading the status of an unset `oldStatInfo` throws before any event. */
  lemma RemovalFirstThrows(cm: ColorMap, u: string)
    ensures DiffAsWritten(cm, [Job("B", Some("red"), u, None)], []) == Run([], true)
    ensures Diff(cm, [Job("B", Some("red"), u, None)], []) == [Remove("B", cm("red").status, u)]
  {
    var b := Job("B", Some("red"), u, None);
    IndexOfOne(b);
    assert ["B"][..0] == [];
    OldSideOne(cm, Index([b]), Index([]), "B");
    assert StaleInfo(cm, Index([b]), Index([]), []) == None;
    assert OldSideAsWritten(cm, Index([b]), Index([]), ["B"]) == Run([], true);
  }
}
