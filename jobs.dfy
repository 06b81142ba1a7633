/** Optional values: JavaScript's `undefined` for a field that may be absent. */
module Wrappers {
  datatype Option<+T> = None | Some(value: T)
}

/**
 * Jobs and snapshots as a Jenkins server reports them, and the by-name index
 * that the background page builds from an ordered job list (`hashJobByNames`).
 */
module Jobs {
  import opened Wrappers

  /** A job; `color` and `watched` may be absent (undefined) in the source data. */
  datatype Job = Job(name: string, color: Option<string>, url: string, watched: Option<bool>)

  /** The data fetched from one Jenkins server: its url and its ordered jobs. */
  datatype Snapshot = Snapshot(jenkinsUrl: string, jobs: seq<Job>)

  /** One value of the by-name index: normalised colour, url and position (`seq` in the source). */
  datatype Entry = Entry(color: string, url: string, pos: nat)

  /** JavaScript's `color || 'unknown'`: an absent or empty colour becomes "unknown". */
  function ColorOrUnknown(c: Option<string>): string
  {
    if c.Some? && c.value != "" then c.value else "unknown"
  }

  /** JavaScript's `!!watched`: only a stored `true` counts as watched. */
  predicate Truthy(w: Option<bool>)
  {
    w == Some(true)
  }

  /** The job names, no two alike. */
  predicate UniqueNames(jobs: seq<Job>)
  {
    forall i, j :: 0 <= i < j < |jobs| ==> jobs[i].name != jobs[j].name
  }

  /** No name occurs twice; stated from the end, as the lists are built. */
  predicate Distinct(names: seq<string>)
  {
    names == [] || (Distinct(names[..|names| - 1]) && names[|names| - 1] !in names[..|names| - 1])
  }

  /** Dropping a last element other than `name` does not change membership of `name`. */
  lemma MemberOfPrefix(names: seq<string>, name: string)
    requires names != [] && names[|names| - 1] != name
    ensures name in names <==> name in names[..|names| - 1]
  {
    assert names == names[..|names| - 1] + [names[|names| - 1]];
  }

  /** In a list without repetitions, no element occurs before its own position. */
  lemma {:induction false} DistinctAt(names: seq<string>, i: nat)
    requires Distinct(names) && i < |names|
    ensures names[i] !in names[..i]
  {
    var n := |names| - 1;
    if i < n {
      var p := names[..n];
      DistinctAt(p, i);
      assert p[..i] == names[..i];
    }
  }

  /** Position k holds the last job called `name`. */
  predicate IsLast(jobs: seq<Job>, k: nat, name: string)
  {
    k < |jobs| && jobs[k].name == name &&
    forall j :: k < j < |jobs| ==> jobs[j].name != name
  }

  /**
   * The object `hashJobByNames` returns: each job, in order, overwrites the
   * entry for its name, so on duplicate names the last occurrence wins.
   */
  function Index(jobs: seq<Job>): (r: map<string, Entry>)
    ensures forall k :: 0 <= k < |jobs| ==> jobs[k].name in r
    ensures forall name :: name in r ==> r[name].pos < |jobs| && jobs[r[name].pos].name == name
  {
    if jobs == [] then map[]
    else
      var i := |jobs| - 1;
      Index(jobs[..i])[jobs[i].name := Entry(ColorOrUnknown(jobs[i].color), jobs[i].url, i)]
  }

  /**
   * The keys of `Index(jobs)` in the order a `for ... in` loop visits them:
   * the order in which each name first occurs.
   */
  function Names(jobs: seq<Job>): (r: seq<string>)
    ensures forall name :: name in r <==> name in Index(jobs)
    ensures Distinct(r)
    ensures |r| <= |jobs|
  {
    if jobs == [] then []
    else
      var i := |jobs| - 1;
      var p := Names(jobs[..i]);
      if jobs[i].name in p then p
      else
        assert (p + [jobs[i].name])[..|p|] == p;
        p + [jobs[i].name]
  }

  /** Position p holds the first job called `name`. */
  predicate FirstAt(jobs: seq<Job>, p: nat, name: string)
  {
    p < |jobs| && jobs[p].name == name &&
    forall q :: 0 <= q < p ==> jobs[q].name != name
  }

  /**
   * `Names` lists the names in the order of their first occurrence: of two
   * listed names, the earlier one first occurs earlier in the job list.
   */
  lemma {:induction false} NamesInFirstOrder(jobs: seq<Job>, a: nat, b: nat, pa: nat, pb: nat)
    requires a < b < |Names(jobs)|
    requires FirstAt(jobs, pa, Names(jobs)[a]) && FirstAt(jobs, pb, Names(jobs)[b])
    ensures pa < pb
  {
    var i := |jobs| - 1;
    if b < |Names(jobs[..i])| {
      NamesOfPrefix(jobs, a);
      NamesOfPrefix(jobs, b);
      FirstInPrefix(jobs, a, pa);
      FirstInPrefix(jobs, b, pb);
      NamesInFirstOrder(jobs[..i], a, b, pa, pb);
    } else {
      NewNameComesLast(jobs, a, b, pa, pb);
    }
  }

  /** The case of `NamesInFirstOrder` where the later name is the one the last job adds. */
  lemma NewNameComesLast(jobs: seq<Job>, a: nat, b: nat, pa: nat, pb: nat)
    requires a < b < |Names(jobs)| && jobs != [] && b >= |Names(jobs[..|jobs| - 1])|
    requires FirstAt(jobs, pa, Names(jobs)[a]) && FirstAt(jobs, pb, Names(jobs)[b])
    ensures pa < pb
  {
    NamesOfLast(jobs, b);
    NamesOfPrefix(jobs, a);
    FirstInPrefix(jobs, a, pa);
    NewNameFirstAtLast(jobs);
    FirstIsUnique(jobs, pb, |jobs| - 1, jobs[|jobs| - 1].name);
  }

  /** A name listed for all jobs but the last keeps its place in `Names`. */
  lemma NamesOfPrefix(jobs: seq<Job>, a: nat)
    requires jobs != [] && a < |Names(jobs[..|jobs| - 1])|
    ensures a < |Names(jobs)| && Names(jobs)[a] == Names(jobs[..|jobs| - 1])[a]
  {
  }

  /** A name listed after all those of the jobs but the last is the last job's, and new. */
  lemma NamesOfLast(jobs: seq<Job>, b: nat)
    requires jobs != [] && |Names(jobs[..|jobs| - 1])| <= b < |Names(jobs)|
    ensures b == |Names(jobs[..|jobs| - 1])| && Names(jobs)[b] == jobs[|jobs| - 1].name
    ensures jobs[|jobs| - 1].name !in Names(jobs[..|jobs| - 1])
  {
  }

  /** A name not listed for all jobs but the last first occurs at the last job. */
  lemma NewNameFirstAtLast(jobs: seq<Job>)
    requires jobs != [] && jobs[|jobs| - 1].name !in Names(jobs[..|jobs| - 1])
    ensures FirstAt(jobs, |jobs| - 1, jobs[|jobs| - 1].name)
  {
    var p := jobs[..|jobs| - 1];
    forall q | 0 <= q < |p| ensures jobs[q].name != jobs[|jobs| - 1].name {
      assert jobs[q] == p[q] && p[q].name in Index(p);
    }
  }

  /** A name first occurs at one position only. */
  lemma FirstIsUnique(jobs: seq<Job>, p: nat, q: nat, name: string)
    requires FirstAt(jobs, p, name) && FirstAt(jobs, q, name)
    ensures p == q
  {
  }

  /** A name already listed for all jobs but the last first occurs before the last job. */
  lemma FirstInPrefix(jobs: seq<Job>, k: nat, pa: nat)
    requires jobs != [] && k < |Names(jobs[..|jobs| - 1])|
    requires FirstAt(jobs, pa, Names(jobs[..|jobs| - 1])[k])
    ensures pa < |jobs| - 1 && FirstAt(jobs[..|jobs| - 1], pa, Names(jobs[..|jobs| - 1])[k])
  {
    var p := jobs[..|jobs| - 1];
    var name := Names(p)[k];
    assert name in Names(p);
    var q := Index(p)[name].pos;
    assert p[q].name == name && jobs[q] == p[q];
  }

  /** The names of the jobs, position by position, duplicates included. */
  function JobNames(jobs: seq<Job>): (r: seq<string>)
    ensures |r| == |jobs| && forall k :: 0 <= k < |jobs| ==> r[k] == jobs[k].name
  {
    seq(|jobs|, k requires 0 <= k < |jobs| => jobs[k].name)
  }

  /** Two job lists that differ at most in their `watched` flags. */
  predicate SameButWatched(a: seq<Job>, b: seq<Job>)
  {
    |a| == |b| &&
    forall k :: 0 <= k < |a| ==>
      a[k].name == b[k].name && a[k].color == b[k].color && a[k].url == b[k].url
  }

  /** The keys of the index are exactly the job names. */
  lemma IndexKeys(jobs: seq<Job>)
    ensures Index(jobs).Keys == set k | 0 <= k < |jobs| :: jobs[k].name
  {
    var ix := Index(jobs);
    var names := set k | 0 <= k < |jobs| :: jobs[k].name;
    forall n | n in ix ensures n in names {
      assert jobs[ix[n].pos].name == n;
    }
    forall n | n in names ensures n in ix {
      var k :| 0 <= k < |jobs| && jobs[k].name == n;
    }
  }

  /**
   * The entry for `name` describes the last job called `name`: its position,
   * its colour (normalised) and its url.
   */
  lemma {:induction false} IndexEntryIsLast(jobs: seq<Job>, name: string)
    requires name in Index(jobs)
    ensures var e := Index(jobs)[name];
      IsLast(jobs, e.pos, name) &&
      e.color == ColorOrUnknown(jobs[e.pos].color) && e.url == jobs[e.pos].url
  {
    var i := |jobs| - 1;
    var p := jobs[..i];
    if jobs[i].name != name {
      var e := Index(p)[name];
      assert Index(jobs)[name] == e;
      IndexEntryIsLast(p, name);
      assert p[e.pos] == jobs[e.pos];
      forall j | e.pos < j < |jobs| ensures jobs[j].name != name {
        if j < i { assert p[j] == jobs[j]; }
      }
    }
  }

  /** With unique names, the entry for each job's name is that job's own position. */
  lemma UniqueIndexSeq(jobs: seq<Job>, k: nat)
    requires UniqueNames(jobs) && k < |jobs|
    ensures Index(jobs)[jobs[k].name].pos == k
  {
    IndexEntryIsLast(jobs, jobs[k].name);
  }

  /** With unique names, `Names` lists every job once, in order. */
  lemma {:induction false} UniqueNamesAreAllNames(jobs: seq<Job>)
    requires UniqueNames(jobs)
    ensures |Names(jobs)| == |jobs|
    ensures forall k :: 0 <= k < |jobs| ==> Names(jobs)[k] == jobs[k].name
  {
    if jobs != [] {
      var i := |jobs| - 1;
      var p := jobs[..i];
      assert UniqueNames(p) by {
        forall a, b | 0 <= a < b < |p| ensures p[a].name != p[b].name {
          assert p[a] == jobs[a] && p[b] == jobs[b];
        }
      }
      UniqueNamesAreAllNames(p);
      assert jobs[i].name !in Names(p);
      assert Names(jobs) == Names(p) + [jobs[i].name];
      forall k | 0 <= k < |jobs| ensures Names(jobs)[k] == jobs[k].name {
        if k < i { assert p[k] == jobs[k]; }
      }
    }
  }

  /** The index, and hence its key order, never looks at `watched`. */
  lemma {:induction false} IndexIgnoresWatched(a: seq<Job>, b: seq<Job>)
    requires SameButWatched(a, b)
    ensures Index(a) == Index(b) && Names(a) == Names(b)
  {
    if a != [] {
      var i := |a| - 1;
      assert SameButWatched(a[..i], b[..i]);
      IndexIgnoresWatched(a[..i], b[..i]);
    }
  }

  /**
   * `hashJobByNames`: fills the index in one pass; `order` is the order in
   * which names enter the object, which is the order `for ... in` visits them.
   */
  method HashJobByNames(jobs: seq<Job>) returns (hash: map<string, Entry>, order: seq<string>)
    ensures hash == Index(jobs) && order == Names(jobs)
  {
    hash, order := map[], [];
    for i := 0 to |jobs|
      invariant hash == Index(jobs[..i])
      invariant order == Names(jobs[..i])
    {
      assert jobs[..i + 1][..i] == jobs[..i];
      if jobs[i].name !in hash {
        order := order + [jobs[i].name];
      }
      hash := hash[jobs[i].name := Entry(ColorOrUnknown(jobs[i].color), jobs[i].url, i)];
    }
    assert jobs[..|jobs|] == jobs;
  }
}
