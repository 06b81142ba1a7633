/**
 * One round of `requestData`: every configured server is asked for its
 * jobs, and each answer, in the order the answers arrive, updates the
 * browser-action badge and the stored snapshots.
 */
module Poll {
  import opened Wrappers
  import opened Jobs
  import opened Notification
  import opened Storage

  /** The answer of one server: an error, or its snapshot. */
  datatype FetchResult = FetchError | Fetched(data: Snapshot)

  /** A call on the badge: `setIcon(text)` or `setIconColor(color)`. */
  datatype BadgeOp = SetIcon(text: string) | SetIconColor(color: string)

  const LoadingText := "Loading..."
  const FailText := "fail"
  /** Badge colour when a job of the answer is red. */
  const FailedColor := "#d9534f"
  /** Badge colour when no job of the answer is red. */
  const PassedColor := "#5cb85c"

  /** Some job of the snapshot has the colour "red" exactly. */
  predicate HasRed(jobs: seq<Job>)
  {
    exists k :: 0 <= k < |jobs| && jobs[k].color == Some("red")
  }

  /** The `$.each` over the jobs of one answer, setting `failed` on a red job. */
  method HasRedJob(jobs: seq<Job>) returns (failed: bool)
    ensures failed == HasRed(jobs)
  {
    failed := false;
    for i := 0 to |jobs|
      invariant failed <==> exists k :: 0 <= k < i && jobs[k].color == Some("red")
    {
      if jobs[i].color == Some("red") {
        failed := true;
      }
    }
  }

  /** A decimal digit. */
  function Digit(d: nat): (c: char)
    requires d < 10
    ensures '0' <= c <= '9'
  {
    "0123456789"[d]
  }

  /** The value of a decimal digit. */
  function DigitValue(c: char): nat
  {
    if '0' <= c <= '9' then (c - '0') as nat else 0
  }

  /** The value of a string of decimal digits. */
  function DecimalValue(s: string): nat
  {
    if s == [] then 0 else DecimalValue(s[..|s| - 1]) * 10 + DigitValue(s[|s| - 1])
  }

  /** `n.toString()` for a non-negative integer. */
  function DecimalString(n: nat): (r: string)
    ensures |r| > 0 && forall c <- r :: '0' <= c <= '9'
    ensures DecimalValue(r) == n
    ensures r[0] == '0' ==> n == 0
  {
    var d := Digit(n % 10);
    assert DigitValue(d) == n % 10 by {
      assert "0123456789"[n % 10] as int - '0' as int == n % 10;
    }
    if n < 10 then
      assert [d][..0] == [];
      [d]
    else
      var p := DecimalString(n / 10);
      assert (p + [d])[..|p|] == p && (p + [d])[0] == p[0];
      p + [d]
  }

  /** The badge calls of one callback before the completion check. */
  function CallbackOps(r: FetchResult): (ops: seq<BadgeOp>)
    ensures |ops| == 1
    ensures r.FetchError? <==> ops[0] == SetIcon(FailText)
  {
    match r
    case FetchError => [SetIcon(FailText)]
    case Fetched(d) => [SetIconColor(if HasRed(d.jobs) then FailedColor else PassedColor)]
  }

  /** The snapshots received so far, in order of arrival. */
  function Successes(rs: seq<FetchResult>): (r: seq<Snapshot>)
    ensures |r| <= |rs|
  {
    if rs == [] then []
    else
      var i := |rs| - 1;
      Successes(rs[..i]) + (if rs[i].Fetched? then [rs[i].data] else [])
  }

  /** `total_jobs_count`: the jobs of every snapshot received so far. */
  function JobTotal(rs: seq<FetchResult>): nat
  {
    if rs == [] then 0
    else
      var i := |rs| - 1;
      JobTotal(rs[..i]) + Added(rs[i])
  }

  /** The completion check after the callbacks for `rs`. */
  predicate Completed(sourceCount: nat, rs: seq<FetchResult>)
  {
    |rs| >= sourceCount && |Successes(rs)| > 0
  }

  /** All badge calls of a round whose first `|rs|` answers are `rs`. */
  function BadgeTrace(sourceCount: nat, rs: seq<FetchResult>): (ops: seq<BadgeOp>)
    ensures |ops| > |rs| && ops[0] == SetIcon(LoadingText)
  {
    if rs == [] then [SetIcon(LoadingText)]
    else
      var i := |rs| - 1;
      BadgeTrace(sourceCount, rs[..i]) + CallbackOps(rs[i]) + CompletionOps(sourceCount, rs)
  }

  /** The count shown by the completion check after the callbacks for `rs`, if it passes. */
  function CompletionOps(sourceCount: nat, rs: seq<FetchResult>): seq<BadgeOp>
  {
    if Completed(sourceCount, rs) then [SetIcon(DecimalString(JobTotal(rs)))] else []
  }

  /** A call that shows a job count: neither the loading text nor the failure text. */
  predicate IsCount(op: BadgeOp)
  {
    op.SetIcon? && op.text != LoadingText && op.text != FailText
  }

  /** What the stored snapshots, the raised events and the collected snapshots are after some answers. */
  datatype Round = Round(events: seq<Event>, store: Option<seq<Snapshot>>, collected: seq<Snapshot>)

  /** One answer's effect: a snapshot goes through `handleNewData` and is collected; a failure changes nothing. */
  function AnswerStep(cm: ColorMap, p: Round, r: FetchResult): Round
  {
    match r
    case FetchError => p
    case Fetched(d) =>
      var h := Handle(cm, p.store, d);
      Round(p.events + h.events, Some(h.store), p.collected + [h.merged])
  }

  /** The effect of the answers `rs` on the store: `handleNewData` for each snapshot, in order. */
  function AfterAnswers(cm: ColorMap, store: Option<seq<Snapshot>>, rs: seq<FetchResult>): (r: Round)
    ensures |r.collected| == |Successes(rs)|
  {
    if rs == [] then Round([], store, [])
    else
      var i := |rs| - 1;
      AnswerStep(cm, AfterAnswers(cm, store, rs[..i]), rs[i])
  }

  /** The jobs one answer adds to `total_jobs_count`. */
  function Added(r: FetchResult): nat
  {
    if r.Fetched? then |r.data.jobs| else 0
  }

  /** `BadgeTrace` and `JobTotal` after one more answer, stated on prefixes. */
  lemma BadgeStep(sourceCount: nat, rs: seq<FetchResult>, i: nat)
    requires i < |rs|
    ensures JobTotal(rs[..i + 1]) == JobTotal(rs[..i]) + Added(rs[i])
    ensures BadgeTrace(sourceCount, rs[..i + 1]) ==
      BadgeTrace(sourceCount, rs[..i]) + CallbackOps(rs[i]) + CompletionOps(sourceCount, rs[..i + 1])
  {
    assert rs[..i + 1][..i] == rs[..i];
  }

  /** The completion check, stated on the counters `requestData` keeps. */
  lemma CompletionCheck(sourceCount: nat, rs: seq<FetchResult>, finished: nat, total: nat, count: nat)
    requires finished == |rs| && total == JobTotal(rs) && count == |Successes(rs)|
    ensures CompletionOps(sourceCount, rs) ==
      if finished >= sourceCount && count > 0 then [SetIcon(DecimalString(total))] else []
  {
  }

  /** `AfterAnswers` after one more answer, stated on prefixes. */
  lemma AnswersStep(cm: ColorMap, store: Option<seq<Snapshot>>, rs: seq<FetchResult>, i: nat)
    requires i < |rs|
    ensures AfterAnswers(cm, store, rs[..i + 1]) == AnswerStep(cm, AfterAnswers(cm, store, rs[..i]), rs[i])
  {
    assert rs[..i + 1][..i] == rs[..i];
  }

  /** A decimal string is never one of the two fixed texts. */
  lemma CountTextIsNumeric(n: nat)
    ensures IsCount(SetIcon(DecimalString(n)))
  {
    var s := DecimalString(n);
    assert s[0] in s;
    assert LoadingText[0] == 'L' && FailText[0] == 'f';
  }

  /** Before every server has answered, the badge never shows a count. */
  lemma {:induction false} NoCountBeforeAllAnswered(sourceCount: nat, rs: seq<FetchResult>)
    requires |rs| < sourceCount
    ensures forall op <- BadgeTrace(sourceCount, rs) :: !IsCount(op)
  {
    if rs != [] {
      NoCountBeforeAllAnswered(sourceCount, rs[..|rs| - 1]);
    }
  }

  /**
   * When the last server has answered, the count is shown exactly when some
   * answer succeeded; it is the last call, its text is the total number of
   * jobs received, and no earlier call shows a count.
   */
  lemma CountAtCompletion(sourceCount: nat, rs: seq<FetchResult>)
    requires |rs| == sourceCount > 0
    ensures var ops := BadgeTrace(sourceCount, rs);
      (IsCount(ops[|ops| - 1]) <==> |Successes(rs)| > 0) &&
      (|Successes(rs)| > 0 ==> ops[|ops| - 1] == SetIcon(DecimalString(JobTotal(rs)))) &&
      forall k :: 0 <= k < |ops| - 1 ==> !IsCount(ops[k])
  {
    var i := |rs| - 1;
    var before := BadgeTrace(sourceCount, rs[..i]);
    NoCountBeforeAllAnswered(sourceCount, rs[..i]);
    CountTextIsNumeric(JobTotal(rs));
    var ops := BadgeTrace(sourceCount, rs);
    forall k | 0 <= k < |ops| - 1 ensures !IsCount(ops[k]) {
      if k < |before| {
        assert ops[k] == before[k];
        assert ops[k] in before;
      } else {
        assert ops[k] == CallbackOps(rs[i])[0];
      }
    }
  }

  /** A round in which every server failed ends with the failure text. */
  lemma AllFailedEndsWithFail(sourceCount: nat, rs: seq<FetchResult>)
    requires |rs| == sourceCount > 0 && |Successes(rs)| == 0
    ensures var ops := BadgeTrace(sourceCount, rs); ops[|ops| - 1] == SetIcon(FailText)
  {
    SuccessCount(rs);
  }

  /** One more answer adds one snapshot exactly when it succeeded. */
  lemma SuccessCount(rs: seq<FetchResult>)
    requires rs != []
    ensures |Successes(rs)| == |Successes(rs[..|rs| - 1])| + if rs[|rs| - 1].Fetched? then 1 else 0
  {
  }

  /** The colour the badge was set to last, if any. */
  function LastColor(ops: seq<BadgeOp>): Option<string>
  {
    if ops == [] then None
    else if ops[|ops| - 1].SetIconColor? then Some(ops[|ops| - 1].color)
    else LastColor(ops[..|ops| - 1])
  }

  /** The colour an answer's snapshot gives the badge. */
  function ColorFor(d: Snapshot): string
  {
    if HasRed(d.jobs) then FailedColor else PassedColor
  }

  /** `LastColor` of a concatenation. */
  lemma {:induction false} LastColorAppend(a: seq<BadgeOp>, b: seq<BadgeOp>)
    ensures LastColor(a + b) == if LastColor(b).Some? then LastColor(b) else LastColor(a)
  {
    if b == [] {
      assert a + b == a;
    } else {
      assert (a + b)[..|a + b| - 1] == a + b[..|b| - 1];
      LastColorAppend(a, b[..|b| - 1]);
    }
  }

  /** The colour after one more callback: its own, or the one before when it failed. */
  lemma ColorStep(sourceCount: nat, rs: seq<FetchResult>)
    requires rs != []
    ensures var i := |rs| - 1;
      LastColor(BadgeTrace(sourceCount, rs)) ==
        if rs[i].Fetched? then Some(ColorFor(rs[i].data)) else LastColor(BadgeTrace(sourceCount, rs[..i]))
  {
    var i := |rs| - 1;
    var tail := CompletionOps(sourceCount, rs);
    assert LastColor(tail) == None by {
      if tail != [] { assert tail[..0] == []; }
    }
    var cb := CallbackOps(rs[i]);
    assert LastColor(cb) == if rs[i].Fetched? then Some(ColorFor(rs[i].data)) else None by {
      assert cb[..0] == [];
    }
    LastColorAppend(BadgeTrace(sourceCount, rs[..i]), cb);
    LastColorAppend(BadgeTrace(sourceCount, rs[..i]) + cb, tail);
  }

  /**
   * The badge colour is decided by the last answer that succeeded alone:
   * a red job in an earlier answer is forgotten once a later one has none.
   */
  lemma {:induction false} ColorOfLastSuccess(sourceCount: nat, rs: seq<FetchResult>)
    ensures var s := Successes(rs);
      LastColor(BadgeTrace(sourceCount, rs)) == if s == [] then None else Some(ColorFor(s[|s| - 1]))
  {
    if rs != [] {
      var i := |rs| - 1;
      ColorOfLastSuccess(sourceCount, rs[..i]);
      ColorStep(sourceCount, rs);
      if rs[i].Fetched? {
        var s := Successes(rs);
        assert s == Successes(rs[..i]) + [rs[i].data];
        assert s[|s| - 1] == rs[i].data;
      } else {
        assert Successes(rs) == Successes(rs[..i]);
      }
    } else {
      assert [SetIcon(LoadingText)][..0] == [];
    }
  }

  /** The urls stored after a round: those before, plus the url of every snapshot received. */
  lemma {:induction false} AnswersUrls(cm: ColorMap, store: Option<seq<Snapshot>>, rs: seq<FetchResult>)
    ensures Urls(StoredList(AfterAnswers(cm, store, rs).store)) ==
            Urls(StoredList(store)) + Urls(Successes(rs))
  {
    if rs != [] {
      var i := |rs| - 1;
      var p := AfterAnswers(cm, store, rs[..i]);
      AnswersUrls(cm, store, rs[..i]);
      var s := Successes(rs[..i]);
      if rs[i].Fetched? {
        var h := Handle(cm, p.store, rs[i].data);
        assert AfterAnswers(cm, store, rs).store == Some(h.store);
        HandleUrls(cm, p.store, rs[i].data);
        assert Successes(rs) == s + [rs[i].data];
        UrlsAppend(s, rs[i].data);
      } else {
        assert Successes(rs) == s;
      }
    }
  }

  /** However the answers arrive, the store never holds two snapshots of one server. */
  lemma {:induction false} AnswersKeepUrlsUnique(cm: ColorMap, store: Option<seq<Snapshot>>, rs: seq<FetchResult>)
    requires UniqueUrls(StoredList(store))
    ensures UniqueUrls(StoredList(AfterAnswers(cm, store, rs).store))
  {
    if rs != [] {
      var i := |rs| - 1;
      var p := AfterAnswers(cm, store, rs[..i]);
      AnswersKeepUrlsUnique(cm, store, rs[..i]);
      if rs[i].Fetched? {
        HandleKeepsUrlsUnique(cm, p.store, rs[i].data);
      }
    }
  }
}
