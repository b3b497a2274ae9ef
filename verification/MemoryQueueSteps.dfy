/** What a pass takes, marks and records, field by field, and what the terminal history says over every run. */
module MemoryQueueSteps {
  import opened Sequences
  import opened MemoryQueueSpec
  import opened MemoryQueueLaws
  import opened MemoryRuns

  // ---------------------------------------------------------------- what is collected

  /** The longest prefix of pending rows of one operation within the limit, or one row alone over it. */
  ghost predicate LongestFit(rows: seq<Row>, max: nat, m: nat) {
    && 1 <= m <= |rows|
    && (forall i :: 0 <= i < m ==> rows[i].status.Pending? && rows[i].op == rows[0].op)
    && (m == 1 || Chars(rows[..m]) <= max)
    && (Continues(rows, m) ==> Chars(rows[..m + 1]) > max)
  }

  /** Row `m` is one the batch could have taken too. */
  predicate Continues(rows: seq<Row>, m: nat) {
    m < |rows| && rows[m].status.Pending? && rows[m].op == rows[0].op
  }

  /** The processing rows of one operation at the head, all of them. */
  ghost predicate ProcessingHead(rows: seq<Row>, n: nat) {
    && 1 <= n <= |rows|
    && (forall i :: 0 <= i < n ==> rows[i].status.Processing? && rows[i].op == rows[0].op)
    && (n < |rows| ==> rows[n].status.Pending? || rows[n].op != rows[0].op)
  }

  lemma {:induction false} ProcessingRunExactly(rows: seq<Row>, op: string)
    ensures var n := ProcessingRun(rows, op);
            && (forall i :: 0 <= i < n ==> rows[i].status.Processing? && rows[i].op == op)
            && (n < |rows| ==> rows[n].status.Pending? || rows[n].op != op)
  {
    if rows != [] && rows[0].status.Processing? && rows[0].op == op {
      ProcessingRunExactly(rows[1..], op);
      var n := ProcessingRun(rows, op);
      assert forall i :: 1 <= i < |rows| ==> rows[i] == rows[1..][i - 1];
    }
  }

  lemma FitOfRun(rows: seq<Row>, max: nat)
    requires rows != [] && rows[0].status.Pending?
    ensures LongestFit(rows, max, PendingRun(rows, rows[0].op, max, 0, 0))
  {
    PendingRunIsFresh(rows, rows[0].op, max, 0, 0);
  }

  /** The batch that is due, for any queue. A processing head is collected with all of its kind unless its
      retry time lies ahead. A pending head is collected as far as the limit goes, by default 50000
      characters, if the limit cut it or is reached, or if the head has waited long enough, by default three
      seconds. Otherwise nothing is. */
  lemma CollectedExactly(rows: seq<Row>, now: int, limits: Limits)
    ensures var batch := Collect(rows, now, limits);
            var n := |batch|;
            var max := if limits.batchMaxChars == 0 then 50000 else limits.batchMaxChars;
            var wait := if limits.maxWaitSeconds == 0 then 3 else limits.maxWaitSeconds;
            && n <= |rows| && batch == rows[..n] && (rows == [] ==> n == 0)
            && (rows != [] && rows[0].status.Processing? ==>
                  if rows[0].retryAfter.Some? && rows[0].retryAfter.value > now then n == 0
                  else ProcessingHead(rows, n))
            && (rows != [] && rows[0].status.Pending? ==>
                  exists m: nat ::
                    && LongestFit(rows, max, m)
                    && n == if Continues(rows, m) || Chars(rows[..m]) >= max || now - rows[0].createdAt >= wait then m
                            else 0)
  {
    if rows != [] {
      if rows[0].status.Processing? {
        ProcessingRunExactly(rows, rows[0].op);
      } else {
        FitOfRun(rows, EffectiveMaxChars(limits));
      }
    }
  }

  /** There is one such prefix. */
  lemma LongestFitIsUnique(rows: seq<Row>, max: nat, m: nat, k: nat)
    requires LongestFit(rows, max, m) && LongestFit(rows, max, k)
    ensures m == k
  {
    if m < k {
      MoreChars(rows, m + 1, k);
    } else if k < m {
      MoreChars(rows, k + 1, m);
    }
  }

  lemma {:induction false} MoreChars(rows: seq<Row>, n: nat, k: nat)
    requires n <= k <= |rows|
    ensures Chars(rows[..n]) <= Chars(rows[..k])
    decreases k
  {
    if n < k {
      MoreChars(rows, n, k - 1);
      CharsSnoc(rows, k - 1);
    }
  }

  // ---------------------------------------------------------------- how rows are marked

  /** The row is being processed; its request is the same, and so is the time of its first start. */
  ghost predicate InProcess(r: Row, r': Row, now: int) {
    && r'.id == r.id && r'.op == r.op && r'.payload == r.payload && r'.createdAt == r.createdAt
    && r'.status.Processing? && r'.startedAt == (if r.startedAt.None? then Some(now) else r.startedAt)
  }

  /** Exactly the rows with these ids are marked: as being processed and without error, or with an error and
      thirty seconds to the next attempt. */
  lemma MarksExactly(rows: seq<Row>, ids: set<Id>, now: int, error: string, i: nat)
    requires i < |rows|
    ensures |MarkProcessing(rows, ids, now)| == |rows| == |MarkError(rows, ids, now, error)|
    ensures var r, p, e := rows[i], MarkProcessing(rows, ids, now)[i], MarkError(rows, ids, now, error)[i];
            if r.id in ids then
              && InProcess(r, p, now) && p.lastError == "" && p.lastErrorAt.None? && p.retryAfter.None?
              && InProcess(r, e, now) && e.lastError == error && e.lastErrorAt == Some(now)
              && e.retryAfter == Some(now + 30)
            else p == r && e == r
  {
  }

  /** A row of the batch is in process, and with an error and a retry time if the pass had to stop. */
  ghost predicate Taken(r: Row, r': Row, now: int, stopped: Option<string>) {
    if stopped.Some? then
      && InProcess(r, r', now) && r'.lastError == stopped.value && r'.lastErrorAt == Some(now)
      && r'.retryAfter == Some(now + 30)
    else if r.status.Pending? then
      InProcess(r, r', now) && r'.lastError == "" && r'.lastErrorAt.None? && r'.retryAfter.None?
    else r' == r
  }

  /** The queue after a pass has taken its first `n` rows. */
  ghost predicate TakenFirst(q: seq<Row>, q': seq<Row>, n: nat, now: int, stopped: Option<string>) {
    && |q'| == |q| && n <= |q|
    && forall i :: 0 <= i < |q| ==> if i < n then Taken(q[i], q'[i], now, stopped) else q'[i] == q[i]
  }

  lemma TakenRows(q: seq<Row>, batch: seq<Row>, now: int, ready: bool, error: string)
    requires WellFormedQueue(q) && HeadPrefix(q, batch) && batch != []
    ensures var marked := if batch[0].status.Pending? then MarkProcessing(q, RowIds(batch), now) else q;
            TakenFirst(q, if ready then marked else MarkError(marked, RowIds(batch), now, error), |batch|, now,
                       if ready then None else Some(error))
  {
    assert batch == q[..|batch|];
    PrefixIds(q, |batch|);
    assert forall i :: 0 <= i < |batch| ==> q[i] == batch[i];
  }

  /** What a pass does with a batch it has collected. */
  ghost predicate Begun(q: seq<Row>, batch: seq<Row>, q': seq<Row>, held: seq<Row>, now: int, ready: bool,
      error: string)
  {
    if batch == [] then q' == q && held == []
    else if exists i :: 0 <= i < |batch| && batch[i].payload == "" then held == batch && q' == DropIds(q, RowIds(batch))
    else if ready then held == batch && TakenFirst(q, q', |batch|, now, None)
    else held == [] && TakenFirst(q, q', |batch|, now, Some(error))
  }

  lemma HeldExactly(s: Store, batch: seq<Row>, now: int, ready: bool, error: string)
    requires WellFormedQueue(s.queue) && HeadPrefix(s.queue, batch) && !Overlaps(Ids(batch), HistoryIds(s.history))
    ensures var (s', held) := HoldBatch(s, batch, now, ready, error);
            s'.failed == s.failed && s'.history == s.history
            && Begun(s.queue, batch, s'.queue, held, now, ready, error)
  {
    if batch != [] {
      TakenRows(s.queue, batch, now, ready, error);
    }
  }

  /** The start of a pass. Rows the terminal history has leave the queue first. Then, if a batch is due:
      with an empty request in it, it leaves the queue and is held to be recorded; otherwise its rows are
      marked, and it is held for the agent, or stays with the error if no model is configured. */
  lemma PassBegins(s: Store, now: int, limits: Limits, ready: bool, error: string)
    requires WellFormedQueue(s.queue)
    ensures var q := DropIds(s.queue, HistoryIds(s.history));
            var (s', held) := BeginPass(s, now, limits, ready, error);
            s'.failed == s.failed && s'.history == s.history
            && Begun(q, Collect(q, now, limits), s'.queue, held, now, ready, error)
  {
    var q := DropIds(s.queue, HistoryIds(s.history));
    var batch := Collect(q, now, limits);
    DropIdsKeepsShape(s.queue, HistoryIds(s.history));
    CollectsHeadPrefix(q, now, limits);
    assert batch == q[..|batch|];
    PrefixDistinct(q, |batch|);
    NoOverlap(batch, q, HistoryIds(s.history));
    HeldExactly(Swept(s), batch, now, ready, error);
  }

  // ---------------------------------------------------------------- how requests come back

  /** A request as it goes back to the queue: fresh, but with its last error. */
  ghost predicate Fresh(item: Row, r: Row) {
    r == Row(item.id, item.op, item.payload, item.createdAt, Pending, None, item.lastError, item.lastErrorAt, None)
  }

  /** The row is a fresh one of these items. */
  ghost predicate FreshOf(items: seq<Row>, r: Row) {
    exists item :: item in items && Fresh(item, r)
  }

  /** Behind the rows of the queue stand fresh rows of items, each with an id that no row before it has. */
  ghost predicate AppendedNew(queue: seq<Row>, items: seq<Row>, queue': seq<Row>) {
    && queue <= queue'
    && forall k :: |queue| <= k < |queue'| ==>
         FreshOf(items, queue'[k]) && forall j :: 0 <= j < k ==> queue'[j].id != queue'[k].id
  }

  lemma NewOfMore(queue: seq<Row>, items: seq<Row>, queue': seq<Row>)
    requires items != [] && AppendedNew(queue, items[1..], queue')
    ensures AppendedNew(queue, items, queue')
  {
    forall k | |queue| <= k < |queue'|
      ensures FreshOf(items, queue'[k])
    {
      assert FreshOf(items[1..], queue'[k]);
      var item :| item in items[1..] && Fresh(item, queue'[k]);
      assert item in items;
    }
  }

  lemma NewInFront(queue: seq<Row>, items: seq<Row>, queue': seq<Row>)
    requires items != [] && (forall r :: r in queue ==> r.id != items[0].id)
    requires AppendedNew(queue + [Renewed(items[0])], items[1..], queue')
    ensures AppendedNew(queue, items, queue')
  {
    var more := queue + [Renewed(items[0])];
    assert items[0] in items && forall item :: item in items[1..] ==> item in items;
    forall k | |queue| <= k < |queue'|
      ensures FreshOf(items, queue'[k]) && forall j :: 0 <= j < k ==> queue'[j].id != queue'[k].id
    {
      if k == |queue| {
        assert queue'[k] == more[k] && Fresh(items[0], queue'[k]);
        assert forall j :: 0 <= j < k ==> queue'[j] == more[j] == queue[j] && queue[j] in queue;
      } else {
        assert FreshOf(items[1..], queue'[k]);
      }
    }
  }

  /** Requests go back only if the queue does not have them, and each once. */
  lemma {:induction false} AppendsMissing(queue: seq<Row>, items: seq<Row>)
    ensures AppendedNew(queue, items, AppendMissing(queue, items))
    decreases |items|
  {
    if items != [] {
      IdsAreRowIds(queue);
      if items[0].id in Ids(queue) {
        AppendsMissing(queue, items[1..]);
        NewOfMore(queue, items, AppendMissing(queue, items));
      } else {
        AppendsMissing(queue + [Renewed(items[0])], items[1..]);
        NewInFront(queue, items, AppendMissing(queue, items));
      }
    }
  }

  lemma KeepsIds(queue: seq<Row>, queue': seq<Row>, id: Id)
    requires queue <= queue' && id in Ids(queue)
    ensures id in Ids(queue')
  {
    var i :| 0 <= i < |queue| && Ids(queue)[i] == id;
    assert Ids(queue')[i] == id;
  }

  /** And afterwards the queue has them all. */
  lemma {:induction false} AppendsAll(queue: seq<Row>, items: seq<Row>, i: nat)
    requires i < |items|
    ensures items[i].id in Ids(AppendMissing(queue, items))
    decreases |items|
  {
    var more := if items[0].id in Ids(queue) then queue else queue + [Renewed(items[0])];
    if i > 0 {
      AppendsAll(more, items[1..], i - 1);
    } else {
      assert items[0].id !in Ids(queue) ==> Ids(more)[|queue|] == items[0].id;
      AppendsMissing(more, items[1..]);
      KeepsIds(more, AppendMissing(queue, items), items[0].id);
    }
  }

  ghost predicate AppendedFresh(queue: seq<Row>, items: seq<Row>, queue': seq<Row>) {
    && |queue'| == |queue| + |items| && queue <= queue'
    && forall i :: 0 <= i < |items| ==> Fresh(items[i], queue'[|queue| + i])
  }

  lemma RenewedAreFresh(queue: seq<Row>, items: seq<Row>)
    ensures AppendedFresh(queue, items, queue + RenewedRows(items))
  {
  }

  /** An operator's retry puts the requests of the record at the tail and counts the retry. */
  lemma RetryExactly(w: World, failedId: Id, now: int)
    requires Inv(w) && Enabled(w, Retry(failedId, now))
    ensures var s, s', k := w.store, Next(w, Retry(failedId, now)).store, FindRecord(w.store.failed, failedId);
            && s.failed[k].failedId == failedId && |s'.failed| == |s.failed|
            && (forall i :: 0 <= i < |s.failed| && i != k ==> s'.failed[i] == s.failed[i])
            && s'.failed[k] == s.failed[k].(status := Requeued, requeuedAt := Some(now),
                                            manualRetryCount := s.failed[k].manualRetryCount + 1)
            && AppendedFresh(s.queue, s.failed[k].items, s'.queue)
  {
    var k := FindRecord(w.store.failed, failedId);
    RequeuedQueue(w.store, k, Manual, now);
    RenewedAreFresh(w.store.queue, w.store.failed[k].items);
  }

  // ---------------------------------------------------------------- what the history says

  /** The terminal record a step writes, if any. */
  ghost predicate Writes(w: World, step: Step, t: Terminal)
    requires Enabled(w, step)
  {
    match step
    case RecordCondemned => t.verdict == Discarded("precheck_failed") && t.op == w.pass.items[0].op
      && t.requestIds == Ids(w.pass.items)
    case Finish => t.verdict.Applied?
      && t.op == (if w.pass.items[0].op == "assess" then "write" else w.pass.items[0].op)
      && t.requestIds == Ids(w.pass.items)
    case DiscardRecord(failedId) =>
      && t.verdict == Discarded("operator_discarded")
      && exists r :: r in w.store.failed && r.failedId == failedId && t.op == r.op && t.requestIds == r.requestIds
    case _ => false
  }

  /** A step adds at most one terminal record, and only three steps add one. */
  lemma HistoryGrowsBy(w: World, step: Step)
    requires Inv(w) && Enabled(w, step)
    ensures var h, h' := w.store.history, Next(w, step).store.history;
            if step.RecordCondemned? || step.Finish? || step.DiscardRecord? then
              |h'| == |h| + 1 && h <= h' && Writes(w, step, h'[|h|])
            else h' == h
  {
    if step.DiscardRecord? {
      var r := w.store.failed[FindRecord(w.store.failed, step.failedId)];
      assert r in w.store.failed && RecordOk(r) && DiscardIds(r) == r.requestIds;
    } else if step.Begin? {
      BeginPassIds(w.store, step.now, step.limits, step.ready, step.error);
    }
  }

  /** A record is of one of three kinds, and if it says applied its requests have been. */
  ghost predicate SaysTrue(t: Terminal, applied: set<Id>) {
    || (t.verdict.Applied? && Elements(t.requestIds) <= applied)
    || t.verdict == Discarded("precheck_failed") || t.verdict == Discarded("operator_discarded")
  }

  ghost predicate HistoryTrue(w: World) {
    forall t :: t in w.store.history ==> SaysTrue(t, Elements(w.applied))
  }

  lemma StepKeepsHistoryTrue(w: World, step: Step)
    requires Inv(w) && Enabled(w, step) && HistoryTrue(w)
    ensures HistoryTrue(Next(w, step))
  {
    HistoryGrowsBy(w, step);
    var w' := Next(w, step);
    var h, h' := w.store.history, w'.store.history;
    assert Elements(w.applied) <= Elements(w'.applied) by {
      assert step.CommitBatch? ==> w'.applied == w.applied + Ids(w.pass.items);
    }
    if step.Finish? {
      IdsAreRowIds(w.pass.items);
      assert LedgerOf(w).held <= LedgerOf(w).applied;
    }
    forall t | t in h'
      ensures SaysTrue(t, Elements(w'.applied))
    {
      var i :| 0 <= i < |h'| && h'[i] == t;
      assert i < |h| ==> h[i] == t && t in h;
    }
  }

  lemma {:induction false} RunKeepsHistoryTrue(w: World, steps: seq<Step>)
    requires Inv(w) && Legal(w, steps) && HistoryTrue(w)
    ensures HistoryTrue(Run(w, steps))
    decreases |steps|
  {
    if steps != [] {
      StepKeepsInv(w, steps[0]);
      StepKeepsHistoryTrue(w, steps[0]);
      RunKeepsHistoryTrue(Next(w, steps[0]), steps[1..]);
    }
  }

  /** Over every run, what the terminal history records as applied has been applied by a commit. */
  lemma RecordedAsAppliedIsApplied(steps: seq<Step>, t: Terminal)
    requires Legal(START, steps) && t in Run(START, steps).store.history
    ensures || (t.verdict.Applied? && Elements(t.requestIds) <= Elements(Run(START, steps).applied))
            || t.verdict == Discarded("precheck_failed") || t.verdict == Discarded("operator_discarded")
  {
    RunKeepsHistoryTrue(START, steps);
  }

  // ---------------------------------------------------------------- no record is left behind

  /** From the purge on, no failed record names a request of the batch. */
  ghost predicate RecordsPurged(w: World) {
    w.pass.InPass? && (w.pass.stage.Purged? || w.pass.stage.Signalled?) ==>
      forall r :: r in w.store.failed ==> !Overlaps(r.requestIds, Held(w))
  }

  lemma RequeuedRecords(s: Store, k: nat, trigger: Trigger, now: int, ids: set<Id>)
    requires k < |s.failed| && forall r :: r in s.failed ==> !Overlaps(r.requestIds, ids)
    ensures forall r :: r in Requeue(s, k, trigger, now).failed ==> !Overlaps(r.requestIds, ids)
  {
    var failed' := Requeue(s, k, trigger, now).failed;
    forall r | r in failed'
      ensures !Overlaps(r.requestIds, ids)
    {
      var i :| 0 <= i < |failed'| && failed'[i] == r;
      assert s.failed[i] in s.failed && r.requestIds == s.failed[i].requestIds;
    }
  }

  lemma StepKeepsPurged(w: World, step: Step)
    requires Inv(w) && Enabled(w, step) && RecordsPurged(w)
    ensures RecordsPurged(Next(w, step))
  {
    var s := w.store;
    if step.PurgeRecords? {
      PurgeMembers(s.failed, Held(w));
    } else if At(w, Stage.Purged) || At(w, Signalled) {
      if step.SignalSuccess? && step.auto && OldestWaiting(s.failed) < |s.failed| {
        RequeuedRecords(s, OldestWaiting(s.failed), Auto, step.now, Held(w));
      } else if step.Retry? {
        RequeuedRecords(s, FindRecord(s.failed, step.failedId), Manual, step.now, Held(w));
      } else if step.DiscardRecord? {
        WithoutRecordMembers(s.failed, step.failedId);
      }
    }
  }

  lemma {:induction false} RunKeepsPurged(w: World, steps: seq<Step>)
    requires Inv(w) && Legal(w, steps) && RecordsPurged(w)
    ensures RecordsPurged(Run(w, steps))
    decreases |steps|
  {
    if steps != [] {
      StepKeepsInv(w, steps[0]);
      StepKeepsPurged(w, steps[0]);
      RunKeepsPurged(Next(w, steps[0]), steps[1..]);
    }
  }

  /** When a pass writes that its batch was applied, no failed record names any of its requests, whatever
      operators did meanwhile. */
  lemma FinishedLeavesNoRecord(steps: seq<Step>)
    requires Legal(START, steps) && Enabled(Run(START, steps), Finish)
    ensures var w := Run(START, steps);
            forall r, i :: r in w.store.failed && 0 <= i < |w.pass.items| ==> w.pass.items[i].id !in r.requestIds
  {
    RunKeepsPurged(START, steps);
    var w := Run(START, steps);
    forall r, i | r in w.store.failed && 0 <= i < |w.pass.items|
      ensures w.pass.items[i].id !in r.requestIds
    {
      assert w.pass.items[i] in w.pass.items && w.pass.items[i].id in Held(w);
      assert forall j :: 0 <= j < |r.requestIds| ==> r.requestIds[j] !in Held(w);
    }
  }
}
