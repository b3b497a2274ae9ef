/** Whatever path a request takes through queue, failed records and retries, it arrives at the
    agent with the operation, payload and creation time it was enqueued with. */
module MemoryContent {
  import opened Sequences
  import opened MemoryQueueSpec
  import opened MemoryQueueLaws
  import opened MemoryRuns

  ghost predicate SameRequest(a: Row, b: Row) {
    a.id == b.id && a.op == b.op && a.payload == b.payload && a.createdAt == b.createdAt
  }

  ghost predicate Known(r: Row, rows: set<Row>) {
    exists e :: e in rows && SameRequest(r, e)
  }

  ghost predicate AllKnown(rs: seq<Row>, rows: set<Row>) {
    forall r :: r in rs ==> Known(r, rows)
  }

  /** Every row the stores or the running pass hold is one of `rows`, up to its processing marks. */
  ghost predicate Faithful(w: World, rows: set<Row>) {
    && AllKnown(w.store.queue, rows)
    && (forall r :: r in w.store.failed ==> AllKnown(r.items, rows))
    && (w.pass.InPass? ==> AllKnown(w.pass.items, rows))
  }

  lemma KnownCarries(a: Row, b: Row, rows: set<Row>)
    requires Known(a, rows) && SameRequest(b, a)
    ensures Known(b, rows)
  {
    var e :| e in rows && SameRequest(a, e);
    assert SameRequest(b, e);
  }

  lemma {:induction false} AppendMissingKnown(queue: seq<Row>, items: seq<Row>, rows: set<Row>)
    requires AllKnown(queue, rows) && AllKnown(items, rows)
    ensures AllKnown(AppendMissing(queue, items), rows)
    decreases |items|
  {
    if items != [] {
      KnownCarries(items[0], Renewed(items[0]), rows);
      AppendMissingKnown(if items[0].id in Ids(queue) then queue else queue + [Renewed(items[0])], items[1..], rows);
    }
  }

  lemma MarkedKnown(queue: seq<Row>, ids: set<Id>, now: int, error: string, rows: set<Row>)
    requires AllKnown(queue, rows)
    ensures AllKnown(MarkProcessing(queue, ids, now), rows)
    ensures AllKnown(MarkError(queue, ids, now, error), rows)
  {
    forall i | 0 <= i < |queue|
      ensures Known(MarkProcessing(queue, ids, now)[i], rows) && Known(MarkError(queue, ids, now, error)[i], rows)
    {
      KnownCarries(queue[i], MarkProcessing(queue, ids, now)[i], rows);
      KnownCarries(queue[i], MarkError(queue, ids, now, error)[i], rows);
    }
  }

  lemma HoldBatchKnown(s: Store, batch: seq<Row>, now: int, ready: bool, error: string, rows: set<Row>)
    requires AllKnown(s.queue, rows) && batch <= s.queue
    ensures AllKnown(HoldBatch(s, batch, now, ready, error).0.queue, rows)
    ensures AllKnown(HoldBatch(s, batch, now, ready, error).1, rows)
    ensures HoldBatch(s, batch, now, ready, error).0.failed == s.failed
  {
    var ids := RowIds(batch);
    var (s', held) := HoldBatch(s, batch, now, ready, error);
    if batch == [] {
    } else if Overlaps(Ids(batch), HistoryIds(s.history)) {
      DropIdsMembers(s.queue, ids * HistoryIds(s.history));
    } else if PrecheckFails(batch) {
      DropIdsMembers(s.queue, ids);
    } else {
      var q := if batch[0].status.Pending? then MarkProcessing(s.queue, ids, now) else s.queue;
      MarkedKnown(s.queue, ids, now, error, rows);
      MarkedKnown(q, ids, now, error, rows);
    }
    assert AllKnown(batch, rows) by {
      assert forall i :: 0 <= i < |batch| ==> batch[i] == s.queue[i];
    }
  }

  lemma RequeueKnown(s: Store, k: nat, trigger: Trigger, now: int, rows: set<Row>)
    requires AllKnown(s.queue, rows) && (forall r :: r in s.failed ==> AllKnown(r.items, rows)) && k < |s.failed|
    ensures AllKnown(Requeue(s, k, trigger, now).queue, rows)
    ensures forall r :: r in Requeue(s, k, trigger, now).failed ==> AllKnown(r.items, rows)
  {
    assert s.failed[k] in s.failed;
    AppendMissingKnown(s.queue, s.failed[k].items, rows);
  }

  lemma BeginIsFaithful(w: World, step: Step, rows: set<Row>)
    requires Inv(w) && step.Begin? && Enabled(w, step) && Faithful(w, rows)
    ensures Faithful(Next(w, step), rows)
  {
    var done := HistoryIds(w.store.history);
    var q := DropIds(w.store.queue, done);
    DropIdsMembers(w.store.queue, done);
    DropIdsKeepsShape(w.store.queue, done);
    CollectsHeadPrefix(q, step.now, step.limits);
    HoldBatchKnown(w.store.(queue := q), Collect(q, step.now, step.limits), step.now, step.ready, step.error, rows);
  }

  lemma ParkIsFaithful(w: World, step: Step, rows: set<Row>)
    requires Inv(w) && step.AgentFails? && Enabled(w, step) && Faithful(w, rows)
    ensures Faithful(Next(w, step), rows)
  {
    DropIdsMembers(w.store.queue, Held(w));
    var failed, failed' := w.store.failed, Next(w, step).store.failed;
    forall i | 0 <= i < |failed'|
      ensures AllKnown(failed'[i].items, rows)
    {
      assert failed'[i].items == w.pass.items || (i < |failed| && failed'[i] == failed[i]);
      if i < |failed| {
        assert failed[i] in failed;
      }
    }
  }

  lemma DiscardIsFaithful(w: World, step: Step, rows: set<Row>)
    requires step.DiscardRecord? && Enabled(w, step) && Faithful(w, rows)
    ensures Faithful(Next(w, step), rows)
  {
    var r := w.store.failed[FindRecord(w.store.failed, step.failedId)];
    DropIdsMembers(w.store.queue, Elements(r.requestIds));
    WithoutRecordMembers(w.store.failed, step.failedId);
  }

  lemma StepIsFaithful(w: World, step: Step, rows: set<Row>)
    requires Inv(w) && Enabled(w, step) && Faithful(w, rows)
    requires step.Enqueue? ==> step.row in rows
    ensures Faithful(Next(w, step), rows)
  {
    match step
    case Enqueue(row) => assert SameRequest(row, row);
    case Sweep => DropIdsMembers(w.store.queue, HistoryIds(w.store.history));
    case Begin(_, _, _, _) => BeginIsFaithful(w, step, rows);
    case RecordCondemned =>
    case AgentFails(_, _, _, _, _) => ParkIsFaithful(w, step, rows);
    case DropBatch => DropIdsMembers(w.store.queue, Held(w));
    case PurgeRecords => PurgeMembers(w.store.failed, Held(w));
    case SignalSuccess(auto, now) =>
      var k := OldestWaiting(w.store.failed);
      if auto && k < |w.store.failed| {
        RequeueKnown(w.store, k, Auto, now, rows);
      }
    case Retry(failedId, now) => RequeueKnown(w.store, FindRecord(w.store.failed, failedId), Manual, now, rows);
    case DiscardRecord(_) => DiscardIsFaithful(w, step, rows);
    case CommitBatch =>
    case Finish =>
    case Die =>
  }

  ghost function EnqueuedRows(steps: seq<Step>): set<Row> {
    set step | step in steps && step.Enqueue? :: step.row
  }

  lemma {:induction false} RunIsFaithful(w: World, steps: seq<Step>, rows: set<Row>)
    requires Inv(w) && Legal(w, steps) && Faithful(w, rows)
    requires forall step :: step in steps && step.Enqueue? ==> step.row in rows
    ensures Faithful(Run(w, steps), rows)
    decreases |steps|
  {
    if steps != [] {
      var w' := Next(w, steps[0]);
      assert Run(w, steps) == Run(w', steps[1..]);
      StepKeepsInv(w, steps[0]);
      StepIsFaithful(w, steps[0], rows);
      RunIsFaithful(w', steps[1..], rows);
    }
  }

  /** In every run, every queue row, every item of a failed record and every row at the agent carries
      the id, operation, payload and creation time of a request that was enqueued. */
  lemma RequestsKeepTheirContent(steps: seq<Step>)
    requires Legal(START, steps)
    ensures Faithful(Run(START, steps), EnqueuedRows(steps))
  {
    RunIsFaithful(START, steps, EnqueuedRows(steps));
  }
}
