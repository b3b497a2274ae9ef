/** The memory worker as a state machine: every run of enqueues, worker passes, requeues and
    operator decisions, with other steps allowed while a batch is at the agent and with passes
    that die half way. */
module MemoryRuns {
  import opened Sequences
  import opened MemoryQueueSpec
  import opened MemoryQueueLaws

  /** How far the running pass has come with the batch it holds. A condemned batch failed the precheck:
      it is out of the queue and waits for its terminal record. */
  datatype Stage = AtAgent | Condemned | QueueDropped | Committed | Purged | Signalled

  datatype Pass = Idle | InPass(stage: Stage, items: seq<Row>)

  /** The stores, the running pass, and three records of the past: every id ever enqueued, every
      id a commit has applied (in order, once per application), and the ids of batches whose pass
      died between the queue drop and the terminal record. */
  datatype World = World(store: Store, pass: Pass, enqueued: set<Id>, applied: seq<Id>, lost: set<Id>)

  datatype Step =
    | Enqueue(row: Row)
    | Sweep
    | Begin(now: int, limits: Limits, ready: bool, error: string)
    | RecordCondemned
    | AgentFails(category: Category, reason: string, error: string, failedId: Id, now: int)
    | DropBatch
    | CommitBatch
    | PurgeRecords
    | SignalSuccess(auto: bool, now: int)
    | Finish
    | Die
    | Retry(failedId: Id, now: int)
    | DiscardRecord(failedId: Id)

  ghost predicate At(w: World, stage: Stage) {
    w.pass.InPass? && w.pass.stage == stage
  }

  ghost function Held(w: World): set<Id> {
    if w.pass.Idle? then {} else RowIds(w.pass.items)
  }

  ghost function FailedIds(failed: seq<Record>): seq<Id> {
    seq(|failed|, i requires 0 <= i < |failed| => failed[i].failedId)
  }

  /** The pass that goes on with what `BeginPass` left it. */
  ghost function PassWith(batch: seq<Row>): Pass {
    if batch == [] then Idle else InPass(if PrecheckFails(batch) then Condemned else AtAgent, batch)
  }

  const START: World := World(Store([], [], []), Idle, {}, [], {})

  ghost predicate Enabled(w: World, step: Step) {
    match step
    case Enqueue(row) => row.id !in w.enqueued && row.status.Pending?
    case Sweep => w.pass.Idle?
    case Begin(_, _, _, _) => w.pass.Idle?
    case RecordCondemned => At(w, Condemned) && w.pass.items != []
    case AgentFails(_, _, _, failedId, _) => At(w, AtAgent) && w.pass.items != []
      && failedId !in FailedIds(w.store.failed)
    case DropBatch => At(w, AtAgent)
    case CommitBatch => At(w, QueueDropped)
    case PurgeRecords => At(w, Committed)
    case SignalSuccess(_, _) => At(w, Purged)
    case Finish => At(w, Signalled) && w.pass.items != []
    case Die => w.pass.InPass?
    case Retry(failedId, _) =>
      var k := FindRecord(w.store.failed, failedId);
      k < |w.store.failed| && w.store.failed[k].status.Parked?
    case DiscardRecord(failedId) => FindRecord(w.store.failed, failedId) < |w.store.failed|
  }

  ghost function Next(w: World, step: Step): World
    requires Enabled(w, step)
  {
    var s := w.store;
    match step
    case Enqueue(row) =>
      w.(store := s.(queue := s.queue + [row]), enqueued := w.enqueued + {row.id})
    case Sweep =>
      w.(store := Swept(s))
    case Begin(now, limits, ready, error) =>
      var (s', batch) := BeginPass(s, now, limits, ready, error);
      w.(store := s', pass := PassWith(batch))
    case RecordCondemned =>
      w.(store := s.(history := s.history + [Condemnation(w.pass.items)]), pass := Idle)
    case AgentFails(category, reason, error, failedId, now) =>
      w.(store := Park(s, Failure(w.pass.items[0].op, w.pass.items, category, reason, error), failedId, now),
         pass := Idle)
    case DropBatch =>
      w.(store := s.(queue := DropIds(s.queue, Held(w))), pass := w.pass.(stage := QueueDropped))
    case CommitBatch =>
      w.(pass := w.pass.(stage := Committed), applied := w.applied + Ids(w.pass.items))
    case PurgeRecords =>
      w.(store := s.(failed := Purge(s.failed, Held(w))), pass := w.pass.(stage := Purged))
    case SignalSuccess(auto, now) =>
      var k := OldestWaiting(s.failed);
      w.(store := if auto && k < |s.failed| then Requeue(s, k, Auto, now) else s,
         pass := w.pass.(stage := Signalled))
    case Finish =>
      w.(store := s.(history := s.history + [Terminal(AppliedOp(w.pass.items[0].op), Applied, Ids(w.pass.items))]),
         pass := Idle)
    case Die =>
      w.(pass := Idle, lost := if At(w, AtAgent) then w.lost else w.lost + Held(w))
    case Retry(failedId, now) =>
      w.(store := Requeue(s, FindRecord(s.failed, failedId), Manual, now))
    case DiscardRecord(failedId) =>
      w.(store := Discard(s, failedId))
  }

  ghost predicate Legal(w: World, steps: seq<Step>)
    decreases |steps|
  {
    steps == [] || (Enabled(w, steps[0]) && Legal(Next(w, steps[0]), steps[1..]))
  }

  ghost function Run(w: World, steps: seq<Step>): World
    requires Legal(w, steps)
    decreases |steps|
  {
    if steps == [] then w else Run(Next(w, steps[0]), steps[1..])
  }

  // ---------------------------------------------------------------- the invariant

  ghost predicate RecordOk(r: Record) {
    r.items != [] && r.requestIds == Ids(r.items) && Distinct(r.requestIds)
  }

  /** Failed records are keyed by their failed id, and parked ones share no request. */
  ghost predicate FailedOk(failed: seq<Record>) {
    && Distinct(FailedIds(failed))
    && (forall r :: r in failed ==> RecordOk(r))
    && (forall a, b :: a in failed && b in failed && a != b && a.status.Parked? && b.status.Parked? ==>
          Disjoint(a.requestIds, b.requestIds))
  }

  /** The id sets of a world, with the ids its records name. */
  datatype Ledger = Ledger(
    queue: set<Id>, parked: set<Id>, done: set<Id>, held: set<Id>,
    applied: set<Id>, lost: set<Id>, enqueued: set<Id>)

  ghost function LedgerOf(w: World): Ledger {
    Ledger(RowIds(w.store.queue), ParkedIds(w.store.failed), HistoryIds(w.store.history), Held(w),
           Elements(w.applied), w.lost, w.enqueued)
  }

  ghost predicate BeforeCommit(stage: Stage) {
    stage.AtAgent? || stage.Condemned? || stage.QueueDropped?
  }

  /** Every enqueued id is somewhere; applied and lost ids are never where work can find them; the
      held ids leave the queue at the drop and are applied at the commit. */
  ghost predicate Balanced(l: Ledger, pass: Pass) {
    && l.enqueued == l.queue + l.parked + l.done + l.held + l.lost
    && l.applied <= l.enqueued
    && l.parked !! l.queue + l.held + l.applied + l.lost
    && l.queue !! l.applied + l.lost
    && l.held !! l.lost
    && (pass.Idle? ==> l.held == {})
    && (pass.InPass? && pass.stage.AtAgent? ==> l.held <= l.queue + l.done)
    && (pass.InPass? && !pass.stage.AtAgent? ==> l.held !! l.queue)
    && (pass.InPass? ==> if BeforeCommit(pass.stage) then l.held !! l.applied else l.held <= l.applied)
  }

  /** The batch in flight, and which queue rows are marked as processing meanwhile. */
  ghost predicate HeldOk(queue: seq<Row>, pass: Pass)
    requires pass.InPass?
  {
    && pass.items != [] && Distinct(Ids(pass.items))
    && (forall r :: r in queue ==> (r.status.Processing? <==> pass.stage.AtAgent? && r.id in RowIds(pass.items)))
  }

  /** Ids that can never be worked on again: applied by a commit, or of a batch that died. */
  ghost function Gone(w: World): set<Id> {
    Elements(w.applied) + w.lost
  }

  ghost function Accounted(w: World): set<Id> {
    RowIds(w.store.queue) + ParkedIds(w.store.failed) + HistoryIds(w.store.history) + Held(w)
  }

  ghost predicate NamesEnqueued(failed: seq<Record>, enqueued: set<Id>) {
    forall r :: r in failed ==> Elements(r.requestIds) <= enqueued
  }

  ghost predicate Inv(w: World) {
    && WellFormedQueue(w.store.queue)
    && FailedOk(w.store.failed)
    && NamesEnqueued(w.store.failed, w.enqueued)
    && (w.pass.InPass? ==> HeldOk(w.store.queue, w.pass))
    && Distinct(w.applied)
    && Balanced(LedgerOf(w), w.pass)
  }

  // ---------------------------------------------------------------- edits of the failed list

  lemma FailedTail(failed: seq<Record>)
    requires FailedOk(failed) && failed != []
    ensures FailedOk(failed[1..])
    ensures forall r :: r in failed[1..] ==> r in failed && r.failedId != failed[0].failedId
  {
    var tail := failed[1..];
    assert forall i :: 0 <= i < |tail| ==> tail[i] == failed[i + 1] && FailedIds(tail)[i] == FailedIds(failed)[i + 1];
    forall i | 0 <= i < |tail|
      ensures tail[i].failedId != failed[0].failedId
    {
      assert FailedIds(failed)[0] != FailedIds(failed)[i + 1];
    }
  }

  lemma FailedCons(head: Record, rest: seq<Record>)
    requires Distinct(FailedIds(rest))
    requires forall r :: r in rest ==> r.failedId != head.failedId
    ensures Distinct(FailedIds([head] + rest))
  {
    var all := [head] + rest;
    forall j | 1 <= j < |all|
      ensures all[j] in rest && FailedIds(all)[j] == FailedIds(rest)[j - 1]
    {
      assert all[j] == rest[j - 1];
    }
  }

  lemma {:induction false} PurgeKeepsKeys(failed: seq<Record>, ids: set<Id>)
    requires FailedOk(failed)
    ensures Distinct(FailedIds(Purge(failed, ids)))
  {
    if failed != [] {
      var rest := Purge(failed[1..], ids);
      FailedTail(failed);
      PurgeKeepsKeys(failed[1..], ids);
      PurgeMembers(failed[1..], ids);
      FailedCons(failed[0], rest);
      assert Purge(failed, ids) == if Overlaps(failed[0].requestIds, ids) then rest else [failed[0]] + rest;
    }
  }

  lemma {:induction false} WithoutKeepsKeys(failed: seq<Record>, failedId: Id)
    requires FailedOk(failed)
    ensures Distinct(FailedIds(WithoutRecord(failed, failedId)))
  {
    if failed != [] {
      var rest := WithoutRecord(failed[1..], failedId);
      FailedTail(failed);
      WithoutKeepsKeys(failed[1..], failedId);
      WithoutRecordMembers(failed[1..], failedId);
      FailedCons(failed[0], rest);
      assert WithoutRecord(failed, failedId) == if failed[0].failedId == failedId then rest else [failed[0]] + rest;
    }
  }

  /** Distinct keys make membership after an update exact. */
  lemma UpdatedMembers(failed: seq<Record>, k: nat, r': Record)
    requires FailedOk(failed) && k < |failed| && r'.failedId == failed[k].failedId
    ensures forall r :: r in failed[k := r'] <==> r == r' || (r in failed && r != failed[k])
    ensures Distinct(FailedIds(failed[k := r']))
  {
    var failed' := failed[k := r'];
    assert FailedIds(failed') == FailedIds(failed);
    forall r
      ensures r in failed' <==> r == r' || (r in failed && r != failed[k])
    {
      assert failed'[k] == r';
      forall i | 0 <= i < |failed| && i != k
        ensures failed'[i] == failed[i] != failed[k]
      {
        assert FailedIds(failed)[i] != FailedIds(failed)[k];
      }
    }
  }

  lemma UpdateKeepsFailedOk(failed: seq<Record>, k: nat, r': Record)
    requires FailedOk(failed) && k < |failed| && r'.failedId == failed[k].failedId && RecordOk(r')
    requires r'.status.Parked? ==> forall r :: r in failed && r.status.Parked? ==> Disjoint(r.requestIds, r'.requestIds)
    ensures FailedOk(failed[k := r'])
  {
    UpdatedMembers(failed, k, r');
  }

  lemma AppendKeepsFailedOk(failed: seq<Record>, r': Record)
    requires FailedOk(failed) && r'.failedId !in FailedIds(failed) && RecordOk(r')
    requires forall r :: r in failed && r.status.Parked? ==> Disjoint(r.requestIds, r'.requestIds)
    ensures FailedOk(failed + [r'])
  {
    assert FailedIds(failed + [r']) == FailedIds(failed) + [r'.failedId];
    DistinctAppend(FailedIds(failed), [r'.failedId]);
    assert forall r :: r in failed + [r'] <==> r in failed || r == r';
  }

  // ---------------------------------------------------------------- parking

  /** Parking never touches a parked record: the record it merges into, if any, was requeued. */
  lemma ParkingMergesIntoRequeued(w: World)
    requires Inv(w) && At(w, AtAgent)
    ensures var k := FirstOverlap(w.store.failed, Held(w));
            k < |w.store.failed| ==> w.store.failed[k].status.Requeued?
  {
    var failed := w.store.failed;
    var k := FirstOverlap(failed, Held(w));
    if k < |failed| {
      var i :| 0 <= i < |failed[k].requestIds| && failed[k].requestIds[i] in Held(w);
      var id := failed[k].requestIds[i];
      assert failed[k] in failed && id in failed[k].requestIds && id !in ParkedIds(failed);
    }
  }

  /** What a newly parked record does to the parked ids, in the place of `gone` or besides all others. */
  lemma ParkedAdded(failed: seq<Record>, failed': seq<Record>, gone: Option<Record>, r': Record)
    requires gone.Some? ==> gone.value.status.Requeued?
    requires r'.status.Parked? && forall r :: r in failed' <==> r == r' || (r in failed && gone != Some(r))
    ensures ParkedIds(failed') == ParkedIds(failed) + Elements(r'.requestIds)
  {
    forall id | id in ParkedIds(failed)
      ensures id in ParkedIds(failed')
    {
      var r :| r in failed && r.status.Parked? && id in r.requestIds;
      assert r in failed';
    }
    forall id | id in r'.requestIds
      ensures id in ParkedIds(failed')
    {
      assert r' in failed';
    }
  }

  lemma ApartFromParked(failed: seq<Record>, ids: seq<Id>)
    requires ParkedIds(failed) !! Elements(ids)
    ensures forall r :: r in failed && r.status.Parked? ==> Disjoint(r.requestIds, ids)
  {
    forall r | r in failed && r.status.Parked?
      ensures Disjoint(r.requestIds, ids)
    {
      assert forall id :: id in r.requestIds ==> id in ParkedIds(failed);
      assert forall id :: id in ids ==> id in Elements(ids);
    }
  }

  /** The batch goes whole into a record that is there, and not parked. */
  lemma MergedFailedList(failed: seq<Record>, k: nat, f: Failure, now: int)
    requires FailedOk(failed) && k < |failed| && failed[k].status.Requeued?
    requires f.items != [] && Distinct(Ids(f.items)) && ParkedIds(failed) !! Elements(Ids(f.items))
    ensures var failed' := failed[k := Reparked(failed[k], f, now)];
            && FailedOk(failed') && ParkedIds(failed') == ParkedIds(failed) + Elements(Ids(f.items))
            && (forall r :: r in failed' ==> r in failed || r.requestIds == Ids(f.items))
  {
    var r' := Reparked(failed[k], f, now);
    ApartFromParked(failed, Ids(f.items));
    UpdateKeepsFailedOk(failed, k, r');
    UpdatedMembers(failed, k, r');
    assert forall r :: Some(failed[k]) != Some(r) <==> r != failed[k];
    ParkedAdded(failed, failed[k := r'], Some(failed[k]), r');
  }

  /** The batch goes whole into a new record. */
  lemma AppendedFailedList(failed: seq<Record>, failedId: Id, f: Failure, now: int)
    requires FailedOk(failed) && failedId !in FailedIds(failed)
    requires f.items != [] && Distinct(Ids(f.items)) && ParkedIds(failed) !! Elements(Ids(f.items))
    ensures var failed' := failed + [NewlyParked(failedId, f, now)];
            && FailedOk(failed') && ParkedIds(failed') == ParkedIds(failed) + Elements(Ids(f.items))
            && (forall r :: r in failed' ==> r in failed || r.requestIds == Ids(f.items))
  {
    var r' := NewlyParked(failedId, f, now);
    ApartFromParked(failed, Ids(f.items));
    AppendKeepsFailedOk(failed, r');
    assert forall r :: r in failed + [r'] <==> r in failed || r == r';
    ParkedAdded(failed, failed + [r'], None, r');
  }

  lemma ParkedFailedList(w: World, step: Step)
    requires Inv(w) && step.AgentFails? && Enabled(w, step)
    ensures FailedOk(Next(w, step).store.failed)
    ensures ParkedIds(Next(w, step).store.failed) == ParkedIds(w.store.failed) + Held(w)
    ensures forall r :: r in Next(w, step).store.failed ==> r in w.store.failed || Elements(r.requestIds) == Held(w)
  {
    var f := Failure(w.pass.items[0].op, w.pass.items, step.category, step.reason, step.error);
    var k := FirstOverlap(w.store.failed, Held(w));
    ParkingMergesIntoRequeued(w);
    IdsAreRowIds(f.items);
    assert Next(w, step).store == Park(w.store, f, step.failedId, step.now);
    if k < |w.store.failed| {
      MergedFailedList(w.store.failed, k, f, step.now);
    } else {
      AppendedFailedList(w.store.failed, step.failedId, f, step.now);
    }
  }

  // ---------------------------------------------------------------- requeueing

  lemma RequeuedFailedList(s: Store, k: nat, trigger: Trigger, now: int)
    requires FailedOk(s.failed) && k < |s.failed| && s.failed[k].status.Parked?
    ensures FailedOk(Requeue(s, k, trigger, now).failed)
    ensures ParkedIds(Requeue(s, k, trigger, now).failed) == ParkedIds(s.failed) - Elements(s.failed[k].requestIds)
    ensures Elements(s.failed[k].requestIds) <= ParkedIds(s.failed)
    ensures forall r :: r in Requeue(s, k, trigger, now).failed ==>
              exists r0 :: r0 in s.failed && r0.requestIds == r.requestIds
  {
    var r, r' := s.failed[k], AfterRequeue(s.failed[k], trigger, now);
    var failed' := s.failed[k := r'];
    assert r in s.failed && RecordOk(r);
    UpdateKeepsFailedOk(s.failed, k, r');
    UpdatedMembers(s.failed, k, r');
    forall id | id in ParkedIds(s.failed) && id !in r.requestIds
      ensures id in ParkedIds(failed')
    {
      var q :| q in s.failed && q.status.Parked? && id in q.requestIds;
      assert q in failed';
    }
    forall id | id in ParkedIds(failed')
      ensures id in ParkedIds(s.failed) && id !in r.requestIds
    {
      var q :| q in failed' && q.status.Parked? && id in q.requestIds;
      assert q in s.failed && q != r && Disjoint(q.requestIds, r.requestIds);
    }
    assert r in s.failed;
  }

  lemma RequeuedQueue(s: Store, k: nat, trigger: Trigger, now: int)
    requires WellFormedQueue(s.queue) && FailedOk(s.failed) && k < |s.failed| && s.failed[k].status.Parked?
    requires ParkedIds(s.failed) !! RowIds(s.queue)
    ensures Requeue(s, k, trigger, now).queue == s.queue + RenewedRows(s.failed[k].items)
    ensures WellFormedQueue(Requeue(s, k, trigger, now).queue)
    ensures RowIds(Requeue(s, k, trigger, now).queue) == RowIds(s.queue) + Elements(s.failed[k].requestIds)
  {
    RequeuedFailedList(s, k, trigger, now);
    var items := s.failed[k].items;
    assert s.failed[k] in s.failed;
    IdsAreRowIds(items);
    AppendMissingAll(s.queue, items);
    RenewedIds(items);
    AppendKeepsShape(s.queue, RenewedRows(items));
  }

  lemma RequeueKeepsInv(w: World, k: nat, trigger: Trigger, now: int)
    requires Inv(w) && k < |w.store.failed| && w.store.failed[k].status.Parked?
    ensures Inv(w.(store := Requeue(w.store, k, trigger, now)))
  {
    RequeuedFailedList(w.store, k, trigger, now);
    RequeuedQueue(w.store, k, trigger, now);
    var w' := w.(store := Requeue(w.store, k, trigger, now));
    var items := w.store.failed[k].items;
    assert w.store.failed[k] in w.store.failed;
    RenewedIds(items);
    IdsAreRowIds(items);
    if w.pass.InPass? {
      TailKeepsHeld(w.store.queue, RenewedRows(items), w.pass);
    }
    MoveToQueue(LedgerOf(w), w.pass, Elements(w.store.failed[k].requestIds));
    assert LedgerOf(w') == LedgerOf(w).(queue := RowIds(w'.store.queue), parked := ParkedIds(w'.store.failed));
  }

  lemma TailKeepsHeld(queue: seq<Row>, tail: seq<Row>, pass: Pass)
    requires pass.InPass? && HeldOk(queue, pass)
    requires RowIds(tail) !! RowIds(pass.items) && forall r :: r in tail ==> r.status.Pending?
    ensures HeldOk(queue + tail, pass)
  {
    forall r | r in queue + tail
      ensures r.status.Processing? <==> pass.stage.AtAgent? && r.id in RowIds(pass.items)
    {
      if r !in queue {
        assert r in tail && r.id in RowIds(tail);
      }
    }
  }

  lemma MoveToQueue(l: Ledger, pass: Pass, ids: set<Id>)
    requires Balanced(l, pass) && ids <= l.parked
    ensures Balanced(l.(queue := l.queue + ids, parked := l.parked - ids), pass)
  {
  }

  // ---------------------------------------------------------------- discarding

  lemma DiscardedIds(s: Store, failedId: Id)
    requires FailedOk(s.failed) && FindRecord(s.failed, failedId) < |s.failed|
    ensures var r := s.failed[FindRecord(s.failed, failedId)];
            var s' := Discard(s, failedId);
            && r in s.failed
            && FailedOk(s'.failed)
            && (forall q :: q in s'.failed ==> q in s.failed)
            && ParkedIds(s'.failed) <= ParkedIds(s.failed) <= ParkedIds(s'.failed) + Elements(r.requestIds)
            && HistoryIds(s'.history) == HistoryIds(s.history) + Elements(r.requestIds)
  {
    var s' := Discard(s, failedId);
    var r := s.failed[FindRecord(s.failed, failedId)];
    assert r in s.failed && DiscardIds(r) == r.requestIds;
    WithoutRecordMembers(s.failed, failedId);
    WithoutKeepsKeys(s.failed, failedId);
    HistoryGrows(s.history, Terminal(r.op, Discarded("operator_discarded"), DiscardIds(r)));
    forall id | id in ParkedIds(s.failed)
      ensures id in ParkedIds(s'.failed) || id in r.requestIds
    {
      var q :| q in s.failed && q.status.Parked? && id in q.requestIds;
      if q.failedId == failedId {
        OneRecordPerKey(s.failed, q, r);
      }
    }
  }

  lemma DiscardKeepsInv(w: World, failedId: Id)
    requires Inv(w) && FindRecord(w.store.failed, failedId) < |w.store.failed|
    ensures Inv(w.(store := Discard(w.store, failedId)))
  {
    var r := w.store.failed[FindRecord(w.store.failed, failedId)];
    var w' := w.(store := Discard(w.store, failedId));
    DiscardedIds(w.store, failedId);
    DropIdsKeepsShape(w.store.queue, Elements(r.requestIds));
    DropIdsMembers(w.store.queue, Elements(r.requestIds));
    MoveToHistory(LedgerOf(w), w.pass, Elements(r.requestIds), ParkedIds(w'.store.failed));
    assert LedgerOf(w').queue == RowIds(w'.store.queue);
  }

  lemma MoveToHistory(l: Ledger, pass: Pass, ids: set<Id>, parked': set<Id>)
    requires Balanced(l, pass) && ids <= l.enqueued && parked' <= l.parked <= parked' + ids
    ensures Balanced(l.(queue := l.queue - ids, parked := parked', done := l.done + ids), pass)
  {
  }

  lemma OneRecordPerKey(failed: seq<Record>, a: Record, b: Record)
    requires FailedOk(failed) && a in failed && b in failed && a.failedId == b.failedId
    ensures a == b
  {
    var i :| 0 <= i < |failed| && failed[i] == a;
    var j :| 0 <= j < |failed| && failed[j] == b;
    assert FailedIds(failed)[i] == FailedIds(failed)[j];
  }

  lemma HistoryGrows(history: seq<Terminal>, t: Terminal)
    ensures HistoryIds(history + [t]) == HistoryIds(history) + Elements(t.requestIds)
  {
    assert forall x :: x in history + [t] <==> x in history || x == t;
  }

  // ---------------------------------------------------------------- the steps of a pass

  /** `batch` is a prefix of `q` that a pass may hold. */
  ghost predicate HeadPrefix(q: seq<Row>, batch: seq<Row>) {
    && batch <= q
    && (forall r :: r in batch ==> r.op == batch[0].op && r.status == batch[0].status)
    && (batch != [] && batch[0].status.Processing? ==>
          forall i :: 0 <= i < |q| ==> (q[i].status.Processing? <==> i < |batch|))
  }

  lemma CollectsHeadPrefix(q: seq<Row>, now: int, limits: Limits)
    requires WellFormedQueue(q)
    ensures HeadPrefix(q, Collect(q, now, limits))
  {
    CollectedBatch(q, now, limits);
  }

  lemma HoldBatchIds(s: Store, batch: seq<Row>, now: int, ready: bool, error: string)
    requires WellFormedQueue(s.queue) && HeadPrefix(s.queue, batch)
    requires RowIds(s.queue) !! HistoryIds(s.history)
    ensures var (s', held) := HoldBatch(s, batch, now, ready, error);
            && WellFormedQueue(s'.queue)
            && s'.failed == s.failed && s'.history == s.history
            && RowIds(s'.queue) == (if PrecheckFails(held) then RowIds(s.queue) - RowIds(held) else RowIds(s.queue))
            && Distinct(Ids(held)) && RowIds(held) <= RowIds(s.queue)
  {
    assert batch == s.queue[..|batch|];
    PrefixDistinct(s.queue, |batch|);
    assert RowIds(batch) <= RowIds(s.queue);
    NoOverlap(batch, s.queue, HistoryIds(s.history));
    if batch != [] && PrecheckFails(batch) {
      DropIdsKeepsShape(s.queue, RowIds(batch));
    } else if batch != [] {
      MarkedPrefix(s.queue, |batch|, now, error);
    }
  }

  /** A pass starts without losing or inventing an id: what leaves the queue is in the history or in
      the condemned batch; and it holds a batch of distinct queue rows. */
  lemma BeginPassIds(s: Store, now: int, limits: Limits, ready: bool, error: string)
    requires WellFormedQueue(s.queue)
    ensures var (s', batch) := BeginPass(s, now, limits, ready, error);
            var waiting := RowIds(s.queue) - HistoryIds(s.history);
            && WellFormedQueue(s'.queue)
            && s'.failed == s.failed && s'.history == s.history
            && RowIds(s'.queue) == (if PrecheckFails(batch) then waiting - RowIds(batch) else waiting)
            && Distinct(Ids(batch)) && RowIds(batch) <= waiting
  {
    var q := Swept(s).queue;
    DropIdsKeepsShape(s.queue, HistoryIds(s.history));
    CollectsHeadPrefix(q, now, limits);
    HoldBatchIds(Swept(s), Collect(q, now, limits), now, ready, error);
  }

  /** While a batch is at the agent exactly its rows are processing; behind a condemned one none is. */
  ghost predicate HeldMarks(queue: seq<Row>, held: seq<Row>) {
    forall r :: r in queue ==> (r.status.Processing? <==> !PrecheckFails(held) && r.id in RowIds(held))
  }

  lemma CondemnedMarks(q: seq<Row>, batch: seq<Row>)
    requires WellFormedQueue(q) && HeadPrefix(q, batch) && PrecheckFails(batch)
    ensures HeldMarks(DropIds(q, RowIds(batch)), batch)
  {
    assert batch == q[..|batch|];
    PrefixIds(q, |batch|);
    DropIdsMembers(q, RowIds(batch));
    forall i | 0 <= i < |q| && q[i].id !in RowIds(batch)
      ensures q[i].status.Pending?
    {
      assert i >= |batch| > 0 && batch[0] == q[0];
    }
  }

  lemma HeldRowsAreProcessing(s: Store, batch: seq<Row>, now: int, ready: bool, error: string)
    requires WellFormedQueue(s.queue) && HeadPrefix(s.queue, batch)
    ensures var (s', held) := HoldBatch(s, batch, now, ready, error); held != [] ==> HeldMarks(s'.queue, held)
  {
    var (s', held) := HoldBatch(s, batch, now, ready, error);
    if held != [] && PrecheckFails(batch) {
      CondemnedMarks(s.queue, batch);
    } else if held != [] {
      assert batch == s.queue[..|batch|];
      MarkedPrefix(s.queue, |batch|, now, error);
      PrefixIds(s.queue, |batch|);
      assert forall i :: 0 <= i < |s'.queue| ==> s'.queue[i].id == s.queue[i].id;
    }
  }

  lemma HoldKeepsInv(w: World, s': Store, batch: seq<Row>)
    requires Inv(w) && w.pass.Idle?
    requires WellFormedQueue(s'.queue) && s'.failed == w.store.failed && s'.history == w.store.history
    requires var waiting := RowIds(w.store.queue) - HistoryIds(w.store.history);
             && RowIds(batch) <= waiting
             && RowIds(s'.queue) == if PrecheckFails(batch) then waiting - RowIds(batch) else waiting
    requires Distinct(Ids(batch)) && (batch != [] ==> HeldMarks(s'.queue, batch))
    ensures Inv(w.(store := s', pass := PassWith(batch)))
  {
    var w' := w.(store := s', pass := PassWith(batch));
    assert Held(w') == RowIds(batch);
    assert LedgerOf(w') == LedgerOf(w).(queue := RowIds(s'.queue), held := RowIds(batch));
  }

  lemma BeginKeepsInv(w: World, now: int, limits: Limits, ready: bool, error: string)
    requires Inv(w) && w.pass.Idle?
    ensures Inv(Next(w, Begin(now, limits, ready, error)))
  {
    var s := Swept(w.store);
    var r := BeginPass(w.store, now, limits, ready, error);
    BeginPassIds(w.store, now, limits, ready, error);
    DropIdsKeepsShape(w.store.queue, HistoryIds(w.store.history));
    CollectsHeadPrefix(s.queue, now, limits);
    HeldRowsAreProcessing(s, Collect(s.queue, now, limits), now, ready, error);
    HoldKeepsInv(w, r.0, r.1);
    assert Next(w, Begin(now, limits, ready, error)) == w.(store := r.0, pass := PassWith(r.1));
  }

  lemma SweepKeepsInv(w: World)
    requires Inv(w) && w.pass.Idle?
    ensures Inv(Next(w, Sweep))
  {
    var w' := Next(w, Sweep);
    DropIdsKeepsShape(w.store.queue, HistoryIds(w.store.history));
    assert LedgerOf(w') == LedgerOf(w).(queue := RowIds(w'.store.queue));
  }

  lemma NoOverlap(batch: seq<Row>, q: seq<Row>, done: set<Id>)
    requires RowIds(batch) <= RowIds(q) && RowIds(q) !! done
    ensures !Overlaps(Ids(batch), done)
  {
    IdsAreRowIds(batch);
    assert forall i :: 0 <= i < |batch| ==> Ids(batch)[i] in RowIds(batch);
  }

  lemma PrefixDistinct(q: seq<Row>, n: nat)
    requires Distinct(Ids(q)) && n <= |q|
    ensures Distinct(Ids(q[..n]))
  {
    assert forall i :: 0 <= i < n ==> Ids(q[..n])[i] == Ids(q)[i];
  }

  lemma PrefixShape(q: seq<Row>, q': seq<Row>, n: nat)
    requires Distinct(Ids(q)) && Ids(q') == Ids(q) && n <= |q|
    requires forall i :: 0 <= i < n ==> q'[i].status.Processing? && q'[i].op == q'[0].op
    requires forall i :: n <= i < |q| ==> q'[i].status.Pending?
    ensures WellFormedQueue(q')
  {
  }

  /** Marking the collected prefix keeps processing rows in front with one operation. */
  lemma MarkedPrefix(q: seq<Row>, n: nat, now: int, error: string)
    requires WellFormedQueue(q) && 0 < n <= |q|
    requires forall i :: 0 <= i < n ==> q[i].op == q[0].op && q[i].status == q[0].status
    requires q[0].status.Processing? ==> forall i :: 0 <= i < |q| ==> (q[i].status.Processing? <==> i < n)
    ensures var ids := RowIds(q[..n]);
            var q' := if q[0].status.Pending? then MarkProcessing(q, ids, now) else q;
            var e := MarkError(q', ids, now, error);
            && WellFormedQueue(q') && RowIds(q') == RowIds(q)
            && WellFormedQueue(e) && RowIds(e) == RowIds(q)
            && (forall i :: 0 <= i < |q| ==> (q'[i].status.Processing? <==> i < n))
            && (forall i :: 0 <= i < |q| ==> (e[i].status.Processing? <==> i < n))
  {
    var ids := RowIds(q[..n]);
    var q' := if q[0].status.Pending? then MarkProcessing(q, ids, now) else q;
    var e := MarkError(q', ids, now, error);
    PrefixIds(q, n);
    MarkedIds(q, ids, now, error);
    MarkedIds(q', ids, now, error);
    forall i | 0 <= i < |q|
      ensures (q'[i].status.Processing? <==> i < n) && (e[i].status.Processing? <==> i < n)
      ensures q'[i].op == q[i].op == e[i].op
    {
      assert q[i].id in ids <==> i < n;
      assert i > 0 && q[i].status.Processing? ==> q[0].status.Processing?;
      assert q'[i].id == q[i].id;
    }
    PrefixShape(q, q', n);
    PrefixShape(q, e, n);
  }

  lemma AgentFailsKeepsInv(w: World, step: Step)
    requires Inv(w) && step.AgentFails? && Enabled(w, step)
    ensures Inv(Next(w, step))
  {
    ParkedFailedList(w, step);
    DropIdsKeepsShape(w.store.queue, Held(w));
    var w' := Next(w, step);
    MoveHeldToParked(LedgerOf(w), w.pass);
    assert LedgerOf(w') == LedgerOf(w).(queue := RowIds(w'.store.queue), parked := ParkedIds(w'.store.failed),
      held := {});
  }

  lemma MoveHeldToParked(l: Ledger, pass: Pass)
    requires Balanced(l, pass) && pass.InPass? && pass.stage.AtAgent?
    ensures Balanced(l.(queue := l.queue - l.held, parked := l.parked + l.held, held := {}), Idle)
    ensures l.held <= l.enqueued
  {
  }

  lemma CommitKeepsInv(w: World)
    requires Inv(w) && At(w, QueueDropped)
    ensures Inv(Next(w, CommitBatch))
  {
    var ids := Ids(w.pass.items);
    IdsAreRowIds(w.pass.items);
    assert forall id :: id in w.applied ==> id in Elements(w.applied);
    DistinctAppend(w.applied, ids);
    assert Elements(w.applied + ids) == Elements(w.applied) + Held(w);
  }

  lemma PurgeKeepsInv(w: World)
    requires Inv(w) && At(w, Committed)
    ensures Inv(Next(w, PurgeRecords))
  {
    var failed, failed' := w.store.failed, Purge(w.store.failed, Held(w));
    PurgeMembers(failed, Held(w));
    PurgeKeepsKeys(failed, Held(w));
    PurgeOnlyRequeued(w);
    assert ParkedIds(failed') == ParkedIds(failed);
  }

  /** A success never removes a parked record: every record it purges was requeued. */
  lemma PurgeOnlyRequeued(w: World)
    requires Inv(w) && w.pass.InPass?
    ensures forall r :: r in w.store.failed && Overlaps(r.requestIds, Held(w)) ==> r.status.Requeued?
  {
    forall r | r in w.store.failed && Overlaps(r.requestIds, Held(w))
      ensures r.status.Requeued?
    {
      var i :| 0 <= i < |r.requestIds| && r.requestIds[i] in Held(w);
      var id := r.requestIds[i];
      assert id in r.requestIds && id !in ParkedIds(w.store.failed);
    }
  }

  /** A terminal record of the batch in flight ends the pass. */
  lemma RecordKeepsInv(w: World, t: Terminal)
    requires Inv(w) && w.pass.InPass? && !At(w, AtAgent) && t.requestIds == Ids(w.pass.items)
    ensures Inv(w.(store := w.store.(history := w.store.history + [t]), pass := Idle))
  {
    var w' := w.(store := w.store.(history := w.store.history + [t]), pass := Idle);
    IdsAreRowIds(w.pass.items);
    HistoryGrows(w.store.history, t);
    assert LedgerOf(w') == LedgerOf(w).(done := LedgerOf(w).done + LedgerOf(w).held, held := {});
  }

  lemma EnqueueKeepsInv(w: World, row: Row)
    requires Inv(w) && Enabled(w, Enqueue(row))
    ensures Inv(Next(w, Enqueue(row)))
  {
    var w' := Next(w, Enqueue(row));
    assert RowIds([row]) == {row.id};
    assert row.id !in LedgerOf(w).queue;
    AppendKeepsShape(w.store.queue, [row]);
    NewToQueue(LedgerOf(w), w.pass, row.id);
    assert LedgerOf(w') == LedgerOf(w).(queue := RowIds(w'.store.queue), enqueued := w'.enqueued);
    assert w.pass.InPass? ==> HeldOk(w'.store.queue, w.pass) by {
      assert forall r :: r in w'.store.queue ==> r in w.store.queue || r == row;
    }
  }

  lemma NewToQueue(l: Ledger, pass: Pass, id: Id)
    requires Balanced(l, pass) && id !in l.enqueued
    ensures Balanced(l.(queue := l.queue + {id}, enqueued := l.enqueued + {id}), pass)
    ensures id !in l.held
  {
  }

  lemma DropKeepsInv(w: World)
    requires Inv(w) && At(w, AtAgent)
    ensures Inv(Next(w, DropBatch))
  {
    var w' := Next(w, DropBatch);
    DropIdsKeepsShape(w.store.queue, Held(w));
    DropIdsMembers(w.store.queue, Held(w));
    HeldLeavesQueue(LedgerOf(w), w.pass);
    assert LedgerOf(w') == LedgerOf(w).(queue := RowIds(w'.store.queue));
  }

  lemma HeldLeavesQueue(l: Ledger, pass: Pass)
    requires Balanced(l, pass) && pass.InPass? && pass.stage.AtAgent?
    ensures Balanced(l.(queue := l.queue - l.held), pass.(stage := QueueDropped))
  {
  }

  /** After the commit only the stage moves on. */
  lemma AdvanceKeepsInv(w: World, stage: Stage)
    requires Inv(w) && w.pass.InPass? && !BeforeCommit(w.pass.stage) && !BeforeCommit(stage)
    ensures Inv(w.(pass := w.pass.(stage := stage)))
  {
    assert LedgerOf(w.(pass := w.pass.(stage := stage))) == LedgerOf(w);
  }

  lemma RequeueThenAdvance(w: World, k: nat, now: int)
    requires Inv(w) && At(w, Purged) && k < |w.store.failed| && w.store.failed[k].status.Parked?
    ensures Inv(w.(store := Requeue(w.store, k, Auto, now), pass := w.pass.(stage := Signalled)))
  {
    AdvanceKeepsInv(w, Signalled);
    RequeueKeepsInv(w.(pass := w.pass.(stage := Signalled)), k, Auto, now);
  }

  lemma SignalKeepsInv(w: World, auto: bool, now: int)
    requires Inv(w) && At(w, Purged)
    ensures Inv(Next(w, SignalSuccess(auto, now)))
  {
    var k, w' := OldestWaiting(w.store.failed), Next(w, SignalSuccess(auto, now));
    if auto && k < |w.store.failed| {
      assert w' == w.(store := Requeue(w.store, k, Auto, now), pass := w.pass.(stage := Signalled));
      RequeueThenAdvance(w, k, now);
    } else {
      assert w' == w.(pass := w.pass.(stage := Signalled));
      AdvanceKeepsInv(w, Signalled);
    }
  }

  lemma DieKeepsInv(w: World)
    requires Inv(w) && w.pass.InPass?
    ensures Inv(Next(w, Die))
  {
  }

  lemma StepKeepsInv(w: World, step: Step)
    requires Inv(w) && Enabled(w, step)
    ensures Inv(Next(w, step))
  {
    match step
    case Enqueue(row) => EnqueueKeepsInv(w, row);
    case Sweep => SweepKeepsInv(w);
    case Begin(now, limits, ready, error) => BeginKeepsInv(w, now, limits, ready, error);
    case RecordCondemned => RecordKeepsInv(w, Condemnation(w.pass.items));
    case AgentFails(_, _, _, _, _) => AgentFailsKeepsInv(w, step);
    case DropBatch => DropKeepsInv(w);
    case CommitBatch => CommitKeepsInv(w);
    case PurgeRecords => PurgeKeepsInv(w);
    case SignalSuccess(auto, now) => SignalKeepsInv(w, auto, now);
    case Finish => RecordKeepsInv(w, Terminal(AppliedOp(w.pass.items[0].op), Applied, Ids(w.pass.items)));
    case Die => DieKeepsInv(w);
    case Retry(failedId, now) => RequeueKeepsInv(w, FindRecord(w.store.failed, failedId), Manual, now);
    case DiscardRecord(failedId) => DiscardKeepsInv(w, failedId);
  }

  lemma {:induction false} RunKeepsInv(w: World, steps: seq<Step>)
    requires Inv(w) && Legal(w, steps)
    ensures Inv(Run(w, steps))
    decreases |steps|
  {
    if steps != [] {
      StepKeepsInv(w, steps[0]);
      RunKeepsInv(Next(w, steps[0]), steps[1..]);
    }
  }
}
