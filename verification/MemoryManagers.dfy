/** The manager object: three lists that its methods rewrite, each method proved to do to the
    stores exactly what the specification function of the same name says. */
module MemoryManagers {
  import opened Sequences
  import opened MemoryQueueSpec
  import opened MemoryQueueLaws
  import MemoryParking

  datatype Decision = Done | NotFound | NotParked

  class MemoryManager {
    const limits: Limits
    const autoRequeueOnSuccess: bool
    var queue: seq<Row>
    var failed: seq<Record>
    var history: seq<Terminal>

    ghost function Stores(): Store
      reads this
    {
      Store(queue, failed, history)
    }

    constructor (limits: Limits, autoRequeueOnSuccess: bool)
      ensures Stores() == Store([], [], [])
      ensures this.limits == limits && this.autoRequeueOnSuccess == autoRequeueOnSuccess
    {
      this.limits, this.autoRequeueOnSuccess := limits, autoRequeueOnSuccess;
      queue, failed, history := [], [], [];
    }

    /** A request with an empty payload is ignored; any other goes to the tail. */
    method EnqueueRequest(row: Row) returns (queued: bool)
      modifies this
      ensures queued <==> row.payload != ""
      ensures Stores() == old(Stores()).(queue := if queued then old(queue) + [row] else old(queue))
    {
      queued := row.payload != "";
      if queued {
        queue := queue + [row];
      }
    }

    method CollectDueBatch(now: int) returns (batch: seq<Row>)
      ensures batch == Collect(queue, now, limits)
    {
      if queue == [] {
        return [];
      }
      var head := queue[0];
      if head.status.Processing? {
        if head.retryAfter.Some? && head.retryAfter.value > now {
          return [];
        }
        batch := TakeProcessing(queue, head.op);
        return;
      }
      var maxChars := EffectiveMaxChars(limits);
      var chars, hitBoundary;
      batch, chars, hitBoundary := TakeFresh(queue, head.op, maxChars);
      if !hitBoundary && chars < maxChars && SecondsSince(head.createdAt, now) < EffectiveMaxWait(limits) {
        return [];
      }
    }

    static method TakeProcessing(rows: seq<Row>, op: string) returns (batch: seq<Row>)
      ensures batch == rows[..ProcessingRun(rows, op)]
    {
      batch := [];
      var i := 0;
      while i < |rows| && rows[i].status.Processing? && rows[i].op == op
        invariant 0 <= i <= |rows| && batch == rows[..i]
        invariant ProcessingRun(rows, op) == i + ProcessingRun(rows[i..], op)
      {
        assert rows[i..][1..] == rows[i + 1..];
        batch := batch + [rows[i]];
        i := i + 1;
      }
    }

    static method TakeFresh(rows: seq<Row>, op: string, maxChars: nat)
      returns (batch: seq<Row>, chars: nat, hitBoundary: bool)
      requires rows != [] && rows[0].op == op
      ensures batch == rows[..PendingRun(rows, op, maxChars, 0, 0)]
      ensures chars == Chars(batch)
      ensures hitBoundary <==> HitBoundary(rows, PendingRun(rows, op, maxChars, 0, 0))
    {
      batch, chars, hitBoundary := [], 0, false;
      var i := 0;
      while i < |rows| && rows[i].status.Pending? && rows[i].op == op
        invariant 0 <= i <= |rows| && batch == rows[..i] && chars == Chars(rows[..i])
        invariant PendingRun(rows, op, maxChars, 0, 0) == i + PendingRun(rows[i..], op, maxChars, i, chars)
        invariant !hitBoundary
      {
        var nextChars := chars + |rows[i].payload|;
        if batch != [] && nextChars > maxChars {
          hitBoundary := true;
          break;
        }
        assert rows[i..][1..] == rows[i + 1..];
        CharsSnoc(rows, i);
        batch, chars, i := batch + [rows[i]], nextChars, i + 1;
      }
    }

    method MarkBatchProcessing(items: seq<Row>, now: int)
      modifies this`queue
      ensures queue == MarkProcessing(old(queue), RowIds(items), now)
    {
      var ids, updated := RowIds(items), [];
      for i := 0 to |queue|
        invariant queue == old(queue) && updated == MarkProcessing(old(queue), ids, now)[..i]
      {
        updated := updated + [if queue[i].id in ids then Marked(queue[i], now) else queue[i]];
      }
      queue := updated;
    }

    method MarkBatchError(items: seq<Row>, now: int, error: string)
      modifies this`queue
      ensures queue == MarkError(old(queue), RowIds(items), now, error)
    {
      var ids, updated := RowIds(items), [];
      for i := 0 to |queue|
        invariant queue == old(queue) && updated == MarkError(old(queue), ids, now, error)[..i]
      {
        updated := updated + [if queue[i].id in ids then Errored(queue[i], now, error) else queue[i]];
      }
      queue := updated;
    }

    method DropRequestIds(ids: set<Id>)
      modifies this`queue
      ensures queue == DropIds(old(queue), ids)
    {
      var rows, remaining := queue, [];
      for i := 0 to |rows|
        invariant remaining == DropIds(rows[..i], ids)
      {
        DropIdsSnoc(rows, i, ids);
        if rows[i].id !in ids {
          remaining := remaining + [rows[i]];
        }
      }
      assert rows[..|rows|] == rows;
      queue := remaining;
    }

    method ProcessedRequestIds() returns (ids: set<Id>)
      ensures ids == HistoryIds(history)
    {
      ids := {};
      for i := 0 to |history|
        invariant ids == HistoryIds(history[..i])
      {
        assert forall t :: t in history[..i + 1] <==> t in history[..i] || t == history[i];
        ids := ids + (set id | id in history[i].requestIds);
      }
      assert history[..|history|] == history;
    }

    /** Rows already in the terminal history leave the queue; says whether there were any. */
    method DropProcessedQueueRequests(known: set<Id>) returns (dropped: bool)
      modifies this`queue
      ensures queue == DropIds(old(queue), known)
      ensures dropped <==> |queue| < |old(queue)|
    {
      var rows, remaining := queue, [];
      dropped := false;
      for i := 0 to |rows|
        invariant queue == rows && remaining == DropIds(rows[..i], known)
        invariant |remaining| <= i && (dropped <==> |remaining| < i)
        invariant !dropped ==> remaining == rows[..i]
      {
        DropIdsSnoc(rows, i, known);
        assert rows[..i + 1] == rows[..i] + [rows[i]];
        if rows[i].id in known {
          dropped := true;
        } else {
          remaining := remaining + [rows[i]];
        }
      }
      assert rows[..|rows|] == rows;
      if dropped {
        queue := remaining;
      }
    }

    /** A failed batch leaves the queue and is kept whole in one failed record: the first record
        that shares a request with it, or a new one. */
    method ParkFailedBatch(f: Failure, failedId: Id, now: int)
      requires f.items != []
      modifies this
      ensures Stores() == Park(old(Stores()), f, failedId, now)
      ensures exists k: nat :: MemoryParking.ParkedAt(old(failed), failed, k, f, failedId, now)
    {
      MemoryParking.ParkingTellsTheFailure(Stores(), f, failedId, now);
      var ids := RowIds(f.items);
      var k := 0;
      while k < |failed| && !Overlaps(failed[k].requestIds, ids)
        invariant 0 <= k <= |failed| && Stores() == old(Stores())
        invariant FirstOverlap(failed, ids) == k + FirstOverlap(failed[k..], ids)
      {
        assert failed[k..][1..] == failed[k + 1..];
        k := k + 1;
      }
      if k < |failed| {
        failed := failed[k := Reparked(failed[k], f, now)];
      } else {
        failed := failed + [NewlyParked(failedId, f, now)];
      }
      DropRequestIds(ids);
    }

    method PurgeFailedRecords(ids: set<Id>)
      modifies this`failed
      ensures failed == Purge(old(failed), ids)
    {
      var rows, remaining, changed := failed, [], false;
      for i := 0 to |rows|
        invariant failed == rows && remaining == Purge(rows[..i], ids)
        invariant !changed ==> remaining == rows[..i]
      {
        PurgeSnoc(rows, i, ids);
        if Overlaps(rows[i].requestIds, ids) {
          changed := true;
        } else {
          remaining := remaining + [rows[i]];
        }
      }
      assert rows[..|rows|] == rows;
      if changed {
        failed := remaining;
      }
    }

    method RequeueFailedRecord(k: nat, trigger: Trigger, now: int)
      requires k < |failed|
      modifies this`queue, this`failed
      ensures Stores() == Requeue(old(Stores()), k, trigger, now)
    {
      var rows, items := queue, failed[k].items;
      for i := 0 to |items|
        invariant AppendMissing(rows, items[i..]) == AppendMissing(queue, items)
      {
        assert items[i..][1..] == items[i + 1..];
        if items[i].id !in Ids(rows) {
          rows := rows + [Renewed(items[i])];
        }
      }
      assert items[|items|..] == [];
      queue := rows;
      failed := failed[k := AfterRequeue(failed[k], trigger, now)];
    }

    /** A success brings back the first of the longest waiting provider failures, and nothing else. */
    method RequeueNextParkedOnSuccess(now: int) returns (found: bool)
      modifies this`queue, this`failed
      ensures found <==> autoRequeueOnSuccess && exists i :: 0 <= i < |old(failed)| && Waiting(old(failed)[i])
      ensures found ==> exists k: nat ::
              IsOldestWaiting(old(failed), k) && Stores() == Requeue(old(Stores()), k, Auto, now)
      ensures !found ==> Stores() == old(Stores())
    {
      if !autoRequeueOnSuccess {
        return false;
      }
      var rows := failed;
      var k: nat := |rows|;
      for i := 0 to |rows|
        invariant k == |rows| || k < i
        invariant k == |rows| ==> forall j :: 0 <= j < i ==> !Waiting(rows[j])
        invariant k < |rows| ==> IsOldestWaiting(rows[..i], k)
      {
        if Waiting(rows[i]) && (k == |rows| || Before(rows[i], rows[k])) {
          k := i;
        }
      }
      assert rows[..|rows|] == rows;
      found := k < |failed|;
      if found {
        RequeueFailedRecord(k, Auto, now);
      }
    }

    method FindFailed(failedId: Id) returns (k: nat)
      ensures k == FindRecord(failed, failedId)
    {
      k := 0;
      while k < |failed| && failed[k].failedId != failedId
        invariant 0 <= k <= |failed|
        invariant FindRecord(failed, failedId) == k + FindRecord(failed[k..], failedId)
      {
        assert failed[k..][1..] == failed[k + 1..];
        k := k + 1;
      }
    }

    method RetryFailedRecord(failedId: Id, now: int) returns (decision: Decision)
      modifies this`queue, this`failed
      ensures var k := FindRecord(old(failed), failedId);
              && (decision.NotFound? <==> k == |old(failed)|)
              && (decision.NotParked? <==> k < |old(failed)| && old(failed)[k].status.Requeued?)
              && Stores() == if decision.Done? then Requeue(old(Stores()), k, Manual, now) else old(Stores())
    {
      var k := FindFailed(failedId);
      if k == |failed| {
        return NotFound;
      }
      if failed[k].status.Requeued? {
        return NotParked;
      }
      RequeueFailedRecord(k, Manual, now);
      return Done;
    }

    method DiscardFailedRecord(failedId: Id) returns (decision: Decision)
      modifies this
      ensures var k := FindRecord(old(failed), failedId);
              && decision == (if k == |old(failed)| then NotFound else Done)
              && Stores() == if decision.Done? then Discard(old(Stores()), failedId) else old(Stores())
    {
      var k := FindFailed(failedId);
      if k == |failed| {
        return NotFound;
      }
      var r := failed[k];
      history := history + [Terminal(r.op, Discarded("operator_discarded"), DiscardIds(r))];
      var ids := set id | id in r.requestIds;
      assert ids == Elements(r.requestIds);
      DropRequestIds(ids);
      RemoveRecord(failedId);
      return Done;
    }

    method RemoveRecord(failedId: Id)
      modifies this`failed
      ensures failed == WithoutRecord(old(failed), failedId)
    {
      var rows, remaining := failed, [];
      for i := 0 to |rows|
        invariant remaining == WithoutRecord(rows[..i], failedId)
      {
        WithoutRecordSnoc(rows, i, failedId);
        if rows[i].failedId != failedId {
          remaining := remaining + [rows[i]];
        }
      }
      assert rows[..|rows|] == rows;
      failed := remaining;
    }

    /** The first half of a worker pass; a batch that fails the precheck also gets its terminal record. */
    method BeginDueBatch(now: int, ready: bool, error: string) returns (batch: seq<Row>)
      modifies this
      ensures var (s', held) := BeginPass(old(Stores()), now, limits, ready, error);
              if PrecheckFails(held)
              then batch == [] && Stores() == s'.(history := s'.history + [Condemnation(held)])
              else batch == held && Stores() == s'
    {
      var processed := ProcessedRequestIds();
      var dropped := DropProcessedQueueRequests(processed);
      ghost var s := Stores();
      batch := CollectDueBatch(now);
      var ids := RowIds(batch);
      if batch == [] {
        return;
      }
      if Overlaps(Ids(batch), processed) {
        DropRequestIds(ids * processed);
        return [];
      }
      if PrecheckFails(batch) {
        DropRequestIds(ids);
        history := history + [Condemnation(batch)];
        return [];
      }
      if batch[0].status.Pending? {
        MarkBatchProcessing(batch, now);
      }
      if !ready {
        MarkBatchError(batch, now, error);
        return [];
      }
    }

    /** The second half of a pass whose batch was applied, from the queue drop to the terminal
        record, with nothing in between; the commit itself does not touch the stores. */
    method FinishApplied(batch: seq<Row>, now: int)
      requires batch != []
      modifies this
      ensures var ids := RowIds(batch);
              var purged := Store(DropIds(old(queue), ids), Purge(old(failed), ids), old(history));
              var k := OldestWaiting(purged.failed);
              var signalled := if autoRequeueOnSuccess && k < |purged.failed| then Requeue(purged, k, Auto, now)
                else purged;
              Stores() == signalled.(history := old(history) + [Terminal(AppliedOp(batch[0].op), Applied, Ids(batch))])
    {
      DropRequestIds(RowIds(batch));
      PurgeFailedRecords(RowIds(batch));
      ghost var purged := Stores();
      var found := RequeueNextParkedOnSuccess(now);
      OldestIsUnique(purged.failed);
      history := history + [Terminal(AppliedOp(batch[0].op), Applied, Ids(batch))];
    }
  }

  /** The waiting record a success brings back is determined by the failed list. */
  lemma OldestIsUnique(failed: seq<Record>)
    ensures forall k: nat :: IsOldestWaiting(failed, k) ==> k == OldestWaiting(failed)
  {
    OldestIsFirst(failed);
  }
}
