/** What a failed record says about the failure that parked it, over every run: a success brings back
    provider failures alone, the longest waiting first, and a rejected batch stays parked until an operator
    decides. */
module MemoryParking {
  import opened Sequences
  import opened MemoryQueueSpec
  import opened MemoryQueueLaws
  import opened MemoryRuns

  // ---------------------------------------------------------------- one failure

  /** The record is parked and holds the failed batch with its failure. */
  ghost predicate Tells(r: Record, f: Failure, now: int) {
    && r.status.Parked? && r.category == f.category && r.reason == f.reason && r.op == f.op && r.lastError == f.error
    && r.items == f.items && r.parkedAt == now && r.requeuedAt.None?
    && |r.requestIds| == |f.items| && forall i :: 0 <= i < |f.items| ==> r.requestIds[i] == f.items[i].id
  }

  /** The record was there and has been parked once more. */
  ghost predicate ParkedAgain(r: Record, r': Record) {
    && r'.failedId == r.failedId && r'.createdAt == r.createdAt && r'.firstParkedAt == r.firstParkedAt
    && r'.parkCount == r.parkCount + 1
    && r'.autoRequeueCount == r.autoRequeueCount && r'.manualRetryCount == r.manualRetryCount
  }

  /** The record is new; it is as old as the oldest request in it. */
  ghost predicate ParkedFirst(r: Record, failedId: Id, now: int) {
    && r.failedId == failedId && r.firstParkedAt == now && r.parkCount == 1
    && r.autoRequeueCount == 0 && r.manualRetryCount == 0
    && (forall i :: 0 <= i < |r.items| ==> r.createdAt <= r.items[i].createdAt)
    && (exists i :: 0 <= i < |r.items| && r.createdAt == r.items[i].createdAt)
  }

  ghost predicate SharesRequest(r: Record, items: seq<Row>) {
    exists i :: 0 <= i < |items| && items[i].id in r.requestIds
  }

  /** The failed list before and after, and the place of the one record that is not the same. */
  ghost predicate ParkedAt(failed: seq<Record>, failed': seq<Record>, k: nat, f: Failure, failedId: Id, now: int) {
    && k < |failed'| && Tells(failed'[k], f, now)
    && (forall i :: 0 <= i < k && i < |failed| ==> failed'[i] == failed[i] && !SharesRequest(failed[i], f.items))
    && if k < |failed| then
         && |failed'| == |failed| && SharesRequest(failed[k], f.items) && ParkedAgain(failed[k], failed'[k])
         && (forall i :: k < i < |failed| ==> failed'[i] == failed[i])
       else k == |failed| && |failed'| == |failed| + 1 && ParkedFirst(failed'[k], failedId, now)
  }

  lemma SharedIsOverlap(r: Record, items: seq<Row>)
    ensures SharesRequest(r, items) <==> Overlaps(r.requestIds, RowIds(items))
  {
    if SharesRequest(r, items) {
      var i :| 0 <= i < |items| && items[i].id in r.requestIds;
      assert items[i] in items;
      var j :| 0 <= j < |r.requestIds| && r.requestIds[j] == items[i].id;
    }
  }

  /** Whatever the stores are, parking changes one record: the first that shares a request with the batch,
      or a new one at the end; it tells the failure, and the batch has left the queue. */
  lemma ParkingTellsTheFailure(s: Store, f: Failure, failedId: Id, now: int)
    requires f.items != []
    ensures var s' := Park(s, f, failedId, now);
            && (exists k: nat :: ParkedAt(s.failed, s'.failed, k, f, failedId, now))
            && (forall r :: r in s'.queue <==> r in s.queue && forall i :: 0 <= i < |f.items| ==> r.id != f.items[i].id)
            && s'.history == s.history
  {
    var s' := Park(s, f, failedId, now);
    var k := FirstOverlap(s.failed, RowIds(f.items));
    forall i | 0 <= i < |s.failed|
      ensures SharesRequest(s.failed[i], f.items) <==> Overlaps(s.failed[i].requestIds, RowIds(f.items))
    {
      SharedIsOverlap(s.failed[i], f.items);
    }
    assert ParkedAt(s.failed, s'.failed, k, f, failedId, now);
    DropIdsMembers(s.queue, RowIds(f.items));
    IdsOfRows(f.items);
  }

  lemma IdsOfRows(items: seq<Row>)
    ensures forall id :: id in RowIds(items) <==> exists i :: 0 <= i < |items| && items[i].id == id
  {
    forall i | 0 <= i < |items|
      ensures items[i].id in RowIds(items)
    {
      assert items[i] in items;
    }
  }

  // ---------------------------------------------------------------- the last failure of a record

  /** The key of the record a failing batch is parked in. */
  ghost function ParkingKey(w: World, step: Step): Id
    requires step.AgentFails?
  {
    if k: nat :| k < |w.store.failed| && IsFirstSharing(w.store.failed, k, Held(w)) then w.store.failed[k].failedId
    else step.failedId
  }

  ghost predicate IsFirstSharing(failed: seq<Record>, k: nat, ids: set<Id>)
    requires k < |failed|
  {
    Overlaps(failed[k].requestIds, ids) && forall i :: 0 <= i < k ==> !Overlaps(failed[i].requestIds, ids)
  }

  /** The last step of the run that parked a batch under this key. */
  ghost function LastFailure(w: World, steps: seq<Step>, key: Id): (last: Option<Step>)
    requires Legal(w, steps)
    ensures last.Some? ==> last.value.AgentFails?
    decreases |steps|
  {
    if steps == [] then None
    else
      var later := LastFailure(Next(w, steps[0]), steps[1..], key);
      if later.Some? then later
      else if steps[0].AgentFails? && ParkingKey(w, steps[0]) == key then Some(steps[0])
      else None
  }

  ghost predicate SaysSo(r: Record, failure: Step) {
    && failure.AgentFails? && r.category == failure.category && r.reason == failure.reason
    && r.lastError == failure.error && r.parkedAt == failure.now
  }

  ghost predicate SameFailure(r: Record, q: Record) {
    && r.failedId == q.failedId && r.category == q.category && r.reason == q.reason
    && r.lastError == q.lastError && r.parkedAt == q.parkedAt
  }

  /** The record's failure is that of the step if the step parked it, and otherwise the one it had. */
  ghost predicate Follows(w: World, step: Step, r: Record) {
    if step.AgentFails? && ParkingKey(w, step) == r.failedId then SaysSo(r, step)
    else exists q :: q in w.store.failed && SameFailure(r, q)
  }

  lemma KeyOfOverlap(w: World, step: Step)
    requires step.AgentFails?
    ensures var k := FirstOverlap(w.store.failed, Held(w));
            ParkingKey(w, step) == if k < |w.store.failed| then w.store.failed[k].failedId else step.failedId
  {
    var k := FirstOverlap(w.store.failed, Held(w));
    if k < |w.store.failed| {
      assert IsFirstSharing(w.store.failed, k, Held(w));
    }
  }

  lemma ParkedFollows(w: World, step: Step, r: Record)
    requires Inv(w) && step.AgentFails? && Enabled(w, step) && r in Next(w, step).store.failed
    ensures Follows(w, step, r)
  {
    var failed, failed' := w.store.failed, Next(w, step).store.failed;
    var k := FirstOverlap(failed, Held(w));
    KeyOfOverlap(w, step);
    var i :| 0 <= i < |failed'| && failed'[i] == r;
    if i == k {
      assert SaysSo(r, step);
    } else {
      assert r == failed[i] && FailedIds(failed)[i] == r.failedId;
      assert SameFailure(r, failed[i]) && failed[i] in failed;
      if k < |failed| {
        assert FailedIds(failed)[k] != FailedIds(failed)[i];
      }
    }
  }

  lemma RequeuedFollows(s: Store, k: nat, trigger: Trigger, now: int, r: Record)
    requires k < |s.failed| && r in Requeue(s, k, trigger, now).failed
    ensures exists q :: q in s.failed && SameFailure(r, q)
  {
    var failed' := Requeue(s, k, trigger, now).failed;
    var i :| 0 <= i < |failed'| && failed'[i] == r;
    assert s.failed[i] in s.failed && SameFailure(r, s.failed[i]);
  }

  lemma StepFollows(w: World, step: Step, r: Record)
    requires Inv(w) && Enabled(w, step) && r in Next(w, step).store.failed
    ensures Follows(w, step, r)
  {
    if step.AgentFails? {
      ParkedFollows(w, step, r);
    } else if step.SignalSuccess? && r !in w.store.failed {
      RequeuedFollows(w.store, OldestWaiting(w.store.failed), Auto, step.now, r);
    } else if step.Retry? {
      RequeuedFollows(w.store, FindRecord(w.store.failed, step.failedId), Manual, step.now, r);
    } else {
      StaysInList(w, step, r);
      assert SameFailure(r, r);
    }
  }

  lemma StaysInList(w: World, step: Step, r: Record)
    requires Inv(w) && Enabled(w, step) && r in Next(w, step).store.failed
    requires !step.AgentFails? && !step.Retry? && (step.SignalSuccess? ==> r in w.store.failed)
    ensures r in w.store.failed
  {
    if step.PurgeRecords? {
      PurgeMembers(w.store.failed, Held(w));
    } else if step.DiscardRecord? {
      WithoutRecordMembers(w.store.failed, step.failedId);
    } else if step.Begin? {
      BeginPassIds(w.store, step.now, step.limits, step.ready, step.error);
    }
  }

  lemma {:induction false} RunFollows(w: World, steps: seq<Step>, r: Record)
    requires Inv(w) && Legal(w, steps) && r in Run(w, steps).store.failed
    ensures var last := LastFailure(w, steps, r.failedId);
            if last.Some? then SaysSo(r, last.value) else exists q :: q in w.store.failed && SameFailure(r, q)
    decreases |steps|
  {
    if steps == [] {
      assert SameFailure(r, r);
    } else {
      var w' := Next(w, steps[0]);
      StepKeepsInv(w, steps[0]);
      RunFollows(w', steps[1..], r);
      if LastFailure(w', steps[1..], r.failedId).None? {
        var q :| q in w'.store.failed && SameFailure(r, q);
        StepFollows(w, steps[0], q);
        if LastFailure(w, steps, r.failedId).None? {
          var q0 :| q0 in w.store.failed && SameFailure(q, q0);
          assert SameFailure(r, q0);
        }
      }
    }
  }

  /** Over every run, a failed record carries category, reason, error and time of the last failure that
      parked it. */
  lemma RecordsTellTheirLastFailure(steps: seq<Step>, r: Record)
    requires Legal(START, steps) && r in Run(START, steps).store.failed
    ensures var last := LastFailure(START, steps, r.failedId);
            last.Some? && last.value.AgentFails? && r.category == last.value.category && r.reason == last.value.reason
            && r.lastError == last.value.error && r.parkedAt == last.value.now
  {
    RunFollows(START, steps, r);
  }

  // ---------------------------------------------------------------- what a success brings back

  /** `k` waits for a success, and no other record has waited longer; of those that have waited as long the
      one with the oldest request is first, and of those the first in the list. */
  ghost predicate WaitsLongest(failed: seq<Record>, k: nat) {
    && k < |failed| && failed[k].status.Parked? && failed[k].category.ProviderError?
    && forall i :: 0 <= i < |failed| && failed[i].status.Parked? && failed[i].category.ProviderError? ==>
         || failed[k].firstParkedAt < failed[i].firstParkedAt
         || (failed[k].firstParkedAt == failed[i].firstParkedAt && failed[k].createdAt < failed[i].createdAt)
         || (failed[k].firstParkedAt == failed[i].firstParkedAt && failed[k].createdAt == failed[i].createdAt && k <= i)
  }

  ghost predicate NoneWaits(failed: seq<Record>) {
    forall r :: r in failed ==> !(r.status.Parked? && r.category.ProviderError?)
  }

  lemma OldestWaitsLongest(failed: seq<Record>)
    ensures if OldestWaiting(failed) < |failed| then WaitsLongest(failed, OldestWaiting(failed)) else NoneWaits(failed)
  {
    OldestIsFirst(failed);
  }

  /** The failed list after a success: record `k` has gone back to the queue. */
  ghost predicate BroughtBack(failed: seq<Record>, failed': seq<Record>, k: nat, now: int) {
    && |failed'| == |failed| && k < |failed|
    && (forall i :: 0 <= i < |failed| && i != k ==> failed'[i] == failed[i])
    && failed'[k] == failed[k].(status := Requeued, requeuedAt := Some(now),
                                autoRequeueCount := failed[k].autoRequeueCount + 1)
  }

  /** After any run, a success with automatic retries brings back exactly one record if one waits: the
      longest waiting of those whose last failure was the provider's. Nothing else changes; without
      automatic retries, or if none waits, nothing does. */
  lemma SuccessBringsBackProviderFailures(steps: seq<Step>, auto: bool, now: int)
    requires Legal(START, steps) && Enabled(Run(START, steps), SignalSuccess(auto, now))
    ensures var failed := Run(START, steps).store.failed;
            var failed' := Next(Run(START, steps), SignalSuccess(auto, now)).store.failed;
            if !auto || NoneWaits(failed) then failed' == failed
            else
              exists k: nat ::
                && BroughtBack(failed, failed', k, now) && WaitsLongest(failed, k)
                && LastFailure(START, steps, failed[k].failedId).Some?
                && LastFailure(START, steps, failed[k].failedId).value.category.ProviderError?
  {
    var failed := Run(START, steps).store.failed;
    var k := OldestWaiting(failed);
    OldestWaitsLongest(failed);
    if auto && k < |failed| {
      assert failed[k] in failed;
      RecordsTellTheirLastFailure(steps, failed[k]);
      assert BroughtBack(failed, Next(Run(START, steps), SignalSuccess(auto, now)).store.failed, k, now);
    }
  }

  // ---------------------------------------------------------------- what stays parked

  /** The step is one of those that may take a parked record away: an operator's decision on it, or a
      success if it is a provider failure. */
  predicate MayRelease(r: Record, step: Step) {
    || (step.Retry? && step.failedId == r.failedId) || (step.DiscardRecord? && step.failedId == r.failedId)
    || (step.SignalSuccess? && step.auto && r.category.ProviderError?)
  }

  lemma ParkSpares(w: World, step: Step, r: Record)
    requires Inv(w) && step.AgentFails? && Enabled(w, step) && r in w.store.failed && r.status.Parked?
    ensures r in Next(w, step).store.failed
  {
    var failed, failed' := w.store.failed, Next(w, step).store.failed;
    ParkingMergesIntoRequeued(w);
    var i :| 0 <= i < |failed| && failed[i] == r;
    assert failed'[i] == r;
  }

  lemma OthersStay(s: Store, k: nat, trigger: Trigger, now: int, r: Record)
    requires k < |s.failed| && r in s.failed && r != s.failed[k]
    ensures r in Requeue(s, k, trigger, now).failed
  {
    var i :| 0 <= i < |s.failed| && s.failed[i] == r;
    assert Requeue(s, k, trigger, now).failed[i] == r;
  }

  lemma StaysUnlessReleased(w: World, step: Step, r: Record)
    requires Inv(w) && Enabled(w, step) && r in w.store.failed && r.status.Parked? && !MayRelease(r, step)
    ensures r in Next(w, step).store.failed
  {
    if step.AgentFails? {
      ParkSpares(w, step, r);
    } else if step.PurgeRecords? {
      PurgeOnlyRequeued(w);
      PurgeMembers(w.store.failed, Held(w));
    } else if step.DiscardRecord? {
      WithoutRecordMembers(w.store.failed, step.failedId);
    } else if step.Retry? {
      OthersStay(w.store, FindRecord(w.store.failed, step.failedId), Manual, step.now, r);
    } else if step.SignalSuccess? && step.auto && OldestWaiting(w.store.failed) < |w.store.failed| {
      OthersStay(w.store, OldestWaiting(w.store.failed), Auto, step.now, r);
    } else if step.Begin? {
      BeginPassIds(w.store, step.now, step.limits, step.ready, step.error);
    }
  }

  /** A parked record stays as it is through every run without a step that may release it. */
  lemma {:induction false} ParkedStaysParked(w: World, steps: seq<Step>, r: Record)
    requires Inv(w) && Legal(w, steps) && r in w.store.failed && r.status.Parked?
    requires forall step :: step in steps ==> !MayRelease(r, step)
    ensures r in Run(w, steps).store.failed
    decreases |steps|
  {
    if steps != [] {
      StepKeepsInv(w, steps[0]);
      StaysUnlessReleased(w, steps[0], r);
      ParkedStaysParked(Next(w, steps[0]), steps[1..], r);
    }
  }

  /** So a batch that was rejected, and not failed by the provider, stays parked over every run until an
      operator retries or discards it, however many batches succeed. */
  lemma RejectedWaitsForTheOperator(steps: seq<Step>, more: seq<Step>, r: Record)
    requires Legal(START, steps) && r in Run(START, steps).store.failed && r.status.Parked?
    requires LastFailure(START, steps, r.failedId).Some?
             && LastFailure(START, steps, r.failedId).value.category.Protocol?
    requires Legal(Run(START, steps), more)
    requires forall step :: step in more ==>
               step != DiscardRecord(r.failedId) && !(step.Retry? && step.failedId == r.failedId)
    ensures r in Run(Run(START, steps), more).store.failed
  {
    RunKeepsInv(START, steps);
    RecordsTellTheirLastFailure(steps, r);
    ParkedStaysParked(Run(START, steps), more, r);
  }
}
