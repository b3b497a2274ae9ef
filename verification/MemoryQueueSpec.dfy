/** The three stores of the memory worker (queue, failed records, terminal history) and what
    each manager operation does to them, as functions on values. */
module MemoryQueueSpec {
  import opened Sequences

  type Id = string

  datatype Status = Pending | Processing

  datatype Row = Row(
    id: Id,
    op: string,
    payload: string,
    createdAt: int,
    status: Status,
    startedAt: Option<int>,
    lastError: string,
    lastErrorAt: Option<int>,
    retryAfter: Option<int>)

  datatype Category = ProviderError | Protocol

  datatype RecordStatus = Parked | Requeued

  datatype Record = Record(
    failedId: Id,
    op: string,
    requestIds: seq<Id>,
    items: seq<Row>,
    category: Category,
    reason: string,
    status: RecordStatus,
    createdAt: int,
    firstParkedAt: int,
    parkedAt: int,
    requeuedAt: Option<int>,
    parkCount: nat,
    autoRequeueCount: nat,
    manualRetryCount: nat,
    lastError: string)

  datatype Verdict = Applied | Discarded(reason: string)

  datatype Terminal = Terminal(op: string, verdict: Verdict, requestIds: seq<Id>)

  /** An assessment that was applied is recorded as a write. */
  function AppliedOp(op: string): string {
    if op == "assess" then "write" else op
  }

  datatype Store = Store(queue: seq<Row>, failed: seq<Record>, history: seq<Terminal>)

  datatype Limits = Limits(batchMaxChars: nat, maxWaitSeconds: nat)

  // ---------------------------------------------------------------- ids

  function Ids(rows: seq<Row>): (ids: seq<Id>)
    ensures |ids| == |rows|
    ensures forall i :: 0 <= i < |rows| ==> ids[i] == rows[i].id
  {
    seq(|rows|, i requires 0 <= i < |rows| => rows[i].id)
  }

  function RowIds(rows: seq<Row>): set<Id> {
    set r | r in rows :: r.id
  }

  ghost function ParkedIds(failed: seq<Record>): set<Id> {
    set r, id | r in failed && r.status.Parked? && id in r.requestIds :: id
  }

  ghost function HistoryIds(history: seq<Terminal>): set<Id> {
    set t, id | t in history && id in t.requestIds :: id
  }

  predicate Overlaps(ids: seq<Id>, idSet: set<Id>) {
    exists i :: 0 <= i < |ids| && ids[i] in idSet
  }

  // ---------------------------------------------------------------- queue edits

  /** Rows whose id is not in `ids`, in order. */
  function DropIds(rows: seq<Row>, ids: set<Id>): (kept: seq<Row>)
    ensures |kept| <= |rows|
  {
    if rows == [] then []
    else (if rows[0].id in ids then [] else [rows[0]]) + DropIds(rows[1..], ids)
  }

  function Marked(row: Row, now: int): Row {
    row.(status := Processing,
         startedAt := if row.startedAt.None? then Some(now) else row.startedAt,
         lastError := "", lastErrorAt := None, retryAfter := None)
  }

  function Errored(row: Row, now: int, error: string): Row {
    row.(status := Processing,
         startedAt := if row.startedAt.None? then Some(now) else row.startedAt,
         lastError := error, lastErrorAt := Some(now), retryAfter := Some(now + 30))
  }

  function MarkProcessing(rows: seq<Row>, ids: set<Id>, now: int): seq<Row> {
    seq(|rows|, i requires 0 <= i < |rows| => if rows[i].id in ids then Marked(rows[i], now) else rows[i])
  }

  function MarkError(rows: seq<Row>, ids: set<Id>, now: int, error: string): seq<Row> {
    seq(|rows|, i requires 0 <= i < |rows| => if rows[i].id in ids then Errored(rows[i], now, error) else rows[i])
  }

  /** A parked item goes back as a fresh pending row that keeps its last error. */
  function Renewed(row: Row): Row {
    row.(status := Pending, startedAt := None, retryAfter := None)
  }

  /** Append the items whose ids the queue does not hold yet. */
  function AppendMissing(queue: seq<Row>, items: seq<Row>): seq<Row>
    decreases |items|
  {
    if items == [] then queue
    else AppendMissing(if items[0].id in Ids(queue) then queue else queue + [Renewed(items[0])], items[1..])
  }

  // ---------------------------------------------------------------- batch collection

  function Chars(rows: seq<Row>): nat {
    if rows == [] then 0 else |rows[0].payload| + Chars(rows[1..])
  }

  /** Length of the leading run of processing rows with operation `op`. */
  function ProcessingRun(rows: seq<Row>, op: string): (n: nat)
    ensures n <= |rows|
  {
    if rows == [] || rows[0].status.Pending? || rows[0].op != op then 0
    else 1 + ProcessingRun(rows[1..], op)
  }

  /** Length of the fresh batch: pending rows with operation `op`, cut before the payload total
      passes `max`; the first row is taken whatever its size. */
  function PendingRun(rows: seq<Row>, op: string, max: nat, taken: nat, chars: nat): (n: nat)
    ensures n <= |rows|
  {
    if rows == [] || rows[0].status.Processing? || rows[0].op != op then 0
    else if taken > 0 && chars + |rows[0].payload| > max then 0
    else 1 + PendingRun(rows[1..], op, max, taken + 1, chars + |rows[0].payload|)
  }

  function EffectiveMaxChars(limits: Limits): nat {
    if limits.batchMaxChars == 0 then 50000 else limits.batchMaxChars
  }

  function EffectiveMaxWait(limits: Limits): nat {
    if limits.maxWaitSeconds == 0 then 3 else limits.maxWaitSeconds
  }

  function SecondsSince(start: int, end: int): nat {
    if end >= start then end - start else 0
  }

  /** The fresh run stopped at a row it could have taken but for the character limit. */
  predicate HitBoundary(rows: seq<Row>, n: nat) {
    n < |rows| && rows[n].status.Pending? && rows[n].op == rows[0].op
  }

  /** The head batch that is due now; empty when nothing is. */
  function Collect(rows: seq<Row>, now: int, limits: Limits): seq<Row> {
    if rows == [] then []
    else if rows[0].status.Processing? then
      if rows[0].retryAfter.Some? && rows[0].retryAfter.value > now then []
      else rows[..ProcessingRun(rows, rows[0].op)]
    else
      var max := EffectiveMaxChars(limits);
      var n := PendingRun(rows, rows[0].op, max, 0, 0);
      if !HitBoundary(rows, n) && Chars(rows[..n]) < max
         && SecondsSince(rows[0].createdAt, now) < EffectiveMaxWait(limits)
      then []
      else rows[..n]
  }

  predicate PrecheckFails(items: seq<Row>) {
    exists i :: 0 <= i < |items| && items[i].payload == ""
  }

  // ---------------------------------------------------------------- failed records

  /** Position of the first record that shares an id with `ids`; |failed| when there is none. */
  function FirstOverlap(failed: seq<Record>, ids: set<Id>): (k: nat)
    ensures k <= |failed|
    ensures k < |failed| ==> Overlaps(failed[k].requestIds, ids)
    ensures forall i :: 0 <= i < k ==> !Overlaps(failed[i].requestIds, ids)
  {
    if failed == [] || Overlaps(failed[0].requestIds, ids) then 0
    else 1 + FirstOverlap(failed[1..], ids)
  }

  function FindRecord(failed: seq<Record>, failedId: Id): (k: nat)
    ensures k <= |failed|
    ensures k < |failed| ==> failed[k].failedId == failedId
    ensures forall i :: 0 <= i < k ==> failed[i].failedId != failedId
  {
    if failed == [] || failed[0].failedId == failedId then 0
    else 1 + FindRecord(failed[1..], failedId)
  }

  function EarliestCreated(items: seq<Row>): (t: int)
    requires items != []
    ensures exists i :: 0 <= i < |items| && items[i].createdAt == t
    ensures forall i :: 0 <= i < |items| ==> t <= items[i].createdAt
  {
    if |items| == 1 then items[0].createdAt
    else
      var rest := EarliestCreated(items[1..]);
      if items[0].createdAt <= rest then items[0].createdAt else rest
  }

  /** A failed batch as the operator sees it. */
  datatype Failure = Failure(op: string, items: seq<Row>, category: Category, reason: string, error: string)

  function Reparked(r: Record, f: Failure, now: int): Record {
    r.(op := f.op, requestIds := Ids(f.items), items := f.items, category := f.category, reason := f.reason,
         status := Parked, parkedAt := now, requeuedAt := None, parkCount := r.parkCount + 1, lastError := f.error)
  }

  function NewlyParked(failedId: Id, f: Failure, now: int): Record
    requires f.items != []
  {
    Record(failedId, f.op, Ids(f.items), f.items, f.category, f.reason, Parked,
           EarliestCreated(f.items), now, now, None, 1, 0, 0, f.error)
  }

  function Park(s: Store, f: Failure, failedId: Id, now: int): Store
    requires f.items != []
  {
    var ids := RowIds(f.items);
    var k := FirstOverlap(s.failed, ids);
    var failed' := if k < |s.failed| then s.failed[k := Reparked(s.failed[k], f, now)]
                   else s.failed + [NewlyParked(failedId, f, now)];
    Store(DropIds(s.queue, ids), failed', s.history)
  }

  function Purge(failed: seq<Record>, ids: set<Id>): seq<Record> {
    if failed == [] then []
    else (if Overlaps(failed[0].requestIds, ids) then [] else [failed[0]]) + Purge(failed[1..], ids)
  }

  datatype Trigger = Auto | Manual

  function AfterRequeue(r: Record, trigger: Trigger, now: int): Record {
    match trigger
    case Auto => r.(status := Requeued, requeuedAt := Some(now), autoRequeueCount := r.autoRequeueCount + 1)
    case Manual => r.(status := Requeued, requeuedAt := Some(now), manualRetryCount := r.manualRetryCount + 1)
  }

  function Requeue(s: Store, k: nat, trigger: Trigger, now: int): Store
    requires k < |s.failed|
  {
    Store(AppendMissing(s.queue, s.failed[k].items),
          s.failed[k := AfterRequeue(s.failed[k], trigger, now)],
          s.history)
  }

  predicate Waiting(r: Record) {
    r.status.Parked? && r.category.ProviderError?
  }

  predicate Before(a: Record, b: Record) {
    a.firstParkedAt < b.firstParkedAt || (a.firstParkedAt == b.firstParkedAt && a.createdAt < b.createdAt)
  }

  /** `k` is the record a success brings back: the first of the longest waiting provider failures. */
  ghost predicate IsOldestWaiting(failed: seq<Record>, k: nat) {
    && k < |failed| && Waiting(failed[k])
    && (forall i :: 0 <= i < |failed| && Waiting(failed[i]) ==> !Before(failed[i], failed[k]))
    && (forall i :: 0 <= i < k && Waiting(failed[i]) ==> Before(failed[k], failed[i]))
  }

  function OldestWaiting(failed: seq<Record>): (k: nat)
    ensures k <= |failed|
    ensures k < |failed| ==> Waiting(failed[k])
  {
    if failed == [] then 0
    else
      var k := OldestWaiting(failed[1..]);
      if Waiting(failed[0]) && (k == |failed| - 1 || !Before(failed[k + 1], failed[0])) then 0 else k + 1
  }

  function WithoutRecord(failed: seq<Record>, failedId: Id): seq<Record> {
    if failed == [] then []
    else (if failed[0].failedId == failedId then [] else [failed[0]]) + WithoutRecord(failed[1..], failedId)
  }

  /** The operator gives a record up: its items become terminal and leave the queue. */
  ghost function Discard(s: Store, failedId: Id): Store
    requires FindRecord(s.failed, failedId) < |s.failed|
  {
    var r := s.failed[FindRecord(s.failed, failedId)];
    Store(DropIds(s.queue, Elements(r.requestIds)),
          WithoutRecord(s.failed, failedId),
          s.history + [Terminal(r.op, Discarded("operator_discarded"), DiscardIds(r))])
  }

  function DiscardIds(r: Record): seq<Id> {
    if r.items != [] then Ids(r.items) else r.requestIds
  }

  // ---------------------------------------------------------------- the start of a worker pass

  /** What a pass does with the batch it has collected from the head of `s.queue`: the new stores,
      and the batch it goes on to hold (empty when the pass ends here). A batch that fails the precheck
      leaves the queue at once and is held until its terminal record is written. `ready` says whether
      the runtime configuration names a model; if not, the batch stays at the head with the error and
      a retry time. */
  ghost function HoldBatch(s: Store, batch: seq<Row>, now: int, ready: bool, error: string): (Store, seq<Row>) {
    var done := HistoryIds(s.history);
    var ids := RowIds(batch);
    if batch == [] then
      (s, [])
    else if Overlaps(Ids(batch), done) then
      (s.(queue := DropIds(s.queue, ids * done)), [])
    else if PrecheckFails(batch) then
      (s.(queue := DropIds(s.queue, ids)), batch)
    else
      var q := if batch[0].status.Pending? then MarkProcessing(s.queue, ids, now) else s.queue;
      if ready then (s.(queue := q), batch)
      else (s.(queue := MarkError(q, ids, now, error)), [])
  }

  /** The terminal record of a batch that failed the precheck. */
  function Condemnation(batch: seq<Row>): Terminal
    requires batch != []
  {
    Terminal(batch[0].op, Discarded("precheck_failed"), Ids(batch))
  }

  /** A pass first drops the rows the terminal history already has. */
  ghost function Swept(s: Store): Store {
    s.(queue := DropIds(s.queue, HistoryIds(s.history)))
  }

  /** The start of a worker pass, up to the call of the agent or to the drop of a batch that failed
      the precheck. */
  ghost function BeginPass(s: Store, now: int, limits: Limits, ready: bool, error: string): (Store, seq<Row>) {
    HoldBatch(Swept(s), Collect(Swept(s).queue, now, limits), now, ready, error)
  }
}
