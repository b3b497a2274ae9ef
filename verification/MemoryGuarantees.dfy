/** What every run of the memory worker keeps: conservation, at-most-once application, and the same
    batch after an error. */
module MemoryGuarantees {
  import opened Sequences
  import opened MemoryQueueSpec
  import opened MemoryQueueLaws
  import opened MemoryRuns

  // ---------------------------------------------------------------- what every run keeps

  ghost function EnqueuedBy(steps: seq<Step>): set<Id> {
    set step | step in steps && step.Enqueue? :: step.row.id
  }

  lemma {:induction false} RunEnqueues(w: World, steps: seq<Step>)
    requires Legal(w, steps)
    ensures Run(w, steps).enqueued == w.enqueued + EnqueuedBy(steps)
    decreases |steps|
  {
    if steps != [] {
      RunEnqueues(Next(w, steps[0]), steps[1..]);
      assert steps == [steps[0]] + steps[1..];
      assert EnqueuedBy(steps) == EnqueuedBy([steps[0]]) + EnqueuedBy(steps[1..]);
    }
  }

  /** Conservation. In every run an enqueued id is in the queue, in a parked record, in the terminal
      history or in the running pass; the only exceptions are ids of a batch whose pass died between
      the queue drop and the terminal record, unless an operator discarded them meanwhile. Parked
      records are keyed, share no request with each other, the queue or the batch in flight. */
  lemma Conservation(steps: seq<Step>)
    requires Legal(START, steps)
    ensures var w := Run(START, steps);
            && Accounted(w) == EnqueuedBy(steps) - (w.lost - HistoryIds(w.store.history))
            && FailedOk(w.store.failed)
            && ParkedIds(w.store.failed) !! RowIds(w.store.queue) + Held(w)
  {
    RunKeepsInv(START, steps);
    RunEnqueues(START, steps);
  }

  /** Some pass of the run dies after it has dropped its batch from the queue. */
  ghost predicate DiesAfterDrop(w: World, steps: seq<Step>)
    requires Legal(w, steps)
    decreases |steps|
  {
    steps != [] &&
    ((steps[0].Die? && !At(w, AtAgent)) || DiesAfterDrop(Next(w, steps[0]), steps[1..]))
  }

  /** The ids a step takes with it when a pass dies past its queue drop. */
  ghost function LostIn(w: World, step: Step): set<Id> {
    if step.Die? && !At(w, AtAgent) then Held(w) else {}
  }

  /** The ids an operator gives up with a record. */
  ghost function DiscardedIn(w: World, step: Step): set<Id>
    requires Enabled(w, step)
  {
    if step.DiscardRecord? then Elements(w.store.failed[FindRecord(w.store.failed, step.failedId)].requestIds) else {}
  }

  /** The ids of all batches whose pass dies past its queue drop. */
  ghost function LostBy(w: World, steps: seq<Step>): set<Id>
    requires Legal(w, steps)
    decreases |steps|
  {
    if steps == [] then {} else LostIn(w, steps[0]) + LostBy(Next(w, steps[0]), steps[1..])
  }

  /** The ids of all records operators discard. */
  ghost function DiscardedBy(w: World, steps: seq<Step>): set<Id>
    requires Legal(w, steps)
    decreases |steps|
  {
    if steps == [] then {} else DiscardedIn(w, steps[0]) + DiscardedBy(Next(w, steps[0]), steps[1..])
  }

  /** `discarded` are the ids given up so far: all of them are in the terminal history, and of the ids
      lost or in flight no others are. */
  ghost predicate OnlyDiscardsRecord(w: World, discarded: set<Id>) {
    HistoryIds(w.store.history) * (w.lost + Held(w)) <= discarded <= HistoryIds(w.store.history)
  }

  /** A record that ends a pass: the batch is in flight no more. */
  lemma RecordedIds(w: World, t: Terminal, discarded: set<Id>)
    requires Inv(w) && w.pass.InPass? && t.requestIds == Ids(w.pass.items) && OnlyDiscardsRecord(w, discarded)
    ensures OnlyDiscardsRecord(w.(store := w.store.(history := w.store.history + [t]), pass := Idle), discarded)
  {
    IdsAreRowIds(w.pass.items);
    HistoryGrows(w.store.history, t);
    assert LedgerOf(w).held !! LedgerOf(w).lost;
  }

  lemma BegunIds(w: World, step: Step, discarded: set<Id>)
    requires Inv(w) && step.Begin? && Enabled(w, step) && OnlyDiscardsRecord(w, discarded)
    ensures OnlyDiscardsRecord(Next(w, step), discarded)
  {
    var r := BeginPass(w.store, step.now, step.limits, step.ready, step.error);
    BeginPassIds(w.store, step.now, step.limits, step.ready, step.error);
    assert Next(w, step) == w.(store := r.0, pass := PassWith(r.1));
    assert Held(Next(w, step)) == RowIds(r.1);
  }

  /** All other steps leave the history alone, and take nothing new in flight. */
  lemma OtherStepDiscards(w: World, step: Step, discarded: set<Id>)
    requires Enabled(w, step) && OnlyDiscardsRecord(w, discarded)
    requires !step.Begin? && !step.RecordCondemned? && !step.Finish? && !step.DiscardRecord?
    ensures OnlyDiscardsRecord(Next(w, step), discarded)
  {
    var w' := Next(w, step);
    assert w'.store.history == w.store.history && w'.lost + Held(w') <= w.lost + Held(w);
  }

  lemma DiscardsRecord(w: World, step: Step, discarded: set<Id>)
    requires Inv(w) && step.DiscardRecord? && Enabled(w, step) && OnlyDiscardsRecord(w, discarded)
    ensures OnlyDiscardsRecord(Next(w, step), discarded + DiscardedIn(w, step))
  {
    DiscardedIds(w.store, step.failedId);
  }

  lemma StepDiscards(w: World, step: Step, discarded: set<Id>)
    requires Inv(w) && Enabled(w, step) && OnlyDiscardsRecord(w, discarded)
    ensures OnlyDiscardsRecord(Next(w, step), discarded + DiscardedIn(w, step))
  {
    if step.DiscardRecord? {
      DiscardsRecord(w, step, discarded);
    } else {
      assert discarded + {} == discarded;
      match step
      case Begin(_, _, _, _) => BegunIds(w, step, discarded);
      case RecordCondemned => RecordedIds(w, Condemnation(w.pass.items), discarded);
      case Finish => RecordedIds(w, Terminal(AppliedOp(w.pass.items[0].op), Applied, Ids(w.pass.items)), discarded);
      case _ => OtherStepDiscards(w, step, discarded);
    }
  }

  lemma {:induction false} RunDiscards(w: World, steps: seq<Step>, discarded: set<Id>)
    requires Inv(w) && Legal(w, steps) && OnlyDiscardsRecord(w, discarded)
    ensures OnlyDiscardsRecord(Run(w, steps), discarded + DiscardedBy(w, steps))
    decreases |steps|
  {
    if steps == [] {
      assert discarded + {} == discarded;
    } else {
      StepKeepsInv(w, steps[0]);
      StepDiscards(w, steps[0], discarded);
      RunDiscards(Next(w, steps[0]), steps[1..], discarded + DiscardedIn(w, steps[0]));
      UnionRegroup(discarded, DiscardedIn(w, steps[0]), DiscardedBy(Next(w, steps[0]), steps[1..]));
    }
  }

  lemma {:induction false} RunLoses(w: World, steps: seq<Step>)
    requires Legal(w, steps)
    ensures Run(w, steps).lost == w.lost + LostBy(w, steps)
    decreases |steps|
  {
    if steps == [] {
      assert w.lost + {} == w.lost;
    } else {
      RunLoses(Next(w, steps[0]), steps[1..]);
      assert Next(w, steps[0]).lost == w.lost + LostIn(w, steps[0]);
      UnionRegroup(w.lost, LostIn(w, steps[0]), LostBy(Next(w, steps[0]), steps[1..]));
    }
  }

  lemma {:induction false} LosesByDeath(w: World, steps: seq<Step>)
    requires Inv(w) && Legal(w, steps)
    ensures LostBy(w, steps) != {} <==> DiesAfterDrop(w, steps)
    decreases |steps|
  {
    if steps != [] {
      StepKeepsInv(w, steps[0]);
      if steps[0].Die? {
        assert w.pass.items[0].id in Held(w);
      }
      LosesByDeath(Next(w, steps[0]), steps[1..]);
    }
  }

  /** The exact condition. What a run leaves unaccounted for are the ids of the batches whose pass dies
      past its queue drop, except those an operator discards with a record that still names them. So
      every enqueued id is accounted for if and only if all ids lost that way are discarded; and there
      are such ids if and only if some pass dies past its drop. */
  lemma LosesOnlyByDeathAfterDrop(steps: seq<Step>)
    requires Legal(START, steps)
    ensures Accounted(Run(START, steps)) == EnqueuedBy(steps) - (LostBy(START, steps) - DiscardedBy(START, steps))
    ensures Accounted(Run(START, steps)) == EnqueuedBy(steps) <==> LostBy(START, steps) <= DiscardedBy(START, steps)
    ensures LostBy(START, steps) != {} <==> DiesAfterDrop(START, steps)
  {
    var w := Run(START, steps);
    RunDiscards(START, steps, {});
    RunLoses(START, steps);
    RunKeepsInv(START, steps);
    RunEnqueues(START, steps);
    Conservation(steps);
    LosesByDeath(START, steps);
    assert LedgerOf(w).lost <= LedgerOf(w).enqueued;
    Unaccounted(EnqueuedBy(steps), Accounted(w), LostBy(START, steps), DiscardedBy(START, steps),
                HistoryIds(w.store.history));
  }

  lemma Unaccounted(enqueued: set<Id>, accounted: set<Id>, lost: set<Id>, discarded: set<Id>, done: set<Id>)
    requires accounted == enqueued - (lost - done) && lost <= enqueued && done * lost <= discarded <= done
    ensures accounted == enqueued - (lost - discarded)
    ensures accounted == enqueued <==> lost <= discarded
  {
    assert lost - done == lost - discarded;
    if accounted == enqueued {
      forall id | id in lost
        ensures id in discarded
      {
        assert id in enqueued;
      }
    }
  }

  lemma OneMoreStep(w: World, step: Step, rest: seq<Step>)
    requires Enabled(w, step) && Legal(Next(w, step), rest)
    ensures Legal(w, [step] + rest) && Run(w, [step] + rest) == Run(Next(w, step), rest)
  {
    assert ([step] + rest)[1..] == rest;
  }

  lemma SingleRowIsDue(row: Row)
    requires row.status.Pending?
    ensures Swept(Store([row], [], [])) == Store([row], [], [])
    ensures Collect([row], row.createdAt + 3, Limits(0, 0)) == [row]
  {
    assert HistoryIds([]) == {};
    assert DropIds([row], {}) == [row] by {
      assert [row][1..] == [];
    }
    assert WellFormedQueue([row]);
    CollectsWhenDue([row], row.createdAt + 3, Limits(0, 0));
    CollectedBatch([row], row.createdAt + 3, Limits(0, 0));
  }

  lemma SingleRowBegins(row: Row)
    requires row.status.Pending?
    ensures var (s', held) := BeginPass(Store([row], [], []), row.createdAt + 3, Limits(0, 0), true, "");
            held == [row] && s'.history == []
  {
    SingleRowIsDue(row);
    assert HistoryIds([]) == {} && !Overlaps(Ids([row]), {});
  }

  /** The rest of a pass that dies right after it has dropped `row`: the precheck drops an empty
      request before the agent is called, any other is dropped after the agent. */
  function DropAndDie(row: Row): seq<Step> {
    if row.payload == "" then [Die] else [DropBatch, Die]
  }

  lemma DropThenDie(w: World, row: Row)
    requires w.pass == PassWith([row])
    ensures Legal(w, DropAndDie(row))
    ensures var w' := Run(w, DropAndDie(row)); w'.lost == w.lost + Held(w) && w'.store.history == w.store.history
  {
    assert [row][0] == row;
    if row.payload == "" {
      assert PrecheckFails([row]);
      OneMoreStep(w, Die, []);
      assert [Die] == [Die] + [];
    } else {
      assert At(w, AtAgent);
      var w1 := Next(w, DropBatch);
      OneMoreStep(w1, Die, []);
      OneMoreStep(w, DropBatch, [Die]);
      assert [Die] == [Die] + [] && [DropBatch, Die] == [DropBatch] + [Die];
    }
  }

  /** The world after one request was enqueued and a pass has taken it. */
  lemma FirstPass(row: Row, w1: World)
    requires row.status.Pending? && w1.store == Store([row], [], []) && w1.pass.Idle?
    ensures var w2 := Next(w1, FirstBegin(row));
            w2.pass == PassWith([row]) && w2.store.history == [] && row.id in Held(w2)
  {
    SingleRowBegins(row);
    assert row in [row];
  }

  function FirstBegin(row: Row): Step {
    Begin(row.createdAt + 3, Limits(0, 0), true, "")
  }

  lemma EnqueuedAlone(row: Row)
    requires row.status.Pending?
    ensures Enabled(START, Enqueue(row))
    ensures var w := Next(START, Enqueue(row)); w.store == Store([row], [], []) && w.pass.Idle?
  {
  }

  /** One request, and one pass that dies right after the drop. */
  function LosingSteps(row: Row): seq<Step> {
    [Enqueue(row)] + ([FirstBegin(row)] + DropAndDie(row))
  }

  lemma LosingRun(row: Row)
    requires row.status.Pending?
    ensures Legal(START, LosingSteps(row))
    ensures var w := Run(START, LosingSteps(row)); row.id in w.lost && w.store.history == []
  {
    var w1 := Next(START, Enqueue(row));
    EnqueuedAlone(row);
    FirstPass(row, w1);
    DropThenDie(Next(w1, FirstBegin(row)), row);
    OneMoreStep(w1, FirstBegin(row), DropAndDie(row));
    OneMoreStep(START, Enqueue(row), [FirstBegin(row)] + DropAndDie(row));
  }

  /** The loss is real: one request, one pass that dies right after the drop. */
  lemma DeathAfterDropLosesARequest(row: Row)
    requires row.status.Pending?
    ensures var steps := LosingSteps(row);
            Legal(START, steps) && row.id in EnqueuedBy(steps) && row.id !in Accounted(Run(START, steps))
  {
    LosingRun(row);
    assert HistoryIds([]) == {};
    assert LosingSteps(row)[0] == Enqueue(row);
    Conservation(LosingSteps(row));
  }

  /** At most once. In every run, deaths included, no id is applied by two commits. */
  lemma AppliedAtMostOnce(steps: seq<Step>)
    requires Legal(START, steps)
    ensures Distinct(Run(START, steps).applied)
  {
    RunKeepsInv(START, steps);
  }

  lemma {:induction false} GoneForGood(w: World, steps: seq<Step>)
    requires Inv(w) && Legal(w, steps)
    ensures Gone(w) <= Gone(Run(w, steps))
    ensures Gone(w) !! RowIds(Run(w, steps).store.queue) + ParkedIds(Run(w, steps).store.failed)
    decreases |steps|
  {
    if steps != [] {
      StepKeepsInv(w, steps[0]);
      GoneForGood(Next(w, steps[0]), steps[1..]);
    }
  }

  // ---------------------------------------------------------------- the head batch comes back

  /** The processing rows of a queue, in order: the batch an interrupted pass left at the head. */
  function Busy(rows: seq<Row>): seq<Row> {
    if rows == [] then []
    else (if rows[0].status.Processing? then [rows[0]] else []) + Busy(rows[1..])
  }

  /** The part of the head batch that is not in the terminal history. */
  ghost function Left(s: Store): seq<Row> {
    DropIds(Busy(s.queue), HistoryIds(s.history))
  }

  /** A pass that starts at `now` finds nothing due. */
  ghost predicate IdlePass(s: Store, now: int, limits: Limits) {
    Collect(Swept(s).queue, now, limits) == []
  }

  /** No pass of the run finds anything due; what else happens is not restricted. */
  ghost predicate Quiet(w: World, steps: seq<Step>)
    requires Legal(w, steps)
    decreases |steps|
  {
    steps == [] ||
    ((steps[0].Begin? ==> IdlePass(w.store, steps[0].now, steps[0].limits)) && Quiet(Next(w, steps[0]), steps[1..]))
  }

  lemma {:induction false} BusyDrop(rows: seq<Row>, ids: set<Id>)
    ensures Busy(DropIds(rows, ids)) == DropIds(Busy(rows), ids)
  {
    if rows != [] {
      BusyDrop(rows[1..], ids);
      var kept, rest := DropIds(rows[1..], ids), Busy(rows[1..]);
      assert ([rows[0]] + kept)[1..] == kept && ([rows[0]] + rest)[1..] == rest;
      assert [] + kept == kept && [] + rest == rest && [] + Busy(kept) == Busy(kept);
    }
  }

  lemma {:induction false} DropBoth(rows: seq<Row>, a: set<Id>, b: set<Id>)
    ensures DropIds(DropIds(rows, a), b) == DropIds(rows, a + b)
  {
    if rows != [] {
      DropBoth(rows[1..], a, b);
      var kept := DropIds(rows[1..], a);
      assert ([rows[0]] + kept)[1..] == kept && [] + kept == kept;
    }
  }

  lemma DropTwice(rows: seq<Row>, some: set<Id>, more: set<Id>)
    requires some <= more
    ensures DropIds(DropIds(rows, some), more) == DropIds(rows, more)
  {
    DropBoth(rows, some, more);
    assert some + more == more;
  }

  lemma {:induction false} BusyAppend(rows: seq<Row>, tail: seq<Row>)
    requires forall r :: r in tail ==> r.status.Pending?
    ensures Busy(rows + tail) == Busy(rows)
  {
    if rows != [] {
      assert (rows + tail)[1..] == rows[1..] + tail;
      BusyAppend(rows[1..], tail);
    } else if tail != [] {
      assert rows + tail == tail && [] + tail[1..] == tail[1..];
      BusyAppend([], tail[1..]);
    }
  }

  /** The next collection, as the head batch decides it: all of the batch once its retry time has
      passed and nothing before, and pending rows only if no batch is left. */
  ghost predicate FollowsHead(head: seq<Row>, now: int, batch: seq<Row>) {
    if head == [] then forall r :: r in batch ==> r.status.Pending?
    else batch == if head[0].retryAfter.Some? && head[0].retryAfter.value > now then [] else head
  }

  lemma {:induction false} BusyPrefix(rows: seq<Row>, n: nat)
    requires n <= |rows| && forall i :: 0 <= i < |rows| ==> (rows[i].status.Processing? <==> i < n)
    ensures Busy(rows) == rows[..n]
  {
    if rows != [] {
      var m := if n == 0 then 0 else n - 1;
      assert forall i :: 0 <= i < |rows[1..]| ==> rows[1..][i] == rows[i + 1];
      BusyPrefix(rows[1..], m);
      assert n > 0 ==> rows[..n] == [rows[0]] + rows[1..][..m];
    }
  }

  lemma CollectFollowsHead(q: seq<Row>, now: int, limits: Limits)
    requires WellFormedQueue(q)
    ensures FollowsHead(Busy(q), now, Collect(q, now, limits))
  {
    CollectedBatch(q, now, limits);
    if q != [] && q[0].status.Processing? {
      ProcessingRunIsAll(q, q[0].op);
      BusyPrefix(q, ProcessingRun(q, q[0].op));
    } else {
      BusyPrefix(q, 0);
    }
  }

  lemma QuietStep(w: World, step: Step)
    requires Inv(w) && w.pass.Idle? && Enabled(w, step)
    requires step.Begin? ==> IdlePass(w.store, step.now, step.limits)
    ensures var s, w' := w.store, Next(w, step);
            && w'.pass.Idle? && HistoryIds(s.history) <= HistoryIds(w'.store.history)
            && Left(w'.store) == DropIds(Left(s), HistoryIds(w'.store.history))
  {
    var s, s' := w.store, Next(w, step).store;
    var done, done' := HistoryIds(s.history), HistoryIds(s'.history);
    match step {
      case Enqueue(row) =>
        BusyAppend(s.queue, [row]);
      case Retry(failedId, now) =>
        var k := FindRecord(s.failed, failedId);
        RequeuedQueue(s, k, Manual, now);
        BusyAppend(s.queue, RenewedRows(s.failed[k].items));
      case DiscardRecord(failedId) =>
        DiscardedIds(s, failedId);
        var ids := Elements(s.failed[FindRecord(s.failed, failedId)].requestIds);
        BusyDrop(s.queue, ids);
        DropTwice(Busy(s.queue), ids, done');
      case _ =>
        BusyDrop(s.queue, done);
        DropTwice(Busy(s.queue), done, done);
    }
    DropTwice(Busy(s.queue), done, done');
  }

  lemma {:induction false} QuietRun(w: World, steps: seq<Step>)
    requires Inv(w) && w.pass.Idle? && Legal(w, steps) && Quiet(w, steps)
    ensures var s, w' := w.store, Run(w, steps);
            && Inv(w') && HistoryIds(s.history) <= HistoryIds(w'.store.history)
            && Left(w'.store) == DropIds(Left(s), HistoryIds(w'.store.history))
    decreases |steps|
  {
    var done := HistoryIds(w.store.history);
    if steps == [] {
      DropTwice(Busy(w.store.queue), done, done);
    } else {
      var w1 := Next(w, steps[0]);
      StepKeepsInv(w, steps[0]);
      QuietStep(w, steps[0]);
      QuietRun(w1, steps[1..]);
      DropTwice(Left(w.store), HistoryIds(w1.store.history), HistoryIds(Run(w, steps).store.history));
    }
  }

  /** The same rows come back. Whatever happens until a pass finds something due, the next collection
      is governed by the batch that was at the head: it takes exactly the rows of the batch that no
      operator has discarded meanwhile, once the retry time of the first of them has passed, and
      nothing before. Pending rows are collected only if the whole batch was discarded. */
  lemma RecollectsSameBatch(w: World, steps: seq<Step>, now: int, limits: Limits)
    requires Inv(w) && w.pass.Idle? && Legal(w, steps) && Quiet(w, steps)
    ensures var s' := Run(w, steps).store;
            FollowsHead(DropIds(Left(w.store), HistoryIds(s'.history)), now, Collect(Swept(s').queue, now, limits))
  {
    QuietRun(w, steps);
    var s' := Run(w, steps).store;
    var done := HistoryIds(s'.history);
    DropIdsKeepsShape(s'.queue, done);
    BusyDrop(s'.queue, done);
    CollectFollowsHead(Swept(s').queue, now, limits);
  }

  // ---------------------------------------------------------------- after a configuration error

  lemma ErroredPrefix(q: seq<Row>, n: nat, now: int, error: string)
    requires WellFormedQueue(q) && 0 < n <= |q|
    ensures var ids := RowIds(q[..n]);
            var q' := if q[0].status.Pending? then MarkProcessing(q, ids, now) else q;
            var e := MarkError(q', ids, now, error);
            Ids(e[..n]) == Ids(q[..n]) && forall i :: 0 <= i < n ==> e[i].retryAfter == Some(now + 30)
  {
    var ids := RowIds(q[..n]);
    var q' := if q[0].status.Pending? then MarkProcessing(q, ids, now) else q;
    PrefixIds(q, n);
    assert forall i :: 0 <= i < |q| ==> q'[i].id == q[i].id && MarkError(q', ids, now, error)[i].id == q[i].id;
  }

  /** What is left of the head batch waits until `until`. */
  ghost predicate Awaits(s: Store, until: int) {
    Left(s) != [] && forall r :: r in Left(s) ==> r.retryAfter == Some(until)
  }

  /** The stores after a pass that stopped at the runtime configuration. */
  lemma ErroredStore(s: Store, now: int, limits: Limits, error: string)
    requires WellFormedQueue(s.queue)
    requires var batch := Collect(Swept(s).queue, now, limits); batch != [] && !PrecheckFails(batch)
    ensures var batch := Collect(Swept(s).queue, now, limits);
            var (s', held) := BeginPass(s, now, limits, false, error);
            held == [] && Awaits(s', now + 30) && Ids(Left(s')) == Ids(batch)
  {
    var done := HistoryIds(s.history);
    var q := Swept(s).queue;
    var batch := Collect(q, now, limits);
    var s' := BeginPass(s, now, limits, false, error).0;
    DropIdsKeepsShape(s.queue, done);
    CollectedBatch(q, now, limits);
    assert RowIds(batch) <= RowIds(q);
    NoOverlap(batch, q, done);
    MarkedPrefix(q, |batch|, now, error);
    ErroredPrefix(q, |batch|, now, error);
    BusyPrefix(s'.queue, |batch|);
    assert RowIds(s'.queue[..|batch|]) <= RowIds(s'.queue);
    DropNothing(Busy(s'.queue), done);
  }

  /** A pass at `now` collects `batch` and is stopped by the runtime configuration. */
  ghost predicate StoppedPass(w: World, now: int, limits: Limits, error: string, batch: seq<Row>, w1: World) {
    && Inv(w) && w.pass.Idle? && batch == Collect(Swept(w.store).queue, now, limits)
    && batch != [] && !PrecheckFails(batch)
    && w1 == Next(w, Begin(now, limits, false, error))
  }

  /** Every pass of the run starts before `until`, and no operator discards a record that shares a
      request with `ids`. */
  ghost predicate Sparing(w: World, steps: seq<Step>, until: int, ids: set<Id>)
    requires Legal(w, steps)
    decreases |steps|
  {
    steps == [] || (SparingStep(w, steps[0], until, ids) && Sparing(Next(w, steps[0]), steps[1..], until, ids))
  }

  ghost predicate SparingStep(w: World, step: Step, until: int, ids: set<Id>)
    requires Enabled(w, step)
  {
    && (step.Begin? ==> step.now < until)
    && (step.DiscardRecord? ==>
          !Overlaps(w.store.failed[FindRecord(w.store.failed, step.failedId)].requestIds, ids))
  }

  lemma SparedByStep(w: World, step: Step, until: int)
    requires Inv(w) && w.pass.Idle? && Enabled(w, step) && Awaits(w.store, until)
    requires SparingStep(w, step, until, RowIds(Left(w.store)))
    ensures step.Begin? ==> IdlePass(w.store, step.now, step.limits)
    ensures Next(w, step).pass.Idle? && Left(Next(w, step).store) == Left(w.store)
  {
    var s, s', head := w.store, Next(w, step).store, Left(w.store);
    var done := HistoryIds(s.history);
    DropIdsMembers(Busy(s.queue), done);
    if step.Begin? {
      RecollectsSameBatch(w, [], step.now, step.limits);
      DropTwice(Busy(s.queue), done, done);
    }
    if step.DiscardRecord? {
      DiscardedIds(s, step.failedId);
    }
    QuietStep(w, step);
    DropNothing(head, HistoryIds(s'.history));
  }

  lemma {:induction false} SparedByRun(w: World, steps: seq<Step>, until: int)
    requires Inv(w) && w.pass.Idle? && Legal(w, steps) && Awaits(w.store, until)
    requires Sparing(w, steps, until, RowIds(Left(w.store)))
    ensures Quiet(w, steps) && Left(Run(w, steps).store) == Left(w.store)
    decreases |steps|
  {
    if steps != [] {
      StepKeepsInv(w, steps[0]);
      SparedByStep(w, steps[0], until);
      SparedByRun(Next(w, steps[0]), steps[1..], until);
    }
  }

  /** A pass stopped by a configuration error leaves its batch at the head with a retry time thirty
      seconds away. Every pass before that time is idle, and the first one after it holds the same
      ids, whatever was enqueued, retried or discarded in between, unless an operator discards one of
      the requests of the batch itself. */
  lemma ErrorKeepsBatch(
    w: World, now: int, limits: Limits, error: string, batch: seq<Row>, w1: World,
    steps: seq<Step>, now': int, limits': Limits)
    requires StoppedPass(w, now, limits, error, batch, w1)
    requires Legal(w1, steps) && Sparing(w1, steps, now + 30, RowIds(batch))
    ensures Quiet(w1, steps)
    ensures Ids(Collect(Swept(Run(w1, steps).store).queue, now', limits')) == if now' < now + 30 then [] else Ids(batch)
  {
    BeginKeepsInv(w, now, limits, false, error);
    ErroredStore(w.store, now, limits, error);
    IdsAreRowIds(batch);
    IdsAreRowIds(Left(w1.store));
    SparedByRun(w1, steps, now + 30);
    var s' := Run(w1, steps).store;
    RecollectsSameBatch(w1, steps, now', limits');
    QuietRun(w1, steps);
    assert DropIds(Left(w1.store), HistoryIds(s'.history)) == Left(w1.store);
  }

  /** An operator's discard of a record that shares requests with the waiting batch takes exactly
      those requests out of it. */
  lemma DiscardShrinksBatch(w: World, failedId: Id)
    requires Inv(w) && w.pass.Idle? && Enabled(w, DiscardRecord(failedId))
    ensures var r := w.store.failed[FindRecord(w.store.failed, failedId)];
            Left(Next(w, DiscardRecord(failedId)).store) == DropIds(Left(w.store), Elements(r.requestIds))
  {
    var s, s' := w.store, Next(w, DiscardRecord(failedId)).store;
    var done, ids := HistoryIds(s.history), Elements(s.failed[FindRecord(s.failed, failedId)].requestIds);
    QuietStep(w, DiscardRecord(failedId));
    DiscardedIds(s, failedId);
    DropBoth(Busy(s.queue), done, ids);
    DropTwice(Busy(s.queue), done, done + ids);
  }
}
