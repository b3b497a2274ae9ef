/** A commit as events of the row table: what the counters of a row mean over any number of commits. */
module MemoryHistory {
  import opened Sequences
  import opened MemoryTable
  import opened MemoryValidator
  import opened MemoryAgreement
  import opened MemoryCompression
  import opened MemoryRefusal
  import opened MemoryCommit
  import opened MemoryNotes
  import opened MemoryOutcome
  import opened MemoryAgeing

  // ---------------------------------------------------------------- the events of one commit

  function Shrinkings(log: seq<Action>): seq<Event> {
    seq(|log|, i requires 0 <= i < |log| => Shrinks(log[i]))
  }

  /** The snapshot read back if the table does not render as it. */
  function SyncEvents(s: Memory, now: int): seq<Event> {
    if Render(s.rows) == s.document then [] else [Rebuilds(s.document, now)]
  }

  /** The mutation of a batch with changes; there is one commit event or none. */
  function MutationEvents(v: Validated, now: int, today: string): seq<Event> {
    if Structured(v.mutation) then [Commits(v.mutation, now, today)] else []
  }

  /** The compression edits, made if the mutated document is accepted. */
  function CompressionEvents(rows: seq<Row>, settings: Settings): seq<Event> {
    if !DocumentOk(Render(rows), settings.limits) then []
    else Shrinkings(CompressIfNeeded(rows, Render(rows), settings.budget, settings.limits).log)
  }

  /** Everything that happens to the table when a batch is committed, also if the commit is refused. */
  function CommitEvents(s: Memory, v: Validated, now: int, today: string, settings: Settings): seq<Event> {
    SyncEvents(s, now) + MutationEvents(v, now, today) + CompressionEvents(MutatedTable(s, v, now, today), settings)
  }

  // ---------------------------------------------------------------- a history goes on

  /** One more event. */
  lemma OneMoreEvent(history: seq<Event>, e: Event)
    requires Legal(history) && (e.Commits? ==> Proper(Table(history), e.m))
    ensures Legal(history + [e]) && Table(history + [e]) == After(Table(history), e)
  {
    var all := history + [e];
    assert all[..|all| - 1] == history;
    forall k | 0 <= k < |all| && all[k].Commits?
      ensures Proper(Table(all[..k]), all[k].m)
    {
      if k < |history| {
        assert all[..k] == history[..k] && all[k] == history[k];
      }
    }
  }

  lemma ShrinkingsCons(history: seq<Event>, log: seq<Action>)
    requires log != []
    ensures history + Shrinkings(log) == (history + [Shrinks(log[0])]) + Shrinkings(log[1..])
  {
  }

  lemma {:induction false} ShrinkingsReplay(history: seq<Event>, log: seq<Action>)
    requires Legal(history)
    ensures Legal(history + Shrinkings(log)) && Table(history + Shrinkings(log)) == Replay(Table(history), log)
    decreases |log|
  {
    if log == [] {
      assert history + Shrinkings(log) == history;
    } else {
      OneMoreEvent(history, Shrinks(log[0]));
      ShrinkingsReplay(history + [Shrinks(log[0])], log[1..]);
      ShrinkingsCons(history, log);
    }
  }

  lemma SyncIsEvents(history: seq<Event>, s: Memory, now: int)
    requires Legal(history) && Table(history) == s.rows
    ensures Legal(history + SyncEvents(s, now))
    ensures Table(history + SyncEvents(s, now)) == Synced(s.rows, s.document, now)
  {
    if Render(s.rows) == s.document {
      assert history + [] == history;
    } else {
      OneMoreEvent(history, Rebuilds(s.document, now));
    }
  }

  /** The validator's mutation is of the kind the history is about, whatever table it meets. */
  lemma ProposalIsProper(s: Memory, b: Batch, ids: seq<Id>, now: int, today: string)
    requires IdsKnown(s.document, b) && FreshIds(s.document, b, ids)
    ensures Proper(Synced(s.rows, s.document, now), Proposal(s.document, b, ids, today).mutation)
  {
    ProposalCanInsert(s, b, ids, now, today);
    ProposedMutation(s.document, b, ids, today);
  }

  lemma MutationIsEvents(history: seq<Event>, s: Memory, b: Batch, ids: seq<Id>, now: int, today: string)
    requires IdsKnown(s.document, b) && FreshIds(s.document, b, ids)
    requires Legal(history) && Table(history) == Synced(s.rows, s.document, now)
    ensures var v := Proposal(s.document, b, ids, today);
            && Legal(history + MutationEvents(v, now, today))
            && Table(history + MutationEvents(v, now, today)) == MutatedTable(s, v, now, today)
  {
    var v := Proposal(s.document, b, ids, today);
    if Structured(v.mutation) {
      ProposalIsProper(s, b, ids, now, today);
      OneMoreEvent(history, Commits(v.mutation, now, today));
    } else {
      assert history + [] == history;
    }
  }

  lemma CompressionIsEvents(history: seq<Event>, rows: seq<Row>, document: seq<Entry>, notes: set<string>,
      settings: Settings)
    requires Legal(history) && Table(history) == rows
    ensures var es := CompressionEvents(rows, settings);
            Legal(history + es) && Table(history + es) == Finish(rows, document, notes, settings).memory.rows
  {
    if DocumentOk(Render(rows), settings.limits) {
      AcceptedFits(rows, Render(rows), settings.limits);
      CompressionIsLegalAndEnds(rows, settings.budget, settings.limits);
      ShrinkingsReplay(history, CompressIfNeeded(rows, Render(rows), settings.budget, settings.limits).log);
    } else {
      assert history + [] == history;
    }
  }

  lemma SyncedAndMutated(history: seq<Event>, s: Memory, b: Batch, ids: seq<Id>, now: int, today: string)
    requires IdsKnown(s.document, b) && FreshIds(s.document, b, ids)
    requires Legal(history) && Table(history) == s.rows
    ensures var v := Proposal(s.document, b, ids, today);
            var events := history + SyncEvents(s, now) + MutationEvents(v, now, today);
            Legal(events) && Table(events) == MutatedTable(s, v, now, today)
  {
    SyncIsEvents(history, s, now);
    MutationIsEvents(history + SyncEvents(s, now), s, b, ids, now, today);
  }

  lemma InOrder(history: seq<Event>, s: Memory, v: Validated, now: int, today: string, settings: Settings)
    ensures history + CommitEvents(s, v, now, today, settings)
            == history + SyncEvents(s, now) + MutationEvents(v, now, today)
               + CompressionEvents(MutatedTable(s, v, now, today), settings)
  {
    var sync, mutation := SyncEvents(s, now), MutationEvents(v, now, today);
    Regroup(history, sync + mutation, CompressionEvents(MutatedTable(s, v, now, today), settings));
    Regroup(history, sync, mutation);
  }

  lemma CommitFinishes(s: Memory, b: Batch, ids: seq<Id>, now: int, today: string, settings: Settings)
    requires IdsKnown(s.document, b) && FreshIds(s.document, b, ids)
    ensures var v := Proposal(s.document, b, ids, today);
            Commit(s, v, now, today, settings)
            == Finish(MutatedTable(s, v, now, today), s.document, s.notes + b.upserts, settings)
  {
    ProposalCanInsert(s, b, ids, now, today);
    if !Structured(Proposal(s.document, b, ids, today).mutation) {
      UnstructuredChangesNothing(s.document, b, ids, today);
    }
  }

  /** A commit is a run of events: from a history that made the table, the events of the commit make the
      table the commit leaves, also if it is refused half way. */
  lemma CommitIsEvents(history: seq<Event>, s: Memory, b: Batch, ids: seq<Id>, now: int, today: string,
      settings: Settings)
    requires IdsKnown(s.document, b) && FreshIds(s.document, b, ids)
    requires Legal(history) && Table(history) == s.rows
    ensures var v := Proposal(s.document, b, ids, today);
            var events := history + CommitEvents(s, v, now, today, settings);
            Legal(events) && Table(events) == Commit(s, v, now, today, settings).memory.rows
  {
    var v := Proposal(s.document, b, ids, today);
    var mutated := history + SyncEvents(s, now) + MutationEvents(v, now, today);
    SyncedAndMutated(history, s, b, ids, now, today);
    CompressionIsEvents(mutated, MutatedTable(s, v, now, today), s.document, s.notes + b.upserts, settings);
    InOrder(history, s, v, now, today, settings);
    CommitFinishes(s, b, ids, now, today, settings);
  }

  // ---------------------------------------------------------------- many commits

  function TurnEvents(s: Memory, t: Turn, settings: Settings): seq<Event>
    requires |t.ids| >= |t.batch.adds|
  {
    CommitEvents(s, Proposal(s.document, t.batch, t.ids, t.today), t.now, t.today, settings)
  }

  /** The events of the first `i` turns of a run. */
  ghost function RunEvents(run: seq<Journal>, turns: seq<Turn>, checks: Checks, settings: Settings, i: nat): seq<Event>
    requires CommitRun(run, turns, checks, settings) && i <= |turns|
  {
    if i == 0 then []
    else
      assert TurnAt(run, turns, checks, settings, i - 1);
      RunEvents(run, turns, checks, settings, i - 1) + TurnEvents(run[i - 1].memory, turns[i - 1], settings)
  }

  lemma TurnIsEvents(history: seq<Event>, j: Journal, t: Turn, j': Journal, checks: Checks, settings: Settings)
    requires TurnTo(j, t, j', checks, settings) && Legal(history) && Table(history) == j.memory.rows
    ensures var events := history + TurnEvents(j.memory, t, settings);
            Legal(events) && Table(events) == j'.memory.rows
  {
    CommitIsEvents(history, j.memory, t.batch, t.ids, t.now, t.today, settings);
  }

  /** The events are legal and make the table. */
  ghost predicate Makes(events: seq<Event>, rows: seq<Row>) {
    Legal(events) && Table(events) == rows
  }

  lemma NextTurn(run: seq<Journal>, turns: seq<Turn>, checks: Checks, settings: Settings, i: nat)
    requires CommitRun(run, turns, checks, settings) && i < |turns|
    ensures |turns[i].ids| >= |turns[i].batch.adds|
    ensures RunEvents(run, turns, checks, settings, i + 1)
            == RunEvents(run, turns, checks, settings, i) + TurnEvents(run[i].memory, turns[i], settings)
  {
    assert TurnAt(run, turns, checks, settings, i);
  }

  ghost predicate MadeBy(run: seq<Journal>, turns: seq<Turn>, checks: Checks, settings: Settings, i: nat)
    requires CommitRun(run, turns, checks, settings) && i <= |turns|
  {
    Makes(RunEvents(run, turns, checks, settings, i), run[i].memory.rows)
  }

  lemma NoTurns(run: seq<Journal>, turns: seq<Turn>, checks: Checks, settings: Settings)
    requires CommitRun(run, turns, checks, settings) && run[0].memory.rows == []
    ensures MadeBy(run, turns, checks, settings, 0)
  {
  }

  lemma OneMoreTurn(run: seq<Journal>, turns: seq<Turn>, checks: Checks, settings: Settings, i: nat)
    requires CommitRun(run, turns, checks, settings) && i < |turns| && MadeBy(run, turns, checks, settings, i)
    ensures MadeBy(run, turns, checks, settings, i + 1)
  {
    assert TurnAt(run, turns, checks, settings, i);
    NextTurn(run, turns, checks, settings, i);
    TurnIsEvents(RunEvents(run, turns, checks, settings, i), run[i], turns[i], run[i + 1], checks, settings);
  }

  /** The table after every turn of a run is made by the events of its turns. */
  lemma RunIsEvents(run: seq<Journal>, turns: seq<Turn>, checks: Checks, settings: Settings, i: nat)
    requires CommitRun(run, turns, checks, settings) && i <= |turns| && run[0].memory.rows == []
    ensures MadeBy(run, turns, checks, settings, i)
  {
    NoTurns(run, turns, checks, settings);
    forall k: nat | k < |turns| && MadeBy(run, turns, checks, settings, k)
      ensures MadeBy(run, turns, checks, settings, k + 1)
    {
      OneMoreTurn(run, turns, checks, settings, k);
    }
    Climbs((k: nat) => k <= |turns| && MadeBy(run, turns, checks, settings, k), |turns|, i);
  }

  /** Over any run of accepted batches that begins with an empty table, and with commits that are refused
      half way among them, the counters of every row count the commits of its own past. */
  lemma CountersTellTheRun(run: seq<Journal>, turns: seq<Turn>, checks: Checks, settings: Settings, i: nat, r: Row)
    requires CommitRun(run, turns, checks, settings) && i <= |turns| && run[0].memory.rows == []
    requires r in run[i].memory.rows
    ensures var events := RunEvents(run, turns, checks, settings, i);
            PassedIsHistory(events, r) && RefreshIsHistory(events, r)
  {
    RunIsEvents(run, turns, checks, settings, i);
    CountersTellHistory(RunEvents(run, turns, checks, settings, i), r);
  }
}
