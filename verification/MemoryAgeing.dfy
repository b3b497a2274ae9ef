/** What the two counters of a row mean: over every run of commits, rebuilds from the document and
    compressions, they count the commits of the row's own past. */
module MemoryAgeing {
  import opened Sequences
  import opened MemoryTable
  import opened MemoryValidator
  import opened MemoryEdits
  import opened MemoryAgreement
  import opened MemoryCompression
  import opened MemoryCommit

  /** What happens to the table: a structured commit, a rebuild from a document, a compression edit. */
  datatype Event =
    | Commits(m: Mutation, now: int, today: string)
    | Rebuilds(document: seq<Entry>, now: int)
    | Shrinks(action: Action)

  function After(rows: seq<Row>, e: Event): seq<Row> {
    match e
    case Commits(m, now, today) => Mutate(rows, m, now, today)
    case Rebuilds(doc, now) => ReplaceAll(rows, doc, now)
    case Shrinks(a) => Apply(rows, a)
  }

  /** The table after a run that starts from the empty table. */
  function Table(events: seq<Event>): seq<Row> {
    if events == [] then [] else After(Table(events[..|events| - 1]), events[|events| - 1])
  }

  /** A mutation as the validator makes them: one rewrite for an id, and what is added is new. */
  ghost predicate Proper(rows: seq<Row>, m: Mutation) {
    && CanInsert(rows, m.adds) && OnePerId(m.rewrites)
    && forall a :: a in m.adds ==> a.id !in m.deletes && a.id !in m.cited && LastRewrite(m.rewrites, a.id).None?
  }

  ghost predicate Legal(events: seq<Event>) {
    forall k :: 0 <= k < |events| && events[k].Commits? ==> Proper(Table(events[..k]), events[k].m)
  }

  predicate Holds(rows: seq<Row>, id: Id) {
    exists r :: r in rows && r.id == id
  }

  /** The commit rewrote or cited the id. */
  predicate Refreshes(e: Event, id: Id) {
    e.Commits? && (id in e.m.cited || id in RewriteIds(e.m.rewrites))
  }

  /** Event `k` brought the id into the table. */
  predicate Creates(events: seq<Event>, k: nat, id: Id)
    requires k < |events|
  {
    !Holds(Table(events[..k]), id) && Holds(Table(events[..k + 1]), id)
  }

  predicate Touches(events: seq<Event>, k: nat, id: Id)
    requires k < |events|
  {
    Creates(events, k, id) || Refreshes(events[k], id)
  }

  /** The last event that brought the id in, rewrote it or cited it. */
  function LastTouch(events: seq<Event>, id: Id): Option<nat> {
    if events == [] then None
    else
      var n := |events| - 1;
      if Touches(events, n, id) then Some(n) else LastTouch(events[..n], id)
  }

  /** The last event that brought the id in. */
  function LastBirth(events: seq<Event>, id: Id): Option<nat> {
    if events == [] then None
    else
      var n := |events| - 1;
      if Creates(events, n, id) then Some(n) else LastBirth(events[..n], id)
  }

  function CommitCount(events: seq<Event>): nat {
    if events == [] then 0
    else CommitCount(events[..|events| - 1]) + if events[|events| - 1].Commits? then 1 else 0
  }

  function RefreshCount(events: seq<Event>, id: Id): nat {
    if events == [] then 0
    else RefreshCount(events[..|events| - 1], id) + if Refreshes(events[|events| - 1], id) then 1 else 0
  }

  // ---------------------------------------------------------------- one event, one row

  /** What an event makes of the counters of a row that was there before. */
  predicate Aged(r: Row, r': Row, e: Event) {
    && r'.id == r.id
    && r'.refreshCount == r.refreshCount + (if Refreshes(e, r.id) then 1 else 0)
    && r'.passedCount == if Refreshes(e, r.id) then 0 else r.passedCount + if e.Commits? then 1 else 0
  }

  /** A row after an event: aged from a row that was there, or new with both counters at zero. */
  ghost predicate Descends(rows: seq<Row>, r': Row, e: Event) {
    || (exists r :: r in rows && Aged(r, r', e))
    || (!Holds(rows, r'.id) && r'.refreshCount == 0 && r'.passedCount == 0)
  }

  lemma LastRewriteIsAmong(rewrites: seq<Rewrite>, id: Id)
    ensures LastRewrite(rewrites, id).Some? <==> id in RewriteIds(rewrites)
  {
    LastRewriteFinds(rewrites, id);
    if rewrites != [] {
      assert rewrites == [rewrites[0]] + rewrites[1..];
      LastRewriteIsAmong(rewrites[1..], id);
      assert RewriteIds(rewrites) == {rewrites[0].id} + RewriteIds(rewrites[1..]);
    }
  }

  /** The counters of a row that was inserted or rewritten, after the refresh and the ageing. */
  function Counted(r: Row, m: Mutation): Row {
    var rewriteIds := RewriteIds(m.rewrites);
    var refreshed := m.cited + rewriteIds;
    var p := if r.id in refreshed - rewriteIds - m.deletes then r.(refreshCount := r.refreshCount + 1, passedCount := 0)
      else r;
    if r.id in refreshed + m.deletes + AddIds(m.adds) then p else p.(passedCount := p.passedCount + 1)
  }

  lemma {:induction false} MutatedRow(rows: seq<Row>, m: Mutation, now: int, today: string, r': Row)
    requires Proper(rows, m) && r' in Mutate(rows, m, now, today)
    ensures exists q :: q in rows + NewRows(m.adds, now, today) && q.id !in m.deletes
              && r' == Counted(Edit(q, m.rewrites, today), m)
  {
    var inserted := InsertAll(rows, m.adds, now, today);
    InsertAppends(rows, m.adds, now, today);
    RewriteAllPointwise(inserted, m.rewrites, today);
    DeleteIsEdited(inserted, RewriteAll(inserted, m.rewrites, today), m.rewrites, m.deletes, today);
    EditedMembers(inserted, m.rewrites, m.deletes, today);
    var kept := EditedRows(inserted, m.rewrites, m.deletes, today);
    var i :| 0 <= i < |kept| && Mutate(rows, m, now, today)[i] == r';
    assert r' == Counted(kept[i], m);
    assert kept[i] in kept;
  }

  lemma CommitDescends(rows: seq<Row>, m: Mutation, now: int, today: string, r': Row)
    requires Proper(rows, m) && r' in Mutate(rows, m, now, today)
    ensures Descends(rows, r', Commits(m, now, today))
  {
    MutatedRow(rows, m, now, today, r');
    var added := NewRows(m.adds, now, today);
    var q :| q in rows + added && q.id !in m.deletes && r' == Counted(Edit(q, m.rewrites, today), m);
    LastRewriteFinds(m.rewrites, q.id);
    LastRewriteIsAmong(m.rewrites, q.id);
    if q in rows {
      OldRowAged(rows, m, now, today, q);
    } else {
      var i :| 0 <= i < |added| && added[i] == q;
      NewRowsMirrorAdds(m.adds, now, today);
      assert m.adds[i] in m.adds && q.id in AddIds(m.adds);
      forall r | r in rows
        ensures r.id != q.id
      {
        var j :| 0 <= j < |rows| && rows[j] == r;
      }
    }
  }

  lemma OldRowAged(rows: seq<Row>, m: Mutation, now: int, today: string, q: Row)
    requires Proper(rows, m) && q in rows && q.id !in m.deletes
    ensures Aged(q, Counted(Edit(q, m.rewrites, today), m), Commits(m, now, today))
  {
    LastRewriteFinds(m.rewrites, q.id);
    LastRewriteIsAmong(m.rewrites, q.id);
    assert q.id !in AddIds(m.adds) by {
      var j :| 0 <= j < |rows| && rows[j] == q;
    }
  }

  lemma {:induction false} RowWithIdFinds(rows: seq<Row>, id: Id)
    ensures RowWithId(rows, id).Some? <==> Holds(rows, id)
    ensures RowWithId(rows, id).Some? ==> RowWithId(rows, id).value in rows && RowWithId(rows, id).value.id == id
  {
    if rows != [] {
      RowWithIdFinds(rows[1..], id);
      assert rows == [rows[0]] + rows[1..];
    }
  }

  lemma EventDescends(rows: seq<Row>, e: Event, r': Row)
    requires e.Commits? ==> Proper(rows, e.m)
    requires r' in After(rows, e)
    ensures Descends(rows, r', e)
  {
    match e
    case Commits(m, now, today) =>
      CommitDescends(rows, m, now, today, r');
    case Rebuilds(doc, now) =>
      RowWithIdFinds(rows, r'.id);
      if RowWithId(rows, r'.id).Some? {
        assert Aged(RowWithId(rows, r'.id).value, r', e);
      }
    case Shrinks(a) =>
      ApplySurvives(rows, a);
      assert Survives(rows, r');
      var r :| r in rows && r' == r.(compressed := r'.compressed) && (r.compressed ==> r'.compressed);
      assert Aged(r, r', e);
  }

  // ---------------------------------------------------------------- whole runs

  lemma LegalPrefix(events: seq<Event>)
    requires Legal(events) && events != []
    ensures Legal(events[..|events| - 1])
  {
    var before := events[..|events| - 1];
    forall k | 0 <= k < |before| && before[k].Commits?
      ensures Proper(Table(before[..k]), before[k].m)
    {
      assert before[..k] == events[..k] && before[k] == events[k];
    }
  }

  lemma CountsSnoc(events: seq<Event>, before: seq<Event>, k: nat, id: Id)
    requires k + 1 < |events| && before == events[..|events| - 1]
    ensures CommitCount(events[k + 1..])
            == CommitCount(before[k + 1..]) + if events[|events| - 1].Commits? then 1 else 0
    ensures RefreshCount(events[k + 1..], id)
            == RefreshCount(before[k + 1..], id) + if Refreshes(events[|events| - 1], id) then 1 else 0
  {
    var later := events[k + 1..];
    assert later[..|later| - 1] == before[k + 1..] && later[|later| - 1] == events[|events| - 1];
  }

  /** The row's passed count counts the commits since event `k`. */
  ghost predicate PassedSince(events: seq<Event>, k: Option<nat>, r: Row) {
    k.Some? && k.value < |events| && r.passedCount == CommitCount(events[k.value + 1..])
  }

  /** The row's refresh count counts the commits since event `k` that rewrote or cited it. */
  ghost predicate RefreshedSince(events: seq<Event>, k: Option<nat>, r: Row) {
    k.Some? && k.value < |events| && r.refreshCount == RefreshCount(events[k.value + 1..], r.id)
  }

  ghost predicate PassedIsHistory(events: seq<Event>, r: Row) {
    PassedSince(events, LastTouch(events, r.id), r)
  }

  ghost predicate RefreshIsHistory(events: seq<Event>, r: Row) {
    RefreshedSince(events, LastBirth(events, r.id), r)
  }

  lemma NewRowHistory(events: seq<Event>, r: Row)
    requires events != [] && r in Table(events) && !Holds(Table(events[..|events| - 1]), r.id)
    requires r.passedCount == 0 && r.refreshCount == 0
    ensures PassedIsHistory(events, r) && RefreshIsHistory(events, r)
  {
    var n := |events| - 1;
    assert events[..n + 1] == events && events[n + 1..] == [];
    assert Holds(Table(events), r.id);
    assert Creates(events, n, r.id);
  }

  /** An id that was in the table before the last event was not brought in by it. */
  lemma LastEvent(events: seq<Event>, before: seq<Event>, id: Id)
    requires events != [] && before == events[..|events| - 1] && Holds(Table(before), id)
    ensures LastBirth(events, id) == LastBirth(before, id)
    ensures LastTouch(events, id) == if Refreshes(events[|events| - 1], id) then Some(|events| - 1)
            else LastTouch(before, id)
  {
    assert !Creates(events, |events| - 1, id);
  }

  lemma PassedCarries(events: seq<Event>, before: seq<Event>, k: Option<nat>, r: Row, r': Row)
    requires events != [] && before == events[..|events| - 1] && PassedSince(before, k, r)
    requires Aged(r, r', events[|events| - 1])
    ensures PassedSince(events, if Refreshes(events[|events| - 1], r.id) then Some(|events| - 1) else k, r')
  {
    assert events[|events| - 1 + 1..] == [];
    CountsSnoc(events, before, k.value, r.id);
  }

  lemma RefreshCarries(events: seq<Event>, before: seq<Event>, k: Option<nat>, r: Row, r': Row)
    requires events != [] && before == events[..|events| - 1] && RefreshedSince(before, k, r)
    requires Aged(r, r', events[|events| - 1])
    ensures RefreshedSince(events, k, r')
  {
    CountsSnoc(events, before, k.value, r.id);
  }

  lemma OldRowHistory(events: seq<Event>, before: seq<Event>, r: Row, r': Row)
    requires events != [] && before == events[..|events| - 1] && r in Table(before)
    requires Aged(r, r', events[|events| - 1]) && PassedIsHistory(before, r) && RefreshIsHistory(before, r)
    ensures PassedIsHistory(events, r') && RefreshIsHistory(events, r')
  {
    LastEvent(events, before, r.id);
    PassedCarries(events, before, LastTouch(before, r.id), r, r');
    RefreshCarries(events, before, LastBirth(before, r.id), r, r');
  }

  /** Over every run, a row's passed count is the number of commits since the one that last added,
      rewrote or cited it (or the rebuild that brought it in), and its refresh count is the number
      of commits that have rewritten or cited it since it came. Rebuilding and compressing change
      neither. */
  lemma {:induction false} CountersTellHistory(events: seq<Event>, r': Row)
    requires Legal(events) && r' in Table(events)
    ensures PassedIsHistory(events, r') && RefreshIsHistory(events, r')
    decreases |events|
  {
    var n := |events| - 1;
    var before, e := events[..n], events[n];
    LegalPrefix(events);
    EventDescends(Table(before), e, r');
    if r :| r in Table(before) && Aged(r, r', e) {
      CountersTellHistory(before, r);
      OldRowHistory(events, before, r, r');
    } else {
      NewRowHistory(events, r');
    }
  }

  /** The validator's mutations are of the kind the history is stated for. */
  lemma ProposalsAreProper(rows: seq<Row>, b: Batch, ids: seq<Id>, today: string)
    requires Distinct(TableIds(rows)) && IdsKnown(Render(rows), b) && FreshIds(Render(rows), b, ids)
    ensures Proper(rows, Proposal(Render(rows), b, ids, today).mutation)
  {
    SameIds(rows);
    ProposedMutation(Render(rows), b, ids, today);
    NoClash(rows, Proposal(Render(rows), b, ids, today).mutation.adds);
  }
}
