/** The memory store as the program runs it: a row table changed in place, the document on disk and
    the note files, and the commit that takes them from one state to the next. */
module MemoryRepositories {
  import opened Sequences
  import opened MemoryTable
  import opened MemoryValidator
  import opened MemoryCompression
  import opened MemoryCommit

  // ---------------------------------------------------------------- loops over statements

  lemma {:induction false} InsertSnoc(rows: seq<Row>, adds: seq<Add>, a: Add, now: int, today: string)
    ensures InsertAll(rows, adds + [a], now, today)
            == InsertAll(rows, adds, now, today) + [NewRow(a, now + |adds|, today)]
    decreases |adds|
  {
    if adds == [] {
      assert [] + [a] == [a] && [a][1..] == [];
    } else {
      assert (adds + [a])[1..] == adds[1..] + [a];
      InsertSnoc(rows + [NewRow(adds[0], now, today)], adds[1..], a, now + 1, today);
    }
  }

  lemma {:induction false} RewriteSnoc(rows: seq<Row>, rewrites: seq<Rewrite>, w: Rewrite, today: string)
    ensures RewriteAll(rows, rewrites + [w], today) == RewriteTable(RewriteAll(rows, rewrites, today), w, today)
    decreases |rewrites|
  {
    if rewrites == [] {
      assert [] + [w] == [w] && [w][1..] == [];
    } else {
      assert (rewrites + [w])[1..] == rewrites[1..] + [w];
      RewriteSnoc(RewriteTable(rows, rewrites[0], today), rewrites[1..], w, today);
    }
  }

  lemma {:induction false} DeleteMore(rows: seq<Row>, some: set<Id>, id: Id)
    ensures DeleteAll(DeleteAll(rows, some), {id}) == DeleteAll(rows, some + {id})
  {
    if rows != [] {
      DeleteMore(rows[1..], some, id);
      if rows[0].id in some {
        assert DeleteAll(rows, some) == DeleteAll(rows[1..], some);
      } else {
        assert DeleteAll(rows, some)[1..] == DeleteAll(rows[1..], some);
      }
    }
  }

  lemma {:induction false} DeleteNone(rows: seq<Row>)
    ensures DeleteAll(rows, {}) == rows
  {
    if rows != [] {
      DeleteNone(rows[1..]);
    }
  }

  lemma InsertedIds(rows: seq<Row>, adds: seq<Add>, now: int, today: string, id: Id)
    ensures (exists r :: r in InsertAll(rows, adds, now, today) && r.id == id)
            <==> (exists r :: r in rows && r.id == id) || (exists a :: a in adds && a.id == id)
    decreases |adds|
  {
    if adds != [] {
      var rows', rest := rows + [NewRow(adds[0], now, today)], adds[1..];
      InsertedIds(rows', rest, now + 1, today, id);
      assert adds == [adds[0]] + rest;
      if exists r :: r in rows && r.id == id {
        var r :| r in rows && r.id == id;
        assert r in rows';
      }
      if adds[0].id == id {
        assert rows'[|rows|] in rows' && rows'[|rows|].id == id;
      }
    }
  }

  /** The first insert that meets the primary key is the first that cannot be made. */
  lemma CanInsertSnoc(rows: seq<Row>, adds: seq<Add>, a: Add, now: int, today: string)
    ensures CanInsert(rows, adds + [a])
            <==> CanInsert(rows, adds) && !(exists r :: r in InsertAll(rows, adds, now, today) && r.id == a.id)
  {
    InsertedIds(rows, adds, now, today, a.id);
    var all := adds + [a];
    if CanInsert(rows, adds) && !(exists r :: r in InsertAll(rows, adds, now, today) && r.id == a.id) {
      forall i, j | 0 <= i < j < |all|
        ensures all[i].id != all[j].id
      {
        if j == |adds| {
          assert adds[i] in adds;
        }
      }
      assert forall j :: 0 <= j < |rows| ==> rows[j] in rows;
    }
    if CanInsert(rows, all) {
      assert all[|adds|] == a && forall i :: 0 <= i < |adds| ==> all[i] == adds[i];
    }
  }

  lemma CanInsertPrefix(rows: seq<Row>, adds: seq<Add>, k: nat)
    requires k <= |adds| && !CanInsert(rows, adds[..k])
    ensures !CanInsert(rows, adds)
  {
  }

  /** A compression that comes after the edits of `log`. */
  function Onward(log: seq<Action>, c: Compression): Compression {
    c.(log := log + c.log)
  }

  lemma PassUnfolds(rows: seq<Row>, doc: seq<Entry>, candidates: seq<Row>, target: nat, limits: Limits,
      log: seq<Action>)
    requires candidates != []
    ensures var all := Onward(log, RunPass(rows, doc, candidates, target, limits));
            var e := Planned(candidates[0]);
            if DocumentLength(doc) <= target then all == Compression(rows, doc, log, false)
            else if e.None? || !Effective(rows, e.value) then
              all == Onward(log, RunPass(rows, doc, candidates[1..], target, limits))
            else
              var rows' := Apply(rows, e.value);
              if !DocumentOk(Render(rows'), limits) then all == Compression(rows', doc, log + [e.value], true)
              else all == Onward(log + [e.value], RunPass(rows', Render(rows'), candidates[1..], target, limits))
  {
    var e := Planned(candidates[0]);
    if DocumentLength(doc) > target && e.Some? && Effective(rows, e.value) {
      var rest := RunPass(Apply(rows, e.value), Render(Apply(rows, e.value)), candidates[1..], target, limits);
      assert log + ([e.value] + rest.log) == (log + [e.value]) + rest.log;
    }
  }

  lemma RoundsUnfold(rows: seq<Row>, doc: seq<Entry>, target: nat, limits: Limits, log: seq<Action>)
    requires DocumentLength(doc) > target
    ensures var all := Onward(log, Rounds(rows, doc, target, limits));
            var pass := RunPass(rows, doc, Candidates(rows), target, limits);
            if pass.aborted || pass.log == [] then all == Onward(log, pass)
            else all == Onward(log + pass.log, Rounds(pass.rows, pass.document, target, limits))
  {
    var pass := RunPass(rows, doc, Candidates(rows), target, limits);
    if !pass.aborted && pass.log != [] {
      Regroup(log, pass.log, Rounds(pass.rows, pass.document, target, limits).log);
    }
  }

  class MemoryRepository {
    var rows: seq<Row>
    var document: seq<Entry>
    var notes: set<string>

    ghost function State(): Memory
      reads this
    {
      Memory(rows, document, notes)
    }

    // -------------------------------------------------------------- the table

    /** Whether an INSERT was possible; on a primary key clash the transaction is rolled back. */
    method InsertRows(adds: seq<Add>, now: int, today: string) returns (ok: bool)
      modifies `rows
      ensures ok <==> CanInsert(old(rows), adds)
      ensures rows == if ok then InsertAll(old(rows), adds, now, today) else old(rows)
    {
      ghost var before := rows;
      var table := rows;
      for i := 0 to |adds|
        invariant rows == before && CanInsert(before, adds[..i]) && table == InsertAll(before, adds[..i], now, today)
      {
        assert adds[..i + 1] == adds[..i] + [adds[i]];
        CanInsertSnoc(before, adds[..i], adds[i], now, today);
        InsertSnoc(before, adds[..i], adds[i], now, today);
        if exists r :: r in table && r.id == adds[i].id {
          CanInsertPrefix(before, adds, i + 1);
          return false;
        }
        table := table + [NewRow(adds[i], now + i, today)];
      }
      assert adds[..|adds|] == adds;
      rows, ok := table, true;
    }

    method UpdateRows(rewrites: seq<Rewrite>, today: string)
      modifies `rows
      ensures rows == RewriteAll(old(rows), rewrites, today)
    {
      for i := 0 to |rewrites|
        invariant rows == RewriteAll(old(rows), rewrites[..i], today)
      {
        assert rewrites[..i + 1] == rewrites[..i] + [rewrites[i]];
        RewriteSnoc(old(rows), rewrites[..i], rewrites[i], today);
        rows := RewriteTable(rows, rewrites[i], today);
      }
      assert rewrites[..|rewrites|] == rewrites;
    }

    method DeleteRows(ids: set<Id>)
      modifies `rows
      ensures rows == DeleteAll(old(rows), ids)
    {
      var left := ids;
      DeleteNone(rows);
      assert ids - ids == {};
      while left != {}
        invariant left <= ids && rows == DeleteAll(old(rows), ids - left)
        decreases left
      {
        var id :| id in left;
        DeleteMore(old(rows), ids - left, id);
        assert (ids - left) + {id} == ids - (left - {id});
        rows := DeleteAll(rows, {id});
        left := left - {id};
      }
      assert ids - left == ids;
    }

    method ApplyMutation(m: Mutation, now: int, today: string) returns (ok: bool)
      modifies `rows
      ensures ok <==> CanInsert(old(rows), m.adds)
      ensures rows == if ok then Mutate(old(rows), m, now, today) else old(rows)
    {
      var rewriteIds := RewriteIds(m.rewrites);
      var refreshed := m.cited + rewriteIds;
      ok := InsertRows(m.adds, now, today);
      if !ok {
        return;
      }
      UpdateRows(m.rewrites, today);
      DeleteRows(m.deletes);
      rows := RefreshTable(rows, refreshed - rewriteIds - m.deletes);
      rows := PassTable(rows, refreshed + m.deletes + AddIds(m.adds));
    }

    method ReplaceAllFromDocument(doc: seq<Entry>, now: int)
      modifies `rows
      ensures rows == ReplaceAll(old(rows), doc, now)
    {
      var existing := rows;
      var table: seq<Row> := [];
      for i := 0 to |doc|
        invariant rows == existing && table == ReplaceAll(existing, doc, now)[..i]
      {
        table := table + [RowFromEntry(existing, doc[i], now + i)];
      }
      rows := table;
    }

    method MarkCompressed(id: Id) returns (changed: bool)
      modifies `rows
      ensures changed == Effective(old(rows), Compress(id))
      ensures rows == if changed then Apply(old(rows), Compress(id)) else old(rows)
    {
      changed := Effective(rows, Compress(id));
      if changed {
        rows := CompressRow(rows, id);
      }
    }

    method DeleteMemory(id: Id) returns (changed: bool)
      modifies `rows
      ensures changed == Effective(old(rows), Remove(id))
      ensures rows == if changed then Apply(old(rows), Remove(id)) else old(rows)
    {
      changed := Effective(rows, Remove(id));
      if changed {
        rows := DeleteAll(rows, {id});
      }
    }

    // -------------------------------------------------------------- the document and the notes

    method SyncFromSnapshot(now: int)
      modifies `rows
      ensures rows == Synced(old(rows), document, now)
    {
      if Render(rows) != document {
        ReplaceAllFromDocument(document, now);
      }
    }

    method Rebuild(limits: Limits) returns (ok: bool)
      modifies `document
      ensures ok <==> DocumentOk(Render(rows), limits)
      ensures document == if ok then Render(rows) else old(document)
    {
      var doc := Render(rows);
      ok := DocumentOk(doc, limits);
      if ok {
        document := doc;
      }
    }

    method CleanupOrphanNotes()
      modifies `notes
      ensures notes == old(notes) * DocumentRefs(document)
    {
      var active := set e, p | e in document && p in e.summary && p.NoteRef? :: p.name;
      assert active == DocumentRefs(document) by {
        forall n | n in DocumentRefs(document)
          ensures n in active
        {
          var e :| e in document && n in RefsOf(e.summary);
          var p :| p in e.summary && p.NoteRef? && p.name == n;
        }
        forall n | n in active
          ensures n in DocumentRefs(document)
        {
          var e, p :| e in document && p in e.summary && p.NoteRef? && p.name == n;
          assert n in RefsOf(e.summary);
        }
      }
      notes := notes * active;
    }

    // -------------------------------------------------------------- compression

    /** One pass over the candidates read when it starts. */
    method CompressionPass(target: nat, limits: Limits) returns (log: seq<Action>, aborted: bool)
      modifies `rows, `document
      ensures Compression(rows, document, log, aborted)
              == RunPass(old(rows), old(document), Candidates(old(rows)), target, limits)
    {
      var candidates := Candidates(rows);
      ghost var whole := RunPass(rows, document, candidates, target, limits);
      log, aborted := [], false;
      for i := 0 to |candidates|
        invariant !aborted
        invariant Onward(log, RunPass(rows, document, candidates[i..], target, limits)) == whole
      {
        var c := candidates[i];
        assert candidates[i..][0] == c && candidates[i..][1..] == candidates[i + 1..];
        PassUnfolds(rows, document, candidates[i..], target, limits, log);
        if DocumentLength(document) <= target {
          return;
        }
        var changed := false;
        if !c.compressed {
          changed := MarkCompressed(c.id);
        } else if !FromUser(c) {
          changed := DeleteMemory(c.id);
        }
        if changed {
          log := log + [if c.compressed then Remove(c.id) else Compress(c.id)];
          var ok := Rebuild(limits);
          if !ok {
            aborted := true;
            return;
          }
        }
      }
      assert candidates[|candidates|..] == [];
    }

    method CompressSnapshot(budget: Budget, limits: Limits) returns (log: seq<Action>, aborted: bool)
      modifies `rows, `document
      ensures Compression(rows, document, log, aborted) == CompressIfNeeded(old(rows), old(document), budget, limits)
    {
      var target := TargetLength(budget);
      log, aborted := [], false;
      if DocumentLength(document) <= TriggerLength(budget) {
        return;
      }
      ghost var whole := Rounds(rows, document, target, limits);
      while DocumentLength(document) > target
        invariant !aborted
        invariant Onward(log, Rounds(rows, document, target, limits)) == whole
        decreases Weight(rows)
      {
        RoundsUnfold(rows, document, target, limits, log);
        var pass;
        pass, aborted := CompressionPass(target, limits);
        log := log + pass;
        if aborted || pass == [] {
          return;
        }
      }
    }

    // -------------------------------------------------------------- the commit

    method CommitValidatedWrite(v: Validated, now: int, today: string, settings: Settings)
      returns (ok: bool, log: seq<Action>)
      modifies this
      ensures var o := Commit(old(State()), v, now, today, settings);
              State() == o.memory && ok == o.Committed? && (ok ==> log == o.log)
    {
      var current := document;
      log := [];
      notes := notes + v.upserts;
      SyncFromSnapshot(now);
      if Structured(v.mutation) {
        ok := ApplyMutation(v.mutation, now, today);
        if !ok {
          return;
        }
      } else if v.document != current {
        ReplaceAllFromDocument(v.document, now);
      }
      ok := Rebuild(settings.limits);
      if !ok {
        return;
      }
      CleanupOrphanNotes();
      var aborted;
      log, aborted := CompressSnapshot(settings.budget, settings.limits);
      if aborted {
        return false, log;
      }
      CleanupOrphanNotes();
    }
  }
}
