/** One commit of a validated write: note files, table, rebuilt document, compression, clean-up. */
module MemoryCommit {
  import opened Sequences
  import opened MemoryTable
  import opened MemoryValidator
  import opened MemoryEdits
  import opened MemoryAgreement
  import opened MemoryCompression
  import opened MemoryRefusal

  /** The table, the document on disk, and the names of the note files. */
  datatype Memory = Memory(rows: seq<Row>, document: seq<Entry>, notes: set<string>)

  /** Where a commit ends: done, or an error with whatever was already written. */
  datatype Outcome = Committed(memory: Memory, log: seq<Action>) | Refused(memory: Memory)

  datatype Settings = Settings(limits: Limits, budget: Budget)

  predicate Structured(m: Mutation) {
    m.adds != [] || m.rewrites != [] || m.deletes != {} || m.cited != {}
  }

  /** The table as the snapshot has it. */
  function Synced(rows: seq<Row>, document: seq<Entry>, now: int): seq<Row> {
    if Render(rows) == document then rows else ReplaceAll(rows, document, now)
  }

  ghost function Finish(rows: seq<Row>, document: seq<Entry>, notes: set<string>, settings: Settings): Outcome {
    if !DocumentOk(Render(rows), settings.limits) then Refused(Memory(rows, document, notes))
    else
      var notes' := notes * DocumentRefs(Render(rows));
      var c := CompressIfNeeded(rows, Render(rows), settings.budget, settings.limits);
      if c.aborted then Refused(Memory(c.rows, c.document, notes'))
      else Committed(Memory(c.rows, c.document, notes' * DocumentRefs(c.document)), c.log)
  }

  ghost function Commit(s: Memory, v: Validated, now: int, today: string, settings: Settings): Outcome {
    var rows := Synced(s.rows, s.document, now);
    var notes := s.notes + v.upserts;
    if Structured(v.mutation) then
      if !CanInsert(rows, v.mutation.adds) then Refused(Memory(rows, s.document, notes))
      else Finish(Mutate(rows, v.mutation, now, today), s.document, notes, settings)
    else if v.document != s.document then Finish(ReplaceAll(rows, v.document, now), s.document, notes, settings)
    else Finish(rows, s.document, notes, settings)
  }

  // ---------------------------------------------------------------- references of a table

  ghost function TableRefs(rows: seq<Row>): set<string> {
    set r | r in rows && RowRef(r).Some? :: RowRef(r).value
  }

  lemma RenderRefs(rows: seq<Row>)
    ensures DocumentRefs(Render(rows)) == TableRefs(rows)
  {
    var doc := Render(rows);
    forall n | n in DocumentRefs(doc)
      ensures n in TableRefs(rows)
    {
      var e :| e in doc && n in RefsOf(e.summary);
      var i :| 0 <= i < |doc| && doc[i] == e;
      RenderedRefs(rows[i]);
      assert rows[i] in rows;
    }
    forall n | n in TableRefs(rows)
      ensures n in DocumentRefs(doc)
    {
      var r :| r in rows && RowRef(r) == Some(n);
      var i :| 0 <= i < |rows| && rows[i] == r;
      RenderedRefs(r);
      assert doc[i] in doc && doc[i] == Rendered(r);
    }
  }

  lemma SurvivorRefs(rows: seq<Row>, rows': seq<Row>)
    requires forall r :: r in rows' ==> Survives(rows, r)
    ensures TableRefs(rows') <= TableRefs(rows)
  {
    forall r | r in rows' && RowRef(r).Some?
      ensures RowRef(r).value in TableRefs(rows)
    {
      assert Survives(rows, r);
      var q :| q in rows && r == q.(compressed := r.compressed) && (q.compressed ==> r.compressed);
      assert RowRef(q) == RowRef(r);
    }
  }

  lemma {:induction false} PassKeepsRefs(rows: seq<Row>, candidates: seq<Row>, target: nat, limits: Limits)
    ensures var c := RunPass(rows, Render(rows), candidates, target, limits);
            && TableRefs(c.rows) <= TableRefs(rows) && DocumentRefs(c.document) <= TableRefs(rows)
            && (!c.aborted ==> c.document == Render(c.rows))
    decreases |candidates|
  {
    RenderRefs(rows);
    if candidates != [] && DocumentLength(Render(rows)) > target {
      var e := Planned(candidates[0]);
      if e.None? || !Effective(rows, e.value) {
        PassKeepsRefs(rows, candidates[1..], target, limits);
      } else {
        ApplySurvives(rows, e.value);
        SurvivorRefs(rows, Apply(rows, e.value));
        PassKeepsRefs(Apply(rows, e.value), candidates[1..], target, limits);
      }
    }
  }

  lemma {:induction false} RoundsKeepRefs(rows: seq<Row>, target: nat, limits: Limits)
    ensures var c := Rounds(rows, Render(rows), target, limits);
            DocumentRefs(c.document) <= TableRefs(rows) && (!c.aborted ==> c.document == Render(c.rows))
    decreases Weight(rows)
  {
    RenderRefs(rows);
    if DocumentLength(Render(rows)) > target {
      PassKeepsRefs(rows, Candidates(rows), target, limits);
      var pass := RunPass(rows, Render(rows), Candidates(rows), target, limits);
      if !pass.aborted && pass.log != [] {
        RoundsKeepRefs(pass.rows, target, limits);
      }
    }
  }

  /** After the mutation: the note files are the references of the final document exactly when
      every one of those has a file before clean-up. */
  lemma FinishMatches(rows: seq<Row>, document: seq<Entry>, notes: set<string>, settings: Settings)
    ensures var o := Finish(rows, document, notes, settings);
            && (o.Committed? ==>
                  && o.memory.document == Render(o.memory.rows)
                  && DocumentRefs(o.memory.document) <= TableRefs(rows)
                  && (o.memory.notes == DocumentRefs(o.memory.document) <==> DocumentRefs(o.memory.document) <= notes))
            && (o.Refused? && DocumentRefs(document) <= notes && TableRefs(rows) <= notes ==>
                  DocumentRefs(o.memory.document) <= o.memory.notes)
  {
    RenderRefs(rows);
    RoundsKeepRefs(rows, TargetLength(settings.budget), settings.limits);
    var refs := DocumentRefs(CompressIfNeeded(rows, Render(rows), settings.budget, settings.limits).document);
    assert refs <= TableRefs(rows);
    assert (notes * TableRefs(rows)) * refs == notes * refs;
    assert notes * refs == refs <==> refs <= notes;
  }

  // ---------------------------------------------------------------- references of the mutated table

  lemma {:induction false} EditedMembers(rows: seq<Row>, rewrites: seq<Rewrite>, deletes: set<Id>, today: string)
    ensures forall r :: r in EditedRows(rows, rewrites, deletes, today)
              <==> exists q :: q in rows && q.id !in deletes && r == Edit(q, rewrites, today)
  {
    if rows != [] {
      assert rows == [rows[0]] + rows[1..];
      EditedMembers(rows[1..], rewrites, deletes, today);
    }
  }

  /** The document and the table hold the same ids with the same references. */
  ghost predicate InStep(rows: seq<Row>, document: seq<Entry>) {
    && |rows| == |document|
    && forall i :: 0 <= i < |rows| ==> rows[i].id == document[i].id && RowRef(rows[i]) == FirstRef(document[i].summary)
  }

  lemma SyncedInStep(rows: seq<Row>, document: seq<Entry>, now: int)
    ensures InStep(Synced(rows, document, now), document)
  {
    var rows' := Synced(rows, document, now);
    forall i | 0 <= i < |rows'|
      ensures rows'[i].id == document[i].id && RowRef(rows'[i]) == FirstRef(document[i].summary)
    {
      if Render(rows) == document {
        RenderedRefs(rows[i]);
        assert document[i] == Rendered(rows[i]);
      }
    }
  }

  lemma {:induction false} KeptAreUpdated(before: seq<Entry>, b: Batch, today: string, seen: set<Key>, id: Id)
    requires id in EntryIds(Keep(before, b, today, seen).entries)
    ensures exists e: Entry :: e.id == id && Updated(e, b.rewrites, today) in Keep(before, b, today, seen).entries
    decreases |before|
  {
    var u := Updated(before[0], b.rewrites, today);
    if before[0].id in b.deletes || KeyOf(u) in seen {
      KeptAreUpdated(before[1..], b, today, seen, id);
    } else {
      var rest := Keep(before[1..], b, today, seen + {KeyOf(u)}).entries;
      EntryCons(u, rest);
      var kept := Keep(before, b, today, seen).entries;
      assert kept == [u] + rest && kept[0] == u;
      if id == u.id {
        assert Updated(before[0], b.rewrites, today) in kept;
      } else {
        KeptAreUpdated(before[1..], b, today, seen + {KeyOf(u)}, id);
        var e: Entry :| e.id == id && Updated(e, b.rewrites, today) in rest;
        assert Updated(e, b.rewrites, today) in kept;
      }
    }
  }

  lemma {:induction false} RememberedIsAMinimalRef(rewrites: seq<Rewrite>, id: Id)
    ensures RememberedRef(rewrites, id).Some? ==>
              exists i :: 0 <= i < |rewrites| && FirstRef(rewrites[i].minimal) == RememberedRef(rewrites, id)
  {
    if rewrites != [] {
      RememberedIsAMinimalRef(rewrites[1..], id);
      if RememberedRef(rewrites[1..], id).Some? {
        var i :| 0 <= i < |rewrites[1..]| && FirstRef(rewrites[1..][i].minimal) == RememberedRef(rewrites[1..], id);
        assert rewrites[i + 1] == rewrites[1..][i];
      } else if rewrites[0].id == id {
        assert FirstRef(rewrites[0].minimal) == RememberedRef(rewrites, id);
      }
    }
  }

  /** The rewrite's row will carry a reference whose note the batch did not have to name. */
  ghost predicate Unchecked(b: Batch, w: Rewrite, available: set<string>) {
    StaleRef(b.rewrites, w.id) && !(RefSet(FirstRef(w.content)) <= available)
  }

  lemma RewriteGrounded(before: seq<Entry>, b: Batch, ids: seq<Id>, today: string, notes: set<string>, id: Id)
    requires |ids| >= |b.adds| && id in EntryIds(Keep(before, b, today, {}).entries)
             && LastRewrite(b.rewrites, id).Some?
    requires NotesPresent(Proposal(before, b, ids, today).document, b, notes)
    ensures var w := LastRewrite(b.rewrites, id).value;
            RefSet(TableRef(w)) <= notes + b.upserts <==> !Unchecked(b, w, notes + b.upserts)
  {
    var w := LastRewrite(b.rewrites, id).value;
    LastRewriteFinds(b.rewrites, id);
    RememberedIsAMinimalRef(b.rewrites, id);
    var i :| 0 <= i < |b.rewrites| && b.rewrites[i] == w;
    assert RefSet(FirstRef(b.rewrites[i].minimal)) <= notes + b.upserts;
    KeptAreUpdated(before, b, today, {}, id);
    var doc, kept := Proposal(before, b, ids, today).document, Keep(before, b, today, {}).entries;
    var e: Entry :| e.id == id && Updated(e, b.rewrites, today) in kept;
    var k := Updated(e, b.rewrites, today);
    var j :| 0 <= j < |kept| && kept[j] == k;
    assert doc[j] == k;
    WithRefRefs(w.content, OrElse(RememberedRef(b.rewrites, id), FirstRef(w.content)));
  }

  lemma AddGrounded(before: seq<Entry>, b: Batch, ids: seq<Id>, now: int, today: string, notes: set<string>, i: nat)
    requires IdsKnown(before, b) && FreshIds(before, b, ids)
    requires NotesPresent(Proposal(before, b, ids, today).document, b, notes)
    requires i < |Proposal(before, b, ids, today).mutation.adds|
    ensures var a := Proposal(before, b, ids, today).mutation.adds[i];
            RefSet(RowRef(NewRow(a, now, today))) <= notes + b.upserts
  {
    var kept := Keep(before, b, today, {});
    var (entries, adds) := TakeAdds(b.adds, ids, today, kept.seen);
    TakenAdds(b.adds, ids, today, kept.seen);
    var doc := Proposal(before, b, ids, today).document;
    assert doc[|kept.entries| + i] == entries[i];
    WithRefRefs(adds[i].content, FirstRef(adds[i].minimal));
  }

  /** A note the batch did not have to name is missing for a rewrite that takes effect. */
  ghost predicate Dangling(b: Batch, m: Mutation, available: set<string>, id: Id) {
    exists w :: w in m.rewrites && w.id == id && Unchecked(b, w, available)
  }

  lemma OldRowGrounded(rows: seq<Row>, before: seq<Entry>, b: Batch, ids: seq<Id>, today: string, notes: set<string>,
      i: nat)
    requires InStep(rows, before) && IdsKnown(before, b) && FreshIds(before, b, ids) && DocumentRefs(before) <= notes
    requires NotesPresent(Proposal(before, b, ids, today).document, b, notes)
    requires i < |rows| && rows[i].id !in Proposal(before, b, ids, today).mutation.deletes
    ensures var m := Proposal(before, b, ids, today).mutation;
            RefSet(RowRef(Edit(rows[i], m.rewrites, today))) <= notes + b.upserts
            <==> !Dangling(b, m, notes + b.upserts, rows[i].id)
  {
    var q, m := rows[i], Proposal(before, b, ids, today).mutation;
    assert EntryIds(before)[i] == q.id;
    DeletesAreTheRest(before, b, ids, today);
    KeptIds(before, b, today, {});
    KeptRewrites(before, b, today, {}, q.id);
    LastRewriteFinds(m.rewrites, q.id);
    OneRewritePerId(m.rewrites, q.id);
    if LastRewrite(b.rewrites, q.id).Some? {
      RewriteGrounded(before, b, ids, today, notes, q.id);
    } else {
      FirstRefFinds(before[i].summary);
      assert before[i] in before;
    }
  }

  lemma {:induction false} OneRewritePerId(rewrites: seq<Rewrite>, id: Id)
    requires OnePerId(rewrites)
    ensures forall w :: w in rewrites && w.id == id ==> LastRewrite(rewrites, id) == Some(w)
  {
    if rewrites != [] {
      var rest := rewrites[1..];
      assert rewrites == [rewrites[0]] + rest;
      OneRewritePerId(rest, id);
      LastRewriteFinds(rest, id);
    }
  }

  lemma EditedRowGrounded(rows: seq<Row>, before: seq<Entry>, b: Batch, ids: seq<Id>, today: string, notes: set<string>,
      r: Row)
    requires InStep(rows, before) && IdsKnown(before, b) && FreshIds(before, b, ids) && DocumentRefs(before) <= notes
    requires NotesPresent(Proposal(before, b, ids, today).document, b, notes)
    requires var m := Proposal(before, b, ids, today).mutation; r in EditedRows(rows, m.rewrites, m.deletes, today)
    ensures RefSet(RowRef(r)) <= notes + b.upserts
            <==> !Dangling(b, Proposal(before, b, ids, today).mutation, notes + b.upserts, r.id)
  {
    var m := Proposal(before, b, ids, today).mutation;
    EditedMembers(rows, m.rewrites, m.deletes, today);
    var q :| q in rows && q.id !in m.deletes && r == Edit(q, m.rewrites, today);
    var k :| 0 <= k < |rows| && rows[k] == q;
    OldRowGrounded(rows, before, b, ids, today, notes, k);
    LastRewriteFinds(m.rewrites, q.id);
  }

  lemma AddedRowGrounded(before: seq<Entry>, b: Batch, ids: seq<Id>, now: int, today: string, notes: set<string>,
      i: nat)
    requires IdsKnown(before, b) && FreshIds(before, b, ids)
    requires NotesPresent(Proposal(before, b, ids, today).document, b, notes)
    requires i < |Proposal(before, b, ids, today).mutation.adds|
    ensures var m := Proposal(before, b, ids, today).mutation;
            var r := NewRow(m.adds[i], now, today);
            RefSet(RowRef(r)) <= notes + b.upserts && !Dangling(b, m, notes + b.upserts, r.id)
  {
    var m := Proposal(before, b, ids, today).mutation;
    ProposedMutation(before, b, ids, today);
    AddGrounded(before, b, ids, now, today, notes, i);
    OneRewritePerId(m.rewrites, m.adds[i].id);
    assert m.adds[i] in m.adds;
  }

  lemma SameRef(r: Row, q: Row)
    requires r == q.(refreshCount := r.refreshCount, passedCount := r.passedCount)
    ensures RowRef(r) == RowRef(q) && r.id == q.id
  {
  }

  /** Every row of the mutated table has its note, except those left dangling. */
  lemma MutatedRowGrounded(rows: seq<Row>, before: seq<Entry>, b: Batch, ids: seq<Id>, now: int, today: string,
      notes: set<string>, i: nat)
    requires InStep(rows, before) && IdsKnown(before, b) && FreshIds(before, b, ids) && DocumentRefs(before) <= notes
    requires NotesPresent(Proposal(before, b, ids, today).document, b, notes)
    requires i < |Mutate(rows, Proposal(before, b, ids, today).mutation, now, today)|
    ensures var m := Proposal(before, b, ids, today).mutation;
            var r := Mutate(rows, m, now, today)[i];
            RefSet(RowRef(r)) <= notes + b.upserts <==> !Dangling(b, m, notes + b.upserts, r.id)
  {
    var m := Proposal(before, b, ids, today).mutation;
    ProposedMutation(before, b, ids, today);
    MutateEdits(rows, m, now, today);
    var edited, added := EditedRows(rows, m.rewrites, m.deletes, today), NewRows(m.adds, now, today);
    var q := (edited + added)[i];
    SameRef(Mutate(rows, m, now, today)[i], q);
    if i < |edited| {
      assert q in edited;
      EditedRowGrounded(rows, before, b, ids, today, notes, q);
    } else {
      var j := i - |edited|;
      NewRowsMirrorAdds(m.adds, now, today);
      AddedRowGrounded(before, b, ids, now + j, today, notes, j);
    }
  }

  ghost predicate Grounded(r: Row, available: set<string>) {
    RefSet(RowRef(r)) <= available
  }

  lemma GroundedRefs(rows: seq<Row>, available: set<string>)
    ensures TableRefs(rows) <= available <==> forall r :: r in rows ==> Grounded(r, available)
  {
    if TableRefs(rows) <= available {
      forall r | r in rows
        ensures Grounded(r, available)
      {
        assert RowRef(r).Some? ==> RowRef(r).value in TableRefs(rows);
      }
    }
  }

  /** The rows a finished commit leaves are rows of the mutated table. */
  lemma FinishSurvives(rows: seq<Row>, document: seq<Entry>, notes: set<string>, settings: Settings)
    requires Finish(rows, document, notes, settings).Committed?
    ensures forall r :: r in Finish(rows, document, notes, settings).memory.rows ==> Survives(rows, r)
  {
    AcceptableRows(rows, settings.limits);
    CompressionIsLegalAndEnds(rows, settings.budget, settings.limits);
    LogSurvives(rows, CompressIfNeeded(rows, Render(rows), settings.budget, settings.limits).log);
  }
}
