/** Applying the validator's effective adds, rewrites and deletes to the table gives the validated
    document, entry by entry; the two exceptions are named exactly. */
module MemoryAgreement {
  import opened Sequences
  import opened MemoryTable
  import opened MemoryValidator
  import opened MemoryEdits

  // ---------------------------------------------------------------- agreement

  /** The entry's summary in the rebuilt document differs from the validated one. */
  ghost predicate Discrepant(b: Batch, adds: seq<Add>, e: Entry) {
    StaleRef(b.rewrites, e.id) || exists a :: a in adds && a.id == e.id && LooseRef(a)
  }

  lemma ProposedMutation(before: seq<Entry>, b: Batch, ids: seq<Id>, today: string)
    requires IdsKnown(before, b) && FreshIds(before, b, ids)
    ensures var m := Proposal(before, b, ids, today).mutation;
            && OnePerId(m.rewrites)
            && (forall a :: a in m.adds ==>
                 a.id in ids && a.id !in EntryIds(before) && a.id !in m.deletes && LastRewrite(m.rewrites, a.id).None?)
            && (forall i, j :: 0 <= i < j < |m.adds| ==> m.adds[i].id != m.adds[j].id)
  {
    var kept := Keep(before, b, today, {});
    KeptIds(before, b, today, {});
    TakenAdds(b.adds, ids, today, kept.seen);
    forall a | a in Proposal(before, b, ids, today).mutation.adds
      ensures a.id !in EntryIds(before) && LastRewrite(kept.rewrites, a.id).None?
    {
      KeptRewrites(before, b, today, {}, a.id);
    }
  }

  /** The deleted ids are exactly the old ids that no kept entry carries: requested deletes, also of
      ids that were to be rewritten, and entries dropped because (source, summary) came twice. */
  lemma DeletesAreTheRest(before: seq<Entry>, b: Batch, ids: seq<Id>, today: string)
    requires IdsKnown(before, b) && FreshIds(before, b, ids)
    ensures var m := Proposal(before, b, ids, today).mutation;
            && b.deletes <= m.deletes
            && (forall id :: id in EntryIds(before) ==>
                  (id in m.deletes <==> id !in EntryIds(Keep(before, b, today, {}).entries)))
            && (forall i :: 0 <= i < |m.rewrites| ==> m.rewrites[i].id !in m.deletes)
  {
    var kept := Keep(before, b, today, {});
    var (entries, adds) := TakeAdds(b.adds, ids, today, kept.seen);
    KeptIds(before, b, today, {});
    TakenAdds(b.adds, ids, today, kept.seen);
    assert EntryIds(kept.entries + entries) == EntryIds(kept.entries) + EntryIds(entries);
    forall id | id in EntryIds(entries)
      ensures id !in EntryIds(before)
    {
      var i :| 0 <= i < |entries| && entries[i].id == id;
      assert adds[i].id in ids;
    }
  }

  /** The rows made from adds and the entries the validator made from them. */
  ghost predicate NewStand(added: seq<Row>, entries: seq<Entry>, adds: seq<Add>) {
    && |added| == |adds| == |entries|
    && forall i :: 0 <= i < |adds| ==>
          && added[i].id == adds[i].id == entries[i].id
          && added[i].source == entries[i].source && added[i].date == entries[i].date
          && (Rendered(added[i]) == entries[i] <==> !LooseRef(adds[i]))
  }

  lemma AddedRowsStand(adds: seq<Add>, entries: seq<Entry>, now: int, today: string)
    requires |entries| == |adds|
    requires forall i :: 0 <= i < |adds| ==>
               entries[i] == Entry(adds[i].id, today, adds[i].source,
                 WithRef(adds[i].content, FirstRef(adds[i].minimal)))
    ensures NewStand(NewRows(adds, now, today), entries, adds)
  {
    NewRowsMirrorAdds(adds, now, today);
    forall i | 0 <= i < |adds|
      ensures Rendered(NewRow(adds[i], now + i, today)) == entries[i] <==> !LooseRef(adds[i])
    {
      AddedAgrees(AddRequest(adds[i].content, adds[i].minimal, adds[i].source), adds[i].id, now + i, today);
    }
  }

  /** A row of the mutated table against the entry of the validated document at its place. */
  ghost predicate RowAgrees(r: Row, e: Entry, b: Batch, adds: seq<Add>) {
    && r.id == e.id && r.source == e.source && r.date == e.date
    && (Rendered(r) == e <==> !Discrepant(b, adds, e))
  }

  lemma ProposalCarries(rows: seq<Row>, b: Batch, ids: seq<Id>, today: string)
    requires Distinct(TableIds(rows)) && IdsKnown(Render(rows), b) && FreshIds(Render(rows), b, ids)
    ensures var m := Proposal(Render(rows), b, ids, today).mutation;
            Carries(rows, EntryIds(Keep(Render(rows), b, today, {}).entries), b.rewrites, m.rewrites, m.deletes)
  {
    SameIds(rows);
    DeletesAreTheRest(Render(rows), b, ids, today);
    forall i | 0 <= i < |rows|
      ensures var kept := Keep(Render(rows), b, today, {});
              rows[i].id in EntryIds(kept.entries) ==>
                LastRewrite(kept.rewrites, rows[i].id) == LastRewrite(b.rewrites, rows[i].id)
    {
      KeptRewrites(Render(rows), b, today, {}, rows[i].id);
    }
  }

  lemma AddIsNoRewrite(b: Batch, adds: seq<Add>, before: seq<Entry>, i: nat)
    requires IdsKnown(before, b) && i < |adds| && adds[i].id !in EntryIds(before)
    requires forall k, j :: 0 <= k < j < |adds| ==> adds[k].id != adds[j].id
    ensures !StaleRef(b.rewrites, adds[i].id)
    ensures (exists a :: a in adds && a.id == adds[i].id && LooseRef(a)) <==> LooseRef(adds[i])
  {
    LastRewriteFinds(b.rewrites, adds[i].id);
    assert adds[i] in adds;
  }

  ghost predicate AllAgree(rows: seq<Row>, doc: seq<Entry>, b: Batch, adds: seq<Add>) {
    |rows| == |doc| && forall i :: 0 <= i < |rows| ==> RowAgrees(rows[i], doc[i], b, adds)
  }

  lemma KeptPart(edited: seq<Row>, kept: seq<Entry>, before: seq<Entry>, b: Batch, adds: seq<Add>)
    requires AllStand(edited, kept, b.rewrites)
    requires forall a :: a in adds ==> a.id !in EntryIds(before)
    requires forall id :: id in EntryIds(kept) ==> id in EntryIds(before)
    ensures AllAgree(edited, kept, b, adds)
  {
    forall i | 0 <= i < |edited|
      ensures RowAgrees(edited[i], kept[i], b, adds)
    {
      assert EntryIds(kept)[i] == kept[i].id;
    }
  }

  lemma NewPart(added: seq<Row>, entries: seq<Entry>, before: seq<Entry>, b: Batch, adds: seq<Add>)
    requires NewStand(added, entries, adds) && IdsKnown(before, b)
    requires forall a :: a in adds ==> a.id !in EntryIds(before)
    requires forall i, j :: 0 <= i < j < |adds| ==> adds[i].id != adds[j].id
    ensures AllAgree(added, entries, b, adds)
  {
    forall i | 0 <= i < |added|
      ensures RowAgrees(added[i], entries[i], b, adds)
    {
      assert adds[i] in adds;
      AddIsNoRewrite(b, adds, before, i);
    }
  }

  /** Agreement joins, and counters do not matter to it. */
  lemma Assembled(edited: seq<Row>, added: seq<Row>, rows: seq<Row>, kept: seq<Entry>, entries: seq<Entry>, b: Batch,
      adds: seq<Add>)
    requires AllAgree(edited, kept, b, adds) && AllAgree(added, entries, b, adds) && SameTexts(edited + added, rows)
    ensures AllAgree(rows, kept + entries, b, adds)
  {
    forall i | 0 <= i < |rows|
      ensures RowAgrees(rows[i], (kept + entries)[i], b, adds)
    {
      var r, e := (edited + added)[i], (kept + entries)[i];
      assert RowAgrees(r, e, b, adds) by {
        if i < |edited| {
          assert RowAgrees(edited[i], kept[i], b, adds);
        } else {
          assert RowAgrees(added[i - |edited|], entries[i - |edited|], b, adds);
        }
      }
    }
  }

  lemma NoClash(rows: seq<Row>, adds: seq<Add>)
    requires forall a :: a in adds ==> a.id !in TableIds(rows)
    requires forall i, j :: 0 <= i < j < |adds| ==> adds[i].id != adds[j].id
    ensures CanInsert(rows, adds)
  {
    forall i, j | 0 <= i < |adds| && 0 <= j < |rows|
      ensures adds[i].id != rows[j].id
    {
      assert adds[i] in adds && TableIds(rows)[j] == rows[j].id;
    }
  }

  /** Validator and mutation agree. From a synced snapshot the effective adds, rewrites and deletes
      bring the table to exactly the ids, sources and dates of the validated document, in order, and
      every summary is equal except where a rewrite's reference is stale or an add's is loose. */
  lemma TableAgreesWithDocument(rows: seq<Row>, b: Batch, ids: seq<Id>, now: int, today: string)
    requires Distinct(TableIds(rows)) && IdsKnown(Render(rows), b) && FreshIds(Render(rows), b, ids)
    ensures var p := Proposal(Render(rows), b, ids, today);
            var rows' := Mutate(rows, p.mutation, now, today);
            && CanInsert(rows, p.mutation.adds)
            && AllAgree(rows', p.document, b, p.mutation.adds)
  {
    var before := Render(rows);
    var p, kept := Proposal(before, b, ids, today), Keep(before, b, today, {});
    var entries := TakeAdds(b.adds, ids, today, kept.seen).0;
    var m := p.mutation;
    SameIds(rows);
    ProposedMutation(before, b, ids, today);
    KeptIds(before, b, today, {});
    TakenAdds(b.adds, ids, today, kept.seen);
    MutateEdits(rows, m, now, today);
    ProposalCarries(rows, b, ids, today);
    KeptRowsStand(rows, before, b, today, {}, m.rewrites, m.deletes);
    AddedRowsStand(m.adds, entries, now, today);
    var edited, added := EditedRows(rows, m.rewrites, m.deletes, today), NewRows(m.adds, now, today);
    KeptPart(edited, kept.entries, before, b, m.adds);
    NewPart(added, entries, before, b, m.adds);
    Assembled(edited, added, Mutate(rows, m, now, today), kept.entries, entries, b, m.adds);
    NoClash(rows, m.adds);
  }

  // ---------------------------------------------------------------- the two exceptions are real

  /** Two rewrites of one id, the first with a reference in its minimal text, the second without:
      the validated summary keeps the first reference, the table forgets it. */
  lemma StaleReferenceIsReal()
    ensures var rows := [Row("aaaaaa", [Plain("old")], [Plain("c->k")], "user", 0, 0, false, 0, "2026/1/1")];
            var b := Batch("write", [], [Rewrite("aaaaaa", [Plain("one")], [Plain("c->k"), NoteRef("n1")]),
                                         Rewrite("aaaaaa", [Plain("two")], [Plain("c->k")])], {}, {}, {}, false, false);
            && StaleRef(b.rewrites, "aaaaaa")
            && Updated(Rendered(rows[0]), b.rewrites, "2026/1/2").summary == [Plain("two"), NoteRef("n1")]
            && Rendered(RewriteRow(rows[0], b.rewrites[1], "2026/1/2")).summary == [Plain("two")]
  {
    var first := Rewrite("aaaaaa", [Plain("one")], [Plain("c->k"), NoteRef("n1")]);
    var second := Rewrite("aaaaaa", [Plain("two")], [Plain("c->k")]);
    assert [first, second][1..] == [second] && [second][1..] == [];
    assert LastRewrite([second], "aaaaaa") == Some(second);
    assert [Plain("c->k")][1..] == [] && [Plain("two")][1..] == [];
    assert FirstRef(second.minimal) == None && FirstRef(second.content) == None;
    assert first.minimal[1..] == [NoteRef("n1")];
    assert FirstRef(first.minimal) == Some("n1");
    assert RememberedRef([second], "aaaaaa") == None;
    assert StripRefs(second.content) == [Plain("two")];
  }
}
