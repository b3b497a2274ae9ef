/** What a mutation does to the table row by row, and what the validator keeps and adds entry by
    entry: rows that stand for entries. */
module MemoryEdits {
  import opened Sequences
  import opened MemoryTable
  import opened MemoryValidator

  // ---------------------------------------------------------------- the table, row by row

  /** What a list of rewrites with one item per id does to a row. */
  function Edit(r: Row, rewrites: seq<Rewrite>, today: string): Row {
    match LastRewrite(rewrites, r.id)
    case None => r
    case Some(w) => RewriteRow(r, w, today)
  }

  function EditedRows(rows: seq<Row>, rewrites: seq<Rewrite>, deletes: set<Id>, today: string): seq<Row> {
    if rows == [] then []
    else (if rows[0].id in deletes then [] else [Edit(rows[0], rewrites, today)])
         + EditedRows(rows[1..], rewrites, deletes, today)
  }

  ghost predicate OnePerId(rewrites: seq<Rewrite>) {
    forall i, j :: 0 <= i < j < |rewrites| ==> rewrites[i].id != rewrites[j].id
  }

  lemma {:induction false} RewriteAllPointwise(rows: seq<Row>, rewrites: seq<Rewrite>, today: string)
    requires OnePerId(rewrites)
    ensures forall i :: 0 <= i < |rows| ==> RewriteAll(rows, rewrites, today)[i] == Edit(rows[i], rewrites, today)
    decreases |rewrites|
  {
    if rewrites != [] {
      var w, rest := rewrites[0], rewrites[1..];
      assert forall i :: 0 <= i < |rest| ==> rest[i] == rewrites[i + 1];
      RewriteAllPointwise(RewriteTable(rows, w, today), rest, today);
      forall i | 0 <= i < |rows|
        ensures RewriteAll(rows, rewrites, today)[i] == Edit(rows[i], rewrites, today)
      {
        LastRewriteFinds(rest, rows[i].id);
        assert rows[i].id == w.id ==> LastRewrite(rest, rows[i].id).None?;
      }
    }
  }

  lemma {:induction false} DeleteIsEdited(rows: seq<Row>, edited: seq<Row>, rewrites: seq<Rewrite>, deletes: set<Id>,
      today: string)
    requires |edited| == |rows| && forall i :: 0 <= i < |rows| ==> edited[i] == Edit(rows[i], rewrites, today)
    ensures DeleteAll(edited, deletes) == EditedRows(rows, rewrites, deletes, today)
  {
    if rows != [] {
      DeleteIsEdited(rows[1..], edited[1..], rewrites, deletes, today);
    }
  }

  lemma {:induction false} EditedConcat(a: seq<Row>, b: seq<Row>, rewrites: seq<Rewrite>, deletes: set<Id>,
      today: string)
    ensures EditedRows(a + b, rewrites, deletes, today)
            == EditedRows(a, rewrites, deletes, today) + EditedRows(b, rewrites, deletes, today)
  {
    if a == [] {
      assert a + b == b;
    } else {
      assert (a + b)[1..] == a[1..] + b;
      EditedConcat(a[1..], b, rewrites, deletes, today);
    }
  }

  lemma {:induction false} Untouched(rows: seq<Row>, rewrites: seq<Rewrite>, deletes: set<Id>, today: string)
    requires forall i :: 0 <= i < |rows| ==> rows[i].id !in deletes && LastRewrite(rewrites, rows[i].id).None?
    ensures EditedRows(rows, rewrites, deletes, today) == rows
  {
    if rows != [] {
      assert forall i :: 0 <= i < |rows[1..]| ==> rows[1..][i] == rows[i + 1];
      Untouched(rows[1..], rewrites, deletes, today);
    }
  }

  function NewRows(adds: seq<Add>, now: int, today: string): (rows: seq<Row>)
    ensures |rows| == |adds|
    decreases |adds|
  {
    if adds == [] then [] else [NewRow(adds[0], now, today)] + NewRows(adds[1..], now + 1, today)
  }

  lemma {:induction false} InsertAppends(rows: seq<Row>, adds: seq<Add>, now: int, today: string)
    ensures InsertAll(rows, adds, now, today) == rows + NewRows(adds, now, today)
    decreases |adds|
  {
    if adds != [] {
      InsertAppends(rows + [NewRow(adds[0], now, today)], adds[1..], now + 1, today);
    }
  }

  /** Counters do not show in the document. */
  ghost predicate SameTexts(rows: seq<Row>, rows': seq<Row>) {
    |rows| == |rows'| && forall i :: 0 <= i < |rows| ==>
      rows'[i] == rows[i].(refreshCount := rows'[i].refreshCount, passedCount := rows'[i].passedCount)
  }

  /** The mutated table is the edited old rows followed by the new rows, up to counters. */
  lemma MutateEdits(rows: seq<Row>, m: Mutation, now: int, today: string)
    requires OnePerId(m.rewrites)
    requires forall a :: a in m.adds ==> a.id !in m.deletes && LastRewrite(m.rewrites, a.id).None?
    ensures SameTexts(EditedRows(rows, m.rewrites, m.deletes, today) + NewRows(m.adds, now, today),
            Mutate(rows, m, now, today))
  {
    var added := NewRows(m.adds, now, today);
    var inserted := InsertAll(rows, m.adds, now, today);
    InsertAppends(rows, m.adds, now, today);
    RewriteAllPointwise(inserted, m.rewrites, today);
    DeleteIsEdited(inserted, RewriteAll(inserted, m.rewrites, today), m.rewrites, m.deletes, today);
    EditedConcat(rows, added, m.rewrites, m.deletes, today);
    NewRowsMirrorAdds(m.adds, now, today);
    Untouched(added, m.rewrites, m.deletes, today);
  }

  lemma {:induction false} NewRowsMirrorAdds(adds: seq<Add>, now: int, today: string)
    ensures forall i :: 0 <= i < |adds| ==>
            NewRows(adds, now, today)[i] == NewRow(adds[i], now + i, today) && adds[i] in adds
    decreases |adds|
  {
    if adds != [] {
      NewRowsMirrorAdds(adds[1..], now + 1, today);
      assert forall i :: 1 <= i < |adds| ==> adds[i] == adds[1..][i - 1];
    }
  }

  // ---------------------------------------------------------------- the entries that stay

  lemma EntryTail(before: seq<Entry>)
    requires Distinct(EntryIds(before)) && before != []
    ensures Distinct(EntryIds(before[1..])) && before[0].id !in EntryIds(before[1..])
    ensures forall id :: id in EntryIds(before) <==> id == before[0].id || id in EntryIds(before[1..])
  {
    assert EntryIds(before) == [before[0].id] + EntryIds(before[1..]);
    DistinctTail(EntryIds(before));
  }

  lemma EntryCons(e: Entry, rest: seq<Entry>)
    ensures EntryIds([e] + rest) == [e.id] + EntryIds(rest)
    ensures forall id :: id in EntryIds([e] + rest) <==> id == e.id || id in EntryIds(rest)
  {
  }

  /** The kept entries are among the old ones, and each keeps its resolved rewrite, once. */
  lemma {:induction false} KeptIds(before: seq<Entry>, b: Batch, today: string, seen: set<Key>)
    requires Distinct(EntryIds(before))
    ensures var k := Keep(before, b, today, seen);
            && Distinct(EntryIds(k.entries))
            && (forall id :: id in EntryIds(k.entries) ==> id in EntryIds(before) && id !in b.deletes)
            && OnePerId(k.rewrites)
            && (forall i :: 0 <= i < |k.rewrites| ==> k.rewrites[i].id in EntryIds(k.entries))
    decreases |before|
  {
    if before != [] {
      var e := before[0];
      var u := Updated(e, b.rewrites, today);
      EntryTail(before);
      if e.id in b.deletes || KeyOf(u) in seen {
        KeptIds(before[1..], b, today, seen);
      } else {
        KeptIds(before[1..], b, today, seen + {KeyOf(u)});
        var rest := Keep(before[1..], b, today, seen + {KeyOf(u)});
        EntryCons(u, rest.entries);
        LastRewriteFinds(b.rewrites, e.id);
      }
    }
  }

  lemma LastRewriteCons(first: seq<Rewrite>, rest: seq<Rewrite>, id: Id)
    requires |first| <= 1
    ensures LastRewrite(first + rest, id) ==
            if LastRewrite(rest, id).Some? then LastRewrite(rest, id) else LastRewrite(first, id)
  {
    if first == [] {
      assert first + rest == rest;
    } else {
      assert (first + rest)[1..] == rest && first[1..] == [];
    }
  }

  lemma {:induction false} KeptRewrites(before: seq<Entry>, b: Batch, today: string, seen: set<Key>, id: Id)
    requires Distinct(EntryIds(before))
    ensures var k := Keep(before, b, today, seen);
            LastRewrite(k.rewrites, id) == if id in EntryIds(k.entries) then LastRewrite(b.rewrites, id) else None
    decreases |before|
  {
    if before != [] {
      var e := before[0];
      var u := Updated(e, b.rewrites, today);
      EntryTail(before);
      if e.id in b.deletes || KeyOf(u) in seen {
        KeptRewrites(before[1..], b, today, seen, id);
      } else {
        var rest := Keep(before[1..], b, today, seen + {KeyOf(u)});
        KeptRewrites(before[1..], b, today, seen + {KeyOf(u)}, id);
        KeptIds(before[1..], b, today, seen + {KeyOf(u)});
        EntryCons(u, rest.entries);
        LastRewriteFinds(b.rewrites, e.id);
        LastRewriteCons(EffectiveRewrite(e, b.rewrites), rest.rewrites, id);
      }
    }
  }

  /** A row and the entry it stands for: same key, source and date, and the same summary unless
      the rewrite's reference is stale. */
  ghost predicate Stands(r: Row, e: Entry, rewrites: seq<Rewrite>) {
    && r.id == e.id && r.source == e.source && r.date == e.date
    && (Rendered(r) == e <==> !StaleRef(rewrites, e.id))
  }

  ghost predicate AllStand(rows: seq<Row>, doc: seq<Entry>, rewrites: seq<Rewrite>) {
    |rows| == |doc| && forall i :: 0 <= i < |rows| ==> Stands(rows[i], doc[i], rewrites)
  }

  lemma EditStands(r: Row, rewrites: seq<Rewrite>, effective: seq<Rewrite>, today: string)
    requires LastRewrite(effective, r.id) == LastRewrite(rewrites, r.id)
    ensures Stands(Edit(r, effective, today), Updated(Rendered(r), rewrites, today), rewrites)
  {
    LastRewriteFinds(rewrites, r.id);
    if LastRewrite(rewrites, r.id).Some? {
      RewrittenAgrees(r, rewrites, today);
    }
  }

  /** `effective` and `deletes` treat the rows as the kept entries with ids `ids` require. */
  ghost predicate Carries(rows: seq<Row>, ids: seq<Id>, rewrites: seq<Rewrite>, effective: seq<Rewrite>,
      deletes: set<Id>) {
    forall i :: 0 <= i < |rows| ==>
      && (rows[i].id in deletes <==> rows[i].id !in ids)
      && (rows[i].id in ids ==> LastRewrite(effective, rows[i].id) == LastRewrite(rewrites, rows[i].id))
  }

  lemma CarriesTail(rows: seq<Row>, first: seq<Id>, rest: seq<Id>, rewrites: seq<Rewrite>, effective: seq<Rewrite>,
      deletes: set<Id>)
    requires rows != [] && Carries(rows, first + rest, rewrites, effective, deletes)
    requires forall i :: 1 <= i < |rows| ==> rows[i].id !in first
    ensures Carries(rows[1..], rest, rewrites, effective, deletes)
  {
    assert forall i :: 0 <= i < |rows[1..]| ==> rows[1..][i] == rows[i + 1];
  }

  lemma RowTail(rows: seq<Row>)
    requires Distinct(TableIds(rows)) && rows != []
    ensures Distinct(TableIds(rows[1..])) && forall i :: 1 <= i < |rows| ==> rows[i].id != rows[0].id
    ensures Render(rows)[0] == Rendered(rows[0]) && Render(rows)[1..] == Render(rows[1..])
  {
    assert TableIds(rows) == [rows[0].id] + TableIds(rows[1..]);
    DistinctTail(TableIds(rows));
    forall i | 1 <= i < |rows|
      ensures rows[i].id != rows[0].id && Render(rows)[i] == Render(rows[1..])[i - 1]
    {
      assert TableIds(rows)[i] == rows[i].id && rows[1..][i - 1] == rows[i];
    }
  }

  lemma SameIds(rows: seq<Row>)
    ensures EntryIds(Render(rows)) == TableIds(rows)
    ensures forall i :: 0 <= i < |rows| ==> rows[i].id in TableIds(rows)
  {
    assert forall i :: 0 <= i < |rows| ==> TableIds(rows)[i] == rows[i].id;
  }

  /** A row that stays, in front of rows that stand. */
  lemma HeadStands(rows: seq<Row>, b: Batch, today: string, rest: seq<Entry>, effective: seq<Rewrite>, deletes: set<Id>)
    requires rows != []
    requires var u := Updated(Rendered(rows[0]), b.rewrites, today);
             && Carries(rows, EntryIds([u] + rest), b.rewrites, effective, deletes)
             && AllStand(EditedRows(rows[1..], effective, deletes, today), rest, b.rewrites)
    ensures AllStand(EditedRows(rows, effective, deletes, today),
            [Updated(Rendered(rows[0]), b.rewrites, today)] + rest, b.rewrites)
  {
    var r := rows[0];
    var u := Updated(Rendered(r), b.rewrites, today);
    EntryCons(u, rest);
    assert u.id == r.id && r.id in EntryIds([u] + rest);
    EditStands(r, b.rewrites, effective, today);
  }

  lemma {:induction false} KeptRowsStand(rows: seq<Row>, before: seq<Entry>, b: Batch, today: string, seen: set<Key>,
      effective: seq<Rewrite>, deletes: set<Id>)
    requires Distinct(TableIds(rows)) && before == Render(rows)
    requires Carries(rows, EntryIds(Keep(before, b, today, seen).entries), b.rewrites, effective, deletes)
    ensures AllStand(EditedRows(rows, effective, deletes, today), Keep(before, b, today, seen).entries, b.rewrites)
    decreases |rows|
  {
    if rows != [] {
      var r, tail := rows[0], rows[1..];
      RowTail(rows);
      SameIds(tail);
      var u := Updated(before[0], b.rewrites, today);
      if r.id in b.deletes || KeyOf(u) in seen {
        var rest := Keep(before[1..], b, today, seen).entries;
        KeptIds(before[1..], b, today, seen);
        assert r.id !in EntryIds(rest) by {
          assert forall id :: id in TableIds(tail) ==> id != r.id;
        }
        assert [] + EntryIds(rest) == EntryIds(rest);
        CarriesTail(rows, [], EntryIds(rest), b.rewrites, effective, deletes);
        KeptRowsStand(tail, before[1..], b, today, seen, effective, deletes);
      } else {
        var seen' := seen + {KeyOf(u)};
        var rest := Keep(before[1..], b, today, seen').entries;
        EntryCons(u, rest);
        CarriesTail(rows, [u.id], EntryIds(rest), b.rewrites, effective, deletes);
        KeptRowsStand(tail, before[1..], b, today, seen', effective, deletes);
        HeadStands(rows, b, today, rest, effective, deletes);
      }
    }
  }

  // ---------------------------------------------------------------- the entries that come

  lemma {:induction false} TakenAdds(adds: seq<AddRequest>, ids: seq<Id>, today: string, seen: set<Key>)
    requires |ids| >= |adds| && Distinct(ids)
    ensures var (entries, taken) := TakeAdds(adds, ids, today, seen);
            && |entries| == |taken|
            && (forall i :: 0 <= i < |taken| ==>
                  && taken[i].id in ids
                  && entries[i] == Entry(taken[i].id, today, taken[i].source,
                                         WithRef(taken[i].content, FirstRef(taken[i].minimal))))
            && (forall i, j :: 0 <= i < j < |taken| ==> taken[i].id != taken[j].id)
    decreases |adds|
  {
    if adds != [] {
      var e := AddedEntry(adds[0], ids[0], today);
      DistinctTail(ids);
      TakenAdds(adds[1..], ids[1..], today, if KeyOf(e) in seen then seen else seen + {KeyOf(e)});
    }
  }
}
