/** A commit row by row and a batch field by field: what becomes of every row, which batches are accepted, and
    when compression starts and stops. */
module MemoryCommitSteps {
  import opened Sequences
  import opened MemoryTable
  import opened MemoryValidator
  import opened MemoryEdits
  import opened MemoryAgreement
  import opened MemoryCompression
  import opened MemoryCommit
  import opened MemoryAgeing
  import opened MemoryDuplicates

  // ---------------------------------------------------------------- references and rewrites

  /** A text's reference is the first one in it. */
  lemma {:induction false} FirstRefIsFirst(t: Text)
    ensures match FirstRef(t)
            case None => forall i :: 0 <= i < |t| ==> t[i].Plain?
            case Some(n) => exists k: nat :: k < |t| && t[k] == NoteRef(n) && forall i :: 0 <= i < k ==> t[i].Plain?
  {
    if t != [] && t[0].Plain? {
      FirstRefIsFirst(t[1..]);
      assert forall i :: 1 <= i < |t| ==> t[i] == t[1..][i - 1];
      if FirstRef(t).Some? {
        var k: nat :| k < |t[1..]| && t[1..][k] == NoteRef(FirstRef(t).value)
          && forall i :: 0 <= i < k ==> t[1..][i].Plain?;
        assert t[k + 1] == NoteRef(FirstRef(t).value);
      }
    }
  }

  lemma {:induction false} StripsConcat(a: Text, b: Text)
    ensures StripRefs(a + b) == StripRefs(a) + StripRefs(b)
  {
    if a == [] {
      assert a + b == b;
    } else {
      assert (a + b)[1..] == a[1..] + b;
      StripsConcat(a[1..], b);
      Regroup(if a[0].NoteRef? then [] else [a[0]], StripRefs(a[1..]), StripRefs(b));
    }
  }

  /** Stripping goes piece by piece: plain text stays in its place, references go. */
  lemma StripsPieces(a: Text, p: Piece, b: Text)
    ensures StripRefs(a + [p] + b) == StripRefs(a) + (if p.Plain? then [p] else []) + StripRefs(b)
  {
    StripsConcat(a + [p], b);
    StripsConcat(a, [p]);
    assert [p][1..] == [] && StripRefs([]) == [];
  }

  ghost predicate LastFor(rewrites: seq<Rewrite>, id: Id, k: nat) {
    k < |rewrites| && rewrites[k].id == id && forall j :: k < j < |rewrites| ==> rewrites[j].id != id
  }

  /** The last rewrite of an id counts. */
  lemma {:induction false} LastRewriteIsLast(rewrites: seq<Rewrite>, id: Id)
    ensures match LastRewrite(rewrites, id)
            case None => forall i :: 0 <= i < |rewrites| ==> rewrites[i].id != id
            case Some(w) => exists k: nat :: LastFor(rewrites, id, k) && rewrites[k] == w
  {
    if rewrites != [] {
      LastRewriteIsLast(rewrites[1..], id);
      assert forall i :: 1 <= i < |rewrites| ==> rewrites[i] == rewrites[1..][i - 1];
      if LastRewrite(rewrites[1..], id).Some? {
        var k: nat :| LastFor(rewrites[1..], id, k) && rewrites[1..][k] == LastRewrite(rewrites, id).value;
        assert LastFor(rewrites, id, k + 1);
      } else if rewrites[0].id == id {
        assert LastFor(rewrites, id, 0);
      }
    }
  }

  ghost predicate LastNaming(rewrites: seq<Rewrite>, id: Id, k: nat) {
    && k < |rewrites| && rewrites[k].id == id && FirstRef(rewrites[k].minimal).Some?
    && forall j :: k < j < |rewrites| && rewrites[j].id == id ==> FirstRef(rewrites[j].minimal).None?
  }

  /** The reference remembered for an id is that of the last of its rewrites whose minimal text has one. */
  lemma {:induction false} RememberedIsLast(rewrites: seq<Rewrite>, id: Id)
    ensures match RememberedRef(rewrites, id)
            case None => forall i :: 0 <= i < |rewrites| && rewrites[i].id == id ==> FirstRef(rewrites[i].minimal).None?
            case Some(n) => exists k: nat ::
                LastNaming(rewrites, id, k) && FirstRef(rewrites[k].minimal) == Some(n)
  {
    if rewrites != [] {
      RememberedIsLast(rewrites[1..], id);
      assert forall i :: 1 <= i < |rewrites| ==> rewrites[i] == rewrites[1..][i - 1];
      if RememberedRef(rewrites[1..], id).Some? {
        var k: nat :| LastNaming(rewrites[1..], id, k)
          && FirstRef(rewrites[1..][k].minimal) == RememberedRef(rewrites[1..], id);
        assert LastNaming(rewrites, id, k + 1);
      } else if rewrites[0].id == id && FirstRef(rewrites[0].minimal).Some? {
        assert LastNaming(rewrites, id, 0);
      }
    }
  }

  // ---------------------------------------------------------------- what becomes of a row

  /** A row the commit found: rewritten with new texts, uncompressed and dated today; cited; or passed by. */
  ghost predicate OldRowAfter(r: Row, m: Mutation, today: string, r': Row) {
    if exists w :: w in m.rewrites && w.id == r.id then
      exists w :: w in m.rewrites && w.id == r.id
                  && r' == Row(r.id, w.content, w.minimal, r.source, r.refreshCount + 1, 0, false, r.createdAt, today)
    else if r.id in m.cited then
      r' == Row(r.id, r.body, r.minimal, r.source, r.refreshCount + 1, 0, r.compressed, r.createdAt, r.date)
    else
      r' == Row(r.id, r.body, r.minimal, r.source, r.refreshCount, r.passedCount + 1, r.compressed, r.createdAt, r.date)
  }

  lemma CountedOldRow(rows: seq<Row>, m: Mutation, today: string, r: Row)
    requires Proper(rows, m) && r in rows && r.id !in m.deletes
    ensures OldRowAfter(r, m, today, Counted(Edit(r, m.rewrites, today), m))
  {
    LastRewriteFinds(m.rewrites, r.id);
    LastRewriteIsAmong(m.rewrites, r.id);
    OnlyRewrite(m.rewrites, r.id);
    assert r.id !in AddIds(m.adds) by {
      var j :| 0 <= j < |rows| && rows[j] == r;
    }
  }

  lemma OnlyRewrite(rewrites: seq<Rewrite>, id: Id)
    ensures id in RewriteIds(rewrites) <==> exists w :: w in rewrites && w.id == id
  {
  }

  lemma CountedNewRow(rows: seq<Row>, m: Mutation, now: int, today: string, a: Add)
    requires Proper(rows, m) && a in m.adds
    ensures Counted(NewRow(a, now, today), m)
            == Row(a.id, a.content, a.minimal, a.source, 0, 0, false, now, today)
  {
    LastRewriteIsAmong(m.rewrites, a.id);
    assert a.id in AddIds(m.adds);
  }

  lemma {:induction false} EditedOfDeleted(rows: seq<Row>, rewrites: seq<Rewrite>, deletes: set<Id>, today: string)
    ensures var kept := DeleteAll(rows, deletes);
            && |EditedRows(rows, rewrites, deletes, today)| == |kept|
            && forall i :: 0 <= i < |kept| ==>
                 EditedRows(rows, rewrites, deletes, today)[i] == Edit(kept[i], rewrites, today)
  {
    if rows != [] {
      EditedOfDeleted(rows[1..], rewrites, deletes, today);
    }
  }

  /** The rows before they are counted: the edited ones and the new ones. */
  lemma UncountedRows(rows: seq<Row>, m: Mutation, now: int, today: string)
    requires Proper(rows, m)
    ensures DeleteAll(RewriteAll(InsertAll(rows, m.adds, now, today), m.rewrites, today), m.deletes)
            == EditedRows(rows, m.rewrites, m.deletes, today) + NewRows(m.adds, now, today)
  {
    var added := NewRows(m.adds, now, today);
    var inserted := InsertAll(rows, m.adds, now, today);
    InsertAppends(rows, m.adds, now, today);
    RewriteAllPointwise(inserted, m.rewrites, today);
    DeleteIsEdited(inserted, RewriteAll(inserted, m.rewrites, today), m.rewrites, m.deletes, today);
    EditedConcat(rows, added, m.rewrites, m.deletes, today);
    NewRowsMirrorAdds(m.adds, now, today);
    Untouched(added, m.rewrites, m.deletes, today);
  }

  lemma MutateCounts(rows: seq<Row>, m: Mutation, now: int, today: string, uncounted: seq<Row>, i: nat)
    requires uncounted == DeleteAll(RewriteAll(InsertAll(rows, m.adds, now, today), m.rewrites, today), m.deletes)
    requires i < |uncounted| && uncounted[i].id !in m.deletes
    ensures |Mutate(rows, m, now, today)| == |uncounted|
    ensures Mutate(rows, m, now, today)[i] == Counted(uncounted[i], m)
  {
  }

  lemma {:induction false} EditedAt(rows: seq<Row>, rewrites: seq<Rewrite>, deletes: set<Id>, today: string, i: nat)
    requires i < |DeleteAll(rows, deletes)|
    ensures |EditedRows(rows, rewrites, deletes, today)| == |DeleteAll(rows, deletes)|
    ensures EditedRows(rows, rewrites, deletes, today)[i] == Edit(DeleteAll(rows, deletes)[i], rewrites, today)
  {
    EditedOfDeleted(rows, rewrites, deletes, today);
  }

  lemma NewRowAt(adds: seq<Add>, now: int, today: string, i: nat)
    requires i < |adds|
    ensures NewRows(adds, now, today)[i] == NewRow(adds[i], now + i, today)
  {
    NewRowsMirrorAdds(adds, now, today);
  }

  lemma AtEitherSide(a: seq<Row>, b: seq<Row>, i: nat)
    ensures i < |a| ==> (a + b)[i] == a[i]
    ensures i < |b| ==> (a + b)[|a| + i] == b[i]
  {
  }

  /** An old row that stays, in the new table. */
  lemma OldRowAt(rows: seq<Row>, m: Mutation, now: int, today: string, i: nat)
    requires Proper(rows, m) && i < |DeleteAll(rows, m.deletes)|
    ensures i < |Mutate(rows, m, now, today)|
    ensures Mutate(rows, m, now, today)[i] == Counted(Edit(DeleteAll(rows, m.deletes)[i], m.rewrites, today), m)
  {
    var r := DeleteAll(rows, m.deletes)[i];
    var edited, added := EditedRows(rows, m.rewrites, m.deletes, today), NewRows(m.adds, now, today);
    KeptRow(rows, m.deletes, i);
    LastRewriteFinds(m.rewrites, r.id);
    EditedAt(rows, m.rewrites, m.deletes, today, i);
    AtEitherSide(edited, added, i);
    UncountedRows(rows, m, now, today);
    MutateCounts(rows, m, now, today, edited + added, i);
  }

  lemma AddedRowCounts(rows: seq<Row>, m: Mutation, now: int, today: string, edited: seq<Row>, added: seq<Row>, i: nat)
    requires edited + added
             == DeleteAll(RewriteAll(InsertAll(rows, m.adds, now, today), m.rewrites, today), m.deletes)
    requires i < |added| && added[i].id !in m.deletes
    ensures |edited| + i < |Mutate(rows, m, now, today)|
    ensures Mutate(rows, m, now, today)[|edited| + i] == Counted(added[i], m)
  {
    AtEitherSide(edited, added, i);
    MutateCounts(rows, m, now, today, edited + added, |edited| + i);
  }

  lemma AddIsNotDeleted(rows: seq<Row>, m: Mutation, i: nat)
    requires Proper(rows, m) && i < |m.adds|
    ensures m.adds[i] in m.adds && m.adds[i].id !in m.deletes
  {
  }

  /** An added row in the new table. */
  lemma NewRowInTable(rows: seq<Row>, m: Mutation, now: int, today: string, i: nat)
    requires Proper(rows, m) && i < |m.adds|
    ensures var k := |EditedRows(rows, m.rewrites, m.deletes, today)|;
            && k + i < |Mutate(rows, m, now, today)|
            && Mutate(rows, m, now, today)[k + i] == Counted(NewRow(m.adds[i], now + i, today), m)
  {
    NewRowAt(m.adds, now, today, i);
    AddIsNotDeleted(rows, m, i);
    UncountedRows(rows, m, now, today);
    AddedRowCounts(rows, m, now, today, EditedRows(rows, m.rewrites, m.deletes, today), NewRows(m.adds, now, today), i);
  }

  /** The table after a commit has a row for every row that is not deleted and for every added one. */
  lemma TableLength(rows: seq<Row>, m: Mutation, now: int, today: string)
    requires Proper(rows, m)
    ensures |EditedRows(rows, m.rewrites, m.deletes, today)| == |DeleteAll(rows, m.deletes)|
    ensures |Mutate(rows, m, now, today)| == |DeleteAll(rows, m.deletes)| + |m.adds|
  {
    EditedOfDeleted(rows, m.rewrites, m.deletes, today);
    UncountedRows(rows, m, now, today);
  }

  lemma KeptRow(rows: seq<Row>, deletes: set<Id>, i: nat)
    requires i < |DeleteAll(rows, deletes)|
    ensures DeleteAll(rows, deletes)[i] in rows && DeleteAll(rows, deletes)[i].id !in deletes
  {
    DeleteAllMembers(rows, deletes);
    assert DeleteAll(rows, deletes)[i] in DeleteAll(rows, deletes);
  }

  /** In the table after a commit, the rows that are not deleted come first, in order, each rewritten, cited or
      passed by. */
  lemma OldRowAfterCommit(rows: seq<Row>, m: Mutation, now: int, today: string, i: nat)
    requires Proper(rows, m) && i < |DeleteAll(rows, m.deletes)|
    ensures i < |Mutate(rows, m, now, today)|
    ensures OldRowAfter(DeleteAll(rows, m.deletes)[i], m, today, Mutate(rows, m, now, today)[i])
  {
    OldRowAt(rows, m, now, today, i);
    KeptRow(rows, m.deletes, i);
    CountedOldRow(rows, m, today, DeleteAll(rows, m.deletes)[i]);
  }

  /** Then the added rows, uncompressed, with counters at zero, dated today, one microsecond apart. */
  lemma NewRowAfterCommit(rows: seq<Row>, m: Mutation, now: int, today: string, i: nat)
    requires Proper(rows, m) && i < |m.adds|
    ensures var k, a := |EditedRows(rows, m.rewrites, m.deletes, today)|, m.adds[i];
            && k + i < |Mutate(rows, m, now, today)|
            && Mutate(rows, m, now, today)[k + i]
               == Row(a.id, a.content, a.minimal, a.source, 0, 0, false, now + i, today)
  {
    NewRowInTable(rows, m, now, today, i);
    AddIsNotDeleted(rows, m, i);
    CountedNewRow(rows, m, now + i, today, m.adds[i]);
  }

  /** A row read back from the document has its texts and date from there. One that was in the table keeps
      counters, flag and creation time; a new one starts uncompressed, a microsecond after the one before. */
  lemma ReadBackRowByRow(rows: seq<Row>, doc: seq<Entry>, now: int, i: nat)
    requires Distinct(TableIds(rows)) && i < |doc|
    ensures |ReplaceAll(rows, doc, now)| == |doc|
    ensures var e, r' := doc[i], ReplaceAll(rows, doc, now)[i];
            && (forall r :: r in rows && r.id == e.id ==>
                  r' == Row(e.id, e.summary, e.summary, e.source, r.refreshCount, r.passedCount, r.compressed,
                            r.createdAt, e.date))
            && ((forall r :: r in rows ==> r.id != e.id) ==>
                  r' == Row(e.id, e.summary, e.summary, e.source, 0, 0, false, now + i, e.date))
  {
    forall r | r in rows && r.id == doc[i].id
      ensures RowWithId(rows, doc[i].id) == Some(r)
    {
      var k :| 0 <= k < |rows| && rows[k] == r;
      RowIsFound(rows, k);
    }
    RowWithIdFinds(rows, doc[i].id);
  }

  // ---------------------------------------------------------------- which batches are accepted

  /** The form of a batch: a delete batch changes nothing else and gives no reason for doing nothing; only a
      delete batch may say that all is done already; and who gives a reason changes nothing. */
  predicate GoodForm(b: Batch) {
    var changes := b.adds != [] || b.rewrites != [] || b.deletes != {} || b.upserts != {};
    && (b.op == "delete" ==> b.adds == [] && b.rewrites == [] && !b.noop)
    && (b.op != "delete" ==> !b.satisfied)
    && (b.noop || b.satisfied ==> !changes) && !(b.noop && b.satisfied)
  }

  /** Every id named is in the document. */
  ghost predicate NamesEntries(before: seq<Entry>, b: Batch) {
    && (forall i, j :: 0 <= i < j < |before| ==> before[i].id != before[j].id)
    && (forall id :: id in b.deletes + b.cited ==> IsEntry(before, id))
    && (forall w :: w in b.rewrites ==> IsEntry(before, w.id))
  }

  ghost predicate IsEntry(before: seq<Entry>, id: Id) {
    exists i :: 0 <= i < |before| && before[i].id == id
  }

  /** Every text is acceptable, every summary that is new short enough, and every source a known one. */
  ghost predicate GoodTexts(before: seq<Entry>, b: Batch, checks: Checks, limits: Limits, today: string) {
    && (forall w :: w in b.rewrites ==> checks.content(w.content) && checks.minimal(w.minimal))
    && (forall a :: a in b.adds ==>
          && checks.content(a.content) && checks.minimal(a.minimal) && (a.source == "user" || a.source == "self")
          && Length(SummaryOf(a)) <= limits.summaryMax)
    && forall e :: e in before && e.id !in b.deletes && (exists w :: w in b.rewrites && w.id == e.id) ==>
         Length(Updated(e, b.rewrites, today).summary) <= limits.summaryMax
  }

  /** Every reference of the new document and of a minimal text has a note, old or new. */
  ghost predicate HasNotes(doc: seq<Entry>, b: Batch, notes: set<string>) {
    && (forall e :: e in doc && FirstRef(e.summary).Some? ==> FirstRef(e.summary).value in notes + b.upserts)
    && (forall w :: w in b.rewrites && FirstRef(w.minimal).Some? ==> FirstRef(w.minimal).value in notes + b.upserts)
    && (forall a :: a in b.adds && FirstRef(a.minimal).Some? ==> FirstRef(a.minimal).value in notes + b.upserts)
  }

  lemma KnownIds(before: seq<Entry>, b: Batch)
    ensures IdsKnown(before, b) <==> NamesEntries(before, b)
  {
    forall id
      ensures id in EntryIds(before) <==> IsEntry(before, id)
    {
      if i :| 0 <= i < |before| && before[i].id == id {
        assert EntryIds(before)[i] == id;
      }
    }
    assert forall i :: 0 <= i < |before| ==> EntryIds(before)[i] == before[i].id;
    if forall i, j :: 0 <= i < j < |before| ==> before[i].id != before[j].id {
      assert Distinct(EntryIds(before));
    } else {
      var i, j :| 0 <= i < j < |before| && before[i].id == before[j].id;
      assert EntryIds(before)[i] == EntryIds(before)[j];
    }
    if IdsKnown(before, b) {
      forall w | w in b.rewrites
        ensures w.id in EntryIds(before)
      {
        var i :| 0 <= i < |b.rewrites| && b.rewrites[i] == w;
      }
    }
    forall i | 0 <= i < |b.rewrites| && NamesEntries(before, b)
      ensures b.rewrites[i].id in EntryIds(before)
    {
      assert b.rewrites[i] in b.rewrites;
    }
    assert forall id :: id in Elements(EntryIds(before)) <==> id in EntryIds(before);
  }

  lemma TextsSpelled(before: seq<Entry>, b: Batch, checks: Checks, limits: Limits, today: string)
    ensures TextsOk(before, b, checks, limits, today) <==> GoodTexts(before, b, checks, limits, today)
  {
    forall id: Id
      ensures LastRewrite(b.rewrites, id).Some? <==> exists w :: w in b.rewrites && w.id == id
    {
      LastRewriteIsAmong(b.rewrites, id);
      OnlyRewrite(b.rewrites, id);
    }
    if TextsOk(before, b, checks, limits, today) {
      AllTextsGood(before, b, checks, limits, today);
    }
    assert forall i :: 0 <= i < |b.adds| ==> b.adds[i] in b.adds;
    assert forall i :: 0 <= i < |b.rewrites| ==> b.rewrites[i] in b.rewrites;
    assert forall i :: 0 <= i < |before| ==> before[i] in before;
  }

  lemma AllTextsGood(before: seq<Entry>, b: Batch, checks: Checks, limits: Limits, today: string)
    requires TextsOk(before, b, checks, limits, today)
    requires forall id :: LastRewrite(b.rewrites, id).Some? <==> exists w :: w in b.rewrites && w.id == id
    ensures GoodTexts(before, b, checks, limits, today)
  {
    forall w | w in b.rewrites
      ensures checks.content(w.content) && checks.minimal(w.minimal)
    {
      var i :| 0 <= i < |b.rewrites| && b.rewrites[i] == w;
    }
    forall a | a in b.adds
      ensures checks.content(a.content) && checks.minimal(a.minimal) && (a.source == "user" || a.source == "self")
      ensures Length(SummaryOf(a)) <= limits.summaryMax
    {
      var i :| 0 <= i < |b.adds| && b.adds[i] == a;
    }
    forall e | e in before && e.id !in b.deletes && exists w :: w in b.rewrites && w.id == e.id
      ensures Length(Updated(e, b.rewrites, today).summary) <= limits.summaryMax
    {
      var i :| 0 <= i < |before| && before[i] == e;
    }
  }

  lemma NotesSpelled(doc: seq<Entry>, b: Batch, notes: set<string>)
    ensures NotesPresent(doc, b, notes) <==> HasNotes(doc, b, notes)
  {
    forall t: Text
      ensures RefSet(FirstRef(t)) <= notes + b.upserts <==> FirstRef(t).Some? ==> FirstRef(t).value in notes + b.upserts
    {
    }
    if NotesPresent(doc, b, notes) {
      forall e | e in doc
        ensures RefSet(FirstRef(e.summary)) <= notes + b.upserts
      {
        var i :| 0 <= i < |doc| && doc[i] == e;
      }
      forall w | w in b.rewrites
        ensures RefSet(FirstRef(w.minimal)) <= notes + b.upserts
      {
        var i :| 0 <= i < |b.rewrites| && b.rewrites[i] == w;
      }
      forall a | a in b.adds
        ensures RefSet(FirstRef(a.minimal)) <= notes + b.upserts
      {
        var i :| 0 <= i < |b.adds| && b.adds[i] == a;
      }
    }
    assert forall i :: 0 <= i < |doc| ==> doc[i] in doc;
    assert forall i :: 0 <= i < |b.rewrites| ==> b.rewrites[i] in b.rewrites;
    assert forall i :: 0 <= i < |b.adds| ==> b.adds[i] in b.adds;
  }

  /** A batch is accepted if and only if its form, its ids and its texts are good and the document it
      proposes is acceptable and has its notes. */
  lemma AcceptedExactly(before: seq<Entry>, b: Batch, ids: seq<Id>, today: string, checks: Checks, limits: Limits,
      notes: set<string>)
    requires |ids| >= |b.adds|
    ensures var doc := Proposal(before, b, ids, today).document;
            Accepts(before, b, ids, today, checks, limits, notes)
            <==> GoodForm(b) && NamesEntries(before, b) && GoodTexts(before, b, checks, limits, today)
                 && DocumentOk(doc, limits) && HasNotes(doc, b, notes)
  {
    KnownIds(before, b);
    TextsSpelled(before, b, checks, limits, today);
    NotesSpelled(Proposal(before, b, ids, today).document, b, notes);
  }

  /** The mutation of a proposal: what is cited and the notes are the batch's; the rewrites are the last ones
      of the entries that stay. */
  lemma ProposedExactly(before: seq<Entry>, b: Batch, ids: seq<Id>, today: string, w: Rewrite)
    requires IdsKnown(before, b) && FreshIds(before, b, ids)
    ensures var p := Proposal(before, b, ids, today);
            && p.mutation.cited == b.cited && p.upserts == b.upserts
            && (w in p.mutation.rewrites
                <==> (&& w.id in EntryIds(before) && w.id !in p.mutation.deletes
                      && LastRewrite(b.rewrites, w.id) == Some(w)))
  {
    var m := Proposal(before, b, ids, today).mutation;
    DeletesAreTheRest(before, b, ids, today);
    ProposedMutation(before, b, ids, today);
    KeptIds(before, b, today, {});
    KeptRewrites(before, b, today, {}, w.id);
    LastRewriteFinds(m.rewrites, w.id);
    LastRewriteIsAmong(m.rewrites, w.id);
    if w in m.rewrites {
      var i :| 0 <= i < |m.rewrites| && m.rewrites[i] == w;
      LastRewriteIsLast(m.rewrites, w.id);
    }
  }

  // ---------------------------------------------------------------- when compression starts and stops

  /** Compression starts beyond the trigger, by default 16000 characters, and stops within the target, by
      default 13000, or when only short rows of the user are left, or refused; before that it does nothing. */
  lemma StartsAndStops(rows: seq<Row>, budget: Budget, limits: Limits)
    requires Distinct(TableIds(rows))
    ensures var c := CompressIfNeeded(rows, Render(rows), budget, limits);
            var trigger := if budget.trigger == 0 then 16000 else budget.trigger;
            var target := if budget.target == 0 then 13000 else budget.target;
            && (DocumentLength(Render(rows)) <= trigger || DocumentLength(Render(rows)) <= target ==>
                  c == Compression(rows, Render(rows), [], false))
            && (DocumentLength(Render(rows)) > trigger && !c.aborted ==>
                  && c.document == Render(c.rows)
                  && (DocumentLength(c.document) <= target
                      || forall r :: r in c.rows ==> r.compressed && r.source == "user"))
  {
    CompressionIsLegalAndEnds(rows, budget, limits);
  }

  // ---------------------------------------------------------------- the parts of a commit

  /** What a commit starts from: the table, or what the document on disk says if the table renders
      otherwise. */
  ghost predicate InStepWithDisk(s: Memory, rows: seq<Row>, now: int) {
    if Render(s.rows) == s.document then rows == s.rows else rows == ReplaceAll(s.rows, s.document, now)
  }

  /** The table a commit makes before it compresses. A write with changes mutates; one without replaces the
      table if its document is another one. */
  ghost predicate Written(rows: seq<Row>, v: Validated, document: seq<Entry>, now: int, today: string,
      rows': seq<Row>) {
    var m := v.mutation;
    if m.adds != [] || m.rewrites != [] || m.deletes != {} || m.cited != {} then rows' == Mutate(rows, m, now, today)
    else if v.document != document then rows' == ReplaceAll(rows, v.document, now)
    else rows' == rows
  }

  /** How a commit ends, whatever was validated: refused before it writes the document, refused by
      compression, or done. Note files without a reference are removed after the document is written and once
      more after compression. */
  lemma CommitEndsIn(s: Memory, v: Validated, now: int, today: string, settings: Settings)
    requires CanInsert(Synced(s.rows, s.document, now), v.mutation.adds)
    ensures var o := Commit(s, v, now, today, settings);
            exists rows, rows' ::
              && InStepWithDisk(s, rows, now) && Written(rows, v, s.document, now, today, rows')
              && (!DocumentOk(Render(rows'), settings.limits) ==>
                    o == Refused(Memory(rows', s.document, s.notes + v.upserts)))
              && (DocumentOk(Render(rows'), settings.limits) ==>
                    var c := CompressIfNeeded(rows', Render(rows'), settings.budget, settings.limits);
                    && o.memory.rows == c.rows && o.memory.document == c.document && (o.Refused? <==> c.aborted)
                    && (o.Refused? ==> o.memory.notes == (s.notes + v.upserts) * DocumentRefs(Render(rows')))
                    && (o.Committed? ==>
                          && o.log == c.log
                          && o.memory.notes
                             == (s.notes + v.upserts) * DocumentRefs(Render(rows')) * DocumentRefs(c.document)))
  {
    var rows := Synced(s.rows, s.document, now);
    var rows' := if Structured(v.mutation) then Mutate(rows, v.mutation, now, today)
      else if v.document != s.document then ReplaceAll(rows, v.document, now) else rows;
    assert InStepWithDisk(s, rows, now) && Written(rows, v, s.document, now, today, rows');
  }
}
