/** Note files and document: when they agree after a commit, and over any number of commits. */
module MemoryNotes {
  import opened Sequences
  import opened MemoryTable
  import opened MemoryValidator
  import opened MemoryEdits
  import opened MemoryAgreement
  import opened MemoryCompression
  import opened MemoryRefusal
  import opened MemoryDeletion
  import opened MemoryCommit

  // ---------------------------------------------------------------- a finished commit

  /** Each row of a table has its note exactly when its id is not in `dangling`, and rows without are
      not compressed. */
  ghost predicate GroundedBut(rows: seq<Row>, available: set<string>, dangling: iset<Id>) {
    forall r :: r in rows ==> (Grounded(r, available) <==> r.id !in dangling) && (r.id in dangling ==> !r.compressed)
  }

  /** Compression drops every row with one of these ids. */
  ghost predicate AllDropped(rows: seq<Row>, budget: Budget, ids: iset<Id>) {
    forall r :: r in rows && r.id in ids ==> Drops(rows, budget, r)
  }

  lemma SurvivorsAreNotDropped(rows: seq<Row>, budget: Budget, limits: Limits, ids: iset<Id>)
    requires DocumentOk(Render(rows), limits) && forall r :: r in rows && r.id in ids ==> !r.compressed
    requires !CompressIfNeeded(rows, Render(rows), budget, limits).aborted
    ensures (forall r :: r in CompressIfNeeded(rows, Render(rows), budget, limits).rows ==> r.id !in ids)
            <==> AllDropped(rows, budget, ids)
  {
    var c := CompressIfNeeded(rows, Render(rows), budget, limits);
    AcceptedFits(rows, Render(rows), limits);
    CompressionIsLegalAndEnds(rows, budget, limits);
    LogSurvives(rows, c.log);
    ReplayKeepsDistinct(rows, c.log);
    forall r | r in rows && r.id in ids
      ensures RowWithId(c.rows, r.id).None? <==> Drops(rows, budget, r)
    {
      RunDrops(rows, budget, limits, r);
    }
    if AllDropped(rows, budget, ids) {
      forall r | r in c.rows
        ensures r.id !in ids
      {
        assert Survives(rows, r);
        var q :| q in rows && r == q.(compressed := r.compressed) && (q.compressed ==> r.compressed);
        var k :| 0 <= k < |c.rows| && c.rows[k] == r;
        RowIsFound(c.rows, k);
        assert q.id == r.id;
      }
    } else {
      var r :| r in rows && r.id in ids && !Drops(rows, budget, r);
      FoundRow(c.rows, r.id);
    }
  }

  lemma {:induction false} ReplayKeepsDistinct(rows: seq<Row>, log: seq<Action>)
    requires Distinct(TableIds(rows))
    ensures Distinct(TableIds(Replay(rows, log)))
    decreases |log|
  {
    if log != [] {
      ApplyLookup(rows, log[0], log[0].id);
      ReplayKeepsDistinct(Apply(rows, log[0]), log[1..]);
    }
  }

  lemma FinishGrounded(rows: seq<Row>, document: seq<Entry>, notes: set<string>, settings: Settings, dangling: iset<Id>)
    requires GroundedBut(rows, notes, dangling)
    ensures var o := Finish(rows, document, notes, settings);
            o.Committed? ==>
              (o.memory.notes == DocumentRefs(o.memory.document) <==> AllDropped(rows, settings.budget, dangling))
  {
    var o := Finish(rows, document, notes, settings);
    FinishMatches(rows, document, notes, settings);
    if o.Committed? {
      FinishSurvives(rows, document, notes, settings);
      forall r | r in o.memory.rows
        ensures Grounded(r, notes) <==> r.id !in dangling
      {
        assert Survives(rows, r);
        var q :| q in rows && r == q.(compressed := r.compressed) && (q.compressed ==> r.compressed);
        assert RowRef(q) == RowRef(r);
      }
      RenderRefs(o.memory.rows);
      GroundedRefs(o.memory.rows, notes);
      SurvivorsAreNotDropped(rows, settings.budget, settings.limits, dangling);
    }
  }

  // ---------------------------------------------------------------- the commit

  /** A batch that changes nothing leaves the document as it was. */
  lemma UnstructuredChangesNothing(before: seq<Entry>, b: Batch, ids: seq<Id>, today: string)
    requires IdsKnown(before, b) && FreshIds(before, b, ids) && !Structured(Proposal(before, b, ids, today).mutation)
    ensures Proposal(before, b, ids, today).document == before
  {
    var kept := Keep(before, b, today, {});
    DeletesAreTheRest(before, b, ids, today);
    TakenAdds(b.adds, ids, today, kept.seen);
    forall i | 0 <= i < |before|
      ensures before[i].id in EntryIds(kept.entries) && LastRewrite(b.rewrites, before[i].id).None?
    {
      assert EntryIds(before)[i] == before[i].id;
      KeptRewrites(before, b, today, {}, before[i].id);
    }
    KeptAll(before, b, today, {});
  }

  lemma {:induction false} KeptAll(before: seq<Entry>, b: Batch, today: string, seen: set<Key>)
    requires Distinct(EntryIds(before))
    requires forall i :: 0 <= i < |before| ==>
               before[i].id in EntryIds(Keep(before, b, today, seen).entries)
                 && LastRewrite(b.rewrites, before[i].id).None?
    ensures Keep(before, b, today, seen).entries == before
    decreases |before|
  {
    if before != [] {
      EntryTail(before);
      var u := Updated(before[0], b.rewrites, today);
      assert u == before[0];
      if before[0].id in b.deletes || KeyOf(u) in seen {
        KeptIds(before[1..], b, today, seen);
        assert false;
      } else {
        var rest := Keep(before[1..], b, today, seen + {KeyOf(u)}).entries;
        EntryCons(u, rest);
        forall i | 0 <= i < |before[1..]|
          ensures before[1..][i].id in EntryIds(rest) && LastRewrite(b.rewrites, before[1..][i].id).None?
        {
          assert before[1..][i] == before[i + 1];
          assert EntryIds(before[1..])[i] == before[i + 1].id;
        }
        KeptAll(before[1..], b, today, seen + {KeyOf(u)});
      }
    }
  }

  ghost function DanglingIds(b: Batch, m: Mutation, available: set<string>): iset<Id> {
    iset id | Dangling(b, m, available, id)
  }

  /** The table between the mutation and the compression. */
  function MutatedTable(s: Memory, v: Validated, now: int, today: string): seq<Row> {
    var rows := Synced(s.rows, s.document, now);
    if Structured(v.mutation) then Mutate(rows, v.mutation, now, today) else rows
  }

  /** A rewritten row starts uncompressed. */
  lemma DanglingIsUncompressed(rows: seq<Row>, before: seq<Entry>, b: Batch, ids: seq<Id>, now: int, today: string,
      available: set<string>, i: nat)
    requires IdsKnown(before, b) && FreshIds(before, b, ids)
    requires i < |Mutate(rows, Proposal(before, b, ids, today).mutation, now, today)|
    ensures var m := Proposal(before, b, ids, today).mutation;
            var r := Mutate(rows, m, now, today)[i];
            Dangling(b, m, available, r.id) ==> !r.compressed
  {
    var m := Proposal(before, b, ids, today).mutation;
    ProposedMutation(before, b, ids, today);
    MutateEdits(rows, m, now, today);
    var edited, added := EditedRows(rows, m.rewrites, m.deletes, today), NewRows(m.adds, now, today);
    var q := (edited + added)[i];
    if i < |edited| {
      EditedMembers(rows, m.rewrites, m.deletes, today);
      assert q in edited;
      var p :| p in rows && p.id !in m.deletes && q == Edit(p, m.rewrites, today);
      LastRewriteFinds(m.rewrites, p.id);
      OneRewritePerId(m.rewrites, p.id);
    } else {
      NewRowsMirrorAdds(m.adds, now, today);
    }
  }

  /** Every row of the mutated table has its note, except those left dangling, which are uncompressed. */
  lemma MutatedIsGrounded(s: Memory, b: Batch, ids: seq<Id>, now: int, today: string, checks: Checks, limits: Limits)
    requires DocumentRefs(s.document) <= s.notes && FreshIds(s.document, b, ids)
    requires Accepts(s.document, b, ids, today, checks, limits, s.notes)
    ensures var v, notes := Proposal(s.document, b, ids, today), s.notes + b.upserts;
            GroundedBut(MutatedTable(s, v, now, today), notes, DanglingIds(b, v.mutation, notes))
  {
    var v, notes := Proposal(s.document, b, ids, today), s.notes + b.upserts;
    var rows, rows' := Synced(s.rows, s.document, now), MutatedTable(s, v, now, today);
    SyncedInStep(s.rows, s.document, now);
    forall r | r in rows'
      ensures Grounded(r, notes) <==> !Dangling(b, v.mutation, notes, r.id)
      ensures Dangling(b, v.mutation, notes, r.id) ==> !r.compressed
    {
      var i :| 0 <= i < |rows'| && rows'[i] == r;
      if Structured(v.mutation) {
        MutatedRowGrounded(rows, s.document, b, ids, now, today, s.notes, i);
        DanglingIsUncompressed(rows, s.document, b, ids, now, today, notes, i);
      } else {
        FirstRefFinds(s.document[i].summary);
        assert s.document[i] in s.document;
      }
    }
  }

  /** Notes and document agree. If every reference in the snapshot has a note file before an
      accepted commit, then after it the note files are exactly the references of the final
      document, if and only if compression drops every row that the batch rewrote with a reference
      it did not have to name. The right side is decided by the table before compression. */
  lemma NotesAreTheReferences(s: Memory, b: Batch, ids: seq<Id>, now: int, today: string, checks: Checks,
      settings: Settings)
    requires DocumentRefs(s.document) <= s.notes && FreshIds(s.document, b, ids)
    requires Accepts(s.document, b, ids, today, checks, settings.limits, s.notes)
    ensures var v := Proposal(s.document, b, ids, today);
            var o := Commit(s, v, now, today, settings);
            o.Committed? ==>
              && o.memory.document == Render(o.memory.rows)
              && (o.memory.notes == DocumentRefs(o.memory.document)
                  <==> AllDropped(MutatedTable(s, v, now, today), settings.budget,
                    DanglingIds(b, v.mutation, s.notes + b.upserts)))
  {
    var v := Proposal(s.document, b, ids, today);
    var rows, notes := MutatedTable(s, v, now, today), s.notes + b.upserts;
    MutatedIsGrounded(s, b, ids, now, today, checks, settings.limits);
    if !Structured(v.mutation) {
      UnstructuredChangesNothing(s.document, b, ids, today);
    }
    FinishGrounded(rows, s.document, notes, settings, DanglingIds(b, v.mutation, notes));
    FinishMatches(rows, s.document, notes, settings);
  }

  /** No effective rewrite of the batch has a reference without a note. */
  ghost predicate NoneDangling(s: Memory, b: Batch, ids: seq<Id>, today: string)
    requires |ids| >= |b.adds|
  {
    forall id :: !Dangling(b, Proposal(s.document, b, ids, today).mutation, s.notes + b.upserts, id)
  }

  /** A rewrite takes effect on an id of the snapshot that is not deleted. */
  lemma RewrittenIsKept(before: seq<Entry>, b: Batch, ids: seq<Id>, today: string, w: Rewrite)
    requires IdsKnown(before, b) && FreshIds(before, b, ids)
    requires w in Proposal(before, b, ids, today).mutation.rewrites
    ensures w.id in EntryIds(before) && w.id !in Proposal(before, b, ids, today).mutation.deletes
  {
    ProposedMutation(before, b, ids, today);
    OneRewritePerId(Proposal(before, b, ids, today).mutation.rewrites, w.id);
    KeptRewrites(before, b, today, {}, w.id);
    KeptIds(before, b, today, {});
    DeletesAreTheRest(before, b, ids, today);
  }

  /** A rewrite that takes effect has a row in the mutated table. */
  lemma RewrittenIsThere(s: Memory, b: Batch, ids: seq<Id>, now: int, today: string, w: Rewrite)
    requires IdsKnown(s.document, b) && FreshIds(s.document, b, ids)
    requires w in Proposal(s.document, b, ids, today).mutation.rewrites
    ensures exists r :: r in MutatedTable(s, Proposal(s.document, b, ids, today), now, today) && r.id == w.id
  {
    var m := Proposal(s.document, b, ids, today).mutation;
    var rows := Synced(s.rows, s.document, now);
    SyncedInStep(s.rows, s.document, now);
    RewrittenIsKept(s.document, b, ids, today, w);
    ProposedMutation(s.document, b, ids, today);
    var k :| 0 <= k < |s.document| && EntryIds(s.document)[k] == w.id;
    assert rows[k] in rows && rows[k].id == w.id;
    EditedMembers(rows, m.rewrites, m.deletes, today);
    var edited := EditedRows(rows, m.rewrites, m.deletes, today);
    assert Edit(rows[k], m.rewrites, today) in edited;
    var j :| 0 <= j < |edited| && edited[j] == Edit(rows[k], m.rewrites, today);
    LastRewriteFinds(m.rewrites, rows[k].id);
    MutateEdits(rows, m, now, today);
    assert Mutate(rows, m, now, today)[j].id == w.id;
  }

  /** In particular, as long as the mutated document does not set off a compression run, the notes are
      the references if and only if the batch leaves nothing dangling; and a user's row left dangling
      keeps them apart always. */
  lemma DanglingDecides(s: Memory, b: Batch, ids: seq<Id>, now: int, today: string, checks: Checks, settings: Settings)
    requires DocumentRefs(s.document) <= s.notes && FreshIds(s.document, b, ids)
    requires Accepts(s.document, b, ids, today, checks, settings.limits, s.notes)
    ensures var v := Proposal(s.document, b, ids, today);
            var rows, o := MutatedTable(s, v, now, today), Commit(s, v, now, today, settings);
            var agree := o.Committed? ==> o.memory.notes == DocumentRefs(o.memory.document);
            && (NoneDangling(s, b, ids, today) ==> agree)
            && (o.Committed? && agree && DocumentLength(Render(rows)) <= TriggerLength(settings.budget) ==>
                  NoneDangling(s, b, ids, today))
            && (o.Committed? && agree ==>
                  forall r :: r in rows && FromUser(r) ==> !Dangling(b, v.mutation, s.notes + b.upserts, r.id))
  {
    var v := Proposal(s.document, b, ids, today);
    var notes := s.notes + b.upserts;
    NotesAreTheReferences(s, b, ids, now, today, checks, settings);
    forall id | Dangling(b, v.mutation, notes, id)
      ensures exists r :: r in MutatedTable(s, v, now, today) && r.id == id
    {
      var w :| w in v.mutation.rewrites && w.id == id && Unchecked(b, w, notes);
      RewrittenIsThere(s, b, ids, now, today, w);
    }
  }

  lemma ImportedRefs(rows: seq<Row>, document: seq<Entry>, now: int)
    ensures TableRefs(ReplaceAll(rows, document, now)) <= DocumentRefs(document)
  {
    var rows' := ReplaceAll(rows, document, now);
    forall r | r in rows' && RowRef(r).Some?
      ensures RowRef(r).value in DocumentRefs(document)
    {
      var i :| 0 <= i < |rows'| && rows'[i] == r;
      FirstRefFinds(document[i].summary);
      assert RowRef(r) == FirstRef(document[i].summary) && document[i] in document;
    }
  }

  /** A write without row changes, such as an import, brings a whole document. If every reference
      of that document has a note, the note files are exactly the references afterwards. */
  lemma ImportedNotesAreTheReferences(s: Memory, v: Validated, now: int, today: string, settings: Settings)
    requires !Structured(v.mutation) && v.document != s.document && DocumentRefs(v.document) <= s.notes + v.upserts
    ensures var o := Commit(s, v, now, today, settings);
            o.Committed? ==>
              o.memory.document == Render(o.memory.rows) && o.memory.notes == DocumentRefs(o.memory.document)
  {
    var rows := ReplaceAll(Synced(s.rows, s.document, now), v.document, now);
    ImportedRefs(Synced(s.rows, s.document, now), v.document, now);
    FinishMatches(rows, s.document, s.notes + v.upserts, settings);
  }

  lemma TwoRewrites(first: Rewrite, second: Rewrite)
    requires first.id == second.id && FirstRef(second.minimal).None?
    ensures LastRewrite([first, second], first.id) == Some(second)
    ensures RememberedRef([first, second], first.id) == FirstRef(first.minimal)
  {
    assert [first, second][1..] == [second] && [second][1..] == [];
    assert LastRewrite([second], first.id) == Some(second) && RememberedRef([second], first.id) == None;
  }

  lemma OneKept(e: Entry, w: Rewrite, b: Batch, today: string)
    requires e.id !in b.deletes && LastRewrite(b.rewrites, e.id) == Some(w)
    ensures var u := Updated(e, b.rewrites, today);
            Keep([e], b, today, {}) == Kept([u], [w], {KeyOf(u)})
  {
    var u := Updated(e, b.rewrites, today);
    var none: set<Key> := {};
    assert KeyOf(u) !in none && none + {KeyOf(u)} == {KeyOf(u)};
    assert [e][1..] == [] && Keep([], b, today, none + {KeyOf(u)}) == Kept([], [], {KeyOf(u)});
  }

  /** One row with the snapshot of the example, rewritten twice: first naming note n1, then with n2 in
      its content. */
  const OLD: Entry := Entry("aaaaaa", "2026/1/1", "user", [Plain("old")])
  const FIRST: Rewrite := Rewrite("aaaaaa", [Plain("one")], [Plain("c->k"), NoteRef("n1")])
  const SECOND: Rewrite := Rewrite("aaaaaa", [Plain("two "), NoteRef("n2")], [Plain("c->k")])
  const TWICE: Batch := Batch("write", [], [FIRST, SECOND], {}, {}, {"n1"}, false, false)

  lemma TextsOfTwice()
    ensures FirstRef(FIRST.minimal) == Some("n1") && FirstRef(SECOND.content) == Some("n2")
    ensures FirstRef(FIRST.content) == None && FirstRef(SECOND.minimal) == None
    ensures Length(WithRef(SECOND.content, Some("n1"))) == 11 == Length(WithRef(SECOND.content, Some("n2")))
  {
    assert FIRST.minimal[1..] == [NoteRef("n1")] && SECOND.content[1..] == [NoteRef("n2")];
    assert [Plain("c->k")][1..] == [] && [Plain("one")][1..] == [];
    assert StripRefs(SECOND.content) == [Plain("two ")] by {
      assert StripRefs([NoteRef("n2")]) == [];
    }
    TwoPieces("n1");
    TwoPieces("n2");
  }

  lemma TwoPieces(name: string)
    requires |name| == 2
    ensures Length([Plain("two ")] + [NoteRef(name)]) == 11
  {
    var t := [Plain("two ")] + [NoteRef(name)];
    assert t[1..] == [NoteRef(name)] && t[1..][1..] == [];
    assert Length(t[1..]) == 7 + Length(t[1..][1..]) && Length(t) == 4 + Length(t[1..]);
  }

  lemma TwiceIsProposed()
    ensures var p := Proposal([OLD], TWICE, [], "2026/1/2");
            && p.document == [Updated(OLD, TWICE.rewrites, "2026/1/2")]
            && p.mutation == Mutation([], [SECOND], {}, {}) && p.upserts == {"n1"}
            && p.document[0].summary == WithRef(SECOND.content, Some("n1"))
  {
    TextsOfTwice();
    TwoRewrites(FIRST, SECOND);
    OneKept(OLD, SECOND, TWICE, "2026/1/2");
    assert EntryIds([OLD]) == ["aaaaaa"] == EntryIds(Proposal([OLD], TWICE, [], "2026/1/2").document);
  }

  lemma TwiceTexts(checks: Checks)
    requires forall t :: checks.content(t) && checks.minimal(t)
    ensures TextsOk([OLD], TWICE, checks, Limits(300, 20000), "2026/1/2")
  {
    TextsOfTwice();
    TwoRewrites(FIRST, SECOND);
    WithRefRefs(SECOND.content, Some("n1"));
  }

  lemma OneEntryFits(e: Entry, limits: Limits)
    requires EntryLength(e) <= limits.documentMax && Length(e.summary) <= limits.summaryMax
    ensures DocumentOk([e], limits)
  {
    assert [e][1..] == [] && TotalLength([e]) == EntryLength(e);
  }

  lemma TwiceDocument()
    ensures var doc := Proposal([OLD], TWICE, [], "2026/1/2").document;
            DocumentOk(doc, Limits(300, 20000)) && NotesPresent(doc, TWICE, {})
  {
    TextsOfTwice();
    TwiceIsProposed();
    WithRefRefs(SECOND.content, Some("n1"));
    OneEntryFits(Updated(OLD, TWICE.rewrites, "2026/1/2"), Limits(300, 20000));
  }

  lemma TwiceIsAccepted(checks: Checks)
    requires forall t :: checks.content(t) && checks.minimal(t)
    ensures Accepts([OLD], TWICE, [], "2026/1/2", checks, Limits(300, 20000), {})
    ensures FreshIds([OLD], TWICE, [])
  {
    TwiceTexts(checks);
    TwiceDocument();
    assert EntryIds([OLD]) == ["aaaaaa"];
  }

  /** The row after the batch; its counters do not show. */
  lemma TwiceMutated(row: Row, now: int)
    requires row.id == "aaaaaa"
    ensures var rows := Mutate([row], Mutation([], [SECOND], {}, {}), now, "2026/1/2");
            && |rows| == 1
            && Rendered(rows[0]) == Entry("aaaaaa", "2026/1/2", row.source, WithRef(SECOND.content, Some("n2")))
  {
    var m := Mutation([], [SECOND], {}, {});
    TextsOfTwice();
    assert [SECOND][1..] == [];
    assert LastRewrite([SECOND], "aaaaaa") == Some(SECOND);
    MutateEdits([row], m, now, "2026/1/2");
    var edited := Edit(row, m.rewrites, "2026/1/2");
    assert EditedRows([row], m.rewrites, m.deletes, "2026/1/2") == [edited] by {
      assert [row][1..] == [];
    }
    assert [edited] + NewRows(m.adds, now, "2026/1/2") == [edited];
    assert RowRef(edited) == Some("n2");
  }

  lemma OneEntryRefs(e: Entry)
    ensures DocumentRefs([e]) == RefsOf(e.summary)
  {
    assert e in [e];
  }

  /** A commit whose table has one row that fits and needs no compression. */
  lemma FinishOneRow(r: Row, document: seq<Entry>, notes: set<string>, settings: Settings)
    requires TotalLength([Rendered(r)]) <= settings.limits.documentMax
             && Length(Rendered(r).summary) <= settings.limits.summaryMax
    requires TotalLength([Rendered(r)]) <= TriggerLength(settings.budget)
    ensures var o, refs := Finish([r], document, notes, settings), RefsOf(Rendered(r).summary);
            o.Committed? && DocumentRefs(o.memory.document) == refs && o.memory.notes == notes * refs
  {
    var doc := [Rendered(r)];
    assert Render([r]) == doc;
    OneEntryRefs(doc[0]);
    assert DocumentOk(doc, settings.limits);
  }

  /** The failure is real: from a snapshot without references, an accepted batch that brings note n1
      commits, and afterwards the document refers to n2 alone, which has no file. */
  lemma DanglingIsReal(checks: Checks, now: int)
    requires forall t :: checks.content(t) && checks.minimal(t)
    ensures var s, settings := Memory([], [OLD], {}), Settings(Limits(300, 20000), Budget(16000, 13000));
            var o := Commit(s, Proposal([OLD], TWICE, [], "2026/1/2"), now, "2026/1/2", settings);
            && DocumentRefs(s.document) == {} && FreshIds([OLD], TWICE, [])
            && Accepts([OLD], TWICE, [], "2026/1/2", checks, settings.limits, s.notes)
            && o.Committed? && DocumentRefs(o.memory.document) == {"n2"} && o.memory.notes == {}
  {
    TwiceIsAccepted(checks);
    OneEntryRefs(OLD);
    TwiceCommits(now, Settings(Limits(300, 20000), Budget(16000, 13000)));
  }

  /** The table before compression: one row that refers to n2. */
  lemma TwiceTable(now: int)
    ensures var rows := MutatedTable(Memory([], [OLD], {}), Proposal([OLD], TWICE, [], "2026/1/2"), now, "2026/1/2");
            |rows| == 1 && Rendered(rows[0]) == Entry("aaaaaa", "2026/1/2", "user", WithRef(SECOND.content, Some("n2")))
  {
    TwiceIsProposed();
    var rows := Synced([], [OLD], now);
    assert |Render([])| != |[OLD]| && rows == [RowFromEntry([], OLD, now)];
    TwiceMutated(rows[0], now);
  }

  lemma TwiceFits(r: Row)
    requires Rendered(r) == Entry("aaaaaa", "2026/1/2", "user", WithRef(SECOND.content, Some("n2")))
    ensures TotalLength([Rendered(r)]) < 100 && Length(Rendered(r).summary) == 11
    ensures RefsOf(Rendered(r).summary) == {"n2"}
  {
    TextsOfTwice();
    WithRefRefs(SECOND.content, Some("n2"));
    var doc := [Rendered(r)];
    assert doc[1..] == [] && TotalLength(doc) == EntryLength(doc[0]);
  }

  lemma TwiceIsFinish(now: int, settings: Settings)
    ensures var s, v := Memory([], [OLD], {}), Proposal([OLD], TWICE, [], "2026/1/2");
            Commit(s, v, now, "2026/1/2", settings)
            == Finish(MutatedTable(s, v, now, "2026/1/2"), [OLD], {"n1"}, settings)
  {
    TwiceIsProposed();
    assert {} + {"n1"} == {"n1"};
  }

  lemma TwiceCommits(now: int, settings: Settings)
    requires settings == Settings(Limits(300, 20000), Budget(16000, 13000))
    ensures var o := Commit(Memory([], [OLD], {}), Proposal([OLD], TWICE, [], "2026/1/2"), now, "2026/1/2", settings);
            o.Committed? && DocumentRefs(o.memory.document) == {"n2"} && o.memory.notes == {}
  {
    var s, v := Memory([], [OLD], {}), Proposal([OLD], TWICE, [], "2026/1/2");
    var rows := MutatedTable(s, v, now, "2026/1/2");
    TwiceTable(now);
    TwiceFits(rows[0]);
    assert rows == [rows[0]];
    FinishOneRow(rows[0], [OLD], {"n1"}, settings);
    TwiceIsFinish(now, settings);
  }

  // ---------------------------------------------------------------- any number of commits

  ghost predicate Backed(s: Memory) {
    DocumentRefs(s.document) <= s.notes
  }

  lemma GroundedTable(s: Memory, b: Batch, ids: seq<Id>, now: int, today: string, checks: Checks, settings: Settings)
    requires Backed(s) && FreshIds(s.document, b, ids) && NoneDangling(s, b, ids, today)
    requires Accepts(s.document, b, ids, today, checks, settings.limits, s.notes)
    ensures var rows := Synced(s.rows, s.document, now);
            && TableRefs(rows) <= s.notes + b.upserts
            && TableRefs(Mutate(rows, Proposal(s.document, b, ids, today).mutation, now, today)) <= s.notes + b.upserts
  {
    var m := Proposal(s.document, b, ids, today).mutation;
    var rows, notes := Synced(s.rows, s.document, now), s.notes + b.upserts;
    var rows' := Mutate(rows, m, now, today);
    SyncedInStep(s.rows, s.document, now);
    forall r | r in rows
      ensures Grounded(r, notes)
    {
      var i :| 0 <= i < |rows| && rows[i] == r;
      FirstRefFinds(s.document[i].summary);
      assert s.document[i] in s.document;
    }
    forall r | r in rows'
      ensures Grounded(r, notes)
    {
      var i :| 0 <= i < |rows'| && rows'[i] == r;
      MutatedRowGrounded(rows, s.document, b, ids, now, today, s.notes, i);
    }
    GroundedRefs(rows, notes);
    GroundedRefs(rows', notes);
  }

  /** However the commit of such a batch ends, even by an error half way, no reference of the
      document on disk is left without its note. */
  lemma CommitKeepsNotes(s: Memory, b: Batch, ids: seq<Id>, now: int, today: string, checks: Checks, settings: Settings)
    requires Backed(s) && FreshIds(s.document, b, ids) && NoneDangling(s, b, ids, today)
    requires Accepts(s.document, b, ids, today, checks, settings.limits, s.notes)
    ensures var o := Commit(s, Proposal(s.document, b, ids, today), now, today, settings);
            Backed(o.memory) && (o.Committed? ==> o.memory.notes == DocumentRefs(o.memory.document))
  {
    var v := Proposal(s.document, b, ids, today);
    var rows, notes := Synced(s.rows, s.document, now), s.notes + b.upserts;
    GroundedTable(s, b, ids, now, today, checks, settings);
    if !Structured(v.mutation) {
      UnstructuredChangesNothing(s.document, b, ids, today);
    }
    var rows' := if Structured(v.mutation) then Mutate(rows, v.mutation, now, today) else rows;
    FinishMatches(rows', s.document, notes, settings);
  }

  datatype Turn = Turn(batch: Batch, ids: seq<Id>, now: int, today: string)

  ghost predicate AcceptedTurn(s: Memory, t: Turn, checks: Checks, settings: Settings) {
    FreshIds(s.document, t.batch, t.ids)
      && Accepts(s.document, t.batch, t.ids, t.today, checks, settings.limits, s.notes)
  }

  ghost function AfterTurn(s: Memory, t: Turn, settings: Settings): Outcome
    requires |t.ids| >= |t.batch.adds|
  {
    Commit(s, Proposal(s.document, t.batch, t.ids, t.today), t.now, t.today, settings)
  }

  /** The names of the notes a turn refers to without having had to bring them. */
  ghost function DanglingNames(s: Memory, t: Turn): set<string>
    requires |t.ids| >= |t.batch.adds|
  {
    var m := Proposal(s.document, t.batch, t.ids, t.today).mutation;
    set w, n | w in m.rewrites && Unchecked(t.batch, w, s.notes + t.batch.upserts)
      && n in RefSet(FirstRef(w.content)) :: n
  }

  lemma NoNamesNoneDangling(s: Memory, t: Turn)
    requires |t.ids| >= |t.batch.adds| && DanglingNames(s, t) == {}
    ensures NoneDangling(s, t.batch, t.ids, t.today)
  {
    NamesAreListed(s, t);
  }

  lemma NamesAreListed(s: Memory, t: Turn)
    requires |t.ids| >= |t.batch.adds|
    ensures var m := Proposal(s.document, t.batch, t.ids, t.today).mutation;
            forall w :: w in m.rewrites && Unchecked(t.batch, w, s.notes + t.batch.upserts) ==>
              FirstRef(w.content).Some? && FirstRef(w.content).value in DanglingNames(s, t)
  {
  }

  /** With the notes it owes a turn would owe none. */
  lemma OwedIsEnough(s: Memory, t: Turn, owed: set<string>)
    requires |t.ids| >= |t.batch.adds|
    ensures DanglingNames(s.(notes := s.notes + (owed + DanglingNames(s, t))), t) == {}
  {
    var m := Proposal(s.document, t.batch, t.ids, t.today).mutation;
    var rich := s.notes + (owed + DanglingNames(s, t)) + t.batch.upserts;
    NamesAreListed(s, t);
    forall w | w in m.rewrites
      ensures !Unchecked(t.batch, w, rich)
    {
      assert RefSet(FirstRef(w.content)) <= s.notes + t.batch.upserts ==> RefSet(FirstRef(w.content)) <= rich;
    }
  }

  lemma FinishOwes(rows: seq<Row>, document: seq<Entry>, notes: set<string>, settings: Settings, owed: set<string>)
    requires DocumentRefs(document) <= notes + owed && TableRefs(rows) <= notes + owed
    ensures var o := Finish(rows, document, notes, settings);
            DocumentRefs(o.memory.document) <= o.memory.notes + owed
  {
    RenderRefs(rows);
    RoundsKeepRefs(rows, TargetLength(settings.budget), settings.limits);
  }

  /** However a commit ends, what the document refers to without a note was missing before or is named
      by the turn. */
  lemma CommitOwes(s: Memory, t: Turn, checks: Checks, settings: Settings, owed: set<string>)
    requires AcceptedTurn(s, t, checks, settings) && DocumentRefs(s.document) <= s.notes + owed
    ensures var o := AfterTurn(s, t, settings);
            DocumentRefs(o.memory.document) <= o.memory.notes + (owed + DanglingNames(s, t))
  {
    OwedTable(s, t, checks, settings, owed);
    FinishOwes(MutatedTable(s, Proposal(s.document, t.batch, t.ids, t.today), t.now, t.today), s.document,
               s.notes + t.batch.upserts, settings, owed + DanglingNames(s, t));
    if !Structured(Proposal(s.document, t.batch, t.ids, t.today).mutation) {
      UnstructuredChangesNothing(s.document, t.batch, t.ids, t.today);
    }
  }

  lemma OwedTable(s: Memory, t: Turn, checks: Checks, settings: Settings, owed: set<string>)
    requires AcceptedTurn(s, t, checks, settings) && DocumentRefs(s.document) <= s.notes + owed
    ensures TableRefs(MutatedTable(s, Proposal(s.document, t.batch, t.ids, t.today), t.now, t.today))
            <= s.notes + t.batch.upserts + (owed + DanglingNames(s, t))
  {
    var owed' := owed + DanglingNames(s, t);
    var rich := s.(notes := s.notes + owed');
    OwedIsEnough(s, t, owed);
    NoNamesNoneDangling(rich, t);
    GroundedTable(rich, t.batch, t.ids, t.now, t.today, checks, settings);
  }

  /** The memory, and the names of the notes earlier turns referred to without having had to bring
      them. */
  datatype Journal = Journal(memory: Memory, owed: set<string>)

  ghost predicate TurnTo(j: Journal, t: Turn, j': Journal, checks: Checks, settings: Settings) {
    && AcceptedTurn(j.memory, t, checks, settings)
    && j' == Journal(AfterTurn(j.memory, t, settings).memory, j.owed + DanglingNames(j.memory, t))
  }

  /** A run: batches one after another, each accepted against the snapshot it finds. */
  ghost predicate CommitRun(run: seq<Journal>, turns: seq<Turn>, checks: Checks, settings: Settings) {
    && |run| == |turns| + 1 && run[0].owed == {}
    && forall i :: 0 <= i < |turns| ==> TurnAt(run, turns, checks, settings, i)
  }

  ghost predicate TurnAt(run: seq<Journal>, turns: seq<Turn>, checks: Checks, settings: Settings, i: nat)
    requires i < |turns| < |run|
  {
    TurnTo(run[i], turns[i], run[i + 1], checks, settings)
  }

  ghost predicate Owing(j: Journal) {
    DocumentRefs(j.memory.document) <= j.memory.notes + j.owed
  }

  lemma BackedOwesNothing(j: Journal)
    requires Backed(j.memory)
    ensures Owing(j)
  {
  }

  /** One turn of a run. */
  lemma TurnOwes(j: Journal, t: Turn, j': Journal, checks: Checks, settings: Settings)
    requires TurnTo(j, t, j', checks, settings) && Owing(j)
    ensures Owing(j')
    ensures AfterTurn(j.memory, t, settings).Committed? && j'.owed == {} ==>
            j'.memory.notes == DocumentRefs(j'.memory.document)
  {
    CommitOwes(j.memory, t, checks, settings, j.owed);
    if j'.owed == {} {
      NoNamesNoneDangling(j.memory, t);
      CommitKeepsNotes(j.memory, t.batch, t.ids, t.now, t.today, checks, settings);
    }
  }

  lemma TurnOfRun(run: seq<Journal>, turns: seq<Turn>, checks: Checks, settings: Settings, i: nat)
    requires CommitRun(run, turns, checks, settings) && i < |turns| && Owing(run[i])
    ensures Owing(run[i + 1])
    ensures |turns[i].ids| >= |turns[i].batch.adds|
    ensures AfterTurn(run[i].memory, turns[i], settings).Committed? && run[i + 1].owed == {} ==>
              run[i + 1].memory.notes == DocumentRefs(run[i + 1].memory.document)
  {
    assert TurnAt(run, turns, checks, settings, i);
    TurnOwes(run[i], turns[i], run[i + 1], checks, settings);
  }

  lemma RunsOwe(run: seq<Journal>, turns: seq<Turn>, checks: Checks, settings: Settings, i: nat)
    requires CommitRun(run, turns, checks, settings) && Backed(run[0].memory) && i < |run|
    ensures Owing(run[i])
  {
    BackedOwesNothing(run[0]);
    forall k | 0 <= k < |turns| && Owing(run[k])
      ensures Owing(run[k + 1])
    {
      TurnOfRun(run, turns, checks, settings, k);
    }
    HoldsAlong(run, j => Owing(j), i);
  }

  /** Over any run of accepted batches, failed commits included, every reference of the document has
      its note at every moment or was left dangling by an earlier turn. As long as no turn has left
      one, after every commit the notes are exactly the references. */
  lemma RunsKeepNotes(run: seq<Journal>, turns: seq<Turn>, checks: Checks, settings: Settings, i: nat)
    requires CommitRun(run, turns, checks, settings) && Backed(run[0].memory) && i < |turns|
    ensures var j, j' := run[i], run[i + 1];
            && DocumentRefs(j'.memory.document) <= j'.memory.notes + j'.owed
            && |turns[i].ids| >= |turns[i].batch.adds|
            && (j'.owed == {} && AfterTurn(j.memory, turns[i], settings).Committed? ==>
                  j'.memory.notes == DocumentRefs(j'.memory.document))
  {
    RunsOwe(run, turns, checks, settings, i);
    TurnOfRun(run, turns, checks, settings, i);
  }
}
