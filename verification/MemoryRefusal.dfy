/** When a compression run is refused: exactly which edits, and which runs, end in a rebuilt document
    that the validator does not accept. */
module MemoryRefusal {
  import opened Sequences
  import opened MemoryTable
  import opened MemoryValidator
  import opened MemoryCompression

  // ---------------------------------------------------------------- what acceptance says about the rows

  lemma RenderCons(r: Row, rows: seq<Row>)
    ensures Render([r] + rows) == [Rendered(r)] + Render(rows)
    ensures TotalLength(Render([r] + rows)) == EntryLength(Rendered(r)) + TotalLength(Render(rows))
  {
    assert (Render([r] + rows))[1..] == Render(rows);
  }

  ghost predicate SummariesFit(rows: seq<Row>, limits: Limits) {
    forall r :: r in rows ==> Length(Rendered(r).summary) <= limits.summaryMax
  }

  lemma AcceptedFits(rows: seq<Row>, doc: seq<Entry>, limits: Limits)
    requires doc == Render(rows) && DocumentOk(doc, limits)
    ensures Distinct(TableIds(rows)) && SummariesFit(rows, limits)
  {
    forall i, j | 0 <= i < j < |rows|
      ensures TableIds(rows)[i] != TableIds(rows)[j]
    {
      assert doc[i].id == rows[i].id && doc[j].id == rows[j].id;
    }
    forall r | r in rows
      ensures Length(Rendered(r).summary) <= limits.summaryMax
    {
      var k :| 0 <= k < |rows| && rows[k] == r;
      assert doc[k] == Rendered(r);
    }
  }

  lemma FittingIsAccepted(rows: seq<Row>, doc: seq<Entry>, limits: Limits)
    requires doc == Render(rows) && TotalLength(doc) <= limits.documentMax
    requires Distinct(TableIds(rows)) && SummariesFit(rows, limits)
    ensures DocumentOk(doc, limits)
  {
    forall i, j | 0 <= i < j < |doc|
      ensures doc[i].id != doc[j].id
    {
      assert TableIds(rows)[i] != TableIds(rows)[j];
    }
    forall i | 0 <= i < |doc|
      ensures Length(doc[i].summary) <= limits.summaryMax
    {
      assert rows[i] in rows;
    }
  }

  /** What acceptance of a rendered document says about the rows. */
  lemma AcceptableRows(rows: seq<Row>, limits: Limits)
    ensures DocumentOk(Render(rows), limits)
            <==> (&& Distinct(TableIds(rows)) && TotalLength(Render(rows)) <= limits.documentMax
                  && SummariesFit(rows, limits))
  {
    if DocumentOk(Render(rows), limits) {
      AcceptedFits(rows, Render(rows), limits);
    } else if
      Distinct(TableIds(rows)) && TotalLength(Render(rows)) <= limits.documentMax && SummariesFit(rows, limits)
    {
      FittingIsAccepted(rows, Render(rows), limits);
    }
  }

  // ---------------------------------------------------------------- one edit

  /** The length of the summary the row shows once it is compressed. */
  function CompressedLength(r: Row): nat {
    Length(Rendered(r.(compressed := true)).summary)
  }

  /** By how much compressing the row lengthens the document. */
  function Growth(r: Row): int {
    CompressedLength(r) - Length(Rendered(r).summary)
  }

  lemma {:induction false} AbsentRow(rows: seq<Row>, id: Id)
    requires id !in TableIds(rows)
    ensures CompressRow(rows, id) == rows && DeleteAll(rows, {id}) == rows
  {
    if rows != [] {
      assert TableIds(rows) == [rows[0].id] + TableIds(rows[1..]);
      AbsentRow(rows[1..], id);
    }
  }

  /** What one edit does to the length of the document. */
  lemma {:induction false} EditedLength(rows: seq<Row>, c: Row)
    requires Distinct(TableIds(rows)) && RowWithId(rows, c.id) == Some(c)
    ensures TotalLength(Render(CompressRow(rows, c.id))) == TotalLength(Render(rows)) + Growth(c)
    ensures TotalLength(Render(DeleteAll(rows, {c.id}))) == TotalLength(Render(rows)) - EntryLength(Rendered(c))
  {
    var r, rest := rows[0], rows[1..];
    assert rows == [r] + rest && TableIds(rows) == [r.id] + TableIds(rest);
    DistinctTail(TableIds(rows));
    RenderCons(r, rest);
    RenderCons(r, DeleteAll(rest, {c.id}));
    RenderCons(if r.id == c.id then r.(compressed := true) else r, CompressRow(rest, c.id));
    if r.id == c.id {
      AbsentRow(rest, c.id);
      assert DeleteAll(rows, {c.id}) == rest;
    } else {
      EditedLength(rest, c);
    }
  }

  /** From an accepted document, compressing a row is refused if and only if its compressed summary is
      too long or makes the document too long. */
  lemma CompressingIsRefused(rows: seq<Row>, c: Row, limits: Limits)
    requires DocumentOk(Render(rows), limits) && RowWithId(rows, c.id) == Some(c)
    ensures !DocumentOk(Render(CompressRow(rows, c.id)), limits)
            <==> CompressedLength(c) > limits.summaryMax || TotalLength(Render(rows)) + Growth(c) > limits.documentMax
  {
    var rows' := CompressRow(rows, c.id);
    AcceptableRows(rows, limits);
    AcceptableRows(rows', limits);
    EditedLength(rows, c);
    CompressRowIds(rows, c.id);
    CompressedMembers(rows, c);
  }

  lemma {:induction false} CompressedMembers(rows: seq<Row>, c: Row)
    requires Distinct(TableIds(rows)) && RowWithId(rows, c.id) == Some(c)
    ensures forall r :: r in CompressRow(rows, c.id) <==> r == c.(compressed := true) || (r in rows && r != c)
  {
    var r, rest := rows[0], rows[1..];
    assert rows == [r] + rest && TableIds(rows) == [r.id] + TableIds(rest);
    DistinctTail(TableIds(rows));
    if r.id == c.id {
      AbsentRow(rest, c.id);
      forall q | q in rest
        ensures q != c
      {
        var k :| 0 <= k < |rest| && rest[k] == q;
        assert TableIds(rest)[k] == q.id;
      }
    } else {
      CompressedMembers(rest, c);
    }
  }

  /** Removing a row is never refused. */
  lemma RemovingIsAccepted(rows: seq<Row>, id: Id, limits: Limits)
    requires DocumentOk(Render(rows), limits)
    ensures DocumentOk(Render(DeleteAll(rows, {id})), limits)
  {
    AcceptableRows(rows, limits);
    if id in TableIds(rows) {
      var k :| 0 <= k < |rows| && TableIds(rows)[k] == id;
      RowIsFound(rows, k);
      EditedLength(rows, rows[k]);
    } else {
      AbsentRow(rows, id);
    }
    DeleteAllKeepsDistinct(rows, {id});
    DeleteAllMembers(rows, {id});
    AcceptableRows(DeleteAll(rows, {id}), limits);
  }

  // ---------------------------------------------------------------- one pass

  /** By how much the edit planned for a candidate changes the length of the document. */
  function Change(c: Row): int {
    if c.compressed then 0 - EntryLength(Rendered(c)) else Growth(c)
  }

  /** The compressed summary, or the document with it, is too long. */
  predicate TooLongCompressed(c: Row, total: int, limits: Limits) {
    !c.compressed && (CompressedLength(c) > limits.summaryMax || total + Growth(c) > limits.documentMax)
  }

  /** What a caller can compute beforehand from the candidates and the length of the document: going
      through them in order, while the running length is beyond the target, a row is met that must not
      be compressed. */
  predicate MeetsRefusal(candidates: seq<Row>, total: int, target: nat, limits: Limits)
    decreases |candidates|
  {
    candidates != [] && total - 1 > target &&
    var c, rest := candidates[0], candidates[1..];
    if c.compressed && FromUser(c) then MeetsRefusal(rest, total, target, limits)
    else TooLongCompressed(c, total, limits) || MeetsRefusal(rest, total + Change(c), target, limits)
  }

  lemma TooLong(doc: seq<Entry>, target: nat)
    ensures DocumentLength(doc) > target <==> TotalLength(doc) - 1 > target
  {
  }

  /** The step a pass makes with a candidate it plans to edit. */
  lemma PassOpens(rows: seq<Row>, candidates: seq<Row>, e: Action, target: nat, limits: Limits)
    requires Current(rows, candidates) && candidates != [] && Planned(candidates[0]) == Some(e)
    requires DocumentLength(Render(rows)) > target
    ensures var c, rows' := RunPass(rows, Render(rows), candidates, target, limits), Apply(rows, e);
            if !DocumentOk(Render(rows'), limits) then c.aborted
            else
              var rest := RunPass(rows', Render(rows'), candidates[1..], target, limits);
              c.aborted == rest.aborted && c.document == rest.document && c.rows == rest.rows
  {
    assert Effective(rows, e);
  }

  ghost predicate RefusedAsMet(rows: seq<Row>, candidates: seq<Row>, target: nat, limits: Limits) {
    var c := RunPass(rows, Render(rows), candidates, target, limits);
    && (c.aborted <==> MeetsRefusal(candidates, TotalLength(Render(rows)), target, limits))
    && (!c.aborted ==> DocumentOk(c.document, limits))
  }

  lemma EditFacts(rows: seq<Row>, candidates: seq<Row>, e: Action, limits: Limits)
    requires DocumentOk(Render(rows), limits) && Current(rows, candidates)
    requires candidates != [] && Planned(candidates[0]) == Some(e)
    ensures Current(Apply(rows, e), candidates[1..])
    ensures TotalLength(Render(Apply(rows, e))) == TotalLength(Render(rows)) + Change(candidates[0])
    ensures !DocumentOk(Render(Apply(rows, e)), limits)
            <==> TooLongCompressed(candidates[0], TotalLength(Render(rows)), limits)
  {
    var c := candidates[0];
    CurrentTail(rows, candidates, e);
    EditedLength(rows, c);
    if e.Compress? {
      CompressingIsRefused(rows, c, limits);
    } else {
      RemovingIsAccepted(rows, c.id, limits);
    }
  }

  lemma MeetsOpens(candidates: seq<Row>, total: int, target: nat, limits: Limits)
    requires candidates != [] && Planned(candidates[0]).Some? && total - 1 > target
    ensures MeetsRefusal(candidates, total, target, limits)
            <==> TooLongCompressed(candidates[0], total, limits)
                 || MeetsRefusal(candidates[1..], total + Change(candidates[0]), target, limits)
  {
  }

  lemma EditStep(rows: seq<Row>, rows': seq<Row>, candidates: seq<Row>, e: Action, target: nat, limits: Limits)
    requires Current(rows, candidates) && candidates != [] && Planned(candidates[0]) == Some(e)
    requires rows' == Apply(rows, e) && DocumentLength(Render(rows)) > target
    requires TotalLength(Render(rows')) == TotalLength(Render(rows)) + Change(candidates[0])
    requires !DocumentOk(Render(rows'), limits) <==> TooLongCompressed(candidates[0], TotalLength(Render(rows)), limits)
    requires DocumentOk(Render(rows'), limits) ==> RefusedAsMet(rows', candidates[1..], target, limits)
    ensures RefusedAsMet(rows, candidates, target, limits)
  {
    TooLong(Render(rows), target);
    MeetsOpens(candidates, TotalLength(Render(rows)), target, limits);
    PassOpens(rows, candidates, e, target, limits);
  }

  lemma {:induction false} PassIsRefused(rows: seq<Row>, candidates: seq<Row>, target: nat, limits: Limits)
    requires DocumentOk(Render(rows), limits) && Current(rows, candidates)
    ensures RefusedAsMet(rows, candidates, target, limits)
    decreases |candidates|
  {
    TooLong(Render(rows), target);
    if candidates != [] && DocumentLength(Render(rows)) > target {
      var p := Planned(candidates[0]);
      if p.None? {
        CurrentTail(rows, candidates, Compress(candidates[0].id));
        PassIsRefused(rows, candidates[1..], target, limits);
      } else {
        var rows' := Apply(rows, p.value);
        EditFacts(rows, candidates, p.value, limits);
        if DocumentOk(Render(rows'), limits) {
          PassIsRefused(rows', candidates[1..], target, limits);
        }
        EditStep(rows, rows', candidates, p.value, target, limits);
      }
    }
  }

  // ---------------------------------------------------------------- the whole run

  ghost predicate AllCompressed(rows: seq<Row>) {
    forall r :: r in rows ==> r.compressed
  }

  lemma {:induction false} CompressedMeetNone(candidates: seq<Row>, total: int, target: nat, limits: Limits)
    requires AllCompressed(candidates)
    ensures !MeetsRefusal(candidates, total, target, limits)
    decreases |candidates|
  {
    if candidates != [] {
      var c, rest := candidates[0], candidates[1..];
      assert c in candidates && forall r :: r in rest ==> r in candidates;
      CompressedMeetNone(rest, if FromUser(c) then total else total + Change(c), target, limits);
    }
  }

  /** The row with the edited id is compressed or gone. */
  lemma EditedIsCompressed(rows: seq<Row>, e: Action, r: Row)
    requires Distinct(TableIds(rows)) && r in Apply(rows, e) && r.id == e.id
    ensures r.compressed
  {
    var k :| 0 <= k < |Apply(rows, e)| && Apply(rows, e)[k] == r;
    ApplyLookup(rows, e, e.id);
    RowIsFound(Apply(rows, e), k);
    CompressRowLookup(rows, e.id, e.id);
    DeleteAllLookup(rows, {e.id}, e.id);
  }

  /** Nothing a later edit of the pass does can uncompress a row. */
  lemma RestStaysCompressed(rows: seq<Row>, candidates: seq<Row>, target: nat, limits: Limits, r: Row)
    requires Current(rows, candidates) && r in RunPass(rows, Render(rows), candidates, target, limits).rows
    requires forall q :: q in rows && q.id == r.id ==> q.compressed
    ensures r.compressed
  {
    PassFollowsPlan(rows, candidates, target, limits);
    LogSurvives(rows, RunPass(rows, Render(rows), candidates, target, limits).log);
    assert Survives(rows, r);
  }

  /** What a pass leaves of its first candidate before it goes on is compressed or gone. */
  lemma FirstIsCompressed(rows: seq<Row>, candidates: seq<Row>, q: Row)
    requires Current(rows, candidates) && candidates != [] && q.id == candidates[0].id
    requires var p := Planned(candidates[0]); q in (if p.Some? then Apply(rows, p.value) else rows)
    ensures q.compressed
  {
    if Planned(candidates[0]).Some? {
      EditedIsCompressed(rows, Planned(candidates[0]).value, q);
    } else {
      var k :| 0 <= k < |rows| && rows[k] == q;
      RowIsFound(rows, k);
    }
  }

  lemma FirstStaysCompressed(rows: seq<Row>, rows': seq<Row>, candidates: seq<Row>, target: nat, limits: Limits, r: Row)
    requires Current(rows, candidates) && candidates != [] && r.id == candidates[0].id
    requires var p := Planned(candidates[0]); rows' == (if p.Some? then Apply(rows, p.value) else rows)
    requires Current(rows', candidates[1..]) && r in RunPass(rows', Render(rows'), candidates[1..], target, limits).rows
    ensures r.compressed
  {
    forall q | q in rows' && q.id == r.id
      ensures q.compressed
    {
      FirstIsCompressed(rows, candidates, q);
    }
    RestStaysCompressed(rows', candidates[1..], target, limits, r);
  }

  /** A pass that ends beyond the target has compressed all its candidates, or removed them. */
  lemma {:induction false} PassCompresses(rows: seq<Row>, candidates: seq<Row>, target: nat, limits: Limits, r: Row)
    requires Current(rows, candidates)
    requires var c := RunPass(rows, Render(rows), candidates, target, limits);
             !c.aborted && DocumentLength(c.document) > target && r in c.rows && r.id in TableIds(candidates)
    ensures r.compressed
    decreases |candidates|
  {
    var c, rest, p := candidates[0], candidates[1..], Planned(candidates[0]);
    var rows' := if p.Some? then Apply(rows, p.value) else rows;
    assert TableIds(candidates) == [c.id] + TableIds(rest);
    CurrentTail(rows, candidates, if p.Some? then p.value else Compress(c.id));
    if r.id in TableIds(rest) {
      PassCompresses(rows', rest, target, limits, r);
    } else {
      FirstStaysCompressed(rows, rows', candidates, target, limits, r);
    }
  }

  /** A first pass that does not bring the document within the target leaves only compressed rows. */
  lemma FirstPassCompresses(rows: seq<Row>, target: nat, limits: Limits)
    requires Distinct(TableIds(rows))
    ensures var c := RunPass(rows, Render(rows), Candidates(rows), target, limits);
            !c.aborted && DocumentLength(c.document) > target ==> AllCompressed(c.rows)
  {
    var cands := Candidates(rows);
    var c := RunPass(rows, Render(rows), cands, target, limits);
    CandidatesAreCurrent(rows);
    CandidatesAreOrdered(rows);
    PassFollowsPlan(rows, cands, target, limits);
    LogSurvives(rows, c.log);
    if !c.aborted && DocumentLength(c.document) > target {
      forall r | r in c.rows
        ensures r.compressed
      {
        assert Survives(rows, r);
        var q :| q in rows && r == q.(compressed := r.compressed) && (q.compressed ==> r.compressed);
        var k :| 0 <= k < |cands| && cands[k] == q;
        assert TableIds(cands)[k] == r.id;
        PassCompresses(rows, cands, target, limits, r);
      }
    }
  }

  lemma {:induction false} CompressedRunIsAccepted(rows: seq<Row>, target: nat, limits: Limits)
    requires DocumentOk(Render(rows), limits) && AllCompressed(rows)
    ensures !Rounds(rows, Render(rows), target, limits).aborted
    decreases Weight(rows)
  {
    if DocumentLength(Render(rows)) > target {
      AcceptedFits(rows, Render(rows), limits);
      CandidatesAreCurrent(rows);
      CandidatesAreOrdered(rows);
      var cands := Candidates(rows);
      var pass := RunPass(rows, Render(rows), cands, target, limits);
      PassIsRefused(rows, cands, target, limits);
      CompressedMeetNone(cands, TotalLength(Render(rows)), target, limits);
      PassFollowsPlan(rows, cands, target, limits);
      if pass.log != [] {
        LogSurvives(rows, pass.log);
        assert forall r :: r in pass.rows ==> Survives(rows, r);
        CompressedRunIsAccepted(pass.rows, target, limits);
      }
    }
  }

  /** The exact condition: from an accepted document a run is refused if and only if it is triggered
      and its first pass meets a row that is too long compressed, or makes the document too long. */
  lemma RunIsRefused(rows: seq<Row>, budget: Budget, limits: Limits)
    requires DocumentOk(Render(rows), limits)
    ensures CompressIfNeeded(rows, Render(rows), budget, limits).aborted
            <==> DocumentLength(Render(rows)) > TriggerLength(budget)
                 && MeetsRefusal(Candidates(rows), TotalLength(Render(rows)), TargetLength(budget), limits)
  {
    var cands, target := Candidates(rows), TargetLength(budget);
    AcceptedFits(rows, Render(rows), limits);
    CandidatesAreCurrent(rows);
    TooLong(Render(rows), target);
    PassIsRefused(rows, cands, target, limits);
    PassFollowsPlan(rows, cands, target, limits);
    FirstPassCompresses(rows, target, limits);
    var pass := RunPass(rows, Render(rows), cands, target, limits);
    if !pass.aborted {
      assert pass.document == Render(pass.rows) && DocumentOk(Render(pass.rows), limits);
      if DocumentLength(pass.document) > target {
        CompressedRunIsAccepted(pass.rows, target, limits);
      }
    }
    RoundsOpen(rows, target, limits);
  }

  lemma RoundsOpen(rows: seq<Row>, target: nat, limits: Limits)
    ensures var doc := Render(rows);
            var pass := RunPass(rows, doc, Candidates(rows), target, limits);
            Rounds(rows, doc, target, limits).aborted
            <==> DocumentLength(doc) > target
                 && (pass.aborted || (pass.log != [] && Rounds(pass.rows, pass.document, target, limits).aborted))
  {
  }

  /** No row is longer compressed than it is now. */
  ghost predicate Shrinkable(rows: seq<Row>) {
    forall r :: r in rows ==> CompressedLength(r) <= Length(Rendered(r).summary)
  }

  lemma {:induction false} ShrinkableMeetNone(candidates: seq<Row>, total: int, target: nat, limits: Limits)
    requires Shrinkable(candidates) && SummariesFit(candidates, limits) && total <= limits.documentMax
    ensures !MeetsRefusal(candidates, total, target, limits)
    decreases |candidates|
  {
    if candidates != [] {
      var c, rest := candidates[0], candidates[1..];
      assert c in candidates && forall r :: r in rest ==> r in candidates;
      ShrinkableMeetNone(rest, if c.compressed && FromUser(c) then total else total + Change(c), target, limits);
    }
  }

  /** In particular no run is refused from a document whose rows do not grow. */
  lemma ShrinkableRunIsAccepted(rows: seq<Row>, budget: Budget, limits: Limits)
    requires DocumentOk(Render(rows), limits) && Shrinkable(rows)
    ensures !CompressIfNeeded(rows, Render(rows), budget, limits).aborted
  {
    RunIsRefused(rows, budget, limits);
    AcceptedFits(rows, Render(rows), limits);
    CandidatesAreOrdered(rows);
    ShrinkableMeetNone(Candidates(rows), TotalLength(Render(rows)), TargetLength(budget), limits);
  }

  // ---------------------------------------------------------------- a refused run

  /** Any row that is longer compressed gives a refused run from an accepted document: a document of
      just that row, at the limit. */
  lemma RefusedRunIsReal(r: Row)
    requires !r.compressed && Growth(r) > 0
    ensures var doc := Render([r]);
            var limits := Limits(CompressedLength(r), TotalLength(doc));
            DocumentOk(doc, limits) && CompressIfNeeded([r], doc, Budget(1, 1), limits).aborted
  {
    var doc := Render([r]);
    var limits := Limits(CompressedLength(r), TotalLength(doc));
    RenderCons(r, []);
    assert [r] + [] == [r] && TotalLength(doc) == EntryLength(Rendered(r));
    AcceptableRows([r], limits);
    RunIsRefused([r], Budget(1, 1), limits);
    assert Candidates([r]) == [r] by {
      assert [r][1..] == [];
    }
  }

  /** A short body whose minimal text repeats it and adds a cue: compressing makes the document
      longer, so the length of the document is no measure for the loop. */
  lemma CompressionCanLengthen()
    ensures var r := Row("aaaaaa", [Plain("tea")], [Plain("drinks->tea")], "user", 0, 0, false, 0, "2026/1/1");
            DocumentLength(Render(Apply([r], Compress("aaaaaa")))) == DocumentLength(Render([r])) + 8
  {
    var r := Row("aaaaaa", [Plain("tea")], [Plain("drinks->tea")], "user", 0, 0, false, 0, "2026/1/1");
    var s := r.(compressed := true);
    assert [Plain("tea")][1..] == [] && [Plain("drinks->tea")][1..] == [];
    assert CompressRow([r], "aaaaaa") == [s];
    assert Render([r]) == [Rendered(r)] && Render([s]) == [Rendered(s)];
    assert [Rendered(r)][1..] == [] && [Rendered(s)][1..] == [];
  }
}
