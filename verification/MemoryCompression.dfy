/** The compression run after a commit: passes over the rows, least used first, that shorten or
    drop rows until the document fits the target. */
module MemoryCompression {
  import opened Sequences
  import opened MemoryTable
  import opened MemoryValidator

  // ---------------------------------------------------------------- the order of candidates

  /** Lexicographic order on ids. */
  predicate IdBefore(a: Id, b: Id) {
    b != [] && (a == [] || a[0] < b[0] || (a[0] == b[0] && IdBefore(a[1..], b[1..])))
  }

  /** The row longest without use goes first; then the one least refreshed, oldest, smallest id. */
  predicate Before(a: Row, b: Row) {
    || a.passedCount > b.passedCount
    || (a.passedCount == b.passedCount && a.refreshCount < b.refreshCount)
    || (a.passedCount == b.passedCount && a.refreshCount == b.refreshCount && a.createdAt < b.createdAt)
    || (a.passedCount == b.passedCount && a.refreshCount == b.refreshCount && a.createdAt == b.createdAt
         && IdBefore(a.id, b.id))
  }

  function Insert(r: Row, sorted: seq<Row>): seq<Row> {
    if sorted == [] || Before(r, sorted[0]) then [r] + sorted else [sorted[0]] + Insert(r, sorted[1..])
  }

  function Candidates(rows: seq<Row>): seq<Row> {
    if rows == [] then [] else Insert(rows[0], Candidates(rows[1..]))
  }

  // ---------------------------------------------------------------- edits

  datatype Action = Compress(id: Id) | Remove(id: Id)

  /** What a pass wants with a candidate; nothing if it is a compressed user row. */
  function Planned(c: Row): Option<Action> {
    if !c.compressed then Some(Compress(c.id)) else if !FromUser(c) then Some(Remove(c.id)) else None
  }

  /** Whether the edit would change a row of the table. */
  predicate Effective(rows: seq<Row>, e: Action) {
    var r := RowWithId(rows, e.id);
    r.Some? && (e.Compress? ==> !r.value.compressed)
  }

  function CompressRow(rows: seq<Row>, id: Id): (rows': seq<Row>)
    ensures |rows'| == |rows|
  {
    if rows == [] then []
    else [if rows[0].id == id then rows[0].(compressed := true) else rows[0]] + CompressRow(rows[1..], id)
  }

  function Apply(rows: seq<Row>, e: Action): seq<Row> {
    match e
    case Compress(id) => CompressRow(rows, id)
    case Remove(id) => DeleteAll(rows, {id})
  }

  /** Two for an uncompressed row, one for a compressed one. */
  function Weight(rows: seq<Row>): nat {
    if rows == [] then 0 else (if rows[0].compressed then 1 else 2) + Weight(rows[1..])
  }

  lemma {:induction false} ApplyShrinksWeight(rows: seq<Row>, e: Action)
    ensures Weight(Apply(rows, e)) <= Weight(rows)
    ensures Effective(rows, e) ==> Weight(Apply(rows, e)) < Weight(rows)
  {
    if rows != [] {
      ApplyShrinksWeight(rows[1..], e);
      var rest := Apply(rows[1..], e);
      assert Apply(rows, e)[..|Apply(rows, e)| - |rest|] + rest == Apply(rows, e);
      if e.Remove? && rows[0].id == e.id {
        assert Apply(rows, e) == rest;
      } else {
        assert Apply(rows, e)[1..] == rest;
      }
    }
  }

  // ---------------------------------------------------------------- passes and rounds

  /** The table, the document last written, the edits made, and whether a rebuilt document was
      refused, which ends the commit with an error. */
  datatype Compression = Compression(rows: seq<Row>, document: seq<Entry>, log: seq<Action>, aborted: bool)

  datatype Budget = Budget(trigger: nat, target: nat)

  function TriggerLength(b: Budget): nat {
    if b.trigger == 0 then 16000 else b.trigger
  }

  function TargetLength(b: Budget): nat {
    if b.target == 0 then 13000 else b.target
  }

  /** One pass over candidates whose flags were read when the pass began. */
  function RunPass(rows: seq<Row>, doc: seq<Entry>, candidates: seq<Row>, target: nat, limits: Limits): (c: Compression)
    ensures Weight(c.rows) + |c.log| <= Weight(rows)
    decreases |candidates|
  {
    if candidates == [] || DocumentLength(doc) <= target then Compression(rows, doc, [], false)
    else
      var e := Planned(candidates[0]);
      if e.None? || !Effective(rows, e.value) then RunPass(rows, doc, candidates[1..], target, limits)
      else
        ApplyShrinksWeight(rows, e.value);
        var rows' := Apply(rows, e.value);
        if !DocumentOk(Render(rows'), limits) then Compression(rows', doc, [e.value], true)
        else
          var rest := RunPass(rows', Render(rows'), candidates[1..], target, limits);
          rest.(log := [e.value] + rest.log)
  }

  /** Passes until the document fits the target or a pass changes nothing. */
  function Rounds(rows: seq<Row>, doc: seq<Entry>, target: nat, limits: Limits): Compression
    decreases Weight(rows)
  {
    if DocumentLength(doc) <= target then Compression(rows, doc, [], false)
    else
      var pass := RunPass(rows, doc, Candidates(rows), target, limits);
      if pass.aborted || pass.log == [] then pass
      else
        var rest := Rounds(pass.rows, pass.document, target, limits);
        rest.(log := pass.log + rest.log)
  }

  function CompressIfNeeded(rows: seq<Row>, doc: seq<Entry>, budget: Budget, limits: Limits): Compression {
    if DocumentLength(doc) <= TriggerLength(budget) then Compression(rows, doc, [], false)
    else Rounds(rows, doc, TargetLength(budget), limits)
  }

  // ---------------------------------------------------------------- what a legal run of edits is

  /** The document is too long, and the row is there: uncompressed for a compression, compressed
      and not the user's for a removal. */
  predicate LegalEdit(rows: seq<Row>, e: Action, target: nat) {
    var r := RowWithId(rows, e.id);
    && DocumentLength(Render(rows)) > target && r.Some?
    && (e.Compress? ==> !r.value.compressed)
    && (e.Remove? ==> r.value.compressed && !FromUser(r.value))
  }

  predicate LegalLog(rows: seq<Row>, log: seq<Action>, target: nat)
    decreases |log|
  {
    log == [] || (LegalEdit(rows, log[0], target) && LegalLog(Apply(rows, log[0]), log[1..], target))
  }

  function Replay(rows: seq<Row>, log: seq<Action>): seq<Row>
    decreases |log|
  {
    if log == [] then rows else Replay(Apply(rows, log[0]), log[1..])
  }

  lemma {:induction false} LogsConcat(rows: seq<Row>, log: seq<Action>, more: seq<Action>, target: nat)
    requires LegalLog(rows, log, target) && LegalLog(Replay(rows, log), more, target)
    ensures LegalLog(rows, log + more, target) && Replay(rows, log + more) == Replay(Replay(rows, log), more)
    decreases |log|
  {
    if log == [] {
      assert log + more == more;
    } else {
      assert (log + more)[1..] == log[1..] + more;
      LogsConcat(Apply(rows, log[0]), log[1..], more, target);
    }
  }

  // ---------------------------------------------------------------- lookups

  function Shortened(r: Option<Row>): Option<Row> {
    if r.Some? then Some(r.value.(compressed := true)) else None
  }

  lemma {:induction false} CompressRowLookup(rows: seq<Row>, id: Id, other: Id)
    ensures RowWithId(CompressRow(rows, id), other)
            == if other == id then Shortened(RowWithId(rows, other)) else RowWithId(rows, other)
  {
    if rows != [] {
      CompressRowLookup(rows[1..], id, other);
      assert CompressRow(rows, id)[1..] == CompressRow(rows[1..], id);
    }
  }

  lemma {:induction false} CompressRowIds(rows: seq<Row>, id: Id)
    ensures TableIds(CompressRow(rows, id)) == TableIds(rows)
  {
    if rows != [] {
      CompressRowIds(rows[1..], id);
      var rows' := CompressRow(rows, id);
      assert rows'[1..] == CompressRow(rows[1..], id);
      assert TableIds(rows) == [rows[0].id] + TableIds(rows[1..]);
      assert TableIds(rows') == [rows'[0].id] + TableIds(rows'[1..]);
    }
  }

  lemma {:induction false} DeleteAllLookup(rows: seq<Row>, ids: set<Id>, other: Id)
    ensures RowWithId(DeleteAll(rows, ids), other) == if other in ids then None else RowWithId(rows, other)
  {
    if rows != [] {
      DeleteAllLookup(rows[1..], ids, other);
      if rows[0].id in ids {
        assert DeleteAll(rows, ids) == DeleteAll(rows[1..], ids);
      } else {
        assert DeleteAll(rows, ids)[1..] == DeleteAll(rows[1..], ids);
      }
    }
  }

  lemma {:induction false} DeleteAllKeepsDistinct(rows: seq<Row>, ids: set<Id>)
    requires Distinct(TableIds(rows))
    ensures Distinct(TableIds(DeleteAll(rows, ids)))
    ensures forall id :: id in TableIds(DeleteAll(rows, ids)) <==> id in TableIds(rows) && id !in ids
  {
    if rows != [] {
      assert TableIds(rows) == [rows[0].id] + TableIds(rows[1..]);
      DistinctTail(TableIds(rows));
      DeleteAllKeepsDistinct(rows[1..], ids);
      var rest := DeleteAll(rows[1..], ids);
      if rows[0].id in ids {
        assert DeleteAll(rows, ids) == rest;
      } else {
        assert TableIds([rows[0]] + rest) == [rows[0].id] + TableIds(rest);
      }
    }
  }

  lemma ApplyLookup(rows: seq<Row>, e: Action, id: Id)
    requires Distinct(TableIds(rows))
    ensures Distinct(TableIds(Apply(rows, e)))
    ensures id != e.id ==> RowWithId(Apply(rows, e), id) == RowWithId(rows, id)
  {
    if e.Compress? {
      CompressRowLookup(rows, e.id, id);
      CompressRowIds(rows, e.id);
    } else {
      DeleteAllLookup(rows, {e.id}, id);
      DeleteAllKeepsDistinct(rows, {e.id});
    }
  }

  // ---------------------------------------------------------------- the order really is one

  lemma {:induction false} IdsTotal(a: Id, b: Id)
    ensures a == b || IdBefore(a, b) || IdBefore(b, a)
  {
    if a != [] && b != [] {
      IdsTotal(a[1..], b[1..]);
      assert a == [a[0]] + a[1..] && b == [b[0]] + b[1..];
    }
  }

  lemma {:induction false} IdsTransitive(a: Id, b: Id, c: Id)
    requires IdBefore(a, b) && IdBefore(b, c)
    ensures IdBefore(a, c)
  {
    if a != [] && a[0] == b[0] == c[0] {
      IdsTransitive(a[1..], b[1..], c[1..]);
    }
  }

  lemma BeforeTransitive(a: Row, b: Row, c: Row)
    requires Before(a, b) && Before(b, c)
    ensures Before(a, c)
  {
    if IdBefore(a.id, b.id) && IdBefore(b.id, c.id) {
      IdsTransitive(a.id, b.id, c.id);
    }
  }

  ghost predicate InOrder(sorted: seq<Row>) {
    forall i, j :: 0 <= i < j < |sorted| ==> Before(sorted[i], sorted[j])
  }

  lemma {:induction false} InsertKeepsOrder(r: Row, sorted: seq<Row>)
    requires InOrder(sorted) && forall c :: c in sorted ==> c.id != r.id
    ensures InOrder(Insert(r, sorted))
    ensures forall c :: c in Insert(r, sorted) <==> c == r || c in sorted
    ensures |Insert(r, sorted)| == |sorted| + 1
  {
    if sorted == [] {
    } else if Before(r, sorted[0]) {
      forall j | 1 <= j < |sorted|
        ensures Before(r, sorted[j])
      {
        BeforeTransitive(r, sorted[0], sorted[j]);
      }
    } else {
      IdsTotal(r.id, sorted[0].id);
      InsertKeepsOrder(r, sorted[1..]);
      assert sorted == [sorted[0]] + sorted[1..];
      var rest := Insert(r, sorted[1..]);
      assert forall i :: 0 <= i < |rest| ==> Before(sorted[0], rest[i]) by {
        assert forall c :: c in rest ==> Before(sorted[0], c);
      }
    }
  }

  /** The candidates are the rows of the table, each once, in order of use. */
  lemma {:induction false} CandidatesAreOrdered(rows: seq<Row>)
    requires Distinct(TableIds(rows))
    ensures InOrder(Candidates(rows)) && |Candidates(rows)| == |rows|
    ensures forall r :: r in Candidates(rows) <==> r in rows
  {
    if rows != [] {
      assert TableIds(rows) == [rows[0].id] + TableIds(rows[1..]);
      DistinctTail(TableIds(rows));
      CandidatesAreOrdered(rows[1..]);
      forall c | c in Candidates(rows[1..])
        ensures c.id != rows[0].id
      {
        var i :| 0 <= i < |rows[1..]| && rows[1..][i] == c;
        assert TableIds(rows[1..])[i] == c.id;
      }
      InsertKeepsOrder(rows[0], Candidates(rows[1..]));
      assert rows == [rows[0]] + rows[1..];
    }
  }

  lemma IdNotBeforeItself(a: Id)
    ensures !IdBefore(a, a)
  {
  }

  lemma {:induction false} RowIsFound(rows: seq<Row>, i: nat)
    requires Distinct(TableIds(rows)) && i < |rows|
    ensures RowWithId(rows, rows[i].id) == Some(rows[i])
  {
    if i > 0 {
      assert TableIds(rows) == [rows[0].id] + TableIds(rows[1..]);
      DistinctTail(TableIds(rows));
      assert TableIds(rows)[i] == rows[i].id;
      RowIsFound(rows[1..], i - 1);
    }
  }

  // ---------------------------------------------------------------- one pass

  /** The candidates still to come are as the table has them now. */
  ghost predicate Current(rows: seq<Row>, candidates: seq<Row>) {
    && Distinct(TableIds(rows)) && Distinct(TableIds(candidates))
    && forall i :: 0 <= i < |candidates| ==> RowWithId(rows, candidates[i].id) == Some(candidates[i])
  }

  lemma CandidatesAreCurrent(rows: seq<Row>)
    requires Distinct(TableIds(rows))
    ensures Current(rows, Candidates(rows))
  {
    var c := Candidates(rows);
    CandidatesAreOrdered(rows);
    forall i | 0 <= i < |c|
      ensures RowWithId(rows, c[i].id) == Some(c[i])
    {
      assert c[i] in rows;
      var k :| 0 <= k < |rows| && rows[k] == c[i];
      RowIsFound(rows, k);
    }
    forall i, j | 0 <= i < j < |c|
      ensures TableIds(c)[i] != TableIds(c)[j]
    {
      assert Before(c[i], c[j]);
      IdNotBeforeItself(c[i].id);
    }
  }

  lemma CurrentTail(rows: seq<Row>, candidates: seq<Row>, e: Action)
    requires Current(rows, candidates) && candidates != [] && e.id == candidates[0].id
    ensures Current(rows, candidates[1..]) && Current(Apply(rows, e), candidates[1..])
  {
    var rest := candidates[1..];
    assert TableIds(candidates) == [candidates[0].id] + TableIds(rest);
    DistinctTail(TableIds(candidates));
    ApplyLookup(rows, e, e.id);
    forall i | 0 <= i < |rest|
      ensures RowWithId(Apply(rows, e), rest[i].id) == Some(rest[i])
    {
      assert TableIds(rest)[i] == rest[i].id && rest[i] == candidates[i + 1];
      ApplyLookup(rows, e, rest[i].id);
    }
  }

  /** The edits a pass would make if the document never became short enough. */
  function Plan(candidates: seq<Row>): seq<Action> {
    if candidates == [] then []
    else (var e := Planned(candidates[0]); if e.Some? then [e.value] else []) + Plan(candidates[1..])
  }

  /** A pass makes the first edits of its plan, all legal, and stops early only when the document
      fits the target or is refused. */
  lemma {:induction false} PassFollowsPlan(rows: seq<Row>, candidates: seq<Row>, target: nat, limits: Limits)
    requires Current(rows, candidates)
    ensures var c := RunPass(rows, Render(rows), candidates, target, limits);
            && LegalLog(rows, c.log, target) && c.rows == Replay(rows, c.log)
            && |c.log| <= |Plan(candidates)| && c.log == Plan(candidates)[..|c.log|]
            && (!c.aborted ==> c.document == Render(c.rows))
            && (!c.aborted && |c.log| < |Plan(candidates)| ==> DocumentLength(c.document) <= target)
            && Distinct(TableIds(c.rows))
    decreases |candidates|
  {
    if candidates != [] && DocumentLength(Render(rows)) > target {
      var p := Planned(candidates[0]);
      if p.None? {
        CurrentTail(rows, candidates, Compress(candidates[0].id));
        PassFollowsPlan(rows, candidates[1..], target, limits);
        assert [] + Plan(candidates[1..]) == Plan(candidates[1..]);
      } else {
        PassStep(rows, candidates, target, limits);
      }
    }
  }

  lemma {:induction false} PassStep(rows: seq<Row>, candidates: seq<Row>, target: nat, limits: Limits)
    requires Current(rows, candidates) && candidates != [] && Planned(candidates[0]).Some?
    requires DocumentLength(Render(rows)) > target
    ensures var c := RunPass(rows, Render(rows), candidates, target, limits);
            && LegalLog(rows, c.log, target) && c.rows == Replay(rows, c.log)
            && |c.log| <= |Plan(candidates)| && c.log == Plan(candidates)[..|c.log|]
            && (!c.aborted ==> c.document == Render(c.rows))
            && (!c.aborted && |c.log| < |Plan(candidates)| ==> DocumentLength(c.document) <= target)
            && Distinct(TableIds(c.rows))
    decreases |candidates|, 0
  {
    var e := Planned(candidates[0]).value;
    var rows' := Apply(rows, e);
    CurrentTail(rows, candidates, e);
    assert LegalEdit(rows, e, target) && Effective(rows, e);
    var c := RunPass(rows, Render(rows), candidates, target, limits);
    assert Plan(candidates) == [e] + Plan(candidates[1..]);
    if DocumentOk(Render(rows'), limits) {
      PassFollowsPlan(rows', candidates[1..], target, limits);
      var rest := RunPass(rows', Render(rows'), candidates[1..], target, limits);
      assert c.log == [e] + rest.log && c.log[1..] == rest.log;
      assert Plan(candidates)[..|c.log|] == [e] + Plan(candidates[1..])[..|rest.log|];
    } else {
      assert c.log == [e] && c.log[1..] == [];
    }
  }

  // ---------------------------------------------------------------- the whole run

  lemma {:induction false} RoundsAreLegal(rows: seq<Row>, target: nat, limits: Limits)
    requires Distinct(TableIds(rows))
    ensures var c := Rounds(rows, Render(rows), target, limits);
            && LegalLog(rows, c.log, target) && c.rows == Replay(rows, c.log)
            && (!c.aborted ==> c.document == Render(c.rows))
    decreases Weight(rows)
  {
    if DocumentLength(Render(rows)) > target {
      CandidatesAreCurrent(rows);
      PassFollowsPlan(rows, Candidates(rows), target, limits);
      var pass := RunPass(rows, Render(rows), Candidates(rows), target, limits);
      if !pass.aborted && pass.log != [] {
        RoundsAreLegal(pass.rows, target, limits);
        LogsConcat(rows, pass.log, Rounds(pass.rows, pass.document, target, limits).log, target);
      }
    }
  }

  /** Nothing is planned for a table of compressed user rows, and for no other table. */
  lemma {:induction false} EmptyPlan(candidates: seq<Row>)
    ensures Plan(candidates) == [] <==> forall c :: c in candidates ==> c.compressed && FromUser(c)
  {
    if candidates != [] {
      EmptyPlan(candidates[1..]);
      assert candidates == [candidates[0]] + candidates[1..];
    }
  }

  ghost predicate OnlyCompressedUserRows(rows: seq<Row>) {
    forall r :: r in rows ==> r.compressed && FromUser(r)
  }

  lemma {:induction false} RoundsEnd(rows: seq<Row>, target: nat, limits: Limits)
    requires Distinct(TableIds(rows))
    ensures var c := Rounds(rows, Render(rows), target, limits);
            c.aborted || DocumentLength(c.document) <= target || OnlyCompressedUserRows(c.rows)
    decreases Weight(rows)
  {
    if DocumentLength(Render(rows)) > target {
      CandidatesAreCurrent(rows);
      CandidatesAreOrdered(rows);
      PassFollowsPlan(rows, Candidates(rows), target, limits);
      var pass := RunPass(rows, Render(rows), Candidates(rows), target, limits);
      if !pass.aborted {
        if pass.log == [] {
          EmptyPlan(Candidates(rows));
        } else {
          RoundsEnd(pass.rows, target, limits);
        }
      }
    }
  }

  /** The main statement about a compression run. Every edit is legal where it is made, the edits
      account for the whole change of the table, and unless a rebuilt document was refused the run
      ends within the target, or with nothing but compressed user rows left. */
  lemma CompressionIsLegalAndEnds(rows: seq<Row>, budget: Budget, limits: Limits)
    requires Distinct(TableIds(rows))
    ensures var c := CompressIfNeeded(rows, Render(rows), budget, limits);
            var triggered := DocumentLength(Render(rows)) > TriggerLength(budget);
            && LegalLog(rows, c.log, TargetLength(budget)) && c.rows == Replay(rows, c.log)
            && (!triggered ==> c.log == [] && !c.aborted)
            && (!c.aborted ==> c.document == Render(c.rows))
            && (triggered && !c.aborted ==>
                 DocumentLength(c.document) <= TargetLength(budget) || OnlyCompressedUserRows(c.rows))
  {
    RoundsAreLegal(rows, TargetLength(budget), limits);
    RoundsEnd(rows, TargetLength(budget), limits);
  }

  // ---------------------------------------------------------------- what legal edits keep

  /** A row of the new table is a row of the old one, with at most its flag set. */
  ghost predicate Survives(rows: seq<Row>, r: Row) {
    exists q :: q in rows && r == q.(compressed := r.compressed) && (q.compressed ==> r.compressed)
  }

  lemma {:induction false} CompressRowSurvives(rows: seq<Row>, id: Id)
    ensures forall r :: r in CompressRow(rows, id) ==> Survives(rows, r)
    ensures forall q :: q in rows ==> (if q.id == id then q.(compressed := true) else q) in CompressRow(rows, id)
  {
    if rows != [] {
      CompressRowSurvives(rows[1..], id);
      var rows' := CompressRow(rows, id);
      assert rows == [rows[0]] + rows[1..] && rows' == [rows'[0]] + CompressRow(rows[1..], id);
      forall r | r in rows'
        ensures Survives(rows, r)
      {
        if r == rows'[0] {
          assert rows[0] in rows;
        } else {
          assert Survives(rows[1..], r);
        }
      }
    }
  }

  lemma {:induction false} DeleteAllMembers(rows: seq<Row>, ids: set<Id>)
    ensures forall r :: r in DeleteAll(rows, ids) <==> r in rows && r.id !in ids
  {
    if rows != [] {
      DeleteAllMembers(rows[1..], ids);
      assert rows == [rows[0]] + rows[1..];
    }
  }

  lemma ApplySurvives(rows: seq<Row>, e: Action)
    ensures forall r :: r in Apply(rows, e) ==> Survives(rows, r)
  {
    if e.Compress? {
      CompressRowSurvives(rows, e.id);
    } else {
      DeleteAllMembers(rows, {e.id});
      forall r | r in Apply(rows, e)
        ensures Survives(rows, r)
      {
        assert r in rows;
      }
    }
  }

  lemma {:induction false} LogSurvives(rows: seq<Row>, log: seq<Action>)
    ensures forall r :: r in Replay(rows, log) ==> Survives(rows, r)
    decreases |log|
  {
    if log == [] {
      forall r | r in rows
        ensures Survives(rows, r)
      {
      }
    } else {
      LogSurvives(Apply(rows, log[0]), log[1..]);
      ApplySurvives(rows, log[0]);
      forall r | r in Replay(rows, log)
        ensures Survives(rows, r)
      {
        assert Survives(Apply(rows, log[0]), r);
        var p :| p in Apply(rows, log[0]) && r == p.(compressed := r.compressed) && (p.compressed ==> r.compressed);
        assert Survives(rows, p);
      }
    }
  }

  lemma {:induction false} UserRowsStay(rows: seq<Row>, log: seq<Action>, target: nat, id: Id)
    requires LegalLog(rows, log, target)
    requires Distinct(TableIds(rows)) && RowWithId(rows, id).Some? && FromUser(RowWithId(rows, id).value)
    ensures RowWithId(Replay(rows, log), id).Some? && FromUser(RowWithId(Replay(rows, log), id).value)
    decreases |log|
  {
    if log != [] {
      var e := log[0];
      if e.Compress? {
        CompressRowLookup(rows, e.id, id);
      } else {
        DeleteAllLookup(rows, {e.id}, id);
      }
      ApplyLookup(rows, e, id);
      UserRowsStay(Apply(rows, e), log[1..], target, id);
    }
  }

  /** Compression never drops a user's row. */
  lemma CompressionKeepsUserRows(rows: seq<Row>, budget: Budget, limits: Limits, id: Id)
    requires Distinct(TableIds(rows)) && RowWithId(rows, id).Some? && FromUser(RowWithId(rows, id).value)
    ensures RowWithId(CompressIfNeeded(rows, Render(rows), budget, limits).rows, id).Some?
  {
    var c := CompressIfNeeded(rows, Render(rows), budget, limits);
    CompressionIsLegalAndEnds(rows, budget, limits);
    UserRowsStay(rows, c.log, TargetLength(budget), id);
  }

  /** A surviving row keeps its texts and counters, is never uncompressed, and is rendered with the
      reference it had. */
  lemma CompressionKeepsTexts(rows: seq<Row>, budget: Budget, limits: Limits, r: Row)
    requires Distinct(TableIds(rows)) && r in CompressIfNeeded(rows, Render(rows), budget, limits).rows
    ensures exists q :: q in rows && r == q.(compressed := r.compressed) && (q.compressed ==> r.compressed)
                        && FirstRef(Rendered(q).summary) == FirstRef(Rendered(r).summary)
  {
    var c := CompressIfNeeded(rows, Render(rows), budget, limits);
    CompressionIsLegalAndEnds(rows, budget, limits);
    LogSurvives(rows, c.log);
    assert Survives(rows, r);
    var q :| q in rows && r == q.(compressed := r.compressed) && (q.compressed ==> r.compressed);
    RenderedRefs(q);
    RenderedRefs(r);
  }

  // ---------------------------------------------------------------- from an uncompressed table

  function CompressEach(candidates: seq<Row>): seq<Action> {
    seq(|candidates|, i requires 0 <= i < |candidates| => Compress(candidates[i].id))
  }

  lemma {:induction false} PlanOfUncompressed(candidates: seq<Row>)
    requires forall c :: c in candidates ==> !c.compressed
    ensures Plan(candidates) == CompressEach(candidates)
  {
    if candidates != [] {
      assert candidates == [candidates[0]] + candidates[1..];
      PlanOfUncompressed(candidates[1..]);
      assert CompressEach(candidates) == [Compress(candidates[0].id)] + CompressEach(candidates[1..]);
    }
  }

  /** The first k edits compress the first k candidates; if there are more, those were all of them. */
  predicate CompressesFirst(log: seq<Action>, candidates: seq<Row>, k: nat) {
    k <= |log| && k <= |candidates| && log[..k] == CompressEach(candidates)[..k] && (k < |log| ==> k == |candidates|)
  }

  /** A run that does not stop at once begins with a pass, and goes on only while the document is
      too long. */
  lemma RoundsBeginWithAPass(rows: seq<Row>, doc: seq<Entry>, target: nat, limits: Limits)
    requires DocumentLength(doc) > target
    ensures var pass, log := RunPass(rows, doc, Candidates(rows), target, limits),
            Rounds(rows, doc, target, limits).log;
            && |pass.log| <= |log| && log[..|pass.log|] == pass.log
            && (pass.aborted || DocumentLength(pass.document) <= target ==> log == pass.log)
  {
  }

  /** From a table with no compressed row the run first compresses, in the order of use, and it
      does nothing else until every row of the table is compressed. */
  lemma NothingDeletedBeforeAllCompressed(rows: seq<Row>, budget: Budget, limits: Limits)
    requires Distinct(TableIds(rows)) && forall r :: r in rows ==> !r.compressed
    ensures exists k :: CompressesFirst(CompressIfNeeded(rows, Render(rows), budget, limits).log, Candidates(rows), k)
  {
    var doc, cands, target := Render(rows), Candidates(rows), TargetLength(budget);
    var log := CompressIfNeeded(rows, doc, budget, limits).log;
    if DocumentLength(doc) <= TriggerLength(budget) || DocumentLength(doc) <= target {
      assert CompressesFirst(log, cands, 0);
    } else {
      CandidatesAreCurrent(rows);
      CandidatesAreOrdered(rows);
      PassFollowsPlan(rows, cands, target, limits);
      PlanOfUncompressed(cands);
      RoundsBeginWithAPass(rows, doc, target, limits);
      assert CompressesFirst(log, cands, |RunPass(rows, doc, cands, target, limits).log|);
    }
  }
}
