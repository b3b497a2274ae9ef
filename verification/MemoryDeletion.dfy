/** Which uncompressed rows a compression run deletes, decided from the table it starts with. */
module MemoryDeletion {
  import opened Sequences
  import opened MemoryTable
  import opened MemoryValidator
  import opened MemoryCompression
  import opened MemoryRefusal

  // ---------------------------------------------------------------- what a caller can compute

  /** Going through the candidates in order, each edited as planned, the running length never comes
      within the target. */
  predicate StaysBeyond(candidates: seq<Row>, total: int, target: nat)
    decreases |candidates|
  {
    total - 1 > target &&
    (candidates == [] ||
     var c, rest := candidates[0], candidates[1..];
     StaysBeyond(rest, if c.compressed && FromUser(c) then total else total + Change(c), target))
  }

  /** The rows a full pass leaves of the candidates with these ids, and the other rows. */
  function Pressed(rows: seq<Row>, ids: set<Id>): seq<Row> {
    if rows == [] then []
    else
      var r := rows[0];
      (if r.id !in ids then [r] else if r.compressed && !FromUser(r) then [] else [r.(compressed := true)])
      + Pressed(rows[1..], ids)
  }

  /** Going through compressed candidates in order, the length is still beyond the target when the row
      with this id is reached. */
  predicate Reaches(candidates: seq<Row>, total: int, target: nat, id: Id)
    decreases |candidates|
  {
    candidates != [] && total - 1 > target &&
    (candidates[0].id == id ||
     Reaches(candidates[1..], if FromUser(candidates[0]) then total else total + Change(candidates[0]), target, id))
  }

  /** The run compresses every row, is still beyond the target, and drops rows that are not the user's
      at least up to this one. */
  predicate Drops(rows: seq<Row>, budget: Budget, r: Row) {
    var target, pressed := TargetLength(budget), Pressed(rows, set q | q in rows :: q.id);
    && DocumentLength(Render(rows)) > TriggerLength(budget) && !FromUser(r)
    && StaysBeyond(Candidates(rows), TotalLength(Render(rows)), target)
    && Reaches(Candidates(pressed), TotalLength(Render(pressed)), target, r.id)
  }

  // ---------------------------------------------------------------- a full pass

  lemma {:induction false} PressNothing(rows: seq<Row>)
    ensures Pressed(rows, {}) == rows
  {
    if rows != [] {
      PressNothing(rows[1..]);
    }
  }

  /** Editing one candidate and pressing the others is pressing them all. */
  lemma {:induction false} PressOneMore(rows: seq<Row>, c: Row, e: Action, ids: set<Id>)
    requires Distinct(TableIds(rows)) && c.id !in ids
    requires Planned(c) == Some(e) && forall r :: r in rows && r.id == c.id ==> r == c
    ensures Pressed(Apply(rows, e), ids) == Pressed(rows, ids + {c.id})
  {
    if rows != [] {
      var r, rest := rows[0], rows[1..];
      assert rows == [r] + rest;
      assert TableIds(rows) == [r.id] + TableIds(rest);
      DistinctTail(TableIds(rows));
      PressOneMore(rest, c, e, ids);
      var rest' := Apply(rest, e);
      if r.id == c.id && e.Remove? {
        assert Apply(rows, e) == rest';
      } else {
        assert Apply(rows, e)[1..] == rest';
      }
    }
  }

  lemma SkipOneMore(rows: seq<Row>, c: Row, ids: set<Id>)
    requires Planned(c).None? && forall r :: r in rows && r.id == c.id ==> r == c
    ensures Pressed(rows, ids) == Pressed(rows, ids + {c.id})
  {
    if rows != [] {
      assert rows == [rows[0]] + rows[1..];
      SkipOneMore(rows[1..], c, ids);
    }
  }

  ghost function IdSet(rows: seq<Row>): set<Id> {
    set r | r in rows :: r.id
  }

  lemma OnlyThisRow(rows: seq<Row>, c: Row)
    requires Distinct(TableIds(rows)) && RowWithId(rows, c.id) == Some(c)
    ensures forall r :: r in rows && r.id == c.id ==> r == c
  {
    forall r | r in rows && r.id == c.id
      ensures r == c
    {
      var k :| 0 <= k < |rows| && rows[k] == r;
      RowIsFound(rows, k);
    }
  }

  lemma NotAmongRest(candidates: seq<Row>)
    requires Distinct(TableIds(candidates)) && candidates != []
    ensures candidates[0].id !in IdSet(candidates[1..])
    ensures IdSet(candidates) == IdSet(candidates[1..]) + {candidates[0].id}
  {
    var c, rest := candidates[0], candidates[1..];
    assert candidates == [c] + rest && TableIds(candidates) == [c.id] + TableIds(rest);
    DistinctTail(TableIds(candidates));
    forall r | r in rest
      ensures r.id != c.id
    {
      var k :| 0 <= k < |rest| && rest[k] == r;
      assert TableIds(rest)[k] == r.id;
    }
  }

  /** The pass ends beyond the target exactly when the running length says so, and then it has pressed
      its candidates. */
  ghost predicate Presses(rows: seq<Row>, candidates: seq<Row>, target: nat, limits: Limits) {
    var c := RunPass(rows, Render(rows), candidates, target, limits);
    && (DocumentLength(c.document) > target <==> StaysBeyond(candidates, TotalLength(Render(rows)), target))
    && (DocumentLength(c.document) > target ==> c.rows == Pressed(rows, IdSet(candidates)))
  }

  lemma PressFacts(rows: seq<Row>, candidates: seq<Row>, e: Action)
    requires Current(rows, candidates) && candidates != [] && Planned(candidates[0]) == Some(e)
    ensures TotalLength(Render(Apply(rows, e))) == TotalLength(Render(rows)) + Change(candidates[0])
    ensures Pressed(Apply(rows, e), IdSet(candidates[1..])) == Pressed(rows, IdSet(candidates))
  {
    EditedLength(rows, candidates[0]);
    OnlyThisRow(rows, candidates[0]);
    NotAmongRest(candidates);
    PressOneMore(rows, candidates[0], e, IdSet(candidates[1..]));
  }

  lemma BeyondOpens(candidates: seq<Row>, total: int, target: nat)
    requires candidates != [] && Planned(candidates[0]).Some? && total - 1 > target
    ensures StaysBeyond(candidates, total, target)
            <==> StaysBeyond(candidates[1..], total + Change(candidates[0]), target)
  {
  }

  lemma PressStep(rows: seq<Row>, candidates: seq<Row>, e: Action, target: nat, limits: Limits)
    requires Current(rows, candidates) && candidates != [] && Planned(candidates[0]) == Some(e)
    requires !RunPass(rows, Render(rows), candidates, target, limits).aborted && DocumentLength(Render(rows)) > target
    requires DocumentOk(Render(Apply(rows, e)), limits) ==> Presses(Apply(rows, e), candidates[1..], target, limits)
    ensures Presses(rows, candidates, target, limits)
  {
    TooLong(Render(rows), target);
    PressFacts(rows, candidates, e);
    BeyondOpens(candidates, TotalLength(Render(rows)), target);
    PassOpens(rows, candidates, e, target, limits);
  }

  lemma SkipStep(rows: seq<Row>, candidates: seq<Row>, target: nat, limits: Limits)
    requires Current(rows, candidates) && candidates != [] && Planned(candidates[0]).None?
    requires DocumentLength(Render(rows)) > target && Presses(rows, candidates[1..], target, limits)
    ensures Presses(rows, candidates, target, limits)
  {
    TooLong(Render(rows), target);
    OnlyThisRow(rows, candidates[0]);
    NotAmongRest(candidates);
    SkipOneMore(rows, candidates[0], IdSet(candidates[1..]));
  }

  lemma {:induction false} PassPresses(rows: seq<Row>, candidates: seq<Row>, target: nat, limits: Limits)
    requires Current(rows, candidates) && !RunPass(rows, Render(rows), candidates, target, limits).aborted
    ensures Presses(rows, candidates, target, limits)
    decreases |candidates|
  {
    TooLong(Render(rows), target);
    if candidates == [] {
      assert IdSet(candidates) == {};
      PressNothing(rows);
    } else if DocumentLength(Render(rows)) > target {
      var p := Planned(candidates[0]);
      if p.None? {
        CurrentTail(rows, candidates, Compress(candidates[0].id));
        PassPresses(rows, candidates[1..], target, limits);
        SkipStep(rows, candidates, target, limits);
      } else {
        var rows' := Apply(rows, p.value);
        PassOpens(rows, candidates, p.value, target, limits);
        CurrentTail(rows, candidates, p.value);
        if DocumentOk(Render(rows'), limits) {
          PassPresses(rows', candidates[1..], target, limits);
        }
        PressStep(rows, candidates, p.value, target, limits);
      }
    }
  }

  // ---------------------------------------------------------------- a pass over compressed rows

  lemma {:induction false} GoneStaysGone(rows: seq<Row>, candidates: seq<Row>, target: nat, limits: Limits, id: Id)
    requires Current(rows, candidates) && RowWithId(rows, id).None?
    ensures RowWithId(RunPass(rows, Render(rows), candidates, target, limits).rows, id).None?
    decreases |candidates|
  {
    var pass := RunPass(rows, Render(rows), candidates, target, limits);
    PassFollowsPlan(rows, candidates, target, limits);
    LogSurvives(rows, pass.log);
    if RowWithId(pass.rows, id).Some? {
      FoundRow(pass.rows, id);
      assert Survives(rows, RowWithId(pass.rows, id).value);
      var q :| q in rows && q.id == id;
      var k :| 0 <= k < |rows| && rows[k] == q;
      RowIsFound(rows, k);
    }
  }

  lemma {:induction false} FoundRow(rows: seq<Row>, id: Id)
    ensures RowWithId(rows, id).Some? ==> RowWithId(rows, id).value in rows && RowWithId(rows, id).value.id == id
  {
    if rows != [] {
      FoundRow(rows[1..], id);
    }
  }

  /** A row that is not among the candidates of a pass stays. */
  lemma {:induction false} OthersStay(rows: seq<Row>, candidates: seq<Row>, target: nat, limits: Limits, id: Id)
    requires Current(rows, candidates) && id !in IdSet(candidates)
    ensures RowWithId(RunPass(rows, Render(rows), candidates, target, limits).rows, id) == RowWithId(rows, id)
    decreases |candidates|
  {
    if candidates != [] && DocumentLength(Render(rows)) > target {
      NotAmongRest(candidates);
      var p := Planned(candidates[0]);
      if p.None? {
        CurrentTail(rows, candidates, Compress(candidates[0].id));
        OthersStay(rows, candidates[1..], target, limits, id);
      } else {
        CurrentTail(rows, candidates, p.value);
        ApplyLookup(rows, p.value, id);
        assert Effective(rows, p.value);
        if DocumentOk(Render(Apply(rows, p.value)), limits) {
          OthersStay(Apply(rows, p.value), candidates[1..], target, limits, id);
        }
      }
    }
  }

  /** Among compressed candidates, a pass drops those that are not the user's up to where the length
      comes within the target. */
  lemma {:induction false} PassDrops(rows: seq<Row>, candidates: seq<Row>, target: nat, limits: Limits, r: Row)
    requires Current(rows, candidates) && AllCompressed(candidates) && r in candidates && !FromUser(r)
    requires DocumentOk(Render(rows), limits)
    ensures DropsAsReached(rows, candidates, target, limits, r.id)
    decreases |candidates|
  {
    var c, rest := candidates[0], candidates[1..];
    assert candidates == [c] + rest && c in candidates && forall q :: q in rest ==> q in candidates;
    TooLong(Render(rows), target);
    NotAmongRest(candidates);
    if DocumentLength(Render(rows)) <= target {
      var k :| 0 <= k < |candidates| && candidates[k] == r;
    } else if FromUser(c) {
      CurrentTail(rows, candidates, Compress(c.id));
      PassDrops(rows, rest, target, limits, r);
    } else {
      PassOpens(rows, candidates, Remove(c.id), target, limits);
      EditFacts(rows, candidates, Remove(c.id), limits);
      if r.id == c.id {
        DeleteAllLookup(rows, {c.id}, c.id);
        GoneStaysGone(DeleteAll(rows, {c.id}), rest, target, limits, c.id);
      } else {
        PassDrops(DeleteAll(rows, {c.id}), rest, target, limits, r);
        DropLater(rows, candidates, Remove(c.id), target, limits, r.id);
      }
    }
  }

  lemma ReachesOpens(candidates: seq<Row>, total: int, target: nat, id: Id)
    requires candidates != [] && !FromUser(candidates[0]) && candidates[0].id != id && total - 1 > target
    ensures Reaches(candidates, total, target, id)
            <==> Reaches(candidates[1..], total + Change(candidates[0]), target, id)
  {
  }

  /** A pass drops the row with this id exactly when the running length reaches it. */
  ghost predicate DropsAsReached(rows: seq<Row>, candidates: seq<Row>, target: nat, limits: Limits, id: Id) {
    RowWithId(RunPass(rows, Render(rows), candidates, target, limits).rows, id).None?
    <==> Reaches(candidates, TotalLength(Render(rows)), target, id)
  }

  lemma DropLater(rows: seq<Row>, candidates: seq<Row>, e: Action, target: nat, limits: Limits, id: Id)
    requires Current(rows, candidates) && candidates != [] && Planned(candidates[0]) == Some(e)
    requires !FromUser(candidates[0]) && candidates[0].id != id && DocumentLength(Render(rows)) > target
    requires DocumentOk(Render(Apply(rows, e)), limits)
    requires TotalLength(Render(Apply(rows, e))) == TotalLength(Render(rows)) + Change(candidates[0])
    requires DropsAsReached(Apply(rows, e), candidates[1..], target, limits, id)
    ensures DropsAsReached(rows, candidates, target, limits, id)
  {
    TooLong(Render(rows), target);
    PassOpens(rows, candidates, e, target, limits);
    ReachesOpens(candidates, TotalLength(Render(rows)), target, id);
  }

  // ---------------------------------------------------------------- the whole run

  /** A pass does not drop a candidate that it finds uncompressed. */
  lemma {:induction false} UncompressedStay(rows: seq<Row>, candidates: seq<Row>, target: nat, limits: Limits, r: Row)
    requires Current(rows, candidates) && r in candidates && !r.compressed
    ensures RowWithId(RunPass(rows, Render(rows), candidates, target, limits).rows, r.id).Some?
    decreases |candidates|
  {
    var k :| 0 <= k < |candidates| && candidates[k] == r;
    if DocumentLength(Render(rows)) > target {
      var c, rest, p := candidates[0], candidates[1..], Planned(candidates[0]);
      var e := if p.Some? then p.value else Compress(c.id);
      var rows' := if p.Some? then Apply(rows, e) else rows;
      assert candidates == [c] + rest;
      NotAmongRest(candidates);
      CurrentTail(rows, candidates, e);
      if p.Some? {
        PassOpens(rows, candidates, e, target, limits);
        ApplyLookup(rows, e, r.id);
      }
      if r.id == c.id {
        CompressRowLookup(rows, c.id, c.id);
        OthersStay(rows', rest, target, limits, r.id);
      } else {
        UncompressedStay(rows', rest, target, limits, r);
      }
    }
  }

  lemma {:induction false} PressedOfCompressed(rows: seq<Row>, ids: set<Id>)
    requires AllCompressed(rows) && forall r :: r in rows ==> r.id in ids
    ensures OnlyCompressedUserRows(Pressed(rows, ids))
  {
    if rows != [] {
      assert rows == [rows[0]] + rows[1..];
      PressedOfCompressed(rows[1..], ids);
    }
  }

  lemma UserRowsAreLeft(rows: seq<Row>, target: nat, limits: Limits)
    requires Distinct(TableIds(rows)) && OnlyCompressedUserRows(rows)
    ensures Rounds(rows, Render(rows), target, limits).rows == rows
  {
    if DocumentLength(Render(rows)) > target {
      CandidatesAreCurrent(rows);
      CandidatesAreOrdered(rows);
      EmptyPlan(Candidates(rows));
      PassFollowsPlan(rows, Candidates(rows), target, limits);
    }
  }

  lemma CandidateIds(rows: seq<Row>)
    requires Distinct(TableIds(rows))
    ensures IdSet(Candidates(rows)) == set q | q in rows :: q.id
  {
    CandidatesAreOrdered(rows);
  }

  /** From compressed rows the run drops what its first pass drops. */
  lemma CompressedRounds(rows: seq<Row>, target: nat, limits: Limits)
    requires DocumentOk(Render(rows), limits) && AllCompressed(rows) && DocumentLength(Render(rows)) > target
    ensures Rounds(rows, Render(rows), target, limits).rows
            == RunPass(rows, Render(rows), Candidates(rows), target, limits).rows
  {
    var cands := Candidates(rows);
    var pass := RunPass(rows, Render(rows), cands, target, limits);
    AcceptedFits(rows, Render(rows), limits);
    CandidatesAreCurrent(rows);
    CandidatesAreOrdered(rows);
    CompressedRunIsAccepted(rows, target, limits);
    RoundsOpen(rows, target, limits);
    PassFollowsPlan(rows, cands, target, limits);
    PassPresses(rows, cands, target, limits);
    if DocumentLength(pass.document) > target {
      PressedOfCompressed(rows, IdSet(cands));
      UserRowsAreLeft(pass.rows, target, limits);
    }
  }

  /** The row as it is after a first pass that ended beyond the target. */
  lemma PressedRow(rows: seq<Row>, target: nat, limits: Limits, r: Row)
    requires Distinct(TableIds(rows)) && r in rows && !r.compressed
    requires var pass := RunPass(rows, Render(rows), Candidates(rows), target, limits);
             !pass.aborted && DocumentLength(pass.document) > target
    ensures var pass := RunPass(rows, Render(rows), Candidates(rows), target, limits);
            r.(compressed := true) in pass.rows && Distinct(TableIds(pass.rows)) && AllCompressed(pass.rows)
              && pass.log != []
  {
    var cands := Candidates(rows);
    var pass := RunPass(rows, Render(rows), cands, target, limits);
    CandidatesAreCurrent(rows);
    CandidatesAreOrdered(rows);
    FirstPassCompresses(rows, target, limits);
    PassFollowsPlan(rows, cands, target, limits);
    LogSurvives(rows, pass.log);
    UncompressedStay(rows, cands, target, limits, r);
    FoundRow(pass.rows, r.id);
    var r' := RowWithId(pass.rows, r.id).value;
    assert Survives(rows, r');
    var q :| q in rows && r' == q.(compressed := r'.compressed);
    var k :| 0 <= k < |rows| && rows[k] == r;
    RowIsFound(rows, k);
    OnlyThisRow(rows, r);
    assert q == r;
  }

  lemma LaterRoundsDrop(rows: seq<Row>, target: nat, limits: Limits, r: Row)
    requires DocumentOk(Render(rows), limits) && AllCompressed(rows) && r in rows && !FromUser(r)
    requires DocumentLength(Render(rows)) > target
    ensures RowWithId(Rounds(rows, Render(rows), target, limits).rows, r.id).None?
            <==> Reaches(Candidates(rows), TotalLength(Render(rows)), target, r.id)
  {
    AcceptedFits(rows, Render(rows), limits);
    CandidatesAreCurrent(rows);
    CandidatesAreOrdered(rows);
    PassDrops(rows, Candidates(rows), target, limits, r);
    CompressedRounds(rows, target, limits);
  }

  /** Exactly which of the rows that start uncompressed a run deletes. */
  lemma RunDrops(rows: seq<Row>, budget: Budget, limits: Limits, r: Row)
    requires DocumentOk(Render(rows), limits) && r in rows && !r.compressed
    requires !CompressIfNeeded(rows, Render(rows), budget, limits).aborted
    ensures RowWithId(CompressIfNeeded(rows, Render(rows), budget, limits).rows, r.id).None? <==> Drops(rows, budget, r)
  {
    var cands, target := Candidates(rows), TargetLength(budget);
    AcceptedFits(rows, Render(rows), limits);
    CandidatesAreCurrent(rows);
    CandidatesAreOrdered(rows);
    var k :| 0 <= k < |rows| && rows[k] == r;
    RowIsFound(rows, k);
    TooLong(Render(rows), target);
    if FromUser(r) {
      CompressionKeepsUserRows(rows, budget, limits, r.id);
    } else if DocumentLength(Render(rows)) > TriggerLength(budget) && DocumentLength(Render(rows)) > target {
      var pass := RunPass(rows, Render(rows), cands, target, limits);
      RoundsOpen(rows, target, limits);
      PassPresses(rows, cands, target, limits);
      PassFollowsPlan(rows, cands, target, limits);
      if DocumentLength(pass.document) <= target {
        UncompressedStay(rows, cands, target, limits, r);
      } else {
        CandidateIds(rows);
        PressedRow(rows, target, limits, r);
        PassIsRefused(rows, cands, target, limits);
        LaterRoundsDrop(pass.rows, target, limits, r.(compressed := true));
      }
    }
  }
}
