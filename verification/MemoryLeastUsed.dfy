/** Compression spares what is in use: whatever a run does to a row, it has done to every row that has gone
    longer without use. */
module MemoryLeastUsed {
  import opened Sequences
  import opened MemoryTable
  import opened MemoryValidator
  import opened MemoryCompression
  import opened MemoryRefusal
  import opened MemoryDeletion

  // ---------------------------------------------------------------- the order of use

  /** The ids part at some character, or the first ends where the second goes on. */
  ghost predicate SmallerId(a: Id, b: Id) {
    exists k: nat :: k <= |a| && k < |b| && a[..k] == b[..k] && (k == |a| || a[k] < b[k])
  }

  lemma {:induction false} IdOrder(a: Id, b: Id)
    ensures IdBefore(a, b) <==> SmallerId(a, b)
  {
    if IdBefore(a, b) {
      if a == [] || a[0] < b[0] {
        assert a[..0] == b[..0];
        assert SmallerId(a, b);
      } else {
        IdOrder(a[1..], b[1..]);
        var k: nat :| k <= |a[1..]| && k < |b[1..]| && a[1..][..k] == b[1..][..k]
          && (k == |a[1..]| || a[1..][k] < b[1..][k]);
        assert a[..k + 1] == [a[0]] + a[1..][..k] && b[..k + 1] == [b[0]] + b[1..][..k];
      }
    }
    if k: nat :| k <= |a| && k < |b| && a[..k] == b[..k] && (k == |a| || a[k] < b[k]) {
      if k > 0 {
        assert a[0] == a[..k][0] && b[0] == b[..k][0];
        assert a[1..][..k - 1] == a[..k][1..] && b[1..][..k - 1] == b[..k][1..];
        IdOrder(a[1..], b[1..]);
      }
    }
  }

  /** The first row has gone longer without use than the second: more commits have passed since its last
      one, or as many and it was refreshed less often, or it is older, or its id is smaller. */
  ghost predicate UsedLess(q: Row, r: Row) {
    || q.passedCount > r.passedCount
    || (q.passedCount == r.passedCount
        && (|| q.refreshCount < r.refreshCount
            || (q.refreshCount == r.refreshCount
                && (q.createdAt < r.createdAt || (q.createdAt == r.createdAt && SmallerId(q.id, r.id))))))
  }

  lemma OrderOfUse(q: Row, r: Row)
    ensures Before(q, r) <==> UsedLess(q, r)
  {
    IdOrder(q.id, r.id);
  }

  /** A pass goes through the rows of the table, each once, the least used first. */
  lemma CandidatesByUse(rows: seq<Row>)
    requires Distinct(TableIds(rows))
    ensures var c := Candidates(rows);
            && |c| == |rows| && (forall r :: r in c <==> r in rows)
            && forall i, j :: 0 <= i < j < |c| ==> UsedLess(c[i], c[j])
  {
    var c := Candidates(rows);
    CandidatesAreOrdered(rows);
    forall i, j | 0 <= i < j < |c|
      ensures UsedLess(c[i], c[j])
    {
      OrderOfUse(c[i], c[j]);
    }
  }

  lemma NotBothLess(q: Row, r: Row)
    requires UsedLess(q, r)
    ensures !UsedLess(r, q) && q != r
  {
    OrderOfUse(q, r);
    OrderOfUse(r, q);
    if Before(r, q) {
      BeforeTransitive(q, r, q);
    }
    IdNotBeforeItself(q.id);
  }

  /** Rows at two places of the candidates, the less used one first. */
  lemma LessUsedIsEarlier(rows: seq<Row>, i: nat, j: nat)
    requires Distinct(TableIds(rows)) && i < |Candidates(rows)| && j < |Candidates(rows)|
    requires UsedLess(Candidates(rows)[i], Candidates(rows)[j])
    ensures i < j
  {
    CandidatesByUse(rows);
    NotBothLess(Candidates(rows)[i], Candidates(rows)[j]);
  }

  // ---------------------------------------------------------------- one pass

  /** What a pass does to a candidate: it shortens it, drops it if that is done already, and leaves a user's
      compressed row. */
  function Treated(c: Row): Option<Row> {
    if !c.compressed then Some(c.(compressed := true)) else if c.source == "user" then Some(c) else None
  }

  /** The first `m` candidates are treated, the others are as they were. */
  ghost predicate TreatedUpTo(rows: seq<Row>, candidates: seq<Row>, m: nat) {
    && m <= |candidates|
    && forall j :: 0 <= j < |candidates| ==>
         RowWithId(rows, candidates[j].id) == if j < m then Treated(candidates[j]) else Some(candidates[j])
  }

  lemma HeadTreated(rows: seq<Row>, candidates: seq<Row>)
    requires Current(rows, candidates) && candidates != []
    ensures var p := Planned(candidates[0]);
            RowWithId(if p.Some? then Apply(rows, p.value) else rows, candidates[0].id) == Treated(candidates[0])
  {
    var id := candidates[0].id;
    CompressRowLookup(rows, id, id);
    DeleteAllLookup(rows, {id}, id);
  }

  lemma TreatedOneMore(rows: seq<Row>, candidates: seq<Row>, m: nat)
    requires candidates != [] && RowWithId(rows, candidates[0].id) == Treated(candidates[0])
    requires TreatedUpTo(rows, candidates[1..], m)
    ensures TreatedUpTo(rows, candidates, m + 1)
  {
    forall j | 0 < j < |candidates|
      ensures RowWithId(rows, candidates[j].id)
              == if j < m + 1 then Treated(candidates[j]) else Some(candidates[j])
    {
      assert candidates[j] == candidates[1..][j - 1];
    }
  }

  /** A pass treats its first candidates, and all of them unless the document fits before or is refused. */
  lemma {:induction false} PassTreatsFirst(rows: seq<Row>, candidates: seq<Row>, target: nat, limits: Limits)
      returns (m: nat)
    requires Current(rows, candidates)
    ensures var c := RunPass(rows, Render(rows), candidates, target, limits);
            && TreatedUpTo(c.rows, candidates, m)
            && (m < |candidates| ==> c.aborted || DocumentLength(c.document) <= target)
    decreases |candidates|
  {
    if candidates == [] || DocumentLength(Render(rows)) <= target {
      m := 0;
    } else {
      var c, rest, p := candidates[0], candidates[1..], Planned(candidates[0]);
      var rows' := if p.Some? then Apply(rows, p.value) else rows;
      CurrentTail(rows, candidates, if p.Some? then p.value else Compress(c.id));
      HeadTreated(rows, candidates);
      NotAmongRest(candidates);
      if p.Some? && !DocumentOk(Render(rows'), limits) {
        assert Effective(rows, p.value);
        assert TreatedUpTo(rows', rest, 0);
        TreatedOneMore(rows', candidates, 0);
        m := 1;
      } else {
        assert p.Some? ==> Effective(rows, p.value);
        var k := PassTreatsFirst(rows', rest, target, limits);
        OthersStay(rows', rest, target, limits, c.id);
        TreatedOneMore(RunPass(rows', Render(rows'), rest, target, limits).rows, candidates, k);
        m := k + 1;
      }
    }
  }

  // ---------------------------------------------------------------- the whole run

  /** The run that starts here has changed or dropped the row. */
  ghost predicate Touched(rows': seq<Row>, r: Row) {
    RowWithId(rows', r.id) != Some(r)
  }

  /** Later rounds do not bring a row back, nor its long text. */
  lemma RoundsGoOn(rows: seq<Row>, target: nat, limits: Limits, id: Id)
    requires Distinct(TableIds(rows))
    ensures var rows' := Rounds(rows, Render(rows), target, limits).rows;
            && (RowWithId(rows, id).None? ==> RowWithId(rows', id).None?)
            && (RowWithId(rows, id).Some? && RowWithId(rows, id).value.compressed && RowWithId(rows', id).Some? ==>
                  RowWithId(rows', id).value.compressed)
  {
    var c := Rounds(rows, Render(rows), target, limits);
    RoundsAreLegal(rows, target, limits);
    LogSurvives(rows, c.log);
    if RowWithId(c.rows, id).Some? {
      var r := RowWithId(c.rows, id).value;
      FoundRow(c.rows, id);
      assert Survives(rows, r);
      var q :| q in rows && r == q.(compressed := r.compressed) && (q.compressed ==> r.compressed);
      var k :| 0 <= k < |rows| && rows[k] == q;
      RowIsFound(rows, k);
    }
  }

  /** A run beyond the target is one pass and, unless that ends it, the run from there. */
  lemma FirstRound(rows: seq<Row>, target: nat, limits: Limits)
    requires Distinct(TableIds(rows)) && DocumentLength(Render(rows)) > target
    ensures var pass := RunPass(rows, Render(rows), Candidates(rows), target, limits);
            && Distinct(TableIds(pass.rows))
            && (if pass.aborted || DocumentLength(pass.document) <= target
                then Rounds(rows, Render(rows), target, limits).rows == pass.rows
                else Rounds(rows, Render(rows), target, limits).rows
                     == Rounds(pass.rows, Render(pass.rows), target, limits).rows)
  {
    CandidatesAreCurrent(rows);
    PassFollowsPlan(rows, Candidates(rows), target, limits);
  }

  lemma PlaceOf(rows: seq<Row>, r: Row) returns (i: nat)
    requires Distinct(TableIds(rows)) && r in rows
    ensures i < |Candidates(rows)| && Candidates(rows)[i] == r && RowWithId(rows, r.id) == Some(r)
  {
    CandidatesAreOrdered(rows);
    i :| 0 <= i < |Candidates(rows)| && Candidates(rows)[i] == r;
    var k :| 0 <= k < |rows| && rows[k] == r;
    RowIsFound(rows, k);
  }

  /** What the run does to a row it has done to every less used one, as far as it could. */
  lemma LessUsedIsTouched(rows: seq<Row>, target: nat, limits: Limits, q: Row, r: Row)
    requires Distinct(TableIds(rows)) && q in rows && r in rows && UsedLess(q, r)
    requires Touched(Rounds(rows, Render(rows), target, limits).rows, r)
    ensures var rows' := Rounds(rows, Render(rows), target, limits).rows;
            Treated(q) == Some(q) || Touched(rows', q)
  {
    var i := PlaceOf(rows, q);
    var j := PlaceOf(rows, r);
    LessUsedIsEarlier(rows, i, j);
    if DocumentLength(Render(rows)) > target {
      var pass := RunPass(rows, Render(rows), Candidates(rows), target, limits);
      CandidatesAreCurrent(rows);
      var m := PassTreatsFirst(rows, Candidates(rows), target, limits);
      FirstRound(rows, target, limits);
      assert i < m;
      RoundsGoOn(pass.rows, target, limits, q.id);
    }
  }

  lemma TreatedRow(rows: seq<Row>, candidates: seq<Row>, i: nat)
    requires TreatedUpTo(rows, candidates, |candidates|) && i < |candidates| && Treated(candidates[i]).Some?
    ensures Treated(candidates[i]).value in rows
  {
    FoundRow(rows, candidates[i].id);
  }

  lemma TreatedKeepsUse(q: Row, r: Row)
    requires UsedLess(q, r)
    ensures UsedLess(q.(compressed := true), r.(compressed := true))
  {
  }

  /** From the second round on, a row is dropped only after every less used one that may be. */
  lemma LessUsedIsDropped(rows: seq<Row>, target: nat, limits: Limits, q: Row, r: Row)
    requires Distinct(TableIds(rows)) && q in rows && r in rows && UsedLess(q, r)
    requires !r.compressed && q.source != "user"
    requires RowWithId(Rounds(rows, Render(rows), target, limits).rows, r.id).None?
    ensures RowWithId(Rounds(rows, Render(rows), target, limits).rows, q.id).None?
  {
    var i := PlaceOf(rows, q);
    var j := PlaceOf(rows, r);
    var cands := Candidates(rows);
    assert DocumentLength(Render(rows)) > target;
    var pass := RunPass(rows, Render(rows), cands, target, limits);
    CandidatesAreCurrent(rows);
    var m := PassTreatsFirst(rows, cands, target, limits);
    FirstRound(rows, target, limits);
    assert m == |cands|;
    TreatedRow(pass.rows, cands, j);
    RoundsGoOn(pass.rows, target, limits, q.id);
    if RowWithId(pass.rows, q.id).Some? {
      TreatedRow(pass.rows, cands, i);
      TreatedKeepsUse(q, r);
      assert r.(compressed := true) in pass.rows && q.(compressed := true) in pass.rows;
      LaterRoundDrops(pass.rows, target, limits, q.(compressed := true), r.(compressed := true));
    }
  }

  lemma LaterRoundDrops(rows: seq<Row>, target: nat, limits: Limits, q: Row, r: Row)
    requires Distinct(TableIds(rows)) && q in rows && r in rows && UsedLess(q, r)
    requires q.compressed && q.source != "user"
    requires RowWithId(Rounds(rows, Render(rows), target, limits).rows, r.id).None?
    ensures RowWithId(Rounds(rows, Render(rows), target, limits).rows, q.id).None?
  {
    var i := PlaceOf(rows, q);
    var j := PlaceOf(rows, r);
    LessUsedIsEarlier(rows, i, j);
    assert DocumentLength(Render(rows)) > target;
    var pass := RunPass(rows, Render(rows), Candidates(rows), target, limits);
    CandidatesAreCurrent(rows);
    var m := PassTreatsFirst(rows, Candidates(rows), target, limits);
    FirstRound(rows, target, limits);
    assert i < m && RowWithId(pass.rows, q.id).None?;
    RoundsGoOn(pass.rows, target, limits, q.id);
  }

  /** Over a whole compression run. If a row has been shortened or dropped, so has every row that has gone
      longer without use, except a user's row that was short already; and if a row that was long is gone, so
      is every such row that is not the user's. */
  lemma LeastUsedGoFirst(rows: seq<Row>, budget: Budget, limits: Limits, q: Row, r: Row)
    requires Distinct(TableIds(rows)) && q in rows && r in rows && UsedLess(q, r)
    ensures var rows' := CompressIfNeeded(rows, Render(rows), budget, limits).rows;
            && (Touched(rows', r) ==> Touched(rows', q) || (q.compressed && q.source == "user"))
            && (!r.compressed && RowWithId(rows', r.id).None? && q.source != "user" ==>
                  RowWithId(rows', q.id).None?)
  {
    var target := TargetLength(budget);
    var rows' := CompressIfNeeded(rows, Render(rows), budget, limits).rows;
    var j := PlaceOf(rows, r);
    if DocumentLength(Render(rows)) > TriggerLength(budget) && Touched(rows', r) {
      LessUsedIsTouched(rows, target, limits, q, r);
      if !r.compressed && RowWithId(rows', r.id).None? && q.source != "user" {
        LessUsedIsDropped(rows, target, limits, q, r);
      }
    }
  }
}
