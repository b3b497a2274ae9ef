/** What the queue operations keep and lose, one operation at a time. */
module MemoryQueueLaws {
  import opened Sequences
  import opened MemoryQueueSpec

  /** Processing rows come first and all carry one operation. */
  ghost predicate ProcessingFirst(rows: seq<Row>) {
    forall i, j :: 0 <= i < j < |rows| && rows[j].status.Processing? ==>
      rows[i].status.Processing? && rows[i].op == rows[j].op
  }

  ghost predicate WellFormedQueue(rows: seq<Row>) {
    Distinct(Ids(rows)) && ProcessingFirst(rows)
  }

  // ---------------------------------------------------------------- dropping

  lemma {:induction false} DropIdsMembers(rows: seq<Row>, ids: set<Id>)
    ensures forall r :: r in DropIds(rows, ids) <==> r in rows && r.id !in ids
  {
    if rows != [] {
      DropIdsMembers(rows[1..], ids);
      assert rows == [rows[0]] + rows[1..];
    }
  }

  lemma {:induction false} DropIdsSnoc(rows: seq<Row>, i: nat, ids: set<Id>)
    requires i < |rows|
    ensures DropIds(rows[..i + 1], ids)
            == if rows[i].id in ids then DropIds(rows[..i], ids) else DropIds(rows[..i], ids) + [rows[i]]
  {
    assert rows[..i + 1][1..] == rows[1..][..i];
    if i > 0 {
      assert rows[..i][1..] == rows[1..][..i - 1];
      DropIdsSnoc(rows[1..], i - 1, ids);
    }
  }

  /** How a queue's head relates to the rest, and back. */
  lemma QueueTail(rows: seq<Row>)
    requires WellFormedQueue(rows) && rows != []
    ensures WellFormedQueue(rows[1..])
    ensures forall r :: r in rows[1..] ==>
              r.id != rows[0].id && (r.status.Processing? ==> rows[0].status.Processing? && rows[0].op == r.op)
  {
    var tail := rows[1..];
    assert forall i :: 0 <= i < |tail| ==> tail[i] == rows[i + 1] && Ids(tail)[i] == Ids(rows)[i + 1];
    forall i | 0 <= i < |tail|
      ensures tail[i].id != rows[0].id
    {
      assert Ids(rows)[0] != Ids(rows)[i + 1];
    }
  }

  lemma QueueCons(head: Row, rest: seq<Row>)
    requires WellFormedQueue(rest)
    requires forall r :: r in rest ==>
               r.id != head.id && (r.status.Processing? ==> head.status.Processing? && head.op == r.op)
    ensures WellFormedQueue([head] + rest)
  {
    var rows := [head] + rest;
    forall j | 1 <= j < |rows|
      ensures rows[j] in rest && Ids(rows)[j] == Ids(rest)[j - 1]
    {
      assert rows[j] == rest[j - 1];
    }
  }

  lemma {:induction false} DropIdsKeepsShape(rows: seq<Row>, ids: set<Id>)
    requires WellFormedQueue(rows)
    ensures WellFormedQueue(DropIds(rows, ids))
    ensures RowIds(DropIds(rows, ids)) == RowIds(rows) - ids
  {
    DropIdsMembers(rows, ids);
    if rows != [] {
      QueueTail(rows);
      DropIdsKeepsShape(rows[1..], ids);
      DropIdsMembers(rows[1..], ids);
      QueueCons(rows[0], DropIds(rows[1..], ids));
    }
  }

  lemma {:induction false} DropNothing(rows: seq<Row>, ids: set<Id>)
    requires RowIds(rows) !! ids
    ensures DropIds(rows, ids) == rows
  {
    if rows != [] {
      assert rows[0].id in RowIds(rows) && RowIds(rows[1..]) <= RowIds(rows);
      DropNothing(rows[1..], ids);
    }
  }

  // ---------------------------------------------------------------- marking

  lemma MarkedIds(rows: seq<Row>, ids: set<Id>, now: int, error: string)
    ensures Ids(MarkProcessing(rows, ids, now)) == Ids(rows)
    ensures Ids(MarkError(rows, ids, now, error)) == Ids(rows)
    ensures RowIds(MarkProcessing(rows, ids, now)) == RowIds(rows)
    ensures RowIds(MarkError(rows, ids, now, error)) == RowIds(rows)
  {
    IdsAreRowIds(rows);
    IdsAreRowIds(MarkProcessing(rows, ids, now));
    IdsAreRowIds(MarkError(rows, ids, now, error));
  }

  /** With distinct ids, the ids of a prefix select exactly that prefix. */
  lemma PrefixIds(rows: seq<Row>, n: nat)
    requires Distinct(Ids(rows)) && n <= |rows|
    ensures forall i :: 0 <= i < |rows| ==> (rows[i].id in RowIds(rows[..n]) <==> i < n)
  {
    forall i | 0 <= i < |rows|
      ensures rows[i].id in RowIds(rows[..n]) <==> i < n
    {
      assert i < n ==> rows[..n][i] == rows[i];
      assert forall m :: 0 <= m < |rows| && m != i ==> Ids(rows)[m] != Ids(rows)[i];
      assert i >= n ==> forall r :: r in rows[..n] ==> r.id != rows[i].id;
    }
  }

  // ---------------------------------------------------------------- appending

  lemma AppendKeepsShape(rows: seq<Row>, more: seq<Row>)
    requires WellFormedQueue(rows) && Distinct(Ids(more))
    requires RowIds(rows) !! RowIds(more)
    requires forall i :: 0 <= i < |more| ==> more[i].status.Pending?
    ensures WellFormedQueue(rows + more)
    ensures RowIds(rows + more) == RowIds(rows) + RowIds(more)
  {
    assert Ids(rows + more) == Ids(rows) + Ids(more);
    IdsAreRowIds(rows);
    IdsAreRowIds(more);
    DistinctAppend(Ids(rows), Ids(more));
    assert forall r :: r in rows + more <==> r in rows || r in more;
  }

  lemma IdsAreRowIds(rows: seq<Row>)
    ensures Elements(Ids(rows)) == RowIds(rows)
    ensures forall id :: id in Ids(rows) <==> id in RowIds(rows)
  {
    forall id
      ensures id in Ids(rows) <==> id in RowIds(rows)
    {
      if id in Ids(rows) {
        var i :| 0 <= i < |rows| && Ids(rows)[i] == id;
        assert rows[i] in rows;
      }
      if id in RowIds(rows) {
        var i :| 0 <= i < |rows| && rows[i].id == id;
        assert Ids(rows)[i] == id;
      }
    }
  }

  function RenewedRows(items: seq<Row>): seq<Row> {
    seq(|items|, i requires 0 <= i < |items| => Renewed(items[i]))
  }

  lemma RenewedIds(items: seq<Row>)
    ensures Ids(RenewedRows(items)) == Ids(items)
    ensures RowIds(RenewedRows(items)) == RowIds(items)
  {
    IdsAreRowIds(items);
    IdsAreRowIds(RenewedRows(items));
  }

  lemma ItemsTail(items: seq<Row>)
    requires Distinct(Ids(items)) && items != []
    ensures Distinct(Ids(items[1..]))
    ensures forall r :: r in items[1..] ==> r in items && r.id != items[0].id
  {
    var rest := items[1..];
    assert forall i :: 0 <= i < |rest| ==> rest[i] == items[i + 1] && Ids(rest)[i] == Ids(items)[i + 1];
    forall i | 0 <= i < |rest|
      ensures rest[i].id != items[0].id
    {
      assert Ids(items)[0] != Ids(items)[i + 1];
    }
  }

  /** Items the queue holds none of go back whole, in order, at the tail. */
  lemma {:induction false} AppendMissingAll(queue: seq<Row>, items: seq<Row>)
    requires Distinct(Ids(items)) && RowIds(queue) !! RowIds(items)
    ensures AppendMissing(queue, items) == queue + RenewedRows(items)
    decreases |items|
  {
    if items == [] {
      assert queue + RenewedRows(items) == queue;
    } else {
      var queue' := queue + [Renewed(items[0])];
      IdsAreRowIds(queue);
      assert items[0] in items && items[0].id in RowIds(items);
      assert items[0].id !in Ids(queue);
      ItemsTail(items);
      assert RowIds(queue') !! RowIds(items[1..]) by {
        assert RowIds(items[1..]) <= RowIds(items) - {items[0].id};
        assert RowIds(queue') <= RowIds(queue) + {items[0].id};
      }
      AppendMissingAll(queue', items[1..]);
      assert RenewedRows(items) == [Renewed(items[0])] + RenewedRows(items[1..]);
      Regroup(queue, [Renewed(items[0])], RenewedRows(items[1..]));
    }
  }

  // ---------------------------------------------------------------- collecting

  lemma {:induction false} ProcessingRunIsAll(rows: seq<Row>, op: string)
    requires ProcessingFirst(rows)
    requires forall i :: 0 <= i < |rows| && rows[i].status.Processing? ==> rows[i].op == op
    ensures var n := ProcessingRun(rows, op);
            forall i :: 0 <= i < |rows| ==> (rows[i].status.Processing? <==> i < n)
  {
    if rows != [] && rows[0].status.Processing? {
      assert forall i :: 0 <= i < |rows[1..]| ==> rows[1..][i] == rows[i + 1];
      ProcessingRunIsAll(rows[1..], op);
      assert forall i :: 1 <= i < |rows| ==> rows[i] == rows[1..][i - 1];
    }
  }

  /** What a run of length `n` taken after `taken` rows of `chars` characters looks like. */
  ghost predicate IsFreshRun(rows: seq<Row>, op: string, max: nat, taken: nat, chars: nat, n: nat) {
    && n <= |rows|
    && (forall i :: 0 <= i < n ==> rows[i].status.Pending? && rows[i].op == op)
    && (forall k :: 1 <= k <= n && taken + k > 1 ==> chars + Chars(rows[..k]) <= max)
    && (n < |rows| && rows[n].status.Pending? && rows[n].op == op ==>
          taken + n > 0 && chars + Chars(rows[..n + 1]) > max)
  }

  /** A run of the tail, with its head in front. */
  lemma FreshRunCons(rows: seq<Row>, op: string, max: nat, taken: nat, chars: nat, n: nat)
    requires rows != [] && rows[0].status.Pending? && rows[0].op == op
    requires taken == 0 || chars + |rows[0].payload| <= max
    requires IsFreshRun(rows[1..], op, max, taken + 1, chars + |rows[0].payload|, n)
    ensures IsFreshRun(rows, op, max, taken, chars, n + 1)
  {
    var rest := rows[1..];
    forall k | 1 <= k <= |rows|
      ensures Chars(rows[..k]) == |rows[0].payload| + Chars(rest[..k - 1])
    {
      assert rows[..k][1..] == rest[..k - 1];
    }
    assert forall i :: 0 <= i < |rest| ==> rest[i] == rows[i + 1];
    assert forall i :: 1 <= i < n + 1 ==> rows[i] == rest[i - 1];
    forall k | 1 <= k <= n + 1 && taken + k > 1
      ensures chars + Chars(rows[..k]) <= max
    {
      if k == 1 {
        assert rest[..0] == [];
      }
    }
  }

  lemma {:induction false} PendingRunIsFresh(rows: seq<Row>, op: string, max: nat, taken: nat, chars: nat)
    ensures IsFreshRun(rows, op, max, taken, chars, PendingRun(rows, op, max, taken, chars))
  {
    if rows == [] || rows[0].status.Processing? || rows[0].op != op {
    } else if taken > 0 && chars + |rows[0].payload| > max {
      CharsSnoc(rows, 0);
    } else {
      var chars' := chars + |rows[0].payload|;
      PendingRunIsFresh(rows[1..], op, max, taken + 1, chars');
      FreshRunCons(rows, op, max, taken, chars, PendingRun(rows[1..], op, max, taken + 1, chars'));
    }
  }

  lemma {:induction false} CharsSnoc(rows: seq<Row>, n: nat)
    requires n < |rows|
    ensures Chars(rows[..n + 1]) == Chars(rows[..n]) + |rows[n].payload|
  {
    if n == 0 {
      assert rows[..1] == [rows[0]];
    } else {
      CharsSnoc(rows[1..], n - 1);
      assert rows[..n + 1][1..] == rows[1..][..n] && rows[..n][1..] == rows[1..][..n - 1];
    }
  }

  /** A collected batch is a prefix of the queue: all processing rows when the head is one of them,
      and otherwise the longest pending one-operation prefix within the character limit, or a
      single row that alone exceeds it. */
  lemma CollectedBatch(rows: seq<Row>, now: int, limits: Limits)
    requires WellFormedQueue(rows)
    ensures var batch := Collect(rows, now, limits);
            var n := |batch|;
            && n <= |rows| && batch == rows[..n]
            && (forall i :: 0 <= i < n ==> rows[i].op == rows[0].op && rows[i].status == rows[0].status)
            && (n > 0 && rows[0].status.Processing? ==>
                  forall i :: 0 <= i < |rows| ==> (rows[i].status.Processing? <==> i < n))
            && (n > 0 && rows[0].status.Pending? ==>
                  (n == 1 || Chars(batch) <= EffectiveMaxChars(limits))
                  && (n < |rows| && rows[n].status.Pending? && rows[n].op == rows[0].op ==>
                        Chars(rows[..n + 1]) > EffectiveMaxChars(limits)))
  {
    if rows != [] {
      if rows[0].status.Processing? {
        ProcessingRunIsAll(rows, rows[0].op);
      } else {
        PendingRunIsFresh(rows, rows[0].op, EffectiveMaxChars(limits), 0, 0);
      }
    }
  }

  /** A well-formed queue whose head waits for no retry time is never stuck: a processing head is
      collected at once, a pending one after at most the maximal wait. */
  lemma CollectsWhenDue(rows: seq<Row>, now: int, limits: Limits)
    requires rows != [] && WellFormedQueue(rows)
    ensures rows[0].status.Processing? ==>
              (Collect(rows, now, limits) == [] <==> rows[0].retryAfter.Some? && rows[0].retryAfter.value > now)
    ensures rows[0].status.Pending? && SecondsSince(rows[0].createdAt, now) >= EffectiveMaxWait(limits) ==>
              Collect(rows, now, limits) != []
  {
    var op, max := rows[0].op, EffectiveMaxChars(limits);
    if rows[0].status.Processing? {
      assert ProcessingRun(rows, op) > 0;
    } else {
      assert PendingRun(rows, op, max, 0, 0) > 0;
    }
  }

  // ---------------------------------------------------------------- failed records

  /** The record a success brings back is the first of the longest waiting provider failures, and there
      is none exactly when none waits. */
  lemma {:induction false} OldestIsFirst(failed: seq<Record>)
    ensures var k := OldestWaiting(failed);
            if k < |failed| then IsOldestWaiting(failed, k) else forall i :: 0 <= i < |failed| ==> !Waiting(failed[i])
  {
    if failed != [] {
      OldestIsFirst(failed[1..]);
      assert forall i :: 0 < i < |failed| ==> failed[i] == failed[1..][i - 1];
    }
  }

  lemma {:induction false} PurgeMembers(failed: seq<Record>, ids: set<Id>)
    ensures forall r :: r in Purge(failed, ids) <==> r in failed && !Overlaps(r.requestIds, ids)
  {
    if failed != [] {
      PurgeMembers(failed[1..], ids);
      assert failed == [failed[0]] + failed[1..];
    }
  }

  lemma {:induction false} WithoutRecordMembers(failed: seq<Record>, failedId: Id)
    ensures forall r :: r in WithoutRecord(failed, failedId) <==> r in failed && r.failedId != failedId
  {
    if failed != [] {
      WithoutRecordMembers(failed[1..], failedId);
      assert failed == [failed[0]] + failed[1..];
    }
  }

  lemma {:induction false} PurgeSnoc(rows: seq<Record>, i: nat, ids: set<Id>)
    requires i < |rows|
    ensures Purge(rows[..i + 1], ids)
            == if Overlaps(rows[i].requestIds, ids) then Purge(rows[..i], ids) else Purge(rows[..i], ids) + [rows[i]]
  {
    assert rows[..i + 1][1..] == rows[1..][..i];
    if i > 0 {
      assert rows[..i][1..] == rows[1..][..i - 1];
      PurgeSnoc(rows[1..], i - 1, ids);
    }
  }

  lemma {:induction false} WithoutRecordSnoc(rows: seq<Record>, i: nat, failedId: Id)
    requires i < |rows|
    ensures WithoutRecord(rows[..i + 1], failedId)
            == if rows[i].failedId == failedId then WithoutRecord(rows[..i], failedId)
               else WithoutRecord(rows[..i], failedId) + [rows[i]]
  {
    assert rows[..i + 1][1..] == rows[1..][..i];
    if i > 0 {
      assert rows[..i][1..] == rows[1..][..i - 1];
      WithoutRecordSnoc(rows[1..], i - 1, failedId);
    }
  }
}
