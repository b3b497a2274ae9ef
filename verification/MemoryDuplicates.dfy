/** Which entries the validator keeps, drops and takes: two entries are the same memory if they agree in
    source and summary, and of those the first one stays. */
module MemoryDuplicates {
  import opened Sequences
  import opened MemoryTable
  import opened MemoryValidator
  import opened MemoryEdits
  import opened MemoryAgreement

  // ---------------------------------------------------------------- the entries that stay

  /** Entries `i` and `j` of the old document are the same memory once the rewrites are made. */
  predicate SameAfter(before: seq<Entry>, rewrites: seq<Rewrite>, today: string, i: nat, j: nat)
    requires i < |before| && j < |before|
  {
    && before[i].source == before[j].source
    && Updated(before[i], rewrites, today).summary == Updated(before[j], rewrites, today).summary
  }

  lemma UpdatedKey(e: Entry, rewrites: seq<Rewrite>, today: string)
    ensures KeyOf(Updated(e, rewrites, today)) == (e.source, Updated(e, rewrites, today).summary)
    ensures Updated(e, rewrites, today).id == e.id
  {
  }

  /** Entry `i` is dropped: it was to be deleted, seen before, or is the same as an earlier one that
      stays. */
  ghost predicate DroppedAt(before: seq<Entry>, b: Batch, today: string, seen: set<Key>, i: nat)
    requires i < |before|
  {
    var kept := EntryIds(Keep(before, b, today, seen).entries);
    || before[i].id in b.deletes || KeyOf(Updated(before[i], b.rewrites, today)) in seen
    || exists j: nat :: j < i && before[j].id in kept && SameAfter(before, b.rewrites, today, j, i)
  }

  lemma HeadDropped(before: seq<Entry>, b: Batch, today: string, seen: set<Key>)
    requires Distinct(EntryIds(before)) && before != []
    ensures before[0].id !in EntryIds(Keep(before, b, today, seen).entries)
            <==> before[0].id in b.deletes || KeyOf(Updated(before[0], b.rewrites, today)) in seen
  {
    var u := Updated(before[0], b.rewrites, today);
    var seen' := seen + {KeyOf(u)};
    EntryTail(before);
    KeptIds(before[1..], b, today, seen);
    KeptIds(before[1..], b, today, seen');
    EntryCons(u, Keep(before[1..], b, today, seen').entries);
  }

  lemma TailDropped(before: seq<Entry>, b: Batch, today: string, seen: set<Key>, i: nat)
    requires Distinct(EntryIds(before)) && i + 1 < |before|
    requires var e := before[0]; e.id in b.deletes || KeyOf(Updated(e, b.rewrites, today)) in seen
    ensures DroppedAt(before, b, today, seen, i + 1) <==> DroppedAt(before[1..], b, today, seen, i)
  {
    var kept := EntryIds(Keep(before, b, today, seen).entries);
    assert Keep(before, b, today, seen) == Keep(before[1..], b, today, seen);
    HeadDropped(before, b, today, seen);
    if DroppedAt(before, b, today, seen, i + 1) && before[i + 1].id !in b.deletes
       && KeyOf(Updated(before[i + 1], b.rewrites, today)) !in seen {
      var j: nat :| j < i + 1 && before[j].id in kept && SameAfter(before, b.rewrites, today, j, i + 1);
      assert j > 0 && SameAfter(before[1..], b.rewrites, today, j - 1, i);
    }
    if j: nat :| j < i && before[1..][j].id in kept && SameAfter(before[1..], b.rewrites, today, j, i) {
      assert SameAfter(before, b.rewrites, today, j + 1, i + 1);
    }
  }

  lemma TailAfterKept(before: seq<Entry>, b: Batch, today: string, seen: set<Key>, i: nat)
    requires Distinct(EntryIds(before)) && i + 1 < |before|
    requires var e := before[0]; e.id !in b.deletes && KeyOf(Updated(e, b.rewrites, today)) !in seen
    ensures var seen' := seen + {KeyOf(Updated(before[0], b.rewrites, today))};
            DroppedAt(before, b, today, seen, i + 1) <==> DroppedAt(before[1..], b, today, seen', i)
  {
    var u := Updated(before[0], b.rewrites, today);
    var seen', rest := seen + {KeyOf(u)}, before[1..];
    var kept, later := EntryIds(Keep(before, b, today, seen).entries), EntryIds(Keep(rest, b, today, seen').entries);
    EntryTail(before);
    EntryCons(u, Keep(rest, b, today, seen').entries);
    KeptIds(rest, b, today, seen');
    UpdatedKey(before[0], b.rewrites, today);
    UpdatedKey(before[i + 1], b.rewrites, today);
    assert forall j: nat :: j < |rest| ==> rest[j] == before[j + 1] && EntryIds(rest)[j] == rest[j].id;
    if DroppedAt(before, b, today, seen, i + 1) && !DroppedAt(rest, b, today, seen', i) {
      var j: nat :| j < i + 1 && before[j].id in kept && SameAfter(before, b.rewrites, today, j, i + 1);
      assert j > 0 ==> before[j].id in later && SameAfter(rest, b.rewrites, today, j - 1, i);
      assert false;
    }
    if KeyOf(u) == KeyOf(Updated(before[i + 1], b.rewrites, today)) {
      assert before[0].id in kept && SameAfter(before, b.rewrites, today, 0, i + 1);
    }
    if j: nat :| j < i && rest[j].id in later && SameAfter(rest, b.rewrites, today, j, i) {
      assert SameAfter(before, b.rewrites, today, j + 1, i + 1);
    }
  }

  lemma {:induction false} KeepDrops(before: seq<Entry>, b: Batch, today: string, seen: set<Key>, i: nat)
    requires Distinct(EntryIds(before)) && i < |before|
    ensures before[i].id !in EntryIds(Keep(before, b, today, seen).entries) <==> DroppedAt(before, b, today, seen, i)
    decreases |before|
  {
    HeadDropped(before, b, today, seen);
    if i > 0 {
      var u := Updated(before[0], b.rewrites, today);
      EntryTail(before);
      assert EntryIds(before[1..])[i - 1] == before[i].id;
      if before[0].id in b.deletes || KeyOf(u) in seen {
        KeepDrops(before[1..], b, today, seen, i - 1);
        TailDropped(before, b, today, seen, i - 1);
      } else {
        KeepDrops(before[1..], b, today, seen + {KeyOf(u)}, i - 1);
        TailAfterKept(before, b, today, seen, i - 1);
        EntryCons(u, Keep(before[1..], b, today, seen + {KeyOf(u)}).entries);
      }
    }
  }

  /** An entry of the old document is deleted if and only if it was to be, or an earlier entry that stays
      has the same source and the same summary, both read after the rewrites. */
  lemma DuplicatesAreDeleted(before: seq<Entry>, b: Batch, ids: seq<Id>, today: string, i: nat)
    requires IdsKnown(before, b) && FreshIds(before, b, ids) && i < |before|
    ensures var deletes := Proposal(before, b, ids, today).mutation.deletes;
            before[i].id in deletes
            <==> || before[i].id in b.deletes
                 || exists j: nat :: j < i && before[j].id !in deletes && before[j].source == before[i].source
                      && Updated(before[j], b.rewrites, today).summary == Updated(before[i], b.rewrites, today).summary
  {
    var deletes := Proposal(before, b, ids, today).mutation.deletes;
    DeletesAreTheRest(before, b, ids, today);
    KeepDrops(before, b, today, {}, i);
    assert forall j: nat :: j < |before| ==> EntryIds(before)[j] == before[j].id;
    if j: nat :| j < i && before[j].id !in deletes && SameAfter(before, b.rewrites, today, j, i) {
      assert DroppedAt(before, b, today, {}, i);
    }
  }

  /** The old entries without the deleted ones, in order, as they are after the rewrites. */
  function Staying(before: seq<Entry>, rewrites: seq<Rewrite>, today: string, deletes: set<Id>): seq<Entry> {
    if before == [] then []
    else (if before[0].id in deletes then [] else [Updated(before[0], rewrites, today)])
         + Staying(before[1..], rewrites, today, deletes)
  }

  lemma {:induction false} KeepIsStaying(before: seq<Entry>, b: Batch, today: string, seen: set<Key>, deletes: set<Id>)
    requires Distinct(EntryIds(before))
    requires forall id :: id in EntryIds(before) ==>
               (id in deletes <==> id !in EntryIds(Keep(before, b, today, seen).entries))
    ensures Keep(before, b, today, seen).entries == Staying(before, b.rewrites, today, deletes)
    decreases |before|
  {
    if before != [] {
      var u := Updated(before[0], b.rewrites, today);
      EntryTail(before);
      HeadDropped(before, b, today, seen);
      assert EntryIds(before)[0] == before[0].id;
      if before[0].id in b.deletes || KeyOf(u) in seen {
        KeepIsStaying(before[1..], b, today, seen, deletes);
      } else {
        EntryCons(u, Keep(before[1..], b, today, seen + {KeyOf(u)}).entries);
        KeepIsStaying(before[1..], b, today, seen + {KeyOf(u)}, deletes);
      }
    }
  }

  // ---------------------------------------------------------------- the entries that come

  /** The summary an added text gets. */
  function SummaryOf(a: AddRequest): Text {
    WithRef(a.content, FirstRef(a.minimal))
  }

  predicate SameRequest(a: AddRequest, a': AddRequest) {
    a.source == a'.source && SummaryOf(a) == SummaryOf(a')
  }

  /** The requests with a taken id, in order, as entries. */
  function Coming(adds: seq<AddRequest>, ids: seq<Id>, today: string, taken: set<Id>): seq<Entry>
    requires |ids| >= |adds|
    decreases |adds|
  {
    if adds == [] then []
    else (if ids[0] in taken then [Entry(ids[0], today, adds[0].source, SummaryOf(adds[0]))] else [])
         + Coming(adds[1..], ids[1..], today, taken)
  }

  /** The requests with a taken id, in order, as rows to insert. */
  function Inserts(adds: seq<AddRequest>, ids: seq<Id>, taken: set<Id>): seq<Add>
    requires |ids| >= |adds|
    decreases |adds|
  {
    if adds == [] then []
    else (if ids[0] in taken then [Add(ids[0], adds[0].content, adds[0].minimal, adds[0].source)] else [])
         + Inserts(adds[1..], ids[1..], taken)
  }

  ghost predicate RefusedAt(adds: seq<AddRequest>, seen: set<Key>, i: nat)
    requires i < |adds|
  {
    (adds[i].source, SummaryOf(adds[i])) in seen || exists j: nat :: j < i && SameRequest(adds[j], adds[i])
  }

  lemma AddIdsCons(a: Add, rest: seq<Add>)
    ensures AddIds([a] + rest) == {a.id} + AddIds(rest)
  {
  }

  lemma RefusedTail(adds: seq<AddRequest>, seen: set<Key>, i: nat)
    requires i + 1 < |adds|
    ensures var key := (adds[0].source, SummaryOf(adds[0]));
            RefusedAt(adds, seen, i + 1) <==> RefusedAt(adds[1..], seen + {key}, i)
  {
    var rest := adds[1..];
    assert forall j: nat :: j < |rest| ==> rest[j] == adds[j + 1];
    if RefusedAt(adds, seen, i + 1) && (adds[i + 1].source, SummaryOf(adds[i + 1])) !in seen {
      var j: nat :| j < i + 1 && SameRequest(adds[j], adds[i + 1]);
      assert j > 0 ==> SameRequest(rest[j - 1], rest[i]);
    }
    if SameRequest(adds[0], adds[i + 1]) {
      assert RefusedAt(adds, seen, i + 1);
    }
    if j: nat :| j < i && SameRequest(rest[j], rest[i]) {
      assert SameRequest(adds[j + 1], adds[i + 1]);
    }
  }

  lemma TakenAmong(adds: seq<AddRequest>, ids: seq<Id>, today: string, seen: set<Key>)
    requires |ids| >= |adds| && Distinct(ids)
    ensures forall id :: id in AddIds(TakeAdds(adds, ids, today, seen).1) ==> id in ids
  {
    var taken := TakeAdds(adds, ids, today, seen).1;
    TakenAdds(adds, ids, today, seen);
    forall a | a in taken
      ensures a.id in ids
    {
      var k :| 0 <= k < |taken| && taken[k] == a;
    }
  }

  lemma {:induction false} TakesNew(adds: seq<AddRequest>, ids: seq<Id>, today: string, seen: set<Key>, i: nat)
    requires |ids| >= |adds| && Distinct(ids) && i < |adds|
    ensures ids[i] in AddIds(TakeAdds(adds, ids, today, seen).1) <==> !RefusedAt(adds, seen, i)
    decreases |adds|
  {
    var key := (adds[0].source, SummaryOf(adds[0]));
    assert KeyOf(AddedEntry(adds[0], ids[0], today)) == key;
    DistinctTail(ids);
    TakenAmong(adds[1..], ids[1..], today, seen + {key});
    AddIdsCons(Add(ids[0], adds[0].content, adds[0].minimal, adds[0].source),
               TakeAdds(adds[1..], ids[1..], today, seen + {key}).1);
    if key in seen {
      assert seen + {key} == seen;
    }
    if i > 0 {
      TakesNew(adds[1..], ids[1..], today, seen + {key}, i - 1);
      RefusedTail(adds, seen, i - 1);
      assert ids[1..][i - 1] == ids[i] && ids[i] != ids[0];
    }
  }

  lemma {:induction false} TakenInOrder(adds: seq<AddRequest>, ids: seq<Id>, today: string, seen: set<Key>,
      taken: set<Id>)
    requires |ids| >= |adds| && Distinct(ids)
    requires forall i :: 0 <= i < |adds| ==> (ids[i] in taken <==> ids[i] in AddIds(TakeAdds(adds, ids, today, seen).1))
    ensures TakeAdds(adds, ids, today, seen) == (Coming(adds, ids, today, taken), Inserts(adds, ids, taken))
    decreases |adds|
  {
    if adds != [] {
      var e := AddedEntry(adds[0], ids[0], today);
      var seen' := if KeyOf(e) in seen then seen else seen + {KeyOf(e)};
      DistinctTail(ids);
      TakenAmong(adds[1..], ids[1..], today, seen');
      AddIdsCons(Add(ids[0], adds[0].content, adds[0].minimal, adds[0].source),
                 TakeAdds(adds[1..], ids[1..], today, seen').1);
      forall i | 0 <= i < |adds[1..]|
        ensures ids[1..][i] in taken <==> ids[1..][i] in AddIds(TakeAdds(adds[1..], ids[1..], today, seen').1)
      {
        assert ids[1..][i] == ids[i + 1] && ids[i + 1] != ids[0];
      }
      TakenInOrder(adds[1..], ids[1..], today, seen', taken);
      assert ids[0] in taken <==> KeyOf(e) !in seen;
      var later := TakeAdds(adds[1..], ids[1..], today, seen');
      assert [] + later.0 == later.0 && [] + later.1 == later.1;
    }
  }

  // ---------------------------------------------------------------- the document as a whole

  /** What was seen after the old entries are the memories that stay. */
  lemma {:induction false} SeenIsKept(before: seq<Entry>, b: Batch, today: string, seen: set<Key>)
    ensures var k := Keep(before, b, today, seen);
            forall key :: key in k.seen <==> key in seen || exists e :: e in k.entries && KeyOf(e) == key
    decreases |before|
  {
    if before != [] {
      var u := Updated(before[0], b.rewrites, today);
      var k := Keep(before, b, today, seen);
      if before[0].id in b.deletes || KeyOf(u) in seen {
        SeenIsKept(before[1..], b, today, seen);
      } else {
        var rest := Keep(before[1..], b, today, seen + {KeyOf(u)});
        SeenIsKept(before[1..], b, today, seen + {KeyOf(u)});
        assert k.entries == [u] + rest.entries && u in k.entries;
        assert forall e :: e in k.entries <==> e == u || e in rest.entries;
      }
    }
  }

  /** The validated document: first the old entries that are not deleted, with their rewrites, then the
      requests whose ids were taken; both in order. */
  lemma DocumentInOrder(before: seq<Entry>, b: Batch, ids: seq<Id>, today: string)
    requires IdsKnown(before, b) && FreshIds(before, b, ids)
    ensures var p := Proposal(before, b, ids, today);
            && p.document == Staying(before, b.rewrites, today, p.mutation.deletes)
                             + Coming(b.adds, ids, today, AddIds(p.mutation.adds))
            && p.mutation.adds == Inserts(b.adds, ids, AddIds(p.mutation.adds))
  {
    var m := Proposal(before, b, ids, today).mutation;
    var kept := Keep(before, b, today, {});
    DeletesAreTheRest(before, b, ids, today);
    KeepIsStaying(before, b, today, {}, m.deletes);
    TakenInOrder(b.adds, ids, today, kept.seen, AddIds(m.adds));
  }

  /** A request is taken if and only if no entry that stays and no earlier request has its source and
      summary. */
  lemma NewRequestsAreTaken(before: seq<Entry>, b: Batch, ids: seq<Id>, today: string, i: nat)
    requires IdsKnown(before, b) && FreshIds(before, b, ids) && i < |b.adds|
    ensures var m := Proposal(before, b, ids, today).mutation;
            ids[i] in AddIds(m.adds)
            <==> && (forall e :: e in Staying(before, b.rewrites, today, m.deletes) ==>
                       e.source != b.adds[i].source || e.summary != SummaryOf(b.adds[i]))
                 && (forall j :: 0 <= j < i ==>
                       b.adds[j].source != b.adds[i].source || SummaryOf(b.adds[j]) != SummaryOf(b.adds[i]))
  {
    var m, kept := Proposal(before, b, ids, today).mutation, Keep(before, b, today, {});
    DeletesAreTheRest(before, b, ids, today);
    KeepIsStaying(before, b, today, {}, m.deletes);
    SeenIsKept(before, b, today, {});
    TakesNew(b.adds, ids, today, kept.seen, i);
    forall e | e in kept.entries && e.source == b.adds[i].source && e.summary == SummaryOf(b.adds[i])
      ensures (b.adds[i].source, SummaryOf(b.adds[i])) in kept.seen
    {
      assert KeyOf(e) == (b.adds[i].source, SummaryOf(b.adds[i]));
    }
    forall j | 0 <= j < i && b.adds[j].source == b.adds[i].source && SummaryOf(b.adds[j]) == SummaryOf(b.adds[i])
      ensures RefusedAt(b.adds, kept.seen, i)
    {
      assert SameRequest(b.adds[j], b.adds[i]);
    }
  }

  ghost predicate AllDifferent(doc: seq<Entry>) {
    forall i, j :: 0 <= i < j < |doc| ==> doc[i].source != doc[j].source || doc[i].summary != doc[j].summary
  }

  lemma {:induction false} KeptDiffer(before: seq<Entry>, b: Batch, today: string, seen: set<Key>)
    ensures AllDifferent(Keep(before, b, today, seen).entries)
    ensures forall e :: e in Keep(before, b, today, seen).entries ==> KeyOf(e) !in seen
    decreases |before|
  {
    if before != [] {
      var u := Updated(before[0], b.rewrites, today);
      KeptDiffer(before[1..], b, today, seen);
      KeptDiffer(before[1..], b, today, seen + {KeyOf(u)});
      DifferCons(u, Keep(before[1..], b, today, seen + {KeyOf(u)}).entries, seen);
    }
  }

  lemma {:induction false} TakenDiffer(adds: seq<AddRequest>, ids: seq<Id>, today: string, seen: set<Key>)
    requires |ids| >= |adds|
    ensures AllDifferent(TakeAdds(adds, ids, today, seen).0)
    ensures forall e :: e in TakeAdds(adds, ids, today, seen).0 ==> KeyOf(e) !in seen
    decreases |adds|
  {
    if adds != [] {
      var e := AddedEntry(adds[0], ids[0], today);
      TakenDiffer(adds[1..], ids[1..], today, seen);
      TakenDiffer(adds[1..], ids[1..], today, seen + {KeyOf(e)});
      DifferCons(e, TakeAdds(adds[1..], ids[1..], today, seen + {KeyOf(e)}).0, seen);
    }
  }

  lemma DifferCons(e: Entry, rest: seq<Entry>, seen: set<Key>)
    requires AllDifferent(rest) && forall d :: d in rest ==> KeyOf(d) !in seen + {KeyOf(e)}
    ensures AllDifferent([e] + rest)
    ensures KeyOf(e) !in seen ==> forall d :: d in [e] + rest ==> KeyOf(d) !in seen
  {
    forall j | 1 <= j < |[e] + rest|
      ensures KeyOf(([e] + rest)[j]) != KeyOf(e)
    {
      assert rest[j - 1] in rest;
    }
    assert forall d :: d in [e] + rest <==> d == e || d in rest;
  }

  /** No two entries of a validated document are the same memory, whatever the old document was. */
  lemma ValidatedEntriesDiffer(before: seq<Entry>, b: Batch, ids: seq<Id>, today: string)
    requires |ids| >= |b.adds|
    ensures var doc := Proposal(before, b, ids, today).document;
            forall i, j :: 0 <= i < j < |doc| ==> doc[i].source != doc[j].source || doc[i].summary != doc[j].summary
  {
    var kept := Keep(before, b, today, {});
    var entries := TakeAdds(b.adds, ids, today, kept.seen).0;
    var doc := kept.entries + entries;
    KeptDiffer(before, b, today, {});
    TakenDiffer(b.adds, ids, today, kept.seen);
    SeenIsKept(before, b, today, {});
    forall i, j | 0 <= i < j < |doc|
      ensures KeyOf(doc[i]) != KeyOf(doc[j])
    {
      if i < |kept.entries| <= j {
        assert doc[i] in kept.entries && doc[j] in entries;
      } else if j < |kept.entries| {
        assert doc[i] == kept.entries[i] && doc[j] == kept.entries[j];
      } else {
        assert doc[i] == entries[i - |kept.entries|] && doc[j] == entries[j - |kept.entries|];
      }
    }
  }
}
