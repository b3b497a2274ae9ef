/** The validator as the program runs it: dictionaries and lists filled in loops. */
module MemoryValidatorLoops {
  import opened Sequences
  import opened MemoryTable
  import opened MemoryValidator

  /** The dictionaries built from the requested rewrites, later ones overwriting earlier ones. */
  datatype Resolved = Resolved(byId: map<Id, Rewrite>, refById: map<Id, string>)

  ghost predicate Resolves(r: Resolved, rewrites: seq<Rewrite>) {
    && (forall id :: LastRewrite(rewrites, id) == if id in r.byId then Some(r.byId[id]) else None)
    && (forall id :: RememberedRef(rewrites, id) == if id in r.refById then Some(r.refById[id]) else None)
  }

  lemma {:induction false} LastRewriteSnoc(rewrites: seq<Rewrite>, w: Rewrite, id: Id)
    ensures LastRewrite(rewrites + [w], id) == if w.id == id then Some(w) else LastRewrite(rewrites, id)
    ensures RememberedRef(rewrites + [w], id)
            == OrElse(if w.id == id then FirstRef(w.minimal) else None, RememberedRef(rewrites, id))
  {
    if rewrites == [] {
      assert [w][1..] == [] && rewrites + [w] == [w];
    } else {
      assert (rewrites + [w])[1..] == rewrites[1..] + [w];
      LastRewriteSnoc(rewrites[1..], w, id);
    }
  }

  lemma ResolvesSnoc(r: Resolved, rewrites: seq<Rewrite>, w: Rewrite)
    requires Resolves(r, rewrites)
    ensures var byId := r.byId[w.id := w];
            var ref := FirstRef(w.minimal);
            Resolves(Resolved(byId, if ref.Some? then r.refById[w.id := ref.value] else r.refById), rewrites + [w])
  {
    forall id {
      LastRewriteSnoc(rewrites, w, id);
    }
  }

  predicate RewriteOk(w: Rewrite, known: set<Id>, checks: Checks) {
    w.id in known && checks.content(w.content) && checks.minimal(w.minimal)
  }

  method ResolveRewrites(rewrites: seq<Rewrite>, known: set<Id>, checks: Checks)
    returns (ok: bool, r: Resolved, minimalRefs: set<string>)
    ensures ok <==> forall i :: 0 <= i < |rewrites| ==> RewriteOk(rewrites[i], known, checks)
    ensures ok ==> Resolves(r, rewrites)
    ensures ok ==> forall n :: n in minimalRefs <==> exists i ::
            0 <= i < |rewrites| && FirstRef(rewrites[i].minimal) == Some(n)
  {
    r, minimalRefs := Resolved(map[], map[]), {};
    for i := 0 to |rewrites|
      invariant forall j :: 0 <= j < i ==> RewriteOk(rewrites[j], known, checks)
      invariant Resolves(r, rewrites[..i])
      invariant forall n :: n in minimalRefs <==> exists j :: 0 <= j < i && FirstRef(rewrites[j].minimal) == Some(n)
    {
      var w := rewrites[i];
      if !RewriteOk(w, known, checks) {
        return false, r, minimalRefs;
      }
      assert rewrites[..i + 1] == rewrites[..i] + [w];
      ResolvesSnoc(r, rewrites[..i], w);
      var ref := FirstRef(w.minimal);
      r := r.(byId := r.byId[w.id := w]);
      if ref.Some? {
        r := r.(refById := r.refById[w.id := ref.value]);
      }
      minimalRefs := minimalRefs + RefSet(ref);
    }
    assert rewrites[..|rewrites|] == rewrites;
    ok := true;
  }

  // ---------------------------------------------------------------- the loop over the old entries

  lemma KeepUnfolds(before: seq<Entry>, b: Batch, today: string, seen: set<Key>, entries: seq<Entry>,
      rewrites: seq<Rewrite>)
    requires before != []
    ensures var e := before[0];
            var u := Updated(e, b.rewrites, today);
            var k := Keep(before, b, today, seen);
            if e.id in b.deletes || KeyOf(u) in seen then k == Keep(before[1..], b, today, seen)
            else
              var k' := Keep(before[1..], b, today, seen + {KeyOf(u)});
              && entries + k.entries == (entries + [u]) + k'.entries
              && rewrites + k.rewrites == (rewrites + EffectiveRewrite(e, b.rewrites)) + k'.rewrites
              && k.seen == k'.seen
  {
    var e := before[0];
    var u := Updated(e, b.rewrites, today);
    if e.id !in b.deletes && KeyOf(u) !in seen {
      var later := Keep(before[1..], b, today, seen + {KeyOf(u)});
      Regroup(entries, [u], later.entries);
      Regroup(rewrites, EffectiveRewrite(e, b.rewrites), later.rewrites);
    }
  }

  /** A rewritten entry that stays is not too long. */
  predicate KeptFits(e: Entry, b: Batch, today: string, limits: Limits) {
    e.id !in b.deletes && LastRewrite(b.rewrites, e.id).Some? ==>
      Length(Updated(e, b.rewrites, today).summary) <= limits.summaryMax
  }

  method KeepEntries(before: seq<Entry>, b: Batch, r: Resolved, today: string, limits: Limits)
    returns (ok: bool, k: Kept)
    requires Resolves(r, b.rewrites)
    ensures ok <==> forall i :: 0 <= i < |before| ==> KeptFits(before[i], b, today, limits)
    ensures ok ==> k == Keep(before, b, today, {})
  {
    var entries: seq<Entry>, rewrites: seq<Rewrite>, seen: set<Key> := [], [], {};
    ghost var all := Keep(before, b, today, {});
    for i := 0 to |before|
      invariant forall j :: 0 <= j < i ==> KeptFits(before[j], b, today, limits)
      invariant entries + Keep(before[i..], b, today, seen).entries == all.entries
      invariant rewrites + Keep(before[i..], b, today, seen).rewrites == all.rewrites
      invariant Keep(before[i..], b, today, seen).seen == all.seen
    {
      var e := before[i];
      assert before[i..][0] == e && before[i..][1..] == before[i + 1..];
      KeepUnfolds(before[i..], b, today, seen, entries, rewrites);
      if e.id in b.deletes {
        continue;
      }
      assert LastRewrite(b.rewrites, e.id) == if e.id in r.byId then Some(r.byId[e.id]) else None;
      var u := e;
      if e.id in r.byId {
        var w := r.byId[e.id];
        var ref := OrElse(if e.id in r.refById then Some(r.refById[e.id]) else None, FirstRef(w.content));
        u := Entry(e.id, today, e.source, WithRef(w.content, ref));
        if Length(u.summary) > limits.summaryMax {
          return false, Kept([], [], {});
        }
      }
      assert u == Updated(e, b.rewrites, today);
      if KeyOf(u) !in seen {
        entries, seen := entries + [u], seen + {KeyOf(u)};
        if e.id in r.byId {
          rewrites := rewrites + [r.byId[e.id]];
        }
      }
    }
    assert before[|before|..] == [];
    ok, k := true, Kept(entries, rewrites, seen);
  }

  // ---------------------------------------------------------------- the loop over the adds

  predicate AddOk(a: AddRequest, checks: Checks, limits: Limits) {
    && checks.content(a.content) && checks.minimal(a.minimal) && a.source in {"user", "self"}
    && Length(WithRef(a.content, FirstRef(a.minimal))) <= limits.summaryMax
  }

  lemma TakeUnfolds(adds: seq<AddRequest>, ids: seq<Id>, today: string, seen: set<Key>, entries: seq<Entry>,
      taken: seq<Add>)
    requires adds != [] && |ids| >= |adds|
    ensures var e := AddedEntry(adds[0], ids[0], today);
            var all := TakeAdds(adds, ids, today, seen);
            if KeyOf(e) in seen then all == TakeAdds(adds[1..], ids[1..], today, seen)
            else
              var later := TakeAdds(adds[1..], ids[1..], today, seen + {KeyOf(e)});
              && entries + all.0 == (entries + [e]) + later.0
              && taken + all.1 == (taken + [Add(ids[0], adds[0].content, adds[0].minimal, adds[0].source)]) + later.1
  {
    var e := AddedEntry(adds[0], ids[0], today);
    if KeyOf(e) !in seen {
      var later := TakeAdds(adds[1..], ids[1..], today, seen + {KeyOf(e)});
      Regroup(entries, [e], later.0);
      Regroup(taken, [Add(ids[0], adds[0].content, adds[0].minimal, adds[0].source)], later.1);
    }
  }

  method TakeNewEntries(adds: seq<AddRequest>, ids: seq<Id>, today: string, checks: Checks, limits: Limits,
      seen0: set<Key>)
    returns (ok: bool, entries: seq<Entry>, taken: seq<Add>, minimalRefs: set<string>)
    requires |ids| >= |adds|
    ensures ok <==> forall i :: 0 <= i < |adds| ==> AddOk(adds[i], checks, limits)
    ensures ok ==> (entries, taken) == TakeAdds(adds, ids, today, seen0)
    ensures ok ==> forall n :: n in minimalRefs <==> exists i :: 0 <= i < |adds| && FirstRef(adds[i].minimal) == Some(n)
  {
    entries, taken, minimalRefs := [], [], {};
    var seen := seen0;
    ghost var all := TakeAdds(adds, ids, today, seen0);
    for i := 0 to |adds|
      invariant forall j :: 0 <= j < i ==> AddOk(adds[j], checks, limits)
      invariant entries + TakeAdds(adds[i..], ids[i..], today, seen).0 == all.0
      invariant taken + TakeAdds(adds[i..], ids[i..], today, seen).1 == all.1
      invariant forall n :: n in minimalRefs <==> exists j :: 0 <= j < i && FirstRef(adds[j].minimal) == Some(n)
    {
      var a := adds[i];
      assert adds[i..][1..] == adds[i + 1..] && ids[i..][1..] == ids[i + 1..];
      TakeUnfolds(adds[i..], ids[i..], today, seen, entries, taken);
      if !AddOk(a, checks, limits) {
        return false, [], [], {};
      }
      minimalRefs := minimalRefs + RefSet(FirstRef(a.minimal));
      var e := AddedEntry(a, ids[i], today);
      if KeyOf(e) !in seen {
        seen := seen + {KeyOf(e)};
        entries, taken := entries + [e], taken + [Add(ids[i], a.content, a.minimal, a.source)];
      }
    }
    assert adds[|adds|..] == [];
    assert entries == all.0 && taken == all.1;
    assert (entries, taken) == all;
    ok := true;
  }

  // ---------------------------------------------------------------- the notes the batch must have

  function DocRefs(doc: seq<Entry>): set<string> {
    set e | e in doc && FirstRef(e.summary).Some? :: FirstRef(e.summary).value
  }

  lemma NotesMatch(doc: seq<Entry>, b: Batch, notes: set<string>, rewriteRefs: set<string>, addRefs: set<string>)
    requires forall n :: n in rewriteRefs <==> exists i ::
             0 <= i < |b.rewrites| && FirstRef(b.rewrites[i].minimal) == Some(n)
    requires forall n :: n in addRefs <==> exists i :: 0 <= i < |b.adds| && FirstRef(b.adds[i].minimal) == Some(n)
    ensures NotesPresent(doc, b, notes) <==> rewriteRefs + addRefs + DocRefs(doc) <= notes + b.upserts
  {
    var all := notes + b.upserts;
    if NotesPresent(doc, b, notes) {
      forall n | n in rewriteRefs + addRefs + DocRefs(doc)
        ensures n in all
      {
        if n in rewriteRefs {
          var i :| 0 <= i < |b.rewrites| && FirstRef(b.rewrites[i].minimal) == Some(n);
          assert n in RefSet(FirstRef(b.rewrites[i].minimal));
        } else if n in addRefs {
          var i :| 0 <= i < |b.adds| && FirstRef(b.adds[i].minimal) == Some(n);
          assert n in RefSet(FirstRef(b.adds[i].minimal));
        } else {
          var i :| 0 <= i < |doc| && FirstRef(doc[i].summary) == Some(n);
          assert n in RefSet(FirstRef(doc[i].summary));
        }
      }
    }
    if rewriteRefs + addRefs + DocRefs(doc) <= all {
      forall i | 0 <= i < |doc|
        ensures RefSet(FirstRef(doc[i].summary)) <= all
      {
        assert doc[i] in doc;
      }
      forall i | 0 <= i < |b.rewrites|
        ensures RefSet(FirstRef(b.rewrites[i].minimal)) <= all
      {
        assert forall n :: n in RefSet(FirstRef(b.rewrites[i].minimal)) ==> n in rewriteRefs;
      }
      forall i | 0 <= i < |b.adds|
        ensures RefSet(FirstRef(b.adds[i].minimal)) <= all
      {
        assert forall n :: n in RefSet(FirstRef(b.adds[i].minimal)) ==> n in addRefs;
      }
    }
  }

  // ---------------------------------------------------------------- the whole validator

  method KnownIds(before: seq<Entry>) returns (ok: bool, known: set<Id>)
    ensures ok <==> Distinct(EntryIds(before))
    ensures ok ==> known == Elements(EntryIds(before))
  {
    known := {};
    ghost var ids := EntryIds(before);
    for i := 0 to |before|
      invariant known == Elements(ids[..i]) && Distinct(ids[..i])
    {
      assert ids[i] == before[i].id && ids[..i + 1] == ids[..i] + [ids[i]];
      if before[i].id in known {
        assert exists j :: 0 <= j < i && ids[j] == ids[i];
        return false, {};
      }
      known := known + {before[i].id};
    }
    assert ids[..|before|] == ids;
    ok := true;
  }

  /** The checks made along the way are the ones the acceptance asks for. */
  lemma ChecksMade(before: seq<Entry>, b: Batch, known: set<Id>, today: string, checks: Checks, limits: Limits)
    requires Distinct(EntryIds(before)) && known == Elements(EntryIds(before))
    ensures (&& b.deletes <= known && b.cited <= known
             && (forall i :: 0 <= i < |b.rewrites| ==> RewriteOk(b.rewrites[i], known, checks))
             && (forall i :: 0 <= i < |before| ==> KeptFits(before[i], b, today, limits))
             && (forall i :: 0 <= i < |b.adds| ==> AddOk(b.adds[i], checks, limits)))
            <==> IdsKnown(before, b) && TextsOk(before, b, checks, limits, today)
  {
    if IdsKnown(before, b) && TextsOk(before, b, checks, limits, today) {
      assert forall i :: 0 <= i < |b.rewrites| ==> RewriteOk(b.rewrites[i], known, checks);
      assert forall i :: 0 <= i < |b.adds| ==> AddOk(b.adds[i], checks, limits);
    }
    if (forall i :: 0 <= i < |b.rewrites| ==> RewriteOk(b.rewrites[i], known, checks))
       && (forall i :: 0 <= i < |before| ==> KeptFits(before[i], b, today, limits)) {
      forall i | 0 <= i < |b.rewrites|
        ensures b.rewrites[i].id in EntryIds(before) && checks.content(b.rewrites[i].content)
                && checks.minimal(b.rewrites[i].minimal)
      {
        assert RewriteOk(b.rewrites[i], known, checks);
      }
      forall i | 0 <= i < |before| && before[i].id !in b.deletes && LastRewrite(b.rewrites, before[i].id).Some?
        ensures Length(Updated(before[i], b.rewrites, today).summary) <= limits.summaryMax
      {
        assert KeptFits(before[i], b, today, limits);
      }
    }
  }

  lemma DroppedIds(before: seq<Entry>, doc: seq<Entry>)
    ensures (set e | e in before && e.id !in EntryIds(doc) :: e.id) == set id | id in EntryIds(before)
            && id !in EntryIds(doc)
  {
    forall id | id in EntryIds(before)
      ensures exists e :: e in before && e.id == id
    {
      var i :| 0 <= i < |before| && EntryIds(before)[i] == id;
      assert before[i] in before;
    }
    forall e | e in before
      ensures e.id in EntryIds(before)
    {
      var i :| 0 <= i < |before| && before[i] == e;
      assert EntryIds(before)[i] == e.id;
    }
  }

  /** All the texts of a batch, checked and resolved against the entries of the old document. */
  method ResolveBatch(before: seq<Entry>, b: Batch, ids: seq<Id>, today: string, checks: Checks, limits: Limits)
    returns (ok: bool, doc: seq<Entry>, adds: seq<Add>, rewrites: seq<Rewrite>, minimalRefs: set<string>)
    requires |ids| >= |b.adds|
    ensures ok <==> IdsKnown(before, b) && TextsOk(before, b, checks, limits, today)
    ensures ok ==>
              var p := Proposal(before, b, ids, today);
              doc == p.document && adds == p.mutation.adds && rewrites == p.mutation.rewrites
    ensures ok ==> forall d :: NotesPresent(doc, b, d) <==> minimalRefs + DocRefs(doc) <= d + b.upserts
  {
    doc, adds, rewrites, minimalRefs := [], [], [], {};
    var known;
    ok, known := KnownIds(before);
    if !ok {
      return;
    }
    ChecksMade(before, b, known, today, checks, limits);
    if !(b.deletes <= known && b.cited <= known) {
      return false, doc, adds, rewrites, minimalRefs;
    }
    var r, kept, rewriteRefs, entries, addRefs;
    ok, r, rewriteRefs := ResolveRewrites(b.rewrites, known, checks);
    if !ok {
      return;
    }
    ok, kept := KeepEntries(before, b, r, today, limits);
    if !ok {
      return;
    }
    ok, entries, adds, addRefs := TakeNewEntries(b.adds, ids, today, checks, limits, kept.seen);
    doc, rewrites, minimalRefs := kept.entries + entries, kept.rewrites, rewriteRefs + addRefs;
    if ok {
      forall d {
        NotesMatch(doc, b, d, rewriteRefs, addRefs);
      }
    }
  }

  method BuildValidatedWrite(before: seq<Entry>, b: Batch, ids: seq<Id>, today: string, checks: Checks, limits: Limits,
      notes: set<string>)
    returns (result: Option<Validated>)
    requires |ids| >= |b.adds|
    ensures result.Some? <==> Accepts(before, b, ids, today, checks, limits, notes)
    ensures result.Some? ==> result.value == Proposal(before, b, ids, today)
  {
    if !FormOk(b) {
      return None;
    }
    var ok, doc, adds, rewrites, minimalRefs := ResolveBatch(before, b, ids, today, checks, limits);
    if !ok || !DocumentOk(doc, limits) || !(minimalRefs + DocRefs(doc) <= notes + b.upserts) {
      return None;
    }
    var deletes := set e | e in before && e.id !in EntryIds(doc) :: e.id;
    DroppedIds(before, doc);
    return Some(Validated(doc, Mutation(adds, rewrites, deletes, b.cited), b.upserts));
  }
}
