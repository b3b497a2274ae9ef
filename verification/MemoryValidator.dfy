/** From the agent's batch to a validated write: the entries the document will hold, and the
    mutation that brings the table there. */
module MemoryValidator {
  import opened Sequences
  import opened MemoryTable

  datatype AddRequest = AddRequest(content: Text, minimal: Text, source: string)

  /** What the agent submitted. `upserts` are the names of the notes it writes; `noop` and
      `satisfied` say whether it gave a reason for changing nothing. */
  datatype Batch = Batch(
    op: string,
    adds: seq<AddRequest>,
    rewrites: seq<Rewrite>,
    deletes: set<Id>,
    cited: set<Id>,
    upserts: set<string>,
    noop: bool,
    satisfied: bool)

  datatype Limits = Limits(summaryMax: nat, documentMax: nat)

  /** Which texts are acceptable as content and as minimal memory. */
  datatype Checks = Checks(content: Text -> bool, minimal: Text -> bool)

  datatype Validated = Validated(document: seq<Entry>, mutation: Mutation, upserts: set<string>)

  type Key = (string, Text)

  // ---------------------------------------------------------------- resolving rewrites

  /** The last rewrite requested for an id. */
  function LastRewrite(rewrites: seq<Rewrite>, id: Id): Option<Rewrite> {
    if rewrites == [] then None
    else
      var later := LastRewrite(rewrites[1..], id);
      if later.Some? then later else if rewrites[0].id == id then Some(rewrites[0]) else None
  }

  /** The reference remembered for an id: that of the last rewrite whose minimal text had one. */
  function RememberedRef(rewrites: seq<Rewrite>, id: Id): Option<string> {
    if rewrites == [] then None
    else OrElse(RememberedRef(rewrites[1..], id),
                if rewrites[0].id == id then FirstRef(rewrites[0].minimal) else None)
  }

  /** The entry as the document will show it. */
  function Updated(e: Entry, rewrites: seq<Rewrite>, today: string): Entry {
    match LastRewrite(rewrites, e.id)
    case None => e
    case Some(w) =>
      Entry(e.id, today, e.source, WithRef(w.content, OrElse(RememberedRef(rewrites, e.id), FirstRef(w.content))))
  }

  // ---------------------------------------------------------------- the entries that stay and the ones that come

  datatype Kept = Kept(entries: seq<Entry>, rewrites: seq<Rewrite>, seen: set<Key>)

  function KeyOf(e: Entry): Key {
    (e.source, e.summary)
  }

  function Keep(before: seq<Entry>, b: Batch, today: string, seen: set<Key>): Kept
    decreases |before|
  {
    if before == [] then Kept([], [], seen)
    else
      var e := before[0];
      var u := Updated(e, b.rewrites, today);
      if e.id in b.deletes || KeyOf(u) in seen then Keep(before[1..], b, today, seen)
      else
        var rest := Keep(before[1..], b, today, seen + {KeyOf(u)});
        Kept([u] + rest.entries, EffectiveRewrite(e, b.rewrites) + rest.rewrites, rest.seen)
  }

  function EffectiveRewrite(e: Entry, rewrites: seq<Rewrite>): seq<Rewrite> {
    match LastRewrite(rewrites, e.id)
    case None => []
    case Some(w) => [w]
  }

  function AddedEntry(a: AddRequest, id: Id, today: string): Entry {
    Entry(id, today, a.source, WithRef(a.content, FirstRef(a.minimal)))
  }

  /** The adds whose (source, summary) is new, with the ids generated for them. */
  function TakeAdds(adds: seq<AddRequest>, ids: seq<Id>, today: string, seen: set<Key>): (seq<Entry>, seq<Add>)
    requires |ids| >= |adds|
    decreases |adds|
  {
    if adds == [] then ([], [])
    else
      var e := AddedEntry(adds[0], ids[0], today);
      if KeyOf(e) in seen then TakeAdds(adds[1..], ids[1..], today, seen)
      else
        var (entries, taken) := TakeAdds(adds[1..], ids[1..], today, seen + {KeyOf(e)});
        ([e] + entries, [Add(ids[0], adds[0].content, adds[0].minimal, adds[0].source)] + taken)
  }

  // ---------------------------------------------------------------- acceptance

  predicate FormOk(b: Batch) {
    && !(b.op == "delete" && (b.adds != [] || b.rewrites != []))
    && !(b.op == "delete" && b.noop)
    && !(b.op != "delete" && b.satisfied)
    && !(b.noop && (b.adds != [] || b.rewrites != [] || b.deletes != {} || b.upserts != {}))
    && !(b.satisfied && (b.adds != [] || b.rewrites != [] || b.deletes != {} || b.upserts != {} || b.noop))
  }

  ghost predicate IdsKnown(before: seq<Entry>, b: Batch) {
    && Distinct(EntryIds(before))
    && b.deletes <= Elements(EntryIds(before))
    && b.cited <= Elements(EntryIds(before))
    && forall i :: 0 <= i < |b.rewrites| ==> b.rewrites[i].id in EntryIds(before)
  }

  predicate TextsOk(before: seq<Entry>, b: Batch, checks: Checks, limits: Limits, today: string) {
    && (forall i :: 0 <= i < |b.rewrites| ==>
         checks.content(b.rewrites[i].content) && checks.minimal(b.rewrites[i].minimal))
    && (forall i :: 0 <= i < |b.adds| ==>
          && checks.content(b.adds[i].content) && checks.minimal(b.adds[i].minimal)
          && b.adds[i].source in {"user", "self"}
          && Length(WithRef(b.adds[i].content, FirstRef(b.adds[i].minimal))) <= limits.summaryMax)
    && (forall i :: 0 <= i < |before| && before[i].id !in b.deletes && LastRewrite(b.rewrites, before[i].id).Some? ==>
          Length(Updated(before[i], b.rewrites, today).summary) <= limits.summaryMax)
  }

  /** What the document validator asks of a document: its length with the final line feed, the
      length of its summaries, and distinct ids. */
  predicate DocumentOk(doc: seq<Entry>, limits: Limits) {
    && TotalLength(doc) <= limits.documentMax
    && (forall i :: 0 <= i < |doc| ==> Length(doc[i].summary) <= limits.summaryMax)
    && (forall i, j :: 0 <= i < j < |doc| ==> doc[i].id != doc[j].id)
  }

  function RefSet(r: Option<string>): set<string> {
    if r.Some? then {r.value} else {}
  }

  /** The references the validator requires a note for. */
  ghost predicate NotesPresent(doc: seq<Entry>, b: Batch, notes: set<string>) {
    && (forall i :: 0 <= i < |doc| ==> RefSet(FirstRef(doc[i].summary)) <= notes + b.upserts)
    && (forall i :: 0 <= i < |b.rewrites| ==> RefSet(FirstRef(b.rewrites[i].minimal)) <= notes + b.upserts)
    && (forall i :: 0 <= i < |b.adds| ==> RefSet(FirstRef(b.adds[i].minimal)) <= notes + b.upserts)
  }

  /** The ids generated for adds: as many as needed, new and distinct. */
  ghost predicate FreshIds(before: seq<Entry>, b: Batch, ids: seq<Id>) {
    |ids| >= |b.adds| && Distinct(ids) && Disjoint(ids, EntryIds(before))
  }

  function Proposal(before: seq<Entry>, b: Batch, ids: seq<Id>, today: string): Validated
    requires |ids| >= |b.adds|
  {
    var kept := Keep(before, b, today, {});
    var (entries, adds) := TakeAdds(b.adds, ids, today, kept.seen);
    var doc := kept.entries + entries;
    Validated(doc,
              Mutation(adds, kept.rewrites, (set id | id in EntryIds(before) && id !in EntryIds(doc)), b.cited),
              b.upserts)
  }

  ghost predicate Accepts(before: seq<Entry>, b: Batch, ids: seq<Id>, today: string, checks: Checks, limits: Limits,
      notes: set<string>)
    requires |ids| >= |b.adds|
  {
    && FormOk(b) && IdsKnown(before, b) && TextsOk(before, b, checks, limits, today)
    && DocumentOk(Proposal(before, b, ids, today).document, limits)
    && NotesPresent(Proposal(before, b, ids, today).document, b, notes)
  }

  // ---------------------------------------------------------------- when the table agrees with the document

  /** The reference the table will render for a rewritten row. */
  function TableRef(w: Rewrite): Option<string> {
    OrElse(FirstRef(w.minimal), FirstRef(w.content))
  }

  /** An earlier rewrite of the same id left a reference that the last one does not have. */
  predicate StaleRef(rewrites: seq<Rewrite>, id: Id) {
    var last := LastRewrite(rewrites, id);
    && last.Some? && FirstRef(last.value.minimal).None?
    && RememberedRef(rewrites, id).Some? && RememberedRef(rewrites, id) != FirstRef(last.value.content)
  }

  /** The content holds a reference that rendering will move or thin out. */
  predicate LooseRef(a: Add) {
    && FirstRef(a.minimal).None? && FirstRef(a.content).Some?
    && a.content != StripRefs(a.content) + [NoteRef(FirstRef(a.content).value)]
  }

  lemma {:induction false} LastRewriteFinds(rewrites: seq<Rewrite>, id: Id)
    ensures LastRewrite(rewrites, id).Some? ==>
            LastRewrite(rewrites, id).value in rewrites && LastRewrite(rewrites, id).value.id == id
    ensures LastRewrite(rewrites, id).Some? && FirstRef(LastRewrite(rewrites, id).value.minimal).Some? ==>
              RememberedRef(rewrites, id) == FirstRef(LastRewrite(rewrites, id).value.minimal)
    ensures LastRewrite(rewrites, id).None? ==> RememberedRef(rewrites, id).None?
  {
    if rewrites != [] {
      LastRewriteFinds(rewrites[1..], id);
    }
  }

  /** The row of a rewritten entry renders as the document says, unless the reference is stale. */
  lemma RewrittenAgrees(r: Row, rewrites: seq<Rewrite>, today: string)
    requires LastRewrite(rewrites, r.id).Some?
    ensures Rendered(RewriteRow(r, LastRewrite(rewrites, r.id).value, today)) == Updated(Rendered(r), rewrites, today)
            <==> !StaleRef(rewrites, r.id)
  {
    var w := LastRewrite(rewrites, r.id).value;
    LastRewriteFinds(rewrites, r.id);
    WithRefInjective(w.content, TableRef(w), OrElse(RememberedRef(rewrites, r.id), FirstRef(w.content)));
  }

  /** The row of an added entry renders as the document says, unless its reference is loose. */
  lemma AddedAgrees(a: AddRequest, id: Id, now: int, today: string)
    ensures var add := Add(id, a.content, a.minimal, a.source);
            Rendered(NewRow(add, now, today)) == AddedEntry(a, id, today) <==> !LooseRef(add)
  {
  }

  /** A reference before the end of an added text is moved to the end, and the entry with it differs. */
  lemma LooseReferenceIsReal(id: Id, now: int, today: string)
    ensures var a := AddRequest([NoteRef("n1"), Plain(" on tea")], [Plain("tea->note")], "user");
            Rendered(NewRow(Add(id, a.content, a.minimal, a.source), now, today)) != AddedEntry(a, id, today)
  {
    var content := [NoteRef("n1"), Plain(" on tea")];
    var minimal := [Plain("tea->note")];
    assert minimal[1..] == [] && FirstRef(minimal) == None;
    assert StripRefs(content) + [NoteRef("n1")] != content by {
      assert (StripRefs(content) + [NoteRef("n1")])[|StripRefs(content)|] == NoteRef("n1") && content[1].Plain?;
      assert content[1..] == [Plain(" on tea")] && content[1..][1..] == [];
      assert StripRefs(content) == [Plain(" on tea")];
    }
    AddedAgrees(AddRequest(content, minimal, "user"), id, now, today);
  }
}
