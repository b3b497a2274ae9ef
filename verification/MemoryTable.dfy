/** The keyed row table, the document rendered from it, and the mutations of one commit. */
module MemoryTable {
  import opened Sequences

  type Id = string

  // ---------------------------------------------------------------- texts with note references

  /** A summary line as plain stretches and note references, in order. */
  datatype Piece = Plain(text: string) | NoteRef(name: string)

  type Text = seq<Piece>

  function FirstRef(t: Text): Option<string> {
    if t == [] then None else if t[0].NoteRef? then Some(t[0].name) else FirstRef(t[1..])
  }

  function StripRefs(t: Text): Text {
    if t == [] then [] else (if t[0].NoteRef? then [] else [t[0]]) + StripRefs(t[1..])
  }

  /** The summary with all its references replaced by one at the end, if there is one to put. */
  function WithRef(t: Text, r: Option<string>): Text {
    if r.Some? then StripRefs(t) + [NoteRef(r.value)] else t
  }

  function OrElse(a: Option<string>, b: Option<string>): Option<string> {
    if a.Some? then a else b
  }

  function Length(t: Text): nat {
    if t == [] then 0
    else (match t[0] case Plain(s) => |s| case NoteRef(n) => 5 + |n|) + Length(t[1..])
  }

  ghost function RefsOf(t: Text): set<string> {
    set p | p in t && p.NoteRef? :: p.name
  }

  // ---------------------------------------------------------------- rows and the rendered document

  datatype Row = Row(
    id: Id,
    body: Text,
    minimal: Text,
    source: string,
    refreshCount: nat,
    passedCount: nat,
    compressed: bool,
    createdAt: int,
    date: string)

  datatype Entry = Entry(id: Id, date: string, source: string, summary: Text)

  predicate FromUser(r: Row) {
    r.source == "user"
  }

  /** The reference a row is rendered with: that of its minimal text, or else of its body. */
  function RowRef(r: Row): Option<string> {
    OrElse(FirstRef(r.minimal), FirstRef(r.body))
  }

  function Rendered(r: Row): Entry {
    Entry(r.id, r.date, r.source, WithRef(if r.compressed then r.minimal else r.body, RowRef(r)))
  }

  function Render(rows: seq<Row>): seq<Entry> {
    seq(|rows|, i requires 0 <= i < |rows| => Rendered(rows[i]))
  }

  /** Length of an entry's text: marker and id lines, header line, summary line. */
  function EntryLength(e: Entry): nat {
    4 + (3 + |e.id| + 1) + (|e.date| + 1 + |e.source| + 2) + (Length(e.summary) + 1)
  }

  function TotalLength(doc: seq<Entry>): nat {
    if doc == [] then 0 else EntryLength(doc[0]) + TotalLength(doc[1..])
  }

  /** Length of the stripped document. */
  function DocumentLength(doc: seq<Entry>): nat {
    if doc == [] then 0 else TotalLength(doc) - 1
  }

  ghost function DocumentRefs(doc: seq<Entry>): set<string> {
    set e, n | e in doc && n in RefsOf(e.summary) :: n
  }

  function EntryIds(doc: seq<Entry>): seq<Id> {
    seq(|doc|, i requires 0 <= i < |doc| => doc[i].id)
  }

  function TableIds(rows: seq<Row>): seq<Id> {
    seq(|rows|, i requires 0 <= i < |rows| => rows[i].id)
  }

  // ---------------------------------------------------------------- one commit's mutation

  datatype Add = Add(id: Id, content: Text, minimal: Text, source: string)

  datatype Rewrite = Rewrite(id: Id, content: Text, minimal: Text)

  datatype Mutation = Mutation(adds: seq<Add>, rewrites: seq<Rewrite>, deletes: set<Id>, cited: set<Id>)

  function AddIds(adds: seq<Add>): set<Id> {
    set a | a in adds :: a.id
  }

  function RewriteIds(rewrites: seq<Rewrite>): set<Id> {
    set w | w in rewrites :: w.id
  }

  function NewRow(a: Add, now: int, today: string): Row {
    Row(a.id, a.content, a.minimal, a.source, 0, 0, false, now, today)
  }

  function InsertAll(rows: seq<Row>, adds: seq<Add>, now: int, today: string): seq<Row>
    decreases |adds|
  {
    if adds == [] then rows else InsertAll(rows + [NewRow(adds[0], now, today)], adds[1..], now + 1, today)
  }

  function RewriteRow(r: Row, w: Rewrite, today: string): Row {
    if r.id == w.id then
      r.(body := w.content, minimal := w.minimal, refreshCount := r.refreshCount + 1, passedCount := 0,
         compressed := false, date := today)
    else r
  }

  function RewriteTable(rows: seq<Row>, w: Rewrite, today: string): seq<Row> {
    seq(|rows|, i requires 0 <= i < |rows| => RewriteRow(rows[i], w, today))
  }

  function RewriteAll(rows: seq<Row>, rewrites: seq<Rewrite>, today: string): (rows': seq<Row>)
    ensures |rows'| == |rows|
    decreases |rewrites|
  {
    if rewrites == [] then rows else RewriteAll(RewriteTable(rows, rewrites[0], today), rewrites[1..], today)
  }

  function DeleteAll(rows: seq<Row>, ids: set<Id>): seq<Row> {
    if rows == [] then []
    else (if rows[0].id in ids then [] else [rows[0]]) + DeleteAll(rows[1..], ids)
  }

  function RefreshTable(rows: seq<Row>, ids: set<Id>): seq<Row> {
    seq(|rows|, i requires 0 <= i < |rows| =>
      if rows[i].id in ids then rows[i].(refreshCount := rows[i].refreshCount + 1, passedCount := 0) else rows[i])
  }

  function PassTable(rows: seq<Row>, exclusions: set<Id>): seq<Row> {
    seq(|rows|, i requires 0 <= i < |rows| =>
      if rows[i].id in exclusions then rows[i] else rows[i].(passedCount := rows[i].passedCount + 1))
  }

  /** Whether the inserts meet the primary key. */
  predicate CanInsert(rows: seq<Row>, adds: seq<Add>) {
    && (forall i, j :: 0 <= i < j < |adds| ==> adds[i].id != adds[j].id)
    && (forall i, j :: 0 <= i < |adds| && 0 <= j < |rows| ==> adds[i].id != rows[j].id)
  }

  /** The table after a mutation: insert, rewrite, delete, refresh what was cited, age the rest. */
  function Mutate(rows: seq<Row>, m: Mutation, now: int, today: string): seq<Row> {
    var rewriteIds := RewriteIds(m.rewrites);
    var refreshed := m.cited + rewriteIds;
    var inserted := InsertAll(rows, m.adds, now, today);
    var kept := DeleteAll(RewriteAll(inserted, m.rewrites, today), m.deletes);
    PassTable(RefreshTable(kept, refreshed - rewriteIds - m.deletes), refreshed + m.deletes + AddIds(m.adds))
  }

  // ---------------------------------------------------------------- rebuilding from a document

  function RowWithId(rows: seq<Row>, id: Id): Option<Row> {
    if rows == [] then None else if rows[0].id == id then Some(rows[0]) else RowWithId(rows[1..], id)
  }

  /** A row read back from the document: texts from the entry, counters and flag from the old row. */
  function RowFromEntry(rows: seq<Row>, e: Entry, now: int): Row {
    match RowWithId(rows, e.id)
    case Some(r) => Row(e.id, e.summary, e.summary, e.source, r.refreshCount, r.passedCount, r.compressed, r.createdAt,
      e.date)
    case None => Row(e.id, e.summary, e.summary, e.source, 0, 0, false, now, e.date)
  }

  function ReplaceAll(rows: seq<Row>, doc: seq<Entry>, now: int): seq<Row> {
    seq(|doc|, i requires 0 <= i < |doc| => RowFromEntry(rows, doc[i], now + i))
  }

  // ---------------------------------------------------------------- facts about references

  lemma {:induction false} StripRefsIsPlain(t: Text)
    ensures forall p :: p in StripRefs(t) <==> p in t && p.Plain?
    ensures FirstRef(StripRefs(t)) == None
  {
    if t != [] {
      StripRefsIsPlain(t[1..]);
      assert t == [t[0]] + t[1..];
      assert StripRefs(t) == (if t[0].Plain? then [t[0]] else []) + StripRefs(t[1..]);
      if t[0].Plain? {
        assert StripRefs(t)[1..] == StripRefs(t[1..]);
      } else {
        assert StripRefs(t) == StripRefs(t[1..]);
      }
    }
  }

  lemma {:induction false} FirstRefFinds(t: Text)
    ensures FirstRef(t).Some? <==> RefsOf(t) != {}
    ensures FirstRef(t).Some? ==> FirstRef(t).value in RefsOf(t)
  {
    if t != [] {
      FirstRefFinds(t[1..]);
      assert t == [t[0]] + t[1..];
      if t[0].NoteRef? {
        assert t[0].name in RefsOf(t);
      } else {
        assert RefsOf(t) == RefsOf(t[1..]);
      }
    }
  }

  lemma {:induction false} FirstRefConcat(a: Text, b: Text)
    ensures FirstRef(a + b) == OrElse(FirstRef(a), FirstRef(b))
  {
    if a == [] {
      assert a + b == b;
    } else {
      assert (a + b)[1..] == a[1..] + b;
      FirstRefConcat(a[1..], b);
    }
  }

  /** A text given a reference carries exactly that one. */
  lemma WithRefRefs(t: Text, r: Option<string>)
    ensures r.Some? ==> RefsOf(WithRef(t, r)) == {r.value} && FirstRef(WithRef(t, r)) == r
    ensures r.None? ==> WithRef(t, r) == t
  {
    if r.Some? {
      StripRefsIsPlain(t);
      FirstRefConcat(StripRefs(t), [NoteRef(r.value)]);
      assert [NoteRef(r.value)][1..] == [];
      var w := WithRef(t, r);
      assert w[|w| - 1] == NoteRef(r.value) && NoteRef(r.value) in w;
      assert forall p :: p in w && p.NoteRef? ==> p == NoteRef(r.value);
    }
  }

  /** Two different references give two different summaries. */
  lemma WithRefInjective(t: Text, r: Option<string>, q: Option<string>)
    requires r.None? || q.None? ==> FirstRef(t).None?
    ensures WithRef(t, r) == WithRef(t, q) <==> r == q
  {
    WithRefRefs(t, r);
    WithRefRefs(t, q);
  }

  /** A rendered row carries its own reference and no other, compressed or not. */
  lemma RenderedRefs(r: Row)
    ensures RefsOf(Rendered(r).summary) == if RowRef(r).Some? then {RowRef(r).value} else {}
    ensures FirstRef(Rendered(r).summary) == RowRef(r)
    ensures forall c :: RowRef(r.(compressed := c)) == RowRef(r)
  {
    var t := if r.compressed then r.minimal else r.body;
    WithRefRefs(t, RowRef(r));
    if RowRef(r).None? {
      FirstRefFinds(t);
    }
  }
}
