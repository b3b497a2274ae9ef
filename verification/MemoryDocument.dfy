/** The structured document of the table and the printed Markdown document are one: what a structured
    summary prints as has the length the validator and the compression run measure, and the parser
    reads its first reference back. */
module MemoryDocument {
  import opened Sequences
  import Markdown = MarkdownMemory
  import opened MemoryTable
  import MemoryValidator

  // ---------------------------------------------------------------- printing a summary

  function PrintText(t: Text): string {
    if t == [] then "" else (match t[0] case Plain(s) => s case NoteRef(n) => " ref:" + n) + PrintText(t[1..])
  }

  lemma {:induction false} PrintTextLength(t: Text)
    ensures |PrintText(t)| == Length(t)
  {
    if t != [] {
      PrintTextLength(t[1..]);
    }
  }

  function PrintedEntry(e: Entry): Markdown.Entry {
    var first := FirstRef(e.summary);
    Markdown.Entry(e.id, e.date, e.source, PrintText(e.summary), if first.Some? then first.value else "")
  }

  function PrintedDocument(doc: seq<Entry>): seq<Markdown.Entry> {
    seq(|doc|, i requires 0 <= i < |doc| => PrintedEntry(doc[i]))
  }

  lemma EntryLengthIsPrinted(e: Entry)
    ensures |Markdown.Print(PrintedEntry(e))| == EntryLength(e)
  {
    PrintTextLength(e.summary);
    assert |Markdown.HeadText(e.id, e.date, e.source)| == 4 + 3 + |e.id| + 1 + |e.date| + 1 + |e.source| + 2;
  }

  /** The length the validator limits. */
  lemma {:induction false} TotalLengthIsPrinted(doc: seq<Entry>)
    ensures |Markdown.PrintAll(PrintedDocument(doc))| == TotalLength(doc)
  {
    if doc != [] {
      EntryLengthIsPrinted(doc[0]);
      TotalLengthIsPrinted(doc[1..]);
      assert PrintedDocument(doc)[1..] == PrintedDocument(doc[1..]);
    }
  }

  /** The length the compression run measures: that of the stripped snapshot. */
  lemma DocumentLengthIsSnapshot(doc: seq<Entry>)
    requires Markdown.AllWellFormed(PrintedDocument(doc))
    ensures |Markdown.Strip(Markdown.PrintAll(PrintedDocument(doc)))| == DocumentLength(doc)
  {
    TotalLengthIsPrinted(doc);
    if doc != [] {
      Markdown.StrippedPrint(PrintedDocument(doc));
      Markdown.PrintedBlocks(PrintedDocument(doc));
    }
  }

  // ---------------------------------------------------------------- reading the reference back

  /** The plain text before the first reference, and the pieces from that reference on. */
  function Lead(t: Text): string {
    if t == [] || t[0].NoteRef? then "" else t[0].text + Lead(t[1..])
  }

  function FromFirstRef(t: Text): Text {
    if t == [] || t[0].NoteRef? then t else FromFirstRef(t[1..])
  }

  predicate RefChar(c: char) {
    Markdown.IsDigit(c) || 'a' <= c <= 'z' || c == '_'
  }

  predicate IsName(n: string) {
    n != "" && forall i :: 0 <= i < |n| ==> RefChar(n[i])
  }

  /** The mark of a reference does not occur in plain text. */
  predicate NoMark(s: string) {
    |s| < 4 || (s[..4] != "ref:" && NoMark(s[1..]))
  }

  /** A name ends before this text. */
  predicate EndsName(s: string, isWord: Markdown.WordClass) {
    s == "" || (!isWord(s[0]) && !RefChar(s[0]))
  }

  /** References can be told from plain text, as far as the first one is concerned. */
  predicate Tidy(t: Text, isWord: Markdown.WordClass) {
    var r := FromFirstRef(t);
    NoMark(Lead(t)) && (r == [] || (r[0].NoteRef? && IsName(r[0].name) && EndsName(PrintText(r[1..]), isWord)))
  }

  /** There is no mark if no place of the text begins one. */
  lemma {:induction false} NoMarkForm(s: string)
    ensures NoMark(s) <==> forall i :: 0 <= i <= |s| ==> !("ref:" <= s[i..])
  {
    if |s| >= 4 {
      NoMarkForm(s[1..]);
      assert "ref:" <= s[0..] <==> s[..4] == "ref:";
      forall i | 1 <= i <= |s|
        ensures s[i..] == s[1..][i - 1..]
      {
      }
      forall i | 0 <= i <= |s[1..]|
        ensures s[1..][i..] == s[i + 1..]
      {
      }
    }
  }

  lemma {:induction false} PrintSplits(t: Text)
    ensures PrintText(t) == Lead(t) + PrintText(FromFirstRef(t))
    ensures FirstRef(t) == FirstRef(FromFirstRef(t))
    ensures FromFirstRef(t) == [] || FromFirstRef(t)[0].NoteRef?
  {
    if t != [] && t[0].Plain? {
      PrintSplits(t[1..]);
    }
  }

  lemma {:induction false} NameRuns(n: string, after: string, isWord: Markdown.WordClass)
    requires (forall i :: 0 <= i < |n| ==> RefChar(n[i])) && EndsName(after, isWord)
    ensures Markdown.RefRun(n + after) == |n|
  {
    if n == "" {
      assert n + after == after;
    } else {
      assert (n + after)[1..] == n[1..] + after;
      NameRuns(n[1..], after, isWord);
    }
  }

  lemma NoBlankInMark(k: nat)
    requires k < 4
    ensures "ref:"[k] != ' '
  {
  }

  lemma NotAMark(s: string, afterWord: bool, isWord: Markdown.WordClass)
    requires |s| >= 5 && s[..4] != "ref:"
    ensures Markdown.NoteRefFrom(s, afterWord, isWord) == Markdown.NoteRefFrom(s[1..], isWord(s[0]), isWord)
  {
  }

  lemma MarkIsRead(n: string, after: string, isWord: Markdown.WordClass)
    requires IsName(n) && EndsName(after, isWord)
    ensures Markdown.NoteRefFrom("ref:" + (n + after), false, isWord) == n
  {
    var s := "ref:" + (n + after);
    NameRuns(n, after, isWord);
    assert s[..4] == "ref:" && s[4..] == n + after && s[4..4 + |n|] == n;
    assert after != "" ==> s[4 + |n|] == after[0];
  }

  lemma RefIsRead(n: string, after: string, afterWord: bool, isWord: Markdown.WordClass)
    requires IsName(n) && EndsName(after, isWord) && !isWord(' ')
    ensures Markdown.NoteRefFrom(" ref:" + n + after, afterWord, isWord) == n
  {
    var s := " ref:" + n + after;
    assert s == " " + ("ref:" + (n + after));
    assert s[..4][0] == s[0] == ' ';
    NoBlankInMark(0);
    NotAMark(s, afterWord, isWord);
    assert s[1..] == "ref:" + (n + after);
    MarkIsRead(n, after, isWord);
  }

  /** A character of plain text before a reference, or before the end, starts no reference. */
  lemma NoMarkHere(lead: string, rest: string)
    requires lead != "" && NoMark(lead) && (rest != "" ==> rest[0] == ' ') && |lead + rest| >= 5
    ensures (lead + rest)[..4] != "ref:"
  {
    if |lead| >= 4 {
      assert (lead + rest)[..4] == lead[..4];
    } else {
      NoBlankInMark(|lead|);
      assert (lead + rest)[..4][|lead|] == rest[0];
    }
  }

  lemma {:induction false} LeadIsSkipped(lead: string, rest: string, afterWord: bool, isWord: Markdown.WordClass,
      ref: string)
    requires NoMark(lead) && if rest == "" then ref == "" else |rest| >= 5 && rest[0] == ' '
    requires forall aw: bool :: Markdown.NoteRefFrom(rest, aw, isWord) == ref
    ensures Markdown.NoteRefFrom(lead + rest, afterWord, isWord) == ref
    decreases |lead|
  {
    if lead == "" {
      assert lead + rest == rest;
    } else if |lead + rest| >= 5 {
      NoMarkHere(lead, rest);
      NotAMark(lead + rest, afterWord, isWord);
      assert (lead + rest)[1..] == lead[1..] + rest;
      LeadIsSkipped(lead[1..], rest, isWord(lead[0]), isWord, ref);
    }
  }

  /** The parser finds in the printed summary exactly the first reference of the structured one. */
  lemma PrintedRef(t: Text, isWord: Markdown.WordClass)
    requires Tidy(t, isWord) && !isWord(' ')
    ensures Markdown.NoteRefFrom(PrintText(t), false, isWord) == if FirstRef(t).Some? then FirstRef(t).value else ""
  {
    var r := FromFirstRef(t);
    PrintSplits(t);
    if r == [] {
      LeadIsSkipped(Lead(t), "", false, isWord, "");
    } else {
      var n, after := r[0].name, PrintText(r[1..]);
      forall aw: bool
        ensures Markdown.NoteRefFrom(PrintText(r), aw, isWord) == n
      {
        RefIsRead(n, after, aw, isWord);
      }
      LeadIsSkipped(Lead(t), PrintText(r), false, isWord, n);
    }
  }

  /** A rendered row's summary is tidy if its plain text has no mark and its reference is a name. */
  lemma RenderedIsTidy(r: Row, isWord: Markdown.WordClass)
    requires NoMark(Lead(Rendered(r).summary)) && (RowRef(r).Some? ==> IsName(RowRef(r).value))
    ensures Tidy(Rendered(r).summary, isWord)
  {
    var t := if r.compressed then r.minimal else r.body;
    RenderedRefs(r);
    if RowRef(r).Some? {
      StripRefsIsPlain(t);
      PlainThenRef(StripRefs(t), RowRef(r).value);
    } else {
      PrintSplits(Rendered(r).summary);
    }
  }

  lemma {:induction false} PlainThenRef(t: Text, n: string)
    requires FirstRef(t).None?
    ensures FromFirstRef(t + [NoteRef(n)]) == [NoteRef(n)]
  {
    if t == [] {
      assert t + [NoteRef(n)] == [NoteRef(n)];
    } else {
      assert (t + [NoteRef(n)])[1..] == t[1..] + [NoteRef(n)];
      PlainThenRef(t[1..], n);
    }
  }

  lemma {:induction false} PrintedIsReferenced(doc: seq<Entry>, isWord: Markdown.WordClass)
    requires !isWord(' ') && forall i :: 0 <= i < |doc| ==> Tidy(doc[i].summary, isWord)
    ensures Markdown.ReferencedAll(PrintedDocument(doc), isWord) == PrintedDocument(doc)
  {
    if doc != [] {
      assert forall i :: 0 <= i < |doc[1..]| ==> doc[1..][i] == doc[i + 1];
      PrintedIsReferenced(doc[1..], isWord);
      PrintedRef(doc[0].summary, isWord);
      assert PrintedDocument(doc)[1..] == PrintedDocument(doc[1..]);
    }
  }

  /** Parsing the printed document gives the structured one back, references included. */
  lemma ParsedDocument(doc: seq<Entry>, isWord: Markdown.WordClass)
    requires Markdown.AllWellFormed(PrintedDocument(doc)) && !isWord(' ')
    requires forall i :: 0 <= i < |doc| ==> Tidy(doc[i].summary, isWord)
    ensures Markdown.Parse(Markdown.PrintAll(PrintedDocument(doc)), isWord) == PrintedDocument(doc)
  {
    var printed := PrintedDocument(doc);
    Markdown.ParseUndoesPrint(printed, Markdown.PrintAll(printed), isWord);
    PrintedIsReferenced(doc, isWord);
  }

  // ---------------------------------------------------------------- the validator of the printed document

  lemma PrintedWithinLimits(doc: seq<Entry>, limits: MemoryValidator.Limits)
    ensures MemoryValidator.DocumentOk(doc, limits)
            <==> |Markdown.PrintAll(PrintedDocument(doc))| <= limits.documentMax
                 && Markdown.WithinLimits(PrintedDocument(doc), limits.summaryMax)
  {
    TotalLengthIsPrinted(doc);
    forall i | 0 <= i < |doc|
      ensures |PrintedDocument(doc)[i].summary| == Length(doc[i].summary) && PrintedDocument(doc)[i].id == doc[i].id
    {
      PrintTextLength(doc[i].summary);
    }
  }

  /** What is asked of a structured document is what the validator of the Markdown document asks of its
      printing. */
  lemma AcceptableIsValid(doc: seq<Entry>, limits: MemoryValidator.Limits, isWord: Markdown.WordClass)
    requires Markdown.AllWellFormed(PrintedDocument(doc))
    ensures MemoryValidator.DocumentOk(doc, limits)
            <==> Markdown.Accepts(Markdown.PrintAll(PrintedDocument(doc)), limits.summaryMax, limits.documentMax,
              isWord)
  {
    var es := PrintedDocument(doc);
    var text := Markdown.PrintAll(es);
    PrintedWithinLimits(doc, limits);
    if Markdown.WithinLimits(es, limits.summaryMax) && |text| <= limits.documentMax {
      Markdown.PrintingIsAccepted(text, es, limits.summaryMax, limits.documentMax, isWord);
    }
    if Markdown.Accepts(text, limits.summaryMax, limits.documentMax, isWord) {
      Markdown.ParseUndoesPrint(es, text, isWord);
      Markdown.ReferencedAllSame(es, isWord);
      WithinLimitsReferenced(es, limits.summaryMax, isWord);
    }
  }

  lemma WithinLimitsReferenced(es: seq<Markdown.Entry>, summaryMax: int, isWord: Markdown.WordClass)
    requires Markdown.WithinLimits(Markdown.ReferencedAll(es, isWord), summaryMax)
    ensures Markdown.WithinLimits(es, summaryMax)
  {
    var referenced := Markdown.ReferencedAll(es, isWord);
    Markdown.ReferencedAllSame(es, isWord);
    forall i | 0 <= i < |es|
      ensures |es[i].summary| <= summaryMax && es[i].id == referenced[i].id
    {
      assert referenced[i] == Markdown.Referenced(es[i], isWord);
    }
  }
}
