/** The Markdown memory document: printer, parser and validator. */
module MarkdownMemory {
  import opened Sequences

  datatype Entry = Entry(id: string, date: string, source: string, summary: string, noteRef: string)

  /** Which characters count as word characters at a word boundary. */
  type WordClass = char -> bool

  const COLON: char := '\U{FF1A}'

  // ---------------------------------------------------------------- characters

  /** The characters that str.strip removes. */
  predicate IsSpace(c: char) {
    var n := c as int;
    9 <= n <= 13 || 28 <= n <= 32 || n == 0x85 || n == 0xA0 || n == 0x1680 || 0x2000 <= n <= 0x200A
    || n == 0x2028 || n == 0x2029 || n == 0x202F || n == 0x205F || n == 0x3000
  }

  function StripLeft(s: string): string {
    if s != "" && IsSpace(s[0]) then StripLeft(s[1..]) else s
  }

  function StripRight(s: string): string {
    if s != "" && IsSpace(s[|s| - 1]) then StripRight(s[..|s| - 1]) else s
  }

  function Strip(s: string): string {
    StripRight(StripLeft(s))
  }

  predicate IsDigit(c: char) {
    '0' <= c <= '9'
  }

  predicate IsAlnum(c: char) {
    IsDigit(c) || 'a' <= c <= 'z' || 'A' <= c <= 'Z'
  }

  predicate ValidId(id: string) {
    |id| == 6 && forall i :: 0 <= i < 6 ==> IsAlnum(id[i])
  }

  predicate Digits(s: string) {
    forall i :: 0 <= i < |s| ==> IsDigit(s[i])
  }

  /** One or two digits, a slash, one or two digits. */
  predicate IsMonthDay(s: string) {
    (3 <= |s| <= 4 && Digits(s[..1]) && s[1] == '/' && Digits(s[2..])) ||
    (4 <= |s| <= 5 && Digits(s[..2]) && s[2] == '/' && Digits(s[3..]))
  }

  predicate IsDate(s: string) {
    |s| >= 8 && Digits(s[..4]) && s[4] == '/' && IsMonthDay(s[5..])
  }

  predicate IsSource(s: string) {
    s == "self" || s == "user"
  }

  // ---------------------------------------------------------------- printing

  datatype Outcome<+T> = Ok(value: T) | Invalid(reason: string)

  function HeadText(id: string, date: string, source: string): string {
    "---\nid:" + id + "\n" + date + "-" + source + [COLON] + "\n"
  }

  predicate OneLine(s: string) {
    s != "" && '\n' !in s && '\r' !in s
  }

  /** The printer: checks the stripped fields, then prints them. */
  function FormatEntry(e: Entry): Outcome<string> {
    var id, date, source, summary := Strip(e.id), Strip(e.date), Strip(e.source), Strip(e.summary);
    if !ValidId(id) then Invalid("memory id must be exactly 6 alphanumeric characters")
    else if !(IsDate(date) && IsSource(source)) then Invalid("memory entry header must be YYYY/M/D-source")
    else if !OneLine(summary) then Invalid("memory summary must be one non-empty line")
    else Ok(HeadText(id, date, source) + summary + "\n")
  }

  /** An entry in the form the parser produces and the printer accepts. */
  predicate WellFormed(e: Entry) {
    ValidId(e.id) && IsDate(e.date) && IsSource(e.source) && OneLine(e.summary) && Strip(e.summary) == e.summary
  }

  function Print(e: Entry): string {
    HeadText(e.id, e.date, e.source) + e.summary + "\n"
  }

  function PrintAll(es: seq<Entry>): string {
    if es == [] then "" else Print(es[0]) + PrintAll(es[1..])
  }

  // ---------------------------------------------------------------- parsing

  datatype Head = NoHead | Head(id: string, date: string, source: string, length: nat)

  /** A header line at the start of `s`: a date of `n` characters, a dash, a source and the colon. */
  predicate HeaderAt(s: string, n: nat) {
    n < |s| && s[n] == '-' && IsDate(s[..n]) && n + 7 <= |s| && IsSource(s[n + 1..n + 5]) && s[n + 5] == COLON
      && s[n + 6] == '\n'
  }

  /** The head of an entry at the start of `s`. */
  function HeadAt(s: string): (h: Head)
    ensures h.Head? ==> 14 < h.length <= |s|
  {
    if |s| < 14 || s[..7] != "---\nid:" || !ValidId(s[7..13]) || s[13] != '\n' then NoHead
    else
      var t := s[14..];
      var n := if HeaderAt(t, 8) then 8 else if HeaderAt(t, 9) then 9 else 10;
      if HeaderAt(t, n) then Head(s[7..13], t[..n], t[n + 1..n + 5], 14 + n + 7) else NoHead
  }

  predicate NextBlockAt(s: string) {
    |s| >= 5 && s[..5] == "\n---\n"
  }

  /** Where the body that starts `s` ends: before the next block marker, or at the end of the text. */
  function BodyEnd(s: string): (e: nat)
    ensures e <= |s|
  {
    if s == "" || NextBlockAt(s) then 0 else 1 + BodyEnd(s[1..])
  }

  /** Offset of the entry head that matches at the start of `s`: at once at the start of the text,
      after a line feed anywhere. */
  function MatchOffset(s: string, atStart: bool): Option<nat> {
    if atStart && HeadAt(s).Head? then Some(0)
    else if s != "" && s[0] == '\n' && HeadAt(s[1..]).Head? then Some(1)
    else None
  }

  /** One step of the scan: the entry matched at the start of `s`, if any, and the text after it. */
  function ScanStep(s: string, atStart: bool, isWord: WordClass): (r: (seq<Entry>, string))
    requires s != ""
    ensures |r.1| < |s|
  {
    match MatchOffset(s, atStart)
    case None => ([], s[1..])
    case Some(offset) =>
      var h := HeadAt(s[offset..]);
      var rest := s[offset + h.length..];
      var e := BodyEnd(rest);
      (ParsedEntry(h, rest[..e], isWord), rest[e..])
  }

  /** The entries of `s`, scanning for non-overlapping matches from the left. */
  function ParseBlocks(s: string, atStart: bool, isWord: WordClass): seq<Entry>
    decreases |s|
  {
    if s == "" then []
    else
      var (found, rest) := ScanStep(s, atStart, isWord);
      found + ParseBlocks(rest, false, isWord)
  }

  function ParsedEntry(h: Head, body: string, isWord: WordClass): seq<Entry>
    requires h.Head?
  {
    var summary := Strip(body);
    if summary == "" then [] else [Entry(h.id, h.date, h.source, summary, NoteRefFrom(summary, false, isWord))]
  }

  function Parse(text: string, isWord: WordClass): seq<Entry> {
    ParseBlocks(Strip(text), true, isWord)
  }

  function RefRun(s: string): (n: nat)
    ensures n <= |s|
  {
    if s != "" && (IsDigit(s[0]) || 'a' <= s[0] <= 'z' || s[0] == '_') then 1 + RefRun(s[1..]) else 0
  }

  /** The first note reference of `s`, between word boundaries; empty when there is none. */
  function NoteRefFrom(s: string, afterWord: bool, isWord: WordClass): string {
    if |s| < 5 then ""
    else
      var n := RefRun(s[4..]);
      if !afterWord && s[..4] == "ref:" && n > 0 && (4 + n == |s| || !isWord(s[4 + n])) then s[4..4 + n]
      else NoteRefFrom(s[1..], isWord(s[0]), isWord)
  }

  // ---------------------------------------------------------------- validating

  function FormatAll(es: seq<Entry>): Outcome<string> {
    if es == [] then Ok("")
    else
      match FormatEntry(es[0])
      case Invalid(r) => Invalid(r)
      case Ok(t) =>
        match FormatAll(es[1..])
        case Invalid(r) => Invalid(r)
        case Ok(rest) => Ok(t + rest)
  }

  ghost predicate WithinLimits(es: seq<Entry>, summaryMax: int) {
    && (forall i :: 0 <= i < |es| ==> |es[i].summary| <= summaryMax)
    && (forall i, j :: 0 <= i < j < |es| ==> es[i].id != es[j].id)
  }

  ghost predicate AllWellFormed(es: seq<Entry>) {
    forall i :: 0 <= i < |es| ==> WellFormed(es[i])
  }

  // ---------------------------------------------------------------- the loops of the program

  /** The parser's loop over the matches in the stripped text. */
  method ParseMemoryDocument(text: string, isWord: WordClass) returns (entries: seq<Entry>)
    ensures entries == Parse(text, isWord)
  {
    var rest, atStart := Strip(text), true;
    entries := [];
    while rest != ""
      invariant entries + ParseBlocks(rest, atStart, isWord) == Parse(text, isWord)
      decreases |rest|
    {
      ScanAppend(entries, rest, atStart, isWord);
      var (found, tail) := ScanStep(rest, atStart, isWord);
      entries, rest, atStart := entries + found, tail, false;
    }
  }

  lemma ScanAppend(entries: seq<Entry>, s: string, atStart: bool, isWord: WordClass)
    requires s != ""
    ensures var (found, tail) := ScanStep(s, atStart, isWord);
            entries + ParseBlocks(s, atStart, isWord) == entries + found + ParseBlocks(tail, false, isWord)
  {
    var step := ScanStep(s, atStart, isWord);
    var later := ParseBlocks(step.1, false, isWord);
    assert ParseBlocks(s, atStart, isWord) == step.0 + later;
    assert entries + (step.0 + later) == entries + step.0 + later;
  }

  method ValidateMemoryDocument(text: string, summaryMax: int, documentMax: int, isWord: WordClass)
    returns (result: Outcome<()>)
    ensures result.Ok? <==> |text| <= documentMax && exists es :: PrintingOf(text, es, summaryMax)
  {
    AcceptsExactlyPrintings(text, summaryMax, documentMax, isWord);
    if |text| > documentMax {
      return Invalid("memory document too long");
    }
    var parsed := ParseMemoryDocument(text, isWord);
    if Strip(text) != "" && parsed == [] {
      return Invalid("memory document contains invalid blocks");
    }
    var printed := FormatAll(parsed);
    if printed.Invalid? {
      return Invalid(printed.reason);
    }
    if Strip(text) != Strip(printed.value) {
      return Invalid("memory document contains invalid blocks");
    }
    ParsedEntriesOk(Strip(text), true, isWord);
    result := CheckEntries(parsed, summaryMax);
  }

  /** The loop over the parsed entries, with its set of ids seen so far. */
  method CheckEntries(parsed: seq<Entry>, summaryMax: int) returns (result: Outcome<()>)
    requires forall i :: 0 <= i < |parsed| ==> Strip(parsed[i].summary) == parsed[i].summary
    ensures result.Ok? <==> WithinLimits(parsed, summaryMax)
  {
    var seen: set<string> := {};
    for i := 0 to |parsed|
      invariant forall k :: 0 <= k < i ==> |parsed[k].summary| <= summaryMax
      invariant forall k, j :: 0 <= k < j < i ==> parsed[k].id != parsed[j].id
      invariant seen == set j | 0 <= j < i :: parsed[j].id
    {
      if |Strip(parsed[i].summary)| > summaryMax {
        return Invalid("summary line too long");
      }
      if parsed[i].id in seen {
        return Invalid("duplicate memory id");
      }
      seen := seen + {parsed[i].id};
    }
    return Ok(());
  }

  /** What holds of every parsed entry. */
  ghost predicate EntryOk(e: Entry, isWord: WordClass) {
    && ValidId(e.id) && IsDate(e.date) && IsSource(e.source)
    && e.summary != "" && Strip(e.summary) == e.summary && e.noteRef == NoteRefFrom(e.summary, false, isWord)
  }

  ghost predicate EntriesOk(es: seq<Entry>, isWord: WordClass) {
    forall i :: 0 <= i < |es| ==> EntryOk(es[i], isWord)
  }

  // ---------------------------------------------------------------- stripping

  predicate Trimmed(s: string) {
    s == "" || (!IsSpace(s[0]) && !IsSpace(s[|s| - 1]))
  }

  lemma {:induction false} StripLeftTrims(s: string)
    ensures var t := StripLeft(s);
            t == "" || (!IsSpace(t[0]) && t[|t| - 1] == s[|s| - 1] && |t| <= |s|)
  {
    if s != "" && IsSpace(s[0]) {
      StripLeftTrims(s[1..]);
    }
  }

  lemma {:induction false} StripRightTrims(s: string)
    ensures var t := StripRight(s);
            t <= s && (t == "" || !IsSpace(t[|t| - 1]))
  {
    if s != "" && IsSpace(s[|s| - 1]) {
      StripRightTrims(s[..|s| - 1]);
    }
  }

  lemma StripTrims(s: string)
    ensures Trimmed(Strip(s))
  {
    StripLeftTrims(s);
    StripRightTrims(StripLeft(s));
  }

  lemma StripOfTrimmed(s: string)
    requires Trimmed(s)
    ensures Strip(s) == s
  {
  }

  /** Stripping removes a final line feed after a trimmed text and nothing else. */
  lemma StripLineFeed(s: string)
    requires Trimmed(s) && s != ""
    ensures Strip(s + "\n") == s
  {
    var t := s + "\n";
    assert StripLeft(t) == t;
    assert t[..|t| - 1] == s;
    assert IsSpace('\n');
    assert StripRight(t) == StripRight(s);
  }

  lemma ScanStepOk(s: string, atStart: bool, isWord: WordClass)
    requires s != ""
    ensures EntriesOk(ScanStep(s, atStart, isWord).0, isWord)
  {
    match MatchOffset(s, atStart)
    case None =>
    case Some(offset) =>
      var h := HeadAt(s[offset..]);
      var rest := s[offset + h.length..];
      StripTrims(rest[..BodyEnd(rest)]);
      StripOfTrimmed(Strip(rest[..BodyEnd(rest)]));
  }

  lemma {:induction false} ParsedEntriesOk(s: string, atStart: bool, isWord: WordClass)
    ensures EntriesOk(ParseBlocks(s, atStart, isWord), isWord)
    decreases |s|
  {
    if s != "" {
      var step := ScanStep(s, atStart, isWord);
      ScanStepOk(s, atStart, isWord);
      ParsedEntriesOk(step.1, false, isWord);
    }
  }

  // ---------------------------------------------------------------- parser and printer

  /** The text of an entry without its final line feed, and of a list of entries after another one. */
  function Block(e: Entry): string {
    HeadText(e.id, e.date, e.source) + e.summary
  }

  function TailText(es: seq<Entry>): string {
    if es == [] then "" else "\n" + Block(es[0]) + TailText(es[1..])
  }

  function Referenced(e: Entry, isWord: WordClass): Entry {
    e.(noteRef := NoteRefFrom(e.summary, false, isWord))
  }

  function ReferencedAll(es: seq<Entry>, isWord: WordClass): seq<Entry> {
    if es == [] then [] else [Referenced(es[0], isWord)] + ReferencedAll(es[1..], isWord)
  }

  lemma {:induction false} PrintAllIsBlocks(es: seq<Entry>)
    ensures "\n" + PrintAll(es) == TailText(es) + "\n"
  {
    if es != [] {
      PrintAllIsBlocks(es[1..]);
      assert "\n" + (Block(es[0]) + "\n" + PrintAll(es[1..])) == "\n" + Block(es[0]) + ("\n" + PrintAll(es[1..]));
    }
  }

  /** A date holds no dash, so the header's first dash ends it. */
  lemma DateHasNoDash(date: string)
    requires IsDate(date)
    ensures 8 <= |date| <= 10 && forall i :: 0 <= i < |date| ==> date[i] != '-'
  {
    var rest := date[5..];
    assert forall i :: 0 <= i < 4 ==> date[i] == date[..4][i];
    forall i | 5 <= i < |date|
      ensures date[i] != '-'
    {
      assert date[i] == rest[i - 5];
      if 3 <= |rest| <= 4 && Digits(rest[..1]) && rest[1] == '/' && Digits(rest[2..]) {
        assert i == 5 ==> rest[0] == rest[..1][0];
        assert i >= 7 ==> rest[i - 5] == rest[2..][i - 7];
      } else {
        assert i <= 6 ==> rest[i - 5] == rest[..2][i - 5];
        assert i >= 8 ==> rest[i - 5] == rest[3..][i - 8];
      }
    }
  }

  lemma HeaderReads(date: string, source: string, more: string)
    requires IsDate(date) && IsSource(source)
    ensures var t := date + "-" + source + [COLON] + "\n" + more;
            HeaderAt(t, |date|) && forall n :: 0 <= n < |date| ==> !HeaderAt(t, n)
  {
    DateHasNoDash(date);
    var t := date + "-" + source + [COLON] + "\n" + more;
    var n := |date|;
    assert t[..n] == date && t[n] == '-' && t[n + 1..n + 5] == source;
    assert t[n + 5] == COLON && t[n + 6] == '\n';
    assert forall k :: 0 <= k < n ==> t[k] == date[k];
  }

  /** A header line whose dash is the first of the text is where the date ends. */
  lemma HeadFromHeader(s: string, n: nat)
    requires |s| >= 14 && s[..7] == "---\nid:" && ValidId(s[7..13]) && s[13] == '\n'
    requires 8 <= n <= 10 && HeaderAt(s[14..], n) && forall k :: 0 <= k < n ==> !HeaderAt(s[14..], k)
    ensures HeadAt(s) == Head(s[7..13], s[14..][..n], s[14..][n + 1..n + 5], 14 + n + 7)
  {
  }

  lemma HeadParts(id: string, header: string)
    requires |id| == 6
    ensures var s := "---\nid:" + id + "\n" + header;
            |s| >= 14 && s[..7] == "---\nid:" && s[7..13] == id && s[13] == '\n' && s[14..] == header
  {
  }

  lemma HeaderParts(date: string, source: string, more: string)
    requires |source| == 4
    ensures var header := date + "-" + source + [COLON] + "\n" + more;
            |header| >= |date| + 7 && header[..|date|] == date && header[|date| + 1..|date| + 5] == source
  {
  }

  lemma HeadThenHeader(id: string, date: string, source: string, more: string)
    ensures HeadText(id, date, source) + more
            == "---\nid:" + id + "\n" + (date + "-" + source + [COLON] + "\n" + more)
  {
  }

  lemma HeadReads(id: string, date: string, source: string, more: string)
    requires ValidId(id) && IsDate(date) && IsSource(source)
    ensures HeadAt(HeadText(id, date, source) + more) == Head(id, date, source, |HeadText(id, date, source)|)
  {
    HeaderReads(date, source, more);
    HeadParts(id, date + "-" + source + [COLON] + "\n" + more);
    HeadThenHeader(id, date, source, more);
    HeaderParts(date, source, more);
    HeadFromHeader(HeadText(id, date, source) + more, |date|);
  }

  lemma {:induction false} BodyEndsAtBlock(summary: string, tail: string)
    requires '\n' !in summary && (tail == "" || NextBlockAt(tail))
    ensures BodyEnd(summary + tail) == |summary|
  {
    var s := summary + tail;
    if summary == "" {
      assert s == tail;
    } else {
      assert s[0] == summary[0] && summary[0] in summary;
      assert !NextBlockAt(s);
      assert s[1..] == summary[1..] + tail;
      BodyEndsAtBlock(summary[1..], tail);
    }
  }

  lemma TailStartsBlock(es: seq<Entry>)
    ensures TailText(es) == "" || NextBlockAt(TailText(es))
  {
    if es != [] {
      var t := TailText(es);
      assert t == "\n" + ("---\nid:" + es[0].id + "\n" + es[0].date + "-" + es[0].source + [COLON] + "\n")
                  + es[0].summary + TailText(es[1..]);
      assert t[..5] == "\n---\n";
    }
  }

  lemma BehindPrefix(prefix: string, e: Entry, tail: string)
    ensures (prefix + Block(e) + tail)[|prefix|..] == HeadText(e.id, e.date, e.source) + (e.summary + tail)
  {
  }

  lemma BlockScans(prefix: string, e: Entry, rest: seq<Entry>, isWord: WordClass)
    requires WellFormed(e) && (prefix == "" || prefix == "\n")
    ensures ScanStep(prefix + Block(e) + TailText(rest), prefix == "", isWord)
            == ([Referenced(e, isWord)], TailText(rest))
  {
    var tail, head := TailText(rest), HeadText(e.id, e.date, e.source);
    var s := prefix + Block(e) + tail;
    var body := e.summary + tail;
    BehindPrefix(prefix, e, tail);
    HeadReads(e.id, e.date, e.source, body);
    TailStartsBlock(rest);
    BodyEndsAtBlock(e.summary, tail);
    HeadThenBody(s, |prefix|, prefix == "", Head(e.id, e.date, e.source, |head|), body, e.summary, tail, isWord);
  }

  lemma HeadThenBody(s: string, offset: nat, atStart: bool, h: Head, body: string, summary: string, tail: string,
      isWord: WordClass)
    requires offset <= |s| && h.Head? && HeadAt(s[offset..]) == h
    requires (offset == 0 && atStart) || (offset == 1 && !atStart && s[0] == '\n')
    requires s[offset..][h.length..] == body == summary + tail && BodyEnd(body) == |summary|
    requires Strip(summary) == summary && summary != ""
    ensures ScanStep(s, atStart, isWord)
            == ([Entry(h.id, h.date, h.source, summary, NoteRefFrom(summary, false, isWord))], tail)
  {
    assert s[offset + h.length..] == body;
    assert body[..|summary|] == summary && body[|summary|..] == tail;
  }

  lemma {:induction false} TailParses(es: seq<Entry>, isWord: WordClass)
    requires AllWellFormed(es)
    ensures ParseBlocks(TailText(es), false, isWord) == ReferencedAll(es, isWord)
  {
    if es != [] {
      BlockScans("\n", es[0], es[1..], isWord);
      assert TailText(es) == "\n" + Block(es[0]) + TailText(es[1..]);
      TailParses(es[1..], isWord);
    }
  }

  lemma {:induction false} TailEndsTight(es: seq<Entry>)
    requires AllWellFormed(es) && es != []
    ensures !IsSpace(TailText(es)[|TailText(es)| - 1])
  {
    var t := TailText(es);
    if |es| == 1 {
      assert t == "\n" + HeadText(es[0].id, es[0].date, es[0].source) + es[0].summary;
      StripTrims(es[0].summary);
      assert t[|t| - 1] == es[0].summary[|es[0].summary| - 1];
    } else {
      TailEndsTight(es[1..]);
      assert t[|t| - 1] == TailText(es[1..])[|TailText(es[1..])| - 1];
    }
  }

  lemma {:induction false} PrintedBlocks(es: seq<Entry>)
    requires es != []
    ensures PrintAll(es) == Block(es[0]) + TailText(es[1..]) + "\n"
  {
    PrintAllIsBlocks(es[1..]);
    assert PrintAll(es) == Block(es[0]) + ("\n" + PrintAll(es[1..]));
  }

  lemma BlockBegins(e: Entry)
    ensures Block(e) != "" && Block(e)[0] == '-'
  {
  }

  lemma LastOfRest(first: char, rest: string)
    requires rest != ""
    ensures ([first] + rest)[|[first] + rest| - 1] == rest[|rest| - 1]
  {
  }

  lemma TailIsDocument(es: seq<Entry>)
    requires es != []
    ensures TailText(es) == ['\n'] + (Block(es[0]) + TailText(es[1..]))
  {
  }

  lemma DocumentIsTrimmed(es: seq<Entry>)
    requires AllWellFormed(es) && es != []
    ensures Trimmed(Block(es[0]) + TailText(es[1..]))
  {
    BlockBegins(es[0]);
    TailEndsTight(es);
    TailIsDocument(es);
    LastOfRest('\n', Block(es[0]) + TailText(es[1..]));
  }

  /** The printed document, stripped, is the blocks joined by line feeds. */
  lemma StrippedPrint(es: seq<Entry>)
    requires AllWellFormed(es) && es != []
    ensures Strip(PrintAll(es)) == Block(es[0]) + TailText(es[1..])
  {
    PrintedBlocks(es);
    DocumentIsTrimmed(es);
    StripLineFeed(Block(es[0]) + TailText(es[1..]));
  }

  /** Round trip. Parsing the printing of any list of well-formed entries, with any text around it
      that stripping removes, gives the entries back in order; only the note reference is recomputed
      from the summary. */
  lemma ParseUndoesPrint(es: seq<Entry>, text: string, isWord: WordClass)
    requires AllWellFormed(es) && Strip(text) == Strip(PrintAll(es))
    ensures Parse(text, isWord) == ReferencedAll(es, isWord)
  {
    if es != [] {
      StrippedPrint(es);
      assert "" + Block(es[0]) == Block(es[0]);
      BlockScans("", es[0], es[1..], isWord);
      TailParses(es[1..], isWord);
    }
  }

  // ---------------------------------------------------------------- what the validator accepts

  lemma FormatWellFormed(e: Entry)
    requires WellFormed(e)
    ensures FormatEntry(e) == Ok(Print(e))
  {
    DateHasNoDash(e.date);
    StripOfTrimmed(e.id);
    assert IsDigit(e.date[0]) && !IsSpace(e.date[0]) by {
      assert e.date[..4][0] == e.date[0];
    }
    assert IsDigit(e.date[|e.date| - 1]) by {
      DateEndsInDigit(e.date);
    }
    StripOfTrimmed(e.date);
    StripOfTrimmed(e.source);
  }

  lemma DateEndsInDigit(date: string)
    requires IsDate(date)
    ensures IsDigit(date[|date| - 1])
  {
    var rest := date[5..];
    var k := |rest| - 1;
    assert date[|date| - 1] == rest[k];
    if 3 <= |rest| <= 4 && Digits(rest[..1]) && rest[1] == '/' && Digits(rest[2..]) {
      assert rest[k] == rest[2..][k - 2];
    } else {
      assert rest[k] == rest[3..][k - 3];
    }
  }

  lemma {:induction false} FormatsAll(es: seq<Entry>)
    requires AllWellFormed(es)
    ensures FormatAll(es) == Ok(PrintAll(es))
  {
    if es != [] {
      FormatWellFormed(es[0]);
      FormatsAll(es[1..]);
    }
  }

  lemma {:induction false} FormattedAreWellFormed(es: seq<Entry>, isWord: WordClass)
    requires EntriesOk(es, isWord) && FormatAll(es).Ok?
    ensures AllWellFormed(es)
  {
    if es != [] {
      assert EntryOk(es[0], isWord);
      assert FormatEntry(es[0]).Ok? && OneLine(es[0].summary);
      FormattedAreWellFormed(es[1..], isWord);
      assert forall i :: 1 <= i < |es| ==> es[i] == es[1..][i - 1];
    }
  }

  lemma {:induction false} ReferencedAllSame(es: seq<Entry>, isWord: WordClass)
    ensures |ReferencedAll(es, isWord)| == |es|
    ensures forall i :: 0 <= i < |es| ==> ReferencedAll(es, isWord)[i] == Referenced(es[i], isWord)
  {
    if es != [] {
      ReferencedAllSame(es[1..], isWord);
    }
  }

  lemma {:induction false} PrintIgnoresRefs(es: seq<Entry>, isWord: WordClass)
    ensures PrintAll(ReferencedAll(es, isWord)) == PrintAll(es)
  {
    if es != [] {
      assert ReferencedAll(es, isWord)[1..] == ReferencedAll(es[1..], isWord);
      PrintIgnoresRefs(es[1..], isWord);
    }
  }

  /** `text` is, up to outer whitespace, the printing of `es`, a list of well-formed entries with
      distinct ids within the limits. */
  ghost predicate PrintingOf(text: string, es: seq<Entry>, summaryMax: int) {
    AllWellFormed(es) && WithinLimits(es, summaryMax) && Strip(text) == Strip(PrintAll(es))
  }

  /** What ValidateMemoryDocument accepts. */
  ghost predicate Accepts(text: string, summaryMax: int, documentMax: int, isWord: WordClass) {
    var parsed := Parse(text, isWord);
    && |text| <= documentMax
    && (Strip(text) != "" ==> parsed != [])
    && FormatAll(parsed).Ok? && Strip(text) == Strip(FormatAll(parsed).value)
    && WithinLimits(parsed, summaryMax)
  }

  lemma AcceptedIsPrinting(text: string, summaryMax: int, documentMax: int, isWord: WordClass)
    requires Accepts(text, summaryMax, documentMax, isWord)
    ensures PrintingOf(text, Parse(text, isWord), summaryMax)
  {
    var parsed := Parse(text, isWord);
    ParsedEntriesOk(Strip(text), true, isWord);
    FormattedAreWellFormed(parsed, isWord);
    FormatsAll(parsed);
  }

  lemma PrintingIsAccepted(text: string, es: seq<Entry>, summaryMax: int, documentMax: int, isWord: WordClass)
    requires PrintingOf(text, es, summaryMax) && |text| <= documentMax
    ensures Accepts(text, summaryMax, documentMax, isWord)
  {
    var parsed := Parse(text, isWord);
    ParseUndoesPrint(es, text, isWord);
    ReferencedAllSame(es, isWord);
    PrintIgnoresRefs(es, isWord);
    assert AllWellFormed(parsed) && WithinLimits(parsed, summaryMax);
    FormatsAll(parsed);
    assert es == [] ==> Strip(text) == "";
  }

  /** The validator defines the canonical form: it accepts exactly the printings, up to outer
      whitespace, of lists of well-formed entries with distinct ids within the limits. */
  lemma AcceptsExactlyPrintings(text: string, summaryMax: int, documentMax: int, isWord: WordClass)
    ensures Accepts(text, summaryMax, documentMax, isWord)
            <==> |text| <= documentMax && exists es :: PrintingOf(text, es, summaryMax)
  {
    if Accepts(text, summaryMax, documentMax, isWord) {
      AcceptedIsPrinting(text, summaryMax, documentMax, isWord);
    }
    if es :| PrintingOf(text, es, summaryMax) && |text| <= documentMax {
      PrintingIsAccepted(text, es, summaryMax, documentMax, isWord);
    }
  }
}
