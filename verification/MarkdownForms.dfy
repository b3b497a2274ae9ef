/** What the printer accepts and what the parser looks for, as texts put together from their parts. */
module MarkdownForms {
  import opened Sequences
  import opened MarkdownMemory

  // ---------------------------------------------------------------- characters

  const WHITE_SPACE: set<int> := {9, 10, 11, 12, 13, 28, 29, 30, 31, 32, 133, 160, 5760, 8192, 8193, 8194, 8195, 8196,
                                  8197, 8198, 8199, 8200, 8201, 8202, 8232, 8233, 8239, 8287, 12288}

  const DIGITS: string := "0123456789"
  const LOWER: string := "abcdefghijklmnopqrstuvwxyz"
  const UPPER: string := "ABCDEFGHIJKLMNOPQRSTUVWXYZ"

  lemma WhiteSpaceIsListed(c: char)
    ensures IsSpace(c) <==> c as int in WHITE_SPACE
  {
  }

  lemma {:induction false} RunOfChars(s: string, first: char, c: char)
    requires forall i :: 0 <= i < |s| ==> s[i] as int == first as int + i
    ensures c in s <==> first as int <= c as int < first as int + |s|
  {
    if first as int <= c as int < first as int + |s| {
      assert s[c as int - first as int] == c;
    }
  }

  lemma DigitIsListed(c: char)
    ensures IsDigit(c) <==> c in DIGITS
  {
    RunOfChars(DIGITS, '0', c);
  }

  lemma LowerIsListed(c: char)
    ensures 'a' <= c <= 'z' <==> c in LOWER
  {
    RunOfChars(LOWER, 'a', c);
  }

  lemma UpperIsListed(c: char)
    ensures 'A' <= c <= 'Z' <==> c in UPPER
  {
    RunOfChars(UPPER, 'A', c);
  }

  lemma CharsAreListed(c: char)
    ensures IsDigit(c) <==> c in DIGITS
    ensures IsAlnum(c) <==> c in DIGITS || c in LOWER || c in UPPER
  {
    DigitIsListed(c);
    LowerIsListed(c);
    UpperIsListed(c);
  }

  ghost predicate AllIn(s: string, chars: string) {
    forall i :: 0 <= i < |s| ==> s[i] in chars
  }

  lemma DigitsAreListed(s: string)
    ensures Digits(s) <==> AllIn(s, DIGITS)
  {
    forall i | 0 <= i < |s|
      ensures IsDigit(s[i]) <==> s[i] in DIGITS
    {
      CharsAreListed(s[i]);
    }
  }

  lemma IdForm(id: string)
    ensures ValidId(id) <==> |id| == 6 && AllIn(id, DIGITS + LOWER + UPPER)
  {
    forall i | 0 <= i < |id|
      ensures IsAlnum(id[i]) <==> id[i] in DIGITS + LOWER + UPPER
    {
      CharsAreListed(id[i]);
    }
  }

  // ---------------------------------------------------------------- dates and entries

  ghost predicate Number(s: string, least: nat, most: nat) {
    least <= |s| <= most && AllIn(s, DIGITS)
  }

  lemma MonthDayForm(s: string)
    ensures IsMonthDay(s) <==> exists m, d :: s == m + "/" + d && Number(m, 1, 2) && Number(d, 1, 2)
  {
    if |s| >= 2 {
      DigitsAreListed(s[..1]);
      DigitsAreListed(s[2..]);
    }
    if |s| >= 3 {
      DigitsAreListed(s[..2]);
      DigitsAreListed(s[3..]);
    }
    if IsMonthDay(s) {
      var k := if 3 <= |s| <= 4 && Digits(s[..1]) && s[1] == '/' && Digits(s[2..]) then 1 else 2;
      assert s == s[..k] + "/" + s[k + 1..];
      assert Number(s[..k], 1, 2) && Number(s[k + 1..], 1, 2);
    }
    if m, d :| s == m + "/" + d && Number(m, 1, 2) && Number(d, 1, 2) {
      assert s[..|m|] == m && s[|m|] == '/' && s[|m| + 1..] == d;
    }
  }

  /** Four digits, one or two for the month and one or two for the day. */
  ghost predicate DateParts(date: string, y: string, m: string, d: string) {
    date == y + "/" + m + "/" + d && Number(y, 4, 4) && Number(m, 1, 2) && Number(d, 1, 2)
  }

  lemma PartsOfDate(date: string, y: string, rest: string)
    requires |y| == 4 && date == y + "/" + rest
    ensures date[..4] == y && date[4] == '/' && date[5..] == rest
  {
  }

  lemma DateSplits(date: string)
    requires |date| >= 5 && date[4] == '/'
    ensures date == date[..4] + "/" + date[5..]
  {
  }

  lemma JoinedDate(y: string, m: string, d: string)
    ensures y + "/" + (m + "/" + d) == y + "/" + m + "/" + d
  {
  }

  lemma DateHasParts(date: string)
    requires IsDate(date)
    ensures exists y, m, d :: DateParts(date, y, m, d)
  {
    DigitsAreListed(date[..4]);
    MonthDayForm(date[5..]);
    var m, d :| date[5..] == m + "/" + d && Number(m, 1, 2) && Number(d, 1, 2);
    DateSplits(date);
    JoinedDate(date[..4], m, d);
    assert DateParts(date, date[..4], m, d);
  }

  lemma PartsMakeADate(date: string, y: string, m: string, d: string)
    requires DateParts(date, y, m, d)
    ensures IsDate(date)
  {
    JoinedDate(y, m, d);
    PartsOfDate(date, y, m + "/" + d);
    DigitsAreListed(y);
    MonthDayForm(m + "/" + d);
  }

  lemma DateForm(date: string)
    ensures IsDate(date) <==> exists y, m, d :: DateParts(date, y, m, d)
  {
    if IsDate(date) {
      DateHasParts(date);
    }
    if y, m, d :| DateParts(date, y, m, d) {
      PartsMakeADate(date, y, m, d);
    }
  }

  /** The fields an entry is printed from: six letters or digits, a date, one of two sources, and one line. */
  ghost predicate Printable(id: string, date: string, source: string, summary: string) {
    && |id| == 6 && AllIn(id, DIGITS + LOWER + UPPER)
    && (exists y, m, d :: DateParts(date, y, m, d))
    && source in ["self", "user"]
    && summary != "" && '\n' !in summary && '\r' !in summary
  }

  /** The printer succeeds exactly on printable fields, and its text is the four fields in their places. */
  lemma PrinterForm(e: Entry)
    ensures var id, date, source, summary := Strip(e.id), Strip(e.date), Strip(e.source), Strip(e.summary);
            && (FormatEntry(e).Ok? <==> Printable(id, date, source, summary))
            && (FormatEntry(e).Ok? ==>
                  FormatEntry(e).value
                  == "---\nid:" + id + "\n" + date + "-" + source + "\U{FF1A}" + "\n" + summary + "\n")
  {
    IdForm(Strip(e.id));
    DateForm(Strip(e.date));
  }

  // ---------------------------------------------------------------- what the parser looks for

  /** The text begins with an entry's head, made of these parts. */
  ghost predicate HeadParts(s: string, id: string, date: string, source: string, more: string) {
    && s == "---\nid:" + id + "\n" + date + "-" + source + "\U{FF1A}" + "\n" + more
    && |id| == 6 && AllIn(id, DIGITS + LOWER + UPPER)
    && (exists y, m, d :: DateParts(date, y, m, d)) && source in ["self", "user"]
  }

  /** A text with such parts has a head, with these parts. */
  lemma PartsAreRead(s: string, id: string, date: string, source: string, more: string)
    requires HeadParts(s, id, date, source, more)
    ensures HeadAt(s) == Head(id, date, source, |s| - |more|)
  {
    IdForm(id);
    DateForm(date);
    HeadReads(id, date, source, more);
    assert s == HeadText(id, date, source) + more;
  }

  lemma HeaderSplits(t: string, n: nat)
    requires HeaderAt(t, n)
    ensures t == t[..n] + "-" + t[n + 1..n + 5] + "\U{FF1A}" + "\n" + t[n + 7..]
  {
  }

  lemma HeadSplits(s: string)
    requires |s| >= 14 && s[..7] == "---\nid:" && s[13] == '\n'
    ensures s == "---\nid:" + s[7..13] + "\n" + s[14..]
  {
  }

  lemma JoinedHead(id: string, date: string, source: string, more: string)
    ensures "---\nid:" + id + "\n" + (date + "-" + source + "\U{FF1A}" + "\n" + more)
            == "---\nid:" + id + "\n" + date + "-" + source + "\U{FF1A}" + "\n" + more
  {
  }

  /** The parser finds a head exactly where a text begins with the parts of one. */
  lemma HeadForm(s: string)
    ensures HeadAt(s).Head? <==> exists id, date, source, more :: HeadParts(s, id, date, source, more)
  {
    if HeadAt(s).Head? {
      var h, t := HeadAt(s), s[14..];
      var n := h.length - 21;
      IdForm(h.id);
      DateForm(h.date);
      HeadSplits(s);
      HeaderSplits(t, n);
      JoinedHead(h.id, t[..n], h.source, t[n + 7..]);
      assert HeadParts(s, h.id, h.date, h.source, t[n + 7..]);
    }
    if id, date, source, more :| HeadParts(s, id, date, source, more) {
      PartsAreRead(s, id, date, source, more);
    }
  }

  /** A body ends where the next block begins, at the first such place, or at the end of the text. */
  lemma {:induction false} BodyForm(s: string)
    ensures var e := BodyEnd(s);
            && (e == |s| || "\n---\n" <= s[e..])
            && forall i :: 0 <= i < e ==> !("\n---\n" <= s[i..])
  {
    assert NextBlockAt(s) <==> "\n---\n" <= s;
    if s != "" && !NextBlockAt(s) {
      BodyForm(s[1..]);
      var e := BodyEnd(s);
      assert s[1..][e - 1..] == s[e..];
      forall i | 0 <= i < e
        ensures !("\n---\n" <= s[i..])
      {
        assert i > 0 ==> s[i..] == s[1..][i - 1..];
        assert i == 0 ==> s[i..] == s;
      }
    }
  }

  // ---------------------------------------------------------------- note references

  /** The characters of a reference's name. */
  const NAME_CHARS: string := DIGITS + LOWER + "_"

  /** A reference with this name stands at `p`: its mark, the whole run of name characters, and a word
      boundary on both sides. */
  ghost predicate RefAt(s: string, p: nat, name: string, afterWord: bool, isWord: WordClass) {
    && name != "" && AllIn(name, NAME_CHARS) && p <= |s| && "ref:" + name <= s[p..]
    && (if p == 0 then !afterWord else !isWord(s[p - 1]))
    && var end := p + 4 + |name|;
       end <= |s| && (end < |s| ==> s[end] !in NAME_CHARS && !isWord(s[end]))
  }

  lemma NameChars(c: char)
    ensures c in NAME_CHARS <==> IsDigit(c) || 'a' <= c <= 'z' || c == '_'
  {
    DigitIsListed(c);
    LowerIsListed(c);
  }

  lemma AllInCons(c: char, s: string, chars: string)
    requires c in chars && AllIn(s, chars)
    ensures AllIn([c] + s, chars)
  {
  }

  /** The run is as long as it can be. */
  lemma {:induction false} RunIsLongest(s: string, chars: string)
    requires forall c :: c in chars <==> IsDigit(c) || 'a' <= c <= 'z' || c == '_'
    ensures AllIn(s[..RefRun(s)], chars) && (RefRun(s) < |s| ==> s[RefRun(s)] !in chars)
  {
    if s != "" {
      RunIsLongest(s[1..], chars);
      var n := RefRun(s);
      if n > 0 {
        AllInCons(s[0], s[1..][..n - 1], chars);
        assert s[..n] == [s[0]] + s[1..][..n - 1];
      }
    }
  }

  lemma {:induction false} LongestIsRun(s: string, n: nat, chars: string)
    requires forall c :: c in chars <==> IsDigit(c) || 'a' <= c <= 'z' || c == '_'
    requires n <= |s| && AllIn(s[..n], chars) && (n < |s| ==> s[n] !in chars)
    ensures RefRun(s) == n
  {
    if n > 0 {
      assert s[..n][0] == s[0];
      assert s[1..][..n - 1] == s[..n][1..];
      LongestIsRun(s[1..], n - 1, chars);
    }
  }

  lemma AllNameChars()
    ensures forall c :: c in NAME_CHARS <==> IsDigit(c) || 'a' <= c <= 'z' || c == '_'
  {
    forall c
      ensures c in NAME_CHARS <==> IsDigit(c) || 'a' <= c <= 'z' || c == '_'
    {
      NameChars(c);
    }
  }

  lemma RunForm(s: string)
    ensures AllIn(s[..RefRun(s)], NAME_CHARS) && (RefRun(s) < |s| ==> s[RefRun(s)] !in NAME_CHARS)
  {
    AllNameChars();
    RunIsLongest(s, NAME_CHARS);
  }

  lemma SameRun(s: string, n: nat)
    requires n <= |s| && AllIn(s[..n], NAME_CHARS) && (n < |s| ==> s[n] !in NAME_CHARS)
    ensures RefRun(s) == n
  {
    AllNameChars();
    LongestIsRun(s, n, NAME_CHARS);
  }

  /** What `NoteRefFrom` looks for at the start of a text. */
  ghost predicate RefHere(s: string, afterWord: bool, isWord: WordClass, name: string) {
    && |s| >= 5 && !afterWord && s[..4] == "ref:" && RefRun(s[4..]) > 0
    && (4 + RefRun(s[4..]) == |s| || !isWord(s[4 + RefRun(s[4..])]))
    && name == s[4..4 + RefRun(s[4..])]
  }

  lemma MarkThenRest(s: string)
    requires |s| >= 4 && s[..4] == "ref:"
    ensures s == "ref:" + s[4..]
  {
  }

  lemma MarkThenName(s: string, name: string)
    requires "ref:" + name <= s
    ensures |s| >= 4 + |name| && s[..4] == "ref:" && s[4..4 + |name|] == name && s[4..][..|name|] == name
  {
    assert s[..4 + |name|] == "ref:" + name;
    assert s[..4] == ("ref:" + name)[..4] && s[4..4 + |name|] == ("ref:" + name)[4..];
  }

  lemma HereIsRef(s: string, afterWord: bool, isWord: WordClass, name: string)
    requires RefHere(s, afterWord, isWord, name)
    ensures RefAt(s, 0, name, afterWord, isWord)
  {
    assert s[0..] == s;
    RunForm(s[4..]);
    MarkThenRest(s);
    assert s[4..][..RefRun(s[4..])] == name;
  }

  lemma RefIsHere(s: string, afterWord: bool, isWord: WordClass, name: string)
    requires RefAt(s, 0, name, afterWord, isWord)
    ensures RefHere(s, afterWord, isWord, name)
  {
    assert s[0..] == s;
    MarkThenName(s, name);
    SameRun(s[4..], |name|);
  }

  lemma RefAtHere(s: string, afterWord: bool, isWord: WordClass, name: string)
    ensures RefAt(s, 0, name, afterWord, isWord) <==> RefHere(s, afterWord, isWord, name)
  {
    if RefAt(s, 0, name, afterWord, isWord) {
      RefIsHere(s, afterWord, isWord, name);
    }
    if RefHere(s, afterWord, isWord, name) {
      HereIsRef(s, afterWord, isWord, name);
    }
  }

  lemma RefAtLater(s: string, p: nat, afterWord: bool, isWord: WordClass, name: string)
    requires s != "" && p > 0
    ensures RefAt(s, p, name, afterWord, isWord) <==> RefAt(s[1..], p - 1, name, isWord(s[0]), isWord)
  {
    if p <= |s| {
      assert s[p..] == s[1..][p - 1..];
    }
  }

  /** The reference read from a summary is the first one in it; there is none exactly if no reference
      stands anywhere. */
  lemma {:induction false} NoteRefForm(s: string, afterWord: bool, isWord: WordClass)
    ensures var name := NoteRefFrom(s, afterWord, isWord);
            if name == "" then forall p: nat, other :: !RefAt(s, p, other, afterWord, isWord)
            else exists p: nat ::
                && RefAt(s, p, name, afterWord, isWord)
                && forall q: nat, other :: q < p ==> !RefAt(s, q, other, afterWord, isWord)
    decreases |s|
  {
    var name := NoteRefFrom(s, afterWord, isWord);
    if |s| >= 5 {
      RefAtHere(s, afterWord, isWord, name);
      if !RefAt(s, 0, name, afterWord, isWord) {
        NoteRefForm(s[1..], isWord(s[0]), isWord);
        forall p: nat, other
          ensures RefAt(s, p, other, afterWord, isWord)
                  <==> p > 0 && RefAt(s[1..], p - 1, other, isWord(s[0]), isWord)
        {
          if p == 0 {
            RefAtHere(s, afterWord, isWord, other);
          } else {
            RefAtLater(s, p, afterWord, isWord, other);
          }
        }
        if name != "" {
          var p: nat :| RefAt(s[1..], p, name, isWord(s[0]), isWord)
            && forall q: nat, other :: q < p ==> !RefAt(s[1..], q, other, isWord(s[0]), isWord);
          assert RefAt(s, p + 1, name, afterWord, isWord);
        }
      }
    }
  }
}
