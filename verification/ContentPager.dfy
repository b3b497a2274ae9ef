/** Paging through a text: by whole lines, and by characters. */
module ContentPager {
  import opened Sequences
  import MarkdownMemory

  const NOTICE_RESERVE: nat := 400
  const CHAR_MODE_LIMIT: nat := 128000

  /** What is left for content once room for the truncation notice is kept. */
  function BodyCap(cap: nat): nat {
    if cap - NOTICE_RESERVE > cap / 2 then cap - NOTICE_RESERVE else cap / 2
  }

  function JoinLines(lines: seq<string>): string {
    if lines == [] then []
    else if |lines| == 1 then lines[0]
    else lines[0] + "\n" + JoinLines(lines[1..])
  }

  // ---------------------------------------------------------------- pages of whole lines

  /** The place the truncation notice points to. */
  datatype Cursor = Nowhere | NextLine(number: nat) | NextChar(position: nat)

  datatype LinePage = LinePage(
    startLine: nat,
    endLine: nat,
    body: string,
    truncated: bool,
    shownChars: nat,
    shownLines: nat,
    totalChars: nat,
    remainingChars: nat,
    remainingLines: nat,
    next: Cursor)

  /** The line a page starts at, and the last line of the range asked for. */
  function StartLine(lines: seq<string>, start: int): nat
    requires lines != []
  {
    if start < 1 then 1 else if start > |lines| then |lines| else start
  }

  function FinishLine(lines: seq<string>, start: int, end: Option<int>): (f: nat)
    requires lines != []
    ensures StartLine(lines, start) <= f <= |lines|
  {
    var s := StartLine(lines, start);
    if end.None? || end.value >= |lines| then |lines| else if end.value < s then s else end.value
  }

  function Range(lines: seq<string>, start: int, end: Option<int>): (range: seq<string>)
    requires lines != []
    ensures range != []
  {
    lines[StartLine(lines, start) - 1..FinishLine(lines, start, end)]
  }

  /** `n` whole lines fit the cap, and one more would not. */
  predicate Fills(range: seq<string>, cap: nat, n: nat) {
    && 1 <= n <= |range| && |JoinLines(range[..n])| <= cap
    && (n < |range| ==> |JoinLines(range[..n + 1])| > cap)
  }

  /** A page that shows the first lines of a range, as many as fit, and counts the rest. */
  predicate ShowsWholeLines(range: seq<string>, start: nat, cap: nat, p: LinePage) {
    && p.startLine == start && p.endLine + 1 == start + p.shownLines
    && Fills(range, cap, p.shownLines)
    && p.body == JoinLines(range[..p.shownLines]) && p.shownChars == |p.body|
    && p.totalChars == |JoinLines(range)|
    && p.shownChars + p.remainingChars == p.totalChars && p.shownLines + p.remainingLines == |range|
    && p.truncated == (p.shownLines < |range|)
    && p.next == if p.truncated then NextLine(p.endLine + 1) else Nowhere
  }

  /** The fallback for a first line that does not fit: its beginning, without trailing space. */
  predicate ShowsLineStart(range: seq<string>, start: nat, cap: nat, p: LinePage)
    requires range != [] && |range[0]| > cap
  {
    && p.startLine == p.endLine == start && p.body == MarkdownMemory.StripRight(range[0][..cap])
    && p.truncated && p.shownChars == cap && p.shownLines == 1
    && p.totalChars == |JoinLines(range)| && p.remainingChars == |range[0]| - cap && p.remainingLines == 0
    && p.next == NextChar(cap + 1)
  }

  lemma {:induction false} JoinSnoc(lines: seq<string>, line: string)
    ensures JoinLines(lines + [line]) == if lines == [] then line else JoinLines(lines) + "\n" + line
  {
    if |lines| > 1 {
      assert (lines + [line])[1..] == lines[1..] + [line];
      JoinSnoc(lines[1..], line);
    } else if |lines| == 1 {
      assert (lines + [line])[1..] == [line];
    } else {
      assert lines + [line] == [line];
    }
  }

  lemma {:induction false} JoinPrefixIsShorter(lines: seq<string>, n: nat)
    requires n <= |lines|
    ensures |JoinLines(lines[..n])| <= |JoinLines(lines)|
    decreases |lines| - n
  {
    if n < |lines| {
      assert lines[..n + 1] == lines[..n] + [lines[n]];
      JoinSnoc(lines[..n], lines[n]);
      JoinPrefixIsShorter(lines, n + 1);
    } else {
      assert lines[..n] == lines;
    }
  }

  /** Whole lines, from the first on, until one more would pass the cap. */
  method TakeWholeLines(range: seq<string>, start: nat, bodyCap: nat)
    returns (selected: seq<string>, chars: nat, actualEnd: nat)
    requires range != [] && |range[0]| <= bodyCap && start > 0
    ensures Fills(range, bodyCap, |selected|) && selected == range[..|selected|]
    ensures chars == |JoinLines(selected)| && actualEnd == start - 1 + |selected|
  {
    selected, chars, actualEnd := [], 0, start - 1;
    for i := 0 to |range|
      invariant selected == range[..i] && chars == |JoinLines(selected)| && actualEnd == start - 1 + i
      invariant i > 0 ==> chars <= bodyCap
    {
      var add := |range[i]| + if selected != [] then 1 else 0;
      assert range[..i + 1] == selected + [range[i]];
      JoinSnoc(selected, range[i]);
      if selected != [] && chars + add > bodyCap {
        return;
      }
      selected, chars, actualEnd := selected + [range[i]], chars + add, start + i;
    }
    assert range[..|range|] == range;
  }

  method BuildLineExcerpt(lines: seq<string>, start: int, end: Option<int>, cap: nat, charCount: nat)
    returns (p: LinePage)
    ensures lines == [] ==> p == LinePage(1, 1, "", false, 0, 0, 0, charCount, 0, Nowhere)
    ensures lines != [] && |Range(lines, start, end)[0]| <= BodyCap(cap) ==>
              ShowsWholeLines(Range(lines, start, end), StartLine(lines, start), BodyCap(cap), p)
    ensures lines != [] && |Range(lines, start, end)[0]| > BodyCap(cap) ==>
              ShowsLineStart(Range(lines, start, end), StartLine(lines, start), BodyCap(cap), p)
  {
    if lines == [] {
      return LinePage(1, 1, "", false, 0, 0, 0, charCount, 0, Nowhere);
    }
    var s, finish := StartLine(lines, start), FinishLine(lines, start, end);
    var range := Range(lines, start, end);
    var total := |JoinLines(range)|;
    var bodyCap := BodyCap(cap);
    var first := range[0];
    if |first| > bodyCap {
      return LinePage(s, s, MarkdownMemory.StripRight(first[..bodyCap]), true, bodyCap, 1, total, |first| - bodyCap, 0,
        NextChar(bodyCap + 1));
    }
    var selected, chars, actualEnd := TakeWholeLines(range, s, bodyCap);
    JoinPrefixIsShorter(range, |selected|);
    assert actualEnd >= finish ==> |selected| == |range| && selected == range;
    var truncated := actualEnd < finish;
    p := LinePage(s, actualEnd, JoinLines(selected), truncated, chars, |selected|, total,
                  if truncated then total - chars else 0, if truncated then finish - actualEnd else 0,
                  if truncated then NextLine(actualEnd + 1) else Nowhere);
  }

  // ---------------------------------------------------------------- reading a range page by page

  lemma {:induction false} JoinConcat(a: seq<string>, b: seq<string>)
    requires a != [] && b != []
    ensures JoinLines(a + b) == JoinLines(a) + "\n" + JoinLines(b)
  {
    if |a| == 1 {
      assert (a + b)[1..] == b;
    } else {
      assert (a + b)[1..] == a[1..] + b;
      JoinConcat(a[1..], b);
      assert JoinLines(a + b) == a[0] + "\n" + (JoinLines(a[1..]) + "\n" + JoinLines(b));
      assert JoinLines(a) == a[0] + "\n" + JoinLines(a[1..]);
      assert JoinLines(a + b) == (a[0] + "\n" + JoinLines(a[1..])) + "\n" + JoinLines(b);
    }
  }

  /** Longer prefixes join to longer texts, so there is one page that fills the cap. */
  lemma FillsIsUnique(range: seq<string>, cap: nat, n: nat, m: nat)
    requires Fills(range, cap, n) && Fills(range, cap, m)
    ensures n == m
  {
    var a, b := if n < m then n else m, if n < m then m else n;
    assert a < b ==> range[..b][..a + 1] == range[..a + 1];
    if a < b {
      JoinPrefixIsShorter(range[..b], a + 1);
    }
  }

  /** Pages as the reader gets them who reopens, at the line after the page end, to the same end. */
  ghost predicate ReadsOn(lines: seq<string>, start: nat, finish: nat, cap: nat, pages: seq<LinePage>)
    requires 1 <= start <= finish <= |lines|
    decreases |pages|
  {
    && pages != []
    && ShowsWholeLines(lines[start - 1..finish], start, BodyCap(cap), pages[0])
    && if pages[0].truncated then
         pages[0].endLine + 1 <= finish && ReadsOn(lines, pages[0].endLine + 1, finish, cap, pages[1..])
       else |pages| == 1
  }

  function Bodies(pages: seq<LinePage>): seq<string> {
    seq(|pages|, i requires 0 <= i < |pages| => pages[i].body)
  }

  function ShownTotal(pages: seq<LinePage>): nat {
    if pages == [] then 0 else pages[0].shownLines + ShownTotal(pages[1..])
  }

  /** The pages put together are the range, every line shown once, in at most one page a line. */
  lemma {:induction false} LinePagesReassemble(lines: seq<string>, start: nat, finish: nat, cap: nat,
      pages: seq<LinePage>)
    requires 1 <= start <= finish <= |lines| && ReadsOn(lines, start, finish, cap, pages)
    ensures JoinLines(Bodies(pages)) == JoinLines(lines[start - 1..finish])
    ensures ShownTotal(pages) == finish + 1 - start && |pages| <= finish + 1 - start
    decreases |pages|
  {
    var range, p := lines[start - 1..finish], pages[0];
    if p.truncated {
      var rest := pages[1..];
      LinePagesReassemble(lines, p.endLine + 1, finish, cap, rest);
      assert Bodies(pages) == [p.body] + Bodies(rest);
      JoinConcat([p.body], Bodies(rest));
      assert range == range[..p.shownLines] + lines[p.endLine..finish];
      JoinConcat(range[..p.shownLines], lines[p.endLine..finish]);
    } else {
      assert range[..p.shownLines] == range && Bodies(pages) == [p.body];
      assert pages[1..] == [];
    }
  }

  /** If every line fits the cap the reader gets through: each page strictly shortens what is left. */
  lemma {:induction false} LinePagesReachTheEnd(lines: seq<string>, start: nat, finish: nat, cap: nat)
    requires 1 <= start <= finish <= |lines|
    requires forall i :: start - 1 <= i < finish ==> |lines[i]| <= BodyCap(cap)
    ensures exists pages :: ReadsOn(lines, start, finish, cap, pages)
    decreases finish - start
  {
    var range := lines[start - 1..finish];
    var n := FillCount(range, BodyCap(cap), 1);
    var more := n < |range|;
    var total, shown := |JoinLines(range)|, |JoinLines(range[..n])|;
    JoinPrefixIsShorter(range, n);
    assert !more ==> range[..n] == range;
    var p := LinePage(start, start + n - 1, JoinLines(range[..n]), more, shown, n, total, total - shown, |range| - n,
                      if more then NextLine(start + n) else Nowhere);
    if more {
      LinePagesReachTheEnd(lines, start + n, finish, cap);
      var rest :| ReadsOn(lines, start + n, finish, cap, rest);
      assert ([p] + rest)[1..] == rest;
      assert ReadsOn(lines, start, finish, cap, [p] + rest);
    } else {
      assert ReadsOn(lines, start, finish, cap, [p]);
    }
  }

  function FillCount(range: seq<string>, cap: nat, n: nat): (m: nat)
    requires 1 <= n <= |range| && |JoinLines(range[..n])| <= cap
    ensures Fills(range, cap, m)
    decreases |range| - n
  {
    if n < |range| && |JoinLines(range[..n + 1])| <= cap then FillCount(range, cap, n + 1) else n
  }

  // ---------------------------------------------------------------- the single-line fallback

  /** The fallback's counts add up exactly when the range is that one line. */
  lemma FallbackTotals(range: seq<string>, start: nat, cap: nat, p: LinePage)
    requires range != [] && |range[0]| > cap && ShowsLineStart(range, start, cap, p)
    ensures p.shownChars + p.remainingChars == p.totalChars <==> |range| == 1
    ensures p.shownLines + p.remainingLines == |range| <==> |range| == 1
  {
    if |range| == 1 {
      assert JoinLines(range) == range[0];
    } else {
      assert JoinLines(range) == range[0] + "\n" + JoinLines(range[1..]);
    }
  }

  /** Two lines, the first too long: any such range is counted wrong. */
  lemma FallbackMiscounts(first: string, second: string, start: nat, cap: nat)
    requires |first| > cap
    ensures var range := [first, second];
            exists p :: ShowsLineStart(range, start, cap, p) && p.shownChars + p.remainingChars != p.totalChars
                        && p.shownLines + p.remainingLines != |range|
  {
    var range := [first, second];
    var p := LinePage(start, start, MarkdownMemory.StripRight(first[..cap]), true, cap, 1, |JoinLines(range)|,
                      |first| - cap, 0, NextChar(cap + 1));
    assert ShowsLineStart(range, start, cap, p);
    FallbackTotals(range, start, cap, p);
  }

  /** Where line `s` begins in the text. */
  function LineOffset(lines: seq<string>, s: nat): nat
    requires 1 <= s <= |lines|
  {
    if s == 1 then 0 else |JoinLines(lines[..s - 1])| + 1
  }

  /** The fallback's next character is counted from the start of the line but read from the start
      of the text: it points at the first hidden character exactly when the line is the first. */
  lemma FallbackCursor(lines: seq<string>, s: nat, finish: nat, cap: nat, p: LinePage)
    requires 1 <= s <= finish <= |lines| && |lines[s - 1]| > cap
    requires ShowsLineStart(lines[s - 1..finish], s, cap, p)
    ensures var text := JoinLines(lines);
            var hidden := LineOffset(lines, s) + cap;
            && hidden < |text| && text[hidden] == lines[s - 1][cap]
            && (p.next == NextChar(hidden + 1) <==> s == 1)
  {
    LineInText(lines, s);
  }

  lemma FirstLinesComeFirst(lines: seq<string>, n: nat)
    requires 1 <= n <= |lines|
    ensures JoinLines(lines[..n]) <= JoinLines(lines)
  {
    if n == |lines| {
      assert lines[..n] == lines;
    } else {
      assert lines == lines[..n] + lines[n..];
      JoinConcat(lines[..n], lines[n..]);
    }
  }

  lemma LineInText(lines: seq<string>, s: nat)
    requires 1 <= s <= |lines|
    ensures LineOffset(lines, s) + |lines[s - 1]| <= |JoinLines(lines)|
    ensures JoinLines(lines)[LineOffset(lines, s)..LineOffset(lines, s) + |lines[s - 1]|] == lines[s - 1]
  {
    var upTo := JoinLines(lines[..s]);
    assert lines[..s] == lines[..s - 1] + [lines[s - 1]];
    JoinSnoc(lines[..s - 1], lines[s - 1]);
    assert |upTo| == LineOffset(lines, s) + |lines[s - 1]| && upTo[LineOffset(lines, s)..] == lines[s - 1];
    FirstLinesComeFirst(lines, s);
    SliceOfStart(upTo, JoinLines(lines), LineOffset(lines, s));
  }

  lemma SliceOfStart(part: string, text: string, from: nat)
    requires part <= text && from <= |part|
    ensures text[from..|part|] == part[from..]
  {
  }

  // ---------------------------------------------------------------- pages of characters

  datatype CharPage = CharPage(
    startLine: nat,
    endLine: nat,
    shown: string,
    excerpt: string,
    truncated: bool,
    shownLines: nat,
    totalChars: nat,
    remainingChars: nat,
    startChar: nat,
    endChar: int,
    next: Cursor)

  function Newlines(s: string): nat {
    if s == [] then 0 else (if s[0] == '\n' then 1 else 0) + Newlines(s[1..])
  }

  function StartChar(text: string, start: int): (s: nat)
    ensures 1 <= s && (text != [] ==> s <= |text|)
  {
    var last := if |text| > 1 then |text| else 1;
    if start < 1 then 1 else if start > last then last else start
  }

  /** The last character asked for; the caller gives it, or takes the default. */
  function EndChar(text: string, start: int, end: Option<int>): (ec: nat)
    ensures ec >= StartChar(text, start)
  {
    var asked := if end.Some? then end.value else start + CHAR_MODE_LIMIT - 1;
    if asked < StartChar(text, start) then StartChar(text, start) else asked
  }

  /** More is asked for, and there, than fits a page. */
  predicate Overflows(text: string, start: int, end: Option<int>) {
    var last := StartChar(text, start) - 1 + BodyCap(CHAR_MODE_LIMIT);
    EndChar(text, start, end) > last && |text| > last
  }

  /** What is asked for and there. */
  function Requested(text: string, start: int, end: Option<int>): string {
    var ec := EndChar(text, start, end);
    text[StartChar(text, start) - 1..if ec > |text| then |text| else ec]
  }

  /** A page of characters. */
  function CharExcerpt(text: string, start: int, end: Option<int>): CharPage {
    var cap := BodyCap(CHAR_MODE_LIMIT);
    var sc := StartChar(text, start);
    var requested := Requested(text, start, end);
    var startLine := Newlines(text[..sc - 1]) + 1;
    if |requested| > cap then
      var shown := requested[..cap];
      CharPage(startLine, startLine + Newlines(shown), shown, MarkdownMemory.StripRight(shown), true,
        Newlines(shown) + 1,
               |requested|, |text| - (sc - 1 + cap), sc, sc + cap - 1, NextChar(sc + cap))
    else
      CharPage(startLine, startLine + Newlines(requested), requested, requested, false,
               if requested == [] then 0 else Newlines(requested) + 1, |requested|, 0, sc, EndChar(text, start, end),
                 Nowhere)
  }

  lemma RequestStarts(text: string, start: int, end: Option<int>, n: nat)
    requires n < |Requested(text, start, end)|
    ensures var from := StartChar(text, start) - 1;
            from + n < |text| && Requested(text, start, end)[..n] == text[from..from + n]
            && (n > 0 ==> Requested(text, start, end)[..n][n - 1] == text[from + n - 1])
  {
  }

  /** What a full page shows. */
  lemma FullPage(text: string, start: int, end: Option<int>)
    requires CharExcerpt(text, start, end).truncated
    ensures var p, from, cap := CharExcerpt(text, start, end), StartChar(text, start) - 1, BodyCap(CHAR_MODE_LIMIT);
            && |p.shown| == cap && from + cap < |text| && p.shown == text[from..from + cap]
            && p.shown[cap - 1] == text[from + cap - 1]
            && p.next == NextChar(from + cap + 1) && p.endChar == from + cap
                 && p.excerpt == MarkdownMemory.StripRight(p.shown)
  {
    RequestStarts(text, start, end, BodyCap(CHAR_MODE_LIMIT));
  }

  lemma PageLines(text: string, start: int, end: Option<int>)
    ensures var p := CharExcerpt(text, start, end);
            && p.startChar == StartChar(text, start) && (text != [] ==> p.startChar <= |text|)
            && (text != [] ==> p.startLine == Newlines(text[..p.startChar - 1]) + 1)
            && p.endLine == p.startLine + Newlines(p.shown)
  {
  }

  lemma {:induction false} NewlinesConcat(a: string, b: string)
    ensures Newlines(a + b) == Newlines(a) + Newlines(b)
  {
    if a == [] {
      assert a + b == b;
    } else {
      assert (a + b)[1..] == a[1..] + b;
      NewlinesConcat(a[1..], b);
    }
  }

  lemma LinesAddUp(text: string, from: nat, to: nat)
    requires from <= to <= |text|
    ensures Newlines(text[..to]) == Newlines(text[..from]) + Newlines(text[from..to])
  {
    assert text[..to] == text[..from] + text[from..to];
    NewlinesConcat(text[..from], text[from..to]);
  }

  /** A full page ends on the line of its last character, and there is a next one. */
  lemma FullPageEnds(text: string, start: int, end: Option<int>)
    requires CharExcerpt(text, start, end).truncated
    ensures var p := CharExcerpt(text, start, end);
            && 0 < p.endChar < |text| && p.next == NextChar(p.endChar + 1)
            && p.endLine == Newlines(text[..p.endChar]) + 1
  {
    var from := StartChar(text, start) - 1;
    FullPage(text, start, end);
    PageLines(text, start, end);
    LinesAddUp(text, from, from + BodyCap(CHAR_MODE_LIMIT));
  }

  lemma PageBegins(text: string, start: int, end: Option<int>)
    requires 1 <= start <= |text|
    ensures var p := CharExcerpt(text, start, end);
            p.startChar == start && p.startLine == Newlines(text[..start - 1]) + 1
  {
    PageLines(text, start, end);
  }

  /** The next page begins on the line the page says it ends on, at the character after its last. */
  lemma CharPagesMeet(text: string, start: int, end: Option<int>, end': Option<int>)
    requires CharExcerpt(text, start, end).truncated
    ensures var p := CharExcerpt(text, start, end);
            && p.next.NextChar? && p.next.position == p.endChar + 1 <= |text|
            && CharExcerpt(text, p.next.position, end').startLine == p.endLine
            && CharExcerpt(text, p.next.position, end').startChar == p.next.position
  {
    FullPageEnds(text, start, end);
    PageBegins(text, CharExcerpt(text, start, end).endChar + 1, end');
  }

  /** The texts of the pages from a character on, following the cursor to the same end. */
  function CharPages(text: string, start: nat, end: Option<int>): seq<CharPage>
    requires 1 <= start && (start <= |text| || text == [])
    decreases |text| - start
  {
    var p := CharExcerpt(text, start, end);
    if p.truncated then
      CharPagesMeet(text, start, end, end);
      [p] + CharPages(text, p.next.position, end)
    else [p]
  }

  function Shown(pages: seq<CharPage>): string {
    if pages == [] then [] else pages[0].shown + Shown(pages[1..])
  }

  /** The last character wanted, cut to the text. */
  function LastWanted(text: string, start: nat, end: Option<int>): nat {
    if end.None? || end.value >= |text| then |text| else if end.value < start then start else end.value
  }

  /** What one page shows of what was asked for. */
  lemma PageShows(text: string, start: nat, end: Option<int>)
    requires 1 <= start <= |text|
    ensures var p, last := CharExcerpt(text, start, end), LastWanted(text, start, end);
            if p.truncated then
              && p.next == NextChar(start + |p.shown|) && p.next.position <= last
              && p.shown == text[start - 1..p.next.position - 1] && LastWanted(text, p.next.position, end) == last
            else p.shown == text[start - 1..last]
  {
    var p, last := CharExcerpt(text, start, end), LastWanted(text, start, end);
    if p.truncated {
      FullPage(text, start, end);
    } else {
      assert p.shown == text[start - 1..last];
    }
  }

  lemma Tiled(text: string, page: string, from: nat, mid: nat, to: nat)
    requires from <= mid <= to <= |text| && page == text[from..mid]
    ensures page + text[mid..to] == text[from..to]
  {
  }

  /** The pages tile what was asked for: no gap, no repeat. Without an end they tile the text to
      its end. */
  lemma {:induction false} CharPagesTile(text: string, start: nat, end: Option<int>)
    requires 1 <= start <= |text|
    ensures Shown(CharPages(text, start, end)) == text[start - 1..LastWanted(text, start, end)]
    decreases |text| - start
  {
    var p, last := CharExcerpt(text, start, end), LastWanted(text, start, end);
    PageShows(text, start, end);
    if p.truncated {
      var next := p.next.position;
      CharPagesTile(text, next, end);
      Tiled(text, p.shown, start - 1, next - 1, last);
    }
  }

  /** A truncated page counts what remains of the text, not of the request: the two agree exactly
      when the request reaches the end of the text. */
  lemma CharPageTotals(text: string, start: int, end: Option<int>)
    ensures var p := CharExcerpt(text, start, end);
            && (p.truncated <==> Overflows(text, start, end))
            && (p.truncated ==>
                  && p.startChar - 1 + |p.shown| + p.remainingChars == |text|
                  && (|p.shown| + p.remainingChars == p.totalChars <==> EndChar(text, start, end) >= |text|))
  {
  }

  /** Asking a longer text for one character more than fits gives such a page. */
  lemma CharPageMiscounts(text: string)
    requires |text| > BodyCap(CHAR_MODE_LIMIT) + 1
    ensures var p := CharExcerpt(text, 1, Some(BodyCap(CHAR_MODE_LIMIT) + 1));
            p.truncated && |p.shown| + p.remainingChars != p.totalChars
  {
    CharPageTotals(text, 1, Some(BodyCap(CHAR_MODE_LIMIT) + 1));
  }

  /** The excerpt that is printed is what the page counts as shown, unless the page is full and the
      last character on it is white space. */
  lemma ExcerptIsShown(text: string, start: int, end: Option<int>)
    ensures var p := CharExcerpt(text, start, end);
            p.excerpt == p.shown
            <==> !(Overflows(text, start, end)
                   && MarkdownMemory.IsSpace(text[StartChar(text, start) + BodyCap(CHAR_MODE_LIMIT) - 2]))
  {
    var p := CharExcerpt(text, start, end);
    CharPageTotals(text, start, end);
    if p.truncated {
      FullPage(text, start, end);
      StripRightExact(p.shown);
    }
  }

  lemma StripRightExact(s: string)
    requires s != []
    ensures MarkdownMemory.StripRight(s) == s <==> !MarkdownMemory.IsSpace(s[|s| - 1])
  {
    if MarkdownMemory.IsSpace(s[|s| - 1]) {
      StripRightIsShorter(s[..|s| - 1]);
    }
  }

  lemma {:induction false} StripRightIsShorter(s: string)
    ensures |MarkdownMemory.StripRight(s)| <= |s|
  {
    if s != [] {
      StripRightIsShorter(s[..|s| - 1]);
    }
  }
}
