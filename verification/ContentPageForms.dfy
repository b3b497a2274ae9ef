/** A page in numbers: where it starts and ends, what it counts, and how much it shows. */
module ContentPageForms {
  import opened Sequences
  import MarkdownMemory
  import opened ContentPager

  // ---------------------------------------------------------------- room and ranges

  /** The room for content is what 400 characters of notice leave, but never less than half. */
  lemma RoomForContent(cap: nat)
    ensures BodyCap(cap) as int >= cap - 400 && BodyCap(cap) >= cap / 2
    ensures BodyCap(cap) as int == cap - 400 || BodyCap(cap) == cap / 2
    ensures BodyCap(CHAR_MODE_LIMIT) == 127600
  {
  }

  /** `x` moved into `low..high`: itself inside, the nearer end outside. */
  predicate Clamped(x: int, low: int, high: int, y: int) {
    low <= y <= high && (low <= x <= high ==> y == x) && (x < low ==> y == low) && (x > high ==> y == high)
  }

  /** A page of lines begins at the line asked for and its range ends at the end asked for, both moved into
      the text, and the end not before the start; without an end the range goes to the last line. */
  lemma LineRange(lines: seq<string>, start: int, end: Option<int>)
    requires lines != []
    ensures var s, f := StartLine(lines, start), FinishLine(lines, start, end);
            && Clamped(start, 1, |lines|, s)
            && (end.Some? ==> Clamped(end.value, s, |lines|, f)) && (end.None? ==> f == |lines|)
            && |Range(lines, start, end)| == f - s + 1
            && forall i :: 0 <= i < f - s + 1 ==> Range(lines, start, end)[i] == lines[s - 1 + i]
  {
  }

  // ---------------------------------------------------------------- lines in a text

  lemma {:induction false} JoinedLength(lines: seq<string>)
    requires lines != []
    ensures |JoinLines(lines)| == LineOffset(lines, |lines|) + |lines[|lines| - 1]|
  {
    var before := lines[..|lines| - 1];
    assert lines == before + [lines[|lines| - 1]];
    JoinSnoc(before, lines[|lines| - 1]);
  }

  /** A line feed stands between what is before a line and that line. */
  lemma FeedBefore(lines: seq<string>, s: nat)
    requires 1 < s <= |lines|
    ensures var text, at := JoinLines(lines), LineOffset(lines, s);
            0 < at <= |text| && text[at - 1] == '\n'
  {
    var before, rest := lines[..s - 1], lines[s - 1..];
    assert lines == before + rest;
    JoinConcat(before, rest);
  }

  lemma NextOffset(lines: seq<string>, s: nat)
    requires 1 < s <= |lines|
    ensures LineOffset(lines, s) == LineOffset(lines, s - 1) + |lines[s - 2]| + 1
  {
    var before := lines[..s - 1];
    JoinedLength(before);
    assert s > 2 ==> before[..s - 2] == lines[..s - 2];
  }

  /** In a text joined from lines every line stands at its place, a line feed stands before all but the first,
      and there is nothing else. */
  lemma JoinedForm(lines: seq<string>, s: nat)
    requires 1 <= s <= |lines|
    ensures var text, at := JoinLines(lines), LineOffset(lines, s);
            && at + |lines[s - 1]| <= |text| && text[at..at + |lines[s - 1]|] == lines[s - 1]
            && (s == 1 ==> at == 0)
            && (s > 1 ==> at == LineOffset(lines, s - 1) + |lines[s - 2]| + 1 && text[at - 1] == '\n')
            && (s == |lines| ==> |text| == at + |lines[s - 1]|)
  {
    LineInText(lines, s);
    JoinedLength(lines);
    if s > 1 {
      NextOffset(lines, s);
      FeedBefore(lines, s);
    }
  }

  // ---------------------------------------------------------------- lines and characters

  /** The number of line feeds in a text. */
  ghost function LineFeeds(s: string): nat {
    multiset(s)['\n']
  }

  lemma {:induction false} NewlinesAreCounted(s: string)
    ensures Newlines(s) == LineFeeds(s)
  {
    if s != "" {
      NewlinesAreCounted(s[1..]);
      assert s == [s[0]] + s[1..];
    }
  }

  /** The last character asked for: the end asked for, or 128000 characters, but not before the start. */
  ghost predicate LastAsked(start: int, end: Option<int>, first: nat, last: nat) {
    && (end.Some? && end.value >= first ==> last == end.value)
    && (end.None? && start + 127999 >= first ==> last == start + 127999)
    && ((if end.Some? then end.value else start + 127999) < first ==> last == first)
  }

  /** Where a page of characters starts and where what is asked for and there stops. */
  lemma CharRange(text: string, start: int, end: Option<int>)
    ensures var p, n, last := CharExcerpt(text, start, end), |text|, EndChar(text, start, end);
            && Clamped(start, 1, if n == 0 then 1 else n, p.startChar) && LastAsked(start, end, p.startChar, last)
            && p.startChar - 1 <= n
            && Requested(text, start, end) == text[p.startChar - 1..if last <= n then last else n]
  {
  }

  /** A page of characters that holds all that is asked for and there: at most 127600 characters. */
  ghost predicate ShowsAll(text: string, first: nat, stop: nat, last: nat, p: CharPage)
    requires 1 <= first <= stop + 1 && stop <= |text|
  {
    && p.shown == text[first - 1..stop] && |p.shown| <= 127600 && p.excerpt == p.shown
    && !p.truncated && p.next == Nowhere && p.endChar == last
    && p.totalChars == |p.shown| && p.remainingChars == 0
  }

  /** A page that shows the first 127600 characters of more, and points to the next one. */
  ghost predicate ShowsBeginning(text: string, first: nat, stop: nat, p: CharPage)
    requires 1 <= first && stop <= |text|
  {
    && stop + 1 > first + 127600
    && p.shown == text[first - 1..first + 127599] && p.excerpt == MarkdownMemory.StripRight(p.shown)
    && p.truncated && p.endChar == first + 127599 && p.next == NextChar(first + 127600)
    && p.totalChars == stop + 1 - first && p.remainingChars == |text| - p.endChar
  }

  /** Where what is asked for and there stops. */
  function Stop(text: string, start: int, end: Option<int>): nat {
    if EndChar(text, start, end) <= |text| then EndChar(text, start, end) else |text|
  }

  lemma WholePageForm(text: string, start: int, end: Option<int>)
    requires |Requested(text, start, end)| <= 127600
    ensures var first := StartChar(text, start);
            && first <= Stop(text, start, end) + 1
            && ShowsAll(text, first, Stop(text, start, end), EndChar(text, start, end), CharExcerpt(text, start, end))
  {
    CharRange(text, start, end);
    RoomForContent(CHAR_MODE_LIMIT);
  }

  lemma FullPageForm(text: string, start: int, end: Option<int>)
    requires |Requested(text, start, end)| > 127600
    ensures ShowsBeginning(text, StartChar(text, start), Stop(text, start, end), CharExcerpt(text, start, end))
  {
    CharRange(text, start, end);
    RoomForContent(CHAR_MODE_LIMIT);
    BeginningOf(text, StartChar(text, start) - 1, Stop(text, start, end), 127600);
  }

  /** A page of characters begins at the character asked for, moved into the text, and shows what is asked
      for and there, or the beginning of it if that is more than fits. */
  lemma CharPageForm(text: string, start: int, end: Option<int>)
    ensures var p, last := CharExcerpt(text, start, end), EndChar(text, start, end);
            var stop := if last <= |text| then last else |text|;
            && Clamped(start, 1, if |text| == 0 then 1 else |text|, p.startChar)
            && LastAsked(start, end, p.startChar, last) && p.startChar <= stop + 1
            && (ShowsAll(text, p.startChar, stop, last, p) || ShowsBeginning(text, p.startChar, stop, p))
  {
    CharRange(text, start, end);
    RoomForContent(CHAR_MODE_LIMIT);
    if |Requested(text, start, end)| > 127600 {
      FullPageForm(text, start, end);
    } else {
      WholePageForm(text, start, end);
    }
  }

  lemma BeginningOf(text: string, from: nat, to: nat, n: nat)
    requires from <= to <= |text| && n <= to - from
    ensures text[from..to][..n] == text[from..from + n]
  {
  }

  /** A page counts its lines by the line feeds before it and in it; only an empty page shows none. */
  lemma CharPageCountsLines(text: string, start: int, end: Option<int>)
    ensures var p := CharExcerpt(text, start, end);
            && p.startChar - 1 <= |text|
            && p.startLine == LineFeeds(text[..p.startChar - 1]) + 1
            && p.endLine == p.startLine + LineFeeds(p.shown)
            && p.shownLines == (if p.shown == "" then 0 else LineFeeds(p.shown) + 1)
  {
    var p := CharExcerpt(text, start, end);
    NewlinesAreCounted(text[..p.startChar - 1]);
    NewlinesAreCounted(p.shown);
  }
}
