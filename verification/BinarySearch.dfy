/** Byte-level search of a file read in chunks: the tail of each window is carried over so that
    matches across a chunk boundary are found. */
module BinarySearch {
  import Sequences

  newtype Byte = b: int | 0 <= b < 256

  type Bytes = seq<Byte>

  const DEFAULT_SEARCH_LIMIT: int := 10
  const MAX_SEARCH_LIMIT: int := 50

  /** ASCII letters compare without case; every other byte is itself. */
  function Fold(b: Byte): Byte {
    if 65 <= b <= 90 then b + 32 else b
  }

  predicate MatchAt(s: Bytes, needle: Bytes, i: int) {
    0 <= i && i + |needle| <= |s| && forall k :: i <= k < i + |needle| ==> Fold(s[k]) == Fold(needle[k - i])
  }

  /** Offsets of the leftmost non-overlapping matches from `p` on. */
  function FindFrom(s: Bytes, needle: Bytes, p: nat): seq<int>
    requires needle != []
    decreases |s| - p
  {
    if p + |needle| > |s| then []
    else if MatchAt(s, needle, p) then [p] + FindFrom(s, needle, p + |needle|)
    else FindFrom(s, needle, p + 1)
  }

  /** What one window reports: matches that do not lie inside the carried bytes, as file offsets. */
  function Report(matches: seq<int>, length: nat, carried: nat, start: int): seq<int> {
    if matches == [] then []
    else (if matches[0] + length <= carried then [] else [start + matches[0]])
         + Report(matches[1..], length, carried, start)
  }

  /** The last `overlap` bytes, or all if there are fewer. */
  function Carry(window: Bytes, overlap: nat): Bytes {
    if |window| <= overlap then window else Carry(window[1..], overlap)
  }

  function StreamHits(chunks: seq<Bytes>, needle: Bytes, carry: Bytes, scanned: int): seq<int>
    requires needle != []
    decreases |chunks|
  {
    if chunks == [] then []
    else
      var window := carry + chunks[0];
      Report(FindFrom(window, needle, 0), |needle|, |carry|, scanned - |carry|)
      + StreamHits(chunks[1..], needle, Carry(window, |needle| - 1), scanned + |chunks[0]|)
  }

  function Flatten(chunks: seq<Bytes>): Bytes {
    if chunks == [] then [] else chunks[0] + Flatten(chunks[1..])
  }

  function Cap(limit: int): (cap: nat)
    ensures 1 <= cap <= MAX_SEARCH_LIMIT
  {
    var asked := if limit == 0 then DEFAULT_SEARCH_LIMIT else limit;
    if asked < 1 then 1 else if asked > MAX_SEARCH_LIMIT then MAX_SEARCH_LIMIT else asked
  }

  datatype SearchResult = QueryRequired | Hits(offsets: seq<int>, overflow: bool, scannedBytes: nat)

  /** The same byte, or the same ASCII letter in the other case. */
  predicate SameLetter(a: Byte, b: Byte) {
    a == b || (65 <= a <= 90 && b == a + 32) || (65 <= b <= 90 && a == b + 32)
  }

  /** The needle matches where every byte of it is the file's, up to the case of ASCII letters. */
  lemma MatchIgnoresCase(s: Bytes, needle: Bytes, i: int)
    ensures MatchAt(s, needle, i)
            <==> 0 <= i && i + |needle| <= |s| && forall k :: 0 <= k < |needle| ==> SameLetter(s[i + k], needle[k])
  {
    if MatchAt(s, needle, i) {
      forall k | 0 <= k < |needle|
        ensures SameLetter(s[i + k], needle[k])
      {
        assert needle[k] == needle[i + k - i];
      }
    }
  }

  /** Ten hits are reported unless a number is given, and never fewer than one or more than fifty. */
  lemma HitLimit(limit: int)
    ensures (limit == 0 ==> Cap(limit) == 10) && (1 <= limit <= 50 ==> Cap(limit) == limit)
    ensures (limit < 0 ==> Cap(limit) == 1) && (limit > 50 ==> Cap(limit) == 50)
  {
  }

  // ---------------------------------------------------------------- the streaming loop

  method SearchBinaryTarget(chunks: seq<Bytes>, needle: Bytes, limit: int) returns (result: SearchResult)
    ensures result.QueryRequired? <==> needle == []
    ensures needle != [] ==>
              var all := StreamHits(chunks, needle, [], 0);
              && (result.overflow <==> |all| > Cap(limit))
              && result.offsets == (if result.overflow then all[..Cap(limit)] else all)
              && (!result.overflow ==> result.scannedBytes == |Flatten(chunks)|)
  {
    if needle == [] {
      return QueryRequired;
    }
    var maxHits, overlap := Cap(limit), |needle| - 1;
    var hits: seq<int>, scanned, carry: Bytes := [], 0, [];
    ghost var all := StreamHits(chunks, needle, [], 0);
    for c := 0 to |chunks|
      invariant hits + StreamHits(chunks[c..], needle, carry, scanned) == all
      invariant |hits| <= maxHits
      invariant scanned + |Flatten(chunks[c..])| == |Flatten(chunks)|
    {
      assert chunks[c..][1..] == chunks[c + 1..];
      var window := carry + chunks[c];
      var overflow;
      ghost var later := StreamHits(chunks[c + 1..], needle, Carry(window, overlap), scanned + |chunks[c]|);
      ghost var before := hits;
      ghost var report := Report(FindFrom(window, needle, 0), |needle|, |carry|, scanned - |carry|);
      assert StreamHits(chunks[c..], needle, carry, scanned) == report + later;
      Sequences.Regroup(before, report, later);
      hits, overflow := ScanWindow(window, needle, |carry|, scanned - |carry|, hits, maxHits);
      if overflow {
        FirstOf(hits, before + report, later, maxHits);
        return Hits(hits[..maxHits], true, 0);
      }
      scanned := scanned + |chunks[c]|;
      carry := Carry(window, overlap);
    }
    assert chunks[|chunks|..] == [];
    return Hits(hits, false, scanned);
  }

  lemma FirstOf(some: seq<int>, part: seq<int>, later: seq<int>, n: nat)
    requires some <= part && |some| == n + 1
    ensures |part + later| > n && some[..n] == (part + later)[..n]
  {
  }

  /** The loop over the matches of one window; stops at the first hit beyond the cap. */
  method ScanWindow(window: Bytes, needle: Bytes, carried: nat, windowStart: int, before: seq<int>, maxHits: nat)
    returns (hits: seq<int>, overflow: bool)
    requires needle != [] && |before| <= maxHits
    ensures var report := Report(FindFrom(window, needle, 0), |needle|, carried, windowStart);
            && (overflow <==> |before + report| > maxHits)
            && (overflow ==> |hits| == maxHits + 1 && hits <= before + report)
            && (!overflow ==> hits == before + report)
  {
    var matches := FindFrom(window, needle, 0);
    ghost var report := Report(matches, |needle|, carried, windowStart);
    hits, overflow := before, false;
    for m := 0 to |matches|
      invariant |hits| <= maxHits
      invariant hits + Report(matches[m..], |needle|, carried, windowStart) == before + report
    {
      assert matches[m..][1..] == matches[m + 1..];
      if matches[m] + |needle| > carried {
        hits := hits + [windowStart + matches[m]];
        if |hits| > maxHits {
          return hits, true;
        }
      }
    }
    assert matches[|matches|..] == [];
  }

  // ---------------------------------------------------------------- what the hits are

  ghost predicate Increasing(s: seq<int>) {
    forall i, j :: 0 <= i < j < |s| ==> s[i] < s[j]
  }

  /** Some offset of `hits` starts a match that touches position `i` no later than `i`. */
  ghost predicate Covered(hits: seq<int>, length: nat, i: int) {
    exists h :: h in hits && h <= i < h + length
  }

  /** All offsets at which the needle occurs. */
  ghost function Occurrences(s: Bytes, needle: Bytes): (occ: set<int>)
    ensures forall i :: i in occ <==> MatchAt(s, needle, i)
  {
    set i | 0 <= i <= |s| && MatchAt(s, needle, i)
  }

  /** `hits` account for the occurrences in `occ` whose last byte lies in `from..to`: they are such
      occurrences, in order, and every such occurrence overlaps one of them. */
  ghost predicate HitsOf(occ: set<int>, length: nat, from: int, to: int, hits: seq<int>) {
    && Increasing(hits)
    && (forall j :: 0 <= j < |hits| ==> hits[j] in occ && from < hits[j] + length <= to)
    && (forall i {:trigger Covered(hits, length, i)} :: i in occ && from < i + length <= to ==>
         Covered(hits, length, i))
  }

  lemma CoveredConcat(now: seq<int>, later: seq<int>, length: nat, i: int)
    requires Covered(now, length, i) || Covered(later, length, i)
    ensures Covered(now + later, length, i)
  {
    var h :| (h in now || h in later) && h <= i < h + length;
    assert h in now + later;
  }

  lemma HitsConcat(occ: set<int>, length: nat, from: int, mid: int, to: int, now: seq<int>, later: seq<int>)
    requires HitsOf(occ, length, from, mid, now) && HitsOf(occ, length, mid, to, later)
    requires from <= mid && (mid <= to || forall i :: i in occ ==> i + length <= to)
    ensures HitsOf(occ, length, from, to, now + later)
  {
    forall i | i in occ && from < i + length <= to
      ensures Covered(now + later, length, i)
    {
      assert Covered(now, length, i) || Covered(later, length, i);
      CoveredConcat(now, later, length, i);
    }
  }

  lemma OccurrencesFit(s: Bytes, needle: Bytes)
    ensures forall i :: i in Occurrences(s, needle) ==> 0 <= i && i + |needle| <= |s|
  {
  }

  lemma NothingLeft(occ: set<int>, length: nat, from: int, to: int)
    requires forall i :: i in occ ==> i + length <= to
    requires to <= from
    ensures HitsOf(occ, length, from, to, [])
  {
  }

  lemma NothingHere(occ: set<int>, length: nat, p: int, to: int, hits: seq<int>)
    requires p !in occ && HitsOf(occ, length, p + length, to, hits)
    ensures HitsOf(occ, length, p + length - 1, to, hits)
  {
    forall i | i in occ && p + length - 1 < i + length <= to
      ensures Covered(hits, length, i)
    {
      assert i != p;
    }
  }

  lemma FoundHere(occ: set<int>, length: nat, p: int)
    requires p in occ && length > 0
    ensures HitsOf(occ, length, p + length - 1, p + length + length - 1, [p])
  {
    forall i | i in occ && p + length - 1 < i + length <= p + length + length - 1
      ensures Covered([p], length, i)
    {
      assert p in [p];
    }
  }

  lemma FoundThen(occ: set<int>, length: nat, p: int, to: int, later: seq<int>)
    requires p in occ && length > 0 && forall i :: i in occ ==> i + length <= to
    requires HitsOf(occ, length, p + length + length - 1, to, later)
    ensures HitsOf(occ, length, p + length - 1, to, [p] + later)
  {
    FoundHere(occ, length, p);
    HitsConcat(occ, length, p + length - 1, p + length + length - 1, to, [p], later);
  }

  lemma FindUnfolds(s: Bytes, needle: Bytes, p: nat)
    requires needle != [] && p + |needle| <= |s|
    ensures FindFrom(s, needle, p)
            == if p in Occurrences(s, needle) then [p] + FindFrom(s, needle, p + |needle|)
               else FindFrom(s, needle, p + 1)
  {
  }

  lemma {:induction false} FindFromFinds(s: Bytes, needle: Bytes, p: nat)
    requires needle != []
    ensures HitsOf(Occurrences(s, needle), |needle|, p + |needle| - 1, |s|, FindFrom(s, needle, p))
    decreases |s| - p
  {
    var occ, n := Occurrences(s, needle), |needle|;
    OccurrencesFit(s, needle);
    if p + n > |s| {
      NothingLeft(occ, n, p + n - 1, |s|);
    } else {
      FindUnfolds(s, needle, p);
      FindFromFinds(s, needle, if p in occ then p + n else p + 1);
      if p in occ {
        FoundThen(occ, n, p, |s|, FindFrom(s, needle, p + n));
      } else {
        NothingHere(occ, n, p, |s|, FindFrom(s, needle, p + 1));
      }
    }
  }

  /** No match lies inside the carried bytes, so a window reports everything it finds. */
  lemma {:induction false} ReportIsShift(matches: seq<int>, length: nat, carried: nat, start: int)
    requires carried < length && forall i :: 0 <= i < |matches| ==> 0 <= matches[i]
    ensures |Report(matches, length, carried, start)| == |matches|
    ensures forall i :: 0 <= i < |matches| ==> Report(matches, length, carried, start)[i] == start + matches[i]
  {
    if matches != [] {
      assert forall i :: 0 <= i < |matches[1..]| ==> matches[1..][i] == matches[i + 1];
      ReportIsShift(matches[1..], length, carried, start);
    }
  }

  lemma OccurrencesInPlace(whole: Bytes, needle: Bytes, base: nat, window: Bytes, m: int)
    requires base + |window| <= |whole| && whole[base..base + |window|] == window
    requires 0 <= m && m + |needle| <= |window|
    ensures m in Occurrences(window, needle) <==> base + m in Occurrences(whole, needle)
  {
    assert forall k :: 0 <= k < |window| ==> window[k] == whole[base + k];
    assert forall k :: base <= k < base + |window| ==> whole[k] == window[k - base];
  }

  /** Hits found in a window are hits of the file at the window's place. */
  lemma HitsShift(occ: set<int>, occ': set<int>, length: nat, base: int, from: int, to: int, hits: seq<int>,
      shifted: seq<int>)
    requires HitsOf(occ, length, from, to, hits)
    requires forall i {:trigger i in occ'} :: base + from < i + length <= base + to ==> (i in occ' <==> i - base in occ)
    requires |shifted| == |hits| && forall j :: 0 <= j < |hits| ==> shifted[j] == base + hits[j]
    ensures HitsOf(occ', length, base + from, base + to, shifted)
  {
    forall i | i in occ' && base + from < i + length <= base + to
      ensures Covered(shifted, length, i)
    {
      assert Covered(hits, length, i - base);
      var h :| h in hits && h <= i - base < h + length;
      var j :| 0 <= j < |hits| && hits[j] == h;
      assert shifted[j] in shifted;
    }
  }

  lemma OccurrencesOfWindow(whole: Bytes, needle: Bytes, base: nat, window: Bytes, from: int)
    requires base + |window| <= |whole| && whole[base..base + |window|] == window
    requires base > 0 ==> from >= |needle| - 1
    ensures forall i {:trigger i in Occurrences(whole, needle)} :: base + from < i + |needle| <= base + |window| ==>
              (i in Occurrences(whole, needle) <==> i - base in Occurrences(window, needle))
  {
    forall i | base + from < i + |needle| <= base + |window|
      ensures i in Occurrences(whole, needle) <==> i - base in Occurrences(window, needle)
    {
      if i >= base {
        OccurrencesInPlace(whole, needle, base, window, i - base);
      }
    }
  }

  /** A match never ends inside the carried bytes. */
  lemma NothingEndsEarlier(occ: set<int>, length: nat, from: int, from': int, to: int, hits: seq<int>)
    requires HitsOf(occ, length, from, to, hits) && from' <= from < length
    requires forall i :: i in occ ==> 0 <= i
    requires from' < from ==> from == length - 1
    ensures HitsOf(occ, length, from', to, hits)
  {
  }

  /** The hits of one window, in place. */
  lemma WindowHits(whole: Bytes, needle: Bytes, base: nat, window: Bytes, carried: nat)
    requires needle != [] && carried < |needle| && (base > 0 ==> carried == |needle| - 1)
    requires base + |window| <= |whole| && whole[base..base + |window|] == window
    ensures HitsOf(Occurrences(whole, needle), |needle|, base + carried, base + |window|,
                   Report(FindFrom(window, needle, 0), |needle|, carried, base))
  {
    var occ, found, n := Occurrences(window, needle), FindFrom(window, needle, 0), |needle|;
    FindFromFinds(window, needle, 0);
    NothingEndsEarlier(occ, n, n - 1, carried, |window|, found);
    assert forall j :: 0 <= j < |found| ==> found[j] in occ && 0 <= found[j];
    ReportIsShift(found, n, carried, base);
    OccurrencesOfWindow(whole, needle, base, window, carried);
    HitsShift(occ, Occurrences(whole, needle), n, base, carried, |window|, found, Report(found, n, carried, base));
  }

  lemma {:induction false} CarryIsTail(window: Bytes, overlap: nat)
    ensures Carry(window, overlap) == if |window| <= overlap then window else window[|window| - overlap..]
  {
    if |window| > overlap {
      CarryIsTail(window[1..], overlap);
    }
  }

  /** What is carried on is the tail of all that has been read. */
  lemma {:induction false} CarryOnward(pre: Bytes, chunk: Bytes, overlap: nat)
    ensures Carry(Carry(pre, overlap) + chunk, overlap) == Carry(pre + chunk, overlap)
  {
    if |pre| > overlap {
      assert (pre + chunk)[1..] == pre[1..] + chunk;
      CarryOnward(pre[1..], chunk, overlap);
    }
  }

  lemma SliceOfRest(s: Bytes, more: Bytes, i: nat, j: nat)
    requires s != [] && i <= j < |s| + |more|
    ensures (s + more)[i + 1..j + 1] == (s[1..] + more)[i..j]
  {
    assert (s + more)[1..] == s[1..] + more;
  }

  /** The carried bytes and the chunk lie together in the file. */
  lemma {:induction false} WindowPlace(pre: Bytes, chunk: Bytes, rest: Bytes, overlap: nat)
    ensures var carry := Carry(pre, overlap);
            && |carry| == (if |pre| <= overlap then |pre| else overlap)
            && (pre + (chunk + rest))[|pre| - |carry|..|pre| + |chunk|] == carry + chunk
  {
    if |pre| <= overlap {
      Sequences.Regroup(pre, chunk, rest);
    } else {
      WindowPlace(pre[1..], chunk, rest, overlap);
      SliceOfRest(pre, chunk + rest, |pre| - 1 - |Carry(pre, overlap)|, |pre| - 1 + |chunk|);
    }
  }

  /** The hits of the next window. */
  lemma NextHits(whole: Bytes, pre: Bytes, chunk: Bytes, rest: Bytes, needle: Bytes)
    requires needle != [] && whole == pre + (chunk + rest)
    ensures var carry := Carry(pre, |needle| - 1);
            HitsOf(Occurrences(whole, needle), |needle|, |pre|, |pre| + |chunk|,
                   Report(FindFrom(carry + chunk, needle, 0), |needle|, |carry|, |pre| - |carry|))
  {
    var carry := Carry(pre, |needle| - 1);
    WindowPlace(pre, chunk, rest, |needle| - 1);
    WindowHits(whole, needle, |pre| - |carry|, carry + chunk, |carry|);
  }

  lemma {:induction false} StreamHitsFrom(whole: Bytes, pre: Bytes, chunks: seq<Bytes>, needle: Bytes)
    requires whole == pre + Flatten(chunks) && needle != []
    ensures HitsOf(Occurrences(whole, needle), |needle|, |pre|, |whole|,
                   StreamHits(chunks, needle, Carry(pre, |needle| - 1), |pre|))
    decreases |chunks|
  {
    if chunks != [] {
      var chunk, rest, carry := chunks[0], Flatten(chunks[1..]), Carry(pre, |needle| - 1);
      CarryOnward(pre, chunk, |needle| - 1);
      Sequences.Regroup(pre, chunk, rest);
      StreamHitsFrom(whole, pre + chunk, chunks[1..], needle);
      NextHits(whole, pre, chunk, rest, needle);
      StreamStep(Occurrences(whole, needle), needle, chunks, carry, |pre|, |whole|);
    }
  }

  lemma StreamStep(occ: set<int>, needle: Bytes, chunks: seq<Bytes>, carry: Bytes, scanned: int, to: int)
    requires needle != [] && chunks != []
    requires HitsOf(occ, |needle|, scanned, scanned + |chunks[0]|,
                    Report(FindFrom(carry + chunks[0], needle, 0), |needle|, |carry|, scanned - |carry|))
    requires HitsOf(occ, |needle|, scanned + |chunks[0]|, to,
                    StreamHits(chunks[1..], needle, Carry(carry + chunks[0], |needle| - 1), scanned + |chunks[0]|))
    requires scanned + |chunks[0]| <= to
    ensures HitsOf(occ, |needle|, scanned, to, StreamHits(chunks, needle, carry, scanned))
  {
    HitsConcat(occ, |needle|, scanned, scanned + |chunks[0]|, to,
               Report(FindFrom(carry + chunks[0], needle, 0), |needle|, |carry|, scanned - |carry|),
               StreamHits(chunks[1..], needle, Carry(carry + chunks[0], |needle| - 1), scanned + |chunks[0]|));
  }

  /** Streaming refines searching the whole file: for every split into chunks the hits are genuine
      occurrences at strictly increasing offsets, and every occurrence of the file overlaps a hit
      that starts no later. */
  lemma StreamingFindsWholeFile(chunks: seq<Bytes>, needle: Bytes)
    requires needle != []
    ensures HitsOf(Occurrences(Flatten(chunks), needle), |needle|, 0, |Flatten(chunks)|,
            StreamHits(chunks, needle, [], 0))
  {
    assert [] + Flatten(chunks) == Flatten(chunks);
    StreamHitsFrom(Flatten(chunks), [], chunks, needle);
  }

  /** The needle agrees with itself shifted by `d`. */
  predicate SelfAgrees(needle: Bytes, d: nat) {
    forall k :: d <= k < |needle| ==> Fold(needle[k]) == Fold(needle[k - d])
  }

  ghost predicate Unbordered(needle: Bytes) {
    forall d: nat :: 0 < d < |needle| ==> !SelfAgrees(needle, d)
  }

  lemma UnborderedMatchesDoNotOverlap(file: Bytes, needle: Bytes, i: int, j: int)
    requires Unbordered(needle) && MatchAt(file, needle, i) && MatchAt(file, needle, j) && i <= j < i + |needle|
    ensures i == j
  {
    var d: nat := j - i;
    forall k | d <= k < |needle|
      ensures Fold(needle[k]) == Fold(needle[k - d])
    {
      assert Fold(file[i + k]) == Fold(needle[i + k - i]) && Fold(file[i + k]) == Fold(needle[i + k - j]);
    }
    assert SelfAgrees(needle, d);
  }

  /** For a needle without self-overlap the hits are exactly all occurrences, so they do not depend
      on how the file was split. */
  lemma UnborderedNeedleIsExact(chunks: seq<Bytes>, needle: Bytes)
    requires needle != [] && Unbordered(needle)
    ensures forall i :: i in StreamHits(chunks, needle, [], 0) <==> MatchAt(Flatten(chunks), needle, i)
  {
    var file, hits := Flatten(chunks), StreamHits(chunks, needle, [], 0);
    StreamingFindsWholeFile(chunks, needle);
    forall i | MatchAt(file, needle, i)
      ensures i in hits
    {
      assert Covered(hits, |needle|, i);
      var h :| h in hits && h <= i < h + |needle|;
      UnborderedMatchesDoNotOverlap(file, needle, h, i);
    }
  }

  lemma IncreasingTail(s: seq<int>)
    requires Increasing(s) && s != []
    ensures Increasing(s[1..]) && forall x :: x in s[1..] <==> x in s && x != s[0]
    ensures forall x :: x in s ==> s[0] <= x
  {
    assert s == [s[0]] + s[1..];
  }

  lemma {:induction false} SameElementsSameSequence(s: seq<int>, t: seq<int>)
    requires Increasing(s) && Increasing(t) && forall x :: x in s <==> x in t
    ensures s == t
  {
    assert |t| > 0 ==> t[0] in t && t[0] in s;
    if s != [] {
      assert s[0] in s && s[0] in t;
      IncreasingTail(s);
      IncreasingTail(t);
      SameElementsSameSequence(s[1..], t[1..]);
    }
  }

  lemma ChunkingDoesNotMatter(chunks: seq<Bytes>, chunks': seq<Bytes>, needle: Bytes)
    requires needle != [] && Unbordered(needle) && Flatten(chunks) == Flatten(chunks')
    ensures StreamHits(chunks, needle, [], 0) == StreamHits(chunks', needle, [], 0)
  {
    UnborderedNeedleIsExact(chunks, needle);
    UnborderedNeedleIsExact(chunks', needle);
    StreamingFindsWholeFile(chunks, needle);
    StreamingFindsWholeFile(chunks', needle);
    SameElementsSameSequence(StreamHits(chunks, needle, [], 0), StreamHits(chunks', needle, [], 0));
  }

  /** The needle's first `d` bytes and then the needle: two occurrences that overlap. */
  function Overlapping(needle: Bytes, d: nat): Bytes
    requires d <= |needle|
  {
    needle[..d] + needle
  }

  lemma OverlappingOccurrences(needle: Bytes, d: nat)
    requires 0 < d < |needle| && SelfAgrees(needle, d)
    ensures MatchAt(Overlapping(needle, d), needle, 0) && MatchAt(Overlapping(needle, d), needle, d)
  {
    var file := Overlapping(needle, d);
    assert forall k :: 0 <= k < d ==> file[k] == needle[k];
    assert forall k :: d <= k < d + |needle| ==> file[k] == needle[k - d];
  }

  lemma FindsOnlyFirst(window: Bytes, needle: Bytes)
    requires needle != [] && MatchAt(window, needle, 0) && |window| < 2 * |needle|
    ensures Report(FindFrom(window, needle, 0), |needle|, 0, 0) == [0]
  {
    assert FindFrom(window, needle, |needle|) == [];
    assert FindFrom(window, needle, 0) == [0];
    var zero: seq<int> := [0];
    assert zero[1..] == [];
  }

  lemma OneChunkHits(file: Bytes, needle: Bytes)
    requires needle != [] && MatchAt(file, needle, 0) && |file| < 2 * |needle|
    ensures Flatten([file]) == file && StreamHits([file], needle, [], 0) == [0]
  {
    assert [] + file == file && [file][1..] == [];
    FindsOnlyFirst(file, needle);
  }

  lemma SomethingIsHit(occ: set<int>, length: nat, from: int, to: int, hits: seq<int>, i: int)
    requires HitsOf(occ, length, from, to, hits) && i in occ && from < i + length <= to
    ensures hits != []
  {
    assert Covered(hits, length, i);
  }

  lemma OneChunk(tail: Bytes)
    ensures Flatten([tail]) == tail
  {
    assert [tail][1..] == [];
  }

  /** The second chunk reports the second occurrence, or one that overlaps it. */
  lemma SecondChunkHits(file: Bytes, needle: Bytes, d: nat)
    requires 0 < d < |needle| && |file| == d + |needle| && MatchAt(file, needle, d)
    ensures StreamHits([file[|needle|..]], needle, Carry(file[..|needle|], |needle| - 1), |needle|) != []
  {
    var n := |needle|;
    var head, tail := file[..n], file[n..];
    OneChunk(tail);
    StreamHitsFrom(file, head, [tail], needle);
    SomethingIsHit(Occurrences(file, needle), n, n, |file|, StreamHits([tail], needle, Carry(head, n - 1), n), d);
  }

  lemma TwoChunkHits(file: Bytes, needle: Bytes, d: nat)
    requires 0 < d < |needle| && |file| == d + |needle| && MatchAt(file, needle, 0) && MatchAt(file, needle, d)
    ensures Flatten([file[..|needle|], file[|needle|..]]) == file
    ensures |StreamHits([file[..|needle|], file[|needle|..]], needle, [], 0)| >= 2
  {
    var head, tail := file[..|needle|], file[|needle|..];
    assert [head, tail][1..] == [tail] && [tail][1..] == [] && [] + head == head && Flatten([tail]) == tail;
    assert file == head + tail;
    FindsOnlyFirst(head, needle);
    SecondChunkHits(file, needle, d);
    assert StreamHits([head, tail], needle, [], 0)
           == [0] + StreamHits([tail], needle, Carry(head, |needle| - 1), |needle|);
  }

  /** A needle that overlaps itself is reported once or twice in the same file, depending on where
      the file is cut. */
  lemma SelfOverlapDependsOnChunks(needle: Bytes, d: nat)
    requires 0 < d < |needle| && SelfAgrees(needle, d)
    ensures var file := Overlapping(needle, d);
            var halves := [file[..|needle|], file[|needle|..]];
            && Flatten([file]) == Flatten(halves)
            && StreamHits([file], needle, [], 0) == [0] && |StreamHits(halves, needle, [], 0)| >= 2
  {
    var file := Overlapping(needle, d);
    OverlappingOccurrences(needle, d);
    OneChunkHits(file, needle);
    TwoChunkHits(file, needle, d);
  }

  ghost predicate SplitsAgree(needle: Bytes)
    requires needle != []
  {
    forall chunks, chunks' :: Flatten(chunks) == Flatten(chunks') ==>
      StreamHits(chunks, needle, [], 0) == StreamHits(chunks', needle, [], 0)
  }

  /** The exact condition: all splits of all files agree if and only if the needle has no overlap
      with itself. */
  lemma SplitsAgreeExactly(needle: Bytes)
    requires needle != []
    ensures SplitsAgree(needle) <==> Unbordered(needle)
  {
    if Unbordered(needle) {
      forall chunks, chunks' | Flatten(chunks) == Flatten(chunks')
        ensures StreamHits(chunks, needle, [], 0) == StreamHits(chunks', needle, [], 0)
      {
        ChunkingDoesNotMatter(chunks, chunks', needle);
      }
    } else {
      var d: nat :| 0 < d < |needle| && SelfAgrees(needle, d);
      SelfOverlapDependsOnChunks(needle, d);
    }
  }
}
