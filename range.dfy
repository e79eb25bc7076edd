/**
 * range.ts: RangeBuilder, the table of line text spans of a source and the
 * mapping of an offset to a 1-based (line, column) position.
 *
 * The table is what the global regex `(.*)(\r?\n|$)` yields when exec is
 * called until the line ending it matches is empty. `.` matches anything but
 * a line terminator and `$` only the end of input, so a match exists at a
 * start exactly when the line text from there is ended by LF, by CR LF or by
 * the end of input; a lone CR, U+2028 or U+2029 makes exec search further.
 */
module Range {
  import opened Wrappers
  import opened Escapes

  /** IndexRange of range.ts:3-6: the offsets of one line's text. */
  datatype IndexRange = IndexRange(start: nat, end: nat)

  /** The (line, column) pair getPosition constructs, both counted from 1. */
  datatype Position = Position(line: int, character: int)

  /** What getPosition gives: a position, undefined when the search finds no
      span, or a TypeError when it reads the span before the first one. */
  datatype Location = At(position: Position) | Undefined | Throws

  /** The end of `.*` from p: the first line terminator, or the end. */
  function TextEnd(s: string, p: nat): (q: nat)
    requires p <= |s|
    ensures p <= q <= |s|
    decreases |s| - p
  {
    if p == |s| || IsLineTerminator(s[p]) then p else TextEnd(s, p + 1)
  }

  /** `.*` takes no line terminator and stops at one or at the end. */
  lemma {:induction false} TextEndStops(s: string, p: nat)
    requires p <= |s|
    ensures var q := TextEnd(s, p);
      && (forall k :: p <= k < q ==> !IsLineTerminator(s[k]))
      && (q < |s| ==> IsLineTerminator(s[q]))
    decreases |s| - p
  {
    if p < |s| && !IsLineTerminator(s[p]) {
      TextEndStops(s, p + 1);
    }
  }

  /** [a, b) is the text of a line: `.*` from a stops at b. */
  predicate IsLineText(s: string, a: nat, b: nat)
    requires a <= |s|
  {
    b == TextEnd(s, a)
  }

  /** The length `(\r?\n|$)` matches at q, if it matches there. */
  function EndingAt(s: string, q: nat): (n: Option<nat>)
    requires q <= |s|
    ensures n == Some(0) <==> q == |s|
    ensures n == Some(1) <==> q < |s| && s[q] == '\n'
    ensures n == Some(2) <==> q + 1 < |s| && s[q] == '\r' && s[q + 1] == '\n'
    ensures n.Some? ==> n.value <= 2
  {
    if q == |s| then Some(0)
    else if s[q] == '\n' then Some(1)
    else if s[q] == '\r' && q + 1 < |s| && s[q + 1] == '\n' then Some(2)
    else None
  }

  /** The line regex matches at start k. */
  predicate MatchesAt(s: string, k: nat)
    requires k <= |s|
  {
    EndingAt(s, TextEnd(s, k)).Some?
  }

  /** One exec result: the line text is [start, end), the line ending has
      the given length. */
  datatype LineMatch = LineMatch(start: nat, end: nat, ending: nat)

  /** exec of the line regex from lastIndex p: the leftmost start at which
      the regex matches. */
  function ExecLine(s: string, p: nat): (m: LineMatch)
    requires p <= |s|
    ensures p <= m.start <= m.end && m.end + m.ending <= |s|
    decreases |s| - p
  {
    var q := TextEnd(s, p);
    match EndingAt(s, q)
    case Some(n) => LineMatch(p, q, n)
    case None => ExecLine(s, p + 1)
  }

  /** The match exec finds is a line text and the line ending after it. */
  lemma {:induction false} ExecLineMatch(s: string, p: nat)
    requires p <= |s|
    ensures var m := ExecLine(s, p);
      m.end == TextEnd(s, m.start) && EndingAt(s, m.end) == Some(m.ending)
    decreases |s| - p
  {
    if EndingAt(s, TextEnd(s, p)).None? {
      ExecLineMatch(s, p + 1);
    }
  }

  /** exec finds the leftmost start at which the regex matches. */
  lemma {:induction false} ExecLineLeftmost(s: string, p: nat)
    requires p <= |s|
    ensures forall k :: p <= k < ExecLine(s, p).start ==> !MatchesAt(s, k)
    decreases |s| - p
  {
    if EndingAt(s, TextEnd(s, p)).None? {
      ExecLineLeftmost(s, p + 1);
    }
  }

  /** How many matches exec finds from p on, up to the first whose line
      ending is empty. */
  function LineCount(s: string, p: nat): (n: nat)
    requires p <= |s|
    ensures n >= 1
    decreases |s| - p
  {
    var m := ExecLine(s, p);
    if m.ending == 0 then 1 else 1 + LineCount(s, m.end + m.ending)
  }

  /** The spans the constructor's loop holds when it stops, if it holds
      ranges when lastIndex is p: push the text span of the match, stop
      after the match whose line ending is empty. */
  function Scan(s: string, p: nat, ranges: seq<IndexRange>): (t: seq<IndexRange>)
    requires p <= |s|
    ensures |t| == |ranges| + LineCount(s, p)
    decreases |s| - p
  {
    var m := ExecLine(s, p);
    var pushed := ranges + [IndexRange(m.start, m.end)];
    if m.ending == 0 then pushed else Scan(s, m.end + m.ending, pushed)
  }

  /** The table the constructor builds. */
  function LineTable(s: string): (t: seq<IndexRange>)
    ensures |t| == LineCount(s, 0)
  {
    Scan(s, 0, [])
  }

  /** The text of the k-th match exec finds from p on. */
  function LineAt(s: string, p: nat, k: nat): IndexRange
    requires p <= |s| && k < LineCount(s, p)
    decreases |s| - p
  {
    var m := ExecLine(s, p);
    if k == 0 then IndexRange(m.start, m.end) else LineAt(s, m.end + m.ending, k - 1)
  }

  /** The loop keeps the spans it holds and pushes the text of each match
      after them. */
  lemma {:induction false} ScanAt(s: string, p: nat, ranges: seq<IndexRange>, k: nat)
    requires p <= |s| && |ranges| <= k < |ranges| + LineCount(s, p)
    ensures Scan(s, p, ranges)[k] == LineAt(s, p, k - |ranges|)
    decreases |s| - p
  {
    var m := ExecLine(s, p);
    var pushed := ranges + [IndexRange(m.start, m.end)];
    if m.ending != 0 && k > |ranges| {
      ScanAt(s, m.end + m.ending, pushed, k);
    } else if m.ending != 0 {
      ScanKeeps(s, m.end + m.ending, pushed, k);
    }
  }

  /** The loop never changes a span it holds. */
  lemma {:induction false} ScanKeeps(s: string, p: nat, ranges: seq<IndexRange>, k: nat)
    requires p <= |s| && k < |ranges|
    ensures Scan(s, p, ranges)[k] == ranges[k]
    decreases |s| - p
  {
    var m := ExecLine(s, p);
    if m.ending != 0 {
      ScanKeeps(s, m.end + m.ending, ranges + [IndexRange(m.start, m.end)], k);
    }
  }

  /** The table holds one span per match, the k-th match's text at k. */
  lemma LineTableAt(s: string, k: nat)
    requires k < |LineTable(s)|
    ensures |LineTable(s)| == LineCount(s, 0) && LineTable(s)[k] == LineAt(s, 0, k)
  {
    ScanAt(s, 0, [], k);
  }

  /** r is a stretch of line text from p on: no terminator inside, and a
      terminator or the end right after it. */
  predicate LineSpan(s: string, p: nat, r: IndexRange) {
    p <= r.start <= r.end <= |s| && IsLineText(s, r.start, r.end)
  }

  /** The k-th match's text is a stretch of line text lying from p on. */
  lemma {:induction false} LineAtSpan(s: string, p: nat, k: nat)
    requires p <= |s| && k < LineCount(s, p)
    ensures LineSpan(s, p, LineAt(s, p, k))
    decreases |s| - p
  {
    var m := ExecLine(s, p);
    if k == 0 {
      ExecLineMatch(s, p);
    } else {
      LineAtSpan(s, m.end + m.ending, k - 1);
    }
  }

  /** The last match's text ends at the end of the source. */
  lemma {:induction false} LineAtLast(s: string, p: nat)
    requires p <= |s|
    ensures LineAt(s, p, LineCount(s, p) - 1).end == |s|
    decreases |s| - p
  {
    var m := ExecLine(s, p);
    if m.ending == 0 {
      ExecLineMatch(s, p);
    } else {
      LineAtLast(s, m.end + m.ending);
    }
  }

  /** Match i's text ends before match j's starts, for i before j. */
  lemma {:induction false} LineAtSorted(s: string, p: nat, i: nat, j: nat)
    requires p <= |s| && i < j < LineCount(s, p)
    ensures LineAt(s, p, i).end < LineAt(s, p, j).start
    decreases |s| - p
  {
    var m := ExecLine(s, p);
    if i == 0 {
      LineAtSpan(s, m.end + m.ending, j - 1);
    } else {
      LineAtSorted(s, m.end + m.ending, i - 1, j - 1);
    }
  }

  /** Every span of the table is a stretch of line text; the last one ends
      at the end of the source. */
  lemma LineTableBounds(s: string)
    ensures var t := LineTable(s);
      && |t| >= 1 && t[|t| - 1].end == |s|
      && forall i :: 0 <= i < |t| ==> LineSpan(s, 0, t[i])
  {
    var t := LineTable(s);
    LineTableAt(s, |t| - 1);
    LineAtLast(s, 0);
    forall i | 0 <= i < |t|
      ensures LineSpan(s, 0, t[i])
    {
      LineTableAt(s, i);
      LineAtSpan(s, 0, i);
    }
  }

  /** The spans lie in order, each ending before the next starts. */
  lemma LineTableSorted(s: string)
    ensures var t := LineTable(s);
      forall i, j :: 0 <= i < j < |t| ==> t[i].end < t[j].start
  {
    var t := LineTable(s);
    forall i, j | 0 <= i < j < |t|
      ensures t[i].end < t[j].start
    {
      LineTableAt(s, i);
      LineTableAt(s, j);
      LineAtSorted(s, 0, i, j);
    }
  }

  lemma NewlineMatches(s: string, k: nat)
    requires k < |s|
    ensures s[k] == '\n' ==> MatchesAt(s, k)
  {
  }

  /** No character before the match start is an LF: at an LF the regex
      would have matched. */
  lemma ExecLineSkipsNoNewline(s: string, p: nat)
    requires p <= |s|
    ensures forall k :: p <= k < ExecLine(s, p).start ==> s[k] != '\n'
  {
    var m := ExecLine(s, p);
    ExecLineLeftmost(s, p);
    forall k | p <= k < m.start
      ensures s[k] != '\n'
    {
      NewlineMatches(s, k);
    }
  }

  /** Number of LF characters in s. */
  function Newlines(s: string): nat
    decreases |s|
  {
    if s == [] then 0 else Newlines(s[..|s| - 1]) + (if s[|s| - 1] == '\n' then 1 else 0)
  }

  lemma {:induction false} NoNewlines(s: string)
    requires forall k :: 0 <= k < |s| ==> s[k] != '\n'
    ensures Newlines(s) == 0
    decreases |s|
  {
    if s != [] {
      NoNewlines(s[..|s| - 1]);
    }
  }

  lemma {:induction false} NewlinesConcat(a: string, b: string)
    ensures Newlines(a + b) == Newlines(a) + Newlines(b)
    decreases |b|
  {
    if b == [] {
      assert a + b == a;
    } else {
      assert (a + b)[..|a + b| - 1] == a + b[..|b| - 1];
      NewlinesConcat(a, b[..|b| - 1]);
    }
  }

  lemma NewlinesSplit(s: string, a: nat, b: nat, c: nat)
    requires a <= b <= c <= |s|
    ensures Newlines(s[a..c]) == Newlines(s[a..b]) + Newlines(s[b..c])
  {
    assert s[a..c] == s[a..b] + s[b..c];
    NewlinesConcat(s[a..b], s[b..c]);
  }

  /** The line ending a match consumes holds exactly one LF. */
  lemma EndingNewlines(s: string, q: nat, n: nat)
    requires q <= |s| && EndingAt(s, q) == Some(n) && n > 0
    ensures Newlines(s[q..q + n]) == 1
  {
    if n == 1 {
      assert s[q..q + n] == ['\n'];
      assert s[q..q + n][..0] == [];
    } else {
      assert s[q..q + n] == ['\r', '\n'];
      assert s[q..q + n][..1] == ['\r'] && ['\r'][..0] == [];
    }
  }

  /** The LFs from lastIndex p on: one in the ending of the match, if it
      has one, and those after it. */
  lemma NewlinesBeforeEnding(s: string, p: nat)
    requires p <= |s|
    ensures Newlines(s[p..ExecLine(s, p).end]) == 0
  {
    var m := ExecLine(s, p);
    ExecLineMatch(s, p);
    TextEndStops(s, m.start);
    ExecLineSkipsNoNewline(s, p);
    NoNewlines(s[p..m.start]);
    NoNewlines(s[m.start..m.end]);
    NewlinesSplit(s, p, m.start, m.end);
  }

  lemma NewlinesSuffix(s: string, a: nat, b: nat)
    requires a <= b <= |s|
    ensures Newlines(s[a..]) == Newlines(s[a..b]) + Newlines(s[b..])
  {
    assert s[a..] == s[a..b] + s[b..];
    NewlinesConcat(s[a..b], s[b..]);
  }

  /** The LFs from a line ending on: the one in the ending, if it is not
      empty, and those after it. */
  lemma NewlinesFromEnding(s: string, q: nat, n: nat)
    requires q <= |s| && EndingAt(s, q) == Some(n)
    ensures Newlines(s[q..]) == if n == 0 then 0 else 1 + Newlines(s[q + n..])
  {
    if n == 0 {
      assert s[q..] == [];
    } else {
      NewlinesSuffix(s, q, q + n);
      EndingNewlines(s, q, n);
    }
  }

  lemma ExecLineNewlines(s: string, p: nat)
    requires p <= |s|
    ensures var m := ExecLine(s, p);
      Newlines(s[p..]) == if m.ending == 0 then 0 else 1 + Newlines(s[m.end + m.ending..])
  {
    var m := ExecLine(s, p);
    ExecLineMatch(s, p);
    NewlinesBeforeEnding(s, p);
    NewlinesSuffix(s, p, m.end);
    NewlinesFromEnding(s, m.end, m.ending);
  }

  /** One span per line break plus one: every ending a match consumes
      holds exactly one LF, and nothing it skips does. */
  lemma {:induction false} LineCountNewlines(s: string, p: nat)
    requires p <= |s|
    ensures LineCount(s, p) == Newlines(s[p..]) + 1
    decreases |s| - p
  {
    var m := ExecLine(s, p);
    ExecLineNewlines(s, p);
    if m.ending != 0 {
      LineCountNewlines(s, m.end + m.ending);
    }
  }

  /** The line table has one span per LF plus one, and its last span ends at
      the end of the source. */
  lemma LineTableCount(s: string)
    ensures |LineTable(s)| == Newlines(s) + 1
    ensures LineTable(s)[|LineTable(s)| - 1].end == |s|
  {
    assert s[0..] == s;
    LineCountNewlines(s, 0);
    LineTableBounds(s);
  }

  /** Spans are ordered and no span's text holds a line terminator. */
  lemma LineTableOrdered(s: string)
    ensures var t := LineTable(s);
      && (forall i :: 0 <= i < |t| ==> t[i].start <= t[i].end <= |s|)
      && (forall i, k :: 0 <= i < |t| && t[i].start <= k < t[i].end ==> !IsLineTerminator(s[k]))
      && (forall i, j :: 0 <= i < j < |t| ==> t[i].end < t[j].start)
  {
    var t := LineTable(s);
    LineTableBounds(s);
    LineTableSorted(s);
    forall i, k | 0 <= i < |t| && t[i].start <= k < t[i].end
      ensures !IsLineTerminator(s[k])
    {
      assert LineSpan(s, 0, t[i]);
      TextEndStops(s, t[i].start);
    }
  }

  /** No lone CR, U+2028 or U+2029: every line ends in LF, CR LF or the end. */
  predicate Clean(s: string) {
    forall k :: 0 <= k < |s| ==> !IsStrayTerminator(s, k)
  }

  /** In a clean source exec matches right at lastIndex. */
  lemma ExecLineClean(s: string, p: nat)
    requires p <= |s| && Clean(s)
    ensures ExecLine(s, p).start == p
  {
    var q := TextEnd(s, p);
    TextEndStops(s, p);
    if q < |s| {
      assert !IsStrayTerminator(s, q);
    }
  }

  /** Span b starts right after the line ending that follows span a: one past
      a's end after an LF, two past it after CR LF. */
  predicate FollowsEnding(s: string, a: IndexRange, b: IndexRange) {
    a.end < |s| &&
    ((s[a.end] == '\n' && b.start == a.end + 1) ||
     (a.end + 1 < |s| && s[a.end] == '\r' && s[a.end + 1] == '\n' && b.start == a.end + 2))
  }

  /** In a clean source span i + 1 starts right after span i's line
      ending. */
  lemma {:induction false} LineAtFollows(s: string, p: nat, i: nat)
    requires p <= |s| && Clean(s) && i + 1 < LineCount(s, p)
    ensures FollowsEnding(s, LineAt(s, p, i), LineAt(s, p, i + 1))
    decreases |s| - p
  {
    var m := ExecLine(s, p);
    if i == 0 {
      ExecLineMatch(s, p);
      ExecLineClean(s, m.end + m.ending);
    } else {
      LineAtFollows(s, m.end + m.ending, i - 1);
    }
  }

  /** In a clean source the first span starts at 0 and each next span starts
      right after the previous one's LF (one past its end) or CR LF (two
      past it). */
  lemma LineTableClean(s: string)
    requires Clean(s)
    ensures var t := LineTable(s);
      && t[0].start == 0
      && forall i :: 0 <= i < |t| - 1 ==> FollowsEnding(s, t[i], t[i + 1])
  {
    var t := LineTable(s);
    ExecLineClean(s, 0);
    LineTableAt(s, 0);
    forall i | 0 <= i < |t| - 1
      ensures FollowsEnding(s, t[i], t[i + 1])
    {
      LineTableAt(s, i);
      LineTableAt(s, i + 1);
      LineAtFollows(s, 0, i);
    }
  }

  // ---------------------------------------------------------------------
  // getPosition
  // ---------------------------------------------------------------------

  /** The first span whose end lies beyond index, or |ranges| if none. */
  function FirstEndAbove(ranges: seq<IndexRange>, index: int, i: nat): (j: nat)
    requires i <= |ranges|
    ensures i <= j <= |ranges|
    ensures forall k :: i <= k < j ==> ranges[k].end <= index
    ensures j < |ranges| ==> ranges[j].end > index
    decreases |ranges| - i
  {
    if i == |ranges| || ranges[i].end > index then i else FirstEndAbove(ranges, index, i + 1)
  }

  /** The position getPosition returns for index, reading the span found by
      its search. */
  function Locate(ranges: seq<IndexRange>, index: int): (r: Location)
    ensures r == Undefined <==> forall k :: 0 <= k < |ranges| ==> ranges[k].end <= index
    ensures r == Throws <==> ranges != [] && index < ranges[0].start && index < ranges[0].end
    ensures r.At? ==> 1 <= r.position.line <= |ranges|
  {
    var i := FirstEndAbove(ranges, index, 0);
    if i == |ranges| then Undefined
    else if ranges[i].start <= index then At(Position(i + 1, index - ranges[i].start + 1))
    else if i == 0 then Throws
    else At(Position(i, ranges[i - 1].end - ranges[i - 1].start + 1))
  }

  lemma FirstEndAboveIs(ranges: seq<IndexRange>, index: int, j: nat)
    requires j <= |ranges|
    requires forall k :: 0 <= k < j ==> ranges[k].end <= index
    requires j < |ranges| ==> ranges[j].end > index
    ensures FirstEndAbove(ranges, index, 0) == j
  {
  }

  /** An offset in line i's text maps to line i + 1 and its column there. */
  lemma LocateInside(s: string, i: nat, index: int)
    requires i < |LineTable(s)|
    requires LineTable(s)[i].start <= index < LineTable(s)[i].end
    ensures Locate(LineTable(s), index) == At(Position(i + 1, index - LineTable(s)[i].start + 1))
  {
    var t := LineTable(s);
    LineTableOrdered(s);
    forall k | 0 <= k < i
      ensures t[k].end <= index
    {
      assert t[k].end < t[i].start;
    }
    FirstEndAboveIs(t, index, i);
  }

  /** An offset between two spans (on a line ending, in a clean source)
      maps to the end of the preceding line: line i + 1, one past its text. */
  lemma LocateBetween(s: string, i: nat, index: int)
    requires i + 1 < |LineTable(s)|
    requires LineTable(s)[i].end <= index < LineTable(s)[i + 1].start
    ensures Locate(LineTable(s), index) ==
            At(Position(i + 1, LineTable(s)[i].end - LineTable(s)[i].start + 1))
  {
    var t := LineTable(s);
    LineTableOrdered(s);
    forall k | 0 <= k < i + 1
      ensures t[k].end <= index
    {
      if k < i { assert t[k].end < t[i].start; }
    }
    FirstEndAboveIs(t, index, i + 1);
  }

  /** An offset at or beyond the end of the source finds no span. This
      includes the end of the source itself. */
  lemma LocateBeyond(s: string, index: int)
    requires index >= |s|
    ensures Locate(LineTable(s), index) == Undefined
  {
    LineTableOrdered(s);
    FirstEndAboveIs(LineTable(s), index, |LineTable(s)|);
  }

  /** An offset before the first span (a negative one, or one on a first
      line that a lone CR, U+2028 or U+2029 ends) reads the span before the
      first one. */
  lemma LocateBeforeFirst(s: string, index: int)
    requires index < LineTable(s)[0].start
    ensures Locate(LineTable(s), index) == Throws
  {
    LineTableOrdered(s);
    FirstEndAboveIs(LineTable(s), index, 0);
  }

  /** In a clean source every offset inside the source has a position. */
  lemma LocateClean(s: string, index: int)
    requires Clean(s) && 0 <= index < |s|
    ensures Locate(LineTable(s), index).At?
  {
    var t := LineTable(s);
    LineTableCount(s);
    LineTableClean(s);
    assert t[|t| - 1].end > index;
  }

  /** a is not after b. */
  predicate NotAfter(a: Position, b: Position) {
    a.line < b.line || (a.line == b.line && a.character <= b.character)
  }

  /** In a clean source position order follows offset order, so getRange of
      an ordered pair of offsets gives an ordered pair of positions. */
  lemma LocateMonotone(s: string, a: int, b: int)
    requires Clean(s) && 0 <= a <= b < |s|
    ensures Locate(LineTable(s), a).At? && Locate(LineTable(s), b).At?
    ensures NotAfter(Locate(LineTable(s), a).position, Locate(LineTable(s), b).position)
  {
    var t := LineTable(s);
    LocateClean(s, a);
    LocateClean(s, b);
    LineTableOrdered(s);
    LineTableClean(s);
    var i := FirstEndAbove(t, a, 0);
    var j := FirstEndAbove(t, b, 0);
    assert t[j].end > b;
  }

  /** In any source, two offsets that both get a position keep their order:
      the search finds spans in table order. */
  lemma LocateOrdered(s: string, a: int, b: int)
    requires 0 <= a <= b
    requires Locate(LineTable(s), a).At? && Locate(LineTable(s), b).At?
    ensures NotAfter(Locate(LineTable(s), a).position, Locate(LineTable(s), b).position)
  {
    var t := LineTable(s);
    LineTableOrdered(s);
    assert FirstEndAbove(t, a, 0) <= FirstEndAbove(t, b, 0);
  }

  // ---------------------------------------------------------------------
  // The off-by-one at the end of the source
  // ---------------------------------------------------------------------

  /** The position of the end of the source as written: undefined, though
      parse asks for it whenever a literal ends the source. */
  lemma EndOfSourceUndefined(s: string)
    ensures Locate(LineTable(s), |s|) == Undefined
  {
    LocateBeyond(s, |s|);
  }

  /** The first span whose end is not before index, or |ranges| if none. */
  function FirstEndReaching(ranges: seq<IndexRange>, index: int, i: nat): (j: nat)
    requires i <= |ranges|
    ensures i <= j <= |ranges|
    ensures forall k :: i <= k < j ==> ranges[k].end < index
    ensures j < |ranges| ==> ranges[j].end >= index
    decreases |ranges| - i
  {
    if i == |ranges| || ranges[i].end >= index then i else FirstEndReaching(ranges, index, i + 1)
  }

  /** getPosition with the search condition `end >= index`. */
  function LocateCorrected(ranges: seq<IndexRange>, index: int): (r: Location)
    ensures r == Undefined <==> forall k :: 0 <= k < |ranges| ==> ranges[k].end < index
    ensures r == Throws <==> ranges != [] && index < ranges[0].start && index <= ranges[0].end
    ensures r.At? ==> 1 <= r.position.line <= |ranges|
  {
    var i := FirstEndReaching(ranges, index, 0);
    if i == |ranges| then Undefined
    else if ranges[i].start <= index then At(Position(i + 1, index - ranges[i].start + 1))
    else if i == 0 then Throws
    else At(Position(i, ranges[i - 1].end - ranges[i - 1].start + 1))
  }

  /** On spans that are ordered, each ending before the next starts, the
      two searches differ only at the end of the last span. */
  lemma LocateCorrectedAgreesOn(t: seq<IndexRange>, index: int)
    requires |t| >= 1 && t[|t| - 1].end != index
    requires forall i :: 0 <= i < |t| ==> t[i].start <= t[i].end
    requires forall i :: 0 <= i < |t| - 1 ==> t[i].end < t[i + 1].start
    ensures LocateCorrected(t, index) == Locate(t, index)
  {
    var j := FirstEndReaching(t, index, 0);
    if j < |t| && t[j].end == index {
      FirstEndAboveIs(t, index, j + 1);
    } else {
      FirstEndAboveIs(t, index, j);
    }
  }

  /** The corrected search maps the end of the source to the end of the last
      line, and agrees with getPosition on every other offset. */
  lemma LocateCorrectedAgrees(s: string, index: int)
    requires index != |s|
    ensures LocateCorrected(LineTable(s), index) == Locate(LineTable(s), index)
  {
    LineTableOrdered(s);
    LineTableCount(s);
    LocateCorrectedAgreesOn(LineTable(s), index);
  }

  lemma LocateCorrectedEnd(s: string)
    ensures var t := LineTable(s);
      LocateCorrected(t, |s|) == At(Position(|t|, |s| - t[|t| - 1].start + 1))
  {
    var t := LineTable(s);
    LineTableOrdered(s);
    LineTableCount(s);
    var j := FirstEndReaching(t, |s|, 0);
    assert j == |t| - 1;
  }

  // ---------------------------------------------------------------------
  // RangeBuilder
  // ---------------------------------------------------------------------

  /** A range of two getPosition results. */
  datatype PositionRange = PositionRange(start: Location, end: Location)

  class RangeBuilder {
    var indexRanges: seq<IndexRange>

    /** The constructor's loop: exec the line regex, push the text span,
        stop after the match whose line ending is empty. */
    constructor (source: string)
      ensures indexRanges == LineTable(source)
    {
      var ranges: seq<IndexRange> := [];
      var lastIndex := 0;
      var done := false;
      ghost var table := LineTable(source);
      while !done
        invariant lastIndex <= |source|
        invariant !done ==> Scan(source, lastIndex, ranges) == table
        invariant done ==> ranges == table
        decreases |source| - lastIndex, if done then 0 else 1
      {
        var m := ExecLine(source, lastIndex);
        ranges := ranges + [IndexRange(m.start, m.end)];
        if m.ending == 0 {
          done := true;
        } else {
          lastIndex := m.end + m.ending;
        }
      }
      indexRanges := ranges;
    }

    /** getPosition: the first span that ends beyond index; an index in its
        text is there, one before it belongs to the end of the span before. */
    method GetPosition(index: int) returns (r: Location)
      ensures r == Locate(indexRanges, index)
    {
      var i := 0;
      while i < |indexRanges|
        invariant 0 <= i <= |indexRanges|
        invariant forall k :: 0 <= k < i ==> indexRanges[k].end <= index
      {
        var indexRange := indexRanges[i];
        if indexRange.end > index {
          FirstEndAboveIs(indexRanges, index, i);
          if indexRange.start <= index {
            return At(Position(i + 1, index - indexRange.start + 1));
          } else if i == 0 {
            return Throws;
          } else {
            var previousIndexRange := indexRanges[i - 1];
            return At(Position(i, previousIndexRange.end - previousIndexRange.start + 1));
          }
        }
        i := i + 1;
      }
      FirstEndAboveIs(indexRanges, index, i);
      return Undefined;
    }

    /** getRange: the positions of both offsets. */
    method GetRange(startIndex: int, endIndex: int) returns (r: PositionRange)
      ensures r == PositionRange(Locate(indexRanges, startIndex), Locate(indexRanges, endIndex))
    {
      var start := GetPosition(startIndex);
      var end := GetPosition(endIndex);
      r := PositionRange(start, end);
    }
  }
}
