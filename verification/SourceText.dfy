/** Converting between byte offsets and line and column numbers, and finding a snippet's range. */
module SourceText {
  import opened Bytes
  import opened FilePos

  /** The line and column behind a text, both counted from 0, in bytes. */
  function Point(s: bytes): (nat, nat) {
    if s == [] then (0, 0)
    else
      var (row, col) := Point(s[..|s| - 1]);
      if s[|s| - 1] == NL then (row + 1, 0) else (row, col + 1)
  }

  /** The line and column of an offset. */
  function PointAt(buf: bytes, p: nat): (nat, nat)
    requires p <= |buf|
  {
    Point(buf[..p])
  }

  /** The offset stands between the two bytes of a CRLF. */
  predicate SplitsCrlf(buf: bytes, p: nat) {
    0 < p < |buf| && buf[p - 1] == CR && buf[p] == NL
  }

  lemma PointNext(buf: bytes, p: nat)
    requires p < |buf|
    ensures PointAt(buf, p + 1) ==
            if buf[p] == NL then (PointAt(buf, p).0 + 1, 0) else (PointAt(buf, p).0, PointAt(buf, p).1 + 1)
  {
    assert buf[..p + 1][..p] == buf[..p];
  }

  lemma {:induction false} PointFits(buf: bytes, p: nat)
    requires p <= |buf|
    ensures PointAt(buf, p).0 + PointAt(buf, p).1 <= p
  {
    hide Point;
    if p == 0 {
      PointAtStart(buf);
    } else {
      PointFits(buf, p - 1);
      PointNext(buf, p - 1);
    }
  }

  /** Offsets in order are lines in order, and on one line columns count the bytes between. */
  lemma {:induction false} PointMonotone(buf: bytes, p: nat, q: nat)
    requires p <= q <= |buf|
    ensures PointAt(buf, p).0 <= PointAt(buf, q).0
    ensures PointAt(buf, p).0 == PointAt(buf, q).0 ==> PointAt(buf, q).1 == PointAt(buf, p).1 + (q - p)
    ensures PointAt(buf, p).0 == PointAt(buf, q).0 <==> NL !in buf[p..q]
    decreases q - p
  {
    hide Point;
    if p < q {
      PointMonotone(buf, p, q - 1);
      PointNext(buf, q - 1);
      assert buf[p..q] == buf[p..q - 1] + [buf[q - 1]];
    }
  }

  /** The line is the number of line feeds in front; the column is the number of bytes behind the last one. */
  lemma {:induction false} PointCounts(buf: bytes, p: nat, lineStart: nat)
    requires lineStart <= p <= |buf| && NL !in buf[lineStart..p]
    requires lineStart == 0 || buf[lineStart - 1] == NL
    ensures PointAt(buf, p) == (multiset(buf[..p])[NL], p - lineStart)
    decreases p
  {
    hide Point;
    if p == 0 {
      PointAtStart(buf);
    } else {
      PointNext(buf, p - 1);
      assert buf[..p] == buf[..p - 1] + [buf[p - 1]];
      if p > lineStart {
        assert buf[lineStart..p][p - 1 - lineStart] == buf[p - 1];
        assert buf[lineStart..p - 1] == buf[lineStart..p][..p - 1 - lineStart];
        PointCounts(buf, p - 1, lineStart);
      } else {
        var last := LineStart(buf, p - 1);
        PointCounts(buf, p - 1, last);
      }
    }
  }

  lemma {:induction false} LineStart(buf: bytes, p: nat) returns (lineStart: nat)
    requires p <= |buf|
    ensures lineStart <= p && NL !in buf[lineStart..p] && (lineStart == 0 || buf[lineStart - 1] == NL)
  {
    lineStart := p;
    if p > 0 && buf[p - 1] != NL {
      lineStart := LineStart(buf, p - 1);
      assert buf[lineStart..p] == buf[lineStart..p - 1] + [buf[p - 1]];
    }
  }

  /** No two offsets of a text have the same line and column. */
  lemma PointInjective(buf: bytes, p: nat, q: nat)
    requires p <= |buf| && q <= |buf| && PointAt(buf, p) == PointAt(buf, q)
    ensures p == q
  {
    hide Point;
    if p < q {
      PointMonotone(buf, p, q);
    } else {
      PointMonotone(buf, q, p);
    }
  }

  method OffsetToLineColumn(buf: bytes, at: int) returns (row: nat, col: nat)
    ensures (row, col) == PointAt(buf, if at < 0 then 0 else if at > |buf| then |buf| else at)
  {
    hide Point;
    var offset := at;
    if offset < 0 { offset := 0; }
    if offset > |buf| { offset := |buf|; }
    row, col := 0, 0;
    PointAtStart(buf);
    var i := 0;
    while i < offset
      invariant 0 <= i <= offset
      invariant (row, col) == PointAt(buf, i)
    {
      PointNext(buf, i);
      if buf[i] == NL {
        row := row + 1;
        col := 0;
      } else {
        col := col + 1;
      }
      i := i + 1;
    }
  }

  lemma PointAtStart(buf: bytes)
    ensures PointAt(buf, 0) == (0, 0)
  {
    assert buf[..0] == [];
  }

  method LastLineColumnBytePosition(src: Option<Source>) returns (line: nat, col: nat, pos: nat)
    ensures src.None? ==> line == 0 && col == 0 && pos == 0
    ensures src.Some? ==> pos == |src.value.buffer| && (line, col) == PointAt(src.value.buffer, pos)
  {
    hide Point;
    if src.None? {
      return 0, 0, 0;
    }
    var buf := src.value.buffer;
    line := 0;
    var lineStart := 0;
    PointAtStart(buf);
    var i := 0;
    while i < |buf|
      invariant 0 <= i <= |buf| && lineStart <= i
      invariant PointAt(buf, i) == (line, i - lineStart)
    {
      PointNext(buf, i);
      if buf[i] == NL {
        line := line + 1;
        lineStart := i + 1;
      }
      i := i + 1;
    }
    col, pos := |buf| - lineStart, |buf|;
  }

  // The end of the line that starts at i: its line feed, or the CR before it, or the end of the text.
  method LineEnd(buf: bytes, i: nat) returns (lineEnd: nat)
    requires i < |buf|
    ensures i <= lineEnd <= |buf| && NL !in buf[i..lineEnd]
    ensures lineEnd < |buf| ==> buf[lineEnd] == NL || (buf[lineEnd] == CR && SplitsCrlf(buf, lineEnd + 1))
    ensures lineEnd < |buf| && buf[lineEnd] == NL ==> i == lineEnd || buf[lineEnd - 1] != CR
  {
    lineEnd := |buf|;
    var j := i;
    while j < |buf|
      invariant i <= j <= |buf| && lineEnd == |buf| && NL !in buf[i..j]
    {
      if buf[j] == NL {
        lineEnd := j;
        if lineEnd > i && buf[lineEnd - 1] == CR {
          lineEnd := lineEnd - 1;
          assert buf[i..j] == buf[i..lineEnd] + [CR];
        }
        break;
      }
      assert buf[i..j + 1] == buf[i..j] + [buf[j]];
      j := j + 1;
    }
  }

  // Go's sum of two non-negative ints.
  function Sum(x: nat, y: nat): int {
    if x + y <= MAX_INT then x + y else x + y - 2 * (MAX_INT + 1)
  }

  /** The line exists, and the column is so large that adding it to the start of the line wraps around. */
  ghost predicate Overflows(buf: bytes, line: int, col: int) {
    exists p :: 0 <= p <= |buf| && PointAt(buf, p) == (line, 0) && p + col > MAX_INT
  }

  /** The offset of a line and column. It is the inverse of OffsetToLineColumn: every offset is found
      again from its line and column, except exactly the one inside a CRLF. A column whose offset is no
      int gives a negative offset instead of an error. */
  method BytePositionForLineColumn(buf: bytes, line: int64, col: int64) returns (r: Option<int>)
    requires |buf| <= MAX_INT
    ensures r.Some? && r.value >= 0 ==>
              r.value <= |buf| && PointAt(buf, r.value) == (line, col) && !SplitsCrlf(buf, r.value)
    ensures forall p | 0 <= p <= |buf| && PointAt(buf, p) == (line, col) :: r == Some(p) <==> !SplitsCrlf(buf, p)
    ensures r.Some? && r.value < 0 <==> Overflows(buf, line, col)
  {
    hide PointAt, SplitsCrlf, Overflows;
    r := LineColumnOffset(buf, line, col);
    forall p | 0 <= p <= |buf| && PointAt(buf, p) == (line, col) ensures r == Some(p) <==> !SplitsCrlf(buf, p) {
      NoOverflow(buf, line, col, p);
      if r.Some? {
        PointInjective(buf, p, r.value);
      }
    }
  }

  // The column of an offset does not overflow.
  lemma NoOverflow(buf: bytes, line: nat, col: nat, p: nat)
    requires p <= |buf| <= MAX_INT && PointAt(buf, p) == (line, col)
    ensures !Overflows(buf, line, col)
  {
    hide Point, PointAt;
    forall q | 0 <= q <= |buf| && PointAt(buf, q) == (line, 0) ensures q + col <= MAX_INT {
      if q <= p {
        PointMonotone(buf, q, p);
      } else {
        PointMonotone(buf, p, q);
      }
    }
  }

  lemma OverflowsAt(buf: bytes, line: nat, col: nat, lineStart: nat)
    requires lineStart <= |buf| && PointAt(buf, lineStart) == (line, 0)
    ensures Overflows(buf, line, col) <==> lineStart + col > MAX_INT
  {
    hide Point, PointAt;
    forall q | 0 <= q <= |buf| && PointAt(buf, q) == (line, 0) ensures q == lineStart {
      PointInjective(buf, q, lineStart);
    }
  }

  method LineColumnOffset(buf: bytes, line: int64, col: int64) returns (r: Option<int>)
    requires |buf| <= MAX_INT
    ensures r.Some? && r.value >= 0 ==>
              r.value <= |buf| && PointAt(buf, r.value) == (line, col) && !SplitsCrlf(buf, r.value)
    ensures r.None? ==> forall p | 0 <= p <= |buf| && PointAt(buf, p) == (line, col) :: SplitsCrlf(buf, p)
    ensures r.Some? && r.value < 0 <==> Overflows(buf, line, col)
  {
    hide Point, PointAt, SplitsCrlf, Overflows;
    if line < 0 || col < 0 {
      NegativeHasNoOffset(buf, line, col);
      return None;
    }
    var currentLine, lineStart := 0, 0;
    PointAtStart(buf);
    var i := 0;
    while i < |buf|
      invariant 0 <= i <= |buf| && lineStart <= i
      invariant PointAt(buf, lineStart) == (currentLine, 0) && PointAt(buf, i).0 == currentLine
      invariant currentLine <= line
      invariant currentLine == line ==> lineStart == i
    {
      if currentLine == line {
        var lineEnd := LineEnd(buf, i);
        LineColumns(buf, line, col, lineStart, lineEnd);
        OverflowsAt(buf, line, col, lineStart);
        if Sum(lineStart, col) > lineEnd {
          return None;
        }
        return Some(Sum(lineStart, col));
      }
      PointNext(buf, i);
      if buf[i] == NL {
        currentLine := currentLine + 1;
        lineStart := i + 1;
      }
      i := i + 1;
    }
    NoLaterLine(buf, currentLine, lineStart);
    if currentLine == line {
      OverflowsAt(buf, line, col, lineStart);
      if Sum(lineStart, col) > |buf| {
        return None;
      }
      NoSplitAtEnd(buf);
      return Some(Sum(lineStart, col));
    }
    NoSuchLine(buf, line, col);
    r := None;
  }

  lemma NegativeHasNoOffset(buf: bytes, line: int, col: int)
    requires (line < 0 || col < 0) && |buf| <= MAX_INT
    ensures !Overflows(buf, line, col)
  {
    hide Point;
  }

  lemma NoSuchLine(buf: bytes, line: int, col: int)
    requires forall p | 0 <= p <= |buf| :: PointAt(buf, p).0 < line
    ensures !Overflows(buf, line, col)
  {
    hide PointAt;
  }

  lemma NoSplitAtEnd(buf: bytes)
    ensures !SplitsCrlf(buf, |buf|)
  {}

  // At the end of the text, no offset is on a later line, and those on this one count from its start.
  lemma NoLaterLine(buf: bytes, line: nat, lineStart: nat)
    requires lineStart <= |buf| && PointAt(buf, lineStart) == (line, 0) && PointAt(buf, |buf|).0 == line
    ensures forall p | 0 <= p <= |buf| :: PointAt(buf, p).0 <= line
    ensures forall p | 0 <= p <= |buf| && PointAt(buf, p).0 == line :: p == lineStart + PointAt(buf, p).1
    ensures forall p | lineStart <= p <= |buf| :: PointAt(buf, p) == (line, p - lineStart)
  {
    hide Point, PointAt;
    forall p | 0 <= p <= |buf| ensures PointAt(buf, p).0 <= line {
      PointMonotone(buf, p, |buf|);
    }
    forall p | 0 <= p <= |buf| && PointAt(buf, p).0 == line ensures p == lineStart + PointAt(buf, p).1 {
      if p < lineStart {
        PointMonotone(buf, p, lineStart);
      } else {
        PointMonotone(buf, lineStart, p);
      }
    }
    forall p | lineStart <= p <= |buf| ensures PointAt(buf, p) == (line, p - lineStart) {
      PointMonotone(buf, lineStart, p);
      PointMonotone(buf, p, |buf|);
    }
  }

  // The offsets of one line: its columns up to its end have an offset each, and the only other offset
  // on the line splits a CRLF.
  lemma LineColumns(buf: bytes, line: nat, col: nat, lineStart: nat, lineEnd: nat)
    requires lineStart <= lineEnd <= |buf| && PointAt(buf, lineStart) == (line, 0)
    requires NL !in buf[lineStart..lineEnd]
    requires lineEnd < |buf| ==> buf[lineEnd] == NL || (buf[lineEnd] == CR && SplitsCrlf(buf, lineEnd + 1))
    requires lineEnd < |buf| && buf[lineEnd] == NL ==> lineStart == lineEnd || buf[lineEnd - 1] != CR
    ensures lineStart + col <= lineEnd ==>
              PointAt(buf, lineStart + col) == (line, col) && !SplitsCrlf(buf, lineStart + col)
    ensures lineStart + col > lineEnd ==>
              forall p | 0 <= p <= |buf| && PointAt(buf, p) == (line, col) :: SplitsCrlf(buf, p)
  {
    hide Point, PointAt;
    var p := lineStart + col;
    if p <= lineEnd {
      assert buf[lineStart..lineEnd] == buf[lineStart..p] + buf[p..lineEnd];
      PointMonotone(buf, lineStart, p);
      NotSplitOnLine(buf, lineStart, lineEnd, p);
    } else {
      forall q | 0 <= q <= |buf| && PointAt(buf, q) == (line, col) ensures SplitsCrlf(buf, q) {
        if q <= lineStart {
          PointMonotone(buf, q, lineStart);
          assert false;
        } else {
          PointMonotone(buf, lineStart, q);
          assert q == p;
          OnlySplitBehindEnd(buf, lineStart, lineEnd, q);
        }
      }
    }
  }

  lemma NoneInSlice(buf: bytes, from: nat, to: nat)
    requires from <= to <= |buf| && NL !in buf[from..to]
    ensures forall k :: from <= k < to ==> buf[k] != NL
  {
    forall k | from <= k < to ensures buf[k] != NL {
      assert buf[k] == buf[from..to][k - from];
    }
  }

  lemma NotSplitOnLine(buf: bytes, lineStart: nat, lineEnd: nat, p: nat)
    requires lineStart <= p <= lineEnd <= |buf| && NL !in buf[lineStart..lineEnd]
    requires lineEnd < |buf| && buf[lineEnd] == NL ==> lineStart == lineEnd || buf[lineEnd - 1] != CR
    requires PointAt(buf, lineStart).1 == 0
    ensures !SplitsCrlf(buf, p)
  {
    NoneInSlice(buf, lineStart, lineEnd);
    if SplitsCrlf(buf, p) {
      assert p == lineEnd == lineStart;
      PointNext(buf, p - 1);
      assert false;
    }
  }

  lemma OnlySplitBehindEnd(buf: bytes, lineStart: nat, lineEnd: nat, q: nat)
    requires lineStart <= lineEnd < q <= |buf| && NL !in buf[lineStart..q]
    requires buf[lineEnd] == NL || (buf[lineEnd] == CR && SplitsCrlf(buf, lineEnd + 1))
    ensures q == lineEnd + 1 && SplitsCrlf(buf, q)
  {
    NoneInSlice(buf, lineStart, q);
  }

  // ------------------------------------------------------------------- snippets

  predicate OccursAt(buf: bytes, snippet: bytes, i: nat) {
    i + |snippet| <= |buf| && buf[i..i + |snippet|] == snippet
  }

  ghost predicate FirstOccurrence(buf: bytes, snippet: bytes, i: nat) {
    OccursAt(buf, snippet, i) && forall j | 0 <= j < i :: !OccursAt(buf, snippet, j)
  }

  /** bytes.Index: the first occurrence, or -1. */
  method Index(buf: bytes, snippet: bytes) returns (i: int)
    ensures i >= 0 ==> FirstOccurrence(buf, snippet, i)
    ensures i < 0 ==> forall j: nat :: !OccursAt(buf, snippet, j)
  {
    i := 0;
    while i + |snippet| <= |buf|
      invariant 0 <= i && forall j | 0 <= j < i :: !OccursAt(buf, snippet, j)
    {
      if buf[i..i + |snippet|] == snippet {
        return;
      }
      i := i + 1;
    }
    i := -1;
  }

  datatype Snippet = Found(range: FileRange) | NotFound | OutOfRange

  /** A line and column that an offset is computed for: those of an offset that splits no CRLF, or a column
      so large that the offset overflows. */
  ghost predicate Located(buf: bytes, line: int, col: int) {
    || Overflows(buf, line, col)
    || exists p :: 0 <= p <= |buf| && PointAt(buf, p) == (line, col) && !SplitsCrlf(buf, p)
  }

  method NewFileRangeAutoBytePosition(src: Source, sl: int64, sc: int64, el: int64, ec: int64) returns (r: Snippet)
    requires |src.buffer| <= MAX_INT
    ensures r != NotFound
    ensures r.Found? <==> Located(src.buffer, sl, sc) && Located(src.buffer, el, ec)
    ensures r.Found? ==>
              && r.range.source == src
              && var (s, e) := (r.range.start, r.range.end);
              && (s.line, s.column, e.line, e.column) == (sl, sc, el, ec)
              && (s.bytePosition < 0 <==> Overflows(src.buffer, sl, sc))
              && (s.bytePosition >= 0 ==> IsPoint(src.buffer, s))
              && (e.bytePosition < 0 <==> Overflows(src.buffer, el, ec))
              && (e.bytePosition >= 0 ==> IsPoint(src.buffer, e))
    ensures forall p, q | 0 <= p <= |src.buffer| && 0 <= q <= |src.buffer|
              && PointAt(src.buffer, p) == (sl, sc) && PointAt(src.buffer, q) == (el, ec) ::
              if SplitsCrlf(src.buffer, p) || SplitsCrlf(src.buffer, q) then r == OutOfRange
              else r == Found(FileRange(src, FilePosition(sl, sc, p), FilePosition(el, ec, q)))
  {
    hide PointAt, SplitsCrlf, Overflows;
    var startBP := BytePositionForLineColumn(src.buffer, sl, sc);
    if startBP.None? {
      return OutOfRange;
    }
    var endBP := BytePositionForLineColumn(src.buffer, el, ec);
    if endBP.None? {
      return OutOfRange;
    }
    r := Found(FileRange(src, FilePosition(sl, sc, startBP.value), FilePosition(el, ec, endBP.value)));
    SplitIsNotFound(src.buffer, sl, sc, startBP);
    SplitIsNotFound(src.buffer, el, ec, endBP);
  }

  /** The position is that of its offset, which is not inside a CRLF. */
  predicate IsPoint(buf: bytes, pos: FilePosition) {
    && 0 <= pos.bytePosition <= |buf|
    && PointAt(buf, pos.bytePosition) == (pos.line, pos.column)
    && !SplitsCrlf(buf, pos.bytePosition)
  }

  lemma SplitIsNotFound(buf: bytes, line: int, col: int, r: Option<int>)
    requires |buf| <= MAX_INT && r.Some? && (r.value < 0 ==> Overflows(buf, line, col))
    requires r.value >= 0 ==> r.value <= |buf| && PointAt(buf, r.value) == (line, col) && !SplitsCrlf(buf, r.value)
    ensures forall p | 0 <= p <= |buf| && PointAt(buf, p) == (line, col) :: r == Some(p) && !SplitsCrlf(buf, p)
  {
    hide PointAt, SplitsCrlf, Overflows;
    forall p | 0 <= p <= |buf| && PointAt(buf, p) == (line, col) ensures r == Some(p) {
      NoOverflow(buf, line, col, p);
      PointInjective(buf, p, r.value);
    }
  }

  /** The range of a snippet covers exactly the bytes of its first occurrence. There is none only if the
      snippet does not occur, or a boundary of its first occurrence splits a CRLF. */
  method FindSnippetRange(src: Source, snippet: bytes) returns (r: Snippet)
    requires |src.buffer| <= MAX_INT
    ensures snippet == [] ==>
              r == Found(FileRange(src, FilePosition(0, 0, 0), FilePosition(0, 0, 0)))
    ensures snippet != [] && r.Found? ==>
              && 0 <= r.range.start.bytePosition
              && r.range.end.bytePosition == r.range.start.bytePosition + |snippet| <= |src.buffer|
              && FirstOccurrence(src.buffer, snippet, r.range.start.bytePosition)
              && (r.range.start.line, r.range.start.column) == PointAt(src.buffer, r.range.start.bytePosition)
              && (r.range.end.line, r.range.end.column) == PointAt(src.buffer, r.range.end.bytePosition)
    ensures snippet != [] ==> (r == NotFound <==> forall j: nat :: !OccursAt(src.buffer, snippet, j))
    ensures snippet != [] ==> forall i: nat | FirstOccurrence(src.buffer, snippet, i) ::
                r == OutOfRange <==> SplitsCrlf(src.buffer, i) || SplitsCrlf(src.buffer, i + |snippet|)
  {
    var buf := src.buffer;
    if snippet == [] {
      r := EmptySnippetRange(src);
      return;
    }
    var startOffset := Index(buf, snippet);
    if startOffset < 0 {
      assert forall i: nat :: !FirstOccurrence(buf, snippet, i);
      return NotFound;
    }
    hide PointAt, SplitsCrlf, FirstOccurrence;
    OccurrenceFits(buf, snippet, startOffset);
    var endOffset := startOffset + |snippet|;
    var startLine, startCol := OffsetToLineColumn(buf, startOffset);
    var endLine, endCol := OffsetToLineColumn(buf, endOffset);
    PointFits(buf, startOffset);
    PointFits(buf, endOffset);
    r := NewFileRangeAutoBytePosition(src, startLine, startCol, endLine, endCol);
    forall i: nat | FirstOccurrence(buf, snippet, i) ensures i == startOffset {
      FirstIsUnique(buf, snippet, i, startOffset);
    }
  }

  lemma OccurrenceFits(buf: bytes, snippet: bytes, i: nat)
    requires FirstOccurrence(buf, snippet, i)
    ensures i + |snippet| <= |buf| && OccursAt(buf, snippet, i)
  {}

  lemma FirstIsUnique(buf: bytes, snippet: bytes, i: nat, j: nat)
    requires FirstOccurrence(buf, snippet, i) && FirstOccurrence(buf, snippet, j)
    ensures i == j
  {}

  method EmptySnippetRange(src: Source) returns (r: Snippet)
    requires |src.buffer| <= MAX_INT
    ensures r == Found(FileRange(src, FilePosition(0, 0, 0), FilePosition(0, 0, 0)))
  {
    hide PointAt;
    PointAtStart(src.buffer);
    assert !SplitsCrlf(src.buffer, 0);
    r := NewFileRangeAutoBytePosition(src, 0, 0, 0, 0);
  }
}
