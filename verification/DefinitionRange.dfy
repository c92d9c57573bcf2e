/** Repairing the ranges that language servers answer a definition request with. Which runes above
    ASCII are letters or digits is a parameter. */
module DefinitionRange {
  import opened Bytes
  import opened FilePos
  import opened SourceText
  import opened Utf8

  type Ident = int -> bool

  const UNDERSCORE := 95
  const DOLLAR := 36

  predicate IsAsciiWord(r: int) {
    48 <= r <= 57 || 65 <= r <= 90 || 97 <= r <= 122 || r == UNDERSCORE
  }

  /** Letters, digits and underscores; unicodeWord says which runes above ASCII are letters or digits. */
  function PythonIdent(unicodeWord: Ident): Ident {
    r => if r < 0x80 then IsAsciiWord(r) else unicodeWord(r)
  }

  function TypescriptIdent(unicodeWord: Ident): Ident {
    r => r == DOLLAR || (if r < 0x80 then IsAsciiWord(r) else unicodeWord(r))
  }

  /** The ASCII runes of an identifier, as characters; above ASCII the parameter decides. */
  lemma IdentsExactly(unicodeWord: Ident, c: char)
    ensures (c as int) < 0x80 ==>
              (PythonIdent(unicodeWord)(c as int) <==>
               '0' <= c <= '9' || 'A' <= c <= 'Z' || 'a' <= c <= 'z' || c == '_')
    ensures (c as int) < 0x80 ==>
              (TypescriptIdent(unicodeWord)(c as int) <==>
               '0' <= c <= '9' || 'A' <= c <= 'Z' || 'a' <= c <= 'z' || c == '_' || c == '$')
    ensures (c as int) >= 0x80 ==>
              PythonIdent(unicodeWord)(c as int) == TypescriptIdent(unicodeWord)(c as int) == unicodeWord(c as int)
  {}

  // ------------------------------------------------------------- identifier runs

  function RuneAt(buf: bytes, i: nat, to: nat): (r: (int, nat))
    requires i < to <= |buf|
    ensures 1 <= r.1 <= to - i
  {
    DecodeRune(buf[i..to])
  }

  /** From i to j, rune by rune, no rune is an identifier rune. */
  predicate NoneBetween(buf: bytes, i: nat, j: nat, to: nat, ident: Ident)
    requires to <= |buf|
    decreases (to) - i
  {
    || i == j
    || (i < j && i < to && !ident(RuneAt(buf, i, to).0)
        && NoneBetween(buf, i + RuneAt(buf, i, to).1, j, to, ident))
  }

  /** From i to j, rune by rune, every rune is an identifier rune. */
  predicate AllBetween(buf: bytes, i: nat, j: nat, to: nat, ident: Ident)
    requires to <= |buf|
    decreases (to) - i
  {
    || i == j
    || (i < j && i < to && ident(RuneAt(buf, i, to).0)
        && AllBetween(buf, i + RuneAt(buf, i, to).1, j, to, ident))
  }

  function SkipOthers(buf: bytes, at: nat, to: nat, ident: Ident): (r: nat)
    requires to <= |buf|
    ensures at <= r && (at <= to ==> r <= to)
    ensures NoneBetween(buf, at, r, to, ident)
    ensures r < to ==> ident(RuneAt(buf, r, to).0)
    decreases (to) - at
  {
    if at < to && !ident(RuneAt(buf, at, to).0) then SkipOthers(buf, at + RuneAt(buf, at, to).1, to, ident) else at
  }

  function RunEnd(buf: bytes, at: nat, to: nat, ident: Ident): (r: nat)
    requires to <= |buf|
    ensures at <= r && (at <= to ==> r <= to)
    ensures AllBetween(buf, at, r, to, ident)
    ensures r < to ==> !ident(RuneAt(buf, r, to).0)
    decreases (to) - at
  {
    if at < to && ident(RuneAt(buf, at, to).0) then RunEnd(buf, at + RuneAt(buf, at, to).1, to, ident) else at
  }

  function Limit(buf: bytes, to: int): nat { if to < 0 then 0 else if to < |buf| then to else |buf| }

  /** The start and the width of the first identifier, width 0 when there is none. */
  function FirstRun(buf: bytes, from: nat, to: int, ident: Ident): (r: (nat, nat))
    ensures from <= r.0
    ensures r.1 > 0 ==> r.0 + r.1 <= Limit(buf, to)
  {
    var at := SkipOthers(buf, from, Limit(buf, to), ident);
    (at, RunEnd(buf, at, Limit(buf, to), ident) - at)
  }

  lemma SkipStep(buf: bytes, at: nat, to: nat, ident: Ident)
    requires to <= |buf|
    ensures SkipOthers(buf, at, to, ident) ==
            if at < to && !ident(RuneAt(buf, at, to).0) then SkipOthers(buf, at + RuneAt(buf, at, to).1, to, ident)
            else at
  {
    hide DecodeRune, NoneBetween;
  }

  lemma RunStep(buf: bytes, at: nat, to: nat, ident: Ident)
    requires to <= |buf|
    ensures RunEnd(buf, at, to, ident) ==
            if at < to && ident(RuneAt(buf, at, to).0) then RunEnd(buf, at + RuneAt(buf, at, to).1, to, ident) else at
  {
    hide DecodeRune, AllBetween;
  }

  function FromZero(n: int): nat { if n < 0 then 0 else n }

  method FirstIdentifier(buf: bytes, from: int, to: int, ident: Ident) returns (at: nat, width: nat)
    ensures (at, width) == FirstRun(buf, FromZero(from), to, ident)
  {
    hide SkipOthers, RunEnd, RuneAt, NoneBetween, AllBetween;
    var limit := Limit(buf, to);
    at := FromZero(from);
    while at < limit
      invariant SkipOthers(buf, at, limit, ident) == SkipOthers(buf, FromZero(from), limit, ident)
      decreases limit - at
    {
      SkipStep(buf, at, limit, ident);
      var (r, size) := RuneAt(buf, at, limit);
      if ident(r) { break; }
      at := at + size;
    }
    SkipStep(buf, at, limit, ident);
    width := 0;
    while at + width < limit
      invariant RunEnd(buf, at + width, limit, ident) == RunEnd(buf, at, limit, ident)
      decreases limit - at - width
    {
      RunStep(buf, at + width, limit, ident);
      var (r, size) := RuneAt(buf, at + width, limit);
      if !ident(r) { break; }
      width := width + size;
    }
    RunStep(buf, at + width, limit, ident);
  }

  lemma SameRune(buf: bytes, i: nat, j: nat, to: nat)
    requires i < j <= to <= |buf| && i + RuneAt(buf, i, to).1 <= j
    ensures RuneAt(buf, i, j) == RuneAt(buf, i, to)
  {
    hide DecodeRune;
    assert buf[i..to][..j - i] == buf[i..j];
    DecodePrefix(buf[i..to], j - i);
  }

  /** A run is a run in any window that holds it: the runes in it decode the same. */
  lemma {:induction false} RunInWindow(buf: bytes, i: nat, j: nat, to: nat, ident: Ident)
    requires to <= |buf| && j <= to && AllBetween(buf, i, j, to, ident)
    ensures AllBetween(buf, i, j, j, ident)
    decreases (to) - i
  {
    hide RuneAt;
    if i < j {
      var size := RuneAt(buf, i, to).1;
      AllBetweenFits(buf, i + size, j, to, ident);
      SameRune(buf, i, j, to);
      RunInWindow(buf, i + size, j, to, ident);
    }
  }

  lemma AllBetweenFits(buf: bytes, i: nat, j: nat, to: nat, ident: Ident)
    requires to <= |buf| && AllBetween(buf, i, j, to, ident)
    ensures i <= j
  {
    hide RuneAt;
  }

  lemma {:induction false} RunEndOfRun(buf: bytes, i: nat, j: nat, ident: Ident)
    requires i <= j <= |buf| && AllBetween(buf, i, j, j, ident)
    ensures RunEnd(buf, i, j, ident) == j
    decreases j - i
  {
    hide RuneAt;
    if i < j {
      RunEndOfRun(buf, i + RuneAt(buf, i, j).1, j, ident);
    }
  }

  /** Looking for an identifier in exactly the run that was found finds that run. */
  lemma FirstRunAgain(buf: bytes, from: nat, to: int, ident: Ident)
    requires FirstRun(buf, from, to, ident).1 > 0
    ensures var (at, width) := FirstRun(buf, from, to, ident);
            FirstRun(buf, at, at + width, ident) == (at, width)
  {
    hide NoneBetween, RuneAt, SkipOthers, RunEnd;
    var (at, width) := FirstRun(buf, from, to, ident);
    var end := at + width;
    RunInWindow(buf, at, end, Limit(buf, to), ident);
    RunEndOfRun(buf, at, end, ident);
    assert Limit(buf, end) == end;
    SkipStep(buf, at, end, ident);
    RunStep(buf, at, end, ident);
  }

  // -------------------------------------------------------------------- positions

  /** The position's line and column are those of its offset. */
  predicate Consistent(buf: bytes, pos: FilePosition) {
    0 <= pos.bytePosition <= |buf| && PointAt(buf, pos.bytePosition) == (pos.line, pos.column)
  }

  /** The position behind a text that starts at pos. */
  function Behind(pos: FilePosition, text: bytes): FilePosition {
    if text == [] then pos
    else
      var p := Behind(pos, text[..|text| - 1]);
      if text[|text| - 1] == NL then FilePosition(p.line + 1, 0, p.bytePosition + 1)
      else FilePosition(p.line, p.column + 1, p.bytePosition + 1)
  }

  function AdvanceTo(buf: bytes, pos: FilePosition, to: int): FilePosition
    requires 0 <= pos.bytePosition && to <= |buf|
  {
    if pos.bytePosition < to then Behind(pos, buf[pos.bytePosition..to]) else pos
  }

  method Advance(buf: bytes, start: FilePosition, to: int) returns (pos: FilePosition)
    requires 0 <= start.bytePosition && to <= |buf|
    ensures pos == AdvanceTo(buf, start, to)
  {
    pos := start;
    while pos.bytePosition < to
      invariant start.bytePosition <= pos.bytePosition
      invariant pos.bytePosition <= to || pos == start
      invariant pos.bytePosition <= |buf| ==> pos == Behind(start, buf[start.bytePosition..pos.bytePosition])
      decreases (to) - pos.bytePosition
    {
      var i := pos.bytePosition;
      assert buf[start.bytePosition..i + 1] == buf[start.bytePosition..i] + [buf[i]];
      if buf[i] == NL {
        pos := pos.(line := pos.line + 1, column := 0);
      } else {
        pos := pos.(column := pos.column + 1);
      }
      pos := pos.(bytePosition := i + 1);
    }
  }

  lemma {:induction false} BehindIsConsistent(buf: bytes, pos: FilePosition, to: nat)
    requires Consistent(buf, pos) && pos.bytePosition <= to <= |buf|
    ensures var p := Behind(pos, buf[pos.bytePosition..to]);
            p.bytePosition == to && Consistent(buf, p)
    decreases (to)
  {
    hide PointAt;
    var text := buf[pos.bytePosition..to];
    if text != [] {
      assert text[..|text| - 1] == buf[pos.bytePosition..to - 1];
      BehindIsConsistent(buf, pos, to - 1);
      PointNext(buf, to - 1);
    }
  }

  lemma {:induction false} BehindOffset(pos: FilePosition, text: bytes)
    ensures Behind(pos, text).bytePosition == pos.bytePosition + |text|
  {
    if text != [] {
      BehindOffset(pos, text[..|text| - 1]);
    }
  }

  // ------------------------------------------------------------------- narrowing

  /** The range of the bytes from at, with its positions counted on from the reply's start. */
  function Narrow(buf: bytes, r: FileRange, at: nat, width: nat): (res: FileRange)
    requires 0 <= r.start.bytePosition <= at && at + width <= |buf|
    ensures res.start.bytePosition == at && res.end.bytePosition == at + width && res.source == r.source
  {
    AdvanceOffset(buf, r.start, at);
    var start := AdvanceTo(buf, r.start, at);
    AdvanceOffset(buf, start, at + width);
    FileRange(r.source, start, AdvanceTo(buf, start, at + width))
  }

  /** Counting on from any position, consistent or not: every line feed on the way is one more line, and the
      column counts the bytes behind the last one, or goes on from the old column if there is none. */
  lemma AdvanceCounts(buf: bytes, pos: FilePosition, to: nat, lineStart: nat)
    requires 0 <= pos.bytePosition <= lineStart <= to <= |buf| && NL !in buf[lineStart..to]
    requires lineStart == pos.bytePosition || buf[lineStart - 1] == NL
    ensures AdvanceTo(buf, pos, to).line == pos.line + multiset(buf[pos.bytePosition..to])[NL]
    ensures AdvanceTo(buf, pos, to).column ==
            if lineStart == pos.bytePosition then pos.column + (to - lineStart) else to - lineStart
  {
    assert forall k :: lineStart <= k < to ==> buf[lineStart..to][k - lineStart] == buf[k];
    BehindCounts(buf, pos, to, lineStart);
    hide Behind;
    if pos.bytePosition == to {
      assert buf[pos.bytePosition..to] == [];
    }
  }

  lemma {:induction false} BehindCounts(buf: bytes, pos: FilePosition, to: nat, lineStart: nat)
    requires 0 <= pos.bytePosition <= lineStart <= to <= |buf|
    requires forall k :: lineStart <= k < to ==> buf[k] != NL
    requires lineStart == pos.bytePosition || buf[lineStart - 1] == NL
    ensures var p := Behind(pos, buf[pos.bytePosition..to]);
            && p.line == pos.line + multiset(buf[pos.bytePosition..to])[NL]
            && p.column == if lineStart == pos.bytePosition then pos.column + (to - lineStart) else to - lineStart
    decreases (to)
  {
    var text := buf[pos.bytePosition..to];
    if text != [] {
      assert text[..|text| - 1] == buf[pos.bytePosition..to - 1];
      assert text == buf[pos.bytePosition..to - 1] + [buf[to - 1]];
      if lineStart < to {
        BehindCounts(buf, pos, to - 1, lineStart);
      } else {
        var last := LastStart(buf, pos.bytePosition, to - 1);
        BehindCounts(buf, pos, to - 1, last);
      }
    }
  }

  lemma {:induction false} LastStart(buf: bytes, from: nat, to: nat) returns (lineStart: nat)
    requires from <= to <= |buf|
    ensures from <= lineStart <= to && (forall k :: lineStart <= k < to ==> buf[k] != NL)
    ensures lineStart == from || buf[lineStart - 1] == NL
    decreases (to)
  {
    lineStart := to;
    if to > from && buf[to - 1] != NL {
      lineStart := LastStart(buf, from, to - 1);
    }
  }

  lemma AdvanceOffset(buf: bytes, pos: FilePosition, stop: int)
    requires 0 <= pos.bytePosition <= stop <= |buf|
    ensures AdvanceTo(buf, pos, stop).bytePosition == stop
  {
    hide Behind;
    BehindOffset(pos, buf[pos.bytePosition..stop]);
  }

  /** Narrowing a reply whose start is consistent gives a range whose both ends are. */
  lemma NarrowIsConsistent(buf: bytes, r: FileRange, at: nat, width: nat)
    requires 0 <= r.start.bytePosition <= at && at + width <= |buf| && Consistent(buf, r.start)
    ensures Consistent(buf, Narrow(buf, r, at, width).start) && Consistent(buf, Narrow(buf, r, at, width).end)
  {
    hide Behind, Consistent;
    AdvanceIsConsistent(buf, r.start, at);
    AdvanceIsConsistent(buf, Narrow(buf, r, at, width).start, at + width);
  }

  lemma AdvanceIsConsistent(buf: bytes, pos: FilePosition, stop: nat)
    requires Consistent(buf, pos) && pos.bytePosition <= stop <= |buf|
    ensures Consistent(buf, AdvanceTo(buf, pos, stop))
  {
    hide Behind, PointAt;
    BehindIsConsistent(buf, pos, stop);
  }

  // Nothing to look at, or a reply that is empty already.
  predicate PassesThrough(src: Option<Source>, r: FileRange) {
    src.None? || r.start.bytePosition >= r.end.bytePosition
  }

  predicate Covers(r: FileRange, at: nat, width: nat) {
    at == r.start.bytePosition && at + width == r.end.bytePosition
  }

  /** A repair of r to the run found at at, if there is one and it is not all of r. */
  function NarrowToRun(buf: bytes, r: FileRange, at: nat, width: nat): FileRange
    requires 0 <= r.start.bytePosition <= at && (width > 0 ==> at + width <= |buf|)
  {
    if width == 0 || Covers(r, at, width) then r else Narrow(buf, r, at, width)
  }

  // ----------------------------------------------------------------------- Python

  function PythonRepair(src: Option<Source>, r: FileRange, ident: Ident): FileRange
    requires 0 <= r.start.bytePosition
  {
    if PassesThrough(src, r) then r
    else
      var buf := src.value.buffer;
      var (at, width) := FirstRun(buf, r.start.bytePosition, r.end.bytePosition, ident);
      NarrowToRun(buf, r, at, width)
  }

  /** The whole repair: a reply that starts below the buffer cannot be narrowed. */
  function PythonReply(src: Option<Source>, r: FileRange, ident: Ident): Result<FileRange> {
    if 0 <= r.start.bytePosition then Ok(PythonRepair(src, r, ident))
    else if PassesThrough(src, r) || FirstRun(src.value.buffer, 0, r.end.bytePosition, ident).1 == 0 then Ok(r)
    else Err(Panic)
  }

  method NormalizePython(src: Option<Source>, r: FileRange, unicodeWord: Ident) returns (res: Result<FileRange>)
    ensures res == PythonReply(src, r, PythonIdent(unicodeWord))
  {
    var ident := PythonIdent(unicodeWord);
    hide PythonIdent, FirstRun, AdvanceTo;
    if PassesThrough(src, r) {
      return Ok(r);
    }
    var buf := src.value.buffer;
    var at, width := FirstIdentifier(buf, r.start.bytePosition, r.end.bytePosition, ident);
    if width == 0 || (at == r.start.bytePosition && at + width == r.end.bytePosition) {
      return Ok(r);
    }
    if r.start.bytePosition < 0 {
      return Err(Panic);  // the byte at the start is read next
    }
    AdvanceOffset(buf, r.start, at);
    var start := Advance(buf, r.start, at);
    var end := Advance(buf, start, at + width);
    res := Ok(FileRange(r.source, start, end));
  }

  /** Every rune from a to e belongs to an identifier, and the next rune does not. */
  ghost predicate IsWholeRun(buf: bytes, a: nat, e: nat, limit: nat, ident: Ident)
    requires limit <= |buf|
  {
    AllBetween(buf, a, e, limit, ident) && (e < limit ==> !ident(RuneAt(buf, e, limit).0))
  }

  /** The range res is exactly the run of identifier runes at [at, at + width), whole up to limit. A run that
      is the whole reply leaves it as it is. */
  ghost predicate IsRunIn(buf: bytes, limit: nat, r: FileRange, res: FileRange, at: nat, width: nat, ident: Ident)
    requires limit <= |buf|
  {
    && width > 0 && 0 <= r.start.bytePosition <= at && at + width <= limit
    && res.start.bytePosition == at && res.end.bytePosition == at + width && res.source == r.source
    && IsWholeRun(buf, at, at + width, limit, ident)
    && if r.end.bytePosition == at + width && r.start.bytePosition == at then res == r
       else res.start == AdvanceTo(buf, r.start, at) && res.end == AdvanceTo(buf, res.start, at + width)
  }

  /** What the repair does with every reply. It stays as it is without a source, when it is empty, and when no
      rune from its start to its end, or to the end of the buffer, is an identifier rune. Otherwise it becomes
      the first identifier, whole; but a reply that starts below the buffer makes the repair panic then. */
  lemma PythonRepairIsFirstRun(src: Option<Source>, r: FileRange, ident: Ident)
    ensures var (start, end) := (r.start.bytePosition, r.end.bytePosition);
            if src.None? || start >= end || end < 0 then PythonReply(src, r, ident) == Ok(r)
            else
              var buf := src.value.buffer;
              var from: nat := if start < 0 then 0 else start;
              var limit: nat := if end < |buf| then end else |buf|;
              if from > limit || NoneBetween(buf, from, limit, limit, ident) then PythonReply(src, r, ident) == Ok(r)
              else if start < 0 then PythonReply(src, r, ident) == Err(Panic)
              else
                && PythonReply(src, r, ident).Ok?
                && exists at: nat, width: nat ::
                     && IsRunIn(buf, limit, r, PythonReply(src, r, ident).value, at, width, ident)
                     && NoneBetween(buf, from, at, limit, ident)
  {
    hide AdvanceTo, FirstRun, RuneAt, NoneBetween, AllBetween, IsWholeRun;
    var (start, end) := (r.start.bytePosition, r.end.bytePosition);
    if src.Some? && start < end {
      var buf := src.value.buffer;
      var from, limit := FromZero(start), Limit(buf, end);
      var (at, width) := FirstRun(buf, from, end, ident);
      FirstRunIsRun(buf, from, end, ident);
      if from <= limit && NoneBetween(buf, from, limit, limit, ident) {
        NoRunInRest(buf, from, end, ident);
      } else if from > limit {
        NoRunBehindEnd(buf, from, end, ident);
      }
      if end < 0 {
        NothingBetween(buf, 0, 0, ident);
      }
      if width > 0 && start >= 0 {
        assert IsRunIn(buf, limit, r, PythonRepair(src, r, ident), at, width, ident);
      }
    }
  }

  lemma NoRunBehindEnd(buf: bytes, from: nat, end: int, ident: Ident)
    requires from >= Limit(buf, end)
    ensures FirstRun(buf, from, end, ident).1 == 0
  {
    hide RuneAt;
  }

  /** The narrowed range has consistent positions wherever the reply starts at one. */
  lemma PythonRepairIsConsistent(src: Source, r: FileRange, ident: Ident)
    requires Consistent(src.buffer, r.start)
    ensures var res := PythonReply(Some(src), r, ident);
            && res.Ok? && Consistent(src.buffer, res.value.start)
            && (res.value != r ==> Consistent(src.buffer, res.value.end))
  {
    hide AdvanceTo, FirstRun, PointAt;
    var buf := src.buffer;
    var (at, width) := FirstRun(buf, r.start.bytePosition, r.end.bytePosition, ident);
    if width > 0 {
      NarrowConsistent(buf, r, at, width);
    }
  }

  lemma NarrowConsistent(buf: bytes, r: FileRange, at: nat, width: nat)
    requires 0 <= r.start.bytePosition <= at && at + width <= |buf|
    ensures Consistent(buf, r.start) ==>
              Consistent(buf, Narrow(buf, r, at, width).start) && Consistent(buf, Narrow(buf, r, at, width).end)
  {
    if Consistent(buf, r.start) {
      NarrowIsConsistent(buf, r, at, width);
    }
  }

  /** Repairing a repaired range changes nothing. */
  lemma PythonReplyTwice(src: Option<Source>, r: FileRange, ident: Ident)
    ensures var res := PythonReply(src, r, ident);
            res.Ok? ==> PythonReply(src, res.value, ident) == res
  {
    hide PythonRepair, FirstRun;
    if 0 <= r.start.bytePosition {
      PythonRepairTwice(src, r, ident);
    }
  }

  /** The repair panics exactly on a reply that starts below a buffer with an identifier in front of its end. */
  lemma PythonPanicsExactly(src: Option<Source>, r: FileRange, ident: Ident)
    ensures PythonReply(src, r, ident) == Err(Panic) <==>
            && src.Some? && r.start.bytePosition < 0 <= r.end.bytePosition
            && var buf := src.value.buffer;
               var limit: nat := if r.end.bytePosition < |buf| then r.end.bytePosition else |buf|;
               !NoneBetween(buf, 0, limit, limit, ident)
  {
    hide PythonReply, NoneBetween, IsRunIn;
    PythonRepairIsFirstRun(src, r, ident);
  }

  lemma {:induction false} SkipsTo(buf: bytes, at: nat, r: nat, to: nat, ident: Ident)
    requires at <= to <= |buf| && NoneBetween(buf, at, r, to, ident) && (r < to ==> ident(RuneAt(buf, r, to).0))
    ensures SkipOthers(buf, at, to, ident) == r
    decreases (to) - at
  {
    hide RuneAt;
    if at != r {
      SkipsTo(buf, at + RuneAt(buf, at, to).1, r, to, ident);
    }
  }

  lemma PythonRepairTwice(src: Option<Source>, r: FileRange, ident: Ident)
    requires 0 <= r.start.bytePosition
    ensures var res := PythonRepair(src, r, ident);
            0 <= res.start.bytePosition && PythonRepair(src, res, ident) == res
  {
    hide AdvanceTo, FirstRun;
    if !PassesThrough(src, r) {
      var buf := src.value.buffer;
      var (at, width) := FirstRun(buf, r.start.bytePosition, r.end.bytePosition, ident);
      if width > 0 {
        FirstRunAgain(buf, r.start.bytePosition, r.end.bytePosition, ident);
      }
    }
  }

  // ------------------------------------------------------------------- TypeScript

  function AsString(word: bytes): string {
    seq(|word|, i requires 0 <= i < |word| => word[i] as char)
  }

  predicate IsSkippableKeyword(word: bytes) {
    AsString(word) in {
      "new", "readonly", "this", "keyof", "typeof", "infer",
      "any", "bigint", "boolean", "never", "null", "number", "object",
      "string", "symbol", "undefined", "unknown", "void"}
  }

  /** The first identifier that is no keyword, width 0 when there is none. */
  function FirstName(buf: bytes, from: nat, end: int, ident: Ident): (r: (nat, nat))
    ensures from <= r.0
    ensures r.1 > 0 ==> r.0 + r.1 <= Limit(buf, end)
    decreases end - from
  {
    if from >= end then (from, 0)
    else
      var (at, width) := FirstRun(buf, from, end, ident);
      if width == 0 || !IsSkippableKeyword(buf[at..at + width]) then (at, width)
      else FirstName(buf, at + width, end, ident)
  }

  function TypescriptRepair(src: Option<Source>, r: FileRange, ident: Ident): FileRange
    requires 0 <= r.start.bytePosition
  {
    if PassesThrough(src, r) then r
    else
      var buf := src.value.buffer;
      var (at, width) := FirstName(buf, r.start.bytePosition, r.end.bytePosition, ident);
      NarrowToRun(buf, r, at, width)
  }

  function TypescriptReply(src: Option<Source>, r: FileRange, ident: Ident): Result<FileRange> {
    if 0 <= r.start.bytePosition then Ok(TypescriptRepair(src, r, ident))
    else if PassesThrough(src, r) || FirstName(src.value.buffer, 0, r.end.bytePosition, ident).1 == 0 then Ok(r)
    else Err(Panic)
  }

  method NormalizeTypescript(src: Option<Source>, r: FileRange, unicodeWord: Ident) returns (res: Result<FileRange>)
    ensures res == TypescriptReply(src, r, TypescriptIdent(unicodeWord))
  {
    var ident := TypescriptIdent(unicodeWord);
    hide TypescriptIdent, FirstRun, AdvanceTo, IsSkippableKeyword;
    if PassesThrough(src, r) {
      return Ok(r);
    }
    var buf := src.value.buffer;
    var at: int, width: nat := r.start.bytePosition, 0;
    while at < r.end.bytePosition
      invariant width == 0 && r.start.bytePosition <= at
      invariant FirstName(buf, FromZero(r.start.bytePosition), r.end.bytePosition, ident) ==
                FirstName(buf, FromZero(at), r.end.bytePosition, ident)
      decreases r.end.bytePosition - at
    {
      at, width := FirstIdentifier(buf, at, r.end.bytePosition, ident);
      if width == 0 {
        return Ok(r);
      }
      if !IsSkippableKeyword(buf[at..at + width]) {
        break;
      }
      at := at + width;
      width := 0;
    }
    if width == 0 || (at == r.start.bytePosition && at + width == r.end.bytePosition) {
      return Ok(r);
    }
    if r.start.bytePosition < 0 {
      return Err(Panic);  // the byte at the start is read next
    }
    AdvanceOffset(buf, r.start, at);
    var start := Advance(buf, r.start, at);
    var end := Advance(buf, start, at + width);
    res := Ok(FileRange(r.source, start, end));
  }

  /** From i to j lie whole identifiers, each a keyword, and other runes between them: the first other
      runes end at a, and the identifier that starts there ends at e, before a rune of another kind. */
  ghost predicate OnlyKeywordsBetween(buf: bytes, i: nat, j: nat, limit: nat, ident: Ident)
    requires limit <= |buf|
    decreases limit - i
  {
    || NoneBetween(buf, i, j, limit, ident)
    || exists a: nat, e: nat ::
         && i <= a < e <= limit
         && NoneBetween(buf, i, a, limit, ident) && IsWholeRun(buf, a, e, limit, ident)
         && IsSkippableKeyword(buf[a..e]) && OnlyKeywordsBetween(buf, e, j, limit, ident)
  }

  /** The run at [at, at + width) is a whole identifier, no keyword, and only keywords stand before it. */
  ghost predicate IsNameBehind(buf: bytes, from: nat, at: nat, width: nat, limit: nat, ident: Ident)
    requires limit <= |buf|
  {
    && width > 0 && at + width <= limit
    && OnlyKeywordsBetween(buf, from, at, limit, ident)
    && IsWholeRun(buf, at, at + width, limit, ident)
    && !IsSkippableKeyword(buf[at..at + width])
    && FirstRun(buf, at, at + width, ident) == (at, width)
  }

  lemma {:induction false} FirstNameIsFirst(buf: bytes, from: nat, end: int, ident: Ident)
    ensures var (at, width) := FirstName(buf, from, end, ident);
            var limit := Limit(buf, end);
            if width > 0 then IsNameBehind(buf, from, at, width, limit, ident)
            else from <= limit ==> OnlyKeywordsBetween(buf, from, limit, limit, ident)
    decreases end - from
  {
    hide FirstRun, RuneAt, NoneBetween, AllBetween, IsSkippableKeyword, OnlyKeywordsBetween, IsNameBehind;
    var limit := Limit(buf, end);
    if from >= end {
      NothingBetween(buf, from, limit, ident);
      OthersOnly(buf, from, from, limit, ident);
    } else {
      var (at, width) := FirstRun(buf, from, end, ident);
      FirstRunIsRun(buf, from, end, ident);
      if width == 0 {
        OthersOnly(buf, from, at, limit, ident);
      } else if IsSkippableKeyword(buf[at..at + width]) {
        FirstNameIsFirst(buf, at + width, end, ident);
        var (a, w) := FirstName(buf, from, end, ident);
        NameBehindKeyword(buf, from, at, at + width, a, w, limit, ident);
        KeywordFirst(buf, from, at, at + width, limit, limit, ident);
      } else {
        RunIsName(buf, from, end, ident);
      }
    }
  }

  lemma FirstRunIsRun(buf: bytes, from: nat, end: int, ident: Ident)
    ensures var (at, width) := FirstRun(buf, from, end, ident);
            var limit := Limit(buf, end);
            && NoneBetween(buf, from, at, limit, ident)
            && IsWholeRun(buf, at, at + width, limit, ident)
            && (width == 0 && from <= limit ==> at == limit)
  {
    hide RuneAt, NoneBetween, AllBetween, SkipOthers, RunEnd;
    var (at, width) := FirstRun(buf, from, end, ident);
    RunStep(buf, at, Limit(buf, end), ident);
  }

  lemma RunIsName(buf: bytes, from: nat, end: int, ident: Ident)
    requires var (at, width) := FirstRun(buf, from, end, ident); width > 0 && !IsSkippableKeyword(buf[at..at + width])
    ensures var (at, width) := FirstRun(buf, from, end, ident);
            IsNameBehind(buf, from, at, width, Limit(buf, end), ident)
  {
    hide FirstRun, RuneAt, NoneBetween, AllBetween, IsSkippableKeyword, OnlyKeywordsBetween;
    var (at, width) := FirstRun(buf, from, end, ident);
    FirstRunIsRun(buf, from, end, ident);
    FirstRunAgain(buf, from, end, ident);
    OthersOnly(buf, from, at, Limit(buf, end), ident);
  }

  lemma NameBehindKeyword(buf: bytes, i: nat, a: nat, e: nat, at: nat, width: nat, limit: nat, ident: Ident)
    requires limit <= |buf| && i <= a < e <= limit
    requires NoneBetween(buf, i, a, limit, ident) && IsWholeRun(buf, a, e, limit, ident)
    requires IsSkippableKeyword(buf[a..e])
    ensures IsNameBehind(buf, e, at, width, limit, ident) ==> IsNameBehind(buf, i, at, width, limit, ident)
  {
    hide FirstRun, RuneAt, NoneBetween, AllBetween, IsSkippableKeyword, OnlyKeywordsBetween;
    KeywordFirst(buf, i, a, e, at, limit, ident);
  }

  lemma OthersOnly(buf: bytes, i: nat, j: nat, limit: nat, ident: Ident)
    requires limit <= |buf| && NoneBetween(buf, i, j, limit, ident)
    ensures OnlyKeywordsBetween(buf, i, j, limit, ident)
  {
    hide NoneBetween;
  }

  lemma KeywordFirst(buf: bytes, i: nat, a: nat, e: nat, j: nat, limit: nat, ident: Ident)
    requires limit <= |buf| && i <= a < e <= limit
    requires NoneBetween(buf, i, a, limit, ident) && IsWholeRun(buf, a, e, limit, ident)
    requires IsSkippableKeyword(buf[a..e])
    ensures OnlyKeywordsBetween(buf, e, j, limit, ident) ==> OnlyKeywordsBetween(buf, i, j, limit, ident)
  {
    hide NoneBetween, AllBetween, IsSkippableKeyword;
  }

  lemma NothingBetween(buf: bytes, i: nat, limit: nat, ident: Ident)
    requires limit <= |buf|
    ensures NoneBetween(buf, i, i, limit, ident)
  {}

  /** The same for TypeScript: a reply with whole identifiers that are keywords only stays as it is, and any
      other becomes its first identifier that is no keyword. */
  lemma TypescriptRepairIsFirstName(src: Option<Source>, r: FileRange, ident: Ident)
    ensures var (start, end) := (r.start.bytePosition, r.end.bytePosition);
            if src.None? || start >= end || end < 0 then TypescriptReply(src, r, ident) == Ok(r)
            else
              var buf := src.value.buffer;
              var from: nat := if start < 0 then 0 else start;
              var limit: nat := if end < |buf| then end else |buf|;
              if from > limit || OnlyKeywordsBetween(buf, from, limit, limit, ident) then
                TypescriptReply(src, r, ident) == Ok(r)
              else if start < 0 then TypescriptReply(src, r, ident) == Err(Panic)
              else
                && TypescriptReply(src, r, ident).Ok?
                && exists at: nat, width: nat ::
                     && IsRunIn(buf, limit, r, TypescriptReply(src, r, ident).value, at, width, ident)
                     && OnlyKeywordsBetween(buf, from, at, limit, ident)
                     && !IsSkippableKeyword(buf[at..at + width])
  {
    hide AdvanceTo, FirstName, RuneAt, NoneBetween, AllBetween, IsWholeRun, OnlyKeywordsBetween, IsSkippableKeyword;
    var (start, end) := (r.start.bytePosition, r.end.bytePosition);
    if src.Some? && start < end {
      var buf := src.value.buffer;
      var from, limit := FromZero(start), Limit(buf, end);
      var (at, width) := FirstName(buf, from, end, ident);
      FirstNameIsFirst(buf, from, end, ident);
      if from <= limit && OnlyKeywordsBetween(buf, from, limit, limit, ident) {
        OnlyKeywordsNoName(buf, from, end, ident);
      } else if from > limit {
        NoNameBehindEnd(buf, from, end, ident);
      }
      if end < 0 {
        NoNameBehindEnd(buf, 0, end, ident);
      }
      if width > 0 && start >= 0 {
        assert IsRunIn(buf, limit, r, TypescriptRepair(src, r, ident), at, width, ident);
      }
    }
  }

  lemma NoNameBehindEnd(buf: bytes, from: nat, end: int, ident: Ident)
    requires from >= Limit(buf, end)
    ensures FirstName(buf, from, end, ident).1 == 0
  {
    hide FirstRun;
    NoRunBehindEnd(buf, from, end, ident);
  }

  lemma TypescriptRepairIsConsistent(src: Source, r: FileRange, ident: Ident)
    requires Consistent(src.buffer, r.start)
    ensures var res := TypescriptReply(Some(src), r, ident);
            && res.Ok? && Consistent(src.buffer, res.value.start)
            && (res.value != r ==> Consistent(src.buffer, res.value.end))
  {
    hide AdvanceTo, FirstName, PointAt;
    var buf := src.buffer;
    var (at, width) := FirstName(buf, r.start.bytePosition, r.end.bytePosition, ident);
    if width > 0 {
      NarrowConsistent(buf, r, at, width);
    }
  }

  lemma {:induction false} RunEndsAt(buf: bytes, a: nat, e: nat, to: nat, ident: Ident)
    requires a <= to <= |buf| && IsWholeRun(buf, a, e, to, ident)
    ensures RunEnd(buf, a, to, ident) == e
    decreases (to) - a
  {
    hide RuneAt;
    if a != e {
      RunEndsAt(buf, a + RuneAt(buf, a, to).1, e, to, ident);
    }
  }

  lemma KeywordIsFirstRun(buf: bytes, i: nat, a: nat, e: nat, end: int, ident: Ident)
    requires i <= a < e <= Limit(buf, end)
    requires NoneBetween(buf, i, a, Limit(buf, end), ident) && IsWholeRun(buf, a, e, Limit(buf, end), ident)
    ensures FirstRun(buf, i, end, ident) == (a, e - a)
  {
    hide RuneAt, NoneBetween, SkipOthers, RunEnd;
    SkipsTo(buf, i, a, Limit(buf, end), ident);
    RunEndsAt(buf, a, e, Limit(buf, end), ident);
  }

  /** Where there are only keywords, no name is found. */
  lemma {:induction false} OnlyKeywordsNoName(buf: bytes, i: nat, end: int, ident: Ident)
    requires i <= Limit(buf, end) && OnlyKeywordsBetween(buf, i, Limit(buf, end), Limit(buf, end), ident)
    ensures FirstName(buf, i, end, ident).1 == 0
    decreases Limit(buf, end) - i
  {
    hide RuneAt, NoneBetween, IsWholeRun, IsSkippableKeyword, FirstRun;
    var limit := Limit(buf, end);
    if NoneBetween(buf, i, limit, limit, ident) {
      NoRunInRest(buf, i, end, ident);
    } else {
      var a: nat, e: nat :|
        && i <= a < e <= limit
        && NoneBetween(buf, i, a, limit, ident) && IsWholeRun(buf, a, e, limit, ident)
        && IsSkippableKeyword(buf[a..e]) && OnlyKeywordsBetween(buf, e, limit, limit, ident);
      KeywordIsFirstRun(buf, i, a, e, end, ident);
      OnlyKeywordsNoName(buf, e, end, ident);
    }
  }

  lemma NoRunInRest(buf: bytes, i: nat, end: int, ident: Ident)
    requires i <= Limit(buf, end) && NoneBetween(buf, i, Limit(buf, end), Limit(buf, end), ident)
    ensures FirstRun(buf, i, end, ident).1 == 0
  {
    hide RuneAt, NoneBetween, SkipOthers, RunEnd;
    SkipsTo(buf, i, Limit(buf, end), Limit(buf, end), ident);
    RunStep(buf, Limit(buf, end), Limit(buf, end), ident);
  }

  /** The repair panics exactly on a reply that starts below a buffer with a name that is no keyword in front
      of its end. */
  lemma TypescriptPanicsExactly(src: Option<Source>, r: FileRange, ident: Ident)
    ensures TypescriptReply(src, r, ident) == Err(Panic) <==>
            && src.Some? && r.start.bytePosition < 0 <= r.end.bytePosition
            && var buf := src.value.buffer;
               var limit: nat := if r.end.bytePosition < |buf| then r.end.bytePosition else |buf|;
               !OnlyKeywordsBetween(buf, 0, limit, limit, ident)
  {
    hide TypescriptReply, OnlyKeywordsBetween, IsRunIn, IsSkippableKeyword;
    TypescriptRepairIsFirstName(src, r, ident);
  }

  /** Repairing a repaired range changes nothing. */
  lemma TypescriptReplyTwice(src: Option<Source>, r: FileRange, ident: Ident)
    ensures var res := TypescriptReply(src, r, ident);
            res.Ok? ==> TypescriptReply(src, res.value, ident) == res
  {
    hide TypescriptRepair, FirstName;
    if 0 <= r.start.bytePosition {
      TypescriptRepairTwice(src, r, ident);
    }
  }

  lemma TypescriptRepairTwice(src: Option<Source>, r: FileRange, ident: Ident)
    requires 0 <= r.start.bytePosition
    ensures var res := TypescriptRepair(src, r, ident);
            0 <= res.start.bytePosition && TypescriptRepair(src, res, ident) == res
  {
    hide AdvanceTo, FirstRun, NoneBetween, AllBetween, RuneAt, OnlyKeywordsBetween, IsSkippableKeyword;
    if !PassesThrough(src, r) {
      FirstNameIsFirst(src.value.buffer, r.start.bytePosition, r.end.bytePosition, ident);
    }
  }
}
