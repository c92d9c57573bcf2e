/** Repairing the ranges that Swift's and Ruby's language servers answer with. */
module WidenedRange {
  import opened Bytes
  import opened FilePos
  import opened SourceText
  import opened Utf8
  import opened DefinitionRange

  const BACKTICK: byte := 96
  const SLASH: byte := 47
  const DOT: byte := 46

  // ------------------------------------------------------------------------ Swift

  predicate ContinuesSwift(rune: int, size: nat, unicodeWord: Ident) {
    !(rune == RUNE_ERROR && size <= 1) && PythonIdent(unicodeWord)(rune)
  }

  function SwiftRun(buf: bytes, at: nat, unicodeWord: Ident): (width: nat)
    requires at <= |buf|
    ensures at + width <= |buf|
    decreases |buf| - at
  {
    if at == |buf| then 0
    else
      var (rune, size) := RuneAt(buf, at, |buf|);
      if ContinuesSwift(rune, size, unicodeWord) then size + SwiftRun(buf, at + size, unicodeWord) else 0
  }

  /** The bytes of the identifier that starts at an offset, in backticks or not; 0 if there is none. */
  function SwiftIdentifierWidth(buf: bytes, at: int, unicodeWord: Ident): (width: nat)
    ensures width > 0 ==> 0 <= at && at + width <= |buf|
  {
    if at < 0 || at >= |buf| then 0
    else if buf[at] == BACKTICK then
      var closing := IndexByte(buf[at + 1..], BACKTICK);
      if closing >= 0 then closing + 2 else 0
    else SwiftRun(buf, at, unicodeWord)
  }

  method MeasureSwiftIdentifier(buf: bytes, at: int, unicodeWord: Ident) returns (width: nat)
    ensures width == SwiftIdentifierWidth(buf, at, unicodeWord)
  {
    hide RuneAt, ContinuesSwift;
    if at < 0 || at >= |buf| {
      return 0;
    }
    if buf[at] == BACKTICK {
      var closing := IndexByte(buf[at + 1..], BACKTICK);
      return if closing >= 0 then closing + 2 else 0;
    }
    width := 0;
    while at + width < |buf|
      invariant at + width <= |buf|
      invariant width + SwiftRun(buf, at + width, unicodeWord) == SwiftRun(buf, at, unicodeWord)
      decreases |buf| - width
    {
      var (r, size) := RuneAt(buf, at + width, |buf|);
      if !ContinuesSwift(r, size, unicodeWord) {
        break;
      }
      width := width + size;
    }
  }

  /** A zero-width reply is widened to the identifier at it. */
  function SwiftRepair(src: Option<Source>, r: FileRange, unicodeWord: Ident): FileRange {
    if src.None? || r.start.bytePosition != r.end.bytePosition then r
    else
      var width := SwiftIdentifierWidth(src.value.buffer, r.start.bytePosition, unicodeWord);
      if width == 0 then r
      else r.(end := FilePosition(r.end.line, r.end.column + width, r.end.bytePosition + width))
  }

  /** From i to j, rune by rune, every rune can stand in a name. */
  predicate AllSwift(buf: bytes, i: nat, j: nat, unicodeWord: Ident)
    decreases |buf| - i
  {
    || i == j
    || (i < j && i < |buf|
        && ContinuesSwift(RuneAt(buf, i, |buf|).0, RuneAt(buf, i, |buf|).1, unicodeWord)
        && AllSwift(buf, i + RuneAt(buf, i, |buf|).1, j, unicodeWord))
  }

  /** The bytes from at to e are a whole name: in backticks up to the first closing one, or else all the
      runes that can stand in a name. */
  ghost predicate IsSwiftName(buf: bytes, at: int, e: int, unicodeWord: Ident) {
    && 0 <= at < e <= |buf|
    && if buf[at] == BACKTICK then
         at + 1 < e && buf[e - 1] == BACKTICK && BACKTICK !in buf[at + 1..e - 1]
       else
         && AllSwift(buf, at, e, unicodeWord)
         && (e < |buf| ==> !ContinuesSwift(RuneAt(buf, e, |buf|).0, RuneAt(buf, e, |buf|).1, unicodeWord))
  }

  lemma {:induction false} SwiftRunEnds(buf: bytes, at: nat, e: nat, unicodeWord: Ident)
    requires at <= |buf|
    ensures var end := at + SwiftRun(buf, at, unicodeWord);
            && AllSwift(buf, at, end, unicodeWord)
            && (end < |buf| ==> !ContinuesSwift(RuneAt(buf, end, |buf|).0, RuneAt(buf, end, |buf|).1, unicodeWord))
    ensures (&& e <= |buf| && AllSwift(buf, at, e, unicodeWord)
             && (e < |buf| ==> !ContinuesSwift(RuneAt(buf, e, |buf|).0, RuneAt(buf, e, |buf|).1, unicodeWord))) ==>
              e == at + SwiftRun(buf, at, unicodeWord)
    decreases |buf| - at
  {
    hide RuneAt, ContinuesSwift;
    if at < |buf| {
      var (rune, size) := RuneAt(buf, at, |buf|);
      if ContinuesSwift(rune, size, unicodeWord) {
        SwiftRunEnds(buf, at + size, e, unicodeWord);
      }
    }
  }

  /** The width is that of the whole name at the offset, and 0 exactly if there is none. */
  lemma SwiftWidthIsName(buf: bytes, at: int, e: int, unicodeWord: Ident)
    ensures var width := SwiftIdentifierWidth(buf, at, unicodeWord);
            && (width > 0 ==> IsSwiftName(buf, at, at + width, unicodeWord))
            && (IsSwiftName(buf, at, e, unicodeWord) ==> width == e - at)
  {
    hide SwiftRun, AllSwift, RuneAt, ContinuesSwift;
    if 0 <= at < |buf| {
      if buf[at] == BACKTICK {
        BacktickEnds(buf, at, e);
      } else if at <= e {
        SwiftRunEnds(buf, at, e, unicodeWord);
      } else {
        SwiftRunEnds(buf, at, at, unicodeWord);
      }
    }
  }

  lemma BacktickEnds(buf: bytes, at: nat, e: int)
    requires at < |buf|
    ensures var closing := IndexByte(buf[at + 1..], BACKTICK);
            && (closing >= 0 ==> buf[at + 1 + closing] == BACKTICK && BACKTICK !in buf[at + 1..at + 1 + closing])
            && (at + 1 < e <= |buf| && buf[e - 1] == BACKTICK && BACKTICK !in buf[at + 1..e - 1] ==>
                 closing == e - at - 2)
  {
    var rest := buf[at + 1..];
    var closing := IndexByte(rest, BACKTICK);
    IndexIsFirst(rest, BACKTICK);
    if closing >= 0 {
      assert rest[..closing] == buf[at + 1..at + 1 + closing];
    }
    if at + 1 < e <= |buf| && buf[e - 1] == BACKTICK && BACKTICK !in buf[at + 1..e - 1] {
      assert rest == buf[at + 1..e - 1] + [BACKTICK] + buf[e..];
      IndexUnique(buf[at + 1..e - 1], BACKTICK, buf[e..]);
    }
  }

  /** The repair widens an empty reply to the whole name at it, by as many columns as bytes, and leaves
      any other reply, and one at which no name starts, as it is. */
  lemma SwiftRepairIsName(src: Option<Source>, r: FileRange, unicodeWord: Ident)
    ensures var (res, at) := (SwiftRepair(src, r, unicodeWord), r.start.bytePosition);
            && (res != r ==>
                 && src.Some? && at == r.end.bytePosition
                 && IsSwiftName(src.value.buffer, at, res.end.bytePosition, unicodeWord))
            && forall e: int | src.Some? && at == r.end.bytePosition
                 && IsSwiftName(src.value.buffer, at, e, unicodeWord) ::
                 res == r.(end := FilePosition(r.end.line, r.end.column + (e - at), e))
  {
    hide SwiftIdentifierWidth, IsSwiftName;
    if src.Some? {
      var (buf, at) := (src.value.buffer, r.start.bytePosition);
      SwiftWidthIsName(buf, at, at, unicodeWord);
      forall e: int | IsSwiftName(buf, at, e, unicodeWord)
        ensures SwiftIdentifierWidth(buf, at, unicodeWord) == e - at && e > at
      {
        SwiftWidthIsName(buf, at, e, unicodeWord);
        NameIsNotEmpty(buf, at, e, unicodeWord);
      }
    }
  }

  lemma NameIsNotEmpty(buf: bytes, at: int, e: int, unicodeWord: Ident)
    requires IsSwiftName(buf, at, e, unicodeWord)
    ensures e > at
  {}

  lemma SwiftRepairTwice(src: Option<Source>, r: FileRange, unicodeWord: Ident)
    ensures var res := SwiftRepair(src, r, unicodeWord);
            SwiftRepair(src, res, unicodeWord) == res
  {
    hide SwiftRun;
  }

  lemma {:induction false} SwiftRunHasNoNewline(buf: bytes, at: nat, unicodeWord: Ident)
    requires at <= |buf|
    ensures NL !in buf[at..at + SwiftRun(buf, at, unicodeWord)]
    decreases |buf| - at
  {
    hide RuneAt, ContinuesSwift;
    if at < |buf| {
      var (rune, size) := RuneAt(buf, at, |buf|);
      if ContinuesSwift(rune, size, unicodeWord) {
        var width := SwiftRun(buf, at, unicodeWord);
        SwiftRunHasNoNewline(buf, at + size, unicodeWord);
        RuneHasNoNewline(buf, at, unicodeWord);
        assert buf[at..at + width] == buf[at..at + size] + buf[at + size..at + width];
      }
    }
  }

  lemma RuneHasNoNewline(buf: bytes, at: nat, unicodeWord: Ident)
    requires at < |buf|
    requires var (rune, size) := RuneAt(buf, at, |buf|); ContinuesSwift(rune, size, unicodeWord)
    ensures NL !in buf[at..at + RuneAt(buf, at, |buf|).1]
  {
    var s := buf[at..|buf|];
    var size := DecodeRune(s).1;
    ValidHasNoNewline(s);
    assert buf[at..at + size] == s[..size];
  }

  lemma ValidHasNoNewline(s: bytes)
    requires s != [] && DecodeRune(s).0 != 10 && DecodeRune(s) != (RUNE_ERROR, 1)
    ensures NL !in s[..DecodeRune(s).1]
  {
    assert StartsValid(s);
  }

  /** A name in backticks starts at the offset, and a line feed stands in it. */
  ghost predicate SpansLines(buf: bytes, at: nat) {
    && at < |buf| && buf[at] == BACKTICK
    && exists closing: nat :: IsClosing(buf, at, closing) && NL in buf[at + 1..closing]
  }

  predicate IsClosing(buf: bytes, at: nat, closing: nat) {
    at < closing < |buf| && buf[closing] == BACKTICK && BACKTICK !in buf[at + 1..closing]
  }

  /** The end of a widened range is consistent exactly when the reply does not stand at a name in
      backticks that spans lines. */
  lemma SwiftRepairIsConsistent(src: Source, r: FileRange, unicodeWord: Ident)
    requires Consistent(src.buffer, r.start) && r.end == r.start
    ensures var res := SwiftRepair(Some(src), r, unicodeWord);
            && res.start == r.start && res.start.bytePosition <= res.end.bytePosition <= |src.buffer|
            && (Consistent(src.buffer, res.end) <==> !SpansLines(src.buffer, r.start.bytePosition))
  {
    hide SwiftRun, Point, PointAt, SpansLines;
    var buf, at := src.buffer, r.start.bytePosition;
    var end := SwiftRepair(Some(src), r, unicodeWord).end.bytePosition;
    PointMonotone(buf, at, end);
    if at < |buf| && buf[at] != BACKTICK {
      SwiftRunHasNoNewline(buf, at, unicodeWord);
    }
    LineFeedInName(buf, at, end, unicodeWord);
  }

  lemma LineFeedInName(buf: bytes, at: nat, end: nat, unicodeWord: Ident)
    requires at <= |buf| && end == at + SwiftIdentifierWidth(buf, at, unicodeWord)
    requires at < |buf| && buf[at] != BACKTICK ==> NL !in buf[at..end]
    ensures NL in buf[at..end] <==> SpansLines(buf, at)
  {
    hide SwiftRun;
    if at < |buf| && buf[at] == BACKTICK {
      if end > at {
        BacktickEnds(buf, at, end);
        assert IsClosing(buf, at, end - 1);
        assert buf[at..end] == [BACKTICK] + buf[at + 1..end - 1] + [BACKTICK];
      }
      forall closing: nat | IsClosing(buf, at, closing) ensures closing == end - 1 {
        BacktickEnds(buf, at, closing + 1);
      }
    }
  }

  /** Such a name: a line feed in backticks. */
  lemma NameWithLineFeed(path: bytes, unicodeWord: Ident)
    ensures var src := Source([], path, [BACKTICK, NL, BACKTICK]);
            var reply := FileRange(src, FilePosition(0, 0, 0), FilePosition(0, 0, 0));
            && Consistent(src.buffer, reply.start)
            && SwiftRepair(Some(src), reply, unicodeWord).end == FilePosition(0, 3, 3)
            && !Consistent(src.buffer, FilePosition(0, 3, 3))
  {
    var buf := [BACKTICK, NL, BACKTICK];
    BacktickEnds(buf, 0, 3);
    PointAtStart(buf);
    PointNext(buf, 0);
    PointNext(buf, 1);
    PointNext(buf, 2);
  }

  // ------------------------------------------------------------------------- Ruby

  /** The extension of a path's last element, with its dot. */
  function Ext(path: bytes): bytes {
    if path == [] || path[|path| - 1] == SLASH then []
    else if path[|path| - 1] == DOT then [DOT]
    else
      var ext := Ext(path[..|path| - 1]);
      if ext == [] then [] else ext + [path[|path| - 1]]
  }

  const RBS: bytes := [DOT, 114, 98, 115]

  predicate BehindSingleColon(buf: bytes, pos: FilePosition) {
    && pos.column > 0 && 0 < pos.bytePosition <= |buf|
    && buf[pos.bytePosition - 1] == COLON
    && (pos.bytePosition < 2 || buf[pos.bytePosition - 2] != COLON)
  }

  /** A reply in a signature stub collapses; one behind a single colon takes the colon in. */
  function RubyRepair(src: Option<Source>, r: FileRange): FileRange {
    if src.None? then r
    else if Ext(src.value.path) == RBS then r.(end := r.start)
    else if BehindSingleColon(src.value.buffer, r.start) then
      r.(start := FilePosition(r.start.line, r.start.column - 1, r.start.bytePosition - 1))
    else r
  }

  /** The extension of a path is .rbs exactly if the path ends in it. */
  lemma StubExactly(path: bytes)
    ensures Ext(path) == RBS <==> EndsInRbs(path)
  {
    var n := |path|;
    if n >= 4 && EndsInRbs(path) {
      assert path[..n - 1][..n - 2] == path[..n - 2] && path[..n - 2][..n - 3] == path[..n - 3];
      assert Ext(path[..n - 3]) == [DOT];
      assert Ext(path[..n - 2]) == [DOT, 114];
      assert Ext(path[..n - 1]) == [DOT, 114, 98];
    } else if Ext(path) == RBS {
      ExtEndsPath(path);
    }
  }

  predicate EndsInRbs(path: bytes) {
    var n := |path|;
    n >= 4 && path[n - 4] as char == '.' && path[n - 3] as char == 'r' && path[n - 2] as char == 'b'
    && path[n - 1] as char == 's'
  }

  lemma {:induction false} ExtEndsPath(path: bytes)
    ensures |Ext(path)| <= |path| && path[|path| - |Ext(path)|..] == Ext(path)
  {
    if path != [] && path[|path| - 1] != SLASH && path[|path| - 1] != DOT {
      ExtEndsPath(path[..|path| - 1]);
    }
  }

  /** A stub's reply collapses to its start. In any other file a start directly behind a colon that no other
      colon precedes, on the same line, takes the colon in; the end and every other reply stay. */
  lemma RubyRepairExactly(src: Option<Source>, r: FileRange)
    ensures src.None? ==> RubyRepair(src, r) == r
    ensures src.Some? && EndsInRbs(src.value.path) ==> RubyRepair(src, r) == FileRange(r.source, r.start, r.start)
    ensures src.Some? && !EndsInRbs(src.value.path) ==>
              var buf, p := src.value.buffer, r.start;
              if p.column > 0 && 1 <= p.bytePosition <= |buf| && buf[p.bytePosition - 1] as char == ':'
                 && !(p.bytePosition >= 2 && buf[p.bytePosition - 2] as char == ':') then
                RubyRepair(src, r) ==
                FileRange(r.source, FilePosition(p.line, p.column - 1, p.bytePosition - 1), r.end)
              else RubyRepair(src, r) == r
  {
    hide Ext;
    if src.Some? {
      StubExactly(src.value.path);
    }
  }

  lemma RubyRepairTwice(src: Option<Source>, r: FileRange)
    ensures RubyRepair(src, RubyRepair(src, r)) == RubyRepair(src, r)
  {
    hide Ext;
  }

  /** Taking the colon in keeps the start consistent: the colon is on the same line. */
  lemma RubyRepairIsConsistent(src: Source, r: FileRange)
    requires Consistent(src.buffer, r.start)
    ensures Consistent(src.buffer, RubyRepair(Some(src), r).start)
    ensures RubyRepair(Some(src), r).start.bytePosition <= r.start.bytePosition
  {
    hide Ext, Point, PointAt;
    if BehindSingleColon(src.buffer, r.start) {
      PointNext(src.buffer, r.start.bytePosition - 1);
    }
  }
}
