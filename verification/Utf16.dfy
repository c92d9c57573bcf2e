/** Columns in UTF-16 code units, as language servers count them: a rune above U+FFFF is a surrogate
    pair and takes two (section 2.1 of RFC 2781). */
module Utf16 {
  import opened Bytes
  import opened FilePos
  import opened Utf8

  function RuneWidth(rune: int): (n: nat)
    ensures 1 <= n <= 2
  {
    if rune >= 0x10000 then 2 else 1
  }

  // The rune that starts at a byte offset, as a range loop over the string decodes it.
  function RuneOf(s: bytes, i: nat): (int, nat)
    requires i < |s|
  {
    DecodeRune(s[i..])
  }

  function After(s: bytes, i: nat): (j: nat)
    requires i < |s|
    ensures i < j <= |s|
  {
    i + RuneOf(s, i).1
  }

  /** Going on rune by rune from byte i at column c, byte b is reached at column col. */
  predicate Reaches(s: bytes, i: nat, c: nat, b: nat, col: nat)
    requires i <= |s|
    decreases |s| - i
  {
    (i == b && c == col) || (i < |s| && Reaches(s, After(s, i), c + RuneWidth(RuneOf(s, i).0), b, col))
  }

  /** Byte b is a rune boundary, and its column is col. */
  predicate IsColumn(s: bytes, b: nat, col: nat) { Reaches(s, 0, 0, b, col) }

  function LenFrom(s: bytes, i: nat): nat
    requires i <= |s|
    decreases |s| - i
  {
    if i == |s| then 0 else RuneWidth(RuneOf(s, i).0) + LenFrom(s, After(s, i))
  }

  function Utf16Len(s: bytes): nat { LenFrom(s, 0) }

  lemma {:induction false} ReachesBounds(s: bytes, i: nat, c: nat, b: nat, col: nat)
    requires i <= |s| && Reaches(s, i, c, b, col)
    ensures i <= b <= |s| && c <= col
    ensures i < b ==> After(s, i) <= b && c + RuneWidth(RuneOf(s, i).0) <= col
    ensures i < b <==> c < col
    ensures b < |s| ==> col + RuneWidth(RuneOf(s, b).0) <= c + LenFrom(s, i)
    ensures b == |s| ==> col == c + LenFrom(s, i)
    decreases |s| - i
  {
    hide RuneOf, RuneWidth;
    if !(i == b && c == col) {
      ReachesBounds(s, After(s, i), c + RuneWidth(RuneOf(s, i).0), b, col);
    }
  }

  /** Rune boundaries and their columns are in one-to-one correspondence. */
  lemma {:induction false} ReachesOneToOne(s: bytes, i: nat, c: nat, b: nat, col: nat, b': nat, col': nat)
    requires i <= |s| && Reaches(s, i, c, b, col) && Reaches(s, i, c, b', col')
    ensures b == b' <==> col == col'
    ensures b < b' <==> col < col'
    decreases |s| - i
  {
    hide RuneOf, RuneWidth;
    ReachesBounds(s, i, c, b, col);
    ReachesBounds(s, i, c, b', col');
    if i < b && i < b' {
      ReachesOneToOne(s, After(s, i), c + RuneWidth(RuneOf(s, i).0), b, col, b', col');
    }
  }

  lemma {:induction false} ReachesNext(s: bytes, i: nat, c: nat, b: nat, col: nat)
    requires i <= |s| && Reaches(s, i, c, b, col) && b < |s|
    ensures Reaches(s, i, c, After(s, b), col + RuneWidth(RuneOf(s, b).0))
    decreases |s| - i
  {
    hide RuneOf, RuneWidth;
    if !(i == b && c == col) {
      ReachesNext(s, After(s, i), c + RuneWidth(RuneOf(s, i).0), b, col);
    }
  }

  /** Between a boundary and the next one there is none. */
  lemma NoneInside(s: bytes, b: nat, col: nat, b': nat, col': nat)
    requires IsColumn(s, b, col) && IsColumn(s, b', col') && b < b'
    ensures b < |s| && After(s, b) <= b' && col + RuneWidth(RuneOf(s, b).0) <= col'
  {
    hide RuneOf, RuneWidth, Reaches;
    ReachesBounds(s, 0, 0, b', col');
    ReachesNext(s, 0, 0, b, col);
    NextIsFirst(s, 0, 0, b, col, b', col');
  }

  lemma {:induction false} NextIsFirst(s: bytes, i: nat, c: nat, b: nat, col: nat, b': nat, col': nat)
    requires i <= |s| && Reaches(s, i, c, b, col) && Reaches(s, i, c, b', col') && b < b' <= |s|
    ensures After(s, b) <= b' && col + RuneWidth(RuneOf(s, b).0) <= col'
    decreases |s| - i
  {
    hide RuneOf, RuneWidth;
    ReachesBounds(s, i, c, b, col);
    ReachesBounds(s, i, c, b', col');
    if i < b {
      NextIsFirst(s, After(s, i), c + RuneWidth(RuneOf(s, i).0), b, col, b', col');
    }
  }

  /** The columns that no offset has are exactly those past the end and those inside a surrogate pair. */
  lemma {:induction false} ColumnOrInsidePair(s: bytes, i: nat, c: nat, col: nat) returns (b: nat, inside: bool)
    requires i <= |s| && c <= col <= c + LenFrom(s, i)
    ensures b <= |s|
    ensures if inside then col > 0 && Reaches(s, i, c, b, col - 1) && b < |s| && RuneWidth(RuneOf(s, b).0) == 2
            else Reaches(s, i, c, b, col)
    decreases |s| - i
  {
    hide RuneOf;
    if c == col {
      b, inside := i, false;
    } else if c + 1 == col && RuneWidth(RuneOf(s, i).0) == 2 {
      b, inside := i, true;
    } else {
      b, inside := ColumnOrInsidePair(s, After(s, i), c + RuneWidth(RuneOf(s, i).0), col);
    }
  }

  lemma InsidePairIsNoColumn(s: bytes, b: nat, col: nat, b': nat)
    requires IsColumn(s, b, col) && b < |s| && RuneWidth(RuneOf(s, b).0) == 2
    ensures !IsColumn(s, b', col + 1)
  {
    hide RuneOf, RuneWidth, Reaches;
    if IsColumn(s, b', col + 1) {
      ReachesOneToOne(s, 0, 0, b, col, b', col + 1);
      NoneInside(s, b, col, b', col + 1);
      assert false;
    }
  }

  // ------------------------------------------------------------------ conversions

  /** The byte offset of a column, if some rune boundary has it. */
  method ByteOffsetForUTF16Column(s: bytes, column: int) returns (r: Option<nat>)
    ensures r.Some? ==> column >= 0 && IsColumn(s, r.value, column)
    ensures forall b: nat | column >= 0 && IsColumn(s, b, column) :: r == Some(b)
    ensures r.None? <==> column < 0 || forall b: nat :: !IsColumn(s, b, column)
  {
    hide RuneOf, RuneWidth, Reaches;
    if column < 0 {
      return None;
    }
    var current: nat, byteIndex: nat := 0, 0;
    ReachesSelf(s, 0, 0);
    while byteIndex < |s|
      invariant byteIndex <= |s| && current <= column
      invariant Reaches(s, 0, 0, byteIndex, current)
      decreases |s| - byteIndex
    {
      if current == column {
        OnlyOffset(s, byteIndex, column);
        return Some(byteIndex);
      }
      var width := RuneWidth(RuneOf(s, byteIndex).0);
      if current + width > column {
        NoColumnWithin(s, byteIndex, current, column);
        return None;
      }
      ReachesNext(s, 0, 0, byteIndex, current);
      current := current + width;
      byteIndex := After(s, byteIndex);
    }
    if current == column {
      OnlyOffset(s, byteIndex, column);
      return Some(|s|);
    }
    NoColumnPastEnd(s, current, column);
    r := None;
  }

  lemma ReachesSelf(s: bytes, i: nat, c: nat)
    requires i <= |s|
    ensures Reaches(s, i, c, i, c)
  {}

  lemma OnlyOffset(s: bytes, b: nat, col: nat)
    requires IsColumn(s, b, col)
    ensures forall b': nat | IsColumn(s, b', col) :: b' == b
  {
    hide Reaches;
    forall b': nat | IsColumn(s, b', col) ensures b' == b {
      ReachesOneToOne(s, 0, 0, b, col, b', col);
    }
  }

  lemma NoColumnWithin(s: bytes, b: nat, col: nat, column: nat)
    requires IsColumn(s, b, col) && b < |s| && col < column < col + RuneWidth(RuneOf(s, b).0)
    ensures forall b': nat :: !IsColumn(s, b', column)
  {
    hide Reaches, RuneOf, RuneWidth;
    forall b': nat ensures !IsColumn(s, b', column) {
      if IsColumn(s, b', column) {
        ReachesOneToOne(s, 0, 0, b, col, b', column);
        NoneInside(s, b, col, b', column);
        assert false;
      }
    }
  }

  lemma NoColumnPastEnd(s: bytes, col: nat, column: nat)
    requires IsColumn(s, |s|, col) && col < column
    ensures forall b': nat :: !IsColumn(s, b', column)
  {
    hide Reaches;
    forall b': nat ensures !IsColumn(s, b', column) {
      if IsColumn(s, b', column) {
        ReachesOneToOne(s, 0, 0, |s|, col, b', column);
        ReachesBounds(s, 0, 0, b', column);
        assert false;
      }
    }
  }

  /** The column of a byte offset, if it is a rune boundary. */
  method Utf16ColumnAtByteOffset(s: bytes, byteOffset: int) returns (r: Option<nat>)
    ensures r.Some? ==> byteOffset >= 0 && IsColumn(s, byteOffset, r.value)
    ensures forall col: nat | byteOffset >= 0 && IsColumn(s, byteOffset, col) :: r == Some(col)
    ensures r.None? <==> byteOffset < 0 || forall col: nat :: !IsColumn(s, byteOffset, col)
  {
    hide RuneOf, RuneWidth, Reaches;
    if byteOffset < 0 {
      return None;
    }
    if byteOffset > |s| {
      NoBoundaryPastEnd(s, byteOffset);
      return None;
    }
    var column: nat, byteIndex: nat := 0, 0;
    ghost var previous: nat, previousColumn: nat := 0, 0;
    ReachesSelf(s, 0, 0);
    while byteIndex < |s|
      invariant byteIndex <= |s|
      invariant Reaches(s, 0, 0, byteIndex, column) && Reaches(s, 0, 0, previous, previousColumn)
      invariant byteIndex == 0 || (previous < byteOffset && previous < |s| && byteIndex == After(s, previous))
      decreases |s| - byteIndex
    {
      if byteIndex == byteOffset {
        OnlyColumn(s, byteIndex, column);
        return Some(column);
      }
      if byteIndex > byteOffset {
        NoBoundaryWithin(s, previous, previousColumn, byteOffset);
        return None;
      }
      ReachesNext(s, 0, 0, byteIndex, column);
      previous, previousColumn := byteIndex, column;
      column := column + RuneWidth(RuneOf(s, byteIndex).0);
      byteIndex := After(s, byteIndex);
    }
    if byteOffset == |s| {
      OnlyColumn(s, byteIndex, column);
      return Some(column);
    }
    NoBoundaryWithin(s, previous, previousColumn, byteOffset);
    r := None;
  }

  lemma OnlyColumn(s: bytes, b: nat, col: nat)
    requires IsColumn(s, b, col)
    ensures forall col': nat | IsColumn(s, b, col') :: col' == col
  {
    hide Reaches;
    forall col': nat | IsColumn(s, b, col') ensures col' == col {
      ReachesOneToOne(s, 0, 0, b, col, b, col');
    }
  }

  lemma NoBoundaryPastEnd(s: bytes, b: nat)
    requires b > |s|
    ensures forall col: nat :: !IsColumn(s, b, col)
  {
    hide Reaches;
    forall col: nat ensures !IsColumn(s, b, col) {
      if IsColumn(s, b, col) {
        ReachesBounds(s, 0, 0, b, col);
        assert false;
      }
    }
  }

  lemma NoBoundaryWithin(s: bytes, b: nat, col: nat, offset: nat)
    requires IsColumn(s, b, col) && b < |s| && b < offset < After(s, b)
    ensures forall col': nat :: !IsColumn(s, offset, col')
  {
    hide Reaches, RuneOf, RuneWidth;
    forall col': nat ensures !IsColumn(s, offset, col') {
      if IsColumn(s, offset, col') {
        NoneInside(s, b, col, offset, col');
        assert false;
      }
    }
  }

  method ComputeUtf16Len(s: bytes) returns (n: nat)
    ensures n == Utf16Len(s)
  {
    hide RuneOf, RuneWidth;
    n := 0;
    var i := 0;
    while i < |s|
      invariant i <= |s| && n + LenFrom(s, i) == Utf16Len(s)
      decreases |s| - i
    {
      n := n + RuneWidth(RuneOf(s, i).0);
      i := After(s, i);
    }
  }

  /** The two conversions undo each other wherever they succeed, whichever goes first. */
  method ConversionsAreInverse(s: bytes, n: int)
    returns (offset: Option<nat>, column: Option<nat>, columnFirst: Option<nat>, offsetBack: Option<nat>)
    ensures offset.Some? ==> column == Some(n)
    ensures offset.None? ==> n < 0 || forall b: nat :: !IsColumn(s, b, n)
    ensures columnFirst.Some? ==> offsetBack == Some(n)
    ensures columnFirst.None? ==> n < 0 || forall col: nat :: !IsColumn(s, n, col)
  {
    hide Reaches;
    offset := ByteOffsetForUTF16Column(s, n);
    column := None;
    if offset.Some? {
      column := Utf16ColumnAtByteOffset(s, offset.value);
    }
    columnFirst := Utf16ColumnAtByteOffset(s, n);
    offsetBack := None;
    if columnFirst.Some? {
      offsetBack := ByteOffsetForUTF16Column(s, columnFirst.value);
    }
  }

  // --------------------------------------------------------------------- code units

  /** A rune in UTF-16: one unit, or a surrogate pair for a rune above U+FFFF (section 2.1 of RFC 2781). */
  function Units(rune: int): (u: seq<int>)
    requires IsScalar(rune)
  {
    if rune < 0x10000 then [rune]
    else [0xD800 + (rune - 0x10000) / 0x400, 0xDC00 + (rune - 0x10000) % 0x400]
  }

  predicate IsHigh(unit: int) { 0xD800 <= unit < 0xDC00 }

  predicate IsLow(unit: int) { 0xDC00 <= unit < 0xE000 }

  /** The units give the rune back: a pair is a high and a low surrogate, and a single unit is neither. */
  lemma UnitsDecode(rune: int)
    requires IsScalar(rune)
    ensures var u := Units(rune);
            if |u| == 1 then u == [rune] && 0 <= rune < 0x10000 && !IsHigh(u[0]) && !IsLow(u[0])
            else |u| == 2 && IsHigh(u[0]) && IsLow(u[1]) && 0x10000 + (u[0] - 0xD800) * 0x400 + (u[1] - 0xDC00) == rune
  {}

  /** A text of runes, and how many units they take. */
  function EncodeAll(runes: seq<int>): bytes
    requires forall r | r in runes :: IsScalar(r)
  {
    if runes == [] then [] else Encode(runes[0]) + EncodeAll(runes[1..])
  }

  function UnitCount(runes: seq<int>): nat
    requires forall r | r in runes :: IsScalar(r)
  {
    if runes == [] then 0 else |Units(runes[0])| + UnitCount(runes[1..])
  }

  lemma RuneTakesItsUnits(runes: seq<int>, s: bytes, i: nat)
    requires runes != [] && (forall r | r in runes :: IsScalar(r)) && i <= |s| && s[i..] == EncodeAll(runes)
    ensures i < |s| && RuneWidth(RuneOf(s, i).0) == |Units(runes[0])|
    ensures After(s, i) == i + |Encode(runes[0])| && s[After(s, i)..] == EncodeAll(runes[1..])
  {
    DecodeEncoded(runes[0], EncodeAll(runes[1..]));
    hide DecodeRune, Encode;
    assert |s[i..]| >= |Encode(runes[0])|;
    assert s[i + |Encode(runes[0])|..] == s[i..][|Encode(runes[0])|..];
  }

  /** In a text of runes, the boundary behind any number of them has as its column the units they take. */
  lemma {:induction false} ColumnsCountUnits(s: bytes, i: nat, c: nat, runes: seq<int>, k: nat)
    requires (forall r | r in runes :: IsScalar(r)) && i <= |s| && s[i..] == EncodeAll(runes) && k <= |runes|
    ensures Reaches(s, i, c, i + |EncodeAll(runes[..k])|, c + UnitCount(runes[..k]))
    decreases k
  {
    if k > 0 {
      RuneTakesItsUnits(runes, s, i);
      assert runes[..k][0] == runes[0] && runes[..k][1..] == runes[1..][..k - 1];
      ColumnsCountUnits(s, After(s, i), c + |Units(runes[0])|, runes[1..], k - 1);
      hide DecodeRune, Encode, Units, RuneOf, RuneWidth;
    }
  }

  /** So the column of the text behind k runes is the number of units of these k runes. */
  lemma ColumnOfRune(runes: seq<int>, k: nat)
    requires (forall r | r in runes :: IsScalar(r)) && k <= |runes|
    ensures IsColumn(EncodeAll(runes), |EncodeAll(runes[..k])|, UnitCount(runes[..k]))
  {
    hide Reaches, EncodeAll, UnitCount;
    assert EncodeAll(runes)[0..] == EncodeAll(runes);
    ColumnsCountUnits(EncodeAll(runes), 0, 0, runes, k);
  }

  // ------------------------------------------------------------- a position inside

  /** strings.Split at line feeds: always at least one line. */
  function Lines(text: bytes): (r: seq<bytes>)
    ensures r != []
    decreases |text|
  {
    match Cut(text, NL)
    case None => [text]
    case Some((line, rest)) => [line] + Lines(rest)
  }

  function TrimCR(line: bytes): bytes {
    if line != [] && line[|line| - 1] == CR then line[..|line| - 1] else line
  }

  predicate IsIgnored(rune: int) { rune in {34, 96, 39, 32, 9, 13, 10} }

  /** Quotes of the three kinds and the white space of a line. */
  ghost predicate IsQuoteOrSpace(rune: int) {
    || rune == '"' as int || rune == '\'' as int || rune == '`' as int
    || rune == ' ' as int || rune == '\t' as int || rune == '\r' as int || rune == '\n' as int
  }

  lemma IgnoredExactly(rune: int)
    ensures IsIgnored(rune) <==> IsQuoteOrSpace(rune)
  {}

  /** The rune at this column is one a definition request may point at. */
  ghost predicate VisibleAt(line: bytes, col: nat) {
    exists b: nat :: IsColumn(line, b, col) && b < |line| && !IsQuoteOrSpace(RuneOf(line, b).0)
  }

  /** The lines hold no line feed, and joined by line feeds they are the text. */
  lemma {:induction false} LinesExactly(text: bytes)
    ensures forall l | l in Lines(text) :: NL !in l
    ensures Joined(Lines(text)) == text
    decreases |text|
  {
    match Cut(text, NL) {
      case None => IndexIsFirst(text, NL);
      case Some((line, rest)) =>
        CutSplits(text, NL);
        LinesExactly(rest);
        assert ([line] + Lines(rest))[1..] == Lines(rest);
        assert line + [NL] + rest == text;
    }
  }

  function Joined(lines: seq<bytes>): bytes
    requires lines != []
  {
    if |lines| == 1 then lines[0] else lines[0] + [NL] + Joined(lines[1..])
  }

  /** One carriage return at the end is taken off, and nothing else. */
  lemma TrimCRExactly(line: bytes)
    ensures line == TrimCR(line) + (if line != [] && line[|line| - 1] == 13 then [13] else [])
  {}

  datatype RowAnswer = Bad | Blank | Hit(column: nat)

  ghost predicate ValidColumns(line: bytes, from: int, end: int) {
    && from <= end <= Utf16Len(line)
    && 0 <= from && (exists b: nat :: IsColumn(line, b, from)) && (exists b: nat :: IsColumn(line, b, end))
  }

  /** What a row contributes: its first visible rune among the columns from from up to end. */
  ghost predicate IsRowAnswer(line: bytes, from: int, end: int, a: RowAnswer) {
    match a
    case Bad => !ValidColumns(line, from, end)
    case Blank => ValidColumns(line, from, end) && forall c: nat | from <= c < end :: !VisibleAt(line, c)
    case Hit(col) =>
      && ValidColumns(line, from, end) && from <= col < end && VisibleAt(line, col)
      && forall c: nat | from <= c < col :: !VisibleAt(line, c)
  }

  // A rune decodes the same in a slice that ends on a later boundary.
  lemma RuneInSlice(s: bytes, b: nat, col: nat, end: nat, endCol: nat)
    requires IsColumn(s, b, col) && IsColumn(s, end, endCol) && b < end
    ensures end <= |s| && b < |s| && DecodeRune(s[b..end]) == RuneOf(s, b)
  {
    hide DecodeRune, RuneWidth, Reaches;
    ReachesBounds(s, 0, 0, end, endCol);
    NoneInside(s, b, col, end, endCol);
    assert s[b..][..end - b] == s[b..end];
    DecodePrefix(s[b..], end - b);
  }

  lemma NotVisible(line: bytes, b: nat, col: nat)
    requires IsColumn(line, b, col) && b < |line| && IsQuoteOrSpace(RuneOf(line, b).0)
    ensures forall c: nat | col <= c < col + RuneWidth(RuneOf(line, b).0) :: !VisibleAt(line, c)
  {
    hide Reaches, RuneOf, RuneWidth, IsQuoteOrSpace;
    forall c: nat | col <= c < col + RuneWidth(RuneOf(line, b).0) ensures !VisibleAt(line, c) {
      if VisibleAt(line, c) {
        var b': nat :| IsColumn(line, b', c) && b' < |line| && !IsQuoteOrSpace(RuneOf(line, b').0);
        ReachesOneToOne(line, 0, 0, b, col, b', c);
        if c > col {
          NoneInside(line, b, col, b', c);
        }
        assert false;
      }
    }
  }

  method FirstVisible(line: bytes, from: int, end: int) returns (a: RowAnswer)
    ensures IsRowAnswer(line, from, end, a)
  {
    hide Reaches, RuneOf, RuneWidth, VisibleAt, IsIgnored, IsQuoteOrSpace, LenFrom;
    if from > end {
      return Bad;
    }
    var len := ComputeUtf16Len(line);
    if end > len {
      return Bad;
    }
    var startByte := ByteOffsetForUTF16Column(line, from);
    if startByte.None? {
      return Bad;
    }
    var endByte := ByteOffsetForUTF16Column(line, end);
    if endByte.None? {
      return Bad;
    }
    ghost var col: nat := from;
    var at: nat := startByte.value;
    ReachesOneToOne(line, 0, 0, at, from, endByte.value, end);
    while at < endByte.value
      invariant at <= endByte.value && IsColumn(line, at, col) && from <= col <= end
      invariant forall c: nat | from <= c < col :: !VisibleAt(line, c)
      decreases endByte.value - at
    {
      RuneInSlice(line, at, col, endByte.value, end);
      ReachesOneToOne(line, 0, 0, at, col, endByte.value, end);
      var (ch, size) := DecodeRune(line[at..endByte.value]);
      IgnoredExactly(ch);
      if !IsIgnored(ch) {
        var column := Utf16ColumnAtByteOffset(line, at);
        Visible(line, at, col);
        return Hit(column.value);
      }
      NotVisible(line, at, col);
      ReachesNext(line, 0, 0, at, col);
      NoneInside(line, at, col, endByte.value, end);
      col := col + RuneWidth(RuneOf(line, at).0);
      at := at + size;
    }
    ReachesOneToOne(line, 0, 0, at, col, endByte.value, end);
    a := Blank;
  }

  lemma Visible(line: bytes, b: nat, col: nat)
    requires IsColumn(line, b, col) && b < |line| && !IsQuoteOrSpace(RuneOf(line, b).0)
    ensures VisibleAt(line, col)
  {}

  datatype Position = Position(line: int, character: int)

  // The columns of a row that are inside the range.
  ghost function RowStart(start: FilePosition, row: int): int { if row == start.line then start.column else 0 }

  ghost function RowEnd(end: FilePosition, row: int, line: bytes): int {
    if row == end.line then end.column else Utf16Len(line)
  }

  ghost predicate RowIs(lines: seq<bytes>, start: FilePosition, end: FilePosition, row: int, a: RowAnswer)
    requires 0 <= row < |lines|
  {
    var line := TrimCR(lines[row]);
    IsRowAnswer(line, RowStart(start, row), RowEnd(end, row, line), a)
  }

  /** The range is one of rows of the text, from a start to an end that does not lie in front of it. */
  ghost predicate WellPlaced(lines: seq<bytes>, start: FilePosition, end: FilePosition) {
    && 0 <= start.line <= end.line < |lines| && 0 <= start.column && 0 <= end.column
    && (start.line == end.line ==> start.column <= end.column)
  }

  /** The position to ask a server about: the first rune of the range that is not a quote or white space,
      or the start of the range if it holds no other; an error only if a row that has to be looked at
      has a column that is out of bounds or inside a surrogate pair. */
  method PositionInsideRange(text: bytes, start: FilePosition, end: FilePosition) returns (r: Option<Position>)
    ensures var lines := Lines(text);
            if !WellPlaced(lines, start, end) then r == None
            else if r.None? then
              exists row | start.line <= row <= end.line ::
                && RowIs(lines, start, end, row, Bad)
                && forall n | start.line <= n < row :: RowIs(lines, start, end, n, Blank)
            else
              || (r.value == Position(start.line, start.column)
                  && forall n | start.line <= n <= end.line :: RowIs(lines, start, end, n, Blank))
              || (start.line <= r.value.line <= end.line && r.value.character >= 0
                  && RowIs(lines, start, end, r.value.line, Hit(r.value.character))
                  && forall n | start.line <= n < r.value.line :: RowIs(lines, start, end, n, Blank))
  {
    hide IsRowAnswer, LenFrom;
    if start.line < 0 || start.column < 0 || end.line < 0 || end.column < 0 {
      return None;
    }
    if end.line < start.line || (end.line == start.line && end.column < start.column) {
      return None;
    }
    var lines := Lines(text);
    if start.line >= |lines| || end.line >= |lines| {
      return None;
    }
    var row := start.line;
    while row <= end.line
      invariant start.line <= row <= end.line + 1
      invariant forall n | start.line <= n < row :: RowIs(lines, start, end, n, Blank)
    {
      var line := TrimCR(lines[row]);
      var len := ComputeUtf16Len(line);
      var a := FirstVisible(line, if row == start.line then start.column else 0,
                            if row == end.line then end.column else len);
      assert RowIs(lines, start, end, row, a);
      match a {
        case Bad => return None;
        case Hit(column) => return Some(Position(row, column));
        case Blank =>
      }
      row := row + 1;
    }
    r := Some(Position(start.line, start.column));
  }
}
