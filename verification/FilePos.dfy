/** Sources, positions and ranges, and the text form of a range that anchors are stored in. */
module FilePos {
  import opened Bytes

  datatype Source = Source(workspace: bytes, path: bytes, buffer: bytes)

  datatype FilePosition = FilePosition(line: int, column: int, bytePosition: int)

  datatype FileRange = FileRange(source: Source, start: FilePosition, end: FilePosition)

  // x + 1 in Go's int arithmetic, where the largest int wraps around to the smallest.
  function Successor(x: int): int64 {
    if -MAX_INT - 1 <= x < MAX_INT then x + 1 else -MAX_INT - 1
  }

  function PositionString(fp: FilePosition): bytes {
    Itoa(Successor(fp.line)) + [COLON] + Itoa(Successor(fp.column))
  }

  function RangeString(fr: FileRange): bytes {
    fr.source.path + [COLON] + PositionString(fr.start) + [MINUS] + PositionString(fr.end)
  }

  function ParsePosition(v: bytes): (r: Option<(int, int)>)
    ensures r.Some? ==> 0 <= r.value.0 < MAX_INT && 0 <= r.value.1 < MAX_INT
  {
    var parts := Cut(v, COLON);
    if parts.None? then None
    else
      var line := Atoi(parts.value.0);
      var col := Atoi(parts.value.1);
      if line.None? || col.None? || line.value < 1 || col.value < 1 then None
      else Some((line.value - 1, col.value - 1))
  }

  /** Positions are parsed from the right, because the path may hold both separators. */
  function UnmarshalFileRange(workspace: bytes, s: bytes): Option<FileRange> {
    match CutLast(s, MINUS)
    case None => None
    case Some((left, endText)) =>
      match CutLast(left, COLON)
      case None => None
      case Some((pathAndLine, column)) =>
        match CutLast(pathAndLine, COLON)
        case None => None
        case Some((path, line)) =>
          match (ParsePosition(line + [COLON] + column), ParsePosition(endText))
          case (Some((sl, sc)), Some((el, ec))) =>
            Some(FileRange(Source(workspace, path, []), FilePosition(sl, sc, 0), FilePosition(el, ec, 0)))
          case _ => None
  }

  /** What the text form keeps of a range: its path, lines and columns. */
  function Stored(fr: FileRange, workspace: bytes): FileRange {
    FileRange(Source(workspace, fr.source.path, []), fr.start.(bytePosition := 0), fr.end.(bytePosition := 0))
  }

  predicate PrintablePosition(fp: FilePosition) {
    0 <= fp.line < MAX_INT && 0 <= fp.column < MAX_INT
  }

  predicate Printable(fr: FileRange) {
    PrintablePosition(fr.start) && PrintablePosition(fr.end)
  }

  lemma ParseJoined(a: bytes, b: bytes, m: int, n: int)
    requires COLON !in a
    requires Atoi(a) == Some(m + 1) && Atoi(b) == Some(n + 1) && 0 <= m && 0 <= n
    ensures ParsePosition(a + [COLON] + b) == Some((m, n))
  {
    CutUnique(a, COLON, b);
  }

  lemma DecimalText(n: nat)
    requires n <= MAX_INT
    ensures Atoi(Decimal(n)) == Some(n) && COLON !in Decimal(n) && MINUS !in Decimal(n)
  {
    AtoiDecimal(n);
  }

  lemma UnmarshalParts(workspace: bytes, path: bytes, a: bytes, b: bytes, end: bytes)
    requires COLON !in a && COLON !in b && MINUS !in end
    ensures UnmarshalFileRange(workspace, path + [COLON] + a + [COLON] + b + [MINUS] + end) ==
            match (ParsePosition(a + [COLON] + b), ParsePosition(end))
            case (Some((sl, sc)), Some((el, ec))) =>
              Some(FileRange(Source(workspace, path, []), FilePosition(sl, sc, 0), FilePosition(el, ec, 0)))
            case _ => None
  {
    CutLastUnique(path + [COLON] + a + [COLON] + b, MINUS, end);
    CutLastUnique(path + [COLON] + a, COLON, b);
    CutLastUnique(path, COLON, a);
  }

  lemma UnmarshalledIsPrintable(workspace: bytes, s: bytes)
    ensures UnmarshalFileRange(workspace, s).Some? ==> Printable(UnmarshalFileRange(workspace, s).value)
  {}

  /** The text of a range restores its path, lines and columns, whatever bytes the path holds,
      exactly when every line and column is a non-negative int whose successor is one too. */
  lemma RangeRoundTrip(fr: FileRange, workspace: bytes)
    ensures UnmarshalFileRange(workspace, RangeString(fr)) == Some(Stored(fr, workspace)) <==> Printable(fr)
  {
    hide UnmarshalFileRange, RangeString;
    UnmarshalledIsPrintable(workspace, RangeString(fr));
    if Printable(fr) {
      PrintableRoundTrip(fr, workspace);
    }
  }

  function PositionText(m: nat, n: nat): bytes { Decimal(m) + [COLON] + Decimal(n) }

  lemma PositionIsParsed(m: nat, n: nat)
    ensures ParsePosition(PositionText(m, n)) ==
            if 1 <= m <= MAX_INT && 1 <= n <= MAX_INT then Some((m - 1, n - 1)) else None
    ensures COLON !in Decimal(m) && COLON !in Decimal(n) && MINUS !in PositionText(m, n)
  {
    hide Decimal, Atoi;
    AtoiDecimal(m);
    AtoiDecimal(n);
    CutUnique(Decimal(m), COLON, Decimal(n));
  }

  /** In a text, lines and columns count from 1, the line comes first, and the path may hold any bytes. Zeros
      and numbers that are no ints are refused. */
  lemma RangeIsParsed(workspace: bytes, path: bytes, a: nat, b: nat, c: nat, d: nat)
    ensures UnmarshalFileRange(workspace, path + [COLON] + PositionText(a, b) + [MINUS] + PositionText(c, d)) ==
            if 1 <= a <= MAX_INT && 1 <= b <= MAX_INT && 1 <= c <= MAX_INT && 1 <= d <= MAX_INT then
              Some(FileRange(Source(workspace, path, []), FilePosition(a - 1, b - 1, 0), FilePosition(c - 1, d - 1, 0)))
            else None
  {
    PositionIsParsed(a, b);
    PositionIsParsed(c, d);
    PositionInside(path, a, b, PositionText(c, d));
    hide *;
    UnmarshalParts(workspace, path, Decimal(a), Decimal(b), PositionText(c, d));
  }

  lemma PositionInside(path: bytes, m: nat, n: nat, end: bytes)
    ensures PositionText(m, n) == Decimal(m) + [COLON] + Decimal(n)
    ensures path + [COLON] + PositionText(m, n) + [MINUS] + end ==
            path + [COLON] + Decimal(m) + [COLON] + Decimal(n) + [MINUS] + end
  {
    hide Decimal;
  }

  lemma Regroup(p: bytes, a: bytes, b: bytes, e: bytes)
    ensures p + [COLON] + (a + [COLON] + b) + [MINUS] + e == p + [COLON] + a + [COLON] + b + [MINUS] + e
  {}

  lemma PrintableRoundTrip(fr: FileRange, workspace: bytes)
    requires Printable(fr)
    ensures UnmarshalFileRange(workspace, RangeString(fr)) == Some(Stored(fr, workspace))
  {
    hide UnmarshalFileRange, ParsePosition, Decimal, Atoi;
    var a, b := Decimal(fr.start.line + 1), Decimal(fr.start.column + 1);
    var c, d := Decimal(fr.end.line + 1), Decimal(fr.end.column + 1);
    DecimalText(fr.start.line + 1);
    DecimalText(fr.start.column + 1);
    DecimalText(fr.end.line + 1);
    DecimalText(fr.end.column + 1);
    ParseJoined(a, b, fr.start.line, fr.start.column);
    ParseJoined(c, d, fr.end.line, fr.end.column);
    UnmarshalParts(workspace, fr.source.path, a, b, c + [COLON] + d);
    Regroup(fr.source.path, a, b, c + [COLON] + d);
  }

  /** Reading a stored range back and printing it again gives the same text. */
  lemma StoredPrintsTheSame(fr: FileRange, workspace: bytes)
    ensures RangeString(Stored(fr, workspace)) == RangeString(fr)
  {}
}
