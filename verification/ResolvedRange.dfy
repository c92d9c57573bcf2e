/** Where a language server's definition becomes a range of its file: the reply's lines and columns are
    turned into offsets, and the language repairs the range. */
module ResolvedRange {
  import opened Bytes
  import opened FilePos
  import opened SourceText
  import opened DefinitionRange

  ghost predicate EndsAt(buf: bytes, line: int, col: int, q: nat) {
    q <= |buf| && PointAt(buf, q) == (line, col) && !SplitsCrlf(buf, q)
  }

  /** A reply whose start column overflows, and whose end is that of some text with an identifier. */
  ghost predicate OverflowsBeforeIdentifier(buf: bytes, sl: int, sc: int, el: int, ec: int, ident: Ident) {
    Overflows(buf, sl, sc) && exists q :: EndsAt(buf, el, ec, q) && !NoneBetween(buf, 0, q, q, ident)
  }

  ghost predicate OverflowsBeforeName(buf: bytes, sl: int, sc: int, el: int, ec: int, ident: Ident) {
    Overflows(buf, sl, sc) && exists q :: EndsAt(buf, el, ec, q) && !OnlyKeywordsBetween(buf, 0, q, q, ident)
  }

  /** A range is found if both ends are located. Its repair panics exactly if the start column overflows
      and an identifier stands in front of the end. */
  method ResolvePython(src: Source, sl: int64, sc: int64, el: int64, ec: int64, unicodeWord: Ident)
    returns (external: Snippet, r: Option<Result<FileRange>>)
    requires |src.buffer| <= MAX_INT
    ensures external.Found? <==> Located(src.buffer, sl, sc) && Located(src.buffer, el, ec)
    ensures r == if !external.Found? then None
                 else Some(PythonReply(Some(src), external.range, PythonIdent(unicodeWord)))
    ensures r == Some(Err(Panic)) <==>
            OverflowsBeforeIdentifier(src.buffer, sl, sc, el, ec, PythonIdent(unicodeWord))
  {
    hide PythonIdent, PythonReply, Overflows, Located, PointAt, SplitsCrlf, NoneBetween;
    external := NewFileRangeAutoBytePosition(src, sl, sc, el, ec);
    if !external.Found? {
      NotLocated(src.buffer, sl, sc, el, ec);
      return external, None;
    }
    var repaired := NormalizePython(Some(src), external.range, unicodeWord);
    r := Some(repaired);
    PythonPanicsExactly(Some(src), external.range, PythonIdent(unicodeWord));
    EndOfReply(src.buffer, external.range.end, el, ec);
    NothingInFront(src.buffer, PythonIdent(unicodeWord));
  }

  method ResolveTypescript(src: Source, sl: int64, sc: int64, el: int64, ec: int64, unicodeWord: Ident)
    returns (external: Snippet, r: Option<Result<FileRange>>)
    requires |src.buffer| <= MAX_INT
    ensures external.Found? <==> Located(src.buffer, sl, sc) && Located(src.buffer, el, ec)
    ensures r == if !external.Found? then None
                 else Some(TypescriptReply(Some(src), external.range, TypescriptIdent(unicodeWord)))
    ensures r == Some(Err(Panic)) <==>
            OverflowsBeforeName(src.buffer, sl, sc, el, ec, TypescriptIdent(unicodeWord))
  {
    hide TypescriptIdent, TypescriptReply, Overflows, Located, PointAt, SplitsCrlf, OnlyKeywordsBetween;
    external := NewFileRangeAutoBytePosition(src, sl, sc, el, ec);
    if !external.Found? {
      NotLocated(src.buffer, sl, sc, el, ec);
      return external, None;
    }
    var repaired := NormalizeTypescript(Some(src), external.range, unicodeWord);
    r := Some(repaired);
    TypescriptPanicsExactly(Some(src), external.range, TypescriptIdent(unicodeWord));
    EndOfReply(src.buffer, external.range.end, el, ec);
    NothingInFront(src.buffer, TypescriptIdent(unicodeWord));
  }

  lemma NotLocated(buf: bytes, sl: int, sc: int, el: int, ec: int)
    requires !(Located(buf, sl, sc) && Located(buf, el, ec))
    ensures Overflows(buf, sl, sc) ==> forall q :: !EndsAt(buf, el, ec, q)
  {
    hide Overflows, PointAt, SplitsCrlf;
  }

  // The end of a found range is the only offset of its line and column, and negative if there is none.
  lemma EndOfReply(buf: bytes, end: FilePosition, el: int, ec: int)
    requires |buf| <= MAX_INT && (end.line, end.column) == (el, ec)
    requires end.bytePosition < 0 <==> Overflows(buf, el, ec)
    requires end.bytePosition >= 0 ==> IsPoint(buf, end)
    ensures forall q :: EndsAt(buf, el, ec, q) <==> end.bytePosition >= 0 && q == end.bytePosition
  {
    hide Overflows, PointAt, SplitsCrlf;
    forall q ensures EndsAt(buf, el, ec, q) <==> end.bytePosition >= 0 && q == end.bytePosition {
      if EndsAt(buf, el, ec, q) {
        NoOverflow(buf, el, ec, q);
        PointInjective(buf, q, end.bytePosition);
      }
    }
  }

  lemma NothingInFront(buf: bytes, ident: Ident)
    ensures NoneBetween(buf, 0, 0, 0, ident) && OnlyKeywordsBetween(buf, 0, 0, 0, ident)
  {}

  /** Such a reply: in a file of an x, a line feed and an a, the second line, the largest int as its start
      column, and the end of the file as its end. */
  lemma OverflowingReplies(unicodeWord: Ident)
    ensures var buf: bytes := [120, NL, 97];
            && Overflows(buf, 1, MAX_INT) && Sum(2, MAX_INT) < 0
            && OverflowsBeforeIdentifier(buf, 1, MAX_INT, 1, 1, PythonIdent(unicodeWord))
            && OverflowsBeforeName(buf, 1, MAX_INT, 1, 1, TypescriptIdent(unicodeWord))
  {
    var buf: bytes := [120, NL, 97];
    PointAtStart(buf);
    PointNext(buf, 0);
    PointNext(buf, 1);
    PointNext(buf, 2);
    hide PointAt;
    assert EndsAt(buf, 1, 1, 3);
    FirstWord(unicodeWord);
  }

  /** The range of that reply makes both repairs panic. */
  lemma OverflowReachesPanic(src: Source, unicodeWord: Ident)
    requires src.buffer == [120, NL, 97]
    ensures var reply := FileRange(src, FilePosition(1, MAX_INT, Sum(2, MAX_INT)), FilePosition(1, 1, 3));
            && PythonReply(Some(src), reply, PythonIdent(unicodeWord)) == Err(Panic)
            && TypescriptReply(Some(src), reply, TypescriptIdent(unicodeWord)) == Err(Panic)
  {
    hide PythonReply, TypescriptReply, PythonIdent, TypescriptIdent, NoneBetween, OnlyKeywordsBetween;
    var reply := FileRange(src, FilePosition(1, MAX_INT, Sum(2, MAX_INT)), FilePosition(1, 1, 3));
    FirstWord(unicodeWord);
    PythonPanicsExactly(Some(src), reply, PythonIdent(unicodeWord));
    TypescriptPanicsExactly(Some(src), reply, TypescriptIdent(unicodeWord));
  }

  lemma FirstWord(unicodeWord: Ident)
    ensures var buf: bytes := [120, NL, 97];
            && !NoneBetween(buf, 0, 3, 3, PythonIdent(unicodeWord))
            && !OnlyKeywordsBetween(buf, 0, 3, 3, TypescriptIdent(unicodeWord))
  {
    var buf: bytes := [120, NL, 97];
    assert buf[0..3][0] == 120 && buf[1..3][0] == NL;
    assert RuneAt(buf, 0, 3) == (120, 1) && RuneAt(buf, 1, 3) == (10, 1);
    hide RuneAt;
    var ident := TypescriptIdent(unicodeWord);
    assert IsWholeRun(buf, 0, 1, 3, ident);
    KeywordIsFirstRun(buf, 0, 0, 1, 3, ident);
    NotAKeyword();
    hide IsWholeRun, IsSkippableKeyword, FirstRun;
    assert buf[0..1] == [120];
    NameIsNoKeyword(buf, 0, 3, ident);
  }

  lemma NameIsNoKeyword(buf: bytes, i: nat, end: int, ident: Ident)
    requires i <= Limit(buf, end) && FirstName(buf, i, end, ident).1 > 0
    ensures !OnlyKeywordsBetween(buf, i, Limit(buf, end), Limit(buf, end), ident)
  {
    hide FirstName, OnlyKeywordsBetween;
    if OnlyKeywordsBetween(buf, i, Limit(buf, end), Limit(buf, end), ident) {
      OnlyKeywordsNoName(buf, i, end, ident);
    }
  }

  lemma NotAKeyword()
    ensures !IsSkippableKeyword([120])
  {
    assert AsString([120]) == ['x'];
  }
}
