/** Messages on the wire: a Content-Length header, any other header lines, a blank line, and the body
    (Base Protocol, Header Part, of the LSP 3.17 specification). */
module Framing {
  import opened Bytes

  const CRLF: bytes := [CR, NL]

  // The longest slice that Go makes on a 64-bit machine; it panics on a longer one.
  const MAX_ALLOC: int := 0x1_0000_0000_0000

  // "Content-Length"
  const CONTENT_LENGTH: bytes := [67, 111, 110, 116, 101, 110, 116, 45, 76, 101, 110, 103, 116, 104]

  function LengthLine(n: nat): bytes { CONTENT_LENGTH + [COLON] + ([SPACE] + Decimal(n)) }

  /** A message as it is written. */
  function Frame(body: bytes): bytes { LengthLine(|body|) + CRLF + (CRLF + body) }

  // ------------------------------------------------------------------ reading

  function TrimBreaks(s: bytes): bytes {
    if s != [] && (s[|s| - 1] == CR || s[|s| - 1] == NL) then TrimBreaks(s[..|s| - 1]) else s
  }

  function Lower(b: byte): byte { if 65 <= b <= 90 then b + 32 else b }

  /** Equal but for the case of ASCII letters; no other rune folds to a letter of Content-Length. */
  predicate EqualFold(a: bytes, b: bytes) {
    |a| == |b| && forall i :: 0 <= i < |a| ==> Lower(a[i]) == Lower(b[i])
  }

  function TrimLeftSpace(s: bytes): bytes
    decreases |s|
  {
    if SpaceWidth(s) > 0 then TrimLeftSpace(s[SpaceWidth(s)..]) else s
  }

  function DigitCount(s: bytes): (n: nat)
    ensures n <= |s|
  {
    if s != [] && IsDigit(s[0]) then 1 + DigitCount(s[1..]) else 0
  }

  /** Scanning an integer: a sign, digits, and then anything. */
  function ScanInt(s: bytes): Option<int> {
    var sign := if s != [] && (s[0] == PLUS || s[0] == MINUS) then 1 else 0;
    Atoi(s[..sign + DigitCount(s[sign..])])
  }

  datatype HeaderLine = Blank | Other | Length(value: int) | BadLength

  /** What one header line says. */
  function ParseHeader(text: bytes): HeaderLine {
    var line := TrimBreaks(text);
    if line == [] then Blank
    else
      match Cut(line, COLON)
      case None => Other
      case Some((name, value)) =>
        if !EqualFold(name, CONTENT_LENGTH) then Other
        else
          match ScanInt(TrimLeftSpace(value))
          case None => BadLength
          case Some(n) => Length(n)
  }

  /** The content length found so far and the stream behind the blank line, or an error. */
  function ReadHeaders(s: bytes, length: int): (r: (Option<int>, bytes))
    ensures |r.1| <= |s|
    decreases |s|
  {
    match Cut(s, NL)
    case None => (None, [])
    case Some((line, rest)) =>
      match ParseHeader(line)
      case Blank => (Some(length), rest)
      case Other => ReadHeaders(rest, length)
      case BadLength => (None, rest)
      case Length(n) => ReadHeaders(rest, n)
  }

  /** The next body, if the stream holds one, and the rest of the stream. */
  function Read(s: bytes): (Result<bytes>, bytes) {
    var (length, rest) := ReadHeaders(s, -1);
    if length.None? || length.value < 0 then (Err(Malformed), rest)
    else if length.value > MAX_ALLOC then (Err(Panic), rest)
    else if |rest| < length.value then (Err(Malformed), [])
    else (Ok(rest[..length.value]), rest[length.value..])
  }

  // ------------------------------------------------------------------- the pipe

  /** One direction of the connection to a server. */
  class Pipe {
    var data: bytes

    constructor ()
      ensures data == []
    {
      data := [];
    }

    method Write(body: bytes)
      modifies this
      ensures data == old(data) + Frame(body)
    {
      hide Decimal;
      data := data + (CONTENT_LENGTH + [COLON, SPACE] + Decimal(|body|) + [CR, NL, CR, NL]);
      data := data + body;
      assert data == old(data) + Frame(body);
    }

    // Reads up to and including a line feed.
    method ReadString() returns (line: Option<bytes>)
      modifies this
      ensures line == match Cut(old(data), NL) case None => None case Some((l, _)) => Some(l)
      ensures data == match Cut(old(data), NL) case None => [] case Some((_, rest)) => rest
    {
      match Cut(data, NL) {
        case None =>
          data := [];
          line := None;
        case Some((l, rest)) =>
          data := rest;
          line := Some(l);
      }
    }

    method ReadFramedMessage() returns (body: Result<bytes>)
      modifies this
      ensures (body, data) == Read(old(data))
    {
      hide Cut, ParseHeader;
      var contentLength := -1;
      while true
        invariant ReadHeaders(data, contentLength) == ReadHeaders(old(data), -1)
        decreases |data|
      {
        var line := ReadString();
        if line.None? {
          return Err(Malformed);
        }
        match ParseHeader(line.value) {
          case Blank => break;
          case Other =>
          case BadLength => return Err(Malformed);
          case Length(n) => contentLength := n;
        }
      }
      if contentLength < 0 {
        return Err(Malformed);
      }
      if contentLength > MAX_ALLOC {
        return Err(Panic);
      }
      if |data| < contentLength {
        data := [];
        return Err(Malformed);
      }
      body := Ok(data[..contentLength]);
      data := data[contentLength..];
    }
  }

  // ----------------------------------------------------------------- round trip

  // The same letter but for its case, or the same byte.
  predicate SameLetter(a: byte, b: byte) {
    || a == b
    || (65 <= a <= 90 && b == a + 32)
    || (65 <= b <= 90 && a == b + 32)
  }

  predicate SameName(a: bytes, b: bytes) {
    |a| == |b| && forall i :: 0 <= i < |a| ==> SameLetter(a[i], b[i])
  }

  lemma FoldIsSameName(a: bytes, b: bytes)
    ensures EqualFold(a, b) <==> SameName(a, b)
  {
    assert forall x: byte, y: byte {:trigger SameLetter(x, y)} :: Lower(x) == Lower(y) <==> SameLetter(x, y);
    hide SameLetter, Lower;
    if EqualFold(a, b) {
      forall i | 0 <= i < |a| ensures SameLetter(a[i], b[i]) {
        assert Lower(a[i]) == Lower(b[i]);
      }
    }
    if SameName(a, b) {
      forall i | 0 <= i < |a| ensures Lower(a[i]) == Lower(b[i]) {
        assert SameLetter(a[i], b[i]);
      }
    }
  }

  predicate IsBreak(b: byte) { b == CR || b == NL }

  lemma {:induction false} TrimBreaksAppend(a: bytes, b: bytes)
    requires a == [] || !IsBreak(a[|a| - 1])
    ensures TrimBreaks(a + b) == a + TrimBreaks(b)
    decreases |b|
  {
    if b == [] {
      assert a + b == a;
    } else {
      assert (a + b)[..|a + b| - 1] == a + b[..|b| - 1];
      if IsBreak(b[|b| - 1]) {
        TrimBreaksAppend(a, b[..|b| - 1]);
      }
    }
  }

  /** Trimming leaves a text that does not end in a line break, and takes nothing but line breaks off. */
  lemma {:induction false} TrimBreaksShape(s: bytes)
    ensures TrimBreaks(s) <= s
    ensures TrimBreaks(s) == [] || !IsBreak(TrimBreaks(s)[|TrimBreaks(s)| - 1])
    ensures forall k :: |TrimBreaks(s)| <= k < |s| ==> IsBreak(s[k])
  {
    if s != [] && IsBreak(s[|s| - 1]) {
      TrimBreaksShape(s[..|s| - 1]);
    }
  }

  // --------------------------------------------------------------- other header lines

  /** A header line that says nothing about the length: it holds more than carriage returns, and what stands
      in front of its first colon, if it has one, is not Content-Length in some case of its letters. */
  ghost predicate IsOther(line: bytes) {
    && NL !in line
    && (exists i :: 0 <= i < |line| && line[i] != CR)
    && forall name, value ::
         line == name + [COLON] + value && COLON !in name ==> !SameName(name, CONTENT_LENGTH)
  }

  /** The reader passes over exactly these lines. */
  lemma OtherLines(line: bytes)
    requires NL !in line
    ensures ParseHeader(line + [CR]) == Other <==> IsOther(line)
  {
    hide ScanInt, TrimLeftSpace, EqualFold, SameName, Cut, TrimBreaks;
    var text := TrimBreaks(line + [CR]);
    TrimBreaksShape(line + [CR]);
    NotBlank(line, text);
    if text != [] {
      NameInFront(line, text);
      if Cut(text, COLON).Some? {
        FoldIsSameName(Cut(text, COLON).value.0, CONTENT_LENGTH);
      }
    }
  }

  lemma NotBlank(line: bytes, text: bytes)
    requires NL !in line && text <= line + [CR]
    requires text == [] || !IsBreak(text[|text| - 1])
    requires forall k :: |text| <= k < |line| + 1 ==> IsBreak((line + [CR])[k])
    ensures text == [] <==> forall i :: 0 <= i < |line| ==> line[i] == CR
    ensures text <= line && forall k :: |text| <= k < |line| ==> IsBreak(line[k])
  {
    assert forall k :: 0 <= k < |line| ==> (line + [CR])[k] == line[k];
    if text != [] {
      assert (line + [CR])[|text| - 1] == text[|text| - 1];
    }
  }

  lemma NameInFront(line: bytes, text: bytes)
    requires text <= line && (forall k :: |text| <= k < |line| ==> IsBreak(line[k]))
    ensures Cut(text, COLON).None? ==> COLON !in line
    ensures forall name, value | line == name + [COLON] + value && COLON !in name ::
              Cut(text, COLON).Some? && Cut(text, COLON).value.0 == name
    ensures Cut(text, COLON).Some? ==>
              exists value :: line == Cut(text, COLON).value.0 + [COLON] + value && COLON !in Cut(text, COLON).value.0
  {
    hide Cut;
    assert line == text + line[|text|..];
    forall name, value | line == name + [COLON] + value && COLON !in name
      ensures Cut(text, COLON).Some? && Cut(text, COLON).value.0 == name
    {
      assert line[|name|] == COLON;
      assert |name| < |text|;
      assert text == name + [COLON] + text[|name| + 1..];
      CutUnique(name, COLON, text[|name| + 1..]);
    }
    if Cut(text, COLON).Some? {
      CutSplits(text, COLON);
      var (name, value) := Cut(text, COLON).value;
      assert line == name + [COLON] + (value + line[|text|..]);
    } else {
      NoCut(text, COLON);
    }
  }

  lemma NoCut(s: bytes, c: byte)
    requires Cut(s, c).None?
    ensures c !in s
  {
    IndexIsFirst(s, c);
  }

  const CONTENT_TYPE: bytes := [67, 111, 110, 116, 101, 110, 116, 45, 84, 121, 112, 101]

  /** The other header line that the protocol has is one of them. */
  lemma ContentTypeIsOther(value: bytes)
    requires NL !in value
    ensures IsOther(CONTENT_TYPE + [COLON] + value)
  {
    hide SameName;
    var line := CONTENT_TYPE + [COLON] + value;
    assert line[0] != CR;
    forall name, after | line == name + [COLON] + after && COLON !in name ensures !SameName(name, CONTENT_LENGTH) {
      CutUnique(name, COLON, after);
      CutUnique(CONTENT_TYPE, COLON, value);
      OtherLength(name);
    }
  }

  lemma OtherLength(name: bytes)
    requires |name| != |CONTENT_LENGTH|
    ensures !SameName(name, CONTENT_LENGTH)
  {}

  // ------------------------------------------------------------------- length lines

  predicate IsPadding(pad: bytes) { forall k :: 0 <= k < |pad| ==> pad[k] == SPACE || pad[k] == 9 }

  /** A length line as other programs may write it: with the name in any case, and any space behind the colon. */
  function LengthHeader(name: bytes, pad: bytes, value: bytes): bytes { name + [COLON] + (pad + value) }

  lemma {:induction false} TrimPadding(pad: bytes, rest: bytes)
    requires IsPadding(pad) && SpaceWidth(rest) == 0
    ensures TrimLeftSpace(pad + rest) == rest
  {
    if pad == [] {
      assert pad + rest == rest;
    } else {
      var s := pad + rest;
      assert s[0] == pad[0] && SpaceWidth(s) == 1;
      assert s[1..] == pad[1..] + rest;
      TrimPadding(pad[1..], rest);
    }
  }

  lemma {:induction false} CountDigits(digits: bytes, more: bytes)
    requires AllDigits(digits) && (more == [] || !IsDigit(more[0]))
    ensures DigitCount(digits + more) == |digits|
  {
    if digits == [] {
      assert digits + more == more;
    } else {
      assert (digits + more)[1..] == digits[1..] + more;
      CountDigits(digits[1..], more);
    }
  }

  predicate IsSign(s: bytes) { s == [] || s == [PLUS] || s == [MINUS] }

  /** The value is a number with or without a sign, and what follows it does not matter. A number that is no
      int is an error. */
  lemma ScanNumber(sign: bytes, digits: bytes, more: bytes)
    requires IsSign(sign) && AllDigits(digits) && digits != [] && (more == [] || !IsDigit(more[0]))
    ensures ScanInt(sign + digits + more) ==
            var v: int := if sign == [MINUS] then 0 - DigitsValue(digits) else DigitsValue(digits);
            if -MAX_INT - 1 <= v <= MAX_INT then Some(v) else None
  {
    hide DigitsValue, DigitCount;
    CountDigits(digits, more);
    if sign != [] {
      var s := sign + digits + more;
      assert s[1..] == digits + more;
      var text := s[..1 + |digits|];
      assert text == sign + digits && text[1..] == digits;
    } else {
      var s := [] + digits + more;
      assert s == digits + more && s[0] == digits[0] && IsDigit(s[0]);
      assert s[0..] == s && s[..|digits|] == digits;
      AtoiDigits(digits);
    }
  }

  lemma LengthLinesParse(name: bytes, pad: bytes, sign: bytes, digits: bytes, more: bytes)
    requires SameName(name, CONTENT_LENGTH) && IsPadding(pad)
    requires IsSign(sign) && AllDigits(digits) && digits != [] && (more == [] || !IsDigit(more[0]))
    ensures var value := sign + digits + more;
            ParseHeader(LengthHeader(name, pad, value) + [CR]) ==
            var v: int := if sign == [MINUS] then 0 - DigitsValue(digits) else DigitsValue(digits);
            if -MAX_INT - 1 <= v <= MAX_INT then Length(v) else BadLength
  {
    hide ScanInt, TrimLeftSpace, EqualFold, SameName, Cut, TrimBreaks, SpaceWidth;
    var number := sign + digits;
    var end := TrimBreaks(more + [CR]);
    TrimBreaksShape(more + [CR]);
    var head := name + [COLON] + (pad + number);
    assert LengthHeader(name, pad, number + more) + [CR] == head + (more + [CR]);
    assert head[|head| - 1] == digits[|digits| - 1] && IsDigit(head[|head| - 1]);
    TrimBreaksAppend(head, more + [CR]);
    NameHasNoColon(name);
    assert head + end == name + [COLON] + (pad + (number + end));
    CutUnique(name, COLON, pad + (number + end));
    FoldIsSameName(name, CONTENT_LENGTH);
    NumberIsNoSpace(number + end);
    TrimPadding(pad, number + end);
    assert end != [] ==> end[0] == (more + [CR])[0];
    ScanNumber(sign, digits, end);
  }

  /** Anything but a number behind the spaces is an error. */
  lemma NoNumberIsBad(name: bytes, pad: bytes, sign: bytes, word: bytes)
    requires SameName(name, CONTENT_LENGTH) && IsPadding(pad) && IsSign(sign)
    requires word == [] || (!IsDigit(word[0]) && word[0] != PLUS && word[0] != MINUS && SpaceWidth(word) == 0)
    ensures ParseHeader(LengthHeader(name, pad, sign + word) + [CR]) == BadLength
  {
    hide EqualFold, SameName, Cut, TrimBreaks, TrimLeftSpace, ScanInt, SpaceWidth;
    var end := TrimBreaks(word + [CR]);
    TrimBreaksShape(word + [CR]);
    var head := name + [COLON] + (pad + sign);
    assert LengthHeader(name, pad, sign + word) + [CR] == head + (word + [CR]);
    TrimBreaksAppend(head, word + [CR]);
    NameHasNoColon(name);
    assert head + end == name + [COLON] + (pad + (sign + end));
    CutUnique(name, COLON, pad + (sign + end));
    FoldIsSameName(name, CONTENT_LENGTH);
    assert end <= word by { assert end != [] ==> end[|end| - 1] == (word + [CR])[|end| - 1]; }
    WordIsNoNumber(sign, word, end);
    TrimPadding(pad, sign + end);
  }

  lemma WordIsNoNumber(sign: bytes, word: bytes, start: bytes)
    requires IsSign(sign) && start <= word
    requires word == [] || (!IsDigit(word[0]) && word[0] != PLUS && word[0] != MINUS && SpaceWidth(word) == 0)
    ensures SpaceWidth(sign + start) == 0 && ScanInt(sign + start) == None
  {
    var s := sign + start;
    if sign == [] {
      assert s == start;
    } else {
      assert s[1..] == start && s[..1] == sign;
    }
  }

  lemma NumberIsNoSpace(s: bytes)
    requires s != [] && (IsDigit(s[0]) || s[0] == MINUS || s[0] == PLUS)
    ensures SpaceWidth(s) == 0
  {}

  lemma NameHasNoColon(name: bytes)
    requires SameName(name, CONTENT_LENGTH)
    ensures COLON !in name && NL !in name
  {
    forall k | 0 <= k < |name| ensures name[k] != COLON && name[k] != NL {
      assert SameLetter(name[k], CONTENT_LENGTH[k]);
      assert CONTENT_LENGTH[k] != COLON && CONTENT_LENGTH[k] != NL;
      assert CONTENT_LENGTH[k] == MINUS || 65 <= CONTENT_LENGTH[k] <= 122;
    }
  }

  lemma LengthHeaderParses(name: bytes, pad: bytes, n: nat)
    requires SameName(name, CONTENT_LENGTH) && IsPadding(pad) && n <= MAX_INT
    ensures ParseHeader(LengthHeader(name, pad, Decimal(n)) + [CR]) == Length(n)
    ensures NL !in LengthHeader(name, pad, Decimal(n))
  {
    hide ParseHeader, SameName, Decimal;
    DecimalValue(n);
    DecimalIsDigits(n);
    NameHasNoColon(name);
    LengthLinesParse(name, pad, [], Decimal(n), []);
    assert [] + Decimal(n) + [] == Decimal(n);
  }

  lemma LengthLineIsHeader(n: nat)
    ensures LengthLine(n) == LengthHeader(CONTENT_LENGTH, [SPACE], Decimal(n))
    ensures SameName(CONTENT_LENGTH, CONTENT_LENGTH) && IsPadding([SPACE])
  {
    hide Decimal;
  }

  lemma DecimalIsDigits(n: nat)
    ensures forall k :: 0 <= k < |Decimal(n)| ==> IsDigit(Decimal(n)[k])
  {}

  function Headers(lines: seq<bytes>): bytes {
    if lines == [] then [] else lines[0] + CRLF + Headers(lines[1..])
  }

  lemma ReadOneHeader(line: bytes, s: bytes, length: int)
    requires NL !in line
    ensures ReadHeaders(line + CRLF + s, length) ==
            match ParseHeader(line + [CR])
            case Blank => (Some(length), s)
            case Other => ReadHeaders(s, length)
            case BadLength => (None, s)
            case Length(n) => ReadHeaders(s, n)
  {
    hide Cut, ParseHeader;
    assert line + CRLF + s == (line + [CR]) + [NL] + s;
    CutUnique(line + [CR], NL, s);
  }

  lemma {:induction false} ReadOtherHeaders(lines: seq<bytes>, s: bytes, length: int)
    requires forall l | l in lines :: IsOther(l)
    ensures ReadHeaders(Headers(lines) + s, length) == ReadHeaders(s, length)
  {
    hide ReadHeaders, ParseHeader, IsOther;
    if lines == [] {
      assert Headers(lines) + s == s;
    } else {
      assert IsOther(lines[0]);
      OtherHasNoLineFeed(lines[0]);
      OtherLines(lines[0]);
      ReadOneHeader(lines[0], Headers(lines[1..]) + s, length);
      ReadOtherHeaders(lines[1..], s, length);
      assert Headers(lines) + s == lines[0] + CRLF + (Headers(lines[1..]) + s);
    }
  }

  lemma OtherHasNoLineFeed(line: bytes)
    requires IsOther(line)
    ensures NL !in line
  {}

  /** A message as other programs may write it: with other header lines around its length, and the name of
      the length line in any case. */
  datatype Message = Message(before: seq<bytes>, name: bytes, pad: bytes, after: seq<bytes>, body: bytes)

  ghost predicate GoodMessage(m: Message) {
    && |m.body| <= MAX_ALLOC
    && SameName(m.name, CONTENT_LENGTH) && IsPadding(m.pad)
    && (forall l | l in m.before :: IsOther(l)) && (forall l | l in m.after :: IsOther(l))
  }

  function Wire(m: Message): bytes {
    Headers(m.before)
    + (LengthHeader(m.name, m.pad, Decimal(|m.body|)) + CRLF + (Headers(m.after) + (CRLF + m.body)))
  }

  function AsMessage(body: bytes): Message { Message([], CONTENT_LENGTH, [SPACE], [], body) }

  lemma FrameIsWire(body: bytes)
    ensures Frame(body) == Wire(AsMessage(body))
    ensures |body| <= MAX_ALLOC ==> GoodMessage(AsMessage(body))
  {
    LengthLineIsHeader(|body|);
    hide LengthLine, LengthHeader, Decimal, SameName;
  }

  lemma BlankLineEnds(s: bytes, length: int)
    ensures ReadHeaders(CRLF + s, length) == (Some(length), s)
  {
    hide ReadHeaders;
    assert TrimBreaks([CR]) == [];
    assert [] + [CR] == [CR] && [] + CRLF + s == CRLF + s;
    ReadOneHeader([], s, length);
  }

  /** Reading a message gives its body and leaves the rest of the stream untouched. */
  lemma ReadWire(m: Message, rest: bytes)
    requires GoodMessage(m)
    ensures Read(Wire(m) + rest) == (Ok(m.body), rest)
  {
    hide ReadHeaders, LengthHeader, ParseHeader, Headers, SameName, IsPadding, IsOther, Decimal;
    var n := |m.body|;
    var line := LengthHeader(m.name, m.pad, Decimal(n));
    var s3 := CRLF + (m.body + rest);
    var s2 := Headers(m.after) + s3;
    var s1 := line + CRLF + s2;
    assert Wire(m) + rest == Headers(m.before) + s1 by {
      Regroup(Headers(m.before), line + CRLF, Headers(m.after), m.body, rest);
    }
    ReadOtherHeaders(m.before, s1, -1);
    LengthHeaderParses(m.name, m.pad, n);
    ReadOneHeader(line, s2, -1);
    ReadOtherHeaders(m.after, s3, n);
    BlankLineEnds(m.body + rest, n);
    assert (m.body + rest)[..n] == m.body && (m.body + rest)[n..] == rest;
  }

  lemma Regroup(a: bytes, b: bytes, c: bytes, body: bytes, rest: bytes)
    ensures a + (b + (c + (CRLF + body))) + rest == a + (b + (c + (CRLF + (body + rest))))
  {}

  /** A header of a length that no slice has: the reader panics instead of returning an error. */
  lemma HugeContentLength(n: nat, rest: bytes)
    requires MAX_ALLOC < n <= MAX_INT
    ensures Read(LengthLine(n) + CRLF + (CRLF + rest)) == (Err(Panic), rest)
  {
    hide ReadHeaders, LengthLine, LengthHeader, ParseHeader, SameName;
    LengthLineIsHeader(n);
    LengthHeaderParses(CONTENT_LENGTH, [SPACE], n);
    ReadOneHeader(LengthLine(n), CRLF + rest, -1);
    BlankLineEnds(rest, n);
  }

  /** Of two lengths the last one counts. */
  lemma LastLengthCounts(m: nat, body: bytes, rest: bytes)
    requires m <= MAX_INT && |body| <= MAX_ALLOC
    ensures Read(LengthLine(m) + CRLF + (LengthLine(|body|) + CRLF + (CRLF + (body + rest)))) == (Ok(body), rest)
  {
    hide ReadHeaders, LengthLine, LengthHeader, ParseHeader, SameName, Decimal;
    var n := |body|;
    LengthLineIsHeader(m);
    LengthLineIsHeader(n);
    LengthHeaderParses(CONTENT_LENGTH, [SPACE], m);
    LengthHeaderParses(CONTENT_LENGTH, [SPACE], n);
    ReadOneHeader(LengthLine(m), LengthLine(n) + CRLF + (CRLF + (body + rest)), -1);
    ReadOneHeader(LengthLine(n), CRLF + (body + rest), m);
    BlankLineEnds(body + rest, n);
    assert (body + rest)[..n] == body && (body + rest)[n..] == rest;
  }

  /** Without a length there is no message. */
  lemma NoLengthIsError(lines: seq<bytes>, rest: bytes)
    requires forall l | l in lines :: IsOther(l)
    ensures Read(Headers(lines) + (CRLF + rest)) == (Err(Malformed), rest)
  {
    hide ReadHeaders, Headers, IsOther;
    ReadOtherHeaders(lines, CRLF + rest, -1);
    BlankLineEnds(rest, -1);
  }

  /** A length below zero, or one that no int holds, is an error. */
  lemma BadLengthIsError(sign: bytes, digits: bytes, rest: bytes)
    requires IsSign(sign) && AllDigits(digits) && digits != []
    requires if sign == [MINUS] then 0 < DigitsValue(digits) else MAX_INT < DigitsValue(digits)
    ensures var line := LengthHeader(CONTENT_LENGTH, [SPACE], sign + digits);
            Read(line + CRLF + (CRLF + rest)).0 == Err(Malformed)
  {
    hide ReadHeaders, LengthHeader, ParseHeader, SameName, DigitsValue;
    var value := sign + digits;
    var line := LengthHeader(CONTENT_LENGTH, [SPACE], value);
    LengthLineIsHeader(0);
    LengthLinesParse(CONTENT_LENGTH, [SPACE], sign, digits, []);
    assert value + [] == value;
    NoFeedInHeader(sign, digits);
    ReadOneHeader(line, CRLF + rest, -1);
    BlankLineEnds(rest, 0 - DigitsValue(digits));
  }

  lemma NoFeedInHeader(sign: bytes, digits: bytes)
    requires IsSign(sign) && AllDigits(digits)
    ensures NL !in LengthHeader(CONTENT_LENGTH, [SPACE], sign + digits)
  {}

  // The headers without their first line.
  lemma DropLine(line: bytes, rest: bytes, length: int)
    requires NL !in line && ReadHeaders(line + [NL] + rest, length).0.Some? && ParseHeader(line) != Blank
    ensures var n := if ParseHeader(line).Length? then ParseHeader(line).value else length;
            ReadHeaders(line + [NL] + rest, length) == ReadHeaders(rest, n) && ParseHeader(line) != BadLength
  {
    hide Cut, ParseHeader;
    CutUnique(line, NL, rest);
  }

  /** What the headers say depends on the bytes up to the blank line only, and a cut in front of its end is
      noticed. */
  lemma {:induction false} CutHeaders(s: bytes, length: int, k: nat)
    requires ReadHeaders(s, length).0.Some? && k <= |s|
    ensures var (n, rest) := ReadHeaders(s, length);
            var end := |s| - |rest|;
            ReadHeaders(s[..k], length) == if k < end then (None, []) else (n, rest[..k - end])
    decreases |s|
  {
    hide Cut, ParseHeader;
    CutSplits(s, NL);
    var (line, rest) := Cut(s, NL).value;
    if k <= |line| {
      assert s[..k] == line[..k];
      CutNone(s[..k], NL);
    } else {
      var j := k - |line| - 1;
      assert s[..k] == line + [NL] + rest[..j];
      CutUnique(line, NL, rest[..j]);
      if ParseHeader(line) != Blank {
        DropLine(line, rest, length);
        CutHeaders(rest, if ParseHeader(line).Length? then ParseHeader(line).value else length, j);
      }
    }
  }

  /** A message that ends early is an error, wherever it is cut; behind its end a cut does not matter. */
  lemma CutMessage(m: Message, rest: bytes, k: nat)
    requires GoodMessage(m) && k <= |Wire(m) + rest|
    ensures Read((Wire(m) + rest)[..k]) ==
            if k < |Wire(m)| then (Err(Malformed), []) else (Ok(m.body), rest[..k - |Wire(m)|])
  {
    hide ReadHeaders, GoodMessage, Wire;
    var s := Wire(m) + rest;
    ReadWire(m, rest);
    CutHeaders(s, -1, k);
    var (n, after) := ReadHeaders(s, -1);
    var body := |after| - |rest|;
    assert after[..body] == m.body && after[body..] == rest;
    var end := |s| - |after|;
    if k >= |Wire(m)| {
      assert after[..k - end][..body] == m.body;
      assert after[..k - end][body..] == rest[..k - |Wire(m)|];
    }
  }

  function Stream(ms: seq<Message>): bytes {
    if ms == [] then [] else Wire(ms[0]) + Stream(ms[1..])
  }

  /** Reading n times; it stops at the first error. */
  function ReadMany(n: nat, s: bytes): (seq<bytes>, bytes) {
    if n == 0 then ([], s)
    else
      match Read(s)
      case (Err(_), rest) => ([], rest)
      case (Ok(body), rest) =>
        var (bodies, last) := ReadMany(n - 1, rest);
        ([body] + bodies, last)
  }

  function Bodies(ms: seq<Message>): seq<bytes> {
    if ms == [] then [] else [ms[0].body] + Bodies(ms[1..])
  }

  /** Reading a stream of messages yields exactly their bodies, in order, and leaves what follows them. */
  lemma {:induction false} ReadStream(ms: seq<Message>, rest: bytes)
    requires forall m | m in ms :: GoodMessage(m)
    ensures ReadMany(|ms|, Stream(ms) + rest) == (Bodies(ms), rest)
  {
    hide *;
    if ms == [] {
      StreamNil(ms, rest);
    } else {
      assert ms[0] in ms;
      ReadWire(ms[0], Stream(ms[1..]) + rest);
      ReadStream(ms[1..], rest);
      ReadStep(|ms|, Wire(ms[0]), Stream(ms[1..]) + rest, ms[0].body);
      StreamCons(ms, rest);
    }
  }

  lemma StreamNil(ms: seq<Message>, rest: bytes)
    requires ms == []
    ensures ReadMany(|ms|, Stream(ms) + rest) == (Bodies(ms), rest)
  {
    hide Read, Wire;
    assert Stream(ms) + rest == rest;
  }

  lemma StreamCons(ms: seq<Message>, rest: bytes)
    requires ms != []
    ensures Stream(ms) + rest == Wire(ms[0]) + (Stream(ms[1..]) + rest)
    ensures Bodies(ms) == [ms[0].body] + Bodies(ms[1..])
  {
    hide Wire;
    Associative(Wire(ms[0]), Stream(ms[1..]), rest);
  }

  lemma ReadStep(n: nat, first: bytes, s: bytes, body: bytes)
    requires n > 0 && Read(first + s) == (Ok(body), s)
    ensures ReadMany(n, first + s) == ([body] + ReadMany(n - 1, s).0, ReadMany(n - 1, s).1)
  {
    hide Read;
  }

  function Plain(bodies: seq<bytes>): seq<Message> {
    if bodies == [] then [] else [AsMessage(bodies[0])] + Plain(bodies[1..])
  }

  /** Whatever bodies are written to a pipe one after the other come out of it again. */
  method Exchange(bodies: seq<bytes>) returns (received: seq<bytes>, pipe: Pipe)
    requires forall b | b in bodies :: |b| <= MAX_ALLOC
    ensures received == bodies && pipe.data == []
  {
    hide Frame, Wire, Read;
    pipe := new Pipe();
    var i := 0;
    assert bodies[..0] == [];
    while i < |bodies|
      invariant 0 <= i <= |bodies| && pipe.data == Stream(Plain(bodies[..i]))
    {
      StreamSnoc(bodies[..i], bodies[i]);
      assert bodies[..i + 1] == bodies[..i] + [bodies[i]];
      pipe.Write(bodies[i]);
      i := i + 1;
    }
    assert bodies[..i] == bodies;
    received := [];
    i := 0;
    assert bodies[0..] == bodies;
    while i < |bodies|
      invariant 0 <= i <= |bodies| && received == bodies[..i]
      invariant pipe.data == Stream(Plain(bodies[i..]))
    {
      StreamFirst(bodies[i..]);
      assert bodies[i..][0] == bodies[i] && bodies[i..][1..] == bodies[i + 1..];
      assert bodies[i] in bodies;
      var body := pipe.ReadFramedMessage();
      received := received + [body.value];
      assert bodies[..i + 1] == bodies[..i] + [bodies[i]];
      i := i + 1;
    }
    assert bodies[i..] == [];
  }

  lemma {:induction false} StreamSnoc(bodies: seq<bytes>, b: bytes)
    ensures Stream(Plain(bodies + [b])) == Stream(Plain(bodies)) + Frame(b)
  {
    FrameIsWire(b);
    hide Frame, Wire;
    var all := bodies + [b];
    if bodies == [] {
      assert all[1..] == [] && all == [b];
      assert Wire(AsMessage(b)) + [] == Wire(AsMessage(b));
    } else {
      assert all[1..] == bodies[1..] + [b];
      StreamSnoc(bodies[1..], b);
    }
  }

  lemma StreamFirst(bodies: seq<bytes>)
    requires bodies != []
    ensures |bodies[0]| <= MAX_ALLOC ==>
              Read(Stream(Plain(bodies))) == (Ok(bodies[0]), Stream(Plain(bodies[1..])))
  {
    hide Read, Wire;
    var m := AsMessage(bodies[0]);
    FrameIsWire(bodies[0]);
    assert Plain(bodies)[1..] == Plain(bodies[1..]);
    if |bodies[0]| <= MAX_ALLOC {
      ReadWire(m, Stream(Plain(bodies[1..])));
    }
  }
}
