/** The metadata segment of a record: a decimal length, a colon, and that many bytes in hex.
    The bytes are a small length-prefixed encoding of the anchors and the answer length. */
module Metadata {
  import opened Bytes
  import opened FilePos

  // --------------------------------------------------------------- wire format

  datatype Wire = Wire(anchors: seq<bytes>, answerLength: int)

  function EncodeStrings(ss: seq<bytes>): bytes {
    if ss == [] then [] else Decimal(|ss[0]|) + [COLON] + (ss[0] + EncodeStrings(ss[1..]))
  }

  function DecodeStrings(n: nat, s: bytes): Option<(seq<bytes>, bytes)> {
    if n == 0 then Some(([], s))
    else
      match Cut(s, COLON)
      case None => None
      case Some((header, body)) =>
        match Atoi(header)
        case None => None
        case Some(len) =>
          if len < 0 || |body| < len then None
          else
            match DecodeStrings(n - 1, body[len..])
            case None => None
            case Some((rest, tail)) => Some(([body[..len]] + rest, tail))
  }

  function EncodeWire(w: Wire): bytes
    requires 0 <= w.answerLength
  {
    Decimal(|w.anchors|) + [COLON] + (EncodeStrings(w.anchors) + Decimal(w.answerLength))
  }

  function DecodeWire(s: bytes): Option<Wire> {
    match Cut(s, COLON)
    case None => None
    case Some((header, body)) =>
      match Atoi(header)
      case None => None
      case Some(n) =>
        if n < 0 then None
        else
          match DecodeStrings(n, body)
          case None => None
          case Some((anchors, tail)) =>
            match Atoi(tail)
            case None => None
            case Some(len) => Some(Wire(anchors, len))
  }

  lemma DecimalHasNoColon(n: nat)
    ensures COLON !in Decimal(n)
  {}

  lemma DecodeFirstString(n: nat, first: bytes, rest: bytes)
    requires |first| <= MAX_INT && DecodeStrings(n, rest).Some?
    ensures DecodeStrings(n + 1, Decimal(|first|) + [COLON] + (first + rest)) ==
            Some(([first] + DecodeStrings(n, rest).value.0, DecodeStrings(n, rest).value.1))
  {
    hide Decimal, Atoi, Cut;
    AtoiDecimal(|first|);
    DecimalHasNoColon(|first|);
    CutUnique(Decimal(|first|), COLON, first + rest);
    assert (first + rest)[..|first|] == first && (first + rest)[|first|..] == rest;
  }

  lemma {:induction false} StringsRoundTrip(ss: seq<bytes>, tail: bytes)
    requires forall k :: 0 <= k < |ss| ==> |ss[k]| <= MAX_INT
    ensures DecodeStrings(|ss|, EncodeStrings(ss) + tail) == Some((ss, tail))
  {
    if ss == [] {
      assert EncodeStrings(ss) + tail == tail;
    } else {
      hide *;
      StringsRoundTrip(ss[1..], tail);
      DecodeFirstString(|ss| - 1, ss[0], EncodeStrings(ss[1..]) + tail);
      EncodeFirstString(ss, tail);
      assert ss == [ss[0]] + ss[1..];
    }
  }

  lemma EncodeFirstString(ss: seq<bytes>, tail: bytes)
    requires ss != []
    ensures EncodeStrings(ss) + tail ==
            Decimal(|ss[0]|) + [COLON] + (ss[0] + (EncodeStrings(ss[1..]) + tail))
  {
    hide Decimal;
  }

  lemma WireRoundTrip(w: Wire)
    requires 0 <= w.answerLength <= MAX_INT && |w.anchors| <= MAX_INT
    requires forall k :: 0 <= k < |w.anchors| ==> |w.anchors[k]| <= MAX_INT
    ensures DecodeWire(EncodeWire(w)) == Some(w)
  {
    hide Decimal, Atoi, Cut, EncodeStrings, DecodeStrings;
    AtoiDecimal(|w.anchors|);
    AtoiDecimal(w.answerLength);
    DecimalHasNoColon(|w.anchors|);
    CutUnique(Decimal(|w.anchors|), COLON, EncodeStrings(w.anchors) + Decimal(w.answerLength));
    StringsRoundTrip(w.anchors, Decimal(w.answerLength));
  }

  // ------------------------------------------------------------------- segment

  function RangeStrings(anchors: seq<FileRange>): (ss: seq<bytes>)
    ensures |ss| == |anchors|
    ensures forall k :: 0 <= k < |ss| ==> ss[k] == RangeString(anchors[k])
  {
    seq(|anchors|, i requires 0 <= i < |anchors| => RangeString(anchors[i]))
  }

  function UnmarshalRanges(workspace: bytes, ss: seq<bytes>): (r: Option<seq<FileRange>>)
    ensures r.Some? ==> AllPrintable(r.value)
  {
    if ss == [] then Some([])
    else
      match UnmarshalFileRange(workspace, ss[0])
      case None => None
      case Some(fr) =>
        UnmarshalledIsPrintable(workspace, ss[0]);
        match UnmarshalRanges(workspace, ss[1..])
        case None => None
        case Some(rest) => Some([fr] + rest)
  }

  function Payload(anchors: seq<FileRange>, answerLength: nat): bytes {
    EncodeWire(Wire(RangeStrings(anchors), answerLength))
  }

  function Segment(buf: bytes): bytes {
    Decimal(|buf|) + [COLON] + HexEncode(buf)
  }

  function EncodeMetadata(anchors: seq<FileRange>, answerLength: nat): bytes {
    Segment(Payload(anchors, answerLength))
  }

  /** The payload bytes and the text after the separating space. Doubling a length above half the
      largest int wraps around, and the body is indexed below its start. */
  function DecodeSegment(segment: bytes): (r: Result<(bytes, bytes)>)
    ensures r.Ok? ==> |r.value.1| < |segment|
  {
    match Cut(segment, COLON)
    case None => Err(Malformed)
    case Some((header, body)) =>
      match Atoi(header)
      case None => Err(Malformed)
      case Some(len) =>
        if len < 0 then Err(Malformed)
        else if 2 * len > MAX_INT then Err(Panic)
        else if |body| < 2 * len + 1 || body[2 * len] != SPACE then Err(Malformed)
        else
          match HexDecode(body[..2 * len])
          case None => Err(Malformed)
          case Some(buf) => Ok((buf, body[2 * len + 1..]))
  }

  function DecodePayload(workspace: bytes, buf: bytes): (r: Option<(seq<FileRange>, nat)>)
    ensures r.Some? ==> AllPrintable(r.value.0)
  {
    match DecodeWire(buf)
    case None => None
    case Some(wire) =>
      if wire.answerLength < 0 then None
      else
        match UnmarshalRanges(workspace, wire.anchors)
        case None => None
        case Some(anchors) => Some((anchors, wire.answerLength))
  }

  /** The anchors, the answer length, and the text starting at the answer. */
  function DecodeMetadata(workspace: bytes, segment: bytes): (r: Result<(seq<FileRange>, nat, bytes)>)
    ensures r.Ok? ==> |r.value.2| < |segment|
    ensures r.Ok? ==> AllPrintable(r.value.0)
  {
    match DecodeSegment(segment)
    case Err(e) => Err(e)
    case Ok((buf, tail)) =>
      match DecodePayload(workspace, buf)
      case None => Err(Malformed)
      case Some((anchors, len)) => Ok((anchors, len, tail))
  }

  function StoredAnchors(anchors: seq<FileRange>, workspace: bytes): (r: seq<FileRange>)
    ensures |r| == |anchors|
    ensures forall k :: 0 <= k < |r| ==> r[k] == Stored(anchors[k], workspace)
  {
    seq(|anchors|, i requires 0 <= i < |anchors| => Stored(anchors[i], workspace))
  }

  predicate AllPrintable(anchors: seq<FileRange>) {
    forall k :: 0 <= k < |anchors| ==> Printable(anchors[k])
  }

  // Go's lengths are ints: no string, list or doubled payload exceeds them.
  predicate Fits(anchors: seq<FileRange>, answerLength: nat) {
    && answerLength <= MAX_INT && |anchors| <= MAX_INT
    && (forall k :: 0 <= k < |anchors| ==> |RangeString(anchors[k])| <= MAX_INT)
    && 2 * |Payload(anchors, answerLength)| <= MAX_INT
  }

  lemma UnmarshalFirstRange(workspace: bytes, first: bytes, ss: seq<bytes>)
    requires UnmarshalFileRange(workspace, first).Some? && UnmarshalRanges(workspace, ss).Some?
    ensures UnmarshalRanges(workspace, [first] + ss) ==
            Some([UnmarshalFileRange(workspace, first).value] + UnmarshalRanges(workspace, ss).value)
  {
    hide UnmarshalFileRange;
    assert ([first] + ss)[1..] == ss;
  }

  lemma {:induction false} RangesRoundTrip(anchors: seq<FileRange>, workspace: bytes)
    requires AllPrintable(anchors)
    ensures UnmarshalRanges(workspace, RangeStrings(anchors)) == Some(StoredAnchors(anchors, workspace))
  {
    if anchors != [] {
      hide *;
      RangesStep(anchors, workspace);
      PrintableRoundTrip(anchors[0], workspace);
      AllButFirstPrintable(anchors);
      RangesRoundTrip(anchors[1..], workspace);
      UnmarshalFirstRange(workspace, RangeString(anchors[0]), RangeStrings(anchors[1..]));
    }
  }

  lemma AllButFirstPrintable(anchors: seq<FileRange>)
    requires AllPrintable(anchors) && anchors != []
    ensures Printable(anchors[0]) && AllPrintable(anchors[1..])
  {}

  lemma RangesStep(anchors: seq<FileRange>, workspace: bytes)
    requires anchors != []
    ensures RangeStrings(anchors) == [RangeString(anchors[0])] + RangeStrings(anchors[1..])
    ensures StoredAnchors(anchors, workspace) ==
            [Stored(anchors[0], workspace)] + StoredAnchors(anchors[1..], workspace)
  {
    hide RangeString, Stored;
  }

  lemma PayloadRoundTrip(anchors: seq<FileRange>, answerLength: nat, workspace: bytes)
    requires AllPrintable(anchors) && Fits(anchors, answerLength)
    ensures DecodePayload(workspace, Payload(anchors, answerLength)) ==
            Some((StoredAnchors(anchors, workspace), answerLength))
  {
    hide EncodeWire, DecodeWire, UnmarshalRanges, StoredAnchors;
    WireRoundTrip(Wire(RangeStrings(anchors), answerLength));
    RangesRoundTrip(anchors, workspace);
  }

  lemma SegmentRoundTrip(buf: bytes, tail: bytes)
    requires 2 * |buf| <= MAX_INT
    ensures DecodeSegment(Segment(buf) + [SPACE] + tail) == Ok((buf, tail))
  {
    hide Decimal, Atoi, Cut, HexEncode, HexDecode;
    var body := HexEncode(buf) + [SPACE] + tail;
    assert Segment(buf) + [SPACE] + tail == Decimal(|buf|) + [COLON] + body;
    AtoiDecimal(|buf|);
    DecimalHasNoColon(|buf|);
    CutUnique(Decimal(|buf|), COLON, body);
    HexRoundTrip(buf);
    assert body[..2 * |buf|] == HexEncode(buf) && body[2 * |buf| + 1..] == tail;
  }

  /** Any proper prefix of a segment and its separator is rejected. */
  lemma SegmentTruncated(buf: bytes, k: nat)
    requires 2 * |buf| <= MAX_INT && k <= |Segment(buf)|
    ensures DecodeSegment((Segment(buf) + [SPACE])[..k]) == Err(Malformed)
  {
    hide Decimal, Atoi, HexEncode, HexDecode, Cut;
    var head := Decimal(|buf|);
    var cut := (Segment(buf) + [SPACE])[..k];
    DecimalHasNoColon(|buf|);
    if k <= |head| {
      assert cut == head[..k];
      CutNone(cut, COLON);
    } else {
      var body := (HexEncode(buf) + [SPACE])[..k - |head| - 1];
      assert cut == head + [COLON] + body;
      CutUnique(head, COLON, body);
      AtoiDecimal(|buf|);
    }
  }

  lemma MetadataRoundTrip(anchors: seq<FileRange>, answerLength: nat, workspace: bytes, tail: bytes)
    requires AllPrintable(anchors) && Fits(anchors, answerLength)
    ensures DecodeMetadata(workspace, EncodeMetadata(anchors, answerLength) + [SPACE] + tail) ==
            Ok((StoredAnchors(anchors, workspace), answerLength, tail))
  {
    hide DecodeSegment, Segment, DecodePayload, StoredAnchors;
    SegmentRoundTrip(Payload(anchors, answerLength), tail);
    PayloadRoundTrip(anchors, answerLength, workspace);
  }
}
