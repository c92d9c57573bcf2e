/** Exactly which texts are read as a record, field by field. */
module RecordShape {
  import opened Bytes
  import opened Hash
  import opened Metadata
  import opened Records
  import opened Unreadable

  /** A stamp, a key and the metadata between single spaces, the answer of the length that the metadata says,
      and then the end of the text or of the line. */
  ghost predicate IsRecord(workspace: bytes, s: bytes, p: Parsed, header: bytes, hex: bytes) {
    && s == p.o.author + [SPACE] + (p.o.id + [SPACE] + (header + [COLON] + (hex + [SPACE] + (p.o.answer + p.rest))))
    && IsStamp(p.o.author) && SPACE !in p.o.id && ParseHash(p.o.id) == Ok(p.h)
    && COLON !in header && Atoi(header).Some? && |hex| == 2 * Atoi(header).value <= MAX_INT
    && HexDecode(hex).Some? && DecodePayload(workspace, HexDecode(hex).value) == Some((p.o.anchors, |p.o.answer|))
    && (p.rest == [] || p.rest[0] == NL)
  }

  lemma SegmentShape(segment: bytes, header: bytes, hex: bytes, tail: bytes)
    requires segment == header + [COLON] + (hex + [SPACE] + tail) && COLON !in header
    requires Atoi(header).Some? && |hex| == 2 * Atoi(header).value <= MAX_INT && HexDecode(hex).Some?
    ensures DecodeSegment(segment) == Ok((HexDecode(hex).value, tail))
  {
    hide Cut, Atoi, HexDecode;
    CutUnique(header, COLON, hex + [SPACE] + tail);
    var body := hex + [SPACE] + tail;
    assert body[..|hex|] == hex && body[|hex|] == SPACE && body[|hex| + 1..] == tail;
  }

  lemma SegmentHasShape(segment: bytes) returns (header: bytes, hex: bytes)
    requires DecodeSegment(segment).Ok?
    ensures var (buf, tail) := DecodeSegment(segment).value;
            && segment == header + [COLON] + (hex + [SPACE] + tail) && COLON !in header
            && Atoi(header).Some? && |hex| == 2 * Atoi(header).value <= MAX_INT && HexDecode(hex) == Some(buf)
  {
    hide Cut, Atoi, HexDecode;
    CutSplits(segment, COLON);
    header := Cut(segment, COLON).value.0;
    var body := Cut(segment, COLON).value.1;
    var n := 2 * Atoi(header).value;
    hex := body[..n];
    assert body == hex + [SPACE] + body[n + 1..];
  }

  lemma BodyIsParsed(workspace: bytes, p: Parsed, segment: bytes, buf: bytes)
    requires DecodeSegment(segment) == Ok((buf, p.o.answer + p.rest))
    requires DecodePayload(workspace, buf) == Some((p.o.anchors, |p.o.answer|))
    requires p.rest == [] || p.rest[0] == NL
    ensures ParseBody(workspace, p.h, p.o.id, p.o.author, segment) == Ok(p)
  {
    hide DecodeSegment, DecodePayload;
    var tail := p.o.answer + p.rest;
    assert tail[..|p.o.answer|] == p.o.answer && tail[|p.o.answer|..] == p.rest;
  }

  lemma RecordIsParsed(workspace: bytes, s: bytes, p: Parsed, header: bytes, hex: bytes)
    requires IsRecord(workspace, s, p, header, hex)
    ensures ParseRecord(workspace, s) == Ok(p)
  {
    hide Cut, HexDecode, Atoi, ParseHash, DecodeSegment, DecodePayload, ParseBody;
    var segment := header + [COLON] + (hex + [SPACE] + (p.o.answer + p.rest));
    StampHasNoSpace(p.o.author);
    CutFields(s, p.o.author, p.o.id, segment);
    SegmentShape(segment, header, hex, p.o.answer + p.rest);
    BodyIsParsed(workspace, p, segment, HexDecode(hex).value);
  }

  lemma ParsedIsRecord(workspace: bytes, s: bytes) returns (header: bytes, hex: bytes)
    requires ParseRecord(workspace, s).Ok?
    ensures IsRecord(workspace, s, ParseRecord(workspace, s).value, header, hex)
  {
    hide Cut, HexDecode, Atoi, DecodePayload, DecodeSegment, ParseHash;
    CutSplits(s, SPACE);
    var (author, keyed) := Cut(s, SPACE).value;
    CutSplits(keyed, SPACE);
    var (id, segment) := Cut(keyed, SPACE).value;
    header, hex := SegmentHasShape(segment);
    var p := ParseRecord(workspace, s).value;
    assert DecodeSegment(segment).value.1 == p.o.answer + p.rest;
  }

  /** A text is read as a record if and only if it is one. */
  lemma ParsesExactly(workspace: bytes, s: bytes, p: Parsed)
    ensures ParseRecord(workspace, s) == Ok(p) <==> exists header, hex :: IsRecord(workspace, s, p, header, hex)
  {
    hide ParseRecord, IsRecord;
    if ParseRecord(workspace, s) == Ok(p) {
      var header, hex := ParsedIsRecord(workspace, s);
    }
    if header, hex :| IsRecord(workspace, s, p, header, hex) {
      RecordIsParsed(workspace, s, p, header, hex);
    }
  }
}
