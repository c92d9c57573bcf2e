/** One observation as one line of the store file: author stamp, key, metadata and answer. */
module Records {
  import opened Bytes
  import opened FilePos
  import opened Hash
  import opened Metadata
  import opened Flatten

  // Author is the hex stamp the observation was first recorded with; empty in the session that made it.
  datatype Observation = Observation(id: bytes, answer: bytes, anchors: seq<FileRange>, author: bytes)

  const DASH: bytes := [SPACE, MINUS, SPACE]

  predicate IsStamp(s: bytes) { |s| == 8 && IsHex(s) }

  // The stamp of an author whose 32-bit checksum is given.
  function AuthorHash(checksum: nat): (s: bytes)
    ensures IsStamp(s)
  {
    HexEncode(BigEndian(checksum, 4))
  }

  function Answer(o: Observation): bytes { Flat(o.answer, DASH) }

  function Stamp(o: Observation, active: bytes): bytes {
    if o.author == [] then active else o.author
  }

  function Body(o: Observation): bytes {
    EncodeMetadata(o.anchors, |Answer(o)|) + [SPACE] + Answer(o)
  }

  function Text(h: HashType, o: Observation, active: bytes): bytes {
    Stamp(o, active) + [SPACE] + (String(h) + [SPACE] + Body(o))
  }

  /** What a program can hold in an observation and print: a valid stamp if any, positions
      that are line and column numbers, and lengths that are ints. */
  predicate WellFormed(o: Observation) {
    && (o.author == [] || IsStamp(o.author))
    && AllPrintable(o.anchors)
    && Fits(o.anchors, |Answer(o)|)
  }

  /** The observation a record restores. */
  function Restored(h: HashType, o: Observation, active: bytes, workspace: bytes): Observation {
    Observation(String(h), Answer(o), StoredAnchors(o.anchors, workspace), Stamp(o, active))
  }

  // ------------------------------------------------------------------ parsing

  datatype Parsed = Parsed(h: HashType, o: Observation, rest: bytes)

  function TakeAnswer(h: HashType, id: bytes, author: bytes, anchors: seq<FileRange>, n: nat, tail: bytes)
    : (r: Result<Parsed>)
    ensures r.Ok? ==> |r.value.rest| <= |tail|
  {
    if |tail| < n then Err(Malformed)
    else if n < |tail| && tail[n] != NL then Err(Malformed)
    else Ok(Parsed(h, Observation(id, tail[..n], anchors, author), tail[n..]))
  }

  function ParseBody(workspace: bytes, h: HashType, id: bytes, author: bytes, s: bytes): (r: Result<Parsed>)
    ensures r.Ok? ==> |r.value.rest| <= |s|
  {
    match DecodeMetadata(workspace, s)
    case Err(e) => Err(e)
    case Ok((anchors, n, tail)) => TakeAnswer(h, id, author, anchors, n, tail)
  }

  function ParseKeyed(workspace: bytes, author: bytes, s: bytes): (r: Result<Parsed>)
    ensures r.Ok? ==> |r.value.rest| <= |s|
  {
    match Cut(s, SPACE)
    case None => Err(Malformed)
    case Some((id, tail)) =>
      match ParseHash(id)
      case Err(e) => Err(e)
      case Ok(h) => ParseBody(workspace, h, id, author, tail)
  }

  function ParseRecord(workspace: bytes, s: bytes): (r: Result<Parsed>)
    ensures r.Ok? ==> |r.value.rest| < |s|
  {
    match Cut(s, SPACE)
    case None => Err(Malformed)
    case Some((author, tail)) =>
      match HexDecode(author)
      case None => Err(Malformed)
      case Some(b) => if |b| != 4 then Err(Malformed) else ParseKeyed(workspace, author, tail)
  }

  // --------------------------------------------------------------- round trip

  lemma StampHasNoSpace(s: bytes)
    requires IsHex(s)
    ensures SPACE !in s && NL !in s
  {
    assert HexValue(SPACE).None? && HexValue(NL).None?;
  }

  lemma KeyHasNoSpace(s: bytes)
    requires IsBase64(s)
    ensures SPACE !in s && NL !in s
  {
    assert SymbolValue(SPACE).None? && SymbolValue(NL).None?;
  }

  lemma ParsePrintedBody(h: HashType, id: bytes, author: bytes, o: Observation, workspace: bytes, tail: bytes)
    requires AllPrintable(o.anchors) && Fits(o.anchors, |Answer(o)|)
    requires tail == [] || tail[0] == NL
    ensures ParseBody(workspace, h, id, author, Body(o) + tail) ==
            Ok(Parsed(h, Observation(id, Answer(o), StoredAnchors(o.anchors, workspace), author), tail))
  {
    hide EncodeMetadata, DecodeMetadata, Answer, StoredAnchors;
    MetadataRoundTrip(o.anchors, |Answer(o)|, workspace, Answer(o) + tail);
    assert Body(o) + tail == EncodeMetadata(o.anchors, |Answer(o)|) + [SPACE] + (Answer(o) + tail);
    assert (Answer(o) + tail)[..|Answer(o)|] == Answer(o) && (Answer(o) + tail)[|Answer(o)|..] == tail;
  }

  /** Parsing a record restores its key and observation and stops right behind its text. */
  lemma ParsePrinted(h: HashType, o: Observation, active: bytes, workspace: bytes, tail: bytes)
    requires WellFormed(o) && IsStamp(active)
    requires tail == [] || tail[0] == NL
    ensures ParseRecord(workspace, Text(h, o, active) + tail) ==
            Ok(Parsed(h, Restored(h, o, active, workspace), tail))
  {
    hide Cut, HexDecode, ParseHash, ParseBody, Body, String, Answer, StoredAnchors, AllPrintable, Fits;
    var stamp := Stamp(o, active);
    StampHasNoSpace(stamp);
    KeyHasNoSpace(String(h));
    StringRoundTrip(h);
    ParsePrintedBody(h, String(h), stamp, o, workspace, tail);
    var keyed := String(h) + [SPACE] + (Body(o) + tail);
    CutUnique(String(h), SPACE, Body(o) + tail);
    CutUnique(stamp, SPACE, keyed);
    assert Text(h, o, active) + tail == stamp + [SPACE] + keyed;
  }

  // --------------------------------------------------------------- truncation

  lemma TruncatedBody(h: HashType, id: bytes, author: bytes, o: Observation, workspace: bytes, k: nat)
    requires AllPrintable(o.anchors) && Fits(o.anchors, |Answer(o)|) && k < |Body(o)|
    ensures ParseBody(workspace, h, id, author, Body(o)[..k]) == Err(Malformed)
  {
    hide Segment, Payload, DecodeSegment, DecodePayload, Answer, StoredAnchors;
    var meta := EncodeMetadata(o.anchors, |Answer(o)|);
    if k <= |meta| {
      SegmentTruncated(Payload(o.anchors, |Answer(o)|), k);
      assert Body(o)[..k] == (meta + [SPACE])[..k];
    } else {
      var part := Answer(o)[..k - |meta| - 1];
      assert Body(o)[..k] == meta + [SPACE] + part;
      MetadataRoundTrip(o.anchors, |Answer(o)|, workspace, part);
    }
  }

  lemma TruncatedKeyed(h: HashType, author: bytes, o: Observation, workspace: bytes, k: nat)
    requires AllPrintable(o.anchors) && Fits(o.anchors, |Answer(o)|)
    requires k < |String(h) + [SPACE] + Body(o)|
    ensures ParseKeyed(workspace, author, (String(h) + [SPACE] + Body(o))[..k]) == Err(Malformed)
  {
    hide Cut, ParseHash, ParseBody, Body, String, Answer, AllPrintable, Fits;
    var key := String(h);
    var cut := (key + [SPACE] + Body(o))[..k];
    KeyHasNoSpace(key);
    if k <= |key| {
      assert cut == key[..k];
      CutNone(cut, SPACE);
    } else {
      var part := Body(o)[..k - |key| - 1];
      assert cut == key + [SPACE] + part;
      CutUnique(key, SPACE, part);
      StringRoundTrip(h);
      TruncatedBody(h, key, author, o, workspace, k - |key| - 1);
    }
  }

  /** A record cut anywhere before the end of its answer is rejected. */
  lemma TruncatedRecord(h: HashType, o: Observation, active: bytes, workspace: bytes, k: nat)
    requires WellFormed(o) && IsStamp(active) && k < |Text(h, o, active)|
    ensures ParseRecord(workspace, Text(h, o, active)[..k]) == Err(Malformed)
  {
    hide Cut, HexDecode, ParseKeyed, Body, String, Answer, AllPrintable, Fits;
    var stamp := Stamp(o, active);
    var keyed := String(h) + [SPACE] + Body(o);
    var cut := Text(h, o, active)[..k];
    StampHasNoSpace(stamp);
    if k <= |stamp| {
      assert cut == stamp[..k];
      CutNone(cut, SPACE);
    } else {
      var part := keyed[..k - |stamp| - 1];
      assert cut == stamp + [SPACE] + part;
      CutUnique(stamp, SPACE, part);
      TruncatedKeyed(h, stamp, o, workspace, k - |stamp| - 1);
    }
  }

  // -------------------------------------------------------- printing what was read

  lemma StoredRangeStrings(anchors: seq<FileRange>, workspace: bytes)
    ensures RangeStrings(StoredAnchors(anchors, workspace)) == RangeStrings(anchors)
  {
    hide RangeString, Stored;
    forall k | 0 <= k < |anchors| ensures RangeString(Stored(anchors[k], workspace)) == RangeString(anchors[k]) {
      StoredPrintsTheSame(anchors[k], workspace);
    }
  }

  lemma DashIsOneLine()
    ensures OneLine(DASH)
  {}

  /** A restored observation prints the very same record, under any active author, and is again
      well formed; restoring it once more changes nothing. */
  lemma RestoredPrintsTheSame(h: HashType, o: Observation, active: bytes, workspace: bytes, other: bytes)
    requires WellFormed(o) && IsStamp(active)
    ensures var r := Restored(h, o, active, workspace);
            WellFormed(r) && Text(h, r, other) == Text(h, o, active) && Restored(h, r, other, workspace) == r
  {
    hide Flat, String, RangeStrings, EncodeWire, Segment;
    var r := Restored(h, o, active, workspace);
    DashIsOneLine();
    FlatIdempotent(o.answer, DASH);
    assert Answer(r) == Answer(o);
    StoredRangeStrings(o.anchors, workspace);
    assert Payload(r.anchors, |Answer(r)|) == Payload(o.anchors, |Answer(o)|);
    StoredTwice(o.anchors, workspace);
    StoredFits(o.anchors, |Answer(o)|, workspace);
  }

  lemma StoredTwice(anchors: seq<FileRange>, workspace: bytes)
    ensures StoredAnchors(StoredAnchors(anchors, workspace), workspace) == StoredAnchors(anchors, workspace)
  {}

  lemma StoredFits(anchors: seq<FileRange>, n: nat, workspace: bytes)
    requires AllPrintable(anchors) && Fits(anchors, n)
    ensures AllPrintable(StoredAnchors(anchors, workspace)) && Fits(StoredAnchors(anchors, workspace), n)
  {
    hide RangeString, RangeStrings, EncodeWire;
    StoredRangeStrings(anchors, workspace);
    forall k | 0 <= k < |anchors|
      ensures RangeString(StoredAnchors(anchors, workspace)[k]) == RangeString(anchors[k])
    {
      StoredPrintsTheSame(anchors[k], workspace);
    }
  }

  // ----------------------------------------------------------------- one line

  lemma AnswerIsOneLine(o: Observation)
    ensures OneLine(Answer(o))
  {
    DashIsOneLine();
    FlatIsOneLine(o.answer, DASH);
  }

  /** The text of a record holds no line feed, so each record is exactly one line. */
  lemma RecordIsOneLine(h: HashType, o: Observation, active: bytes)
    requires WellFormed(o) && IsStamp(active)
    ensures NL !in Text(h, o, active)
  {
    hide String, Answer, Payload, AllPrintable, Fits;
    StampHasNoSpace(Stamp(o, active));
    KeyHasNoSpace(String(h));
    StampHasNoSpace(HexEncode(Payload(o.anchors, |Answer(o)|)));
    AnswerIsOneLine(o);
    assert NL !in Segment(Payload(o.anchors, |Answer(o)|));
  }
}
