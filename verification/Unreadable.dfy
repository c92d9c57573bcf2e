/** Where reading a store file stops: at a record that gives an error, or at one of the two kinds of
    record on which the program panics. Both kinds are recognised by their first fields. */
module Unreadable {
  import opened Bytes
  import opened Hash
  import opened Metadata
  import opened Records
  import opened ObservationStore
  import opened Codec

  ghost predicate Fields(s: bytes, author: bytes, id: bytes, tail: bytes) {
    s == author + [SPACE] + (id + [SPACE] + tail) && SPACE !in author && SPACE !in id
  }

  /** The key of the record has 44 symbols or more. */
  ghost predicate HasLongKey(s: bytes) {
    exists author, id, tail :: Fields(s, author, id, tail) && IsStamp(author) && Overlong(id)
  }

  /** The metadata length of the record cannot be doubled in an int. */
  ghost predicate HasHugeLength(s: bytes) {
    exists author, id, header, body :: HugeLength(s, author, id, header, body)
  }

  ghost predicate HugeLength(s: bytes, author: bytes, id: bytes, header: bytes, body: bytes) {
    && Fields(s, author, id, header + [COLON] + body) && IsStamp(author) && ParseHash(id).Ok?
    && COLON !in header && Atoi(header).Some? && 2 * Atoi(header).value > MAX_INT
  }

  lemma CutFields(s: bytes, author: bytes, id: bytes, tail: bytes)
    requires Fields(s, author, id, tail)
    ensures Cut(s, SPACE) == Some((author, id + [SPACE] + tail))
    ensures Cut(id + [SPACE] + tail, SPACE) == Some((id, tail))
  {
    CutUnique(author, SPACE, id + [SPACE] + tail);
    CutUnique(id, SPACE, tail);
  }

  lemma LongKeyPanics(workspace: bytes, s: bytes)
    requires HasLongKey(s)
    ensures ParseRecord(workspace, s) == Err(Panic)
  {
    hide Cut, HexDecode, Overlong, Fields;
    var author, id, tail :| Fields(s, author, id, tail) && IsStamp(author) && Overlong(id);
    CutFields(s, author, id, tail);
  }

  lemma HugeLengthPanics(workspace: bytes, s: bytes)
    requires HasHugeLength(s)
    ensures ParseRecord(workspace, s) == Err(Panic)
  {
    hide Cut, HexDecode, Atoi, ParseHash, Fields;
    var author, id, header, body :| HugeLength(s, author, id, header, body);
    CutFields(s, author, id, header + [COLON] + body);
    CutUnique(header, COLON, body);
  }

  lemma OnlyThesePanic(workspace: bytes, s: bytes)
    requires ParseRecord(workspace, s) == Err(Panic)
    ensures HasLongKey(s) || HasHugeLength(s)
  {
    hide Cut, HexDecode, Atoi, DecodePayload, ParseHash, HasLongKey, HasHugeLength;
    CutSplits(s, SPACE);
    var (author, rest) := Cut(s, SPACE).value;
    CutSplits(rest, SPACE);
    var (id, tail) := Cut(rest, SPACE).value;
    assert Fields(s, author, id, tail) && IsStamp(author);
    if ParseHash(id).Err? {
      OnlyLongKeysPanic(s, author, id, tail);
    } else {
      CutSplits(tail, COLON);
      var (header, body) := Cut(tail, COLON).value;
      HugeLengthFound(s, author, id, header, body);
    }
  }

  lemma OnlyLongKeysPanic(s: bytes, author: bytes, id: bytes, tail: bytes)
    requires Fields(s, author, id, tail) && IsStamp(author) && ParseHash(id) == Err(Panic)
    ensures HasLongKey(s)
  {
    hide Overlong, Fields;
  }

  lemma HugeLengthFound(s: bytes, author: bytes, id: bytes, header: bytes, body: bytes)
    requires HugeLength(s, author, id, header, body)
    ensures HasHugeLength(s)
  {}

  /** The program panics on a record exactly when its key is too long or its length too large. */
  lemma PanicsExactly(workspace: bytes, s: bytes)
    ensures ParseRecord(workspace, s) == Err(Panic) <==> HasLongKey(s) || HasHugeLength(s)
  {
    hide *;
    if HasLongKey(s) {
      LongKeyPanics(workspace, s);
    } else if HasHugeLength(s) {
      HugeLengthPanics(workspace, s);
    } else if ParseRecord(workspace, s) == Err(Panic) {
      OnlyThesePanic(workspace, s);
    }
  }

  // ------------------------------------------------------------------- whole files

  /** The text from the first record on that cannot be read, if there is one. */
  function FirstUnreadable(workspace: bytes, data: bytes): Option<bytes>
    decreases |data|
  {
    if Blank(data) then None
    else
      match ParseRecord(workspace, TrimNewlines(data))
      case Err(_) => Some(TrimNewlines(data))
      case Ok(p) => FirstUnreadable(workspace, p.rest)
  }

  /** The first record of the file that cannot be read is one of those the program panics on. */
  ghost predicate Unrepairable(workspace: bytes, data: bytes) {
    match FirstUnreadable(workspace, data)
    case None => false
    case Some(s) => HasLongKey(s) || HasHugeLength(s)
  }

  /** Whatever records are held already, reading a file ends without an error if every record can be
      read, with a panic if it is unrepairable, and with an error otherwise. */
  lemma {:induction false} ReadingStops(workspace: bytes, s: Store, data: bytes)
    ensures Unmarshal(workspace, s, data).1 ==
            if Unrepairable(workspace, data) then Some(Panic)
            else if FirstUnreadable(workspace, data).Some? then Some(Malformed)
            else None
    decreases |data|
  {
    hide ParseRecord, Blank, TrimNewlines, Merge, HasLongKey, HasHugeLength;
    if !Blank(data) {
      match ParseRecord(workspace, TrimNewlines(data)) {
        case Err(e) =>
          PanicsExactly(workspace, TrimNewlines(data));
          assert e == Malformed || e == Panic;
        case Ok(p) => ReadingStops(workspace, Merge(s, p.h, p.o), p.rest);
      }
    }
  }

  // --------------------------------------------------------------------- witnesses

  /** A record whose length header is the largest int. */
  lemma HugeLengthRecord(stamp: bytes, h: HashType)
    requires IsStamp(stamp)
    ensures HasHugeLength(stamp + [SPACE] + (String(h) + [SPACE] + (Decimal(MAX_INT) + [COLON])))
  {
    hide Atoi, Decimal, ParseHash, String;
    StringRoundTrip(h);
    AtoiDecimal(MAX_INT);
    DecimalHasNoColon(MAX_INT);
    StampHasNoSpace(stamp);
    KeyHasNoSpace(String(h));
    var s := stamp + [SPACE] + (String(h) + [SPACE] + (Decimal(MAX_INT) + [COLON]));
    assert Decimal(MAX_INT) + [COLON] + [] == Decimal(MAX_INT) + [COLON];
    assert Fields(s, stamp, String(h), Decimal(MAX_INT) + [COLON] + []);
    HugeLengthFound(s, stamp, String(h), Decimal(MAX_INT), []);
  }

  /** A record whose key is one symbol longer than a key is. */
  lemma LongKeyRecord(stamp: bytes, h: HashType, symbol: byte, tail: bytes)
    requires IsStamp(stamp) && SymbolValue(symbol).Some?
    ensures HasLongKey(stamp + [SPACE] + (String(h) + [symbol] + [SPACE] + tail))
  {
    hide String, SymbolValue;
    var id := String(h) + [symbol];
    DropNothing(id);
    StampHasNoSpace(stamp);
    KeyHasNoSpace(id);
    assert Overlong(id) by {
      assert id[..44] == id;
    }
    hide Overlong;
    assert Fields(stamp + [SPACE] + (id + [SPACE] + tail), stamp, id, tail);
  }

  lemma StopsAtOnce(workspace: bytes, s: Store, data: bytes)
    requires data != [] && HexValue(data[0]).Some? && (HasLongKey(data) || HasHugeLength(data))
    ensures Unmarshal(workspace, s, data) == (s, Some(Panic)) && Unrepairable(workspace, data)
  {
    hide ParseRecord, Blank, TrimNewlines, HasLongKey, HasHugeLength;
    PanicsExactly(workspace, data);
    StartsWithHex(data);
  }

  /** A file of one such record of either kind: nothing is read from it, and no persist repairs it. */
  lemma TwoUnrepairableFiles(workspace: bytes, s: Store, stamp: bytes, h: HashType, symbol: byte, tail: bytes)
    requires IsStamp(stamp) && SymbolValue(symbol).Some?
    ensures var huge := stamp + [SPACE] + (String(h) + [SPACE] + (Decimal(MAX_INT) + [COLON]));
            Unmarshal(workspace, s, huge) == (s, Some(Panic)) && Unrepairable(workspace, huge)
    ensures var long := stamp + [SPACE] + (String(h) + [symbol] + [SPACE] + tail);
            Unmarshal(workspace, s, long) == (s, Some(Panic)) && Unrepairable(workspace, long)
  {
    hide String, Decimal, SymbolValue, HexValue, HasHugeLength, HasLongKey, Unmarshal, Unrepairable;
    var huge := stamp + [SPACE] + (String(h) + [SPACE] + (Decimal(MAX_INT) + [COLON]));
    var long := stamp + [SPACE] + (String(h) + [symbol] + [SPACE] + tail);
    assert huge[0] == stamp[0] && long[0] == stamp[0];
    HugeLengthRecord(stamp, h);
    LongKeyRecord(stamp, h, symbol, tail);
    StopsAtOnce(workspace, s, huge);
    StopsAtOnce(workspace, s, long);
  }
}
