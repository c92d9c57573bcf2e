/** The 256-bit identity of a node: wrapping addition, and its text form, the unpadded
    base64url alphabet of section 5 of RFC 4648 over the big-endian words. */
module Hash {
  import opened Bytes

  const TWO_64 := 0x1_0000_0000_0000_0000
  type uint64 = x: int | 0 <= x < TWO_64

  datatype HashType = HashType(w0: uint64, w1: uint64, w2: uint64, w3: uint64)

  function AddWord(a: uint64, b: uint64): uint64 {
    if a + b < TWO_64 then a + b else a + b - TWO_64
  }

  function Add(a: HashType, b: HashType): HashType {
    HashType(AddWord(a.w0, b.w0), AddWord(a.w1, b.w1), AddWord(a.w2, b.w2), AddWord(a.w3, b.w3))
  }

  /** Adding is addition modulo 2^64 in each word. */
  lemma AddIsModular(a: HashType, b: HashType)
    ensures Add(a, b).w0 == (a.w0 + b.w0) % TWO_64 && Add(a, b).w1 == (a.w1 + b.w1) % TWO_64
    ensures Add(a, b).w2 == (a.w2 + b.w2) % TWO_64 && Add(a, b).w3 == (a.w3 + b.w3) % TWO_64
  {}

  // ---------------------------------------------------------------- base64url

  function Symbol(n: int): (b: byte)
    requires 0 <= n < 64
    ensures SymbolValue(b) == Some(n)
  {
    if n < 26 then 65 + n
    else if n < 52 then 71 + n
    else if n < 62 then n - 4
    else if n == 62 then MINUS
    else 95
  }

  function SymbolValue(b: byte): (r: Option<int>)
    ensures r.Some? ==> 0 <= r.value < 64
  {
    if 65 <= b <= 90 then Some(b - 65)
    else if 97 <= b <= 122 then Some(b - 71)
    else if 48 <= b <= 57 then Some(b + 4)
    else if b == MINUS then Some(62)
    else if b == 95 then Some(63)
    else None
  }

  const UPPER: string := "ABCDEFGHIJKLMNOPQRSTUVWXYZ"
  const LOWER: string := "abcdefghijklmnopqrstuvwxyz"
  const DIGITS: string := "0123456789"

  /** The symbols are those of the URL-safe alphabet in its order: the upper-case letters, the lower-case ones,
      the digits, a minus sign and an underscore. */
  lemma SymbolsExactly(n: int)
    requires 0 <= n < 64
    ensures Symbol(n) as char ==
            if n < 26 then UPPER[n]
            else if n < 52 then LOWER[n - 26]
            else if n < 62 then DIGITS[n - 52]
            else if n == 62 then '-'
            else '_'
    ensures forall b: byte :: SymbolValue(b) == Some(n) <==> b == Symbol(n)
  {}

  predicate IsBase64(t: bytes) { forall k :: 0 <= k < |t| ==> SymbolValue(t[k]).Some? }

  function Encode(s: bytes): (t: bytes)
    ensures |t| == (4 * |s| + 2) / 3 && IsBase64(t)
  {
    if s == [] then []
    else if |s| == 1 then [Symbol(s[0] / 4), Symbol(s[0] % 4 * 16)]
    else if |s| == 2 then [Symbol(s[0] / 4), Symbol(s[0] % 4 * 16 + s[1] / 16), Symbol(s[1] % 16 * 4)]
    else
      [Symbol(s[0] / 4), Symbol(s[0] % 4 * 16 + s[1] / 16), Symbol(s[1] % 16 * 4 + s[2] / 64), Symbol(s[2] % 64)]
      + Encode(s[3..])
  }

  // The unused low bits of a last, incomplete group are ignored.
  function Decode(t: bytes): Option<bytes> {
    if t == [] then Some([])
    else if |t| == 1 || SymbolValue(t[0]).None? || SymbolValue(t[1]).None? then None
    else
      var a, b := SymbolValue(t[0]).value, SymbolValue(t[1]).value;
      if |t| == 2 then Some([a * 4 + b / 16])
      else if SymbolValue(t[2]).None? then None
      else
        var c := SymbolValue(t[2]).value;
        if |t| == 3 then Some([a * 4 + b / 16, b % 16 * 16 + c / 4])
        else if SymbolValue(t[3]).None? then None
        else
          var rest := Decode(t[4..]);
          if rest.None? then None
          else
            Some([a * 4 + b / 16, b % 16 * 16 + c / 4, c % 4 * 64 + SymbolValue(t[3]).value] + rest.value)
  }

  lemma DecodeGroup(w: int, x: int, y: int, z: int, rest: bytes)
    requires 0 <= w < 64 && 0 <= x < 64 && 0 <= y < 64 && 0 <= z < 64
    requires Decode(rest).Some?
    ensures Decode([Symbol(w), Symbol(x), Symbol(y), Symbol(z)] + rest) ==
            Some([w * 4 + x / 16, x % 16 * 16 + y / 4, y % 4 * 64 + z] + Decode(rest).value)
  {
    hide Symbol, SymbolValue;
    var t := [Symbol(w), Symbol(x), Symbol(y), Symbol(z)] + rest;
    assert t[4..] == rest;
  }

  // Three bytes are four groups of six bits.
  lemma RegroupFirst(a: byte, b: byte)
    ensures a / 4 * 4 + (a % 4 * 16 + b / 16) / 16 == a
  {}

  lemma RegroupSecond(a: byte, b: byte, c: byte)
    ensures (a % 4 * 16 + b / 16) % 16 * 16 + (b % 16 * 4 + c / 64) / 4 == b
  {}

  lemma RegroupThird(b: byte, c: byte)
    ensures (b % 16 * 4 + c / 64) % 4 * 64 + c % 64 == c
  {}

  lemma DecodeOne(a: byte)
    ensures Decode(Encode([a])) == Some([a])
  {
    hide Symbol, SymbolValue;
    RegroupFirst(a, 0);
  }

  lemma DecodeTwo(a: byte, b: byte)
    ensures Decode(Encode([a, b])) == Some([a, b])
  {
    hide Symbol, SymbolValue;
    RegroupFirst(a, b);
    RegroupSecond(a, b, 0);
  }

  lemma DecodeThree(a: byte, b: byte, c: byte, s: bytes)
    requires Decode(Encode(s)) == Some(s)
    ensures Decode(Encode([a, b, c] + s)) == Some([a, b, c] + s)
  {
    hide Symbol, SymbolValue, Decode;
    DecodeGroup(a / 4, a % 4 * 16 + b / 16, b % 16 * 4 + c / 64, c % 64, Encode(s));
    RegroupFirst(a, b);
    RegroupSecond(a, b, c);
    RegroupThird(b, c);
    assert ([a, b, c] + s)[3..] == s;
  }

  lemma {:induction false} Base64RoundTrip(s: bytes)
    ensures Decode(Encode(s)) == Some(s)
  {
    if s == [] {
    } else {
      hide Encode, Decode;
      if |s| == 1 {
        DecodeOne(s[0]);
        assert s == [s[0]];
      } else if |s| == 2 {
        DecodeTwo(s[0], s[1]);
        assert s == [s[0], s[1]];
      } else {
        Base64RoundTrip(s[3..]);
        DecodeThree(s[0], s[1], s[2], s[3..]);
        assert s == [s[0], s[1], s[2]] + s[3..];
      }
    }
  }

  /** Each three bytes are written as the four base-64 digits of the number they make up, and a last one or
      two bytes as the digits of their number with zero bits added (section 4 of RFC 4648). */
  lemma EncodesExactly(s: bytes, v: seq<int>)
    requires |v| == |Encode(s)| && forall k :: 0 <= k < |v| ==> SymbolValue(Encode(s)[k]) == Some(v[k])
    ensures |s| == 1 ==> v[0] * 64 + v[1] == s[0] as int * 16
    ensures |s| == 2 ==> v[0] * 4096 + v[1] * 64 + v[2] == (s[0] as int * 256 + s[1]) * 4
    ensures |s| >= 3 ==>
              && v[0] * 262144 + v[1] * 4096 + v[2] * 64 + v[3] == s[0] as int * 65536 + s[1] as int * 256 + s[2]
              && Encode(s)[4..] == Encode(s[3..])
  {
    hide SymbolValue;
    if |s| == 1 {
      OneByte(s[0]);
    } else if |s| == 2 {
      TwoBytes(s[0], s[1]);
    } else if |s| >= 3 {
      ThreeBytes(s[0], s[1], s[2]);
    }
  }

  lemma OneByte(a: int)
    ensures a / 4 * 64 + a % 4 * 16 == a * 16
  {}

  lemma TwoBytes(a: int, b: int)
    ensures a / 4 * 4096 + (a % 4 * 16 + b / 16) * 64 + b % 16 * 4 == (a * 256 + b) * 4
  {}

  lemma ThreeBytes(a: int, b: int, c: int)
    ensures a / 4 * 262144 + (a % 4 * 16 + b / 16) * 4096 + (b % 16 * 4 + c / 64) * 64 + c % 64 ==
            a * 65536 + b * 256 + c
  {}

  // ---------------------------------------------------------------- text form

  function Raw(h: HashType): (s: bytes)
    ensures |s| == 32
  {
    BigEndian(h.w0, 8) + BigEndian(h.w1, 8) + BigEndian(h.w2, 8) + BigEndian(h.w3, 8)
  }

  function String(h: HashType): (t: bytes)
    ensures |t| == 43 && IsBase64(t)
  {
    Encode(Raw(h))
  }

  function Word(s: bytes): uint64
    requires |s| == 8
  {
    assert Pow256(8) == TWO_64;
    BigEndianValue(s)
  }

  // Go's decoder skips line breaks in its input.
  function DropLineBreaks(t: bytes): (r: bytes)
    ensures |r| <= |t|
  {
    if t == [] then []
    else (if t[0] == NL || t[0] == CR then [] else [t[0]]) + DropLineBreaks(t[1..])
  }

  /** A 44th symbol, behind 43 others, is decoded beyond the end of the array for the 32 bytes. */
  predicate Overlong(t: bytes) {
    var symbols := DropLineBreaks(t);
    |symbols| >= 44 && IsBase64(symbols[..44])
  }

  function ParseHash(t: bytes): Result<HashType> {
    if Overlong(t) then Err(Panic)
    else
      match Decode(DropLineBreaks(t))
      case Some(raw) =>
        if |raw| == 32 then
          Ok(HashType(Word(raw[..8]), Word(raw[8..16]), Word(raw[16..24]), Word(raw[24..])))
        else Err(Malformed)
      case None => Err(Malformed)
  }

  lemma {:induction false} DropNothing(t: bytes)
    requires IsBase64(t)
    ensures DropLineBreaks(t) == t
  {
    if t != [] {
      assert SymbolValue(t[0]).Some?;
      DropNothing(t[1..]);
      assert t == [t[0]] + t[1..];
    }
  }

  lemma WordRoundTrip(v: uint64)
    ensures Word(BigEndian(v, 8)) == v
  {
    assert Pow256(8) == TWO_64;
    BigEndianRoundTrip(v, 8);
  }

  /** The text of a hash is 43 symbols that read back as the same hash. */
  lemma StringRoundTrip(h: HashType)
    ensures ParseHash(String(h)) == Ok(h)
  {
    hide Encode, Decode, BigEndian, BigEndianValue, Word;
    DropNothing(String(h));
    Base64RoundTrip(Raw(h));
    var raw := Raw(h);
    assert raw[..8] == BigEndian(h.w0, 8);
    assert raw[8..16] == BigEndian(h.w1, 8);
    assert raw[16..24] == BigEndian(h.w2, 8);
    assert raw[24..] == BigEndian(h.w3, 8);
    WordRoundTrip(h.w0);
    WordRoundTrip(h.w1);
    WordRoundTrip(h.w2);
    WordRoundTrip(h.w3);
  }

  /** Line breaks anywhere in a key do not matter. */
  lemma BreaksInKey(a: bytes, brk: byte, b: bytes)
    requires brk == 10 || brk == 13
    ensures ParseHash(a + [brk] + b) == ParseHash(a + b)
  {
    DropsBreak(a, brk, b);
    hide DropLineBreaks;
  }

  lemma {:induction false} DropsBreak(a: bytes, brk: byte, b: bytes)
    requires brk == 10 || brk == 13
    ensures DropLineBreaks(a + [brk] + b) == DropLineBreaks(a + b)
  {
    if a == [] {
      assert ([] + [brk] + b)[1..] == b && [] + b == b;
    } else {
      assert (a + [brk] + b)[1..] == a[1..] + [brk] + b && (a + b)[1..] == a[1..] + b;
      DropsBreak(a[1..], brk, b);
    }
  }

  lemma StringInjective(a: HashType, b: HashType)
    requires String(a) == String(b)
    ensures a == b
  {
    StringRoundTrip(a);
    StringRoundTrip(b);
  }
}
