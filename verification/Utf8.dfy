/** Decoding the rune at the head of a byte string, as Go does: an invalid or cut-off encoding is
    the replacement rune with a width of one byte. */
module Utf8 {
  import opened Bytes

  const RUNE_ERROR := 0xFFFD

  predicate IsCont(b: byte) { 0x80 <= b <= 0xBF }

  // The encoded length a lead byte asks for, 0 if it is none.
  function LeadSize(b: byte): nat {
    if b < 0x80 then 1
    else if 0xC2 <= b <= 0xDF then 2
    else if 0xE0 <= b <= 0xEF then 3
    else if 0xF0 <= b <= 0xF4 then 4
    else 0
  }

  // The second byte may not make an overlong form, a surrogate, or a rune above the last one.
  predicate IsSecond(lead: byte, b: byte) {
    && IsCont(b)
    && (lead == 0xE0 ==> b >= 0xA0) && (lead == 0xED ==> b <= 0x9F)
    && (lead == 0xF0 ==> b >= 0x90) && (lead == 0xF4 ==> b <= 0x8F)
  }

  /** A valid encoding of one rune stands at the head of the text. */
  predicate StartsValid(s: bytes) {
    && s != []
    && var n := LeadSize(s[0]);
    && 0 < n <= |s|
    && (n > 1 ==> IsSecond(s[0], s[1]))
    && (n > 2 ==> IsCont(s[2]))
    && (n > 3 ==> IsCont(s[3]))
  }

  // A byte without its marker bits.
  function Low(b: byte, marker: int): int { b as int - marker }

  function DecodeRune(s: bytes): (r: (int, nat))
    requires s != []
    ensures 1 <= r.1 <= |s|
    ensures 0 <= r.0 <= 0x10FFFF
    ensures StartsValid(s) ==> r.1 == LeadSize(s[0])
    ensures !StartsValid(s) ==> r == (RUNE_ERROR, 1)
    ensures s[0] < 0x80 ==> r == (s[0], 1)
    ensures s[0] >= 0x80 ==> r.0 >= 0x80
  {
    if !StartsValid(s) then (RUNE_ERROR, 1)
    else
      match LeadSize(s[0])
      case 1 => (s[0], 1)
      case 2 => (Low(s[0], 0xC0) * 64 + Low(s[1], 0x80), 2)
      case 3 => (Low(s[0], 0xE0) * 4096 + Low(s[1], 0x80) * 64 + Low(s[2], 0x80), 3)
      case _ => (Low(s[0], 0xF0) * 262144 + Low(s[1], 0x80) * 4096 + Low(s[2], 0x80) * 64 + Low(s[3], 0x80), 4)
  }

  /** Decoding looks no further than the rune it finds: cutting the text behind it changes nothing. */
  lemma DecodePrefix(s: bytes, n: nat)
    requires s != [] && DecodeRune(s).1 <= n <= |s|
    ensures DecodeRune(s[..n]) == DecodeRune(s)
  {
    assert s[..n][0] == s[0];
    assert StartsValid(s[..n]) <==> StartsValid(s);
  }

  // ------------------------------------------------------------------- encoding

  /** A code point that is no surrogate. */
  predicate IsScalar(rune: int) { 0 <= rune <= 0x10FFFF && !(0xD800 <= rune <= 0xDFFF) }

  /** The encoding of a rune in one to four bytes (section 3 of RFC 3629). */
  function Encode(rune: int): (s: bytes)
    requires IsScalar(rune)
    ensures 1 <= |s| <= 4
  {
    if rune < 0x80 then [rune]
    else if rune < 0x800 then [0xC0 + rune / 64, 0x80 + rune % 64]
    else if rune < 0x10000 then [0xE0 + rune / 4096, 0x80 + rune / 64 % 64, 0x80 + rune % 64]
    else [0xF0 + rune / 262144, 0x80 + rune / 4096 % 64, 0x80 + rune / 64 % 64, 0x80 + rune % 64]
  }

  /** Decoding undoes encoding, whatever follows. */
  lemma DecodeEncoded(rune: int, rest: bytes)
    requires IsScalar(rune)
    ensures DecodeRune(Encode(rune) + rest) == (rune, |Encode(rune)|)
  {
    var s := Encode(rune) + rest;
    if rune < 0x80 {
    } else if rune < 0x800 {
      EncodedTwo(rune, s);
    } else if rune < 0x10000 {
      EncodedThree(rune, s);
    } else {
      EncodedFour(rune, s);
    }
  }

  lemma EncodedTwo(rune: int, s: bytes)
    requires 0x80 <= rune < 0x800 && |s| >= 2 && s[0] == 0xC0 + rune / 64 && s[1] == 0x80 + rune % 64
    ensures DecodeRune(s) == (rune, 2)
  {}

  lemma EncodedThree(rune: int, s: bytes)
    requires IsScalar(rune) && 0x800 <= rune < 0x10000 && |s| >= 3
    requires s[0] == 0xE0 + rune / 4096 && s[1] == 0x80 + rune / 64 % 64 && s[2] == 0x80 + rune % 64
    ensures DecodeRune(s) == (rune, 3)
  {
    assert rune == rune / 4096 * 4096 + rune / 64 % 64 * 64 + rune % 64;
  }

  lemma EncodedFour(rune: int, s: bytes)
    requires 0x10000 <= rune <= 0x10FFFF && |s| >= 4
    requires s[0] == 0xF0 + rune / 262144 && s[1] == 0x80 + rune / 4096 % 64
    requires s[2] == 0x80 + rune / 64 % 64 && s[3] == 0x80 + rune % 64
    ensures DecodeRune(s) == (rune, 4)
  {
    hide DecodeRune;
    FourDigits(rune);
    DecodeFour(s, rune / 262144, rune / 4096 % 64, rune / 64 % 64, rune % 64);
  }

  lemma FourDigits(rune: int)
    requires 0x10000 <= rune <= 0x10FFFF
    ensures rune == rune / 262144 * 262144 + rune / 4096 % 64 * 4096 + rune / 64 % 64 * 64 + rune % 64
    ensures 0 <= rune / 262144 <= 4
    ensures rune / 262144 == 0 ==> rune / 4096 % 64 >= 16
    ensures rune / 262144 == 4 ==> rune / 4096 % 64 <= 15
  {
    var high := rune / 4096;
    assert rune / 262144 == high / 64;
  }

  lemma DecodeFour(s: bytes, a: int, b: int, c: int, d: int)
    requires 0 <= a <= 4 && 0 <= b < 64 && 0 <= c < 64 && 0 <= d < 64
    requires (a == 0 ==> b >= 16) && (a == 4 ==> b <= 15)
    requires |s| >= 4 && s[0] == 0xF0 + a && s[1] == 0x80 + b && s[2] == 0x80 + c && s[3] == 0x80 + d
    ensures DecodeRune(s) == (a * 262144 + b * 4096 + c * 64 + d, 4)
  {}

  /** A text that starts with the encoding of a rune is decoded to it, and every other text to the replacement
      rune with a width of one byte. */
  lemma DecodesExactly(s: bytes)
    requires s != []
    ensures var (rune, size) := DecodeRune(s);
            || (IsScalar(rune) && Encode(rune) == s[..size])
            || ((rune, size) == (0xFFFD, 1) && forall q | IsScalar(q) :: !(Encode(q) <= s))
  {
    if StartsValid(s) {
      ValidIsEncoded(s);
    } else {
      forall q | IsScalar(q) ensures !(Encode(q) <= s) {
        if Encode(q) <= s {
          assert s == Encode(q) + s[|Encode(q)|..];
          DecodeEncoded(q, s[|Encode(q)|..]);
          EncodedIsValid(q, s[|Encode(q)|..]);
        }
      }
    }
  }

  lemma EncodedIsValid(rune: int, rest: bytes)
    requires IsScalar(rune)
    ensures StartsValid(Encode(rune) + rest)
  {
    var s := Encode(rune) + rest;
    assert s[..|Encode(rune)|] == Encode(rune);
  }

  lemma ValidIsEncoded(s: bytes)
    requires StartsValid(s)
    ensures IsScalar(DecodeRune(s).0) && Encode(DecodeRune(s).0) == s[..DecodeRune(s).1]
  {
    match LeadSize(s[0]) {
      case 1 =>
      case 2 =>
        assert s[..2] == [s[0], s[1]];
        ValidTwo(s[0], s[1]);
      case 3 =>
        assert s[..3] == [s[0], s[1], s[2]];
        ValidThree(s[0], s[1], s[2]);
      case _ =>
        assert s[..4] == [s[0], s[1], s[2], s[3]];
        ValidFour(s[0], s[1], s[2], s[3]);
    }
  }

  // A number in base 64 has its digits back.
  lemma SplitDigit(x: nat, y: nat)
    requires y < 64
    ensures (x * 64 + y) / 64 == x && (x * 64 + y) % 64 == y
  {}

  lemma ValidTwo(a: byte, b: byte)
    requires LeadSize(a) == 2 && IsSecond(a, b)
    ensures var rune := (a - 0xC0) * 64 + (b - 0x80); IsScalar(rune) && Encode(rune) == [a, b]
  {
    SplitDigit(a - 0xC0, b - 0x80);
  }

  lemma ValidThree(a: byte, b: byte, c: byte)
    requires LeadSize(a) == 3 && IsSecond(a, b) && IsCont(c)
    ensures var rune := (a - 0xE0) * 4096 + (b - 0x80) * 64 + (c - 0x80); IsScalar(rune) && Encode(rune) == [a, b, c]
  {
    var high := (a - 0xE0) * 64 + (b - 0x80);
    SplitDigit(a - 0xE0, b - 0x80);
    SplitDigit(high, c - 0x80);
    var rune := high * 64 + (c - 0x80);
    assert rune / 4096 == rune / 64 / 64;
    assert 0x800 <= rune < 0x10000;
  }

  lemma ValidFour(a: byte, b: byte, c: byte, d: byte)
    requires LeadSize(a) == 4 && IsSecond(a, b) && IsCont(c) && IsCont(d)
    ensures var rune := (a - 0xF0) * 262144 + (b - 0x80) * 4096 + (c - 0x80) * 64 + (d - 0x80);
            IsScalar(rune) && rune >= 0x10000 && Encode(rune) == [a, b, c, d]
  {
    var top := (a - 0xF0) * 64 + (b - 0x80);
    var high := top * 64 + (c - 0x80);
    SplitDigit(a - 0xF0, b - 0x80);
    SplitDigit(top, c - 0x80);
    SplitDigit(high, d - 0x80);
    var rune := high * 64 + (d - 0x80);
    assert rune / 4096 == rune / 64 / 64 && rune / 262144 == rune / 64 / 64 / 64;
    assert 0x10000 <= rune <= 0x10FFFF;
  }

  // ------------------------------------------------------------------- white space

  /** The runes with the Unicode property White_Space. */
  predicate IsWhiteSpace(rune: int) {
    || 9 <= rune <= 13 || rune == 0x20 || rune == 0x85 || rune == 0xA0 || rune == 0x1680
    || 0x2000 <= rune <= 0x200A || rune == 0x2028 || rune == 0x2029 || rune == 0x202F || rune == 0x205F
    || rune == 0x3000
  }

  /** White space at the head of a text is exactly the encoding of a white space rune. */
  lemma SpacesExactly(rune: int, rest: bytes)
    requires IsScalar(rune)
    ensures SpaceWidth(Encode(rune) + rest) == if IsWhiteSpace(rune) then |Encode(rune)| else 0
  {
    var s := Encode(rune) + rest;
    if rune < 0x80 {
      assert s[0] == rune;
    } else if rune < 0x800 {
      assert s[0] == 0xC0 + rune / 64 && s[1] == 0x80 + rune % 64;
    } else if rune < 0x10000 {
      assert s[0] == 0xE0 + rune / 4096 && s[1] == 0x80 + rune / 64 % 64 && s[2] == 0x80 + rune % 64;
    } else {
      assert s[0] == 0xF0 + rune / 262144;
    }
  }
}
