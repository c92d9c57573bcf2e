/** Byte strings, and the conversions the program takes from Go's standard library:
    first and last index, cutting at a separator, decimal and hexadecimal text, big-endian words. */
module Bytes {
  type byte = b: int | 0 <= b < 256
  type bytes = seq<byte>

  datatype Option<+T> = None | Some(value: T)

  // Panic: the program does not return an error here but panics.
  datatype Failure = Malformed | Panic

  datatype Result<+T> = Ok(value: T) | Err(error: Failure)

  const NL: byte := 10
  const CR: byte := 13
  const SPACE: byte := 32
  const PLUS: byte := 43
  const MINUS: byte := 45
  const COLON: byte := 58

  // The largest value of Go's int on a 64-bit machine; no slice or string is longer.
  const MAX_INT: int := 0x7fff_ffff_ffff_ffff

  type int64 = x: int | -MAX_INT - 1 <= x <= MAX_INT

  // ---------------------------------------------------------------- sequences

  function Elems<T(==)>(s: seq<T>): set<T> { set x | x in s }

  lemma Associative<T>(x: seq<T>, y: seq<T>, z: seq<T>)
    ensures x + (y + z) == x + y + z
  {}

  // ---------------------------------------------------------------- searching

  function IndexByte(s: bytes, c: byte): (i: int)
    ensures -1 <= i < |s|
  {
    if s == [] then -1
    else if s[0] == c then 0
    else
      var rest := IndexByte(s[1..], c);
      if rest < 0 then -1 else rest + 1
  }

  function LastIndexByte(s: bytes, c: byte): (i: int)
    ensures -1 <= i < |s|
  {
    if s == [] then -1
    else if s[|s| - 1] == c then |s| - 1
    else LastIndexByte(s[..|s| - 1], c)
  }

  /** strings.Cut with a one-byte separator: the text before and after its first occurrence. */
  function Cut(s: bytes, c: byte): (r: Option<(bytes, bytes)>)
    ensures r.Some? ==> |r.value.0| + 1 + |r.value.1| == |s|
  {
    var i := IndexByte(s, c);
    if i < 0 then None else Some((s[..i], s[i + 1..]))
  }

  /** The text before and after the last occurrence of a separator. */
  function CutLast(s: bytes, c: byte): (r: Option<(bytes, bytes)>)
    ensures r.Some? ==> |r.value.0| + 1 + |r.value.1| == |s|
  {
    var i := LastIndexByte(s, c);
    if i < 0 then None else Some((s[..i], s[i + 1..]))
  }

  lemma {:induction false} IndexUnique(before: bytes, c: byte, after: bytes)
    requires c !in before
    ensures IndexByte(before + [c] + after, c) == |before|
  {
    var s := before + [c] + after;
    if before == [] {
      assert s[0] == c;
    } else {
      assert s[0] == before[0];
      assert s[1..] == before[1..] + [c] + after;
      IndexUnique(before[1..], c, after);
    }
  }

  lemma CutUnique(before: bytes, c: byte, after: bytes)
    requires c !in before
    ensures Cut(before + [c] + after, c) == Some((before, after))
  {
    IndexUnique(before, c, after);
    assert (before + [c] + after)[..|before|] == before;
    assert (before + [c] + after)[|before| + 1..] == after;
  }

  /** What Cut gives is the text in front of the first separator and the text behind it. */
  lemma CutSplits(s: bytes, c: byte)
    requires Cut(s, c).Some?
    ensures var (before, after) := Cut(s, c).value; s == before + [c] + after && c !in before
  {
    IndexIsFirst(s, c);
  }

  lemma {:induction false} IndexIsFirst(s: bytes, c: byte)
    ensures var i := IndexByte(s, c);
            if i < 0 then c !in s else s[i] == c && c !in s[..i]
  {
    if s != [] && s[0] != c {
      IndexIsFirst(s[1..], c);
      var i := IndexByte(s, c);
      if i >= 0 {
        assert s[..i] == [s[0]] + s[1..][..i - 1];
      } else {
        assert s == [s[0]] + s[1..];
      }
    }
  }

  lemma {:induction false} CutNone(s: bytes, c: byte)
    requires c !in s
    ensures Cut(s, c) == None
  {
    if s != [] {
      CutNone(s[1..], c);
    }
  }

  lemma {:induction false} LastIndexUnique(before: bytes, c: byte, after: bytes)
    requires c !in after
    ensures LastIndexByte(before + [c] + after, c) == |before|
  {
    var s := before + [c] + after;
    if after == [] {
      assert s[|s| - 1] == c;
    } else {
      var n := |after| - 1;
      assert s[|s| - 1] == after[n];
      assert s[..|s| - 1] == before + [c] + after[..n];
      LastIndexUnique(before, c, after[..n]);
    }
  }

  lemma CutLastUnique(before: bytes, c: byte, after: bytes)
    requires c !in after
    ensures CutLast(before + [c] + after, c) == Some((before, after))
  {
    LastIndexUnique(before, c, after);
    assert (before + [c] + after)[..|before|] == before;
    assert (before + [c] + after)[|before| + 1..] == after;
  }

  // -------------------------------------------------------------- white space

  /** The width of the white space rune at the head of the text, 0 if there is none. */
  function SpaceWidth(s: bytes): (n: nat)
    ensures n <= |s|
  {
    if s == [] then 0
    else if s[0] == SPACE || 9 <= s[0] <= 13 then 1
    else if |s| >= 2 && s[0] == 0xC2 && (s[1] == 0x85 || s[1] == 0xA0) then 2
    else if |s| < 3 then 0
    else if s[0] == 0xE1 && s[1] == 0x9A && s[2] == 0x80 then 3
    else if s[0] == 0xE2 && s[1] == 0x80 && (0x80 <= s[2] <= 0x8A || s[2] in {0xA8, 0xA9, 0xAF}) then 3
    else if s[0] == 0xE2 && s[1] == 0x81 && s[2] == 0x9F then 3
    else if s[0] == 0xE3 && s[1] == 0x80 && s[2] == 0x80 then 3
    else 0
  }

  // ------------------------------------------------------------------ decimal

  predicate IsDigit(b: byte) { 48 <= b <= 57 }

  predicate AllDigits(s: bytes) { forall k :: 0 <= k < |s| ==> IsDigit(s[k]) }

  /** The shortest decimal text of a natural number, as fmt prints it. */
  function Decimal(n: nat): (s: bytes)
    ensures |s| >= 1 && AllDigits(s)
  {
    if n < 10 then [48 + n] else Decimal(n / 10) + [48 + n % 10]
  }

  function DigitsValue(s: bytes): nat
    requires AllDigits(s)
  {
    if s == [] then 0 else DigitsValue(s[..|s| - 1]) * 10 + (s[|s| - 1] - 48)
  }

  lemma {:induction false} DecimalValue(n: nat)
    ensures DigitsValue(Decimal(n)) == n
  {
    if n < 10 {
      assert Decimal(n)[..0] == [];
    } else {
      DecimalValue(n / 10);
      var s := Decimal(n);
      assert s[..|s| - 1] == Decimal(n / 10);
    }
  }

  /** strconv.Atoi: an optional sign, at least one digit, nothing else, and no overflow. */
  function Atoi(s: bytes): (r: Option<int>)
    ensures r.Some? ==> -MAX_INT - 1 <= r.value <= MAX_INT
  {
    var signed := s != [] && (s[0] == MINUS || s[0] == PLUS);
    var digits := if signed then s[1..] else s;
    if digits == [] || !AllDigits(digits) then None
    else
      var v := DigitsValue(digits);
      if signed && s[0] == MINUS then
        if v <= MAX_INT + 1 then Some(0 - v) else None
      else
        if v <= MAX_INT then Some(v) else None
  }

  /** Printing with %d and reading with Atoi are inverse on every int a machine word holds, and the
      texts of larger numbers are refused. */
  lemma AtoiDecimal(n: nat)
    ensures Atoi(Decimal(n)) == if n <= MAX_INT then Some(n) else None
  {
    DecimalValue(n);
    assert IsDigit(Decimal(n)[0]);
  }

  /** Digits, with leading zeros or not, are read as their value, and none or too many are refused. */
  lemma AtoiDigits(s: bytes)
    requires AllDigits(s)
    ensures Atoi(s) == if s == [] || DigitsValue(s) > MAX_INT then None else Some(DigitsValue(s))
  {
    if s != [] {
      assert IsDigit(s[0]);
    }
  }

  function Itoa(n: int64): (s: bytes)
    ensures |s| >= 1
  {
    if n < 0 then [MINUS] + Decimal(0 - n) else Decimal(n)
  }

  // ---------------------------------------------------------------------- hex

  function HexDigit(n: int): (b: byte)
    requires 0 <= n < 16
    ensures HexValue(b) == Some(n)
  {
    if n < 10 then 48 + n else 87 + n
  }

  function HexValue(b: byte): (r: Option<int>)
    ensures r.Some? ==> 0 <= r.value < 16
  {
    if 48 <= b <= 57 then Some(b - 48)
    else if 97 <= b <= 102 then Some(b - 87)
    else if 65 <= b <= 70 then Some(b - 55)
    else None
  }

  const HEX_DIGITS: string := "0123456789abcdef"

  /** The lower-case digits are written, and both cases are read. */
  lemma HexDigitsExactly(n: int, b: byte)
    requires 0 <= n < 16
    ensures HexDigit(n) as char == HEX_DIGITS[n]
    ensures HexValue(b) == Some(n) <==> b as char == HEX_DIGITS[n] || (n >= 10 && b as char == "ABCDEF"[n - 10])
  {}

  predicate IsHex(s: bytes) { forall k :: 0 <= k < |s| ==> HexValue(s[k]).Some? }

  function HexEncode(s: bytes): (t: bytes)
    ensures |t| == 2 * |s| && IsHex(t)
  {
    if s == [] then [] else [HexDigit(s[0] / 16), HexDigit(s[0] % 16)] + HexEncode(s[1..])
  }

  lemma HexSplit(t: bytes)
    requires |t| >= 2
    ensures IsHex(t) <==> HexValue(t[0]).Some? && HexValue(t[1]).Some? && IsHex(t[2..])
  {
    hide HexValue;
    forall k | 2 <= k < |t| ensures t[k] == t[2..][k - 2] {}
  }

  function HexDecode(t: bytes): (r: Option<bytes>)
    ensures r.Some? ==> |t| == 2 * |r.value|
    ensures r.Some? <==> |t| % 2 == 0 && IsHex(t)
  {
    if t == [] then Some([])
    else if |t| == 1 then None
    else
      var rest := HexDecode(t[2..]);
      HexSplit(t);
      if HexValue(t[0]).None? || HexValue(t[1]).None? || rest.None? then None
      else Some([HexValue(t[0]).value * 16 + HexValue(t[1]).value] + rest.value)
  }

  lemma {:induction false} HexRoundTrip(s: bytes)
    ensures HexDecode(HexEncode(s)) == Some(s)
  {
    if s != [] {
      HexRoundTrip(s[1..]);
      assert HexEncode(s)[2..] == HexEncode(s[1..]);
      assert s == [s[0]] + s[1..];
    }
  }

  // --------------------------------------------------------------- big endian

  function Pow256(n: nat): (p: nat)
    ensures p > 0
  {
    if n == 0 then 1 else 256 * Pow256(n - 1)
  }

  function BigEndian(v: nat, n: nat): (s: bytes)
    ensures |s| == n
  {
    if n == 0 then [] else BigEndian(v / 256, n - 1) + [v % 256]
  }

  function BigEndianValue(s: bytes): (v: nat)
    ensures v < Pow256(|s|)
  {
    if s == [] then 0 else BigEndianValue(s[..|s| - 1]) * 256 + s[|s| - 1]
  }

  lemma {:induction false} BigEndianRoundTrip(v: nat, n: nat)
    requires v < Pow256(n)
    ensures BigEndianValue(BigEndian(v, n)) == v
  {
    if n > 0 {
      BigEndianRoundTrip(v / 256, n - 1);
      var s := BigEndian(v, n);
      assert s[..|s| - 1] == BigEndian(v / 256, n - 1);
    }
  }

  /** The most significant byte comes first: byte k counts 256 to the power of the bytes behind it. */
  lemma {:induction false} BigEndianExactly(v: nat, n: nat, k: nat)
    requires k < n
    ensures BigEndian(v, n)[k] == v / Pow256(n - 1 - k) % 256
  {
    if k < n - 1 {
      BigEndianExactly(v / 256, n - 1, k);
      DivideTwice(v, n - 2 - k);
    }
  }

  lemma DivideTwice(v: nat, m: nat)
    ensures v / 256 / Pow256(m) == v / Pow256(m + 1)
  {
    var p := Pow256(m);
    var q: nat, r: nat := v / 256 / p, v / 256 % p;
    assert v / 256 == p * q + r;
    assert v == 256 * (v / 256) + v % 256;
    assert 256 * (p * q + r) == 256 * p * q + 256 * r;
    QuotientOf(v, 256 * p, q, 256 * r + v % 256);
  }

  lemma QuotientOf(v: nat, p: nat, q: nat, r: nat)
    requires p > 0 && v == p * q + r && r < p
    ensures v / p == q
  {
    assert v == p * (v / p) + v % p;
    assert p * (v / p - q) == r - v % p;
    NoMultiple(p, v / p - q);
  }

  lemma NoMultiple(p: nat, x: int)
    requires 0 - p < p * x < p
    ensures x == 0
  {}
}
