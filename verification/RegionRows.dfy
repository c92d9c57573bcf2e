/** What the stream rewriter makes of each kind of byte sequence, told on the bytes themselves: which rows a
    region sequence is rewritten to, what is passed on, and what is held back. */
module RegionRows {
  import opened Bytes
  import opened ScrollRegion
  import opened ScrollTheorems

  /** ESC [ and the text. */
  function Csi(text: bytes): bytes { [27, 91] + text }

  predicate AreParams(s: bytes) { forall k :: 0 <= k < |s| ==> 48 <= s[k] <= 59 && s[k] != 58 }

  // -------------------------------------------------------------------- the rows

  /** The row that digits name: a default for none, for zero, and for a number that is no int. */
  function Asked(digits: bytes, default: int): int
    requires AllDigits(digits)
  {
    var n := DigitsValue(digits);
    if digits == [] || n == 0 || n > MAX_INT then default else n
  }

  /** The row is one of those asked for and one of those to keep. */
  predicate Common(row: int, top: int, bot: int, bottom: int) {
    top <= row <= bot && 1 <= row <= bottom
  }

  /** The rows lo to hi are the common rows when there are two or more, and all rows to keep otherwise. */
  ghost predicate IsClamped(lo: nat, hi: nat, top: int, bot: int, bottom: int) {
    if exists row :: Common(row, top, bot, bottom) && Common(row + 1, top, bot, bottom) then
      forall row :: lo <= row <= hi <==> Common(row, top, bot, bottom)
    else lo == 1 && hi == bottom
  }

  /** A top row, and behind a separator a bottom row and then anything: the sequence is rewritten to the
      common rows, and the rest of the stream as if it stood alone. */
  lemma ClampsToCommonRows(first: bytes, second: bytes, more: bytes, rest: bytes, bottom: int)
    returns (lo: nat, hi: nat)
    requires AllDigits(first) && AllDigits(second) && AreParams(more) && (more == [] || more[0] == 59)
    requires bottom >= 2
    ensures Rewrite(Csi(first + [59] + second + more + [114]) + rest, bottom) ==
            (Csi(Decimal(lo) + [59] + Decimal(hi) + [114]) + Rewrite(rest, bottom).0, Rewrite(rest, bottom).1)
    ensures IsClamped(lo, hi, Asked(first, 1), Asked(second, bottom), bottom)
  {
    hide Decimal, Rewrite, Atoi, Asked, IsClamped, Rows, ParamLen;
    var params := first + [59] + second + more;
    RegionIsRewritten(params, rest, bottom);
    lo, hi := Rows(params, bottom).0, Rows(params, bottom).1;
    SplitTwo(first, second, more);
    RowsAreClamped(params, first, Some(second), bottom);
    CanonicalText(lo, hi);
  }

  /** Without a separator, the bottom row is the last row to keep. */
  lemma ClampsTopOnly(first: bytes, rest: bytes, bottom: int) returns (lo: nat, hi: nat)
    requires AllDigits(first) && bottom >= 2
    ensures Rewrite(Csi(first + [114]) + rest, bottom) ==
            (Csi(Decimal(lo) + [59] + Decimal(hi) + [114]) + Rewrite(rest, bottom).0, Rewrite(rest, bottom).1)
    ensures IsClamped(lo, hi, Asked(first, 1), bottom, bottom)
  {
    hide Decimal, Rewrite, Atoi, Asked, IsClamped, Rows, ParamLen;
    RegionIsRewritten(first, rest, bottom);
    lo, hi := Rows(first, bottom).0, Rows(first, bottom).1;
    DigitsHaveNo(first, 59);
    CutNone(first, 59);
    RowsAreClamped(first, first, None, bottom);
    CanonicalText(lo, hi);
  }

  lemma CanonicalText(lo: nat, hi: nat)
    ensures Canonical(lo, hi) == Csi(Decimal(lo) + [59] + Decimal(hi) + [114])
  {
    hide Decimal;
  }

  lemma DigitsHaveNo(s: bytes, c: byte)
    requires AllDigits(s) && !IsDigit(c)
    ensures c !in s
  {}

  lemma SplitTwo(first: bytes, second: bytes, more: bytes)
    requires AllDigits(first) && AllDigits(second) && (more == [] || more[0] == 59)
    ensures SplitParams(first + [59] + second + more) == (first, Some(second))
  {
    hide Cut;
    var rest := second + more;
    assert first + [59] + second + more == first + [59] + rest;
    DigitsHaveNo(first, 59);
    DigitsHaveNo(second, 59);
    CutUnique(first, 59, rest);
    if more == [] {
      assert rest == second;
      CutNone(second, 59);
    } else {
      assert rest == second + [59] + more[1..];
      CutUnique(second, 59, more[1..]);
    }
  }

  lemma AskedIsPositive(digits: bytes, default: int)
    requires AllDigits(digits)
    ensures PositiveOr(digits, default) == Asked(digits, default)
  {
    AtoiDigits(digits);
  }

  lemma RowsAreClamped(params: bytes, first: bytes, second: Option<bytes>, bottom: int)
    requires AllDigits(first) && (second.Some? ==> AllDigits(second.value)) && bottom >= 2
    requires SplitParams(params) == (first, second)
    ensures var (lo, hi) := Rows(params, bottom);
            IsClamped(lo, hi, Asked(first, 1), if second.Some? then Asked(second.value, bottom) else bottom, bottom)
  {
    hide SplitParams, PositiveOr, Asked;
    AskedIsPositive(first, 1);
    if second.Some? {
      AskedIsPositive(second.value, bottom);
    }
    var top := Asked(first, 1);
    var bot := if second.Some? then Asked(second.value, bottom) else bottom;
    AskedIsAtLeastOne(first);
    var hi := if bot < bottom then bot else bottom;
    if top < hi {
      assert Common(top, top, bot, bottom) && Common(top + 1, top, bot, bottom);
    }
  }

  lemma AskedIsAtLeastOne(digits: bytes)
    requires AllDigits(digits)
    ensures Asked(digits, 1) >= 1
  {}

  /** The same for two numbers, however large. */
  lemma ClampsNumbers(top: nat, bot: nat, bottom: int) returns (lo: nat, hi: nat)
    requires bottom >= 2
    ensures Rewrite(Csi(Decimal(top) + [59] + Decimal(bot) + [114]), bottom) ==
            (Csi(Decimal(lo) + [59] + Decimal(hi) + [114]), [])
    ensures IsClamped(lo, hi, if top == 0 || top > MAX_INT then 1 else top,
                      if bot == 0 || bot > MAX_INT then bottom else bot, bottom)
  {
    hide Rewrite, IsClamped, Decimal;
    DecimalValue(top);
    DecimalValue(bot);
    lo, hi := ClampsToCommonRows(Decimal(top), Decimal(bot), [], [], bottom);
    RewriteNothing(bottom);
    assert Decimal(top) + [59] + Decimal(bot) + [] + [114] == Decimal(top) + [59] + Decimal(bot) + [114];
    var text := Csi(Decimal(top) + [59] + Decimal(bot) + [114]);
    var clamped := Csi(Decimal(lo) + [59] + Decimal(hi) + [114]);
    assert text + [] == text && clamped + [] == clamped;
  }

  /** A reset names all rows to keep: ESC [ r becomes ESC [ 1 ; bottom r. */
  lemma ResetKeepsAllRows(rest: bytes, bottom: int)
    requires bottom >= 2
    ensures Rewrite(Csi([114]) + rest, bottom) ==
            (Csi([49, 59] + Decimal(bottom) + [114]) + Rewrite(rest, bottom).0, Rewrite(rest, bottom).1)
  {
    hide Rewrite;
    var lo, hi := ClampsTopOnly([], rest, bottom);
    assert [] + [114] == [114];
    assert Common(1, 1, bottom, bottom) && Common(2, 1, bottom, bottom);
    assert Common(bottom, 1, bottom, bottom) && !Common(0, 1, bottom, bottom) && Common(hi, 1, bottom, bottom);
    assert Decimal(1) == [49];
    assert [49] + [59] == [49, 59];
  }

  lemma RegionIsRewritten(params: bytes, rest: bytes, bottom: int)
    requires AreParams(params)
    ensures Rewrite(Csi(params + [114]) + rest, bottom) ==
            (ClampRegionSeq(params, bottom) + Rewrite(rest, bottom).0, Rewrite(rest, bottom).1)
  {
    hide Rewrite, ClampRegionSeq, ParamLen;
    var data := Csi(params + [114]) + rest;
    AllParams(params);
    assert data[2..] == params + ([114] + rest);
    ParamLenAppend(params, [114] + rest);
    FinalEndsParams(rest);
    RewriteSequence(data, bottom);
    var j := 2 + |params|;
    assert SeqLen(data) == j;
    SequenceParts(params, rest);
  }

  lemma SequenceParts(params: bytes, rest: bytes)
    ensures var data := Csi(params + [114]) + rest;
            var j := 2 + |params|;
            data[2..j] == params && data[j] == 114 && data[j + 1..] == rest
  {}

  /** With fewer than two rows to keep, a region sequence is dropped. */
  lemma RegionIsDropped(params: bytes, rest: bytes, bottom: int)
    requires AreParams(params) && bottom < 2
    ensures Rewrite(Csi(params + [114]) + rest, bottom) == Rewrite(rest, bottom)
  {
    hide Rewrite;
    RegionIsRewritten(params, rest, bottom);
    assert [] + Rewrite(rest, bottom).0 == Rewrite(rest, bottom).0;
  }

  // ------------------------------------------------------------------ everything else

  /** Text in front of an ESC is passed on. */
  lemma TextIsPassedOn(text: bytes, rest: bytes, bottom: int)
    requires 27 !in text
    ensures Rewrite(text + rest, bottom) == (text + Rewrite(rest, bottom).0, Rewrite(rest, bottom).1)
  {
    hide Rewrite;
    RewriteText(text, rest, bottom);
  }

  /** An ESC that no bracket follows is passed on, and so is a control sequence with another final byte. */
  lemma OtherSequenceIsPassedOn(params: bytes, b: byte, rest: bytes, bottom: int)
    requires AreParams(params)
    ensures b != 91 ==>
              Rewrite([27, b] + rest, bottom) ==
              ([27] + Rewrite([b] + rest, bottom).0, Rewrite([b] + rest, bottom).1)
    ensures !AreParams([b]) && b != 114 ==>
              Rewrite(Csi(params + [b]) + rest, bottom) ==
              (Csi(params) + Rewrite([b] + rest, bottom).0, Rewrite([b] + rest, bottom).1)
  {
    hide Rewrite, ParamLen;
    if b != 91 {
      LoneEsc(b, rest, bottom);
    }
    if !AreParams([b]) && b != 114 {
      var data := Csi(params + [b]) + rest;
      AllParams(params);
      assert data[2..] == params + ([b] + rest);
      ParamLenAppend(params, [b] + rest);
      EndsParams(b, rest);
      RewriteSequence(data, bottom);
      var j := 2 + |params|;
      assert SeqLen(data) == j;
      OtherParts(params, b, rest);
    }
  }

  lemma LoneEsc(b: byte, rest: bytes, bottom: int)
    requires b != 91
    ensures Rewrite([27, b] + rest, bottom) ==
            ([27] + Rewrite([b] + rest, bottom).0, Rewrite([b] + rest, bottom).1)
  {
    hide Rewrite;
    var data := [27, b] + rest;
    RewriteSequence(data, bottom);
    assert SeqLen(data) == 1 && data[..1] == [27] && data[1..] == [b] + rest;
  }

  lemma EndsParams(b: byte, rest: bytes)
    requires !AreParams([b])
    ensures ParamLen([b] + rest) == 0
  {
    assert !IsParam(b) by {
      assert [b][0] == b;
    }
  }

  lemma OtherParts(params: bytes, b: byte, rest: bytes)
    ensures var data := Csi(params + [b]) + rest;
            var j := 2 + |params|;
            data[..j] == Csi(params) && data[j] == b && data[j..] == [b] + rest
  {}

  /** A stream that ends in ESC or in ESC [ and parameters holds these back, up to 16 bytes, and passes on
      longer ones. */
  lemma EndIsHeldBack(params: bytes, bottom: int)
    requires AreParams(params)
    ensures Rewrite([27], bottom) == ([], [27])
    ensures Rewrite(Csi(params), bottom) == if |params| <= 14 then ([], Csi(params)) else (Csi(params), [])
  {
    var data := Csi(params);
    AllParams(params);
    assert data[2..] == params;
    hide ParamLen;
    assert SeqLen(data) == |data|;
  }
}
