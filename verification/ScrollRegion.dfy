/** The terminal stream rewriter: every DECSTBM sequence, ESC [ top ; bottom r, is confined to the
    rows above a reserved bottom, and a sequence cut off by the end of a chunk is held back. */
module ScrollRegion {
  import opened Bytes

  const ESC: byte := 27
  const BRACKET: byte := 91
  const SEMI: byte := 59
  const FINAL: byte := 114
  const MAX_REGION_SEQ_LEN := 16

  predicate IsParam(b: byte) { b == SEMI || IsDigit(b) }

  // The number of parameter bytes at the head of the text.
  function ParamLen(s: bytes): (n: nat)
    ensures n <= |s|
    ensures forall k :: 0 <= k < n ==> IsParam(s[k])
    ensures n < |s| ==> !IsParam(s[n])
  {
    if s != [] && IsParam(s[0]) then 1 + ParamLen(s[1..]) else 0
  }

  // Where a sequence that starts with ESC stops looking like a region sequence.
  function SeqLen(s: bytes): (j: nat)
    requires s != []
    ensures 1 <= j <= |s|
  {
    if |s| > 1 && s[1] == BRACKET then 2 + ParamLen(s[2..]) else 1
  }

  /** The text starts with a complete region sequence. */
  predicate StartsRegion(s: bytes) {
    && |s| > 1 && s[0] == ESC && s[1] == BRACKET
    && SeqLen(s) < |s| && s[SeqLen(s)] == FINAL
  }

  /** The text is one sequence that more bytes could complete. */
  predicate IsPartial(s: bytes) { s != [] && s[0] == ESC && SeqLen(s) == |s| }

  function Params(s: bytes): bytes
    requires StartsRegion(s)
  {
    s[2..SeqLen(s)]
  }

  // ------------------------------------------------------------- one sequence

  function Canonical(top: nat, bot: nat): bytes {
    [ESC, BRACKET] + (Decimal(top) + [SEMI] + Decimal(bot)) + [FINAL]
  }

  function PositiveOr(text: bytes, default: int): int {
    match Atoi(text)
    case Some(v) => if v > 0 then v else default
    case None => default
  }

  // Everything behind a second separator is ignored.
  function SplitParams(params: bytes): (bytes, Option<bytes>) {
    match Cut(params, SEMI)
    case None => (params, None)
    case Some((first, rest)) =>
      match Cut(rest, SEMI)
      case None => (first, Some(rest))
      case Some((second, _)) => (first, Some(second))
  }

  /** The rows a region sequence is confined to, for a bottom of at least 2. */
  function Rows(params: bytes, bottom: int): (r: (int, int))
    requires bottom >= 2
    ensures 1 <= r.0 < r.1 <= bottom
  {
    var (first, second) := SplitParams(params);
    var top := PositiveOr(first, 1);
    var asked := if second.Some? then PositiveOr(second.value, bottom) else bottom;
    var bot := if asked > bottom then bottom else asked;
    if top < 1 || top >= bot then (1, bottom) else (top, bot)
  }

  function ClampRegionSeq(params: bytes, bottom: int): bytes {
    if bottom < 2 then [] else Canonical(Rows(params, bottom).0, Rows(params, bottom).1)
  }

  // ------------------------------------------------------------------ a chunk

  /** The rewritten bytes and the sequence held back. */
  function Rewrite(data: bytes, bottom: int): (bytes, bytes)
    decreases |data|
  {
    if data == [] then ([], [])
    else if data[0] != ESC then
      var (out, pend) := Rewrite(data[1..], bottom);
      ([data[0]] + out, pend)
    else if StartsRegion(data) then
      var (out, pend) := Rewrite(data[SeqLen(data) + 1..], bottom);
      (ClampRegionSeq(Params(data), bottom) + out, pend)
    else if IsPartial(data) then
      if |data| <= MAX_REGION_SEQ_LEN then ([], data) else (data, [])
    else
      var (out, pend) := Rewrite(data[SeqLen(data)..], bottom);
      (data[..SeqLen(data)] + out, pend)
  }

  lemma {:induction false} RewriteText(text: bytes, data: bytes, bottom: int)
    requires ESC !in text
    ensures Rewrite(text + data, bottom).0 == text + Rewrite(data, bottom).0
    ensures Rewrite(text + data, bottom).1 == Rewrite(data, bottom).1
  {
    if text == [] {
      assert text + data == data;
    } else {
      assert (text + data)[1..] == text[1..] + data;
      RewriteText(text[1..], data, bottom);
      assert text == [text[0]] + text[1..];
    }
  }

  /** The index behind a sequence's parameters. */
  method ScanSequence(data: bytes) returns (j: nat)
    requires data != []
    ensures j == SeqLen(data)
  {
    j := 1;
    if j < |data| && data[j] == BRACKET {
      j := 2;
      while j < |data| && IsParam(data[j])
        invariant 2 <= j <= |data|
        invariant SeqLen(data) == j + ParamLen(data[j..])
      {
        assert data[j..][1..] == data[j + 1..];
        j := j + 1;
      }
    }
  }

  // The result of a call that has written out and still has data to read.
  function Resume(out: bytes, data: bytes, bottom: int): (bytes, bytes) {
    (out + Rewrite(data, bottom).0, Rewrite(data, bottom).1)
  }

  method ClampScrollRegions(input: bytes, bottom: int) returns (out: bytes, pend: bytes)
    ensures (out, pend) == Rewrite(input, bottom)
  {
    hide *;
    out := [];
    var data := input;
    ResumeStart(input, bottom);
    while true
      invariant Rewrite(input, bottom) == Resume(out, data, bottom)
      decreases |data|
    {
      var i := IndexByte(data, ESC);
      ResumeText(out, data, bottom);
      if i < 0 {
        return out + data, [];
      }
      out := out + data[..i];
      data := data[i..];
      ResumeSequence(out, data, bottom);
      var j := ScanSequence(data);
      if |data| > 1 && data[1] == BRACKET && j < |data| && data[j] == FINAL {
        out := out + ClampRegionSeq(data[2..j], bottom);
        data := data[j + 1..];
        continue;
      }
      if j >= |data| {
        if |data| <= MAX_REGION_SEQ_LEN {
          return out, data;
        }
        return out + data, [];
      }
      out := out + data[..j];
      data := data[j..];
    }
  }

  lemma ResumeStart(data: bytes, bottom: int)
    ensures Resume([], data, bottom) == Rewrite(data, bottom)
  {
    hide Rewrite;
    assert [] + Rewrite(data, bottom).0 == Rewrite(data, bottom).0;
  }

  lemma ResumeText(out: bytes, data: bytes, bottom: int)
    ensures var i := IndexByte(data, ESC);
            if i < 0 then Resume(out, data, bottom) == (out + data, [])
            else data[i] == ESC && Resume(out, data, bottom) == Resume(out + data[..i], data[i..], bottom)
  {
    hide Rewrite;
    SplitAtEsc(data, bottom);
    var i := IndexByte(data, ESC);
    if i >= 0 {
      Associative(out, data[..i], Rewrite(data[i..], bottom).0);
    }
  }

  lemma ResumeSequence(out: bytes, data: bytes, bottom: int)
    requires data != [] && data[0] == ESC
    ensures var j := SeqLen(data);
            if |data| > 1 && data[1] == BRACKET && j < |data| && data[j] == FINAL then
              && j >= 2
              && Resume(out, data, bottom) == Resume(out + ClampRegionSeq(data[2..j], bottom), data[j + 1..], bottom)
            else if j >= |data| then
              Resume(out, data, bottom) == if |data| <= MAX_REGION_SEQ_LEN then (out, data) else (out + data, [])
            else
              Resume(out, data, bottom) == Resume(out + data[..j], data[j..], bottom)
  {
    hide Rewrite, SeqLen, ClampRegionSeq;
    RewriteSequence(data, bottom);
    var j := SeqLen(data);
    if |data| > 1 && data[1] == BRACKET && j < |data| && data[j] == FINAL {
      Associative(out, ClampRegionSeq(data[2..j], bottom), Rewrite(data[j + 1..], bottom).0);
    } else if j < |data| {
      Associative(out, data[..j], Rewrite(data[j..], bottom).0);
    } else {
      assert out + [] == out;
    }
  }

  lemma SeqLenOfBracket(data: bytes)
    ensures |data| > 1 && data[1] == BRACKET ==> SeqLen(data) >= 2
  {}

  lemma RewriteSequence(data: bytes, bottom: int)
    requires data != [] && data[0] == ESC
    ensures var j := SeqLen(data);
            if |data| > 1 && data[1] == BRACKET && j < |data| && data[j] == FINAL then
              && j >= 2
              && Rewrite(data, bottom).0 == ClampRegionSeq(data[2..j], bottom) + Rewrite(data[j + 1..], bottom).0
              && Rewrite(data, bottom).1 == Rewrite(data[j + 1..], bottom).1
            else if j >= |data| then
              Rewrite(data, bottom) == if |data| <= MAX_REGION_SEQ_LEN then ([], data) else (data, [])
            else
              && Rewrite(data, bottom).0 == data[..j] + Rewrite(data[j..], bottom).0
              && Rewrite(data, bottom).1 == Rewrite(data[j..], bottom).1
  {
    hide ClampRegionSeq, SeqLen;
    SeqLenOfBracket(data);
  }

  lemma RewriteNothing(bottom: int)
    ensures Rewrite([], bottom) == ([], [])
  {}

  lemma SplitAtEsc(data: bytes, bottom: int)
    ensures var i := IndexByte(data, ESC);
            if i < 0 then Rewrite(data, bottom) == (data, [])
            else
              && data[i] == ESC
              && Rewrite(data, bottom).0 == data[..i] + Rewrite(data[i..], bottom).0
              && Rewrite(data, bottom).1 == Rewrite(data[i..], bottom).1
  {
    hide Rewrite;
    var i := IndexByte(data, ESC);
    IndexIsFirst(data, ESC);
    if i < 0 {
      RewriteText(data, [], bottom);
      assert data + [] == data;
      RewriteNothing(bottom);
    } else {
      RewriteText(data[..i], data[i..], bottom);
      assert data[..i] + data[i..] == data;
    }
  }
}
