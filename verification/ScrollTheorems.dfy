/** Theorems about the stream rewriter: how a stream may be cut into chunks, that its output is
    confined, and that rewriting its own output changes nothing. */
module ScrollTheorems {
  import opened Bytes
  import opened ScrollRegion

  // ------------------------------------------------------- sequences and more bytes

  lemma {:induction false} ParamLenAppend(s: bytes, t: bytes)
    ensures ParamLen(s + t) == if ParamLen(s) < |s| then ParamLen(s) else |s| + ParamLen(t)
  {
    if s == [] {
      assert s + t == t;
    } else if IsParam(s[0]) {
      assert (s + t)[1..] == s[1..] + t;
      ParamLenAppend(s[1..], t);
    }
  }

  /** A sequence that ends inside its text is not changed by what follows it. */
  lemma SeqLenAppend(s: bytes, t: bytes)
    requires s != [] && SeqLen(s) < |s|
    ensures SeqLen(s + t) == SeqLen(s)
  {
    assert |s| > 1;
    assert (s + t)[1] == s[1];
    assert (s + t)[2..] == s[2..] + t;
    ParamLenAppend(s[2..], t);
  }

  /** The same sequence starts any two texts that agree up to the byte behind it. */
  lemma SeqLenAgree(s: bytes, t: bytes)
    requires s != [] && SeqLen(s) < |s| && SeqLen(s) < |t| && t[..SeqLen(s) + 1] == s[..SeqLen(s) + 1]
    ensures SeqLen(t) == SeqLen(s)
  {
    var n := SeqLen(s) + 1;
    var common := s[..n];
    assert s == common + s[n..] && t == common + t[n..];
    PrefixSeqLen(s);
    SeqLenAppend(common, t[n..]);
  }

  lemma PrefixSeqLen(s: bytes)
    requires s != [] && SeqLen(s) < |s|
    ensures SeqLen(s[..SeqLen(s) + 1]) == SeqLen(s)
  {
    var n := SeqLen(s) + 1;
    if |s| > 1 && s[1] == BRACKET {
      var k := ParamLen(s[2..]);
      assert s[..n][2..] == s[2..][..k + 1];
      ParamLenPrefix(s[2..], k + 1);
    }
  }

  lemma {:induction false} ParamLenPrefix(s: bytes, n: nat)
    requires ParamLen(s) < n <= |s|
    ensures ParamLen(s[..n]) == ParamLen(s)
  {
    if s != [] && IsParam(s[0]) {
      assert s[..n][1..] == s[1..][..n - 1];
      ParamLenPrefix(s[1..], n - 1);
    }
  }

  // ------------------------------------------------------------------- chunks

  /** The incomplete sequence a text ends in, whatever its length. */
  function Tail(data: bytes): (t: bytes)
    ensures |t| <= |data| && (t == [] || IsPartial(t))
    decreases |data|
  {
    if data == [] then []
    else if data[0] != ESC then Tail(data[1..])
    else if StartsRegion(data) then Tail(data[SeqLen(data) + 1..])
    else if IsPartial(data) then data
    else Tail(data[SeqLen(data)..])
  }

  /** The rewritten bytes in front of the tail. */
  function Front(data: bytes, bottom: int): bytes
    decreases |data|
  {
    if data == [] then []
    else if data[0] != ESC then [data[0]] + Front(data[1..], bottom)
    else if StartsRegion(data) then ClampRegionSeq(Params(data), bottom) + Front(data[SeqLen(data) + 1..], bottom)
    else if IsPartial(data) then []
    else data[..SeqLen(data)] + Front(data[SeqLen(data)..], bottom)
  }

  /** Whatever follows a text, rewriting is rewriting the text up to its tail, and then the tail
      together with what follows. */
  lemma {:induction false} RewriteAppend(a: bytes, c: bytes, bottom: int)
    ensures Rewrite(a + c, bottom).0 == Front(a, bottom) + Rewrite(Tail(a) + c, bottom).0
    ensures Rewrite(a + c, bottom).1 == Rewrite(Tail(a) + c, bottom).1
    decreases |a|
  {
    hide Rewrite, SeqLen, ClampRegionSeq;
    if a == [] {
      assert a + c == c && [] + Rewrite(c, bottom).0 == Rewrite(c, bottom).0;
    } else if a[0] != ESC {
      RewriteAppendText(a, c, bottom);
      RewriteAppend(a[1..], c, bottom);
      Associative([a[0]], Front(a[1..], bottom), Rewrite(Tail(a) + c, bottom).0);
    } else if IsPartial(a) {
      assert [] + Rewrite(a + c, bottom).0 == Rewrite(a + c, bottom).0;
    } else {
      RewriteAppendSequence(a, c, bottom);
      var rest := if StartsRegion(a) then a[SeqLen(a) + 1..] else a[SeqLen(a)..];
      var first := if StartsRegion(a) then ClampRegionSeq(Params(a), bottom) else a[..SeqLen(a)];
      RewriteAppend(rest, c, bottom);
      Associative(first, Front(rest, bottom), Rewrite(Tail(a) + c, bottom).0);
    }
  }

  lemma RewriteAppendText(a: bytes, c: bytes, bottom: int)
    requires a != [] && a[0] != ESC
    ensures Rewrite(a + c, bottom).0 == [a[0]] + Rewrite(a[1..] + c, bottom).0
    ensures Rewrite(a + c, bottom).1 == Rewrite(a[1..] + c, bottom).1
  {
    assert (a + c)[1..] == a[1..] + c;
  }

  lemma RewriteAppendSequence(a: bytes, c: bytes, bottom: int)
    requires a != [] && a[0] == ESC && !IsPartial(a)
    ensures var j := SeqLen(a);
            if StartsRegion(a) then
              && Rewrite(a + c, bottom).0 == ClampRegionSeq(Params(a), bottom) + Rewrite(a[j + 1..] + c, bottom).0
              && Rewrite(a + c, bottom).1 == Rewrite(a[j + 1..] + c, bottom).1
            else
              && Rewrite(a + c, bottom).0 == a[..j] + Rewrite(a[j..] + c, bottom).0
              && Rewrite(a + c, bottom).1 == Rewrite(a[j..] + c, bottom).1
  {
    hide Rewrite, ClampRegionSeq;
    var j := SeqLen(a);
    SeqLenAppend(a, c);
    RewriteSequence(a + c, bottom);
    assert (a + c)[..j] == a[..j] && (a + c)[j..] == a[j..] + c && (a + c)[j + 1..] == a[j + 1..] + c;
    if StartsRegion(a) {
      assert (a + c)[2..j] == a[2..j];
    }
  }

  /** A call on one chunk: the front and the tail, where a tail that is too long is let through. */
  lemma RewriteSplit(a: bytes, bottom: int)
    ensures Rewrite(a, bottom) ==
            if |Tail(a)| <= MAX_REGION_SEQ_LEN then (Front(a, bottom), Tail(a))
            else (Front(a, bottom) + Tail(a), [])
  {
    RewriteAppend(a, [], bottom);
    assert a + [] == a && Tail(a) + [] == Tail(a);
    RewriteTail(Tail(a), bottom);
  }

  lemma RewriteTail(t: bytes, bottom: int)
    requires t == [] || IsPartial(t)
    ensures Rewrite(t, bottom) == if |t| <= MAX_REGION_SEQ_LEN then ([], t) else (t, [])
  {}

  /** Two chunks in two calls. */
  function TwoCalls(a: bytes, c: bytes, bottom: int): (bytes, bytes) {
    var (out, pend) := Rewrite(a, bottom);
    var (out', pend') := Rewrite(pend + c, bottom);
    (out + out', pend')
  }

  /** The first chunk ends in a sequence too long to be held, and the second completes it to a region
      sequence that is not already the one it would be rewritten to. */
  predicate SplitsLongRegion(a: bytes, c: bytes, bottom: int) {
    var t, k := Tail(a), ParamLen(c);
    && |t| > MAX_REGION_SEQ_LEN && k < |c| && c[k] == FINAL
    && ClampRegionSeq(t[2..] + c[..k], bottom) != t + c[..k + 1]
  }

  lemma TwoCallsHeld(a: bytes, c: bytes, bottom: int)
    requires |Tail(a)| <= MAX_REGION_SEQ_LEN
    ensures TwoCalls(a, c, bottom) == Rewrite(a + c, bottom)
  {
    hide Rewrite, Front, Tail;
    RewriteSplit(a, bottom);
    RewriteAppend(a, c, bottom);
  }

  // A long tail and the parameters behind it are one sequence.
  lemma LongTailAppend(t: bytes, c: bytes)
    requires IsPartial(t) && |t| > 1
    ensures SeqLen(t + c) == |t| + ParamLen(c)
  {
    assert t[1] == BRACKET && (t + c)[1] == BRACKET;
    assert (t + c)[2..] == t[2..] + c;
    ParamLenAppend(t[2..], c);
  }

  lemma ParamsAreText(s: bytes, n: nat)
    requires n <= |s| && n <= ParamLen(s) + 1 && (n == ParamLen(s) + 1 ==> s[n - 1] != ESC)
    ensures ESC !in s[..n]
  {}

  lemma RewriteLongTail(t: bytes, c: bytes, bottom: int)
    requires IsPartial(t) && |t| > MAX_REGION_SEQ_LEN
    ensures var k := ParamLen(c);
            if k < |c| && c[k] == FINAL then
              && Rewrite(t + c, bottom).0 == ClampRegionSeq(t[2..] + c[..k], bottom) + Rewrite(c[k + 1..], bottom).0
              && Rewrite(t + c, bottom).1 == Rewrite(c[k + 1..], bottom).1
              && Rewrite(c, bottom).0 == c[..k + 1] + Rewrite(c[k + 1..], bottom).0
              && Rewrite(c, bottom).1 == Rewrite(c[k + 1..], bottom).1
            else Rewrite(t + c, bottom) == (t + Rewrite(c, bottom).0, Rewrite(c, bottom).1)
  {
    hide Rewrite, ClampRegionSeq, IsPartial;
    var k := ParamLen(c);
    if k < |c| && c[k] == FINAL {
      LongTailCompleted(t, c, bottom);
    } else if k < |c| {
      LongTailPassedOver(t, c, bottom);
    } else {
      LongTailContinued(t, c, bottom);
    }
  }

  lemma LongTailCompleted(t: bytes, c: bytes, bottom: int)
    requires IsPartial(t) && |t| > MAX_REGION_SEQ_LEN && ParamLen(c) < |c| && c[ParamLen(c)] == FINAL
    ensures var k := ParamLen(c);
            && Rewrite(t + c, bottom).0 == ClampRegionSeq(t[2..] + c[..k], bottom) + Rewrite(c[k + 1..], bottom).0
            && Rewrite(t + c, bottom).1 == Rewrite(c[k + 1..], bottom).1
            && Rewrite(c, bottom).0 == c[..k + 1] + Rewrite(c[k + 1..], bottom).0
            && Rewrite(c, bottom).1 == Rewrite(c[k + 1..], bottom).1
  {
    hide *;
    LongTailClamped(t, c, bottom);
    CompletionIsText(c, bottom);
  }

  lemma LongTailClamped(t: bytes, c: bytes, bottom: int)
    requires IsPartial(t) && |t| > MAX_REGION_SEQ_LEN && ParamLen(c) < |c| && c[ParamLen(c)] == FINAL
    ensures var k := ParamLen(c);
            && Rewrite(t + c, bottom).0 == ClampRegionSeq(t[2..] + c[..k], bottom) + Rewrite(c[k + 1..], bottom).0
            && Rewrite(t + c, bottom).1 == Rewrite(c[k + 1..], bottom).1
  {
    hide Rewrite, ClampRegionSeq, ParamLen;
    var s, k := t + c, ParamLen(c);
    LongTailAppend(t, c);
    RewriteSequence(s, bottom);
    assert s[|t| + k] == c[k];
    CompletedParams(t, c, k);
    CompletedRest(t, c, k);
  }

  lemma CompletedParams(t: bytes, c: bytes, k: nat)
    requires |t| >= 2 && k <= |c|
    ensures (t + c)[2..|t| + k] == t[2..] + c[..k]
  {}

  lemma CompletedRest(t: bytes, c: bytes, k: nat)
    requires k < |c|
    ensures (t + c)[|t| + k + 1..] == c[k + 1..]
  {}

  lemma CompletionIsText(c: bytes, bottom: int)
    requires ParamLen(c) < |c| && c[ParamLen(c)] == FINAL
    ensures var k := ParamLen(c);
            && Rewrite(c, bottom).0 == c[..k + 1] + Rewrite(c[k + 1..], bottom).0
            && Rewrite(c, bottom).1 == Rewrite(c[k + 1..], bottom).1
  {
    hide Rewrite, ParamLen;
    var k := ParamLen(c);
    ParamsAreText(c, k + 1);
    RewriteText(c[..k + 1], c[k + 1..], bottom);
    assert c == c[..k + 1] + c[k + 1..];
  }

  lemma LongTailPassedOver(t: bytes, c: bytes, bottom: int)
    requires IsPartial(t) && |t| > MAX_REGION_SEQ_LEN && ParamLen(c) < |c| && c[ParamLen(c)] != FINAL
    ensures Rewrite(t + c, bottom) == (t + Rewrite(c, bottom).0, Rewrite(c, bottom).1)
  {
    hide Rewrite, ClampRegionSeq;
    var s, k := t + c, ParamLen(c);
    LongTailAppend(t, c);
    RewriteSequence(s, bottom);
    assert s[..|t| + k] == t + c[..k] && s[|t| + k..] == c[k..];
    ParamsAreText(c, k);
    RewriteText(c[..k], c[k..], bottom);
    assert c == c[..k] + c[k..];
    Associative(t, c[..k], Rewrite(c[k..], bottom).0);
  }

  lemma LongTailContinued(t: bytes, c: bytes, bottom: int)
    requires IsPartial(t) && |t| > MAX_REGION_SEQ_LEN && ParamLen(c) == |c|
    ensures Rewrite(t + c, bottom) == (t + Rewrite(c, bottom).0, Rewrite(c, bottom).1)
  {
    hide Rewrite, ClampRegionSeq;
    LongTailAppend(t, c);
    RewriteSequence(t + c, bottom);
    ParamsAreText(c, |c|);
    RewriteText(c, [], bottom);
    assert c[..|c|] == c && c + [] == c;
    RewriteNothing(bottom);
  }

  lemma Cancel(front: bytes, x: bytes, y: bytes, rest: bytes)
    ensures front + (x + rest) == front + (y + rest) <==> x == y
  {
    if front + (x + rest) == front + (y + rest) {
      assert (front + (x + rest))[|front|..] == x + rest;
      assert (front + (y + rest))[|front|..] == y + rest;
      assert |x| == |y|;
      assert (x + rest)[..|x|] == x && (y + rest)[..|x|] == y;
    }
  }

  /** Cutting a stream in two gives the same bytes as one call on the whole stream exactly when the
      cut does not split a region sequence that was too long to hold back. */
  lemma TwoChunks(a: bytes, c: bytes, bottom: int)
    ensures TwoCalls(a, c, bottom) == Rewrite(a + c, bottom) <==> !SplitsLongRegion(a, c, bottom)
  {
    hide Rewrite, Front, Tail, ClampRegionSeq;
    var t, k := Tail(a), ParamLen(c);
    if |t| <= MAX_REGION_SEQ_LEN {
      TwoCallsHeld(a, c, bottom);
    } else {
      TwoCallsLong(a, c, bottom);
    }
  }

  lemma TwoCallsLong(a: bytes, c: bytes, bottom: int)
    requires |Tail(a)| > MAX_REGION_SEQ_LEN
    ensures TwoCalls(a, c, bottom) == Rewrite(a + c, bottom) <==> !SplitsLongRegion(a, c, bottom)
  {
    hide Rewrite, Front, Tail, ClampRegionSeq, IsPartial;
    var t, k, front := Tail(a), ParamLen(c), Front(a, bottom);
    RewriteSplit(a, bottom);
    RewriteAppend(a, c, bottom);
    RewriteLongTail(t, c, bottom);
    assert [] + c == c;
    var rest := Rewrite(c, bottom);
    assert TwoCalls(a, c, bottom) == (front + t + rest.0, rest.1);
    if k < |c| && c[k] == FINAL {
      var later := Rewrite(c[k + 1..], bottom).0;
      var clamped := ClampRegionSeq(t[2..] + c[..k], bottom);
      Cancel(front, clamped, t + c[..k + 1], later);
      Regroup(front, t, c[..k + 1], later);
    } else {
      Associative(front, t, rest.0);
    }
  }

  lemma Regroup(f: bytes, t: bytes, c: bytes, l: bytes)
    ensures f + t + (c + l) == f + ((t + c) + l)
  {}

  /** The held-back limit is real: a long region sequence cut behind its parameters is let through. */
  lemma LongRegionEscapes()
    ensures var a := [ESC, BRACKET] + seq(15, _ => 48 as byte); var c := [FINAL];
            TwoCalls(a, c, 24).0 == a + c && Rewrite(a + c, 24).0 == Canonical(1, 24)
  {
    var a := [ESC, BRACKET] + seq(15, _ => 48 as byte);
    var c := [FINAL];
    ZerosArePartial(a);
    RewriteTail(a, 24);
    RewriteNothing(24);
    RewriteText(c, [], 24);
    assert c + [] == c;
    assert [] + c == c;
    RewriteLongTail(a, c, 24);
    assert ParamLen(c) == 0 && a[2..] + c[..0] == a[2..] && c[1..] == [];
    ZerosClamp(a[2..]);
    assert Canonical(1, 24) + [] == Canonical(1, 24);
  }

  lemma {:induction false} ZerosAreParams(z: bytes)
    requires forall k :: 0 <= k < |z| ==> z[k] == 48
    ensures ParamLen(z) == |z| && AllDigits(z) && DigitsValue(z) == 0 && Cut(z, SEMI) == None
  {
    if z != [] {
      ZerosAreParams(z[1..]);
      ZerosAreParams(z[..|z| - 1]);
    }
    CutNone(z, SEMI);
  }

  lemma ZerosArePartial(a: bytes)
    requires |a| >= 2 && a[0] == ESC && a[1] == BRACKET && forall k :: 2 <= k < |a| ==> a[k] == 48
    ensures IsPartial(a)
  {
    ZerosAreParams(a[2..]);
  }

  lemma ZerosClamp(z: bytes)
    requires z != [] && forall k :: 0 <= k < |z| ==> z[k] == 48
    ensures ClampRegionSeq(z, 24) == Canonical(1, 24)
  {
    ZerosAreParams(z);
    assert Atoi(z) == Some(0);
  }

  // -------------------------------------------------------------- many chunks

  function Concat(chunks: seq<bytes>): bytes {
    if chunks == [] then [] else chunks[0] + Concat(chunks[1..])
  }

  lemma ConcatNothing()
    ensures Concat([]) == []
  {}

  lemma {:induction false} ConcatSnoc(chunks: seq<bytes>, last: bytes)
    ensures Concat(chunks + [last]) == Concat(chunks) + last
  {
    if chunks == [] {
      assert Concat([last]) == last + Concat([]);
    } else {
      assert (chunks + [last])[1..] == chunks[1..] + [last];
      ConcatSnoc(chunks[1..], last);
      Associative(chunks[0], Concat(chunks[1..]), last);
    }
  }

  /** What a writer that holds pend passes on for a list of chunks, and what it holds in the end. */
  function Feed(pend: bytes, chunks: seq<bytes>, bottom: int): (bytes, bytes)
    decreases |chunks|
  {
    if chunks == [] then ([], pend)
    else
      var (out, pend') := Rewrite(pend + chunks[0], bottom);
      var (later, last) := Feed(pend', chunks[1..], bottom);
      (out + later, last)
  }

  /** No chunk but the last ends in a sequence longer than the limit. */
  predicate NoFlush(pend: bytes, chunks: seq<bytes>)
    decreases |chunks|
  {
    |chunks| <= 1 ||
    (|Tail(pend + chunks[0])| <= MAX_REGION_SEQ_LEN && NoFlush(Tail(pend + chunks[0]), chunks[1..]))
  }

  /** However a stream is cut into chunks, as long as none but the last leaves a partial sequence
      longer than the limit, the outputs and the bytes held back are those of one call on it all. */
  lemma {:induction false} ChunksAreOneCall(pend: bytes, chunks: seq<bytes>, bottom: int)
    requires chunks != [] && NoFlush(pend, chunks)
    ensures Feed(pend, chunks, bottom) == Rewrite(pend + Concat(chunks), bottom)
    decreases |chunks|
  {
    var a := pend + chunks[0];
    if |chunks| == 1 {
      assert chunks[1..] == [] && Concat(chunks) == chunks[0] + [];
      assert pend + (chunks[0] + []) == a;
      assert Rewrite(a, bottom).0 + [] == Rewrite(a, bottom).0;
    } else {
      hide Rewrite, Tail;
      var rest := chunks[1..];
      RewriteSplit(a, bottom);
      ChunksAreOneCall(Tail(a), rest, bottom);
      TwoCallsHeld(a, Concat(rest), bottom);
      Associative(pend, chunks[0], Concat(rest));
    }
  }

  /** The writer a child process's output goes through. */
  class ChildWriter {
    // How many rows the child may use; it changes when the window or the overlay does.
    var childBottom: int
    var pend: bytes
    var written: bytes

    constructor (childBottom: int)
      ensures pend == [] && written == [] && this.childBottom == childBottom
    {
      this.childBottom := childBottom;
      pend := [];
      written := [];
    }

    method Resize(bottom: int)
      modifies this`childBottom
      ensures childBottom == bottom
    {
      childBottom := bottom;
    }

    method Write(p: bytes)
      modifies this`pend, this`written
      ensures written == old(written) + Rewrite(old(pend) + p, childBottom).0
      ensures pend == Rewrite(old(pend) + p, childBottom).1
    {
      hide Rewrite;
      var data := p;
      assert [] + p == p;
      if |pend| > 0 {
        data := pend + p;
        pend := [];
      }
      var out, held := ClampScrollRegions(data, childBottom);
      pend := held;
      if |out| == 0 {
        assert written + out == written;
        return;
      }
      written := written + out;
    }

    /** Chunks with the number of rows in force when each arrives: whatever was held back under another
        number, what each write passes on is confined to its own rows. */
    method WriteEach(chunks: seq<(int, bytes)>) returns (outs: seq<bytes>)
      modifies this
      ensures |outs| == |chunks| && written == old(written) + Concat(outs)
      ensures forall k, i: nat | 0 <= k < |outs| && chunks[k].0 >= 2 && RegionAt(outs[k], i) ::
                Confined(Params(outs[k][i..]), chunks[k].0)
    {
      hide Rewrite, StartsRegion, Confined, Params, Concat;
      outs := [];
      ConcatNothing();
      while |outs| < |chunks|
        invariant |outs| <= |chunks| && written == old(written) + Concat(outs)
        invariant forall k, i: nat | 0 <= k < |outs| && chunks[k].0 >= 2 && RegionAt(outs[k], i) ::
                    Confined(Params(outs[k][i..]), chunks[k].0)
      {
        var (bottom, p) := chunks[|outs|];
        var before := written;
        ghost var data := pend + p;
        Resize(bottom);
        Write(p);
        var out := written[|before|..];
        forall i: nat | bottom >= 2 && RegionAt(out, i) ensures Confined(Params(out[i..]), bottom) {
          OutputIsConfined(data, bottom, i);
        }
        ConcatSnoc(outs, out);
        Associative(old(written), Concat(outs), out);
        outs := outs + [out];
      }
    }

    /** Writing a stream chunk by chunk writes what Feed says. */
    method WriteAll(chunks: seq<bytes>)
      modifies this`pend, this`written
      ensures written == old(written) + Feed(old(pend), chunks, childBottom).0
      ensures pend == Feed(old(pend), chunks, childBottom).1
    {
      hide Rewrite;
      if chunks != [] {
        Write(chunks[0]);
        WriteAll(chunks[1..]);
      }
    }
  }

  // -------------------------------------------------------------- regions in a text

  /** A complete region sequence stands at index i. */
  predicate RegionAt(s: bytes, i: nat) { i < |s| && StartsRegion(s[i..]) }

  /** The parameters of every region sequence satisfy p, found sequence by sequence. */
  ghost predicate AllRegions(s: bytes, p: bytes -> bool)
    decreases |s|
  {
    if s == [] then true
    else if s[0] != ESC then AllRegions(s[1..], p)
    else if StartsRegion(s) then p(Params(s)) && AllRegions(s[SeqLen(s) + 1..], p)
    else AllRegions(s[SeqLen(s)..], p)
  }

  // No ESC stands inside a sequence, behind its first byte.
  lemma SequenceHasOneEsc(s: bytes, i: nat)
    requires s != [] && 0 < i < SeqLen(s)
    ensures s[i] != ESC
  {
    if i >= 2 {
      assert s[i] == s[2..][i - 2];
    }
  }

  /** Scanning sequence by sequence misses no region sequence, wherever it stands. */
  lemma {:induction false} AllRegionsEverywhere(s: bytes, p: bytes -> bool, i: nat)
    requires AllRegions(s, p) && RegionAt(s, i)
    ensures p(Params(s[i..]))
    decreases |s|
  {
    hide SeqLen;
    assert s[i..][0] == s[i];
    if i == 0 {
      assert s[0..] == s;
    } else if s[0] != ESC {
      assert s[i..] == s[1..][i - 1..];
      AllRegionsEverywhere(s[1..], p, i - 1);
    } else {
      if i < SeqLen(s) {
        SequenceHasOneEsc(s, i);
      }
      var n := if StartsRegion(s) then SeqLen(s) + 1 else SeqLen(s);
      assert s[i..] == s[n..][i - n..];
      AllRegionsEverywhere(s[n..], p, i - n);
    }
  }

  // ---------------------------------------------------------------- confinement

  /** The parameters name two rows, the first above the second, and none below bottom. */
  ghost predicate Confined(params: bytes, bottom: int) {
    exists top: nat, bot: nat :: 1 <= top < bot <= bottom && params == Decimal(top) + [SEMI] + Decimal(bot)
  }

  lemma {:induction false} AllParams(s: bytes)
    requires forall k :: 0 <= k < |s| ==> IsParam(s[k])
    ensures ParamLen(s) == |s|
  {
    if s != [] {
      AllParams(s[1..]);
    }
  }

  /** A canonical sequence, whatever follows it, is one region sequence with its own parameters. */
  lemma CanonicalStarts(top: nat, bot: nat, rest: bytes)
    ensures var s := Canonical(top, bot) + rest;
            && StartsRegion(s) && SeqLen(s) == |Canonical(top, bot)| - 1
            && Params(s) == Decimal(top) + [SEMI] + Decimal(bot)
            && s[SeqLen(s) + 1..] == rest
  {
    hide Decimal, ParamLen;
    var params := Decimal(top) + [SEMI] + Decimal(bot);
    var s := Canonical(top, bot) + rest;
    AllParams(params);
    CanonicalText(params, rest);
    ParamLenAppend(params, [FINAL] + rest);
    FinalEndsParams(rest);
  }

  lemma CanonicalText(params: bytes, rest: bytes)
    ensures var s := [ESC, BRACKET] + params + [FINAL] + rest;
            && s[2..] == params + ([FINAL] + rest) && s[|params| + 2] == FINAL && s[2..|params| + 2] == params
            && s[|params| + 3..] == rest
  {}

  lemma FinalEndsParams(rest: bytes)
    ensures ParamLen([FINAL] + rest) == 0
  {}

  /** What comes out of a call starts as its input does, unless everything is held back. */
  lemma FirstByteStays(data: bytes, bottom: int)
    requires bottom >= 2 && data != []
    ensures var r := Rewrite(data, bottom);
            && r.0 + r.1 != [] && (r.0 + r.1)[0] == data[0]
            && (r.0 != [] ==> r.0[0] == data[0])
  {
    hide Decimal, Rows;
  }

  /** Every region sequence in the output of a call keeps the rows between 1 and bottom, even where
      its number overflows an int, is missing, or is out of order in the input. */
  lemma OutputIsConfined(data: bytes, bottom: int, i: nat)
    requires bottom >= 2 && RegionAt(Rewrite(data, bottom).0, i)
    ensures Confined(Params(Rewrite(data, bottom).0[i..]), bottom)
  {
    hide Rewrite, Confined, StartsRegion, Params, AllRegions;
    OutputRegionsConfined(data, bottom);
    AllRegionsEverywhere(Rewrite(data, bottom).0, params => Confined(params, bottom), i);
  }

  lemma {:induction false} OutputRegionsConfined(data: bytes, bottom: int)
    requires bottom >= 2
    ensures AllRegions(Rewrite(data, bottom).0, params => Confined(params, bottom))
    decreases |data|
  {
    hide Rewrite, Confined, SeqLen, AllRegions, ClampRegionSeq;
    var p := params => Confined(params, bottom);
    if data == [] {
      NoRegions(p);
      RewriteNothing(bottom);
    } else if data[0] != ESC {
      OutputRegionsConfined(data[1..], bottom);
      RewriteByte(data, bottom);
      RegionsBehindByte(data[0], Rewrite(data[1..], bottom).0, p);
    } else if StartsRegion(data) {
      OutputRegionsConfined(data[SeqLen(data) + 1..], bottom);
      RewriteSequence(data, bottom);
      RegionsBehindClamp(Params(data), bottom, Rewrite(data[SeqLen(data) + 1..], bottom).0);
    } else if IsPartial(data) {
      RewriteSequence(data, bottom);
      NoRegions(p);
      PartialHasNoRegions(data, p);
    } else {
      OutputRegionsConfined(data[SeqLen(data)..], bottom);
      RewriteSequence(data, bottom);
      FirstByteStays(data[SeqLen(data)..], bottom);
      RegionsBehindSequence(data, Rewrite(data[SeqLen(data)..], bottom).0, p);
    }
  }

  lemma NoRegions(p: bytes -> bool)
    ensures AllRegions([], p)
  {}

  lemma RewriteByte(data: bytes, bottom: int)
    requires data != [] && data[0] != ESC
    ensures Rewrite(data, bottom) == ([data[0]] + Rewrite(data[1..], bottom).0, Rewrite(data[1..], bottom).1)
  {}

  lemma RegionsBehindByte(b: byte, rest: bytes, p: bytes -> bool)
    requires b != ESC && AllRegions(rest, p)
    ensures AllRegions([b] + rest, p)
  {
    assert ([b] + rest)[1..] == rest;
  }

  lemma PartialHasNoRegions(s: bytes, p: bytes -> bool)
    requires IsPartial(s)
    ensures AllRegions(s, p)
  {
    assert s[SeqLen(s)..] == [];
  }

  lemma RegionsBehindClamp(params: bytes, bottom: int, rest: bytes)
    requires bottom >= 2 && AllRegions(rest, params => Confined(params, bottom))
    ensures AllRegions(ClampRegionSeq(params, bottom) + rest, params => Confined(params, bottom))
  {
    hide SplitParams, Rows, Canonical, SeqLen, Decimal;
    var (top, bot) := Rows(params, bottom);
    CanonicalStarts(top, bot, rest);
    assert Confined(Decimal(top) + [SEMI] + Decimal(bot), bottom);
    CanonicalNotEmpty(top, bot);
  }

  lemma CanonicalNotEmpty(top: nat, bot: nat)
    ensures |Canonical(top, bot)| > 2 && Canonical(top, bot)[0] == ESC
  {}

  lemma RegionsBehindSequence(data: bytes, rest: bytes, p: bytes -> bool)
    requires data != [] && data[0] == ESC && !StartsRegion(data) && SeqLen(data) < |data|
    requires AllRegions(rest, p) && (rest != [] ==> rest[0] == data[SeqLen(data)])
    ensures AllRegions(data[..SeqLen(data)] + rest, p)
  {
    var j := SeqLen(data);
    var s := data[..j] + rest;
    if rest == [] {
      SequenceAlone(data);
      assert s == data[..j] && s[j..] == [];
    } else {
      assert s[..j + 1] == data[..j + 1];
      SeqLenAgree(data, s);
      assert s[j..] == rest && s[0] == data[0] && s[j] == data[j];
      assert |s| > 1 && (j > 1 ==> s[1] == data[1]);
    }
  }

  // Cut right behind its last byte, a sequence that completes nothing is as long as its text.
  lemma SequenceAlone(data: bytes)
    requires data != [] && SeqLen(data) < |data|
    ensures SeqLen(data[..SeqLen(data)]) == SeqLen(data)
  {
    var j := SeqLen(data);
    if j >= 2 {
      assert data[..j][2..] == data[2..][..j - 2];
      AllParams(data[2..][..j - 2]);
    }
  }

  /** With fewer than two rows to keep, region sequences are dropped, and the bytes around a dropped
      one can join to a new one. */
  lemma DroppedRegionJoins(bottom: int)
    requires bottom < 2
    ensures var data := [ESC, BRACKET, ESC, BRACKET, FINAL, FINAL];
            Rewrite(data, bottom) == ([ESC, BRACKET, FINAL], [])
  {
    hide Rewrite;
    var data := [ESC, BRACKET, ESC, BRACKET, FINAL, FINAL];
    var inner := [ESC, BRACKET, FINAL, FINAL];
    assert data[2..] == inner && data[..2] == [ESC, BRACKET];
    assert inner[2..] == [FINAL, FINAL] && inner[3..] == [FINAL];
    assert ParamLen([FINAL, FINAL]) == 0 && ParamLen(inner) == 0;
    RewriteSequence(data, bottom);
    RewriteSequence(inner, bottom);
    RewriteText([FINAL], [], bottom);
    RewriteNothing(bottom);
    assert [FINAL] + [] == [FINAL] && ESC !in [FINAL];
    assert inner[2..2] == [] && ClampRegionSeq([], bottom) == [];
    assert [ESC, BRACKET] + ([] + [FINAL]) == [ESC, BRACKET, FINAL];
  }

  /** So the output of every call is confined exactly when there are at least two rows to keep. */
  lemma ConfinedExactly(bottom: int)
    ensures (forall data, i: nat | RegionAt(Rewrite(data, bottom).0, i) ::
               Confined(Params(Rewrite(data, bottom).0[i..]), bottom))
            <==> bottom >= 2
  {
    hide Rewrite, Confined, StartsRegion, Params;
    if bottom >= 2 {
      forall data, i: nat | RegionAt(Rewrite(data, bottom).0, i)
        ensures Confined(Params(Rewrite(data, bottom).0[i..]), bottom)
      {
        OutputIsConfined(data, bottom, i);
      }
    } else {
      var data := [ESC, BRACKET, ESC, BRACKET, FINAL, FINAL];
      DroppedRegionJoins(bottom);
      EmptyParamsNotConfined(bottom);
      assert RegionAt(Rewrite(data, bottom).0, 0);
    }
  }

  lemma EmptyParamsNotConfined(bottom: int)
    ensures var s := [ESC, BRACKET, FINAL];
            RegionAt(s, 0) && s[0..] == s && !Confined(Params(s[0..]), bottom)
  {
    hide Decimal;
    var s := [ESC, BRACKET, FINAL];
    assert s[0..] == s && s[2..] == [FINAL];
    assert ParamLen([FINAL]) == 0;
    assert Params(s) == [];
  }

  // ---------------------------------------------------------------- idempotence

  lemma ClampCanonical(top: nat, bot: nat, bottom: int)
    requires 1 <= top < bot <= bottom <= MAX_INT
    ensures ClampRegionSeq(Decimal(top) + [SEMI] + Decimal(bot), bottom) == Canonical(top, bot)
  {
    hide Decimal, Canonical;
    AtoiDecimal(top);
    AtoiDecimal(bot);
    DecimalHasNoSeparator(top);
    DecimalHasNoSeparator(bot);
    CutUnique(Decimal(top), SEMI, Decimal(bot));
    CutNone(Decimal(bot), SEMI);
  }

  lemma DecimalHasNoSeparator(n: nat)
    ensures SEMI !in Decimal(n)
  {}

  /** Rewriting the output and the held-back bytes of a call again gives them back unchanged. */
  lemma {:induction false} RewriteTwice(data: bytes, bottom: int)
    requires 2 <= bottom <= MAX_INT
    ensures var r := Rewrite(data, bottom);
            Rewrite(r.0 + r.1, bottom) == r
    decreases |data|
  {
    hide Rewrite, SeqLen, ClampRegionSeq;
    if data == [] {
      RewriteNothing(bottom);
    } else if data[0] != ESC {
      RewriteTwice(data[1..], bottom);
      RewriteByte(data, bottom);
      TwiceBehindByte(data[0], Rewrite(data[1..], bottom), bottom);
    } else if StartsRegion(data) {
      var rest := data[SeqLen(data) + 1..];
      RewriteTwice(rest, bottom);
      RewriteSequence(data, bottom);
      TwiceBehindClamp(Params(data), Rewrite(rest, bottom), bottom);
    } else if IsPartial(data) {
      RewriteSequence(data, bottom);
      assert [] + data == data && data + [] == data;
    } else {
      var rest := data[SeqLen(data)..];
      RewriteTwice(rest, bottom);
      RewriteSequence(data, bottom);
      FirstByteStays(rest, bottom);
      TwiceBehindSequence(data, Rewrite(rest, bottom), bottom);
    }
  }

  /** So rewriting twice is rewriting once exactly when there are at least two rows to keep: with fewer,
      the sequence that a dropped one leaves behind is only dropped by the second call. */
  lemma IdempotentExactly(bottom: int64)
    ensures (forall data :: var r := Rewrite(data, bottom); Rewrite(r.0 + r.1, bottom) == r) <==> bottom >= 2
  {
    hide Rewrite;
    if bottom >= 2 {
      forall data ensures var r := Rewrite(data, bottom); Rewrite(r.0 + r.1, bottom) == r {
        RewriteTwice(data, bottom);
      }
    } else {
      var data := [ESC, BRACKET, ESC, BRACKET, FINAL, FINAL];
      DroppedRegionJoins(bottom);
      LoneRegionIsDropped(bottom);
      var r := Rewrite(data, bottom);
      assert r.0 + r.1 == [ESC, BRACKET, FINAL];
    }
  }

  lemma LoneRegionIsDropped(bottom: int)
    requires bottom < 2
    ensures Rewrite([ESC, BRACKET, FINAL], bottom) == ([], [])
  {
    hide Rewrite;
    var s := [ESC, BRACKET, FINAL];
    assert s[2..] == [FINAL] && s[3..] == [] && s[2..2] == [];
    assert ParamLen([FINAL]) == 0;
    RewriteSequence(s, bottom);
    RewriteNothing(bottom);
  }

  lemma TwiceBehindByte(b: byte, r: (bytes, bytes), bottom: int)
    requires b != ESC && Rewrite(r.0 + r.1, bottom) == r
    ensures Rewrite([b] + r.0 + r.1, bottom) == ([b] + r.0, r.1)
  {
    hide Rewrite;
    var s := [b] + r.0 + r.1;
    assert s[1..] == r.0 + r.1;
    RewriteByte(s, bottom);
  }

  lemma TwiceBehindClamp(params: bytes, r: (bytes, bytes), bottom: int)
    requires 2 <= bottom <= MAX_INT && Rewrite(r.0 + r.1, bottom) == r
    ensures var c := ClampRegionSeq(params, bottom);
            Rewrite(c + r.0 + r.1, bottom) == (c + r.0, r.1)
  {
    hide Rewrite, Rows, Canonical, SeqLen, Decimal;
    var (top, bot) := Rows(params, bottom);
    var c := Canonical(top, bot);
    assert ClampRegionSeq(params, bottom) == c;
    CanonicalStarts(top, bot, r.0 + r.1);
    Associative(c, r.0, r.1);
    ClampCanonical(top, bot, bottom);
    RewriteSequence(c + (r.0 + r.1), bottom);
  }

  lemma TwiceBehindSequence(data: bytes, r: (bytes, bytes), bottom: int)
    requires data != [] && data[0] == ESC && !StartsRegion(data) && SeqLen(data) < |data|
    requires Rewrite(r.0 + r.1, bottom) == r
    requires r.0 + r.1 != [] && (r.0 + r.1)[0] == data[SeqLen(data)]
    ensures var first := data[..SeqLen(data)];
            Rewrite(first + r.0 + r.1, bottom) == (first + r.0, r.1)
  {
    hide Rewrite;
    var j := SeqLen(data);
    var first, rest := data[..j], r.0 + r.1;
    var s := first + rest;
    Associative(first, r.0, r.1);
    assert s[..j + 1] == data[..j + 1];
    SeqLenAgree(data, s);
    assert s[..j] == first && s[j..] == rest && s[0] == data[0] && s[j] == data[j];
    assert |s| > 1 && (j > 1 ==> s[1] == data[1]);
    RewriteSequence(s, bottom);
  }

  /** A stream with no complete region sequence in it passes through unchanged, up to where it is
      held back. */
  lemma {:induction false} NoRegionPassesThrough(data: bytes, bottom: int)
    requires forall i: nat :: !RegionAt(data, i)
    ensures Rewrite(data, bottom).0 + Rewrite(data, bottom).1 == data
    decreases |data|
  {
    hide Rewrite, SeqLen, ClampRegionSeq;
    if data == [] {
      RewriteNothing(bottom);
    } else if data[0] != ESC {
      NoRegionInRest(data, 1);
      NoRegionPassesThrough(data[1..], bottom);
      RewriteByte(data, bottom);
      assert data == [data[0]] + data[1..];
    } else {
      assert !RegionAt(data, 0) && data[0..] == data;
      RewriteSequence(data, bottom);
      if SeqLen(data) < |data| {
        NoRegionInRest(data, SeqLen(data));
        NoRegionPassesThrough(data[SeqLen(data)..], bottom);
        assert data == data[..SeqLen(data)] + data[SeqLen(data)..];
      }
    }
  }

  lemma NoRegionInRest(s: bytes, n: nat)
    requires n <= |s| && forall i: nat :: !RegionAt(s, i)
    ensures forall i: nat :: !RegionAt(s[n..], i)
  {
    hide StartsRegion;
    forall i: nat ensures !RegionAt(s[n..], i) {
      if i < |s[n..]| {
        assert s[n..][i..] == s[n + i..];
        assert !RegionAt(s, n + i);
      }
    }
  }
}
