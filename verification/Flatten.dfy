/** Answers are stored on one line: every line break, a CRLF counting once, becomes a replacement text. */
module Flatten {
  import opened Bytes

  predicate OneLine(s: bytes) { NL !in s && CR !in s }

  // The bytes a line break at the head of the input takes up.
  function BreakWidth(s: bytes): (n: nat)
    requires s != []
    ensures n <= |s|
  {
    if s[0] == CR then (if |s| > 1 && s[1] == NL then 2 else 1)
    else if s[0] == NL then 1
    else 0
  }

  function Flat(s: bytes, replacement: bytes): bytes {
    if s == [] then []
    else if BreakWidth(s) > 0 then replacement + Flat(s[BreakWidth(s)..], replacement)
    else [s[0]] + Flat(s[1..], replacement)
  }

  /** The output has no line break, so the source's closing assertion cannot fire, exactly when
      the input has none to replace or the replacement brings none in. */
  lemma {:induction false} FlatIsOneLine(s: bytes, replacement: bytes)
    ensures OneLine(Flat(s, replacement)) <==> OneLine(s) || OneLine(replacement)
  {
    if s != [] {
      var n := BreakWidth(s);
      if n > 0 {
        FlatIsOneLine(s[n..], replacement);
      } else {
        FlatIsOneLine(s[1..], replacement);
        assert s == [s[0]] + s[1..];
      }
    }
  }

  lemma {:induction false} FlatKeepsOneLine(s: bytes, replacement: bytes)
    requires OneLine(s)
    ensures Flat(s, replacement) == s
  {
    if s != [] {
      FlatKeepsOneLine(s[1..], replacement);
      assert s == [s[0]] + s[1..];
    }
  }

  /** Flattening a flattened text changes nothing. */
  lemma FlatIdempotent(s: bytes, replacement: bytes)
    requires OneLine(replacement)
    ensures Flat(Flat(s, replacement), replacement) == Flat(s, replacement)
  {
    FlatIsOneLine(s, replacement);
    FlatKeepsOneLine(Flat(s, replacement), replacement);
  }

  lemma {:induction false} FlatPrefix(before: bytes, rest: bytes, replacement: bytes)
    requires OneLine(before)
    ensures Flat(before + rest, replacement) == before + Flat(rest, replacement)
  {
    if before == [] {
      assert before + rest == rest;
    } else {
      var s := before + rest;
      assert s[0] == before[0] && BreakWidth(s) == 0;
      assert s[1..] == before[1..] + rest;
      FlatPrefix(before[1..], rest, replacement);
      assert before == [before[0]] + before[1..];
    }
  }

  lemma FlatBreak(brk: bytes, after: bytes, replacement: bytes)
    requires brk == [CR, NL] || brk == [NL] || (brk == [CR] && (after == [] || after[0] != NL))
    ensures Flat(brk + after, replacement) == replacement + Flat(after, replacement)
  {
    var s := brk + after;
    assert |s| > 1 && |brk| == 1 ==> s[1] == after[0];
    assert BreakWidth(s) == |brk|;
    assert s[|brk|..] == after;
  }

  /** Each line break, a CRLF being one, becomes one replacement, and all other bytes stay. */
  lemma FlatSplitsAtBreak(before: bytes, brk: bytes, after: bytes, replacement: bytes)
    requires OneLine(before)
    requires brk == [CR, NL] || brk == [NL] || (brk == [CR] && (after == [] || after[0] != NL))
    ensures Flat(before + (brk + after), replacement) == before + (replacement + Flat(after, replacement))
  {
    hide Flat;
    FlatPrefix(before, brk + after, replacement);
    FlatBreak(brk, after, replacement);
  }

  method ReplaceNewlines(input: bytes, replacement: bytes) returns (output: bytes)
    ensures output == Flat(input, replacement)
  {
    hide Flat;
    output := [];
    var i := 0;
    assert input[0..] == input;
    while i < |input|
      invariant 0 <= i <= |input|
      invariant Flat(input, replacement) == output + Flat(input[i..], replacement)
    {
      FlatNext(input, i, replacement);
      var next := replacement;
      if input[i] == CR {
        if i + 1 < |input| && input[i + 1] == NL {
          i := i + 1;
        }
      } else if input[i] != NL {
        next := [input[i]];
      }
      i := i + 1;
      Associative(output, next, Flat(input[i..], replacement));
      output := output + next;
    }
    assert input[i..] == [];
    FlatNothing(replacement);
  }

  lemma FlatNothing(replacement: bytes)
    ensures Flat([], replacement) == []
  {}

  lemma FlatNext(input: bytes, i: nat, replacement: bytes)
    requires i < |input|
    ensures Flat(input[i..], replacement) ==
            if input[i] == CR && i + 1 < |input| && input[i + 1] == NL then
              replacement + Flat(input[i + 2..], replacement)
            else if input[i] == CR || input[i] == NL then replacement + Flat(input[i + 1..], replacement)
            else [input[i]] + Flat(input[i + 1..], replacement)
  {
    var rest := input[i..];
    assert rest[1..] == input[i + 1..];
    assert |rest| > 1 ==> rest[1] == input[i + 1];
    assert |rest| > 1 ==> rest[2..] == input[i + 2..];
  }
}
