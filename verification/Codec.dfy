/** What the store file keeps: round trips, merges of files line by line, and truncation. */
module Codec {
  import opened Bytes
  import opened Hash
  import opened Metadata
  import opened Records
  import opened Keys
  import opened ObservationStore

  // -------------------------------------------------------- one line at a time

  lemma StartsWithHex(s: bytes)
    requires s != [] && HexValue(s[0]).Some?
    ensures !Blank(s) && TrimNewlines(s) == s
  {}

  /** Line feeds between records are skipped. */
  lemma UnmarshalNewline(workspace: bytes, s: Store, data: bytes)
    ensures Unmarshal(workspace, s, [NL] + data) == Unmarshal(workspace, s, data)
  {
    hide ParseRecord;
    assert ([NL] + data)[1..] == data;
    assert SpaceWidth([NL] + data) == 1;
    assert Blank([NL] + data) == Blank(data);
    assert TrimNewlines([NL] + data) == TrimNewlines(data);
  }

  function MergeLine(s: Store, l: Line, workspace: bytes): Store {
    Merge(s, l.h, Restored(l.h, l.o, l.active, workspace))
  }

  ghost predicate PrintableLine(l: Line) { WellFormed(l.o) && IsStamp(l.active) }

  lemma TextStartsWithHex(l: Line)
    requires PrintableLine(l)
    ensures |LineText(l)| > 8 && HexValue(LineText(l)[0]).Some?
  {
    hide String, Body;
    assert LineText(l)[0] == Stamp(l.o, l.active)[0];
  }

  lemma UnmarshalText(workspace: bytes, s: Store, l: Line, tail: bytes)
    requires PrintableLine(l) && (tail == [] || tail[0] == NL)
    ensures Unmarshal(workspace, s, LineText(l) + tail) == Unmarshal(workspace, MergeLine(s, l, workspace), tail)
  {
    hide ParseRecord, Text, Restored, Blank, TrimNewlines;
    TextStartsWithHex(l);
    StartsWithHex(LineText(l) + tail);
    ParsePrinted(l.h, l.o, l.active, workspace, tail);
  }

  /** Reading a line merges its observation and goes on with the rest of the file. */
  lemma UnmarshalLine(workspace: bytes, s: Store, l: Line, tail: bytes)
    requires PrintableLine(l)
    ensures Unmarshal(workspace, s, LineText(l) + [NL] + tail) ==
            Unmarshal(workspace, MergeLine(s, l, workspace), tail)
  {
    hide Unmarshal, LineText, MergeLine;
    UnmarshalText(workspace, s, l, [NL] + tail);
    UnmarshalNewline(workspace, MergeLine(s, l, workspace), tail);
    assert LineText(l) + [NL] + tail == LineText(l) + ([NL] + tail);
  }

  function Replay(workspace: bytes, s: Store, lines: seq<Line>): Store
    decreases |lines|
  {
    if lines == [] then s else Replay(workspace, MergeLine(s, lines[0], workspace), lines[1..])
  }

  lemma PrintFirst(lines: seq<Line>, tail: bytes)
    requires lines != []
    ensures Print(lines) + tail == LineText(lines[0]) + [NL] + (Print(lines[1..]) + tail)
  {
    hide LineText;
  }

  /** Reading a file of record lines followed by anything is merging the lines, in order, and then
      reading the rest: reading a concatenation is reading its parts one after the other. */
  lemma {:induction false} UnmarshalLines(workspace: bytes, s: Store, lines: seq<Line>, tail: bytes)
    requires PrintableLines(lines)
    ensures Unmarshal(workspace, s, Print(lines) + tail) ==
            Unmarshal(workspace, Replay(workspace, s, lines), tail)
    decreases |lines|
  {
    hide Unmarshal, LineText, MergeLine;
    if lines == [] {
      assert Print(lines) + tail == tail;
    } else {
      hide Print;
      UnmarshalLine(workspace, s, lines[0], Print(lines[1..]) + tail);
      UnmarshalLines(workspace, MergeLine(s, lines[0], workspace), lines[1..], tail);
      PrintFirst(lines, tail);
    }
  }

  lemma UnmarshalEnd(workspace: bytes, s: Store)
    ensures Unmarshal(workspace, s, []) == (s, None)
  {}

  lemma UnmarshalFile(workspace: bytes, s: Store, lines: seq<Line>)
    requires PrintableLines(lines)
    ensures Unmarshal(workspace, s, Print(lines)) == (Replay(workspace, s, lines), None)
  {
    UnmarshalLines(workspace, s, lines, []);
    UnmarshalEnd(workspace, Replay(workspace, s, lines));
    assert Print(lines) + [] == Print(lines);
  }

  /** White space at the end of a file, of any kind, changes nothing. */
  lemma SpaceAtEnd(workspace: bytes, s: Store, lines: seq<Line>, space: bytes)
    requires PrintableLines(lines)
    requires forall k :: 0 <= k < |space| ==> space[k] as char in {' ', '\t', '\n', '\r', 11 as char, 12 as char}
    ensures Unmarshal(workspace, s, Print(lines) + space) == (Replay(workspace, s, lines), None)
  {
    hide Print, Replay;
    UnmarshalLines(workspace, s, lines, space);
    SpaceIsBlank(space);
  }

  lemma {:induction false} SpaceIsBlank(space: bytes)
    requires forall k :: 0 <= k < |space| ==> space[k] as char in {' ', '\t', '\n', '\r', 11 as char, 12 as char}
    ensures Blank(space)
  {
    if space != [] {
      assert space[0] as char in {' ', '\t', '\n', '\r', 11 as char, 12 as char};
      assert SpaceWidth(space) == 1;
      assert forall k :: 0 <= k < |space[1..]| ==> space[1..][k] == space[k + 1];
      SpaceIsBlank(space[1..]);
    }
  }

  // ------------------------------------------------------------- first one wins

  /** Merging lines in any order, with any repetition, gives the union of the keys; a key already
      known keeps its observation, and a new key takes the one of its first line. */
  lemma {:induction false} ReplayIsUnion(workspace: bytes, s: Store, lines: seq<Line>)
    ensures var r := Replay(workspace, s, lines);
            && r.cache.Keys == s.cache.Keys + (set k | 0 <= k < |lines| :: lines[k].h)
            && (forall h | h in s.cache :: r.cache[h] == s.cache[h])
            && forall k | 0 <= k < |lines| && lines[k].h !in s.cache && IsFirst(lines, k) ::
                 r.cache[lines[k].h] == Restored(lines[k].h, lines[k].o, lines[k].active, workspace)
    decreases |lines|
  {
    hide Restored;
    if lines != [] {
      var l := lines[0];
      var s' := MergeLine(s, l, workspace);
      ReplayIsUnion(workspace, s', lines[1..]);
      var r := Replay(workspace, s, lines);
      assert r.cache.Keys == s.cache.Keys + (set k | 0 <= k < |lines| :: lines[k].h) by {
        LineKeys(lines);
        assert s'.cache.Keys == s.cache.Keys + {l.h};
      }
      forall k | 0 <= k < |lines| && lines[k].h !in s.cache && IsFirst(lines, k)
        ensures r.cache[lines[k].h] == Restored(lines[k].h, lines[k].o, lines[k].active, workspace)
      {
        if k > 0 {
          assert lines[0].h != lines[k].h;
          assert lines[1..][k - 1] == lines[k];
          assert forall j :: 0 <= j < k - 1 ==> lines[1..][j] == lines[j + 1];
          assert IsFirst(lines[1..], k - 1);
        }
      }
    }
  }

  ghost predicate IsFirst(lines: seq<Line>, k: nat)
    requires k < |lines|
  {
    forall j :: 0 <= j < k ==> lines[j].h != lines[k].h
  }

  lemma LineKeys(lines: seq<Line>)
    requires lines != []
    ensures (set k | 0 <= k < |lines| :: lines[k].h) ==
            {lines[0].h} + (set k | 0 <= k < |lines[1..]| :: lines[1..][k].h)
  {
    forall k | 0 < k < |lines| ensures lines[k].h in set k | 0 <= k < |lines[1..]| :: lines[1..][k].h {
      assert lines[1..][k - 1] == lines[k];
    }
  }

  // ---------------------------------------------------------------- truncation

  lemma UnmarshalTruncatedText(workspace: bytes, s: Store, l: Line, k: nat)
    requires PrintableLine(l) && 0 < k < |LineText(l)|
    ensures Unmarshal(workspace, s, LineText(l)[..k]) == (s, Some(Malformed))
  {
    hide ParseRecord, Text, Blank, TrimNewlines;
    TextStartsWithHex(l);
    StartsWithHex(LineText(l)[..k]);
    TruncatedRecord(l.h, l.o, l.active, workspace, k);
  }

  /** A file cut inside a record, before the end of its answer, is rejected at every cut point,
      with all earlier records read. A file cut between records, or just before the line feed of
      one, is read in full. */
  lemma CutFile(workspace: bytes, s: Store, lines: seq<Line>, last: Line, k: nat)
    requires PrintableLines(lines) && PrintableLine(last) && k <= |LineText(last)|
    ensures Unmarshal(workspace, s, Print(lines) + LineText(last)[..k]) ==
            var earlier := Replay(workspace, s, lines);
            if k == 0 then (earlier, None)
            else if k < |LineText(last)| then (earlier, Some(Malformed))
            else (MergeLine(earlier, last, workspace), None)
  {
    hide LineText, Unmarshal, MergeLine;
    var earlier := Replay(workspace, s, lines);
    UnmarshalLines(workspace, s, lines, LineText(last)[..k]);
    if k == 0 {
      UnmarshalEnd(workspace, earlier);
    } else if k < |LineText(last)| {
      UnmarshalTruncatedText(workspace, earlier, last, k);
    } else {
      assert LineText(last)[..k] == LineText(last) + [];
      UnmarshalText(workspace, earlier, last, []);
      UnmarshalEnd(workspace, MergeLine(earlier, last, workspace));
    }
  }

  /** Every cut of a file falls between two of its records or inside one of them. */
  lemma {:induction false} CutPoint(lines: seq<Line>, n: nat) returns (i: nat, k: nat)
    requires n < |Print(lines)|
    ensures i < |lines| && k <= |LineText(lines[i])|
    ensures Print(lines)[..n] == Print(lines[..i]) + LineText(lines[i])[..k]
  {
    hide LineText;
    var first := LineText(lines[0]) + [NL];
    if n < |first| {
      i, k := 0, n;
      assert Print(lines)[..n] == LineText(lines[0])[..k];
      assert Print(lines[..0]) + LineText(lines[0])[..k] == LineText(lines[0])[..k];
    } else {
      var j;
      j, k := CutPoint(lines[1..], n - |first|);
      i := j + 1;
      assert lines[..i][1..] == lines[1..][..j];
      assert Print(lines)[..n] == first + Print(lines[1..])[..n - |first|];
      assert Print(lines[..i]) == first + Print(lines[1..][..j]);
    }
  }
}
