/** Theorems about whole files: what a written file restores, that writing it again gives the same
    bytes, that new observations are appended, and that files can be merged line by line. */
module RoundTrip {
  import opened Bytes
  import opened FilePos
  import opened Hash
  import opened Flatten
  import opened Metadata
  import opened Records
  import opened Keys
  import opened ObservationStore
  import opened Codec

  // -------------------------------------------------------------- round trip

  /** The store a fresh workspace holds after reading the file another one wrote. */
  ghost function Reloaded(s: Store, active: bytes, workspace: bytes): Store {
    Store(map h | h in s.cache :: Restored(h, s.cache[h], active, workspace), Indexed(s).order)
  }

  lemma {:induction false} ReplayNewKeys(workspace: bytes, s: Store, lines: seq<Line>)
    requires forall i, j :: 0 <= i < j < |lines| ==> lines[i].h != lines[j].h
    requires forall k :: 0 <= k < |lines| ==> lines[k].h !in s.cache && lines[k].h !in s.order
    ensures Replay(workspace, s, lines).order == s.order + seq(|lines|, i requires 0 <= i < |lines| => lines[i].h)
    decreases |lines|
  {
    hide Restored;
    if lines != [] {
      var s' := MergeLine(s, lines[0], workspace);
      assert forall k :: 0 <= k < |lines[1..]| ==> lines[1..][k] == lines[k + 1];
      ReplayNewKeys(workspace, s', lines[1..]);
      assert s'.order == s.order + [lines[0].h];
    }
  }

  lemma LinesAreDistinct(s: Store, active: bytes)
    requires Valid(s)
    ensures var lines := StoreLines(s, active);
            && |lines| == |Indexed(s).order|
            && (forall i, j :: 0 <= i < j < |lines| ==> lines[i].h != lines[j].h)
            && (forall k :: 0 <= k < |lines| ==>
                 lines[k].h == Indexed(s).order[k] && lines[k].h in s.cache &&
                 lines[k].o == s.cache[lines[k].h] && lines[k].active == active)
            && (set k | 0 <= k < |lines| :: lines[k].h) == s.cache.Keys
  {
    IndexedIsValid(s);
    var order, lines := Indexed(s).order, StoreLines(s, active);
    assert (set k | 0 <= k < |lines| :: lines[k].h) == Elems(order) by {
      forall h | h in Elems(order) ensures h in set k | 0 <= k < |lines| :: lines[k].h {
        var k :| 0 <= k < |order| && order[k] == h;
        assert lines[k].h == h;
      }
    }
  }

  lemma StoreLinesPrintable(s: Store, active: bytes)
    requires Valid(s) && AllWellFormed(s) && IsStamp(active)
    ensures PrintableLines(StoreLines(s, active))
  {
    hide WellFormed;
    LinesAreDistinct(s, active);
  }

  lemma ReplayStoreLines(s: Store, active: bytes, workspace: bytes)
    requires Valid(s)
    ensures Replay(workspace, EMPTY, StoreLines(s, active)) == Reloaded(s, active, workspace)
  {
    hide Restored, Replay, StoreLines, Valid, Unindexed;
    var lines := StoreLines(s, active);
    LinesAreDistinct(s, active);
    var r := Replay(workspace, EMPTY, lines);
    assert r.order == Indexed(s).order by {
      hide Indexed;
      ReplayNewKeys(workspace, EMPTY, lines);
    }
    assert r.cache == Reloaded(s, active, workspace).cache by {
      hide Indexed;
      ReplayIsUnion(workspace, EMPTY, lines);
      forall h | h in s.cache ensures r.cache[h] == Restored(h, s.cache[h], active, workspace) {
        LineOfKey(lines, h);
      }
    }
  }

  lemma LineOfKey(lines: seq<Line>, h: HashType)
    requires h in set k | 0 <= k < |lines| :: lines[k].h
    requires forall i, j :: 0 <= i < j < |lines| ==> lines[i].h != lines[j].h
    ensures exists k :: 0 <= k < |lines| && lines[k].h == h && IsFirst(lines, k)
  {
    var k :| 0 <= k < |lines| && lines[k].h == h;
    assert IsFirst(lines, k);
  }

  /** Reading a written file into a fresh workspace restores every key in order, with its flattened
      answer, its anchors' paths, lines and columns, and its author stamp. */
  lemma MarshalRoundTrip(s: Store, active: bytes, workspace: bytes)
    requires Valid(s) && AllWellFormed(s) && IsStamp(active)
    ensures Unmarshal(workspace, EMPTY, Marshal(s, active)) == (Reloaded(s, active, workspace), None)
  {
    hide Unmarshal, AllWellFormed, Reloaded, Print, StoreLines, Replay;
    StoreLinesPrintable(s, active);
    UnmarshalFile(workspace, EMPTY, StoreLines(s, active));
    ReplayStoreLines(s, active, workspace);
  }

  /** What is restored, field by field: the key's text, the answer on one line, the author the record was
      first written with, the active one if it is new, and each anchor's path, lines and columns. */
  lemma FieldsAreRestored(s: Store, active: bytes, workspace: bytes, h: HashType)
    requires Valid(s) && AllWellFormed(s) && IsStamp(active) && h in s.cache
    ensures var read := Unmarshal(workspace, EMPTY, Marshal(s, active)).0.cache;
            h in read &&
            var (r, o) := (read[h], s.cache[h]);
            && r.id == String(h) && r.answer == Flat(o.answer, [SPACE, MINUS, SPACE])
            && r.author == (if o.author == [] then active else o.author)
            && |r.anchors| == |o.anchors|
            && forall k | 0 <= k < |o.anchors| :: SamePlace(r.anchors[k], o.anchors[k], workspace)
  {
    hide Unmarshal, Marshal, Flat, String, Indexed, WellFormed;
    MarshalRoundTrip(s, active, workspace);
    hide Valid;
  }

  /** The same path, lines and columns; the offsets and the text of the file are not stored. */
  predicate SamePlace(a: FileRange, b: FileRange, workspace: bytes) {
    && a.source.path == b.source.path && a.source.workspace == workspace
    && (a.start.line, a.start.column, a.end.line, a.end.column) ==
       (b.start.line, b.start.column, b.end.line, b.end.column)
  }

  // ------------------------------------------------------- writing what was read

  lemma {:induction false} PrintSameTexts(a: seq<Line>, b: seq<Line>)
    requires |a| == |b| && forall k :: 0 <= k < |a| ==> LineText(a[k]) == LineText(b[k])
    ensures Print(a) == Print(b)
  {
    if a != [] {
      hide LineText;
      forall k | 0 <= k < |a[1..]| ensures LineText(a[1..][k]) == LineText(b[1..][k]) {
        assert a[1..][k] == a[k + 1] && b[1..][k] == b[k + 1];
      }
      PrintSameTexts(a[1..], b[1..]);
    }
  }

  lemma FullyIndexed(s: Store)
    requires Valid(s) && Elems(s.order) == s.cache.Keys
    ensures Indexed(s) == s
  {
    var u := Unindexed(s);
    assert Elems(u) == {};
    NoElems(u);
  }

  /** Writing a restored store gives the same bytes again, whoever is the active author. */
  lemma MarshalAgain(s: Store, active: bytes, workspace: bytes, other: bytes)
    requires Valid(s) && AllWellFormed(s) && IsStamp(active)
    ensures Valid(Reloaded(s, active, workspace)) && AllWellFormed(Reloaded(s, active, workspace))
    ensures Marshal(Reloaded(s, active, workspace), other) == Marshal(s, active)
    ensures Reloaded(Reloaded(s, active, workspace), other, workspace) == Reloaded(s, active, workspace)
  {
    hide Text, Restored, WellFormed, Unindexed, Print;
    var r := Reloaded(s, active, workspace);
    IndexedIsValid(s);
    FullyIndexed(r);
    forall h | h in s.cache
      ensures Text(h, r.cache[h], other) == Text(h, s.cache[h], active) && WellFormed(r.cache[h])
      ensures Restored(h, r.cache[h], other, workspace) == r.cache[h]
    {
      RestoredPrintsTheSame(h, s.cache[h], active, workspace, other);
    }
    assert Reloaded(r, other, workspace).cache == r.cache;
    LinesAreDistinct(s, active);
    LinesAreDistinct(r, other);
    PrintSameTexts(StoreLines(r, other), StoreLines(s, active));
  }

  // ------------------------------------------------------------------ appending

  function SetAll(s: Store, news: seq<(HashType, Observation)>): Store
    decreases |news|
  {
    if news == [] then s else SetAll(Set(s, news[0].0, news[0].1), news[1..])
  }

  lemma PrintCons(l: Line, lines: seq<Line>)
    ensures Print([l] + lines) == LineText(l) + [NL] + Print(lines)
  {
    hide LineText;
    assert ([l] + lines)[1..] == lines;
  }

  lemma {:induction false} PrintAppend(a: seq<Line>, b: seq<Line>)
    ensures Print(a + b) == Print(a) + Print(b)
  {
    if a == [] {
      assert a + b == b;
    } else {
      hide *;
      PrintAppend(a[1..], b);
      PrintCons(a[0], a[1..] + b);
      PrintCons(a[0], a[1..]);
      Associative([a[0]], a[1..], b);
      assert [a[0]] + a[1..] == a;
      Associative(LineText(a[0]) + [NL], Print(a[1..]), Print(b));
    }
  }

  lemma {:induction false} SetAllExtends(s: Store, news: seq<(HashType, Observation)>, old': set<HashType>)
    requires Valid(s) && Elems(s.order) == s.cache.Keys
    requires forall k :: 0 <= k < |news| ==> news[k].0 !in old'
    ensures var t := SetAll(s, news);
            && Valid(t) && Elems(t.order) == t.cache.Keys && s.order <= t.order
            && forall h | h in old' && h in s.cache :: h in t.cache && t.cache[h] == s.cache[h]
    decreases |news|
  {
    if news != [] {
      var s' := Set(s, news[0].0, news[0].1);
      SetKeepsIndexed(s, news[0].0, news[0].1);
      assert forall k :: 0 <= k < |news[1..]| ==> news[1..][k] == news[k + 1];
      SetAllExtends(s', news[1..], old');
    }
  }

  lemma SetKeepsIndexed(s: Store, h: HashType, o: Observation)
    requires Valid(s) && Elems(s.order) == s.cache.Keys
    ensures var t := Set(s, h, o); Valid(t) && Elems(t.order) == t.cache.Keys && s.order <= t.order
  {
    var t := Set(s, h, o);
    assert Elems(s.order + [h]) == Elems(s.order) + {h};
    if h !in s.order {
      forall i | 0 <= i < |s.order| ensures s.order[i] != h {
        assert s.order[i] in s.order;
      }
    }
  }

  /** Once a store is written, setting observations under new keys only appends to its file. */
  lemma MarshalAppends(s: Store, news: seq<(HashType, Observation)>, active: bytes)
    requires Valid(s) && forall k :: 0 <= k < |news| ==> news[k].0 !in s.cache
    ensures Valid(SetAll(Indexed(s), news))
    ensures Marshal(s, active) <= Marshal(SetAll(Indexed(s), news), active)
  {
    hide Print, Unindexed;
    IndexedIsValid(s);
    var i := Indexed(s);
    SetAllExtends(i, news, s.cache.Keys);
    var t := SetAll(i, news);
    FullyIndexed(t);
    LinesAreDistinct(s, active);
    LinesAreDistinct(t, active);
    var before, after := StoreLines(s, active), StoreLines(t, active);
    assert after[..|before|] == before;
    PrintAppend(before, after[|before|..]);
    assert after == before + after[|before|..];
  }

  // ---------------------------------------------------------------- union merge

  function SplitLines(data: bytes): seq<bytes>
    decreases |data|
  {
    if data == [] then []
    else
      match Cut(data, NL)
      case None => [data]
      case Some((line, rest)) => [line] + SplitLines(rest)
  }

  function JoinLines(texts: seq<bytes>): bytes {
    if texts == [] then [] else texts[0] + [NL] + JoinLines(texts[1..])
  }

  function Texts(lines: seq<Line>): (texts: seq<bytes>)
    ensures |texts| == |lines|
    ensures forall k :: 0 <= k < |lines| ==> texts[k] == LineText(lines[k])
  {
    seq(|lines|, i requires 0 <= i < |lines| => LineText(lines[i]))
  }

  /** The lines of a written file are its records, one each. */
  lemma {:induction false} OneRecordPerLine(lines: seq<Line>)
    requires PrintableLines(lines)
    ensures SplitLines(Print(lines)) == Texts(lines)
  {
    if lines != [] {
      hide *;
      var l, rest := lines[0], lines[1..];
      PrintableRest(lines);
      OneRecordPerLine(rest);
      SplitCons(l, rest);
      assert lines == [l] + rest;
    }
  }

  lemma SplitCons(l: Line, rest: seq<Line>)
    requires PrintableLine(l) && SplitLines(Print(rest)) == Texts(rest)
    ensures SplitLines(Print([l] + rest)) == Texts([l] + rest)
  {
    hide *;
    LineTextHasNoNewline(l);
    PrintCons(l, rest);
    SplitFirst(LineText(l), Print(rest));
    TextsCons(l, rest);
  }

  lemma PrintableRest(lines: seq<Line>)
    requires PrintableLines(lines) && lines != []
    ensures PrintableLine(lines[0]) && PrintableLines(lines[1..])
  {
    hide WellFormed;
  }

  lemma TextsCons(l: Line, lines: seq<Line>)
    ensures Texts([l] + lines) == [LineText(l)] + Texts(lines)
  {
    hide LineText;
  }

  lemma SplitFirst(line: bytes, rest: bytes)
    requires NL !in line
    ensures SplitLines(line + [NL] + rest) == [line] + SplitLines(rest)
  {
    hide Cut;
    CutUnique(line, NL, rest);
  }

  lemma LineTextHasNoNewline(l: Line)
    requires PrintableLine(l)
    ensures NL !in LineText(l)
  {
    hide Text;
    RecordIsOneLine(l.h, l.o, l.active);
  }

  lemma {:induction false} JoinTexts(lines: seq<Line>)
    ensures JoinLines(Texts(lines)) == Print(lines)
  {
    if lines != [] {
      hide LineText;
      JoinTexts(lines[1..]);
      assert Texts(lines)[1..] == Texts(lines[1..]);
    }
  }

  datatype File = File(store: Store, active: bytes)

  ghost predicate Written(f: File) {
    Valid(f.store) && AllWellFormed(f.store) && IsStamp(f.active)
  }

  /** The lines of a file as a text tool sees them. */
  ghost function FileLines(f: File): seq<bytes>
    requires Written(f)
  {
    SplitLines(Marshal(f.store, f.active))
  }

  lemma FileLinesAreRecords(f: File)
    requires Written(f)
    ensures FileLines(f) == Texts(StoreLines(f.store, f.active))
    ensures |FileLines(f)| == |Indexed(f.store).order|
  {
    hide Print, SplitLines;
    StoreLinesPrintable(f.store, f.active);
    OneRecordPerLine(StoreLines(f.store, f.active));
  }

  // A line of a merged file: line number line of file number file.
  datatype Pick = Pick(file: nat, line: nat)

  ghost predicate IsPick(files: seq<File>, p: Pick)
    requires forall f :: 0 <= f < |files| ==> Written(files[f])
  {
    p.file < |files| && p.line < |FileLines(files[p.file])|
  }

  ghost function PickedText(files: seq<File>, p: Pick): bytes
    requires forall f :: 0 <= f < |files| ==> Written(files[f])
    requires IsPick(files, p)
  {
    FileLines(files[p.file])[p.line]
  }

  ghost function PickedKey(files: seq<File>, p: Pick): HashType
    requires forall f :: 0 <= f < |files| ==> Written(files[f])
    requires IsPick(files, p)
  {
    FileLinesAreRecords(files[p.file]);
    Indexed(files[p.file].store).order[p.line]
  }

  ghost function PickedLine(files: seq<File>, p: Pick): (l: Line)
    requires forall f :: 0 <= f < |files| ==> Written(files[f])
    requires IsPick(files, p)
    ensures PrintableLine(l) && l.h == PickedKey(files, p) && l.h in files[p.file].store.cache
    ensures l.o == files[p.file].store.cache[l.h] && l.active == files[p.file].active
    ensures LineText(l) == PickedText(files, p)
  {
    FileLinesAreRecords(files[p.file]);
    LinesAreDistinct(files[p.file].store, files[p.file].active);
    StoreLinesPrintable(files[p.file].store, files[p.file].active);
    StoreLines(files[p.file].store, files[p.file].active)[p.line]
  }

  ghost predicate FirstPick(files: seq<File>, picks: seq<Pick>, k: nat)
    requires forall f :: 0 <= f < |files| ==> Written(files[f])
    requires forall i :: 0 <= i < |picks| ==> IsPick(files, picks[i])
    requires k < |picks|
  {
    forall j :: 0 <= j < k ==> PickedKey(files, picks[j]) != PickedKey(files, picks[k])
  }

  /** r is base and the picked lines: the union of the keys, where what the reader already held
      stays and every other key has the observation of its first line. */
  ghost predicate IsUnion(files: seq<File>, picks: seq<Pick>, workspace: bytes, base: Store, r: Store)
    requires forall f :: 0 <= f < |files| ==> Written(files[f])
    requires forall i :: 0 <= i < |picks| ==> IsPick(files, picks[i])
  {
    && r.cache.Keys == base.cache.Keys + (set i | 0 <= i < |picks| :: PickedKey(files, picks[i]))
    && (forall h | h in base.cache :: r.cache[h] == base.cache[h])
    && forall i | 0 <= i < |picks| && PickedKey(files, picks[i]) !in base.cache && FirstPick(files, picks, i) ::
         var l := PickedLine(files, picks[i]);
         r.cache[l.h] == Restored(l.h, l.o, l.active, workspace)
  }

  /** A union merge leaves some lines of some files, in any order and any number of times.
      Reading the merged file never fails and gives their union. */
  lemma UnionMerge(files: seq<File>, picks: seq<Pick>, workspace: bytes, base: Store, merged: seq<bytes>)
    requires forall f :: 0 <= f < |files| ==> Written(files[f])
    requires forall i :: 0 <= i < |picks| ==> IsPick(files, picks[i])
    requires |merged| == |picks| && forall i :: 0 <= i < |picks| ==> merged[i] == PickedText(files, picks[i])
    ensures Unmarshal(workspace, base, JoinLines(merged)).1 == None
    ensures IsUnion(files, picks, workspace, base, Unmarshal(workspace, base, JoinLines(merged)).0)
  {
    hide *;
    var lines := PickedLines(files, picks);
    MergedText(files, picks, merged);
    UnmarshalFile(workspace, base, lines);
    PickedUnion(files, picks, workspace, base);
  }

  ghost function PickedLines(files: seq<File>, picks: seq<Pick>): (lines: seq<Line>)
    requires forall f :: 0 <= f < |files| ==> Written(files[f])
    requires forall i :: 0 <= i < |picks| ==> IsPick(files, picks[i])
    ensures |lines| == |picks|
    ensures forall i :: 0 <= i < |picks| ==> lines[i] == PickedLine(files, picks[i])
  {
    seq(|picks|, i requires 0 <= i < |picks| => PickedLine(files, picks[i]))
  }

  lemma MergedText(files: seq<File>, picks: seq<Pick>, merged: seq<bytes>)
    requires forall f :: 0 <= f < |files| ==> Written(files[f])
    requires forall i :: 0 <= i < |picks| ==> IsPick(files, picks[i])
    requires |merged| == |picks| && forall i :: 0 <= i < |picks| ==> merged[i] == PickedText(files, picks[i])
    ensures JoinLines(merged) == Print(PickedLines(files, picks)) && PrintableLines(PickedLines(files, picks))
  {
    hide Written, Print, LineText, WellFormed, PickedText, JoinLines, PickedLine, PickedLines;
    var lines := PickedLines(files, picks);
    assert merged == Texts(lines);
    JoinTexts(lines);
  }

  lemma PickedUnion(files: seq<File>, picks: seq<Pick>, workspace: bytes, base: Store)
    requires forall f :: 0 <= f < |files| ==> Written(files[f])
    requires forall i :: 0 <= i < |picks| ==> IsPick(files, picks[i])
    ensures IsUnion(files, picks, workspace, base, Replay(workspace, base, PickedLines(files, picks)))
  {
    hide Written, Restored, Replay, PickedLine, PickedKey, PickedLines, PrintableLine, IsPick;
    var lines := PickedLines(files, picks);
    ReplayIsUnion(workspace, base, lines);
    PickedKeySet(files, picks);
    forall i | 0 <= i < |picks| && FirstPick(files, picks, i) ensures IsFirst(lines, i) {
      FirstPickIsFirst(files, picks, i);
    }
  }

  lemma PickedKeySet(files: seq<File>, picks: seq<Pick>)
    requires forall f :: 0 <= f < |files| ==> Written(files[f])
    requires forall i :: 0 <= i < |picks| ==> IsPick(files, picks[i])
    ensures var lines := PickedLines(files, picks);
            (set k | 0 <= k < |lines| :: lines[k].h) == (set i | 0 <= i < |picks| :: PickedKey(files, picks[i]))
  {
    hide SplitLines, Marshal, WellFormed, FileLines, Indexed, PickedKey, PickedLine;
  }

  lemma FirstPickIsFirst(files: seq<File>, picks: seq<Pick>, i: nat)
    requires forall f :: 0 <= f < |files| ==> Written(files[f])
    requires forall i :: 0 <= i < |picks| ==> IsPick(files, picks[i])
    requires i < |picks| && FirstPick(files, picks, i)
    ensures IsFirst(PickedLines(files, picks), i)
  {
    hide SplitLines, Marshal, WellFormed, FileLines, Indexed, PickedKey, PickedLine;
  }

  /** When every line of every file survives the merge, no key of any file is lost. */
  lemma FullMergeKeepsEveryKey(files: seq<File>, picks: seq<Pick>)
    requires forall f :: 0 <= f < |files| ==> Written(files[f])
    requires forall i :: 0 <= i < |picks| ==> IsPick(files, picks[i])
    requires forall p: Pick :: IsPick(files, p) ==> p in picks
    ensures (set i | 0 <= i < |picks| :: PickedKey(files, picks[i])) ==
            (set f, h | 0 <= f < |files| && h in files[f].store.cache :: h)
  {
    hide SplitLines, Marshal, WellFormed, FileLines, Indexed, Written;
    var picked := set i | 0 <= i < |picks| :: PickedKey(files, picks[i]);
    forall i | 0 <= i < |picks|
      ensures PickedKey(files, picks[i]) in files[picks[i].file].store.cache
    {
      var l := PickedLine(files, picks[i]);
    }
    forall f, h | 0 <= f < |files| && h in files[f].store.cache ensures h in picked {
      KeyHasLine(files, f, h, picks);
    }
  }

  lemma KeyHasLine(files: seq<File>, f: nat, h: HashType, picks: seq<Pick>)
    requires forall f :: 0 <= f < |files| ==> Written(files[f])
    requires forall i :: 0 <= i < |picks| ==> IsPick(files, picks[i])
    requires forall p: Pick :: IsPick(files, p) ==> p in picks
    requires f < |files| && h in files[f].store.cache
    ensures exists i :: 0 <= i < |picks| && PickedKey(files, picks[i]) == h
  {
    hide SplitLines, Marshal, FileLines, Indexed, Written, PickedLine;
    var k := LineNumber(files[f], h);
    var p := Pick(f, k);
    assert IsPick(files, p);
    var i :| 0 <= i < |picks| && picks[i] == p;
    assert PickedKey(files, picks[i]) == h;
  }

  lemma LineNumber(f: File, h: HashType) returns (k: nat)
    requires Written(f) && h in f.store.cache
    ensures k < |FileLines(f)| == |Indexed(f.store).order| && Indexed(f.store).order[k] == h
  {
    hide SplitLines, Marshal, AllWellFormed, FileLines, Indexed;
    IndexedIsValid(f.store);
    FileLinesAreRecords(f);
    var order := Indexed(f.store).order;
    assert h in Elems(order);
    k :| 0 <= k < |order| && order[k] == h;
  }
}
