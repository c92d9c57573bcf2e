/** Any number of processes sharing one store file. Each sets observations in its own memory and
    persists under the file lock, which makes a persist one atomic step; a version-control pull can
    put a union merge in the place of the file. */
module Persistence {
  import opened Bytes
  import opened Hash
  import opened FilePos
  import opened Metadata
  import opened Records
  import opened Keys
  import opened ObservationStore
  import opened Codec
  import opened RoundTrip
  import opened Workspace
  import opened Unreadable

  datatype Process = Process(path: bytes, active: bytes, store: Store)

  datatype System = System(disk: Option<bytes>, procs: seq<Process>)

  datatype Event =
    | SetObservation(i: nat, h: HashType, o: Observation)
    | Load(i: nat)
    | Persist(i: nat)
    | Pull(lines: seq<Line>)

  /** The observations a process at the given path reads from the file. */
  function OnDisk(disk: Option<bytes>, path: bytes): map<HashType, Observation> {
    match disk
    case None => map[]
    case Some(data) => Unmarshal(path, EMPTY, data).0.cache
  }

  predicate Decodable(disk: Option<bytes>, path: bytes) {
    disk.Some? ==> Unmarshal(path, EMPTY, disk.value).1 == None
  }

  /** The file consists of record lines: it was written by a process or merged from such files. */
  ghost predicate Holds(disk: Option<bytes>, lines: seq<Line>) {
    && PrintableLines(lines)
    && match disk
       case None => lines == []
       case Some(data) => data == Print(lines)
  }

  ghost predicate GoodStore(s: Store) { ObservationStore.Valid(s) && AllWellFormed(s) }

  ghost predicate Inv(sys: System) {
    && (exists lines :: Holds(sys.disk, lines))
    && forall i :: 0 <= i < |sys.procs| ==> GoodStore(sys.procs[i].store) && IsStamp(sys.procs[i].active)
  }

  ghost predicate Step(a: System, e: Event, b: System) {
    match e
    case SetObservation(i, h, o) =>
      && i < |a.procs| && WellFormed(o)
      && b == a.(procs := a.procs[i := a.procs[i].(store := Set(a.procs[i].store, h, o))])
    case Load(i) =>
      && i < |a.procs|
      && b == a.(procs := a.procs[i := a.procs[i].(store := Merged(a.procs[i].path, a.procs[i].store, a.disk))])
    case Persist(i) =>
      && i < |a.procs|
      && var merged := Merged(a.procs[i].path, a.procs[i].store, a.disk);
      && ObservationStore.Valid(merged)
      && var (store, disk) := Persisted(a.procs[i].path, a.procs[i].active, a.procs[i].store, a.disk);
      && b == System(disk, a.procs[i := a.procs[i].(store := store)])
    case Pull(lines) =>
      // A union merge keeps every line of both sides.
      && PrintableLines(lines)
      && (exists mine: seq<Line> :: Holds(a.disk, mine) && forall l | l in mine :: l in lines)
      && b == a.(disk := Some(Print(lines)))
  }

  ghost function KeysOf(lines: seq<Line>): set<HashType> { set k | 0 <= k < |lines| :: lines[k].h }

  // ------------------------------------------------------------ what a file holds

  /** Whoever reads a file of record lines decodes all of it and sees the same keys. */
  lemma HeldFile(disk: Option<bytes>, lines: seq<Line>, path: bytes)
    requires Holds(disk, lines)
    ensures Decodable(disk, path) && OnDisk(disk, path).Keys == KeysOf(lines)
    ensures forall s :: Merged(path, s, disk) == Replay(path, s, lines)
    ensures OnDisk(disk, path) == Replay(path, EMPTY, lines).cache
  {
    hide Unmarshal, WellFormed, Print;
    forall s ensures Merged(path, s, disk) == Replay(path, s, lines) {
      if disk.Some? {
        UnmarshalFile(path, s, lines);
      }
    }
    if disk.Some? {
      UnmarshalFile(path, EMPTY, lines);
    }
    ReplayIsUnion(path, EMPTY, lines);
  }

  lemma MergeKeepsGood(s: Store, l: Line, path: bytes)
    requires GoodStore(s) && PrintableLine(l)
    ensures GoodStore(MergeLine(s, l, path))
  {
    hide WellFormed, Restored;
    RestoredPrintsTheSame(l.h, l.o, l.active, path, l.active);
    assert Elems(s.order + [l.h]) == Elems(s.order) + {l.h};
    if l.h !in s.cache {
      forall i | 0 <= i < |s.order| ensures s.order[i] != l.h {
        assert s.order[i] in Elems(s.order);
      }
    }
  }

  lemma {:induction false} ReplayKeepsGood(s: Store, lines: seq<Line>, path: bytes)
    requires GoodStore(s) && PrintableLines(lines)
    ensures GoodStore(Replay(path, s, lines))
    decreases |lines|
  {
    hide MergeLine, GoodStore, PrintableLine;
    if lines != [] {
      assert PrintableLine(lines[0]) && PrintableLines(lines[1..]) by { PrintableRest(lines); }
      MergeKeepsGood(s, lines[0], path);
      ReplayKeepsGood(MergeLine(s, lines[0], path), lines[1..], path);
    }
  }

  // --------------------------------------------------------------------- persist

  /** The store a persist writes: the process's own records, and those on disk under other keys,
      which print exactly as they were read. */
  lemma MergedRecords(disk: Option<bytes>, lines: seq<Line>, p: Process)
    requires Holds(disk, lines)
    ensures var merged, ondisk := Merged(p.path, p.store, disk).cache, OnDisk(disk, p.path);
            && merged.Keys == ondisk.Keys + p.store.cache.Keys
            && (forall h | h in p.store.cache :: merged[h] == p.store.cache[h])
            && forall h | h in ondisk && h !in p.store.cache ::
                 merged[h] == ondisk[h] == Restored(h, ondisk[h], p.active, p.path)
  {
    hide Restored, PrintableLines, Replay, Merged, OnDisk;
    HeldFile(disk, lines, p.path);
    ReplayIsUnion(p.path, p.store, lines);
    ReplayIsUnion(p.path, EMPTY, lines);
    var merged, ondisk := Merged(p.path, p.store, disk).cache, OnDisk(disk, p.path);
    forall h | h in ondisk && h !in p.store.cache
      ensures merged[h] == ondisk[h] == Restored(h, ondisk[h], p.active, p.path)
    {
      var k := FirstLine(lines, h);
      RestoredTwice(lines, k, p);
    }
  }

  /** After a persist the file decodes and holds the union of what was on disk and what the process
      held: the process's own record where it had one, and the record on disk otherwise. */
  lemma PersistIsUnion(disk: Option<bytes>, lines: seq<Line>, p: Process)
    requires Holds(disk, lines) && GoodStore(p.store) && IsStamp(p.active)
    ensures var merged := Merged(p.path, p.store, disk);
            && GoodStore(merged)
            && Persisted(p.path, p.active, p.store, disk) == (Indexed(merged), Some(Marshal(merged, p.active)))
            && var disk' := Some(Marshal(merged, p.active));
            && Holds(disk', StoreLines(merged, p.active))
            && Decodable(disk', p.path)
            && OnDisk(disk', p.path).Keys == OnDisk(disk, p.path).Keys + p.store.cache.Keys
            && (forall h | h in p.store.cache ::
                 OnDisk(disk', p.path)[h] == Restored(h, p.store.cache[h], p.active, p.path))
            && forall h | h in OnDisk(disk, p.path) && h !in p.store.cache ::
                 OnDisk(disk', p.path)[h] == OnDisk(disk, p.path)[h]
  {
    hide Restored, AllWellFormed, ObservationStore.Valid, PrintableLines, Marshal, Decodable, Replay, OnDisk;
    hide StoreLines, Merged, Indexed, ReadError;
    HeldFile(disk, lines, p.path);
    NoReadError(disk, lines, p);
    ReplayKeepsGood(p.store, lines, p.path);
    MergedRecords(disk, lines, p);
    GoodStoreRoundTrip(Merged(p.path, p.store, disk), p);
  }

  lemma NoReadError(disk: Option<bytes>, lines: seq<Line>, p: Process)
    requires Holds(disk, lines)
    ensures ReadError(p.path, p.store, disk) == None
  {
    hide Unmarshal, Print, PrintableLine;
    if disk.Some? {
      UnmarshalFile(p.path, p.store, lines);
    }
  }

  lemma RestoredTwice(lines: seq<Line>, k: nat, p: Process)
    requires PrintableLines(lines) && k < |lines|
    ensures var l := lines[k];
            var r := Restored(l.h, l.o, l.active, p.path);
            Restored(l.h, r, p.active, p.path) == r
  {
    hide Restored;
    RestoredPrintsTheSame(lines[k].h, lines[k].o, lines[k].active, p.path, p.active);
  }

  lemma FirstLine(lines: seq<Line>, h: HashType) returns (k: nat)
    requires h in KeysOf(lines)
    ensures k < |lines| && lines[k].h == h && IsFirst(lines, k)
  {
    k := 0;
    while lines[k].h != h
      invariant k < |lines| && forall j :: 0 <= j < k ==> lines[j].h != h
      decreases |lines| - k
    {
      k := k + 1;
    }
  }

  lemma GoodStoreRoundTrip(s: Store, p: Process)
    requires GoodStore(s) && IsStamp(p.active)
    ensures var disk := Some(Marshal(s, p.active));
            && Holds(disk, StoreLines(s, p.active)) && Decodable(disk, p.path)
            && OnDisk(disk, p.path) == map h | h in s.cache :: Restored(h, s.cache[h], p.active, p.path)
  {
    hide Unmarshal, Restored, WellFormed, Print;
    StoreLinesPrintable(s, p.active);
    MarshalRoundTrip(s, p.active, p.path);
  }

  // ------------------------------------------------- persisting over any file at all

  /** What holds of any observation that was parsed, from whatever bytes. */
  ghost predicate Stamped(o: Observation) {
    (o.author == [] || IsStamp(o.author)) && AllPrintable(o.anchors)
  }

  ghost predicate AllStamped(s: Store) {
    ObservationStore.Valid(s) && forall h | h in s.cache :: Stamped(s.cache[h])
  }

  /** No text of the store is longer than an int can count. */
  ghost predicate AllFit(s: Store) {
    forall h | h in s.cache :: Fits(s.cache[h].anchors, |Answer(s.cache[h])|)
  }

  lemma ParsedIsStamped(path: bytes, data: bytes)
    ensures ParseRecord(path, data).Ok? ==> Stamped(ParseRecord(path, data).value.o)
  {
    hide Cut, HexDecode, ParseHash, DecodeMetadata, AllPrintable;
  }

  lemma MergeKeepsStamped(s: Store, h: HashType, o: Observation)
    requires AllStamped(s) && Stamped(o)
    ensures AllStamped(Merge(s, h, o))
  {
    hide Stamped;
    assert Elems(s.order + [h]) == Elems(s.order) + {h};
    if h !in s.cache {
      forall i | 0 <= i < |s.order| ensures s.order[i] != h {
        assert s.order[i] in Elems(s.order);
      }
    }
  }

  lemma {:induction false} UnmarshalKeepsStamped(path: bytes, s: Store, data: bytes)
    requires AllStamped(s)
    ensures AllStamped(Unmarshal(path, s, data).0)
    decreases |data|
  {
    hide ParseRecord, Merge, AllStamped, Stamped, Blank, TrimNewlines;
    if !Blank(data) && ParseRecord(path, TrimNewlines(data)).Ok? {
      var p := ParseRecord(path, TrimNewlines(data)).value;
      ParsedIsStamped(path, TrimNewlines(data));
      MergeKeepsStamped(s, p.h, p.o);
      UnmarshalKeepsStamped(path, Merge(s, p.h, p.o), p.rest);
    }
  }

  /** Reading a file over records already held adds to them what reading it alone gives, up to the
      same error if there is one. */
  lemma {:induction false} UnmarshalOver(path: bytes, held: map<HashType, Observation>, s: Store, t: Store, data: bytes)
    requires s.cache == t.cache + held
    ensures Unmarshal(path, s, data).0.cache == Unmarshal(path, t, data).0.cache + held
    ensures Unmarshal(path, s, data).1 == Unmarshal(path, t, data).1
    decreases |data|
  {
    hide ParseRecord, Blank, TrimNewlines;
    if !Blank(data) && ParseRecord(path, TrimNewlines(data)).Ok? {
      var p := ParseRecord(path, TrimNewlines(data)).value;
      assert Merge(s, p.h, p.o).cache == Merge(t, p.h, p.o).cache + held;
      hide Merge;
      UnmarshalOver(path, held, Merge(s, p.h, p.o), Merge(t, p.h, p.o), p.rest);
    }
  }

  /** Whatever bytes the file holds, a persist leaves one that decodes, with the process's own records
      and every record of the old file that comes before the first unreadable one, exactly when the
      first unreadable record is not one on which the program panics. On such a record the file stays
      as it is. */
  lemma PersistHeals(disk: Option<bytes>, p: Process)
    requires GoodStore(p.store) && IsStamp(p.active) && AllFit(Merged(p.path, p.store, disk))
    ensures var merged := Merged(p.path, p.store, disk);
            && GoodStore(merged)
            && merged.cache == OnDisk(disk, p.path) + p.store.cache
            && var disk' := Persisted(p.path, p.active, p.store, disk).1;
            && var broken := disk.Some? && Unrepairable(p.path, disk.value);
            && (Decodable(disk', p.path) <==> !broken)
            && (broken ==> disk' == disk)
            && (!broken ==>
                 && Holds(disk', StoreLines(merged, p.active))
                 && OnDisk(disk', p.path) ==
                      map h | h in merged.cache :: Restored(h, merged.cache[h], p.active, p.path))
  {
    hide Restored, Unmarshal, Marshal, StoreLines, Holds, ObservationStore.Valid, Unrepairable, Merged, OnDisk, Indexed;
    MergedAny(disk, p);
    GoodStoreRoundTrip(Merged(p.path, p.store, disk), p);
    if disk.Some? {
      ReadingStops(p.path, p.store, disk.value);
      ReadingStops(p.path, EMPTY, disk.value);
    }
  }

  /** A file that cannot be read at all is overwritten too: its keys are kept exactly when the process
      holds all of them. */
  lemma UnreadPersist(disk: Option<bytes>, p: Process)
    requires GoodStore(p.store) && IsStamp(p.active)
    ensures var disk' := Persisted(p.path, p.active, p.store, None).1;
            OnDisk(disk, p.path).Keys <= OnDisk(disk', p.path).Keys <==>
            OnDisk(disk, p.path).Keys <= p.store.cache.Keys
  {
    hide Restored, Unmarshal, Marshal, StoreLines, Holds, ObservationStore.Valid, Indexed, OnDisk, Decodable;
    GoodStoreRoundTrip(p.store, p);
  }

  lemma MergedAny(disk: Option<bytes>, p: Process)
    requires GoodStore(p.store) && AllFit(Merged(p.path, p.store, disk))
    ensures GoodStore(Merged(p.path, p.store, disk))
    ensures Merged(p.path, p.store, disk).cache == OnDisk(disk, p.path) + p.store.cache
  {
    hide Unmarshal, Fits, AllPrintable, ObservationStore.Valid;
    if disk.Some? {
      assert AllStamped(p.store);
      UnmarshalKeepsStamped(p.path, p.store, disk.value);
      assert p.store.cache == EMPTY.cache + p.store.cache;
      UnmarshalOver(p.path, p.store.cache, p.store, EMPTY, disk.value);
    }
  }

  // ------------------------------------------------------------------------ runs

  lemma SetKeepsGood(s: Store, h: HashType, o: Observation)
    requires GoodStore(s) && WellFormed(o)
    ensures GoodStore(Set(s, h, o))
  {
    hide WellFormed;
    assert Elems(s.order + [h]) == Elems(s.order) + {h};
    forall i | 0 <= i < |s.order| ensures s.order[i] == h ==> h in s.order {}
  }

  /** A key that is set again keeps its place; a new one is the last. */
  lemma SetKeepsPlaces(s: Store, h: HashType, o: Observation)
    ensures var places := Set(s, h, o).order;
            && |places| == |s.order| + (if exists i :: 0 <= i < |s.order| && s.order[i] == h then 0 else 1)
            && (forall i :: 0 <= i < |s.order| ==> places[i] == s.order[i])
            && (|places| > |s.order| ==> places[|places| - 1] == h)
  {
    if h in s.order {
      var i :| 0 <= i < |s.order| && s.order[i] == h;
    }
  }

  lemma IndexedKeepsGood(s: Store)
    requires GoodStore(s)
    ensures GoodStore(Indexed(s))
  {
    hide WellFormed;
    IndexedIsValid(s);
  }

  /** An observation that is set and persisted is on disk; whatever was on disk or set before under other keys
      stays. */
  lemma SetThenPersist(disk: Option<bytes>, lines: seq<Line>, p: Process, h: HashType, o: Observation)
    requires Holds(disk, lines) && GoodStore(p.store) && IsStamp(p.active) && WellFormed(o)
    ensures var s := Set(p.store, h, o);
            && ObservationStore.Valid(Merged(p.path, s, disk))
            && var after := OnDisk(Persisted(p.path, p.active, s, disk).1, p.path);
            && after.Keys == OnDisk(disk, p.path).Keys + p.store.cache.Keys + {h}
            && after[h] == Restored(h, o, p.active, p.path)
            && (forall k | k in p.store.cache && k != h :: after[k] == Restored(k, p.store.cache[k], p.active, p.path))
            && forall k | k in OnDisk(disk, p.path) && k != h && k !in p.store.cache ::
                 after[k] == OnDisk(disk, p.path)[k]
  {
    hide Restored, Holds, OnDisk, Merged, Persisted, WellFormed, Marshal, StoreLines, Decodable, Indexed;
    var p' := p.(store := Set(p.store, h, o));
    SetKeepsGood(p.store, h, o);
    PersistIsUnion(disk, lines, p');
  }

  /** Every step keeps the file readable by everyone, and no step loses a key from it. */
  lemma StepKeepsInv(a: System, e: Event, b: System, path: bytes)
    requires Inv(a) && Step(a, e, b)
    ensures Inv(b) && Decodable(b.disk, path)
    ensures OnDisk(a.disk, path).Keys <= OnDisk(b.disk, path).Keys
  {
    hide Unmarshal, GoodStore, PrintableLines, Marshal, Decodable, OnDisk, WellFormed, Merged, Indexed, Set;
    hide StoreLines, ObservationStore.Valid;
    var lines :| Holds(a.disk, lines);
    HeldFile(a.disk, lines, path);
    match e {
      case SetObservation(i, h, o) =>
        SetKeepsGood(a.procs[i].store, h, o);
      case Load(i) =>
        LoadStep(a.disk, lines, a.procs[i]);
      case Persist(i) =>
        var p := a.procs[i];
        PersistStep(a.disk, lines, p, path);
        hide IsStamp, Holds;
        assert Holds(b.disk, StoreLines(Merged(p.path, p.store, a.disk), p.active));
      case Pull(new') =>
        PullKeepsKeys(a, lines, new', b, path);
    }
  }

  lemma LoadStep(disk: Option<bytes>, lines: seq<Line>, p: Process)
    requires Holds(disk, lines) && GoodStore(p.store)
    ensures GoodStore(Merged(p.path, p.store, disk))
  {
    hide GoodStore, Merged, Print, Replay;
    HeldFile(disk, lines, p.path);
    ReplayKeepsGood(p.store, lines, p.path);
  }

  lemma PersistStep(disk: Option<bytes>, lines: seq<Line>, p: Process, path: bytes)
    requires Holds(disk, lines) && GoodStore(p.store) && IsStamp(p.active)
    ensures var merged := Merged(p.path, p.store, disk);
            && GoodStore(merged) && GoodStore(Indexed(merged))
            && Persisted(p.path, p.active, p.store, disk) == (Indexed(merged), Some(Marshal(merged, p.active)))
            && var disk' := Some(Marshal(merged, p.active));
            && Holds(disk', StoreLines(merged, p.active))
            && Decodable(disk', path)
            && OnDisk(disk, path).Keys <= OnDisk(disk', path).Keys
  {
    hide Unmarshal, Restored, PrintableLines, Decodable, OnDisk, Merged, StoreLines, WellFormed, Persisted;
    PersistIsUnion(disk, lines, p);
    var merged := Merged(p.path, p.store, disk);
    HeldFile(disk, lines, path);
    HeldFile(disk, lines, p.path);
    HeldFile(Some(Marshal(merged, p.active)), StoreLines(merged, p.active), path);
    HeldFile(Some(Marshal(merged, p.active)), StoreLines(merged, p.active), p.path);
    IndexedKeepsGood(merged);
  }

  lemma PullKeepsKeys(a: System, lines: seq<Line>, pulled: seq<Line>, b: System, path: bytes)
    requires Holds(a.disk, lines) && Step(a, Pull(pulled), b)
    ensures Holds(b.disk, pulled) && Decodable(b.disk, path)
    ensures OnDisk(a.disk, path).Keys <= OnDisk(b.disk, path).Keys
  {
    hide Unmarshal, PrintableLines, Decodable, OnDisk, Print;
    var mine: seq<Line> :| Holds(a.disk, mine) && forall l | l in mine :: l in pulled;
    HeldFile(a.disk, mine, path);
    HeldFile(b.disk, pulled, path);
    forall h | h in KeysOf(mine) ensures h in KeysOf(pulled) {
      var k :| 0 <= k < |mine| && mine[k].h == h;
      assert mine[k] in pulled;
    }
  }

  ghost predicate IsRun(run: seq<System>, events: seq<Event>) {
    && |run| == |events| + 1
    && Inv(run[0])
    && forall n :: 0 <= n < |events| ==> Step(run[n], events[n], run[n + 1])
  }

  /** In every run, from every point on, for every reader: the file stays decodable and its key set
      never shrinks. */
  lemma {:induction false} KeysNeverShrink(run: seq<System>, events: seq<Event>, m: nat, n: nat, path: bytes)
    requires IsRun(run, events) && m <= n < |run|
    ensures Inv(run[n]) && Decodable(run[n].disk, path)
    ensures OnDisk(run[m].disk, path).Keys <= OnDisk(run[n].disk, path).Keys
    decreases n
  {
    hide Step, Decodable, OnDisk, Inv;
    if n == 0 {
      InvDecodes(run[0], path);
    } else {
      KeysNeverShrink(run, events, if m == n then m - 1 else m, n - 1, path);
      assert Step(run[n - 1], events[n - 1], run[n - 1 + 1]);
      StepKeepsInv(run[n - 1], events[n - 1], run[n], path);
    }
  }

  lemma InvDecodes(sys: System, path: bytes)
    requires Inv(sys)
    ensures Decodable(sys.disk, path)
  {
    hide Decodable, Holds;
    var lines :| Holds(sys.disk, lines);
    HeldFile(sys.disk, lines, path);
  }
}
