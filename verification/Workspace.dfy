/** The workspace object: the observation cache, the write index of each key, and the methods that
    read and write the store file. Each is proved against the functions of module ObservationStore. */
module Workspace {
  import opened Bytes
  import opened Hash
  import opened Metadata
  import opened Flatten
  import opened Records
  import opened Keys
  import opened ObservationStore
  import opened RoundTrip

  /** What a write does to the store file, given what is on disk (None: no readable file):
      records on disk are merged in first, even those before a point that cannot be read. */
  ghost function Merged(workspace: bytes, s: Store, disk: Option<bytes>): Store {
    match disk
    case None => s
    case Some(data) => Unmarshal(workspace, s, data).0
  }

  function ReadError(workspace: bytes, s: Store, disk: Option<bytes>): Option<Failure> {
    match disk
    case None => None
    case Some(data) => Unmarshal(workspace, s, data).1
  }

  /** The store and the file after a persist. A panic while reading leaves the file as it is; any
      other error does not keep the file from being replaced. */
  ghost function Persisted(workspace: bytes, active: bytes, s: Store, disk: Option<bytes>): (Store, Option<bytes>)
    requires ObservationStore.Valid(Merged(workspace, s, disk))
  {
    var merged := Merged(workspace, s, disk);
    if ReadError(workspace, s, disk) == Some(Panic) then (merged, disk)
    else (Indexed(merged), Some(Marshal(merged, active)))
  }

  class File {
    var data: Option<bytes>

    constructor ()
      ensures data == None
    {
      data := None;
    }
  }

  class Workspace {
    const path: bytes
    // The checksum of the active author, an unseen hash of the author's name.
    const authorChecksum: nat
    var observationCache: map<HashType, Observation>
    var observationOrder: map<HashType, nat>
    var observationCount: nat
    ghost var order: seq<HashType>

    ghost predicate Valid()
      reads this
    {
      && ObservationStore.Valid(Contents())
      && observationCount == |order|
      && observationOrder.Keys == Elems(order)
      && forall i :: 0 <= i < |order| ==> observationOrder[order[i]] == i
    }

    ghost function Contents(): Store
      reads this
    {
      Store(observationCache, order)
    }

    constructor (path: bytes, authorChecksum: nat)
      ensures Valid() && Contents() == EMPTY
      ensures this.path == path && this.authorChecksum == authorChecksum
    {
      this.path := path;
      this.authorChecksum := authorChecksum;
      observationCache := map[];
      observationOrder := map[];
      observationCount := 0;
      order := [];
    }

    method SetObservationLocked(h: HashType, o: Observation)
      requires Valid()
      modifies this
      ensures Valid() && Contents() == Set(old(Contents()), h, o)
    {
      assert h in Elems(order) <==> h in order;
      if h !in observationOrder {
        observationOrder := observationOrder[h := observationCount];
        observationCount := observationCount + 1;
        order := order + [h];
        assert Elems(order) == Elems(old(order)) + {h};
      }
      observationCache := observationCache[h := o];
    }

    method UnmarshalLocked(data: bytes) returns (e: Option<Failure>)
      requires Valid()
      modifies this
      ensures Valid() && (Contents(), e) == Unmarshal(path, old(Contents()), data)
    {
      hide ParseRecord, Blank;
      var rest := data;
      while !Blank(rest)
        invariant Valid()
        invariant Unmarshal(path, Contents(), rest) == Unmarshal(path, old(Contents()), data)
        decreases |rest|
      {
        rest := TrimNewlines(rest);
        match ParseRecord(path, rest) {
          case Err(failure) =>
            return Some(failure);
          case Ok(p) =>
            if p.h !in observationCache {
              SetObservationLocked(p.h, p.o);
            }
            rest := p.rest;
        }
      }
      e := None;
    }

    /** Gives every key of the cache an index; new ones follow in the order of their texts. */
    method IndexAll()
      requires Valid()
      modifies this
      ensures Valid() && Contents() == Indexed(old(Contents()))
    {
      var unindexed := UnindexedKeys();
      ghost var target := order + unindexed;
      IndexTarget(Contents());
      assert target[..|order|] == order;
      hide Indexed, Unindexed, ObservationStore.Valid, Distinct;
      var i := 0;
      while i < |unindexed|
        invariant 0 <= i <= |unindexed| && |order| == |target| - |unindexed| + i
        invariant Valid() && observationCache == old(observationCache)
        invariant order == target[..|order|]
      {
        NextOfDistinct(target, order);
        assert target[|order|] == unindexed[i];
        SetObservationLocked(unindexed[i], observationCache[unindexed[i]]);
        i := i + 1;
      }
    }

    method UnindexedKeys() returns (u: seq<HashType>)
      requires Valid()
      ensures u == Unindexed(Contents())
    {
      hide KeyLess;
      var keys := observationCache.Keys - observationOrder.Keys;
      KeyLessIsStrictOrder(keys);
      u := SortKeys(keys, KeyLess);
      SortedUnique(u, Unindexed(Contents()), KeyLess);
    }

    method MarshalLocked() returns (b: bytes)
      requires Valid()
      modifies this
      ensures Valid() && Contents() == Indexed(old(Contents()))
      ensures b == Marshal(old(Contents()), AuthorHash(authorChecksum))
    {
      hide Unindexed, Print, LinesOf, String, Text;
      IndexedIsValid(Contents());
      IndexAll();
      var keys := KeysInOrder();
      b := WriteLines(keys, observationCache, AuthorHash(authorChecksum));
    }

    /** The keys sorted by their index are the keys in the order they were written. */
    method KeysInOrder() returns (keys: seq<HashType>)
      requires Valid() && Elems(order) == observationCache.Keys
      ensures keys == order
    {
      var index := observationOrder;
      var less := (a, b) => a in index && b in index && index[a] < index[b];
      assert StrictOrder(less, observationCache.Keys) by {
        forall a, b | a in Elems(order) && b in Elems(order) ensures a == b || less(a, b) || less(b, a) {
          var i :| 0 <= i < |order| && order[i] == a;
          var j :| 0 <= j < |order| && order[j] == b;
        }
      }
      keys := SortKeys(observationCache.Keys, less);
      SortedUnique(keys, order, less);
    }

    /** Reads what is on disk, keeps its own record of a key both have, and writes everything back. */
    method Persist(file: File) returns (panicked: bool)
      requires Valid()
      modifies this, file
      ensures Valid() && ObservationStore.Valid(Merged(path, old(Contents()), old(file.data)))
      ensures panicked == (ReadError(path, old(Contents()), old(file.data)) == Some(Panic))
      ensures (Contents(), file.data) ==
              Persisted(path, AuthorHash(authorChecksum), old(Contents()), old(file.data))
    {
      hide Unmarshal, Indexed, Marshal, ObservationStore.Valid;
      panicked := false;
      if file.data.Some? {
        var e := UnmarshalLocked(file.data.value);
        if e == Some(Panic) {
          return true;
        }
      }
      var b := MarshalLocked();
      file.data := Some(b);
    }
  }

  lemma IndexTarget(s: Store)
    requires ObservationStore.Valid(s)
    ensures var u := Unindexed(s);
            && Indexed(s) == s.(order := s.order + u)
            && Distinct(s.order + u)
            && forall i :: 0 <= i < |u| ==> u[i] in s.cache
  {
    IndexedIsValid(s);
    forall i | 0 <= i < |Unindexed(s)| ensures Unindexed(s)[i] in s.cache {
      assert Unindexed(s)[i] == Indexed(s).order[|s.order| + i];
    }
  }

  method WriteLines(keys: seq<HashType>, cache: map<HashType, Observation>, activeAuthor: bytes) returns (b: bytes)
    requires forall k :: 0 <= k < |keys| ==> keys[k] in cache
    ensures b == Print(LinesOf(cache, keys, activeAuthor))
  {
    hide Print;
    ghost var lines := LinesOf(cache, keys, activeAuthor);
    b := [];
    assert Print([]) == [] by { PrintNothing(); }
    var i := 0;
    while i < |keys|
      invariant 0 <= i <= |keys|
      invariant b == Print(lines[..i])
    {
      var line := RecordLine(keys[i], cache[keys[i]], activeAuthor);
      PrintOneMore(lines, i);
      b := b + line;
      i := i + 1;
    }
    assert lines[..i] == lines;
  }

  lemma PrintNothing()
    ensures Print([]) == []
  {}

  method RecordLine(h: HashType, o: Observation, activeAuthor: bytes) returns (line: bytes)
    ensures line == LineText(Line(h, o, activeAuthor)) + [NL]
  {
    hide EncodeMetadata, Flat;
    var answer := ReplaceNewlines(o.answer, DASH);
    var meta := EncodeMetadata(o.anchors, |answer|);
    var author := if o.author == [] then activeAuthor else o.author;
    line := author + [SPACE] + (String(h) + [SPACE] + (meta + [SPACE] + answer)) + [NL];
  }

  lemma NextOfDistinct(s: seq<HashType>, t: seq<HashType>)
    requires Distinct(s) && |t| < |s| && t == s[..|t|]
    ensures s[|t|] !in t && t + [s[|t|]] == s[..|t| + 1]
  {}

  lemma PrintOneMore(lines: seq<Line>, i: nat)
    requires i < |lines|
    ensures Print(lines[..i + 1]) == Print(lines[..i]) + (LineText(lines[i]) + [NL])
  {
    hide LineText;
    PrintAppend(lines[..i], [lines[i]]);
    assert lines[..i + 1] == lines[..i] + [lines[i]];
  }
}
