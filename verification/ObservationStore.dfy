/** The observation store as a value: observations by key, and the keys in the order they were
    first written; how a file is read into it and written from it. */
module ObservationStore {
  import opened Bytes
  import opened Hash
  import opened Metadata
  import opened Records
  import opened Keys

  // order lists the indexed keys; keys put into the cache directly are not indexed until a write.
  datatype Store = Store(cache: map<HashType, Observation>, order: seq<HashType>)

  const EMPTY: Store := Store(map[], [])

  ghost predicate Valid(s: Store) {
    Distinct(s.order) && Elems(s.order) <= s.cache.Keys
  }

  predicate AllWellFormed(s: Store) { forall h | h in s.cache :: WellFormed(s.cache[h]) }

  function Set(s: Store, h: HashType, o: Observation): Store {
    Store(s.cache[h := o], if h in s.order then s.order else s.order + [h])
  }

  // The first record of a key wins.
  function Merge(s: Store, h: HashType, o: Observation): Store {
    if h in s.cache then s else Set(s, h, o)
  }

  // ------------------------------------------------------------------ reading

  predicate Blank(s: bytes) {
    s == [] || (SpaceWidth(s) > 0 && Blank(s[SpaceWidth(s)..]))
  }

  function TrimNewlines(s: bytes): (r: bytes)
    ensures |r| <= |s|
  {
    if s != [] && s[0] == NL then TrimNewlines(s[1..]) else s
  }

  /** Reads records until only white space is left. What was read before an error stays. */
  function Unmarshal(workspace: bytes, s: Store, data: bytes): (Store, Option<Failure>)
    decreases |data|
  {
    if Blank(data) then (s, None)
    else
      match ParseRecord(workspace, TrimNewlines(data))
      case Err(e) => (s, Some(e))
      case Ok(p) => Unmarshal(workspace, Merge(s, p.h, p.o), p.rest)
  }

  // ------------------------------------------------------------------ writing

  /** One line of a store file. */
  datatype Line = Line(h: HashType, o: Observation, active: bytes)

  function LineText(l: Line): bytes { Text(l.h, l.o, l.active) }

  function Print(lines: seq<Line>): bytes {
    if lines == [] then [] else LineText(lines[0]) + [NL] + Print(lines[1..])
  }

  ghost predicate PrintableLines(lines: seq<Line>) {
    forall k :: 0 <= k < |lines| ==> WellFormed(lines[k].o) && IsStamp(lines[k].active)
  }

  /** The keys not yet indexed, in the order of their texts. */
  ghost predicate IsUnindexed(s: Store, u: seq<HashType>) {
    Sorted(u, KeyLess) && Elems(u) == s.cache.Keys - Elems(s.order)
  }

  lemma UnindexedExists(keys: set<HashType>) returns (u: seq<HashType>)
    ensures Sorted(u, KeyLess) && Elems(u) == keys
  {
    if keys == {} {
      u := [];
    } else {
      var k :| k in keys;
      var rest := UnindexedExists(keys - {k});
      KeyLessIsStrictOrder(keys);
      assert Elems(rest) + {k} == keys;
      InsertKeySorted(rest, k, KeyLess);
      u := InsertKey(rest, k, KeyLess);
    }
  }

  ghost function Unindexed(s: Store): (u: seq<HashType>)
    ensures IsUnindexed(s, u)
  {
    assert exists u :: IsUnindexed(s, u) by {
      var u := UnindexedExists(s.cache.Keys - Elems(s.order));
      assert IsUnindexed(s, u);
    }
    var u :| IsUnindexed(s, u);
    u
  }

  /** Writing indexes every key. */
  ghost function Indexed(s: Store): Store { s.(order := s.order + Unindexed(s)) }

  function LinesOf(cache: map<HashType, Observation>, order: seq<HashType>, active: bytes): (lines: seq<Line>)
    requires forall k :: 0 <= k < |order| ==> order[k] in cache
    ensures |lines| == |order|
    ensures forall k :: 0 <= k < |order| ==> lines[k] == Line(order[k], cache[order[k]], active)
  {
    seq(|order|, i requires 0 <= i < |order| => Line(order[i], cache[order[i]], active))
  }

  lemma IndexedIsValid(s: Store)
    requires Valid(s)
    ensures Valid(Indexed(s)) && Elems(Indexed(s).order) == s.cache.Keys
    ensures forall k :: 0 <= k < |Indexed(s).order| ==> Indexed(s).order[k] in s.cache
  {
    var u := Unindexed(s);
    KeyLessIsStrictOrder(Elems(u));
    forall i, j | 0 <= i < j < |u| ensures u[i] != u[j] {
      assert KeyLess(u[i], u[j]) && u[i] in Elems(u);
    }
    var t := s.order + u;
    forall i, j | 0 <= i < |s.order| <= j < |t| ensures t[i] != t[j] {
      assert t[i] in Elems(s.order) && t[j] in Elems(u);
    }
    assert Elems(t) == Elems(s.order) + Elems(u);
    forall k | 0 <= k < |t| ensures t[k] in s.cache {
      assert t[k] in Elems(t);
    }
  }

  /** The lines a store is written as, in the order of its keys. */
  ghost function StoreLines(s: Store, active: bytes): (lines: seq<Line>)
    requires Valid(s)
  {
    IndexedIsValid(s);
    LinesOf(s.cache, Indexed(s).order, active)
  }

  ghost function Marshal(s: Store, active: bytes): bytes
    requires Valid(s)
  {
    Print(StoreLines(s, active))
  }
}
