/** Sorting observation keys: by their text, and by the index they were written under. */
module Keys {
  import opened Bytes
  import opened Hash

  ghost predicate Distinct<T>(s: seq<T>) { forall i, j :: 0 <= i < j < |s| ==> s[i] != s[j] }

  // Go's < on strings.
  predicate TextLess(a: bytes, b: bytes) {
    if b == [] then false
    else if a == [] then true
    else a[0] < b[0] || (a[0] == b[0] && TextLess(a[1..], b[1..]))
  }

  predicate KeyLess(a: HashType, b: HashType) { TextLess(String(a), String(b)) }

  /** The lexicographic order: a text comes before its continuations, and before a text with a larger byte at
      the first difference. */
  lemma {:induction false} TextLessExactly(a: bytes, b: bytes)
    ensures TextLess(a, b) <==> a < b || exists k :: IsFirstDifference(a, b, k) && a[k] < b[k]
  {
    if a == [] || b == [] {
      assert !exists k :: IsFirstDifference(a, b, k);
    } else if a[0] != b[0] {
      assert IsFirstDifference(a, b, 0);
    } else {
      TextLessExactly(a[1..], b[1..]);
      assert a == [a[0]] + a[1..] && b == [b[0]] + b[1..];
      forall k ensures IsFirstDifference(a, b, k) <==> IsFirstDifference(a[1..], b[1..], k - 1) {
        if k > 0 && k <= |a| && k <= |b| {
          assert a[..k] == [a[0]] + a[1..][..k - 1] && b[..k] == [b[0]] + b[1..][..k - 1];
        }
      }
      assert forall k :: IsFirstDifference(a[1..], b[1..], k) ==> IsFirstDifference(a, b, k + 1);
    }
  }

  predicate IsFirstDifference(a: bytes, b: bytes, k: int) {
    0 <= k < |a| && k < |b| && a[..k] == b[..k] && a[k] != b[k]
  }

  lemma {:induction false} TextLessTrichotomy(a: bytes, b: bytes)
    ensures a == b || TextLess(a, b) || TextLess(b, a)
    ensures !(TextLess(a, b) && TextLess(b, a)) && !TextLess(a, a)
  {
    if a != [] && b != [] && a[0] == b[0] {
      TextLessTrichotomy(a[1..], b[1..]);
      assert a == [a[0]] + a[1..] && b == [b[0]] + b[1..];
    }
    TextLessIrreflexive(a);
  }

  lemma {:induction false} TextLessIrreflexive(a: bytes)
    ensures !TextLess(a, a)
  {
    if a != [] {
      TextLessIrreflexive(a[1..]);
    }
  }

  lemma {:induction false} TextLessTransitive(a: bytes, b: bytes, c: bytes)
    requires TextLess(a, b) && TextLess(b, c)
    ensures TextLess(a, c)
  {
    if a != [] && a[0] == b[0] == c[0] {
      TextLessTransitive(a[1..], b[1..], c[1..]);
    }
  }

  ghost predicate Sorted(s: seq<HashType>, less: (HashType, HashType) -> bool) {
    forall i, j :: 0 <= i < j < |s| ==> less(s[i], s[j])
  }

  ghost predicate StrictOrder(less: (HashType, HashType) -> bool, keys: set<HashType>) {
    && (forall a | a in keys :: !less(a, a))
    && (forall a, b | a in keys && b in keys :: a == b || less(a, b) || less(b, a))
    && (forall a, b, c | a in keys && b in keys && c in keys && less(a, b) && less(b, c) :: less(a, c))
  }

  lemma KeyLessIsStrictOrder(keys: set<HashType>)
    ensures StrictOrder(KeyLess, keys)
  {
    hide TextLess, String;
    forall a, b ensures !KeyLess(a, a) && (a == b || KeyLess(a, b) || KeyLess(b, a)) {
      TextLessTrichotomy(String(a), String(a));
      TextLessTrichotomy(String(a), String(b));
      if String(a) == String(b) {
        StringInjective(a, b);
      }
    }
    forall a, b, c | KeyLess(a, b) && KeyLess(b, c) ensures KeyLess(a, c) {
      TextLessTransitive(String(a), String(b), String(c));
    }
  }

  /** Sorting leaves no choice: two sorted lists of the same keys are the same list. */
  lemma {:induction false} SortedUnique(s: seq<HashType>, t: seq<HashType>, less: (HashType, HashType) -> bool)
    requires StrictOrder(less, Elems(s)) && Elems(s) == Elems(t)
    requires Sorted(s, less) && Sorted(t, less)
    ensures s == t
  {
    NoElems(s);
    NoElems(t);
    if s != [] {
      FirstIsLeast(s, t, less);
      DropFirst(s, less);
      DropFirst(t, less);
      TailSorted(s, less);
      TailSorted(t, less);
      hide Elems, StrictOrder, Sorted;
      assert Elems(s[1..]) == Elems(t[1..]);
      SortedUnique(s[1..], t[1..], less);
      assert s == [s[0]] + s[1..] && t == [t[0]] + t[1..];
    }
  }

  lemma NoElems(s: seq<HashType>)
    ensures Elems(s) == {} <==> s == []
  {
    if s != [] {
      assert s[0] in Elems(s);
    }
  }

  lemma TailSorted(s: seq<HashType>, less: (HashType, HashType) -> bool)
    requires s != [] && Sorted(s, less) && StrictOrder(less, Elems(s))
    ensures Sorted(s[1..], less) && StrictOrder(less, Elems(s[1..]))
  {
    forall i, j | 0 <= i < j < |s[1..]| ensures less(s[1..][i], s[1..][j]) {
      assert s[1..][i] == s[i + 1] && s[1..][j] == s[j + 1];
    }
    assert Elems(s[1..]) <= Elems(s);
  }

  lemma DropFirst(s: seq<HashType>, less: (HashType, HashType) -> bool)
    requires s != [] && Sorted(s, less) && StrictOrder(less, Elems(s))
    ensures Elems(s[1..]) == Elems(s) - {s[0]}
  {
    assert s == [s[0]] + s[1..];
    assert forall k :: 1 <= k < |s| ==> s[k] in Elems(s) && s[k] != s[0];
    assert forall x :: x in s[1..] ==> x in s;
    forall x | x in s[1..] ensures x != s[0] {
      var k :| 0 <= k < |s[1..]| && s[1..][k] == x;
      assert s[k + 1] == x;
    }
  }

  lemma FirstBefore(s: seq<HashType>, k: nat, less: (HashType, HashType) -> bool)
    requires k < |s| && Sorted(s, less)
    ensures s[k] == s[0] || less(s[0], s[k])
  {}

  lemma FirstIsLeast(s: seq<HashType>, t: seq<HashType>, less: (HashType, HashType) -> bool)
    requires StrictOrder(less, Elems(s)) && Elems(s) == Elems(t) && s != [] && t != []
    requires Sorted(s, less) && Sorted(t, less)
    ensures s[0] == t[0]
  {
    assert s[0] in Elems(t) && t[0] in Elems(s);
    var i :| 0 <= i < |t| && t[i] == s[0];
    var j :| 0 <= j < |s| && s[j] == t[0];
    FirstBefore(s, j, less);
    FirstBefore(t, i, less);
  }

  function InsertKey(s: seq<HashType>, k: HashType, less: (HashType, HashType) -> bool): seq<HashType> {
    if s == [] then [k]
    else if less(k, s[0]) then [k] + s
    else [s[0]] + InsertKey(s[1..], k, less)
  }

  lemma ConsSorted(x: HashType, s: seq<HashType>, less: (HashType, HashType) -> bool)
    requires Sorted(s, less) && forall y | y in Elems(s) :: less(x, y)
    ensures Sorted([x] + s, less) && Elems([x] + s) == {x} + Elems(s)
  {
    forall j | 0 <= j < |s| ensures less(x, s[j]) {
      assert s[j] in Elems(s);
    }
  }

  lemma TailIsGreater(s: seq<HashType>, less: (HashType, HashType) -> bool)
    requires s != [] && Sorted(s, less)
    ensures Sorted(s[1..], less) && Elems(s) == {s[0]} + Elems(s[1..])
    ensures forall y | y in Elems(s[1..]) :: less(s[0], y)
  {
    forall y | y in Elems(s[1..]) ensures less(s[0], y) {
      var j :| 0 <= j < |s[1..]| && s[1..][j] == y;
      assert s[j + 1] == y;
    }
    assert s == [s[0]] + s[1..];
  }

  /** Inserting a new key keeps a list sorted. */
  lemma {:induction false} InsertKeySorted(s: seq<HashType>, k: HashType, less: (HashType, HashType) -> bool)
    requires k !in Elems(s) && StrictOrder(less, Elems(s) + {k}) && Sorted(s, less)
    ensures Sorted(InsertKey(s, k, less), less) && Elems(InsertKey(s, k, less)) == Elems(s) + {k}
  {
    if s != [] {
      TailIsGreater(s, less);
      if less(k, s[0]) {
        ConsSorted(k, s, less);
      } else {
        InsertKeySorted(s[1..], k, less);
        ConsSorted(s[0], InsertKey(s[1..], k, less), less);
      }
    }
  }

  /** sort.Slice over a set of distinct keys. */
  method SortKeys(keys: set<HashType>, less: (HashType, HashType) -> bool) returns (r: seq<HashType>)
    requires StrictOrder(less, keys)
    ensures Sorted(r, less) && Elems(r) == keys
  {
    r := [];
    var rest := keys;
    while rest != {}
      invariant rest <= keys && Elems(r) == keys - rest && Sorted(r, less)
      decreases rest
    {
      var k :| k in rest;
      assert Elems(r) + {k} <= keys;
      assert k !in Elems(r);
      InsertKeySorted(r, k, less);
      r := InsertKey(r, k, less);
      rest := rest - {k};
    }
  }
}
