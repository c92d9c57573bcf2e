/** What a depth-first search visits: exactly the reachable vertices, each once, as the preorder of
    the tree of discoveries; and that stopping it early yields a prefix. */
module DfsTheorems {
  import opened Bytes
  import opened Dfs

  // ---------------------------------------------------------- preorder of a tree

  /** The tree of discoveries: each child was discovered from its parent. */
  datatype Tree = Node(visit: Visit, children: seq<Tree>)

  function Preorder(t: Tree): seq<Visit> {
    [t.visit] + PreorderAll(t.children)
  }

  function PreorderAll(ts: seq<Tree>): seq<Visit> {
    if ts == [] then [] else Preorder(ts[0]) + PreorderAll(ts[1..])
  }

  predicate IsChild(g: Graph, parent: Visit, child: Visit) {
    && child.parent == Some(parent.id) && child.depth == parent.depth + 1
    && child.id in Targets(g, parent.id) && child.via == Some(g.adj[parent.id][child.id])
  }

  predicate TreeOk(g: Graph, t: Tree) {
    && t.visit.id in g.vertices && t.visit.vertex == g.vertices[t.visit.id]
    && forall c | c in t.children :: IsChild(g, t.visit, c.visit) && TreeOk(g, c)
  }

  lemma {:induction false} PreorderAppend(a: seq<Tree>, b: seq<Tree>)
    ensures PreorderAll(a + b) == PreorderAll(a) + PreorderAll(b)
  {
    if a == [] {
      assert a + b == b;
    } else {
      assert (a + b)[1..] == a[1..] + b;
      PreorderAppend(a[1..], b);
    }
  }

  ghost predicate InGraph(g: Graph, todo: seq<Frame>) {
    forall i :: 0 <= i < |todo| ==> todo[i].id in g.vertices
  }

  // What a step of the search leaves on the stack.
  ghost function Next(g: Graph, order: Key -> seq<Key>, visited: set<Key>, todo: seq<Frame>): seq<Frame>
    requires Enumerates(order, g) && todo != []
  {
    ChildFrames(g, todo[0], Discovered(g, order, visited, todo[0].id)) + todo[1..]
  }

  lemma NextInGraph(g: Graph, order: Key -> seq<Key>, visited: set<Key>, todo: seq<Frame>)
    requires Enumerates(order, g) && Closed(g) && todo != [] && InGraph(g, todo)
    ensures InGraph(g, Next(g, order, visited, todo))
  {
    hide Unvisited;
    var cs := Discovered(g, order, visited, todo[0].id);
    forall i | 0 <= i < |cs| ensures cs[i] in g.vertices {
      assert cs[i] in cs;
    }
  }

  /** The visits of a search are the preorder of one tree per stack entry, top first. */
  lemma {:induction false} VisitsArePreorder(g: Graph, order: Key -> seq<Key>, visited: set<Key>, todo: seq<Frame>)
    returns (ts: seq<Tree>)
    requires Enumerates(order, g) && Closed(g) && InGraph(g, todo)
    ensures |ts| == |todo| && forall i :: 0 <= i < |ts| ==> ts[i].visit == VisitOf(g, todo[i]) && TreeOk(g, ts[i])
    ensures Traverse(g, order, visited, todo) == (PreorderAll(ts), false)
    decreases AllKeys(g) - visited, |todo|
  {
    hide Enumerates, Closed, Discovered, TreeOk;
    if todo == [] {
      ts := [];
    } else {
      var f, cs := todo[0], Discovered(g, order, visited, todo[0].id);
      DiscoveredShrinks(g, order, visited, f.id);
      NextInGraph(g, order, visited, todo);
      var next := Next(g, order, visited, todo);
      var rest := VisitsArePreorder(g, order, visited + Elems(cs), next);
      var t := Node(VisitOf(g, f), rest[..|cs|]);
      forall i | 0 <= i < |cs| ensures rest[i].visit == VisitOf(g, ChildFrame(g, f, cs[i])) {
        assert next[i] == ChildFrame(g, f, cs[i]);
      }
      NodeIsOk(g, f, cs, t);
      ts := [t] + rest[|cs|..];
      JoinTrees(t, rest, |cs|);
    }
  }

  lemma NodeIsOk(g: Graph, f: Frame, cs: seq<Key>, t: Tree)
    requires f.id in g.vertices && t.visit == VisitOf(g, f) && |t.children| == |cs|
    requires forall c | c in cs :: c in Targets(g, f.id) && c in g.vertices
    requires forall i :: 0 <= i < |cs| ==>
               t.children[i].visit == VisitOf(g, ChildFrame(g, f, cs[i])) && TreeOk(g, t.children[i])
    ensures TreeOk(g, t)
  {
    forall c | c in t.children ensures IsChild(g, t.visit, c.visit) && TreeOk(g, c) {
      var i :| 0 <= i < |t.children| && t.children[i] == c;
      assert cs[i] in cs;
    }
  }

  lemma JoinTrees(t: Tree, rest: seq<Tree>, n: nat)
    requires n <= |rest| && t.children == rest[..n]
    ensures PreorderAll([t] + rest[n..]) == [t.visit] + PreorderAll(rest)
  {
    assert ([t] + rest[n..])[1..] == rest[n..];
    PreorderAppend(rest[..n], rest[n..]);
    assert rest == rest[..n] + rest[n..];
  }

  // ------------------------------------------------------------- each vertex once

  ghost predicate IdsDistinct(visits: seq<Visit>) {
    forall i, j :: 0 <= i < j < |visits| ==> visits[i].id != visits[j].id
  }

  ghost predicate FramesDistinct(todo: seq<Frame>) {
    forall i, j :: 0 <= i < j < |todo| ==> todo[i].id != todo[j].id
  }

  ghost function Ids(visits: seq<Visit>): set<Key> { set i | 0 <= i < |visits| :: visits[i].id }

  ghost function FrameIds(todo: seq<Frame>): set<Key> { set i | 0 <= i < |todo| :: todo[i].id }

  ghost predicate KeysDistinct(ks: seq<Key>) {
    forall i, j :: 0 <= i < j < |ks| ==> ks[i] != ks[j]
  }

  lemma {:induction false} UnvisitedIsDistinct(ks: seq<Key>, visited: set<Key>)
    requires KeysDistinct(ks)
    ensures KeysDistinct(Unvisited(ks, visited))
  {
    if ks != [] {
      UnvisitedIsDistinct(ks[1..], visited);
      assert forall m :: 0 <= m < |ks[1..]| ==> ks[1..][m] == ks[m + 1];
      assert ks[0] !in ks[1..];
      var r := Unvisited(ks[1..], visited);
      forall j | 0 <= j < |r| ensures r[j] != ks[0] {
        assert r[j] in r;
      }
    }
  }

  lemma DiscoveredIsDistinct(g: Graph, order: Key -> seq<Key>, visited: set<Key>, k: Key)
    requires Enumerates(order, g)
    ensures KeysDistinct(Discovered(g, order, visited, k))
  {
    if k in g.adj {
      var ks := order(k);
      assert forall i, j :: 0 <= i < j < |ks| ==> ks[i] != ks[j];
      UnvisitedIsDistinct(ks, visited);
      assert Discovered(g, order, visited, k) == Unvisited(ks, visited);
    }
  }

  lemma NextFrames(g: Graph, order: Key -> seq<Key>, visited: set<Key>, todo: seq<Frame>)
    requires Enumerates(order, g) && todo != [] && FramesDistinct(todo) && FrameIds(todo) <= visited
    ensures var next, cs := Next(g, order, visited, todo), Discovered(g, order, visited, todo[0].id);
            && FramesDistinct(next) && FrameIds(next) == Elems(cs) + (FrameIds(todo) - {todo[0].id})
  {
    hide Enumerates, Discovered;
    var f, cs, next := todo[0], Discovered(g, order, visited, todo[0].id), Next(g, order, visited, todo);
    DiscoveredIsDistinct(g, order, visited, f.id);
    forall i | 0 <= i < |cs| ensures next[i].id == cs[i] && cs[i] !in visited {
      assert cs[i] in cs;
    }
    forall j | |cs| <= j < |next| ensures next[j] == todo[j - |cs| + 1] && next[j].id in visited {
      assert todo[j - |cs| + 1].id in FrameIds(todo);
    }
    assert forall c | c in cs :: exists i :: 0 <= i < |cs| && next[i].id == c;
    forall k | k in FrameIds(todo) - {f.id} ensures k in FrameIds(next) {
      var i :| 0 <= i < |todo| && todo[i].id == k;
      assert next[|cs| + i - 1] == todo[i];
    }
  }

  /** No vertex is visited twice; every stack entry is visited; all other visits are of vertices that
      were not marked yet; and all children of a visited vertex are marked or visited. */
  lemma {:induction false} VisitsOnce(g: Graph, order: Key -> seq<Key>, visited: set<Key>, todo: seq<Frame>)
    requires Enumerates(order, g) && Closed(g) && InGraph(g, todo)
    requires FramesDistinct(todo) && FrameIds(todo) <= visited
    ensures var visits := Traverse(g, order, visited, todo).0;
            && IdsDistinct(visits)
            && FrameIds(todo) <= Ids(visits)
            && Ids(visits) * visited == FrameIds(todo)
            && forall k, c | k in Ids(visits) && c in Targets(g, k) :: c in visited + Ids(visits)
    decreases AllKeys(g) - visited, |todo|
  {
    hide Enumerates, Closed, Discovered, ChildFrames, VisitOf;
    if todo != [] {
      var f, cs := todo[0], Discovered(g, order, visited, todo[0].id);
      DiscoveredShrinks(g, order, visited, f.id);
      NextInGraph(g, order, visited, todo);
      NextFrames(g, order, visited, todo);
      VisitsOnce(g, order, visited + Elems(cs), Next(g, order, visited, todo));
      var later := Traverse(g, order, visited + Elems(cs), Next(g, order, visited, todo)).0;
      VisitFirst(g, f, cs, visited, todo, later);
    }
  }

  lemma VisitFirst(g: Graph, f: Frame, cs: seq<Key>, visited: set<Key>, todo: seq<Frame>, later: seq<Visit>)
    requires f.id in g.vertices && todo != [] && f == todo[0] && FrameIds(todo) <= visited
    requires forall c | c in cs :: c !in visited
    requires forall c | c in Targets(g, f.id) && c !in visited :: c in cs
    requires IdsDistinct(later)
    requires Elems(cs) + (FrameIds(todo) - {f.id}) <= Ids(later)
    requires Ids(later) * (visited + Elems(cs)) == Elems(cs) + (FrameIds(todo) - {f.id})
    requires forall k, c | k in Ids(later) && c in Targets(g, k) :: c in visited + Elems(cs) + Ids(later)
    ensures var visits := [VisitOf(g, f)] + later;
            && IdsDistinct(visits)
            && FrameIds(todo) <= Ids(visits)
            && Ids(visits) * visited == FrameIds(todo)
            && forall k, c | k in Ids(visits) && c in Targets(g, k) :: c in visited + Ids(visits)
  {
    var visits := [VisitOf(g, f)] + later;
    IdsCons(VisitOf(g, f), later);
    assert f.id in FrameIds(todo);
    assert f.id !in Ids(later);
    forall j | 0 <= j < |later| ensures later[j].id != f.id {
      assert later[j].id in Ids(later);
    }
    assert f.id !in Elems(cs);
    forall k, c | k in Ids(visits) && c in Targets(g, k) ensures c in visited + Ids(visits) {
      if k == f.id {
        assert c in visited || c in Elems(cs);
      } else {
        assert k in Ids(later) && c in visited + Elems(cs) + Ids(later);
      }
      assert c in Elems(cs) ==> c in Elems(cs) + (FrameIds(todo) - {f.id});
    }
  }

  lemma IdsCons(v: Visit, later: seq<Visit>)
    ensures Ids([v] + later) == {v.id} + Ids(later)
  {
    var visits := [v] + later;
    forall k | k in Ids(later) ensures k in Ids(visits) {
      var i :| 0 <= i < |later| && later[i].id == k;
      assert visits[i + 1].id == k;
    }
    assert visits[0] == v;
  }

  // --------------------------------------------------------------- reachability

  ghost predicate IsPath(g: Graph, p: seq<Key>) {
    p != [] && forall i :: 0 <= i < |p| - 1 ==> p[i + 1] in Targets(g, p[i])
  }

  ghost predicate Reaches(g: Graph, a: Key, b: Key) {
    exists p :: IsPath(g, p) && p[0] == a && p[|p| - 1] == b
  }

  lemma ReachesSelf(g: Graph, a: Key)
    ensures Reaches(g, a, a)
  {
    assert IsPath(g, [a]);
  }

  lemma ReachesOneMore(g: Graph, a: Key, b: Key, c: Key)
    requires Reaches(g, a, b) && c in Targets(g, b)
    ensures Reaches(g, a, c)
  {
    var p :| IsPath(g, p) && p[0] == a && p[|p| - 1] == b;
    assert IsPath(g, p + [c]);
    assert (p + [c])[|p + [c]| - 1] == c;
  }

  lemma {:induction false} TreeIsReachable(g: Graph, t: Tree, start: Key, v: Visit)
    requires TreeOk(g, t) && Reaches(g, start, t.visit.id) && v in Preorder(t)
    ensures Reaches(g, start, v.id)
    decreases t, 0
  {
    hide Reaches;
    if v != t.visit {
      assert v in PreorderAll(t.children);
      forall c | c in t.children ensures Reaches(g, start, c.visit.id) {
        ReachesOneMore(g, start, t.visit.id, c.visit.id);
      }
      ForestIsReachable(g, t.children, start, v);
    }
  }

  lemma {:induction false} ForestIsReachable(g: Graph, ts: seq<Tree>, start: Key, v: Visit)
    requires forall t | t in ts :: TreeOk(g, t) && Reaches(g, start, t.visit.id)
    requires v in PreorderAll(ts)
    ensures Reaches(g, start, v.id)
    decreases ts
  {
    hide Reaches, TreeOk;
    if v in Preorder(ts[0]) {
      TreeIsReachable(g, ts[0], start, v);
    } else {
      ForestIsReachable(g, ts[1..], start, v);
    }
  }

  lemma {:induction false} ClosedSetHoldsPath(g: Graph, ids: set<Key>, p: seq<Key>)
    requires IsPath(g, p) && p[0] in ids
    requires forall k, c | k in ids && c in Targets(g, k) :: c in ids
    ensures p[|p| - 1] in ids
  {
    if |p| > 1 {
      var q := p[..|p| - 1];
      assert p[|p| - 1] in Targets(g, q[|q| - 1]);
      ClosedSetHoldsPath(g, ids, q);
    }
  }

  // -------------------------------------------------------------------- theorems

  ghost function Search(g: Graph, order: Key -> seq<Key>, start: Key): (seq<Visit>, bool)
    requires Enumerates(order, g)
  {
    Traverse(g, order, {start}, [Root(start)])
  }

  /** Whatever the order of the children, a search fails if and only if it starts at a key that is no
      vertex, before its first visit; otherwise it visits exactly the vertices that can be reached from
      the start, each once. */
  lemma SearchVisitsReachable(g: Graph, order: Key -> seq<Key>, start: Key)
    requires Enumerates(order, g) && Closed(g)
    ensures var (visits, failed) := Search(g, order, start);
            && IdsDistinct(visits)
            && (failed <==> start !in g.vertices)
            && if failed then visits == [] else forall k :: k in Ids(visits) <==> Reaches(g, start, k)
  {
    if start !in g.vertices {
      UnknownStart(g, order, start);
    } else {
      VertexVisitsReachable(g, order, start);
    }
  }

  lemma VertexVisitsReachable(g: Graph, order: Key -> seq<Key>, start: Key)
    requires Enumerates(order, g) && Closed(g) && start in g.vertices
    ensures var (visits, failed) := Search(g, order, start);
            && !failed && IdsDistinct(visits)
            && forall k :: k in Ids(visits) <==> Reaches(g, start, k)
  {
    hide Traverse, Reaches, TreeOk, PreorderAll, Enumerates, Closed;
    var todo := [Root(start)];
    assert todo[0].id == start;
    assert FrameIds(todo) == {start};
    VisitsOnce(g, order, {start}, todo);
    var visits := Search(g, order, start).0;
    var ts := VisitsArePreorder(g, order, {start}, todo);
    ReachesSelf(g, start);
    forall k ensures k in Ids(visits) <==> Reaches(g, start, k) {
      if k in Ids(visits) {
        var i :| 0 <= i < |visits| && visits[i].id == k;
        assert visits[i] in PreorderAll(ts);
        ForestIsReachable(g, ts, start, visits[i]);
      }
      if Reaches(g, start, k) {
        assert start in Ids(visits) && {start} + Ids(visits) == Ids(visits);
        ReachableIsVisited(g, Ids(visits), start, k);
      }
    }
  }

  lemma ReachableIsVisited(g: Graph, ids: set<Key>, start: Key, k: Key)
    requires Reaches(g, start, k) && start in ids
    requires forall k, c | k in ids && c in Targets(g, k) :: c in ids
    ensures k in ids
  {
    var p :| IsPath(g, p) && p[0] == start && p[|p| - 1] == k;
    ClosedSetHoldsPath(g, ids, p);
  }

  /** The visits are the preorder of one tree, rooted at the start, in which every child hangs on its
      parent by an edge of the graph and is one deeper. */
  lemma SearchIsPreorder(g: Graph, order: Key -> seq<Key>, start: Key) returns (t: Tree)
    requires Enumerates(order, g) && Closed(g) && start in g.vertices
    ensures Search(g, order, start).0 == Preorder(t)
    ensures TreeOk(g, t) && t.visit == Visit(start, g.vertices[start], None, 0, None)
  {
    hide TreeOk, Traverse;
    var ts := VisitsArePreorder(g, order, {start}, [Root(start)]);
    t := ts[0];
    assert ts[1..] == [];
    assert Preorder(t) + [] == Preorder(t);
  }

  /** Every visit but the first has its parent among the visits before it, over the edge it names. */
  lemma {:induction false} ParentComesFirst(g: Graph, t: Tree, i: nat) returns (p: nat)
    requires TreeOk(g, t) && 0 < i < |Preorder(t)|
    ensures p < i && IsChild(g, Preorder(t)[p], Preorder(t)[i])
    decreases t, 0
  {
    hide IsChild;
    var later := PreorderAll(t.children);
    assert Preorder(t)[i] == later[i - 1];
    var root;
    root, p := ParentInForest(g, t, t.children, i - 1);
    if root {
      p := 0;
    } else {
      p := p + 1;
      assert Preorder(t)[p] == later[p - 1];
    }
  }

  lemma {:induction false} ParentInForest(g: Graph, parent: Tree, ts: seq<Tree>, i: nat) returns (root: bool, p: nat)
    requires forall c | c in ts :: IsChild(g, parent.visit, c.visit) && TreeOk(g, c)
    requires i < |PreorderAll(ts)|
    ensures root ==> IsChild(g, parent.visit, PreorderAll(ts)[i])
    ensures !root ==> p < i && IsChild(g, PreorderAll(ts)[p], PreorderAll(ts)[i])
    decreases ts
  {
    hide IsChild, TreeOk;
    var n := |Preorder(ts[0])|;
    p := 0;
    if i == 0 {
      assert PreorderAll(ts)[0] == ts[0].visit;
      root := true;
    } else if i < n {
      root := false;
      p := ParentComesFirst(g, ts[0], i);
      assert PreorderAll(ts)[i] == Preorder(ts[0])[i] && PreorderAll(ts)[p] == Preorder(ts[0])[p];
    } else {
      root, p := ParentInForest(g, parent, ts[1..], i - n);
      p := if root then 0 else p + n;
      assert PreorderAll(ts)[i] == PreorderAll(ts[1..])[i - n];
      assert !root ==> PreorderAll(ts)[p] == PreorderAll(ts[1..])[p - n];
    }
  }

  /** A search from a key that is no vertex fails before the first visit. */
  lemma UnknownStart(g: Graph, order: Key -> seq<Key>, start: Key)
    requires Enumerates(order, g) && start !in g.vertices
    ensures Search(g, order, start) == ([], true)
  {}

  /** What a caller sees is a prefix of the full search: all of it if the caller never stops, and
      otherwise everything up to and including the first visit it stops at. */
  lemma {:induction false} ObservedIsPrefix(visits: seq<Visit>, failed: bool, visit: Visit -> Answer)
    ensures var (seen, result) := Observed(visits, failed, visit);
            IsPrefixSeen(visits, failed, visit, seen, result)
  {
    if visits != [] && visit(visits[0]) == Continue {
      var (later, result) := Observed(visits[1..], failed, visit);
      ObservedIsPrefix(visits[1..], failed, visit);
      SeenOneMore(visits, failed, visit, later, result);
    }
  }

  ghost predicate IsPrefixSeen(visits: seq<Visit>, failed: bool, visit: Visit -> Answer,
                               seen: seq<Visit>, result: Outcome) {
    && seen <= visits
    && (forall i :: 0 <= i < |seen| - 1 ==> visit(seen[i]) == Continue)
    && if seen != [] && visit(seen[|seen| - 1]) != Continue then
         result == match visit(seen[|seen| - 1]) case Fail(e) => Failed(e) case _ => Finished
       else
         seen == visits && result == if failed then NotFound else Finished
  }

  lemma SeenOneMore(visits: seq<Visit>, failed: bool, visit: Visit -> Answer, later: seq<Visit>, result: Outcome)
    requires visits != [] && visit(visits[0]) == Continue
    requires IsPrefixSeen(visits[1..], failed, visit, later, result)
    ensures IsPrefixSeen(visits, failed, visit, [visits[0]] + later, result)
  {
    var seen := [visits[0]] + later;
    assert visits == [visits[0]] + visits[1..];
    assert seen[|seen| - 1] == if later == [] then visits[0] else later[|later| - 1];
    assert forall i :: 1 <= i < |seen| ==> seen[i] == later[i - 1];
  }
}
