/** In which order a depth-first search visits: every vertex is discovered from the earliest visited vertex
    that has an edge to it, and the vertices discovered from one vertex are visited in its order. */
module DfsOrder {
  import opened Bytes
  import opened Dfs
  import opened DfsTheorems

  /** Visit p is the earliest one with an edge to the vertex of visit i, and its parent. */
  ghost predicate IsDiscoverer(g: Graph, visits: seq<Visit>, p: nat, i: nat) {
    && p < i < |visits|
    && visits[i].parent == Some(visits[p].id) && visits[i].id in Targets(g, visits[p].id)
    && forall j :: 0 <= j < p ==> visits[i].id !in Targets(g, visits[j].id)
  }

  ghost predicate HasDiscoverer(g: Graph, visits: seq<Visit>, i: nat) {
    exists p: nat :: IsDiscoverer(g, visits, p, i)
  }

  ghost predicate Before(ks: seq<Key>, a: Key, b: Key) {
    exists m, n :: 0 <= m < n < |ks| && ks[m] == a && ks[n] == b
  }

  ghost predicate GoodStack(g: Graph, visited: set<Key>, todo: seq<Frame>) {
    InGraph(g, todo) && FramesDistinct(todo) && FrameIds(todo) <= visited
  }

  // One step of a search: what is visited later, and what is known of it.
  lemma Unroll(g: Graph, order: Key -> seq<Key>, visited: set<Key>, todo: seq<Frame>) returns (later: seq<Visit>)
    requires Enumerates(order, g) && Closed(g) && GoodStack(g, visited, todo) && todo != []
    ensures var f, cs := todo[0], Discovered(g, order, visited, todo[0].id);
            && f.id in g.vertices
            && later == Traverse(g, order, visited + Elems(cs), Next(g, order, visited, todo)).0
            && Traverse(g, order, visited, todo).0 == [VisitOf(g, f)] + later
            && GoodStack(g, visited + Elems(cs), Next(g, order, visited, todo))
            && f.id !in Ids(later)
  {
    hide Enumerates, Closed, Discovered, ChildFrames, VisitOf;
    var f, cs := todo[0], Discovered(g, order, visited, todo[0].id);
    NextInGraph(g, order, visited, todo);
    NextFrames(g, order, visited, todo);
    later := Traverse(g, order, visited + Elems(cs), Next(g, order, visited, todo)).0;
    VisitsOnce(g, order, visited + Elems(cs), Next(g, order, visited, todo));
    assert f.id in FrameIds(todo);
    assert f.id !in cs;
  }

  /** What is visited at the id of a frame has the frame's parent, and frames are visited top first. */
  ghost predicate FollowsStack(visits: seq<Visit>, todo: seq<Frame>) {
    && (forall i, a | 0 <= i < |visits| && 0 <= a < |todo| && visits[i].id == todo[a].id ::
          visits[i].parent == todo[a].parent)
    && (forall i, j, a, b | 0 <= i < |visits| && 0 <= j < |visits| && 0 <= a < b < |todo|
            && visits[i].id == todo[a].id && visits[j].id == todo[b].id :: i < j)
  }

  lemma {:induction false} FramesInOrder(g: Graph, order: Key -> seq<Key>, visited: set<Key>, todo: seq<Frame>)
    requires Enumerates(order, g) && Closed(g) && GoodStack(g, visited, todo)
    ensures FollowsStack(Traverse(g, order, visited, todo).0, todo)
    decreases AllKeys(g) - visited, |todo|
  {
    hide Enumerates, Closed, Discovered, GoodStack, Traverse;
    if todo != [] {
      var cs := Discovered(g, order, visited, todo[0].id);
      var later := Unroll(g, order, visited, todo);
      DiscoveredShrinks(g, order, visited, todo[0].id);
      FramesInOrder(g, order, visited + Elems(cs), Next(g, order, visited, todo));
      FirstFrame(g, order, visited, todo, later);
    }
  }

  // Behind the top frame, what is visited and what was on the stack are both one place further on.
  lemma Shifted(g: Graph, order: Key -> seq<Key>, visited: set<Key>, todo: seq<Frame>, later: seq<Visit>,
                i: nat, a: nat)
    requires Enumerates(order, g) && GoodStack(g, visited, todo) && todo != [] && todo[0].id in g.vertices
    requires todo[0].id !in Ids(later)
    requires var visits := [VisitOf(g, todo[0])] + later;
             i < |visits| && a < |todo| && visits[i].id == todo[a].id
    ensures i == 0 <==> a == 0
    ensures var next, n := Next(g, order, visited, todo), |Discovered(g, order, visited, todo[0].id)|;
            a > 0 ==> i <= |later| && n + a - 1 < |next| && next[n + a - 1] == todo[a]
  {
    hide Enumerates, Discovered, ChildFrames;
    if i > 0 {
      assert later[i - 1].id in Ids(later);
    }
  }

  lemma FirstFrame(g: Graph, order: Key -> seq<Key>, visited: set<Key>, todo: seq<Frame>, later: seq<Visit>)
    requires Enumerates(order, g) && GoodStack(g, visited, todo) && todo != [] && todo[0].id in g.vertices
    requires todo[0].id !in Ids(later) && FollowsStack(later, Next(g, order, visited, todo))
    ensures FollowsStack([VisitOf(g, todo[0])] + later, todo)
  {
    hide Enumerates, Discovered, Next, GoodStack, Ids;
    var visits := [VisitOf(g, todo[0])] + later;
    forall i, a | 0 <= i < |visits| && 0 <= a < |todo| && visits[i].id == todo[a].id
      ensures visits[i].parent == todo[a].parent
    {
      Shifted(g, order, visited, todo, later, i, a);
    }
    forall i, j, a, b | 0 <= i < |visits| && 0 <= j < |visits| && 0 <= a < b < |todo|
        && visits[i].id == todo[a].id && visits[j].id == todo[b].id
      ensures i < j
    {
      Shifted(g, order, visited, todo, later, i, a);
      Shifted(g, order, visited, todo, later, j, b);
    }
  }

  // ------------------------------------------------------------------ who discovers

  lemma {:induction false} EarliestDiscovers(g: Graph, order: Key -> seq<Key>, visited: set<Key>, todo: seq<Frame>,
                                             i: nat) returns (p: nat)
    requires Enumerates(order, g) && Closed(g) && GoodStack(g, visited, todo)
    requires i < |Traverse(g, order, visited, todo).0| && Traverse(g, order, visited, todo).0[i].id !in visited
    ensures IsDiscoverer(g, Traverse(g, order, visited, todo).0, p, i)
    decreases AllKeys(g) - visited, |todo|
  {
    hide Enumerates, Closed, Discovered, GoodStack, Traverse;
    assert todo != [] by { NothingToDo(g, order, visited); }
    var f, cs := todo[0], Discovered(g, order, visited, todo[0].id);
    var later := Unroll(g, order, visited, todo);
    var visits := [VisitOf(g, f)] + later;
    TopIsMarked(g, visited, todo);
    var id := visits[i].id;
    assert i > 0 && visits[i] == later[i - 1];
    if id in cs {
      p := 0;
      var a :| 0 <= a < |cs| && cs[a] == id;
      FramesInOrder(g, order, visited + Elems(cs), Next(g, order, visited, todo));
      assert Next(g, order, visited, todo)[a] == ChildFrame(g, f, id);
    } else {
      DiscoveredShrinks(g, order, visited, f.id);
      p := EarliestDiscovers(g, order, visited + Elems(cs), Next(g, order, visited, todo), i - 1);
      assert id !in Targets(g, f.id);
      assert forall j :: 0 < j < p + 1 ==> visits[j] == later[j - 1];
      p := p + 1;
    }
  }

  lemma TopIsMarked(g: Graph, visited: set<Key>, todo: seq<Frame>)
    requires GoodStack(g, visited, todo) && todo != []
    ensures todo[0].id in visited
  {
    assert todo[0].id in FrameIds(todo);
  }

  lemma NothingToDo(g: Graph, order: Key -> seq<Key>, visited: set<Key>)
    requires Enumerates(order, g)
    ensures Traverse(g, order, visited, []).0 == []
  {}

  // ---------------------------------------------------------------------- siblings

  lemma {:induction false} UnvisitedKeepsOrder(ks: seq<Key>, visited: set<Key>, a: nat, b: nat)
    requires a < b < |Unvisited(ks, visited)|
    ensures Before(ks, Unvisited(ks, visited)[a], Unvisited(ks, visited)[b])
  {
    var r, rest := Unvisited(ks, visited), ks[1..];
    if ks[0] in visited {
      UnvisitedKeepsOrder(rest, visited, a, b);
      BeforeInTail(ks, r[a], r[b]);
    } else if a > 0 {
      UnvisitedKeepsOrder(rest, visited, a - 1, b - 1);
      BeforeInTail(ks, r[a], r[b]);
    } else {
      var last := Unvisited(rest, visited)[b - 1];
      assert last in rest;
      var n :| 0 <= n < |rest| && rest[n] == last;
      assert ks[0] == r[0] && ks[n + 1] == r[b];
    }
  }

  lemma BeforeInTail(ks: seq<Key>, a: Key, b: Key)
    requires ks != [] && Before(ks[1..], a, b)
    ensures Before(ks, a, b)
  {
    var m, n :| 0 <= m < n < |ks[1..]| && ks[1..][m] == a && ks[1..][n] == b;
    assert ks[m + 1] == a && ks[n + 1] == b;
  }

  lemma {:induction false} SiblingsInOrder(g: Graph, order: Key -> seq<Key>, visited: set<Key>, todo: seq<Frame>,
                                           i: nat, j: nat)
    requires Enumerates(order, g) && Closed(g) && GoodStack(g, visited, todo)
    requires i < j < |Traverse(g, order, visited, todo).0|
    requires var visits := Traverse(g, order, visited, todo).0;
             && visits[i].id !in visited && visits[j].id !in visited
             && visits[i].parent.Some? && visits[i].parent == visits[j].parent
    ensures var visits := Traverse(g, order, visited, todo).0;
            Before(order(visits[i].parent.value), visits[i].id, visits[j].id)
    decreases AllKeys(g) - visited, |todo|
  {
    hide Enumerates, Closed, Discovered, GoodStack, Traverse, Before;
    assert todo != [] by { NothingToDo(g, order, visited); }
    var f, cs := todo[0], Discovered(g, order, visited, todo[0].id);
    var next, visited' := Next(g, order, visited, todo), visited + Elems(cs);
    var later := Unroll(g, order, visited, todo);
    var visits := [VisitOf(g, f)] + later;
    TopIsMarked(g, visited, todo);
    assert visits[i] == later[i - 1] && visits[j] == later[j - 1];
    OwnChildren(g, order, visited, todo, i - 1);
    OwnChildren(g, order, visited, todo, j - 1);
    if visits[i].id in cs {
      var a, b :| 0 <= a < |cs| && cs[a] == visits[i].id && 0 <= b < |cs| && cs[b] == visits[j].id;
      FramesInOrder(g, order, visited', next);
      assert next[a].id == cs[a] && next[b].id == cs[b];
      IdsOnce(g, order, visited', next, i - 1, j - 1);
      assert a < b;
      DiscoveredInOrder(g, order, visited, f.id, a, b);
    } else {
      DiscoveredShrinks(g, order, visited, f.id);
      SiblingsInOrder(g, order, visited', next, i - 1, j - 1);
    }
  }

  lemma IdsOnce(g: Graph, order: Key -> seq<Key>, visited: set<Key>, todo: seq<Frame>, i: nat, j: nat)
    requires Enumerates(order, g) && Closed(g) && GoodStack(g, visited, todo)
    requires i < j < |Traverse(g, order, visited, todo).0|
    ensures Traverse(g, order, visited, todo).0[i].id != Traverse(g, order, visited, todo).0[j].id
  {
    VisitsOnce(g, order, visited, todo);
  }

  lemma DiscoveredInOrder(g: Graph, order: Key -> seq<Key>, visited: set<Key>, k: Key, a: nat, b: nat)
    requires Enumerates(order, g) && a < b < |Discovered(g, order, visited, k)|
    ensures var cs := Discovered(g, order, visited, k); Before(order(k), cs[a], cs[b])
  {
    UnvisitedKeepsOrder(order(k), visited, a, b);
  }

  // Of what is visited behind the top of the stack, exactly what the top discovers has it as its parent.
  lemma OwnChildren(g: Graph, order: Key -> seq<Key>, visited: set<Key>, todo: seq<Frame>, i: nat)
    requires Enumerates(order, g) && Closed(g) && GoodStack(g, visited, todo) && todo != []
    requires var later := Traverse(g, order, visited + Elems(Discovered(g, order, visited, todo[0].id)),
                                   Next(g, order, visited, todo)).0;
             i < |later| && later[i].id !in visited
    ensures var cs := Discovered(g, order, visited, todo[0].id);
            var v := Traverse(g, order, visited + Elems(cs), Next(g, order, visited, todo)).0[i];
            v.id in cs <==> v.parent == Some(todo[0].id)
  {
    hide Enumerates, Closed, Discovered, GoodStack, Traverse;
    var f, cs := todo[0], Discovered(g, order, visited, todo[0].id);
    var next := Next(g, order, visited, todo);
    var later := Unroll(g, order, visited, todo);
    var id := later[i].id;
    if id in cs {
      var a :| 0 <= a < |cs| && cs[a] == id;
      FramesInOrder(g, order, visited + Elems(cs), next);
      assert next[a] == ChildFrame(g, f, id);
    } else {
      var p := EarliestDiscovers(g, order, visited + Elems(cs), next, i);
      assert later[p].id in Ids(later);
    }
  }

  // ---------------------------------------------------------------------- theorem

  /** In every search: a vertex other than the start is discovered from the earliest visited vertex that has
      an edge to it, and what is discovered from one vertex is visited in the order of its children. */
  lemma SearchOrder(g: Graph, order: Key -> seq<Key>, start: Key)
    requires Enumerates(order, g) && Closed(g) && start in g.vertices
    ensures var visits := Search(g, order, start).0;
            && (forall i: nat | 0 < i < |visits| :: HasDiscoverer(g, visits, i))
            && (forall i, j | 0 < i < j < |visits| && visits[i].parent == visits[j].parent ::
                  visits[i].parent.Some? && Before(order(visits[i].parent.value), visits[i].id, visits[j].id))
  {
    hide Enumerates, Closed, Traverse, Before;
    var todo := [Root(start)];
    assert FrameIds(todo) == {start} by { assert todo[0].id == start; }
    var visits := Search(g, order, start).0;
    var later := Unroll(g, order, {start}, todo);
    forall i: nat | 0 < i < |visits|
      ensures visits[i].id != start && HasDiscoverer(g, visits, i)
    {
      assert visits[i] == later[i - 1] && later[i - 1].id in Ids(later);
      var p := EarliestDiscovers(g, order, {start}, todo, i);
    }
    forall i, j | 0 < i < j < |visits| && visits[i].parent == visits[j].parent
      ensures visits[i].parent.Some? && Before(order(visits[i].parent.value), visits[i].id, visits[j].id)
    {
      var p: nat :| IsDiscoverer(g, visits, p, i);
      SiblingsInOrder(g, order, {start}, todo, i, j);
    }
  }
}
