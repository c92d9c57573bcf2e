/** Depth-first search with an explicit stack. A vertex is marked when it is pushed, and the children
    of a vertex may be enumerated in any order. */
module Dfs {
  import opened Bytes

  type Key = nat

  datatype Graph = Graph(vertices: map<Key, nat>, adj: map<Key, map<Key, nat>>)

  // vertex and via are the payloads of the vertex and of the edge it was discovered along.
  datatype Visit = Visit(id: Key, vertex: nat, parent: Option<Key>, depth: nat, via: Option<nat>)

  datatype Frame = Frame(id: Key, parent: Option<Key>, depth: nat, via: Option<nat>)

  function Targets(g: Graph, k: Key): set<Key> {
    if k in g.adj then g.adj[k].Keys else {}
  }

  function AllKeys(g: Graph): set<Key> {
    g.vertices.Keys + set k, c | k in g.adj && c in g.adj[k] :: c
  }

  /** In which order the children of each vertex come out of the adjacency map and the sort. */
  ghost predicate Enumerates(order: Key -> seq<Key>, g: Graph) {
    forall k {:trigger order(k)} | k in g.adj ::
      && (forall i, j :: 0 <= i < j < |order(k)| ==> order(k)[i] != order(k)[j])
      && forall c :: c in order(k) <==> c in g.adj[k]
  }

  /** The graph library keeps an adjacency entry for every vertex, and edges only between vertices. */
  ghost predicate Closed(g: Graph) {
    && g.adj.Keys == g.vertices.Keys
    && forall k, c | k in g.adj && c in g.adj[k] :: c in g.vertices
  }

  // ------------------------------------------------------------ specification

  function Unvisited(ks: seq<Key>, visited: set<Key>): (r: seq<Key>)
    ensures forall k :: k in r <==> k in ks && k !in visited
  {
    if ks == [] then []
    else if ks[0] in visited then Unvisited(ks[1..], visited)
    else [ks[0]] + Unvisited(ks[1..], visited)
  }

  function ChildFrame(g: Graph, f: Frame, c: Key): Frame
    requires c in Targets(g, f.id)
  {
    Frame(c, Some(f.id), f.depth + 1, Some(g.adj[f.id][c]))
  }

  function ChildFrames(g: Graph, f: Frame, cs: seq<Key>): (r: seq<Frame>)
    requires forall c | c in cs :: c in Targets(g, f.id)
    ensures |r| == |cs|
    ensures forall i :: 0 <= i < |cs| ==> r[i] == ChildFrame(g, f, cs[i])
  {
    if cs == [] then [] else [ChildFrame(g, f, cs[0])] + ChildFrames(g, f, cs[1..])
  }

  function VisitOf(g: Graph, f: Frame): Visit
    requires f.id in g.vertices
  {
    Visit(f.id, g.vertices[f.id], f.parent, f.depth, f.via)
  }

  // The children a popped vertex pushes.
  function Discovered(g: Graph, order: Key -> seq<Key>, visited: set<Key>, k: Key): (r: seq<Key>)
    requires Enumerates(order, g)
    ensures forall c | c in r :: c in Targets(g, k) && c !in visited
    ensures forall c | c in Targets(g, k) && c !in visited :: c in r
  {
    if k in g.adj then Unvisited(order(k), visited) else []
  }

  /** All visits of a search that is not stopped, with the stack written top first, and whether it
      ends at a key that is no vertex. */
  function Traverse(g: Graph, order: Key -> seq<Key>, visited: set<Key>, todo: seq<Frame>): (seq<Visit>, bool)
    requires Enumerates(order, g)
    decreases AllKeys(g) - visited, |todo|
  {
    if todo == [] then ([], false)
    else
      var f := todo[0];
      if f.id !in g.vertices then ([], true)
      else
        var cs := Discovered(g, order, visited, f.id);
        DiscoveredShrinks(g, order, visited, f.id);
        var (visits, failed) := Traverse(g, order, visited + Elems(cs), ChildFrames(g, f, cs) + todo[1..]);
        ([VisitOf(g, f)] + visits, failed)
  }

  lemma DiscoveredShrinks(g: Graph, order: Key -> seq<Key>, visited: set<Key>, k: Key)
    requires Enumerates(order, g)
    ensures var cs := Discovered(g, order, visited, k);
            if cs == [] then visited + Elems(cs) == visited
            else AllKeys(g) - (visited + Elems(cs)) < AllKeys(g) - visited
  {
    var cs := Discovered(g, order, visited, k);
    if cs != [] {
      assert cs[0] in cs && cs[0] in Targets(g, k);
      assert cs[0] in AllKeys(g) - visited && cs[0] in Elems(cs);
    }
  }

  datatype Answer = Continue | Stop | Fail(error: nat)

  datatype Outcome = Finished | NotFound | Failed(error: nat)

  /** What a caller sees of a list of visits: the visits up to the first one it stops at. */
  function Observed(visits: seq<Visit>, failed: bool, visit: Visit -> Answer): (seq<Visit>, Outcome) {
    if visits == [] then ([], if failed then NotFound else Finished)
    else
      match visit(visits[0])
      case Stop => ([visits[0]], Finished)
      case Fail(e) => ([visits[0]], Failed(e))
      case Continue =>
        var (later, result) := Observed(visits[1..], failed, visit);
        ([visits[0]] + later, result)
  }

  function Root(start: Key): Frame { Frame(start, None, 0, None) }

  function Reversed<T>(s: seq<T>): (r: seq<T>)
    ensures |r| == |s|
  {
    if s == [] then [] else [s[|s| - 1]] + Reversed(s[..|s| - 1])
  }

  // ------------------------------------------------------------------- method

  // The outcome of a search that has made some visits and still has a stack.
  ghost function Continued(visits: seq<Visit>, g: Graph, order: Key -> seq<Key>, visited: set<Key>,
                     todo: seq<Frame>, visit: Visit -> Answer): (seq<Visit>, Outcome)
    requires Enumerates(order, g)
  {
    var (all, failed) := Traverse(g, order, visited, todo);
    var (later, result) := Observed(all, failed, visit);
    (visits + later, result)
  }

  lemma ContinueStart(g: Graph, order: Key -> seq<Key>, start: Key, visit: Visit -> Answer)
    requires Enumerates(order, g)
    ensures var (all, failed) := Traverse(g, order, {start}, [Root(start)]);
            Observed(all, failed, visit) == Continued([], g, order, {start}, [Root(start)], visit)
  {
    hide Traverse, Observed;
    var (all, failed) := Traverse(g, order, {start}, [Root(start)]);
    assert [] + Observed(all, failed, visit).0 == Observed(all, failed, visit).0;
  }

  lemma ContinueStep(visits: seq<Visit>, g: Graph, order: Key -> seq<Key>, visited: set<Key>,
                     todo: seq<Frame>, visit: Visit -> Answer)
    requires Enumerates(order, g) && todo != []
    ensures var f, outcome := todo[0], Continued(visits, g, order, visited, todo, visit);
            if f.id !in g.vertices then outcome == (visits, NotFound)
            else
              var v, cs := VisitOf(g, f), Discovered(g, order, visited, f.id);
              match visit(v)
              case Stop => outcome == (visits + [v], Finished)
              case Fail(e) => outcome == (visits + [v], Failed(e))
              case Continue =>
                outcome ==
                Continued(visits + [v], g, order, visited + Elems(cs), ChildFrames(g, f, cs) + todo[1..], visit)
  {
    hide Enumerates, Discovered, ChildFrames, Elems;
    var f := todo[0];
    if f.id in g.vertices {
      var v, cs := VisitOf(g, f), Discovered(g, order, visited, f.id);
      var (all, failed) := Traverse(g, order, visited + Elems(cs), ChildFrames(g, f, cs) + todo[1..]);
      assert Traverse(g, order, visited, todo) == ([v] + all, failed);
      assert ([v] + all)[1..] == all;
      assert visits + ([v] + Observed(all, failed, visit).0) == visits + [v] + Observed(all, failed, visit).0;
    } else {
      assert visits + [] == visits;
    }
  }

  lemma ContinueEnd(visits: seq<Visit>, g: Graph, order: Key -> seq<Key>, visited: set<Key>, visit: Visit -> Answer)
    requires Enumerates(order, g)
    ensures Continued(visits, g, order, visited, [], visit) == (visits, Finished)
  {
    assert visits + [] == visits;
  }

  lemma ReversedTop(stack: seq<Frame>)
    requires stack != []
    ensures Reversed(stack)[0] == stack[|stack| - 1]
    ensures Reversed(stack)[1..] == Reversed(stack[..|stack| - 1])
  {}

  lemma ReversedPush(stack: seq<Frame>, f: Frame)
    ensures Reversed(stack + [f]) == [f] + Reversed(stack)
  {
    assert (stack + [f])[..|stack|] == stack;
  }

  /** The search as it runs: a set of marked keys and a stack with its top at the end. */
  method DetailedDFS(g: Graph, start: Key, order: Key -> seq<Key>, visit: Visit -> Answer)
    returns (visits: seq<Visit>, result: Outcome)
    requires Enumerates(order, g)
    ensures var (all, failed) := Traverse(g, order, {start}, [Root(start)]);
            (visits, result) == Observed(all, failed, visit)
  {
    var visited := {start};
    var stack := [Root(start)];
    visits := [];
    ghost var expected := Continued(visits, g, order, visited, stack, visit);
    ContinueStart(g, order, start, visit);
    assert Reversed(stack) == stack by { assert stack[..0] == []; }
    hide *;
    while |stack| > 0
      invariant expected == Continued(visits, g, order, visited, Reversed(stack), visit)
      decreases AllKeys(g) - visited, |stack|
    {
      var f := stack[|stack| - 1];
      ReversedTop(stack);
      ContinueStep(visits, g, order, visited, Reversed(stack), visit);
      stack := stack[..|stack| - 1];
      if f.id !in g.vertices {
        return visits, NotFound;
      }
      var v := VisitOf(g, f);
      visits := visits + [v];
      match visit(v) {
        case Fail(e) => return visits, Failed(e);
        case Stop => return visits, Finished;
        case Continue =>
      }
      DiscoveredShrinks(g, order, visited, f.id);
      var children;
      children, visited := MarkChildren(g, order, visited, f.id);
      stack := PushReversed(g, f, children, stack);
    }
    assert stack == [];
    ReversedNothing();
    ContinueEnd(visits, g, order, visited, visit);
    result := Finished;
  }

  lemma ReversedNothing()
    ensures Reversed<Frame>([]) == []
  {}

  /** Marks the children that are not marked yet and lists them. */
  method MarkChildren(g: Graph, order: Key -> seq<Key>, visited: set<Key>, k: Key)
    returns (children: seq<Key>, marked: set<Key>)
    requires Enumerates(order, g)
    ensures children == Discovered(g, order, visited, k)
    ensures marked == visited + Elems(children)
  {
    hide Unvisited, Enumerates;
    var keys := if k in g.adj then order(k) else [];
    if k in g.adj {
      KeysAreDistinct(g, order, k);
    }
    UnvisitedNothing(visited);
    children, marked := [], visited;
    assert keys[..0] == [];
    var i := 0;
    while i < |keys|
      invariant 0 <= i <= |keys|
      invariant children == Unvisited(keys[..i], visited)
      invariant marked == visited + Elems(children)
    {
      var child := keys[i];
      UnvisitedNext(keys, i, visited);
      if child !in marked {
        marked := marked + {child};
        assert Elems(children + [child]) == Elems(children) + {child};
        children := children + [child];
      }
      i := i + 1;
    }
    assert keys[..i] == keys;
  }

  lemma KeysAreDistinct(g: Graph, order: Key -> seq<Key>, k: Key)
    requires Enumerates(order, g) && k in g.adj
    ensures forall i :: 0 <= i < |order(k)| ==> order(k)[i] !in order(k)[..i]
  {}

  lemma UnvisitedNothing(visited: set<Key>)
    ensures Unvisited([], visited) == []
  {}

  lemma {:induction false} UnvisitedAppend(ks: seq<Key>, k: Key, visited: set<Key>)
    ensures Unvisited(ks + [k], visited) == Unvisited(ks, visited) + if k in visited then [] else [k]
  {
    if ks != [] {
      assert (ks + [k])[1..] == ks[1..] + [k];
      UnvisitedAppend(ks[1..], k, visited);
    }
  }

  lemma UnvisitedNext(ks: seq<Key>, i: nat, visited: set<Key>)
    requires i < |ks|
    ensures Unvisited(ks[..i + 1], visited) == Unvisited(ks[..i], visited) + if ks[i] in visited then [] else [ks[i]]
  {
    UnvisitedAppend(ks[..i], ks[i], visited);
    assert ks[..i + 1] == ks[..i] + [ks[i]];
  }

  /** Pushes the children last to first, so that they are popped first to last. */
  method PushReversed(g: Graph, f: Frame, children: seq<Key>, stack: seq<Frame>) returns (pushed: seq<Frame>)
    requires forall c | c in children :: c in Targets(g, f.id)
    ensures Reversed(pushed) == ChildFrames(g, f, children) + Reversed(stack)
  {
    hide Reversed;
    pushed := stack;
    ghost var frames := ChildFrames(g, f, children);
    var i := |children|;
    assert frames[i..] == [];
    while i > 0
      invariant 0 <= i <= |children|
      invariant Reversed(pushed) == frames[i..] + Reversed(stack)
    {
      i := i - 1;
      ReversedPush(pushed, ChildFrame(g, f, children[i]));
      pushed := pushed + [ChildFrame(g, f, children[i])];
      assert frames[i..] == [frames[i]] + frames[i + 1..];
    }
    assert frames[0..] == frames;
  }
}
