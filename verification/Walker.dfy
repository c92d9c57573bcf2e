/** The syntax-tree walk: a cursor moves over the grammar tree while a language transformer appends
    nodes to the program tree in place. Program nodes live in an arena and are named by index. */
module Walker {
  import opened Bytes

  type Tag = nat
  type NodeId = nat

  datatype Syntax = Syntax(kind: nat, children: seq<Syntax>)

  /** A program tree as a value. */
  datatype Ast = Ast(tag: Tag, children: seq<Ast>)

  // What a transformer does at a node. It may do several of these, in any order.
  datatype Op =
    | Emit(tag: Tag)             // append a leaf to the current parent
    | WalkChildren                   // transform the node's children under the current parent
    | EmitAndWalkInto(tag: Tag)  // append a node and transform the node's children under it
    | Fail                           // return an error

  type Transformer = Syntax -> seq<Op>

  // ------------------------------------------------------------ specification

  /** What a transformer makes of a list of sibling nodes, in document order, up to its first error. */
  function Fold(cs: seq<Syntax>, f: Transformer): (seq<Ast>, bool)
    decreases cs
  {
    if cs == [] then ([], true)
    else
      var (first, ok) := Apply(f(cs[0]), cs[0], f);
      if !ok then (first, false)
      else
        var (rest, ok') := Fold(cs[1..], f);
        (first + rest, ok')
  }

  function Apply(ops: seq<Op>, node: Syntax, f: Transformer): (seq<Ast>, bool)
    decreases node, |ops|
  {
    if ops == [] then ([], true)
    else
      var (first, ok) := ApplyOne(ops[0], node, f);
      if !ok then (first, false)
      else
        var (rest, ok') := Apply(ops[1..], node, f);
        (first + rest, ok')
  }

  function ApplyOne(op: Op, node: Syntax, f: Transformer): (seq<Ast>, bool)
    decreases node, 0
  {
    match op
    case Emit(tag) => ([Ast(tag, [])], true)
    case WalkChildren => Fold(node.children, f)
    case EmitAndWalkInto(tag) =>
      var (inner, ok) := Fold(node.children, f);
      ([Ast(tag, inner)], ok)
    case Fail => ([], false)
  }

  // ----------------------------------------------------------- document order

  /** The tags in the order the transformer emits them, up to its first error, each with the depth it is
      emitted at, and whether there was no error. Only walking into an emitted node goes deeper. */
  function Emitted(cs: seq<Syntax>, f: Transformer, depth: nat): (seq<(nat, Tag)>, bool)
    decreases cs
  {
    if cs == [] then ([], true)
    else
      var (first, ok) := EmittedAt(f(cs[0]), cs[0], f, depth);
      if !ok then (first, false)
      else
        var (rest, ok') := Emitted(cs[1..], f, depth);
        (first + rest, ok')
  }

  function EmittedAt(ops: seq<Op>, node: Syntax, f: Transformer, depth: nat): (seq<(nat, Tag)>, bool)
    decreases node, |ops|
  {
    if ops == [] then ([], true)
    else
      var (first, ok) := EmittedBy(ops[0], node, f, depth);
      if !ok then (first, false)
      else
        var (rest, ok') := EmittedAt(ops[1..], node, f, depth);
        (first + rest, ok')
  }

  function EmittedBy(op: Op, node: Syntax, f: Transformer, depth: nat): (seq<(nat, Tag)>, bool)
    decreases node, 0
  {
    match op
    case Emit(tag) => ([(depth, tag)], true)
    case WalkChildren => Emitted(node.children, f, depth)
    case EmitAndWalkInto(tag) =>
      var (inner, ok) := Emitted(node.children, f, depth + 1);
      ([(depth, tag)] + inner, ok)
    case Fail => ([], false)
  }

  /** The nodes of program trees in preorder, each with its depth. */
  function Preorder(ts: seq<Ast>, depth: nat): seq<(nat, Tag)> {
    if ts == [] then []
    else [(depth, ts[0].tag)] + Preorder(ts[0].children, depth + 1) + Preorder(ts[1..], depth)
  }

  lemma {:induction false} PreorderAppend(a: seq<Ast>, b: seq<Ast>, depth: nat)
    ensures Preorder(a + b, depth) == Preorder(a, depth) + Preorder(b, depth)
  {
    if a == [] {
      assert a + b == b;
    } else {
      assert (a + b)[1..] == a[1..] + b;
      PreorderAppend(a[1..], b, depth);
    }
  }

  /** The program tree holds the emitted nodes in document order, each as deep as it was emitted: its
      preorder with depths is the list of what was emitted. */
  lemma {:induction false} FoldIsDocumentOrder(cs: seq<Syntax>, f: Transformer, depth: nat)
    ensures (Preorder(Fold(cs, f).0, depth), Fold(cs, f).1) == Emitted(cs, f, depth)
    decreases cs
  {
    if cs != [] {
      hide Preorder, Apply, EmittedAt;
      ApplyIsDocumentOrder(f(cs[0]), cs[0], f, depth);
      FoldIsDocumentOrder(cs[1..], f, depth);
      PreorderAppend(Apply(f(cs[0]), cs[0], f).0, Fold(cs[1..], f).0, depth);
    }
  }

  lemma {:induction false} ApplyIsDocumentOrder(ops: seq<Op>, node: Syntax, f: Transformer, depth: nat)
    ensures (Preorder(Apply(ops, node, f).0, depth), Apply(ops, node, f).1) == EmittedAt(ops, node, f, depth)
    decreases node, |ops|
  {
    if ops != [] {
      hide Preorder, ApplyOne, EmittedBy;
      ApplyOneIsDocumentOrder(ops[0], node, f, depth);
      ApplyIsDocumentOrder(ops[1..], node, f, depth);
      PreorderAppend(ApplyOne(ops[0], node, f).0, Apply(ops[1..], node, f).0, depth);
    }
  }

  lemma {:induction false} ApplyOneIsDocumentOrder(op: Op, node: Syntax, f: Transformer, depth: nat)
    ensures (Preorder(ApplyOne(op, node, f).0, depth), ApplyOne(op, node, f).1) == EmittedBy(op, node, f, depth)
    decreases node, 0
  {
    hide Fold, Emitted;
    match op {
      case Emit(tag) =>
        PreorderOne(tag, [], depth);
        PreorderOfNone(depth + 1);
        assert [(depth, tag)] + [] == [(depth, tag)];
      case WalkChildren => FoldIsDocumentOrder(node.children, f, depth);
      case EmitAndWalkInto(tag) =>
        FoldIsDocumentOrder(node.children, f, depth + 1);
        PreorderOne(tag, Fold(node.children, f).0, depth);
      case Fail => PreorderOfNone(depth);
    }
  }

  lemma PreorderOne(tag: Tag, ts: seq<Ast>, depth: nat)
    ensures Preorder([Ast(tag, ts)], depth) == [(depth, tag)] + Preorder(ts, depth + 1)
  {
    assert [Ast(tag, ts)][1..] == [];
    assert [(depth, tag)] + Preorder(ts, depth + 1) + [] == [(depth, tag)] + Preorder(ts, depth + 1);
  }

  // How many entries from the head of the list lie deeper.
  function DeeperCount(es: seq<(nat, Tag)>, depth: nat): (n: nat)
    ensures n <= |es|
  {
    if es != [] && es[0].0 > depth then 1 + DeeperCount(es[1..], depth) else 0
  }

  lemma {:induction false} PreorderIsDeep(ts: seq<Ast>, depth: nat)
    ensures forall k :: 0 <= k < |Preorder(ts, depth)| ==> Preorder(ts, depth)[k].0 >= depth
    ensures ts != [] ==> Preorder(ts, depth) != [] && Preorder(ts, depth)[0] == (depth, ts[0].tag)
    decreases ts
  {
    if ts != [] {
      PreorderIsDeep(ts[0].children, depth + 1);
      PreorderIsDeep(ts[1..], depth);
    }
  }

  lemma {:induction false} DeeperPrefix(a: seq<(nat, Tag)>, b: seq<(nat, Tag)>, depth: nat)
    requires forall k :: 0 <= k < |a| ==> a[k].0 > depth
    requires b != [] ==> b[0].0 <= depth
    ensures DeeperCount(a + b, depth) == |a|
  {
    if a == [] {
      assert a + b == b;
    } else {
      assert (a + b)[1..] == a[1..] + b;
      DeeperPrefix(a[1..], b, depth);
    }
  }

  /** Trees with the same preorder with depths are the same trees, so nothing else about them is open. */
  lemma {:induction false} DepthsDetermine(ts: seq<Ast>, us: seq<Ast>, depth: nat)
    requires Preorder(ts, depth) == Preorder(us, depth)
    ensures ts == us
    decreases ts
  {
    hide Preorder;
    PreorderIsDeep(ts, depth);
    PreorderIsDeep(us, depth);
    if ts == [] || us == [] {
      PreorderOfNone(depth);
    } else {
      SplitPreorder(ts, depth);
      SplitPreorder(us, depth);
      DepthsDetermine(ts[0].children, us[0].children, depth + 1);
      DepthsDetermine(ts[1..], us[1..], depth);
      assert ts == [ts[0]] + ts[1..] && us == [us[0]] + us[1..];
    }
  }

  lemma PreorderOfNone(depth: nat)
    ensures Preorder([], depth) == []
  {}

  // Where the children's part of a preorder ends can be read off it.
  lemma SplitPreorder(ts: seq<Ast>, depth: nat)
    requires ts != []
    ensures var es := Preorder(ts, depth);
            && es != []
            && var n := DeeperCount(es[1..], depth);
            && Preorder(ts[0].children, depth + 1) == es[1..1 + n]
            && Preorder(ts[1..], depth) == es[1 + n..]
  {
    var inner, rest := Preorder(ts[0].children, depth + 1), Preorder(ts[1..], depth);
    var es := Preorder(ts, depth);
    assert es == [(depth, ts[0].tag)] + inner + rest;
    hide Preorder;
    PreorderIsDeep(ts[0].children, depth + 1);
    PreorderIsDeep(ts[1..], depth);
    if ts[1..] == [] {
      PreorderOfNone(depth);
    }
    DeeperPrefix(inner, rest, depth);
    assert es[1..] == inner + rest;
  }

  // -------------------------------------------------------------------- arena

  datatype Arena = Arena(tags: seq<Tag>, kids: seq<seq<NodeId>>)

  /** Children are newer than their parent. */
  ghost predicate Ordered(a: Arena) {
    && |a.tags| == |a.kids|
    && forall id, k :: 0 <= id < |a.kids| && 0 <= k < |a.kids[id]| ==> id < a.kids[id][k] < |a.kids|
  }

  ghost function TreeOf(a: Arena, id: NodeId): Ast
    requires Ordered(a) && id < |a.kids|
    decreases |a.kids| - id, 0
  {
    Ast(a.tags[id], TreesOf(a, a.kids[id], id))
  }

  // The trees of nodes that are newer than above.
  ghost function TreesOf(a: Arena, ids: seq<NodeId>, above: NodeId): seq<Ast>
    requires Ordered(a) && above < |a.kids|
    requires forall k :: 0 <= k < |ids| ==> above < ids[k] < |a.kids|
    decreases |a.kids| - above, 0, |ids|
  {
    if ids == [] then [] else [TreeOf(a, ids[0])] + TreesOf(a, ids[1..], above)
  }

  function NewNode(a: Arena, tag: Tag): Arena {
    Arena(a.tags + [tag], a.kids + [[]])
  }

  function AppendChild(a: Arena, parent: NodeId, child: NodeId): Arena
    requires parent < |a.kids|
  {
    a.(kids := a.kids[parent := a.kids[parent] + [child]])
  }

  /** The arena grew by the trees ts, appended to the children of p; no other old node changed. */
  ghost predicate Grown(a: Arena, b: Arena, p: NodeId, ts: seq<Ast>) {
    && Ordered(a) && Ordered(b) && p < |a.kids| <= |b.kids|
    && a.tags <= b.tags
    && (forall id :: 0 <= id < |a.kids| && id != p ==> b.kids[id] == a.kids[id])
    && a.kids[p] <= b.kids[p]
    && var added := b.kids[p][|a.kids[p]|..];
    && (forall k :: 0 <= k < |added| ==> |a.kids| <= added[k] < |b.kids|)
    && TreesOf(b, added, p) == ts
  }

  lemma {:induction false} TreeUnchanged(a: Arena, b: Arena, p: NodeId, id: NodeId)
    requires Ordered(a) && Ordered(b) && |a.kids| <= |b.kids| && a.tags <= b.tags
    requires forall i :: 0 <= i < |a.kids| && i != p ==> b.kids[i] == a.kids[i]
    requires p < id < |a.kids|
    ensures TreeOf(b, id) == TreeOf(a, id)
    decreases |a.kids| - id, 0
  {
    TreesUnchanged(a, b, p, a.kids[id], id);
  }

  lemma {:induction false} TreesUnchanged(a: Arena, b: Arena, p: NodeId, ids: seq<NodeId>, above: NodeId)
    requires Ordered(a) && Ordered(b) && |a.kids| <= |b.kids| && a.tags <= b.tags
    requires forall i :: 0 <= i < |a.kids| && i != p ==> b.kids[i] == a.kids[i]
    requires p <= above < |a.kids|
    requires forall k :: 0 <= k < |ids| ==> above < ids[k] < |a.kids|
    ensures TreesOf(b, ids, above) == TreesOf(a, ids, above)
    decreases |a.kids| - above, 0, |ids|
  {
    if ids != [] {
      hide Ordered, TreeOf;
      TreeUnchanged(a, b, p, ids[0]);
      TreesUnchanged(a, b, p, ids[1..], above);
    }
  }

  lemma {:induction false} TreesAppend(a: Arena, x: seq<NodeId>, y: seq<NodeId>, above: NodeId)
    requires Ordered(a) && above < |a.kids|
    requires forall k :: 0 <= k < |x| ==> above < x[k] < |a.kids|
    requires forall k :: 0 <= k < |y| ==> above < y[k] < |a.kids|
    ensures TreesOf(a, x + y, above) == TreesOf(a, x, above) + TreesOf(a, y, above)
  {
    hide Ordered, TreeOf;
    if x == [] {
      assert x + y == y;
    } else {
      assert (x + y)[1..] == x[1..] + y;
      TreesAppend(a, x[1..], y, above);
    }
  }

  lemma GrownNothing(a: Arena, p: NodeId)
    requires Ordered(a) && p < |a.kids|
    ensures Grown(a, a, p, [])
  {}

  /** Growing twice under the same node appends both lists of trees. */
  lemma GrownTwice(a: Arena, b: Arena, c: Arena, p: NodeId, ts: seq<Ast>, us: seq<Ast>)
    requires Grown(a, b, p, ts) && Grown(b, c, p, us)
    ensures Grown(a, c, p, ts + us)
  {
    hide TreesOf, Ordered;
    var x, y := b.kids[p][|a.kids[p]|..], c.kids[p][|b.kids[p]|..];
    assert c.kids[p][|a.kids[p]|..] == x + y;
    TreesUnchanged(b, c, p, x, p);
    TreesAppend(c, x, y, p);
  }

  lemma GrownLeaf(a: Arena, p: NodeId, tag: Tag)
    requires Ordered(a) && p < |a.kids|
    ensures Grown(a, AppendChild(NewNode(a, tag), p, |a.kids|), p, [Ast(tag, [])])
  {
    var n := |a.kids|;
    var b := AppendChild(NewNode(a, tag), p, n);
    assert b.kids[p][|a.kids[p]|..] == [n];
    assert b.kids[n] == [];
    assert TreesOf(b, [n], p) == [TreeOf(b, n)];
  }

  /** Growing under a leaf that was just appended to p is growing under p by the leaf's new tree. */
  lemma GrownInto(a: Arena, b: Arena, p: NodeId, tag: Tag, ts: seq<Ast>)
    requires Ordered(a) && p < |a.kids|
    requires Grown(AppendChild(NewNode(a, tag), p, |a.kids|), b, |a.kids|, ts)
    ensures Grown(a, b, p, [Ast(tag, ts)])
  {
    var n := |a.kids|;
    var m := AppendChild(NewNode(a, tag), p, n);
    assert m.kids[n] == [] && b.kids[n][0..] == b.kids[n];
    assert TreeOf(b, n) == Ast(tag, ts);
    assert b.kids[p] == m.kids[p];
    assert b.kids[p][|a.kids[p]|..] == [n];
    assert TreesOf(b, [n], p) == [TreeOf(b, n)];
  }

  // ------------------------------------------------------------------- cursor

  ghost predicate OnTree(root: Syntax, path: seq<nat>) {
    path == [] || (path[0] < |root.children| && OnTree(root.children[path[0]], path[1..]))
  }

  function At(root: Syntax, path: seq<nat>): Syntax
    requires OnTree(root, path)
  {
    if path == [] then root else At(root.children[path[0]], path[1..])
  }

  lemma {:induction false} AtChild(root: Syntax, path: seq<nat>, i: nat)
    requires OnTree(root, path)
    ensures OnTree(root, path + [i]) <==> i < |At(root, path).children|
    ensures i < |At(root, path).children| ==> At(root, path + [i]) == At(root, path).children[i]
  {
    if path == [] {
      assert ([i])[1..] == [];
    } else {
      assert (path + [i])[1..] == path[1..] + [i];
      AtChild(root.children[path[0]], path[1..], i);
    }
  }

  lemma ApplyFirst(ops: seq<Op>, node: Syntax, f: Transformer, done: seq<Ast>, k: nat)
    requires k < |ops|
    requires Apply(ops, node, f) == (done + Apply(ops[k..], node, f).0, Apply(ops[k..], node, f).1)
    ensures var (ts, ok) := ApplyOne(ops[k], node, f);
            if ok then
              Apply(ops, node, f) == (done + ts + Apply(ops[k + 1..], node, f).0, Apply(ops[k + 1..], node, f).1)
            else Apply(ops, node, f) == (done + ts, false)
  {
    hide ApplyOne;
    assert ops[k..][1..] == ops[k + 1..];
    var (ts, ok) := ApplyOne(ops[k], node, f);
    assert done + (ts + Apply(ops[k + 1..], node, f).0) == done + ts + Apply(ops[k + 1..], node, f).0;
  }

  lemma FoldAt(cs: seq<Syntax>, f: Transformer, k: nat)
    requires k < |cs|
    ensures var (ts, ok) := Apply(f(cs[k]), cs[k], f);
            Fold(cs[k..], f) ==
            if ok then (ts + Fold(cs[k + 1..], f).0, Fold(cs[k + 1..], f).1) else (ts, false)
  {
    hide Apply;
    assert cs[k..][0] == cs[k] && cs[k..][1..] == cs[k + 1..];
  }

  lemma FoldFirst(cs: seq<Syntax>, f: Transformer, done: seq<Ast>, k: nat)
    requires k < |cs|
    requires Fold(cs, f) == (done + Fold(cs[k..], f).0, Fold(cs[k..], f).1)
    ensures var (ts, ok) := Apply(f(cs[k]), cs[k], f);
            if ok then Fold(cs, f) == (done + ts + Fold(cs[k + 1..], f).0, Fold(cs[k + 1..], f).1)
            else Fold(cs, f) == (done + ts, false)
  {
    hide *;
    FoldAt(cs, f, k);
    var (ts, ok) := Apply(f(cs[k]), cs[k], f);
    assert done + (ts + Fold(cs[k + 1..], f).0) == done + ts + Fold(cs[k + 1..], f).0;
  }

  class TransformContext {
    const tree: Syntax
    const transform: Transformer
    // Where the cursor is, as child numbers from the root of the grammar tree.
    var path: seq<nat>
    // The node that emitted nodes are appended to; none before the walk.
    var parent: Option<NodeId>
    var arena: Arena

    ghost predicate Valid()
      reads this
    {
      OnTree(tree, path) && Ordered(arena)
    }

    constructor (tree: Syntax, transform: Transformer, root: Tag)
      ensures Valid() && path == [] && parent == None && arena == Arena([root], [[]])
      ensures this.tree == tree && this.transform == transform
    {
      this.tree := tree;
      this.transform := transform;
      path := [];
      parent := None;
      arena := Arena([root], [[]]);
    }

    method GotoFirstChild() returns (ok: bool)
      requires Valid()
      modifies this`path
      ensures ok == (At(tree, old(path)).children != [])
      ensures path == if ok then old(path) + [0] else old(path)
      ensures Valid()
    {
      ok := At(tree, path).children != [];
      AtChild(tree, path, 0);
      if ok {
        path := path + [0];
      }
    }

    method GotoNextSibling(ghost above: seq<nat>, ghost i: nat) returns (ok: bool)
      requires Valid() && OnTree(tree, above) && path == above + [i]
      modifies this`path
      ensures ok == (i + 1 < |At(tree, above).children|)
      ensures path == above + [if ok then i + 1 else i]
      ensures Valid()
    {
      var n := |path| - 1;
      assert path[..n] == above;
      AtChild(tree, above, i + 1);
      ok := path[n] + 1 < |At(tree, path[..n]).children|;
      if ok {
        path := path[..n] + [path[n] + 1];
      }
    }

    method GotoParent(ghost above: seq<nat>, ghost i: nat)
      requires path == above + [i]
      modifies this`path
      ensures path == above
    {
      path := path[..|path| - 1];
    }

    method Emit(tag: Tag) returns (id: NodeId)
      requires Valid() && parent.Some? && parent.value < |arena.kids|
      modifies this`arena
      ensures id == |old(arena).kids|
      ensures arena == AppendChild(NewNode(old(arena), tag), parent.value, id)
      ensures Grown(old(arena), arena, parent.value, [Ast(tag, [])])
    {
      id := |arena.kids|;
      GrownLeaf(arena, parent.value, tag);
      arena := NewNode(arena, tag);
      arena := AppendChild(arena, parent.value, id);
    }

    /** Appends to the children of into what the transformer makes of the children of the node under
        the cursor. The cursor and the current parent are what they were, also after an error. */
    method Walk(into: NodeId) returns (ok: bool)
      requires Valid() && into < |arena.kids|
      modifies this`path, this`parent, this`arena
      ensures Valid() && path == old(path) && parent == old(parent)
      ensures ok == Fold(At(tree, path).children, transform).1
      ensures Grown(old(arena), arena, into, Fold(At(tree, path).children, transform).0)
      decreases At(tree, path), 0
    {
      hide Ordered, Grown, Fold, Apply;
      ghost var above, cs, start := path, At(tree, path).children, arena;
      GrownNothing(arena, into);
      ok := GotoFirstChild();
      if !ok {
        FoldNothing(transform);
        return true;
      }
      var previousParent := parent;
      parent := Some(into);
      ghost var i, done: seq<Ast> := 0, [];
      assert cs[0..] == cs && done + Fold(cs, transform).0 == Fold(cs, transform).0;
      while true
        invariant Valid() && i < |cs| && path == above + [i] && parent == Some(into)
        invariant Grown(start, arena, into, done)
        invariant Fold(cs, transform) == (done + Fold(cs[i..], transform).0, Fold(cs[i..], transform).1)
        decreases |cs| - i
      {
        AtChild(tree, above, i);
        GrownKeepsNode(start, arena, into, done);
        FoldFirst(cs, transform, done, i);
        ghost var before := arena;
        ghost var ts := Apply(transform(cs[i]), cs[i], transform).0;
        ok := Transform();
        GrownTwice(start, before, arena, into, done, ts);
        if !ok {
          parent := previousParent;
          GotoParent(above, i);
          return false;
        }
        done := done + ts;
        var more := GotoNextSibling(above, i);
        if !more {
          assert cs[i + 1..] == [];
          FoldNothing(transform);
          assert done + [] == done;
          parent := previousParent;
          GotoParent(above, i);
          return true;
        }
        parent := Some(into);
        i := i + 1;
      }
    }

    /** Runs the transformer's actions at the node under the cursor. */
    method Transform() returns (ok: bool)
      requires Valid() && parent.Some? && parent.value < |arena.kids|
      modifies this`path, this`parent, this`arena
      ensures Valid() && path == old(path) && parent == old(parent)
      ensures var node := At(tree, path);
              && ok == Apply(transform(node), node, transform).1
              && Grown(old(arena), arena, parent.value, Apply(transform(node), node, transform).0)
      decreases At(tree, path), 2
    {
      hide Ordered, Grown, Apply, ApplyOne;
      var node := At(tree, path);
      var ops := transform(node);
      ghost var start, done: seq<Ast> := arena, [];
      GrownNothing(arena, parent.value);
      assert ops[0..] == ops && done + Apply(ops, node, transform).0 == Apply(ops, node, transform).0;
      var k := 0;
      while k < |ops|
        invariant 0 <= k <= |ops| && Valid() && path == old(path) && parent == old(parent)
        invariant Grown(start, arena, parent.value, done)
        invariant Apply(ops, node, transform) ==
                  (done + Apply(ops[k..], node, transform).0, Apply(ops[k..], node, transform).1)
      {
        GrownKeepsNode(start, arena, parent.value, done);
        ApplyFirst(ops, node, transform, done, k);
        ghost var before, ts := arena, ApplyOne(ops[k], node, transform).0;
        ok := TransformOne(ops[k]);
        GrownTwice(start, before, arena, parent.value, done, ts);
        if !ok {
          return false;
        }
        done := done + ts;
        k := k + 1;
      }
      assert ops[k..] == [];
      ApplyNothing(node, transform);
      assert done + [] == done;
      ok := true;
    }

    method TransformOne(op: Op) returns (ok: bool)
      requires Valid() && parent.Some? && parent.value < |arena.kids|
      modifies this`path, this`parent, this`arena
      ensures Valid() && path == old(path) && parent == old(parent)
      ensures ok == ApplyOne(op, At(tree, path), transform).1
      ensures Grown(old(arena), arena, parent.value, ApplyOne(op, At(tree, path), transform).0)
      decreases At(tree, path), 1
    {
      hide Ordered, Grown, Fold;
      match op {
        case Emit(tag) =>
          var _ := Emit(tag);
          ok := true;
          GrownIsOrdered(old(arena), arena, parent.value, [Ast(tag, [])]);
        case WalkChildren =>
          ok := Walk(parent.value);
        case EmitAndWalkInto(tag) =>
          var id := Emit(tag);
          GrownIsOrdered(old(arena), arena, parent.value, [Ast(tag, [])]);
          ok := Walk(id);
          GrownInto(old(arena), arena, parent.value, tag, Fold(At(tree, path).children, transform).0);
        case Fail =>
          ok := false;
          GrownNothing(arena, parent.value);
      }
    }
  }

  lemma FoldNothing(f: Transformer)
    ensures Fold([], f) == ([], true)
  {}

  lemma ApplyNothing(node: Syntax, f: Transformer)
    ensures Apply([], node, f) == ([], true)
  {}

  lemma GrownIsOrdered(a: Arena, b: Arena, p: NodeId, ts: seq<Ast>)
    requires Grown(a, b, p, ts)
    ensures Ordered(b) && |a.kids| <= |b.kids|
  {}

  lemma GrownKeepsNode(a: Arena, b: Arena, p: NodeId, ts: seq<Ast>)
    requires Grown(a, b, p, ts)
    ensures p < |b.kids| && Ordered(b)
  {}

  /** A whole walk: the program tree is the fold over the grammar tree, in document order, even when
      the transformer returns an error half way. */
  method WalkTransformTree(tree: Syntax, transform: Transformer, root: Tag) returns (ok: bool, trx: TransformContext)
    ensures fresh(trx) && trx.Valid() && 0 < |trx.arena.kids|
    ensures ok == Fold(tree.children, transform).1
    ensures TreeOf(trx.arena, 0) == Ast(root, Fold(tree.children, transform).0)
    ensures (Preorder(TreeOf(trx.arena, 0).children, 1), ok) == Emitted(tree.children, transform, 1)
    ensures trx.path == [] && trx.parent == None
  {
    hide Fold, Emitted, Preorder;
    FoldIsDocumentOrder(tree.children, transform, 1);
    trx := new TransformContext(tree, transform, root);
    ghost var empty := trx.arena;
    ok := trx.Walk(0);
    var kids := trx.arena.kids[0];
    assert kids[0..] == kids && empty.kids[0] == [];
  }
}
