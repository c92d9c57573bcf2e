/** Program trees as linked objects: attaching parents, the memoised identity hash that sums own
    hashes along the chain of ancestors, and the search for an ancestor. */
module AstTree {
  import opened Hash

  class AstNode {
    // The hash of the node's own path, source, position and kind: an arbitrary value.
    const own: HashType
    var children: seq<AstNode>
    var parent: AstNode?
    var hash: HashType
    var hashed: bool
    // How far the leaves are below, at most; it shows that the tree has no cycle.
    ghost var height: nat

    /** A new container, or a clone, has no parent and no memo. */
    constructor (own: HashType)
      ensures this.own == own && children == [] && parent == null && !hashed
    {
      this.own := own;
      children := [];
      parent := null;
      hash := HashType(0, 0, 0, 0);
      hashed := false;
      height := 0;
    }
  }

  /** The nodes of a tree: closed under children, with no cycle, no node below two others, and every
      node but the root below another one. */
  ghost predicate IsTree(nodes: set<AstNode>, root: AstNode)
    reads nodes`children, nodes`height
  {
    && root in nodes
    && (forall n, c | n in nodes && c in n.children :: c in nodes && c.height < n.height)
    && (forall n, m, c | n in nodes && m in nodes && c in n.children && c in m.children :: n == m)
    && (forall n | n in nodes && n != root :: exists m :: m in nodes && n in m.children)
    && (forall n | n in nodes :: n.height <= root.height)
  }

  /** The node's parent is its tree parent; the root has none. */
  ghost predicate Placed(nodes: set<AstNode>, root: AstNode, n: AstNode)
    reads nodes`children, n`parent
  {
    if n == root then n.parent == null
    else n.parent != null && n.parent in nodes && n in n.parent.children
  }

  ghost predicate Attached(nodes: set<AstNode>, root: AstNode)
    reads nodes`children, nodes`parent
  {
    forall n | n in nodes :: Placed(nodes, root, n)
  }

  // A set that holds the root and the children of its members holds the whole tree.
  lemma {:induction false} WholeTree(nodes: set<AstNode>, root: AstNode, done: set<AstNode>, n: AstNode)
    requires IsTree(nodes, root) && root in done
    requires forall n, c | n in done && n in nodes && c in n.children :: c in done
    requires n in nodes
    ensures n in done
    decreases root.height - n.height
  {
    if n != root {
      var m :| m in nodes && n in m.children;
      WholeTree(nodes, root, done, m);
    }
  }

  lemma ChildIsLower(nodes: set<AstNode>, root: AstNode, n: AstNode, c: AstNode)
    requires IsTree(nodes, root) && n in nodes && c in n.children
    ensures c in nodes && c.height < n.height && c != root
  {}

  method AttachParents(root: AstNode, ghost nodes: set<AstNode>)
    requires IsTree(nodes, root)
    modifies nodes`parent
    ensures Attached(nodes, root)
  {
    ghost var done := AttachBelow(root, null, nodes, root, {});
    forall n | n in nodes ensures n in done {
      WholeTree(nodes, root, done, n);
    }
  }

  /** Sets the parent of the node and of everything below it. */
  method AttachBelow(node: AstNode, up: AstNode?,
                     ghost nodes: set<AstNode>, ghost root: AstNode, ghost done: set<AstNode>)
    returns (ghost done': set<AstNode>)
    requires IsTree(nodes, root) && node in nodes && done <= nodes
    requires if node == root then up == null else up != null && up in nodes && node in up.children
    requires forall n | n in done :: Placed(nodes, root, n)
    modifies nodes`parent
    ensures done <= done' <= nodes && node in done'
    ensures forall n | n in done' :: Placed(nodes, root, n)
    ensures forall n, c | n in done' - done && c in n.children :: c in done'
    decreases node.height
  {
    hide IsTree;
    node.parent := up;
    done' := done + {node};
    var i := 0;
    while i < |node.children|
      invariant 0 <= i <= |node.children|
      invariant done + {node} <= done' <= nodes
      invariant forall n | n in done' :: Placed(nodes, root, n)
      invariant forall n, c | n in done' - done && n != node && c in n.children :: c in done'
      invariant forall j :: 0 <= j < i ==> node.children[j] in done'
    {
      ghost var before := done';
      ChildIsLower(nodes, root, node, node.children[i]);
      done' := AttachBelow(node.children[i], node, nodes, root, done');
      assert forall n | n in done' - done :: n in before - done || n in done' - before;
      i := i + 1;
    }
  }

  // ------------------------------------------------------------------- the hash

  ghost predicate Ready(nodes: set<AstNode>, root: AstNode)
    reads nodes`children, nodes`height, nodes`parent
  {
    IsTree(nodes, root) && Attached(nodes, root)
  }

  // A parent is nearer to the root.
  lemma ParentIsHigher(nodes: set<AstNode>, root: AstNode, n: AstNode)
    requires Ready(nodes, root) && n in nodes
    ensures n.parent == null <==> n == root
    ensures n.parent != null ==> n.parent in nodes && n.height < n.parent.height <= root.height
  {
    assert Placed(nodes, root, n);
  }

  /** The ancestors of a node, nearest first; the chain ends at the root. */
  ghost function Ancestors(nodes: set<AstNode>, root: AstNode, n: AstNode): (r: seq<AstNode>)
    requires Ready(nodes, root) && n in nodes
    reads nodes`children, nodes`height, nodes`parent
    ensures forall m | m in r :: m in nodes
    ensures n == root <==> r == []
    ensures n != root ==> r[|r| - 1] == root
    decreases root.height - n.height
  {
    ParentIsHigher(nodes, root, n);
    if n.parent == null then [] else
      var rest := Ancestors(nodes, root, n.parent);
      assert n.parent == root || rest[|rest| - 1] == root;
      [n.parent] + rest
  }

  function SumHashes(ns: seq<AstNode>): HashType {
    if ns == [] then HashType(0, 0, 0, 0) else Add(ns[0].own, SumHashes(ns[1..]))
  }

  /** The identity of a node without any memo: the wrapping sum of its own hash and the own hashes of
      all its ancestors. */
  ghost function Identity(nodes: set<AstNode>, root: AstNode, n: AstNode): HashType
    requires Ready(nodes, root) && n in nodes
    reads nodes`children, nodes`height, nodes`parent
  {
    SumHashes([n] + Ancestors(nodes, root, n))
  }

  ghost function Word(h: HashType, k: nat): int {
    if k == 0 then h.w0 else if k == 1 then h.w1 else if k == 2 then h.w2 else h.w3
  }

  /** The unbounded sum of one word of the own hashes. */
  ghost function Total(ns: seq<AstNode>, k: nat): int {
    if ns == [] then 0 else Word(ns[0].own, k) + Total(ns[1..], k)
  }

  lemma {:induction false} SumIsModular(ns: seq<AstNode>, k: nat)
    requires k < 4
    ensures Word(SumHashes(ns), k) == Total(ns, k) % TWO_64
  {
    if ns != [] {
      SumIsModular(ns[1..], k);
      AddIsModular(ns[0].own, SumHashes(ns[1..]));
      SumModulo(Word(ns[0].own, k), Total(ns[1..], k));
    }
  }

  lemma SumModulo(a: int, b: int)
    ensures (a + b % TWO_64) % TWO_64 == (a + b) % TWO_64
  {
    var q := b / TWO_64;
    assert b == q * TWO_64 + b % TWO_64;
  }

  /** Each word of an identity is the sum of that word over the node and all its ancestors, modulo 2^64. */
  lemma IdentityIsModular(nodes: set<AstNode>, root: AstNode, n: AstNode, k: nat)
    requires Ready(nodes, root) && n in nodes && k < 4
    ensures Word(Identity(nodes, root, n), k) == Total([n] + Ancestors(nodes, root, n), k) % TWO_64
  {
    hide Ready, Ancestors, Word, Total, SumHashes;
    SumIsModular([n] + Ancestors(nodes, root, n), k);
  }

  ghost predicate MemosAgree(nodes: set<AstNode>, root: AstNode)
    requires Ready(nodes, root)
    reads nodes
  {
    forall n | n in nodes && n.hashed :: n.hash == Identity(nodes, root, n)
  }

  lemma AddZero(h: HashType)
    ensures Add(h, HashType(0, 0, 0, 0)) == h
  {}

  lemma IdentityUnfold(nodes: set<AstNode>, root: AstNode, n: AstNode)
    requires Ready(nodes, root) && n in nodes
    ensures n == root ==> n.parent == null && Identity(nodes, root, n) == n.own
    ensures n != root ==>
              && n.parent != null && n.parent in nodes
              && Identity(nodes, root, n) == Add(n.own, Identity(nodes, root, n.parent))
  {
    hide Add, Ready;
    ParentIsHigher(nodes, root, n);
    var up := Ancestors(nodes, root, n);
    var chain := [n] + up;
    assert chain[0] == n && chain[1..] == up;
    assert SumHashes(chain) == Add(n.own, SumHashes(up));
    if n == root {
      AddZero(n.own);
      assert up == [];
    }
  }

  /** The identity of a node, from its memo where there is one. */
  method GetHash(n: AstNode, ghost nodes: set<AstNode>, ghost root: AstNode) returns (h: HashType)
    requires Ready(nodes, root) && n in nodes && MemosAgree(nodes, root)
    modifies nodes`hash, nodes`hashed
    ensures h == Identity(nodes, root, n)
    ensures MemosAgree(nodes, root) && n.hashed
    ensures forall m | m in nodes && old(m.hashed) :: m.hashed && m.hash == old(m.hash)
    decreases root.height - n.height
  {
    hide Ready, Identity;
    if n.hashed {
      return n.hash;
    }
    IdentityUnfold(nodes, root, n);
    ParentIsHigher(nodes, root, n);
    h := n.own;
    if n.parent != null {
      var up := GetHash(n.parent, nodes, root);
      h := Add(h, up);
    }
    n.hash := h;
    n.hashed := true;
  }

  /** Any sequence of calls in any order answers with the identities. */
  method GetHashes(queries: seq<AstNode>, ghost nodes: set<AstNode>, ghost root: AstNode) returns (hs: seq<HashType>)
    requires Ready(nodes, root) && MemosAgree(nodes, root)
    requires forall q | q in queries :: q in nodes
    modifies nodes`hash, nodes`hashed
    ensures |hs| == |queries|
    ensures forall i :: 0 <= i < |hs| ==> hs[i] == Identity(nodes, root, queries[i])
    ensures MemosAgree(nodes, root)
  {
    hide Ready, Identity, MemosAgree;
    hs := [];
    var i := 0;
    while i < |queries|
      invariant 0 <= i <= |queries| && |hs| == i
      invariant MemosAgree(nodes, root)
      invariant forall j :: 0 <= j < i ==> hs[j] == Identity(nodes, root, queries[j])
    {
      assert queries[i] in queries;
      var h := GetHash(queries[i], nodes, root);
      hs := hs + [h];
      i := i + 1;
    }
  }

  /** From a fresh tree: parents are attached before any hashing, and all answers are identities. */
  method AttachAndHash(root: AstNode, ghost nodes: set<AstNode>, queries: seq<AstNode>) returns (hs: seq<HashType>)
    requires IsTree(nodes, root) && forall n | n in nodes :: !n.hashed
    requires forall q | q in queries :: q in nodes
    modifies nodes`parent, nodes`hash, nodes`hashed
    ensures Ready(nodes, root) && |hs| == |queries|
    ensures forall i :: 0 <= i < |hs| ==> hs[i] == Identity(nodes, root, queries[i])
  {
    AttachParents(root, nodes);
    hs := GetHashes(queries, nodes, root);
  }

  predicate NoMatch(up: seq<AstNode>, filt: AstNode -> bool) {
    forall j :: 0 <= j < |up| ==> !filt(up[j])
  }

  /** r is the first of the nodes that passes the filter; null if none does. */
  ghost predicate IsFirstMatch(up: seq<AstNode>, filt: AstNode -> bool, r: AstNode?) {
    if r == null then NoMatch(up, filt)
    else exists k :: 0 <= k < |up| && up[k] == r && filt(up[k]) && NoMatch(up[..k], filt)
  }

  lemma MatchAt(up: seq<AstNode>, filt: AstNode -> bool, k: nat)
    requires k < |up| && filt(up[k]) && NoMatch(up[..k], filt)
    ensures IsFirstMatch(up, filt, up[k])
  {}

  lemma NoMatchSnoc(up: seq<AstNode>, filt: AstNode -> bool, k: nat)
    requires k < |up| && !filt(up[k]) && NoMatch(up[..k], filt)
    ensures NoMatch(up[..k + 1], filt)
  {}

  /** The nearest ancestor that passes the filter; none if no ancestor does. */
  method Nearest(n: AstNode, filt: AstNode -> bool, ghost nodes: set<AstNode>, ghost root: AstNode)
    returns (r: AstNode?)
    requires Ready(nodes, root) && n in nodes
    ensures IsFirstMatch(Ancestors(nodes, root, n), filt, r)
  {
    hide Ready, Ancestors, IsFirstMatch, NoMatch;
    ghost var up := Ancestors(nodes, root, n);
    ghost var at, k := n, 0;
    var node := n.parent;
    AncestorsUnfold(nodes, root, n);
    assert up[0..] == up;
    assert NoMatch(up[..0], filt) by { NoMatchInNone(up[..0], filt); }
    while node != null
      invariant 0 <= k <= |up| && at in nodes && node == at.parent
      invariant up[k..] == Ancestors(nodes, root, at)
      invariant NoMatch(up[..k], filt)
      decreases root.height - at.height
    {
      ParentIsHigher(nodes, root, at);
      AncestorsUnfold(nodes, root, at);
      NextInSlice(up, k, node, Ancestors(nodes, root, node));
      if filt(node) {
        MatchAt(up, filt, k);
        return node;
      }
      NoMatchSnoc(up, filt, k);
      at, k := node, k + 1;
      node := node.parent;
    }
    AncestorsUnfold(nodes, root, at);
    assert up[..k] == up;
    NoMatchIsNull(up, filt);
    r := null;
  }

  lemma NoMatchInNone(up: seq<AstNode>, filt: AstNode -> bool)
    requires up == []
    ensures NoMatch(up, filt)
  {}

  lemma NoMatchIsNull(up: seq<AstNode>, filt: AstNode -> bool)
    requires NoMatch(up, filt)
    ensures IsFirstMatch(up, filt, null)
  {}

  lemma AncestorsUnfold(nodes: set<AstNode>, root: AstNode, n: AstNode)
    requires Ready(nodes, root) && n in nodes
    ensures n.parent == null ==> Ancestors(nodes, root, n) == []
    ensures n.parent != null ==>
              && n.parent in nodes
              && Ancestors(nodes, root, n) == [n.parent] + Ancestors(nodes, root, n.parent)
  {
    hide Ready;
    ParentIsHigher(nodes, root, n);
  }

  lemma NextInSlice(up: seq<AstNode>, k: nat, node: AstNode, rest: seq<AstNode>)
    requires k <= |up| && up[k..] == [node] + rest
    ensures k < |up| && up[k] == node && up[k + 1..] == rest
  {
    assert up[k] == up[k..][0] && up[k + 1..] == up[k..][1..];
  }
}
