/**
 * The parse tree as this core sees it: the accessors Range, Children and Parent
 * of the parse package, and a grammar kind that stands for the node's dynamic
 * Go type. Nodes are named by their index in `nodes`; the parse tree itself is
 * not part of this model, only the shape it guarantees (see Tree.Valid).
 */
module SyntaxTree {

  type NodeId = nat

  /**
   * The dynamic type of a node: the productions the completer names, and
   * every other parse node type by its type name, so that two nodes have the
   * same kind exactly when they have the same Go type.
   */
  datatype Kind = Chunk | Pipeline | Form | Array | Compound | Indexing | Primary | Redir | Sep | Other(typeName: string)

  /** One node: its kind, its source range [from, to] and its children in source order. */
  datatype Node = Node(kind: Kind, from: int, to: int, children: seq<NodeId>)

  datatype Tree = Tree(nodes: seq<Node>, parent: map<NodeId, NodeId>) {

    predicate Has(n: NodeId) {
      n < |nodes|
    }

    /** Every node of a path (or any list of nodes) belongs to this tree. */
    predicate Contains(ns: seq<NodeId>) {
      forall i :: 0 <= i < |ns| ==> ns[i] < |nodes|
    }

    /**
     * Well-formedness of a parse tree: every child's parent is the node that
     * lists it, every parent link is the inverse of a child link, and nodes are
     * numbered so that a child's index exceeds its parent's (as a preorder
     * numbering does). The last condition makes the tree acyclic and means the
     * node with index 0 can have no parent.
     */
    ghost predicate Valid() {
      && (forall n, i :: 0 <= n < |nodes| && 0 <= i < |nodes[n].children| ==>
            n < nodes[n].children[i] < |nodes| &&
            nodes[n].children[i] in parent && parent[nodes[n].children[i]] == n)
      && (forall c :: c in parent ==>
            c < |nodes| && parent[c] < c && c in nodes[parent[c]].children)
    }

    function KindOf(n: NodeId): Kind
      requires Has(n)
    {
      nodes[n].kind
    }

    predicate IsLeaf(n: NodeId)
      requires Has(n)
    {
      |nodes[n].children| == 0
    }

    /** The closed range of `n` contains offset `p`: both ends are inclusive. */
    predicate Covers(n: NodeId, p: int)
      requires Has(n)
    {
      nodes[n].from <= p && p <= nodes[n].to
    }

    /** `x` is `y` or lies below it, following parent links up from `x`. */
    ghost predicate IsDescendant(x: NodeId, y: NodeId)
      requires Valid() && Has(x)
      decreases x
    {
      x == y || (x in parent && IsDescendant(parent[x], y))
    }

    /** Element `i + 1` of `r` is the parent of element `i`. */
    ghost predicate ParentLink(r: seq<NodeId>, i: int)
      requires 0 <= i < |r| - 1
    {
      r[i] in parent && parent[r[i]] == r[i + 1]
    }

    /**
     * The ancestor chain from `x` up to `y`, `x` first: what the upward loop of
     * findNodePath collects.
     */
    ghost function UpChain(x: NodeId, y: NodeId): (r: seq<NodeId>)
      requires Valid() && Has(x) && IsDescendant(x, y)
      ensures |r| >= 1 && r[0] == x && r[|r| - 1] == y
      ensures Contains(r)
      decreases x
    {
      if x == y then [x] else [x] + UpChain(parent[x], y)
    }

    /**
     * Two well-formedness conditions on ranges that a parser provides and that
     * the lemma about leaves needs: a child's range lies within its parent's,
     * and siblings follow one another in source order.
     */
    ghost predicate Nested() {
      forall n, i :: 0 <= n < |nodes| && 0 <= i < |nodes[n].children| && nodes[n].children[i] < |nodes| ==>
        nodes[n].from <= nodes[nodes[n].children[i]].from && nodes[nodes[n].children[i]].to <= nodes[n].to
    }

    ghost predicate Ordered() {
      forall n, i, j :: 0 <= n < |nodes| && 0 <= i < j < |nodes[n].children| &&
                        nodes[n].children[i] < |nodes| && nodes[n].children[j] < |nodes| ==>
        nodes[nodes[n].children[i]].to <= nodes[nodes[n].children[j]].from
    }
  }

  /**
   * The chain from `x` up to `y` lies in the tree and each element after the
   * first is the parent of the one before it.
   */
  lemma {:induction false} UpChainLinked(t: Tree, x: NodeId, y: NodeId)
    requires t.Valid() && t.Has(x) && t.IsDescendant(x, y)
    ensures t.Contains(t.UpChain(x, y))
    ensures forall i :: 0 <= i < |t.UpChain(x, y)| - 1 ==> t.ParentLink(t.UpChain(x, y), i)
    ensures forall i, j :: 0 <= i < j < |t.UpChain(x, y)| ==> t.UpChain(x, y)[j] < t.UpChain(x, y)[i]
    decreases x
  {
    if x != y {
      var rest := t.UpChain(t.parent[x], y);
      UpChainLinked(t, t.parent[x], y);
      var r := t.UpChain(x, y);
      assert r == [x] + rest;
      forall i | 0 <= i < |r| - 1 ensures t.ParentLink(r, i) {
        if i > 0 { assert t.ParentLink(rest, i - 1); }
      }
      forall i, j | 0 <= i < j < |r| ensures r[j] < r[i] {
        if i == 0 {
          if j > 1 { assert rest[j - 1] < rest[0]; }
        } else {
          assert rest[j - 1] < rest[i - 1];
        }
      }
    }
  }

  /** The chain from `x` up to `n` is the chain up to `n`'s child `c` followed by `n`. */
  lemma {:induction false} UpChainThroughParent(t: Tree, x: NodeId, c: NodeId, n: NodeId)
    requires t.Valid() && t.Has(x) && t.Has(c)
    requires t.IsDescendant(x, c) && c in t.parent && t.parent[c] == n
    ensures t.IsDescendant(x, n)
    ensures t.UpChain(x, n) == t.UpChain(x, c) + [n]
    decreases x
  {
    DescendantThroughParent(t, x, c, n);
    DescendantIndex(t, x, c);
    if x != c {
      var q := t.parent[x];
      UpChainThroughParent(t, q, c, n);
      assert t.UpChain(x, n) == [x] + t.UpChain(q, n);
      assert t.UpChain(x, c) == [x] + t.UpChain(q, c);
    }
  }

  /** A descendant's index is at least its ancestor's. */
  lemma {:induction false} DescendantIndex(t: Tree, x: NodeId, y: NodeId)
    requires t.Valid() && t.Has(x) && t.IsDescendant(x, y)
    ensures y <= x
    decreases x
  {
    if x != y {
      DescendantIndex(t, t.parent[x], y);
    }
  }

  /** Descent is transitive through one parent link. */
  lemma {:induction false} DescendantThroughParent(t: Tree, x: NodeId, c: NodeId, n: NodeId)
    requires t.Valid() && t.Has(x) && t.Has(c)
    requires t.IsDescendant(x, c) && c in t.parent && t.parent[c] == n
    ensures t.IsDescendant(x, n)
    decreases x
  {
    if x != c {
      DescendantThroughParent(t, t.parent[x], c, n);
    }
  }

  /** Descent composes: below `m`, which lies below `n`, is below `n`. */
  lemma {:induction false} DescendantChain(t: Tree, x: NodeId, m: NodeId, n: NodeId)
    requires t.Valid() && t.Has(x) && t.Has(m)
    requires t.IsDescendant(x, m) && t.IsDescendant(m, n)
    ensures t.IsDescendant(x, n)
    decreases x
  {
    if x != m {
      DescendantChain(t, t.parent[x], m, n);
    }
  }

  /** Under nested ranges, a descendant's range lies within its ancestor's. */
  lemma {:induction false} DescendantRangeWithin(t: Tree, x: NodeId, y: NodeId)
    requires t.Valid() && t.Nested() && t.Has(x) && t.Has(y) && t.IsDescendant(x, y)
    ensures t.nodes[y].from <= t.nodes[x].from && t.nodes[x].to <= t.nodes[y].to
    decreases x
  {
    if x != y {
      var q := t.parent[x];
      DescendantRangeWithin(t, q, y);
      var i :| 0 <= i < |t.nodes[q].children| && t.nodes[q].children[i] == x;
    }
  }

  /** The child of `n` on the way from `x` up to `n`, for `x` strictly below `n`. */
  ghost function ChildToward(t: Tree, x: NodeId, n: NodeId): (c: NodeId)
    requires t.Valid() && t.Has(x) && t.IsDescendant(x, n) && x != n
    ensures t.Has(c) && c in t.parent && t.parent[c] == n && t.IsDescendant(x, c)
    decreases x
  {
    if t.parent[x] == n then x else ChildToward(t, t.parent[x], n)
  }
}
