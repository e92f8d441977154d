/**
 * findNodePath: descend from a root to the leaf whose range contains the
 * cursor, then collect the ancestor chain back up to the root, leaf first.
 */
module NodePath {
  import opened Wrappers
  import opened SyntaxTree

  /** Where the descent stops: at a leaf, or at a node none of whose children covers the cursor. */
  datatype Descent = Reached(leaf: NodeId) | Stuck(at: NodeId) {
    function Node(): NodeId {
      if Reached? then leaf else at
    }
  }

  /** The first node of `chs`, in order, whose closed range contains `p`. */
  function FirstCovering(t: Tree, chs: seq<NodeId>, p: int): (r: Option<NodeId>)
    requires t.Contains(chs)
    ensures r.Some? ==> r.value in chs && t.Covers(r.value, p)
  {
    if chs == [] then None
    else if t.Covers(chs[0], p) then Some(chs[0])
    else FirstCovering(t, chs[1..], p)
  }

  /**
   * The descent of findNodePath from `n`: at each node with children, move to
   * the first child covering `p`; stop at a leaf, or get stuck when no child
   * covers `p`.
   */
  ghost function Descend(t: Tree, n: NodeId, p: int): (r: Descent)
    requires t.Valid() && t.Has(n)
    ensures t.Has(r.Node()) && t.IsDescendant(r.Node(), n)
    ensures r.Reached? ==> t.IsLeaf(r.leaf)
    ensures r.Stuck? ==> !t.IsLeaf(r.at)
    decreases |t.nodes| - n
  {
    var chs := t.nodes[n].children;
    if |chs| == 0 then Reached(n)
    else
      assert t.Contains(chs);
      match FirstCovering(t, chs, p)
      case None => Stuck(n)
      case Some(c) =>
        var r := Descend(t, c, p);
        DescendantThroughParent(t, r.Node(), c, n);
        r
  }

  /** The value findNodePath returns: the ancestor chain of the leaf reached, or the empty (nil) path. */
  ghost function NodePath(t: Tree, root: NodeId, p: int): (path: seq<NodeId>)
    requires t.Valid() && t.Has(root)
    ensures path != [] ==> t.Contains(path) && t.IsLeaf(path[0]) && path[|path| - 1] == root
  {
    match Descend(t, root, p)
    case Reached(leaf) => t.UpChain(leaf, root)
    case Stuck(_) => []
  }

  /** findNodePath: the labelled descent loop, then the walk up the parent links. */
  method FindNodePath(t: Tree, root: NodeId, p: int) returns (path: seq<NodeId>)
    requires t.Valid() && t.Has(root)
    ensures path == NodePath(t, root, p)
    ensures t.IsLeaf(root) ==> path == [root]
  {
    var n := root;
    label descend:
    while |t.nodes[n].children| > 0
      invariant t.Has(n) && t.IsDescendant(n, root)
      invariant Descend(t, root, p) == Descend(t, n, p)
      decreases |t.nodes| - n
    {
      var chs := t.nodes[n].children;
      assert t.Contains(chs);
      for i := 0 to |chs|
        invariant FirstCovering(t, chs, p) == FirstCovering(t, chs[i..], p)
      {
        var ch := chs[i];
        assert chs[i..][1..] == chs[i + 1..];
        if t.Covers(ch, p) {
          assert FirstCovering(t, chs, p) == Some(ch);
          assert Descend(t, n, p) == Descend(t, ch, p);
          DescendantChain(t, ch, n, root);
          n := ch;
          continue descend;
        }
      }
      assert chs[|chs|..] == [];
      assert Descend(t, n, p) == Stuck(n);
      return [];
    }
    assert Descend(t, n, p) == Reached(n);
    path := AncestorPath(t, n, root);
  }

  /** The second loop of findNodePath: follow parent links from `leaf` until `root`, appending each node. */
  method AncestorPath(t: Tree, leaf: NodeId, root: NodeId) returns (path: seq<NodeId>)
    requires t.Valid() && t.Has(leaf) && t.IsDescendant(leaf, root)
    ensures path == t.UpChain(leaf, root)
  {
    ghost var chain := t.UpChain(leaf, root);
    UpChainLinked(t, leaf, root);
    ghost var k := 0;
    var n := leaf;
    path := [];
    while true
      invariant 0 <= k < |chain| && n == chain[k]
      invariant |path| == k && forall i :: 0 <= i < k ==> path[i] == chain[i]
      decreases |chain| - k
    {
      path := path + [n];
      if n == root {
        break;
      }
      assert t.ParentLink(chain, k);
      n, k := t.parent[n], k + 1;
    }
  }

  /**
   * FirstCovering picks the first covering child in child order, and finds
   * none exactly when no child's closed range contains `p`.
   */
  lemma {:induction false} FirstCoveringIsFirst(t: Tree, chs: seq<NodeId>, p: int)
    requires t.Contains(chs)
    ensures FirstCovering(t, chs, p).Some? ==>
              exists k :: 0 <= k < |chs| && chs[k] == FirstCovering(t, chs, p).value && t.Covers(chs[k], p) &&
                          forall j :: 0 <= j < k ==> !t.Covers(chs[j], p)
    ensures FirstCovering(t, chs, p).None? <==> forall j :: 0 <= j < |chs| ==> !t.Covers(chs[j], p)
  {
    if chs != [] && !t.Covers(chs[0], p) {
      FirstCoveringIsFirst(t, chs[1..], p);
      assert forall j :: 1 <= j < |chs| ==> chs[j] == chs[1..][j - 1];
      if FirstCovering(t, chs[1..], p).Some? {
        var k :| 0 <= k < |chs| - 1 && chs[1..][k] == FirstCovering(t, chs[1..], p).value &&
                 t.Covers(chs[1..][k], p) && forall j :: 0 <= j < k ==> !t.Covers(chs[1..][j], p);
        assert chs[k + 1] == FirstCovering(t, chs, p).value;
      }
    }
  }

  /** Conversely, when `chs[k]` is the first covering child, FirstCovering returns it. */
  lemma {:induction false} FirstCoveringAt(t: Tree, chs: seq<NodeId>, p: int, k: nat)
    requires t.Contains(chs) && k < |chs| && t.Covers(chs[k], p)
    requires forall j :: 0 <= j < k ==> !t.Covers(chs[j], p)
    ensures FirstCovering(t, chs, p) == Some(chs[k])
  {
    if k > 0 {
      FirstCoveringAt(t, chs[1..], p, k - 1);
    }
  }

  /** A descent gets stuck only at a node with children none of which covers `p`. */
  lemma {:induction false} DescendStuck(t: Tree, n: NodeId, p: int)
    requires t.Valid() && t.Has(n)
    ensures var r := Descend(t, n, p);
            r.Stuck? ==> |t.nodes[r.at].children| > 0 &&
                         forall i :: 0 <= i < |t.nodes[r.at].children| ==> !t.Covers(t.nodes[r.at].children[i], p)
    decreases |t.nodes| - n
  {
    var chs := t.nodes[n].children;
    if |chs| > 0 {
      assert t.Contains(chs);
      FirstCoveringIsFirst(t, chs, p);
      match FirstCovering(t, chs, p)
      case None =>
      case Some(c) => DescendStuck(t, c, p);
    }
  }

  /**
   * Every node the descent passes through below `n`, down to and including
   * where it stops, covers `p`; `n` itself is never checked.
   */
  lemma {:induction false} DescendCovers(t: Tree, n: NodeId, p: int)
    requires t.Valid() && t.Has(n)
    ensures forall i :: 0 <= i < |t.UpChain(Descend(t, n, p).Node(), n)| - 1 ==>
                          t.Covers(t.UpChain(Descend(t, n, p).Node(), n)[i], p)
    decreases |t.nodes| - n
  {
    var chs := t.nodes[n].children;
    if |chs| > 0 {
      assert t.Contains(chs);
      match FirstCovering(t, chs, p)
      case None =>
      case Some(c) =>
        var d := Descend(t, c, p).Node();
        DescendCovers(t, c, p);
        UpChainThroughParent(t, d, c, n);
        assert Descend(t, n, p) == Descend(t, c, p);
        var below := t.UpChain(d, c);
        var chain := t.UpChain(d, n);
        assert chain == below + [n];
        forall i | 0 <= i < |chain| - 1 ensures t.Covers(chain[i], p) {
          assert chain[i] == below[i];
          if i == |below| - 1 { assert below[i] == c; }
        }
    }
  }

  /**
   * The shape of a non-nil result of findNodePath: a leaf first, `root` last,
   * each element the parent of the one before, and every element except
   * possibly `root` covering the cursor.
   */
  lemma NodePathShape(t: Tree, root: NodeId, p: int)
    requires t.Valid() && t.Has(root)
    ensures var path := NodePath(t, root, p);
            path != [] ==>
              && t.Contains(path)
              && t.IsLeaf(path[0])
              && path[|path| - 1] == root
              && (forall i :: 0 <= i < |path| - 1 ==> t.ParentLink(path, i))
              && (forall i :: 0 <= i < |path| - 1 ==> t.Covers(path[i], p))
  {
    var d := Descend(t, root, p);
    if d.Reached? {
      UpChainLinked(t, d.leaf, root);
      DescendCovers(t, root, p);
      assert NodePath(t, root, p) == t.UpChain(d.Node(), root);
    }
  }

  /**
   * findNodePath returns nil exactly when the descent reaches a node that has
   * children but none whose closed range contains `p`; that node lies below
   * `root` on a chain of nodes covering `p`.
   */
  lemma NodePathNil(t: Tree, root: NodeId, p: int)
    requires t.Valid() && t.Has(root)
    ensures NodePath(t, root, p) == [] <==> Descend(t, root, p).Stuck?
    ensures var r := Descend(t, root, p);
            r.Stuck? ==>
              && t.IsDescendant(r.at, root)
              && |t.nodes[r.at].children| > 0
              && (forall i :: 0 <= i < |t.nodes[r.at].children| ==> !t.Covers(t.nodes[r.at].children[i], p))
              && (forall i :: 0 <= i < |t.UpChain(r.at, root)| - 1 ==> t.Covers(t.UpChain(r.at, root)[i], p))
  {
    DescendStuck(t, root, p);
    DescendCovers(t, root, p);
  }

  /**
   * When ranges nest and siblings follow one another, a cursor inside a leaf
   * (after its start, up to and including its end) makes findNodePath return
   * the chain from that leaf up to `root`.
   */
  lemma FindsLeafAtCursor(t: Tree, root: NodeId, leaf: NodeId, p: int)
    requires t.Valid() && t.Nested() && t.Ordered()
    requires t.Has(root) && t.Has(leaf) && t.IsLeaf(leaf) && t.IsDescendant(leaf, root)
    requires t.nodes[leaf].from < p <= t.nodes[leaf].to
    ensures NodePath(t, root, p) == t.UpChain(leaf, root)
  {
    DescendReachesLeaf(t, root, leaf, p);
  }

  lemma {:induction false} DescendReachesLeaf(t: Tree, n: NodeId, leaf: NodeId, p: int)
    requires t.Valid() && t.Nested() && t.Ordered()
    requires t.Has(n) && t.Has(leaf) && t.IsLeaf(leaf) && t.IsDescendant(leaf, n)
    requires t.nodes[leaf].from < p <= t.nodes[leaf].to
    ensures Descend(t, n, p) == Reached(leaf)
    decreases |t.nodes| - n
  {
    if leaf != n {
      var c := ChildToward(t, leaf, n);
      var chs := t.nodes[n].children;
      var k :| 0 <= k < |chs| && chs[k] == c;
      assert t.Contains(chs);
      DescendantRangeWithin(t, leaf, c);
      forall j | 0 <= j < k ensures !t.Covers(chs[j], p) {
        assert t.nodes[chs[j]].to <= t.nodes[c].from;
      }
      FirstCoveringAt(t, chs, p, k);
      DescendReachesLeaf(t, c, leaf, p);
    }
  }
}
