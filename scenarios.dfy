/**
 * Worked examples on a concrete parse tree. The tree stands for a three-word
 * command line such as `echo foo ba`: one Chunk, one Pipeline, one Form, and
 * for each word a Compound holding an Indexing holding a Primary leaf.
 * Separator nodes are omitted, so the offsets between words are gaps.
 */
module Scenarios {
  import opened Wrappers
  import opened SyntaxTree
  import opened PureEval
  import opened NodePath
  import opened Matchers
  import opened FormWords

  /** Node k of the tree: Chunk 0, Pipeline 1, Form 2; words at [0, 4], [5, 8] and [9, 11]. */
  function NodeAt(k: int): Node {
    match k
    case 0 => Node(Chunk, 0, 11, [1])
    case 1 => Node(Pipeline, 0, 11, [2])
    case 2 => Node(Form, 0, 11, [3, 6, 9])
    case 3 => Node(Compound, 0, 4, [4])
    case 4 => Node(Indexing, 0, 4, [5])
    case 5 => Node(Primary, 0, 4, [])
    case 6 => Node(Compound, 5, 8, [7])
    case 7 => Node(Indexing, 5, 8, [8])
    case 8 => Node(Primary, 5, 8, [])
    case 9 => Node(Compound, 9, 11, [10])
    case 10 => Node(Indexing, 9, 11, [11])
    case _ => Node(Primary, 9, 11, [])
  }

  /** The Compounds 3, 6 and 9 hang off the Form; every other node off the node before it. */
  function ParentOf(c: nat): nat {
    if c % 3 == 0 then 2 else c - 1
  }

  /** The children of each node, in closed form. */
  lemma ChildrenOf(n: int)
    requires 0 <= n
    ensures NodeAt(n).children == if n == 2 then [3, 6, 9] else if n % 3 == 2 || n > 11 then [] else [n + 1]
  {
  }

  function CommandLine(): (t: Tree)
    ensures t.Valid() && |t.nodes| == 12
    ensures forall k :: 0 <= k < 12 ==> t.nodes[k] == NodeAt(k)
  {
    var t := Tree(seq(12, k => NodeAt(k)), map c | 1 <= c < 12 :: ParentOf(c));
    ChildLinks(t);
    ParentLinks(t);
    t
  }

  lemma ChildLinks(t: Tree)
    requires t == Tree(seq(12, k => NodeAt(k)), map c | 1 <= c < 12 :: ParentOf(c))
    ensures forall n, i :: 0 <= n < |t.nodes| && 0 <= i < |t.nodes[n].children| ==>
              n < t.nodes[n].children[i] < |t.nodes| && t.nodes[n].children[i] in t.parent &&
              t.parent[t.nodes[n].children[i]] == n
  {
    forall n, i | 0 <= n < |t.nodes| && 0 <= i < |t.nodes[n].children|
      ensures n < t.nodes[n].children[i] < |t.nodes| && t.nodes[n].children[i] in t.parent &&
              t.parent[t.nodes[n].children[i]] == n
    {
      assert t.nodes[n] == NodeAt(n);
      ChildrenOf(n);
    }
  }

  lemma ParentLinks(t: Tree)
    requires t == Tree(seq(12, k => NodeAt(k)), map c | 1 <= c < 12 :: ParentOf(c))
    ensures forall c :: c in t.parent ==> c < |t.nodes| && t.parent[c] < c && c in t.nodes[t.parent[c]].children
  {
    forall c | c in t.parent ensures c < |t.nodes| && t.parent[c] < c && c in t.nodes[t.parent[c]].children {
      assert t.nodes[ParentOf(c)] == NodeAt(ParentOf(c));
      ChildrenOf(ParentOf(c));
      if c % 3 == 0 {
        assert NodeAt(2).children[c / 3 - 1] == c;
      } else {
        assert NodeAt(c - 1).children[0] == c;
      }
    }
  }

  /** An evaluator for `echo foo ba`: every word evaluates to its text. */
  function Literals(): PureEvaler {
    PureEvaler(
      (c: NodeId, upto: int) => if c == 3 then Eval("echo", true) else if c == 9 then Eval("ba", true) else Eval("", false),
      (c: NodeId) => if c == 3 then Eval("echo", true) else if c == 6 then Eval("foo", true)
                     else if c == 9 then Eval("ba", true) else Eval("", false))
  }

  /**
   * The same tree read with an evaluator that fails on the middle word, as it
   * does for a word such as `$x` that needs a variable: only the first and the
   * last word evaluate.
   */
  function WithVariable(): PureEvaler {
    PureEvaler(
      (c: NodeId, upto: int) => if c == 3 then Eval("echo", true) else Eval("", false),
      (c: NodeId) => if c == 3 then Eval("echo", true) else if c == 9 then Eval("fo", true) else Eval("", false))
  }

  /**
   * `echo foo ba` with the cursor at the end: the path runs from the leaf
   * Primary of `ba` up to the Chunk.
   */
  lemma PathAtEndOfBa()
    ensures NodePath.NodePath(CommandLine(), 0, 11) == [11, 10, 9, 2, 1, 0]
  {
    DescendToBa();
    ChainFromBa();
  }

  /** The descent for offset 11 skips `echo` and `foo` and ends at the Primary of `ba`. */
  lemma DescendToBa()
    ensures Descend(CommandLine(), 0, 11) == Reached(11)
  {
    var t := CommandLine();
    assert t.nodes[11] == NodeAt(11) && t.nodes[10] == NodeAt(10) && t.nodes[9] == NodeAt(9);
    assert Descend(t, 9, 11) == Reached(11);
    assert t.nodes[2] == NodeAt(2) && t.nodes[3] == NodeAt(3) && t.nodes[6] == NodeAt(6);
    assert FirstCovering(t, [3, 6, 9], 11) == Some(9);
    assert Descend(t, 2, 11) == Reached(11);
    assert t.nodes[1] == NodeAt(1) && t.nodes[0] == NodeAt(0);
  }

  /** The ancestors of that Primary, leaf first. */
  lemma ChainFromBa()
    ensures CommandLine().IsDescendant(11, 0)
    ensures CommandLine().UpChain(11, 0) == [11, 10, 9, 2, 1, 0]
  {
    var t := CommandLine();
    assert t.IsDescendant(2, 0);
    assert t.IsDescendant(11, 0);
    assert t.UpChain(2, 0) == [2, 1, 0];
    assert t.UpChain(11, 0) == [11, 10, 9] + t.UpChain(2, 0);
  }

  /** On that path the simple-primary matcher succeeds, consumes three nodes and records "ba". */
  lemma SimplePrimaryOnBa()
    ensures SimplePrimaryConsume(CommandLine(), Literals(), [11, 10, 9, 2, 1, 0]) == Some([2, 1, 0])
    ensures CaptureOf(CommandLine(), Literals(), [11, 10, 9, 2, 1, 0]) == Captures("ba", Some(9), Some(11))
  {
    var t := CommandLine();
    assert t.nodes[11] == NodeAt(11) && t.nodes[10] == NodeAt(10) && t.nodes[9] == NodeAt(9);
    assert [11, 10, 9, 2, 1, 0][3..] == [2, 1, 0];
  }

  /** The words of the Form before `ba`, with seed "ba", are echo, foo, ba. */
  lemma WordsOfEchoFooBa()
    ensures var args := CommandLine().nodes[2].children[1..];
            [Literals().partialCompound(3, -1).value] + Evaluable(Literals(), args[..Cutoff(CommandLine(), args, 9)]) + ["ba"]
              == ["echo", "foo", "ba"]
  {
    var t := CommandLine();
    assert t.nodes[2] == NodeAt(2) && t.nodes[6] == NodeAt(6) && t.nodes[9] == NodeAt(9);
    var args := t.nodes[2].children[1..];
    assert args == [6, 9];
    assert Cutoff(t, args, 9) == 1;
    assert args[..1] == [6];
  }

  /**
   * On the same tree, with the middle word unevaluable and the cursor in the
   * last word (seed "fo"): the middle word is skipped rather than replaced, so
   * the words are echo and the seed fo.
   */
  lemma EchoVariableSkipped()
    ensures var args := CommandLine().nodes[2].children[1..];
            [WithVariable().partialCompound(3, -1).value] + Evaluable(WithVariable(), args[..Cutoff(CommandLine(), args, 9)]) + ["fo"]
              == ["echo", "fo"]
  {
    var t := CommandLine();
    assert t.nodes[2] == NodeAt(2) && t.nodes[6] == NodeAt(6) && t.nodes[9] == NodeAt(9);
    var args := t.nodes[2].children[1..];
    assert args == [6, 9];
    assert Cutoff(t, args, 9) == 1;
    assert args[..1] == [6];
  }

  /**
   * A cursor past the end of the input is covered by no child of the Chunk:
   * the path is nil, and a matcher sequence with at least one matcher fails on it.
   */
  lemma CursorPastEnd(ms: seq<Matcher>)
    requires |ms| > 0
    ensures NodePath.NodePath(CommandLine(), 0, 12) == []
    ensures Run(CommandLine(), ms, []).None?
  {
    var t := CommandLine();
    assert t.nodes[0] == NodeAt(0) && t.nodes[1] == NodeAt(1);
    assert FirstCovering(t, [1], 12) == None;
    assert Descend(t, 0, 12) == Stuck(0);
  }
}
