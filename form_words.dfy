/**
 * purelyEvalForm: the words of a command form as far as they can be
 * evaluated without side effects: the head, each argument that starts
 * before the cursor and evaluates purely, and the seed being completed.
 */
module FormWords {
  import opened SyntaxTree
  import opened PureEval

  /** A Form node: its head compound and its argument compounds, in source order. */
  datatype FormNode = FormNode(head: NodeId, args: seq<NodeId>)

  /**
   * How many leading arguments start before `upto`: the loop of purelyEvalForm
   * stops at the first argument whose range starts at or after it.
   */
  function Cutoff(t: Tree, args: seq<NodeId>, upto: int): (k: nat)
    requires t.Contains(args)
    ensures k <= |args|
    ensures forall i :: 0 <= i < k ==> t.nodes[args[i]].from < upto
    ensures k < |args| ==> t.nodes[args[k]].from >= upto
  {
    if args == [] || t.nodes[args[0]].from >= upto then 0
    else 1 + Cutoff(t, args[1..], upto)
  }

  /** The values of the compounds of `xs` that evaluate purely, in order; the others are skipped. */
  function Evaluable(ev: PureEvaler, xs: seq<NodeId>): (ws: seq<string>)
    ensures |ws| <= |xs|
  {
    if xs == [] then []
    else
      var last := ev.compound(xs[|xs| - 1]);
      Evaluable(ev, xs[..|xs| - 1]) + (if last.ok then [last.value] else [])
  }

  /**
   * purelyEvalForm: the head evaluated partially with end offset -1, then
   * the evaluable arguments before the cutoff, then the seed.
   */
  method PurelyEvalForm(t: Tree, form: FormNode, seed: string, upto: int, ev: PureEvaler) returns (words: seq<string>)
    requires t.Has(form.head) && t.Contains(form.args)
    ensures words == [ev.partialCompound(form.head, -1).value] +
                     Evaluable(ev, form.args[..Cutoff(t, form.args, upto)]) + [seed]
    ensures 2 <= |words| <= Cutoff(t, form.args, upto) + 2 <= |form.args| + 2
    ensures EmptyOnFailure(ev) && !ev.partialCompound(form.head, -1).ok ==> words[0] == ""
  {
    var head := ev.partialCompound(form.head, -1).value;
    words := [head];
    var i := 0;
    while i < |form.args|
      invariant 0 <= i <= |form.args|
      invariant forall j :: 0 <= j < i ==> t.nodes[form.args[j]].from < upto
      invariant words == [head] + Evaluable(ev, form.args[..i])
    {
      var compound := form.args[i];
      if t.nodes[compound].from >= upto {
        break;
      }
      var arg := ev.compound(compound);
      assert form.args[..i + 1][..i] == form.args[..i];
      if arg.ok {
        words := words + [arg.value];
      }
      i := i + 1;
    }
    assert i == Cutoff(t, form.args, upto);
    words := words + [seed];
  }

  /** Evaluating the words of a concatenation concatenates the words: order is kept. */
  lemma {:induction false} EvaluableAppend(ev: PureEvaler, xs: seq<NodeId>, ys: seq<NodeId>)
    ensures Evaluable(ev, xs + ys) == Evaluable(ev, xs) + Evaluable(ev, ys)
    decreases |ys|
  {
    if ys == [] {
      assert xs + ys == xs;
    } else {
      var init := ys[..|ys| - 1];
      assert (xs + ys)[..|xs + ys| - 1] == xs + init;
      assert (xs + ys)[|xs + ys| - 1] == ys[|ys| - 1];
      EvaluableAppend(ev, xs, init);
    }
  }

  /**
   * The words are exactly the values of the compounds that evaluate purely:
   * nothing else appears and none of them is dropped.
   */
  lemma {:induction false} EvaluableWords(ev: PureEvaler, xs: seq<NodeId>, w: string)
    ensures w in Evaluable(ev, xs) <==> exists i :: 0 <= i < |xs| && ev.compound(xs[i]) == Eval(w, true)
    decreases |xs|
  {
    if xs != [] {
      var init := xs[..|xs| - 1];
      EvaluableWords(ev, init, w);
      if exists i :: 0 <= i < |xs| && ev.compound(xs[i]) == Eval(w, true) {
        var i :| 0 <= i < |xs| && ev.compound(xs[i]) == Eval(w, true);
        if i < |xs| - 1 {
          assert init[i] == xs[i];
        }
      }
      if exists i :: 0 <= i < |init| && ev.compound(init[i]) == Eval(w, true) {
        var i :| 0 <= i < |init| && ev.compound(init[i]) == Eval(w, true);
        assert xs[i] == init[i];
      }
    }
  }

  /** When every compound evaluates, each contributes its value in its own position. */
  lemma {:induction false} EvaluableAllOk(ev: PureEvaler, xs: seq<NodeId>)
    requires forall i :: 0 <= i < |xs| ==> ev.compound(xs[i]).ok
    ensures |Evaluable(ev, xs)| == |xs|
    ensures forall i :: 0 <= i < |xs| ==> Evaluable(ev, xs)[i] == ev.compound(xs[i]).value
    decreases |xs|
  {
    if xs != [] {
      var init := xs[..|xs| - 1];
      EvaluableAllOk(ev, init);
      forall i | 0 <= i < |xs| ensures Evaluable(ev, xs)[i] == ev.compound(xs[i]).value {
        if i < |xs| - 1 {
          assert init[i] == xs[i];
        }
      }
    }
  }

  /** A later cursor never cuts off more arguments. */
  lemma {:induction false} CutoffMonotone(t: Tree, args: seq<NodeId>, upto: int, upto2: int)
    requires t.Contains(args) && upto <= upto2
    ensures Cutoff(t, args, upto) <= Cutoff(t, args, upto2)
  {
    var k := Cutoff(t, args, upto);
    if k > 0 {
      assert t.nodes[args[k - 1]].from < upto2;
    }
  }

  /**
   * Moving the cursor later only extends the argument words: those for the
   * earlier cursor are a prefix of those for the later one.
   */
  lemma WordsGrowWithCursor(t: Tree, args: seq<NodeId>, ev: PureEvaler, upto: int, upto2: int)
    requires t.Contains(args) && upto <= upto2
    ensures var early := Evaluable(ev, args[..Cutoff(t, args, upto)]);
            early <= Evaluable(ev, args[..Cutoff(t, args, upto2)])
  {
    var k, k2 := Cutoff(t, args, upto), Cutoff(t, args, upto2);
    CutoffMonotone(t, args, upto, upto2);
    assert args[..k2] == args[..k] + args[k..k2];
    EvaluableAppend(ev, args[..k], args[k..k2]);
  }
}
