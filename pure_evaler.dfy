/**
 * The PureEvaler interface the completer is given. Its implementation
 * (variables, quoting, substitutions) is not part of this model: an evaluator
 * is any pair of total functions, supplied by the caller.
 */
module PureEval {
  import opened SyntaxTree

  /** What both evaluator operations return: Go's (string, bool) pair. */
  datatype Eval = Eval(value: string, ok: bool)

  /**
   * PurelyEvalPartialCompound(compound, upto) and PurelyEvalCompound(compound),
   * with the compound named by its node.
   */
  datatype PureEvaler = PureEvaler(partialCompound: (NodeId, int) -> Eval, compound: NodeId -> Eval)

  /**
   * The convention the completer relies on for form heads: a partial
   * evaluation that fails yields the empty string.
   */
  ghost predicate EmptyOnFailure(ev: PureEvaler) {
    forall n, upto :: !ev.partialCompound(n, upto).ok ==> ev.partialCompound(n, upto).value == ""
  }
}
