/**
 * The spacing errors between two consecutive nodes (get-newlines-errors.ts).
 * The number of blank lines between the nodes, which the source reads from
 * the source code, is a parameter.
 */
module NewlinesErrors {
  import opened Common
  import opened NewlinesBetween

  /**
   * `getNewlinesErrors`: no error when the left node ranks after the right
   * one; otherwise at most one error under the policy between them.
   */
  function GetNewlinesErrors<M>(options: SpacingOptions, left: SortingNode, right: SortingNode, leftNum: int, rightNum: int,
                             linesBetween: nat, missedSpacingError: M, extraSpacingError: M): (r: seq<M>)
    ensures |r| <= 1
  {
    var newlinesBetween := NewlinesBetweenOption(options, left, right);
    if leftNum > rightNum then []
    else
      match newlinesBetween
      case Ignore => []
      case Never => if linesBetween > 0 then [extraSpacingError] else []
      case Always =>
        if linesBetween == 0 then [missedSpacingError]
        else if linesBetween > 1 then [extraSpacingError]
        else []
  }

  /** The blank-line counts a policy accepts: any, exactly none, or exactly one. */
  predicate SpacingAccepted(policy: Newlines, linesBetween: nat) {
    match policy
    case Ignore => true
    case Never => linesBetween == 0
    case Always => linesBetween == 1
  }

  /**
   * When the left node does not rank after the right one, there is an error
   * exactly when the policy between them rejects the blank-line count: the
   * missed-spacing error when there are too few lines, the extra-spacing
   * error when there are too many.
   */
  lemma NewlinesErrorsSpec<M>(options: SpacingOptions, left: SortingNode, right: SortingNode, leftNum: int, rightNum: int,
                              linesBetween: nat, missed: M, extra: M)
    ensures var r := GetNewlinesErrors(options, left, right, leftNum, rightNum, linesBetween, missed, extra);
      var policy := NewlinesBetweenOption(options, left, right);
      && (leftNum > rightNum ==> r == [])
      && (leftNum <= rightNum ==> (r == [] <==> SpacingAccepted(policy, linesBetween)))
      && (r == [missed] && missed != extra ==> policy == Always && linesBetween == 0)
      && (r == [extra] && missed != extra ==> (policy == Never && linesBetween > 0) || (policy == Always && linesBetween > 1))
  {
  }
}
