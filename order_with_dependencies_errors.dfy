/**
 * The errors for a pair of consecutive nodes when nodes may depend on each
 * other (get-order-with-dependencies-errors.ts): a dependency-order error
 * when some node that should come after the right one does not, otherwise
 * the order or group-order error; the spacing errors always follow.
 */
module DependencyOrderErrors {
  import opened Common
  import GroupNumbers
  import opened NewlinesBetween
  import NewlinesErrors
  import opened OrderErrors

  /** The message ids, all required here. */
  datatype DependencyMessageIds<M> = DependencyMessageIds(
    missedSpacingBetweenMembers: M, extraSpacingBetweenMembers: M,
    unexpectedDependencyOrder: M, unexpectedGroupOrder: M, unexpectedOrder: M)

  /**
   * `getOrderWithDependenciesErrors`; `firstUnorderedNodeDependentOnRight` is
   * what the dependency sort reports for the right node, and the blank lines
   * between the nodes are a parameter.
   */
  function GetOrderWithDependenciesErrors<M>(sortedNodesExcludingEslintDisabled: seq<SortingNode>,
                                             firstUnorderedNodeDependentOnRight: Option<SortingNode>,
                                             ids: DependencyMessageIds<M>, nodeIndexMap: map<SortingNode, nat>,
                                             linesBetween: nat, options: SpacingOptions,
                                             left: SortingNode, right: SortingNode): seq<M>
    requires left in nodeIndexMap && right in nodeIndexMap
  {
    var leftNumber := GroupNumbers.GroupNumber(options.groups, left.group);
    var rightNumber := GroupNumbers.GroupNumber(options.groups, right.group);
    var leftIndex := nodeIndexMap[left];
    var rightIndex := nodeIndexMap[right];
    var indexOfRightExcludingEslintDisabled := IndexOf(sortedNodesExcludingEslintDisabled, right);
    var messageIds :=
      if firstUnorderedNodeDependentOnRight.Some? then [ids.unexpectedDependencyOrder]
      else if leftIndex > rightIndex || leftIndex >= indexOfRightExcludingEslintDisabled then
        [if leftNumber == rightNumber then ids.unexpectedOrder else ids.unexpectedGroupOrder]
      else [];
    messageIds + NewlinesErrors.GetNewlinesErrors(options, left, right, leftNumber, rightNumber, linesBetween,
                                                  ids.missedSpacingBetweenMembers, ids.extraSpacingBetweenMembers)
  }

  /**
   * A dependent node yields the dependency-order error whatever the
   * positions; without one, the order error follows the rule of
   * `getOrderErrors`; at most one of them is reported and the spacing errors
   * always follow.
   */
  lemma GetOrderWithDependenciesErrorsSpec<M>(sortedNodesExcludingEslintDisabled: seq<SortingNode>,
                                              firstUnorderedNodeDependentOnRight: Option<SortingNode>,
                                              ids: DependencyMessageIds<M>, nodeIndexMap: map<SortingNode, nat>,
                                              linesBetween: nat, options: SpacingOptions,
                                              left: SortingNode, right: SortingNode)
    requires left in nodeIndexMap && right in nodeIndexMap
    ensures var r := GetOrderWithDependenciesErrors(sortedNodesExcludingEslintDisabled, firstUnorderedNodeDependentOnRight,
                                                    ids, nodeIndexMap, linesBetween, options, left, right);
      var out := OutOfOrder(nodeIndexMap[left], nodeIndexMap[right], IndexOf(sortedNodesExcludingEslintDisabled, right));
      var spacing := NewlinesErrors.GetNewlinesErrors(options, left, right,
                       GroupNumbers.GroupNumber(options.groups, left.group), GroupNumbers.GroupNumber(options.groups, right.group),
                       linesBetween, ids.missedSpacingBetweenMembers, ids.extraSpacingBetweenMembers);
      && (firstUnorderedNodeDependentOnRight.Some? ==> r == [ids.unexpectedDependencyOrder] + spacing)
      && (firstUnorderedNodeDependentOnRight.None? && out ==>
            r == [OrderErrorFor(options.groups, left, right, ids.unexpectedOrder, ids.unexpectedGroupOrder)] + spacing)
      && (firstUnorderedNodeDependentOnRight.None? && !out ==> r == spacing)
  {
  }

  /**
   * Without a dependent node the result is exactly that of `getOrderErrors`
   * given the same policy and spacing message ids.
   */
  lemma NoDependencyIsOrderErrors<M>(sortedNodesExcludingEslintDisabled: seq<SortingNode>,
                                     ids: DependencyMessageIds<M>, nodeIndexMap: map<SortingNode, nat>,
                                     linesBetween: nat, options: SpacingOptions,
                                     left: SortingNode, right: SortingNode)
    requires left in nodeIndexMap && right in nodeIndexMap
    ensures GetOrderWithDependenciesErrors(sortedNodesExcludingEslintDisabled, None, ids, nodeIndexMap, linesBetween, options, left, right)
         == GetOrderErrors(sortedNodesExcludingEslintDisabled,
                           OrderMessageIds(Some(ids.missedSpacingBetweenMembers), Some(ids.extraSpacingBetweenMembers),
                                           ids.unexpectedGroupOrder, ids.unexpectedOrder),
                           nodeIndexMap, linesBetween,
                           OrderOptions(options.groups, options.customGroups, Some(options.newlinesBetween)), left, right)
  {
  }
}
