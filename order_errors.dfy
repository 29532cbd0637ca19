/**
 * The errors reported for a pair of consecutive nodes (get-order-errors.ts):
 * an order or group-order error when the right node should come before the
 * left one, then the spacing errors.
 */
module OrderErrors {
  import opened Common
  import GroupNumbers
  import opened NewlinesBetween
  import opened NewlinesErrors

  /** The message ids the caller offers; the spacing ones may be missing. */
  datatype OrderMessageIds<M> = OrderMessageIds(
    missedSpacingBetweenMembers: Option<M>, extraSpacingBetweenMembers: Option<M>,
    unexpectedGroupOrder: M, unexpectedOrder: M)

  /** The option fields read here: `newlinesBetween` may be missing. */
  datatype OrderOptions = OrderOptions(groups: seq<GroupSlot>, customGroups: Option<CustomGroupsOption>, newlinesBetween: Option<Newlines>)

  /** `Array.prototype.indexOf`: the first position of `x`, or -1. */
  function IndexOf<T(==)>(s: seq<T>, x: T): (i: int)
    ensures -1 <= i < |s|
    ensures i >= 0 ==> s[i] == x && forall j :: 0 <= j < i ==> s[j] != x
    ensures i == -1 <==> x !in s
  {
    var k := FirstIndex(s, (y: T) => y == x);
    if k < |s| then k else -1
  }

  /**
   * The order condition: the left node's position is after the right one's,
   * or not before the right node's position in the sorted list without
   * eslint-disabled nodes (always true when the right node is not in it).
   */
  predicate OutOfOrder(leftIndex: nat, rightIndex: nat, indexOfRightExcludingEslintDisabled: int) {
    leftIndex > rightIndex || leftIndex >= indexOfRightExcludingEslintDisabled
  }

  /** The error for a pair: `unexpectedOrder` inside one group, `unexpectedGroupOrder` across groups. */
  function OrderErrorFor<M>(groups: seq<GroupSlot>, left: SortingNode, right: SortingNode, unexpectedOrder: M, unexpectedGroupOrder: M): M {
    if GroupNumbers.GroupNumber(groups, left.group) == GroupNumbers.GroupNumber(groups, right.group) then unexpectedOrder
    else unexpectedGroupOrder
  }

  /** `getOrderErrors`; the blank lines between the nodes are a parameter. */
  function GetOrderErrors<M>(sortedNodesExcludingEslintDisabled: seq<SortingNode>, ids: OrderMessageIds<M>,
                             nodeIndexMap: map<SortingNode, nat>, linesBetween: nat, options: OrderOptions,
                             left: SortingNode, right: SortingNode): (r: seq<M>)
    requires left in nodeIndexMap && right in nodeIndexMap
  {
    var leftNumber := GroupNumbers.GroupNumber(options.groups, left.group);
    var rightNumber := GroupNumbers.GroupNumber(options.groups, right.group);
    var leftIndex := nodeIndexMap[left];
    var rightIndex := nodeIndexMap[right];
    var indexOfRightExcludingEslintDisabled := IndexOf(sortedNodesExcludingEslintDisabled, right);
    var messageIds :=
      if leftIndex > rightIndex || leftIndex >= indexOfRightExcludingEslintDisabled then
        [if leftNumber == rightNumber then ids.unexpectedOrder else ids.unexpectedGroupOrder]
      else [];
    if options.newlinesBetween.None? || ids.missedSpacingBetweenMembers.None? || ids.extraSpacingBetweenMembers.None? then
      messageIds
    else
      messageIds + NewlinesErrors.GetNewlinesErrors(SpacingOptions(options.groups, options.customGroups, options.newlinesBetween.value),
                                  left, right, leftNumber, rightNumber, linesBetween,
                                  ids.missedSpacingBetweenMembers.value, ids.extraSpacingBetweenMembers.value)
  }

  /** The spacing errors `getOrderErrors` appends: none when the policy or a spacing message id is missing. */
  function SpacingPart<M>(ids: OrderMessageIds<M>, linesBetween: nat, options: OrderOptions, left: SortingNode, right: SortingNode): seq<M> {
    if options.newlinesBetween.None? || ids.missedSpacingBetweenMembers.None? || ids.extraSpacingBetweenMembers.None? then []
    else
      NewlinesErrors.GetNewlinesErrors(SpacingOptions(options.groups, options.customGroups, options.newlinesBetween.value),
                     left, right, GroupNumbers.GroupNumber(options.groups, left.group), GroupNumbers.GroupNumber(options.groups, right.group),
                     linesBetween, ids.missedSpacingBetweenMembers.value, ids.extraSpacingBetweenMembers.value)
  }

  /**
   * The first error is an order error exactly when the pair is out of order,
   * and it is the group-order one exactly when the ranks differ; the spacing
   * errors follow, and there is at most one order error.
   */
  lemma GetOrderErrorsSpec<M>(sortedNodesExcludingEslintDisabled: seq<SortingNode>, ids: OrderMessageIds<M>,
                              nodeIndexMap: map<SortingNode, nat>, linesBetween: nat, options: OrderOptions,
                              left: SortingNode, right: SortingNode)
    requires left in nodeIndexMap && right in nodeIndexMap
    ensures var r := GetOrderErrors(sortedNodesExcludingEslintDisabled, ids, nodeIndexMap, linesBetween, options, left, right);
      var out := OutOfOrder(nodeIndexMap[left], nodeIndexMap[right], IndexOf(sortedNodesExcludingEslintDisabled, right));
      var spacing := SpacingPart(ids, linesBetween, options, left, right);
      && (out ==> r == [OrderErrorFor(options.groups, left, right, ids.unexpectedOrder, ids.unexpectedGroupOrder)] + spacing)
      && (!out ==> r == spacing)
      && |spacing| <= 1
  {
  }

  /** A right node missing from the sorted list without eslint-disabled nodes always yields an order error. */
  lemma MissingRightIsOutOfOrder<M>(sortedNodesExcludingEslintDisabled: seq<SortingNode>, ids: OrderMessageIds<M>,
                                    nodeIndexMap: map<SortingNode, nat>, linesBetween: nat, options: OrderOptions,
                                    left: SortingNode, right: SortingNode)
    requires left in nodeIndexMap && right in nodeIndexMap
    requires right !in sortedNodesExcludingEslintDisabled
    ensures GetOrderErrors(sortedNodesExcludingEslintDisabled, ids, nodeIndexMap, linesBetween, options, left, right)[0]
         == OrderErrorFor(options.groups, left, right, ids.unexpectedOrder, ids.unexpectedGroupOrder)
  {
  }
}
