/**
 * The array-includes rule's core (sort-array-includes/sort-array.ts): the
 * reduce that turns array elements into partitions of sorting nodes, the
 * per-partition sort, and the flattened node list.
 */
module SortArray {
  import opened Common
  import opened Sorting
  import GroupedSort

  /**
   * A present array element: a spread, or an expression with what the rule
   * computes for it (its identity, its name, its size and whether it is
   * eslint-disabled).
   */
  datatype ArrayElement = Spread | Expression(id: nat, name: string, size: nat, isEslintDisabled: bool)

  /** A sorting node with the number of the partition it was added to. */
  datatype PartitionedNode = PartitionedNode(node: SortingNode, partitionId: nat)

  /** `computeGroup` for an element: its selectors, its modifiers and its name give its group. */
  type GroupComputer = (seq<string>, seq<string>, string) -> string

  /** `shouldPartition`: the last node of the current partition (if any) and the new node. */
  type PartitionTest = (Option<SortingNode>, SortingNode) -> bool

  /** The sorting node of an expression: selector `literal`, no modifiers. */
  function ElementNode(e: ArrayElement, computeGroup: GroupComputer): SortingNode
    requires e.Expression?
  {
    SortingNode(e.id, e.name, e.size, e.isEslintDisabled, computeGroup(["literal"], [], e.name))
  }

  /** `accumulator.at(-1)?.at(-1)`. */
  function LastNode(acc: seq<seq<PartitionedNode>>): Option<SortingNode> {
    if acc == [] || acc[|acc| - 1] == [] then None else Some(acc[|acc| - 1][|acc[|acc| - 1]| - 1].node)
  }

  /** One step of the reduce. */
  function Step(acc: seq<seq<PartitionedNode>>, element: Option<ArrayElement>,
                computeGroup: GroupComputer, shouldPartition: PartitionTest): (r: seq<seq<PartitionedNode>>)
    requires acc != []
    ensures r != []
  {
    match element
    case None => acc
    case Some(Spread) => acc + [[]]
    case Some(e) =>
      var n := ElementNode(e, computeGroup);
      var current := if shouldPartition(LastNode(acc), n) then acc + [[]] else acc;
      current[..|current| - 1] + [current[|current| - 1] + [PartitionedNode(n, |current|)]]
  }

  /** The partitions the reduce builds from `[[]]`. */
  function FormattedMembers(elements: seq<Option<ArrayElement>>, computeGroup: GroupComputer, shouldPartition: PartitionTest): (r: seq<seq<PartitionedNode>>)
    ensures r != []
  {
    if elements == [] then [[]]
    else Step(FormattedMembers(elements[..|elements| - 1], computeGroup, shouldPartition), elements[|elements| - 1], computeGroup, shouldPartition)
  }

  /**
   * The reduce of `sortArray`: a hole is skipped, a spread opens a new
   * partition, an expression becomes a node added to the last partition,
   * after opening a new one when `shouldPartition` says so.
   */
  method FormatMembers(elements: seq<Option<ArrayElement>>, computeGroup: GroupComputer, shouldPartition: PartitionTest)
    returns (accumulator: seq<seq<PartitionedNode>>)
    ensures accumulator == FormattedMembers(elements, computeGroup, shouldPartition)
  {
    accumulator := [[]];
    var i := 0;
    while i < |elements|
      invariant 0 <= i <= |elements|
      invariant accumulator == FormattedMembers(elements[..i], computeGroup, shouldPartition)
    {
      assert elements[..i + 1][..i] == elements[..i];
      var element := elements[i];
      if element.None? {
      } else if element.value.Spread? {
        accumulator := accumulator + [[]];
      } else {
        var sortingNode := ElementNode(element.value, computeGroup);
        var lastSortingNode := LastNode(accumulator);
        if shouldPartition(lastSortingNode, sortingNode) {
          accumulator := accumulator + [[]];
        }
        accumulator := accumulator[..|accumulator| - 1]
          + [accumulator[|accumulator| - 1] + [PartitionedNode(sortingNode, |accumulator|)]];
      }
      i := i + 1;
    }
    assert elements[..i] == elements;
  }

  /** The nodes of the expression elements, in source order. */
  function ExpressionNodes(elements: seq<Option<ArrayElement>>, computeGroup: GroupComputer): seq<SortingNode> {
    if elements == [] then []
    else
      var e := elements[|elements| - 1];
      ExpressionNodes(elements[..|elements| - 1], computeGroup)
        + (if e.Some? && e.value.Expression? then [ElementNode(e.value, computeGroup)] else [])
  }

  /** The sorting nodes of a list of partitioned nodes. */
  function Nodes(s: seq<PartitionedNode>): (r: seq<SortingNode>)
    ensures |r| == |s|
    ensures forall i :: 0 <= i < |s| ==> r[i] == s[i].node
  {
    seq(|s|, i requires 0 <= i < |s| => s[i].node)
  }

  /** Every node's `partitionId` is its partition's position, counted from 1. */
  ghost predicate IdsArePositions(acc: seq<seq<PartitionedNode>>) {
    forall p, j :: 0 <= p < |acc| && 0 <= j < |acc[p]| ==> acc[p][j].partitionId == p + 1
  }

  /** Inside a partition no consecutive pair satisfies `shouldPartition`. */
  ghost predicate NoSplitInside(acc: seq<seq<PartitionedNode>>, shouldPartition: PartitionTest) {
    forall p, j :: 0 <= p < |acc| && 0 < j < |acc[p]| ==> !shouldPartition(Some(acc[p][j - 1].node), acc[p][j].node)
  }

  lemma NodesAppend(a: seq<PartitionedNode>, b: seq<PartitionedNode>)
    ensures Nodes(a + b) == Nodes(a) + Nodes(b)
  {
  }

  /** The last partition of `acc` just before adding node `x` (after opening a new one, if asked). */
  function Current(acc: seq<seq<PartitionedNode>>, n: SortingNode, shouldPartition: PartitionTest): (r: seq<seq<PartitionedNode>>)
    requires acc != []
    ensures r != []
  {
    if shouldPartition(LastNode(acc), n) then acc + [[]] else acc
  }

  lemma StepShape(acc: seq<seq<PartitionedNode>>, e: ArrayElement, computeGroup: GroupComputer, shouldPartition: PartitionTest)
    requires acc != [] && e.Expression?
    ensures var n := ElementNode(e, computeGroup);
      var c := Current(acc, n, shouldPartition);
      Step(acc, Some(e), computeGroup, shouldPartition) == c[..|c| - 1] + [c[|c| - 1] + [PartitionedNode(n, |c|)]]
  {
  }

  lemma StepIds(acc: seq<seq<PartitionedNode>>, element: Option<ArrayElement>, computeGroup: GroupComputer, shouldPartition: PartitionTest)
    requires acc != [] && IdsArePositions(acc)
    ensures IdsArePositions(Step(acc, element, computeGroup, shouldPartition))
  {
    if element.Some? && element.value.Expression? {
      StepShape(acc, element.value, computeGroup, shouldPartition);
    }
  }

  lemma StepNoSplit(acc: seq<seq<PartitionedNode>>, element: Option<ArrayElement>, computeGroup: GroupComputer, shouldPartition: PartitionTest)
    requires acc != [] && NoSplitInside(acc, shouldPartition)
    ensures NoSplitInside(Step(acc, element, computeGroup, shouldPartition), shouldPartition)
  {
    if element.Some? && element.value.Expression? {
      StepShape(acc, element.value, computeGroup, shouldPartition);
      var n := ElementNode(element.value, computeGroup);
      var c := Current(acc, n, shouldPartition);
      var r: seq<seq<PartitionedNode>> := Step(acc, element, computeGroup, shouldPartition);
      var k := |c| - 1;
      forall p: nat, j: nat | p < |r| && 0 < j < |r[p]| ensures !shouldPartition(Some(r[p][j - 1].node), r[p][j].node) {
        if p == k && j == |c[k]| {
          assert c == acc;
          assert LastNode(acc) == Some(r[p][j - 1].node);
        }
      }
    }
  }

  lemma StepNodes(acc: seq<seq<PartitionedNode>>, element: Option<ArrayElement>, computeGroup: GroupComputer, shouldPartition: PartitionTest)
    requires acc != []
    ensures Nodes(Concat(Step(acc, element, computeGroup, shouldPartition)))
         == Nodes(Concat(acc)) + (if element.Some? && element.value.Expression? then [ElementNode(element.value, computeGroup)] else [])
  {
    if element == Some(Spread) {
      ConcatSnoc(acc, []);
    } else if element.Some? {
      StepNodesExpression(acc, element.value, computeGroup, shouldPartition);
    }
  }

  lemma StepNodesExpression(acc: seq<seq<PartitionedNode>>, e: ArrayElement, computeGroup: GroupComputer, shouldPartition: PartitionTest)
    requires acc != [] && e.Expression?
    ensures Nodes(Concat(Step(acc, Some(e), computeGroup, shouldPartition))) == Nodes(Concat(acc)) + [ElementNode(e, computeGroup)]
  {
    var n := ElementNode(e, computeGroup);
    StepShape(acc, e, computeGroup, shouldPartition);
    var c := Current(acc, n, shouldPartition);
    assert Concat(c) == Concat(acc) by {
      if shouldPartition(LastNode(acc), n) { ConcatSnoc(acc, []); }
    }
    ConcatPushLast(c, PartitionedNode(n, |c|));
    NodesAppend(Concat(c), [PartitionedNode(n, |c|)]);
  }

  /**
   * The reduce's partitions: every `partitionId` is the partition's position
   * counted from 1; inside a partition `shouldPartition` never holds between
   * consecutive nodes; and, flattened, they are the expression elements'
   * nodes in source order (holes and spreads dropped).
   */
  lemma {:induction false} FormattedMembersSpec(elements: seq<Option<ArrayElement>>, computeGroup: GroupComputer, shouldPartition: PartitionTest)
    ensures var r := FormattedMembers(elements, computeGroup, shouldPartition);
      && IdsArePositions(r)
      && NoSplitInside(r, shouldPartition)
      && Nodes(Concat(r)) == ExpressionNodes(elements, computeGroup)
  {
    if elements == [] {
      var none: seq<seq<PartitionedNode>> := [];
      ConcatSnoc(none, []);
      assert none + [[]] == FormattedMembers(elements, computeGroup, shouldPartition);
    } else {
      var init := elements[..|elements| - 1];
      FormattedMembersSpec(init, computeGroup, shouldPartition);
      var acc := FormattedMembers(init, computeGroup, shouldPartition);
      StepIds(acc, elements[|elements| - 1], computeGroup, shouldPartition);
      StepNoSplit(acc, elements[|elements| - 1], computeGroup, shouldPartition);
      StepNodes(acc, elements[|elements| - 1], computeGroup, shouldPartition);
    }
  }

  /** A spread always closes the current partition: the partitions after it start empty. */
  lemma SpreadOpensPartition(elements: seq<Option<ArrayElement>>, computeGroup: GroupComputer, shouldPartition: PartitionTest)
    requires elements != [] && elements[|elements| - 1] == Some(Spread)
    ensures var r := FormattedMembers(elements, computeGroup, shouldPartition);
      && r[|r| - 1] == []
      && r[..|r| - 1] == FormattedMembers(elements[..|elements| - 1], computeGroup, shouldPartition)
  {
  }

  /** One partition, sorted by the grouping engine, with its nodes' `partitionId` kept. */
  function SortedPartition(partition: seq<PartitionedNode>, partitionId: nat, options: GroupedSort.Options,
                           getGroupCompareOptions: GroupedSort.CompareCallback, ignoreEslintDisabledNodes: bool): (r: seq<PartitionedNode>)
    ensures multiset(Nodes(r)) == multiset(Nodes(partition))
    ensures forall i :: 0 <= i < |r| ==> r[i].partitionId == partitionId
  {
    var extra := Some(GroupedSort.ExtraOptions(getGroupCompareOptions, ignoreEslintDisabledNodes, GroupedSort.NoIgnoreCallback));
    var sorted := GroupedSort.SortedByGroups(Nodes(partition), options, extra);
    GroupedSort.SortedByGroupsIsPermutation(Nodes(partition), options, extra);
    var r := seq(|sorted|, i requires 0 <= i < |sorted| => PartitionedNode(sorted[i], partitionId));
    assert Nodes(r) == sorted;
    r
  }

  /** `sortNodesExcludingEslintDisabled`: the partitions sorted independently, then concatenated. */
  function SortNodesExcludingEslintDisabled(formattedMembers: seq<seq<PartitionedNode>>, options: GroupedSort.Options,
                                            getGroupCompareOptions: GroupedSort.CompareCallback, ignoreEslintDisabledNodes: bool): seq<PartitionedNode>
  {
    Concat(SortedPartitions(formattedMembers, options, getGroupCompareOptions, ignoreEslintDisabledNodes))
  }

  function SortedPartitions(formattedMembers: seq<seq<PartitionedNode>>, options: GroupedSort.Options,
                            getGroupCompareOptions: GroupedSort.CompareCallback, ignoreEslintDisabledNodes: bool): (r: seq<seq<PartitionedNode>>)
    ensures |r| == |formattedMembers|
    ensures forall p :: 0 <= p < |r| ==> r[p] == SortedPartition(formattedMembers[p], p + 1, options, getGroupCompareOptions, ignoreEslintDisabledNodes)
  {
    seq(|formattedMembers|, p requires 0 <= p < |formattedMembers| =>
      SortedPartition(formattedMembers[p], p + 1, options, getGroupCompareOptions, ignoreEslintDisabledNodes))
  }

  lemma {:induction false} ConcatNodesMultiset(a: seq<seq<PartitionedNode>>, b: seq<seq<PartitionedNode>>)
    requires |a| == |b|
    requires forall p :: 0 <= p < |a| ==> multiset(Nodes(a[p])) == multiset(Nodes(b[p]))
    ensures multiset(Nodes(Concat(a))) == multiset(Nodes(Concat(b)))
  {
    if a != [] {
      var k := |a| - 1;
      ConcatNodesMultiset(a[..k], b[..k]);
      assert a == a[..k] + [a[k]] && b == b[..k] + [b[k]];
      ConcatSnoc(a[..k], a[k]);
      ConcatSnoc(b[..k], b[k]);
      NodesAppend(Concat(a[..k]), a[k]);
      NodesAppend(Concat(b[..k]), b[k]);
    }
  }

  /**
   * No node crosses a partition boundary: the sorted list is the partitions,
   * each sorted on its own and keeping its `partitionId`, one after another,
   * and it holds the same nodes as the flattened list.
   */
  lemma SortedStaysInPartitions(formattedMembers: seq<seq<PartitionedNode>>, options: GroupedSort.Options,
                                getGroupCompareOptions: GroupedSort.CompareCallback, ignoreEslintDisabledNodes: bool)
    ensures var blocks := SortedPartitions(formattedMembers, options, getGroupCompareOptions, ignoreEslintDisabledNodes);
      && SortNodesExcludingEslintDisabled(formattedMembers, options, getGroupCompareOptions, ignoreEslintDisabledNodes) == Concat(blocks)
      && (forall p :: 0 <= p < |blocks| ==> multiset(Nodes(blocks[p])) == multiset(Nodes(formattedMembers[p])))
      && (forall p, i :: 0 <= p < |blocks| && 0 <= i < |blocks[p]| ==> blocks[p][i].partitionId == p + 1)
      && multiset(Nodes(SortNodesExcludingEslintDisabled(formattedMembers, options, getGroupCompareOptions, ignoreEslintDisabledNodes)))
         == multiset(Nodes(Concat(formattedMembers)))
  {
    var blocks := SortedPartitions(formattedMembers, options, getGroupCompareOptions, ignoreEslintDisabledNodes);
    ConcatNodesMultiset(blocks, formattedMembers);
  }

  /** What the rule hands to the error report: the flattened nodes and the two sorted lists. */
  datatype ReportInput = ReportInput(nodes: seq<PartitionedNode>, sortedNodes: seq<PartitionedNode>, sortedNodesExcludingEslintDisabled: seq<PartitionedNode>)

  /**
   * `sortArray` up to the report: nothing when the elements cannot be
   * computed or are not sortable; `isSortable` is a parameter.
   */
  method SortArrayElements(elements: Option<seq<Option<ArrayElement>>>, isSortable: seq<Option<ArrayElement>> -> bool,
                            computeGroup: GroupComputer, shouldPartition: PartitionTest,
                            options: GroupedSort.Options, getGroupCompareOptions: GroupedSort.CompareCallback)
    returns (r: Option<ReportInput>)
    ensures r.None? <==> elements.None? || !isSortable(elements.value)
    ensures r.Some? ==>
      var formatted := FormattedMembers(elements.value, computeGroup, shouldPartition);
      && Nodes(r.value.nodes) == ExpressionNodes(elements.value, computeGroup)
      && r.value.nodes == Concat(formatted)
      && r.value.sortedNodes == SortNodesExcludingEslintDisabled(formatted, options, getGroupCompareOptions, false)
      && r.value.sortedNodesExcludingEslintDisabled == SortNodesExcludingEslintDisabled(formatted, options, getGroupCompareOptions, true)
  {
    if elements.None? {
      return None;
    }
    if !isSortable(elements.value) {
      return None;
    }
    var formattedMembers := FormatMembers(elements.value, computeGroup, shouldPartition);
    FormattedMembersSpec(elements.value, computeGroup, shouldPartition);
    var nodes := Concat(formattedMembers);
    r := Some(ReportInput(nodes,
                          SortNodesExcludingEslintDisabled(formattedMembers, options, getGroupCompareOptions, false),
                          SortNodesExcludingEslintDisabled(formattedMembers, options, getGroupCompareOptions, true)));
  }
}
