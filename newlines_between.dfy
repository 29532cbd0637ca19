/**
 * The spacing policy between two consecutive nodes
 * (get-newlines-between-option.ts): the global `newlinesBetween` setting,
 * overridden by a custom group's `newlinesInside` when both nodes belong to
 * that custom group.
 */
module NewlinesBetween {
  import opened Common
  import GroupNumbers

  /** The option fields the policy reads. `customGroups` may be absent. */
  datatype SpacingOptions = SpacingOptions(groups: seq<GroupSlot>, customGroups: Option<CustomGroupsOption>, newlinesBetween: Newlines)

  /**
   * `getGlobalNewlinesBetweenOption`: `ignore` and `never` pass through;
   * `always` asks for a blank line only between different groups.
   */
  function GlobalNewlinesBetween(newlinesBetween: Newlines, nodeGroupNumber: nat, nextNodeGroupNumber: nat): (r: Newlines)
    ensures r == Ignore <==> newlinesBetween == Ignore
    ensures r == Always <==> newlinesBetween == Always && nodeGroupNumber != nextNodeGroupNumber
    ensures r == Never <==> newlinesBetween == Never || (newlinesBetween == Always && nodeGroupNumber == nextNodeGroupNumber)
  {
    match newlinesBetween
    case Ignore => Ignore
    case Never => Never
    case Always => if nodeGroupNumber == nextNodeGroupNumber then Never else Always
  }

  /**
   * `options.groups[n]` when it is a plain group name; a list, a marker or an
   * index past the end (`undefined`) is never equal to a `groupName`.
   */
  function SlotName(groups: seq<GroupSlot>, n: nat): Option<string> {
    if n < |groups| && groups[n].Single? then Some(groups[n].name) else None
  }

  /** `Array.isArray(options.groups[n])`. */
  predicate SlotIsList(groups: seq<GroupSlot>, n: nat) {
    n < |groups| && groups[n].Multi?
  }

  /** `customGroups.find(customGroup => customGroup.groupName === name)`. */
  function FindCustomGroup(customGroups: seq<CustomGroup>, name: Option<string>): (r: Option<CustomGroup>)
    ensures r.Some? ==> r.value in customGroups && name == Some(r.value.groupName)
    ensures r.None? <==> name.None? || forall g :: g in customGroups ==> g.groupName != name.value
  {
    if name.None? then None
    else
      var i := FirstIndex(customGroups, (g: CustomGroup) => g.groupName == name.value);
      if i < |customGroups| then Some(customGroups[i]) else None
  }

  /** `getNewlinesBetweenOption` for `sortingNode` followed by `nextSortingNode`. */
  function NewlinesBetweenOption(options: SpacingOptions, sortingNode: SortingNode, nextSortingNode: SortingNode): Newlines {
    var nodeGroupNumber := GroupNumbers.GroupNumber(options.groups, sortingNode.group);
    var nextNodeGroupNumber := GroupNumbers.GroupNumber(options.groups, nextSortingNode.group);
    var global := GlobalNewlinesBetween(options.newlinesBetween, nodeGroupNumber, nextNodeGroupNumber);
    if options.customGroups.None? || !options.customGroups.value.ArrayForm? then global
    else if SlotIsList(options.groups, nodeGroupNumber) || SlotIsList(options.groups, nextNodeGroupNumber) then global
    else
      var nodeCustomGroup := FindCustomGroup(options.customGroups.value.groups, SlotName(options.groups, nodeGroupNumber));
      var nextNodeCustomGroup := FindCustomGroup(options.customGroups.value.groups, SlotName(options.groups, nextNodeGroupNumber));
      if nodeCustomGroup.Some? && nextNodeCustomGroup.Some? && nodeCustomGroup.value.groupName == nextNodeCustomGroup.value.groupName then
        match nodeCustomGroup.value.newlinesInside
        case Some(inside) => inside
        case None => global
      else global
  }

  /** Both nodes rank at the same plain group-name slot, and some custom group has that name. */
  predicate SharedCustomGroup(options: SpacingOptions, a: SortingNode, b: SortingNode) {
    var na := GroupNumbers.GroupNumber(options.groups, a.group);
    var nb := GroupNumbers.GroupNumber(options.groups, b.group);
    && options.customGroups.Some? && options.customGroups.value.ArrayForm?
    && SlotName(options.groups, na).Some?
    && SlotName(options.groups, na) == SlotName(options.groups, nb)
    && exists g :: g in options.customGroups.value.groups && Some(g.groupName) == SlotName(options.groups, na)
  }

  /**
   * The global policy applies unless both nodes sit in the same custom group;
   * then that group's `newlinesInside` applies (the first custom group of that
   * name), or the global policy when it is unset — whatever the global setting.
   * Without array-form custom groups, or when either slot is a list, the
   * global policy applies.
   */
  lemma NewlinesBetweenOptionSpec(options: SpacingOptions, a: SortingNode, b: SortingNode)
    ensures var na := GroupNumbers.GroupNumber(options.groups, a.group);
      var nb := GroupNumbers.GroupNumber(options.groups, b.group);
      var global := GlobalNewlinesBetween(options.newlinesBetween, na, nb);
      var r := NewlinesBetweenOption(options, a, b);
      && (options.customGroups.None? || options.customGroups.value.RecordForm? ==> r == global)
      && (SlotIsList(options.groups, na) || SlotIsList(options.groups, nb) ==> r == global)
      && (SharedCustomGroup(options, a, b) ==>
            var g := FindCustomGroup(options.customGroups.value.groups, SlotName(options.groups, na)).value;
            r == (if g.newlinesInside.Some? then g.newlinesInside.value else global))
      && (!SharedCustomGroup(options, a, b) ==> r == global)
  {
  }

  /** Two nodes of one group slot never get `always`: a blank line is asked for only between different ranks or inside a custom group that asks for it. */
  lemma SameRankNeverAlwaysUnlessInside(options: SpacingOptions, a: SortingNode, b: SortingNode)
    requires GroupNumbers.GroupNumber(options.groups, a.group) == GroupNumbers.GroupNumber(options.groups, b.group)
    requires NewlinesBetweenOption(options, a, b) == Always
    ensures SharedCustomGroup(options, a, b)
    ensures FindCustomGroup(options.customGroups.value.groups, SlotName(options.groups, GroupNumbers.GroupNumber(options.groups, a.group))).value.newlinesInside == Some(Always)
  {
    NewlinesBetweenOptionSpec(options, a, b);
  }
}
