/**
 * The rank of a node's group in the `groups` option (get-group-number.ts).
 */
module GroupNumbers {
  import opened Common

  /**
   * A slot accepts a group when it is that group's name or a list holding it;
   * a `{ newlinesBetween }` marker accepts no group.
   */
  predicate SlotMatches(slot: GroupSlot, group: string) {
    match slot
    case Single(name) => name == group
    case Multi(names) => group in names
    case Marker(_) => false
  }

  /**
   * The group's rank: the first slot that accepts it, or `|groups|` (the
   * virtual trailing rank) when none does.
   */
  function GroupNumber(groups: seq<GroupSlot>, group: string): nat {
    if groups == [] then 0
    else if SlotMatches(groups[0], group) then 0
    else 1 + GroupNumber(groups[1..], group)
  }

  /**
   * The rank is at most `|groups|`; below that its slot accepts the group, and
   * no earlier slot does.
   */
  lemma {:induction false} GroupNumberIsFirstMatch(groups: seq<GroupSlot>, group: string)
    ensures GroupNumber(groups, group) <= |groups|
    ensures GroupNumber(groups, group) < |groups| ==> SlotMatches(groups[GroupNumber(groups, group)], group)
    ensures forall i :: 0 <= i < GroupNumber(groups, group) ==> !SlotMatches(groups[i], group)
  {
    if groups != [] && !SlotMatches(groups[0], group) {
      GroupNumberIsFirstMatch(groups[1..], group);
    }
  }

  /** The index loop with early return of `getGroupNumber`. */
  method GetGroupNumber(groups: seq<GroupSlot>, group: string) returns (n: nat)
    ensures n <= |groups|
    ensures n < |groups| ==> SlotMatches(groups[n], group)
    ensures forall i :: 0 <= i < n ==> !SlotMatches(groups[i], group)
    ensures n == |groups| <==> forall i :: 0 <= i < |groups| ==> !SlotMatches(groups[i], group)
    ensures n == GroupNumber(groups, group)
  {
    var i := 0;
    while i < |groups|
      invariant 0 <= i <= |groups|
      invariant forall j :: 0 <= j < i ==> !SlotMatches(groups[j], group)
    {
      if SlotMatches(groups[i], group) {
        RankIsFirstMatch(groups, group, i);
        return i;
      }
      i := i + 1;
    }
    RankIsFirstMatch(groups, group, |groups|);
    return |groups|;
  }

  /**
   * `GroupNumber` is the only rank with the first-match property: any `k` whose
   * slot accepts the group (or `k == |groups|`) with no earlier match is it.
   */
  lemma {:induction false} RankIsFirstMatch(groups: seq<GroupSlot>, group: string, k: nat)
    requires k <= |groups|
    requires k < |groups| ==> SlotMatches(groups[k], group)
    requires forall i :: 0 <= i < k ==> !SlotMatches(groups[i], group)
    ensures GroupNumber(groups, group) == k
  {
    if k > 0 {
      assert !SlotMatches(groups[0], group);
      RankIsFirstMatch(groups[1..], group, k - 1);
    }
  }

  /** A marker slot occupies a rank but is never the rank of a group. */
  lemma MarkerNeverMatches(groups: seq<GroupSlot>, group: string)
    ensures GroupNumber(groups, group) < |groups| ==> !groups[GroupNumber(groups, group)].Marker?
  {
    GroupNumberIsFirstMatch(groups, group);
  }

  /**
   * Two groups held by the same list slot, neither accepted earlier, get that
   * slot's rank, so they share it.
   */
  lemma SameListSlotSameNumber(groups: seq<GroupSlot>, i: nat, a: string, b: string)
    requires i < |groups| && groups[i].Multi? && a in groups[i].names && b in groups[i].names
    requires forall j :: 0 <= j < i ==> !SlotMatches(groups[j], a) && !SlotMatches(groups[j], b)
    ensures GroupNumber(groups, a) == GroupNumber(groups, b) == i
  {
    RankIsFirstMatch(groups, a, i);
    RankIsFirstMatch(groups, b, i);
  }
}
