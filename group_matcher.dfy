/**
 * Classification of an element into a group (group-matcher.ts): predefined
 * group names are parsed into a selector and modifiers, ordered from the most
 * specific to the least, and an element gets the first kept custom group that
 * accepts it, else the first predefined group it matches, else `unknown`.
 */
module GroupMatching {
  import opened Common
  import opened Strings
  import opened Sorting
  import NodeIndexMap

  /** A parsed predefined group name. */
  datatype GroupName = GroupName(name: string, selector: string, modifiers: seq<string>)
  {
    /**
     * `doesMatch`: the element has this group's selector and every one of its
     * modifiers.
     */
    predicate DoesMatch(selectors: seq<string>, elementModifiers: seq<string>) {
      selector in selectors && forall m :: m in modifiers ==> m in elementModifiers
    }

    /**
     * `compare`: selector index first, then more modifiers first, then the
     * modifiers' indices pairwise. The `!` on each lookup is the caller's
     * promise that every selector and modifier has an index.
     */
    method Compare(other: GroupName, selectorsByIndex: map<string, nat>, modifiersByIndex: map<string, nat>)
      returns (r: int)
      requires selector in selectorsByIndex && other.selector in selectorsByIndex
      requires forall m :: m in modifiers ==> m in modifiersByIndex
      requires forall m :: m in other.modifiers ==> m in modifiersByIndex
      ensures r == CompareNames(this, other, selectorsByIndex, modifiersByIndex)
    {
      var selfSelectorIndex := selectorsByIndex[selector];
      var otherSelectorIndex := selectorsByIndex[other.selector];
      if selfSelectorIndex != otherSelectorIndex {
        return if selfSelectorIndex < otherSelectorIndex then -1 else 1;
      }
      var selfModifierCount := |modifiers|;
      var otherModifierCount := |other.modifiers|;
      if selfModifierCount != otherModifierCount {
        return if selfModifierCount > otherModifierCount then -1 else 1;
      }
      var i := 0;
      while i < selfModifierCount
        invariant 0 <= i <= selfModifierCount
        invariant ModifiersCompare(modifiers, other.modifiers, modifiersByIndex, 0)
               == ModifiersCompare(modifiers, other.modifiers, modifiersByIndex, i)
      {
        var selfModifierIndex := modifiersByIndex[modifiers[i]];
        var otherModifierIndex := modifiersByIndex[other.modifiers[i]];
        if selfModifierIndex != otherModifierIndex {
          return if selfModifierIndex < otherModifierIndex then -1 else 1;
        }
        i := i + 1;
      }
      return 0;
    }
  }

  // ---------------------------------------------------------------------------
  // parse

  /**
   * The trailing candidates for the selector: the last three, the last two and
   * the last dash-separated segment, each joined back with dashes.
   */
  function PossibleElements(name: string): set<string> {
    var parts := Split(name, '-');
    {Join(LastN(parts, 3), '-'), Join(LastN(parts, 2), '-'), parts[|parts| - 1]}
  }

  /**
   * The test `new RegExp('(?:^|-)' + m + '-').test(rest)`: `m` followed by a
   * dash occurs in `rest`, either at its start or right after a dash.
   */
  predicate ModifierOccurs(rest: string, m: string) {
    exists p :: 0 <= p <= |rest| && (p == 0 || rest[p - 1] == '-') && StartsWith(rest[p..], m + "-")
  }

  /** `allModifiers.filter(...)`: the modifiers that occur in `rest`, in `allModifiers` order. */
  function ParsedModifiers(allModifiers: seq<string>, rest: string): (r: seq<string>)
    ensures forall m :: m in r <==> m in allModifiers && ModifierOccurs(rest, m)
  {
    if allModifiers == [] then []
    else if ModifierOccurs(rest, allModifiers[0]) then [allModifiers[0]] + ParsedModifiers(allModifiers[1..], rest)
    else ParsedModifiers(allModifiers[1..], rest)
  }

  /** The position in `allSelectors` of the selector `parse` picks, or `|allSelectors|`. */
  function SelectorIndex(allSelectors: seq<string>, name: string): nat {
    FirstIndex(allSelectors, (s: string) => s in PossibleElements(name))
  }

  /**
   * `GroupName.parse`: the first selector of `allSelectors` among the trailing
   * candidates (none, or the empty string, which JavaScript treats as false,
   * gives null); the rest of the name is the name with that many characters
   * cut off the end (`slice(0, -length)`, clamped at the start), and the
   * modifiers are those occurring in it.
   */
  function Parse(allSelectors: seq<string>, allModifiers: seq<string>, name: string): Option<GroupName> {
    var i := SelectorIndex(allSelectors, name);
    if i == |allSelectors| || allSelectors[i] == "" then None
    else
      var selector := allSelectors[i];
      var rest := name[..if |selector| <= |name| then |name| - |selector| else 0];
      Some(GroupName(name, selector, ParsedModifiers(allModifiers, rest)))
  }

  /** Every trailing candidate is a suffix of the name. */
  lemma PossibleElementsAreSuffixes(name: string)
    ensures forall e :: e in PossibleElements(name) ==> EndsWith(name, e)
  {
    var parts := Split(name, '-');
    JoinLastNIsSuffix(parts, '-', 3);
    JoinLastNIsSuffix(parts, '-', 2);
    JoinLastNIsSuffix(parts, '-', 1);
    assert LastN(parts, 1) == [parts[|parts| - 1]];
  }

  /**
   * `parse` gives null exactly when no selector is among the trailing
   * candidates (for selector lists without the empty string).
   */
  lemma ParseNullIff(allSelectors: seq<string>, allModifiers: seq<string>, name: string)
    requires "" !in allSelectors
    ensures Parse(allSelectors, allModifiers, name).None?
        <==> forall s :: s in allSelectors ==> s !in PossibleElements(name)
  {
    var i := SelectorIndex(allSelectors, name);
    if i == |allSelectors| {
      forall s | s in allSelectors ensures s !in PossibleElements(name) {
        var j :| 0 <= j < |allSelectors| && allSelectors[j] == s;
        assert !(s in PossibleElements(name));
      }
    }
  }

  /** A parsed name keeps its text. */
  lemma ParseKeepsName(allSelectors: seq<string>, allModifiers: seq<string>, name: string)
    ensures Parse(allSelectors, allModifiers, name).Some? ==> Parse(allSelectors, allModifiers, name).value.name == name
  {
  }

  /**
   * The selector of a parsed name is the earliest selector of `allSelectors`
   * among the trailing candidates, and a suffix of the name.
   */
  lemma ParseSelector(allSelectors: seq<string>, allModifiers: seq<string>, name: string)
    requires Parse(allSelectors, allModifiers, name).Some?
    ensures var g := Parse(allSelectors, allModifiers, name).value;
      && g.selector in PossibleElements(name)
      && (exists i :: 0 <= i < |allSelectors| && allSelectors[i] == g.selector
            && forall j :: 0 <= j < i ==> allSelectors[j] !in PossibleElements(name))
      && EndsWith(name, g.selector)
  {
    PossibleElementsAreSuffixes(name);
  }

  /**
   * The modifiers of a parsed name are the `allModifiers` entries occurring in
   * the rest, in `allModifiers` order, each once when `allModifiers` has no
   * repeats.
   */
  lemma ParseModifiers(allSelectors: seq<string>, allModifiers: seq<string>, name: string)
    requires Parse(allSelectors, allModifiers, name).Some?
    ensures var g := Parse(allSelectors, allModifiers, name).value;
      && |g.selector| <= |name|
      && (forall m :: m in g.modifiers <==> m in allModifiers && ModifierOccurs(name[..|name| - |g.selector|], m))
      && Subsequence(g.modifiers, allModifiers)
      && (NodeIndexMap.Distinct(allModifiers) ==> NodeIndexMap.Distinct(g.modifiers))
  {
    var g := Parse(allSelectors, allModifiers, name).value;
    PossibleElementsAreSuffixes(name);
    ParsedModifiersOrdered(allModifiers, name[..|name| - |g.selector|]);
  }

  lemma {:induction false} ParsedModifiersOrdered(allModifiers: seq<string>, rest: string)
    ensures Subsequence(ParsedModifiers(allModifiers, rest), allModifiers)
    ensures NodeIndexMap.Distinct(allModifiers) ==> NodeIndexMap.Distinct(ParsedModifiers(allModifiers, rest))
  {
    if allModifiers != [] {
      var r := ParsedModifiers(allModifiers, rest);
      var tail := ParsedModifiers(allModifiers[1..], rest);
      ParsedModifiersOrdered(allModifiers[1..], rest);
      if NodeIndexMap.Distinct(allModifiers) {
        assert NodeIndexMap.Distinct(allModifiers[1..]) by {
          forall i, j | 0 <= i < j < |allModifiers[1..]| ensures allModifiers[1..][i] != allModifiers[1..][j] {
            assert allModifiers[1..][i] == allModifiers[i + 1] && allModifiers[1..][j] == allModifiers[j + 1];
          }
        }
        if ModifierOccurs(rest, allModifiers[0]) {
          assert allModifiers[0] !in allModifiers[1..] by {
            forall k | 0 <= k < |allModifiers[1..]| ensures allModifiers[1..][k] != allModifiers[0] {
              assert allModifiers[1..][k] == allModifiers[k + 1];
            }
          }
          assert allModifiers[0] !in tail;
          forall i, j | 0 <= i < j < |r| ensures r[i] != r[j] {
            if i == 0 { assert r[j] == tail[j - 1]; assert r[j] in tail; } else { assert r[i] == tail[i - 1] && r[j] == tail[j - 1]; }
          }
        }
      }
      if !ModifierOccurs(rest, allModifiers[0]) {
        SubsequenceOfTail(r, allModifiers);
      } else {
        assert r[1..] == tail;
      }
    }
  }

  /** The regular-expression test is plain containment once a dash is put in front of `rest`. */
  lemma ModifierOccursIsDashContainment(rest: string, m: string)
    ensures ModifierOccurs(rest, m) <==> Contains("-" + rest, "-" + m + "-")
  {
    var d := "-" + rest;
    var pat := "-" + m + "-";
    ContainsIff(d, pat);
    forall p | 0 <= p <= |rest|
      ensures StartsWith(d[p..], pat) <==> (p == 0 || rest[p - 1] == '-') && StartsWith(rest[p..], m + "-")
    {
      DashShift(rest, m, p);
    }
    if exists q :: 0 <= q <= |d| && StartsWith(d[q..], pat) {
      var q :| 0 <= q <= |d| && StartsWith(d[q..], pat);
      assert q <= |rest|;
    }
  }

  /** Position `p` of `"-" + rest` holds the dashed modifier iff `p` of `rest` is an anchored match. */
  lemma DashShift(rest: string, m: string, p: nat)
    requires p <= |rest|
    ensures StartsWith(("-" + rest)[p..], "-" + m + "-")
        <==> (p == 0 || rest[p - 1] == '-') && StartsWith(rest[p..], m + "-")
  {
    var d := "-" + rest;
    assert d[p..] == [d[p]] + rest[p..];
    assert d[p] == if p == 0 then '-' else rest[p - 1];
    assert "-" + m + "-" == ['-'] + (m + "-");
    StartsWithCons(d[p], rest[p..], '-', m + "-");
  }

  // ---------------------------------------------------------------------------
  // compare

  /** An index map lookup; a missing key (which the matcher never asks for) reads as 0. */
  function Lookup(m: map<string, nat>, k: string): nat {
    if k in m then m[k] else 0
  }

  /** The pairwise modifier comparison from position `i` on. */
  function ModifiersCompare(a: seq<string>, b: seq<string>, modifiersByIndex: map<string, nat>, i: nat): int
    decreases |a| - i
  {
    if i >= |a| || i >= |b| then 0
    else if Lookup(modifiersByIndex, a[i]) != Lookup(modifiersByIndex, b[i]) then
      if Lookup(modifiersByIndex, a[i]) < Lookup(modifiersByIndex, b[i]) then -1 else 1
    else ModifiersCompare(a, b, modifiersByIndex, i + 1)
  }

  /** What `compare` returns. */
  function CompareNames(a: GroupName, b: GroupName, selectorsByIndex: map<string, nat>, modifiersByIndex: map<string, nat>): int {
    var sa, sb := Lookup(selectorsByIndex, a.selector), Lookup(selectorsByIndex, b.selector);
    if sa != sb then (if sa < sb then -1 else 1)
    else if |a.modifiers| != |b.modifiers| then (if |a.modifiers| > |b.modifiers| then -1 else 1)
    else ModifiersCompare(a.modifiers, b.modifiers, modifiersByIndex, 0)
  }

  lemma {:induction false} ModifiersCompareFlip(a: seq<string>, b: seq<string>, mi: map<string, nat>, i: nat)
    ensures ModifiersCompare(a, b, mi, i) == -ModifiersCompare(b, a, mi, i)
    ensures -1 <= ModifiersCompare(a, b, mi, i) <= 1
    ensures ModifiersCompare(a, a, mi, i) == 0
    decreases |a| - i
  {
    if i < |a| && i < |b| {
      ModifiersCompareFlip(a, b, mi, i + 1);
    }
    if i < |a| {
      ModifiersCompareFlip(a, a, mi, i + 1);
    }
  }

  lemma {:induction false} ModifiersCompareTransitive(a: seq<string>, b: seq<string>, c: seq<string>, mi: map<string, nat>, i: nat)
    requires |a| == |b| == |c|
    requires ModifiersCompare(a, b, mi, i) <= 0 && ModifiersCompare(b, c, mi, i) <= 0
    ensures ModifiersCompare(a, c, mi, i) <= 0
    decreases |a| - i
  {
    if i < |a| && Lookup(mi, a[i]) == Lookup(mi, b[i]) == Lookup(mi, c[i]) {
      ModifiersCompareTransitive(a, b, c, mi, i + 1);
    }
  }

  /** `compare` gives 0 on equal names, flips sign with its arguments, and returns -1, 0 or 1. */
  lemma CompareAntisymmetric(a: GroupName, b: GroupName, si: map<string, nat>, mi: map<string, nat>)
    ensures CompareNames(a, a, si, mi) == 0
    ensures CompareNames(a, b, si, mi) == -CompareNames(b, a, si, mi)
    ensures -1 <= CompareNames(a, b, si, mi) <= 1
  {
    ModifiersCompareFlip(a.modifiers, b.modifiers, mi, 0);
    ModifiersCompareFlip(a.modifiers, a.modifiers, mi, 0);
  }

  /** "Not after" under `compare` is transitive. */
  lemma CompareTransitive(a: GroupName, b: GroupName, c: GroupName, si: map<string, nat>, mi: map<string, nat>)
    requires CompareNames(a, b, si, mi) <= 0 && CompareNames(b, c, si, mi) <= 0
    ensures CompareNames(a, c, si, mi) <= 0
  {
    if Lookup(si, a.selector) == Lookup(si, b.selector) == Lookup(si, c.selector)
      && |a.modifiers| == |b.modifiers| == |c.modifiers|
    {
      ModifiersCompareTransitive(a.modifiers, b.modifiers, c.modifiers, mi, 0);
    }
  }

  /** `compare` is a total preorder, so sorting with it orders the groups. */
  lemma CompareIsTotalPreorder(si: map<string, nat>, mi: map<string, nat>)
    ensures TotalPreorder((x: GroupName, y: GroupName) => CompareNames(x, y, si, mi))
  {
    var cmp := (x: GroupName, y: GroupName) => CompareNames(x, y, si, mi);
    forall a: GroupName, b: GroupName ensures cmp(a, b) < 0 <==> cmp(b, a) > 0 {
      CompareAntisymmetric(a, b, si, mi);
    }
    forall a: GroupName, b: GroupName, c: GroupName | cmp(a, b) <= 0 && cmp(b, c) <= 0 ensures cmp(a, c) <= 0 {
      CompareTransitive(a, b, c, si, mi);
    }
  }

  /**
   * A group matches an element exactly when the element has the group's
   * selector and the group's modifiers are a subset of the element's.
   */
  lemma DoesMatchIsSubset(g: GroupName, selectors: seq<string>, elementModifiers: seq<string>)
    ensures g.DoesMatch(selectors, elementModifiers)
        <==> g.selector in selectors && (set m | m in g.modifiers) <= (set m | m in elementModifiers)
  {
    var own, element := set m | m in g.modifiers, set m | m in elementModifiers;
    if own <= element {
      forall m | m in g.modifiers ensures m in elementModifiers {
        assert m in own;
      }
    }
    if forall m :: m in g.modifiers ==> m in elementModifiers {
      forall m | m in own ensures m in element {
      }
    }
  }

  // ---------------------------------------------------------------------------
  // The matcher

  /** `customGroups.filter(...)`: the custom groups the `groups` option names. */
  function KeptCustomGroups(customGroups: seq<CustomGroup>, groupsList: seq<string>): (r: seq<CustomGroup>)
    ensures forall g :: g in r <==> g in customGroups && g.groupName in groupsList
    ensures Subsequence(r, customGroups)
  {
    if customGroups == [] then []
    else
      var rest := KeptCustomGroups(customGroups[1..], groupsList);
      if customGroups[0].groupName in groupsList then
        assert ([customGroups[0]] + rest)[1..] == rest;
        [customGroups[0]] + rest
      else
        SubsequenceOfTail(rest, customGroups);
        rest
  }

  /** The names of `groups` that no kept custom group uses, parsed; names that do not parse are dropped. */
  function ParsedGroups(allSelectors: seq<string>, allModifiers: seq<string>, names: seq<string>, customNames: seq<string>): seq<GroupName> {
    if names == [] then []
    else if names[0] !in customNames && Parse(allSelectors, allModifiers, names[0]).Some? then
      [Parse(allSelectors, allModifiers, names[0]).value] + ParsedGroups(allSelectors, allModifiers, names[1..], customNames)
    else ParsedGroups(allSelectors, allModifiers, names[1..], customNames)
  }

  /** The predefined groups: every name of `groups` not used by a kept custom group that parses, sorted with `compare`. */
  function PredefinedGroups(allSelectors: seq<string>, allModifiers: seq<string>, groupsList: seq<string>,
                            kept: seq<CustomGroup>, si: map<string, nat>, mi: map<string, nat>): seq<GroupName> {
    StableSort(ParsedGroups(allSelectors, allModifiers, groupsList, GroupNames(kept)),
               (x: GroupName, y: GroupName) => CompareNames(x, y, si, mi))
  }

  /** Each parsed group is the parse of a name of the list that is no custom name. */
  lemma {:induction false} ParsedGroupsMembers(allSelectors: seq<string>, allModifiers: seq<string>, names: seq<string>, customNames: seq<string>)
    ensures forall g :: g in ParsedGroups(allSelectors, allModifiers, names, customNames) ==>
      g.name in names && g.name !in customNames && Parse(allSelectors, allModifiers, g.name) == Some(g)
  {
    if names != [] {
      ParsedGroupsMembers(allSelectors, allModifiers, names[1..], customNames);
      ParseKeepsName(allSelectors, allModifiers, names[0]);
    }
  }

  /** Each name of the list that is no custom name and parses contributes its parse. */
  lemma {:induction false} ParsedGroupsComplete(allSelectors: seq<string>, allModifiers: seq<string>, names: seq<string>, customNames: seq<string>)
    ensures forall n :: n in names && n !in customNames && Parse(allSelectors, allModifiers, n).Some? ==>
      Parse(allSelectors, allModifiers, n).value in ParsedGroups(allSelectors, allModifiers, names, customNames)
  {
    if names != [] {
      ParsedGroupsComplete(allSelectors, allModifiers, names[1..], customNames);
    }
  }

  /**
   * The predefined groups are exactly the parses of the names of `groups` that
   * no kept custom group uses (so a custom name is never taken as predefined),
   * and they are in `compare` order.
   */
  lemma PredefinedGroupsSpec(allSelectors: seq<string>, allModifiers: seq<string>, groupsList: seq<string>,
                             kept: seq<CustomGroup>, si: map<string, nat>, mi: map<string, nat>)
    ensures var pre := PredefinedGroups(allSelectors, allModifiers, groupsList, kept, si, mi);
      && (forall g :: g in pre ==>
            g.name in groupsList && (forall c :: c in kept ==> c.groupName != g.name)
            && Parse(allSelectors, allModifiers, g.name) == Some(g))
      && (forall n :: (n in groupsList && (forall c :: c in kept ==> c.groupName != n)
            && Parse(allSelectors, allModifiers, n).Some?) ==> Parse(allSelectors, allModifiers, n).value in pre)
      && SortedBy(pre, (x: GroupName, y: GroupName) => CompareNames(x, y, si, mi))
  {
    var cmp := (x: GroupName, y: GroupName) => CompareNames(x, y, si, mi);
    var customNames := GroupNames(kept);
    var parsed := ParsedGroups(allSelectors, allModifiers, groupsList, customNames);
    var pre := StableSort(parsed, cmp);
    ParsedGroupsMembers(allSelectors, allModifiers, groupsList, customNames);
    ParsedGroupsComplete(allSelectors, allModifiers, groupsList, customNames);
    CompareIsTotalPreorder(si, mi);
    StableSortSorted(parsed, cmp);
    forall n ensures (forall c :: c in kept ==> c.groupName != n) <==> n !in customNames {
      if n in customNames {
        var i :| 0 <= i < |customNames| && customNames[i] == n;
        assert kept[i] in kept;
      }
    }
    forall g | g in pre ensures g in parsed {
      assert g in multiset(pre);
    }
    forall g | g in parsed ensures g in pre {
      assert g in multiset(parsed);
    }
  }

  /** `computeGroup`'s answer: the first kept custom group accepted, else the first predefined match, else `unknown`. */
  function GroupFor(customGroups: seq<CustomGroup>, predefinedGroups: seq<GroupName>,
                    customGroupMatcher: CustomGroup -> bool, selectors: seq<string>, modifiers: seq<string>): string {
    var i := FirstIndex(customGroups, customGroupMatcher);
    var j := FirstIndex(predefinedGroups, (g: GroupName) => g.DoesMatch(selectors, modifiers));
    if i < |customGroups| then customGroups[i].groupName
    else if j < |predefinedGroups| then predefinedGroups[j].name
    else "unknown"
  }

  /**
   * A custom group wins over every predefined one; among custom groups the
   * first accepted wins, among predefined ones the first matching in
   * `compare` order; with no match at all the answer is `unknown`.
   */
  lemma GroupForIsFirstMatch(customGroups: seq<CustomGroup>, predefinedGroups: seq<GroupName>,
                             matcher: CustomGroup -> bool, selectors: seq<string>, modifiers: seq<string>)
    ensures forall k :: (0 <= k < |customGroups| && matcher(customGroups[k])
      && (forall j :: 0 <= j < k ==> !matcher(customGroups[j]))) ==>
        GroupFor(customGroups, predefinedGroups, matcher, selectors, modifiers) == customGroups[k].groupName
    ensures (forall c :: c in customGroups ==> !matcher(c)) ==>
      forall k :: (0 <= k < |predefinedGroups| && predefinedGroups[k].DoesMatch(selectors, modifiers)
        && (forall j :: 0 <= j < k ==> !predefinedGroups[j].DoesMatch(selectors, modifiers))) ==>
          GroupFor(customGroups, predefinedGroups, matcher, selectors, modifiers) == predefinedGroups[k].name
    ensures ((forall c :: c in customGroups ==> !matcher(c))
      && (forall g :: g in predefinedGroups ==> !g.DoesMatch(selectors, modifiers))) ==>
        GroupFor(customGroups, predefinedGroups, matcher, selectors, modifiers) == "unknown"
  {
    var p := (g: GroupName) => g.DoesMatch(selectors, modifiers);
    var i := FirstIndex(customGroups, matcher);
    var j := FirstIndex(predefinedGroups, p);
    forall k | 0 <= k < |customGroups| && matcher(customGroups[k]) && (forall j' :: 0 <= j' < k ==> !matcher(customGroups[j']))
      ensures i == k
    {
      FirstIndexIs(customGroups, matcher, k);
    }
    forall k | 0 <= k < |predefinedGroups| && p(predefinedGroups[k]) && (forall j' :: 0 <= j' < k ==> !p(predefinedGroups[j']))
      ensures j == k
    {
      FirstIndexIs(predefinedGroups, p, k);
    }
  }

  /** A built matcher: the index maps, the kept custom groups and the sorted predefined groups. */
  class GroupMatcher {
    const selectorsByIndex: map<string, nat>
    const modifiersByIndex: map<string, nat>
    const customGroups: seq<CustomGroup>
    const predefinedGroups: seq<GroupName>

    /**
     * Builds the index maps (each entry maps to its last position), keeps the
     * custom groups `groupsList` names and parses and sorts the other names.
     * `groupsList` is the flat list of group names of the `groups` option.
     */
    constructor(allSelectors: seq<string>, allModifiers: seq<string>, groupsList: seq<string>, allCustomGroups: seq<CustomGroup>)
      ensures selectorsByIndex.Keys == NodeIndexMap.Elements(allSelectors)
      ensures forall x :: x in selectorsByIndex ==> selectorsByIndex[x] < |allSelectors| && allSelectors[selectorsByIndex[x]] == x
      ensures modifiersByIndex.Keys == NodeIndexMap.Elements(allModifiers)
      ensures forall x :: x in modifiersByIndex ==> modifiersByIndex[x] < |allModifiers| && allModifiers[modifiersByIndex[x]] == x
      ensures customGroups == KeptCustomGroups(allCustomGroups, groupsList)
      ensures predefinedGroups
           == PredefinedGroups(allSelectors, allModifiers, groupsList, customGroups, selectorsByIndex, modifiersByIndex)
    {
      var si := NodeIndexMap.CreateNodeIndexMap(allSelectors);
      var mi := NodeIndexMap.CreateNodeIndexMap(allModifiers);
      var kept := KeptCustomGroups(allCustomGroups, groupsList);
      selectorsByIndex := si;
      modifiersByIndex := mi;
      customGroups := kept;
      predefinedGroups := PredefinedGroups(allSelectors, allModifiers, groupsList, kept, si, mi);
    }

    /** `computeGroup`: the custom groups in order, then the predefined groups in order. */
    method ComputeGroup(customGroupMatcher: CustomGroup -> bool, selectors: seq<string>, modifiers: seq<string>)
      returns (r: string)
      ensures r == GroupFor(customGroups, predefinedGroups, customGroupMatcher, selectors, modifiers)
    {
      var i := 0;
      while i < |customGroups|
        invariant 0 <= i <= |customGroups|
        invariant forall j :: 0 <= j < i ==> !customGroupMatcher(customGroups[j])
      {
        if customGroupMatcher(customGroups[i]) {
          FirstIndexIs(customGroups, customGroupMatcher, i);
          return customGroups[i].groupName;
        }
        i := i + 1;
      }
      FirstIndexIs(customGroups, customGroupMatcher, i);
      var k := 0;
      while k < |predefinedGroups|
        invariant 0 <= k <= |predefinedGroups|
        invariant forall j :: 0 <= j < k ==> !predefinedGroups[j].DoesMatch(selectors, modifiers)
      {
        if predefinedGroups[k].DoesMatch(selectors, modifiers) {
          FirstIndexIs(predefinedGroups, (g: GroupName) => g.DoesMatch(selectors, modifiers), k);
          return predefinedGroups[k].name;
        }
        k := k + 1;
      }
      FirstIndexIs(predefinedGroups, (g: GroupName) => g.DoesMatch(selectors, modifiers), k);
      return "unknown";
    }
  }
}
