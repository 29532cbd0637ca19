/**
 * Values shared by the grouping engine and the rules that feed it: the optional
 * value, the three spacing policies, the entries of the `groups` option and the
 * custom-group records.
 */
module Common {

  datatype Option<T> = None | Some(value: T)

  /** The `newlinesBetween` / `newlinesInside` policies. */
  datatype Newlines = Ignore | Always | Never

  /**
   * One entry of the `groups` option: a group name, a list of names that share
   * one rank, or a `{ newlinesBetween }` marker that only occupies a rank.
   */
  datatype GroupSlot =
    | Single(name: string)
    | Multi(names: seq<string>)
    | Marker(newlinesBetween: Newlines)

  /**
   * A custom group as the engine sees it: its name, its optional
   * `newlinesInside` policy, and an opaque tag standing for the matching rule
   * (selector, patterns, anyOf), which only the rule-specific matcher reads.
   */
  datatype CustomGroup = CustomGroup(groupName: string, newlinesInside: Option<Newlines>, rule: nat)

  /**
   * The `customGroups` option: the array form of custom-group records, or the
   * deprecated record form, of which only the keys (group names) matter here.
   */
  datatype CustomGroupsOption =
    | ArrayForm(groups: seq<CustomGroup>)
    | RecordForm(keys: seq<string>)

  /**
   * A sorting node: its name, size and eslint-disabled flag, the group the rule
   * computed for it, and an identity standing for the AST node it wraps.
   */
  datatype SortingNode = SortingNode(id: nat, name: string, size: nat, isEslintDisabled: bool, group: string)

  /**
   * A call made on the group state that `useGroups` creates afresh for every
   * element: `defineGroup(group, isCustom)` or
   * `setCustomGroups(customGroups, name, { override: true })`.
   */
  datatype GroupCall = DefineGroup(group: string, isCustom: bool) | SetCustomGroups(elementName: string)

  /** `getGroup`: the group the calls made so far leave current. `useGroups` is not part of this model. */
  type GroupReader = seq<GroupCall> -> string

  /** What `sortNodes` does with a set of compare options: a three-way comparator. */
  type Comparator = (SortingNode, SortingNode) -> int

  /** The group names of a list of custom groups, in order. */
  function GroupNames(cgs: seq<CustomGroup>): (r: seq<string>)
    ensures |r| == |cgs|
    ensures forall i :: 0 <= i < |cgs| ==> r[i] == cgs[i].groupName
  {
    if cgs == [] then [] else [cgs[0].groupName] + GroupNames(cgs[1..])
  }

  /**
   * `find`/`findIndex` with early exit: the position of the first element
   * satisfying `p`, or `|s|` when there is none.
   */
  function FirstIndex<T>(s: seq<T>, p: T -> bool): (i: nat)
    ensures i <= |s|
    ensures i < |s| ==> p(s[i])
    ensures forall j :: 0 <= j < i ==> !p(s[j])
  {
    if s == [] then 0 else if p(s[0]) then 0 else 1 + FirstIndex(s[1..], p)
  }

  /** `FirstIndex` is the only position with the first-match property. */
  lemma {:induction false} FirstIndexIs<T>(s: seq<T>, p: T -> bool, k: nat)
    requires k <= |s|
    requires k < |s| ==> p(s[k])
    requires forall j :: 0 <= j < k ==> !p(s[j])
    ensures FirstIndex(s, p) == k
  {
    if k > 0 {
      assert !p(s[0]);
      FirstIndexIs(s[1..], p, k - 1);
    }
  }

  /** `a` is `b` with some elements dropped, order kept. */
  predicate Subsequence<T(==)>(a: seq<T>, b: seq<T>)
    decreases |b|
  {
    if a == [] then true
    else if b == [] then false
    else (a[0] == b[0] && Subsequence(a[1..], b[1..])) || Subsequence(a, b[1..])
  }

  /** Dropping the head of `b` keeps `a` a subsequence of it. */
  lemma SubsequenceOfTail<T>(a: seq<T>, b: seq<T>)
    requires b != [] && Subsequence(a, b[1..])
    ensures Subsequence(a, b)
  {
  }
}
