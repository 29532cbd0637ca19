/**
 * The nearest enclosing node of a given type
 * (sort-objects/get-first-node-parent-with-type.ts). The ancestors of the
 * node, from its immediate parent up to the root, are given by their types.
 */
module ParentWithType {
  import opened Common

  /** The position, among the ancestors, of the nearest one whose type is allowed. */
  function FirstParentWithType(ancestorTypes: seq<string>, allowedTypes: seq<string>): Option<nat> {
    var i := FirstIndex(ancestorTypes, (t: string) => t in allowedTypes);
    if i < |ancestorTypes| then Some(i) else None
  }

  /**
   * `getFirstNodeParentWithType`: walk up from the immediate parent until an
   * allowed type or past the root.
   */
  method GetFirstNodeParentWithType(ancestorTypes: seq<string>, allowedTypes: seq<string>) returns (r: Option<nat>)
    ensures r.Some? ==> r.value < |ancestorTypes| && ancestorTypes[r.value] in allowedTypes
    ensures r.Some? ==> forall j :: 0 <= j < r.value ==> ancestorTypes[j] !in allowedTypes
    ensures r.None? <==> forall j :: 0 <= j < |ancestorTypes| ==> ancestorTypes[j] !in allowedTypes
    ensures r == FirstParentWithType(ancestorTypes, allowedTypes)
  {
    var parent := 0;
    while parent < |ancestorTypes|
      invariant 0 <= parent <= |ancestorTypes|
      invariant forall j :: 0 <= j < parent ==> ancestorTypes[j] !in allowedTypes
      decreases |ancestorTypes| - parent
    {
      if ancestorTypes[parent] in allowedTypes {
        FirstParentIs(ancestorTypes, allowedTypes, parent);
        return Some(parent);
      }
      parent := parent + 1;
    }
    FirstParentIs(ancestorTypes, allowedTypes, |ancestorTypes|);
    return None;
  }

  /** Any position with the nearest-allowed property is the one found. */
  lemma FirstParentIs(ancestorTypes: seq<string>, allowedTypes: seq<string>, k: nat)
    requires k <= |ancestorTypes|
    requires k < |ancestorTypes| ==> ancestorTypes[k] in allowedTypes
    requires forall j :: 0 <= j < k ==> ancestorTypes[j] !in allowedTypes
    ensures FirstParentWithType(ancestorTypes, allowedTypes) == if k < |ancestorTypes| then Some(k) else None
  {
    FirstIndexIs(ancestorTypes, (t: string) => t in allowedTypes, k);
  }

  /** With no allowed types nothing is found. */
  lemma NoAllowedTypesFindsNothing(ancestorTypes: seq<string>)
    ensures FirstParentWithType(ancestorTypes, []) == None
  {
    FirstParentIs(ancestorTypes, [], |ancestorTypes|);
  }
}
