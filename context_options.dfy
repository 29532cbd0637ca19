/**
 * The choice of configuration for an array (compute-matched-context-options.ts):
 * the first configuration, among those whose names filter accepts the
 * element names, whose AST-selector condition holds.
 */
module ContextOptions {
  import opened Common

  /**
   * One configuration: an identity standing for its settings, and its
   * `useConfigurationIf.matchesAstSelector`, if any.
   */
  datatype ContextOption = ContextOption(id: nat, matchesAstSelector: Option<string>)

  /**
   * `passesAstSelectorFilter`: a configuration without a (non-empty) selector
   * condition applies only where no AST selector is being evaluated; one with
   * it applies where it equals the selector evaluated.
   */
  predicate PassesAstSelectorFilter(matchesAstSelector: Option<string>, astSelector: Option<string>) {
    if matchesAstSelector.None? || matchesAstSelector.value == "" then astSelector.None?
    else Some(matchesAstSelector.value) == astSelector
  }

  /** The names of the non-null elements, in order; `nodeName` stands for `computeNodeName`. */
  function NodeNames<E>(elements: seq<Option<E>>, nodeName: E -> string): (r: seq<string>)
    ensures |r| <= |elements|
  {
    if elements == [] then []
    else (if elements[0].Some? then [nodeName(elements[0].value)] else []) + NodeNames(elements[1..], nodeName)
  }

  /**
   * `computeMatchedContextOptions`; `filterByAllNamesMatch` stands for
   * `filterOptionsByAllNamesMatch`. The result's absence is `undefined`.
   */
  function ComputeMatchedContextOptions<E>(astSelector: Option<string>, elements: seq<Option<E>>, contextOptions: seq<ContextOption>,
                                           nodeName: E -> string,
                                           filterByAllNamesMatch: (seq<ContextOption>, seq<string>) -> seq<ContextOption>): (r: Option<ContextOption>)
  {
    var matched := filterByAllNamesMatch(contextOptions, NodeNames(elements, nodeName));
    var i := FirstIndex(matched, (o: ContextOption) => PassesAstSelectorFilter(o.matchesAstSelector, astSelector));
    if i < |matched| then Some(matched[i]) else None
  }

  /** Null elements contribute no name: the names are those of the present elements. */
  lemma {:induction false} NodeNamesSkipNull<E>(elements: seq<Option<E>>, nodeName: E -> string)
    ensures forall n :: n in NodeNames(elements, nodeName) <==> exists i :: 0 <= i < |elements| && elements[i].Some? && nodeName(elements[i].value) == n
    ensures (forall i :: 0 <= i < |elements| ==> elements[i].None?) ==> NodeNames(elements, nodeName) == []
  {
    if elements != [] {
      NodeNamesSkipNull(elements[1..], nodeName);
      forall n ensures n in NodeNames(elements, nodeName) <==> exists i :: 0 <= i < |elements| && elements[i].Some? && nodeName(elements[i].value) == n {
        if n in NodeNames(elements[1..], nodeName) {
          var i :| 0 <= i < |elements[1..]| && elements[1..][i].Some? && nodeName(elements[1..][i].value) == n;
          assert elements[i + 1] == elements[1..][i];
        }
        if exists i :: 0 <= i < |elements| && elements[i].Some? && nodeName(elements[i].value) == n {
          var i :| 0 <= i < |elements| && elements[i].Some? && nodeName(elements[i].value) == n;
          if i > 0 { assert elements[1..][i - 1] == elements[i]; }
        }
      }
      if forall i :: 0 <= i < |elements| ==> elements[i].None? {
        assert elements[0].None?;
        assert forall i :: 0 <= i < |elements[1..]| ==> elements[1..][i] == elements[i + 1];
      }
    }
  }

  /**
   * The chosen configuration is the first of the name-filtered list that
   * passes the selector condition, and none passes when nothing is chosen.
   */
  lemma ComputeMatchedContextOptionsIsFirstPassing<E>(astSelector: Option<string>, elements: seq<Option<E>>, contextOptions: seq<ContextOption>,
                                                       nodeName: E -> string,
                                                       filterByAllNamesMatch: (seq<ContextOption>, seq<string>) -> seq<ContextOption>)
    ensures var matched := filterByAllNamesMatch(contextOptions, NodeNames(elements, nodeName));
      var r := ComputeMatchedContextOptions(astSelector, elements, contextOptions, nodeName, filterByAllNamesMatch);
      && (r.Some? ==> exists i :: 0 <= i < |matched| && matched[i] == r.value
                        && PassesAstSelectorFilter(r.value.matchesAstSelector, astSelector)
                        && forall j :: 0 <= j < i ==> !PassesAstSelectorFilter(matched[j].matchesAstSelector, astSelector))
      && (r.None? <==> forall o :: o in matched ==> !PassesAstSelectorFilter(o.matchesAstSelector, astSelector))
  {
    var matched := filterByAllNamesMatch(contextOptions, NodeNames(elements, nodeName));
    var p := (o: ContextOption) => PassesAstSelectorFilter(o.matchesAstSelector, astSelector);
    var i := FirstIndex(matched, p);
    if i == |matched| {
      forall o | o in matched ensures !p(o) {
        var j :| 0 <= j < |matched| && matched[j] == o;
      }
    }
  }

  /** Without a selector condition a configuration applies exactly when no AST selector is evaluated; with one, exactly at that selector. */
  lemma PassesAstSelectorFilterSpec(matchesAstSelector: Option<string>, astSelector: Option<string>)
    ensures (matchesAstSelector.None? || matchesAstSelector == Some("")) ==>
              (PassesAstSelectorFilter(matchesAstSelector, astSelector) <==> astSelector.None?)
    ensures (matchesAstSelector.Some? && matchesAstSelector.value != "") ==>
              (PassesAstSelectorFilter(matchesAstSelector, astSelector) <==> astSelector == matchesAstSelector)
  {
  }
}
