/**
 * The objects rule (sort-objects.ts): when an object is sorted at all, how a
 * property becomes a sorting node (its name, selectors, modifiers, group and
 * dependencies), how the properties are split into partitions, and which
 * messages a pair of consecutive nodes gets.
 */
module SortObjects {
  import opened Common
  import opened Sorting
  import GroupNumbers
  import opened NewlinesBetween
  import NewlinesErrors
  import opened OrderErrors
  import DependencyOrderErrors
  import ParentWithType

  // ---------------------------------------------------------------------
  // Whether an object is sorted at all
  // ---------------------------------------------------------------------

  datatype SortType = Alphabetical | Natural | LineLength | CustomAlphabet | Unsorted

  datatype ObjectKind = ObjectExpression | ObjectPattern

  /** `destructuredObjects`: a boolean, or an object with an optional `groups` flag. */
  datatype DestructuredObjectsOption = DestructuredFlag(enabled: bool) | DestructuredGroups(groups: Option<bool>)

  /** The options read by the early returns of `sortObject`. */
  datatype SkipOptions = SkipOptions(
    sortType: SortType, destructuredObjects: DestructuredObjectsOption, destructureOnly: bool,
    objectDeclarations: bool, ignorePattern: seq<string>, styledComponents: bool)

  /** JavaScript truthiness of `options.destructuredObjects`: an object is always truthy. */
  predicate DestructuredObjectsEnabled(d: DestructuredObjectsOption) {
    match d
    case DestructuredFlag(enabled) => enabled
    case DestructuredGroups(_) => true
  }

  /**
   * The early returns of `sortObject`: members that are not sortable
   * (`isSortable`, a parameter); then `unsorted`; a
   * destructuring pattern with `destructuredObjects` off; an object literal
   * with `destructureOnly` or without `objectDeclarations`; a parent name
   * matching `ignorePattern`; a styled-components object with
   * `styledComponents` off. The parent's name, the pattern matcher and the
   * styled-components test of the surrounding AST are parameters.
   */
  predicate SortsObject(sortable: bool, options: SkipOptions, kind: ObjectKind, parentName: Option<string>,
                        matches: (string, string) -> bool, inStyledComponent: bool) {
    && sortable
    && options.sortType != Unsorted
    && (if kind == ObjectPattern then DestructuredObjectsEnabled(options.destructuredObjects)
        else !options.destructureOnly && options.objectDeclarations)
    && !(parentName.Some? && parentName.value != "" && exists p :: p in options.ignorePattern && matches(parentName.value, p))
    && !(!options.styledComponents && inStyledComponent)
  }

  /**
   * `unsorted` never sorts; destructuring patterns are sorted only with
   * `destructuredObjects` enabled, object literals only with
   * `objectDeclarations` and without `destructureOnly`.
   */
  lemma SortsObjectSpec(sortable: bool, options: SkipOptions, kind: ObjectKind, parentName: Option<string>,
                        matches: (string, string) -> bool, inStyledComponent: bool)
    ensures options.sortType == Unsorted ==> !SortsObject(sortable, options, kind, parentName, matches, inStyledComponent)
    ensures kind == ObjectPattern && options.destructuredObjects == DestructuredFlag(false) ==>
      !SortsObject(sortable, options, kind, parentName, matches, inStyledComponent)
    ensures kind == ObjectExpression && (options.destructureOnly || !options.objectDeclarations) ==>
      !SortsObject(sortable, options, kind, parentName, matches, inStyledComponent)
    ensures !sortable ==> !SortsObject(sortable, options, kind, parentName, matches, inStyledComponent)
    ensures sortable && options.sortType != Unsorted && kind == ObjectPattern && options.destructuredObjects.DestructuredGroups?
      && parentName.None? && options.styledComponents
      ==> SortsObject(sortable, options, kind, parentName, matches, inStyledComponent)
  {
  }

  /**
   * `nodesSortingFunction`: the plain sort (no groups) only for a
   * destructuring pattern whose `destructuredObjects` object does not set
   * `groups`; the grouped sort otherwise.
   */
  predicate SortsWithGroups(kind: ObjectKind, d: DestructuredObjectsOption) {
    !(kind == ObjectPattern && d.DestructuredGroups? && !(d.groups == Some(true)))
  }

  /** Object literals and the boolean form always use groups; the object form only with `groups: true`. */
  lemma SortsWithGroupsSpec(kind: ObjectKind, d: DestructuredObjectsOption)
    ensures kind == ObjectExpression || d.DestructuredFlag? ==> SortsWithGroups(kind, d)
    ensures kind == ObjectPattern && d.DestructuredGroups? ==> (SortsWithGroups(kind, d) <==> d.groups == Some(true))
  {
  }

  // ---------------------------------------------------------------------
  // Names, values and the parent of an object
  // ---------------------------------------------------------------------

  /** A property key: an identifier, a literal (with its value as a string) or another expression (with its text). */
  datatype PropertyKey = IdentifierKey(name: string) | LiteralKey(valueString: string) | OtherKey(text: string)

  /** `getNodeName`: the identifier's name, the literal's value as a string, or the key's text. */
  function NodeName(key: PropertyKey): string {
    match key
    case IdentifierKey(name) => name
    case LiteralKey(valueString) => valueString
    case OtherKey(text) => text
  }

  /** What the rules need of an ancestor: its type and the identifier names of its `id`, `key` and `callee`, when they are identifiers. */
  datatype Ancestor = Ancestor(nodeType: string, idName: Option<string>, keyName: Option<string>, calleeName: Option<string>)

  function AncestorTypes(ancestors: seq<Ancestor>): (r: seq<string>)
    ensures |r| == |ancestors|
    ensures forall i :: 0 <= i < |r| ==> r[i] == ancestors[i].nodeType
  {
    seq(|ancestors|, i requires 0 <= i < |ancestors| => ancestors[i].nodeType)
  }

  /**
   * `getVariableParentName`: the nearest `VariableDeclarator` or `Property`
   * ancestor; its `id` (declarator) or `key` (property) name when that is an
   * identifier.
   */
  function VariableParentName(ancestors: seq<Ancestor>): Option<string> {
    var found := ParentWithType.FirstParentWithType(AncestorTypes(ancestors), ["VariableDeclarator", "Property"]);
    if found.None? || found.value >= |ancestors| then None
    else
      var parent := ancestors[found.value];
      if parent.nodeType == "VariableDeclarator" then parent.idName else parent.keyName
  }

  /** `getCallExpressionParentName`: the callee's name of the nearest `CallExpression` ancestor, when it is an identifier. */
  function CallParentName(ancestors: seq<Ancestor>): Option<string> {
    var found := ParentWithType.FirstParentWithType(AncestorTypes(ancestors), ["CallExpression"]);
    if found.None? || found.value >= |ancestors| then None else ancestors[found.value].calleeName
  }

  datatype ParentType = VariableDeclaratorParent | CallExpressionParent

  datatype ObjectParent = ObjectParent(parentType: ParentType, name: string)

  /** `getObjectParent`: a non-empty variable name first, then a non-empty call name, else none. */
  function GetObjectParent(ancestors: seq<Ancestor>): (r: Option<ObjectParent>)
    ensures r.Some? ==> r.value.name != ""
  {
    var variableParentName := VariableParentName(ancestors);
    if variableParentName.Some? && variableParentName.value != "" then
      Some(ObjectParent(VariableDeclaratorParent, variableParentName.value))
    else
      var callParentName := CallParentName(ancestors);
      if callParentName.Some? && callParentName.value != "" then Some(ObjectParent(CallExpressionParent, callParentName.value))
      else None
  }

  /**
   * The parent is a variable declarator exactly when the nearest declarator
   * or property ancestor carries a non-empty identifier name; it is a call
   * only when that fails and the nearest call's callee has one.
   */
  lemma GetObjectParentSpec(ancestors: seq<Ancestor>)
    ensures var r := GetObjectParent(ancestors);
      var v := VariableParentName(ancestors);
      var c := CallParentName(ancestors);
      && ((r.Some? && r.value.parentType == VariableDeclaratorParent) <==> v.Some? && v.value != "")
      && ((r.Some? && r.value.parentType == CallExpressionParent) <==> !(v.Some? && v.value != "") && c.Some? && c.value != "")
      && (r.Some? && r.value.parentType == VariableDeclaratorParent ==> r.value.name == v.value)
      && (r.Some? && r.value.parentType == CallExpressionParent ==> r.value.name == c.value)
  {
  }

  /** The variable parent is read from the nearest ancestor of an allowed type, and no nearer ancestor has one. */
  lemma VariableParentNameIsNearest(ancestors: seq<Ancestor>, k: nat)
    requires k < |ancestors| && ancestors[k].nodeType in ["VariableDeclarator", "Property"]
    requires forall j :: 0 <= j < k ==> ancestors[j].nodeType !in ["VariableDeclarator", "Property"]
    ensures VariableParentName(ancestors)
         == if ancestors[k].nodeType == "VariableDeclarator" then ancestors[k].idName else ancestors[k].keyName
  {
    ParentWithType.FirstParentIs(AncestorTypes(ancestors), ["VariableDeclarator", "Property"], k);
  }

  /**
   * The `useConfigurationIf.callingFunctionNamePattern` test of a context
   * option: without a pattern it applies; otherwise only to an object whose
   * parent is a call whose name matches.
   */
  predicate ContextOptionApplies(callingFunctionNamePattern: Option<string>, objectParent: Option<ObjectParent>,
                                 matches: (string, string) -> bool) {
    if callingFunctionNamePattern.None? || callingFunctionNamePattern.value == "" then true
    else if objectParent.None? || objectParent.value.parentType == VariableDeclaratorParent || objectParent.value.name == "" then false
    else matches(objectParent.value.name, callingFunctionNamePattern.value)
  }

  lemma ContextOptionAppliesSpec(pattern: Option<string>, objectParent: Option<ObjectParent>, matches: (string, string) -> bool)
    ensures (pattern.None? || pattern == Some("")) ==> ContextOptionApplies(pattern, objectParent, matches)
    ensures pattern.Some? && pattern.value != "" ==>
      (ContextOptionApplies(pattern, objectParent, matches) <==>
         objectParent.Some? && objectParent.value.parentType == CallExpressionParent && objectParent.value.name != ""
         && matches(objectParent.value.name, pattern.value))
  {
  }

  // ---------------------------------------------------------------------
  // Dependencies of a default value
  // ---------------------------------------------------------------------


  datatype AstKind = ArrowFunctionKind | FunctionKind | IdentifierKind | PropertyKind | ConditionalKind | AssignmentPatternKind | OtherKind

  /**
   * An expression node, reduced to what `checkNode` reads: its kind, the
   * name of an identifier, and each child field it visits. A field the node
   * does not have is `None` or empty; so is a boolean `expression` and a
   * falsy `argument`; `elements` keeps its holes.
   */
  datatype Ast = Ast(
    kind: AstKind, name: string,
    key: Option<Ast>, value: Option<Ast>,
    test: Option<Ast>, consequent: Option<Ast>, alternate: Option<Ast>,
    expression: Option<Ast>, obj: Option<Ast>, callee: Option<Ast>, left: Option<Ast>, right: Option<Ast>,
    elements: seq<Option<Ast>>, argument: Option<Ast>,
    arguments: seq<Ast>, properties: seq<Ast>, expressions: seq<Ast>)

  predicate IsFunction(n: Ast) {
    n.kind == ArrowFunctionKind || n.kind == FunctionKind
  }

  /**
   * The names `checkNode` pushes for a node: nothing inside a function; an
   * identifier's own name; then, in the order it visits them, the names
   * from the key and value of a property, the test and branches of a
   * conditional, and the generic child fields.
   */
  function Dependencies(n: Ast): seq<string>
    decreases n
  {
    if IsFunction(n) then []
    else
      (if n.kind == IdentifierKind then [n.name] else []) + KindDependencies(n) + ChildDependencies(n)
  }

  /** The fields visited for properties and conditionals only. */
  function KindDependencies(n: Ast): seq<string>
    decreases n, 1
  {
    (if n.kind == PropertyKind then PropertyDependencies(n) else [])
    + (if n.kind == ConditionalKind then ConditionalDependencies(n) else [])
  }

  /** The key, then the value, of a property. */
  function PropertyDependencies(n: Ast): seq<string>
    decreases n, 0
  {
    OptionalDependencies(n.key) + OptionalDependencies(n.value)
  }

  /** The test, then the two branches, of a conditional. */
  function ConditionalDependencies(n: Ast): seq<string>
    decreases n, 0
  {
    OptionalDependencies(n.test) + OptionalDependencies(n.consequent) + OptionalDependencies(n.alternate)
  }

  /** The generic child fields, in the order `checkNode` tests them. */
  function ChildDependencies(n: Ast): seq<string>
    decreases n, 0
  {
    OptionalDependencies(n.expression) + OptionalDependencies(n.obj) + OptionalDependencies(n.callee)
    + OptionalDependencies(n.left) + OptionalDependencies(n.right)
    + EachOptionalDependencies(n.elements) + OptionalDependencies(n.argument)
    + EachDependencies(n.arguments) + EachDependencies(n.properties) + EachDependencies(n.expressions)
  }

  function OptionalDependencies(o: Option<Ast>): seq<string>
    decreases o
  {
    if o.Some? then Dependencies(o.value) else []
  }

  /** The names from each node of a list, in order. */
  function EachDependencies(xs: seq<Ast>): seq<string>
    decreases xs
  {
    if xs == [] then [] else EachDependencies(xs[..|xs| - 1]) + Dependencies(xs[|xs| - 1])
  }

  /** The names from each non-null entry of a list, in order. */
  function EachOptionalDependencies(xs: seq<Option<Ast>>): seq<string>
    decreases xs
  {
    if xs == [] then [] else EachOptionalDependencies(xs[..|xs| - 1]) + OptionalDependencies(xs[|xs| - 1])
  }

  /**
   * `checkNode` run on a node after `dependencies` were already collected:
   * it appends the node's names to them.
   */
  method CheckNode(n: Ast, dependencies: seq<string>) returns (r: seq<string>)
    ensures r == dependencies + Dependencies(n)
    decreases n
  {
    if IsFunction(n) {
      return dependencies;
    }
    ghost var own := if n.kind == IdentifierKind then [n.name] else [];
    ghost var kindDeps, childDeps := KindDependencies(n), ChildDependencies(n);
    assert Dependencies(n) == own + kindDeps + childDeps;
    r := dependencies;
    if n.kind == IdentifierKind {
      r := r + [n.name];
    }
    assert r == dependencies + own;
    r := CheckKindFields(n, r);
    r := CheckChildren(n, r);
    AppendAssociative3(dependencies, own, kindDeps, childDeps);
  }

  /** The `Property` and `ConditionalExpression` cases of `checkNode`. */
  method CheckKindFields(n: Ast, dependencies: seq<string>) returns (r: seq<string>)
    ensures r == dependencies + KindDependencies(n)
    decreases n, 1
  {
    r := dependencies;
    if n.kind == PropertyKind {
      r := TraverseOptional(n.key, r);
      r := TraverseOptional(n.value, r);
      AppendAssociative(dependencies, OptionalDependencies(n.key), OptionalDependencies(n.value));
    }
    ghost var property := r;
    if n.kind == ConditionalKind {
      r := TraverseOptional(n.test, r);
      r := TraverseOptional(n.consequent, r);
      AppendAssociative(property, OptionalDependencies(n.test), OptionalDependencies(n.consequent));
      r := TraverseOptional(n.alternate, r);
      AppendAssociative(property, OptionalDependencies(n.test) + OptionalDependencies(n.consequent), OptionalDependencies(n.alternate));
    }
    AppendAssociative(dependencies, if n.kind == PropertyKind then PropertyDependencies(n) else [],
                if n.kind == ConditionalKind then ConditionalDependencies(n) else []);
  }

  /** The generic child fields of `checkNode`. */
  method CheckChildren(n: Ast, dependencies: seq<string>) returns (r: seq<string>)
    ensures r == dependencies + ChildDependencies(n)
    decreases n, 0
  {
    var d := dependencies;
    r := TraverseOptional(n.expression, d);
    ghost var part := OptionalDependencies(n.expression);
    r := TraverseOptional(n.obj, r);
    AppendAssociative(d, part, OptionalDependencies(n.obj));
    part := part + OptionalDependencies(n.obj);
    r := TraverseOptional(n.callee, r);
    AppendAssociative(d, part, OptionalDependencies(n.callee));
    part := part + OptionalDependencies(n.callee);
    r := TraverseOptional(n.left, r);
    AppendAssociative(d, part, OptionalDependencies(n.left));
    part := part + OptionalDependencies(n.left);
    r := TraverseOptional(n.right, r);
    AppendAssociative(d, part, OptionalDependencies(n.right));
    part := part + OptionalDependencies(n.right);
    r := TraverseEachOptional(n.elements, r);
    AppendAssociative(d, part, EachOptionalDependencies(n.elements));
    part := part + EachOptionalDependencies(n.elements);
    r := TraverseOptional(n.argument, r);
    AppendAssociative(d, part, OptionalDependencies(n.argument));
    part := part + OptionalDependencies(n.argument);
    r := TraverseEach(n.arguments, r);
    AppendAssociative(d, part, EachDependencies(n.arguments));
    part := part + EachDependencies(n.arguments);
    r := TraverseEach(n.properties, r);
    AppendAssociative(d, part, EachDependencies(n.properties));
    part := part + EachDependencies(n.properties);
    r := TraverseEach(n.expressions, r);
    AppendAssociative(d, part, EachDependencies(n.expressions));
    part := part + EachDependencies(n.expressions);
    assert part == ChildDependencies(n);
  }

  method TraverseOptional(o: Option<Ast>, dependencies: seq<string>) returns (r: seq<string>)
    ensures r == dependencies + OptionalDependencies(o)
    decreases o
  {
    r := dependencies;
    if o.Some? {
      r := CheckNode(o.value, r);
    }
  }

  /** A `for … of` loop that traverses every node of a list. */
  method TraverseEach(xs: seq<Ast>, dependencies: seq<string>) returns (r: seq<string>)
    ensures r == dependencies + EachDependencies(xs)
    decreases xs
  {
    r := dependencies;
    for i := 0 to |xs|
      invariant r == dependencies + EachDependencies(xs[..i])
    {
      assert xs[..i + 1][..i] == xs[..i];
      r := CheckNode(xs[i], r);
    }
    assert xs[..|xs|] == xs;
  }

  /** `elements.filter(e => e !== null)` and a loop over what remains. */
  method TraverseEachOptional(xs: seq<Option<Ast>>, dependencies: seq<string>) returns (r: seq<string>)
    ensures r == dependencies + EachOptionalDependencies(xs)
    decreases xs
  {
    r := dependencies;
    for i := 0 to |xs|
      invariant r == dependencies + EachOptionalDependencies(xs[..i])
    {
      assert xs[..i + 1][..i] == xs[..i];
      r := TraverseOptional(xs[i], r);
    }
    assert xs[..|xs|] == xs;
  }

  /** `extractDependencies`: the names `checkNode` collects from the default value. */
  method ExtractDependencies(init: Ast) returns (dependencies: seq<string>)
    ensures dependencies == Dependencies(init)
  {
    dependencies := CheckNode(init, []);
  }

  /**
   * The identifier names that occur in a tree outside any function, over
   * every child field whatever the node's kind: a reference for what the
   * traversal may collect.
   */
  function VisibleNames(n: Ast): set<string>
    decreases n
  {
    if IsFunction(n) then {}
    else (if n.kind == IdentifierKind then {n.name} else {}) + FieldNames(n)
  }

  function FieldNames(n: Ast): set<string>
    decreases n, 0
  {
    OptionalNames(n.key) + OptionalNames(n.value)
    + OptionalNames(n.test) + OptionalNames(n.consequent) + OptionalNames(n.alternate)
    + OptionalNames(n.expression) + OptionalNames(n.obj) + OptionalNames(n.callee)
    + OptionalNames(n.left) + OptionalNames(n.right) + OptionalNames(n.argument)
    + EachOptionalNames(n.elements) + EachNames(n.arguments) + EachNames(n.properties) + EachNames(n.expressions)
  }

  function EachNames(xs: seq<Ast>): set<string>
    decreases xs
  {
    set i, x | 0 <= i < |xs| && x in VisibleNames(xs[i]) :: x
  }

  function EachOptionalNames(xs: seq<Option<Ast>>): set<string>
    decreases xs
  {
    set i, x | 0 <= i < |xs| && x in OptionalNames(xs[i]) :: x
  }

  function OptionalNames(o: Option<Ast>): set<string>
    decreases o
  {
    if o.Some? then VisibleNames(o.value) else {}
  }

  /**
   * Every collected name is the name of an identifier occurring in the value
   * outside any function: function bodies are never traversed.
   */
  lemma {:induction false} DependenciesAreVisibleNames(n: Ast)
    ensures forall d :: d in Dependencies(n) ==> d in VisibleNames(n)
    decreases n
  {
    if !IsFunction(n) {
      KindFieldsAreVisibleNames(n);
      ChildrenAreVisibleNames(n);
    }
  }

  lemma {:induction false} KindFieldsAreVisibleNames(n: Ast)
    requires !IsFunction(n)
    ensures forall d :: d in KindDependencies(n) ==> d in FieldNames(n)
    decreases n, 1
  {
    OptionalAreVisibleNames(n.key);
    OptionalAreVisibleNames(n.value);
    OptionalAreVisibleNames(n.test);
    OptionalAreVisibleNames(n.consequent);
    OptionalAreVisibleNames(n.alternate);
  }

  lemma {:induction false} ChildrenAreVisibleNames(n: Ast)
    requires !IsFunction(n)
    ensures forall d :: d in ChildDependencies(n) ==> d in FieldNames(n)
    decreases n, 0
  {
    OptionalAreVisibleNames(n.expression);
    OptionalAreVisibleNames(n.obj);
    OptionalAreVisibleNames(n.callee);
    OptionalAreVisibleNames(n.left);
    OptionalAreVisibleNames(n.right);
    OptionalAreVisibleNames(n.argument);
    EachOptionalAreVisibleNames(n.elements);
    EachAreVisibleNames(n.arguments);
    EachAreVisibleNames(n.properties);
    EachAreVisibleNames(n.expressions);
  }

  lemma {:induction false} OptionalAreVisibleNames(o: Option<Ast>)
    ensures forall d :: d in OptionalDependencies(o) ==> d in OptionalNames(o)
    decreases o
  {
    if o.Some? {
      DependenciesAreVisibleNames(o.value);
    }
  }

  lemma {:induction false} EachAreVisibleNames(xs: seq<Ast>)
    ensures forall d :: d in EachDependencies(xs) ==> d in EachNames(xs)
    decreases xs
  {
    if xs != [] {
      var k := |xs| - 1;
      EachAreVisibleNames(xs[..k]);
      DependenciesAreVisibleNames(xs[k]);
      forall d | d in EachDependencies(xs) ensures d in EachNames(xs) {
        if d in EachDependencies(xs[..k]) {
          var i :| 0 <= i < k && d in VisibleNames(xs[..k][i]);
          assert xs[..k][i] == xs[i];
        } else {
          assert d in VisibleNames(xs[k]);
        }
      }
    }
  }

  lemma {:induction false} EachOptionalAreVisibleNames(xs: seq<Option<Ast>>)
    ensures forall d :: d in EachOptionalDependencies(xs) ==> d in EachOptionalNames(xs)
    decreases xs
  {
    if xs != [] {
      var k := |xs| - 1;
      EachOptionalAreVisibleNames(xs[..k]);
      OptionalAreVisibleNames(xs[k]);
      forall d | d in EachOptionalDependencies(xs) ensures d in EachOptionalNames(xs) {
        if d in EachOptionalDependencies(xs[..k]) {
          var i :| 0 <= i < k && d in OptionalNames(xs[..k][i]);
          assert xs[..k][i] == xs[i];
        } else {
          assert d in OptionalNames(xs[k]);
        }
      }
    }
  }

  /** A function value contributes nothing, and an identifier contributes exactly its name. */
  lemma DependenciesOfLeaves(n: Ast)
    ensures IsFunction(n) ==> Dependencies(n) == []
    ensures n.kind == IdentifierKind ==> Dependencies(n)[..1] == [n.name]
  {
  }

  // ---------------------------------------------------------------------
  // Selectors, modifiers and the group of a property
  // ---------------------------------------------------------------------

  /**
   * The selectors of a property: `method` for a function value, `property`
   * otherwise, then `member`, then `multiline` for a property spanning
   * several lines.
   */
  function PropertySelectors(isMethod: bool, isMultiline: bool): (r: seq<string>)
    ensures |r| == if isMultiline then 3 else 2
    ensures r[0] == "method" <==> isMethod
    ensures r[0] == "property" <==> !isMethod
    ensures r[1] == "member"
    ensures "multiline" in r <==> isMultiline
  {
    [if isMethod then "method" else "property", "member"] + (if isMultiline then ["multiline"] else [])
  }

  /** The modifiers of a property: `multiline` exactly for one spanning several lines. */
  function PropertyModifiers(isMultiline: bool): (r: seq<string>)
    ensures "multiline" in r <==> isMultiline
    ensures |r| <= 1
  {
    if isMultiline then ["multiline"] else []
  }

  /** The pushes into `selectors` and `modifiers`. */
  method ComputeSelectors(value: Ast, startLine: nat, endLine: nat) returns (selectors: seq<string>, modifiers: seq<string>)
    ensures selectors == PropertySelectors(IsFunction(value), startLine != endLine)
    ensures modifiers == PropertyModifiers(startLine != endLine)
  {
    selectors := [];
    modifiers := [];
    if value.kind == ArrowFunctionKind || value.kind == FunctionKind {
      selectors := selectors + ["method"];
    } else {
      selectors := selectors + ["property"];
    }
    selectors := selectors + ["member"];
    if startLine != endLine {
      modifiers := modifiers + ["multiline"];
      selectors := selectors + ["multiline"];
    }
  }

  /** `getNodeValue`: no value text for a function value. */
  function NodeValue(value: Ast, valueText: string): (r: Option<string>)
    ensures r.None? <==> IsFunction(value)
    ensures r.Some? ==> r.value == valueText
  {
    if IsFunction(value) then None else Some(valueText)
  }

  /** What `doesCustomGroupMatch` is given about the property. */
  datatype ElementDescription = ElementDescription(elementValue: Option<string>, elementName: string,
                                                   selectors: seq<string>, modifiers: seq<string>)

  /** `doesCustomGroupMatch`, which is not part of this model. */
  type CustomGroupMatcher = (CustomGroup, ElementDescription) -> bool

  /**
   * The calls of the `for … of options.customGroups` loop: each matching
   * custom group is defined, and the loop stops once the group just defined
   * is the current one.
   */
  function CustomGroupCalls(history: seq<GroupCall>, customGroups: seq<CustomGroup>, matcher: CustomGroupMatcher,
                            element: ElementDescription, getGroup: GroupReader): seq<GroupCall>
    decreases |customGroups|
  {
    if customGroups == [] then history
    else if matcher(customGroups[0], element) then
      var next := history + [DefineGroup(customGroups[0].groupName, true)];
      if getGroup(next) == customGroups[0].groupName then next
      else CustomGroupCalls(next, customGroups[1..], matcher, element, getGroup)
    else CustomGroupCalls(history, customGroups[1..], matcher, element, getGroup)
  }

  /** The loop over the array form of `customGroups`, with its `break`. */
  method RunCustomGroups(history: seq<GroupCall>, customGroups: seq<CustomGroup>, matcher: CustomGroupMatcher,
                         element: ElementDescription, getGroup: GroupReader) returns (r: seq<GroupCall>)
    ensures r == CustomGroupCalls(history, customGroups, matcher, element, getGroup)
  {
    r := history;
    for i := 0 to |customGroups|
      invariant CustomGroupCalls(r, customGroups[i..], matcher, element, getGroup)
             == CustomGroupCalls(history, customGroups, matcher, element, getGroup)
    {
      assert customGroups[i..][1..] == customGroups[i + 1..];
      var customGroup := customGroups[i];
      if matcher(customGroup, element) {
        r := r + [DefineGroup(customGroup.groupName, true)];
        if getGroup(r) == customGroup.groupName {
          assert r == CustomGroupCalls(history, customGroups, matcher, element, getGroup);
          break;
        }
      }
    }
  }

  /** The calls the loop would make without its `break`: every matching custom group, in order. */
  function AllCustomDefines(history: seq<GroupCall>, customGroups: seq<CustomGroup>, matcher: CustomGroupMatcher,
                            element: ElementDescription): (r: seq<GroupCall>)
    ensures |history| <= |r| && r[..|history|] == history
    ensures forall m :: |history| <= m < |r| ==> r[m].DefineGroup? && r[m].isCustom
    decreases |customGroups|
  {
    if customGroups == [] then history
    else if matcher(customGroups[0], element) then
      AllCustomDefines(history + [DefineGroup(customGroups[0].groupName, true)], customGroups[1..], matcher, element)
    else AllCustomDefines(history, customGroups[1..], matcher, element)
  }

  /**
   * The loop makes a prefix of the calls it would make without `break`; when
   * it stops short, the group it defined last is the current one; and no
   * group it defined before that became current, so a match that did not
   * become current does not stop it.
   */
  lemma {:induction false} CustomGroupCallsSpec(history: seq<GroupCall>, customGroups: seq<CustomGroup>, matcher: CustomGroupMatcher,
                                                element: ElementDescription, getGroup: GroupReader)
    ensures var r := CustomGroupCalls(history, customGroups, matcher, element, getGroup);
      var all := AllCustomDefines(history, customGroups, matcher, element);
      && |history| <= |r| <= |all| && r == all[..|r|]
      && (r != all ==> |r| > |history| && r[|r| - 1].DefineGroup? && getGroup(r) == r[|r| - 1].group)
      && (forall m :: |history| < m < |r| ==> r[m - 1].DefineGroup? && getGroup(r[..m]) != r[m - 1].group)
    decreases |customGroups|
  {
    if customGroups != [] {
      var next := history + [DefineGroup(customGroups[0].groupName, true)];
      if matcher(customGroups[0], element) {
        if getGroup(next) != customGroups[0].groupName {
          CustomGroupCallsSpec(next, customGroups[1..], matcher, element, getGroup);
          var r := CustomGroupCalls(history, customGroups, matcher, element, getGroup);
          var all := AllCustomDefines(next, customGroups[1..], matcher, element);
          assert r[..|next|] == next by {
            assert r[..|next|] == all[..|r|][..|next|] == all[..|next|];
          }
          forall m | |history| < m < |r| ensures r[m - 1].DefineGroup? && getGroup(r[..m]) != r[m - 1].group {
            if m == |next| {
              assert r[..m] == next;
              assert r[m - 1] == next[m - 1];
            }
          }
        }
      } else {
        CustomGroupCallsSpec(history, customGroups[1..], matcher, element, getGroup);
      }
    }
  }

  /** No matching custom group leaves the calls as they were. */
  lemma CustomGroupCallsWithoutMatch(history: seq<GroupCall>, customGroups: seq<CustomGroup>, matcher: CustomGroupMatcher,
                                     element: ElementDescription, getGroup: GroupReader)
    requires forall i :: 0 <= i < |customGroups| ==> !matcher(customGroups[i], element)
    ensures CustomGroupCalls(history, customGroups, matcher, element, getGroup) == history
    decreases |customGroups|
  {
    if customGroups != [] {
      CustomGroupCallsWithoutMatch(history, customGroups[1..], matcher, element, getGroup);
    }
  }

  // ---------------------------------------------------------------------
  // From properties to partitions of sorting nodes (`formatProperties`)
  // ---------------------------------------------------------------------

  /**
   * A member of the object: a spread or rest element, or a property with
   * its key, value (and the value's text), first and last line, size and
   * eslint-disabled flag; `id` stands for the AST node.
   */
  datatype ObjectMember =
    | SpreadElement
    | RestElement
    | Property(id: nat, key: PropertyKey, value: Ast, valueText: string,
               startLine: nat, endLine: nat, size: nat, isEslintDisabled: bool)

  /** A sorting node with the names its default value depends on. */
  datatype ObjectNode = ObjectNode(node: SortingNode, dependencies: seq<string>)

  /**
   * What the reduce reads besides the property: the `customGroups` option,
   * and, as parameters, `doesCustomGroupMatch`, `generatePredefinedGroups`,
   * `getGroup`, `partitionByNewLine`, `getLinesBetween` and the
   * partition-comment test of the comments before a node.
   */
  datatype PropertyEnv = PropertyEnv(
    customGroups: CustomGroupsOption, matcher: CustomGroupMatcher,
    predefinedGroups: (seq<string>, seq<string>) -> seq<string>, getGroup: GroupReader,
    partitionByNewLine: bool, linesBetween: (SortingNode, SortingNode) -> nat,
    hasPartitionComment: SortingNode -> bool)

  /** `defineGroup(predefinedGroup)` for each predefined group, in order. */
  function PredefinedCalls(predefinedGroups: seq<string>): (r: seq<GroupCall>)
    ensures |r| == |predefinedGroups|
    ensures forall i :: 0 <= i < |r| ==> r[i] == DefineGroup(predefinedGroups[i], false)
  {
    seq(|predefinedGroups|, i requires 0 <= i < |predefinedGroups| => DefineGroup(predefinedGroups[i], false))
  }

  /** The calls made on the group state of a property. */
  function PropertyCalls(p: ObjectMember, env: PropertyEnv): seq<GroupCall>
    requires p.Property?
  {
    var isMultiline := p.startLine != p.endLine;
    var selectors := PropertySelectors(IsFunction(p.value), isMultiline);
    var modifiers := PropertyModifiers(isMultiline);
    var calls := PredefinedCalls(env.predefinedGroups(selectors, modifiers));
    var name := NodeName(p.key);
    match env.customGroups
    case ArrayForm(groups) =>
      CustomGroupCalls(calls, groups, env.matcher, ElementDescription(NodeValue(p.value, p.valueText), name, selectors, modifiers), env.getGroup)
    case RecordForm(_) => calls + [SetCustomGroups(name)]
  }

  /** The sorting node of a property. */
  function PropertyNode(p: ObjectMember, env: PropertyEnv): ObjectNode
    requires p.Property?
  {
    ObjectNode(SortingNode(p.id, NodeName(p.key), p.size, p.isEslintDisabled, env.getGroup(PropertyCalls(p, env))),
               if p.value.kind == AssignmentPatternKind then Dependencies(p.value) else [])
  }

  /**
   * The node is named by its key; only a default value (`AssignmentPattern`)
   * has dependencies; its group is what the calls leave current, and the
   * calls are the predefined groups in order followed by the custom-group
   * loop or by one `setCustomGroups` for the record form.
   */
  lemma PropertyNodeSpec(p: ObjectMember, env: PropertyEnv)
    requires p.Property?
    ensures var n := PropertyNode(p, env);
      && n.node.name == NodeName(p.key) && n.node.id == p.id
      && n.node.size == p.size && n.node.isEslintDisabled == p.isEslintDisabled
      && (p.value.kind != AssignmentPatternKind ==> n.dependencies == [])
      && (p.value.kind == AssignmentPatternKind ==> n.dependencies == Dependencies(p.value))
      && n.node.group == env.getGroup(PropertyCalls(p, env))
    ensures var isMultiline := p.startLine != p.endLine;
      var predefined := env.predefinedGroups(PropertySelectors(IsFunction(p.value), isMultiline), PropertyModifiers(isMultiline));
      var calls := PropertyCalls(p, env);
      && |predefined| <= |calls|
      && (forall i :: 0 <= i < |predefined| ==> calls[i] == DefineGroup(predefined[i], false))
      && (env.customGroups.RecordForm? ==> |calls| == |predefined| + 1 && calls[|predefined|] == SetCustomGroups(NodeName(p.key)))
      && (env.customGroups.ArrayForm? ==> forall i :: |predefined| <= i < |calls| ==> calls[i].DefineGroup? && calls[i].isCustom)
  {
    var isMultiline := p.startLine != p.endLine;
    var selectors := PropertySelectors(IsFunction(p.value), isMultiline);
    var modifiers := PropertyModifiers(isMultiline);
    var calls := PredefinedCalls(env.predefinedGroups(selectors, modifiers));
    if env.customGroups.ArrayForm? {
      var element := ElementDescription(NodeValue(p.value, p.valueText), NodeName(p.key), selectors, modifiers);
      CustomGroupCallsSpec(calls, env.customGroups.groups, env.matcher, element, env.getGroup);
      var all := AllCustomDefines(calls, env.customGroups.groups, env.matcher, element);
      var r := PropertyCalls(p, env);
      assert r[..|calls|] == all[..|r|][..|calls|] == all[..|calls|];
      assert forall i :: 0 <= i < |calls| ==> r[i] == r[..|calls|][i];
    }
  }

  /** The body of the reduce for one property: the node it pushes. */
  method FormatProperty(p: ObjectMember, env: PropertyEnv) returns (propertySortingNode: ObjectNode)
    requires p.Property?
    ensures propertySortingNode == PropertyNode(p, env)
  {
    var dependencies: seq<string> := [];
    if p.value.kind == AssignmentPatternKind {
      dependencies := ExtractDependencies(p.value);
    }
    var selectors, modifiers := ComputeSelectors(p.value, p.startLine, p.endLine);
    var calls := GroupCalls(p, env, selectors, modifiers);
    propertySortingNode := ObjectNode(SortingNode(p.id, NodeName(p.key), p.size, p.isEslintDisabled, env.getGroup(calls)), dependencies);
  }

  /** The calls the property's group computation makes: the predefined groups, then the custom groups. */
  method GroupCalls(p: ObjectMember, env: PropertyEnv, selectors: seq<string>, modifiers: seq<string>) returns (calls: seq<GroupCall>)
    requires p.Property?
    requires selectors == PropertySelectors(IsFunction(p.value), p.startLine != p.endLine)
    requires modifiers == PropertyModifiers(p.startLine != p.endLine)
    ensures calls == PropertyCalls(p, env)
  {
    calls := DefinePredefinedGroups(env.predefinedGroups(selectors, modifiers));
    var name := NodeName(p.key);
    if env.customGroups.ArrayForm? {
      calls := RunCustomGroups(calls, env.customGroups.groups, env.matcher,
                               ElementDescription(NodeValue(p.value, p.valueText), name, selectors, modifiers), env.getGroup);
    } else {
      calls := calls + [SetCustomGroups(name)];
    }
  }

  /** The loop defining each predefined group, in order. */
  method DefinePredefinedGroups(predefinedGroups: seq<string>) returns (calls: seq<GroupCall>)
    ensures calls == PredefinedCalls(predefinedGroups)
  {
    calls := [];
    for i := 0 to |predefinedGroups|
      invariant calls == PredefinedCalls(predefinedGroups[..i])
    {
      calls := calls + [DefineGroup(predefinedGroups[i], false)];
    }
    assert predefinedGroups[..|predefinedGroups|] == predefinedGroups;
  }

  /** `accumulator.at(-1)?.at(-1)`: the last node of the last partition, none when that partition is empty. */
  function LastProperty(acc: seq<seq<ObjectNode>>): Option<SortingNode> {
    if acc == [] || acc[|acc| - 1] == [] then None else Some(acc[|acc| - 1][|acc[|acc| - 1]| - 1].node)
  }

  /** A new partition before `node`: blank lines after the last property under `partitionByNewLine`, or a partition comment. */
  predicate SplitsBefore(env: PropertyEnv, lastProperty: Option<SortingNode>, node: SortingNode) {
    || (env.partitionByNewLine && lastProperty.Some? && env.linesBetween(lastProperty.value, node) > 0)
    || env.hasPartitionComment(node)
  }

  /** One step of the reduce: a spread or rest element opens an empty partition; a property is added, maybe to a new one. */
  function Step(acc: seq<seq<ObjectNode>>, member: ObjectMember, env: PropertyEnv): (r: seq<seq<ObjectNode>>)
    requires acc != []
    ensures r != []
  {
    if !member.Property? then acc + [[]]
    else
      var node := PropertyNode(member, env);
      var current := if SplitsBefore(env, LastProperty(acc), node.node) then acc + [[]] else acc;
      current[..|current| - 1] + [current[|current| - 1] + [node]]
  }

  /** The reduce from a given accumulator. */
  function Fold(acc: seq<seq<ObjectNode>>, members: seq<ObjectMember>, env: PropertyEnv): (r: seq<seq<ObjectNode>>)
    requires acc != []
    ensures r != []
    decreases |members|
  {
    if members == [] then acc else Fold(Step(acc, members[0], env), members[1..], env)
  }

  /** `formatProperties`: the reduce from `[[]]`. */
  function Partitions(members: seq<ObjectMember>, env: PropertyEnv): seq<seq<ObjectNode>> {
    Fold([[]], members, env)
  }

  method FormatProperties(props: seq<ObjectMember>, env: PropertyEnv) returns (accumulator: seq<seq<ObjectNode>>)
    ensures accumulator == Partitions(props, env)
  {
    accumulator := [[]];
    for i := 0 to |props|
      invariant accumulator != []
      invariant Fold(accumulator, props[i..], env) == Partitions(props, env)
    {
      assert props[i..][0] == props[i] && props[i..][1..] == props[i + 1..];
      accumulator := ReduceProperty(accumulator, props[i], env);
    }
  }

  /** The reduce callback for one member. */
  method ReduceProperty(accumulator: seq<seq<ObjectNode>>, property: ObjectMember, env: PropertyEnv) returns (r: seq<seq<ObjectNode>>)
    requires accumulator != []
    ensures r == Step(accumulator, property, env)
  {
    if property.SpreadElement? || property.RestElement? {
      return accumulator + [[]];
    }
    var lastProperty := LastProperty(accumulator);
    var propertySortingNode := FormatProperty(property, env);
    r := accumulator;
    if (env.partitionByNewLine && lastProperty.Some? && env.linesBetween(lastProperty.value, propertySortingNode.node) > 0)
       || env.hasPartitionComment(propertySortingNode.node) {
      r := r + [[]];
    }
    r := r[..|r| - 1] + [r[|r| - 1] + [propertySortingNode]];
  }

  /** The nodes of the properties, in order; spread and rest elements have none. */
  function PropertyNodes(members: seq<ObjectMember>, env: PropertyEnv): seq<ObjectNode>
    decreases |members|
  {
    if members == [] then []
    else (if members[0].Property? then [PropertyNode(members[0], env)] else []) + PropertyNodes(members[1..], env)
  }

  /** A step never changes the partitions before the last one, and never removes one. */
  lemma StepKeepsClosed(acc: seq<seq<ObjectNode>>, member: ObjectMember, env: PropertyEnv)
    requires acc != []
    ensures |Step(acc, member, env)| >= |acc|
    ensures Step(acc, member, env)[..|acc| - 1] == acc[..|acc| - 1]
  {
  }

  /** The reduce never changes a partition once a later one is open. */
  lemma {:induction false} FoldKeepsClosed(acc: seq<seq<ObjectNode>>, members: seq<ObjectMember>, env: PropertyEnv)
    requires acc != []
    ensures |Fold(acc, members, env)| >= |acc|
    ensures Fold(acc, members, env)[..|acc| - 1] == acc[..|acc| - 1]
    decreases |members|
  {
    if members != [] {
      var next := Step(acc, members[0], env);
      StepKeepsClosed(acc, members[0], env);
      FoldKeepsClosed(next, members[1..], env);
      var r := Fold(next, members[1..], env);
      assert r[..|acc| - 1] == r[..|next| - 1][..|acc| - 1];
    }
  }

  /** Reducing two lists of members one after the other. */
  lemma {:induction false} FoldAppend(acc: seq<seq<ObjectNode>>, a: seq<ObjectMember>, b: seq<ObjectMember>, env: PropertyEnv)
    requires acc != []
    ensures Fold(acc, a + b, env) == Fold(Fold(acc, a, env), b, env)
    decreases |a|
  {
    if a == [] {
      assert a + b == b;
    } else {
      assert (a + b)[0] == a[0] && (a + b)[1..] == a[1..] + b;
      FoldAppend(Step(acc, a[0], env), a[1..], b, env);
    }
  }

  /**
   * A spread or rest element closes every partition before it: whatever
   * follows, the partitions built from the members before it stay as they
   * are and no later node joins them.
   */
  lemma SpreadClosesPartitions(before: seq<ObjectMember>, spread: ObjectMember, after: seq<ObjectMember>, env: PropertyEnv)
    requires !spread.Property?
    ensures var closed := Partitions(before, env);
      var all := Partitions(before + [spread] + after, env);
      |all| > |closed| && all[..|closed|] == closed
  {
    var closed := Partitions(before, env);
    FoldAppend([[]], before, [spread] + after, env);
    assert before + [spread] + after == before + ([spread] + after);
    assert ([spread] + after)[1..] == after;
    var reopened := Step(closed, spread, env);
    assert reopened == closed + [[]];
    FoldKeepsClosed(reopened, after, env);
    assert reopened[..|reopened| - 1] == closed;
  }

  /** A step adds the property's node, if any, at the end of the flattened partitions. */
  lemma StepConcat(acc: seq<seq<ObjectNode>>, member: ObjectMember, env: PropertyEnv)
    requires acc != []
    ensures Concat(Step(acc, member, env)) == Concat(acc) + if member.Property? then [PropertyNode(member, env)] else []
  {
    if !member.Property? {
      ConcatSnoc(acc, []);
      assert Concat(acc) + [] == Concat(acc);
    } else {
      var node := PropertyNode(member, env);
      var current := if SplitsBefore(env, LastProperty(acc), node.node) then acc + [[]] else acc;
      assert Concat(current) == Concat(acc) by {
        if current != acc { ConcatSnoc(acc, []); }
      }
      ConcatPushLast(current, node);
    }
  }

  lemma {:induction false} FoldConcat(acc: seq<seq<ObjectNode>>, members: seq<ObjectMember>, env: PropertyEnv)
    requires acc != []
    ensures Concat(Fold(acc, members, env)) == Concat(acc) + PropertyNodes(members, env)
    decreases |members|
  {
    if members != [] {
      var own: seq<ObjectNode> := if members[0].Property? then [PropertyNode(members[0], env)] else [];
      var next := Step(acc, members[0], env);
      var rest := PropertyNodes(members[1..], env);
      StepConcat(acc, members[0], env);
      FoldConcat(next, members[1..], env);
      assert Fold(acc, members, env) == Fold(next, members[1..], env);
      assert PropertyNodes(members, env) == own + rest;
      AppendAssociative(Concat(acc), own, rest);
    }
  }

  lemma AppendAssociative<T>(a: seq<T>, b: seq<T>, c: seq<T>)
    ensures a + b + c == a + (b + c)
  {
  }

  lemma AppendAssociative3<T>(a: seq<T>, b: seq<T>, c: seq<T>, d: seq<T>)
    ensures a + b + c + d == a + (b + c + d)
  {
    AppendAssociative(a, b, c);
    AppendAssociative(a, b + c, d);
  }

  /** `formattedMembers.flat()`: the property nodes in source order, without the spread and rest elements. */
  lemma PartitionsFlatten(members: seq<ObjectMember>, env: PropertyEnv)
    ensures Concat(Partitions(members, env)) == PropertyNodes(members, env)
  {
    FoldConcat([[]], members, env);
    ConcatOne<ObjectNode>([]);
  }

  /** Inside a partition no node has a partition comment or, under `partitionByNewLine`, blank lines after the node before it. */
  ghost predicate NoSplitInside(acc: seq<seq<ObjectNode>>, env: PropertyEnv) {
    forall p, j :: 0 <= p < |acc| && 0 < j < |acc[p]| ==> !SplitsBefore(env, Some(acc[p][j - 1].node), acc[p][j].node)
  }

  lemma StepNoSplit(acc: seq<seq<ObjectNode>>, member: ObjectMember, env: PropertyEnv)
    requires acc != [] && NoSplitInside(acc, env)
    ensures NoSplitInside(Step(acc, member, env), env)
  {
    var r: seq<seq<ObjectNode>> := Step(acc, member, env);
    if member.Property? {
      var node := PropertyNode(member, env);
      var c := if SplitsBefore(env, LastProperty(acc), node.node) then acc + [[]] else acc;
      var k := |c| - 1;
      assert r == c[..k] + [c[k] + [node]];
      forall p: nat, j: nat | p < |r| && 0 < j < |r[p]| ensures !SplitsBefore(env, Some(r[p][j - 1].node), r[p][j].node) {
        if p == k && j == |c[k]| {
          assert c == acc;
          assert LastProperty(acc) == Some(r[p][j - 1].node);
        } else if p == k {
          assert r[p][j - 1] == c[k][j - 1] && r[p][j] == c[k][j];
        } else {
          assert r[p] == c[p];
        }
      }
    } else {
      assert r == acc + [[]];
    }
  }

  lemma {:induction false} FoldNoSplit(acc: seq<seq<ObjectNode>>, members: seq<ObjectMember>, env: PropertyEnv)
    requires acc != [] && NoSplitInside(acc, env)
    ensures NoSplitInside(Fold(acc, members, env), env)
    decreases |members|
  {
    if members != [] {
      StepNoSplit(acc, members[0], env);
      FoldNoSplit(Step(acc, members[0], env), members[1..], env);
    }
  }

  /** No two consecutive nodes of one partition are separated by a partition comment or, under `partitionByNewLine`, by blank lines. */
  lemma PartitionsNoSplitInside(members: seq<ObjectMember>, env: PropertyEnv)
    ensures NoSplitInside(Partitions(members, env), env)
  {
    FoldNoSplit([[]], members, env);
  }

  // ---------------------------------------------------------------------
  // The messages for a pair of consecutive nodes
  // ---------------------------------------------------------------------

  datatype ObjectMessage =
    | MissedSpacingBetweenObjectMembers
    | ExtraSpacingBetweenObjectMembers
    | UnexpectedObjectsDependencyOrder
    | UnexpectedObjectsGroupOrder
    | UnexpectedObjectsOrder

  const ObjectMessageIds := DependencyOrderErrors.DependencyMessageIds(
    MissedSpacingBetweenObjectMembers, ExtraSpacingBetweenObjectMembers,
    UnexpectedObjectsDependencyOrder, UnexpectedObjectsGroupOrder, UnexpectedObjectsOrder)

  /**
   * The `pairwise` callback: only when the pair is out of order is the
   * dependency sort asked for the first unordered node depending on the
   * right one (`firstUnorderedNodeDependentOn`, a parameter); that yields
   * the dependency-order message, otherwise the order or group-order message
   * by group-number equality; the spacing messages follow.
   */
  function PairMessages(sortedNodesExcludingEslintDisabled: seq<SortingNode>, nodeIndexMap: map<SortingNode, nat>,
                        firstUnorderedNodeDependentOn: SortingNode -> Option<SortingNode>, linesBetween: nat,
                        options: SpacingOptions, left: SortingNode, right: SortingNode): seq<ObjectMessage>
    requires left in nodeIndexMap && right in nodeIndexMap
  {
    var leftNumber := GroupNumbers.GroupNumber(options.groups, left.group);
    var rightNumber := GroupNumbers.GroupNumber(options.groups, right.group);
    var leftIndex := nodeIndexMap[left];
    var rightIndex := nodeIndexMap[right];
    var indexOfRightExcludingEslintDisabled := IndexOf(sortedNodesExcludingEslintDisabled, right);
    var messageIds :=
      if leftIndex > rightIndex || leftIndex >= indexOfRightExcludingEslintDisabled then
        if firstUnorderedNodeDependentOn(right).Some? then [UnexpectedObjectsDependencyOrder]
        else [if leftNumber == rightNumber then UnexpectedObjectsOrder else UnexpectedObjectsGroupOrder]
      else [];
    messageIds + NewlinesErrors.GetNewlinesErrors(options, left, right, leftNumber, rightNumber, linesBetween,
                                                  MissedSpacingBetweenObjectMembers, ExtraSpacingBetweenObjectMembers)
  }

  /**
   * An in-order pair gets only spacing messages, whatever depends on it; an
   * out-of-order pair gets exactly one order message first: dependency order
   * when some unordered node depends on the right one, else order or group
   * order as the group numbers are equal or not.
   */
  lemma PairMessagesSpec(sortedNodesExcludingEslintDisabled: seq<SortingNode>, nodeIndexMap: map<SortingNode, nat>,
                         firstUnorderedNodeDependentOn: SortingNode -> Option<SortingNode>, linesBetween: nat,
                         options: SpacingOptions, left: SortingNode, right: SortingNode)
    requires left in nodeIndexMap && right in nodeIndexMap
    ensures var r := PairMessages(sortedNodesExcludingEslintDisabled, nodeIndexMap, firstUnorderedNodeDependentOn,
                                  linesBetween, options, left, right);
      var out := OutOfOrder(nodeIndexMap[left], nodeIndexMap[right], IndexOf(sortedNodesExcludingEslintDisabled, right));
      var sameGroup := GroupNumbers.GroupNumber(options.groups, left.group) == GroupNumbers.GroupNumber(options.groups, right.group);
      && (!out ==> forall m :: m in r ==> m == MissedSpacingBetweenObjectMembers || m == ExtraSpacingBetweenObjectMembers)
      && (out ==> 1 <= |r| <= 2)
      && (out && firstUnorderedNodeDependentOn(right).Some? ==> r[0] == UnexpectedObjectsDependencyOrder)
      && (out && firstUnorderedNodeDependentOn(right).None? && sameGroup ==> r[0] == UnexpectedObjectsOrder)
      && (out && firstUnorderedNodeDependentOn(right).None? && !sameGroup ==> r[0] == UnexpectedObjectsGroupOrder)
      && (forall i :: 1 <= i < |r| ==> r[i] == MissedSpacingBetweenObjectMembers || r[i] == ExtraSpacingBetweenObjectMembers)
  {
  }

  /**
   * The callback is `getOrderWithDependenciesErrors` given the dependent
   * node only for out-of-order pairs: the rule asks the dependency sort only
   * then, where the shared helper lets a dependent node win outright.
   */
  lemma PairMessagesAreDependencyErrors(sortedNodesExcludingEslintDisabled: seq<SortingNode>, nodeIndexMap: map<SortingNode, nat>,
                                        firstUnorderedNodeDependentOn: SortingNode -> Option<SortingNode>, linesBetween: nat,
                                        options: SpacingOptions, left: SortingNode, right: SortingNode)
    requires left in nodeIndexMap && right in nodeIndexMap
    ensures var out := OutOfOrder(nodeIndexMap[left], nodeIndexMap[right], IndexOf(sortedNodesExcludingEslintDisabled, right));
      PairMessages(sortedNodesExcludingEslintDisabled, nodeIndexMap, firstUnorderedNodeDependentOn, linesBetween, options, left, right)
      == DependencyOrderErrors.GetOrderWithDependenciesErrors(sortedNodesExcludingEslintDisabled,
           if out then firstUnorderedNodeDependentOn(right) else None,
           ObjectMessageIds, nodeIndexMap, linesBetween, options, left, right)
  {
  }
}
