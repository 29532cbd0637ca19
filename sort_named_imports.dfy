/**
 * The named-imports rule (sort-named-imports.ts): the import specifiers become
 * sorting nodes named by their local or imported name and tagged `value` or
 * `type`; they are split into partitions; each partition is split into
 * group-kind buckets, which are sorted independently and concatenated.
 */
module NamedImports {
  import opened Common
  import opened Sorting

  datatype ImportKind = TypeImport | ValueImport

  /** The imported name of a specifier: an identifier or a string literal. */
  datatype ModuleExportName = Identifier(name: string) | StringLiteral(value: string)

  /**
   * An entry of `node.specifiers`, with what the rule computes for it (its
   * size and whether it is eslint-disabled) and an identity.
   */
  datatype Specifier =
    | ImportSpecifier(id: nat, local: string, imported: ModuleExportName, importKind: ImportKind, size: nat, isEslintDisabled: bool)
    | ImportDefaultSpecifier(id: nat, local: string)
    | ImportNamespaceSpecifier(id: nat, local: string)

  datatype GroupKind = ValueKind | TypeKind

  /** The `groupKind` option. */
  datatype GroupKindOption = ValuesFirst | TypesFirst | Mixed

  /** An entry of `groupKindOrder`: one kind, or `'any'`. */
  datatype BucketKind = Only(kind: GroupKind) | AnyKind

  /** A sorting node of this rule: the shared fields plus `groupKind`. */
  datatype NamedImportNode = NamedImportNode(id: nat, name: string, size: nat, isEslintDisabled: bool, groupKind: GroupKind)

  /** `shouldPartition`: the last node so far (if any) and the new node. */
  type PartitionTest = (Option<NamedImportNode>, NamedImportNode) -> bool

  /** `sortNodes` for a list of nodes and the `ignoreEslintDisabledNodes` flag. */
  type NodeSorter = (seq<NamedImportNode>, bool) -> seq<NamedImportNode>

  /** `node.specifiers.filter(({ type }) => type === 'ImportSpecifier')`. */
  function ImportSpecifiers(specifiers: seq<Specifier>): (r: seq<Specifier>)
    ensures forall i :: 0 <= i < |r| ==> r[i].ImportSpecifier?
  {
    if specifiers == [] then []
    else (if specifiers[0].ImportSpecifier? then [specifiers[0]] else []) + ImportSpecifiers(specifiers[1..])
  }

  /** The node's name: the local name, or with `ignoreAlias` the imported identifier's name or string's value. */
  function SpecifierName(s: Specifier, ignoreAlias: bool): string {
    if s.ImportSpecifier? && ignoreAlias then
      match s.imported
      case Identifier(name) => name
      case StringLiteral(value) => value
    else s.local
  }

  /** The sorting node of an import specifier. */
  function SpecifierNode(s: Specifier, ignoreAlias: bool): (n: NamedImportNode)
    requires s.ImportSpecifier?
  {
    NamedImportNode(s.id, SpecifierName(s, ignoreAlias), s.size, s.isEslintDisabled,
                    if s.ImportSpecifier? && s.importKind == TypeImport then TypeKind else ValueKind)
  }

  /** `groupKind` is `type` exactly for type imports; the name follows `ignoreAlias`. */
  lemma SpecifierNodeSpec(s: Specifier, ignoreAlias: bool)
    requires s.ImportSpecifier?
    ensures SpecifierNode(s, ignoreAlias).groupKind == TypeKind <==> s.importKind == TypeImport
    ensures !ignoreAlias ==> SpecifierNode(s, ignoreAlias).name == s.local
    ensures ignoreAlias && s.imported.Identifier? ==> SpecifierNode(s, ignoreAlias).name == s.imported.name
    ensures ignoreAlias && s.imported.StringLiteral? ==> SpecifierNode(s, ignoreAlias).name == s.imported.value
    ensures SpecifierNode(s, ignoreAlias).id == s.id && SpecifierNode(s, ignoreAlias).isEslintDisabled == s.isEslintDisabled
  {
  }

  /** The nodes of a list of import specifiers, in order. */
  function SpecifierNodes(specifiers: seq<Specifier>, ignoreAlias: bool): (r: seq<NamedImportNode>)
    requires forall i :: 0 <= i < |specifiers| ==> specifiers[i].ImportSpecifier?
    ensures |r| == |specifiers|
    ensures forall i :: 0 <= i < |r| ==> r[i] == SpecifierNode(specifiers[i], ignoreAlias)
  {
    seq(|specifiers|, i requires 0 <= i < |specifiers| => SpecifierNode(specifiers[i], ignoreAlias))
  }

  /** `formattedMembers.at(-1)?.at(-1)`. */
  function LastNode(acc: seq<seq<NamedImportNode>>): Option<NamedImportNode> {
    if acc == [] || acc[|acc| - 1] == [] then None else Some(acc[|acc| - 1][|acc[|acc| - 1]| - 1])
  }

  /** One iteration: open a new partition when `shouldPartition` says so, then add the node to the last one. */
  function Step(acc: seq<seq<NamedImportNode>>, n: NamedImportNode, shouldPartition: PartitionTest): (r: seq<seq<NamedImportNode>>)
    requires acc != []
    ensures r != []
  {
    var current := if shouldPartition(LastNode(acc), n) then acc + [[]] else acc;
    current[..|current| - 1] + [current[|current| - 1] + [n]]
  }

  /** The partitions the loop builds from `[[]]`. */
  function Partitions(nodes: seq<NamedImportNode>, shouldPartition: PartitionTest): (r: seq<seq<NamedImportNode>>)
    ensures r != []
  {
    if nodes == [] then [[]]
    else Step(Partitions(nodes[..|nodes| - 1], shouldPartition), nodes[|nodes| - 1], shouldPartition)
  }

  /** The loop over the import specifiers that fills `formattedMembers`. */
  method FormatMembers(specifiers: seq<Specifier>, ignoreAlias: bool, shouldPartition: PartitionTest)
    returns (formattedMembers: seq<seq<NamedImportNode>>)
    requires forall i :: 0 <= i < |specifiers| ==> specifiers[i].ImportSpecifier?
    ensures formattedMembers == Partitions(SpecifierNodes(specifiers, ignoreAlias), shouldPartition)
  {
    ghost var nodes := SpecifierNodes(specifiers, ignoreAlias);
    formattedMembers := [[]];
    var i := 0;
    while i < |specifiers|
      invariant 0 <= i <= |specifiers|
      invariant formattedMembers == Partitions(nodes[..i], shouldPartition)
    {
      var sortingNode := SortingNodeOf(specifiers[i], ignoreAlias);
      assert sortingNode == nodes[i];
      PartitionsTake(nodes, i, shouldPartition);
      formattedMembers := PushNode(formattedMembers, sortingNode, shouldPartition);
      i := i + 1;
    }
    assert nodes[..i] == nodes;
  }

  /** The loop body's node: the name follows `ignoreAlias`, the kind the import kind. */
  method SortingNodeOf(specifier: Specifier, ignoreAlias: bool) returns (sortingNode: NamedImportNode)
    requires specifier.ImportSpecifier?
    ensures sortingNode == SpecifierNode(specifier, ignoreAlias)
  {
    var name := specifier.local;
    if specifier.ImportSpecifier? && ignoreAlias {
      if specifier.imported.Identifier? {
        name := specifier.imported.name;
      } else {
        name := specifier.imported.value;
      }
    }
    sortingNode := NamedImportNode(specifier.id, name, specifier.size, specifier.isEslintDisabled,
                                   if specifier.ImportSpecifier? && specifier.importKind == TypeImport then TypeKind else ValueKind);
  }

  /** The loop body's update: open a partition when told to, then add the node to the last one. */
  method PushNode(formattedMembers: seq<seq<NamedImportNode>>, sortingNode: NamedImportNode, shouldPartition: PartitionTest)
    returns (r: seq<seq<NamedImportNode>>)
    requires formattedMembers != []
    ensures r == Step(formattedMembers, sortingNode, shouldPartition)
  {
    var lastSortingNode := LastNode(formattedMembers);
    r := formattedMembers;
    if shouldPartition(lastSortingNode, sortingNode) {
      r := r + [[]];
    }
    r := r[..|r| - 1] + [r[|r| - 1] + [sortingNode]];
  }

  lemma PartitionsTake(nodes: seq<NamedImportNode>, i: nat, shouldPartition: PartitionTest)
    requires i < |nodes|
    ensures Partitions(nodes[..i + 1], shouldPartition) == Step(Partitions(nodes[..i], shouldPartition), nodes[i], shouldPartition)
  {
    assert nodes[..i + 1][..i] == nodes[..i];
  }

  /** The last element of a list, if any. */
  function LastOf(s: seq<NamedImportNode>): Option<NamedImportNode> {
    if s == [] then None else Some(s[|s| - 1])
  }

  /** Inside a partition `shouldPartition` never holds between consecutive nodes. */
  ghost predicate NoSplitInside(acc: seq<seq<NamedImportNode>>, shouldPartition: PartitionTest) {
    forall p, j :: 0 <= p < |acc| && 0 < j < |acc[p]| ==> !shouldPartition(Some(acc[p][j - 1]), acc[p][j])
  }

  /**
   * Every partition after the first is non-empty and starts with a node for
   * which `shouldPartition` holds against the node before it.
   */
  ghost predicate SplitAtStarts(acc: seq<seq<NamedImportNode>>, shouldPartition: PartitionTest) {
    forall p :: 0 < p < |acc| ==> acc[p] != [] && shouldPartition(LastOf(Concat(acc[..p])), acc[p][0])
  }

  /** When every partition after the first is non-empty, the last node so far is the last of the concatenation. */
  lemma LastNodeIsLastOfConcat(acc: seq<seq<NamedImportNode>>)
    requires acc != []
    requires forall p :: 0 < p < |acc| ==> |acc[p]| > 0
    ensures LastNode(acc) == LastOf(Concat(acc))
  {
    var k := |acc| - 1;
    var init, last := acc[..k], acc[k];
    assert acc == init + [last];
    ConcatSnoc(init, last);
    LastOfAppend(Concat(init), last);
    if last == [] {
      assert k == 0;
      assert init == [];
    }
  }

  lemma LastOfAppend(c: seq<NamedImportNode>, last: seq<NamedImportNode>)
    ensures LastOf(c + last) == if last == [] then LastOf(c) else LastOf(last)
  {
    if last == [] {
      assert c + last == c;
    }
  }

  lemma StepConcat(acc: seq<seq<NamedImportNode>>, n: NamedImportNode, shouldPartition: PartitionTest)
    requires acc != []
    ensures Concat(Step(acc, n, shouldPartition)) == Concat(acc) + [n]
  {
    var current := if shouldPartition(LastNode(acc), n) then acc + [[]] else acc;
    assert Concat(current) == Concat(acc) by {
      if shouldPartition(LastNode(acc), n) { ConcatSnoc(acc, []); }
    }
    ConcatPushLast(current, n);
  }

  lemma StepNoSplit(acc: seq<seq<NamedImportNode>>, n: NamedImportNode, shouldPartition: PartitionTest)
    requires acc != [] && NoSplitInside(acc, shouldPartition)
    ensures NoSplitInside(Step(acc, n, shouldPartition), shouldPartition)
  {
    var c := if shouldPartition(LastNode(acc), n) then acc + [[]] else acc;
    var r: seq<seq<NamedImportNode>> := Step(acc, n, shouldPartition);
    var k := |c| - 1;
    forall p: nat, j: nat | p < |r| && 0 < j < |r[p]| ensures !shouldPartition(Some(r[p][j - 1]), r[p][j]) {
      if p == k && j == |c[k]| {
        assert c == acc;
        assert LastNode(acc) == Some(r[p][j - 1]);
      }
    }
  }

  lemma StepSplitAtStarts(acc: seq<seq<NamedImportNode>>, n: NamedImportNode, shouldPartition: PartitionTest)
    requires acc != [] && SplitAtStarts(acc, shouldPartition)
    ensures SplitAtStarts(Step(acc, n, shouldPartition), shouldPartition)
  {
    var r: seq<seq<NamedImportNode>> := Step(acc, n, shouldPartition);
    var k := |acc| - 1;
    if shouldPartition(LastNode(acc), n) {
      var c := acc + [[]];
      assert c[..|c| - 1] == acc && c[|c| - 1] == [];
      assert c[|c| - 1] + [n] == [n];
      assert r == c[..|c| - 1] + [c[|c| - 1] + [n]];
      assert r == acc + [[n]];
      LastNodeIsLastOfConcat(acc);
      forall p | 0 < p < |r| ensures r[p] != [] && shouldPartition(LastOf(Concat(r[..p])), r[p][0]) {
        if p < |acc| {
          assert r[..p] == acc[..p];
        } else {
          assert r[..p] == acc;
        }
      }
    } else {
      assert r == acc[..k] + [acc[k] + [n]];
      forall p | 0 < p < |r| ensures r[p] != [] && shouldPartition(LastOf(Concat(r[..p])), r[p][0]) {
        assert r[..p] == acc[..p];
        if p == k {
          assert r[p][0] == acc[k][0];
        }
      }
    }
  }

  /** The partitions, flattened, are the nodes in order. */
  lemma {:induction false} PartitionsConcat(nodes: seq<NamedImportNode>, shouldPartition: PartitionTest)
    ensures Concat(Partitions(nodes, shouldPartition)) == nodes
  {
    if nodes == [] {
      var none: seq<seq<NamedImportNode>> := [];
      ConcatSnoc(none, []);
      assert none + [[]] == Partitions(nodes, shouldPartition);
    } else {
      var init := nodes[..|nodes| - 1];
      PartitionsConcat(init, shouldPartition);
      StepConcat(Partitions(init, shouldPartition), nodes[|nodes| - 1], shouldPartition);
      assert init + [nodes[|nodes| - 1]] == nodes;
    }
  }

  /**
   * Inside a partition `shouldPartition` never holds between consecutive
   * nodes, and every later partition starts exactly at a node for which it
   * holds against the previous node.
   */
  lemma {:induction false} PartitionsSplitWhereTold(nodes: seq<NamedImportNode>, shouldPartition: PartitionTest)
    ensures NoSplitInside(Partitions(nodes, shouldPartition), shouldPartition)
    ensures SplitAtStarts(Partitions(nodes, shouldPartition), shouldPartition)
  {
    if nodes != [] {
      var init := nodes[..|nodes| - 1];
      PartitionsSplitWhereTold(init, shouldPartition);
      StepNoSplit(Partitions(init, shouldPartition), nodes[|nodes| - 1], shouldPartition);
      StepSplitAtStarts(Partitions(init, shouldPartition), nodes[|nodes| - 1], shouldPartition);
    }
  }

  /** `groupKindOrder`. */
  function GroupKindOrder(option: GroupKindOption): seq<BucketKind> {
    match option
    case ValuesFirst => [Only(ValueKind), Only(TypeKind)]
    case TypesFirst => [Only(TypeKind), Only(ValueKind)]
    case Mixed => [AnyKind]
  }

  predicate Accepts(k: BucketKind, n: NamedImportNode) {
    k.AnyKind? || n.groupKind == k.kind
  }

  /** `nodes.filter(...)` for one entry of `groupKindOrder`. */
  function Bucket(nodes: seq<NamedImportNode>, k: BucketKind): seq<NamedImportNode> {
    if nodes == [] then []
    else (if Accepts(k, nodes[0]) then [nodes[0]] else []) + Bucket(nodes[1..], k)
  }

  /** A bucket holds nodes of the partition that its kind accepts. */
  lemma {:induction false} BucketMembers(nodes: seq<NamedImportNode>, k: BucketKind)
    ensures forall x :: x in Bucket(nodes, k) ==> x in nodes && Accepts(k, x)
  {
    if nodes != [] {
      BucketMembers(nodes[1..], k);
    }
  }

  /** `filteredGroupKindNodes`. */
  function Buckets(nodes: seq<NamedImportNode>, option: GroupKindOption): (r: seq<seq<NamedImportNode>>)
    ensures |r| == |GroupKindOrder(option)|
  {
    var order := GroupKindOrder(option);
    seq(|order|, i requires 0 <= i < |order| => Bucket(nodes, order[i]))
  }

  /** `sortNodesExcludingEslintDisabled`: each bucket sorted on its own, then concatenated. */
  function SortedNodes(nodes: seq<NamedImportNode>, option: GroupKindOption, sortNodes: NodeSorter, ignoreEslintDisabledNodes: bool): seq<NamedImportNode> {
    var buckets := Buckets(nodes, option);
    Concat(seq(|buckets|, i requires 0 <= i < |buckets| => sortNodes(buckets[i], ignoreEslintDisabledNodes)))
  }

  /** `sortNodes` returns a permutation of its input. */
  ghost predicate Permutes(sortNodes: NodeSorter) {
    forall s, b :: multiset(sortNodes(s, b)) == multiset(s)
  }

  /** `sortNodes` returns only nodes of its input. */
  ghost predicate KeepsMembers(sortNodes: NodeSorter) {
    forall s, b, x :: x in sortNodes(s, b) ==> x in s
  }

  lemma {:induction false} BucketIsSubsequence(nodes: seq<NamedImportNode>, k: BucketKind)
    ensures Subsequence(Bucket(nodes, k), nodes)
  {
    if nodes != [] {
      BucketIsSubsequence(nodes[1..], k);
      if !Accepts(k, nodes[0]) {
        var b := Bucket(nodes[1..], k);
        if b != [] {
          assert Bucket(nodes, k) == b;
        }
      }
    }
  }

  /** The value and type buckets share out the nodes: their multisets add up to the partition's. */
  lemma {:induction false} BucketsShareOut(nodes: seq<NamedImportNode>)
    ensures multiset(Bucket(nodes, Only(ValueKind))) + multiset(Bucket(nodes, Only(TypeKind))) == multiset(nodes)
  {
    if nodes != [] {
      var x, tail := nodes[0], nodes[1..];
      BucketsShareOut(tail);
      assert nodes == [x] + tail;
      var values, types := Bucket(tail, Only(ValueKind)), Bucket(tail, Only(TypeKind));
      if x.groupKind == ValueKind {
        assert Bucket(nodes, Only(ValueKind)) == [x] + values;
        assert Bucket(nodes, Only(TypeKind)) == types;
        MultisetConsFirst(x, tail, values, types);
      } else {
        assert Bucket(nodes, Only(ValueKind)) == values;
        assert Bucket(nodes, Only(TypeKind)) == [x] + types;
        MultisetConsSecond(x, tail, values, types);
      }
    }
  }

  lemma {:induction false} AnyBucketIsAll(nodes: seq<NamedImportNode>)
    ensures Bucket(nodes, AnyKind) == nodes
  {
    if nodes != [] {
      AnyBucketIsAll(nodes[1..]);
      assert nodes == [nodes[0]] + nodes[1..];
    }
  }

  /** The two-bucket orders sort the first bucket, then the second. */
  lemma SortedNodesShape(nodes: seq<NamedImportNode>, option: GroupKindOption, sortNodes: NodeSorter, ignoreEslintDisabledNodes: bool)
    ensures option == ValuesFirst ==>
      SortedNodes(nodes, option, sortNodes, ignoreEslintDisabledNodes)
      == sortNodes(Bucket(nodes, Only(ValueKind)), ignoreEslintDisabledNodes) + sortNodes(Bucket(nodes, Only(TypeKind)), ignoreEslintDisabledNodes)
    ensures option == TypesFirst ==>
      SortedNodes(nodes, option, sortNodes, ignoreEslintDisabledNodes)
      == sortNodes(Bucket(nodes, Only(TypeKind)), ignoreEslintDisabledNodes) + sortNodes(Bucket(nodes, Only(ValueKind)), ignoreEslintDisabledNodes)
    ensures option == Mixed ==> SortedNodes(nodes, option, sortNodes, ignoreEslintDisabledNodes) == sortNodes(nodes, ignoreEslintDisabledNodes)
  {
    var buckets := Buckets(nodes, option);
    var sorted := seq(|buckets|, i requires 0 <= i < |buckets| => sortNodes(buckets[i], ignoreEslintDisabledNodes));
    match option
    case ValuesFirst =>
      assert sorted == [sortNodes(Bucket(nodes, Only(ValueKind)), ignoreEslintDisabledNodes), sortNodes(Bucket(nodes, Only(TypeKind)), ignoreEslintDisabledNodes)];
      ConcatTwo(sorted[0], sorted[1]);
    case TypesFirst =>
      assert sorted == [sortNodes(Bucket(nodes, Only(TypeKind)), ignoreEslintDisabledNodes), sortNodes(Bucket(nodes, Only(ValueKind)), ignoreEslintDisabledNodes)];
      ConcatTwo(sorted[0], sorted[1]);
    case Mixed =>
      AnyBucketIsAll(nodes);
      assert sorted == [sortNodes(nodes, ignoreEslintDisabledNodes)];
      ConcatOne(sorted[0]);
  }

  /** Each bucket keeps the input order. */
  lemma BucketsKeepOrder(nodes: seq<NamedImportNode>, option: GroupKindOption)
    ensures forall i :: 0 <= i < |Buckets(nodes, option)| ==> Subsequence(Buckets(nodes, option)[i], nodes)
  {
    var buckets := Buckets(nodes, option);
    forall i | 0 <= i < |buckets| ensures Subsequence(buckets[i], nodes) {
      BucketIsSubsequence(nodes, GroupKindOrder(option)[i]);
    }
  }

  /** The buckets of each order, spelled out. */
  lemma BucketsShape(nodes: seq<NamedImportNode>, option: GroupKindOption)
    ensures option == ValuesFirst ==> Concat(Buckets(nodes, option)) == Bucket(nodes, Only(ValueKind)) + Bucket(nodes, Only(TypeKind))
    ensures option == TypesFirst ==> Concat(Buckets(nodes, option)) == Bucket(nodes, Only(TypeKind)) + Bucket(nodes, Only(ValueKind))
    ensures option == Mixed ==> Concat(Buckets(nodes, option)) == nodes
  {
    var buckets := Buckets(nodes, option);
    match option
    case ValuesFirst =>
      assert buckets == [Bucket(nodes, Only(ValueKind)), Bucket(nodes, Only(TypeKind))];
      ConcatTwo(buckets[0], buckets[1]);
    case TypesFirst =>
      assert buckets == [Bucket(nodes, Only(TypeKind)), Bucket(nodes, Only(ValueKind))];
      ConcatTwo(buckets[0], buckets[1]);
    case Mixed =>
      AnyBucketIsAll(nodes);
      assert buckets == [nodes];
      ConcatOne(buckets[0]);
  }

  /** Every node of the partition lands in exactly one bucket. */
  lemma BucketsShareAll(nodes: seq<NamedImportNode>, option: GroupKindOption)
    ensures multiset(Concat(Buckets(nodes, option))) == multiset(nodes)
  {
    BucketsShape(nodes, option);
    BucketsShareOut(nodes);
  }

  /** When `sortNodes` permutes its input, the sorted partition is a permutation of the partition. */
  lemma SortedNodesIsPermutation(nodes: seq<NamedImportNode>, option: GroupKindOption, sortNodes: NodeSorter, ignoreEslintDisabledNodes: bool)
    requires Permutes(sortNodes)
    ensures multiset(SortedNodes(nodes, option, sortNodes, ignoreEslintDisabledNodes)) == multiset(nodes)
  {
    SortedNodesShape(nodes, option, sortNodes, ignoreEslintDisabledNodes);
    BucketsShareOut(nodes);
  }

  /**
   * Under `values-first` no type specifier precedes a value specifier, and
   * under `types-first` no value specifier precedes a type specifier, as long
   * as `sortNodes` returns only nodes it was given.
   */
  lemma KindsStayApart(nodes: seq<NamedImportNode>, option: GroupKindOption, sortNodes: NodeSorter, ignoreEslintDisabledNodes: bool)
    requires KeepsMembers(sortNodes)
    ensures var r := SortedNodes(nodes, option, sortNodes, ignoreEslintDisabledNodes);
      && (option == ValuesFirst ==> forall i, j :: 0 <= i < j < |r| ==> !(r[i].groupKind == TypeKind && r[j].groupKind == ValueKind))
      && (option == TypesFirst ==> forall i, j :: 0 <= i < j < |r| ==> !(r[i].groupKind == ValueKind && r[j].groupKind == TypeKind))
  {
    SortedNodesShape(nodes, option, sortNodes, ignoreEslintDisabledNodes);
    if option != Mixed {
      var first := if option == ValuesFirst then ValueKind else TypeKind;
      var second := if option == ValuesFirst then TypeKind else ValueKind;
      var a := sortNodes(Bucket(nodes, Only(first)), ignoreEslintDisabledNodes);
      var b := sortNodes(Bucket(nodes, Only(second)), ignoreEslintDisabledNodes);
      var r := a + b;
      assert r == SortedNodes(nodes, option, sortNodes, ignoreEslintDisabledNodes);
      BucketMembers(nodes, Only(first));
      BucketMembers(nodes, Only(second));
      forall i, j | 0 <= i < j < |r| ensures !(r[i].groupKind == second && r[j].groupKind == first) {
        if i < |a| {
          assert r[i] == a[i] && a[i] in a;
          assert r[i] in Bucket(nodes, Only(first));
        } else {
          assert r[i] == b[i - |a|] && b[i - |a|] in b;
          assert r[j] == b[j - |a|] && b[j - |a|] in b;
          assert r[i] in Bucket(nodes, Only(second)) && r[j] in Bucket(nodes, Only(second));
        }
      }
    }
  }

  /** What the rule hands to the error report for one partition. */
  datatype PartitionReport = PartitionReport(nodes: seq<NamedImportNode>, sortedNodes: seq<NamedImportNode>, sortedNodesExcludingEslintDisabled: seq<NamedImportNode>)

  function Report(nodes: seq<NamedImportNode>, option: GroupKindOption, sortNodes: NodeSorter): PartitionReport {
    PartitionReport(nodes, SortedNodes(nodes, option, sortNodes, false), SortedNodes(nodes, option, sortNodes, true))
  }

  /**
   * The listener for an import declaration, up to the reports: nothing
   * unless the import specifiers are sortable; otherwise one report per
   * partition. `isSortable` is a parameter.
   */
  method SortNamedImports(specifierList: seq<Specifier>, isSortable: seq<Specifier> -> bool, ignoreAlias: bool,
                          groupKind: GroupKindOption, shouldPartition: PartitionTest, sortNodes: NodeSorter)
    returns (r: Option<seq<PartitionReport>>)
    ensures r.None? <==> !isSortable(ImportSpecifiers(specifierList))
    ensures r.Some? ==>
      var partitions := Partitions(SpecifierNodes(ImportSpecifiers(specifierList), ignoreAlias), shouldPartition);
      && |r.value| == |partitions|
      && forall p :: 0 <= p < |partitions| ==> r.value[p] == Report(partitions[p], groupKind, sortNodes)
  {
    var specifiers := ImportSpecifiers(specifierList);
    if !isSortable(specifiers) {
      return None;
    }
    var formattedMembers := FormatMembers(specifiers, ignoreAlias, shouldPartition);
    var reports := ReportPartitions(formattedMembers, groupKind, sortNodes);
    return Some(reports);
  }

  /** The loop over the partitions: each one's nodes with its two sorted orders. */
  method ReportPartitions(formattedMembers: seq<seq<NamedImportNode>>, groupKind: GroupKindOption, sortNodes: NodeSorter)
    returns (reports: seq<PartitionReport>)
    ensures |reports| == |formattedMembers|
    ensures forall q :: 0 <= q < |formattedMembers| ==> reports[q] == Report(formattedMembers[q], groupKind, sortNodes)
  {
    reports := [];
    var p := 0;
    while p < |formattedMembers|
      invariant 0 <= p <= |formattedMembers|
      invariant |reports| == p
      invariant forall q :: 0 <= q < p ==> reports[q] == Report(formattedMembers[q], groupKind, sortNodes)
    {
      var nodes := formattedMembers[p];
      reports := reports + [PartitionReport(nodes, SortedNodes(nodes, groupKind, sortNodes, false), SortedNodes(nodes, groupKind, sortNodes, true))];
      p := p + 1;
    }
  }
}
