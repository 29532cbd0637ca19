# eslint-plugin-perfectionist: the ordering and grouping engine, in Dafny

This project models the core of eslint-plugin-perfectionist, an ESLint plugin
that reports and fixes the order of imports, object keys, class members, array
elements and other lists. At its centre is an engine that works on *sorting
nodes*. A sorting node is a record with a name, a size, an `isEslintDisabled`
flag, a group and an identity.

The engine has these parts:

- **Group numbers.** It ranks each node's group among the `groups` option.
- **Grouped sort.** It splits the nodes into ignored and non-ignored. It buckets
  the non-ignored nodes by group number, sorts each bucket (or leaves it as it is
  when its options are null), concatenates the buckets, and splices the ignored
  nodes back where they were.
- **Classification.** It parses predefined group names into a selector and
  modifiers and orders them. An element gets the first custom group that
  accepts it, else the first predefined group it matches, else `unknown`.
- **Validation.** It checks the configured group names.
- **Pairwise decisions.** For each pair of neighbouring nodes it decides the
  order, group-order, dependency-order and spacing messages.
- **Moved range.** It computes the source range a node occupies when it moves.

The model also covers what each rule feeds into the engine: the
array-includes, objects, class-members and named-imports rules. These are how
elements are named and grouped and how they are split into partitions. So are
the small helpers: import-path selectors, union member names, the nearest
typed ancestor and the choice of a context configuration.

There is one module per source file. `Common`, `Strings` and `Sorting` hold
shared values and sequence helpers. The source's collaborators that are not
part of this model are parameters of the functions that call them:

- the comparator behind `sortNodes`, as a total preorder used by a stable sort;
- regular-expression matching and `doesCustomGroupMatch`;
- comment lookup and `isPartitionComment`;
- the blank-line count, `shouldPartition` and `isSortable`;
- the `useGroups` group state;
- dependency sorting;
- the predefined-groups generator.

The source's loops and step-by-step state changes are methods with loop
invariants. Each is proved against a function that specifies it, and the
lemmas state the properties the source promises about that function:

- permutation, stability and the pinning of ignored nodes;
- the first-match rules;
- which pairs are reported and which message each gets;
- that the class fix is sorted and is then no longer reported;
- partition boundaries.

`GroupMatching.GroupMatcher` is a class, because the source's `GroupMatcher`
assigns its fields in its constructor.

## Model

| member | source | states |
|---|---|---|
| GroupNumbers.GroupNumberIsFirstMatch | utils/get-group-number.ts:12-25 | the rank is at most the number of slots; when it is below that, its slot is the group's name or a list holding it, and no earlier slot accepts the group |
| GroupNumbers.GetGroupNumber | utils/get-group-number.ts:8-26 | the index loop with early return yields the first accepting slot, and yields the number of slots exactly when no slot accepts the group; it agrees with the recursive rank |
| GroupNumbers.RankIsFirstMatch | utils/get-group-number.ts:12-25 | the rank is unique: any position with the first-match property (or the end when nothing matches) is the rank |
| GroupNumbers.MarkerNeverMatches | utils/get-group-number.ts:3-19 | a `{ newlinesBetween }` marker slot occupies an index but is never the slot a group ranks at |
| GroupNumbers.SameListSlotSameNumber | utils/get-group-number.ts:17-21 | two groups held by the same list slot, neither accepted earlier, both rank at that slot |
| NodeIndexMap.ElementsSize | utils/create-node-index-map.ts:6-10 | a list has at most as many distinct nodes as entries, and exactly as many when its nodes are distinct |
| NodeIndexMap.CreateNodeIndexMap | utils/create-node-index-map.ts:3-11 | the map's keys are exactly the listed nodes; each maps to a position holding it and to its last occurrence; distinct nodes map to their own index; the size is at most the length, equal to it for distinct nodes |
| NewlinesBetween.GlobalNewlinesBetween | utils/get-newlines-between-option.ts:77-93 | `ignore` and `never` pass through; `always` becomes `never` between nodes of equal rank and stays `always` otherwise (each answer characterised both ways) |
| NewlinesBetween.FindCustomGroup | utils/get-newlines-between-option.ts:59-64 | a found custom group is in the list and carries the slot's name; nothing is found exactly when the slot has no plain name or no custom group carries it |
| NewlinesBetween.NewlinesBetweenOptionSpec | utils/get-newlines-between-option.ts:35-75 | the global policy is returned without array-form custom groups, when either slot is a list, and whenever the two nodes do not share a custom group; when they do, that group's `newlinesInside` wins over any global setting, falling back to the global policy when unset |
| NewlinesBetween.SameRankNeverAlwaysUnlessInside | utils/get-newlines-between-option.ts:59-92 | two nodes of equal rank get `always` only when they share a custom group whose `newlinesInside` is `always` |
| NewlinesErrors.GetNewlinesErrors | utils/get-newlines-errors.ts:47-63 | at most one spacing error is returned |
| NewlinesErrors.NewlinesErrorsSpec | utils/get-newlines-errors.ts:32-64 | nothing is reported when the left rank exceeds the right; otherwise there is an error exactly when the resolved policy for (left, right) rejects the blank-line count (`ignore` accepts any, `never` only 0, `always` only 1); a missed-spacing error means `always` with 0 lines, an extra-spacing error `never` with some lines or `always` with more than 1 |
| OrderErrors.IndexOf | utils/get-order-errors.ts:45-46 | `indexOf`: the first position of the node, or -1 exactly when it is absent |
| OrderErrors.GetOrderErrorsSpec | utils/get-order-errors.ts:30-85 | an order error comes first exactly when the left index exceeds the right one or is at least the right node's index in the list without eslint-disabled nodes; it is `unexpectedOrder` for equal ranks and `unexpectedGroupOrder` otherwise; the spacing errors follow, none when the policy or a spacing message id is missing, and there are at most one of them |
| OrderErrors.MissingRightIsOutOfOrder | utils/get-order-errors.ts:45-58 | a right node absent from the list without eslint-disabled nodes (index -1) always draws an order error |
| DependencyOrderErrors.GetOrderWithDependenciesErrorsSpec | utils/get-order-with-dependencies-errors.ts:38-85 | a node depending on the right one yields `unexpectedDependencyOrder` whatever the indices; otherwise the order or group-order error follows the index rule of `getOrderErrors`, chosen by rank equality; at most one of them is reported and the spacing errors always follow |
| DependencyOrderErrors.NoDependencyIsOrderErrors | utils/get-order-with-dependencies-errors.ts:57-85 | without a dependent node the result equals `getOrderErrors` for the same policy and spacing message ids |
| ParentWithType.GetFirstNodeParentWithType | rules/sort-objects/get-first-node-parent-with-type.ts:19-37 | the walk from the immediate parent returns the nearest ancestor whose type is allowed, with no allowed type below it, and returns nothing exactly when no ancestor's type is allowed; it agrees with the functional search |
| ParentWithType.FirstParentIs | rules/sort-objects/get-first-node-parent-with-type.ts:28-36 | the nearest-allowed position is unique: any position with that property (or the root's end) is the answer |
| ParentWithType.NoAllowedTypesFindsNothing | rules/sort-objects/get-first-node-parent-with-type.ts:29-36 | with an empty list of allowed types nothing is found |
| UnionNodeName.LeadingWhitespace | rules/sort-union-types/compute-node-name.ts:34 | the `\s*` prefix: every character before the count is whitespace and the one at it is not |
| UnionNodeName.StripLeadingSeparatorSpec | rules/sort-union-types/compute-node-name.ts:34 | the result is a suffix of the text; text whose first non-blank character is not `&` or `\|` is unchanged; otherwise the result is shorter, does not start with whitespace, and only whitespace around that one separator was dropped |
| UnionNodeName.ComputeNodeNameSpec | rules/sort-union-types/compute-node-name.ts:19-35 | other types keep their source text; unions and intersections have the leading separator stripped; the name is always a suffix of the text |
| ContextOptions.NodeNames | rules/sort-array-includes/compute-matched-context-options.ts:28-32 | there are no more names than elements |
| ContextOptions.NodeNamesSkipNull | rules/sort-array-includes/compute-matched-context-options.ts:28-32 | the names are exactly those of the present elements; an all-null list has no names |
| ContextOptions.ComputeMatchedContextOptionsIsFirstPassing | rules/sort-array-includes/compute-matched-context-options.ts:19-47 | a chosen configuration is in the name-filtered list, passes the selector filter, and no earlier one passes; nothing is chosen exactly when none passes |
| ContextOptions.PassesAstSelectorFilterSpec | rules/sort-array-includes/compute-matched-context-options.ts:49-61 | without a (non-empty) `matchesAstSelector` a configuration passes exactly when no AST selector is evaluated; with one, exactly when it equals the evaluated selector |
| NodeRange.Attached | utils/get-node-range.ts:42-62 | at most all the comments are attached |
| NodeRange.GetNodeRange | utils/get-node-range.ts:10-69 | the loop's range is the one the attachment rule defines, with the `partitionByComment ?? false` default; the end is the node's or its closing parenthesis' end |
| NodeRange.AttachedIsLongestRun | utils/get-node-range.ts:42-62 | the attached comments are the longest run, ending at the comment nearest the node, of comments that do not stop the scan and each end on the line just above the node or the comment below them; the comment above the run, if any, is not attachable |
| NodeRange.LongestRunIsAttached | utils/get-node-range.ts:42-62 | any count with the longest-run property is the number of attached comments |
| NodeRange.NodeRangeSpec | utils/get-node-range.ts:17-68 | the end never moves during the scan; with no attached comment the range is the node's own, or its parentheses' when parenthesised; otherwise it starts at the topmost attached comment |
| CommonSelectors.Before | rules/sort-imports/compute-common-selectors.ts:93 | the part before the first `node:` is a prefix of the text (the `split('node:')[1]` piece) |
| CommonSelectors.ComputeCommonSelectors | rules/sort-imports/compute-common-selectors.ts:21-77 | the list holds exactly the selectors whose tests hold (index, sibling, parent, subpath, internal, builtin, external, with the internal pattern overriding the resolution) and lists them in that fixed order |
| CommonSelectors.EmitSelectors | rules/sort-imports/compute-common-selectors.ts:47-75 | the seven guarded pushes list exactly the selectors whose tests hold, in the fixed emission order |
| CommonSelectors.PushWhen | rules/sort-imports/compute-common-selectors.ts:48-74 | one `if (test) push(selector)` step extends the applicable selectors placed before it by that one selector |
| CommonSelectors.EmissionOrderIsUnique | rules/sort-imports/compute-common-selectors.ts:46-76 | two lists in emission order with the same selectors are equal, so the list is determined by which tests hold and no selector repeats |
| CommonSelectors.InternalExternalExclusive | rules/sort-imports/compute-common-selectors.ts:38-44 | `internal` and `external` are never both in the list |
| CommonSelectors.PathTestsSpec | rules/sort-imports/compute-common-selectors.ts:101-116 | `.` is index but not sibling, `./` is both, `..` marks parent, `./` sibling and `#` subpath |
| CommonSelectors.InternalExternalSpec | rules/sort-imports/compute-common-selectors.ts:35-44 | a name matching an internal pattern is internal whatever the resolution; without TypeScript it is external exactly when it starts with neither `.` nor `/`, and never internal |
| CommonSelectors.CoreModuleSpec | rules/sort-imports/compute-common-selectors.ts:79-99 | a Node builtin is recognised with and without the `node:` prefix, `node:test` is a builtin, and `bun` is one exactly under Bun (or when Node lists it) |
| GroupMatching.DoesMatchIsSubset | utils/group-matcher.ts:107-118 | `doesMatch` holds exactly when the element has the group's selector and the group's modifiers are a subset of the element's |
| GroupMatching.GroupName.Compare | utils/group-matcher.ts:77-105 | the index loop of `compare` returns the ordering by selector index, then more modifiers first, then the first differing modifier index |
| GroupMatching.ParsedModifiers | utils/group-matcher.ts:55-57 | a modifier is kept exactly when it is in `allModifiers` and occurs as `modifier-` at the start of the rest or after a dash |
| GroupMatching.PossibleElementsAreSuffixes | utils/group-matcher.ts:67-74 | the last three, two and one dash-separated segments are each a suffix of the name |
| GroupMatching.ParseNullIff | utils/group-matcher.ts:46-52 | `parse` returns null exactly when no selector is among the trailing candidates |
| GroupMatching.ParseKeepsName | utils/group-matcher.ts:59-65 | a parsed group keeps the name it was parsed from |
| GroupMatching.ParseSelector | utils/group-matcher.ts:46-54 | the parsed selector is a trailing candidate, the earliest one in `allSelectors`, and a suffix of the name |
| GroupMatching.ParseModifiers | utils/group-matcher.ts:54-57 | the parsed modifiers are exactly the `allModifiers` entries occurring in the name with its selector cut off, in `allModifiers` order, without repeats when `allModifiers` has none |
| GroupMatching.ModifierOccursIsDashContainment | utils/group-matcher.ts:56 | the `(?:^\|-)m-` test on the rest equals plain containment of `-m-` in `-` followed by the rest |
| GroupMatching.CompareAntisymmetric | utils/group-matcher.ts:77-105 | `compare(a, a)` is 0, `compare(a, b) = -compare(b, a)`, and the result is -1, 0 or 1 |
| GroupMatching.CompareTransitive | utils/group-matcher.ts:77-105 | "not after" under `compare` is transitive |
| GroupMatching.CompareIsTotalPreorder | utils/group-matcher.ts:169-174 | `compare` is a total preorder, so the sort of the predefined groups orders them |
| GroupMatching.KeptCustomGroups | utils/group-matcher.ts:150-154 | a custom group is kept exactly when the `groups` option names it, and the kept groups stay in their configured order (a subsequence of `customGroups`) |
| GroupMatching.ParsedGroupsMembers | utils/group-matcher.ts:159-168 | every predefined candidate is the parse of a name in `groups` that no kept custom group uses |
| GroupMatching.ParsedGroupsComplete | utils/group-matcher.ts:159-168 | every name in `groups` that no kept custom group uses and that parses contributes its parse |
| GroupMatching.PredefinedGroupsSpec | utils/group-matcher.ts:156-174 | the predefined groups are exactly the parses of the names in `groups` that no kept custom group uses, and they are in `compare` order |
| GroupMatching.GroupForIsFirstMatch | utils/group-matcher.ts:187-209 | the first accepted kept custom group wins over every predefined group; without one, the first predefined group that matches; with neither, `unknown` |
| GroupMatching.GroupMatcher.constructor | utils/group-matcher.ts:135-185 | the index maps are built over the selectors and modifiers, mapping each to a position holding it; the kept custom groups and the sorted predefined groups are as specified above |
| GroupMatching.GroupMatcher.ComputeGroup | utils/group-matcher.ts:187-209 | the two early-return loops yield the first-match answer |
| GroupsValidation.LongestAllowedWord | utils/validate-generated-groups-configuration.ts:91-134 | a found word is the join of its last `count` segments, is allowed, and counts one to three segments (two at most without three-word runs) within the list |
| GroupsValidation.TrailingFacts | utils/validate-generated-groups-configuration.ts:100-105 | the one-segment run is the last segment; longer runs inside the list are longer text; a run longer than the list is the same text as the shorter one, which the `!==` guards exclude |
| GroupsValidation.LongestAllowedWordIsLongest | utils/validate-generated-groups-configuration.ts:100-133 | no longer trailing run within reach is allowed than the one found; null exactly when the list is empty, the last segment is empty (a name ending in `-`), or no run within reach is allowed |
| GroupsValidation.ComputeLongestAllowedWord | utils/validate-generated-groups-configuration.ts:91-134 | the three overwriting checks yield the longest allowed trailing run |
| GroupsValidation.IsPredefinedGroup | utils/validate-generated-groups-configuration.ts:44-89 | the while loop, shrinking the prefix by the word it parsed and rejecting a repeat, accepts exactly the predefined names; `unknown` is always accepted |
| GroupsValidation.ModifiersParseIsDistinctDecomposition | utils/validate-generated-groups-configuration.ts:68-88 | the modifier loop accepts exactly when the prefix decomposes, right to left by longest match, into modifiers of one or two segments, none repeated and none parsed before |
| GroupsValidation.ModifierWordsAllowed | utils/validate-generated-groups-configuration.ts:70-77 | every word of the decomposition is an allowed modifier |
| GroupsValidation.IsPredefinedIff | utils/validate-generated-groups-configuration.ts:53-88 | a name other than `unknown` is predefined exactly when a trailing selector of up to three segments exists and the remaining prefix decomposes into modifiers without repeats |
| GroupsValidation.PredefinedElementsIff | utils/validate-generated-groups-configuration.ts:55-88 | the dash-separated segments pass exactly when a trailing selector exists and the segments before it parse as modifiers with no repeat |
| GroupsValidation.FlatGroupNamesMembers | utils/validate-generated-groups-configuration.ts:29-31 | the flattened string entries are the names of name slots and of list slots; markers give none |
| GroupsValidation.InvalidGroupsMembers | utils/validate-generated-groups-configuration.ts:32-36 | the invalid entries are exactly those neither predefined nor a custom name, kept in their order |
| GroupsValidation.ValidateGroupsSpec | utils/validate-generated-groups-configuration.ts:19-39 | validation passes exactly when every string entry of `groups` is predefined or a custom name; otherwise the message is `Invalid group(s): ` followed by exactly the offending entries, in order, joined by `, ` |
| GroupsValidation.CustomGroupNamesMembers | utils/validate-generated-groups-configuration.ts:24-28 | the custom names are the `groupName`s of the array form or the keys of the record form |
| GroupedSort.SortedBucket | utils/sort-nodes-by-groups.ts:47-55 | a pushed bucket, sorted or left as is, is a permutation of the non-ignored nodes of that group number |
| GroupedSort.Blocks | utils/sort-nodes-by-groups.ts:43-56 | there is one block per possible group number `0 .. groups.length`, each the sorted (or unsorted) bucket of that number |
| GroupedSort.Splice | utils/sort-nodes-by-groups.ts:60 | `splice(i, 0, x)` inserts `x` at `i`, or at the end when `i` is past it |
| GroupedSort.SortNodesByGroups | utils/sort-nodes-by-groups.ts:22-64 | the three loops return the specified result: a permutation of the input, of the same length, with every ignored node at its own index |
| GroupedSort.BucketNodes | utils/sort-nodes-by-groups.ts:27-41 | the first loop records exactly the ignored indices, in order, and fills the dictionary with exactly the non-empty buckets, each in input order |
| GroupedSort.PushBuckets | utils/sort-nodes-by-groups.ts:43-56 | the second loop pushes the buckets in ascending group number, each unsorted when its compare options are null and sorted otherwise |
| GroupedSort.PushBucket | utils/sort-nodes-by-groups.ts:47-55 | one round appends group `g`'s bucket: nothing when no node has that group number, the bucket as it is when the group's compare options are null, and its stable sort otherwise |
| GroupedSort.PushedBucket | utils/sort-nodes-by-groups.ts:47-55 | an absent key pushes nothing; a present one pushes its entry as is for null options and sorted with the chosen options otherwise |
| GroupedSort.SpliceIgnored | utils/sort-nodes-by-groups.ts:58-61 | splicing the recorded indices back in ascending order weaves the ignored nodes into the sorted ones |
| GroupedSort.BucketMembers | utils/sort-nodes-by-groups.ts:38-40 | a bucket holds only non-ignored nodes of its group number |
| GroupedSort.SplitIsPermutation | utils/sort-nodes-by-groups.ts:29-41 | every node is either set aside or bucketed, once |
| GroupedSort.IgnoredIndicesSpec | utils/sort-nodes-by-groups.ts:28-35 | the recorded indices ascend, each names an ignored node, and every ignored node is recorded |
| GroupedSort.SortedNonIgnoredIsPermutation | utils/sort-nodes-by-groups.ts:43-56 | the pushed buckets together are a permutation of the non-ignored nodes |
| GroupedSort.SortedByGroupsIsPermutation | utils/sort-nodes-by-groups.ts:29-61 | the result is a permutation of the input |
| GroupedSort.SortedByGroupsPinsIgnored | utils/sort-nodes-by-groups.ts:28-61 | the result has the input's length, every ignored node sits at its original index, and the other indices hold non-ignored nodes |
| GroupedSort.SortedByGroupsBlocks | utils/sort-nodes-by-groups.ts:38-56 | read in order, the non-ignored nodes of the result are the pushed buckets and their group numbers ascend, so each group is one contiguous block |
| GroupedSort.SortedByGroupsBucket | utils/sort-nodes-by-groups.ts:38-56 | the result's nodes of group `g`, in order, are bucket `g` as sorted (or left) for that group |
| GroupedSort.NullOptionsKeepOrder | utils/sort-nodes-by-groups.ts:9-54 | a group whose compare options are null keeps its nodes in input order |
| GroupedSort.SharedOptionsSortEachBucket | utils/sort-nodes-by-groups.ts:47-55 | without `getGroupCompareOptions` every group's nodes are its bucket sorted with the shared options, hence in order under a total preorder |
| GroupedSort.SortedByGroupsIsStable | utils/sort-nodes-by-groups.ts:43-56 | the grouped sort is stable: in a group sorted with a total preorder, the nodes that tie with any given node keep their input order |
| Sorting.StableSortKeepsTies | utils/sort-nodes-by-groups.ts:55 | the bucket sort is stable: under a total preorder, the elements that tie with any `x` come out in the order they went in |
| GroupedSort.NothingIgnoredWithoutIgnoreOptions | utils/sort-nodes-by-groups.ts:30-37 | with neither ignore option nothing is set aside and the result is the pushed buckets |
| SortArray.Step | rules/sort-array-includes/sort-array.ts:85-143 | one reduce step keeps at least one partition |
| SortArray.FormattedMembers | rules/sort-array-includes/sort-array.ts:84-145 | starting from `[[]]`, the reduce always holds at least one partition |
| SortArray.FormatMembers | rules/sort-array-includes/sort-array.ts:84-145 | the reduce loop builds exactly the specified partitions: holes skipped, a spread opening a new partition, an expression node (selector `literal`, no modifiers) added to the last partition after opening a new one when `shouldPartition` holds against the last node |
| SortArray.Nodes | rules/sort-array-includes/sort-array.ts:137-140 | dropping `partitionId` keeps the nodes, one for one |
| SortArray.StepShape | rules/sort-array-includes/sort-array.ts:117-140 | an expression's node is pushed onto the last partition with `partitionId` equal to the number of partitions at that moment |
| SortArray.StepIds | rules/sort-array-includes/sort-array.ts:134-140 | a step keeps every `partitionId` equal to its partition's position counted from 1 |
| SortArray.StepNoSplit | rules/sort-array-includes/sort-array.ts:125-135 | a step keeps `shouldPartition` false between consecutive nodes of a partition |
| SortArray.StepNodes | rules/sort-array-includes/sort-array.ts:89-140 | a step appends to the flattened nodes exactly the expression's node, and nothing for a hole or a spread |
| SortArray.FormattedMembersSpec | rules/sort-array-includes/sort-array.ts:84-161 | every `partitionId` is its partition's position from 1; inside a partition `shouldPartition` never holds between neighbours; flattened, the partitions are the expression elements' nodes in source order, holes and spreads dropped |
| SortArray.SpreadOpensPartition | rules/sort-array-includes/sort-array.ts:93-96 | a spread closes the current partition: it adds an empty partition and no node |
| SortArray.SortedPartition | rules/sort-array-includes/sort-array.ts:150-157 | sorting a partition permutes its nodes and keeps their `partitionId` |
| SortArray.SortedPartitions | rules/sort-array-includes/sort-array.ts:150-157 | there is one sorted block per partition, each that partition sorted on its own |
| SortArray.SortedStaysInPartitions | rules/sort-array-includes/sort-array.ts:147-159 | the sorted list is the partitions, each sorted on its own and keeping its `partitionId`, one after another, so no node crosses a partition boundary; it holds the same nodes as the flattened list |
| SortArray.SortArrayElements | rules/sort-array-includes/sort-array.ts:52-169 | nothing is reported exactly when the elements cannot be computed or are not sortable; otherwise the reported nodes are the flattened partitions (the expression nodes in order) and both sorted lists are the per-partition sorts, with and without eslint-disabled nodes pinned |
| NamedImports.ImportSpecifiers | rules/sort-named-imports.ts:62-64 | only `ImportSpecifier` entries are kept |
| NamedImports.SpecifierNodeSpec | rules/sort-named-imports.ts:81-105 | `groupKind` is `type` exactly for type imports; the name is the local name, or with `ignoreAlias` the imported identifier's name or string value; identity and the eslint-disabled flag are carried over |
| NamedImports.SpecifierNodes | rules/sort-named-imports.ts:80-105 | one node per specifier, in order |
| NamedImports.Step | rules/sort-named-imports.ts:107-118 | an iteration keeps at least one partition |
| NamedImports.Partitions | rules/sort-named-imports.ts:79-119 | starting from `[[]]`, the loop always holds at least one partition |
| NamedImports.FormatMembers | rules/sort-named-imports.ts:79-119 | the specifier loop builds exactly the partitions of the specifiers' nodes |
| NamedImports.SortingNodeOf | rules/sort-named-imports.ts:81-105 | the loop body's node is the specifier's specified node: the imported name (identifier or string) when aliases are ignored, the local name otherwise, and the `type` kind exactly for a type import |
| NamedImports.PushNode | rules/sort-named-imports.ts:91-118 | the loop body's update is one specified partition step: a fresh partition when `shouldPartition` holds after the current last node, then the node added to the last partition |
| NamedImports.LastNodeIsLastOfConcat | rules/sort-named-imports.ts:91 | `formattedMembers.at(-1)?.at(-1)` is the last node added so far |
| NamedImports.PartitionsConcat | rules/sort-named-imports.ts:79-119 | flattened, the partitions are the nodes in order |
| NamedImports.PartitionsSplitWhereTold | rules/sort-named-imports.ts:91-118 | inside a partition `shouldPartition` never holds between neighbours, and every later partition starts at exactly a node for which it holds against the node before |
| NamedImports.BucketMembers | rules/sort-named-imports.ts:131-136 | a bucket holds only nodes of its partition that its kind accepts |
| NamedImports.Buckets | rules/sort-named-imports.ts:121-136 | there is one bucket per entry of the kind order |
| NamedImports.BucketIsSubsequence | rules/sort-named-imports.ts:132-135 | a bucket keeps its nodes in input order |
| NamedImports.BucketsShareOut | rules/sort-named-imports.ts:131-136 | the value and type buckets together hold each node of the partition once |
| NamedImports.AnyBucketIsAll | rules/sort-named-imports.ts:134 | the `any` bucket is the whole partition |
| NamedImports.SortedNodesShape | rules/sort-named-imports.ts:121-146 | `values-first` sorts the value bucket then the type bucket, `types-first` the reverse, `mixed` the whole partition |
| NamedImports.BucketsKeepOrder | rules/sort-named-imports.ts:130-136 | every bucket is in input order |
| NamedImports.BucketsShape | rules/sort-named-imports.ts:121-136 | the buckets are [value, type], [type, value] or the whole partition, by `groupKind` |
| NamedImports.BucketsShareAll | rules/sort-named-imports.ts:130-136 | every node of the partition lands in exactly one bucket |
| NamedImports.SortedNodesIsPermutation | rules/sort-named-imports.ts:137-146 | when `sortNodes` permutes its input, the sorted partition is a permutation of the partition |
| NamedImports.KindsStayApart | rules/sort-named-imports.ts:121-146 | under `values-first` no type specifier precedes a value specifier, and under `types-first` the reverse |
| NamedImports.SortNamedImports | rules/sort-named-imports.ts:61-158 | nothing happens exactly when the import specifiers are not sortable; otherwise there is one report per partition, with its nodes and its per-bucket sorts |
| NamedImports.ReportPartitions | rules/sort-named-imports.ts:130-158 | one report per partition, in partition order, each carrying that partition's nodes and its sorts with and without eslint-disabled nodes |
| SortObjects.SortsObjectSpec | rules/sort-objects.ts:97-198 | unsortable members, `unsorted`, a destructuring pattern with `destructuredObjects` off, and an object literal with `destructureOnly` or without `objectDeclarations` all stop the rule; the object form of `destructuredObjects` counts as on |
| SortObjects.SortsWithGroupsSpec | rules/sort-objects.ts:425-430 | object literals and the boolean form always sort by groups; a destructuring pattern with the object form does so exactly when it sets `groups` |
| SortObjects.AncestorTypes | rules/sort-objects.ts:699-706 | the ancestors' types, one per ancestor, in order |
| SortObjects.GetObjectParent | rules/sort-objects.ts:662-690 | a parent, when found, has a non-empty name |
| SortObjects.GetObjectParentSpec | rules/sort-objects.ts:662-740 | the parent is a variable declarator exactly when the nearest declarator or property ancestor has a non-empty identifier name, and then carries it; it is a call exactly when that fails and the nearest call's callee has a non-empty identifier name, and then carries it |
| SortObjects.VariableParentNameIsNearest | rules/sort-objects.ts:692-721 | the variable parent's name is read from the nearest declarator (its `id`) or property (its `key`) ancestor |
| SortObjects.ContextOptionAppliesSpec | rules/sort-objects.ts:114-128 | a context option without `callingFunctionNamePattern` applies; with one, exactly to an object whose parent is a call with a non-empty name matching the pattern |
| SortObjects.CheckNode | rules/sort-objects.ts:210-290 | `checkNode` appends to the collected names exactly the node's dependencies |
| SortObjects.CheckKindFields | rules/sort-objects.ts:225-234 | the `Property` and `ConditionalExpression` cases append their fields' dependencies in source order |
| SortObjects.CheckChildren | rules/sort-objects.ts:236-289 | the generic child fields append their dependencies in the order the source tests them |
| SortObjects.TraverseEach | rules/sort-objects.ts:273-289 | a `for … of` over a child list appends each child's dependencies in order |
| SortObjects.TraverseEachOptional | rules/sort-objects.ts:259-267 | holes in `elements` are filtered out, then each element's dependencies are appended in order |
| SortObjects.ExtractDependencies | rules/sort-objects.ts:205-298 | `extractDependencies` returns exactly the names `checkNode` collects from the default value |
| SortObjects.DependenciesAreVisibleNames | rules/sort-objects.ts:210-290 | every collected name is an identifier's name occurring outside any function: function bodies are never traversed |
| SortObjects.DependenciesOfLeaves | rules/sort-objects.ts:214-223 | a function value contributes nothing, and an identifier contributes its name first |
| SortObjects.PropertySelectors | rules/sort-objects.ts:329-343 | the first selector is `method` exactly for function values and `property` otherwise, then `member`, then `multiline` exactly for a multi-line property |
| SortObjects.PropertyModifiers | rules/sort-objects.ts:340-343 | the only modifier is `multiline`, present exactly for a multi-line property |
| SortObjects.ComputeSelectors | rules/sort-objects.ts:322-343 | the pushes yield the selectors and modifiers specified above |
| SortObjects.NodeValue | rules/sort-objects.ts:646-660 | the value text is absent exactly for a function value, and otherwise the value's text |
| SortObjects.RunCustomGroups | rules/sort-objects.ts:356-379 | the loop with its `break` makes exactly the specified `defineGroup` calls |
| SortObjects.AllCustomDefines | rules/sort-objects.ts:357-370 | without the `break` the loop only appends custom `defineGroup` calls to the history |
| SortObjects.CustomGroupCallsSpec | rules/sort-objects.ts:356-379 | the loop makes a prefix of the calls it would make without `break`; when it stops short, the group defined last is the current one; no group defined before that became current, so a match that did not become current does not stop the loop |
| SortObjects.CustomGroupCallsWithoutMatch | rules/sort-objects.ts:357-369 | with no matching custom group the loop makes no call |
| SortObjects.PredefinedCalls | rules/sort-objects.ts:351-353 | one non-custom `defineGroup` call per predefined group, in order |
| SortObjects.DefinePredefinedGroups | rules/sort-objects.ts:351-353 | the loop makes exactly the non-custom `defineGroup` calls of the predefined groups, in order |
| SortObjects.GroupCalls | rules/sort-objects.ts:345-384 | the property's calls are the specified ones: the predefined groups, then either the custom-group loop (array form) or one `setCustomGroups` call |
| SortObjects.PropertyNodeSpec | rules/sort-objects.ts:316-396 | the node is named by `getNodeName` (lines 631-644) and keeps the property's identity, size and eslint-disabled flag; only an `AssignmentPattern` value has dependencies, and they are its extracted names; the group is what the calls leave current; the calls are the predefined groups in order, then custom `defineGroup` calls (array form) or one `setCustomGroups` with the name (record form) |
| SortObjects.FormatProperty | rules/sort-objects.ts:316-396 | the reduce body builds exactly the specified node |
| SortObjects.Step | rules/sort-objects.ts:307-420 | a reduce step keeps at least one partition |
| SortObjects.Fold | rules/sort-objects.ts:306-422 | the reduce keeps at least one partition |
| SortObjects.FormatProperties | rules/sort-objects.ts:299-422 | the reduce loop builds exactly the specified partitions |
| SortObjects.ReduceProperty | rules/sort-objects.ts:307-420 | one reduce callback is the specified step: a spread or rest element opens a partition, and a property opens one on a blank-line gap or partition comment before its node is appended |
| SortObjects.StepKeepsClosed | rules/sort-objects.ts:307-420 | a step never changes or removes the partitions before the last one |
| SortObjects.FoldKeepsClosed | rules/sort-objects.ts:306-422 | the reduce never changes a partition once a later one is open |
| SortObjects.FoldAppend | rules/sort-objects.ts:306-422 | reducing two lists of members is reducing one after the other |
| SortObjects.SpreadClosesPartitions | rules/sort-objects.ts:308-314 | a spread or rest element closes every partition before it: no later node joins them |
| SortObjects.StepConcat | rules/sort-objects.ts:308-417 | a step appends the property's node, and nothing for a spread or rest element, to the flattened partitions |
| SortObjects.PartitionsFlatten | rules/sort-objects.ts:450 | the flattened partitions are the property nodes in source order, spreads and rest elements left out |
| SortObjects.StepNoSplit | rules/sort-objects.ts:398-417 | a step keeps partitions free of splitting points between neighbours |
| SortObjects.PartitionsNoSplitInside | rules/sort-objects.ts:398-417 | inside a partition no node has a partition comment or, under `partitionByNewLine`, blank lines after the node before it |
| SortObjects.PairMessagesSpec | rules/sort-objects.ts:454-500 | an in-order pair gets only spacing messages; an out-of-order pair gets exactly one order message first (dependency order when some unordered node depends on the right one, else order or group order by group-number equality), followed by at most one spacing message |
| SortObjects.PairMessagesAreDependencyErrors | rules/sort-objects.ts:454-500 | the pair's messages equal `getOrderWithDependenciesErrors` given the dependent node only for out-of-order pairs |
| SortObjects.TraverseOptional | rules/sort-objects.ts:269-271 | an absent `argument` adds nothing; a present one adds its dependencies |
| SortObjects.FoldConcat | rules/sort-objects.ts:306-422 | from any accumulator, the reduce appends the property nodes in order to the flattened partitions |
| SortObjects.FoldNoSplit | rules/sort-objects.ts:398-417 | from any accumulator without splitting points inside a partition, the reduce keeps that so |
| SortClasses.Slice | rules/sort-classes.ts:155-158 | `slice` never yields more than the text; within bounds it is the substring, and crossed bounds give the empty string |
| SortClasses.MemberNameSpec | rules/sort-classes.ts:152-165 | a static block is named `static`; an index signature by its text up to its type annotation, or to its end without one; other members by the key's identifier name or the key's text |
| SortClasses.PrivacySpec | rules/sort-classes.ts:167-177 | a name starting with `_` or `#`, or a method declared `private`, makes the member private; a public method whose name starts otherwise is not |
| SortClasses.CandidatesMember | rules/sort-classes.ts:171-242 | a group is among a member's `defineGroup` calls exactly when it is in the order the rule tests that kind of member against and the member meets its condition |
| SortClasses.CandidateGroupsMember | rules/sort-classes.ts:171-242 | a member's defined groups are exactly the groups of its kind whose conditions it meets |
| SortClasses.MethodDefines | rules/sort-classes.ts:171-213 | the condition of each method group: constructor, decorated get/set/plain, static private, private, static, get, set, and `method` always |
| SortClasses.MethodDefinesSpecific | rules/sort-classes.ts:172-195 | the conditions of the constructor, decorated get/set/plain and static private method groups |
| SortClasses.MethodDefinesGeneral | rules/sort-classes.ts:197-213 | the conditions of the private, static, get and set method groups, and `method` for every method |
| SortClasses.PropertyDefines | rules/sort-classes.ts:224-241 | the condition of each property group: private decorated, decorated, private, static, and `property` always |
| SortClasses.MethodCandidatesSpec | rules/sort-classes.ts:171-213 | a method always ends with `method`, and starts with `constructor` exactly when it is a constructor |
| SortClasses.FixedCandidatesSpec | rules/sort-classes.ts:214-215 | an index signature defines only `index-signature`; a static block defines nothing |
| SortClasses.AccessorCandidatesSpec | rules/sort-classes.ts:216-223 | an accessor property without decorators defines nothing; with decorators it ends with `decorated-accessor-property` |
| SortClasses.PropertyCandidatesSpec | rules/sort-classes.ts:224-241 | a property always ends with `property` |
| SortClasses.DefineCandidateGroups | rules/sort-classes.ts:168-242 | the chain of `if`s makes exactly the specified `defineGroup` calls, in order |
| SortClasses.DefineMethodGroups | rules/sort-classes.ts:171-213 | the method branch makes the method groups' calls in source order |
| SortClasses.DefineMethodGroupsHead | rules/sort-classes.ts:172-195 | the first five tests of the method branch |
| SortClasses.DefineMethodGroupsTail | rules/sort-classes.ts:197-213 | the last five tests of the method branch |
| SortClasses.DefineAccessorGroups | rules/sort-classes.ts:216-223 | the accessor-property branch makes its calls in source order |
| SortClasses.DefinePropertyGroups | rules/sort-classes.ts:224-241 | the property branch makes its calls in source order |
| SortClasses.DefinePropertyCandidates | rules/sort-classes.ts:225-241 | the five property `defineGroup` calls define exactly the property groups whose conditions hold, from most to least specific |
| SortClasses.DefinePropertyCandidatesTail | rules/sort-classes.ts:237-241 | after the first three property calls, the static and `property` calls complete the property candidates |
| SortClasses.DefineCalls | rules/sort-classes.ts:171-242 | one non-custom `defineGroup` call per group, with the group's option name, in order |
| SortClasses.MemberNodeSpec | rules/sort-classes.ts:147-253 | a member's node carries its name, size and identity, is never eslint-disabled, and takes the group current after its `defineGroup` calls in order and a final `setCustomGroups` with its name |
| SortClasses.FormatMember | rules/sort-classes.ts:147-253 | the reducer body builds exactly the specified node |
| SortClasses.Step | rules/sort-classes.ts:136-258 | a reducer step keeps at least one partition |
| SortClasses.Partitions | rules/sort-classes.ts:135-260 | the reduce from `[[]]` yields at least one partition |
| SortClasses.FormatMembers | rules/sort-classes.ts:135-260 | the `node.body.reduce` builds exactly the specified partitions |
| SortClasses.AddMember | rules/sort-classes.ts:136-256 | one reduce callback is the specified step: a partition comment before the member opens a partition, then the member's node is added to the last one |
| SortClasses.MemberNodes | rules/sort-classes.ts:248-255 | one node per member |
| SortClasses.PartitionsFlatten | rules/sort-classes.ts:135-260 | read one after another, the partitions are every member's node in source order |
| SortClasses.PartitionsCount | rules/sort-classes.ts:139-145 | there is one partition plus one for each member preceded by a partition comment |
| SortClasses.OnePartitionWithoutStarts | rules/sort-classes.ts:139-145 | without partition comments the body is one partition of all the nodes |
| SortClasses.StartOpensPartition | rules/sort-classes.ts:139-255 | a member after a partition comment opens a new last partition holding only its node; earlier partitions stay |
| SortClasses.JoinsLastPartition | rules/sort-classes.ts:255 | any other member is appended to the last partition; earlier partitions stay |
| SortClasses.DefaultGroupRanks | rules/sort-classes.ts:124-131 | under the default groups `property`, `constructor`, `method` and `unknown` rank 0 to 3, and every other group ranks after them |
| SortClasses.DefaultPartitionByCommentIsOff | rules/sort-classes.ts:126-145 | with the default `partitionByComment` no member opens a partition |
| SortClasses.ReportedIsOutOfOrder | rules/sort-classes.ts:262-272 | a pair is reported exactly when the names differ and the left node comes after the right one by group number, then by `compare` |
| SortClasses.ClassOrderIsTotalPreorder | rules/sort-classes.ts:264-271 | ordering by group number, then `compare`, is a total preorder whenever `compare` is |
| SortClasses.ReportedPairsSpec | rules/sort-classes.ts:262-318 | the reported pairs are exactly the consecutive pairs of a partition that fail the test; none exactly when no pair fails |
| SortClasses.NothingReportedIffSorted | rules/sort-classes.ts:262-318 | a partition in the rule's order has no report; with distinct neighbouring names, no report means it is in order |
| SortClasses.PartitionReportsEmpty | rules/sort-classes.ts:262-263 | the loop over the partitions reports nothing exactly when no partition has a reported pair |
| SortClasses.BodyReportsSpec | rules/sort-classes.ts:123-318 | a class body of at most one member is never reported; a larger one is reported exactly when some partition has a reported pair |
| SortClasses.SortedBodyNotReported | rules/sort-classes.ts:123-318 | a body whose partitions are each in the rule's order is not reported |
| SortClasses.SortForFix | rules/sort-classes.ts:281-310 | the fix's bucket reduce and its loop over the numerically sorted keys produce exactly the specified order |
| SortClasses.GroupedBuckets | rules/sort-classes.ts:281-302 | each bucket holds, up to order, the partition's nodes of that group number, and there is a bucket exactly for each number in use |
| SortClasses.GroupedKeys | rules/sort-classes.ts:288-291 | every bucket key is a group number, so at most the number of groups, and every node's number has a bucket |
| SortClasses.BelowAll | rules/sort-classes.ts:306-310 | scanning the keys from 0 up to the number of groups reaches every node |
| SortClasses.FixIsPermutation | rules/sort-classes.ts:281-310 | the fix rewrites a partition as a permutation of its nodes |
| SortClasses.CollectSorted | rules/sort-classes.ts:306-310 | the collected buckets are in the rule's order |
| SortClasses.FixIsSorted | rules/sort-classes.ts:281-310 | the fixed partition is in the rule's order |
| SortClasses.FixedPartitionNotReported | rules/sort-classes.ts:262-310 | after the fix the group numbers never decrease and the partition has no reported pair |

## Left out

- `sortNodes` and `compare`: the locale collation, natural ordering and custom alphabets are not modelled. The sort is `Sorting.StableSort` under an abstract comparator, assumed to be a total preorder where a lemma needs it. The sort-named-imports rule uses a newer `sortNodes` signature, so there the sort is an abstract `NodeSorter`.
- `matches` and `doesCustomGroupMatch` are regular-expression tests. They are uninterpreted predicates, and regex metacharacters are not modelled.
- These collaborators are parameters, not specified: `isPartitionComment`, `getCommentBefore`, `getEslintDisabledRules`, `getLinesBetween` (the blank-line count), `shouldPartition`, `computeGroupsNames`, `isSortable`, `generatePredefinedGroups`, `sortNodesByDependencies` and `getFirstUnorderedNodeDependentOn`.
- The `useGroups` state behind `defineGroup`, `setCustomGroups` and `getGroup`: its code is not part of this model. The rules' calls are recorded as a sequence of `GroupCall`s, and `getGroup` is a `GroupReader` over that sequence.
- `rangeToDiff`: the size of a node is a given number.
- The validators called at utils/validate-generated-groups-configuration.ts:40-41 (duplicate groups and `newlinesInside` checks) are not part of this model.
- TypeScript module resolution (rules/sort-imports/compute-common-selectors.ts:132-154) is an input. Node's `builtinModules` is a given set.
- ESLint itself is not modelled: rule registration, AST listeners, schemas, the memo caches, `makeFixes`, `reportAllErrors`, and rendering or applying message text and fixes. Reports are message ids, and a fix is the sorted node order it would write. The AST is reduced to the records each rule reads. Whether an object sits inside a styled component is a boolean input.
- The files come from different revisions, and each module follows its own file:
  - sort-array calls `sortNodesByGroups` with a single object, so it goes through `GroupedSort.SortNodesByGroups` with per-group options;
  - the `onlyFirstParent` argument of sort-objects is ignored, as get-first-node-parent-with-type.ts ignores it;
  - the older `makeFixes` signature of sort-classes is not modelled.
- The test file for sort-array-includes describes a different revision, with `groupKind` and sorted spreads. The model follows rules/sort-array-includes/sort-array.ts.
- `GroupMatching.ParseNullIff`: stated only for selector lists that do not contain the empty string. The empty selector would trivially be a suffix.
- `GroupMatching.GroupName.Compare`: an index-map lookup of a key the matcher never asks for reads as 0, where the source would compare `undefined`.
- `OrderErrors.GetOrderErrors` and its siblings require both nodes to be in `nodeIndexMap`. This is the source's `!` assertion on the map lookup.
- Message ids a rule does not offer are `None`, not `undefined`.
- sort-objects: after `formatProperties`, the sort by dependencies and the gathering of eslint-disabled nodes are abstract. What is modelled is the pair decision each neighbouring pair gets (`PairMessages`). `pairwise` is modelled as the per-pair function, not as a loop.
- sort-classes: `isEslintDisabled` is always false, as in the source. The `customGroups` option is reached only through `getGroup` after `setCustomGroups`. Of `complete()`, only the defaults for `groups` and `partitionByComment` are modelled.
- sort-classes: on methods, the nested `if (decorated)` is flattened into conditions on the decorated groups, which defines the same groups in the same order.
- `SortClasses.SortForFix`: `Object.keys(grouped).sort(...)` is modelled as a walk over the keys `0 .. |groups|` in ascending order. Every key is a group number no larger than `|groups|` (`SortClasses.GroupedKeys`), so the order and the visited keys are the same.
