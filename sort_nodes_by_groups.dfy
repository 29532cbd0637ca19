/**
 * The grouping engine of sort-nodes-by-groups.ts. Nodes that are ignored stay
 * where they are. The others are bucketed by group number, each bucket is sorted
 * (or left as is when its compare options are null), the buckets are
 * concatenated in ascending group order, and the ignored nodes are spliced back
 * at their original indices.
 */
module GroupedSort {
  import opened Common
  import opened Sorting
  import opened GroupNumbers

  /** What `getGroupCompareOptions` returns for one group: compare options, or null. */
  datatype GroupCompare = NullOptions | CompareWith(cmp: Comparator)

  /** An optional callback of the extra options. */
  datatype CompareCallback = NoCompareCallback | GetGroupCompareOptions(get: nat -> GroupCompare)
  datatype IgnoreCallback = NoIgnoreCallback | IsNodeIgnored(test: SortingNode -> bool)

  /** The optional third argument of `sortNodesByGroups`. */
  datatype ExtraOptions = ExtraOptions(
    getGroupCompareOptions: CompareCallback,
    ignoreEslintDisabledNodes: bool,
    isNodeIgnored: IgnoreCallback)

  /** The second argument: the compare options (as a comparator) and the `groups` option. */
  datatype Options = Options(compare: Comparator, groups: seq<GroupSlot>)

  /** A node is set aside when it is disabled and that is asked for, or `isNodeIgnored` says so. */
  predicate Ignored(extra: Option<ExtraOptions>, n: SortingNode) {
    extra.Some? &&
    ((n.isEslintDisabled && extra.value.ignoreEslintDisabledNodes)
     || (extra.value.isNodeIgnored.IsNodeIgnored? && extra.value.isNodeIgnored.test(n)))
  }

  function Rank(groups: seq<GroupSlot>, n: SortingNode): nat {
    GroupNumber(groups, n.group)
  }

  /** The nodes that take part in sorting, in input order. */
  function NonIgnored(extra: Option<ExtraOptions>, s: seq<SortingNode>): seq<SortingNode> {
    if s == [] then []
    else if Ignored(extra, s[0]) then NonIgnored(extra, s[1..])
    else [s[0]] + NonIgnored(extra, s[1..])
  }

  /** The nodes that are set aside, in input order. */
  function Pinned(extra: Option<ExtraOptions>, s: seq<SortingNode>): seq<SortingNode> {
    if s == [] then []
    else if Ignored(extra, s[0]) then [s[0]] + Pinned(extra, s[1..])
    else Pinned(extra, s[1..])
  }

  /** Bucket `g`: the non-ignored nodes of group number `g`, in input order. */
  function Bucket(extra: Option<ExtraOptions>, groups: seq<GroupSlot>, s: seq<SortingNode>, g: nat): seq<SortingNode> {
    if s == [] then []
    else if !Ignored(extra, s[0]) && Rank(groups, s[0]) == g then [s[0]] + Bucket(extra, groups, s[1..], g)
    else Bucket(extra, groups, s[1..], g)
  }

  /** The non-ignored nodes whose group number is below `k`. */
  function BelowRank(extra: Option<ExtraOptions>, groups: seq<GroupSlot>, s: seq<SortingNode>, k: nat): seq<SortingNode> {
    if s == [] then []
    else if !Ignored(extra, s[0]) && Rank(groups, s[0]) < k then [s[0]] + BelowRank(extra, groups, s[1..], k)
    else BelowRank(extra, groups, s[1..], k)
  }

  /**
   * The comparator bucket `g` is sorted with: the per-group one when
   * `getGroupCompareOptions` is given (None meaning "leave unsorted"), the
   * shared one otherwise.
   */
  function BucketComparator(options: Options, extra: Option<ExtraOptions>, g: nat): GroupCompare {
    if extra.Some? && extra.value.getGroupCompareOptions.GetGroupCompareOptions? then extra.value.getGroupCompareOptions.get(g)
    else CompareWith(options.compare)
  }

  /** Bucket `g` as it is pushed: sorted with its comparator, or unsorted. */
  function SortedBucket(nodes: seq<SortingNode>, options: Options, extra: Option<ExtraOptions>, g: nat): (r: seq<SortingNode>)
    ensures multiset(r) == multiset(Bucket(extra, options.groups, nodes, g))
  {
    var b := Bucket(extra, options.groups, nodes, g);
    match BucketComparator(options, extra, g)
    case NullOptions => b
    case CompareWith(cmp) => StableSort(b, cmp)
  }

  /** The sorted buckets of every possible group number `0 .. |groups|`, in ascending order. */
  function Blocks(nodes: seq<SortingNode>, options: Options, extra: Option<ExtraOptions>): (r: seq<seq<SortingNode>>)
    ensures |r| == |options.groups| + 1
    ensures forall g :: 0 <= g < |r| ==> r[g] == SortedBucket(nodes, options, extra, g)
  {
    seq(|options.groups| + 1, g requires 0 <= g => SortedBucket(nodes, options, extra, g))
  }

  /** The sorted buckets, one after another. */
  function SortedNonIgnored(nodes: seq<SortingNode>, options: Options, extra: Option<ExtraOptions>): seq<SortingNode> {
    Concat(Blocks(nodes, options, extra))
  }

  /**
   * Fills the positions of `ns` in order: an ignored node keeps its place, any
   * other position takes the next node of `s`.
   */
  function Weave(extra: Option<ExtraOptions>, ns: seq<SortingNode>, s: seq<SortingNode>): seq<SortingNode>
    decreases |ns|
  {
    if ns == [] then s
    else if Ignored(extra, ns[0]) then [ns[0]] + Weave(extra, ns[1..], s)
    else if s == [] then Weave(extra, ns[1..], s)
    else [s[0]] + Weave(extra, ns[1..], s[1..])
  }

  /** What `sortNodesByGroups` returns. */
  function SortedByGroups(nodes: seq<SortingNode>, options: Options, extra: Option<ExtraOptions>): seq<SortingNode> {
    Weave(extra, nodes, SortedNonIgnored(nodes, options, extra))
  }

  /** The indices of the ignored nodes, ascending, and all of them. */
  function IgnoredIndices(extra: Option<ExtraOptions>, s: seq<SortingNode>): seq<nat> {
    if s == [] then []
    else IgnoredIndices(extra, s[..|s| - 1]) + (if Ignored(extra, s[|s| - 1]) then [|s| - 1] else [])
  }

  /** `Array.prototype.splice(i, 0, x)`, which clamps a start beyond the end to the end. */
  function Splice(s: seq<SortingNode>, i: nat, x: SortingNode): (r: seq<SortingNode>)
    ensures |r| == |s| + 1
    ensures i <= |s| ==> r == s[..i] + [x] + s[i..]
    ensures i > |s| ==> r == s + [x]
  {
    var j := if i <= |s| then i else |s|;
    s[..j] + [x] + s[j..]
  }

  /**
   * `sortNodesByGroups`: set the ignored nodes aside while bucketing the others
   * by group number, push the buckets in ascending group order, then splice
   * the ignored nodes back.
   */
  method SortNodesByGroups(nodes: seq<SortingNode>, options: Options, extra: Option<ExtraOptions>)
    returns (sorted: seq<SortingNode>)
    ensures sorted == SortedByGroups(nodes, options, extra)
    ensures multiset(sorted) == multiset(nodes)
    ensures |sorted| == |nodes|
    ensures forall i :: 0 <= i < |nodes| && Ignored(extra, nodes[i]) ==> sorted[i] == nodes[i]
  {
    var buckets, ignoredIdx := BucketNodes(nodes, options.groups, extra);
    var s := PushBuckets(nodes, options, extra, buckets);
    SortedNonIgnoredIsPermutation(nodes, options, extra);
    sorted := SpliceIgnored(nodes, extra, ignoredIdx, s);
    SortedByGroupsIsPermutation(nodes, options, extra);
    SortedByGroupsPinsIgnored(nodes, options, extra);
  }

  /**
   * The first loop: each ignored node's index is recorded; every other node is
   * pushed onto the dictionary entry of its group number, created on first use.
   */
  method BucketNodes(nodes: seq<SortingNode>, groups: seq<GroupSlot>, extra: Option<ExtraOptions>)
    returns (buckets: map<nat, seq<SortingNode>>, ignoredIdx: seq<nat>)
    ensures ignoredIdx == IgnoredIndices(extra, nodes)
    ensures BucketsOf(extra, groups, nodes, buckets)
  {
    buckets := map[];
    ignoredIdx := [];
    var i := 0;
    while i < |nodes|
      invariant 0 <= i <= |nodes|
      invariant ignoredIdx == IgnoredIndices(extra, nodes[..i])
      invariant BucketsOf(extra, groups, nodes[..i], buckets)
    {
      var n := nodes[i];
      assert nodes[..i + 1] == nodes[..i] + [n];
      IgnoredIndicesSnoc(extra, nodes, i);
      if Ignored(extra, n) {
        BucketsIgnoredStep(extra, groups, nodes[..i], n, buckets);
        ignoredIdx := ignoredIdx + [i];
      } else {
        var groupNumber := GetGroupNumber(groups, n.group);
        BucketsPushStep(extra, groups, nodes[..i], n, buckets);
        var b := if groupNumber in buckets then buckets[groupNumber] else [];
        buckets := buckets[groupNumber := b + [n]];
      }
      i := i + 1;
    }
    assert nodes[..i] == nodes;
  }

  /** The dictionary holds bucket `g` of `s` under key `g`, for exactly the non-empty buckets. */
  ghost predicate BucketsOf(extra: Option<ExtraOptions>, groups: seq<GroupSlot>, s: seq<SortingNode>, buckets: map<nat, seq<SortingNode>>) {
    && (forall g :: g in buckets <==> Bucket(extra, groups, s, g) != [])
    && (forall g :: g in buckets ==> buckets[g] == Bucket(extra, groups, s, g))
  }

  lemma BucketsIgnoredStep(extra: Option<ExtraOptions>, groups: seq<GroupSlot>, s: seq<SortingNode>, n: SortingNode, buckets: map<nat, seq<SortingNode>>)
    requires BucketsOf(extra, groups, s, buckets) && Ignored(extra, n)
    ensures BucketsOf(extra, groups, s + [n], buckets)
  {
    forall g ensures Bucket(extra, groups, s + [n], g) == Bucket(extra, groups, s, g) {
      BucketSnoc(extra, groups, s, n, g);
    }
  }

  lemma BucketsPushStep(extra: Option<ExtraOptions>, groups: seq<GroupSlot>, s: seq<SortingNode>, n: SortingNode, buckets: map<nat, seq<SortingNode>>)
    requires BucketsOf(extra, groups, s, buckets) && !Ignored(extra, n)
    ensures var g := Rank(groups, n);
      BucketsOf(extra, groups, s + [n], buckets[g := (if g in buckets then buckets[g] else []) + [n]])
  {
    forall g ensures Bucket(extra, groups, s + [n], g)
      == if Rank(groups, n) == g then Bucket(extra, groups, s, g) + [n] else Bucket(extra, groups, s, g) {
      BucketSnoc(extra, groups, s, n, g);
    }
  }

  /**
   * The second loop: the dictionary's keys in ascending numeric order (written
   * as a scan of every possible group number that skips absent keys), each
   * bucket pushed unsorted when its compare options are null and sorted
   * otherwise.
   */
  method PushBuckets(nodes: seq<SortingNode>, options: Options, extra: Option<ExtraOptions>, buckets: map<nat, seq<SortingNode>>)
    returns (s: seq<SortingNode>)
    requires BucketsOf(extra, options.groups, nodes, buckets)
    ensures s == SortedNonIgnored(nodes, options, extra)
  {
    s := [];
    var g := 0;
    ghost var blocks := Blocks(nodes, options, extra);
    while g <= |options.groups|
      invariant 0 <= g <= |options.groups| + 1
      invariant s == Concat(blocks[..g])
    {
      ConcatTake(blocks, g);
      assert blocks[g] == SortedBucket(nodes, options, extra, g);
      s := PushBucket(nodes, options, extra, buckets, g, s);
      g := g + 1;
    }
    assert blocks[..g] == blocks;
  }

  /** One round of the second loop: bucket `g`, if present, pushed as sorted. */
  method PushBucket(nodes: seq<SortingNode>, options: Options, extra: Option<ExtraOptions>, buckets: map<nat, seq<SortingNode>>, g: nat, s: seq<SortingNode>)
    returns (r: seq<SortingNode>)
    requires BucketsOf(extra, options.groups, nodes, buckets)
    ensures r == s + SortedBucket(nodes, options, extra, g)
  {
    PushedBucket(nodes, options, extra, buckets, g);
    r := s;
    if g in buckets {
      var nodesToPush := buckets[g];
      var compareOptions := BucketComparator(options, extra, g);
      if compareOptions.NullOptions? {
        r := r + nodesToPush;
      } else {
        r := r + StableSort(nodesToPush, compareOptions.cmp);
      }
    }
  }

  /** What the second loop pushes for group number `g`: nothing for an absent key, else the entry as sorted. */
  lemma PushedBucket(nodes: seq<SortingNode>, options: Options, extra: Option<ExtraOptions>, buckets: map<nat, seq<SortingNode>>, g: nat)
    requires BucketsOf(extra, options.groups, nodes, buckets)
    ensures g !in buckets ==> SortedBucket(nodes, options, extra, g) == []
    ensures g in buckets ==>
      SortedBucket(nodes, options, extra, g)
      == (match BucketComparator(options, extra, g)
          case NullOptions => buckets[g]
          case CompareWith(cmp) => StableSort(buckets[g], cmp))
  {
  }

  /**
   * The third loop: each recorded index, ascending, gets its node spliced back
   * in. The splice never needs its clamp: every index is within the list built
   * so far.
   */
  method SpliceIgnored(nodes: seq<SortingNode>, extra: Option<ExtraOptions>, ignoredIdx: seq<nat>, s: seq<SortingNode>)
    returns (sorted: seq<SortingNode>)
    requires ignoredIdx == IgnoredIndices(extra, nodes)
    requires |s| == |NonIgnored(extra, nodes)|
    ensures sorted == Weave(extra, nodes, s)
  {
    NonIgnoredMembers(extra, nodes);
    sorted := s;
    var k := 0;
    ghost var q := 0;
    while k < |ignoredIdx|
      invariant 0 <= k <= |ignoredIdx|
      invariant q == if k == 0 then 0 else ignoredIdx[k - 1] + 1
      invariant q <= |nodes|
      invariant sorted == Weave(extra, nodes[..q], s)
    {
      var ignoredIndex := ignoredIdx[k];
      SpliceRound(extra, nodes, s, k, q);
      sorted := Splice(sorted, ignoredIndex, nodes[ignoredIndex]);
      q := ignoredIndex + 1;
      k := k + 1;
    }
    TailIsKept(extra, nodes, q);
    WeaveSkipKept(extra, nodes, s, q, |nodes|);
    assert nodes[..|nodes|] == nodes;
  }

  // ---------------------------------------------------------------------------
  // Filters

  lemma {:induction false} NonIgnoredConcat(extra: Option<ExtraOptions>, a: seq<SortingNode>, b: seq<SortingNode>)
    ensures NonIgnored(extra, a + b) == NonIgnored(extra, a) + NonIgnored(extra, b)
  {
    if a != [] {
      assert (a + b)[1..] == a[1..] + b;
      NonIgnoredConcat(extra, a[1..], b);
    } else {
      assert a + b == b;
    }
  }

  lemma {:induction false} BucketConcat(extra: Option<ExtraOptions>, groups: seq<GroupSlot>, a: seq<SortingNode>, b: seq<SortingNode>, g: nat)
    ensures Bucket(extra, groups, a + b, g) == Bucket(extra, groups, a, g) + Bucket(extra, groups, b, g)
  {
    if a != [] {
      var x, rest := a[0], a[1..];
      assert (a + b)[0] == x && (a + b)[1..] == rest + b;
      BucketConcat(extra, groups, rest, b, g);
      if !Ignored(extra, x) && Rank(groups, x) == g {
        assert Bucket(extra, groups, a + b, g) == [x] + Bucket(extra, groups, rest + b, g);
        assert Bucket(extra, groups, a, g) == [x] + Bucket(extra, groups, rest, g);
      } else {
        assert Bucket(extra, groups, a + b, g) == Bucket(extra, groups, rest + b, g);
        assert Bucket(extra, groups, a, g) == Bucket(extra, groups, rest, g);
      }
    } else {
      assert a + b == b;
    }
  }

  /** Appending a node extends exactly the bucket of its group number, unless it is ignored. */
  lemma BucketSnoc(extra: Option<ExtraOptions>, groups: seq<GroupSlot>, s: seq<SortingNode>, n: SortingNode, g: nat)
    ensures Bucket(extra, groups, s + [n], g)
         == if !Ignored(extra, n) && Rank(groups, n) == g then Bucket(extra, groups, s, g) + [n]
            else Bucket(extra, groups, s, g)
  {
    BucketConcat(extra, groups, s, [n], g);
    assert [n][1..] == [];
  }

  lemma IgnoredIndicesSnoc(extra: Option<ExtraOptions>, nodes: seq<SortingNode>, i: nat)
    requires i < |nodes|
    ensures IgnoredIndices(extra, nodes[..i + 1])
         == IgnoredIndices(extra, nodes[..i]) + (if Ignored(extra, nodes[i]) then [i] else [])
  {
    assert nodes[..i + 1][..i] == nodes[..i];
  }

  lemma {:induction false} NonIgnoredMembers(extra: Option<ExtraOptions>, s: seq<SortingNode>)
    ensures |NonIgnored(extra, s)| <= |s|
    ensures forall i :: 0 <= i < |NonIgnored(extra, s)| ==> !Ignored(extra, NonIgnored(extra, s)[i])
  {
    if s != [] {
      NonIgnoredMembers(extra, s[1..]);
    }
  }

  /** Bucket `g` holds only non-ignored nodes of group `g`. */
  lemma {:induction false} BucketMembers(extra: Option<ExtraOptions>, groups: seq<GroupSlot>, s: seq<SortingNode>, g: nat)
    ensures forall i :: 0 <= i < |Bucket(extra, groups, s, g)| ==>
      !Ignored(extra, Bucket(extra, groups, s, g)[i]) && Rank(groups, Bucket(extra, groups, s, g)[i]) == g
  {
    if s != [] {
      BucketMembers(extra, groups, s[1..], g);
    }
  }

  /** A prefix has no more non-ignored nodes than the whole list. */
  lemma PrefixNonIgnored(extra: Option<ExtraOptions>, s: seq<SortingNode>, p: nat)
    requires p <= |s|
    ensures |NonIgnored(extra, s[..p])| <= |NonIgnored(extra, s)|
  {
    NonIgnoredConcat(extra, s[..p], s[p..]);
    assert s[..p] + s[p..] == s;
  }

  /** Every node is either pinned or sorted. */
  lemma {:induction false} SplitIsPermutation(extra: Option<ExtraOptions>, s: seq<SortingNode>)
    ensures multiset(s) == multiset(Pinned(extra, s)) + multiset(NonIgnored(extra, s))
  {
    if s != [] {
      var x, rest := s[0], s[1..];
      SplitIsPermutation(extra, rest);
      assert s == [x] + rest;
      if Ignored(extra, x) {
        assert Pinned(extra, s) == [x] + Pinned(extra, rest);
        assert NonIgnored(extra, s) == NonIgnored(extra, rest);
        MultisetConsFirst(x, rest, Pinned(extra, rest), NonIgnored(extra, rest));
      } else {
        assert Pinned(extra, s) == Pinned(extra, rest);
        assert NonIgnored(extra, s) == [x] + NonIgnored(extra, rest);
        MultisetConsSecond(x, rest, Pinned(extra, rest), NonIgnored(extra, rest));
      }
    }
  }

  lemma {:induction false} BucketOfNonIgnored(extra: Option<ExtraOptions>, groups: seq<GroupSlot>, s: seq<SortingNode>, g: nat)
    ensures Bucket(extra, groups, NonIgnored(extra, s), g) == Bucket(extra, groups, s, g)
  {
    if s != [] {
      BucketOfNonIgnored(extra, groups, s[1..], g);
      var head := if Ignored(extra, s[0]) then [] else [s[0]];
      BucketConcat(extra, groups, head, NonIgnored(extra, s[1..]), g);
    }
  }

  /** A list whose nodes are all of group `g` is its own bucket `g`, and has no other bucket. */
  lemma {:induction false} BucketOfUniform(extra: Option<ExtraOptions>, groups: seq<GroupSlot>, s: seq<SortingNode>, g: nat, h: nat)
    requires forall i :: 0 <= i < |s| ==> !Ignored(extra, s[i]) && Rank(groups, s[i]) == g
    ensures Bucket(extra, groups, s, h) == if h == g then s else []
  {
    if s != [] {
      BucketOfUniform(extra, groups, s[1..], g, h);
    }
  }

  lemma {:induction false} BelowRankStep(extra: Option<ExtraOptions>, groups: seq<GroupSlot>, s: seq<SortingNode>, k: nat)
    requires k > 0
    ensures multiset(BelowRank(extra, groups, s, k))
         == multiset(BelowRank(extra, groups, s, k - 1)) + multiset(Bucket(extra, groups, s, k - 1))
  {
    if s != [] {
      BelowRankStep(extra, groups, s[1..], k);
    }
  }

  lemma {:induction false} BelowTopRank(extra: Option<ExtraOptions>, groups: seq<GroupSlot>, s: seq<SortingNode>)
    ensures BelowRank(extra, groups, s, |groups| + 1) == NonIgnored(extra, s)
  {
    if s != [] {
      BelowTopRank(extra, groups, s[1..]);
      GroupNumberIsFirstMatch(groups, s[0].group);
    }
  }

  // ---------------------------------------------------------------------------
  // The concatenated buckets

  /** Every node of a sorted bucket is a non-ignored node of that bucket's group. */
  lemma SortedBucketMembers(nodes: seq<SortingNode>, options: Options, extra: Option<ExtraOptions>, g: nat)
    ensures forall i :: 0 <= i < |SortedBucket(nodes, options, extra, g)| ==>
      !Ignored(extra, SortedBucket(nodes, options, extra, g)[i])
      && Rank(options.groups, SortedBucket(nodes, options, extra, g)[i]) == g
  {
    var r := SortedBucket(nodes, options, extra, g);
    var b := Bucket(extra, options.groups, nodes, g);
    BucketMembers(extra, options.groups, nodes, g);
    forall i | 0 <= i < |r| ensures !Ignored(extra, r[i]) && Rank(options.groups, r[i]) == g {
      assert r[i] in multiset(b);
      var j :| 0 <= j < |b| && b[j] == r[i];
    }
  }

  lemma {:induction false} BelowRankZero(extra: Option<ExtraOptions>, groups: seq<GroupSlot>, s: seq<SortingNode>)
    ensures BelowRank(extra, groups, s, 0) == []
  {
    if s != [] {
      BelowRankZero(extra, groups, s[1..]);
    }
  }

  /** Every entry of block `g` is a non-ignored node of group number `g`. */
  ghost predicate Graded(extra: Option<ExtraOptions>, groups: seq<GroupSlot>, blocks: seq<seq<SortingNode>>) {
    forall g, i :: 0 <= g < |blocks| && 0 <= i < |blocks[g]| ==>
      !Ignored(extra, blocks[g][i]) && Rank(groups, blocks[g][i]) == g
  }

  lemma GradedInit(extra: Option<ExtraOptions>, groups: seq<GroupSlot>, blocks: seq<seq<SortingNode>>)
    requires blocks != [] && Graded(extra, groups, blocks)
    ensures Graded(extra, groups, blocks[..|blocks| - 1])
  {
    var init := blocks[..|blocks| - 1];
    assert forall g :: 0 <= g < |init| ==> init[g] == blocks[g];
  }

  /** Blocks holding bucket `g` at index `g` hold, together, the non-ignored nodes below group `|blocks|`. */
  lemma {:induction false} ConcatMultiset(extra: Option<ExtraOptions>, groups: seq<GroupSlot>, nodes: seq<SortingNode>, blocks: seq<seq<SortingNode>>)
    requires forall g :: 0 <= g < |blocks| ==> multiset(blocks[g]) == multiset(Bucket(extra, groups, nodes, g))
    ensures multiset(Concat(blocks)) == multiset(BelowRank(extra, groups, nodes, |blocks|))
  {
    if blocks == [] {
      BelowRankZero(extra, groups, nodes);
    } else {
      var k := |blocks| - 1;
      var init := blocks[..k];
      forall g | 0 <= g < |init| ensures multiset(init[g]) == multiset(Bucket(extra, groups, nodes, g)) {
        assert init[g] == blocks[g];
      }
      ConcatMultiset(extra, groups, nodes, init);
      var below, bucket, next := BelowRank(extra, groups, nodes, k), Bucket(extra, groups, nodes, k), BelowRank(extra, groups, nodes, k + 1);
      BelowRankStep(extra, groups, nodes, k + 1);
      assert multiset(next) == multiset(below) + multiset(bucket);
      assert Concat(blocks) == Concat(init) + blocks[k];
      assert multiset(Concat(blocks)) == multiset(below) + multiset(bucket);
    }
  }

  /** Graded blocks, concatenated, hold only non-ignored nodes below group `|blocks|`. */
  lemma {:induction false} ConcatMembers(extra: Option<ExtraOptions>, groups: seq<GroupSlot>, blocks: seq<seq<SortingNode>>)
    requires Graded(extra, groups, blocks)
    ensures forall i :: 0 <= i < |Concat(blocks)| ==>
      !Ignored(extra, Concat(blocks)[i]) && Rank(groups, Concat(blocks)[i]) < |blocks|
  {
    if blocks != [] {
      var prev, last := Concat(blocks[..|blocks| - 1]), blocks[|blocks| - 1];
      GradedInit(extra, groups, blocks);
      ConcatMembers(extra, groups, blocks[..|blocks| - 1]);
      forall i | 0 <= i < |prev + last|
        ensures !Ignored(extra, (prev + last)[i]) && Rank(groups, (prev + last)[i]) < |blocks|
      {
        if i >= |prev| {
          assert (prev + last)[i] == last[i - |prev|];
        }
      }
    }
  }

  /** Group numbers ascend along graded blocks, concatenated. */
  lemma {:induction false} ConcatAscending(extra: Option<ExtraOptions>, groups: seq<GroupSlot>, blocks: seq<seq<SortingNode>>)
    requires Graded(extra, groups, blocks)
    ensures forall i, j :: 0 <= i < j < |Concat(blocks)| ==>
      Rank(groups, Concat(blocks)[i]) <= Rank(groups, Concat(blocks)[j])
  {
    if blocks != [] {
      var prev, last := Concat(blocks[..|blocks| - 1]), blocks[|blocks| - 1];
      GradedInit(extra, groups, blocks);
      ConcatAscending(extra, groups, blocks[..|blocks| - 1]);
      ConcatMembers(extra, groups, blocks[..|blocks| - 1]);
      forall i, j | 0 <= i < j < |prev + last|
        ensures Rank(groups, (prev + last)[i]) <= Rank(groups, (prev + last)[j])
      {
        if j >= |prev| {
          assert (prev + last)[j] == last[j - |prev|];
          if i >= |prev| {
            assert (prev + last)[i] == last[i - |prev|];
          }
        }
      }
    }
  }

  /** Bucket `g` of graded blocks, concatenated, is block `g`. */
  lemma {:induction false} ConcatBucket(extra: Option<ExtraOptions>, groups: seq<GroupSlot>, blocks: seq<seq<SortingNode>>, g: nat)
    requires Graded(extra, groups, blocks)
    ensures Bucket(extra, groups, Concat(blocks), g) == if g < |blocks| then blocks[g] else []
  {
    if blocks != [] {
      var k := |blocks| - 1;
      var init, last := blocks[..k], blocks[k];
      GradedInit(extra, groups, blocks);
      forall i | 0 <= i < |last| ensures !Ignored(extra, last[i]) && Rank(groups, last[i]) == k {
        assert last[i] == blocks[k][i];
      }
      ConcatBucket(extra, groups, init, g);
      var prev := if g < k then blocks[g] else [];
      assert g < k ==> init[g] == blocks[g];
      assert Concat(blocks) == Concat(init) + last;
      BucketConcatUniform(extra, groups, Concat(init), last, k, g, prev);
    }
  }

  /** Appending a block of group number `k` adds it to bucket `k` only. */
  lemma BucketConcatUniform(extra: Option<ExtraOptions>, groups: seq<GroupSlot>, c: seq<SortingNode>, last: seq<SortingNode>, k: nat, g: nat, prev: seq<SortingNode>)
    requires forall i :: 0 <= i < |last| ==> !Ignored(extra, last[i]) && Rank(groups, last[i]) == k
    requires Bucket(extra, groups, c, g) == prev
    requires g >= k ==> prev == []
    ensures Bucket(extra, groups, c + last, g) == if g == k then last else prev
  {
    BucketConcat(extra, groups, c, last, g);
    BucketOfUniform(extra, groups, last, k, g);
    if g == k { assert [] + last == last; } else { assert prev + [] == prev; }
  }

  /** The sorted buckets are graded. */
  lemma BlocksGraded(nodes: seq<SortingNode>, options: Options, extra: Option<ExtraOptions>)
    ensures Graded(extra, options.groups, Blocks(nodes, options, extra))
  {
    var blocks := Blocks(nodes, options, extra);
    forall g | 0 <= g < |blocks| {
      SortedBucketMembers(nodes, options, extra, g);
    }
  }

  /** No node has a group number above `|groups|`. */
  lemma {:induction false} BucketBeyondTop(extra: Option<ExtraOptions>, groups: seq<GroupSlot>, s: seq<SortingNode>, g: nat)
    requires g > |groups|
    ensures Bucket(extra, groups, s, g) == []
  {
    if s != [] {
      BucketBeyondTop(extra, groups, s[1..], g);
      GroupNumberIsFirstMatch(groups, s[0].group);
    }
  }

  /** The concatenated buckets are a permutation of the non-ignored nodes. */
  lemma SortedNonIgnoredIsPermutation(nodes: seq<SortingNode>, options: Options, extra: Option<ExtraOptions>)
    ensures multiset(SortedNonIgnored(nodes, options, extra)) == multiset(NonIgnored(extra, nodes))
    ensures |SortedNonIgnored(nodes, options, extra)| == |NonIgnored(extra, nodes)|
  {
    ConcatMultiset(extra, options.groups, nodes, Blocks(nodes, options, extra));
    BelowTopRank(extra, options.groups, nodes);
    var S := SortedNonIgnored(nodes, options, extra);
    assert |S| == |multiset(S)|;
    assert |NonIgnored(extra, nodes)| == |multiset(NonIgnored(extra, nodes))|;
  }

  // ---------------------------------------------------------------------------
  // Weaving the ignored nodes back

  /** A non-ignored position at the end takes a node from `s` that was already emitted last. */
  lemma {:induction false} WeaveSnocKept(extra: Option<ExtraOptions>, a: seq<SortingNode>, y: SortingNode, s: seq<SortingNode>)
    requires !Ignored(extra, y)
    ensures Weave(extra, a + [y], s) == Weave(extra, a, s)
    decreases |a|
  {
    if a == [] {
      assert [y][1..] == [];
      if s != [] { assert [s[0]] + s[1..] == s; }
    } else {
      assert (a + [y])[1..] == a[1..] + [y];
      if Ignored(extra, a[0]) || s == [] {
        WeaveSnocKept(extra, a[1..], y, s);
      } else {
        WeaveSnocKept(extra, a[1..], y, s[1..]);
      }
    }
  }

  /** The woven list has one entry per position plus what is left of `s`. */
  lemma {:induction false} WeaveLength(extra: Option<ExtraOptions>, a: seq<SortingNode>, s: seq<SortingNode>)
    requires |NonIgnored(extra, a)| <= |s|
    ensures |Weave(extra, a, s)| == |a| + |s| - |NonIgnored(extra, a)|
    decreases |a|
  {
    if a != [] {
      if Ignored(extra, a[0]) {
        WeaveLength(extra, a[1..], s);
      } else {
        WeaveLength(extra, a[1..], s[1..]);
      }
    }
  }

  /** An ignored position at the end is the splice of its node at that index. */
  lemma {:induction false} WeaveSnocIgnored(extra: Option<ExtraOptions>, a: seq<SortingNode>, y: SortingNode, s: seq<SortingNode>)
    requires Ignored(extra, y)
    requires |a| <= |Weave(extra, a, s)|
    requires |NonIgnored(extra, a)| <= |s|
    ensures Weave(extra, a + [y], s)
         == Weave(extra, a, s)[..|a|] + [y] + Weave(extra, a, s)[|a|..]
    decreases |a|, 1
  {
    if a == [] {
      assert [y][1..] == [];
      assert Weave(extra, [y], s) == [y] + s;
    } else if Ignored(extra, a[0]) {
      WeaveSnocIgnoredPinned(extra, a, y, s);
    } else {
      WeaveSnocIgnoredKept(extra, a, y, s);
    }
  }

  /** `WeaveSnocIgnored` when the first position is pinned. */
  lemma {:induction false} WeaveSnocIgnoredPinned(extra: Option<ExtraOptions>, a: seq<SortingNode>, y: SortingNode, s: seq<SortingNode>)
    requires Ignored(extra, y) && a != [] && Ignored(extra, a[0])
    requires |a| <= |Weave(extra, a, s)|
    requires |NonIgnored(extra, a)| <= |s|
    ensures Weave(extra, a + [y], s)
         == Weave(extra, a, s)[..|a|] + [y] + Weave(extra, a, s)[|a|..]
    decreases |a|, 0
  {
    var x, rest := a[0], a[1..];
    assert (a + [y])[1..] == rest + [y];
    var w, w2 := Weave(extra, rest, s), Weave(extra, rest + [y], s);
    assert Weave(extra, a + [y], s) == [x] + w2;
    assert Weave(extra, a, s) == [x] + w;
    assert NonIgnored(extra, a) == NonIgnored(extra, rest);
    WeaveLength(extra, rest, s);
    WeaveSnocIgnored(extra, rest, y, s);
    ConsSplice(x, w, w2, |rest|, y);
  }

  /** `WeaveSnocIgnored` when the first position takes the next sorted node. */
  lemma {:induction false} WeaveSnocIgnoredKept(extra: Option<ExtraOptions>, a: seq<SortingNode>, y: SortingNode, s: seq<SortingNode>)
    requires Ignored(extra, y) && a != [] && !Ignored(extra, a[0])
    requires |a| <= |Weave(extra, a, s)|
    requires |NonIgnored(extra, a)| <= |s|
    ensures Weave(extra, a + [y], s)
         == Weave(extra, a, s)[..|a|] + [y] + Weave(extra, a, s)[|a|..]
    decreases |a|, 0
  {
    var rest := a[1..];
    assert NonIgnored(extra, a) == [a[0]] + NonIgnored(extra, rest);
    assert s != [];
    var x, tail := s[0], s[1..];
    assert (a + [y])[1..] == rest + [y];
    var w, w2 := Weave(extra, rest, tail), Weave(extra, rest + [y], tail);
    assert Weave(extra, a + [y], s) == [x] + w2;
    assert Weave(extra, a, s) == [x] + w;
    WeaveLength(extra, rest, tail);
    WeaveSnocIgnored(extra, rest, y, tail);
    ConsSplice(x, w, w2, |rest|, y);
  }

  /** A splice at `k` seen through one more element in front is a splice at `k + 1`. */
  lemma ConsSplice<T>(x: T, w: seq<T>, w2: seq<T>, k: nat, y: T)
    requires k <= |w| && w2 == w[..k] + [y] + w[k..]
    ensures [x] + w2 == ([x] + w)[..k + 1] + [y] + ([x] + w)[k + 1..]
  {
    assert ([x] + w)[..k + 1] == [x] + w[..k];
    assert ([x] + w)[k + 1..] == w[k..];
  }

  lemma {:induction false} WeaveSkipKept(extra: Option<ExtraOptions>, ns: seq<SortingNode>, s: seq<SortingNode>, q: nat, p: nat)
    requires q <= p <= |ns|
    requires forall j :: q <= j < p ==> !Ignored(extra, ns[j])
    ensures Weave(extra, ns[..p], s) == Weave(extra, ns[..q], s)
    decreases p - q
  {
    if q < p {
      WeaveSkipKept(extra, ns, s, q, p - 1);
      assert ns[..p] == ns[..p - 1] + [ns[p - 1]];
      WeaveSnocKept(extra, ns[..p - 1], ns[p - 1], s);
    }
  }

  /** Between two consecutive ignored indices every node is sorted. */
  lemma GapIsKept(extra: Option<ExtraOptions>, nodes: seq<SortingNode>, k: nat)
    requires k < |IgnoredIndices(extra, nodes)|
    ensures var idx := IgnoredIndices(extra, nodes);
      (if k == 0 then 0 else idx[k - 1] + 1) <= idx[k] < |nodes| && Ignored(extra, nodes[idx[k]])
      && forall j :: (if k == 0 then 0 else idx[k - 1] + 1) <= j < idx[k] ==> !Ignored(extra, nodes[j])
  {
    var idx := IgnoredIndices(extra, nodes);
    IgnoredIndicesSpec(extra, nodes);
    var q := if k == 0 then 0 else idx[k - 1] + 1;
    forall j | q <= j < idx[k] ensures !Ignored(extra, nodes[j]) {
      forall m | 0 <= m < |idx| ensures idx[m] != j {
        if m < k { assert idx[m] <= idx[k - 1]; } else { assert idx[m] >= idx[k]; }
      }
      assert j !in idx;
    }
  }

  /** The recorded indices ascend, each names an ignored node, and every ignored node is recorded. */
  lemma {:induction false} IgnoredIndicesSpec(extra: Option<ExtraOptions>, s: seq<SortingNode>)
    ensures forall a, b :: 0 <= a < b < |IgnoredIndices(extra, s)| ==> IgnoredIndices(extra, s)[a] < IgnoredIndices(extra, s)[b]
    ensures forall m :: 0 <= m < |IgnoredIndices(extra, s)| ==>
      IgnoredIndices(extra, s)[m] < |s| && Ignored(extra, s[IgnoredIndices(extra, s)[m]])
    ensures forall j :: 0 <= j < |s| && Ignored(extra, s[j]) ==> j in IgnoredIndices(extra, s)
  {
    if s != [] {
      var init := s[..|s| - 1];
      IgnoredIndicesSpec(extra, init);
      var n := |s| - 1;
      var prev := IgnoredIndices(extra, init);
      forall j | 0 <= j < n ensures init[j] == s[j] { }
      IgnoredIndicesStep(extra, s, prev, prev + (if Ignored(extra, s[n]) then [n] else []));
    }
  }

  /** The indices recorded for all but the last node, extended by the last node's. */
  lemma IgnoredIndicesStep(extra: Option<ExtraOptions>, s: seq<SortingNode>, prev: seq<nat>, idx: seq<nat>)
    requires s != [] && idx == prev + (if Ignored(extra, s[|s| - 1]) then [|s| - 1] else [])
    requires forall a, b :: 0 <= a < b < |prev| ==> prev[a] < prev[b]
    requires forall m :: 0 <= m < |prev| ==> prev[m] < |s| - 1 && Ignored(extra, s[prev[m]])
    requires forall j :: 0 <= j < |s| - 1 && Ignored(extra, s[j]) ==> j in prev
    ensures forall a, b :: 0 <= a < b < |idx| ==> idx[a] < idx[b]
    ensures forall m :: 0 <= m < |idx| ==> idx[m] < |s| && Ignored(extra, s[idx[m]])
    ensures forall j :: 0 <= j < |s| && Ignored(extra, s[j]) ==> j in idx
  {
    var n := |s| - 1;
    forall a, b | 0 <= a < b < |idx| ensures idx[a] < idx[b] {
      assert idx[a] == prev[a];
      if b < |prev| { assert idx[b] == prev[b]; } else { assert idx[b] == n; }
    }
    forall m | 0 <= m < |idx| ensures idx[m] < |s| && Ignored(extra, s[idx[m]]) {
      if m < |prev| { assert idx[m] == prev[m]; } else { assert idx[m] == n; }
    }
    forall j | 0 <= j < |s| && Ignored(extra, s[j]) ensures j in idx {
      if j < n {
        assert j in prev;
      } else {
        assert idx[|idx| - 1] == n;
      }
    }
  }

  lemma {:induction false} NoIgnoredIndices(extra: Option<ExtraOptions>, s: seq<SortingNode>)
    requires forall i :: 0 <= i < |s| ==> !Ignored(extra, s[i])
    ensures IgnoredIndices(extra, s) == []
  {
    if s != [] {
      NoIgnoredIndices(extra, s[..|s| - 1]);
    }
  }

  /**
   * One round of the third loop: when only kept nodes lie between `q` and the
   * ignored node at `p`, splicing it at `p` extends the weave from `q` to `p + 1`.
   */
  lemma SpliceStep(extra: Option<ExtraOptions>, nodes: seq<SortingNode>, s: seq<SortingNode>, q: nat, p: nat)
    requires q <= p < |nodes| && Ignored(extra, nodes[p])
    requires forall j :: q <= j < p ==> !Ignored(extra, nodes[j])
    requires |s| == |NonIgnored(extra, nodes)|
    ensures Weave(extra, nodes[..p + 1], s) == Splice(Weave(extra, nodes[..q], s), p, nodes[p])
  {
    WeaveSkipKept(extra, nodes, s, q, p);
    PrefixNonIgnored(extra, nodes, p);
    WeaveLength(extra, nodes[..p], s);
    assert nodes[..p + 1] == nodes[..p] + [nodes[p]];
    WeaveSnocIgnored(extra, nodes[..p], nodes[p], s);
  }

  /** Round `k` of the third loop, from the position after the previous ignored index. */
  lemma SpliceRound(extra: Option<ExtraOptions>, nodes: seq<SortingNode>, s: seq<SortingNode>, k: nat, q: nat)
    requires k < |IgnoredIndices(extra, nodes)|
    requires q == if k == 0 then 0 else IgnoredIndices(extra, nodes)[k - 1] + 1
    requires |s| == |NonIgnored(extra, nodes)|
    ensures var p := IgnoredIndices(extra, nodes)[k];
      q <= p < |nodes| && Weave(extra, nodes[..p + 1], s) == Splice(Weave(extra, nodes[..q], s), p, nodes[p])
  {
    GapIsKept(extra, nodes, k);
    SpliceStep(extra, nodes, s, q, IgnoredIndices(extra, nodes)[k]);
  }

  /** After the last ignored index every node is sorted. */
  lemma TailIsKept(extra: Option<ExtraOptions>, nodes: seq<SortingNode>, q: nat)
    requires var idx := IgnoredIndices(extra, nodes);
      q == if |idx| == 0 then 0 else idx[|idx| - 1] + 1
    ensures q <= |nodes|
    ensures forall j :: q <= j < |nodes| ==> !Ignored(extra, nodes[j])
  {
    var idx := IgnoredIndices(extra, nodes);
    IgnoredIndicesSpec(extra, nodes);
    forall j | q <= j < |nodes| ensures !Ignored(extra, nodes[j]) {
      forall m | 0 <= m < |idx| ensures idx[m] != j {
        assert idx[m] <= idx[|idx| - 1];
      }
      assert j !in idx;
    }
  }

  /** Weaving emits every pinned node and every node of `s`, each once. */
  lemma {:induction false} WeaveMultiset(extra: Option<ExtraOptions>, ns: seq<SortingNode>, s: seq<SortingNode>)
    ensures multiset(Weave(extra, ns, s)) == multiset(Pinned(extra, ns)) + multiset(s)
    decreases |ns|
  {
    if ns != [] {
      var x, rest := ns[0], ns[1..];
      if Ignored(extra, x) {
        WeaveMultiset(extra, rest, s);
        assert Weave(extra, ns, s) == [x] + Weave(extra, rest, s);
        assert Pinned(extra, ns) == [x] + Pinned(extra, rest);
        MultisetConsFirst(x, Weave(extra, rest, s), Pinned(extra, rest), s);
      } else if s == [] {
        WeaveMultiset(extra, rest, s);
        assert Weave(extra, ns, s) == Weave(extra, rest, s);
        assert Pinned(extra, ns) == Pinned(extra, rest);
      } else {
        var y, tail := s[0], s[1..];
        WeaveMultiset(extra, rest, tail);
        assert Weave(extra, ns, s) == [y] + Weave(extra, rest, tail);
        assert Pinned(extra, ns) == Pinned(extra, rest);
        assert s == [y] + tail;
        MultisetConsSecond(y, Weave(extra, rest, tail), Pinned(extra, rest), tail);
      }
    }
  }

  /** Reading the woven list's non-ignored nodes gives back `s`. */
  lemma {:induction false} WeaveNonIgnored(extra: Option<ExtraOptions>, ns: seq<SortingNode>, s: seq<SortingNode>)
    requires forall i :: 0 <= i < |s| ==> !Ignored(extra, s[i])
    ensures NonIgnored(extra, Weave(extra, ns, s)) == s
    decreases |ns|
  {
    if ns == [] {
      NonIgnoredOfClean(extra, s);
    } else if Ignored(extra, ns[0]) {
      WeaveNonIgnored(extra, ns[1..], s);
    } else if s == [] {
      WeaveNonIgnored(extra, ns[1..], s);
    } else {
      WeaveNonIgnored(extra, ns[1..], s[1..]);
    }
  }

  lemma {:induction false} NonIgnoredOfClean(extra: Option<ExtraOptions>, s: seq<SortingNode>)
    requires forall i :: 0 <= i < |s| ==> !Ignored(extra, s[i])
    ensures NonIgnored(extra, s) == s
  {
    if s != [] {
      NonIgnoredOfClean(extra, s[1..]);
    }
  }

  /**
   * With exactly enough nodes in `s`, every ignored node keeps its index and
   * every other index receives a non-ignored node.
   */
  lemma {:induction false} WeavePositions(extra: Option<ExtraOptions>, ns: seq<SortingNode>, s: seq<SortingNode>)
    requires |NonIgnored(extra, ns)| == |s|
    requires forall i :: 0 <= i < |s| ==> !Ignored(extra, s[i])
    ensures |Weave(extra, ns, s)| == |ns|
    ensures forall i :: 0 <= i < |ns| ==>
      if Ignored(extra, ns[i]) then Weave(extra, ns, s)[i] == ns[i] else !Ignored(extra, Weave(extra, ns, s)[i])
    decreases |ns|
  {
    WeaveLength(extra, ns, s);
    if ns != [] {
      var w := Weave(extra, ns, s);
      if Ignored(extra, ns[0]) {
        WeavePositions(extra, ns[1..], s);
        assert w[1..] == Weave(extra, ns[1..], s);
      } else {
        WeavePositions(extra, ns[1..], s[1..]);
        assert w[1..] == Weave(extra, ns[1..], s[1..]);
      }
    }
  }

  lemma {:induction false} WeaveNothingIgnored(extra: Option<ExtraOptions>, ns: seq<SortingNode>, s: seq<SortingNode>)
    requires forall i :: 0 <= i < |ns| ==> !Ignored(extra, ns[i])
    requires |ns| == |s|
    ensures Weave(extra, ns, s) == s
    decreases |ns|
  {
    if ns != [] {
      WeaveNothingIgnored(extra, ns[1..], s[1..]);
      assert s == [s[0]] + s[1..];
    }
  }

  // ---------------------------------------------------------------------------
  // What sortNodesByGroups promises

  /** The result is a permutation of the input. */
  lemma SortedByGroupsIsPermutation(nodes: seq<SortingNode>, options: Options, extra: Option<ExtraOptions>)
    ensures multiset(SortedByGroups(nodes, options, extra)) == multiset(nodes)
  {
    SortedNonIgnoredIsPermutation(nodes, options, extra);
    WeaveMultiset(extra, nodes, SortedNonIgnored(nodes, options, extra));
    SplitIsPermutation(extra, nodes);
  }

  /**
   * The result has the input's length, every ignored node is at its original
   * index, and every other index holds a node that is not ignored.
   */
  lemma SortedByGroupsPinsIgnored(nodes: seq<SortingNode>, options: Options, extra: Option<ExtraOptions>)
    ensures |SortedByGroups(nodes, options, extra)| == |nodes|
    ensures forall i :: 0 <= i < |nodes| && Ignored(extra, nodes[i]) ==> SortedByGroups(nodes, options, extra)[i] == nodes[i]
    ensures forall i :: 0 <= i < |nodes| ==>
      (Ignored(extra, SortedByGroups(nodes, options, extra)[i]) <==> Ignored(extra, nodes[i]))
  {
    var S := SortedNonIgnored(nodes, options, extra);
    SortedNonIgnoredIsPermutation(nodes, options, extra);
    BlocksGraded(nodes, options, extra);
    ConcatMembers(extra, options.groups, Blocks(nodes, options, extra));
    WeavePositions(extra, nodes, S);
  }

  /**
   * Read in order, the result's non-ignored nodes are the concatenated sorted
   * buckets, and their group numbers ascend: each group forms one contiguous
   * block, blocks in ascending group order.
   */
  lemma SortedByGroupsBlocks(nodes: seq<SortingNode>, options: Options, extra: Option<ExtraOptions>)
    ensures NonIgnored(extra, SortedByGroups(nodes, options, extra)) == SortedNonIgnored(nodes, options, extra)
    ensures forall i, j :: 0 <= i < j < |NonIgnored(extra, SortedByGroups(nodes, options, extra))| ==>
      Rank(options.groups, NonIgnored(extra, SortedByGroups(nodes, options, extra))[i])
      <= Rank(options.groups, NonIgnored(extra, SortedByGroups(nodes, options, extra))[j])
  {
    var S := SortedNonIgnored(nodes, options, extra);
    BlocksGraded(nodes, options, extra);
    ConcatMembers(extra, options.groups, Blocks(nodes, options, extra));
    ConcatAscending(extra, options.groups, Blocks(nodes, options, extra));
    WeaveNonIgnored(extra, nodes, S);
  }

  /** The result's group-`g` nodes, in order, are bucket `g` as sorted (or left) for that group. */
  lemma SortedByGroupsBucket(nodes: seq<SortingNode>, options: Options, extra: Option<ExtraOptions>, g: nat)
    ensures Bucket(extra, options.groups, SortedByGroups(nodes, options, extra), g) == SortedBucket(nodes, options, extra, g)
  {
    var S := SortedNonIgnored(nodes, options, extra);
    var R := SortedByGroups(nodes, options, extra);
    BlocksGraded(nodes, options, extra);
    ConcatMembers(extra, options.groups, Blocks(nodes, options, extra));
    WeaveNonIgnored(extra, nodes, S);
    BucketOfNonIgnored(extra, options.groups, R, g);
    ConcatBucket(extra, options.groups, Blocks(nodes, options, extra), g);
    if g > |options.groups| {
      BucketBeyondTop(extra, options.groups, nodes, g);
    }
  }

  /** A group whose compare options are null keeps its nodes in input order. */
  lemma NullOptionsKeepOrder(nodes: seq<SortingNode>, options: Options, extra: Option<ExtraOptions>, g: nat)
    requires extra.Some? && extra.value.getGroupCompareOptions.GetGroupCompareOptions?
    requires extra.value.getGroupCompareOptions.get(g).NullOptions?
    ensures Bucket(extra, options.groups, SortedByGroups(nodes, options, extra), g)
         == Bucket(extra, options.groups, nodes, g)
  {
    SortedByGroupsBucket(nodes, options, extra, g);
  }

  /**
   * Without `getGroupCompareOptions` every group's nodes are its bucket sorted
   * with the shared options, in order when the comparator is a total preorder.
   */
  lemma SharedOptionsSortEachBucket(nodes: seq<SortingNode>, options: Options, extra: Option<ExtraOptions>, g: nat)
    requires extra.None? || extra.value.getGroupCompareOptions.NoCompareCallback?
    ensures Bucket(extra, options.groups, SortedByGroups(nodes, options, extra), g)
         == StableSort(Bucket(extra, options.groups, nodes, g), options.compare)
    ensures TotalPreorder(options.compare) ==>
      SortedBy(Bucket(extra, options.groups, SortedByGroups(nodes, options, extra), g), options.compare)
  {
    SortedByGroupsBucket(nodes, options, extra, g);
    if TotalPreorder(options.compare) {
      StableSortSorted(Bucket(extra, options.groups, nodes, g), options.compare);
    }
  }

  /**
   * The grouped sort is stable: when group `g` is sorted with a total
   * preorder, its nodes that tie with any `x` keep their input order.
   */
  lemma SortedByGroupsIsStable(nodes: seq<SortingNode>, options: Options, extra: Option<ExtraOptions>, g: nat, x: SortingNode)
    requires BucketComparator(options, extra, g).CompareWith?
    requires TotalPreorder(BucketComparator(options, extra, g).cmp)
    ensures var cmp := BucketComparator(options, extra, g).cmp;
      Ties(Bucket(extra, options.groups, SortedByGroups(nodes, options, extra), g), x, cmp)
      == Ties(Bucket(extra, options.groups, nodes, g), x, cmp)
  {
    SortedByGroupsBucket(nodes, options, extra, g);
    StableSortKeepsTies(Bucket(extra, options.groups, nodes, g), x, BucketComparator(options, extra, g).cmp);
  }

  /** With neither ignore option nothing is set aside and the result is the concatenated buckets. */
  lemma {:induction false} NothingIgnoredWithoutIgnoreOptions(nodes: seq<SortingNode>, options: Options, extra: Option<ExtraOptions>)
    requires extra.None? || (!extra.value.ignoreEslintDisabledNodes && extra.value.isNodeIgnored.NoIgnoreCallback?)
    ensures IgnoredIndices(extra, nodes) == []
    ensures SortedByGroups(nodes, options, extra) == SortedNonIgnored(nodes, options, extra)
  {
    NoIgnoredIndices(extra, nodes);
    SortedNonIgnoredIsPermutation(nodes, options, extra);
    NonIgnoredOfClean(extra, nodes);
    WeaveNothingIgnored(extra, nodes, SortedNonIgnored(nodes, options, extra));
  }
}
