/**
 * The source range a node occupies when it is moved (get-node-range.ts): the
 * node itself, widened to its parentheses, and up to the top of the run of
 * comments attached directly above it.
 */
module NodeRange {
  import opened Common

  /** A `[start, end]` character range. */
  datatype Range = Range(start: int, end: int)

  /**
   * A comment before the node: its text, the lines it starts and ends on, and
   * its first character.
   */
  datatype Comment = Comment(value: string, startLine: int, endLine: int, start: int)

  /**
   * The node: its own range, the line it starts on, and, when it is
   * parenthesised, the range from its opening to its closing parenthesis.
   */
  datatype SourceNode = SourceNode(range: Range, startLine: int, parentheses: Option<Range>)

  /** The `partitionByComment` option. */
  datatype PartitionByComment = Flag(enabled: bool) | Pattern(pattern: string) | Patterns(patterns: seq<string>)

  /** The directive `getEslintDisabledRules` finds in a comment. */
  datatype Directive = EslintDisable | EslintEnable | EslintDisableLine | EslintDisableNextLine

  /**
   * Whether a comment stops the scan: it is a partition comment, or an
   * `eslint-disable` or `eslint-enable` directive. `isPartitionComment` and
   * the directive parser are parameters.
   */
  predicate StopsScan(isPartitionComment: (PartitionByComment, string) -> bool, partitionComment: PartitionByComment,
                      eslintDirective: string -> Option<Directive>, comment: Comment) {
    || isPartitionComment(partitionComment, comment.value)
    || eslintDirective(comment.value) == Some(EslintDisable)
    || eslintDirective(comment.value) == Some(EslintEnable)
  }

  /** `additionalOptions?.partitionByComment ?? false`. */
  function PartitionSetting(partitionByComment: Option<PartitionByComment>): PartitionByComment {
    if partitionByComment.Some? then partitionByComment.value else Flag(false)
  }

  /** The range before comments are considered: the node's own, or its parentheses'. */
  function BaseRange(node: SourceNode): Range {
    if node.parentheses.Some? then node.parentheses.value else node.range
  }

  /**
   * How many comments, counted from the bottom, are attached: each must not
   * stop the scan and must end on the line just above the line `below`
   * starts on (first the node's, then the comment attached before it).
   */
  function Attached(comments: seq<Comment>, below: int, stops: Comment -> bool): (k: nat)
    ensures k <= |comments|
  {
    if comments == [] then 0
    else
      var c := comments[|comments| - 1];
      if stops(c) || c.endLine != below - 1 then 0
      else 1 + Attached(comments[..|comments| - 1], c.startLine, stops)
  }

  /** The range `getNodeRange` returns. */
  function NodeRangeOf(node: SourceNode, comments: seq<Comment>, stops: Comment -> bool): Range {
    var k := Attached(comments, node.startLine, stops);
    var base := BaseRange(node);
    if k > 0 then Range(comments[|comments| - k].start, base.end) else base
  }

  /**
   * `getNodeRange`: the parenthesis widening, then the scan from the comment
   * nearest the node upward, remembering the topmost attached comment.
   */
  method GetNodeRange(node: SourceNode, comments: seq<Comment>, partitionByComment: Option<PartitionByComment>,
                      isPartitionComment: (PartitionByComment, string) -> bool, eslintDirective: string -> Option<Directive>)
    returns (r: Range)
    ensures r == NodeRangeOf(node, comments, c => StopsScan(isPartitionComment, PartitionSetting(partitionByComment), eslintDirective, c))
    ensures r.end == BaseRange(node).end
  {
    var start := node.range.start;
    var end := node.range.end;
    if node.parentheses.Some? {
      start := node.parentheses.value.start;
      end := node.parentheses.value.end;
    }
    var partitionComment := PartitionSetting(partitionByComment);
    ghost var stops := c => StopsScan(isPartitionComment, partitionComment, eslintDirective, c);
    var relevantTopComment: Option<Comment> := None;
    var i := |comments| - 1;
    assert comments[..i + 1] == comments;
    while i >= 0
      invariant -1 <= i < |comments|
      invariant Attached(comments, node.startLine, stops)
             == (|comments| - 1 - i) + Attached(comments[..i + 1], LineBelow(comments, node.startLine, i), stops)
      invariant relevantTopComment == if i == |comments| - 1 then None else Some(comments[i + 1])
    {
      var comment := comments[i];
      assert comments[..i + 1][..i] == comments[..i];
      if isPartitionComment(partitionComment, comment.value)
         || eslintDirective(comment.value) == Some(EslintDisable)
         || eslintDirective(comment.value) == Some(EslintEnable) {
        break;
      }
      var previousCommentOrNodeStartLine := if i == |comments| - 1 then node.startLine else comments[i + 1].startLine;
      if comment.endLine != previousCommentOrNodeStartLine - 1 {
        break;
      }
      relevantTopComment := Some(comment);
      i := i - 1;
    }
    if relevantTopComment.Some? {
      start := relevantTopComment.value.start;
    }
    return Range(start, end);
  }

  /** The line the comment at `i` must end just above: the node's, or the next comment's. */
  function LineBelow(comments: seq<Comment>, nodeStartLine: int, i: int): int
    requires -1 <= i < |comments|
  {
    if i == |comments| - 1 then nodeStartLine else comments[i + 1].startLine
  }

  /** The comment at `j` may be attached: it does not stop the scan and ends just above what follows it. */
  predicate Attachable(comments: seq<Comment>, nodeStartLine: int, stops: Comment -> bool, j: int)
    requires 0 <= j < |comments|
  {
    !stops(comments[j]) && comments[j].endLine == LineBelow(comments, nodeStartLine, j) - 1
  }

  /**
   * The attached comments are the longest contiguous run, ending at the
   * comment nearest the node, of attachable comments: all of the last `k` are
   * attachable, and the one above them, if any, is not.
   */
  lemma {:induction false} AttachedIsLongestRun(comments: seq<Comment>, nodeStartLine: int, stops: Comment -> bool)
    ensures var k := Attached(comments, nodeStartLine, stops);
      && (forall j :: |comments| - k <= j < |comments| ==> Attachable(comments, nodeStartLine, stops, j))
      && (k < |comments| ==> !Attachable(comments, nodeStartLine, stops, |comments| - k - 1))
  {
    if comments != [] {
      var n := |comments|;
      var c := comments[n - 1];
      if !(stops(c) || c.endLine != nodeStartLine - 1) {
        var init := comments[..n - 1];
        AttachedIsLongestRun(init, c.startLine, stops);
        var k := Attached(comments, nodeStartLine, stops);
        forall j | 0 <= j < n - 1
          ensures Attachable(init, c.startLine, stops, j) == Attachable(comments, nodeStartLine, stops, j)
        {
          assert init[j] == comments[j];
          if j < n - 2 { assert init[j + 1] == comments[j + 1]; }
        }
      }
    }
  }

  /** Any `k` with the longest-run property is the number of attached comments. */
  lemma {:induction false} LongestRunIsAttached(comments: seq<Comment>, nodeStartLine: int, stops: Comment -> bool, k: nat)
    requires k <= |comments|
    requires forall j :: |comments| - k <= j < |comments| ==> Attachable(comments, nodeStartLine, stops, j)
    requires k < |comments| ==> !Attachable(comments, nodeStartLine, stops, |comments| - k - 1)
    ensures Attached(comments, nodeStartLine, stops) == k
  {
    var n := |comments|;
    if k > 0 {
      var c := comments[n - 1];
      var init := comments[..n - 1];
      assert Attachable(comments, nodeStartLine, stops, n - 1);
      forall j | 0 <= j < n - 1
        ensures Attachable(init, c.startLine, stops, j) == Attachable(comments, nodeStartLine, stops, j)
      {
        assert init[j] == comments[j];
        if j < n - 2 { assert init[j + 1] == comments[j + 1]; }
      }
      LongestRunIsAttached(init, c.startLine, stops, k - 1);
    } else if n > 0 {
      assert !Attachable(comments, nodeStartLine, stops, n - 1);
    }
  }

  /**
   * The comment scan never moves the end; without an attached comment the
   * range is the node's own (or its parentheses'); otherwise it starts at the
   * topmost attached comment.
   */
  lemma NodeRangeSpec(node: SourceNode, comments: seq<Comment>, stops: Comment -> bool)
    ensures var r := NodeRangeOf(node, comments, stops);
      var k := Attached(comments, node.startLine, stops);
      && r.end == BaseRange(node).end
      && (k == 0 && node.parentheses.None? ==> r == node.range)
      && (k == 0 && node.parentheses.Some? ==> r == node.parentheses.value)
      && (k > 0 ==> r.start == comments[|comments| - k].start)
  {
  }
}
