/**
 * The name of a union or intersection member (sort-union-types/compute-node-name.ts):
 * its source text with one leading `&` or `|` separator, and the
 * whitespace around it, removed.
 */
module UnionNodeName {
  import opened Strings

  /** The kinds of type node the naming distinguishes. */
  datatype TypeKind = UnionType | IntersectionType | OtherType

  /** The number of leading characters matched by `\s*`. */
  function LeadingWhitespace(s: string): (n: nat)
    ensures n <= |s|
    ensures forall i :: 0 <= i < n ==> IsWhitespace(s[i])
    ensures n < |s| ==> !IsWhitespace(s[n])
  {
    if s == [] || !IsWhitespace(s[0]) then 0 else 1 + LeadingWhitespace(s[1..])
  }

  /** `text.replace(/^\s*[&|]\s*\/u, '')`: the match is anchored, so at most one prefix goes. */
  function StripLeadingSeparator(text: string): string {
    var i := LeadingWhitespace(text);
    if i < |text| && (text[i] == '&' || text[i] == '|') then
      var rest := text[i + 1..];
      rest[LeadingWhitespace(rest)..]
    else text
  }

  /** `computeNodeName`, with the member's source text given. */
  function ComputeNodeName(kind: TypeKind, text: string): string {
    if kind != UnionType && kind != IntersectionType then text else StripLeadingSeparator(text)
  }

  /**
   * The name is always a suffix of the text; text that does not start with a
   * separator after optional whitespace is kept; when a separator is removed,
   * so is all whitespace around it, and what went before it was whitespace.
   */
  lemma StripLeadingSeparatorSpec(text: string)
    ensures var r := StripLeadingSeparator(text);
      var i := LeadingWhitespace(text);
      && EndsWith(text, r)
      && (!(i < |text| && (text[i] == '&' || text[i] == '|')) ==> r == text)
      && (i < |text| && (text[i] == '&' || text[i] == '|') ==>
            && |r| < |text|
            && (r == [] || !IsWhitespace(r[0]))
            && (forall j :: 0 <= j < i ==> IsWhitespace(text[j]))
            && (forall j :: i < j < |text| - |r| ==> IsWhitespace(text[j])))
  {
    var i := LeadingWhitespace(text);
    if i < |text| && (text[i] == '&' || text[i] == '|') {
      SeparatorRemoved(text, i);
    } else {
      assert StripLeadingSeparator(text) == text;
      assert text[|text| - |text|..] == text;
    }
  }

  /** The separator case: the name is the text after the separator and its trailing whitespace. */
  lemma SeparatorRemoved(text: string, i: nat)
    requires i == LeadingWhitespace(text) && i < |text| && (text[i] == '&' || text[i] == '|')
    ensures var r := StripLeadingSeparator(text);
      && EndsWith(text, r)
      && |r| < |text|
      && (r == [] || !IsWhitespace(r[0]))
      && (forall j :: i < j < |text| - |r| ==> IsWhitespace(text[j]))
  {
    var rest := text[i + 1..];
    var w := LeadingWhitespace(rest);
    var r := rest[w..];
    assert StripLeadingSeparator(text) == r;
    RemovedFacts(text, i, rest, w, r);
  }

  lemma RemovedFacts(text: string, i: nat, rest: string, w: nat, r: string)
    requires i < |text| && rest == text[i + 1..] && w == LeadingWhitespace(rest) && r == rest[w..]
    ensures EndsWith(text, r)
    ensures |r| < |text|
    ensures r == [] || !IsWhitespace(r[0])
    ensures forall j :: i < j < |text| - |r| ==> IsWhitespace(text[j])
  {
    assert |text| - |r| == i + 1 + w;
    assert text[i + 1 + w..] == r;
    forall j | i < j < i + 1 + w ensures IsWhitespace(text[j]) {
      assert text[j] == rest[j - i - 1];
    }
  }

  /** Only unions and intersections are renamed. */
  lemma ComputeNodeNameSpec(kind: TypeKind, text: string)
    ensures kind == OtherType ==> ComputeNodeName(kind, text) == text
    ensures kind != OtherType ==> ComputeNodeName(kind, text) == StripLeadingSeparator(text)
    ensures EndsWith(text, ComputeNodeName(kind, text))
  {
    StripLeadingSeparatorSpec(text);
  }
}
