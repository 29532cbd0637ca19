/**
 * The few string operations the rules use: prefix and suffix tests, substring
 * search, and JavaScript's `split`/`join` on a one-character separator.
 */
module Strings {

  predicate StartsWith(s: string, prefix: string) {
    |prefix| <= |s| && s[..|prefix|] == prefix
  }

  predicate EndsWith(s: string, suffix: string) {
    |suffix| <= |s| && s[|s| - |suffix|..] == suffix
  }

  /** `s.includes(sub)`: some window of `s` equals `sub`. */
  predicate Contains(s: string, sub: string) {
    StartsWith(s, sub) || (s != [] && Contains(s[1..], sub))
  }

  /** The position of the first `c` in `s`, or `|s|` when there is none. */
  function IndexOfChar(s: string, c: char): (i: nat)
    ensures i <= |s|
    ensures i < |s| ==> s[i] == c
    ensures forall j :: 0 <= j < i ==> s[j] != c
  {
    if s == [] then 0 else if s[0] == c then 0 else 1 + IndexOfChar(s[1..], c)
  }

  /** `parts.join(sep)`. */
  function Join(parts: seq<string>, sep: char): string {
    if |parts| == 0 then ""
    else if |parts| == 1 then parts[0]
    else parts[0] + [sep] + Join(parts[1..], sep)
  }

  /** `parts.join(sep)` for a separator of any length (used for `', '`). */
  function JoinWith(parts: seq<string>, sep: string): string {
    if |parts| == 0 then ""
    else if |parts| == 1 then parts[0]
    else parts[0] + sep + JoinWith(parts[1..], sep)
  }

  /**
   * `s.split(sep)`: the maximal runs between separators, so there is always at
   * least one part, no part holds the separator, and joining gives `s` back.
   */
  function Split(s: string, sep: char): (r: seq<string>)
    ensures |r| >= 1
    ensures forall k :: 0 <= k < |r| ==> sep !in r[k]
    ensures Join(r, sep) == s
    decreases |s|
  {
    var i := IndexOfChar(s, sep);
    if i == |s| then [s]
    else
      var rest := Split(s[i + 1..], sep);
      assert s == s[..i] + [sep] + s[i + 1..];
      [s[..i]] + rest
  }

  /** `s.slice(-k)` on a list: the last `k` elements, or all of them. */
  function LastN<T>(s: seq<T>, k: nat): (r: seq<T>)
    ensures |r| == if k <= |s| then k else |s|
  {
    if k <= |s| then s[|s| - k..] else s
  }

  /** Joining a tail of the parts gives a suffix of the joined whole. */
  lemma {:induction false} JoinTailIsSuffix(parts: seq<string>, sep: char, j: nat)
    requires j < |parts|
    ensures EndsWith(Join(parts, sep), Join(parts[j..], sep))
  {
    if j > 0 {
      JoinTailIsSuffix(parts[1..], sep, j - 1);
      assert parts[1..][j - 1..] == parts[j..];
      var whole := Join(parts, sep);
      assert whole == parts[0] + [sep] + Join(parts[1..], sep);
    }
  }

  lemma StartsWithCons(c: char, t: string, e: char, u: string)
    ensures StartsWith([c] + t, [e] + u) <==> c == e && StartsWith(t, u)
  {
    if StartsWith([c] + t, [e] + u) {
      assert ([c] + t)[0] == ([e] + u)[0];
      assert t[..|u|] == ([c] + t)[..|u| + 1][1..];
    }
    if c == e && StartsWith(t, u) {
      assert ([c] + t)[..|u| + 1] == [c] + t[..|u|];
    }
  }

  /** `s` contains `sub` exactly when `sub` starts at some position of `s`. */
  lemma {:induction false} ContainsIff(s: string, sub: string)
    ensures Contains(s, sub) <==> exists p :: 0 <= p <= |s| && StartsWith(s[p..], sub)
  {
    assert s[0..] == s;
    if s != [] {
      ContainsIff(s[1..], sub);
      if Contains(s[1..], sub) {
        var p :| 0 <= p <= |s[1..]| && StartsWith(s[1..][p..], sub);
        assert s[1..][p..] == s[p + 1..];
      }
      if exists p :: 0 <= p <= |s| && StartsWith(s[p..], sub) {
        var p :| 0 <= p <= |s| && StartsWith(s[p..], sub);
        if p > 0 {
          assert s[1..][p - 1..] == s[p..];
        }
      }
    } else {
      if exists p :: 0 <= p <= |s| && StartsWith(s[p..], sub) {
        var p :| 0 <= p <= |s| && StartsWith(s[p..], sub);
        assert s[p..] == s;
      }
    }
  }

  /** Joining the last `k` parts gives a suffix of the joined whole. */
  lemma JoinLastNIsSuffix(parts: seq<string>, sep: char, k: nat)
    requires parts != []
    ensures EndsWith(Join(parts, sep), Join(LastN(parts, k), sep))
  {
    var j := if k <= |parts| then |parts| - k else 0;
    assert LastN(parts, k) == parts[j..];
    if j == |parts| {
      assert Join(parts[j..], sep) == "";
    } else {
      JoinTailIsSuffix(parts, sep, j);
    }
  }

  /** The characters JavaScript's `\s` matches. */
  predicate IsWhitespace(c: char) {
    c == ' ' || c == '\t' || c == '\n' || c == '\r' || c == '\U{000B}' || c == '\U{000C}'
    || c == '\U{00A0}' || c == '\U{1680}' || ('\U{2000}' <= c <= '\U{200A}')
    || c == '\U{2028}' || c == '\U{2029}' || c == '\U{202F}' || c == '\U{205F}'
    || c == '\U{3000}' || c == '\U{FEFF}'
  }
}
