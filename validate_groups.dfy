/**
 * The check of the `groups` option (validate-generated-groups-configuration.ts):
 * every group name must be a predefined group (`unknown`, or modifiers followed
 * by a selector, taken right to left by longest match) or a custom group name.
 */
module GroupsValidation {
  import opened Common
  import opened Strings
  import NodeIndexMap

  /** A trailing run of segments that is an allowed value: how many segments, and the joined word. */
  datatype AllowedWord = AllowedWord(count: nat, word: string)

  /** What the validation does: nothing, or throw an error with this message. */
  datatype Outcome = Ok | Throws(message: string)

  /** The last `k` segments joined with dashes. */
  function Trailing(elements: seq<string>, k: nat): string {
    Join(LastN(elements, k), '-')
  }

  /**
   * What `computeLongestAllowedWord` returns: null when there is no last
   * segment or it is empty; otherwise the longest trailing run (three
   * segments only when allowed) that is an allowed value, if any. A run
   * longer than the list is the same text as the whole list and never counts.
   */
  function LongestAllowedWord(elements: seq<string>, allowed: seq<string>, allowThreeWord: bool): (r: Option<AllowedWord>)
    ensures r.Some? ==>
      && 1 <= r.value.count <= |elements|
      && r.value.count <= (if allowThreeWord then 3 else 2)
      && r.value.word == Trailing(elements, r.value.count)
      && r.value.word in allowed
  {
    if elements == [] || elements[|elements| - 1] == "" then None
    else
      var one, two, three := elements[|elements| - 1], Trailing(elements, 2), Trailing(elements, 3);
      TrailingFacts(elements);
      if allowThreeWord && two != three && three in allowed then Some(AllowedWord(3, three))
      else if one != two && two in allowed then Some(AllowedWord(2, two))
      else if one in allowed then Some(AllowedWord(1, one))
      else None
  }

  /** Two or three trailing segments are longer text than one fewer. */
  lemma TrailingGrows(elements: seq<string>, k: nat)
    requires 2 <= k <= |elements|
    ensures |Trailing(elements, k)| > |Trailing(elements, k - 1)|
  {
    var t := elements[|elements| - k..];
    assert LastN(elements, k) == t;
    assert LastN(elements, k - 1) == t[1..];
    assert Join(t, '-') == t[0] + ['-'] + Join(t[1..], '-');
  }

  /** With a non-empty last segment every trailing run is non-empty text. */
  lemma TrailingNonEmpty(elements: seq<string>, k: nat)
    requires elements != [] && elements[|elements| - 1] != "" && k >= 1
    ensures Trailing(elements, k) != ""
  {
    var t := LastN(elements, k);
    var last := elements[|elements| - 1];
    assert t[|t| - 1] == last;
    JoinLastNIsSuffix(t, '-', 1);
    assert LastN(t, 1) == [last];
    assert Join([last], '-') == last;
  }

  /**
   * The one-segment run is the last segment; a longer run within the list is
   * longer text; a run beyond the list is the same text as the whole list.
   */
  lemma TrailingFacts(elements: seq<string>)
    requires elements != []
    ensures Trailing(elements, 1) == Last(elements)
    ensures |elements| >= 2 ==> |Trailing(elements, 2)| > |Trailing(elements, 1)|
    ensures |elements| >= 3 ==> |Trailing(elements, 3)| > |Trailing(elements, 2)|
    ensures |elements| < 2 ==> Trailing(elements, 2) == Trailing(elements, 1)
    ensures |elements| < 3 ==> Trailing(elements, 3) == Trailing(elements, 2)
  {
    TrailingOne(elements);
    if |elements| >= 2 { TrailingGrows(elements, 2); } else { TrailingBeyond(elements, 2); TrailingBeyond(elements, 1); }
    if |elements| >= 3 { TrailingGrows(elements, 3); } else { TrailingBeyond(elements, 3); TrailingBeyond(elements, 2); }
  }

  /** The last segment. */
  function Last(elements: seq<string>): string
    requires elements != []
  {
    elements[|elements| - 1]
  }

  lemma TrailingOne(elements: seq<string>)
    requires elements != []
    ensures Trailing(elements, 1) == Last(elements)
  {
    assert LastN(elements, 1) == [elements[|elements| - 1]];
  }

  lemma TrailingBeyond(elements: seq<string>, k: nat)
    requires k >= |elements|
    ensures Trailing(elements, k) == Join(elements, '-')
  {
    assert LastN(elements, k) == elements;
  }

  /**
   * The allowed word found is the longest: no longer trailing run within
   * reach is allowed; null means no run within reach is allowed (or there is
   * no non-empty last segment).
   */
  lemma LongestAllowedWordIsLongest(elements: seq<string>, allowed: seq<string>, allowThreeWord: bool)
    ensures var r := LongestAllowedWord(elements, allowed, allowThreeWord);
      var reach := if allowThreeWord then 3 else 2;
      && (r.Some? ==> forall c :: r.value.count < c <= reach && c <= |elements| ==> Trailing(elements, c) !in allowed)
      && (r.None? <==>
            (|| elements == [] || elements[|elements| - 1] == ""
             || forall c :: 1 <= c <= reach && c <= |elements| ==> Trailing(elements, c) !in allowed))
  {
    var r := LongestAllowedWord(elements, allowed, allowThreeWord);
    var reach := if allowThreeWord then 3 else 2;
    if elements != [] && elements[|elements| - 1] != "" {
      NoLongerAllowed(elements, allowed, allowThreeWord, reach);
      NoneIffNothingAllowed(elements, allowed, allowThreeWord, reach);
    }
  }

  /** With a non-empty last segment, null means no run within reach is allowed. */
  lemma NoneIffNothingAllowed(elements: seq<string>, allowed: seq<string>, allowThreeWord: bool, reach: nat)
    requires elements != [] && elements[|elements| - 1] != ""
    requires reach == if allowThreeWord then 3 else 2
    ensures LongestAllowedWord(elements, allowed, allowThreeWord).None?
      <==> forall c :: 1 <= c <= reach && c <= |elements| ==> Trailing(elements, c) !in allowed
  {
    var r := LongestAllowedWord(elements, allowed, allowThreeWord);
    TrailingFacts(elements);
    if r.None? {
      forall c | 1 <= c <= reach && c <= |elements|
        ensures Trailing(elements, c) !in allowed
      {
        assert c == 1 || c == 2 || c == 3;
      }
    } else {
      assert Trailing(elements, r.value.count) in allowed;
    }
  }

  /** The runs longer than the one found, within reach, are not allowed. */
  lemma NoLongerAllowed(elements: seq<string>, allowed: seq<string>, allowThreeWord: bool, reach: nat)
    requires elements != [] && elements[|elements| - 1] != ""
    requires reach == if allowThreeWord then 3 else 2
    ensures var r := LongestAllowedWord(elements, allowed, allowThreeWord);
      r.Some? ==> forall c :: r.value.count < c <= reach && c <= |elements| ==> Trailing(elements, c) !in allowed
  {
    var r := LongestAllowedWord(elements, allowed, allowThreeWord);
    TrailingFacts(elements);
    if r.Some? {
      forall c | r.value.count < c <= reach && c <= |elements|
        ensures Trailing(elements, c) !in allowed
      {
        assert c == 2 || c == 3;
      }
    }
  }

  /**
   * `computeLongestAllowedWord`: the one-, two- and three-segment candidates
   * in turn, each allowed one overwriting the previous choice.
   */
  method ComputeLongestAllowedWord(elementsSeparatedWithDash: seq<string>, allowThreeWord: bool, allowedValues: seq<string>)
    returns (r: Option<AllowedWord>)
    ensures r == LongestAllowedWord(elementsSeparatedWithDash, allowedValues, allowThreeWord)
  {
    if elementsSeparatedWithDash == [] || elementsSeparatedWithDash[|elementsSeparatedWithDash| - 1] == "" {
      return None;
    }
    var singleWordElement := elementsSeparatedWithDash[|elementsSeparatedWithDash| - 1];
    var twoWordsElement := Trailing(elementsSeparatedWithDash, 2);
    var threeWordsElement := Trailing(elementsSeparatedWithDash, 3);
    var word: Option<string> := None;
    var dashSeparatedElementsCount := 0;
    if singleWordElement in allowedValues {
      dashSeparatedElementsCount := 1;
      word := Some(singleWordElement);
    }
    if singleWordElement != twoWordsElement && twoWordsElement in allowedValues {
      dashSeparatedElementsCount := 2;
      word := Some(twoWordsElement);
    }
    if allowThreeWord && twoWordsElement != threeWordsElement && threeWordsElement in allowedValues {
      dashSeparatedElementsCount := 3;
      word := Some(threeWordsElement);
    }
    TrailingNonEmpty(elementsSeparatedWithDash, 2);
    TrailingNonEmpty(elementsSeparatedWithDash, 3);
    if dashSeparatedElementsCount == 0 || word.None? || word.value == "" {
      return None;
    }
    return Some(AllowedWord(dashSeparatedElementsCount, word.value));
  }

  /**
   * The modifier loop from a remaining prefix and the modifiers parsed so
   * far: take the longest trailing modifier of one or two segments, reject a
   * repeat, cut it off, go on until nothing remains.
   */
  function ModifiersParse(toParse: seq<string>, allModifiers: seq<string>, parsed: set<string>): bool
    decreases |toParse|
  {
    if toParse == [] then true
    else match LongestAllowedWord(toParse, allModifiers, false)
      case None => false
      case Some(w) =>
        if w.word in parsed then false
        else ModifiersParse(toParse[..|toParse| - w.count], allModifiers, parsed + {w.word})
  }

  /** `isPredefinedGroup`: `unknown`, or a trailing selector of up to three segments whose prefix parses as modifiers. */
  function IsPredefined(allSelectors: seq<string>, allModifiers: seq<string>, input: string): bool {
    if input == "unknown" then true
    else PredefinedElements(allSelectors, allModifiers, Split(input, '-'))
  }

  /** The test on the dash-separated segments of a name other than `unknown`. */
  function PredefinedElements(allSelectors: seq<string>, allModifiers: seq<string>, elements: seq<string>): bool {
    match LongestAllowedWord(elements, allSelectors, true)
    case None => false
    case Some(s) => ModifiersParse(elements[..|elements| - s.count], allModifiers, {})
  }

  /** `isPredefinedGroup` as written: a while loop shrinking the prefix and filling a set. */
  method IsPredefinedGroup(allSelectors: seq<string>, allModifiers: seq<string>, input: string) returns (r: bool)
    ensures r == IsPredefined(allSelectors, allModifiers, input)
    ensures input == "unknown" ==> r
  {
    if input == "unknown" {
      return true;
    }
    var elementsSeparatedWithDash := Split(input, '-');
    var longestAllowedSelector := ComputeLongestAllowedWord(elementsSeparatedWithDash, true, allSelectors);
    if longestAllowedSelector.None? {
      return false;
    }
    var modifiersToParse := elementsSeparatedWithDash[..|elementsSeparatedWithDash| - longestAllowedSelector.value.count];
    ghost var start := modifiersToParse;
    var parsedModifiers: set<string> := {};
    while |modifiersToParse| > 0
      invariant ModifiersParse(modifiersToParse, allModifiers, parsedModifiers) == ModifiersParse(start, allModifiers, {})
      decreases |modifiersToParse|
    {
      var longestAllowedModifier := ComputeLongestAllowedWord(modifiersToParse, false, allModifiers);
      if longestAllowedModifier.None? {
        return false;
      }
      if longestAllowedModifier.value.word in parsedModifiers {
        return false;
      }
      parsedModifiers := parsedModifiers + {longestAllowedModifier.value.word};
      modifiersToParse := modifiersToParse[..|modifiersToParse| - longestAllowedModifier.value.count];
    }
    return true;
  }

  /**
   * The right-to-left longest-match decomposition of a prefix into modifier
   * words, repeats included; null when some step finds no modifier.
   */
  function ModifierWords(toParse: seq<string>, allModifiers: seq<string>): Option<seq<string>>
    decreases |toParse|
  {
    if toParse == [] then Some([])
    else match LongestAllowedWord(toParse, allModifiers, false)
      case None => None
      case Some(w) =>
        match ModifierWords(toParse[..|toParse| - w.count], allModifiers)
        case None => None
        case Some(ws) => Some([w.word] + ws)
  }

  /**
   * The loop accepts exactly when the prefix decomposes completely, the
   * decomposition repeats no modifier, and none was parsed before.
   */
  lemma {:induction false} ModifiersParseIsDistinctDecomposition(toParse: seq<string>, allModifiers: seq<string>, parsed: set<string>)
    ensures ModifiersParse(toParse, allModifiers, parsed)
        <==> ModifierWords(toParse, allModifiers).Some?
             && NodeIndexMap.Distinct(ModifierWords(toParse, allModifiers).value)
             && forall w :: w in ModifierWords(toParse, allModifiers).value ==> w !in parsed
    decreases |toParse|
  {
    if toParse != [] {
      match LongestAllowedWord(toParse, allModifiers, false)
      case None =>
      case Some(w) =>
        var rest := toParse[..|toParse| - w.count];
        ModifiersParseIsDistinctDecomposition(rest, allModifiers, parsed + {w.word});
        match ModifierWords(rest, allModifiers)
        case None =>
        case Some(ws) =>
          var all := [w.word] + ws;
          assert NodeIndexMap.Distinct(all) <==> NodeIndexMap.Distinct(ws) && w.word !in ws by {
            DistinctCons(w.word, ws);
          }
    }
  }

  lemma DistinctCons<T>(x: T, s: seq<T>)
    ensures NodeIndexMap.Distinct([x] + s) <==> NodeIndexMap.Distinct(s) && x !in s
  {
    var t := [x] + s;
    if NodeIndexMap.Distinct(t) {
      forall i, j | 0 <= i < j < |s| ensures s[i] != s[j] {
        assert t[i + 1] == s[i] && t[j + 1] == s[j];
      }
      forall k | 0 <= k < |s| ensures s[k] != x {
        assert t[0] == x && t[k + 1] == s[k];
      }
    }
    if NodeIndexMap.Distinct(s) && x !in s {
      forall i, j | 0 <= i < j < |t| ensures t[i] != t[j] {
        if i == 0 { assert t[j] == s[j - 1]; } else { assert t[i] == s[i - 1] && t[j] == s[j - 1]; }
      }
    }
  }

  /** Every word of a decomposition is an allowed modifier of one or two segments. */
  lemma {:induction false} ModifierWordsAllowed(toParse: seq<string>, allModifiers: seq<string>)
    ensures ModifierWords(toParse, allModifiers).Some? ==>
      forall w :: w in ModifierWords(toParse, allModifiers).value ==> w in allModifiers
    decreases |toParse|
  {
    if toParse != [] {
      match LongestAllowedWord(toParse, allModifiers, false)
      case None =>
      case Some(w) =>
        ModifierWordsAllowed(toParse[..|toParse| - w.count], allModifiers);
    }
  }

  /**
   * A name other than `unknown` is predefined exactly when a trailing selector
   * of up to three segments exists and the remaining prefix decomposes into
   * modifiers, none repeated.
   */
  /** Any name but `unknown` is judged on its dash-separated segments. */
  lemma IsPredefinedUnfold(allSelectors: seq<string>, allModifiers: seq<string>, input: string)
    requires input != "unknown"
    ensures IsPredefined(allSelectors, allModifiers, input) == PredefinedElements(allSelectors, allModifiers, Split(input, '-'))
  {
  }

  lemma IsPredefinedIff(allSelectors: seq<string>, allModifiers: seq<string>, input: string)
    requires input != "unknown"
    ensures var elements := Split(input, '-');
      var sel := LongestAllowedWord(elements, allSelectors, true);
      IsPredefined(allSelectors, allModifiers, input)
      == (sel.Some?
           && ModifierWords(elements[..|elements| - sel.value.count], allModifiers).Some?
           && NodeIndexMap.Distinct(ModifierWords(elements[..|elements| - sel.value.count], allModifiers).value))
  {
    IsPredefinedUnfold(allSelectors, allModifiers, input);
    PredefinedElementsIff(allSelectors, allModifiers, Split(input, '-'));
  }

  /** The segments pass exactly when a selector is found and the words before it parse as distinct modifiers. */
  lemma PredefinedElementsIff(allSelectors: seq<string>, allModifiers: seq<string>, elements: seq<string>)
    ensures var sel := LongestAllowedWord(elements, allSelectors, true);
      PredefinedElements(allSelectors, allModifiers, elements)
      == (sel.Some?
           && ModifierWords(elements[..|elements| - sel.value.count], allModifiers).Some?
           && NodeIndexMap.Distinct(ModifierWords(elements[..|elements| - sel.value.count], allModifiers).value))
  {
    var sel := LongestAllowedWord(elements, allSelectors, true);
    if sel.Some? {
      ModifiersParseFromNothing(elements[..|elements| - sel.value.count], allModifiers);
    }
  }

  /** With nothing parsed yet, a parse succeeds exactly when the words exist and are distinct. */
  lemma ModifiersParseFromNothing(toParse: seq<string>, allModifiers: seq<string>)
    ensures ModifiersParse(toParse, allModifiers, {})
        <==> ModifierWords(toParse, allModifiers).Some? && NodeIndexMap.Distinct(ModifierWords(toParse, allModifiers).value)
  {
    ModifiersParseIsDistinctDecomposition(toParse, allModifiers, {});
  }

  // ---------------------------------------------------------------------------
  // The validation

  /** The custom group names: the `groupName`s of the array form, or the keys of the record form. */
  function CustomGroupNames(customGroups: CustomGroupsOption): seq<string> {
    match customGroups
    case ArrayForm(groups) => GroupNames(groups)
    case RecordForm(keys) => keys
  }

  /** `groups.flat().filter(group => typeof group === 'string')`. */
  function FlatGroupNames(groups: seq<GroupSlot>): seq<string> {
    if groups == [] then []
    else
      (match groups[0]
       case Single(name) => [name]
       case Multi(names) => names
       case Marker(_) => [])
      + FlatGroupNames(groups[1..])
  }

  /** The names that are neither predefined nor custom, in order. */
  function InvalidGroups(selectors: seq<string>, modifiers: seq<string>, customNames: seq<string>, names: seq<string>): seq<string> {
    if names == [] then []
    else if !IsPredefined(selectors, modifiers, names[0]) && names[0] !in customNames then
      [names[0]] + InvalidGroups(selectors, modifiers, customNames, names[1..])
    else InvalidGroups(selectors, modifiers, customNames, names[1..])
  }

  /** `validateGeneratedGroupsConfiguration` up to its two further validators. */
  function ValidateGroups(selectors: seq<string>, modifiers: seq<string>, customGroups: CustomGroupsOption, groups: seq<GroupSlot>): Outcome {
    var invalid := InvalidGroups(selectors, modifiers, CustomGroupNames(customGroups), FlatGroupNames(groups));
    if |invalid| > 0 then Throws("Invalid group(s): " + JoinWith(invalid, ", ")) else Ok
  }

  /** A name of the flattened list comes from a name slot or a list slot; markers give none. */
  lemma {:induction false} FlatGroupNamesMembers(groups: seq<GroupSlot>)
    ensures forall n :: n in FlatGroupNames(groups) <==>
      exists i :: 0 <= i < |groups| && (groups[i] == Single(n) || (groups[i].Multi? && n in groups[i].names))
  {
    if groups != [] {
      FlatGroupNamesMembers(groups[1..]);
      forall n ensures n in FlatGroupNames(groups) <==>
        exists i :: 0 <= i < |groups| && (groups[i] == Single(n) || (groups[i].Multi? && n in groups[i].names))
      {
        if n in FlatGroupNames(groups[1..]) {
          var i :| 0 <= i < |groups[1..]| && (groups[1..][i] == Single(n) || (groups[1..][i].Multi? && n in groups[1..][i].names));
          assert groups[i + 1] == groups[1..][i];
        }
        if exists i :: 0 <= i < |groups| && (groups[i] == Single(n) || (groups[i].Multi? && n in groups[i].names)) {
          var i :| 0 <= i < |groups| && (groups[i] == Single(n) || (groups[i].Multi? && n in groups[i].names));
          if i > 0 { assert groups[1..][i - 1] == groups[i]; }
        }
      }
    }
  }

  lemma {:induction false} InvalidGroupsMembers(selectors: seq<string>, modifiers: seq<string>, customNames: seq<string>, names: seq<string>)
    ensures forall n :: n in InvalidGroups(selectors, modifiers, customNames, names) <==>
      n in names && !IsPredefined(selectors, modifiers, n) && n !in customNames
    ensures Subsequence(InvalidGroups(selectors, modifiers, customNames, names), names)
  {
    if names != [] {
      InvalidGroupsMembers(selectors, modifiers, customNames, names[1..]);
      var r := InvalidGroups(selectors, modifiers, customNames, names);
      if !(!IsPredefined(selectors, modifiers, names[0]) && names[0] !in customNames) {
        SubsequenceOfTail(r, names);
      } else {
        assert r[1..] == InvalidGroups(selectors, modifiers, customNames, names[1..]);
      }
    }
  }

  /**
   * The validation throws exactly when some string entry of `groups` is
   * neither predefined nor a custom group name; the message lists exactly
   * those entries, in their order, joined by `, `.
   */
  lemma ValidateGroupsSpec(selectors: seq<string>, modifiers: seq<string>, customGroups: CustomGroupsOption, groups: seq<GroupSlot>)
    ensures var flat := FlatGroupNames(groups);
      var custom := CustomGroupNames(customGroups);
      var invalid := InvalidGroups(selectors, modifiers, custom, flat);
      && (ValidateGroups(selectors, modifiers, customGroups, groups).Ok? <==>
            forall n :: n in flat ==> IsPredefined(selectors, modifiers, n) || n in custom)
      && (ValidateGroups(selectors, modifiers, customGroups, groups).Throws? ==>
            ValidateGroups(selectors, modifiers, customGroups, groups).message == "Invalid group(s): " + JoinWith(invalid, ", "))
      && (forall n :: n in invalid <==> n in flat && !IsPredefined(selectors, modifiers, n) && n !in custom)
      && Subsequence(invalid, flat)
  {
    var flat := FlatGroupNames(groups);
    var custom := CustomGroupNames(customGroups);
    InvalidGroupsMembers(selectors, modifiers, custom, flat);
    var invalid := InvalidGroups(selectors, modifiers, custom, flat);
    if |invalid| > 0 {
      assert invalid[0] in invalid;
    }
  }

  /** Custom group names are the array's `groupName`s or the record's keys. */
  lemma CustomGroupNamesMembers(customGroups: CustomGroupsOption)
    ensures customGroups.ArrayForm? ==>
      forall n :: n in CustomGroupNames(customGroups) <==> exists g :: g in customGroups.groups && g.groupName == n
    ensures customGroups.RecordForm? ==> CustomGroupNames(customGroups) == customGroups.keys
  {
    if customGroups.ArrayForm? {
      var gs := customGroups.groups;
      forall n ensures n in CustomGroupNames(customGroups) <==> exists g :: g in gs && g.groupName == n {
        if n in CustomGroupNames(customGroups) {
          var i :| 0 <= i < |gs| && GroupNames(gs)[i] == n;
          assert gs[i] in gs;
        }
        if exists g :: g in gs && g.groupName == n {
          var g :| g in gs && g.groupName == n;
          var i :| 0 <= i < |gs| && gs[i] == g;
          assert GroupNames(gs)[i] == n;
        }
      }
    }
  }
}
