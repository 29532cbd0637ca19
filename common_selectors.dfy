/**
 * The selectors every import gets from its path (sort-imports/compute-common-selectors.ts):
 * index, sibling, parent, subpath, internal, builtin and external.
 */
module CommonSelectors {
  import opened Common
  import opened Strings

  datatype CommonSelector = Index | Sibling | Parent | Subpath | Internal | Builtin | External

  datatype Environment = NodeEnvironment | BunEnvironment

  /** Where the internal/external decision lands. */
  datatype InternalOrExternal = InternalGroup | ExternalGroup | NoGroup

  /**
   * What module resolution tells about the name: nothing when TypeScript is
   * not available; otherwise whether the name is relative, whether a
   * tsconfig was found, and `resolvedModule?.isExternalLibraryImport` when it
   * is a boolean.
   */
  datatype Resolution =
    | NoTypeScript
    | TypeScript(isExternalModuleNameRelative: bool, hasTsConfig: bool, isExternalLibraryImport: Option<bool>)

  /** A selector's place in the order selectors are emitted in. */
  function Position(s: CommonSelector): nat {
    match s
    case Index => 0
    case Sibling => 1
    case Parent => 2
    case Subpath => 3
    case Internal => 4
    case Builtin => 5
    case External => 6
  }

  /** Each selector comes after the ones before it in the emission order, so none repeats. */
  predicate InEmissionOrder(r: seq<CommonSelector>) {
    forall i, j :: 0 <= i < j < |r| ==> Position(r[i]) < Position(r[j])
  }

  const IndexNames: seq<string> := ["./index.d.js", "./index.d.ts", "./index.js", "./index.ts", "./index", "./", "."]

  const BunModules: seq<string> := ["detect-libc", "bun:sqlite", "bun:test", "bun:wrap", "bun:ffi", "bun:jsc", "undici", "bun", "ws"]

  const BuiltinPrefixOnlyModules: seq<string> := ["node:sqlite", "node:test", "node:sea"]

  predicate IsIndex(value: string) { value in IndexNames }
  predicate IsParent(value: string) { StartsWith(value, "..") }
  predicate IsSibling(value: string) { StartsWith(value, "./") }
  predicate IsSubpath(value: string) { StartsWith(value, "#") }

  /** The text of `s` before the first occurrence of a non-empty `sub` (all of `s` when there is none). */
  function Before(s: string, sub: string): (r: string)
    requires sub != []
    ensures StartsWith(s, r)
  {
    if s == [] || StartsWith(s, sub) then [] else [s[0]] + Before(s[1..], sub)
  }

  /** `value.startsWith('node:') ? value.split('node:')[1] : value`. */
  function WithoutNodePrefix(value: string): string {
    if StartsWith(value, "node:") then Before(value[5..], "node:") else value
  }

  /**
   * `isCoreModule`: the name, without a `node:` prefix, is a (non-empty) Node
   * builtin; or it is one of the prefix-only builtins; or, under Bun, one of
   * Bun's modules. Node's builtin list is a parameter.
   */
  predicate IsCoreModule(value: string, environment: Environment, nodeBuiltinModules: set<string>) {
    var valueToCheck := WithoutNodePrefix(value);
    || (valueToCheck != "" && valueToCheck in nodeBuiltinModules)
    || value in BuiltinPrefixOnlyModules
    || (environment == BunEnvironment && value in BunModules)
  }

  /** `getInternalOrExternalGroup`, with the resolution as input. */
  function InternalOrExternalGroup(name: string, resolution: Resolution): InternalOrExternal {
    match resolution
    case NoTypeScript => if !StartsWith(name, ".") && !StartsWith(name, "/") then ExternalGroup else NoGroup
    case TypeScript(isRelative, hasTsConfig, isExternalLibraryImport) =>
      if isRelative then NoGroup
      else if !hasTsConfig then ExternalGroup
      else if isExternalLibraryImport.None? then ExternalGroup
      else if isExternalLibraryImport.value then ExternalGroup
      else InternalGroup
  }

  /** A name matching an internal pattern is internal, whatever the resolution says. */
  function InternalExternal(name: string, internalPattern: seq<string>, matches: (string, string) -> bool, resolution: Resolution): InternalOrExternal {
    if exists p :: p in internalPattern && matches(name, p) then InternalGroup else InternalOrExternalGroup(name, resolution)
  }

  /** The outcome of each test on one name. */
  datatype PathFacts = PathFacts(index: bool, sibling: bool, parent: bool, subpath: bool, builtin: bool, group: InternalOrExternal)

  function Facts(name: string, group: InternalOrExternal, environment: Environment, nodeBuiltinModules: set<string>): PathFacts {
    PathFacts(IsIndex(name), IsSibling(name), IsParent(name), IsSubpath(name), IsCoreModule(name, environment, nodeBuiltinModules), group)
  }

  /** Whether one selector applies, given the tests' outcomes. */
  predicate Applies(s: CommonSelector, f: PathFacts) {
    match s
    case Index => f.index
    case Sibling => f.sibling
    case Parent => f.parent
    case Subpath => f.subpath
    case Internal => f.group == InternalGroup
    case Builtin => f.builtin
    case External => f.group == ExternalGroup
  }

  /** The selector, when its test holds. */
  function Opt(b: bool, s: CommonSelector): seq<CommonSelector> {
    if b then [s] else []
  }

  /**
   * `computeCommonSelectors`: the seven tests in their fixed order, each
   * pushing its selector. The internal patterns' matcher and the resolution
   * are parameters.
   */
  method ComputeCommonSelectors(name: string, internalPattern: seq<string>, matches: (string, string) -> bool,
                                environment: Environment, nodeBuiltinModules: set<string>, resolution: Resolution)
    returns (commonSelectors: seq<CommonSelector>)
    ensures InEmissionOrder(commonSelectors)
    ensures forall s :: s in commonSelectors <==>
      Applies(s, Facts(name, InternalExternal(name, internalPattern, matches, resolution), environment, nodeBuiltinModules))
  {
    var internalExternalGroup := InternalExternal(name, internalPattern, matches, resolution);
    var index, sibling, parent, subpath := IsIndex(name), IsSibling(name), IsParent(name), IsSubpath(name);
    var builtin := IsCoreModule(name, environment, nodeBuiltinModules);
    var f := PathFacts(index, sibling, parent, subpath, builtin, internalExternalGroup);
    assert Facts(name, internalExternalGroup, environment, nodeBuiltinModules) == f;
    commonSelectors := EmitSelectors(f);
  }

  /** The pushes, in order, each guarded by its test's outcome. */
  method EmitSelectors(f: PathFacts) returns (commonSelectors: seq<CommonSelector>)
    ensures InEmissionOrder(commonSelectors) && forall s :: s in commonSelectors <==> Applies(s, f)
  {
    commonSelectors := [];
    commonSelectors := PushWhen(commonSelectors, f.index, Index, f);
    commonSelectors := PushWhen(commonSelectors, f.sibling, Sibling, f);
    commonSelectors := PushWhen(commonSelectors, f.parent, Parent, f);
    commonSelectors := PushWhen(commonSelectors, f.subpath, Subpath, f);
    commonSelectors := PushWhen(commonSelectors, f.group == InternalGroup, Internal, f);
    commonSelectors := PushWhen(commonSelectors, f.builtin, Builtin, f);
    commonSelectors := PushWhen(commonSelectors, f.group == ExternalGroup, External, f);
    EmittedAll(commonSelectors, f);
  }

  /** Once every position is tested, the list holds exactly the selectors that apply. */
  lemma EmittedAll(r: seq<CommonSelector>, f: PathFacts)
    requires EmittedBefore(r, f, 7)
    ensures InEmissionOrder(r) && forall s :: s in r <==> Applies(s, f)
  {
    forall s ensures Position(s) < 7 { }
  }

  /** `if (test) commonSelectors.push(selector)`, one test in the fixed order. */
  method PushWhen(r: seq<CommonSelector>, test: bool, s: CommonSelector, f: PathFacts) returns (r': seq<CommonSelector>)
    requires EmittedBefore(r, f, Position(s)) && test == Applies(s, f)
    ensures EmittedBefore(r', f, Position(s) + 1)
  {
    Tested(r, s, f);
    r' := r;
    if test {
      r' := r' + [s];
    }
  }

  /** The list holds, in emission order, exactly the applicable selectors placed before `k`. */
  ghost predicate EmittedBefore(r: seq<CommonSelector>, f: PathFacts, k: nat) {
    InEmissionOrder(r) && forall x :: x in r <==> Applies(x, f) && Position(x) < k
  }

  /** Testing the selector placed at `k` extends the list to the selectors before `k + 1`. */
  lemma Tested(r: seq<CommonSelector>, s: CommonSelector, f: PathFacts)
    requires EmittedBefore(r, f, Position(s))
    ensures EmittedBefore(r + Opt(Applies(s, f), s), f, Position(s) + 1)
  {
    if Applies(s, f) { Push(r, s); }
    forall x ensures Position(x) < Position(s) + 1 <==> Position(x) < Position(s) || x == s {
      if Position(x) == Position(s) { PositionInjective(x, s); }
    }
  }

  /** Pushing a selector placed after all present ones keeps the emission order. */
  lemma Push(r: seq<CommonSelector>, s: CommonSelector)
    requires InEmissionOrder(r)
    requires forall x :: x in r ==> Position(x) < Position(s)
    ensures InEmissionOrder(r + [s])
  {
    forall i, j | 0 <= i < j < |r + [s]| ensures Position((r + [s])[i]) < Position((r + [s])[j]) {
      if j == |r| { assert (r + [s])[i] in r; }
    }
  }

  /**
   * The two postconditions determine the list: any two lists in emission
   * order with the same selectors are equal. Hence each selector is emitted
   * at most once, and internal and external never both.
   */
  lemma {:induction false} EmissionOrderIsUnique(a: seq<CommonSelector>, b: seq<CommonSelector>)
    requires InEmissionOrder(a) && InEmissionOrder(b)
    requires forall s :: s in a <==> s in b
    ensures a == b
  {
    EmptyIffNoMember(a);
    EmptyIffNoMember(b);
    if a != [] && b != [] {
      FirstIsLeast(a, b[0]);
      FirstIsLeast(b, a[0]);
      PositionInjective(a[0], b[0]);
      forall s ensures s in a[1..] <==> s in b[1..] {
        if s in a[1..] { TailMember(a, b, s); }
        if s in b[1..] { TailMember(b, a, s); }
      }
      EmissionOrderIsUnique(a[1..], b[1..]);
      assert a == [a[0]] + a[1..] && b == [b[0]] + b[1..];
    }
  }

  /** With the same first selector, a selector after it in one list is after it in the other. */
  lemma TailMember(a: seq<CommonSelector>, b: seq<CommonSelector>, s: CommonSelector)
    requires InEmissionOrder(a) && InEmissionOrder(b) && a != [] && b != [] && a[0] == b[0]
    requires s in a[1..] && s in b
    ensures s in b[1..]
  {
    var i :| 0 <= i < |a[1..]| && a[1..][i] == s;
    assert a[i + 1] == s && Position(a[0]) < Position(s);
    var k :| 0 <= k < |b| && b[k] == s;
    assert k != 0;
    assert b[1..][k - 1] == s;
  }

  lemma EmptyIffNoMember(a: seq<CommonSelector>)
    ensures a == [] <==> forall s :: s !in a
  {
    if a != [] { assert a[0] in a; }
  }

  /** In emission order, the first selector is placed before every other. */
  lemma FirstIsLeast(a: seq<CommonSelector>, x: CommonSelector)
    requires InEmissionOrder(a) && x in a
    ensures Position(a[0]) <= Position(x)
  {
    var j :| 0 <= j < |a| && a[j] == x;
    if j > 0 { assert Position(a[0]) < Position(a[j]); }
  }

  lemma PositionInjective(x: CommonSelector, y: CommonSelector)
    requires Position(x) == Position(y)
    ensures x == y
  {
  }

  /** Internal and external are never both emitted. */
  lemma InternalExternalExclusive(r: seq<CommonSelector>, f: PathFacts)
    requires forall s :: s in r <==> Applies(s, f)
    ensures !(Internal in r && External in r)
  {
  }

  /**
   * The path tests: `.` is index but not sibling, `./` is both; parent,
   * sibling and subpath are the `..`, `./` and `#` prefixes.
   */
  lemma PathTestsSpec()
    ensures IsIndex(".") && !IsSibling(".")
    ensures IsIndex("./") && IsSibling("./")
    ensures IsParent("../a") && !IsParent("./a") && IsSubpath("#a")
  {
    assert "./a"[1] == '/';
  }

  /** A name matching an internal pattern is internal whatever the resolution; without TypeScript, external exactly for names not starting with `.` or `/`, and neither otherwise. */
  lemma InternalExternalSpec(name: string, internalPattern: seq<string>, matches: (string, string) -> bool, resolution: Resolution)
    ensures (exists p :: p in internalPattern && matches(name, p)) ==> InternalExternal(name, internalPattern, matches, resolution) == InternalGroup
    ensures (forall p :: p in internalPattern ==> !matches(name, p)) && resolution == NoTypeScript ==>
      (InternalExternal(name, internalPattern, matches, resolution) == ExternalGroup <==> !StartsWith(name, ".") && !StartsWith(name, "/"))
      && (InternalExternal(name, internalPattern, matches, resolution) != InternalGroup)
  {
  }

  /**
   * A builtin is recognised with or without the `node:` prefix, the
   * prefix-only modules only with it, and Bun's modules only under Bun.
   */
  lemma CoreModuleSpec(m: string, environment: Environment, nodeBuiltinModules: set<string>)
    requires m != "" && m in nodeBuiltinModules && !Contains(m, "node:")
    ensures IsCoreModule(m, environment, nodeBuiltinModules)
    ensures IsCoreModule("node:" + m, environment, nodeBuiltinModules)
    ensures IsCoreModule("node:test", environment, nodeBuiltinModules)
    ensures IsCoreModule("bun", environment, nodeBuiltinModules) <==> environment == BunEnvironment || "bun" in nodeBuiltinModules
  {
    BeforeAbsent(m, "node:");
    assert ("node:" + m)[5..] == m;
  }

  /** With no occurrence, `Before` keeps the whole text. */
  lemma {:induction false} BeforeAbsent(s: string, sub: string)
    requires sub != [] && !Contains(s, sub)
    ensures Before(s, sub) == s
  {
    ContainsIff(s, sub);
    if s != [] {
      assert !StartsWith(s[0..], sub);
      assert s[0..] == s;
      ContainsIff(s[1..], sub);
      assert forall p :: 0 <= p <= |s[1..]| ==> s[1..][p..] == s[p + 1..];
      BeforeAbsent(s[1..], sub);
    }
  }
}
