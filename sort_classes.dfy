/**
 * The class-body rule (sort-classes.ts): how a class member is named, which
 * candidate groups it defines, how members are split into partitions by
 * comments, which consecutive pair is reported, and the order the fix puts
 * the nodes of a partition in.
 */
module SortClasses {
  import opened Common
  import opened Strings
  import opened Sorting
  import GroupNumbers
  import NodeRange

  // ---------------------------------------------------------------------
  // Members and their names
  // ---------------------------------------------------------------------

  datatype MethodKind = ConstructorMethod | PlainMethod | GetMethod | SetMethod

  datatype Accessibility = NoAccessibility | PublicAccessibility | ProtectedAccessibility | PrivateAccessibility

  /** A member key: an identifier, or any other key by the source range it spans. */
  datatype MemberKey = IdentifierKey(name: string) | RangeKey(start: nat, end: nat)

  /**
   * A member of a class body with what the rule reads of it; `id` stands for
   * the AST node, `size` for `rangeToDiff(member.range)`, and `decorators`
   * counts its decorators. `OtherMember` is any other member with a key
   * (the abstract ones), which defines no predefined group.
   */
  datatype ClassMember =
    | StaticBlock(id: nat, size: nat)
    | IndexSignature(id: nat, size: nat, start: nat, end: nat, typeAnnotationStart: Option<nat>)
    | MethodDefinition(id: nat, size: nat, key: MemberKey, kind: MethodKind, accessibility: Accessibility,
                       isStatic: bool, decorators: nat)
    | AccessorProperty(id: nat, size: nat, key: MemberKey, accessibility: Accessibility, isStatic: bool, decorators: nat)
    | PropertyDefinition(id: nat, size: nat, key: MemberKey, accessibility: Accessibility, isStatic: bool, decorators: nat)
    | OtherMember(id: nat, size: nat, key: MemberKey, decorators: nat)

  /** `String.prototype.slice` with non-negative bounds: both clamped to the length, empty when they cross. */
  function Slice(text: string, start: nat, end: nat): (r: string)
    ensures |r| <= |text|
    ensures start <= end <= |text| ==> r == text[start..end]
    ensures end <= start ==> r == []
  {
    var from := if start < |text| then start else |text|;
    var to := if end < |text| then end else |text|;
    if from >= to then [] else text[from..to]
  }

  /**
   * The member's name: `static` for a static block; for an index signature
   * the text from its start up to its type annotation (or its end); for the
   * others the key's identifier name or the key's text.
   */
  function MemberName(sourceText: string, member: ClassMember): string {
    match member
    case StaticBlock(_, _) => "static"
    case IndexSignature(_, _, start, end, typeAnnotationStart) =>
      Slice(sourceText, start, if typeAnnotationStart.Some? then typeAnnotationStart.value else end)
    case _ =>
      match member.key
      case IdentifierKey(name) => name
      case RangeKey(start, end) => Slice(sourceText, start, end)
  }

  /** The naming rules: static blocks, index signatures up to their type annotation, identifier keys and key text. */
  lemma MemberNameSpec(sourceText: string, member: ClassMember)
    ensures member.StaticBlock? ==> MemberName(sourceText, member) == "static"
    ensures member.IndexSignature? && member.typeAnnotationStart.Some? && member.start <= member.typeAnnotationStart.value <= |sourceText|
      ==> MemberName(sourceText, member) == sourceText[member.start..member.typeAnnotationStart.value]
    ensures member.IndexSignature? && member.typeAnnotationStart.None? && member.start <= member.end <= |sourceText|
      ==> MemberName(sourceText, member) == sourceText[member.start..member.end]
    ensures !member.StaticBlock? && !member.IndexSignature? && member.key.IdentifierKey?
      ==> MemberName(sourceText, member) == member.key.name
    ensures !member.StaticBlock? && !member.IndexSignature? && member.key.RangeKey?
      && member.key.start <= member.key.end <= |sourceText|
      ==> MemberName(sourceText, member) == sourceText[member.key.start..member.key.end]
  {
  }

  /** A name that starts with `_` or `#` marks the member private. */
  predicate IsPrivateName(name: string) {
    StartsWith(name, "_") || StartsWith(name, "#")
  }

  /** `'decorators' in member && member.decorators.length > 0`. */
  predicate Decorated(member: ClassMember) {
    !member.StaticBlock? && !member.IndexSignature? && member.decorators > 0
  }

  /** Private for the groups: declared `private`, or a private name. */
  predicate PrivateMember(member: ClassMember, name: string) {
    ((member.MethodDefinition? || member.AccessorProperty? || member.PropertyDefinition?)
      && member.accessibility == PrivateAccessibility)
    || IsPrivateName(name)
  }

  lemma PrivacySpec(member: ClassMember, name: string)
    ensures IsPrivateName(name) ==> PrivateMember(member, name)
    ensures member.MethodDefinition? && member.accessibility == PrivateAccessibility ==> PrivateMember(member, name)
    ensures |name| > 0 && name[0] != '_' && name[0] != '#' && member.MethodDefinition? && member.accessibility != PrivateAccessibility
      ==> !PrivateMember(member, name)
  {
  }

  // ---------------------------------------------------------------------
  // Candidate groups
  // ---------------------------------------------------------------------

  /** The predefined groups of the rule's `Group` type. */
  datatype ClassGroup =
    | PrivateDecoratedAccessorPropertyGroup | DecoratedAccessorPropertyGroup | PrivateDecoratedPropertyGroup
    | StaticPrivateMethodGroup | DecoratedSetMethodGroup | DecoratedGetMethodGroup | DecoratedPropertyGroup
    | DecoratedMethodGroup | PrivatePropertyGroup | StaticPropertyGroup | IndexSignatureGroup | PrivateMethodGroup
    | StaticMethodGroup | ConstructorGroup | GetMethodGroup | SetMethodGroup | PropertyGroup | UnknownGroup | MethodGroup

  /** The name a group has in the `groups` option. */
  function GroupName(g: ClassGroup): string {
    match g
    case PrivateDecoratedAccessorPropertyGroup => "private-decorated-accessor-property"
    case DecoratedAccessorPropertyGroup => "decorated-accessor-property"
    case PrivateDecoratedPropertyGroup => "private-decorated-property"
    case StaticPrivateMethodGroup => "static-private-method"
    case DecoratedSetMethodGroup => "decorated-set-method"
    case DecoratedGetMethodGroup => "decorated-get-method"
    case DecoratedPropertyGroup => "decorated-property"
    case DecoratedMethodGroup => "decorated-method"
    case PrivatePropertyGroup => "private-property"
    case StaticPropertyGroup => "static-property"
    case IndexSignatureGroup => "index-signature"
    case PrivateMethodGroup => "private-method"
    case StaticMethodGroup => "static-method"
    case ConstructorGroup => "constructor"
    case GetMethodGroup => "get-method"
    case SetMethodGroup => "set-method"
    case PropertyGroup => "property"
    case UnknownGroup => "unknown"
    case MethodGroup => "method"
  }

  datatype MemberType = MethodMember | IndexSignatureMember | AccessorMember | PropertyMember | OtherMemberType

  /** What the candidate groups of a member depend on. */
  datatype MemberFacts = MemberFacts(memberType: MemberType, kind: MethodKind, isPrivate: bool, isStatic: bool, decorated: bool)

  function Facts(member: ClassMember, name: string): MemberFacts {
    var memberType :=
      match member
      case MethodDefinition(_, _, _, _, _, _, _) => MethodMember
      case IndexSignature(_, _, _, _, _) => IndexSignatureMember
      case AccessorProperty(_, _, _, _, _, _) => AccessorMember
      case PropertyDefinition(_, _, _, _, _, _) => PropertyMember
      case _ => OtherMemberType;
    MemberFacts(memberType, if member.MethodDefinition? then member.kind else PlainMethod,
                PrivateMember(member, name),
                (member.MethodDefinition? || member.AccessorProperty? || member.PropertyDefinition?) && member.isStatic,
                Decorated(member))
  }

  /** Whether a member defines a group, whatever the order. */
  predicate Defines(g: ClassGroup, f: MemberFacts) {
    match g
    case ConstructorGroup => f.memberType == MethodMember && f.kind == ConstructorMethod
    case DecoratedGetMethodGroup => f.memberType == MethodMember && f.decorated && f.kind == GetMethod
    case DecoratedSetMethodGroup => f.memberType == MethodMember && f.decorated && f.kind == SetMethod
    case DecoratedMethodGroup => f.memberType == MethodMember && f.decorated
    case StaticPrivateMethodGroup => f.memberType == MethodMember && f.isPrivate && f.isStatic
    case PrivateMethodGroup => f.memberType == MethodMember && f.isPrivate
    case StaticMethodGroup => f.memberType == MethodMember && f.isStatic
    case GetMethodGroup => f.memberType == MethodMember && f.kind == GetMethod
    case SetMethodGroup => f.memberType == MethodMember && f.kind == SetMethod
    case MethodGroup => f.memberType == MethodMember
    case IndexSignatureGroup => f.memberType == IndexSignatureMember
    case PrivateDecoratedAccessorPropertyGroup => f.memberType == AccessorMember && f.decorated && f.isPrivate
    case DecoratedAccessorPropertyGroup => f.memberType == AccessorMember && f.decorated
    case PrivateDecoratedPropertyGroup => f.memberType == PropertyMember && f.decorated && f.isPrivate
    case DecoratedPropertyGroup => f.memberType == PropertyMember && f.decorated
    case PrivatePropertyGroup => f.memberType == PropertyMember && f.isPrivate
    case StaticPropertyGroup => f.memberType == PropertyMember && f.isStatic
    case PropertyGroup => f.memberType == PropertyMember
    case UnknownGroup => false
  }

  /** The order in which each kind of member defines its groups: the more specific first. */
  const MethodOrder: seq<ClassGroup> := [
    ConstructorGroup, DecoratedGetMethodGroup, DecoratedSetMethodGroup, DecoratedMethodGroup, StaticPrivateMethodGroup,
    PrivateMethodGroup, StaticMethodGroup, GetMethodGroup, SetMethodGroup, MethodGroup]
  const AccessorOrder: seq<ClassGroup> := [PrivateDecoratedAccessorPropertyGroup, DecoratedAccessorPropertyGroup]
  const PropertyOrder: seq<ClassGroup> := [
    PrivateDecoratedPropertyGroup, DecoratedPropertyGroup, PrivatePropertyGroup, StaticPropertyGroup, PropertyGroup]

  function OrderFor(memberType: MemberType): seq<ClassGroup> {
    match memberType
    case MethodMember => MethodOrder
    case IndexSignatureMember => [IndexSignatureGroup]
    case AccessorMember => AccessorOrder
    case PropertyMember => PropertyOrder
    case OtherMemberType => []
  }

  /** The groups of `order` a member defines, in that order. */
  function Candidates(order: seq<ClassGroup>, f: MemberFacts): seq<ClassGroup> {
    if order == [] then []
    else Candidates(order[..|order| - 1], f) + if Defines(order[|order| - 1], f) then [order[|order| - 1]] else []
  }

  /** The `defineGroup` calls for a member, in order. */
  function CandidateGroups(member: ClassMember, name: string): seq<ClassGroup> {
    var f := Facts(member, name);
    Candidates(OrderFor(f.memberType), f)
  }

  /** A group is a candidate exactly when it is in the order and the member defines it. */
  lemma {:induction false} CandidatesMember(order: seq<ClassGroup>, f: MemberFacts, g: ClassGroup)
    ensures g in Candidates(order, f) <==> g in order && Defines(g, f)
  {
    if order != [] {
      var k := |order| - 1;
      CandidatesMember(order[..k], f, g);
      assert order == order[..k] + [order[k]];
    }
  }

  /** The last candidate is the last of the order when the member defines that one. */
  lemma CandidatesLast(order: seq<ClassGroup>, f: MemberFacts)
    requires order != [] && Defines(order[|order| - 1], f)
    ensures Candidates(order, f) != [] && Candidates(order, f)[|Candidates(order, f)| - 1] == order[|order| - 1]
  {
  }

  /** No candidate when the member defines no group of the order. */
  lemma {:induction false} CandidatesEmpty(order: seq<ClassGroup>, f: MemberFacts)
    requires forall i :: 0 <= i < |order| ==> !Defines(order[i], f)
    ensures Candidates(order, f) == []
  {
    if order != [] {
      CandidatesEmpty(order[..|order| - 1], f);
    }
  }

  /** A candidate of a member is a group its kind of member may define, and one whose condition holds. */
  lemma CandidateGroupsMember(member: ClassMember, name: string, g: ClassGroup)
    ensures g in CandidateGroups(member, name) <==> g in OrderFor(Facts(member, name).memberType) && Defines(g, Facts(member, name))
  {
    CandidatesMember(OrderFor(Facts(member, name).memberType), Facts(member, name), g);
  }

  /** Methods end with `method`; constructors start with `constructor`. */
  lemma MethodCandidatesSpec(member: ClassMember, name: string)
    requires member.MethodDefinition?
    ensures var r := CandidateGroups(member, name);
      && r != [] && r[|r| - 1] == MethodGroup
      && (r[0] == ConstructorGroup <==> member.kind == ConstructorMethod)
  {
    var f := Facts(member, name);
    CandidatesLast(MethodOrder, f);
    CandidatesPrefix(MethodOrder, 1, f);
    assert MethodOrder[..1] == [ConstructorGroup];
    var r := CandidateGroups(member, name);
    if member.kind == ConstructorMethod {
      assert Candidates(MethodOrder[..1], f) == [ConstructorGroup] by {
        assert MethodOrder[..1][..0] == [];
      }
    } else {
      CandidatesMember(MethodOrder, f, ConstructorGroup);
    }
  }

  /** Index signatures define only `index-signature`; static blocks and other members define nothing. */
  lemma FixedCandidatesSpec(member: ClassMember, name: string)
    ensures member.IndexSignature? ==> CandidateGroups(member, name) == [IndexSignatureGroup]
    ensures member.StaticBlock? || member.OtherMember? ==> CandidateGroups(member, name) == []
  {
    if member.IndexSignature? {
      var f := Facts(member, name);
      var order := [IndexSignatureGroup];
      assert OrderFor(f.memberType) == order;
      assert order[..0] == [];
      assert Candidates(order[..0], f) == [];
      assert Defines(order[0], f);
    }
  }

  /** Accessor properties without decorators define nothing. */
  lemma AccessorCandidatesSpec(member: ClassMember, name: string)
    requires member.AccessorProperty?
    ensures member.decorators == 0 ==> CandidateGroups(member, name) == []
    ensures member.decorators > 0 ==>
      var r := CandidateGroups(member, name);
      r != [] && r[|r| - 1] == DecoratedAccessorPropertyGroup
  {
    var f := Facts(member, name);
    if member.decorators == 0 {
      CandidatesEmpty(AccessorOrder, f);
    } else {
      CandidatesLast(AccessorOrder, f);
    }
  }

  /** Properties end with `property`. */
  lemma PropertyCandidatesSpec(member: ClassMember, name: string)
    requires member.PropertyDefinition?
    ensures var r := CandidateGroups(member, name);
      r != [] && r[|r| - 1] == PropertyGroup
  {
    CandidatesLast(PropertyOrder, Facts(member, name));
  }

  /** The candidates of a prefix of the order come first. */
  lemma {:induction false} CandidatesPrefix(order: seq<ClassGroup>, k: nat, f: MemberFacts)
    requires k <= |order|
    ensures |Candidates(order[..k], f)| <= |Candidates(order, f)|
    ensures Candidates(order, f)[..|Candidates(order[..k], f)|] == Candidates(order[..k], f)
    decreases |order|
  {
    if k < |order| {
      var n := |order| - 1;
      assert order[..n][..k] == order[..k];
      CandidatesPrefix(order[..n], k, f);
    } else {
      assert order[..k] == order;
    }
  }

  /** `if (condition) defineGroup(group)` for the group at position `k` of an order. */
  method DefineWhen(defined: seq<ClassGroup>, condition: bool, order: seq<ClassGroup>, k: nat, ghost f: MemberFacts)
    returns (r: seq<ClassGroup>)
    requires k < |order| && defined == Candidates(order[..k], f) && condition == Defines(order[k], f)
    ensures r == Candidates(order[..k + 1], f)
  {
    assert order[..k + 1][..k] == order[..k];
    r := defined;
    if condition {
      r := r + [order[k]];
    }
  }

  /** The `defineGroup` calls the rule makes for a member, in order. */
  method DefineCandidateGroups(member: ClassMember, name: string) returns (defined: seq<ClassGroup>)
    ensures defined == CandidateGroups(member, name)
  {
    var isPrivate := StartsWith(name, "_") || StartsWith(name, "#");
    var decorated := !member.StaticBlock? && !member.IndexSignature? && member.decorators > 0;
    defined := [];
    if member.MethodDefinition? {
      defined := DefineMethodGroups(member, name, isPrivate, decorated);
    } else if member.IndexSignature? {
      defined := DefineWhen(defined, true, [IndexSignatureGroup], 0, Facts(member, name));
      assert [IndexSignatureGroup][..1] == [IndexSignatureGroup];
    } else if member.AccessorProperty? {
      defined := DefineAccessorGroups(member, name, isPrivate, decorated);
    } else if member.PropertyDefinition? {
      defined := DefinePropertyGroups(member, name, isPrivate, decorated);
    }
  }

  /** What each method group asks of a method. */
  lemma MethodDefines(f: MemberFacts)
    requires f.memberType == MethodMember
    ensures Defines(ConstructorGroup, f) == (f.kind == ConstructorMethod)
    ensures Defines(DecoratedGetMethodGroup, f) == (f.decorated && f.kind == GetMethod)
    ensures Defines(DecoratedSetMethodGroup, f) == (f.decorated && f.kind == SetMethod)
    ensures Defines(DecoratedMethodGroup, f) == f.decorated
    ensures Defines(StaticPrivateMethodGroup, f) == (f.isPrivate && f.isStatic)
    ensures Defines(PrivateMethodGroup, f) == f.isPrivate
    ensures Defines(StaticMethodGroup, f) == f.isStatic
    ensures Defines(GetMethodGroup, f) == (f.kind == GetMethod)
    ensures Defines(SetMethodGroup, f) == (f.kind == SetMethod)
    ensures Defines(MethodGroup, f)
  {
    MethodDefinesSpecific(f);
    MethodDefinesGeneral(f);
  }

  /** The constructor, decorated and static private method groups. */
  lemma MethodDefinesSpecific(f: MemberFacts)
    requires f.memberType == MethodMember
    ensures Defines(ConstructorGroup, f) == (f.kind == ConstructorMethod)
    ensures Defines(DecoratedGetMethodGroup, f) == (f.decorated && f.kind == GetMethod)
    ensures Defines(DecoratedSetMethodGroup, f) == (f.decorated && f.kind == SetMethod)
    ensures Defines(DecoratedMethodGroup, f) == f.decorated
    ensures Defines(StaticPrivateMethodGroup, f) == (f.isPrivate && f.isStatic)
  {
  }

  /** The private, static, get, set and plain method groups. */
  lemma MethodDefinesGeneral(f: MemberFacts)
    requires f.memberType == MethodMember
    ensures Defines(PrivateMethodGroup, f) == f.isPrivate
    ensures Defines(StaticMethodGroup, f) == f.isStatic
    ensures Defines(GetMethodGroup, f) == (f.kind == GetMethod)
    ensures Defines(SetMethodGroup, f) == (f.kind == SetMethod)
    ensures Defines(MethodGroup, f)
  {
  }

  /** What each property group asks of a property. */
  lemma PropertyDefines(f: MemberFacts)
    requires f.memberType == PropertyMember
    ensures Defines(PrivateDecoratedPropertyGroup, f) == (f.decorated && f.isPrivate)
    ensures Defines(DecoratedPropertyGroup, f) == f.decorated
    ensures Defines(PrivatePropertyGroup, f) == f.isPrivate
    ensures Defines(StaticPropertyGroup, f) == f.isStatic
    ensures Defines(PropertyGroup, f)
  {
  }

  method DefineMethodGroups(member: ClassMember, name: string, isPrivate: bool, decorated: bool) returns (defined: seq<ClassGroup>)
    requires member.MethodDefinition? && isPrivate == IsPrivateName(name) && decorated == Decorated(member)
    ensures defined == Candidates(MethodOrder, Facts(member, name))
  {
    var isPrivateMethod := member.accessibility == PrivateAccessibility || isPrivate;
    var isStaticMethod := member.isStatic;
    ghost var f := MemberFacts(MethodMember, member.kind, isPrivateMethod, isStaticMethod, decorated);
    assert f == Facts(member, name);
    defined := DefineMethodGroupsHead(member.kind, isPrivateMethod, isStaticMethod, decorated, f);
    defined := DefineMethodGroupsTail(member.kind, isPrivateMethod, isStaticMethod, decorated, f, defined);
  }

  /** The first five `defineGroup` calls for a method: constructor, decorated, static private. */
  method DefineMethodGroupsHead(kind: MethodKind, isPrivateMethod: bool, isStaticMethod: bool, decorated: bool, ghost f: MemberFacts)
    returns (defined: seq<ClassGroup>)
    requires f == MemberFacts(MethodMember, kind, isPrivateMethod, isStaticMethod, decorated)
    ensures defined == Candidates(MethodOrder[..5], f)
  {
    MethodDefines(f);
    defined := [];
    defined := DefineWhen(defined, kind == ConstructorMethod, MethodOrder, 0, f);
    defined := DefineWhen(defined, decorated && kind == GetMethod, MethodOrder, 1, f);
    defined := DefineWhen(defined, decorated && kind == SetMethod, MethodOrder, 2, f);
    defined := DefineWhen(defined, decorated, MethodOrder, 3, f);
    defined := DefineWhen(defined, isPrivateMethod && isStaticMethod, MethodOrder, 4, f);
  }

  /** The last five `defineGroup` calls for a method: private, static, get, set and `method`. */
  method DefineMethodGroupsTail(kind: MethodKind, isPrivateMethod: bool, isStaticMethod: bool, decorated: bool, ghost f: MemberFacts,
                                head: seq<ClassGroup>) returns (defined: seq<ClassGroup>)
    requires f == MemberFacts(MethodMember, kind, isPrivateMethod, isStaticMethod, decorated)
    requires head == Candidates(MethodOrder[..5], f)
    ensures defined == Candidates(MethodOrder, f)
  {
    MethodDefines(f);
    defined := head;
    defined := DefineWhen(defined, isPrivateMethod, MethodOrder, 5, f);
    defined := DefineWhen(defined, isStaticMethod, MethodOrder, 6, f);
    defined := DefineWhen(defined, kind == GetMethod, MethodOrder, 7, f);
    defined := DefineWhen(defined, kind == SetMethod, MethodOrder, 8, f);
    defined := DefineWhen(defined, true, MethodOrder, 9, f);
    assert MethodOrder[..10] == MethodOrder;
  }

  method DefineAccessorGroups(member: ClassMember, name: string, isPrivate: bool, decorated: bool) returns (defined: seq<ClassGroup>)
    requires member.AccessorProperty? && isPrivate == IsPrivateName(name) && decorated == Decorated(member)
    ensures defined == Candidates(AccessorOrder, Facts(member, name))
  {
    ghost var f := Facts(member, name);
    defined := [];
    defined := DefineWhen(defined, decorated && (member.accessibility == PrivateAccessibility || isPrivate), AccessorOrder, 0, f);
    defined := DefineWhen(defined, decorated, AccessorOrder, 1, f);
    assert AccessorOrder[..2] == AccessorOrder;
  }

  method DefinePropertyGroups(member: ClassMember, name: string, isPrivate: bool, decorated: bool) returns (defined: seq<ClassGroup>)
    requires member.PropertyDefinition? && isPrivate == IsPrivateName(name) && decorated == Decorated(member)
    ensures defined == Candidates(PropertyOrder, Facts(member, name))
  {
    var isPrivateProperty := member.accessibility == PrivateAccessibility || isPrivate;
    ghost var f := MemberFacts(PropertyMember, PlainMethod, isPrivateProperty, member.isStatic, decorated);
    assert f == Facts(member, name);
    defined := DefinePropertyCandidates(isPrivateProperty, member.isStatic, decorated, f);
  }

  /** The five `defineGroup` calls for a property, from the most specific group to `property`. */
  method DefinePropertyCandidates(isPrivateProperty: bool, isStatic: bool, decorated: bool, ghost f: MemberFacts)
    returns (defined: seq<ClassGroup>)
    requires f == MemberFacts(PropertyMember, PlainMethod, isPrivateProperty, isStatic, decorated)
    ensures defined == Candidates(PropertyOrder, f)
  {
    PropertyDefines(f);
    defined := [];
    defined := DefineWhen(defined, decorated && isPrivateProperty, PropertyOrder, 0, f);
    defined := DefineWhen(defined, decorated, PropertyOrder, 1, f);
    defined := DefineWhen(defined, isPrivateProperty, PropertyOrder, 2, f);
    defined := DefinePropertyCandidatesTail(isPrivateProperty, isStatic, decorated, f, defined);
  }

  /** The last two calls for a property: static, then `property`. */
  method DefinePropertyCandidatesTail(isPrivateProperty: bool, isStatic: bool, decorated: bool, ghost f: MemberFacts,
                                      head: seq<ClassGroup>) returns (defined: seq<ClassGroup>)
    requires f == MemberFacts(PropertyMember, PlainMethod, isPrivateProperty, isStatic, decorated)
    requires head == Candidates(PropertyOrder[..3], f)
    ensures defined == Candidates(PropertyOrder, f)
  {
    PropertyDefines(f);
    defined := DefineWhen(head, isStatic, PropertyOrder, 3, f);
    defined := DefineWhen(defined, true, PropertyOrder, 4, f);
    assert PropertyOrder[..5] == PropertyOrder;
  }

  // ---------------------------------------------------------------------
  // The node of a member
  // ---------------------------------------------------------------------

  /** `defineGroup` with each group's name, in order. */
  function DefineCalls(groups: seq<ClassGroup>): (r: seq<GroupCall>)
    ensures |r| == |groups|
    ensures forall i :: 0 <= i < |groups| ==> r[i] == DefineGroup(GroupName(groups[i]), false)
  {
    if groups == [] then [] else DefineCalls(groups[..|groups| - 1]) + [DefineGroup(GroupName(groups[|groups| - 1]), false)]
  }

  /** The calls made on a member's group state: its candidate groups, then `setCustomGroups` with its name. */
  function MemberCalls(member: ClassMember, name: string): seq<GroupCall> {
    DefineCalls(CandidateGroups(member, name)) + [SetCustomGroups(name)]
  }

  /**
   * What the rule reads of a class body besides its members: the source
   * text, the `partitionByComment` option, and the collaborators it calls
   * (`getCommentBefore`, giving the comment's value, `isPartitionComment`,
   * and `getGroup` of the group state `useGroups(options.groups)` makes).
   */
  datatype ClassEnv = ClassEnv(
    sourceText: string,
    partitionByComment: NodeRange.PartitionByComment,
    commentBefore: ClassMember -> Option<string>,
    isPartitionComment: (NodeRange.PartitionByComment, string) -> bool,
    getGroup: GroupReader)

  /** The sorting node of a member. */
  function MemberNode(env: ClassEnv, member: ClassMember): SortingNode {
    var name := MemberName(env.sourceText, member);
    SortingNode(member.id, name, member.size, false, env.getGroup(MemberCalls(member, name)))
  }

  /**
   * A member's node carries its name, size and identity, is never marked
   * eslint-disabled, and takes the group left current after defining its
   * candidate groups in order and then its custom groups.
   */
  lemma MemberNodeSpec(env: ClassEnv, member: ClassMember)
    ensures var node := MemberNode(env, member);
      var calls := MemberCalls(member, node.name);
      var candidates := CandidateGroups(member, node.name);
      && node.id == member.id && node.size == member.size && !node.isEslintDisabled
      && node.name == MemberName(env.sourceText, member)
      && node.group == env.getGroup(calls)
      && |calls| == |candidates| + 1
      && calls[|candidates|] == SetCustomGroups(node.name)
      && (forall i :: 0 <= i < |candidates| ==> calls[i] == DefineGroup(GroupName(candidates[i]), false))
  {
  }

  /** The reducer's work for one member: its name, its `defineGroup` calls, then `getGroup`. */
  method FormatMember(env: ClassEnv, member: ClassMember) returns (node: SortingNode)
    ensures node == MemberNode(env, member)
  {
    var name := MemberName(env.sourceText, member);
    var defined := DefineCandidateGroups(member, name);
    var calls := DefineCalls(defined) + [SetCustomGroups(name)];
    node := SortingNode(member.id, name, member.size, false, env.getGroup(calls));
  }

  // ---------------------------------------------------------------------
  // Partitions
  // ---------------------------------------------------------------------

  /** Whether the `partitionByComment` value is truthy: `true`, a non-empty string, or any array. */
  predicate Enabled(partitionByComment: NodeRange.PartitionByComment) {
    match partitionByComment
    case Flag(enabled) => enabled
    case Pattern(pattern) => pattern != []
    case Patterns(_) => true
  }

  /** A member starts a partition when the option is set and the comment before it is a partition comment. */
  predicate StartsPartition(env: ClassEnv, member: ClassMember) {
    && Enabled(env.partitionByComment)
    && env.commentBefore(member).Some?
    && env.isPartitionComment(env.partitionByComment, env.commentBefore(member).value)
  }

  /** One step of the reducer: maybe open a partition, then add the member's node to the last one. */
  function Step(acc: seq<seq<SortingNode>>, env: ClassEnv, member: ClassMember): (r: seq<seq<SortingNode>>)
    requires acc != []
    ensures r != []
  {
    var reopened := if StartsPartition(env, member) then acc + [[]] else acc;
    reopened[..|reopened| - 1] + [reopened[|reopened| - 1] + [MemberNode(env, member)]]
  }

  /** The partitions of a class body, from `[[]]`. */
  function Partitions(env: ClassEnv, members: seq<ClassMember>): (r: seq<seq<SortingNode>>)
    ensures r != []
  {
    if members == [] then [[]]
    else Step(Partitions(env, members[..|members| - 1]), env, members[|members| - 1])
  }

  /** The `node.body.reduce` that builds the partitions. */
  method FormatMembers(env: ClassEnv, members: seq<ClassMember>) returns (formatted: seq<seq<SortingNode>>)
    ensures formatted == Partitions(env, members)
  {
    formatted := [[]];
    for i := 0 to |members|
      invariant formatted == Partitions(env, members[..i])
    {
      assert members[..i + 1][..i] == members[..i];
      formatted := AddMember(env, formatted, members[i]);
    }
    assert members[..|members|] == members;
  }

  /** The loop body: open a partition after a partition comment, then add the member's node to the last one. */
  method AddMember(env: ClassEnv, formatted: seq<seq<SortingNode>>, member: ClassMember) returns (r: seq<seq<SortingNode>>)
    requires formatted != []
    ensures r == Step(formatted, env, member)
  {
    r := formatted;
    var comment := env.commentBefore(member);
    if Enabled(env.partitionByComment) && comment.Some? && env.isPartitionComment(env.partitionByComment, comment.value) {
      r := r + [[]];
    }
    var node := FormatMember(env, member);
    r := r[..|r| - 1] + [r[|r| - 1] + [node]];
  }

  /** The members' nodes, in order. */
  function MemberNodes(env: ClassEnv, members: seq<ClassMember>): (r: seq<SortingNode>)
    ensures |r| == |members|
  {
    if members == [] then [] else MemberNodes(env, members[..|members| - 1]) + [MemberNode(env, members[|members| - 1])]
  }

  /** How many members start a partition. */
  function StartCount(env: ClassEnv, members: seq<ClassMember>): nat {
    if members == [] then 0
    else StartCount(env, members[..|members| - 1]) + if StartsPartition(env, members[|members| - 1]) then 1 else 0
  }

  /** Read one after another, the partitions are the members' nodes in order. */
  lemma {:induction false} PartitionsFlatten(env: ClassEnv, members: seq<ClassMember>)
    ensures Concat(Partitions(env, members)) == MemberNodes(env, members)
  {
    if members == [] {
      ConcatOne<SortingNode>([]);
    } else {
      var k := |members| - 1;
      var acc := Partitions(env, members[..k]);
      PartitionsFlatten(env, members[..k]);
      var reopened := if StartsPartition(env, members[k]) then acc + [[]] else acc;
      if StartsPartition(env, members[k]) {
        ConcatSnoc(acc, []);
      }
      assert Concat(reopened) == Concat(acc);
      ConcatPushLast(reopened, MemberNode(env, members[k]));
    }
  }

  /** There is one partition, and one more for each member that starts one. */
  lemma {:induction false} PartitionsCount(env: ClassEnv, members: seq<ClassMember>)
    ensures |Partitions(env, members)| == 1 + StartCount(env, members)
  {
    if members != [] {
      PartitionsCount(env, members[..|members| - 1]);
    }
  }

  /** With no partition comment (in particular with the option off) the body is one partition. */
  lemma {:induction false} OnePartitionWithoutStarts(env: ClassEnv, members: seq<ClassMember>)
    requires forall i :: 0 <= i < |members| ==> !StartsPartition(env, members[i])
    ensures Partitions(env, members) == [MemberNodes(env, members)]
  {
    if members != [] {
      var k := |members| - 1;
      OnePartitionWithoutStarts(env, members[..k]);
    }
  }

  /** A member that starts a partition is the first node of a fresh last partition; the earlier ones stay. */
  lemma StartOpensPartition(env: ClassEnv, members: seq<ClassMember>, member: ClassMember)
    requires StartsPartition(env, member)
    ensures var before := Partitions(env, members);
      var after := Partitions(env, members + [member]);
      && |after| == |before| + 1
      && after[..|before|] == before
      && after[|before|] == [MemberNode(env, member)]
  {
    assert (members + [member])[..|members|] == members;
  }

  /** Without a partition comment the member joins the last partition. */
  lemma JoinsLastPartition(env: ClassEnv, members: seq<ClassMember>, member: ClassMember)
    requires !StartsPartition(env, member)
    ensures var before := Partitions(env, members);
      var after := Partitions(env, members + [member]);
      && |after| == |before|
      && after[..|before| - 1] == before[..|before| - 1]
      && after[|before| - 1] == before[|before| - 1] + [MemberNode(env, member)]
  {
    assert (members + [member])[..|members|] == members;
  }

  // ---------------------------------------------------------------------
  // Options
  // ---------------------------------------------------------------------

  /** The `groups` default: properties, then the constructor, then methods, then the rest. */
  const DefaultGroups: seq<GroupSlot> := [Single("property"), Single("constructor"), Single("method"), Single("unknown")]

  /** `groups` after `complete`: the configured list, or the default. */
  function EffectiveGroups(groups: Option<seq<GroupSlot>>): seq<GroupSlot> {
    if groups.Some? then groups.value else DefaultGroups
  }

  /**
   * Under the default groups properties rank first, then constructors, then
   * methods; `unknown` and every other group (say `static-method`) is not
   * listed apart and shares the ranks after them.
   */
  lemma DefaultGroupRanks(group: string)
    ensures GroupNumbers.GroupNumber(EffectiveGroups(None), "property") == 0
    ensures GroupNumbers.GroupNumber(EffectiveGroups(None), "constructor") == 1
    ensures GroupNumbers.GroupNumber(EffectiveGroups(None), "method") == 2
    ensures GroupNumbers.GroupNumber(EffectiveGroups(None), "unknown") == 3
    ensures group !in ["property", "constructor", "method", "unknown"] ==> GroupNumbers.GroupNumber(EffectiveGroups(None), group) == 4
  {
    var g := DefaultGroups;
    assert g[1..] == [Single("constructor"), Single("method"), Single("unknown")];
    assert g[1..][1..] == [Single("method"), Single("unknown")];
    assert g[1..][1..][1..] == [Single("unknown")];
    assert g[1..][1..][1..][1..] == [];
    if group !in ["property", "constructor", "method", "unknown"] {
      assert GroupNumbers.GroupNumber(g[1..][1..][1..], group) == 1;
      assert GroupNumbers.GroupNumber(g[1..][1..], group) == 2;
      assert GroupNumbers.GroupNumber(g[1..], group) == 3;
    }
  }

  /** The `partitionByComment` default is `false`, and it switches every partition comment off. */
  lemma DefaultPartitionByCommentIsOff(env: ClassEnv, member: ClassMember)
    requires env.partitionByComment == NodeRange.PartitionSetting(None)
    ensures !StartsPartition(env, member)
  {
  }

  /** Only a body with more than one member is looked at. */
  predicate ChecksBody(members: seq<ClassMember>) {
    |members| > 1
  }

  // ---------------------------------------------------------------------
  // Reported pairs
  // ---------------------------------------------------------------------

  /** The test each consecutive pair of a partition goes through. */
  predicate Reported(groups: seq<GroupSlot>, compare: Comparator, left: SortingNode, right: SortingNode) {
    var leftNum := GroupNumbers.GroupNumber(groups, left.group);
    var rightNum := GroupNumbers.GroupNumber(groups, right.group);
    left.name != right.name && (leftNum > rightNum || (leftNum == rightNum && compare(left, right) > 0))
  }

  /** The order the rule asks for: by group number, and by `compare` within a group. */
  function ClassCompare(groups: seq<GroupSlot>, compare: Comparator, a: SortingNode, b: SortingNode): int {
    var aNum := GroupNumbers.GroupNumber(groups, a.group);
    var bNum := GroupNumbers.GroupNumber(groups, b.group);
    if aNum < bNum then -1 else if aNum > bNum then 1 else compare(a, b)
  }

  function ClassOrder(groups: seq<GroupSlot>, compare: Comparator): Comparator {
    (a, b) => ClassCompare(groups, compare, a, b)
  }

  /** A pair is reported exactly when its names differ and it is out of the rule's order. */
  lemma ReportedIsOutOfOrder(groups: seq<GroupSlot>, compare: Comparator, left: SortingNode, right: SortingNode)
    ensures Reported(groups, compare, left, right)
      <==> left.name != right.name && ClassOrder(groups, compare)(left, right) > 0
  {
  }

  /** Group number first, `compare` second is again a total preorder. */
  lemma ClassOrderIsTotalPreorder(groups: seq<GroupSlot>, compare: Comparator)
    requires TotalPreorder(compare)
    ensures TotalPreorder(ClassOrder(groups, compare))
  {
    var cmp := ClassOrder(groups, compare);
    forall a, b, c | cmp(a, b) <= 0 && cmp(b, c) <= 0 ensures cmp(a, c) <= 0 {
      var aNum := GroupNumbers.GroupNumber(groups, a.group);
      var cNum := GroupNumbers.GroupNumber(groups, c.group);
      if aNum == cNum {
        assert compare(a, b) <= 0 && compare(b, c) <= 0;
      }
    }
  }

  /** The pairs `pairwise` reports in one partition, in order. */
  function ReportedPairs(groups: seq<GroupSlot>, compare: Comparator, nodes: seq<SortingNode>): seq<(SortingNode, SortingNode)> {
    if |nodes| < 2 then []
    else
      var k := |nodes| - 1;
      ReportedPairs(groups, compare, nodes[..k])
        + if Reported(groups, compare, nodes[k - 1], nodes[k]) then [(nodes[k - 1], nodes[k])] else []
  }

  /** The reported pairs are exactly the consecutive pairs that fail the test. */
  lemma {:induction false} ReportedPairsSpec(groups: seq<GroupSlot>, compare: Comparator, nodes: seq<SortingNode>)
    ensures forall p :: p in ReportedPairs(groups, compare, nodes) ==> Reported(groups, compare, p.0, p.1)
    ensures forall i | 0 < i < |nodes| && Reported(groups, compare, nodes[i - 1], nodes[i]) ::
              (nodes[i - 1], nodes[i]) in ReportedPairs(groups, compare, nodes)
    ensures ReportedPairs(groups, compare, nodes) == []
      <==> forall i :: 0 < i < |nodes| ==> !Reported(groups, compare, nodes[i - 1], nodes[i])
  {
    if |nodes| >= 2 {
      var k := |nodes| - 1;
      var init := nodes[..k];
      ReportedPairsSpec(groups, compare, init);
      forall i | 0 <= i < k ensures init[i] == nodes[i] { }
      var prev := ReportedPairs(groups, compare, init);
      ReportedPairsStep(groups, compare, nodes, prev,
        prev + if Reported(groups, compare, nodes[k - 1], nodes[k]) then [(nodes[k - 1], nodes[k])] else []);
    }
  }

  /** The pairs of all but the last node, extended by the last consecutive pair when it fails the test. */
  lemma ReportedPairsStep(groups: seq<GroupSlot>, compare: Comparator, nodes: seq<SortingNode>,
                          prev: seq<(SortingNode, SortingNode)>, pairs: seq<(SortingNode, SortingNode)>)
    requires |nodes| >= 2
    requires var k := |nodes| - 1;
      pairs == prev + if Reported(groups, compare, nodes[k - 1], nodes[k]) then [(nodes[k - 1], nodes[k])] else []
    requires forall p :: p in prev ==> Reported(groups, compare, p.0, p.1)
    requires forall i | 0 < i < |nodes| - 1 && Reported(groups, compare, nodes[i - 1], nodes[i]) :: (nodes[i - 1], nodes[i]) in prev
    requires prev == [] <==> forall i :: 0 < i < |nodes| - 1 ==> !Reported(groups, compare, nodes[i - 1], nodes[i])
    ensures forall p :: p in pairs ==> Reported(groups, compare, p.0, p.1)
    ensures forall i | 0 < i < |nodes| && Reported(groups, compare, nodes[i - 1], nodes[i]) :: (nodes[i - 1], nodes[i]) in pairs
    ensures pairs == [] <==> forall i :: 0 < i < |nodes| ==> !Reported(groups, compare, nodes[i - 1], nodes[i])
  {
  }

  /**
   * When neighbours have distinct names, a partition has no reported pair
   * exactly when it is in the rule's order; without that condition, one in
   * order still has none.
   */
  lemma NothingReportedIffSorted(groups: seq<GroupSlot>, compare: Comparator, nodes: seq<SortingNode>)
    requires TotalPreorder(compare)
    ensures SortedBy(nodes, ClassOrder(groups, compare)) ==> ReportedPairs(groups, compare, nodes) == []
    ensures (forall i :: 0 < i < |nodes| ==> nodes[i - 1].name != nodes[i].name)
      ==> (ReportedPairs(groups, compare, nodes) == [] <==> SortedBy(nodes, ClassOrder(groups, compare)))
  {
    var cmp := ClassOrder(groups, compare);
    ClassOrderIsTotalPreorder(groups, compare);
    ReportedPairsSpec(groups, compare, nodes);
    if SortedBy(nodes, cmp) {
      forall i | 0 < i < |nodes| ensures !Reported(groups, compare, nodes[i - 1], nodes[i]) {
        assert cmp(nodes[i], nodes[i - 1]) >= 0;
        ReportedIsOutOfOrder(groups, compare, nodes[i - 1], nodes[i]);
      }
    }
    if (forall i :: 0 < i < |nodes| ==> nodes[i - 1].name != nodes[i].name) && ReportedPairs(groups, compare, nodes) == [] {
      forall i | 0 < i < |nodes| ensures cmp(nodes[i - 1], nodes[i]) <= 0 {
        ReportedIsOutOfOrder(groups, compare, nodes[i - 1], nodes[i]);
      }
      NeighboursSorted(nodes, cmp);
    }
  }

  /** The pairs reported over all partitions, partition by partition. */
  function PartitionReports(groups: seq<GroupSlot>, compare: Comparator, partitions: seq<seq<SortingNode>>)
    : seq<(SortingNode, SortingNode)>
  {
    if partitions == [] then []
    else
      PartitionReports(groups, compare, partitions[..|partitions| - 1])
        + ReportedPairs(groups, compare, partitions[|partitions| - 1])
  }

  /** What the rule reports on a class body: nothing for fewer than two members. */
  function BodyReports(env: ClassEnv, groups: seq<GroupSlot>, compare: Comparator, members: seq<ClassMember>)
    : seq<(SortingNode, SortingNode)>
  {
    if ChecksBody(members) then PartitionReports(groups, compare, Partitions(env, members)) else []
  }

  /** No partition has a reported pair. */
  ghost predicate NoPartitionReported(groups: seq<GroupSlot>, compare: Comparator, partitions: seq<seq<SortingNode>>) {
    forall k :: 0 <= k < |partitions| ==> ReportedPairs(groups, compare, partitions[k]) == []
  }

  lemma {:induction false} PartitionReportsEmpty(groups: seq<GroupSlot>, compare: Comparator, partitions: seq<seq<SortingNode>>)
    ensures PartitionReports(groups, compare, partitions) == [] <==> NoPartitionReported(groups, compare, partitions)
  {
    if partitions != [] {
      var n := |partitions| - 1;
      var init, last := partitions[..n], partitions[n];
      PartitionReportsEmpty(groups, compare, init);
      var rest, tail := PartitionReports(groups, compare, init), ReportedPairs(groups, compare, last);
      assert PartitionReports(groups, compare, partitions) == rest + tail;
      assert rest + tail == [] <==> rest == [] && tail == [];
      NoPartitionReportedSnoc(groups, compare, partitions, init, last);
    }
  }

  lemma NoPartitionReportedSnoc(groups: seq<GroupSlot>, compare: Comparator, partitions: seq<seq<SortingNode>>,
                                init: seq<seq<SortingNode>>, last: seq<SortingNode>)
    requires partitions == init + [last]
    ensures NoPartitionReported(groups, compare, partitions)
        <==> NoPartitionReported(groups, compare, init) && ReportedPairs(groups, compare, last) == []
  {
    assert forall k :: 0 <= k < |init| ==> partitions[k] == init[k];
    assert partitions[|init|] == last;
  }

  /**
   * A body of fewer than two members is not reported on; a larger one is
   * exactly when some partition has a reported pair.
   */
  lemma BodyReportsSpec(env: ClassEnv, groups: seq<GroupSlot>, compare: Comparator, members: seq<ClassMember>)
    ensures |members| <= 1 ==> BodyReports(env, groups, compare, members) == []
    ensures |members| > 1 ==> (BodyReports(env, groups, compare, members) == [] <==> NoPartitionReported(groups, compare, Partitions(env, members)))
  {
    var partitions := Partitions(env, members);
    PartitionReportsEmpty(groups, compare, partitions);
    if |members| > 1 {
      assert BodyReports(env, groups, compare, members) == PartitionReports(groups, compare, partitions);
    }
  }

  /** A body whose partitions are each in the rule's order is not reported on. */
  lemma SortedBodyNotReported(env: ClassEnv, groups: seq<GroupSlot>, compare: Comparator, members: seq<ClassMember>)
    requires TotalPreorder(compare)
    requires forall k :: 0 <= k < |Partitions(env, members)| ==> SortedBy(Partitions(env, members)[k], ClassOrder(groups, compare))
    ensures BodyReports(env, groups, compare, members) == []
  {
    var partitions := Partitions(env, members);
    BodyReportsSpec(env, groups, compare, members);
    forall k | 0 <= k < |partitions| ensures ReportedPairs(groups, compare, partitions[k]) == [] {
      NothingReportedIffSorted(groups, compare, partitions[k]);
    }
  }

  // ---------------------------------------------------------------------
  // The order the fix writes
  // ---------------------------------------------------------------------

  /** A partition's nodes keyed by group number, each bucket sorted again whenever a node joins it. */
  function Grouped(groups: seq<GroupSlot>, compare: Comparator, nodes: seq<SortingNode>): map<nat, seq<SortingNode>> {
    if nodes == [] then map[]
    else
      var grouped := Grouped(groups, compare, nodes[..|nodes| - 1]);
      var node := nodes[|nodes| - 1];
      var groupNum := GroupNumbers.GroupNumber(groups, node.group);
      if groupNum !in grouped then grouped[groupNum := [node]]
      else grouped[groupNum := StableSort(grouped[groupNum] + [node], compare)]
  }

  /** The buckets below `k`, in ascending numeric key order, each sorted. */
  function Collect(grouped: map<nat, seq<SortingNode>>, compare: Comparator, k: nat): seq<SortingNode> {
    if k == 0 then []
    else Collect(grouped, compare, k - 1) + if k - 1 in grouped then StableSort(grouped[k - 1], compare) else []
  }

  /** The order the fix writes a partition in; every group number is at most `|groups|`. */
  function FixOrder(groups: seq<GroupSlot>, compare: Comparator, nodes: seq<SortingNode>): seq<SortingNode> {
    Collect(Grouped(groups, compare, nodes), compare, |groups| + 1)
  }

  /**
   * The fix's `nodes.reduce` into buckets and the loop over the sorted keys.
   * The keys are group numbers, at most `|groups|`, so the ascending
   * numeric order of `Object.keys` is the order of `0 .. |groups|`.
   */
  method SortForFix(groups: seq<GroupSlot>, compare: Comparator, nodes: seq<SortingNode>) returns (sortedNodes: seq<SortingNode>)
    ensures sortedNodes == FixOrder(groups, compare, nodes)
  {
    var grouped: map<nat, seq<SortingNode>> := map[];
    for i := 0 to |nodes|
      invariant grouped == Grouped(groups, compare, nodes[..i])
    {
      var groupNum := GroupNumbers.GetGroupNumber(groups, nodes[i].group);
      if groupNum !in grouped {
        grouped := grouped[groupNum := [nodes[i]]];
      } else {
        grouped := grouped[groupNum := StableSort(grouped[groupNum] + [nodes[i]], compare)];
      }
      assert nodes[..i + 1][..i] == nodes[..i];
    }
    assert nodes[..|nodes|] == nodes;
    sortedNodes := [];
    for group := 0 to |groups| + 1
      invariant sortedNodes == Collect(grouped, compare, group)
    {
      if group in grouped {
        sortedNodes := sortedNodes + StableSort(grouped[group], compare);
      }
    }
  }

  /** The nodes with group number `k`, in order. */
  function Bucket(groups: seq<GroupSlot>, nodes: seq<SortingNode>, k: nat): seq<SortingNode> {
    if nodes == [] then []
    else
      Bucket(groups, nodes[..|nodes| - 1], k)
        + if GroupNumbers.GroupNumber(groups, nodes[|nodes| - 1].group) == k then [nodes[|nodes| - 1]] else []
  }

  /** The nodes with group number below `k`, in order. */
  function Below(groups: seq<GroupSlot>, nodes: seq<SortingNode>, k: nat): seq<SortingNode> {
    if nodes == [] then []
    else
      Below(groups, nodes[..|nodes| - 1], k)
        + if GroupNumbers.GroupNumber(groups, nodes[|nodes| - 1].group) < k then [nodes[|nodes| - 1]] else []
  }

  /** The bucket of each key holds the nodes of that group number, and there is a key exactly for each number some node has. */
  ghost predicate BucketsOf(groups: seq<GroupSlot>, nodes: seq<SortingNode>, grouped: map<nat, seq<SortingNode>>) {
    forall k: nat :: (k in grouped <==> Bucket(groups, nodes, k) != [])
      && (k in grouped ==> multiset(grouped[k]) == multiset(Bucket(groups, nodes, k)))
  }

  lemma {:induction false} GroupedBuckets(groups: seq<GroupSlot>, compare: Comparator, nodes: seq<SortingNode>)
    ensures BucketsOf(groups, nodes, Grouped(groups, compare, nodes))
  {
    if nodes != [] {
      var n := |nodes| - 1;
      GroupedBuckets(groups, compare, nodes[..n]);
    }
  }

  /** The keys of the buckets are group numbers of the partition's nodes, so at most `|groups|`. */
  lemma GroupedKeys(groups: seq<GroupSlot>, compare: Comparator, nodes: seq<SortingNode>)
    ensures forall k :: k in Grouped(groups, compare, nodes) ==> k <= |groups|
    ensures forall i :: 0 <= i < |nodes| ==> GroupNumbers.GroupNumber(groups, nodes[i].group) in Grouped(groups, compare, nodes)
  {
    var grouped := Grouped(groups, compare, nodes);
    GroupedBuckets(groups, compare, nodes);
    forall k | k in grouped ensures k <= |groups| {
      var x := Bucket(groups, nodes, k)[0];
      BucketMembers(groups, nodes, k, x);
      GroupNumbers.GroupNumberIsFirstMatch(groups, x.group);
    }
    forall i | 0 <= i < |nodes| ensures GroupNumbers.GroupNumber(groups, nodes[i].group) in grouped {
      BucketHolds(groups, nodes, i);
    }
  }

  /** Each node is in the bucket of its group number. */
  lemma {:induction false} BucketHolds(groups: seq<GroupSlot>, nodes: seq<SortingNode>, i: nat)
    requires i < |nodes|
    ensures nodes[i] in Bucket(groups, nodes, GroupNumbers.GroupNumber(groups, nodes[i].group))
  {
    var n := |nodes| - 1;
    if i < n {
      BucketHolds(groups, nodes[..n], i);
      assert nodes[..n][i] == nodes[i];
    }
  }

  lemma {:induction false} BucketMembers(groups: seq<GroupSlot>, nodes: seq<SortingNode>, k: nat, x: SortingNode)
    requires x in Bucket(groups, nodes, k)
    ensures x in nodes && GroupNumbers.GroupNumber(groups, x.group) == k
  {
    var n := |nodes| - 1;
    if x !in Bucket(groups, nodes[..n], k) {
      assert x == nodes[n];
    } else {
      BucketMembers(groups, nodes[..n], k, x);
    }
  }

  lemma {:induction false} BelowMembers(groups: seq<GroupSlot>, nodes: seq<SortingNode>, k: nat, x: SortingNode)
    requires x in Below(groups, nodes, k)
    ensures GroupNumbers.GroupNumber(groups, x.group) < k
  {
    var n := |nodes| - 1;
    if x !in Below(groups, nodes[..n], k) {
      assert x == nodes[n];
    } else {
      BelowMembers(groups, nodes[..n], k, x);
    }
  }

  /** No node is below 0. */
  lemma {:induction false} BelowZero(groups: seq<GroupSlot>, nodes: seq<SortingNode>)
    ensures Below(groups, nodes, 0) == []
  {
    if nodes != [] {
      BelowZero(groups, nodes[..|nodes| - 1]);
    }
  }

  /** Raising the bound by one adds the bucket at the old bound. */
  lemma {:induction false} BelowStep(groups: seq<GroupSlot>, nodes: seq<SortingNode>, k: nat)
    ensures multiset(Below(groups, nodes, k + 1)) == multiset(Below(groups, nodes, k)) + multiset(Bucket(groups, nodes, k))
  {
    if nodes != [] {
      BelowStep(groups, nodes[..|nodes| - 1], k);
    }
  }

  /** Every node is below `|groups| + 1`. */
  lemma {:induction false} BelowAll(groups: seq<GroupSlot>, nodes: seq<SortingNode>)
    ensures Below(groups, nodes, |groups| + 1) == nodes
  {
    if nodes != [] {
      var n := |nodes| - 1;
      var init, last := nodes[..n], nodes[n];
      BelowAll(groups, init);
      GroupNumbers.GroupNumberIsFirstMatch(groups, last.group);
      assert GroupNumbers.GroupNumber(groups, last.group) < |groups| + 1;
      assert Below(groups, nodes, |groups| + 1) == Below(groups, init, |groups| + 1) + [last];
      assert nodes == init + [last];
    }
  }

  /** The sorted bucket `Collect` appends for key `k` holds the nodes of group number `k`. */
  lemma BucketOfKey(groups: seq<GroupSlot>, compare: Comparator, nodes: seq<SortingNode>, grouped: map<nat, seq<SortingNode>>, k: nat)
    requires BucketsOf(groups, nodes, grouped)
    ensures multiset(if k in grouped then StableSort(grouped[k], compare) else []) == multiset(Bucket(groups, nodes, k))
  {
    if k !in grouped {
      assert Bucket(groups, nodes, k) == [];
    }
  }

  lemma {:induction false} CollectMultiset(groups: seq<GroupSlot>, compare: Comparator, nodes: seq<SortingNode>,
                                           grouped: map<nat, seq<SortingNode>>, k: nat)
    requires BucketsOf(groups, nodes, grouped)
    ensures multiset(Collect(grouped, compare, k)) == multiset(Below(groups, nodes, k))
  {
    if k == 0 {
      BelowZero(groups, nodes);
    } else {
      var j := k - 1;
      var init := Collect(grouped, compare, j);
      var bucket := if j in grouped then StableSort(grouped[j], compare) else [];
      assert Collect(grouped, compare, k) == init + bucket;
      CollectMultiset(groups, compare, nodes, grouped, j);
      BelowStep(groups, nodes, j);
      BucketOfKey(groups, compare, nodes, grouped, j);
      calc {
        multiset(Collect(grouped, compare, k));
        multiset(init) + multiset(bucket);
        multiset(Below(groups, nodes, j)) + multiset(Bucket(groups, nodes, j));
        multiset(Below(groups, nodes, k));
      }
    }
  }

  /** The fix writes each node of the partition exactly once. */
  lemma FixIsPermutation(groups: seq<GroupSlot>, compare: Comparator, nodes: seq<SortingNode>)
    ensures multiset(FixOrder(groups, compare, nodes)) == multiset(nodes)
  {
    GroupedBuckets(groups, compare, nodes);
    CollectMultiset(groups, compare, nodes, Grouped(groups, compare, nodes), |groups| + 1);
    BelowAll(groups, nodes);
  }

  /** Every bucket, sorted again by `compare`, is in `compare`'s order. */
  ghost predicate BucketsSortable(grouped: map<nat, seq<SortingNode>>, compare: Comparator) {
    forall g :: g in grouped ==> SortedBy(StableSort(grouped[g], compare), compare)
  }

  lemma CollectUnfold(grouped: map<nat, seq<SortingNode>>, compare: Comparator, k: nat)
    requires k > 0
    ensures Collect(grouped, compare, k)
      == Collect(grouped, compare, k - 1) + if k - 1 in grouped then StableSort(grouped[k - 1], compare) else []
  {
  }

  lemma {:induction false} CollectSorted(groups: seq<GroupSlot>, compare: Comparator, nodes: seq<SortingNode>,
                                         grouped: map<nat, seq<SortingNode>>, k: nat)
    requires BucketsSortable(grouped, compare)
    requires BucketsOf(groups, nodes, grouped)
    ensures SortedBy(Collect(grouped, compare, k), ClassOrder(groups, compare))
  {
    if k == 0 {
      assert Collect(grouped, compare, k) == [];
    } else {
      var j := k - 1;
      var cmp := ClassOrder(groups, compare);
      var init := Collect(grouped, compare, j);
      var bucket := if j in grouped then StableSort(grouped[j], compare) else [];
      CollectUnfold(grouped, compare, k);
      CollectSorted(groups, compare, nodes, grouped, j);
      CollectMultiset(groups, compare, nodes, grouped, j);
      BucketOfKey(groups, compare, nodes, grouped, j);
      BucketSorted(groups, compare, nodes, bucket, j);
      BelowBeforeBucket(groups, compare, nodes, init, bucket, j);
      SortedAppend(init, bucket, cmp);
      assert Collect(grouped, compare, k) == init + bucket;
    }
  }

  /** The nodes below group number `j` come before those of the bucket `j` in the rule's order. */
  lemma BelowBeforeBucket(groups: seq<GroupSlot>, compare: Comparator, nodes: seq<SortingNode>,
                          init: seq<SortingNode>, bucket: seq<SortingNode>, j: nat)
    requires multiset(init) == multiset(Below(groups, nodes, j))
    requires multiset(bucket) == multiset(Bucket(groups, nodes, j))
    ensures forall x, y :: x in init && y in bucket ==> ClassOrder(groups, compare)(y, x) >= 0
  {
    forall x, y | x in init && y in bucket ensures ClassOrder(groups, compare)(y, x) >= 0 {
      assert x in multiset(Below(groups, nodes, j));
      BelowMembers(groups, nodes, j, x);
      assert y in multiset(Bucket(groups, nodes, j));
      BucketMembers(groups, nodes, j, y);
    }
  }

  /** A bucket sorted by `compare` is in the rule's order, its nodes sharing one group number. */
  lemma BucketSorted(groups: seq<GroupSlot>, compare: Comparator, nodes: seq<SortingNode>, bucket: seq<SortingNode>, j: nat)
    requires multiset(bucket) == multiset(Bucket(groups, nodes, j))
    requires SortedBy(bucket, compare)
    ensures SortedBy(bucket, ClassOrder(groups, compare))
  {
    forall y | y in bucket ensures GroupNumbers.GroupNumber(groups, y.group) == j {
      assert y in multiset(Bucket(groups, nodes, j));
      BucketMembers(groups, nodes, j, y);
    }
  }

  /**
   * The fix puts a partition in the rule's order: ascending group numbers,
   * and `compare` within each group.
   */
  lemma FixIsSorted(groups: seq<GroupSlot>, compare: Comparator, nodes: seq<SortingNode>)
    requires TotalPreorder(compare)
    ensures SortedBy(FixOrder(groups, compare, nodes), ClassOrder(groups, compare))
  {
    var grouped := Grouped(groups, compare, nodes);
    GroupedBuckets(groups, compare, nodes);
    forall g | g in grouped ensures SortedBy(StableSort(grouped[g], compare), compare) {
      StableSortSorted(grouped[g], compare);
    }
    CollectSorted(groups, compare, nodes, grouped, |groups| + 1);
  }

  /** In the fixed order the group numbers never go down, and no pair is reported. */
  lemma FixedPartitionNotReported(groups: seq<GroupSlot>, compare: Comparator, nodes: seq<SortingNode>)
    requires TotalPreorder(compare)
    ensures var fixed := FixOrder(groups, compare, nodes);
      && (forall i, j :: 0 <= i < j < |fixed|
            ==> GroupNumbers.GroupNumber(groups, fixed[i].group) <= GroupNumbers.GroupNumber(groups, fixed[j].group))
      && ReportedPairs(groups, compare, fixed) == []
  {
    var fixed := FixOrder(groups, compare, nodes);
    FixIsSorted(groups, compare, nodes);
    NothingReportedIffSorted(groups, compare, fixed);
    forall i, j | 0 <= i < j < |fixed|
      ensures GroupNumbers.GroupNumber(groups, fixed[i].group) <= GroupNumbers.GroupNumber(groups, fixed[j].group)
    {
      assert ClassOrder(groups, compare)(fixed[j], fixed[i]) >= 0;
    }
  }
}
