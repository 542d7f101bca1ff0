/**
 * The transpiler (DynamoDBExpressionTranspiler): writes a node tree as a
 * DynamoDB condition expression, the partition keys of an index as a key
 * condition expression, and a projection's hierarchy as a projection
 * expression. Every attribute name and every constant is replaced by an
 * alias taken from a QueryVariables allocator.
 *
 * The functions below describe each operation on an allocator state `Vars`
 * and give back the text together with the new state; the methods perform
 * the same operations on a QueryVariables object, with the loops of the
 * original, and are proved to leave the object in the state the functions
 * describe. When an operation fails, the state is the one reached when the
 * error was raised: the aliases handed out before stay handed out.
 */
module Transpiler {
  import opened Common
  import opened Values
  import opened Nodes
  import opened Projections
  import opened QueryVars
  import opened PartitionKeys

  // ---------------------------------------------------------------------
  // Condition expressions (ToExpression)

  function CompareToken(op: CompareOperator): string
  {
    match op
    case Equal => " = "
    case NotEqual => " <> "
    case GreaterThan => " > "
    case GreaterThanOrEqual => " >= "
    case LessThan => " < "
    case LessThanOrEqual => " <= "
  }

  function BinaryToken(t: BinaryExpressionType): string
  {
    if t == Or then " or " else " and "
  }

  const AttributeExists := "attribute_exists"
  const AttributeNotExists := "attribute_not_exists"

  predicate StartsWith(s: string, prefix: string)
  {
    |prefix| <= |s| && s[..|prefix|] == prefix
  }

  /** The text of Inverse(body) once the body is rendered as `content`. */
  function InverseText(body: Node, content: string): string
  {
    if body.MemberExistsCondition? && StartsWith(content, AttributeExists) then
      AttributeNotExists + content[|AttributeExists|..]
    else if body.MemberExistsCondition? && StartsWith(content, AttributeNotExists) then
      AttributeExists + content[|AttributeNotExists|..]
    else "not " + content
  }

  /** ToExpression(expressionNode, vars, projection); `None` stands for a null node. */
  function RenderRoot(root: Option<Node>, reg: Registry, proj: Option<Projection>, st: Vars): (Result<string>, Vars)
  {
    if root.None? then (Failure(ArgumentNull("expressionNode")), st)
    else RenderTree(root.value, reg, proj, st)
  }

  /** A tree rendered as a whole: the root given to ToExpression, or the body inside braces. */
  function RenderTree(n: Node, reg: Registry, proj: Option<Projection>, st: Vars): (Result<string>, Vars)
    decreases n, 2
  {
    Render(n, reg, proj, st)
  }

  /** Visit(node, queryVars, context): each node kind goes to its own visitor. */
  function Render(n: Node, reg: Registry, proj: Option<Projection>, st: Vars): (Result<string>, Vars)
    decreases n, 1
  {
    match n
    case Binary(_, _, _) => RenderBinary(n, reg, proj, st)
    case Compare(_, _, _) => RenderCompare(n, reg, proj, st)
    case RecordMemberAccessor(_, _, _) => RenderAccessor(n, reg, proj, st)
    case MethodCall(_, _, _) => RenderMethodCall(n, reg, proj, st)
    case Constant(v) => RenderConst(v, st)
    case InBraces(_) => RenderInBraces(n, reg, proj, st)
    case MemberExistsCondition(_) => RenderMemberExists(n, reg, proj, st)
    case Inverse(_) => RenderInverse(n, reg, proj, st)
    case _ => (Failure(NotSupported(NodeTypeNotSupported(KindName(n)))), st)
  }

  /** VisitBinary: left, then right, joined by the connective. */
  function RenderBinary(n: Node, reg: Registry, proj: Option<Projection>, st: Vars): (Result<string>, Vars)
    requires n.Binary?
    decreases n, 0
  {
    var (left, st1) := Render(n.left, reg, proj, st);
    if left.Failure? then (Failure(left.error), st1)
    else
      var (right, st2) := Render(n.right, reg, proj, st1);
      if right.Failure? then (Failure(right.error), st2)
      else (Success(left.value + BinaryToken(n.binaryType) + right.value), st2)
  }

  /** VisitCompare: left, then right, joined by the operator token. */
  function RenderCompare(n: Node, reg: Registry, proj: Option<Projection>, st: Vars): (Result<string>, Vars)
    requires n.Compare?
    decreases n, 0
  {
    var (left, st1) := Render(n.left, reg, proj, st);
    if left.Failure? then (Failure(left.error), st1)
    else
      var (right, st2) := Render(n.right, reg, proj, st1);
      if right.Failure? then (Failure(right.error), st2)
      else (Success(left.value + CompareToken(n.op) + right.value), st2)
  }

  /** VisitConst: the untyped SetValueAlias. */
  function RenderConst(v: Value, st: Vars): (Result<string>, Vars)
  {
    var (alias, st1) := AliasValue(st, v);
    (Success(alias), st1)
  }

  /** InBraces */
  function RenderInBraces(n: Node, reg: Registry, proj: Option<Projection>, st: Vars): (Result<string>, Vars)
    requires n.InBraces?
    decreases n, 0
  {
    var (body, st1) := RenderTree(n.body, reg, proj, st);
    (if body.Failure? then body else Success("(" + body.value + ")"), st1)
  }

  /** MemberExists */
  function RenderMemberExists(n: Node, reg: Registry, proj: Option<Projection>, st: Vars): (Result<string>, Vars)
    requires n.MemberExistsCondition?
    decreases n, 0
  {
    var (accessor, st1) := Render(n.accessor, reg, proj, st);
    (if accessor.Failure? then accessor else Success(AttributeExists + "(" + accessor.value + ")"), st1)
  }

  /** Inverse */
  function RenderInverse(n: Node, reg: Registry, proj: Option<Projection>, st: Vars): (Result<string>, Vars)
    requires n.Inverse?
    decreases n, 0
  {
    var (content, st1) := Render(n.body, reg, proj, st);
    (if content.Failure? then content else Success(InverseText(n.body, content.value)), st1)
  }

  /** The call's arguments from index i on, rendered in order after those in `acc`. */
  function RenderArgs(n: Node, reg: Registry, proj: Option<Projection>, i: nat, acc: seq<string>, st: Vars)
    : (r: (Result<seq<string>>, Vars))
    requires n.MethodCall? && i <= |n.args|
    ensures r.0.Success? ==> |r.0.value| == |acc| + |n.args| - i
    decreases n, 0, |n.args| - i
  {
    if i == |n.args| then (Success(acc), st)
    else
      var (arg, st1) := Render(n.args[i], reg, proj, st);
      if arg.Failure? then (Failure(arg.error), st1)
      else RenderArgs(n, reg, proj, i + 1, acc + [arg.value], st1)
  }

  /** VisitMethod: the arguments first, then the instance. */
  function RenderMethodCall(n: Node, reg: Registry, proj: Option<Projection>, st: Vars): (Result<string>, Vars)
    requires n.MethodCall?
    decreases n, 0
  {
    var (args, st1) := RenderArgs(n, reg, proj, 0, [], st);
    if args.Failure? then (Failure(args.error), st1)
    else if n.target.Some? then
      var (instance, st2) := Render(n.target.value, reg, proj, st1);
      if instance.Failure? then (Failure(instance.error), st2)
      else (CallText(n.callType, args.value, Some(instance.value)), st2)
    else (CallText(n.callType, args.value, None), st1)
  }

  /** The function call text of VisitMethod, or the error for a wrong arity or a missing instance. */
  function CallText(m: MethodCallType, args: seq<string>, instance: Option<string>): Result<string>
  {
    var noInstance := instance.None? || instance.value == "";
    match m
    case Size =>
      if |args| != 0 then Failure(InvalidOperation(SizeArguments))
      else if noInstance then Failure(InvalidOperation(SizeAttribute))
      else Success("size(" + instance.value + ")")
    case BeginsWith =>
      if |args| != 1 then Failure(InvalidOperation(BeginsWithArgument))
      else if noInstance then Failure(InvalidOperation(BeginsWithAttribute))
      else Success("begins_with(" + instance.value + ", " + args[0] + ")")
    case Contains =>
      if |args| != 1 then Failure(InvalidOperation(ContainsArgument))
      else if noInstance then Failure(InvalidOperation(ContainsAttribute))
      else Success("contains(" + instance.value + ", " + args[0] + ")")
  }

  /** The member names of an accessor chain, from the one nearest the record to the accessed one, and where the chain ends. */
  function AccessorChain(n: Node): (r: (seq<string>, Node))
    ensures !r.1.RecordMemberAccessor?
    ensures n.RecordMemberAccessor? ==> |r.0| >= 1
    ensures !n.RecordMemberAccessor? ==> r == ([], n)
  {
    if n.RecordMemberAccessor? then
      var (names, root) := AccessorChain(n.instance);
      (names + [n.memberName], root)
    else ([], n)
  }

  /** VisitMemberAccessor */
  function RenderAccessor(n: Node, reg: Registry, proj: Option<Projection>, st: Vars): (Result<string>, Vars)
    requires n.RecordMemberAccessor?
  {
    var (members, root) := AccessorChain(n);
    if !root.Record? then
      (Failure(InvalidOperation(AccessorNotSupported)), st)
    else if proj.None? then
      (Failure(InvalidOperation(ProjectionNotFound(root.recordType))), st)
    else
      var (aliases, st1) := ResolvePath(reg, NamesOf(reg, proj.value.names), members, st);
      (if aliases.Failure? then Failure(aliases.error) else Success(Join(aliases.value, ".")), st1)
  }

  /** The name table a member's own members are looked up in: its type's, unless that one is empty. */
  function NextRefs(reg: Registry, refs: map<string, NameRef>, ref: NameRef): map<string, NameRef>
  {
    var nested := NamesOf(reg, ref.memberTypeProjection);
    if |nested| != 0 then nested else refs
  }

  /** The second loop of VisitMemberAccessor: each member's attribute path aliased segment by segment. */
  function ResolvePath(reg: Registry, refs: map<string, NameRef>, members: seq<string>, st: Vars)
    : (Result<seq<string>>, Vars)
    decreases |members|
  {
    if |members| == 0 then (Success([]), st)
    else if members[0] !in refs then
      (Failure(InvalidOperation(MemberProjectionNotFound(members[0]))), st)
    else
      var ref := refs[members[0]];
      var (aliases, st1) := AliasNames(st, Split(ref.attributePath, '.'));
      var (rest, st2) := ResolvePath(reg, NextRefs(reg, refs, ref), members[1..], st1);
      (if rest.Failure? then rest else Success(aliases + rest.value), st2)
  }

  /** SetAttributeNameAlias for each name in turn: one alias per name, in order. */
  function AliasNames(st: Vars, names: seq<string>): (r: (seq<string>, Vars))
    ensures |r.0| == |names|
    decreases |names|
  {
    if |names| == 0 then ([], st)
    else
      var (alias, st1) := AliasName(st, names[0]);
      var (rest, st2) := AliasNames(st1, names[1..]);
      ([alias] + rest, st2)
  }

  // ---------------------------------------------------------------------
  // Key condition expressions (GetKeyConditionExpression)

  /** The clause for one partition key, or None for an operator a key condition does not support. */
  function KeyClause(op: QueryOperator, name: string, value: string): Option<string>
  {
    match op
    case BeginsWith => Some("begins_with(" + name + ", " + value + ")")
    case Equals => Some(name + " = " + value)
    case Less => Some(name + " < " + value)
    case LessOrEqual => Some(name + " <= " + value)
    case Greater => Some(name + " > " + value)
    case GreaterOrEqual => Some(name + " >= " + value)
    case _ => None
  }

  /** The loop of GetKeyConditionExpression from key i on: both aliases are taken before the operator is looked at. */
  function KeyClauses(keys: seq<PartitionKey>, i: nat, acc: seq<string>, st: Vars): (Result<seq<string>>, Vars)
    requires i <= |keys|
    decreases |keys| - i
  {
    if i == |keys| then (Success(acc), st)
    else
      var (nameAlias, st1) := AliasName(st, keys[i].attributeName);
      var (valueAlias, st2) := AliasComparable(st1, StringType, Text(keys[i].attributeValue));
      var clause := KeyClause(keys[i].operator, nameAlias, valueAlias);
      if clause.None? then
        (Failure(NotSupported(KeyOperatorNotSupported(OperatorName(keys[i].operator)))), st2)
      else KeyClauses(keys, i + 1, acc + [clause.value], st2)
  }

  function KeyConditionExpression(keys: seq<PartitionKey>, st: Vars): (Result<string>, Vars)
  {
    var (clauses, st1) := KeyClauses(keys, 0, [], st);
    (if clauses.Failure? then Failure(clauses.error) else Success(Join(clauses.value, " and ")), st1)
  }

  // ---------------------------------------------------------------------
  // Projection expressions (GetProjectionExpression)

  /** string.Join('.', alias, childAttr) for each nested attribute. */
  function Prefixed(alias: string, nested: seq<string>): (r: seq<string>)
    ensures |r| == |nested| && forall k :: 0 <= k < |nested| ==> r[k] == alias + "." + nested[k]
  {
    if |nested| == 0 then [] else [alias + "." + nested[0]] + Prefixed(alias, nested[1..])
  }

  /**
   * The recursive GetProjectionExpression over table `h`: nothing for a
   * table met before; otherwise its entries in insertion order. The result
   * carries the visited tables on, across siblings.
   */
  function Expand(reg: Registry, h: Id, visited: set<Id>, st: Vars): (r: (seq<string>, set<Id>, Vars))
    ensures visited <= r.1 && h in r.1
    decreases reg.tables.Keys - visited, 0
  {
    if h in visited then ([], visited, st)
    else if h !in reg.tables then ([], visited + {h}, st)
    else ExpandEntries(reg, h, 0, visited + {h}, [], st)
  }

  /** The foreach of GetProjectionExpression over the entries of table h from index i on. */
  function ExpandEntries(reg: Registry, h: Id, i: nat, visited: set<Id>, acc: seq<string>, st: Vars)
    : (r: (seq<string>, set<Id>, Vars))
    requires h in reg.tables && i <= |reg.tables[h].keys|
    ensures visited <= r.1
    decreases reg.tables.Keys - visited, 1, |reg.tables[h].keys| - i
  {
    var t := reg.tables[h];
    if i == |t.keys| then (acc, visited, st)
    else
      var key := t.keys[i];
      var (alias, st1) := AliasName(st, key);
      var child := t.child[key];
      if |TableOf(reg, child).keys| != 0 then
        var (nested, visited1, st2) := Expand(reg, child, visited, st1);
        ExpandEntries(reg, h, i + 1, visited1, acc + Prefixed(alias, nested), st2)
      else ExpandEntries(reg, h, i + 1, visited, acc + [alias], st1)
  }

  /** GetProjectionExpression(queryVars, projection): None for no projection or no attributes. */
  function ProjectionExpression(reg: Registry, proj: Option<Projection>, st: Vars): (Option<string>, Vars)
  {
    if proj.None? then (None, st)
    else
      var (attributes, _, st1) := Expand(reg, proj.value.hierarchy, {}, st);
      (if |attributes| == 0 then None else Some(Join(attributes, ", ")), st1)
  }

  // ---------------------------------------------------------------------
  // Properties

  /** The name `name` is aliased as `alias`, and the alias maps back to the name (ExpressionAttributeNames). */
  ghost predicate AliasedAs(st: Vars, name: string, alias: string)
  {
    name in st.attributeNameAliases && st.attributeNameAliases[name] == alias
    && alias in st.attributeNames && st.attributeNames[alias] == name
  }

  /** The aliases of `names` in `st`, "" for a name without one. */
  function AliasesIn(st: Vars, names: seq<string>): (r: seq<string>)
    ensures |r| == |names|
    ensures forall k :: 0 <= k < |names| && names[k] in st.attributeNameAliases ==>
              r[k] == st.attributeNameAliases[names[k]]
  {
    if |names| == 0 then []
    else [if names[0] in st.attributeNameAliases then st.attributeNameAliases[names[0]] else ""]
         + AliasesIn(st, names[1..])
  }

  /** SetAttributeNameAlias for several names keeps the name half of the invariant, every earlier alias, and the value tables. */
  lemma {:induction false} AliasNamesKeeps(st: Vars, names: seq<string>)
    requires NamesInv(st)
    ensures var st' := AliasNames(st, names).1;
      NamesInv(st') && NamesExtend(st, st') && NamesOnly(st, st')
    decreases |names|
  {
    if |names| > 0 {
      var (alias, st1) := AliasName(st, names[0]);
      AliasNameExtends(st, names[0]);
      AliasNamesKeeps(st1, names[1..]);
      NamesExtendTransitive(st, st1, AliasNames(st1, names[1..]).1);
    }
  }

  /** Aliasing one more name after a list is aliasing the longer list. */
  lemma {:induction false} AliasNamesAppend(st: Vars, names: seq<string>, name: string)
    ensures var (aliases, st1) := AliasNames(st, names);
      var (alias, st2) := AliasName(st1, name);
      AliasNames(st, names + [name]) == (aliases + [alias], st2)
    decreases |names|
  {
    if |names| == 0 {
      assert names + [name] == [name] && [name][1..] == [];
      var (alias, st1) := AliasName(st, name);
      assert AliasNames(st, [name]) == ([alias] + [], st1);
      assert AliasNames(st, names) == ([], st);
      assert [] + [alias] == [alias] + [];
    } else {
      var st1 := AliasName(st, names[0]).1;
      var alias0 := AliasName(st, names[0]).0;
      var longer := names + [name];
      assert longer[0] == names[0] && longer[1..] == names[1..] + [name];
      AliasNamesAppend(st1, names[1..], name);
      var (rest, st2) := AliasNames(st1, names[1..]);
      var (alias, st3) := AliasName(st2, name);
      assert AliasNames(st1, longer[1..]) == (rest + [alias], st3);
      assert AliasNames(st, longer) == ([alias0] + (rest + [alias]), st3);
      assert AliasNames(st, names) == ([alias0] + rest, st2);
      assert [alias0] + (rest + [alias]) == ([alias0] + rest) + [alias];
    }
  }

  /** AliasNamesAppend on the prefixes of one list. */
  lemma AliasNamesPrefix(st: Vars, names: seq<string>, j: nat)
    requires j < |names|
    ensures var (aliases, st1) := AliasNames(st, names[..j]);
      var (alias, st2) := AliasName(st1, names[j]);
      AliasNames(st, names[..j + 1]) == (aliases + [alias], st2)
  {
    assert names[..j + 1] == names[..j] + [names[j]];
    AliasNamesAppend(st, names[..j], names[j]);
  }

  /** SetAttributeNameAlias leaves `name` aliased. */
  lemma AliasNameAliased(st: Vars, name: string)
    requires NamesInv(st)
    ensures var (alias, st') := AliasName(st, name);
      NamesInv(st') && AliasedAs(st', name, alias)
  {
    AliasNameExtends(st, name);
  }

  /** SetAttributeNameAlias keeps the alias of a name aliased before. */
  lemma AliasNameKeepsAliased(st: Vars, name: string, n: string, a: string)
    requires NamesInv(st) && AliasedAs(st, n, a)
    ensures AliasedAs(AliasName(st, name).1, n, a)
  {
    AliasNameExtends(st, name);
  }

  lemma {:induction false} AliasNamesKeepAliased(st: Vars, names: seq<string>, n: string, a: string)
    requires NamesInv(st) && AliasedAs(st, n, a)
    ensures AliasedAs(AliasNames(st, names).1, n, a)
    decreases |names|
  {
    if |names| > 0 {
      var (alias, st1) := AliasName(st, names[0]);
      AliasNameAliased(st, names[0]);
      AliasNameKeepsAliased(st, names[0], n, a);
      AliasNamesKeepAliased(st1, names[1..], n, a);
    }
  }

  /** Each name ends up aliased as the alias given for it. */
  lemma {:induction false} AliasNamesSpec(st: Vars, names: seq<string>)
    requires NamesInv(st)
    ensures var (aliases, st') := AliasNames(st, names);
      forall k :: 0 <= k < |names| ==> AliasedAs(st', names[k], aliases[k])
    decreases |names|
  {
    if |names| > 0 {
      var (alias, st1) := AliasName(st, names[0]);
      AliasNameAliased(st, names[0]);
      var (rest, st') := AliasNames(st1, names[1..]);
      AliasNamesSpec(st1, names[1..]);
      AliasNamesKeepAliased(st1, names[1..], names[0], alias);
      forall k | 0 < k < |names|
        ensures AliasedAs(st', names[k], ([alias] + rest)[k])
      {
        assert names[k] == names[1..][k - 1];
      }
    }
  }

  /** The physical attribute path of a member chain: each member's attribute path, split at '.', one after the other. */
  function PhysicalSegments(reg: Registry, refs: map<string, NameRef>, members: seq<string>): Option<seq<string>>
    decreases |members|
  {
    if |members| == 0 then Some([])
    else if members[0] !in refs then None
    else
      var ref := refs[members[0]];
      var rest := PhysicalSegments(reg, NextRefs(reg, refs, ref), members[1..]);
      if rest.None? then None else Some(Split(ref.attributePath, '.') + rest.value)
  }

  /** One member of the chain: its attribute path is aliased, then the rest is resolved in the next table. */
  lemma ResolvePathStep(reg: Registry, refs: map<string, NameRef>, members: seq<string>, st: Vars)
    requires |members| > 0 && members[0] in refs
    ensures var ref := refs[members[0]];
      var (aliases, st1) := AliasNames(st, Split(ref.attributePath, '.'));
      var (rest, st2) := ResolvePath(reg, NextRefs(reg, refs, ref), members[1..], st1);
      var segments := PhysicalSegments(reg, NextRefs(reg, refs, ref), members[1..]);
      && ResolvePath(reg, refs, members, st) == (if rest.Failure? then rest else Success(aliases + rest.value), st2)
      && PhysicalSegments(reg, refs, members)
           == if segments.None? then None else Some(Split(ref.attributePath, '.') + segments.value)
  {
  }

  /** A resolution with the aliases gathered so far put in front of its success. */
  function PrependPath(prefix: seq<string>, resolved: (Result<seq<string>>, Vars)): (Result<seq<string>>, Vars)
  {
    (if resolved.0.Failure? then resolved.0 else Success(prefix + resolved.0.value), resolved.1)
  }

  /** RenderAccessor once the chain is known to end at a record and a projection is present. */
  lemma RenderAccessorByChain(n: Node, reg: Registry, proj: Option<Projection>, st: Vars, path: seq<string>, root: Node)
    requires n.RecordMemberAccessor? && AccessorChain(n) == (path, root)
    requires root.Record? && proj.Some?
    ensures var (aliases, st1) := ResolvePath(reg, NamesOf(reg, proj.value.names), path, st);
      RenderAccessor(n, reg, proj, st)
        == (if aliases.Failure? then Failure(aliases.error) else Success(Join(aliases.value, ".")), st1)
  {
  }

  /** Nothing gathered yet: the resolution itself. */
  lemma PrependNothing(resolved: (Result<seq<string>>, Vars))
    ensures PrependPath([], resolved) == resolved
  {
    if resolved.0.Success? {
      assert [] + resolved.0.value == resolved.0.value;
    }
  }

  /** One turn of VisitMemberAccessor's second loop: the popped member's aliases move into the prefix. */
  lemma PrependPathStep(reg: Registry, refs: map<string, NameRef>, members: seq<string>, st: Vars, prefix: seq<string>)
    requires |members| > 0 && members[0] in refs
    ensures var ref := refs[members[0]];
      var (aliases, st1) := AliasNames(st, Split(ref.attributePath, '.'));
      PrependPath(prefix, ResolvePath(reg, refs, members, st))
        == PrependPath(prefix + aliases, ResolvePath(reg, NextRefs(reg, refs, ref), members[1..], st1))
  {
    var ref := refs[members[0]];
    var (aliases, st1) := AliasNames(st, Split(ref.attributePath, '.'));
    var rest := ResolvePath(reg, NextRefs(reg, refs, ref), members[1..], st1).0;
    ResolvePathStep(reg, refs, members, st);
    if rest.Success? {
      assert prefix + (aliases + rest.value) == (prefix + aliases) + rest.value;
    }
  }

  /** Member resolution changes only the name tables, keeping their invariant and every earlier alias. */
  lemma {:induction false} ResolvePathKeeps(reg: Registry, refs: map<string, NameRef>, members: seq<string>, st: Vars)
    requires NamesInv(st)
    ensures var st' := ResolvePath(reg, refs, members, st).1;
      NamesInv(st') && NamesExtend(st, st') && NamesOnly(st, st')
    decreases |members|
  {
    if |members| > 0 && members[0] in refs {
      ResolvePathStep(reg, refs, members, st);
      var ref := refs[members[0]];
      var parts := Split(ref.attributePath, '.');
      AliasNamesKeeps(st, parts);
      var st1 := AliasNames(st, parts).1;
      ResolvePathKeeps(reg, NextRefs(reg, refs, ref), members[1..], st1);
      NamesExtendTransitive(st, st1, ResolvePath(reg, NextRefs(reg, refs, ref), members[1..], st1).1);
    }
  }

  /**
   * Member resolution succeeds exactly when every member of the chain is
   * mapped, and then gives one alias per physical path segment, each alias
   * standing for its segment.
   */
  lemma {:induction false} ResolvePathSpec(reg: Registry, refs: map<string, NameRef>, members: seq<string>, st: Vars)
    requires NamesInv(st)
    ensures var (r, st') := ResolvePath(reg, refs, members, st);
      var segments := PhysicalSegments(reg, refs, members);
      && (r.Success? <==> segments.Some?)
      && (r.Success? ==>
            && |r.value| == |segments.value|
            && forall k :: 0 <= k < |segments.value| ==> AliasedAs(st', segments.value[k], r.value[k]))
    decreases |members|
  {
    if |members| > 0 && members[0] in refs {
      ResolvePathStep(reg, refs, members, st);
      var ref := refs[members[0]];
      var parts := Split(ref.attributePath, '.');
      var (aliases, st1) := AliasNames(st, parts);
      AliasNamesSpec(st, parts);
      AliasNamesKeeps(st, parts);
      var next := NextRefs(reg, refs, ref);
      ResolvePathSpec(reg, next, members[1..], st1);
      ResolvePathKeeps(reg, next, members[1..], st1);
      var (rest, st') := ResolvePath(reg, next, members[1..], st1);
      if rest.Success? {
        AppendAliased(st1, st', parts, aliases, PhysicalSegments(reg, next, members[1..]).value, rest.value);
      }
    }
  }

  /** Aliases handed out earlier and aliases handed out later all stand for their names at the end. */
  lemma AppendAliased(st: Vars, st': Vars, names: seq<string>, aliases: seq<string>,
                      moreNames: seq<string>, moreAliases: seq<string>)
    requires |names| == |aliases| && forall k :: 0 <= k < |names| ==> AliasedAs(st, names[k], aliases[k])
    requires NamesExtend(st, st')
    requires |moreNames| == |moreAliases|
    requires forall k :: 0 <= k < |moreNames| ==> AliasedAs(st', moreNames[k], moreAliases[k])
    ensures forall k :: 0 <= k < |names + moreNames| ==>
              AliasedAs(st', (names + moreNames)[k], (aliases + moreAliases)[k])
  {
    forall k | 0 <= k < |names + moreNames|
      ensures AliasedAs(st', (names + moreNames)[k], (aliases + moreAliases)[k])
    {
      if k < |names| {
        AliasedAsStable(st, st', names[k], aliases[k]);
      } else {
        assert (names + moreNames)[k] == moreNames[k - |names|];
      }
    }
  }

  /** The name aliases the state had stay, so an aliased name keeps its alias. */
  lemma AliasedAsStable(st: Vars, st': Vars, name: string, alias: string)
    requires AliasedAs(st, name, alias) && NamesExtend(st, st')
    ensures AliasedAs(st', name, alias)
  {
  }

  /** Visit hands each node kind to its own visitor. */
  lemma RenderDispatch(n: Node, reg: Registry, proj: Option<Projection>, st: Vars)
    ensures n.Binary? ==> Render(n, reg, proj, st) == RenderBinary(n, reg, proj, st)
    ensures n.Compare? ==> Render(n, reg, proj, st) == RenderCompare(n, reg, proj, st)
    ensures n.RecordMemberAccessor? ==> Render(n, reg, proj, st) == RenderAccessor(n, reg, proj, st)
    ensures n.MethodCall? ==> Render(n, reg, proj, st) == RenderMethodCall(n, reg, proj, st)
    ensures n.Constant? ==> Render(n, reg, proj, st) == RenderConst(n.value, st)
    ensures n.InBraces? ==> Render(n, reg, proj, st) == RenderInBraces(n, reg, proj, st)
    ensures n.MemberExistsCondition? ==> Render(n, reg, proj, st) == RenderMemberExists(n, reg, proj, st)
    ensures n.Inverse? ==> Render(n, reg, proj, st) == RenderInverse(n, reg, proj, st)
    ensures n.PredicateExtension? || n.Record? ==>
              Render(n, reg, proj, st) == (Failure(NotSupported(NodeTypeNotSupported(KindName(n)))), st)
  {
  }

  /**
   * Rendering keeps the allocator's invariant and every alias it had
   * already handed out.
   */
  lemma {:induction false} RenderExtends(n: Node, reg: Registry, proj: Option<Projection>, st: Vars)
    requires Inv(st)
    ensures Inv(Render(n, reg, proj, st).1) && Extends(st, Render(n, reg, proj, st).1)
    decreases n, 1
  {
    RenderDispatch(n, reg, proj, st);
    match n
    case Binary(_, _, _) => RenderBinaryExtends(n, reg, proj, st);
    case Compare(_, _, _) => RenderCompareExtends(n, reg, proj, st);
    case RecordMemberAccessor(_, _, _) => RenderAccessorExtends(n, reg, proj, st);
    case MethodCall(_, _, _) => RenderMethodCallExtends(n, reg, proj, st);
    case Constant(v) => AliasValueExtends(st, v);
    case InBraces(_) => RenderInBracesExtends(n, reg, proj, st);
    case MemberExistsCondition(_) => RenderMemberExistsExtends(n, reg, proj, st);
    case Inverse(_) => RenderInverseExtends(n, reg, proj, st);
    case _ =>
  }

  lemma {:induction false} RenderBinaryExtends(n: Node, reg: Registry, proj: Option<Projection>, st: Vars)
    requires n.Binary? && Inv(st)
    ensures Inv(RenderBinary(n, reg, proj, st).1) && Extends(st, RenderBinary(n, reg, proj, st).1)
    decreases n, 0
  {
    RenderExtends(n.left, reg, proj, st);
    var st1 := Render(n.left, reg, proj, st).1;
    RenderExtends(n.right, reg, proj, st1);
    ExtendsTransitive(st, st1, Render(n.right, reg, proj, st1).1);
  }

  lemma {:induction false} RenderCompareExtends(n: Node, reg: Registry, proj: Option<Projection>, st: Vars)
    requires n.Compare? && Inv(st)
    ensures Inv(RenderCompare(n, reg, proj, st).1) && Extends(st, RenderCompare(n, reg, proj, st).1)
    decreases n, 0
  {
    RenderExtends(n.left, reg, proj, st);
    var st1 := Render(n.left, reg, proj, st).1;
    RenderExtends(n.right, reg, proj, st1);
    ExtendsTransitive(st, st1, Render(n.right, reg, proj, st1).1);
  }

  lemma {:induction false} RenderInBracesExtends(n: Node, reg: Registry, proj: Option<Projection>, st: Vars)
    requires n.InBraces? && Inv(st)
    ensures Inv(RenderInBraces(n, reg, proj, st).1) && Extends(st, RenderInBraces(n, reg, proj, st).1)
    decreases n, 0
  {
    RenderExtends(n.body, reg, proj, st);
  }

  lemma {:induction false} RenderMemberExistsExtends(n: Node, reg: Registry, proj: Option<Projection>, st: Vars)
    requires n.MemberExistsCondition? && Inv(st)
    ensures Inv(RenderMemberExists(n, reg, proj, st).1) && Extends(st, RenderMemberExists(n, reg, proj, st).1)
    decreases n, 0
  {
    RenderExtends(n.accessor, reg, proj, st);
  }

  lemma {:induction false} RenderInverseExtends(n: Node, reg: Registry, proj: Option<Projection>, st: Vars)
    requires n.Inverse? && Inv(st)
    ensures Inv(RenderInverse(n, reg, proj, st).1) && Extends(st, RenderInverse(n, reg, proj, st).1)
    decreases n, 0
  {
    RenderExtends(n.body, reg, proj, st);
  }

  /** Member access changes only the name tables, keeping their invariant and every earlier alias. */
  lemma RenderAccessorKeeps(n: Node, reg: Registry, proj: Option<Projection>, st: Vars)
    requires n.RecordMemberAccessor? && NamesInv(st)
    ensures var st' := RenderAccessor(n, reg, proj, st).1;
      NamesInv(st') && NamesExtend(st, st') && NamesOnly(st, st')
  {
    var (members, root) := AccessorChain(n);
    if root.Record? && proj.Some? {
      ResolvePathKeeps(reg, NamesOf(reg, proj.value.names), members, st);
    }
  }

  lemma RenderAccessorExtends(n: Node, reg: Registry, proj: Option<Projection>, st: Vars)
    requires n.RecordMemberAccessor? && Inv(st)
    ensures Inv(RenderAccessor(n, reg, proj, st).1) && Extends(st, RenderAccessor(n, reg, proj, st).1)
  {
    RenderAccessorKeeps(n, reg, proj, st);
    NameChangeKeeps(st, RenderAccessor(n, reg, proj, st).1);
  }

  lemma {:induction false} RenderMethodCallExtends(n: Node, reg: Registry, proj: Option<Projection>, st: Vars)
    requires n.MethodCall? && Inv(st)
    ensures Inv(RenderMethodCall(n, reg, proj, st).1) && Extends(st, RenderMethodCall(n, reg, proj, st).1)
    decreases n, 0
  {
    RenderArgsExtends(n, reg, proj, 0, [], st);
    var st1 := RenderArgs(n, reg, proj, 0, [], st).1;
    if n.target.Some? {
      RenderExtends(n.target.value, reg, proj, st1);
      ExtendsTransitive(st, st1, Render(n.target.value, reg, proj, st1).1);
    }
  }

  /** One step of the argument loop, as far as the allocator state is concerned. */
  lemma RenderArgsStep(n: Node, reg: Registry, proj: Option<Projection>, i: nat, acc: seq<string>, st: Vars)
    requires n.MethodCall? && i < |n.args|
    ensures var (arg, st1) := Render(n.args[i], reg, proj, st);
      RenderArgs(n, reg, proj, i, acc, st).1
        == if arg.Failure? then st1 else RenderArgs(n, reg, proj, i + 1, acc + [arg.value], st1).1
  {
  }

  lemma {:induction false} RenderArgsExtends(n: Node, reg: Registry, proj: Option<Projection>, i: nat, acc: seq<string>, st: Vars)
    requires n.MethodCall? && i <= |n.args| && Inv(st)
    ensures Inv(RenderArgs(n, reg, proj, i, acc, st).1) && Extends(st, RenderArgs(n, reg, proj, i, acc, st).1)
    decreases n, 0, |n.args| - i
  {
    if i < |n.args| {
      RenderArgsStep(n, reg, proj, i, acc, st);
      RenderExtends(n.args[i], reg, proj, st);
      var (arg, st1) := Render(n.args[i], reg, proj, st);
      if arg.Success? {
        RenderArgsExtends(n, reg, proj, i + 1, acc + [arg.value], st1);
        ExtendsTransitive(st, st1, RenderArgs(n, reg, proj, i + 1, acc + [arg.value], st1).1);
      }
    }
  }

  // ---------------------------------------------------------------------
  // What the condition text says

  /** How many arguments each DynamoDB function takes besides the attribute. */
  function Arity(m: MethodCallType): nat
  {
    if m == Size then 0 else 1
  }

  /** The DynamoDB function a method call becomes. */
  function FunctionName(m: MethodCallType): string
  {
    match m
    case Size => "size"
    case BeginsWith => "begins_with"
    case Contains => "contains"
  }

  /**
   * A method call is written exactly when it has its function's arity and a
   * non-empty attribute; a wrong arity is reported whatever the attribute is.
   */
  lemma CallTextSpec(m: MethodCallType, args: seq<string>, instance: Option<string>)
    ensures var r := CallText(m, args, instance);
      && (r.Success? <==> |args| == Arity(m) && instance.Some? && instance.value != "")
      && (r.Success? ==> |r.value| > 0)
      && (r.Failure? ==> r.error.InvalidOperation?)
      && (|args| != Arity(m) ==> r == CallText(m, args, None))
  {
  }

  /** A method call is written as its function applied to the attribute and then the arguments. */
  lemma CallTextValue(m: MethodCallType, args: seq<string>, instance: Option<string>)
    ensures var r := CallText(m, args, instance);
      r.Success? ==> r.value == FunctionName(m) + "(" + Join([instance.value] + args, ", ") + ")"
  {
    if |args| == Arity(m) && instance.Some? && instance.value != "" {
      if m == Size {
        assert [instance.value] + args == [instance.value];
      } else {
        assert [instance.value] + args == [instance.value, args[0]];
        JoinPair(instance.value, args[0], ", ");
      }
    }
  }

  /** Negating an existence test turns it into attribute_not_exists rather than prefixing "not". */
  lemma InverseOfMemberExists(n: Node, reg: Registry, proj: Option<Projection>, st: Vars)
    requires n.Inverse? && n.body.MemberExistsCondition?
    ensures var (r, st') := Render(n, reg, proj, st);
      var (a, sa) := Render(n.body.accessor, reg, proj, st);
      && st' == sa && (r.Success? <==> a.Success?)
      && (r.Success? ==> r.value == AttributeNotExists + "(" + a.value + ")")
  {
    RenderDispatch(n, reg, proj, st);
    RenderDispatch(n.body, reg, proj, st);
    var a := Render(n.body.accessor, reg, proj, st).0;
    if a.Success? {
      var content := AttributeExists + "(" + a.value + ")";
      assert content[..|AttributeExists|] == AttributeExists;
      assert content[|AttributeExists|..] == "(" + a.value + ")";
    }
  }

  /**
   * Negating a negated existence test does not give the test back: the outer
   * negation sees an Inverse body and prefixes "not".
   */
  lemma DoubleNegatedMemberExists(accessor: Node, reg: Registry, proj: Option<Projection>, st: Vars)
    ensures var (r, st') := Render(Inverse(Inverse(MemberExistsCondition(accessor))), reg, proj, st);
      var (a, sa) := Render(accessor, reg, proj, st);
      && st' == sa && (r.Success? <==> a.Success?)
      && (r.Success? ==> r.value == "not " + AttributeNotExists + "(" + a.value + ")")
  {
    var inner := Inverse(MemberExistsCondition(accessor));
    InverseOfMemberExists(inner, reg, proj, st);
    RenderDispatch(Inverse(inner), reg, proj, st);
  }

  /** Negating anything but an existence test prefixes "not ". */
  lemma InverseOfOther(n: Node, reg: Registry, proj: Option<Projection>, st: Vars)
    requires n.Inverse? && !n.body.MemberExistsCondition?
    ensures var (r, st') := Render(n, reg, proj, st);
      var (c, sc) := Render(n.body, reg, proj, st);
      && st' == sc && (r.Success? <==> c.Success?)
      && (r.Success? ==> r.value == "not " + c.value)
  {
    RenderDispatch(n, reg, proj, st);
  }

  /** A null root is refused; any other root is rendered as a tree. */
  lemma RootText(root: Option<Node>, reg: Registry, proj: Option<Projection>, st: Vars)
    ensures root.None? ==> RenderRoot(root, reg, proj, st) == (Failure(ArgumentNull("expressionNode")), st)
    ensures root.Some? ==> RenderRoot(root, reg, proj, st) == Render(root.value, reg, proj, st)
  {
  }

  /** A comparison is its left side, the operator's token, then its right side, the left side rendered first. */
  lemma CompareText(n: Node, reg: Registry, proj: Option<Projection>, st: Vars)
    requires n.Compare?
    ensures var (r, st') := Render(n, reg, proj, st);
      var (left, st1) := Render(n.left, reg, proj, st);
      var (right, st2) := Render(n.right, reg, proj, st1);
      && (r.Success? <==> left.Success? && right.Success?)
      && (r.Success? ==> r.value == left.value + CompareToken(n.op) + right.value && st' == st2)
  {
    RenderDispatch(n, reg, proj, st);
  }

  /** A connective is its left side, " or " or " and ", then its right side, the left side rendered first. */
  lemma BinaryText(n: Node, reg: Registry, proj: Option<Projection>, st: Vars)
    requires n.Binary?
    ensures var (r, st') := Render(n, reg, proj, st);
      var (left, st1) := Render(n.left, reg, proj, st);
      var (right, st2) := Render(n.right, reg, proj, st1);
      && (r.Success? <==> left.Success? && right.Success?)
      && (r.Success? ==>
            && r.value == left.value + (if n.binaryType == Or then " or " else " and ") + right.value
            && st' == st2)
  {
    RenderDispatch(n, reg, proj, st);
  }

  /** Braces put the body's text in parentheses. */
  lemma BracesText(n: Node, reg: Registry, proj: Option<Projection>, st: Vars)
    requires n.InBraces?
    ensures var (r, st') := Render(n, reg, proj, st);
      var (body, sb) := Render(n.body, reg, proj, st);
      && st' == sb && (r.Success? <==> body.Success?)
      && (r.Success? ==> r.value == "(" + body.value + ")")
  {
    RenderDispatch(n, reg, proj, st);
  }

  /** An existence test is attribute_exists applied to the accessor's text. */
  lemma MemberExistsText(n: Node, reg: Registry, proj: Option<Projection>, st: Vars)
    requires n.MemberExistsCondition?
    ensures var (r, st') := Render(n, reg, proj, st);
      var (a, sa) := Render(n.accessor, reg, proj, st);
      && st' == sa && (r.Success? <==> a.Success?)
      && (r.Success? ==> r.value == AttributeExists + "(" + a.value + ")")
  {
    RenderDispatch(n, reg, proj, st);
  }

  /** Aliases that each stand for their name are the names' aliases in that state. */
  lemma AliasedAreAliasesIn(st: Vars, names: seq<string>, aliases: seq<string>)
    requires |aliases| == |names|
    requires forall k :: 0 <= k < |names| ==> AliasedAs(st, names[k], aliases[k])
    ensures aliases == AliasesIn(st, names)
  {
    var r := AliasesIn(st, names);
    assert forall k :: 0 <= k < |names| ==> aliases[k] == r[k];
  }

  /**
   * A member access is written as the aliases of the physical attribute path,
   * joined by '.'; it fails, leaving the allocator alone, when the chain does
   * not start at the record or there is no projection, and otherwise fails
   * exactly when some member of the chain has no attribute projection.
   */
  lemma RenderAccessorSpec(n: Node, reg: Registry, proj: Option<Projection>, st: Vars)
    requires n.RecordMemberAccessor? && NamesInv(st)
    ensures var (members, root) := AccessorChain(n);
      var (r, st') := Render(n, reg, proj, st);
      && (!root.Record? ==>
            r == Failure(InvalidOperation(AccessorNotSupported))
            && st' == st)
      && (root.Record? && proj.None? ==>
            r == Failure(InvalidOperation(ProjectionNotFound(root.recordType)))
            && st' == st)
      && (root.Record? && proj.Some? ==>
            var segments := PhysicalSegments(reg, NamesOf(reg, proj.value.names), members);
            && (r.Success? <==> segments.Some?)
            && (r.Success? ==>
                  && r.value == Join(AliasesIn(st', segments.value), ".")
                  && forall k :: 0 <= k < |segments.value| ==>
                       AliasedAs(st', segments.value[k], AliasesIn(st', segments.value)[k])))
  {
    RenderDispatch(n, reg, proj, st);
    var (members, root) := AccessorChain(n);
    if root.Record? && proj.Some? {
      var refs := NamesOf(reg, proj.value.names);
      ResolvePathSpec(reg, refs, members, st);
      var (aliases, st') := ResolvePath(reg, refs, members, st);
      if aliases.Success? {
        AliasedAreAliasesIn(st', PhysicalSegments(reg, refs, members).value, aliases.value);
      }
    }
  }

  // ---------------------------------------------------------------------
  // When a condition can be written

  /**
   * Visit writes a node tree without throwing exactly for these trees:
   * connectives and comparisons of writable trees, accessors that start at
   * the record and whose members all have an attribute projection, constants,
   * and method calls with a writable attribute and writable arguments of the
   * function's arity. Whether a tree is writable does not depend on the
   * aliases handed out before.
   */
  ghost predicate Renderable(n: Node, reg: Registry, proj: Option<Projection>)
    decreases n
  {
    match n
    case Binary(left, _, right) => Renderable(left, reg, proj) && Renderable(right, reg, proj)
    case Compare(left, _, right) => Renderable(left, reg, proj) && Renderable(right, reg, proj)
    case RecordMemberAccessor(_, _, _) =>
      var (members, root) := AccessorChain(n);
      root.Record? && proj.Some? && PhysicalSegments(reg, NamesOf(reg, proj.value.names), members).Some?
    case MethodCall(target, m, args) =>
      && (forall k :: 0 <= k < |args| ==> Renderable(args[k], reg, proj))
      && target.Some? && Renderable(target.value, reg, proj)
      && |args| == Arity(m)
    case Constant(_) => true
    case InBraces(body) => Renderable(body, reg, proj)
    case MemberExistsCondition(accessor) => Renderable(accessor, reg, proj)
    case Inverse(body) => Renderable(body, reg, proj)
    case PredicateExtension(_) => false
    case Record(_, _) => false
  }

  /** Rendering succeeds exactly for the writable trees, and never gives an empty text. */
  lemma {:induction false} RenderSucceeds(n: Node, reg: Registry, proj: Option<Projection>, st: Vars)
    requires Inv(st)
    ensures var r := Render(n, reg, proj, st).0;
      (r.Success? <==> Renderable(n, reg, proj)) && (r.Success? ==> |r.value| > 0)
    decreases n, 1
  {
    RenderDispatch(n, reg, proj, st);
    match n
    case Binary(_, _, _) => RenderPairSucceeds(n, reg, proj, st);
    case Compare(_, _, _) => RenderPairSucceeds(n, reg, proj, st);
    case RecordMemberAccessor(_, _, _) => RenderAccessorSucceeds(n, reg, proj, st);
    case MethodCall(_, _, _) => RenderMethodCallSucceeds(n, reg, proj, st);
    case Constant(v) => RenderConstSucceeds(v, st);
    case InBraces(_) => RenderWrapperSucceeds(n, reg, proj, st);
    case MemberExistsCondition(_) => RenderWrapperSucceeds(n, reg, proj, st);
    case Inverse(_) => RenderWrapperSucceeds(n, reg, proj, st);
    case _ =>
  }

  /** Both sides of a connective or a comparison are rendered, the right one after the left. */
  lemma {:induction false} RenderPairSucceeds(n: Node, reg: Registry, proj: Option<Projection>, st: Vars)
    requires (n.Binary? || n.Compare?) && Inv(st)
    ensures var r := if n.Binary? then RenderBinary(n, reg, proj, st).0 else RenderCompare(n, reg, proj, st).0;
      (r.Success? <==> Renderable(n.left, reg, proj) && Renderable(n.right, reg, proj)) && (r.Success? ==> |r.value| > 0)
    decreases n, 0
  {
    RenderSucceeds(n.left, reg, proj, st);
    RenderExtends(n.left, reg, proj, st);
    RenderSucceeds(n.right, reg, proj, Render(n.left, reg, proj, st).1);
  }

  lemma {:induction false} RenderWrapperSucceeds(n: Node, reg: Registry, proj: Option<Projection>, st: Vars)
    requires (n.InBraces? || n.MemberExistsCondition? || n.Inverse?) && Inv(st)
    ensures var r := if n.InBraces? then RenderInBraces(n, reg, proj, st).0
                     else if n.MemberExistsCondition? then RenderMemberExists(n, reg, proj, st).0
                     else RenderInverse(n, reg, proj, st).0;
      var body := if n.MemberExistsCondition? then n.accessor else n.body;
      (r.Success? <==> Renderable(body, reg, proj)) && (r.Success? ==> |r.value| > 0)
    decreases n, 0
  {
    var body := if n.MemberExistsCondition? then n.accessor else n.body;
    RenderSucceeds(body, reg, proj, st);
  }

  lemma RenderConstSucceeds(v: Value, st: Vars)
    requires Inv(st)
    ensures var r := RenderConst(v, st).0;
      r.Success? && |r.value| > 0
  {
    AliasValueExtends(st, v);
  }

  /** A chain of members has at least one physical segment. */
  lemma PhysicalSegmentsNonEmpty(reg: Registry, refs: map<string, NameRef>, members: seq<string>)
    requires |members| > 0 && PhysicalSegments(reg, refs, members).Some?
    ensures |PhysicalSegments(reg, refs, members).value| > 0
  {
    var parts := Split(refs[members[0]].attributePath, '.');
    assert |parts| >= 1;
  }

  lemma RenderAccessorSucceeds(n: Node, reg: Registry, proj: Option<Projection>, st: Vars)
    requires n.RecordMemberAccessor? && Inv(st)
    ensures var r := RenderAccessor(n, reg, proj, st).0;
      (r.Success? <==> Renderable(n, reg, proj)) && (r.Success? ==> |r.value| > 0)
  {
    RenderAccessorSpec(n, reg, proj, st);
    RenderAccessorKeeps(n, reg, proj, st);
    RenderDispatch(n, reg, proj, st);
    var (members, root) := AccessorChain(n);
    if root.Record? && proj.Some? {
      var refs := NamesOf(reg, proj.value.names);
      var (r, st') := RenderAccessor(n, reg, proj, st);
      if r.Success? {
        var segments := PhysicalSegments(reg, refs, members).value;
        PhysicalSegmentsNonEmpty(reg, refs, members);
        var aliases := AliasesIn(st', segments);
        assert AliasedAs(st', segments[0], aliases[0]);
        JoinStartsWithFirst(aliases, ".");
      }
    }
  }

  /** One step of the argument loop, as far as success is concerned. */
  lemma RenderArgsResultStep(n: Node, reg: Registry, proj: Option<Projection>, i: nat, acc: seq<string>, st: Vars)
    requires n.MethodCall? && i < |n.args|
    ensures var (arg, st1) := Render(n.args[i], reg, proj, st);
      RenderArgs(n, reg, proj, i, acc, st).0.Success?
        == (arg.Success? && RenderArgs(n, reg, proj, i + 1, acc + [arg.value], st1).0.Success?)
  {
  }

  lemma {:induction false} RenderArgsSucceeds(n: Node, reg: Registry, proj: Option<Projection>, i: nat, acc: seq<string>, st: Vars)
    requires n.MethodCall? && i <= |n.args| && Inv(st)
    ensures var r := RenderArgs(n, reg, proj, i, acc, st).0;
      r.Success? <==> forall k :: i <= k < |n.args| ==> Renderable(n.args[k], reg, proj)
    decreases n, 0, |n.args| - i
  {
    if i < |n.args| {
      RenderArgsResultStep(n, reg, proj, i, acc, st);
      RenderSucceeds(n.args[i], reg, proj, st);
      RenderExtends(n.args[i], reg, proj, st);
      var (arg, st1) := Render(n.args[i], reg, proj, st);
      if arg.Success? {
        RenderArgsSucceeds(n, reg, proj, i + 1, acc + [arg.value], st1);
        assert (forall k :: i <= k < |n.args| ==> Renderable(n.args[k], reg, proj))
          <==> (forall k :: i + 1 <= k < |n.args| ==> Renderable(n.args[k], reg, proj));
      } else {
        assert !Renderable(n.args[i], reg, proj);
      }
    }
  }

  lemma {:induction false} RenderMethodCallSucceeds(n: Node, reg: Registry, proj: Option<Projection>, st: Vars)
    requires n.MethodCall? && Inv(st)
    ensures var r := RenderMethodCall(n, reg, proj, st).0;
      (r.Success? <==> Renderable(n, reg, proj)) && (r.Success? ==> |r.value| > 0)
    decreases n, 0
  {
    RenderableCall(n, reg, proj);
    RenderArgsSucceeds(n, reg, proj, 0, [], st);
    RenderArgsExtends(n, reg, proj, 0, [], st);
    var (args, st1) := RenderArgs(n, reg, proj, 0, [], st);
    if args.Success? {
      if n.target.Some? {
        RenderSucceeds(n.target.value, reg, proj, st1);
        var instance := Render(n.target.value, reg, proj, st1).0;
        if instance.Success? {
          CallTextSpec(n.callType, args.value, Some(instance.value));
        }
      } else {
        CallTextSpec(n.callType, args.value, None);
      }
    }
  }

  /** A method call is writable when its arguments and its attribute are, with the function's arity. */
  lemma RenderableCall(n: Node, reg: Registry, proj: Option<Projection>)
    requires n.MethodCall?
    ensures Renderable(n, reg, proj) == (
      && (forall k :: 0 <= k < |n.args| ==> Renderable(n.args[k], reg, proj))
      && n.target.Some? && Renderable(n.target.value, reg, proj)
      && |n.args| == Arity(n.callType))
  {
  }

  // ---------------------------------------------------------------------
  // What the key condition text says

  /** The operators a key condition can express. */
  predicate KeyOperator(op: QueryOperator)
  {
    op != NotEquals && op != QueryOperator.Contains && op != NotContains
  }

  /** `clause` is the condition on `key`, written with the aliases its name and its value have in `st`. */
  ghost predicate KeyRendered(st: Vars, key: PartitionKey, clause: string)
  {
    var value := Comparable(StringType, Text(key.attributeValue));
    && key.attributeName in st.attributeNameAliases
    && StringType in st.comparableValues && value in st.comparableValues[StringType]
    && KeyClause(key.operator, st.attributeNameAliases[key.attributeName], st.comparableValues[StringType][value])
       == Some(clause)
  }

  lemma KeyRenderedStable(st: Vars, st': Vars, key: PartitionKey, clause: string)
    requires KeyRendered(st, key, clause) && NamesExtend(st, st') && TablesExtend(st, st')
    ensures KeyRendered(st', key, clause)
  {
  }

  /** One turn of the key loop. */
  lemma KeyClausesStep(keys: seq<PartitionKey>, i: nat, acc: seq<string>, st: Vars)
    requires i < |keys|
    ensures var (nameAlias, st1) := AliasName(st, keys[i].attributeName);
      var (valueAlias, st2) := AliasComparable(st1, StringType, Text(keys[i].attributeValue));
      var clause := KeyClause(keys[i].operator, nameAlias, valueAlias);
      KeyClauses(keys, i, acc, st)
        == if clause.None? then
             (Failure(NotSupported(KeyOperatorNotSupported(OperatorName(keys[i].operator)))), st2)
           else KeyClauses(keys, i + 1, acc + [clause.value], st2)
  {
  }

  /**
   * The key loop from key i on succeeds exactly when every remaining operator
   * can be expressed; otherwise it reports the first operator that cannot.
   */
  lemma {:induction false} KeyClausesOutcome(keys: seq<PartitionKey>, i: nat, acc: seq<string>, st: Vars)
    requires i <= |keys|
    ensures var r := KeyClauses(keys, i, acc, st).0;
      && (r.Success? <==> forall k :: i <= k < |keys| ==> KeyOperator(keys[k].operator))
      && (r.Failure? ==>
            exists k :: i <= k < |keys| && !KeyOperator(keys[k].operator)
              && (forall j :: i <= j < k ==> KeyOperator(keys[j].operator))
              && r.error == NotSupported(KeyOperatorNotSupported(OperatorName(keys[k].operator))))
    decreases |keys| - i
  {
    if i < |keys| {
      KeyClausesStep(keys, i, acc, st);
      var (nameAlias, st1) := AliasName(st, keys[i].attributeName);
      var (valueAlias, st2) := AliasComparable(st1, StringType, Text(keys[i].attributeValue));
      var clause := KeyClause(keys[i].operator, nameAlias, valueAlias);
      KeyClauseExists(keys[i].operator, nameAlias, valueAlias);
      if clause.Some? {
        var r' := KeyClauses(keys, i + 1, acc + [clause.value], st2).0;
        KeyClausesOutcome(keys, i + 1, acc + [clause.value], st2);
        if r'.Failure? {
          var k :| i + 1 <= k < |keys| && !KeyOperator(keys[k].operator)
              && (forall j :: i + 1 <= j < k ==> KeyOperator(keys[j].operator))
              && r'.error == NotSupported(KeyOperatorNotSupported(OperatorName(keys[k].operator)));
          assert forall j :: i <= j < k ==> KeyOperator(keys[j].operator);
        }
      }
    }
  }

  /** A key clause exists exactly for the operators a key condition can express. */
  lemma KeyClauseExists(op: QueryOperator, name: string, value: string)
    ensures KeyClause(op, name, value).Some? <==> KeyOperator(op)
  {
  }

  /** The key loop keeps the invariant and every alias handed out before it. */
  lemma {:induction false} KeyClausesKeeps(keys: seq<PartitionKey>, i: nat, acc: seq<string>, st: Vars)
    requires Inv(st) && i <= |keys|
    ensures var st' := KeyClauses(keys, i, acc, st).1;
      Inv(st') && Extends(st, st') && TablesExtend(st, st')
    decreases |keys| - i
  {
    if i < |keys| {
      KeyClausesStep(keys, i, acc, st);
      KeyAliasesKeep(st, keys[i]);
      var (nameAlias, st1) := AliasName(st, keys[i].attributeName);
      var (valueAlias, st2) := AliasComparable(st1, StringType, Text(keys[i].attributeValue));
      var clause := KeyClause(keys[i].operator, nameAlias, valueAlias);
      if clause.Some? {
        KeyClausesKeeps(keys, i + 1, acc + [clause.value], st2);
        var st' := KeyClauses(keys, i + 1, acc + [clause.value], st2).1;
        ExtendsTransitive(st, st2, st');
      }
    }
  }

  /**
   * A successful key loop gives one clause per key, each written with the
   * aliases the key's name and value have at the end.
   */
  lemma {:induction false} KeyClausesRendered(keys: seq<PartitionKey>, i: nat, acc: seq<string>, st: Vars)
    requires Inv(st) && i <= |keys| && |acc| == i
    requires forall k :: 0 <= k < i ==> KeyRendered(st, keys[k], acc[k])
    ensures var (r, st') := KeyClauses(keys, i, acc, st);
      r.Success? ==> |r.value| == |keys| && forall k :: 0 <= k < |keys| ==> KeyRendered(st', keys[k], r.value[k])
    decreases |keys| - i
  {
    if i < |keys| {
      KeyClausesStep(keys, i, acc, st);
      var key := keys[i];
      KeyAliasesKeep(st, key);
      KeyAliasesRendered(st, key);
      var (nameAlias, st1) := AliasName(st, key.attributeName);
      var (valueAlias, st2) := AliasComparable(st1, StringType, Text(key.attributeValue));
      var clause := KeyClause(key.operator, nameAlias, valueAlias);
      if clause.Some? {
        var acc' := acc + [clause.value];
        forall k | 0 <= k < i + 1
          ensures KeyRendered(st2, keys[k], acc'[k])
        {
          if k < i {
            KeyRenderedStable(st, st2, keys[k], acc[k]);
          }
        }
        KeyClausesRendered(keys, i + 1, acc', st2);
      }
    }
  }

  /** Both aliases of one key, taken before its operator is looked at. */
  lemma KeyAliasesKeep(st: Vars, key: PartitionKey)
    requires Inv(st)
    ensures var (nameAlias, st1) := AliasName(st, key.attributeName);
      var (valueAlias, st2) := AliasComparable(st1, StringType, Text(key.attributeValue));
      Inv(st2) && Extends(st, st2) && TablesExtend(st, st2)
  {
    var (nameAlias, st1) := AliasName(st, key.attributeName);
    KeyNameAliased(st, key);
    KeyValueAliased(st1, key);
  }

  lemma KeyAliasesRendered(st: Vars, key: PartitionKey)
    requires Inv(st)
    ensures var (nameAlias, st1) := AliasName(st, key.attributeName);
      var (valueAlias, st2) := AliasComparable(st1, StringType, Text(key.attributeValue));
      var clause := KeyClause(key.operator, nameAlias, valueAlias);
      clause.Some? ==> KeyRendered(st2, key, clause.value)
  {
    var (nameAlias, st1) := AliasName(st, key.attributeName);
    KeyNameAliased(st, key);
    KeyValueAliased(st1, key);
  }

  /** The key's name alias: the invariant and every alias kept, the value tables untouched. */
  lemma KeyNameAliased(st: Vars, key: PartitionKey)
    requires Inv(st)
    ensures var (nameAlias, st1) := AliasName(st, key.attributeName);
      && Inv(st1) && Extends(st, st1) && st1.comparableValues == st.comparableValues
      && key.attributeName in st1.attributeNameAliases && st1.attributeNameAliases[key.attributeName] == nameAlias
  {
    var (nameAlias, st1) := AliasName(st, key.attributeName);
    AliasNameExtends(st, key.attributeName);
    NameChangeKeeps(st, st1);
  }

  /** The key's value alias, taken after its name alias, ends the key. */
  lemma KeyValueAliased(st1: Vars, key: PartitionKey)
    requires Inv(st1)
    ensures var (valueAlias, st2) := AliasComparable(st1, StringType, Text(key.attributeValue));
      && Inv(st2) && Extends(st1, st2) && TablesExtend(st1, st2)
      && st2.attributeNameAliases == st1.attributeNameAliases
      && StringType in st2.comparableValues && Comparable(StringType, Text(key.attributeValue)) in st2.comparableValues[StringType]
      && st2.comparableValues[StringType][Comparable(StringType, Text(key.attributeValue))] == valueAlias
  {
    AliasComparableExtends(st1, StringType, Text(key.attributeValue));
  }

  /**
   * GetKeyConditionExpression succeeds exactly when every operator can be
   * expressed, and then joins with " and " one clause per key, each written
   * with the aliases the key's name and value have in the final allocator.
   */
  lemma KeyConditionExpressionSpec(keys: seq<PartitionKey>, st: Vars)
    requires Inv(st)
    ensures var (r, st') := KeyConditionExpression(keys, st);
      && Inv(st') && Extends(st, st')
      && (r.Success? <==> forall k :: 0 <= k < |keys| ==> KeyOperator(keys[k].operator))
      && (r.Success? ==> exists clauses: seq<string> ::
            && |clauses| == |keys| && r.value == Join(clauses, " and ")
            && forall k :: 0 <= k < |keys| ==> KeyRendered(st', keys[k], clauses[k]))
  {
    KeyClausesOutcome(keys, 0, [], st);
    KeyClausesKeeps(keys, 0, [], st);
    KeyClausesRendered(keys, 0, [], st);
    var (clauses, st') := KeyClauses(keys, 0, [], st);
    if clauses.Success? {
      assert |clauses.value| == |keys| && Join(clauses.value, " and ") == KeyConditionExpression(keys, st).0.value;
    }
  }

  /**
   * The key condition written with a new allocator leaves it with its
   * invariant, and succeeds exactly when every operator can be expressed.
   */
  lemma FreshKeyCondition(keys: seq<PartitionKey>)
    ensures Inv(KeyConditionExpression(keys, Fresh).1)
    ensures KeyConditionExpression(keys, Fresh).0.Success? <==> forall k :: 0 <= k < |keys| ==> KeyOperator(keys[k].operator)
  {
    FreshInv();
    KeyClausesOutcome(keys, 0, [], Fresh);
    KeyClausesKeeps(keys, 0, [], Fresh);
  }

  // ---------------------------------------------------------------------
  // What the projection text says

  /** Writing a projection changes only the name tables, keeping their invariant and every earlier alias. */
  lemma ExpandKeeps(reg: Registry, h: Id, visited: set<Id>, st: Vars)
    requires NamesInv(st)
    ensures var st' := Expand(reg, h, visited, st).2;
      NamesInv(st') && NamesExtend(st, st') && NamesOnly(st, st')
  {
    ExpandOnly(reg, h, visited, st);
    ExpandGrows(reg, h, visited, st);
  }

  /** Writing the projection keeps the allocator's invariant and every alias. */
  lemma ProjectionKeeps(reg: Registry, proj: Option<Projection>, st: Vars)
    requires Inv(st)
    ensures Inv(ProjectionExpression(reg, proj, st).1) && Extends(st, ProjectionExpression(reg, proj, st).1)
  {
    if proj.Some? {
      ExpandKeeps(reg, proj.value.hierarchy, {}, st);
      NameChangeKeeps(st, ProjectionExpression(reg, proj, st).1);
    }
  }

  lemma AliasNameOnly(st: Vars, name: string)
    ensures NamesOnly(st, AliasName(st, name).1)
  {
  }

  lemma NamesOnlyTransitive(st1: Vars, st2: Vars, st3: Vars)
    requires NamesOnly(st1, st2) && NamesOnly(st2, st3)
    ensures NamesOnly(st1, st3)
  {
  }

  lemma {:induction false} ExpandOnly(reg: Registry, h: Id, visited: set<Id>, st: Vars)
    ensures NamesOnly(st, Expand(reg, h, visited, st).2)
    decreases reg.tables.Keys - visited, 0
  {
    if h !in visited && h in reg.tables {
      ExpandEntriesOnly(reg, h, 0, visited + {h}, [], st);
    }
  }

  lemma {:induction false} ExpandEntriesOnly(reg: Registry, h: Id, i: nat, visited: set<Id>, acc: seq<string>, st: Vars)
    requires h in reg.tables && i <= |reg.tables[h].keys|
    ensures NamesOnly(st, ExpandEntries(reg, h, i, visited, acc, st).2)
    decreases reg.tables.Keys - visited, 1, |reg.tables[h].keys| - i
  {
    var t := reg.tables[h];
    if i < |t.keys| {
      var key := t.keys[i];
      var (alias, st1) := AliasName(st, key);
      AliasNameOnly(st, key);
      var child := t.child[key];
      if |TableOf(reg, child).keys| != 0 {
        var (nested, visited1, st2) := Expand(reg, child, visited, st1);
        ExpandOnly(reg, child, visited, st1);
        NamesOnlyTransitive(st, st1, st2);
        ExpandEntriesOnly(reg, h, i + 1, visited1, acc + Prefixed(alias, nested), st2);
        NamesOnlyTransitive(st, st2, ExpandEntries(reg, h, i + 1, visited1, acc + Prefixed(alias, nested), st2).2);
      } else {
        ExpandEntriesOnly(reg, h, i + 1, visited, acc + [alias], st1);
        NamesOnlyTransitive(st, st1, ExpandEntries(reg, h, i + 1, visited, acc + [alias], st1).2);
      }
    }
  }

  lemma {:induction false} ExpandGrows(reg: Registry, h: Id, visited: set<Id>, st: Vars)
    requires NamesInv(st)
    ensures var st' := Expand(reg, h, visited, st).2;
      NamesInv(st') && NamesExtend(st, st')
    decreases reg.tables.Keys - visited, 0
  {
    if h !in visited && h in reg.tables {
      ExpandEntriesGrows(reg, h, 0, visited + {h}, [], st);
    }
  }

  lemma {:induction false} ExpandEntriesGrows(reg: Registry, h: Id, i: nat, visited: set<Id>, acc: seq<string>, st: Vars)
    requires h in reg.tables && i <= |reg.tables[h].keys| && NamesInv(st)
    ensures var st' := ExpandEntries(reg, h, i, visited, acc, st).2;
      NamesInv(st') && NamesExtend(st, st')
    decreases reg.tables.Keys - visited, 1, |reg.tables[h].keys| - i, 1
  {
    var t := reg.tables[h];
    if i < |t.keys| {
      if |TableOf(reg, t.child[t.keys[i]]).keys| != 0 {
        ExpandNodeGrows(reg, h, i, visited, acc, st);
      } else {
        ExpandLeafGrows(reg, h, i, visited, acc, st);
      }
    }
  }

  lemma {:induction false} ExpandNodeGrows(reg: Registry, h: Id, i: nat, visited: set<Id>, acc: seq<string>, st: Vars)
    requires h in reg.tables && i < |reg.tables[h].keys| && NamesInv(st)
    requires |TableOf(reg, reg.tables[h].child[reg.tables[h].keys[i]]).keys| != 0
    ensures var st' := ExpandEntries(reg, h, i, visited, acc, st).2;
      NamesInv(st') && NamesExtend(st, st')
    decreases reg.tables.Keys - visited, 1, |reg.tables[h].keys| - i, 0
  {
    var t := reg.tables[h];
    var key := t.keys[i];
    var step := AliasName(st, key);
    AliasNameGrows(st, key);
    var child := t.child[key];
    ExpandNodeStep(reg, h, i, visited, acc, st);
    var nested := Expand(reg, child, visited, step.1);
    ExpandGrows(reg, child, visited, step.1);
    NamesExtendTransitive(st, step.1, nested.2);
    var acc' := acc + Prefixed(step.0, nested.0);
    ExpandEntriesGrows(reg, h, i + 1, nested.1, acc', nested.2);
    NamesExtendTransitive(st, nested.2, ExpandEntries(reg, h, i + 1, nested.1, acc', nested.2).2);
  }

  lemma {:induction false} ExpandLeafGrows(reg: Registry, h: Id, i: nat, visited: set<Id>, acc: seq<string>, st: Vars)
    requires h in reg.tables && i < |reg.tables[h].keys| && NamesInv(st)
    requires |TableOf(reg, reg.tables[h].child[reg.tables[h].keys[i]]).keys| == 0
    ensures var st' := ExpandEntries(reg, h, i, visited, acc, st).2;
      NamesInv(st') && NamesExtend(st, st')
    decreases reg.tables.Keys - visited, 1, |reg.tables[h].keys| - i, 0
  {
    var key := reg.tables[h].keys[i];
    var step := AliasName(st, key);
    AliasNameGrows(st, key);
    ExpandLeafStep(reg, h, i, visited, acc, st);
    ExpandEntriesGrows(reg, h, i + 1, visited, acc + [step.0], step.1);
    NamesExtendTransitive(st, step.1, ExpandEntries(reg, h, i + 1, visited, acc + [step.0], step.1).2);
  }

  /** A table whose every entry is a leaf: one whose member type has no attributes of its own. */
  ghost predicate Flat(reg: Registry, h: Id)
  {
    h in reg.tables
    && forall key :: key in reg.tables[h].child ==> |TableOf(reg, reg.tables[h].child[key]).keys| == 0
  }

  /** Over a flat table the entries from index i on are the aliases of their attribute names, in order. */
  lemma {:induction false} ExpandFlatEntries(reg: Registry, h: Id, i: nat, visited: set<Id>, acc: seq<string>, st: Vars)
    requires Flat(reg, h) && i <= |reg.tables[h].keys|
    ensures var named := AliasNames(st, reg.tables[h].keys[i..]);
      ExpandEntries(reg, h, i, visited, acc, st) == (acc + named.0, visited, named.1)
    decreases |reg.tables[h].keys| - i
  {
    var keys := reg.tables[h].keys;
    if i < |keys| {
      var step := AliasName(st, keys[i]);
      assert keys[i] in reg.tables[h].child;
      ExpandLeafStep(reg, h, i, visited, acc, st);
      AliasNamesStep(st, keys, i);
      var rest := AliasNames(step.1, keys[i + 1..]);
      ExpandFlatEntries(reg, h, i + 1, visited, acc + [step.0], step.1);
      assert acc + [step.0] + rest.0 == acc + ([step.0] + rest.0);
    } else {
      assert acc + [] == acc;
    }
  }

  /** One turn of the foreach over an entry without attributes of its own: its alias is appended. */
  lemma ExpandLeafStep(reg: Registry, h: Id, i: nat, visited: set<Id>, acc: seq<string>, st: Vars)
    requires h in reg.tables && i < |reg.tables[h].keys|
    requires |TableOf(reg, reg.tables[h].child[reg.tables[h].keys[i]]).keys| == 0
    ensures var step := AliasName(st, reg.tables[h].keys[i]);
      ExpandEntries(reg, h, i, visited, acc, st) == ExpandEntries(reg, h, i + 1, visited, acc + [step.0], step.1)
  {
  }

  /** One turn of the foreach over an entry with attributes of its own: its table is expanded under its alias. */
  lemma ExpandNodeStep(reg: Registry, h: Id, i: nat, visited: set<Id>, acc: seq<string>, st: Vars)
    requires h in reg.tables && i < |reg.tables[h].keys|
    requires |TableOf(reg, reg.tables[h].child[reg.tables[h].keys[i]]).keys| != 0
    ensures var step := AliasName(st, reg.tables[h].keys[i]);
      var nested := Expand(reg, reg.tables[h].child[reg.tables[h].keys[i]], visited, step.1);
      ExpandEntries(reg, h, i, visited, acc, st)
        == ExpandEntries(reg, h, i + 1, nested.1, acc + Prefixed(step.0, nested.0), nested.2)
  {
  }

  /** Aliasing the names from index i on aliases the i-th name first. */
  lemma AliasNamesStep(st: Vars, names: seq<string>, i: nat)
    requires i < |names|
    ensures var step := AliasName(st, names[i]);
      var rest := AliasNames(step.1, names[i + 1..]);
      AliasNames(st, names[i..]) == ([step.0] + rest.0, rest.1)
  {
    assert names[i..][0] == names[i] && names[i..][1..] == names[i + 1..];
  }

  /**
   * A flat projection is written as the aliases of its attribute names in
   * insertion order, joined by ", "; a projection without attributes gives none.
   */
  lemma ProjectionOfFlat(reg: Registry, p: Projection, st: Vars)
    requires Flat(reg, p.hierarchy)
    ensures var keys := reg.tables[p.hierarchy].keys;
      var (aliases, st') := AliasNames(st, keys);
      ProjectionExpression(reg, Some(p), st) == (if |keys| == 0 then None else Some(Join(aliases, ", ")), st')
  {
    var h := p.hierarchy;
    var keys := reg.tables[h].keys;
    ExpandFlatEntries(reg, h, 0, {} + {h}, [], st);
    assert keys[0..] == keys;
    var (aliases, st') := AliasNames(st, keys);
    assert Expand(reg, h, {}, st) == ([] + aliases, {} + {h}, st');
    assert [] + aliases == aliases;
  }

  /**
   * A record type whose only member is of the record type itself projects
   * nothing: the member's nested table is the table being written, already
   * visited, so it contributes no attribute and there is no projection text.
   */
  lemma SelfReferenceProjectsNothing(st: Vars)
    ensures var table: Table := HierarchyTable(["Self"], map["Self" := 0]);
      var reg := Registry(map[], map[], map[0 := table], 1);
      ProjectionExpression(reg, Some(Projection(0, 0)), st).0 == None
  {
    var table: Table := HierarchyTable(["Self"], map["Self" := 0]);
    var reg := Registry(map[], map[], map[0 := table], 1);
    var (alias, st1) := AliasName(st, "Self");
    assert Expand(reg, 0, {0}, st1) == ([], {0}, st1);
    assert Prefixed(alias, []) == [];
    assert ExpandEntries(reg, 0, 1, {0}, [], st1) == ([], {0}, st1);
    assert ExpandEntries(reg, 0, 0, {0}, [], st).0 == [];
  }

  /**
   * One turn of the foreach over an entry with attributes of its own whose
   * nested table was expanded before, by any entry of the walk: its alias is
   * still allocated, and it contributes no attribute.
   */
  lemma ExpandVisitedEntry(reg: Registry, h: Id, i: nat, visited: set<Id>, acc: seq<string>, st: Vars)
    requires h in reg.tables && i < |reg.tables[h].keys|
    requires var child := reg.tables[h].child[reg.tables[h].keys[i]];
      child in visited && |TableOf(reg, child).keys| != 0
    ensures var step := AliasName(st, reg.tables[h].keys[i]);
      ExpandEntries(reg, h, i, visited, acc, st) == ExpandEntries(reg, h, i + 1, visited, acc, step.1)
  {
    var key := reg.tables[h].keys[i];
    var (alias, st1) := AliasName(st, key);
    ExpandNodeStep(reg, h, i, visited, acc, st);
    assert Expand(reg, reg.tables[h].child[key], visited, st1) == ([], visited, st1);
    assert acc + Prefixed(alias, []) == acc;
  }

  /**
   * Two members of one record whose types share one nested table: the
   * visited list is shared by the whole walk, so only the first member's
   * nested attributes are written; the second contributes none.
   */
  lemma SharedNestedTableOnce(reg: Registry, h: Id, visited: set<Id>, st: Vars)
    requires h in reg.tables && h !in visited && |reg.tables[h].keys| == 2
    requires var t := reg.tables[h];
      t.child[t.keys[0]] == t.child[t.keys[1]] && |TableOf(reg, t.child[t.keys[0]]).keys| != 0
    ensures var t := reg.tables[h];
      var (alias, st1) := AliasName(st, t.keys[0]);
      Expand(reg, h, visited, st).0 == Prefixed(alias, Expand(reg, t.child[t.keys[0]], visited + {h}, st1).0)
  {
    var t := reg.tables[h];
    var c := t.child[t.keys[0]];
    var (alias, st1) := AliasName(st, t.keys[0]);
    ExpandNodeStep(reg, h, 0, visited + {h}, [], st);
    var nested := Expand(reg, c, visited + {h}, st1);
    var acc := [] + Prefixed(alias, nested.0);
    ExpandVisitedEntry(reg, h, 1, nested.1, acc, nested.2);
    assert [] + Prefixed(alias, nested.0) == Prefixed(alias, nested.0);
  }

  /**
   * A record with members Home and Work of one address type, whose table
   * holds City: the projection is Home.City alone.
   */
  lemma SharedNestedTableExample()
    ensures var home: Table := HierarchyTable(["Home", "Work"], map["Home" := 1, "Work" := 1]);
      var address: Table := HierarchyTable(["City"], map["City" := 2]);
      var reg := Registry(map[], map[], map[0 := home, 1 := address, 2 := EmptyTable], 3);
      Expand(reg, 0, {}, Fresh).0 == [NameAlias(0) + "." + NameAlias(1)]
  {
    var home: Table := HierarchyTable(["Home", "Work"], map["Home" := 1, "Work" := 1]);
    var address: Table := HierarchyTable(["City"], map["City" := 2]);
    var reg := Registry(map[], map[], map[0 := home, 1 := address, 2 := EmptyTable], 3);
    SharedNestedTableOnce(reg, 0, {}, Fresh);
    var st1 := Fresh.(attributeNameAliases := map["Home" := NameAlias(0)], attributeNames := map[NameAlias(0) := "Home"]);
    assert AliasName(Fresh, "Home") == (NameAlias(0), st1);
    AddressExpanded(reg, st1);
    assert {} + {0} == {0};
  }

  /** The address table of SharedNestedTableExample, written after Home's alias: City's alias alone. */
  lemma AddressExpanded(reg: Registry, st1: Vars)
    requires reg.tables == map[0 := HierarchyTable(["Home", "Work"], map["Home" := 1, "Work" := 1]),
                               1 := HierarchyTable(["City"], map["City" := 2]), 2 := EmptyTable]
    requires st1.attributeNameAliases == map["Home" := NameAlias(0)] && st1.attributeNames == map[NameAlias(0) := "Home"]
    ensures Expand(reg, 1, {0}, st1).0 == [NameAlias(1)]
  {
    var st2 := st1.(attributeNameAliases := st1.attributeNameAliases["City" := NameAlias(1)],
                    attributeNames := st1.attributeNames[NameAlias(1) := "City"]);
    assert AliasName(st1, "City") == (NameAlias(1), st2);
    ExpandLeafStep(reg, 1, 0, {0, 1}, [], st1);
    assert ExpandEntries(reg, 1, 1, {0, 1}, [] + [NameAlias(1)], st2).0 == [NameAlias(1)];
    assert {0} + {1} == {0, 1};
    assert Expand(reg, 1, {0}, st1) == ExpandEntries(reg, 1, 0, {0, 1}, [], st1);
  }

  /** Without a projection there is no projection text, and the allocator is left alone. */
  lemma NoProjectionNoText(reg: Registry, st: Vars)
    ensures ProjectionExpression(reg, None, st) == (None, st)
  {
  }
}
