/**
 * DynamoDBExpressionTranspiler as the library runs it: the visitors work on
 * a QueryVariables object, asking it for aliases as they go, with the loops
 * of the original. Each method is proved to return what the matching
 * function of the Transpiler module returns and to leave the object in the
 * state that function describes; what those functions guarantee is proved
 * there. A thrown exception is a Failure result; the aliases taken before it
 * was thrown stay taken.
 */
module ExpressionTranspiler {
  import opened Common
  import opened Values
  import opened Nodes
  import opened Projections
  import opened QueryVars
  import opened PartitionKeys
  import opened Transpiler

  /** ToExpression(expressionNode, vars, projection); `None` stands for a null node. */
  method ToExpression(root: Option<Node>, vars: QueryVariables, reg: Registry, proj: Option<Projection>)
    returns (r: Result<string>)
    requires vars.Valid()
    modifies vars
    ensures vars.Valid()
    ensures (r, vars.State()) == RenderRoot(root, reg, proj, old(vars.State()))
  {
    if root.None? {
      return Failure(ArgumentNull("expressionNode"));
    }
    r := Visit(root.value, vars, reg, proj);
  }

  /** Visit(node, queryVars, context) */
  method Visit(n: Node, vars: QueryVariables, reg: Registry, proj: Option<Projection>) returns (r: Result<string>)
    requires vars.Valid()
    modifies vars
    ensures vars.Valid()
    ensures (r, vars.State()) == Render(n, reg, proj, old(vars.State()))
    decreases n, 1
  {
    RenderDispatch(n, reg, proj, vars.State());
    match n
    case Binary(_, _, _) => r := VisitBinary(n, vars, reg, proj);
    case Compare(_, _, _) => r := VisitCompare(n, vars, reg, proj);
    case RecordMemberAccessor(_, _, _) => r := VisitMemberAccessor(n, vars, reg, proj);
    case MethodCall(_, _, _) => r := VisitMethod(n, vars, reg, proj);
    case Constant(v) => r := VisitConst(v, vars);
    case InBraces(_) => r := VisitInBraces(n, vars, reg, proj);
    case MemberExistsCondition(_) => r := VisitMemberExists(n, vars, reg, proj);
    case Inverse(_) => r := VisitInverse(n, vars, reg, proj);
    case _ => r := Failure(NotSupported(NodeTypeNotSupported(KindName(n))));
  }

  method VisitBinary(n: Node, vars: QueryVariables, reg: Registry, proj: Option<Projection>) returns (r: Result<string>)
    requires n.Binary? && vars.Valid()
    modifies vars
    ensures vars.Valid()
    ensures (r, vars.State()) == RenderBinary(n, reg, proj, old(vars.State()))
    decreases n, 0
  {
    var left := Visit(n.left, vars, reg, proj);
    if left.Failure? {
      return Failure(left.error);
    }
    var right := Visit(n.right, vars, reg, proj);
    if right.Failure? {
      return Failure(right.error);
    }
    r := Success(left.value + BinaryToken(n.binaryType) + right.value);
  }

  method VisitCompare(n: Node, vars: QueryVariables, reg: Registry, proj: Option<Projection>) returns (r: Result<string>)
    requires n.Compare? && vars.Valid()
    modifies vars
    ensures vars.Valid()
    ensures (r, vars.State()) == RenderCompare(n, reg, proj, old(vars.State()))
    decreases n, 0
  {
    var left := Visit(n.left, vars, reg, proj);
    if left.Failure? {
      return Failure(left.error);
    }
    var right := Visit(n.right, vars, reg, proj);
    if right.Failure? {
      return Failure(right.error);
    }
    r := Success(left.value + CompareToken(n.op) + right.value);
  }

  method VisitConst(v: Value, vars: QueryVariables) returns (r: Result<string>)
    requires vars.Valid()
    modifies vars
    ensures vars.Valid()
    ensures (r, vars.State()) == RenderConst(v, old(vars.State()))
  {
    var alias := vars.SetValueAlias(v);
    r := Success(alias);
  }

  /** InBraces */
  method VisitInBraces(n: Node, vars: QueryVariables, reg: Registry, proj: Option<Projection>) returns (r: Result<string>)
    requires n.InBraces? && vars.Valid()
    modifies vars
    ensures vars.Valid()
    ensures (r, vars.State()) == RenderInBraces(n, reg, proj, old(vars.State()))
    decreases n, 0
  {
    var body := Visit(n.body, vars, reg, proj);
    r := if body.Failure? then body else Success("(" + body.value + ")");
  }

  /** MemberExists */
  method VisitMemberExists(n: Node, vars: QueryVariables, reg: Registry, proj: Option<Projection>) returns (r: Result<string>)
    requires n.MemberExistsCondition? && vars.Valid()
    modifies vars
    ensures vars.Valid()
    ensures (r, vars.State()) == RenderMemberExists(n, reg, proj, old(vars.State()))
    decreases n, 0
  {
    var accessor := Visit(n.accessor, vars, reg, proj);
    r := if accessor.Failure? then accessor else Success(AttributeExists + "(" + accessor.value + ")");
  }

  /** Inverse */
  method VisitInverse(n: Node, vars: QueryVariables, reg: Registry, proj: Option<Projection>) returns (r: Result<string>)
    requires n.Inverse? && vars.Valid()
    modifies vars
    ensures vars.Valid()
    ensures (r, vars.State()) == RenderInverse(n, reg, proj, old(vars.State()))
    decreases n, 0
  {
    var content := Visit(n.body, vars, reg, proj);
    if content.Failure? {
      return content;
    }
    var text := content.value;
    if n.body.MemberExistsCondition? {
      if StartsWith(text, AttributeExists) {
        return Success(AttributeNotExists + text[|AttributeExists|..]);
      }
      if StartsWith(text, AttributeNotExists) {
        return Success(AttributeExists + text[|AttributeNotExists|..]);
      }
    }
    r := Success("not " + text);
  }

  /** VisitMethod: the arguments in order, then the instance, then the function text. */
  method VisitMethod(n: Node, vars: QueryVariables, reg: Registry, proj: Option<Projection>) returns (r: Result<string>)
    requires n.MethodCall? && vars.Valid()
    modifies vars
    ensures vars.Valid()
    ensures (r, vars.State()) == RenderMethodCall(n, reg, proj, old(vars.State()))
    decreases n, 0
  {
    ghost var st0 := vars.State();
    var args := new string[|n.args|];
    for i := 0 to |n.args|
      invariant vars.Valid()
      invariant RenderArgs(n, reg, proj, 0, [], st0) == RenderArgs(n, reg, proj, i, args[..i], vars.State())
    {
      var arg := Visit(n.args[i], vars, reg, proj);
      if arg.Failure? {
        return Failure(arg.error);
      }
      args[i] := arg.value;
      PrefixSnoc(args[..], i);
    }
    assert args[..] == args[..|n.args|];
    var instance: Option<string> := None;
    if n.target.Some? {
      var text := Visit(n.target.value, vars, reg, proj);
      if text.Failure? {
        return Failure(text.error);
      }
      instance := Some(text.value);
    }
    r := CallText(n.callType, args[..], instance);
  }

  /** VisitMemberAccessor: the member names are stacked up to the record, then popped and resolved. */
  method VisitMemberAccessor(n: Node, vars: QueryVariables, reg: Registry, proj: Option<Projection>)
    returns (r: Result<string>)
    requires n.RecordMemberAccessor? && vars.Valid()
    modifies vars
    ensures vars.Valid()
    ensures (r, vars.State()) == RenderAccessor(n, reg, proj, old(vars.State()))
  {
    ghost var st0 := vars.State();
    // the stack, its top first
    var accessorPath: seq<string> := [];
    var enumerateNode := n;
    assert AccessorChain(n).0 + [] == AccessorChain(n).0;
    while enumerateNode.RecordMemberAccessor?
      invariant AccessorChain(n).0 == AccessorChain(enumerateNode).0 + accessorPath
      invariant AccessorChain(n).1 == AccessorChain(enumerateNode).1
      decreases enumerateNode
    {
      ghost var inner := AccessorChain(enumerateNode.instance).0;
      assert AccessorChain(enumerateNode).0 + accessorPath == inner + ([enumerateNode.memberName] + accessorPath);
      accessorPath := [enumerateNode.memberName] + accessorPath;
      enumerateNode := enumerateNode.instance;
    }
    if !enumerateNode.Record? {
      return Failure(InvalidOperation(AccessorNotSupported));
    }
    if proj.None? {
      return Failure(InvalidOperation(ProjectionNotFound(enumerateNode.recordType)));
    }
    var propertyRefs := NamesOf(reg, proj.value.names);
    var attributePath: seq<string> := [];
    ghost var whole := ResolvePath(reg, propertyRefs, accessorPath, st0);
    assert AccessorChain(enumerateNode) == ([], enumerateNode);
    assert [] + accessorPath == accessorPath;
    RenderAccessorByChain(n, reg, proj, st0, accessorPath, enumerateNode);
    PrependNothing(whole);
    while |accessorPath| > 0
      invariant vars.Valid()
      invariant whole == PrependPath(attributePath, ResolvePath(reg, propertyRefs, accessorPath, vars.State()))
      decreases |accessorPath|
    {
      var propertyName := accessorPath[0];
      if propertyName !in propertyRefs {
        return Failure(InvalidOperation(MemberProjectionNotFound(propertyName)));
      }
      var nameRefs := propertyRefs[propertyName];
      PrependPathStep(reg, propertyRefs, accessorPath, vars.State(), attributePath);
      accessorPath := accessorPath[1..];
      var aliases := AliasAll(Split(nameRefs.attributePath, '.'), vars);
      attributePath := attributePath + aliases;
      propertyRefs := NextRefs(reg, propertyRefs, nameRefs);
    }
    assert whole == (Success(attributePath + []), vars.State());
    assert attributePath + [] == attributePath;
    r := Success(Join(attributePath, "."));
  }

  /** The foreach over one attribute path's segments: SetAttributeNameAlias for each, in order. */
  method AliasAll(names: seq<string>, vars: QueryVariables) returns (aliases: seq<string>)
    requires vars.Valid()
    modifies vars
    ensures vars.Valid()
    ensures (aliases, vars.State()) == AliasNames(old(vars.State()), names)
  {
    ghost var st0 := vars.State();
    aliases := [];
    for j := 0 to |names|
      invariant vars.Valid()
      invariant (aliases, vars.State()) == AliasNames(st0, names[..j])
    {
      AliasNamesPrefix(st0, names, j);
      var alias := vars.SetAttributeNameAlias(names[j]);
      aliases := aliases + [alias];
    }
    assert names[..|names|] == names;
  }

  /** GetKeyConditionExpression(queryIndex, queryVars), with the index's partition keys as `keys`. */
  method GetKeyConditionExpression(keys: seq<PartitionKey>, vars: QueryVariables) returns (r: Result<string>)
    requires vars.Valid()
    modifies vars
    ensures vars.Valid()
    ensures (r, vars.State()) == KeyConditionExpression(keys, old(vars.State()))
  {
    ghost var st0 := vars.State();
    var conditionExpressions: seq<string> := [];
    for i := 0 to |keys|
      invariant vars.Valid()
      invariant KeyClauses(keys, 0, [], st0) == KeyClauses(keys, i, conditionExpressions, vars.State())
    {
      ghost var st := vars.State();
      var attributeNameAlias := vars.SetAttributeNameAlias(keys[i].attributeName);
      var attributeValueAlias := vars.SetComparableValueAlias(StringType, Text(keys[i].attributeValue));
      var clause := KeyClause(keys[i].operator, attributeNameAlias, attributeValueAlias);
      if clause.None? {
        return Failure(NotSupported(KeyOperatorNotSupported(OperatorName(keys[i].operator))));
      }
      conditionExpressions := conditionExpressions + [clause.value];
    }
    r := Success(Join(conditionExpressions, " and "));
  }

  /** The public GetProjectionExpression(queryVars, projection). */
  method GetProjectionExpression(reg: Registry, proj: Option<Projection>, vars: QueryVariables) returns (r: Option<string>)
    requires vars.Valid()
    modifies vars
    ensures vars.Valid()
    ensures (r, vars.State()) == ProjectionExpression(reg, proj, old(vars.State()))
  {
    if proj.None? {
      return None;
    }
    var attributes, _ := ExpandHierarchy(reg, proj.value.hierarchy, {}, vars);
    if |attributes| == 0 {
      return None;
    }
    r := Some(Join(attributes, ", "));
  }

  /**
   * The recursive GetProjectionExpression(hierarchy, queryVars, visited):
   * the list of visited tables is shared by all the calls, so it goes in and
   * comes back out.
   */
  method ExpandHierarchy(reg: Registry, h: Id, visited: set<Id>, vars: QueryVariables)
    returns (attributes: seq<string>, visitedOut: set<Id>)
    requires vars.Valid()
    modifies vars
    ensures vars.Valid()
    ensures (attributes, visitedOut, vars.State()) == Expand(reg, h, visited, old(vars.State()))
    decreases reg.tables.Keys - visited
  {
    if h in visited {
      return [], visited;
    }
    visitedOut := visited + {h};
    attributes := [];
    if h !in reg.tables {
      return;
    }
    ghost var st0 := vars.State();
    var t := reg.tables[h];
    for i := 0 to |t.keys|
      invariant vars.Valid()
      invariant visited + {h} <= visitedOut
      invariant ExpandEntries(reg, h, 0, visited + {h}, [], st0)
                == ExpandEntries(reg, h, i, visitedOut, attributes, vars.State())
    {
      var attributeName := t.keys[i];
      var alias := vars.SetAttributeNameAlias(attributeName);
      var child := t.child[attributeName];
      if |TableOf(reg, child).keys| != 0 {
        var nested;
        nested, visitedOut := ExpandHierarchy(reg, child, visitedOut, vars);
        attributes := attributes + Prefixed(alias, nested);
      } else {
        attributes := attributes + [alias];
      }
    }
  }
}
