/**
 * The predicate parser (WhereExpressionParser): turns a .NET expression tree
 * of a lambda over a record (and optionally the predicate-extension
 * parameter) into the node tree of module Nodes.
 *
 * The recursive descent is the function Visit. The two routines of the
 * parser that fill variables in a loop, the lambda-parameter scan and the
 * call-argument scan, are also given as methods with those loops, proved to
 * compute what Visit computes.
 */
module Parser {
  import opened Common
  import opened Values
  import opened Nodes

  /** A lambda parameter: its name, whether its type is the predicate-extension interface, and its type. */
  datatype Param = Param(name: string, isExtension: bool, paramType: TypeName)

  /** The .NET expression tree, one constructor per ExpressionType the parser looks at. */
  datatype Expr =
    | Lambda(parameters: seq<Param>, body: Expr)
    | AndAlso(left: Expr, right: Expr)
    | OrElse(left: Expr, right: Expr)
      // Equal, NotEqual, LessThan, LessThanOrEqual, GreaterThan, GreaterThanOrEqual
    | Comparison(op: CompareOperator, left: Expr, right: Expr)
    | Call(methodName: string, target: Option<Expr>, arguments: seq<Expr>)
    | MemberAccess(expression: Option<Expr>, memberName: string, isProperty: bool, propertyType: TypeName)
    | ConstantExpr(value: Value)
    | ConvertExpr(operand: Expr)
    | ParameterExpr(param: Param)
    | ArrayLength(operand: Expr)
    | Quote(operand: Expr)
    | NotExpr(operand: Expr)
      // any other ExpressionType, by its name
    | OtherExpr(nodeType: string)

  /**
   * What the parser borrows from the runtime: reading a member of a captured
   * object, reading a static member, and ForceConverter<T>.Convert (null
   * gives default(T), anything else an unboxing cast that may fail).
   */
  datatype Host = Host(
    memberValue: (Value, string) -> Result<Value>,
    staticValue: (TypeName, string) -> Result<Value>,
    coerce: (TypeName, Value) -> Result<Value>)

  /** ParserContext: the lambda's record parameter name and its extension parameter name, if any. */
  datatype ParserContext = ParserContext(recordParameter: string, extensionParameter: Option<string>)

  const UnknownParameter := InvalidOperation(LambdaParameterUnknown)

  function Visit(host: Host, e: Expr, ctx: Option<ParserContext>): Result<Node>
    decreases e, 1
  {
    match e
    case Lambda(_, _) => VisitLambda(host, e)
    case AndAlso(l, r) =>
      var left :- Visit(host, l, ctx);
      var right :- Visit(host, r, ctx);
      Success(InBraces(Binary(left, And, right)))
    case OrElse(l, r) =>
      var left :- Visit(host, l, ctx);
      var right :- Visit(host, r, ctx);
      Success(InBraces(Binary(left, Or, right)))
    case Comparison(op, l, r) =>
      var left :- Visit(host, l, ctx);
      var right :- Visit(host, r, ctx);
      var castLeft :- Cast(host, left, right);
      var castRight :- Cast(host, right, left);
      Success(Compare(castLeft, op, castRight))
    case Call(_, _, _) => VisitCall(host, e, ctx)
    case MemberAccess(_, _, _, _) => VisitMemberAccess(host, e, ctx)
    case ConstantExpr(v) => Success(Constant(v))
    case ConvertExpr(x) => Visit(host, x, ctx)
    case ParameterExpr(p) => VisitParameter(p, ctx)
    case ArrayLength(x) =>
      var operand :- Visit(host, x, ctx);
      Success(MethodCall(Some(operand), Size, []))
    case Quote(x) => Visit(host, x, None)
    case NotExpr(x) =>
      var operand :- Visit(host, x, ctx);
      Success(Inverse(operand))
    case OtherExpr(t) => Failure(InvalidOperation(ExpressionTypeNotSupported(t)))
  }

  /** Parameter(expression, context) */
  function VisitParameter(p: Param, ctx: Option<ParserContext>): Result<Node>
  {
    if p.isExtension then
      if ctx.None? || (ctx.value.extensionParameter.Some? && ctx.value.extensionParameter.value != ""
                       && ctx.value.extensionParameter.value == p.name)
      then Success(PredicateExtension(p.name))
      else Failure(UnknownParameter)
    else if ctx.None? || ctx.value.recordParameter == p.name then Success(Record(p.name, p.paramType))
    else Failure(UnknownParameter)
  }

  /** The record and extension parameter names left by the scan of Lambda's parameters from index i on. */
  function ScanParameters(ps: seq<Param>, i: nat, accessorName: Option<string>, extensionName: Option<string>)
    : (Option<string>, Option<string>)
    requires i <= |ps|
    decreases |ps| - i
  {
    if i == |ps| then (accessorName, extensionName)
    else if ps[i].isExtension then ScanParameters(ps, i + 1, accessorName, Some(ps[i].name))
    else ScanParameters(ps, i + 1, Some(ps[i].name), extensionName)
  }

  /** Lambda(expression): the body is parsed in the context of the lambda's own parameters. */
  function VisitLambda(host: Host, e: Expr): Result<Node>
    requires e.Lambda?
    decreases e, 0
  {
    var (accessorName, extensionName) := ScanParameters(e.parameters, 0, None, None);
    if accessorName.None? || accessorName.value == "" then
      Failure(ArgumentNull("extensionName"))
    else Visit(host, e.body, Some(ParserContext(accessorName.value, extensionName)))
  }

  /** The call arguments from index i on, appended to `acc`, the first failure stopping the scan. */
  function VisitArguments(host: Host, e: Expr, ctx: Option<ParserContext>, i: nat, acc: seq<Node>): (r: Result<seq<Node>>)
    requires e.Call? && i <= |e.arguments|
    ensures r.Success? ==> |r.value| == |acc| + |e.arguments| - i && r.value[..|acc|] == acc
    decreases e, 0, |e.arguments| - i
  {
    if i == |e.arguments| then Success(acc)
    else
      var arg :- Visit(host, e.arguments[i], ctx);
      VisitArguments(host, e, ctx, i + 1, acc + [arg])
  }

  /** Call(expression, context): the target first, then the arguments in order, then the method name. */
  function VisitCall(host: Host, e: Expr, ctx: Option<ParserContext>): Result<Node>
    requires e.Call?
    decreases e, 0
  {
    var target :- if e.target.Some? then
        var t :- Visit(host, e.target.value, ctx); Success(Some(t))
      else Success(None);
    if target.None? && |e.arguments| == 0 then
      // new IExpressionNode[-1]
      Failure(Overflow)
    else
      var visited :- VisitArguments(host, e, ctx, 0, []);
      if target.None? then ResolveMethod(e.methodName, Some(visited[0]), visited[1..])
      else ResolveMethod(e.methodName, target, visited)
  }

  /** The method-name switch of Call. */
  function ResolveMethod(name: string, instance: Option<Node>, args: seq<Node>): Result<Node>
  {
    if name == "StartsWith" then Success(MethodCall(instance, BeginsWith, args))
    else if name == "Contains" then Success(MethodCall(instance, Contains, args))
    else if name == "Length" || name == "Count" then Success(MethodCall(instance, Size, args))
    else if name == "MemberExists" then
      if instance.None? || !instance.value.PredicateExtension? then
        Failure(InvalidOperation(MethodNotSupported("MemberExists")))
      else if |args| != 1 && (|args| == 0 || !args[0].RecordMemberAccessor?) then
        if |args| == 0 then Failure(IndexOutOfRange)
        else Failure(InvalidOperation(MemberExistsArgument))
      else if !args[0].RecordMemberAccessor? then
        // the cast (RecordMemberAccessorNode)args[0]
        Failure(InvalidCast("RecordMemberAccessorNode"))
      else Success(MemberExistsCondition(args[0]))
    else Failure(InvalidOperation(MethodNotSupported(name)))
  }

  /** MemberAccess(expression, context) */
  function VisitMemberAccess(host: Host, e: Expr, ctx: Option<ParserContext>): Result<Node>
    requires e.MemberAccess?
    decreases e, 0
  {
    if e.expression.Some? then
      var instance :- Visit(host, e.expression.value, ctx);
      if instance.Constant? then
        if instance.value.Null? then Success(instance)
        else
          var v :- host.memberValue(instance.value, e.memberName);
          Success(Constant(v))
      else AccessMember(host, e, Some(instance))
    else AccessMember(host, e, None)
  }

  /** The part of MemberAccess after the constant-folding of captured values. */
  function AccessMember(host: Host, e: Expr, instance: Option<Node>): Result<Node>
    requires e.MemberAccess?
  {
    if !e.isProperty then
      Failure(InvalidOperation(MemberNotProperty(e.memberName)))
    else if instance.None? then
      var v :- host.staticValue(e.propertyType, e.memberName);
      Success(Constant(v))
    else if e.memberName == "Length" && e.propertyType == Int32Type
         && instance.value.RecordMemberAccessor? && instance.value.memberType == StringType then
      Success(MethodCall(instance, Size, []))
    else Success(RecordMemberAccessor(instance.value, e.memberName, e.propertyType))
  }

  /** Cast(toEval, reference): a constant compared with a typed operand is converted to that operand's type. */
  function Cast(host: Host, toEval: Node, reference: Node): (r: Result<Node>)
    ensures !toEval.Constant? ==> r == Success(toEval)
    ensures r.Success? ==> r.value == toEval || r.value.Constant?
    ensures r.Failure? ==> toEval.Constant? && (reference.MethodCall? || reference.RecordMemberAccessor?)
  {
    if toEval.Constant? && reference.MethodCall? then
      var v :- host.coerce(ReturnType(reference.callType), toEval.value);
      Success(Constant(v))
    else if toEval.Constant? && reference.RecordMemberAccessor? then
      var v :- host.coerce(reference.memberType, toEval.value);
      Success(Constant(v))
    else Success(toEval)
  }

  /** Tokenize(predicate) */
  function Tokenize(host: Host, lambda: Expr): Result<Node>
  {
    Visit(host, lambda, None)
  }

  /** EnsurePropertyName(predicate): the lambda must parse to a record member accessor. */
  function EnsurePropertyName(host: Host, lambda: Expr): (r: Result<Node>)
    ensures r.Success? ==> r.value.RecordMemberAccessor? && Visit(host, lambda, None) == r
    ensures r.Failure? && Visit(host, lambda, None).Success? ==>
              r.error == ArgumentError(PropertyAccessorExpected(KindName(Visit(host, lambda, None).value)))
  {
    var n :- Visit(host, lambda, None);
    if n.RecordMemberAccessor? then Success(n)
    else Failure(ArgumentError(PropertyAccessorExpected(KindName(n))))
  }

  /** Lambda, with its loop over the parameters. */
  method ParseLambda(host: Host, e: Expr, ctx: Option<ParserContext>) returns (r: Result<Node>)
    requires e.Lambda?
    ensures r == Visit(host, e, ctx)
  {
    var accessorName: Option<string> := None;
    var extensionName: Option<string> := None;
    for i := 0 to |e.parameters|
      invariant ScanParameters(e.parameters, i, accessorName, extensionName)
             == ScanParameters(e.parameters, 0, None, None)
    {
      var parameter := e.parameters[i];
      var node := VisitParameter(parameter, None);
      match node {
        case Success(Record(name, _)) =>
          accessorName := Some(name);
        case Success(PredicateExtension(name)) =>
          extensionName := Some(name);
        case _ =>
          assert false;
      }
    }
    if accessorName.None? || accessorName.value == "" {
      return Failure(ArgumentNull("extensionName"));
    }
    r := Visit(host, e.body, Some(ParserContext(accessorName.value, extensionName)));
  }

  /** Call, with its array of arguments filled in a loop. */
  method ParseCall(host: Host, e: Expr, ctx: Option<ParserContext>) returns (r: Result<Node>)
    requires e.Call?
    ensures r == Visit(host, e, ctx)
  {
    var instance: Option<Node> := None;
    if e.target.Some? {
      var t := Visit(host, e.target.value, ctx);
      if t.Failure? {
        return Failure(t.error);
      }
      instance := Some(t.value);
    }
    ghost var target := instance;
    var count := |e.arguments|;
    if instance.None? && count == 0 {
      return Failure(Overflow);
    }
    var args := new Node[if instance.None? then count - 1 else count](_ => Constant(Null));
    ghost var visited: seq<Node> := [];
    for i := 0 to count
      invariant |visited| == i
      invariant VisitArguments(host, e, ctx, i, visited) == VisitArguments(host, e, ctx, 0, [])
      invariant e.target.Some? ==> instance == target && forall k :: 0 <= k < i ==> args[k] == visited[k]
      invariant e.target.None? ==> (if i == 0 then instance.None? else instance == Some(visited[0]))
      invariant e.target.None? ==> forall k :: 1 <= k < i ==> args[k - 1] == visited[k]
    {
      var a := Visit(host, e.arguments[i], ctx);
      if a.Failure? {
        return Failure(a.error);
      }
      var arg := a.value;
      if e.target.None? {
        if i == 0 {
          instance := Some(arg);
        } else {
          args[i - 1] := arg;
        }
      } else {
        args[i] := arg;
      }
      visited := visited + [arg];
    }
    assert e.target.None? ==> args[..] == visited[1..];
    assert e.target.Some? ==> args[..] == visited;
    r := ResolveMethod(e.methodName, instance, args[..]);
  }

  // ---------------------------------------------------------------------
  // Properties of the parse

  /**
   * Every And/Or node of the tree sits directly inside an InBraces node,
   * so the rendered text keeps the grouping of the C# expression.
   */
  predicate Braced(n: Node)
  {
    match n
    case Binary(_, _, _) => false
    case InBraces(b) => if b.Binary? then Braced(b.left) && Braced(b.right) else Braced(b)
    case RecordMemberAccessor(i, _, _) => Braced(i)
    case Compare(l, _, r) => Braced(l) && Braced(r)
    case MethodCall(t, _, args) => (t.Some? ==> Braced(t.value)) && forall a :: a in args ==> Braced(a)
    case MemberExistsCondition(a) => Braced(a)
    case Inverse(b) => Braced(b)
    case _ => true
  }

  lemma {:induction false} VisitBraced(host: Host, e: Expr, ctx: Option<ParserContext>)
    requires Visit(host, e, ctx).Success?
    ensures Braced(Visit(host, e, ctx).value)
    decreases e, 1
  {
    match e
    case Lambda(_, _) =>
      var (accessorName, extensionName) := ScanParameters(e.parameters, 0, None, None);
      VisitBraced(host, e.body, Some(ParserContext(accessorName.value, extensionName)));
    case AndAlso(l, r) =>
      VisitBraced(host, l, ctx);
      VisitBraced(host, r, ctx);
    case OrElse(l, r) =>
      VisitBraced(host, l, ctx);
      VisitBraced(host, r, ctx);
    case Comparison(op, l, r) =>
      VisitBraced(host, l, ctx);
      VisitBraced(host, r, ctx);
    case Call(_, _, _) => CallBraced(host, e, ctx);
    case MemberAccess(_, _, _, _) =>
      if e.expression.Some? {
        VisitBraced(host, e.expression.value, ctx);
      }
    case ConstantExpr(_) =>
    case ConvertExpr(x) => VisitBraced(host, x, ctx);
    case ParameterExpr(_) =>
    case ArrayLength(x) => VisitBraced(host, x, ctx);
    case Quote(x) => VisitBraced(host, x, None);
    case NotExpr(x) => VisitBraced(host, x, ctx);
    case OtherExpr(_) =>
  }

  lemma {:induction false} CallBraced(host: Host, e: Expr, ctx: Option<ParserContext>)
    requires e.Call? && VisitCall(host, e, ctx).Success?
    ensures Braced(VisitCall(host, e, ctx).value)
    decreases e, 0
  {
    if e.target.Some? {
      VisitBraced(host, e.target.value, ctx);
    }
    ArgumentsBraced(host, e, ctx, 0, []);
  }

  lemma {:induction false} ArgumentsBraced(host: Host, e: Expr, ctx: Option<ParserContext>, i: nat, acc: seq<Node>)
    requires e.Call? && i <= |e.arguments|
    requires forall a :: a in acc ==> Braced(a)
    requires VisitArguments(host, e, ctx, i, acc).Success?
    ensures forall a :: a in VisitArguments(host, e, ctx, i, acc).value ==> Braced(a)
    decreases e, 0, |e.arguments| - i
  {
    if i < |e.arguments| {
      var arg := Visit(host, e.arguments[i], ctx).value;
      VisitBraced(host, e.arguments[i], ctx);
      ArgumentsBraced(host, e, ctx, i + 1, acc + [arg]);
    }
  }

  /** A parameter is bound only by the lambda that declares it (Parameter, both directions). */
  lemma ParameterBinding(p: Param, c: ParserContext)
    ensures VisitParameter(p, Some(c)).Success? <==>
      (if p.isExtension then p.name != "" && c.extensionParameter == Some(p.name)
       else c.recordParameter == p.name)
    ensures VisitParameter(p, Some(c)).Failure? ==> VisitParameter(p, Some(c)).error == UnknownParameter
  {
  }

  /** Of several record (extension) parameters, the last one is the one the body must use (Lambda). */
  lemma {:induction false} ScanFindsLast(ps: seq<Param>, i: nat, accessorName: Option<string>, extensionName: Option<string>)
    requires i <= |ps|
    ensures var found := ScanParameters(ps, i, accessorName, extensionName).0;
      || (found == accessorName && forall k :: i <= k < |ps| ==> ps[k].isExtension)
      || exists j :: i <= j < |ps| && !ps[j].isExtension && found == Some(ps[j].name)
                     && forall k :: j < k < |ps| ==> ps[k].isExtension
    ensures var found := ScanParameters(ps, i, accessorName, extensionName).1;
      || (found == extensionName && forall k :: i <= k < |ps| ==> !ps[k].isExtension)
      || exists j :: i <= j < |ps| && ps[j].isExtension && found == Some(ps[j].name)
                     && forall k :: j < k < |ps| ==> !ps[k].isExtension
    decreases |ps| - i
  {
    if i < |ps| {
      ScanFindsLast(ps, i + 1, if ps[i].isExtension then accessorName else Some(ps[i].name),
                    if ps[i].isExtension then Some(ps[i].name) else extensionName);
    }
  }

  /** `s.Length` on a string member becomes a size() call (MemberAccess). */
  lemma StringLengthIsSize(host: Host, inner: Expr, ctx: Option<ParserContext>)
    requires Visit(host, inner, ctx).Success?
    requires Visit(host, inner, ctx).value.RecordMemberAccessor?
    requires Visit(host, inner, ctx).value.memberType == StringType
    ensures Visit(host, MemberAccess(Some(inner), "Length", true, Int32Type), ctx)
         == Success(MethodCall(Some(Visit(host, inner, ctx).value), Size, []))
  {
  }

  /** A constant compared with a member is converted to the member's type before it is aliased (Compare, Cast). */
  lemma ComparedConstantTakesMemberType(host: Host, op: CompareOperator, l: Expr, r: Expr, ctx: Option<ParserContext>)
    requires Visit(host, l, ctx).Success? && Visit(host, l, ctx).value.RecordMemberAccessor?
    requires Visit(host, r, ctx).Success? && Visit(host, r, ctx).value.Constant?
    ensures var member := Visit(host, l, ctx).value;
            var c := host.coerce(member.memberType, Visit(host, r, ctx).value.value);
            Visit(host, Comparison(op, l, r), ctx)
              == if c.Failure? then Failure(c.error) else Success(Compare(member, op, Constant(c.value)))
  {
  }

  /** Every and/or of the C# expression is an InBraces(Binary) node whose sides are the parsed operands. */
  lemma AndOrAreBraced(host: Host, l: Expr, r: Expr, ctx: Option<ParserContext>)
    requires Visit(host, l, ctx).Success? && Visit(host, r, ctx).Success?
    ensures Visit(host, AndAlso(l, r), ctx)
         == Success(InBraces(Binary(Visit(host, l, ctx).value, And, Visit(host, r, ctx).value)))
    ensures Visit(host, OrElse(l, r), ctx)
         == Success(InBraces(Binary(Visit(host, l, ctx).value, Or, Visit(host, r, ctx).value)))
  {
  }

  /** MemberExists is accepted only on the extension parameter and with a member accessor as argument. */
  lemma MemberExistsAccepted(instance: Option<Node>, args: seq<Node>)
    ensures ResolveMethod("MemberExists", instance, args).Success? <==>
      instance.Some? && instance.value.PredicateExtension? && |args| >= 1 && args[0].RecordMemberAccessor?
    ensures ResolveMethod("MemberExists", instance, args).Success? ==>
      ResolveMethod("MemberExists", instance, args).value == MemberExistsCondition(args[0])
  {
  }
}
