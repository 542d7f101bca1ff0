/**
 * The intermediate representation produced by the predicate parser and
 * consumed by the transpiler: one constructor per node class.
 */
module Nodes {
  import opened Common
  import opened Values

  datatype CompareOperator = Equal | NotEqual | LessThan | GreaterThan | LessThanOrEqual | GreaterThanOrEqual

  datatype BinaryExpressionType = And | Or

  datatype MethodCallType = BeginsWith | Contains | Size

  datatype Node =
    | Constant(value: Value)
    | PredicateExtension(name: string)
    | Record(name: string, recordType: TypeName)
    | RecordMemberAccessor(instance: Node, memberName: string, memberType: TypeName)
    | Compare(left: Node, op: CompareOperator, right: Node)
    | Binary(left: Node, binaryType: BinaryExpressionType, right: Node)
    | MethodCall(target: Option<Node>, callType: MethodCallType, args: seq<Node>)
    | InBraces(body: Node)
      // the parser only builds it around a RecordMemberAccessor, the type of the C# field
    | MemberExistsCondition(accessor: Node)
    | Inverse(body: Node)

  /** MethodCallNode.ReturnType */
  function ReturnType(m: MethodCallType): TypeName
  {
    if m == Size then Int32Type else BooleanType
  }

  /** The ExpressionNodeType name of a node, as it appears in messages. */
  function KindName(n: Node): string
  {
    match n
    case Constant(_) => "Constant"
    case PredicateExtension(_) => "PredicateExtension"
    case Record(_, _) => "Record"
    case RecordMemberAccessor(_, _, _) => "RecordMemberAccessor"
    case Compare(_, _, _) => "Compare"
    case Binary(_, _, _) => "BinaryExpression"
    case MethodCall(_, _, _) => "MethodCall"
    case InBraces(_) => "InBraces"
    case MemberExistsCondition(_) => "MemberExistsCondition"
    case Inverse(_) => "Inverse"
  }
}
