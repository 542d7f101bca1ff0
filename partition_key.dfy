/**
 * Partition keys (DynamoDBPartitionKey): an attribute name, a string value
 * and the operator of the key condition, and the composite key builder.
 */
module PartitionKeys {
  import opened Common

  /** ArrowStoreQueryOperator, in declaration order. */
  datatype QueryOperator =
    Equals | NotEquals | Contains | NotContains | BeginsWith | Greater | GreaterOrEqual | Less | LessOrEqual

  /** The name of an operator as `{Operator:G}` formats it. */
  function OperatorName(op: QueryOperator): string
  {
    match op
    case Equals => "Equals"
    case NotEquals => "NotEquals"
    case Contains => "Contains"
    case NotContains => "NotContains"
    case BeginsWith => "BeginsWith"
    case Greater => "Greater"
    case GreaterOrEqual => "GreaterOrEqual"
    case Less => "Less"
    case LessOrEqual => "LessOrEqual"
  }

  /** IPartitionKey */
  datatype PartitionKey = PartitionKey(attributeName: string, attributeValue: string, operator: QueryOperator)

  /** The public constructor DynamoDBPartitionKey(name, value): an equality key. */
  function NewPartitionKey(name: string, value: string): (k: PartitionKey)
    ensures k.attributeName == name && k.attributeValue == value
    ensures k.operator == Equals
  {
    PartitionKey(name, value, Equals)
  }

  /** The encoded segments, one per input segment and in the same order. */
  function EncodeAll(segments: seq<string>, encode: string -> string): (r: seq<string>)
    ensures |r| == |segments|
    ensures forall i :: 0 <= i < |segments| ==> r[i] == encode(segments[i])
  {
    if |segments| == 0 then [] else [encode(segments[0])] + EncodeAll(segments[1..], encode)
  }

  /**
   * Composite(params string[] segments), with HttpUtility.UrlEncode as
   * `encode`; `None` stands for a null array.
   */
  method Composite(segments: Option<seq<string>>, encode: string -> string) returns (r: Result<string>)
    ensures segments.None? || |segments.value| == 0 <==> r.Failure?
    ensures r.Failure? ==> r.error == ArgumentNull("segments")
    ensures r.Success? ==> r.value == Join(EncodeAll(segments.value, encode), "#")
  {
    if segments.None? || |segments.value| == 0 {
      return Failure(ArgumentNull("segments"));
    }
    var input := segments.value;
    var resultSegments := new string[|input|];
    for i := 0 to |input|
      invariant forall k :: 0 <= k < i ==> resultSegments[k] == encode(input[k])
    {
      resultSegments[i] := encode(input[i]);
    }
    assert resultSegments[..] == EncodeAll(input, encode);
    r := Success(Join(resultSegments[..], "#"));
  }

  /** When the encoder never produces '#', the composite key splits back into the encoded segments. */
  lemma CompositeSplits(segments: seq<string>, encode: string -> string)
    requires |segments| >= 1
    requires forall s :: '#' !in encode(s)
    ensures Split(Join(EncodeAll(segments, encode), "#"), '#') == EncodeAll(segments, encode)
  {
    SplitJoin(EncodeAll(segments, encode), '#');
  }

  /** Different segment lists of one length give different composite keys when the encoder is injective and '#'-free. */
  lemma CompositeInjective(s1: seq<string>, s2: seq<string>, encode: string -> string)
    requires |s1| >= 1 && |s2| >= 1
    requires forall s :: '#' !in encode(s)
    requires forall a, b :: encode(a) == encode(b) ==> a == b
    requires Join(EncodeAll(s1, encode), "#") == Join(EncodeAll(s2, encode), "#")
    ensures s1 == s2
  {
    CompositeSplits(s1, encode);
    CompositeSplits(s2, encode);
    var e1 := EncodeAll(s1, encode);
    assert |s1| == |s2|;
    forall i | 0 <= i < |s1|
      ensures s1[i] == s2[i]
    {
      assert encode(s1[i]) == e1[i];
    }
  }
}
