/**
 * The values the library handles: .NET objects met as expression constants
 * and record members, and DynamoDB attribute values.
 */
module Values {

  /** A .NET type, by its full name. */
  type TypeName = string

  const Int16Type: TypeName := "System.Int16"
  const Int32Type: TypeName := "System.Int32"
  const Int64Type: TypeName := "System.Int64"
  const DecimalType: TypeName := "System.Decimal"
  const StringType: TypeName := "System.String"
  const BooleanType: TypeName := "System.Boolean"

  /** Int16, Int32 and Int64: the integral types with a fixed two's-complement range. */
  predicate IsIntegral(t: TypeName)
  {
    t == Int16Type || t == Int32Type || t == Int64Type
  }

  /** short.MinValue, int.MinValue, long.MinValue */
  function MinValue(t: TypeName): int
    requires IsIntegral(t)
  {
    if t == Int16Type then -0x8000 else if t == Int32Type then -0x8000_0000 else -0x8000_0000_0000_0000
  }

  /** short.MaxValue, int.MaxValue, long.MaxValue */
  function MaxValue(t: TypeName): int
    requires IsIntegral(t)
  {
    -MinValue(t) - 1
  }

  /** The payload of a value whose type implements IComparable; equality is .NET value equality. */
  datatype Datum = Int(i: int) | Dec(d: real) | Text(s: string) | Bool(b: bool)

  /**
   * A .NET object: null, an IComparable value of some runtime type, or any
   * other object, which is equal only to itself (its identity is `id`).
   */
  datatype Value =
    | Null
    | Comparable(runtimeType: TypeName, datum: Datum)
    | Reference(runtimeType: TypeName, id: nat)

  /** A DynamoDB AttributeValue; for each attribute one of its data types is in use. */
  datatype AttributeValue =
    | NULL
    | S(s: string)
    | N(n: string)
    | BOOL(b: bool)
    | SS(ss: seq<string>)
    | NS(ns: seq<string>)
    | L(l: seq<AttributeValue>)
    | M(m: map<string, AttributeValue>)

  /** An item, or any other Dictionary<string, AttributeValue>. */
  type AttrMap = map<string, AttributeValue>
}
