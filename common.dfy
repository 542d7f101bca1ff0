/**
 * Shared vocabulary of the model: optional values, the .NET exceptions the
 * library throws (as error values), and the few string operations it relies
 * on: string.Join, string.Split on one character, decimal formatting of
 * integers and integer parsing in the invariant culture.
 */
module Common {

  datatype Option<T> = None | Some(value: T)

  /** The exceptions thrown by the library, each with the message or parameter name it carries. */
  datatype Error =
    | ArgumentNull(paramName: string)
    | ArgumentError(message: Message)
    | InvalidOperation(message: Message)
    | NotSupported(message: Message)
      // a cast the runtime could not perform
    | InvalidCast(targetType: string)
      // an InvalidCastException the mapping code throws itself
    | ConversionFailed(message: Message)
    | IndexOutOfRange
    | Overflow
      // raised by code outside the model: reflection, conversion, crypto, JSON
    | External(description: string)

  /**
   * The exception messages, with the values formatted into them; MessageText
   * gives the text the library writes.
   */
  datatype Message =
      // the expression parser
    | LambdaParameterUnknown
    | ExpressionTypeNotSupported(expressionType: string)
    | MethodNotSupported(methodName: string)
    | MemberExistsArgument
    | MemberNotProperty(memberName: string)
    | PropertyAccessorExpected(nodeType: string)
      // the transpiler
    | NodeTypeNotSupported(nodeType: string)
    | AccessorNotSupported
    | ProjectionNotFound(recordType: string)
    | MemberProjectionNotFound(memberName: string)
    | SizeArguments
    | SizeAttribute
    | BeginsWithArgument
    | BeginsWithAttribute
    | ContainsArgument
    | ContainsAttribute
    | KeyOperatorNotSupported(operatorName: string)
      // the attribute map builders and the primitive converters
    | AttributeNameNotFound(attributePath: string)
    | NumberRequired(kind: string)
    | NumberUnreadable(kind: string, text: string)
      // the update builder
    | NothingToUpdate

  function MessageText(m: Message): string
  {
    match m
    case LambdaParameterUnknown => "The Lambda-parameter is unknown or not supported"
    case ExpressionTypeNotSupported(t) => "Not supported expression type '" + t + "'"
    case MethodNotSupported(name) => "Not supported method: " + name
    case MemberExistsArgument => "The MemberExists argument must be a member accessor"
    case MemberNotProperty(name) => "The member accessor must be a property: " + name
    case PropertyAccessorExpected(t) => "The property accessor was expected, but received " + t
    case NodeTypeNotSupported(t) => "The node type is not supported " + t
    case AccessorNotSupported => "The member accessor is not supported. Only the record type accessors are allowed"
    case ProjectionNotFound(t) => "The property attributes projection was not found for the type " + t
    case MemberProjectionNotFound(name) => "The property's attribute projection was not found: '" + name + "'"
    case SizeArguments => "No arguments allowed for the Size-function"
    case SizeAttribute => "No Size function attribute is provided"
    case BeginsWithArgument => "The begins_with function argument is missing"
    case BeginsWithAttribute => "No begins_with function attribute is provided"
    case ContainsArgument => "The contains function argument is missing"
    case ContainsAttribute => "No contains function attribute is provided"
    case KeyOperatorNotSupported(op) => "The key condition operator " + op + " is not supported"
    case AttributeNameNotFound(path) => "The attribute name was not found: " + path
    case NumberRequired(kind) => "The " + kind + "-value is required"
    case NumberUnreadable(kind, text) => "The " + kind + "-value is required: '" + text + "'"
    case NothingToUpdate => "Nothing to update"
  }

  datatype Result<T> = Success(value: T) | Failure(error: Error)
  {
    predicate IsFailure() { Failure? }

    function PropagateFailure<U>(): Result<U>
      requires Failure?
    {
      Failure(error)
    }

    function Extract(): T
      requires Success?
    {
      value
    }
  }

  /** string.Join(sep, parts) */
  function Join(parts: seq<string>, sep: string): string
  {
    if |parts| == 0 then ""
    else if |parts| == 1 then parts[0]
    else parts[0] + sep + Join(parts[1..], sep)
  }

  /** A join begins with its first part. */
  lemma JoinStartsWithFirst(parts: seq<string>, sep: string)
    requires |parts| >= 1
    ensures |Join(parts, sep)| >= |parts[0]| && Join(parts, sep)[..|parts[0]|] == parts[0]
  {
  }

  lemma JoinPair(a: string, b: string, sep: string)
    ensures Join([a, b], sep) == a + sep + b
  {
    assert [a, b][1..] == [b];
  }

  /** A prefix one element longer is the shorter prefix and that element. */
  lemma PrefixSnoc<T>(s: seq<T>, i: nat)
    requires i < |s|
    ensures s[..i + 1] == s[..i] + [s[i]]
  {
  }

  /** Sequence concatenation is associative. */
  lemma ConcatAssoc<T>(a: seq<T>, b: seq<T>, c: seq<T>)
    ensures (a + b) + c == a + (b + c)
  {
  }

  /** A suffix from i starts with the i-th element, followed by the suffix from i + 1. */
  lemma SuffixCons<T>(s: seq<T>, i: nat)
    requires i < |s|
    ensures s[i..][0] == s[i] && s[i..][1..] == s[i + 1..]
  {
  }

  /**
   * The keys of a Dictionary in enumeration order after `d[k] = v`: a new
   * key goes last, an existing key keeps its place.
   */
  function AddKey<K(==)>(keys: seq<K>, k: K): seq<K>
  {
    if k in keys then keys else keys + [k]
  }

  /** string.IsNullOrEmpty, with None for null. */
  predicate NullOrEmpty(s: Option<string>)
  {
    s.None? || s.value == ""
  }

  /** string.Split(c): n separators give n + 1 pieces, empty pieces kept. */
  function Split(s: string, c: char): (r: seq<string>)
    ensures |r| >= 1
  {
    if |s| == 0 then [""]
    else
      var rest := Split(s[1..], c);
      if s[0] == c then [""] + rest
      else [[s[0]] + rest[0]] + rest[1..]
  }

  /** The joined pieces are found again by splitting, provided none carries the separator. */
  lemma {:induction false} SplitJoin(parts: seq<string>, c: char)
    requires |parts| >= 1
    requires forall i :: 0 <= i < |parts| ==> c !in parts[i]
    ensures Split(Join(parts, [c]), c) == parts
  {
    if |parts| == 1 {
      SplitWithout(parts[0], c);
    } else {
      SplitJoin(parts[1..], c);
      var tail := [c] + Join(parts[1..], [c]);
      assert Split(tail, c) == [""] + parts[1..] by {
        assert tail[1..] == Join(parts[1..], [c]);
      }
      SplitPrefix(parts[0], tail, c);
      assert parts[0] + [c] + Join(parts[1..], [c]) == parts[0] + tail;
      assert parts[0] + "" == parts[0];
      assert [parts[0]] + parts[1..] == parts;
    }
  }

  lemma {:induction false} SplitWithout(p: string, c: char)
    requires c !in p
    ensures Split(p, c) == [p]
  {
    if |p| > 0 {
      SplitWithout(p[1..], c);
      assert [p[0]] + p[1..] == p;
    }
  }

  lemma {:induction false} SplitPrefix(p: string, t: string, c: char)
    requires c !in p
    ensures Split(p + t, c) == [p + Split(t, c)[0]] + Split(t, c)[1..]
  {
    if |p| > 0 {
      SplitPrefix(p[1..], t, c);
      assert (p + t)[1..] == p[1..] + t;
      assert [p[0]] + (p[1..] + Split(t, c)[0]) == p + Split(t, c)[0];
    } else {
      assert p + t == t;
      var r := Split(t, c);
      assert p + r[0] == r[0];
      assert [r[0]] + r[1..] == r;
    }
  }

  predicate IsDigit(ch: char) { '0' <= ch <= '9' }

  function DigitChar(d: nat): (ch: char)
    requires d < 10
    ensures IsDigit(ch) && (ch as int) - ('0' as int) == d
  {
    ('0' as int + d) as char
  }

  function DigitValue(ch: char): nat
    requires IsDigit(ch)
  {
    (ch as int) - ('0' as int)
  }

  predicate AllDigits(s: string) { forall i :: 0 <= i < |s| ==> IsDigit(s[i]) }

  /** Decimal digits of n, most significant first, no leading zeros (Int32.ToString for n >= 0). */
  function NatToString(n: nat): (r: string)
    ensures |r| >= 1 && AllDigits(r)
  {
    if n < 10 then [DigitChar(n)] else NatToString(n / 10) + [DigitChar(n % 10)]
  }

  /** The value of a non-empty run of decimal digits. */
  function DigitsValue(s: string): nat
    requires AllDigits(s)
  {
    if |s| == 0 then 0 else DigitsValue(s[..|s| - 1]) * 10 + DigitValue(s[|s| - 1])
  }

  lemma {:induction false} DigitsValueOfNat(n: nat)
    ensures DigitsValue(NatToString(n)) == n
  {
    if n >= 10 {
      DigitsValueOfNat(n / 10);
      var s := NatToString(n);
      assert s[..|s| - 1] == NatToString(n / 10);
    }
  }

  /** Distinct numbers are written differently, so the aliases built from them never collide. */
  lemma NatToStringInjective(m: nat, n: nat)
    requires NatToString(m) == NatToString(n)
    ensures m == n
  {
    DigitsValueOfNat(m);
    DigitsValueOfNat(n);
  }

  /** Int64.ToString() in the invariant culture. */
  function IntToString(i: int): string
  {
    if i < 0 then "-" + NatToString(-i) else NatToString(i)
  }

  /**
   * Int64.TryParse in the invariant culture without surrounding white space:
   * an optional sign followed by one or more decimal digits.
   */
  function ParseInteger(s: string): Option<int>
  {
    if |s| > 0 && (s[0] == '-' || s[0] == '+') then
      if |s| > 1 && AllDigits(s[1..]) then
        Some(if s[0] == '-' then -(DigitsValue(s[1..]) as int) else DigitsValue(s[1..]))
      else None
    else if |s| > 0 && AllDigits(s) then Some(DigitsValue(s))
    else None
  }

  /** Formatting then parsing gives the integer back. */
  lemma IntegerRoundTrip(i: int)
    ensures ParseInteger(IntToString(i)) == Some(i)
  {
    if i < 0 {
      var s := IntToString(i);
      assert s[1..] == NatToString(-i);
      DigitsValueOfNat(-i);
    } else {
      DigitsValueOfNat(i);
    }
  }
}
