/**
 * The integer and string codecs that the default mapping profile registers
 * for record members (ArrowStore/Mapper/PrimitiveMappingProfile.cs).
 *
 * The `int`, `long` and `short` regions of the profile are the same code
 * typed three times; here they are one codec over a `Width`.  A member of a
 * non-nullable type uses the codec with `required` set, one of a nullable
 * type with `required` clear.  Numbers are written with `ToString` and read
 * back with `TryParse`; both are taken to follow the one canonical grammar
 * of Common.IntToString and Common.ParseInteger (an optional sign, then
 * decimal digits), with `TryParse` failing outside the width's range.
 */
module PrimitiveProfile {
  import opened Common
  import opened Values

  /** The three integer widths the profile maps. */
  datatype Width = Short | Int | Long

  /** The word the exception messages use for the width. */
  function KindName(w: Width): string
  {
    match w
    case Short => "Short"
    case Int => "Int"
    case Long => "Long"
  }

  function MinValue(w: Width): int
  {
    match w
    case Short => -0x8000
    case Int => -0x8000_0000
    case Long => -0x8000_0000_0000_0000
  }

  function MaxValue(w: Width): int
  {
    match w
    case Short => 0x7FFF
    case Int => 0x7FFF_FFFF
    case Long => 0x7FFF_FFFF_FFFF_FFFF
  }

  /** The values of the CLR type of that width. */
  predicate InRange(w: Width, i: int)
  {
    MinValue(w) <= i <= MaxValue(w)
  }

  // ---------------------------------------------------------------------
  // Scalars

  /**
   * To{Int,Long,Short}Attribute: a missing value is refused when the member
   * is required and written as NULL otherwise; a value is written as N.
   */
  function ToNumberAttribute(w: Width, value: Option<int>, required: bool): (r: Result<AttributeValue>)
    requires value.Some? ==> InRange(w, value.value)
    ensures r.Failure? <==> value.None? && required
    ensures r.Failure? ==> r.error == ConversionFailed(NumberRequired(KindName(w)))
    ensures r.Success? ==> (r.value.NULL? <==> value.None?) && (r.value.NULL? || r.value.N?)
  {
    if value.None? then
      if required then Failure(ConversionFailed(NumberRequired(KindName(w)))) else Success(NULL)
    else
      Success(N(IntToString(value.value)))
  }

  /** {int,long,short}.TryParse: the canonical grammar, and nothing outside the width. */
  function TryParse(w: Width, text: string): (r: Option<int>)
    ensures r.Some? <==> ParseInteger(text).Some? && InRange(w, ParseInteger(text).value)
    ensures r.Some? ==> r == ParseInteger(text)
  {
    var parsed := ParseInteger(text);
    if parsed.Some? && InRange(w, parsed.value) then parsed else None
  }

  /** A text that Parse{Int,Long,Short} does not turn into a number. */
  predicate Unreadable(w: Width, value: Option<string>)
  {
    NullOrEmpty(value) || TryParse(w, value.value).None?
  }

  /** A null string as string interpolation writes it: empty. */
  function Shown(value: Option<string>): string
  {
    if value.None? then "" else value.value
  }

  /**
   * Parse{Int,Long,Short}: an unreadable text is refused, quoting the text,
   * when the member is required and gives null otherwise; a readable one
   * gives its value, which lies in the width's range.
   */
  function ParseNumber(w: Width, value: Option<string>, required: bool): (r: Result<Option<int>>)
    ensures r.Failure? <==> required && Unreadable(w, value)
    ensures r.Failure? ==> r.error == ConversionFailed(NumberUnreadable(KindName(w), Shown(value)))
    ensures r.Success? ==> (r.value.None? <==> Unreadable(w, value))
    ensures r.Success? && r.value.Some? ==>
      value.Some? && InRange(w, r.value.value) && ParseInteger(value.value) == r.value
  {
    if NullOrEmpty(value) || TryParse(w, value.value).None? then
      if required then Failure(ConversionFailed(NumberUnreadable(KindName(w), Shown(value)))) else Success(None)
    else
      Success(TryParse(w, value.value))
  }

  /** `attr?.N`: the number text of an attribute, null when there is none. */
  function NumberText(attr: Option<AttributeValue>): (r: Option<string>)
    ensures r.Some? <==> attr.Some? && attr.value.N?
  {
    if attr.Some? && attr.value.N? then Some(attr.value.n) else None
  }

  /** From{Int,Long,Short}Attribute: the number text of the attribute, parsed. */
  function FromNumberAttribute(w: Width, attr: Option<AttributeValue>, required: bool): (r: Result<Option<int>>)
    ensures (attr.None? || !attr.value.N?) ==> (r.Failure? <==> required) && (r.Success? ==> r.value.None?)
    ensures r.Success? && r.value.Some? ==>
      attr.Some? && attr.value.N? && InRange(w, r.value.value) && ParseInteger(attr.value.n) == r.value
  {
    ParseNumber(w, NumberText(attr), required)
  }

  /**
   * Reading back what a member was written as gives the member: a value
   * through its N text, and an optional missing value through NULL.
   */
  lemma NumberRoundTrip(w: Width, value: Option<int>, required: bool)
    requires value.Some? ==> InRange(w, value.value)
    requires value.Some? || !required
    ensures var written := ToNumberAttribute(w, value, required);
      written.Success? && FromNumberAttribute(w, Some(written.value), required) == Success(value)
  {
    if value.Some? {
      IntegerRoundTrip(value.value);
      assert IntToString(value.value) != "" by {
        if value.value < 0 {
          assert IntToString(value.value)[0] == '-';
        } else {
          assert |NatToString(value.value)| >= 1;
        }
      }
    }
  }

  // ---------------------------------------------------------------------
  // Number lists

  /** To{Int,Long,Short}ListAttribute, as a value: NULL for no elements, NS of the texts otherwise. */
  function NumberListAttribute(values: Option<seq<int>>): AttributeValue
  {
    if values.None? || |values.value| == 0 then NULL
    else NS(seq(|values.value|, k requires 0 <= k < |values.value| => IntToString(values.value[k])))
  }

  /**
   * To{Int,Long,Short}ListAttribute (lines 524-541): the texts are collected
   * one element at a time, in order.
   */
  method ToNumberListAttribute(values: Option<seq<int>>) returns (r: AttributeValue)
    ensures r == NumberListAttribute(values)
    ensures r.NULL? <==> values.None? || |values.value| == 0
    ensures r.NS? ==> |r.ns| == |values.value| && forall k :: 0 <= k < |r.ns| ==> r.ns[k] == IntToString(values.value[k])
  {
    var result: seq<string> := [];
    if values.Some? {
      for i := 0 to |values.value|
        invariant |result| == i
        invariant forall k :: 0 <= k < i ==> result[k] == IntToString(values.value[k])
      {
        result := result + [IntToString(values.value[i])];
      }
    }
    if |result| == 0 {
      return NULL;
    }
    r := NS(result);
    assert values.Some? && r == NumberListAttribute(values);
  }

  /**
   * The elements of a number set, each parsed as required, the first
   * unreadable one raising the cast error.
   */
  function ParseAll(w: Width, texts: seq<string>): Result<seq<int>>
    decreases |texts|
  {
    if |texts| == 0 then Success([])
    else
      var init := ParseAll(w, texts[..|texts| - 1]);
      if init.Failure? then init
      else
        var last := ParseNumber(w, Some(texts[|texts| - 1]), true);
        if last.Failure? then Failure(last.error) else Success(init.value + [last.value.value])
  }

  /** The first element of `texts` that does not parse is the one at `k`. */
  ghost predicate FirstUnreadable(w: Width, texts: seq<string>, k: int)
  {
    0 <= k < |texts| && TryParse(w, texts[k]).None? && forall j :: 0 <= j < k ==> TryParse(w, texts[j]).Some?
  }

  /**
   * The elements parse exactly when every one is readable, and then each
   * value is its element's; otherwise the error quotes the first element
   * that is not.
   */
  lemma {:induction false} ParseAllSpec(w: Width, texts: seq<string>)
    ensures var r := ParseAll(w, texts);
      && (r.Success? <==> forall k :: 0 <= k < |texts| ==> TryParse(w, texts[k]).Some?)
      && (r.Success? ==> |r.value| == |texts| && forall k :: 0 <= k < |texts| ==> TryParse(w, texts[k]) == Some(r.value[k]))
      && (r.Failure? ==> exists k :: FirstUnreadable(w, texts, k) && r.error == ConversionFailed(NumberUnreadable(KindName(w), texts[k])))
    decreases |texts|
  {
    if |texts| > 0 {
      var n := |texts| - 1;
      var init := texts[..n];
      ParseAllSpec(w, init);
      assert forall k :: 0 <= k < n ==> init[k] == texts[k];
      var r0 := ParseAll(w, init);
      if r0.Failure? {
        var k :| FirstUnreadable(w, init, k) && r0.error == ConversionFailed(NumberUnreadable(KindName(w), init[k]));
        assert FirstUnreadable(w, texts, k);
      } else {
        var last := ParseNumber(w, Some(texts[n]), true);
        if last.Failure? {
          assert FirstUnreadable(w, texts, n);
        } else {
          var r := r0.value + [last.value.value];
          assert forall k :: 0 <= k < n ==> r[k] == r0.value[k];
        }
      }
    }
  }

  /**
   * From{Int,Long,Short}ListAttribute, as a value: nothing for a missing or
   * NULL attribute, one without a number set or with an empty one;
   * otherwise the parsed elements.
   */
  function NumberListOf(w: Width, attr: Option<AttributeValue>): Result<seq<int>>
  {
    if attr.None? || attr.value.NULL? || !attr.value.NS? || |attr.value.ns| == 0 then Success([])
    else ParseAll(w, attr.value.ns)
  }

  /** From{Int,Long,Short}ListAttribute (lines 503-517): one element at a time, in order. */
  method FromNumberListAttribute(w: Width, attr: Option<AttributeValue>) returns (r: Result<seq<int>>)
    ensures r == NumberListOf(w, attr)
  {
    if attr.None? || attr.value.NULL? || !attr.value.NS? || |attr.value.ns| == 0 {
      return Success([]);
    }
    var ns := attr.value.ns;
    var result: seq<int> := [];
    for i := 0 to |ns|
      invariant ParseAll(w, ns[..i]) == Success(result)
    {
      assert ns[..i + 1][..i] == ns[..i];
      var parsed := ParseNumber(w, Some(ns[i]), true);
      if parsed.Failure? {
        assert ParseAll(w, ns[..i + 1]) == Failure(parsed.error);
        ParseAllPrefixFails(w, ns, i + 1);
        return Failure(parsed.error);
      }
      result := result + [parsed.value.value];
    }
    assert ns[..|ns|] == ns;
    r := Success(result);
  }

  /** Once a prefix of the elements fails, the whole list fails the same way. */
  lemma {:induction false} ParseAllPrefixFails(w: Width, texts: seq<string>, i: nat)
    requires i <= |texts| && ParseAll(w, texts[..i]).Failure?
    ensures ParseAll(w, texts) == ParseAll(w, texts[..i])
    decreases |texts| - i
  {
    if i < |texts| {
      assert texts[..i + 1][..i] == texts[..i];
      ParseAllPrefixFails(w, texts, i + 1);
    } else {
      assert texts[..i] == texts;
    }
  }

  /**
   * Reading back a written number list gives the list; a missing list
   * comes back empty.
   */
  lemma NumberListRoundTrip(w: Width, values: Option<seq<int>>)
    requires values.Some? ==> forall k :: 0 <= k < |values.value| ==> InRange(w, values.value[k])
    ensures NumberListOf(w, Some(NumberListAttribute(values))) == Success(if values.None? then [] else values.value)
  {
    if values.Some? && |values.value| > 0 {
      var vs := values.value;
      var texts := NumberListAttribute(values).ns;
      forall k | 0 <= k < |vs|
        ensures TryParse(w, texts[k]) == Some(vs[k])
      {
        IntegerRoundTrip(vs[k]);
      }
      ParseAllSpec(w, texts);
      assert ParseAll(w, texts).value == vs;
    }
  }

  // ---------------------------------------------------------------------
  // Strings

  /** ToStringAttribute: a null or empty string is written as NULL, anything else as S. */
  function ToStringAttribute(value: Option<string>): (r: AttributeValue)
    ensures r.NULL? <==> NullOrEmpty(value)
    ensures r.NULL? || r.S?
  {
    if NullOrEmpty(value) then NULL else S(value.value)
  }

  /** FromStringAttribute: `attr?.S`. */
  function FromStringAttribute(attr: Option<AttributeValue>): (r: Option<string>)
    ensures r.Some? <==> attr.Some? && attr.value.S?
  {
    if attr.Some? && attr.value.S? then Some(attr.value.s) else None
  }

  /** A string reads back as itself, except that an empty one comes back null. */
  lemma StringRoundTrip(value: Option<string>)
    ensures FromStringAttribute(Some(ToStringAttribute(value))) == if NullOrEmpty(value) then None else value
  {
  }

  /** ToStringListAttribute, as a value: NULL for no elements, SS of them otherwise. */
  function StringListAttribute(values: Option<seq<string>>): AttributeValue
  {
    if values.None? || |values.value| == 0 then NULL else SS(values.value)
  }

  /** ToStringListAttribute (lines 589-606): the elements are copied one at a time, in order. */
  method ToStringListAttribute(values: Option<seq<string>>) returns (r: AttributeValue)
    ensures r == StringListAttribute(values)
    ensures r.NULL? <==> values.None? || |values.value| == 0
  {
    var result: seq<string> := [];
    if values.Some? {
      for i := 0 to |values.value|
        invariant result == values.value[..i]
      {
        assert values.value[..i + 1] == values.value[..i] + [values.value[i]];
        result := result + [values.value[i]];
      }
      assert values.value[..|values.value|] == values.value;
    }
    if |result| == 0 {
      return NULL;
    }
    return SS(result);
  }

  /** FromStringListAttribute: the string set of the attribute, or nothing. */
  function FromStringListAttribute(attr: Option<AttributeValue>): (r: seq<string>)
    ensures attr.Some? && attr.value.SS? ==> r == attr.value.ss
    ensures !(attr.Some? && attr.value.SS?) ==> r == []
  {
    if attr.Some? && attr.value.SS? then attr.value.ss else []
  }

  /** A written string list reads back as itself; a missing one comes back empty. */
  lemma StringListRoundTrip(values: Option<seq<string>>)
    ensures FromStringListAttribute(Some(StringListAttribute(values))) == if values.None? then [] else values.value
  {
  }
}
