/**
 * The read-side map builder (FromAttributesMapBuilder<TRecord> and its
 * DynamoDBFromAttributeConverterBuilder<TMember>): member registrations, the
 * read projection they fill, and the lookup of an attribute along a dotted
 * path when an item is mapped back to a record.
 */
module FromAttributes {
  import opened Common
  import opened Values
  import opened Nodes
  import opened Parser
  import opened Projections
  import opened ToAttributes

  /**
   * One ForMember registration made by MapFrom: the target member, the
   * attribute path it reads, whether the attribute must exist, and the
   * converter of MapFrom(attributePath, convert) if that overload was used.
   */
  datatype MemberMapping = MemberMapping(
    accessor: Expr, attributePath: string, mustExist: bool, convert: Option<AttributeValue -> Value>)

  /** `attributeValue.M`: the inner map of an attribute; one of another type has none and reads as empty. */
  function InnerMap(a: AttributeValue): AttrMap
  {
    if a.M? then a.m else map[]
  }

  /** The attribute reached by following `segments` through inner maps, if every segment is present. */
  function Lookup(item: AttrMap, segments: seq<string>): Option<AttributeValue>
    requires |segments| >= 1
    decreases |segments|
  {
    if segments[0] !in item then None
    else if |segments| == 1 then Some(item[segments[0]])
    else Lookup(InnerMap(item[segments[0]]), segments[1..])
  }

  /** What GetAttributeValue returns or throws for a path. */
  function AttributeAt(item: AttrMap, attributePath: string, mustExist: bool): (r: Result<Option<AttributeValue>>)
    ensures r.Failure? <==> mustExist && Lookup(item, Split(attributePath, '.')).None?
    ensures r.Failure? ==> r.error == ConversionFailed(AttributeNameNotFound(attributePath))
    ensures r.Success? ==> r.value == Lookup(item, Split(attributePath, '.'))
  {
    var found := Lookup(item, Split(attributePath, '.'));
    if found.None? && mustExist then Failure(ConversionFailed(AttributeNameNotFound(attributePath)))
    else Success(found)
  }

  /** Lookup from the i-th segment on. */
  lemma LookupFrom(source: AttrMap, segments: seq<string>, i: nat)
    requires i < |segments|
    ensures Lookup(source, segments[i..]) ==
      if segments[i] !in source then None
      else if i == |segments| - 1 then Some(source[segments[i]])
      else Lookup(InnerMap(source[segments[i]]), segments[i + 1..])
  {
    SuffixCons(segments, i);
  }

  /** GetAttributeValue(source, attributePath), with the converter builder's `_mustExist` as `mustExist`. */
  method GetAttributeValue(item: AttrMap, attributePath: string, mustExist: bool) returns (r: Result<Option<AttributeValue>>)
    ensures r == AttributeAt(item, attributePath, mustExist)
  {
    var segments := Split(attributePath, '.');
    var source := item;
    var attributeValue: Option<AttributeValue> := None;
    var i := 0;
    while i < |segments|
      invariant 0 <= i <= |segments|
      invariant i < |segments| ==> Lookup(item, segments) == Lookup(source, segments[i..])
      invariant i == |segments| ==> Lookup(item, segments) == attributeValue
    {
      var segment := segments[i];
      LookupFrom(source, segments, i);
      if segment !in source {
        attributeValue := None;
        break;
      }
      attributeValue := Some(source[segment]);
      source := InnerMap(attributeValue.value);
      i := i + 1;
    }
    if attributeValue.None? && mustExist {
      return Failure(ConversionFailed(AttributeNameNotFound(attributePath)));
    }
    r := Success(attributeValue);
  }

  /**
   * Map(source, member, context, attributePath): `fromMap` and `fromAttr` are
   * the mapper's conversions of an inner map and of an attribute.
   */
  function Map(item: AttrMap, member: Value, attributePath: string, mustExist: bool,
               fromMap: AttrMap -> Value, fromAttr: AttributeValue -> Value): (r: Result<Value>)
    ensures var found := Lookup(item, Split(attributePath, '.'));
      && (r.Failure? <==> found.None? && mustExist)
      && (found.None? && !mustExist ==> r == Success(member))
      && (found.Some? && found.value.M? ==> r == Success(fromMap(found.value.m)))
      && (found.Some? && !found.value.M? ==> r == Success(fromAttr(found.value)))
  {
    var attributeValue :- AttributeAt(item, attributePath, mustExist);
    if attributeValue.Some? then
      if attributeValue.value.M? then Success(fromMap(attributeValue.value.m))
      else Success(fromAttr(attributeValue.value))
    else Success(member)
  }

  /** DoConvert(converter, attributeValue): `default` is default(TMember). */
  function DoConvert(converter: AttributeValue -> Value, attributeValue: Option<AttributeValue>, default: Value): (r: Value)
    ensures attributeValue.None? ==> r == default
    ensures attributeValue.Some? ==> r == converter(attributeValue.value)
  {
    if attributeValue.None? then default else converter(attributeValue.value)
  }

  /** What a member mapped by MapFrom(attributePath, convert) receives from an item. */
  function Converted(item: AttrMap, attributePath: string, mustExist: bool,
                     converter: AttributeValue -> Value, default: Value): (r: Result<Value>)
    ensures var found := Lookup(item, Split(attributePath, '.'));
      && (r.Failure? <==> found.None? && mustExist)
      && (found.None? && !mustExist ==> r == Success(default))
      && (found.Some? ==> r == Success(converter(found.value)))
  {
    var attributeValue :- AttributeAt(item, attributePath, mustExist);
    Success(DoConvert(converter, attributeValue, default))
  }

  /**
   * Reading back: a path written by the write side's SetAttributeValue, where
   * every attribute met on the way is a map or missing, is found again with
   * the value written.
   */
  lemma {:induction false} LookupSetPath(item: AttrMap, segments: seq<string>, value: AttributeValue)
    requires |segments| >= 1 && MapsAlong(item, segments)
    ensures Lookup(SetPath(item, segments, value), segments) == Some(value)
    decreases |segments|
  {
    if |segments| > 1 {
      var inner := if segments[0] in item then item[segments[0]] else M(map[]);
      LookupSetPath(inner.m, segments[1..], value);
    }
  }

  /** Writing a path leaves every path with another top-level attribute reading as before. */
  lemma LookupSetPathElsewhere(item: AttrMap, written: seq<string>, value: AttributeValue, segments: seq<string>)
    requires |written| >= 1 && |segments| >= 1 && written[0] != segments[0]
    ensures Lookup(SetPath(item, written, value), segments) == Lookup(item, segments)
  {
    var r := SetPath(item, written, value);
    assert segments[0] in r <==> segments[0] in item;
    if segments[0] in item {
      assert r[segments[0]] == item[segments[0]];
    }
  }

  /**
   * Writing a path leaves every path that parts from it at some segment
   * reading as before, including the siblings inside the maps the write
   * passes through and reuses.
   */
  lemma {:induction false} LookupSetPathSibling(item: AttrMap, written: seq<string>, value: AttributeValue,
                                                segments: seq<string>, i: nat)
    requires i < |written| && i < |segments|
    requires segments[..i] == written[..i] && segments[i] != written[i]
    ensures Lookup(SetPath(item, written, value), segments) == Lookup(item, segments)
    decreases i
  {
    if i == 0 {
      LookupSetPathElsewhere(item, written, value, segments);
    } else {
      assert segments[0] == written[0] by { assert segments[..i][0] == written[..i][0]; }
      var inner := if written[0] in item then item[written[0]] else M(map[]);
      if inner.M? {
        assert segments[1..][..i - 1] == written[1..][..i - 1] by {
          assert segments[1..][..i - 1] == segments[..i][1..];
          assert written[1..][..i - 1] == written[..i][1..];
        }
        LookupSetPathSibling(inner.m, written[1..], value, segments[1..], i - 1);
      }
    }
  }

  /** One call the converterBuilder action makes: MapFrom(attributePath), or MapFrom(attributePath, convert). */
  datatype MapFromCall = MapFromCall(attributePath: string, convert: Option<AttributeValue -> Value>)

  /** The read registry after the references of every call's path are added in turn, for an accepted member. */
  function AddAllReferences(reg: Registry, p: Projection, memberName: string, calls: seq<MapFromCall>,
                            memberType: TypeName): Registry
    decreases |calls|
  {
    if |calls| == 0 then reg
    else Projections.AddReferences(AddAllReferences(reg, p, memberName, calls[..|calls| - 1], memberType),
                                   p, memberName, calls[|calls| - 1].attributePath, memberType)
  }

  /** The ForMember registrations the calls record: one per call, in call order. */
  function MappingsOf(accessor: Expr, mustExist: bool, calls: seq<MapFromCall>): (r: seq<MemberMapping>)
    ensures |r| == |calls|
    ensures forall k :: 0 <= k < |calls| ==>
      r[k] == MemberMapping(accessor, calls[k].attributePath, mustExist, calls[k].convert)
    decreases |calls|
  {
    if |calls| == 0 then []
    else
      var last := calls[|calls| - 1];
      MappingsOf(accessor, mustExist, calls[..|calls| - 1]) + [MemberMapping(accessor, last.attributePath, mustExist, last.convert)]
  }

  /** Adding the references of several paths keeps every projection and dictionary there was, and the arena closed. */
  lemma {:induction false} AddAllReferencesGrows(reg: Registry, p: Projection, memberName: string, calls: seq<MapFromCall>,
                                                 memberType: TypeName)
    requires Closed(reg) && Registered(reg, p)
    ensures var reg' := AddAllReferences(reg, p, memberName, calls, memberType);
      Closed(reg') && Registered(reg', p) && Grows(reg, reg')
    decreases |calls|
  {
    if |calls| > 0 {
      var prefix := calls[..|calls| - 1];
      AddAllReferencesGrows(reg, p, memberName, prefix, memberType);
      var reg1 := AddAllReferences(reg, p, memberName, prefix, memberType);
      AddReferencesGrows(reg1, p, memberName, calls[|calls| - 1].attributePath, memberType);
      AddReferencesSpec(reg1, p, memberName, calls[|calls| - 1].attributePath, memberType);
      GrowsTransitive(reg, reg1, AddAllReferences(reg, p, memberName, calls, memberType));
    }
  }

  /**
   * After several MapFrom calls for one member, its name reference holds the
   * last call's path: the dictionary indexer overwrites the earlier ones.
   */
  lemma AddAllReferencesLastWins(reg: Registry, p: Projection, memberName: string, calls: seq<MapFromCall>,
                                 memberType: TypeName)
    requires Closed(reg) && Registered(reg, p) && |calls| > 0
    ensures var reg' := AddAllReferences(reg, p, memberName, calls, memberType);
      && memberType in reg'.projections
      && memberName in NamesOf(reg', p.names)
      && NamesOf(reg', p.names)[memberName]
           == NameRef(calls[|calls| - 1].attributePath, memberType, reg'.projections[memberType].names)
  {
    var prefix := calls[..|calls| - 1];
    AddAllReferencesGrows(reg, p, memberName, prefix, memberType);
    var reg1 := AddAllReferences(reg, p, memberName, prefix, memberType);
    AddReferencesSpec(reg1, p, memberName, calls[|calls| - 1].attributePath, memberType);
  }

  /** The read-side map builder of one record type. */
  class FromAttributesMapBuilder {
    const projection: Projection
    const store: ProjectionStore
    const host: Host
    var mappings: seq<MemberMapping>

    ghost predicate Valid()
      reads this, store
    {
      store.Valid() && Registered(store.reg, projection)
    }

    constructor (projection: Projection, store: ProjectionStore, host: Host)
      requires store.Valid() && Registered(store.reg, projection)
      ensures Valid() && mappings == []
      ensures this.projection == projection && this.store == store && this.host == host
    {
      this.projection := projection;
      this.store := store;
      this.host := host;
      mappings := [];
    }

    /**
     * AddReferences(attributePath) of the converter builder: the member
     * type's read projection is got or created before the accessor is
     * checked, so a rejected accessor still leaves it registered.
     */
    method AddReferences(targetMemberAccessor: Expr, memberType: TypeName, attributePath: string) returns (r: Result<()>)
      requires Valid()
      modifies store
      ensures Valid() && Grows(old(store.reg), store.reg)
      ensures var node := EnsurePropertyName(host, targetMemberAccessor);
        && (node.Failure? ==> r == Failure(node.error) && store.reg == GetOrCreate(old(store.reg), memberType).1)
        && (node.Success? ==>
              && r == Success(())
              && store.reg == Projections.AddReferences(old(store.reg), projection, node.value.memberName, attributePath, memberType))
    {
      var memberProjection := store.GetOrAdd(memberType);
      var property := EnsurePropertyName(host, targetMemberAccessor);
      if property.Failure? {
        return Failure(property.error);
      }
      store.SetNameReference(projection.names, property.value.memberName,
                             NameRef(attributePath, memberType, memberProjection.names));
      store.FillHierarchy(projection.hierarchy, attributePath, memberProjection.hierarchy);
      r := Success(());
    }

    /** MapFrom(attributePath) or, with a converter, MapFrom(attributePath, convert). */
    method MapFrom(targetMemberAccessor: Expr, memberType: TypeName, mustExist: bool, attributePath: string,
                   convert: Option<AttributeValue -> Value>) returns (r: Result<()>)
      requires Valid()
      modifies this, store
      ensures Valid() && Grows(old(store.reg), store.reg)
      ensures var node := EnsurePropertyName(host, targetMemberAccessor);
        && (node.Failure? ==>
              r == Failure(node.error) && store.reg == GetOrCreate(old(store.reg), memberType).1 && mappings == old(mappings))
        && (node.Success? ==>
              && r == Success(())
              && store.reg == Projections.AddReferences(old(store.reg), projection, node.value.memberName, attributePath, memberType)
              && mappings == old(mappings) + [MemberMapping(targetMemberAccessor, attributePath, mustExist, convert)])
    {
      r := AddReferences(targetMemberAccessor, memberType, attributePath);
      if r.Success? {
        mappings := mappings + [MemberMapping(targetMemberAccessor, attributePath, mustExist, convert)];
      }
    }

    /**
     * The converterBuilder action of Required or Optional, given as the
     * MapFrom calls it makes on the new converter builder, in order. A
     * rejected accessor throws out of the first call, so nothing after it
     * runs; an action that makes no call records nothing.
     */
    method RunConverterBuilder(targetMemberAccessor: Expr, memberType: TypeName, mustExist: bool,
                               calls: seq<MapFromCall>) returns (r: Result<()>)
      requires Valid()
      modifies this, store
      ensures Valid() && Grows(old(store.reg), store.reg)
      ensures var node := EnsurePropertyName(host, targetMemberAccessor);
        && (|calls| == 0 ==> r == Success(()) && store.reg == old(store.reg) && mappings == old(mappings))
        && (|calls| > 0 && node.Failure? ==>
              r == Failure(node.error) && store.reg == GetOrCreate(old(store.reg), memberType).1 && mappings == old(mappings))
        && (node.Success? ==>
              && r == Success(())
              && store.reg == AddAllReferences(old(store.reg), projection, node.value.memberName, calls, memberType)
              && mappings == old(mappings) + MappingsOf(targetMemberAccessor, mustExist, calls))
      decreases |calls|
    {
      if |calls| == 0 {
        return Success(());
      }
      var earlier := calls[..|calls| - 1];
      var last := calls[|calls| - 1];
      ghost var reg0, mappings0 := store.reg, mappings;
      r := RunConverterBuilder(targetMemberAccessor, memberType, mustExist, earlier);
      if r.Failure? {
        return;
      }
      ghost var reg1, mappings1 := store.reg, mappings;
      r := MapFrom(targetMemberAccessor, memberType, mustExist, last.attributePath, last.convert);
      GrowsTransitive(reg0, reg1, store.reg);
      ConcatAssoc(mappings0, MappingsOf(targetMemberAccessor, mustExist, earlier),
                  [MemberMapping(targetMemberAccessor, last.attributePath, mustExist, last.convert)]);
    }

    /** Required<TMember>(targetMemberAccessor, converterBuilder): every mapping the action records must find its attribute. */
    method Required(targetMemberAccessor: Expr, memberType: TypeName, calls: seq<MapFromCall>) returns (r: Result<()>)
      requires Valid()
      modifies this, store
      ensures Valid() && Grows(old(store.reg), store.reg)
      ensures var node := EnsurePropertyName(host, targetMemberAccessor);
        && (|calls| == 0 ==> r == Success(()) && store.reg == old(store.reg) && mappings == old(mappings))
        && (|calls| > 0 && node.Failure? ==>
              r == Failure(node.error) && store.reg == GetOrCreate(old(store.reg), memberType).1 && mappings == old(mappings))
        && (node.Success? ==>
              && r == Success(())
              && store.reg == AddAllReferences(old(store.reg), projection, node.value.memberName, calls, memberType)
              && mappings == old(mappings) + MappingsOf(targetMemberAccessor, true, calls))
    {
      r := RunConverterBuilder(targetMemberAccessor, memberType, true, calls);
    }

    /** Optional<TMember>(targetMemberAccessor, converterBuilder): every mapping the action records may miss its attribute. */
    method Optional(targetMemberAccessor: Expr, memberType: TypeName, calls: seq<MapFromCall>) returns (r: Result<()>)
      requires Valid()
      modifies this, store
      ensures Valid() && Grows(old(store.reg), store.reg)
      ensures var node := EnsurePropertyName(host, targetMemberAccessor);
        && (|calls| == 0 ==> r == Success(()) && store.reg == old(store.reg) && mappings == old(mappings))
        && (|calls| > 0 && node.Failure? ==>
              r == Failure(node.error) && store.reg == GetOrCreate(old(store.reg), memberType).1 && mappings == old(mappings))
        && (node.Success? ==>
              && r == Success(())
              && store.reg == AddAllReferences(old(store.reg), projection, node.value.memberName, calls, memberType)
              && mappings == old(mappings) + MappingsOf(targetMemberAccessor, false, calls))
    {
      r := RunConverterBuilder(targetMemberAccessor, memberType, false, calls);
    }
  }
}
