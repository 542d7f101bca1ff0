/**
 * The converter builder (DynamoDBConverterBuilder): it owns the read and
 * the write projection registries, hands out map builders over them, and
 * builds the mapper that shares them.
 */
module ConverterBuilders {
  import opened Common
  import opened Values
  import opened Parser
  import opened Projections
  import opened ToAttributes
  import opened FromAttributes
  import opened Mapper

  /**
   * WriteToNestedAttribute(record, context): a record stored inside another
   * is its map of attributes, or NULL for a null record; `toMap` is the
   * mapper's record-to-attributes conversion.
   */
  function WriteToNestedAttribute(record: Value, toMap: Value -> AttrMap): (r: AttributeValue)
    ensures r.NULL? <==> record.Null?
    ensures r.M? <==> !record.Null?
    ensures r.M? ==> r.m == toMap(record)
  {
    if record.Null? then NULL else M(toMap(record))
  }

  /**
   * A nested record written at an attribute path reads back through the
   * read side's Map as the same record, when the two conversions are
   * inverse on it (and NULL converts back to null).
   */
  lemma NestedRoundTrip(item: AttrMap, attributePath: string, record: Value, mustExist: bool,
                        toMap: Value -> AttrMap, fromMap: AttrMap -> Value, fromAttr: AttributeValue -> Value)
    requires MapsAlong(item, Split(attributePath, '.'))
    requires !record.Null? ==> fromMap(toMap(record)) == record
    requires record.Null? ==> fromAttr(NULL) == Null
    ensures var written := SetPath(item, Split(attributePath, '.'), WriteToNestedAttribute(record, toMap));
      FromAttributes.Map(written, Null, attributePath, mustExist, fromMap, fromAttr) == Success(record)
  {
    LookupSetPath(item, Split(attributePath, '.'), WriteToNestedAttribute(record, toMap));
  }

  class DynamoDBConverterBuilder {
    const readProjections: ProjectionStore
    const writeProjections: ProjectionStore

    /** The two registries are distinct dictionaries, each closed. */
    ghost predicate Valid()
      reads this, readProjections, writeProjections
    {
      readProjections != writeProjections && readProjections.Valid() && writeProjections.Valid()
    }

    constructor ()
      ensures Valid() && fresh(readProjections) && fresh(writeProjections)
      ensures readProjections.reg == EmptyRegistry && writeProjections.reg == EmptyRegistry
    {
      readProjections := new ProjectionStore();
      writeProjections := new ProjectionStore();
    }

    /**
     * ReadFromAttributes<TRecord>(): the record type's read projection,
     * created on first use, and a new builder over the read registry.
     */
    method ReadFromAttributes(recordType: TypeName, host: Host) returns (b: FromAttributesMapBuilder)
      requires Valid()
      modifies readProjections
      ensures Valid() && fresh(b) && b.Valid()
      ensures b.store == readProjections && b.host == host && b.mappings == []
      ensures (b.projection, readProjections.reg) == GetOrCreate(old(readProjections.reg), recordType)
      ensures unchanged(writeProjections)
    {
      var projection := readProjections.GetOrAdd(recordType);
      b := new FromAttributesMapBuilder(projection, readProjections, host);
    }

    /**
     * WriteToAttributes<TRecord>(): the record type's write projection,
     * created on first use, and a new builder over the write registry.
     */
    method WriteToAttributes(recordType: TypeName, host: Host) returns (b: ToAttributesMapBuilder)
      requires Valid()
      modifies writeProjections
      ensures Valid() && fresh(b) && b.Valid()
      ensures b.store == writeProjections && b.host == host && b.paths == [] && b.getters == map[]
      ensures (b.projection, writeProjections.reg) == GetOrCreate(old(writeProjections.reg), recordType)
      ensures unchanged(readProjections)
    {
      var projection := writeProjections.GetOrAdd(recordType);
      b := new ToAttributesMapBuilder(projection, writeProjections, host);
    }

    /** Build(): a mapper over the same two registries, not copies of them. */
    method Build() returns (m: DynamoDBMapper)
      ensures fresh(m) && m.readProjections == readProjections && m.writeProjections == writeProjections
    {
      m := new DynamoDBMapper(readProjections, writeProjections);
    }
  }

  /**
   * Asking twice for the builder of one record type hands out the same
   * projection, and the second request leaves the registry as it was.
   */
  lemma ProjectionCreatedOnce(reg: Registry, recordType: TypeName)
    requires Closed(reg)
    ensures var (p, reg') := GetOrCreate(reg, recordType);
      GetOrCreate(reg', recordType) == (p, reg')
  {
    GetOrCreateSpec(reg, recordType);
  }

  /** Different record types get different projections, with their own tables. */
  lemma ProjectionsApart(reg: Registry, t1: TypeName, t2: TypeName)
    requires Closed(reg) && t1 != t2
    ensures var (p1, reg1) := GetOrCreate(reg, t1);
      var (p2, reg2) := GetOrCreate(reg1, t2);
      t2 !in reg1.projections ==> p1.names != p2.names && p1.hierarchy != p2.hierarchy
  {
    GetOrCreateSpec(reg, t1);
    var (p1, reg1) := GetOrCreate(reg, t1);
    GetOrCreateSpec(reg1, t2);
  }
}
