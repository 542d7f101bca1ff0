/**
 * The write-side map builder (ToAttributesMapBuilder<TRecord>): which member
 * of a record goes to which attribute path, the write projection this
 * registers, and the conversion of a record into an item.
 */
module ToAttributes {
  import opened Common
  import opened Values
  import opened Nodes
  import opened Parser
  import opened Projections

  /**
   * `_attributePropertyPath`: `paths` are its keys in enumeration order and
   * every getter is a member accessor, as EnsurePropertyName guarantees.
   */
  ghost predicate PathTable(paths: seq<string>, getters: map<string, Node>)
  {
    && (forall i, j :: 0 <= i < j < |paths| ==> paths[i] != paths[j])
    && (forall i :: 0 <= i < |paths| ==> paths[i] in getters)
    && (forall p :: p in getters ==> p in paths)
    && (forall p :: p in getters ==> getters[p].RecordMemberAccessor?)
  }

  /**
   * SetAttributeValue(segments, item, value), on values: walk the inner maps
   * along the segments, adding an empty M attribute where one is missing,
   * and store `value` under the last segment. Below an existing attribute
   * that is not a map the write does not reach the item.
   */
  function SetPath(item: AttrMap, segments: seq<string>, value: AttributeValue): (r: AttrMap)
    requires |segments| >= 1
    ensures forall k :: k in r <==> k in item || k == segments[0]
    ensures forall k :: k in item && k != segments[0] ==> r[k] == item[k]
    decreases |segments|
  {
    if |segments| == 1 then item[segments[0] := value]
    else
      var inner := if segments[0] in item then item[segments[0]] else M(map[]);
      if inner.M? then item[segments[0] := M(SetPath(inner.m, segments[1..], value))]
      else item
  }

  /** Every attribute met before the last segment is a map or missing, so a write reaches the leaf. */
  predicate MapsAlong(item: AttrMap, segments: seq<string>)
    decreases |segments|
  {
    |segments| <= 1 ||
    (segments[0] !in item || (item[segments[0]].M? && MapsAlong(item[segments[0]].m, segments[1..])))
  }

  /** A write below an attribute that is not a map leaves the whole item as it was. */
  lemma {:induction false} SetPathBlocked(item: AttrMap, segments: seq<string>, value: AttributeValue)
    requires |segments| >= 1 && !MapsAlong(item, segments)
    ensures SetPath(item, segments, value) == item
    decreases |segments|
  {
    var inner := item[segments[0]];
    if inner.M? {
      SetPathBlocked(inner.m, segments[1..], value);
      assert M(SetPath(inner.m, segments[1..], value)) == inner;
    }
  }

  /** The attribute a member value is written as: NULL for null, the mapper's conversion otherwise. */
  function MemberAttribute(v: Value, toAttr: Value -> AttributeValue): AttributeValue
  {
    if v.Null? then NULL else toAttr(v)
  }

  /**
   * The item Convert builds: each registered path, in order, written with
   * its member's value. Reading a member can fail (EvaluateMemberValue throws
   * for a member the record type does not have), and the first failure ends
   * the conversion.
   */
  function WriteAll(item: AttrMap, paths: seq<string>, getters: map<string, Node>,
                    read: string -> Result<Value>, toAttr: Value -> AttributeValue): Result<AttrMap>
    requires forall p :: p in paths ==> p in getters && getters[p].RecordMemberAccessor?
    decreases |paths|
  {
    if |paths| == 0 then Success(item)
    else
      var v :- read(getters[paths[0]].memberName);
      WriteAll(SetPath(item, Split(paths[0], '.'), MemberAttribute(v, toAttr)), paths[1..], getters, read, toAttr)
  }

  /** Every registered path's member can be read. */
  ghost predicate ReadsAll(paths: seq<string>, getters: map<string, Node>, read: string -> Result<Value>)
    requires forall p :: p in paths ==> p in getters && getters[p].RecordMemberAccessor?
  {
    forall i :: 0 <= i < |paths| ==> read(getters[paths[i]].memberName).Success?
  }

  /**
   * Convert succeeds exactly when every member can be read; otherwise it
   * fails with the error of the first path whose member cannot be read.
   */
  lemma {:induction false} WriteAllOutcome(item: AttrMap, paths: seq<string>, getters: map<string, Node>,
                                           read: string -> Result<Value>, toAttr: Value -> AttributeValue)
    requires forall p :: p in paths ==> p in getters && getters[p].RecordMemberAccessor?
    ensures WriteAll(item, paths, getters, read, toAttr).Success? <==> ReadsAll(paths, getters, read)
    ensures forall j :: 0 <= j < |paths| && read(getters[paths[j]].memberName).Failure?
                        && ReadsAll(paths[..j], getters, read) ==>
              WriteAll(item, paths, getters, read, toAttr) == Failure(read(getters[paths[j]].memberName).error)
    decreases |paths|
  {
    if |paths| > 0 {
      var r0 := read(getters[paths[0]].memberName);
      if r0.Success? {
        var item1 := SetPath(item, Split(paths[0], '.'), MemberAttribute(r0.value, toAttr));
        WriteAllOutcome(item1, paths[1..], getters, read, toAttr);
        assert ReadsAll(paths, getters, read) <==> ReadsAll(paths[1..], getters, read) by {
          if ReadsAll(paths[1..], getters, read) {
            forall i | 0 <= i < |paths| ensures read(getters[paths[i]].memberName).Success? {
              if i > 0 { assert paths[i] == paths[1..][i - 1]; }
            }
          }
          if ReadsAll(paths, getters, read) {
            ReadsAllTail(paths, getters, read);
          }
        }
        forall j | 0 <= j < |paths| && read(getters[paths[j]].memberName).Failure? && ReadsAll(paths[..j], getters, read)
          ensures WriteAll(item, paths, getters, read, toAttr) == Failure(read(getters[paths[j]].memberName).error)
        {
          assert j > 0 && paths[j] == paths[1..][j - 1];
          assert paths[1..][..j - 1] == paths[..j][1..];
          ReadsAllTail(paths[..j], getters, read);
        }
      } else {
        assert !ReadsAll(paths, getters, read);
      }
    }
  }

  /** The top-level attribute of a path: what it writes under in the item itself. */
  function Head(path: string): string
  {
    Split(path, '.')[0]
  }

  /** The top-level attributes the paths write under. */
  function Heads(paths: seq<string>): (r: set<string>)
    ensures forall i :: 0 <= i < |paths| ==> Head(paths[i]) in r
    decreases |paths|
  {
    if |paths| == 0 then {} else {Head(paths[0])} + Heads(paths[1..])
  }

  /** The item's attributes are those it had plus the top-level attribute of every path. */
  lemma {:induction false} WriteAllKeys(item: AttrMap, paths: seq<string>, getters: map<string, Node>,
                                        read: string -> Result<Value>, toAttr: Value -> AttributeValue)
    requires forall p :: p in paths ==> p in getters && getters[p].RecordMemberAccessor?
    requires ReadsAll(paths, getters, read)
    ensures var r := WriteAll(item, paths, getters, read, toAttr);
      r.Success? && r.value.Keys == item.Keys + Heads(paths)
    decreases |paths|
  {
    if |paths| > 0 {
      var value := MemberAttribute(read(getters[paths[0]].memberName).value, toAttr);
      var item1 := SetPath(item, Split(paths[0], '.'), value);
      assert ReadsAll(paths[1..], getters, read) by { ReadsAllTail(paths, getters, read); }
      WriteAllKeys(item1, paths[1..], getters, read, toAttr);
    }
  }

  lemma ReadsAllTail(paths: seq<string>, getters: map<string, Node>, read: string -> Result<Value>)
    requires forall p :: p in paths ==> p in getters && getters[p].RecordMemberAccessor?
    requires |paths| > 0 && ReadsAll(paths, getters, read)
    ensures read(getters[paths[0]].memberName).Success? && ReadsAll(paths[1..], getters, read)
  {
    forall i | 0 <= i < |paths[1..]| ensures read(getters[paths[1..][i]].memberName).Success? {
      assert paths[1..][i] == paths[i + 1];
    }
  }

  /** An attribute no path writes under keeps the value the item had. */
  lemma {:induction false} WriteAllUntouched(item: AttrMap, paths: seq<string>, getters: map<string, Node>,
                                             read: string -> Result<Value>, toAttr: Value -> AttributeValue, k: string)
    requires forall p :: p in paths ==> p in getters && getters[p].RecordMemberAccessor?
    requires ReadsAll(paths, getters, read)
    requires k in item && k !in Heads(paths)
    ensures var r := WriteAll(item, paths, getters, read, toAttr);
      r.Success? && k in r.value && r.value[k] == item[k]
    decreases |paths|
  {
    if |paths| > 0 {
      ReadsAllTail(paths, getters, read);
      var value := MemberAttribute(read(getters[paths[0]].memberName).value, toAttr);
      var item1 := SetPath(item, Split(paths[0], '.'), value);
      WriteAllUntouched(item1, paths[1..], getters, read, toAttr, k);
    }
  }

  /**
   * A path without '.' whose attribute no later path writes under ends up
   * holding its member's value: NULL when the member is null.
   */
  lemma {:induction false} WriteAllTopLevel(item: AttrMap, paths: seq<string>, getters: map<string, Node>,
                                            read: string -> Result<Value>, toAttr: Value -> AttributeValue, i: nat)
    requires forall p :: p in paths ==> p in getters && getters[p].RecordMemberAccessor?
    requires ReadsAll(paths, getters, read)
    requires i < |paths| && '.' !in paths[i] && paths[i] !in Heads(paths[i + 1..])
    ensures var r := WriteAll(item, paths, getters, read, toAttr);
      r.Success? && paths[i] in r.value
      && r.value[paths[i]] == MemberAttribute(read(getters[paths[i]].memberName).value, toAttr)
    decreases |paths|
  {
    ReadsAllTail(paths, getters, read);
    var value := MemberAttribute(read(getters[paths[0]].memberName).value, toAttr);
    var item1 := SetPath(item, Split(paths[0], '.'), value);
    if i == 0 {
      SplitWithout(paths[0], '.');
      WriteAllUntouched(item1, paths[1..], getters, read, toAttr, paths[0]);
    } else {
      assert paths[1..][i - 1 + 1..] == paths[i + 1..];
      WriteAllTopLevel(item1, paths[1..], getters, read, toAttr, i - 1);
    }
  }

  /** The write-side map builder of one record type. */
  class ToAttributesMapBuilder {
    const projection: Projection
    const store: ProjectionStore
    const host: Host
    var paths: seq<string>
    var getters: map<string, Node>

    ghost predicate Valid()
      reads this, store
    {
      store.Valid() && Registered(store.reg, projection) && PathTable(paths, getters)
    }

    constructor (projection: Projection, store: ProjectionStore, host: Host)
      requires store.Valid() && Registered(store.reg, projection)
      ensures Valid() && paths == [] && getters == map[]
      ensures this.projection == projection && this.store == store && this.host == host
    {
      this.projection := projection;
      this.store := store;
      this.host := host;
      paths, getters := [], map[];
    }

    /**
     * AddReferences(attributePath, memberNode, memberType): get or create the
     * member type's write projection, overwrite the member's name reference
     * and fill the hierarchy along the path.
     */
    method AddReferences(attributePath: string, memberNode: Node, memberType: TypeName)
      requires Valid() && memberNode.RecordMemberAccessor?
      modifies store
      ensures Valid() && Grows(old(store.reg), store.reg)
      ensures store.reg == Projections.AddReferences(old(store.reg), projection, memberNode.memberName, attributePath, memberType)
    {
      var memberProjection := store.GetOrAdd(memberType);
      store.SetNameReference(projection.names, memberNode.memberName,
                             NameRef(attributePath, memberType, memberProjection.names));
      store.FillHierarchy(projection.hierarchy, attributePath, memberProjection.hierarchy);
    }

    /** From<TMember>(getter, targetAttributePath); `None` stands for null. */
    method From(getter: Option<Expr>, targetAttributePath: Option<string>, memberType: TypeName) returns (r: Result<()>)
      requires Valid()
      modifies this, store
      ensures Valid() && Grows(old(store.reg), store.reg)
      ensures getter.None? ==> r == Failure(ArgumentNull("getter"))
      ensures getter.Some? && NullOrEmpty(targetAttributePath) ==> r == Failure(ArgumentNull("targetAttributePath"))
      ensures getter.Some? && !NullOrEmpty(targetAttributePath) ==>
        var node := EnsurePropertyName(host, getter.value);
        var path := targetAttributePath.value;
        && (node.Failure? ==> r == Failure(node.error))
        && (node.Success? ==>
              && r == Success(())
              && getters == old(getters)[path := node.value] && paths == AddKey(old(paths), path)
              && store.reg == Projections.AddReferences(old(store.reg), projection, node.value.memberName, path, memberType))
      ensures r.Failure? ==> paths == old(paths) && getters == old(getters) && store.reg == old(store.reg)
    {
      if getter.None? {
        return Failure(ArgumentNull("getter"));
      }
      if NullOrEmpty(targetAttributePath) {
        return Failure(ArgumentNull("targetAttributePath"));
      }
      var path := targetAttributePath.value;
      var propertyNode := EnsurePropertyName(host, getter.value);
      if propertyNode.Failure? {
        return Failure(propertyNode.error);
      }
      getters := getters[path := propertyNode.value];
      paths := AddKey(paths, path);
      AddReferences(path, propertyNode.value, memberType);
      r := Success(());
    }

    /** PartitionReserved<TMember>(partitionRelatedProperty, targetAttributePath): the references only. */
    method PartitionReserved(partitionRelatedProperty: Option<Expr>, targetAttributePath: Option<string>, memberType: TypeName)
      returns (r: Result<()>)
      requires Valid()
      modifies store
      ensures Valid() && Grows(old(store.reg), store.reg)
      ensures partitionRelatedProperty.None? ==> r == Failure(ArgumentNull("partitionRelatedProperty"))
      ensures partitionRelatedProperty.Some? && NullOrEmpty(targetAttributePath) ==>
        r == Failure(ArgumentNull("targetAttributePath"))
      ensures partitionRelatedProperty.Some? && !NullOrEmpty(targetAttributePath) ==>
        var node := EnsurePropertyName(host, partitionRelatedProperty.value);
        && (node.Failure? ==> r == Failure(node.error))
        && (node.Success? ==>
              && r == Success(())
              && store.reg == Projections.AddReferences(old(store.reg), projection, node.value.memberName,
                                                        targetAttributePath.value, memberType))
      ensures r.Failure? ==> store.reg == old(store.reg)
    {
      if partitionRelatedProperty.None? {
        return Failure(ArgumentNull("partitionRelatedProperty"));
      }
      if NullOrEmpty(targetAttributePath) {
        return Failure(ArgumentNull("targetAttributePath"));
      }
      var propertyNode := EnsurePropertyName(host, partitionRelatedProperty.value);
      if propertyNode.Failure? {
        return Failure(propertyNode.error);
      }
      AddReferences(targetAttributePath.value, propertyNode.value, memberType);
      r := Success(());
    }

    /**
     * Convert(source, target, context): `read` gives the value of a member of
     * the source record (EvaluateMemberValue), failing for a member the
     * record type does not have, and `toAttr` is the mapper's conversion of a
     * non-null member value.
     */
    method Convert(read: string -> Result<Value>, toAttr: Value -> AttributeValue) returns (result: Result<AttrMap>)
      requires Valid()
      ensures result == WriteAll(map[], paths, getters, read, toAttr)
    {
      var item: AttrMap := map[];
      for i := 0 to |paths|
        invariant WriteAll(map[], paths, getters, read, toAttr) == WriteAll(item, paths[i..], getters, read, toAttr)
      {
        var attributePath := paths[i];
        var getter := getters[attributePath];
        var sourceValue := read(getter.memberName);
        SuffixCons(paths, i);
        if sourceValue.Failure? {
          return Failure(sourceValue.error);
        }
        var attributeValue := if sourceValue.value.Null? then NULL else toAttr(sourceValue.value);
        item := SetPath(item, Split(attributePath, '.'), attributeValue);
      }
      result := Success(item);
    }
  }
}
