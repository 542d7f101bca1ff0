/**
 * Attribute projections (AttributesProjection, AttributeNameReference,
 * AttributesHierarchy) and the operations the map builders perform on them.
 *
 * The dictionaries involved are shared by reference: a name reference points
 * at the name table of its member type's projection, and a leaf of a
 * hierarchy points at the hierarchy table of its member type's projection,
 * so the structure is a graph that may contain cycles. Each dictionary is
 * therefore kept in an arena under an identity `Id`. A hierarchy node is
 * folded into the entry of its parent table: the entry maps the segment to
 * the Id of the node's current Nested table, and ReplaceNested re-points it.
 */
module Projections {
  import opened Common
  import opened Values

  type Id = nat

  /** AttributeNameReference: where a member is stored, its type, and its type's name table. */
  datatype NameRef = NameRef(attributePath: string, memberType: TypeName, memberTypeProjection: Id)

  datatype HierarchyTable = HierarchyTable(keys: seq<string>, child: map<string, Id>)

  /** A Dictionary<string, AttributesHierarchy>: its keys in insertion order and each node's Nested table. */
  type Table = t: HierarchyTable | TableWF(t) witness HierarchyTable([], map[])

  predicate TableWF(t: HierarchyTable)
  {
    && (forall i :: 0 <= i < |t.keys| ==> t.keys[i] in t.child)
    && (forall k :: k in t.child ==> k in t.keys)
    && (forall i, j :: 0 <= i < j < |t.keys| ==> t.keys[i] != t.keys[j])
  }

  const EmptyTable: Table := HierarchyTable([], map[])

  /** The indexer set `table[key] = ...`: a new key goes last, an existing key keeps its place. */
  function Put(t: Table, key: string, id: Id): (r: Table)
    ensures r.child == t.child[key := id]
    ensures key in t.child ==> r.keys == t.keys
    ensures key !in t.child ==> r.keys == t.keys + [key]
  {
    if key in t.child then HierarchyTable(t.keys, t.child[key := id])
    else HierarchyTable(t.keys + [key], t.child[key := id])
  }

  /** AttributesProjection: the identities of its name table and of its hierarchy table. */
  datatype Projection = Projection(names: Id, hierarchy: Id)

  /**
   * One projection registry (the read one or the write one) with every
   * dictionary its projections reach; `nextId` is the next unused identity.
   */
  datatype Registry = Registry(
    projections: map<TypeName, Projection>,
    nameTables: map<Id, map<string, NameRef>>,
    tables: map<Id, Table>,
    nextId: Id)

  const EmptyRegistry := Registry(map[], map[], map[], 0)

  function NamesOf(reg: Registry, id: Id): map<string, NameRef>
  {
    if id in reg.nameTables then reg.nameTables[id] else map[]
  }

  function TableOf(reg: Registry, id: Id): Table
  {
    if id in reg.tables then reg.tables[id] else EmptyTable
  }

  /** IArrowStoreMapper.GetReadProjection / GetWriteProjection: TryGetValue, else null. */
  function FindProjection(reg: Registry, recordType: TypeName): (r: Option<Projection>)
    ensures r.Some? <==> recordType in reg.projections
  {
    if recordType in reg.projections then Some(reg.projections[recordType]) else None
  }

  /** Every identity in use is below `nextId` and every reference lands on a dictionary of the arena. */
  ghost predicate Closed(reg: Registry)
  {
    && (forall id :: id in reg.tables ==> id < reg.nextId)
    && (forall id :: id in reg.nameTables ==> id < reg.nextId)
    && (forall t :: t in reg.projections ==>
          reg.projections[t].names in reg.nameTables && reg.projections[t].hierarchy in reg.tables)
    && (forall id, k :: id in reg.tables && k in reg.tables[id].child ==> reg.tables[id].child[k] in reg.tables)
    && (forall id, m :: id in reg.nameTables && m in reg.nameTables[id] ==>
          reg.nameTables[id][m].memberTypeProjection in reg.nameTables)
  }

  /** The projection registered for a type, created empty (AttributesProjection.Empty()) when missing. */
  function GetOrCreate(reg: Registry, recordType: TypeName): (Projection, Registry)
  {
    if recordType in reg.projections then (reg.projections[recordType], reg)
    else
      var p := Projection(reg.nextId, reg.nextId + 1);
      (p, Registry(reg.projections[recordType := p], reg.nameTables[p.names := map[]],
                   reg.tables[p.hierarchy := EmptyTable], reg.nextId + 2))
  }

  lemma GetOrCreateSpec(reg: Registry, recordType: TypeName)
    requires Closed(reg)
    ensures var (p, reg') := GetOrCreate(reg, recordType);
      && Closed(reg')
      && recordType in reg'.projections && reg'.projections[recordType] == p
      && (recordType in reg.projections ==> reg' == reg)
      && (recordType !in reg.projections ==>
            && NamesOf(reg', p.names) == map[] && TableOf(reg', p.hierarchy) == EmptyTable
            && p.names !in reg.nameTables && p.hierarchy !in reg.tables)
      && (forall t :: t in reg.projections ==> t in reg'.projections && reg'.projections[t] == reg.projections[t])
      && (forall id :: id in reg.tables ==> id in reg'.tables && reg'.tables[id] == reg.tables[id])
      && (forall id :: id in reg.nameTables ==> id in reg'.nameTables && reg'.nameTables[id] == reg.nameTables[id])
  {
  }

  /**
   * One step of FillHierarchy at an inner segment: follow the existing node,
   * or add a node with a new, empty Nested table.
   */
  function Step(reg: Registry, h: Id, segment: string): (Id, Registry)
  {
    var t := TableOf(reg, h);
    if segment in t.child then (t.child[segment], reg)
    else
      var newId := reg.nextId;
      (newId, reg.(tables := reg.tables[h := Put(t, segment, newId)][newId := EmptyTable], nextId := newId + 1))
  }

  /** The last step of FillHierarchy: the node of the last segment gets `nested` as its Nested table. */
  function SetLeaf(reg: Registry, h: Id, segment: string, nested: Id): Registry
  {
    reg.(tables := reg.tables[h := Put(TableOf(reg, h), segment, nested)])
  }

  /** FillHierarchy(hierarchy, path, nestedTypeHierarchy) with the path already split at '.'. */
  function Fill(reg: Registry, h: Id, segments: seq<string>, nested: Id): Registry
    requires |segments| >= 1
    decreases |segments|
  {
    if |segments| == 1 then SetLeaf(reg, h, segments[0], nested)
    else
      var (c, reg1) := Step(reg, h, segments[0]);
      Fill(reg1, c, segments[1..], nested)
  }

  /** The tables FillHierarchy works on, one per segment, starting at the root it is given. */
  function Trace(reg: Registry, h: Id, segments: seq<string>): (tr: seq<Id>)
    requires |segments| >= 1
    ensures |tr| == |segments| && tr[0] == h
    decreases |segments|
  {
    if |segments| == 1 then [h]
    else
      var (c, reg1) := Step(reg, h, segments[0]);
      [h] + Trace(reg1, c, segments[1..])
  }

  /** The table reached from `h` by following `segments`, if every segment is there. */
  function Walk(reg: Registry, h: Id, segments: seq<string>): Option<Id>
    decreases |segments|
  {
    if |segments| == 0 then Some(h)
    else
      var t := TableOf(reg, h);
      if segments[0] in t.child then Walk(reg, t.child[segments[0]], segments[1..]) else None
  }

  predicate Distinct(s: seq<Id>) { forall i, j :: 0 <= i < j < |s| ==> s[i] != s[j] }

  /** FillHierarchy changes no table it does not pass through. */
  lemma {:induction false} FillUntouched(reg: Registry, h: Id, segments: seq<string>, nested: Id, id: Id)
    requires |segments| >= 1
    requires id !in Trace(reg, h, segments)
    ensures TableOf(Fill(reg, h, segments, nested), id) == TableOf(reg, id)
    decreases |segments|
  {
    if |segments| > 1 {
      var (c, reg1) := Step(reg, h, segments[0]);
      assert Trace(reg, h, segments) == [h] + Trace(reg1, c, segments[1..]);
      assert id != c;
      FillUntouched(reg1, c, segments[1..], nested, id);
    }
  }

  /**
   * After FillHierarchy the whole path is present and its last node's Nested
   * table is the member type's hierarchy, provided the tables passed through
   * are all different (a cycle met on the way can make a later write
   * overwrite an earlier one).
   */
  lemma {:induction false} FillReaches(reg: Registry, h: Id, segments: seq<string>, nested: Id)
    requires |segments| >= 1
    requires Distinct(Trace(reg, h, segments))
    ensures Walk(Fill(reg, h, segments, nested), h, segments) == Some(nested)
    decreases |segments|
  {
    var reg' := Fill(reg, h, segments, nested);
    if |segments| == 1 {
      assert segments[1..] == [];
    } else {
      var (c, reg1) := Step(reg, h, segments[0]);
      var tr := Trace(reg, h, segments);
      var rest := Trace(reg1, c, segments[1..]);
      assert tr == [h] + rest;
      assert Distinct(tr);
      forall i, j | 0 <= i < j < |rest| ensures rest[i] != rest[j] {
        assert rest[i] == tr[i + 1] && rest[j] == tr[j + 1];
      }
      FillReaches(reg1, c, segments[1..], nested);
      assert h !in rest by {
        forall i | 0 <= i < |rest| ensures rest[i] != h {
          assert rest[i] == tr[i + 1] && tr[0] == h;
        }
      }
      FillUntouched(reg1, c, segments[1..], nested, h);
      assert TableOf(reg1, h).child[segments[0]] == c;
    }
  }

  /** One inner step keeps the arena closed, and the table it moves to is in the arena. */
  lemma StepClosed(reg: Registry, h: Id, segment: string)
    requires Closed(reg) && h in reg.tables
    ensures var (c, reg1) := Step(reg, h, segment);
      && Closed(reg1) && c in reg1.tables && h in reg1.tables
      && (forall id :: id != h && id != c ==> TableOf(reg1, id) == TableOf(reg, id))
      && (c !in TableOf(reg, h).child.Values ==> TableOf(reg, c) == EmptyTable)
  {
  }

  /**
   * FillHierarchy keeps, in every table it passes through, each entry other
   * than the segment it follows there, and that table's enumeration order,
   * which at most gains the segment at its end; the tables passed through
   * are taken to be different, as in FillReaches.
   */
  lemma {:induction false} FillKeepsSiblings(reg: Registry, h: Id, segments: seq<string>, nested: Id, i: nat, k: string)
    requires |segments| >= 1 && Closed(reg) && h in reg.tables
    requires Distinct(Trace(reg, h, segments))
    requires i < |segments| && k != segments[i]
    ensures var tr := Trace(reg, h, segments);
      var before := TableOf(reg, tr[i]);
      var after := TableOf(Fill(reg, h, segments, nested), tr[i]);
      && (k in after.child <==> k in before.child)
      && (k in before.child ==> after.child[k] == before.child[k])
      && (after.keys == before.keys || after.keys == before.keys + [segments[i]])
    decreases |segments|
  {
    if |segments| > 1 {
      var (c, reg1) := Step(reg, h, segments[0]);
      var tr := Trace(reg, h, segments);
      var rest := Trace(reg1, c, segments[1..]);
      assert tr == [h] + rest;
      StepClosed(reg, h, segments[0]);
      assert h !in rest by {
        forall j | 0 <= j < |rest| ensures rest[j] != h {
          assert rest[j] == tr[j + 1] && tr[0] == h;
        }
      }
      if i == 0 {
        FillUntouched(reg1, c, segments[1..], nested, h);
      } else {
        forall a, b | 0 <= a < b < |rest| ensures rest[a] != rest[b] {
          assert rest[a] == tr[a + 1] && rest[b] == tr[b + 1];
        }
        FillKeepsSiblings(reg1, c, segments[1..], nested, i - 1, k);
        assert tr[i] == rest[i - 1] && segments[1..][i - 1] == segments[i];
        assert TableOf(reg1, tr[i]) == TableOf(reg, tr[i]);
      }
    }
  }

  /**
   * Registering a path that already exists up to its last segment allocates
   * nothing and changes one entry only: the last node now leads to `nested`.
   */
  lemma {:induction false} FillExistingPath(reg: Registry, h: Id, segments: seq<string>, nested: Id)
    requires |segments| >= 1
    requires Walk(reg, h, segments[..|segments| - 1]).Some?
    ensures var last := Walk(reg, h, segments[..|segments| - 1]).value;
      Fill(reg, h, segments, nested) == SetLeaf(reg, last, segments[|segments| - 1], nested)
    decreases |segments|
  {
    if |segments| > 1 {
      var rest := segments[1..];
      assert segments[..|segments| - 1][1..] == rest[..|rest| - 1];
      assert segments[..|segments| - 1][0] == segments[0];
      FillExistingPath(reg, TableOf(reg, h).child[segments[0]], rest, nested);
    }
  }

  /** FillHierarchy keeps the arena closed when the root and the nested table are in it. */
  lemma {:induction false} FillClosed(reg: Registry, h: Id, segments: seq<string>, nested: Id)
    requires |segments| >= 1 && Closed(reg) && h in reg.tables && nested in reg.tables
    ensures var reg' := Fill(reg, h, segments, nested);
      && Closed(reg') && reg'.projections == reg.projections && reg'.nameTables == reg.nameTables
      && reg'.nextId >= reg.nextId
      && (forall id :: id in reg.tables ==> id in reg'.tables)
    decreases |segments|
  {
    if |segments| > 1 {
      var (c, reg1) := Step(reg, h, segments[0]);
      FillClosed(reg1, c, segments[1..], nested);
    }
  }

  /**
   * AddReferences(attributePath, memberNode, memberType) on the projection
   * `p`: get or create the member type's projection, record the member's
   * name reference, and fill the hierarchy along the path.
   */
  function AddReferences(reg: Registry, p: Projection, memberName: string, attributePath: string, memberType: TypeName): Registry
  {
    var (mp, reg1) := GetOrCreate(reg, memberType);
    var reg2 := reg1.(nameTables := reg1.nameTables[p.names :=
                        NamesOf(reg1, p.names)[memberName := NameRef(attributePath, memberType, mp.names)]]);
    Fill(reg2, p.hierarchy, Split(attributePath, '.'), mp.hierarchy)
  }

  /**
   * After AddReferences the member's name reference points at its type's name
   * table, every other name reference of the arena is as it was, the
   * projections are those of before plus possibly the member type's, and the
   * arena stays closed.
   */
  lemma AddReferencesSpec(reg: Registry, p: Projection, memberName: string, attributePath: string, memberType: TypeName)
    requires Closed(reg) && p.names in reg.nameTables && p.hierarchy in reg.tables
    ensures var reg' := AddReferences(reg, p, memberName, attributePath, memberType);
      && Closed(reg')
      && memberType in reg'.projections
      && memberName in NamesOf(reg', p.names)
      && NamesOf(reg', p.names)[memberName] ==
           NameRef(attributePath, memberType, reg'.projections[memberType].names)
      && (forall m :: m in NamesOf(reg, p.names) && m != memberName ==>
            m in NamesOf(reg', p.names) && NamesOf(reg', p.names)[m] == NamesOf(reg, p.names)[m])
      && (forall t :: t in reg.projections ==> t in reg'.projections && reg'.projections[t] == reg.projections[t])
      && (forall t :: t in reg'.projections ==> t in reg.projections || t == memberType)
  {
    GetOrCreateSpec(reg, memberType);
    var (mp, reg1) := GetOrCreate(reg, memberType);
    var reg2 := reg1.(nameTables := reg1.nameTables[p.names :=
                        NamesOf(reg1, p.names)[memberName := NameRef(attributePath, memberType, mp.names)]]);
    assert Closed(reg2);
    FillClosed(reg2, p.hierarchy, Split(attributePath, '.'), mp.hierarchy);
  }

  /** The projection's two dictionaries are in the arena. */
  ghost predicate Registered(reg: Registry, p: Projection)
  {
    p.names in reg.nameTables && p.hierarchy in reg.tables
  }

  /** `reg'` keeps every projection of `reg` and every dictionary of its arena. */
  ghost predicate Grows(reg: Registry, reg': Registry)
  {
    && (forall t :: t in reg.projections ==> t in reg'.projections && reg'.projections[t] == reg.projections[t])
    && (forall id :: id in reg.nameTables ==> id in reg'.nameTables)
    && (forall id :: id in reg.tables ==> id in reg'.tables)
  }

  lemma GrowsTransitive(r1: Registry, r2: Registry, r3: Registry)
    requires Grows(r1, r2) && Grows(r2, r3)
    ensures Grows(r1, r3)
  {
  }

  /** Fill from the i-th segment on, when that segment is not the last. */
  lemma FillFrom(reg: Registry, h: Id, segments: seq<string>, i: nat, nested: Id)
    requires i < |segments| - 1
    ensures var (c, reg1) := Step(reg, h, segments[i]);
      Fill(reg, h, segments[i..], nested) == Fill(reg1, c, segments[i + 1..], nested)
  {
    assert segments[i..][0] == segments[i] && segments[i..][1..] == segments[i + 1..];
  }

  /** Fill from an inner segment that is missing: a new node with an empty Nested table is added. */
  lemma FillAdd(reg: Registry, h: Id, segments: seq<string>, i: nat, nested: Id)
    requires i < |segments| - 1 && segments[i] !in TableOf(reg, h).child
    ensures Fill(reg, h, segments[i..], nested) ==
      Fill(reg.(tables := reg.tables[h := Put(TableOf(reg, h), segments[i], reg.nextId)][reg.nextId := EmptyTable], nextId := reg.nextId + 1),
           reg.nextId, segments[i + 1..], nested)
  {
    FillFrom(reg, h, segments, i, nested);
    StepAdds(reg, h, segments[i]);
  }

  /** Step at a missing segment. */
  lemma StepAdds(reg: Registry, h: Id, segment: string)
    requires segment !in TableOf(reg, h).child
    ensures Step(reg, h, segment) == (reg.nextId,
      reg.(tables := reg.tables[h := Put(TableOf(reg, h), segment, reg.nextId)][reg.nextId := EmptyTable], nextId := reg.nextId + 1))
  {
  }

  /** Fill from an inner segment that is present: the walk goes on from its node. */
  lemma FillFollow(reg: Registry, h: Id, segments: seq<string>, i: nat, nested: Id)
    requires i < |segments| - 1 && segments[i] in TableOf(reg, h).child
    ensures Fill(reg, h, segments[i..], nested) == Fill(reg, TableOf(reg, h).child[segments[i]], segments[i + 1..], nested)
  {
    FillFrom(reg, h, segments, i, nested);
  }

  /** Fill from the last segment. */
  lemma FillLast(reg: Registry, h: Id, segments: seq<string>, nested: Id)
    requires |segments| >= 1
    ensures Fill(reg, h, segments[|segments| - 1..], nested) == SetLeaf(reg, h, segments[|segments| - 1], nested)
  {
    assert segments[|segments| - 1..] == [segments[|segments| - 1]];
  }

  /** AddReferences keeps every projection and dictionary there was. */
  lemma AddReferencesGrows(reg: Registry, p: Projection, memberName: string, attributePath: string, memberType: TypeName)
    requires Closed(reg) && Registered(reg, p)
    ensures Grows(reg, AddReferences(reg, p, memberName, attributePath, memberType))
  {
    GetOrCreateSpec(reg, memberType);
    var (mp, reg1) := GetOrCreate(reg, memberType);
    var reg2 := reg1.(nameTables := reg1.nameTables[p.names :=
                        NamesOf(reg1, p.names)[memberName := NameRef(attributePath, memberType, mp.names)]]);
    assert Closed(reg2);
    FillClosed(reg2, p.hierarchy, Split(attributePath, '.'), mp.hierarchy);
  }

  /**
   * An IDictionary<Type, AttributesProjection> registry object, shared by
   * reference between the converter builder, the map builders it hands out
   * and the mapper it builds; `reg` is the dictionary together with every
   * dictionary its projections reach.
   */
  class ProjectionStore {
    var reg: Registry

    ghost predicate Valid()
      reads this
    {
      Closed(reg)
    }

    constructor ()
      ensures Valid() && reg == EmptyRegistry
    {
      reg := EmptyRegistry;
    }

    /** TryGetValue(type, out projection), and on a miss `this[type] = new AttributesProjection()`. */
    method GetOrAdd(recordType: TypeName) returns (p: Projection)
      requires Valid()
      modifies this
      ensures Valid() && Grows(old(reg), reg) && Registered(reg, p)
      ensures (p, reg) == GetOrCreate(old(reg), recordType)
    {
      GetOrCreateSpec(reg, recordType);
      if recordType in reg.projections {
        p := reg.projections[recordType];
      } else {
        p := Projection(reg.nextId, reg.nextId + 1);
        reg := Registry(reg.projections[recordType := p], reg.nameTables[p.names := map[]],
                        reg.tables[p.hierarchy := EmptyTable], reg.nextId + 2);
      }
    }

    /** `TypeAttributeNameReferences[memberName] = reference` on the name table `names`. */
    method SetNameReference(names: Id, memberName: string, reference: NameRef)
      requires Valid() && names in reg.nameTables && reference.memberTypeProjection in reg.nameTables
      modifies this
      ensures Valid() && Grows(old(reg), reg)
      ensures reg == old(reg).(nameTables := old(reg).nameTables[names := NamesOf(old(reg), names)[memberName := reference]])
    {
      reg := reg.(nameTables := reg.nameTables[names := NamesOf(reg, names)[memberName := reference]]);
    }

    /**
     * FillHierarchy(hierarchy, attributePath, nestedTypeHierarchy): walk the
     * path's segments from `h`, adding the missing nodes, and make the last
     * node's Nested table `nested`. A last node that is missing is added with
     * `nested` at once: the library gives it a fresh Nested table first and
     * replaces it right away, so that table is never reachable.
     */
    method FillHierarchy(h: Id, attributePath: string, nested: Id)
      requires Valid() && h in reg.tables && nested in reg.tables
      modifies this
      ensures Valid() && Grows(old(reg), reg)
      ensures reg == Fill(old(reg), h, Split(attributePath, '.'), nested)
    {
      var segments := Split(attributePath, '.');
      var arena := reg;
      var hierarchy := h;
      for i := 0 to |segments|
        invariant i < |segments| ==> Fill(reg, h, segments, nested) == Fill(arena, hierarchy, segments[i..], nested)
        invariant i == |segments| ==> arena == Fill(reg, h, segments, nested)
        invariant reg == old(reg)
      {
        var segment := segments[i];
        var table := TableOf(arena, hierarchy);
        if i < |segments| - 1 {
          if segment !in table.child {
            var node := arena.nextId;
            FillAdd(arena, hierarchy, segments, i, nested);
            arena := arena.(tables := arena.tables[hierarchy := Put(table, segment, node)][node := EmptyTable], nextId := node + 1);
            hierarchy := node;
          } else {
            FillFollow(arena, hierarchy, segments, i, nested);
            hierarchy := table.child[segment];
          }
          assert Fill(reg, h, segments, nested) == Fill(arena, hierarchy, segments[i + 1..], nested);
        } else {
          FillLast(arena, hierarchy, segments, nested);
          arena := arena.(tables := arena.tables[hierarchy := Put(table, segment, nested)]);
        }
      }
      FillClosed(reg, h, segments, nested);
      reg := arena;
    }
  }
}
