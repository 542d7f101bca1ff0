/**
 * The alias allocator of one request (QueryVariables). Attribute names get
 * aliases #attr_name_<n>, constants get :attr_val_<k>, and null gets the
 * single alias :attr_val_null. The pure functions below describe one
 * allocation step on an abstract state `Vars`; the class QueryVariables keeps
 * the same six fields and its methods are proved to perform those steps.
 */
module QueryVars {
  import opened Common
  import opened Values

  const NullValueAlias: string := ":attr_val_null"

  function NameAlias(n: nat): string { "#attr_name_" + NatToString(n) }

  function ValueAlias(k: nat): string { ":attr_val_" + NatToString(k) }

  lemma NameAliasInjective(m: nat, n: nat)
    requires NameAlias(m) == NameAlias(n)
    ensures m == n
  {
    assert NameAlias(m)[11..] == NatToString(m);
    assert NameAlias(n)[11..] == NatToString(n);
    NatToStringInjective(m, n);
  }

  lemma ValueAliasInjective(m: nat, n: nat)
    requires ValueAlias(m) == ValueAlias(n)
    ensures m == n
  {
    assert ValueAlias(m)[10..] == NatToString(m);
    assert ValueAlias(n)[10..] == NatToString(n);
    NatToStringInjective(m, n);
  }

  /** The null alias is never one of the numbered value aliases. */
  lemma ValueAliasIsNotNull(k: nat)
    ensures ValueAlias(k) != NullValueAlias
  {
    assert ValueAlias(k)[10] == NatToString(k)[0];
    assert !IsDigit(NullValueAlias[10]);
  }

  /** The contents of a QueryVariables object. */
  datatype Vars = Vars(
    attributeNames: map<string, string>,        // alias -> attribute name
    attributeNameAliases: map<string, string>,  // attribute name -> alias
    comparableValues: map<TypeName, map<Value, string>>,
    rawValues: map<TypeName, map<Value, string>>,
    allValues: map<string, Value>,              // alias -> constant
    valuesCounter: nat)

  /** A newly constructed allocator. */
  const Fresh: Vars := Vars(map[], map[], map[], map[], map[], 0)

  /** The name half of the invariant, over the two name maps only. */
  ghost predicate NamesInvOf(names: map<string, string>, aliases: map<string, string>)
  {
    && (forall n :: n in aliases ==> aliases[n] in names && names[aliases[n]] == n)
    && (forall a :: a in names ==> names[a] in aliases && aliases[names[a]] == a)
    && (forall i: nat :: i < |names| ==> NameAlias(i) in names)
    && (forall i: nat :: NameAlias(i) in names ==> i < |names|)
    && (forall a :: a in names ==> |a| > 0 && a[0] == '#')
  }

  ghost predicate NamesInv(st: Vars)
  {
    NamesInvOf(st.attributeNames, st.attributeNameAliases)
  }

  /** The value half of the invariant, over the value tables and the counter only. */
  ghost predicate ValuesInvOf(comparable: map<TypeName, map<Value, string>>, raw: map<TypeName, map<Value, string>>,
                              all: map<string, Value>, counter: nat)
  {
    && (forall k: nat :: ValueAlias(k) in all ==> k < counter)
    && (forall a :: a in all ==> |a| > 0 && a[0] == ':')
    && (NullValueAlias in all ==> all[NullValueAlias] == Null)
    && (forall a :: a in all && a != NullValueAlias ==> all[a] != Null && counter > 0)
    && (forall t, v :: t in comparable && v in comparable[t] ==>
          && comparable[t][v] != NullValueAlias
          && comparable[t][v] in all
          && all[comparable[t][v]] == v)
    && (forall t, v :: t in raw && v in raw[t] ==>
          && raw[t][v] != NullValueAlias
          && raw[t][v] in all
          && all[raw[t][v]] == v)
    && (forall t1, v1, t2, v2 ::
          (&& t1 in comparable && v1 in comparable[t1]
           && t2 in comparable && v2 in comparable[t2]
           && comparable[t1][v1] == comparable[t2][v2]) ==> t1 == t2 && v1 == v2)
  }

  ghost predicate ValuesInv(st: Vars)
  {
    ValuesInvOf(st.comparableValues, st.rawValues, st.allValues, st.valuesCounter)
  }

  /**
   * What the allocator keeps true: the name maps are inverse to each other,
   * the name aliases are exactly #attr_name_0 .. #attr_name_<count-1> and all
   * begin with '#'; every value alias in use begins with ':' and the
   * numbered ones are below the counter; each deduplication
   * table entry has its own alias, recorded with its value.
   */
  ghost predicate Inv(st: Vars)
  {
    NamesInv(st) && ValuesInv(st)
  }

  lemma FreshInv()
    ensures Inv(Fresh)
  {
  }

  /** SetAttributeNameAlias(attributeName) */
  function AliasName(st: Vars, name: string): (string, Vars)
  {
    if name in st.attributeNameAliases then
      var alias := st.attributeNameAliases[name];
      (alias, st)
    else
      var alias := NameAlias(|st.attributeNames|);
      (alias, st.(attributeNameAliases := st.attributeNameAliases[name := alias],
                  attributeNames := st.attributeNames[alias := name]))
  }

  /** Adding a new name under the next numbered name alias keeps the name half of the invariant. */
  lemma AddNameKeeps(names: map<string, string>, aliases: map<string, string>, name: string)
    requires NamesInvOf(names, aliases) && name !in aliases
    ensures NameAlias(|names|) !in names
    ensures |names[NameAlias(|names|) := name]| == |names| + 1
    ensures NamesInvOf(names[NameAlias(|names|) := name], aliases[name := NameAlias(|names|)])
  {
    var alias := NameAlias(|names|);
    assert alias !in names;
    AddNameInverse(names, aliases, name, alias);
    AddNameNumbers(names, name);
  }

  /** The two name maps stay inverse to each other when a new name and a new alias are added to both. */
  lemma AddNameInverse(names: map<string, string>, aliases: map<string, string>, name: string, alias: string)
    requires NamesInvOf(names, aliases) && name !in aliases && alias !in names
    requires |alias| > 0 && alias[0] == '#'
    ensures var names', aliases' := names[alias := name], aliases[name := alias];
      && (forall n :: n in aliases' ==> aliases'[n] in names' && names'[aliases'[n]] == n)
      && (forall a :: a in names' ==> names'[a] in aliases' && aliases'[names'[a]] == a)
      && (forall a :: a in names' ==> |a| > 0 && a[0] == '#')
  {
    var names' := names[alias := name];
    var aliases' := aliases[name := alias];
    forall m | m in aliases' ensures aliases'[m] in names' && names'[aliases'[m]] == m {
      if m != name {
        assert aliases[m] in names && names[aliases[m]] == m;
      }
    }
    forall a | a in names' ensures names'[a] in aliases' && aliases'[names'[a]] == a {
      if a != alias {
        assert names[a] in aliases && aliases[names[a]] == a;
      }
    }
  }

  /** With the next numbered alias added, the aliases in use are still exactly the first numbers. */
  lemma AddNameNumbers(names: map<string, string>, name: string)
    requires forall i: nat :: i < |names| ==> NameAlias(i) in names
    requires forall i: nat :: NameAlias(i) in names ==> i < |names|
    ensures var names' := names[NameAlias(|names|) := name];
      && |names'| == |names| + 1
      && (forall i: nat :: i < |names'| ==> NameAlias(i) in names')
      && (forall i: nat :: NameAlias(i) in names' ==> i < |names'|)
  {
    var n := |names|;
    var names' := names[NameAlias(n) := name];
    assert NameAlias(n) !in names;
    forall i: nat | NameAlias(i) in names' ensures i < n + 1 {
      if NameAlias(i) == NameAlias(n) {
        NameAliasInjective(i, n);
      }
    }
  }

  /**
   * A known name keeps its alias and changes nothing; a new name gets the
   * next numbered alias, so the alias table grows by exactly one entry.
   */
  lemma {:induction false} AliasNameSpec(st: Vars, name: string)
    requires Inv(st)
    ensures Inv(AliasName(st, name).1)
    ensures name in st.attributeNameAliases ==>
              AliasName(st, name) == (st.attributeNameAliases[name], st)
    ensures name !in st.attributeNameAliases ==>
              && AliasName(st, name).0 == NameAlias(|st.attributeNames|)
              && |AliasName(st, name).1.attributeNames| == |st.attributeNames| + 1
  {
    if name !in st.attributeNameAliases {
      AddNameKeeps(st.attributeNames, st.attributeNameAliases, name);
    }
  }

  /** Two different attribute names never share an alias, whatever was allocated before. */
  lemma DistinctNamesDistinctAliases(st: Vars, n1: string, n2: string)
    requires Inv(st) && n1 != n2
    ensures AliasName(st, n1).0 != AliasName(AliasName(st, n1).1, n2).0
  {
    AliasNameSpec(st, n1);
    var st1 := AliasName(st, n1).1;
    AliasNameSpec(st1, n2);
    var st2 := AliasName(st1, n2).1;
    assert st2.attributeNames[AliasName(st, n1).0] == n1;
    assert st2.attributeNames[AliasName(st1, n2).0] == n2;
  }

  /** The deduplication table of `t` in a per-type table map, empty when there is none yet. */
  function TypeTable(tables: map<TypeName, map<Value, string>>, t: TypeName): map<Value, string>
  {
    if t in tables then tables[t] else map[]
  }

  /**
   * Records `value` under the next numbered alias, in the comparable table of
   * `valueType` (deduplicating) or in its raw table (not deduplicating).
   */
  function Register(st: Vars, valueType: TypeName, value: Value, comparable: bool): (string, Vars)
  {
    var alias := ValueAlias(st.valuesCounter);
    var st1 := st.(valuesCounter := st.valuesCounter + 1, allValues := st.allValues[alias := value]);
    if comparable then
      (alias, st1.(comparableValues := st.comparableValues[valueType := TypeTable(st.comparableValues, valueType)[value := alias]]))
    else
      (alias, st1.(rawValues := st.rawValues[valueType := TypeTable(st.rawValues, valueType)[value := alias]]))
  }

  /** The generic SetValueAlias<T>(T value): `value` is an IComparable of static type T. */
  function AliasComparable(st: Vars, valueType: TypeName, datum: Datum): (string, Vars)
  {
    var value := Comparable(valueType, datum);
    var table := TypeTable(st.comparableValues, valueType);
    if value in table then
      (table[value], st.(comparableValues := st.comparableValues[valueType := table],
                         allValues := st.allValues[table[value] := value]))
    else Register(st, valueType, value, true)
  }

  /** The typed SetValueAlias(rawValue, valueType): deduplicates comparable values per valueType. */
  function AliasTyped(st: Vars, rawValue: Value, valueType: TypeName): (string, Vars)
  {
    if rawValue.Null? then (NullValueAlias, st)
    else if rawValue.Comparable? then
      var table := TypeTable(st.comparableValues, valueType);
      if rawValue in table then
        (table[rawValue], st.(comparableValues := st.comparableValues[valueType := table],
                              allValues := st.allValues[table[rawValue] := rawValue]))
      else Register(st, valueType, rawValue, true)
    else Register(st, valueType, rawValue, false)
  }

  /** The untyped SetValueAlias(rawValue): null is recorded under the null alias, anything else by its runtime type. */
  function AliasValue(st: Vars, rawValue: Value): (string, Vars)
  {
    if rawValue.Null? then
      (NullValueAlias,
       if NullValueAlias in st.allValues then st else st.(allValues := st.allValues[NullValueAlias := Null]))
    else AliasTyped(st, rawValue, rawValue.runtimeType)
  }

  /** The generic overload is the typed one for a value whose runtime type is T. */
  lemma AliasComparableIsTyped(st: Vars, valueType: TypeName, datum: Datum)
    ensures AliasComparable(st, valueType, datum) == AliasTyped(st, Comparable(valueType, datum), valueType)
  {
  }

  /** Every name alias handed out in `st` keeps its meaning in `st'`. */
  ghost predicate NamesExtend(st: Vars, st': Vars)
  {
    && (forall n :: n in st.attributeNameAliases ==>
          n in st'.attributeNameAliases && st'.attributeNameAliases[n] == st.attributeNameAliases[n])
    && (forall a :: a in st.attributeNames ==> a in st'.attributeNames && st'.attributeNames[a] == st.attributeNames[a])
  }

  /** Every value alias handed out in `st` keeps its meaning in `st'`, and the counter has not gone back. */
  ghost predicate ValuesExtend(st: Vars, st': Vars)
  {
    && (forall a :: a in st.allValues ==> a in st'.allValues && st'.allValues[a] == st.allValues[a])
    && st.valuesCounter <= st'.valuesCounter
  }

  /** Every deduplication entry of `st` is still there in `st'`, under the same alias. */
  ghost predicate TablesExtend(st: Vars, st': Vars)
  {
    forall t, v :: t in st.comparableValues && v in st.comparableValues[t] ==>
      t in st'.comparableValues && v in st'.comparableValues[t]
      && st'.comparableValues[t][v] == st.comparableValues[t][v]
  }

  /** Every alias handed out in `st` keeps its meaning in `st'`. */
  ghost predicate Extends(st: Vars, st': Vars)
  {
    NamesExtend(st, st') && ValuesExtend(st, st')
  }

  lemma ExtendsTransitive(st1: Vars, st2: Vars, st3: Vars)
    requires Extends(st1, st2) && Extends(st2, st3)
    ensures Extends(st1, st3)
  {
  }

  lemma NamesExtendTransitive(st1: Vars, st2: Vars, st3: Vars)
    requires NamesExtend(st1, st2) && NamesExtend(st2, st3)
    ensures NamesExtend(st1, st3)
  {
  }

  /** Only the name tables differ between `st` and `st'`. */
  ghost predicate NamesOnly(st: Vars, st': Vars)
  {
    st' == st.(attributeNames := st'.attributeNames, attributeNameAliases := st'.attributeNameAliases)
  }

  /** Only the value tables and the counter differ between `st` and `st'`. */
  ghost predicate ValuesOnly(st: Vars, st': Vars)
  {
    st' == st.(comparableValues := st'.comparableValues, rawValues := st'.rawValues,
               allValues := st'.allValues, valuesCounter := st'.valuesCounter)
  }

  /** A change of the name tables alone that keeps their half of the invariant keeps all of it. */
  lemma NameChangeKeeps(st: Vars, st': Vars)
    requires Inv(st) && NamesInv(st') && NamesExtend(st, st') && NamesOnly(st, st')
    ensures Inv(st') && Extends(st, st')
  {
  }

  /** Recording a non-null value under a numbered alias not yet in use keeps the value half of the invariant. */
  lemma RecordKeeps(comparable: map<TypeName, map<Value, string>>, raw: map<TypeName, map<Value, string>>,
                    all: map<string, Value>, counter: nat, value: Value)
    requires ValuesInvOf(comparable, raw, all, counter) && value != Null
    ensures ValueAlias(counter) !in all
    ensures ValuesInvOf(comparable, raw, all[ValueAlias(counter) := value], counter + 1)
  {
    var alias := ValueAlias(counter);
    ValueAliasIsNotNull(counter);
    forall j: nat | ValueAlias(j) in all[alias := value]
      ensures j < counter + 1
    {
      if ValueAlias(j) == alias {
        ValueAliasInjective(j, counter);
      }
    }
  }

  /** Adding a comparable entry under the next numbered alias keeps the value half of the invariant. */
  lemma AddComparableKeeps(comparable: map<TypeName, map<Value, string>>, raw: map<TypeName, map<Value, string>>,
                           all: map<string, Value>, counter: nat, t: TypeName, value: Value)
    requires ValuesInvOf(comparable, raw, all, counter) && value != Null
    ensures ValuesInvOf(comparable[t := TypeTable(comparable, t)[value := ValueAlias(counter)]], raw,
                        all[ValueAlias(counter) := value], counter + 1)
  {
    RecordKeeps(comparable, raw, all, counter, value);
    var alias := ValueAlias(counter);
    var c' := comparable[t := TypeTable(comparable, t)[value := alias]];
    var all' := all[alias := value];
    forall t1, v1 | t1 in c' && v1 in c'[t1]
      ensures c'[t1][v1] != NullValueAlias && c'[t1][v1] in all' && all'[c'[t1][v1]] == v1
      ensures c'[t1][v1] == alias ==> t1 == t && v1 == value
    {
      if !(t1 == t && v1 == value) {
        assert c'[t1][v1] == comparable[t1][v1];
      }
    }
  }

  /** Adding a raw entry under the next numbered alias keeps the value half of the invariant. */
  lemma AddRawKeeps(comparable: map<TypeName, map<Value, string>>, raw: map<TypeName, map<Value, string>>,
                    all: map<string, Value>, counter: nat, t: TypeName, value: Value)
    requires ValuesInvOf(comparable, raw, all, counter) && value != Null
    ensures ValuesInvOf(comparable, raw[t := TypeTable(raw, t)[value := ValueAlias(counter)]],
                        all[ValueAlias(counter) := value], counter + 1)
  {
    RecordKeeps(comparable, raw, all, counter, value);
    var alias := ValueAlias(counter);
    var r' := raw[t := TypeTable(raw, t)[value := alias]];
    var all' := all[alias := value];
    forall t1, v1 | t1 in r' && v1 in r'[t1]
      ensures r'[t1][v1] != NullValueAlias && r'[t1][v1] in all' && all'[r'[t1][v1]] == v1
    {
      if !(t1 == t && v1 == value) {
        assert r'[t1][v1] == raw[t1][v1];
      }
    }
  }

  /**
   * Registering a new value hands out the next number, keeps the invariant
   * and every earlier alias, and leaves the name tables alone.
   */
  lemma {:induction false} RegisterSpec(st: Vars, valueType: TypeName, value: Value, comparable: bool)
    requires Inv(st) && value != Null
    requires comparable ==> value !in TypeTable(st.comparableValues, valueType)
    ensures var (alias, st') := Register(st, valueType, value, comparable);
      && Inv(st') && Extends(st, st') && TablesExtend(st, st')
      && alias == ValueAlias(st.valuesCounter) && alias !in st.allValues
      && st'.allValues == st.allValues[alias := value] && st'.valuesCounter == st.valuesCounter + 1
      && ValuesOnly(st, st')
      && (comparable ==> st'.comparableValues[valueType][value] == alias)
  {
    RecordKeeps(st.comparableValues, st.rawValues, st.allValues, st.valuesCounter, value);
    if comparable {
      AddComparableKeeps(st.comparableValues, st.rawValues, st.allValues, st.valuesCounter, valueType, value);
    } else {
      AddRawKeeps(st.comparableValues, st.rawValues, st.allValues, st.valuesCounter, valueType, value);
    }
  }

  /** A comparable value already in its type's table gets its recorded alias and changes nothing. */
  lemma HitChangesNothing(st: Vars, rawValue: Value, valueType: TypeName)
    requires ValuesInv(st) && rawValue.Comparable? && rawValue in TypeTable(st.comparableValues, valueType)
    ensures AliasTyped(st, rawValue, valueType) == (st.comparableValues[valueType][rawValue], st)
  {
    var table := st.comparableValues[valueType];
    assert st.comparableValues[valueType := table] == st.comparableValues;
    assert st.allValues[table[rawValue] := rawValue] == st.allValues;
  }

  /**
   * A typed allocation keeps the invariant, every earlier alias and the name
   * tables; a non-null value ends up recorded under its alias, and the
   * counter moves only when a new numbered alias was handed out.
   */
  lemma {:induction false} AliasTypedSpec(st: Vars, rawValue: Value, valueType: TypeName)
    requires Inv(st)
    ensures var (alias, st') := AliasTyped(st, rawValue, valueType);
      && Inv(st') && Extends(st, st') && TablesExtend(st, st')
      && ValuesOnly(st, st')
      && (rawValue.Null? ==> alias == NullValueAlias && st' == st)
      && (!rawValue.Null? ==> alias in st'.allValues && st'.allValues[alias] == rawValue)
      && (rawValue.Comparable? ==> valueType in st'.comparableValues && rawValue in st'.comparableValues[valueType]
                                   && st'.comparableValues[valueType][rawValue] == alias)
      && (if alias in st.allValues || rawValue.Null? then st'.valuesCounter == st.valuesCounter
          else alias == ValueAlias(st.valuesCounter) && st'.valuesCounter == st.valuesCounter + 1)
  {
    if rawValue.Comparable? && rawValue in TypeTable(st.comparableValues, valueType) {
      HitChangesNothing(st, rawValue, valueType);
    } else if !rawValue.Null? {
      RegisterSpec(st, valueType, rawValue, rawValue.Comparable?);
    }
  }

  /** The untyped overload records null once, under the null alias, and hands out no number for it. */
  lemma NullAliasSpec(st: Vars)
    requires Inv(st)
    ensures var (alias, st') := AliasValue(st, Null);
      && Inv(st') && Extends(st, st') && alias == NullValueAlias
      && st'.allValues == st.allValues[NullValueAlias := Null]
      && st'.valuesCounter == st.valuesCounter
      && ValuesOnly(st, st')
      && AliasTyped(st, Null, StringType) == (NullValueAlias, st)
  {
    if NullValueAlias !in st.allValues {
      AddNullKeeps(st.comparableValues, st.rawValues, st.allValues, st.valuesCounter);
    }
  }

  lemma AddNullKeeps(comparable: map<TypeName, map<Value, string>>, raw: map<TypeName, map<Value, string>>,
                     all: map<string, Value>, counter: nat)
    requires ValuesInvOf(comparable, raw, all, counter) && NullValueAlias !in all
    ensures ValuesInvOf(comparable, raw, all[NullValueAlias := Null], counter)
  {
    forall k: nat | ValueAlias(k) in all[NullValueAlias := Null]
      ensures k < counter
    {
      ValueAliasIsNotNull(k);
    }
  }

  /** Equal comparable values of one declared type share one alias: the second request allocates nothing. */
  lemma ComparableDeduplicated(st: Vars, rawValue: Value, valueType: TypeName)
    requires Inv(st) && rawValue.Comparable?
    ensures var (a1, st1) := AliasTyped(st, rawValue, valueType);
      AliasTyped(st1, rawValue, valueType) == (a1, st1)
  {
    AliasTypedSpec(st, rawValue, valueType);
    HitChangesNothing(AliasTyped(st, rawValue, valueType).1, rawValue, valueType);
  }

  /** The same value under two different declared types gets two different aliases. */
  lemma TypesSeparated(st: Vars, rawValue: Value, t1: TypeName, t2: TypeName)
    requires Inv(st) && rawValue.Comparable? && t1 != t2
    ensures var (a1, st1) := AliasTyped(st, rawValue, t1);
      AliasTyped(st1, rawValue, t2).0 != a1
  {
    var (a1, st1) := AliasTyped(st, rawValue, t1);
    AliasTypedSpec(st, rawValue, t1);
    var (a2, st2) := AliasTyped(st1, rawValue, t2);
    AliasTypedSpec(st1, rawValue, t2);
    assert st2.comparableValues[t1][rawValue] == a1;
    assert st2.comparableValues[t2][rawValue] == a2;
  }

  /** An object that is not IComparable is never deduplicated: each request hands out the next number. */
  lemma ReferenceAlwaysFresh(st: Vars, rawValue: Value, valueType: TypeName)
    requires rawValue.Reference?
    ensures var (a1, st1) := AliasTyped(st, rawValue, valueType);
      && a1 == ValueAlias(st.valuesCounter)
      && AliasTyped(st1, rawValue, valueType).0 == ValueAlias(st.valuesCounter + 1)
      && AliasTyped(st1, rawValue, valueType).0 != a1
  {
    if ValueAlias(st.valuesCounter + 1) == ValueAlias(st.valuesCounter) {
      ValueAliasInjective(st.valuesCounter + 1, st.valuesCounter);
    }
  }

  /** GetAttributeValues(mapper): nothing unless a numbered alias was handed out, else every recorded alias. */
  function AttributeValues(st: Vars, toAttr: Value -> AttributeValue): map<string, AttributeValue>
  {
    if st.valuesCounter == 0 then map[]
    else map a | a in st.allValues :: if a == NullValueAlias then NULL else toAttr(st.allValues[a])
  }

  /**
   * Every alias a non-null constant receives is supplied with the request,
   * mapped from that constant.
   */
  lemma IssuedAliasSupplied(st: Vars, rawValue: Value, valueType: TypeName, toAttr: Value -> AttributeValue)
    requires Inv(st) && rawValue != Null
    ensures var (alias, st') := AliasTyped(st, rawValue, valueType);
      alias in AttributeValues(st', toAttr) && AttributeValues(st', toAttr)[alias] == toAttr(rawValue)
  {
    AliasTypedSpec(st, rawValue, valueType);
  }

  /**
   * As written, a request whose only constant is null uses :attr_val_null
   * but supplies no values at all, because the presence test looks at the
   * counter, which null never moves.
   */
  lemma NullOnlyConstantNotSupplied(toAttr: Value -> AttributeValue)
    ensures var (alias, st) := AliasValue(Fresh, Null);
      alias == NullValueAlias && alias in st.allValues && AttributeValues(st, toAttr) == map[]
  {
  }

  /** SetAttributeNameAlias keeps every earlier name alias, leaves `name` aliased both ways and the value tables alone. */
  lemma AliasNameExtends(st: Vars, name: string)
    requires NamesInv(st)
    ensures var (alias, st') := AliasName(st, name);
      && NamesInv(st') && NamesExtend(st, st') && NamesOnly(st, st')
      && name in st'.attributeNameAliases && st'.attributeNameAliases[name] == alias
      && alias in st'.attributeNames && st'.attributeNames[alias] == name
  {
    if name !in st.attributeNameAliases {
      AddNameKeeps(st.attributeNames, st.attributeNameAliases, name);
    }
  }

  /** SetAttributeNameAlias keeps the name half of the invariant and every earlier name alias. */
  lemma AliasNameGrows(st: Vars, name: string)
    requires NamesInv(st)
    ensures NamesInv(AliasName(st, name).1) && NamesExtend(st, AliasName(st, name).1)
  {
    if name !in st.attributeNameAliases {
      AddNameKeeps(st.attributeNames, st.attributeNameAliases, name);
    }
  }

  /** The untyped SetValueAlias keeps every earlier alias and the name tables. */
  lemma AliasValueExtends(st: Vars, rawValue: Value)
    requires Inv(st)
    ensures var (alias, st') := AliasValue(st, rawValue);
      && Inv(st') && Extends(st, st')
      && ValuesOnly(st, st')
      && alias in st'.allValues && st'.allValues[alias] == rawValue
  {
    if rawValue.Null? {
      NullAliasSpec(st);
    } else {
      AliasTypedSpec(st, rawValue, rawValue.runtimeType);
    }
  }

  /** The generic SetValueAlias keeps every earlier alias and leaves the value in its type's table under its alias. */
  lemma AliasComparableExtends(st: Vars, valueType: TypeName, datum: Datum)
    requires Inv(st)
    ensures var (alias, st') := AliasComparable(st, valueType, datum);
      && Inv(st') && Extends(st, st') && TablesExtend(st, st')
      && ValuesOnly(st, st')
      && valueType in st'.comparableValues && Comparable(valueType, datum) in st'.comparableValues[valueType]
      && st'.comparableValues[valueType][Comparable(valueType, datum)] == alias
      && alias in st'.allValues && st'.allValues[alias] == Comparable(valueType, datum)
  {
    AliasComparableIsTyped(st, valueType, datum);
    AliasTypedSpec(st, Comparable(valueType, datum), valueType);
  }

  /** A QueryVariables object: the six fields of the allocator. */
  class QueryVariables {
    var attributeNames: map<string, string>
    var attributeNameAliases: map<string, string>
    var comparableValues: map<TypeName, map<Value, string>>
    var rawValues: map<TypeName, map<Value, string>>
    var allValues: map<string, Value>
    var valuesCounter: nat

    function State(): Vars
      reads this
    {
      Vars(attributeNames, attributeNameAliases, comparableValues, rawValues, allValues, valuesCounter)
    }

    ghost predicate Valid()
      reads this
    {
      Inv(State())
    }

    constructor ()
      ensures Valid() && State() == Fresh
    {
      attributeNames, attributeNameAliases := map[], map[];
      comparableValues, rawValues, allValues := map[], map[], map[];
      valuesCounter := 0;
    }

    /** HasAttributeValues */
    predicate HasAttributeValues()
      reads this
    {
      valuesCounter > 0
    }

    method SetAttributeNameAlias(attributeName: string) returns (alias: string)
      requires Valid()
      modifies this
      ensures Valid()
      ensures (alias, State()) == AliasName(old(State()), attributeName)
    {
      ghost var before := State();
      if attributeName in attributeNameAliases {
        alias := attributeNameAliases[attributeName];
      } else {
        alias := NameAlias(|attributeNames|);
        attributeNameAliases := attributeNameAliases[attributeName := alias];
        attributeNames := attributeNames[alias := attributeName];
      }
      AliasNameSpec(before, attributeName);
    }

    /** The untyped SetValueAlias(object? rawValue). */
    method SetValueAlias(rawValue: Value) returns (alias: string)
      requires Valid()
      modifies this
      ensures Valid()
      ensures (alias, State()) == AliasValue(old(State()), rawValue)
    {
      if rawValue.Null? {
        NullAliasSpec(State());
        if NullValueAlias !in allValues {
          allValues := allValues[NullValueAlias := Null];
        }
        alias := NullValueAlias;
      } else {
        alias := SetTypedValueAlias(rawValue, rawValue.runtimeType);
      }
    }

    /** The generic SetValueAlias<T>(T value) for an IComparable `value` of static type `valueType`. */
    method SetComparableValueAlias(valueType: TypeName, datum: Datum) returns (alias: string)
      requires Valid()
      modifies this
      ensures Valid()
      ensures (alias, State()) == AliasComparable(old(State()), valueType, datum)
    {
      ghost var before := State();
      var value := Comparable(valueType, datum);
      var typeValues := TypeTable(comparableValues, valueType);
      if value in typeValues {
        alias := typeValues[value];
        comparableValues := comparableValues[valueType := typeValues];
      } else {
        alias := ValueAlias(valuesCounter);
        valuesCounter := valuesCounter + 1;
        comparableValues := comparableValues[valueType := typeValues[value := alias]];
      }
      allValues := allValues[alias := value];
      AliasComparableIsTyped(before, valueType, datum);
      AliasTypedSpec(before, value, valueType);
    }

    /** The typed SetValueAlias(object? rawValue, Type valueType). */
    method SetTypedValueAlias(rawValue: Value, valueType: TypeName) returns (alias: string)
      requires Valid()
      modifies this
      ensures Valid()
      ensures (alias, State()) == AliasTyped(old(State()), rawValue, valueType)
    {
      ghost var before := State();
      if rawValue.Null? {
        return NullValueAlias;
      }
      if rawValue.Comparable? {
        var typeValues := TypeTable(comparableValues, valueType);
        if rawValue in typeValues {
          alias := typeValues[rawValue];
          comparableValues := comparableValues[valueType := typeValues];
        } else {
          alias := ValueAlias(valuesCounter);
          valuesCounter := valuesCounter + 1;
          comparableValues := comparableValues[valueType := typeValues[rawValue := alias]];
        }
      } else {
        var typeValues := TypeTable(rawValues, valueType);
        alias := ValueAlias(valuesCounter);
        valuesCounter := valuesCounter + 1;
        rawValues := rawValues[valueType := typeValues[rawValue := alias]];
      }
      allValues := allValues[alias := rawValue];
      assert (alias, State()) == AliasTyped(before, rawValue, valueType);
      AliasTypedSpec(before, rawValue, valueType);
    }

    /** GetAttributeValues(mapper), with the mapper's MapToAttributeValue as `toAttr`. */
    method GetAttributeValues(toAttr: Value -> AttributeValue) returns (result: map<string, AttributeValue>)
      ensures result == AttributeValues(State(), toAttr)
    {
      result := map[];
      if !HasAttributeValues() {
        return;
      }
      var pending := allValues.Keys;
      while pending != {}
        invariant pending <= allValues.Keys
        invariant result.Keys == allValues.Keys - pending
        invariant forall a :: a in result ==>
          result[a] == if a == NullValueAlias then NULL else toAttr(allValues[a])
        decreases pending
      {
        var alias :| alias in pending;
        if alias == NullValueAlias {
          result := result[alias := NULL];
        } else {
          result := result[alias := toAttr(allValues[alias])];
        }
        pending := pending - {alias};
      }
    }
  }
}
