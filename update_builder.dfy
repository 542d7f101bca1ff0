/**
 * The update builder (ArrowStoreUpdateBuilder): clauses collected per
 * section of a DynamoDB update expression, conditions collected as nodes,
 * one allocator shared by every call, and the assembly of the request.
 *
 * Every operation is a pure function from the builder's state (the
 * sections, the allocator and, for When, the conditions) to its new state
 * and its outcome; the class methods perform the same steps in place and
 * are proved to reach that state.
 */
module UpdateBuilders {
  import opened Common
  import opened Values
  import opened Nodes
  import opened Parser
  import opened Projections
  import opened QueryVars
  import opened PartitionKeys
  import opened Transpiler
  import opened ExpressionTranspiler
  import opened Mapper
  import opened Writers

  /** The sections of an update expression; the request lists them in this order. */
  datatype Section = SetSection | RemoveSection | AddSection | DeleteSection

  function SectionName(s: Section): string
  {
    match s
    case SetSection => "SET"
    case RemoveSection => "REMOVE"
    case AddSection => "ADD"
    case DeleteSection => "DELETE"
  }

  function Rank(s: Section): nat
  {
    match s
    case SetSection => 0
    case RemoveSection => 1
    case AddSection => 2
    case DeleteSection => 3
  }

  const SectionOrder: seq<Section> := [SetSection, RemoveSection, AddSection, DeleteSection]

  /** _expressions: the clause list of every section created so far. */
  type Sections = map<Section, seq<string>>

  /** The clauses of a section, none when it was never created. */
  function Clauses(ex: Sections, s: Section): seq<string>
  {
    if s in ex then ex[s] else []
  }

  /** Every section other than `s` is as it was, created or not. */
  ghost predicate Untouched(ex: Sections, ex': Sections, s: Section)
  {
    forall s' :: s' != s ==> (s' in ex' <==> s' in ex) && Clauses(ex', s') == Clauses(ex, s')
  }

  /** Section `s` has gained one clause, at its end. */
  ghost predicate OneMore(ex: Sections, ex': Sections, s: Section)
  {
    && s in ex'
    && |Clauses(ex', s)| == |Clauses(ex, s)| + 1
    && Clauses(ex', s)[..|Clauses(ex, s)|] == Clauses(ex, s)
  }

  /** The last clause of a section. */
  function LastClause(ex: Sections, s: Section): string
    requires |Clauses(ex, s)| > 0
  {
    Clauses(ex, s)[|Clauses(ex, s)| - 1]
  }

  /** The TryGetValue-or-create of a section's list. */
  function Open(ex: Sections, s: Section): (r: Sections)
    ensures s in r && Clauses(r, s) == Clauses(ex, s) && Untouched(ex, r, s)
  {
    if s in ex then ex else ex[s := []]
  }

  /** `list.Add(clause)` on a section's list. */
  function Append(ex: Sections, s: Section, clause: string): (r: Sections)
    ensures OneMore(ex, r, s) && LastClause(r, s) == clause && Untouched(ex, r, s)
  {
    ex[s := Clauses(ex, s) + [clause]]
  }

  // ---------------------------------------------------------------------
  // The clause texts, as written (the value alias already starts with ':')

  function SetClause(path: string, alias: string): string
  {
    path + " = :" + alias
  }

  function SetWhenNotExistsClause(path: string, alias: string): string
  {
    path + " = if_not_exists(" + path + ", :" + alias + ")"
  }

  function AppendClause(path: string, alias: string): string
  {
    path + " = list_append(" + path + ", :" + alias + ")"
  }

  function PrependClause(path: string, alias: string): string
  {
    path + " = list_append(:" + alias + ", " + path + ")"
  }

  function DeleteClause(path: string, alias: string): string
  {
    path + " :" + alias + ")"
  }

  function IncreaseClause(accessor: string, alias: string, doIncrease: bool): string
  {
    if doIncrease then accessor + " = " + accessor + " + :" + alias
    else accessor + " = " + accessor + " - :" + alias
  }

  /** What a builder call leaves: its outcome, the sections and the shared allocator. */
  datatype Outcome = Outcome(result: Result<()>, expressions: Sections, vars: Vars)

  /** A value alias that stands for `value`: recorded under it, or the null alias for null. */
  ghost predicate Denotes(st: Vars, alias: string, value: Value)
  {
    if value.Null? then alias == NullValueAlias else alias in st.allValues && st.allValues[alias] == value
  }

  // ---------------------------------------------------------------------
  // Set and SetWhenNotExists

  /**
   * Set(memberAccessor, value) and SetWhenNotExists, `propertyAccessor`
   * being EnsurePropertyName(memberAccessor): once the accessor is
   * accepted, the SET list is created, the value aliased with the member's
   * declared type, then the path written.
   */
  function SetOp(ex: Sections, st: Vars, write: Writer, propertyAccessor: Result<Node>,
                 value: Value, memberType: TypeName, whenNotExists: bool): (r: Outcome)
    ensures Untouched(ex, r.expressions, SetSection)
    ensures propertyAccessor.Failure? ==> r == Outcome(Failure(propertyAccessor.error), ex, st)
    ensures r.result.Success? ==> OneMore(ex, r.expressions, SetSection)
    ensures r.result.Failure? ==> Clauses(r.expressions, SetSection) == Clauses(ex, SetSection)
  {
    if propertyAccessor.Failure? then Outcome(Failure(propertyAccessor.error), ex, st)
    else SetWrite(Open(ex, SetSection), st, write, propertyAccessor.value, value, memberType, whenNotExists)
  }

  /** The rest of Set once the SET list exists: the value aliased with the member's type, the path written, the clause added. */
  function SetWrite(sets: Sections, st: Vars, write: Writer, accessor: Node,
                    value: Value, memberType: TypeName, whenNotExists: bool): (r: Outcome)
    ensures Untouched(sets, r.expressions, SetSection)
    ensures r.result.Success? ==> OneMore(sets, r.expressions, SetSection)
    ensures r.result.Failure? ==> r.expressions == sets
  {
    var aliased := AliasTyped(st, value, memberType);
    var written := write(accessor, aliased.1);
    if written.0.Failure? then Outcome(Failure(written.0.error), sets, written.1)
    else Outcome(Success(()), Append(sets, SetSection, SetText(written.0.value, aliased.0, whenNotExists)), written.1)
  }

  /** The clause of Set or of SetWhenNotExists. */
  function SetText(path: string, alias: string, whenNotExists: bool): string
  {
    if whenNotExists then SetWhenNotExistsClause(path, alias) else SetClause(path, alias)
  }

  /**
   * Set succeeds exactly when the accessor was accepted and its path can
   * be written. Its clause is `path = :alias`, or
   * `path = if_not_exists(path, :alias)`, with an alias that stands for the
   * value in the allocator, which keeps its invariant and every alias it
   * had handed out.
   */
  lemma SetOpSpec(ex: Sections, st: Vars, write: Writer, t: RenderTarget, propertyAccessor: Result<Node>,
                  value: Value, memberType: TypeName, whenNotExists: bool)
    requires Inv(st) && Sound(write, t)
    ensures var r := SetOp(ex, st, write, propertyAccessor, value, memberType, whenNotExists);
      && Inv(r.vars) && Extends(st, r.vars)
      && (r.result.Success? <==> propertyAccessor.Success? && Renderable(propertyAccessor.value, t.reg, t.proj))
      && (r.result.Success? ==>
            exists path, alias ::
              && |path| > 0 && Denotes(r.vars, alias, value)
              && LastClause(r.expressions, SetSection) == SetText(path, alias, whenNotExists))
  {
    if propertyAccessor.Success? {
      var aliased := AliasTyped(st, value, memberType);
      AliasTypedSpec(st, value, memberType);
      var written := write(propertyAccessor.value, aliased.1);
      ExtendsTransitive(st, aliased.1, written.1);
      if written.0.Success? {
        var r := SetOp(ex, st, write, propertyAccessor, value, memberType, whenNotExists);
        assert Denotes(r.vars, aliased.0, value);
        assert LastClause(r.expressions, SetSection) == SetText(written.0.value, aliased.0, whenNotExists);
      }
    }
  }

  /**
   * As written, Set puts a second ':' in front of the alias: setting a
   * member to the first value of a fresh builder gives `... = ::attr_val_0`.
   */
  lemma SetDoublesColon(path: string)
    ensures SetClause(path, ValueAlias(0)) == path + " = ::attr_val_0"
  {
    assert NatToString(0) == "0";
  }

  // ---------------------------------------------------------------------
  // Increase

  /** An amount passed to one of the four Increase overloads: short, int, long or decimal. */
  datatype Amount = Amount(numberType: TypeName, datum: Datum)

  predicate IsAmount(a: Amount)
  {
    || (IsIntegral(a.numberType) && a.datum.Int? && MinValue(a.numberType) <= a.datum.i <= MaxValue(a.numberType))
    || (a.numberType == DecimalType && a.datum.Dec?)
  }

  predicate IsZero(a: Amount)
    requires IsAmount(a)
  {
    if a.datum.Int? then a.datum.i == 0 else a.datum.d == 0.0
  }

  predicate IsPositive(a: Amount)
    requires IsAmount(a)
  {
    if a.datum.Int? then a.datum.i > 0 else a.datum.d > 0.0
  }

  /**
   * Math.Abs(value): of the same type, so the smallest short, int or long
   * has no absolute value and raises an OverflowException.
   */
  function Abs(a: Amount): (r: Result<Datum>)
    requires IsAmount(a)
    ensures r.Failure? <==> a.datum.Int? && a.datum.i == MinValue(a.numberType)
    ensures r.Success? && a.datum.Int? ==>
              r.value.Int? && 0 <= r.value.i <= MaxValue(a.numberType) && (r.value.i == a.datum.i || r.value.i == -a.datum.i)
    ensures r.Success? && a.datum.Dec? ==> r.value.Dec? && r.value.d >= 0.0 && (r.value.d == a.datum.d || r.value.d == -a.datum.d)
  {
    if a.datum.Int? then
      if a.datum.i == MinValue(a.numberType) then Failure(Overflow)
      else Success(Int(if a.datum.i < 0 then -a.datum.i else a.datum.i))
    else Success(Dec(if a.datum.d < 0.0 then -a.datum.d else a.datum.d))
  }

  /**
   * Increase(memberAccessor, value): zero is refused before the accessor
   * is looked at, then the absolute value is aliased by its runtime type
   * and the private Increase writes the path, aliases that written path as
   * an attribute name and adds `a = a + :v` (or `- :v`) to SET.
   */
  function IncreaseOp(ex: Sections, st: Vars, write: Writer, propertyAccessor: Result<Node>, amount: Amount): (r: Outcome)
    requires IsAmount(amount)
    ensures Untouched(ex, r.expressions, SetSection)
    ensures IsZero(amount) ==> r == Outcome(Failure(ArgumentNull("value")), ex, st)
    ensures !IsZero(amount) && propertyAccessor.Failure? ==> r == Outcome(Failure(propertyAccessor.error), ex, st)
    ensures !IsZero(amount) && propertyAccessor.Success? && Abs(amount).Failure? ==> r == Outcome(Failure(Overflow), ex, st)
    ensures r.result.Success? ==> OneMore(ex, r.expressions, SetSection)
    ensures r.result.Failure? ==> r.expressions == ex
  {
    if IsZero(amount) then Outcome(Failure(ArgumentNull("value")), ex, st)
    else if propertyAccessor.Failure? then Outcome(Failure(propertyAccessor.error), ex, st)
    else
      var abs := Abs(amount);
      if abs.Failure? then Outcome(Failure(abs.error), ex, st)
      else
        var aliased := AliasValue(st, Comparable(amount.numberType, abs.value));
        IncreaseBy(ex, aliased.1, write, propertyAccessor.value, aliased.0, IsPositive(amount))
  }

  /** The private Increase(propertyAccessor, valueAlias, doIncrease). */
  function IncreaseBy(ex: Sections, st: Vars, write: Writer, propertyAccessor: Node, valueAlias: string, doIncrease: bool): (r: Outcome)
    ensures Untouched(ex, r.expressions, SetSection)
    ensures r.result.Success? ==> OneMore(ex, r.expressions, SetSection)
    ensures r.result.Failure? ==> r.expressions == ex
  {
    var written := write(propertyAccessor, st);
    if written.0.Failure? then Outcome(Failure(written.0.error), ex, written.1)
    else
      var named := AliasName(written.1, written.0.value);
      Outcome(Success(()), Append(Open(ex, SetSection), SetSection, IncreaseClause(named.0, valueAlias, doIncrease)), named.1)
  }

  /**
   * A non-zero Increase of an accepted accessor whose path can be written
   * succeeds, unless the amount is its type's smallest integer. Its clause
   * is `a = a + :v` for a positive amount and `a = a - :v` for a negative
   * one, where v stands for the absolute amount, of the same type, and a
   * is a name alias whose attribute name is the written path itself.
   */
  lemma IncreaseOpSpec(ex: Sections, st: Vars, write: Writer, t: RenderTarget, propertyAccessor: Result<Node>, amount: Amount)
    requires Inv(st) && Sound(write, t) && IsAmount(amount)
    ensures var r := IncreaseOp(ex, st, write, propertyAccessor, amount);
      && Inv(r.vars) && Extends(st, r.vars)
      && (r.result.Success? <==>
            !IsZero(amount) && propertyAccessor.Success? && Abs(amount).Success?
            && Renderable(propertyAccessor.value, t.reg, t.proj))
      && (r.result.Success? ==>
            exists a, v, path ::
              && LastClause(r.expressions, SetSection) == IncreaseClause(a, v, IsPositive(amount))
              && Denotes(r.vars, v, Comparable(amount.numberType, Abs(amount).value))
              && |path| > 0 && a in r.vars.attributeNames && r.vars.attributeNames[a] == path)
  {
    if !IsZero(amount) && propertyAccessor.Success? && Abs(amount).Success? {
      var value := Comparable(amount.numberType, Abs(amount).value);
      var aliased := AliasValue(st, value);
      AliasValueExtends(st, value);
      var written := write(propertyAccessor.value, aliased.1);
      ExtendsTransitive(st, aliased.1, written.1);
      if written.0.Success? {
        var named := AliasName(written.1, written.0.value);
        AliasNameExtends(written.1, written.0.value);
        NameChangeKeeps(written.1, named.1);
        ExtendsTransitive(st, written.1, named.1);
        var r := IncreaseOp(ex, st, write, propertyAccessor, amount);
        assert r.vars == named.1;
        assert Denotes(r.vars, aliased.0, value);
        assert LastClause(r.expressions, SetSection) == IncreaseClause(named.0, aliased.0, IsPositive(amount));
      }
    }
  }

  // ---------------------------------------------------------------------
  // AppendToList, PrependToList, DeleteFromList

  datatype ListUpdate = AppendList | PrependList | DeleteList

  function ListSection(kind: ListUpdate): Section
  {
    if kind == DeleteList then DeleteSection else SetSection
  }

  function ListClause(kind: ListUpdate, path: string, alias: string): string
  {
    match kind
    case AppendList => AppendClause(path, alias)
    case PrependList => PrependClause(path, alias)
    case DeleteList => DeleteClause(path, alias)
  }

  /**
   * AppendToList, PrependToList and DeleteFromList(memberAccessor, value),
   * `count` being value.Count: null is refused, an empty collection does
   * nothing, then the section is created before the accessor is checked,
   * the collection aliased by its runtime type and the path written.
   */
  function ListOp(kind: ListUpdate, ex: Sections, st: Vars, write: Writer, propertyAccessor: Result<Node>,
                  collection: Value, count: nat): (r: Outcome)
    ensures Untouched(ex, r.expressions, ListSection(kind))
    ensures collection.Null? ==> r == Outcome(Failure(ArgumentNull("value")), ex, st)
    ensures !collection.Null? && count == 0 ==> r == Outcome(Success(()), ex, st)
    ensures r.result.Success? && count > 0 ==> OneMore(ex, r.expressions, ListSection(kind))
    ensures r.result.Failure? ==> Clauses(r.expressions, ListSection(kind)) == Clauses(ex, ListSection(kind))
  {
    if collection.Null? then Outcome(Failure(ArgumentNull("value")), ex, st)
    else if count == 0 then Outcome(Success(()), ex, st)
    else
      var lists := Open(ex, ListSection(kind));
      if propertyAccessor.Failure? then Outcome(Failure(propertyAccessor.error), lists, st)
      else ListWrite(kind, lists, st, write, propertyAccessor.value, collection)
  }

  /** The rest of a list update once its list exists and the accessor is accepted. */
  function ListWrite(kind: ListUpdate, lists: Sections, st: Vars, write: Writer, accessor: Node, collection: Value): (r: Outcome)
    ensures Untouched(lists, r.expressions, ListSection(kind))
    ensures r.result.Success? ==> OneMore(lists, r.expressions, ListSection(kind))
    ensures r.result.Failure? ==> r.expressions == lists
  {
    var aliased := AliasValue(st, collection);
    var written := write(accessor, aliased.1);
    if written.0.Failure? then Outcome(Failure(written.0.error), lists, written.1)
    else Outcome(Success(()), Append(lists, ListSection(kind), ListClause(kind, written.0.value, aliased.0)), written.1)
  }

  /**
   * A non-empty collection is added exactly when the accessor was accepted
   * and its path can be written, as `list_append(path, :v)`,
   * `list_append(:v, path)` or `path :v)`, with v recorded for the
   * collection; a refused accessor still leaves the section created.
   */
  lemma ListOpSpec(kind: ListUpdate, ex: Sections, st: Vars, write: Writer, t: RenderTarget, propertyAccessor: Result<Node>,
                   collection: Value, count: nat)
    requires Inv(st) && Sound(write, t)
    ensures var r := ListOp(kind, ex, st, write, propertyAccessor, collection, count);
      && Inv(r.vars) && Extends(st, r.vars)
      && (!collection.Null? && count > 0 ==>
            && ListSection(kind) in r.expressions
            && (r.result.Success? <==> propertyAccessor.Success? && Renderable(propertyAccessor.value, t.reg, t.proj)))
      && (r.result.Success? && count > 0 ==>
            exists path, alias ::
              && |path| > 0 && Denotes(r.vars, alias, collection)
              && LastClause(r.expressions, ListSection(kind)) == ListClause(kind, path, alias))
  {
    if !collection.Null? && count > 0 && propertyAccessor.Success? {
      var aliased := AliasValue(st, collection);
      AliasValueExtends(st, collection);
      var written := write(propertyAccessor.value, aliased.1);
      ExtendsTransitive(st, aliased.1, written.1);
      if written.0.Success? {
        var r := ListOp(kind, ex, st, write, propertyAccessor, collection, count);
        assert Denotes(r.vars, aliased.0, collection);
        assert LastClause(r.expressions, ListSection(kind)) == ListClause(kind, written.0.value, aliased.0);
      }
    }
  }

  // ---------------------------------------------------------------------
  // Remove and When

  /** Remove(memberAccessor): the REMOVE list is created, then the accessor checked and its path added. */
  function RemoveOp(ex: Sections, st: Vars, write: Writer, propertyAccessor: Result<Node>): (r: Outcome)
    ensures Untouched(ex, r.expressions, RemoveSection) && RemoveSection in r.expressions
    ensures propertyAccessor.Failure? ==> r == Outcome(Failure(propertyAccessor.error), Open(ex, RemoveSection), st)
    ensures r.result.Success? ==> OneMore(ex, r.expressions, RemoveSection)
    ensures r.result.Failure? ==> Clauses(r.expressions, RemoveSection) == Clauses(ex, RemoveSection)
  {
    var removes := Open(ex, RemoveSection);
    if propertyAccessor.Failure? then Outcome(Failure(propertyAccessor.error), removes, st)
    else
      var written := write(propertyAccessor.value, st);
      if written.0.Failure? then Outcome(Failure(written.0.error), removes, written.1)
      else Outcome(Success(()), Append(removes, RemoveSection, written.0.value), written.1)
  }

  /**
   * Remove adds the written path itself and hands out no value alias: only
   * the allocator's name tables change.
   */
  lemma RemoveOpSpec(ex: Sections, st: Vars, write: Writer, t: RenderTarget, propertyAccessor: Result<Node>)
    requires Inv(st) && Sound(write, t)
    requires propertyAccessor.Success? ==> propertyAccessor.value.RecordMemberAccessor?
    ensures var r := RemoveOp(ex, st, write, propertyAccessor);
      && Inv(r.vars) && Extends(st, r.vars) && NamesOnly(st, r.vars)
      && (r.result.Success? <==> propertyAccessor.Success? && Renderable(propertyAccessor.value, t.reg, t.proj))
      && (r.result.Success? ==> |LastClause(r.expressions, RemoveSection)| > 0)
  {
    if propertyAccessor.Success? {
      var _ := write(propertyAccessor.value, st);
    }
  }

  // ---------------------------------------------------------------------
  // ExecuteAsync: the request

  /** The parts of the UpdateItemRequest the builder fills in; the table name comes from the configuration. */
  datatype UpdateRequest = UpdateRequest(
    key: AttrMap,
    conditionExpression: Option<string>,
    updateExpression: string,
    attributeNames: Option<map<string, string>>,
    attributeValues: Option<AttrMap>)

  /** One section of the update expression: its keyword, then its clauses comma-joined in call order. */
  function SectionText(ex: Sections, s: Section): string
  {
    SectionName(s) + " " + Join(Clauses(ex, s), ", ")
  }

  /** The sections looked at, in the order given, that were created. */
  function PresentSections(ex: Sections, order: seq<Section>): seq<Section>
  {
    if |order| == 0 then []
    else (if order[0] in ex then [order[0]] else []) + PresentSections(ex, order[1..])
  }

  /** The TryGetValue tests of ExecuteAsync, in the order given: one text per created section. */
  function SectionTexts(ex: Sections, order: seq<Section>): seq<string>
  {
    if |order| == 0 then []
    else (if order[0] in ex then [SectionText(ex, order[0])] else []) + SectionTexts(ex, order[1..])
  }

  lemma {:induction false} SectionTextsOfPresent(ex: Sections, order: seq<Section>)
    ensures |SectionTexts(ex, order)| == |PresentSections(ex, order)|
    ensures forall i :: 0 <= i < |PresentSections(ex, order)| ==>
              SectionTexts(ex, order)[i] == SectionText(ex, PresentSections(ex, order)[i])
    decreases |order|
  {
    if |order| > 0 {
      SectionTextsOfPresent(ex, order[1..]);
    }
  }

  lemma {:induction false} PresentSectionsSpec(ex: Sections, order: seq<Section>)
    requires forall i, j :: 0 <= i < j < |order| ==> Rank(order[i]) < Rank(order[j])
    ensures var p := PresentSections(ex, order);
      && (forall s :: s in p <==> s in order && s in ex)
      && (forall i, j :: 0 <= i < j < |p| ==> Rank(p[i]) < Rank(p[j]))
    decreases |order|
  {
    if |order| > 0 {
      PresentSectionsSpec(ex, order[1..]);
      var rest := PresentSections(ex, order[1..]);
      forall s | s in rest ensures Rank(order[0]) < Rank(s) {
        var k :| 0 <= k < |order[1..]| && order[1..][k] == s;
        assert order[k + 1] == s;
      }
      forall s | s in order ensures s == order[0] || s in order[1..] {
        var k :| 0 <= k < |order| && order[k] == s;
        if k > 0 {
          assert order[1..][k - 1] == s;
        }
      }
    }
  }

  /** A sequence with strictly increasing ranks has as many elements as its set. */
  lemma {:induction false} DistinctCard(p: seq<Section>)
    requires forall i, j :: 0 <= i < j < |p| ==> Rank(p[i]) < Rank(p[j])
    ensures |set s | s in p| == |p|
    decreases |p|
  {
    if |p| > 0 {
      DistinctCard(p[1..]);
      var rest := set s | s in p[1..];
      assert (set s | s in p) == rest + {p[0]};
      forall s | s in rest ensures s != p[0] {
        var k :| 0 <= k < |p[1..]| && p[1..][k] == s;
        assert Rank(p[0]) < Rank(p[k + 1]);
      }
    }
  }

  lemma EverySection(s: Section)
    ensures s in SectionOrder
  {
    match s
    case SetSection =>
    case RemoveSection =>
    case AddSection =>
    case DeleteSection =>
  }

  /**
   * The update expression lists exactly the created sections, each once,
   * in the order SET, REMOVE, ADD, DELETE, each as its keyword followed by
   * its clauses joined with ", " in call order.
   */
  lemma SectionTextsSpec(ex: Sections)
    ensures var p := PresentSections(ex, SectionOrder);
      && |SectionTexts(ex, SectionOrder)| == |p| == |ex|
      && (forall s :: s in p <==> s in ex)
      && (forall i, j :: 0 <= i < j < |p| ==> Rank(p[i]) < Rank(p[j]))
      && (forall i :: 0 <= i < |p| ==> SectionTexts(ex, SectionOrder)[i] == SectionName(p[i]) + " " + Join(ex[p[i]], ", "))
  {
    PresentSectionsSpec(ex, SectionOrder);
    SectionTextsOfPresent(ex, SectionOrder);
    var p := PresentSections(ex, SectionOrder);
    forall s | s in ex ensures s in p {
      EverySection(s);
    }
    assert (set s | s in p) == ex.Keys;
    DistinctCard(p);
  }

  /** The four tests of ExecuteAsync, written out, are the ones over SectionOrder. */
  lemma SectionTextsUnrolled(ex: Sections)
    ensures SectionTexts(ex, SectionOrder) ==
      (if SetSection in ex then [SectionText(ex, SetSection)] else [])
      + (if RemoveSection in ex then [SectionText(ex, RemoveSection)] else [])
      + (if AddSection in ex then [SectionText(ex, AddSection)] else [])
      + (if DeleteSection in ex then [SectionText(ex, DeleteSection)] else [])
  {
    var o1: seq<Section> := [RemoveSection, AddSection, DeleteSection];
    var o2: seq<Section> := [AddSection, DeleteSection];
    var o3: seq<Section> := [DeleteSection];
    assert SectionOrder[1..] == o1 && o1[1..] == o2 && o2[1..] == o3 && o3[1..] == [];
    assert SectionTexts(ex, o3) == (if DeleteSection in ex then [SectionText(ex, DeleteSection)] else []) + SectionTexts(ex, []);
    assert SectionTexts(ex, o2) == (if AddSection in ex then [SectionText(ex, AddSection)] else []) + SectionTexts(ex, o3);
    assert SectionTexts(ex, o1) == (if RemoveSection in ex then [SectionText(ex, RemoveSection)] else []) + SectionTexts(ex, o2);
  }

  /** The conditions after the first `n` were wrapped in place. */
  function WrapPrefix(conditions: seq<Node>, n: nat): (r: seq<Node>)
    requires n <= |conditions|
    ensures |r| == |conditions|
  {
    seq(|conditions|, k requires 0 <= k < |conditions| =>
      if k < n then WrapOnce(conditions[k], |conditions| > 1) else conditions[k])
  }

  /**
   * The first condition loop: each condition is wrapped in place, then
   * rendered with the request's own, new allocator. Besides the texts and
   * the allocator it gives how many conditions were wrapped, the one that
   * failed included.
   */
  function FirstPass(conditions: seq<Node>, i: nat, texts: seq<string>, write: Writer, local: Vars)
    : (r: (Result<seq<string>>, nat, Vars))
    requires i <= |conditions|
    ensures i <= r.1 <= |conditions|
    decreases |conditions| - i
  {
    if i == |conditions| then (Success(texts), i, local)
    else
      var written := write(WrapOnce(conditions[i], |conditions| > 1), local);
      if written.0.Failure? then (Failure(written.0.error), i + 1, written.1)
      else FirstPass(conditions, i + 1, texts + [written.0.value], write, written.1)
  }

  /** The condition rendered the second time (line 289): braced again whenever there are several. */
  function WrapAgain(c: Node, several: bool): Node
  {
    if several then InBraces(c) else c
  }

  /** The second condition loop, with the builder's allocator; its texts are the ones sent. */
  function SecondPass(conditions: seq<Node>, i: nat, texts: seq<string>, write: Writer, st: Vars): (Result<seq<string>>, Vars)
    requires i <= |conditions|
    decreases |conditions| - i
  {
    if i == |conditions| then (Success(texts), st)
    else
      var written := write(WrapAgain(conditions[i], |conditions| > 1), st);
      if written.0.Failure? then (Failure(written.0.error), written.1)
      else SecondPass(conditions, i + 1, texts + [written.0.value], write, written.1)
  }

  /** One turn of the first loop. */
  lemma FirstPassStep(conditions: seq<Node>, i: nat, texts: seq<string>, write: Writer, local: Vars)
    requires i < |conditions|
    ensures var written := write(WrapOnce(conditions[i], |conditions| > 1), local);
      FirstPass(conditions, i, texts, write, local) ==
        if written.0.Failure? then (Failure(written.0.error), i + 1, written.1)
        else FirstPass(conditions, i + 1, texts + [written.0.value], write, written.1)
  {
  }

  /** One turn of the second loop. */
  lemma SecondPassStep(conditions: seq<Node>, i: nat, texts: seq<string>, write: Writer, st: Vars)
    requires i < |conditions|
    ensures var written := write(WrapAgain(conditions[i], |conditions| > 1), st);
      SecondPass(conditions, i, texts, write, st) ==
        if written.0.Failure? then (Failure(written.0.error), written.1)
        else SecondPass(conditions, i + 1, texts + [written.0.value], write, written.1)
  {
  }

  /** Wrapping one more condition in place. */
  lemma WrapPrefixStep(conditions: seq<Node>, i: nat)
    requires i < |conditions|
    ensures WrapPrefix(conditions, i)[i] == conditions[i]
    ensures WrapPrefix(conditions, i)[i := WrapOnce(conditions[i], |conditions| > 1)] == WrapPrefix(conditions, i + 1)
  {
  }

  /**
   * The expression assembly of ExecuteAsync: nothing to update is refused
   * first; the key is mapped with the builder's allocator; the conditions
   * are wrapped and rendered with a new allocator, then rendered again,
   * wrapped once more, with the builder's allocator, and only that second
   * text is kept; the attribute names and values sent are the new
   * allocator's. The result carries the request, the conditions and the
   * builder's allocator afterwards.
   */
  function ExecuteRequest(ex: Sections, conditions: seq<Node>, st: Vars, write: Writer, keys: seq<PartitionKey>,
                          toAttr: Value -> AttributeValue): (Result<UpdateRequest>, seq<Node>, Vars)
  {
    if |ex| == 0 then (Failure(InvalidOperation(NothingToUpdate)), conditions, st)
    else
      var keyed := KeyAttributes(keys, st, map[]);
      KeyedRequest(ex, conditions, keyed.0, keyed.1, write, toAttr)
  }

  /** ExecuteAsync once the key is mapped: the first condition loop, then the rest. */
  function KeyedRequest(ex: Sections, conditions: seq<Node>, key: AttrMap, st: Vars, write: Writer,
                        toAttr: Value -> AttributeValue): (Result<UpdateRequest>, seq<Node>, Vars)
  {
    var first := FirstPass(conditions, 0, [], write, Fresh);
    var wrapped := WrapPrefix(conditions, first.1);
    if first.0.Failure? then (Failure(first.0.error), wrapped, st)
    else
      var again := RequestAgain(ex, |conditions| != 0, wrapped, key, first.2, st, write, toAttr);
      (again.0, wrapped, again.1)
  }

  /** ExecuteAsync once the first loop succeeded: the second condition loop, then the request. */
  function RequestAgain(ex: Sections, hasConditions: bool, wrapped: seq<Node>, key: AttrMap, local: Vars, st: Vars,
                        write: Writer, toAttr: Value -> AttributeValue): (Result<UpdateRequest>, Vars)
  {
    var second := SecondPass(wrapped, 0, [], write, st);
    if second.0.Failure? then (Failure(second.0.error), second.1)
    else (Success(Request(ex, hasConditions, key, second.0.value, local, toAttr)), second.1)
  }

  /**
   * The request sent once both condition loops succeeded: the texts of the
   * second loop joined with " and " when there are conditions, the section
   * texts joined with spaces, and the names and values of the request's own
   * allocator `local` when it has any.
   */
  function Request(ex: Sections, hasConditions: bool, key: AttrMap, texts: seq<string>, local: Vars,
                   toAttr: Value -> AttributeValue): UpdateRequest
  {
    UpdateRequest(key,
                  if hasConditions then Some(Join(texts, " and ")) else None,
                  Join(SectionTexts(ex, SectionOrder), " "),
                  if |local.attributeNames| != 0 then Some(local.attributeNames) else None,
                  if local.valuesCounter > 0 then Some(AttributeValues(local, toAttr)) else None)
  }

  /** A builder with no clause is refused before anything is mapped or allocated. */
  lemma NothingToUpdateRefused(conditions: seq<Node>, st: Vars, write: Writer, keys: seq<PartitionKey>, toAttr: Value -> AttributeValue)
    ensures ExecuteRequest(map[], conditions, st, write, keys, toAttr) == (Failure(InvalidOperation(NothingToUpdate)), conditions, st)
  {
  }

  /** Wrapping does not change whether a condition can be written. */
  lemma WrapRenderable(c: Node, several: bool, reg: Registry, proj: Option<Projection>)
    ensures Renderable(WrapOnce(c, several), reg, proj) == Renderable(c, reg, proj)
    ensures Renderable(WrapAgain(c, several), reg, proj) == Renderable(c, reg, proj)
  {
  }

  /**
   * When every condition left can be written, the first loop succeeds,
   * wraps them all and keeps the allocator's invariant.
   */
  lemma {:induction false} FirstPassSucceeds(conditions: seq<Node>, i: nat, texts: seq<string>, write: Writer, t: RenderTarget,
                                             local: Vars)
    requires i <= |conditions| && Inv(local) && KeepsAliases(write) && WritesRenderable(write, t)
    requires forall k :: i <= k < |conditions| ==> Renderable(conditions[k], t.reg, t.proj)
    ensures var first := FirstPass(conditions, i, texts, write, local);
      && first.0.Success? && first.1 == |conditions| && Inv(first.2)
      && |first.0.value| == |texts| + |conditions| - i
    decreases |conditions| - i
  {
    if i < |conditions| {
      var c := WrapOnce(conditions[i], |conditions| > 1);
      WrapRenderable(conditions[i], |conditions| > 1, t.reg, t.proj);
      var written := write(c, local);
      FirstPassStep(conditions, i, texts, write, local);
      FirstPassSucceeds(conditions, i + 1, texts + [written.0.value], write, t, written.1);
    }
  }

  /**
   * When every condition left can be written, the second loop succeeds with
   * one text per condition.
   */
  lemma {:induction false} SecondPassSucceeds(conditions: seq<Node>, i: nat, texts: seq<string>, write: Writer, t: RenderTarget,
                                              st: Vars)
    requires i <= |conditions| && Inv(st) && KeepsAliases(write) && WritesRenderable(write, t)
    requires forall k :: i <= k < |conditions| ==> Renderable(conditions[k], t.reg, t.proj)
    ensures var second := SecondPass(conditions, i, texts, write, st);
      second.0.Success? && |second.0.value| == |texts| + |conditions| - i
    decreases |conditions| - i
  {
    if i < |conditions| {
      var c := WrapAgain(conditions[i], |conditions| > 1);
      WrapRenderable(conditions[i], |conditions| > 1, t.reg, t.proj);
      var written := write(c, st);
      SecondPassStep(conditions, i, texts, write, st);
      SecondPassSucceeds(conditions, i + 1, texts + [written.0.value], write, t, written.1);
    }
  }

  /** The second loop keeps the allocator's invariant and every alias, whether or not it succeeds. */
  lemma {:induction false} SecondPassKeeps(conditions: seq<Node>, i: nat, texts: seq<string>, write: Writer, st: Vars)
    requires i <= |conditions| && Inv(st) && KeepsAliases(write)
    ensures var second := SecondPass(conditions, i, texts, write, st);
      Inv(second.1) && Extends(st, second.1)
    decreases |conditions| - i
  {
    if i < |conditions| {
      var written := write(WrapAgain(conditions[i], |conditions| > 1), st);
      SecondPassStep(conditions, i, texts, write, st);
      if written.0.Success? {
        SecondPassKeeps(conditions, i + 1, texts + [written.0.value], write, written.1);
        ExtendsTransitive(st, written.1, SecondPass(conditions, i + 1, texts + [written.0.value], write, written.1).1);
      }
    }
  }

  /** With several conditions, each one is braced before the second rendering, so every text sent is in parentheses. */
  lemma {:induction false} SecondPassParenthesized(conditions: seq<Node>, i: nat, texts: seq<string>, write: Writer,
                                                   st: Vars)
    requires i <= |conditions| && |conditions| > 1 && BracesParenthesized(write)
    requires AllParenthesized(texts)
    ensures var second := SecondPass(conditions, i, texts, write, st);
      second.0.Success? ==> AllParenthesized(second.0.value)
    decreases |conditions| - i
  {
    if i < |conditions| {
      var written := write(InBraces(conditions[i]), st);
      SecondPassStep(conditions, i, texts, write, st);
      if written.0.Success? {
        AllParenthesizedSnoc(texts, written.0.value);
        SecondPassParenthesized(conditions, i + 1, texts + [written.0.value], write, written.1);
      }
    }
  }


  /** Mapping the key keeps the allocator's invariant and every alias. */
  lemma KeyAttributesStable(keys: seq<PartitionKey>, st: Vars)
    requires Inv(st)
    ensures Inv(KeyAttributes(keys, st, map[]).1) && Extends(st, KeyAttributes(keys, st, map[]).1)
  {
    KeyAttributesSpec(keys, st, map[]);
    NameChangeKeeps(st, KeyAttributes(keys, st, map[]).1);
  }

  /** With a sound writer, the first loop over writable conditions, from a new allocator, wraps and writes them all. */
  lemma FirstPassAll(conditions: seq<Node>, write: Writer, t: RenderTarget)
    requires Sound(write, t)
    requires forall k :: 0 <= k < |conditions| ==> Renderable(conditions[k], t.reg, t.proj)
    ensures FirstPass(conditions, 0, [], write, Fresh).0.Success?
    ensures FirstPass(conditions, 0, [], write, Fresh).1 == |conditions|
  {
    FreshInv();
    FirstPassSucceeds(conditions, 0, [], write, t, Fresh);
  }

  /** Wrapping every condition leaves them writable. */
  lemma WrapPrefixRenderable(conditions: seq<Node>, t: RenderTarget)
    requires forall k :: 0 <= k < |conditions| ==> Renderable(conditions[k], t.reg, t.proj)
    ensures forall k :: 0 <= k < |conditions| ==> Renderable(WrapPrefix(conditions, |conditions|)[k], t.reg, t.proj)
  {
    forall k | 0 <= k < |conditions| ensures Renderable(WrapPrefix(conditions, |conditions|)[k], t.reg, t.proj) {
      WrapRenderable(conditions[k], |conditions| > 1, t.reg, t.proj);
    }
  }

  /**
   * With a sound writer and an allocator that keeps its invariant, the
   * second loop over writable conditions gives one text per condition, in
   * parentheses when there are several, and keeps every alias.
   */
  lemma SecondPassAll(conditions: seq<Node>, write: Writer, t: RenderTarget, st: Vars)
    requires Sound(write, t) && Inv(st)
    requires forall k :: 0 <= k < |conditions| ==> Renderable(conditions[k], t.reg, t.proj)
    ensures var second := SecondPass(conditions, 0, [], write, st);
      && second.0.Success? && |second.0.value| == |conditions|
      && Inv(second.1) && Extends(st, second.1)
      && (|conditions| > 1 ==> AllParenthesized(second.0.value))
  {
    SecondPassSucceeds(conditions, 0, [], write, t, st);
    SecondPassKeeps(conditions, 0, [], write, st);
    if |conditions| > 1 {
      SecondPassParenthesized(conditions, 0, [], write, st);
    }
  }

  /**
   * What ExecuteAsync promises of the request it sends for `n` conditions:
   * the update expression is the section texts space-joined, the key is the
   * mapped one, and a condition expression is present exactly when there
   * are conditions, as one text per condition joined with " and ", each in
   * parentheses when there are several.
   */
  ghost predicate SentRequest(req: UpdateRequest, ex: Sections, key: AttrMap, n: nat)
  {
    && req.updateExpression == Join(SectionTexts(ex, SectionOrder), " ")
    && req.key == key
    && (req.conditionExpression.Some? <==> n > 0)
    && (n > 0 ==> exists texts: seq<string> ::
          && |texts| == n
          && req.conditionExpression == Some(Join(texts, " and "))
          && (n > 1 ==> AllParenthesized(texts)))
  }

  /** Once the first loop succeeded, a second loop over writable conditions gives such a request. */
  lemma RequestAgainSucceeds(ex: Sections, hasConditions: bool, wrapped: seq<Node>, key: AttrMap, local: Vars, st: Vars,
                             write: Writer, t: RenderTarget, toAttr: Value -> AttributeValue)
    requires Inv(st) && Sound(write, t) && (hasConditions <==> |wrapped| > 0)
    requires forall k :: 0 <= k < |wrapped| ==> Renderable(wrapped[k], t.reg, t.proj)
    ensures var again := RequestAgain(ex, hasConditions, wrapped, key, local, st, write, toAttr);
      again.0.Success? && Inv(again.1) && Extends(st, again.1) && SentRequest(again.0.value, ex, key, |wrapped|)
  {
    SecondPassAll(wrapped, write, t, st);
    var second := SecondPass(wrapped, 0, [], write, st);
    var again := RequestAgain(ex, hasConditions, wrapped, key, local, st, write, toAttr);
    assert again == (Success(Request(ex, hasConditions, key, second.0.value, local, toAttr)), second.1);
    if hasConditions {
      assert again.0.value.conditionExpression == Some(Join(second.0.value, " and "));
    }
  }

  /**
   * A builder with clauses whose conditions can all be written gives such a
   * request, keeps the allocator's invariant and every alias, and leaves
   * every condition wrapped once.
   */
  lemma ExecuteSucceeds(ex: Sections, conditions: seq<Node>, st: Vars, write: Writer, t: RenderTarget,
                        keys: seq<PartitionKey>, toAttr: Value -> AttributeValue)
    requires |ex| > 0 && Inv(st) && Sound(write, t)
    requires forall k :: 0 <= k < |conditions| ==> Renderable(conditions[k], t.reg, t.proj)
    ensures var outcome := ExecuteRequest(ex, conditions, st, write, keys, toAttr);
      && outcome.0.Success? && Inv(outcome.2) && Extends(st, outcome.2)
      && SentRequest(outcome.0.value, ex, KeyAttributes(keys, st, map[]).0, |conditions|)
      && |outcome.1| == |conditions|
      && forall k :: 0 <= k < |conditions| ==> outcome.1[k] == WrapOnce(conditions[k], |conditions| > 1)
  {
    var keyed := KeyAttributes(keys, st, map[]);
    KeyAttributesStable(keys, st);
    FirstPassAll(conditions, write, t);
    var first := FirstPass(conditions, 0, [], write, Fresh);
    var wrapped := WrapPrefix(conditions, |conditions|);
    WrapPrefixRenderable(conditions, t);
    RequestAgainSucceeds(ex, |conditions| != 0, wrapped, keyed.0, first.2, keyed.1, write, t, toAttr);
    var again := RequestAgain(ex, |conditions| != 0, wrapped, keyed.0, first.2, keyed.1, write, toAttr);
    ExtendsTransitive(st, keyed.1, again.1);
    assert ExecuteRequest(ex, conditions, st, write, keys, toAttr) == (again.0, wrapped, again.1);
  }

  /**
   * As written, with no condition the request carries no attribute names
   * and no values at all, whatever aliases its clauses use, because the
   * names and values sent are those of the request's own allocator, which
   * only the first condition loop fills.
   */
  lemma NoConditionSendsNoAliases(ex: Sections, st: Vars, write: Writer, keys: seq<PartitionKey>, toAttr: Value -> AttributeValue)
    requires |ex| > 0
    ensures var r := ExecuteRequest(ex, [], st, write, keys, toAttr).0;
      r.Success? && r.value.attributeNames.None? && r.value.attributeValues.None? && r.value.conditionExpression.None?
  {
  }

  // ---------------------------------------------------------------------
  // The builder object

  class ArrowStoreUpdateBuilder {
    const recordType: TypeName
    /** _recordId.GetPartitionKeys() */
    const partitionKeys: seq<PartitionKey>
    const mapper: DynamoDBMapper
    const host: Host
    const queryVars: QueryVariables
    var expressions: Sections
    var conditions: seq<Node>

    ghost predicate Valid()
      reads this, queryVars
    {
      queryVars.Valid()
    }

    /** The write registry and the record type's write projection. */
    function Target(): RenderTarget
      reads mapper.writeProjections
    {
      RenderTarget(mapper.writeProjections.reg, mapper.GetWriteProjection(recordType))
    }

    constructor (recordType: TypeName, partitionKeys: seq<PartitionKey>, mapper: DynamoDBMapper, host: Host)
      ensures Valid() && fresh(queryVars) && queryVars.State() == Fresh
      ensures expressions == map[] && conditions == []
      ensures this.recordType == recordType && this.partitionKeys == partitionKeys
      ensures this.mapper == mapper && this.host == host
    {
      this.recordType := recordType;
      this.partitionKeys := partitionKeys;
      this.mapper := mapper;
      this.host := host;
      queryVars := new QueryVariables();
      expressions := map[];
      conditions := [];
    }

    /** `_expressions.TryGetValue(section, out list)`, and on a miss a new list stored under the section. */
    method OpenSection(s: Section)
      modifies this
      ensures expressions == Open(old(expressions), s) && conditions == old(conditions)
    {
      if s !in expressions {
        expressions := expressions[s := []];
      }
    }

    /** `list.Add(clause)` on the list of a section that exists. */
    method AddClause(s: Section, clause: string)
      requires s in expressions
      modifies this
      ensures expressions == Append(old(expressions), s, clause) && conditions == old(conditions)
    {
      expressions := expressions[s := expressions[s] + [clause]];
    }

    /** GetWriteProjection(typeof(TRecord)), then ToExpression(propertyAccessor, _queryVars, writeProjection). */
    method WriteExpression(propertyAccessor: Node) returns (r: Result<string>)
      requires Valid()
      modifies queryVars
      ensures Valid()
      ensures (r, queryVars.State()) == Transpiled(Target())(propertyAccessor, old(queryVars.State()))
    {
      var writeProjection := mapper.GetWriteProjection(recordType);
      r := ToExpression(Some(propertyAccessor), queryVars, mapper.writeProjections.reg, writeProjection);
    }

    /** Set(memberAccessor, value), with TMember as `memberType`. */
    method Set(memberAccessor: Expr, value: Value, memberType: TypeName) returns (r: Result<()>)
      requires Valid()
      modifies this, queryVars
      ensures Valid() && conditions == old(conditions)
      ensures Outcome(r, expressions, queryVars.State())
              == SetOp(old(expressions), old(queryVars.State()), Transpiled(Target()), EnsurePropertyName(host, memberAccessor), value, memberType, false)
    {
      r := SetValue(EnsurePropertyName(host, memberAccessor), value, memberType, false);
    }

    /** SetWhenNotExists(memberAccessor, value), with TMember as `memberType`. */
    method SetWhenNotExists(memberAccessor: Expr, value: Value, memberType: TypeName) returns (r: Result<()>)
      requires Valid()
      modifies this, queryVars
      ensures Valid() && conditions == old(conditions)
      ensures Outcome(r, expressions, queryVars.State())
              == SetOp(old(expressions), old(queryVars.State()), Transpiled(Target()), EnsurePropertyName(host, memberAccessor), value, memberType, true)
    {
      r := SetValue(EnsurePropertyName(host, memberAccessor), value, memberType, true);
    }

    /** The body Set and SetWhenNotExists share, from the parsed accessor on; they differ in the clause only. */
    method SetValue(propertyAccessor: Result<Node>, value: Value, memberType: TypeName, whenNotExists: bool) returns (r: Result<()>)
      requires Valid()
      modifies this, queryVars
      ensures Valid() && conditions == old(conditions)
      ensures Outcome(r, expressions, queryVars.State())
              == SetOp(old(expressions), old(queryVars.State()), Transpiled(Target()), propertyAccessor, value, memberType, whenNotExists)
    {
      if propertyAccessor.Failure? {
        return Failure(propertyAccessor.error);
      }
      OpenSection(SetSection);
      r := AddSet(propertyAccessor.value, value, memberType, whenNotExists);
    }

    /** Set once the SET list exists: alias the value, write the path, add the clause. */
    method AddSet(propertyAccessor: Node, value: Value, memberType: TypeName, whenNotExists: bool) returns (r: Result<()>)
      requires Valid() && SetSection in expressions
      modifies this, queryVars
      ensures Valid() && conditions == old(conditions)
      ensures Outcome(r, expressions, queryVars.State())
              == SetWrite(old(expressions), old(queryVars.State()), Transpiled(Target()), propertyAccessor, value, memberType, whenNotExists)
    {
      var attrValueAlias := queryVars.SetTypedValueAlias(value, memberType);
      var attrPath := WriteExpression(propertyAccessor);
      if attrPath.Failure? {
        return Failure(attrPath.error);
      }
      AddClause(SetSection, SetText(attrPath.value, attrValueAlias, whenNotExists));
      r := Success(());
    }

    /** The four Increase(memberAccessor, value) overloads; the amount carries its type. */
    method Increase(memberAccessor: Expr, amount: Amount) returns (r: Result<()>)
      requires Valid() && IsAmount(amount)
      modifies this, queryVars
      ensures Valid() && conditions == old(conditions)
      ensures Outcome(r, expressions, queryVars.State())
              == IncreaseOp(old(expressions), old(queryVars.State()), Transpiled(Target()), EnsurePropertyName(host, memberAccessor), amount)
    {
      r := IncreaseAmount(EnsurePropertyName(host, memberAccessor), amount);
    }

    /** The body of the Increase overloads, the parsed accessor given. */
    method IncreaseAmount(propertyAccessor: Result<Node>, amount: Amount) returns (r: Result<()>)
      requires Valid() && IsAmount(amount)
      modifies this, queryVars
      ensures Valid() && conditions == old(conditions)
      ensures Outcome(r, expressions, queryVars.State())
              == IncreaseOp(old(expressions), old(queryVars.State()), Transpiled(Target()), propertyAccessor, amount)
    {
      if IsZero(amount) {
        return Failure(ArgumentNull("value"));
      }
      if propertyAccessor.Failure? {
        return Failure(propertyAccessor.error);
      }
      var abs := Abs(amount);
      if abs.Failure? {
        return Failure(abs.error);
      }
      var attrValue := queryVars.SetValueAlias(Comparable(amount.numberType, abs.value));
      r := IncreaseWith(propertyAccessor.value, attrValue, IsPositive(amount));
    }

    /** The private Increase(propertyAccessor, valueAlias, doIncrease). */
    method IncreaseWith(propertyAccessor: Node, valueAlias: string, doIncrease: bool) returns (r: Result<()>)
      requires Valid()
      modifies this, queryVars
      ensures Valid() && conditions == old(conditions)
      ensures Outcome(r, expressions, queryVars.State())
              == IncreaseBy(old(expressions), old(queryVars.State()), Transpiled(Target()), propertyAccessor, valueAlias, doIncrease)
    {
      var writeExpr := WriteExpression(propertyAccessor);
      if writeExpr.Failure? {
        return Failure(writeExpr.error);
      }
      var attrAccessor := queryVars.SetAttributeNameAlias(writeExpr.value);
      OpenSection(SetSection);
      AddClause(SetSection, IncreaseClause(attrAccessor, valueAlias, doIncrease));
      r := Success(());
    }

    /** AppendToList(memberAccessor, value), `count` being value.Count. */
    method AppendToList(memberAccessor: Expr, collection: Value, count: nat) returns (r: Result<()>)
      requires Valid()
      modifies this, queryVars
      ensures Valid() && conditions == old(conditions)
      ensures Outcome(r, expressions, queryVars.State())
              == ListOp(AppendList, old(expressions), old(queryVars.State()), Transpiled(Target()), EnsurePropertyName(host, memberAccessor), collection, count)
    {
      r := UpdateList(AppendList, EnsurePropertyName(host, memberAccessor), collection, count);
    }

    /** PrependToList(memberAccessor, value), `count` being value.Count. */
    method PrependToList(memberAccessor: Expr, collection: Value, count: nat) returns (r: Result<()>)
      requires Valid()
      modifies this, queryVars
      ensures Valid() && conditions == old(conditions)
      ensures Outcome(r, expressions, queryVars.State())
              == ListOp(PrependList, old(expressions), old(queryVars.State()), Transpiled(Target()), EnsurePropertyName(host, memberAccessor), collection, count)
    {
      r := UpdateList(PrependList, EnsurePropertyName(host, memberAccessor), collection, count);
    }

    /** DeleteFromList(memberAccessor, value), `count` being value.Count. */
    method DeleteFromList(memberAccessor: Expr, collection: Value, count: nat) returns (r: Result<()>)
      requires Valid()
      modifies this, queryVars
      ensures Valid() && conditions == old(conditions)
      ensures Outcome(r, expressions, queryVars.State())
              == ListOp(DeleteList, old(expressions), old(queryVars.State()), Transpiled(Target()), EnsurePropertyName(host, memberAccessor), collection, count)
    {
      r := UpdateList(DeleteList, EnsurePropertyName(host, memberAccessor), collection, count);
    }

    /** The body the three list updates share, the parsed accessor given; they differ in the section and the clause. */
    method UpdateList(kind: ListUpdate, propertyAccessor: Result<Node>, collection: Value, count: nat) returns (r: Result<()>)
      requires Valid()
      modifies this, queryVars
      ensures Valid() && conditions == old(conditions)
      ensures Outcome(r, expressions, queryVars.State())
              == ListOp(kind, old(expressions), old(queryVars.State()), Transpiled(Target()), propertyAccessor, collection, count)
    {
      if collection.Null? {
        return Failure(ArgumentNull("value"));
      }
      if count == 0 {
        return Success(());
      }
      OpenSection(ListSection(kind));
      if propertyAccessor.Failure? {
        return Failure(propertyAccessor.error);
      }
      r := AddToList(kind, propertyAccessor.value, collection);
    }

    /** A list update once its list exists: alias the collection, write the path, add the clause. */
    method AddToList(kind: ListUpdate, propertyAccessor: Node, collection: Value) returns (r: Result<()>)
      requires Valid() && ListSection(kind) in expressions
      modifies this, queryVars
      ensures Valid() && conditions == old(conditions)
      ensures Outcome(r, expressions, queryVars.State())
              == ListWrite(kind, old(expressions), old(queryVars.State()), Transpiled(Target()), propertyAccessor, collection)
    {
      var attrValue := queryVars.SetValueAlias(collection);
      var attrPath := WriteExpression(propertyAccessor);
      if attrPath.Failure? {
        return Failure(attrPath.error);
      }
      AddClause(ListSection(kind), ListClause(kind, attrPath.value, attrValue));
      r := Success(());
    }

    /** Remove(memberAccessor) */
    method Remove(memberAccessor: Expr) returns (r: Result<()>)
      requires Valid()
      modifies this, queryVars
      ensures Valid() && conditions == old(conditions)
      ensures Outcome(r, expressions, queryVars.State())
              == RemoveOp(old(expressions), old(queryVars.State()), Transpiled(Target()), EnsurePropertyName(host, memberAccessor))
    {
      r := RemoveMember(EnsurePropertyName(host, memberAccessor));
    }

    /** The body of Remove, the parsed accessor given. */
    method RemoveMember(propertyAccessor: Result<Node>) returns (r: Result<()>)
      requires Valid()
      modifies this, queryVars
      ensures Valid() && conditions == old(conditions)
      ensures Outcome(r, expressions, queryVars.State())
              == RemoveOp(old(expressions), old(queryVars.State()), Transpiled(Target()), propertyAccessor)
    {
      OpenSection(RemoveSection);
      if propertyAccessor.Failure? {
        return Failure(propertyAccessor.error);
      }
      var attrPath := WriteExpression(propertyAccessor.value);
      if attrPath.Failure? {
        return Failure(attrPath.error);
      }
      AddClause(RemoveSection, attrPath.value);
      r := Success(());
    }

    /** When(conditionPredicate) */
    method When(conditionPredicate: Option<Expr>) returns (r: Result<()>)
      modifies this
      ensures expressions == old(expressions)
      ensures (r, conditions) == AddParsed(old(conditions), host, conditionPredicate, "conditionPredicate")
    {
      if conditionPredicate.None? {
        return Failure(ArgumentNull("conditionPredicate"));
      }
      var node := Tokenize(host, conditionPredicate.value);
      if node.Failure? {
        return Failure(node.error);
      }
      conditions := conditions + [node.value];
      r := Success(());
    }

    /**
     * ExecuteAsync up to the call to the service: the request it would
     * send, `toAttr` being the mapper's value conversion.
     */
    method Execute(toAttr: Value -> AttributeValue) returns (r: Result<UpdateRequest>)
      requires Valid()
      modifies this, queryVars
      ensures Valid() && expressions == old(expressions)
      ensures (r, conditions, queryVars.State())
              == ExecuteRequest(old(expressions), old(conditions), old(queryVars.State()), Transpiled(Target()), partitionKeys, toAttr)
    {
      if |expressions| == 0 {
        return Failure(InvalidOperation(NothingToUpdate));
      }
      var key := mapper.MapToKeyAttributes(partitionKeys, queryVars);
      r := ExecuteKeyed(key, toAttr);
    }

    /** ExecuteAsync from the first condition loop on, `key` being the mapped key. */
    method ExecuteKeyed(key: AttrMap, toAttr: Value -> AttributeValue) returns (r: Result<UpdateRequest>)
      requires Valid()
      modifies this, queryVars
      ensures Valid() && expressions == old(expressions) && (r, conditions, queryVars.State())
              == KeyedRequest(old(expressions), old(conditions), key, old(queryVars.State()), Transpiled(Target()), toAttr)
    {
      var hasConditions := |conditions| != 0;
      var writeProjection := mapper.GetWriteProjection(recordType);
      var first, wrapped, localVars := RenderConditions(conditions, mapper.writeProjections.reg, writeProjection);
      if first.Failure? {
        conditions := wrapped;
        return Failure(first.error);
      }
      r := ExecuteAgain(hasConditions, wrapped, key, localVars, toAttr);
    }

    /** ExecuteAsync from the second condition loop on, `local` being the first loop's allocator. */
    method ExecuteAgain(hasConditions: bool, wrapped: seq<Node>, key: AttrMap, local: QueryVariables, toAttr: Value -> AttributeValue)
      returns (r: Result<UpdateRequest>)
      requires Valid() && local != queryVars
      modifies this, queryVars
      ensures Valid() && expressions == old(expressions) && conditions == wrapped
      ensures (r, queryVars.State())
              == RequestAgain(expressions, hasConditions, wrapped, key, local.State(), old(queryVars.State()),
                              Transpiled(Target()), toAttr)
    {
      conditions := wrapped;
      var writeProjection := mapper.GetWriteProjection(recordType);
      var second := RenderConditionsAgain(conditions, queryVars, mapper.writeProjections.reg, writeProjection);
      if second.Failure? {
        return Failure(second.error);
      }
      var request := BuildRequest(key, hasConditions, second.value, local, toAttr);
      r := Success(request);
    }

    /**
     * The request ExecuteAsync sends: the condition texts joined with
     * " and " when there are conditions, the update expression, and the
     * names and values of `local` when it has any.
     */
    method BuildRequest(key: AttrMap, hasConditions: bool, texts: seq<string>, local: QueryVariables,
                        toAttr: Value -> AttributeValue) returns (request: UpdateRequest)
      ensures request == Request(expressions, hasConditions, key, texts, local.State(), toAttr)
    {
      var conditionExpression: Option<string> := None;
      if hasConditions {
        conditionExpression := Some(Join(texts, " and "));
      }
      var updateExpression := UpdateExpression();
      var names: Option<map<string, string>> := None;
      if |local.attributeNames| != 0 {
        names := Some(local.attributeNames);
      }
      var values: Option<AttrMap> := None;
      if local.HasAttributeValues() {
        var attributeValues := local.GetAttributeValues(toAttr);
        values := Some(attributeValues);
      }
      request := UpdateRequest(key, conditionExpression, updateExpression, names, values);
    }

    /** The update expression: each section present, in the order SET, REMOVE, ADD, DELETE, joined with spaces. */
    method UpdateExpression() returns (r: string)
      ensures r == Join(SectionTexts(expressions, SectionOrder), " ")
    {
      var updateExpr: seq<string> := [];
      if SetSection in expressions {
        updateExpr := updateExpr + ["SET " + Join(expressions[SetSection], ", ")];
        assert "SET " + Join(expressions[SetSection], ", ") == SectionText(expressions, SetSection);
      }
      if RemoveSection in expressions {
        updateExpr := updateExpr + ["REMOVE " + Join(expressions[RemoveSection], ", ")];
        assert "REMOVE " + Join(expressions[RemoveSection], ", ") == SectionText(expressions, RemoveSection);
      }
      if AddSection in expressions {
        updateExpr := updateExpr + ["ADD " + Join(expressions[AddSection], ", ")];
        assert "ADD " + Join(expressions[AddSection], ", ") == SectionText(expressions, AddSection);
      }
      if DeleteSection in expressions {
        updateExpr := updateExpr + ["DELETE " + Join(expressions[DeleteSection], ", ")];
        assert "DELETE " + Join(expressions[DeleteSection], ", ") == SectionText(expressions, DeleteSection);
      }
      SectionTextsUnrolled(expressions);
      assert updateExpr == SectionTexts(expressions, SectionOrder);
      r := Join(updateExpr, " ");
    }

    /** The first condition loop of ExecuteAsync (lines 243-258), collecting the conditionExpr texts. */
    method RenderConditions(conditions: seq<Node>, reg: Registry, proj: Option<Projection>)
      returns (r: Result<seq<string>>, wrapped: seq<Node>, vars: QueryVariables)
      ensures fresh(vars) && vars.Valid()
      ensures var first := FirstPass(conditions, 0, [], Transpiled(RenderTarget(reg, proj)), Fresh);
        r == first.0 && wrapped == WrapPrefix(conditions, first.1) && vars.State() == first.2
    {
      vars := new QueryVariables();
      ghost var write := Transpiled(RenderTarget(reg, proj));
      ghost var outcome := FirstPass(conditions, 0, [], write, vars.State());
      var conditionExpr: seq<string> := [];
      wrapped := conditions;
      assert wrapped == WrapPrefix(conditions, 0);
      for i := 0 to |conditions|
        invariant vars.Valid() && |conditionExpr| == i
        invariant wrapped == WrapPrefix(conditions, i)
        invariant outcome == FirstPass(conditions, i, conditionExpr, write, vars.State())
      {
        ghost var before := vars.State();
        FirstPassStep(conditions, i, conditionExpr, write, before);
        WrapPrefixStep(conditions, i);
        if !wrapped[i].InBraces? && |wrapped| > 1 {
          wrapped := wrapped[i := InBraces(wrapped[i])];
        }
        var text := ToExpression(Some(wrapped[i]), vars, reg, proj);
        assert (text, vars.State()) == write(WrapOnce(conditions[i], |conditions| > 1), before);
        if text.Failure? {
          return Failure(text.error), wrapped, vars;
        }
        conditionExpr := conditionExpr + [text.value];
      }
      r := Success(conditionExpr);
    }

    /** The second condition loop of ExecuteAsync (lines 283-293), collecting the conditionExp texts. */
    method RenderConditionsAgain(conditions: seq<Node>, vars: QueryVariables, reg: Registry, proj: Option<Projection>)
      returns (r: Result<seq<string>>)
      requires vars.Valid()
      modifies vars
      ensures vars.Valid()
      ensures (r, vars.State()) == SecondPass(conditions, 0, [], Transpiled(RenderTarget(reg, proj)), old(vars.State()))
    {
      ghost var write := Transpiled(RenderTarget(reg, proj));
      ghost var outcome := SecondPass(conditions, 0, [], write, vars.State());
      var conditionExp: seq<string> := [];
      for i := 0 to |conditions|
        invariant vars.Valid() && |conditionExp| == i
        invariant outcome == SecondPass(conditions, i, conditionExp, write, vars.State())
      {
        ghost var before := vars.State();
        SecondPassStep(conditions, i, conditionExp, write, before);
        var node := WrapAgain(conditions[i], |conditions| > 1);
        var text := ToExpression(Some(node), vars, reg, proj);
        assert (text, vars.State()) == write(WrapAgain(conditions[i], |conditions| > 1), before);
        if text.Failure? {
          return Failure(text.error);
        }
        conditionExp := conditionExp + [text.value];
      }
      r := Success(conditionExp);
    }
  }
}
