/**
 * The query builder (DynamoDBQueryBuilder): filter predicates collected as
 * nodes, the paging settings set by the fluent setters, the Query request
 * assembled on one allocator, and the paging loop that collects records
 * until the service has nothing more or `take` records were collected.
 *
 * The service is given as a sequence of pages: the n-th call to QueryAsync
 * answers with the n-th page.
 */
module QueryBuilders {
  import opened Common
  import opened Values
  import opened Nodes
  import opened Parser
  import opened Projections
  import opened QueryVars
  import opened PartitionKeys
  import opened Transpiler
  import opened ExpressionTranspiler
  import opened Mapper
  import opened Writers

  /** IArrowStoreIndex: the index name (None for the table itself) and its partition keys. */
  datatype QueryIndex = QueryIndex(indexName: Option<string>, partitionKeys: seq<PartitionKey>)

  /** The fields of the Query request that the builder sets. */
  datatype QueryRequest = QueryRequest(
    tableName: string,
    indexName: Option<string>,
    consistentRead: bool,
    scanIndexForward: bool,
    keyConditionExpression: string,
    exclusiveStartKey: Option<AttrMap>,
    limit: Option<int>,
    filterExpression: Option<string>,
    projectionExpression: Option<string>,
    attributeNames: Option<map<string, string>>,
    attributeValues: Option<AttrMap>)

  /** One page of a Query response: its items and the key to go on from, if any. */
  datatype QueryResponse = QueryResponse(items: seq<AttrMap>, lastEvaluatedKey: Option<AttrMap>)

  /** ArrowStoreListResult: the records and the encrypted cursor to the next page. */
  datatype ListResult<R> = ListResult(items: seq<R>, lastEvaluatedKey: Option<string>)

  /** _exclusiveStartKey, _limit, _take and _scanIndexFwd, as the setters leave them. */
  datatype Paging = Paging(exclusiveStartKey: Option<string>, limit: int, take: int, scanIndexFwd: bool)

  // ---------------------------------------------------------------------
  // Where

  /** A chain of Where calls, the first failure ending it. */
  function WhereAll(predicates: seq<Node>, host: Host, calls: seq<Option<Expr>>): (Result<()>, seq<Node>)
    decreases |calls|
  {
    if |calls| == 0 then (Success(()), predicates)
    else
      var first := AddParsed(predicates, host, calls[0], "predicate");
      if first.0.Failure? then first else WhereAll(first.1, host, calls[1..])
  }

  /** Whether every expression of a chain of Where calls is present and parses. */
  predicate AllParse(host: Host, calls: seq<Option<Expr>>)
  {
    forall k :: 0 <= k < |calls| ==> calls[k].Some? && Tokenize(host, calls[k].value).Success?
  }

  /**
   * Predicates are kept in call order: a chain of Where calls whose
   * expressions all parse succeeds and adds their nodes in the order of the
   * calls; one that does not fails.
   */
  lemma {:induction false} WhereKeepsOrder(predicates: seq<Node>, host: Host, calls: seq<Option<Expr>>)
    ensures var r := WhereAll(predicates, host, calls);
      && (r.0.Success? <==> AllParse(host, calls))
      && (r.0.Success? ==>
            && |r.1| == |predicates| + |calls| && r.1[..|predicates|] == predicates
            && (forall k :: 0 <= k < |calls| ==> r.1[|predicates| + k] == Tokenize(host, calls[k].value).value))
    decreases |calls|
  {
    if |calls| > 0 {
      var first := AddParsed(predicates, host, calls[0], "predicate");
      if first.0.Success? {
        WhereKeepsOrder(first.1, host, calls[1..]);
        var r := WhereAll(first.1, host, calls[1..]);
        assert AllParse(host, calls) <==> AllParse(host, calls[1..]) by {
          assert forall k :: 1 <= k < |calls| ==> calls[k] == calls[1..][k - 1];
        }
        if r.0.Success? {
          forall k | 0 <= k < |calls|
            ensures r.1[|predicates| + k] == Tokenize(host, calls[k].value).value
          {
            if k > 0 {
              assert r.1[|first.1| + (k - 1)] == Tokenize(host, calls[1..][k - 1].value).value;
            }
          }
          assert r.1[..|predicates|] == r.1[..|first.1|][..|predicates|];
        }
      } else {
        assert !(calls[0].Some? && Tokenize(host, calls[0].value).Success?);
      }
    }
  }

  // ---------------------------------------------------------------------
  // The request (DoListAsync up to the first call to the service)

  /** The filter loop (lines 105-115): several predicates are brace-wrapped unless braced already. */
  function FilterPass(predicates: seq<Node>, i: nat, texts: seq<string>, write: Writer, st: Vars): (Result<seq<string>>, Vars)
    requires i <= |predicates|
    decreases |predicates| - i
  {
    if i == |predicates| then (Success(texts), st)
    else
      var written := write(WrapOnce(predicates[i], |predicates| > 1), st);
      if written.0.Failure? then (Failure(written.0.error), written.1)
      else FilterPass(predicates, i + 1, texts + [written.0.value], write, written.1)
  }

  /** One turn of the filter loop. */
  lemma FilterPassStep(predicates: seq<Node>, i: nat, texts: seq<string>, write: Writer, st: Vars)
    requires i < |predicates|
    ensures var written := write(WrapOnce(predicates[i], |predicates| > 1), st);
      FilterPass(predicates, i, texts, write, st) ==
        if written.0.Failure? then (Failure(written.0.error), written.1)
        else FilterPass(predicates, i + 1, texts + [written.0.value], write, written.1)
  {
  }

  /** ExclusiveStartKey: no start key for a null or empty cursor, else the decoded one. */
  function StartKey(exclusiveStartKey: Option<string>, decryptionKey: string, c: Cipher): Result<Option<AttrMap>>
  {
    if NullOrEmpty(exclusiveStartKey) then Success(None) else DecodeCursor(exclusiveStartKey, decryptionKey, c)
  }

  /** The request DoListAsync sends first, or the error it stops with. */
  function RequestFor(index: QueryIndex, predicates: seq<Node>, p: Paging, consistent: bool, tableName: string,
                      decryptionKey: string, c: Cipher, t: RenderTarget, toAttr: Value -> AttributeValue): Result<QueryRequest>
  {
    var key := KeyConditionExpression(index.partitionKeys, Fresh);
    if key.0.Failure? then Failure(key.0.error)
    else
      var start := StartKey(p.exclusiveStartKey, decryptionKey, c);
      if start.Failure? then Failure(start.error)
      else
        FilteredRequest(BaseRequest(index, p, consistent, tableName, key.0.value, start.value), predicates, t, key.1, toAttr)
  }

  /** The request before the filter loop: table, index, paging, key condition and start key (lines 92-102). */
  function BaseRequest(index: QueryIndex, p: Paging, consistent: bool, tableName: string, keyCondition: string,
                       start: Option<AttrMap>): QueryRequest
  {
    QueryRequest(tableName, index.indexName, consistent, p.scanIndexFwd, keyCondition, start,
                 if p.limit > 0 then Some(p.limit) else None, None, None, None, None)
  }

  /** The request from the filter loop on, `st` being the allocator after the key condition. */
  function FilteredRequest(base: QueryRequest, predicates: seq<Node>, t: RenderTarget, st: Vars,
                           toAttr: Value -> AttributeValue): Result<QueryRequest>
  {
    var filter := FilterPass(predicates, 0, [], Transpiled(t), st);
    if filter.0.Failure? then Failure(filter.0.error)
    else
      var projection := ProjectionExpression(t.reg, t.proj, filter.1);
      Success(Finished(base, filter.0.value, projection.0, projection.1, toAttr))
  }

  /** The filter, the projection, and the names and values of the allocator when it has any (lines 117-131). */
  function Finished(base: QueryRequest, filters: seq<string>, projection: Option<string>, vars: Vars,
                    toAttr: Value -> AttributeValue): QueryRequest
  {
    base.(filterExpression := if |filters| != 0 then Some(Join(filters, " and ")) else None,
          projectionExpression := projection,
          attributeNames := if |vars.attributeNames| != 0 then Some(vars.attributeNames) else None,
          attributeValues := if vars.valuesCounter > 0 then Some(AttributeValues(vars, toAttr)) else None)
  }

  // ---------------------------------------------------------------------
  // The filter loop

  /** The filter loop gives one text per predicate when it succeeds. */
  lemma {:induction false} FilterPassLength(predicates: seq<Node>, i: nat, texts: seq<string>, write: Writer, st: Vars)
    requires i <= |predicates|
    ensures var filter := FilterPass(predicates, i, texts, write, st);
      filter.0.Success? ==> |filter.0.value| == |texts| + |predicates| - i
    decreases |predicates| - i
  {
    if i < |predicates| {
      var written := write(WrapOnce(predicates[i], |predicates| > 1), st);
      FilterPassStep(predicates, i, texts, write, st);
      if written.0.Success? {
        FilterPassLength(predicates, i + 1, texts + [written.0.value], write, written.1);
      }
    }
  }

  /** The filter loop keeps the allocator's invariant and every alias, whether or not it succeeds. */
  lemma {:induction false} FilterPassKeeps(predicates: seq<Node>, i: nat, texts: seq<string>, write: Writer, st: Vars)
    requires i <= |predicates| && Inv(st) && KeepsAliases(write)
    ensures var filter := FilterPass(predicates, i, texts, write, st);
      Inv(filter.1) && Extends(st, filter.1)
    decreases |predicates| - i
  {
    if i < |predicates| {
      var written := write(WrapOnce(predicates[i], |predicates| > 1), st);
      FilterPassStep(predicates, i, texts, write, st);
      if written.0.Success? {
        FilterPassKeeps(predicates, i + 1, texts + [written.0.value], write, written.1);
        ExtendsTransitive(st, written.1, FilterPass(predicates, i + 1, texts + [written.0.value], write, written.1).1);
      }
    }
  }

  /** The filter loop succeeds exactly when every predicate left can be written. */
  lemma {:induction false} FilterPassSucceeds(predicates: seq<Node>, i: nat, texts: seq<string>, write: Writer,
                                              t: RenderTarget, st: Vars)
    requires i <= |predicates| && Inv(st) && KeepsAliases(write) && WritesRenderable(write, t)
    ensures FilterPass(predicates, i, texts, write, st).0.Success?
            <==> forall k :: i <= k < |predicates| ==> Renderable(predicates[k], t.reg, t.proj)
    decreases |predicates| - i
  {
    if i < |predicates| {
      var written := write(WrapOnce(predicates[i], |predicates| > 1), st);
      FilterPassStep(predicates, i, texts, write, st);
      assert Renderable(WrapOnce(predicates[i], |predicates| > 1), t.reg, t.proj) == Renderable(predicates[i], t.reg, t.proj);
      assert written.0.Success? <==> Renderable(predicates[i], t.reg, t.proj);
      assert (forall k :: i <= k < |predicates| ==> Renderable(predicates[k], t.reg, t.proj))
             <==> Renderable(predicates[i], t.reg, t.proj)
                  && forall k :: i + 1 <= k < |predicates| ==> Renderable(predicates[k], t.reg, t.proj);
      if written.0.Success? {
        FilterPassSucceeds(predicates, i + 1, texts + [written.0.value], write, t, written.1);
      }
    }
  }

  /** With several predicates, each one is braced before it is written, so every filter text is in parentheses. */
  lemma {:induction false} FilterPassParenthesized(predicates: seq<Node>, i: nat, texts: seq<string>, write: Writer, st: Vars)
    requires i <= |predicates| && |predicates| > 1 && BracesParenthesized(write)
    requires AllParenthesized(texts)
    ensures var filter := FilterPass(predicates, i, texts, write, st);
      filter.0.Success? ==> AllParenthesized(filter.0.value)
    decreases |predicates| - i
  {
    if i < |predicates| {
      var braced := WrapOnce(predicates[i], true);
      assert braced == InBraces(braced.body);
      var written := write(braced, st);
      FilterPassStep(predicates, i, texts, write, st);
      if written.0.Success? {
        AllParenthesizedSnoc(texts, written.0.value);
        FilterPassParenthesized(predicates, i + 1, texts + [written.0.value], write, written.1);
      }
    }
  }

  /** A single predicate is written as it is, without braces. */
  lemma SinglePredicateUnwrapped(p: Node, write: Writer, st: Vars)
    ensures var written := write(p, st);
      FilterPass([p], 0, [], write, st) ==
        if written.0.Failure? then (Failure(written.0.error), written.1) else (Success([written.0.value]), written.1)
  {
    assert WrapOnce(p, false) == p;
    FilterPassStep([p], 0, [], write, st);
    var written := write(p, st);
    if written.0.Success? {
      assert [] + [written.0.value] == [written.0.value];
    }
  }

  // ---------------------------------------------------------------------
  // What the request says

  /** The fields set from the builder and the index, before any filter. */
  ghost predicate Settled(req: QueryRequest, index: QueryIndex, p: Paging, consistent: bool, tableName: string,
                          decryptionKey: string, c: Cipher)
  {
    && req.tableName == tableName && req.indexName == index.indexName
    && req.consistentRead == consistent && req.scanIndexForward == p.scanIndexFwd
    && Success(req.keyConditionExpression) == KeyConditionExpression(index.partitionKeys, Fresh).0
    && Success(req.exclusiveStartKey) == StartKey(p.exclusiveStartKey, decryptionKey, c)
    && (NullOrEmpty(p.exclusiveStartKey) ==> req.exclusiveStartKey.None?)
    && req.limit == (if p.limit > 0 then Some(p.limit) else None)
  }

  /**
   * A request is sent only when the key condition and the start key could
   * be made; it carries the table, the index, the consistency and scan
   * direction asked for, the key condition, the decoded start key (none for
   * a null or empty cursor), and a limit only when the limit is positive.
   */
  lemma RequestSettled(index: QueryIndex, predicates: seq<Node>, p: Paging, consistent: bool, tableName: string,
                       decryptionKey: string, c: Cipher, t: RenderTarget, toAttr: Value -> AttributeValue)
    ensures var r := RequestFor(index, predicates, p, consistent, tableName, decryptionKey, c, t, toAttr);
      r.Success? ==> Settled(r.value, index, p, consistent, tableName, decryptionKey, c)
  {
  }

  /** A key operator the key condition cannot express makes DoListAsync fail before any service call. */
  lemma UnsupportedKeyRefused(index: QueryIndex, predicates: seq<Node>, p: Paging, consistent: bool, tableName: string,
                              decryptionKey: string, c: Cipher, t: RenderTarget, toAttr: Value -> AttributeValue, k: nat)
    requires k < |index.partitionKeys| && !KeyOperator(index.partitionKeys[k].operator)
    ensures RequestFor(index, predicates, p, consistent, tableName, decryptionKey, c, t, toAttr).Failure?
  {
    FreshKeyCondition(index.partitionKeys);
  }

  /**
   * What DoListAsync promises of the filter it sends for `n` predicates:
   * none without predicates, otherwise one text per predicate joined with
   * " and ", each in parentheses when there are several.
   */
  ghost predicate SentFilter(filter: Option<string>, n: nat)
  {
    && (filter.Some? <==> n > 0)
    && (n > 0 ==> exists texts: seq<string> ::
          && |texts| == n
          && filter == Some(Join(texts, " and "))
          && (n > 1 ==> AllParenthesized(texts)))
  }

  /**
   * From the filter loop on, with a sound writer: the request is made
   * exactly when every predicate can be written; its filter is as
   * SentFilter says; and the allocator whose names and values are sent
   * holds every alias the key condition and the filters handed out.
   */
  lemma FilteredRequestSpec(base: QueryRequest, predicates: seq<Node>, t: RenderTarget, st: Vars,
                            toAttr: Value -> AttributeValue)
    requires Inv(st) && Sound(Transpiled(t), t)
    ensures var r := FilteredRequest(base, predicates, t, st, toAttr);
      && (r.Success? <==> forall k :: 0 <= k < |predicates| ==> Renderable(predicates[k], t.reg, t.proj))
      && (r.Success? ==> SentFilter(r.value.filterExpression, |predicates|))
  {
    var write := Transpiled(t);
    FilterPassSucceeds(predicates, 0, [], write, t, st);
    FilterPassLength(predicates, 0, [], write, st);
    var filter := FilterPass(predicates, 0, [], write, st);
    if filter.0.Success? {
      if |predicates| > 1 {
        FilterPassParenthesized(predicates, 0, [], write, st);
      }
      assert SentFilter(Finished(base, filter.0.value, None, filter.1, toAttr).filterExpression, |predicates|);
    }
  }

  /** The allocator the request's names come from: after the key condition, the filters and the projection, in that order. */
  function SharedVars(keys: seq<PartitionKey>, predicates: seq<Node>, t: RenderTarget): (st: Vars)
  {
    var filter := FilterPass(predicates, 0, [], Transpiled(t), KeyConditionExpression(keys, Fresh).1);
    ProjectionExpression(t.reg, t.proj, filter.1).1
  }

  /**
   * The key condition, the filters and the projection share one allocator,
   * filled in that order: it keeps its invariant, and every alias the key
   * condition gave and every alias the filters gave is still there when
   * the names and values are sent.
   */
  lemma SharedVarsKeep(keys: seq<PartitionKey>, predicates: seq<Node>, t: RenderTarget)
    requires KeepsAliases(Transpiled(t))
    ensures var keyed := KeyConditionExpression(keys, Fresh).1;
      var filtered := FilterPass(predicates, 0, [], Transpiled(t), keyed).1;
      && Inv(SharedVars(keys, predicates, t))
      && Extends(keyed, SharedVars(keys, predicates, t))
      && Extends(filtered, SharedVars(keys, predicates, t))
  {
    var keyed := KeyConditionExpression(keys, Fresh).1;
    FreshKeyCondition(keys);
    FilterPassKeeps(predicates, 0, [], Transpiled(t), keyed);
    var filtered := FilterPass(predicates, 0, [], Transpiled(t), keyed).1;
    ProjectionKeeps(t.reg, t.proj, filtered);
    ExtendsTransitive(keyed, filtered, SharedVars(keys, predicates, t));
  }

  /** The names and values sent are those of the shared allocator. */
  lemma RequestSendsShared(index: QueryIndex, predicates: seq<Node>, p: Paging, consistent: bool, tableName: string,
                           decryptionKey: string, c: Cipher, t: RenderTarget, toAttr: Value -> AttributeValue)
    ensures var r := RequestFor(index, predicates, p, consistent, tableName, decryptionKey, c, t, toAttr);
      var vars := SharedVars(index.partitionKeys, predicates, t);
      r.Success? ==>
        && r.value.attributeNames == (if |vars.attributeNames| != 0 then Some(vars.attributeNames) else None)
        && r.value.attributeValues == (if vars.valuesCounter > 0 then Some(AttributeValues(vars, toAttr)) else None)
  {
  }

  /** Every attribute-name alias the key condition handed out is among the names sent, with its name. */
  lemma KeyAliasesSent(index: QueryIndex, predicates: seq<Node>, p: Paging, consistent: bool, tableName: string,
                       decryptionKey: string, c: Cipher, t: RenderTarget, toAttr: Value -> AttributeValue)
    requires KeepsAliases(Transpiled(t))
    ensures var r := RequestFor(index, predicates, p, consistent, tableName, decryptionKey, c, t, toAttr);
      var keyed := KeyConditionExpression(index.partitionKeys, Fresh).1;
      r.Success? && |keyed.attributeNames| != 0 ==>
        && r.value.attributeNames.Some?
        && forall a :: a in keyed.attributeNames ==>
             a in r.value.attributeNames.value && r.value.attributeNames.value[a] == keyed.attributeNames[a]
  {
    SharedVarsKeep(index.partitionKeys, predicates, t);
    RequestSendsShared(index, predicates, p, consistent, tableName, decryptionKey, c, t, toAttr);
    var keyed := KeyConditionExpression(index.partitionKeys, Fresh).1;
    var vars := SharedVars(index.partitionKeys, predicates, t);
    if |keyed.attributeNames| != 0 {
      var a :| a in keyed.attributeNames;
      assert a in vars.attributeNames;
    }
  }

  /**
   * With supported key operators, a start key that decodes and predicates
   * that can all be written, a request is made, and its filter is as
   * SentFilter says.
   */
  lemma RequestMade(index: QueryIndex, predicates: seq<Node>, p: Paging, consistent: bool, tableName: string,
                    decryptionKey: string, c: Cipher, t: RenderTarget, toAttr: Value -> AttributeValue)
    requires forall k :: 0 <= k < |index.partitionKeys| ==> KeyOperator(index.partitionKeys[k].operator)
    requires StartKey(p.exclusiveStartKey, decryptionKey, c).Success?
    requires forall k :: 0 <= k < |predicates| ==> Renderable(predicates[k], t.reg, t.proj)
    ensures var r := RequestFor(index, predicates, p, consistent, tableName, decryptionKey, c, t, toAttr);
      r.Success? && SentFilter(r.value.filterExpression, |predicates|)
  {
    FreshKeyCondition(index.partitionKeys);
    var key := KeyConditionExpression(index.partitionKeys, Fresh);
    var base := BaseRequest(index, p, consistent, tableName, key.0.value, StartKey(p.exclusiveStartKey, decryptionKey, c).value);
    KeyedFilterSent(index.partitionKeys, base, predicates, t, toAttr);
  }

  /** The filter pass that follows the key condition sends every predicate. */
  lemma KeyedFilterSent(keys: seq<PartitionKey>, base: QueryRequest, predicates: seq<Node>, t: RenderTarget,
                        toAttr: Value -> AttributeValue)
    requires forall k :: 0 <= k < |predicates| ==> Renderable(predicates[k], t.reg, t.proj)
    ensures var r := FilteredRequest(base, predicates, t, KeyConditionExpression(keys, Fresh).1, toAttr);
      r.Success? && SentFilter(r.value.filterExpression, |predicates|)
  {
    FreshKeyCondition(keys);
    TranspiledSound(t);
    FilteredRequestSpec(base, predicates, t, KeyConditionExpression(keys, Fresh).1, toAttr);
  }

  // ---------------------------------------------------------------------
  // The paging loop (lines 136-152)

  /** A last evaluated key that is neither null nor empty: the service has more. */
  predicate HasMore(lastEvaluatedKey: Option<AttrMap>)
  {
    lastEvaluatedKey.Some? && |lastEvaluatedKey.value| != 0
  }

  /** The loop condition (line 152), after a page that left `count` records collected. */
  predicate Continues(page: QueryResponse, count: nat, take: int)
  {
    HasMore(page.lastEvaluatedKey) && (take <= 0 || count < take)
  }

  /** The service answers with these pages in turn and has nothing more after the last. */
  predicate Ends(pages: seq<QueryResponse>)
  {
    |pages| > 0 && !HasMore(pages[|pages| - 1].lastEvaluatedKey)
  }

  /** MapFromAttributes over one page's items, in order. */
  function MapItems<R>(items: seq<AttrMap>, fromItem: AttrMap -> R): (r: seq<R>)
    ensures |r| == |items| && forall k :: 0 <= k < |items| ==> r[k] == fromItem(items[k])
  {
    if |items| == 0 then [] else [fromItem(items[0])] + MapItems(items[1..], fromItem)
  }

  /** The records of the first n pages, page after page. */
  function AllItems<R>(pages: seq<QueryResponse>, n: nat, fromItem: AttrMap -> R): seq<R>
    requires n <= |pages|
  {
    if n == 0 then [] else AllItems(pages, n - 1, fromItem) + MapItems(pages[n - 1].items, fromItem)
  }

  /** The first `take` of them when take is positive and there are more, else all of them. */
  function Limited<R>(xs: seq<R>, take: int): seq<R>
  {
    if take > 0 && |xs| > take then xs[..take] else xs
  }

  /** The foreach over one page (lines 142-149): each item mapped and added, stopping once take is reached. */
  function AddItems<R>(page: seq<AttrMap>, items: seq<R>, take: int, fromItem: AttrMap -> R): seq<R>
    decreases |page|
  {
    if |page| == 0 then items
    else
      var items' := items + [fromItem(page[0])];
      if take > 0 && |items'| >= take then items' else AddItems(page[1..], items', take, fromItem)
  }

  /** The records collected after the first n pages. */
  function Collected<R>(pages: seq<QueryResponse>, n: nat, take: int, fromItem: AttrMap -> R): seq<R>
    requires n <= |pages|
  {
    if n == 0 then [] else AddItems(pages[n - 1].items, Collected(pages, n - 1, take, fromItem), take, fromItem)
  }

  /** The page the loop stops after, looking from page i on. */
  function LastPage<R>(pages: seq<QueryResponse>, i: nat, take: int, fromItem: AttrMap -> R): (r: nat)
    requires i < |pages| && Ends(pages)
    ensures i <= r < |pages|
    decreases |pages| - i
  {
    if Continues(pages[i], |Collected(pages, i + 1, take, fromItem)|, take) then LastPage(pages, i + 1, take, fromItem)
    else i
  }

  /** The list result, or the error the request or the cursor stops with (line 154). */
  function ListOutcome<R>(request: Result<QueryRequest>, pages: seq<QueryResponse>, take: int, encryptionKey: string,
                          c: Cipher, iv: seq<byte>, fromItem: AttrMap -> R): Result<ListResult<R>>
    requires Ends(pages)
  {
    if request.Failure? then Failure(request.error)
    else
      var last := LastPage(pages, 0, take, fromItem);
      var cursor := EncodeCursor(pages[last].lastEvaluatedKey, encryptionKey, c, iv);
      if cursor.Failure? then Failure(cursor.error)
      else Success(ListResult(Collected(pages, last + 1, take, fromItem), cursor.value))
  }

  /** One page, started below take or with no take: its records are added until take is reached. */
  lemma {:induction false} AddItemsLimited<R>(page: seq<AttrMap>, items: seq<R>, take: int, fromItem: AttrMap -> R)
    requires take <= 0 || |items| < take
    ensures AddItems(page, items, take, fromItem) == Limited(items + MapItems(page, fromItem), take)
    decreases |page|
  {
    if |page| > 0 {
      var items' := items + [fromItem(page[0])];
      assert items + MapItems(page, fromItem) == items' + MapItems(page[1..], fromItem);
      if take > 0 && |items'| >= take {
        assert |items'| == take;
        assert (items' + MapItems(page[1..], fromItem))[..take] == items';
      } else {
        AddItemsLimited(page[1..], items', take, fromItem);
      }
    }
  }

  /** The loop goes on past every page before the one it stops after, and stops there. */
  lemma {:induction false} LastPageStops<R>(pages: seq<QueryResponse>, i: nat, take: int, fromItem: AttrMap -> R)
    requires i < |pages| && Ends(pages)
    ensures var last := LastPage(pages, i, take, fromItem);
      && !Continues(pages[last], |Collected(pages, last + 1, take, fromItem)|, take)
      && forall j :: i <= j < last ==> Continues(pages[j], |Collected(pages, j + 1, take, fromItem)|, take)
    decreases |pages| - i
  {
    if Continues(pages[i], |Collected(pages, i + 1, take, fromItem)|, take) {
      LastPageStops(pages, i + 1, take, fromItem);
    }
  }

  /** While the loop goes on, the records collected are the first `take` of all records fetched. */
  lemma {:induction false} CollectedLimited<R>(pages: seq<QueryResponse>, n: nat, take: int, fromItem: AttrMap -> R)
    requires n <= |pages|
    requires forall j :: 0 <= j < n - 1 ==> Continues(pages[j], |Collected(pages, j + 1, take, fromItem)|, take)
    ensures Collected(pages, n, take, fromItem) == Limited(AllItems(pages, n, fromItem), take)
  {
    if n > 0 {
      CollectedLimited(pages, n - 1, take, fromItem);
      var before := Collected(pages, n - 1, take, fromItem);
      if n > 1 {
        assert Continues(pages[n - 2], |before|, take);
      }
      assert before == AllItems(pages, n - 1, fromItem);
      AddItemsLimited(pages[n - 1].items, before, take, fromItem);
    }
  }

  /**
   * The records listed are the records of the pages fetched, page after
   * page and in each page's order: all of them without a positive take,
   * otherwise the first `take` of them (all if there are fewer); the loop
   * fetched page after page while the service had more and take was not
   * reached, and stopped at the first page after which either held; the
   * cursor is that page's last evaluated key, none when the service had
   * nothing more.
   */
  lemma ListedRecords<R>(request: Result<QueryRequest>, pages: seq<QueryResponse>, take: int, encryptionKey: string,
                         c: Cipher, iv: seq<byte>, fromItem: AttrMap -> R)
    requires Ends(pages)
    ensures var r := ListOutcome(request, pages, take, encryptionKey, c, iv, fromItem);
      var last := LastPage(pages, 0, take, fromItem);
      r.Success? ==>
        && r.value.items == Limited(AllItems(pages, last + 1, fromItem), take)
        && (take > 0 ==> |r.value.items| <= take)
        && !Continues(pages[last], |r.value.items|, take)
        && (forall j :: 0 <= j < last ==> Continues(pages[j], |Collected(pages, j + 1, take, fromItem)|, take))
        && Success(r.value.lastEvaluatedKey) == EncodeCursor(pages[last].lastEvaluatedKey, encryptionKey, c, iv)
        && (!HasMore(pages[last].lastEvaluatedKey) ==> r.value.lastEvaluatedKey.None?)
  {
    var last := LastPage(pages, 0, take, fromItem);
    LastPageStops(pages, 0, take, fromItem);
    CollectedLimited(pages, last + 1, take, fromItem);
    NoCursorWhenNothingLeft(pages[last].lastEvaluatedKey, encryptionKey, c, iv);
  }

  /** Without a positive take the loop fetches every page up to the first after which the service has nothing more. */
  lemma NoTakeReadsToTheEnd<R>(pages: seq<QueryResponse>, take: int, fromItem: AttrMap -> R)
    requires Ends(pages) && take <= 0
    ensures var last := LastPage(pages, 0, take, fromItem);
      && !HasMore(pages[last].lastEvaluatedKey)
      && (forall j :: 0 <= j < last ==> HasMore(pages[j].lastEvaluatedKey))
      && Collected(pages, last + 1, take, fromItem) == AllItems(pages, last + 1, fromItem)
  {
    var last := LastPage(pages, 0, take, fromItem);
    LastPageStops(pages, 0, take, fromItem);
    CollectedLimited(pages, last + 1, take, fromItem);
  }

  // ---------------------------------------------------------------------
  // The builder object

  class DynamoDBQueryBuilder {
    const queryIndex: QueryIndex
    const recordType: TypeName
    const mapper: DynamoDBMapper
    const host: Host
    var predicates: seq<Node>
    var exclusiveStartKey: Option<string>
    var limit: int
    var take: int
    var scanIndexFwd: bool

    /** The paging settings. */
    function Settings(): Paging
      reads this
    {
      Paging(exclusiveStartKey, limit, take, scanIndexFwd)
    }

    /** The read registry and the record type's read projection. */
    function Target(): RenderTarget
      reads mapper.readProjections
    {
      RenderTarget(mapper.readProjections.reg, mapper.GetReadProjection(recordType))
    }

    constructor (queryIndex: QueryIndex, recordType: TypeName, mapper: DynamoDBMapper, host: Host)
      ensures this.queryIndex == queryIndex && this.recordType == recordType
      ensures this.mapper == mapper && this.host == host
      ensures predicates == [] && Settings() == Paging(None, 0, 0, false)
    {
      this.queryIndex := queryIndex;
      this.recordType := recordType;
      this.mapper := mapper;
      this.host := host;
      predicates := [];
      exclusiveStartKey := None;
      limit := 0;
      take := 0;
      scanIndexFwd := false;
    }

    /** Where(predicate) */
    method Where(filter: Option<Expr>) returns (r: Result<()>)
      modifies this
      ensures Settings() == old(Settings())
      ensures (r, predicates) == AddParsed(old(predicates), host, filter, "predicate")
    {
      if filter.None? {
        return Failure(ArgumentNull("predicate"));
      }
      var node := Tokenize(host, filter.value);
      if node.Failure? {
        return Failure(node.error);
      }
      predicates := predicates + [node.value];
      r := Success(());
    }

    /** ExclusiveStartKey(exclusiveStartKey) */
    method ExclusiveStartKey(key: Option<string>)
      modifies this
      ensures predicates == old(predicates) && Settings() == old(Settings()).(exclusiveStartKey := key)
    {
      exclusiveStartKey := key;
    }

    /** Limit(limit) */
    method Limit(n: int)
      modifies this
      ensures predicates == old(predicates) && Settings() == old(Settings()).(limit := n)
    {
      limit := n;
    }

    /** Take(take) */
    method Take(n: int)
      modifies this
      ensures predicates == old(predicates) && Settings() == old(Settings()).(take := n)
    {
      take := n;
    }

    /** ScanIndexForward(scanIndexForward) */
    method ScanIndexForward(forward: bool)
      modifies this
      ensures predicates == old(predicates) && Settings() == old(Settings()).(scanIndexFwd := forward)
    {
      scanIndexFwd := forward;
    }

    /**
     * ListAsync: DoListAsync(false), `tableName` being the configured table,
     * `pages` the service's answers and `iv` the IV for the cursor.
     */
    method List<R>(tableName: string, decryptionKey: string, encryptionKey: string, c: Cipher, iv: seq<byte>,
                   pages: seq<QueryResponse>, fromItem: AttrMap -> R, toAttr: Value -> AttributeValue)
      returns (r: Result<ListResult<R>>)
      requires |iv| == IvLength && Ends(pages)
      ensures r == ListOutcome(RequestFor(queryIndex, predicates, Settings(), false, tableName, decryptionKey, c, Target(), toAttr),
                               pages, take, encryptionKey, c, iv, fromItem)
    {
      var sent;
      r, sent := DoList(false, tableName, decryptionKey, encryptionKey, c, iv, pages, fromItem, toAttr);
    }

    /** ListConsistentAsync: DoListAsync(true). */
    method ListConsistent<R>(tableName: string, decryptionKey: string, encryptionKey: string, c: Cipher, iv: seq<byte>,
                             pages: seq<QueryResponse>, fromItem: AttrMap -> R, toAttr: Value -> AttributeValue)
      returns (r: Result<ListResult<R>>)
      requires |iv| == IvLength && Ends(pages)
      ensures r == ListOutcome(RequestFor(queryIndex, predicates, Settings(), true, tableName, decryptionKey, c, Target(), toAttr),
                               pages, take, encryptionKey, c, iv, fromItem)
    {
      var sent;
      r, sent := DoList(true, tableName, decryptionKey, encryptionKey, c, iv, pages, fromItem, toAttr);
    }

    /** DoListAsync(consistent), also giving the requests sent to the service, in order. */
    method DoList<R>(consistent: bool, tableName: string, decryptionKey: string, encryptionKey: string, c: Cipher,
                     iv: seq<byte>, pages: seq<QueryResponse>, fromItem: AttrMap -> R, toAttr: Value -> AttributeValue)
      returns (r: Result<ListResult<R>>, sent: seq<QueryRequest>)
      requires |iv| == IvLength && Ends(pages)
      ensures r == ListOutcome(RequestFor(queryIndex, predicates, Settings(), consistent, tableName, decryptionKey, c, Target(), toAttr),
                               pages, take, encryptionKey, c, iv, fromItem)
    {
      var request := BuildQuery(consistent, tableName, decryptionKey, c, toAttr);
      if request.Failure? {
        return Failure(request.error), [];
      }
      var items, lastEvaluatedKey;
      items, lastEvaluatedKey, sent := Paginate(request.value, pages, fromItem);
      var cursor := mapper.MapFromEvaluatedKey(lastEvaluatedKey, encryptionKey, c, iv);
      if cursor.Failure? {
        return Failure(cursor.error), sent;
      }
      r := Success(ListResult(items, cursor.value));
    }

    /** The request, up to the first call to the service (lines 86-131). */
    method BuildQuery(consistent: bool, tableName: string, decryptionKey: string, c: Cipher, toAttr: Value -> AttributeValue)
      returns (r: Result<QueryRequest>)
      ensures r == RequestFor(queryIndex, predicates, Settings(), consistent, tableName, decryptionKey, c, Target(), toAttr)
    {
      var key, queryVars := KeyCondition();
      if key.Failure? {
        return Failure(key.error);
      }
      var startKey: Option<AttrMap> := None;
      if !NullOrEmpty(exclusiveStartKey) {
        var decoded := mapper.MapToEvaluatedKeyAttributes(exclusiveStartKey, decryptionKey, c);
        if decoded.Failure? {
          return Failure(decoded.error);
        }
        startKey := decoded.value;
      }
      var queryReq := QueryRequest(tableName, queryIndex.indexName, consistent, scanIndexFwd, key.value, startKey,
                                   None, None, None, None, None);
      if limit > 0 {
        queryReq := queryReq.(limit := Some(limit));
      }
      r := FilterAndProject(queryReq, queryVars, toAttr);
    }

    /** The request's allocator (line 86) and the key condition written with it (line 95). */
    method KeyCondition() returns (r: Result<string>, queryVars: QueryVariables)
      ensures fresh(queryVars) && queryVars.Valid()
      ensures (r, queryVars.State()) == KeyConditionExpression(queryIndex.partitionKeys, Fresh)
    {
      queryVars := new QueryVariables();
      r := GetKeyConditionExpression(queryIndex.partitionKeys, queryVars);
    }

    /** The request from the filter loop on (lines 104-131). */
    method FilterAndProject(queryReq: QueryRequest, queryVars: QueryVariables, toAttr: Value -> AttributeValue)
      returns (r: Result<QueryRequest>)
      requires queryVars.Valid()
      modifies queryVars
      ensures r == FilteredRequest(queryReq, predicates, Target(), old(queryVars.State()), toAttr)
    {
      var typeProjection := mapper.GetReadProjection(recordType);
      var filters := RenderFilters(predicates, queryVars, mapper.readProjections.reg, typeProjection);
      if filters.Failure? {
        return Failure(filters.error);
      }
      var projection := GetProjectionExpression(mapper.readProjections.reg, typeProjection, queryVars);
      var request := Finish(queryReq, filters.value, projection, queryVars, toAttr);
      r := Success(request);
    }

    /** The filter loop (lines 105-115), into the filterExpressions array. */
    method RenderFilters(predicates: seq<Node>, vars: QueryVariables, reg: Registry, proj: Option<Projection>)
      returns (r: Result<seq<string>>)
      requires vars.Valid()
      modifies vars
      ensures vars.Valid()
      ensures (r, vars.State()) == FilterPass(predicates, 0, [], Transpiled(RenderTarget(reg, proj)), old(vars.State()))
    {
      ghost var write := Transpiled(RenderTarget(reg, proj));
      ghost var outcome := FilterPass(predicates, 0, [], write, vars.State());
      var filterExpressions: seq<string> := [];
      for i := 0 to |predicates|
        invariant vars.Valid()
        invariant outcome == FilterPass(predicates, i, filterExpressions, write, vars.State())
      {
        ghost var before := vars.State();
        FilterPassStep(predicates, i, filterExpressions, write, before);
        var node := WrapOnce(predicates[i], |predicates| > 1);
        var text := ToExpression(Some(node), vars, reg, proj);
        assert (text, vars.State()) == write(node, before);
        if text.Failure? {
          return Failure(text.error);
        }
        filterExpressions := filterExpressions + [text.value];
      }
      r := Success(filterExpressions);
    }

    /** The filter joined with " and " when there is one, the projection, and the allocator's names and values when it has any. */
    method Finish(queryReq: QueryRequest, filters: seq<string>, projection: Option<string>, queryVars: QueryVariables,
                  toAttr: Value -> AttributeValue) returns (request: QueryRequest)
      ensures request == Finished(queryReq, filters, projection, queryVars.State(), toAttr)
    {
      var filterExpression: Option<string> := None;
      if |filters| != 0 {
        filterExpression := Some(Join(filters, " and "));
      }
      var names: Option<map<string, string>> := None;
      if |queryVars.attributeNames| != 0 {
        names := Some(queryVars.attributeNames);
      }
      var values: Option<AttrMap> := None;
      if queryVars.HasAttributeValues() {
        var attributeValues := queryVars.GetAttributeValues(toAttr);
        values := Some(attributeValues);
      }
      request := queryReq.(filterExpression := filterExpression, projectionExpression := projection,
                           attributeNames := names, attributeValues := values);
    }

    /**
     * The do-while loop (lines 136-152): each page's records added in
     * order until take is reached, each next request starting from the
     * page's last evaluated key, until the service has nothing more or take
     * is reached.
     */
    method Paginate<R>(request: QueryRequest, pages: seq<QueryResponse>, fromItem: AttrMap -> R)
      returns (items: seq<R>, lastEvaluatedKey: Option<AttrMap>, sent: seq<QueryRequest>)
      requires Ends(pages)
      ensures var last := LastPage(pages, 0, take, fromItem);
        && items == Collected(pages, last + 1, take, fromItem)
        && lastEvaluatedKey == pages[last].lastEvaluatedKey
        && |sent| == last + 1 && sent[0] == request
        && forall j :: 0 < j < |sent| ==> sent[j] == request.(exclusiveStartKey := pages[j - 1].lastEvaluatedKey)
    {
      var queryReq := request;
      var n := 0;
      items := [];
      sent := [];
      while true
        invariant n < |pages|
        invariant LastPage(pages, 0, take, fromItem) == LastPage(pages, n, take, fromItem)
        invariant items == Collected(pages, n, take, fromItem)
        invariant |sent| == n && queryReq == (if n == 0 then request else request.(exclusiveStartKey := pages[n - 1].lastEvaluatedKey))
        invariant forall j :: 0 <= j < n ==> sent[j] == (if j == 0 then request else request.(exclusiveStartKey := pages[j - 1].lastEvaluatedKey))
        decreases |pages| - n
      {
        var queryResp := pages[n];
        sent := sent + [queryReq];
        queryReq := queryReq.(exclusiveStartKey := queryResp.lastEvaluatedKey);
        if |queryResp.items| != 0 {
          items := AddPage(queryResp.items, items, fromItem);
        }
        if !Continues(queryResp, |items|, take) {
          lastEvaluatedKey := queryResp.lastEvaluatedKey;
          return;
        }
        n := n + 1;
      }
    }

    /** The foreach over one page (lines 142-149). */
    method AddPage<R>(page: seq<AttrMap>, items: seq<R>, fromItem: AttrMap -> R) returns (r: seq<R>)
      ensures r == AddItems(page, items, take, fromItem)
    {
      r := items;
      for j := 0 to |page|
        invariant AddItems(page, items, take, fromItem) == AddItems(page[j..], r, take, fromItem)
      {
        assert page[j..][0] == page[j] && page[j..][1..] == page[j + 1..];
        r := r + [fromItem(page[j])];
        if take > 0 && |r| >= take {
          return;
        }
      }
    }
  }
}
