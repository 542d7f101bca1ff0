# ArrowStore, modelled in Dafny

ArrowStore is a .NET library over Amazon DynamoDB. A program describes
its records with mapping profiles, then writes queries and updates as C#
lambda expressions. The library compiles each predicate to the DynamoDB
expression language: an `#attr_name_<n>` alias per attribute name, a
`:attr_val_<k>` alias per value, and text such as
`(#attr_name_0 = :attr_val_0) and attribute_exists(#attr_name_1)`.
Around that it builds the request maps, pages a query, and frames
paging cursors.

This project models the core of that library and proves properties of
the model. There is one module per C# file of the core. Objects whose
fields the library updates in place are classes, and their methods are
proved against pure functions of the old state.

- `QueryVars`: the alias allocator (`QueryVariables`). It holds the two
  name tables, which are mutual inverses, the per-type value dedup
  tables and the value counter.
- `Parser`: the predicate parser (`WhereExpressionParser`). It turns a
  lambda expression tree into the node tree of `Nodes`. Member
  evaluation and value coercion are functions the caller supplies.
- `Transpiler` and `ExpressionTranspiler`: the expression transpiler
  (`DynamoDBExpressionTranspiler`). The first holds its pure
  specification; the second holds the class whose methods allocate
  aliases. This includes key conditions and projection expressions.
- `Writers`: the transpiler as the update and query builders use it, and
  the facts those builders rely on.
- `Projections`, `ToAttributes`, `FromAttributes`, `ConverterBuilders`:
  the per-record-type tables of attribute names and of attribute trees.
  These modules also cover writing record members into, and reading them
  from, nested attribute maps.
- `Mapper`: key maps, the partition keys written over a record, and the
  IV-and-ciphertext framing of paging cursors.
- `UpdateBuilders`: the SET / REMOVE / ADD / DELETE update expression and
  its conditions.
- `QueryBuilders`: the fluent query builder, the filter join and the
  paging loop.
- `PrimitiveProfile`: the integer and string attribute codecs.
- `PartitionKeys`: partition keys and composite keys.
- `Common`, `Values`, `Nodes`: shared datatypes. These are results and
  errors, runtime values and `AttributeValue`, and the predicate node
  tree.

Where the library has a quirk, the model keeps the code as written and
states the quirk as a lemma. Examples:

- the doubled `:` of `Set`;
- the stray `)` of `DeleteFromList`;
- `not attribute_not_exists` for a doubly negated `MemberExists`;
- `Increase` aliasing the rendered path;
- one visited list shared by the whole projection walk.

## Model

| member | source | states |
|---|---|---|
| Projections.Put | ArrowStore/Mapper/ToAttributesMapBuilder.cs:129-132 | the dictionary indexer set: the key maps to the new entry; a new key goes last in the enumeration order and an existing key keeps its place |
| Projections.FindProjection | ArrowStore/Mapper/DynamoDBMapper.cs:49-57 | TryGetValue on a projection registry: found exactly when the record type is registered |
| Projections.GetOrCreateSpec | ArrowStore/Mapper/DynamoDBConverterBuilder.cs:28-31 | get-or-create of a record type's projection: a registered type gets its projection back and the registry is unchanged; an unregistered one gets two new, empty tables; every earlier projection and table is kept |
| Projections.ProjectionStore.GetOrAdd | ArrowStore/Mapper/DynamoDBConverterBuilder.cs:42-45 | the registry field moves to the get-or-create result, keeping every projection and table it had |
| Projections.ProjectionStore.SetNameReference | ArrowStore/Mapper/ToAttributesMapBuilder.cs:86 | the member's name reference is overwritten in that one name table, and nothing else changes |
| Projections.ProjectionStore.FillHierarchy | ArrowStore/Mapper/ToAttributesMapBuilder.cs:123-143 | the loop over the path's segments leaves the registry as the fill function says and keeps every earlier table |
| Projections.FillUntouched | ArrowStore/Mapper/ToAttributesMapBuilder.cs:123-143 | filling a path changes no attribute tree table that the path does not pass through |
| Projections.FillReaches | ArrowStore/Mapper/ToAttributesMapBuilder.cs:126-141 | after the fill, the whole path is present and its last node's nested table is the member type's tree, provided the tables passed are all distinct |
| Projections.FillKeepsSiblings | ArrowStore/Mapper/ToAttributesMapBuilder.cs:123-143 | in every table the fill passes through, each entry other than the segment followed there keeps its node, and the table's key order is kept, gaining at most that segment at its end |
| Projections.FillExistingPath | ArrowStore/Mapper/ToAttributesMapBuilder.cs:129-140 | registering a path whose prefix exists allocates nothing; only the last node's nested table is replaced |
| Projections.FillClosed | ArrowStore/Mapper/ToAttributesMapBuilder.cs:123-143 | the fill keeps every node pointing at a table that exists, and keeps every table there was |
| Projections.AddReferencesSpec | ArrowStore/Mapper/ToAttributesMapBuilder.cs:79-88 | after AddReferences the member's name reference holds the path, the member type and that type's name table; every other name reference and every earlier projection is kept; the only projection added is the member type's |
| Projections.AddReferencesGrows | ArrowStore/Mapper/FromAttributesMapBuilder.cs:73-83 | AddReferences keeps every projection and every dictionary there was |
| ToAttributes.SetPath | ArrowStore/Mapper/ToAttributesMapBuilder.cs:90-121 | writing one path: the item gains at most the path's first segment as a key, and every other top-level attribute is kept |
| ToAttributes.SetPathBlocked | ArrowStore/Mapper/ToAttributesMapBuilder.cs:107-117 | a write below an existing attribute that is not a map leaves the item as it was |
| ToAttributes.WriteAllOutcome | ArrowStore/Mapper/ToAttributesMapBuilder.cs:65-77 | Convert succeeds exactly when every registered member can be read; otherwise it fails with the error of the first path whose member the record type does not have (EvaluateMemberValue's InvalidOperationException) |
| ToAttributes.WriteAllKeys | ArrowStore/Mapper/ToAttributesMapBuilder.cs:65-77 | when every member can be read, Convert's result has the item's attributes plus the top-level attribute of every registered path, and no others |
| ToAttributes.WriteAllUntouched | ArrowStore/Mapper/ToAttributesMapBuilder.cs:68-74 | when every member can be read, an attribute no path writes under keeps its value |
| ToAttributes.WriteAllTopLevel | ArrowStore/Mapper/ToAttributesMapBuilder.cs:68-74 | when every member can be read, a path without `.` that no later path overwrites holds its member's value, and NULL when the member is null |
| ToAttributes.ToAttributesMapBuilder.AddReferences | ArrowStore/Mapper/ToAttributesMapBuilder.cs:79-88 | the write registry moves to what AddReferences computes |
| ToAttributes.ToAttributesMapBuilder.From | ArrowStore/Mapper/ToAttributesMapBuilder.cs:30-46 | a null getter and a null or empty path are refused with ArgumentNull in that order; a rejected accessor returns the parser's error; otherwise the path maps to the accessor and the references are added; a failure changes nothing |
| ToAttributes.ToAttributesMapBuilder.PartitionReserved | ArrowStore/Mapper/ToAttributesMapBuilder.cs:48-63 | the same guards as From; on success only the references are added, and the member is not written by Convert |
| ToAttributes.ToAttributesMapBuilder.Convert | ArrowStore/Mapper/ToAttributesMapBuilder.cs:65-77 | the loop over registered paths gives the item that the write-all function describes, or stops at the first member that cannot be read with that read's error |
| FromAttributes.AttributeAt | ArrowStore/Mapper/FromAttributesMapBuilder.cs:123-146 | a missing attribute is an error exactly when the member must exist, and the error names the path; otherwise the result is the lookup along the segments |
| FromAttributes.GetAttributeValue | ArrowStore/Mapper/FromAttributesMapBuilder.cs:123-146 | the segment loop, with its early break, gives AttributeAt |
| FromAttributes.Map | ArrowStore/Mapper/FromAttributesMapBuilder.cs:107-121 | a found map attribute goes through the map conversion; any other found attribute goes through the attribute conversion; a missing optional attribute keeps the member's value; a missing required one is an error |
| FromAttributes.DoConvert | ArrowStore/Mapper/FromAttributesMapBuilder.cs:148-156 | no attribute gives the type's default value; an attribute goes through the converter |
| FromAttributes.Converted | ArrowStore/Mapper/FromAttributesMapBuilder.cs:66-71 | a member mapped with a converter receives the converted attribute, the default when the attribute is missing and optional, and an error when it is missing and required |
| FromAttributes.LookupSetPath | ArrowStore/Mapper/FromAttributesMapBuilder.cs:123-135 | reading a path back after the write side's SetAttributeValue wrote it, through maps, finds the value written |
| FromAttributes.LookupSetPathElsewhere | ArrowStore/Mapper/FromAttributesMapBuilder.cs:123-135 | writing one path leaves every path under another top-level attribute reading as before |
| FromAttributes.LookupSetPathSibling | ArrowStore/Mapper/ToAttributesMapBuilder.cs:98-119 | writing one path leaves every path that parts from it at some segment reading as before, including siblings inside the nested maps the write reuses |
| FromAttributes.FromAttributesMapBuilder.AddReferences | ArrowStore/Mapper/FromAttributesMapBuilder.cs:73-83 | the member type's read projection is created before the accessor is checked, so a rejected accessor still leaves it registered; otherwise the references are added |
| FromAttributes.FromAttributesMapBuilder.MapFrom | ArrowStore/Mapper/FromAttributesMapBuilder.cs:59-71 | both MapFrom overloads: the references are added and the member mapping is recorded, with or without its converter |
| FromAttributes.AddAllReferencesGrows | ArrowStore/Mapper/FromAttributesMapBuilder.cs:73-83 | adding the references of several paths in turn keeps every projection and dictionary there was, and the arena closed |
| FromAttributes.AddAllReferencesLastWins | ArrowStore/Mapper/FromAttributesMapBuilder.cs:80-82 | after several MapFrom calls for one member, its name reference holds the last call's path and its type's name table |
| FromAttributes.MappingsOf | ArrowStore/Mapper/FromAttributesMapBuilder.cs:59-71 | one ForMember registration per MapFrom call, in call order, each with that call's path and converter |
| FromAttributes.FromAttributesMapBuilder.RunConverterBuilder | ArrowStore/Mapper/FromAttributesMapBuilder.cs:29-30 | the action runs its MapFrom calls in order: no call changes nothing; a rejected accessor throws out of the first call after the member type's projection is created; otherwise the registry holds every call's references and one mapping is recorded per call |
| FromAttributes.FromAttributesMapBuilder.Required | ArrowStore/Mapper/FromAttributesMapBuilder.cs:25-32 | the action's MapFrom calls each record a mapping whose attribute must exist; the read registry holds every call's references, or, for a rejected accessor, the member type's new projection alone; an action with no call changes nothing |
| FromAttributes.FromAttributesMapBuilder.Optional | ArrowStore/Mapper/FromAttributesMapBuilder.cs:34-41 | the action's MapFrom calls each record a mapping whose attribute may be missing; the read registry holds every call's references, or, for a rejected accessor, the member type's new projection alone; an action with no call changes nothing |
| ConverterBuilders.WriteToNestedAttribute | ArrowStore/Mapper/DynamoDBConverterBuilder.cs:61-72 | a null record is written as NULL; any other record is written as the M of its attribute map |
| ConverterBuilders.NestedRoundTrip | ArrowStore/Mapper/DynamoDBConverterBuilder.cs:61-72 | a nested record written at a path reads back through Map as the same record, when the two conversions are inverse on it |
| ConverterBuilders.DynamoDBConverterBuilder.constructor | ArrowStore/Mapper/DynamoDBConverterBuilder.cs:14-19 | two new, empty and distinct registries |
| ConverterBuilders.DynamoDBConverterBuilder.ReadFromAttributes | ArrowStore/Mapper/DynamoDBConverterBuilder.cs:26-35 | the record type's read projection is got or created, and a new builder over the read registry is returned; the write registry is unchanged |
| ConverterBuilders.DynamoDBConverterBuilder.WriteToAttributes | ArrowStore/Mapper/DynamoDBConverterBuilder.cs:37-48 | the record type's write projection is got or created, and a new builder over the write registry is returned; the read registry is unchanged |
| ConverterBuilders.DynamoDBConverterBuilder.Build | ArrowStore/Mapper/DynamoDBConverterBuilder.cs:55-59 | the mapper shares the builder's two registries and does not copy them |
| ConverterBuilders.ProjectionCreatedOnce | ArrowStore/Mapper/DynamoDBConverterBuilder.cs:28-31 | asking twice for one record type hands out the same projection, and the second request changes nothing |
| ConverterBuilders.ProjectionsApart | ArrowStore/Mapper/DynamoDBConverterBuilder.cs:42-45 | two record types get projections with different tables |
| Mapper.FrameSplits | ArrowStore/Mapper/DynamoDBMapper.cs:82-85 | splitting a framed cursor at the IV length gives back its IV and its ciphertext |
| Mapper.CursorRoundTrip | ArrowStore/Mapper/DynamoDBMapper.cs:69-140 | a cursor handed out for a non-empty key decodes to that key under the same encryption key, when base64 and the cipher invert |
| Mapper.KeyBeforeFrame | ArrowStore/Mapper/DynamoDBMapper.cs:76-83 | the decryption key is set before the frame is measured: a key AES refuses is reported whatever the cursor's length, and only a usable key reaches the overflow of a short cursor |
| Mapper.NoCursorWhenNothingLeft | ArrowStore/Mapper/DynamoDBMapper.cs:108-111 | no cursor exactly when the encryption key is empty or there is no last evaluated key or it is empty |
| Mapper.WithKeysSpec | ArrowStore/Mapper/DynamoDBMapper.cs:32-42 | after MapToAttributes, each key name holds its last key's value as S; every other attribute is the mapped record's |
| Mapper.KeyAttributesSpec | ArrowStore/Mapper/DynamoDBMapper.cs:142-152 | the key map is keyed by the name aliases; each alias of a key name holds that name's last value; every key name is aliased; only the name tables of the allocator change |
| Mapper.ItemKeyShape | ArrowStore/Mapper/DynamoDBMapper.cs:144-151 | the item key holds one attribute per distinct key name, under its alias, with the last value given for that name, and nothing else |
| Mapper.DynamoDBMapper.GetReadProjection | ArrowStore/Mapper/DynamoDBMapper.cs:49-57 | the read registry's projection of the type, or none; the write registry is not consulted |
| Mapper.DynamoDBMapper.GetWriteProjection | ArrowStore/Mapper/DynamoDBMapper.cs:59-67 | the write registry's projection of the type, or none |
| Mapper.DynamoDBMapper.MapToAttributes | ArrowStore/Mapper/DynamoDBMapper.cs:32-42 | the loop over the partition keys gives the item described by WithKeysSpec |
| Mapper.DynamoDBMapper.MapToKeyAttributes | ArrowStore/Mapper/DynamoDBMapper.cs:142-152 | the loop and the allocator's new state are those of KeyAttributesSpec |
| Mapper.DynamoDBMapper.MapFromEvaluatedKey | ArrowStore/Mapper/DynamoDBMapper.cs:106-140 | the guards, then the key is set, then base64 of the IV followed by the ciphertext, copied byte by byte |
| Mapper.DynamoDBMapper.MapToEvaluatedKeyAttributes | ArrowStore/Mapper/DynamoDBMapper.cs:69-104 | the guards, then the key is set, then the IV and the ciphertext copied out of the decoded bytes; with a usable key, a cursor shorter than the IV is an overflow error |
| PartitionKeys.NewPartitionKey | ArrowStore/Records/DynamoDBPartitionKey.cs:9-18 | the public constructor gives an equality key with that name and value |
| PartitionKeys.Composite | ArrowStore/Records/DynamoDBPartitionKey.cs:26-40 | a null or empty segment list is refused with ArgumentNull("segments"); otherwise the result is the encoded segments, in order, joined by `#` |
| PartitionKeys.EncodeAll | ArrowStore/Records/DynamoDBPartitionKey.cs:33-37 | one encoded segment per input segment, in the same order |
| PartitionKeys.CompositeSplits | ArrowStore/Records/DynamoDBPartitionKey.cs:36-39 | when the encoder never emits `#`, splitting the composite key on `#` gives back the encoded segments |
| PartitionKeys.CompositeInjective | ArrowStore/Records/DynamoDBPartitionKey.cs:33-39 | with an injective, `#`-free encoder, different segment lists give different composite keys |
| Parser.VisitArguments | ArrowStore/Expressions/WhereExpressionParser.cs:266-284 | the argument scan keeps what came before and adds one node per remaining argument, in order; the first failure stops it |
| Parser.Cast | ArrowStore/Expressions/WhereExpressionParser.cs:400-424 | only a constant is converted, and only when the other operand is a method call or a member accessor; the result is the node itself or a constant; failure comes only from that conversion |
| Parser.EnsurePropertyName | ArrowStore/Expressions/WhereExpressionParser.cs:17-26 | success gives the parsed member accessor; a lambda that parses to any other node is refused, naming that node's type |
| Parser.ParseLambda | ArrowStore/Expressions/WhereExpressionParser.cs:197-232 | the loop over the parameters leaves the names the parse needs; a missing record parameter is ArgumentNull("extensionName"); the body is parsed in the lambda's own context |
| Parser.ParseCall | ArrowStore/Expressions/WhereExpressionParser.cs:257-330 | the target is visited first and then the arguments in order into the array; without a target the first argument is the instance, and no arguments at all is a negative array length; then the method switch |
| Parser.VisitBraced | ArrowStore/Expressions/WhereExpressionParser.cs:386-398 | every and/or node of a successful parse sits directly inside braces, so the rendered text keeps the grouping of the C# expression |
| Parser.CallBraced | ArrowStore/Expressions/WhereExpressionParser.cs:257-330 | a parsed call keeps every and/or of its instance and arguments in braces |
| Parser.ArgumentsBraced | ArrowStore/Expressions/WhereExpressionParser.cs:266-284 | the arguments the scan adds keep every and/or in braces |
| Parser.ParameterBinding | ArrowStore/Expressions/WhereExpressionParser.cs:234-255 | inside a lambda, an extension parameter is accepted exactly when it is the lambda's non-empty extension parameter, and a record parameter exactly when it is the lambda's record parameter; anything else is "The Lambda-parameter is unknown or not supported" |
| Parser.ScanFindsLast | ArrowStore/Expressions/WhereExpressionParser.cs:201-224 | of several record or extension parameters, the scan keeps the last of each kind |
| Parser.StringLengthIsSize | ArrowStore/Expressions/WhereExpressionParser.cs:362-369 | `s.Length` on a string member becomes a `size()` call on that member |
| Parser.ComparedConstantTakesMemberType | ArrowStore/Expressions/WhereExpressionParser.cs:379-384 | a constant compared with a member is converted to the member's type before it is aliased, and a failed conversion fails the parse |
| Parser.AndOrAreBraced | ArrowStore/Expressions/WhereExpressionParser.cs:386-398 | `&&` and `\|\|` give braces around a binary node whose sides are the parsed operands, left first |
| Parser.MemberExistsAccepted | ArrowStore/Expressions/WhereExpressionParser.cs:308-321 | MemberExists is accepted exactly when its instance is the extension parameter and its first argument is a member accessor, so a call with extra arguments also passes the guard as written |
| QueryVars.NameAliasInjective | ArrowStore/Query/QueryVariables.cs:10 | two numbered name aliases `#attr_name_{n}` are equal only for equal numbers |
| QueryVars.ValueAliasInjective | ArrowStore/Query/QueryVariables.cs:11 | two numbered value aliases `:attr_val_{n}` are equal only for equal numbers |
| QueryVars.ValueAliasIsNotNull | ArrowStore/Query/QueryVariables.cs:11-12 | the null alias `:attr_val_null` is never one of the numbered value aliases |
| QueryVars.FreshInv | ArrowStore/Query/QueryVariables.cs:21-28 | the empty tables of a new instance satisfy the alias-table invariant |
| QueryVars.AddNameKeeps | ArrowStore/Query/QueryVariables.cs:48-50 | the next name alias, numbered by the count of names, is not yet in use, and adding it keeps the two name maps inverse |
| QueryVars.AddNameInverse | ArrowStore/Query/QueryVariables.cs:49-50 | the forward and reverse name maps stay inverse to each other when a new name and a new alias are added to both |
| QueryVars.AddNameNumbers | ArrowStore/Query/QueryVariables.cs:48 | with the next numbered alias added, the aliases in use are exactly the numbers below the count of names |
| QueryVars.AliasNameSpec | ArrowStore/Query/QueryVariables.cs:44-54 | a known name gets its alias back and nothing changes; a new name gets `#attr_name_{count}` and the name table grows by one; the invariant is kept |
| QueryVars.DistinctNamesDistinctAliases | ArrowStore/Query/QueryVariables.cs:44-54 | two different attribute names never receive the same alias |
| QueryVars.AliasNameExtends | ArrowStore/Query/QueryVariables.cs:44-54 | every earlier name alias is kept, the name is aliased in both directions afterwards and the value tables are untouched |
| QueryVars.AliasNameGrows | ArrowStore/Query/QueryVariables.cs:44-54 | the name half of the invariant and every earlier name alias are kept |
| QueryVars.NameChangeKeeps | ArrowStore/Query/QueryVariables.cs:44-54 | a change of the name tables alone that keeps their invariant keeps the whole invariant |
| QueryVars.RecordKeeps | ArrowStore/Query/QueryVariables.cs:81-85 | recording a non-null value under the next numbered alias reuses no alias in use and keeps the value invariant |
| QueryVars.AddComparableKeeps | ArrowStore/Query/QueryVariables.cs:99-107 | adding a comparable value to its type's table under the next number keeps the value invariant |
| QueryVars.AddRawKeeps | ArrowStore/Query/QueryVariables.cs:111-116 | adding a non-comparable value to its type's raw table under the next number keeps the value invariant |
| QueryVars.AddNullKeeps | ArrowStore/Query/QueryVariables.cs:60-63 | recording null under the null alias keeps the value invariant without moving the counter |
| QueryVars.RegisterSpec | ArrowStore/Query/QueryVariables.cs:104-120 | registering a new value hands out `:attr_val_{counter}`, bumps the counter by one, records the value under it, keeps every earlier alias and leaves the name tables alone |
| QueryVars.HitChangesNothing | ArrowStore/Query/QueryVariables.cs:104-119 | a comparable value already in its type's table gets its recorded alias and the state is unchanged |
| QueryVars.AliasTypedSpec | ArrowStore/Query/QueryVariables.cs:89-121 | null gets `:attr_val_null` with nothing recorded; any other value is recorded under its alias; a comparable one is in its type's table under that alias; the counter moves exactly when a new number is handed out; the invariant and earlier aliases are kept |
| QueryVars.AliasComparableIsTyped | ArrowStore/Query/QueryVariables.cs:72-87 | the generic overload behaves as the typed overload for an IComparable value of the static type |
| QueryVars.AliasComparableExtends | ArrowStore/Query/QueryVariables.cs:72-87 | the generic overload keeps every earlier alias and leaves the value in its type's table and in the value map under the returned alias |
| QueryVars.NullAliasSpec | ArrowStore/Query/QueryVariables.cs:56-66 | the untyped overload records null once under `:attr_val_null` and hands out no number, while the typed overload records nothing for null |
| QueryVars.AliasValueExtends | ArrowStore/Query/QueryVariables.cs:56-70 | the untyped overload keeps every earlier alias and the name tables, and records the value under the returned alias |
| QueryVars.ComparableDeduplicated | ArrowStore/Query/QueryVariables.cs:97-108 | asking twice for the same comparable value of one type returns the same alias and the second request changes nothing |
| QueryVars.TypesSeparated | ArrowStore/Query/QueryVariables.cs:99-107 | the same value under two different declared types receives two different aliases |
| QueryVars.ReferenceAlwaysFresh | ArrowStore/Query/QueryVariables.cs:109-117 | a value that is not IComparable is never deduplicated: each request hands out the next number |
| QueryVars.IssuedAliasSupplied | ArrowStore/Query/QueryVariables.cs:123-144 | every alias a non-null constant receives appears in the supplied attribute values, mapped from that constant |
| QueryVars.NullOnlyConstantNotSupplied | ArrowStore/Query/QueryVariables.cs:41-128 | as written, when null is the only constant, `:attr_val_null` is recorded but no attribute values are supplied, because the presence test reads the counter |
| QueryVars.ExtendsTransitive | ArrowStore/Query/QueryVariables.cs:14-19 | keeping every earlier alias is transitive across successive allocations |
| QueryVars.NamesExtendTransitive | ArrowStore/Query/QueryVariables.cs:14-15 | keeping every earlier name alias is transitive across successive allocations |
| QueryVars.QueryVariables.constructor | ArrowStore/Query/QueryVariables.cs:21-28 | a new instance holds empty tables and a zero counter |
| QueryVars.QueryVariables.SetAttributeNameAlias | ArrowStore/Query/QueryVariables.cs:44-54 | the returned alias and the new tables are those of the name allocation from the old tables |
| QueryVars.QueryVariables.SetValueAlias | ArrowStore/Query/QueryVariables.cs:56-70 | the returned alias and the new tables are those of the untyped allocation from the old tables |
| QueryVars.QueryVariables.SetComparableValueAlias | ArrowStore/Query/QueryVariables.cs:72-87 | the returned alias and the new tables are those of the generic allocation from the old tables |
| QueryVars.QueryVariables.SetTypedValueAlias | ArrowStore/Query/QueryVariables.cs:89-121 | the returned alias and the new tables are those of the typed allocation from the old tables |
| QueryVars.QueryVariables.GetAttributeValues | ArrowStore/Query/QueryVariables.cs:123-144 | the result is empty while no number was handed out, and otherwise maps every recorded alias to its value through the mapper, with null as NULL |
| Transpiler.RenderArgs | ArrowStore/Query/DynamoDBExpressionTranspiler.cs:184-188 | rendering the arguments from index i on adds exactly one text per remaining argument, in order |
| Transpiler.AccessorChain | ArrowStore/Query/DynamoDBExpressionTranspiler.cs:258-265 | the stack of member names from the accessed member down to the first node that is not a member accessor; a member accessor gives at least one name and any other node gives none |
| Transpiler.AliasNames | ArrowStore/Query/DynamoDBExpressionTranspiler.cs:288-291 | SetAttributeNameAlias applied to each name in turn gives one alias per name |
| Transpiler.Prefixed | ArrowStore/Query/DynamoDBExpressionTranspiler.cs:376-379 | each nested attribute is written as the entry's alias, a '.', then the nested attribute |
| Transpiler.Expand | ArrowStore/Query/DynamoDBExpressionTranspiler.cs:361-388 | the tables visited after writing a projection include those visited before and the table just written |
| Transpiler.ExpandEntries | ArrowStore/Query/DynamoDBExpressionTranspiler.cs:370-385 | the foreach over one table's entries never forgets a visited table |
| Transpiler.AliasesIn | ArrowStore/Query/DynamoDBExpressionTranspiler.cs:290 | the alias each name has in a state, position by position |
| Transpiler.AliasNamesKeeps | ArrowStore/Query/DynamoDBExpressionTranspiler.cs:288-291 | aliasing several names keeps the name invariant and every earlier alias, and leaves the value tables alone |
| Transpiler.AliasNamesAppend | ArrowStore/Query/DynamoDBExpressionTranspiler.cs:288-291 | aliasing one more name after a list is aliasing the longer list |
| Transpiler.AliasNamesSpec | ArrowStore/Query/DynamoDBExpressionTranspiler.cs:288-291 | after aliasing a list of names, each name stands for the alias given for it |
| Transpiler.ResolvePathStep | ArrowStore/Query/DynamoDBExpressionTranspiler.cs:281-297 | one turn of the resolution loop: the member's attribute path segments are aliased, then the rest of the chain is resolved in the member's nested references when it has any |
| Transpiler.RenderAccessorByChain | ArrowStore/Query/DynamoDBExpressionTranspiler.cs:256-300 | once the chain ends at a record and a projection is present, a member access is the '.'-join of the resolved aliases, or the resolution's failure |
| Transpiler.PrependPathStep | ArrowStore/Query/DynamoDBExpressionTranspiler.cs:281-291 | the popped member's aliases move to the end of the attribute path built so far |
| Transpiler.ResolvePathKeeps | ArrowStore/Query/DynamoDBExpressionTranspiler.cs:279-297 | resolving a chain changes only the name tables, keeping their invariant and every earlier alias |
| Transpiler.ResolvePathSpec | ArrowStore/Query/DynamoDBExpressionTranspiler.cs:279-297 | resolving a chain succeeds exactly when every member is mapped, and then gives one alias per physical path segment, each standing for its segment |
| Transpiler.RenderDispatch | ArrowStore/Query/DynamoDBExpressionTranspiler.cs:96-142 | Visit hands each node kind to its visitor, and a record or extension-parameter node is refused with NotSupported |
| Transpiler.RenderExtends | ArrowStore/Query/DynamoDBExpressionTranspiler.cs:96-142 | rendering any tree keeps the allocator invariant and every alias handed out before |
| Transpiler.RenderBinaryExtends | ArrowStore/Query/DynamoDBExpressionTranspiler.cs:354-359 | a connective keeps the allocator invariant and every earlier alias |
| Transpiler.RenderCompareExtends | ArrowStore/Query/DynamoDBExpressionTranspiler.cs:302-352 | a comparison keeps the allocator invariant and every earlier alias |
| Transpiler.RenderInBracesExtends | ArrowStore/Query/DynamoDBExpressionTranspiler.cs:171-175 | braces keep the allocator invariant and every earlier alias |
| Transpiler.RenderMemberExistsExtends | ArrowStore/Query/DynamoDBExpressionTranspiler.cs:165-169 | an existence test keeps the allocator invariant and every earlier alias |
| Transpiler.RenderInverseExtends | ArrowStore/Query/DynamoDBExpressionTranspiler.cs:144-163 | a negation keeps the allocator invariant and every earlier alias |
| Transpiler.RenderAccessorKeeps | ArrowStore/Query/DynamoDBExpressionTranspiler.cs:256-300 | a member access changes only the name tables, keeping their invariant and every earlier alias |
| Transpiler.RenderAccessorExtends | ArrowStore/Query/DynamoDBExpressionTranspiler.cs:256-300 | a member access keeps the allocator invariant and every earlier alias |
| Transpiler.RenderMethodCallExtends | ArrowStore/Query/DynamoDBExpressionTranspiler.cs:182-254 | a method call keeps the allocator invariant and every earlier alias |
| Transpiler.RenderArgsExtends | ArrowStore/Query/DynamoDBExpressionTranspiler.cs:184-188 | the argument loop keeps the allocator invariant and every earlier alias |
| Transpiler.CallTextSpec | ArrowStore/Query/DynamoDBExpressionTranspiler.cs:196-251 | a function call is written exactly when its argument count is the function's arity and the attribute text is non-empty; every refusal is an InvalidOperation, and a wrong arity is reported before a missing attribute |
| Transpiler.CallTextValue | ArrowStore/Query/DynamoDBExpressionTranspiler.cs:196-253 | a written call is the function name applied to the attribute and then the arguments, separated by ", " |
| Transpiler.InverseOfMemberExists | ArrowStore/Query/DynamoDBExpressionTranspiler.cs:149-154 | negating an existence test writes attribute_not_exists over the same accessor text instead of prefixing "not" |
| Transpiler.DoubleNegatedMemberExists | ArrowStore/Query/DynamoDBExpressionTranspiler.cs:144-163 | negating a negated existence test prefixes "not" to attribute_not_exists rather than giving attribute_exists back, because the outer body is not an existence node |
| Transpiler.InverseOfOther | ArrowStore/Query/DynamoDBExpressionTranspiler.cs:162 | negating anything but an existence test prefixes "not " to the body's text |
| Transpiler.AliasedAreAliasesIn | ArrowStore/Query/DynamoDBExpressionTranspiler.cs:290 | aliases that each stand for their name are exactly the names' aliases in that state |
| Transpiler.RenderAccessorSpec | ArrowStore/Query/DynamoDBExpressionTranspiler.cs:256-300 | a chain not rooted at the record, or a missing projection, fails with its InvalidOperation and touches nothing; otherwise the access succeeds exactly when every member has an attribute projection and is the '.'-join of the aliases of its physical segments |
| Transpiler.RenderSucceeds | ArrowStore/Query/DynamoDBExpressionTranspiler.cs:96-359 | rendering succeeds exactly for the writable trees and never gives an empty text |
| Transpiler.RenderPairSucceeds | ArrowStore/Query/DynamoDBExpressionTranspiler.cs:302-359 | a connective or comparison succeeds exactly when both sides do, and its text is non-empty |
| Transpiler.RenderWrapperSucceeds | ArrowStore/Query/DynamoDBExpressionTranspiler.cs:144-175 | braces, an existence test or a negation succeed exactly when the body does, and the text is non-empty |
| Transpiler.RenderConstSucceeds | ArrowStore/Query/DynamoDBExpressionTranspiler.cs:177-180 | a constant always renders to a non-empty alias |
| Transpiler.PhysicalSegmentsNonEmpty | ArrowStore/Query/DynamoDBExpressionTranspiler.cs:288-291 | a resolved chain of members has at least one physical path segment |
| Transpiler.RenderAccessorSucceeds | ArrowStore/Query/DynamoDBExpressionTranspiler.cs:256-300 | a member access succeeds exactly when it is writable, with a non-empty text |
| Transpiler.RenderArgsSucceeds | ArrowStore/Query/DynamoDBExpressionTranspiler.cs:184-188 | the argument loop from index i on succeeds exactly when every remaining argument is writable |
| Transpiler.RenderMethodCallSucceeds | ArrowStore/Query/DynamoDBExpressionTranspiler.cs:182-254 | a method call succeeds exactly when it is writable, with a non-empty text |
| Transpiler.RenderableCall | ArrowStore/Query/DynamoDBExpressionTranspiler.cs:182-254 | a method call is writable exactly when its arguments and attribute are and it has its function's arity |
| Transpiler.KeyClausesStep | ArrowStore/Query/DynamoDBExpressionTranspiler.cs:44-91 | one turn of the key loop: the name alias, then the value alias as a string, then the clause, or NotSupported naming the operator |
| Transpiler.KeyClausesOutcome | ArrowStore/Query/DynamoDBExpressionTranspiler.cs:44-91 | the key loop succeeds exactly when every operator can be expressed, and otherwise reports the first operator that cannot |
| Transpiler.KeyClauseExists | ArrowStore/Query/DynamoDBExpressionTranspiler.cs:48-90 | a key clause exists exactly for begins_with, =, <, <=, > and >= |
| Transpiler.KeyClausesKeeps | ArrowStore/Query/DynamoDBExpressionTranspiler.cs:44-91 | the key loop keeps the allocator invariant and every earlier alias |
| Transpiler.KeyClausesRendered | ArrowStore/Query/DynamoDBExpressionTranspiler.cs:44-91 | a successful key loop gives one clause per key, each written with the aliases the key's name and value have at the end |
| Transpiler.KeyNameAliased | ArrowStore/Query/DynamoDBExpressionTranspiler.cs:46 | the key's attribute name is aliased and the value tables are untouched |
| Transpiler.KeyValueAliased | ArrowStore/Query/DynamoDBExpressionTranspiler.cs:47 | the key's value is aliased as a string after its name, leaving the name tables alone |
| Transpiler.KeyConditionExpressionSpec | ArrowStore/Query/DynamoDBExpressionTranspiler.cs:40-94 | the key condition succeeds exactly when every operator can be expressed, and is then the " and "-join of one clause per key written with the final aliases |
| Transpiler.FreshKeyCondition | ArrowStore/Query/DynamoDBExpressionTranspiler.cs:40-94 | written with a new allocator, the key condition leaves it valid and succeeds exactly when every operator can be expressed |
| Transpiler.ExpandKeeps | ArrowStore/Query/DynamoDBExpressionTranspiler.cs:361-388 | writing a projection changes only the name tables, keeping their invariant and every earlier alias |
| Transpiler.ProjectionKeeps | ArrowStore/Query/DynamoDBExpressionTranspiler.cs:23-38 | the projection text keeps the allocator invariant and every earlier alias |
| Transpiler.ExpandFlatEntries | ArrowStore/Query/DynamoDBExpressionTranspiler.cs:370-385 | over a table whose entries have no nested attributes, the entries from index i on are the aliases of their names, in order |
| Transpiler.ExpandLeafStep | ArrowStore/Query/DynamoDBExpressionTranspiler.cs:381-384 | an entry without nested attributes contributes its own alias |
| Transpiler.ExpandNodeStep | ArrowStore/Query/DynamoDBExpressionTranspiler.cs:372-380 | an entry with nested attributes contributes its nested table's attributes, each prefixed with its alias |
| Transpiler.ProjectionOfFlat | ArrowStore/Query/DynamoDBExpressionTranspiler.cs:23-38 | a flat projection is the ", "-join of the aliases of its attribute names in insertion order, and one without attributes gives no text |
| Transpiler.SelfReferenceProjectsNothing | ArrowStore/Query/DynamoDBExpressionTranspiler.cs:363-366 | a record whose only member is of its own type projects nothing, because the member's nested table was already visited |
| Transpiler.ExpandVisitedEntry | ArrowStore/Query/DynamoDBExpressionTranspiler.cs:363-376 | an entry with attributes of its own whose nested table any earlier part of the walk visited gets its alias and contributes no attribute |
| Transpiler.SharedNestedTableOnce | ArrowStore/Query/DynamoDBExpressionTranspiler.cs:361-388 | of two members sharing one nested table, only the first one's nested attributes are written, because the visited list is shared by the whole walk |
| Transpiler.SharedNestedTableExample | ArrowStore/Query/DynamoDBExpressionTranspiler.cs:361-388 | members Home and Work of one address type holding City project as Home.City alone |
| Transpiler.NoProjectionNoText | ArrowStore/Query/DynamoDBExpressionTranspiler.cs:25-28 | without a projection there is no projection text and no alias is handed out |
| ExpressionTranspiler.ToExpression | ArrowStore/Query/DynamoDBExpressionTranspiler.cs:11-21 | the text and the new allocator tables are those of rendering the tree from the old tables, and a null tree is refused |
| ExpressionTranspiler.Visit | ArrowStore/Query/DynamoDBExpressionTranspiler.cs:96-142 | the text and the new tables are those of rendering the node from the old tables |
| ExpressionTranspiler.VisitBinary | ArrowStore/Query/DynamoDBExpressionTranspiler.cs:354-359 | the text and the new tables are those of rendering the connective |
| ExpressionTranspiler.VisitCompare | ArrowStore/Query/DynamoDBExpressionTranspiler.cs:302-352 | the text and the new tables are those of rendering the comparison |
| ExpressionTranspiler.VisitConst | ArrowStore/Query/DynamoDBExpressionTranspiler.cs:177-180 | the text and the new tables are those of aliasing the constant |
| ExpressionTranspiler.VisitInBraces | ArrowStore/Query/DynamoDBExpressionTranspiler.cs:171-175 | the text and the new tables are those of rendering the braces |
| ExpressionTranspiler.VisitMemberExists | ArrowStore/Query/DynamoDBExpressionTranspiler.cs:165-169 | the text and the new tables are those of rendering the existence test |
| ExpressionTranspiler.VisitInverse | ArrowStore/Query/DynamoDBExpressionTranspiler.cs:144-163 | the text and the new tables are those of rendering the negation |
| ExpressionTranspiler.VisitMethod | ArrowStore/Query/DynamoDBExpressionTranspiler.cs:182-254 | the text and the new tables are those of rendering the call: arguments in order, then the instance |
| ExpressionTranspiler.VisitMemberAccessor | ArrowStore/Query/DynamoDBExpressionTranspiler.cs:256-300 | the text and the new tables are those of resolving the accessor chain |
| ExpressionTranspiler.AliasAll | ArrowStore/Query/DynamoDBExpressionTranspiler.cs:288-291 | the aliases and the new tables are those of aliasing the path segments in order |
| ExpressionTranspiler.GetKeyConditionExpression | ArrowStore/Query/DynamoDBExpressionTranspiler.cs:40-94 | the text and the new tables are those of the key condition over the partition keys |
| ExpressionTranspiler.GetProjectionExpression | ArrowStore/Query/DynamoDBExpressionTranspiler.cs:23-38 | the text and the new tables are those of the projection expression |
| ExpressionTranspiler.ExpandHierarchy | ArrowStore/Query/DynamoDBExpressionTranspiler.cs:361-388 | the attributes, the visited tables and the new allocator tables are those of expanding the hierarchy |
| Writers.TranspiledSound | ArrowStore/Query/DynamoDBExpressionTranspiler.cs:11-21 | the transpiler, as used for filter and condition expressions, keeps every alias handed out before, succeeds exactly on the renderable trees with a non-empty text, changes only the name tables for a member access, and writes braces as a parenthesized text |
| UpdateBuilders.Open | ArrowStore/Update/ArrowStoreUpdateBuilder.cs:43-47 | the section's list is created when missing, an existing list keeps its clauses, and no other section changes |
| UpdateBuilders.Append | ArrowStore/Update/ArrowStoreUpdateBuilder.cs:52 | the section's list grows by exactly the new clause, at its end, and no other section changes |
| UpdateBuilders.SetOp | ArrowStore/Update/ArrowStoreUpdateBuilder.cs:40-70 | a refused accessor fails before anything changes; otherwise only the SET list can change, by one clause on success and by none on failure |
| UpdateBuilders.SetWrite | ArrowStore/Update/ArrowStoreUpdateBuilder.cs:49-52 | once the SET list exists, a success adds one clause and a failure leaves every list as it was |
| UpdateBuilders.SetOpSpec | ArrowStore/Update/ArrowStoreUpdateBuilder.cs:40-70 | Set succeeds exactly when the accessor is accepted and writable; its clause is written from a non-empty path and an alias standing for the value, as `path = :alias` or `path = if_not_exists(path, :alias)`, and every earlier alias is kept |
| UpdateBuilders.SetDoublesColon | ArrowStore/Update/ArrowStoreUpdateBuilder.cs:49-52 | as written, the clause puts a second ':' in front of the value alias, so the first value of a fresh builder is written `::attr_val_0` |
| UpdateBuilders.Abs | ArrowStore/Update/ArrowStoreUpdateBuilder.cs:72-118 | Math.Abs of a same-typed amount fails exactly on the type's smallest integer, and otherwise gives the amount or its negation, never negative and within range |
| UpdateBuilders.IncreaseOp | ArrowStore/Update/ArrowStoreUpdateBuilder.cs:72-118 | zero is refused with ArgumentNull before the accessor is looked at, a refused accessor fails next, the smallest integer overflows, and otherwise only the SET list changes, by one clause on success |
| UpdateBuilders.IncreaseBy | ArrowStore/Update/ArrowStoreUpdateBuilder.cs:309-325 | the private Increase changes only the SET list: one clause more on success, none on failure |
| UpdateBuilders.IncreaseOpSpec | ArrowStore/Update/ArrowStoreUpdateBuilder.cs:72-325 | a non-zero Increase of an accepted, writable accessor succeeds unless it overflows; its clause is `a = a + :v` for a positive amount and `a = a - :v` for a negative one, with v standing for the absolute amount of the same type and a a name alias whose attribute name is the written path |
| UpdateBuilders.ListOp | ArrowStore/Update/ArrowStoreUpdateBuilder.cs:120-199 | null is refused with ArgumentNull, an empty collection does nothing, and otherwise only the list's section (SET for append and prepend, DELETE for delete) changes, by one clause on success |
| UpdateBuilders.ListWrite | ArrowStore/Update/ArrowStoreUpdateBuilder.cs:120-199 | once the section exists, a success adds one clause and a failure leaves every list as it was |
| UpdateBuilders.ListOpSpec | ArrowStore/Update/ArrowStoreUpdateBuilder.cs:120-199 | a non-empty collection leaves its section created and is added exactly when the accessor is accepted and writable, as `list_append(path, :v)`, `list_append(:v, path)` or `path :v)`, with v standing for the collection |
| UpdateBuilders.RemoveOp | ArrowStore/Update/ArrowStoreUpdateBuilder.cs:201-214 | the REMOVE list is created first, so a refused accessor still leaves it; otherwise only REMOVE changes, by one clause on success |
| UpdateBuilders.RemoveOpSpec | ArrowStore/Update/ArrowStoreUpdateBuilder.cs:201-214 | Remove succeeds exactly when the accessor is accepted and writable, adds the non-empty path, and changes only the name tables |
| UpdateBuilders.SectionTextsOfPresent | ArrowStore/Update/ArrowStoreUpdateBuilder.cs:260-281 | the section texts are exactly those of the sections present, in order |
| UpdateBuilders.PresentSectionsSpec | ArrowStore/Update/ArrowStoreUpdateBuilder.cs:260-281 | the sections listed are exactly those created, in the fixed order |
| UpdateBuilders.SectionTextsSpec | ArrowStore/Update/ArrowStoreUpdateBuilder.cs:260-281 | the update expression lists exactly the created sections, each once, in the order SET, REMOVE, ADD, DELETE, each as its keyword followed by its clauses joined with ", " in call order |
| UpdateBuilders.SectionTextsUnrolled | ArrowStore/Update/ArrowStoreUpdateBuilder.cs:261-279 | the four separate tests of ExecuteAsync are the walk over the fixed section order |
| UpdateBuilders.WrapPrefix | ArrowStore/Update/ArrowStoreUpdateBuilder.cs:249-252 | wrapping the first n conditions in place keeps the number of conditions |
| UpdateBuilders.FirstPass | ArrowStore/Update/ArrowStoreUpdateBuilder.cs:243-258 | the first condition loop stops at or after its start and never past the end, counting the condition that failed |
| UpdateBuilders.FirstPassStep | ArrowStore/Update/ArrowStoreUpdateBuilder.cs:247-255 | one turn of the first loop: wrap when there are several conditions, write with the request's own allocator, stop on failure |
| UpdateBuilders.SecondPassStep | ArrowStore/Update/ArrowStoreUpdateBuilder.cs:287-290 | one turn of the second loop: brace a copy when there are several conditions, write with the builder's allocator, stop on failure |
| UpdateBuilders.WrapPrefixStep | ArrowStore/Update/ArrowStoreUpdateBuilder.cs:249-252 | wrapping in place replaces exactly the i-th condition |
| UpdateBuilders.NothingToUpdateRefused | ArrowStore/Update/ArrowStoreUpdateBuilder.cs:229-232 | a builder with no clause is refused with InvalidOperation before anything is mapped or allocated |
| UpdateBuilders.WrapRenderable | ArrowStore/Update/ArrowStoreUpdateBuilder.cs:249-289 | wrapping a condition in braces does not change whether it can be written |
| UpdateBuilders.FirstPassSucceeds | ArrowStore/Update/ArrowStoreUpdateBuilder.cs:243-258 | when every condition left can be written, the first loop succeeds, wraps them all, keeps the allocator valid and gives one text per condition |
| UpdateBuilders.SecondPassSucceeds | ArrowStore/Update/ArrowStoreUpdateBuilder.cs:283-293 | when every condition left can be written, the second loop succeeds with one text per condition |
| UpdateBuilders.SecondPassKeeps | ArrowStore/Update/ArrowStoreUpdateBuilder.cs:283-293 | the second loop keeps the builder allocator's invariant and every alias, whether or not it succeeds |
| UpdateBuilders.SecondPassParenthesized | ArrowStore/Update/ArrowStoreUpdateBuilder.cs:289 | with several conditions, every text the second loop writes is in parentheses |
| UpdateBuilders.KeyAttributesStable | ArrowStore/Update/ArrowStoreUpdateBuilder.cs:239 | mapping the key keeps the allocator's invariant and every alias |
| UpdateBuilders.FirstPassAll | ArrowStore/Update/ArrowStoreUpdateBuilder.cs:243-258 | over writable conditions, from a new allocator, the first loop wraps and writes them all |
| UpdateBuilders.WrapPrefixRenderable | ArrowStore/Update/ArrowStoreUpdateBuilder.cs:249-252 | wrapping every condition leaves them writable |
| UpdateBuilders.SecondPassAll | ArrowStore/Update/ArrowStoreUpdateBuilder.cs:283-293 | over writable conditions the second loop gives one text per condition, parenthesized when there are several, and keeps every alias |
| UpdateBuilders.RequestAgainSucceeds | ArrowStore/Update/ArrowStoreUpdateBuilder.cs:283-303 | once the first loop succeeded, the request carries the update expression, the key, and a condition exactly when there are conditions, joined with " and " |
| UpdateBuilders.ExecuteSucceeds | ArrowStore/Update/ArrowStoreUpdateBuilder.cs:227-303 | a builder with clauses whose conditions can all be written gives a request with the fixed-order update expression, the mapped key and the " and "-joined conditions, keeps every alias and leaves each condition wrapped once |
| UpdateBuilders.NoConditionSendsNoAliases | ArrowStore/Update/ArrowStoreUpdateBuilder.cs:242-303 | as written, without a condition the request carries no attribute names and no values whatever aliases its clauses use, because they are read from the request's own allocator, which only the first condition loop fills |
| UpdateBuilders.ArrowStoreUpdateBuilder.constructor | ArrowStore/Update/ArrowStoreUpdateBuilder.cs:28-38 | a new builder holds no section, no condition and a new allocator |
| UpdateBuilders.ArrowStoreUpdateBuilder.OpenSection | ArrowStore/Update/ArrowStoreUpdateBuilder.cs:43-47 | the sections become the get-or-create of the section's list, conditions unchanged |
| UpdateBuilders.ArrowStoreUpdateBuilder.AddClause | ArrowStore/Update/ArrowStoreUpdateBuilder.cs:52 | the sections become those with the clause added to the list, conditions unchanged |
| UpdateBuilders.ArrowStoreUpdateBuilder.WriteExpression | ArrowStore/Update/ArrowStoreUpdateBuilder.cs:50-51 | the text and the new allocator are those of the transpiler over the write projection |
| UpdateBuilders.ArrowStoreUpdateBuilder.Set | ArrowStore/Update/ArrowStoreUpdateBuilder.cs:40-54 | the outcome, the sections and the allocator are those of Set over the parsed accessor |
| UpdateBuilders.ArrowStoreUpdateBuilder.SetWhenNotExists | ArrowStore/Update/ArrowStoreUpdateBuilder.cs:56-70 | the outcome, the sections and the allocator are those of SetWhenNotExists over the parsed accessor |
| UpdateBuilders.ArrowStoreUpdateBuilder.SetValue | ArrowStore/Update/ArrowStoreUpdateBuilder.cs:43-52 | the shared body of Set and SetWhenNotExists matches its function from the parsed accessor on |
| UpdateBuilders.ArrowStoreUpdateBuilder.AddSet | ArrowStore/Update/ArrowStoreUpdateBuilder.cs:49-52 | once the SET list exists, the outcome is that of aliasing, writing and adding the clause |
| UpdateBuilders.ArrowStoreUpdateBuilder.Increase | ArrowStore/Update/ArrowStoreUpdateBuilder.cs:72-118 | the outcome, the sections and the allocator are those of Increase over the parsed accessor |
| UpdateBuilders.ArrowStoreUpdateBuilder.IncreaseAmount | ArrowStore/Update/ArrowStoreUpdateBuilder.cs:74-81 | the shared body of the Increase overloads matches its function from the parsed accessor on |
| UpdateBuilders.ArrowStoreUpdateBuilder.IncreaseWith | ArrowStore/Update/ArrowStoreUpdateBuilder.cs:309-325 | the private Increase matches its function |
| UpdateBuilders.ArrowStoreUpdateBuilder.AppendToList | ArrowStore/Update/ArrowStoreUpdateBuilder.cs:120-145 | the outcome, the sections and the allocator are those of the append list update |
| UpdateBuilders.ArrowStoreUpdateBuilder.PrependToList | ArrowStore/Update/ArrowStoreUpdateBuilder.cs:147-172 | the outcome, the sections and the allocator are those of the prepend list update |
| UpdateBuilders.ArrowStoreUpdateBuilder.DeleteFromList | ArrowStore/Update/ArrowStoreUpdateBuilder.cs:174-199 | the outcome, the sections and the allocator are those of the delete list update |
| UpdateBuilders.ArrowStoreUpdateBuilder.UpdateList | ArrowStore/Update/ArrowStoreUpdateBuilder.cs:122-143 | the shared body of the list updates matches its function from the parsed accessor on |
| UpdateBuilders.ArrowStoreUpdateBuilder.AddToList | ArrowStore/Update/ArrowStoreUpdateBuilder.cs:139-143 | once the section exists, the outcome is that of aliasing the collection, writing the path and adding the clause |
| UpdateBuilders.ArrowStoreUpdateBuilder.Remove | ArrowStore/Update/ArrowStoreUpdateBuilder.cs:201-214 | the outcome, the sections and the allocator are those of Remove over the parsed accessor |
| UpdateBuilders.ArrowStoreUpdateBuilder.RemoveMember | ArrowStore/Update/ArrowStoreUpdateBuilder.cs:203-213 | the body of Remove matches its function from the parsed accessor on |
| UpdateBuilders.ArrowStoreUpdateBuilder.When | ArrowStore/Update/ArrowStoreUpdateBuilder.cs:216-225 | the outcome and the conditions are those of When, the sections unchanged |
| UpdateBuilders.ArrowStoreUpdateBuilder.Execute | ArrowStore/Update/ArrowStoreUpdateBuilder.cs:227-304 | the request, the conditions left behind and the allocator are those ExecuteAsync computes before the service call |
| UpdateBuilders.ArrowStoreUpdateBuilder.ExecuteKeyed | ArrowStore/Update/ArrowStoreUpdateBuilder.cs:242-304 | from the mapped key on, the request, conditions and allocator match the function |
| UpdateBuilders.ArrowStoreUpdateBuilder.ExecuteAgain | ArrowStore/Update/ArrowStoreUpdateBuilder.cs:260-304 | from the second loop on, the request and allocator match the function and the conditions are the wrapped ones |
| UpdateBuilders.ArrowStoreUpdateBuilder.BuildRequest | ArrowStore/Update/ArrowStoreUpdateBuilder.cs:235-303 | the request carries the key, the " and "-joined conditions when there are any, the update expression, and the request allocator's names and values when it has any |
| UpdateBuilders.ArrowStoreUpdateBuilder.UpdateExpression | ArrowStore/Update/ArrowStoreUpdateBuilder.cs:260-281 | the update expression is the space-join of the present sections' texts in the fixed order |
| UpdateBuilders.ArrowStoreUpdateBuilder.RenderConditions | ArrowStore/Update/ArrowStoreUpdateBuilder.cs:243-258 | the texts, the conditions wrapped in place and the new allocator are those of the first pass from a new allocator |
| UpdateBuilders.ArrowStoreUpdateBuilder.RenderConditionsAgain | ArrowStore/Update/ArrowStoreUpdateBuilder.cs:283-293 | the texts and the new allocator are those of the second pass |
| Writers.AddParsed | ArrowStore/Query/DynamoDBQueryBuilder.cs:39-48 | a null predicate is refused with ArgumentNull naming the parameter; otherwise the parsed predicate is added last, and a parse failure changes nothing |
| QueryBuilders.WhereKeepsOrder | ArrowStore/Query/DynamoDBQueryBuilder.cs:39-48 | a chain of Where calls succeeds exactly when every expression parses, and then adds their nodes after the earlier ones, in call order |
| QueryBuilders.FilterPassStep | ArrowStore/Query/DynamoDBQueryBuilder.cs:106-115 | one turn of the filter loop: brace the predicate when there are several and it is not braced already, write it with the request's allocator, stop on failure |
| QueryBuilders.FilterPassLength | ArrowStore/Query/DynamoDBQueryBuilder.cs:105-115 | a successful filter loop gives one text per predicate |
| QueryBuilders.FilterPassKeeps | ArrowStore/Query/DynamoDBQueryBuilder.cs:105-115 | the filter loop keeps the allocator's invariant and every alias, whether or not it succeeds |
| QueryBuilders.FilterPassSucceeds | ArrowStore/Query/DynamoDBQueryBuilder.cs:105-115 | the filter loop succeeds exactly when every predicate left can be written |
| QueryBuilders.FilterPassParenthesized | ArrowStore/Query/DynamoDBQueryBuilder.cs:109-114 | with several predicates, every filter text is in parentheses |
| QueryBuilders.SinglePredicateUnwrapped | ArrowStore/Query/DynamoDBQueryBuilder.cs:109-114 | a single predicate is written as it is, without braces |
| QueryBuilders.RequestSettled | ArrowStore/Query/DynamoDBQueryBuilder.cs:86-102 | a request is made only when the key condition and the start key could be made, and carries the table, the index, the consistency and scan direction asked for, the key condition, the decoded start key (none for a null or empty cursor) and a limit only when the limit is positive |
| QueryBuilders.UnsupportedKeyRefused | ArrowStore/Query/DynamoDBQueryBuilder.cs:95 | a key operator the key condition cannot express makes the listing fail before any service call |
| QueryBuilders.FilteredRequestSpec | ArrowStore/Query/DynamoDBQueryBuilder.cs:104-131 | from the filter loop on, the request is made exactly when every predicate can be written, and its filter is absent without predicates and otherwise the " and "-join of one text per predicate, each parenthesized when there are several |
| QueryBuilders.SharedVarsKeep | ArrowStore/Query/DynamoDBQueryBuilder.cs:86-131 | the key condition, the filters and the projection share one allocator filled in that order, which keeps its invariant and every alias the key condition and the filters gave |
| QueryBuilders.RequestSendsShared | ArrowStore/Query/DynamoDBQueryBuilder.cs:123-131 | the names sent are the shared allocator's names when it has any, and the values its values when a number was handed out |
| QueryBuilders.KeyAliasesSent | ArrowStore/Query/DynamoDBQueryBuilder.cs:95-126 | every attribute-name alias the key condition handed out is among the names sent, with its name |
| QueryBuilders.RequestMade | ArrowStore/Query/DynamoDBQueryBuilder.cs:86-131 | with supported key operators, a start key that decodes and predicates that can all be written, a request is made, with the filter as described |
| QueryBuilders.KeyedFilterSent | ArrowStore/Query/DynamoDBQueryBuilder.cs:95-120 | after the key condition, the filter loop over writable predicates always makes the request, with the filter as described |
| QueryBuilders.MapItems | ArrowStore/Query/DynamoDBQueryBuilder.cs:142-144 | one record per item of the page, in order, each mapped from its item |
| QueryBuilders.LastPage | ArrowStore/Query/DynamoDBQueryBuilder.cs:136-152 | the page the loop stops after is one of the pages, at or after the one it starts from |
| QueryBuilders.AddItemsLimited | ArrowStore/Query/DynamoDBQueryBuilder.cs:142-149 | a page started below take, or with no take, adds its records in order until take is reached |
| QueryBuilders.LastPageStops | ArrowStore/Query/DynamoDBQueryBuilder.cs:152 | the loop goes on past every page before the one it stops after, and stops there |
| QueryBuilders.CollectedLimited | ArrowStore/Query/DynamoDBQueryBuilder.cs:136-152 | while the loop goes on, the records collected are the first take of all the records fetched |
| QueryBuilders.ListedRecords | ArrowStore/Query/DynamoDBQueryBuilder.cs:133-154 | the records listed are those of the pages fetched, in page and item order, cut to the first take when take is positive; the loop fetched while the service had more and take was not reached, stopped at the first page after which either failed, and the cursor encodes that page's last evaluated key, absent when there is nothing more |
| QueryBuilders.NoTakeReadsToTheEnd | ArrowStore/Query/DynamoDBQueryBuilder.cs:145-152 | without a positive take the loop fetches every page up to the first with no last evaluated key, and lists all their records |
| QueryBuilders.DynamoDBQueryBuilder.constructor | ArrowStore/Query/DynamoDBQueryBuilder.cs:30-37 | a new builder holds no predicate, no start key, zero limit and take, and a backward scan |
| QueryBuilders.DynamoDBQueryBuilder.Where | ArrowStore/Query/DynamoDBQueryBuilder.cs:39-48 | the outcome and the predicates are those of Where, the settings unchanged |
| QueryBuilders.DynamoDBQueryBuilder.ExclusiveStartKey | ArrowStore/Query/DynamoDBQueryBuilder.cs:50-54 | only the start key setting changes, to the value given |
| QueryBuilders.DynamoDBQueryBuilder.Limit | ArrowStore/Query/DynamoDBQueryBuilder.cs:56-60 | only the limit setting changes, to the value given |
| QueryBuilders.DynamoDBQueryBuilder.Take | ArrowStore/Query/DynamoDBQueryBuilder.cs:62-66 | only the take setting changes, to the value given |
| QueryBuilders.DynamoDBQueryBuilder.ScanIndexForward | ArrowStore/Query/DynamoDBQueryBuilder.cs:68-72 | only the scan direction setting changes, to the value given |
| QueryBuilders.DynamoDBQueryBuilder.List | ArrowStore/Query/DynamoDBQueryBuilder.cs:74-77 | the listing is that of an eventually consistent request over the builder's settings |
| QueryBuilders.DynamoDBQueryBuilder.ListConsistent | ArrowStore/Query/DynamoDBQueryBuilder.cs:79-82 | the listing is that of a consistent request over the builder's settings |
| QueryBuilders.DynamoDBQueryBuilder.DoList | ArrowStore/Query/DynamoDBQueryBuilder.cs:84-155 | the listing is that of the request over the pages the service answers |
| QueryBuilders.DynamoDBQueryBuilder.BuildQuery | ArrowStore/Query/DynamoDBQueryBuilder.cs:86-131 | the request is the one the builder's index, predicates and settings give |
| QueryBuilders.DynamoDBQueryBuilder.KeyCondition | ArrowStore/Query/DynamoDBQueryBuilder.cs:86-95 | the key condition and the new allocator are those of the key condition from a new allocator |
| QueryBuilders.DynamoDBQueryBuilder.FilterAndProject | ArrowStore/Query/DynamoDBQueryBuilder.cs:104-131 | the request from the filter loop on matches its function |
| QueryBuilders.DynamoDBQueryBuilder.RenderFilters | ArrowStore/Query/DynamoDBQueryBuilder.cs:105-115 | the filter texts and the new allocator are those of the filter pass |
| QueryBuilders.DynamoDBQueryBuilder.Finish | ArrowStore/Query/DynamoDBQueryBuilder.cs:117-131 | the request gets the " and "-joined filter when there is one, the projection, and the allocator's names and values when it has any |
| QueryBuilders.DynamoDBQueryBuilder.Paginate | ArrowStore/Query/DynamoDBQueryBuilder.cs:136-152 | the records are those collected up to the page the loop stops after, the cursor is that page's last evaluated key, and each request after the first starts from the previous page's last evaluated key |
| QueryBuilders.DynamoDBQueryBuilder.AddPage | ArrowStore/Query/DynamoDBQueryBuilder.cs:142-149 | one page's records are added in order until take is reached |
| PrimitiveProfile.ToNumberAttribute | ArrowStore/Mapper/PrimitiveMappingProfile.cs:543-556 | a missing value fails with the type's "value is required" error exactly when it is required, gives NULL when it is not, and a present value is written as N |
| PrimitiveProfile.TryParse | ArrowStore/Mapper/PrimitiveMappingProfile.cs:560 | int.TryParse of the type's width: the parsed integer when the text is an integer in the type's range, and nothing otherwise |
| PrimitiveProfile.ParseNumber | ArrowStore/Mapper/PrimitiveMappingProfile.cs:558-571 | a null, empty or unparsable text fails exactly when required, quoting the text, and otherwise gives no value; a parsed value is the text's integer and lies in range |
| PrimitiveProfile.NumberText | ArrowStore/Mapper/PrimitiveMappingProfile.cs:521 | the N text of an attribute, none for a missing attribute |
| PrimitiveProfile.FromNumberAttribute | ArrowStore/Mapper/PrimitiveMappingProfile.cs:519-522 | reading a number attribute is parsing its N text, with the same requiredness |
| PrimitiveProfile.NumberRoundTrip | ArrowStore/Mapper/PrimitiveMappingProfile.cs:519-556 | writing a value in range and reading it back gives the value, and a missing optional value comes back missing |
| PrimitiveProfile.ToNumberListAttribute | ArrowStore/Mapper/PrimitiveMappingProfile.cs:524-541 | a null or empty list is written as NULL; otherwise as NS holding each value's decimal text, in order |
| PrimitiveProfile.ParseAllSpec | ArrowStore/Mapper/PrimitiveMappingProfile.cs:510-516 | the texts parse exactly when every one does, giving each parsed value in order; otherwise the first unreadable text is reported |
| PrimitiveProfile.FromNumberListAttribute | ArrowStore/Mapper/PrimitiveMappingProfile.cs:503-517 | a missing, NULL, non-NS or empty attribute gives the empty list; otherwise every element is parsed as required, in order, and the first one that fails fails the whole read |
| PrimitiveProfile.ParseAllPrefixFails | ArrowStore/Mapper/PrimitiveMappingProfile.cs:511-514 | once a prefix of the texts fails to parse, the loop fails with that error |
| PrimitiveProfile.NumberListRoundTrip | ArrowStore/Mapper/PrimitiveMappingProfile.cs:503-541 | writing a list of in-range values and reading it back gives the list, and a null list comes back empty |
| PrimitiveProfile.ToStringAttribute | ArrowStore/Mapper/PrimitiveMappingProfile.cs:608-616 | a null or empty string is written as NULL, any other as S |
| PrimitiveProfile.FromStringAttribute | ArrowStore/Mapper/PrimitiveMappingProfile.cs:584-587 | reading a string attribute gives its S text, none for a missing attribute |
| PrimitiveProfile.StringRoundTrip | ArrowStore/Mapper/PrimitiveMappingProfile.cs:584-616 | writing a string and reading it back gives it, except that an empty string comes back missing |
| PrimitiveProfile.ToStringListAttribute | ArrowStore/Mapper/PrimitiveMappingProfile.cs:589-606 | a null or empty list is written as NULL; otherwise as SS holding the strings in order |
| PrimitiveProfile.FromStringListAttribute | ArrowStore/Mapper/PrimitiveMappingProfile.cs:574-582 | reading a string list gives its SS strings, and the empty list when there are none |
| PrimitiveProfile.StringListRoundTrip | ArrowStore/Mapper/PrimitiveMappingProfile.cs:574-606 | writing a string list and reading it back gives the list, and a null list comes back empty |
| Common.Split | ArrowStore/Query/DynamoDBExpressionTranspiler.cs:288 | string.Split on one character gives at least one piece, empty pieces kept |
| Common.SplitJoin | ArrowStore/Query/DynamoDBExpressionTranspiler.cs:288 | splitting the '.'-join of pieces that hold no separator gives the pieces back |
| Common.NatToString | ArrowStore/Query/QueryVariables.cs:48 | the decimal text of a counter is a non-empty string of digits |
| Common.NatToStringInjective | ArrowStore/Query/QueryVariables.cs:48 | distinct counters are written differently, so numbered aliases never collide |
| Common.IntegerRoundTrip | ArrowStore/Mapper/PrimitiveMappingProfile.cs:555-560 | formatting an integer and parsing the text gives the integer back |
| FromAttributes.FromAttributesMapBuilder.constructor | ArrowStore/Mapper/FromAttributesMapBuilder.cs:16-23 | a new read builder has no mapping yet and works on the given projection |
| ToAttributes.ToAttributesMapBuilder.constructor | ArrowStore/Mapper/ToAttributesMapBuilder.cs:18-28 | a new write builder has no path and no getter yet and works on the given projection |
| Projections.ProjectionStore.constructor | ArrowStore/Mapper/DynamoDBConverterBuilder.cs:14-19 | a new projection registry is empty |
| Mapper.DynamoDBMapper.constructor | ArrowStore/Mapper/DynamoDBMapper.cs:20-25 | the mapper keeps the read and the write projection registries it is given |
| Transpiler.RootText | ArrowStore/Query/DynamoDBExpressionTranspiler.cs:13-16 | a null root node is refused with an argument-null error naming expressionNode and leaves the allocator as it was; any other root is rendered as a tree |
| Transpiler.CompareText | ArrowStore/Query/DynamoDBExpressionTranspiler.cs:302-352 | a comparison succeeds exactly when both operands render; its text is the left text, the operator's spaced token, then the right text; the right operand is rendered from the state the left one left behind |
| Transpiler.BinaryText | ArrowStore/Query/DynamoDBExpressionTranspiler.cs:354-359 | a connective succeeds exactly when both operands render; its text is the left text, " or " for a disjunction and " and " otherwise, then the right text, rendered left to right |
| Transpiler.BracesText | ArrowStore/Query/DynamoDBExpressionTranspiler.cs:171-175 | a braced node renders as its body's text in parentheses, with the body's failure and allocator state |
| Transpiler.MemberExistsText | ArrowStore/Query/DynamoDBExpressionTranspiler.cs:165-169 | an existence test renders as attribute_exists applied to its accessor's text, failing exactly when the accessor does |

## Left out

- Network I/O and configuration: `ArrowStoreDynamoDBService`, `IArrowStoreConfiguration`, `ResolveClientAsync` and the `QueryAsync` / `UpdateItemAsync` calls. The table name and the cursor IV are parameters. The pages a query receives are an input sequence, and the model requires that the sequence ends with a page that has no continuation key.
- AES encryption and decryption, base64 and LitJson in the mapper. They are foreign libraries, so the model takes them as the `Cipher` record of functions. The null checks and the IV-then-ciphertext framing are modelled.
- AutoMapper: the `Configure*` methods of `PrimitiveMappingProfile` (lines 13-201), `CreateMap`, `ForMember`, `ConvertUsing`, `AddProfile` and `Map`. `MapFromAttributes` is a total `fromItem` function the caller supplies, so mapping failures in that library are not modelled.
- Reflection: `EvaluateMemberValue`, the `Activator`-based `ForceConverter`, and the constant folding of captured members in the parser. They are functions of the `Host` record. In Convert, `EvaluateMemberValue` on the source record is the `read` parameter, which returns a `Result`: it can fail, as the library throws for a member name the record type does not have.
- `HttpUtility.UrlEncode` in `DynamoDBPartitionKey.Composite` is a parameter function. The property relied on is that its output contains no `#`.
- The DateTime and decimal codecs in `PrimitiveMappingProfile`. They depend on library formatting and culture rules.
- PrimitiveProfile.ParseNumber: it accepts one canonical integer grammar: an optional `+` or `-`, then decimal digits. The surrounding white space and the culture rules that .NET `TryParse` also accepts are not modelled.
- PrimitiveProfile.ToNumberAttribute: the `short`, `int` and `long` codecs share one model parameterised by width; their code is the same apart from the type.
- `DynamoDBPutBuilder` and `DynamoDBDeleteBuilder`: request plumbing whose only logic, the parenthesised ` and `-join of conditions, is the one modelled for the update and query builders.
- The `filterExpressions`, `conditionExpr` and `conditionExp` arrays, and the `resultSegments` array of `Composite`, are sequences built up in loops, not arrays filled by index.
- ToAttributes.SetAttributeValue: it is modelled on values, not as in-place mutation of shared nested dictionaries. When an intermediate member already holds an attribute that is not a map, the library writes into that attribute's unused map; the model drops that write.
- FromAttributes.FromAttributesMapBuilder.Required / Optional: the caller's `converterBuilder` action is given as the list of MapFrom calls it makes, in order. Zero, one or several calls are modelled. An action that throws an exception of its own, or does anything other than call MapFrom, is not modelled. Every registration is kept in `mappings` in call order; which of several registrations for one member AutoMapper applies is left to AutoMapper.
- Mapper.MapToAttributes: it omits the `queryVars` parameter, which the library never reads.
- Interface-only files, `ITypeConverter` and the plain data holders (`AttributesProjection`, `AttributesHierarchy`, `AttributeNameReference`, `ArrowStoreListResult`, the node classes). They are datatypes or arena records of the model, not separate members.
- Dictionaries shared by reference between projection tables are entries of an arena keyed by number. Aliasing between them is the sharing of one entry.
- The test projects.
