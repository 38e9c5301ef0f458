# Batch list updates for PostGraphile, modelled in Dafny

This project models the core of a PostGraphile plugin that adds, for every
updatable table with a primary key, a root mutation `update<Table>s`. The
mutation takes a list of `{id, patch}` items and updates all of them with ONE
`UPDATE … FROM (VALUES …)` statement. The model covers four parts:

- **Metadata resolution** (`Introspection`). The plugin chooses the tables that
  get a mutation: those with a namespace that are selectable, insertable and
  updatable, that have a table type, a primary-key constraint whose first key
  attribute exists, that attribute as a field of the table type, and a patch
  type. A table that fails any check is skipped. For each table it builds the
  field-name → attribute index, and later attributes win on a clash.
- **Statement synthesis** (`BatchUpdate`, with the reference semantics
  `UpdateSemantics`). The resolver builds the UPDATE statement. Every
  `TypeError` the JavaScript raises on a `null`/`undefined` becomes an error
  result, returned at the point where the source would throw.
- **`viaTemporaryTable`** (`Codec`). The mutation's rows are serialized to
  text inside PostgreSQL. The non-null texts are parsed back in a second query
  that runs only when there are any. The results are merged back into row
  order, with `{__isNull: true}` in the null positions.
- **The savepoint bracket** (`Resolver`). `SAVEPOINT graphql_mutation` is sent
  first. Then come the codec round trip and the UPDATE a second time, directly;
  that second run is where the payload's rows come from. `RELEASE` ends a
  success. On any failure, `ROLLBACK TO SAVEPOINT` is sent and the error is
  rethrown, unless the rollback itself fails.

SQL is a small statement tree (`Sql`), not text. The database session is the
class `Client.PgClient`. It records every statement sent, and its answers are
an arbitrary function of the whole history sent so far. So every property about
a run holds whatever the database does.

The methods that talk to the database are `Codec.ViaTemporaryTable`,
`Resolver.Resolve` and `Resolver.RollBackAndThrow`; they modify the client and
are proved equal to the protocol functions `Codec.RunVia`, `Resolver.ResolveRun`
and `Resolver.RollBack`. The loops of the source, `Codec.MergeRows`,
`Introspection.AttrByFieldName` and `Introspection.CollectMutations`, change
nothing outside themselves and are proved equal to `Codec.Merge`,
`Introspection.AttrMap` and `Introspection.Registered`. The properties are then
lemmas about those functions.

`Symbol()` is modelled as a counter. `Resolver.Resolve` takes `counter`, and
uses `Symbol(counter)`, `Symbol(counter + 1)`, `Symbol(counter + 2)` and
`Symbol(counter + 3)` for its four fresh aliases.

Two behaviours of the code are worth knowing, and the model proves both:

- The updated columns come from the FIRST item's patch alone. A later item
  whose patch lacks one of them contributes `gql2pg(undefined, type)` in that
  column (`BatchUpdate.MissingFieldIsUndefined`).
- The UPDATE statement is executed twice inside the savepoint: once inside the
  codec's serialize query, and once directly (`Resolver.BracketShape`).

## Model

| member | source | states |
|---|---|---|
| `Js.AsJs` | index.js:27-34 | a result row set as JavaScript values: one per row, `null` exactly for a `null` row, otherwise the row object |
| `Js.Get` | index.js:84 | a property read yields the value of the row's last field with that name, `undefined` when there is none |
| `Js.Keys` | index.js:83 | `Object.keys` lists each field name once, and lists exactly the names the row has; the first key is the name of the first field |
| `Js.KeysFirstAssignmentOrder` | index.js:83 | keys are listed in order of first assignment: a key listed before another was assigned before any assignment of the other |
| `Client.PgClient.Query` | index.js:18-23 | a query appends the statement to the session history and answers with the database's response to that history |
| `Decimal.NatToString` | index.js:64 | the numeral of a number is a non-empty string of digits, without a leading zero for a positive number |
| `Decimal.ParseNatToString` | index.js:64 | the decimal numeral of `n` parses back to `n` |
| `Decimal.NatToStringInjective` | index.js:64 | different numbers have different numerals |
| `Codec.OutputColumnName` | index.js:64 | an output column name is never empty, and a given name is kept |
| `Codec.DefaultColumnName` | index.js:64 | an unnamed output argument at 0-based position `idx` is `column` followed by digits, the first not `0`, that parse to `idx + 1` |
| `Codec.DefaultColumnNamesDistinct` | index.js:106 | unnamed output arguments at different positions get different column names |
| `Codec.ColumnNames` | index.js:57-68 | one column name per output argument, position by position |
| `Codec.SelectionField` | index.js:47-69 | the serialize selection: the null-coalesced row for table types, a text array of the output columns for records, else a cast of the alias to the type |
| `Codec.Slots` | index.js:92-110 | record slots fail exactly when an output argument has no type; else slot `i` reads position `i + 1`, casts to the namespace-qualified type and keeps the column name |
| `Codec.ConvertFieldBack` | index.js:87-117 | the reconstruction statement for each result kind, with the record case failing exactly as `Slots` does |
| `Codec.RecordColumnsAgree` | index.js:57-110 | the serialize and the reconstruction queries name every record column the same way, in the same order |
| `Codec.FirstNonNull` | index.js:79 | `find` gives the first non-null row, and nothing exactly when every row is null |
| `Codec.FirstKey` | index.js:83 | the key read is the name of the first field of the first non-null row; there is none exactly when every row is null or that row has no fields |
| `Codec.PropertyKey` | index.js:84 | the property a row is read at: the first key, or the property named `undefined` when there is no first key, as JavaScript coerces `row[undefined]` |
| `Codec.RawValues` | index.js:84 | one raw value per row: `null` for a null row, else that row's value under the first key (the key `undefined` when there is none) |
| `Codec.NonNull` | index.js:85 | the filter keeps no `null` and is no longer than its input |
| `Codec.Rank` | index.js:85 | how many non-null raw values come before a position: the index that value gets in the filtered list |
| `Codec.NonNullAppend` | index.js:85 | the filter distributes over concatenation |
| `Codec.RankFront` | index.js:85 | a value's rank among the non-null values, stepped over the first raw value |
| `Codec.NonNullAt` | index.js:85 | each non-null raw value sits in the filtered list at its rank |
| `Codec.RankIncreasing` | index.js:85 | the filter keeps the order of the non-null values |
| `Codec.NonNullOnto` | index.js:85 | every filtered value comes from some non-null raw value of that rank |
| `Codec.NonNullEmpty` | index.js:118-129 | the filtered list is empty exactly when every raw value is `null` |
| `Js.NullMarker` | index.js:135 | the marker object `{__isNull: true}` put where a serialized value was `null` |
| `Codec.Head` | index.js:138 | what `shift()` returns: the first queued result, `undefined` on an empty queue |
| `Codec.Tail` | index.js:138 | the queue after `shift()`: without its first element, still empty when it was empty |
| `Codec.At` | index.js:138 | the result the `k`-th `shift()` yields: the `k`-th result, `undefined` once they run out |
| `Codec.Merge` | index.js:130-139 | the merge has one entry per raw value |
| `Codec.MergeAt` | index.js:130-139 | entry `i` is `{__isNull: true}` when raw value `i` is null, and otherwise the reconstructed row at that value's rank (`undefined` once the results run out) |
| `Codec.ReconstructedRowsPlaced` | index.js:130-139 | when there is one result per non-null value, every reconstructed row lands at the position of the raw value it came from |
| `Codec.MergeRows` | index.js:130-140 | the `map`/`shift` loop computes the merge, entry by entry as `MergeAt` states |
| `Codec.SerializeQuery` | index.js:70-77 | the first statement of the round trip: `with` the mutation under its alias, selecting the serialized field of every row |
| `Codec.RunVia` | index.js:25-141 | the protocol of `viaTemporaryTable`, statement by statement: the statements sent and the result, for any database answers; its properties are the lemmas below |
| `Codec.ViaTemporaryTable` | index.js:5-142 | the statements sent and the result are those of the protocol `RunVia` |
| `Codec.VoidRunsOnce` | index.js:25-34 | without a type identifier, exactly one statement (the mutation with the caller's query) is sent, and its rows or its rejection are the result |
| `Codec.SecondQueryOnlyForValues` | index.js:70-129 | with a type identifier, the serialize query is sent first; a second query is sent exactly when some serialized value is non-null, and it is the reconstruction of exactly the non-null values, wrapped around the caller's query |
| `Codec.RoundTripShape` | index.js:70-140 | a successful round trip returns one row per serialized row, each `{__isNull: true}` or the reconstructed row of its rank |
| `Codec.FailurePropagates` | index.js:70-128 | when the last statement sent was rejected, that rejection is the run's error |
| `Codec.SerializeRefused` | index.js:70-82 | a refused serialize query ends the run at once with its rejection; nothing else is sent |
| `Codec.RunStopsAtRejection` | index.js:25-140 | every statement a run sends before its last was answered with rows, a successful run's last one too, and a rejected last statement is the run's error |
| `Codec.ClassLikeRun` | index.js:47-129 | for a table type, one or two `with` statements are sent after the history, the serialize query first; every statement but the last was answered with rows; the run succeeds exactly when the last one was, and otherwise fails with its rejection |
| `Introspection.First` | index.js:202-204 | `filter(…)[0]`: the first element that satisfies the test, nothing exactly when none does |
| `Introspection.Eligible` | index.js:179-182 | a table passes the four filters: it has a namespace and is selectable, insertable and updatable |
| `Introspection.EligibleTables` | index.js:178-182 | the four `filter` calls over the catalog's classes; what it keeps is stated by `EligibleTablesMembers` |
| `Introspection.TableAttributes` | index.js:190-191 | `attribute.filter(attr => attr.classId === table.id)`; what it keeps is stated by `TableAttributesMembers` |
| `Introspection.EligibleTablesMembers` | index.js:178-182 | every table kept passes the four filters and comes from the catalog, and every catalog table that passes them is kept |
| `Introspection.TableAttributesMembers` | index.js:190-194 | the table's attributes are exactly the catalog's attributes with the table's id |
| `Introspection.PrimaryKeyConstraint` | index.js:202-204 | the table's first constraint of type `p`, none when there is no such constraint |
| `Introspection.KeyAttribute` | index.js:210-212 | the table's first attribute whose number is the constraint's first key number, none when the constraint lists no attribute or no attribute carries that number |
| `Introspection.PrimaryKey` | index.js:202-216 | the first key attribute of the table's first `p` constraint; stated by `PrimaryKeySelection` |
| `Introspection.PrimaryKeySelection` | index.js:202-216 | the key is found exactly when some `p` constraint of the table exists and the table has an attribute with that constraint's first key number; it is then the first such attribute |
| `Introspection.Registers` | index.js:184-227 | the early-return checks a table must pass to get a mutation: its table type exists, it has a primary key, the table type has a field named after that key, and its patch type exists |
| `Introspection.FieldName` | index.js:305 | the mutation field's name is `update` + the table type's name + `s` |
| `Introspection.IndexIf` | index.js:183-227 | a `reduce` that sets `memo[key(t)] = val(t)` for each element that passes `ok`, skipping the others; the outer registration is this reduce |
| `Introspection.FieldIndex` | index.js:196-200 | the `reduce` that sets `memo[inflection.column(attr)] = attr`; stated by the `FieldIndex…` lemmas |
| `Introspection.AttrMap` | index.js:193-200 | `attrByFieldName` of a table; stated by `AttrMapContents` and `AttrMapLastWins` |
| `Introspection.FieldIndexKeys` | index.js:196-200 | the field-name index holds exactly the field names of the attributes |
| `Introspection.FieldIndexValues` | index.js:196-200 | each field name maps to an attribute with that field name |
| `Introspection.FieldIndexLastWins` | index.js:196-200 | each field name maps to the LAST attribute with that name |
| `Introspection.AttrMapContents` | index.js:193-200 | `attrByFieldName` maps exactly the table's attributes' field names to attributes of that table |
| `Introspection.FilteredIndexLastWins` | index.js:190-200 | in catalog positions: an attribute of the table that no later attribute of the same table shares a field name with is the one the index keeps |
| `Introspection.AttrMapLastWins` | index.js:190-200 | `attrByFieldName` keeps, for each field name, the table's last catalog attribute with that name |
| `Introspection.IndexIfLastWins` | index.js:305-307 | when two tables give the same field name, the later one's entry is kept |
| `Introspection.RegisteredIn` | index.js:183-227 | the outer `reduce` over a list of tables; stated by the `RegisteredIn…` lemmas |
| `Introspection.Registered` | index.js:178-227 | the mutation fields the plugin adds, over the eligible tables; stated by `RegisteredKeys`, `RegisteredTables` and the last-wins lemmas |
| `Introspection.RegisteredInKeys` | index.js:183-227 | the registration over any table list holds exactly the field names of the listed tables that pass every check |
| `Introspection.RegisteredInValues` | index.js:183-227 | each registered field holds a listed table that registers under that name, with its attribute index |
| `Introspection.RegisteredKeys` | index.js:178-227 | a mutation field exists exactly for the eligible tables that pass every check |
| `Introspection.RegisteredTables` | index.js:178-227 | every registered field holds an eligible catalog table that passes every check, under that table's field name, with that table's attribute index |
| `Introspection.RegisteredLastWins` | index.js:305-307 | on a field-name clash between tables, the later table's mutation is the one kept |
| `Introspection.RegisteredInKeeps` | index.js:178-227 | a registered field survives one more table unless that table registers under the same name |
| `Introspection.RegisteredInLast` | index.js:178-227 | a last table that is eligible and registers sets its own field |
| `Introspection.RegisteredInLastWins` | index.js:178-227 | in catalog positions: an eligible, registering table that no later such table shares a field name with is the one whose mutation is kept |
| `Introspection.RegisteredCatalogLastWins` | index.js:178-227 | the registration keeps, for each field name, the last catalog table that registers under it |
| `Introspection.AttrByFieldName` | index.js:193-200 | the inner `reduce` loop builds the field-name index |
| `Introspection.CollectMutations` | index.js:178-227 | the outer `reduce` loop, with its early `return memo` for each failed check, registers exactly the specified mutation fields |
| `UpdateSemantics.ColumnIndex` | index.js:367 | a name resolves to its first position in the alias column list, and fails exactly when it is absent |
| `UpdateSemantics.SourceValue` | index.js:366-368 | `s.name::type` evaluated on one VALUES row: the cast value at the column the name resolves to, none when it does not resolve |
| `UpdateSemantics.Matches` | index.js:368 | the WHERE clause: the stored row's key equals the VALUES row's cast id |
| `UpdateSemantics.FirstMatch` | index.js:368 | the first VALUES row that a stored row joins with, and none exactly when no VALUES row joins |
| `UpdateSemantics.Assign` | index.js:366 | the SET list applied left to right to one stored row joined with one VALUES row |
| `UpdateSemantics.UpdatedRow` | index.js:365-368 | a stored row after the statement: unchanged when it joins no VALUES row, else the SET list applied with its first joining VALUES row |
| `UpdateSemantics.Execute` | index.js:365-370 | the table keeps its length; a row that joins no VALUES row is unchanged, and a joined row gets the SET list applied with the first VALUES row it joins |
| `UpdateSemantics.Returning` | index.js:370 | `returning *` yields no more rows than the table has |
| `UpdateSemantics.ReturningRows` | index.js:370 | `returning *` yields the new value of every row that joined, and only such values |
| `UpdateSemantics.ColumnIndexDistinct` | index.js:367 | in an alias list without repeated names, each name resolves to its own position |
| `UpdateSemantics.AssignWrites` | index.js:366 | an assignment not overwritten later leaves its source value in its column |
| `UpdateSemantics.AssignKeys` | index.js:366 | after the SET list, a row has its old columns plus the assigned ones |
| `UpdateSemantics.AssignKeeps` | index.js:366 | a column the SET list does not name keeps its value |
| `UpdateSemantics.MatchesKey` | index.js:368 | in a statement whose columns line up, a row joins a VALUES row exactly when its key equals that row's cast id |
| `UpdateSemantics.AssignmentSources` | index.js:366-367 | in such a statement, assignment `k` reads VALUES position `k + 1` |
| `UpdateSemantics.AssignEffect` | index.js:365-368 | in such a statement, a joined row gets each assigned column's cast value, gains exactly those columns, and keeps the rest |
| `BatchUpdate.FirstNullItem` | index.js:356-360 | the first `null` item of the list, and none exactly when no item is null |
| `BatchUpdate.Columns` | index.js:334 | the updated fields are the keys of the first item's patch; used by `StatementShape` and `MissingFieldIsUndefined` |
| `BatchUpdate.ValuesRow` | index.js:356-360 | one VALUES row: the converted id, then each column's converted patch value; stated by `StatementShape` |
| `BatchUpdate.TypeName` | index.js:366 | a PostgreSQL type as `sql.identifier(type.namespaceName, type.name)` |
| `BatchUpdate.Buildable` | index.js:332-371 | the statement builds without a `TypeError` exactly when the list is present and non-empty, no item is null, the table has a primary key, every field of the first patch is a known column, and the table has a namespace |
| `BatchUpdate.BuildUpdate` | index.js:332-371 | the statement is built exactly when the list is present and non-empty, no item is null, the table has a primary key, every field of the first patch is known, and the table has a namespace |
| `BatchUpdate.StatementShape` | index.js:352-371 | the built statement targets the namespace-qualified table; it has one assignment per field of the first patch, cast to the column's type; one VALUES row per item holding the converted id and the converted patch values; and it joins on the key cast to the key type |
| `BatchUpdate.MissingFieldIsUndefined` | index.js:334-360 | a later item that lacks a field of the first patch contributes `gql2pg(undefined, type)` in that column |
| `BatchUpdate.BuiltWellFormed` | index.js:364-371 | with distinct column names, none called `id`, the built statement's alias and SET columns line up |
| `BatchUpdate.UpdateJoins` | index.js:368 | a stored row joins item `i` exactly when its primary key equals item `i`'s converted id cast to the key type |
| `BatchUpdate.UpdateWrites` | index.js:365-368 | a row joined with item `i` gets each updated column set to item `i`'s converted patch value cast to the column type, gains exactly those columns, and keeps all others |
| `BatchUpdate.RegisteredBuilds` | index.js:202-216 | for a registered field, the key and namespace checks never fail: the statement is built exactly when the list is present, non-empty, has no null item and the first patch has only known fields |
| `Resolver.ResolverCall` | index.js:375-382 | the codec call the resolver makes: the qualified table type, the built UPDATE, the inserted-row alias and the caller's query, as a table type |
| `Resolver.Bracket` | index.js:373-406 | the `try` block from the SAVEPOINT on; stated by the `Bracket…` lemmas |
| `Resolver.AfterVia` | index.js:383-405 | the rest of the `try` block after the codec round trip; stated by `AfterViaFraming` and `AfterViaSteps` |
| `Resolver.ResolveRun` | index.js:315-406 | the whole resolver as a protocol; stated by `BuildErrorSendsNothing`, `BracketShape`, `FailureRethrown`, `FirstRejectionRollsBack` and `SavepointRefused` |
| `Resolver.RollBack` | index.js:399-405 | the `catch` sends the ROLLBACK and rethrows the error, or the rollback's own rejection when that is refused |
| `Resolver.RollBackAndThrow` | index.js:401-405 | the `catch` against a live client: its statements and result are those of `RollBack` |
| `Resolver.Resolve` | index.js:315-406 | the statements sent and the result are those of the resolver's specification `ResolveRun` |
| `Resolver.BuildErrorSendsNothing` | index.js:332-371 | a statement that cannot be built throws its `TypeError` before anything is sent |
| `Resolver.BracketFraming` | index.js:373-406 | the SAVEPOINT is sent once and first; the run ends with RELEASE when it returns and with ROLLBACK when it throws |
| `Resolver.AfterViaFraming` | index.js:385-405 | after the codec run, the bracket stays open and ends with RELEASE exactly on success and with ROLLBACK exactly on failure |
| `Resolver.BracketSuccess` | index.js:374-398 | a successful bracket sends the serialize query right after the SAVEPOINT, then the direct UPDATE, then the RELEASE; its data are the direct UPDATE's rows and its `clientMutationId` is the input's |
| `Resolver.BracketShape` | index.js:315-406 | the same facts for the whole resolver: the serialize query runs the UPDATE under the inserted-row alias, the UPDATE then runs a second time, and 4 or 5 statements are sent on success, every one answered with rows |
| `Resolver.FailureRethrown` | index.js:373-405 | a failed run ends with ROLLBACK right after a rejected statement, every earlier statement of the bracket having been answered with rows; it rethrows that rejection, or the rollback's own rejection |
| `Resolver.ViaSteps` | index.js:374-381 | after an accepted SAVEPOINT, the codec run stops at its first rejection and fails exactly on one |
| `Resolver.AfterViaSteps` | index.js:385-405 | the rest of the bracket sends nothing after a rejection but the ROLLBACK |
| `Resolver.BracketSteps` | index.js:373-405 | a bracket that returns had every statement answered with rows; one that throws had the statement before the ROLLBACK rejected and every earlier one answered |
| `Resolver.FirstRejectionRollsBack` | index.js:373-405 | once built, a rejection of any statement of the run makes it throw, and a rejection before the last statement is followed only by the ROLLBACK |
| `Resolver.SavepointRefused` | index.js:373-405 | a refused SAVEPOINT is followed only by the ROLLBACK and the run throws its rejection, or the rollback's own |

## Left out

- The GraphQL schema construction (input, item and payload types, the field's description, `fieldWithHooks`) is left out: it is configuration with nothing to prove. Its effect on the model is that `patch` is never null and `id` may be any value.
- The `sql` tag library and `sql.compile` are left out: statements are trees, and text rendering and parameter numbering are not modelled.
- `gql2pg` is left out: it is the uninterpreted term `Converted(value, type)`. PostgreSQL's casts are likewise the parameter `cast` of the update semantics.
- Inflection is left out: `inflection.column`, `domainType`, `patchType` and `tableType` are the parameters `Host.column` and `Host.tableTypeName`. The presence of the table, key and patch types is given by `Host.hasTableType`, `Host.tableTypeHasField` and `Host.hasPatchType`.
- `parseResolveInfo`, `getDataFromParsedResolveInfoFragment` and `queryFromResolveData` are left out: the caller's result query is the parameter `resultQuery`.
- Database I/O, PostgreSQL's text serializer and parser and `pg`'s row decoding are left out: the database is the oracle `PgClient.answer`.
- Asynchrony is left out: each `await` is a sequential call.
- `Symbol()` identity is left out: it is the counter described above.
- `UpdateSemantics.Execute`, `UpdateSemantics.Returning`, `UpdateSemantics.ReturningRows`: a stand-alone reference meaning of the built statement. The resolver's payload comes from the database's answer, which this model leaves open, so these are not connected to `Resolver.ResolveRun`.
- `UpdateSemantics.ColumnIndex`: a name repeated in the VALUES alias list resolves to its first position. PostgreSQL rejects such a reference as ambiguous. This happens when a patch updates the key column itself, because the alias list begins with `id`. The reference semantics does not model that rejection (`BatchUpdate.UpdateJoins` and `BatchUpdate.UpdateWrites` exclude the case).
- `UpdateSemantics.ReturningRows`: the rows it returns are the updated table rows alone. In PostgreSQL `returning *` of an `UPDATE … FROM` also lists the columns of the FROM items, here the VALUES alias columns `id, …`, and those are not modelled.
- `UpdateSemantics.UpdatedRow`: when several VALUES rows match, PostgreSQL picks one unpredictably; this semantics uses the first.
- `BatchUpdate.UpdateJoins`, `BatchUpdate.UpdateWrites`: they require the updated columns have different names and none is called `id`. Otherwise the VALUES alias list `(id, …)` repeats a name, which the semantics does not cover.
- JavaScript prototype properties (`toString` and the like) are left out: `row[key]` and `attrByFieldName[key]` see only own properties.
- The commented-out `columnFilter` step in the attribute index is not modelled, because the source does not run it.
