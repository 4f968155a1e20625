# BackupTables, modelled in Dafny

BackupTables copies the rows of SQL Server tables to an XML document and back.
This project models and proves three parts of it:

- `EnumerableExtensions.TopologicalSort`: a Kahn-style sort that keeps a
  `connected` work list, a queue, an `inserted` set and the output list, and
  throws "circular dependencies" when the queue runs dry before every node was
  released.
- `Program`'s import and export logic with the database and XML removed:
  - the column dictionaries read from the destination schema;
  - the per-column decision (name mapping, first matching field, missing-field
    defaults, the `null` attribute rule, the NVarChar size rule);
  - the INSERT text;
  - the order of deletes, schema queries and inserts;
  - the shape of each exported field;
  - the `a=b,c=d` mapping argument.
- `ThrottledLogger.Add`: prints a message only when the current
  second-of-minute differs from the stored one.

Files:

- `wrappers.dfy`: `Option` and `Result`.
- `sequences.dfy`: distinctness, subsequences, pigeonhole.
- `strings.dfy`: .NET `String.Split(char)`, `String.Join`, `IsNullOrWhiteSpace`.
- `backup_document.dfy`: the document (tables, records, fields) and `SqlDbType`.
- `topological_sort.dfy`: the sort as an imperative method proved against
  a loop invariant. Failure is proved to happen exactly when the arrows form
  a cycle among the source nodes.
- `import_planning.dfy`: schema dictionaries, `Decide` (one destination
  column), `PlanColumns`/`PlanRow` (one record), the INSERT text.
- `import.dfy`: the import as methods that record the commands they would
  send. Each method is proved equal to a function that lists its commands
  (`DeleteCommands`, `ImportSpec` and their parts). The module
  `ImportProperties` proves ordering, failure and column facts about that
  command stream.
- `export.dfy`: export as methods proved equal to the document functions,
  and the export-then-import round trip for a single field.
- `mappings.dfy`: the mapping-argument parse and its error cases.
- `throttled_logger.dfy`: the logger as a class with a ghost list of printed
  messages. A replay function gives the effect of a sequence of calls.

Boundaries are parameters:

- the schema the database reports for a table name (`schemaOf`);
- the rows a `SELECT *` returns (`rowsOf`);
- `FromString` after `Type.GetType` (`conv.fromString`, which may throw);
- `ToString` of a value (`conv.toText`, `toText`);
- `DateTime.Now` (one `Instant` per import);
- `DateTime.UtcNow` (whole seconds since a minute boundary).

## Model

| member | source | states |
|---|---|---|
| EnumerableExtensions.WhereNoIncomingArrows | EnumerableExtensions.cs:15-20 | the result holds exactly the candidates that no connected node points to, in candidate order (a subsequence); with the source as candidates this is the initial queue |
| EnumerableExtensions.RemoveFirst | EnumerableExtensions.cs:26 | `List.Remove`: one element shorter when `x` is present, unchanged otherwise, keeps every other element, and removes `x` entirely from a duplicate-free list |
| EnumerableExtensions.TopologicalSort | EnumerableExtensions.cs:11-35 | fails exactly when the arrows form a cycle among the source nodes, with the message "circular dependencies"; on success the output has no duplicates, is a permutation of the source and puts the source of every arrow before its target; an empty source gives an empty list |
| EnumerableExtensions.EnqueueWhereNoIncomingArrows | EnumerableExtensions.cs:27-28 | the queue grows by the targets of the dequeued node that no remaining node points to, in arrow order |
| EnumerableExtensions.InitialState | EnumerableExtensions.cs:13-20 | before the loop, the invariant holds for the initial queue, and no node of a blocked set is queued |
| EnumerableExtensions.Step | EnumerableExtensions.cs:21-29 | one loop turn: the dequeued node was never inserted, `connected` shrinks, and the invariant and blocked-set exclusion are kept after appending the node and enqueueing its ready targets |
| EnumerableExtensions.DequeuedIsNew | EnumerableExtensions.cs:23-25 | the head of the queue is still connected, not yet output or inserted, and has no incoming arrow from a connected node |
| EnumerableExtensions.StepKeepsDistinct | EnumerableExtensions.cs:17-28 | after a turn, the output followed by the queue is still duplicate-free |
| EnumerableExtensions.StepKeepsReady | EnumerableExtensions.cs:26-28 | after a turn, every connected node with no incoming arrow is queued, and every output or queued node has no incoming arrow from a connected node |
| EnumerableExtensions.StepKeepsOrder | EnumerableExtensions.cs:15-28 | after a turn, every output node is still preceded by all nodes with an arrow into it |
| EnumerableExtensions.StepKeepsBlockedOut | EnumerableExtensions.cs:15-28 | after a turn, no node of a blocked set has been output or queued |
| EnumerableExtensions.StuckMeansCycle | EnumerableExtensions.cs:31-32 | when the queue runs dry with nodes still connected, each of which has an incoming arrow from a connected node, the arrows contain a cycle |
| EnumerableExtensions.Finished | EnumerableExtensions.cs:31-34 | when the queue runs dry with nothing connected, there is no cycle, and the output is a duplicate-free permutation of the source that respects every arrow |
| EnumerableExtensions.CycleIsBlocked | EnumerableExtensions.cs:15 | the nodes of a cycle form a blocked set: each has an arrow into it from the set |
| EnumerableExtensions.BackWalk | EnumerableExtensions.cs:15 | inside a blocked set, a walk of any length can be followed backwards along arrows |
| EnumerableExtensions.BlockedHasCycle | EnumerableExtensions.cs:31-32 | a blocked set contains a cycle (pigeonhole on a long backward walk) |
| EnumerableExtensions.ClosedWalkIsCycle | EnumerableExtensions.cs:31-32 | a backward walk that revisits a node yields a cycle |
| EnumerableExtensions.CycleIffBlocked | EnumerableExtensions.cs:15-32 | the arrows have a cycle exactly when some set of source nodes is blocked |
| EnumerableExtensions.SelfArrowIsCycle | EnumerableExtensions.cs:15-32 | a node with an arrow to itself is a cycle, so the sort throws on such input |
| Strings.IsNullOrWhiteSpace | Program.cs:188 | an absent or empty `null` attribute is blank; any text with a non-white-space character, "false" included, is not, so such a field counts as null |
| Strings.Split | Program.cs:236-237 | `String.Split(char)` gives at least one part, and no part contains the separator |
| Strings.JoinSplit | Program.cs:236-237 | joining the parts of a split with the separator gives back the original text |
| Strings.SplitJoin | Program.cs:209-210 | splitting a join of separator-free parts gives back the parts |
| Strings.SplitWithoutSeparator | Program.cs:236-237 | text without the separator splits into itself alone |
| Strings.SplitAfterHead | Program.cs:237-238 | the first part of a split is the text before the first separator, and the rest is the split of what follows it |
| ImportPlanning.MappedName | Program.cs:114-117 | `TryGetValue` with fallback: a name in the mapping resolves to its mapped value, any other name to itself (the same rule serves table names at lines 114-117 and column names at lines 153-156) |
| ImportPlanning.MissingFieldDefault | Program.cs:160-177 | the default table: Bit gets 0, DateTime2 the import's clock reading, UniqueIdentifier the empty Guid, and no other type gets a default |
| ImportPlanning.ParameterSize | Program.cs:195-201 | non-NVarChar columns keep the schema size; an NVarChar size is the length of the converted value's text, and 0 for a null value |
| ImportPlanning.ColumnsOf | Program.cs:119-138 | the ordered key list of the column dictionaries and their map hold the same names |
| ImportPlanning.ColumnsOfNames | Program.cs:130-138 | the dictionaries hold each schema column name exactly once and no other name |
| ImportPlanning.ColumnsOfLastWins | Program.cs:136-137 | a column's type and size are those of the last schema row with its name |
| ImportPlanning.ColumnsOfOrder | Program.cs:136-150 | the keys are in order of first appearance in the schema rows |
| ImportPlanning.FindField | Program.cs:158 | `FirstOrDefault`: the index found is the first field whose name attribute is the name searched for, and none means no field has that name |
| ImportPlanning.Decide | Program.cs:150-205 | the name is resolved through the mapping; with no field of that name only Bit (0), DateTime2 (now) and UniqueIdentifier (empty Guid) get a parameter; if the first such field has a non-blank `null`, the column is left out; otherwise the field's text is converted with its type tag, a throwing conversion aborts, and the parameter is "@p"+column with the schema type and the NVarChar size rule |
| ImportPlanning.DecideMissing | Program.cs:160-184 | a column no field matches gets a parameter "@p"+column with its schema type and size exactly for Bit (0), DateTime2 (now) and UniqueIdentifier (empty Guid), and is left out otherwise |
| ImportPlanning.DecideField | Program.cs:186-204 | a matching field with a non-blank `null` attribute leaves the column out; otherwise its text is converted with its type tag, a throw aborts, and the parameter carries the schema type and the NVarChar size rule |
| ImportPlanning.NVarCharSizeIsTextLength | Program.cs:195-203 | an included NVarChar column is always bound to a converted field value, with size the length of that value's text, or 0 when it is null |
| ImportPlanning.PlanColumnsShape | Program.cs:148-206 | a planned record lists schema columns only, each once, in schema order, with one parameter per column |
| ImportPlanning.PlanColumnsIncluded | Program.cs:150-206 | a column is listed exactly when it is a schema column whose decision yields a parameter |
| ImportPlanning.PlanColumnsParameters | Program.cs:179-203 | each listed column is bound to exactly the parameter its decision yields |
| ImportPlanning.PlanColumnsSucceeds | Program.cs:150-206 | a record is planned whenever no column's decision throws |
| ImportPlanning.PlanColumnsSucceedsOnly | Program.cs:150-206 | a planned record means no column's decision threw |
| ImportPlanning.DecisionSucceeds | Program.cs:150-206 | in a planned record, the decision of each single column succeeded |
| ImportPlanning.PlanColumnsFirstError | Program.cs:150-206 | a failed record fails with the error of the first column whose conversion throws; every earlier column succeeded |
| ImportPlanning.ColumnList | Program.cs:209 | with comma-free column names, the list splits back at ',' into `[c]` for each column, in order |
| ImportPlanning.ParameterList | Program.cs:210 | with comma-free column names, the list splits back at ',' into `@pc` for each column, in order |
| ImportPlanning.InsertText | Program.cs:208-210 | the statement starts `INSERT INTO` with the given table name and closes its VALUES list |
| ImportPlanning.InsertListsMatch | Program.cs:208-210 | when no column name contains a comma, the `[c]` list and the `@pc` list of the INSERT split back into the same columns in the same order, so their counts are equal |
| Importing.CommandText | Program.cs:101-210 | each command's text (the DELETE at line 101, the schema SELECT at line 124, the INSERT at lines 208-210) starts with its statement keywords followed by the table the command names |
| Importing.ReadSchema | Program.cs:119-138 | the dictionary-filling loop builds exactly the column table of the schema rows |
| Importing.PlanColumnsStops | Program.cs:150-206 | once some column has thrown, the remaining columns do not change the record's failure |
| Importing.PlanRecord | Program.cs:148-206 | the column loop computes exactly the record's plan, returning at the first throwing column |
| Importing.RecordsRunStops | Program.cs:144-214 | once a record has failed, later records add no insert |
| Importing.TablesRunStops | Program.cs:108-217 | once a table has failed, later tables add no command |
| Importing.TablesRunStep | Program.cs:108-217 | each table appends its schema query and inserts to those of the tables before it |
| Importing.DeleteTables | Program.cs:93-106 | the delete loop issues exactly `DeleteCommands`: one delete per table, last table first |
| Importing.ImportRecords | Program.cs:144-214 | the record loop issues one insert per record in document order and stops at the first record that fails to plan |
| Importing.ImportTable | Program.cs:108-217 | one table: the schema query to its mapped name, then its record inserts |
| Importing.ImportTables | Program.cs:108-217 | the tables in document order, stopping at the first failure |
| Importing.Import | Program.cs:89-218 | the whole import issues exactly the command stream `ImportSpec` defines: the optional deletes, then each table's schema query and inserts |
| ImportProperties.DeleteCommandsReverse | Program.cs:93-101 | the deletes name every document table once, in reverse document order |
| ImportProperties.RecordsRunInserts | Program.cs:144-213 | a table's inserts use the plans of its first records, in order, into the document table name; all records are inserted when none failed, and the import stops at the first failing record with that record's error |
| ImportProperties.TableRunFilters | Program.cs:110-210 | a table issues one schema query, for its mapped name, and at most one insert per record, all into its document name |
| ImportProperties.TablesRunOrder | Program.cs:108-208 | the schema queries name the mapped tables in document order; the inserts go to the document table names, one per record, in document order; all of them without a failure, a prefix with one |
| ImportProperties.TablesRunNoDelete | Program.cs:108-214 | the table phase issues no delete |
| ImportProperties.TablesRunSucceeds | Program.cs:144-214 | an import that did not fail planned every record of every table |
| ImportProperties.TablesRunFails | Program.cs:194-212 | an import that failed did so with the error of a record whose plan fails |
| ImportProperties.TablesRunInserts | Program.cs:108-210 | every insert goes to a document table name with the plan of one of that table's records |
| ImportProperties.ImportDeletesFirst | Program.cs:93-108 | with the delete flag, the import first deletes every table in reverse document order; no delete follows, and none is issued without the flag |
| ImportProperties.ImportOrder | Program.cs:93-208 | the whole import's schema queries and inserts come in document order, all of them when it does not fail |
| ImportProperties.ImportFailure | Program.cs:144-214 | the import fails exactly when some record's plan fails, and then with a failing record's error |
| ImportProperties.InsertColumnsFromMappedSchema | Program.cs:112-210 | every insert lists distinct columns of the schema of its table's mapped name, in schema order, with one parameter per column, although the INSERT targets the document name |
| Exporting.ExportRecord | Program.cs:44-70 | the field loop writes exactly the record of the row |
| Exporting.ExportTable | Program.cs:30-74 | the reader loop writes one record per row, in order |
| Exporting.Export | Program.cs:26-77 | the document has one table per requested name, in the order given |
| Exporting.ExportShape | Program.cs:47-69 | every field carries its column's name and field type; `null="true"` is written exactly for DB nulls, and other fields hold the value's string form |
| Exporting.ExportThenDecide | Program.cs:62-203 | read back on import, an exported DB null leaves the column out, and an exported value is converted from its string form with its field type |
| MappingArgument.Key | Program.cs:237-238 | `m[0]` is the prefix of the item before its first '=': it has no '=' and is followed by '=' when shorter than the item |
| MappingArgument.Value | Program.cs:237-238 | `m[1]` has no '=', follows the key and an '=' in the item, and is followed by '=' when the item goes on |
| MappingArgument.Entries | Program.cs:237-238 | `ToDictionary` over the items: a success has one entry per item, and only a non-empty item list can fail |
| MappingArgument.ParseMappings | Program.cs:236-238 | a parsed argument has one entry per ','-separated item, so never none, and no key or value holds ',' or '=' |
| MappingArgument.ImportMappingsAsWritten | Program.cs:236 | as written: without a fourth argument the parse fails, so every import that gets past it has at least one mapping |
| MappingArgument.ImportMappings | Program.cs:236 | corrected: with a fourth argument, the parse `Main` does; without one, a mapping under which every name resolves to itself |
| MappingArgument.ValuePresent | Program.cs:237-238 | an item has a value part (`m[1]` exists) exactly when it contains '=' |
| MappingArgument.EntriesSucceed | Program.cs:236-238 | the parse succeeds exactly when every item contains '=' and no two items share a key |
| MappingArgument.EntriesContents | Program.cs:238 | a parsed dictionary holds exactly the items' keys, each mapped to its item's value part |
| MappingArgument.EntriesKeys | Program.cs:238 | a parsed dictionary's keys are exactly the items' keys |
| MappingArgument.EntriesValues | Program.cs:238 | a parsed dictionary maps each item's key to that item's value part |
| MappingArgument.EntriesFailure | Program.cs:238 | a failing parse names an item without '=' (IndexOutOfRange) or a key two items share (duplicate key) |
| MappingArgument.MappingEntry | Program.cs:236-238 | an item `key=value` puts `value` under `key`, where the key is the text before the first '=' and the value the text between the first and the second |
| MappingArgument.NoMappingArgumentThrows | Program.cs:236-238 | without a fourth argument, the parse of the empty string throws on the item "" |
| MappingArgument.NoMappingArgumentMapsNothing | Program.cs:236-238 | corrected parse: without a fourth argument the mapping is empty and every table and column name resolves to itself; with one it is the parse `Main` does |
| ThrottledLogging.SecondOf | ThrottledLogger.cs:11 | the second-of-minute of a clock reading lies in 0..59 |
| ThrottledLogging.ThrottledLogger.constructor | ThrottledLogger.cs:5-7 | a new logger stores second 0 and has printed nothing |
| ThrottledLogging.ThrottledLogger.Add | ThrottledLogger.cs:9-17 | stores the current second-of-minute, and prints the message unchanged exactly when it differed from the stored one |
| ThrottledLogging.Step | ThrottledLogger.cs:9-17 | one `Add`: the stored second becomes the call's second-of-minute, and the call's own message is appended, at most once, exactly when that second differed from the stored one |
| ThrottledLogging.ReplayConcat | ThrottledLogger.cs:9-17 | replaying two runs one after the other is replaying their concatenation |
| ThrottledLogging.ReplayStoresLastSecond | ThrottledLogger.cs:11-14 | after any call, the stored second is the second-of-minute of that call |
| ThrottledLogging.ReplayPrintsMessages | ThrottledLogger.cs:12-15 | calls only append to what was printed, at most one message per call, each the message of one of the calls |
| ThrottledLogging.SameSecondPrintsAtMostOnce | ThrottledLogger.cs:12 | calls that all fall in the same second-of-minute print at most once between them |
| ThrottledLogging.FirstCallAtSecondZeroIsSilent | ThrottledLogger.cs:7-12 | a first call made during second 0 prints nothing |
| ThrottledLogging.SilentCallsKeepSecond | ThrottledLogger.cs:12-14 | calls that print nothing leave the stored second unchanged |
| ThrottledLogging.WholeMinutesLaterIsSuppressed | ThrottledLogger.cs:11-12 | after a printing call and any silent calls, a call a whole number of minutes after the printing one prints nothing |

## Left out

- Database I/O is not modelled: connections, `ExecuteReader`, `GetSchemaTable`, `Prepare` and `ExecuteNonQuery`. Commands are recorded, not executed. The schema and the rows come from caller-supplied functions. Row counts, and errors the database would raise on an INSERT, are not modelled.
- XML loading, saving and file writes are not modelled. The document is a sequence of tables, records and fields.
- `Descendants("table")`, `Descendants("record")` and `Descendants("field")` are modelled as direct children. Nested elements of the same name are not modelled.
- The `name` attribute of a <table> element is assumed present. A missing one would give a null table name in the source.
- `FromString`, `Guid.Parse`, `Convert.ChangeType`, `Type.GetType` and `ToString` are uninterpreted functions. A conversion either throws with a message or returns a possibly-null object.
- `Console.WriteLine` is not modelled: the import's progress lines are dropped, and the logger keeps a ghost list of printed messages.
- `DateTime.Now` is one `Instant` per import. The source reads the clock separately for each defaulted DateTime2 column.
- `DateTime.UtcNow` is a natural number of seconds. Time zones and sub-second parts are ignored.
- The `columnTypes.Keys` order is assumed to be insertion order. .NET does not promise that order for a dictionary.
- `Value.ToString().Length` counts UTF-16 code units. The model counts the characters of a `string`.
- Main's positional arguments are not modelled, except the import mode's choice of mapping text (`args[3]`, or the empty string with fewer than four arguments), which `ImportMappingsAsWritten` models. The connection string, mode, file name and delete flag taken from `args`, `WithConnection`, `ConfigurationManager` and the export-mode `args[3].Split(',')` are command-line and configuration glue.
- EnumerableExtensions.TopologicalSort: requires distinct source nodes, arrow targets that are source nodes, and duplicate-free arrow lists. The source accepts more: its `inserted` set and `connected.Remove` tolerate some duplicates, and a target outside the source would be output.
- ImportPlanning.Decide: an NVarChar column whose converted value is null or empty is still included, with parameter size 0; it is never omitted.

## Findings

| source | as written | input that shows it | evidently intended | confidence | as-written member | corrected member |
|---|---|---|---|---|---|---|
| Program.cs:236-238 | with fewer than four arguments the mapping text is "", which splits into the single item "", whose `Split('=')` has no `m[1]`, so `ToDictionary` throws | `import` with three arguments (no mapping argument) | an import without a mapping argument runs with no name mappings | not executed | MappingArgument.NoMappingArgumentThrows | MappingArgument.NoMappingArgumentMapsNothing |
