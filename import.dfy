/**
  `Program.Import`: the database commands an import issues, in order. Each
  command is recorded instead of executed; the schema the database reports for
  a table name is a function supplied by the caller, and a conversion that
  throws ends the import with that error after the commands issued so far.
*/
module Importing {
  import opened Wrappers
  import opened Sequences
  import opened BackupDocument
  import opened ImportPlanning

  /** A command sent to the database. */
  datatype Command<V> =
    | Delete(table: string)            // `DELETE FROM table`
    | SelectSchema(table: string)      // `SELECT TOP 1 * FROM table`, read for its schema
    | Insert(table: string, plan: RowPlan<V>) // the prepared INSERT with its parameters

  /** The SQL text of a command. */
  function CommandText<V>(command: Command<V>): (text: string)
    // each text starts with its statement's keywords followed by the table the command names
    ensures command.Delete? ==> "DELETE FROM " + command.table <= text
    ensures command.SelectSchema? ==> "SELECT TOP 1 * FROM " + command.table <= text
    ensures command.Insert? ==> "INSERT INTO " + command.table + "(" <= text
  {
    match command
    case Delete(table) => "DELETE FROM " + table
    case SelectSchema(table) => "SELECT TOP 1 * FROM " + table
    case Insert(table, plan) => InsertText(table, plan.columns)
  }

  /** The commands issued, and the error that ended the import if one did. */
  datatype Run<V> = Run(commands: seq<Command<V>>, failure: Option<string>)

  /** The deletes, one per table, last table first. */
  function DeleteCommands<V>(doc: Document): seq<Command<V>>
    decreases |doc|
  {
    if doc == [] then [] else DeleteCommands(doc[1..]) + [Delete(doc[0].name)]
  }

  /** The inserts for a table's records, given each record's plan, in document order, up to the first that fails. */
  function RecordsRun<V>(name: string, plans: seq<Result<RowPlan<V>, string>>): Run<V>
    decreases |plans|
  {
    if plans == [] then Run([], None)
    else
      var before := RecordsRun(name, plans[..|plans| - 1]);
      if before.failure.Some? then before
      else
        match plans[|plans| - 1]
        case Failure(e) => Run(before.commands, Some(e))
        case Success(plan) => Run(before.commands + [Insert(name, plan)], None)
  }

  /** The schema the import reads for a document table: that of its mapped name. */
  function SchemaFor(table: Table, mappings: map<string, string>, schemaOf: string -> seq<SchemaColumn>): ColumnTable {
    ColumnsOf(schemaOf(MappedName(mappings, table.name)))
  }

  /** The plan of each of `records` against the schema columns `keys`. */
  function RowPlans<V>(keys: seq<string>, shapes: map<string, ColumnShape>, mappings: map<string, string>,
                       records: seq<Record>, conv: Converter<V>, now: Instant): seq<Result<RowPlan<V>, string>>
    requires forall k :: k in keys ==> k in shapes
  {
    seq(|records|, j requires 0 <= j < |records| => PlanRow(keys, shapes, mappings, records[j].fields, conv, now))
  }

  /** The plan of each record of a document table, against the schema of the table's mapped name. */
  function RecordPlans<V>(table: Table, mappings: map<string, string>, schemaOf: string -> seq<SchemaColumn>,
                          conv: Converter<V>, now: Instant): seq<Result<RowPlan<V>, string>>
  {
    var columns := SchemaFor(table, mappings, schemaOf);
    RowPlans(columns.keys, columns.shapes, mappings, table.records, conv, now)
  }

  /** The plans of each table's records. */
  type Planner<V> = Table -> seq<Result<RowPlan<V>, string>>

  /** The import's planner: each record against the schema of its table's mapped name. */
  function PlannerFor<V>(mappings: map<string, string>, schemaOf: string -> seq<SchemaColumn>,
                         conv: Converter<V>, now: Instant): Planner<V>
  {
    table => RecordPlans(table, mappings, schemaOf, conv, now)
  }

  /** One table: the schema query of its mapped name, then the inserts of its records. */
  function TableRun<V>(table: Table, mappings: map<string, string>, plansOf: Planner<V>): Run<V>
  {
    var records := RecordsRun(table.name, plansOf(table));
    Run([SelectSchema(MappedName(mappings, table.name))] + records.commands, records.failure)
  }

  /** The schema query and the inserts for each table, in document order, up to the first failure. */
  function TablesRun<V>(tables: Document, mappings: map<string, string>, plansOf: Planner<V>): Run<V>
    decreases |tables|
  {
    if tables == [] then Run([], None)
    else
      var before := TablesRun(tables[..|tables| - 1], mappings, plansOf);
      if before.failure.Some? then before
      else
        var last := TableRun(tables[|tables| - 1], mappings, plansOf);
        Run(before.commands + last.commands, last.failure)
  }

  /** The whole import: the deletes when asked for, then the tables. */
  function ImportSpec<V>(doc: Document, mappings: map<string, string>, delete: bool,
                         schemaOf: string -> seq<SchemaColumn>, conv: Converter<V>, now: Instant): Run<V>
  {
    var run := TablesRun(doc, mappings, PlannerFor(mappings, schemaOf, conv, now));
    Run((if delete then DeleteCommands(doc) else []) + run.commands, run.failure)
  }

  /** Fills the column dictionaries from the schema rows. */
  method ReadSchema(rows: seq<SchemaColumn>) returns (columns: ColumnTable)
    ensures columns == ColumnsOf(rows)
  {
    columns := ColumnTable([], map[]);
    for i := 0 to |rows|
      invariant columns == ColumnsOf(rows[..i])
    {
      var row := rows[i];
      assert rows[..i + 1][..i] == rows[..i];
      var keys := if row.name in columns.shapes then columns.keys else columns.keys + [row.name];
      columns := ColumnTable(keys, columns.shapes[row.name := ColumnShape(row.sqlType, row.size)]);
    }
    assert rows[..|rows|] == rows;
  }

  /** Once a prefix of the columns has failed, the record fails with that error. */
  lemma {:induction false} PlanColumnsStops<V>(keys: seq<string>, n: nat, decide: Decider<V>)
    requires n <= |keys|
    requires forall k :: k in keys ==> decide.requires(k)
    requires PlanColumns(keys[..n], decide).Failure?
    ensures PlanColumns(keys, decide) == PlanColumns(keys[..n], decide)
    decreases |keys| - n
  {
    if n < |keys| {
      assert keys[..n + 1][..n] == keys[..n];
      PlanColumnsStops(keys, n + 1, decide);
    } else {
      assert keys[..n] == keys;
    }
  }

  /** The loop body's call of `Decide` for one destination column. */
  method DecideColumn<V>(dest: string, shapes: map<string, ColumnShape>, mappings: map<string, string>,
                         fields: seq<Field>, conv: Converter<V>, now: Instant)
    returns (decision: Result<Option<Parameter<V>>, string>)
    requires dest in shapes
    ensures decision == DeciderFor(shapes, mappings, fields, conv, now)(dest)
  {
    decision := Decide(dest, shapes[dest], mappings, fields, conv, now);
  }

  /** Builds the column list and the parameters for one record, column by column. */
  method PlanRecord<V>(keys: seq<string>, shapes: map<string, ColumnShape>, mappings: map<string, string>,
                       fields: seq<Field>, conv: Converter<V>, now: Instant) returns (r: Result<RowPlan<V>, string>)
    requires forall k :: k in keys ==> k in shapes
    ensures r == PlanRow(keys, shapes, mappings, fields, conv, now)
  {
    ghost var decide := DeciderFor(shapes, mappings, fields, conv, now);
    var columns: seq<string> := [];
    var parameters: seq<Parameter<V>> := [];
    for i := 0 to |keys|
      invariant PlanColumns(keys[..i], decide) == Success(RowPlan(columns, parameters))
    {
      var dest := keys[i];
      assert keys[..i + 1][..i] == keys[..i];
      var decision := DecideColumn(dest, shapes, mappings, fields, conv, now);
      match decision {
        case Failure(e) =>
          PlanColumnsStops(keys, i + 1, decide);
          return Failure(e);
        case Success(None) =>
        case Success(Some(p)) =>
          columns := columns + [dest];
          parameters := parameters + [p];
      }
    }
    assert keys[..|keys|] == keys;
    return Success(RowPlan(columns, parameters));
  }

  /** Once a prefix of the records has failed, the table's run stops there. */
  lemma {:induction false} RecordsRunStops<V>(name: string, plans: seq<Result<RowPlan<V>, string>>, n: nat)
    requires n <= |plans|
    requires RecordsRun(name, plans[..n]).failure.Some?
    ensures RecordsRun(name, plans) == RecordsRun(name, plans[..n])
    decreases |plans| - n
  {
    if n < |plans| {
      assert plans[..n + 1][..n] == plans[..n];
      RecordsRunStops(name, plans, n + 1);
    } else {
      assert plans[..n] == plans;
    }
  }

  /** Once a prefix of the tables has failed, the import stops there. */
  lemma {:induction false} TablesRunStops<V>(tables: Document, n: nat, mappings: map<string, string>, plansOf: Planner<V>)
    requires n <= |tables|
    requires TablesRun(tables[..n], mappings, plansOf).failure.Some?
    ensures TablesRun(tables, mappings, plansOf) == TablesRun(tables[..n], mappings, plansOf)
    decreases |tables| - n
  {
    if n < |tables| {
      assert tables[..n + 1][..n] == tables[..n];
      TablesRunStops(tables, n + 1, mappings, plansOf);
    } else {
      assert tables[..n] == tables;
    }
  }

  /** The run of the first `t + 1` tables, from the run of the first `t`. */
  lemma TablesRunStep<V>(doc: Document, t: nat, mappings: map<string, string>, plansOf: Planner<V>)
    requires t < |doc|
    requires TablesRun(doc[..t], mappings, plansOf).failure.None?
    ensures var last := TableRun(doc[t], mappings, plansOf);
            TablesRun(doc[..t + 1], mappings, plansOf)
              == Run(TablesRun(doc[..t], mappings, plansOf).commands + last.commands, last.failure)
  {
    assert doc[..t + 1][..t] == doc[..t];
  }

  /** The deletes of an import with the delete flag: the tables in reverse document order. */
  method DeleteTables<V>(doc: Document) returns (commands: seq<Command<V>>)
    ensures commands == DeleteCommands(doc)
  {
    commands := [];
    var i := |doc|;
    while i > 0
      invariant 0 <= i <= |doc|
      invariant commands == DeleteCommands(doc[i..])
    {
      i := i - 1;
      assert doc[i..][1..] == doc[i + 1..];
      commands := commands + [Delete(doc[i].name)];
    }
    assert doc[0..] == doc;
  }

  /** One table: the schema query of its mapped name, then an insert per record until one fails. */
  method ImportTable<V>(table: Table, mappings: map<string, string>, schemaOf: string -> seq<SchemaColumn>,
                        conv: Converter<V>, now: Instant) returns (run: Run<V>)
    ensures run == TableRun(table, mappings, PlannerFor(mappings, schemaOf, conv, now))
  {
    var mapped := MappedName(mappings, table.name);
    var columns := ReadSchema(schemaOf(mapped));
    var records := ImportRecords(table.name, columns.keys, columns.shapes, mappings, table.records, conv, now);
    return Run([SelectSchema(mapped)] + records.commands, records.failure);
  }

  /** The records of one table in order: an insert per record, until the first that fails to plan. */
  method ImportRecords<V>(name: string, keys: seq<string>, shapes: map<string, ColumnShape>,
                          mappings: map<string, string>, records: seq<Record>, conv: Converter<V>, now: Instant)
    returns (run: Run<V>)
    requires forall k :: k in keys ==> k in shapes
    ensures run == RecordsRun(name, RowPlans(keys, shapes, mappings, records, conv, now))
  {
    ghost var plans := RowPlans(keys, shapes, mappings, records, conv, now);
    var commands: seq<Command<V>> := [];
    for r := 0 to |records|
      invariant RecordsRun(name, plans[..r]) == Run(commands, None)
    {
      assert plans[..r + 1][..r] == plans[..r];
      var plan := PlanRecord(keys, shapes, mappings, records[r].fields, conv, now);
      assert plan == plans[r];
      if plan.Failure? {
        RecordsRunStops(name, plans, r + 1);
        return Run(commands, Some(plan.error));
      }
      commands := commands + [Insert(name, plan.value)];
    }
    assert plans[..|records|] == plans;
    return Run(commands, None);
  }

  /** The tables in document order: each table's schema query and inserts, until a record fails. */
  method ImportTables<V>(doc: Document, mappings: map<string, string>, schemaOf: string -> seq<SchemaColumn>,
                         conv: Converter<V>, now: Instant) returns (run: Run<V>)
    ensures run == TablesRun(doc, mappings, PlannerFor(mappings, schemaOf, conv, now))
  {
    ghost var plansOf := PlannerFor(mappings, schemaOf, conv, now);
    var commands: seq<Command<V>> := [];
    for t := 0 to |doc|
      invariant TablesRun(doc[..t], mappings, plansOf) == Run(commands, None)
    {
      var tableRun := ImportTable(doc[t], mappings, schemaOf, conv, now);
      TablesRunStep(doc, t, mappings, plansOf);
      commands := commands + tableRun.commands;
      if tableRun.failure.Some? {
        TablesRunStops(doc, t + 1, mappings, plansOf);
        return Run(commands, tableRun.failure);
      }
    }
    assert doc[..|doc|] == doc;
    return Run(commands, None);
  }

  /** Deletes every table, last first, when asked; then imports the tables in document order. */
  method Import<V>(doc: Document, mappings: map<string, string>, delete: bool,
                   schemaOf: string -> seq<SchemaColumn>, conv: Converter<V>, now: Instant) returns (run: Run<V>)
    ensures run == ImportSpec(doc, mappings, delete, schemaOf, conv, now)
  {
    var deletes: seq<Command<V>> := [];
    if delete {
      deletes := DeleteTables(doc);
    }
    var tables := ImportTables(doc, mappings, schemaOf, conv, now);
    return Run(deletes + tables.commands, tables.failure);
  }
}

/** What an import does, stated over `ImportSpec`. */
module ImportProperties {
  import opened Wrappers
  import opened Sequences
  import opened BackupDocument
  import opened ImportPlanning
  import opened Importing

  /** The tables named by the schema queries among `commands`, in order. */
  ghost function SchemaQueries<V>(commands: seq<Command<V>>): seq<string>
    decreases |commands|
  {
    if commands == [] then []
    else
      var last := commands[|commands| - 1];
      SchemaQueries(commands[..|commands| - 1]) + if last.SelectSchema? then [last.table] else []
  }

  /** The tables named by the inserts among `commands`, in order. */
  ghost function InsertTables<V>(commands: seq<Command<V>>): seq<string>
    decreases |commands|
  {
    if commands == [] then []
    else
      var last := commands[|commands| - 1];
      InsertTables(commands[..|commands| - 1]) + if last.Insert? then [last.table] else []
  }

  /** The mapped name of each document table, in document order. */
  ghost function MappedTables(doc: Document, mappings: map<string, string>): seq<string> {
    seq(|doc|, i requires 0 <= i < |doc| => MappedName(mappings, doc[i].name))
  }

  /** The document table name of each record, in document order. */
  ghost function RecordTables(doc: Document): seq<string>
    decreases |doc|
  {
    if doc == [] then []
    else
      var last := doc[|doc| - 1];
      RecordTables(doc[..|doc| - 1]) + seq(|last.records|, _ => last.name)
  }

  /** The planner gives one plan per record of each table. */
  ghost predicate PlansPerRecord<V>(doc: Document, plansOf: Planner<V>) {
    forall i :: 0 <= i < |doc| ==> |plansOf(doc[i])| == |doc[i].records|
  }

  lemma {:induction false} FiltersConcat<V>(a: seq<Command<V>>, b: seq<Command<V>>)
    ensures SchemaQueries(a + b) == SchemaQueries(a) + SchemaQueries(b)
    ensures InsertTables(a + b) == InsertTables(a) + InsertTables(b)
    decreases |b|
  {
    if b == [] {
      assert a + b == a;
    } else {
      assert (a + b)[..|a + b| - 1] == a + b[..|b| - 1];
      FiltersConcat(a, b[..|b| - 1]);
    }
  }

  /** The deletes name every table once, last table first. */
  lemma {:induction false} DeleteCommandsReverse<V>(doc: Document)
    ensures |DeleteCommands<V>(doc)| == |doc|
    ensures forall k :: 0 <= k < |doc| ==> DeleteCommands<V>(doc)[k] == Delete(doc[|doc| - 1 - k].name)
    decreases |doc|
  {
    if doc != [] {
      DeleteCommandsReverse<V>(doc[1..]);
    }
  }

  /**
    A table's inserts are, in order, the plans of its first records, one insert
    each, targeting the document table name. They cover every record when
    nothing failed, and otherwise stop exactly at the first record whose plan
    fails, with that record's error.
  */
  lemma {:induction false} RecordsRunInserts<V>(name: string, plans: seq<Result<RowPlan<V>, string>>)
    ensures var run := RecordsRun(name, plans);
            && |run.commands| <= |plans|
            && (forall k :: 0 <= k < |run.commands| ==>
                  run.commands[k].Insert? && run.commands[k].table == name && plans[k] == Success(run.commands[k].plan))
            && (run.failure.None? ==> |run.commands| == |plans|)
            && (run.failure.Some? ==> |run.commands| < |plans| && plans[|run.commands|] == Failure(run.failure.value))
    decreases |plans|
  {
    if plans != [] {
      var plans' := plans[..|plans| - 1];
      RecordsRunInserts(name, plans');
      assert forall k :: 0 <= k < |plans'| ==> plans'[k] == plans[k];
    }
  }

  /** Commands made of inserts only contain no schema query, and one insert target per command. */
  lemma {:induction false} InsertsOnly<V>(commands: seq<Command<V>>, name: string)
    requires forall k :: 0 <= k < |commands| ==> commands[k].Insert? && commands[k].table == name
    ensures SchemaQueries(commands) == []
    ensures InsertTables(commands) == seq(|commands|, _ => name)
    decreases |commands|
  {
    if commands != [] {
      InsertsOnly(commands[..|commands| - 1], name);
    }
  }

  /** A table's run: one schema query for its mapped name, then as many inserts as records that went in. */
  lemma TableRunFilters<V>(table: Table, mappings: map<string, string>, plansOf: Planner<V>)
    ensures var run := TableRun(table, mappings, plansOf);
            && SchemaQueries(run.commands) == [MappedName(mappings, table.name)]
            && InsertTables(run.commands) <= seq(|plansOf(table)|, _ => table.name)
            && (run.failure.None? ==> InsertTables(run.commands) == seq(|plansOf(table)|, _ => table.name))
  {
    var plans := plansOf(table);
    var records := RecordsRun(table.name, plans);
    RecordsRunInserts(table.name, plans);
    InsertsOnly(records.commands, table.name);
    var query: seq<Command<V>> := [SelectSchema(MappedName(mappings, table.name))];
    FiltersConcat(query, records.commands);
    assert SchemaQueries(query) == [MappedName(mappings, table.name)];
    assert InsertTables(query) == [];
  }

  /**
    The schema queries name the mapped tables in document order, and the
    inserts target the document table names, one per record, in document order:
    all of them when nothing failed, a prefix otherwise.
  */
  lemma {:induction false} TablesRunOrder<V>(doc: Document, mappings: map<string, string>, plansOf: Planner<V>)
    requires PlansPerRecord(doc, plansOf)
    ensures var run := TablesRun(doc, mappings, plansOf);
            && SchemaQueries(run.commands) <= MappedTables(doc, mappings)
            && InsertTables(run.commands) <= RecordTables(doc)
            && (run.failure.None? ==>
                  SchemaQueries(run.commands) == MappedTables(doc, mappings) &&
                  InsertTables(run.commands) == RecordTables(doc))
    decreases |doc|
  {
    if doc != [] {
      var doc' := doc[..|doc| - 1];
      var table := doc[|doc| - 1];
      assert forall i :: 0 <= i < |doc'| ==> doc'[i] == doc[i];
      TablesRunOrder(doc', mappings, plansOf);
      var before := TablesRun(doc', mappings, plansOf);
      MappedTablesSnoc(doc, mappings);
      if before.failure.None? {
        var last := TableRun(table, mappings, plansOf);
        TableRunFilters(table, mappings, plansOf);
        FiltersConcat(before.commands, last.commands);
        assert |plansOf(table)| == |table.records|;
      }
    }
  }

  lemma MappedTablesSnoc(doc: Document, mappings: map<string, string>)
    requires doc != []
    ensures MappedTables(doc, mappings) ==
              MappedTables(doc[..|doc| - 1], mappings) + [MappedName(mappings, doc[|doc| - 1].name)]
  {
  }

  /** The table phase issues no delete. */
  lemma {:induction false} TablesRunNoDelete<V>(doc: Document, mappings: map<string, string>, plansOf: Planner<V>)
    ensures forall c :: c in TablesRun(doc, mappings, plansOf).commands ==> !c.Delete?
    decreases |doc|
  {
    if doc != [] {
      TablesRunNoDelete(doc[..|doc| - 1], mappings, plansOf);
      var table := doc[|doc| - 1];
      RecordsRunInserts(table.name, plansOf(table));
    }
  }

  /** Every record of every table has a plan. */
  ghost predicate AllPlansSucceed<V>(doc: Document, plansOf: Planner<V>) {
    forall i, j :: 0 <= i < |doc| && 0 <= j < |plansOf(doc[i])| ==> plansOf(doc[i])[j].Success?
  }

  /** Some record of some table fails to plan with `error`. */
  ghost predicate SomePlanFailsWith<V>(doc: Document, plansOf: Planner<V>, error: string) {
    exists i, j :: 0 <= i < |doc| && 0 <= j < |plansOf(doc[i])| && plansOf(doc[i])[j] == Failure(error)
  }

  /** An import that did not fail planned every record. */
  lemma {:induction false} TablesRunSucceeds<V>(doc: Document, mappings: map<string, string>, plansOf: Planner<V>)
    ensures TablesRun(doc, mappings, plansOf).failure.None? ==> AllPlansSucceed(doc, plansOf)
    decreases |doc|
  {
    var run := TablesRun(doc, mappings, plansOf);
    if doc != [] && run.failure.None? {
      var doc' := doc[..|doc| - 1];
      var last := |doc| - 1;
      TablesRunSucceeds(doc', mappings, plansOf);
      var plans := plansOf(doc[last]);
      RecordsRunInserts(doc[last].name, plans);
      forall i, j | 0 <= i < |doc| && 0 <= j < |plansOf(doc[i])| ensures plansOf(doc[i])[j].Success? {
        if i < last {
          assert doc'[i] == doc[i];
        }
      }
    }
  }

  /** An import that failed did so with the error of a record whose plan fails. */
  lemma {:induction false} TablesRunFails<V>(doc: Document, mappings: map<string, string>, plansOf: Planner<V>)
    ensures var run := TablesRun(doc, mappings, plansOf);
            run.failure.Some? ==> SomePlanFailsWith(doc, plansOf, run.failure.value)
    decreases |doc|
  {
    var run := TablesRun(doc, mappings, plansOf);
    if doc != [] && run.failure.Some? {
      var doc' := doc[..|doc| - 1];
      var last := |doc| - 1;
      if TablesRun(doc', mappings, plansOf).failure.Some? {
        TablesRunFails(doc', mappings, plansOf);
        var i, j :| 0 <= i < |doc'| && 0 <= j < |plansOf(doc'[i])| && plansOf(doc'[i])[j] == Failure(run.failure.value);
        assert doc'[i] == doc[i];
      } else {
        var plans := plansOf(doc[last]);
        RecordsRunInserts(doc[last].name, plans);
        var j := |RecordsRun(doc[last].name, plans).commands|;
        assert plans[j] == Failure(run.failure.value);
      }
    }
  }

  /**
    Every insert targets a document table name with the plan of one of that
    table's records.
  */
  lemma {:induction false} TablesRunInserts<V>(doc: Document, mappings: map<string, string>, plansOf: Planner<V>)
    ensures forall c :: c in TablesRun(doc, mappings, plansOf).commands && c.Insert? ==>
              exists i, j :: 0 <= i < |doc| && 0 <= j < |plansOf(doc[i])| && doc[i].name == c.table &&
                plansOf(doc[i])[j] == Success(c.plan)
    decreases |doc|
  {
    if doc != [] {
      var doc' := doc[..|doc| - 1];
      var last := |doc| - 1;
      TablesRunInserts(doc', mappings, plansOf);
      assert forall i :: 0 <= i < |doc'| ==> doc'[i] == doc[i];
      var plans := plansOf(doc[last]);
      RecordsRunInserts(doc[last].name, plans);
      var records := RecordsRun(doc[last].name, plans).commands;
      forall c | c in records && c.Insert?
        ensures exists i, j :: 0 <= i < |doc| && 0 <= j < |plansOf(doc[i])| && doc[i].name == c.table &&
                  plansOf(doc[i])[j] == Success(c.plan)
      {
        var k :| 0 <= k < |records| && records[k] == c;
        assert plans[k] == Success(c.plan);
      }
    }
  }

  /**
    With the delete flag, the import first deletes every table, last table
    first; no delete comes after those, and without the flag none is issued.
  */
  lemma ImportDeletesFirst<V>(doc: Document, mappings: map<string, string>, delete: bool,
                              schemaOf: string -> seq<SchemaColumn>, conv: Converter<V>, now: Instant)
    ensures var run := ImportSpec(doc, mappings, delete, schemaOf, conv, now);
            var deletes := if delete then |doc| else 0;
            && deletes <= |run.commands|
            && (forall k :: 0 <= k < deletes ==> run.commands[k] == Delete(doc[|doc| - 1 - k].name))
            && (forall k :: deletes <= k < |run.commands| ==> !run.commands[k].Delete?)
  {
    var run := ImportSpec(doc, mappings, delete, schemaOf, conv, now);
    var tables := TablesRun(doc, mappings, PlannerFor(mappings, schemaOf, conv, now));
    TablesRunNoDelete(doc, mappings, PlannerFor(mappings, schemaOf, conv, now));
    DeleteCommandsReverse<V>(doc);
    var deletes := if delete then |doc| else 0;
    forall k | deletes <= k < |run.commands| ensures !run.commands[k].Delete? {
      assert run.commands[k] == tables.commands[k - deletes];
    }
  }

  /**
    The schema queries name the mapped tables in document order and the inserts
    target the document table names, one per record in document order: all of
    them when the import did not fail, a prefix of them when it did.
  */
  lemma ImportOrder<V>(doc: Document, mappings: map<string, string>, delete: bool,
                       schemaOf: string -> seq<SchemaColumn>, conv: Converter<V>, now: Instant)
    ensures var run := ImportSpec(doc, mappings, delete, schemaOf, conv, now);
            && SchemaQueries(run.commands) <= MappedTables(doc, mappings)
            && InsertTables(run.commands) <= RecordTables(doc)
            && (run.failure.None? ==>
                  SchemaQueries(run.commands) == MappedTables(doc, mappings) &&
                  InsertTables(run.commands) == RecordTables(doc))
  {
    var deletes: seq<Command<V>> := if delete then DeleteCommands(doc) else [];
    var plansOf := PlannerFor(mappings, schemaOf, conv, now);
    DeletesFilter<V>(doc);
    assert PlansPerRecord(doc, plansOf);
    RunOrder(doc, mappings, deletes, plansOf);
  }

  /** `ImportOrder` for any planner, after commands that hold no schema query and no insert. */
  lemma RunOrder<V>(doc: Document, mappings: map<string, string>, deletes: seq<Command<V>>, plansOf: Planner<V>)
    requires SchemaQueries(deletes) == [] && InsertTables(deletes) == []
    requires PlansPerRecord(doc, plansOf)
    ensures var run := TablesRun(doc, mappings, plansOf);
            var commands := deletes + run.commands;
            && SchemaQueries(commands) <= MappedTables(doc, mappings)
            && InsertTables(commands) <= RecordTables(doc)
            && (run.failure.None? ==>
                  SchemaQueries(commands) == MappedTables(doc, mappings) &&
                  InsertTables(commands) == RecordTables(doc))
  {
    var run := TablesRun(doc, mappings, plansOf);
    TablesRunOrder(doc, mappings, plansOf);
    FiltersConcat(deletes, run.commands);
  }

  /** Deletes contain no schema query and no insert. */
  lemma {:induction false} DeletesFilter<V>(doc: Document)
    ensures SchemaQueries(DeleteCommands<V>(doc)) == []
    ensures InsertTables(DeleteCommands<V>(doc)) == []
    decreases |doc|
  {
    if doc != [] {
      DeletesFilter<V>(doc[1..]);
      var rest := DeleteCommands<V>(doc[1..]);
      assert DeleteCommands<V>(doc)[..|rest|] == rest;
    }
  }

  /**
    The import fails exactly when some record's plan fails, and then with the
    error of a failing record; a failing conversion is the only way it fails.
  */
  lemma ImportFailure<V>(doc: Document, mappings: map<string, string>, delete: bool,
                         schemaOf: string -> seq<SchemaColumn>, conv: Converter<V>, now: Instant)
    ensures var run := ImportSpec(doc, mappings, delete, schemaOf, conv, now);
            var plansOf := PlannerFor(mappings, schemaOf, conv, now);
            && (run.failure.None? <==> AllPlansSucceed(doc, plansOf))
            && (run.failure.Some? ==> SomePlanFailsWith(doc, plansOf, run.failure.value))
  {
    var plansOf := PlannerFor(mappings, schemaOf, conv, now);
    TablesRunSucceeds(doc, mappings, plansOf);
    TablesRunFails(doc, mappings, plansOf);
  }

  /**
    Every insert lists distinct columns of the schema of its table's mapped
    name, in schema order, one parameter per column: the schema query goes
    to the mapped name while the INSERT goes to the document table name.
  */
  lemma InsertColumnsFromMappedSchema<V>(doc: Document, mappings: map<string, string>, delete: bool,
                                         schemaOf: string -> seq<SchemaColumn>, conv: Converter<V>, now: Instant)
    ensures forall c :: c in ImportSpec(doc, mappings, delete, schemaOf, conv, now).commands && c.Insert? ==>
              var schema := ColumnsOf(schemaOf(MappedName(mappings, c.table)));
              && Subsequence(c.plan.columns, schema.keys)
              && Distinct(c.plan.columns)
              && |c.plan.columns| == |c.plan.parameters|
  {
    var plansOf := PlannerFor(mappings, schemaOf, conv, now);
    var tables := TablesRun(doc, mappings, plansOf);
    TablesRunInserts(doc, mappings, plansOf);
    TablesRunNoDelete(doc, mappings, plansOf);
    forall c | c in ImportSpec(doc, mappings, delete, schemaOf, conv, now).commands && c.Insert?
      ensures var schema := ColumnsOf(schemaOf(MappedName(mappings, c.table)));
              && Subsequence(c.plan.columns, schema.keys)
              && Distinct(c.plan.columns)
              && |c.plan.columns| == |c.plan.parameters|
    {
      if delete {
        DeleteCommandsReverse<V>(doc);
      }
      assert c in tables.commands;
      var i, j :| 0 <= i < |doc| && 0 <= j < |plansOf(doc[i])| && doc[i].name == c.table &&
                  plansOf(doc[i])[j] == Success(c.plan);
      var schema := ColumnsOf(schemaOf(MappedName(mappings, c.table)));
      var decide := DeciderFor(schema.shapes, mappings, doc[i].records[j].fields, conv, now);
      assert PlanColumns(schema.keys, decide) == Success(c.plan);
      PlanColumnsShape(schema.keys, decide);
      ColumnsOfNames(schemaOf(MappedName(mappings, c.table)));
    }
  }
}
