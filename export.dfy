/**
  `Program.Export`: for each requested table, one <table> element holding a
  <record> per row the query returns and a <field> per column of the row.
  The query results come from a function supplied by the caller, and
  `Convert.ToString` of a value is an uninterpreted function.
*/
module Exporting {
  import opened Wrappers
  import opened Strings
  import opened BackupDocument
  import opened ImportPlanning

  /**
    One column of the current reader row: its name, the full name of its
    field type when the reader reports one, and its value (None for DBNull).
  */
  datatype Column<V> = Column(name: string, fieldType: Option<string>, value: Option<V>)

  type Row<V> = seq<Column<V>>

  /** The <field> element written for a column. */
  function FieldOf<V>(column: Column<V>, toText: V -> string): Field {
    match column.value
    case None => Field(Some(column.name), column.fieldType, Some("true"), "")
    case Some(v) => Field(Some(column.name), column.fieldType, None, toText(v))
  }

  /** The <record> element written for a row. */
  function RecordOf<V>(row: Row<V>, toText: V -> string): Record {
    Record(seq(|row|, f requires 0 <= f < |row| => FieldOf(row[f], toText)))
  }

  /** The <table> element written for a table and the rows `SELECT * FROM table` returned. */
  function TableOf<V>(name: string, rows: seq<Row<V>>, toText: V -> string): Table {
    Table(name, seq(|rows|, r requires 0 <= r < |rows| => RecordOf(rows[r], toText)))
  }

  /** The document written for the requested tables. */
  function DocumentOf<V>(tables: seq<string>, rowsOf: string -> seq<Row<V>>, toText: V -> string): Document {
    seq(|tables|, t requires 0 <= t < |tables| => TableOf(tables[t], rowsOf(tables[t]), toText))
  }

  /** Writes the fields of one row, column by column. */
  method ExportRecord<V>(row: Row<V>, toText: V -> string) returns (record: Record)
    ensures record == RecordOf(row, toText)
  {
    var fields: seq<Field> := [];
    for f := 0 to |row|
      invariant fields == RecordOf(row[..f], toText).fields
    {
      var column := row[f];
      var field := Field(Some(column.name), None, None, "");
      if column.fieldType.Some? {
        field := field.(typeTag := column.fieldType);
      }
      if column.value.None? {
        field := field.(nullAttr := Some("true"));
      } else {
        field := field.(text := toText(column.value.value));
      }
      fields := fields + [field];
    }
    assert row[..|row|] == row;
    return Record(fields);
  }

  /** Writes one table: a record per row read. */
  method ExportTable<V>(name: string, rows: seq<Row<V>>, toText: V -> string) returns (table: Table)
    ensures table == TableOf(name, rows, toText)
  {
    var records: seq<Record> := [];
    for r := 0 to |rows|
      invariant records == TableOf(name, rows[..r], toText).records
    {
      var record := ExportRecord(rows[r], toText);
      records := records + [record];
    }
    assert rows[..|rows|] == rows;
    return Table(name, records);
  }

  /** Writes the requested tables in the order given. */
  method Export<V>(tables: seq<string>, rowsOf: string -> seq<Row<V>>, toText: V -> string) returns (doc: Document)
    ensures doc == DocumentOf(tables, rowsOf, toText)
  {
    doc := [];
    for t := 0 to |tables|
      invariant doc == DocumentOf(tables[..t], rowsOf, toText)
    {
      var table := ExportTable(tables[t], rowsOf(tables[t]), toText);
      doc := doc + [table];
    }
    assert tables[..|tables|] == tables;
  }

  /**
    The document has a table per requested name, in order, a record per row
    and a field per column, named after it and tagged with its field type;
    `null="true"` is written exactly for DB nulls, and every other field holds
    the value's string form.
  */
  lemma ExportShape<V>(tables: seq<string>, rowsOf: string -> seq<Row<V>>, toText: V -> string)
    ensures var doc := DocumentOf(tables, rowsOf, toText);
            && |doc| == |tables|
            && forall t, r, f ::
                 0 <= t < |tables| && 0 <= r < |rowsOf(tables[t])| && 0 <= f < |rowsOf(tables[t])[r]| ==>
                   var column := rowsOf(tables[t])[r][f];
                   && doc[t].name == tables[t]
                   && |doc[t].records| == |rowsOf(tables[t])|
                   && |doc[t].records[r].fields| == |rowsOf(tables[t])[r]|
                   && doc[t].records[r].fields[f].name == Some(column.name)
                   && doc[t].records[r].fields[f].typeTag == column.fieldType
                   && (doc[t].records[r].fields[f].nullAttr == Some("true") <==> column.value.None?)
                   && (column.value.Some? ==> doc[t].records[r].fields[f].text == toText(column.value.value))
  {
  }

  /** No column of the row before `f` has the name of column `f`. */
  ghost predicate FirstColumnNamed<V>(row: Row<V>, f: int) {
    0 <= f < |row| && forall g :: 0 <= g < f ==> row[g].name != row[f].name
  }

  /**
    Reading an exported record back: a destination column whose source name
    is that of the first row column so named is left out exactly when the value
    was DB null, and otherwise gets the conversion of the value's string form
    with the column's field type.
  */
  lemma ExportThenDecide<V>(row: Row<V>, f: int, toText: V -> string, dest: string, shape: ColumnShape,
                            mappings: map<string, string>, conv: Converter<V>, now: Instant)
    requires FirstColumnNamed(row, f)
    requires MappedName(mappings, dest) == row[f].name
    ensures var decision := Decide(dest, shape, mappings, RecordOf(row, toText).fields, conv, now);
            && (row[f].value.None? ==> decision == Success(None))
            && (row[f].value.Some? ==>
                  decision == match conv.fromString(toText(row[f].value.value), row[f].fieldType)
                              case Threw(e) => Failure(e)
                              case Returned(obj) =>
                                Success(Some(Parameter("@p" + dest, shape.sqlType, ParameterSize(shape, conv, obj), Converted(obj)))))
  {
    var fields := RecordOf(row, toText).fields;
    assert FirstNamed(fields, row[f].name, f);
    assert !IsNullOrWhiteSpace(Some("true")) by {
      assert !IsWhiteSpace("true"[0]);
    }
  }
}
