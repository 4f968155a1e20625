/**
  The per-record decisions of `Program.Import`: which destination columns an
  INSERT includes, with which parameter type, size and value, and the INSERT
  text. Database access, XML and the value conversion `FromString` are not
  part of this module: the schema rows and the record come in as values and the
  conversion is a function supplied by the caller.
*/
module ImportPlanning {
  import opened Wrappers
  import opened Sequences
  import opened Strings
  import opened BackupDocument

  /** A reading of `DateTime.Now`. */
  datatype Instant = Instant(ticks: int)

  /** What `FromString` does with a field: throws, or returns an object (None for null). */
  datatype Conversion<V> = Threw(message: string) | Returned(obj: Option<V>)

  /**
    The foreign calls made on a field value, left uninterpreted:
    `FromString(text, Type.GetType(typeTag))` and `ToString()` of its result.
  */
  datatype Converter<!V> = Converter(fromString: (string, Option<string>) -> Conversion<V>, toText: V -> string)

  /** The value bound to an insert parameter. */
  datatype ParamValue<V> =
    | BitZero                  // the boxed 0 bound to a Bit column with no field
    | CurrentTime(at: Instant) // `DateTime.Now`, bound to a DateTime2 column with no field
    | EmptyGuid                // `Guid.Empty`, bound to a UniqueIdentifier column with no field
    | Converted(obj: Option<V>) // what `FromString` returned for the field

  /** `new SqlParameter(name, sqlType, size) { Value = value }`. */
  datatype Parameter<V> = Parameter(name: string, sqlType: SqlDbType, size: int, value: ParamValue<V>)

  /** One row of the schema table: its ColumnName, ProviderType and ColumnSize. */
  datatype SchemaColumn = SchemaColumn(name: string, sqlType: SqlDbType, size: int)

  datatype ColumnShape = ColumnShape(sqlType: SqlDbType, size: int)

  /**
    The `columnTypes` and `columnSizes` dictionaries, merged: the keys in the order
    the dictionaries enumerate them, and each key's type and size.
  */
  datatype ColumnTable = ColumnTable(keys: seq<string>, shapes: map<string, ColumnShape>)

  /** The `columns` list and the `command.Parameters` built for one record. */
  datatype RowPlan<V> = RowPlan(columns: seq<string>, parameters: seq<Parameter<V>>)

  /** `mappings.TryGetValue(name, out mapped)`, falling back to the name itself. */
  function MappedName(mappings: map<string, string>, name: string): (mapped: string)
    // a mapped name is the mapping's value for it
    ensures name in mappings ==> mapped == mappings[name]
    // an unmapped name, and every name under an empty mapping, resolves to itself
    ensures name !in mappings ==> mapped == name
  {
    if name in mappings then mappings[name] else name
  }

  /** Filling the dictionaries from the schema rows, one `columnTypes[name] = type` at a time. */
  function ColumnsOf(rows: seq<SchemaColumn>): (table: ColumnTable)
    ensures forall c :: c in table.keys <==> c in table.shapes
    decreases |rows|
  {
    if rows == [] then ColumnTable([], map[])
    else
      var table := ColumnsOf(rows[..|rows| - 1]);
      var row := rows[|rows| - 1];
      ColumnTable(if row.name in table.shapes then table.keys else table.keys + [row.name],
                  table.shapes[row.name := ColumnShape(row.sqlType, row.size)])
  }

  /** Row `i` is the first schema row with its name. */
  ghost predicate FirstOccurrence(rows: seq<SchemaColumn>, i: int) {
    0 <= i < |rows| && forall j :: 0 <= j < i ==> rows[j].name != rows[i].name
  }

  /** Row `i` is the last schema row with its name. */
  ghost predicate LastOccurrence(rows: seq<SchemaColumn>, i: int) {
    0 <= i < |rows| && forall j :: i < j < |rows| ==> rows[j].name != rows[i].name
  }

  /** The dictionaries hold each schema column name once, and nothing else. */
  lemma {:induction false} ColumnsOfNames(rows: seq<SchemaColumn>)
    ensures var table := ColumnsOf(rows);
            && Distinct(table.keys)
            && (forall c :: c in table.shapes <==> exists i :: 0 <= i < |rows| && rows[i].name == c)
    decreases |rows|
  {
    if rows != [] {
      var rows' := rows[..|rows| - 1];
      var row := rows[|rows| - 1];
      var before := ColumnsOf(rows');
      var table := ColumnsOf(rows);
      ColumnsOfNames(rows');
      if row.name !in before.shapes {
        DistinctConcat(before.keys, [row.name]);
      }
      forall c | c in table.shapes ensures exists i :: 0 <= i < |rows| && rows[i].name == c {
        if c != row.name {
          var i :| 0 <= i < |rows'| && rows'[i].name == c;
          assert rows[i].name == c;
        } else {
          assert rows[|rows| - 1].name == c;
        }
      }
      forall c | (exists i :: 0 <= i < |rows| && rows[i].name == c) ensures c in table.shapes {
        var i :| 0 <= i < |rows| && rows[i].name == c;
        if i < |rows'| {
          assert rows'[i].name == c;
        }
      }
    }
  }

  /** A column's type and size are those of the last schema row with its name. */
  lemma {:induction false} ColumnsOfLastWins(rows: seq<SchemaColumn>)
    ensures var table := ColumnsOf(rows);
            forall i :: LastOccurrence(rows, i) ==>
              rows[i].name in table.shapes &&
              table.shapes[rows[i].name] == ColumnShape(rows[i].sqlType, rows[i].size)
    decreases |rows|
  {
    if rows != [] {
      var rows' := rows[..|rows| - 1];
      ColumnsOfLastWins(rows');
      forall i | LastOccurrence(rows, i) && i < |rows'| ensures LastOccurrence(rows', i) {
        assert forall j :: i < j < |rows'| ==> rows'[j] == rows[j];
      }
    }
  }

  /** The columns are listed in the order their names first occur in the schema rows. */
  lemma {:induction false} ColumnsOfOrder(rows: seq<SchemaColumn>)
    ensures var table := ColumnsOf(rows);
            forall k, i :: 0 <= k < |table.keys| && FirstOccurrence(rows, i) && rows[i].name == table.keys[k] ==>
              forall j :: 0 <= j < i ==> rows[j].name in table.keys[..k]
    decreases |rows|
  {
    if rows != [] {
      var rows' := rows[..|rows| - 1];
      var table := ColumnsOf(rows);
      ColumnsOfOrder(rows');
      ColumnsOfNames(rows');
      forall k, i | 0 <= k < |table.keys| && FirstOccurrence(rows, i) && rows[i].name == table.keys[k]
        ensures forall j :: 0 <= j < i ==> rows[j].name in table.keys[..k]
      {
        if i < |rows'| {
          OrderKeptForEarlierRow(rows, k, i);
        } else {
          OrderOfLastRow(rows, k, i);
        }
      }
    }
  }

  /** The keys of `ColumnsOf(rows)` are in order of first appearance in `rows`. */
  ghost predicate KeysInOrder(rows: seq<SchemaColumn>) {
    var table := ColumnsOf(rows);
    forall k, i :: 0 <= k < |table.keys| && FirstOccurrence(rows, i) && rows[i].name == table.keys[k] ==>
      forall j :: 0 <= j < i ==> rows[j].name in table.keys[..k]
  }

  /** `ColumnsOfOrder`'s step for a row that first appears before the last row. */
  lemma OrderKeptForEarlierRow(rows: seq<SchemaColumn>, k: int, i: int)
    requires rows != [] && KeysInOrder(rows[..|rows| - 1])
    requires 0 <= k < |ColumnsOf(rows).keys| && FirstOccurrence(rows, i) && i < |rows| - 1
    requires rows[i].name == ColumnsOf(rows).keys[k]
    ensures forall j :: 0 <= j < i ==> rows[j].name in ColumnsOf(rows).keys[..k]
  {
    var rows' := rows[..|rows| - 1];
    var before, table := ColumnsOf(rows'), ColumnsOf(rows);
    ColumnsOfNames(rows');
    assert FirstOccurrence(rows', i) by {
      assert forall j :: 0 <= j <= i ==> rows'[j] == rows[j];
    }
    assert rows'[i].name in before.shapes;
    assert k < |before.keys| && before.keys[k] == rows'[i].name;
    assert table.keys[..k] == before.keys[..k];
    forall j | 0 <= j < i ensures rows[j].name in table.keys[..k] {
      assert rows'[j] == rows[j];
      assert rows'[j].name in before.keys[..k];
    }
  }

  /** `ColumnsOfOrder`'s step for a name that first appears in the last row. */
  lemma OrderOfLastRow(rows: seq<SchemaColumn>, k: int, i: int)
    requires rows != []
    requires 0 <= k < |ColumnsOf(rows).keys| && FirstOccurrence(rows, i) && i == |rows| - 1
    requires rows[i].name == ColumnsOf(rows).keys[k]
    ensures forall j :: 0 <= j < i ==> rows[j].name in ColumnsOf(rows).keys[..k]
  {
    var rows' := rows[..|rows| - 1];
    var before, table := ColumnsOf(rows'), ColumnsOf(rows);
    ColumnsOfNames(rows');
    ColumnsOfNames(rows);
    assert rows[i].name !in before.shapes;
    assert table.keys == before.keys + [rows[i].name];
    assert k == |before.keys|;
    assert table.keys[..k] == before.keys;
    forall j | 0 <= j < i ensures rows[j].name in table.keys[..k] {
      assert rows'[j] == rows[j];
      assert rows'[j].name in before.shapes;
    }
  }

  /** Field `i` is the first field whose name attribute is `name`. */
  ghost predicate FirstNamed(fields: seq<Field>, name: string, i: int) {
    0 <= i < |fields| && fields[i].name == Some(name) && forall j :: 0 <= j < i ==> fields[j].name != Some(name)
  }

  /** `Descendants("field").FirstOrDefault(f => (string)f.Attribute("name") == name)`. */
  function FindField(fields: seq<Field>, name: string): (r: Option<nat>)
    ensures r.Some? ==> FirstNamed(fields, name, r.value)
    ensures r.None? ==> forall j :: 0 <= j < |fields| ==> fields[j].name != Some(name)
    decreases |fields|
  {
    if fields == [] then None
    else if fields[0].name == Some(name) then Some(0)
    else
      match FindField(fields[1..], name)
      case None => None
      case Some(i) =>
        assert forall j :: 1 <= j <= i ==> fields[j] == fields[1..][j - 1];
        Some(i + 1)
  }

  /** The value bound when a record has no field for a column of the given type. */
  function MissingFieldDefault<V>(sqlType: SqlDbType, now: Instant): (default: Option<ParamValue<V>>)
    // only Bit, DateTime2 and UniqueIdentifier columns get a default
    ensures default.Some? <==> sqlType == Bit || sqlType == DateTime2 || sqlType == UniqueIdentifier
    // a default is never a converted field value, and the time default is the import's clock reading
    ensures default.Some? ==> !default.value.Converted?
    ensures default.Some? && default.value.CurrentTime? ==> default.value.at == now && sqlType == DateTime2
    // the rule table: Bit gets 0, DateTime2 the current time, UniqueIdentifier the empty Guid
    ensures sqlType == Bit ==> default == Some(BitZero)
    ensures sqlType == DateTime2 ==> default == Some(CurrentTime(now))
    ensures sqlType == UniqueIdentifier ==> default == Some(EmptyGuid)
  {
    match sqlType
    case Bit => Some(BitZero)
    case DateTime2 => Some(CurrentTime(now))
    case UniqueIdentifier => Some(EmptyGuid)
    case _ => None
  }

  /** The parameter size: the converted value's text length for NVarChar (0 for null), else the column size. */
  function ParameterSize<V>(shape: ColumnShape, conv: Converter<V>, obj: Option<V>): (size: int)
    // other types keep the schema size
    ensures shape.sqlType != NVarChar ==> size == shape.size
    // NVarChar: the length of the converted value's text, and 0 for null
    ensures shape.sqlType == NVarChar ==> size >= 0 && (obj.None? ==> size == 0)
    ensures shape.sqlType == NVarChar && obj.Some? ==> size == |conv.toText(obj.value)|
  {
    if shape.sqlType == NVarChar then (if obj.Some? then |conv.toText(obj.value)| else 0) else shape.size
  }

  /**
    What the body of `foreach (var destColumn in columnTypes.Keys)` does for one
    destination column: include it with a parameter, omit it, or throw.
  */
  function Decide<V>(dest: string, shape: ColumnShape, mappings: map<string, string>, fields: seq<Field>,
                     conv: Converter<V>, now: Instant): (r: Result<Option<Parameter<V>>, string>)
    // an included column is bound to "@p" + its name, with its schema type
    ensures r.Success? && r.value.Some? ==> r.value.value.name == "@p" + dest && r.value.value.sqlType == shape.sqlType
    // no field carries the resolved name: only Bit, DateTime2 and UniqueIdentifier get a default
    ensures (forall j :: 0 <= j < |fields| ==> fields[j].name != Some(MappedName(mappings, dest))) ==>
              r == Success(
                if shape.sqlType == Bit then Some(Parameter("@p" + dest, Bit, shape.size, BitZero))
                else if shape.sqlType == DateTime2 then Some(Parameter("@p" + dest, DateTime2, shape.size, CurrentTime(now)))
                else if shape.sqlType == UniqueIdentifier then Some(Parameter("@p" + dest, UniqueIdentifier, shape.size, EmptyGuid))
                else None)
    // the first field of that name has a non-blank null attribute: the column is left out
    ensures forall i :: FirstNamed(fields, MappedName(mappings, dest), i) && !IsNullOrWhiteSpace(fields[i].nullAttr) ==>
              r == Success(None)
    // otherwise its text is converted with its type tag; a throwing conversion aborts the record
    ensures forall i :: FirstNamed(fields, MappedName(mappings, dest), i) && IsNullOrWhiteSpace(fields[i].nullAttr) ==>
              r == match conv.fromString(fields[i].text, fields[i].typeTag)
                   case Threw(e) => Failure(e)
                   case Returned(obj) =>
                     Success(Some(Parameter("@p" + dest, shape.sqlType, ParameterSize(shape, conv, obj), Converted(obj))))
  {
    var source := MappedName(mappings, dest);
    match FindField(fields, source)
    case None => DecideMissing(dest, shape, now)
    case Some(i) => DecideField(dest, shape, fields[i], conv)
  }

  /** `Decide` for a column no field matches: the missing-field default, if its type has one. */
  function DecideMissing<V>(dest: string, shape: ColumnShape, now: Instant): (r: Result<Option<Parameter<V>>, string>)
    ensures r == Success(
              if shape.sqlType == Bit then Some(Parameter("@p" + dest, Bit, shape.size, BitZero))
              else if shape.sqlType == DateTime2 then Some(Parameter("@p" + dest, DateTime2, shape.size, CurrentTime(now)))
              else if shape.sqlType == UniqueIdentifier then Some(Parameter("@p" + dest, UniqueIdentifier, shape.size, EmptyGuid))
              else None)
  {
    match MissingFieldDefault(shape.sqlType, now)
    case None => Success(None)
    case Some(v) => Success(Some(Parameter("@p" + dest, shape.sqlType, shape.size, v)))
  }

  /** `Decide` for the first field that matches a column: left out when null, else converted. */
  function DecideField<V>(dest: string, shape: ColumnShape, field: Field, conv: Converter<V>): (r: Result<Option<Parameter<V>>, string>)
    ensures !IsNullOrWhiteSpace(field.nullAttr) ==> r == Success(None)
    ensures IsNullOrWhiteSpace(field.nullAttr) ==>
              r == match conv.fromString(field.text, field.typeTag)
                   case Threw(e) => Failure(e)
                   case Returned(obj) =>
                     Success(Some(Parameter("@p" + dest, shape.sqlType, ParameterSize(shape, conv, obj), Converted(obj))))
  {
    if !IsNullOrWhiteSpace(field.nullAttr) then Success(None)
    else
      match conv.fromString(field.text, field.typeTag)
      case Threw(e) => Failure(e)
      case Returned(obj) => Success(Some(Parameter("@p" + dest, shape.sqlType, ParameterSize(shape, conv, obj), Converted(obj))))
  }

  /**
    An included NVarChar column is always bound to a converted field value (no
    default exists for NVarChar), and its parameter size is the length of that
    value's text, or 0 when the conversion gave null.
  */
  lemma NVarCharSizeIsTextLength<V>(dest: string, shape: ColumnShape, mappings: map<string, string>, fields: seq<Field>,
                                    conv: Converter<V>, now: Instant)
    requires shape.sqlType == NVarChar
    ensures var r := Decide(dest, shape, mappings, fields, conv, now);
            r.Success? && r.value.Some? ==>
              var p := r.value.value;
              && p.value.Converted?
              && (p.value.obj.Some? ==> p.size == |conv.toText(p.value.obj.value)|)
              && (p.value.obj.None? ==> p.size == 0)
  {
    match FindField(fields, MappedName(mappings, dest))
    case None =>
      assert DecideMissing<V>(dest, shape, now) == Success(None);
    case Some(i) =>
  }

  /** The decision for each destination column of one record, by column name. */
  type Decider<V> = string --> Result<Option<Parameter<V>>, string>

  /** The loop body of the import for one record: `Decide` against the column's schema shape. */
  function DeciderFor<V>(shapes: map<string, ColumnShape>, mappings: map<string, string>, fields: seq<Field>,
                         conv: Converter<V>, now: Instant): Decider<V>
  {
    dest requires dest in shapes => Decide(dest, shapes[dest], mappings, fields, conv, now)
  }

  /** The decisions for the columns `keys`, in order; the first throwing column aborts the record. */
  function PlanColumns<V>(keys: seq<string>, decide: Decider<V>): Result<RowPlan<V>, string>
    requires forall k :: k in keys ==> decide.requires(k)
    decreases |keys|
  {
    if keys == [] then Success(RowPlan([], []))
    else
      var dest := keys[|keys| - 1];
      match PlanColumns(keys[..|keys| - 1], decide)
      case Failure(e) => Failure(e)
      case Success(plan) =>
        match decide(dest)
        case Failure(e) => Failure(e)
        case Success(None) => Success(plan)
        case Success(Some(p)) => Success(RowPlan(plan.columns + [dest], plan.parameters + [p]))
  }

  /** The plan of one record against the schema columns `keys`. */
  function PlanRow<V>(keys: seq<string>, shapes: map<string, ColumnShape>, mappings: map<string, string>,
                      fields: seq<Field>, conv: Converter<V>, now: Instant): Result<RowPlan<V>, string>
    requires forall k :: k in keys ==> k in shapes
  {
    PlanColumns(keys, DeciderFor(shapes, mappings, fields, conv, now))
  }

  /** A planned insert lists columns of `keys` only, in their order, one parameter per column. */
  lemma {:induction false} PlanColumnsShape<V>(keys: seq<string>, decide: Decider<V>)
    requires forall k :: k in keys ==> decide.requires(k)
    ensures var r := PlanColumns(keys, decide);
            r.Success? ==>
              && |r.value.columns| == |r.value.parameters|
              && Subsequence(r.value.columns, keys)
              && (Distinct(keys) ==> Distinct(r.value.columns))
    decreases |keys|
  {
    var r := PlanColumns(keys, decide);
    if keys != [] && r.Success? {
      var keys' := keys[..|keys| - 1];
      var dest := keys[|keys| - 1];
      assert keys == keys' + [dest];
      PlanColumnsShape(keys', decide);
      var plan := PlanColumns(keys', decide).value;
      if r.value != plan {
        assert r.value.columns == plan.columns + [dest];
        SubsequenceSnoc(plan.columns, keys', dest);
      } else {
        SubsequenceAppend(plan.columns, keys', dest);
      }
      if Distinct(keys) {
        SubsequenceDistinct(r.value.columns, keys);
      }
    }
  }

  /** A column is in a planned insert exactly when it is one of `keys` whose decision yields a parameter. */
  lemma {:induction false} PlanColumnsIncluded<V>(keys: seq<string>, decide: Decider<V>)
    requires forall k :: k in keys ==> decide.requires(k)
    ensures var r := PlanColumns(keys, decide);
            r.Success? ==>
              forall c :: c in r.value.columns <==> c in keys && decide(c).Success? && decide(c).value.Some?
    decreases |keys|
  {
    var r := PlanColumns(keys, decide);
    if keys != [] && r.Success? {
      var keys' := keys[..|keys| - 1];
      var dest := keys[|keys| - 1];
      assert keys == keys' + [dest];
      PlanColumnsIncluded(keys', decide);
    }
  }

  /** Each column of a planned insert is bound to the parameter its decision yields. */
  lemma {:induction false} PlanColumnsParameters<V>(keys: seq<string>, decide: Decider<V>)
    requires forall k :: k in keys ==> decide.requires(k)
    ensures var r := PlanColumns(keys, decide);
            r.Success? ==>
              |r.value.columns| == |r.value.parameters| &&
              forall i :: 0 <= i < |r.value.columns| ==>
                r.value.columns[i] in keys && decide(r.value.columns[i]) == Success(Some(r.value.parameters[i]))
    decreases |keys|
  {
    var r := PlanColumns(keys, decide);
    if keys != [] && r.Success? {
      var keys' := keys[..|keys| - 1];
      assert forall k :: k in keys' ==> k in keys;
      PlanColumnsParameters(keys', decide);
    }
  }

  /** A record's insert is planned whenever no column's decision throws. */
  lemma {:induction false} PlanColumnsSucceeds<V>(keys: seq<string>, decide: Decider<V>)
    requires forall k :: k in keys ==> decide.requires(k) && decide(k).Success?
    ensures PlanColumns(keys, decide).Success?
    decreases |keys|
  {
    if keys != [] {
      var keys' := keys[..|keys| - 1];
      assert forall k :: k in keys' ==> k in keys;
      PlanColumnsSucceeds(keys', decide);
    }
  }

  /** A failed record fails with the error of the first column whose decision throws. */
  lemma {:induction false} PlanColumnsFirstError<V>(keys: seq<string>, decide: Decider<V>)
    requires forall k :: k in keys ==> decide.requires(k)
    ensures var r := PlanColumns(keys, decide);
            r.Failure? ==>
              exists i :: 0 <= i < |keys| && decide(keys[i]) == Failure(r.error) &&
                forall j :: 0 <= j < i ==> decide(keys[j]).Success?
    decreases |keys|
  {
    var r := PlanColumns(keys, decide);
    if keys != [] && r.Failure? {
      var keys' := keys[..|keys| - 1];
      assert forall j :: 0 <= j < |keys'| ==> keys'[j] == keys[j];
      PlanColumnsFirstError(keys', decide);
      if PlanColumns(keys', decide).Success? {
        PlanColumnsSucceedsOnly(keys', decide);
        assert decide(keys[|keys| - 1]) == Failure(r.error);
      }
    }
  }

  /** A planned insert means no column's decision threw. */
  lemma {:induction false} PlanColumnsSucceedsOnly<V>(keys: seq<string>, decide: Decider<V>)
    requires forall k :: k in keys ==> decide.requires(k)
    requires PlanColumns(keys, decide).Success?
    ensures forall j :: 0 <= j < |keys| ==> decide(keys[j]).Success?
  {
    forall j | 0 <= j < |keys| ensures decide(keys[j]).Success? {
      DecisionSucceeds(keys, decide, j);
    }
  }

  lemma {:induction false} DecisionSucceeds<V>(keys: seq<string>, decide: Decider<V>, j: int)
    requires forall k :: k in keys ==> decide.requires(k)
    requires PlanColumns(keys, decide).Success?
    requires 0 <= j < |keys|
    ensures decide(keys[j]).Success?
    decreases |keys|
  {
    var keys' := keys[..|keys| - 1];
    if j < |keys'| {
      assert keys'[j] == keys[j];
      DecisionSucceeds(keys', decide, j);
    }
  }

  /** The `[c]` list of an INSERT. */
  function ColumnList(columns: seq<string>): (text: string)
    // split back at ',', the list holds `[c]` for each column, in order, when no column name has a comma
    ensures |columns| >= 1 && (forall i :: 0 <= i < |columns| ==> ',' !in columns[i]) ==>
              |Split(text, ',')| == |columns| && forall i :: 0 <= i < |columns| ==> Split(text, ',')[i] == "[" + columns[i] + "]"
  {
    var parts := seq(|columns|, i requires 0 <= i < |columns| => "[" + columns[i] + "]");
    WrappedSplitBack(columns, parts, "[", "]");
    Join(parts, ",")
  }

  /** The `@pc` list of an INSERT. */
  function ParameterList(columns: seq<string>): (text: string)
    // split back at ',', the list holds `@pc` for each column, in order, when no column name has a comma
    ensures |columns| >= 1 && (forall i :: 0 <= i < |columns| ==> ',' !in columns[i]) ==>
              |Split(text, ',')| == |columns| && forall i :: 0 <= i < |columns| ==> Split(text, ',')[i] == "@p" + columns[i]
  {
    var parts := seq(|columns|, i requires 0 <= i < |columns| => "@p" + columns[i]);
    WrappedSplitBack(columns, parts, "@p", "");
    Join(parts, ",")
  }

  /** Column names wrapped in comma-free text and joined with ',' split back into the wrapped names. */
  lemma WrappedSplitBack(columns: seq<string>, parts: seq<string>, before: string, after: string)
    requires ',' !in before && ',' !in after
    requires |parts| == |columns| && forall i :: 0 <= i < |columns| ==> parts[i] == before + columns[i] + after
    ensures |columns| >= 1 && (forall i :: 0 <= i < |columns| ==> ',' !in columns[i]) ==> Split(Join(parts, ","), ',') == parts
  {
    if |columns| >= 1 && forall i :: 0 <= i < |columns| ==> ',' !in columns[i] {
      forall i | 0 <= i < |parts| ensures ',' !in parts[i] {
        assert forall c :: c in before + columns[i] + after ==> c in before || c in columns[i] || c in after;
      }
      SplitJoin(parts, ',');
    }
  }

  /** The INSERT statement for a record, into the document's table name. */
  function InsertText(table: string, columns: seq<string>): (text: string)
    // the statement inserts into the given table name and closes the VALUES list
    ensures "INSERT INTO " + table + "(" <= text
    ensures text[|text| - 1] == ')'
  {
    var head := "INSERT INTO " + table + "(";
    var text := head + ColumnList(columns) + ") VALUES (" + ParameterList(columns) + ")";
    assert text[..|head|] == head;
    text
  }

  /**
    When no column name contains a comma, the column list and the parameter list
    of an INSERT split back into `[c]` and `@pc` for the same columns, in the same order.
  */
  lemma InsertListsMatch(columns: seq<string>)
    requires |columns| >= 1
    requires forall i :: 0 <= i < |columns| ==> ',' !in columns[i]
    ensures var names := Split(ColumnList(columns), ',');
            var params := Split(ParameterList(columns), ',');
            && |names| == |params| == |columns|
            && forall i :: 0 <= i < |columns| ==> names[i] == "[" + columns[i] + "]" && params[i] == "@p" + columns[i]
  {
  }
}
