/**
  The backup document as Export writes it and Import reads it: a list of
  <table name="..."> elements holding <record> elements holding <field>
  elements, plus the column types of the data provider.
*/
module BackupDocument {
  import opened Wrappers

  /** The data provider's `SqlDbType` enumeration. */
  datatype SqlDbType =
    | BigInt | Binary | Bit | Char | DateTime | Decimal | Float | Image | Int | Money
    | NChar | NText | NVarChar | Real | UniqueIdentifier | SmallDateTime | SmallInt
    | SmallMoney | Text | Timestamp | TinyInt | VarBinary | VarChar | Variant | Xml
    | Udt | Structured | Date | Time | DateTime2 | DateTimeOffset

  /**
    A <field> element: its `name`, `type` and `null` attributes (None when the
    attribute is absent) and its text content.
  */
  datatype Field = Field(name: Option<string>, typeTag: Option<string>, nullAttr: Option<string>, text: string)

  datatype Record = Record(fields: seq<Field>)

  datatype Table = Table(name: string, records: seq<Record>)

  /** The <table> elements in document order. */
  type Document = seq<Table>
}
