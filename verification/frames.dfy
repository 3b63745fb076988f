/** A stand-in for the `MutableDataFrame` the data source fills: a fixed,
    ordered list of typed fields declared up front, and rows appended one
    at a time. A frame is well formed when every row holds exactly one
    value per field, each value of the field's declared type. */
module Frames {
  import opened Wrappers

  /** The two `FieldType`s the data source declares */
  datatype FieldType = StringField | NumberField

  datatype Field = Field(name: string, fieldType: FieldType)

  /** A value of a row: a string, an integral number, or the NaN that
      `parseInt` yields for a reference without digits */
  datatype Cell = Text(text: string) | Number(value: int) | NaN

  type Row = seq<Cell>

  datatype Frame = Frame(fields: seq<Field>, rows: seq<Row>)

  predicate CellFits(c: Cell, t: FieldType)
  {
    match t
    case StringField => c.Text?
    case NumberField => c.Number? || c.NaN?
  }

  /** One value per field, in field order, each of the field's type */
  predicate RowFits(fields: seq<Field>, row: Row)
  {
    && |row| == |fields|
    && forall i :: 0 <= i < |row| ==> CellFits(row[i], fields[i].fieldType)
  }

  predicate WellFormed(f: Frame)
  {
    forall j :: 0 <= j < |f.rows| ==> RowFits(f.fields, f.rows[j])
  }

  /** `new MutableDataFrame({ fields })`: the declared fields, no rows */
  function EmptyFrame(fields: seq<Field>): (f: Frame)
    ensures WellFormed(f)
    ensures f.fields == fields && |f.rows| == 0
  {
    Frame(fields, [])
  }

  /** `frame.appendRow(row)`: the row goes after every existing one, and
      the frame stays well formed exactly when the row fits its fields. */
  function AppendRow(f: Frame, row: Row): (g: Frame)
    ensures g.fields == f.fields
    ensures |g.rows| == |f.rows| + 1 && g.rows[|f.rows|] == row
    ensures forall j :: 0 <= j < |f.rows| ==> g.rows[j] == f.rows[j]
    ensures WellFormed(g) <==> WellFormed(f) && RowFits(f.fields, row)
  {
    Frame(f.fields, f.rows + [row])
  }

  /** Position of the first field called `name` */
  function FieldIndex(fields: seq<Field>, name: string): (k: Option<nat>)
    ensures k.Some? ==> k.value < |fields| && fields[k.value].name == name
    ensures k.Some? ==> forall i :: 0 <= i < k.value ==> fields[i].name != name
    ensures k.None? ==> forall i :: 0 <= i < |fields| ==> fields[i].name != name
  {
    if |fields| == 0 then None
    else if fields[0].name == name then Some(0)
    else
      match FieldIndex(fields[1..], name)
      case None => None
      case Some(k) => Some(k + 1)
  }

  /** The values of the column called `name`, one per row, in row order */
  function ColumnValues(f: Frame, name: string): (col: Option<seq<Cell>>)
    requires WellFormed(f)
    ensures col.Some? <==> FieldIndex(f.fields, name).Some?
    ensures col.Some? ==> |col.value| == |f.rows|
    ensures col.Some? ==> forall j :: 0 <= j < |f.rows| ==>
              col.value[j] == f.rows[j][FieldIndex(f.fields, name).value]
  {
    match FieldIndex(f.fields, name)
    case None => None
    case Some(k) => Some(seq(|f.rows|, j requires 0 <= j < |f.rows| => f.rows[j][k]))
  }
}
