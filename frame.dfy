/** The establishment table: its records, its column names and pandas'
    notion of an empty frame. */
module Frame {

  datatype Option<T> = None | Some(value: T)

  const EstId: string := "EST_ID"
  const EstName: string := "EST_NAME"
  const NewOffice: string := "NEW OFFICE"
  const NewTaskId: string := "NEW TASK ID"
  const NewEnfTask: string := "NEW ENF TASK"

  /** The columns the loader converts to text, in the order it converts them. */
  const RequiredColumns: seq<string> := [EstId, EstName, NewOffice, NewTaskId, NewEnfTask]

  /** One establishment: the five required columns of one row, all text. */
  datatype Record = Record(
    estId: string,
    estName: string,
    newOffice: string,
    newTaskId: string,
    newEnfTask: string)

  /** A data frame: the header as read (extra columns included) and the rows in file order. */
  datatype Table = Table(columns: seq<string>, rows: seq<Record>)

  /** `pd.DataFrame()`: no columns and no rows. */
  const EmptyFrame: Table := Table([], [])

  /** `DataFrame.empty`: true when either axis has length zero, that is when the frame
      holds no cells (`df.size == 0`). */
  predicate IsEmpty(t: Table)
    ensures IsEmpty(t) <==> |t.rows| * |t.columns| == 0
  {
    |t.rows| == 0 || |t.columns| == 0
  }

  /** A frame whose header names the five required columns. */
  predicate WellFormed(t: Table) {
    forall c :: c in RequiredColumns ==> c in t.columns
  }

  /** The value of a record under a column name; only the required columns exist. */
  function Cell(r: Record, column: string): (v: Option<string>)
    ensures v.Some? <==> column in RequiredColumns
  {
    if column == EstId then Some(r.estId)
    else if column == EstName then Some(r.estName)
    else if column == NewOffice then Some(r.newOffice)
    else if column == NewTaskId then Some(r.newTaskId)
    else if column == NewEnfTask then Some(r.newEnfTask)
    else None
  }

  /** For a well-formed frame, pandas' emptiness is just "no rows". */
  lemma EmptyMeansNoRows(t: Table)
    requires WellFormed(t)
    ensures IsEmpty(t) <==> |t.rows| == 0
  {
    assert EstId in RequiredColumns;
  }
}
