/** The display step of lines 60-71: the result columns in display order, with
    `NEW OFFICE` wrapped in Markdown bold, built on a copy of the result. */
module Present {
  import opened Frame

  /** The display columns, in the order they are shown. */
  const DisplayColumns: seq<string> := [EstName, EstId, NewOffice, NewTaskId, NewEnfTask]

  /** A frame of display text: the header and one row of cells per result row. */
  datatype DisplayFrame = DisplayFrame(columns: seq<string>, rows: seq<seq<string>>)

  /** The Markdown bold marker the office is wrapped in. */
  const Marker: string := "**"

  /** `f"**{x}**"` */
  function Bold(x: string): (b: string)
    ensures |b| == |x| + 4
    ensures b[..2] == Marker && b[|b| - 2..] == Marker && b[2..|b| - 2] == x
  {
    Marker + x + Marker
  }

  /** Takes the bold marker off again; text not wrapped in it has no bold form. */
  function Unbold(b: string): (r: Option<string>)
    ensures r.Some? ==> |b| == |r.value| + 4
    ensures r.Some? ==> b == Bold(r.value)
  {
    if |b| >= 4 && b[..2] == Marker && b[|b| - 2..] == Marker then Some(b[2..|b| - 2]) else None
  }

  /** Bolding loses nothing: the office text comes back unchanged. */
  lemma UnboldBold(x: string)
    ensures Unbold(Bold(x)) == Some(x)
  {
    var b := Bold(x);
    assert b[..2] == Marker;
    assert b[|b| - 2..] == Marker;
    assert b[2..|b| - 2] == x;
  }

  /** One result row as displayed: its columns in display order, the office in bold,
      every other value as it is. */
  function DisplayRow(r: Record): (row: seq<string>)
    ensures |row| == |DisplayColumns|
    ensures forall j :: 0 <= j < |row| && DisplayColumns[j] != NewOffice ==> Cell(r, DisplayColumns[j]) == Some(row[j])
    ensures forall j :: 0 <= j < |row| && DisplayColumns[j] == NewOffice ==> row[j] == Bold(r.newOffice)
  {
    [r.estName, r.estId, Bold(r.newOffice), r.newTaskId, r.newEnfTask]
  }

  /** The display rows, one per result row, in result order. */
  function DisplayRows(rows: seq<Record>): (d: seq<seq<string>>)
    ensures |d| == |rows|
    ensures forall k :: 0 <= k < |rows| ==> d[k] == DisplayRow(rows[k])
  {
    seq(|rows|, k requires 0 <= k < |rows| => DisplayRow(rows[k]))
  }

  /** `results_df[display columns].copy()` with the office bolded. */
  function Format(results: Table): (d: DisplayFrame)
    ensures d.columns == DisplayColumns
    ensures |d.rows| == |results.rows|
  {
    DisplayFrame(DisplayColumns, DisplayRows(results.rows))
  }

  /** Reads a record back from one display row; rows not of the display shape give nothing. */
  function RecordFromDisplay(row: seq<string>): Option<Record> {
    if |row| != |DisplayColumns| then None
    else match Unbold(row[2])
      case None => None
      case Some(office) => Some(Record(row[1], row[0], office, row[3], row[4]))
  }

  /** Reads all records back from display rows, failing if any row cannot be read. */
  function RecordsFromDisplay(rows: seq<seq<string>>): Option<seq<Record>> {
    if |rows| == 0 then Some([])
    else match (RecordFromDisplay(rows[0]), RecordsFromDisplay(rows[1..]))
      case (Some(r), Some(rest)) => Some([r] + rest)
      case _ => None
  }

  /** One display row determines its record. */
  lemma RecordFromDisplayRow(r: Record)
    ensures RecordFromDisplay(DisplayRow(r)) == Some(r)
  {
    UnboldBold(r.newOffice);
  }

  /** The display rows determine the result rows exactly, so formatting alters no result value. */
  lemma {:induction false} RecordsFromDisplayRows(rows: seq<Record>)
    ensures RecordsFromDisplay(DisplayRows(rows)) == Some(rows)
  {
    if |rows| > 0 {
      RecordFromDisplayRow(rows[0]);
      RecordsFromDisplayRows(rows[1..]);
      assert DisplayRows(rows)[1..] == DisplayRows(rows[1..]);
      assert [rows[0]] + rows[1..] == rows;
    }
  }

  /** The formatted frame shows exactly the result, in order, with only the office bolded. */
  lemma FormatRoundTrip(results: Table)
    ensures RecordsFromDisplay(Format(results).rows) == Some(results.rows)
  {
    RecordsFromDisplayRows(results.rows);
  }
}
