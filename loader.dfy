/** `load_data`: what reading the establishment file produces, from the file
    system's and the CSV reader's answer to the frame the rest of the page uses. */
module Loader {
  import opened Frame

  /** What the existence test and the CSV reader report, taken as given:
      the file is missing, the reader raised, or it produced a header and rows of cells. */
  datatype ReadOutcome =
    | FileMissing
    | ReadFailed(reason: string)
    | Parsed(header: seq<string>, cells: seq<seq<string>>)

  /** The outcome of `load_data`: a frame, or one of the two diagnostics it reports. */
  datatype LoadOutcome =
    | Loaded(table: Table)
    | NotFound
    | ParseError(message: string)

  /** Position of the first header entry named `name`: the column `df[name]` selects. */
  function IndexOf(header: seq<string>, name: string): (r: Option<nat>)
    ensures r.None? <==> name !in header
    ensures r.Some? ==> r.value < |header| && header[r.value] == name && name !in header[..r.value]
  {
    if |header| == 0 then None
    else if header[0] == name then Some(0)
    else match IndexOf(header[1..], name)
      case None => None
      case Some(i) =>
        assert header[..i + 1] == [header[0]] + header[1..][..i];
        Some(i + 1)
  }

  /** Index of the first of `columns` the header lacks: the lookup that raises `KeyError`. */
  function FirstMissing(header: seq<string>, columns: seq<string>): (r: Option<nat>)
    ensures r.None? <==> forall c :: c in columns ==> c in header
    ensures r.Some? ==> r.value < |columns| && columns[r.value] !in header
    ensures r.Some? ==> forall k :: 0 <= k < r.value ==> columns[k] in header
  {
    if |columns| == 0 then None
    else if columns[0] !in header then Some(0)
    else match FirstMissing(header, columns[1..])
      case None => None
      case Some(j) => Some(j + 1)
  }

  /** `astype(str)` of one cell; a row shorter than the header holds NaN there, written "nan". */
  function CellText(row: seq<string>, i: nat): (text: string)
    ensures i < |row| ==> text == row[i]
    ensures i >= |row| ==> text == "nan"
  {
    if i < |row| then row[i] else "nan"
  }

  /** The text of column `name` in one row. */
  function Column(header: seq<string>, row: seq<string>, name: string): (text: string)
    requires name in header
    ensures forall j :: 0 <= j < |header| && header[j] == name && name !in header[..j] ==> text == CellText(row, j)
  {
    CellText(row, IndexOf(header, name).value)
  }

  /** One row of the file as a record of its five required columns. */
  function RecordOf(header: seq<string>, row: seq<string>): (r: Record)
    requires forall c :: c in RequiredColumns ==> c in header
    ensures forall c :: c in RequiredColumns ==> Cell(r, c) == Some(Column(header, row, c))
  {
    Record(
      Column(header, row, EstId),
      Column(header, row, EstName),
      Column(header, row, NewOffice),
      Column(header, row, NewTaskId),
      Column(header, row, NewEnfTask))
  }

  /** `load_data(filepath)`: missing file, reader failure, missing column, or the frame. */
  function LoadData(read: ReadOutcome): (r: LoadOutcome)
    ensures r.NotFound? <==> read.FileMissing?
    ensures r.Loaded? ==> WellFormed(r.table)
  {
    match read
    case FileMissing => NotFound
    case ReadFailed(reason) => ParseError(reason)
    case Parsed(header, cells) =>
      match FirstMissing(header, RequiredColumns)
      case Some(j) => ParseError("'" + RequiredColumns[j] + "'")
      case None =>
        Loaded(Table(header, seq(|cells|, k requires 0 <= k < |cells| => RecordOf(header, cells[k]))))
  }

  /** The frame `load_data` returns: the loaded one, or `pd.DataFrame()` after a diagnostic. */
  function TableOf(outcome: LoadOutcome): (t: Table)
    ensures outcome.Loaded? ==> t == outcome.table
    ensures !outcome.Loaded? ==> IsEmpty(t) && |t.columns| == 0 && |t.rows| == 0
  {
    match outcome
    case Loaded(t) => t
    case _ => EmptyFrame
  }

  /** A missing file and a failing read both give the empty frame, which pandas calls empty. */
  lemma FailureGivesEmptyFrame(read: ReadOutcome)
    requires !read.Parsed?
    ensures TableOf(LoadData(read)) == EmptyFrame && IsEmpty(TableOf(LoadData(read)))
    ensures LoadData(read).NotFound? || LoadData(read) == ParseError(read.reason)
  {
  }

  /** A parsed file loads exactly when its header names all five required columns;
      otherwise the error names the first one missing, in the order they are converted. */
  lemma LoadedIffColumnsPresent(header: seq<string>, cells: seq<seq<string>>)
    ensures LoadData(Parsed(header, cells)).Loaded? <==> forall c :: c in RequiredColumns ==> c in header
    ensures !LoadData(Parsed(header, cells)).Loaded? ==>
      exists j :: 0 <= j < |RequiredColumns| && RequiredColumns[j] !in header
        && (forall k :: 0 <= k < j ==> RequiredColumns[k] in header)
        && LoadData(Parsed(header, cells)) == ParseError("'" + RequiredColumns[j] + "'")
  {
    var m := FirstMissing(header, RequiredColumns);
    if m.Some? {
      assert RequiredColumns[m.value] !in header;
    }
  }

  /** A loaded frame keeps the file's header and its rows in order, and each record holds,
      as text, the cell under the first header entry of each required column. */
  lemma LoadedContents(header: seq<string>, cells: seq<seq<string>>)
    requires LoadData(Parsed(header, cells)).Loaded?
    ensures var t := LoadData(Parsed(header, cells)).table;
      t.columns == header && |t.rows| == |cells|
      && forall k, j, c ::
           (0 <= k < |cells| && 0 <= j < |header| && header[j] == c && c in RequiredColumns && c !in header[..j])
           ==> Cell(t.rows[k], c) == Some(CellText(cells[k], j))
  {
    var t := LoadData(Parsed(header, cells)).table;
    forall k, j, c | 0 <= k < |cells| && 0 <= j < |header| && header[j] == c
        && c in RequiredColumns && c !in header[..j]
      ensures Cell(t.rows[k], c) == Some(CellText(cells[k], j))
    {
      assert IndexOf(header, c) == Some(j);
    }
  }
}
