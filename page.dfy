/** What the page shows for a load outcome and a search box value (lines 44-82):
    results, "no matches", nothing, or the data-could-not-be-loaded warning. */
module Page {
  import opened Frame
  import opened Loader
  import opened Search
  import opened Present

  /** The page below the search box. `NoMessage` also covers a missing file, whose error
      `load_data` has already reported. */
  datatype Status =
    | ShowResults(count: nat, display: DisplayFrame)
    | NoMatches
    | NoMessage
    | DataWarning

  /** One run of the page script over the loaded frame with the given search box value. */
  function Render(load: LoadOutcome, query: string): (s: Status)
    ensures s.ShowResults? ==> s.count == |s.display.rows| > 0 && s.display.columns == DisplayColumns
    ensures IsEmpty(TableOf(load)) ==> s == (if load.NotFound? then NoMessage else DataWarning)
    ensures s == NoMatches ==> query != ""
  {
    var df := TableOf(load);
    if !IsEmpty(df) then
      var results := Find(df, query);
      if !IsEmpty(results) then ShowResults(|results.rows|, Format(results))
      else if query != "" then NoMatches
      else NoMessage
    else if !load.NotFound? then DataWarning
    else NoMessage
  }

  /** Results are shown exactly when data is loaded, the query is non-empty and some row
      matches it; the count is the number of result rows and the display has one row each. */
  lemma RenderShowsResults(load: LoadOutcome, query: string)
    ensures Render(load, query).ShowResults? <==>
      !IsEmpty(TableOf(load)) && query != ""
      && exists i :: 0 <= i < |TableOf(load).rows| && Matches(TableOf(load).rows[i], query)
    ensures Render(load, query).ShowResults? ==>
      var results := Find(TableOf(load), query);
      Render(load, query).count == |results.rows| == |Render(load, query).display.rows| > 0
      && Render(load, query).display == Format(results)
  {
    var df := TableOf(load);
    FindNonEmptyIff(df, query);
  }

  /** "No matches" is shown exactly when data is loaded, the query is non-empty and no row matches. */
  lemma RenderNoMatches(load: LoadOutcome, query: string)
    ensures Render(load, query) == NoMatches <==>
      !IsEmpty(TableOf(load)) && query != ""
      && forall i :: 0 <= i < |TableOf(load).rows| ==> !Matches(TableOf(load).rows[i], query)
  {
    FindNonEmptyIff(TableOf(load), query);
  }

  /** Nothing is shown exactly when the file is missing, or data is loaded and the query is empty. */
  lemma RenderNoMessage(load: LoadOutcome, query: string)
    ensures Render(load, query) == NoMessage <==> load.NotFound? || (!IsEmpty(TableOf(load)) && query == "")
  {
    if !IsEmpty(TableOf(load)) && query != "" && Find(TableOf(load), query).rows == [] {
      assert Render(load, query) == NoMatches;
    }
  }

  /** The warning is shown exactly when the file exists but the frame is empty: a read or
      column error, or a file with no data rows. */
  lemma RenderDataWarning(load: LoadOutcome, query: string)
    ensures Render(load, query) == DataWarning <==> IsEmpty(TableOf(load)) && !load.NotFound?
  {
  }

  /** With no data, the search box value is never looked at: no search is run. */
  lemma RenderIgnoresQueryWithoutData(load: LoadOutcome, q1: string, q2: string)
    requires IsEmpty(TableOf(load))
    ensures Render(load, q1) == Render(load, q2)
  {
  }

  /** From the file's read outcome: a missing file shows nothing further, and a read that
      fails or lacks a required column shows the warning, whatever the query. */
  lemma RenderAfterFailedLoad(read: ReadOutcome, query: string)
    requires !LoadData(read).Loaded?
    ensures Render(LoadData(read), query) == (if read.FileMissing? then NoMessage else DataWarning)
  {
  }

  /** From the file's read outcome: the warning appears exactly when the file exists and
      the frame `load_data` returns has no rows, a header-only file included. */
  lemma RenderWarnsWithoutRows(read: ReadOutcome, query: string)
    ensures Render(LoadData(read), query) == DataWarning <==>
      !read.FileMissing? && |TableOf(LoadData(read)).rows| == 0
  {
    if LoadData(read).Loaded? {
      EmptyMeansNoRows(LoadData(read).table);
    }
  }
}
