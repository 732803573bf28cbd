# Establishment search — a Dafny model

This project models the logic of the establishment search page in `search_app.py`.
The page loads a CSV of establishment records once. It keeps five text columns:
`EST_ID`, `EST_NAME`, `NEW OFFICE`, `NEW TASK ID` and `NEW ENF TASK`.
For each value typed into the search box it shows one of four things:

- the rows whose lower-cased id or name contains the lower-cased query, with `NEW OFFICE` in bold;
- a "no matches" notice;
- nothing;
- a "data could not be loaded" warning.

The source is written as expressions over data frames, with no loops, and the script keeps no state of its own (the loaded frame is cached by the framework, see "Left out"). So everything here is a pure function over sequences of records, with lemmas about those functions.

Modules, one per part of the script:

- `Text` (text.dfy): ASCII `lower()` and plain substring containment. `Contains` is proved equal to "occurs at some position".
- `Frame` (frame.dfy): `Record`, the `Table` frame (header plus rows), `DataFrame.empty` and column lookup.
- `Loader` (loader.dfy): `load_data`. It turns the file system's and CSV reader's answer (`ReadOutcome`) into `Loaded(table) | NotFound | ParseError(message)`, and includes the `KeyError` raised when a required column is missing.
- `Search` (search.dfy): the boolean mask of lines 50-51 and the boolean indexing of line 49. It includes the empty-query rule, the exact-filter theorem, case-insensitivity, idempotence, and an example table with ids "0012" and "0099".
- `Present` (present.dfy): the projection to display order, the bold office, and a proof that the display rows give back the result rows unchanged.
- `Page` (page.dfy): the status the page shows (`Render`) for each combination of load outcome and query.

Three behaviours of the code that are easy to misread:

- A required column that is missing is not a separate kind of error. The column lookups at lines 19-23 raise `KeyError` inside the same `try`, so it is reported like any other read failure: `ParseError`, whose message is the text of the `KeyError` (the quoted column name).
- A file that has the right header but no data rows loads successfully. Its frame is still empty (`df.empty`), so the page shows the "could not be loaded" warning at lines 81-82, not a "haven't searched yet" state.
- `str.contains` is called with its default `regex=True`. The query is therefore a regular expression, not plain text. The model keeps plain containment (see "Left out").

## Model

| member | source | states |
|---|---|---|
| Text.LowerIdempotent | search_app.py:47-51 | lower-casing twice equals lower-casing once, and the lowered text holds no capitals |
| Text.LowerEmpty | search_app.py:45-47 | the lowered query is empty exactly when the query is empty, so the empty-query test and the lowered query agree |
| Text.ContainsIff | search_app.py:50-51 | the left-to-right containment scan succeeds exactly when the needle occurs at some position of the haystack (both directions) |
| Text.MissingCharNotContained | search_app.py:50-51 | a needle holding a character the haystack lacks is not contained in it |
| Frame.Cell | search_app.py:19-23 | a record has a value under exactly the five required column names |
| Frame.IsEmpty | search_app.py:44-60 | `df.empty`: the frame has no rows or no columns, that is it holds no cells |
| Frame.EmptyMeansNoRows | search_app.py:44 | for a frame that carries the required columns, `df.empty` means "no rows" |
| Loader.IndexOf | search_app.py:19-23 | `df[name]` selects the first header entry named `name`; none when the header lacks it |
| Loader.FirstMissing | search_app.py:19-23 | the lookup that raises is the first required column, in conversion order, that the header lacks; none exactly when all are present |
| Loader.LoadData | search_app.py:13-31 | `NotFound` exactly for a missing file; a loaded frame always names the five required columns in its header, rows or no rows |
| Loader.FailureGivesEmptyFrame | search_app.py:15-16 | a missing file or a failing read yields the empty frame `pd.DataFrame()`; a read failure is reported with the reader's own message |
| Loader.LoadedIffColumnsPresent | search_app.py:17-27 | a parsed file loads exactly when its header names all five columns; otherwise the error quotes the first missing one in the order of lines 19-23 |
| Loader.LoadedContents | search_app.py:17-24 | a loaded frame keeps the file's header and row order, and each record holds, as text, the cell under the first header entry of each column ("nan" for a short row) |
| Search.PositionsFrom | search_app.py:49-52 | the true positions of a mask, strictly ascending, each one true, and none left out |
| Search.SelectFrom | search_app.py:49 | boolean indexing returns the rows at the mask's true positions, in table order |
| Search.Find | search_app.py:44-57 | the result keeps the table's columns, and an empty query gives no rows for every table |
| Search.FindExact | search_app.py:49-52 | for a non-empty query the result is the table's rows at strictly increasing positions, and a position is listed exactly when its row matches (order kept, no duplicates) |
| Search.FindSound | search_app.py:47-52 | every returned row has the lowered query inside its lowered id or lowered name |
| Search.FindComplete | search_app.py:49-52 | for a non-empty query every matching table row is returned |
| Search.FindNonEmptyIff | search_app.py:45-52 | the result has rows exactly when the query is non-empty and some row matches |
| Search.FindCaseInsensitive | search_app.py:45-51 | two queries equal after lower-casing give the same result |
| Search.SelectAll | search_app.py:49 | a mask that is all true keeps every row |
| Search.FindIdempotent | search_app.py:49-57 | searching the result again with the same query returns it unchanged |
| Search.MatchesById | search_app.py:50 | a row whose lowered id contains the lowered query matches |
| Search.MatchesByName | search_app.py:51 | a row whose lowered name contains the lowered query matches |
| Search.NoMatchByChar | search_app.py:50-51 | a row does not match when a lowered query character is in neither its lowered id nor its lowered name |
| Search.ExampleById | search_app.py:45-52 | in the two-row example, "012" finds only the row with id "0012"; the example assumes pandas kept the id column as text (a digits-only `EST_ID` column is parsed as integers, "0012" becomes "12" and "012" finds nothing, see "Left out") |
| Search.ExampleByName | search_app.py:45-52 | in the two-row example, "corp" finds only "Beta Corp", whatever the case |
| Search.ExampleNoRows | search_app.py:45-57 | in the two-row example, "zz" and "" both give no rows |
| Present.Unbold | search_app.py:68 | removing the bold marker shortens the text by the four marker characters, and whatever it unwraps was `**x**` for the returned `x` |
| Present.UnboldBold | search_app.py:68 | removing the bold marker from `**x**` gives `x` back |
| Present.DisplayRow | search_app.py:65-68 | a display row has the five display columns in the order name, id, office, task id, enforcement task; the office is `**office**`, every other cell is the record's value under that column |
| Present.Format | search_app.py:65-68 | the display frame has the display header and as many rows as the result |
| Present.RecordFromDisplayRow | search_app.py:65-68 | a display row gives back its record unchanged |
| Present.RecordsFromDisplayRows | search_app.py:65-68 | the display rows give back the result rows exactly |
| Present.FormatRoundTrip | search_app.py:65-68 | the formatted frame decodes back to exactly the result rows: bolding loses no result value |
| Page.RenderShowsResults | search_app.py:44-71 | results are shown exactly when data is loaded, the query is non-empty and some row matches; the count equals the number of result rows, which is positive, and the display has one row per result row |
| Page.RenderNoMatches | search_app.py:76-77 | "no matches" is shown exactly when data is loaded, the query is non-empty and no row matches |
| Page.RenderNoMessage | search_app.py:53-57 | no status below the search box exactly when the file is missing (its error was already shown by `load_data`), or data is loaded and the query is empty |
| Page.RenderDataWarning | search_app.py:81-82 | the warning is shown exactly when the frame is empty and the file exists |
| Page.RenderIgnoresQueryWithoutData | search_app.py:44 | with an empty frame the query makes no difference: no search is run |
| Page.RenderAfterFailedLoad | search_app.py:25-31 | after a missing file nothing more is shown; after a failed read or a missing column the warning is shown, whatever the query |
| Text.LowerChar | search_app.py:47-51 | one lowered character is never an ASCII capital, and non-capitals are unchanged |
| Text.Lower | search_app.py:47-51 | `lower()` keeps the length and lowers each character in place |
| Text.Contains | search_app.py:50-51 | plain containment; a contained needle is never longer than its haystack |
| Search.Matches | search_app.py:50-51 | a row matches exactly when the lowered query occurs at some position of the lowered id or of the lowered name |
| Search.Mask | search_app.py:50-51 | one boolean per row, true exactly when that row matches |
| Loader.CellText | search_app.py:19-23 | `astype(str)` of a cell: the cell's text, or "nan" where a short row has no cell |
| Loader.Column | search_app.py:19-23 | `df[name]` of one row is the cell under the first header entry named `name` |
| Loader.RecordOf | search_app.py:19-23 | each required column of a record holds that column's text from the row |
| Loader.TableOf | search_app.py:24-31 | `load_data` returns the loaded frame, or after a diagnostic an empty frame with no columns and no rows |
| Present.Bold | search_app.py:68 | `**x**` is four characters longer than `x`, starts and ends with `**`, and holds `x` between them |
| Present.DisplayRows | search_app.py:65-68 | one display row per result row, in result order, each the projection of its record |
| Page.Render | search_app.py:44-82 | a results status carries a positive count equal to its display rows under the display header; an empty frame gives the warning when the file exists and no status otherwise, whatever the query; "no matches" only for a non-empty query |
| Page.RenderWarnsWithoutRows | search_app.py:81-82 | from the read outcome: the warning appears exactly when the file exists and the returned frame has no rows, a header-only file included |

## Left out

- Streamlit calls are not modelled: page setup, title, text, the text box, subheader, markdown, info, warning, error, divider and caption. Only which status is shown is modelled (`Page.Status`), not the text of the messages.
- The `@st.cache_data` memoisation of `load_data` is not modelled. `LoadData` is a function of the read outcome, so loading the same file twice gives the same frame.
- The file read is abstracted. `os.path.exists` and `pd.read_csv` become the `ReadOutcome` parameter: a missing file, a failure with the reader's message, or a header with rows of cells. CSV parsing, quoting and index inference are not modelled.
- Line 81 calls `os.path.exists` a second time. The model assumes it gives the same answer as the call inside `load_data`.
- The cells are taken as text, as the reader gave them. Two effects of `pd.read_csv` (line 17) followed by `astype(str)` (lines 19-23) are not modelled:
  - Numbers are printed back. A column that holds only digits is parsed as integers, so leading zeros are lost from a numeric id column ("0012" becomes "12").
  - An empty field is read as NaN in every column, whatever type pandas infers, and `astype(str)` writes it as `"nan"`. In the source, a query that occurs in "nan" ("n", "a", "an", "nan") therefore matches every row whose id or name cell is empty. In the model that cell holds whatever text the reader gave. Only a row shorter than the header is modelled as `"nan"` (`Loader.CellText`).
- `Text.Contains`: `str.contains` with its default `regex=True` treats the query as a regular expression. The model uses plain substring containment, which agrees only for queries without regular-expression metacharacters. A query such as `.` matches every non-empty field in the source but only a literal dot in the model. An invalid pattern such as `(` raises `re.error` in the source at line 50, outside any `try`; the model searches for it as literal text, so `(` finds a name such as "Alpha (Pvt) Ltd".
- `Text.LowerChar`: Python's `str.lower` is full Unicode. The model lower-cases only the ASCII capitals `A`-`Z`, which also keeps lengths unchanged.
- `Present.Format`: the column reassignment on `.copy()` at lines 65-68 is modelled as building a new value. Copying versus updating in place, and aliasing between the result and the display frame, cannot be expressed in this value model.
- `to_markdown` (line 71) renders the display frame as Markdown. It is not modelled: the model stops at the display frame of text cells.
