# NBA injury record layer — Dafny model

This project models the record layer of an NBA injury assistant. The layer has four parts:

- It converts the injury table scraped from ESPN into `PlayerStatus` records.
- It keeps those records in a single CSV file: save, load, and the fetch-convert-save refresh.
- It builds the bullet list that the summary prompt gives to the language model.
- It defines the `PlayerStatus` record itself.

Modules:

- `Wrappers`: `Option` and `Result`.
- `State`: the `PlayerStatus` record, plus its declared validation (`NewPlayerStatus`).
- `Conversion`: the table model (a set of column names and a sequence of rows) and `df_to_player_statuses`. A row maps column names to cells. A cell is `None` when it is a pandas NA or when the row has no such key.
- `Store`: the class `InjuryStore`. Its one field, `file`, is the contents of the CSV file, and `None` means the file does not exist. `Save`, `Load` and `FetchAndStore` are its methods. `Loaded` and `AfterSave` define the same behaviour on values, and the lemmas use them.
- `Summary`: the part of `summarize_injuries_with_llm` that runs before the model is called.

The conversion is proved against the specification function `Converted`. `CompleteIndices` is an independent reference definition: the positions of the rows that have both a name and a status. The lemmas show that the records are exactly those rows, one record per row, in order.

The source's two definitions disagree on `team`: app/state.py:6 declares it a required `str`, but app/tools.py:53 passes `None`. The model follows the intent and makes `team` an `Option<string>`. The declared behaviour is kept as a finding (below).

## Model

| member | source | states |
|---|---|---|
| `State.NewPlayerStatus` | app/state.py:5-10 | Building a record as declared succeeds exactly when a team string is given, and keeps every field. A missing reason or expected return is accepted; a missing team is rejected. |
| `Conversion.OptionalCell` | app/tools.py:48-49 | An optional column's value is present exactly when the table has that column and the row's cell is not NA, and it is then that cell. |
| `Conversion.RecordOf` | app/tools.py:51-61 | A kept row's record has no team. Its name and status are the row's NAME and STATUS. Its reason is None exactly when COMMENT is not a column or its cell is NA, and otherwise is that comment. Expected return follows the same rule for EST. RETURN DATE. |
| `Conversion.Converted` | app/tools.py:40-63 | Never produces more records than there are rows, and every record it produces has no team. |
| `Conversion.CompleteIndices` | app/tools.py:45-46 | Reference definition: every listed position is a row of the table. |
| `Conversion.CompleteIndicesExact` | app/tools.py:42-46 | A row's position is listed exactly when the row has both a name and a status, and listed positions ascend. So each kept row appears once, and in input order. |
| `Conversion.ConvertedSelectsCompleteRows` | app/tools.py:42-61 | There are as many records as complete rows. The k-th record is the record of the k-th complete row. |
| `Conversion.ConvertedAppend` | app/tools.py:42-61 | The conversion handles each row on its own: converting two blocks of rows joined end to end gives the two conversions joined. |
| `Conversion.DfToPlayerStatuses` | app/tools.py:32-63 | Fails with the missing-columns error exactly when NAME or STATUS is not a column. Otherwise returns the converted records. |
| `Conversion.ConvertedAsDeclared` | app/tools.py:42-61 | The loop as declared, with every kept row validated against `team: str`: incomplete rows are skipped, and the first complete row raises a validation error. When it succeeds it has produced no records, and the only error it raises is that validation error. |
| `Conversion.DfToPlayerStatusesAsDeclared` | app/tools.py:36-61 | The conversion as declared: a table without NAME or STATUS raises the missing-columns error. Otherwise any error is the validation error of a complete row, and success yields no records. |
| `Conversion.AsDeclaredRejectsEveryCompleteRow` | app/tools.py:51-61 | Under the declared `team: str`, conversion raises a validation error whenever some row is complete. It succeeds, with no records, only when no row is complete. |
| `Conversion.LeBronRejectedAsDeclared` | app/tools.py:51-61 | As declared, the one-row table for LeBron James (OUT, with a comment) raises a validation error. |
| `Conversion.LeBronConverted` | app/tools.py:42-61 | With an optional team, the same table converts to one record: no team, "LeBron James", "OUT", the comment as reason, and no expected return. |
| `Store.SaveEmptyKeepsStore` | app/tools.py:70-71 | Saving an empty list leaves the file, and hence what a load returns, unchanged. |
| `Store.SaveThenLoad` | app/tools.py:73-74 | A non-empty save replaces the previous contents completely, and a later load returns exactly the saved records in order. |
| `Store.LastSaveWins` | app/tools.py:66-74 | Of two saves in a row, the second decides the contents, unless it saves nothing. |
| `Store.EmptyLoadMeansNoFile` | app/tools.py:70-82 | Saves never write an empty file. So, for a store written only by saves, loading gives [] exactly when the file does not exist. |
| `Store.InjuryStore.constructor` | app/tools.py:13-15 | A fresh data directory holds no CSV file. |
| `Store.InjuryStore.Save` | app/tools.py:66-74 | An empty list leaves the file as it was. A non-empty list becomes the whole file. The store's invariant is kept. |
| `Store.InjuryStore.Load` | app/tools.py:77-96 | Returns [] when there is no file, and otherwise the stored records verbatim and in order. It changes nothing. |
| `Store.InjuryStore.FetchAndStore` | app/tools.py:99-110 | A fetch with no table raises "no tables found", and a table without NAME or STATUS raises the missing-columns error. In both cases the file is unchanged. Otherwise it returns exactly the converted records and saves them: the file then holds them if there are any, and is unchanged if there are none. |
| `Summary.BulletLine` | app/tools.py:123-125 | A bullet starts with "- name: status". It continues with " (reason)" exactly when the reason is present and non-empty, and ends there. |
| `Summary.SummarizeInjuries` | app/tools.py:117-126 | An empty list returns the fixed "No injuries were found in the current dataset." message, so no model is asked. Otherwise there are exactly min(50, number of players) bullets, the k-th being the k-th player's bullet line. |

## Left out

- Fetching from ESPN (`fetch_espn_injuries_raw`): the HTTP request, the HTML table parsing and the concatenation of tables are I/O. `FetchAndStore` receives the result as a parameter, with `None` standing for "no tables found".
- The language model: the client, the `llm.invoke` call, the prompt wording and how the bullets are joined into the prompt are foreign calls or fixed text. `SummarizeInjuries` returns the bullets the prompt would hold.
- CSV serialisation: `pd.read_csv` type coercion and NaN read back as a float are not modelled. The file holds the saved records verbatim.
- Store.SaveThenLoad: the save/load round trip holds of the modelled verbatim file only. As written, a blank `team`, `reason` or `expected_return` cell reads back as a float NaN, and building a `PlayerStatus` from it (app/tools.py:88-94) fails validation.
- A cell is modelled as a string or NA. The `str(...)` conversion of non-string cells is not modelled.
- Store.InjuryStore.constructor: no CSV file left over from an earlier run is modelled. The store starts without a file, and only `Save` writes it.
- Write failures and concurrent access to the CSV file are not modelled.
- `AppState` (app/state.py:13-28) has no behaviour. app/graph.py, run_app.py, run_graph.py and test_tools.py are wiring, I/O loops and a print script.

## Findings

| source | as written | input that shows it | evidently intended | confidence | as-written member | corrected member |
|---|---|---|---|---|---|---|
| app/tools.py:52-53 with app/state.py:6 | `PlayerStatus` declares `team: str` with no default, but the conversion builds each record with `team=None`. Validation rejects `None` for a required string, so every complete row raises. | A table with columns NAME, STATUS, COMMENT and one row ("LeBron James", "OUT", "the Lakers announced LeBron James is out") | `team` is optional until another step fills it in, and the row becomes one record with no team | high; not executed | `Conversion.AsDeclaredRejectsEveryCompleteRow`, `Conversion.LeBronRejectedAsDeclared` | `Conversion.LeBronConverted` |
