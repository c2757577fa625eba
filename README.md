# TableConverter in Dafny

TableConverter uploads CSV exports of a survey system into a LimeSurvey table, one row at a
time. This project models its core in Dafny and proves properties of the model:

- **`InputCSVReader`** splits the file on CRLF and takes the first line as the header row. It
  drops a repeated header line, refuses an empty file or an empty first header, and drops the
  trailing line.
- **Column resolution in `TableConverter::run`** reads the columns file, which maps each key
  to an optional input header, output header, fixed content and transform method. Resolution
  builds the index of each key's input header and the list of output headers, with the
  `concatenate_columns` headers in front.
- **The row loop** has three parts:
  - the duplicate check `row_exists_in_db`, which `prevent_skipping` turns off;
  - the cells: the concatenated columns first, then one cell per key, read or fixed and passed
    through the named method;
  - the column-count check and the INSERT that `db_insert` builds and sends. `debug` makes
    this a dry run.
- **The transforms a column can name:**
  - `datestamp`, `lastpage`, `submitdate`, `override_status` and `convert_date_to_sql`;
  - the memoised lookups `getSatisfactionCode` (which also counts the codes it returns) and
    `regionToLSCode`.
- **The constructor's option checks.**

Modules, one per file:

- `php.dfy` (`Php`): PHP values (string, null, false), truthiness, and the string built-ins the
  core uses (`strtolower`, `ucwords`, `trim`, `str_replace`, `implode`).
- `csv_reader.dfy` (`CsvReader`): the reader's clean-up. `Load` specifies it as a function,
  and the `InputCSVReader` class rewrites its fields step by step.
- `mapping.dfy` (`Mapping`): the columns file, `array_search`, cell reads, resolution, and
  the concatenation sets.
- `transforms.dfy` (`Transforms`): method dispatch, the transforms as functions of the memo,
  and what the memo maps hold.
- `database.dfy` (`Database`): the connection as a class that records every query sent and
  the last error, and the text of the INSERT statement.
- `converter.dfy` (`Converter`): the option checks and the conversion specified as
  functions. `RowStep` covers one row, `RunRows` the row loop and `Conversion` all of `run`.
  The `TableConverter` class updates its memo fields and sends queries through the
  connection, and its methods are proved against those functions.

A `die()` is a value: the run's `Outcome` holds the state reached and the `Fatal` that stopped
it. The store is a function from the queries sent so far to its answer to the last one.
Escaping, the CSV line parser, the date formatter and the clock are parameters too.

The model follows the code as written, including these quirks, each proved as a lemma:

- The duplicate-input-header test looks up the key itself, so with distinct keys it never
  fires (`ResolvePrefixMeaning`). Two keys may share an input header
  (`SharedInputHeaderAccepted`).
- A key whose input header is not in the CSV reads column 0 (`MissingInputHeaderReadsFirstColumn`).
  A key without one reads null (`NoInputHeaderReadsNull`).
- `$options["uniqueness_field"] or "startdate"` binds looser than the assignment. A missing
  option therefore leaves the field null. The duplicate check then reads the empty key and sends
  a SELECT with an empty column name, whose error counts as no duplicate
  (`UniquenessDefaultLost`, `MissingUniquenessFieldQueriesEmptyColumn`).
- The trailing-line test passes a string to `array_filter`. Under PHP 7 that yields null, so
  the last line is always removed (`Load`, `LoadDropsOnlyTheLastLine`).
- `str_replace("''", "NULL", …)` runs over the whole statement. An escaped value that ends in
  a quote therefore forms a pair with its closing quote, and the statement is corrupted
  (`TrailingQuoteCorruptsLiteral`). When no value can form a pair, every empty value becomes
  NULL and every other value is quoted. A row with no cells, which passes the column count when
  no key has an output header, is sent as `VALUES(NULL)` (`InsertQueryMeaning`).

## Model

| member | source | states |
|---|---|---|
| `CsvReader.SplitLines` | InputCSVReader.php:34 | splitting on CRLF gives at least one piece, and the first piece is a prefix of the text |
| `CsvReader.SplitLinesJoin` | InputCSVReader.php:34 | joining the pieces back with CRLF gives the original text |
| `CsvReader.SplitLinesHaveNoBreak` | InputCSVReader.php:34 | no piece contains a CRLF |
| `CsvReader.Load` | InputCSVReader.php:31-46 | fails with EmptyFile exactly when the contents are empty; on success the headers are the parsed first line, non-empty with a non-empty first header, and the data are the lines after it (skipping the second line when it parses to the headers) without the last line |
| `CsvReader.LoadFails` | InputCSVReader.php:32-42 | loading fails exactly on empty contents or a header row that is empty or has an empty first header |
| `CsvReader.LoadDropsOnlyTheLastLine` | InputCSVReader.php:43-46 | the kept data followed by the file's last line are a suffix of the file's lines; files of at most two lines keep no data |
| `CsvReader.InputCSVReader.constructor` | InputCSVReader.php:28-47 | the object's headers, data and failure are those `Load` gives for the contents |
| `CsvReader.InputCSVReader.GetHeaders` | InputCSVReader.php:49-51 | returns the loaded headers |
| `CsvReader.InputCSVReader.GetData` | InputCSVReader.php:52-54 | returns the loaded data lines |
| `Php.TrimLeftMeaning` | TableConverter.php:113 | left trimming keeps a suffix, removes only trim characters and stops at the first other character |
| `Php.TrimRightMeaning` | TableConverter.php:113 | right trimming keeps a prefix, removes only trim characters and stops at the last other character |
| `Php.TrimMeaning` | TableConverter.php:113 | `trim` keeps the slice between the leading and trailing trim characters, and neither end of it is a trim character |
| `Mapping.Search` | TableConverter.php:235 | a found position holds the header; nothing is found exactly when the header is absent |
| `Mapping.SearchFindsFirst` | TableConverter.php:235 | the position found is the first one holding the header |
| `Mapping.DeclaredOutputHeaders` | TableConverter.php:237-243 | there are at most as many declared output headers as keys |
| `Mapping.ResolvePrefixStops` | TableConverter.php:229-244 | once a key stops resolution, the later keys change nothing |
| `Mapping.IndexesStep` | TableConverter.php:230-236 | with distinct keys, the next key is not yet indexed, and after its step the indexes hold exactly the keys with input headers, each at its header's position |
| `Mapping.DeclaredStep` | TableConverter.php:237-243 | adding a key appends its output header, and the headers stay distinct exactly when the new one is not already present |
| `Mapping.ResolvePrefixMeaning` | TableConverter.php:229-244 | with distinct keys, the first n keys resolve exactly when their output headers are distinct; the output headers are then the declared ones in order, the indexes are right, and the only possible failure is a duplicate output header |
| `Mapping.ResolveMeaning` | TableConverter.php:219-250 | resolution succeeds exactly when the columns file is non-empty and its output headers are distinct; the output headers are the concatenation headers (last declared first) followed by the declared ones |
| `Mapping.SharedInputHeaderAccepted` | TableConverter.php:230-235 | two keys naming the same input header both resolve, to the same index |
| `Mapping.MissingInputHeaderReadsFirstColumn` | TableConverter.php:235 | a key whose input header is not in the CSV reads the row's column 0 |
| `Mapping.NoInputHeaderReadsNull` | TableConverter.php:277 | a key without an input header reads null |
| `Mapping.ConcatAligned` | TableConverter.php:159-171 | the i-th concatenated cell is the joined value of the set whose output header is the i-th concatenation header |
| `Transforms.FindMethodIgnoresCase` | TableConverter.php:283 | method dispatch does not depend on the case of the name |
| `Transforms.LastPageValue` | TableConverter.php:101-106 | "13" exactly when the status cell is "Complete", null otherwise |
| `Transforms.OverrideStatusValue` | TableConverter.php:188-195 | "Completed" when the OverallSatisfaction cell is truthy, otherwise the cell unchanged |
| `Transforms.OverrideStatusZeroIsUnanswered` | TableConverter.php:190 | an OverallSatisfaction of "0", "" or null leaves the cell unchanged |
| `Transforms.DateToSql` | TableConverter.php:151-156 | null exactly for an empty date; otherwise the formatter's output for it |
| `Transforms.SubmitSourceOf` | TableConverter.php:176-186 | the clock exactly for an incomplete survey; the datestamp cell exactly when the survey is complete and the datestamp is non-empty; the startdate cell otherwise |
| `Transforms.LowerKeys` | TableConverter.php:118 | a text and code are stored exactly when some answer has that code and its text lower-cases to that text; one entry per answer, in order |
| `Transforms.FillCodesMeaning` | TableConverter.php:135-137 | the filled map holds exactly the answer texts, each with the code of its last row |
| `Transforms.Bump` | TableConverter.php:142-145 | counting a code adds it to the counted codes, raises its count by one (from 0 for a new code) and leaves every other count as it was |
| `Transforms.SatisfactionStep` | TableConverter.php:129-149 | always returns a string; fills the map from the answers when it is empty and leaves it alone otherwise; never touches the region map |
| `Transforms.SatisfactionMeaning` | TableConverter.php:128-149 | with a faithful memo, the result is the code of the exact text if present, else of the title-cased text, else ""; the counts grow by that code exactly when one is found |
| `Transforms.SatisfactionCountsMatches` | TableConverter.php:141-147 | the sum of the counts grows by exactly one when a code is found and is unchanged otherwise |
| `Transforms.RegionStep` | TableConverter.php:112-126 | returns a string or false; fills the region map from the lower-cased answers when it is empty; never touches the satisfaction state |
| `Transforms.RegionMeaning` | TableConverter.php:112-126 | with a faithful memo, the result is the code of the last answer whose lower-cased text is the normalised region, and false when there is none |
| `Transforms.RegionIgnoresCase` | TableConverter.php:113 | region lookup does not depend on the case of its input |
| `Transforms.ApplyTransform` | TableConverter.php:284 | only the two memoised lookups change the memo |
| `Transforms.ApplyTransformKeepsMemoFaithful` | TableConverter.php:111-149 | after any transform each memo map is empty or holds what its query fills it with |
| `Database.Database.constructor` | db.php:5-12 | a new connection has sent nothing and has no error |
| `Database.Database.Query` | TableConverter.php:86 | the query is appended to those sent; the reply is the store's answer to them, and the error is that reply's message |
| `Database.QuotedValues` | TableConverter.php:70-73 | values that cannot form a quote pair, quoted, joined and with "''" replaced, give their SQL literals joined with ", "; no values at all give NULL |
| `Database.InsertQueryMeaning` | TableConverter.php:68-73 | when the table, the headers and the values cannot form a quote pair, the statement inserts NULL for every empty value and the quoted value otherwise; a row with no values gets `VALUES(NULL)` |
| `Database.NullifyLeavesNoPair` | TableConverter.php:73 | the replacement leaves no "''" behind |
| `Database.TrailingQuoteCorruptsLiteral` | TableConverter.php:65-73 | the escaped value `O\'` comes out as `'O\NULL`, not as its literal |
| `Converter.CheckOptions` | TableConverter.php:199-212 | succeeds exactly when db_table is a string and qid an int, and reports a non-string table first; keeps the table, qid and the truthiness of debug and prevent_skipping; keeps uniqueness_field exactly when it is a string |
| `Converter.UniquenessDefaultLost` | TableConverter.php:204 | without a string uniqueness_field the duplicate check reads the empty key, not "startdate" |
| `Converter.CellValue` | TableConverter.php:277-288 | a key's cell fails exactly when it names a method that is not a transform: an unsupported callback for another method of the class, "not a function" otherwise; the base value is the fixed content when there is one, else the input cell; without a method it is the cell's value and the memo is untouched, with a transform the transform's result and memo replace them |
| `Converter.CellsPrefix` | TableConverter.php:273-292 | the column loop can only stop on a method name |
| `Converter.CellsPrefixStops` | TableConverter.php:286 | once a key stops the column loop, the later keys change nothing |
| `Converter.CellsPrefixLength` | TableConverter.php:289-291 | the column loop emits one cell per declared output header |
| `Converter.KeyCellKept` | TableConverter.php:289-291 | a later key leaves an earlier key's cell, and its header, at the same position |
| `Converter.KeyCellAdded` | TableConverter.php:276-291 | a key with an output header appends its `CellValue` result at the end, at the position of its header among the declared ones |
| `Converter.CellsPrefixAligned` | TableConverter.php:276-291 | the cells come in key order: each key with an output header has its cell at the position of its header among the declared output headers, holding the key's `CellValue` with the memo the earlier keys left |
| `Converter.CellsPrefixSlotsTaken` | TableConverter.php:289-291 | every emitted cell is the cell of some key with an output header |
| `Converter.RowCellsSplit` | TableConverter.php:245-291 | a converted row is the concatenated cells under the concatenation headers, followed by the keys' cells under the declared output headers |
| `Converter.RowCellsAligned` | TableConverter.php:245-291 | every cell sits under its output header: the k-th joined set (last declared first) under its header, then each key's `CellValue` result under that key's output header, and every later cell belongs to such a key |
| `Converter.CellsPrefixKeepsMemoFaithful` | TableConverter.php:273-292 | a whole row of transforms keeps the memo faithful |
| `Converter.RowStepKeepsMemoFaithful` | TableConverter.php:254-305 | one pass of the row loop keeps the memo faithful, whatever happens to the row |
| `Converter.RunRowsKeepsMemoFaithful` | TableConverter.php:254-305 | the whole row loop keeps the memo faithful, so every lookup in every row meets the precondition of `SatisfactionMeaning` and `RegionMeaning` |
| `Converter.WrongColumnCountNeverHappens` | TableConverter.php:294-301 | with distinct keys and a successful resolution, a converted row has exactly as many cells as output headers |
| `Converter.OutputHeaderOf` | TableConverter.php:83 | the output header of the first rule with that key, null when that rule has none or no rule has the key |
| `Converter.MissingUniquenessFieldQueriesEmptyColumn` | TableConverter.php:82-84 | without a uniqueness field, the duplicate query compares an empty column name with an empty date, whatever the row holds |
| `Converter.Send` | TableConverter.php:75 | sending appends the query and sets the error to the store's reply, changing nothing else |
| `Converter.Checked` | TableConverter.php:257-265 | the duplicate check changes neither the memo nor the inserted rows |
| `Converter.RowStep` | TableConverter.php:254-305 | a row that stops the run inserts nothing |
| `Converter.DuplicateRowSkipped` | TableConverter.php:257-262 | a row the store already holds sends only the check, inserts nothing, and does not stop the run |
| `Converter.InsertedRowWasSent` | TableConverter.php:303-304 | an inserted row was the last statement sent, as the INSERT of its escaped cells, and the store reported no error |
| `Converter.ReachedInsertIsCounted` | TableConverter.php:294-304 | a row that reaches `db_insert` is counted exactly when the run goes on, and otherwise stops on the store's error; outside debug mode it sends its INSERT after the duplicate check, in debug mode nothing more |
| `Converter.DebugRowSendsOnlySelect` | TableConverter.php:74-75 | in debug mode a row sends its duplicate check at most, and that is a SELECT |
| `Converter.DebugSendsOnlySelects` | TableConverter.php:254-305 | in debug mode a run only appends SELECTs to the queries sent, and with prevent_skipping it sends nothing |
| `Converter.RowStepInsertsAligned` | TableConverter.php:294-304 | a row appends at most one inserted row, and only one with a cell per output header |
| `Converter.InsertedRowsAligned` | TableConverter.php:253-305 | a run only appends to the inserted rows, each with one cell per output header |
| `Converter.RunKeepsRowsAligned` | TableConverter.php:253-305 | inserted rows that all have a cell per output header still do after a run |
| `Converter.RowStepColumnCount` | TableConverter.php:294-301 | the column-count stop happens only when the converted row's length differs from the header count |
| `Converter.RowNeverStopsOnColumnCount` | TableConverter.php:294-301 | with distinct keys and a successful resolution no row stops on the column count |
| `Converter.RunNeverStopsOnColumnCount` | TableConverter.php:254-305 | with distinct keys and a successful resolution no run stops on the column count |
| `Converter.ColumnsRejectedSendsNothing` | TableConverter.php:219-250 | columns that do not resolve stop the run before any query or insert |
| `Converter.TableConverter.constructor` | TableConverter.php:199-212 | from options that pass the two type checks, keeps the configuration `CheckOptions` gives, the reader, connection and services; the memo starts empty, and so faithful |
| `Converter.TableConverter.FillSatisfactionCodes` | TableConverter.php:130-139 | the loop over the answers builds the code map and resets the counts |
| `Converter.TableConverter.GetSatisfactionCode` | TableConverter.php:129-149 | returns the code and leaves the memo that `SatisfactionStep` gives |
| `Converter.TableConverter.FillRegionCodes` | TableConverter.php:114-120 | the loop over the answers builds the lower-cased region map |
| `Converter.TableConverter.RegionToLSCode` | TableConverter.php:112-126 | returns the code and leaves the memo that `RegionStep` gives |
| `Converter.TableConverter.CallTransform` | TableConverter.php:284 | the named transform's value and memo, as `ApplyTransform` gives them |
| `Converter.TableConverter.JoinCells` | TableConverter.php:164-169 | the set's cells, in order, joined with its separator |
| `Converter.TableConverter.ConcatenateColumns` | TableConverter.php:159-171 | each set's joined cells put at the front in turn, last declared first |
| `Converter.TableConverter.ComputeCell` | TableConverter.php:277-288 | the key's cell, the memo after it and the stop, as `CellValue` gives them |
| `Converter.TableConverter.EmitCell` | TableConverter.php:289-291 | one pass of the column loop, as `CellStep` gives it |
| `Converter.TableConverter.ConvertRow` | TableConverter.php:267-292 | the row's cells, the memo after them and the stop, as `RowCells` gives them |
| `Converter.TableConverter.RowExistsInDb` | TableConverter.php:81-91 | sends the duplicate query; a duplicate is a reply with rows, and a failed query counts as none |
| `Converter.TableConverter.DbInsert` | TableConverter.php:64-79 | sends the INSERT of the escaped values unless in debug mode, and stops exactly when the connection reports an error |
| `Converter.TableConverter.ProcessRow` | TableConverter.php:255-304 | the queries, error, memo and stop after one row are those `RowStep` gives, and a row is reported uploaded exactly when `RowStep` inserts it |
| `Converter.TableConverter.PrependConcatHeaders` | TableConverter.php:245-250 | puts the concatenation headers at the front, last declared first |
| `Converter.TableConverter.ResolveColumns` | TableConverter.php:219-250 | the result of resolution, as `Resolve` gives it |
| `Converter.TableConverter.UploadRows` | TableConverter.php:253-305 | the queries, error, stop and upload count are those of `RunRows` over the data lines |
| `Converter.TableConverter.Run` | TableConverter.php:214-305 | the queries, error, stop and upload count are those of `Conversion` on the reader's headers and data; a run that completes leaves a faithful memo faithful |

## Left out

- WrongColumnCountNeverHappens, RowNeverStopsOnColumnCount, RunNeverStopsOnColumnCount: hold for the model, whose keys are strings compared exactly. Under PHP 7, `json_decode` turns a key "0" into the integer 0, and `0 == "concatenate_columns"` is true. Such a key is skipped by the column loop at TableConverter.php:275, after resolution has already pushed its output header. The count check at lines 294-301 then stops the run. The same happens for any key that compares loosely equal to "concatenate_columns".
- A `concatenate_columns` entry that is present but null cannot be represented: `Columns.concat` is absent or a list of sets. For `{"concatenate_columns": null}` the model stops with `NoColumns`. The source finds the columns non-empty, skips the unset entry and runs with no output headers.
- PHP's loose comparisons (`==` on the parsed header rows and on the status cell, `in_array`, `array_search`) are modelled as exact string equality. Numeric strings that PHP would compare as numbers are not.
- Reading files, `json_decode` of the columns file and `str_getcsv` are not modelled. The reader receives the file's contents and a line parser, and the converter receives the decoded columns as a `Columns` value.
- A columns file that fails to decode is not modelled separately. An empty one stops the run with `NoColumns`.
- The two `lime_answers` queries are modelled as fixed answer lists in `Services`. They are not sent through the connection, so they do not appear in the query log or change the error. The text of those queries, including the `qid` of the satisfaction query, is not modelled.
- `strtotime`/`date` are one formatter function. The clock is one fixed value for the whole run (`datestamp`), and what `submitdate` returns for an incomplete survey is a given value.
- Calling one of the class's structural methods (`db_insert`, `row_exists_in_db`, `concatenate_columns`, `__construct`, `run`) through a column's `function` is not modelled. It stops the row with `UnsupportedCallback`.
- Everything the source prints with `echo` or `print_r` is not modelled, including the final report of the code counts.
- A `uniqueness_field` that is not a string is treated as absent. Non-string values for `content`, `function` and the headers cannot be represented.
- Keys are strings. The `concatenate_columns` entry is held apart from the keyed rules, so no rule can have that key. PHP's integer keys for numeric strings are not modelled.
- Converter.TableConverter.ComputeCell: does not specify the memo after a stop, because the run ends there.
- Converter.TableConverter.EmitCell: does not specify the memo after a stop, because the run ends there.
- Converter.TableConverter.ConvertRow: does not specify the memo after a stop, because the run ends there.
- Converter.TableConverter.ProcessRow: does not specify the memo after a stop, because the run ends there.
- Converter.TableConverter.UploadRows: does not specify the memo after a stop, because the run ends there.
- Converter.TableConverter.Run: does not specify the memo after a stop, because the run ends there.
- Integer widths are unbounded. `upload_count` and the code counts cannot overflow in the model.
- Case conversion (`strtolower`, `ucwords`) is modelled on ASCII letters only, as in the C locale. Multibyte and locale-specific letters are left unchanged.
- The `trim` functions (`Php.TrimLeft`, `Php.TrimRight`, `Php.Trim`) carry no postconditions of their own. Their properties are stated as the lemmas `TrimLeftMeaning`, `TrimRightMeaning` and `TrimMeaning`.
- PHP 8's `TypeError` on `array_filter` of a string, which would stop the reader instead of dropping the last line, is not modelled. The model follows PHP 7.
- The database driver class (`iIPM_db_plugin`) is not part of this model beyond `query`, `error` and `real_escape_string`. What its `query` returns is modelled as `Rows(count)` or `Failed(message)`; the test `sizeof($result) > 0` at TableConverter.php:89 becomes `count > 0`, and `false` becomes `Failed`. `upload-to-db.php`, which wires the objects together, is not part of this model.
