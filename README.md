# excelbutbetter: a verified model of the spreadsheet data layer

This project models the core of the `excelbutbetter` prototype: a sparse grid
of text cells kept in a versioned table, with a staging area that batches
edits and commits only the difference. The core lives in
`web_prototype/py_proto.py`. It has four parts:

- **Column names** (`column_names.dfy`, module `ColumnNames`):
  - `num_to_colname` and `colname_to_num`, as written;
  - the spreadsheet naming (bijective base 26) that they were evidently
    meant to implement.
- **Sparse and dense grids** (`grid.dfy`, module `Grid`):
  - `indexed_to_array` turns (row, column, value) triples into rows of
    values. A skipped row becomes `[]`, a column gap becomes `""`, and no
    triples give `[[]]`.
  - `array_to_indexed` goes the other way.
  - Python's `sorted` on triples is modelled by an insertion sort on
    (row, column, value). That order is total on triples, so every correct
    sort gives the same list.
- **Staging** (`staging.dfy`, module `Staging`):
  - the triples `_data` and `update_cell`;
  - Python's `str.strip`, with the full `str.isspace` character set;
  - the dictionary `{(i, j): v for i, j, v in ... if v}` that `commit`
    builds.
- **The versioned table and the object** (`store.dfy` module `Store`,
  `sheet.dfy` module `Sheet`):
  - The SQLite table `test` is a sequence of records (row, column, value,
    valid_from, valid_to). A record is current at t when
    `valid_from <= t <= valid_to`, because SQL's `between` includes both ends.
  - `datetime.max` is an integer constant.
  - `ExcelButBetter` is a class with the fields `table`, `data`,
    `nrowInTable` and `ncolInTable`. Its methods are `Refresh`, `Rows`,
    `UpdateCell` and `Commit`.
  - `Commit` reads the baseline, diffs it against the staged triples, and
    performs the four `executemany` calls in the source's order. It then
    reloads.

The main results are these:
- The codec round-trips.
- `indexed_to_array` returns the unique dense form of coordinate-unique
  triples, in any order.
- `array_to_indexed` inverts it on triples that are sorted by coordinate,
  coordinate-unique and have non-empty values.
- `update_cell` is idempotent. On coordinate-unique triples, with a value
  that is not all whitespace, it amounts to the dictionary update
  `d[(i, j)] = value.strip()`.
- A read returns one triple per current record. On a settled table it
  returns each coordinate at most once, so what `refresh` loads is
  coordinate-unique, and the table reads the same at every later time up
  to `datetime.max`.
- On a settled table, a commit keeps the table settled, and reading it
  afterwards returns exactly the staged values. "Settled" at time t means:
  every record has started by t, every record holds a non-empty value,
  every record is open or ended before t, and each coordinate has at most
  one open record.
- After a commit on a settled table with the clock moving forward, if the
  staged triples were coordinate-unique with non-empty values, the
  reloaded dense grid equals the staged one, because the dictionary
  determines the grid (`Staging.SameMapSameGrid`).
- A commit with nothing edited writes nothing. On a settled table, a second
  commit whose baseline is read strictly after the first one's writes
  leaves the table as the first one left it.

The model follows the code where the code departs from the conventions it
evidently aims at:
- The encoder is not spreadsheet column naming, that is bijective base 26
  (see Findings).
- Validity includes both ends of the interval, where a versioned table
  usually treats it as half-open, `valid_from <= t < valid_to`
  (`Store.CommitInstantShowsBoth`).
- The table is modelled without its composite primary key. With the key, a
  history of several records per coordinate could not be kept (see
  Findings).
- Closing a coordinate rewrites `valid_to` on every record at it, closed
  ones included, instead of only on its open record
  (`Store.ExpiryRewritesHistory`).
- `indexed_to_array([])` is `[[]]`.

## Model

| member | source | states |
|---|---|---|
| ColumnNames.NumToColname | web_prototype/py_proto.py:10-18 | The digit-collecting loop returns exactly `ColName(j)`. |
| ColumnNames.ColName | web_prototype/py_proto.py:10-18 | The name is all capital letters, one letter per base-26 digit of j, a single letter exactly when j < 26, and a name of two or more letters never starts with 'Z'. |
| ColumnNames.DigitsValue | web_prototype/py_proto.py:12-16 | The digits the `divmod` loop collects are the base-26 expansion of j. |
| ColumnNames.ColnameToNum | web_prototype/py_proto.py:20-26 | The loop returns `ColIndex(col)`: an error for the empty string, an error for any character outside A..Z; otherwise a single letter gives its alphabet position, and a longer name gives the positional value with the leading letter counted one higher. |
| ColumnNames.RoundTrip | web_prototype/py_proto.py:10-26 | `colname_to_num(num_to_colname(j)) == j` for every j >= 0. |
| ColumnNames.ColNameInjective | web_prototype/py_proto.py:10-18 | Different indices get different names. |
| ColumnNames.ColNameDigits | web_prototype/py_proto.py:12-18 | For j >= 26 the letters are the base-26 digits of j, most significant first, with the leading one lowered by one. |
| ColumnNames.ColNameExamples | web_prototype/py_proto.py:10-18 | 0 -> A, 25 -> Z, 26 -> AA, 51 -> AZ, 52 -> BA, 675 -> YZ, 676 -> AAA, 701 -> AAZ. |
| ColumnNames.ColIndexExamples | web_prototype/py_proto.py:20-26 | "ZA" and "AAA" both decode to 676; "", "a" and "A1" are errors. |
| ColumnNames.BijName | web_prototype/py_proto.py:10-18 | Corrected encoder: every name is a non-empty string of capital letters. |
| ColumnNames.BijIndex | web_prototype/py_proto.py:20-26 | Corrected decoder: an error exactly for the empty string or a non-letter. |
| ColumnNames.BijRoundTrip | web_prototype/py_proto.py:10-26 | Corrected codec: decoding undoes encoding for every index. |
| ColumnNames.BijOnto | web_prototype/py_proto.py:10-26 | Corrected codec: every non-empty letter string is the name of the column it decodes to. |
| ColumnNames.ColNameSkipsZ | web_prototype/py_proto.py:10-26 | As written, 676 is "AAA" and "AAA" decodes to 676. Spreadsheet naming gives "ZA" and 702. |
| Grid.Sort | web_prototype/py_proto.py:30 | `sorted(rows)` is ordered by (row, column, value) and is a permutation of its input. |
| Grid.SortStrict | web_prototype/py_proto.py:30 | Sorting coordinate-unique triples orders them strictly by coordinate. |
| Grid.SortKeepsSorted | web_prototype/py_proto.py:30 | Sorting leaves strictly sorted triples unchanged. |
| Grid.IndexedToArray | web_prototype/py_proto.py:28-39 | The method returns `ArrayOf(rows)`: the final `result.append(this_row)` after the loop over `sorted(rows)`. |
| Grid.WalkCells | web_prototype/py_proto.py:31-37 | The loop leaves `result`, `this_row` and `previous_row_number` equal to the fold of the loop body over the sorted triples. |
| Grid.ArrayOfRepresents | web_prototype/py_proto.py:28-39 | For coordinate-unique triples in any order, the result shows every triple at its row and column and holds nothing else. Every non-empty row ends at a triple, the last row is non-empty, and no triples give `[[]]`. |
| Grid.ArrayOfShape | web_prototype/py_proto.py:28-39 | For coordinate-unique triples: each value sits at `g[row][col]`; the last row holds a triple; each non-empty row ends at a triple's column; every non-empty slot comes from a triple. |
| Grid.RepresentsDetermines | web_prototype/py_proto.py:28-39 | At most one dense array represents a list of triples, so the shape above fixes the result. |
| Grid.RepresentsPermutation | web_prototype/py_proto.py:30 | Whether an array represents the triples depends only on which triples there are, not on their order. |
| Grid.RowCells | web_prototype/py_proto.py:43 | The triples of one row are exactly its non-empty values with their columns, in column order. |
| Grid.ArrayToIndexed | web_prototype/py_proto.py:41-43 | `array_to_indexed` gives exactly the non-empty slots as triples, strictly in row-major order. |
| Grid.RoundTrip | web_prototype/py_proto.py:28-43 | For triples sorted by coordinate, coordinate-unique and with non-empty values, converting to the dense form and back returns them unchanged. |
| Grid.NotAnInverse | web_prototype/py_proto.py:41-43 | The other direction fails: `[["", "x", ""], [""]]` goes to `[(0, 1, "x")]` and comes back as `[["", "x"]]`. |
| Grid.ArrayOfBlockExample | test_py_proto.py:24-26 | The full 2 x 2 block converts to `[['foo', 'bar'], ['baz', 'boo']]`. |
| Grid.ArrayOfGapExample | test_py_proto.py:28-29 | `[(1, 3, 'foo')]` converts to `[[], ['', '', '', 'foo']]`. |
| Staging.Strip | web_prototype/py_proto.py:78 | Nothing is left exactly when the value is all whitespace; what is left is no longer than the value and neither starts nor ends with whitespace. |
| Staging.StripPadded | web_prototype/py_proto.py:78 | Strip removes exactly the surrounding whitespace: any padding around a trimmed text comes off. |
| Staging.StripIdempotent | web_prototype/py_proto.py:78 | Stripping twice is stripping once. |
| Staging.FirstAt | web_prototype/py_proto.py:81 | The position found is that of the first triple at (i, j), or the length when there is none. |
| Staging.Upsert | web_prototype/py_proto.py:80-84 | The new value is present; the list grows by one exactly when no triple was at (i, j); only the first triple at (i, j) is overwritten, every other position keeps its triple (later triples at (i, j) included), and nothing else is added. |
| Staging.UpdateCell | web_prototype/py_proto.py:77-84 | An all-whitespace value changes nothing. Otherwise the stripped value is present at (i, j), triples at other coordinates keep their positions, and nothing is added at any other coordinate. |
| Staging.UpdateCellMap | web_prototype/py_proto.py:77-90 | On coordinate-unique triples, a value that is not all whitespace makes the edit the dictionary update `d[(i, j)] = value.strip()`. |
| Staging.UpsertUnique | web_prototype/py_proto.py:80-84 | On coordinate-unique triples the edit keeps them unique, and the only triple at (i, j) holds the new value. |
| Staging.UpsertIdempotent | web_prototype/py_proto.py:80-84 | Writing the same value to the same cell twice is writing it once. |
| Staging.UpdateCellIdempotent | web_prototype/py_proto.py:77-84 | Repeating `update_cell(i, j, value)` changes nothing. |
| Staging.MapOf | web_prototype/py_proto.py:89-90 | The dictionary holds only non-empty values taken from triples, and has a key for every triple with a non-empty value. |
| Staging.MapOfLastWins | web_prototype/py_proto.py:89-90 | When one coordinate has several non-empty triples, the dictionary keeps the value of the last one, as the comprehension's later assignments overwrite earlier ones. |
| Staging.UniqueConsistent | web_prototype/py_proto.py:89-90 | Coordinate-unique triples never give two values for one key. |
| Staging.MapOfConsistent | web_prototype/py_proto.py:89-90 | Without conflicting triples, each non-empty triple's value is the dictionary's value at its coordinate. |
| Staging.MapOfSameElements | web_prototype/py_proto.py:89-90 | The dictionary depends only on which triples there are, not on their order or repetition. |
| Staging.SameMapSameGrid | web_prototype/py_proto.py:28-39 | Two coordinate-unique lists of non-empty triples with the same dictionary convert to the same dense grid. |
| Staging.UpsertMap | web_prototype/py_proto.py:77-90 | On coordinate-unique triples, an edit is the dictionary update `d[(i, j)] = v` and nothing else. |
| Staging.UpdateCellKeepsKeys | web_prototype/py_proto.py:77-84 | `update_cell` never removes a key from the dictionary, so a cell cannot be cleared through it. |
| Store.Query | web_prototype/py_proto.py:88 | The query returns the triple of every record current at t and nothing else. |
| Store.QueryCounts | web_prototype/py_proto.py:88 | The query returns one row per current record: each triple occurs as many times as there are current records holding it. |
| Store.SettledQueryUnique | web_prototype/py_proto.py:88 | A read of a settled table returns each coordinate at most once. |
| Store.SettledStable | web_prototype/py_proto.py:88-89 | A settled table gives the same dictionary at every time from t up to `datetime.max`. |
| Store.ComputeDiff | web_prototype/py_proto.py:92-94 | `to_delete`, `to_insert` and `to_update` are disjoint and together cover exactly the coordinates whose entries differ. Deletes are baseline-only, inserts staged-only, updates in both, and all carry the staged values. |
| Store.DiffPatches | web_prototype/py_proto.py:89-94 | Removing the deleted and updated keys from the baseline and adding the inserts and updates gives the staged dictionary. |
| Store.DiffEmptyIff | web_prototype/py_proto.py:89-94 | The diff is empty exactly when the staged dictionary equals the baseline. |
| Store.Enumerate | web_prototype/py_proto.py:92-94 | The set turned into a list holds each key exactly once. |
| Store.EnumeratesSize | web_prototype/py_proto.py:92-94 | Such a list is as long as the set. |
| Store.OpenRecords | web_prototype/py_proto.py:97 | One record per listed coordinate, with its value, open from now to `datetime.max`. |
| Store.Expire | web_prototype/py_proto.py:100-104 | Every record at a listed coordinate, closed or not, gets `valid_to = now`; all other fields and records are unchanged. |
| Store.ExpireOneMore | web_prototype/py_proto.py:101 | Running the update for one more coordinate extends the set of closed coordinates. |
| Store.CommitBlocks | web_prototype/py_proto.py:96-106 | The four writes amount to the old records closed at the deleted and updated coordinates, followed by the `to_insert` records and then the `to_update` records. |
| Store.CommitEffect | web_prototype/py_proto.py:96-106 | The table grows by one open record per insert and per update, starting at now. No record is removed. Old records keep coordinate, value and start, and only those at deleted or updated coordinates get end now. |
| Store.SettledConsistent | web_prototype/py_proto.py:88 | In a settled table no coordinate is current with two values. |
| Store.SettledView | web_prototype/py_proto.py:88-89 | A settled table read at t shows exactly its open records. |
| Store.ShowsUnique | web_prototype/py_proto.py:88-89 | A table shows at most one dictionary. |
| Store.CommitSettles | web_prototype/py_proto.py:86-109 | Committing on a settled table keeps it settled for every later reader. |
| Store.CommitReproduces | web_prototype/py_proto.py:86-109 | After a commit on a settled table, every later read up to `datetime.max` gives exactly the staged dictionary. |
| Store.CommittedOpenAt | web_prototype/py_proto.py:96-106 | After the writes, each staged coordinate has an open record holding its staged value. |
| Store.CommittedNewDistinct | web_prototype/py_proto.py:97-106 | The appended records are open, carry the inserted or updated values, and name each coordinate once. |
| Store.CommitUnchangedIsNoop | web_prototype/py_proto.py:86-106 | A commit with no edits since the baseline leaves the table exactly as it was. |
| Store.RecommitIsNoop | test_py_proto.py:102-109 | After a commit on a settled table, committing the same staged values again at any later time writes nothing. |
| Store.CommitInstantShowsBoth | web_prototype/py_proto.py:96-106 | Because `between` includes both ends, a read at the instant of the writes sees both the old and the new value of an updated cell. |
| Store.ExpiryRewritesHistory | web_prototype/py_proto.py:100-104 | Closing a coordinate also rewrites the end of a record closed long ago, so past reads change: at time 7, "a" reappears beside "b". |
| Store.KeyedInsert | web_prototype/py_proto.py:51 | Inserting into the keyed table succeeds only when no new record collides with an existing key, and then appends the records. It succeeds whenever all keys stay distinct. |
| Store.KeyedCommitRejectsUpdate | web_prototype/py_proto.py:51 | With `primary key (row, column)`, every commit that changes an existing cell fails. |
| Sheet.MaxRow | web_prototype/py_proto.py:73 | The largest row of the loaded triples, or 0 when there are none. |
| Sheet.MaxCol | web_prototype/py_proto.py:74 | The largest column of the loaded triples, or 0 when there are none. |
| Sheet.ExcelButBetter.constructor | web_prototype/py_proto.py:46-54 | Opening a sheet over stored records loads the triples current at the opening time, sorted, with their extents; from a settled table they are coordinate-unique and non-empty. |
| Sheet.ExcelButBetter.Rows | web_prototype/py_proto.py:65-67 | The `rows` property is the dense form of the staged triples. |
| Sheet.ExcelButBetter.Refresh | web_prototype/py_proto.py:69-75 | `refresh` loads the current triples ordered by row and column, records the largest row and column, leaves the table alone, and returns the dense form. From a settled table the loaded triples are coordinate-unique and non-empty. |
| Sheet.ExcelButBetter.UpdateCell | web_prototype/py_proto.py:77-84 | The search loop and write leave `_data` equal to `UpdateCell(old _data, i, j, value)`, keep the triples coordinate-unique, and change nothing else. |
| Sheet.ExcelButBetter.InsertRecords | web_prototype/py_proto.py:98 | `executemany('insert ...')` appends the records in order. |
| Sheet.ExcelButBetter.ExpireAll | web_prototype/py_proto.py:101 | `executemany('update ... set valid_to=?')` closes every record at the listed coordinates. |
| Sheet.ExcelButBetter.WriteDiff | web_prototype/py_proto.py:96-106 | The four `executemany` calls, in order, leave the table as `CommitTable`. |
| Sheet.ExcelButBetter.Commit | web_prototype/py_proto.py:86-109 | `commit` writes the diff of the staged triples against the baseline read at readAt, at writeAt, then reloads at reloadAt. On a settled table with the clock moving forward, the table stays settled, the reload is coordinate-unique and returns the staged dictionary, and every read from reloadAt to `datetime.max` gives that dictionary. When the staged triples were coordinate-unique with non-empty values, the reloaded dense grid equals the staged one. With nothing edited, the table is unchanged. |
| Sheet.CommitThenReload | web_prototype/py_proto.py:86-109 | A commit followed by `refresh` on a settled table gives back exactly the staged dictionary, leaves the table settled, and every later read gives the same dictionary. |
| Sheet.LoadUnique | web_prototype/py_proto.py:71-72 | What `refresh` loads from a settled table has each coordinate at most once and no empty value. |
| Sheet.SortedView | web_prototype/py_proto.py:72 | Ordering the loaded triples by row and column does not change the dictionary built from them. |

## Left out

- SQLite itself is not modelled: the connection, the cursor, `conn.commit()`, the file on disk and `detect_types`. The table is a sequence of records held by the object, and the table name `test` is fixed.
- `datetime.now()` is not modelled. Each reading of the clock is a parameter: `now` for `refresh`, and `readAt`, `writeAt` and `reloadAt` for the three readings in `commit`. Timestamps are integers, with `datetime.max` as microseconds since 1970.
- `ExcelButBetter.from_file`, the `js` import block and `table_to_html` are left out, because they are browser I/O and HTML rendering. With them go `NROWS` and `NCOLS`, used only by `table_to_html`.
- `formulas.py` and `build.py` are not part of this model; they are outside the data layer.
- Sheet.ExcelButBetter.Refresh: `order by row, column` leaves ties between records at the same coordinate in an unspecified order. The model breaks them by value, as Python's `sorted` does; on a settled table there are no ties.
- Sheet.ExcelButBetter.Commit: the order in which Python iterates the key sets is not modelled. The insert and update lists are returned as arbitrary enumerations of the keys (`Store.Enumerate`), and every result holds for any such order.
- Indices are natural numbers. Negative row or column numbers, `alphabet[-1]` for negative indices, and fixed integer widths are outside the model.
- Strings are sequences of characters. Values stored as non-text SQLite types are not modelled.
- Sheet.ExcelButBetter.Rows: the `Unique(data)` representation property is stated by `Grid.ArrayOfRepresents` on `ArrayOf(data)`, not in the method's own contract.

## Findings

| source | as written | input that shows it | evidently intended | confidence | as-written member | corrected member |
|---|---|---|---|---|---|---|
| web_prototype/py_proto.py:51 | The table is created with `primary key (row asc, column asc)`. An update inserts a second record at a coordinate whose closed record is still in the table, so the insert is rejected. | A table holding the open record (0, 0, 'foo'), then `update_cell(0, 0, 'vvvvv')` and `commit()`. | The table keeps history: at most one open record per coordinate, any number of closed ones. | medium, not executed | Store.KeyedCommitRejectsUpdate | Store.CommitReproduces |
| web_prototype/py_proto.py:10-26 | From 676 up, `num_to_colname` writes ordinary base 26 and lowers only the leading digit. Names ZA..ZZ are never produced, and `colname_to_num` reads "AAA" as 676. | j = 676 gives "AAA" where spreadsheet naming gives "ZA"; "AAA" is column 702 there. | Spreadsheet column names: bijective base 26, where Z is followed by AA and ZZ by AAA. | medium, not executed | ColumnNames.ColNameSkipsZ | ColumnNames.BijRoundTrip |
