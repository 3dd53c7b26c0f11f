# Data query tool: a Dafny model of its command core

The desktop tool loads a folder of spreadsheets (CSV/TXT, XLSX, XLS). Each
data row becomes a record: the first cell is the record's id, the second
its link (shown as a QR code), and every cell can be used to look the record
up. The tool then answers lookups, counts how often each record was queried,
lets a record be marked as verified ("核销") once, and keeps a bounded
history of queries.

All of that logic lives in `src-tauri/src/lib.rs`. This project models it
as pure functions over immutable state:

- **Records** (`records.dfy`): `DataRecord`, `HistoryRecord`, `LoadResult`
  and `QueryResult`, plus the error cases of the commands and their
  messages.
- **Text** (`text.dfy`): `str::trim`, taken as stripping the Unicode
  White_Space characters. Also the first line as `str::lines` yields it,
  `Path::extension` and ASCII lower-casing.
- **Ingest** (`ingest.dfy`): the catalog (`data_store`, `value_to_id`,
  `duplicate_keys`), the delimiter choice of the CSV loader, and the
  per-row body shared by the three loaders. Also the catalog invariant
  `Valid`:
  - every record is well-formed;
  - every index entry names a stored record that contains the value;
  - every non-empty value is indexed;
  - duplicates are stored ids and are listed once.
- **Folder** (`folder.dfy`): the loop of `load_data_folder` over the
  directory entries. It covers dispatch by extension, the file count, the
  skip notes, and the rows handed to ingestion.
- **History** (`history.dfy`): push-front with truncation to 100, and
  deletion by id.
- **Commands** (`commands.dfy`): the six Tauri commands as transitions of
  `AppState`, each returning the new state and the command's result.
- **Session** (`session.dfy`): commands applied one after another. It
  holds the invariants every command keeps.

The clock reading and the generated history id are parameters. A folder
arrives as its directory entries, in `read_dir` order. Each entry carries
the table its reader produced (header row included) or a read failure. The
persisted records are a map passed to the load.

Behaviour of `lib.rs` worth knowing:

- Verifying a record that is already verified is an error, and it
  changes nothing.
- The value index keeps one id per value. That id is the last record, in
  load order, that holds the value, because `HashMap::insert` overwrites.
  A query therefore resolves to that last record.
- `is_duplicate` is true exactly when the key is one of the ids that
  occurred more than once during the load. `QueryResult` has no other
  flag about several matches.
- A load in which no file loads returns an error after it has already
  cleared the catalog. A missing folder returns an error and leaves the
  state untouched.
- Deleting a history item removes every entry with that id. An unknown id
  is not an error.
- An Excel file with no sheet, or whose first sheet cannot be read, counts
  as loaded with zero records, because the loader returns `Ok(0)`. Such a
  file is an empty table here.

## Model

| member | source | states |
|---|---|---|
| Text.Trim | src-tauri/src/lib.rs:183-189 | the trimmed cell is the middle slice of the cell: only white space lies before and after it, and it neither starts nor ends with white space |
| Text.TrimEmptyIffBlank | src-tauri/src/lib.rs:191 | a trimmed id is empty exactly when the whole cell is white space, so blank-id rows are the ones skipped |
| Text.TrimIdempotent | src-tauri/src/lib.rs:183-189 | trimming an already trimmed cell changes nothing |
| Text.FirstLine | src-tauri/src/lib.rs:165 | the first line is a prefix of the content with no line feed; it stops at the first line feed, and drops a carriage return only when one comes right before that line feed |
| Text.Extension | src-tauri/src/lib.rs:391 | a file name has an extension exactly when a dot follows its first character; the extension is the dot-free text after the last dot |
| Text.LowerAscii | src-tauri/src/lib.rs:392 | each ASCII capital is mapped to its lower-case letter and every other character is kept, position by position |
| Ingest.ChooseDelimiter | src-tauri/src/lib.rs:166-172 | the delimiter is a tab exactly when the first line holds a tab, a semicolon exactly when it holds a semicolon and no tab, and a comma exactly when it holds neither |
| Ingest.DelimiterIgnoresLaterLines | src-tauri/src/lib.rs:165-172 | for any text after the first line feed, tabs and semicolons included, the delimiter depends only on the first line |
| Ingest.RowId | src-tauri/src/lib.rs:182-191 | a row yields an id exactly when it has at least two cells and its first cell is not blank; the id is the trimmed first cell and is non-empty |
| Ingest.TrimAll | src-tauri/src/lib.rs:186-189 | `all_columns` has one entry per cell, and entry j is cell j trimmed |
| Ingest.NewRecordBuilt | src-tauri/src/lib.rs:196-218 | a new record has the row's trimmed id, link and cells in order; with a saved record of that id it takes the saved query count, verification flag and time, and otherwise it starts at 0, false and none |
| Ingest.IndexValues | src-tauri/src/lib.rs:205-209 | after indexing, a value is a key exactly when it was one before or it is a non-empty column; non-empty columns map to the new id and every other key keeps its old id |
| Ingest.Insert | src-tauri/src/lib.rs:205-219 | inserting a fresh record adds exactly its id to the store, keeps every other record and the duplicate list, and indexes each non-empty value of the record to that id |
| Ingest.IngestRow | src-tauri/src/lib.rs:180-224 | a short or blank-id row changes nothing and counts 0; a repeated id leaves store and index alone, adds the id to the duplicate list if missing, keeps that list repetition-free, and counts 0; a fresh id adds exactly that record, built from the row, indexes its non-empty values to it, and counts 1 |
| Ingest.IngestRows | src-tauri/src/lib.rs:180-226 | ingesting rows never drops or alters a stored record, and the store grows by exactly the reported count |
| Ingest.IngestRowsAppend | src-tauri/src/lib.rs:180-226 | ingesting two runs of rows together equals ingesting one run and then the other; the catalog and the counts agree |
| Ingest.IngestRowsKeys | src-tauri/src/lib.rs:191-219 | after ingestion the store holds exactly the earlier ids plus the ids of the usable rows |
| Ingest.IngestRowsCount | src-tauri/src/lib.rs:219-226 | the count returned is the number of distinct row ids not already stored |
| Ingest.IngestRowsRestores | src-tauri/src/lib.rs:196-218 | every record a run of rows adds carries its own id, and its counters and verification state come from the saved record with that id, or are fresh when there is none |
| Ingest.IngestRowsDuplicates | src-tauri/src/lib.rs:192-195 | an id is in the duplicate list afterwards exactly when it was before, a row repeats an id already stored, or two rows share it |
| Ingest.IndexLastWriter | src-tauri/src/lib.rs:205-209 | a value held by several inserted rows is indexed to the last of them in row order |
| Ingest.EmptyCatalogValid | src-tauri/src/lib.rs:378-380 | the cleared catalog satisfies the catalog invariant |
| Ingest.InsertValid | src-tauri/src/lib.rs:205-219 | adding a well-formed record under a fresh id, with its values indexed, keeps the catalog invariant |
| Ingest.IngestRowValid | src-tauri/src/lib.rs:180-224 | ingesting one row keeps the catalog invariant |
| Ingest.IngestRowsValid | src-tauri/src/lib.rs:180-226 | ingesting any run of rows keeps the catalog invariant |
| Ingest.UpdateValid | src-tauri/src/lib.rs:441-443 | replacing a record with one of the same id, link and columns keeps the catalog invariant; queries and verifications do exactly this |
| Folder.FormatOf | src-tauri/src/lib.rs:391-402 | the CSV loader is picked exactly for names ending in ".csv" or ".txt", ignoring case, with a character before the dot; XLSX exactly for ".xlsx"; XLS exactly for ".xls" |
| Folder.ExtensionMatches | src-tauri/src/lib.rs:391-392 | the lower-cased extension equals a dot-free suffix exactly when the name ends in a dot and that suffix, ignoring case, with a character before the dot |
| Folder.Body | src-tauri/src/lib.rs:242-247 | the header row is dropped and the data rows are kept in order |
| Folder.FolderFold | src-tauri/src/lib.rs:384-412 | the file count is the number of files that load, and the skip notes are one per failing file, in order; the store only grows, by the record count; with no file loaded the catalog is unchanged and no record is counted |
| Folder.FolderFoldIngests | src-tauri/src/lib.rs:384-412 | the folder loop gives the same catalog and count as ingesting the data rows of the loading files, concatenated in directory order |
| Folder.FolderAppend | src-tauri/src/lib.rs:385-412 | the file count, the skip notes and the ingested rows of two entry lists together are those of each list, combined |
| Folder.FolderOrderIrrelevant | src-tauri/src/lib.rs:384-412 | any reordering of the entries gives the same file count, the same number of skip notes and the same set of stored ids |
| Folder.UnsupportedIgnored | src-tauri/src/lib.rs:401 | dropping entries no loader is picked for changes neither the file count, nor the skip notes, nor the ingested rows |
| History.Newest | src-tauri/src/lib.rs:460-462 | truncation keeps a prefix of length at most 100 |
| History.Push | src-tauri/src/lib.rs:458-462 | after a push the history has min(old length + 1, 100) entries; the new entry is first and the old entries follow in order |
| History.Delete | src-tauri/src/lib.rs:552 | an entry survives exactly when it was present and has another id; the length drops by the number of entries with that id |
| History.DeleteAppend | src-tauri/src/lib.rs:552 | deletion distributes over concatenation, so survivors keep their relative order |
| History.DeleteOne | src-tauri/src/lib.rs:552 | a single entry is kept exactly when its id differs |
| History.DeleteAbsent | src-tauri/src/lib.rs:552 | deleting an id no entry carries leaves the history exactly as it was |
| History.DeleteIdempotent | src-tauri/src/lib.rs:552 | deleting the same id twice is the same as deleting it once |
| History.PushAllKeepsNewest | src-tauri/src/lib.rs:458-462 | a run of queries on a history within the bound leaves the newest 100 of (queries newest first, then the old history) |
| History.Eviction | src-tauri/src/lib.rs:491-495 | from an empty history, 100 or more queries leave exactly the last 100, newest first |
| Commands.Init | src-tauri/src/lib.rs:565-572 | start-up has an empty, valid catalog and the persisted history |
| Records.ErrorMessagesDistinct | src-tauri/src/lib.rs:368-535 | the error texts of `load_data_folder` differ from each other, and so do those of `verify_record`, so each error case can be told apart from its text |
| Commands.LoadDataFolder | src-tauri/src/lib.rs:368-428 | a missing folder is an error that changes nothing; otherwise the catalog is rebuilt, is valid, holds exactly the ids of the loading files' rows, and the history is kept; the load fails exactly when no file loaded, and then the catalog stays cleared; on success the file count, record count and skip notes are as computed |
| Commands.FreshLoad | src-tauri/src/lib.rs:378-412 | loading into the cleared catalog gives a valid catalog of exactly the rows' ids, with one counted record per distinct id |
| Commands.LoadOrderIrrelevant | src-tauri/src/lib.rs:384-428 | the listing order of the folder changes neither success, nor the stored ids, nor the counts |
| Commands.LoadRestoresSaved | src-tauri/src/lib.rs:196-202 | after a load every record has the query count and verification of the saved record with its id, or 0, false and none without one |
| Commands.EmptyFolderFindsNothing | src-tauri/src/lib.rs:368-428 | loading an empty folder is an error, and afterwards no key is found |
| Commands.FirstPosition | src-tauri/src/lib.rs:447-448 | the reported column is absent exactly when no column equals the key; otherwise it is the first column that does |
| Commands.QueryData | src-tauri/src/lib.rs:431-510 | a key the index resolves is found: exactly that record's query count rises by one, nothing else in the catalog changes, the first matching column is reported, `is_duplicate` says whether the key is a repeated id, and the pushed entry carries the link and the verification flag; otherwise nothing is found, all flags are off, the catalog is unchanged, and the pushed entry has no result |
| Commands.QueryPreservesValid | src-tauri/src/lib.rs:441-443 | a query keeps the catalog invariant |
| Commands.QueryFoundIffIndexed | src-tauri/src/lib.rs:441-478 | on a valid catalog a key is found exactly when it is an indexed value; then the record is the one the index names and a column position is always reported |
| Commands.StoredValueIsFound | src-tauri/src/lib.rs:205-209 | every non-empty cell of every stored record is found when queried |
| Commands.DuplicateIdIsFound | src-tauri/src/lib.rs:438-478 | querying a repeated id always finds a record and flags it as a duplicate |
| Commands.LoadThenQuery | src-tauri/src/lib.rs:205-209 | after a load, a value is found under the last stored record, in file and row order, that contains it |
| Commands.VerifyRecord | src-tauri/src/lib.rs:513-535 | an unknown id and an already verified record are errors that change nothing; otherwise that record becomes verified at the given time, its other fields are kept, every other record, the index, the duplicates and the history are untouched, and the updated record is returned |
| Commands.VerifyPreservesValid | src-tauri/src/lib.rs:520-523 | verification keeps the catalog invariant |
| Commands.VerifyOnce | src-tauri/src/lib.rs:519-523 | after a successful verification a second one fails, changes nothing, and the first time stays |
| Commands.QueryAfterVerify | src-tauri/src/lib.rs:450-456 | a query for a record after it was verified records a verified result in its history entry |
| Commands.LatestQueryFirst | src-tauri/src/lib.rs:458-462 | after a query, the history returned holds 1 to 100 entries; it starts with that query's entry, followed by the older entries in order |
| Commands.GetHistory | src-tauri/src/lib.rs:538-540 | reading the history returns the stored history, newest first, and leaves the state as it was |
| Commands.ClearHistory | src-tauri/src/lib.rs:543-547 | the history becomes empty and the catalog is untouched |
| Commands.DeleteHistoryItem | src-tauri/src/lib.rs:550-554 | an entry survives exactly when it was present with another id, the history shrinks by exactly the number of entries with that id, the result is `History.Delete` of the history (which keeps the survivors in order), and the catalog is untouched |
| Session.Apply | src-tauri/src/lib.rs:579-586 | reading the history and a load from a missing folder change nothing; only a load changes the index, the stored ids or the duplicate list, and after a load the stored ids are those of the loading files; loads and verifications keep the history; clearing and deleting keep the catalog and never grow the history, and clearing empties it; a query puts its own entry first |
| Session.ApplyPreservesValid | src-tauri/src/lib.rs:368-554 | every command keeps the catalog invariant |
| Session.RunPreservesValid | src-tauri/src/lib.rs:368-554 | any sequence of commands keeps the catalog invariant |
| Session.ApplyKeepsBound | src-tauri/src/lib.rs:458-462 | no command takes a history within 100 entries beyond 100 |
| Session.RunKeepsBound | src-tauri/src/lib.rs:491-495 | any sequence of commands keeps the history within 100 entries, and one ending in a query leaves it non-empty |
| Session.ApplyKeepsVerified | src-tauri/src/lib.rs:519-523 | no command other than a load unverifies a record or changes its verification time |
| Session.RunKeepsVerified | src-tauri/src/lib.rs:431-554 | a sequence of commands without loads never unverifies a record |
| Session.ReloadKeepsVerified | src-tauri/src/lib.rs:196-202 | reloading from the persisted records keeps a verified record verified, with its time, as long as its id is still in a loading file |
| Session.ApplyKeepsRecords | src-tauri/src/lib.rs:431-554 | no command other than a load removes a record, changes its columns or link, lowers its query count, or changes the index |

## Left out

- File reading and decoding, and the CSV and Excel parsers. This covers
  the UTF-8/GBK/GB18030 fallback and the `csv` and `calamine` readers. A
  file arrives as the table its reader produced, or as a failure. The
  delimiter choice is modelled, but not how the reader splits records with
  it.
- The CSV reader's own record errors. Rows the reader rejects are skipped
  by the loader, which here means they are absent from the table.
- JSON persistence (`save_records`, `load_records`, `save_history`,
  `load_history`) and the data directory. The persisted records are an
  input map and the persisted history is the start-up input. Saving has no
  effect on the state. `ReloadKeepsVerified` assumes the saved map is the
  catalog's store, as a successful save makes it.
- The clock (`chrono`) and `uuid_simple`. The time and the history id are
  parameters, and no uniqueness of history ids is assumed.
- Mutex locking and the Tauri runtime. Commands are sequential state
  transitions.
- The user interface (the React components and `types.ts`), QR rendering
  and saving QR images. None of these are in `lib.rs`.
- Text.LowerAscii: the code lower-cases the extension with Unicode
  `to_lowercase`, but the model only lower-cases ASCII. No other character
  lower-cases to a letter of "csv", "txt", "xlsx" or "xls", so which loader
  is picked is the same either way.
- Records.DataRecord: `query_count`, `file_count` and `record_count` are
  unbounded naturals. The code uses `u32`, whose overflow after four
  billion queries or records is not modelled.
- `str::to_string_lossy` on file names: names are already strings here.
- `Records.LoadErrorMessage` and `Records.VerifyErrorMessage` carry the
  command's error texts. The model returns error values instead of
  strings.
