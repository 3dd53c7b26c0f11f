/** The Tauri commands of lib.rs as transitions of the application state:
    `load_data_folder`, `query_data`, `verify_record`, `get_history`,
    `clear_history` and `delete_history_item`. The clock reading (`now`)
    and the generated history id are parameters; the persistence calls
    (`save_records`, `save_history`) have no effect on the state and are
    left out. */
module Commands {
  import opened Common
  import opened Text
  import opened Records
  import opened History
  import opened Ingest
  import opened Folder

  /** `AppState`: the catalog (`data_store`, `value_to_id`,
      `duplicate_keys`) and `history_store`. */
  datatype AppState = AppState(catalog: Catalog, history: seq<HistoryRecord>)

  /** Start-up (`run`): no data loaded, the history as it was persisted. */
  function Init(savedHistory: seq<HistoryRecord>): (st: AppState)
    ensures Valid(st.catalog) && st.catalog.store == map[]
    ensures st.history == savedHistory
  {
    EmptyCatalogValid();
    AppState(EmptyCatalog, savedHistory)
  }

  // ---------------------------------------------------------------------
  // load_data_folder
  // ---------------------------------------------------------------------

  /** `isDir` is `path.exists() && path.is_dir()`; `es` are the entries
      `read_dir` yields (none when it fails) and `saved` the persisted
      records. A missing folder changes nothing; otherwise the catalog is
      rebuilt from scratch, and it stays rebuilt even when no file loaded
      and the command reports an error. The frontend receives an error as
      `LoadErrorMessage` of it. */
  function LoadDataFolder(st: AppState, isDir: bool, es: seq<DirEntry>, saved: map<string, DataRecord>)
    : (r: (AppState, Result<LoadResult, LoadError>))
    ensures !isDir ==> r.0 == st && r.1 == Err(FolderMissing)
    ensures isDir ==>
      && r.0.history == st.history
      && Valid(r.0.catalog)
      && r.0.catalog.store.Keys == FileIds(es)
      && (r.1.Err? <==> CountLoaded(es) == 0)
    ensures isDir && r.1.Err? ==> r.1.error == NoDataFiles && r.0.catalog == EmptyCatalog
    ensures r.1.Ok? ==>
      && r.1.value.file_count == CountLoaded(es)
      && r.1.value.record_count == |FileIds(es)|
      && r.1.value.skipped_files == SkipNotes(es)
  {
    if !isDir then (st, Err(FolderMissing))
    else
      var f := FolderFold(EmptyCatalog, saved, es);
      FreshLoad(saved, es);
      var st' := st.(catalog := f.catalog);
      if f.files == 0 then (st', Err(NoDataFiles))
      else (st', Ok(LoadResult(f.files, f.records, f.skipped)))
  }

  /** What a load from an empty catalog builds: a valid catalog holding
      exactly the ids of the rows of the files that load, one record per
      distinct id. */
  lemma FreshLoad(saved: map<string, DataRecord>, es: seq<DirEntry>)
    ensures var f := FolderFold(EmptyCatalog, saved, es);
      && Valid(f.catalog)
      && f.catalog.store.Keys == FileIds(es)
      && f.records == |FileIds(es)|
  {
    FreshLoadValid(saved, es);
    FreshLoadIds(saved, es);
  }

  lemma FreshLoadValid(saved: map<string, DataRecord>, es: seq<DirEntry>)
    ensures Valid(FolderFold(EmptyCatalog, saved, es).catalog)
  {
    FolderFoldIngests(EmptyCatalog, saved, es);
    EmptyCatalogValid();
    IngestRowsValid(EmptyCatalog, saved, LoadedRows(es));
  }

  lemma FreshLoadIds(saved: map<string, DataRecord>, es: seq<DirEntry>)
    ensures FolderFold(EmptyCatalog, saved, es).catalog.store.Keys == FileIds(es)
    ensures FolderFold(EmptyCatalog, saved, es).records == |FileIds(es)|
  {
    var rows := LoadedRows(es);
    FolderFoldIngests(EmptyCatalog, saved, es);
    IngestRowsKeys(EmptyCatalog, saved, rows);
    IngestRowsCount(EmptyCatalog, saved, rows);
    assert EmptyCatalog.store.Keys == {};
    assert IdsOf(rows) - {} == IdsOf(rows);
  }

  /** The order `read_dir` happens to list the files in changes neither the
      outcome of a load nor its counts nor the set of stored ids. */
  lemma LoadOrderIrrelevant(st: AppState, es1: seq<DirEntry>, es2: seq<DirEntry>, saved: map<string, DataRecord>)
    requires multiset(es1) == multiset(es2)
    ensures var r1 := LoadDataFolder(st, true, es1, saved);
            var r2 := LoadDataFolder(st, true, es2, saved);
      && r1.1.Ok? == r2.1.Ok?
      && r1.0.catalog.store.Keys == r2.0.catalog.store.Keys
      && (r1.1.Ok? ==>
            && r1.1.value.file_count == r2.1.value.file_count
            && r1.1.value.record_count == r2.1.value.record_count
            && |r1.1.value.skipped_files| == |r2.1.value.skipped_files|)
  {
    FolderOrderIrrelevant(es1, es2);
  }

  /** A reload restores each record's query count and verification from
      the saved record with the same id; a record with no saved
      counterpart starts unqueried and unverified. */
  lemma LoadRestoresSaved(st: AppState, es: seq<DirEntry>, saved: map<string, DataRecord>, id: string)
    requires id in LoadDataFolder(st, true, es, saved).0.catalog.store
    ensures var rec := LoadDataFolder(st, true, es, saved).0.catalog.store[id];
      && (id in saved ==>
            && rec.query_count == saved[id].query_count
            && rec.is_verified == saved[id].is_verified
            && rec.verify_time == saved[id].verify_time)
      && (id !in saved ==> rec.query_count == 0 && !rec.is_verified && rec.verify_time.None?)
  {
    FolderFoldIngests(EmptyCatalog, saved, es);
    IngestRowsRestores(EmptyCatalog, saved, LoadedRows(es), id);
  }

  /** An empty folder (or one `read_dir` cannot list) is an error, and
      afterwards no query finds anything. */
  lemma EmptyFolderFindsNothing(st: AppState, saved: map<string, DataRecord>, key: string, now: string, hid: string)
    ensures var r := LoadDataFolder(st, true, [], saved);
      && r.1 == Err(NoDataFiles)
      && !QueryData(r.0, key, now, hid).1.found
  {
  }

  // ---------------------------------------------------------------------
  // query_data
  // ---------------------------------------------------------------------

  /** `Iterator::position`: the first index holding `x`. */
  function FirstPosition(s: seq<string>, x: string): (r: Option<nat>)
    ensures r.None? <==> x !in s
    ensures r.Some? ==> r.value < |s| && s[r.value] == x && x !in s[..r.value]
  {
    if |s| == 0 then None
    else if s[0] == x then Some(0)
    else
      match FirstPosition(s[1..], x)
      case None => None
      case Some(i) =>
        assert s[..i + 1] == [s[0]] + s[1..][..i];
        Some(i + 1)
  }

  /** The index names a stored record for `key`. */
  predicate Resolves(c: Catalog, key: string) {
    key in c.index && c.index[key] in c.store
  }

  /** One query: the record the index names for `key` gets its query count
      raised, and a history entry is pushed whether or not one is found. */
  function QueryData(st: AppState, key: string, now: string, hid: string): (r: (AppState, QueryResult))
    ensures Resolves(st.catalog, key) ==>
      var id := st.catalog.index[key];
      var before := st.catalog.store[id];
      && r.1.found
      && r.1.record.Some?
      && var rec := r.1.record.value;
      // exactly that record's count goes up by one
      && r.0.catalog.store.Keys == st.catalog.store.Keys
      && r.0.catalog.store[id] == rec
      && rec.query_count == before.query_count + 1
      && rec.id == before.id && rec.link == before.link && rec.all_columns == before.all_columns
      && rec.is_verified == before.is_verified && rec.verify_time == before.verify_time
      && (forall k :: k in st.catalog.store && k != id ==> r.0.catalog.store[k] == st.catalog.store[k])
      && r.0.catalog.index == st.catalog.index
      && r.0.catalog.duplicates == st.catalog.duplicates
      // the reported position is the first column equal to the key
      && (r.1.matched_column.None? <==> key !in rec.all_columns)
      && (r.1.matched_column.Some? ==>
            var j := r.1.matched_column.value;
            j < |rec.all_columns| && rec.all_columns[j] == key
            && forall k :: 0 <= k < j ==> rec.all_columns[k] != key)
      // duplicate means: the key is one of the repeated ids
      && (r.1.is_duplicate <==> key in st.catalog.duplicates)
      && r.0.history == Push(st.history, HistoryRecord(hid, now, key, Some(before.link), before.is_verified))
    ensures !Resolves(st.catalog, key) ==>
      && r.0.catalog == st.catalog
      && !r.1.found && r.1.record.None? && !r.1.is_duplicate && r.1.matched_column.None?
      && r.0.history == Push(st.history, HistoryRecord(hid, now, key, None, false))
  {
    var c := st.catalog;
    var isDuplicate := key in c.duplicates;
    if Resolves(c, key) then
      var id := c.index[key];
      var rec := c.store[id].(query_count := c.store[id].query_count + 1);
      var c' := Replace(c, id, rec);
      var entry := HistoryRecord(hid, now, key, Some(rec.link), rec.is_verified);
      (AppState(c', Push(st.history, entry)),
       QueryResult(true, Some(rec), isDuplicate, FirstPosition(rec.all_columns, key)))
    else
      var entry := HistoryRecord(hid, now, key, None, false);
      (st.(history := Push(st.history, entry)), QueryResult(false, None, false, None))
  }

  /** Proof step: the catalog after a query that finds a record, as a
      `Replace`, so that `QueryPreservesValid` can use `UpdateValid`. */
  lemma QueryCatalog(st: AppState, key: string, now: string, hid: string)
    requires Resolves(st.catalog, key)
    ensures var c := st.catalog;
      var id := c.index[key];
      QueryData(st, key, now, hid).0.catalog == Replace(c, id, c.store[id].(query_count := c.store[id].query_count + 1))
  {
  }

  lemma QueryPreservesValid(st: AppState, key: string, now: string, hid: string)
    requires Valid(st.catalog)
    ensures Valid(QueryData(st, key, now, hid).0.catalog)
  {
    var c := st.catalog;
    if Resolves(c, key) {
      var id := c.index[key];
      var rec := c.store[id].(query_count := c.store[id].query_count + 1);
      QueryCatalog(st, key, now, hid);
      UpdateValid(c, id, rec);
      ValidCongruent(QueryData(st, key, now, hid).0.catalog, Replace(c, id, rec));
    }
  }

  /** On a valid catalog a query finds a record exactly when the key is an
      indexed value, and then the key is one of that record's columns, so a
      position is always reported. */
  lemma QueryFoundIffIndexed(st: AppState, key: string, now: string, hid: string)
    requires Valid(st.catalog)
    ensures var q := QueryData(st, key, now, hid).1;
      && (q.found <==> key in st.catalog.index)
      && (q.found ==> q.matched_column.Some? && q.record.value.id == st.catalog.index[key])
  {
  }

  /** Every non-empty value of every stored record can be looked up. */
  lemma StoredValueIsFound(st: AppState, id: string, j: int, now: string, hid: string)
    requires Valid(st.catalog)
    requires id in st.catalog.store && 0 <= j < |st.catalog.store[id].all_columns|
    requires st.catalog.store[id].all_columns[j] != ""
    ensures QueryData(st, st.catalog.store[id].all_columns[j], now, hid).1.found
  {
  }

  /** A repeated id is always found, and flagged as a duplicate. */
  lemma DuplicateIdIsFound(st: AppState, key: string, now: string, hid: string)
    requires Valid(st.catalog)
    requires key in st.catalog.duplicates
    ensures QueryData(st, key, now, hid).1.found
    ensures QueryData(st, key, now, hid).1.is_duplicate
  {
    var id := key;
    var rec := st.catalog.store[id];
    assert WellFormed(rec, id);
    assert rec.all_columns[0] == key;
  }

  /** After a load, a value is found under the LAST record, in file and row
      order, that was stored with it. */
  lemma LoadThenQuery(st: AppState, es: seq<DirEntry>, saved: map<string, DataRecord>, v: string, i: int, now: string, hid: string)
    requires var rows := LoadedRows(es);
      && 0 <= i < |rows| && Inserts(rows, i, {})
      && v != "" && v in TrimAll(rows[i])
      && forall j :: i < j < |rows| && Inserts(rows, j, {}) ==> v !in TrimAll(rows[j])
    ensures var loaded := LoadDataFolder(st, true, es, saved).0;
      var q := QueryData(loaded, v, now, hid).1;
      q.found && q.record.value.id == RowId(LoadedRows(es)[i]).value
  {
    var rows := LoadedRows(es);
    FolderFoldIngests(EmptyCatalog, saved, es);
    IndexLastWriter(EmptyCatalog, saved, rows, v, i);
    var loaded := LoadDataFolder(st, true, es, saved).0;
    assert loaded.catalog == IngestRows(EmptyCatalog, saved, rows).0;
    QueryFoundIffIndexed(loaded, v, now, hid);
  }

  // ---------------------------------------------------------------------
  // verify_record
  // ---------------------------------------------------------------------

  /** Marks a record verified at `now`. An unknown id and an already
      verified record are both errors that change nothing; the frontend
      receives an error as `VerifyErrorMessage` of it. */
  function VerifyRecord(st: AppState, id: string, now: string): (r: (AppState, Result<DataRecord, VerifyError>))
    ensures id !in st.catalog.store ==> r.0 == st && r.1 == Err(RecordNotFound)
    ensures id in st.catalog.store && st.catalog.store[id].is_verified ==>
      r.0 == st && r.1 == Err(AlreadyVerified)
    ensures id in st.catalog.store && !st.catalog.store[id].is_verified ==>
      var before := st.catalog.store[id];
      && r.1.Ok?
      && var rec := r.1.value;
      && rec.is_verified && rec.verify_time == Some(now)
      && rec.id == before.id && rec.link == before.link && rec.all_columns == before.all_columns
      && rec.query_count == before.query_count
      && r.0.catalog.store.Keys == st.catalog.store.Keys
      && r.0.catalog.store[id] == rec
      && (forall k :: k in st.catalog.store && k != id ==> r.0.catalog.store[k] == st.catalog.store[k])
      && r.0.catalog.index == st.catalog.index
      && r.0.catalog.duplicates == st.catalog.duplicates
      && r.0.history == st.history
  {
    if id !in st.catalog.store then (st, Err(RecordNotFound))
    else
      var before := st.catalog.store[id];
      if before.is_verified then (st, Err(AlreadyVerified))
      else
        var rec := before.(is_verified := true, verify_time := Some(now));
        (st.(catalog := Replace(st.catalog, id, rec)), Ok(rec))
  }

  lemma VerifyPreservesValid(st: AppState, id: string, now: string)
    requires Valid(st.catalog)
    ensures Valid(VerifyRecord(st, id, now).0.catalog)
  {
    var c := st.catalog;
    if id in c.store && !c.store[id].is_verified {
      UpdateValid(c, id, c.store[id].(is_verified := true, verify_time := Some(now)));
    }
  }

  /** Verification is one-way: verifying a second time fails and keeps the
      first timestamp. */
  lemma VerifyOnce(st: AppState, id: string, t1: string, t2: string)
    requires VerifyRecord(st, id, t1).1.Ok?
    ensures var st1 := VerifyRecord(st, id, t1).0;
      && VerifyRecord(st1, id, t2) == (st1, Err(AlreadyVerified))
      && st1.catalog.store[id].verify_time == Some(t1)
  {
  }

  /** A query made after a successful verification records the record as
      verified in its history entry. */
  lemma QueryAfterVerify(st: AppState, id: string, t: string, key: string, now: string, hid: string)
    requires VerifyRecord(st, id, t).1.Ok?
    requires Resolves(st.catalog, key) && st.catalog.index[key] == id
    ensures var st1 := VerifyRecord(st, id, t).0;
      var st2 := QueryData(st1, key, now, hid).0;
      st2.history[0].is_verified && st2.history[0].query_result.Some?
  {
  }

  // ---------------------------------------------------------------------
  // get_history, clear_history, delete_history_item
  // ---------------------------------------------------------------------

  /** The history as stored, newest first; reading it changes nothing. */
  function GetHistory(st: AppState): (r: (AppState, seq<HistoryRecord>))
    ensures r.0 == st
    ensures r.1 == st.history
  {
    (st, st.history)
  }

  /** A query's entry is the first one `get_history` returns, and a query
      never leaves more than `Capacity` entries. */
  lemma LatestQueryFirst(st: AppState, key: string, now: string, hid: string)
    ensures var h := GetHistory(QueryData(st, key, now, hid).0).1;
      && 0 < |h| <= Capacity
      && h[0].id == hid && h[0].query_key == key && h[0].query_time == now
      && h[1..] == GetHistory(st).1[..|h| - 1]
  {
    var h := GetHistory(QueryData(st, key, now, hid).0).1;
    assert h[1..] == GetHistory(st).1[..|h| - 1];
  }

  /** Empties the history and touches nothing else. */
  function ClearHistory(st: AppState): (r: AppState)
    ensures r.history == [] && r.catalog == st.catalog
  {
    st.(history := [])
  }

  /** Drops every history entry with that id and touches nothing else; an
      unknown id is not an error. */
  function DeleteHistoryItem(st: AppState, id: string): (r: AppState)
    ensures r.catalog == st.catalog
    ensures forall e :: e in r.history <==> e in st.history && e.id != id
    ensures |r.history| + CountWithId(st.history, id) == |st.history|
    ensures r.history == Delete(st.history, id)
  {
    st.(history := Delete(st.history, id))
  }
}
