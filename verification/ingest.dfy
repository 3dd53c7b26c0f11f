/** Ingestion as lib.rs performs it: the per-row body shared by
    `load_csv_file`, `load_xlsx_file` and `load_xls_file`, the delimiter
    sniffing of the CSV loader, and the fold of `load_data_folder` over the
    entries of a folder. File reading and the CSV/Excel parsers are outside
    the model: a file arrives as the table of cell strings its parser
    produced, header row included, or as a failure to read it. */
module Ingest {
  import opened Common
  import opened Text
  import opened Records

  /** The state a load rebuilds: records by id (`data_store`), column value
      to record id (`value_to_id`), and the ids met more than once
      (`duplicate_keys`). */
  datatype Catalog = Catalog(
    store: map<string, DataRecord>,
    index: map<string, string>,
    duplicates: seq<string>)

  const EmptyCatalog := Catalog(map[], map[], [])

  // ---------------------------------------------------------------------
  // Delimiter sniffing
  // ---------------------------------------------------------------------

  /** Tab if the first line has a tab, else semicolon if it has one, else
      comma. */
  function ChooseDelimiter(firstLine: string): (d: char)
    ensures d == '\t' <==> '\t' in firstLine
    ensures d == ';' <==> '\t' !in firstLine && ';' in firstLine
    ensures d == ',' <==> '\t' !in firstLine && ';' !in firstLine
  {
    if '\t' in firstLine then '\t' else if ';' in firstLine then ';' else ','
  }

  /** The delimiter the CSV loader hands to the reader for a decoded file. */
  function DelimiterFor(content: string): char {
    ChooseDelimiter(FirstLine(content))
  }

  /** Only the first line decides the delimiter: what follows the first
      line feed, tabs and semicolons included, has no say. */
  lemma DelimiterIgnoresLaterLines(line: string, rest: string)
    requires '\n' !in line
    ensures DelimiterFor(line + "\n" + rest) == ChooseDelimiter(line)
  {
    var content := line + "\n" + rest;
    var r := FirstLine(content);
    assert content[|line|] == '\n';
    assert '\n' in content;
    assert |r| <= |line|;
    assert r == line[..|r|];
    if content[|r|] != '\n' {
      assert content[|r| + 1] == '\n';
      assert |r| + 1 == |line|;
      assert line == r + ['\r'];
    } else {
      assert |r| == |line|;
    }
  }

  // ---------------------------------------------------------------------
  // One row
  // ---------------------------------------------------------------------

  /** Every cell trimmed, in order (the `all_columns` of a new record). */
  function TrimAll(row: seq<string>): (cols: seq<string>)
    ensures |cols| == |row|
    ensures forall j :: 0 <= j < |row| ==> cols[j] == Trim(row[j])
  {
    seq(|row|, j requires 0 <= j < |row| => Trim(row[j]))
  }

  /** The id a row is stored under: its trimmed first cell, provided the
      row has at least two cells and that cell is not blank. */
  function RowId(row: seq<string>): (r: Option<string>)
    ensures r.Some? <==> |row| >= 2 && !AllWhitespace(row[0])
    ensures r.Some? ==> r.value == Trim(row[0]) && r.value != ""
  {
    if |row| >= 2 then
      TrimEmptyIffBlank(row[0]);
      if Trim(row[0]) != "" then Some(Trim(row[0])) else None
    else None
  }

  /** The record a row with a fresh id becomes: counters and verification
      state come from the saved record with the same id, if any. */
  function NewRecord(cols: seq<string>, saved: map<string, DataRecord>): DataRecord
    requires |cols| >= 2
  {
    var id := cols[0];
    if id in saved then
      DataRecord(id, cols[1], cols, saved[id].query_count, saved[id].is_verified, saved[id].verify_time)
    else
      DataRecord(id, cols[1], cols, 0, false, None)
  }

  /** `rec` is what the loaders build from `row` given the saved records. */
  ghost predicate BuiltFrom(rec: DataRecord, row: seq<string>, saved: map<string, DataRecord>)
    requires |row| >= 2
  {
    && rec.id == Trim(row[0])
    && rec.link == Trim(row[1])
    && |rec.all_columns| == |row|
    && (forall j :: 0 <= j < |row| ==> rec.all_columns[j] == Trim(row[j]))
    && (rec.id in saved ==>
          && rec.query_count == saved[rec.id].query_count
          && rec.is_verified == saved[rec.id].is_verified
          && rec.verify_time == saved[rec.id].verify_time)
    && (rec.id !in saved ==> rec.query_count == 0 && !rec.is_verified && rec.verify_time == None)
  }

  /** Writes `id` under every non-empty value of `cols`, overwriting what
      the index held for that value. */
  function IndexValues(index: map<string, string>, cols: seq<string>, id: string): (r: map<string, string>)
    ensures forall v :: v in r <==> v in index || (v in cols && v != "")
    ensures forall v :: v in r ==> r[v] == (if v in cols && v != "" then id else index[v])
    decreases |cols|
  {
    if |cols| == 0 then index
    else
      var r := IndexValues(if cols[0] != "" then index[cols[0] := id] else index, cols[1..], id);
      assert forall v :: v in cols <==> v == cols[0] || v in cols[1..];
      r
  }

  /** The record a row with a fresh id becomes is built from that row. */
  lemma NewRecordBuilt(row: seq<string>, saved: map<string, DataRecord>)
    requires RowId(row).Some?
    ensures var rec := NewRecord(TrimAll(row), saved);
      && BuiltFrom(rec, row, saved)
      && WellFormed(rec, RowId(row).value)
      && rec.all_columns == TrimAll(row)
  {
  }

  /** `rec` stored under the fresh id `id`, each of its non-empty values
      indexed to `id` (a later value overrides an earlier entry). */
  function Insert(c: Catalog, id: string, rec: DataRecord): (r: Catalog)
    ensures r.duplicates == c.duplicates
    ensures r.store.Keys == c.store.Keys + {id}
    ensures r.store[id] == rec
    ensures forall k :: k in c.store && k != id ==> r.store[k] == c.store[k]
    ensures forall v :: v in r.index <==> v in c.index || (v in rec.all_columns && v != "")
    ensures forall v :: v in r.index ==>
      r.index[v] == if v in rec.all_columns && v != "" then id else c.index[v]
  {
    Catalog(c.store[id := rec], IndexValues(c.index, rec.all_columns, id), c.duplicates)
  }

  /** The per-row body of the three loaders: returns the new catalog and
      how many records the row added (0 or 1). */
  function IngestRow(c: Catalog, saved: map<string, DataRecord>, row: seq<string>): (r: (Catalog, nat))
    // too short or blank id: nothing happens
    ensures RowId(row).None? ==> r == (c, 0)
    // an id already stored: only the duplicate list may change
    ensures RowId(row).Some? && RowId(row).value in c.store ==>
      && r.1 == 0
      && r.0.store == c.store
      && r.0.index == c.index
      && c.duplicates <= r.0.duplicates
      && (forall d :: d in r.0.duplicates <==> d in c.duplicates || d == RowId(row).value)
      && (NoDup(c.duplicates) ==> NoDup(r.0.duplicates))
    // a fresh id: exactly that record is added and its values indexed
    ensures RowId(row).Some? && RowId(row).value !in c.store ==>
      var id := RowId(row).value;
      && r.1 == 1
      && r.0.duplicates == c.duplicates
      && r.0.store.Keys == c.store.Keys + {id}
      && (forall k :: k in c.store ==> r.0.store[k] == c.store[k])
      && BuiltFrom(r.0.store[id], row, saved)
      && (forall v :: v in r.0.index <==> v in c.index || (v in TrimAll(row) && v != ""))
      && (forall v :: v in r.0.index ==>
            r.0.index[v] == if v in TrimAll(row) && v != "" then id else c.index[v])
  {
    match RowId(row)
    case None => (c, 0)
    case Some(id) =>
      if id in c.store then
        if id in c.duplicates then (c, 0)
        else (c.(duplicates := c.duplicates + [id]), 0)
      else
        NewRecordBuilt(row, saved);
        (Insert(c, id, NewRecord(TrimAll(row), saved)), 1)
  }

  // ---------------------------------------------------------------------
  // Many rows
  // ---------------------------------------------------------------------

  /** The rows of one file, in order. */
  function IngestRows(c: Catalog, saved: map<string, DataRecord>, rows: seq<seq<string>>): (r: (Catalog, nat))
    ensures c.store.Keys <= r.0.store.Keys
    ensures forall k :: k in c.store ==> r.0.store[k] == c.store[k]
    ensures |r.0.store| == |c.store| + r.1
    ensures c.index.Keys <= r.0.index.Keys
    ensures c.duplicates <= r.0.duplicates
    decreases |rows|
  {
    if |rows| == 0 then (c, 0)
    else
      var first := IngestRow(c, saved, rows[0]);
      var rest := IngestRows(first.0, saved, rows[1..]);
      (rest.0, first.1 + rest.1)
  }

  /** Every record a run of rows adds carries the counters and the
      verification state of the saved record with its id, or fresh ones
      when there is none. */
  lemma {:induction false} IngestRowsRestores(c: Catalog, saved: map<string, DataRecord>, rows: seq<seq<string>>, k: string)
    requires k in IngestRows(c, saved, rows).0.store && k !in c.store
    ensures var rec := IngestRows(c, saved, rows).0.store[k];
      && rec.id == k
      && (k in saved ==>
            && rec.query_count == saved[k].query_count
            && rec.is_verified == saved[k].is_verified
            && rec.verify_time == saved[k].verify_time)
      && (k !in saved ==> rec.query_count == 0 && !rec.is_verified && rec.verify_time.None?)
    decreases |rows|
  {
    if |rows| > 0 {
      var c1 := IngestRow(c, saved, rows[0]).0;
      if k in c1.store {
        assert RowId(rows[0]).Some? && RowId(rows[0]).value == k;
      } else {
        IngestRowsRestores(c1, saved, rows[1..], k);
      }
    }
  }

  /** Ingesting `a + b` is ingesting `a` and then `b`. */
  lemma {:induction false} IngestRowsAppend(c: Catalog, saved: map<string, DataRecord>, a: seq<seq<string>>, b: seq<seq<string>>)
    ensures IngestRows(c, saved, a + b).0 == IngestRows(IngestRows(c, saved, a).0, saved, b).0
    ensures IngestRows(c, saved, a + b).1 == IngestRows(c, saved, a).1 + IngestRows(IngestRows(c, saved, a).0, saved, b).1
    decreases |a|
  {
    if |a| == 0 {
      assert a + b == b;
    } else {
      var first := IngestRow(c, saved, a[0]);
      assert (a + b)[0] == a[0];
      assert (a + b)[1..] == a[1..] + b;
      IngestRowsAppend(first.0, saved, a[1..], b);
    }
  }

  /** The ids the rows would be stored under. */
  function IdsOf(rows: seq<seq<string>>): set<string>
    decreases |rows|
  {
    if |rows| == 0 then {}
    else (match RowId(rows[0]) case Some(id) => {id} case None => {}) + IdsOf(rows[1..])
  }

  lemma {:induction false} IdsOfAppend(a: seq<seq<string>>, b: seq<seq<string>>)
    ensures IdsOf(a + b) == IdsOf(a) + IdsOf(b)
    decreases |a|
  {
    if |a| == 0 {
      assert a + b == b;
    } else {
      assert (a + b)[0] == a[0];
      assert (a + b)[1..] == a[1..] + b;
      IdsOfAppend(a[1..], b);
    }
  }

  /** After ingestion the store holds exactly the earlier ids and the ids of
      the rows. */
  lemma {:induction false} IngestRowsKeys(c: Catalog, saved: map<string, DataRecord>, rows: seq<seq<string>>)
    ensures IngestRows(c, saved, rows).0.store.Keys == c.store.Keys + IdsOf(rows)
    decreases |rows|
  {
    if |rows| > 0 {
      IngestRowsKeys(IngestRow(c, saved, rows[0]).0, saved, rows[1..]);
    }
  }

  /** The number of records ingestion reports is the number of distinct new
      ids among the rows. */
  lemma IngestRowsCount(c: Catalog, saved: map<string, DataRecord>, rows: seq<seq<string>>)
    ensures IngestRows(c, saved, rows).1 == |IdsOf(rows) - c.store.Keys|
  {
    var r := IngestRows(c, saved, rows);
    IngestRowsKeys(c, saved, rows);
    var added := IdsOf(rows) - c.store.Keys;
    assert r.0.store.Keys == c.store.Keys + added;
    assert c.store.Keys !! added;
    assert |r.0.store.Keys| == |c.store.Keys| + |added|;
    assert |r.0.store| == |r.0.store.Keys| && |c.store| == |c.store.Keys|;
  }

  /** How many rows would be stored under `id`. */
  function Occurrences(rows: seq<seq<string>>, id: string): nat
    decreases |rows|
  {
    if |rows| == 0 then 0
    else (if RowId(rows[0]) == Some(id) then 1 else 0) + Occurrences(rows[1..], id)
  }

  /** An id ends up in the duplicate list exactly when it was there before,
      or a row repeats an id already stored, or two rows share it. */
  lemma {:induction false} IngestRowsDuplicates(c: Catalog, saved: map<string, DataRecord>, rows: seq<seq<string>>, d: string)
    ensures var r := IngestRows(c, saved, rows).0;
      d in r.duplicates <==>
        d in c.duplicates || (d in c.store && Occurrences(rows, d) >= 1) || Occurrences(rows, d) >= 2
    decreases |rows|
  {
    if |rows| > 0 {
      var c1 := IngestRow(c, saved, rows[0]).0;
      IngestRowsDuplicates(c1, saved, rows[1..], d);
    }
  }

  /** Row `i` is the one that stores its id: the id is new to `known` and
      to every earlier row. */
  ghost predicate Inserts(rows: seq<seq<string>>, i: int, known: set<string>)
    requires 0 <= i < |rows|
  {
    && RowId(rows[i]).Some?
    && RowId(rows[i]).value !in known
    && forall j :: 0 <= j < i ==> RowId(rows[j]) != RowId(rows[i])
  }

  /** The stored ids after the first row, as `Inserts` sees them. */
  lemma IngestRowKnown(c: Catalog, saved: map<string, DataRecord>, row: seq<string>)
    ensures IngestRow(c, saved, row).0.store.Keys ==
      c.store.Keys + (if RowId(row).Some? then {RowId(row).value} else {})
  {
  }

  /** Whether row `j` of the tail stores its id is whether row `j + 1` of
      the whole does. */
  lemma InsertsShift(c: Catalog, saved: map<string, DataRecord>, rows: seq<seq<string>>, j: int)
    requires 1 <= j < |rows|
    ensures Inserts(rows[1..], j - 1, IngestRow(c, saved, rows[0]).0.store.Keys) <==> Inserts(rows, j, c.store.Keys)
  {
    IngestRowKnown(c, saved, rows[0]);
    if Inserts(rows, j, c.store.Keys) {
      InsertsShiftDown(rows, j, c.store.Keys);
    }
    if Inserts(rows[1..], j - 1, IngestRow(c, saved, rows[0]).0.store.Keys) {
      InsertsShiftUp(rows, j, c.store.Keys);
    }
  }

  lemma InsertsShiftDown(rows: seq<seq<string>>, j: int, known: set<string>)
    requires 1 <= j < |rows|
    requires Inserts(rows, j, known)
    ensures Inserts(rows[1..], j - 1, known + (if RowId(rows[0]).Some? then {RowId(rows[0]).value} else {}))
  {
    var tail := rows[1..];
    assert tail[j - 1] == rows[j];
    forall k | 0 <= k < j - 1 ensures RowId(tail[k]) != RowId(tail[j - 1]) {
      assert tail[k] == rows[k + 1];
    }
  }

  lemma InsertsShiftUp(rows: seq<seq<string>>, j: int, known: set<string>)
    requires 1 <= j < |rows|
    requires Inserts(rows[1..], j - 1, known + (if RowId(rows[0]).Some? then {RowId(rows[0]).value} else {}))
    ensures Inserts(rows, j, known)
  {
    var tail := rows[1..];
    assert tail[j - 1] == rows[j];
    forall k | 0 <= k < j ensures RowId(rows[k]) != RowId(rows[j]) {
      if k > 0 { assert rows[k] == tail[k - 1]; }
    }
  }

  /** A value no storing row contains keeps whatever the index held for
      it. */
  lemma {:induction false} IndexUntouched(c: Catalog, saved: map<string, DataRecord>, rows: seq<seq<string>>, v: string)
    requires forall j :: 0 <= j < |rows| && Inserts(rows, j, c.store.Keys) ==> v !in TrimAll(rows[j])
    ensures var r := IngestRows(c, saved, rows).0;
      (v in r.index <==> v in c.index) && (v in c.index ==> r.index[v] == c.index[v])
    decreases |rows|
  {
    if |rows| > 0 {
      var c1 := IngestRow(c, saved, rows[0]).0;
      forall j | 0 <= j < |rows| - 1 && Inserts(rows[1..], j, c1.store.Keys)
        ensures v !in TrimAll(rows[1..][j])
      {
        InsertsShift(c, saved, rows, j + 1);
      }
      IndexUntouched(c1, saved, rows[1..], v);
    }
  }

  /** Proof step: one unfolding of `IngestRows`, stated on its own so that
      the callers need not unfold it against larger terms. */
  lemma IngestRowsStep(c: Catalog, saved: map<string, DataRecord>, rows: seq<seq<string>>)
    requires |rows| > 0
    ensures IngestRows(c, saved, rows).0 == IngestRows(IngestRow(c, saved, rows[0]).0, saved, rows[1..]).0
  {
  }

  /** Every storing row after the first misses `v`: the tail leaves the
      index entry the first row wrote. */
  lemma TailMisses(c: Catalog, saved: map<string, DataRecord>, rows: seq<seq<string>>, v: string, i: int)
    requires 0 <= i < |rows|
    requires forall j :: i < j < |rows| && Inserts(rows, j, c.store.Keys) ==> v !in TrimAll(rows[j])
    ensures var c1 := IngestRow(c, saved, rows[0]).0;
      forall j :: i - 1 < j < |rows| - 1 && Inserts(rows[1..], j, c1.store.Keys) ==> v !in TrimAll(rows[1..][j])
  {
    var c1 := IngestRow(c, saved, rows[0]).0;
    forall j | i - 1 < j < |rows| - 1 && Inserts(rows[1..], j, c1.store.Keys)
      ensures v !in TrimAll(rows[1..][j])
    {
      InsertsShift(c, saved, rows, j + 1);
      assert rows[1..][j] == rows[j + 1];
    }
  }

  /** A value shared by several records is indexed under the LAST record,
      in row order, that contains it: `HashMap::insert` overwrites. */
  lemma {:induction false} IndexLastWriter(c: Catalog, saved: map<string, DataRecord>, rows: seq<seq<string>>, v: string, i: int)
    requires 0 <= i < |rows| && Inserts(rows, i, c.store.Keys)
    requires v != "" && v in TrimAll(rows[i])
    requires forall j :: i < j < |rows| && Inserts(rows, j, c.store.Keys) ==> v !in TrimAll(rows[j])
    ensures var r := IngestRows(c, saved, rows).0;
      v in r.index && r.index[v] == RowId(rows[i]).value
    decreases |rows|
  {
    var c1 := IngestRow(c, saved, rows[0]).0;
    IngestRowsStep(c, saved, rows);
    TailMisses(c, saved, rows, v, i);
    if i == 0 {
      assert v in c1.index && c1.index[v] == RowId(rows[0]).value;
      IndexUntouched(c1, saved, rows[1..], v);
    } else {
      InsertsShift(c, saved, rows, i);
      assert rows[1..][i - 1] == rows[i];
      IndexLastWriter(c1, saved, rows[1..], v, i - 1);
    }
  }

  // ---------------------------------------------------------------------
  // Catalog invariant
  // ---------------------------------------------------------------------

  /** A stored record sits under its own id, which is its non-empty first
      column, and its link is its second column. */
  ghost predicate WellFormed(rec: DataRecord, id: string) {
    && rec.id == id
    && id != ""
    && |rec.all_columns| >= 2
    && rec.all_columns[0] == id
    && rec.link == rec.all_columns[1]
  }

  /** Every index entry is a non-empty value of the record it names. */
  ghost predicate IndexSound(c: Catalog) {
    forall v :: v in c.index ==>
      v != "" && c.index[v] in c.store && v in c.store[c.index[v]].all_columns
  }

  /** Every non-empty value of a stored record is indexed. */
  ghost predicate IndexComplete(c: Catalog) {
    forall id, j :: id in c.store && 0 <= j < |c.store[id].all_columns| && c.store[id].all_columns[j] != "" ==>
      c.store[id].all_columns[j] in c.index
  }

  ghost predicate Valid(c: Catalog) {
    && (forall id :: id in c.store ==> WellFormed(c.store[id], id))
    && IndexSound(c)
    && IndexComplete(c)
    && (forall d :: d in c.duplicates ==> d in c.store)
    && NoDup(c.duplicates)
  }

  lemma EmptyCatalogValid()
    ensures Valid(EmptyCatalog)
  {
  }

  lemma InsertIndexSound(c: Catalog, id: string, rec: DataRecord)
    requires IndexSound(c)
    requires id !in c.store
    ensures IndexSound(Insert(c, id, rec))
  {
    var store := Insert(c, id, rec).store;
    var index := Insert(c, id, rec).index;
    forall v | v in index
      ensures v != "" && index[v] in store && v in store[index[v]].all_columns
    {
      if !(v in rec.all_columns && v != "") {
        assert index[v] == c.index[v];
      }
    }
  }

  lemma InsertIndexComplete(c: Catalog, id: string, rec: DataRecord)
    requires IndexComplete(c)
    ensures IndexComplete(Insert(c, id, rec))
  {
    var store := Insert(c, id, rec).store;
    var index := Insert(c, id, rec).index;
    forall k, j | k in store && 0 <= j < |store[k].all_columns| && store[k].all_columns[j] != ""
      ensures store[k].all_columns[j] in index
    {
      if k != id {
        assert store[k] == c.store[k];
        assert store[k].all_columns[j] in c.index;
      } else {
        assert store[k].all_columns[j] in rec.all_columns;
      }
    }
  }

  /** Adding a well-formed record under a fresh id, with its values
      indexed, keeps the catalog valid. */
  lemma InsertValid(c: Catalog, id: string, rec: DataRecord)
    requires Valid(c)
    requires id !in c.store
    requires WellFormed(rec, id)
    ensures Valid(Insert(c, id, rec))
  {
    InsertIndexSound(c, id, rec);
    InsertIndexComplete(c, id, rec);
    InsertWellFormed(c, id, rec);
  }

  lemma InsertWellFormed(c: Catalog, id: string, rec: DataRecord)
    requires forall k :: k in c.store ==> WellFormed(c.store[k], k)
    requires WellFormed(rec, id)
    ensures forall k :: k in Insert(c, id, rec).store ==> WellFormed(Insert(c, id, rec).store[k], k)
  {
    var r := Insert(c, id, rec);
    forall k | k in r.store ensures WellFormed(r.store[k], k) {
      if k != id { assert r.store[k] == c.store[k]; }
    }
  }

  lemma IngestRowValid(c: Catalog, saved: map<string, DataRecord>, row: seq<string>)
    requires Valid(c)
    ensures Valid(IngestRow(c, saved, row).0)
  {
    if RowId(row).Some? && RowId(row).value !in c.store {
      var id := RowId(row).value;
      var rec := NewRecord(TrimAll(row), saved);
      NewRecordBuilt(row, saved);
      InsertValid(c, id, rec);
      ValidCongruent(IngestRow(c, saved, row).0, Insert(c, id, rec));
    }
  }

  lemma {:induction false} IngestRowsValid(c: Catalog, saved: map<string, DataRecord>, rows: seq<seq<string>>)
    requires Valid(c)
    ensures Valid(IngestRows(c, saved, rows).0)
    decreases |rows|
  {
    if |rows| > 0 {
      IngestRowValid(c, saved, rows[0]);
      IngestRowsValid(IngestRow(c, saved, rows[0]).0, saved, rows[1..]);
    }
  }

  /** Proof step: `Valid` carried across an equality of catalogs. Without
      it the solver unfolds `Valid` against both sides of the equality,
      which costs more than the verifier's resource budget. */
  lemma ValidCongruent(x: Catalog, y: Catalog)
    requires x == y && Valid(y)
    ensures Valid(x)
  {
  }

  /** The catalog with the record stored under `id` replaced by `rec`. */
  function Replace(c: Catalog, id: string, rec: DataRecord): Catalog {
    c.(store := c.store[id := rec])
  }

  /** Replacing a stored record by one with the same id, link and columns
      (what a query or a verification does) keeps the catalog valid. */
  lemma UpdateValid(c: Catalog, id: string, rec: DataRecord)
    requires Valid(c)
    requires id in c.store
    requires rec.id == id && rec.link == c.store[id].link && rec.all_columns == c.store[id].all_columns
    ensures Valid(Replace(c, id, rec))
  {
    UpdateParts(c, id, rec);
  }

  lemma UpdateParts(c: Catalog, id: string, rec: DataRecord)
    requires Valid(c)
    requires id in c.store
    requires rec.id == id && rec.link == c.store[id].link && rec.all_columns == c.store[id].all_columns
    ensures var r := c.(store := c.store[id := rec]);
      && (forall k :: k in r.store ==> WellFormed(r.store[k], k))
      && IndexSound(r) && IndexComplete(r)
      && (forall d :: d in r.duplicates ==> d in r.store)
      && NoDup(r.duplicates)
  {
    UpdateWellFormed(c, id, rec);
    UpdateIndexSound(c, id, rec);
    UpdateIndexComplete(c, id, rec);
  }

  lemma UpdateWellFormed(c: Catalog, id: string, rec: DataRecord)
    requires forall k :: k in c.store ==> WellFormed(c.store[k], k)
    requires id in c.store
    requires rec.id == id && rec.link == c.store[id].link && rec.all_columns == c.store[id].all_columns
    ensures var store := c.store[id := rec];
      forall k :: k in store ==> WellFormed(store[k], k)
  {
    var store := c.store[id := rec];
    forall k | k in store ensures WellFormed(store[k], k) {
      if k != id { assert store[k] == c.store[k]; }
    }
  }

  lemma UpdateIndexSound(c: Catalog, id: string, rec: DataRecord)
    requires IndexSound(c)
    requires id in c.store && rec.all_columns == c.store[id].all_columns
    ensures IndexSound(c.(store := c.store[id := rec]))
  {
    var r := c.(store := c.store[id := rec]);
    forall v | v in r.index
      ensures v != "" && r.index[v] in r.store && v in r.store[r.index[v]].all_columns
    {
      var k := c.index[v];
      assert k in c.store;
      assert r.store[k].all_columns == c.store[k].all_columns;
    }
  }

  lemma UpdateIndexComplete(c: Catalog, id: string, rec: DataRecord)
    requires IndexComplete(c)
    requires id in c.store && rec.all_columns == c.store[id].all_columns
    ensures IndexComplete(c.(store := c.store[id := rec]))
  {
    var r := c.(store := c.store[id := rec]);
    forall k, j | k in r.store && 0 <= j < |r.store[k].all_columns| && r.store[k].all_columns[j] != ""
      ensures r.store[k].all_columns[j] in r.index
    {
      assert r.store[k].all_columns == c.store[k].all_columns;
      assert c.store[k].all_columns[j] in c.index;
    }
  }
}
