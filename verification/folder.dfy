/** `load_data_folder` (lib.rs:368-428) without the file system: the folder
    arrives as its directory entries in `read_dir` order, each with what
    its format's reader made of it. */
module Folder {
  import opened Common
  import opened Text
  import opened Records
  import opened Ingest

  /** What a reader produced for a file: its table of cell strings, header
      row included, or a failure to open or decode it. The readers fail
      before any row is looked at, so a failing file adds nothing. */
  datatype Parsed = Unreadable | Table(rows: seq<seq<string>>)

  datatype DirEntry = DirEntry(name: string, contents: Parsed)

  /** The three loaders. */
  datatype Format = Csv | Xlsx | Xls

  /** `name` ends in a dot and `ext`, ignoring ASCII case, with at least one
      character before that dot. */
  ghost predicate EndsWithExtension(name: string, ext: string) {
    && |name| >= |ext| + 2
    && name[|name| - |ext| - 1] == '.'
    && LowerAscii(name[|name| - |ext|..]) == ext
  }

  /** Which loader a directory entry goes to, by its lower-cased extension;
      anything else is passed over. */
  function FormatOf(name: string): (r: Option<Format>)
    ensures r == Some(Csv) <==> EndsWithExtension(name, "csv") || EndsWithExtension(name, "txt")
    ensures r == Some(Xlsx) <==> EndsWithExtension(name, "xlsx")
    ensures r == Some(Xls) <==> EndsWithExtension(name, "xls")
  {
    ExtensionMatches(name, "csv");
    ExtensionMatches(name, "txt");
    ExtensionMatches(name, "xlsx");
    ExtensionMatches(name, "xls");
    match Extension(name)
    case None => None
    case Some(ext) => Classify(LowerAscii(ext))
  }

  /** The loader for a lower-cased extension. */
  function Classify(e: string): (r: Option<Format>)
    ensures r == Some(Csv) <==> e == "csv" || e == "txt"
    ensures r == Some(Xlsx) <==> e == "xlsx"
    ensures r == Some(Xls) <==> e == "xls"
  {
    if e == "csv" || e == "txt" then Some(Csv)
    else if e == "xlsx" then Some(Xlsx)
    else if e == "xls" then Some(Xls)
    else None
  }

  /** For a dot-free lower-case `ext`, the extension of `name` lower-cases to
      `ext` exactly when `name` ends with a dot and `ext`. */
  lemma ExtensionMatches(name: string, ext: string)
    requires '.' !in ext
    ensures (Extension(name).Some? && LowerAscii(Extension(name).value) == ext) <==> EndsWithExtension(name, ext)
  {
    if Extension(name).Some? && LowerAscii(Extension(name).value) == ext {
      ExtensionEnds(name, ext);
    }
    if EndsWithExtension(name, ext) {
      EndsExtension(name, ext);
    }
  }

  lemma ExtensionEnds(name: string, ext: string)
    requires Extension(name).Some? && LowerAscii(Extension(name).value) == ext
    ensures EndsWithExtension(name, ext)
  {
    var e := Extension(name).value;
    assert |e| == |ext|;
    assert name[|name| - |ext|..] == e;
  }

  lemma EndsExtension(name: string, ext: string)
    requires '.' !in ext
    requires EndsWithExtension(name, ext)
    ensures Extension(name).Some? && LowerAscii(Extension(name).value) == ext
  {
    var tail := name[|name| - |ext|..];
    assert '.' !in tail by {
      forall k | 0 <= k < |tail| ensures tail[k] != '.' {
        assert LowerAscii(tail)[k] == ext[k];
        assert ext[k] in ext;
      }
    }
    assert name[1..][|name| - |ext| - 2] == '.';
  }

  /** The rows after the header: the CSV reader treats its first record as
      a header and the Excel loaders skip their first row. */
  function Body(table: seq<seq<string>>): (rows: seq<seq<string>>)
    ensures |rows| == if |table| == 0 then 0 else |table| - 1
    ensures forall i :: 0 <= i < |rows| ==> rows[i] == table[i + 1]
  {
    if |table| == 0 then [] else table[1..]
  }

  /** The entry goes to a loader and that loader succeeds. */
  predicate Loads(e: DirEntry) {
    FormatOf(e.name).Some? && e.contents.Table?
  }

  /** The entry goes to a loader and that loader fails. */
  predicate Fails(e: DirEntry) {
    FormatOf(e.name).Some? && e.contents.Unreadable?
  }

  /** The note `load_data_folder` lists for a failing file. */
  function SkipNote(name: string): string {
    name + " 文件异常，已跳过"
  }

  function CountLoaded(es: seq<DirEntry>): (n: nat)
    ensures n <= |es|
  {
    if |es| == 0 then 0 else (if Loads(es[0]) then 1 else 0) + CountLoaded(es[1..])
  }

  function SkipNotes(es: seq<DirEntry>): seq<string> {
    if |es| == 0 then [] else NoteFor(es[0]) + SkipNotes(es[1..])
  }

  /** The note one entry contributes: one when it fails, none otherwise. */
  function NoteFor(e: DirEntry): seq<string> {
    if Fails(e) then [SkipNote(e.name)] else []
  }

  /** The data rows of every file that loads, file after file. */
  function LoadedRows(es: seq<DirEntry>): seq<seq<string>> {
    if |es| == 0 then []
    else (if Loads(es[0]) then Body(es[0].contents.rows) else []) + LoadedRows(es[1..])
  }

  datatype FoldResult = FoldResult(catalog: Catalog, files: nat, records: nat, skipped: seq<string>)

  /** The loop of `load_data_folder` over the directory entries. */
  function FolderFold(c: Catalog, saved: map<string, DataRecord>, es: seq<DirEntry>): (r: FoldResult)
    ensures r.files == CountLoaded(es)
    ensures r.skipped == SkipNotes(es)
    ensures |r.catalog.store| == |c.store| + r.records
    ensures c.store.Keys <= r.catalog.store.Keys
    ensures CountLoaded(es) == 0 ==> r.catalog == c && r.records == 0
    decreases |es|
  {
    if |es| == 0 then FoldResult(c, 0, 0, [])
    else
      var e := es[0];
      if FormatOf(e.name).None? then FolderFold(c, saved, es[1..])
      else
        match e.contents
        case Unreadable =>
          var r := FolderFold(c, saved, es[1..]);
          r.(skipped := [SkipNote(e.name)] + r.skipped)
        case Table(table) =>
          var loaded := IngestRows(c, saved, Body(table));
          var r := FolderFold(loaded.0, saved, es[1..]);
          r.(files := r.files + 1, records := loaded.1 + r.records)
  }

  /** The folder load is the ingestion of the data rows of the files that
      load, in directory order. */
  lemma {:induction false} FolderFoldIngests(c: Catalog, saved: map<string, DataRecord>, es: seq<DirEntry>)
    ensures FolderFold(c, saved, es).catalog == IngestRows(c, saved, LoadedRows(es)).0
    ensures FolderFold(c, saved, es).records == IngestRows(c, saved, LoadedRows(es)).1
    decreases |es|
  {
    if |es| > 0 {
      var e := es[0];
      if Loads(e) {
        var body := Body(e.contents.rows);
        var c1 := IngestRows(c, saved, body).0;
        FolderFoldIngests(c1, saved, es[1..]);
        IngestRowsAppend(c, saved, body, LoadedRows(es[1..]));
      } else {
        FolderFoldIngests(c, saved, es[1..]);
        assert LoadedRows(es) == LoadedRows(es[1..]);
      }
    }
  }

  /** The three per-entry folds distribute over concatenation. */
  lemma FolderAppend(a: seq<DirEntry>, b: seq<DirEntry>)
    ensures CountLoaded(a + b) == CountLoaded(a) + CountLoaded(b)
    ensures SkipNotes(a + b) == SkipNotes(a) + SkipNotes(b)
    ensures LoadedRows(a + b) == LoadedRows(a) + LoadedRows(b)
  {
    CountAppend(a, b);
    SkipAppend(a, b);
    RowsAppend(a, b);
  }

  lemma {:induction false} CountAppend(a: seq<DirEntry>, b: seq<DirEntry>)
    ensures CountLoaded(a + b) == CountLoaded(a) + CountLoaded(b)
    decreases |a|
  {
    if |a| == 0 {
      assert a + b == b;
    } else {
      assert (a + b)[0] == a[0];
      assert (a + b)[1..] == a[1..] + b;
      CountAppend(a[1..], b);
    }
  }

  lemma {:induction false} SkipAppend(a: seq<DirEntry>, b: seq<DirEntry>)
    ensures SkipNotes(a + b) == SkipNotes(a) + SkipNotes(b)
    decreases |a|
  {
    if |a| == 0 {
      assert a + b == b;
    } else {
      assert (a + b)[0] == a[0];
      assert (a + b)[1..] == a[1..] + b;
      SkipAppend(a[1..], b);
    }
  }

  lemma {:induction false} RowsAppend(a: seq<DirEntry>, b: seq<DirEntry>)
    ensures LoadedRows(a + b) == LoadedRows(a) + LoadedRows(b)
    decreases |a|
  {
    if |a| == 0 {
      assert a + b == b;
    } else {
      assert (a + b)[0] == a[0];
      assert (a + b)[1..] == a[1..] + b;
      RowsAppend(a[1..], b);
    }
  }

  /** The ids a folder load stores, file by file. */
  function FileIds(es: seq<DirEntry>): set<string> {
    IdsOf(LoadedRows(es))
  }

  lemma MultisetRemove(es1: seq<DirEntry>, es2: seq<DirEntry>, i: int)
    requires multiset(es1) == multiset(es2)
    requires |es1| > 0 && 0 <= i < |es2| && es2[i] == es1[0]
    ensures multiset(es1[1..]) == multiset(es2[..i] + es2[i + 1..])
  {
    var x := es1[0];
    var rest2 := es2[..i] + es2[i + 1..];
    assert es2 == es2[..i] + [x] + es2[i + 1..];
    assert es1 == [x] + es1[1..];
    calc {
      multiset(es1[1..]) + multiset{x};
      multiset(es1);
      multiset(es2);
      multiset(es2[..i]) + multiset{x} + multiset(es2[i + 1..]);
      multiset(rest2) + multiset{x};
    }
    assert multiset(es1[1..]) == multiset(es1[1..]) + multiset{x} - multiset{x};
    assert multiset(rest2) == multiset(rest2) + multiset{x} - multiset{x};
  }

  /** Counting after moving entry `i` to the front. */
  lemma MoveToFront(es: seq<DirEntry>, i: int)
    requires 0 <= i < |es|
    ensures var moved := [es[i]] + (es[..i] + es[i + 1..]);
      && CountLoaded(es) == CountLoaded(moved)
      && |SkipNotes(es)| == |SkipNotes(moved)|
      && FileIds(es) == FileIds(moved)
  {
    var x := es[i];
    var pre := es[..i];
    var post := es[i + 1..];
    assert es == pre + ([x] + post);
    FolderAppend(pre, [x] + post);
    FolderAppend([x], post);
    FolderAppend(pre, post);
    FolderAppend([x], pre + post);
    IdsOfAppend(LoadedRows(pre), LoadedRows([x] + post));
    IdsOfAppend(LoadedRows([x]), LoadedRows(post));
    IdsOfAppend(LoadedRows(pre), LoadedRows(post));
    IdsOfAppend(LoadedRows([x]), LoadedRows(pre + post));
  }

  /** Counting a list by its head and tail. */
  lemma SplitHead(es: seq<DirEntry>)
    requires |es| > 0
    ensures CountLoaded(es) == CountLoaded([es[0]]) + CountLoaded(es[1..])
    ensures |SkipNotes(es)| == |SkipNotes([es[0]])| + |SkipNotes(es[1..])|
    ensures FileIds(es) == FileIds([es[0]]) + FileIds(es[1..])
  {
    assert es == [es[0]] + es[1..];
    FolderAppend([es[0]], es[1..]);
    IdsOfAppend(LoadedRows([es[0]]), LoadedRows(es[1..]));
  }

  /** Directory order does not matter for the number of files loaded, the
      number skipped, or which ids end up stored (and so, by
      `IngestRowsCount`, for the number of records). */
  lemma {:induction false} FolderOrderIrrelevant(es1: seq<DirEntry>, es2: seq<DirEntry>)
    requires multiset(es1) == multiset(es2)
    ensures CountLoaded(es1) == CountLoaded(es2)
    ensures |SkipNotes(es1)| == |SkipNotes(es2)|
    ensures FileIds(es1) == FileIds(es2)
    decreases |es1|
  {
    if |es1| == 0 {
      assert |multiset(es2)| == 0;
      assert es2 == [];
    } else {
      var x := es1[0];
      assert x in multiset(es2);
      var i :| 0 <= i < |es2| && es2[i] == x;
      var rest2 := es2[..i] + es2[i + 1..];
      MultisetRemove(es1, es2, i);
      FolderOrderIrrelevant(es1[1..], rest2);
      MoveToFront(es2, i);
      SplitHead(es1);
      var moved := [x] + rest2;
      SplitHead(moved);
      assert moved[1..] == rest2;
    }
  }

  /** The entries a loader is picked for. */
  function Supported(es: seq<DirEntry>): (r: seq<DirEntry>)
    ensures forall e :: e in r <==> e in es && FormatOf(e.name).Some?
  {
    if |es| == 0 then []
    else (if FormatOf(es[0].name).Some? then [es[0]] else []) + Supported(es[1..])
  }

  /** Files with other extensions contribute nothing: not a file count, not
      a skip note, not a row. */
  lemma {:induction false} UnsupportedIgnored(es: seq<DirEntry>)
    ensures CountLoaded(Supported(es)) == CountLoaded(es)
    ensures SkipNotes(Supported(es)) == SkipNotes(es)
    ensures LoadedRows(Supported(es)) == LoadedRows(es)
    decreases |es|
  {
    if |es| > 0 {
      var head := if FormatOf(es[0].name).Some? then [es[0]] else [];
      UnsupportedIgnored(es[1..]);
      FolderAppend(head, Supported(es[1..]));
      if head != [] {
        assert ([es[0]] + Supported(es[1..]))[1..] == Supported(es[1..]);
      }
    }
  }
}
