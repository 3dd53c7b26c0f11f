/** The records lib.rs exchanges with its callers (`DataRecord`,
    `HistoryRecord`, `LoadResult`, `QueryResult`) and the error cases of its
    commands. Counters are unbounded here; the source stores them as `u32`. */
module Records {
  import opened Common

  /** One ingested row: the trimmed first cell is the id, the trimmed second
      cell the link, and every trimmed cell is kept in order. */
  datatype DataRecord = DataRecord(
    id: string,
    link: string,
    all_columns: seq<string>,
    query_count: nat,
    is_verified: bool,
    verify_time: Option<string>)

  /** One past query; `query_result` is the matched record's link. */
  datatype HistoryRecord = HistoryRecord(
    id: string,
    query_time: string,
    query_key: string,
    query_result: Option<string>,
    is_verified: bool)

  datatype LoadResult = LoadResult(file_count: nat, record_count: nat, skipped_files: seq<string>)

  datatype QueryResult = QueryResult(
    found: bool,
    record: Option<DataRecord>,
    is_duplicate: bool,
    matched_column: Option<nat>)

  /** Why `load_data_folder` fails. */
  datatype LoadError = FolderMissing | NoDataFiles

  /** Why `verify_record` fails. */
  datatype VerifyError = RecordNotFound | AlreadyVerified

  /** The text `load_data_folder` returns for each error. */
  function LoadErrorMessage(e: LoadError): string {
    match e
    case FolderMissing => "文件夹不存在"
    case NoDataFiles => "所选文件夹无有效数据文件（支持 CSV、TXT、XLSX、XLS 格式）"
  }

  /** The text `verify_record` returns for each error. */
  function VerifyErrorMessage(e: VerifyError): string {
    match e
    case RecordNotFound => "记录不存在"
    case AlreadyVerified => "该记录已核销，不可重复操作"
  }

  /** Different errors give different texts, so the frontend, which only
      sees the text, can still tell every error case of a command apart. */
  lemma ErrorMessagesDistinct()
    ensures forall e1: LoadError, e2: LoadError ::
      LoadErrorMessage(e1) == LoadErrorMessage(e2) ==> e1 == e2
    ensures forall e1: VerifyError, e2: VerifyError ::
      VerifyErrorMessage(e1) == VerifyErrorMessage(e2) ==> e1 == e2
  {
  }
}
