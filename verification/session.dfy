/** A session of the application: the commands of lib.rs applied one after
    another to the shared state, as the Tauri runtime serialises them
    behind its mutexes. */
module Session {
  import opened Common
  import opened Records
  import opened History
  import opened Ingest
  import opened Folder
  import opened Commands

  /** One command invocation with everything it reads from outside: the
      folder listing and the persisted records for a load, the clock and
      the generated history id for a query, the clock for a verification. */
  datatype Command =
    | Load(isDir: bool, entries: seq<DirEntry>, saved: map<string, DataRecord>)
    | Query(key: string, now: string, hid: string)
    | Verify(id: string, now: string)
    | ReadHistory
    | Clear
    | DeleteItem(id: string)

  /** The state after one command. Only a load touches the index or the
      set of stored ids, only a query or a verification changes a record,
      and only the history commands and a query change the history. */
  function Apply(st: AppState, cmd: Command): (r: AppState)
    ensures cmd.ReadHistory? || (cmd.Load? && !cmd.isDir) ==> r == st
    ensures !cmd.Load? ==>
      && r.catalog.index == st.catalog.index
      && r.catalog.store.Keys == st.catalog.store.Keys
      && r.catalog.duplicates == st.catalog.duplicates
    ensures cmd.Load? && cmd.isDir ==> r.catalog.store.Keys == FileIds(cmd.entries)
    ensures cmd.Load? || cmd.Verify? ==> r.history == st.history
    ensures cmd.Clear? || cmd.DeleteItem? ==> r.catalog == st.catalog && |r.history| <= |st.history|
    ensures cmd.Clear? ==> r.history == []
    ensures cmd.Query? ==> |r.history| > 0 && r.history[0].query_key == cmd.key && r.history[0].id == cmd.hid
  {
    match cmd
    case Load(isDir, es, saved) => LoadDataFolder(st, isDir, es, saved).0
    case Query(key, now, hid) => QueryData(st, key, now, hid).0
    case Verify(id, now) => VerifyRecord(st, id, now).0
    case ReadHistory => GetHistory(st).0
    case Clear => ClearHistory(st)
    case DeleteItem(id) => DeleteHistoryItem(st, id)
  }

  /** The state after a run of commands, first to last. */
  function Run(st: AppState, cmds: seq<Command>): AppState
    decreases |cmds|
  {
    if |cmds| == 0 then st else Run(Apply(st, cmds[0]), cmds[1..])
  }

  /** Every command keeps the catalog valid. */
  lemma ApplyPreservesValid(st: AppState, cmd: Command)
    requires Valid(st.catalog)
    ensures Valid(Apply(st, cmd).catalog)
  {
    match cmd
    case Query(key, now, hid) => QueryPreservesValid(st, key, now, hid);
    case Verify(id, now) => VerifyPreservesValid(st, id, now);
    case _ =>
  }

  /** From start-up on, the catalog is valid after any run of commands. */
  lemma {:induction false} RunPreservesValid(st: AppState, cmds: seq<Command>)
    requires Valid(st.catalog)
    ensures Valid(Run(st, cmds).catalog)
    decreases |cmds|
  {
    if |cmds| > 0 {
      ApplyPreservesValid(st, cmds[0]);
      RunPreservesValid(Apply(st, cmds[0]), cmds[1..]);
    }
  }

  /** A history within the capacity stays within it, whatever the command. */
  lemma ApplyKeepsBound(st: AppState, cmd: Command)
    requires |st.history| <= Capacity
    ensures |Apply(st, cmd).history| <= Capacity
  {
  }

  /** The history never holds more than `Capacity` entries once it starts
      within the bound, and a query leaves at least one. */
  lemma {:induction false} RunKeepsBound(st: AppState, cmds: seq<Command>)
    requires |st.history| <= Capacity
    ensures |Run(st, cmds).history| <= Capacity
    ensures |cmds| > 0 && cmds[|cmds| - 1].Query? ==> |Run(st, cmds).history| > 0
    decreases |cmds|
  {
    if |cmds| > 0 {
      ApplyKeepsBound(st, cmds[0]);
      RunKeepsBound(Apply(st, cmds[0]), cmds[1..]);
      if |cmds| == 1 {
        assert Run(Apply(st, cmds[0]), cmds[1..]) == Apply(st, cmds[0]);
      } else {
        assert cmds[1..][|cmds[1..]| - 1] == cmds[|cmds| - 1];
      }
    }
  }

  /** A verified record stays stored and verified, with its timestamp, through
      every command other than a load. */
  lemma ApplyKeepsVerified(st: AppState, cmd: Command, id: string)
    requires !cmd.Load?
    requires id in st.catalog.store && st.catalog.store[id].is_verified
    ensures id in Apply(st, cmd).catalog.store
    ensures Apply(st, cmd).catalog.store[id].is_verified
    ensures Apply(st, cmd).catalog.store[id].verify_time == st.catalog.store[id].verify_time
  {
  }

  /** A load that restores from what the catalog persisted keeps a verified
      record verified, with its timestamp, as long as its id is still in one
      of the files that load. */
  lemma ReloadKeepsVerified(st: AppState, es: seq<DirEntry>, id: string)
    requires Valid(st.catalog)
    requires id in st.catalog.store && st.catalog.store[id].is_verified
    requires id in FileIds(es)
    ensures var st' := Apply(st, Load(true, es, st.catalog.store));
      && id in st'.catalog.store
      && st'.catalog.store[id].is_verified
      && st'.catalog.store[id].verify_time == st.catalog.store[id].verify_time
  {
    LoadRestoresSaved(st, es, st.catalog.store, id);
  }

  /** Commands other than loads never unverify a record. */
  lemma {:induction false} RunKeepsVerified(st: AppState, cmds: seq<Command>, id: string)
    requires forall i :: 0 <= i < |cmds| ==> !cmds[i].Load?
    requires id in st.catalog.store && st.catalog.store[id].is_verified
    ensures id in Run(st, cmds).catalog.store && Run(st, cmds).catalog.store[id].is_verified
    ensures Run(st, cmds).catalog.store[id].verify_time == st.catalog.store[id].verify_time
    decreases |cmds|
  {
    if |cmds| > 0 {
      ApplyKeepsVerified(st, cmds[0], id);
      assert forall i :: 0 <= i < |cmds[1..]| ==> cmds[1..][i] == cmds[i + 1];
      RunKeepsVerified(Apply(st, cmds[0]), cmds[1..], id);
    }
  }

  /** Commands other than loads never remove a stored record, never change
      its columns, and never lower its query count. */
  lemma ApplyKeepsRecords(st: AppState, cmd: Command, id: string)
    requires !cmd.Load?
    requires id in st.catalog.store
    ensures id in Apply(st, cmd).catalog.store
    ensures Apply(st, cmd).catalog.store[id].all_columns == st.catalog.store[id].all_columns
    ensures Apply(st, cmd).catalog.store[id].link == st.catalog.store[id].link
    ensures Apply(st, cmd).catalog.store[id].query_count >= st.catalog.store[id].query_count
    ensures Apply(st, cmd).catalog.index == st.catalog.index
  {
  }
}
