/**
 * What one indexing run does to the indexer's state, as values:
 * `_process_files_incremental` (one step per crawled file, the 100-row
 * batch and the final flush), `_cleanup_deleted_files` and one pass of
 * the `_retry_worker` loop.  The file system, the extractors, the clock
 * and storage faults are inputs (`Env`).  The class `FileIndexer` runs
 * the same steps in place and is proved equal to these functions.
 */
module Incremental {
  import opened Wrappers
  import opened PyStr
  import opened PyPath
  import opened SkipReasons
  import opened SkipTable
  import opened IndexLog
  import opened Database

  /** What `os.path.getsize` and `os.path.getmtime` see at an existing path. */
  datatype FileStat =
    | Present(size: nat, mtime: real)
    | Locked   // both calls raise `PermissionError`

  /** The outcome of `_extract_text` on a file (before the 100000-character cut). */
  datatype Extraction =
    | Text(text: string)
    | NoText             // the extractor returned `None`
    | Failed(failure: Failure)

  /**
   * The world one run sees: file metadata (a path that is not a key does
   * not exist), the extractors, `time.time()`, the paths whose database
   * write raises, and which batches `insert_files_batch` fails on.
   */
  datatype Env = Env(
    fs: map<string, FileStat>,
    extract: string -> Extraction,
    now: real,
    writeFails: set<string>,
    batchFails: seq<Row> -> bool)

  datatype Stats = Stats(
    totalFiles: nat, indexedFiles: nat, skippedFiles: nat, errorFiles: nat,
    newFiles: nat, modifiedFiles: nat, deletedFiles: nat)

  /** The indexer's state that a run changes, the file table included. */
  datatype State = State(rows: seq<Row>, skipped: seq<SkipEntry>, logs: seq<LogEntry>, stats: Stats)

  /** `batch_size`. */
  const BatchSize: nat := 100

  /** Characters of extracted text kept (`content[:100000]`). */
  const MaxTextChars: nat := 100000

  // ---------------------------------------------------------------------
  // Logging and counting

  /** `_count_tokens`. */
  function CountTokens(text: string): (n: nat)
    ensures 2 * n <= |text| + 1
    ensures n == 0 <==> IsBlank(text)
  {
    WordCountBound(text);
    WordsEmptyIffBlank(text);
    if text == [] then 0 else |Words(text)|
  }

  /** `_log_skip`: register the path when the reason is retryable, and log it. */
  function LogSkip(st: State, path: string, reason: string, now: real): State {
    st.(skipped := Registered(st.skipped, path, reason, now),
        logs := Pushed(st.logs, LogEntry(Skip, Basename(path), Reason(reason))))
  }

  /** `_log_error`, in memory. */
  function LogError(st: State, path: string, kind: ErrorKind): State {
    st.(logs := Pushed(st.logs, LogEntry(Error, Basename(path), Failure(kind))))
  }

  /** `_log_indexing`. */
  function LogIndexing(st: State, path: string): State {
    st.(logs := Pushed(st.logs, LogEntry(Indexing, Basename(path), Processing)))
  }

  /** The entry `_log_success` adds. */
  function SuccessEntry(path: string, content: string, saved: bool): LogEntry {
    LogEntry(Success, Basename(path), Extracted(|content|, CountTokens(content), saved))
  }

  /** The entries logged, in order, once a batch is saved. */
  function SavedEntries(batch: seq<Row>): (es: seq<LogEntry>)
    ensures |es| == |batch|
    ensures forall i :: 0 <= i < |batch| ==> es[i] == SuccessEntry(batch[i].path, batch[i].content, true)
  {
    seq(|batch|, i requires 0 <= i < |batch| => SuccessEntry(batch[i].path, batch[i].content, true))
  }

  function CountSkipped(st: State): State {
    st.(stats := st.stats.(skippedFiles := st.stats.skippedFiles + 1))
  }

  function CountError(st: State): State {
    st.(stats := st.stats.(errorFiles := st.stats.errorFiles + 1))
  }

  function CountIndexed(st: State): State {
    st.(stats := st.stats.(indexedFiles := st.stats.indexedFiles + 1))
  }

  function CountNew(st: State): State {
    st.(stats := st.stats.(newFiles := st.stats.newFiles + 1))
  }

  function CountModified(st: State): State {
    st.(stats := st.stats.(modifiedFiles := st.stats.modifiedFiles + 1))
  }

  // ---------------------------------------------------------------------
  // Extraction

  datatype Extract = Extract(st: State, content: Option<string>)

  /** The text `_extract_text_safe` returns for a path, whatever it logs. */
  function ExtractedText(path: string, env: Env): (c: Option<string>)
    ensures c.Some? <==> env.extract(path).Text?
    ensures c.Some? ==> c.value <= env.extract(path).text && |c.value| <= MaxTextChars
  {
    match env.extract(path)
    case Text(t) => Some(PrefixSlice(t, MaxTextChars))
    case _ => None
  }

  /** The retry list after extraction: a failure is logged as a skip, which may list the path. */
  function SkippedAfterExtract(skipped: seq<SkipEntry>, path: string, env: Env): seq<SkipEntry> {
    if env.extract(path).Failed? then Registered(skipped, path, FailureReason(env.extract(path).failure), env.now)
    else skipped
  }

  /**
   * `_extract_text_safe`: the extracted text cut to 100000 characters, or
   * `None` after logging the failure as a skip.
   */
  function ExtractSafe(st: State, path: string, env: Env): (r: Extract)
    ensures r.st.rows == st.rows && r.st.stats == st.stats
    ensures r.content == ExtractedText(path, env)
    ensures r.st.skipped == SkippedAfterExtract(st.skipped, path, env)
    ensures r.st.logs == if env.extract(path).Failed? then
      Pushed(st.logs, LogEntry(Skip, Basename(path), Reason(FailureReason(env.extract(path).failure))))
    else st.logs
  {
    match env.extract(path)
    case Text(t) => Extract(st, Some(PrefixSlice(t, MaxTextChars)))
    case NoText => Extract(st, None)
    case Failed(f) => Extract(LogSkip(st, path, FailureReason(f), env.now), None)
  }

  /** `if content:` — some non-empty text came back. */
  predicate HasText(c: Option<string>) {
    c.Some? && c.value != []
  }

  // ---------------------------------------------------------------------
  // The incremental pass

  /** The pass's state: the indexer's state and the pending `batch`. */
  datatype PassState = PassState(st: State, batch: seq<Row>)

  /** `abs(current_mtime - indexed_mtime) < 1.0`. */
  predicate WithinTolerance(current: real, indexed: real) {
    -1.0 < current - indexed < 1.0
  }

  /** `insert_files_batch(batch)` and its success logs; a failing insert changes nothing. */
  function Flushed(st: State, batch: seq<Row>, env: Env): State {
    if env.batchFails(batch) then st
    else st.(rows := st.rows + batch, logs := PushAll(st.logs, SavedEntries(batch)))
  }

  /** The batch is written and emptied (even when the write fails) once it holds 100 rows. */
  function FlushIfFull(ps: PassState, env: Env): PassState {
    if |ps.batch| >= BatchSize then PassState(Flushed(ps.st, ps.batch, env), []) else ps
  }

  /** One iteration of the loop over `all_files`. */
  function FileStep(ps: PassState, path: string, env: Env): PassState {
    var st := ps.st;
    if path !in env.fs then
      PassState(CountError(LogError(st, path, FileMissing)), ps.batch)
    else match env.fs[path]
      case Locked => PassState(CountSkipped(LogSkip(st, path, LockedReason, env.now)), ps.batch)
      case Present(size, current) =>
        if size > MaxFileSize then
          PassState(CountSkipped(LogSkip(st, path, SizeExceededReason(size), env.now)), ps.batch)
        else
          ClassifiedStep(ps, path, current, env)
  }

  /** The part of an iteration after the size check and `getmtime`. */
  function ClassifiedStep(ps: PassState, path: string, current: real, env: Env): PassState {
    var indexed := FirstMtime(ps.st.rows, path);
    if indexed.Some? && WithinTolerance(current, indexed.value) then
      PassState(CountSkipped(ps.st), ps.batch)
    else
      var counted := if indexed.Some? then CountModified(ps.st) else CountNew(ps.st);
      Reindex(PassState(counted, ps.batch), path, current, indexed.None?, env)
  }

  /** A file whose stored mtime is within a second of the current one is only counted as skipped. */
  lemma ClassifiedUnchanged(ps: PassState, path: string, current: real, env: Env)
    requires FirstMtime(ps.st.rows, path).Some? && WithinTolerance(current, FirstMtime(ps.st.rows, path).value)
    ensures ClassifiedStep(ps, path, current, env) == PassState(CountSkipped(ps.st), ps.batch)
  {
  }

  /** Any other file is counted as new or modified and then re-indexed. */
  lemma ClassifiedChanged(ps: PassState, path: string, current: real, env: Env, counted: State)
    requires !(FirstMtime(ps.st.rows, path).Some? && WithinTolerance(current, FirstMtime(ps.st.rows, path).value))
    requires counted == if FirstMtime(ps.st.rows, path).Some? then CountModified(ps.st) else CountNew(ps.st)
    ensures ClassifiedStep(ps, path, current, env)
      == Reindex(PassState(counted, ps.batch), path, current, FirstMtime(ps.st.rows, path).None?, env)
  {
  }

  /** A new or modified file, once counted: log it, extract its text and store it if there is any. */
  function Reindex(ps: PassState, path: string, current: real, isNew: bool, env: Env): PassState {
    var ex := ExtractSafe(LogIndexing(ps.st, path), path, env);
    if !HasText(ex.content) then
      PassState(CountSkipped(ex.st), ps.batch)
    else
      StoreText(PassState(ex.st, ps.batch), path, ex.content.value, current, isNew, env)
  }

  /**
   * `if content:` with some text: a new file's row joins the batch, a
   * modified file is updated at once; then a full batch is written.
   */
  function StoreText(ps: PassState, path: string, text: string, current: real, isNew: bool, env: Env): PassState {
    if isNew then
      var st := CountIndexed(ps.st).(logs := Pushed(ps.st.logs, SuccessEntry(path, text, false)));
      FlushIfFull(PassState(st, ps.batch + [Row(path, text, current)]), env)
    else if path in env.writeFails then
      PassState(CountError(LogError(ps.st, path, StorageFailure)), ps.batch)
    else
      var updated := CountIndexed(ps.st).(rows := Updated(ps.st.rows, path, text, current));
      var st := updated.(logs := Pushed(updated.logs, SuccessEntry(path, text, true)));
      FlushIfFull(PassState(st, ps.batch), env)
  }

  /** A new file's row joins the batch; the success is logged as not yet saved. */
  lemma StoreNew(ps: PassState, path: string, text: string, current: real, env: Env, st: State)
    requires st == CountIndexed(ps.st).(logs := Pushed(ps.st.logs, SuccessEntry(path, text, false)))
    ensures StoreText(ps, path, text, current, true, env) == FlushIfFull(PassState(st, ps.batch + [Row(path, text, current)]), env)
  {
  }

  /** A modified file's rows are rewritten at once; the success is logged as saved. */
  lemma StoreUpdated(ps: PassState, path: string, text: string, current: real, env: Env, st: State)
    requires path !in env.writeFails
    requires st == CountIndexed(ps.st).(rows := Updated(ps.st.rows, path, text, current),
                                        logs := Pushed(ps.st.logs, SuccessEntry(path, text, true)))
    ensures StoreText(ps, path, text, current, false, env) == FlushIfFull(PassState(st, ps.batch), env)
  {
  }

  /** The loop over a list of files. */
  function RunFiles(ps: PassState, files: seq<string>, env: Env): PassState
    decreases |files|
  {
    if files == [] then ps
    else FileStep(RunFiles(ps, files[..|files| - 1], env), files[|files| - 1], env)
  }

  /** `if batch:` after the loop: the remainder is written once. */
  function FinalFlush(ps: PassState, env: Env): State {
    if ps.batch != [] then Flushed(ps.st, ps.batch, env) else ps.st
  }

  /** `_process_files_incremental(all_files)`. */
  function Pass(st: State, files: seq<string>, env: Env): State {
    FinalFlush(RunFiles(PassState(st, []), files, env), env)
  }

  // ---------------------------------------------------------------------
  // Deletion reconciliation

  /** `[f for f in indexed_files if f not in current_file_set]`. */
  function Doomed(paths: seq<string>, current: set<string>): (d: seq<string>)
    ensures forall p :: p in d <==> p in paths && p !in current
    ensures |d| <= |paths|
  {
    if paths == [] then []
    else if paths[0] !in current then [paths[0]] + Doomed(paths[1..], current)
    else Doomed(paths[1..], current)
  }

  /**
   * The deletion loop: each listed path is deleted and counted; a delete
   * that raises ends the loop (the `try` encloses it).
   */
  function DeleteAll(st: State, doomed: seq<string>, deleteFails: set<string>): State
    decreases |doomed|
  {
    if doomed == [] || doomed[0] in deleteFails then st
    else
      var st1 := st.(rows := Without(st.rows, doomed[0]),
                     stats := st.stats.(deletedFiles := st.stats.deletedFiles + 1));
      DeleteAll(st1, doomed[1..], deleteFails)
  }

  /** A delete that raises ends the loop with the state as it is. */
  lemma DeleteAllStops(st: State, doomed: seq<string>, deleteFails: set<string>)
    requires doomed != [] && doomed[0] in deleteFails
    ensures DeleteAll(st, doomed, deleteFails) == st
  {
  }

  /** A delete that succeeds removes the file's rows, counts it, and the loop goes on with the next path. */
  lemma DeleteAllSteps(st: State, doomed: seq<string>, deleteFails: set<string>, next: State)
    requires doomed != [] && doomed[0] !in deleteFails
    requires next == st.(rows := Without(st.rows, doomed[0]), stats := st.stats.(deletedFiles := st.stats.deletedFiles + 1))
    ensures DeleteAll(st, doomed, deleteFails) == DeleteAll(next, doomed[1..], deleteFails)
  {
  }

  /** `_cleanup_deleted_files(current_files)`. */
  function Cleanup(st: State, current: seq<string>, deleteFails: set<string>): State {
    DeleteAll(st, Doomed(Paths(st.rows), set p | p in current), deleteFails)
  }

  // ---------------------------------------------------------------------
  // One round of the retry worker

  /**
   * One iteration of the loop over `files_to_retry`.  `os.path.exists`
   * answers False when `os.stat` raises, so a locked file is dropped like a
   * missing one.
   */
  function RetryStep(st: State, path: string, env: Env): State {
    if path !in env.fs || env.fs[path].Locked? then st.(skipped := Unregistered(st.skipped, path))
    else if env.fs[path].size > MaxFileSize then
      st.(skipped := Unregistered(st.skipped, path))
    else
      var ex := ExtractSafe(st, path, env);
      if !HasText(ex.content) then ex.st.(skipped := Bumped(ex.st.skipped, path))
      else if path in env.writeFails then ex.st   // the write raised: a failed retry, the entry untouched
      else
        var text := ex.content.value;
        var current := env.fs[path].mtime;
        var rows := if FirstMtime(ex.st.rows, path).Some? then Updated(ex.st.rows, path, text, current)
                    else ex.st.rows + [Row(path, text, current)];
        ex.st.(rows := rows,
               skipped := Unregistered(ex.st.skipped, path),
               logs := Pushed(ex.st.logs, LogEntry(RetrySuccess, Basename(path), Extracted(|text|, CountTokens(text), true))))
  }

  /** The loop over a snapshot of the listed paths. */
  function RetryAll(st: State, paths: seq<string>, env: Env): State
    decreases |paths|
  {
    if paths == [] then st else RetryAll(RetryStep(st, paths[0], env), paths[1..], env)
  }

  /** One wake-up of `_retry_worker` with a non-empty list. */
  function RetryRound(st: State, env: Env): State {
    RetryAll(st, SkipPaths(st.skipped), env)
  }
}
