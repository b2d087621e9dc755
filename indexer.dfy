/**
 * `FileIndexer`: the indexer object whose methods update its retry list,
 * activity log, statistics and exclusion patterns in place and write to the
 * `DatabaseManager` it holds.  Each method is proved to leave the object in
 * the state the corresponding function of `Incremental` computes, so the
 * properties proved about those functions hold of the object.
 */
module Indexer {
  import opened Wrappers
  import opened PyStr
  import opened PyPath
  import opened SkipReasons
  import opened SkipTable
  import opened IndexLog
  import opened Database
  import opened Incremental
  import opened PassProperties
  import opened RetryProperties

  // ---------------------------------------------------------------------
  // Custom exclusion patterns

  /** `add_exclusion_pattern`: a non-empty pattern not yet listed is appended. */
  function WithPattern(patterns: seq<string>, p: string): seq<string> {
    if p != [] && p !in patterns then patterns + [p] else patterns
  }

  /** `list.remove(p)` after the membership check: the first occurrence goes. */
  function WithoutFirst(patterns: seq<string>, p: string): (r: seq<string>)
    ensures p !in patterns ==> r == patterns
    ensures p in patterns ==> |r| == |patterns| - 1
    ensures forall q :: q in r ==> q in patterns
  {
    if patterns == [] then []
    else if patterns[0] == p then patterns[1..]
    else [patterns[0]] + WithoutFirst(patterns[1..], p)
  }

  predicate NoDuplicates(s: seq<string>) {
    forall i, j :: 0 <= i < j < |s| ==> s[i] != s[j]
  }

  /** Adding lists the pattern (unless it is empty) and keeps the list free of repeats. */
  lemma WithPatternEffect(patterns: seq<string>, p: string)
    requires NoDuplicates(patterns)
    ensures NoDuplicates(WithPattern(patterns, p))
    ensures forall q :: q in WithPattern(patterns, p) <==> q in patterns || (q == p && p != [])
  {
  }

  /** Removing a pattern from a list without repeats drops exactly that pattern. */
  lemma {:induction false} WithoutFirstEffect(patterns: seq<string>, p: string)
    requires NoDuplicates(patterns)
    ensures NoDuplicates(WithoutFirst(patterns, p))
    ensures forall q :: q in WithoutFirst(patterns, p) <==> q in patterns && q != p
    decreases |patterns|
  {
    if patterns != [] {
      var rest := patterns[1..];
      NoDuplicatesTail(patterns);
      WithoutFirstEffect(rest, p);
      if patterns[0] == p {
        assert patterns[0] !in rest by { NoDuplicatesHead(patterns); }
      } else {
        assert patterns[0] !in rest by { NoDuplicatesHead(patterns); }
        NoDuplicatesCons(patterns[0], WithoutFirst(rest, p));
      }
    }
  }

  lemma NoDuplicatesTail(s: seq<string>)
    requires s != [] && NoDuplicates(s)
    ensures NoDuplicates(s[1..])
  {
    forall i, j | 0 <= i < j < |s[1..]|
      ensures s[1..][i] != s[1..][j]
    {
      assert s[1..][i] == s[i + 1] && s[1..][j] == s[j + 1];
    }
  }

  lemma NoDuplicatesHead(s: seq<string>)
    requires s != [] && NoDuplicates(s)
    ensures s[0] !in s[1..]
  {
    assert forall k :: 0 <= k < |s[1..]| ==> s[1..][k] == s[k + 1];
  }

  lemma NoDuplicatesCons(x: string, s: seq<string>)
    requires NoDuplicates(s) && x !in s
    ensures NoDuplicates([x] + s)
  {
    var t := [x] + s;
    forall i, j | 0 <= i < j < |t|
      ensures t[i] != t[j]
    {
      assert t[j] == s[j - 1];
      if i > 0 {
        assert t[i] == s[i - 1];
      }
    }
  }

  /** Adding a new pattern and then removing it gives back the original list. */
  lemma {:induction false} AddThenRemove(patterns: seq<string>, p: string)
    requires p !in patterns && p != []
    ensures WithoutFirst(WithPattern(patterns, p), p) == patterns
    decreases |patterns|
  {
    if patterns == [] {
      assert WithPattern(patterns, p) == [p];
    } else {
      AddThenRemove(patterns[1..], p);
      assert WithPattern(patterns, p)[1..] == WithPattern(patterns[1..], p);
    }
  }

  // ---------------------------------------------------------------------

  /** The statistics `_indexing_worker` starts from. */
  const ZeroStats := Stats(0, 0, 0, 0, 0, 0, 0)

  class FileIndexer {
    var db: DatabaseManager
    var customExcludedPatterns: seq<string>
    /** `skipped_files`, its entries in insertion order. */
    var skippedFiles: seq<SkipEntry>
    /** `indexing_logs`, newest first. */
    var indexingLogs: seq<LogEntry>
    var stats: Stats

    /** The state the indexing and retry workers change, the database's rows included. */
    function CurrentState(): State
      reads this, db
    {
      State(db.rows, skippedFiles, indexingLogs, stats)
    }

    /**
     * The log stays within `max_logs`; the retry list has one entry per
     * path, each with retries left; no exclusion pattern is listed twice.
     */
    predicate Valid()
      reads this
    {
      |indexingLogs| <= MaxLogs && SkipTableOk(skippedFiles) && NoDuplicates(customExcludedPatterns)
    }

    constructor (db: DatabaseManager)
      ensures this.db == db && Valid()
      ensures customExcludedPatterns == [] && skippedFiles == [] && indexingLogs == []
      ensures stats == ZeroStats
    {
      this.db := db;
      customExcludedPatterns := [];
      skippedFiles := [];
      indexingLogs := [];
      stats := ZeroStats;
    }

    // -------------------------------------------------------------------
    // Exclusion patterns

    method AddExclusionPattern(pattern: string)
      requires Valid()
      modifies this
      ensures Valid()
      ensures customExcludedPatterns == WithPattern(old(customExcludedPatterns), pattern)
      ensures unchanged(this`db, this`skippedFiles, this`indexingLogs, this`stats)
    {
      WithPatternEffect(customExcludedPatterns, pattern);
      if pattern != [] && pattern !in customExcludedPatterns {
        customExcludedPatterns := customExcludedPatterns + [pattern];
      }
    }

    method RemoveExclusionPattern(pattern: string)
      requires Valid()
      modifies this
      ensures Valid()
      ensures customExcludedPatterns == WithoutFirst(old(customExcludedPatterns), pattern)
      ensures unchanged(this`db, this`skippedFiles, this`indexingLogs, this`stats)
    {
      WithoutFirstEffect(customExcludedPatterns, pattern);
      if pattern in customExcludedPatterns {
        customExcludedPatterns := WithoutFirst(customExcludedPatterns, pattern);
      }
    }

    method ClearExclusionPatterns()
      requires Valid()
      modifies this
      ensures Valid()
      ensures customExcludedPatterns == []
      ensures unchanged(this`db, this`skippedFiles, this`indexingLogs, this`stats)
    {
      customExcludedPatterns := [];
    }

    /** `get_exclusion_patterns`: a copy of the list. */
    method GetExclusionPatterns() returns (patterns: seq<string>)
      ensures patterns == customExcludedPatterns
    {
      patterns := customExcludedPatterns;
    }

    // -------------------------------------------------------------------
    // The activity log

    method AddLogToMemory(e: LogEntry)
      requires Valid()
      modifies this
      ensures Valid()
      ensures indexingLogs == Pushed(old(indexingLogs), e)
      ensures unchanged(this`db, this`skippedFiles, this`stats, this`customExcludedPatterns)
    {
      indexingLogs := [e] + indexingLogs;
      if |indexingLogs| > MaxLogs {
        indexingLogs := indexingLogs[..MaxLogs];
      }
    }

    /** `get_recent_logs(count)`. */
    method GetRecentLogs(count: int) returns (logs: seq<LogEntry>)
      ensures logs == Recent(indexingLogs, count)
      ensures logs <= indexingLogs
    {
      logs := PrefixSlice(indexingLogs, count);
    }

    method ClearLogs()
      requires Valid()
      modifies this
      ensures Valid()
      ensures indexingLogs == []
      ensures unchanged(this`db, this`skippedFiles, this`stats, this`customExcludedPatterns)
    {
      indexingLogs := [];
    }

    /** `_log_skip`, with `time.time()` given as `now`. */
    method LogSkip(path: string, reason: string, now: real)
      requires Valid()
      modifies this
      ensures Valid()
      ensures CurrentState() == Incremental.LogSkip(old(CurrentState()), path, reason, now)
      ensures unchanged(this`db, this`customExcludedPatterns)
    {
      RegisteredKeeps(skippedFiles, path, reason, now);
      if IsRetryable(reason) && !IsSkipped(skippedFiles, path) {
        skippedFiles := skippedFiles + [SkipEntry(path, reason, now, 0)];
      }
      AddLogToMemory(LogEntry(Skip, Basename(path), Reason(reason)));
    }

    /** `_log_error`. */
    method LogError(path: string, kind: ErrorKind)
      requires Valid()
      modifies this
      ensures Valid()
      ensures CurrentState() == Incremental.LogError(old(CurrentState()), path, kind)
      ensures unchanged(this`db, this`customExcludedPatterns)
    {
      AddLogToMemory(LogEntry(Error, Basename(path), Failure(kind)));
    }

    /** `_log_indexing`. */
    method LogIndexing(path: string)
      requires Valid()
      modifies this
      ensures Valid()
      ensures CurrentState() == Incremental.LogIndexing(old(CurrentState()), path)
      ensures unchanged(this`db, this`customExcludedPatterns)
    {
      AddLogToMemory(LogEntry(Indexing, Basename(path), Processing));
    }

    /** `_log_success(path, len(content), _count_tokens(content), saved)`. */
    method LogSuccess(path: string, content: string, saved: bool)
      requires Valid()
      modifies this
      ensures Valid()
      ensures indexingLogs == Pushed(old(indexingLogs), SuccessEntry(path, content, saved))
      ensures unchanged(this`db, this`skippedFiles, this`stats, this`customExcludedPatterns)
    {
      var tokens := CountTokens(content);
      AddLogToMemory(LogEntry(Success, Basename(path), Extracted(|content|, tokens, saved)));
    }

    // -------------------------------------------------------------------
    // The incremental pass

    /** `_extract_text_safe`: the text, or `None` after logging the failure as a skip. */
    method ExtractTextSafe(path: string, env: Env) returns (content: Option<string>)
      requires Valid()
      modifies this
      ensures Valid()
      ensures content == ExtractedText(path, env)
      ensures CurrentState() == ExtractSafe(old(CurrentState()), path, env).st
      ensures unchanged(this`db, this`customExcludedPatterns)
    {
      match env.extract(path)
      case Text(t) =>
        content := Some(PrefixSlice(t, MaxTextChars));
      case NoText =>
        content := None;
      case Failed(f) =>
        LogSkip(path, FailureReason(f), env.now);
        content := None;
    }

    /** `insert_files_batch(batch)` and the success log of every saved row; a failing insert is dropped. */
    method SaveBatch(batch: seq<Row>, env: Env)
      requires Valid()
      modifies this, db
      ensures Valid()
      ensures db.history == old(db.history)
      ensures CurrentState() == Flushed(old(CurrentState()), batch, env)
      ensures unchanged(this`db, this`customExcludedPatterns)
    {
      ghost var st := State(db.rows, skippedFiles, indexingLogs, stats);
      if env.batchFails(batch) {
        return;
      }
      db.InsertFilesBatch(batch);
      ghost var saved := SavedEntries(batch);
      var i := 0;
      while i < |batch|
        invariant 0 <= i <= |batch|
        invariant unchanged(this`db, this`customExcludedPatterns) && Valid()
        invariant db.history == old(db.history)
        invariant db.rows == old(db.rows) + batch
        invariant skippedFiles == old(skippedFiles) && stats == old(stats)
        invariant indexingLogs == PushAll(old(indexingLogs), saved[..i])
      {
        LogSuccess(batch[i].path, batch[i].content, true);
        assert saved[..i + 1][..i] == saved[..i];
        i := i + 1;
      }
      assert saved[..|batch|] == saved;
      assert State(db.rows, skippedFiles, indexingLogs, stats) == Flushed(st, batch, env);
    }

    /** One iteration of the loop of `_process_files_incremental`. */
    method ProcessFile(path: string, batch: seq<Row>, env: Env) returns (next: seq<Row>)
      requires Valid()
      modifies this, db
      ensures Valid()
      ensures db.history == old(db.history)
      ensures PassState(CurrentState(), next) == FileStep(PassState(old(CurrentState()), batch), path, env)
      ensures unchanged(this`db, this`customExcludedPatterns)
    {
      FileStepCases(PassState(CurrentState(), batch), path, env);
      next := batch;
      if path !in env.fs {
        // `os.path.getmtime` raises: the generic handler logs an error
        FailFile(path, FileMissing);
        return;
      }
      var stat := env.fs[path];
      if stat.Locked? {
        SkipFile(path, LockedReason, env.now);
      } else if stat.size > MaxFileSize {
        SkipFile(path, SizeExceededReason(stat.size), env.now);
      } else {
        next := ProcessReadable(path, stat.mtime, batch, env);
      }
    }

    /** `_log_skip` followed by `skipped_files += 1`. */
    method SkipFile(path: string, reason: string, now: real)
      requires Valid()
      modifies this
      ensures Valid()
      ensures CurrentState() == CountSkipped(Incremental.LogSkip(old(CurrentState()), path, reason, now))
      ensures unchanged(this`db, this`customExcludedPatterns)
    {
      LogSkip(path, reason, now);
      stats := stats.(skippedFiles := stats.skippedFiles + 1);
    }

    /** `_log_error` followed by `error_files += 1`. */
    method FailFile(path: string, kind: ErrorKind)
      requires Valid()
      modifies this
      ensures Valid()
      ensures CurrentState() == CountError(Incremental.LogError(old(CurrentState()), path, kind))
      ensures unchanged(this`db, this`customExcludedPatterns)
    {
      LogError(path, kind);
      stats := stats.(errorFiles := stats.errorFiles + 1);
    }

    /** The rest of an iteration, once `getsize` and `getmtime` have answered. */
    method ProcessReadable(path: string, current: real, batch: seq<Row>, env: Env) returns (next: seq<Row>)
      requires Valid()
      modifies this, db
      ensures Valid()
      ensures db.history == old(db.history)
      ensures PassState(CurrentState(), next) == ClassifiedStep(PassState(old(CurrentState()), batch), path, current, env)
      ensures unchanged(this`db, this`customExcludedPatterns)
    {
      ghost var ps := PassState(State(db.rows, skippedFiles, indexingLogs, stats), batch);
      next := batch;
      var indexed := db.GetFileMtime(path);
      if indexed.Some? && WithinTolerance(current, indexed.value) {
        ClassifiedUnchanged(ps, path, current, env);
        stats := stats.(skippedFiles := stats.skippedFiles + 1);
        return;
      }
      if indexed.Some? {
        stats := stats.(modifiedFiles := stats.modifiedFiles + 1);
      } else {
        stats := stats.(newFiles := stats.newFiles + 1);
      }
      ClassifiedChanged(ps, path, current, env, State(db.rows, skippedFiles, indexingLogs, stats));
      next := Reindex(path, current, indexed.None?, batch, env);
    }

    /** A new or modified file: `_log_indexing`, `_extract_text_safe`, then store any text. */
    method Reindex(path: string, current: real, isNew: bool, batch: seq<Row>, env: Env) returns (next: seq<Row>)
      requires Valid()
      modifies this, db
      ensures Valid()
      ensures db.history == old(db.history)
      ensures PassState(CurrentState(), next) == Incremental.Reindex(PassState(old(CurrentState()), batch), path, current, isNew, env)
      ensures unchanged(this`db, this`customExcludedPatterns)
    {
      next := batch;
      LogIndexing(path);
      var content := ExtractTextSafe(path, env);
      if !HasText(content) {
        stats := stats.(skippedFiles := stats.skippedFiles + 1);
        return;
      }
      next := StoreText(path, content.value, current, isNew, batch, env);
    }

    /** The `if content:` branch: queue or update the row, log the success, flush a full batch. */
    method StoreText(path: string, text: string, current: real, isNew: bool, batch: seq<Row>, env: Env)
      returns (next: seq<Row>)
      requires Valid()
      modifies this, db
      ensures Valid()
      ensures db.history == old(db.history)
      ensures PassState(CurrentState(), next) == Incremental.StoreText(PassState(old(CurrentState()), batch), path, text, current, isNew, env)
      ensures unchanged(this`db, this`customExcludedPatterns)
    {
      ghost var ps := PassState(State(db.rows, skippedFiles, indexingLogs, stats), batch);
      next := batch;
      if isNew {
        next := batch + [Row(path, text, current)];
        stats := stats.(indexedFiles := stats.indexedFiles + 1);
        LogSuccess(path, text, false);
        StoreNew(ps, path, text, current, env, State(db.rows, skippedFiles, indexingLogs, stats));
      } else {
        if path in env.writeFails {
          FailFile(path, StorageFailure);
          return;
        }
        db.UpdateFile(path, text, current);
        stats := stats.(indexedFiles := stats.indexedFiles + 1);
        LogSuccess(path, text, true);
        StoreUpdated(ps, path, text, current, env, State(db.rows, skippedFiles, indexingLogs, stats));
      }
      next := FlushIfFull(next, env);
    }

    /** `if len(batch) >= self.batch_size`: write the batch and start a new one. */
    method FlushIfFull(batch: seq<Row>, env: Env) returns (next: seq<Row>)
      requires Valid()
      modifies this, db
      ensures Valid()
      ensures db.history == old(db.history)
      ensures PassState(CurrentState(), next) == Incremental.FlushIfFull(PassState(old(CurrentState()), batch), env)
      ensures unchanged(this`db, this`customExcludedPatterns)
    {
      next := batch;
      if |batch| >= BatchSize {
        SaveBatch(batch, env);
        next := [];
      }
    }

    /** `_process_files_incremental(all_files)`. */
    method ProcessFilesIncremental(files: seq<string>, env: Env)
      requires Valid()
      modifies this, db
      ensures Valid()
      ensures db.history == old(db.history)
      ensures CurrentState() == Pass(old(CurrentState()), files, env)
      ensures unchanged(this`db, this`customExcludedPatterns)
    {
      var batch: seq<Row> := [];
      var i := 0;
      while i < |files|
        invariant 0 <= i <= |files|
        invariant unchanged(this`db, this`customExcludedPatterns) && Valid()
        invariant db.history == old(db.history)
        invariant PassState(CurrentState(), batch) == RunFiles(PassState(old(CurrentState()), []), files[..i], env)
      {
        assert files[..i + 1][..i] == files[..i];
        batch := ProcessFile(files[i], batch, env);
        i := i + 1;
      }
      assert files[..|files|] == files;
      if batch != [] {
        SaveBatch(batch, env);
      }
    }

    /** `_cleanup_deleted_files(current_files)`; a delete that raises ends the loop. */
    method CleanupDeletedFiles(currentFiles: seq<string>, deleteFails: set<string>)
      requires Valid()
      modifies this, db
      ensures Valid()
      ensures db.history == old(db.history)
      ensures CurrentState() == Cleanup(old(CurrentState()), currentFiles, deleteFails)
      ensures unchanged(this`db, this`customExcludedPatterns)
    {
      var currentFileSet := set p | p in currentFiles;
      var indexedFiles := db.GetAllIndexedPaths();
      var deletedFiles := Doomed(indexedFiles, currentFileSet);
      var i := 0;
      while i < |deletedFiles|
        invariant 0 <= i <= |deletedFiles|
        invariant unchanged(this`db, this`customExcludedPatterns) && Valid()
        invariant db.history == old(db.history)
        invariant DeleteAll(State(db.rows, skippedFiles, indexingLogs, stats), deletedFiles[i..], deleteFails)
               == Cleanup(old(CurrentState()), currentFiles, deleteFails)
      {
        var path := deletedFiles[i];
        if path in deleteFails {
          DeleteAllStops(CurrentState(), deletedFiles[i..], deleteFails);
          return;
        }
        ghost var before := State(db.rows, skippedFiles, indexingLogs, stats);
        db.DeleteFile(path);
        stats := stats.(deletedFiles := stats.deletedFiles + 1);
        DeleteAllSteps(before, deletedFiles[i..], deleteFails, State(db.rows, skippedFiles, indexingLogs, stats));
        assert deletedFiles[i..][1..] == deletedFiles[i + 1..];
        i := i + 1;
      }
    }

    /**
     * `_indexing_worker(root_paths)` with the crawled list given: reset the
     * statistics, run the incremental pass and the deletion cleanup.
     * Every crawled file ends up counted once as indexed, skipped or failed.
     */
    method IndexingWorker(files: seq<string>, env: Env, deleteFails: set<string>)
      requires Valid()
      modifies this, db
      ensures Valid()
      ensures db.history == old(db.history)
      ensures CurrentState() == Cleanup(Pass(old(CurrentState()).(stats := ZeroStats.(totalFiles := |files|)), files, env), files, deleteFails)
      ensures stats.totalFiles == |files| == stats.indexedFiles + stats.skippedFiles + stats.errorFiles
      ensures stats.indexedFiles <= stats.newFiles + stats.modifiedFiles <= |files|
      ensures unchanged(this`db, this`customExcludedPatterns)
    {
      stats := ZeroStats;
      stats := stats.(totalFiles := |files|);
      ghost var start := CurrentState();
      ProcessFilesIncremental(files, env);
      PassAccounting(start, files, env);
      ghost var passed := CurrentState();
      CleanupDeletedFiles(files, deleteFails);
      CleanupStats(passed, files, deleteFails);
    }

    // -------------------------------------------------------------------
    // The retry worker

    /** One iteration of the loop over `files_to_retry`. */
    method RetryFile(path: string, env: Env)
      requires Valid()
      modifies this, db
      ensures Valid()
      ensures db.history == old(db.history)
      ensures CurrentState() == RetryStep(old(CurrentState()), path, env)
      ensures unchanged(this`db, this`customExcludedPatterns)
    {
      // `os.path.exists` is False for a missing file and for one `os.stat` cannot read
      if path !in env.fs || env.fs[path].Locked? {
        UnregisteredKeeps(skippedFiles, path);
        skippedFiles := Unregistered(skippedFiles, path);
        return;
      }
      var stat := env.fs[path];
      if stat.size > MaxFileSize {
        UnregisteredKeeps(skippedFiles, path);
        skippedFiles := Unregistered(skippedFiles, path);
        return;
      }
      var content := ExtractTextSafe(path, env);
      if !HasText(content) {
        BumpedKeeps(skippedFiles, path);
        skippedFiles := Bumped(skippedFiles, path);
        return;
      }
      if path in env.writeFails {
        // the database write raised: counted as a failed retry only
        return;
      }
      var text := content.value;
      var current := stat.mtime;
      var indexed := db.GetFileMtime(path);
      if indexed.Some? {
        db.UpdateFile(path, text, current);
      } else {
        db.InsertFile(path, text, current);
      }
      UnregisteredKeeps(skippedFiles, path);
      skippedFiles := Unregistered(skippedFiles, path);
      var tokens := CountTokens(text);
      AddLogToMemory(LogEntry(RetrySuccess, Basename(path), Extracted(|text|, tokens, true)));
    }

    /** One wake-up of `_retry_worker`: every path listed at that moment is retried once. */
    method RetryPending(env: Env)
      requires Valid()
      modifies this, db
      ensures Valid()
      ensures db.history == old(db.history)
      ensures CurrentState() == RetryRound(old(CurrentState()), env)
      ensures unchanged(this`db, this`customExcludedPatterns)
    {
      var filesToRetry := SkipPaths(skippedFiles);
      var i := 0;
      while i < |filesToRetry|
        invariant 0 <= i <= |filesToRetry|
        invariant unchanged(this`db, this`customExcludedPatterns) && Valid()
        invariant db.history == old(db.history)
        invariant RetryAll(CurrentState(), filesToRetry[i..], env) == RetryRound(old(CurrentState()), env)
      {
        assert filesToRetry[i..][1..] == filesToRetry[i + 1..];
        RetryFile(filesToRetry[i], env);
        i := i + 1;
      }
    }

    /**
     * `_retry_worker`, one wake-up per element of `envs`; it stops early
     * once the list is empty.
     */
    method RetryWorker(envs: seq<Env>)
      requires Valid()
      modifies this, db
      ensures Valid()
      ensures db.history == old(db.history)
      ensures CurrentState() == Rounds(old(CurrentState()), envs)
      ensures unchanged(this`db, this`customExcludedPatterns)
    {
      var k := 0;
      while k < |envs|
        invariant 0 <= k <= |envs|
        invariant unchanged(this`db, this`customExcludedPatterns) && Valid()
        invariant db.history == old(db.history)
        invariant Rounds(CurrentState(), envs[k..]) == Rounds(old(CurrentState()), envs)
      {
        if skippedFiles == [] {
          RoundsIdle(CurrentState(), envs[k..]);
          return;
        }
        assert envs[k..][1..] == envs[k + 1..];
        RetryPending(envs[k]);
        k := k + 1;
      }
    }

    /** `get_skipped_files_count`. */
    function GetSkippedFilesCount(): (n: nat)
      reads this
      ensures Valid() ==> n == |set e | e in skippedFiles :: e.path|
    {
      DistinctPathCount(skippedFiles);
      |skippedFiles|
    }
  }

  /** The four ways an iteration can go, by what `getsize` and `getmtime` see. */
  lemma FileStepCases(ps: PassState, path: string, env: Env)
    ensures path !in env.fs ==>
      FileStep(ps, path, env) == PassState(CountError(Incremental.LogError(ps.st, path, FileMissing)), ps.batch)
    ensures path in env.fs && env.fs[path].Locked? ==>
      FileStep(ps, path, env) == PassState(CountSkipped(Incremental.LogSkip(ps.st, path, LockedReason, env.now)), ps.batch)
    ensures path in env.fs && env.fs[path].Present? && env.fs[path].size > MaxFileSize ==>
      FileStep(ps, path, env) == PassState(CountSkipped(Incremental.LogSkip(ps.st, path, SizeExceededReason(env.fs[path].size), env.now)), ps.batch)
    ensures path in env.fs && env.fs[path].Present? && env.fs[path].size <= MaxFileSize ==>
      FileStep(ps, path, env) == ClassifiedStep(ps, path, env.fs[path].mtime, env)
  {
  }

  /** The cleanup only changes the rows and `deleted_files`. */
  lemma CleanupStats(st: State, current: seq<string>, deleteFails: set<string>)
    ensures var s := Cleanup(st, current, deleteFails).stats;
      s == st.stats.(deletedFiles := s.deletedFiles)
  {
    DeleteAllStats(st, Doomed(Paths(st.rows), set p | p in current), deleteFails);
  }

  lemma {:induction false} DeleteAllStats(st: State, doomed: seq<string>, deleteFails: set<string>)
    ensures var s := DeleteAll(st, doomed, deleteFails).stats;
      s == st.stats.(deletedFiles := s.deletedFiles)
    decreases |doomed|
  {
    if doomed != [] && doomed[0] !in deleteFails {
      var st1 := st.(rows := Without(st.rows, doomed[0]),
                     stats := st.stats.(deletedFiles := st.stats.deletedFiles + 1));
      DeleteAllStats(st1, doomed[1..], deleteFails);
    }
  }

  /** With one entry per path the dictionary's size is the number of distinct paths. */
  lemma {:induction false} DistinctPathCount(skipped: seq<SkipEntry>)
    ensures UniqueSkips(skipped) ==> |skipped| == |set e | e in skipped :: e.path|
    decreases |skipped|
  {
    if skipped != [] && UniqueSkips(skipped) {
      var rest := skipped[1..];
      assert forall i :: 0 <= i < |rest| ==> rest[i] == skipped[i + 1];
      DistinctPathCount(rest);
      var all := set e | e in skipped :: e.path;
      var tail := set e | e in rest :: e.path;
      assert all == tail + {skipped[0].path};
      assert skipped[0].path !in tail;
    }
  }
}
