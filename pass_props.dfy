/**
 * What the incremental pass guarantees: the per-file accounting, the
 * batch bound, no work for unchanged files, at most one row per path,
 * every extractable file indexed afterwards, and a second run over an
 * unchanged tree writing nothing.
 */
module PassProperties {
  import opened Wrappers
  import opened PyStr
  import opened SkipReasons
  import opened SkipTable
  import opened IndexLog
  import opened Database
  import opened Incremental

  /** Every file ends up counted as exactly one of indexed, skipped or failed. */
  function Settled(s: Stats): nat {
    s.indexedFiles + s.skippedFiles + s.errorFiles
  }

  // ---------------------------------------------------------------------
  // Accounting

  /**
   * One iteration adds one to exactly one of `indexed_files`,
   * `skipped_files` and `error_files`, at most one to `new_files` +
   * `modified_files`, and `indexed_files` grows only for a new or
   * modified file.
   */
  lemma StepAccounting(ps: PassState, path: string, env: Env)
    ensures var s := FileStep(ps, path, env).st.stats;
      && Settled(s) == Settled(ps.st.stats) + 1
      && s.newFiles + s.modifiedFiles <= ps.st.stats.newFiles + ps.st.stats.modifiedFiles + 1
      && s.indexedFiles - ps.st.stats.indexedFiles
         <= (s.newFiles + s.modifiedFiles) - (ps.st.stats.newFiles + ps.st.stats.modifiedFiles)
      && s.totalFiles == ps.st.stats.totalFiles && s.deletedFiles == ps.st.stats.deletedFiles
  {
    if path in env.fs && env.fs[path].Present? && env.fs[path].size <= MaxFileSize {
      ClassifiedAccounting(ps, path, env.fs[path].mtime, env);
    }
  }

  lemma ClassifiedAccounting(ps: PassState, path: string, current: real, env: Env)
    ensures var s := ClassifiedStep(ps, path, current, env).st.stats;
      && Settled(s) == Settled(ps.st.stats) + 1
      && s.newFiles + s.modifiedFiles <= ps.st.stats.newFiles + ps.st.stats.modifiedFiles + 1
      && s.indexedFiles - ps.st.stats.indexedFiles
         <= (s.newFiles + s.modifiedFiles) - (ps.st.stats.newFiles + ps.st.stats.modifiedFiles)
      && s.totalFiles == ps.st.stats.totalFiles && s.deletedFiles == ps.st.stats.deletedFiles
  {
    var indexed := FirstMtime(ps.st.rows, path);
    if !(indexed.Some? && WithinTolerance(current, indexed.value)) {
      var counted := if indexed.Some? then CountModified(ps.st) else CountNew(ps.st);
      var ex := ExtractSafe(LogIndexing(counted, path), path, env);
      assert ex.st.stats == counted.stats;
      if HasText(ex.content) {
        var text := ex.content.value;
        if indexed.None? {
          var st := CountIndexed(ex.st).(logs := Pushed(ex.st.logs, SuccessEntry(path, text, false)));
          FlushStats(PassState(st, ps.batch + [Row(path, text, current)]), env);
        } else if path !in env.writeFails {
          var updated := CountIndexed(ex.st).(rows := Updated(ex.st.rows, path, text, current));
          var st := updated.(logs := Pushed(updated.logs, SuccessEntry(path, text, true)));
          FlushStats(PassState(st, ps.batch), env);
        }
      }
    }
  }

  lemma FlushStats(ps: PassState, env: Env)
    ensures FlushIfFull(ps, env).st.stats == ps.st.stats
  {
  }

  /** Over the whole pass: one settled count per listed file. */
  lemma {:induction false} PassAccounting(st: State, files: seq<string>, env: Env)
    ensures var s := Pass(st, files, env).stats;
      && Settled(s) == Settled(st.stats) + |files|
      && s.newFiles + s.modifiedFiles <= st.stats.newFiles + st.stats.modifiedFiles + |files|
      && s.indexedFiles - st.stats.indexedFiles <= (s.newFiles + s.modifiedFiles) - (st.stats.newFiles + st.stats.modifiedFiles)
      && s.totalFiles == st.stats.totalFiles && s.deletedFiles == st.stats.deletedFiles
  {
    RunAccounting(PassState(st, []), files, env);
  }

  lemma {:induction false} RunAccounting(ps: PassState, files: seq<string>, env: Env)
    ensures var s := RunFiles(ps, files, env).st.stats;
      && Settled(s) == Settled(ps.st.stats) + |files|
      && s.newFiles + s.modifiedFiles <= ps.st.stats.newFiles + ps.st.stats.modifiedFiles + |files|
      && s.indexedFiles - ps.st.stats.indexedFiles <= (s.newFiles + s.modifiedFiles) - (ps.st.stats.newFiles + ps.st.stats.modifiedFiles)
      && s.totalFiles == ps.st.stats.totalFiles && s.deletedFiles == ps.st.stats.deletedFiles
    decreases |files|
  {
    if files != [] {
      var init := files[..|files| - 1];
      RunAccounting(ps, init, env);
      StepAccounting(RunFiles(ps, init, env), files[|files| - 1], env);
    }
  }

  // ---------------------------------------------------------------------
  // The batch

  /** Between iterations the pending batch never reaches 100 rows. */
  lemma {:induction false} RunBatchBound(ps: PassState, files: seq<string>, env: Env)
    requires |ps.batch| < BatchSize
    ensures |RunFiles(ps, files, env).batch| < BatchSize
    decreases |files|
  {
    if files != [] {
      RunBatchBound(ps, files[..|files| - 1], env);
      StepBatchBound(RunFiles(ps, files[..|files| - 1], env), files[|files| - 1], env);
    }
  }

  lemma StepBatchBound(ps: PassState, path: string, env: Env)
    requires |ps.batch| < BatchSize
    ensures |FileStep(ps, path, env).batch| < BatchSize
  {
    if path in env.fs && env.fs[path].Present? && env.fs[path].size <= MaxFileSize {
      var current := env.fs[path].mtime;
      var indexed := FirstMtime(ps.st.rows, path);
      if !(indexed.Some? && WithinTolerance(current, indexed.value)) {
        var counted := if indexed.Some? then CountModified(ps.st) else CountNew(ps.st);
        var ex := ExtractSafe(LogIndexing(counted, path), path, env);
        if HasText(ex.content) && indexed.None? {
          var text := ex.content.value;
          var st := CountIndexed(ex.st).(logs := Pushed(ex.st.logs, SuccessEntry(path, text, false)));
          var next := PassState(st, ps.batch + [Row(path, text, current)]);
          assert |FlushIfFull(next, env).batch| < BatchSize;
        }
      }
    }
  }

  // ---------------------------------------------------------------------
  // Unchanged files

  /** The file exists, fits the size limit and its stored mtime is within one second. */
  predicate UpToDate(rows: seq<Row>, path: string, env: Env) {
    && path in env.fs && env.fs[path].Present? && env.fs[path].size <= MaxFileSize
    && FirstMtime(rows, path).Some?
    && WithinTolerance(env.fs[path].mtime, FirstMtime(rows, path).value)
  }

  /**
   * An up-to-date file is only counted as skipped: nothing is extracted,
   * written, logged or queued, and the batch is left alone.
   */
  lemma UpToDateUntouched(ps: PassState, path: string, env: Env)
    requires UpToDate(ps.st.rows, path, env)
    ensures FileStep(ps, path, env) == PassState(CountSkipped(ps.st), ps.batch)
  {
  }

  /** `CountSkipped` applied `n` times. */
  function SkippedN(st: State, n: nat): State {
    st.(stats := st.stats.(skippedFiles := st.stats.skippedFiles + n))
  }

  /** A pass over up-to-date files writes nothing and only counts them as skipped. */
  lemma {:induction false} PassOverUpToDate(st: State, files: seq<string>, env: Env)
    requires forall i :: 0 <= i < |files| ==> UpToDate(st.rows, files[i], env)
    ensures Pass(st, files, env) == SkippedN(st, |files|)
  {
    RunOverUpToDate(PassState(st, []), files, env);
  }

  lemma {:induction false} RunOverUpToDate(ps: PassState, files: seq<string>, env: Env)
    requires forall i :: 0 <= i < |files| ==> UpToDate(ps.st.rows, files[i], env)
    ensures RunFiles(ps, files, env) == PassState(SkippedN(ps.st, |files|), ps.batch)
    decreases |files|
  {
    if files != [] {
      var init := files[..|files| - 1];
      RunOverUpToDate(ps, init, env);
      UpToDateUntouched(RunFiles(ps, init, env), files[|files| - 1], env);
    }
  }

  // ---------------------------------------------------------------------
  // At most one row per path

  function BatchPaths(batch: seq<Row>): set<string> {
    set i | 0 <= i < |batch| :: batch[i].path
  }

  /** Two tables whose rows carry the same paths position by position. */
  predicate SamePaths(a: seq<Row>, b: seq<Row>) {
    |a| == |b| && forall i :: 0 <= i < |a| ==> a[i].path == b[i].path
  }

  lemma SamePathsUnique(a: seq<Row>, b: seq<Row>)
    requires SamePaths(a, b) && UniquePaths(a)
    ensures UniquePaths(b)
  {
  }

  lemma UpdatedSamePaths(rows: seq<Row>, batch: seq<Row>, p: string, content: string, mtime: real)
    requires HasPath(rows, p)
    ensures SamePaths(rows + batch, Updated(rows, p, content, mtime) + batch)
  {
    UpdateWhereRows(rows, p, content, mtime);
  }

  lemma UniquePrefix(a: seq<Row>, b: seq<Row>)
    requires UniquePaths(a + b)
    ensures UniquePaths(a)
  {
    assert forall i :: 0 <= i < |a| ==> a[i] == (a + b)[i];
  }

  lemma BatchPathsAppend(batch: seq<Row>, r: Row)
    ensures BatchPaths(batch + [r]) == BatchPaths(batch) + {r.path}
  {
    var b := batch + [r];
    assert b[|batch|] == r;
    forall x | x in BatchPaths(batch) ensures x in BatchPaths(b) {
      var i :| 0 <= i < |batch| && batch[i].path == x;
      assert b[i].path == x;
    }
  }

  /** The invariant of the loop: rows and pending batch together hold each path once. */
  predicate UniqueSoFar(ps: PassState, done: seq<string>) {
    UniquePaths(ps.st.rows + ps.batch) && forall p :: p in BatchPaths(ps.batch) ==> p in done
  }

  lemma FlushKeepsUnique(ps: PassState, done: seq<string>, env: Env)
    requires UniqueSoFar(ps, done)
    ensures UniqueSoFar(FlushIfFull(ps, env), done)
  {
    if |ps.batch| >= BatchSize {
      if env.batchFails(ps.batch) {
        UniquePrefix(ps.st.rows, ps.batch);
        assert ps.st.rows + [] == ps.st.rows;
      } else {
        assert (ps.st.rows + ps.batch) + [] == ps.st.rows + ps.batch;
      }
    }
  }

  lemma StepKeepsUnique(ps: PassState, done: seq<string>, path: string, env: Env)
    requires UniqueSoFar(ps, done) && path !in done
    ensures UniqueSoFar(FileStep(ps, path, env), done + [path])
  {
    MoreDone(ps, done, path);
    if path in env.fs && env.fs[path].Present? && env.fs[path].size <= MaxFileSize {
      ClassifiedKeepsUnique(ps, done, path, env.fs[path].mtime, env);
    }
  }

  lemma MoreDone(ps: PassState, done: seq<string>, path: string)
    requires UniqueSoFar(ps, done)
    ensures UniqueSoFar(ps, done + [path])
  {
  }

  lemma ClassifiedKeepsUnique(ps: PassState, done: seq<string>, path: string, current: real, env: Env)
    requires UniqueSoFar(ps, done) && path !in done
    ensures UniqueSoFar(ClassifiedStep(ps, path, current, env), done + [path])
  {
    MoreDone(ps, done, path);
    var indexed := FirstMtime(ps.st.rows, path);
    if !(indexed.Some? && WithinTolerance(current, indexed.value)) {
      var counted := if indexed.Some? then CountModified(ps.st) else CountNew(ps.st);
      var ex := ExtractSafe(LogIndexing(counted, path), path, env);
      if HasText(ex.content) {
        var text := ex.content.value;
        if indexed.None? {
          var st := CountIndexed(ex.st).(logs := Pushed(ex.st.logs, SuccessEntry(path, text, false)));
          var next := PassState(st, ps.batch + [Row(path, text, current)]);
          AppendNewKeepsUnique(ps, st, done, Row(path, text, current));
          FlushKeepsUnique(next, done + [path], env);
        } else if path !in env.writeFails {
          var updated := CountIndexed(ex.st).(rows := Updated(ex.st.rows, path, text, current));
          var st := updated.(logs := Pushed(updated.logs, SuccessEntry(path, text, true)));
          UpdatedSamePaths(ps.st.rows, ps.batch, path, text, current);
          SamePathsUnique(ps.st.rows + ps.batch, st.rows + ps.batch);
          FlushKeepsUnique(PassState(st, ps.batch), done + [path], env);
        }
      }
    }
  }

  /** Queuing a row for a path neither stored nor visited before keeps paths unique. */
  lemma AppendNewKeepsUnique(ps: PassState, st: State, done: seq<string>, row: Row)
    requires UniqueSoFar(ps, done) && row.path !in done
    requires st.rows == ps.st.rows && !HasPath(ps.st.rows, row.path)
    ensures UniqueSoFar(PassState(st, ps.batch + [row]), done + [row.path])
  {
    HasPathAppend(ps.st.rows, ps.batch, row.path);
    assert !HasPath(ps.batch, row.path) by {
      forall i | 0 <= i < |ps.batch| ensures ps.batch[i].path != row.path {
        assert ps.batch[i].path in BatchPaths(ps.batch);
      }
    }
    AppendKeepsUnique(ps.st.rows + ps.batch, row);
    assert ps.st.rows + (ps.batch + [row]) == (ps.st.rows + ps.batch) + [row];
    BatchPathsAppend(ps.batch, row);
  }

  /** No path is listed twice. */
  predicate Distinct(files: seq<string>) {
    forall i, j :: 0 <= i < j < |files| ==> files[i] != files[j]
  }

  lemma {:induction false} RunKeepsUnique(ps: PassState, files: seq<string>, env: Env)
    requires UniquePaths(ps.st.rows) && ps.batch == [] && Distinct(files)
    ensures UniqueSoFar(RunFiles(ps, files, env), files)
    decreases |files|
  {
    if files == [] {
      assert ps.st.rows + [] == ps.st.rows;
    } else {
      var init := files[..|files| - 1];
      var last := files[|files| - 1];
      RunKeepsUnique(ps, init, env);
      assert last !in init;
      StepKeepsUnique(RunFiles(ps, init, env), init, last, env);
      assert init + [last] == files;
    }
  }

  /**
   * Starting from a table with one row per path and a crawl list without
   * repeats, the pass leaves at most one row per path, whatever fails.
   */
  lemma PassKeepsUnique(st: State, files: seq<string>, env: Env)
    requires UniquePaths(st.rows) && Distinct(files)
    ensures UniquePaths(Pass(st, files, env).rows)
  {
    var ps := RunFiles(PassState(st, []), files, env);
    RunKeepsUnique(PassState(st, []), files, env);
    if ps.batch == [] {
      assert ps.st.rows + ps.batch == ps.st.rows;
    } else if env.batchFails(ps.batch) {
      UniquePrefix(ps.st.rows, ps.batch);
    } else {
      assert Pass(st, files, env).rows == ps.st.rows + ps.batch;
    }
  }

  /** A file with no stored row and some text is queued, and nothing is written yet. */
  lemma NewFileQueued(ps: PassState, path: string, env: Env)
    requires path in env.fs && env.fs[path].Present? && env.fs[path].size <= MaxFileSize
    requires FirstMtime(ps.st.rows, path).None? && HasText(ExtractedText(path, env))
    requires |ps.batch| + 1 < BatchSize
    ensures FileStep(ps, path, env).st.rows == ps.st.rows
    ensures FileStep(ps, path, env).batch == ps.batch + [Row(path, ExtractedText(path, env).value, env.fs[path].mtime)]
  {
  }

  /**
   * The same file listed twice (two root folders that overlap) is queued
   * twice: the second visit still finds no stored mtime, since the first
   * row is only in the pending batch.
   */
  lemma RepeatedFileQueuedTwice(st: State, path: string, env: Env)
    requires path in env.fs && env.fs[path].Present? && env.fs[path].size <= MaxFileSize
    requires !HasPath(st.rows, path) && HasText(ExtractedText(path, env))
    ensures var ps := RunFiles(PassState(st, []), [path, path], env);
      ps.st.rows == st.rows && |ps.batch| == 2 && ps.batch[0] == ps.batch[1] && ps.batch[0].path == path
  {
    var ps0 := PassState(st, []);
    assert [path, path][..1] == [path];
    assert [path][..0] == [];
    NewFileQueued(ps0, path, env);
    var ps1 := FileStep(ps0, path, env);
    assert RunFiles(ps0, [path], env) == ps1;
    NewFileQueued(ps1, path, env);
  }

  // ---------------------------------------------------------------------
  // Every extractable file is indexed

  /** No database write raises during the run. */
  ghost predicate FaultFree(env: Env) {
    env.writeFails == {} && forall b :: !env.batchFails(b)
  }

  /** The file exists, fits the size limit, and its extractor returns some text. */
  predicate Extractable(path: string, env: Env) {
    && path in env.fs && env.fs[path].Present? && env.fs[path].size <= MaxFileSize
    && env.extract(path).Text? && PrefixSlice(env.extract(path).text, MaxTextChars) != []
  }

  /** The stored mtime of `path` is within a second of the file's current one. */
  predicate IndexedFresh(rows: seq<Row>, path: string, env: Env)
    requires path in env.fs && env.fs[path].Present?
  {
    FirstMtime(rows, path).Some? && WithinTolerance(env.fs[path].mtime, FirstMtime(rows, path).value)
  }

  /** Every pending row carries its file's current mtime. */
  predicate BatchCurrent(batch: seq<Row>, env: Env) {
    forall i :: 0 <= i < |batch| ==>
      batch[i].path in env.fs && env.fs[batch[i].path].Present? && batch[i].mtime == env.fs[batch[i].path].mtime
  }

  predicate FreshSoFar(ps: PassState, done: seq<string>, env: Env) {
    && BatchCurrent(ps.batch, env)
    && forall i :: 0 <= i < |done| && Extractable(done[i], env) ==> IndexedFresh(ps.st.rows + ps.batch, done[i], env)
  }

  lemma {:induction false} FirstMtimeConcat(a: seq<Row>, b: seq<Row>, p: string)
    ensures HasPath(a, p) ==> FirstMtime(a + b, p) == FirstMtime(a, p)
    ensures !HasPath(a, p) ==> FirstMtime(a + b, p) == FirstMtime(b, p)
    decreases |a|
  {
    if a == [] {
      assert a + b == b;
    } else {
      HasPathCons(a, p);
      FirstMtimeConcat(a[1..], b, p);
      assert (a + b)[1..] == a[1..] + b;
    }
  }

  /** A flush moves rows from the batch to the table without changing any lookup of `rows + batch`. */
  lemma FlushFresh(ps: PassState, done: seq<string>, env: Env)
    requires FaultFree(env) && FreshSoFar(ps, done, env)
    ensures FreshSoFar(FlushIfFull(ps, env), done, env)
  {
    if |ps.batch| >= BatchSize {
      assert !env.batchFails(ps.batch);
      assert (ps.st.rows + ps.batch) + [] == ps.st.rows + ps.batch;
    }
  }

  /** Appending a row keeps every path that was already present. */
  lemma AppendFresh(rows: seq<Row>, row: Row, done: seq<string>, env: Env)
    requires forall i :: 0 <= i < |done| && Extractable(done[i], env) ==> IndexedFresh(rows, done[i], env)
    ensures forall i :: 0 <= i < |done| && Extractable(done[i], env) ==> IndexedFresh(rows + [row], done[i], env)
  {
    FirstMtimeAppend(rows, row);
  }

  lemma StepFresh(ps: PassState, done: seq<string>, path: string, env: Env)
    requires FaultFree(env) && FreshSoFar(ps, done, env)
    ensures FreshSoFar(FileStep(ps, path, env), done + [path], env)
  {
    var next := FileStep(ps, path, env);
    if path in env.fs && env.fs[path].Present? && env.fs[path].size <= MaxFileSize {
      assert next == ClassifiedStep(ps, path, env.fs[path].mtime, env);
      ClassifiedFresh(ps, done, path, env);
    } else {
      StepUnclassified(ps, path, env);
      SameTableFresh(ps, next, done, path, env);
    }
  }

  /** A missing, locked or oversize file leaves the table and the batch alone. */
  lemma StepUnclassified(ps: PassState, path: string, env: Env)
    requires !(path in env.fs && env.fs[path].Present? && env.fs[path].size <= MaxFileSize)
    ensures FileStep(ps, path, env).st.rows == ps.st.rows && FileStep(ps, path, env).batch == ps.batch
  {
  }

  lemma SameTableFresh(ps: PassState, next: PassState, done: seq<string>, path: string, env: Env)
    requires FreshSoFar(ps, done, env) && !Extractable(path, env)
    requires next.st.rows == ps.st.rows && next.batch == ps.batch
    ensures FreshSoFar(next, done + [path], env)
  {
  }

  lemma ClassifiedFresh(ps: PassState, done: seq<string>, path: string, env: Env)
    requires FaultFree(env) && FreshSoFar(ps, done, env)
    requires path in env.fs && env.fs[path].Present? && env.fs[path].size <= MaxFileSize
    ensures FreshSoFar(ClassifiedStep(ps, path, env.fs[path].mtime, env), done + [path], env)
  {
    var current := env.fs[path].mtime;
    var all := ps.st.rows + ps.batch;
    var indexed := FirstMtime(ps.st.rows, path);
    FirstMtimeConcat(ps.st.rows, ps.batch, path);
    if indexed.Some? && WithinTolerance(current, indexed.value) {
      assert ClassifiedStep(ps, path, current, env).st.rows == ps.st.rows;
    } else {
      var counted := if indexed.Some? then CountModified(ps.st) else CountNew(ps.st);
      var ex := ExtractSafe(LogIndexing(counted, path), path, env);
      if !HasText(ex.content) {
        assert !Extractable(path, env);
      } else {
        var text := ex.content.value;
        if indexed.None? {
          var st := CountIndexed(ex.st).(logs := Pushed(ex.st.logs, SuccessEntry(path, text, false)));
          QueuedFresh(ps, st, done, Row(path, text, current), env);
          FlushFresh(PassState(st, ps.batch + [Row(path, text, current)]), done + [path], env);
        } else {
          var updated := CountIndexed(ex.st).(rows := Updated(ex.st.rows, path, text, current));
          var st := updated.(logs := Pushed(updated.logs, SuccessEntry(path, text, true)));
          UpdatedFresh(ps, done, path, text, current, env);
          FlushFresh(PassState(st, ps.batch), done + [path], env);
        }
      }
    }
  }

  /** Queuing a new file's row with its current mtime. */
  lemma QueuedFresh(ps: PassState, st: State, done: seq<string>, row: Row, env: Env)
    requires FreshSoFar(ps, done, env) && st.rows == ps.st.rows && !HasPath(ps.st.rows, row.path)
    requires row.path in env.fs && env.fs[row.path].Present? && row.mtime == env.fs[row.path].mtime
    ensures FreshSoFar(PassState(st, ps.batch + [row]), done + [row.path], env)
  {
    var all := ps.st.rows + ps.batch;
    var path := row.path;
    assert st.rows + (ps.batch + [row]) == all + [row];
    AppendFresh(all, row, done, env);
    FirstMtimeAppend(all, row);
    FirstMtimeConcat(ps.st.rows, ps.batch, path);
    if HasPath(ps.batch, path) {
      var v := FirstMtime(ps.batch, path).value;
      var k :| 0 <= k < |ps.batch| && ps.batch[k].path == path && ps.batch[k].mtime == v;
    }
    assert IndexedFresh(all + [row], path, env);
  }

  /** Rewriting a stored file's row with its current mtime. */
  lemma UpdatedFresh(ps: PassState, done: seq<string>, path: string, text: string, current: real, env: Env)
    requires FreshSoFar(ps, done, env) && HasPath(ps.st.rows, path)
    requires path in env.fs && env.fs[path].Present? && current == env.fs[path].mtime
    ensures FreshSoFar(PassState(ps.st.(rows := Updated(ps.st.rows, path, text, current)), ps.batch), done + [path], env)
  {
    var all := ps.st.rows + ps.batch;
    var rows := Updated(ps.st.rows, path, text, current);
    var newAll := rows + ps.batch;
    UpdateWhereRows(ps.st.rows, path, text, current);
    forall q | q != path ensures FirstMtime(newAll, q) == FirstMtime(all, q) {
      FirstMtimeSameRows(all, newAll, q);
    }
    UpdatedEffect(ps.st.rows, path, text, current);
    FirstMtimeConcat(rows, ps.batch, path);
    assert IndexedFresh(newAll, path, env);
  }

  lemma {:induction false} RunFresh(ps: PassState, files: seq<string>, env: Env)
    requires FaultFree(env) && ps.batch == []
    ensures FreshSoFar(RunFiles(ps, files, env), files, env)
    decreases |files|
  {
    if files != [] {
      var init := files[..|files| - 1];
      RunFresh(ps, init, env);
      StepFresh(RunFiles(ps, init, env), init, files[|files| - 1], env);
      assert init + [files[|files| - 1]] == files;
    }
  }

  /**
   * After a pass in which no database write fails, every listed file that
   * exists, fits the size limit and yields text is in the table with a
   * stored mtime within one second of its current one.
   */
  lemma PassIndexesExtractable(st: State, files: seq<string>, env: Env, i: int)
    requires FaultFree(env)
    requires 0 <= i < |files| && Extractable(files[i], env)
    ensures IndexedFresh(Pass(st, files, env).rows, files[i], env)
  {
    var ps := RunFiles(PassState(st, []), files, env);
    RunFresh(PassState(st, []), files, env);
    if ps.batch == [] {
      assert ps.st.rows + ps.batch == ps.st.rows;
    }
  }

  /**
   * Running the pass again over the same, unchanged tree writes nothing:
   * when every listed file is extractable and no write fails, the second
   * run only counts every file as skipped.
   */
  lemma SecondPassIdle(st: State, files: seq<string>, env: Env)
    requires FaultFree(env)
    requires forall i :: 0 <= i < |files| ==> Extractable(files[i], env)
    ensures var first := Pass(st, files, env);
      Pass(first, files, env) == SkippedN(first, |files|)
  {
    var first := Pass(st, files, env);
    forall i | 0 <= i < |files| ensures UpToDate(first.rows, files[i], env) {
      PassIndexesExtractable(st, files, env, i);
    }
    PassOverUpToDate(first, files, env);
  }

  // ---------------------------------------------------------------------
  // The retry list during a pass

  /** The retry list stays keyed by path, with counts below the limit; a step adds at most its own path. */
  predicate SkipTableOk(skipped: seq<SkipEntry>) {
    UniqueSkips(skipped) && CountsBelowMax(skipped)
  }

  lemma LogSkipKeepsTable(st: State, path: string, reason: string, now: real)
    requires SkipTableOk(st.skipped)
    ensures SkipTableOk(LogSkip(st, path, reason, now).skipped)
    ensures forall q :: IsSkipped(LogSkip(st, path, reason, now).skipped, q) ==> IsSkipped(st.skipped, q) || q == path
  {
    assert LogSkip(st, path, reason, now).skipped == Registered(st.skipped, path, reason, now);
    RegisteredKeeps(st.skipped, path, reason, now);
  }

  /** The pass only ever adds entries with a zero count, keeping one entry per path. */
  lemma StepKeepsSkipTable(ps: PassState, path: string, env: Env)
    requires SkipTableOk(ps.st.skipped)
    ensures SkipTableOk(FileStep(ps, path, env).st.skipped)
    ensures forall q :: IsSkipped(FileStep(ps, path, env).st.skipped, q) ==> IsSkipped(ps.st.skipped, q) || q == path
  {
    var st := ps.st;
    if path !in env.fs {
    } else if env.fs[path].Locked? {
      LogSkipKeepsTable(st, path, LockedReason, env.now);
    } else if env.fs[path].size > MaxFileSize {
      LogSkipKeepsTable(st, path, SizeExceededReason(env.fs[path].size), env.now);
    } else {
      ClassifiedKeepsSkipTable(ps, path, env.fs[path].mtime, env);
    }
  }

  lemma ClassifiedKeepsSkipTable(ps: PassState, path: string, current: real, env: Env)
    requires SkipTableOk(ps.st.skipped)
    ensures SkipTableOk(ClassifiedStep(ps, path, current, env).st.skipped)
    ensures forall q :: IsSkipped(ClassifiedStep(ps, path, current, env).st.skipped, q) ==> IsSkipped(ps.st.skipped, q) || q == path
  {
    ClassifiedSkipped(ps, path, current, env);
    if env.extract(path).Failed? {
      RegisteredKeeps(ps.st.skipped, path, FailureReason(env.extract(path).failure), env.now);
    }
  }

  /** Within a step only extraction touches the retry list. */
  lemma ClassifiedSkipped(ps: PassState, path: string, current: real, env: Env)
    ensures var s := ClassifiedStep(ps, path, current, env).st.skipped;
      s == ps.st.skipped || s == SkippedAfterExtract(ps.st.skipped, path, env)
  {
    var indexed := FirstMtime(ps.st.rows, path);
    if !(indexed.Some? && WithinTolerance(current, indexed.value)) {
      var counted := if indexed.Some? then CountModified(ps.st) else CountNew(ps.st);
      var ex := ExtractSafe(LogIndexing(counted, path), path, env);
      assert ex.st.skipped == SkippedAfterExtract(ps.st.skipped, path, env);
      if HasText(ex.content) {
        var text := ex.content.value;
        if indexed.None? {
          var st := CountIndexed(ex.st).(logs := Pushed(ex.st.logs, SuccessEntry(path, text, false)));
          FlushSkipped(PassState(st, ps.batch + [Row(path, text, current)]), env);
        } else if path !in env.writeFails {
          var updated := CountIndexed(ex.st).(rows := Updated(ex.st.rows, path, text, current));
          var st := updated.(logs := Pushed(updated.logs, SuccessEntry(path, text, true)));
          FlushSkipped(PassState(st, ps.batch), env);
        }
      }
    }
  }

  lemma FlushSkipped(ps: PassState, env: Env)
    ensures FlushIfFull(ps, env).st.skipped == ps.st.skipped
  {
  }

  /** Over the pass: the retry list stays well formed and gains only listed files. */
  lemma {:induction false} RunKeepsSkipTable(ps: PassState, files: seq<string>, env: Env)
    requires SkipTableOk(ps.st.skipped)
    ensures SkipTableOk(RunFiles(ps, files, env).st.skipped)
    ensures forall q :: IsSkipped(RunFiles(ps, files, env).st.skipped, q) ==> IsSkipped(ps.st.skipped, q) || q in files
    decreases |files|
  {
    if files != [] {
      var init := files[..|files| - 1];
      RunKeepsSkipTable(ps, init, env);
      StepKeepsSkipTable(RunFiles(ps, init, env), files[|files| - 1], env);
    }
  }

  lemma PassKeepsSkipTable(st: State, files: seq<string>, env: Env)
    requires SkipTableOk(st.skipped)
    ensures SkipTableOk(Pass(st, files, env).skipped)
    ensures forall q :: IsSkipped(Pass(st, files, env).skipped, q) ==> IsSkipped(st.skipped, q) || q in files
  {
    RunKeepsSkipTable(PassState(st, []), files, env);
  }

  /** An oversize file is counted as skipped but never put on the retry list. */
  lemma OversizeNotQueued(ps: PassState, path: string, env: Env)
    requires path in env.fs && env.fs[path].Present? && env.fs[path].size > MaxFileSize
    ensures FileStep(ps, path, env).st.skipped == ps.st.skipped
    ensures FileStep(ps, path, env).st.rows == ps.st.rows
  {
    SizeExceededNotRetryable(env.fs[path].size);
  }
}
