/**
 * What one round of `_retry_worker` guarantees: each listed file is
 * retried once and its entry changes only by its own outcome, nothing is
 * added to the list, a success stores the file's current mtime, and a file
 * that keeps failing is given up after at most `MaxRetries` rounds.
 */
module RetryProperties {
  import opened Wrappers
  import opened SkipReasons
  import opened SkipTable
  import opened Database
  import opened Incremental
  import opened PassProperties

  /** The retry list after retrying `path`, from the list before it. */
  function RetrySkipped(skipped: seq<SkipEntry>, path: string, env: Env): seq<SkipEntry> {
    if path !in env.fs || env.fs[path].Locked? || env.fs[path].size > MaxFileSize then
      Unregistered(skipped, path)
    else
      var x := SkippedAfterExtract(skipped, path, env);
      if !HasText(ExtractedText(path, env)) then Bumped(x, path)
      else if path in env.writeFails then x
      else Unregistered(x, path)
  }

  /** The retry succeeds: the file is readable, yields text and is stored. */
  predicate RetrySucceeds(path: string, env: Env) {
    && path in env.fs && env.fs[path].Present? && env.fs[path].size <= MaxFileSize
    && HasText(ExtractedText(path, env)) && path !in env.writeFails
  }

  /**
   * What happens to a listed file's entry: removed when the file is gone
   * or cannot be stat-ed, too large or stored; one more failure when no
   * text came back (given up at `MaxRetries`); kept as it is when the
   * database write raised.
   */
  function RetryOutcome(e: SkipEntry, env: Env): (r: Option<SkipEntry>)
    ensures r.Some? ==> r.value.path == e.path && r.value.reason == e.reason && r.value.time == e.time
    ensures r.Some? ==> r.value.retryCount == e.retryCount || r.value.retryCount == e.retryCount + 1
    ensures r.Some? && e.retryCount < MaxRetries ==> r.value.retryCount < MaxRetries
    ensures RetrySucceeds(e.path, env) ==> r.None?
    ensures e.path !in env.fs || env.fs[e.path].Locked? ==> r.None?
  {
    var path := e.path;
    if path !in env.fs || env.fs[path].Locked? || env.fs[path].size > MaxFileSize then None
    else if !HasText(ExtractedText(path, env)) then
      if e.retryCount + 1 >= MaxRetries then None else Some(e.(retryCount := e.retryCount + 1))
    else if path in env.writeFails then Some(e)
    else None
  }

  lemma RetryStepSkipped(st: State, path: string, env: Env)
    ensures RetryStep(st, path, env).skipped == RetrySkipped(st.skipped, path, env)
  {
  }

  /** Retrying a file whose extraction succeeds and whose write goes through stores it. */
  lemma RetryStepRows(st: State, path: string, env: Env)
    ensures RetrySucceeds(path, env) ==>
      RetryStep(st, path, env).rows == Updated(st.rows, path, ExtractedText(path, env).value, env.fs[path].mtime)
    ensures !RetrySucceeds(path, env) ==> RetryStep(st, path, env).rows == st.rows
  {
    if RetrySucceeds(path, env) {
      var ex := ExtractSafe(st, path, env);
      assert HasText(ex.content);
    }
  }

  /** Logging an extraction failure for a path already listed leaves the list alone. */
  lemma ExtractListed(skipped: seq<SkipEntry>, path: string, env: Env)
    requires IsSkipped(skipped, path)
    ensures SkippedAfterExtract(skipped, path, env) == skipped
  {
  }

  lemma ExtractOther(skipped: seq<SkipEntry>, path: string, env: Env, q: string)
    requires q != path
    ensures EntryOf(SkippedAfterExtract(skipped, path, env), q) == EntryOf(skipped, q)
  {
    if env.extract(path).Failed? {
      RegisteredEffect(skipped, path, FailureReason(env.extract(path).failure), env.now, q);
    }
  }

  /** Retrying one file leaves every other file's entry as it was. */
  lemma RetryOther(skipped: seq<SkipEntry>, path: string, env: Env, q: string)
    requires q != path
    ensures EntryOf(RetrySkipped(skipped, path, env), q) == EntryOf(skipped, q)
  {
    var x := SkippedAfterExtract(skipped, path, env);
    ExtractOther(skipped, path, env, q);
    UnregisteredEffect(skipped, path, q);
    UnregisteredEffect(x, path, q);
    BumpedOther(x, path, q);
  }

  /** Retrying a listed file changes its entry by its outcome. */
  lemma RetrySelf(skipped: seq<SkipEntry>, path: string, env: Env)
    requires UniqueSkips(skipped) && IsSkipped(skipped, path)
    ensures EntryOf(RetrySkipped(skipped, path, env), path) == RetryOutcome(EntryOf(skipped, path).value, env)
  {
    ExtractListed(skipped, path, env);
    UnregisteredEffect(skipped, path, path);
    BumpedSelf(skipped, path);
  }

  lemma RetryKeepsTable(skipped: seq<SkipEntry>, path: string, env: Env)
    requires SkipTableOk(skipped)
    ensures SkipTableOk(RetrySkipped(skipped, path, env))
  {
    var x := SkippedAfterExtract(skipped, path, env);
    UnregisteredKeeps(skipped, path);
    if env.extract(path).Failed? {
      RegisteredKeeps(skipped, path, FailureReason(env.extract(path).failure), env.now);
    }
    BumpedKeeps(x, path);
    UnregisteredKeeps(x, path);
  }

  // ---------------------------------------------------------------------
  // A round over the snapshot of the list

  /** A file not in the snapshot keeps its entry (or its absence) through the round. */
  lemma {:induction false} RetryAllOther(st: State, paths: seq<string>, env: Env, q: string)
    requires SkipTableOk(st.skipped) && q !in paths
    ensures EntryOf(RetryAll(st, paths, env).skipped, q) == EntryOf(st.skipped, q)
    ensures SkipTableOk(RetryAll(st, paths, env).skipped)
    decreases |paths|
  {
    if paths != [] {
      var st1 := RetryStep(st, paths[0], env);
      RetryStepSkipped(st, paths[0], env);
      RetryOther(st.skipped, paths[0], env, q);
      RetryKeepsTable(st.skipped, paths[0], env);
      RetryAllOther(st1, paths[1..], env, q);
    }
  }

  lemma {:induction false} RetryAllKeepsTable(st: State, paths: seq<string>, env: Env)
    requires SkipTableOk(st.skipped)
    ensures SkipTableOk(RetryAll(st, paths, env).skipped)
    decreases |paths|
  {
    if paths != [] {
      RetryStepSkipped(st, paths[0], env);
      RetryKeepsTable(st.skipped, paths[0], env);
      RetryAllKeepsTable(RetryStep(st, paths[0], env), paths[1..], env);
    }
  }

  /** The `i`-th file of the snapshot ends the round with its own outcome. */
  lemma {:induction false} RetryAllSelf(st: State, paths: seq<string>, env: Env, i: nat)
    requires SkipTableOk(st.skipped) && Distinct(paths)
    requires i < |paths| && IsSkipped(st.skipped, paths[i])
    ensures EntryOf(RetryAll(st, paths, env).skipped, paths[i]) == RetryOutcome(EntryOf(st.skipped, paths[i]).value, env)
    decreases |paths|
  {
    var st1 := RetryStep(st, paths[0], env);
    RetryStepSkipped(st, paths[0], env);
    RetryKeepsTable(st.skipped, paths[0], env);
    if i == 0 {
      RetrySelf(st.skipped, paths[0], env);
      assert paths[0] !in paths[1..];
      RetryAllOther(st1, paths[1..], env, paths[0]);
    } else {
      RetryOther(st.skipped, paths[0], env, paths[i]);
      assert paths[1..][i - 1] == paths[i];
      RetryAllSelf(st1, paths[1..], env, i - 1);
    }
  }

  lemma UniqueSkipPaths(skipped: seq<SkipEntry>)
    requires UniqueSkips(skipped)
    ensures Distinct(SkipPaths(skipped))
    ensures forall q :: q in SkipPaths(skipped) <==> IsSkipped(skipped, q)
  {
  }

  /**
   * After one round every listed file's entry is its outcome, no file is
   * added, and the list stays keyed by path with counts below the limit.
   */
  lemma RetryRoundEffect(st: State, env: Env, q: string)
    requires SkipTableOk(st.skipped)
    ensures SkipTableOk(RetryRound(st, env).skipped)
    ensures IsSkipped(st.skipped, q) ==>
      EntryOf(RetryRound(st, env).skipped, q) == RetryOutcome(EntryOf(st.skipped, q).value, env)
    ensures !IsSkipped(st.skipped, q) ==> !IsSkipped(RetryRound(st, env).skipped, q)
  {
    var paths := SkipPaths(st.skipped);
    UniqueSkipPaths(st.skipped);
    RetryAllKeepsTable(st, paths, env);
    if q in paths {
      var i :| 0 <= i < |paths| && paths[i] == q;
      RetryAllSelf(st, paths, env, i);
    } else {
      RetryAllOther(st, paths, env, q);
    }
  }

  // ---------------------------------------------------------------------
  // Stored rows

  /** Every file whose retry succeeds ends the round stored with its current mtime. */
  lemma {:induction false} RetryAllStores(st: State, paths: seq<string>, env: Env, i: nat)
    requires Distinct(paths) && i < |paths| && RetrySucceeds(paths[i], env)
    ensures FirstMtime(RetryAll(st, paths, env).rows, paths[i]) == Some(env.fs[paths[i]].mtime)
    decreases |paths|
  {
    var st1 := RetryStep(st, paths[0], env);
    RetryStepRows(st, paths[0], env);
    if i == 0 {
      var p := paths[0];
      UpdatedEffect(st.rows, p, ExtractedText(p, env).value, env.fs[p].mtime);
      assert p !in paths[1..];
      RetryAllKeepsLookup(st1, paths[1..], env, p);
    } else {
      assert paths[1..][i - 1] == paths[i];
      RetryAllStores(st1, paths[1..], env, i - 1);
    }
  }

  /** Retrying other files never changes the lookup of `q`. */
  lemma {:induction false} RetryAllKeepsLookup(st: State, paths: seq<string>, env: Env, q: string)
    requires q !in paths
    ensures FirstMtime(RetryAll(st, paths, env).rows, q) == FirstMtime(st.rows, q)
    decreases |paths|
  {
    if paths != [] {
      var p := paths[0];
      RetryStepRows(st, p, env);
      if RetrySucceeds(p, env) {
        FirstMtimeUpdateOther(st.rows, p, ExtractedText(p, env).value, env.fs[p].mtime, q);
      }
      RetryAllKeepsLookup(RetryStep(st, p, env), paths[1..], env, q);
    }
  }

  /** A listed file whose retry succeeds is stored with its current mtime after the round. */
  lemma RetryRoundStores(st: State, env: Env, q: string)
    requires UniqueSkips(st.skipped) && IsSkipped(st.skipped, q) && RetrySucceeds(q, env)
    ensures FirstMtime(RetryRound(st, env).rows, q) == Some(env.fs[q].mtime)
    ensures !IsSkipped(RetryRound(st, env).skipped, q) || !CountsBelowMax(st.skipped)
  {
    var paths := SkipPaths(st.skipped);
    UniqueSkipPaths(st.skipped);
    var i :| 0 <= i < |paths| && paths[i] == q;
    RetryAllStores(st, paths, env, i);
    if CountsBelowMax(st.skipped) {
      RetryRoundEffect(st, env, q);
    }
  }

  // ---------------------------------------------------------------------
  // Giving up

  /** Successive wake-ups of the worker, each with what it sees then. */
  function Rounds(st: State, envs: seq<Env>): State
    decreases |envs|
  {
    if envs == [] then st else Rounds(RetryRound(st, envs[0]), envs[1..])
  }

  /** With an empty list the worker does nothing (it exits). */
  lemma {:induction false} RoundsIdle(st: State, envs: seq<Env>)
    requires st.skipped == []
    ensures Rounds(st, envs) == st
    decreases |envs|
  {
    if envs != [] {
      assert SkipPaths(st.skipped) == [];
      RoundsIdle(RetryRound(st, envs[0]), envs[1..]);
    }
  }

  /** A file that stays present and readable by `os.stat`, small enough, and without text. */
  predicate KeepsFailing(path: string, envs: seq<Env>) {
    forall k :: 0 <= k < |envs| ==>
      path in envs[k].fs && envs[k].fs[path].Present? && envs[k].fs[path].size <= MaxFileSize
      && !HasText(ExtractedText(path, envs[k]))
  }

  /** Rounds never add a file to the list. */
  lemma {:induction false} RoundsNoNew(st: State, envs: seq<Env>, q: string)
    requires SkipTableOk(st.skipped) && !IsSkipped(st.skipped, q)
    ensures !IsSkipped(Rounds(st, envs).skipped, q)
    decreases |envs|
  {
    if envs != [] {
      RetryRoundEffect(st, envs[0], q);
      RoundsNoNew(RetryRound(st, envs[0]), envs[1..], q);
    }
  }

  /**
   * A file whose extraction keeps failing is dropped from the list after
   * `MaxRetries - retry_count` rounds at the latest.
   */
  lemma {:induction false} GivesUp(st: State, envs: seq<Env>, q: string)
    requires SkipTableOk(st.skipped) && KeepsFailing(q, envs)
    requires IsSkipped(st.skipped, q) && |envs| >= MaxRetries - EntryOf(st.skipped, q).value.retryCount
    ensures !IsSkipped(Rounds(st, envs).skipped, q)
    decreases |envs|
  {
    var e := EntryOf(st.skipped, q).value;
    assert e.retryCount < MaxRetries;
    var next := RetryRound(st, envs[0]);
    RetryRoundEffect(st, envs[0], q);
    assert KeepsFailing(q, envs[1..]);
    if IsSkipped(next.skipped, q) {
      GivesUp(next, envs[1..], q);
    } else {
      RoundsNoNew(next, envs[1..], q);
    }
  }
}
