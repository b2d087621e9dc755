/**
 * The retry list `skipped_files`: a dictionary from path to
 * `{reason, time, retry_count}`, kept here as the sequence of its entries
 * in insertion order (the order `list(skipped_files.keys())` yields).
 */
module SkipTable {
  import opened Wrappers
  import opened SkipReasons

  /** `retry_count` at which the retry worker gives a file up. */
  const MaxRetries: nat := 5

  datatype SkipEntry = SkipEntry(path: string, reason: string, time: real, retryCount: nat)

  predicate IsSkipped(skipped: seq<SkipEntry>, path: string) {
    exists i :: 0 <= i < |skipped| && skipped[i].path == path
  }

  /** Dictionary keys are unique. */
  predicate UniqueSkips(skipped: seq<SkipEntry>) {
    forall i, j :: 0 <= i < j < |skipped| ==> skipped[i].path != skipped[j].path
  }

  /** Every entry still has retries left. */
  predicate CountsBelowMax(skipped: seq<SkipEntry>) {
    forall i :: 0 <= i < |skipped| ==> skipped[i].retryCount < MaxRetries
  }

  /** `skipped_files.get(path)`. */
  function EntryOf(skipped: seq<SkipEntry>, path: string): (r: Option<SkipEntry>)
    ensures r.None? <==> !IsSkipped(skipped, path)
    ensures r.Some? ==> r.value in skipped && r.value.path == path
  {
    if skipped == [] then None
    else if skipped[0].path == path then Some(skipped[0])
    else
      var r := EntryOf(skipped[1..], path);
      assert forall i :: 1 <= i < |skipped| ==> skipped[i] == skipped[1..][i - 1];
      r
  }

  /** `list(skipped_files.keys())`. */
  function SkipPaths(skipped: seq<SkipEntry>): (ps: seq<string>)
    ensures |ps| == |skipped|
    ensures forall i :: 0 <= i < |skipped| ==> ps[i] == skipped[i].path
  {
    seq(|skipped|, i requires 0 <= i < |skipped| => skipped[i].path)
  }

  /**
   * The registration half of `_log_skip`: a retryable reason adds the path
   * with `retry_count` 0 unless the path is already listed.
   */
  function Registered(skipped: seq<SkipEntry>, path: string, reason: string, now: real): seq<SkipEntry> {
    if IsRetryable(reason) && !IsSkipped(skipped, path) then skipped + [SkipEntry(path, reason, now, 0)]
    else skipped
  }

  /** `del skipped_files[path]` when present. */
  function Unregistered(skipped: seq<SkipEntry>, path: string): (r: seq<SkipEntry>)
    ensures forall e :: e in r <==> e in skipped && e.path != path
  {
    if skipped == [] then []
    else if skipped[0].path == path then Unregistered(skipped[1..], path)
    else [skipped[0]] + Unregistered(skipped[1..], path)
  }

  /**
   * A failed retry: `retry_count += 1`, and the entry is dropped once the
   * count reaches `MaxRetries`.
   */
  function Bumped(skipped: seq<SkipEntry>, path: string): seq<SkipEntry> {
    if skipped == [] then []
    else
      var e := skipped[0];
      var head := if e.path != path then [e]
        else if e.retryCount + 1 >= MaxRetries then []
        else [e.(retryCount := e.retryCount + 1)];
      head + Bumped(skipped[1..], path)
  }

  // ---------------------------------------------------------------------

  lemma IsSkippedCons(skipped: seq<SkipEntry>, path: string)
    requires skipped != []
    ensures IsSkipped(skipped, path) <==> skipped[0].path == path || IsSkipped(skipped[1..], path)
  {
    if IsSkipped(skipped, path) && skipped[0].path != path {
      var i :| 0 <= i < |skipped| && skipped[i].path == path;
      assert skipped[1..][i - 1].path == path;
    }
    if IsSkipped(skipped[1..], path) {
      var i :| 0 <= i < |skipped[1..]| && skipped[1..][i].path == path;
      assert skipped[i + 1].path == path;
    }
  }

  /**
   * Only a retryable reason ever lists a path, and a listed path keeps its
   * entry (reason, time and count) unchanged.
   */
  lemma RegisteredEffect(skipped: seq<SkipEntry>, path: string, reason: string, now: real, q: string)
    ensures IsSkipped(Registered(skipped, path, reason, now), q) <==>
      IsSkipped(skipped, q) || (q == path && IsRetryable(reason))
    ensures IsSkipped(skipped, q) ==> EntryOf(Registered(skipped, path, reason, now), q) == EntryOf(skipped, q)
    ensures !IsSkipped(skipped, path) && IsRetryable(reason) ==>
      EntryOf(Registered(skipped, path, reason, now), path) == Some(SkipEntry(path, reason, now, 0))
  {
    var e := SkipEntry(path, reason, now, 0);
    if IsRetryable(reason) && !IsSkipped(skipped, path) {
      EntryOfAppend(skipped, e, q);
      EntryOfAppend(skipped, e, path);
      IsSkippedAppend(skipped, e, q);
    }
  }

  lemma IsSkippedAppend(skipped: seq<SkipEntry>, e: SkipEntry, q: string)
    ensures IsSkipped(skipped + [e], q) <==> IsSkipped(skipped, q) || e.path == q
  {
    var r := skipped + [e];
    if IsSkipped(r, q) && e.path != q {
      var i :| 0 <= i < |r| && r[i].path == q;
      assert i < |skipped| && skipped[i].path == q;
    }
    if IsSkipped(skipped, q) {
      var i :| 0 <= i < |skipped| && skipped[i].path == q;
      assert r[i].path == q;
    }
    assert r[|skipped|] == e;
  }

  lemma {:induction false} EntryOfAppend(skipped: seq<SkipEntry>, e: SkipEntry, q: string)
    ensures IsSkipped(skipped, q) ==> EntryOf(skipped + [e], q) == EntryOf(skipped, q)
    ensures !IsSkipped(skipped, q) && e.path == q ==> EntryOf(skipped + [e], q) == Some(e)
    decreases |skipped|
  {
    if skipped == [] {
      assert [] + [e] == [e];
    } else {
      IsSkippedCons(skipped, q);
      EntryOfAppend(skipped[1..], e, q);
      assert (skipped + [e])[1..] == skipped[1..] + [e];
    }
  }

  /** Registration keeps dictionary keys unique. */
  lemma RegisteredKeepsUnique(skipped: seq<SkipEntry>, path: string, reason: string, now: real)
    requires UniqueSkips(skipped)
    ensures UniqueSkips(Registered(skipped, path, reason, now))
  {
    var e := SkipEntry(path, reason, now, 0);
    if IsRetryable(reason) && !IsSkipped(skipped, path) {
      var r := skipped + [e];
      forall i, j | 0 <= i < j < |r| ensures r[i].path != r[j].path {
        if j == |skipped| {
          assert r[i] == skipped[i];
        }
      }
    }
  }

  /** Registration adds an entry with a zero count, so the table's invariants hold on. */
  lemma RegisteredKeeps(skipped: seq<SkipEntry>, path: string, reason: string, now: real)
    requires UniqueSkips(skipped) && CountsBelowMax(skipped)
    ensures UniqueSkips(Registered(skipped, path, reason, now)) && CountsBelowMax(Registered(skipped, path, reason, now))
    ensures forall q :: IsSkipped(Registered(skipped, path, reason, now), q) ==> IsSkipped(skipped, q) || q == path
  {
    RegisteredKeepsUnique(skipped, path, reason, now);
    forall q | IsSkipped(Registered(skipped, path, reason, now), q) ensures IsSkipped(skipped, q) || q == path {
      RegisteredEffect(skipped, path, reason, now, q);
    }
  }

  /** Removing a path leaves every other path's entry as it was. */
  lemma {:induction false} UnregisteredEffect(skipped: seq<SkipEntry>, path: string, q: string)
    ensures !IsSkipped(Unregistered(skipped, path), path)
    ensures q != path ==> EntryOf(Unregistered(skipped, path), q) == EntryOf(skipped, q)
    decreases |skipped|
  {
    if skipped != [] {
      UnregisteredEffect(skipped[1..], path, q);
      IsSkippedCons(skipped, q);
      var rest := Unregistered(skipped[1..], path);
      if skipped[0].path != path {
        IsSkippedCons([skipped[0]] + rest, q);
        IsSkippedCons([skipped[0]] + rest, path);
        assert ([skipped[0]] + rest)[1..] == rest;
      }
    }
  }

  /** A failed retry only touches the retried path's entry. */
  lemma {:induction false} BumpedOther(skipped: seq<SkipEntry>, path: string, q: string)
    requires q != path
    ensures EntryOf(Bumped(skipped, path), q) == EntryOf(skipped, q)
    decreases |skipped|
  {
    if skipped != [] {
      BumpedOther(skipped[1..], path, q);
      var e := skipped[0];
      var rest := Bumped(skipped[1..], path);
      if e.path == path && e.retryCount + 1 >= MaxRetries {
        assert Bumped(skipped, path) == rest;
      } else {
        var h := Bumped(skipped, path);
        assert h == [h[0]] + rest;
        assert h[1..] == rest;
      }
    }
  }

  /** What a failed retry does to one entry of the table, or to its absence. */
  function BumpOutcome(entry: Option<SkipEntry>): Option<SkipEntry> {
    match entry
    case None => None
    case Some(e) => if e.retryCount + 1 >= MaxRetries then None else Some(e.(retryCount := e.retryCount + 1))
  }

  /**
   * A failed retry raises the path's count by one, or drops the entry when
   * the count reaches `MaxRetries` (with unique keys).
   */
  lemma {:induction false} BumpedSelf(skipped: seq<SkipEntry>, path: string)
    requires UniqueSkips(skipped)
    ensures EntryOf(Bumped(skipped, path), path) == BumpOutcome(EntryOf(skipped, path))
    decreases |skipped|
  {
    if skipped != [] {
      if skipped[0].path == path {
        BumpedHead(skipped, path);
      } else {
        UniqueTail(skipped);
        BumpedSelf(skipped[1..], path);
        BumpedPast(skipped, path);
      }
    }
  }

  /** The retried path is the first entry: only that entry is affected. */
  lemma BumpedHead(skipped: seq<SkipEntry>, path: string)
    requires skipped != [] && UniqueSkips(skipped) && skipped[0].path == path
    ensures EntryOf(Bumped(skipped, path), path) == BumpOutcome(Some(skipped[0]))
  {
    var e := skipped[0];
    var rest := Bumped(skipped[1..], path);
    UniqueHeadOnce(skipped);
    if IsSkipped(rest, path) {
      BumpedSubset(skipped[1..], path, path);
      assert false;
    }
    if e.retryCount + 1 >= MaxRetries {
      assert Bumped(skipped, path) == rest;
    } else {
      assert Bumped(skipped, path) == [e.(retryCount := e.retryCount + 1)] + rest;
    }
  }

  /** The first entry is another path: the lookup goes past it on both sides. */
  lemma BumpedPast(skipped: seq<SkipEntry>, path: string)
    requires skipped != [] && skipped[0].path != path
    ensures EntryOf(skipped, path) == EntryOf(skipped[1..], path)
    ensures EntryOf(Bumped(skipped, path), path) == EntryOf(Bumped(skipped[1..], path), path)
  {
    var h := Bumped(skipped, path);
    var rest := Bumped(skipped[1..], path);
    assert h == [skipped[0]] + rest;
    assert h[1..] == rest;
  }

  lemma UniqueTail(skipped: seq<SkipEntry>)
    requires skipped != [] && UniqueSkips(skipped)
    ensures UniqueSkips(skipped[1..])
  {
    assert forall i :: 0 <= i < |skipped[1..]| ==> skipped[1..][i] == skipped[i + 1];
  }

  /** With unique keys, the first entry's path is not listed again. */
  lemma UniqueHeadOnce(skipped: seq<SkipEntry>)
    requires skipped != [] && UniqueSkips(skipped)
    ensures !IsSkipped(skipped[1..], skipped[0].path)
  {
    forall i | 0 <= i < |skipped[1..]| ensures skipped[1..][i].path != skipped[0].path {
      assert skipped[1..][i] == skipped[i + 1];
    }
  }

  /** Failed retries never add a path. */
  lemma {:induction false} BumpedSubset(skipped: seq<SkipEntry>, path: string, q: string)
    requires IsSkipped(Bumped(skipped, path), q)
    ensures IsSkipped(skipped, q)
    decreases |skipped|
  {
    var h := Bumped(skipped, path);
    var e := skipped[0];
    var rest := Bumped(skipped[1..], path);
    IsSkippedCons(skipped, q);
    if e.path != path || e.retryCount + 1 < MaxRetries {
      assert h == [h[0]] + rest;
      assert h[1..] == rest;
      IsSkippedCons(h, q);
      if h[0].path != q {
        BumpedSubset(skipped[1..], path, q);
      }
    } else {
      assert h == rest;
      BumpedSubset(skipped[1..], path, q);
    }
  }

  /** The invariants of the table survive failed retries and removals. */
  lemma {:induction false} BumpedKeeps(skipped: seq<SkipEntry>, path: string)
    requires UniqueSkips(skipped) && CountsBelowMax(skipped)
    ensures UniqueSkips(Bumped(skipped, path)) && CountsBelowMax(Bumped(skipped, path))
    decreases |skipped|
  {
    if skipped != [] {
      var e := skipped[0];
      var rest := Bumped(skipped[1..], path);
      assert forall i :: 0 <= i < |skipped[1..]| ==> skipped[1..][i] == skipped[i + 1];
      BumpedKeeps(skipped[1..], path);
      var h := Bumped(skipped, path);
      forall i, j | 0 <= i < j < |h| ensures h[i].path != h[j].path {
        if h != rest && i == 0 {
          assert h[j] == rest[j - 1];
          assert IsSkipped(rest, h[j].path);
          BumpedSubset(skipped[1..], path, h[j].path);
          var k :| 0 <= k < |skipped[1..]| && skipped[1..][k].path == h[j].path;
          assert skipped[k + 1].path == h[j].path;
        }
      }
    }
  }

  lemma {:induction false} UnregisteredKeeps(skipped: seq<SkipEntry>, path: string)
    requires UniqueSkips(skipped) && CountsBelowMax(skipped)
    ensures UniqueSkips(Unregistered(skipped, path)) && CountsBelowMax(Unregistered(skipped, path))
    decreases |skipped|
  {
    if skipped != [] {
      assert forall i :: 0 <= i < |skipped[1..]| ==> skipped[1..][i] == skipped[i + 1];
      UnregisteredKeeps(skipped[1..], path);
      var rest := Unregistered(skipped[1..], path);
      var h := Unregistered(skipped, path);
      forall i, j | 0 <= i < j < |h| ensures h[i].path != h[j].path {
        if h != rest && i == 0 {
          assert h[j] == rest[j - 1];
          assert h[j] in skipped[1..];
          var k :| 0 <= k < |skipped[1..]| && skipped[1..][k] == h[j];
          assert skipped[k + 1] == h[j];
        }
      }
      forall i | 0 <= i < |h| ensures h[i].retryCount < MaxRetries {
        assert h[i] in skipped;
      }
    }
  }
}
