/**
 * What `_cleanup_deleted_files` guarantees: without storage faults it
 * leaves exactly the rows of files still found by the crawl and counts
 * each removed row; with faults it still never removes a row of a file
 * the crawl found.
 */
module CleanupProperties {
  import opened Database
  import opened Incremental

  /** The rows whose path the crawl found. */
  function Kept(rows: seq<Row>, current: set<string>): (r: seq<Row>)
    ensures forall x :: x in r <==> x in rows && x.path in current
    ensures |r| <= |rows|
  {
    if rows == [] then []
    else if rows[0].path in current then [rows[0]] + Kept(rows[1..], current)
    else Kept(rows[1..], current)
  }

  /** The rows whose path is not in `gone`. */
  function Dropped(rows: seq<Row>, gone: set<string>): (r: seq<Row>)
    ensures forall x :: x in r <==> x in rows && x.path !in gone
  {
    if rows == [] then []
    else if rows[0].path in gone then Dropped(rows[1..], gone)
    else [rows[0]] + Dropped(rows[1..], gone)
  }

  lemma {:induction false} DroppedWithout(rows: seq<Row>, p: string, gone: set<string>)
    ensures Dropped(Without(rows, p), gone) == Dropped(rows, gone + {p})
    decreases |rows|
  {
    if rows != [] {
      DroppedWithout(rows[1..], p, gone);
      if rows[0].path != p && rows[0].path !in gone {
        var w := Without(rows, p);
        assert w == [rows[0]] + Without(rows[1..], p);
        assert w[1..] == Without(rows[1..], p);
      }
    }
  }

  /** The deletion loop with no failing delete removes every listed path and counts each. */
  lemma {:induction false} DeleteAllFaultFree(st: State, doomed: seq<string>)
    ensures DeleteAll(st, doomed, {}) ==
      st.(rows := Dropped(st.rows, set p | p in doomed),
          stats := st.stats.(deletedFiles := st.stats.deletedFiles + |doomed|))
    decreases |doomed|
  {
    if doomed == [] {
      assert (set p | p in doomed) == {};
      DroppedNone(st.rows);
    } else {
      var st1 := st.(rows := Without(st.rows, doomed[0]),
                     stats := st.stats.(deletedFiles := st.stats.deletedFiles + 1));
      DeleteAllFaultFree(st1, doomed[1..]);
      DroppedWithout(st.rows, doomed[0], set p | p in doomed[1..]);
      assert (set p | p in doomed[1..]) + {doomed[0]} == set p | p in doomed;
    }
  }

  lemma {:induction false} DroppedNone(rows: seq<Row>)
    ensures Dropped(rows, {}) == rows
    decreases |rows|
  {
    if rows != [] {
      DroppedNone(rows[1..]);
    }
  }

  /** Dropping the paths outside `current` keeps exactly the rows inside it. */
  lemma {:induction false} DroppedIsKept(rows: seq<Row>, gone: set<string>, current: set<string>)
    requires forall i :: 0 <= i < |rows| ==> (rows[i].path in gone <==> rows[i].path !in current)
    ensures Dropped(rows, gone) == Kept(rows, current)
    decreases |rows|
  {
    if rows != [] {
      assert forall i :: 0 <= i < |rows[1..]| ==> rows[1..][i] == rows[i + 1];
      DroppedIsKept(rows[1..], gone, current);
    }
  }

  /** One doomed path per row outside `current`. */
  lemma {:induction false} DoomedCount(rows: seq<Row>, current: set<string>)
    ensures |Doomed(Paths(rows), current)| + |Kept(rows, current)| == |rows|
    decreases |rows|
  {
    if rows != [] {
      assert Paths(rows)[1..] == Paths(rows[1..]);
      DoomedCount(rows[1..], current);
    }
  }

  /**
   * Without storage faults the cleanup leaves exactly the rows whose file
   * the crawl found, and `deleted_files` grows by the number of rows removed.
   */
  lemma CleanupFaultFree(st: State, current: seq<string>)
    ensures var cur := set p | p in current;
      && Cleanup(st, current, {}).rows == Kept(st.rows, cur)
      && Cleanup(st, current, {}).stats.deletedFiles == st.stats.deletedFiles + |st.rows| - |Kept(st.rows, cur)|
      && Cleanup(st, current, {}).skipped == st.skipped
      && Cleanup(st, current, {}).logs == st.logs
  {
    var cur := set p | p in current;
    var doomed := Doomed(Paths(st.rows), cur);
    DeleteAllFaultFree(st, doomed);
    DroppedIsKept(st.rows, (set p | p in doomed), cur);
    DoomedCount(st.rows, cur);
  }

  /** Whatever fails, the deletion loop keeps every row whose path it was not given. */
  lemma {:induction false} DeleteAllKeeps(st: State, doomed: seq<string>, fails: set<string>)
    ensures forall x :: x in DeleteAll(st, doomed, fails).rows ==> x in st.rows
    ensures forall x :: x in st.rows && x.path !in doomed ==> x in DeleteAll(st, doomed, fails).rows
    decreases |doomed|
  {
    if doomed != [] && doomed[0] !in fails {
      var st1 := st.(rows := Without(st.rows, doomed[0]),
                     stats := st.stats.(deletedFiles := st.stats.deletedFiles + 1));
      DeleteAllKeeps(st1, doomed[1..], fails);
    }
  }

  /**
   * A failing delete ends the cleanup early, but the rows of files the
   * crawl found always survive, and no row is ever added.
   */
  lemma CleanupNeverDropsCurrent(st: State, current: seq<string>, fails: set<string>)
    ensures forall x :: x in Cleanup(st, current, fails).rows ==> x in st.rows
    ensures forall x :: x in st.rows && x.path in current ==> x in Cleanup(st, current, fails).rows
  {
    DeleteAllKeeps(st, Doomed(Paths(st.rows), set p | p in current), fails);
  }
}
