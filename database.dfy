/**
 * The storage layer (`DatabaseManager`): the full-text table `files_fts`
 * as an ordered sequence of `(path, content, mtime)` rows with no
 * uniqueness on `path`, and the `search_history` table as a map from
 * keyword (its primary key) to `last_used`.
 *
 * The engine's ranked `MATCH` is not modelled: its answer is an input
 * (`MatchAnswer`), either a storage error or the matching rows in rank
 * order.  `mtime` is stored as `str(mtime)` and read back with `float`,
 * which is exact for Python floats, so the model keeps it as a `real`.
 */
module Database {
  import opened Wrappers
  import opened PyStr

  datatype Row = Row(path: string, content: string, mtime: real)

  /** One row of a search answer: a table row and the engine's rank. */
  datatype Hit = Hit(path: string, content: string, mtime: real, rank: real)

  /** What `SELECT … WHERE files_fts MATCH ? ORDER BY rank` produced. */
  datatype MatchAnswer = StorageError | Ranked(hits: seq<Hit>)

  datatype HistoryEntry = HistoryEntry(keyword: string, lastUsed: real)

  /** Characters of content a search result carries. */
  const ContentPreviewChars := 500

  // ---------------------------------------------------------------------
  // The file table as a value

  predicate HasPath(rows: seq<Row>, p: string) {
    exists i :: 0 <= i < |rows| && rows[i].path == p
  }

  lemma HasPathCons(rows: seq<Row>, p: string)
    requires rows != []
    ensures HasPath(rows, p) <==> rows[0].path == p || HasPath(rows[1..], p)
  {
    if HasPath(rows, p) && rows[0].path != p {
      var i :| 0 <= i < |rows| && rows[i].path == p;
      assert rows[1..][i - 1].path == p;
    }
    if HasPath(rows[1..], p) {
      var i :| 0 <= i < |rows[1..]| && rows[1..][i].path == p;
      assert rows[i + 1].path == p;
    }
  }

  lemma HasPathAppend(a: seq<Row>, b: seq<Row>, p: string)
    ensures HasPath(a + b, p) <==> HasPath(a, p) || HasPath(b, p)
  {
    if HasPath(a + b, p) {
      var i :| 0 <= i < |a + b| && (a + b)[i].path == p;
      if i >= |a| {
        assert b[i - |a|].path == p;
      }
    }
    if HasPath(b, p) {
      var i :| 0 <= i < |b| && b[i].path == p;
      assert (a + b)[i + |a|].path == p;
    }
    if HasPath(a, p) {
      var i :| 0 <= i < |a| && a[i].path == p;
      assert (a + b)[i].path == p;
    }
  }

  /** No two rows share a path: the condition the indexer is meant to keep. */
  predicate UniquePaths(rows: seq<Row>) {
    forall i, j :: 0 <= i < j < |rows| ==> rows[i].path != rows[j].path
  }

  /**
   * `SELECT mtime FROM files_fts WHERE path = ?` followed by `fetchone()`:
   * the mtime of the first row with that path, or `None`.
   */
  function FirstMtime(rows: seq<Row>, p: string): (r: Option<real>)
    ensures r.None? <==> !HasPath(rows, p)
    ensures r.Some? ==> exists i :: 0 <= i < |rows| && rows[i].path == p && rows[i].mtime == r.value
  {
    if rows == [] then None
    else if rows[0].path == p then Some(rows[0].mtime)
    else
      var r := FirstMtime(rows[1..], p);
      assert forall i :: 1 <= i < |rows| ==> rows[i] == rows[1..][i - 1];
      r
  }

  /** `UPDATE files_fts SET content = ?, mtime = ? WHERE path = ?`. */
  function UpdateWhere(rows: seq<Row>, p: string, content: string, mtime: real): seq<Row> {
    seq(|rows|, i requires 0 <= i < |rows| =>
      if rows[i].path == p then Row(p, content, mtime) else rows[i])
  }

  /** `update_file`: update the matching rows, or insert one row when none matched. */
  function Updated(rows: seq<Row>, p: string, content: string, mtime: real): seq<Row> {
    if HasPath(rows, p) then UpdateWhere(rows, p, content, mtime)
    else rows + [Row(p, content, mtime)]
  }

  /** `DELETE FROM files_fts WHERE path = ?`. */
  function Without(rows: seq<Row>, p: string): (r: seq<Row>)
    ensures |r| <= |rows|
    ensures forall x :: x in r <==> x in rows && x.path != p
  {
    if rows == [] then []
    else if rows[0].path == p then Without(rows[1..], p)
    else [rows[0]] + Without(rows[1..], p)
  }

  /** `SELECT path FROM files_fts`, one entry per row. */
  function Paths(rows: seq<Row>): (ps: seq<string>)
    ensures |ps| == |rows|
    ensures forall i :: 0 <= i < |rows| ==> ps[i] == rows[i].path
  {
    seq(|rows|, i requires 0 <= i < |rows| => rows[i].path)
  }

  /** The number of rows SQLite's `LIMIT n` keeps: a negative limit keeps all. */
  function SqlLimit(len: nat, limit: int): (k: nat)
    ensures k <= len
    ensures limit >= 0 ==> k <= limit
    ensures k == len || k == limit
  {
    if limit < 0 || limit > len then len else limit
  }

  /**
   * `search(query, limit)`: the first `limit` hits of the engine's answer
   * with each content cut to its first 500 characters; a storage error
   * yields the empty list.
   */
  function SearchRows(answer: MatchAnswer, limit: int): (r: seq<Hit>)
    ensures answer.StorageError? ==> r == []
    ensures answer.Ranked? ==>
      && |r| == SqlLimit(|answer.hits|, limit)
      && forall i :: 0 <= i < |r| ==>
        var h := answer.hits[i];
        && r[i].path == h.path && r[i].mtime == h.mtime && r[i].rank == h.rank
        && r[i].content <= h.content
        && |r[i].content| == if |h.content| < ContentPreviewChars then |h.content| else ContentPreviewChars
  {
    match answer
    case StorageError => []
    case Ranked(hits) =>
      seq(SqlLimit(|hits|, limit), i requires 0 <= i < SqlLimit(|hits|, limit) =>
        hits[i].(content := PrefixSlice(hits[i].content, ContentPreviewChars)))
  }

  /** The engine answers with rows of the table, in ascending rank. */
  predicate AnswersFrom(rows: seq<Row>, answer: MatchAnswer) {
    answer.Ranked? ==>
      && (forall i :: 0 <= i < |answer.hits| ==>
            Row(answer.hits[i].path, answer.hits[i].content, answer.hits[i].mtime) in rows)
      && (forall i, j :: 0 <= i < j < |answer.hits| ==> answer.hits[i].rank <= answer.hits[j].rank)
  }

  // ---------------------------------------------------------------------
  // The history table as a value

  /** The keywords of a history listing. */
  function Keywords(es: seq<HistoryEntry>): set<string> {
    set i | 0 <= i < |es| :: es[i].keyword
  }

  lemma {:induction false} MostRecentExists(m: map<string, real>, keys: set<string>)
    requires keys != {} && keys <= m.Keys
    ensures exists k :: k in keys && forall k' :: k' in keys ==> m[k'] <= m[k]
    decreases keys
  {
    var k0 :| k0 in keys;
    var rest := keys - {k0};
    if rest != {} {
      MostRecentExists(m, rest);
      var k1 :| k1 in rest && forall k' :: k' in rest ==> m[k'] <= m[k1];
      if m[k0] <= m[k1] {
        assert k1 in keys && forall k' :: k' in keys ==> m[k'] <= m[k1];
      } else {
        assert k0 in keys && forall k' :: k' in keys ==> m[k'] <= m[k0];
      }
    } else {
      assert forall k' :: k' in keys ==> k' in rest || k' == k0;
    }
  }

  lemma KeywordsCons(e: HistoryEntry, tail: seq<HistoryEntry>)
    ensures Keywords([e] + tail) == {e.keyword} + Keywords(tail)
  {
    var r := [e] + tail;
    assert forall i :: 1 <= i < |r| ==> r[i] == tail[i - 1];
    forall x | x in Keywords(tail) ensures x in Keywords(r) {
      var i :| 0 <= i < |tail| && tail[i].keyword == x;
      assert r[i + 1].keyword == x;
    }
    assert r[0].keyword == e.keyword;
  }

  /**
   * The rows of `search_history` for the given keywords, ordered by
   * `last_used` descending.  SQLite leaves the order of equal timestamps
   * unspecified; the model picks one.
   */
  ghost function ByRecency(m: map<string, real>, keys: set<string>): (r: seq<HistoryEntry>)
    requires keys <= m.Keys
    ensures |r| == |keys|
    ensures forall i :: 0 <= i < |r| ==> r[i].keyword in keys && r[i].lastUsed == m[r[i].keyword]
    ensures forall i, j :: 0 <= i < j < |r| ==> r[i].keyword != r[j].keyword
    ensures forall i, j :: 0 <= i < j < |r| ==> r[i].lastUsed >= r[j].lastUsed
    decreases keys
  {
    if keys == {} then []
    else
      MostRecentExists(m, keys);
      var k :| k in keys && forall k' :: k' in keys ==> m[k'] <= m[k];
      var tail := ByRecency(m, keys - {k});
      var r := [HistoryEntry(k, m[k])] + tail;
      assert forall i :: 1 <= i < |r| ==> r[i] == tail[i - 1] && r[i].keyword in keys - {k};
      r
  }

  /** Every keyword of the table appears in the listing. */
  lemma {:induction false} ByRecencyKeywords(m: map<string, real>, keys: set<string>)
    requires keys <= m.Keys
    ensures Keywords(ByRecency(m, keys)) == keys
  {
    var r := ByRecency(m, keys);
    var ks := Keywords(r);
    assert ks <= keys;
    KeywordsCard(r);
    assert keys == ks + (keys - ks);
    assert |keys - ks| == 0;
  }

  /** A listing with distinct keywords has as many keywords as entries. */
  lemma {:induction false} KeywordsCard(r: seq<HistoryEntry>)
    requires forall i, j :: 0 <= i < j < |r| ==> r[i].keyword != r[j].keyword
    ensures |Keywords(r)| == |r|
  {
    if r != [] {
      var tail := r[1..];
      KeywordsCard(tail);
      assert r == [r[0]] + tail;
      KeywordsCons(r[0], tail);
      assert r[0].keyword !in Keywords(tail) by {
        assert forall i :: 0 <= i < |tail| ==> tail[i].keyword != r[0].keyword by {
          assert forall i :: 0 <= i < |tail| ==> tail[i] == r[i + 1];
        }
      }
    }
  }

  /**
   * `get_search_history(limit)`: the `limit` most recently used keywords,
   * newest first; a negative limit returns them all.
   */
  ghost function RecentHistory(m: map<string, real>, limit: int): (r: seq<HistoryEntry>)
    ensures |r| == SqlLimit(|m|, limit)
    ensures forall i :: 0 <= i < |r| ==> r[i].keyword in m && r[i].lastUsed == m[r[i].keyword]
    ensures forall i, j :: 0 <= i < j < |r| ==> r[i].keyword != r[j].keyword
    ensures forall i, j :: 0 <= i < j < |r| ==> r[i].lastUsed >= r[j].lastUsed
  {
    var all := ByRecency(m, m.Keys);
    assert |m.Keys| == |m|;
    all[..SqlLimit(|all|, limit)]
  }

  /** A keyword left out of a history listing is no more recent than any listed one. */
  lemma RecentHistoryIsTop(m: map<string, real>, limit: int, k: string)
    requires k in m && k !in Keywords(RecentHistory(m, limit))
    ensures forall i :: 0 <= i < |RecentHistory(m, limit)| ==> m[k] <= RecentHistory(m, limit)[i].lastUsed
  {
    var all := ByRecency(m, m.Keys);
    var r := RecentHistory(m, limit);
    ByRecencyKeywords(m, m.Keys);
    RecentHistoryPrefix(m, limit);
    var j := PrefixTop(all, |r|, k);
    assert all[j].lastUsed == m[k];
  }

  lemma RecentHistoryPrefix(m: map<string, real>, limit: int)
    ensures |RecentHistory(m, limit)| <= |ByRecency(m, m.Keys)|
    ensures RecentHistory(m, limit) == ByRecency(m, m.Keys)[..|RecentHistory(m, limit)|]
  {
  }

  /** In a listing sorted newest first, an entry beyond a prefix is no newer than the prefix. */
  lemma PrefixTop(all: seq<HistoryEntry>, n: nat, k: string) returns (j: nat)
    requires n <= |all|
    requires forall i, j :: 0 <= i < j < |all| ==> all[i].lastUsed >= all[j].lastUsed
    requires k in Keywords(all) && k !in Keywords(all[..n])
    ensures n <= j < |all| && all[j].keyword == k
    ensures forall i :: 0 <= i < n ==> all[..n][i].lastUsed >= all[j].lastUsed
  {
    j :| 0 <= j < |all| && all[j].keyword == k;
    assert forall i :: 0 <= i < n ==> all[..n][i].keyword in Keywords(all[..n]);
  }

  // ---------------------------------------------------------------------
  // Properties of the file table

  lemma UpdateWhereRows(rows: seq<Row>, p: string, content: string, mtime: real)
    ensures |UpdateWhere(rows, p, content, mtime)| == |rows|
    ensures forall i :: 0 <= i < |rows| && rows[i].path == p ==>
      UpdateWhere(rows, p, content, mtime)[i] == Row(p, content, mtime)
    ensures forall i :: 0 <= i < |rows| && rows[i].path != p ==>
      UpdateWhere(rows, p, content, mtime)[i] == rows[i]
  {
  }

  /**
   * `update_file` either rewrites every row of the path in place (when
   * there is one) or appends exactly one row; rows of other paths are
   * untouched either way, and afterwards the path reads back the new mtime.
   */
  lemma {:induction false} UpdatedEffect(rows: seq<Row>, p: string, content: string, mtime: real)
    ensures HasPath(rows, p) ==> |Updated(rows, p, content, mtime)| == |rows|
    ensures !HasPath(rows, p) ==> Updated(rows, p, content, mtime) == rows + [Row(p, content, mtime)]
    ensures forall i :: 0 <= i < |rows| && rows[i].path != p ==> Updated(rows, p, content, mtime)[i] == rows[i]
    ensures FirstMtime(Updated(rows, p, content, mtime), p) == Some(mtime)
  {
    var r := Updated(rows, p, content, mtime);
    if HasPath(rows, p) {
      UpdateWhereRows(rows, p, content, mtime);
      var i :| 0 <= i < |rows| && rows[i].path == p;
      FirstMtimeSamePath(r, p, mtime);
    } else {
      FirstMtimeAppend(rows, Row(p, content, mtime));
    }
  }

  /** When every row of `p` carries mtime `m`, the lookup returns `m` (if there is such a row). */
  lemma {:induction false} FirstMtimeSamePath(rows: seq<Row>, p: string, m: real)
    requires forall i :: 0 <= i < |rows| && rows[i].path == p ==> rows[i].mtime == m
    ensures HasPath(rows, p) ==> FirstMtime(rows, p) == Some(m)
  {
  }

  /** Appending a row changes no existing lookup and makes an absent path read the new mtime. */
  lemma {:induction false} FirstMtimeAppend(rows: seq<Row>, row: Row)
    ensures forall p :: HasPath(rows, p) ==> FirstMtime(rows + [row], p) == FirstMtime(rows, p)
    ensures !HasPath(rows, row.path) ==> FirstMtime(rows + [row], row.path) == Some(row.mtime)
    decreases |rows|
  {
    if rows != [] {
      FirstMtimeAppend(rows[1..], row);
      assert (rows + [row])[1..] == rows[1..] + [row];
      forall p | HasPath(rows, p) && rows[0].path != p
        ensures HasPath(rows[1..], p)
      {
        var i :| 0 <= i < |rows| && rows[i].path == p;
        assert rows[1..][i - 1].path == p;
      }
      HasPathCons(rows, row.path);
    } else {
      assert rows + [row] == [row];
    }
  }

  /** Updating one path's rows keeps the lookups of every other path. */
  lemma {:induction false} FirstMtimeUpdateOther(rows: seq<Row>, p: string, content: string, mtime: real, q: string)
    requires q != p
    ensures FirstMtime(Updated(rows, p, content, mtime), q) == FirstMtime(rows, q)
  {
    if HasPath(rows, p) {
      UpdateWhereRows(rows, p, content, mtime);
      FirstMtimeSameRows(rows, UpdateWhere(rows, p, content, mtime), q);
    } else {
      if HasPath(rows, q) {
        FirstMtimeAppend(rows, Row(p, content, mtime));
      } else {
        HasPathAppend(rows, [Row(p, content, mtime)], q);
      }
    }
  }

  /** Two tables that agree on the rows of `q` and on which rows are `q`'s give the same lookup. */
  lemma {:induction false} FirstMtimeSameRows(a: seq<Row>, b: seq<Row>, q: string)
    requires |a| == |b|
    requires forall i :: 0 <= i < |a| ==> (a[i].path == q <==> b[i].path == q)
    requires forall i :: 0 <= i < |a| && a[i].path == q ==> a[i] == b[i]
    ensures FirstMtime(a, q) == FirstMtime(b, q)
    decreases |a|
  {
    if a != [] {
      FirstMtimeSameRows(a[1..], b[1..], q);
    }
  }

  /** After `delete_file(p)` the path is gone and no other row changed. */
  lemma WithoutEffect(rows: seq<Row>, p: string)
    ensures !HasPath(Without(rows, p), p)
    ensures FirstMtime(Without(rows, p), p) == None
    ensures forall q :: q != p ==> (HasPath(Without(rows, p), q) <==> HasPath(rows, q))
  {
    var r := Without(rows, p);
    forall q | q != p
      ensures HasPath(r, q) <==> HasPath(rows, q)
    {
      if HasPath(rows, q) {
        var i :| 0 <= i < |rows| && rows[i].path == q;
        assert rows[i] in r;
      }
      if HasPath(r, q) {
        var i :| 0 <= i < |r| && r[i].path == q;
        assert r[i] in rows;
      }
    }
  }

  /** Deleting a path drops exactly its rows, so one row per path stays one row per path. */
  lemma {:induction false} WithoutIsFilter(rows: seq<Row>, p: string)
    ensures |Without(rows, p)| == |rows| - CountPath(rows, p)
    ensures UniquePaths(rows) ==> UniquePaths(Without(rows, p))
    decreases |rows|
  {
    if rows != [] {
      WithoutIsFilter(rows[1..], p);
      var tail := Without(rows[1..], p);
      if rows[0].path != p && UniquePaths(rows) {
        var r := [rows[0]] + tail;
        forall i, j | 0 <= i < j < |r|
          ensures r[i].path != r[j].path
        {
          if i == 0 {
            assert r[j] in tail;
            assert r[j] in rows[1..];
            var k :| 0 <= k < |rows[1..]| && rows[1..][k] == r[j];
            assert rows[k + 1] == r[j];
          }
        }
      }
    }
  }

  /** `Without` works row by row, so the surviving rows keep their order. */
  lemma {:induction false} WithoutConcat(a: seq<Row>, b: seq<Row>, p: string)
    ensures Without(a + b, p) == Without(a, p) + Without(b, p)
    decreases |a|
  {
    if a == [] {
      assert a + b == b;
    } else {
      var ab := a + b;
      assert ab[0] == a[0] && ab[1..] == a[1..] + b;
      WithoutConcat(a[1..], b, p);
      if a[0].path == p {
        assert Without(ab, p) == Without(a[1..] + b, p);
      } else {
        assert Without(ab, p) == [a[0]] + Without(a[1..] + b, p);
      }
    }
  }

  /** The number of rows with path `p`. */
  function CountPath(rows: seq<Row>, p: string): (n: nat)
    ensures n <= |rows|
    ensures n == 0 <==> !HasPath(rows, p)
  {
    if rows == [] then 0
    else
      HasPathCons(rows, p);
      (if rows[0].path == p then 1 else 0) + CountPath(rows[1..], p)
  }

  /** With unique paths a table holds at most one row per path. */
  lemma {:induction false} UniqueCount(rows: seq<Row>, p: string)
    requires UniquePaths(rows)
    ensures CountPath(rows, p) <= 1
    decreases |rows|
  {
    if rows != [] {
      UniqueCount(rows[1..], p);
      HasPathCons(rows, p);
    }
  }

  /** `update_file` keeps paths unique. */
  lemma UpdatedKeepsUnique(rows: seq<Row>, p: string, content: string, mtime: real)
    requires UniquePaths(rows)
    ensures UniquePaths(Updated(rows, p, content, mtime))
  {
    var r := Updated(rows, p, content, mtime);
    if HasPath(rows, p) {
      UpdateWhereRows(rows, p, content, mtime);
      assert forall i :: 0 <= i < |rows| ==> r[i].path == rows[i].path;
    } else {
      AppendKeepsUnique(rows, Row(p, content, mtime));
    }
  }

  /** `insert_file` of a path the table does not hold keeps paths unique. */
  lemma AppendKeepsUnique(rows: seq<Row>, row: Row)
    requires UniquePaths(rows) && !HasPath(rows, row.path)
    ensures UniquePaths(rows + [row])
  {
    var r := rows + [row];
    forall i, j | 0 <= i < j < |r|
      ensures r[i].path != r[j].path
    {
      if j == |rows| {
        assert r[i] == rows[i];
      }
    }
  }

  /** A search returns at most `limit` rows, and only rows of the table. */
  lemma SearchRowsFromTable(rows: seq<Row>, answer: MatchAnswer, limit: int, i: int)
    requires AnswersFrom(rows, answer)
    requires 0 <= i < |SearchRows(answer, limit)|
    ensures HasPath(rows, SearchRows(answer, limit)[i].path)
    ensures limit >= 0 ==> |SearchRows(answer, limit)| <= limit
  {
    var h := answer.hits[i];
    var row := Row(h.path, h.content, h.mtime);
    assert row in rows;
    var k :| 0 <= k < |rows| && rows[k] == row;
    assert rows[k].path == SearchRows(answer, limit)[i].path;
  }

  /** Search results keep the engine's ascending rank order. */
  lemma SearchRowsRanked(rows: seq<Row>, answer: MatchAnswer, limit: int)
    requires AnswersFrom(rows, answer)
    ensures forall i, j :: 0 <= i < j < |SearchRows(answer, limit)| ==>
      SearchRows(answer, limit)[i].rank <= SearchRows(answer, limit)[j].rank
  {
  }

  // ---------------------------------------------------------------------
  // The manager

  class DatabaseManager {
    /** The rows of `files_fts`, in rowid order. */
    var rows: seq<Row>
    /** `search_history`: keyword to `last_used`. */
    var history: map<string, real>

    /** Opening a database file whose tables already hold the given contents. */
    constructor (rows0: seq<Row>, history0: map<string, real>)
      ensures rows == rows0 && history == history0
    {
      rows := rows0;
      history := history0;
    }

    /** `insert_file`: appends one row, even when the path is already present. */
    method InsertFile(path: string, content: string, mtime: real)
      modifies this
      ensures rows == old(rows) + [Row(path, content, mtime)]
      ensures history == old(history)
    {
      rows := rows + [Row(path, content, mtime)];
    }

    /** `insert_files_batch`: appends the given rows in order. */
    method InsertFilesBatch(files: seq<Row>)
      modifies this
      ensures rows == old(rows) + files
      ensures history == old(history)
    {
      rows := rows + files;
    }

    /** `update_file`. */
    method UpdateFile(path: string, content: string, mtime: real)
      modifies this
      ensures rows == Updated(old(rows), path, content, mtime)
      ensures history == old(history)
      ensures GetFileMtime(path) == Some(mtime)
    {
      var rowcount := CountPath(rows, path);
      if rowcount == 0 {
        InsertFile(path, content, mtime);
      } else {
        rows := UpdateWhere(rows, path, content, mtime);
      }
      UpdatedEffect(old(rows), path, content, mtime);
    }

    /** `delete_file`. */
    method DeleteFile(path: string)
      modifies this
      ensures rows == Without(old(rows), path)
      ensures history == old(history)
      ensures GetFileMtime(path) == None
    {
      rows := Without(rows, path);
      WithoutEffect(old(rows), path);
    }

    /** `clear_index`. */
    method ClearIndex()
      modifies this
      ensures rows == [] && GetIndexedFilesCount() == 0
      ensures history == old(history)
    {
      rows := [];
    }

    /** `get_file_mtime`. */
    function GetFileMtime(path: string): Option<real>
      reads this
    {
      FirstMtime(rows, path)
    }

    /** `get_indexed_files_count`. */
    function GetIndexedFilesCount(): nat
      reads this
    {
      |rows|
    }

    /** `get_all_indexed_paths`. */
    function GetAllIndexedPaths(): seq<string>
      reads this
    {
      Paths(rows)
    }

    /** `search(query, limit)`, with the engine's answer to `query` as input. */
    function Search(answer: MatchAnswer, limit: int): seq<Hit>
      reads this
    {
      SearchRows(answer, limit)
    }

    /** `add_search_history`: insert or refresh the keyword's `last_used`. */
    method AddSearchHistory(keyword: string, now: real)
      modifies this
      ensures history == old(history)[keyword := now]
      ensures rows == old(rows)
    {
      history := history[keyword := now];
    }

    /** `get_search_history(limit)`. */
    ghost function GetSearchHistory(limit: int): seq<HistoryEntry>
      reads this
    {
      RecentHistory(history, limit)
    }

    /** `delete_search_history`. */
    method DeleteSearchHistory(keyword: string)
      modifies this
      ensures history == old(history) - {keyword}
      ensures rows == old(rows)
    {
      history := history - {keyword};
    }

    /** `clear_search_history`. */
    method ClearSearchHistory()
      modifies this
      ensures history == map[]
      ensures rows == old(rows)
    {
      history := map[];
    }
  }

  /** Refreshing a keyword changes no other keyword's timestamp and keeps one entry per keyword. */
  lemma AddHistoryEffect(m: map<string, real>, k: string, now: real)
    ensures k in m ==> |m[k := now]| == |m|
    ensures k !in m ==> |m[k := now]| == |m| + 1
    ensures forall k' :: k' in m && k' != k ==> k' in m[k := now] && m[k := now][k'] == m[k']
  {
    if k !in m {
      assert m[k := now].Keys == m.Keys + {k};
    } else {
      assert m[k := now].Keys == m.Keys;
    }
  }
}
