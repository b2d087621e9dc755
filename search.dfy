/**
 * `SearchEngine`: the content search through the database (which also
 * records the query in the search history), the file-name search over a
 * directory walk, and `search_combined`, which merges the two, lets the
 * database result win for a path both return, sorts indexed results first
 * and then by rank, and keeps the first `max_results`.
 *
 * The directory walk, the existence of files and the full-text engine's
 * answer are inputs: see README.
 */
module Search {
  import opened Wrappers
  import opened PyStr
  import opened PyPath
  import opened Database
  import opened Preview
  import opened Results

  /** `_search_filesystem` stops walking once it has this many results. */
  const FilesystemCap := 1000

  /** The `preview` of a file-name result starts with the Korean label for "file name match: ". */
  const FilenameMatchLabel := "\U{D30C}\U{C77C}\U{BA85} \U{C77C}\U{CE58}: "

  /** One step of `os.walk`: a directory and the names of the files in it. */
  datatype DirListing = DirListing(dirpath: string, filenames: seq<string>)

  /** `query_lower in filename.lower()`. */
  predicate NameMatches(query: string, filename: string) {
    Contains(Lower(filename), Lower(query))
  }

  /** The result `_search_filesystem` appends for a matching file. */
  function FileResult(dirpath: string, filename: string): Result {
    Result(JoinPath(dirpath, filename), filename, 0.0, Some(FilenameMatchLabel + filename), None, None)
  }

  /** The results the inner loop adds for the first `names` of a directory; `os.stat` fails on `statFails`. */
  function DirMatches(query: string, dirpath: string, names: seq<string>, statFails: set<string>): (r: seq<Result>)
    ensures |r| <= |names|
  {
    if names == [] then []
    else
      var name := names[|names| - 1];
      DirMatches(query, dirpath, names[..|names| - 1], statFails)
        + (if NameMatches(query, name) && JoinPath(dirpath, name) !in statFails then [FileResult(dirpath, name)] else [])
  }

  /** The outer loop from `found` on: a whole directory is scanned before the cap is checked. */
  function WalkMatches(query: string, walk: seq<DirListing>, statFails: set<string>, found: seq<Result>): (r: seq<Result>)
    ensures found <= r
    decreases |walk|
  {
    if walk == [] then found
    else
      var f := found + DirMatches(query, walk[0].dirpath, walk[0].filenames, statFails);
      if |f| >= FilesystemCap then f else WalkMatches(query, walk[1..], statFails, f)
  }

  /** A file of the walk whose name matches and whose `os.stat` succeeds. */
  predicate Qualifies(query: string, walk: seq<DirListing>, statFails: set<string>, r: Result) {
    exists d, name :: d in walk && name in d.filenames && NameMatches(query, name)
      && JoinPath(d.dirpath, name) !in statFails && r == FileResult(d.dirpath, name)
  }

  lemma {:induction false} DirMatchesMembers(query: string, dirpath: string, names: seq<string>, statFails: set<string>)
    ensures forall r :: r in DirMatches(query, dirpath, names, statFails) <==>
      exists name :: name in names && NameMatches(query, name)
        && JoinPath(dirpath, name) !in statFails && r == FileResult(dirpath, name)
    decreases |names|
  {
    if names != [] {
      DirMatchesMembers(query, dirpath, names[..|names| - 1], statFails);
      assert names == names[..|names| - 1] + [names[|names| - 1]];
    }
  }

  /**
   * Every file-name result is a matching file of the walk; when the cap was
   * not reached, every matching file is a result.
   */
  lemma {:induction false} WalkMatchesMembers(query: string, walk: seq<DirListing>, statFails: set<string>, found: seq<Result>)
    ensures forall r :: r in WalkMatches(query, walk, statFails, found) ==> r in found || Qualifies(query, walk, statFails, r)
    ensures |WalkMatches(query, walk, statFails, found)| < FilesystemCap ==>
      forall r :: Qualifies(query, walk, statFails, r) ==> r in WalkMatches(query, walk, statFails, found)
    decreases |walk|
  {
    if walk != [] {
      var d := walk[0];
      var f := found + DirMatches(query, d.dirpath, d.filenames, statFails);
      DirMatchesMembers(query, d.dirpath, d.filenames, statFails);
      if |f| < FilesystemCap {
        WalkMatchesMembers(query, walk[1..], statFails, f);
        forall r | Qualifies(query, walk[1..], statFails, r)
          ensures Qualifies(query, walk, statFails, r)
        {
          var d', name :| d' in walk[1..] && name in d'.filenames && NameMatches(query, name)
            && JoinPath(d'.dirpath, name) !in statFails && r == FileResult(d'.dirpath, name);
          assert d' in walk;
        }
        if |WalkMatches(query, walk, statFails, found)| < FilesystemCap {
          forall r | Qualifies(query, walk, statFails, r)
            ensures r in WalkMatches(query, walk, statFails, found)
          {
            var d', name :| d' in walk && name in d'.filenames && NameMatches(query, name)
              && JoinPath(d'.dirpath, name) !in statFails && r == FileResult(d'.dirpath, name);
            if d' == d {
              assert r in f;
              assert f <= WalkMatches(query, walk[1..], statFails, f);
            } else {
              assert d' in walk[1..];
              assert Qualifies(query, walk[1..], statFails, r);
            }
          }
        }
      } else {
        forall r | r in f
          ensures r in found || Qualifies(query, walk, statFails, r)
        {
          if r !in found {
            assert r in DirMatches(query, d.dirpath, d.filenames, statFails);
          }
        }
      }
    }
  }

  /** The largest number of files in one directory of the walk. */
  function Widest(walk: seq<DirListing>): (n: nat)
    ensures forall d :: d in walk ==> |d.filenames| <= n
  {
    if walk == [] then 0
    else
      var rest := Widest(walk[1..]);
      if |walk[0].filenames| > rest then |walk[0].filenames| else rest
  }

  /** The cap is checked after each directory, so the list can pass 1000 by at most one directory's files. */
  lemma {:induction false} WalkMatchesBound(query: string, walk: seq<DirListing>, statFails: set<string>, found: seq<Result>)
    requires |found| < FilesystemCap
    ensures |WalkMatches(query, walk, statFails, found)| < FilesystemCap + Widest(walk)
    decreases |walk|
  {
    if walk != [] {
      var f := found + DirMatches(query, walk[0].dirpath, walk[0].filenames, statFails);
      if |f| < FilesystemCap {
        WalkMatchesBound(query, walk[1..], statFails, f);
        assert Widest(walk[1..]) <= Widest(walk);
      }
    }
  }

  /** Every file-name result matches the query case-insensitively and has a rank of 0. */
  lemma FilesystemResultsMatch(query: string, walk: seq<DirListing>, statFails: set<string>)
    ensures forall r :: r in WalkMatches(query, walk, statFails, []) ==>
      && NameMatches(query, r.name) && r.rank == 0.0 && r.source == None
      && r.preview == Some(FilenameMatchLabel + r.name)
  {
    WalkMatchesMembers(query, walk, statFails, []);
  }

  // ---------------------------------------------------------------------
  // `search_combined` as a function of its inputs

  /** The results of `search_combined` once the two lists are known. */
  function Combined(fs: seq<Result>, db: seq<Result>, maxResults: int): seq<Result> {
    PrefixSlice(SortByKey(Merge(fs, db)), maxResults)
  }

  /**
   * The combined list holds each path at most once, indexed results before
   * the others and each group in ascending rank, and at most `max_results`
   * entries; a result is the database's result for its path when the
   * content search returned that path, and otherwise the file-name result.
   */
  lemma CombinedEffect(fs: seq<Result>, db: seq<Result>, maxResults: int)
    ensures var r := Combined(fs, db, maxResults);
      && UniqueResultPaths(r)
      && SortedByKey(r)
      && (maxResults >= 0 ==> |r| <= maxResults)
      && (forall x :: x in r ==> x.source.Some?)
      && (forall x :: x in r ==> (x.source == Some(FromDatabase) <==> x.path in ResultPaths(db)))
      && (forall x :: x in r && x.source == Some(FromDatabase) ==> exists y :: y in db && x == Tagged(y, FromDatabase))
      && (forall x :: x in r && x.source == Some(FromFilesystem) ==> exists y :: y in fs && x == Tagged(y, FromFilesystem))
  {
    var merged := Merge(fs, db);
    var sorted := SortByKey(merged);
    MergeEffect(fs, db);
    SortSorted(merged);
    PermutationKeepsUnique(merged, sorted);
    var r := Combined(fs, db, maxResults);
    assert r == sorted[..|r|];
    forall x | x in r
      ensures x in merged
    {
      assert x in multiset(sorted);
    }
  }

  /** Nothing is cut when the merged list fits: every path of either list is then present. */
  lemma CombinedComplete(fs: seq<Result>, db: seq<Result>, maxResults: int)
    requires maxResults >= |Merge(fs, db)|
    ensures ResultPaths(Combined(fs, db, maxResults)) == ResultPaths(fs) + ResultPaths(db)
  {
    var merged := Merge(fs, db);
    var sorted := SortByKey(merged);
    MergeEffect(fs, db);
    SortSorted(merged);
    assert |sorted| == |merged| by {
      assert |multiset(sorted)| == |multiset(merged)|;
    }
    assert Combined(fs, db, maxResults) == sorted;
    forall q | q in ResultPaths(merged)
      ensures q in ResultPaths(sorted)
    {
      var i :| 0 <= i < |merged| && merged[i].path == q;
      assert merged[i] in multiset(sorted);
      var j :| 0 <= j < |sorted| && sorted[j] == merged[i];
    }
    forall q | q in ResultPaths(sorted)
      ensures q in ResultPaths(merged)
    {
      var j :| 0 <= j < |sorted| && sorted[j].path == q;
      assert sorted[j] in multiset(merged);
      var i :| 0 <= i < |merged| && merged[i] == sorted[j];
    }
  }

  /** Results with equal tier and rank keep the order they had in the dictionary. */
  lemma CombinedStable(fs: seq<Result>, db: seq<Result>, k: Result)
    ensures WithKey(SortByKey(Merge(fs, db)), k) == WithKey(Merge(fs, db), k)
  {
    SortStable(Merge(fs, db), k);
  }

  // ---------------------------------------------------------------------

  /** The `for result in ...: results_dict[path] = {**result, 'source': ...}` loops. */
  method PutEach(acc: seq<Result>, xs: seq<Result>, source: Source) returns (merged: seq<Result>)
    ensures merged == PutAll(acc, xs, source)
  {
    merged := acc;
    for i := 0 to |xs|
      invariant merged == PutAll(acc, xs[..i], source)
    {
      merged := Put(merged, Tagged(xs[i], source));
      assert xs[..i + 1][..i] == xs[..i];
    }
    assert xs[..|xs|] == xs;
  }

  class SearchEngine {
    var db: DatabaseManager

    constructor (db: DatabaseManager)
      ensures this.db == db
    {
      this.db := db;
    }

    /**
     * `search(query, max_results, include_content)`: `answer` is the
     * full-text engine's answer to the query and `existing` the paths for
     * which `os.path.exists` holds.
     */
    method Search(query: string, maxResults: int, includeContent: bool, answer: MatchAnswer,
                  existing: set<string>, now: real) returns (results: seq<Result>)
      modifies db
      ensures IsBlank(query) ==> results == [] && db.history == old(db.history)
      ensures !IsBlank(query) ==> db.history == old(db.history)[Strip(query) := now]
      ensures !IsBlank(query) ==> results == Formatted(SearchRows(answer, maxResults), query, includeContent, existing)
      ensures db.rows == old(db.rows)
    {
      if query == [] || Strip(query) == [] {
        StripEmptyIffBlank(query);
        return [];
      }
      StripEmptyIffBlank(query);
      db.AddSearchHistory(Strip(query), now);
      var hits := db.Search(answer, maxResults);
      results := [];
      for i := 0 to |hits|
        invariant results == Formatted(hits[..i], query, includeContent, existing)
      {
        if hits[i].path in existing {
          results := results + [FormatHit(hits[i], query, includeContent)];
        }
        assert hits[..i + 1][..i] == hits[..i];
      }
      assert hits[..|hits|] == hits;
    }

    /** `_search_filesystem(query, root_path)`, with the walk of `root_path` as input. */
    method SearchFilesystem(query: string, walk: seq<DirListing>, statFails: set<string>) returns (results: seq<Result>)
      ensures results == WalkMatches(query, walk, statFails, [])
    {
      results := [];
      var queryLower := Lower(query);
      var i := 0;
      while i < |walk|
        invariant i <= |walk|
        invariant WalkMatches(query, walk[i..], statFails, results) == WalkMatches(query, walk, statFails, [])
      {
        var d := walk[i];
        var before := results;
        for j := 0 to |d.filenames|
          invariant results == before + DirMatches(query, d.dirpath, d.filenames[..j], statFails)
        {
          var filename := d.filenames[j];
          var filePath := JoinPath(d.dirpath, filename);
          if Contains(Lower(filename), queryLower) && filePath !in statFails {
            results := results + [FileResult(d.dirpath, filename)];
          }
          assert d.filenames[..j + 1][..j] == d.filenames[..j];
        }
        assert d.filenames[..|d.filenames|] == d.filenames;
        assert walk[i..][0] == d && walk[i..][1..] == walk[i + 1..];
        if |results| >= FilesystemCap {
          return;
        }
        i := i + 1;
      }
    }

    /**
     * `search_combined(query, search_path, max_results)`: an empty
     * `searchPath` stands for a missing one, and `walk` is the walk of
     * `searchPath`.
     */
    method SearchCombined(query: string, searchPath: string, maxResults: int, walk: seq<DirListing>,
                          statFails: set<string>, answer: MatchAnswer, existing: set<string>, now: real)
      returns (results: seq<Result>)
      modifies db
      ensures IsBlank(query) ==> results == [] && db.history == old(db.history)
      ensures !IsBlank(query) ==> db.history == old(db.history)[Strip(query) := now]
      ensures !IsBlank(query) ==> results == Combined(
        if searchPath != [] then WalkMatches(query, walk, statFails, []) else [],
        Formatted(SearchRows(answer, maxResults), query, true, existing),
        maxResults)
      ensures db.rows == old(db.rows)
    {
      if query == [] || Strip(query) == [] {
        StripEmptyIffBlank(query);
        return [];
      }
      StripEmptyIffBlank(query);
      var merged: seq<Result> := [];
      if searchPath != [] {
        var filenameResults := SearchFilesystem(query, walk, statFails);
        merged := PutEach([], filenameResults, FromFilesystem);
      }
      var contentResults := Search(query, maxResults, true, answer, existing, now);
      merged := PutEach(merged, contentResults, FromDatabase);
      results := PrefixSlice(SortByKey(merged), maxResults);
    }
  }
}
