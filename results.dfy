/**
 * The result lists of `SearchEngine`: how a storage hit becomes a
 * displayed result (`_format_result`), how `search_combined` merges the
 * file-name matches with the content matches in a dictionary keyed by path
 * (a later entry replaces an earlier one in place), and the stable sort
 * that puts indexed results first and orders each group by rank.
 */
module Results {
  import opened Wrappers
  import opened PyStr
  import opened PyPath
  import opened Database
  import opened Preview

  /** The `source` tag `search_combined` adds: `'filesystem'` or `'database'`. */
  datatype Source = FromFilesystem | FromDatabase

  /**
   * One result dictionary: `path`, `name`, `rank`, the optional `preview`
   * and `highlight` entries, and the optional `source` (with `indexed`
   * true exactly for database results).
   */
  datatype Result = Result(
    path: string,
    name: string,
    rank: real,
    preview: Option<string>,
    highlights: Option<seq<Highlight>>,
    source: Option<Source>)

  // ---------------------------------------------------------------------
  // `_format_result`

  /** The result built for a hit whose file still exists. */
  function FormatHit(h: Hit, query: string, includeContent: bool): (r: Result)
    ensures r.path == h.path && r.rank == h.rank && r.source == None
    ensures r.name == Basename(h.path)
    ensures includeContent <==> r.preview.Some?
    ensures includeContent <==> r.highlights.Some?
    ensures includeContent ==> |r.highlights.value| <= MaxHighlights
  {
    if includeContent then
      Result(h.path, Basename(h.path), h.rank,
             Some(CreatePreview(h.content, query, PreviewLength)),
             Some(Highlights(h.content, query, MaxHighlights)), None)
    else
      Result(h.path, Basename(h.path), h.rank, None, None, None)
  }

  /** The loop of `search`: hits whose file no longer exists are dropped, the rest formatted in order. */
  function Formatted(hits: seq<Hit>, query: string, includeContent: bool, existing: set<string>): seq<Result>
  {
    if hits == [] then []
    else
      var last := hits[|hits| - 1];
      Formatted(hits[..|hits| - 1], query, includeContent, existing)
        + (if last.path in existing then [FormatHit(last, query, includeContent)] else [])
  }

  /** A result is kept for exactly the hits whose file exists, and never more results than hits. */
  lemma {:induction false} FormattedMembers(hits: seq<Hit>, query: string, includeContent: bool, existing: set<string>)
    ensures |Formatted(hits, query, includeContent, existing)| <= |hits|
    ensures forall r :: r in Formatted(hits, query, includeContent, existing) <==>
      exists h :: h in hits && h.path in existing && r == FormatHit(h, query, includeContent)
    decreases |hits|
  {
    if hits != [] {
      var init := hits[..|hits| - 1];
      FormattedMembers(init, query, includeContent, existing);
      assert hits == init + [hits[|hits| - 1]];
    }
  }

  /** Formatting a concatenation formats each part in turn: the results keep the hits' order. */
  lemma {:induction false} FormattedConcat(a: seq<Hit>, b: seq<Hit>, query: string, includeContent: bool, existing: set<string>)
    ensures Formatted(a + b, query, includeContent, existing)
      == Formatted(a, query, includeContent, existing) + Formatted(b, query, includeContent, existing)
    decreases |b|
  {
    if b == [] {
      assert a + b == a;
    } else {
      var init := b[..|b| - 1];
      FormattedConcat(a, init, query, includeContent, existing);
      assert (a + b)[..|a + b| - 1] == a + init;
    }
  }

  /** The hits in the order `ORDER BY rank` returns them. */
  predicate HitsByRank(hits: seq<Hit>) {
    forall i, j :: 0 <= i < j < |hits| ==> hits[i].rank <= hits[j].rank
  }

  predicate ResultsByRank(rs: seq<Result>) {
    forall i, j :: 0 <= i < j < |rs| ==> rs[i].rank <= rs[j].rank
  }

  /** Hits in rank order give results in rank order. */
  lemma {:induction false} FormattedByRank(hits: seq<Hit>, query: string, includeContent: bool, existing: set<string>)
    requires HitsByRank(hits)
    ensures ResultsByRank(Formatted(hits, query, includeContent, existing))
    decreases |hits|
  {
    if hits != [] {
      var init := hits[..|hits| - 1];
      var last := hits[|hits| - 1];
      var before := Formatted(init, query, includeContent, existing);
      FormattedByRank(init, query, includeContent, existing);
      FormattedMembers(init, query, includeContent, existing);
      forall k | 0 <= k < |before|
        ensures before[k].rank <= last.rank
      {
        assert before[k] in before;
        var h :| h in init && h.path in existing && before[k] == FormatHit(h, query, includeContent);
        var i :| 0 <= i < |init| && init[i] == h;
        assert hits[i] == h;
      }
    }
  }

  // ---------------------------------------------------------------------
  // The results dictionary of `search_combined`

  /** The paths of a list of results. */
  function ResultPaths(rs: seq<Result>): set<string> {
    set i | 0 <= i < |rs| :: rs[i].path
  }

  /** A dictionary keyed by path holds each path once. */
  predicate UniqueResultPaths(rs: seq<Result>) {
    forall i, j :: 0 <= i < j < |rs| ==> rs[i].path != rs[j].path
  }

  /** The position of `path` among the entries, if present. */
  function IndexOf(rs: seq<Result>, path: string): (k: Option<nat>)
    ensures k.Some? ==> k.value < |rs| && rs[k.value].path == path
    ensures k.None? ==> forall i :: 0 <= i < |rs| ==> rs[i].path != path
  {
    if rs == [] then None
    else if rs[|rs| - 1].path == path then Some(|rs| - 1)
    else IndexOf(rs[..|rs| - 1], path)
  }

  /** `results[r['path']] = r`: a present key keeps its place and takes the new value; a new key goes last. */
  function Put(rs: seq<Result>, r: Result): seq<Result> {
    match IndexOf(rs, r.path)
    case Some(k) => rs[k := r]
    case None => rs + [r]
  }

  /** `Put` keeps one entry per path, holds `r`, and keeps every entry for another path. */
  lemma PutEffect(rs: seq<Result>, r: Result)
    requires UniqueResultPaths(rs)
    ensures UniqueResultPaths(Put(rs, r))
    ensures r in Put(rs, r)
    ensures forall x :: x in Put(rs, r) <==> x == r || (x in rs && x.path != r.path)
    ensures ResultPaths(Put(rs, r)) == ResultPaths(rs) + {r.path}
  {
    var p := Put(rs, r);
    match IndexOf(rs, r.path)
    case Some(k) =>
      forall x | x in rs && x.path != r.path
        ensures x in p
      {
        var i :| 0 <= i < |rs| && rs[i] == x;
        assert p[i] == x;
      }
      forall x | x in p && x != r
        ensures x in rs && x.path != r.path
      {
        var i :| 0 <= i < |p| && p[i] == x;
        assert i != k;
      }
      assert ResultPaths(p) == ResultPaths(rs) + {r.path} by {
        forall q | q in ResultPaths(rs)
          ensures q in ResultPaths(p)
        {
          var i :| 0 <= i < |rs| && rs[i].path == q;
          if i == k {
            assert p[k].path == q;
          } else {
            assert p[i].path == q;
          }
        }
        assert p[k].path == r.path;
      }
    case None =>
      assert p == rs + [r];
      assert p[|rs|] == r;
  }

  /** Each result of `rs` tagged with `source`, as the two loops of `search_combined` build them. */
  function Tagged(r: Result, source: Source): Result {
    r.(source := Some(source))
  }

  /** The loop `for result in xs: results[result['path']] = {**result, 'source': ..}`. */
  function PutAll(acc: seq<Result>, xs: seq<Result>, source: Source): seq<Result> {
    if xs == [] then acc
    else Put(PutAll(acc, xs[..|xs| - 1], source), Tagged(xs[|xs| - 1], source))
  }

  /** The dictionary after the file-name loop and the content loop. */
  function Merge(fs: seq<Result>, db: seq<Result>): seq<Result> {
    PutAll(PutAll([], fs, FromFilesystem), db, FromDatabase)
  }

  lemma ResultPathsAppend(a: seq<Result>, b: seq<Result>)
    ensures ResultPaths(a + b) == ResultPaths(a) + ResultPaths(b)
  {
    forall q | q in ResultPaths(a + b)
      ensures q in ResultPaths(a) + ResultPaths(b)
    {
      var i :| 0 <= i < |a + b| && (a + b)[i].path == q;
      if i < |a| {
        assert a[i].path == q;
      } else {
        assert b[i - |a|].path == q;
      }
    }
    forall q | q in ResultPaths(a) + ResultPaths(b)
      ensures q in ResultPaths(a + b)
    {
      if q in ResultPaths(a) {
        var i :| 0 <= i < |a| && a[i].path == q;
        assert (a + b)[i].path == q;
      } else {
        var i :| 0 <= i < |b| && b[i].path == q;
        assert (a + b)[|a| + i].path == q;
      }
    }
  }

  lemma LastPath(xs: seq<Result>)
    requires xs != []
    ensures ResultPaths(xs) == ResultPaths(xs[..|xs| - 1]) + {xs[|xs| - 1].path}
  {
    assert xs == xs[..|xs| - 1] + [xs[|xs| - 1]];
    ResultPathsAppend(xs[..|xs| - 1], [xs[|xs| - 1]]);
    assert ResultPaths([xs[|xs| - 1]]) == {xs[|xs| - 1].path} by {
      assert [xs[|xs| - 1]][0].path == xs[|xs| - 1].path;
    }
  }

  /** After a loop every path of either list is present, once. */
  lemma {:induction false} PutAllPaths(acc: seq<Result>, xs: seq<Result>, source: Source)
    requires UniqueResultPaths(acc)
    ensures UniqueResultPaths(PutAll(acc, xs, source))
    ensures ResultPaths(PutAll(acc, xs, source)) == ResultPaths(acc) + ResultPaths(xs)
    decreases |xs|
  {
    if xs != [] {
      var init := xs[..|xs| - 1];
      PutAllPaths(acc, init, source);
      PutEffect(PutAll(acc, init, source), Tagged(xs[|xs| - 1], source));
      LastPath(xs);
    }
  }

  /**
   * After a loop every entry is an earlier entry whose path the loop did
   * not reach, or a result of the loop, tagged.
   */
  lemma {:induction false} PutAllMembers(acc: seq<Result>, xs: seq<Result>, source: Source)
    requires UniqueResultPaths(acc)
    ensures forall x :: x in PutAll(acc, xs, source) ==>
      (x in acc && x.path !in ResultPaths(xs)) || exists y :: y in xs && x == Tagged(y, source)
    decreases |xs|
  {
    if xs != [] {
      var init := xs[..|xs| - 1];
      var last := xs[|xs| - 1];
      PutAllMembers(acc, init, source);
      PutAllPaths(acc, init, source);
      PutEffect(PutAll(acc, init, source), Tagged(last, source));
      LastPath(xs);
      forall x | x in PutAll(acc, xs, source)
        ensures (x in acc && x.path !in ResultPaths(xs)) || exists y :: y in xs && x == Tagged(y, source)
      {
        if x == Tagged(last, source) {
          assert last in xs;
        } else {
          assert x in PutAll(acc, init, source) && x.path != last.path;
          if !(x in acc && x.path !in ResultPaths(init)) {
            var y :| y in init && x == Tagged(y, source);
            assert y in xs;
          }
        }
      }
    }
  }

  /** An earlier entry whose path the loop does not reach survives it. */
  lemma {:induction false} PutAllKeeps(acc: seq<Result>, xs: seq<Result>, source: Source)
    requires UniqueResultPaths(acc)
    ensures forall x :: x in acc && x.path !in ResultPaths(xs) ==> x in PutAll(acc, xs, source)
    decreases |xs|
  {
    if xs != [] {
      var init := xs[..|xs| - 1];
      PutAllKeeps(acc, init, source);
      PutAllPaths(acc, init, source);
      PutEffect(PutAll(acc, init, source), Tagged(xs[|xs| - 1], source));
      LastPath(xs);
    }
  }

  /**
   * The merged dictionary holds each path of either list once; a path the
   * content search returned is a database result, any other path a
   * file-name result.
   */
  lemma MergeEffect(fs: seq<Result>, db: seq<Result>)
    ensures UniqueResultPaths(Merge(fs, db))
    ensures ResultPaths(Merge(fs, db)) == ResultPaths(fs) + ResultPaths(db)
    ensures forall x :: x in Merge(fs, db) ==> x.source.Some?
    ensures forall x :: x in Merge(fs, db) && x.source == Some(FromDatabase) ==>
      exists y :: y in db && x == Tagged(y, FromDatabase)
    ensures forall x :: x in Merge(fs, db) && x.source == Some(FromFilesystem) ==>
      x.path !in ResultPaths(db) && exists y :: y in fs && x == Tagged(y, FromFilesystem)
    ensures forall x :: x in Merge(fs, db) ==> (x.source == Some(FromDatabase) <==> x.path in ResultPaths(db))
  {
    var first := PutAll([], fs, FromFilesystem);
    PutAllPaths([], fs, FromFilesystem);
    PutAllMembers([], fs, FromFilesystem);
    PutAllPaths(first, db, FromDatabase);
    PutAllMembers(first, db, FromDatabase);
  }

  // ---------------------------------------------------------------------
  // `sorted(results.values(), key=lambda x: (0 if x['indexed'] else 1, x.get('rank', 0)))`

  /** `0 if x['indexed'] else 1`. */
  function Tier(r: Result): int {
    if r.source == Some(FromDatabase) then 0 else 1
  }

  /** The tuple order on `(tier, rank)`. */
  predicate KeyLe(a: Result, b: Result) {
    Tier(a) < Tier(b) || (Tier(a) == Tier(b) && a.rank <= b.rank)
  }

  predicate SameKey(a: Result, b: Result) {
    Tier(a) == Tier(b) && a.rank == b.rank
  }

  predicate SortedByKey(rs: seq<Result>) {
    forall i, j :: 0 <= i < j < |rs| ==> KeyLe(rs[i], rs[j])
  }

  /** Inserting into a sorted list after every entry whose key is not greater, as a stable sort does. */
  function Insert(sorted: seq<Result>, x: Result): (r: seq<Result>)
    ensures |r| == |sorted| + 1
    ensures multiset(r) == multiset(sorted) + multiset{x}
  {
    if sorted == [] then [x]
    else if KeyLe(sorted[|sorted| - 1], x) then sorted + [x]
    else
      assert sorted == sorted[..|sorted| - 1] + [sorted[|sorted| - 1]];
      Insert(sorted[..|sorted| - 1], x) + [sorted[|sorted| - 1]]
  }

  /** The stable sort, by insertion from left to right. */
  function SortByKey(rs: seq<Result>): (r: seq<Result>)
    ensures multiset(r) == multiset(rs)
  {
    if rs == [] then []
    else
      assert rs == rs[..|rs| - 1] + [rs[|rs| - 1]];
      Insert(SortByKey(rs[..|rs| - 1]), rs[|rs| - 1])
  }

  lemma {:induction false} InsertSorted(sorted: seq<Result>, x: Result)
    requires SortedByKey(sorted)
    ensures SortedByKey(Insert(sorted, x))
    decreases |sorted|
  {
    if sorted != [] && !KeyLe(sorted[|sorted| - 1], x) {
      var init := sorted[..|sorted| - 1];
      var last := sorted[|sorted| - 1];
      InsertSorted(init, x);
      var ins := Insert(init, x);
      var r := ins + [last];
      forall i, j | 0 <= i < j < |r|
        ensures KeyLe(r[i], r[j])
      {
        if j == |r| - 1 {
          var y := r[i];
          assert y in multiset(ins);
          assert y in init || y == x;
          if y in init {
            var k :| 0 <= k < |init| && init[k] == y;
            assert KeyLe(sorted[k], sorted[|sorted| - 1]);
          }
        }
      }
    }
  }

  /** The sort orders by key and permutes its input. */
  lemma {:induction false} SortSorted(rs: seq<Result>)
    ensures SortedByKey(SortByKey(rs))
    ensures multiset(SortByKey(rs)) == multiset(rs)
    decreases |rs|
  {
    if rs != [] {
      SortSorted(rs[..|rs| - 1]);
      InsertSorted(SortByKey(rs[..|rs| - 1]), rs[|rs| - 1]);
    }
  }

  /** The entries of `rs` whose key equals the key of `k`, in order. */
  function WithKey(rs: seq<Result>, k: Result): seq<Result> {
    if rs == [] then []
    else WithKey(rs[..|rs| - 1], k) + (if SameKey(rs[|rs| - 1], k) then [rs[|rs| - 1]] else [])
  }

  lemma {:induction false} WithKeyAppend(a: seq<Result>, b: seq<Result>, k: Result)
    ensures WithKey(a + b, k) == WithKey(a, k) + WithKey(b, k)
    decreases |b|
  {
    if b == [] {
      assert a + b == a;
    } else {
      var init := b[..|b| - 1];
      WithKeyAppend(a, init, k);
      assert (a + b)[..|a + b| - 1] == a + init;
    }
  }

  lemma WithKeySingle(y: Result, k: Result)
    ensures WithKey([y], k) == if SameKey(y, k) then [y] else []
  {
    assert [y][..0] == [];
  }

  /** Inserting `x` adds it to the entries of its key after every earlier one. */
  lemma {:induction false} InsertStable(sorted: seq<Result>, x: Result, k: Result)
    requires SortedByKey(sorted)
    ensures WithKey(Insert(sorted, x), k) == WithKey(sorted, k) + WithKey([x], k)
    decreases |sorted|
  {
    if sorted == [] {
      assert Insert(sorted, x) == [x];
    } else if KeyLe(sorted[|sorted| - 1], x) {
      WithKeyAppend(sorted, [x], k);
    } else {
      var init := sorted[..|sorted| - 1];
      var last := sorted[|sorted| - 1];
      var ins := Insert(init, x);
      assert SortedByKey(init);
      assert Insert(sorted, x) == ins + [last];
      InsertStable(init, x, k);
      WithKeyAppend(ins, [last], k);
      assert sorted == init + [last];
      WithKeyAppend(init, [last], k);
      WithKeySingle(x, k);
      WithKeySingle(last, k);
      // `x` goes before `last`, so they do not share a key
      assert !(SameKey(x, k) && SameKey(last, k));
      SwapSingles(WithKey(init, k), WithKey([x], k), WithKey([last], k));
    }
  }

  lemma SwapSingles(a: seq<Result>, b: seq<Result>, c: seq<Result>)
    requires b == [] || c == []
    ensures a + b + c == a + c + b
  {
    if b == [] {
      assert a + b == a;
      assert a + c + b == a + c;
    } else {
      assert a + b + c == a + b;
      assert a + c == a;
    }
  }

  /**
   * The sort is stable: for every key, the entries with that key appear in
   * the sorted list in the order they had before.
   */
  lemma {:induction false} SortStable(rs: seq<Result>, k: Result)
    ensures WithKey(SortByKey(rs), k) == WithKey(rs, k)
    decreases |rs|
  {
    if rs != [] {
      var init := rs[..|rs| - 1];
      var last := rs[|rs| - 1];
      SortStable(init, k);
      SortSorted(init);
      InsertStable(SortByKey(init), last, k);
      SortByKeyLast(rs);
      WithKeyLast(rs, k);
    }
  }

  lemma SortByKeyLast(rs: seq<Result>)
    requires rs != []
    ensures SortByKey(rs) == Insert(SortByKey(rs[..|rs| - 1]), rs[|rs| - 1])
  {
  }

  lemma WithKeyLast(rs: seq<Result>, k: Result)
    requires rs != []
    ensures WithKey(rs, k) == WithKey(rs[..|rs| - 1], k) + WithKey([rs[|rs| - 1]], k)
  {
    WithKeySingle(rs[|rs| - 1], k);
  }

  /** A permutation of a list with one entry per path has one entry per path. */
  lemma PermutationKeepsUnique(a: seq<Result>, b: seq<Result>)
    requires UniqueResultPaths(a) && multiset(a) == multiset(b)
    ensures UniqueResultPaths(b)
  {
    forall i, j | 0 <= i < j < |b|
      ensures b[i].path != b[j].path
    {
      if b[i].path == b[j].path {
        var x := b[i];
        assert b[j] in multiset(a);
        var i' := IndexIn(a, x);
        var j' := IndexIn(a, b[j]);
        assert b[j] == x by {
          assert a[i'].path == a[j'].path;
        }
        TwiceCounted(b, i, j);
        UniqueOnce(a, i');
        assert false;
      }
    }
  }

  lemma IndexIn(a: seq<Result>, x: Result) returns (i: nat)
    requires x in multiset(a)
    ensures i < |a| && a[i] == x
  {
    i :| 0 <= i < |a| && a[i] == x;
  }

  lemma TwiceCounted(b: seq<Result>, i: nat, j: nat)
    requires i < j < |b| && b[i] == b[j]
    ensures multiset(b)[b[i]] >= 2
  {
    assert b == b[..i] + [b[i]] + b[i + 1..j] + [b[j]] + b[j + 1..];
  }

  /** In a list with one entry per path, an entry occurs once. */
  lemma {:induction false} UniqueOnce(a: seq<Result>, i: nat)
    requires UniqueResultPaths(a) && i < |a|
    ensures multiset(a)[a[i]] == 1
    decreases |a|
  {
    var last := a[|a| - 1];
    var init := a[..|a| - 1];
    assert a == init + [last];
    assert UniqueResultPaths(init);
    if i == |a| - 1 {
      assert forall k :: 0 <= k < |init| ==> init[k].path != last.path by {
        forall k | 0 <= k < |init|
          ensures init[k].path != last.path
        {
          assert init[k] == a[k];
        }
      }
      assert last !in init;
    } else {
      UniqueOnce(init, i);
      assert a[i] != last by {
        assert a[i].path != a[|a| - 1].path;
      }
    }
  }
}
