/**
 * How a hit is shown: `_create_preview` cuts a window of the content around
 * the first case-insensitive occurrence of the query and marks with `...`
 * where text was cut; `_highlight_query` lists the first few
 * non-overlapping occurrences, scanning left to right.
 */
module Preview {
  import opened PyStr

  /** `max_length` of `_create_preview`. */
  const PreviewLength := 200
  /** `max_highlights` of `_highlight_query`. */
  const MaxHighlights := 3
  const Ellipsis := "..."

  /** A slice `content[start:end]` of the content. */
  datatype Window = Window(start: nat, end: nat)

  /**
   * `start = max(0, pos - max_length // 2)` and
   * `end = min(len(content), pos + len(query) + max_length // 2)`.
   */
  function MatchWindow(len: nat, pos: nat, qlen: nat, maxLength: nat): (w: Window)
    requires pos + qlen <= len
    ensures w.start <= pos && pos + qlen <= w.end <= len
    ensures w.start == 0 <==> pos <= maxLength / 2
    ensures w.start > 0 ==> pos - w.start == maxLength / 2
    ensures w.end == len <==> len <= pos + qlen + maxLength / 2
    ensures w.end < len ==> w.end - (pos + qlen) == maxLength / 2
    ensures w.end - w.start <= qlen + 2 * (maxLength / 2)
  {
    var start := if pos < maxLength / 2 then 0 else pos - maxLength / 2;
    var end := if len < pos + qlen + maxLength / 2 then len else pos + qlen + maxLength / 2;
    Window(start, end)
  }

  /** The window's text, with `...` on each side where the content goes on. */
  function Marked(content: string, w: Window): string
    requires w.start <= w.end <= |content|
  {
    (if w.start > 0 then Ellipsis else "") + content[w.start..w.end] + (if w.end < |content| then Ellipsis else "")
  }

  /** `_create_preview(content, query, max_length)`. */
  function CreatePreview(content: string, query: string, maxLength: nat): (r: string)
    ensures content == [] <==> r == []
    ensures |r| <= |query| + maxLength + 2 * |Ellipsis|
  {
    if content == [] then ""
    else
      var pos := Find(Lower(content), Lower(query), 0);
      if pos == -1 then
        PrefixSlice(content, maxLength) + (if |content| > maxLength then Ellipsis else "")
      else
        Marked(content, MatchWindow(|content|, pos, |query|, maxLength))
  }

  /** `content.lower().find(query.lower())` is the first case-insensitive occurrence. */
  predicate FirstOccurrence(content: string, query: string, pos: nat) {
    && OccursAt(Lower(content), Lower(query), pos)
    && forall i: nat :: i < pos ==> !OccursAt(Lower(content), Lower(query), i)
  }

  /**
   * When the query occurs, the preview is a window around its first
   * occurrence (half of `max_length` on each side, clipped only where the
   * content ends first), marked with `...` exactly on the sides that were cut, and the
   * window holds the occurrence.
   */
  lemma PreviewAroundMatch(content: string, query: string, maxLength: nat, pos: nat)
    requires content != []
    requires FirstOccurrence(content, query, pos)
    ensures exists w: Window ::
      && w.start <= pos && pos + |query| <= w.end <= |content|
      && (w.start == 0 <==> pos <= maxLength / 2)
      && (w.start > 0 ==> pos - w.start == maxLength / 2)
      && (w.end == |content| <==> |content| <= pos + |query| + maxLength / 2)
      && (w.end < |content| ==> w.end - (pos + |query|) == maxLength / 2)
      && CreatePreview(content, query, maxLength) == Marked(content, w)
      && OccursAt(Lower(content[w.start..w.end]), Lower(query), pos - w.start)
  {
    var lc, lq := Lower(content), Lower(query);
    FindFirst(lc, lq, pos);
    var w := MatchWindow(|content|, pos, |query|, maxLength);
    PreviewIsMarked(content, query, maxLength, pos);
    WindowHoldsMatch(content, query, w, pos);
  }

  /** The first occurrence is what `find` returns. */
  lemma FindFirst(lc: string, lq: string, pos: nat)
    requires OccursAt(lc, lq, pos)
    requires forall i: nat :: i < pos ==> !OccursAt(lc, lq, i)
    ensures Find(lc, lq, 0) == pos
  {
    FindLeast(lc, lq, 0);
  }

  lemma PreviewIsMarked(content: string, query: string, maxLength: nat, pos: nat)
    requires content != [] && Find(Lower(content), Lower(query), 0) == pos
    ensures pos + |query| <= |content|
    ensures CreatePreview(content, query, maxLength) == Marked(content, MatchWindow(|content|, pos, |query|, maxLength))
  {
  }

  /** Lower-casing the window's text keeps the occurrence, shifted to the window's start. */
  lemma WindowHoldsMatch(content: string, query: string, w: Window, pos: nat)
    requires w.start <= pos && pos + |query| <= w.end <= |content|
    requires OccursAt(Lower(content), Lower(query), pos)
    ensures OccursAt(Lower(content[w.start..w.end]), Lower(query), pos - w.start)
  {
    LowerSlice(content, w.start, w.end);
    assert Lower(content[w.start..w.end])[pos - w.start..pos - w.start + |query|]
      == Lower(content)[pos..pos + |query|];
  }

  /**
   * When the query does not occur, the preview is the first `max_length`
   * characters, followed by `...` exactly when the content is longer.
   */
  lemma PreviewWithoutMatch(content: string, query: string, maxLength: nat)
    requires content != []
    requires forall i: nat :: !OccursAt(Lower(content), Lower(query), i)
    ensures |content| <= maxLength ==> CreatePreview(content, query, maxLength) == content
    ensures |content| > maxLength ==> CreatePreview(content, query, maxLength) == content[..maxLength] + Ellipsis
  {
  }

  // ---------------------------------------------------------------------
  // Highlights

  /** One entry of `_highlight_query`: `{'start', 'end', 'text'}`. */
  datatype Highlight = Highlight(start: nat, end: nat, text: string)

  /**
   * The highlights the loop finds in at most `n` more rounds, scanning the
   * lower-cased content `lc` for the lower-cased query `lq` from `from`:
   * each round takes the next occurrence and resumes after it.
   */
  function Scan(content: string, lc: string, lq: string, from: nat, n: nat): (hs: seq<Highlight>)
    requires |lc| == |content|
    ensures |hs| <= n
    decreases n
  {
    if n == 0 then []
    else
      var pos := Find(lc, lq, from);
      if pos == -1 then []
      else [Highlight(pos, pos + |lq|, content[pos..pos + |lq|])] + Scan(content, lc, lq, pos + |lq|, n - 1)
  }

  /** What `_highlight_query` returns when it makes at most `n` rounds. */
  function Highlights(content: string, query: string, n: nat): seq<Highlight> {
    Scan(content, Lower(content), Lower(query), 0, n)
  }

  /** `_highlight_query(content, query, max_highlights)`. */
  method HighlightQuery(content: string, query: string, maxHighlights: nat) returns (highlights: seq<Highlight>)
    ensures highlights == Highlights(content, query, maxHighlights)
  {
    var queryLower := Lower(query);
    var contentLower := Lower(content);
    highlights := ScanLoop(content, contentLower, queryLower, maxHighlights);
  }

  /** The `for _ in range(max_highlights)` loop over the lower-cased strings. */
  method ScanLoop(content: string, contentLower: string, queryLower: string, maxHighlights: nat)
    returns (highlights: seq<Highlight>)
    requires |contentLower| == |content|
    ensures highlights == Scan(content, contentLower, queryLower, 0, maxHighlights)
  {
    highlights := [];
    var start: nat := 0;
    var left := maxHighlights;
    ghost var all := ScanOn(content, contentLower, queryLower, [], 0, maxHighlights);
    while left > 0
      invariant ScanOn(content, contentLower, queryLower, highlights, start, left) == all
    {
      var found, h, next := ScanRound(content, contentLower, queryLower, highlights, start, left);
      if !found {
        break;
      }
      highlights := highlights + [h];
      start := next;
      left := left - 1;
    }
    ScanOnScan(content, contentLower, queryLower, highlights, start, left);
    ScanOnScan(content, contentLower, queryLower, [], 0, maxHighlights);
  }

  /** One round of the loop: `find` from `from`, and the highlight it gives when it finds something. */
  method ScanRound(content: string, lc: string, lq: string, done: seq<Highlight>, from: nat, n: nat)
    returns (found: bool, h: Highlight, next: nat)
    requires |lc| == |content| && n > 0
    ensures !found ==> ScanOn(content, lc, lq, done, from, n) == done
    ensures found ==> ScanOn(content, lc, lq, done, from, n) == ScanOn(content, lc, lq, done + [h], next, n - 1)
  {
    var pos := Find(lc, lq, from);
    if pos == -1 {
      return false, Highlight(from, from, []), from;
    }
    ScanOnStep(content, lc, lq, done, from, n, pos);
    return true, Highlight(pos, pos + |lq|, content[pos..pos + |lq|]), pos + |lq|;
  }

  /** The scan written the way the loop runs it: `done` holds the highlights found so far. */
  function ScanOn(content: string, lc: string, lq: string, done: seq<Highlight>, from: nat, n: nat): seq<Highlight>
    requires |lc| == |content|
    decreases n
  {
    if n == 0 then done
    else
      var pos := Find(lc, lq, from);
      if pos == -1 then done
      else ScanOn(content, lc, lq, done + [Highlight(pos, pos + |lq|, content[pos..pos + |lq|])], pos + |lq|, n - 1)
  }

  /** One round of the loop that finds an occurrence at `pos`. */
  lemma ScanOnStep(content: string, lc: string, lq: string, done: seq<Highlight>, from: nat, n: nat, pos: nat)
    requires |lc| == |content| && n > 0 && Find(lc, lq, from) == pos
    ensures pos + |lq| <= |content|
    ensures ScanOn(content, lc, lq, done, from, n)
      == ScanOn(content, lc, lq, done + [Highlight(pos, pos + |lq|, content[pos..pos + |lq|])], pos + |lq|, n - 1)
  {
  }

  /** Running the loop from `done` appends the rest of the scan to `done`. */
  lemma {:induction false} ScanOnScan(content: string, lc: string, lq: string, done: seq<Highlight>, from: nat, n: nat)
    requires |lc| == |content|
    ensures ScanOn(content, lc, lq, done, from, n) == done + Scan(content, lc, lq, from, n)
    decreases n
  {
    if n > 0 {
      var pos := Find(lc, lq, from);
      if pos != -1 {
        var h := Highlight(pos, pos + |lq|, content[pos..pos + |lq|]);
        ScanOnScan(content, lc, lq, done + [h], pos + |lq|, n - 1);
        AppendAssoc(done, [h], Scan(content, lc, lq, pos + |lq|, n - 1));
      }
    }
  }

  lemma AppendAssoc<T>(a: seq<T>, b: seq<T>, c: seq<T>)
    ensures a + (b + c) == (a + b) + c
  {
  }

  /** An occurrence of `lq` in `lc` at `h.start`, recorded with the original text there. */
  predicate IsMatchIn(content: string, lc: string, lq: string, h: Highlight)
    requires |lc| == |content|
  {
    && OccursAt(lc, lq, h.start)
    && h.end == h.start + |lq|
    && h.text == content[h.start..h.end]
  }

  /** Where the scan for the `k`-th highlight starts: `from`, then the end of the previous one. */
  function ScanFrom(hs: seq<Highlight>, from: nat, k: nat): nat
    requires k <= |hs|
  {
    if k == 0 then from else hs[k - 1].end
  }

  /** Every highlight is an occurrence, found at or after where its scan began. */
  predicate AllMatches(content: string, lc: string, lq: string, hs: seq<Highlight>, from: nat)
    requires |lc| == |content|
  {
    forall k :: 0 <= k < |hs| ==> IsMatchIn(content, lc, lq, hs[k]) && ScanFrom(hs, from, k) <= hs[k].start
  }

  /** No occurrence lies between where a scan began and the highlight it found. */
  ghost predicate NoneSkipped(lc: string, lq: string, hs: seq<Highlight>, from: nat) {
    forall k: nat, i: nat :: k < |hs| && ScanFrom(hs, from, k) <= i < hs[k].start ==> !OccursAt(lc, lq, i)
  }

  /** No occurrence lies after the end of the last highlight. */
  ghost predicate NoneAfter(lc: string, lq: string, hs: seq<Highlight>, from: nat) {
    forall i: nat :: ScanFrom(hs, from, |hs|) <= i ==> !OccursAt(lc, lq, i)
  }

  lemma {:induction false} ScanMatches(content: string, lc: string, lq: string, from: nat, n: nat)
    requires |lc| == |content|
    ensures AllMatches(content, lc, lq, Scan(content, lc, lq, from, n), from)
    decreases n
  {
    var hs := Scan(content, lc, lq, from, n);
    if n > 0 {
      var pos := Find(lc, lq, from);
      if pos != -1 {
        var rest := Scan(content, lc, lq, pos + |lq|, n - 1);
        ScanMatches(content, lc, lq, pos + |lq|, n - 1);
        assert hs == [Highlight(pos, pos + |lq|, content[pos..pos + |lq|])] + rest;
        forall k | 0 <= k < |hs|
          ensures IsMatchIn(content, lc, lq, hs[k]) && ScanFrom(hs, from, k) <= hs[k].start
        {
          if k > 0 {
            assert hs[k] == rest[k - 1];
            assert ScanFrom(hs, from, k) == ScanFrom(rest, pos + |lq|, k - 1);
          } else {
            assert hs[0].start == pos && ScanFrom(hs, from, 0) == from;
          }
        }
      }
    }
  }

  lemma {:induction false} ScanLeftmost(content: string, lc: string, lq: string, from: nat, n: nat)
    requires |lc| == |content|
    ensures NoneSkipped(lc, lq, Scan(content, lc, lq, from, n), from)
    decreases n
  {
    var hs := Scan(content, lc, lq, from, n);
    if n > 0 {
      var pos := Find(lc, lq, from);
      FindLeast(lc, lq, from);
      if pos != -1 {
        var rest := Scan(content, lc, lq, pos + |lq|, n - 1);
        ScanLeftmost(content, lc, lq, pos + |lq|, n - 1);
        assert hs == [Highlight(pos, pos + |lq|, content[pos..pos + |lq|])] + rest;
        forall k: nat, i: nat | k < |hs| && ScanFrom(hs, from, k) <= i < hs[k].start
          ensures !OccursAt(lc, lq, i)
        {
          if k > 0 {
            assert hs[k] == rest[k - 1];
            assert ScanFrom(hs, from, k) == ScanFrom(rest, pos + |lq|, k - 1);
          } else {
            assert hs[0].start == pos && ScanFrom(hs, from, 0) == from;
          }
        }
      }
    }
  }

  /** When the scan stops early, no occurrence lies after the last highlight. */
  lemma {:induction false} ScanExhaustive(content: string, lc: string, lq: string, from: nat, n: nat)
    requires |lc| == |content|
    ensures |Scan(content, lc, lq, from, n)| < n ==> NoneAfter(lc, lq, Scan(content, lc, lq, from, n), from)
    decreases n
  {
    var hs := Scan(content, lc, lq, from, n);
    if n > 0 {
      var pos := Find(lc, lq, from);
      FindLeast(lc, lq, from);
      if pos != -1 {
        var rest := Scan(content, lc, lq, pos + |lq|, n - 1);
        ScanExhaustive(content, lc, lq, pos + |lq|, n - 1);
        assert hs == [Highlight(pos, pos + |lq|, content[pos..pos + |lq|])] + rest;
        assert ScanFrom(hs, from, |hs|) == ScanFrom(rest, pos + |lq|, |rest|);
      }
    }
  }

  /**
   * The highlights are the leftmost non-overlapping case-insensitive
   * occurrences of the query, at most `n` of them, each recorded with
   * `end = start + len(query)` and the content's own text there: none is
   * skipped before or between them, and when fewer than `n` are found none
   * lies after the last.
   */
  lemma HighlightsGreedy(content: string, query: string, n: nat)
    ensures var hs := Highlights(content, query, n);
      && |hs| <= n
      && (forall k :: 0 <= k < |hs| ==>
            && OccursAt(Lower(content), Lower(query), hs[k].start)
            && hs[k].end == hs[k].start + |query|
            && hs[k].text == content[hs[k].start..hs[k].end])
      && (forall k :: 0 <= k < |hs| - 1 ==> hs[k].end <= hs[k + 1].start)
      && (forall k: nat, i: nat :: k < |hs| && ScanFrom(hs, 0, k) <= i < hs[k].start ==>
            !OccursAt(Lower(content), Lower(query), i))
      && (|hs| < n ==> forall i: nat :: ScanFrom(hs, 0, |hs|) <= i ==> !OccursAt(Lower(content), Lower(query), i))
  {
    var hs := Highlights(content, query, n);
    ScanMatches(content, Lower(content), Lower(query), 0, n);
    ScanLeftmost(content, Lower(content), Lower(query), 0, n);
    ScanExhaustive(content, Lower(content), Lower(query), 0, n);
    forall k | 0 <= k < |hs| - 1
      ensures hs[k].end <= hs[k + 1].start
    {
      assert ScanFrom(hs, 0, k + 1) == hs[k].end;
    }
  }

  /** A non-empty query gives highlights whose starts are at least `len(query)` apart. */
  lemma HighlightsIncrease(content: string, query: string, n: nat)
    requires query != []
    ensures var hs := Highlights(content, query, n);
      forall k :: 0 <= k < |hs| - 1 ==> hs[k].start + |query| <= hs[k + 1].start
  {
    HighlightsGreedy(content, query, n);
  }

  /** An empty query is found at the same place every round: `max_highlights` empty entries at 0. */
  lemma {:induction false} EmptyQueryScan(content: string, from: nat, n: nat)
    requires from <= |content|
    ensures Scan(content, Lower(content), "", from, n) == seq(n, _ => Highlight(from, from, ""))
    decreases n
  {
    if n > 0 {
      EmptyQueryScan(content, from, n - 1);
      assert Find(Lower(content), "", from) == from by {
        assert Lower(content)[from..from] == "";
      }
      assert content[from..from] == "";
      var hs := Scan(content, Lower(content), "", from, n);
      assert hs == [Highlight(from, from, "")] + Scan(content, Lower(content), "", from, n - 1);
    }
  }

  lemma EmptyQueryHighlights(content: string, n: nat)
    ensures Highlights(content, "", n) == seq(n, _ => Highlight(0, 0, ""))
  {
    assert Lower("") == "";
    EmptyQueryScan(content, 0, n);
  }
}
