/**
 * The few pieces of Python `str` behaviour that the indexer and the search
 * engine rely on: whitespace, `strip`, `split`, `join`, `lower`, `in`,
 * `find` and prefix slicing `s[:n]`.
 *
 * Lower-casing and `isalnum` are modelled on ASCII only (see README).
 */
module PyStr {

  /** `c.isspace()`: the characters Python treats as whitespace. */
  predicate IsSpace(c: char) {
    || c == ' '
    || '\t' <= c <= '\r'
    || '\U{1C}' <= c <= '\U{1F}'
    || c == '\U{85}'
    || c == '\U{A0}'
    || c == '\U{1680}'
    || '\U{2000}' <= c <= '\U{200A}'
    || c == '\U{2028}'
    || c == '\U{2029}'
    || c == '\U{202F}'
    || c == '\U{205F}'
    || c == '\U{3000}'
  }

  /** `not s.strip()`: the string is empty or made of whitespace only. */
  predicate IsBlank(s: string) {
    forall i :: 0 <= i < |s| ==> IsSpace(s[i])
  }

  /** `c.isalnum()`, restricted to ASCII letters and digits. */
  predicate IsAlnum(c: char) {
    'a' <= c <= 'z' || 'A' <= c <= 'Z' || '0' <= c <= '9'
  }

  function LowerChar(c: char): char {
    if 'A' <= c <= 'Z' then (c as int + 32) as char else c
  }

  /** `s.lower()`, on ASCII letters. */
  function Lower(s: string): string {
    seq(|s|, i requires 0 <= i < |s| => LowerChar(s[i]))
  }

  lemma {:induction false} LowerAppend(a: string, b: string)
    ensures Lower(a + b) == Lower(a) + Lower(b)
  {
    assert forall i :: 0 <= i < |a + b| ==> Lower(a + b)[i] == (Lower(a) + Lower(b))[i];
  }

  lemma LowerSlice(s: string, i: nat, j: nat)
    requires i <= j <= |s|
    ensures Lower(s[i..j]) == Lower(s)[i..j]
  {
  }

  // ---------------------------------------------------------------------
  // strip

  /** `s.lstrip(chars)` where `drop` says which characters are stripped. */
  function LStripWhere(s: string, drop: char -> bool): (r: string)
    ensures |r| <= |s| && r == s[|s| - |r|..]
    ensures r != [] ==> !drop(r[0])
    ensures forall i :: 0 <= i < |s| - |r| ==> drop(s[i])
  {
    if s != [] && drop(s[0]) then LStripWhere(s[1..], drop) else s
  }

  /** `s.rstrip(chars)` where `drop` says which characters are stripped. */
  function RStripWhere(s: string, drop: char -> bool): (r: string)
    ensures |r| <= |s| && r == s[..|r|]
    ensures r != [] ==> !drop(r[|r| - 1])
    ensures forall i :: |r| <= i < |s| ==> drop(s[i])
  {
    if s != [] && drop(s[|s| - 1]) then RStripWhere(s[..|s| - 1], drop) else s
  }

  /**
   * `s.strip(chars)`: the slice of `s` left when every leading and trailing
   * character that `drop` accepts is removed.
   */
  function StripWhere(s: string, drop: char -> bool): (r: string)
    ensures |r| <= |s|
    ensures r != [] ==> !drop(r[0]) && !drop(r[|r| - 1])
    ensures r == [] <==> forall i :: 0 <= i < |s| ==> drop(s[i])
  {
    RStripWhere(LStripWhere(s, drop), drop)
  }

  /** `s.strip()`. */
  function Strip(s: string): string {
    StripWhere(s, IsSpace)
  }

  /** `not query or not query.strip()` holds exactly of blank strings. */
  lemma StripEmptyIffBlank(s: string)
    ensures Strip(s) == "" <==> IsBlank(s)
  {
  }

  // ---------------------------------------------------------------------
  // split / join

  /** A member of the list `s.split()` returns: non-empty, no whitespace. */
  predicate IsWord(w: string) {
    w != [] && forall i :: 0 <= i < |w| ==> !IsSpace(w[i])
  }

  /** Length of the run of non-whitespace characters that starts `s`. */
  function WordLen(s: string): (n: nat)
    ensures n <= |s|
    ensures forall i :: 0 <= i < n ==> !IsSpace(s[i])
    ensures n < |s| ==> IsSpace(s[n])
  {
    if s == [] || IsSpace(s[0]) then 0 else 1 + WordLen(s[1..])
  }

  /** `s.split()`: the maximal runs of non-whitespace characters, in order. */
  function Words(s: string): (ws: seq<string>)
    ensures forall k :: 0 <= k < |ws| ==> IsWord(ws[k])
    decreases |s|
  {
    if s == [] then []
    else if IsSpace(s[0]) then Words(s[1..])
    else
      var n := WordLen(s);
      [s[..n]] + Words(s[n..])
  }

  /** `sep.join(ws)`. */
  function Join(ws: seq<string>, sep: string): string {
    if ws == [] then ""
    else if |ws| == 1 then ws[0]
    else ws[0] + sep + Join(ws[1..], sep)
  }

  lemma {:induction false} WordLenOfWord(w: string, t: string)
    requires IsWord(w)
    requires t == [] || IsSpace(t[0])
    ensures WordLen(w + t) == |w|
  {
    if |w| > 1 {
      assert (w + t)[1..] == w[1..] + t;
      WordLenOfWord(w[1..], t);
    } else {
      assert (w + t)[1..] == t;
    }
  }

  lemma WordsOfWordThen(w: string, t: string)
    requires IsWord(w)
    requires t == [] || IsSpace(t[0])
    ensures Words(w + t) == [w] + Words(t)
  {
    WordLenOfWord(w, t);
    assert (w + t)[..|w|] == w;
    assert (w + t)[|w|..] == t;
  }

  /**
   * Splitting a single-space join of words gives the words back: `split`
   * undoes `' '.join` on lists whose members are words.
   */
  lemma {:induction false} WordsOfJoin(ws: seq<string>)
    requires forall k :: 0 <= k < |ws| ==> IsWord(ws[k])
    ensures Words(Join(ws, " ")) == ws
  {
    if ws == [] {
    } else if |ws| == 1 {
      WordsOfWordThen(ws[0], "");
      assert ws[0] + "" == ws[0];
    } else {
      var rest := Join(ws[1..], " ");
      WordsOfJoin(ws[1..]);
      assert Join(ws, " ") == ws[0] + (" " + rest);
      WordsOfWordThen(ws[0], " " + rest);
      assert (" " + rest)[1..] == rest;
    }
  }

  /** `len(s.split())` is at most half the length of `s`, rounded up. */
  lemma {:induction false} WordCountBound(s: string)
    ensures 2 * |Words(s)| <= |s| + 1
    decreases |s|
  {
    if s == [] {
    } else if IsSpace(s[0]) {
      WordCountBound(s[1..]);
    } else {
      var n := WordLen(s);
      var t := s[n..];
      if t != [] {
        assert IsSpace(t[0]);
        assert Words(t) == Words(t[1..]);
        WordCountBound(t[1..]);
      }
    }
  }

  /** A string that holds no whitespace splits into nothing or into itself. */
  lemma {:induction false} WordsOfBlank(s: string)
    requires IsBlank(s)
    ensures Words(s) == []
    decreases |s|
  {
    if s != [] {
      WordsOfBlank(s[1..]);
    }
  }

  /** `s.split()` is empty exactly when `s` is blank. */
  lemma {:induction false} WordsEmptyIffBlank(s: string)
    ensures Words(s) == [] <==> IsBlank(s)
    decreases |s|
  {
    if IsBlank(s) {
      WordsOfBlank(s);
    } else if s != [] && IsSpace(s[0]) {
      WordsEmptyIffBlank(s[1..]);
      assert !IsBlank(s[1..]) by {
        var i :| 0 <= i < |s| && !IsSpace(s[i]);
        assert s[1..][i - 1] == s[i];
      }
    }
  }

  // ---------------------------------------------------------------------
  // substring search

  /** `m in s`. */
  predicate Contains(s: string, m: string)
    decreases |s|
  {
    m <= s || (s != [] && Contains(s[1..], m))
  }

  /** `m` occurs in `s` starting at index `i`. */
  predicate OccursAt(s: string, m: string, i: nat) {
    i + |m| <= |s| && s[i..i + |m|] == m
  }

  /** `m in s` holds exactly when `m` occurs at some index of `s`. */
  lemma ContainsIffOccurs(s: string, m: string)
    ensures Contains(s, m) <==> exists i: nat :: OccursAt(s, m, i)
  {
    if Contains(s, m) {
      ContainsOccurs(s, m);
    }
    if exists i: nat :: OccursAt(s, m, i) {
      var i: nat :| OccursAt(s, m, i);
      OccursContains(s, m, i);
    }
  }

  lemma {:induction false} ContainsOccurs(s: string, m: string)
    requires Contains(s, m)
    ensures exists i: nat :: OccursAt(s, m, i)
    decreases |s|
  {
    if m <= s {
      assert OccursAt(s, m, 0);
    } else {
      ContainsOccurs(s[1..], m);
      var i: nat :| OccursAt(s[1..], m, i);
      assert s[i + 1..i + 1 + |m|] == s[1..][i..i + |m|];
      assert OccursAt(s, m, i + 1);
    }
  }

  lemma {:induction false} OccursContains(s: string, m: string, i: nat)
    requires OccursAt(s, m, i)
    ensures Contains(s, m)
    decreases i
  {
    if i == 0 {
      assert s[..|m|] == m;
    } else {
      assert s[1..][i - 1..i - 1 + |m|] == s[i..i + |m|];
      OccursContains(s[1..], m, i - 1);
    }
  }

  /** A non-empty needle can only occur in a string that holds its first character. */
  lemma {:induction false} ContainsFirstChar(s: string, m: string)
    requires m != []
    requires Contains(s, m)
    ensures m[0] in s
    decreases |s|
  {
    if !(m <= s) {
      ContainsFirstChar(s[1..], m);
    }
  }

  /** The needle's character at index `k` occurs in `s` at index `k` or later. */
  lemma {:induction false} ContainsCharAt(s: string, m: string, k: nat)
    requires k < |m|
    requires Contains(s, m)
    ensures exists j :: k <= j < |s| && s[j] == m[k]
    decreases |s|
  {
    if m <= s {
      assert s[k] == m[k];
    } else {
      ContainsCharAt(s[1..], m, k);
      var j :| k <= j < |s[1..]| && s[1..][j] == m[k];
      assert s[j + 1] == m[k];
    }
  }

  /**
   * `s.find(q, start)` for `start >= 0`: the least index `i >= start` where
   * `q` occurs, or `-1`.  Like Python, a start past the end finds nothing,
   * even for the empty needle.
   */
  function Find(s: string, q: string, start: nat): (r: int)
    ensures r == -1 || (start <= r && OccursAt(s, q, r))
    decreases |s| - start
  {
    if start + |q| > |s| then -1
    else if s[start..start + |q|] == q then start
    else Find(s, q, start + 1)
  }

  /** No occurrence lies between `start` and what `find` returns; none at all when it returns `-1`. */
  lemma {:induction false} FindLeast(s: string, q: string, start: nat)
    ensures forall i: nat :: start <= i && (Find(s, q, start) == -1 || i < Find(s, q, start)) ==> !OccursAt(s, q, i)
    decreases |s| - start
  {
    if start + |q| <= |s| && s[start..start + |q|] != q {
      FindLeast(s, q, start + 1);
    }
  }

  // ---------------------------------------------------------------------
  // slicing

  /** The length Python's `s[:n]` keeps of a sequence of length `len`. */
  function PrefixLen(len: nat, n: int): (k: nat)
    ensures k <= len
  {
    if n >= 0 then (if n <= len then n else len)
    else if len + n >= 0 then len + n else 0
  }

  /** `s[:n]`, negative `n` counting from the end. */
  function PrefixSlice<T>(s: seq<T>, n: int): (r: seq<T>)
    ensures r <= s
  {
    s[..PrefixLen(|s|, n)]
  }
}
