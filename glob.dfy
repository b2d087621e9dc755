/**
 * `fnmatch.fnmatch` for the wildcards the exclusion patterns document:
 * `*` matches any run of characters (separators included), `?` any one
 * character, and every other character only itself.  The whole string
 * must match.
 */
module Glob {

  function Match(s: string, p: string): bool
    decreases |s| + |p|
  {
    if p == [] then s == []
    else if p[0] == '*' then Match(s, p[1..]) || (s != [] && Match(s[1..], p))
    else if p[0] == '?' then s != [] && Match(s[1..], p[1..])
    else s != [] && s[0] == p[0] && Match(s[1..], p[1..])
  }

  /** A pattern without wildcards. */
  predicate IsLiteral(p: string) {
    forall i :: 0 <= i < |p| ==> p[i] != '*' && p[i] != '?'
  }

  /** A pattern without wildcards matches exactly itself. */
  lemma {:induction false} MatchLiteral(s: string, p: string)
    requires IsLiteral(p)
    ensures Match(s, p) <==> s == p
    decreases |p|
  {
    if p != [] && s != [] {
      MatchLiteral(s[1..], p[1..]);
      if s[0] == p[0] && s[1..] == p[1..] {
        assert s == [s[0]] + s[1..] && p == [p[0]] + p[1..];
      }
    }
  }

  /** A leading `*` matches exactly when the rest of the pattern matches some suffix. */
  lemma {:induction false} MatchLeadingStar(s: string, q: string)
    ensures Match(s, "*" + q) <==> exists k :: 0 <= k <= |s| && Match(s[k..], q)
    decreases |s|
  {
    var p := "*" + q;
    assert p[1..] == q;
    if s == [] {
      assert Match(s, p) == Match(s, q);
      assert s[0..] == s;
      if exists k :: 0 <= k <= |s| && Match(s[k..], q) {
        var k :| 0 <= k <= |s| && Match(s[k..], q);
        assert s[k..] == s;
      }
    } else {
      MatchLeadingStar(s[1..], q);
      if Match(s, q) {
        assert s[0..] == s;
      }
      if Match(s[1..], p) {
        var k :| 0 <= k <= |s[1..]| && Match(s[1..][k..], q);
        assert s[1..][k..] == s[k + 1..];
      }
      if exists k :: 0 <= k <= |s| && Match(s[k..], q) {
        var k :| 0 <= k <= |s| && Match(s[k..], q);
        if k > 0 {
          assert s[1..][k - 1..] == s[k..];
        } else {
          assert s[k..] == s;
        }
      }
    }
  }

  /** `*` alone matches every path. */
  lemma StarMatchesAll(s: string)
    ensures Match(s, "*")
  {
    MatchLeadingStar(s, "");
    assert Match(s[|s|..], "");
  }
}
