/**
 * `parse_search_query`: a query wrapped in double quotes asks for the exact
 * phrase; any other query is split on whitespace into terms (combined with
 * AND by the full-text engine), and each term has the engine's special
 * characters `- ( ) [ ] " *` escaped with a backslash.
 */
module Query {
  import opened PyStr

  /** The result dictionary: `original`, `exact_match`, `terms`, `escaped_query`. */
  datatype ParsedQuery = ParsedQuery(original: string, exactMatch: bool, terms: seq<string>, escapedQuery: string)

  /** The characters the FTS5 query syntax gives a meaning to. */
  predicate IsSpecial(c: char) {
    c == '-' || c == '(' || c == ')' || c == '[' || c == ']' || c == '"' || c == '*'
  }

  predicate IsQuote(c: char) {
    c == '"'
  }

  /** `query.startswith('"') and query.endswith('"')`; a lone `"` qualifies. */
  predicate IsQuoted(query: string) {
    |query| >= 1 && query[0] == '"' && query[|query| - 1] == '"'
  }

  /** How many special characters `s` holds. */
  function SpecialCount(s: string): (n: nat)
    ensures n <= |s|
  {
    if s == [] then 0 else (if IsSpecial(s[0]) then 1 else 0) + SpecialCount(s[1..])
  }

  /** `re.sub(r'([-\(\)\[\]"\*])', r'\\\1', term)`: a backslash before each special character. */
  function Escape(term: string): (r: string)
    ensures |r| == |term| + SpecialCount(term)
  {
    if term == [] then []
    else (if IsSpecial(term[0]) then ['\\', term[0]] else [term[0]]) + Escape(term[1..])
  }

  /** Reads an escaped term back: a backslash followed by a special character stands for that character. */
  function Unescape(s: string): string
    decreases |s|
  {
    if s == [] then []
    else if |s| >= 2 && s[0] == '\\' && IsSpecial(s[1]) then [s[1]] + Unescape(s[2..])
    else [s[0]] + Unescape(s[1..])
  }

  /** Deleting the inserted backslashes gives the term back, whatever backslashes it held already. */
  lemma {:induction false} UnescapeEscape(term: string)
    ensures Unescape(Escape(term)) == term
    decreases |term|
  {
    if term != [] {
      UnescapeEscape(term[1..]);
      var e := Escape(term);
      if IsSpecial(term[0]) {
        assert e == ['\\', term[0]] + Escape(term[1..]);
        assert e[2..] == Escape(term[1..]);
      } else {
        assert e == [term[0]] + Escape(term[1..]);
        assert e[1..] == Escape(term[1..]);
      }
    }
  }

  /** In an escaped term every special character is preceded by a backslash. */
  lemma {:induction false} EscapeGuardsSpecials(term: string)
    ensures forall i :: 0 <= i < |Escape(term)| && IsSpecial(Escape(term)[i]) ==> i > 0 && Escape(term)[i - 1] == '\\'
    decreases |term|
  {
    if term != [] {
      EscapeGuardsSpecials(term[1..]);
      var head: string := if IsSpecial(term[0]) then ['\\', term[0]] else [term[0]];
      var e := Escape(term);
      assert e == head + Escape(term[1..]);
      forall i | 0 <= i < |e| && IsSpecial(e[i])
        ensures i > 0 && e[i - 1] == '\\'
      {
        if i >= |head| {
          assert e[i] == Escape(term[1..])[i - |head|];
          if i - |head| > 0 {
            assert e[i - 1] == Escape(term[1..])[i - 1 - |head|];
          } else {
            assert false;
          }
        }
      }
    }
  }

  /** Escaping adds only backslashes, so a word stays a word. */
  lemma {:induction false} EscapeKeepsWord(term: string)
    requires IsWord(term)
    ensures IsWord(Escape(term))
  {
    EscapeCharacters(term);
  }

  lemma {:induction false} EscapeCharacters(term: string)
    ensures forall i :: 0 <= i < |Escape(term)| ==> Escape(term)[i] == '\\' || Escape(term)[i] in term
    decreases |term|
  {
    if term != [] {
      EscapeCharacters(term[1..]);
      var head: string := if IsSpecial(term[0]) then ['\\', term[0]] else [term[0]];
      var e := Escape(term);
      assert e == head + Escape(term[1..]);
      forall i | 0 <= i < |e|
        ensures e[i] == '\\' || e[i] in term
      {
        if i >= |head| {
          assert e[i] == Escape(term[1..])[i - |head|];
          assert e[i] in term[1..] ==> e[i] in term;
        }
      }
    }
  }

  /** Every term escaped, in order. */
  function EscapeAll(terms: seq<string>): (r: seq<string>)
    ensures |r| == |terms|
    ensures forall k :: 0 <= k < |r| ==> r[k] == Escape(terms[k])
  {
    seq(|terms|, k requires 0 <= k < |terms| => Escape(terms[k]))
  }

  function UnescapeAll(ws: seq<string>): (r: seq<string>)
    ensures |r| == |ws|
    ensures forall k :: 0 <= k < |r| ==> r[k] == Unescape(ws[k])
  {
    seq(|ws|, k requires 0 <= k < |ws| => Unescape(ws[k]))
  }

  /**
   * `parse_search_query(query)`: the exact-phrase branch strips every
   * leading and trailing quote; otherwise the terms are `query.split()` and
   * the escaped query is the escaped terms joined by single spaces.
   */
  method ParseSearchQuery(query: string) returns (parsed: ParsedQuery)
    ensures parsed.original == query
    ensures parsed.exactMatch <==> IsQuoted(query)
    ensures parsed.exactMatch ==>
      var phrase := StripWhere(query, IsQuote);
      parsed.terms == [phrase] && parsed.escapedQuery == phrase
    ensures !parsed.exactMatch ==>
      parsed.terms == Words(query) && parsed.escapedQuery == Join(EscapeAll(parsed.terms), " ")
  {
    if IsQuoted(query) {
      var phrase := StripWhere(query, IsQuote);
      return ParsedQuery(query, true, [phrase], phrase);
    }
    var terms := Words(query);
    var escapedTerms: seq<string> := [];
    for i := 0 to |terms|
      invariant escapedTerms == EscapeAll(terms[..i])
    {
      escapedTerms := escapedTerms + [Escape(terms[i])];
    }
    assert terms[..|terms|] == terms;
    parsed := ParsedQuery(query, false, terms, Join(escapedTerms, " "));
  }

  /**
   * The escaped query of a plain query splits back into the escaped terms,
   * and deleting the inserted backslashes recovers the original terms.
   */
  lemma EscapedQueryRoundTrip(query: string)
    requires !IsQuoted(query)
    ensures var escaped := Join(EscapeAll(Words(query)), " ");
      && Words(escaped) == EscapeAll(Words(query))
      && UnescapeAll(Words(escaped)) == Words(query)
  {
    var terms := Words(query);
    var escaped := EscapeAll(terms);
    forall k | 0 <= k < |escaped|
      ensures IsWord(escaped[k])
    {
      EscapeKeepsWord(terms[k]);
    }
    WordsOfJoin(escaped);
    forall k | 0 <= k < |terms|
      ensures Unescape(escaped[k]) == terms[k]
    {
      UnescapeEscape(terms[k]);
    }
  }

  /** The exact phrase never starts or ends with a quote, and is empty when the query is only quotes. */
  lemma ExactPhraseShape(query: string)
    requires IsQuoted(query)
    ensures var phrase := StripWhere(query, IsQuote);
      && (phrase != [] ==> phrase[0] != '"' && phrase[|phrase| - 1] != '"')
      && (phrase == [] <==> forall i :: 0 <= i < |query| ==> query[i] == '"')
  {
  }

  /** A blank query is not quoted and gives no terms and an empty escaped query. */
  lemma BlankQueryHasNoTerms(query: string)
    requires IsBlank(query)
    ensures !IsQuoted(query)
    ensures Words(query) == [] && Join(EscapeAll(Words(query)), " ") == ""
  {
    WordsEmptyIffBlank(query);
    if |query| >= 1 {
      assert IsSpace(query[0]);
    }
  }
}
