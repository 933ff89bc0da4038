/** The two string tests the registry uses: Kotlin's `isBlank()` and
    `contains(query, ignoreCase = true)`. Case folding covers ASCII letters. */
module Text {

  /** Kotlin's `Char.isWhitespace` on the JVM: `Character.isWhitespace` or
      `Character.isSpaceChar`, i.e. the ASCII controls TAB..CR and FS..US and
      the Unicode space, line and paragraph separators. */
  predicate IsWhitespace(c: char)
  {
    || '\t' <= c <= '\r'
    || '\U{1C}' <= c <= ' '
    || c == '\U{A0}' || c == '\U{1680}'
    || '\U{2000}' <= c <= '\U{200A}'
    || c == '\U{2028}' || c == '\U{2029}' || c == '\U{202F}' || c == '\U{205F}'
    || c == '\U{3000}'
  }

  /** `isBlank()`: a scan that stops at the first non-whitespace character;
      the string is blank exactly when it is empty or whitespace only. */
  function IsBlank(s: string): (b: bool)
    ensures b <==> forall i | 0 <= i < |s| :: IsWhitespace(s[i])
  {
    if |s| == 0 then true
    else if !IsWhitespace(s[0]) then false
    else
      assert forall i | 1 <= i < |s| :: s[i] == s[1..][i - 1];
      IsBlank(s[1..])
  }

  /** Lower-case mapping of an ASCII upper-case letter; other characters are kept. */
  function ToLower(c: char): (d: char)
    ensures 'A' <= c <= 'Z' ==> 'a' <= d <= 'z' && d as int - c as int == 32
    ensures !('A' <= c <= 'Z') ==> d == c
  {
    if 'A' <= c <= 'Z' then (c as int + 32) as char else c
  }

  /** The string with every character passed through `ToLower`. */
  function LowerAll(s: string): (r: string)
    ensures |r| == |s|
    ensures forall i :: 0 <= i < |s| ==> r[i] == ToLower(s[i])
  {
    seq(|s|, i requires 0 <= i < |s| => ToLower(s[i]))
  }

  /** `Char.equals(other, ignoreCase = true)`. */
  predicate EqualsIgnoreCase(a: char, b: char)
  {
    ToLower(a) == ToLower(b)
  }

  /** `query` occurs in `text` at `offset`, ignoring case (`regionMatches`). */
  predicate RegionMatches(text: string, offset: int, query: string)
  {
    && 0 <= offset
    && offset + |query| <= |text|
    && forall k | 0 <= k < |query| :: EqualsIgnoreCase(text[offset + k], query[k])
  }

  /** `indexOf(query, from, ignoreCase = true)`: the first offset at or after
      `from` where `query` occurs ignoring case, or -1 when there is none. */
  function IndexOfIgnoreCase(text: string, query: string, from: nat): (r: int)
    ensures r == -1 || (from <= r && RegionMatches(text, r, query))
    ensures r == -1 ==> forall i | from <= i :: !RegionMatches(text, i, query)
    ensures r != -1 ==> forall i | from <= i < r :: !RegionMatches(text, i, query)
    decreases |text| - from
  {
    if from + |query| > |text| then -1
    else if RegionMatches(text, from, query) then from
    else IndexOfIgnoreCase(text, query, from + 1)
  }

  /** `contains(query, ignoreCase = true)`: never true for a query longer
      than the text, always true for the empty query. */
  predicate ContainsIgnoreCase(text: string, query: string)
    ensures ContainsIgnoreCase(text, query) ==> |query| <= |text|
    ensures |query| == 0 ==> ContainsIgnoreCase(text, query)
  {
    assert |query| == 0 ==> RegionMatches(text, 0, query);
    IndexOfIgnoreCase(text, query, 0) >= 0
  }

  /** `ContainsIgnoreCase` holds exactly when some offset matches. */
  lemma ContainsIffSomeOffset(text: string, query: string)
    ensures ContainsIgnoreCase(text, query) <==> exists i :: RegionMatches(text, i, query)
  {
  }

  /** The empty query occurs in every string. */
  lemma EmptyQueryIsContained(text: string)
    ensures ContainsIgnoreCase(text, "")
  {
  }

  /** An exact occurrence is also an occurrence ignoring case. */
  lemma ExactOccurrenceIsContained(text: string, query: string, offset: nat)
    requires offset + |query| <= |text|
    requires text[offset..offset + |query|] == query
    ensures ContainsIgnoreCase(text, query)
  {
    forall k | 0 <= k < |query|
      ensures EqualsIgnoreCase(text[offset + k], query[k])
    {
      assert text[offset..offset + |query|][k] == text[offset + k];
    }
    assert RegionMatches(text, offset, query);
    ContainsIffSomeOffset(text, query);
  }

  /** Folding the case of either string does not change whether one contains the other. */
  lemma ContainsIgnoresCaseOfArguments(text: string, query: string)
    ensures ContainsIgnoreCase(text, query) <==> ContainsIgnoreCase(text, LowerAll(query))
    ensures ContainsIgnoreCase(text, query) <==> ContainsIgnoreCase(LowerAll(text), query)
  {
    ContainsIffSomeOffset(text, query);
    ContainsIffSomeOffset(text, LowerAll(query));
    ContainsIffSomeOffset(LowerAll(text), query);
    if ContainsIgnoreCase(text, query) {
      var i :| RegionMatches(text, i, query);
      RegionMatchesFolded(text, query, i);
    }
    if ContainsIgnoreCase(text, LowerAll(query)) {
      var i :| RegionMatches(text, i, LowerAll(query));
      RegionMatchesFolded(text, query, i);
    }
    if ContainsIgnoreCase(LowerAll(text), query) {
      var i :| RegionMatches(LowerAll(text), i, query);
      RegionMatchesFolded(text, query, i);
    }
  }

  /** At one offset, folding the case of either string does not change the match. */
  lemma RegionMatchesFolded(text: string, query: string, offset: int)
    ensures RegionMatches(text, offset, query) <==> RegionMatches(text, offset, LowerAll(query))
    ensures RegionMatches(text, offset, query) <==> RegionMatches(LowerAll(text), offset, query)
  {
  }
}
