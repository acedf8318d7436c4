/**
 * Case-insensitive substring search, as the filter's
 * `contains(query, ignoreCase = true)` performs it: the query is tried at
 * every start index of the text in turn, and a start index matches when
 * each query character equals the text character at the same offset,
 * ignoring case.  Characters are compared one at a time; there is no
 * whole-string case mapping.  The case mapping itself is ASCII-only.
 */
module TextMatch {

  /** ASCII upper-case mapping of one character. */
  function UpperChar(c: char): char
  {
    if 'a' <= c <= 'z' then (c as int - 32) as char else c
  }

  /** ASCII lower-case mapping of one character. */
  function LowerChar(c: char): char
  {
    if 'A' <= c <= 'Z' then (c as int + 32) as char else c
  }

  /** The canonical representative of a character's case class. */
  function Fold(c: char): char
  {
    LowerChar(UpperChar(c))
  }

  /** Equality of two characters ignoring case: identical, or equal once both
      are upper-cased, or equal once both upper-cased forms are lower-cased. */
  predicate CharEqualsIgnoreCase(a: char, b: char)
    ensures a == b ==> CharEqualsIgnoreCase(a, b)
    ensures !('a' <= a <= 'z' || 'A' <= a <= 'Z') ==> (CharEqualsIgnoreCase(a, b) <==> a == b)
  {
    a == b || UpperChar(a) == UpperChar(b) || LowerChar(UpperChar(a)) == LowerChar(UpperChar(b))
  }

  /** Two characters are equal ignoring case exactly when they fold to the
      same character, so the relation is an equivalence. */
  lemma CharEqualsIgnoreCaseIsFoldEquality(a: char, b: char)
    ensures CharEqualsIgnoreCase(a, b) <==> Fold(a) == Fold(b)
    ensures CharEqualsIgnoreCase(a, b) <==> CharEqualsIgnoreCase(b, a)
  {
  }

  /** Equality ignoring case is transitive. */
  lemma CharEqualsIgnoreCaseTransitive(a: char, b: char, c: char)
    requires CharEqualsIgnoreCase(a, b) && CharEqualsIgnoreCase(b, c)
    ensures CharEqualsIgnoreCase(a, c)
  {
  }

  /** Upper- and lower-case ASCII letters are equal ignoring case, and no
      letter is equal ignoring case to a different letter of the alphabet. */
  lemma LetterCases(c: char)
    requires 'a' <= c <= 'z'
    ensures CharEqualsIgnoreCase(c, UpperChar(c)) && UpperChar(c) != c
    ensures forall d :: 'a' <= d <= 'z' && d != c ==> !CharEqualsIgnoreCase(c, d)
    ensures forall d :: 'A' <= d <= 'Z' && d != UpperChar(c) ==> !CharEqualsIgnoreCase(c, d)
  {
  }

  /** Equality of two strings ignoring case, character by character. */
  predicate EqualsIgnoreCase(s: string, t: string)
  {
    |s| == |t| && forall k :: 0 <= k < |s| ==> CharEqualsIgnoreCase(s[k], t[k])
  }

  /** The query occurs in `text` at `offset`, ignoring case.  An offset for
      which the query would run outside the text does not match. */
  predicate RegionMatchesIgnoreCase(text: string, offset: int, query: string)
    ensures RegionMatchesIgnoreCase(text, offset, query) ==> 0 <= offset <= |text| - |query|
    ensures query == [] ==> (RegionMatchesIgnoreCase(text, offset, query) <==> 0 <= offset <= |text|)
  {
    && 0 <= offset
    && offset + |query| <= |text|
    && forall k :: 0 <= k < |query| ==> CharEqualsIgnoreCase(text[offset + k], query[k])
  }

  /** The first index at or after `from` where the query occurs in `text`,
      ignoring case, or -1 if there is none.  Every index up to and including
      |text| is tried. */
  function IndexOfIgnoreCase(text: string, query: string, from: nat): (r: int)
    requires from <= |text| + 1
    decreases |text| + 1 - from
    ensures r == -1 || (from <= r && RegionMatchesIgnoreCase(text, r, query))
  {
    if from > |text| then -1
    else if RegionMatchesIgnoreCase(text, from, query) then from
    else IndexOfIgnoreCase(text, query, from + 1)
  }

  /** The search misses no occurrence: it answers -1 only when no index from
      `from` on matches, and otherwise the index it answers is the first. */
  lemma {:induction false} IndexOfFindsFirst(text: string, query: string, from: nat)
    requires from <= |text| + 1
    decreases |text| + 1 - from
    ensures var r := IndexOfIgnoreCase(text, query, from);
            && (r == -1 <==> forall i :: from <= i <= |text| ==> !RegionMatchesIgnoreCase(text, i, query))
            && (r != -1 ==> forall i :: from <= i < r ==> !RegionMatchesIgnoreCase(text, i, query))
  {
    if from <= |text| && !RegionMatchesIgnoreCase(text, from, query) {
      IndexOfFindsFirst(text, query, from + 1);
    }
  }

  /** A match at any index is found by the search. */
  lemma MatchIsFound(text: string, query: string, offset: int)
    requires RegionMatchesIgnoreCase(text, offset, query)
    ensures ContainsIgnoreCase(text, query)
    ensures 0 <= IndexOfIgnoreCase(text, query, 0) <= offset
  {
    IndexOfFindsFirst(text, query, 0);
  }

  /** The text contains the query, ignoring case. */
  predicate ContainsIgnoreCase(text: string, query: string)
    ensures query == [] ==> ContainsIgnoreCase(text, query)
    ensures ContainsIgnoreCase(text, query) ==> |query| <= |text|
  {
    IndexOfIgnoreCase(text, query, 0) >= 0
  }

  /** The slice of the text starting at `i`, as long as the query, equals
      the query ignoring case. */
  ghost predicate SliceEqualsIgnoreCase(text: string, i: int, query: string)
  {
    0 <= i <= |text| - |query| && EqualsIgnoreCase(text[i..i + |query|], query)
  }

  /** A reference definition: some slice of the text equals the query
      ignoring case. */
  ghost predicate OccursIgnoreCase(text: string, query: string)
  {
    exists i :: SliceEqualsIgnoreCase(text, i, query)
  }

  /** The search finds the query exactly when some slice of the text equals
      it ignoring case. */
  lemma ContainsIffOccurs(text: string, query: string)
    ensures ContainsIgnoreCase(text, query) <==> OccursIgnoreCase(text, query)
  {
    if ContainsIgnoreCase(text, query) {
      var i := IndexOfIgnoreCase(text, query, 0);
      assert SliceEqualsIgnoreCase(text, i, query);
    }
    if OccursIgnoreCase(text, query) {
      var i :| SliceEqualsIgnoreCase(text, i, query);
      assert RegionMatchesIgnoreCase(text, i, query) by {
        forall k | 0 <= k < |query|
          ensures CharEqualsIgnoreCase(text[i + k], query[k])
        {
          assert text[i..i + |query|][k] == text[i + k];
        }
      }
      MatchIsFound(text, query, i);
    }
  }

  /** Every text, the empty one included, contains the empty query. */
  lemma ContainsEmptyQuery(text: string)
    ensures ContainsIgnoreCase(text, "")
  {
  }

  /** A query found in the text is no longer than the text. */
  lemma ContainedQueryFits(text: string, query: string)
    requires ContainsIgnoreCase(text, query)
    ensures |query| <= |text|
  {
  }

  /** Every text contains itself and every case variant of itself. */
  lemma ContainsCaseVariant(text: string, query: string)
    requires EqualsIgnoreCase(text, query)
    ensures ContainsIgnoreCase(text, query)
  {
  }

  /** The query occurs inside any text built around it. */
  lemma ContainsInfix(before: string, query: string, after: string)
    ensures ContainsIgnoreCase(before + query + after, query)
  {
    var text := before + query + after;
    forall k | 0 <= k < |query|
      ensures CharEqualsIgnoreCase(text[|before| + k], query[k])
    {
      assert text[|before| + k] == query[k];
    }
    MatchIsFound(text, query, |before|);
  }

  /** A text none of whose characters equals the query's first character
      ignoring case does not contain the query. */
  lemma FirstCharAbsentNotContained(text: string, query: string)
    requires |query| > 0
    requires forall i :: 0 <= i < |text| ==> Fold(text[i]) != Fold(query[0])
    ensures !ContainsIgnoreCase(text, query)
  {
  }

  /** Replacing the query by one equal to it ignoring case leaves the
      region match unchanged at every offset. */
  lemma RegionMatchRespectsQueryCase(text: string, offset: int, q1: string, q2: string)
    requires EqualsIgnoreCase(q1, q2)
    ensures RegionMatchesIgnoreCase(text, offset, q1) <==> RegionMatchesIgnoreCase(text, offset, q2)
  {
  }

  /** Replacing the query by one equal to it ignoring case ("RUN" for
      "run") does not change whether the text contains it. */
  lemma ContainsRespectsQueryCase(text: string, q1: string, q2: string)
    requires EqualsIgnoreCase(q1, q2)
    ensures ContainsIgnoreCase(text, q1) <==> ContainsIgnoreCase(text, q2)
  {
    if ContainsIgnoreCase(text, q1) {
      var i := IndexOfIgnoreCase(text, q1, 0);
      RegionMatchRespectsQueryCase(text, i, q1, q2);
      MatchIsFound(text, q2, i);
    }
    if ContainsIgnoreCase(text, q2) {
      var i := IndexOfIgnoreCase(text, q2, 0);
      RegionMatchRespectsQueryCase(text, i, q1, q2);
      MatchIsFound(text, q1, i);
    }
  }
}
