/**
 * Name normalisation used by the child lookup of a file-tree node: removal of
 * path-separator characters from a query, and case-insensitive comparison.
 */
module Names {

  /** ASCII lower-casing: 'A'..'Z' map to 'a'..'z', every other character to itself. */
  function ToLower(c: char): char
  {
    if 'A' <= c <= 'Z' then (c as int + 32) as char else c
  }

  /** Case-insensitive equality of two names, character by character. */
  predicate EqualsIgnoreCase(s: string, t: string)
  {
    |s| == |t| && forall i :: 0 <= i < |s| ==> ToLower(s[i]) == ToLower(t[i])
  }

  lemma EqualsIgnoreCaseReflexive(s: string)
    ensures EqualsIgnoreCase(s, s)
  {
  }

  lemma EqualsIgnoreCaseSymmetric(s: string, t: string)
    ensures EqualsIgnoreCase(s, t) <==> EqualsIgnoreCase(t, s)
  {
  }

  lemma EqualsIgnoreCaseTransitive(s: string, t: string, u: string)
    requires EqualsIgnoreCase(s, t) && EqualsIgnoreCase(t, u)
    ensures EqualsIgnoreCase(s, u)
  {
  }

  /**
   * The query with every occurrence of the separator removed: no separator is
   * left, every other character keeps its number of occurrences, and a name
   * without separators is returned as it is.
   */
  function RemoveSeparators(s: string, sep: char): (r: string)
    ensures sep !in r
    ensures multiset(r) == multiset(s)[sep := 0]
    ensures sep !in s ==> r == s
  {
    if s == [] then []
    else
      assert s == [s[0]] + s[1..];
      if s[0] == sep then RemoveSeparators(s[1..], sep)
      else [s[0]] + RemoveSeparators(s[1..], sep)
  }

  /** A separator is dropped and any other character kept as it is. */
  lemma RemoveSeparatorsChar(c: char, sep: char)
    ensures RemoveSeparators([c], sep) == if c == sep then [] else [c]
  {
    assert [c][1..] == [];
  }

  /**
   * Stripping distributes over concatenation, so together with the
   * one-character case it keeps the remaining characters in their order.
   */
  lemma {:induction false} RemoveSeparatorsConcat(s: string, t: string, sep: char)
    ensures RemoveSeparators(s + t, sep) == RemoveSeparators(s, sep) + RemoveSeparators(t, sep)
    decreases |s|
  {
    if s == [] {
      assert s + t == t;
    } else {
      assert (s + t)[0] == s[0] && (s + t)[1..] == s[1..] + t;
      RemoveSeparatorsConcat(s[1..], t, sep);
    }
  }

  /** Stripping the separators a second time changes nothing. */
  lemma RemoveSeparatorsIdempotent(s: string, sep: char)
    ensures RemoveSeparators(RemoveSeparators(s, sep), sep) == RemoveSeparators(s, sep)
  {
  }
}
