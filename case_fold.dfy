/** Case-insensitive string comparison, as the match verifier of RollingHash
    uses it (Java's String.equalsIgnoreCase), restricted to the ASCII letters. */
module CaseFold {

  /** Lower-case an ASCII letter; every other character is its own fold. */
  function ToLower(c: char): char
  {
    if 'A' <= c <= 'Z' then (c as int + 32) as char else c
  }

  predicate SameIgnoringCase(c: char, d: char)
  {
    ToLower(c) == ToLower(d)
  }

  /** Equal length and, position by position, equal characters up to case. */
  predicate EqualsIgnoreCase(s: string, t: string)
  {
    |s| == |t| && forall k :: 0 <= k < |s| ==> SameIgnoringCase(s[k], t[k])
  }

  /** p occurs in text at offset i, up to case, compared in place. */
  predicate MatchesAt(text: string, i: int, p: string)
  {
    0 <= i && i + |p| <= |text| && forall k :: 0 <= k < |p| ==> SameIgnoringCase(text[i + k], p[k])
  }

  /** Comparing in place is comparing the substring of p's length. */
  lemma MatchesAtIff(text: string, i: int, n: int, p: string)
    requires 0 <= i && 0 <= n && i + n <= |text|
    ensures EqualsIgnoreCase(text[i..i + n], p) <==> n == |p| && MatchesAt(text, i, p)
  {
    if n == |p| && MatchesAt(text, i, p) {
      forall k | 0 <= k < n
        ensures SameIgnoringCase(text[i..i + n][k], p[k])
      {
        assert text[i..i + n][k] == text[i + k];
      }
    }
    if EqualsIgnoreCase(text[i..i + n], p) {
      forall k | 0 <= k < |p|
        ensures SameIgnoringCase(text[i + k], p[k])
      {
        assert text[i..i + n][k] == text[i + k];
      }
    }
  }

  /** The whole string folded to lower case. */
  function Lowered(s: string): string
  {
    seq(|s|, k requires 0 <= k < |s| => ToLower(s[k]))
  }

  /** Comparing position by position up to case is the same as folding both
      strings and comparing them exactly. */
  lemma EqualsIgnoreCaseIffLowered(s: string, t: string)
    ensures EqualsIgnoreCase(s, t) <==> Lowered(s) == Lowered(t)
  {
    if Lowered(s) == Lowered(t) {
      assert |s| == |Lowered(s)| == |Lowered(t)| == |t|;
      forall k | 0 <= k < |s|
        ensures SameIgnoringCase(s[k], t[k])
      {
        assert Lowered(s)[k] == Lowered(t)[k];
      }
    }
  }

  /** The comparison is an equivalence relation. */
  lemma EqualsIgnoreCaseEquivalence(s: string, t: string, u: string)
    ensures EqualsIgnoreCase(s, s)
    ensures EqualsIgnoreCase(s, t) ==> EqualsIgnoreCase(t, s)
    ensures EqualsIgnoreCase(s, t) && EqualsIgnoreCase(t, u) ==> EqualsIgnoreCase(s, u)
  {
  }
}
