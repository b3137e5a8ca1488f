/** The multi-pattern Rabin-Karp matcher: a RollingHash object is built once
    from a pattern set and then searches texts in one pass each, sliding a
    window of the shortest pattern length W over the text, looking the
    window's hash up in the prefix-hash table, and confirming each hit by a
    case-insensitive comparison with the full stored pattern. */
module RollingHashMatcher {
  import opened PolynomialHash
  import opened CaseFold
  import opened PatternIndex
  import opened ScanSpec

  datatype Option<T> = None | Some(value: T)

  /** What the verifier does with a hash hit: records a match, rejects it, or
      fails because the substring of the pattern's full length would run past
      the end of the text (Java's StringIndexOutOfBoundsException). */
  datatype Check = Match | NoMatch | OutOfRange

  /** What a search gives back: null for a text shorter than W, the map of
      matches, or the exception the verifier raised at an offset. */
  datatype SearchOutcome = NullResult | Found(matches: map<int, string>) | Thrown(offset: int)

  class RollingHash {
    /** The patterns, in the order the pattern set iterates over them. */
    var patternSet: seq<string>
    /** Prefix hash to pattern. */
    var patternHashTable: map<int, string>
    var modulus: int
    var polynomialBase: int
    /** The rolling constant, BASE^(W-1) reduced modulo the modulus. */
    var commonConstant: int
    var doubleCheckCount: int
    /** W, the shortest pattern length. */
    var minPatternLength: int
    /** The matches of the last search, offset to matched substring; None
        before the first search. */
    var results: Option<map<int, string>>
    /** The text of the last search. */
    ghost var lastText: string

    /** The invariant a constructed matcher keeps: the index fields are what
        construction computed from patternSet. */
    ghost predicate Valid()
      reads this`polynomialBase, this`modulus, this`patternSet, this`minPatternLength
      reads this`patternHashTable, this`commonConstant
    {
      && polynomialBase == BASE && modulus > 0
      && (forall k :: 0 <= k < |patternSet| ==> |patternSet[k]| > 0)
      && IsShortestLength(patternSet, minPatternLength)
      && patternHashTable == PrefixTable(patternSet, minPatternLength, modulus)
      && commonConstant == (if minPatternLength == 1 then 1 else Pow(BASE, minPatternLength - 1) % modulus)
    }

    /** What a search relies on from Valid(): the rolling arithmetic is set up. */
    ghost predicate Searchable()
      reads this`polynomialBase, this`modulus, this`minPatternLength
      reads this`patternHashTable, this`commonConstant
    {
      && polynomialBase == BASE && modulus > 0 && minPatternLength >= 1
      && commonConstant % modulus == Pow(BASE, minPatternLength - 1) % modulus
    }

    lemma ValidIsSearchable()
      requires Valid()
      ensures Searchable()
    {
    }

    /** The recorded results are genuine matches in the last text searched. */
    ghost predicate ResultsSound()
      reads this
    {
      results.Some? ==> Sound(patternHashTable, lastText, results.value)
    }

    /** The index as the scan specification sees it. */
    ghost function Idx(): Index
      reads this`patternHashTable, this`minPatternLength, this`modulus
    {
      Index(patternHashTable, minPatternLength, modulus)
    }

    /** Builds the matcher for the patterns (in iteration order) with the
        given modulus. */
    constructor (patterns: seq<string>, mod: int)
      requires mod > 0
      requires forall k :: 0 <= k < |patterns| ==> |patterns[k]| > 0
      ensures Valid() && ResultsSound() && WellFormed(Idx())
      ensures patternSet == patterns && modulus == mod && polynomialBase == BASE
      ensures IsShortestLength(patterns, minPatternLength)
      ensures forall k :: 0 <= k < |patterns| ==> minPatternLength <= |patterns[k]|
      ensures patternHashTable == PrefixTable(patterns, minPatternLength, mod)
      ensures commonConstant % mod == Pow(BASE, minPatternLength - 1) % mod
      ensures minPatternLength > 1 ==> commonConstant == Pow(BASE, minPatternLength - 1) % mod
      ensures results == None && doubleCheckCount == 0
    {
      patternSet := patterns;
      polynomialBase := BASE;
      patternHashTable := map[];
      var shortest := FindShortestPatternLength(patterns);
      minPatternLength := shortest;
      modulus := mod;
      results := None;
      doubleCheckCount := 0;
      lastText := [];
      new;
      var k := 0;
      while k < |patterns|
        invariant 0 <= k <= |patterns|
        invariant patternSet == patterns && polynomialBase == BASE && modulus == mod
        invariant IsShortestLength(patterns, minPatternLength)
        invariant results == None && doubleCheckCount == 0
        invariant patternHashTable == PrefixTable(patterns[..k], minPatternLength, mod)
      {
        var pattern := patterns[k];
        var patHash := Hash(pattern[..minPatternLength], minPatternLength);
        assert patterns[..k + 1][..k] == patterns[..k];
        assert pattern[..minPatternLength][0..minPatternLength] == pattern[0..minPatternLength];
        HornerSameWindow(pattern[..minPatternLength], 0, pattern, 0, minPatternLength);
        assert patHash == PrefixHash(pattern, minPatternLength, mod);
        patternHashTable := patternHashTable[patHash := pattern];
        k := k + 1;
      }
      assert patterns[..k] == patterns;
      commonConstant := 1;
      for i := 1 to minPatternLength
        invariant patternSet == patterns && polynomialBase == BASE && modulus == mod
        invariant IsShortestLength(patterns, minPatternLength)
        invariant results == None && doubleCheckCount == 0
        invariant patternHashTable == PrefixTable(patterns, minPatternLength, mod)
        invariant commonConstant == (if i == 1 then 1 else Pow(BASE, i - 1) % mod)
      {
        PowStep(i - 1, mod);
        commonConstant := (polynomialBase * commonConstant) % modulus;
      }
      if minPatternLength > 1 {
        ModMod(Pow(BASE, minPatternLength - 1), mod);
      }
    }

    /** The hash of the first patternLength characters of key, accumulated
        left to right: the polynomial value of that prefix modulo the modulus. */
    method Hash(key: string, patternLength: int) returns (h: int)
      requires modulus > 0 && polynomialBase == BASE
      requires 0 <= patternLength <= |key|
      ensures h == HashOf(key, 0, patternLength, modulus)
      ensures 0 <= h < modulus
    {
      h := 0;
      for j := 0 to patternLength
        invariant h == HashOf(key, 0, j, modulus)
      {
        HashStep(key, 0, j, modulus);
        h := (polynomialBase * h + Code(key[j])) % modulus;
      }
    }

    /** The shortest length of a non-empty pattern, INT_MAX if there is none. */
    static method FindShortestPatternLength(patterns: seq<string>) returns (shortestLength: int)
      ensures IsShortestLength(patterns, shortestLength)
    {
      shortestLength := INT_MAX;
      var k := 0;
      while k < |patterns|
        invariant 0 <= k <= |patterns|
        invariant 0 < shortestLength <= INT_MAX
        invariant forall j :: 0 <= j < k && |patterns[j]| > 0 ==> shortestLength <= |patterns[j]|
        invariant shortestLength == INT_MAX || exists j :: 0 <= j < k && |patterns[j]| == shortestLength
      {
        var pattern := patterns[k];
        if |pattern| > 0 && |pattern| < shortestLength {
          shortestLength := |pattern|;
        }
        k := k + 1;
      }
    }

    /** Confirms a hash hit at offset i of txt: takes the pattern stored under
        hashCode, the substring of txt at i whose length is the window length
        plus what the pattern has beyond the window, and records it when the
        two are equal up to case. The substring fails when its bounds are not
        0 <= i <= i + newLength <= |txt|. Every call counts once. */
    method DoubleCheck(txt: string, i: int, length: int, hashCode: int) returns (outcome: Check)
      requires results.Some?
      requires hashCode in patternHashTable
      modifies this`results, this`doubleCheckCount
      ensures doubleCheckCount == old(doubleCheckCount) + 1
      ensures var p := patternHashTable[hashCode];
              var newLength := length + |p| - minPatternLength;
              && (outcome == OutOfRange <==> i < 0 || newLength < 0 || i + newLength > |txt|)
              && (outcome == Match <==>
                    0 <= i && 0 <= newLength && i + newLength <= |txt|
                    && newLength == |p| && MatchesAt(txt, i, p))
              && results == (if outcome == Match then Some(old(results).value[i := txt[i..i + newLength]])
                             else old(results))
    {
      doubleCheckCount := doubleCheckCount + 1;
      var patternMatched := patternHashTable[hashCode];
      var lengthDifference := |patternMatched| - minPatternLength;
      var newStringLength := length + lengthDifference;
      if i < 0 || newStringLength < 0 || i + newStringLength > |txt| {
        return OutOfRange;
      }
      var newSubString := txt[i..i + newStringLength];
      MatchesAtIff(txt, i, newStringLength, patternMatched);
      if EqualsIgnoreCase(newSubString, patternMatched) {
        results := Some(results.value[i := newSubString]);
        return Match;
      }
      return NoMatch;
    }

    /** The lookup for the window at offset i, whose hash is textHash: when the
        hash is a key of the table and the offset is the first one or its
        window ends before the end of the text, the verifier is called; the
        result is whether it failed. This is one step of Scan. */
    method LookUpWindow(text: string, i: int, textHash: int, ghost keys: seq<int>) returns (thrown: bool)
      requires modulus > 0 && minPatternLength >= 1
      requires 0 <= i < |keys| && textHash == keys[i]
      requires var ix := Index(patternHashTable, minPatternLength, modulus);
        && Scan(ix, text, keys, i).Scanning? && results == Some(Scan(ix, text, keys, i).matches)
      modifies this`results, this`doubleCheckCount
      ensures var ix := Index(patternHashTable, minPatternLength, modulus);
        && (thrown <==> Scan(ix, text, keys, i + 1).Failed?)
        && results == Some(Scan(ix, text, keys, i + 1).matches)
        && doubleCheckCount - old(doubleCheckCount)
           == Scan(ix, text, keys, i + 1).checks - Scan(ix, text, keys, i).checks
    {
      thrown := false;
      if textHash in patternHashTable {
        if i == 0 || i + minPatternLength < |text| {
          var c := DoubleCheck(text, i, minPatternLength, textHash);
          thrown := c == OutOfRange;
        }
      }
    }

    /** The hash rolling of the search loop: drops text[i - 1] from the hash of
        the window at i - 1 and shifts in text[i - 1 + W], giving the hash of
        the window at i without rehashing it. */
    method RollHash(text: string, i: int, textHash: int) returns (rolled: int)
      requires Searchable() && 1 <= i && i - 1 + minPatternLength < |text|
      requires textHash == HashOf(text, i - 1, i - 1 + minPatternLength, modulus)
      ensures rolled == HashOf(text, i, i + minPatternLength, modulus)
    {
      var oldFirstCharIndex := i - 1;
      var newLastCharIndex := i - 1 + minPatternLength;
      RollingStep(text, i, minPatternLength, modulus, commonConstant, polynomialBase, textHash);
      rolled := (textHash + modulus - (commonConstant * Code(text[oldFirstCharIndex])) % modulus) % modulus;
      rolled := (rolled * polynomialBase + Code(text[newLastCharIndex])) % modulus;
    }

    /** The loop of the search over the text body: rolls the hash of the
        window at 0 across the offsets 1 .. |text| - W and looks each window
        up, ending at the first verifier failure, whose offset is last. */
    method ScanTextBody(text: string, firstHash: int, ghost ix: Index, ghost keys: seq<int>, ghost n: int)
      returns (thrown: bool, last: int)
      requires Searchable() && ix == Index(patternHashTable, minPatternLength, modulus)
      requires n == |text| - minPatternLength + 1 >= 1 && keys == WindowHashes(ix, text, n)
      requires firstHash == keys[0]
      requires Scan(ix, text, keys, 1).Scanning? && results == Some(Scan(ix, text, keys, 1).matches)
      modifies this`results, this`doubleCheckCount
      ensures thrown <==> Scan(ix, text, keys, n).Failed?
      ensures thrown ==> Scan(ix, text, keys, n).offset == last
      ensures results == Some(Scan(ix, text, keys, n).matches)
      ensures doubleCheckCount == old(doubleCheckCount) + Scan(ix, text, keys, n).checks - Scan(ix, text, keys, 1).checks
    {
      ghost var checks0 := old(doubleCheckCount) - Scan(ix, text, keys, 1).checks;
      var textLength := |text|;
      var textHash := firstHash;
      thrown, last := false, 0;
      var i := 1;
      while i <= textLength - minPatternLength && !thrown
        invariant 1 <= i <= n
        invariant textHash == keys[i - 1]
        invariant thrown <==> Scan(ix, text, keys, i).Failed?
        invariant thrown ==> Scan(ix, text, keys, i).offset == last
        invariant results == Some(Scan(ix, text, keys, i).matches)
        invariant doubleCheckCount == checks0 + Scan(ix, text, keys, i).checks
      {
        WindowHashesAt(ix, text, n, i - 1);
        textHash := RollHash(text, i, textHash);
        WindowHashesAt(ix, text, n, i);
        thrown := LookUpWindow(text, i, textHash, keys);
        last := i;
        i := i + 1;
      }
      if thrown {
        ScanFailedStays(ix, text, keys, i, n);
      }
    }

    /** Searches text: null when it is shorter than W; otherwise hashes the
        first window directly, rolls the hash across the text, and verifies
        every hit whose offset is 0 or whose window ends before the end of the
        text. The outcome, the new results and the number of verifier calls
        are those of Scan over the window hashes of the offsets
        0 .. |text| - W; a verifier failure ends the search at its offset. */
    method MultiplePatternMatchSearch(text: string) returns (r: SearchOutcome)
      requires Valid()
      modifies this`results, this`doubleCheckCount, this`lastText
      ensures ResultsSound() && lastText == text && WellFormed(Idx())
      ensures |text| < minPatternLength <==> r == NullResult
      ensures r == NullResult ==> results == Some(map[]) && doubleCheckCount == old(doubleCheckCount)
      ensures |text| >= minPatternLength ==>
        var n := |text| - minPatternLength + 1;
        var ix := Index(patternHashTable, minPatternLength, modulus);
        var s := Scan(ix, text, WindowHashes(ix, text, n), n);
        && results == Some(s.matches)
        && doubleCheckCount == old(doubleCheckCount) + s.checks
        && r == (if s.Scanning? then Found(s.matches) else Thrown(s.offset))
    {
      ValidIsSearchable();
      ghost var ix := Index(patternHashTable, minPatternLength, modulus);
      results := Some(map[]);
      lastText := text;
      var textLength := |text|;
      if textLength < minPatternLength {
        return NullResult;
      }
      ghost var n := textLength - minPatternLength + 1;
      ghost var keys := WindowHashes(ix, text, n);
      var textHash := Hash(text, minPatternLength);
      WindowHashesAt(ix, text, n, 0);
      var thrown := LookUpWindow(text, 0, textHash, keys);
      var last := 0;
      if thrown {
        ScanFailedStays(ix, text, keys, 1, n);
      } else {
        thrown, last := ScanTextBody(text, textHash, ix, keys, n);
      }
      r := if thrown then Thrown(last) else Found(results.value);
      ScanSound(ix, text, n);
    }

    /** The matches of the last search (None before any search); each is a
        genuine occurrence in the last text of a string equal up to case to a
        pattern of the table. */
    method GetResults() returns (r: Option<map<int, string>>)
      requires ResultsSound()
      ensures r == results
      ensures r.Some? ==> Sound(patternHashTable, lastText, r.value)
    {
      r := results;
    }
  }

  /** Searching the same text twice gives the same outcome and leaves the same
      results: each search starts from a fresh result map. */
  method SearchTwice(matcher: RollingHash, text: string) returns (first: SearchOutcome, second: SearchOutcome)
    requires matcher.Valid()
    modifies matcher`results, matcher`doubleCheckCount, matcher`lastText
    ensures first == second
  {
    first := matcher.MultiplePatternMatchSearch(text);
    var afterFirst := matcher.results;
    second := matcher.MultiplePatternMatchSearch(text);
    assert matcher.results == afterFirst;
  }
}
