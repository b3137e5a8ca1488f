# Multi-pattern Rabin-Karp matcher, modelled in Dafny

This project models the `RollingHash` class of `RollingHash.java`. That class is a
multi-pattern Rabin-Karp matcher. It is built once from a set of patterns and then
searches texts:

- **Construction** finds the shortest pattern length W. It maps the hash of each
  pattern's first W characters to the pattern, and computes the rolling constant
  256^(W-1) mod MOD.
- **The hash** is a left-to-right polynomial hash with base 256, modulo MOD.
- **A search** hashes the first window of width W directly, then rolls the hash one
  offset at a time. It looks each window's hash up in the table.
- **The verifier** runs on a hit. It takes the stored pattern and cuts a substring
  of the pattern's full length from the text. It records the substring when the two
  are equal up to case.

The model has five modules:

- `PolynomialHash` (`polynomial_hash.dfy`) holds the hash as a pure function
  (`HashOf`, over `Horner` and the equivalent sum `PolySum`). It also holds the
  modular arithmetic behind the rolling update.
- `CaseFold` (`case_fold.dfy`) holds the case-insensitive comparison.
- `PatternIndex` (`pattern_index.dfy`) describes what construction builds: the
  shortest length and the prefix-hash table, as pure definitions.
- `ScanSpec` (`scan_spec.dfy`) describes a search without the loop.
  - `Candidate` is an offset handed to the verifier.
  - `Fits` means the stored pattern's substring stays inside the text.
  - `Confirmed` is an accepted offset.
  - `VerifiedUpTo` is the map of matches below a bound.
  - `Expected` is where a search of the offsets below a bound stands. Either it
    is still running, with `VerifiedUpTo` recorded and one verifier call per
    candidate, or it stopped at the first offset whose pattern does not fit.
  - `Scan` is the same search offset by offset, as the loop visits the offsets.
    `ScanMeaning` proves that `Scan` and `Expected` agree.
- `RollingHashMatcher` (`rolling_hash.dfy`) holds the class `RollingHash`. Its
  fields are the ones the source updates in place:
  - `patternHashTable`, `modulus` (MOD), `polynomialBase`, `commonConstant`,
    `minPatternLength`, `results` and `doubleCheckCount`;
  - `patternSet`, the patterns in iteration order;
  - `lastText`, a specification-only field that remembers the last text
    searched.

  Its methods carry the source's loops with their invariants.

The model follows the code as written, including its quirks:

- **Offset |text| - W is never verified.** The guard at RollingHash.java:156 is a
  strict `<`, so the last window offset |text| - W is skipped when it is positive.
  `Candidate` keeps that guard. `FinalOffsetMissed` shows a missed occurrence:
  "ab" in "abab" at offset 2.
- **A short text gives null.** A text shorter than W gives `NullResult`, not an
  empty map.
- **The verifier has no bounds check.** The substring call at RollingHash.java:182
  throws when the pattern would run past the end of the text. Here it is the
  `OutOfRange` outcome of `DoubleCheck`. The search then ends with
  `Thrown(offset)`, and the results keep what was recorded before that offset.
- **Only exact-case prefixes are found.** The window hash is case-sensitive, so
  the comparison up to case at RollingHash.java:184 only runs after a hash hit.
  An occurrence whose first W characters differ from the pattern's only in case
  is missed unless the hashes happen to collide. `CaseOnlyOccurrenceMissed`
  shows "AB" missed for the pattern "ab"; `Coverage` promises verbatim
  occurrences only.
- **A later pattern overwrites an earlier one.** A later pattern with the same
  prefix hash replaces the earlier one in the table (`PrefixTableLastWins`,
  `SharedPrefixOverwrites`).

## Model

| member | source | states |
|---|---|---|
| RollingHashMatcher.RollingHash.constructor | RollingHash.java:35-79 | The pattern sequence is stored, the base is 256 and the modulus is the given one. `minPatternLength` is the shortest non-empty length (INT_MAX when there is none). The table is `PrefixTable` of the patterns in iteration order. `commonConstant` is congruent to 256^(W-1) modulo MOD, and equals 256^(W-1) mod MOD when W > 1. Results start as None and the count as 0. The invariant `Valid` holds. |
| RollingHashMatcher.RollingHash.ValidIsSearchable | RollingHash.java:75-77 | The constant the constructor folds (1 when W = 1) is congruent to 256^(W-1), which is what the rolling update needs. |
| RollingHashMatcher.RollingHash.Hash | RollingHash.java:84-90 | The left-to-right loop yields `HashOf(key, 0, n, MOD)`, the polynomial value of the first n characters modulo MOD, and this lies in [0, MOD). |
| PolynomialHash.HornerIsSum | RollingHash.java:84-90 | The left-to-right accumulation equals the sum of key[j]·256^(n-1-j) over j < n. |
| PolynomialHash.HashStep | RollingHash.java:87 | One step of the hash loop turns the hash of s[lo..hi] into the hash of s[lo..hi+1]. |
| PolynomialHash.PowStep | RollingHash.java:77 | One step of the constant loop turns 256^e mod MOD into 256^(e+1) mod MOD. |
| PolynomialHash.HornerSameWindow | RollingHash.java:63 | Windows with equal characters have equal polynomial values, wherever they sit. This makes a pattern's prefix hash comparable with a text window's hash. |
| PolynomialHash.DropFirst | RollingHash.java:144 | Given a constant congruent to 256^(W-1), removing the outgoing character keeps the dividend non-negative (the `+ MOD`). It turns the hash of s[lo..hi] into the hash of s[lo+1..hi]. |
| PolynomialHash.RollingStep | RollingHash.java:144-146 | The two updates turn the hash of the window at i-1 into the hash of the window at i. |
| RollingHashMatcher.RollingHash.RollHash | RollingHash.java:140-146 | Given the hash of the window at i-1, the method returns the hash of the window at i. This is the rolling invariant. |
| RollingHashMatcher.RollingHash.FindShortestPatternLength | RollingHash.java:210-223 | The result is at most the length of every non-empty pattern and is the length of one of them, or INT_MAX when there is no non-empty pattern. |
| PatternIndex.ShortestLengthUnique | RollingHash.java:210-223 | That description pins down a single length. |
| PatternIndex.PrefixTableKeys | RollingHash.java:54-68 | The table's keys are exactly the W-prefix hashes of the patterns. |
| PatternIndex.PrefixTableLastWins | RollingHash.java:54-68 | Each entry is a pattern of the sequence whose prefix hash is its key. No later pattern has that prefix hash, so the last insertion wins. |
| PatternIndex.SinglePatternTable | RollingHash.java:66 | A single pattern gives a table with one entry, under its prefix hash. |
| PatternIndex.SharedPrefixOverwrites | RollingHash.java:66 | With "cat" and then "cats" (W = 3), the table holds only "cats". |
| CaseFold.MatchesAtIff | RollingHash.java:182-184 | The substring of length n at i equals p up to case exactly when n = \|p\| and p matches in place at i. |
| CaseFold.EqualsIgnoreCaseIffLowered | RollingHash.java:184 | Comparing up to case position by position is the same as lower-casing both strings and comparing them exactly. |
| CaseFold.EqualsIgnoreCaseEquivalence | RollingHash.java:184 | The comparison up to case is reflexive, symmetric and transitive. |
| RollingHashMatcher.RollingHash.DoubleCheck | RollingHash.java:173-192 | The count rises by exactly one. The new length is W's length plus the pattern's excess over W. The outcome is OutOfRange exactly when the substring bounds fail. It is Match exactly when the substring has the pattern's length and equals it up to case, and then the substring is recorded at i. Otherwise (a rejection or a failure) the results are unchanged. |
| RollingHashMatcher.RollingHash.LookUpWindow | RollingHash.java:155-161 | One lookup: the verifier is called exactly when the hash is a key and the offset is 0 or its window ends before the end of the text. The new results, failure flag and count are those of one more step of `Scan`. |
| ScanSpec.CandidateAt | RollingHash.java:155-156 | For the true hash of the window at i, the lookup and guard pass exactly when i is a `Candidate`, and the stored pattern is `WindowPattern`. |
| RollingHashMatcher.RollingHash.ScanTextBody | RollingHash.java:134-162 | The loop over offsets 1 .. \|text\| - W ends with the failure flag, the results and the count of `Scan` over all window hashes. The failure offset is the one `Scan` stopped at. |
| RollingHashMatcher.RollingHash.MultiplePatternMatchSearch | RollingHash.java:114-165 | Results are reset. The outcome is null exactly when \|text\| < W, and then the results are empty and the count is unchanged. Otherwise the results, the added count and the outcome are those of `Scan` over the window hashes of the offsets 0 .. \|text\| - W: `Found(matches)`, or `Thrown(offset)` at the first verifier failure. The recorded results are sound. |
| RollingHashMatcher.RollingHash.GetResults | RollingHash.java:318-320 | Returns the results of the last search (None before any). Each entry is a genuine occurrence in the last text of a string equal up to case to a pattern of the table. |
| RollingHashMatcher.SearchTwice | RollingHash.java:116 | Two searches of the same text give the same outcome, because each search starts from a fresh result map. |
| ScanSpec.WindowHashesAt | RollingHash.java:123-146 | The sequence of window hashes holds, at each offset j, the hash of the window of width W at j. |
| ScanSpec.VerifiedUpToNext | RollingHash.java:184-185 | Raising the bound by one offset adds that offset's substring to the matches exactly when the offset is confirmed. |
| ScanSpec.VerifiedUpToSound | RollingHash.java:177-185 | Every recorded entry is the text at its offset and equals some pattern of the table up to case. |
| ScanSpec.MisfitExists | RollingHash.java:180-182 | When some candidate below the bound does not fit, there is a least such offset. |
| ScanSpec.FirstMisfit | RollingHash.java:180-182 | The first offset whose verifier call runs past the end of the text: a candidate that does not fit, with every candidate before it fitting. |
| ScanSpec.FirstFailureUnique | RollingHash.java:180-182 | That first failing offset is unique, and once there is one the whole search cannot finish. |
| ScanSpec.ScanStart | RollingHash.java:116 | Before any offset, the scan equals the description: running, with no matches and no calls. |
| ScanSpec.ScanStep | RollingHash.java:155-161 | One more offset keeps the offset-by-offset scan equal to the description `Expected`. A stopped scan stays stopped at the same first failure. |
| ScanSpec.ScanStepRunning | RollingHash.java:155-161 | From a running scan, the cases are a skipped offset, a verifier failure (which becomes the first failure), and a verified offset (its match is recorded exactly when it is confirmed). Each keeps the scan equal to `Expected`. |
| ScanSpec.ScanMeaning | RollingHash.java:134-162 | At every bound, the offset-by-offset scan over the true window hashes equals `Expected`, the description of the search that does not use the loop. |
| ScanSpec.ScanFailedStays | RollingHash.java:182 | Once a verifier call has failed, later offsets change nothing: the exception ends the search. |
| ScanSpec.ScanSound | RollingHash.java:114-165 | The scan over all the window hashes of a text is `Expected`, and the matches it records are sound. |
| ScanSpec.NoFalsePositives | RollingHash.java:126-185 | Every recorded offset i with value s satisfies all of: i is 0 or its window ends strictly before the end of the text; s is the text at i; s has the length of, and equals up to case, the pattern stored under the hash of the window at i; and that pattern is the last one in the sequence with that prefix hash. |
| ScanSpec.Coverage | RollingHash.java:155-157 | A pattern that occurs verbatim at a looked-up offset, and that owns the table entry under its own prefix hash, is recorded there. |
| ScanSpec.CaseOnlyOccurrenceMissed | RollingHash.java:123-126 | The text "AB" equals the pattern "ab" up to case, yet nothing is recorded for it (for any modulus above both polynomial values), because the lookup uses the case-sensitive window hash. |
| ScanSpec.FinalOffsetMissed | RollingHash.java:156 | The pattern "ab" occurs in "abab" at offset 2 = \|text\| - W. The matches recorded over every offset are only {0: "ab"}, whatever the modulus. |

## Left out

- The Swing interface in GUI.java and its input clean-up are not part of this model. They are a front end that feeds patterns and text to the matcher.
- `randomPrime` (RollingHash.java:201-204) is not modelled. Its value becomes the constructor parameter `mod`, required to be positive; primality is never used.
- All console output is left out, as are the demo driver `main` and `printMatchResult` (RollingHash.java:232-308). They only print.
- Dead code is left out: `doubleCheckMultiple` is never called, `patternHashCodeSet` is written but never read, and the `endIndex` block has no effect.
- Java `long` and `int` overflow is not modelled: hashes, the constant and `doubleCheckCount` are unbounded `int`. For texts whose characters are UTF-16 code units (below 2^16) and MOD below 2^31, no hash computation in the source overflows.
- A Dafny `string` stands for the Java `String`'s UTF-16 code units only when the text has no character outside the Basic Multilingual Plane. Java counts such a character as two code units (a surrogate pair), which shifts `length()`, `charAt` and every later offset, while a Dafny `char` is one Unicode scalar value and cannot be a surrogate. Texts and patterns with characters outside the Basic Multilingual Plane are therefore not represented: for them the model's offsets and hashes differ from Java's.
- The table is keyed by the hash as an `int` rather than by its decimal string; the map is the same.
- The pattern `Set` is a sequence in its iteration order. That order decides which pattern wins a shared prefix hash, and Java's `HashSet` order is not modelled.
- RollingHashMatcher.RollingHash.constructor: requires every pattern to be non-empty. In the source, an empty pattern makes `substring(0, W)` throw during construction; that exception is not modelled.
- CaseFold.EqualsIgnoreCaseIffLowered: `equalsIgnoreCase` is modelled with an ASCII case fold; Java's Unicode case mapping is not modelled.
- RollingHashMatcher.RollingHash.DoubleCheck: Java's `StringIndexOutOfBoundsException` is the `OutOfRange` outcome rather than an exception. The search stops there with `Thrown(offset)`, as the exception would end it.
- RollingHashMatcher.RollingHash.LookUpWindow: the lookup at line 126 (offset 0, no guard) and the one at lines 155-161 share this method. The `i == 0` case of the guard stands for the unguarded first lookup.
- RollingHashMatcher.RollingHash.MultiplePatternMatchSearch: after `Thrown`, the results and count are those recorded before the exception. The Java caller sees the exception rather than a return value.
