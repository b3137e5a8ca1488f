/** What one search of RollingHash computes, stated over the text and the
    built index without reference to the loop: which offsets are looked up,
    which of them are verified, and what map of matches results. */
module ScanSpec {
  import opened PolynomialHash
  import opened CaseFold
  import opened PatternIndex

  /** The immutable part of a built matcher: the prefix-hash table, the window
      width W (the shortest pattern length) and the modulus. */
  datatype Index = Index(table: map<int, string>, width: int, modulus: int)

  predicate WellFormed(ix: Index)
  {
    ix.modulus > 0 && ix.width >= 1
  }

  /** Offset i is handed to the verifier: its window lies in the text, it is the
      first window or its end stays strictly before the end of the text (so
      the last offset |text| - W > 0 is never handed over), and the window's
      hash is a key of the table. */
  predicate Candidate(ix: Index, text: string, i: int)
    requires WellFormed(ix)
  {
    && 0 <= i && i + ix.width <= |text|
    && (i == 0 || i + ix.width < |text|)
    && HashOf(text, i, i + ix.width, ix.modulus) in ix.table
  }

  /** The pattern stored under the hash of the window at i. */
  function WindowPattern(ix: Index, text: string, i: int): string
    requires WellFormed(ix) && Candidate(ix, text, i)
  {
    ix.table[HashOf(text, i, i + ix.width, ix.modulus)]
  }

  /** The verifier can take a substring of the stored pattern's full length. */
  predicate Fits(ix: Index, text: string, i: int)
    requires WellFormed(ix) && Candidate(ix, text, i)
  {
    i + |WindowPattern(ix, text, i)| <= |text|
  }

  /** The verifier accepts offset i. */
  predicate Confirmed(ix: Index, text: string, i: int)
    requires WellFormed(ix)
  {
    && Candidate(ix, text, i)
    && Fits(ix, text, i)
    && MatchesAt(text, i, WindowPattern(ix, text, i))
  }

  /** The matches recorded for the offsets below hi. */
  function VerifiedUpTo(ix: Index, text: string, hi: int): map<int, string>
    requires WellFormed(ix)
  {
    map i | 0 <= i < hi && Confirmed(ix, text, i) :: text[i..i + |WindowPattern(ix, text, i)|]
  }

  /** No verifier call below hi runs past the end of the text. */
  predicate AllFitBelow(ix: Index, text: string, hi: int)
    requires WellFormed(ix)
  {
    forall i :: 0 <= i < hi && Candidate(ix, text, i) ==> Fits(ix, text, i)
  }

  /** The offsets below hi that are handed to the verifier. */
  function CandidatesBelow(ix: Index, text: string, hi: int): set<int>
    requires WellFormed(ix)
  {
    set i | 0 <= i < hi && Candidate(ix, text, i)
  }

  /** A result map whose every entry is a genuine occurrence in text, at its
      offset, of a string equal up to case to some pattern of the table. */
  ghost predicate Sound(table: map<int, string>, text: string, res: map<int, string>)
  {
    forall i :: i in res ==>
      && 0 <= i && i + |res[i]| <= |text|
      && res[i] == text[i..i + |res[i]|]
      && exists p :: p in table.Values && EqualsIgnoreCase(res[i], p)
  }

  /** The hashes of the first n windows of width W of text, in order: what
      the search computes for offsets 0 .. n-1, directly for the first window
      and by rolling for the others. */
  function WindowHashes(ix: Index, text: string, n: int): (keys: seq<int>)
    requires WellFormed(ix) && 0 <= n && n + ix.width <= |text| + 1
    ensures |keys| == n
    decreases n
  {
    if n == 0 then []
    else WindowHashes(ix, text, n - 1) + [HashOf(text, n - 1, n - 1 + ix.width, ix.modulus)]
  }

  /** keys holds, at each offset j, the hash of the window of width W at j. */
  predicate AreWindowHashes(ix: Index, text: string, keys: seq<int>)
    requires WellFormed(ix)
  {
    && |keys| + ix.width <= |text| + 1
    && forall j :: 0 <= j < |keys| ==> keys[j] == HashOf(text, j, j + ix.width, ix.modulus)
  }

  lemma {:induction false} WindowHashesAt(ix: Index, text: string, n: int, j: int)
    requires WellFormed(ix) && 0 <= j < n && n + ix.width <= |text| + 1
    ensures WindowHashes(ix, text, n)[j] == HashOf(text, j, j + ix.width, ix.modulus)
    decreases n
  {
    if j < n - 1 {
      WindowHashesAt(ix, text, n - 1, j);
    }
  }

  lemma WindowHashesAre(ix: Index, text: string, n: int)
    requires WellFormed(ix) && 0 <= n && n + ix.width <= |text| + 1
    ensures AreWindowHashes(ix, text, WindowHashes(ix, text, n))
  {
    forall j | 0 <= j < n
      ensures WindowHashes(ix, text, n)[j] == HashOf(text, j, j + ix.width, ix.modulus)
    {
      WindowHashesAt(ix, text, n, j);
    }
  }

  /** Where a scan of the offsets below some bound stands: still running,
      with the matches recorded and the number of verifier calls so far, or
      stopped by a verifier call that ran past the end of the text. */
  datatype ScanState =
    | Scanning(matches: map<int, string>, checks: nat)
    | Failed(offset: int, matches: map<int, string>, checks: nat)

  /** The scan of the offsets below hi, given the window hashes keys, one
      offset at a time as the search loop visits them: an offset whose hash is
      a key of the table and that is 0 or ends before the end of the text
      costs one verifier call, which fails when the stored pattern does not
      fit, records the text when it equals the pattern up to case, and
      otherwise leaves the matches alone. */
  function Scan(ix: Index, text: string, keys: seq<int>, hi: int): ScanState
    requires WellFormed(ix) && hi <= |keys|
    decreases hi
  {
    if hi <= 0 then Scanning(map[], 0)
    else
      var before := Scan(ix, text, keys, hi - 1);
      var i := hi - 1;
      if before.Failed? || keys[i] !in ix.table || !(i == 0 || i + ix.width < |text|) then before
      else
        var p := ix.table[keys[i]];
        if i + |p| > |text| then Failed(i, before.matches, before.checks + 1)
        else if MatchesAt(text, i, p) then Scanning(before.matches[i := text[i..i + |p|]], before.checks + 1)
        else Scanning(before.matches, before.checks + 1)
  }

  /** Extending the bound by one offset adds that offset exactly when it is
      confirmed. */
  lemma VerifiedUpToNext(ix: Index, text: string, hi: int)
    requires WellFormed(ix) && 0 <= hi
    ensures VerifiedUpTo(ix, text, hi + 1) ==
      if Confirmed(ix, text, hi)
      then VerifiedUpTo(ix, text, hi)[hi := text[hi..hi + |WindowPattern(ix, text, hi)|]]
      else VerifiedUpTo(ix, text, hi)
  {
  }

  /** Offset i is a candidate exactly when the scan's lookup and guard pass
      for the window hash at i, and the pattern it is checked against is the
      one stored under that hash. */
  lemma CandidateAt(ix: Index, text: string, i: int, key: int)
    requires WellFormed(ix) && 0 <= i && i + ix.width <= |text|
    requires key == HashOf(text, i, i + ix.width, ix.modulus)
    ensures Candidate(ix, text, i) <==> key in ix.table && (i == 0 || i + ix.width < |text|)
    ensures Candidate(ix, text, i) ==> WindowPattern(ix, text, i) == ix.table[key]
  {
  }

  /** Extending the bound by one offset i: AllFitBelow gains the condition
      at i, the candidate set gains i when it is a candidate. */
  lemma BelowNext(ix: Index, text: string, i: int)
    requires WellFormed(ix) && 0 <= i
    ensures AllFitBelow(ix, text, i + 1) <==>
      AllFitBelow(ix, text, i) && (Candidate(ix, text, i) ==> Fits(ix, text, i))
    ensures |CandidatesBelow(ix, text, i + 1)| ==
      |CandidatesBelow(ix, text, i)| + if Candidate(ix, text, i) then 1 else 0
  {
    var below := CandidatesBelow(ix, text, i);
    assert i !in below;
    if Candidate(ix, text, i) {
      assert CandidatesBelow(ix, text, i + 1) == below + {i};
    } else {
      assert CandidatesBelow(ix, text, i + 1) == below;
    }
  }

  /** The recorded matches are sound. */
  lemma VerifiedUpToSound(ix: Index, text: string, hi: int)
    requires WellFormed(ix)
    ensures Sound(ix.table, text, VerifiedUpTo(ix, text, hi))
  {
    var res := VerifiedUpTo(ix, text, hi);
    forall i | i in res
      ensures exists p :: p in ix.table.Values && EqualsIgnoreCase(res[i], p)
    {
      var key := HashOf(text, i, i + ix.width, ix.modulus);
      assert ix.table[key] in ix.table.Values;
    }
  }

  /** Some offset below hi is handed to the verifier with a stored pattern
      that does not fit, and the least such offset exists. */
  lemma {:induction false} MisfitExists(ix: Index, text: string, hi: int)
    requires WellFormed(ix) && !AllFitBelow(ix, text, hi)
    ensures exists o :: 0 <= o < hi && Candidate(ix, text, o) && !Fits(ix, text, o) && AllFitBelow(ix, text, o)
    decreases hi
  {
    var i := hi - 1;
    BelowNext(ix, text, i);
    if !AllFitBelow(ix, text, i) {
      MisfitExists(ix, text, i);
    } else {
      assert Candidate(ix, text, i) && !Fits(ix, text, i);
    }
  }

  /** The first offset below hi whose verifier call runs past the end of the
      text. */
  ghost function FirstMisfit(ix: Index, text: string, hi: int): (o: int)
    requires WellFormed(ix) && !AllFitBelow(ix, text, hi)
    ensures 0 <= o < hi && Candidate(ix, text, o) && !Fits(ix, text, o) && AllFitBelow(ix, text, o)
  {
    MisfitExists(ix, text, hi);
    var o :| 0 <= o < hi && Candidate(ix, text, o) && !Fits(ix, text, o) && AllFitBelow(ix, text, o);
    o
  }

  /** Where a search of the offsets below hi stands, described without the
      loop: still running exactly when no verifier call below hi runs past the
      end of the text, with VerifiedUpTo recorded and one call per candidate;
      otherwise stopped at the first offset whose stored pattern does not fit,
      with the matches before that offset and one call per candidate up to and
      including it. */
  ghost function Expected(ix: Index, text: string, hi: int): ScanState
    requires WellFormed(ix)
  {
    if AllFitBelow(ix, text, hi) then Scanning(VerifiedUpTo(ix, text, hi), |CandidatesBelow(ix, text, hi)|)
    else
      var o := FirstMisfit(ix, text, hi);
      Failed(o, VerifiedUpTo(ix, text, o), |CandidatesBelow(ix, text, o + 1)|)
  }

  /** One offset more keeps the scan equal to the description. */
  lemma ScanStep(ix: Index, text: string, keys: seq<int>, hi: int)
    requires WellFormed(ix) && AreWindowHashes(ix, text, keys) && 1 <= hi <= |keys|
    requires Scan(ix, text, keys, hi - 1) == Expected(ix, text, hi - 1)
    ensures Scan(ix, text, keys, hi) == Expected(ix, text, hi)
  {
    var i := hi - 1;
    BelowNext(ix, text, i);
    if !AllFitBelow(ix, text, i) {
      FirstFailureUnique(ix, text, FirstMisfit(ix, text, i), FirstMisfit(ix, text, hi));
    } else {
      ScanStepRunning(ix, text, keys, i);
    }
  }

  /** The step from a scan that is still running at offset i. */
  lemma ScanStepRunning(ix: Index, text: string, keys: seq<int>, i: int)
    requires WellFormed(ix) && AreWindowHashes(ix, text, keys) && 0 <= i < |keys|
    requires AllFitBelow(ix, text, i)
    requires Scan(ix, text, keys, i) == Expected(ix, text, i)
    ensures Scan(ix, text, keys, i + 1) == Expected(ix, text, i + 1)
  {
    BelowNext(ix, text, i);
    CandidateAt(ix, text, i, keys[i]);
    if !Candidate(ix, text, i) {
      VerifiedUpToNext(ix, text, i);
    } else if !Fits(ix, text, i) {
      FirstFailureUnique(ix, text, i, FirstMisfit(ix, text, i + 1));
    } else {
      VerifiedUpToNext(ix, text, i);
    }
  }

  /** The offset-by-offset scan over the window hashes equals the description
      of the whole search at every bound. */
  lemma ScanMeaning(ix: Index, text: string, keys: seq<int>, hi: int)
    requires WellFormed(ix) && AreWindowHashes(ix, text, keys) && 0 <= hi <= |keys|
    ensures Scan(ix, text, keys, hi) == Expected(ix, text, hi)
  {
    ScanStart(ix, text, keys);
    var j := 0;
    while j < hi
      invariant 0 <= j <= hi
      invariant Scan(ix, text, keys, j) == Expected(ix, text, j)
    {
      ScanStep(ix, text, keys, j + 1);
      j := j + 1;
    }
  }

  /** Before any offset, the scan equals the description. */
  lemma ScanStart(ix: Index, text: string, keys: seq<int>)
    requires WellFormed(ix)
    ensures Scan(ix, text, keys, 0) == Expected(ix, text, 0)
  {
    assert VerifiedUpTo(ix, text, 0) == map[];
    assert CandidatesBelow(ix, text, 0) == {};
  }

  /** Once the scan has stopped, later offsets change nothing. */
  lemma {:induction false} ScanFailedStays(ix: Index, text: string, keys: seq<int>, lo: int, hi: int)
    requires WellFormed(ix) && lo <= hi <= |keys|
    requires Scan(ix, text, keys, lo).Failed?
    ensures Scan(ix, text, keys, hi) == Scan(ix, text, keys, lo)
    decreases hi - lo
  {
    if lo < hi {
      ScanFailedStays(ix, text, keys, lo, hi - 1);
    }
  }

  /** The scan over the window hashes of the offsets below n is the described
      search, and whatever it records is sound. */
  lemma ScanSound(ix: Index, text: string, n: int)
    requires WellFormed(ix) && 0 <= n && n + ix.width <= |text| + 1
    ensures Scan(ix, text, WindowHashes(ix, text, n), n) == Expected(ix, text, n)
    ensures Sound(ix.table, text, Expected(ix, text, n).matches)
  {
    var keys := WindowHashes(ix, text, n);
    WindowHashesAre(ix, text, n);
    ScanMeaning(ix, text, keys, n);
    var s := Scan(ix, text, keys, n);
    if s.Scanning? {
      VerifiedUpToSound(ix, text, n);
    } else {
      VerifiedUpToSound(ix, text, s.offset);
    }
  }

  /** No false positives. Every recorded offset i with value s: s is the text
      at i; i is 0 or its window ends strictly before the end of the text (so
      the offset |text| - W is never recorded when it is positive); s has the
      length of, and equals up to case, the pattern stored under the hash of
      the window at i; and that pattern is the last pattern of ps whose prefix
      hash equals the window's hash. */
  lemma NoFalsePositives(ix: Index, ps: seq<string>, text: string, hi: int, i: int)
    returns (k: nat)
    requires WellFormed(ix)
    requires forall j :: 0 <= j < |ps| ==> ix.width <= |ps[j]|
    requires ix.table == PrefixTable(ps, ix.width, ix.modulus)
    requires i in VerifiedUpTo(ix, text, hi)
    ensures 0 <= i < hi && i + ix.width <= |text|
    ensures i == 0 || i + ix.width < |text|
    ensures var s := VerifiedUpTo(ix, text, hi)[i];
      && i + |s| <= |text| && s == text[i..i + |s|]
      && k < |ps| && |s| == |ps[k]| && EqualsIgnoreCase(s, ps[k])
      && PrefixHash(ps[k], ix.width, ix.modulus) == HashOf(text, i, i + ix.width, ix.modulus)
      && (forall j :: k < j < |ps| ==>
            PrefixHash(ps[j], ix.width, ix.modulus) != HashOf(text, i, i + ix.width, ix.modulus))
  {
    var key := HashOf(text, i, i + ix.width, ix.modulus);
    k := PrefixTableLastWins(ps, ix.width, ix.modulus, key);
  }

  /** Coverage without key collision: a pattern that occurs verbatim at an
      offset the scan looks up, and that owns the table entry under its own
      prefix hash, is recorded there. */
  lemma Coverage(ix: Index, text: string, hi: int, i: int, p: string)
    requires WellFormed(ix) && ix.width <= |p|
    requires 0 <= i < hi && i + |p| <= |text| && text[i..i + |p|] == p
    requires i == 0 || i + ix.width < |text|
    requires HashOf(p, 0, ix.width, ix.modulus) in ix.table
    requires ix.table[HashOf(p, 0, ix.width, ix.modulus)] == p
    ensures i in VerifiedUpTo(ix, text, hi) && VerifiedUpTo(ix, text, hi)[i] == p
  {
    assert text[i..i + ix.width] == p[0..ix.width];
    HornerSameWindow(text, i, p, 0, ix.width);
    assert Candidate(ix, text, i) && WindowPattern(ix, text, i) == p;
    EqualsIgnoreCaseEquivalence(p, p, p);
    assert Confirmed(ix, text, i);
  }

  /** The skipped last offset, on a concrete case: with the single pattern
      "ab" (W = 2) and the text "abab", the occurrence at offset 2 = |text| - W
      is never recorded, whatever the modulus. */
  lemma FinalOffsetMissed(m: int)
    requires m > 0
    ensures "abab"[2..4] == "ab"
    ensures VerifiedUpTo(Index(PrefixTable(["ab"], 2, m), 2, m), "abab", 3) == map[0 := "ab"]
  {
    var ix := Index(PrefixTable(["ab"], 2, m), 2, m);
    var text := "abab";
    SinglePatternTable("ab", 2, m);
    FirstWindowConfirmed(ix, text, m);
    SecondWindowRejected(ix, text, m);
    assert !Candidate(ix, text, 2);
    var res := VerifiedUpTo(ix, text, 3);
    assert res.Keys == {0};
    assert res[0] == "ab";
  }

  lemma FirstWindowConfirmed(ix: Index, text: string, m: int)
    requires m > 0 && ix == Index(map[PrefixHash("ab", 2, m) := "ab"], 2, m) && text == "abab"
    ensures Confirmed(ix, text, 0) && WindowPattern(ix, text, 0) == "ab" && text[0..2] == "ab"
  {
    assert text[0..2] == "ab"[0..2] == "ab";
    HornerSameWindow(text, 0, "ab", 0, 2);
    assert MatchesAt(text, 0, "ab");
  }

  lemma SecondWindowRejected(ix: Index, text: string, m: int)
    requires m > 0 && ix == Index(map[PrefixHash("ab", 2, m) := "ab"], 2, m) && text == "abab"
    ensures !Confirmed(ix, text, 1)
  {
    if Candidate(ix, text, 1) {
      assert WindowPattern(ix, text, 1) == "ab";
      assert !SameIgnoringCase(text[1], "ab"[0]);
    }
  }

  /** The window hash is case-sensitive, so the comparison up to case only
      matters on a hash hit: with the single pattern "ab" (W = 2) and the text
      "AB", which equals the pattern up to case, nothing is recorded when the
      modulus exceeds both polynomial values (16706 and 24930). */
  lemma CaseOnlyOccurrenceMissed(m: int)
    requires m > 24930
    ensures EqualsIgnoreCase("AB", "ab")
    ensures VerifiedUpTo(Index(PrefixTable(["ab"], 2, m), 2, m), "AB", 1) == map[]
  {
    var ix := Index(PrefixTable(["ab"], 2, m), 2, m);
    SinglePatternTable("ab", 2, m);
    assert Horner("ab", 0, 2) == 24930 && Horner("AB", 0, 2) == 16706;
    assert HashOf("ab", 0, 2, m) == 24930 && HashOf("AB", 0, 2, m) == 16706;
    assert !Candidate(ix, "AB", 0);
    assert VerifiedUpTo(ix, "AB", 1).Keys == {};
  }

  /** A search outcome that ends in a failed substring at offset o leaves no
      room for a different failing offset, and none for finishing: the
      outcome of a search is determined by the text and the index. */
  lemma FirstFailureUnique(ix: Index, text: string, o1: int, o2: int)
    requires WellFormed(ix)
    requires Candidate(ix, text, o1) && !Fits(ix, text, o1) && AllFitBelow(ix, text, o1)
    requires Candidate(ix, text, o2) && !Fits(ix, text, o2) && AllFitBelow(ix, text, o2)
    ensures o1 == o2
    ensures !AllFitBelow(ix, text, |text| - ix.width + 1)
  {
  }
}
