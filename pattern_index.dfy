/** The pattern index that the RollingHash constructor builds: the shortest
    pattern length W and the table from the hash of each pattern's first W
    characters to the pattern. */
module PatternIndex {
  import opened PolynomialHash

  /** Java's Integer.MAX_VALUE, the shortest length before any pattern is seen. */
  const INT_MAX: int := 0x7fff_ffff

  /** w is what the shortest-length scan over ps yields: the least length of a
      non-empty pattern, or INT_MAX when there is none shorter. Empty patterns
      are skipped. */
  predicate IsShortestLength(ps: seq<string>, w: int)
  {
    && 0 < w <= INT_MAX
    && (forall k :: 0 <= k < |ps| && |ps[k]| > 0 ==> w <= |ps[k]|)
    && (w == INT_MAX || exists k :: 0 <= k < |ps| && |ps[k]| == w)
  }

  /** IsShortestLength pins down one length. */
  lemma ShortestLengthUnique(ps: seq<string>, w1: int, w2: int)
    requires IsShortestLength(ps, w1) && IsShortestLength(ps, w2)
    ensures w1 == w2
  {
    if w1 < INT_MAX {
      var k1 :| 0 <= k1 < |ps| && |ps[k1]| == w1;
    }
    if w2 < INT_MAX {
      var k2 :| 0 <= k2 < |ps| && |ps[k2]| == w2;
    }
  }

  /** The lookup key of a pattern: the hash of its first w characters. */
  function PrefixHash(p: string, w: nat, m: int): int
    requires m > 0 && w <= |p|
  {
    HashOf(p, 0, w, m)
  }

  /** The table after inserting the patterns of ps in order; a later pattern
      with the same key replaces an earlier one. */
  function PrefixTable(ps: seq<string>, w: nat, m: int): map<int, string>
    requires m > 0
    requires forall k :: 0 <= k < |ps| ==> w <= |ps[k]|
  {
    if |ps| == 0 then map[]
    else PrefixTable(ps[..|ps| - 1], w, m)[PrefixHash(ps[|ps| - 1], w, m) := ps[|ps| - 1]]
  }

  /** The keys of the table are exactly the prefix hashes of the patterns. */
  lemma {:induction false} PrefixTableKeys(ps: seq<string>, w: nat, m: int)
    requires m > 0
    requires forall k :: 0 <= k < |ps| ==> w <= |ps[k]|
    ensures PrefixTable(ps, w, m).Keys == set k | 0 <= k < |ps| :: PrefixHash(ps[k], w, m)
  {
    if |ps| > 0 {
      var init := ps[..|ps| - 1];
      PrefixTableKeys(init, w, m);
      var keys := set k | 0 <= k < |ps| :: PrefixHash(ps[k], w, m);
      var initKeys := set k | 0 <= k < |init| :: PrefixHash(init[k], w, m);
      assert keys == initKeys + {PrefixHash(ps[|ps| - 1], w, m)} by {
        forall key | key in keys ensures key in initKeys + {PrefixHash(ps[|ps| - 1], w, m)} {
          var k :| 0 <= k < |ps| && PrefixHash(ps[k], w, m) == key;
          if k < |init| {
            assert init[k] == ps[k];
          }
        }
        forall key | key in initKeys ensures key in keys {
          var k :| 0 <= k < |init| && PrefixHash(init[k], w, m) == key;
          assert ps[k] == init[k];
        }
      }
    }
  }

  /** Every entry of the table is the LAST pattern of ps whose prefix hash is
      its key: the pattern at some index k, with no later pattern on that key. */
  lemma {:induction false} PrefixTableLastWins(ps: seq<string>, w: nat, m: int, key: int)
    returns (k: nat)
    requires m > 0
    requires forall j :: 0 <= j < |ps| ==> w <= |ps[j]|
    requires key in PrefixTable(ps, w, m)
    ensures k < |ps| && ps[k] == PrefixTable(ps, w, m)[key]
    ensures PrefixHash(ps[k], w, m) == key
    ensures forall j :: k < j < |ps| ==> PrefixHash(ps[j], w, m) != key
  {
    var last := |ps| - 1;
    if PrefixHash(ps[last], w, m) == key {
      k := last;
    } else {
      var init := ps[..last];
      k := PrefixTableLastWins(init, w, m, key);
      assert ps[k] == init[k];
      forall j | k < j < last ensures PrefixHash(ps[j], w, m) != key {
        assert ps[j] == init[j];
      }
    }
  }

  /** The table of a single pattern has one entry, under its prefix hash. */
  lemma SinglePatternTable(p: string, w: nat, m: int)
    requires m > 0 && w <= |p|
    ensures PrefixTable([p], w, m) == map[PrefixHash(p, w, m) := p]
  {
    assert [p][..0] == [];
  }

  /** With two patterns that share a prefix (W = 3), the later one takes the
      only entry and the earlier pattern can no longer be found. */
  lemma SharedPrefixOverwrites(m: int)
    requires m > 0
    ensures PrefixTable(["cat", "cats"], 3, m) == map[HashOf("cat", 0, 3, m) := "cats"]
  {
    var ps := ["cat", "cats"];
    assert ps[..1] == ["cat"] && ["cat"][..0] == [];
    assert "cats"[0..3] == "cat"[0..3];
    HornerSameWindow("cats", 0, "cat", 0, 3);
    assert PrefixTable([], 3, m) == map[];
    assert PrefixTable(["cat"], 3, m) == map[HashOf("cat", 0, 3, m) := "cat"];
    assert PrefixTable(ps, 3, m) == PrefixTable(["cat"], 3, m)[HashOf("cat", 0, 3, m) := "cats"];
  }
}
