/** Polynomial hashing with base 256 modulo a positive modulus: the arithmetic
    that the pattern index and the rolling scan of RollingHash share. A window
    is the stretch s[lo..hi] of a string, named by its bounds. */
module PolynomialHash {

  /** The fixed polynomial base, one more than the largest byte value. */
  const BASE: int := 256

  /** The numeric value of a character, as Java's char arithmetic uses it. */
  function Code(c: char): int { c as int }

  function Pow(b: int, e: nat): int
  {
    if e == 0 then 1 else b * Pow(b, e - 1)
  }

  /** The unreduced polynomial value of s[lo..hi], read left to right as the
      hash loop accumulates it: each character shifts the value by one base
      position and is added in. */
  function Horner(s: seq<char>, lo: int, hi: int): int
    requires 0 <= lo <= hi <= |s|
    decreases hi - lo
  {
    if hi == lo then 0 else BASE * Horner(s, lo, hi - 1) + Code(s[hi - 1])
  }

  /** The same polynomial as a sum: Code(s[j]) * BASE^(hi-1-j) for lo <= j < hi. */
  function PolySum(s: seq<char>, lo: int, hi: int): int
    requires 0 <= lo <= hi <= |s|
    decreases hi - lo
  {
    if hi == lo then 0 else Code(s[lo]) * Pow(BASE, hi - lo - 1) + PolySum(s, lo + 1, hi)
  }

  /** The hash of the window s[lo..hi]: its polynomial value modulo m. */
  function HashOf(s: seq<char>, lo: int, hi: int, m: int): int
    requires 0 <= lo <= hi <= |s| && m > 0
  {
    Horner(s, lo, hi) % m
  }

  lemma {:induction false} PolySumSnoc(s: seq<char>, lo: int, hi: int)
    requires 0 <= lo <= hi < |s|
    ensures PolySum(s, lo, hi + 1) == BASE * PolySum(s, lo, hi) + Code(s[hi])
    decreases hi - lo
  {
    if lo < hi {
      PolySumSnoc(s, lo + 1, hi);
      var p := Pow(BASE, hi - lo - 1);
      assert Pow(BASE, hi + 1 - lo - 1) == BASE * p;
      assert Code(s[lo]) * (BASE * p) == BASE * (Code(s[lo]) * p);
    }
  }

  /** The left-to-right accumulation computes the polynomial sum. */
  lemma {:induction false} HornerIsSum(s: seq<char>, lo: int, hi: int)
    requires 0 <= lo <= hi <= |s|
    ensures Horner(s, lo, hi) == PolySum(s, lo, hi)
    decreases hi - lo
  {
    if lo < hi {
      HornerIsSum(s, lo, hi - 1);
      PolySumSnoc(s, lo, hi - 1);
    }
  }

  /** Windows with the same characters have the same polynomial value,
      wherever they sit. */
  lemma {:induction false} HornerSameWindow(s: seq<char>, lo: int, t: seq<char>, lo2: int, n: nat)
    requires 0 <= lo && lo + n <= |s| && 0 <= lo2 && lo2 + n <= |t|
    requires s[lo..lo + n] == t[lo2..lo2 + n]
    ensures Horner(s, lo, lo + n) == Horner(t, lo2, lo2 + n)
  {
    if n > 0 {
      assert s[lo..lo + n - 1] == s[lo..lo + n][..n - 1];
      assert t[lo2..lo2 + n - 1] == t[lo2..lo2 + n][..n - 1];
      assert s[lo + n - 1] == s[lo..lo + n][n - 1];
      assert t[lo2 + n - 1] == t[lo2..lo2 + n][n - 1];
      HornerSameWindow(s, lo, t, lo2, n - 1);
    }
  }

  /** Splitting off the first character: its weighted value plus the rest. */
  lemma HornerSplitFirst(s: seq<char>, lo: int, hi: int)
    requires 0 <= lo < hi <= |s|
    ensures Horner(s, lo, hi) == Code(s[lo]) * Pow(BASE, hi - lo - 1) + Horner(s, lo + 1, hi)
  {
    HornerIsSum(s, lo, hi);
    HornerIsSum(s, lo + 1, hi);
  }

  // Modular arithmetic on Dafny's Euclidean % (the remainder is never
  // negative, which is what Java's % gives on the non-negative operands here).

  lemma {:induction false} MulAtLeast(d: int, m: int)
    requires d >= 1 && m >= 0
    ensures d * m >= m
  {
    if d > 1 {
      MulAtLeast(d - 1, m);
      assert d * m == (d - 1) * m + m;
    }
  }

  lemma ModUnique(a: int, m: int, q: int, r: int)
    requires m > 0 && 0 <= r < m
    requires a == q * m + r
    ensures a % m == r
  {
    var q0, r0 := a / m, a % m;
    assert a == q0 * m + r0;
    assert (q - q0) * m == q * m - q0 * m;
    assert (q0 - q) * m == q0 * m - q * m;
    if q > q0 {
      MulAtLeast(q - q0, m);
    } else if q < q0 {
      MulAtLeast(q0 - q, m);
    }
  }

  lemma ModAddMultiple(x: int, k: int, m: int)
    requires m > 0
    ensures (x + k * m) % m == x % m
  {
    assert x == (x / m) * m + x % m;
    assert x + k * m == (x / m + k) * m + x % m;
    ModUnique(x + k * m, m, x / m + k, x % m);
  }

  /** Reducing a factor first does not change the reduced result. */
  lemma ModMulAdd(k: int, a: int, c: int, m: int)
    requires m > 0
    ensures (k * (a % m) + c) % m == (k * a + c) % m
  {
    var q := a / m;
    assert a == q * m + a % m;
    assert k * a + c == (k * (a % m) + c) + (k * q) * m;
    ModAddMultiple(k * (a % m) + c, k * q, m);
  }

  lemma ModSub(x: int, y: int, m: int)
    requires m > 0
    ensures (x % m + m - y % m) % m == (x - y) % m
  {
    assert x == (x / m) * m + x % m;
    assert y == (y / m) * m + y % m;
    assert x % m + m - y % m == (x - y) + (1 - x / m + y / m) * m;
    ModAddMultiple(x - y, 1 - x / m + y / m, m);
  }

  lemma ModMod(x: int, m: int)
    requires m > 0
    ensures (x % m) % m == x % m
  {
    ModUnique(x % m, m, 0, x % m);
  }

  lemma ModMulRight(a: int, b: int, m: int)
    requires m > 0
    ensures (a * b) % m == ((a % m) * b) % m
  {
    ModMulAdd(b, a, 0, m);
    assert b * (a % m) == (a % m) * b;
    assert b * a == a * b;
  }

  /** One step of the left-to-right hash loop (RollingHash.java:87): folding
      in s[hi] turns the hash of s[lo..hi] into the hash of s[lo..hi+1]. */
  lemma HashStep(s: seq<char>, lo: int, hi: int, m: int)
    requires 0 <= lo <= hi < |s| && m > 0
    ensures (BASE * HashOf(s, lo, hi, m) + Code(s[hi])) % m == HashOf(s, lo, hi + 1, m)
  {
    ModMulAdd(BASE, Horner(s, lo, hi), Code(s[hi]), m);
  }

  /** One step of the loop that folds the rolling constant (RollingHash.java:77). */
  lemma PowStep(e: nat, m: int)
    requires m > 0
    ensures (BASE * (Pow(BASE, e) % m)) % m == Pow(BASE, e + 1) % m
  {
    ModMulAdd(BASE, Pow(BASE, e), 0, m);
  }

  /** Removing the outgoing character (RollingHash.java:144): given the hash
      of s[lo..hi] and a constant congruent to BASE^(hi-lo-1), the update
      yields the hash of s[lo+1..hi]; adding m first keeps the dividend
      non-negative. */
  lemma DropFirst(s: seq<char>, lo: int, hi: int, m: int, constant: int)
    requires 0 <= lo < hi <= |s| && m > 0
    requires constant % m == Pow(BASE, hi - lo - 1) % m
    ensures 0 <= HashOf(s, lo, hi, m) + m - (constant * Code(s[lo])) % m
    ensures (HashOf(s, lo, hi, m) + m - (constant * Code(s[lo])) % m) % m == HashOf(s, lo + 1, hi, m)
  {
    var p := Pow(BASE, hi - lo - 1);
    var out := Code(s[lo]);
    var rest := Horner(s, lo + 1, hi);
    ModMulRight(constant, out, m);
    ModMulRight(p, out, m);
    var removed := (constant * out) % m;
    assert removed == (p * out) % m;
    HornerSplitFirst(s, lo, hi);
    assert Horner(s, lo, hi) == out * p + rest;
    assert out * p == p * out;
    ModSub(Horner(s, lo, hi), p * out, m);
    assert Horner(s, lo, hi) - p * out == rest;
  }

  /** The rolling update (RollingHash.java:144 and :146): given h, the hash of
      the window of width w that starts at i - 1, the two steps (drop s[i-1],
      then shift by the base and add s[i-1+w]) yield the hash of the window of
      width w that starts at i. */
  lemma RollingStep(s: seq<char>, i: int, w: int, m: int, constant: int, base: int, h: int)
    requires 1 <= i && 1 <= w && i - 1 + w < |s| && m > 0 && base == BASE
    requires constant % m == Pow(BASE, w - 1) % m
    requires h == HashOf(s, i - 1, i - 1 + w, m)
    ensures 0 <= h + m - (constant * Code(s[i - 1])) % m
    ensures ((h + m - (constant * Code(s[i - 1])) % m) % m * base + Code(s[i - 1 + w])) % m == HashOf(s, i, i + w, m)
  {
    var lo, hi := i - 1, i - 1 + w;
    DropFirst(s, lo, hi, m, constant);
    var dropped := HashOf(s, lo + 1, hi, m);
    HashStep(s, lo + 1, hi, m);
    assert dropped * BASE == BASE * dropped;
  }
}
