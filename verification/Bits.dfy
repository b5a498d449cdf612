/** Bitwise operations on unsigned machine words, as functions on naturals.

The driver tests for powers of two with `n & (n - 1)`, and indexes its rings with
`seq & (size - 1)`. The lemmas here give both their arithmetic meaning.
 */
module Bits {

  /** Number of values of a 32-bit word. */
  const WORD: nat := 0x1_0000_0000

  function Pow2(k: nat): (r: nat)
    ensures r >= 1
  {
    if k == 0 then 1 else 2 * Pow2(k - 1)
  }

  /** Bitwise AND. */
  function And(a: nat, b: nat): nat
  {
    if a == 0 || b == 0 then 0 else (a % 2) * (b % 2) + 2 * And(a / 2, b / 2)
  }

  ghost predicate IsPow2(n: nat)
  {
    exists k: nat :: n == Pow2(k)
  }

  lemma {:induction false} HalveMod(x: nat, m: nat)
    requires m >= 1
    ensures x % (2 * m) == x % 2 + 2 * (x / 2 % m)
  {
    var q := x / 2 / m;
    assert x / 2 == q * m + x / 2 % m;
    assert x == 2 * m * q + (x % 2 + 2 * (x / 2 % m));
    ModUnique(x, 2 * m, q, x % 2 + 2 * (x / 2 % m));
  }

  /** A quotient and an in-range remainder determine `x % m`. */
  lemma ModUnique(x: int, m: int, q: int, r: int)
    requires 0 <= r < m && x == m * q + r
    ensures x % m == r && x / m == q
  {
    assert m * (x / m - q) == r - x % m;
    MultipleIsFar(m, x / m - q);
  }

  lemma MultipleIsFar(m: int, d: int)
    requires m >= 1
    ensures d >= 1 ==> m * d >= m
    ensures d <= -1 ==> m * d <= -m
  {
  }

  lemma QuotientNat(x: nat, m: nat)
    requires m >= 1
    ensures x / m >= 0
  {
  }

  lemma DivLess(x: nat, m: nat, c: nat)
    requires m >= 1
    ensures x / m < c <==> x < m * c
  {
    MultipleIsFar(m, c - x / m);
    assert m * (c - x / m) == m * c - m * (x / m);
  }

  /** Masking works bit by bit. */
  lemma AndHalve(x: nat, m: nat)
    requires m >= 1
    ensures And(x, 2 * m - 1) == x % 2 + 2 * And(x / 2, m - 1)
  {
    assert (2 * m - 1) / 2 == m - 1 && (2 * m - 1) % 2 == 1;
    if x == 0 { assert And(0, 2 * m - 1) == 0 && And(0, m - 1) == 0; }
  }

  lemma MaskStep(x: nat, m: nat, half: nat)
    requires m >= 1 && half == And(x / 2, m - 1) == x / 2 % m
    ensures And(x, 2 * m - 1) == x % (2 * m)
  {
    HalveMod(x, m);
    AndHalve(x, m);
  }

  /** Masking with `2^k - 1` is reduction modulo `2^k`. */
  lemma {:induction false} AndMask(x: nat, k: nat)
    ensures And(x, Pow2(k) - 1) == x % Pow2(k)
  {
    if k == 0 {
      assert And(x, 0) == 0 == x % 1;
    } else {
      var m := Pow2(k - 1);
      AndMask(x / 2, k - 1);
      MaskStep(x, m, And(x / 2, m - 1));
      assert Pow2(k) == 2 * m;
    }
  }

  /** Indices 0 and 1 of a ring. */
  lemma FirstIndices(k: nat)
    requires 1 <= k <= 31
    ensures And(0, Pow2(k) - 1) == 0 && And(0 + 1, Pow2(k) - 1) == 1 == 1 % Pow2(k) && 1 < Pow2(k)
  {
    RingBelowWord(k);
    AndMask(0, k);
    AndMask(1, k);
    ModUnique(0, Pow2(k), 0, 0);
    ModUnique(1, Pow2(k), 0, 1);
  }

  /** The driver's power-of-two test: for a positive `n` it accepts exactly the powers of two. */
  lemma {:induction false} PowerOfTwoTest(n: nat)
    requires n >= 1
    ensures And(n, n - 1) == 0 <==> IsPow2(n)
    decreases n
  {
    if n == 1 {
      assert n == Pow2(0);
    } else if n % 2 == 0 {
      var h := n / 2;
      PowerOfTwoTest(h);
      assert (n - 1) / 2 == h - 1;
      assert And(n, n - 1) == 2 * And(h, h - 1);
      if IsPow2(h) {
        var k: nat :| h == Pow2(k);
        assert n == Pow2(k + 1);
      }
      if IsPow2(n) {
        var k: nat :| n == Pow2(k);
        assert k > 0 && h == Pow2(k - 1);
      }
    } else {
      AndSelf(n / 2);
      assert (n - 1) / 2 == n / 2;
      assert And(n, n - 1) == 2 * And(n / 2, n / 2) != 0;
      forall k: nat
        ensures n != Pow2(k)
      {
        if k > 0 { assert Pow2(k) == 2 * Pow2(k - 1); }
      }
    }
  }

  lemma {:induction false} AndSelf(n: nat)
    ensures And(n, n) == n
  {
    if n > 0 { AndSelf(n / 2); }
  }

  lemma {:induction false} Pow2Plus(j: nat, k: nat)
    ensures Pow2(j + k) == Pow2(j) * Pow2(k)
  {
    if j > 0 {
      Pow2Plus(j - 1, k);
      assert j + k - 1 == (j - 1) + k;
    }
  }

  lemma Pow2Monotone(j: nat, k: nat)
    requires j <= k
    ensures Pow2(j) <= Pow2(k)
  {
    if j < k { Pow2Monotone(j, k - 1); }
  }

  lemma Pow2Of32()
    ensures Pow2(32) == WORD
  {
    assert Pow2(8) == 0x100 by { assert Pow2(4) == 0x10; }
    Pow2Plus(8, 8);
    assert Pow2(16) == 0x1_0000;
    Pow2Plus(16, 16);
  }

  /** A ring of at most 2^31 slots is shorter than the number space. */
  lemma RingBelowWord(k: nat)
    requires 1 <= k <= 31
    ensures 2 <= Pow2(k) < WORD
  {
    Pow2Monotone(1, k);
    Pow2Monotone(k, 31);
    Pow2Of32();
    assert Pow2(32) == 2 * Pow2(31);
  }

  /** Truncation to a 32-bit word does not disturb a power-of-two ring index. */
  lemma ModOfWord(x: nat, k: nat)
    requires k <= 32
    ensures x % WORD % Pow2(k) == x % Pow2(k)
  {
    Pow2Of32();
    Pow2Plus(k, 32 - k);
    ModMod(x, Pow2(k), Pow2(32 - k));
  }

  lemma ModMod(x: nat, m: nat, c: nat)
    requires m >= 1 && c >= 1
    ensures m * c >= 1 && x % (m * c) % m == x % m
  {
    var q, r := x / (m * c), x % (m * c);
    assert x == m * c * q + r;
    var q', r' := r / m, r % m;
    assert r == m * q' + r';
    assert x == m * (c * q + q') + r' by {
      assert m * c * q == m * (c * q);
    }
    ModUnique(x, m, c * q + q', r');
  }

  /** Adding a multiple of the modulus does not change the residue. */
  lemma ModShift(x: nat, m: nat, c: nat)
    requires m >= 1
    ensures (x + m * c) % m == x % m
  {
    ModUnique(x + m * c, m, x / m + c, x % m);
  }

  /** Two counters less than `m` apart share a residue only if they are equal. */
  lemma ModWindow(x: nat, y: nat, m: nat)
    requires m >= 1 && x <= y < x + m && x % m == y % m
    ensures x == y
  {
    assert y - x == m * (y / m - x / m);
    MultipleIsFar(m, y / m - x / m);
  }

  /** Incrementing after reduction reduces to the incremented counter. */
  lemma ModSucc(x: nat, m: nat)
    requires m >= 1
    ensures (x % m + 1) % m == (x + 1) % m
  {
    if x % m + 1 == m {
      assert x + 1 == m * (x / m + 1);
      ModUnique(x + 1, m, x / m + 1, 0);
      ModUnique(m, m, 1, 0);
    } else {
      ModUnique(x + 1, m, x / m, x % m + 1);
      ModUnique(x % m + 1, m, 0, x % m + 1);
    }
  }
}
