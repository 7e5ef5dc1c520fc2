/** Machine-word arithmetic of the C++ sources: 64-bit wrap-around, power-of-two masking, the int32 range. */
module Bits {

  /** One past the largest `uint64_t` / `size_t`. */
  const WORD: nat := 0x1_0000_0000_0000_0000

  type Word = x: nat | x < WORD witness 0

  /** The values of an `int32_t`. */
  predicate IsInt32(n: int) {
    -0x8000_0000 <= n < 0x8000_0000
  }

  function Pow2(k: nat): (r: nat)
    ensures r > 0
  {
    if k == 0 then 1 else 2 * Pow2(k - 1)
  }

  /** A `size_t` capacity: a power of two, as the class templates assert, small enough for the word. */
  ghost predicate IsCapacity(n: nat) {
    exists k: nat :: k <= 63 && n == Pow2(k)
  }

  /** The bitwise AND of two words, one bit at a time. */
  function And(x: nat, y: nat): nat {
    if x == 0 || y == 0 then 0
    else 2 * And(x / 2, y / 2) + (if x % 2 == 1 && y % 2 == 1 then 1 else 0)
  }

  lemma {:induction false} AndAtMost(x: nat, y: nat)
    ensures And(x, y) <= y
  {
    if x != 0 && y != 0 {
      AndAtMost(x / 2, y / 2);
    }
  }

  function Wrap(x: int): Word
  {
    x % WORD
  }

  lemma {:induction false} HalvesModulo(x: nat, m: nat)
    requires m > 0
    ensures x % (2 * m) == 2 * ((x / 2) % m) + x % 2
  {
    var h := x / 2;
    assert x == 2 * h + x % 2;
    assert h == m * (h / m) + h % m;
    var r := 2 * (h % m) + x % 2;
    assert x == (2 * m) * (h / m) + r;
    DivModUnique(x, 2 * m, h / m, r);
  }

  lemma DivModUnique(x: int, d: int, q: int, r: int)
    requires d > 0 && x == d * q + r && 0 <= r < d
    ensures x / d == q && x % d == r
  {
    var q', r' := x / d, x % d;
    assert x == d * q' + r';
    assert d * (q - q') == r' - r;
    if q > q' {
      MulAtLeast(d, q - q');
    } else if q < q' {
      MulAtMost(d, q - q');
    }
  }

  lemma MulAtLeast(d: int, k: int)
    requires d > 0 && k >= 1
    ensures d * k >= d
  {
    assert d * k == d * (k - 1) + d;
  }

  lemma MulAtMost(d: int, k: int)
    requires d > 0 && k <= 0
    ensures d * k <= 0
    ensures k < 0 ==> d * k <= -d
  {
    if k < 0 {
      MulAtLeast(d, -k);
      assert d * k == -(d * -k);
    }
  }

  /** The masking trick every fixed-size structure here relies on: `x & (2^k - 1) == x % 2^k`. */
  lemma {:induction false} MaskIsModulo(x: nat, k: nat)
    ensures And(x, Pow2(k) - 1) == x % Pow2(k)
  {
    if k == 0 {
    } else if x == 0 {
    } else {
      var m := Pow2(k - 1);
      assert (Pow2(k) - 1) / 2 == m - 1;
      MaskIsModulo(x / 2, k - 1);
      HalvesModulo(x, m);
      if m == 1 {
        assert And(x / 2, 0) == 0;
      }
    }
  }

  lemma {:induction false} PowersDivide(j: nat, k: nat)
    requires j <= k
    ensures Pow2(k) % Pow2(j) == 0
    decreases k - j
  {
    if j < k {
      PowersDivide(j, k - 1);
      var d, q := Pow2(j), Pow2(k - 1) / Pow2(j);
      assert Pow2(k - 1) == d * q;
      assert Pow2(k) == d * (2 * q) + 0;
      DivModUnique(Pow2(k), d, 2 * q, 0);
    } else {
      DivModUnique(Pow2(k), Pow2(j), 1, 0);
    }
  }

  lemma WordIsPow2()
    ensures Pow2(64) == WORD
  {
    assert Pow2(8) == 256;
    assert Pow2(16) == 0x1_0000;
    assert Pow2(24) == 0x100_0000;
    assert Pow2(32) == 0x1_0000_0000;
    assert Pow2(40) == 0x100_0000_0000;
    assert Pow2(48) == 0x1_0000_0000_0000;
    assert Pow2(56) == 0x100_0000_0000_0000;
  }

  /** Wrapping an index at 64 bits does not change the slot it is masked to. */
  lemma MaskOfWrapped(x: nat, capacity: nat)
    requires IsCapacity(capacity)
    ensures capacity >= 1
    ensures And(Wrap(x), capacity - 1) == x % capacity
  {
    var k: nat :| k <= 63 && capacity == Pow2(k);
    MaskIsModulo(Wrap(x), k);
    PowersDivide(k, 64);
    WordIsPow2();
    ModOfMod(x, WORD, capacity);
  }

  lemma MaskIsModuloCapacity(x: nat, capacity: nat)
    requires IsCapacity(capacity)
    ensures capacity >= 1
    ensures And(x, capacity - 1) == x % capacity
  {
    var k: nat :| k <= 63 && capacity == Pow2(k);
    MaskIsModulo(x, k);
  }

  lemma ModOfMod(x: nat, big: nat, small: nat)
    requires small > 0 && big > 0 && big % small == 0
    ensures (x % big) % small == x % small
  {
    var q := big / small;
    assert big == small * q;
    var r := x % big;
    assert x == big * (x / big) + r;
    assert r == small * (r / small) + r % small;
    assert big * (x / big) == small * (q * (x / big));
    assert x == small * (q * (x / big) + r / small) + r % small;
    DivModUnique(x, small, q * (x / big) + r / small, r % small);
  }

  /** Unsigned subtraction of wrapped counters recovers a difference that fits the word. */
  lemma WrappedDifference(a: nat, b: nat)
    requires b <= a && a - b < WORD
    ensures Wrap(Wrap(a) - Wrap(b)) == a - b
  {
    var qa, qb := a / WORD, b / WORD;
    assert a == WORD * qa + Wrap(a);
    assert b == WORD * qb + Wrap(b);
    var d := Wrap(a) - Wrap(b);
    assert d == WORD * (qb - qa) + (a - b);
    DivModUnique(d, WORD, qb - qa, a - b);
  }

  lemma WrapSuccessor(a: nat)
    ensures Wrap(Wrap(a) + 1) == Wrap(a + 1)
  {
    var q := a / WORD;
    assert a + 1 == WORD * q + (Wrap(a) + 1);
    if Wrap(a) + 1 < WORD {
      DivModUnique(a + 1, WORD, q, Wrap(a) + 1);
    } else {
      assert a + 1 == WORD * (q + 1) + 0;
      DivModUnique(a + 1, WORD, q + 1, 0);
    }
  }

  /** Two counters less than a capacity apart never share a slot. */
  lemma DistinctSlots(a: nat, b: nat, capacity: nat)
    requires capacity > 0 && a < b < a + capacity
    ensures a % capacity != b % capacity
  {
    if a % capacity == b % capacity {
      var k := b / capacity - a / capacity;
      assert b - a == capacity * (b / capacity) - capacity * (a / capacity) == capacity * k;
      if k >= 1 {
        MulAtLeast(capacity, k);
      } else {
        MulAtMost(capacity, k);
      }
    }
  }

  /** Adding to a wrapped sum. */
  lemma AddWrapped(a: nat, d: nat)
    ensures Wrap(Wrap(a) + d) == Wrap(a + d)
  {
    var q := a / WORD;
    assert a == WORD * q + Wrap(a);
    var x := Wrap(a) + d;
    assert x == WORD * (x / WORD) + Wrap(x);
    assert a + d == WORD * (q + x / WORD) + Wrap(x);
    DivModUnique(a + d, WORD, q + x / WORD, Wrap(x));
  }
}
