/** Powers of two and integer division. */
module Arithmetic {
  import opened Primitives

  function Pow2(e: nat): (r: nat)
    ensures r >= 1
  {
    if e == 0 then 1 else 2 * Pow2(e - 1)
  }

  lemma {:induction false} Pow2Monotone(a: nat, b: nat)
    requires a <= b
    ensures Pow2(a) <= Pow2(b)
    decreases b - a
  {
    if a < b {
      Pow2Monotone(a + 1, b);
    }
  }

  lemma {:induction false} Pow2Add(a: nat, b: nat)
    ensures Pow2(a + b) == Pow2(a) * Pow2(b)
    decreases a
  {
    if a > 0 {
      Pow2Add(a - 1, b);
    }
  }

  lemma Pow2At64()
    ensures Pow2(64) == TWO_64
  {
    assert Pow2(4) == 16;
    hide Pow2;
    Pow2Add(4, 4);
    Pow2Add(8, 8);
    Pow2Add(16, 16);
    Pow2Add(32, 32);
  }

  lemma Pow2At256()
    ensures Pow2(256) == TWO_256
  {
    hide Pow2;
    Pow2At64();
    Pow2Add(64, 64);
    Pow2Add(128, 128);
  }

  lemma Scaled(step: nat, a: int, b: int)
    requires a <= b
    ensures step * a <= step * b
  {
  }

  lemma Distribute(m: nat, q: nat, b: nat)
    ensures m * (2 * q + b) == 2 * m * q + m * b
  {
  }

  lemma LeavesRange(m: nat, d: int)
    requires m > 0 && d != 0
    ensures m * d >= m || m * d <= -(m as int)
  {
  }

  /** Quotient and remainder are unique. */
  lemma Quotient(x: nat, m: nat, q: nat, r: nat)
    requires m > 0 && r < m && x == m * q + r
    ensures x / m == q && x % m == r
  {
    var d := x / m - q;
    assert m * d == r - x % m by {
      assert x == m * (x / m) + x % m;
      assert m * (x / m) - m * q == m * d;
    }
    assert -(m as int) < m * d < m;
    assert d == 0 by {
      if d != 0 {
        LeavesRange(m, d);
      }
    }
  }

  lemma Recompose(x: nat, m: nat, y: nat, r: nat, q: nat, b: nat)
    requires x == m * y + r && y == 2 * q + b && b < 2
    ensures x == 2 * m * q + ((if b == 0 then 0 else m) + r)
  {
    Distribute(m, q, b);
    if b == 1 {
      assert m * b == m;
    }
  }

  /** Dividing by 2m is dividing by m and halving; the remainder gains the bit that is halved away. */
  lemma HalveQuotient(x: nat, m: nat)
    requires m > 0
    ensures x / (2 * m) == x / m / 2
    ensures x % (2 * m) == (if x / m % 2 == 0 then 0 else m) + x % m
  {
    var y, r := x / m, x % m;
    var q, b := y / 2, y % 2;
    Recompose(x, m, y, r, q, b);
    Quotient(x, 2 * m, q, (if b == 0 then 0 else m) + r);
  }

  /** Bit `i` of `x`. */
  function Bit(x: nat, i: nat): nat { x / Pow2(i) % 2 }
}
