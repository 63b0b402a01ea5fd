/** Powers of two, bits, and the division/remainder facts the register proofs rest on.
    Dafny's `/` and `%` are Euclidean; every divisor used below is positive, so `/` is floor division. */
module Arith {

  function Pow2(k: nat): (r: nat)
    ensures r >= 1
  {
    if k == 0 then 1 else 2 * Pow2(k - 1)
  }

  /** Bit k of x (bit 0 is the least significant). */
  function Bit(x: int, k: nat): int
  {
    (x / Pow2(k)) % 2
  }

  lemma {:induction false} Pow2Add(a: nat, b: nat)
    ensures Pow2(a + b) == Pow2(a) * Pow2(b)
  {
    if a > 0 {
      Pow2Add(a - 1, b);
      assert Pow2(a + b) == 2 * Pow2(a - 1 + b);
    }
  }

  lemma {:induction false} Pow2Sum(a: nat, b: nat, c: nat)
    requires a + b == c
    ensures Pow2(c) == Pow2(a) * Pow2(b)
  {
    Pow2Add(a, b);
  }

  lemma {:induction false} Pow2Split(total: nat, part: nat)
    requires part <= total
    ensures Pow2(total) == Pow2(total - part) * Pow2(part)
  {
    Pow2Add(total - part, part);
  }

  lemma {:induction false} Pow2Le(a: nat, b: nat)
    requires a <= b
    ensures Pow2(a) <= Pow2(b)
  {
    Pow2Add(a, b - a);
    MulLe(1, Pow2(b - a), Pow2(a));
  }

  lemma {:induction false} MulLe(x: int, y: int, c: int)
    requires x <= y && c >= 0
    ensures x * c <= y * c
  {
  }

  lemma {:induction false} MulLt(x: int, y: int, c: int)
    requires x < y && c > 0
    ensures x * c < y * c
  {
  }

  lemma {:induction false} ProductBelow(a: int, bound: int, c: int, limit: int)
    requires 0 <= a < bound && c > 0 && bound * c <= limit
    ensures 0 <= a * c < limit
  {
    MulLe(0, a, c);
    MulLt(a, bound, c);
  }

  lemma {:induction false} MulStrict(a: int, bound: int, b: int, bound2: int)
    requires 0 <= a < bound && 0 <= b < bound2
    ensures 0 <= a * b < bound * bound2
  {
    MulLe(0, a, b);
    MulLe(b, bound2, bound);
    if b > 0 {
      MulLt(a, bound, b);
    }
  }

  /** q and r are the quotient and remainder of x by d. */
  lemma {:induction false} DivModUnique(x: int, d: int, q: int, r: int)
    requires d > 0 && 0 <= r < d && x == q * d + r
    ensures x / d == q && x % d == r
  {
    var q0, r0 := x / d, x % d;
    assert x == q0 * d + r0;
    assert (q - q0) * d == r0 - r;
    if q0 < q {
      MulLe(1, q - q0, d);
    } else if q < q0 {
      MulLe(1, q0 - q, d);
    }
  }

  lemma {:induction false} SmallMod(x: int, d: int)
    requires 0 <= x < d
    ensures x % d == x
  {
    DivModUnique(x, d, 0, x);
  }

  lemma {:induction false} ModAddMultiple(x: int, k: int, d: int)
    requires d > 0
    ensures (x + k * d) % d == x % d
    ensures (x + k * d) / d == x / d + k
  {
    assert x + k * d == (x / d + k) * d + x % d;
    DivModUnique(x + k * d, d, x / d + k, x % d);
  }

  /** Adding remainders is adding the numbers, modulo d. */
  lemma {:induction false} CongruentAdd(x: int, y: int, d: int)
    requires d > 0
    ensures (x % d + y % d) % d == (x + y) % d
  {
    var qx, rx, qy, ry := x / d, x % d, y / d, y % d;
    assert x + y == (rx + ry) + (qx + qy) * d;
    ModAddMultiple(rx + ry, qx + qy, d);
  }

  /** Splitting a division by a*b into a division by a then by b. */
  lemma {:induction false} DivModSplit(x: int, a: int, b: int)
    requires a > 0 && b > 0
    ensures x / (a * b) == (x / a) / b
    ensures x % (a * b) == x % a + a * ((x / a) % b)
  {
    var q1, r1 := x / a, x % a;
    var q2, r2 := q1 / b, q1 % b;
    assert x == q2 * (a * b) + (a * r2 + r1);
    MulLe(r2, b - 1, a);
    DivModUnique(x, a * b, q2, a * r2 + r1);
  }

  lemma {:induction false} ModMod(x: int, a: int, b: int)
    requires a > 0 && b > 0
    ensures (x % (a * b)) % a == x % a
  {
    DivModSplit(x, a, b);
    var q := (x / a) % b;
    assert x % (a * b) == x % a + q * a;
    ModAddMultiple(x % a, q, a);
    DivModUnique(x % a, a, 0, x % a);
  }

  lemma {:induction false} ModDiv(x: int, a: int, b: int)
    requires a > 0 && b > 0
    ensures (x % (a * b)) / a == (x / a) % b
  {
    DivModSplit(x, a, b);
    var q := (x / a) % b;
    assert x % (a * b) == x % a + q * a;
    ModAddMultiple(x % a, q, a);
    DivModUnique(x % a, a, 0, x % a);
  }

  lemma {:induction false} ModAdd(x: int, y: int, d: int)
    requires d > 0
    ensures (x % d + y) % d == (x + y) % d
  {
    ModAddMultiple(x % d + y, x / d, d);
  }

  /** The low k+1 bits are the low k bits plus bit k. */
  lemma {:induction false} LowSucc(x: int, k: nat)
    ensures x % Pow2(k + 1) == x % Pow2(k) + Pow2(k) * Bit(x, k)
  {
    DivModSplit(x, Pow2(k), 2);
  }

  lemma {:induction false} DivPow2Add(x: int, a: nat, b: nat)
    ensures (x / Pow2(a)) / Pow2(b) == x / Pow2(a + b)
  {
    Pow2Add(a, b);
    DivModSplit(x, Pow2(a), Pow2(b));
  }

  lemma {:induction false} HalfOfDouble(x: int, j: nat)
    ensures (2 * x) / Pow2(j + 1) == x / Pow2(j)
  {
    assert Pow2(1) == 2;
    DivPow2Add(2 * x, 1, j);
    DivModUnique(2 * x, 2, x, 0);
  }

  lemma {:induction false} ModPow2Le(x: int, j: nat, k: nat)
    requires j <= k
    ensures (x % Pow2(k)) % Pow2(j) == x % Pow2(j)
  {
    Pow2Add(j, k - j);
    ModMod(x, Pow2(j), Pow2(k - j));
  }

  /** Bit k of x only depends on the low j bits of x when k < j. */
  lemma {:induction false} BitOfLow(x: int, k: nat, j: nat)
    requires k < j
    ensures Bit(x % Pow2(j), k) == Bit(x, k)
  {
    LowSucc(x, k);
    LowSucc(x % Pow2(j), k);
    ModPow2Le(x, k + 1, j);
    ModPow2Le(x, k, j);
  }

  lemma {:induction false} BitOfHalf(x: int, k: nat)
    ensures Bit(x / 2, k) == Bit(x, k + 1)
  {
    DivPow2Add(x, 1, k);
  }

  /** A multiple of 2^k is zero in its low k bits. */
  lemma {:induction false} ModPow2OfMultiple(c: int, j: nat, k: nat)
    requires j <= k
    ensures (c * Pow2(k)) % Pow2(j) == 0
  {
    Pow2Add(j, k - j);
    MultipleMod(c, Pow2(j), Pow2(k - j));
  }

  lemma {:induction false} MultipleMod(c: int, lo: int, hi: int)
    requires lo > 0
    ensures (c * (lo * hi)) % lo == 0
  {
    assert c * (lo * hi) == (c * hi) * lo;
    DivModUnique((c * hi) * lo, lo, c * hi, 0);
  }
}
