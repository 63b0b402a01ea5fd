/** Java's 32-bit `int`, represented by its bit pattern read as an unsigned number.
    Every operator wraps the way the Java Language Specification says: `+` and `-` modulo 2^32,
    `<<` and `>>` use only the low five bits of the shift distance, `>>` copies the sign bit. */
module JavaInt {
  import opened Arith

  const MODULUS: int := 0x1_0000_0000
  const SIGN_BIT: int := 0x8000_0000

  /** The 32 bits of a Java int, bit 31 being the sign. */
  type Word = x: int | 0 <= x < MODULUS

  lemma {:induction false} Pow2ThirtyTwo()
    ensures Pow2(32) == MODULUS && Pow2(31) == SIGN_BIT
  {
    assert Pow2(2) == 4;
    Pow2Add(2, 2);
    Pow2Add(4, 4);
    Pow2Add(8, 8);
    Pow2Add(16, 15);
    Pow2Add(16, 16);
  }

  /** The narrowing of an unbounded integer to an int: its low 32 bits. */
  function FromInt(x: int): Word
  {
    x % MODULUS
  }

  /** The two's-complement value of a bit pattern. */
  function Signed(w: Word): int
  {
    if w < SIGN_BIT then w else w - MODULUS
  }

  /** Java `a + b`. */
  function Add(a: Word, b: Word): Word
  {
    FromInt(a + b)
  }

  /** Java `a - b`. */
  function Sub(a: Word, b: Word): Word
  {
    FromInt(a - b)
  }

  /** Java `~a`. */
  function Not(a: Word): Word
  {
    MODULUS - 1 - a
  }

  /** Java `a << k`: the distance is taken modulo 32 (its low five bits). */
  function Shl(a: Word, k: int): Word
  {
    FromInt(a * Pow2(k % 32))
  }

  /** Java `a >> k`: the arithmetic shift, rounding the signed value down. */
  function Sar(a: Word, k: int): Word
  {
    FromInt(Signed(a) / Pow2(k % 32))
  }

  function AndNat(a: nat, b: nat): (r: nat)
    ensures r <= a && r <= b
  {
    if a == 0 || b == 0 then 0 else (a % 2) * (b % 2) + 2 * AndNat(a / 2, b / 2)
  }

  function XorNat(a: nat, b: nat): nat
    decreases a + b
  {
    if a == 0 then b
    else if b == 0 then a
    else (a % 2 + b % 2) % 2 + 2 * XorNat(a / 2, b / 2)
  }

  /** Java `a & b`, bit by bit. */
  function And(a: Word, b: Word): Word
  {
    AndNat(a, b)
  }

  /** Java `a ^ b`, bit by bit. */
  function Xor(a: Word, b: Word): Word
  {
    Pow2ThirtyTwo();
    XorBound(a, b, 32);
    XorNat(a, b)
  }

  lemma {:induction false} XorBound(a: nat, b: nat, k: nat)
    requires a < Pow2(k) && b < Pow2(k)
    ensures XorNat(a, b) < Pow2(k)
    decreases k
  {
    if a != 0 && b != 0 {
      XorBound(a / 2, b / 2, k - 1);
    }
  }

  /** `a & (2^k - 1)` keeps exactly the low k bits. */
  lemma {:induction false} AndLowMask(a: nat, k: nat)
    ensures AndNat(a, Pow2(k) - 1) == a % Pow2(k)
  {
    if k == 0 {
      DivModUnique(a, 1, a, 0);
    } else if a == 0 {
      DivModUnique(0, Pow2(k), 0, 0);
    } else {
      AndLowMask(a / 2, k - 1);
      AndLowMaskStep(a, k);
    }
  }

  /** Masking a with k one-bits is keeping its last bit and masking a / 2 with k-1 one-bits. */
  lemma {:induction false} AndLowMaskStep(a: nat, k: nat)
    requires a > 0 && k > 0
    requires AndNat(a / 2, Pow2(k - 1) - 1) == (a / 2) % Pow2(k - 1)
    ensures AndNat(a, Pow2(k) - 1) == a % Pow2(k)
  {
    var half := Pow2(k - 1);
    var mask := Pow2(k) - 1;
    assert mask % 2 == 1 && mask / 2 == half - 1 by {
      DivModUnique(mask, 2, half - 1, 1);
    }
    assert AndNat(a, mask) == a % 2 + 2 * ((a / 2) % half);
    assert a % Pow2(k) == a % 2 + 2 * ((a / 2) % half) by {
      DivModSplit(a, 2, half);
    }
  }

  lemma {:induction false} XorZero(a: nat)
    ensures XorNat(a, 0) == a
  {
  }

  /** `a ^ 2^k` flips bit k and leaves every other bit alone. */
  lemma {:induction false} XorPow2(a: nat, k: nat)
    ensures XorNat(a, Pow2(k)) == if Bit(a, k) == 1 then a - Pow2(k) else a + Pow2(k)
  {
    if a == 0 {
      DivModUnique(0, Pow2(k), 0, 0);
    } else if k == 0 {
      XorOne(a);
    } else {
      XorPow2(a / 2, k - 1);
      XorPow2Step(a, k);
    }
  }

  lemma {:induction false} XorOne(a: nat)
    requires a > 0
    ensures XorNat(a, Pow2(0)) == if Bit(a, 0) == 1 then a - Pow2(0) else a + Pow2(0)
  {
    XorZero(a / 2);
    DivModUnique(a, 1, a, 0);
  }

  /** Flipping bit k of a is flipping bit k-1 of a / 2. */
  lemma {:induction false} XorPow2Step(a: nat, k: nat)
    requires a > 0 && k > 0
    requires XorNat(a / 2, Pow2(k - 1))
      == if Bit(a / 2, k - 1) == 1 then a / 2 - Pow2(k - 1) else a / 2 + Pow2(k - 1)
    ensures XorNat(a, Pow2(k)) == if Bit(a, k) == 1 then a - Pow2(k) else a + Pow2(k)
  {
    var half := Pow2(k - 1);
    DivModUnique(Pow2(k), 2, half, 0);
    XorNatEven(a, Pow2(k));
    BitOfHalf(a, k - 1);
    XorStepArith(a, XorNat(a / 2, half), half, Pow2(k), Bit(a, k));
  }

  /** Xor with an even number keeps the last bit and xors the rest. */
  lemma {:induction false} XorNatEven(a: nat, b: nat)
    requires a > 0 && b > 0 && b % 2 == 0
    ensures XorNat(a, b) == a % 2 + 2 * XorNat(a / 2, b / 2)
  {
  }

  lemma {:induction false} XorStepArith(a: int, y: int, half: int, whole: int, bit: int)
    requires whole == 2 * half && y == if bit == 1 then a / 2 - half else a / 2 + half
    ensures a % 2 + 2 * y == if bit == 1 then a - whole else a + whole
  {
  }

  /** `x ^ (1 << k)` adds or removes 2^k according to bit k of x. */
  lemma {:induction false} XorOneShifted(x: Word, k: nat)
    requires k < 31
    ensures Xor(x, Shl(1, k)) == if Bit(x, k) == 1 then x - Pow2(k) else x + Pow2(k)
  {
    ShlOne(k);
    XorPow2(x, k);
  }

  lemma {:induction false} ShlValue(a: Word, k: nat)
    requires k < 32
    ensures Shl(a, k) == (a * Pow2(k)) % MODULUS
  {
    DivModUnique(k, 32, 0, k);
  }

  /** `a << 1` doubles a, modulo 2^32. */
  lemma {:induction false} ShlByOne(a: Word)
    ensures Shl(a, 1) == (2 * a) % MODULUS
  {
    assert Pow2(1) == 2;
  }

  /** `1 << k` is 2^k (read as a bit pattern) for every distance below 32. */
  lemma {:induction false} ShlOne(k: nat)
    requires k < 32
    ensures Shl(1, k) == Pow2(k)
  {
    Pow2ThirtyTwo();
    Pow2Le(k, 31);
    ShlValue(1, k);
    DivModUnique(Pow2(k), MODULUS, 0, Pow2(k));
  }

  /** Reducing modulo 2^32 does not change the low j bits. */
  lemma {:induction false} FromIntLow(x: int, j: nat)
    requires j <= 32
    ensures FromInt(x) % Pow2(j) == x % Pow2(j)
  {
    Pow2ThirtyTwo();
    ModPow2Le(x, j, 32);
  }

  /** The low j bits of `a >> k` are bits k .. k+j-1 of a, as long as they lie inside the 32 bits. */
  lemma {:induction false} SarLow(a: Word, k: nat, j: nat)
    requires k < 32 && k + j <= 32
    ensures Sar(a, k) % Pow2(j) == (a / Pow2(k)) % Pow2(j)
  {
    var y := Signed(a) / Pow2(k);
    assert Sar(a, k) == FromInt(y) by {
      DivModUnique(k, 32, 0, k);
    }
    FromIntLow(y, j);
    SignedShiftLow(a, k, j);
  }

  /** Below bit 32-k, dividing the signed value by 2^k agrees with dividing the bit pattern. */
  lemma {:induction false} SignedShiftLow(a: Word, k: nat, j: nat)
    requires k < 32 && k + j <= 32
    ensures (Signed(a) / Pow2(k)) % Pow2(j) == (a / Pow2(k)) % Pow2(j)
  {
    var lo, rest := Pow2(j), Pow2(32 - k - j);
    assert Pow2(32 - k) == lo * rest by {
      Pow2Sum(j, 32 - k - j, 32 - k);
    }
    SignedShift(a, k, lo * rest);
    if a >= SIGN_BIT {
      SubMultipleMod(a / Pow2(k), lo, rest);
    }
  }

  lemma {:induction false} SubMultipleDiv(x: int, d: int, h: int)
    requires d > 0
    ensures (x - d * h) / d == x / d - h
  {
    assert x - d * h == x + (-h) * d;
    ModAddMultiple(x, -h, d);
  }

  lemma {:induction false} SubMultipleMod(x: int, d: int, h: int)
    requires d > 0
    ensures (x - d * h) % d == x % d
  {
    assert x - d * h == x + (-h) * d;
    ModAddMultiple(x, -h, d);
  }

  /** Dividing the signed value by 2^k differs from dividing the pattern by 0 or 2^(32-k). */
  lemma {:induction false} SignedShift(a: Word, k: nat, hi: int)
    requires k < 32 && hi == Pow2(32 - k)
    ensures Signed(a) / Pow2(k) == if a < SIGN_BIT then a / Pow2(k) else a / Pow2(k) - hi
  {
    Pow2ThirtyTwo();
    Pow2Add(k, 32 - k);
    var d := Pow2(k);
    assert MODULUS == d * hi;
    if a >= SIGN_BIT {
      SubMultipleDiv(a, d, hi);
    }
  }

  /** `(a >> k) & 1` is bit k of a. */
  lemma {:induction false} SarBit(a: Word, k: nat)
    requires k < 32
    ensures And(Sar(a, k), 1) == Bit(a, k)
  {
    AndLowMask(Sar(a, k), 1);
    SarLow(a, k, 1);
  }

  /** Addition wraps consistently with every window of at most 32 low bits. */
  lemma {:induction false} AddLow(a: Word, b: Word, j: nat)
    requires j <= 32
    ensures Add(a, b) % Pow2(j) == (a % Pow2(j) + b % Pow2(j)) % Pow2(j)
  {
    var d := Pow2(j);
    assert Add(a, b) == FromInt(a + b);
    FromIntLow(a + b, j);
    CongruentAdd(a, b, d);
  }
}
