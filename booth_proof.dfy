/** Why the registers compute the product.

    With n = bitsProduct, T = 2n+1 and the operands m (multiplicand) and r (multiplier), the
    low T bits of P, read as a T-bit two's-complement number, follow Booth's recoding exactly:
    after j steps they hold `Partial(m, r, n, j)`, the multiplier bits not yet scanned shifted
    down, plus m times the signed value of the j bits already scanned, placed at bit n+1-j.
    After n steps that is 2·m·r: the product sits at bits 1 .. n, the right half of P without
    its least significant bit. */
module BoothProofs {
  import opened Arith
  import opened JavaInt
  import opened BinaryText
  import opened Booth

  /** The comparison bit next to bit k of the multiplier (bit k-1; 0 before bit 0). */
  function PrevBit(r: int, k: nat): int
  {
    if k == 0 then 0 else Bit(r, k - 1)
  }

  /** The digit Booth's method recodes bit k of the multiplier into: the comparison bit minus
      bit k, one of -1, 0 and 1. */
  function RecodedDigit(r: int, k: nat): int
  {
    PrevBit(r, k) - Bit(r, k)
  }

  /** The low k bits of r read as a k-bit two's-complement number (0 for no bits). */
  function SignedLow(r: int, k: nat): int
  {
    if k == 0 then 0 else WindowSigned(r, k)
  }

  /** The signed window of P after j of the n steps. */
  function Partial(m: int, r: int, n: nat, j: nat): int
    requires j <= n + 1
  {
    (2 * r) / Pow2(j) + m * Pow2(n + 1 - j) * SignedLow(r, j)
  }

  // ---------------------------------------------------------------- Booth recoding

  /** A k-bit signed reading is the low k-1 bits minus the weight of the sign bit. */
  lemma {:induction false} WindowSignedBits(r: int, k: nat)
    requires k >= 1
    ensures WindowSigned(r, k) == r % Pow2(k - 1) - Bit(r, k - 1) * Pow2(k - 1)
  {
    LowSucc(r, k - 1);
  }

  /** Scanning bit k with comparison bit k-1 adds (bit k-1 - bit k)·2^k to the signed value:
      the digit Booth's method recodes bit k into. */
  lemma {:induction false} SignedLowSucc(r: int, k: nat)
    ensures SignedLow(r, k + 1) == SignedLow(r, k) + RecodedDigit(r, k) * Pow2(k)
  {
    WindowSignedBits(r, k + 1);
    if k > 0 {
      WindowSignedBits(r, k);
      LowSucc(r, k - 1);
      assert SignedLow(r, k + 1) == WindowSigned(r, k + 1) && SignedLow(r, k) == WindowSigned(r, k);
      assert RecodedDigit(r, k) == Bit(r, k - 1) - Bit(r, k);
      assert Pow2(k) == 2 * Pow2(k - 1);
      SignedSuccArith(r % Pow2(k), r % Pow2(k - 1), Bit(r, k), Bit(r, k - 1), Pow2(k - 1), Pow2(k));
    }
  }

  lemma {:induction false} SignedSuccArith(low: int, lowPrev: int, b: int, bp: int, half: int, whole: int)
    requires whole == 2 * half && low == lowPrev + half * bp
    ensures low - b * whole == (lowPrev - bp * half) + (bp - b) * whole
  {
  }

  lemma {:induction false} SignedLowRange(r: int, k: nat)
    ensures -(Pow2(k) as int) <= SignedLow(r, k + 1) <= Pow2(k)
  {
    WindowSignedRange(r, k + 1);
  }

  /** A multiplier below 2^(n-1) is its own n-bit signed reading. */
  lemma {:induction false} SignedLowOfSmall(r: int, n: nat)
    requires n >= 1 && 0 <= r < Pow2(n - 1)
    ensures SignedLow(r, n) == r
  {
    WindowSignedOfInRange(r, n);
  }

  // ---------------------------------------------------------------- the invariant, arithmetically

  /** The two low bits of the shifted-down multiplier are bit j and the comparison bit. */
  lemma {:induction false} HalvedLowBits(r: nat, j: nat)
    ensures ((2 * r) / Pow2(j)) % 4 == 2 * Bit(r, j) + PrevBit(r, j)
  {
    if j == 0 {
      LowBitsOfDouble(r);
    } else {
      LowBitsOfShifted(r, j);
    }
  }

  lemma {:induction false} LowBitsOfDouble(r: nat)
    ensures ((2 * r) / Pow2(0)) % 4 == 2 * Bit(r, 0)
  {
    DivModUnique(2 * r, 1, 2 * r, 0);
    DivModUnique(r, 1, r, 0);
    DivModUnique(2 * r, 2, r, 0);
    LowBitsSplit(2 * r);
  }

  lemma {:induction false} LowBitsOfShifted(r: nat, j: nat)
    requires j >= 1
    ensures ((2 * r) / Pow2(j)) % 4 == 2 * Bit(r, j) + Bit(r, j - 1)
  {
    var x := r / Pow2(j - 1);
    assert (2 * r) / Pow2(j) == x by {
      HalfOfDouble(r, j - 1);
    }
    assert x / 2 == r / Pow2(j) by {
      DivPow2Add(r, j - 1, 1);
      assert Pow2(1) == 2;
    }
    LowBitsSplit(x);
  }

  lemma {:induction false} LowBitsSplit(x: int)
    ensures x % 4 == x % 2 + 2 * ((x / 2) % 2)
  {
    DivModSplit(x, 2, 2);
  }

  /** The two low bits of the window are what the switch looks at: bit j of the multiplier and
      the comparison bit. */
  lemma {:induction false} PartialLowBits(m: int, r: nat, n: nat, j: nat)
    requires j < n
    ensures Partial(m, r, n, j) % 4 == 2 * Bit(r, j) + PrevBit(r, j)
  {
    var f := (2 * r) / Pow2(j);
    var rest := Pow2(n - 1 - j);
    assert Pow2(n + 1 - j) == 4 * rest by {
      Pow2Add(2, n - 1 - j);
      assert Pow2(2) == 4;
    }
    var sl := SignedLow(r, j);
    assert Partial(m, r, n, j) == f + m * Pow2(n + 1 - j) * sl;
    ScaleByFour(m, rest, sl, Pow2(n + 1 - j));
    ModAddMultiple(f, m * rest * sl, 4);
    HalvedLowBits(r, j);
  }

  lemma {:induction false} ScaleByFour(m: int, rest: int, sl: int, big: int)
    requires big == 4 * rest
    ensures m * big * sl == (m * rest * sl) * 4
  {
  }

  /** 0 <= x / d <= x for x >= 0 and d >= 1. */
  lemma {:induction false} DivBelow(x: int, d: int)
    requires x >= 0 && d >= 1
    ensures 0 <= x / d <= x
  {
    assert x == (x / d) * d + x % d;
    if x / d > 0 {
      MulLe(1, d, x / d);
    }
  }

  lemma {:induction false} SumRange(f: int, bound: int, mc: int, sl: int, k: int, limit: int)
    requires 0 <= f < bound && mc >= 0 && -k <= sl <= k && mc * k + bound <= limit
    ensures -limit <= f + mc * sl < limit
  {
    MulLe(sl, k, mc);
    MulLe(-k, sl, mc);
  }

  lemma {:induction false} Regroup(m: int, c: int, sl: int, d: int, w: int, h: int)
    requires h == c * w
    ensures m * c * sl + d * (m * h) == m * c * (sl + d * w)
  {
  }

  lemma {:induction false} MulAssoc(x: int, y: int, z: int)
    ensures (x * y) * z == x * (y * z)
  {
  }

  lemma {:induction false} DoubleFactor(x: int, y: int, z: int)
    ensures x * (2 * y) * z == (x * y * z) * 2
  {
  }

  /** One step in the integers: adding d·m·2^(n+1) (d the Booth digit) stays inside the signed
      range of a T-bit register, and halving the sum gives the next partial value. */
  lemma {:induction false} PartialStep(m: int, r: nat, n: nat, j: nat)
    requires n >= 2 && 0 <= m < Pow2(n - 1) && r < Pow2(n - 1) && j < n
    ensures var x := Partial(m, r, n, j) + RecodedDigit(r, j) * (m * Pow2(n + 1));
      -(Pow2(2 * n) as int) <= x < Pow2(2 * n) && x / 2 == Partial(m, r, n, j + 1)
  {
    var f := (2 * r) / Pow2(j);
    var mc := m * Pow2(n + 1 - j);
    var sl := SignedLow(r, j + 1);
    PartialAddDigit(m, r, n, j);
    PartialSumRange(m, r, n, j);
    PartialSumHalf(m, r, n, j);
  }

  /** Adding the digit's multiple of A to Partial(j) re-weights the scanned bits to j+1 of them. */
  lemma {:induction false} PartialAddDigit(m: int, r: nat, n: nat, j: nat)
    requires j < n
    ensures Partial(m, r, n, j) + RecodedDigit(r, j) * (m * Pow2(n + 1))
      == (2 * r) / Pow2(j) + m * Pow2(n + 1 - j) * SignedLow(r, j + 1)
  {
    var c := Pow2(n + 1 - j);
    var h := Pow2(n + 1);
    var d := RecodedDigit(r, j);
    SignedLowSucc(r, j);
    assert h == c * Pow2(j) by {
      Pow2Split(n + 1, j);
    }
    Regroup(m, c, SignedLow(r, j), d, Pow2(j), h);
  }

  lemma {:induction false} PartialSumRange(m: int, r: nat, n: nat, j: nat)
    requires n >= 2 && 0 <= m < Pow2(n - 1) && r < Pow2(n - 1) && j < n
    ensures var x := (2 * r) / Pow2(j) + m * Pow2(n + 1 - j) * SignedLow(r, j + 1);
      -(Pow2(2 * n) as int) <= x < Pow2(2 * n)
  {
    var f := (2 * r) / Pow2(j);
    var c := Pow2(n + 1 - j);
    var h := Pow2(n + 1);
    assert 0 <= f < Pow2(n) by {
      DivBelow(2 * r, Pow2(j));
      assert Pow2(n) == 2 * Pow2(n - 1);
    }
    SignedLowRange(r, j);
    assert (m * c) * Pow2(j) == m * h by {
      MulAssoc(m, c, Pow2(j));
      Pow2Split(n + 1, j);
    }
    MultiplicandFits(m, n);
    MulLe(0, m, c);
    SumRange(f, Pow2(n), m * c, SignedLow(r, j + 1), Pow2(j), Pow2(2 * n));
  }

  /** m·2^(n+1), the largest multiple of A a step adds, leaves room for the multiplier bits. */
  lemma {:induction false} MultiplicandFits(m: int, n: nat)
    requires n >= 1 && 0 <= m < Pow2(n - 1)
    ensures m * Pow2(n + 1) + Pow2(n) <= Pow2(2 * n)
  {
    Pow2Sum(n - 1, n + 1, 2 * n);
    assert Pow2(n) == 2 * Pow2(n - 1);
    assert Pow2(n + 1) == 2 * Pow2(n);
    FitsArith(m, Pow2(n - 1), Pow2(n + 1), Pow2(2 * n));
  }

  lemma {:induction false} FitsArith(m: int, lo: int, h: int, big: int)
    requires 0 <= m < lo && h == 4 * lo && big == lo * h
    ensures m * h + 2 * lo <= big
  {
    MulLe(m, lo - 1, h);
  }

  lemma {:induction false} PartialSumHalf(m: int, r: nat, n: nat, j: nat)
    requires j < n
    ensures ((2 * r) / Pow2(j) + m * Pow2(n + 1 - j) * SignedLow(r, j + 1)) / 2 == Partial(m, r, n, j + 1)
  {
    var f := (2 * r) / Pow2(j);
    var sl := SignedLow(r, j + 1);
    var k := m * Pow2(n - j) * sl;
    assert m * Pow2(n + 1 - j) * sl == k * 2 by {
      assert Pow2(n + 1 - j) == 2 * Pow2(n - j);
      DoubleFactor(m, Pow2(n - j), sl);
    }
    ModAddMultiple(f, k, 2);
    assert f / 2 == (2 * r) / Pow2(j + 1) by {
      assert Pow2(1) == 2;
      DivPow2Add(2 * r, j, 1);
    }
  }

  /** Before any step the window holds 2r (the multiplier at bit 1). */
  lemma {:induction false} PartialStart(m: int, r: nat, n: nat)
    ensures Partial(m, r, n, 0) == 2 * r
  {
  }

  /** After the n steps the window holds 2·m·r. */
  lemma {:induction false} PartialEnd(m: int, r: nat, n: nat)
    requires n >= 1 && r < Pow2(n - 1)
    ensures Partial(m, r, n, n) == 2 * (m * r)
  {
    assert Pow2(n) == 2 * Pow2(n - 1);
    DivModUnique(2 * r, Pow2(n), 0, 2 * r);
    assert Pow2(1) == 2;
    SignedLowOfSmall(r, n);
  }

  // ---------------------------------------------------------------- the invariant on the registers

  lemma {:induction false} NegCongruent(a: int, s: int, w: int)
    requires w > 0 && (a + s) % w == 0
    ensures s % w == (-a) % w
  {
    CongruentAdd(a + s, -a, w);
    SmallMod((-a) % w, w);
  }

  /** The multiple of A that the case of the switch adds: +1 for 01, -1 (S) for 10, 0 otherwise. */
  function BoothDigit(low2: int): int
  {
    if low2 == 1 then 1 else if low2 == 2 then -1 else 0
  }

  /** The case selected by bit j and the comparison bit adds (bit j-1 - bit j) times A. */
  lemma {:induction false} BoothDigitOfBits(r: int, j: nat)
    ensures BoothDigit(2 * Bit(r, j) + PrevBit(r, j)) == RecodedDigit(r, j)
  {
  }

  /** Step 2 on the window: P, P+A or P+S keeps the low T bits equal to those of v, v+A or v-A,
      d being the digit the two low bits of P select. */
  lemma {:induction false} AddStepWindow(p: Word, a: Word, s: Word, T: nat, v: int, d: int, b: int)
    requires T <= 32 && p % Pow2(T) == v % Pow2(T) && (a + s) % Pow2(T) == 0
    requires d == BoothDigit(p % 4) && b == a
    ensures AddStep(p, a, s) % Pow2(T) == (v + d * b) % Pow2(T)
  {
    var w := Pow2(T);
    AddStepCases(p, a, s);
    if p % 4 == 1 {
      assert d * b == a;
      AddLow(p, a, T);
      CongruentAdd(p, a, w);
      CongruentAdd(v, a, w);
    } else if p % 4 == 2 {
      assert d * b == -(a as int);
      AddLow(p, s, T);
      NegCongruent(a, s, w);
      CongruentAdd(v, -(a as int), w);
    } else {
      assert d * b == 0;
    }
  }

  lemma {:induction false} WindowSignedCongruent(u: int, v: int, T: nat)
    requires T >= 1 && u % Pow2(T) == v % Pow2(T)
    ensures WindowSigned(u, T) == WindowSigned(v, T)
  {
  }

  /** The window read as a signed value is known to be x, and the shift halves it. */
  lemma {:induction false} ShiftHalvesWindow(q: Word, T: nat, x: int)
    requires 2 <= T <= 31 && WindowSigned(q, T) == x
    ensures WindowSigned(ShiftAndCorrect(q, T), T) == x / 2
  {
    ShiftIsArithmetic(q, T);
    ArithShiftRightHalves(q, T);
    SmallMod(ArithShiftRight(q, T), Pow2(T));
    WindowSignedCongruent(ShiftAndCorrect(q, T), ArithShiftRight(q, T), T);
  }

  /** One call of the recursion keeps the invariant: from Partial(j) to Partial(j+1). */
  lemma {:induction false} StepInvariant(m: Word, r: nat, n: nat, j: nat, p: Word)
    requires 2 <= n && 2 * n + 1 < 32 && m < Pow2(n - 1) && r < Pow2(n - 1) && j < n
    requires WindowSigned(p, 2 * n + 1) == Partial(m, r, n, j)
    ensures WindowSigned(BoothStep(p, RegisterA(m, n + 1), RegisterS(m, n + 1), 2 * n + 1), 2 * n + 1)
      == Partial(m, r, n, j + 1)
  {
    var T := 2 * n + 1;
    var q := AddStep(p, RegisterA(m, n + 1), RegisterS(m, n + 1));
    var x := Partial(m, r, n, j) + RecodedDigit(r, j) * (m * Pow2(n + 1));
    AddStepInvariant(m, r, n, j, p);
    PartialStep(m, r, n, j);
    assert WindowSigned(q, T) == x by {
      assert Pow2(T - 1) == Pow2(2 * n);
      WindowSignedOfInRange(x, T);
      WindowSignedCongruent(q, x, T);
    }
    ShiftHalvesWindow(q, T, x);
  }

  /** Step 2 under the invariant: the case the switch picks adds the Booth digit times A. */
  lemma {:induction false} AddStepInvariant(m: Word, r: nat, n: nat, j: nat, p: Word)
    requires 2 <= n && 2 * n + 1 < 32 && m < Pow2(n - 1) && r < Pow2(n - 1) && j < n
    requires WindowSigned(p, 2 * n + 1) == Partial(m, r, n, j)
    ensures AddStep(p, RegisterA(m, n + 1), RegisterS(m, n + 1)) % Pow2(2 * n + 1)
      == (Partial(m, r, n, j) + RecodedDigit(r, j) * (m * Pow2(n + 1))) % Pow2(2 * n + 1)
  {
    WindowLowBits(m, r, n, j, p);
    RegistersOfMultiplicand(m, n);
    AddStepDigit(r, j, p, RegisterA(m, n + 1), RegisterS(m, n + 1), 2 * n + 1, Partial(m, r, n, j), m * Pow2(n + 1));
  }

  /** Whatever value v the low T bits of P agree with, the add step adds the digit Booth's method
      recodes the two low bits into, times A. */
  lemma {:induction false} AddStepDigit(r: nat, j: nat, p: Word, a: Word, s: Word, T: nat, v: int, b: int)
    requires T <= 32 && p % Pow2(T) == v % Pow2(T) && (a + s) % Pow2(T) == 0 && b == a
    requires p % 4 == 2 * Bit(r, j) + PrevBit(r, j)
    ensures AddStep(p, a, s) % Pow2(T) == (v + RecodedDigit(r, j) * b) % Pow2(T)
  {
    BoothDigitOfBits(r, j);
    AddStepWindow(p, a, s, T, v, RecodedDigit(r, j), b);
  }

  /** Under the invariant, P agrees with Partial(j) on the low T bits, and its two low bits are
      bit j of the multiplier and the comparison bit. */
  lemma {:induction false} WindowLowBits(m: Word, r: nat, n: nat, j: nat, p: Word)
    requires 2 <= n && 2 * n + 1 < 32 && j < n
    requires WindowSigned(p, 2 * n + 1) == Partial(m, r, n, j)
    ensures p % Pow2(2 * n + 1) == Partial(m, r, n, j) % Pow2(2 * n + 1)
    ensures p % 4 == 2 * Bit(r, j) + PrevBit(r, j)
  {
    WindowSignedRange(p, 2 * n + 1);
    assert Pow2(2) == 4;
    ModPow2Le(p, 2, 2 * n + 1);
    ModPow2Le(Partial(m, r, n, j), 2, 2 * n + 1);
    PartialLowBits(m, r, n, j);
  }

  /** A holds m·2^(n+1) and S its negation on the T = 2n+1 low bits. */
  lemma {:induction false} RegistersOfMultiplicand(m: Word, n: nat)
    requires 2 <= n && 2 * n + 1 < 32 && m < Pow2(n - 1)
    ensures RegisterA(m, n + 1) == m * Pow2(n + 1)
    ensures (RegisterA(m, n + 1) + RegisterS(m, n + 1)) % Pow2(2 * n + 1) == 0
  {
    RegisterAValue(m, n + 1, n - 1);
    SNegatesA(m, n + 1, 2 * n + 1);
  }

  /** The remaining n-j calls of the recursion take Partial(j) to Partial(n). */
  lemma {:induction false} RecursionInvariant(m: Word, r: nat, n: nat, j: nat, ops: nat, p: Word)
    requires 2 <= n && 2 * n + 1 < 32 && m < Pow2(n - 1) && r < Pow2(n - 1) && j + ops == n
    requires WindowSigned(p, 2 * n + 1) == Partial(m, r, n, j)
    ensures WindowSigned(BoothRec(ops, p, RegisterA(m, n + 1), RegisterS(m, n + 1), 2 * n + 1), 2 * n + 1)
      == Partial(m, r, n, n)
    decreases ops
  {
    if ops > 0 {
      var a, s := RegisterA(m, n + 1), RegisterS(m, n + 1);
      BoothRecUnfold(ops, p, a, s, 2 * n + 1);
      StepInvariant(m, r, n, j, p);
      RecursionInvariant(m, r, n, j + 1, ops - 1, BoothStep(p, a, s, 2 * n + 1));
    }
  }

  lemma {:induction false} BoothRecUnfold(ops: int, p: Word, a: Word, s: Word, T: int)
    requires ops > 0
    ensures BoothRec(ops, p, a, s, T) == BoothRec(ops - 1, BoothStep(p, a, s, T), a, s, T)
  {
  }

  lemma {:induction false} ProductBound(m: nat, r: nat, x: nat, y: nat, n: nat)
    requires m < Pow2(x) && r < Pow2(y) && n == x + y
    ensures 0 <= m * r < Pow2(n)
  {
    Pow2Sum(x, y, n);
    MulStrict(m, Pow2(x), r, Pow2(y));
  }

  /** The product: for an x-bit multiplicand and a y-bit multiplier (x, y >= 1, n = x + y <= 15),
      the final P masked to its window is 2·m·r, bits 1 .. n of it are m·r, and the printed
      line shows the zero high half, m·r in n digits, and a zero comparison bit. */
  lemma {:induction false} BoothProduct(m: Word, r: Word, x: nat, y: nat, n: nat)
    requires x >= 1 && y >= 1 && n == x + y <= MAX_PRODUCT_BITS && m < Pow2(x) && r < Pow2(y)
    ensures var final := BoothRec(n, RegisterP(r), RegisterA(m, n + 1), RegisterS(m, n + 1), 2 * n + 1);
      CleanBits(final, 2 * n + 1) == 2 * (m * r)
      && (final / 2) % Pow2(n) == m * r
      && FormatAndPrint(final, n, 2 * n + 1) == FixedBits(0, n) + " " + FixedBits(m * r, n) + " " + "0"
  {
    var final := BoothRec(n, RegisterP(r), RegisterA(m, n + 1), RegisterS(m, n + 1), 2 * n + 1);
    FinalWindow(m, r, x, y, n);
    ProductBound(m, r, x, y, n);
    MaskedFinal(final, n, m * r);
    ProductBits(final, n, m * r);
    PrintedProduct(final, n, m * r);
  }

  /** After the n calls the signed window of P is 2·m·r. */
  lemma {:induction false} FinalWindow(m: Word, r: Word, x: nat, y: nat, n: nat)
    requires x >= 1 && y >= 1 && n == x + y <= MAX_PRODUCT_BITS && m < Pow2(x) && r < Pow2(y)
    ensures WindowSigned(BoothRec(n, RegisterP(r), RegisterA(m, n + 1), RegisterS(m, n + 1), 2 * n + 1), 2 * n + 1)
      == 2 * (m * r)
  {
    assert m < Pow2(n - 1) && r < Pow2(n - 1) by {
      Pow2Le(x, n - 1);
      Pow2Le(y, n - 1);
    }
    StartWindow(m, r, n);
    RecursionInvariant(m, r, n, 0, n, RegisterP(r));
    PartialEnd(m, r, n);
  }

  /** The window of the initial P is Partial(0) = 2r. */
  lemma {:induction false} StartWindow(m: Word, r: Word, n: nat)
    requires 2 <= n && 2 * n + 1 < 32 && r < Pow2(n - 1)
    ensures WindowSigned(RegisterP(r), 2 * n + 1) == Partial(m, r, n, 0)
  {
    var T := 2 * n + 1;
    RegisterPValue(r, n - 1);
    PartialStart(m, r, n);
    DoubleBelowHalf(r, n);
    WindowSignedOfInRange(2 * r, T);
  }

  lemma {:induction false} DoubleBelowHalf(r: nat, n: nat)
    requires n >= 1 && r < Pow2(n - 1)
    ensures 2 * r < Pow2(2 * n)
  {
    Pow2Le(n, 2 * n);
    assert Pow2(n) == 2 * Pow2(n - 1);
  }

  /** A final P whose signed window is 2·product, product having n bits, is 2·product once masked
      to its window. */
  lemma {:induction false} MaskedFinal(final: Word, n: nat, product: int)
    requires 1 <= n <= MAX_PRODUCT_BITS && 0 <= product < Pow2(n)
    requires WindowSigned(final, 2 * n + 1) == 2 * product
    ensures CleanBits(final, 2 * n + 1) == 2 * product
  {
    var T := 2 * n + 1;
    assert 2 * product < Pow2(n + 1);
    Pow2Le(n + 1, T);
    CleanBitsMasks(final, T);
    WindowSignedRange(final, T);
    SmallMod(2 * product, Pow2(T));
  }

  /** Such a final P holds the product at bits 1 .. n. */
  lemma {:induction false} ProductBits(final: Word, n: nat, product: int)
    requires 1 <= n <= MAX_PRODUCT_BITS && 0 <= product < Pow2(n)
    requires WindowSigned(final, 2 * n + 1) == 2 * product
    ensures (final / 2) % Pow2(n) == product
  {
    var T := 2 * n + 1;
    MaskedFinal(final, n, product);
    CleanBitsMasks(final, T);
    assert Pow2(T) == 2 * Pow2(2 * n);
    ModDiv(final, 2, Pow2(2 * n));
    DivModUnique(2 * product, 2, product, 0);
    ModPow2Le(final / 2, n, 2 * n);
    SmallMod(product, Pow2(n));
  }

  /** Such a final P prints as a zero high group, the product in n digits and a zero comparison bit. */
  lemma {:induction false} PrintedProduct(final: Word, n: nat, product: int)
    requires 1 <= n <= MAX_PRODUCT_BITS && 0 <= product < Pow2(n)
    requires WindowSigned(final, 2 * n + 1) == 2 * product
    ensures FormatAndPrint(final, n, 2 * n + 1) == FixedBits(0, n) + " " + FixedBits(product, n) + " " + "0"
  {
    var T := 2 * n + 1;
    MaskedFinal(final, n, product);
    var c := 2 * product;
    assert c < Pow2(n + 1);
    FormatAndPrintDigits(final, n, T);
    FormatAndPrintGroups(final, n, T);
    DivModUnique(c, Pow2(n + 1), 0, c);
    DivModUnique(c, 2, product, 0);
  }

  /** What `multiply` prints for an x-bit multiplicand and a y-bit multiplier ends with the shifted
      P that holds the product m·r at bits 1 .. n, and that line shows m·r in its middle group. */
  lemma {:induction false} MultiplyLastLine(m: Word, r: Word, x: nat, y: nat, n: nat)
    requires x >= 1 && y >= 1 && n == x + y && 2 * n + 1 < 32 && m < Pow2(x) && r < Pow2(y)
    ensures var t := MultiplyTrace(m, r, n);
      |t| > 3 && t[|t| - 1].Register? && t[|t| - 1].kind == LabelShifted
      && CleanBits(t[|t| - 1].value, 2 * n + 1) == 2 * (m * r)
      && (t[|t| - 1].value / 2) % Pow2(n) == m * r
      && Line(t[|t| - 1], n, 2 * n + 1) == ">>1 P: " + (FixedBits(0, n) + " " + FixedBits(m * r, n) + " " + "0")
  {
    var T := 2 * n + 1;
    var a, s, p := RegisterA(m, n + 1), RegisterS(m, n + 1), RegisterP(r);
    var t := MultiplyTrace(m, r, n);
    var final := BoothRec(n, p, a, s, T);
    assert |t| > 3 && t[|t| - 1] == Register(LabelShifted, final) by {
      MultiplyTraceSplit(m, r, n);
      TraceLast(a, s, p, n);
    }
    BoothProduct(m, r, x, y, n);
  }

  lemma {:induction false} MultiplyTraceSplit(m: Word, r: Word, n: nat)
    ensures MultiplyTrace(m, r, n)
      == [Register(LabelA, RegisterA(m, n + 1)), Register(LabelS, RegisterS(m, n + 1)), Register(LabelP, RegisterP(r))]
        + BoothTrace(n, RegisterP(r), RegisterA(m, n + 1), RegisterS(m, n + 1), 2 * n + 1)
  {
  }

  lemma {:induction false} TraceLast(a: Word, s: Word, p: Word, n: nat)
    requires n >= 1
    ensures var t := [Register(LabelA, a), Register(LabelS, s), Register(LabelP, p)] + BoothTrace(n, p, a, s, 2 * n + 1);
      |t| > 3 && t[|t| - 1] == Register(LabelShifted, BoothRec(n, p, a, s, 2 * n + 1))
  {
    var head := [Register(LabelA, a), Register(LabelS, s), Register(LabelP, p)];
    var rest := BoothTrace(n, p, a, s, 2 * n + 1);
    BoothTraceLast(n, p, a, s, 2 * n + 1);
    assert (head + rest)[|head + rest| - 1] == rest[|rest| - 1];
  }

  /** `multiply` prints exactly bitsProduct shifted-P lines and never the error message. */
  lemma {:induction false} MultiplyShape(m: Word, r: Word, n: nat)
    requires n >= 1
    ensures ShiftCount(MultiplyTrace(m, r, n)) == n
    ensures ErrorMessage !in MultiplyTrace(m, r, n)
  {
    var a, s, p := RegisterA(m, n + 1), RegisterS(m, n + 1), RegisterP(r);
    MultiplyTraceSplit(m, r, n);
    TraceShape(a, s, p, n);
  }

  lemma {:induction false} TraceShape(a: Word, s: Word, p: Word, n: nat)
    requires n >= 1
    ensures var t := [Register(LabelA, a), Register(LabelS, s), Register(LabelP, p)] + BoothTrace(n, p, a, s, 2 * n + 1);
      ShiftCount(t) == n && ErrorMessage !in t
  {
    var head := [Register(LabelA, a), Register(LabelS, s), Register(LabelP, p)];
    var rest := BoothTrace(n, p, a, s, 2 * n + 1);
    BoothTraceShape(n, p, a, s, 2 * n + 1);
    ShiftCountAppend(head, rest);
    HeadShape(a, s, p);
  }

  /** The three lines `multiply` prints first are register lines and none is a shifted P. */
  lemma {:induction false} HeadShape(a: Word, s: Word, p: Word)
    ensures var head := [Register(LabelA, a), Register(LabelS, s), Register(LabelP, p)];
      ShiftCount(head) == 0 && ErrorMessage !in head
  {
    var head := [Register(LabelA, a), Register(LabelS, s), Register(LabelP, p)];
    var tail1, tail2 := [Register(LabelS, s), Register(LabelP, p)], [Register(LabelP, p)];
    assert head[1..] == tail1 && tail1[1..] == tail2 && tail2[1..] == [];
    assert ShiftCount(tail2) == 0;
    assert ShiftCount(tail1) == 0;
  }
}
