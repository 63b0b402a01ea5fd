/** The add-and-shift variant of Booth's method on registers held in Java ints.

    Every register is logically `totalBits` = 2 * bitsProduct + 1 bits wide: the multiplicand
    (or its negation) sits at bit `halfBit` = bitsProduct + 1 of A (or S), the multiplier
    sits at bit 1 of P, and bit 0 of P is the comparison bit. The bits of the int above the
    window are not kept clean: the arithmetic shift and the manual sign correction only
    guarantee the window. */
module Booth {
  import opened Arith
  import opened JavaInt
  import opened BinaryText

  /** Operands whose widths add up to at most this keep `totalBits` <= 31 bits. */
  const MAX_PRODUCT_BITS: nat := 15

  // ---------------------------------------------------------------- registers

  /** A: the multiplicand placed at bit halfBit. */
  function RegisterA(multiplicand: Word, halfBit: int): Word
  {
    Shl(multiplicand, halfBit)
  }

  /** `~multiplicand + 1`, on the whole 32-bit int (not masked to the multiplicand's width). */
  function TwosComplement(multiplicand: Word): Word
  {
    Add(Not(multiplicand), 1)
  }

  /** S: the two's complement of the multiplicand placed at bit halfBit. */
  function RegisterS(multiplicand: Word, halfBit: int): Word
  {
    Shl(TwosComplement(multiplicand), halfBit)
  }

  /** P: the multiplier placed at bit 1, bit 0 being the comparison bit. */
  function RegisterP(multiplier: Word): Word
  {
    Shl(multiplier, 1)
  }

  // ---------------------------------------------------------------- one step

  /** The four cases of the switch on the two rightmost bits of P, and its default. */
  datatype Action = NoAddition | AddA | AddS | FoundError

  function TwoRightmostBitsOf(p: Word): Word
  {
    And(p, 3)
  }

  function Dispatch(bits: Word): Action
  {
    if bits == 0 then NoAddition
    else if bits == 1 then AddA
    else if bits == 2 then AddS
    else if bits == 3 then NoAddition
    else FoundError
  }

  /** Step 2: P, P+A or P+S. The default case only prints a message and leaves P alone. */
  function AddStep(p: Word, a: Word, s: Word): Word
  {
    match Dispatch(TwoRightmostBitsOf(p))
    case AddA => Add(p, a)
    case AddS => Add(p, s)
    case _ => p
  }

  /** Step 3: Java's `p >> 1`, then bit totalBits-1 is flipped when it differs from bit totalBits-2. */
  function ShiftAndCorrect(p: Word, totalBits: int): Word
  {
    var shifted := Sar(p, 1);
    var penultimateMostSignificantBit := And(Sar(shifted, totalBits - 2), 1);
    var mostSignificantBit := And(Sar(shifted, totalBits - 1), 1);
    if penultimateMostSignificantBit != mostSignificantBit then
      Xor(shifted, Shl(1, totalBits - 1))
    else
      shifted
  }

  function BoothStep(p: Word, a: Word, s: Word, totalBits: int): Word
  {
    ShiftAndCorrect(AddStep(p, a, s), totalBits)
  }

  /** The recursion: numberOfOperations more steps on P, with A and S passed along unchanged. */
  function BoothRec(numberOfOperations: int, newPValue: Word, a: Word, s: Word, totalBits: int): Word
    decreases numberOfOperations
  {
    if numberOfOperations <= 0 then newPValue
    else BoothRec(numberOfOperations - 1, BoothStep(newPValue, a, s, totalBits), a, s, totalBits)
  }

  // ---------------------------------------------------------------- the printed trace

  datatype Label = LabelA | LabelS | LabelP | LabelPPlusA | LabelPPlusS | LabelShifted

  /** One printed line: a labelled register, or the default case's "Found an error". */
  datatype TraceRecord = Register(kind: Label, value: Word) | ErrorMessage

  /** What step 2 prints: the sum it formed, the error message in the default case, or nothing. */
  function AdditionTrace(p: Word, a: Word, s: Word): seq<TraceRecord>
  {
    match Dispatch(TwoRightmostBitsOf(p))
    case NoAddition => []
    case AddA => [Register(LabelPPlusA, Add(p, a))]
    case AddS => [Register(LabelPPlusS, Add(p, s))]
    case FoundError => [ErrorMessage]
  }

  /** The lines one step prints: the sum (if any) and the shifted P. */
  function StepTrace(p: Word, a: Word, s: Word, totalBits: int): seq<TraceRecord>
  {
    AdditionTrace(p, a, s) + [Register(LabelShifted, BoothStep(p, a, s, totalBits))]
  }

  function BoothTrace(numberOfOperations: int, newPValue: Word, a: Word, s: Word, totalBits: int): seq<TraceRecord>
    decreases numberOfOperations
  {
    if numberOfOperations <= 0 then []
    else
      StepTrace(newPValue, a, s, totalBits)
        + BoothTrace(numberOfOperations - 1, BoothStep(newPValue, a, s, totalBits), a, s, totalBits)
  }

  /** All that `multiply` prints: A, S and P, then the recursion's lines. */
  function MultiplyTrace(multiplicand: Word, multiplier: Word, bitsProduct: int): seq<TraceRecord>
  {
    var a, s, p := RegisterA(multiplicand, bitsProduct + 1), RegisterS(multiplicand, bitsProduct + 1), RegisterP(multiplier);
    [Register(LabelA, a), Register(LabelS, s), Register(LabelP, p)] + BoothTrace(bitsProduct, p, a, s, bitsProduct * 2 + 1)
  }

  /** The number of shifted-P lines in a trace. */
  function ShiftCount(t: seq<TraceRecord>): nat
  {
    if t == [] then 0
    else (if t[0].Register? && t[0].kind == LabelShifted then 1 else 0) + ShiftCount(t[1..])
  }

  /** The label `multiply` and `boothRecursivo` print in front of a register. */
  function Prefix(kind: Label): string
  {
    match kind
    case LabelA => "    A: "
    case LabelS => "    S: "
    case LabelP => "    P: "
    case LabelPPlusA => "  P+A: "
    case LabelPPlusS => "  P+S: "
    case LabelShifted => ">>1 P: "
  }

  /** The text of one printed line. */
  function Line(t: TraceRecord, bitsProduct: int, totalBits: int): string
    requires 1 <= totalBits <= 31 && totalBits == bitsProduct * 2 + 1
  {
    match t
    case Register(kind, value) => Prefix(kind) + FormatAndPrint(value, bitsProduct, totalBits)
    case ErrorMessage => "Found an error"
  }

  /** The text of a trace, line by line. */
  function Lines(t: seq<TraceRecord>, bitsProduct: int, totalBits: int): (r: seq<string>)
    requires 1 <= totalBits <= 31 && totalBits == bitsProduct * 2 + 1
    ensures |r| == |t|
  {
    if t == [] then [] else Lines(t[..|t| - 1], bitsProduct, totalBits) + [Line(t[|t| - 1], bitsProduct, totalBits)]
  }

  // ---------------------------------------------------------------- display helpers

  /** `bits & ((1 << totalBits) - 1)`. */
  function CleanBits(bits: Word, totalBits: int): Word
  {
    And(bits, Sub(Shl(1, totalBits), 1))
  }

  /** The register as totalBits digits, grouped bitsProduct, bitsProduct and 1 apart by spaces. */
  function FormatAndPrint(value: Word, bitsProduct: int, totalBits: int): (r: string)
    requires 1 <= totalBits <= 31 && totalBits == bitsProduct * 2 + 1
    ensures |r| == totalBits + 2
    ensures r[bitsProduct] == ' ' && r[totalBits] == ' '
  {
    CleanBitsMasks(value, totalBits);
    ToBinaryStringLength(CleanBits(value, totalBits), totalBits);
    Grouped(ReplaceSpaces(FormatWidth(ToBinaryString(CleanBits(value, totalBits)), totalBits)), bitsProduct)
  }

  /** A 2n+1 digit string cut into its high n digits, its middle n digits and its last digit. */
  function Grouped(s: string, n: nat): (r: string)
    requires |s| == 2 * n + 1
    ensures |r| == |s| + 2 && r[n] == ' ' && r[2 * n + 1] == ' '
  {
    s[..n] + " " + s[n..2 * n] + " " + [s[2 * n]]
  }

  // ---------------------------------------------------------------- reference semantics

  /** The value of the low T bits of v read as a T-bit two's-complement number. */
  function WindowSigned(v: int, T: nat): int
    requires T >= 1
  {
    var w := v % Pow2(T);
    if w < Pow2(T - 1) then w else w - Pow2(T)
  }

  /** The arithmetic right shift by one of a true T-bit register holding the low T bits of v. */
  function ArithShiftRight(v: int, T: nat): nat
    requires T >= 1
  {
    (WindowSigned(v, T) / 2) % Pow2(T)
  }

  // ---------------------------------------------------------------- lemmas

  /** The mask is (1 << totalBits) - 1, so cleanBits keeps exactly the window. */
  lemma {:induction false} CleanBitsMasks(bits: Word, totalBits: int)
    requires 0 <= totalBits <= 31
    ensures CleanBits(bits, totalBits) == bits % Pow2(totalBits)
    ensures CleanBits(bits, totalBits) < Pow2(totalBits)
  {
    LowMask(totalBits);
    AndLowMask(bits, totalBits);
  }

  /** `(1 << k) - 1` is k one-bits. */
  lemma {:induction false} LowMask(k: nat)
    requires k <= 31
    ensures Sub(Shl(1, k), 1) == Pow2(k) - 1
  {
    ShlOne(k);
    Pow2ThirtyTwo();
    Pow2Le(k, 31);
    SmallMod(Pow2(k) - 1, MODULUS);
  }

  /** cleanBits agrees with its input on bits 0 .. totalBits-1, clears the rest, and is idempotent. */
  lemma {:induction false} CleanBitsProperties(bits: Word, totalBits: int)
    requires 0 <= totalBits <= 31
    ensures forall k: nat :: k < totalBits ==> Bit(CleanBits(bits, totalBits), k) == Bit(bits, k)
    ensures forall k: nat :: k >= totalBits ==> Bit(CleanBits(bits, totalBits), k) == 0
    ensures CleanBits(CleanBits(bits, totalBits), totalBits) == CleanBits(bits, totalBits)
  {
    var c := CleanBits(bits, totalBits);
    CleanBitsMasks(bits, totalBits);
    CleanBitsMasks(c, totalBits);
    DivModUnique(c, Pow2(totalBits), 0, c);
    forall k: nat | k < totalBits
      ensures Bit(c, k) == Bit(bits, k)
    {
      BitOfLow(bits, k, totalBits);
    }
    forall k: nat | k >= totalBits
      ensures Bit(c, k) == 0
    {
      Pow2Le(totalBits, k);
      DivModUnique(c, Pow2(k), 0, c);
    }
  }

  /** The switch sees p % 4, so one of the four cases always applies and the default never runs. */
  lemma {:induction false} DispatchCases(p: Word)
    ensures TwoRightmostBitsOf(p) == p % 4
    ensures Dispatch(TwoRightmostBitsOf(p)) != FoundError
    ensures Dispatch(TwoRightmostBitsOf(p)) == AddA <==> p % 4 == 1
    ensures Dispatch(TwoRightmostBitsOf(p)) == AddS <==> p % 4 == 2
    ensures Dispatch(TwoRightmostBitsOf(p)) == NoAddition <==> (p % 4 == 0 || p % 4 == 3)
  {
    assert Pow2(2) == 4;
    AndLowMask(p, 2);
  }

  /** Cases 00 and 11 keep P, 01 gives P+A, 10 gives P+S. */
  lemma {:induction false} AddStepCases(p: Word, a: Word, s: Word)
    ensures AddStep(p, a, s) == if p % 4 == 1 then Add(p, a) else if p % 4 == 2 then Add(p, s) else p
  {
    DispatchCases(p);
  }

  /** Java's `p >> 1` moves bits 1 .. T-1 of p to bits 0 .. T-2. */
  lemma {:induction false} SarOneLow(p: Word, T: nat)
    requires 2 <= T <= 31
    ensures Sar(p, 1) % Pow2(T - 1) == (p / 2) % Pow2(T - 1)
    ensures Bit(Sar(p, 1), T - 2) == Bit(p, T - 1)
  {
    var shifted := Sar(p, 1);
    SarLow(p, 1, T - 1);
    assert Pow2(1) == 2;
    BitOfLow(shifted, T - 2, T - 1);
    BitOfLow(p / 2, T - 2, T - 1);
    BitOfHalf(p, T - 2);
  }

  /** `x ^ (1 << k)` flips bit k and keeps the bits below it. */
  lemma {:induction false} FlipBit(x: Word, k: nat)
    requires k < 31
    ensures Xor(x, Shl(1, k)) % Pow2(k) == x % Pow2(k)
    ensures Bit(Xor(x, Shl(1, k)), k) == 1 - Bit(x, k)
  {
    XorOneShifted(x, k);
    FlipArith(x, Pow2(k), Xor(x, Shl(1, k)));
  }

  lemma {:induction false} FlipArith(x: int, q: int, r: int)
    requires q > 0
    requires r == if (x / q) % 2 == 1 then x - q else x + q
    ensures r % q == x % q && (r / q) % 2 == 1 - (x / q) % 2
  {
    if (x / q) % 2 == 1 {
      assert r == x + (-1) * q;
      ModAddMultiple(x, -1, q);
    } else {
      assert r == x + 1 * q;
      ModAddMultiple(x, 1, q);
    }
  }

  /** After the shift and the correction, the low totalBits-1 bits are those of p shifted right by
      one, and bits totalBits-1 and totalBits-2 both equal the old bit totalBits-1 (the sign). */
  lemma {:induction false} ShiftAndCorrectBits(p: Word, totalBits: int)
    requires 2 <= totalBits <= 31
    ensures ShiftAndCorrect(p, totalBits) % Pow2(totalBits - 1) == (p / 2) % Pow2(totalBits - 1)
    ensures Bit(ShiftAndCorrect(p, totalBits), totalBits - 1) == Bit(p, totalBits - 1)
    ensures Bit(ShiftAndCorrect(p, totalBits), totalBits - 2) == Bit(p, totalBits - 1)
  {
    var T := totalBits;
    var shifted := Sar(p, 1);
    SarOneLow(p, T);
    var pen := And(Sar(shifted, T - 2), 1);
    var msb := And(Sar(shifted, T - 1), 1);
    assert pen == Bit(shifted, T - 2) by { SarBit(shifted, T - 2); }
    assert msb == Bit(shifted, T - 1) by { SarBit(shifted, T - 1); }
    var r := ShiftAndCorrect(p, T);
    if pen != msb {
      assert r == Xor(shifted, Shl(1, T - 1));
      FlipBit(shifted, T - 1);
    } else {
      assert r == shifted;
    }
    assert r % Pow2(T - 1) == shifted % Pow2(T - 1);
    assert Bit(r, T - 2) == Bit(shifted, T - 2) by {
      BitOfLow(r, T - 2, T - 1);
      BitOfLow(shifted, T - 2, T - 1);
    }
  }

  /** Bit totalBits-1 of the new P equals bit totalBits-2. */
  lemma {:induction false} ShiftCopiesSignBit(p: Word, totalBits: int)
    requires 2 <= totalBits <= 31
    ensures Bit(ShiftAndCorrect(p, totalBits), totalBits - 1) == Bit(ShiftAndCorrect(p, totalBits), totalBits - 2)
  {
    ShiftAndCorrectBits(p, totalBits);
  }

  /** The window of the corrected shift is the arithmetic shift of a true totalBits-wide register. */
  lemma {:induction false} ShiftIsArithmetic(p: Word, totalBits: int)
    requires 2 <= totalBits <= 31
    ensures ShiftAndCorrect(p, totalBits) % Pow2(totalBits) == ArithShiftRight(p, totalBits)
  {
    ShiftAndCorrectBits(p, totalBits);
    WindowOfShifted(ShiftAndCorrect(p, totalBits), p, totalBits);
  }

  /** Any r whose low T-1 bits are those of p / 2 and whose bit T-1 is that of p holds, in its
      low T bits, the arithmetic shift of p's window. */
  lemma {:induction false} WindowOfShifted(r: int, p: int, T: nat)
    requires T >= 2
    requires r % Pow2(T - 1) == (p / 2) % Pow2(T - 1) && Bit(r, T - 1) == Bit(p, T - 1)
    ensures r % Pow2(T) == ArithShiftRight(p, T)
  {
    var half := Pow2(T - 1);
    var w := p % Pow2(T);
    var b := Bit(p, T - 1);
    assert r % Pow2(T) == (p / 2) % half + half * b by { LowSucc(r, T - 1); }
    assert (p / 2) % half == w / 2 by { ModDiv(p, 2, half); }
    assert w == p % half + half * b by { LowSucc(p, T - 1); }
    assert WindowSigned(p, T) == if w < half then w else w - 2 * half;
    SignedHalfArith(w, half, b, p % half);
  }

  /** Arithmetic core of the shift: halving the signed reading of w = lo + half*b and re-reading
      it in the 2*half window. */
  lemma {:induction false} SignedHalfArith(w: int, half: int, b: int, lo: int)
    requires half >= 1 && (b == 0 || b == 1) && 0 <= lo < half && w == lo + half * b
    ensures ((if w < half then w else w - 2 * half) / 2) % (2 * half) == w / 2 + half * b
  {
    if b == 0 {
      DivModUnique(w / 2, 2 * half, 0, w / 2);
    } else {
      SubMultipleDiv(w, 2, half);
      DivModUnique(w / 2 - half, 2 * half, -1, w / 2 + half);
    }
  }

  /** Bits of the int above the window never influence the window of the next P. */
  lemma {:induction false} ShiftIgnoresHighBits(p: Word, q: Word, totalBits: int)
    requires 2 <= totalBits <= 31
    requires p % Pow2(totalBits) == q % Pow2(totalBits)
    ensures ShiftAndCorrect(p, totalBits) % Pow2(totalBits) == ShiftAndCorrect(q, totalBits) % Pow2(totalBits)
  {
    ShiftIsArithmetic(p, totalBits);
    ShiftIsArithmetic(q, totalBits);
    SameWindowSameShift(p, q, totalBits);
  }

  lemma {:induction false} SameWindowSameShift(p: int, q: int, T: nat)
    requires T >= 1 && p % Pow2(T) == q % Pow2(T)
    ensures ArithShiftRight(p, T) == ArithShiftRight(q, T)
  {
    assert WindowSigned(p, T) == WindowSigned(q, T);
  }

  lemma {:induction false} WindowSignedRange(v: int, T: nat)
    requires T >= 1
    ensures -(Pow2(T - 1) as int) <= WindowSigned(v, T) < Pow2(T - 1)
    ensures WindowSigned(v, T) % Pow2(T) == v % Pow2(T)
  {
    var w := v % Pow2(T);
    if w < Pow2(T - 1) {
      DivModUnique(w, Pow2(T), 0, w);
    } else {
      DivModUnique(w - Pow2(T), Pow2(T), -1, w);
    }
  }

  /** A number in the T-bit signed range is its own T-bit reading. */
  lemma {:induction false} WindowSignedOfInRange(x: int, T: nat)
    requires T >= 1 && -(Pow2(T - 1) as int) <= x < Pow2(T - 1)
    ensures WindowSigned(x, T) == x
  {
    if x >= 0 {
      DivModUnique(x, Pow2(T), 0, x);
    } else {
      DivModUnique(x, Pow2(T), -1, x + Pow2(T));
    }
  }

  /** The reference shift halves the signed value, rounding down. */
  lemma {:induction false} ArithShiftRightHalves(v: int, T: nat)
    requires T >= 2
    ensures WindowSigned(ArithShiftRight(v, T), T) == WindowSigned(v, T) / 2
  {
    var x := WindowSigned(v, T);
    WindowSignedRange(v, T);
    var y := x / 2;
    WindowSignedOfInRange(y, T);
    WindowSignedRange(y, T);
    DivModUnique(y % Pow2(T), Pow2(T), 0, y % Pow2(T));
    assert WindowSigned(y % Pow2(T), T) == WindowSigned(y, T);
  }

  /** The formatted register is the totalBits-digit rendering of cleanBits(value), cut into its
      three groups. */
  lemma {:induction false} FormatAndPrintDigits(value: Word, bitsProduct: int, totalBits: int)
    requires 1 <= totalBits <= 31 && totalBits == bitsProduct * 2 + 1
    ensures var digits := FixedBits(CleanBits(value, totalBits), totalBits);
      FormatAndPrint(value, bitsProduct, totalBits)
        == digits[..bitsProduct] + " " + digits[bitsProduct..totalBits - 1] + " " + [digits[totalBits - 1]]
  {
    var c := CleanBits(value, totalBits);
    CleanBitsMasks(value, totalBits);
    PaddedBinaryIsFixed(c, totalBits);
    assert FormatAndPrint(value, bitsProduct, totalBits) == Grouped(FixedBits(c, totalBits), bitsProduct);
  }

  /** Reading the three printed groups back, spaces dropped, gives cleanBits(value). */
  lemma {:induction false} FormatAndPrintParses(value: Word, bitsProduct: int, totalBits: int)
    requires 1 <= totalBits <= 31 && totalBits == bitsProduct * 2 + 1
    ensures var c := CleanBits(value, totalBits);
      var digits := FixedBits(c, totalBits);
      ParseBinary(digits[..bitsProduct] + digits[bitsProduct..totalBits - 1] + [digits[totalBits - 1]]) == Some(c)
  {
    var c := CleanBits(value, totalBits);
    CleanBitsMasks(value, totalBits);
    var digits := FixedBits(c, totalBits);
    assert digits[..bitsProduct] + digits[bitsProduct..totalBits - 1] + [digits[totalBits - 1]] == digits;
    ParseFixedBits(c, totalBits);
    SmallMod(c, Pow2(totalBits));
  }

  /** The three groups printed are bits 2n..n+1, bits n..1 and bit 0 of cleanBits(value),
      n being bitsProduct. */
  lemma {:induction false} FormatAndPrintGroups(value: Word, bitsProduct: int, totalBits: int)
    requires 1 <= totalBits <= 31 && totalBits == bitsProduct * 2 + 1
    ensures var c := CleanBits(value, totalBits);
      var digits := FixedBits(c, totalBits);
      digits[..bitsProduct] == FixedBits(c / Pow2(bitsProduct + 1), bitsProduct)
      && digits[bitsProduct..totalBits - 1] == FixedBits(c / 2, bitsProduct)
      && digits[totalBits - 1] == Digit(c % 2)
  {
    FixedBitsGroups(CleanBits(value, totalBits), bitsProduct);
  }

  /** S is the two's-complement negation of A in every window of at most 32 bits. */
  lemma {:induction false} SNegatesA(multiplicand: Word, halfBit: int, totalBits: int)
    requires 0 <= halfBit < 32 && 0 <= totalBits <= 32
    ensures (RegisterA(multiplicand, halfBit) + RegisterS(multiplicand, halfBit)) % Pow2(totalBits) == 0
  {
    var m := multiplicand;
    var u := TwosComplement(m);
    var c: int := if m == 0 then 0 else 1;
    assert (u as int) + (m as int) == c * MODULUS by {
      if m == 0 {
        DivModUnique(MODULUS, MODULUS, 1, 0);
      } else {
        DivModUnique(MODULUS - m, MODULUS, 0, MODULUS - m);
      }
    }
    var a := RegisterA(m, halfBit);
    var s := RegisterS(m, halfBit);
    ShlValue(m, halfBit);
    ShlValue(u, halfBit);
    NegationSum(m, u, c, Pow2(halfBit), MODULUS, a, s);
    Pow2ThirtyTwo();
    assert a + s == ((a + s) / MODULUS) * Pow2(32);
    ModPow2OfMultiple((a + s) / MODULUS, totalBits, 32);
  }

  lemma {:induction false} NegationSum(m: int, u: int, c: int, h: int, M: int, a: int, s: int)
    requires M > 0 && u + m == c * M && a == (m * h) % M && s == (u * h) % M
    ensures (a + s) % M == 0
  {
    ModAdd(m * h, s, M);
    ModAdd(u * h, m * h, M);
    assert u * h + m * h == (c * h) * M;
    DivModUnique((c * h) * M, M, c * h, 0);
  }

  /** A is the multiplicand at bit halfBit, with nothing else set, when it fits in the 32 bits. */
  lemma {:induction false} RegisterAValue(multiplicand: Word, halfBit: nat, x: nat)
    requires multiplicand < Pow2(x) && x + halfBit <= 32 && halfBit < 32
    ensures RegisterA(multiplicand, halfBit) == multiplicand * Pow2(halfBit)
  {
    var v := multiplicand * Pow2(halfBit);
    Pow2ThirtyTwo();
    Pow2Add(x, halfBit);
    Pow2Le(x + halfBit, 32);
    ProductBelow(multiplicand, Pow2(x), Pow2(halfBit), MODULUS);
    assert RegisterA(multiplicand, halfBit) == v % MODULUS by {
      ShlValue(multiplicand, halfBit);
    }
    SmallMod(v, MODULUS);
  }

  /** P is the multiplier at bit 1, with bit 0 clear, when it fits in 31 bits. */
  lemma {:induction false} RegisterPValue(multiplier: Word, y: nat)
    requires multiplier < Pow2(y) && y <= 31
    ensures RegisterP(multiplier) == 2 * multiplier
  {
    assert 2 * multiplier < MODULUS by {
      Pow2ThirtyTwo();
      Pow2Le(y, 31);
    }
    ShlByOne(multiplier);
    SmallMod(2 * multiplier, MODULUS);
  }

  /** k steps applied one after the other to p. */
  function Iterate(k: nat, p: Word, a: Word, s: Word, totalBits: int): Word
  {
    if k == 0 then p else BoothStep(Iterate(k - 1, p, a, s, totalBits), a, s, totalBits)
  }

  lemma {:induction false} IterateFirst(k: nat, p: Word, a: Word, s: Word, totalBits: int)
    ensures Iterate(k + 1, p, a, s, totalBits) == Iterate(k, BoothStep(p, a, s, totalBits), a, s, totalBits)
  {
    if k > 0 {
      IterateFirst(k - 1, p, a, s, totalBits);
    }
  }

  /** The recursion performs exactly numberOfOperations steps (none when it is not positive),
      always with the same A and S. */
  lemma {:induction false} BoothRecSteps(numberOfOperations: int, p: Word, a: Word, s: Word, totalBits: int)
    ensures BoothRec(numberOfOperations, p, a, s, totalBits)
      == Iterate(if numberOfOperations <= 0 then 0 else numberOfOperations, p, a, s, totalBits)
    decreases numberOfOperations
  {
    if numberOfOperations > 0 {
      BoothRecSteps(numberOfOperations - 1, BoothStep(p, a, s, totalBits), a, s, totalBits);
      IterateFirst(numberOfOperations - 1, p, a, s, totalBits);
    }
  }

  lemma {:induction false} ShiftCountAppend(t: seq<TraceRecord>, u: seq<TraceRecord>)
    ensures ShiftCount(t + u) == ShiftCount(t) + ShiftCount(u)
  {
    if t == [] {
      assert t + u == u;
    } else {
      ShiftCountAppend(t[1..], u);
      assert (t + u)[1..] == t[1..] + u;
    }
  }

  /** The trace has exactly one shifted-P line per step and never the error line; each step
      prints one or two lines. */
  lemma {:induction false} BoothTraceShape(numberOfOperations: int, p: Word, a: Word, s: Word, totalBits: int)
    ensures ShiftCount(BoothTrace(numberOfOperations, p, a, s, totalBits))
      == if numberOfOperations <= 0 then 0 else numberOfOperations
    ensures ErrorMessage !in BoothTrace(numberOfOperations, p, a, s, totalBits)
    ensures numberOfOperations > 0 ==>
      numberOfOperations <= |BoothTrace(numberOfOperations, p, a, s, totalBits)| <= 2 * numberOfOperations
    decreases numberOfOperations
  {
    if numberOfOperations > 0 {
      var next := BoothStep(p, a, s, totalBits);
      var step := StepTrace(p, a, s, totalBits);
      var rest := BoothTrace(numberOfOperations - 1, next, a, s, totalBits);
      BoothTraceShape(numberOfOperations - 1, next, a, s, totalBits);
      StepTraceShape(p, a, s, totalBits);
      ShiftCountAppend(step, rest);
    }
  }

  /** One step prints one shifted-P line, preceded by at most one sum and never by the error. */
  lemma {:induction false} StepTraceShape(p: Word, a: Word, s: Word, totalBits: int)
    ensures ShiftCount(StepTrace(p, a, s, totalBits)) == 1
    ensures ErrorMessage !in StepTrace(p, a, s, totalBits)
    ensures 1 <= |StepTrace(p, a, s, totalBits)| <= 2
  {
    var step := StepTrace(p, a, s, totalBits);
    DispatchCases(p);
    var addition := step[..|step| - 1];
    assert step == addition + [step[|step| - 1]];
    ShiftCountAppend(addition, [step[|step| - 1]]);
  }

  /** The last line of the trace is the shifted P that the recursion returns. */
  lemma {:induction false} BoothTraceLast(numberOfOperations: int, p: Word, a: Word, s: Word, totalBits: int)
    requires numberOfOperations > 0
    ensures var t := BoothTrace(numberOfOperations, p, a, s, totalBits);
      |t| > 0 && t[|t| - 1] == Register(LabelShifted, BoothRec(numberOfOperations, p, a, s, totalBits))
    decreases numberOfOperations
  {
    var next := BoothStep(p, a, s, totalBits);
    var step := StepTrace(p, a, s, totalBits);
    var rest := BoothTrace(numberOfOperations - 1, next, a, s, totalBits);
    assert BoothTrace(numberOfOperations, p, a, s, totalBits) == step + rest;
    assert BoothRec(numberOfOperations, p, a, s, totalBits) == BoothRec(numberOfOperations - 1, next, a, s, totalBits);
    if numberOfOperations == 1 {
      assert rest == [];
      assert step + rest == step;
      assert step[|step| - 1] == Register(LabelShifted, next);
    } else {
      BoothTraceLast(numberOfOperations - 1, next, a, s, totalBits);
      assert (step + rest)[|step + rest| - 1] == rest[|rest| - 1];
    }
  }

  /** The lines of a trace are printed one record at a time. */
  lemma {:induction false} LinesSnoc(t: seq<TraceRecord>, x: TraceRecord, bitsProduct: int, totalBits: int)
    requires 1 <= totalBits <= 31 && totalBits == bitsProduct * 2 + 1
    ensures Lines(t + [x], bitsProduct, totalBits) == Lines(t, bitsProduct, totalBits) + [Line(x, bitsProduct, totalBits)]
  {
    assert (t + [x])[..|t|] == t;
  }

  lemma {:induction false} LinesAppend(t: seq<TraceRecord>, u: seq<TraceRecord>, bitsProduct: int, totalBits: int)
    requires 1 <= totalBits <= 31 && totalBits == bitsProduct * 2 + 1
    ensures Lines(t + u, bitsProduct, totalBits) == Lines(t, bitsProduct, totalBits) + Lines(u, bitsProduct, totalBits)
    decreases |u|
  {
    if u == [] {
      assert t + u == t;
    } else {
      var init, x := u[..|u| - 1], u[|u| - 1];
      assert u == init + [x];
      assert t + u == (t + init) + [x];
      LinesAppend(t, init, bitsProduct, totalBits);
      LinesSnoc(t + init, x, bitsProduct, totalBits);
      LinesSnoc(init, x, bitsProduct, totalBits);
    }
  }

  /** Line i of a trace is the rendering of record i. */
  lemma {:induction false} LinesIndex(t: seq<TraceRecord>, i: int, bitsProduct: int, totalBits: int)
    requires 1 <= totalBits <= 31 && totalBits == bitsProduct * 2 + 1
    requires 0 <= i < |t|
    ensures Lines(t, bitsProduct, totalBits)[i] == Line(t[i], bitsProduct, totalBits)
    decreases |t|
  {
    if i < |t| - 1 {
      LinesIndex(t[..|t| - 1], i, bitsProduct, totalBits);
    }
  }
}
