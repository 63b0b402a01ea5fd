/** The class `BoothMethodMultiplication`: the constructor reads the two binary operands and
    fixes the register geometry, `Multiply` builds A, S and P and prints them, and
    `BoothRecursivo` runs the Booth steps, printing each sum and each shifted P.

    Console output is the field `console`: the records printed so far, one per
    `System.out.println`, whose text `Booth.Line` gives. */
module BoothProgram {
  import opened Arith
  import opened JavaInt
  import opened BinaryText
  import opened Booth
  import opened BoothProofs

  class BoothMethodMultiplication {
    const bitsProduct: int
    const multiplicand: Word
    const multiplier: Word
    const totalBits: int
    const halfBit: int

    /** The number of digits of each operand as the user typed it. */
    ghost const multiplicandDigits: nat
    ghost const multiplierDigits: nat

    /** Every line printed so far, oldest first. */
    var console: seq<TraceRecord>

    /** The geometry the constructor sets up, for operands that fit their digit counts and a
        product of at most MAX_PRODUCT_BITS bits (so that totalBits stays below 32). */
    ghost predicate Valid()
    {
      multiplicandDigits >= 1 && multiplierDigits >= 1
      && bitsProduct == multiplierDigits + multiplicandDigits
      && totalBits == bitsProduct * 2 + 1 && totalBits < 32
      && halfBit == bitsProduct + 1
      && multiplicand < Pow2(multiplicandDigits) && multiplier < Pow2(multiplierDigits)
    }

    constructor (multiplicandText: string, multiplierText: string)
      requires IsBinaryString(multiplicandText) && IsBinaryString(multiplierText)
      requires |multiplicandText| + |multiplierText| <= MAX_PRODUCT_BITS
      ensures Valid()
      ensures bitsProduct == |multiplierText| + |multiplicandText|
      ensures totalBits == bitsProduct * 2 + 1 && halfBit == bitsProduct + 1
      ensures ParseBinary(multiplicandText) == Some(multiplicand as nat)
      ensures ParseBinary(multiplierText) == Some(multiplier as nat)
      ensures console == []
    {
      var nBitsMultiplicand := |multiplicandText|;
      var nBitsMultiplier := |multiplierText|;
      var productBits := nBitsMultiplier + nBitsMultiplicand;
      bitsProduct := productBits;
      Pow2ThirtyTwo();
      Pow2Le(nBitsMultiplicand, 32);
      Pow2Le(nBitsMultiplier, 32);
      multiplicand := ParseBinary(multiplicandText).value;
      multiplier := ParseBinary(multiplierText).value;
      multiplicandDigits := nBitsMultiplicand;
      multiplierDigits := nBitsMultiplier;
      totalBits := productBits * 2 + 1;
      halfBit := productBits + 1;
      console := [];
    }

    /** `System.out.println`: the record's text is `Line(record, bitsProduct, totalBits)`. */
    method Println(record: TraceRecord)
      modifies this
      ensures console == old(console) + [record]
    {
      console := console + [record];
    }

    /** Prints A, S and P, then runs the bitsProduct Booth steps. Of what it prints, exactly
        bitsProduct lines are shifted Ps, none is the default case's message, and the last one
        holds multiplicand · multiplier at bits 1 .. bitsProduct and shows it in its middle group. */
    method Multiply()
      requires Valid()
      modifies this
      ensures console == old(console) + MultiplyTrace(multiplicand, multiplier, bitsProduct)
      ensures ShiftCount(console[|old(console)|..]) == bitsProduct
      ensures ErrorMessage !in console[|old(console)|..]
      ensures |console| > |old(console)| + 3 && console[|console| - 1].Register?
      ensures (console[|console| - 1].value / 2) % Pow2(bitsProduct) == multiplicand * multiplier
      ensures Line(console[|console| - 1], bitsProduct, totalBits)
        == ">>1 P: " + (FixedBits(0, bitsProduct) + " " + FixedBits(multiplicand * multiplier, bitsProduct) + " " + "0")
    {
      var A := Shl(multiplicand, halfBit);
      var S := Add(Not(multiplicand), 1);
      S := Shl(S, halfBit);
      var P := Shl(multiplier, 1);

      ghost var before := console;
      Println(Register(LabelA, A));
      ghost var printedA := console;
      Println(Register(LabelS, S));
      ghost var printedS := console;
      Println(Register(LabelP, P));
      ghost var printedP := console;
      BoothRecursivo(bitsProduct, P, A, S);

      MultiplyTraceSplit(multiplicand, multiplier, bitsProduct);
      PrintedInOrder(before, printedA, printedS, printedP, console, Register(LabelA, A), Register(LabelS, S), Register(LabelP, P),
        BoothTrace(bitsProduct, P, A, S, totalBits));
      PrintedSuffix(before, console, MultiplyTrace(multiplicand, multiplier, bitsProduct));
      MultiplyLastLine(multiplicand, multiplier, multiplicandDigits, multiplierDigits, bitsProduct);
      MultiplyShape(multiplicand, multiplier, bitsProduct);
    }

    /** The recursion of the source, as a loop: numberOfOperations steps on P, each printing
        the sum it adds (if any) and the shifted P. */
    method BoothRecursivo(numberOfOperations: int, newPValue: Word, a: Word, s: Word)
      modifies this
      ensures console == old(console) + BoothTrace(numberOfOperations, newPValue, a, s, totalBits)
    {
      var operations := numberOfOperations;
      var p := newPValue;
      while operations > 0
        invariant console + BoothTrace(operations, p, a, s, totalBits)
          == old(console) + BoothTrace(numberOfOperations, newPValue, a, s, totalBits)
        decreases operations
      {
        ghost var before, start := console, p;
        p := AddByRightmostBits(p, a, s);
        p := ShiftRight(p);
        Println(Register(LabelShifted, p));
        PrintedStep(before, console, operations, start, a, s, totalBits,
          old(console) + BoothTrace(numberOfOperations, newPValue, a, s, totalBits));
        operations := operations - 1;
      }
    }

    /** Step 2: the switch on the two rightmost bits of P, printing the sum it forms. The default
        case cannot be reached, since `p & 3` is at most 3. */
    method AddByRightmostBits(newPValue: Word, a: Word, s: Word) returns (p: Word)
      modifies this
      ensures p == AddStep(newPValue, a, s)
      ensures console == old(console) + AdditionTrace(newPValue, a, s)
    {
      p := newPValue;
      var bits := TwoRightmostBitsOf(p);
      if bits == 0 {
      } else if bits == 1 {
        p := Add(p, a);
        Println(Register(LabelPPlusA, p));
      } else if bits == 2 {
        p := Add(p, s);
        Println(Register(LabelPPlusS, p));
      } else if bits == 3 {
      } else {
        assert false;
      }
    }

    /** Step 3: Java's `>> 1`, then the manual copy of the sign into bit totalBits - 1. */
    method ShiftRight(newPValue: Word) returns (p: Word)
      ensures p == ShiftAndCorrect(newPValue, totalBits)
    {
      p := Sar(newPValue, 1);
      var penultimateMostSignificantBit := And(Sar(p, totalBits - 2), 1);
      var mostSignificantBit := And(Sar(p, totalBits - 1), 1);
      if penultimateMostSignificantBit != mostSignificantBit {
        p := Xor(p, Shl(1, totalBits - 1));
      }
    }
  }

  /** One pass of the loop: the console gained the step's trace and P became BoothStep, so the
      step's lines plus those of the remaining operations are still what is left to print. */
  lemma {:induction false} PrintedStep(before: seq<TraceRecord>, after: seq<TraceRecord>, operations: int, p: Word,
                                       a: Word, s: Word, totalBits: int, goal: seq<TraceRecord>)
    requires operations > 0
    requires before + BoothTrace(operations, p, a, s, totalBits) == goal
    requires after == before + AdditionTrace(p, a, s) + [Register(LabelShifted, BoothStep(p, a, s, totalBits))]
    ensures after + BoothTrace(operations - 1, BoothStep(p, a, s, totalBits), a, s, totalBits) == goal
  {
    var rest := BoothTrace(operations - 1, BoothStep(p, a, s, totalBits), a, s, totalBits);
    var step := StepTrace(p, a, s, totalBits);
    assert BoothTrace(operations, p, a, s, totalBits) == step + rest;
    assert after == before + step;
    assert (before + step) + rest == before + (step + rest);
  }

  /** Three records printed one by one and then a trace make up the three records followed by it. */
  lemma {:induction false} PrintedInOrder(c0: seq<TraceRecord>, c1: seq<TraceRecord>, c2: seq<TraceRecord>, c3: seq<TraceRecord>,
                                          c4: seq<TraceRecord>, x: TraceRecord, y: TraceRecord, z: TraceRecord,
                                          rest: seq<TraceRecord>)
    requires c1 == c0 + [x] && c2 == c1 + [y] && c3 == c2 + [z] && c4 == c3 + rest
    ensures c4 == c0 + ([x, y, z] + rest)
  {
    assert c3 == c0 + [x, y, z];
  }

  /** What was printed after `before` is the suffix, and its last record is the console's last. */
  lemma {:induction false} PrintedSuffix(before: seq<TraceRecord>, after: seq<TraceRecord>, t: seq<TraceRecord>)
    requires after == before + t
    ensures after[|before|..] == t && |after| == |before| + |t|
    ensures |t| > 0 ==> after[|after| - 1] == t[|t| - 1]
  {
  }
}
