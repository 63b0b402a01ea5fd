# Booth's method, add-and-shift variant

A Dafny model of `BoothMethodMultiplication`, a console program that multiplies two unsigned
binary numbers with a variant of Booth's method and prints every step. Everything happens on
Java `int`s.

- **Constructor.** It reads the two operands as binary strings of x and y digits. It fixes
  three sizes: `bitsProduct` = x+y, `totalBits` = 2·bitsProduct+1 and
  `halfBit` = bitsProduct+1.
- **`multiply`.** It builds three registers of `totalBits` bits each:
  - A is the multiplicand shifted to `halfBit`.
  - S is `~multiplicand + 1` shifted to `halfBit`.
  - P is the multiplier shifted to bit 1.

  It prints the three registers, then calls `boothRecursivo`.
- **`boothRecursivo`.** It performs `bitsProduct` steps. Each step:
  1. Looks at the two low bits of P and adds A or S (or nothing).
  2. Shifts P right with Java's `>>`.
  3. Repairs the sign bit of the `totalBits`-bit window with an XOR.
  4. Prints the new P.
- **`formatAndPrint`.** It prints a register as three digit groups: the high `bitsProduct`
  bits, the low `bitsProduct` bits above bit 0, and bit 0. The product is the middle group
  of the last P.

The model is laid out as follows:

- `JavaInt` (java_int.dfy) models a Java `int` as its 32-bit pattern, called `Word`.
  - `+` wraps modulo 2^32.
  - `<<` and `>>` take the shift distance modulo 32.
  - `>>` is arithmetic: it rounds the signed value down.
  - `&` and `^` are bitwise operations, defined bit by bit.
- `BinaryText` (binary_text.dfy) models the parts of `Integer.parseInt(s, 2)`,
  `Integer.toBinaryString`, `String.format("%<w>s", …)` and `replace(" ", "0")` that the
  program uses.
- `Booth` (booth.dfy) holds the pure functions:
  - the registers and one step;
  - the recursion (`BoothRec`) and the trace of records it prints (`BoothTrace`,
    `MultiplyTrace`);
  - `cleanBits`, `formatAndPrint` and the text of each printed line (`Line`, `Lines`).
- `BoothProofs` (booth_proof.dfy) proves the method correct. It reads the low `totalBits`
  bits of P as a signed number. After j steps that number equals Booth's recoding of the
  first j multiplier bits times the multiplicand, placed at bit n+1-j, plus the multiplier
  bits not yet scanned. After all n steps it equals 2·m·r, so bits 1..n of the final P are
  the product.
- `BoothProgram` (booth_program.dfy) is the class itself. It has the five fields of the Java
  class, the constructor, `Multiply` and `BoothRecursivo`. Step 2 is the method
  `AddByRightmostBits` and step 3 is the method `ShiftRight`. The console is a field
  holding the sequence of records printed so far. The text of each record is `Booth.Line`.
  Each method is proved to print exactly what the corresponding trace function says.

## Model

| member | source | states |
|---|---|---|
| BoothProgram.BoothMethodMultiplication.constructor | BoothMethodMultiplication.java:49-58 | `bitsProduct` is the total digit count of the two operands. `totalBits` = 2·bitsProduct+1 and `halfBit` = bitsProduct+1. Each operand field holds the value `Integer.parseInt(·, 2)` reads from its string. Nothing has been printed yet. |
| BoothProgram.BoothMethodMultiplication.Multiply | BoothMethodMultiplication.java:64-75 | It prints exactly `MultiplyTrace`: A, S, P, then the recursion's lines. Of these lines, exactly `bitsProduct` are shifted Ps and none is "Found an error". The last line is a shifted P whose bits 1..bitsProduct hold multiplicand·multiplier. Its text is `>>1 P: `, then bitsProduct zeros, then the product in bitsProduct digits, then `0`. |
| BoothProgram.BoothMethodMultiplication.BoothRecursivo | BoothMethodMultiplication.java:87-126 | For any count and any register values, it appends exactly `BoothTrace(numberOfOperations, newPValue, a, s, totalBits)` to the console. A and S are passed along unchanged, and the base case `numberOfOperations <= 0` prints nothing. |
| BoothProgram.BoothMethodMultiplication.AddByRightmostBits | BoothMethodMultiplication.java:91-107 | Step 2: the new P is `AddStep` (P+A for bits 01, P+S for 10, P otherwise). The method prints the sum it formed, and nothing in cases 00 and 11. |
| BoothProgram.BoothMethodMultiplication.ShiftRight | BoothMethodMultiplication.java:109-120 | Step 3: the result is Java's `p >> 1`, with bit totalBits-1 flipped when it differs from bit totalBits-2 (`ShiftAndCorrect`). |
| BoothProgram.BoothMethodMultiplication.Println | BoothMethodMultiplication.java:123 | `System.out.println` appends one record to the console and changes nothing else. |
| BoothProgram.PrintedStep | BoothMethodMultiplication.java:123-125 | After one step has printed its lines, what is left to print is the trace of the remaining `numberOfOperations - 1` steps from the new P. |
| Booth.DispatchCases | BoothMethodMultiplication.java:92-107 | `twoRightmostBitsOf(p)` is p mod 4. The switch adds A exactly for 01 and adds S exactly for 10. It does nothing exactly for 00 and 11, and it never reaches the default case. |
| Booth.AddStepCases | BoothMethodMultiplication.java:92-104 | Step 2 is P+A when P mod 4 is 1, P+S when it is 2, and P otherwise. |
| Booth.CleanBitsMasks | BoothMethodMultiplication.java:137-140 | `bits & ((1 << totalBits) - 1)` is `bits mod 2^totalBits`, which is below 2^totalBits. |
| Booth.CleanBitsProperties | BoothMethodMultiplication.java:137-140 | `cleanBits` keeps every bit below totalBits, clears every bit from totalBits up, and is idempotent. |
| Booth.SarOneLow | BoothMethodMultiplication.java:109 | Below bit totalBits-1, `p >> 1` holds the bits of p/2. Bit totalBits-2 of the shifted value is the old bit totalBits-1. |
| Booth.FlipBit | BoothMethodMultiplication.java:119-120 | `x ^ (1 << k)` flips bit k of x and keeps the bits below it. |
| Booth.ShiftAndCorrectBits | BoothMethodMultiplication.java:109-120 | After the shift and the correction: the low totalBits-1 bits are those of p/2, and the two top window bits are both copies of p's old sign bit totalBits-1. |
| Booth.ShiftCopiesSignBit | BoothMethodMultiplication.java:25-26 | The bit that comes in at the top of the window equals its neighbour. |
| Booth.ShiftIsArithmetic | BoothMethodMultiplication.java:109-120 | Within the totalBits window, the shift and correction are exactly the arithmetic right shift of a totalBits-bit register, whatever the bits above the window hold. |
| Booth.ShiftIgnoresHighBits | BoothMethodMultiplication.java:111-120 | Two Ps that agree on the window still agree on it after the shift and correction. |
| Booth.ArithShiftRightHalves | BoothMethodMultiplication.java:25-26 | That arithmetic shift halves the window's signed value, rounding down. |
| Booth.SNegatesA | BoothMethodMultiplication.java:65-67 | A + S ≡ 0 modulo 2^totalBits, although S is the complement of the whole 32-bit int and is not masked. |
| Booth.RegisterAValue | BoothMethodMultiplication.java:65 | For an x-bit multiplicand with x + halfBit ≤ 32, A is multiplicand·2^halfBit, with no overflow. |
| Booth.RegisterPValue | BoothMethodMultiplication.java:68 | P is 2·multiplier, with no overflow. |
| Booth.BoothRecSteps | BoothMethodMultiplication.java:87-125 | The recursion applies exactly max(numberOfOperations, 0) steps to P. A and S stay fixed. |
| Booth.BoothTraceShape | BoothMethodMultiplication.java:87-126 | The recursion prints exactly numberOfOperations shifted Ps and never "Found an error". It prints between 1 and 2 lines per step. |
| Booth.StepTraceShape | BoothMethodMultiplication.java:91-123 | One step prints one shifted P, preceded by at most one sum line. |
| Booth.BoothTraceLast | BoothMethodMultiplication.java:123-125 | The last line the recursion prints is the shifted P it ends with. |
| Booth.ShiftCountAppend | BoothMethodMultiplication.java:70-73 | Counting shifted-P lines adds up over consecutive parts of the output. |
| Booth.FormatAndPrintDigits | BoothMethodMultiplication.java:157-161 | The printed register is its totalBits low bits as zero-padded digits, split into groups of bitsProduct, bitsProduct and 1 digits by two spaces. |
| Booth.FormatAndPrintGroups | BoothMethodMultiplication.java:157-161 | The three groups are the bits from halfBit up, bits 1..bitsProduct, and bit 0 of the cleaned register. |
| Booth.FormatAndPrintParses | BoothMethodMultiplication.java:157-161 | Reading the three groups back, without the spaces, as one binary number gives `cleanBits(value)`. |
| Booth.LinesSnoc | BoothMethodMultiplication.java:70-72 | Printing one more record adds exactly its line to the text. |
| Booth.LinesAppend | BoothMethodMultiplication.java:70-73 | The text of consecutive parts of the output concatenates. |
| Booth.LinesIndex | BoothMethodMultiplication.java:97-123 | Line i of the text is the text of record i. |
| BinaryText.ParseBinary | BoothMethodMultiplication.java:54-55 | Reading succeeds exactly on non-empty strings of binary digits, with a value below 2^length. |
| BinaryText.ToBinaryString | BoothMethodMultiplication.java:158 | `Integer.toBinaryString` gives binary digits with no leading zero. |
| BinaryText.ParseToBinaryString | BoothMethodMultiplication.java:158 | Reading back `toBinaryString(v)` gives v. |
| BinaryText.PaddedBinaryIsFixed | BoothMethodMultiplication.java:158 | Right-justifying `toBinaryString(v)` to the width and replacing the spaces by zeros gives exactly the width low bits of v, zero-padded. |
| BinaryText.ParseFixedBits | BoothMethodMultiplication.java:158 | Reading back the k zero-padded digits of v gives v mod 2^k. |
| JavaInt.XorOneShifted | BoothMethodMultiplication.java:120 | `x ^ (1 << k)` subtracts 2^k when bit k of x is set and adds 2^k otherwise. |
| JavaInt.SarBit | BoothMethodMultiplication.java:117-118 | `(p >> k) & 1` is bit k of p. |
| JavaInt.ShlOne | BoothMethodMultiplication.java:138 | `1 << k` is 2^k for every k below 32. |
| JavaInt.AddLow | BoothMethodMultiplication.java:96-100 | Java's wrapping `+` agrees with addition modulo 2^j on the low j ≤ 32 bits. |
| BoothProofs.StepInvariant | BoothMethodMultiplication.java:91-120 | One step takes the window's signed value from `Partial(j)` to `Partial(j+1)`. This is Booth's recoding digit times the multiplicand at bit n+1, followed by a halving. |
| BoothProofs.AddStepInvariant | BoothMethodMultiplication.java:92-104 | Step 2 adds Booth's recoding digit of multiplier bit j times A to the window. |
| BoothProofs.RecursionInvariant | BoothMethodMultiplication.java:87-126 | From `Partial(j)`, the remaining n-j steps reach `Partial(n)`. |
| BoothProofs.PartialEnd | BoothMethodMultiplication.java:27-28 | After all steps, the reference value is 2·m·r. |
| BoothProofs.FinalWindow | BoothMethodMultiplication.java:27-29 | For x- and y-digit operands, the final P read as a signed totalBits-bit number is exactly 2·multiplicand·multiplier. |
| BoothProofs.MaskedFinal | BoothMethodMultiplication.java:137-140 | `cleanBits` of the final P is 2·product. |
| BoothProofs.ProductBits | BoothMethodMultiplication.java:28-29 | Bits 1..n of the final P are the product. |
| BoothProofs.PrintedProduct | BoothMethodMultiplication.java:157-161 | The final P prints as n zeros, the product in n digits, then `0`. |
| BoothProofs.BoothProduct | BoothMethodMultiplication.java:12-29 | The algorithm computes the product: `cleanBits(final P)` is 2·m·r, bits 1..n are m·r, and the printed P shows m·r as its middle group. |
| BoothProofs.MultiplyLastLine | BoothMethodMultiplication.java:64-73 | The last record `multiply` prints is a shifted P carrying the product. Its text is `>>1 P: ` followed by the groups above. |
| BoothProofs.MultiplyShape | BoothMethodMultiplication.java:64-73 | `multiply` prints exactly bitsProduct shifted Ps and never "Found an error". |

## Left out

- `main`, the `Scanner` and the prompts (lines 166-180) are console input and output. The
  class is modelled from the constructor on.
- Printing is modelled as appending a record to `console`. The exact text is the function
  `Booth.Line` (prefix plus `formatAndPrint`), and the lemmas above relate the two. Writing
  to the real stream is not modelled.
- `Integer.parseInt` is modelled only on non-empty strings of `0`/`1` digits. Sign
  characters and the `NumberFormatException` thrown on malformed input are left out: the
  constructor requires digit strings.
- BoothProgram.BoothMethodMultiplication.constructor requires the two operands to have at
  most 15 digits together, so that `totalBits` stays below 32. With 16 or more digits the
  registers no longer fit in an `int`, and `1 << totalBits` wraps, so the printed lines lose
  their meaning. That behaviour is not modelled.
- Leading zeros in the operands are kept, as the program keeps them: they count towards x
  and y.
- BoothProgram.BoothMethodMultiplication.AddByRightmostBits: the `default` branch of the
  switch is written as an unreachable branch. The method cannot print "Found an error",
  because `p & 3` is at most 3 (`Booth.DispatchCases`). The trace function `AdditionTrace`
  still has a case for it.
- BoothProgram.BoothMethodMultiplication.BoothRecursivo: the tail recursion is a `while`
  loop over the same arguments.
- The algorithm comment (step 1.4) says the outer bits of S are filled with zeros. The code
  does not mask S, so above the window S holds the ones of the 32-bit complement. The model
  follows the code. `Booth.SNegatesA` and `Booth.ShiftIgnoresHighBits` show that those bits
  never reach the `totalBits` window.
