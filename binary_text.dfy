/** Binary digit strings: reading an operand (the part of `Integer.parseInt(s, 2)` the program
    relies on) and writing a register (`Integer.toBinaryString`, the `%<w>s` width of
    `String.format` and `replace(" ", "0")`). */
module BinaryText {
  import opened Arith

  datatype Option<T> = None | Some(value: T)

  predicate IsBinaryDigit(c: char)
  {
    c == '0' || c == '1'
  }

  /** What an operand must look like: one or more binary digits. */
  predicate IsBinaryString(s: string)
  {
    |s| > 0 && forall i :: 0 <= i < |s| ==> IsBinaryDigit(s[i])
  }

  function DigitValue(c: char): nat
  {
    if c == '1' then 1 else 0
  }

  /** The digit of a bit value 0 or 1. */
  function Digit(b: int): char
  {
    if b == 1 then '1' else '0'
  }

  /** The value of a digit string read most significant digit first. */
  function BinaryValue(s: string): (v: nat)
    ensures v < Pow2(|s|)
  {
    if s == [] then 0 else 2 * BinaryValue(s[..|s| - 1]) + DigitValue(s[|s| - 1])
  }

  /** `Integer.parseInt(s, 2)` on unsigned digit strings; None where it would throw. */
  function ParseBinary(s: string): (r: Option<nat>)
    ensures r.Some? <==> IsBinaryString(s)
    ensures r.Some? ==> r.value < Pow2(|s|)
  {
    if IsBinaryString(s) then Some(BinaryValue(s)) else None
  }

  /** `Integer.toBinaryString(v)` for a non-negative v: the shortest digit string, "0" for zero. */
  function ToBinaryString(v: nat): (s: string)
    ensures IsBinaryString(s)
    ensures s[0] == '1' || s == "0"
  {
    if v < 2 then [Digit(v)] else ToBinaryString(v / 2) + [Digit(v % 2)]
  }

  /** The k low bits of v as digits, most significant first. */
  function FixedBits(v: int, k: nat): (s: string)
    ensures |s| == k
    decreases k
  {
    if k == 0 then [] else FixedBits(v / 2, k - 1) + [Digit(v % 2)]
  }

  function Spaces(n: nat): (s: string)
    ensures |s| == n
  {
    if n == 0 then [] else [' '] + Spaces(n - 1)
  }

  /** `String.format("%" + width + "s", s)`: right-justified, padded with spaces on the left. */
  function FormatWidth(s: string, width: int): string
  {
    if |s| >= width then s else Spaces(width - |s|) + s
  }

  /** `s.replace(" ", "0")`. */
  function ReplaceSpaces(s: string): (r: string)
    ensures |r| == |s|
  {
    if s == [] then [] else [if s[0] == ' ' then '0' else s[0]] + ReplaceSpaces(s[1..])
  }

  lemma {:induction false} BinaryValueSnoc(s: string, c: char)
    ensures BinaryValue(s + [c]) == 2 * BinaryValue(s) + DigitValue(c)
  {
    assert (s + [c])[..|s|] == s;
  }

  /** Reading back the k-digit rendering of v gives the low k bits of v. */
  lemma {:induction false} FixedBitsValue(v: nat, k: nat)
    ensures BinaryValue(FixedBits(v, k)) == v % Pow2(k)
  {
    if k > 0 {
      FixedBitsValue(v / 2, k - 1);
      BinaryValueSnoc(FixedBits(v / 2, k - 1), Digit(v % 2));
      DivModSplit(v, 2, Pow2(k - 1));
    }
  }

  /** An a+b digit rendering is the a digits of the high part followed by the b low digits. */
  lemma {:induction false} FixedBitsSplit(v: nat, a: nat, b: nat)
    ensures FixedBits(v, a + b) == FixedBits(v / Pow2(b), a) + FixedBits(v, b)
  {
    if b > 0 {
      var h := v / 2;
      var d := [Digit(v % 2)];
      FixedBitsSplit(h, a, b - 1);
      assert h / Pow2(b - 1) == v / Pow2(b) by {
        assert Pow2(1) == 2;
        DivPow2Add(v, 1, b - 1);
      }
      var high, low := FixedBits(h / Pow2(b - 1), a), FixedBits(h, b - 1);
      assert FixedBits(v, a + b) == (high + low) + d;
      assert FixedBits(v, b) == low + d;
      assert (high + low) + d == high + (low + d);
    }
  }

  /** The 2n+1 digits of c in three groups: the high n digits, the middle n, the last one. */
  lemma {:induction false} FixedBitsGroups(c: nat, n: nat)
    ensures var d := FixedBits(c, 2 * n + 1);
      d[..n] == FixedBits(c / Pow2(n + 1), n) && d[n..2 * n] == FixedBits(c / 2, n) && d[2 * n] == Digit(c % 2)
  {
    FixedBitsSplit(c, n, n + 1);
    FixedBitsSplit(c, n, 1);
    var hi, mid := FixedBits(c / Pow2(n + 1), n), FixedBits(c / 2, n);
    assert Pow2(1) == 2;
    assert FixedBits(c, 1) == [Digit(c % 2)];
    var d := hi + (mid + [Digit(c % 2)]);
    assert FixedBits(c, 2 * n + 1) == d;
    assert d[..n] == hi && d[n..2 * n] == mid;
  }

  lemma {:induction false} FixedBitsOfZero(k: nat)
    ensures FixedBits(0, k) == ReplaceSpaces(Spaces(k))
  {
    if k > 0 {
      FixedBitsOfZero(k - 1);
      ReplaceSpacesAppend(Spaces(k - 1), [' ']);
      SpacesSnoc(k - 1);
    }
  }

  lemma {:induction false} SpacesSnoc(n: nat)
    ensures Spaces(n + 1) == Spaces(n) + [' ']
  {
    if n > 0 {
      SpacesSnoc(n - 1);
    }
  }

  lemma {:induction false} ReplaceSpacesAppend(s: string, t: string)
    ensures ReplaceSpaces(s + t) == ReplaceSpaces(s) + ReplaceSpaces(t)
  {
    if s != [] {
      ReplaceSpacesAppend(s[1..], t);
      assert (s + t)[1..] == s[1..] + t;
    } else {
      assert s + t == t;
    }
  }

  lemma {:induction false} ToBinaryStringLength(v: nat, k: nat)
    requires k >= 1 && v < Pow2(k)
    ensures |ToBinaryString(v)| <= k
  {
    if v >= 2 {
      ToBinaryStringLength(v / 2, k - 1);
    }
  }

  /** The printed register: `toBinaryString`, padded to `width` with spaces, spaces replaced by
      '0', is exactly the width-digit rendering of every v that fits in width bits. */
  lemma {:induction false} PaddedBinaryIsFixed(v: nat, width: nat)
    requires width >= 1 && v < Pow2(width)
    ensures ReplaceSpaces(FormatWidth(ToBinaryString(v), width)) == FixedBits(v, width)
  {
    if v < 2 {
      PaddedDigit(v, width);
    } else {
      PaddedBinaryIsFixed(v / 2, width - 1);
      PaddedSnoc(v, width);
    }
  }

  /** One digit padded to width: width-1 zeros, then the digit. */
  lemma {:induction false} PaddedDigit(v: nat, width: nat)
    requires width >= 1 && v < 2
    ensures ReplaceSpaces(FormatWidth(ToBinaryString(v), width)) == FixedBits(v, width)
  {
    var d := [Digit(v)];
    assert FormatWidth(ToBinaryString(v), width) == Spaces(width - 1) + d;
    ReplaceSpacesAppend(Spaces(width - 1), d);
    FixedBitsOfZero(width - 1);
    assert FixedBits(v, width) == FixedBits(0, width - 1) + [Digit(v % 2)];
  }

  /** Padding the digits of v is padding those of v / 2 one narrower, then the last digit. */
  lemma {:induction false} PaddedSnoc(v: nat, width: nat)
    requires width >= 1 && v >= 2
    requires ReplaceSpaces(FormatWidth(ToBinaryString(v / 2), width - 1)) == FixedBits(v / 2, width - 1)
    ensures ReplaceSpaces(FormatWidth(ToBinaryString(v), width)) == FixedBits(v, width)
  {
    var s := ToBinaryString(v / 2);
    var d := [Digit(v % 2)];
    assert ToBinaryString(v) == s + d;
    var padded := FormatWidth(s, width - 1);
    assert FormatWidth(s + d, width) == padded + d by {
      if |s| < width - 1 {
        assert Spaces(width - |s + d|) + (s + d) == (Spaces(width - 1 - |s|) + s) + d;
      }
    }
    ReplaceSpacesAppend(padded, d);
    assert ReplaceSpaces(d) == d;
  }

  lemma {:induction false} FixedBitsAreDigits(v: nat, k: nat)
    ensures forall i :: 0 <= i < k ==> IsBinaryDigit(FixedBits(v, k)[i])
  {
    if k > 0 {
      FixedBitsAreDigits(v / 2, k - 1);
      assert FixedBits(v, k) == FixedBits(v / 2, k - 1) + [Digit(v % 2)];
    }
  }

  /** Parsing inverts the fixed-width rendering. */
  lemma {:induction false} ParseFixedBits(v: nat, k: nat)
    requires k >= 1
    ensures ParseBinary(FixedBits(v, k)) == Some(v % Pow2(k))
  {
    FixedBitsAreDigits(v, k);
    FixedBitsValue(v, k);
  }

  /** Parsing inverts `toBinaryString`. */
  lemma {:induction false} ParseToBinaryString(v: nat)
    ensures ParseBinary(ToBinaryString(v)) == Some(v)
  {
    if v >= 2 {
      ParseToBinaryString(v / 2);
      BinaryValueSnoc(ToBinaryString(v / 2), Digit(v % 2));
    }
  }
}
