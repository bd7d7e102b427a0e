/** One step of division by the CRC-32 generator over the two-element field. */
module Crc32Step {

  /** The reflected generator polynomial, x^32 itself left out. */
  const POLYNOMIAL: bv32 := 0xedb88320

  /** Divides one more bit: the low end of the register holds the highest power. */
  function BitStep(x: bv32): bv32 {
    if x & 1 == 1 then (x >> 1) ^ POLYNOMIAL else x >> 1
  }

  function Steps8(x: bv32): bv32 {
    BitStep(BitStep(BitStep(BitStep(BitStep(BitStep(BitStep(BitStep(x))))))))
  }

  /** Addition of polynomials. */
  function Xor(x: bv32, y: bv32): bv32 {
    x ^ y
  }

  function Complement(x: bv32): bv32 {
    !x
  }

  lemma XorAssociates(x: bv32, y: bv32, z: bv32)
    ensures Xor(Xor(x, y), z) == Xor(x, Xor(y, z))
  {
  }

  lemma XorCommutes(x: bv32, y: bv32)
    ensures Xor(x, y) == Xor(y, x)
  {
  }

  lemma XorZero(x: bv32)
    ensures Xor(x, 0) == x
  {
  }

  lemma XorSwap(a: bv32, b: bv32, c: bv32, d: bv32)
    ensures Xor(Xor(a, b), Xor(c, d)) == Xor(Xor(a, c), Xor(b, d))
  {
    hide Xor;
    XorAssociates(a, b, Xor(c, d));
    XorAssociates(b, c, d);
    XorCommutes(b, c);
    XorAssociates(c, b, d);
    XorAssociates(a, c, Xor(b, d));
  }

  lemma SumOfOdd(x: bv32, y: bv32)
    requires x & 1 == 1 && y & 1 == 1
    ensures BitStep(x ^ y) == BitStep(x) ^ BitStep(y)
  {
  }

  lemma SumOfOddAndEven(x: bv32, y: bv32)
    requires x & 1 == 1 && y & 1 == 0
    ensures BitStep(x ^ y) == BitStep(x) ^ BitStep(y)
  {
  }

  lemma SumOfEven(x: bv32, y: bv32)
    requires x & 1 == 0 && y & 1 == 0
    ensures BitStep(x ^ y) == BitStep(x) ^ BitStep(y)
  {
  }

  lemma Parity(x: bv32)
    ensures x & 1 == 0 || x & 1 == 1
  {
  }

  /** Division is linear: remainders of sums are sums of remainders. */
  lemma StepLinear(x: bv32, y: bv32)
    ensures BitStep(Xor(x, y)) == Xor(BitStep(x), BitStep(y))
  {
    hide BitStep;
    hide Xor;
    Parity(x);
    Parity(y);
    if x & 1 == 1 && y & 1 == 1 {
      StepLinearCase(x, y);
    } else if x & 1 == 1 {
      StepLinearCase(x, y);
    } else if y & 1 == 1 {
      StepLinearCase(y, x);
      XorCommutes(x, y);
      XorCommutes(BitStep(x), BitStep(y));
    } else {
      StepLinearCase(x, y);
    }
  }

  lemma StepLinearCase(x: bv32, y: bv32)
    requires x & 1 == 1 || y & 1 == 0
    ensures BitStep(Xor(x, y)) == Xor(BitStep(x), BitStep(y))
  {
    hide BitStep;
    Parity(x);
    Parity(y);
    if y & 1 == 1 { SumOfOdd(x, y); }
    else if x & 1 == 1 { SumOfOddAndEven(x, y); }
    else { SumOfEven(x, y); }
  }

  lemma StepInjective(x: bv32, y: bv32)
    requires BitStep(x) == BitStep(y)
    ensures x == y
  {
  }
}
