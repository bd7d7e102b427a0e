/** crc32_sz of contrib/hstore/crc32.cpp is polynomial division, and tells apart
    any two buffers that differ in a short stretch. */
module Crc32 {
  import opened Crc32Step
  import opened Crc32Table

  type Buffer = seq<bv8>

  // ---- References ----

  /** The register after a run of bits, one division step per bit. */
  ghost function Register(init: bv32, bits: seq<bool>): bv32 {
    if bits == [] then init
    else BitStep(Xor(Register(init, bits[..|bits| - 1]), Bit(bits[|bits| - 1])))
  }

  function Bit(b: bool): bv32 {
    if b then 1 else 0
  }

  function Odd(c: bv32): bool {
    c & 1 == 1
  }

  function Half(c: bv32): bv32 {
    c >> 1
  }

  /** The n lowest bits, from the lowest up. */
  ghost function LowBits(n: nat, c: bv32): (bits: seq<bool>)
    ensures |bits| == n
  {
    if n == 0 then [] else [Odd(c)] + LowBits(n - 1, Half(c))
  }

  /** Bytes in order, each from its low bit up. */
  ghost function MessageBits(buf: Buffer): seq<bool> {
    if buf == [] then [] else MessageBits(buf[..|buf| - 1]) + LowBits(8, Widen(buf[|buf| - 1]))
  }

  ghost function BitwiseCrc(buf: Buffer): bv32 {
    Complement(Register(0xFFFF_FFFF, MessageBits(buf)))
  }

  /** Remainder of the polynomial whose coefficients are the bits, highest power
      first, by Horner's rule: multiply by x, reduce, add the next coefficient. */
  ghost function Remainder(coefficients: seq<bool>): bv32 {
    if coefficients == [] then 0
    else Xor(BitStep(Remainder(coefficients[..|coefficients| - 1])),
             Bit(coefficients[|coefficients| - 1]) << 31)
  }

  ghost function Zeros(n: nat): (z: seq<bool>)
    ensures |z| == n
  {
    seq(n, _ => false)
  }

  /** The padded message with its first 32 coefficients complemented. */
  ghost function Dividend(buf: Buffer): seq<bool> {
    var padded := MessageBits(buf) + Zeros(32);
    seq(|padded|, i requires 0 <= i < |padded| => if i < 32 then !padded[i] else padded[i])
  }

  // ---- Linearity of division ----

  ghost function Iterate(n: nat, x: bv32): bv32 {
    if n == 0 then x else BitStep(Iterate(n - 1, x))
  }

  lemma {:induction false} IterateLinear(n: nat, x: bv32, y: bv32)
    ensures Iterate(n, Xor(x, y)) == Xor(Iterate(n, x), Iterate(n, y))
  {
    hide BitStep;
    hide Xor;
    if n > 0 {
      IterateLinear(n - 1, x, y);
      StepLinear(Iterate(n - 1, x), Iterate(n - 1, y));
    }
  }

  lemma {:induction false} IterateInside(n: nat, x: bv32)
    ensures Iterate(n + 1, x) == Iterate(n, BitStep(x))
  {
    hide BitStep;
    if n > 0 { IterateInside(n - 1, x); }
  }

  lemma {:induction false} IterateInjective(n: nat, x: bv32, y: bv32)
    requires Iterate(n, x) == Iterate(n, y)
    ensures x == y
  {
    hide BitStep;
    if n > 0 {
      StepInjective(Iterate(n - 1, x), Iterate(n - 1, y));
      IterateInjective(n - 1, x, y);
    }
  }

  lemma {:induction false} Steps8Iterates(x: bv32)
    ensures Steps8(x) == Iterate(8, x)
  {
    hide BitStep;
    var a := BitStep(x);
    var b := BitStep(a);
    var c := BitStep(b);
    var d := BitStep(c);
    assert Iterate(1, x) == a && Iterate(2, x) == b;
    assert Iterate(3, x) == c && Iterate(4, x) == d;
    assert Iterate(5, x) == BitStep(d);
    assert Iterate(6, x) == BitStep(BitStep(d));
    assert Iterate(7, x) == BitStep(BitStep(BitStep(d)));
  }

  // ---- One byte ----

  function LowByte(x: bv32): (r: bv32)
    ensures r < 256
  {
    x & 0xff
  }

  function HighBytes(x: bv32): bv32 {
    x >> 8
  }

  lemma HighPartShifts(y: bv32)
    ensures Steps8(y & 0xffff_ff00) == HighBytes(y)
  {
  }

  lemma SplitLowByte(y: bv32)
    ensures Xor(y & 0xffff_ff00, LowByte(y)) == y
  {
  }

  lemma Steps8Linear(x: bv32, y: bv32)
    ensures Steps8(Xor(x, y)) == Xor(Steps8(x), Steps8(y))
  {
    hide *;
    Steps8Iterates(x);
    Steps8Iterates(y);
    Steps8Iterates(Xor(x, y));
    IterateLinear(8, x, y);
  }

  /** Looking up the low byte and shifting is eight division steps. */
  lemma LookupIsSteps8(y: bv32)
    ensures Xor(HighBytes(y), Table(LowByte(y))) == Steps8(y)
  {
    hide *;
    SplitLowByte(y);
    Steps8Linear(y & 0xffff_ff00, LowByte(y));
    HighPartShifts(y);
    TableDivides(LowByte(y));
  }

  lemma TopBytesUntouched(crc: bv32, ch: bv32)
    requires ch < 256
    ensures HighBytes(crc) == HighBytes(Xor(crc, ch))
  {
  }

  function Widen(b: bv8): (w: bv32)
    ensures w < 256
  {
    b as bv32
  }

  /** The macro _CRC32_. */
  function ByteStep(crc: bv32, b: bv8): bv32 {
    Xor(HighBytes(crc), Table(LowByte(Xor(crc, Widen(b)))))
  }

  lemma ByteStepDivides(crc: bv32, b: bv8)
    ensures ByteStep(crc, b) == Steps8(Xor(crc, Widen(b)))
  {
    var ch := Widen(b);
    hide Table, Steps8, BitStep, Widen, Xor, LowByte, HighBytes;
    TopBytesUntouched(crc, ch);
    LookupIsSteps8(Xor(crc, ch));
  }

  lemma EvenPartHalves(c: bv32)
    ensures BitStep(c & 0xffff_fffe) == Half(c)
  {
  }

  lemma SplitLowBit(c: bv32)
    ensures Xor(Bit(Odd(c)), c & 0xffff_fffe) == c
  {
  }

  lemma FeedBit(x: bv32, c: bv32)
    ensures BitStep(Xor(x, c)) == Xor(BitStep(Xor(x, Bit(Odd(c)))), Half(c))
  {
    hide *;
    var low, rest := Bit(Odd(c)), c & 0xffff_fffe;
    SplitLowBit(c);
    XorAssociates(x, low, rest);
    StepLinear(Xor(x, low), rest);
    EvenPartHalves(c);
  }

  ghost function Halves(n: nat, c: bv32): bv32 {
    if n == 0 then c else Halves(n - 1, Half(c))
  }

  lemma {:induction false} RegisterConcat(x: bv32, a: seq<bool>, b: seq<bool>)
    ensures Register(x, a + b) == Register(Register(x, a), b)
    decreases |b|
  {
    hide BitStep, Xor, Bit;
    if b == [] {
      assert a + b == a;
    } else {
      assert (a + b)[..|a + b| - 1] == a + b[..|b| - 1];
      RegisterConcat(x, a, b[..|b| - 1]);
    }
  }

  lemma {:induction false} RegisterOne(x: bv32, b: bool)
    ensures Register(x, [b]) == BitStep(Xor(x, Bit(b)))
  {
    hide BitStep, Xor, Bit;
    assert [b][..0] == [];
    assert Register(x, [b][..0]) == x;
  }

  /** Adding n bits at once and dividing n times is feeding them one by one. */
  lemma {:induction false} FeedBits(n: nat, x: bv32, c: bv32)
    ensures Iterate(n, Xor(x, c)) == Xor(Register(x, LowBits(n, c)), Halves(n, c))
  {
    hide BitStep, Xor, Bit, Odd, Half;
    if n > 0 {
      IterateInside(n - 1, Xor(x, c));
      FeedBit(x, c);
      var x' := BitStep(Xor(x, Bit(Odd(c))));
      FeedBits(n - 1, x', Half(c));
      RegisterOne(x, Odd(c));
      RegisterConcat(x, [Odd(c)], LowBits(n - 1, Half(c)));
    }
  }

  lemma EightHalves(b: bv8)
    ensures Halves(8, Widen(b)) == 0
  {
    var c := Widen(b);
    EightShifts(c);
    hide Half;
    assert Halves(8, c) == Halves(7, Half(c)) == Halves(6, Half(Half(c)));
    var d := Half(Half(Half(Half(c))));
    assert Halves(6, Half(Half(c))) == Halves(5, Half(Half(Half(c)))) == Halves(4, d);
    assert Halves(4, d) == Halves(3, Half(d)) == Halves(2, Half(Half(d)));
    assert Halves(2, Half(Half(d))) == Halves(1, Half(Half(Half(d)))) == Halves(0, Half(Half(Half(Half(d)))));
  }

  lemma EightShifts(c: bv32)
    requires c < 256
    ensures Half(Half(Half(Half(Half(Half(Half(Half(c)))))))) == 0
  {
  }

  /** A table step is feeding the eight bits of the byte. */
  lemma {:induction false} ByteStepFeedsBits(crc: bv32, b: bv8)
    ensures ByteStep(crc, b) == Register(crc, LowBits(8, Widen(b)))
  {
    hide *;
    ByteStepDivides(crc, b);
    Steps8Iterates(Xor(crc, Widen(b)));
    FeedBits(8, crc, Widen(b));
    EightHalves(b);
    XorZero(Register(crc, LowBits(8, Widen(b))));
  }

  // ---- Whole buffers ----

  method Crc32Sz(buf: Buffer) returns (crc: bv32)
    ensures crc == BitwiseCrc(buf)
  {
    hide ByteStep, Register, BitStep, LowBits, Widen, Complement;
    var register: bv32 := 0xFFFF_FFFF;
    RegisterNothing(register);
    for i := 0 to |buf|
      invariant register == Register(0xFFFF_FFFF, MessageBits(buf[..i]))
    {
      ByteStepFeedsBits(register, buf[i]);
      assert buf[..i + 1][..i] == buf[..i];
      RegisterConcat(0xFFFF_FFFF, MessageBits(buf[..i]), LowBits(8, Widen(buf[i])));
      register := ByteStep(register, buf[i]);
    }
    assert buf[..|buf|] == buf;
    crc := Complement(register);
  }

  lemma {:induction false} RegisterNothing(x: bv32)
    ensures Register(x, []) == x
  {
  }
}
