/** What the checksum means and what it detects. */
module Crc32Theory {
  import opened Crc32Step
  import opened Crc32

  // ---- The checksum is the remainder of a long division ----

  lemma {:induction false} IterateAdds(n: nat, k: nat, x: bv32)
    ensures Iterate(n, Iterate(k, x)) == Iterate(n + k, x)
  {
    hide BitStep;
    if n > 0 { IterateAdds(n - 1, k, x); }
  }

  lemma ZeroStays()
    ensures BitStep(0) == 0 && Xor(0, 0) == 0 && Bit(false) << 31 == 0
  {
  }

  lemma {:induction false} IterateZero(n: nat)
    ensures Iterate(n, 0) == 0
  {
    hide BitStep;
    ZeroStays();
    if n > 0 { IterateZero(n - 1); }
  }

  function Top(b: bool): bv32 {
    Bit(b) << 31
  }

  lemma TopBitSteps()
    ensures Steps8(0x8000_0000) == 0x0080_0000
    ensures Steps8(0x0080_0000) == 0x0000_8000
    ensures Steps8(0x0000_8000) == 0x0000_0080
    ensures Steps8(0x0000_0080) == BitStep(1)
    ensures Top(true) == 0x8000_0000 && Bit(true) == 1 && Top(false) == 0 && Bit(false) == 0
  {
  }

  /** A coefficient entering at the top reaches the bottom after 32 steps. */
  lemma TopArrives(b: bool)
    ensures Iterate(32, Top(b)) == BitStep(Bit(b))
  {
    TopBitSteps();
    ZeroStays();
    hide *;
    if b {
      Steps8Iterates(0x8000_0000);
      Steps8Iterates(0x0080_0000);
      Steps8Iterates(0x0000_8000);
      Steps8Iterates(0x0000_0080);
      IterateAdds(8, 8, 0x8000_0000);
      IterateAdds(8, 16, 0x8000_0000);
      IterateAdds(8, 24, 0x8000_0000);
    } else {
      IterateZero(32);
    }
  }

  lemma {:induction false} RemainderLast(bits: seq<bool>)
    requires bits != []
    ensures var n := |bits| - 1; Remainder(bits) == Xor(BitStep(Remainder(bits[..n])), Top(bits[n]))
  {
    hide BitStep, Xor;
  }

  lemma {:induction false} RegisterIsShiftedRemainder(bits: seq<bool>)
    ensures Register(0, bits) == Iterate(32, Remainder(bits))
    decreases |bits|
  {
    hide BitStep, Xor, Bit, Top, Iterate;
    if bits == [] {
      IterateZero(32);
    } else {
      var n := |bits| - 1;
      var r, b := Remainder(bits[..n]), bits[n];
      RegisterIsShiftedRemainder(bits[..n]);
      RemainderLast(bits);
      IterateLinear(32, BitStep(r), Top(b));
      TopArrives(b);
      StepLinear(Iterate(32, r), Bit(b));
      IterateAround(32, r);
    }
  }

  lemma {:induction false} IterateAround(n: nat, x: bv32)
    ensures Iterate(n, BitStep(x)) == BitStep(Iterate(n, x))
  {
    hide BitStep;
    IterateInside(n, x);
  }

  lemma {:induction false} RemainderPadded(bits: seq<bool>, n: nat)
    ensures Remainder(bits + Zeros(n)) == Iterate(n, Remainder(bits))
  {
    TopBitSteps();
    hide BitStep, Xor, Bit, Top;
    if n == 0 {
      assert bits + Zeros(0) == bits;
    } else {
      var all := bits + Zeros(n);
      assert all[..|all| - 1] == bits + Zeros(n - 1) && all[|all| - 1] == false;
      RemainderPadded(bits, n - 1);
      RemainderLast(all);
      XorZero(BitStep(Iterate(n - 1, Remainder(bits))));
    }
  }

  lemma {:induction false} RegisterFromInit(init: bv32, bits: seq<bool>)
    ensures Register(init, bits) == Xor(Register(0, bits), Iterate(|bits|, init))
    decreases |bits|
  {
    hide BitStep, Xor, Bit;
    if bits == [] {
      XorCommutes(0, init);
      XorZero(init);
    } else {
      var n := |bits| - 1;
      var r, i, b := Register(0, bits[..n]), Iterate(n, init), Bit(bits[n]);
      RegisterFromInit(init, bits[..n]);
      XorAssociates(r, i, b);
      XorCommutes(i, b);
      XorAssociates(r, b, i);
      StepLinear(Xor(r, b), i);
    }
  }

  /** Coefficientwise sum. */
  ghost function Sum(p: seq<bool>, q: seq<bool>): (r: seq<bool>)
    requires |p| == |q|
    ensures |r| == |p| && forall i | 0 <= i < |r| :: r[i] == (p[i] != q[i])
  {
    seq(|p|, i requires 0 <= i < |p| => p[i] != q[i])
  }

  lemma TopAdds(a: bool, b: bool)
    ensures Top(a != b) == Xor(Top(a), Top(b))
  {
  }

  lemma {:induction false} RemainderLinear(p: seq<bool>, q: seq<bool>)
    requires |p| == |q|
    ensures Remainder(Sum(p, q)) == Xor(Remainder(p), Remainder(q))
    decreases |p|
  {
    ZeroStays();
    hide BitStep, Xor, Bit, Top;
    if p == [] {
      assert Sum(p, q) == [];
    } else {
      var n := |p| - 1;
      var s := Sum(p, q);
      assert s[..n] == Sum(p[..n], q[..n]);
      RemainderLast(p);
      RemainderLast(q);
      RemainderLast(s);
      RemainderLinear(p[..n], q[..n]);
      TopAdds(p[n], q[n]);
      StepLinear(Remainder(p[..n]), Remainder(q[..n]));
      XorSwap(BitStep(Remainder(p[..n])), BitStep(Remainder(q[..n])), Top(p[n]), Top(q[n]));
    }
  }

  function FeedOne(x: bv32): bv32 {
    Xor(BitStep(x), Top(true))
  }

  function FeedEight(x: bv32): bv32 {
    FeedOne(FeedOne(FeedOne(FeedOne(FeedOne(FeedOne(FeedOne(FeedOne(x))))))))
  }

  lemma FourByteRun()
    ensures FeedEight(0) == 0xFF00_0000
    ensures FeedEight(0xFF00_0000) == 0xFFFF_0000
    ensures FeedEight(0xFFFF_0000) == 0xFFFF_FF00
    ensures FeedEight(0xFFFF_FF00) == 0xFFFF_FFFF
  {
  }

  ghost function Ones(n: nat): (o: seq<bool>)
    ensures |o| == n
  {
    seq(n, _ => true)
  }

  lemma OnesNext(n: nat)
    ensures Remainder(Ones(n + 1)) == FeedOne(Remainder(Ones(n)))
  {
    hide Remainder, BitStep, Top, Xor;
    RemainderLast(Ones(n + 1));
    assert Ones(n + 1)[..n] == Ones(n);
  }

  lemma OnesEight(n: nat)
    ensures Remainder(Ones(n + 8)) == FeedEight(Remainder(Ones(n)))
  {
    hide FeedOne, Remainder, Ones;
    OnesNext(n);
    OnesNext(n + 1);
    OnesNext(n + 2);
    OnesNext(n + 3);
    OnesNext(n + 4);
    OnesNext(n + 5);
    OnesNext(n + 6);
    OnesNext(n + 7);
  }

  lemma ThirtyTwoOnes()
    ensures Remainder(Ones(32)) == 0xFFFF_FFFF
  {
    assert Ones(0) == [];
    assert Remainder([]) == 0;
    hide FeedEight, Ones, Remainder;
    FourByteRun();
    OnesEight(0);
    OnesEight(8);
    OnesEight(16);
    OnesEight(24);
  }

  lemma {:induction false} DividendIsSum(buf: Buffer)
    ensures var bits := MessageBits(buf);
            |Dividend(buf)| == |bits| + 32
            && Dividend(buf) == Sum(bits + Zeros(32), Ones(32) + Zeros(|bits|))
  {
    hide MessageBits;
  }

  /** crc32_sz is the complement of the remainder left by dividing the message,
      extended by 32 zero coefficients and with its first 32 complemented. */
  lemma CrcIsLongDivision(buf: Buffer)
    ensures BitwiseCrc(buf) == Complement(Remainder(Dividend(buf)))
  {
    hide Register, Remainder, MessageBits, Complement, Xor, Dividend, Iterate, Sum, Zeros, Ones;
    var bits := MessageBits(buf);
    DividendIsSum(buf);
    assert |bits + Zeros(32)| == |Ones(32) + Zeros(|bits|)|;
    RemainderLinear(bits + Zeros(32), Ones(32) + Zeros(|bits|));
    RemainderPadded(bits, 32);
    RemainderPadded(Ones(32), |bits|);
    ThirtyTwoOnes();
    RegisterIsShiftedRemainder(bits);
    RegisterFromInit(0xFFFF_FFFF, bits);
  }

  // ---- Detection of short differences ----

  function Double(c: bv32): bv32 {
    c << 1
  }

  /** Up to 32 bits as a word, the first one lowest. */
  ghost function Pack(bits: seq<bool>): bv32 {
    if bits == [] then 0 else Xor(Bit(bits[0]), Double(Pack(bits[1..])))
  }

  lemma {:induction false} HalvesOutside(n: nat, c: bv32)
    ensures Halves(n + 1, c) == Half(Halves(n, c))
  {
    hide Half;
    if n > 0 { HalvesOutside(n - 1, Half(c)); }
  }

  lemma {:induction false} HalvesOfZero(n: nat, k: nat, c: bv32)
    requires Halves(n, c) == 0
    ensures Halves(n + k, c) == 0
  {
    if k > 0 {
      HalvesOfZero(n, k - 1, c);
      HalvesOutside(n + k - 1, c);
    }
  }

  function Quarter(c: bv32): bv32 {
    Half(Half(c))
  }

  lemma {:induction false} HalvesFour(n: nat, c: bv32)
    ensures Halves(n + 4, c) == Halves(n, Quarter(Quarter(c)))
  {
    hide Half;
    assert Halves(n + 4, c) == Halves(n + 3, Half(c)) == Halves(n + 2, Half(Half(c)));
    assert Halves(n + 2, Quarter(c)) == Halves(n + 1, Half(Quarter(c))) == Halves(n, Half(Half(Quarter(c))));
  }

  function Sixteenth(c: bv32): bv32 {
    Quarter(Quarter(c))
  }

  lemma SevenSixteenths(c: bv32)
    requires var d := Sixteenth(Sixteenth(Sixteenth(Sixteenth(Sixteenth(Sixteenth(Sixteenth(c)))))));
             Half(Quarter(d)) == 0
    ensures c < 0x8000_0000
  {
  }

  /** What 31 halvings bring to zero has its top bit clear. */
  lemma {:induction false} TopClear(c: bv32)
    requires Halves(31, c) == 0
    ensures c < 0x8000_0000
  {
    var a := Sixteenth(c);
    var b := Sixteenth(a);
    var d := Sixteenth(b);
    var e := Sixteenth(d);
    var f := Sixteenth(e);
    var g := Sixteenth(f);
    var h := Sixteenth(g);
    SevenSteps(c, a, b, d, e, f, g, h);
    SevenSixteenths(c);
  }

  lemma {:induction false} SevenSteps(c: bv32, a: bv32, b: bv32, d: bv32, e: bv32, f: bv32, g: bv32, h: bv32)
    requires a == Sixteenth(c) && b == Sixteenth(a) && d == Sixteenth(b) && e == Sixteenth(d)
    requires f == Sixteenth(e) && g == Sixteenth(f) && h == Sixteenth(g)
    ensures Halves(31, c) == Half(Quarter(h))
  {
    hide Half;
    HalvesFour(27, c);
    HalvesFour(23, a);
    HalvesFour(19, b);
    HalvesFour(15, d);
    HalvesFour(11, e);
    HalvesFour(7, f);
    HalvesFour(3, g);
    assert Halves(3, h) == Halves(2, Half(h)) == Halves(1, Half(Half(h))) == Halves(0, Half(Half(Half(h))));
  }

  lemma PackedParts(b: bool, p: bv32)
    requires p < 0x8000_0000
    ensures var c := Xor(Bit(b), Double(p)); Odd(c) == b && Half(c) == p
  {
  }

  lemma {:induction false} Unpacks(bits: seq<bool>)
    requires |bits| <= 32
    ensures LowBits(|bits|, Pack(bits)) == bits && Halves(|bits|, Pack(bits)) == 0
    decreases |bits|
  {
    hide Odd, Half, Xor, Bit, Double;
    if bits != [] {
      hide *;
      var rest := bits[1..];
      Unpacks(rest);
      HalvesOfZero(|rest|, 31 - |rest|, Pack(rest));
      TopClear(Pack(rest));
      PackedParts(bits[0], Pack(rest));
      PackFirst(bits);
      LowBitsFirst(|rest|, Pack(bits));
      assert bits == [bits[0]] + rest;
    }
  }

  lemma {:induction false} PackFirst(bits: seq<bool>)
    requires bits != []
    ensures Pack(bits) == Xor(Bit(bits[0]), Double(Pack(bits[1..])))
  {
    hide Xor, Bit, Double;
  }

  lemma {:induction false} LowBitsFirst(n: nat, c: bv32)
    ensures LowBits(n + 1, c) == [Odd(c)] + LowBits(n, Half(c)) && Halves(n + 1, c) == Halves(n, Half(c))
  {
    hide Odd, Half;
  }

  lemma XorInjective(x: bv32, y: bv32, c: bv32)
    requires Xor(x, c) == Xor(y, c)
    ensures x == y
  {
  }

  /** Feeding the same bits keeps different registers different. */
  lemma {:induction false} RegisterInjective(x: bv32, y: bv32, bits: seq<bool>)
    requires Register(x, bits) == Register(y, bits)
    ensures x == y
    decreases |bits|
  {
    hide BitStep, Xor, Bit;
    if bits != [] {
      var n := |bits| - 1;
      var p, q, c := Register(x, bits[..n]), Register(y, bits[..n]), Bit(bits[n]);
      StepInjective(Xor(p, c), Xor(q, c));
      XorInjective(p, q, c);
      RegisterInjective(x, y, bits[..n]);
    }
  }

  /** Up to 32 different bits leave different registers. */
  lemma {:induction false} WindowInjective(x: bv32, v: seq<bool>, w: seq<bool>)
    requires |v| == |w| <= 32 && Register(x, v) == Register(x, w)
    ensures v == w
  {
    hide *;
    Unpacks(v);
    Unpacks(w);
    FeedBits(|v|, x, Pack(v));
    FeedBits(|w|, x, Pack(w));
    XorZero(Register(x, v));
    XorZero(Register(x, w));
    IterateInjective(|v|, Xor(x, Pack(v)), Xor(x, Pack(w)));
    XorCommutes(x, Pack(v));
    XorCommutes(x, Pack(w));
    XorInjective(Pack(v), Pack(w), x);
  }

  lemma ComplementInjective(a: bv32, b: bv32)
    requires Complement(a) == Complement(b)
    ensures a == b
  {
  }

  lemma {:induction false} RegisterParts(x: bv32, head: seq<bool>, v: seq<bool>, w: seq<bool>, tail: seq<bool>)
    requires |v| == |w| <= 32 && Register(x, head + v + tail) == Register(x, head + w + tail)
    ensures v == w
  {
    hide *;
    RegisterConcat(x, head + v, tail);
    RegisterConcat(x, head + w, tail);
    RegisterInjective(Register(x, head + v), Register(x, head + w), tail);
    RegisterConcat(x, head, v);
    RegisterConcat(x, head, w);
    WindowInjective(Register(x, head), v, w);
  }

  lemma {:induction false} MessageLength(buf: Buffer)
    ensures |MessageBits(buf)| == 8 * |buf|
    decreases |buf|
  {
    hide LowBits;
    if buf != [] { MessageLength(buf[..|buf| - 1]); }
  }

  lemma JoinsLowBit(c: bv32, d: bv32)
    requires Odd(c) == Odd(d) && Half(c) == Half(d)
    ensures c == d
  {
  }

  lemma {:induction false} LowBitsInjective(n: nat, c: bv32, d: bv32)
    requires LowBits(n, c) == LowBits(n, d) && Halves(n, c) == Halves(n, d)
    ensures c == d
  {
    hide Odd, Half;
    if n > 0 {
      var p, q := LowBits(n, c), LowBits(n, d);
      assert p[0] == q[0] && p[1..] == q[1..];
      LowBitsInjective(n - 1, Half(c), Half(d));
      JoinsLowBit(c, d);
    }
  }

  lemma WidenInjective(a: bv8, b: bv8)
    requires Widen(a) == Widen(b)
    ensures a == b
  {
  }

  lemma {:induction false} MessageInjective(a: Buffer, b: Buffer)
    requires |a| == |b| && MessageBits(a) == MessageBits(b)
    ensures a == b
    decreases |a|
  {
    hide LowBits, Widen, Halves;
    if a != [] {
      var n := |a| - 1;
      MessageLength(a[..n]);
      MessageLength(b[..n]);
      var p, q := MessageBits(a), MessageBits(b);
      assert p[..8 * n] == MessageBits(a[..n]) && q[..8 * n] == MessageBits(b[..n]);
      assert p[8 * n..] == LowBits(8, Widen(a[n])) && q[8 * n..] == LowBits(8, Widen(b[n]));
      EightHalves(a[n]);
      EightHalves(b[n]);
      LowBitsInjective(8, Widen(a[n]), Widen(b[n]));
      WidenInjective(a[n], b[n]);
      MessageInjective(a[..n], b[..n]);
      assert a == a[..n] + [a[n]] && b == b[..n] + [b[n]];
    }
  }

  /** The bits agree outside the n bits from position from on. */
  ghost predicate AgreeOutside(p: seq<bool>, q: seq<bool>, from: nat, n: nat) {
    |p| == |q| && forall i | 0 <= i < |p| && !(from <= i < from + n) :: p[i] == q[i]
  }

  /** Buffers of equal length whose bits, in the order they are transmitted, differ
      only within 32 consecutive ones never share a checksum. */
  lemma {:induction false} BurstDetected(a: Buffer, b: Buffer, from: nat)
    requires |a| == |b| && AgreeOutside(MessageBits(a), MessageBits(b), from, 32)
    requires BitwiseCrc(a) == BitwiseCrc(b)
    ensures a == b
  {
    hide Register, MessageBits, Complement;
    var p, q := MessageBits(a), MessageBits(b);
    ComplementInjective(Register(0xFFFF_FFFF, p), Register(0xFFFF_FFFF, q));
    var f := if from < |p| then from else |p|;
    var t := if f + 32 < |p| then f + 32 else |p|;
    assert p[..f] == q[..f] && p[t..] == q[t..];
    assert p == p[..f] + p[f..t] + p[t..] && q == p[..f] + q[f..t] + p[t..];
    RegisterParts(0xFFFF_FFFF, p[..f], p[f..t], q[f..t], p[t..]);
    MessageInjective(a, b);
  }

  lemma {:induction false} BytesGiveBits(a: Buffer, b: Buffer, from: nat, n: nat)
    requires |a| == |b| && forall i | 0 <= i < |a| && !(from <= i < from + n) :: a[i] == b[i]
    ensures AgreeOutside(MessageBits(a), MessageBits(b), 8 * from, 8 * n)
    decreases |a|
  {
    hide LowBits, Widen;
    MessageLength(a);
    MessageLength(b);
    if a != [] {
      var m := |a| - 1;
      MessageLength(a[..m]);
      MessageLength(b[..m]);
      BytesGiveBits(a[..m], b[..m], from, n);
      var p, q := MessageBits(a), MessageBits(b);
      forall i | 0 <= i < |p| && !(8 * from <= i < 8 * from + 8 * n) ensures p[i] == q[i] {
        if i < 8 * m {
          assert p[i] == MessageBits(a[..m])[i] && q[i] == MessageBits(b[..m])[i];
        } else {
          assert a[m] == b[m];
        }
      }
    }
  }

  /** In bytes: a difference within four consecutive ones, a single byte included. */
  lemma ShortDifferenceDetected(a: Buffer, b: Buffer, from: nat)
    requires |a| == |b| && forall i | 0 <= i < |a| && !(from <= i < from + 4) :: a[i] == b[i]
    requires BitwiseCrc(a) == BitwiseCrc(b)
    ensures a == b
  {
    hide *;
    BytesGiveBits(a, b, from, 4);
    BurstDetected(a, b, 8 * from);
  }
}
