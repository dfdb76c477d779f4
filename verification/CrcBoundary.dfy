/**
  Where burst detection ends: a change of the last covered byte together with the first byte of the
  checksum behind it.
 */
module CrcBoundary {
  import opened Bytes
  import opened Crc16

  // ---- The two bytes of a register ----

  function Upper(c: bv16): byte { (c as int) / 0x100 }

  function Lower(c: bv16): byte { (c as int) % 0x100 }

  /** The exclusive-or of two bytes: the byte whose bits are set exactly where theirs differ. */
  function XorByte(a: byte, b: byte): byte { Upper(High(a) ^ High(b)) }

  function Bit(c: bv16, mask: bv16): nat { if c & mask != 0 then 1 else 0 }

  /** The lower byte of a register, as the sum of its bits. */
  function LowerSum(c: bv16): byte {
    0x80 * Bit(c, 0x80) + 0x40 * Bit(c, 0x40) + 0x20 * Bit(c, 0x20) + 0x10 * Bit(c, 0x10)
    + 0x08 * Bit(c, 0x08) + 0x04 * Bit(c, 0x04) + 0x02 * Bit(c, 0x02) + 0x01 * Bit(c, 0x01)
  }

  lemma Peel80(c: bv16)
    ensures (c & 0xFF) as int == 0x80 * Bit(c, 0x80) + (c & 0x7F) as int
  {
    if c & 0x80 != 0 {
      assert c & 0xFF == (c & 0x7F) | 0x80;
    }
  }

  lemma Peel40(c: bv16)
    ensures (c & 0x7F) as int == 0x40 * Bit(c, 0x40) + (c & 0x3F) as int
  {
    if c & 0x40 != 0 {
      assert c & 0x7F == (c & 0x3F) | 0x40;
    }
  }

  lemma Peel20(c: bv16)
    ensures (c & 0x3F) as int == 0x20 * Bit(c, 0x20) + (c & 0x1F) as int
  {
    if c & 0x20 != 0 {
      assert c & 0x3F == (c & 0x1F) | 0x20;
    }
  }

  lemma Peel10(c: bv16)
    ensures (c & 0x1F) as int == 0x10 * Bit(c, 0x10) + (c & 0x0F) as int
  {
    if c & 0x10 != 0 {
      assert c & 0x1F == (c & 0x0F) | 0x10;
    }
  }

  lemma Peel08(c: bv16)
    ensures (c & 0x0F) as int == 0x08 * Bit(c, 0x08) + (c & 0x07) as int
  {
    if c & 0x08 != 0 {
      assert c & 0x0F == (c & 0x07) | 0x08;
    }
  }

  lemma Peel04(c: bv16)
    ensures (c & 0x07) as int == 0x04 * Bit(c, 0x04) + (c & 0x03) as int
  {
    if c & 0x04 != 0 {
      assert c & 0x07 == (c & 0x03) | 0x04;
    }
  }

  lemma Peel02(c: bv16)
    ensures (c & 0x03) as int == 0x02 * Bit(c, 0x02) + (c & 0x01) as int
  {
    if c & 0x02 != 0 {
      assert c & 0x03 == (c & 0x01) | 0x02;
    }
  }

  lemma Peel01(c: bv16)
    ensures (c & 0x01) as int == 0x01 * Bit(c, 0x01) + (c & 0x00) as int
  {
    if c & 0x01 != 0 {
      assert c & 0x01 == (c & 0x00) | 0x01;
    }
  }

  lemma LowerIsSum(c: bv16)
    ensures (c & 0xFF) as int == LowerSum(c)
  {
    hide Bit;
    Peel80(c);
    Peel40(c);
    Peel20(c);
    Peel10(c);
    Peel08(c);
    Peel04(c);
    Peel02(c);
    Peel01(c);
    NoBits(c);
  }

  lemma NoBits(c: bv16)
    ensures (c & 0x00) as int == 0
  {
  }

  lemma Halves(c: bv16)
    ensures c as int == 0x100 * ((c >> 8) as int) + ((c & 0xFF) as int)
    ensures (c >> 8) & 0xFF == c >> 8
  {
    hide *;
  }

  lemma Split(x: int, u: int, l: byte)
    requires x == 0x100 * u + l as int
    ensures x / 0x100 == u && x % 0x100 == l as int
  {
  }

  lemma UpperAndLower(c: bv16)
    ensures Lower(c) == LowerSum(c) && Upper(c) == LowerSum(c >> 8)
  {
    hide LowerSum;
    LowerIsSum(c);
    LowerIsSum(c >> 8);
    Halves(c);
    Split(c as int, LowerSum(c >> 8) as int, LowerSum(c));
  }

  // ---- Bytes as bits ----

  lemma HighOfBits(b7: nat, b6: nat, b5: nat, b4: nat, b3: nat, b2: nat, b1: nat, b0: nat)
    requires b7 <= 1 && b6 <= 1 && b5 <= 1 && b4 <= 1 && b3 <= 1 && b2 <= 1 && b1 <= 1 && b0 <= 1
    ensures High(0x80 * b7 + 0x40 * b6 + 0x20 * b5 + 0x10 * b4 + 0x08 * b3 + 0x04 * b2 + 0x02 * b1 + 0x01 * b0)
            == UpperHalf(b7 == 1, b6 == 1, b5 == 1, b4 == 1, b3 == 1, b2 == 1, b1 == 1, b0 == 1)
  {
    hide UpperHalf, Odd, Half;
    HalfOfSum(64 * b7 + 32 * b6 + 16 * b5 + 8 * b4 + 4 * b3 + 2 * b2 + b1, b0);
    HalfOfSum(32 * b7 + 16 * b6 + 8 * b5 + 4 * b4 + 2 * b3 + b2, b1);
    HalfOfSum(16 * b7 + 8 * b6 + 4 * b5 + 2 * b4 + b3, b2);
    HalfOfSum(8 * b7 + 4 * b6 + 2 * b5 + b4, b3);
    HalfOfSum(4 * b7 + 2 * b6 + b5, b4);
    HalfOfSum(2 * b7 + b6, b5);
    HalfOfSum(b7, b6);
    HalfOfSum(0, b7);
  }

  /** The bits of a sum of bits are the bits summed. */
  lemma HighOfSum(c: bv16)
    ensures High(LowerSum(c)) == c << 8
  {
    hide Bit, UpperHalf, High;
    BitIsSmall(c);
    HighOfBits(Bit(c, 0x80), Bit(c, 0x40), Bit(c, 0x20), Bit(c, 0x10), Bit(c, 0x08), Bit(c, 0x04), Bit(c, 0x02),
        Bit(c, 0x01));
    Assembled(c);
  }

  lemma BitIsSmall(c: bv16)
    ensures forall mask :: Bit(c, mask) <= 1
  {
  }

  lemma HalfOfSum(n: nat, b: nat)
    requires b <= 1
    ensures Half(2 * n + b) == n && (Odd(2 * n + b) <==> b == 1)
  {
  }

  lemma Assembled(c: bv16)
    ensures UpperHalf(Bit(c, 0x80) == 1, Bit(c, 0x40) == 1, Bit(c, 0x20) == 1, Bit(c, 0x10) == 1,
                      Bit(c, 0x08) == 1, Bit(c, 0x04) == 1, Bit(c, 0x02) == 1, Bit(c, 0x01) == 1) == c << 8
  {
  }

  lemma HighOfHalves(c: bv16)
    ensures High(Lower(c)) == c << 8 && High(Upper(c)) == c & 0xFF00
  {
    hide High, Lower, Upper, LowerSum;
    UpperAndLower(c);
    HighOfSum(c);
    HighOfSum(c >> 8);
    ShiftBack(c);
  }

  lemma ShiftBack(c: bv16)
    ensures (c >> 8) << 8 == c & 0xFF00
  {
  }

  /** What `XorByte` means: its bits are the exclusive-or of the bits. */
  lemma XorByteBits(a: byte, b: byte)
    ensures High(XorByte(a, b)) == High(a) ^ High(b)
  {
    hide High, Upper;
    HighOfHalves(High(a) ^ High(b));
    HighLowHalfEmpty(a, b);
    NoLowHalf(High(a) ^ High(b));
  }

  lemma NoLowHalf(c: bv16)
    requires c & 0xFF == 0
    ensures c & 0xFF00 == c
  {
  }

  // ---- The step of a difference ----

  lemma MaskedKernel89(d: bv16)
    requires d & 0xFF == 0
    requires Masked(Masked(Masked(Masked(Masked(Masked(Masked(Masked(d)))))))) & 0xFF00 == 0
    ensures d == 0 || d == 0x8900
  {
  }

  lemma MaskedOf89()
    ensures Masked(Masked(Masked(Masked(Masked(Masked(Masked(Masked(0x8900)))))))) == 0xA1
    ensures Masked(Masked(Masked(Masked(Masked(Masked(Masked(Masked(0)))))))) == 0
  {
  }

  lemma EightShifts(d: bv16)
    ensures Iterate(Shift, 8, d) == Masked(Masked(Masked(Masked(Masked(Masked(Masked(Masked(d))))))))
  {
    hide Masked, Shift;
    forall y ensures Shift(y) == Masked(y) {
      ShiftIsMasked(y);
    }
    IterateSame(Shift, Masked, 8, d);
    Unrolled(Masked, d);
  }

  // From here on registers are compared by name only, and their operations stay closed.

  predicate UpperEmpty(d: bv16) { d & 0xFF00 == 0 }

  predicate LowerEmpty(d: bv16) { d & 0xFF == 0 }

  function ToUpper(c: bv16): bv16 { c << 8 }

  const DATA_PAIR: bv16 := 0x8900
  const REGISTER_PAIR: bv16 := 0xA1

  /** A byte step of a byte-sized difference leaves the upper half of the register alone for one difference
      only, which then shows as A1 (hexadecimal) in the lower half. */
  lemma StepLeavesUpperHalf(d: bv16)
    requires LowerEmpty(d)
    ensures UpperEmpty(Iterate(Shift, 8, d)) <==> d == 0 || d == DATA_PAIR
    ensures Iterate(Shift, 8, 0) == 0 && Iterate(Shift, 8, DATA_PAIR) == REGISTER_PAIR
  {
    hide Masked, Shift, Iterate;
    EightShifts(0);
    EightShifts(DATA_PAIR);
    EightShifts(d);
    MaskedOf89();
    if UpperEmpty(Iterate(Shift, 8, d)) {
      MaskedKernel89(d);
    }
  }

  // ---- The undetected pair ----

  /** Two registers agree in their upper byte exactly when their difference does not reach it. */
  lemma SameUpper(x: bv16, y: bv16)
    ensures Upper(x) == Upper(y) <==> UpperEmpty(Xor(x, y))
  {
    hide High, Upper, Lower;
    HighOfHalves(x);
    HighOfHalves(y);
    UpperXor(x, y);
    if x & 0xFF00 == y & 0xFF00 {
      HighInjective(Upper(x), Upper(y));
    }
  }

  lemma UpperXor(x: bv16, y: bv16)
    ensures (x ^ y) & 0xFF00 == 0 <==> x & 0xFF00 == y & 0xFF00
  {
  }

  /** The lower bytes of two registers differ as the registers do. */
  lemma LowerXor(x: bv16, y: bv16)
    ensures Xor(High(Lower(x)), High(Lower(y))) == ToUpper(Xor(x, y))
  {
    hide High, Upper, Lower;
    HighOfHalves(x);
    HighOfHalves(y);
    ShiftXor(x, y);
  }

  lemma ShiftXor(x: bv16, y: bv16)
    ensures (x << 8) ^ (y << 8) == (x ^ y) << 8
  {
  }

  lemma HighOfPair()
    ensures High(0x89) == DATA_PAIR && High(0xA1) == ToUpper(REGISTER_PAIR)
  {
    hide High, UpperHalf;
    HighOfBits(1, 0, 0, 0, 1, 0, 0, 1);
    HighOfBits(1, 0, 1, 0, 0, 0, 0, 1);
    PairBits();
  }

  lemma PairBits()
    ensures UpperHalf(true, false, false, false, true, false, false, true) == 0x8900
    ensures UpperHalf(true, false, true, false, false, false, false, true) == 0xA1 << 8
  {
  }

  lemma XorFacts(x: bv16, y: bv16)
    ensures Xor(x, x) == 0 && (Xor(x, y) == 0 ==> x == y)
  {
  }

  lemma XorCancels(x: bv16, y: bv16, z: bv16)
    ensures Xor(x, y) == Xor(x, z) ==> y == z
  {
  }

  lemma XorByteIs(a: byte, b: byte, v: byte)
    ensures XorByte(a, b) == v <==> Xor(High(a), High(b)) == High(v)
  {
    hide High, XorByte, Xor;
    XorByteXor(a, b);
    if Xor(High(a), High(b)) == High(v) {
      HighInjective(XorByte(a, b), v);
    }
  }

  lemma XorByteXor(a: byte, b: byte)
    ensures High(XorByte(a, b)) == Xor(High(a), High(b))
  {
    hide High, XorByte;
    XorByteBits(a, b);
  }

  lemma DifferenceIsByte(a: byte, b: byte)
    ensures LowerEmpty(Xor(High(a), High(b)))
    ensures Xor(High(a), High(b)) == 0 <==> a == b
  {
    hide High, XorByte;
    HighLowHalfEmpty(a, b);
    DifferenceIsZero(a, b);
  }

  lemma DifferenceIsZero(a: byte, b: byte)
    ensures Xor(High(a), High(b)) == 0 <==> a == b
  {
    hide High, Xor;
    XorFacts(High(a), High(b));
    if High(a) == High(b) {
      HighInjective(a, b);
    }
  }

  /** Which byte stands in the lower half of a register that differs from `x` by the pair. */
  lemma LowerByteIs(x: bv16, y: bv16, k: byte)
    requires Xor(x, y) == REGISTER_PAIR
    ensures Lower(y) == k <==> XorByte(Lower(x), k) == 0xA1
  {
    hide High, XorByte, Lower, Xor, ToUpper;
    LowerXor(x, y);
    HighOfPair();
    XorByteIs(Lower(x), k, 0xA1);
    XorCancels(High(Lower(x)), High(Lower(y)), High(k));
    if High(Lower(y)) == High(k) {
      HighInjective(Lower(y), k);
    }
  }

  lemma LastByte(s: seq<byte>, a: byte)
    ensures CrcFrom(0xFFFF, s + [a]) == ByteStep(CrcFrom(0xFFFF, s), High(a))
  {
    hide ByteStep, High;
    assert (s + [a])[..|s|] == s;
  }

  lemma StepXor(c: bv16, g: bv16, h: bv16)
    ensures Iterate(Shift, 8, Xor(g, h)) == Xor(ByteStep(c, g), ByteStep(c, h))
  {
    hide ByteStep, Iterate, Shift;
    StepDifference(c, g, h, ByteStep(c, g) ^ ByteStep(c, h));
  }

  /** After a register has read `a`, and another from the same state `b`. */
  lemma StepPair(c: bv16, a: byte, b: byte, k: byte)
    ensures var x, y := ByteStep(c, High(a)), ByteStep(c, High(b));
            Upper(x) == Upper(y) && Lower(y) == k
            <==> (a == b && k == Lower(x)) || (XorByte(a, b) == 0x89 && XorByte(Lower(x), k) == 0xA1)
  {
    hide High, Upper, Lower, XorByte, ByteStep, Iterate, Shift, Xor, UpperEmpty, LowerEmpty, ToUpper;
    var x, y := ByteStep(c, High(a)), ByteStep(c, High(b));
    var d := Xor(High(a), High(b));
    StepXor(c, High(a), High(b));
    DifferenceIsByte(a, b);
    StepLeavesUpperHalf(d);
    SameUpper(x, y);
    HighOfPair();
    XorByteIs(a, b, 0x89);
    if d == DATA_PAIR {
      PairIsNotZero();
      LowerByteIs(x, y, k);
    }
  }

  lemma PairIsNotZero()
    ensures DATA_PAIR != 0
  {
  }

  /** A number with the upper byte of one register and the byte `k` below it. */
  lemma RegisterBytes(x: bv16, y: bv16, m: u16, n: u16, k: byte)
    requires m == x as int && n == y as int
    ensures n == m / 0x100 * 0x100 + k as int <==> Upper(x) == Upper(y) && Lower(y) == k
  {
    SameBytes(m, n, k);
  }

  lemma SameBytes(m: u16, n: u16, k: byte)
    ensures n == m / 0x100 * 0x100 + k as int <==> m / 0x100 == n / 0x100 && n % 0x100 == k as int
  {
  }

  /** The one undetected pair: when the last covered byte and the first checksum byte behind it are changed,
      the checksum still fits if and only if nothing was changed, or the bytes differ by 89 and A1
      (hexadecimal). */
  lemma UndetectedPair(s: seq<byte>, a: byte, b: byte, k: byte)
    ensures var was := Crc(s + [a]);
            Crc(s + [b]) == was / 0x100 * 0x100 + k as int
            <==> (a == b && k == was % 0x100) || (XorByte(a, b) == 0x89 && XorByte(was % 0x100, k) == 0xA1)
  {
    hide High, XorByte, ByteStep, CrcFrom, Upper;
    var c := CrcFrom(0xFFFF, s);
    LastByte(s, a);
    LastByte(s, b);
    StepPair(c, a, b, k);
    RegisterBytes(ByteStep(c, High(a)), ByteStep(c, High(b)), Crc(s + [a]), Crc(s + [b]), k);
  }
}
