/**
  CRC-16/CCITT-FALSE (polynomial 0x1021, initial value 0xFFFF), the checksum every binary frame of
  the link carries, and its error-detection strength.
 */
module Crc16 {
  import opened Bytes

  function Iterate<T>(f: T -> T, n: nat, x: T): T {
    if n == 0 then x else f(Iterate(f, n - 1, x))
  }

  /** One bit of the checksum register. */
  function Shift(c: bv16): bv16 {
    if c & 0x8000 != 0 then (c << 1) ^ 0x1021 else c << 1
  }

  /** A byte, moved to the upper half of the register: bit k of the byte is bit 8 + k of the result. */
  function High(b: byte): bv16 {
    var n0: nat := b as int;
    var n1 := Half(n0);
    var n2 := Half(n1);
    var n3 := Half(n2);
    var n4 := Half(n3);
    var n5 := Half(n4);
    var n6 := Half(n5);
    var n7 := Half(n6);
    UpperHalf(Odd(n7), Odd(n6), Odd(n5), Odd(n4), Odd(n3), Odd(n2), Odd(n1), Odd(n0))
  }

  function Half(n: nat): nat { n / 2 }

  predicate Odd(n: nat) { n % 2 == 1 }

  function Flag(on: bool, mask: bv16): bv16 { if on then mask else 0 }

  function UpperHalf(b7: bool, b6: bool, b5: bool, b4: bool, b3: bool, b2: bool, b1: bool, b0: bool): bv16 {
    Flag(b7, 0x8000) | Flag(b6, 0x4000) | Flag(b5, 0x2000) | Flag(b4, 0x1000)
    | Flag(b3, 0x0800) | Flag(b2, 0x0400) | Flag(b1, 0x0200) | Flag(b0, 0x0100)
  }

  /** The register after one byte, given in the upper half of `h`. */
  function ByteStep(c: bv16, h: bv16): bv16 {
    Iterate(Shift, 8, c ^ h)
  }

  function CrcFrom(c: bv16, s: seq<byte>): bv16 {
    if s == [] then c else ByteStep(CrcFrom(c, s[..|s| - 1]), High(s[|s| - 1]))
  }

  function Crc(s: seq<byte>): u16 {
    CrcFrom(0xFFFF, s) as u16
  }

  /** The bit-by-bit loop over a buffer computes `Crc` of its first `len` bytes. */
  method Compute(data: array<byte>, len: nat) returns (crc: u16)
    requires len <= data.Length
    ensures crc == Crc(data[..len])
  {
    hide High;
    var c: bv16 := 0xFFFF;
    for i := 0 to len
      invariant c == CrcFrom(0xFFFF, data[..i])
    {
      c := ShiftOutByte(c ^ High(data[i]));
      assert data[..i + 1][..i] == data[..i];
    }
    crc := c as u16;
  }

  method ShiftOutByte(c: bv16) returns (r: bv16)
    ensures r == Iterate(Shift, 8, c)
  {
    r := c;
    for j := 0 to 8
      invariant r == Iterate(Shift, j, c)
    {
      r := Shift(r);
    }
  }

  // ---- Algebra: the register is linear over exclusive-or, and every byte step is a bijection ----

  /** The branch of `Shift`, written as a mask. */
  function Masked(c: bv16): bv16 {
    (c << 1) ^ ((0 - (c >> 15)) & 0x1021)
  }

  lemma MaskSet(c: bv16)
    requires c & 0x8000 != 0
    ensures (0 - (c >> 15)) & 0x1021 == 0x1021
  {
  }

  lemma MaskClear(c: bv16)
    requires c & 0x8000 == 0
    ensures (0 - (c >> 15)) & 0x1021 == 0
    ensures (c << 1) ^ 0 == c << 1
  {
  }

  lemma ShiftIsMasked(c: bv16)
    ensures Shift(c) == Masked(c)
  {
    if c & 0x8000 != 0 {
      MaskSet(c);
    } else {
      MaskClear(c);
    }
  }

  lemma MaskedLinear(x: bv16, y: bv16)
    ensures Masked(x ^ y) == Masked(x) ^ Masked(y)
  {
  }

  lemma MaskedInjective(x: bv16, y: bv16)
    requires Masked(x) == Masked(y)
    ensures x == y
  {
  }

  ghost predicate Linear<T(!new)>(f: T -> T, add: (T, T) -> T) {
    forall x, y :: f(add(x, y)) == add(f(x), f(y))
  }

  ghost predicate Injective<T(!new)>(f: T -> T) {
    forall x, y :: f(x) == f(y) ==> x == y
  }

  lemma {:induction false} IterateLinear<T(!new)>(f: T -> T, add: (T, T) -> T, n: nat, x: T, y: T)
    requires Linear(f, add)
    ensures Iterate(f, n, add(x, y)) == add(Iterate(f, n, x), Iterate(f, n, y))
  {
    if n > 0 {
      IterateLinear(f, add, n - 1, x, y);
    }
  }

  lemma {:induction false} IterateInjective<T(!new)>(f: T -> T, n: nat, x: T, y: T)
    requires Injective(f) && Iterate(f, n, x) == Iterate(f, n, y)
    ensures x == y
  {
    if n > 0 {
      IterateInjective(f, n - 1, x, y);
    }
  }

  function Xor(x: bv16, y: bv16): bv16 { x ^ y }

  lemma ShiftIsLinear()
    ensures Linear(Shift, Xor)
  {
    forall x, y ensures Shift(Xor(x, y)) == Xor(Shift(x), Shift(y)) {
      ShiftIsMasked(x);
      ShiftIsMasked(y);
      ShiftIsMasked(x ^ y);
      MaskedLinear(x, y);
    }
  }

  lemma ShiftIsInjective()
    ensures Injective(Shift)
  {
    forall x, y | Shift(x) == Shift(y) ensures x == y {
      ShiftIsMasked(x);
      ShiftIsMasked(y);
      MaskedInjective(x, y);
    }
  }

  lemma Unrolled<T>(f: T -> T, x: T)
    ensures Iterate(f, 8, x) == f(f(f(f(f(f(f(f(x))))))))
  {
    var x4 := f(f(f(f(x))));
    assert Iterate(f, 2, x) == f(f(x));
    assert Iterate(f, 4, x) == x4;
    assert Iterate(f, 6, x) == f(f(x4));
  }

  lemma {:induction false} IterateSame<T(!new)>(f: T -> T, g: T -> T, n: nat, x: T)
    requires forall y :: f(y) == g(y)
    ensures Iterate(f, n, x) == Iterate(g, n, x)
  {
    if n > 0 {
      IterateSame(f, g, n - 1, x);
    }
  }

  lemma MaskedKernel(d: bv16)
    requires d & 0xFF == 0
    requires Masked(Masked(Masked(Masked(Masked(Masked(Masked(Masked(d)))))))) & 0xFF == 0
    ensures d == 0
  {
  }

  /** A byte step of a byte-sized difference always reaches the lower half of the register. */
  lemma StepReachesLowHalf(d: bv16)
    requires d & 0xFF == 0 && Iterate(Shift, 8, d) & 0xFF == 0
    ensures d == 0
  {
    forall y ensures Shift(y) == Masked(y) {
      ShiftIsMasked(y);
    }
    IterateSame(Shift, Masked, 8, d);
    Unrolled(Masked, d);
    MaskedKernel(d);
  }

  lemma HighLowHalfEmpty(a: byte, b: byte)
    ensures (High(a) ^ High(b)) & 0xFF == 0
  {
    LowHalfEmpty(a);
    LowHalfEmpty(b);
    EmptyXor(High(a), High(b));
  }

  lemma EmptyXor(x: bv16, y: bv16)
    requires x & 0xFF == 0 && y & 0xFF == 0
    ensures (x ^ y) & 0xFF == 0
  {
  }

  lemma LowHalfEmpty(b: byte)
    ensures High(b) & 0xFF == 0
  {
  }

  lemma UpperHalfInjective(a7: bool, a6: bool, a5: bool, a4: bool, a3: bool, a2: bool, a1: bool, a0: bool,
                           b7: bool, b6: bool, b5: bool, b4: bool, b3: bool, b2: bool, b1: bool, b0: bool)
    requires UpperHalf(a7, a6, a5, a4, a3, a2, a1, a0) == UpperHalf(b7, b6, b5, b4, b3, b2, b1, b0)
    ensures a7 == b7 && a6 == b6 && a5 == b5 && a4 == b4 && a3 == b3 && a2 == b2 && a1 == b1 && a0 == b0
  {
  }

  lemma HighInjective(a: byte, b: byte)
    requires High(a) == High(b)
    ensures a == b
  {
    hide UpperHalf, Half, Odd;
    var m0: nat, n0: nat := a as int, b as int;
    var m1, n1 := Half(m0), Half(n0);
    var m2, n2 := Half(m1), Half(n1);
    var m3, n3 := Half(m2), Half(n2);
    var m4, n4 := Half(m3), Half(n3);
    var m5, n5 := Half(m4), Half(n4);
    var m6, n6 := Half(m5), Half(n5);
    var m7, n7 := Half(m6), Half(n6);
    UpperHalfInjective(Odd(m7), Odd(m6), Odd(m5), Odd(m4), Odd(m3), Odd(m2), Odd(m1), Odd(m0),
                       Odd(n7), Odd(n6), Odd(n5), Odd(n4), Odd(n3), Odd(n2), Odd(n1), Odd(n0));
    EightHalvings(m0);
    EightHalvings(n0);
    SameNumber(m7, n7);
    SameNumber(m6, n6);
    SameNumber(m5, n5);
    SameNumber(m4, n4);
    SameNumber(m3, n3);
    SameNumber(m2, n2);
    SameNumber(m1, n1);
    SameNumber(m0, n0);
  }

  lemma EightHalvings(n: nat)
    requires n < 0x100
    ensures Half(Half(Half(Half(Half(Half(Half(Half(n)))))))) == 0
  {
  }

  /** Numbers with the same half and the same parity are the same. */
  lemma SameNumber(m: nat, n: nat)
    requires Half(m) == Half(n) && Odd(m) == Odd(n)
    ensures m == n
  {
  }

  lemma ByteStepInjective(c: bv16, d: bv16, h: bv16)
    requires ByteStep(c, h) == ByteStep(d, h)
    ensures c == d
  {
    ShiftIsInjective();
    IterateInjective(Shift, 8, c ^ h, d ^ h);
    XorCancel(c, d, h);
  }

  lemma XorCancel(c: bv16, d: bv16, h: bv16)
    requires c ^ h == d ^ h
    ensures c == d
  {
  }

  lemma XorMove(c: bv16, d: bv16, x: bv16, y: bv16)
    requires c ^ x == d ^ y
    ensures c ^ d == x ^ y
  {
  }

  lemma XorRearrange(c: bv16, x: bv16, y: bv16)
    ensures (c ^ x) ^ (c ^ y) == x ^ y
  {
  }

  lemma XorZero(x: bv16, y: bv16)
    requires x ^ y == 0
    ensures x == y
  {
  }

  /** Two bytes fed into the same register leave different registers unless they are the same bytes. */
  lemma TwoStepsDistinct(c: bv16, g: bv16, h: bv16, g': bv16, h': bv16)
    requires ByteStep(ByteStep(c, g), h) == ByteStep(ByteStep(c, g'), h')
    requires (g ^ g') & 0xFF == 0 && (h ^ h') & 0xFF == 0
    ensures g == g' && h == h'
  {
    EqualSteps(ByteStep(c, g), ByteStep(c, g'), h, h');
    StepDifference(c, g, g', h ^ h');
    StepReachesLowHalf(g ^ g');
    XorZero(g, g');
    XorSame(ByteStep(c, g), h, h');
  }

  lemma XorSame(m: bv16, h: bv16, h': bv16)
    requires m ^ m == h ^ h'
    ensures h == h'
  {
  }

  lemma EqualSteps(m: bv16, m': bv16, h: bv16, h': bv16)
    requires ByteStep(m, h) == ByteStep(m', h')
    ensures m ^ m' == h ^ h'
  {
    ShiftIsInjective();
    IterateInjective(Shift, 8, m ^ h, m' ^ h');
    XorMove(m, m', h, h');
  }

  /** The registers two bytes lead to differ by what the difference of the bytes leads to. */
  lemma StepDifference(c: bv16, g: bv16, g': bv16, d: bv16)
    requires ByteStep(c, g) ^ ByteStep(c, g') == d
    ensures Iterate(Shift, 8, g ^ g') == d
  {
    XorRearrange(c, g, g');
    StepsLinear(c ^ g, c ^ g', g ^ g');
  }

  lemma StepsLinear(x: bv16, y: bv16, z: bv16)
    requires z == x ^ y
    ensures Iterate(Shift, 8, z) == Iterate(Shift, 8, x) ^ Iterate(Shift, 8, y)
  {
    ShiftIsLinear();
    IterateLinear(Shift, Xor, 8, x, y);
  }

  lemma {:induction false} CrcFromConcat(c: bv16, s: seq<byte>, t: seq<byte>)
    ensures CrcFrom(c, s + t) == CrcFrom(CrcFrom(c, s), t)
  {
    if t == [] {
      assert s + t == s;
    } else {
      assert (s + t)[..|s + t| - 1] == s + t[..|t| - 1];
      CrcFromConcat(c, s, t[..|t| - 1]);
    }
  }

  lemma {:induction false} CrcFromInjective(c: bv16, d: bv16, s: seq<byte>)
    requires CrcFrom(c, s) == CrcFrom(d, s)
    ensures c == d
  {
    if s != [] {
      ByteStepInjective(CrcFrom(c, s[..|s| - 1]), CrcFrom(d, s[..|s| - 1]), High(s[|s| - 1]));
      CrcFromInjective(c, d, s[..|s| - 1]);
    }
  }

  lemma RegisterBack(x: bv16, y: bv16)
    requires x as u16 == y as u16
    ensures x == y
  {
    assert (x as u16) as bv16 == x;
    assert (y as u16) as bv16 == y;
  }

  /** Burst detection: strings that differ only inside one window of at most two adjacent bytes
      have different checksums, whatever surrounds the window. */
  lemma BurstDetected(before: seq<byte>, w: seq<byte>, w': seq<byte>, after: seq<byte>)
    requires |w| == |w'| <= 2 && w != w'
    ensures Crc(before + w + after) != Crc(before + w' + after)
  {
    var c := CrcFrom(0xFFFF, before);
    CrcFromConcat(0xFFFF, before, w);
    CrcFromConcat(0xFFFF, before, w');
    CrcFromConcat(0xFFFF, before + w, after);
    CrcFromConcat(0xFFFF, before + w', after);
    if Crc(before + w + after) == Crc(before + w' + after) {
      RegisterBack(CrcFrom(0xFFFF, before + w + after), CrcFrom(0xFFFF, before + w' + after));
      CrcFromInjective(CrcFrom(c, w), CrcFrom(c, w'), after);
      ShortWindow(c, w, w');
    }
  }

  lemma ShortWindow(c: bv16, w: seq<byte>, w': seq<byte>)
    requires |w| == |w'| <= 2 && CrcFrom(c, w) == CrcFrom(c, w')
    ensures w == w'
  {
    if |w| == 1 {
      assert w == [w[0]] && w' == [w'[0]];
      OneByte(c, w[0]);
      OneByte(c, w'[0]);
      // One differing byte is a window of two whose second byte agrees.
      TwoBytesDistinct(c, w[0], 0, w'[0], 0);
    } else if |w| == 2 {
      assert w == [w[0], w[1]] && w' == [w'[0], w'[1]];
      TwoBytes(c, w[0], w[1]);
      TwoBytes(c, w'[0], w'[1]);
      TwoBytesDistinct(c, w[0], w[1], w'[0], w'[1]);
    }
  }

  lemma TwoBytesDistinct(c: bv16, a: byte, b: byte, a': byte, b': byte)
    requires ByteStep(ByteStep(c, High(a)), High(b)) == ByteStep(ByteStep(c, High(a')), High(b'))
    ensures a == a' && b == b'
  {
    HighLowHalfEmpty(a, a');
    HighLowHalfEmpty(b, b');
    TwoStepsDistinct(c, High(a), High(b), High(a'), High(b'));
    HighInjective(a, a');
    HighInjective(b, b');
  }

  lemma OneByte(c: bv16, a: byte)
    ensures CrcFrom(c, [a]) == ByteStep(c, High(a))
  {
    assert [a][..0] == [];
  }

  lemma TwoBytes(c: bv16, a: byte, b: byte)
    ensures CrcFrom(c, [a, b]) == ByteStep(ByteStep(c, High(a)), High(b))
  {
    assert [a, b][..1] == [a];
    OneByte(c, a);
  }

  // ---- The check value of the standard ----

  lemma EightShifts(x: bv16)
    ensures Iterate(Shift, 8, x) == Shift(Shift(Shift(Shift(Shift(Shift(Shift(Shift(x))))))))
  {
    hide Shift;
    var f := Shift;
    assert Iterate(f, 0, x) == x;
    assert Iterate(f, 1, x) == f(x);
    assert Iterate(f, 2, x) == f(Iterate(f, 1, x));
    assert Iterate(f, 3, x) == f(Iterate(f, 2, x));
    assert Iterate(f, 4, x) == f(Iterate(f, 3, x));
    assert Iterate(f, 5, x) == f(Iterate(f, 4, x));
    assert Iterate(f, 6, x) == f(Iterate(f, 5, x));
    assert Iterate(f, 7, x) == f(Iterate(f, 6, x));
  }

  lemma Halves(n: nat)
    ensures Half(n) <= n && (if Odd(n) then n == 2 * Half(n) + 1 else n == 2 * Half(n))
  {
  }

  /** The four high bits of a digit's code are 0011. */
  lemma BitsOfDigit(b: byte)
    requires 0x30 <= b < 0x40
    ensures var n0: nat := b as int;
            var n1 := Half(n0); var n2 := Half(n1); var n3 := Half(n2);
            High(b) == UpperHalf(false, false, true, true, Odd(n3), Odd(n2), Odd(n1), Odd(n0))
  {
    hide Half, Odd, UpperHalf;
    var n0: nat := b as int;
    var n1 := Half(n0);
    var n2 := Half(n1);
    var n3 := Half(n2);
    var n4 := Half(n3);
    var n5 := Half(n4);
    var n6 := Half(n5);
    Halves(n0);
    Halves(n1);
    Halves(n2);
    Halves(n3);
    Halves(n4);
    Halves(n5);
    Halves(n6);
    Halves(Half(n6));
  }

  lemma DigitsAreHigh()
    ensures High(0x31) == 0x3100 && High(0x32) == 0x3200 && High(0x33) == 0x3300
    ensures High(0x34) == 0x3400 && High(0x35) == 0x3500 && High(0x36) == 0x3600
    ensures High(0x37) == 0x3700 && High(0x38) == 0x3800 && High(0x39) == 0x3900
  {
    hide High;
    BitsOfDigit(0x31);
    BitsOfDigit(0x32);
    BitsOfDigit(0x33);
    BitsOfDigit(0x34);
    BitsOfDigit(0x35);
    BitsOfDigit(0x36);
    BitsOfDigit(0x37);
    BitsOfDigit(0x38);
    BitsOfDigit(0x39);
  }

  lemma NineShifts()
    ensures ByteStep(0xFFFF, 0x3100) == 0xC782
    ensures ByteStep(0xC782, 0x3200) == 0x3DBA
    ensures ByteStep(0x3DBA, 0x3300) == 0x5BCE
    ensures ByteStep(0x5BCE, 0x3400) == 0x5349
    ensures ByteStep(0x5349, 0x3500) == 0x4560
    ensures ByteStep(0x4560, 0x3600) == 0x2EF4
    ensures ByteStep(0x2EF4, 0x3700) == 0x7718
    ensures ByteStep(0x7718, 0x3800) == 0xA12B
    ensures ByteStep(0xA12B, 0x3900) == 0x29B1
  {
    hide Iterate;
    EightShifts(0xCEFF);
    EightShifts(0xF582);
    EightShifts(0x0EBA);
    EightShifts(0x6FCE);
    EightShifts(0x6649);
    EightShifts(0x7360);
    EightShifts(0x19F4);
    EightShifts(0x4F18);
    EightShifts(0x982B);
  }

  /** The check value of CRC-16/CCITT-FALSE: the checksum of the nine characters "123456789" is 29B1
      (hexadecimal); that of nothing is FFFF. */
  lemma CheckValue()
    ensures Crc([0x31, 0x32, 0x33, 0x34, 0x35, 0x36, 0x37, 0x38, 0x39]) == 0x29B1 && Crc([]) == 0xFFFF
  {
    hide High, ByteStep;
    DigitsAreHigh();
    NineShifts();
    var s: seq<byte> := [0x31, 0x32, 0x33, 0x34, 0x35, 0x36, 0x37, 0x38, 0x39];
    assert s[..9] == s;
    assert CrcFrom(0xFFFF, s[..0]) == 0xFFFF;
    CrcStep(s, 0);
    CrcStep(s, 1);
    CrcStep(s, 2);
    CrcStep(s, 3);
    CrcStep(s, 4);
    CrcStep(s, 5);
    CrcStep(s, 6);
    CrcStep(s, 7);
    CrcStep(s, 8);
  }

  lemma CrcStep(s: seq<byte>, i: nat)
    requires i < |s|
    ensures CrcFrom(0xFFFF, s[..i + 1]) == ByteStep(CrcFrom(0xFFFF, s[..i]), High(s[i]))
  {
    assert s[..i + 1][..i] == s[..i];
  }
}
