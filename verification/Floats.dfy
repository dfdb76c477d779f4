/**
  The real numbers that 32-bit floating-point patterns stand for: a sign bit, eight exponent bits and 23 fraction
  bits, as in IEEE 754 binary32.
 */
module Floats {
  import opened Bytes

  function Negative(bits: u32): bool { bits >= 0x8000_0000 }

  function Exponent(bits: u32): (e: nat)
    ensures e < 0x100 && bits % 0x8000_0000 == e * 0x80_0000 + Fraction(bits)
  {
    bits % 0x8000_0000 / 0x80_0000
  }

  function Fraction(bits: u32): (f: nat)
    ensures f < 0x80_0000
  {
    bits % 0x80_0000
  }

  /** Neither an infinity nor a NaN. */
  predicate IsNumber(bits: u32) { Exponent(bits) < 255 }

  function Power2(e: int): (p: real)
    ensures p > 0.0
    decreases if e < 0 then -e else e
  {
    if e == 0 then 1.0 else if e > 0 then 2.0 * Power2(e - 1) else Power2(e + 1) / 2.0
  }

  /** A number with exponent 0 has no leading one. */
  function Magnitude(e: nat, f: nat): real {
    if e == 0 then Scaled(f, Power2(-149)) else Scaled(0x80_0000 + f, Power2(e as int - 150))
  }

  function Scaled(n: nat, p: real): real { n as real * p }

  function Value(bits: u32): real
    requires IsNumber(bits)
  {
    var m := Magnitude(Exponent(bits), Fraction(bits));
    if Negative(bits) then -m else m
  }

  // ---- Powers of two ----

  lemma Doubles(e: int)
    ensures Power2(e + 1) == 2.0 * Power2(e)
  {
  }

  lemma {:induction false} PowersGrow(d: int, e: int)
    requires d <= e
    ensures Power2(d) <= Power2(e)
    decreases e - d
  {
    if d < e {
      PowersGrow(d, e - 1);
      Doubles(e - 1);
    }
  }

  // ---- Patterns of numbers from 0 on are in the order of the numbers ----

  lemma Scales(x: real, y: real, p: real)
    requires p > 0.0
    ensures x < y <==> x * p < y * p
    ensures x <= y <==> x * p <= y * p
  {
  }

  /** Between its power of two and the next one; below the first with exponent 0. */
  lemma Bounds(e: nat, f: nat)
    requires f < 0x80_0000
    ensures Magnitude(e, f) < 8388608.0 * Power2(if e == 0 then -149 else e as int - 149)
    ensures Magnitude(e, f) >= if e == 0 then 0.0 else 8388608.0 * Power2(e as int - 150)
  {
    hide Power2, Scaled;
    var n: nat, k: int := if e == 0 then f else 0x80_0000 + f, if e == 0 then -149 else e as int - 150;
    Doubles(k);
    Sized(n, Power2(k));
  }

  lemma Sized(n: nat, p: real)
    requires p > 0.0
    ensures n < 0x80_0000 ==> 0.0 <= Scaled(n, p) < 8388608.0 * p
    ensures 0x80_0000 <= n < 0x100_0000 ==> 8388608.0 * p <= Scaled(n, p) < 8388608.0 * (2.0 * p)
  {
    hide Scaled;
    RoundSizes(p);
    ScaledOrder(0, n, p);
    ScaledOrder(n, 0x80_0000, p);
    ScaledOrder(0x80_0000, n, p);
    ScaledOrder(n, 0x100_0000, p);
  }

  lemma ScaledOrder(m: nat, n: nat, p: real)
    requires p > 0.0
    ensures m < n ==> Scaled(m, p) < Scaled(n, p)
    ensures m <= n ==> Scaled(m, p) <= Scaled(n, p)
  {
    Scales(m as real, n as real, p);
  }

  lemma RoundSizes(p: real)
    ensures Scaled(0, p) == 0.0 && Scaled(0x80_0000, p) == 8388608.0 * p
    ensures Scaled(0x100_0000, p) == 8388608.0 * (2.0 * p)
  {
  }

  lemma LargerExponent(d: nat, f: nat, e: nat, g: nat)
    requires d < e && f < 0x80_0000 && g < 0x80_0000
    ensures Magnitude(d, f) < Magnitude(e, g)
  {
    Bounds(d, f);
    Bounds(e, g);
    PowersGrow(if d == 0 then -149 else d as int - 149, e as int - 150);
  }

  lemma LargerFraction(e: nat, f: nat, g: nat)
    requires f < g
    ensures Magnitude(e, f) < Magnitude(e, g)
  {
    hide Power2, Scaled;
    if e == 0 {
      ScaledOrder(f, g, Power2(-149));
    } else {
      ScaledOrder(0x80_0000 + f, 0x80_0000 + g, Power2(e as int - 150));
    }
  }

  lemma OrderKept(a: u32, b: u32)
    requires a < b < 0x7F80_0000
    ensures Value(a) < Value(b)
  {
    hide Magnitude;
    if Exponent(a) < Exponent(b) {
      LargerExponent(Exponent(a), Fraction(a), Exponent(b), Fraction(b));
    } else {
      LargerFraction(Exponent(a), Fraction(a), Fraction(b));
    }
  }

  /** The patterns below 7F80_0000 hex, those of the numbers from 0 on, are in the order of the numbers. */
  lemma PatternOrder(a: u32, b: u32)
    requires a < 0x7F80_0000 && b < 0x7F80_0000
    ensures a <= b <==> Value(a) <= Value(b)
    ensures Value(a) >= 0.0
  {
    hide Value, Magnitude;
    if a < b {
      OrderKept(a, b);
    }
    if b < a {
      OrderKept(b, a);
    }
    Bounds(Exponent(a), Fraction(a));
    NonNegative(a);
  }

  lemma NonNegative(a: u32)
    requires a < 0x7F80_0000
    ensures Value(a) == Magnitude(Exponent(a), Fraction(a))
  {
  }

  /** A pattern is that of a number between two numbers from 0 on exactly when it lies between their patterns. */
  lemma BetweenExactly(bits: u32, low: u32, high: u32)
    requires 0 < low <= high < 0x7F80_0000 && IsNumber(low) && IsNumber(high)
    ensures low <= bits <= high <==> IsNumber(bits) && Value(low) <= Value(bits) <= Value(high)
  {
    hide Value, Magnitude;
    if bits < 0x7F80_0000 {
      PatternOrder(low, bits);
      PatternOrder(bits, high);
    } else if IsNumber(bits) {
      SignFlips(bits);
      PatternOrder(bits % 0x8000_0000, low);
      PatternOrder(0, low);
      PatternOrder(low, 0);
      Zero();
    }
  }

  lemma Zero()
    ensures Value(0) == 0.0
  {
  }

  lemma SignFlips(bits: u32)
    requires 0x8000_0000 <= bits && IsNumber(bits)
    ensures bits % 0x8000_0000 < 0x7F80_0000 && Value(bits) == -Value(bits % 0x8000_0000)
  {
    hide Magnitude;
    assert Exponent(bits) == Exponent(bits % 0x8000_0000) && Fraction(bits) == Fraction(bits % 0x8000_0000);
  }

  /** Without its sign, a pattern is at most that of a number exactly when its own number is no larger in size. */
  lemma SizeExactly(bits: u32, max: u32)
    requires max < 0x7F80_0000
    ensures bits % 0x8000_0000 <= max <==> IsNumber(bits) && -Value(max) <= Value(bits) <= Value(max)
  {
    hide Value, Magnitude;
    if IsNumber(bits) {
      if bits >= 0x8000_0000 {
        SignFlips(bits);
      }
      PatternOrder(bits % 0x8000_0000, max);
      PatternOrder(max, max);
    }
  }

  // ---- The limits that the vehicle checks ----

  lemma SmallPowers()
    ensures Power2(-18) == 1.0 / 262144.0 && Power2(-20) == 1.0 / 1048576.0 && Power2(-22) == 1.0 / 4194304.0
    ensures Power2(-23) == 1.0 / 8388608.0
  {
    FourDown(0);
    FourDown(-4);
    FourDown(-8);
    FourDown(-12);
    Doubles(-17);
    Doubles(-18);
    FourDown(-18);
    Doubles(-20);
    Doubles(-19);
    Doubles(-23);
  }

  lemma FourDown(e: int)
    ensures Power2(e - 4) == Power2(e) / 16.0
  {
    Doubles(e - 1);
    Doubles(e - 2);
    Doubles(e - 3);
    Doubles(e - 4);
  }

  lemma ValueOf(bits: u32, e: nat, f: nat)
    requires 0 < e < 255 && f < 0x80_0000 && bits as int == e * 0x80_0000 + f
    ensures IsNumber(bits) && Value(bits) == (0x80_0000 + f) as real * Power2(e as int - 150)
  {
    hide Power2, Exponent, Fraction;
    assert Exponent(bits) == e && Fraction(bits) == f;
  }

  lemma Limits()
    ensures IsNumber(0x4000_0000) && Value(0x4000_0000) == 2.0
    ensures IsNumber(0x4100_0000) && Value(0x4100_0000) == 8.0
    ensures IsNumber(0x4248_0000) && Value(0x4248_0000) == 50.0
    ensures IsNumber(0x4049_0FDB) && Value(0x4049_0FDB) == 13176795.0 / 4194304.0
    ensures IsNumber(0x3FC9_0FDB) && Value(0x3FC9_0FDB) == 13176795.0 / 8388608.0
  {
    hide Value, Power2, IsNumber;
    SmallPowers();
    ValueOf(0x4000_0000, 128, 0);
    ValueOf(0x4100_0000, 130, 0);
    ValueOf(0x4248_0000, 132, 0x48_0000);
    ValueOf(0x4049_0FDB, 128, 0x49_0FDB);
    ValueOf(0x3FC9_0FDB, 127, 0x49_0FDB);
  }
}
