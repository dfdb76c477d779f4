/**
  Wire-level integers.  A byte is an integer in 0..255; multi-byte integers are little-endian.
  Floating-point values travel as their 32-bit patterns.
 */
module Bytes {
  type byte = x: int | 0 <= x < 0x100
  type u16 = x: int | 0 <= x < 0x1_0000
  type u32 = x: int | 0 <= x < 0x1_0000_0000
  type u64 = x: int | 0 <= x < 0x1_0000_0000_0000_0000
  type i16 = x: int | -0x8000 <= x < 0x8000
  type i32 = x: int | -0x8000_0000 <= x < 0x8000_0000

  /** The line feed that ends a line of text. */
  const LF: byte := 0x0A

  /** How many waypoints a route can have. */
  const MAX_WAYPOINTS: nat := 37

  datatype Option<+T> = None | Some(value: T)

  /** One more on an unsigned 32-bit, 16-bit or 8-bit counter, with the wrap-around of C. */
  function Inc32(n: u32): u32 { if n == 0xFFFF_FFFF then 0 else n + 1 }

  function Inc16(n: u16): u16 { if n == 0xFFFF then 0 else n + 1 }

  function Inc8(n: byte): byte { if n == 0xFF then 0 else n + 1 }

  /** Unsigned 32-bit addition and subtraction, with the wrap-around of C. */
  function Add32(a: u32, b: u32): u32 { if a + b < 0x1_0000_0000 then a + b else a + b - 0x1_0000_0000 }

  function Sub32(a: u32, b: u32): u32 { if a >= b then a - b else a - b + 0x1_0000_0000 }

  /** Truncation to 16 bits. */
  function Low16(n: nat): u16 { n % 0x1_0000 }

  // ---- Printers ----

  function U16(v: u16): (s: seq<byte>)
    ensures |s| == 2
  {
    [v % 0x100, v / 0x100]
  }

  function U32(v: u32): (s: seq<byte>)
    ensures |s| == 4
  {
    U16(v % 0x1_0000) + U16(v / 0x1_0000)
  }

  function U64(v: u64): (s: seq<byte>)
    ensures |s| == 8
  {
    U32(v % 0x1_0000_0000) + U32(v / 0x1_0000_0000)
  }

  /** Two's complement. */
  function Unsigned16(v: i16): u16 { if v < 0 then v + 0x1_0000 else v }

  function Unsigned32(v: i32): u32 { if v < 0 then v + 0x1_0000_0000 else v }

  function Signed16(v: u16): i16 { if v < 0x8000 then v else v - 0x1_0000 }

  function Signed32(v: u32): i32 { if v < 0x8000_0000 then v else v - 0x1_0000_0000 }

  function I16(v: i16): (s: seq<byte>)
    ensures |s| == 2
  {
    U16(Unsigned16(v))
  }

  function I32(v: i32): (s: seq<byte>)
    ensures |s| == 4
  {
    U32(Unsigned32(v))
  }

  // ---- Readers ----

  function ReadU16(s: seq<byte>, at: nat): u16
    requires at + 2 <= |s|
  {
    var lo: int, hi: int := s[at], s[at + 1];
    lo + 0x100 * hi
  }

  function ReadU32(s: seq<byte>, at: nat): u32
    requires at + 4 <= |s|
  {
    ReadU16(s, at) + 0x1_0000 * ReadU16(s, at + 2)
  }

  function ReadU64(s: seq<byte>, at: nat): u64
    requires at + 8 <= |s|
  {
    ReadU32(s, at) + 0x1_0000_0000 * ReadU32(s, at + 4)
  }

  function ReadI16(s: seq<byte>, at: nat): i16
    requires at + 2 <= |s|
  {
    Signed16(ReadU16(s, at))
  }

  function ReadI32(s: seq<byte>, at: nat): i32
    requires at + 4 <= |s|
  {
    Signed32(ReadU32(s, at))
  }

  function Octet(s: seq<byte>, at: nat): int
    requires at < |s|
  {
    s[at]
  }

  /** Every reader takes the low byte first, and signed numbers are two's complement. */
  lemma LittleEndian(s: seq<byte>, at: nat)
    requires at + 2 <= |s|
    ensures var n := Octet(s, at) + 256 * Octet(s, at + 1);
            ReadU16(s, at) == n && ReadI16(s, at) == if Octet(s, at + 1) >= 128 then n - 65536 else n
    ensures at + 4 <= |s| ==>
              var n := Octet(s, at) + 256 * Octet(s, at + 1) + 65536 * Octet(s, at + 2) + 16777216 * Octet(s, at + 3);
              ReadU32(s, at) == n && ReadI32(s, at) == if Octet(s, at + 3) >= 128 then n - 4294967296 else n
    ensures at + 8 <= |s| ==> ReadU64(s, at) == ReadU32(s, at) + 4294967296 * ReadU32(s, at + 4)
  {
  }

  // ---- Reading back what was printed at an offset, and printing what was read ----

  lemma ReadsU16(s: seq<byte>, at: nat, v: u16)
    requires at + 2 <= |s| && s[at..at + 2] == U16(v)
    ensures ReadU16(s, at) == v
  {
    assert s[at] == s[at..at + 2][0] && s[at + 1] == s[at..at + 2][1];
  }

  lemma ReadsU32(s: seq<byte>, at: nat, v: u32)
    requires at + 4 <= |s| && s[at..at + 4] == U32(v)
    ensures ReadU32(s, at) == v
  {
    assert s[at..at + 2] == s[at..at + 4][..2] == U16(v % 0x1_0000);
    assert s[at + 2..at + 4] == s[at..at + 4][2..] == U16(v / 0x1_0000);
    ReadsU16(s, at, v % 0x1_0000);
    ReadsU16(s, at + 2, v / 0x1_0000);
  }

  lemma ReadsU64(s: seq<byte>, at: nat, v: u64)
    requires at + 8 <= |s| && s[at..at + 8] == U64(v)
    ensures ReadU64(s, at) == v
  {
    assert s[at..at + 4] == s[at..at + 8][..4] == U32(v % 0x1_0000_0000);
    assert s[at + 4..at + 8] == s[at..at + 8][4..] == U32(v / 0x1_0000_0000);
    ReadsU32(s, at, v % 0x1_0000_0000);
    ReadsU32(s, at + 4, v / 0x1_0000_0000);
  }

  lemma PrintsU16(s: seq<byte>, at: nat)
    requires at + 2 <= |s|
    ensures U16(ReadU16(s, at)) == s[at..at + 2]
  {
  }

  lemma PrintsU32(s: seq<byte>, at: nat)
    requires at + 4 <= |s|
    ensures U32(ReadU32(s, at)) == s[at..at + 4]
  {
    PrintsU16(s, at);
    PrintsU16(s, at + 2);
    assert ReadU32(s, at) % 0x1_0000 == ReadU16(s, at);
    assert s[at..at + 4] == s[at..at + 2] + s[at + 2..at + 4];
  }

  // ---- Damage ----

  /** Replaces the bytes of `s` from `at` on by `w`. */
  function Overwritten(s: seq<byte>, at: nat, w: seq<byte>): seq<byte>
    requires at + |w| <= |s|
  {
    s[..at] + w + s[at + |w|..]
  }

  lemma WritesChange(s: seq<byte>, at: nat, a: byte, b: byte)
    requires at + 2 <= |s|
    ensures s[at] == a && s[at + 1] == b ==> Overwritten(s, at, [a, b]) == s
  {
  }
}
