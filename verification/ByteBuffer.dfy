/**
  Writing integers into a byte buffer in place, least significant byte first.
 */
module ByteBuffer {
  import opened Bytes

  method PutByte(buf: array<byte>, at: nat, v: byte)
    requires at < buf.Length
    modifies buf
    ensures buf[..at + 1] == old(buf[..at]) + [v] && buf[at + 1..] == old(buf[at + 1..])
  {
    buf[at] := v;
  }

  method PutU16(buf: array<byte>, at: nat, v: u16)
    requires at + 2 <= buf.Length
    modifies buf
    ensures buf[..at + 2] == old(buf[..at]) + U16(v) && buf[at + 2..] == old(buf[at + 2..])
  {
    buf[at] := v % 0x100;
    buf[at + 1] := v / 0x100;
  }

  method PutU32(buf: array<byte>, at: nat, v: u32)
    requires at + 4 <= buf.Length
    modifies buf
    ensures buf[..at + 4] == old(buf[..at]) + U32(v) && buf[at + 4..] == old(buf[at + 4..])
  {
    PutU16(buf, at, v % 0x1_0000);
    PutU16(buf, at + 2, v / 0x1_0000);
    assert buf[at + 4..] == old(buf[at + 2..])[2..];
  }

  method PutU64(buf: array<byte>, at: nat, v: u64)
    requires at + 8 <= buf.Length
    modifies buf
    ensures buf[..at + 8] == old(buf[..at]) + U64(v) && buf[at + 8..] == old(buf[at + 8..])
  {
    PutU32(buf, at, v % 0x1_0000_0000);
    PutU32(buf, at + 4, v / 0x1_0000_0000);
    assert buf[at + 8..] == old(buf[at + 4..])[4..];
  }

  method PutI16(buf: array<byte>, at: nat, v: i16)
    requires at + 2 <= buf.Length
    modifies buf
    ensures buf[..at + 2] == old(buf[..at]) + I16(v) && buf[at + 2..] == old(buf[at + 2..])
  {
    PutU16(buf, at, Unsigned16(v));
  }

  method PutI32(buf: array<byte>, at: nat, v: i32)
    requires at + 4 <= buf.Length
    modifies buf
    ensures buf[..at + 4] == old(buf[..at]) + I32(v) && buf[at + 4..] == old(buf[at + 4..])
  {
    PutU32(buf, at, Unsigned32(v));
  }
}
