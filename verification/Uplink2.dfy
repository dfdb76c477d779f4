/**
  The two binary uplink frames: UP2 carries a command to the vehicle, ACK2 acknowledges a DL2 frame.
  The ground prints them, the vehicle parses them and forwards UP2 commands on its message bus.
 */
module Uplink2 {
  import opened Bytes
  import opened Crc16
  import opened CrcBoundary
  import Dl2

  const MAX_PAYLOAD: nat := 196

  datatype Command = Command(version: byte, commandClass: byte, seqNo: u16, flags: byte, payload: seq<byte>)

  // ---- Ground side: printers ----

  function Up2Body(c: Command): (s: seq<byte>)
    requires |c.payload| < 0x100
    ensures |s| == 7 + |c.payload|
  {
    [Dl2.UP2_MAGIC, |c.payload|, c.version, c.commandClass] + U16(c.seqNo) + [c.flags] + c.payload
  }

  function PrintUp2(c: Command): (s: seq<byte>)
    requires |c.payload| < 0x100
    ensures |s| == 9 + |c.payload|
  {
    Up2Body(c) + U16(Crc(Up2Body(c)))
  }

  /** The ground's builder refuses payloads above 246 bytes and truncates the sequence number. */
  function BuildUp2(version: byte, commandClass: byte, seqNo: nat, payload: seq<byte>, flags: byte): Option<seq<byte>> {
    if |payload| > 246 then None
    else Some(PrintUp2(Command(version, commandClass, seqNo % 0x1_0000, flags, payload)))
  }

  function PrintAck2(echo: u16): (s: seq<byte>)
    ensures |s| == 5
  {
    var head: seq<byte> := [Dl2.ACK2_MAGIC] + U16(echo);
    head + U16(Crc(head))
  }

  function BuildAck2(seqNo: nat): seq<byte> {
    PrintAck2(seqNo % 0x1_0000)
  }

  // ---- Vehicle side: parsers ----

  function ParseUp2(s: seq<byte>): Option<Command> {
    if |s| < 8 || s[0] != Dl2.UP2_MAGIC then None
    else
      var plen: int := s[1];
      if |s| < 9 + plen || plen > MAX_PAYLOAD then None
      else if Crc(s[..7 + plen]) != ReadU16(s, 7 + plen) then None
      else Some(Command(s[2], s[3], ReadU16(s, 4), s[6], s[7..7 + plen]))
  }

  function ParseAck2(s: seq<byte>): Option<u16> {
    if |s| < 5 || s[0] != Dl2.ACK2_MAGIC then None
    else if Crc(s[..3]) != ReadU16(s, 3) then None
    else Some(ReadU16(s, 1))
  }

  method ParseUp2Frame(buf: array<byte>, len: nat) returns (r: Option<Command>)
    requires len <= buf.Length
    ensures r == ParseUp2(buf[..len])
  {
    hide Crc, ReadU16;
    if len < 8 || buf[0] != Dl2.UP2_MAGIC {
      return None;
    }
    var plen: int := buf[1];
    if len < 9 + plen || plen > MAX_PAYLOAD {
      return None;
    }
    var actual := Compute(buf, 7 + plen);
    assert buf[..7 + plen] == buf[..len][..7 + plen];
    if actual != ReadU16(buf[..len], 7 + plen) {
      return None;
    }
    r := Some(Command(buf[2], buf[3], ReadU16(buf[..len], 4), buf[6], buf[7..7 + plen]));
    assert buf[7..7 + plen] == buf[..len][7..7 + plen];
  }

  method ParseAck2Frame(buf: array<byte>, len: nat) returns (r: Option<u16>)
    requires len <= buf.Length
    ensures r == ParseAck2(buf[..len])
  {
    hide Crc, ReadU16;
    if len < 5 || buf[0] != Dl2.ACK2_MAGIC {
      return None;
    }
    var actual := Compute(buf, 3);
    assert buf[..3] == buf[..len][..3];
    if actual != ReadU16(buf[..len], 3) {
      return None;
    }
    r := Some(ReadU16(buf[..len], 1));
  }

  // ---- The parsers accept exactly what the printers print ----

  lemma ReadsCommand(s: seq<byte>, c: Command)
    requires |c.payload| < 0x100 && Up2Body(c) <= s
    ensures s[0] == Dl2.UP2_MAGIC && s[1] == |c.payload| && s[2] == c.version && s[3] == c.commandClass
    ensures ReadU16(s, 4) == c.seqNo && s[6] == c.flags && s[7..7 + |c.payload|] == c.payload
  {
    var b := Up2Body(c);
    assert s[4] == b[4] == U16(c.seqNo)[0] && s[5] == b[5] == U16(c.seqNo)[1];
    assert s[7..7 + |c.payload|] == b[7..7 + |c.payload|];
  }

  lemma CommandRead(s: seq<byte>, n: nat)
    requires 7 + n <= |s| && s[0] == Dl2.UP2_MAGIC && s[1] == n
    ensures s[..7 + n] == Up2Body(Command(s[2], s[3], ReadU16(s, 4), s[6], s[7..7 + n]))
  {
    var c := Command(s[2], s[3], ReadU16(s, 4), s[6], s[7..7 + n]);
    PrintsU16(s, 4);
    var b := Up2Body(c);
    assert b == s[..4] + s[4..6] + s[6..7] + s[7..7 + n];
  }

  /** What a buffer that begins with a printed frame holds where. */
  lemma PrintedParts(s: seq<byte>, c: Command)
    requires |c.payload| <= MAX_PAYLOAD && PrintUp2(c) <= s
    ensures var n := |c.payload|; s[..7 + n] == Up2Body(c) && ReadU16(s, 7 + n) == Crc(Up2Body(c))
  {
    hide Crc, Up2Body, U16, ReadU16;
    var w, n := PrintUp2(c), |c.payload|;
    assert forall i :: 0 <= i < |w| ==> s[i] == w[i];
    assert s[..7 + n] == Up2Body(c);
    assert s[7 + n..9 + n] == U16(Crc(Up2Body(c)));
    ReadsU16(s, 7 + n, Crc(Up2Body(c)));
  }

  /** A frame is accepted as `c` exactly when the buffer begins with what the ground prints for `c`. */
  lemma Up2Exact(s: seq<byte>, c: Command)
    ensures ParseUp2(s) == Some(c) <==> |c.payload| <= MAX_PAYLOAD && PrintUp2(c) <= s
  {
    hide Crc, Up2Body, U16, ReadU16;
    if |c.payload| <= MAX_PAYLOAD && PrintUp2(c) <= s {
      PrintedParts(s, c);
      assert Up2Body(c) <= s;
      ReadsCommand(s, c);
    }
    if ParseUp2(s) == Some(c) {
      var n := |c.payload|;
      CommandRead(s, n);
      PrintsU16(s, 7 + n);
      assert s[..9 + n] == s[..7 + n] + s[7 + n..9 + n];
    }
  }

  /** What becomes of what the ground builds: payloads above 246 bytes are not printed, those above 196 are
      printed but refused by the vehicle, and all others are read back whole. */
  lemma BuiltIsParsed(version: byte, commandClass: byte, seqNo: nat, payload: seq<byte>, flags: byte)
    ensures var w := BuildUp2(version, commandClass, seqNo, payload, flags);
            && (w == None <==> |payload| > 246)
            && (w.Some? && |payload| <= 196
                ==> ParseUp2(w.value) == Some(Command(version, commandClass, seqNo % 0x1_0000, flags, payload)))
            && (w.Some? && |payload| > 196 ==> ParseUp2(w.value) == None)
  {
    hide Crc, Up2Body, U16, ReadU16;
    if |payload| <= 246 {
      var c := Command(version, commandClass, seqNo % 0x1_0000, flags, payload);
      Up2Exact(PrintUp2(c), c);
      BodyStarts(c);
      assert PrintUp2(c)[1] == Up2Body(c)[1];
    }
  }

  lemma Ack2Exact(s: seq<byte>, echo: u16)
    ensures ParseAck2(s) == Some(echo) <==> PrintAck2(echo) <= s
  {
    hide Crc;
    if PrintAck2(echo) <= s {
      var w := PrintAck2(echo);
      assert s[..3] == s[..5][..3] == [Dl2.ACK2_MAGIC] + U16(echo);
      assert s[1..3] == s[..3][1..] == U16(echo);
      ReadsU16(s, 1, echo);
      assert s[3..5] == s[..5][3..] == U16(Crc(s[..3]));
      ReadsU16(s, 3, Crc(s[..3]));
    }
    if ParseAck2(s) == Some(echo) {
      PrintsU16(s, 1);
      PrintsU16(s, 3);
      assert s[..3] == [Dl2.ACK2_MAGIC] + s[1..3];
      assert s[..5] == s[..3] + s[3..5];
    }
  }

  /** The bytes of a printed command and of a printed acknowledgement, by their offsets. */
  lemma WireFormat(c: Command, echo: u16)
    requires |c.payload| < 0x100
    ensures var s, n := PrintUp2(c), |c.payload|;
            && |s| == 9 + n && s[0] == 0xB2 && s[1] as int == n && s[2] == c.version && s[3] == c.commandClass
            && ReadU16(s, 4) == c.seqNo && s[6] == c.flags && s[7..7 + n] == c.payload
            && ReadU16(s, 7 + n) == Crc(s[..7 + n])
    ensures var s := PrintAck2(echo);
            |s| == 5 && s[0] == 0xA2 && ReadU16(s, 1) == echo && ReadU16(s, 3) == Crc(s[..3])
  {
    hide Crc, ReadU16, ParseAck2;
    var s, n := PrintUp2(c), |c.payload|;
    ReadsCommand(s, c);
    assert s[..7 + n] == Up2Body(c);
    ReadsU16(s, 7 + n, Crc(Up2Body(c)));
    AckFormat(echo);
  }

  lemma AckFormat(echo: u16)
    ensures var s := PrintAck2(echo); s[0] == 0xA2 && ReadU16(s, 1) == echo && ReadU16(s, 3) == Crc(s[..3])
  {
    hide Crc, ReadU16;
    var s := PrintAck2(echo);
    assert s[..3] == [0xA2] + U16(echo);
    assert s[1..3] == s[..3][1..] == U16(echo);
    ReadsU16(s, 1, echo);
    ReadsU16(s, 3, Crc(s[..3]));
  }

  // ---- Corruption ----

  /** Any change of one or two adjacent bytes between the version and the end of the payload, or in the
      checksum, makes the vehicle reject the frame. */
  lemma CorruptionRejected(c: Command, at: nat, w: seq<byte>)
    requires |c.payload| <= MAX_PAYLOAD && |w| <= 2
    requires 2 <= at && at + |w| <= 9 + |c.payload| && (at + |w| <= 7 + |c.payload| || 7 + |c.payload| <= at)
    requires Overwritten(PrintUp2(c), at, w) != PrintUp2(c)
    ensures ParseUp2(Overwritten(PrintUp2(c), at, w)) == None
  {
    hide Crc, Up2Body, U16, ReadU16;
    var n, b := |c.payload|, Up2Body(c);
    var z := U16(Crc(b));
    BodyStarts(c);
    if 7 + n <= at {
      OverwritesBack(b, z, at, w);
      var z' := Overwritten(z, at - (7 + n), w);
      FrameParts(b, z');
      PrintsU16(b + z', 7 + n);
    } else {
      OverwritesFront(b, z, at, w);
      var was := b[at..at + |w|];
      assert b == b[..at] + was + b[at + |w|..];
      var b' := Overwritten(b, at, w);
      BurstDetected(b[..at], was, w, b[at + |w|..]);
      FrameParts(b', z);
      ReadsU16(b' + z, 7 + n, Crc(b));
    }
  }

  lemma FrameParts(front: seq<byte>, back: seq<byte>)
    requires |back| == 2
    ensures (front + back)[..|front|] == front && (front + back)[|front|..|front| + 2] == back
    ensures forall i :: 0 <= i < |front| ==> (front + back)[i] == front[i]
  {
  }

  lemma OverwritesBack(a: seq<byte>, z: seq<byte>, at: nat, w: seq<byte>)
    requires |a| <= at && at + |w| <= |a| + |z|
    ensures Overwritten(a + z, at, w) == a + Overwritten(z, at - |a|, w)
  {
  }

  /** What is left of a frame whose last covered byte and first checksum byte were overwritten. */
  lemma BoundaryParts(c: Command, last: byte, low: byte)
    requires |c.payload| <= MAX_PAYLOAD
    ensures var n, b, s' := |c.payload|, Up2Body(c), Overwritten(PrintUp2(c), 6 + |c.payload|, [last, low]);
            && b == b[..6 + n] + [b[6 + n]] && |s'| == 9 + n
            && s'[..7 + n] == b[..6 + n] + [last] && s'[0] == b[0] && s'[1] == b[1]
            && ReadU16(s', 7 + n) == Crc(b) / 0x100 * 0x100 + low as int
            && PrintUp2(c)[6 + n] == b[6 + n] && PrintUp2(c)[7 + n] as int == Crc(b) % 0x100
  {
    hide Crc, Up2Body;
  }

  /** Exactly which damage goes unnoticed: of all changes of one or two adjacent bytes from the version to the
      end of the frame, the vehicle accepts only the one that changes the last covered byte by 89 and the first
      checksum byte by A1 (hexadecimal). */
  lemma TwoByteDamage(c: Command, at: nat, w: seq<byte>)
    requires |c.payload| <= MAX_PAYLOAD && |w| <= 2 && 2 <= at && at + |w| <= 9 + |c.payload|
    requires Overwritten(PrintUp2(c), at, w) != PrintUp2(c)
    ensures var s, n := PrintUp2(c), |c.payload|;
            ParseUp2(Overwritten(s, at, w)).Some?
            <==> at == 6 + n && |w| == 2 && XorByte(s[6 + n], w[0]) == 0x89 && XorByte(s[7 + n], w[1]) == 0xA1
  {
    hide Crc, Up2Body, U16, ReadU16, XorByte;
    var n := |c.payload|;
    if at == 6 + n && |w| == 2 {
      var b, s' := Up2Body(c), Overwritten(PrintUp2(c), at, w);
      assert w == [w[0], w[1]];
      BodyStarts(c);
      BoundaryParts(c, w[0], w[1]);
      UndetectedPair(b[..6 + n], b[6 + n], w[0], w[1]);
      WritesChange(PrintUp2(c), 6 + n, w[0], w[1]);
    } else {
      CorruptionRejected(c, at, w);
    }
  }

  lemma OverwritesFront(a: seq<byte>, z: seq<byte>, at: nat, w: seq<byte>)
    requires at + |w| <= |a|
    ensures Overwritten(a + z, at, w) == Overwritten(a, at, w) + z
    ensures forall i :: 0 <= i < at ==> Overwritten(a, at, w)[i] == a[i]
  {
  }

  lemma BodyStarts(c: Command)
    requires |c.payload| < 0x100
    ensures Up2Body(c)[0] == Dl2.UP2_MAGIC && Up2Body(c)[1] == |c.payload|
  {
  }

  // ---- Forwarding to the command application ----

  /** The message the vehicle forwards: a fixed 196-byte payload field, of which the first
      `payloadLength` bytes count. */
  datatype FwdCommand = FwdCommand(
    version: byte, commandClass: byte, payloadLength: byte, flags: byte, seqNo: u16, checksum: u16, payload: seq<byte>)

  predicate ValidFwd(f: FwdCommand) { |f.payload| == MAX_PAYLOAD }

  function Zeros(n: nat): seq<byte> { seq(n, _ => 0) }

  /** The bytes both applications compute the checksum over. */
  function ChecksumInput(version: byte, commandClass: byte, length: byte, flags: byte, seqNo: u16,
      payload: seq<byte>): seq<byte> {
    [version, commandClass, length, flags] + U16(seqNo) + payload
  }

  function Forward(c: Command): (f: FwdCommand)
    requires |c.payload| <= MAX_PAYLOAD
    ensures ValidFwd(f)
  {
    FwdCommand(c.version, c.commandClass, |c.payload|, c.flags, c.seqNo,
               Crc(ChecksumInput(c.version, c.commandClass, |c.payload|, c.flags, c.seqNo, c.payload)),
               c.payload + Zeros(MAX_PAYLOAD - |c.payload|))
  }

  /** The command application's own checksum of a message, clamped to the payload field. */
  function ProxyCrc(f: FwdCommand): u16
    requires ValidFwd(f)
  {
    var n: int := if f.payloadLength as int > MAX_PAYLOAD then MAX_PAYLOAD else f.payloadLength;
    Crc(ChecksumInput(f.version, f.commandClass, f.payloadLength, f.flags, f.seqNo, f.payload[..n]))
  }

  /** A forwarded command keeps its fields and passes the receiver's checksum test; the checksum covers the six
      bytes before it and the payload. */
  lemma ForwardedPasses(c: Command)
    requires |c.payload| <= MAX_PAYLOAD
    ensures var f := Forward(c);
            && ProxyCrc(f) == f.checksum
            && f.checksum == Crc([c.version, c.commandClass, |c.payload|, c.flags, c.seqNo % 0x100, c.seqNo / 0x100]
                                 + c.payload)
            && f.payload[..f.payloadLength] == c.payload && f.payloadLength as int == |c.payload|
            && |f.payload| == 196 && (forall i :: |c.payload| <= i < 196 ==> f.payload[i] == 0)
            && (f.version, f.commandClass, f.flags, f.seqNo) == (c.version, c.commandClass, c.flags, c.seqNo)
  {
    hide Crc;
    var f := Forward(c);
    assert f.payload[..|c.payload|] == c.payload;
    assert [c.version, c.commandClass, |c.payload|, c.flags] + U16(c.seqNo)
           == [c.version, c.commandClass, |c.payload|, c.flags, c.seqNo % 0x100, c.seqNo / 0x100];
  }
}
