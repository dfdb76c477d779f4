/**
  The ground station's parser for a byte stream that mixes DL2 frames with ASCII lines.
 */
module GroundStream {
  import opened Bytes
  import opened Crc16
  import Dl2

  const MAX_LINE: nat := 256
  const CR: byte := 0x0D

  datatype Error =
    | UnexpectedMagic(b: byte)
    | Garbage(b: byte)
    | BadLength(len: byte)
    | BadCrc
    | GarbageBeforeMagic(count: nat)
    | LineOverflow

  /** `text` holds code points; bytes outside ASCII are replaced. */
  datatype Event = Decoded(frame: Dl2.Frame) | Line(text: seq<int>) | Failed(error: Error)

  /** One parse attempt: what it reports and how many bytes it takes; 0 means "wait for more". */
  datatype Step = Step(event: Option<Event>, consumed: nat)

  datatype Parsed = Parsed(events: seq<Event>, rest: seq<byte>)

  // ---- One parse attempt ----

  /** The first position of `b` in `s`, or -1. */
  function Find(s: seq<byte>, b: byte): (r: int)
    ensures -1 <= r < |s|
    ensures r >= 0 ==> s[r] == b && b !in s[..r]
    ensures r < 0 ==> b !in s
  {
    if s == [] then -1
    else if s[0] == b then 0
    else
      var r := Find(s[1..], b);
      assert r >= 0 ==> s[..r + 1] == [s[0]] + s[1..][..r];
      if r < 0 then -1 else r + 1
  }

  function AsciiText(s: seq<byte>): (t: seq<int>)
    ensures |t| == |s|
  {
    seq(|s|, i requires 0 <= i < |s| => CodePoint(s[i]))
  }

  function CodePoint(b: byte): int { if b < 0x80 then b as int else 0xFFFD }

  function StripCr(t: seq<int>): seq<int> {
    if t != [] && t[0] == CR then StripCr(t[1..])
    else if t != [] && t[|t| - 1] == CR then StripCr(t[..|t| - 1])
    else t
  }

  function TryParse(buf: seq<byte>): (r: Step)
    ensures r.consumed <= |buf|
    ensures r.consumed > 0 ==> r.event.Some?
  {
    if buf == [] then Step(None, 0)
    else if buf[0] == Dl2.MAGIC then TryParseDl2(buf)
    else if buf[0] == Dl2.UP2_MAGIC || buf[0] == Dl2.ACK2_MAGIC then Step(Some(Failed(UnexpectedMagic(buf[0]))), 1)
    else if StartsLine(buf[0]) then TryParseLine(buf)
    else Step(Some(Failed(Garbage(buf[0]))), 1)
  }

  predicate StartsLine(b: byte) {
    0x20 <= b < 0x7F || b == LF || b == CR
  }

  function TryParseDl2(buf: seq<byte>): (r: Step)
    requires buf != []
    ensures r.consumed <= |buf|
    ensures r.consumed > 0 ==> r.event.Some?
  {
    if |buf| < 2 then Step(None, 0)
    else
      var bodyLen: int := buf[1];
      if bodyLen < Dl2.MIN_BODY || bodyLen > Dl2.MAX_BODY then Step(Some(Failed(BadLength(buf[1]))), 1)
      else if |buf| < bodyLen + 2 then Step(None, 0)
      else if Crc(buf[..bodyLen]) != ReadU16(buf, bodyLen) then Step(Some(Failed(BadCrc)), 1)
      else Step(Some(Decoded(Dl2.Decode(buf[..bodyLen + 2]))), bodyLen + 2)
  }

  function TryParseLine(buf: seq<byte>): (r: Step)
    requires buf != [] && buf[0] != Dl2.MAGIC
    ensures r.consumed <= |buf|
    ensures r.consumed > 0 ==> r.event.Some?
  {
    var nl, magic := Find(buf, LF), Find(buf, Dl2.MAGIC);
    if magic >= 0 && (nl < 0 || magic < nl) then Step(Some(Failed(GarbageBeforeMagic(magic))), magic)
    else if nl < 0 then
      if |buf| > MAX_LINE then Step(Some(Failed(LineOverflow)), |buf|) else Step(None, 0)
    else Step(Some(Line(StripCr(AsciiText(buf[..nl])))), nl + 1)
  }

  // ---- Feeding ----

  /** Parses until nothing more can be taken. */
  function Drain(buf: seq<byte>): (p: Parsed)
    decreases |buf|
  {
    var step := TryParse(buf);
    if step.consumed == 0 then Parsed([], buf)
    else
      var p := Drain(buf[step.consumed..]);
      Parsed([step.event.value] + p.events, p.rest)
  }

  /** What a parser holding `buf` reports and keeps after a list of chunks. */
  function FeedAll(buf: seq<byte>, chunks: seq<seq<byte>>): Parsed
    decreases |chunks|
  {
    if chunks == [] then Parsed([], buf)
    else
      var first := Drain(buf + chunks[0]);
      var later := FeedAll(first.rest, chunks[1..]);
      Parsed(first.events + later.events, later.rest)
  }

  class DownlinkStream {
    var buf: seq<byte>

    constructor ()
      ensures buf == []
    {
      buf := [];
    }

    /** Takes a chunk of any size, reports the complete events in order and keeps the unfinished
        rest, which never exceeds 256 bytes. */
    method Feed(chunk: seq<byte>) returns (events: seq<Event>)
      modifies this
      ensures Parsed(events, buf) == Drain(old(buf) + chunk)
      ensures |buf| <= MAX_LINE
    {
      hide TryParse;
      buf := buf + chunk;
      events := [];
      var step := TryParse(buf);
      while step.consumed != 0
        invariant step == TryParse(buf)
        invariant Drain(old(buf) + chunk) == Parsed(events + Drain(buf).events, Drain(buf).rest)
        decreases |buf|
      {
        buf := buf[step.consumed..];
        events := events + [step.event.value];
        step := TryParse(buf);
      }
      StuckIsShort(buf);
    }
  }

  lemma {:induction false} DrainedIsStuck(buf: seq<byte>)
    ensures var r := Drain(buf).rest; TryParse(r).consumed == 0 && |r| <= |buf| && r == buf[|buf| - |r|..]
    decreases |buf|
  {
    hide TryParse;
    var step := TryParse(buf);
    if step.consumed > 0 {
      DrainedIsStuck(buf[step.consumed..]);
    }
  }

  lemma StuckIsShort(buf: seq<byte>)
    requires TryParse(buf).consumed == 0
    ensures |buf| <= MAX_LINE
  {
  }
}
