/**
  The DL2 downlink frame: what the ground station's encoder prints and its decoder reads.

  A frame is 45 fixed bytes, an optional 8-byte system time, a 3-byte tail, an optional 30-byte route
  page and a 2-byte checksum, so the tail and the page sit at offsets that depend on the blocks before
  them.  Angles, positions and velocities are the scaled 16-bit integers of the wire.
 */
module Dl2 {
  import opened Bytes
  import opened Crc16

  const MAGIC: byte := 0xD2
  const UP2_MAGIC: byte := 0xB2
  const ACK2_MAGIC: byte := 0xA2
  const BASE_LEN: byte := 45
  const SYSTIME_LEN: byte := 8
  const TAIL_LEN: byte := 3
  const PAGE_LEN: byte := 30
  const MIN_BODY: byte := 48
  const MAX_BODY: byte := 86

  datatype PageWaypoint = PageWaypoint(cmdType: byte, latE7: i32, lonE7: i32, z: u32)

  datatype Page = Page(routeType: byte, index: byte, total: byte, waypoints: seq<PageWaypoint>)

  datatype Triple = Triple(a: i16, b: i16, c: i16)

  datatype Frame = Frame(
    seqNo: u16, flags: byte, ufb: byte, tsMs: u32,
    attitude: Triple, position: Triple, velocity: Triple,
    latE7: i32, lonE7: i32, altMm: i32,
    fix: byte, sats: byte, health: byte, fault: byte, linkState: byte,
    sysTime: Option<u64>, uplinkLastSeq: u16, uplinkBootCount: byte, page: Option<Page>)

  // ---- Flag bits: 0 = system time present, 1 = a position or velocity was clamped, 2 = page present ----

  predicate HasSysTime(flags: byte) { flags % 2 == 1 }

  predicate IsSaturated(flags: byte) { flags / 2 % 2 == 1 }

  predicate HasPage(flags: byte) { flags / 4 % 2 == 1 }

  function WithSysTime(flags: byte): byte { if HasSysTime(flags) then flags else flags + 1 }

  function WithPage(flags: byte): byte { if HasPage(flags) then flags else flags + 4 }

  function SentFlags(f: Frame): byte {
    var flags := if f.sysTime.Some? then WithSysTime(f.flags) else f.flags;
    if f.page.Some? then WithPage(flags) else flags
  }

  // ---- Encoder ----

  function BodyLen(f: Frame): byte {
    BASE_LEN + (if f.sysTime.Some? then SYSTIME_LEN else 0) + TAIL_LEN + (if f.page.Some? then PAGE_LEN else 0)
  }

  function Header(f: Frame): (s: seq<byte>)
    ensures |s| == 10
  {
    [MAGIC, BodyLen(f)] + U16(f.seqNo) + [SentFlags(f), f.ufb] + U32(f.tsMs)
  }

  function TripleBytes(t: Triple): (s: seq<byte>)
    ensures |s| == 6
  {
    I16(t.a) + I16(t.b) + I16(t.c)
  }

  function Geo(f: Frame): (s: seq<byte>)
    ensures |s| == 12
  {
    I32(f.latE7) + I32(f.lonE7) + I32(f.altMm)
  }

  function Status(f: Frame): (s: seq<byte>)
    ensures |s| == 5
  {
    [f.fix, f.sats, f.health, f.fault, f.linkState]
  }

  function Fixed(f: Frame): (s: seq<byte>)
    ensures |s| == BASE_LEN
  {
    Header(f) + TripleBytes(f.attitude) + TripleBytes(f.position) + TripleBytes(f.velocity) + Geo(f) + Status(f)
  }

  function SysTimeBlock(f: Frame): (s: seq<byte>)
    ensures |s| == if f.sysTime.Some? then SYSTIME_LEN else 0
  {
    if f.sysTime.Some? then U64(f.sysTime.value) else []
  }

  function Tail(f: Frame): (s: seq<byte>)
    ensures |s| == TAIL_LEN
  {
    U16(f.uplinkLastSeq) + [f.uplinkBootCount]
  }

  function WaypointBytes(w: PageWaypoint): (s: seq<byte>)
    ensures |s| == 13
  {
    [w.cmdType] + I32(w.latE7) + I32(w.lonE7) + U32(w.z)
  }

  /** Slot `k` of a page; slots past the last waypoint are filled with zeros. */
  function Slot(p: Page, k: nat): PageWaypoint {
    if k < |p.waypoints| then p.waypoints[k] else PageWaypoint(0, 0, 0, 0)
  }

  function PageBytes(p: Page): (s: seq<byte>)
    requires |p.waypoints| < 0x100
    ensures |s| == PAGE_LEN
  {
    [p.routeType, p.index, p.total, |p.waypoints|] + WaypointBytes(Slot(p, 0)) + WaypointBytes(Slot(p, 1))
  }

  function PageBlock(f: Frame): (s: seq<byte>)
    requires Encodable(f)
    ensures |s| == if f.page.Some? then PAGE_LEN else 0
  {
    if f.page.Some? then PageBytes(f.page.value) else []
  }

  /** The count of waypoints is printed as one byte. */
  predicate Encodable(f: Frame) {
    f.page.Some? ==> |f.page.value.waypoints| < 0x100
  }

  function Body(f: Frame): (s: seq<byte>)
    requires Encodable(f)
    ensures |s| == BodyLen(f)
  {
    Fixed(f) + SysTimeBlock(f) + Tail(f) + PageBlock(f)
  }

  function Encode(f: Frame): (s: seq<byte>)
    requires Encodable(f)
    ensures |s| == BodyLen(f) + 2
  {
    Body(f) + U16(Crc(Body(f)))
  }

  // ---- Decoder ----

  function ReadTriple(s: seq<byte>, at: nat): Triple
    requires at + 6 <= |s|
  {
    Triple(ReadI16(s, at), ReadI16(s, at + 2), ReadI16(s, at + 4))
  }

  function ReadWaypoint(s: seq<byte>, at: nat): PageWaypoint
    requires at + 13 <= |s|
  {
    PageWaypoint(s[at], ReadI32(s, at + 1), ReadI32(s, at + 5), ReadU32(s, at + 9))
  }

  function ReadPage(s: seq<byte>, at: nat): Page
    requires at + 30 <= |s|
  {
    var both := [ReadWaypoint(s, at + 4), ReadWaypoint(s, at + 17)];
    var inPage: int := s[at + 3];
    Page(s[at], s[at + 1], s[at + 2], both[..if inPage < 2 then inPage else 2])
  }

  /** Reads the fields of a frame whose length and checksum have been checked already. */
  function Decode(s: seq<byte>): Frame
    requires |s| >= MIN_BODY as int + 2
  {
    var flags := s[4];
    var withTime := HasSysTime(flags) && |s| >= 58;
    var tail := if withTime then 53 else 45;
    var withPage := HasPage(flags) && |s| >= tail + 35;
    Frame(ReadU16(s, 2), flags, s[5], ReadU32(s, 6),
          ReadTriple(s, 10), ReadTriple(s, 16), ReadTriple(s, 22),
          ReadI32(s, 28), ReadI32(s, 32), ReadI32(s, 36),
          s[40], s[41], s[42], s[43], s[44],
          if withTime then Some(ReadU64(s, 45)) else None,
          ReadU16(s, tail), s[tail + 2],
          if withPage then Some(ReadPage(s, tail + 3)) else None)
  }

  // ---- Round trip ----

  /** The frame the ground sees: `f` with the flags the encoder adds. */
  function Sent(f: Frame): Frame {
    f.(flags := SentFlags(f))
  }

  /** The frames the decoder cannot read back: a page follows a claimed but absent system time, or
      the page holds more waypoints than its two slots. */
  predicate Misleading(f: Frame) {
    f.page.Some? && ((HasSysTime(f.flags) && f.sysTime.None?) || |f.page.value.waypoints| > 2)
  }

  lemma ReadsI16(s: seq<byte>, at: nat, v: i16)
    requires at + 2 <= |s| && s[at..at + 2] == I16(v)
    ensures ReadI16(s, at) == v
  {
    ReadsU16(s, at, Unsigned16(v));
  }

  lemma ReadsI32(s: seq<byte>, at: nat, v: i32)
    requires at + 4 <= |s| && s[at..at + 4] == I32(v)
    ensures ReadI32(s, at) == v
  {
    ReadsU32(s, at, Unsigned32(v));
  }

  /** `s[at..at + n]` sits inside the slice `s[from..to]`. */
  lemma Inner(s: seq<byte>, from: nat, to: nat, at: nat, n: nat)
    requires from <= at && at + n <= to <= |s|
    ensures s[at..at + n] == s[from..to][at - from..at - from + n]
  {
    var outer, inner := s[at..at + n], s[from..to];
    assert forall i {:trigger outer[i]} :: 0 <= i < n ==> outer[i] == inner[at - from + i];
  }

  lemma ReadsTriple(s: seq<byte>, at: nat, t: Triple)
    requires at + 6 <= |s| && s[at..at + 6] == TripleBytes(t)
    ensures ReadTriple(s, at) == t
  {
    Inner(s, at, at + 6, at, 2);
    Inner(s, at, at + 6, at + 2, 2);
    Inner(s, at, at + 6, at + 4, 2);
    ReadsI16(s, at, t.a);
    ReadsI16(s, at + 2, t.b);
    ReadsI16(s, at + 4, t.c);
  }

  lemma ReadsWaypoint(s: seq<byte>, at: nat, w: PageWaypoint)
    requires at + 13 <= |s| && s[at..at + 13] == WaypointBytes(w)
    ensures ReadWaypoint(s, at) == w
  {
    Inner(s, at, at + 13, at, 1);
    Inner(s, at, at + 13, at + 1, 4);
    Inner(s, at, at + 13, at + 5, 4);
    Inner(s, at, at + 13, at + 9, 4);
    assert s[at] == s[at..at + 13][0];
    ReadsI32(s, at + 1, w.latE7);
    ReadsI32(s, at + 5, w.lonE7);
    ReadsU32(s, at + 9, w.z);
  }

  lemma ReadsPage(s: seq<byte>, at: nat, p: Page)
    requires |p.waypoints| <= 2
    requires at + 30 <= |s| && s[at..at + 30] == PageBytes(p)
    ensures ReadPage(s, at) == p
  {
    Inner(s, at, at + 30, at, 4);
    Inner(s, at, at + 30, at + 4, 13);
    Inner(s, at, at + 30, at + 17, 13);
    assert s[at..at + 4] == [p.routeType, p.index, p.total, |p.waypoints|];
    assert s[at] == s[at..at + 4][0] && s[at + 1] == s[at..at + 4][1];
    assert s[at + 2] == s[at..at + 4][2] && s[at + 3] == s[at..at + 4][3];
    ReadsWaypoint(s, at + 4, Slot(p, 0));
    ReadsWaypoint(s, at + 17, Slot(p, 1));
    assert [Slot(p, 0), Slot(p, 1)][..|p.waypoints|] == p.waypoints;
  }

  /** The fixed part reads back at its constant offsets. */
  lemma ReadsFixed(s: seq<byte>, f: Frame)
    requires |s| >= 50 && s[..45] == Fixed(f)
    ensures ReadU16(s, 2) == f.seqNo && s[4] == SentFlags(f) && s[5] == f.ufb && ReadU32(s, 6) == f.tsMs
    ensures ReadTriple(s, 10) == f.attitude && ReadTriple(s, 16) == f.position && ReadTriple(s, 22) == f.velocity
    ensures ReadI32(s, 28) == f.latE7 && ReadI32(s, 32) == f.lonE7 && ReadI32(s, 36) == f.altMm
    ensures [s[40], s[41], s[42], s[43], s[44]] == Status(f)
  {
    assert s[..10] == s[..45][..10] == Header(f);
    assert s[10..16] == s[..45][10..16] == TripleBytes(f.attitude);
    assert s[16..22] == s[..45][16..22] == TripleBytes(f.position);
    assert s[22..28] == s[..45][22..28] == TripleBytes(f.velocity);
    assert s[28..40] == s[..45][28..40] == Geo(f);
    assert s[40..45] == s[..45][40..45] == Status(f);
    assert s[2..4] == s[..10][2..4] == U16(f.seqNo);
    assert s[4..6] == s[..10][4..6] == [SentFlags(f), f.ufb];
    assert s[4] == s[4..6][0] && s[5] == s[4..6][1];
    assert s[6..10] == s[..10][6..10] == U32(f.tsMs);
    ReadsU16(s, 2, f.seqNo);
    ReadsU32(s, 6, f.tsMs);
    ReadsTriple(s, 10, f.attitude);
    ReadsTriple(s, 16, f.position);
    ReadsTriple(s, 22, f.velocity);
    ReadsGeo(s, f);
    assert [s[40], s[41], s[42], s[43], s[44]] == s[40..45];
  }

  lemma ReadsGeo(s: seq<byte>, f: Frame)
    requires |s| >= 50 && s[28..40] == Geo(f)
    ensures ReadI32(s, 28) == f.latE7 && ReadI32(s, 32) == f.lonE7 && ReadI32(s, 36) == f.altMm
  {
    Inner(s, 28, 40, 28, 4);
    Inner(s, 28, 40, 32, 4);
    Inner(s, 28, 40, 36, 4);
    ReadsI32(s, 28, f.latE7);
    ReadsI32(s, 32, f.lonE7);
    ReadsI32(s, 36, f.altMm);
  }

  /** Where the encoder puts the blocks. */
  lemma Layout(f: Frame)
    requires Encodable(f)
    ensures LaidOut(Encode(f), f)
    ensures var s := Encode(f); s[..|s| - 2] == Body(f) && s[|s| - 2..] == U16(Crc(Body(f)))
  {
    var a, b, c, d, e := Fixed(f), SysTimeBlock(f), Tail(f), PageBlock(f), U16(Crc(Body(f)));
    assert Encode(f) == a + b + c + d + e;
    Pieces(a, b, c, d, e);
  }

  lemma Pieces(a: seq<byte>, b: seq<byte>, c: seq<byte>, d: seq<byte>, e: seq<byte>)
    ensures var s, ab := a + b + c + d + e, |a| + |b|;
            && s[..|a|] == a
            && s[|a|..ab] == b
            && s[ab..ab + |c|] == c
            && s[ab + |c|..|s| - |e|] == d
            && s[..|s| - |e|] == a + b + c + d
            && s[|s| - |e|..] == e
  {
  }

  /** Decoding an encoded frame gives back every field, exactly when the frame is not misleading. */
  lemma RoundTrip(f: Frame)
    requires Encodable(f)
    ensures Decode(Encode(f)) == Sent(f) <==> !Misleading(f)
  {
    Layout(f);
    if Misleading(f) {
      MisleadingIsLost(Encode(f), f);
    } else {
      GoodIsKept(Encode(f), f);
    }
  }

  /** The blocks of `f` sit where the encoder puts them in `s`, whatever its checksum bytes are. */
  ghost predicate LaidOut(s: seq<byte>, f: Frame)
    requires Encodable(f)
  {
    var t := |SysTimeBlock(f)|;
    && |s| == BodyLen(f) as int + 2
    && s[..45] == Fixed(f)
    && s[45..45 + t] == SysTimeBlock(f)
    && s[45 + t..48 + t] == Tail(f)
    && s[48 + t..|s| - 2] == PageBlock(f)
  }

  lemma MisleadingIsLost(s: seq<byte>, f: Frame)
    requires Encodable(f) && Misleading(f) && LaidOut(s, f)
    ensures Decode(s) != Sent(f)
  {
    ReadsFixed(s, f);
    if HasSysTime(f.flags) && f.sysTime.None? {
      // The tail and the page are read as a system time the encoder never printed.
      PageKeepsTimeBit(f.flags);
      DecodedBlocks(s);
    } else {
      DecodedBlocks(s);
    }
  }

  lemma PageKeepsTimeBit(flags: byte)
    requires HasSysTime(flags)
    ensures HasSysTime(WithPage(flags))
  {
  }

  lemma DecodedBlocks(s: seq<byte>)
    requires |s| >= MIN_BODY as int + 2
    ensures Decode(s).sysTime.Some? <==> HasSysTime(s[4]) && |s| >= 58
    ensures Decode(s).page.Some? ==> |Decode(s).page.value.waypoints| <= 2
  {
  }

  lemma GoodIsKept(s: seq<byte>, f: Frame)
    requires Encodable(f) && !Misleading(f) && LaidOut(s, f)
    ensures Decode(s) == Sent(f)
  {
    ReadsFixed(s, f);
    ReadsStatus(s, f);
    var tail := 45 + |SysTimeBlock(f)|;
    ReadsTail(s, tail, f);
    if f.sysTime.Some? {
      ReadsU64(s, 45, f.sysTime.value);
    }
    if f.page.Some? {
      ReadsPage(s, tail + 3, f.page.value);
    }
    BlocksSeen(s, f);
  }

  lemma ReadsStatus(s: seq<byte>, f: Frame)
    requires |s| >= 50 && [s[40], s[41], s[42], s[43], s[44]] == Status(f)
    ensures s[40] == f.fix && s[41] == f.sats && s[42] == f.health && s[43] == f.fault && s[44] == f.linkState
  {
    var t := Status(f);
    assert t[0] == f.fix && t[1] == f.sats && t[2] == f.health && t[3] == f.fault && t[4] == f.linkState;
  }

  /** The decoder looks for exactly the blocks that are there. */
  lemma BlocksSeen(s: seq<byte>, f: Frame)
    requires Encodable(f) && !Misleading(f) && |s| == BodyLen(f) as int + 2 && s[4] == SentFlags(f)
    ensures HasSysTime(s[4]) && |s| >= 58 <==> f.sysTime.Some?
    ensures HasPage(s[4]) && |s| >= (if f.sysTime.Some? then 53 else 45) + 35 <==> f.page.Some?
  {
  }

  lemma ReadsTail(s: seq<byte>, tail: nat, f: Frame)
    requires tail + 3 <= |s| && s[tail..tail + 3] == Tail(f)
    ensures ReadU16(s, tail) == f.uplinkLastSeq && s[tail + 2] == f.uplinkBootCount
  {
    Inner(s, tail, tail + 3, tail, 2);
    ReadsU16(s, tail, f.uplinkLastSeq);
    assert s[tail + 2] == s[tail..tail + 3][2];
  }

  // ---- The format on the wire ----

  /** The bytes of an encoded frame, one field at a time, by their offsets. */
  lemma WireFormat(f: Frame)
    requires Encodable(f)
    ensures var s := Encode(f); var t := if f.sysTime.Some? then 53 else 45;
            && |s| == (if f.page.Some? then t + 35 else t + 5) && s[0] == 0xD2 && s[1] as int == |s| - 2
            && ReadU16(s, 2) == f.seqNo && s[5] == f.ufb && ReadU32(s, 6) == f.tsMs
            && s[4] / 8 == f.flags / 8 && s[4] / 2 % 2 == f.flags / 2 % 2
            && (s[4] % 2 == 1 <==> f.flags % 2 == 1 || f.sysTime.Some?)
            && (s[4] / 4 % 2 == 1 <==> f.flags / 4 % 2 == 1 || f.page.Some?)
            && f.attitude == Triple(ReadI16(s, 10), ReadI16(s, 12), ReadI16(s, 14))
            && f.position == Triple(ReadI16(s, 16), ReadI16(s, 18), ReadI16(s, 20))
            && f.velocity == Triple(ReadI16(s, 22), ReadI16(s, 24), ReadI16(s, 26))
            && f.latE7 == ReadI32(s, 28) && f.lonE7 == ReadI32(s, 32) && f.altMm == ReadI32(s, 36)
            && f.fix == s[40] && f.sats == s[41] && f.health == s[42] && f.fault == s[43] && f.linkState == s[44]
            && (f.sysTime.Some? ==> f.sysTime.value == ReadU64(s, 45))
            && f.uplinkLastSeq == ReadU16(s, t) && f.uplinkBootCount == s[t + 2]
            && ReadU16(s, |s| - 2) == Crc(s[..|s| - 2])
  {
    hide Fixed, Tail, SysTimeBlock, PageBlock, Crc, ReadI16, ReadI32, ReadU16, ReadU32, ReadU64;
    var s := Encode(f);
    Layout(f);
    FirstBytes(s, f);
    ReadsFixed(s, f);
    ReadsStatus(s, f);
    BlockLengths(f);
    ReadsTail(s, 45 + |SysTimeBlock(f)|, f);
    if f.sysTime.Some? {
      ReadsTime(s, f);
    }
    FlagBits(f);
    ReadsU16(s, |s| - 2, Crc(Body(f)));
  }

  lemma FirstBytes(s: seq<byte>, f: Frame)
    requires |s| >= 50 && s[..45] == Fixed(f)
    ensures s[0] == 0xD2 && s[1] == BodyLen(f)
  {
    assert s[0] == s[..45][0] && s[1] == s[..45][1];
  }

  lemma BlockLengths(f: Frame)
    requires Encodable(f)
    ensures |SysTimeBlock(f)| == (if f.sysTime.Some? then 8 else 0)
    ensures BodyLen(f) as int == 48 + |SysTimeBlock(f)| + (if f.page.Some? then 30 else 0)
  {
  }

  lemma ReadsTime(s: seq<byte>, f: Frame)
    requires f.sysTime.Some? && |s| >= 53 && s[45..45 + |SysTimeBlock(f)|] == SysTimeBlock(f)
    ensures ReadU64(s, 45) == f.sysTime.value
  {
    ReadsU64(s, 45, f.sysTime.value);
  }

  lemma FlagBits(f: Frame)
    ensures var n := SentFlags(f);
            && n / 8 == f.flags / 8 && n / 2 % 2 == f.flags / 2 % 2
            && (n % 2 == 1 <==> f.flags % 2 == 1 || f.sysTime.Some?)
            && (n / 4 % 2 == 1 <==> f.flags / 4 % 2 == 1 || f.page.Some?)
  {
    hide WithSysTime, WithPage;
    TimeBit(f.flags);
    PageBit(f.flags);
    PageBit(WithSysTime(f.flags));
  }

  lemma TimeBit(flags: byte)
    ensures var n := WithSysTime(flags);
            && n % 2 == 1 && n / 2 % 2 == flags / 2 % 2 && n / 4 % 2 == flags / 4 % 2 && n / 8 == flags / 8
  {
    var q, r := flags as int / 8, flags as int % 8;
    LowBits(q, r);
    LowBits(q, r + 1);
  }

  lemma PageBit(flags: byte)
    ensures var n := WithPage(flags);
            && n / 4 % 2 == 1 && n % 2 == flags % 2 && n / 2 % 2 == flags / 2 % 2 && n / 8 == flags / 8
  {
    var q, r := flags as int / 8, flags as int % 8;
    LowBits(q, r);
    LowBits(q, r + 4);
  }

  /** The three lowest bits of a number, and the rest. */
  lemma LowBits(q: nat, r: nat)
    ensures r < 8 ==> var n := 8 * q + r; n / 8 == q && n % 2 == r % 2 && n / 2 % 2 == r / 2 % 2 && n / 4 % 2 == r / 4
  {
    if r < 8 {
      var n := 8 * q + r;
      assert n == 2 * (4 * q) + r && n / 2 == 2 * (2 * q) + r / 2 && n / 4 == 2 * q + r / 4;
      Halves(4 * q, r);
      Halves(2 * q, r / 2);
      Halves(q, r / 4);
    }
  }

  lemma Halves(m: nat, r: nat)
    ensures (2 * m + r) % 2 == r % 2
  {
  }

  /** The page block, in its place behind the tail: type, index, total, how many waypoints, and two slots, the
      unused ones filled with zeros. */
  lemma PageFormat(f: Frame)
    requires Encodable(f) && f.page.Some?
    ensures var s := Encode(f); var p := f.page.value; var at := if f.sysTime.Some? then 56 else 48;
            && |s| == at + 32
            && s[at] == p.routeType && s[at + 1] == p.index && s[at + 2] == p.total && s[at + 3] as int == |p.waypoints|
            && SlotReads(s, at + 4, p, 0) && SlotReads(s, at + 17, p, 1)
  {
    hide Fixed, Tail, SysTimeBlock, Crc, PageBytes, SlotReads;
    var s, p := Encode(f), f.page.value;
    Layout(f);
    BlockLengths(f);
    ReadsPageBytes(s, 48 + |SysTimeBlock(f)|, p);
  }

  lemma ReadsPageBytes(s: seq<byte>, at: nat, p: Page)
    requires at + 30 <= |s| && |p.waypoints| < 0x100 && s[at..at + 30] == PageBytes(p)
    ensures s[at] == p.routeType && s[at + 1] == p.index && s[at + 2] == p.total && s[at + 3] as int == |p.waypoints|
    ensures SlotReads(s, at + 4, p, 0) && SlotReads(s, at + 17, p, 1)
  {
    hide SlotReads, WaypointBytes;
    Inner(s, at, at + 30, at, 4);
    assert s[at..at + 4] == [p.routeType, p.index, p.total, |p.waypoints|];
    assert s[at] == s[at..at + 4][0] && s[at + 1] == s[at..at + 4][1];
    assert s[at + 2] == s[at..at + 4][2] && s[at + 3] == s[at..at + 4][3];
    Inner(s, at, at + 30, at + 4, 13);
    Inner(s, at, at + 30, at + 17, 13);
    ReadsSlot(s, at + 4, p, 0);
    ReadsSlot(s, at + 17, p, 1);
  }

  /** The 13 bytes at `at` are those of waypoint `k`: type, latitude, longitude, height. */
  predicate SlotReads(s: seq<byte>, at: nat, p: Page, k: nat)
    requires at + 13 <= |s|
  {
    if k < |p.waypoints| then
      var w := p.waypoints[k];
      w.cmdType == s[at] && w.latE7 == ReadI32(s, at + 1) && w.lonE7 == ReadI32(s, at + 5) && w.z == ReadU32(s, at + 9)
    else s[at] == 0 && ReadI32(s, at + 1) == 0 && ReadI32(s, at + 5) == 0 && ReadU32(s, at + 9) == 0
  }

  lemma ReadsSlot(s: seq<byte>, at: nat, p: Page, k: nat)
    requires at + 13 <= |s| && s[at..at + 13] == WaypointBytes(Slot(p, k))
    ensures SlotReads(s, at, p, k)
  {
    hide WaypointBytes, ReadI32, ReadU32;
    ReadsWaypoint(s, at, Slot(p, k));
  }
}
