/**
  Building a DL2 frame in a buffer, in place.
 */
module FrameBuilder {
  import opened Bytes
  import opened Crc16
  import opened ByteBuffer
  import opened AirFrame
  import Dl2

  /** Builds the frame that is due into a buffer, dropping the optional blocks that do not fit.  The
      bytes are those the ground's own encoder prints for the frame. */
  method BuildDl2Frame(buf: array<byte>, a: Source) returns (len: int)
    requires InBounds(a.route)
    modifies buf
    ensures buf.Length < FRAME_LEN ==> len == -1
    ensures buf.Length >= FRAME_LEN ==>
              FRAME_LEN <= len <= buf.Length && buf[..len] == Dl2.Encode(View(a, buf.Length))
  {
    if buf.Length < FRAME_LEN {
      return -1;
    }
    hide Crc;
    ghost var f := View(a, buf.Length);
    var withTime := a.fc.timeValid != 0;
    if withTime && buf.Length < MAX_FRAME_LEN {
      withTime := false;
    }
    var tail := if withTime then 53 else 45;
    var withPage := a.route.pending;
    if withPage && buf.Length < tail + 3 + 30 + 2 {
      withPage := false;
    }
    var bodyLen := if withPage then tail + 3 + 30 else tail + 3;
    ViewIsFaithful(a, buf.Length);
    PutBody(buf, a, bodyLen, withTime, withPage, f);
    var crc := Compute(buf, bodyLen);
    PutU16(buf, bodyLen, crc);
    len := bodyLen + 2;
  }

  method PutBody(buf: array<byte>, a: Source, bodyLen: byte, withTime: bool, withPage: bool, ghost f: Dl2.Frame)
    requires InBounds(a.route) && FRAME_LEN <= bodyLen as int + 2 <= buf.Length
    requires f == View(a, buf.Length)
    requires withTime == TimeIncluded(a, buf.Length) && withPage == PageIncluded(a, buf.Length)
    requires bodyLen == Dl2.BodyLen(f)
    modifies buf
    ensures Dl2.Encodable(f) && buf[..bodyLen] == Dl2.Body(f)
  {
    hide Dl2.Fixed, PageDue, Dl2.PageBytes;
    ViewIsFaithful(a, buf.Length);
    PutFixed(buf, a, bodyLen, withTime, withPage, f);
    var tail := 45;
    if withTime {
      PutU64(buf, 45, a.fc.timeUnixUsec);
      tail := 53;
    }
    assert buf[..tail] == Dl2.Fixed(f) + Dl2.SysTimeBlock(f);
    PutU16(buf, tail, a.uplinkLastSeq);
    PutByte(buf, tail + 2, a.uplinkBootCount);
    assert buf[..tail + 3] == Dl2.Fixed(f) + Dl2.SysTimeBlock(f) + Dl2.Tail(f);
    if withPage {
      PutPage(buf, tail + 3, a.route);
    }
  }

  /** Scales a length or velocity to centimetres, and notes whether it had to be clamped. */
  method ScaleMetres(m: real, saturated: bool) returns (v: i16, s: bool)
    ensures v == ScaleCm(m) && (s <==> saturated || OutOfRange(m))
  {
    var cm := m * 100.0;
    s := saturated;
    if cm > 32767.0 {
      cm, s := 32767.0, true;
    } else if cm < -32768.0 {
      cm, s := -32768.0, true;
    }
    v := Truncate(cm);
  }

  method ScaleAll(fc: FcState) returns (p: Dl2.Triple, v: Dl2.Triple, saturated: bool)
    ensures p == Dl2.Triple(ScaleCm(fc.posX), ScaleCm(fc.posY), ScaleCm(fc.posZ))
    ensures v == Dl2.Triple(ScaleCm(fc.velX), ScaleCm(fc.velY), ScaleCm(fc.velZ))
    ensures saturated <==> AnyOutOfRange(fc)
  {
    hide ScaleCm, OutOfRange;
    saturated := false;
    var x, y, z, vx, vy, vz;
    x, saturated := ScaleMetres(fc.posX, saturated);
    y, saturated := ScaleMetres(fc.posY, saturated);
    z, saturated := ScaleMetres(fc.posZ, saturated);
    vx, saturated := ScaleMetres(fc.velX, saturated);
    vy, saturated := ScaleMetres(fc.velY, saturated);
    vz, saturated := ScaleMetres(fc.velZ, saturated);
    p, v := Dl2.Triple(x, y, z), Dl2.Triple(vx, vy, vz);
  }

  /** The 45 bytes every frame begins with. */
  method PutFixed(buf: array<byte>, a: Source, bodyLen: byte, withTime: bool, withPage: bool, ghost f: Dl2.Frame)
    requires InBounds(a.route) && buf.Length >= FRAME_LEN && f == View(a, buf.Length)
    requires withTime == TimeIncluded(a, buf.Length) && withPage == PageIncluded(a, buf.Length)
    requires bodyLen == Dl2.BodyLen(f)
    modifies buf
    ensures buf[..45] == Dl2.Fixed(f)
  {
    hide ScaleCm, ScaleAngle, OutOfRange, Dl2.TripleBytes, Dl2.Geo, Dl2.Status, PageDue;
    ViewIsFaithful(a, buf.Length);
    var p, v, saturated := ScaleAll(a.fc);
    var flags: byte := (if saturated then 2 else 0) + (if withTime then 1 else 0) + (if withPage then 4 else 0);
    PutHeader(buf, bodyLen, a.downlinkSeq % 0x1_0000, flags, a.feedback, a.fc.tsMs);
    assert buf[..10] == Dl2.Header(f);
    PutTriple(buf, 10, Dl2.Triple(ScaleAngle(a.fc.roll), ScaleAngle(a.fc.pitch), ScaleAngle(a.fc.yaw)));
    PutTriple(buf, 16, p);
    PutTriple(buf, 22, v);
    PutGeo(buf, 28, a.fc.latE7, a.fc.lonE7, a.fc.altMm, f);
    PutStatus(buf, 40, a, f);
  }

  method PutHeader(buf: array<byte>, bodyLen: byte, seqNo: u16, flags: byte, ufb: byte, tsMs: u32)
    requires buf.Length >= FRAME_LEN
    modifies buf
    ensures buf[..10] == [Dl2.MAGIC, bodyLen] + U16(seqNo) + [flags, ufb] + U32(tsMs)
  {
    PutByte(buf, 0, Dl2.MAGIC);
    PutByte(buf, 1, bodyLen);
    PutU16(buf, 2, seqNo);
    PutByte(buf, 4, flags);
    PutByte(buf, 5, ufb);
    PutU32(buf, 6, tsMs);
  }

  method PutTriple(buf: array<byte>, at: nat, t: Dl2.Triple)
    requires at + 6 <= buf.Length
    modifies buf
    ensures buf[..at + 6] == old(buf[..at]) + Dl2.TripleBytes(t)
  {
    PutI16(buf, at, t.a);
    PutI16(buf, at + 2, t.b);
    PutI16(buf, at + 4, t.c);
  }

  method PutGeo(buf: array<byte>, at: nat, lat: i32, lon: i32, alt: i32, ghost f: Dl2.Frame)
    requires at + 12 <= buf.Length && f.latE7 == lat && f.lonE7 == lon && f.altMm == alt
    modifies buf
    ensures buf[..at + 12] == old(buf[..at]) + Dl2.Geo(f)
  {
    PutI32(buf, at, lat);
    PutI32(buf, at + 4, lon);
    PutI32(buf, at + 8, alt);
  }

  method PutStatus(buf: array<byte>, at: nat, a: Source, ghost f: Dl2.Frame)
    requires at + 5 <= buf.Length
    requires f.fix == a.fc.gpsFix && f.sats == a.fc.sats && f.health == a.healthState
    requires f.fault == a.faultCode && f.linkState == a.linkState
    modifies buf
    ensures buf[..at + 5] == old(buf[..at]) + Dl2.Status(f)
  {
    PutByte(buf, at, a.fc.gpsFix);
    PutByte(buf, at + 1, a.fc.sats);
    PutByte(buf, at + 2, a.healthState);
    PutByte(buf, at + 3, a.faultCode);
    PutByte(buf, at + 4, a.linkState);
  }

  /** The page that is due: a 4-byte head and two slots of 13 bytes, zero where there is no waypoint. */
  method PutPage(buf: array<byte>, at: nat, r: Route)
    requires InBounds(r) && at + 30 <= buf.Length
    modifies buf
    ensures buf[..at + 30] == old(buf[..at]) + Dl2.PageBytes(PageDue(r))
  {
    hide Dl2.WaypointBytes;
    ghost var p := PageDue(r);
    var start: int := StartIndex(r.pageIndex);
    var remaining := if start >= r.count as int then 0 else r.count as int - start;
    var inPage := if remaining < 2 then remaining else 2;
    PutPageHead(buf, at, r.routeType, r.pageIndex, r.totalPages, inPage);
    if inPage >= 1 {
      PutWaypoint(buf, at + 4, PageView(r.waypoints[start]));
    } else {
      PutWaypoint(buf, at + 4, Dl2.PageWaypoint(0, 0, 0, 0));
    }
    if inPage >= 2 {
      PutWaypoint(buf, at + 17, PageView(r.waypoints[start + 1]));
    } else {
      PutWaypoint(buf, at + 17, Dl2.PageWaypoint(0, 0, 0, 0));
    }
  }

  method PutPageHead(buf: array<byte>, at: nat, routeType: byte, index: byte, total: byte, inPage: byte)
    requires at + 4 <= buf.Length
    modifies buf
    ensures buf[..at + 4] == old(buf[..at]) + [routeType, index, total, inPage]
  {
    PutByte(buf, at, routeType);
    PutByte(buf, at + 1, index);
    PutByte(buf, at + 2, total);
    PutByte(buf, at + 3, inPage);
  }

  method PutWaypoint(buf: array<byte>, at: nat, w: Dl2.PageWaypoint)
    requires at + 13 <= buf.Length
    modifies buf
    ensures buf[..at + 13] == old(buf[..at]) + Dl2.WaypointBytes(w)
  {
    PutByte(buf, at, w.cmdType);
    PutI32(buf, at + 1, w.latE7);
    PutI32(buf, at + 5, w.lonE7);
    PutU32(buf, at + 9, w.z);
  }
}
