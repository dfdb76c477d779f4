/**
  The DL2 frame the vehicle sends: scaling of the telemetry, and the page of the route that is due.
 */
module AirFrame {
  import opened Bytes
  import Dl2
  import GroundStreamProofs

  const FRAME_LEN: nat := 50
  const MAX_FRAME_LEN: nat := 88

  datatype FcState = FcState(
    tsMs: u32, roll: real, pitch: real, yaw: real,
    posX: real, posY: real, posZ: real, velX: real, velY: real, velZ: real,
    latE7: i32, lonE7: i32, altMm: i32, gpsFix: byte, sats: byte,
    timeUnixUsec: u64, timeValid: byte)

  datatype Waypoint = Waypoint(cmdType: byte, params: seq<u32>, latE7: i32, lonE7: i32, z: u32)

  datatype Route = Route(
    pending: bool, routeType: byte, count: byte, pageIndex: byte, totalPages: byte, waypoints: seq<Waypoint>)

  /** Everything a frame is built from. */
  datatype Source = Source(
    downlinkSeq: u32, feedback: byte, fc: FcState, healthState: byte, faultCode: byte, linkState: byte,
    uplinkLastSeq: u16, uplinkBootCount: byte, route: Route)

  // ---- Scaling ----

  /** Conversion to an integer drops the fraction. */
  function Truncate(x: real): int { if x >= 0.0 then x.Floor else -((-x).Floor) }

  function Clamp16(x: real): i16 {
    if x > 32767.0 then 32767 else if x < -32768.0 then -32768 else Truncate(x)
  }

  function ScaleAngle(rad: real): i16 { Clamp16(rad * 10000.0) }

  function ScaleCm(m: real): i16 { Clamp16(m * 100.0) }

  /** Outside what a 16-bit count of centimetres can hold. */
  predicate OutOfRange(m: real) { m * 100.0 > 32767.0 || m * 100.0 < -32768.0 }

  predicate AnyOutOfRange(f: FcState) {
    || OutOfRange(f.posX) || OutOfRange(f.posY) || OutOfRange(f.posZ)
    || OutOfRange(f.velX) || OutOfRange(f.velY) || OutOfRange(f.velZ)
  }

  // ---- The page that is due ----

  predicate InBounds(r: Route) { |r.waypoints| == MAX_WAYPOINTS && r.count as int <= MAX_WAYPOINTS }

  ghost predicate ValidRoute(r: Route) {
    && InBounds(r)
    && r.totalPages as int == (r.count as int + 1) / 2
    && (r.pending ==> r.pageIndex < r.totalPages)
  }

  function PageView(w: Waypoint): Dl2.PageWaypoint {
    Dl2.PageWaypoint(w.cmdType, w.latE7, w.lonE7, w.z)
  }

  function StartIndex(pageIndex: byte): byte { pageIndex * 2 % 0x100 }

  function InPage(r: Route): byte {
    var start := StartIndex(r.pageIndex);
    if start >= r.count then 0 else if r.count - start < 2 then r.count - start else 2
  }

  function PageDue(r: Route): Dl2.Page
    requires InBounds(r)
  {
    var start: int := StartIndex(r.pageIndex);
    Dl2.Page(r.routeType, r.pageIndex, r.totalPages,
             seq(InPage(r), k requires 0 <= k < InPage(r) => PageView(r.waypoints[start + k])))
  }

  // ---- The frame ----

  predicate TimeIncluded(a: Source, bufLen: nat) { a.fc.timeValid != 0 && bufLen >= MAX_FRAME_LEN }

  predicate PageIncluded(a: Source, bufLen: nat) {
    a.route.pending && bufLen >= (if TimeIncluded(a, bufLen) then 53 else 45) + 3 + 30 + 2
  }

  function Flags(a: Source, bufLen: nat): byte {
    (if AnyOutOfRange(a.fc) then 2 else 0) + (if TimeIncluded(a, bufLen) then 1 else 0)
    + (if PageIncluded(a, bufLen) then 4 else 0)
  }

  /** The frame built into a buffer of `bufLen` bytes. */
  function View(a: Source, bufLen: nat): Dl2.Frame
    requires InBounds(a.route)
  {
    var f := a.fc;
    Dl2.Frame(
      a.downlinkSeq % 0x1_0000, Flags(a, bufLen), a.feedback, f.tsMs,
      Dl2.Triple(ScaleAngle(f.roll), ScaleAngle(f.pitch), ScaleAngle(f.yaw)),
      Dl2.Triple(ScaleCm(f.posX), ScaleCm(f.posY), ScaleCm(f.posZ)),
      Dl2.Triple(ScaleCm(f.velX), ScaleCm(f.velY), ScaleCm(f.velZ)),
      f.latE7, f.lonE7, f.altMm, f.gpsFix, f.sats, a.healthState, a.faultCode, a.linkState,
      if TimeIncluded(a, bufLen) then Some(f.timeUnixUsec) else None,
      a.uplinkLastSeq, a.uplinkBootCount,
      if PageIncluded(a, bufLen) then Some(PageDue(a.route)) else None)
  }

  // ---- What the ground reads ----

  /** The frame can be encoded, and its flags claim exactly the blocks that are there: the system time when it is
      valid and 88 bytes are free, and the page of a pending route when it fits behind what is there. */
  lemma ViewIsFaithful(a: Source, bufLen: nat)
    requires InBounds(a.route)
    ensures var f := View(a, bufLen); Dl2.Encodable(f) && !Dl2.Misleading(f) && Dl2.Sent(f) == f
    ensures var f := View(a, bufLen);
            && (f.sysTime.Some? <==> a.fc.timeValid != 0 && bufLen >= 88)
            && (f.page.Some? <==> a.route.pending && bufLen >= if f.sysTime.Some? then 88 else 80)
  {
  }

  /** The bytes that go on the air. */
  function FrameBytes(a: Source): (s: seq<byte>)
    requires InBounds(a.route)
    ensures FRAME_LEN <= |s| <= MAX_FRAME_LEN
  {
    ViewIsFaithful(a, MAX_FRAME_LEN);
    Dl2.Encode(View(a, MAX_FRAME_LEN))
  }

  /** The quantities the ground computes from the scaled integers. */
  function Metres(v: i16): real { v as real / 100.0 }

  /** In range, a position or velocity is read back to within a centimetre, towards zero; out of range it is
      the nearest limit. */
  lemma ScaledWithinOneCm(m: real)
    ensures -327.68 <= m <= 327.67 ==> -0.01 < m - Metres(ScaleCm(m)) < 0.01 && Cut(ScaleCm(m), m * 100.0)
    ensures m > 327.67 ==> Metres(ScaleCm(m)) == 327.67
    ensures m < -327.68 ==> Metres(ScaleCm(m)) == -327.68
  {
  }

  /** Leaves 16 bits. */
  predicate Beyond(x: real) { x > 32767.0 || x < -32768.0 }

  /** `v` is what 16 bits can hold of `x`: the nearest limit, or `x` without its fraction. */
  predicate Cut(v: int, x: real) {
    if x > 32767.0 then v == 32767
    else if x < -32768.0 then v == -32768
    else if x >= 0.0 then v as real <= x < v as real + 1.0
    else v as real - 1.0 < x <= v as real
  }

  predicate AllCut(t: Dl2.Triple, x: real, y: real, z: real, factor: real) {
    Cut(t.a, x * factor) && Cut(t.b, y * factor) && Cut(t.c, z * factor)
  }

  lemma ScalesCut(x: real)
    ensures Cut(ScaleAngle(x), x * 10000.0) && Cut(ScaleCm(x), x * 100.0)
    ensures OutOfRange(x) <==> Beyond(x * 100.0)
  {
    CutOff(x * 10000.0);
    CutOff(x * 100.0);
  }

  lemma CutOff(x: real)
    ensures Cut(Clamp16(x), x)
  {
  }

  lemma AllScalesCut(x: real, y: real, z: real)
    ensures AllCut(Dl2.Triple(ScaleAngle(x), ScaleAngle(y), ScaleAngle(z)), x, y, z, 10000.0)
    ensures AllCut(Dl2.Triple(ScaleCm(x), ScaleCm(y), ScaleCm(z)), x, y, z, 100.0)
    ensures OutOfRange(x) || OutOfRange(y) || OutOfRange(z)
            <==> Beyond(x * 100.0) || Beyond(y * 100.0) || Beyond(z * 100.0)
  {
    hide ScaleAngle, ScaleCm, Cut, OutOfRange, Beyond;
    ScalesCut(x);
    ScalesCut(y);
    ScalesCut(z);
  }

  /** Air and ground agree: for every state of the vehicle, with or without system time and page,
      the frame fits its buffer, passes the ground's tests of magic byte, length and checksum, and the
      ground decoder returns every field: angles in units of 0.0001 radians, positions and velocities in
      centimetres, and of the route the two waypoints of the page that is due, or the last one alone. */
  lemma GroundReadsAir(a: Source)
    requires ValidRoute(a.route)
    ensures var s := FrameBytes(a); var g := Dl2.Decode(s); var f := a.fc; var r := a.route;
      && |s| == 50 + (if f.timeValid != 0 then 8 else 0) + (if r.pending then 30 else 0)
      && GroundStreamProofs.ValidWire(s)
      && g.seqNo == a.downlinkSeq % 0x1_0000 && g.ufb == a.feedback && g.tsMs == f.tsMs
      && AllCut(g.attitude, f.roll, f.pitch, f.yaw, 10000.0)
      && AllCut(g.position, f.posX, f.posY, f.posZ, 100.0)
      && AllCut(g.velocity, f.velX, f.velY, f.velZ, 100.0)
      && (g.flags / 2 % 2 == 1
          <==> Beyond(f.posX * 100.0) || Beyond(f.posY * 100.0) || Beyond(f.posZ * 100.0)
               || Beyond(f.velX * 100.0) || Beyond(f.velY * 100.0) || Beyond(f.velZ * 100.0))
      && (g.latE7, g.lonE7, g.altMm, g.fix, g.sats) == (f.latE7, f.lonE7, f.altMm, f.gpsFix, f.sats)
      && (g.health, g.fault, g.linkState) == (a.healthState, a.faultCode, a.linkState)
      && g.sysTime == (if f.timeValid != 0 then Some(f.timeUnixUsec) else None)
      && (g.uplinkLastSeq, g.uplinkBootCount) == (a.uplinkLastSeq, a.uplinkBootCount)
      && (g.page.Some? <==> r.pending)
      && (r.pending ==>
            var p := g.page.value; var at: int := 2 * r.pageIndex as int;
            && p.routeType == r.routeType && p.index == r.pageIndex && p.total == r.totalPages
            && |p.waypoints| == (if at + 2 <= r.count as int then 2 else 1) && at + |p.waypoints| <= r.count as int
            && forall k :: 0 <= k < |p.waypoints| ==>
                 && p.waypoints[k].cmdType == r.waypoints[at + k].cmdType
                 && p.waypoints[k].latE7 == r.waypoints[at + k].latE7
                 && p.waypoints[k].lonE7 == r.waypoints[at + k].lonE7
                 && p.waypoints[k].z == r.waypoints[at + k].z)
  {
    hide Dl2.Encode, Dl2.Decode, GroundStreamProofs.ValidWire, ScaleAngle, ScaleCm, AllCut, Beyond, OutOfRange, PageDue;
    var f := View(a, MAX_FRAME_LEN);
    DecodesView(a);
    SaturationBit(a);
    FrameLength(a);
    AllScalesCut(a.fc.roll, a.fc.pitch, a.fc.yaw);
    AllScalesCut(a.fc.posX, a.fc.posY, a.fc.posZ);
    AllScalesCut(a.fc.velX, a.fc.velY, a.fc.velZ);
    if a.route.pending {
      PageDueShows(a.route);
    }
  }

  /** The ground decoder returns the frame that was built. */
  lemma DecodesView(a: Source)
    requires ValidRoute(a.route)
    ensures Dl2.Decode(FrameBytes(a)) == View(a, MAX_FRAME_LEN) && GroundStreamProofs.ValidWire(FrameBytes(a))
  {
    hide Dl2.Encode, Dl2.Decode, GroundStreamProofs.ValidWire;
    var f := View(a, MAX_FRAME_LEN);
    ViewIsFaithful(a, MAX_FRAME_LEN);
    Dl2.RoundTrip(f);
    GroundStreamProofs.EncodedIsValid(f);
  }

  lemma FrameLength(a: Source)
    requires InBounds(a.route)
    ensures |FrameBytes(a)| == 50 + (if a.fc.timeValid != 0 then 8 else 0) + (if a.route.pending then 30 else 0)
  {
    hide PageDue, ScaleAngle, ScaleCm;
    ViewIsFaithful(a, MAX_FRAME_LEN);
  }

  lemma PageDueShows(r: Route)
    requires ValidRoute(r) && r.pending
    ensures var p := PageDue(r); var at: int := 2 * r.pageIndex as int;
            && p.routeType == r.routeType && p.index == r.pageIndex && p.total == r.totalPages
            && |p.waypoints| == (if at + 2 <= r.count as int then 2 else 1) && at + |p.waypoints| <= r.count as int
            && forall k :: 0 <= k < |p.waypoints| ==> p.waypoints[k] == PageView(r.waypoints[at + k])
  {
  }

  lemma SaturationBit(a: Source)
    ensures Dl2.IsSaturated(Flags(a, MAX_FRAME_LEN)) <==> AnyOutOfRange(a.fc)
  {
  }
}
