/**
  The route update command: four operations on the vehicle's route, with 29-byte waypoints.  The
  ground builds the payload, the command application parses it.  Floating-point fields are their
  32-bit patterns.
 */
module RoutePayload {
  import opened Bytes
  import opened Floats

  const ROUTE_VERSION: byte := 2
  const WIRE_SIZE := 29

  const REPLACE: byte := 1
  const ADD: byte := 2
  const DELETE: byte := 3
  const MODIFY: byte := 4

  datatype RoutePoint = RoutePoint(
    cmd: byte, param1: u32, param2: u32, param3: u32, param4: u32, latE7: i32, lonE7: i32, z: u32)

  /** Between 2.0 m, pattern 4000_0000 hex, and 8.0 m, pattern 4100_0000 hex; the patterns of positive
      numbers are in the order of the numbers, and those of negative numbers and NaNs lie above. */
  predicate AltitudeValid(bits: u32) { 0x4000_0000 <= bits <= 0x4100_0000 }

  predicate Acceptable(w: RoutePoint) {
    && IsNumber(w.param1) && IsNumber(w.param2) && IsNumber(w.param3) && IsNumber(w.param4)
    && IsNumber(w.z) && AltitudeValid(w.z)
  }

  /** The height is from 2 to 8 m. */
  lemma AltitudeExactly(bits: u32)
    ensures AltitudeValid(bits) <==> IsNumber(bits) && 2.0 <= Value(bits) <= 8.0
  {
    hide Value, IsNumber;
    Limits();
    BetweenExactly(bits, 0x4000_0000, 0x4100_0000);
  }

  // ---- One waypoint ----

  function Pack(w: RoutePoint): (s: seq<byte>)
    ensures |s| == WIRE_SIZE
  {
    [w.cmd] + U32(w.param1) + U32(w.param2) + U32(w.param3) + U32(w.param4) + I32(w.latE7) + I32(w.lonE7) + U32(w.z)
  }

  function Unpack(s: seq<byte>, at: nat): RoutePoint
    requires at + WIRE_SIZE <= |s|
  {
    RoutePoint(s[at], ReadU32(s, at + 1), ReadU32(s, at + 5), ReadU32(s, at + 9), ReadU32(s, at + 13),
               ReadI32(s, at + 17), ReadI32(s, at + 21), ReadU32(s, at + 25))
  }

  lemma PackParts(w: RoutePoint)
    ensures var p := Pack(w);
            && p[0] == w.cmd && p[1..5] == U32(w.param1) && p[5..9] == U32(w.param2) && p[9..13] == U32(w.param3)
            && p[13..17] == U32(w.param4) && p[17..21] == U32(Unsigned32(w.latE7))
                 && p[21..25] == U32(Unsigned32(w.lonE7))
            && p[25..29] == U32(w.z)
  {
    hide U32;
  }

  lemma ReadsWithin(s: seq<byte>, at: nat, n: nat, k: nat, v: u32)
    requires at + n <= |s| && k + 4 <= n && s[at..at + n][k..k + 4] == U32(v)
    ensures ReadU32(s, at + k) == v
  {
    var part := s[at..at + n];
    assert forall i :: 0 <= i < n ==> part[i] == s[at + i];
    assert part[k..k + 4] == s[at + k..at + k + 4];
    ReadsU32(s, at + k, v);
  }

  lemma UnpackReads(s: seq<byte>, at: nat, w: RoutePoint)
    requires at + WIRE_SIZE <= |s| && s[at..at + WIRE_SIZE] == Pack(w)
    ensures Unpack(s, at) == w
  {
    hide U32, ReadU32, Pack;
    PackParts(w);
    assert s[at] == s[at..at + WIRE_SIZE][0];
    ReadsWithin(s, at, WIRE_SIZE, 1, w.param1);
    ReadsWithin(s, at, WIRE_SIZE, 5, w.param2);
    ReadsWithin(s, at, WIRE_SIZE, 9, w.param3);
    ReadsWithin(s, at, WIRE_SIZE, 13, w.param4);
    ReadsWithin(s, at, WIRE_SIZE, 17, Unsigned32(w.latE7));
    ReadsWithin(s, at, WIRE_SIZE, 21, Unsigned32(w.lonE7));
    ReadsWithin(s, at, WIRE_SIZE, 25, w.z);
  }

  lemma PackPrints(s: seq<byte>, at: nat)
    requires at + WIRE_SIZE <= |s|
    ensures Pack(Unpack(s, at)) == s[at..at + WIRE_SIZE]
  {
    hide U32, ReadU32;
    PrintsU32(s, at + 1);
    PrintsU32(s, at + 5);
    PrintsU32(s, at + 9);
    PrintsU32(s, at + 13);
    PrintsU32(s, at + 17);
    PrintsU32(s, at + 21);
    PrintsU32(s, at + 25);
    assert s[at..at + 9] == [s[at]] + s[at + 1..at + 5] + s[at + 5..at + 9];
    assert s[at..at + 17] == s[at..at + 9] + s[at + 9..at + 13] + s[at + 13..at + 17];
    assert s[at..at + 25] == s[at..at + 17] + s[at + 17..at + 21] + s[at + 21..at + 25];
    assert s[at..at + 29] == s[at..at + 25] + s[at + 25..at + 29];
  }

  // ---- The payload ----

  /** `index` counts the waypoints of REPLACE and ADD, and names the waypoint of DELETE and MODIFY. */
  datatype RouteUpdate = RouteUpdate(op: byte, index: byte, reserved: byte, waypoints: seq<RoutePoint>)

  function PackAll(ws: seq<RoutePoint>): (s: seq<byte>)
    ensures |s| == WIRE_SIZE * |ws|
  {
    if ws == [] then [] else PackAll(ws[..|ws| - 1]) + Pack(ws[|ws| - 1])
  }

  function Print(u: RouteUpdate): seq<byte> {
    [u.op, ROUTE_VERSION, u.index, u.reserved] + PackAll(u.waypoints)
  }

  /** The ground's builder. */
  method BuildRoutePayload(op: byte, index: byte, waypoints: seq<RoutePoint>) returns (payload: seq<byte>)
    ensures payload == Print(RouteUpdate(op, index, 0, waypoints))
  {
    hide Pack;
    payload := [op, ROUTE_VERSION, index, 0];
    var i := 0;
    while i < |waypoints|
      invariant 0 <= i <= |waypoints|
      invariant payload == Print(RouteUpdate(op, index, 0, waypoints[..i]))
    {
      assert waypoints[..i + 1][..i] == waypoints[..i];
      payload := payload + Pack(waypoints[i]);
      i := i + 1;
    }
    assert waypoints[..i] == waypoints;
  }

  /** How many waypoints an operation carries, if its index is in range. */
  function Carried(op: byte, index: byte): Option<nat> {
    if op == REPLACE || op == ADD then if 1 <= index as int <= MAX_WAYPOINTS then Some(index) else None
    else if op == DELETE then if index as int < MAX_WAYPOINTS then Some(0) else None
    else if op == MODIFY then if index as int < MAX_WAYPOINTS then Some(1) else None
    else None
  }

  predicate ValidUpdate(u: RouteUpdate) {
    && Carried(u.op, u.index) == Some(|u.waypoints|)
    && forall w :: w in u.waypoints ==> Acceptable(w)
  }

  /** What the vehicle promises to accept: REPLACE (1) or ADD (2) of 1 to 37 waypoints, DELETE (3) or MODIFY (4) of one
      of the first 37, with finite parameters and heights from 2 to 8 m. */
  ghost predicate Lawful(u: RouteUpdate) {
    && (|| ((u.op == 1 || u.op == 2) && 1 <= u.index as int <= 37 && |u.waypoints| == u.index as int)
        || (u.op == 3 && u.index as int < 37 && u.waypoints == [])
        || (u.op == 4 && u.index as int < 37 && |u.waypoints| == 1))
    && forall w :: w in u.waypoints ==>
         && IsNumber(w.param1) && IsNumber(w.param2) && IsNumber(w.param3) && IsNumber(w.param4)
         && IsNumber(w.z) && 2.0 <= Value(w.z) <= 8.0
  }

  lemma ValidIsLawful(u: RouteUpdate)
    ensures ValidUpdate(u) <==> Lawful(u)
  {
    hide IsNumber, Value, AltitudeValid;
    forall w: RoutePoint ensures AltitudeValid(w.z) <==> IsNumber(w.z) && 2.0 <= Value(w.z) <= 8.0 {
      AltitudeExactly(w.z);
    }
  }

  /** The bytes of a printed update, by their offsets. */
  lemma WireFormat(u: RouteUpdate)
    ensures var p := Print(u);
            && |p| == 4 + 29 * |u.waypoints| && p[..4] == [u.op, 2, u.index, u.reserved]
            && forall k :: 0 <= k < |u.waypoints| ==> PointReads(p, 4 + 29 * k, u.waypoints[k])
  {
    hide Pack, PointReads;
    var p := Print(u);
    assert p[4..] == PackAll(u.waypoints);
    forall k | 0 <= k < |u.waypoints| ensures PointReads(p, 4 + 29 * k, u.waypoints[k]) {
      PackAllAt(u.waypoints, k);
      assert p[4 + 29 * k..4 + 29 * k + 29] == p[4..][29 * k..29 * k + 29];
      PackReads(p, 4 + 29 * k, u.waypoints[k]);
    }
  }

  /** The 29 bytes at `at`: command, four parameters, latitude, longitude, height. */
  predicate PointReads(s: seq<byte>, at: int, w: RoutePoint) {
    && 0 <= at && at + 29 <= |s|
    && s[at] == w.cmd && ReadU32(s, at + 1) == w.param1 && ReadU32(s, at + 5) == w.param2
    && ReadU32(s, at + 9) == w.param3 && ReadU32(s, at + 13) == w.param4
    && ReadI32(s, at + 17) == w.latE7 && ReadI32(s, at + 21) == w.lonE7 && ReadU32(s, at + 25) == w.z
  }

  lemma PackReads(s: seq<byte>, at: nat, w: RoutePoint)
    requires at + 29 <= |s| && s[at..at + 29] == Pack(w)
    ensures PointReads(s, at, w)
  {
    hide Pack, ReadU32, ReadI32;
    UnpackReads(s, at, w);
  }

  /** A payload of at most 196 bytes carries at most six waypoints. */
  lemma AtMostSixWaypoints(u: RouteUpdate)
    ensures |Print(u)| <= 196 <==> |u.waypoints| <= 6
  {
  }

  function UnpackAll(p: seq<byte>, n: nat): seq<RoutePoint>
    requires 4 + WIRE_SIZE * n <= |p|
  {
    seq(n, i requires 0 <= i < n => Unpack(p, 4 + WIRE_SIZE * i))
  }

  /** The vehicle's parser. */
  method ParseRouteUpdatePayload(p: seq<byte>) returns (u: Option<RouteUpdate>)
    ensures u == Parse(p)
  {
    if |p| < 4 || p[1] != ROUTE_VERSION {
      return None;
    }
    var op, index := p[0], p[2];
    if op != REPLACE && op != ADD && op != DELETE && op != MODIFY {
      return None;
    }
    if op == DELETE {
      if index as int >= MAX_WAYPOINTS || |p| != 4 {
        return None;
      }
      return Some(RouteUpdate(op, index, p[3], []));
    }
    if op == MODIFY {
      if index as int >= MAX_WAYPOINTS || |p| != 4 + WIRE_SIZE {
        return None;
      }
      var w := Unpack(p, 4);
      assert UnpackAll(p, 1) == [w];
      if !Acceptable(w) {
        assert w in UnpackAll(p, 1);
        return None;
      }
      return Some(RouteUpdate(op, index, p[3], [w]));
    }
    if index == 0 || index as int > MAX_WAYPOINTS || |p| != 4 + WIRE_SIZE * index as int {
      return None;
    }
    var n: nat := index as int;
    assert Carried(op, index) == Some(n);
    var waypoints := ParseWaypoints(p, n);
    if waypoints == None {
      return None;
    }
    u := Some(RouteUpdate(op, index, p[3], waypoints.value));
  }

  method ParseWaypoints(p: seq<byte>, n: nat) returns (ws: Option<seq<RoutePoint>>)
    requires |p| == 4 + WIRE_SIZE * n
    ensures ws == if forall w :: w in UnpackAll(p, n) ==> Acceptable(w) then Some(UnpackAll(p, n)) else None
  {
    hide Unpack, Acceptable;
    var waypoints, i := [], 0;
    while i < n
      invariant 0 <= i <= n && waypoints == UnpackAll(p, i)
      invariant forall w :: w in waypoints ==> Acceptable(w)
    {
      var w := Unpack(p, 4 + WIRE_SIZE * i);
      if !Acceptable(w) {
        assert w == UnpackAll(p, n)[i];
        return None;
      }
      waypoints := waypoints + [w];
      i := i + 1;
    }
    ws := Some(waypoints);
  }

  /** The only update a payload could stand for, and whether it does. */
  function Parse(p: seq<byte>): Option<RouteUpdate> {
    if |p| < 4 || p[1] != ROUTE_VERSION || Carried(p[0], p[2]) == None then None
    else
      var n := Carried(p[0], p[2]).value;
      if |p| != 4 + WIRE_SIZE * n then None
      else
        var u := RouteUpdate(p[0], p[2], p[3], UnpackAll(p, n));
        if ValidUpdate(u) then Some(u) else None
  }

  lemma {:induction false} PackAllAt(ws: seq<RoutePoint>, i: nat)
    requires i < |ws|
    ensures PackAll(ws)[WIRE_SIZE * i..WIRE_SIZE * i + WIRE_SIZE] == Pack(ws[i])
  {
    hide Pack;
    var n := |ws| - 1;
    if i < n {
      PackAllAt(ws[..n], i);
      assert PackAll(ws)[WIRE_SIZE * i..WIRE_SIZE * i + WIRE_SIZE]
             == PackAll(ws[..n])[WIRE_SIZE * i..WIRE_SIZE * i + WIRE_SIZE];
    }
  }

  lemma {:induction false} PackAllPrints(p: seq<byte>, n: nat)
    requires 4 + WIRE_SIZE * n <= |p|
    ensures PackAll(UnpackAll(p, n)) == p[4..4 + WIRE_SIZE * n]
  {
    hide Pack, Unpack;
    if n > 0 {
      PackAllPrints(p, n - 1);
      var ws := UnpackAll(p, n);
      assert ws[..n - 1] == UnpackAll(p, n - 1);
      PackPrints(p, 4 + WIRE_SIZE * (n - 1));
      assert p[4..4 + WIRE_SIZE * n] == p[4..4 + WIRE_SIZE * (n - 1)] + p[4 + WIRE_SIZE * (n - 1)..4 + WIRE_SIZE * n];
    }
  }

  /** The parser undoes the builder on exactly the valid updates: it accepts a payload as `u` if and only
      if `u` is lawful and the payload is what is printed for it. */
  lemma ParseExact(p: seq<byte>, u: RouteUpdate)
    ensures Parse(p) == Some(u) <==> Lawful(u) && p == Print(u)
  {
    hide Unpack, Pack, Acceptable, Lawful;
    ValidIsLawful(u);
    if ValidUpdate(u) && p == Print(u) {
      var n := |u.waypoints|;
      assert p[4..] == PackAll(u.waypoints);
      forall i | 0 <= i < n
        ensures UnpackAll(p, n)[i] == u.waypoints[i]
      {
        PackAllAt(u.waypoints, i);
        var at := WIRE_SIZE * i;
        assert p[4 + at..4 + at + WIRE_SIZE] == p[4..][at..at + WIRE_SIZE];
        UnpackReads(p, 4 + at, u.waypoints[i]);
      }
      assert UnpackAll(p, n) == u.waypoints;
    }
    if Parse(p) == Some(u) {
      var n := |u.waypoints|;
      PackAllPrints(p, n);
      assert p == p[..4] + p[4..4 + WIRE_SIZE * n];
      assert p[..4] == [u.op, ROUTE_VERSION, u.index, u.reserved];
    }
  }
}
