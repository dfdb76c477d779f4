/**
  A ground command on its whole way: printed as a radio frame, parsed on the vehicle, forwarded to the
  command application, judged, and sent on to the application that carries it out; and the vehicle's
  frames on their way back.
 */
module EndToEnd {
  import opened Bytes
  import opened Uplink2
  import opened UplinkRules
  import ConfigCommand
  import RoutePayload
  import AirFrame
  import Dl2
  import GroundStream
  import GroundStreamProofs
  import RouteReadback
  import LoraLink
  import LinkState

  /** The command application would take the command if its payload is in order. */
  predicate Clear(m: Context, c: FwdCommand)
    requires ValidFwd(c)
  {
    CheckSequence(m.accepted, m.last, c.seqNo) == New && m.healthKnown && !Blocked(m.health, c) && GrantedLevel(c) >= 2
  }

  /** What arrives at the command application when `c` is printed on the ground. */
  function Arriving(c: Command): (f: FwdCommand)
    requires |c.payload| <= MAX_PAYLOAD
    ensures ValidFwd(f)
  {
    Forward(c)
  }

  lemma Arrives(c: Command)
    requires |c.payload| <= MAX_PAYLOAD && c.version == 1 && CONFIG <= c.commandClass <= FLIGHT_MODE && c.payload != []
    ensures ParseUp2(PrintUp2(c)) == Some(c)
    ensures Complaint(Arriving(c)) == None && Args(Arriving(c)) == c.payload
  {
    hide ProxyCrc, Forward, ParseUp2, PrintUp2;
    Up2Exact(PrintUp2(c), c);
    ForwardedFields(c);
    ForwardedPasses(c);
  }

  lemma ForwardedFields(c: Command)
    requires |c.payload| <= MAX_PAYLOAD
    ensures Forward(c).payloadLength == |c.payload|
  {
  }

  /** A configuration command built on the ground reaches the bus unchanged; the core application applies
      exactly the parameter and value the ground meant when they are in range, and the radio application
      stays silent. */
  lemma ConfigReachesCore(m: Context, flags: byte, seqNo: u16, param: u16, valueType: byte, value: u32)
    requires var c := Command(1, CONFIG, seqNo, flags,
             ConfigCommand.Build(ConfigCommand.CORE_SCOPE, param, valueType, value));
             Clear(m, Arriving(c))
    ensures var p := ConfigCommand.Build(ConfigCommand.CORE_SCOPE, param, valueType, value);
            var c := Command(1, CONFIG, seqNo, flags, p);
            && ParseUp2(PrintUp2(c)) == Some(c)
            && Sends(m, Arriving(c), true) == [ConfigMsg(seqNo, p)]
            && (ConfigCommand.CoreVerdictOn(p) == ConfigCommand.Apply(param, value)
                <==> param <= 5 && 100 <= value <= 60000)
            && ConfigCommand.CoreAnswers(p) && !ConfigCommand.LoraAnswers(p)
  {
    hide ProxyCrc, ParseUp2, PrintUp2, Forward, Blocked, Complaint, ConfigCommand.Build, ConfigCommand.Forwardable,
         ConfigCommand.CoreVerdictOn, ConfigCommand.LoraVerdictOn;
    var p := ConfigCommand.Build(ConfigCommand.CORE_SCOPE, param, valueType, value);
    var c := Command(1, CONFIG, seqNo, flags, p);
    Arrives(c);
    SameFields(c);
    BuildCarries(ConfigCommand.CORE_SCOPE, param, valueType, value);
    ConfigCommand.ReadsWhatWasBuilt(p, ConfigCommand.CORE_SCOPE, param, value);
    ConfigCommand.CoreAppliesExactly(p, param, value);
    ConfigCommand.OnlyTheTargetAnswers(p);
  }

  lemma SameFields(c: Command)
    requires |c.payload| <= MAX_PAYLOAD
    ensures var f := Forward(c); f.commandClass == c.commandClass && f.flags == c.flags && f.seqNo == c.seqNo
  {
  }

  lemma BuildCarries(scope: byte, param: u16, valueType: byte, value: u32)
    ensures ConfigCommand.Carries(ConfigCommand.Build(scope, param, valueType, value), scope, param, value)
  {
  }

  /** A route update built on the ground reaches the bus as the update that was meant, exactly when it is
      valid; a radio frame holds at most six waypoints. */
  lemma RouteReachesBus(m: Context, flags: byte, seqNo: u16, u: RoutePayload.RouteUpdate)
    requires |u.waypoints| <= 6
    requires |RoutePayload.Print(u)| <= MAX_PAYLOAD ==>
      Clear(m, Arriving(Command(1, ROUTE_UPDATE, seqNo, flags, RoutePayload.Print(u))))
    ensures var c := Command(1, ROUTE_UPDATE, seqNo, flags, RoutePayload.Print(u));
            && |c.payload| <= MAX_PAYLOAD
            && ParseUp2(PrintUp2(c)) == Some(c)
            && (Sends(m, Arriving(c), true) == [RouteMsg(seqNo, u)] <==> RoutePayload.Lawful(u))
            && (!RoutePayload.Lawful(u) ==> Decide(m, Arriving(c), true) == Rejected(REJECT_ROUTE))
  {
    hide ProxyCrc, ParseUp2, PrintUp2, Forward, Blocked, Complaint, RoutePayload.Parse, RoutePayload.Print,
         RoutePayload.Lawful;
    RoutePayload.AtMostSixWaypoints(u);
    var c := Command(1, ROUTE_UPDATE, seqNo, flags, RoutePayload.Print(u));
    PrintLength(u);
    Arrives(c);
    SameFields(c);
    RoutePayload.ParseExact(c.payload, u);
    if RoutePayload.Parse(c.payload).Some? {
      RoutePayload.ParseExact(c.payload, RoutePayload.Parse(c.payload).value);
      PrintInjective(u, RoutePayload.Parse(c.payload).value);
    }
  }

  lemma PrintLength(u: RoutePayload.RouteUpdate)
    ensures RoutePayload.Print(u) != []
  {
  }

  /** The ground's builder of flight mode payloads. */
  function BuildFlightMode(mode: byte, startIndex: byte, token: u32): (p: seq<byte>)
    ensures |p| == 6
  {
    [mode, startIndex] + U32(token)
  }

  /** A flight mode command built on the ground with level 3 and a token reaches the bus with the mode and the waypoint
      that were meant, exactly when the mode is hover (0), waypoints (1) or land (2) and only waypoints names one. */
  lemma FlightModeReachesBus(m: Context, flags: byte, seqNo: u16, mode: byte, startIndex: byte, token: u32)
    requires var c := Command(1, FLIGHT_MODE, seqNo, flags, BuildFlightMode(mode, startIndex, token));
             Clear(m, Arriving(c)) && flags as int / 64 == 3 && token != 0
    ensures var c := Command(1, FLIGHT_MODE, seqNo, flags, BuildFlightMode(mode, startIndex, token));
            && ParseUp2(PrintUp2(c)) == Some(c)
            && (Sends(m, Arriving(c), true) == [FlightModeMsg(seqNo, mode, startIndex)]
                <==> mode <= 2 && (mode == 1 || startIndex == 0))
  {
    hide ProxyCrc, ParseUp2, PrintUp2, Forward, Blocked, Complaint;
    var p := BuildFlightMode(mode, startIndex, token);
    var c := Command(1, FLIGHT_MODE, seqNo, flags, p);
    Arrives(c);
    SameFields(c);
    assert p[2..6] == U32(token);
    ReadsU32(p, 2, token);
  }

  /** Only one valid update prints as a payload. */
  lemma PrintInjective(u: RoutePayload.RouteUpdate, v: RoutePayload.RouteUpdate)
    requires RoutePayload.Print(u) == RoutePayload.Print(v)
    ensures u == v
  {
    hide RoutePayload.Pack;
    var s, t := RoutePayload.PackAll(u.waypoints), RoutePayload.PackAll(v.waypoints);
    assert s == RoutePayload.Print(u)[4..] && t == RoutePayload.Print(v)[4..];
    assert RoutePayload.Print(u)[0] == u.op && RoutePayload.Print(u)[2] == u.index
           && RoutePayload.Print(u)[3] == u.reserved;
    assert RoutePayload.Print(v)[0] == v.op && RoutePayload.Print(v)[2] == v.index
           && RoutePayload.Print(v)[3] == v.reserved;
    forall i | 0 <= i < |u.waypoints|
      ensures u.waypoints[i] == v.waypoints[i]
    {
      RoutePayload.PackAllAt(u.waypoints, i);
      RoutePayload.PackAllAt(v.waypoints, i);
      RoutePayload.UnpackReads(s, RoutePayload.WIRE_SIZE * i, u.waypoints[i]);
      RoutePayload.UnpackReads(s, RoutePayload.WIRE_SIZE * i, v.waypoints[i]);
    }
  }

  // ---- The downlink ----

  ghost predicate AllInBounds(sources: seq<AirFrame.Source>) {
    forall i :: 0 <= i < |sources| ==> AirFrame.ValidRoute(sources[i].route)
  }

  /** The bytes of the frames written one after the other. */
  function OnTheAir(sources: seq<AirFrame.Source>): seq<byte>
    requires AllInBounds(sources)
  {
    if sources == [] then [] else AirFrame.FrameBytes(sources[0]) + OnTheAir(sources[1..])
  }

  /** The frames that the assembler of the ground is given. */
  function Delivered(sources: seq<AirFrame.Source>): seq<GroundStream.Event>
    requires AllInBounds(sources)
  {
    seq(|sources|, i requires 0 <= i < |sources| =>
      GroundStream.Decoded(RouteReadback.OnAir(sources[i], sources[i].route)))
  }

  function Items(sources: seq<AirFrame.Source>): seq<GroundStreamProofs.Item>
    requires AllInBounds(sources)
  {
    seq(|sources|, i requires 0 <= i < |sources| => GroundStreamProofs.Wire(AirFrame.FrameBytes(sources[i])))
  }

  lemma FrameIsItem(a: AirFrame.Source)
    requires AirFrame.ValidRoute(a.route)
    ensures var i := GroundStreamProofs.Wire(AirFrame.FrameBytes(a));
            && GroundStreamProofs.ValidItem(i)
            && GroundStreamProofs.EventOf(i) == GroundStream.Decoded(RouteReadback.OnAir(a, a.route))
  {
    hide AirFrame.FrameBytes, Dl2.Decode, GroundStreamProofs.ValidWire;
    AirFrame.GroundReadsAir(a);
    assert a.(route := a.route) == a;
  }

  lemma {:induction false} ItemsArePrinted(sources: seq<AirFrame.Source>)
    requires AllInBounds(sources)
    ensures var items := Items(sources);
            && GroundStreamProofs.PrintedAll(items) == OnTheAir(sources)
            && GroundStreamProofs.ValidItems(items)
            && GroundStreamProofs.EventsOf(items) == Delivered(sources)
  {
    hide AirFrame.FrameBytes, AirFrame.ValidRoute, RouteReadback.OnAir, GroundStream.TryParse,
         GroundStreamProofs.ValidItem, GroundStreamProofs.EventOf, Items, Delivered;
    ItemsStep(sources);
    if sources != [] {
      ItemsArePrinted(sources[1..]);
      FrameIsItem(sources[0]);
    }
  }

  lemma ItemsStep(sources: seq<AirFrame.Source>)
    requires AllInBounds(sources)
    ensures |Items(sources)| == |sources| == |Delivered(sources)|
    ensures sources != [] ==>
              && Items(sources)[0] == GroundStreamProofs.Wire(AirFrame.FrameBytes(sources[0]))
              && Items(sources)[1..] == Items(sources[1..])
              && Delivered(sources)[0] == GroundStream.Decoded(RouteReadback.OnAir(sources[0], sources[0].route))
              && Delivered(sources)[1..] == Delivered(sources[1..])
  {
    hide AirFrame.FrameBytes, AirFrame.ValidRoute, RouteReadback.OnAir;
  }

  /** The frames that the vehicle writes, whatever its states, reach the ground's assembler whole and in
      order, wherever the stream is cut: what `RouteReadback` takes as a delivered frame is what the stream
      parser reports. */
  lemma DownlinkReachesGround(sources: seq<AirFrame.Source>, chunks: seq<seq<byte>>)
    requires AllInBounds(sources) && GroundStreamProofs.Concat(chunks) == OnTheAir(sources)
    ensures GroundStream.FeedAll([], chunks) == GroundStream.Parsed(Delivered(sources), [])
  {
    hide GroundStreamProofs.PrintedAll, GroundStreamProofs.EventsOf, GroundStreamProofs.ValidItems,
         GroundStream.FeedAll, Delivered,
         OnTheAir, Items;
    ItemsArePrinted(sources);
    GroundStreamProofs.ExactForAnyCut(chunks, Items(sources));
  }

  /** A frame's way down and its acknowledgement's way up: when the ground acknowledges the frame it decoded, the
      vehicle counts a mismatch exactly when that was not the frame it sent last, modulo 65536. */
  lemma AckOfWrittenFrame(a: AirFrame.Source, l: LoraLink.Link, now: u32)
    requires AirFrame.ValidRoute(a.route)
    ensures var echo := Dl2.Decode(AirFrame.FrameBytes(a)).seqNo;
            var h := LoraLink.HandleBinary(l, BuildAck2(echo), now).link;
            && h == LoraLink.AcceptAck(l, a.downlinkSeq % 0x1_0000 != l.lastSentSeq % 0x1_0000, now)
            && (h.seqFailCount == l.seqFailCount <==> a.downlinkSeq % 0x1_0000 == l.lastSentSeq % 0x1_0000)
  {
    hide Dl2.Decode, AirFrame.FrameBytes, LoraLink.HandleBinary, BuildAck2;
    AirFrame.GroundReadsAir(a);
    LinkState.AckIsHandled(l, Dl2.Decode(AirFrame.FrameBytes(a)).seqNo, now);
  }
}
