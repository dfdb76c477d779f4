/**
  The radio application: its state, and the operations that move it, each proved against the
  specification functions of the link, the paging and the frame format.
 */
module LoraApp {
  import opened Bytes
  import opened Crc16
  import opened Uplink2
  import opened RxMachine
  import opened LoraLink
  import opened AirFrame
  import Dl2
  import FrameBuilder
  import LinkState
  import RouteReadback
  import ConfigCommand

  const NO_FC_STATE: FcState := FcState(0, 0.0, 0.0, 0.0, 0.0, 0.0, 0.0, 0.0, 0.0, 0.0, 0, 0, 0, 0, 0, 0, 0)

  /** Telemetry on the message bus that the application may cache. */
  datatype Telemetry =
    | Attitude(tsMs: u32, roll: real, pitch: real, yaw: real)
    | LocalState(tsMs: u32, x: real, y: real, z: real, vx: real, vy: real, vz: real)
    | GpsRaw(tsMs: u32, latE7: i32, lonE7: i32, altMm: i32, fix: byte, sats: byte)
    | EkfStatus(tsMs: u32)
    | SystemHealth(state: byte, fault: byte)
    | SysTime(usec: u64, valid: byte)

  /** What the cache update makes of a message that reaches it. */
  function Cached(f: FcState, m: Telemetry): FcState {
    match m
    case Attitude(ts, r, p, y) => f.(tsMs := ts, roll := r, pitch := p, yaw := y)
    case LocalState(ts, x, y, z, vx, vy, vz) =>
      f.(tsMs := ts, posX := x, posY := y, posZ := z, velX := vx, velY := vy, velZ := vz)
    case GpsRaw(ts, lat, lon, alt, fix, sats) =>
      f.(tsMs := ts, latE7 := lat, lonE7 := lon, altMm := alt, gpsFix := fix, sats := sats)
    case EkfStatus(ts) => f.(tsMs := ts)
    case SystemHealth(state, fault) => f
    case SysTime(usec, valid) => f.(timeUnixUsec := usec, timeValid := valid)
  }

  /** The messages the dispatcher passes on to the cache update: all but the system time, which it
      counts as an unknown message. */
  predicate Routed(m: Telemetry) { !m.SysTime? }

  /** The answer to a configuration command. */
  datatype ConfigReply = ConfigReply(source: u16, ok: bool)

  class LoraTdmApp {
    const classify: Classifier

    // Counters and link
    var cmdCounter: byte
    var errCounter: byte
    var linkState: byte
    var linkStateInitialized: bool
    var downlinkSeq: u32
    var lastSentSeq: u32
    var txCount: u32
    var rxAckCount: u32
    var rxCmdCount: u32
    var rxErrorCount: u16
    var noAckCount: u16
    var ackReceivedThisCycle: bool
    var seqFailCount: u16
    var lastAckTimestampMs: u32
    var pendingUplinkFeedback: byte
    var uplinkLastAcceptedSequence: u16
    var uplinkBootCount: byte

    // Route readback
    var routeReadbackPending: bool
    var routeType: byte
    var routeWaypointCount: byte
    var routePageIndex: byte
    var routeTotalPages: byte
    var routeWaypoints: seq<Waypoint>

    // Serial port and receive buffer
    var portOpen: bool
    var useV2Downlink: bool
    var rxLineBuf: array<byte>
    var rxLineBufLen: nat
    var rxFrameMode: Mode
    var rxFrameTargetLen: nat

    // Telemetry cache
    var fcState: FcState
    var healthState: byte
    var faultCode: byte

    // Logs of what left the application
    ghost var dispatched: seq<Msg>
    ghost var forwarded: seq<FwdCommand>
    ghost var written: seq<seq<byte>>
    ghost var replies: seq<ConfigReply>

    /** The protocol in the state file, if there is one. */
    var savedProtocol: Option<bool>

    ghost predicate Valid()
      reads this
    {
      && rxLineBuf.Length == BUF_LEN && rxLineBufLen < BUF_LEN
      && |routeWaypoints| == MAX_WAYPOINTS
    }

    function RouteState(): Route
      reads this
    {
      Route(routeReadbackPending, routeType, routeWaypointCount, routePageIndex, routeTotalPages, routeWaypoints)
    }

    function FrameSource(): Source
      reads this
    {
      Source(downlinkSeq, pendingUplinkFeedback, fcState, healthState, faultCode, linkState,
             uplinkLastAcceptedSequence, uplinkBootCount, RouteState())
    }

    function LinkCounters(): Link
      reads this
    {
      Link(lastSentSeq, rxAckCount, rxCmdCount, rxErrorCount, noAckCount, ackReceivedThisCycle, seqFailCount,
           lastAckTimestampMs, pendingUplinkFeedback)
    }

    ghost function RxState(): Rx
      requires Valid()
      reads this, rxLineBuf
    {
      Rx(rxLineBuf[..rxLineBufLen], rxFrameMode, rxFrameTargetLen)
    }

    ghost function Receiver(): Comm
      requires Valid()
      reads this, rxLineBuf
    {
      Comm(RxState(), LinkCounters(), portOpen, dispatched, forwarded)
    }

    constructor (classify: Classifier)
      ensures Valid() && fresh(rxLineBuf) && this.classify == classify
      ensures RouteState() == RouteReadback.BOOT.route && fcState == NO_FC_STATE
      ensures Receiver() == Comm(Rx([], Idle, 0), Link(0, 0, 0, 0, 0, false, 0, 0, 0), false, [], [])
      ensures downlinkSeq == 0 && useV2Downlink && written == [] && replies == []
    {
      this.classify := classify;
      errCounter, linkState, linkStateInitialized, downlinkSeq, lastSentSeq, txCount := 0, 0, false, 0, 0, 0;
      rxAckCount, rxCmdCount, rxErrorCount, noAckCount, ackReceivedThisCycle, seqFailCount := 0, 0, 0, 0, false, 0;
      lastAckTimestampMs, pendingUplinkFeedback, uplinkLastAcceptedSequence, uplinkBootCount := 0, 0, 0, 0;
      routeReadbackPending, routeType, routeWaypointCount, routePageIndex, routeTotalPages := false, 0, 0, 0, 0;
      routeWaypoints := RouteReadback.NO_ROUTE;
      portOpen, useV2Downlink := false, true;
      rxLineBuf := new byte[BUF_LEN];
      rxLineBufLen, rxFrameMode, rxFrameTargetLen := 0, Idle, 0;
      fcState, healthState, faultCode := NO_FC_STATE, 0, 0;
      dispatched, forwarded, written, replies, cmdCounter := [], [], [], [], 0;
      savedProtocol := None;
    }

    // ---- Telemetry cache ----

    method UpdateCacheFromMsg(m: Telemetry)
      modifies this`fcState, this`healthState, this`faultCode
      ensures fcState == Cached(old(fcState), m)
      ensures m.SystemHealth? ==> healthState == m.state && faultCode == m.fault
      ensures !m.SystemHealth? ==> healthState == old(healthState) && faultCode == old(faultCode)
    {
      match m {
        case Attitude(ts, r, p, y) =>
          fcState := fcState.(tsMs := ts, roll := r, pitch := p, yaw := y);
        case LocalState(ts, x, y, z, vx, vy, vz) =>
          fcState := fcState.(tsMs := ts, posX := x, posY := y, posZ := z, velX := vx, velY := vy, velZ := vz);
        case GpsRaw(ts, lat, lon, alt, fix, sats) =>
          fcState := fcState.(tsMs := ts, latE7 := lat, lonE7 := lon, altMm := alt, gpsFix := fix, sats := sats);
        case SysTime(usec, valid) =>
          fcState := fcState.(timeUnixUsec := usec, timeValid := valid);
        case SystemHealth(state, fault) =>
          healthState, faultCode := state, fault;
        case EkfStatus(ts) =>
          fcState := fcState.(tsMs := ts);
      }
    }

    /** The dispatcher's telemetry branch. */
    method ProcessTelemetryPacket(m: Telemetry)
      modifies this`fcState, this`healthState, this`faultCode, this`errCounter
      ensures fcState == if Routed(m) then Cached(old(fcState), m) else old(fcState)
      ensures errCounter == if Routed(m) then old(errCounter) else Inc8(old(errCounter))
    {
      if m.Attitude? || m.LocalState? || m.GpsRaw? || m.EkfStatus? || m.SystemHealth? {
        UpdateCacheFromMsg(m);
      } else {
        errCounter := Inc8(errCounter);
      }
    }

    // ---- Route readback ----

    method ProcessRouteSnapshot(m: RouteReadback.Snapshot)
      requires Valid() && RouteReadback.ValidSnapshot(m)
      modifies this`routeReadbackPending, this`routeType, this`routeWaypointCount, this`routePageIndex,
               this`routeTotalPages, this`routeWaypoints
      ensures Valid() && RouteState() == RouteReadback.Begin(old(RouteState()), m)
    {
      var count := m.count;
      if count as int > MAX_WAYPOINTS {
        count := MAX_WAYPOINTS;
      }
      routeType := m.routeType;
      routeWaypointCount := count;
      routeWaypoints := m.waypoints[..count] + routeWaypoints[count..];
      routePageIndex := 0;
      routeTotalPages := if count == 0 then 0 else (count + 2 - 1) / 2;
      routeReadbackPending := routeTotalPages > 0;
    }

    // ---- Transmit slot ----

    /** Sends the frame or line that is due.  `lineLen` is the length of the v1 text line if v1 is in use
        (not positive if the line could not be built), and `wrote` is what the serial port accepted. */
    method RunTx(lineLen: int, wrote: int)
      requires Valid() && ValidRoute(RouteState())
      modifies this`txCount, this`lastSentSeq, this`downlinkSeq, this`routeReadbackPending, this`routePageIndex,
               this`portOpen, this`written
      ensures Valid()
      ensures var frame := FrameBytes(old(FrameSource()));
              var due := if useV2Downlink then |frame| else lineLen;
              var sent := old(portOpen) && due > 0 && wrote == due;
              && written == (if sent && useV2Downlink then old(written) + [frame] else old(written))
              && RouteState() == (if sent && useV2Downlink then RouteReadback.AfterWrite(old(RouteState()))
                   else old(RouteState()))
              && lastSentSeq == (if sent then old(downlinkSeq) else old(lastSentSeq))
              && downlinkSeq == (if sent then Inc32(old(downlinkSeq)) else old(downlinkSeq))
              && txCount == (if sent then Inc32(old(txCount)) else old(txCount))
              && portOpen == (old(portOpen) && (due <= 0 || wrote == due))
    {
      hide FrameBytes, View, Dl2.Encode;
      if !portOpen {
        return;
      }
      if useV2Downlink {
        FrameBytesIs(FrameSource());
        var buf := new byte[MAX_FRAME_LEN];
        var len := FrameBuilder.BuildDl2Frame(buf, FrameSource());
        if wrote == len {
          txCount := Inc32(txCount);
          lastSentSeq := downlinkSeq;
          downlinkSeq := Inc32(downlinkSeq);
          written := written + [buf[..len]];
          AdvancePage();
        } else {
          portOpen := false;
        }
        return;
      }
      if lineLen > 0 {
        if wrote == lineLen {
          txCount := Inc32(txCount);
          lastSentSeq := downlinkSeq;
          downlinkSeq := Inc32(downlinkSeq);
        } else {
          portOpen := false;
        }
      }
    }

    method AdvancePage()
      requires ValidRoute(RouteState())
      modifies this`routeReadbackPending, this`routePageIndex
      ensures RouteState() == RouteReadback.AfterWrite(old(RouteState()))
    {
      if routeReadbackPending {
        if routePageIndex as int + 1 >= routeTotalPages as int {
          routeReadbackPending := false;
          routePageIndex := 0;
        } else {
          routePageIndex := routePageIndex + 1;
        }
      }
    }

    // ---- Received messages ----

    method AcceptAckOf(mismatch: bool, now: u32)
      modifies this`seqFailCount, this`rxAckCount, this`noAckCount, this`ackReceivedThisCycle, this`lastAckTimestampMs
      ensures LinkCounters() == AcceptAck(old(LinkCounters()), mismatch, now)
    {
      if mismatch {
        seqFailCount := Inc16(seqFailCount);
      }
      rxAckCount := Inc32(rxAckCount);
      noAckCount := 0;
      ackReceivedThisCycle := true;
      lastAckTimestampMs := now;
    }

    method ForwardUp2ToUplinkApp(c: ShortCommand)
      modifies this`forwarded, this`pendingUplinkFeedback, this`rxCmdCount
      ensures forwarded == old(forwarded) + [Forward(c)]
      ensures LinkCounters() == AcceptCommand(old(LinkCounters()))
    {
      forwarded := forwarded + [Forward(c)];
      pendingUplinkFeedback := FEEDBACK_OK;
      rxCmdCount := Inc32(rxCmdCount);
    }

    method ProcessRxBinaryFrame(buf: array<byte>, len: nat, now: u32)
      requires len <= buf.Length
      modifies this`seqFailCount, this`rxAckCount, this`noAckCount, this`ackReceivedThisCycle, this`lastAckTimestampMs,
               this`rxErrorCount, this`forwarded, this`pendingUplinkFeedback, this`rxCmdCount
      ensures var h := HandleBinary(old(LinkCounters()), buf[..len], now);
              && LinkCounters() == h.link
              && forwarded == if h.fwd.Some? then old(forwarded) + [h.fwd.value] else old(forwarded)
    {
      hide Crc, ParseUp2, ParseAck2, Forward;
      if len == 0 {
        return;
      }
      if buf[0] == Dl2.ACK2_MAGIC {
        var echo := ParseAck2Frame(buf, len);
        if echo.Some? {
          AcceptAckOf(echo.value != lastSentSeq % 0x1_0000, now);
        } else {
          rxErrorCount := Inc16(rxErrorCount);
        }
        return;
      }
      if buf[0] == Dl2.UP2_MAGIC {
        var c := ParseUp2Frame(buf, len);
        if c.Some? {
          ParsedIsShort(buf[..len]);
          ForwardUp2ToUplinkApp(c.value);
        } else {
          pendingUplinkFeedback := FEEDBACK_CRC_FAIL;
          rxErrorCount := Inc16(rxErrorCount);
        }
      }
    }

    method ProcessRxLine(line: seq<byte>, now: u32)
      modifies this`seqFailCount, this`rxAckCount, this`noAckCount, this`ackReceivedThisCycle, this`lastAckTimestampMs,
               this`rxErrorCount, this`forwarded, this`pendingUplinkFeedback, this`rxCmdCount
      ensures var h := HandleText(old(LinkCounters()), classify(line), now);
              && LinkCounters() == h.link
              && forwarded == if h.fwd.Some? then old(forwarded) + [h.fwd.value] else old(forwarded)
    {
      match classify(line) {
        case AckText(echo) => AcceptAckOf(echo != lastSentSeq, now);
        case BadAckText => rxErrorCount := Inc16(rxErrorCount);
        case UpText(c) => ForwardUp2ToUplinkApp(c);
        case BadUpText =>
          pendingUplinkFeedback := FEEDBACK_CRC_FAIL;
          rxErrorCount := Inc16(rxErrorCount);
        case OtherText =>
      }
    }

    // ---- Receive window ----

    /** One received byte. */
    method ReceiveByte(c: byte, now: u32)
      requires Valid()
      modifies this`rxLineBufLen, this`rxFrameMode, this`rxFrameTargetLen, rxLineBuf, this`dispatched,
               this`seqFailCount, this`rxAckCount, this`noAckCount, this`ackReceivedThisCycle, this`lastAckTimestampMs,
               this`rxErrorCount, this`forwarded, this`pendingUplinkFeedback, this`rxCmdCount
      ensures Valid() && Receiver() == TakeByte(old(Receiver()), classify, c, now)
    {
      hide Finish, AfterStore, Select;
      if rxLineBufLen < BUF_LEN - 1 {
        ghost var begun := Receiver();
        StoreByte(c);
        SelectKeepsBuffer(begun.rx.(buf := begun.rx.buf + [c]));
        FinishIgnoresRx(begun, RxState(), AfterStore(RxState(), c), classify, now);
        ProcessStored(c, now);
      } else {
        rxLineBufLen, rxFrameMode := 0, Idle;
        NothingFinished(old(Receiver()), Reset(old(RxState())), classify, now);
      }
    }

    /** Appends a byte; the first byte selects the kind of message. */
    method StoreByte(c: byte)
      requires Valid() && rxLineBufLen < BUF_LEN - 1
      modifies this`rxLineBufLen, this`rxFrameMode, this`rxFrameTargetLen, rxLineBuf
      ensures Valid() && rxLineBufLen == old(rxLineBufLen) + 1
      ensures RxState() == Select(old(RxState()).(buf := old(RxState()).buf + [c]))
    {
      rxLineBuf[rxLineBufLen] := c;
      rxLineBufLen := rxLineBufLen + 1;
      assert rxLineBuf[..rxLineBufLen] == old(rxLineBuf[..rxLineBufLen]) + [c];
      if rxLineBufLen == 1 {
        if c == Dl2.ACK2_MAGIC {
          rxFrameMode, rxFrameTargetLen := Ack2, 5;
        } else if c == Dl2.UP2_MAGIC {
          rxFrameMode := Up2Header;
        } else {
          rxFrameMode := Text;
        }
      }
    }

    /** Dispatches the message if the byte just stored completes it. */
    method ProcessStored(c: byte, now: u32)
      requires Valid() && 1 <= rxLineBufLen && RxState().buf[rxLineBufLen - 1] == c
      modifies this`rxLineBufLen, this`rxFrameMode, this`rxFrameTargetLen, rxLineBuf, this`dispatched,
               this`seqFailCount, this`rxAckCount, this`noAckCount, this`ackReceivedThisCycle, this`lastAckTimestampMs,
               this`rxErrorCount, this`forwarded, this`pendingUplinkFeedback, this`rxCmdCount
      ensures Valid() && Receiver() == Finish(old(Receiver()), AfterStore(old(RxState()), c), classify, now)
    {
      hide Handle, HandleBinary, HandleText;
      match rxFrameMode {
        case Text =>
          if c == LF {
            DispatchLine(now);
          }
        case Up2Header =>
          if rxLineBufLen == 2 {
            var plen: int := rxLineBuf[1];
            if plen > MAX_PAYLOAD {
              rxLineBufLen, rxFrameMode := 0, Idle;
            } else {
              rxFrameTargetLen := 7 + plen + 2;
              rxFrameMode := Up2Body;
            }
          }
        case Ack2 =>
          if rxLineBufLen >= rxFrameTargetLen {
            DispatchBinary(now);
          }
        case Up2Body =>
          if rxLineBufLen >= rxFrameTargetLen {
            DispatchBinary(now);
          }
        case Idle =>
      }
    }

    method DispatchLine(now: u32)
      requires Valid()
      modifies this`rxLineBufLen, this`rxFrameMode, rxLineBuf, this`dispatched,
               this`seqFailCount, this`rxAckCount, this`noAckCount, this`ackReceivedThisCycle, this`lastAckTimestampMs,
               this`rxErrorCount, this`forwarded, this`pendingUplinkFeedback, this`rxCmdCount
      ensures Valid() && Receiver() == Deliver(old(Receiver()), TextLine(old(RxState()).buf), classify, now)
    {
      hide HandleBinary, HandleText;
      ghost var line := rxLineBuf[..rxLineBufLen];
      // The terminator the text handler relies on.
      rxLineBuf[rxLineBufLen] := 0;
      assert rxLineBuf[..rxLineBufLen] == line;
      dispatched := dispatched + [TextLine(line)];
      ProcessRxLine(rxLineBuf[..rxLineBufLen], now);
      rxLineBufLen, rxFrameMode := 0, Idle;
    }

    method DispatchBinary(now: u32)
      requires Valid()
      modifies this`rxLineBufLen, this`rxFrameMode, this`dispatched,
               this`seqFailCount, this`rxAckCount, this`noAckCount, this`ackReceivedThisCycle, this`lastAckTimestampMs,
               this`rxErrorCount, this`forwarded, this`pendingUplinkFeedback, this`rxCmdCount
      ensures Valid() && Receiver() == Deliver(old(Receiver()), Binary(old(RxState()).buf), classify, now)
    {
      hide HandleBinary, HandleText;
      dispatched := dispatched + [Binary(rxLineBuf[..rxLineBufLen])];
      ProcessRxBinaryFrame(rxLineBuf, rxLineBufLen, now);
      rxLineBufLen, rxFrameMode := 0, Idle;
    }

    /** One receive window: polls the port until the deadline, that is, the end of `polls`. */
    method RunRxWindow(polls: seq<Poll>)
      requires Valid()
      modifies this`rxLineBufLen, this`rxFrameMode, this`rxFrameTargetLen, rxLineBuf, this`dispatched,
               this`seqFailCount, this`rxAckCount, this`noAckCount, this`ackReceivedThisCycle, this`lastAckTimestampMs,
               this`rxErrorCount, this`forwarded, this`pendingUplinkFeedback, this`rxCmdCount, this`portOpen
      ensures Valid() && Receiver() == Window(old(Receiver()), classify, polls)
    {
      ackReceivedThisCycle := false;
      PollPort(polls);
      if !ackReceivedThisCycle && noAckCount < 0xFFFF {
        noAckCount := noAckCount + 1;
      }
    }

    method PollPort(polls: seq<Poll>)
      requires Valid()
      modifies this`rxLineBufLen, this`rxFrameMode, this`rxFrameTargetLen, rxLineBuf, this`dispatched,
               this`seqFailCount, this`rxAckCount, this`noAckCount, this`ackReceivedThisCycle, this`lastAckTimestampMs,
               this`rxErrorCount, this`forwarded, this`pendingUplinkFeedback, this`rxCmdCount, this`portOpen
      ensures Valid() && Receiver() == ReadAll(old(Receiver()), classify, polls)
    {
      hide TakeByte;
      ghost var begun := Receiver();
      var i := 0;
      while i < |polls| && portOpen
        invariant 0 <= i <= |polls| && Valid()
        invariant ReadAll(begun, classify, polls) == ReadAll(Receiver(), classify, polls[i..])
        decreases |polls| - i
      {
        assert polls[i..][0] == polls[i] && polls[i..][1..] == polls[i + 1..];
        match polls[i] {
          case Byte(c, now) => ReceiveByte(c, now);
          case NoData =>
          case Interrupted =>
          case WouldBlock => break;
          case ReadError =>
            portOpen := false;
            assert ReadAll(Receiver(), classify, polls[i + 1..]) == Receiver();
        }
        i := i + 1;
      }
      assert ReadAll(Receiver(), classify, polls[i..]) == Receiver();
    }

    // ---- Link state ----

    method UpdateLinkState(now: u32)
      modifies this`linkState, this`linkStateInitialized
      ensures linkState == LinkState.StateFor(LinkCounters(), now) && linkStateInitialized
    {
      var elapsed: u32 := 0;
      if lastAckTimestampMs != 0 && now >= lastAckTimestampMs {
        elapsed := now - lastAckTimestampMs;
      }
      if elapsed as int > TIMEOUT_MS {
        linkState := LINK_DISCONNECTED;
      } else if noAckCount as int >= LOSS_THRESHOLD {
        linkState := LINK_DEGRADED;
      } else {
        linkState := LINK_CONNECTED;
      }
      linkStateInitialized := true;
    }

    method ResetCounters()
      modifies this`cmdCounter, this`errCounter, this`txCount, this`rxAckCount, this`rxCmdCount, this`rxErrorCount,
               this`noAckCount
      ensures LinkCounters() == LinkState.ResetLink(old(LinkCounters())) && cmdCounter == 0 && errCounter == 0
              && txCount == 0
    {
      cmdCounter, errCounter, txCount, rxAckCount, rxCmdCount, rxErrorCount, noAckCount := 0, 0, 0, 0, 0, 0, 0;
    }

    // ---- Configuration ----

    method RefuseConfig(source: u16)
      modifies this`errCounter, this`replies
      ensures errCounter == Inc8(old(errCounter)) && replies == old(replies) + [ConfigReply(source, false)]
    {
      errCounter := Inc8(errCounter);
      replies := replies + [ConfigReply(source, false)];
    }

    /** A save goes through or leaves the file as it was. */
    method SaveState()
      modifies this`savedProtocol
      ensures savedProtocol == old(savedProtocol) || savedProtocol == Some(useV2Downlink)
    {
      var saved: bool := *;
      if saved {
        savedProtocol := Some(useV2Downlink);
      }
    }

    /** A short payload and one for another application are passed over in silence. */
    method ProcessConfigCommand(source: u16, p: seq<byte>)
      modifies this`useV2Downlink, this`cmdCounter, this`errCounter, this`replies, this`savedProtocol
      ensures var v := ConfigCommand.LoraVerdictOn(p);
              && useV2Downlink == (if v.SetProtocol? then v.v2 else old(useV2Downlink))
              && cmdCounter == (if v.SetProtocol? then Inc8(old(cmdCounter)) else old(cmdCounter))
              && errCounter == (if v.Fail? then Inc8(old(errCounter)) else old(errCounter))
              && replies == (if v.Ignore? then old(replies) else old(replies) + [ConfigReply(source, v.SetProtocol?)])
              && (savedProtocol == old(savedProtocol) || (v.SetProtocol? && savedProtocol == Some(useV2Downlink)))
    {
      hide ConfigCommand.Checksum, ReadU16, ReadU32;
      if |p| < ConfigCommand.HEADER || p[0] != ConfigCommand.LORA_SCOPE {
        return;
      }
      if p[1] != ConfigCommand.VERSION {
        RefuseConfig(source);
        return;
      }
      if p[5] != 4 || ConfigCommand.HEADER + p[5] as int > |p| {
        RefuseConfig(source);
        return;
      }
      var expected := ConfigCommand.ConfigChecksum(p, p[5]);
      if ReadU16(p, 6) != expected || ReadU16(p, 2) != 0 {
        RefuseConfig(source);
        return;
      }
      var value := ReadU32(p, 8);
      if value != 0 && value != 1 {
        RefuseConfig(source);
        return;
      }
      useV2Downlink := value != 0;
      cmdCounter := Inc8(cmdCounter);
      SaveState();
      replies := replies + [ConfigReply(source, true)];
    }
  }

  lemma SelectKeepsBuffer(rx: Rx)
    requires rx.buf != []
    ensures Select(rx).buf == rx.buf
  {
  }

  /** What follows a stored byte does not depend on the state of the receive machine beside its outcome. */
  lemma FinishIgnoresRx(s: Comm, rx: Rx, o: Outcome, classify: Classifier, now: u32)
    ensures Finish(s.(rx := rx), o, classify, now) == Finish(s, o, classify, now)
  {
    hide Handle;
  }

  lemma NothingFinished(s: Comm, rx: Rx, classify: Classifier, now: u32)
    ensures Finish(s, Outcome(rx, None), classify, now) == s.(rx := rx)
  {
  }

  lemma FrameBytesIs(a: Source)
    requires InBounds(a.route)
    ensures Dl2.Encodable(View(a, MAX_FRAME_LEN)) && FrameBytes(a) == Dl2.Encode(View(a, MAX_FRAME_LEN))
  {
    ViewIsFaithful(a, MAX_FRAME_LEN);
  }

  lemma ParsedIsShort(s: seq<byte>)
    ensures ParseUp2(s).Some? ==> |ParseUp2(s).value.payload| <= MAX_PAYLOAD
  {
    hide Crc;
  }

  // ---- System time never reaches the ground ----

  /** The telemetry cache after a run of bus messages. */
  function CachedAll(f: FcState, ms: seq<Telemetry>): FcState {
    if ms == [] then f
    else
      var before := CachedAll(f, ms[..|ms| - 1]);
      if Routed(ms[|ms| - 1]) then Cached(before, ms[|ms| - 1]) else before
  }

  lemma {:induction false} TimeStaysInvalid(ms: seq<Telemetry>)
    ensures CachedAll(NO_FC_STATE, ms).timeValid == 0
  {
    if ms != [] {
      TimeStaysInvalid(ms[..|ms| - 1]);
    }
  }

  /** The dispatcher does not pass system time messages on, so in no run does a frame carry the system
      time block: the ground reads none, whatever messages arrived. */
  lemma SysTimeNeverSent(ms: seq<Telemetry>, a: Source)
    requires a.fc == CachedAll(NO_FC_STATE, ms) && ValidRoute(a.route)
    ensures var s := FrameBytes(a);
            Dl2.Decode(s).sysTime == None && |s| == if a.route.pending then 80 else 50
  {
    hide Dl2.Decode, Dl2.Encode;
    TimeStaysInvalid(ms);
    GroundReadsAir(a);
  }

  // ---- The ground sees the latest telemetry ----

  datatype Channel = Attitudes | Positions | Fixes

  /** The message comes from the source. */
  predicate IsFrom(m: Telemetry, k: Channel) {
    match k
    case Attitudes => m.Attitude?
    case Positions => m.LocalState?
    case Fixes => m.GpsRaw?
  }

  /** The last message of the source; -1 if none has come. */
  function LastFrom(ms: seq<Telemetry>, k: Channel): (i: int)
    ensures -1 <= i < |ms| && (i >= 0 ==> IsFrom(ms[i], k))
    ensures forall j :: i < j < |ms| ==> !IsFrom(ms[j], k)
  {
    if ms == [] then -1
    else if IsFrom(ms[|ms| - 1], k) then |ms| - 1
    else LastFrom(ms[..|ms| - 1], k)
  }

  /** The last message that carries a time stamp of the flight controller; -1 if none has come. */
  function LastStamp(ms: seq<Telemetry>): (i: int)
    ensures -1 <= i < |ms|
    ensures i >= 0 ==> ms[i].Attitude? || ms[i].LocalState? || ms[i].GpsRaw? || ms[i].EkfStatus?
  {
    if ms == [] then -1
    else
      var m := ms[|ms| - 1];
      if m.Attitude? || m.LocalState? || m.GpsRaw? || m.EkfStatus? then |ms| - 1 else LastStamp(ms[..|ms| - 1])
  }

  lemma {:induction false} CacheIsLatest(ms: seq<Telemetry>)
    ensures var f, i, j, k := CachedAll(NO_FC_STATE, ms), LastFrom(ms, Attitudes), LastFrom(ms, Positions),
                              LastFrom(ms, Fixes);
            && (f.roll, f.pitch, f.yaw) == (if i < 0 then (0.0, 0.0, 0.0) else (ms[i].roll, ms[i].pitch, ms[i].yaw))
            && (f.posX, f.posY, f.posZ) == (if j < 0 then (0.0, 0.0, 0.0) else (ms[j].x, ms[j].y, ms[j].z))
            && (f.velX, f.velY, f.velZ) == (if j < 0 then (0.0, 0.0, 0.0) else (ms[j].vx, ms[j].vy, ms[j].vz))
            && (f.latE7, f.lonE7, f.altMm) == (if k < 0 then (0, 0, 0) else (ms[k].latE7, ms[k].lonE7, ms[k].altMm))
            && (f.gpsFix, f.sats) == (if k < 0 then (0, 0) else (ms[k].fix, ms[k].sats))
    ensures CachedAll(NO_FC_STATE, ms).tsMs == if LastStamp(ms) < 0 then 0 else ms[LastStamp(ms)].tsMs
  {
    if ms != [] {
      CacheIsLatest(ms[..|ms| - 1]);
    }
  }

  /** After any telemetry, what the ground reads is the last attitude, the last position and velocity and the last GPS
      fix that came, each scaled to 16 bits where the frame does so, and the last time stamp of all. */
  lemma GroundSeesLatest(ms: seq<Telemetry>, a: Source)
    requires a.fc == CachedAll(NO_FC_STATE, ms) && ValidRoute(a.route)
    ensures var g, i, j, k := Dl2.Decode(FrameBytes(a)), LastFrom(ms, Attitudes), LastFrom(ms, Positions),
                              LastFrom(ms, Fixes);
            && (i >= 0 ==> AllCut(g.attitude, ms[i].roll, ms[i].pitch, ms[i].yaw, 10000.0))
            && (j >= 0 ==> && AllCut(g.position, ms[j].x, ms[j].y, ms[j].z, 100.0)
                           && AllCut(g.velocity, ms[j].vx, ms[j].vy, ms[j].vz, 100.0))
            && (k >= 0 ==> (g.latE7, g.lonE7, g.altMm, g.fix, g.sats)
                           == (ms[k].latE7, ms[k].lonE7, ms[k].altMm, ms[k].fix, ms[k].sats))
            && g.tsMs == (if LastStamp(ms) < 0 then 0 else ms[LastStamp(ms)].tsMs)
  {
    hide Dl2.Decode, FrameBytes, CachedAll, AllCut;
    CacheIsLatest(ms);
    GroundReadsAir(a);
  }
}
