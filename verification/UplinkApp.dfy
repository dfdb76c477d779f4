/**
  The command application: its fields, and the operations that move them, each proved against the
  specification functions of `UplinkState`.
 */
module UplinkApp {
  import opened Bytes
  import opened Uplink2
  import opened UplinkRules
  import opened UplinkState
  import ConfigCommand
  import RoutePayload
  import UplinkFile
  import Crc16

  class UplinkApplication {
    var window: Window
    var counts: Counts
    var status: Status
    var health: HealthView
    var boot: BootInfo

    var stateFile: Option<seq<byte>>

    /** The messages handed to the bus. */
    ghost var sent: seq<Message>

    function Memory(): Mem
      reads this
    {
      Mem(window, counts, status, health, boot)
    }

    /** The state file is untouched, or holds the current state. */
    ghost predicate SavedOrKept(before: Option<seq<byte>>)
      reads this
    {
      stateFile == before || stateFile == Some(Image(Memory()))
    }

    /** Boots from the file that is there; each of the two saves may fail. */
    constructor (file: Option<seq<byte>>, now: u32, reason: byte)
      ensures Memory() == Booted(file, now, reason) && sent == []
      ensures stateFile == file || exists m :: stateFile == Some(Image(m))
    {
      window, counts, status := Window(0, 0), Counts(0, 0, 0, 0, 0), Status(0, 0, 0, 0, false, 0, 0);
      health, boot := HealthView(false, 0), BootInfo(0, 0, 0, 1, 0, false, 0);
      stateFile, sent := file, [];
      new;
      LoadState();
      IncrementBootCount();
      ProcessBootMarker(now, reason);
    }

    method LoadState()
      modifies this`window, this`boot
      ensures Memory() == Loaded(old(Memory()), stateFile)
    {
      hide UplinkFile.Load;
      if stateFile == None {
        return;
      }
      var state := UplinkFile.Load(stateFile.value);
      if state == None {
        return;
      }
      window := Window(1, state.value.lastSeq);
      boot := boot.(count := state.value.bootCount % 0x100, prevSurvived := state.value.survived,
          streak := state.value.streak);
    }

    /** A save goes through or leaves the file as it was. */
    method SaveState()
      modifies this`stateFile
      ensures SavedOrKept(old(stateFile))
    {
      hide UplinkFile.Print;
      var saved: bool := *;
      if saved {
        stateFile := Some(UplinkFile.Print(UplinkFile.Record(window.last, boot.count, boot.reason, boot.survived,
            boot.streak, 0)));
      }
    }

    method IncrementBootCount()
      modifies this`boot, this`stateFile
      ensures boot == old(boot).(count := Inc8(old(boot).count))
      ensures SavedOrKept(old(stateFile))
    {
      boot := boot.(count := Inc8(boot.count));
      SaveState();
    }

    method ProcessBootMarker(now: u32, reason: byte)
      modifies this`boot, this`stateFile
      ensures boot == BootMarked(old(boot), now, reason)
      ensures SavedOrKept(old(stateFile))
    {
      boot := boot.(start := now, reason := reason);
      if boot.prevSurvived == 0 {
        if boot.streak as int < 255 {
          boot := boot.(streak := boot.streak as int + 1);
        }
      } else {
        boot := boot.(streak := 0);
      }
      boot := boot.(suspect := boot.streak >= LOOP_THRESHOLD);
      boot := boot.(survived := 0);
      SaveState();
    }

    method CheckBootSurvival(now: u32)
      modifies this`boot, this`stateFile
      ensures boot == if Survives(old(boot), now) then old(boot).(survived := 1) else old(boot)
      ensures if Survives(old(boot), now) then SavedOrKept(old(stateFile)) else stateFile == old(stateFile)
    {
      if boot.survived != 0 {
        return;
      }
      if Sub32(now, boot.start) >= SURVIVE_MS {
        boot := boot.(survived := 1);
        SaveState();
      }
    }

    method ResetCounters()
      modifies this`counts, this`status
      ensures Memory() == CountersReset(old(Memory()))
    {
      counts := counts.(cmd := 0);
      counts := counts.(err := 0);
      counts := counts.(rejected := 0);
      counts := counts.(duplicates := 0);
      counts := counts.(routingFailures := 0);
      status := status.(commandCode := 0);
      status := status.(result := RESULT_NONE);
      status := status.(target := 0);
    }

    method ProcessExecResult(source: u16, generic: byte)
      modifies this`status
      ensures Memory() == ExecResulted(old(Memory()), source, generic)
    {
      if source != Low16(window.last) {
        return;
      }
      status := status.(result := if generic == 0 then EXECUTED_OK else EXECUTED_FAILED);
    }

    method ProcessHealth(state: byte)
      modifies this`health
      ensures health == HealthView(true, state)
    {
      health := health.(state := state);
      health := health.(known := true);
    }

    // ---- Forwarding ----

    method Transmit(msg: Message, busOk: bool) returns (ok: bool)
      modifies this`sent
      ensures ok == busOk && sent == if busOk then old(sent) + [msg] else old(sent)
    {
      if busOk {
        sent := sent + [msg];
      }
      ok := busOk;
    }

    method ForwardConfigCommand(c: FwdCommand, busOk: bool) returns (ok: bool)
      requires ValidFwd(c) && c.commandClass == CONFIG
      modifies this`counts, this`status, this`sent
      ensures ok == (Prepare(c).Send? && busOk)
      ensures counts == if Prepare(c).Send? then old(counts) else old(counts).(err := Inc8(old(counts).err))
      ensures status == if !Prepare(c).Send? then old(status)
                        else if ok then old(status).(configPending := 0, configResult := 0)
                        else old(status).(configPending := CONFIG_REJECTED, configResult := 1)
      ensures sent == if ok then old(sent) + [Prepare(c).msg] else old(sent)
    {
      hide ConfigCommand.Checksum, ReadU16;
      var p := Args(c);
      if |p| < ConfigCommand.HEADER {
        counts := counts.(err := Inc8(counts.err));
        return false;
      }
      if p[5] != 4 || ConfigCommand.HEADER + p[5] as int > |p| {
        counts := counts.(err := Inc8(counts.err));
        return false;
      }
      var expected := ConfigCommand.ConfigChecksum(p, p[5]);
      if ReadU16(p, 6) != expected {
        counts := counts.(err := Inc8(counts.err));
        return false;
      }
      ok := Transmit(ConfigMsg(c.seqNo, p), busOk);
      status := status.(configPending := if ok then 0 else CONFIG_REJECTED, configResult := if ok then 0 else 1);
    }

    method ForwardCounterMgmtCommand(c: FwdCommand, busOk: bool) returns (ok: bool)
      requires ValidFwd(c) && c.commandClass == COUNTER_MGMT
      modifies this`counts, this`sent
      ensures ok == (Prepare(c) == ResetSelf || (Prepare(c).Send? && busOk))
      ensures counts == if Prepare(c) == ResetSelf then old(counts).(cmd := 0, err := 0) else old(counts)
      ensures sent == if ok && Prepare(c).Send? then old(sent) + [Prepare(c).msg] else old(sent)
    {
      var p := Args(c);
      if |p| < 6 {
        return false;
      }
      var scope, action := p[0], p[1];
      if action != 0 {
        return false;
      }
      if scope == SELF_SCOPE {
        counts := counts.(cmd := 0, err := 0);
        return true;
      }
      if scope != 1 && scope != 2 && scope != 4 {
        return false;
      }
      ok := Transmit(ResetMsg(scope), busOk);
    }

    /** The four classes whose forwarder only copies fields. */
    method ForwardSimpleCommand(c: FwdCommand, busOk: bool) returns (ok: bool)
      requires ValidFwd(c) && c.commandClass in {RECOVERY, MODE, DIAGNOSTIC}
      modifies this`sent
      ensures ok == (Prepare(c).Send? && busOk)
      ensures sent == if ok then old(sent) + [Prepare(c).msg] else old(sent)
    {
      var p := Args(c);
      if c.commandClass == RECOVERY {
        if |p| < 8 {
          return false;
        }
        ok := Transmit(RecoveryMsg(c.seqNo, p[0], p[1], ReadU16(p, 2), ReadU32(p, 4)), busOk);
      } else {
        if |p| < 6 {
          return false;
        }
        if c.commandClass == MODE {
          ok := Transmit(ModeMsg(c.seqNo, p[0], p[1], ReadU32(p, 2)), busOk);
        } else {
          ok := Transmit(DiagnosticMsg(c.seqNo, p[0], p[1], ReadU32(p, 2)), busOk);
        }
      }
    }

    method ViewpointIsValid(p: seq<byte>) returns (ok: bool)
      ensures ok == ValidViewpoint(p)
    {
      hide ReadU32;
      if |p| != 28 {
        return false;
      }
      if p[1] != 1 {
        return false;
      }
      if p[0] as int > 2 {
        return false;
      }
      if p[2] != 0 {
        return false;
      }
      var x, y, z, yaw, pitch := ReadU32(p, 4), ReadU32(p, 8), ReadU32(p, 12), ReadU32(p, 16), ReadU32(p, 20);
      if !Within(x, 0x4248_0000) || !Within(y, 0x4248_0000) || !RoutePayload.AltitudeValid(z) {
        return false;
      }
      if !Within(yaw, 0x4049_0FDB) || !Within(pitch, 0x3FC9_0FDB) {
        return false;
      }
      return ReadU32(p, 24) <= 30000;
    }

    /** The three classes with a parser of their own, and what it makes of the payload. */
    method ParsePayload(c: FwdCommand) returns (msg: Option<Message>)
      requires ValidFwd(c) && c.commandClass in {ROUTE_UPDATE, VIEWPOINT, FLIGHT_MODE}
      ensures msg == if Prepare(c).Send? then Some(Prepare(c).msg) else None
      ensures msg == None ==> Prepare(c) == Invalid
    {
      hide ValidViewpoint, ReadU32, RoutePayload.Parse;
      var p := Args(c);
      if c.commandClass == ROUTE_UPDATE {
        var u := RoutePayload.ParseRouteUpdatePayload(p);
        return if u.Some? then Some(RouteMsg(c.seqNo, u.value)) else None;
      }
      if c.commandClass == VIEWPOINT {
        var valid := ViewpointIsValid(p);
        if !valid {
          return None;
        }
        ViewpointLength(p);
        return Some(ViewpointMsg(c.seqNo, p[0], p[2], ReadU32(p, 4), ReadU32(p, 8), ReadU32(p, 12), ReadU32(p, 16),
                                 ReadU32(p, 20), ReadU32(p, 24)));
      }
      if |p| < 6 || p[0] > LAND || (p[0] != WAYPOINT && p[1] != 0) {
        return None;
      }
      msg := Some(FlightModeMsg(c.seqNo, p[0], p[1]));
    }

    // ---- The checks ----

    method CheckSequenceNumber(seqNo: u16) returns (check: SeqCheck)
      ensures check == CheckSequence(window.accepted, window.last, seqNo)
    {
      if window.accepted == 0 {
        return New;
      }
      var last := window.last % 0x1_0000;
      if seqNo == last {
        return Duplicate;
      }
      var diff := (seqNo - last) % 0x1_0000;
      return if diff < 0x8000 then New else Replay;
    }

    /** Copies the fields that the checksum covers into a buffer, clamped to its length, and sums them up. */
    method ComputeProxyCrc(c: FwdCommand) returns (crc: u16)
      requires ValidFwd(c)
      ensures crc == ProxyCrc(c)
    {
      hide Crc16.Crc;
      var buf := new byte[6 + MAX_PAYLOAD];
      buf[0], buf[1], buf[2], buf[3] := c.version, c.commandClass, c.payloadLength, c.flags;
      buf[4], buf[5] := c.seqNo % 0x100, c.seqNo / 0x100;
      var n := c.payloadLength as int;
      if n > MAX_PAYLOAD {
        n := MAX_PAYLOAD;
      }
      ghost var head := buf[..6];
      for i := 0 to n
        invariant buf[..6] == head && buf[6..6 + i] == c.payload[..i]
      {
        buf[6 + i] := c.payload[i];
        assert buf[6..6 + i + 1] == buf[6..6 + i] + [c.payload[i]];
      }
      assert buf[..6 + n] == buf[..6] + buf[6..6 + n];
      assert head == [c.version, c.commandClass, c.payloadLength, c.flags] + U16(c.seqNo);
      crc := Crc16.Compute(buf, 6 + n);
    }

    method ValidateProxyCommand(c: FwdCommand) returns (complaint: Option<byte>)
      requires ValidFwd(c)
      ensures complaint == Complaint(c)
    {
      hide ProxyCrc;
      if c.version != 1 {
        return Some(REJECT_VERSION);
      }
      if c.payloadLength as int > MAX_PAYLOAD {
        return Some(REJECT_LENGTH);
      }
      if c.commandClass < CONFIG || c.commandClass > FLIGHT_MODE {
        return Some(REJECT_CLASS);
      }
      if (c.commandClass == ROUTE_UPDATE || c.commandClass == VIEWPOINT) && c.payloadLength == 0 {
        return Some(REJECT_LENGTH);
      }
      var crc := ComputeProxyCrc(c);
      if crc != c.checksum {
        return Some(REJECT_CHECKSUM);
      }
      return None;
    }

    method ResolveRouteTarget(commandClass: byte) returns (target: byte)
      ensures target == Target(commandClass)
    {
      match commandClass {
        case 1 => target := 1;
        case 2 => target := 1;
        case 3 => target := 1;
        case 4 => target := 1;
        case 5 => target := 1;
        case 6 => target := 2;
        case 7 => target := 3;
        case 8 => target := 4;
        case _ => target := 0;
      }
    }

    method HealthBlocks(c: FwdCommand) returns (blocked: bool)
      requires ValidFwd(c)
      ensures blocked == Blocked(health.state, c)
    {
      var p := Args(c);
      blocked := false;
      if health.state == 3 {
        blocked := c.commandClass != RECOVERY && c.commandClass != DIAGNOSTIC;
      } else if health.state == 2 {
        blocked := c.commandClass != RECOVERY && c.commandClass != DIAGNOSTIC;
      } else if health.state == 1 {
        blocked := c.commandClass == VIEWPOINT || c.commandClass == CONFIG
                   || (c.commandClass == FLIGHT_MODE && |p| >= 1 && p[0] == WAYPOINT);
      }
      if blocked && c.commandClass == FLIGHT_MODE && |p| >= 1 && (p[0] == HOVER || p[0] == LAND) {
        blocked := false;
      }
      if blocked && c.flags as int % 2 == 1 {
        blocked := false;
      }
    }

    method RequestToken(c: FwdCommand) returns (token: u32)
      requires ValidFwd(c)
      ensures RequiredLevel(c.commandClass) == 3 ==> token == Token(c)
    {
      hide ReadU32;
      token := 0;
      var p := Args(c);
      if RequiredLevel(c.commandClass) == 3 && |p| >= 4 {
        if c.commandClass == RECOVERY && |p| >= 8 {
          token := ReadU32(p, 4);
        } else if c.commandClass == MODE && |p| >= 6 {
          token := ReadU32(p, 2);
        } else if c.commandClass == COUNTER_MGMT && |p| >= 6 {
          token := ReadU32(p, 2);
        } else if c.commandClass == FLIGHT_MODE && |p| >= 6 {
          token := ReadU32(p, 2);
        }
      }
    }

    method IsAuthorized(c: FwdCommand) returns (ok: bool)
      requires ValidFwd(c)
      ensures ok == Authorized(c)
    {
      hide Token;
      var token := RequestToken(c);
      var authLevel := c.flags as int / 64;
      var requiredLevel := RequiredLevel(c.commandClass);
      if authLevel < requiredLevel as int {
        return false;
      }
      if requiredLevel == 3 && token == 0 {
        return false;
      }
      return true;
    }

    // ---- The cascade ----

    method Reject(result: byte)
      modifies this`counts, this`status
      ensures counts == old(counts).(err := Inc8(old(counts).err), rejected := Inc32(old(counts).rejected))
      ensures status == old(status).(result := result, degraded := true)
    {
      counts := counts.(err := Inc8(counts.err), rejected := Inc32(counts.rejected));
      status := status.(result := result, degraded := true);
    }

    method FailRouting(result: byte, target: byte)
      modifies this`counts, this`status
      ensures counts == old(counts).(err := Inc8(old(counts).err),
              routingFailures := Inc32(old(counts).routingFailures))
      ensures status == old(status).(result := result, target := target, degraded := true)
    {
      counts := counts.(err := Inc8(counts.err), routingFailures := Inc32(counts.routingFailures));
      status := status.(result := result, target := target, degraded := true);
    }

    method Accept(c: FwdCommand, target: byte)
      modifies this`window, this`counts, this`status, this`stateFile
      ensures window == Window(Inc32(old(window).accepted), c.seqNo)
      ensures counts == old(counts).(cmd := Inc8(old(counts).cmd))
      ensures status == old(status).(result := RESULT_ROUTED, target := target, degraded := false)
      ensures SavedOrKept(old(stateFile))
    {
      counts := counts.(cmd := Inc8(counts.cmd));
      window := Window(Inc32(window.accepted), c.seqNo);
      SaveState();
      status := status.(result := RESULT_ROUTED, target := target, degraded := false);
    }

    method ProcessUplink(c: FwdCommand, busOk: bool)
      requires ValidFwd(c)
      modifies this
      ensures Memory() == Commanded(old(Memory()), c, busOk)
      ensures sent == old(sent) + Sends(old(ContextOf(Memory())), c, busOk)
      ensures if Decide(old(ContextOf(Memory())), c, busOk).Routed? then SavedOrKept(old(stateFile))
              else stateFile == old(stateFile)
    {
      hide Prepare, Complaint, Blocked, Authorized, CheckSequence, Target, Image;
      status := status.(commandCode := c.commandClass, rxSeq := c.seqNo);
      var check := CheckSequenceNumber(c.seqNo);
      if check == Duplicate {
        counts := counts.(duplicates := Inc32(counts.duplicates));
        status := status.(result := RESULT_DUPLICATE);
        return;
      }
      if check == Replay {
        Reject(REJECT_SEQUENCE);
        return;
      }
      var complaint := ValidateProxyCommand(c);
      if complaint.Some? {
        Reject(complaint.value);
        return;
      }
      var target := ResolveRouteTarget(c.commandClass);
      if target == 0 {
        FailRouting(ROUTE_MISS, 0);
        return;
      }
      if !health.known {
        Reject(REJECT_STATE);
        return;
      }
      var blocked := HealthBlocks(c);
      if blocked {
        Reject(REJECT_STATE);
        return;
      }
      var authorized := IsAuthorized(c);
      if !authorized {
        Reject(REJECT_STATE);
        return;
      }
      Execute(c, target, busOk);
    }

    /** The class-specific part of the cascade. */
    method Execute(c: FwdCommand, target: byte, busOk: bool)
      requires ValidFwd(c) && Complaint(c) == None && target == Target(c.commandClass)
      requires status.commandCode == c.commandClass && status.rxSeq == c.seqNo
      modifies this
      ensures var v := Outcome(c, busOk);
              && Memory() == Judged(old(Memory()), c, v)
              && sent == (if v.Routed? then old(sent) + [Prepare(c).msg] else old(sent))
              && (if v.Routed? then SavedOrKept(old(stateFile)) else stateFile == old(stateFile))
    {
      hide Complaint, Target, Prepare, Image;
      PreparedByClass(c);
      if c.commandClass == CONFIG {
        var ok := ForwardConfigCommand(c, busOk);
        if !ok {
          FailRouting(RESULT_FAILED, target);
          return;
        }
      } else if c.commandClass == COUNTER_MGMT {
        var ok := ForwardCounterMgmtCommand(c, busOk);
        if !ok {
          Reject(REJECT_COUNTER);
          return;
        }
        if Args(c)[0] == SELF_SCOPE {
          counts := counts.(rejected := 0, duplicates := 0, routingFailures := 0);
          status := status.(result := RESULT_ROUTED);
          return;
        }
      } else if c.commandClass in {ROUTE_UPDATE, VIEWPOINT, FLIGHT_MODE} {
        var msg := ParsePayload(c);
        if msg == None {
          Reject(InvalidResult(c.commandClass));
          return;
        }
        var ok := Transmit(msg.value, busOk);
        if !ok {
          FailRouting(RESULT_FAILED, target);
          return;
        }
      } else {
        var ok := ForwardSimpleCommand(c, busOk);
        if !ok {
          FailRouting(RESULT_FAILED, target);
          return;
        }
      }
      Accept(c, target);
    }
  }
}
