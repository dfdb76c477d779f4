/**
  The core application: its fields, and the operations that move them, each proved against the
  specification functions of `CoreState`.
 */
module CoreApp {
  import opened Bytes
  import opened ConfigCommand
  import opened CoreState
  import Health
  import Restarts
  import CoreFile
  import CoreLife

  /** What the cache update counts. */
  datatype Intake = Intake(futureRejected: u32, seqRejected: u32, seqGaps: u32, timebaseShifts: u32)

  function Noted(n: Intake, c: Cache, m: Generic, now: u32): Intake {
    if FromTheFuture(m, now) then n.(futureRejected := Inc32(n.futureRejected))
    else
      var shifted := if TimebaseShifted(c, m) then n.(timebaseShifts := Inc32(n.timebaseShifts)) else n;
      if OutOfOrder(c, m) then shifted.(seqRejected := Inc32(n.seqRejected))
      else if Gap(c, m) then shifted.(seqGaps := Inc32(n.seqGaps))
      else shifted
  }

  datatype Counts = Counts(bridge: u32, uplink: u32, lora: u32)

  function CountedRestart(n: Counts, restarted: Option<Restarts.App>): Counts {
    match restarted
    case Some(Bridge) => n.(bridge := Inc32(n.bridge))
    case Some(Uplink) => n.(uplink := Inc32(n.uplink))
    case Some(Lora) => n.(lora := Inc32(n.lora))
    case None => n
  }

  /** A restart raises exactly its own count. */
  lemma OneRestartIsCounted(n: Counts, restarted: Option<Restarts.App>)
    ensures var m := CountedRestart(n, restarted);
            && m.bridge == (n.bridge + if restarted == Some(Restarts.Bridge) then 1 else 0) % 0x1_0000_0000
            && m.uplink == (n.uplink + if restarted == Some(Restarts.Uplink) then 1 else 0) % 0x1_0000_0000
            && m.lora == (n.lora + if restarted == Some(Restarts.Lora) then 1 else 0) % 0x1_0000_0000
  {
  }

  /** What the intake counters count: messages more than 5 s ahead of the clock, messages with a number that is not
      higher than the cached one, numbers skipped, and time stamps more than 10 s behind the cached one.  A message is
      taken exactly when it is in neither of the first two classes. */
  lemma IntakeIsExactly(n: Intake, c: Cache, m: Generic, now: u32)
    ensures var future := m.tsMs as int > (now as int + 5000) % 0x1_0000_0000;
            var known := !future && c.received && m.seqNo <= c.seqNo;
            var after := Noted(n, c, m, now);
            && after.futureRejected == (if future then Inc32(n.futureRejected) else n.futureRejected)
            && after.seqRejected == (if known then Inc32(n.seqRejected) else n.seqRejected)
            && after.seqGaps == (if !future && !known && c.received && m.seqNo as int > c.seqNo as int + 1
                                 then Inc32(n.seqGaps) else n.seqGaps)
            && after.timebaseShifts
               == (if !future && c.received && (m.tsMs as int + 10000) % 0x1_0000_0000 < c.tsMs as int
                   then Inc32(n.timebaseShifts) else n.timebaseShifts)
            && (if future || known then Refreshed(c, m, now) == c
                else Refreshed(c, m, now) == Cache(true, m.tsMs, now, m.seqNo, m.valid, m.stale, m.errorCode))
  {
  }

  /** The application's answer to a command: its class, 1 CONFIG or 4 RECOVERY, and whether it was done. */
  datatype Reply = Reply(source: u16, commandClass: byte, ok: bool)

  class CoreApplication {
    var config: Buffers

    var attitudeState: Cache
    var localState: Cache
    var gpsState: Cache
    var ekfState: Cache
    var bridgeState: Beat
    var uplinkAppState: Beat
    var loraAppState: Beat
    var intake: Intake

    var health: Health.Memory
    var timers: Restarts.Timers
    var restartCounts: Counts
    var lastFaultCode: byte
    var lastPublishMs: u32

    var cmdCounter: byte
    var errCounter: byte
    var stateFile: Option<seq<byte>>

    /** What left the application. */
    ghost var published: seq<Output>
    ghost var replies: seq<Reply>

    function State(): Monitor
      reads this`config, this`attitudeState, this`localState, this`gpsState, this`ekfState, this`bridgeState,
            this`uplinkAppState, this`loraAppState, this`health, this`timers, this`lastPublishMs
    {
      Monitor(config.active, attitudeState, localState, gpsState, ekfState, bridgeState, uplinkAppState, loraAppState,
              health, timers, lastPublishMs)
    }

    function Saved(): CoreFile.Record
      reads this`health, this`config, this`restartCounts, this`lastFaultCode
    {
      CoreFile.Record(health.last, config.active, restartCounts.bridge, restartCounts.uplink, restartCounts.lora,
          lastFaultCode)
    }

    /** The file is one that this application wrote under its current parameters. */
    ghost predicate SelfWritten()
      reads this`stateFile, this`config
    {
      exists r :: stateFile == Some(CoreFile.Print(r)) && r.params == config.active
    }

    /** Restores the state file, if it is a good one, over the defaults. */
    constructor (file: Option<seq<byte>>)
      ensures var r := if file == None then None else CoreFile.Load(file.value);
              && State() == CoreLife.FromFile(file)
              && restartCounts == (if r == None then Counts(0, 0, 0)
                                   else Counts(r.value.bridgeRestarts, r.value.uplinkRestarts, r.value.loraRestarts))
              && lastFaultCode == (if r == None then 0 else r.value.lastFault)
      ensures stateFile == file && published == [] && replies == []
    {
      hide CoreFile.Load;
      config := INITIAL;
      attitudeState, localState, gpsState, ekfState := EMPTY, EMPTY, EMPTY, EMPTY;
      bridgeState, uplinkAppState, loraAppState, intake := SILENT, SILENT, SILENT, Intake(0, 0, 0, 0);
      health, timers, restartCounts := Health.Memory(Health.NOMINAL, 0, 0), Restarts.NO_TIMERS, Counts(0, 0, 0);
      lastFaultCode, lastPublishMs, cmdCounter, errCounter := 0, 0, 0, 0;
      stateFile, published, replies := file, [], [];
      new;
      LoadState();
    }

    method LoadState()
      modifies this`config, this`health, this`restartCounts, this`lastFaultCode
      ensures var r := if stateFile == None then None else CoreFile.Load(stateFile.value);
              if r == None then
                config == old(config) && health == old(health) && restartCounts == old(restartCounts)
                && lastFaultCode == old(lastFaultCode)
              else
                Saved() == r.value && health == old(health).(last := r.value.health)
                    && config == old(config).(active := r.value.params)
    {
      hide CoreFile.Load;
      if stateFile == None {
        return;
      }
      var state := CoreFile.Load(stateFile.value);
      if state == None {
        return;
      }
      var r := state.value;
      health := health.(last := r.health);
      config := config.(active := r.params);
      restartCounts := Counts(r.bridgeRestarts, r.uplinkRestarts, r.loraRestarts);
      lastFaultCode := r.lastFault;
    }

    /** A save goes through or leaves the file as it was. */
    method SaveState()
      modifies this`stateFile
      ensures stateFile == old(stateFile) || stateFile == Some(CoreFile.Print(Saved()))
    {
      hide CoreFile.Print;
      var saved: bool := *;
      if saved {
        stateFile := Some(CoreFile.Print(Saved()));
      }
    }

    // ---- Telemetry ----

    method UpdateStateCache(c: Cache, m: Generic, now: u32) returns (d: Cache)
      modifies this`intake
      ensures d == Refreshed(c, m, now) && intake == Noted(old(intake), c, m, now)
    {
      if m.tsMs > Add32(now, MAX_FUTURE_MS) {
        intake := intake.(futureRejected := Inc32(intake.futureRejected));
        return c;
      }
      if c.received && Add32(m.tsMs, TIMEBASE_SHIFT_MS) < c.tsMs {
        intake := intake.(timebaseShifts := Inc32(intake.timebaseShifts));
      }
      if c.received {
        if m.seqNo == c.seqNo {
          intake := intake.(seqRejected := Inc32(intake.seqRejected));
          return c;
        }
        if m.seqNo < c.seqNo {
          intake := intake.(seqRejected := Inc32(intake.seqRejected));
          return c;
        }
        if m.seqNo > Add32(c.seqNo, 1) {
          intake := intake.(seqGaps := Inc32(intake.seqGaps));
        }
      }
      d := c.(tsMs := m.tsMs, arrivalMs := now, seqNo := m.seqNo, valid := m.valid, stale := m.stale,
          errorCode := m.errorCode);
      d := d.(received := true);
    }

    method ReceiveMessage(msg: Message, now: u32)
      modifies this`attitudeState, this`localState, this`gpsState, this`ekfState, this`bridgeState, this`uplinkAppState,
               this`loraAppState, this`intake
      ensures State() == Received(old(State()), msg, now)
    {
      match msg {
        case BridgeAlive(at) =>
          bridgeState := Beat(true, at);
        case UplinkAlive =>
          uplinkAppState := Beat(true, now);
        case LoraAlive =>
          loraAppState := Beat(true, now);
        case Attitude(g) =>
          attitudeState := UpdateStateCache(attitudeState, g, now);
          if !g.finite {
            attitudeState := attitudeState.(valid := false);
          }
        case Local(g) =>
          localState := UpdateStateCache(localState, g, now);
          if !g.finite {
            localState := localState.(valid := false);
          }
        case Gps(g) =>
          gpsState := UpdateStateCache(gpsState, g, now);
        case Ekf(g) =>
          ekfState := UpdateStateCache(ekfState, g, now);
        case Other =>
      }
    }

    /** A message from the bus, and the evaluation it forces. */
    method ProcessStateMessage(msg: Message, now: u32, found: Restarts.Flags)
      modifies this
      ensures var r := Step(old(State()), Arrived(msg, now, found));
              State() == r.monitor && published == old(published) + [r.output.value]
      ensures stateFile == old(stateFile) || SelfWritten()
      ensures config == old(config) && replies == old(replies)
    {
      hide Refreshed, RefreshedFinite, Health.Remember, Health.ReportOf, Restarts.Check, InputsOf;
      ReceiveMessage(msg, now);
      var done := UpdateHealth(now, true, found);
    }

    /** The periodic service when no message has come. */
    method ServicePrototype(now: u32, found: Restarts.Flags)
      modifies this
      ensures var r := Step(old(State()), Tick(now, found));
              State() == r.monitor && published == old(published) + (if r.output == None then [] else [r.output.value])
      ensures stateFile == old(stateFile) || SelfWritten()
      ensures config == old(config) && replies == old(replies)
    {
      hide Health.Remember, Health.ReportOf, Restarts.Check, InputsOf;
      var done := UpdateHealth(now, false, found);
    }

    // ---- Evaluation ----

    /** Restarts at most one application, in the order bridge, uplink, radio. */
    method CheckAppRestarts(now: u32, timedOut: Restarts.Flags, found: Restarts.Flags)
        returns (restarted: Option<Restarts.App>)
      modifies this`timers, this`restartCounts, this`stateFile
      ensures Restarts.Checked(timers, restarted) == Restarts.Check(old(timers), Restarts.Eval(now, timedOut, found))
      ensures restartCounts == CountedRestart(old(restartCounts), restarted)
      ensures stateFile == old(stateFile) || SelfWritten()
    {
      hide CoreFile.Print, Restarts.Due, Restarts.AfterTurn;
      restarted := None;
      var next, due := TakeTurn(timers.bridge, now, timedOut.bridge, found.bridge);
      timers := timers.(bridge := next);
      if due {
        restartCounts := restartCounts.(bridge := Inc32(restartCounts.bridge));
        SaveState();
        return Some(Restarts.Bridge);
      }
      next, due := TakeTurn(timers.uplink, now, timedOut.uplink, found.uplink);
      timers := timers.(uplink := next);
      if due {
        restartCounts := restartCounts.(uplink := Inc32(restartCounts.uplink));
        SaveState();
        return Some(Restarts.Uplink);
      }
      next, due := TakeTurn(timers.lora, now, timedOut.lora, found.lora);
      timers := timers.(lora := next);
      if due {
        restartCounts := restartCounts.(lora := Inc32(restartCounts.lora));
        SaveState();
        return Some(Restarts.Lora);
      }
    }

    /** The turn of one application: its timer starts, stops, or runs out. */
    method TakeTurn(timer: u32, now: u32, timedOut: bool, found: bool) returns (next: u32, due: bool)
      ensures next == Restarts.AfterTurn(timer, timedOut, found, now)
              && due == Restarts.Due(timer, timedOut, found, now)
    {
      next, due := timer, false;
      if timedOut {
        if next == 0 {
          next := Add32(now, Restarts.INTERVAL_MS);
        }
        if now >= next {
          if found {
            next, due := Add32(now, Restarts.INTERVAL_MS), true;
          }
        }
      } else {
        next := 0;
      }
    }

    /** The report chain, and the two timers it runs; the last state is recorded by the caller. */
    method Assess(i: Health.Inputs, now: u32) returns (report: Health.Report)
      modifies this`health
      ensures report == Health.ReportOf(old(health), i, now)
      ensures health == Health.Remember(old(health), i, now).(last := old(health).last)
    {
      if i.bridge {
        if health.recoveryStart == 0 {
          health := health.(recoveryStart := now);
        }
        health := health.(nominalSince := 0);
        report := Health.Report(
          if Sub32(now, health.recoveryStart) >= Health.ESCALATION_MS then Health.FAILED else Health.RECOVERY, 1, true);
      } else if i.ekf {
        health := health.(recoveryStart := 0, nominalSince := 0);
        report := Health.Report(Health.DEGRADED, 3, false);
      } else if i.local {
        health := health.(recoveryStart := 0, nominalSince := 0);
        report := Health.Report(Health.DEGRADED, 4, false);
      } else if i.attitude {
        health := health.(recoveryStart := 0, nominalSince := 0);
        report := Health.Report(Health.DEGRADED, 5, false);
      } else if i.uplink {
        health := health.(recoveryStart := 0, nominalSince := 0);
        report := Health.Report(Health.DEGRADED, 6, false);
      } else if i.lora {
        health := health.(recoveryStart := 0, nominalSince := 0);
        report := Health.Report(Health.DEGRADED, 7, false);
      } else if health.last == Health.NOMINAL {
        health := health.(recoveryStart := 0, nominalSince := 0);
        report := Health.Report(Health.NOMINAL, 0, false);
      } else {
        health := health.(recoveryStart := 0);
        if health.nominalSince == 0 {
          health := health.(nominalSince := now);
        }
        if Sub32(now, health.nominalSince) >= Health.STABILITY_MS {
          health := health.(nominalSince := 0);
          report := Health.Report(Health.NOMINAL, 0, false);
        } else {
          report := Health.Report(Health.DEGRADED, 0, false);
        }
      }
    }

    method StateExpired(c: Cache, now: u32, timeout: u32) returns (expired: bool)
      ensures expired == (!c.received || Sub32(now, c.arrivalMs) > timeout)
    {
      if !c.received {
        return true;
      }
      return Sub32(now, c.arrivalMs) > timeout;
    }

    method TimedOutOrBad(c: Cache, now: u32, timeout: u32) returns (bad: bool)
      ensures bad == Unusable(c, now, timeout)
    {
      bad := StateExpired(c, now, timeout);
      bad := bad || !c.valid || c.stale != 0;
    }

    method TimedOutBeat(b: Beat, now: u32, timeout: u32) returns (late: bool)
      ensures late == Late(b, now, timeout)
    {
      late := !b.received || Sub32(now, b.at) > timeout;
    }

    /** The six timeout tests of an evaluation. */
    method ReadInputs(now: u32) returns (i: Health.Inputs)
      ensures i == InputsOf(State(), now)
    {
      hide Unusable, Late;
      var bridge := TimedOutBeat(bridgeState, now, config.active.bridge);
      var ekf := TimedOutOrBad(ekfState, now, config.active.ekf);
      var local := TimedOutOrBad(localState, now, config.active.local);
      var attitude := TimedOutOrBad(attitudeState, now, config.active.attitude);
      var uplink := TimedOutBeat(uplinkAppState, now, APP_TIMEOUT_MS);
      var lora := TimedOutBeat(loraAppState, now, APP_TIMEOUT_MS);
      i := Health.Inputs(bridge, ekf, local, attitude, uplink, lora);
    }

    /** A change of the health state is recorded and saved, with the fault code of the moment. */
    method RecordTransition(report: Health.Report)
      modifies this`health, this`lastFaultCode, this`stateFile
      ensures health == old(health).(last := report.health)
      ensures lastFaultCode == if report.health == old(health).last then old(lastFaultCode) else report.fault
      ensures stateFile == old(stateFile)
              || (report.health != old(health).last && stateFile == Some(CoreFile.Print(Saved())))
    {
      hide CoreFile.Print;
      if report.health != health.last {
        health := health.(last := report.health);
        lastFaultCode := report.fault;
        SaveState();
      }
    }

    method UpdateHealth(now: u32, force: bool, found: Restarts.Flags) returns (done: bool)
      modifies this`timers, this`restartCounts, this`stateFile, this`health, this`lastPublishMs, this`lastFaultCode,
               this`published
      ensures done <==> force || Due(old(State()), now)
      ensures done ==> State() == Evaluate(old(State()), now, found).monitor
      ensures done ==> published == old(published) + [Evaluate(old(State()), now, found).output.value]
      ensures !done ==> State() == old(State()) && published == old(published)
      ensures stateFile == old(stateFile) || SelfWritten()
    {
      hide Health.ReportOf, Health.Remember, Restarts.Check, InputsOf, CoreFile.Print;
      if !force && Sub32(now, lastPublishMs) < config.active.publish {
        return false;
      }
      var i := ReadInputs(now);
      var restarted := CheckAppRestarts(now, TimedOut(i), found);
      lastPublishMs := now;
      var report := Assess(i, now);
      RememberedIsReported(old(health), i, now);
      RecordTransition(report);
      published := published + [Output(report, restarted)];
      done := true;
    }

    // ---- Commands ----

    method PublishExecResult(source: u16, commandClass: byte, ok: bool)
      modifies this`replies
      ensures replies == old(replies) + [Reply(source, commandClass, ok)]
    {
      replies := replies + [Reply(source, commandClass, ok)];
    }

    method RefuseConfig(source: u16, result: CoreResult, answer: bool)
      modifies this`config, this`errCounter, this`replies
      ensures config == old(config).(progress := Refused, result := result) && errCounter == Inc8(old(errCounter))
      ensures replies == if answer then old(replies) + [Reply(source, 1, false)] else old(replies)
    {
      errCounter := Inc8(errCounter);
      config := config.(progress := Refused, result := result);
      if answer {
        PublishExecResult(source, 1, false);
      }
    }

    method ProcessConfigCommand(source: u16, p: seq<byte>)
      modifies this`config, this`cmdCounter, this`errCounter, this`stateFile, this`replies
      ensures config == Handled(old(config), p)
      ensures replies == if CoreAnswers(p) then old(replies) + [Reply(source, 1, Activates(old(config).active, p))]
                         else old(replies)
      ensures cmdCounter == if Activates(old(config).active, p) then Inc8(old(cmdCounter)) else old(cmdCounter)
      ensures errCounter == if Activates(old(config).active, p) then old(errCounter) else Inc8(old(errCounter))
      ensures stateFile == old(stateFile)
              || (Activates(old(config).active, p) && stateFile == Some(CoreFile.Print(Saved())))
    {
      hide Checksum, ReadU16, ReadU32, CoreFile.Print;
      if |p| < HEADER {
        RefuseConfig(source, BadLength, true);
        return;
      }
      if p[0] != CORE_SCOPE {
        RefuseConfig(source, BadScope, false);
        return;
      }
      if p[1] != VERSION {
        RefuseConfig(source, BadVersion, true);
        return;
      }
      if p[5] != 4 || HEADER + p[5] as int > |p| {
        RefuseConfig(source, BadLength, true);
        return;
      }
      var expected := ConfigChecksum(p, p[5]);
      if ReadU16(p, 6) != expected {
        RefuseConfig(source, BadChecksum, true);
        return;
      }
      var value := ReadU32(p, 8);
      if value < MIN_MS || value > MAX_MS {
        RefuseConfig(source, BadValue, true);
        return;
      }
      config := config.(pending := config.active, progress := Pending);
      if ReadU16(p, 2) > 5 {
        RefuseConfig(source, BadParam, true);
        return;
      }
      ActivateParam(source, ReadU16(p, 2), value);
    }

    /** Writes a parameter into the pending set, checks the set as a whole and swaps it in. */
    method ActivateParam(source: u16, param: nat, value: u32)
      requires param <= 5 && config.pending == config.active
      modifies this`config, this`cmdCounter, this`errCounter, this`stateFile, this`replies
      ensures var q := WithParam(old(config).active, param, value); var done := AllAtLeastMin(q);
              && config == (if done then Buffers(q, q, old(config).active, Inc32(old(config).generation), Idle, OK)
                            else old(config).(pending := q, progress := Refused, result := BadValue))
              && replies == old(replies) + [Reply(source, 1, done)]
              && cmdCounter == (if done then Inc8(old(cmdCounter)) else old(cmdCounter))
              && errCounter == (if done then old(errCounter) else Inc8(old(errCounter)))
              && (stateFile == old(stateFile) || (done && stateFile == Some(CoreFile.Print(Saved()))))
    {
      hide CoreFile.Print;
      match param {
        case 0 => config := config.(pending := config.pending.(attitude := value));
        case 1 => config := config.(pending := config.pending.(local := value));
        case 2 => config := config.(pending := config.pending.(gps := value));
        case 3 => config := config.(pending := config.pending.(ekf := value));
        case 4 => config := config.(pending := config.pending.(bridge := value));
        case 5 => config := config.(pending := config.pending.(publish := value));
      }
      if !AllAtLeastMin(config.pending) {
        RefuseConfig(source, BadValue, true);
        return;
      }
      config := Buffers(config.pending, config.pending, config.active, Inc32(config.generation), Idle, OK);
      cmdCounter := Inc8(cmdCounter);
      SaveState();
      PublishExecResult(source, 1, true);
    }

    /** The ground's reset of the restart counters and of all timers but the stability timer. */
    method ProcessResetCounter(source: u16)
      modifies this`cmdCounter, this`health, this`restartCounts, this`timers, this`stateFile, this`replies
      ensures State() == Step(old(State()), CountersReset).monitor
      ensures restartCounts == Counts(0, 0, 0) && cmdCounter == Inc8(old(cmdCounter))
      ensures stateFile == old(stateFile) || stateFile == Some(CoreFile.Print(Saved()))
      ensures replies == old(replies) + [Reply(source, 4, true)]
    {
      hide CoreFile.Print;
      cmdCounter := Inc8(cmdCounter);
      ClearTimers();
      restartCounts := Counts(0, 0, 0);
      SaveState();
      PublishExecResult(source, 4, true);
    }

    method ClearTimers()
      modifies this`health, this`timers
      ensures State() == Step(old(State()), CountersReset).monitor
    {
      health := health.(recoveryStart := 0);
      timers := Restarts.NO_TIMERS;
    }
  }

  lemma RememberedIsReported(m: Health.Memory, i: Health.Inputs, now: u32)
    ensures Health.Remember(m, i, now).last == Health.ReportOf(m, i, now).health
  {
  }
}
