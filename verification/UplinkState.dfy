/**
  The command application's state and how every event moves it, across counter resets and reboots.
 */
module UplinkState {
  import opened Bytes
  import opened Uplink2
  import opened UplinkRules
  import UplinkFile
  import ConfigCommand
  import RoutePayload

  /** The replay window: how many commands were accepted in this boot, and the last number. */
  datatype Window = Window(accepted: u32, last: u32)

  datatype Counts = Counts(cmd: byte, err: byte, rejected: u32, duplicates: u32, routingFailures: u32)

  datatype Status = Status(
    commandCode: u16, rxSeq: u16, result: byte, target: byte, degraded: bool, configPending: byte, configResult: byte)

  /** What the last report of the core application said, if there was one. */
  datatype HealthView = HealthView(known: bool, state: byte)

  datatype BootInfo = BootInfo(
    count: byte, reason: byte, survived: byte, prevSurvived: byte, streak: byte, suspect: bool, start: u32)

  datatype Mem = Mem(window: Window, counts: Counts, status: Status, health: HealthView, boot: BootInfo)

  function ContextOf(m: Mem): Context {
    Context(m.window.accepted, m.window.last, m.health.known, m.health.state)
  }

  const CONFIG_REJECTED: byte := 3

  // ---- Commands ----

  /** What a failed or rejected command adds to the error count. */
  function Errors(c: FwdCommand, v: Verdict): nat
    requires ValidFwd(c)
  {
    match v
    case Rejected(_) => 1
    case NotRouted(result, _) =>
      if c.commandClass == CONFIG && result == RESULT_FAILED && !Prepare(c).Send? then 2 else 1
    case _ => 0
  }

  function Added8(n: byte, k: nat): byte { (n as int + k) % 0x100 }

  function Counted(n: Counts, c: FwdCommand, v: Verdict): Counts
    requires ValidFwd(c)
  {
    var err := Added8(n.err, Errors(c, v));
    match v
    case IsDuplicate => n.(duplicates := Inc32(n.duplicates))
    case Rejected(_) => n.(err := err, rejected := Inc32(n.rejected))
    case NotRouted(_, _) => n.(err := err, routingFailures := Inc32(n.routingFailures))
    case Routed(_) => n.(cmd := Inc8(n.cmd))
    case SelfReset => Counts(0, 0, 0, 0, 0)
  }

  function Moved(w: Window, c: FwdCommand, v: Verdict): Window {
    if v.Routed? then Window(Inc32(w.accepted), c.seqNo) else w
  }

  /** The configuration status shows whether the bus took the last configuration command. */
  function Shown(s: Status, c: FwdCommand, v: Verdict): Status
    requires ValidFwd(c)
  {
    var t := s.(commandCode := c.commandClass, rxSeq := c.seqNo);
    match v
    case IsDuplicate => t.(result := RESULT_DUPLICATE)
    case Rejected(result) => t.(result := result, degraded := true)
    case NotRouted(result, missed) =>
      var failed := t.(result := result, target := missed, degraded := true);
      if c.commandClass == CONFIG && result == RESULT_FAILED && Prepare(c).Send?
      then failed.(configPending := CONFIG_REJECTED, configResult := 1)
      else failed
    case Routed(target) =>
      var done := t.(result := RESULT_ROUTED, target := target, degraded := false);
      if c.commandClass == CONFIG then done.(configPending := 0, configResult := 0) else done
    case SelfReset => t.(result := RESULT_ROUTED)
  }

  function Judged(m: Mem, c: FwdCommand, v: Verdict): Mem
    requires ValidFwd(c)
  {
    Mem(Moved(m.window, c, v), Counted(m.counts, c, v), Shown(m.status, c, v), m.health, m.boot)
  }

  function Commanded(m: Mem, c: FwdCommand, busOk: bool): Mem
    requires ValidFwd(c)
  {
    Judged(m, c, Decide(ContextOf(m), c, busOk))
  }

  // ---- Other events ----

  function ExecResulted(m: Mem, source: u16, generic: byte): Mem {
    if source != Low16(m.window.last) then m
    else m.(status := m.status.(result := if generic == 0 then EXECUTED_OK else EXECUTED_FAILED))
  }

  /** The reset leaves the replay window alone. */
  function CountersReset(m: Mem): Mem {
    m.(counts := Counts(0, 0, 0, 0, 0), status := m.status.(commandCode := 0, result := RESULT_NONE, target := 0))
  }

  const SURVIVE_MS: u32 := 120000
  const LOOP_THRESHOLD: byte := 5

  predicate Survives(b: BootInfo, now: u32) {
    b.survived == 0 && Sub32(now, b.start) >= SURVIVE_MS
  }

  // ---- The state file and the boot sequence ----

  function Record(m: Mem): UplinkFile.Record {
    UplinkFile.Record(m.window.last, m.boot.count, m.boot.reason, m.boot.survived, m.boot.streak, 0)
  }

  function Image(m: Mem): seq<byte> {
    UplinkFile.Print(Record(m))
  }

  const COLD: Mem :=
    Mem(Window(0, 0), Counts(0, 0, 0, 0, 0), Status(0, 0, 0, 0, false, 0, 0), HealthView(false, 0),
        BootInfo(0, 0, 0, 1, 0, false, 0))

  function Loaded(m: Mem, file: Option<seq<byte>>): Mem {
    if file == None || UplinkFile.Load(file.value) == None then m
    else
      var r := UplinkFile.Load(file.value).value;
      m.(window := Window(1, r.lastSeq),
         boot := m.boot.(count := r.bootCount % 0x100, prevSurvived := r.survived, streak := r.streak))
  }

  function Streak(b: BootInfo): byte {
    if b.prevSurvived != 0 then 0 else if b.streak as int < 255 then b.streak as int + 1 else b.streak
  }

  function BootMarked(b: BootInfo, now: u32, reason: byte): BootInfo {
    b.(start := now, reason := reason, streak := Streak(b), suspect := Streak(b) >= LOOP_THRESHOLD, survived := 0)
  }

  /** The state that the first of the two saves of a boot writes. */
  function BootCounted(file: Option<seq<byte>>): Mem {
    var m := Loaded(COLD, file);
    m.(boot := m.boot.(count := Inc8(m.boot.count)))
  }

  function Booted(file: Option<seq<byte>>, now: u32, reason: byte): Mem {
    var m := BootCounted(file);
    m.(boot := BootMarked(m.boot, now, reason))
  }

  // ---- Runs in which any save may fail ----

  datatype System = System(mem: Mem, file: Option<seq<byte>>)

  /** Whether the save of the boot count and that of the boot marker go through. */
  datatype BootSaves = BootSaves(counted: bool, marked: bool)

  /** `saved` says whether the save that the event leads to, if any, goes through. */
  datatype Event =
    | Uplink(c: FwdCommand, busOk: bool, saved: bool)
    | ExecResult(source: u16, generic: byte)
    | HealthReport(state: byte)
    | ResetCounters
    | Tick(now: u32, saved: bool)
    | Reboot(now: u32, reason: byte, saves: BootSaves)

  predicate ValidEvent(e: Event) { e.Uplink? ==> ValidFwd(e.c) }

  ghost predicate ValidEvents(events: seq<Event>) {
    forall e :: e in events ==> ValidEvent(e)
  }

  function SystemBooted(file: Option<seq<byte>>, now: u32, reason: byte, saves: BootSaves): System {
    var m := Booted(file, now, reason);
    System(m, if saves.marked then Some(Image(m)) else if saves.counted then Some(Image(BootCounted(file))) else file)
  }

  function Step(s: System, e: Event): System
    requires ValidEvent(e)
  {
    match e
    case Uplink(c, busOk, saved) =>
      var m := Commanded(s.mem, c, busOk);
      System(m, if Accepts(s, e) && saved then Some(Image(m)) else s.file)
    case ExecResult(source, generic) => s.(mem := ExecResulted(s.mem, source, generic))
    case HealthReport(state) => s.(mem := s.mem.(health := HealthView(true, state)))
    case ResetCounters => s.(mem := CountersReset(s.mem))
    case Tick(now, saved) =>
      if Survives(s.mem.boot, now) then
        var m := s.mem.(boot := s.mem.boot.(survived := 1));
        System(m, if saved then Some(Image(m)) else s.file)
      else s
    case Reboot(now, reason, saves) => SystemBooted(s.file, now, reason, saves)
  }

  /** The event is a command that is routed, and so moves the last accepted sequence number. */
  predicate Accepts(s: System, e: Event)
    requires ValidEvent(e)
  {
    e.Uplink? && Decide(ContextOf(s.mem), e.c, e.busOk).Routed?
  }

  /** The event saves, and the save goes through. */
  predicate Saves(s: System, e: Event)
    requires ValidEvent(e)
  {
    match e
    case Uplink(_, _, saved) => Accepts(s, e) && saved
    case Tick(now, saved) => Survives(s.mem.boot, now) && saved
    case Reboot(_, _, saves) => saves.counted || saves.marked
    case _ => false
  }

  function Run(s: System, events: seq<Event>): System
    requires ValidEvents(events)
  {
    if events == [] then s
    else
      assert events[|events| - 1] in events;
      Step(Run(s, events[..|events| - 1]), events[|events| - 1])
  }

  // ---- What a step keeps ----

  datatype Tally = Tally(accepted: u32, rejected: u32, duplicates: u32, routingFailures: u32)

  function TallyOf(m: Mem): Tally {
    Tally(m.window.accepted, m.counts.rejected, m.counts.duplicates, m.counts.routingFailures)
  }

  /** Every command raises exactly one of the four counts by one, except that a reset of the application's
      own counters clears three of them and leaves the replay window alone. */
  lemma OneCountMoves(m: Mem, c: FwdCommand, busOk: bool)
    requires ValidFwd(c)
    ensures var before, after := TallyOf(m), TallyOf(Commanded(m, c, busOk));
            match Decide(ContextOf(m), c, busOk)
            case IsDuplicate => after == before.(duplicates := Inc32(before.duplicates))
            case Rejected(_) => after == before.(rejected := Inc32(before.rejected))
            case NotRouted(_, _) => after == before.(routingFailures := Inc32(before.routingFailures))
            case Routed(_) => after == before.(accepted := Inc32(before.accepted))
            case SelfReset => after == Tally(before.accepted, 0, 0, 0)
    ensures Commanded(m, c, busOk).window.last
            == (if Decide(ContextOf(m), c, busOk).Routed? then c.seqNo else m.window.last)
  {
    hide Decide, Prepare;
  }

  // ---- Conservation ----

  function Sum(t: Tally): nat { t.accepted + t.rejected + t.duplicates + t.routingFailures }

  function Low32(n: nat): u32 { n % 0x1_0000_0000 }

  /** The event starts the counts again: a reset, a reboot, or a command that resets the own counters. */
  predicate StartsCountsAgain(s: System, e: Event)
    requires ValidEvent(e)
  {
    e.ResetCounters? || e.Reboot? || (e.Uplink? && Decide(ContextOf(s.mem), e.c, e.busOk).SelfReset?)
  }

  /** No event of the run starts the counts again. */
  ghost predicate CountsRunOn(s: System, events: seq<Event>)
    requires ValidEvents(events)
  {
    forall k :: 0 <= k < |events| ==> RunsOnAt(s, events, k)
  }

  ghost predicate RunsOnAt(s: System, events: seq<Event>, k: nat)
    requires ValidEvents(events) && k < |events|
  {
    assert events[k] in events;
    !StartsCountsAgain(Run(s, events[..k]), events[k])
  }

  function Commands(events: seq<Event>): nat {
    if events == [] then 0 else Commands(events[..|events| - 1]) + if events[|events| - 1].Uplink? then 1 else 0
  }

  lemma IncLow32(n: u32, k: nat)
    ensures Low32(Inc32(n) + k) == Low32(n + k + 1)
  {
  }

  lemma StepCounts(s: System, e: Event)
    requires ValidEvent(e) && !StartsCountsAgain(s, e)
    ensures Low32(Sum(TallyOf(Step(s, e).mem))) == Low32(Sum(TallyOf(s.mem)) + if e.Uplink? then 1 else 0)
  {
    hide Decide, Prepare, Image, Booted, Low32;
    if e.Uplink? {
      OneCountMoves(s.mem, e.c, e.busOk);
      var t := TallyOf(s.mem);
      IncLow32(t.accepted, t.rejected + t.duplicates + t.routingFailures);
      IncLow32(t.rejected, t.accepted + t.duplicates + t.routingFailures);
      IncLow32(t.duplicates, t.accepted + t.rejected + t.routingFailures);
      IncLow32(t.routingFailures, t.accepted + t.rejected + t.duplicates);
    }
  }

  /** Conservation: until the counts are started again, the accepted, rejected, repeated and unroutable
      commands together are all the commands that came, modulo the width of the counters. */
  lemma {:induction false} CommandsAreConserved(s: System, events: seq<Event>)
    requires ValidEvents(events) && CountsRunOn(s, events)
    ensures Low32(Sum(TallyOf(Run(s, events).mem))) == Low32(Sum(TallyOf(s.mem)) + Commands(events))
  {
    hide Step, StartsCountsAgain, Low32, Sum;
    if events != [] {
      var n := |events| - 1;
      var init := events[..n];
      forall k | 0 <= k < n ensures RunsOnAt(s, init, k) {
        assert init[..k] == events[..k] && RunsOnAt(s, events, k);
      }
      CommandsAreConserved(s, init);
      assert RunsOnAt(s, events, n);
      StepCounts(Run(s, init), events[n]);
      AddLow32(Sum(TallyOf(Run(s, init).mem)), Sum(TallyOf(s.mem)) + Commands(init), if events[n].Uplink? then 1
          else 0);
    }
  }

  lemma AddLow32(m: nat, n: nat, k: nat)
    requires Low32(m) == Low32(n)
    ensures Low32(m + k) == Low32(n + k)
  {
    var p, q := m / 0x1_0000_0000, n / 0x1_0000_0000;
    assert m == p * 0x1_0000_0000 + Low32(m) && n == q * 0x1_0000_0000 + Low32(n);
    SameRemainder(p, Low32(m) + k);
    SameRemainder(q, Low32(m) + k);
  }

  lemma SameRemainder(q: nat, r: nat)
    ensures Low32(q * 0x1_0000_0000 + r) == Low32(r)
  {
  }

  // ---- The command and error counters ----

  /** How many commands of a run were routed. */
  function Routings(s: System, events: seq<Event>): nat
    requires ValidEvents(events)
  {
    if events == [] then 0
    else
      var n := |events| - 1;
      assert events[n] in events;
      Routings(s, events[..n]) + if Accepts(Run(s, events[..n]), events[n]) then 1 else 0
  }

  /** How much a command adds to the error count: one when it is rejected or cannot be routed, and one more when it
      is a configuration command that cannot be forwarded. */
  function Faults(s: System, e: Event): nat
    requires ValidEvent(e)
  {
    if !e.Uplink? then 0
    else
      match Decide(ContextOf(s.mem), e.c, e.busOk)
      case Rejected(_) => 1
      case NotRouted(result, _) => if e.c.commandClass == 1 && !ConfigCommand.Forwardable(Args(e.c)) then 2 else 1
      case _ => 0
  }

  function AllFaults(s: System, events: seq<Event>): nat
    requires ValidEvents(events)
  {
    if events == [] then 0
    else
      var n := |events| - 1;
      assert events[n] in events;
      AllFaults(s, events[..n]) + Faults(Run(s, events[..n]), events[n])
  }

  lemma StepCountsErrors(s: System, e: Event)
    requires ValidEvent(e) && !StartsCountsAgain(s, e)
    ensures var n, k := Step(s, e).mem.counts, Faults(s, e);
            && n.cmd as int == (s.mem.counts.cmd as int + if Accepts(s, e) then 1 else 0) % 0x100
            && n.err as int == (s.mem.counts.err as int + k) % 0x100
  {
    hide Image, Booted, Complaint, Blocked, Authorized, RoutePayload.Parse, ConfigCommand.Forwardable, ValidViewpoint;
    if e.Uplink? {
      NotRoutedMeans(ContextOf(s.mem), e.c, e.busOk);
    }
  }

  lemma NotRoutedMeans(m: Context, c: FwdCommand, busOk: bool)
    requires ValidFwd(c)
    ensures var v := Decide(m, c, busOk);
            v.NotRouted? && c.commandClass == 1 ==>
              v.result == RESULT_FAILED && (Prepare(c).Send? <==> ConfigCommand.Forwardable(Args(c)))
  {
    hide Complaint, Blocked, Authorized, ConfigCommand.Forwardable;
    RouteMissIsUnreachable(m, c, busOk);
  }

  /** Until the counts are started again, the command count grows by the commands that were routed, and the error
      count by the faults of the others, modulo 256. */
  lemma {:induction false} CommandsAndErrorsAreCounted(s: System, events: seq<Event>)
    requires ValidEvents(events) && CountsRunOn(s, events)
    ensures var n := Run(s, events).mem.counts;
            && n.cmd as int == (s.mem.counts.cmd as int + Routings(s, events)) % 0x100
            && n.err as int == (s.mem.counts.err as int + AllFaults(s, events)) % 0x100
  {
    hide Step, StartsCountsAgain, Faults, Accepts;
    if events != [] {
      var n := |events| - 1;
      var init := events[..n];
      forall k | 0 <= k < n ensures RunsOnAt(s, init, k) {
        assert init[..k] == events[..k] && RunsOnAt(s, events, k);
      }
      CommandsAndErrorsAreCounted(s, init);
      assert RunsOnAt(s, events, n);
      StepCountsErrors(Run(s, init), events[n]);
      var k := if Accepts(Run(s, init), events[n]) then 1 else 0;
      AddLow8(s.mem.counts.cmd as int + Routings(s, init), k);
      AddLow8(s.mem.counts.err as int + AllFaults(s, init), Faults(Run(s, init), events[n]));
    }
  }

  lemma AddLow8(n: nat, k: nat)
    ensures (n % 0x100 + k) % 0x100 == (n + k) % 0x100
  {
  }

  // ---- What the status shows ----

  /** The event leaves the status alone. */
  predicate Silent(e: Event) { e.HealthReport? || e.Tick? }

  /** The result code of a verdict. */
  function ResultOf(v: Verdict): byte {
    match v
    case IsDuplicate => 14
    case Rejected(result) => result
    case NotRouted(result, _) => result
    case Routed(_) => 3
    case SelfReset => 3
  }

  lemma StatusStays(s: System, e: Event)
    requires ValidEvent(e) && Silent(e)
    ensures Step(s, e).mem.status == s.mem.status
  {
    hide Image;
  }

  lemma CommandIsShown(s: System, e: Event)
    requires ValidEvent(e) && e.Uplink?
    ensures var v, st := Decide(ContextOf(s.mem), e.c, e.busOk), Step(s, e).mem.status;
            && st.commandCode == e.c.commandClass && st.rxSeq == e.c.seqNo && st.result == ResultOf(v)
            && (v.Routed? ==> st.target == v.target && !st.degraded) && (v.NotRouted? ==> st.target == v.missed)
            && (v.Rejected? || v.NotRouted? ==> st.degraded)
            && (v.Routed? && e.c.commandClass == 1 ==> st.configPending == 0 && st.configResult == 0)
            && (v.NotRouted? && e.c.commandClass == 1 && ConfigCommand.Forwardable(Args(e.c)) ==>
                  st.configPending == 3 && st.configResult == 1)
            && (!(v.Routed? || v.NotRouted?) || e.c.commandClass != 1 ==>
                  st.configPending == s.mem.status.configPending && st.configResult == s.mem.status.configResult)
  {
    hide Image, Decide, ConfigCommand.Forwardable, RoutePayload.Parse, ValidViewpoint;
    NotRoutedMeans(ContextOf(s.mem), e.c, e.busOk);
  }

  /** In every run the status shows the last command: its class and number, its result, where it went, and whether the
      vehicle is degraded by it, until another command, an execution result, a reset or a reboot. */
  lemma {:induction false} LastCommandIsShown(s: System, events: seq<Event>, k: nat)
    requires ValidEvents(events) && k < |events| && events[k].Uplink? && ValidEvent(events[k])
    requires forall j :: k < j < |events| ==> Silent(events[j])
    ensures var e, st := events[k], Run(s, events).mem.status;
            var v := Decide(ContextOf(Run(s, events[..k]).mem), e.c, e.busOk);
            && st.commandCode == e.c.commandClass && st.rxSeq == e.c.seqNo && st.result == ResultOf(v)
            && (v.Routed? ==> st.target == v.target && !st.degraded) && (v.NotRouted? ==> st.target == v.missed)
            && (v.Rejected? || v.NotRouted? ==> st.degraded)
            && (v.Routed? && e.c.commandClass == 1 ==> st.configPending == 0 && st.configResult == 0)
            && (v.NotRouted? && e.c.commandClass == 1 && ConfigCommand.Forwardable(Args(e.c)) ==>
                  st.configPending == 3 && st.configResult == 1)
    decreases |events|
  {
    hide Step, Decide, ConfigCommand.Forwardable;
    var n := |events| - 1;
    assert events[n] in events;
    if k == n {
      CommandIsShown(Run(s, events[..n]), events[n]);
    } else {
      assert events[..n][..k] == events[..k];
      LastCommandIsShown(s, events[..n], k);
      StatusStays(Run(s, events[..n]), events[n]);
    }
  }

  /** The reset command clears the counters, and of the status the last command, its result and its target. */
  lemma ResetClears(s: System)
    ensures var m, r := s.mem, Step(s, ResetCounters).mem;
            && r.counts == Counts(0, 0, 0, 0, 0) && r.window == m.window && r.boot == m.boot && r.health == m.health
            && r.status.commandCode == 0 && r.status.result == 0 && r.status.target == 0
            && r.status.rxSeq == m.status.rxSeq && r.status.degraded == m.status.degraded
  {
  }

  // ---- Replays of a reset ----

  function Repeated(e: Event, n: nat): seq<Event> { seq(n, _ => e) }

  /** A command that resets the application's own counters moves no sequence number, so the very same frame is
      taken again and again, without limit. */
  lemma {:induction false} SelfResetCanBeReplayed(s: System, e: Event, n: nat)
    requires e.Uplink? && ValidEvent(e) && Decide(ContextOf(s.mem), e.c, e.busOk).SelfReset?
    ensures Decide(ContextOf(Run(s, Repeated(e, n)).mem), e.c, e.busOk).SelfReset?
    ensures Run(s, Repeated(e, n)).mem.window == s.mem.window
  {
    hide Decide;
    if n > 0 {
      SelfResetCanBeReplayed(s, e, n - 1);
      assert Repeated(e, n)[..n - 1] == Repeated(e, n - 1);
      SelfResetKeepsContext(Run(s, Repeated(e, n - 1)), e);
    }
  }

  lemma SelfResetKeepsContext(s: System, e: Event)
    requires e.Uplink? && ValidEvent(e) && Decide(ContextOf(s.mem), e.c, e.busOk).SelfReset?
    ensures ContextOf(Step(s, e).mem) == ContextOf(s.mem)
  {
    hide Decide, Prepare, Counted, Shown;
  }

  /** A command takes effect: it is routed, or resets the application's own counters. */
  predicate Effective(s: System, e: Event)
    requires ValidEvent(e) && e.Uplink?
  {
    var v := Decide(ContextOf(s.mem), e.c, e.busOk);
    v.Routed? || v.SelfReset?
  }

  /** Exactly which commands can be replayed at once: one that took effect takes effect again, however often it
      is repeated, if and only if it resets the own counters. */
  lemma {:induction false} ReplayedExactlyWhenSelfReset(s: System, e: Event, n: nat)
    requires e.Uplink? && ValidEvent(e) && Effective(s, e) && s.mem.window.accepted != 0xFFFF_FFFF && n > 0
    ensures Effective(Run(s, Repeated(e, n)), e) <==> Decide(ContextOf(s.mem), e.c, e.busOk).SelfReset?
  {
    hide Decide, Run;
    if Decide(ContextOf(s.mem), e.c, e.busOk).SelfReset? {
      SelfResetCanBeReplayed(s, e, n);
    } else {
      RoutedIsDuplicate(s, e, n);
      NumberIsTaken(Run(s, Repeated(e, n)), e);
    }
  }

  lemma {:induction false} RoutedIsDuplicate(s: System, e: Event, n: nat)
    requires e.Uplink? && ValidEvent(e) && s.mem.window.accepted != 0xFFFF_FFFF && n > 0
    requires Decide(ContextOf(s.mem), e.c, e.busOk).Routed?
    ensures var w := Run(s, Repeated(e, n)).mem.window; w.accepted != 0 && w.last == e.c.seqNo
  {
    hide Decide, Counted, Shown;
    assert Repeated(e, n)[..n - 1] == Repeated(e, n - 1);
    if n > 1 {
      RoutedIsDuplicate(s, e, n - 1);
      NumberIsTaken(Run(s, Repeated(e, n - 1)), e);
    } else {
      assert Run(s, Repeated(e, 0)) == s;
    }
  }

  /** The last accepted number is a duplicate, and nothing follows from it. */
  lemma NumberIsTaken(s: System, e: Event)
    requires e.Uplink? && ValidEvent(e) && s.mem.window.accepted != 0 && s.mem.window.last == e.c.seqNo
    ensures Decide(ContextOf(s.mem), e.c, e.busOk).IsDuplicate?
  {
    hide Prepare, Complaint, Blocked, Authorized;
  }

  // ---- The file ----

  predicate Loadable(file: Option<seq<byte>>) {
    file.Some? && UplinkFile.Load(file.value).Some?
  }

  /** The number that a reboot would find in the file, or 0 without a good file. */
  function FileNumber(file: Option<seq<byte>>): u32 {
    if Loadable(file) then UplinkFile.Load(file.value).value.lastSeq else 0
  }

  lemma LoadImage(m: Mem)
    ensures UplinkFile.Load(Image(m)) == Some(Record(m))
  {
    hide UplinkFile.Load, UplinkFile.Print;
    UplinkFile.LoadExact(Image(m), Record(m));
    assert Image(m)[..UplinkFile.SIZE] == Image(m);
  }

  /** What a save that goes through leaves in the file. */
  function Imaged(s: System, e: Event): Mem
    requires ValidEvent(e)
  {
    if e.Reboot? && !e.saves.marked then BootCounted(s.file) else Step(s, e).mem
  }

  lemma SaveWrites(s: System, e: Event)
    requires ValidEvent(e)
    ensures Step(s, e).file == if Saves(s, e) then Some(Image(Imaged(s, e))) else s.file
    ensures Saves(s, e) ==> Imaged(s, e).window == Step(s, e).mem.window
  {
    hide Decide, Prepare, Image, Loaded, Counted, Shown;
  }

  lemma LoadsSave(s: System, e: Event)
    requires ValidEvent(e) && Saves(s, e)
    ensures Loadable(Step(s, e).file) && UplinkFile.Load(Step(s, e).file.value) == Some(Record(Imaged(s, e)))
    ensures FileNumber(Step(s, e).file) == Step(s, e).mem.window.last
  {
    hide Step, Saves, Imaged, Image, UplinkFile.Load;
    SaveWrites(s, e);
    LoadImage(Imaged(s, e));
  }

  /** After any run the file is the one it began with, or what the last save that went through wrote. */
  lemma {:induction false} FileHoldsLastSave(s: System, events: seq<Event>) returns (k: Option<nat>)
    requires ValidEvents(events)
    ensures k == None ==> Run(s, events).file == s.file && forall i :: 0 <= i < |events| ==> !SavesAt(s, events, i)
    ensures k.Some? ==> k.value < |events| && SavesAt(s, events, k.value) && ValidEvent(events[k.value])
    ensures k.Some? ==> Run(s, events).file == Some(Image(Imaged(Run(s, events[..k.value]), events[k.value])))
    ensures k.Some? ==> forall i :: k.value < i < |events| ==> !SavesAt(s, events, i)
    decreases |events|
  {
    hide Step, Saves, Imaged, Image;
    if events == [] {
      k := None;
    } else {
      var n := |events| - 1;
      var init := events[..n];
      assert events[n] in events;
      SaveWrites(Run(s, init), events[n]);
      if SavesAt(s, events, n) {
        k := Some(n);
      } else {
        k := FileHoldsLastSave(s, init);
        forall i | 0 <= i < n
          ensures init[..i] == events[..i] && (SavesAt(s, init, i) <==> SavesAt(s, events, i))
        {
          assert init[..i] == events[..i];
        }
      }
    }
  }

  /** Event `k` of a run saves, and the save goes through. */
  predicate SavesAt(s: System, events: seq<Event>, k: nat)
    requires ValidEvents(events) && k < |events|
  {
    assert events[k] in events;
    Saves(Run(s, events[..k]), events[k])
  }
}
