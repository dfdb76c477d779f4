/**
  The part of the core application's state that decides health and restarts, and how messages, ticks
  and commands move it.  Every message from the bus forces an evaluation; ticks evaluate at most once
  per publish period.
 */
module CoreState {
  import opened Bytes
  import opened ConfigCommand
  import Health
  import Restarts

  // ---- Telemetry caches ----

  /** The common head of the flight controller's telemetry; `finite` says whether its numbers are. */
  datatype Generic = Generic(tsMs: u32, seqNo: u32, valid: bool, stale: byte, errorCode: byte, finite: bool)

  datatype Cache = Cache(received: bool, tsMs: u32, arrivalMs: u32, seqNo: u32, valid: bool, stale: byte,
      errorCode: byte)

  const EMPTY: Cache := Cache(false, 0, 0, 0, false, 0, 0)

  const MAX_FUTURE_MS: u32 := 5000
  const TIMEBASE_SHIFT_MS: u32 := 10000

  predicate FromTheFuture(m: Generic, now: u32) { m.tsMs > Add32(now, MAX_FUTURE_MS) }

  predicate OutOfOrder(c: Cache, m: Generic) { c.received && m.seqNo <= c.seqNo }

  predicate TimebaseShifted(c: Cache, m: Generic) { c.received && Add32(m.tsMs, TIMEBASE_SHIFT_MS) < c.tsMs }

  predicate Gap(c: Cache, m: Generic) { c.received && m.seqNo > c.seqNo + 1 }

  function Refreshed(c: Cache, m: Generic, now: u32): Cache {
    if FromTheFuture(m, now) || OutOfOrder(c, m) then c
    else Cache(true, m.tsMs, now, m.seqNo, m.valid, m.stale, m.errorCode)
  }

  /** A message with a number that is not finite makes the cache invalid, even when it is otherwise refused. */
  function RefreshedFinite(c: Cache, m: Generic, now: u32): Cache {
    var d := Refreshed(c, m, now);
    if m.finite then d else d.(valid := false)
  }

  predicate Unusable(c: Cache, now: u32, timeout: u32) {
    !c.received || Sub32(now, c.arrivalMs) > timeout || !c.valid || c.stale != 0
  }

  /** What is known of another application's last sign of life. */
  datatype Beat = Beat(received: bool, at: u32)

  const SILENT: Beat := Beat(false, 0)
  const APP_TIMEOUT_MS: u32 := 5000

  predicate Late(b: Beat, now: u32, timeout: u32) { !b.received || Sub32(now, b.at) > timeout }

  // ---- State and evaluation ----

  datatype Monitor = Monitor(
    params: Params,
    attitude: Cache, local: Cache, gps: Cache, ekf: Cache,
    bridge: Beat, uplink: Beat, lora: Beat,
    health: Health.Memory, timers: Restarts.Timers, lastPublishMs: u32)

  function InputsOf(m: Monitor, now: u32): Health.Inputs {
    Health.Inputs(
      Late(m.bridge, now, m.params.bridge),
      Unusable(m.ekf, now, m.params.ekf), Unusable(m.local, now, m.params.local),
      Unusable(m.attitude, now, m.params.attitude),
      Late(m.uplink, now, APP_TIMEOUT_MS), Late(m.lora, now, APP_TIMEOUT_MS))
  }

  function TimedOut(i: Health.Inputs): Restarts.Flags { Restarts.Flags(i.bridge, i.uplink, i.lora) }

  /** What an evaluation lets the world see of its health verdict and its restart. */
  datatype Output = Output(report: Health.Report, restarted: Option<Restarts.App>)

  datatype Result = Result(monitor: Monitor, output: Option<Output>)

  function Checked(m: Monitor, now: u32, found: Restarts.Flags): Restarts.Checked {
    Restarts.Check(m.timers, Restarts.Eval(now, TimedOut(InputsOf(m, now)), found))
  }

  function Evaluate(m: Monitor, now: u32, found: Restarts.Flags): Result {
    var i := InputsOf(m, now);
    var c := Checked(m, now, found);
    Result(m.(timers := c.timers, health := Health.Remember(m.health, i, now), lastPublishMs := now),
           Some(Output(Health.ReportOf(m.health, i, now), c.restarted)))
  }

  predicate Due(m: Monitor, now: u32) { Sub32(now, m.lastPublishMs) >= m.params.publish }

  // ---- Events ----

  datatype Message =
    | BridgeAlive(lastRxMs: u32)
    | UplinkAlive
    | LoraAlive
    | Attitude(g: Generic)
    | Local(g: Generic)
    | Gps(g: Generic)
    | Ekf(g: Generic)
    | Other

  function Received(m: Monitor, msg: Message, now: u32): Monitor {
    match msg
    case BridgeAlive(at) => m.(bridge := Beat(true, at))
    case UplinkAlive => m.(uplink := Beat(true, now))
    case LoraAlive => m.(lora := Beat(true, now))
    case Attitude(g) => m.(attitude := RefreshedFinite(m.attitude, g, now))
    case Local(g) => m.(local := RefreshedFinite(m.local, g, now))
    case Gps(g) => m.(gps := Refreshed(m.gps, g, now))
    case Ekf(g) => m.(ekf := Refreshed(m.ekf, g, now))
    case Other => m
  }

  /** `found` says for which applications the lookup by name would succeed. */
  datatype Event =
    | Arrived(msg: Message, now: u32, found: Restarts.Flags)
    | Tick(now: u32, found: Restarts.Flags)
    | CountersReset
    | ConfigArrived(payload: seq<byte>)

  function Step(m: Monitor, e: Event): Result {
    match e
    case Arrived(msg, now, found) => Evaluate(Received(m, msg, now), now, found)
    case Tick(now, found) => if Due(m, now) then Evaluate(m, now, found) else Result(m, None)
    case CountersReset =>
      Result(m.(health := m.health.(recoveryStart := 0), timers := Restarts.NO_TIMERS), None)
    case ConfigArrived(payload) => Result(m.(params := Configured(m.params, payload)), None)
  }

  function Booted(params: Params, lastHealth: byte): Monitor {
    Monitor(params, EMPTY, EMPTY, EMPTY, EMPTY, SILENT, SILENT, SILENT, Health.Booted(lastHealth),
        Restarts.NO_TIMERS, 0)
  }

  function Run(m: Monitor, events: seq<Event>): Monitor {
    if events == [] then m else Step(Run(m, events[..|events| - 1]), events[|events| - 1]).monitor
  }

  /** What event `k` publishes. */
  function OutputAt(m: Monitor, events: seq<Event>, k: nat): Option<Output>
    requires k < |events|
  {
    Step(Run(m, events[..k]), events[k]).output
  }

  lemma RunStep(m: Monitor, events: seq<Event>, k: nat)
    requires k < |events|
    ensures Run(m, events[..k + 1]) == Step(Run(m, events[..k]), events[k]).monitor
  {
    assert events[..k + 1][..k] == events[..k];
  }

  // ---- The histories that the supervisor and the scheduler see ----

  /** The evaluation or reset that event `k` means to the supervisor and to the scheduler, if any. */
  function Seen(m: Monitor, e: Event): (seq<Health.Item>, seq<Restarts.Item>) {
    match e
    case Arrived(msg, now, found) => Evaluation(Received(m, msg, now), now, found)
    case Tick(now, found) => if Due(m, now) then Evaluation(m, now, found) else ([], [])
    case CountersReset => ([Health.CountersReset], [Restarts.TimersCleared])
    case ConfigArrived(_) => ([], [])
  }

  function Evaluation(m: Monitor, now: u32, found: Restarts.Flags): (seq<Health.Item>, seq<Restarts.Item>) {
    ([Health.Evaluated(now, InputsOf(m, now))],
        [Restarts.Evaluated(Restarts.Eval(now, TimedOut(InputsOf(m, now)), found))])
  }

  function HealthHistory(m: Monitor, events: seq<Event>): seq<Health.Item> {
    if events == [] then []
    else HealthHistory(m, events[..|events| - 1]) + Seen(Run(m, events[..|events| - 1]), events[|events| - 1]).0
  }

  function RestartHistory(m: Monitor, events: seq<Event>): seq<Restarts.Item> {
    if events == [] then []
    else RestartHistory(m, events[..|events| - 1]) + Seen(Run(m, events[..|events| - 1]), events[|events| - 1]).1
  }

  /** Over every run of the application the supervisor and the scheduler are where their own histories
      lead, so what is proved about all their histories holds of the application. */
  lemma {:induction false} RunFollowsHistories(m: Monitor, events: seq<Event>)
    ensures Run(m, events).health == Health.After(m.health, HealthHistory(m, events))
    ensures Run(m, events).timers == Restarts.After(m.timers, RestartHistory(m, events))
  {
    hide Step, Seen;
    if events != [] {
      var init, e := events[..|events| - 1], events[|events| - 1];
      RunFollowsHistories(m, init);
      var before := Run(m, init);
      StepFollowsSeen(before, e);
      HealthAppend(m.health, HealthHistory(m, init), Seen(before, e).0);
      RestartsAppend(m.timers, RestartHistory(m, init), Seen(before, e).1);
    }
  }

  /** One step: at most one item in each history, and the output is the verdict on it. */
  lemma StepFollowsSeen(m: Monitor, e: Event)
    ensures var (hs, rs) := Seen(m, e); var r := Step(m, e);
      && |hs| == |rs| <= 1
      && r.monitor.health == (if hs == [] then m.health else Health.Apply(m.health, hs[0]))
      && r.monitor.timers == (if rs == [] then m.timers else Restarts.Apply(m.timers, rs[0]).timers)
      && (r.output.Some? ==> hs != [] && hs[0].Evaluated?)
      && (r.output.Some? ==> r.output.value.report == Health.ReportOf(m.health, hs[0].inputs, hs[0].now))
      && (r.output.Some? ==> r.output.value.restarted == Restarts.Apply(m.timers, rs[0]).restarted)
  {
    hide Health.Remember, Health.ReportOf, Restarts.Check, Configured, Refreshed, RefreshedFinite, InputsOf, Due;
  }

  lemma HealthAppend(m: Health.Memory, items: seq<Health.Item>, more: seq<Health.Item>)
    requires |more| <= 1
    ensures Health.After(m, items + more)
      == if more == [] then Health.After(m, items) else Health.Apply(Health.After(m, items), more[0])
  {
    if more == [] {
      assert items + more == items;
    } else {
      assert (items + more)[..|items|] == items;
    }
  }

  lemma RestartsAppend(t: Restarts.Timers, items: seq<Restarts.Item>, more: seq<Restarts.Item>)
    requires |more| <= 1
    ensures Restarts.After(t, items + more)
      == if more == [] then Restarts.After(t, items) else Restarts.Apply(Restarts.After(t, items), more[0]).timers
  {
    if more == [] {
      assert items + more == items;
    } else {
      assert (items + more)[..|items|] == items;
    }
  }

  lemma HistoryStep(m: Monitor, events: seq<Event>, k: nat)
    requires k < |events|
    ensures var before := Run(m, events[..k]);
      && HealthHistory(m, events[..k + 1]) == HealthHistory(m, events[..k]) + Seen(before, events[k]).0
      && RestartHistory(m, events[..k + 1]) == RestartHistory(m, events[..k]) + Seen(before, events[k]).1
  {
    hide Seen, Step;
    assert events[..k + 1][..k] == events[..k];
  }

  /** What event `k` publishes is the verdict of both histories on its evaluation. */
  lemma OutputFollowsHistories(m: Monitor, events: seq<Event>, k: nat)
    requires k < |events| && OutputAt(m, events, k).Some?
    ensures var hs, rs := HealthHistory(m, events[..k + 1]), RestartHistory(m, events[..k + 1]);
            && hs != [] && hs[|hs| - 1].Evaluated? && rs != []
            && OutputAt(m, events, k).value.report == Health.ReportAt(m.health, hs, |hs| - 1)
            && OutputAt(m, events, k).value.restarted == Restarts.RestartAt(m.timers, rs, |rs| - 1)
  {
    hide Step, Run, Seen, HealthHistory, RestartHistory, Health.ReportOf, Health.After, Restarts.After, Restarts.Apply;
    var upTo := events[..k + 1];
    HistoryStep(m, events, k);
    RunFollowsHistories(m, events[..k]);
    StepFollowsSeen(Run(m, events[..k]), events[k]);
    var hs, rs := HealthHistory(m, upTo), RestartHistory(m, upTo);
    assert hs[..|hs| - 1] == HealthHistory(m, events[..k]);
    assert rs[..|rs| - 1] == RestartHistory(m, events[..k]);
  }

  /** The clock of a run: it runs forward, does not show 0 and does not wrap. */
  ghost predicate ClockedUpTo(events: seq<Event>, now: u32) {
    && (forall i :: 0 <= i < |events| && Timed(events[i]) ==> Restarts.ValidTime(events[i].now) && events[i].now <= now)
    && forall i, j :: 0 <= i <= j < |events| && Timed(events[i]) && Timed(events[j]) ==> events[i].now <= events[j].now
  }

  predicate Timed(e: Event) { e.Arrived? || e.Tick? }

  /** Both histories of a run inherit its clock, as their theorems demand. */
  lemma {:induction false} HistoriesAreClocked(m: Monitor, events: seq<Event>, now: u32)
    requires ClockedUpTo(events, now)
    ensures var hs, rs := HealthHistory(m, events), RestartHistory(m, events);
      && Health.Clocked(hs) && Restarts.Clocked(rs)
      && (forall k :: 0 <= k < |hs| && hs[k].Evaluated? ==> hs[k].now <= now)
      && (forall k :: 0 <= k < |rs| && rs[k].Evaluated? ==> rs[k].e.now <= now)
    decreases |events|
  {
    hide Seen, Health.Clocked, Restarts.Clocked, Run;
    if events != [] {
      var init, e := events[..|events| - 1], events[|events| - 1];
      var until := if Timed(e) then e.now else now;
      assert ClockedUpTo(init, until);
      HistoriesAreClocked(m, init, until);
      SeenIsDated(Run(m, init), e);
      ClockedHealth(HealthHistory(m, init), Seen(Run(m, init), e).0, until);
      ClockedRestarts(RestartHistory(m, init), Seen(Run(m, init), e).1, until);
    } else {
      var hs, rs := HealthHistory(m, events), RestartHistory(m, events);
      ClockedHealth(hs, hs, now);
      ClockedRestarts(rs, rs, now);
      assert hs + hs == hs && rs + rs == rs;
    }
  }

  lemma SeenIsDated(m: Monitor, e: Event)
    ensures var (hs, rs) := Seen(m, e);
      && |hs| <= 1 && |rs| <= 1
      && (forall h :: h in hs && h.Evaluated? ==> Timed(e) && h.now == e.now)
      && (forall r :: r in rs && r.Evaluated? ==> Timed(e) && r.e.now == e.now)
  {
    hide InputsOf, Received, Due;
  }

  lemma ClockedHealth(hs: seq<Health.Item>, more: seq<Health.Item>, now: u32)
    requires (hs == [] || Health.Clocked(hs)) && |more| <= 1
    requires forall k :: 0 <= k < |hs| && hs[k].Evaluated? ==> hs[k].now <= now
    requires forall h :: h in more && h.Evaluated? ==> 0 < h.now == now
    ensures Health.Clocked(hs + more)
    ensures forall k :: 0 <= k < |hs + more| && (hs + more)[k].Evaluated? ==> (hs + more)[k].now <= now
  {
  }

  lemma ClockedRestarts(rs: seq<Restarts.Item>, more: seq<Restarts.Item>, now: u32)
    requires (rs == [] || Restarts.Clocked(rs)) && |more| <= 1
    requires forall k :: 0 <= k < |rs| && rs[k].Evaluated? ==> rs[k].e.now <= now
    requires forall r :: r in more && r.Evaluated? ==> Restarts.ValidTime(r.e.now) && r.e.now == now
    ensures Restarts.Clocked(rs + more)
    ensures forall k :: 0 <= k < |rs + more| && (rs + more)[k].Evaluated? ==> (rs + more)[k].e.now <= now
  {
  }

  /** The health rules over whole runs of the application: after any boot and any events, FAILED is
      published exactly after 30 s of evaluations that all found the bridge late, with no counter reset,
      and NOMINAL is entered again exactly after 10 s of evaluations that found all six inputs healthy. */
  lemma RunsObeyHealthRules(params: Params, last: byte, events: seq<Event>, k: nat, now: u32)
    requires k < |events| && ClockedUpTo(events, now) && OutputAt(Booted(params, last), events, k).Some?
    ensures var m := Booted(params, last);
            var hs := HealthHistory(m, events[..k + 1]);
            var health := OutputAt(m, events, k).value.report.health;
            && hs != [] && hs[|hs| - 1].Evaluated?
            && (health == Health.FAILED <==>
                hs[|hs| - 1].inputs.bridge && Health.Lasted(hs, Health.BridgeDown, 30000, |hs| - 1))
            && (Run(m, events[..k]).health.last != Health.NOMINAL ==>
                (health == Health.NOMINAL <==>
                 Health.Clear(hs[|hs| - 1].inputs) && Health.Lasted(hs, Health.AllClear, 10000, |hs| - 1)))
            && (Run(m, events[..k]).health.last in {Health.RECOVERY, Health.FAILED} ==> health != Health.NOMINAL)
  {
    hide Step, Run, Seen, HealthHistory, RestartHistory, OutputAt, Health.Lasted, Health.ReportOf, Health.After,
         Health.Clocked;
    var m := Booted(params, last);
    var upTo := events[..k + 1];
    assert ClockedUpTo(upTo, now);
    HistoriesAreClocked(m, upTo, now);
    OutputFollowsHistories(m, events, k);
    var hs := HealthHistory(m, upTo);
    var n := |hs| - 1;
    BeforeTheOutput(m, events, k);
    Health.FailedExactlyAfter30s(last, hs, n);
    if Run(m, events[..k]).health.last != Health.NOMINAL {
      Health.NominalExactlyAfter10s(last, hs, n);
    }
    if Run(m, events[..k]).health.last in {Health.RECOVERY, Health.FAILED} {
      Health.NeverStraightToNominal(last, hs, n);
    }
  }

  lemma BeforeTheOutput(m: Monitor, events: seq<Event>, k: nat)
    requires k < |events| && OutputAt(m, events, k).Some?
    ensures var hs := HealthHistory(m, events[..k + 1]);
            hs != [] && Run(m, events[..k]).health == Health.After(m.health, hs[..|hs| - 1])
  {
    hide Step, Run, Seen, HealthHistory, RestartHistory, Health.After, Restarts.After;
    HistoryStep(m, events, k);
    RunFollowsHistories(m, events[..k]);
    StepFollowsSeen(Run(m, events[..k]), events[k]);
    var hs := HealthHistory(m, events[..k + 1]);
    assert hs[..|hs| - 1] == HealthHistory(m, events[..k]);
  }

  lemma {:induction false} RestartHistoryGrows(m: Monitor, events: seq<Event>, j: nat, k: nat)
    requires j <= k <= |events|
    ensures RestartHistory(m, events[..j]) <= RestartHistory(m, events[..k])
    decreases k
  {
    hide Step, Run, Seen, RestartHistory, HealthHistory;
    if j < k {
      RestartHistoryGrows(m, events, j, k - 1);
      HistoryStep(m, events, k - 1);
    }
  }

  /** Event `k` publishes that application `a` was restarted. */
  predicate RestartsApp(m: Monitor, events: seq<Event>, k: nat, a: Restarts.App)
    requires k < |events|
  {
    OutputAt(m, events, k).Some? && OutputAt(m, events, k).value.restarted == Some(a)
  }

  /** The item that a restart leaves at the end of the scheduler's history. */
  lemma RestartItem(m: Monitor, events: seq<Event>, k: nat, a: Restarts.App)
    requires k < |events| && RestartsApp(m, events, k, a)
    ensures var rs := RestartHistory(m, events[..k + 1]);
      && Timed(events[k])
      && rs != [] && |rs| == |RestartHistory(m, events[..k])| + 1
      && rs[|rs| - 1].Evaluated? && rs[|rs| - 1].e.now == events[k].now
      && Restarts.RestartAt(m.timers, rs, |rs| - 1) == Some(a)
  {
    hide Run, HealthHistory, RestartHistory, Health.ReportOf, Health.After, Restarts.After, Restarts.Apply,
         Restarts.Check, InputsOf;
    HistoryStep(m, events, k);
    OutputFollowsHistories(m, events, k);
    SeenIsDated(Run(m, events[..k]), events[k]);
  }

  /** Over whole runs of the application, two restarts of the same application are at least 5000 ms apart. */
  lemma RunsSpaceRestarts(m: Monitor, events: seq<Event>, j: nat, k: nat, a: Restarts.App, now: u32)
    requires j < k < |events| && ClockedUpTo(events, now)
    requires RestartsApp(m, events, j, a) && RestartsApp(m, events, k, a)
    ensures Timed(events[j]) && Timed(events[k]) && events[k].now - events[j].now >= 5000
  {
    hide Run, Step, HealthHistory, RestartHistory, OutputAt, RestartsApp, Restarts.RestartAt, Restarts.Clocked,
         Health.Clocked;
    RestartItem(m, events, j, a);
    RestartItem(m, events, k, a);
    RestartHistoryGrows(m, events, j + 1, k);
    RestartHistoryGrows(m, events, k, k + 1);
    RestartHistoryGrows(m, events, j + 1, k + 1);
    assert ClockedUpTo(events[..k + 1], now);
    HistoriesAreClocked(m, events[..k + 1], now);
    var first, all := RestartHistory(m, events[..j + 1]), RestartHistory(m, events[..k + 1]);
    var i, n := |first| - 1, |all| - 1;
    assert first[i] == all[i];
    PrefixRestart(m.timers, first, all, i);
    Restarts.RestartsAreSpaced(m.timers, all, i, n, a);
  }

  /** Every item of the scheduler's history comes from an event. */
  lemma {:induction false} EventOfItem(m: Monitor, events: seq<Event>, i: nat) returns (k: nat)
    requires i < |RestartHistory(m, events)|
    ensures k < |events| && |RestartHistory(m, events[..k])| == i
    ensures RestartHistory(m, events[..k + 1]) == RestartHistory(m, events)[..i + 1]
    ensures Seen(Run(m, events[..k]), events[k]).1 == [RestartHistory(m, events)[i]]
    decreases |events|
  {
    hide Seen, Run;
    var n := |events| - 1;
    var init, all := events[..n], RestartHistory(m, events);
    SeenOnce(Run(m, init), events[n]);
    if i < |RestartHistory(m, init)| {
      k := EventOfItem(m, init, i);
      assert init[..k] == events[..k] && init[..k + 1] == events[..k + 1];
      assert all[..i + 1] == RestartHistory(m, init)[..i + 1];
    } else {
      k := n;
      assert events[..n + 1] == events && all[..i + 1] == all;
    }
  }

  lemma SeenOnce(m: Monitor, e: Event)
    ensures |Seen(m, e).1| <= 1
  {
    hide InputsOf, Received, Due;
  }

  /** An event that the scheduler sees as an evaluation publishes its restart. */
  lemma SeenIsPublished(m: Monitor, e: Event)
    requires Seen(m, e).1 != [] && Seen(m, e).1[0].Evaluated?
    ensures Step(m, e).output.Some? && Timed(e) && Seen(m, e).1[0].e.now == e.now
  {
    hide InputsOf, Received, Due, Health.Remember, Health.ReportOf, Restarts.Check;
  }

  /** No starvation over whole runs of the application: after any run from boot, if the scheduler's history
      of `events` is made of evaluations alone, at most `d` ms apart, that all find application `a` down, and
      lasts long enough, then some event restarts it within 5000 ms and d, 3 d or 5 d ms of the first. */
  lemma RunsDoNotStarve(params: Params, last: byte, before: seq<Event>, events: seq<Event>,
                        evals: seq<Restarts.Eval>, d: nat, a: Restarts.App) returns (k: nat)
    requires evals != [] && ClockedUpTo(before, evals[0].now)
    requires RestartHistory(Run(Booted(params, last), before), events) == Restarts.Items(evals)
    requires Restarts.Frequent(evals, d) && Restarts.StaysDown(evals, a)
    requires evals[|evals| - 1].now as int >= evals[0].now as int + 5000 + 2 * Restarts.Delay(a, d)
    ensures k < |events| && RestartsApp(Run(Booted(params, last), before), events, k, a) && Timed(events[k])
    ensures events[k].now as int <= evals[0].now as int + 5000 + 2 * Restarts.Delay(a, d) + d
  {
    hide Run, Seen, Step, RestartHistory, HealthHistory, Restarts.Frequent, Restarts.StaysDown, Restarts.Delay,
         Restarts.After,
         Restarts.Apply, Health.After, ClockedUpTo;
    var m := Run(Booted(params, last), before);
    TimersAfterBoot(params, last, before, evals, d, a);
    var i := Restarts.NoStarvation(m.timers, evals, d, a);
    k := EventOfItem(m, events, i);
    var rs := RestartHistory(m, events[..k + 1]);
    SeenIsPublished(Run(m, events[..k]), events[k]);
    OutputFollowsHistories(m, events, k);
    PrefixRestart(m.timers, rs, Restarts.Items(evals), i);
  }

  lemma TimersAfterBoot(params: Params, last: byte, before: seq<Event>, evals: seq<Restarts.Eval>, d: nat,
      a: Restarts.App)
    requires evals != [] && ClockedUpTo(before, evals[0].now) && Restarts.Frequent(evals, d)
    ensures Restarts.NextOf(Run(Booted(params, last), before).timers, a) as int <= evals[0].now as int + 5000
  {
    hide Run, RestartHistory, HealthHistory, Restarts.After, Restarts.NextOf;
    var m := Booted(params, last);
    var rs := RestartHistory(m, before);
    RunFollowsHistories(m, before);
    HistoriesAreClocked(m, before, evals[0].now);
    var off := Restarts.Flags(false, false, false);
    assert Restarts.Items(evals)[0].e.now == evals[0].now;
    ClockedRestarts(rs, [Restarts.Evaluated(Restarts.Eval(evals[0].now, off, off))], evals[0].now);
    Restarts.TimersAreBounded(rs, evals[0].now, a);
  }

  lemma PrefixRestart(t: Restarts.Timers, first: seq<Restarts.Item>, all: seq<Restarts.Item>, i: nat)
    requires first <= all && i < |first|
    ensures Restarts.RestartAt(t, first, i) == Restarts.RestartAt(t, all, i)
  {
    assert first[..i] == all[..i];
  }

  // ---- Non-interference ----

  /** The same event, but for the contents of a GPS message. */
  predicate SameButGps(d: Event, e: Event) {
    d == e || (d.Arrived? && e.Arrived? && d.now == e.now && d.found == e.found && d.msg.Gps? && e.msg.Gps?)
  }

  ghost predicate EqualButGps(m: Monitor, n: Monitor) { n == m.(gps := n.gps) }

  /** Two runs that differ only in the contents of GPS messages publish the same health, fault and
      recovery request, and issue the same restarts, at every event. */
  lemma {:induction false} GpsDoesNotInterfere(m: Monitor, n: Monitor, ds: seq<Event>, es: seq<Event>)
    requires |ds| == |es| && EqualButGps(m, n)
    requires forall i :: 0 <= i < |ds| ==> SameButGps(ds[i], es[i])
    ensures EqualButGps(Run(m, ds), Run(n, es))
    ensures forall k :: 0 <= k < |ds| ==> OutputAt(m, ds, k) == OutputAt(n, es, k)
    decreases |ds|
  {
    hide Step, EqualButGps, SameButGps;
    if ds != [] {
      var l := |ds| - 1;
      GpsDoesNotInterfere(m, n, ds[..l], es[..l]);
      GpsStep(Run(m, ds[..l]), Run(n, es[..l]), ds[l], es[l]);
      forall k | 0 <= k < |ds|
        ensures OutputAt(m, ds, k) == OutputAt(n, es, k)
      {
        if k < l {
          assert ds[..l][..k] == ds[..k] && es[..l][..k] == es[..k];
          assert OutputAt(m, ds[..l], k) == OutputAt(n, es[..l], k);
        }
      }
    }
  }

  lemma GpsStep(m: Monitor, n: Monitor, d: Event, e: Event)
    requires EqualButGps(m, n) && SameButGps(d, e)
    ensures EqualButGps(Step(m, d).monitor, Step(n, e).monitor) && Step(m, d).output == Step(n, e).output
  {
    hide Health.Remember, Health.ReportOf, Restarts.Check, Refreshed, Configured, RefreshedFinite, Late, Unusable;
  }

  /** The same event, but for the contents of a navigation message. */
  predicate SameButNavigation(d: Event, e: Event) {
    || d == e
    || (d.Arrived? && e.Arrived? && d.now == e.now && d.found == e.found && Navigation(d.msg) && Navigation(e.msg))
  }

  predicate Navigation(msg: Message) { msg.Attitude? || msg.Local? || msg.Gps? || msg.Ekf? }

  ghost predicate SameScheduling(m: Monitor, n: Monitor) {
    m.params == n.params && m.bridge == n.bridge && m.uplink == n.uplink && m.lora == n.lora && m.timers == n.timers
    && m.lastPublishMs == n.lastPublishMs
  }

  function RestartOf(o: Option<Output>): Option<Restarts.App> {
    if o == None then None else o.value.restarted
  }

  /** Restarts depend on no navigation message at all: neither attitude, position, GPS nor filter status. */
  lemma {:induction false} NavigationDoesNotRestart(m: Monitor, n: Monitor, ds: seq<Event>, es: seq<Event>)
    requires |ds| == |es| && SameScheduling(m, n)
    requires forall i :: 0 <= i < |ds| ==> SameButNavigation(ds[i], es[i])
    ensures SameScheduling(Run(m, ds), Run(n, es))
    ensures forall k :: 0 <= k < |ds| ==> RestartOf(OutputAt(m, ds, k)) == RestartOf(OutputAt(n, es, k))
    decreases |ds|
  {
    hide Step, SameScheduling, SameButNavigation, RestartOf;
    if ds != [] {
      var l := |ds| - 1;
      NavigationDoesNotRestart(m, n, ds[..l], es[..l]);
      NavigationStep(Run(m, ds[..l]), Run(n, es[..l]), ds[l], es[l]);
      forall k | 0 <= k < |ds|
        ensures RestartOf(OutputAt(m, ds, k)) == RestartOf(OutputAt(n, es, k))
      {
        if k < l {
          assert ds[..l][..k] == ds[..k] && es[..l][..k] == es[..k];
          assert RestartOf(OutputAt(m, ds[..l], k)) == RestartOf(OutputAt(n, es[..l], k));
        }
      }
    }
  }

  lemma NavigationStep(m: Monitor, n: Monitor, d: Event, e: Event)
    requires SameScheduling(m, n) && SameButNavigation(d, e)
    ensures SameScheduling(Step(m, d).monitor, Step(n, e).monitor)
    ensures RestartOf(Step(m, d).output) == RestartOf(Step(n, e).output)
  {
    hide Health.Remember, Health.ReportOf, Restarts.Check, Refreshed, Configured, RefreshedFinite, Unusable, Late;
  }

  // ---- Caches ----

  function CacheOf(m: Monitor, msg: Message): Option<Cache> {
    match msg
    case Attitude(_) => Some(m.attitude)
    case Local(_) => Some(m.local)
    case Gps(_) => Some(m.gps)
    case Ekf(_) => Some(m.ekf)
    case _ => None
  }

  /** Over any run a cache never goes back to an older message. */
  lemma {:induction false} CachesNeverGoBack(m: Monitor, events: seq<Event>, msg: Message)
    requires CacheOf(m, msg).Some?
    ensures var c, d := CacheOf(m, msg).value, CacheOf(Run(m, events), msg).value;
            && (c.received ==> d.received && d.seqNo >= c.seqNo)
            && (d.seqNo == c.seqNo && c.received ==> d.tsMs == c.tsMs && d.arrivalMs == c.arrivalMs)
  {
    if events != [] {
      CachesNeverGoBack(m, events[..|events| - 1], msg);
      hide Health.Remember, Health.ReportOf, Restarts.Check, Configured, InputsOf;
      CacheStep(Run(m, events[..|events| - 1]), events[|events| - 1], msg);
    }
  }

  lemma CacheStep(m: Monitor, e: Event, msg: Message)
    requires CacheOf(m, msg).Some?
    ensures var c, d := CacheOf(m, msg).value, CacheOf(Step(m, e).monitor, msg).value;
            && (c.received ==> d.received && d.seqNo >= c.seqNo)
            && (d.seqNo == c.seqNo && c.received ==> d.tsMs == c.tsMs && d.arrivalMs == c.arrivalMs)
  {
    hide Health.Remember, Health.ReportOf, Restarts.Check, Configured, InputsOf;
  }

  /** Two telemetry messages of the same kind, for the same cache. */
  predicate SameKind(msg: Message, other: Message) {
    || (msg.Attitude? && other.Attitude?) || (msg.Local? && other.Local?)
    || (msg.Gps? && other.Gps?) || (msg.Ekf? && other.Ekf?)
  }

  /** The event brings the cache of `msg`, with sequence number `seqNo`, nothing new. */
  predicate NothingNew(msg: Message, seqNo: u32, e: Event) {
    e.Arrived? && SameKind(msg, e.msg) ==> e.msg.g.seqNo <= seqNo || FromTheFuture(e.msg.g, e.now)
  }

  /** A source whose sequence numbers start over is refused until it has passed its old number: the cached
      number stands exactly as long as no message of that kind brings a higher one (and is not from the
      future), and then nothing of the cache changes but its validity. */
  lemma {:induction false} RestartedSourceIsRefused(m: Monitor, events: seq<Event>, msg: Message)
    requires CacheOf(m, msg).Some? && CacheOf(m, msg).value.received
    ensures var c, d := CacheOf(m, msg).value, CacheOf(Run(m, events), msg).value;
            && d.received && d.seqNo >= c.seqNo
            && (d.seqNo == c.seqNo <==> forall e :: e in events ==> NothingNew(msg, c.seqNo, e))
            && (d.seqNo == c.seqNo ==> d.(valid := c.valid) == c)
  {
    hide Step, NothingNew;
    if events != [] {
      var init, last := events[..|events| - 1], events[|events| - 1];
      assert events == init + [last];
      RestartedSourceIsRefused(m, init, msg);
      RefusedStep(Run(m, init), last, msg);
    }
  }

  lemma RefusedStep(m: Monitor, e: Event, msg: Message)
    requires CacheOf(m, msg).Some? && CacheOf(m, msg).value.received
    ensures var c, d := CacheOf(m, msg).value, CacheOf(Step(m, e).monitor, msg).value;
            && d.received && d.seqNo >= c.seqNo
            && (d.seqNo == c.seqNo <==> NothingNew(msg, c.seqNo, e))
            && (d.seqNo == c.seqNo ==> d.(valid := c.valid) == c)
  {
    hide Health.Remember, Health.ReportOf, Restarts.Check, Configured, InputsOf, FromTheFuture;
  }

  /** The timeout that applies to the cache of a message. */
  function TimeoutOf(p: Params, msg: Message): u32 {
    match msg
    case Attitude(_) => p.attitude
    case Local(_) => p.local
    case Gps(_) => p.gps
    case Ekf(_) => p.ekf
    case _ => 0
  }

  /** A source that brings nothing new ages: once its timeout has passed since the last message taken, its
      input counts as failed, whatever the source keeps sending. */
  lemma SilencedSourceTimesOut(m: Monitor, events: seq<Event>, msg: Message, now: u32)
    requires CacheOf(m, msg).Some? && CacheOf(m, msg).value.received
    requires forall e :: e in events ==> NothingNew(msg, CacheOf(m, msg).value.seqNo, e)
    requires Sub32(now, CacheOf(m, msg).value.arrivalMs) > TimeoutOf(Run(m, events).params, msg)
    ensures var after := Run(m, events);
            && Unusable(CacheOf(after, msg).value, now, TimeoutOf(after.params, msg))
            && (msg.Ekf? ==> InputsOf(after, now).ekf) && (msg.Local? ==> InputsOf(after, now).local)
            && (msg.Attitude? ==> InputsOf(after, now).attitude)
  {
    hide Run, Late;
    RestartedSourceIsRefused(m, events, msg);
  }
}
