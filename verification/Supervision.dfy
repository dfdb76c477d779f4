/**
  What the core application publishes and restarts, in terms of the events alone: every report is determined by
  the messages that have come and the times of the evaluations since.
 */
module Supervision {
  import opened Bytes
  import opened ConfigCommand
  import opened CoreState
  import opened CoreInputs
  import Health
  import Restarts

  // ---- Evaluations ----

  /** The six inputs that an evaluation at event `k` finds. */
  function InputsAt(m: Monitor, events: seq<Event>, k: nat): Health.Inputs
    requires k < |events| && Timed(events[k])
  {
    InputsOf(Run(m, events[..k + 1]), events[k].now)
  }

  predicate Evaluates(m: Monitor, events: seq<Event>, k: nat)
    requires k < |events|
  {
    OutputAt(m, events, k).Some?
  }

  /** When the last evaluation took place; 0 before the first. */
  function LastEvaluation(m: Monitor, events: seq<Event>): u32 {
    if events == [] then 0
    else if Evaluates(m, events, |events| - 1) && Timed(events[|events| - 1]) then events[|events| - 1].now
    else LastEvaluation(m, events[..|events| - 1])
  }

  lemma StepEvaluates(m: Monitor, e: Event)
    ensures Step(m, e).output.Some?
            <==> e.Arrived? || (e.Tick? && Age(e.now, m.lastPublishMs) >= m.params.publish)
    ensures Step(m, e).monitor.lastPublishMs == if Step(m, e).output.Some? then e.now else m.lastPublishMs
  {
    hide Health.Remember, Health.ReportOf, Restarts.Check, Configured, InputsOf, Refreshed, RefreshedFinite, Age;
    if e.Tick? {
      AgeIsDifference(e.now, m.lastPublishMs);
    }
  }

  lemma {:induction false} PublishTimeIsLast(params: Params, last: byte, events: seq<Event>)
    ensures var m := Booted(params, last); Run(m, events).lastPublishMs == LastEvaluation(m, events)
  {
    hide Step;
    if events != [] {
      var n := |events| - 1;
      assert events[..n + 1] == events;
      PublishTimeIsLast(params, last, events[..n]);
      StepEvaluates(Run(Booted(params, last), events[..n]), events[n]);
    }
  }

  /** Over any run from boot: every message is evaluated at once, a tick exactly when the publish period has passed
      since the last evaluation, and nothing else is. */
  lemma EvaluatesExactly(params: Params, last: byte, events: seq<Event>, k: nat)
    requires k < |events|
    ensures var m := Booted(params, last);
            Evaluates(m, events, k)
            <==> || events[k].Arrived?
                 || (events[k].Tick?
                     && Age(events[k].now, LastEvaluation(m, events[..k])) >= Run(m, events[..k]).params.publish)
  {
    hide Step, Run, Age;
    PublishTimeIsLast(params, last, events[..k]);
    StepEvaluates(Run(Booted(params, last), events[..k]), events[k]);
  }

  lemma EvaluatedIsTimed(m: Monitor, events: seq<Event>, k: nat)
    requires k < |events| && Evaluates(m, events, k)
    ensures Timed(events[k])
  {
    hide Health.Remember, Health.ReportOf, Restarts.Check, Configured, InputsOf, Received;
  }

  // ---- The supervisor's history, event by event ----

  /** The item of the supervisor's history that event `k` leaves. */
  function ItemOf(m: Monitor, events: seq<Event>, k: nat): Option<Health.Item>
    requires k < |events|
  {
    if Timed(events[k]) && Evaluates(m, events, k) then
      Some(Health.Evaluated(events[k].now, InputsAt(m, events, k)))
    else if events[k].CountersReset? then Some(Health.CountersReset)
    else None
  }

  lemma SeenIsItem(m: Monitor, e: Event)
    ensures Seen(m, e).0 == if Step(m, e).output.Some? && Timed(e)
                            then [Health.Evaluated(e.now, InputsOf(Step(m, e).monitor, e.now))]
                            else if e.CountersReset? then [Health.CountersReset] else []
    ensures Step(m, e).output.Some? && Timed(e) ==>
              && Seen(m, e).1 != [] && Seen(m, e).1[0].Evaluated?
              && Seen(m, e).1[0].e == Restarts.Eval(e.now, TimedOut(InputsOf(Step(m, e).monitor, e.now)), e.found)
  {
    hide Health.Remember, Health.ReportOf, Restarts.Check, Configured, Refreshed, RefreshedFinite, Unusable, Late;
  }

  /** How many items the events before `k` have left. */
  function Place(m: Monitor, events: seq<Event>, k: nat): nat
    requires k <= |events|
  {
    |HealthHistory(m, events[..k])|
  }

  lemma HistoryAt(m: Monitor, events: seq<Event>, k: nat)
    requires k < |events|
    ensures HealthHistory(m, events[..k + 1])
            == HealthHistory(m, events[..k]) + match ItemOf(m, events, k) case Some(h) => [h] case None => []
  {
    hide Seen, Step, InputsOf;
    HistoryStep(m, events, k);
    SeenIsItem(Run(m, events[..k]), events[k]);
    RunStep(m, events, k);
  }

  lemma {:induction false} HistoryGrows(m: Monitor, events: seq<Event>, j: nat, k: nat)
    requires j <= k <= |events|
    ensures HealthHistory(m, events[..j]) <= HealthHistory(m, events[..k])
    decreases k
  {
    hide HealthHistory, ItemOf;
    if j < k {
      HistoryGrows(m, events, j, k - 1);
      HistoryAt(m, events, k - 1);
    }
  }

  /** The item of event `k` stands at its place in every later history. */
  lemma ItemIsPlaced(m: Monitor, events: seq<Event>, k: nat)
    requires k < |events| && ItemOf(m, events, k).Some?
    ensures var p, hs := Place(m, events, k), HealthHistory(m, events);
            p < |hs| && hs[p] == ItemOf(m, events, k).value && Place(m, events, k + 1) == p + 1
  {
    hide HealthHistory, ItemOf;
    HistoryAt(m, events, k);
    HistoryGrows(m, events, k + 1, |events|);
    assert events[..|events|] == events;
  }

  lemma PlacesGrow(m: Monitor, events: seq<Event>, j: nat, k: nat)
    requires j <= k <= |events|
    ensures Place(m, events, j) <= Place(m, events, k)
  {
    HistoryGrows(m, events, j, k);
  }

  /** Every item was left by some event. */
  lemma {:induction false} EventOfPlace(m: Monitor, events: seq<Event>, p: nat) returns (k: nat)
    requires p < |HealthHistory(m, events)|
    ensures k < |events| && Place(m, events, k) == p && ItemOf(m, events, k) == Some(HealthHistory(m, events)[p])
    decreases |events|
  {
    hide HealthHistory;
    var n := |events| - 1;
    NoHistory(m);
    HistoryAt(m, events, n);
    assert events[..n + 1] == events;
    if p < |HealthHistory(m, events[..n])| {
      k := EventOfPlace(m, events[..n], p);
      assert events[..n][..k] == events[..k] && events[..n][..k + 1] == events[..k + 1];
    } else {
      k := n;
    }
  }

  lemma NoHistory(m: Monitor)
    ensures HealthHistory(m, []) == []
  {
  }

  // ---- Streaks of events ----

  /** What event `i` does to a condition that is being timed. */
  function MarkOf(m: Monitor, events: seq<Event>, f: Health.Item -> Health.Mark, i: nat): Health.Mark
    requires i < |events|
  {
    match ItemOf(m, events, i)
    case Some(h) => f(h)
    case None => Health.Skips
  }

  /** The condition held at event `j` at least `ms` before event `k`, and nothing broke it since. */
  ghost predicate HeldSince(m: Monitor, events: seq<Event>, f: Health.Item -> Health.Mark, ms: nat, j: int, k: nat)
    requires k < |events| && Timed(events[k])
  {
    && 0 <= j <= k && MarkOf(m, events, f, j).Holds? && events[k].now - MarkOf(m, events, f, j).at >= ms
    && forall i :: j <= i <= k ==> !MarkOf(m, events, f, i).Breaks?
  }

  /** A streak of events is a streak of the history. */
  lemma StreaksAgree(m: Monitor, events: seq<Event>, f: Health.Item -> Health.Mark, ms: nat, k: nat)
    requires k + 1 == |events| && Timed(events[k]) && Evaluates(m, events, k)
    requires MarkOf(m, events, f, k).Holds? && MarkOf(m, events, f, k).at == events[k].now
    ensures var hs := HealthHistory(m, events);
            && |hs| == Place(m, events, k) + 1 && f(hs[|hs| - 1]).Holds?
            && ((exists j :: HeldSince(m, events, f, ms, j, k)) <==> Health.Lasted(hs, f, ms, |hs| - 1))
  {
    hide HealthHistory, ItemOf, Place, Evaluates;
    var hs := HealthHistory(m, events);
    KnownItem(m, events, k);
    ItemIsPlaced(m, events, k);
    WholePlace(m, events);
    var n := |hs| - 1;
    if j :| HeldSince(m, events, f, ms, j, k) {
      ItemIsPlaced(m, events, j);
      var p := Place(m, events, j);
      PlacesGrow(m, events, j, k);
      forall q | p <= q < n + 1 ensures !f(hs[q]).Breaks? {
        var i := EventOfPlace(m, events, q);
        if i < j {
          ItemIsPlaced(m, events, i);
          PlacesGrow(m, events, i + 1, j);
        }
        assert !MarkOf(m, events, f, i).Breaks?;
      }
      assert Health.Streak(hs, f, p, n + 1);
    }
    if p :| Health.Streak(hs, f, p, n + 1) && f(hs[n]).at - f(hs[p]).at >= ms {
      var j := EventOfPlace(m, events, p);
      forall i | j <= i <= k ensures !MarkOf(m, events, f, i).Breaks? {
        if ItemOf(m, events, i).Some? {
          ItemIsPlaced(m, events, i);
          PlacesGrow(m, events, j, i);
        }
      }
      assert HeldSince(m, events, f, ms, j, k);
    }
  }

  lemma KnownItem(m: Monitor, events: seq<Event>, k: nat)
    requires k < |events| && Timed(events[k]) && Evaluates(m, events, k)
    ensures ItemOf(m, events, k) == Some(Health.Evaluated(events[k].now, InputsAt(m, events, k)))
  {
  }

  lemma WholePlace(m: Monitor, events: seq<Event>)
    ensures Place(m, events, |events|) == |HealthHistory(m, events)|
  {
    assert events[..|events|] == events;
  }

  // ---- What is published ----

  predicate EvaluatedAt(m: Monitor, events: seq<Event>, k: int) {
    0 <= k < |events| && Timed(events[k]) && Evaluates(m, events, k)
  }

  /** Every evaluation since one at least 30 s before event `k` found the bridge late, without a reset of the counters
      between. */
  ghost predicate BridgeLate30s(m: Monitor, events: seq<Event>, k: nat)
    requires k < |events| && Timed(events[k])
  {
    exists j :: BridgeLateSince(m, events, j, k) && events[k].now - events[j].now >= 30000
  }

  ghost predicate BridgeLateSince(m: Monitor, events: seq<Event>, j: int, k: nat)
    requires k < |events|
  {
    && j <= k && EvaluatedAt(m, events, j)
    && forall i | j <= i <= k ::
         !events[i].CountersReset? && (EvaluatedAt(m, events, i) ==> InputsAt(m, events, i).bridge)
  }

  /** Every evaluation since one at least 10 s before event `k` found all six inputs healthy. */
  ghost predicate AllClear10s(m: Monitor, events: seq<Event>, k: nat)
    requires k < |events| && Timed(events[k])
  {
    exists j :: AllClearSince(m, events, j, k) && events[k].now - events[j].now >= 10000
  }

  ghost predicate AllClearSince(m: Monitor, events: seq<Event>, j: int, k: nat)
    requires k < |events|
  {
    && j <= k && EvaluatedAt(m, events, j)
    && forall i | j <= i <= k :: EvaluatedAt(m, events, i) ==> NoneFails(InputsAt(m, events, i))
  }

  predicate NoneFails(i: Health.Inputs) {
    !i.bridge && !i.ekf && !i.local && !i.attitude && !i.uplink && !i.lora
  }

  lemma BridgeStreaks(m: Monitor, events: seq<Event>, k: nat)
    requires k < |events| && Timed(events[k])
    ensures BridgeLate30s(m, events, k) <==> exists j :: HeldSince(m, events, Health.BridgeDown, 30000, j, k)
  {
    hide InputsAt, Evaluates;
    forall j ensures BridgeLateSince(m, events, j, k) && events[k].now - events[j].now >= 30000
                     <==> HeldSince(m, events, Health.BridgeDown, 30000, j, k)
    {
      if HeldSince(m, events, Health.BridgeDown, 30000, j, k) {
        forall i | j <= i <= k
          ensures !events[i].CountersReset? && (EvaluatedAt(m, events, i) ==> InputsAt(m, events, i).bridge)
        {
          assert !MarkOf(m, events, Health.BridgeDown, i).Breaks?;
        }
      }
    }
  }

  lemma ClearStreaks(m: Monitor, events: seq<Event>, k: nat)
    requires k < |events| && Timed(events[k])
    ensures AllClear10s(m, events, k) <==> exists j :: HeldSince(m, events, Health.AllClear, 10000, j, k)
  {
    hide InputsAt, Evaluates;
    forall j ensures AllClearSince(m, events, j, k) && events[k].now - events[j].now >= 10000
                     <==> HeldSince(m, events, Health.AllClear, 10000, j, k)
    {
      if HeldSince(m, events, Health.AllClear, 10000, j, k) {
        forall i | j <= i <= k ensures EvaluatedAt(m, events, i) ==> NoneFails(InputsAt(m, events, i))
        {
          assert !MarkOf(m, events, Health.AllClear, i).Breaks?;
        }
      }
    }
  }

  /** The health state that was published last; before the first evaluation, the one restored at boot. */
  function LastHealth(m: Monitor, last: byte, events: seq<Event>): byte {
    if events == [] then last
    else if Evaluates(m, events, |events| - 1) then OutputAt(m, events, |events| - 1).value.report.health
    else LastHealth(m, last, events[..|events| - 1])
  }

  lemma {:induction false} LastHealthIsKept(params: Params, last: byte, events: seq<Event>)
    ensures var m := Booted(params, last); Run(m, events).health.last == LastHealth(m, last, events)
  {
    hide Step;
    if events != [] {
      LastHealthIsKept(params, last, events[..|events| - 1]);
      KeepsHealth(Run(Booted(params, last), events[..|events| - 1]), events[|events| - 1]);
    }
  }

  lemma KeepsHealth(m: Monitor, e: Event)
    ensures var r := Step(m, e);
            r.monitor.health.last == if r.output.Some? then r.output.value.report.health else m.health.last
  {
    hide Restarts.Check, Configured, InputsOf, Received, Health.HealthOf;
  }

  /** All six inputs are healthy, and NOMINAL was published last or they have been so for at least 10 s. */
  ghost predicate Recovered(m: Monitor, last: byte, events: seq<Event>, k: nat)
    requires k < |events| && Timed(events[k])
  {
    NoneFails(InputsAt(m, events, k)) && (LastHealth(m, last, events[..k]) == 0 || AllClear10s(m, events, k))
  }

  /** What every evaluation of every run publishes, for any boot: FAILED (3) after 30 s of a late bridge, RECOVERY (2)
      before that, NOMINAL (0) when all inputs have recovered, DEGRADED (1) in all other cases; a recovery request
      exactly while the bridge is late. */
  lemma PublishedHealthIsExactly(params: Params, last: byte, events: seq<Event>, k: nat, now: u32)
    requires k < |events| && ClockedUpTo(events, now) && Timed(events[k])
    requires Evaluates(Booted(params, last), events, k)
    ensures var m := Booted(params, last);
            var i, r := InputsAt(m, events, k), OutputAt(m, events, k).value.report;
            && (r.health == 3 <==> i.bridge && BridgeLate30s(m, events, k))
            && (r.health == 2 <==> i.bridge && !BridgeLate30s(m, events, k))
            && (r.health == 0 <==> Recovered(m, last, events, k))
            && (r.health == 1 <==> !i.bridge && !Recovered(m, last, events, k))
            && (r.recoveryRequested <==> i.bridge)
  {
    hide Step, Run, Seen, HealthHistory, RestartHistory, OutputAt, InputsAt, Health.Lasted, Health.ReportOf,
         Health.After, Health.Clocked, BridgeLate30s, AllClear10s, HeldSince, Place, ItemOf, Evaluates,
         Health.Published;
    var m := Booted(params, last);
    var upTo := events[..k + 1];
    assert ClockedUpTo(upTo, now);
    SamePrefix(m, last, events, k);
    HistoriesAreClocked(m, upTo, now);
    OutputFollows(m, events, k);
    var hs := HealthHistory(m, upTo);
    var n := |hs| - 1;
    Health.HealthIsExactly(last, hs, n);
    Health.LastIsPublished(last, hs[..n]);
    LastHealthIsKept(params, last, events[..k]);
    if InputsAt(m, events, k).bridge {
      BridgeMark(m, upTo, k);
      StreaksAgree(m, upTo, Health.BridgeDown, 30000, k);
      BridgeStreaks(m, upTo, k);
    }
    if NoneFails(InputsAt(m, events, k)) {
      ClearMark(m, upTo, k);
      StreaksAgree(m, upTo, Health.AllClear, 10000, k);
      ClearStreaks(m, upTo, k);
    }
  }

  lemma BridgeMark(m: Monitor, events: seq<Event>, k: nat)
    requires EvaluatedAt(m, events, k) && InputsAt(m, events, k).bridge
    ensures MarkOf(m, events, Health.BridgeDown, k) == Health.Holds(events[k].now)
  {
    hide InputsAt, Evaluates;
  }

  lemma ClearMark(m: Monitor, events: seq<Event>, k: nat)
    requires EvaluatedAt(m, events, k) && NoneFails(InputsAt(m, events, k))
    ensures MarkOf(m, events, Health.AllClear, k) == Health.Holds(events[k].now)
  {
    hide InputsAt, Evaluates;
  }

  /** The report of event `k` is the supervisor's verdict on its history, whose last item is this evaluation. */
  lemma OutputFollows(m: Monitor, events: seq<Event>, k: nat)
    requires EvaluatedAt(m, events, k)
    ensures var hs := HealthHistory(m, events[..k + 1]);
            && OutputAt(m, events, k).Some?
            && hs != [] && hs[|hs| - 1] == Health.Evaluated(events[k].now, InputsAt(m, events, k))
            && Run(m, events[..k]).health == Health.After(m.health, hs[..|hs| - 1])
            && OutputAt(m, events, k).value.report == Health.ReportAt(m.health, hs, |hs| - 1)
  {
    hide Step, Run, Seen, HealthHistory, RestartHistory, Health.ReportOf, Health.After, InputsAt;
    OutputFollowsHistories(m, events, k);
    BeforeTheOutput(m, events, k);
    HistoryAt(m, events, k);
  }

  /** What concerns event `k` depends on the events up to it alone. */
  lemma SamePrefix(m: Monitor, last: byte, events: seq<Event>, k: nat)
    requires k < |events| && Timed(events[k])
    ensures var upTo := events[..k + 1];
            && upTo[..k] == events[..k] && Evaluates(m, upTo, k) == Evaluates(m, events, k)
            && InputsAt(m, upTo, k) == InputsAt(m, events, k)
            && (BridgeLate30s(m, upTo, k) <==> BridgeLate30s(m, events, k))
            && (AllClear10s(m, upTo, k) <==> AllClear10s(m, events, k))
  {
    hide Step, Run, InputsOf;
    var upTo := events[..k + 1];
    forall i | 0 <= i <= k ensures
      && upTo[i] == events[i] && (EvaluatedAt(m, upTo, i) <==> EvaluatedAt(m, events, i))
      && (Timed(events[i]) ==> InputsAt(m, upTo, i) == InputsAt(m, events, i))
    {
      assert upTo[..i] == events[..i] && upTo[..i + 1] == events[..i + 1];
    }
    hide EvaluatedAt, InputsAt;
    forall j ensures (BridgeLateSince(m, upTo, j, k) <==> BridgeLateSince(m, events, j, k))
                     && (AllClearSince(m, upTo, j, k) <==> AllClearSince(m, events, j, k))
    {
    }
  }

  /** The published fault code names the first failing input in the order bridge (1), filter (3), position (4),
      attitude (5), command application (6), radio (7); it is 0 exactly when none fails. */
  lemma PublishedFaultIsExactly(params: Params, last: byte, events: seq<Event>, k: nat)
    requires EvaluatedAt(Booted(params, last), events, k)
    ensures var m := Booted(params, last);
            var i, f := InputsAt(m, events, k), OutputAt(m, events, k).value.report.fault;
            && (f == 1 <==> i.bridge)
            && (f == 3 <==> !i.bridge && i.ekf)
            && (f == 4 <==> !i.bridge && !i.ekf && i.local)
            && (f == 5 <==> !i.bridge && !i.ekf && !i.local && i.attitude)
            && (f == 6 <==> !i.bridge && !i.ekf && !i.local && !i.attitude && i.uplink)
            && (f == 7 <==> !i.bridge && !i.ekf && !i.local && !i.attitude && !i.uplink && i.lora)
            && (f == 0 <==> NoneFails(i))
  {
    hide InputsAt, OutputAt, HealthHistory, Health.ReportOf, Health.After, Run, Evaluates;
    var m := Booted(params, last);
    OutputFollows(m, events, k);
    var hs := HealthHistory(m, events[..k + 1]);
    Health.FaultIsExactly(last, hs, |hs| - 1);
  }

  /** In terms of the messages: recovery is requested, and RECOVERY or FAILED published, exactly when no sign of life
      of the bridge has come or the time stamp of the last one is older than the bridge timeout. */
  lemma BridgeLossIsPublished(params: Params, last: byte, events: seq<Event>, k: nat, now: u32)
    requires EvaluatedAt(Booted(params, last), events, k) && ClockedUpTo(events, now)
    ensures var m := Booted(params, last);
            var r, upTo := OutputAt(m, events, k).value.report, events[..k + 1];
            && (r.recoveryRequested <==>
                forall j :: IsLast(upTo, BridgeLife, j) ==>
                  Age(events[k].now, upTo[j].msg.lastRxMs) > Run(m, upTo).params.bridge)
            && (r.recoveryRequested <==> r.health == 2 || r.health == 3)
  {
    hide Run, IsLast, OutputAt, BridgeLate30s, Recovered, Age, Late, Unusable, Evaluates;
    PublishedHealthIsExactly(params, last, events, k, now);
    LateExactly(params, last, events[..k + 1], events[k].now);
  }

  // ---- What is restarted ----

  /** The scheduler's item for the evaluation at event `k`. */
  lemma SchedulerSees(m: Monitor, events: seq<Event>, k: nat)
    requires EvaluatedAt(m, events, k)
    ensures var rs := RestartHistory(m, events[..k + 1]);
            && |rs| == |RestartHistory(m, events[..k])| + 1
            && rs[|rs| - 1] == Restarts.Evaluated(
                 Restarts.Eval(events[k].now, TimedOut(InputsAt(m, events, k)), events[k].found))
  {
    hide Step, Run, Seen, HealthHistory, RestartHistory, InputsOf;
    HistoryStep(m, events, k);
    SeenIsItem(Run(m, events[..k]), events[k]);
    SeenOnce(Run(m, events[..k]), events[k]);
    RunStep(m, events, k);
  }

  /** Exactly when event `k` of a run from boot restarts an application: its evaluation finds it late, the lookup by
      name succeeds, no application of higher priority is restarted instead, and in all its turns since one at least
      5000 ms earlier it was late as well, without a restart of its own or a reset of the timers after that. */
  lemma RunsRestartExactly(params: Params, last: byte, events: seq<Event>, k: nat, now: u32, a: Restarts.App)
    requires EvaluatedAt(Booted(params, last), events, k) && ClockedUpTo(events, now)
    ensures var m := Booted(params, last);
            var rs := RestartHistory(m, events[..k + 1]);
            && rs != []
            && (RestartsApp(m, events, k, a) <==>
                && Restarts.FlagOf(TimedOut(InputsAt(m, events, k)), a) && Restarts.FlagOf(events[k].found, a)
                && Restarts.GetsTurn(rs, a, |rs| - 1)
                && exists j :: Restarts.DownSince(rs, a, j, |rs| - 1) && events[k].now - rs[j].e.now >= 5000)
  {
    hide Step, Run, Seen, HealthHistory, RestartHistory, InputsAt, Restarts.GetsTurn, Restarts.DownSince,
         Restarts.RestartAt, Restarts.Clocked, Health.Clocked, OutputAt;
    var m := Booted(params, last);
    var upTo := events[..k + 1];
    assert ClockedUpTo(upTo, now);
    SchedulerSees(m, events, k);
    HistoriesAreClocked(m, upTo, now);
    OutputFollowsHistories(m, events, k);
    var rs := RestartHistory(m, upTo);
    Restarts.RestartedExactly(rs, a, |rs| - 1);
    DownSinceIsEvaluated(rs, a, |rs| - 1);
  }

  lemma DownSinceIsEvaluated(rs: seq<Restarts.Item>, a: Restarts.App, n: nat)
    requires n <= |rs|
    ensures forall j :: Restarts.DownSince(rs, a, j, n) ==> 0 <= j < n && rs[j].Evaluated?
  {
  }

  function LifeOf(a: Restarts.App): Kind {
    match a
    case Bridge => BridgeLife
    case Uplink => UplinkLife
    case Lora => LoraLife
  }

  /** The application has given no sign of life in `before`, or the last one is too old at `now`: a bridge stamp by the
      largest timeout parameter in force during `events`, an arrival by 5000 ms. */
  ghost predicate FellSilent(m: Monitor, before: seq<Event>, events: seq<Event>, a: Restarts.App, now: u32) {
    && (forall e :: e in events ==> !Brings(e, LifeOf(a)))
    && forall j :: IsLast(before, LifeOf(a), j) ==>
         if a == Restarts.Bridge then
           forall n :: 0 <= n <= |events| ==>
             before[j].msg.lastRxMs as int + TimeoutAfter(m, before, events, n) < now as int
         else before[j].now as int + 5000 < now as int
  }

  /** The bridge's timeout parameter after `before` and the first `n` of `events`. */
  function TimeoutAfter(m: Monitor, before: seq<Event>, events: seq<Event>, n: nat): u32
    requires n <= |events|
  {
    Run(m, before + events[..n]).params.bridge
  }

  lemma {:induction false} RunConcat(m: Monitor, before: seq<Event>, events: seq<Event>)
    ensures Run(m, before + events) == Run(Run(m, before), events)
    decreases |events|
  {
    hide Step;
    if events == [] {
      assert before + events == before;
    } else {
      var n := |events| - 1;
      assert (before + events)[..|before| + n] == before + events[..n];
      RunConcat(m, before, events[..n]);
    }
  }

  /** Silence goes on: the last sign of life of a longer run is still that of `before`. */
  lemma StillLast(before: seq<Event>, more: seq<Event>, k: Kind, j: int)
    requires forall e :: e in more ==> !Brings(e, k)
    ensures IsLast(before + more, k, j) <==> IsLast(before, k, j)
  {
    hide Brings;
    var all := before + more;
    assert forall i :: |before| <= i < |all| ==> all[i] in more;
    assert forall i :: 0 <= i < |before| ==> all[i] == before[i];
  }

  /** An application that fell silent counts as late at every evaluation that follows. */
  lemma SilentIsLate(params: Params, last: byte, before: seq<Event>, events: seq<Event>, k: nat, a: Restarts.App,
                     since: u32)
    requires k < |events| && Timed(events[k]) && since <= events[k].now
    requires FellSilent(Booted(params, last), before, events, a, since)
    ensures Restarts.FlagOf(TimedOut(InputsAt(Run(Booted(params, last), before), events, k)), a)
  {
    hide Run, Late, Unusable, FellSilent, Age;
    var m := Booted(params, last);
    var more := events[..k + 1];
    RunConcat(m, before, more);
    LateExactly(params, last, before + more, events[k].now);
    forall j | IsLast(before + more, LifeOf(a), j)
      ensures Age(events[k].now, StampOf(before + more, a, j))
              > if a == Restarts.Bridge then TimeoutAfter(m, before, events, k + 1) else 5000
    {
      OldStaysOld(params, last, before, events, k, a, since, j);
    }
  }

  /** The time of a sign of life: what the bridge reports, or when the message came. */
  ghost function StampOf(events: seq<Event>, a: Restarts.App, j: int): u32
    requires IsLast(events, LifeOf(a), j)
  {
    if a == Restarts.Bridge then events[j].msg.lastRxMs else events[j].now
  }

  lemma OldStaysOld(params: Params, last: byte, before: seq<Event>, events: seq<Event>, k: nat, a: Restarts.App,
                    since: u32, j: int)
    requires k < |events| && Timed(events[k]) && since <= events[k].now
    requires FellSilent(Booted(params, last), before, events, a, since)
    requires IsLast(before + events[..k + 1], LifeOf(a), j)
    ensures Age(events[k].now, StampOf(before + events[..k + 1], a, j))
            > if a == Restarts.Bridge then TimeoutAfter(Booted(params, last), before, events, k + 1) else 5000
  {
    hide Run;
    forall e | e in events[..k + 1] ensures !Brings(e, LifeOf(a)) {
      assert e in events;
    }
    StillLast(before, events[..k + 1], LifeOf(a), j);
  }

  /** A silent application comes back: after any run from boot, when it has fallen silent, its lookups succeed and
      evaluations alone follow, at most `d` ms apart and for long enough, some event restarts it within 5000 ms and
      d, 3 d or 5 d ms (bridge, uplink, radio) of the first. */
  lemma SilentIsRestarted(params: Params, last: byte, before: seq<Event>, events: seq<Event>,
                          evals: seq<Restarts.Eval>, d: nat, a: Restarts.App) returns (k: nat)
    requires evals != [] && ClockedUpTo(before, evals[0].now)
    requires RestartHistory(Run(Booted(params, last), before), events) == Restarts.Items(evals)
    requires Restarts.Frequent(evals, d) && forall i :: 0 <= i < |evals| ==> Restarts.FlagOf(evals[i].found, a)
    requires FellSilent(Booted(params, last), before, events, a, evals[0].now)
    requires evals[|evals| - 1].now as int >= evals[0].now as int + 5000 + 2 * Restarts.Delay(a, d)
    ensures k < |events| && RestartsApp(Run(Booted(params, last), before), events, k, a) && Timed(events[k])
    ensures events[k].now as int <= evals[0].now as int + 5000 + 2 * Restarts.Delay(a, d) + d
  {
    hide Run, RestartHistory, Restarts.Frequent, ClockedUpTo, FellSilent, InputsAt, RestartsApp, Seen;
    var m := Run(Booted(params, last), before);
    forall i | 0 <= i < |evals| ensures Restarts.FlagOf(evals[i].timedOut, a) {
      var n := EvaluationOf(m, events, evals, i);
      Restarts.Ordered(evals, d, 0, i);
      SilentIsLate(params, last, before, events, n, a, evals[0].now);
    }
    k := RunsDoNotStarve(params, last, before, events, evals, d, a);
  }

  /** The event behind an evaluation. */
  lemma EvaluationOf(m: Monitor, events: seq<Event>, evals: seq<Restarts.Eval>, i: nat) returns (n: nat)
    requires i < |evals| && RestartHistory(m, events) == Restarts.Items(evals)
    ensures EvaluatedAt(m, events, n)
    ensures evals[i] == Restarts.Eval(events[n].now, TimedOut(InputsAt(m, events, n)), events[n].found)
  {
    hide Run, RestartHistory, InputsAt, Seen, Step;
    n := EventOfItem(m, events, i);
    SeenIsPublished(Run(m, events[..n]), events[n]);
    SchedulerSees(m, events, n);
    assert Restarts.Items(evals)[..i + 1][i] == Restarts.Items(evals)[i];
  }
}
