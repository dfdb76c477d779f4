/**
  The health supervisor: six monitored inputs, a report with a fixed fault priority, a 10 s stability
  timer before NOMINAL is entered again and a 30 s escalation timer from RECOVERY to FAILED.  A timer
  that shows 0 is not running.
 */
module Health {
  import opened Bytes

  const NOMINAL: byte := 0
  const DEGRADED: byte := 1
  const RECOVERY: byte := 2
  const FAILED: byte := 3

  const STABILITY_MS: u32 := 10000
  const ESCALATION_MS: u32 := 30000

  /** Which inputs an evaluation found timed out, invalid or stale. */
  datatype Inputs = Inputs(bridge: bool, ekf: bool, local: bool, attitude: bool, uplink: bool, lora: bool)

  predicate Clear(i: Inputs) {
    !i.bridge && !i.ekf && !i.local && !i.attitude && !i.uplink && !i.lora
  }

  /** The state the supervisor keeps between evaluations; `last` survives a reboot, the timers do not. */
  datatype Memory = Memory(last: byte, recoveryStart: u32, nominalSince: u32)

  datatype Report = Report(health: byte, fault: byte, recoveryRequested: bool)

  /** The fault code of the most important failing input; 0 when all are clear. */
  function FaultCode(i: Inputs): byte {
    if i.bridge then 1 else if i.ekf then 3 else if i.local then 4 else if i.attitude then 5
    else if i.uplink then 6 else if i.lora then 7 else 0
  }

  /** A timer that has been running since `since`, or starts now. */
  function Started(since: u32, now: u32): u32 {
    if since == 0 then now else since
  }

  function HealthOf(m: Memory, i: Inputs, now: u32): byte {
    if i.bridge then
      if Sub32(now, Started(m.recoveryStart, now)) >= ESCALATION_MS then FAILED else RECOVERY
    else if !Clear(i) then DEGRADED
    else if m.last == NOMINAL || Sub32(now, Started(m.nominalSince, now)) >= STABILITY_MS then NOMINAL
    else DEGRADED
  }

  function ReportOf(m: Memory, i: Inputs, now: u32): Report {
    Report(HealthOf(m, i, now), FaultCode(i), i.bridge)
  }

  function Remember(m: Memory, i: Inputs, now: u32): Memory {
    var health := HealthOf(m, i, now);
    Memory(health,
           if i.bridge then Started(m.recoveryStart, now) else 0,
           if Clear(i) && health != NOMINAL then Started(m.nominalSince, now) else 0)
  }

  // ---- Runs ----

  /** An evaluation, or the ground command that resets the counters and with them the escalation timer. */
  datatype Item = Evaluated(now: u32, inputs: Inputs) | CountersReset

  function Apply(m: Memory, i: Item): Memory {
    match i
    case Evaluated(now, inputs) => Remember(m, inputs, now)
    case CountersReset => m.(recoveryStart := 0)
  }

  function After(m: Memory, items: seq<Item>): Memory {
    if items == [] then m else Apply(After(m, items[..|items| - 1]), items[|items| - 1])
  }

  /** The report published by item `k`. */
  function ReportAt(m: Memory, items: seq<Item>, k: nat): Report
    requires k < |items| && items[k].Evaluated?
  {
    ReportOf(After(m, items[..k]), items[k].inputs, items[k].now)
  }

  /** The clock does not run backwards, does not show 0 and does not wrap. */
  ghost predicate Clocked(items: seq<Item>) {
    && (forall k :: 0 <= k < |items| && items[k].Evaluated? ==> 0 < items[k].now)
    && forall j, k | 0 <= j <= k < |items| && items[j].Evaluated? && items[k].Evaluated? ::
         items[j].now <= items[k].now
  }

  /** What the supervisor knows after a boot: the last state from the file, and no running timer. */
  function Booted(last: byte): Memory {
    Memory(last, 0, 0)
  }

  // ---- Timers and streaks ----

  /** What an item does to a condition that is being timed. */
  datatype Mark = Holds(at: u32) | Breaks | Skips

  function BridgeDown(i: Item): Mark {
    match i
    case Evaluated(now, inputs) => if inputs.bridge then Holds(now) else Breaks
    case CountersReset => Breaks
  }

  function AllClear(i: Item): Mark {
    match i
    case Evaluated(now, inputs) => if Clear(inputs) then Holds(now) else Breaks
    case CountersReset => Skips
  }

  /** When the current streak of a condition began; 0 when it does not hold. */
  function Since(items: seq<Item>, f: Item -> Mark): u32 {
    if items == [] then 0
    else
      var before := Since(items[..|items| - 1], f);
      match f(items[|items| - 1])
      case Holds(now) => Started(before, now)
      case Breaks => 0
      case Skips => before
  }

  /** The condition held at item `j` and nothing broke it before item `k`. */
  ghost predicate Streak(items: seq<Item>, f: Item -> Mark, j: int, k: nat) {
    && 0 <= j < k <= |items| && f(items[j]).Holds?
    && forall i :: j <= i < k ==> !f(items[i]).Breaks?
  }

  /** A streak of at least `ms` up to and including item `k`. */
  ghost predicate Lasted(items: seq<Item>, f: Item -> Mark, ms: nat, k: nat)
    requires k < |items| && f(items[k]).Holds?
  {
    exists j :: Streak(items, f, j, k + 1) && f(items[k]).at - f(items[j]).at >= ms
  }

  /** A mark's time is the time of its evaluation. */
  ghost predicate Dated(items: seq<Item>, f: Item -> Mark) {
    forall k :: 0 <= k < |items| && f(items[k]).Holds? ==> items[k].Evaluated? && f(items[k]).at == items[k].now
  }

  /** `Since` names the first item of the streak, and no earlier item belongs to it. */
  lemma {:induction false} SinceFindsTheStart(items: seq<Item>, f: Item -> Mark) returns (j: nat)
    requires Clocked(items) && Dated(items, f)
    ensures Since(items, f) != 0 ==> Streak(items, f, j, |items|) && f(items[j]).at == Since(items, f)
    ensures forall h :: Streak(items, f, h, |items|) ==> 0 < Since(items, f) <= f(items[h]).at
  {
    j := 0;
    if items != [] {
      var n := |items| - 1;
      j := SinceFindsTheStart(items[..n], f);
      assert forall i :: 0 <= i < n ==> items[..n][i] == items[i];
      if f(items[n]).Holds? && Since(items[..n], f) == 0 {
        j := n;
      }
      forall h | Streak(items, f, h, |items|)
        ensures 0 < Since(items, f) <= f(items[h]).at
      {
        assert h < n ==> Streak(items[..n], f, h, n);
      }
    }
  }

  /** A running timer has reached `ms` exactly when the condition has lasted that long. */
  lemma TimerMeasuresStreak(items: seq<Item>, f: Item -> Mark, ms: nat)
    requires items != [] && Clocked(items) && Dated(items, f) && f(items[|items| - 1]).Holds?
    ensures 0 < Since(items, f) <= f(items[|items| - 1]).at
    ensures f(items[|items| - 1]).at - Since(items, f) >= ms <==> Lasted(items, f, ms, |items| - 1)
  {
    var n := |items| - 1;
    var j := SinceFindsTheStart(items, f);
    assert Streak(items, f, n, n + 1);
  }

  /** Both timers of the supervisor are streak timers. */
  lemma {:induction false} TimersAreStreaks(last: byte, items: seq<Item>)
    requires Clocked(items)
    ensures var m := After(Booted(last), items);
      && m.recoveryStart == Since(items, BridgeDown)
      && (if m.last == NOMINAL then m.nominalSince == 0 else m.nominalSince == Since(items, AllClear))
  {
    if items != [] {
      var n := |items| - 1;
      assert forall i :: 0 <= i < n ==> items[..n][i] == items[i];
      TimersAreStreaks(last, items[..n]);
      if items[n].Evaluated? && Clear(items[n].inputs) {
        var m := After(Booted(last), items[..n]);
        assert Started(m.nominalSince, items[n].now) != 0;
      }
    }
  }

  lemma Prefix(items: seq<Item>, f: Item -> Mark, ms: nat, k: nat)
    requires k < |items|
    ensures Clocked(items) ==> Clocked(items[..k]) && Clocked(items[..k + 1])
    ensures f(items[k]).Holds? ==> (Lasted(items[..k + 1], f, ms, k) <==> Lasted(items, f, ms, k))
  {
    var n := k + 1;
    var part := items[..n];
    assert forall i :: 0 <= i <= k ==> part[i] == items[i];
    assert forall j :: Streak(part, f, j, n) <==> Streak(items, f, j, n);
  }

  /** FAILED is published exactly when every evaluation since one at least 30 s earlier found the bridge
      timed out, with no reset of the counters between. */
  lemma FailedExactlyAfter30s(last: byte, items: seq<Item>, k: nat)
    requires Clocked(items) && k < |items| && items[k].Evaluated?
    ensures ReportAt(Booted(last), items, k).health == FAILED
      <==> items[k].inputs.bridge && Lasted(items, BridgeDown, 30000, k)
  {
    var part := items[..k + 1];
    Prefix(items, BridgeDown, 30000, k);
    assert part[..k] == items[..k];
    TimersAreStreaks(last, items[..k]);
    if items[k].inputs.bridge {
      TimerMeasuresStreak(part, BridgeDown, 30000);
    }
  }

  /** NOMINAL is entered again exactly when every evaluation in at least the last 10 s found all six
      inputs healthy. */
  lemma NominalExactlyAfter10s(last: byte, items: seq<Item>, k: nat)
    requires Clocked(items) && k < |items| && items[k].Evaluated?
    requires After(Booted(last), items[..k]).last != NOMINAL
    ensures ReportAt(Booted(last), items, k).health == NOMINAL
      <==> Clear(items[k].inputs) && Lasted(items, AllClear, 10000, k)
  {
    var part := items[..k + 1];
    Prefix(items, AllClear, 10000, k);
    assert part[..k] == items[..k];
    TimersAreStreaks(last, items[..k]);
    if Clear(items[k].inputs) {
      TimerMeasuresStreak(part, AllClear, 10000);
    }
  }

  /** RECOVERY and FAILED never go straight to NOMINAL, not even across a reboot. */
  lemma NeverStraightToNominal(last: byte, items: seq<Item>, k: nat)
    requires Clocked(items) && k < |items| && items[k].Evaluated?
    requires After(Booted(last), items[..k]).last in {RECOVERY, FAILED}
    ensures ReportAt(Booted(last), items, k).health != NOMINAL
  {
    NoClearStreakYet(last, items[..k]);
  }

  lemma {:induction false} NoClearStreakYet(last: byte, items: seq<Item>)
    ensures var m := After(Booted(last), items); m.last in {RECOVERY, FAILED} ==> m.nominalSince == 0
  {
    if items != [] && items[|items| - 1].CountersReset? {
      NoClearStreakYet(last, items[..|items| - 1]);
    }
  }

  // ---- The whole verdict ----

  /** The health state that the last evaluation published; before the first, the one restored at boot. */
  function Published(last: byte, items: seq<Item>): byte {
    if items == [] then last
    else if items[|items| - 1].Evaluated? then ReportAt(Booted(last), items, |items| - 1).health
    else Published(last, items[..|items| - 1])
  }

  lemma {:induction false} LastIsPublished(last: byte, items: seq<Item>)
    ensures After(Booted(last), items).last == Published(last, items)
  {
    hide HealthOf;
    if items != [] && !items[|items| - 1].Evaluated? {
      LastIsPublished(last, items[..|items| - 1]);
    }
  }

  /** All six inputs are healthy, and NOMINAL was published last or they have been so for at least 10 s. */
  ghost predicate Recovered(last: byte, items: seq<Item>, k: nat)
    requires k < |items| && items[k].Evaluated?
  {
    var i := items[k].inputs;
    && !i.bridge && !i.ekf && !i.local && !i.attitude && !i.uplink && !i.lora
    && (Published(last, items[..k]) == 0 || Lasted(items, AllClear, 10000, k))
  }

  /** What is published, in every run: FAILED (3) after 30 s of a late bridge, RECOVERY (2) before that, NOMINAL (0)
      when the inputs have recovered, and DEGRADED (1) in all other cases; a recovery request exactly while the
      bridge is late. */
  lemma HealthIsExactly(last: byte, items: seq<Item>, k: nat)
    requires Clocked(items) && k < |items| && items[k].Evaluated?
    ensures var i, r := items[k].inputs, ReportAt(Booted(last), items, k);
      && (r.health == 3 <==> i.bridge && Lasted(items, BridgeDown, 30000, k))
      && (r.health == 2 <==> i.bridge && !Lasted(items, BridgeDown, 30000, k))
      && (r.health == 0 <==> Recovered(last, items, k))
      && (r.health == 1 <==> !i.bridge && !Recovered(last, items, k))
      && (r.recoveryRequested <==> i.bridge)
  {
    hide Lasted, Clocked, After;
    FailedExactlyAfter30s(last, items, k);
    LastIsPublished(last, items[..k]);
    if After(Booted(last), items[..k]).last != NOMINAL {
      NominalExactlyAfter10s(last, items, k);
    }
  }

  /** The fault code names the first failing input in the order bridge (1), filter (3), position (4),
      attitude (5), command application (6), radio (7), and is 0 when none fails. */
  lemma FaultIsExactly(last: byte, items: seq<Item>, k: nat)
    requires k < |items| && items[k].Evaluated?
    ensures var i, f := items[k].inputs, ReportAt(Booted(last), items, k).fault;
      && (f == 1 <==> i.bridge)
      && (f == 3 <==> !i.bridge && i.ekf)
      && (f == 4 <==> !i.bridge && !i.ekf && i.local)
      && (f == 5 <==> !i.bridge && !i.ekf && !i.local && i.attitude)
      && (f == 6 <==> !i.bridge && !i.ekf && !i.local && !i.attitude && i.uplink)
      && (f == 7 <==> !i.bridge && !i.ekf && !i.local && !i.attitude && !i.uplink && i.lora)
      && (f == 0 <==> !i.bridge && !i.ekf && !i.local && !i.attitude && !i.uplink && !i.lora)
  {
    hide After, HealthOf;
  }
}
