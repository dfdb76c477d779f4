/**
  The automatic restart scheduler: three applications in a fixed priority, one restart per
  evaluation, a cooldown of 5000 ms, and a timer per application in which 0 means "not running".
 */
module Restarts {
  import opened Bytes

  const INTERVAL_MS: u32 := 5000

  datatype App = Bridge | Uplink | Lora

  function Rank(a: App): nat {
    match a
    case Bridge => 0
    case Uplink => 1
    case Lora => 2
  }

  /** A flag per application. */
  datatype Flags = Flags(bridge: bool, uplink: bool, lora: bool)

  function FlagOf(f: Flags, a: App): bool {
    match a
    case Bridge => f.bridge
    case Uplink => f.uplink
    case Lora => f.lora
  }

  datatype Timers = Timers(bridge: u32, uplink: u32, lora: u32)

  function NextOf(t: Timers, a: App): u32 {
    match a
    case Bridge => t.bridge
    case Uplink => t.uplink
    case Lora => t.lora
  }

  const NO_TIMERS: Timers := Timers(0, 0, 0)

  /** One evaluation: the clock, which applications are timed out, which lookups would succeed. */
  datatype Eval = Eval(now: u32, timedOut: Flags, found: Flags)

  /** The timer of one application after its turn. */
  function Armed(next: u32, timedOut: bool, now: u32): u32 {
    if !timedOut then 0 else if next == 0 then Add32(now, INTERVAL_MS) else next
  }

  predicate Due(next: u32, timedOut: bool, found: bool, now: u32) {
    timedOut && now >= Armed(next, timedOut, now) && found
  }

  function AfterTurn(next: u32, timedOut: bool, found: bool, now: u32): u32 {
    if Due(next, timedOut, found, now) then Add32(now, INTERVAL_MS) else Armed(next, timedOut, now)
  }

  datatype Checked = Checked(timers: Timers, restarted: Option<App>)

  /** Lower priorities get no turn in an evaluation that has issued a restart. */
  function Check(t: Timers, e: Eval): Checked {
    var b := AfterTurn(t.bridge, e.timedOut.bridge, e.found.bridge, e.now);
    if Due(t.bridge, e.timedOut.bridge, e.found.bridge, e.now) then Checked(t.(bridge := b), Some(Bridge))
    else
      var u := AfterTurn(t.uplink, e.timedOut.uplink, e.found.uplink, e.now);
      if Due(t.uplink, e.timedOut.uplink, e.found.uplink, e.now)
      then Checked(t.(bridge := b, uplink := u), Some(Uplink))
      else
        var l := AfterTurn(t.lora, e.timedOut.lora, e.found.lora, e.now);
        Checked(Timers(b, u, l), if Due(t.lora, e.timedOut.lora, e.found.lora, e.now) then Some(Lora) else None)
  }

  // ---- Runs ----

  /** An evaluation, or a ground command that clears all timers. */
  datatype Item = Evaluated(e: Eval) | TimersCleared

  function Apply(t: Timers, i: Item): Checked {
    match i
    case Evaluated(e) => Check(t, e)
    case TimersCleared => Checked(NO_TIMERS, None)
  }

  function After(t: Timers, items: seq<Item>): Timers {
    if items == [] then t else Apply(After(t, items[..|items| - 1]), items[|items| - 1]).timers
  }

  /** The automatic restart issued by item `i`. */
  function RestartAt(t: Timers, items: seq<Item>, i: nat): Option<App>
    requires i < |items|
  {
    Apply(After(t, items[..i]), items[i]).restarted
  }

  predicate ValidTime(now: u32) { 0 < now < 0xFFFF_0000 }

  /** The clock runs forward, does not show 0 and does not wrap. */
  ghost predicate Clocked(items: seq<Item>) {
    && (forall i :: 0 <= i < |items| && items[i].Evaluated? ==> ValidTime(items[i].e.now))
    && forall i, j | 0 <= i <= j < |items| && items[i].Evaluated? && items[j].Evaluated? ::
         items[i].e.now <= items[j].e.now
  }

  // ---- Spacing ----

  lemma CheckAt(t: Timers, e: Eval, a: App)
    requires ValidTime(e.now)
    ensures var c := Check(t, e); var next := NextOf(c.timers, a);
      && (c.restarted == Some(a) ==> NextOf(t, a) != 0 && e.now >= NextOf(t, a) && next == e.now + INTERVAL_MS)
      && (c.restarted != Some(a) ==> next == 0 || next == NextOf(t, a) || next == e.now + INTERVAL_MS)
  {
  }

  /** After a restart at time `since`, the timer is off or at least 5000 ms later than `since`. */
  lemma {:induction false} TimerStaysAhead(t: Timers, items: seq<Item>, i: nat, j: nat, a: App)
    requires Clocked(items) && i < j <= |items| && RestartAt(t, items, i) == Some(a)
    ensures var next := NextOf(After(t, items[..j]), a); next == 0 || next >= items[i].e.now + INTERVAL_MS
    decreases j
  {
    hide Check;
    assert items[..j][..j - 1] == items[..j - 1];
    if items[j - 1].Evaluated? {
      CheckAt(After(t, items[..j - 1]), items[j - 1].e, a);
    }
    if j > i + 1 {
      TimerStaysAhead(t, items, i, j - 1, a);
    }
  }

  /** Two automatic restarts of one application are at least 5000 ms apart, even when ground commands
      clear the timers between them. */
  lemma RestartsAreSpaced(t: Timers, items: seq<Item>, i: nat, j: nat, a: App)
    requires Clocked(items) && i < j < |items|
    requires RestartAt(t, items, i) == Some(a) && RestartAt(t, items, j) == Some(a)
    ensures items[i].Evaluated? && items[j].Evaluated? && items[j].e.now - items[i].e.now >= 5000
  {
    TimerStaysAhead(t, items, i, j, a);
    CheckAt(After(t, items[..j]), items[j].e, a);
  }

  // ---- No starvation ----

  function Items(evals: seq<Eval>): seq<Item> {
    seq(|evals|, i requires 0 <= i < |evals| => Evaluated(evals[i]))
  }

  function State(t: Timers, evals: seq<Eval>, i: nat): Timers
    requires i <= |evals|
  {
    After(t, Items(evals)[..i])
  }

  function Restarted(t: Timers, evals: seq<Eval>, i: nat): Option<App>
    requires i < |evals|
  {
    RestartAt(t, Items(evals), i)
  }

  /** Evaluations at most `d` ms apart, with 2 d below the cooldown. */
  ghost predicate Frequent(evals: seq<Eval>, d: nat) {
    && 2 * d < 5000 && Clocked(Items(evals))
    && forall i :: 0 <= i < |evals| - 1 ==> evals[i].now <= evals[i + 1].now <= evals[i].now + d
  }

  /** The application stays timed out and its lookups succeed. */
  ghost predicate StaysDown(evals: seq<Eval>, a: App) {
    forall i :: 0 <= i < |evals| ==> FlagOf(evals[i].timedOut, a) && FlagOf(evals[i].found, a)
  }

  lemma StateStep(t: Timers, evals: seq<Eval>, i: nat)
    requires i < |evals|
    ensures State(t, evals, i + 1) == Check(State(t, evals, i), evals[i]).timers
    ensures Restarted(t, evals, i) == Check(State(t, evals, i), evals[i]).restarted
  {
    assert Items(evals)[..i + 1][..i] == Items(evals)[..i];
  }

  lemma Near(evals: seq<Eval>, d: nat, i: nat, j: nat)
    requires Frequent(evals, d) && i <= j < |evals| && j - i <= 2
    ensures evals[i].now <= evals[j].now
    ensures evals[j].now as int <= evals[i].now as int + (if j == i then 0 else if j == i + 1 then d else 2 * d)
  {
    if j == i + 2 {
      assert evals[i + 1].now <= evals[i + 2].now;
    }
  }

  /** A restart of a higher priority takes the turn away. */
  predicate Preempted(t: Timers, evals: seq<Eval>, i: nat, a: App)
    requires i < |evals|
  {
    Restarted(t, evals, i).Some? && Rank(Restarted(t, evals, i).value) < Rank(a)
  }

  lemma SameAppTooClose(t: Timers, evals: seq<Eval>, d: nat, i: nat, j: nat)
    requires Frequent(evals, d) && i < j < |evals| && j - i <= 2
    ensures Restarted(t, evals, i) == None || Restarted(t, evals, i) != Restarted(t, evals, j)
  {
    if Restarted(t, evals, i).Some? && Restarted(t, evals, i) == Restarted(t, evals, j) {
      RestartsAreSpaced(t, Items(evals), i, j, Restarted(t, evals, i).value);
      Near(evals, d, i, j);
    }
  }

  /** Of `Rank(a) + 1` evaluations in a row, one is not preempted. */
  lemma FreeTurn(t: Timers, evals: seq<Eval>, d: nat, i: nat, a: App) returns (k: nat)
    requires Frequent(evals, d) && i + Rank(a) < |evals|
    ensures i <= k <= i + Rank(a) && !Preempted(t, evals, k, a)
  {
    k := i;
    if Preempted(t, evals, i, a) {
      k := i + 1;
      SameAppTooClose(t, evals, d, i, i + 1);
      if Preempted(t, evals, i + 1, a) {
        k := i + 2;
        SameAppTooClose(t, evals, d, i, i + 2);
        SameAppTooClose(t, evals, d, i + 1, i + 2);
      }
    }
  }

  /** One evaluation, seen by an application that is down. */
  lemma DownTurn(t: Timers, e: Eval, a: App)
    requires ValidTime(e.now) && FlagOf(e.timedOut, a) && FlagOf(e.found, a)
    ensures var c := Check(t, e); var before, after := NextOf(t, a), NextOf(c.timers, a);
      && (c.restarted.Some? && Rank(c.restarted.value) < Rank(a) ==> after == before)
      && (!(c.restarted.Some? && Rank(c.restarted.value) <= Rank(a)) ==>
            after == (if before == 0 then e.now + INTERVAL_MS else before) && e.now < after)
      && (c.restarted == Some(a) || (c.restarted.Some? && Rank(c.restarted.value) < Rank(a)) || c.restarted == None
           || Rank(c.restarted.value) > Rank(a))
  {
  }

  /** The timer, once running, stands still until the application is restarted. */
  lemma {:induction false} TimerHolds(t: Timers, evals: seq<Eval>, d: nat, a: App, i: nat, j: nat)
    requires Frequent(evals, d) && StaysDown(evals, a) && i <= j <= |evals|
    requires NextOf(State(t, evals, i), a) != 0
    requires forall k :: i <= k < j ==> Restarted(t, evals, k) != Some(a)
    ensures NextOf(State(t, evals, j), a) == NextOf(State(t, evals, i), a)
    decreases j
  {
    if j > i {
      TimerHolds(t, evals, d, a, i, j - 1);
      StateStep(t, evals, j - 1);
      assert ValidTime(Items(evals)[j - 1].e.now);
      DownTurn(State(t, evals, j - 1), evals[j - 1], a);
    }
  }

  /** Before its timer runs, a down application's timer is what it was or 0. */
  lemma {:induction false} TimerBefore(t: Timers, evals: seq<Eval>, d: nat, a: App, i: nat)
    requires Frequent(evals, d) && StaysDown(evals, a) && 0 < |evals| && i <= |evals|
    requires NextOf(t, a) as int <= evals[0].now as int + 5000
    requires forall k :: 0 <= k < i ==> Restarted(t, evals, k) != Some(a)
    ensures NextOf(State(t, evals, i), a) as int <= (if i == 0 then evals[0].now else evals[i - 1].now) as int + 5000
    decreases i
  {
    if i == 0 {
      assert Items(evals)[..0] == [];
    } else {
      TimerBefore(t, evals, d, a, i - 1);
      StateStep(t, evals, i - 1);
      assert ValidTime(Items(evals)[i - 1].e.now);
      DownTurn(State(t, evals, i - 1), evals[i - 1], a);
      Near(evals, d, if i == 1 then 0 else i - 2, i - 1);
    }
  }

  lemma {:induction false} FirstAtOrAfter(evals: seq<Eval>, d: nat, from: nat, time: nat) returns (k: nat)
    requires Frequent(evals, d) && from < |evals| && evals[from].now as int < time <= evals[|evals| - 1].now as int
    ensures from < k < |evals| && time <= evals[k].now as int < time + d
    decreases |evals| - from
  {
    if from + 1 == |evals| {
      k := from;
    } else if evals[from + 1].now as int >= time {
      k := from + 1;
    } else {
      k := FirstAtOrAfter(evals, d, from + 1, time);
    }
  }

  /** How long higher priorities can hold an application up, twice over. */
  function Delay(a: App, d: nat): nat {
    match a
    case Bridge => 0
    case Uplink => d
    case Lora => 2 * d
  }

  /** No starvation: an application that stays down is restarted within 5000 ms and d, 3 d or 5 d ms
      (bridge, uplink, lora) of the first evaluation that saw it down, whatever the other two
      applications do.  The evaluations must go on for long enough to see it. */
  lemma NoStarvation(t: Timers, evals: seq<Eval>, d: nat, a: App) returns (i: nat)
    requires Frequent(evals, d) && StaysDown(evals, a) && evals != []
    requires NextOf(t, a) as int <= evals[0].now as int + 5000
    requires evals[|evals| - 1].now as int >= evals[0].now as int + 5000 + 2 * Delay(a, d)
    ensures i < |evals| && Restarted(t, evals, i) == Some(a)
    ensures evals[i].now as int <= evals[0].now as int + 5000 + 2 * Delay(a, d) + d
  {
    hide Restarted, Preempted, Frequent, StaysDown, State, NextOf, Items, Clocked;
    var p := Rank(a);
    LongEnough(evals, d, 0, p);
    var f := FreeTurn(t, evals, d, 0, a);
    Near(evals, d, 0, f);
    if k :| 0 <= k <= f && Restarted(t, evals, k) == Some(a) {
      Near(evals, d, 0, k);
      i := k;
    } else {
      var next := ArmedBy(t, evals, d, a, f);
      var k := FirstAtOrAfter(evals, d, f, next);
      LongEnough(evals, d, k, p);
      Near(evals, d, k, k + p);
      i := RestartedOnceDue(t, evals, d, a, f, k, next);
      Ordered(evals, d, i, k + p);
    }
  }

  /** A run that goes on for more than `p - 1` gaps has at least `p` further evaluations. */
  lemma LongEnough(evals: seq<Eval>, d: nat, k: nat, p: nat)
    requires Frequent(evals, d) && k < |evals| && p <= 2
    requires p > 0 ==> evals[|evals| - 1].now as int > evals[k].now as int + (if p == 2 then d else 0)
    ensures k + p < |evals|
  {
    if k + p >= |evals| {
      Near(evals, d, k, |evals| - 1);
    }
  }

  lemma Ordered(evals: seq<Eval>, d: nat, i: nat, j: nat)
    requires Frequent(evals, d) && i <= j < |evals|
    ensures evals[i].now <= evals[j].now
  {
    var items := Items(evals);
    assert items[i].e.now <= items[j].e.now;
  }

  /** After a free turn without a restart the timer is running and not yet due. */
  lemma ArmedBy(t: Timers, evals: seq<Eval>, d: nat, a: App, f: nat) returns (next: nat)
    requires Frequent(evals, d) && StaysDown(evals, a) && f < |evals|
    requires NextOf(t, a) as int <= evals[0].now as int + 5000
    requires forall k :: 0 <= k <= f ==> Restarted(t, evals, k) != Some(a)
    requires !Preempted(t, evals, f, a)
    ensures next == NextOf(State(t, evals, f + 1), a) && next != 0
    ensures evals[f].now as int < next <= evals[f].now as int + 5000
  {
    TimerBefore(t, evals, d, a, f);
    if f > 0 {
      Near(evals, d, f - 1, f);
    }
    StateStep(t, evals, f);
    assert ValidTime(Items(evals)[f].e.now);
    DownTurn(State(t, evals, f), evals[f], a);
    next := NextOf(State(t, evals, f + 1), a);
  }

  /** From evaluation `k` on the timer is due, so the next free turn restarts the application. */
  lemma RestartedOnceDue(t: Timers, evals: seq<Eval>, d: nat, a: App, f: nat, k: nat, next: nat) returns (i: nat)
    requires Frequent(evals, d) && StaysDown(evals, a) && f < k && k + Rank(a) < |evals|
    requires next == NextOf(State(t, evals, f + 1), a) && next != 0 && evals[k].now as int >= next
    ensures f < i <= k + Rank(a) && Restarted(t, evals, i) == Some(a)
  {
    var g := FreeTurn(t, evals, d, k, a);
    if j :| f < j < g && Restarted(t, evals, j) == Some(a) {
      i := j;
    } else {
      i := g;
      TimerHolds(t, evals, d, a, f + 1, g);
      StateStep(t, evals, g);
      assert ValidTime(Items(evals)[g].e.now);
      DownTurn(State(t, evals, g), evals[g], a);
      Ordered(evals, d, k, g);
    }
  }

  /** The timer bound `NoStarvation` starts from holds in every reachable state. */
  lemma {:induction false} TimersAreBounded(items: seq<Item>, now: u32, a: App)
    requires Clocked(items + [Evaluated(Eval(now, Flags(false, false, false), Flags(false, false, false)))])
    ensures NextOf(After(NO_TIMERS, items), a) as int <= now as int + 5000
  {
    var last := Evaluated(Eval(now, Flags(false, false, false), Flags(false, false, false)));
    if items != [] {
      var n := |items| - 1;
      var all := items + [last];
      var init := items[..n];
      assert forall i :: 0 <= i < n ==> (init + [last])[i] == all[i];
      assert (init + [last])[n] == all[n + 1];
      TimersAreBounded(init, now, a);
      if items[n].Evaluated? {
        assert all[n].e.now <= all[n + 1].e.now;
        CheckAt(After(NO_TIMERS, init), items[n].e, a);
      }
    }
  }

  // ---- The exact condition of a restart ----

  /** Evaluation `i` gives the application a turn: it restarts none of higher priority. */
  ghost predicate GetsTurn(items: seq<Item>, a: App, i: nat)
    requires i < |items|
  {
    && items[i].Evaluated?
    && match a
       case Bridge => true
       case Uplink => RestartAt(NO_TIMERS, items, i) != Some(Bridge)
       case Lora => RestartAt(NO_TIMERS, items, i) !in {Some(Bridge), Some(Uplink)}
  }

  ghost predicate DownAt(items: seq<Item>, a: App, i: nat)
    requires i < |items|
  {
    items[i].Evaluated? && FlagOf(items[i].e.timedOut, a)
  }

  /** The application had a turn at `j` and was down; in every turn since it was down as well, and neither was it
      restarted nor were the timers cleared. */
  ghost predicate DownSince(items: seq<Item>, a: App, j: int, n: nat)
    requires n <= |items|
  {
    && 0 <= j < n && GetsTurn(items, a, j) && DownAt(items, a, j)
    && forall i :: j < i < n ==> StillDown(items, a, i)
  }

  ghost predicate StillDown(items: seq<Item>, a: App, i: nat)
    requires i < |items|
  {
    && items[i].Evaluated? && (GetsTurn(items, a, i) ==> DownAt(items, a, i))
    && RestartAt(NO_TIMERS, items, i) != Some(a)
  }

  /** One turn of one application, or an evaluation that gives it none. */
  lemma TurnAt(items: seq<Item>, a: App, i: nat)
    requires Clocked(items) && i < |items|
    ensures var before, after := NextOf(After(NO_TIMERS, items[..i]), a), NextOf(After(NO_TIMERS, items[..i + 1]), a);
            var r := RestartAt(NO_TIMERS, items, i);
            if !items[i].Evaluated? then after == 0 && r == None
            else if !GetsTurn(items, a, i) then after == before && r != Some(a)
            else if !DownAt(items, a, i) then after == 0 && r != Some(a)
            else
              var now := items[i].e.now;
              && (r == Some(a) <==> FlagOf(items[i].e.found, a) && before != 0 && now >= before)
              && after as int == if r == Some(a) || before == 0 then now as int + 5000 else before as int
  {
    assert items[..i + 1][..i] == items[..i];
  }

  /** The timer runs exactly while the application has been down since some turn, and shows the first. */
  lemma {:induction false} TimerIsDownSince(items: seq<Item>, a: App, n: nat) returns (j: nat)
    requires Clocked(items) && n <= |items|
    ensures var next := NextOf(After(NO_TIMERS, items[..n]), a);
            && (next != 0 ==> DownSince(items, a, j, n) && next as int == items[j].e.now as int + 5000)
            && forall h :: DownSince(items, a, h, n) ==> next != 0 && next as int <= items[h].e.now as int + 5000
    decreases n
  {
    hide GetsTurn, RestartAt, After, NextOf;
    if n == 0 {
      j := 0;
      NoTimers(a);
      assert items[..0] == [];
    } else {
      j := TimerIsDownSince(items, a, n - 1);
      TurnAt(items, a, n - 1);
      var next := NextOf(After(NO_TIMERS, items[..n - 1]), a);
      if DownSince(items, a, n - 1, n) && (next == 0 || RestartAt(NO_TIMERS, items, n - 1) == Some(a)) {
        j := n - 1;
      }
      var next' := NextOf(After(NO_TIMERS, items[..n]), a);
      forall h | DownSince(items, a, h, n) ensures next' != 0 && next' as int <= items[h].e.now as int + 5000
      {
        if h < n - 1 {
          assert DownSince(items, a, h, n - 1) && StillDown(items, a, n - 1);
        } else if j != h {
          assert items[j].e.now <= items[h].e.now;
        }
      }
    }
  }

  lemma NoTimers(a: App)
    ensures NextOf(After(NO_TIMERS, []), a) == 0
  {
  }

  /** Exactly when an application is restarted, in every history from a boot: it has its turn, is down, its lookup
      succeeds, and it has been down in all its turns since one at least 5000 ms earlier, without a restart of
      its own or a reset of the timers after that. */
  lemma RestartedExactly(items: seq<Item>, a: App, i: nat)
    requires Clocked(items) && i < |items| && items[i].Evaluated?
    ensures RestartAt(NO_TIMERS, items, i) == Some(a)
            <==> && GetsTurn(items, a, i) && FlagOf(items[i].e.timedOut, a) && FlagOf(items[i].e.found, a)
                 && exists j :: DownSince(items, a, j, i) && items[i].e.now - items[j].e.now >= 5000
  {
    hide RestartAt, After, NextOf, GetsTurn, DownSince;
    var j := TimerIsDownSince(items, a, i);
    TurnAt(items, a, i);
    if RestartAt(NO_TIMERS, items, i) == Some(a) {
      assert DownSince(items, a, j, i);
    }
  }
}
