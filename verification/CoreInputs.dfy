/**
  What the six inputs of an evaluation say about the messages that have come: for each application the age of
  its last sign of life, and for each telemetry source the age and the contents of the message with the highest
  sequence number.
 */
module CoreInputs {
  import opened Bytes
  import opened ConfigCommand
  import opened CoreState
  import Health
  import Restarts

  // ---- Kinds of messages ----

  datatype Kind = BridgeLife | UplinkLife | LoraLife | AttitudeState | LocalState | GpsState | EkfState

  /** The event brings a message of the kind. */
  predicate Brings(e: Event, k: Kind) {
    e.Arrived?
    && match k
       case BridgeLife => e.msg.BridgeAlive?
       case UplinkLife => e.msg.UplinkAlive?
       case LoraLife => e.msg.LoraAlive?
       case AttitudeState => e.msg.Attitude?
       case LocalState => e.msg.Local?
       case GpsState => e.msg.Gps?
       case EkfState => e.msg.Ekf?
  }

  /** The last message of the kind came with event `i`. */
  ghost predicate IsLast(events: seq<Event>, k: Kind, i: int) {
    0 <= i < |events| && Brings(events[i], k) && forall j :: i < j < |events| ==> !Brings(events[j], k)
  }

  /** The event that brought the last message of the kind; -1 if none has come. */
  function LastOf(events: seq<Event>, k: Kind): (i: int)
    ensures -1 <= i < |events| && (i >= 0 ==> Brings(events[i], k))
  {
    if events == [] then -1
    else if Brings(events[|events| - 1], k) then |events| - 1
    else LastOf(events[..|events| - 1], k)
  }

  lemma {:induction false} LastOfIsLast(events: seq<Event>, k: Kind, i: int)
    ensures IsLast(events, k, i) <==> LastOf(events, k) == i >= 0
  {
    if events != [] {
      var n := |events| - 1;
      LastOfIsLast(events[..n], k, i);
      assert forall j :: 0 <= j < n ==> events[..n][j] == events[j];
    }
  }

  // ---- Signs of life ----

  /** What one event does to the three signs of life. */
  lemma BeatStep(m: Monitor, e: Event)
    ensures var s := Step(m, e).monitor;
            && s.bridge == (if Brings(e, BridgeLife) then Beat(true, e.msg.lastRxMs) else m.bridge)
            && s.uplink == (if Brings(e, UplinkLife) then Beat(true, e.now) else m.uplink)
            && s.lora == (if Brings(e, LoraLife) then Beat(true, e.now) else m.lora)
  {
    hide Health.Remember, Health.ReportOf, Restarts.Check, Configured, InputsOf, Refreshed, RefreshedFinite;
  }

  /** After any run from boot, the signs of life are those of the last messages. */
  lemma {:induction false} BeatsAreLast(params: Params, last: byte, events: seq<Event>)
    ensures var m := Run(Booted(params, last), events);
            && m.bridge == (if LastOf(events, BridgeLife) < 0 then SILENT
                            else Beat(true, events[LastOf(events, BridgeLife)].msg.lastRxMs))
            && m.uplink == (if LastOf(events, UplinkLife) < 0 then SILENT
                            else Beat(true, events[LastOf(events, UplinkLife)].now))
            && m.lora == (if LastOf(events, LoraLife) < 0 then SILENT
                          else Beat(true, events[LastOf(events, LoraLife)].now))
  {
    hide Step;
    if events != [] {
      BeatsAreLast(params, last, events[..|events| - 1]);
      BeatStep(Run(Booted(params, last), events[..|events| - 1]), events[|events| - 1]);
    }
  }

  /** How long ago `at` was, on a clock of 32 bits. */
  function Age(now: u32, at: u32): int { (now - at) % 0x1_0000_0000 }

  lemma AgeIsDifference(now: u32, at: u32)
    ensures Sub32(now, at) == Age(now, at)
  {
  }

  /** Over any run from boot: an application counts as late exactly when it has never given a sign of life or the
      last one is too old.  The bridge's age is that of the time stamp it reports, under its timeout parameter;
      that of the command and radio applications is that of the arrival, under 5000 ms. */
  lemma LateExactly(params: Params, last: byte, events: seq<Event>, now: u32)
    ensures var m := Run(Booted(params, last), events);
            var i := InputsOf(m, now);
            && (i.bridge <==>
                forall j :: IsLast(events, BridgeLife, j) ==> Age(now, events[j].msg.lastRxMs) > m.params.bridge)
            && (i.uplink <==> forall j :: IsLast(events, UplinkLife, j) ==> Age(now, events[j].now) > 5000)
            && (i.lora <==> forall j :: IsLast(events, LoraLife, j) ==> Age(now, events[j].now) > 5000)
  {
    hide Run, IsLast, LastOf, Unusable, Sub32, Age;
    BeatsAreLast(params, last, events);
    forall at: u32 ensures Sub32(now, at) == Age(now, at) {
      AgeIsDifference(now, at);
    }
    forall j ensures IsLast(events, BridgeLife, j) <==> LastOf(events, BridgeLife) == j >= 0 {
      LastOfIsLast(events, BridgeLife, j);
    }
    forall j ensures IsLast(events, UplinkLife, j) <==> LastOf(events, UplinkLife) == j >= 0 {
      LastOfIsLast(events, UplinkLife, j);
    }
    forall j ensures IsLast(events, LoraLife, j) <==> LastOf(events, LoraLife) == j >= 0 {
      LastOfIsLast(events, LoraLife, j);
    }
  }

  // ---- Telemetry ----

  predicate IsTelemetry(k: Kind) { k in {AttitudeState, LocalState, GpsState, EkfState} }

  /** The event brings a message of the source that is not from the future. */
  predicate Timely(e: Event, k: Kind)
    requires IsTelemetry(k)
  {
    Brings(e, k) && e.msg.g.tsMs as int <= (e.now as int + 5000) % 0x1_0000_0000
  }

  /** Event `i` brought the newest message of the source: of those not from the future, the first that has the
      highest sequence number. */
  ghost predicate IsNewest(events: seq<Event>, k: Kind, i: int)
    requires IsTelemetry(k)
  {
    && 0 <= i < |events| && Timely(events[i], k)
    && forall j :: 0 <= j < |events| && Timely(events[j], k) ==>
         if j < i then events[j].msg.g.seqNo < events[i].msg.g.seqNo
         else events[j].msg.g.seqNo <= events[i].msg.g.seqNo
  }

  function NewestOf(events: seq<Event>, k: Kind): (i: int)
    requires IsTelemetry(k)
    ensures -1 <= i < |events| && (i >= 0 ==> Timely(events[i], k))
  {
    if events == [] then -1
    else
      var n, before := |events| - 1, NewestOf(events[..|events| - 1], k);
      if Timely(events[n], k) && (before < 0 || events[n].msg.g.seqNo > events[before].msg.g.seqNo) then n else before
  }

  lemma {:induction false} NewestOfIsNewest(events: seq<Event>, k: Kind, i: int)
    requires IsTelemetry(k)
    ensures IsNewest(events, k, i) <==> NewestOf(events, k) == i >= 0
    ensures NewestOf(events, k) < 0 ==> forall j :: 0 <= j < |events| ==> !Timely(events[j], k)
  {
    hide Timely;
    if events != [] {
      var n := |events| - 1;
      var before := NewestOf(events[..n], k);
      NewestOfIsNewest(events[..n], k, i);
      NewestOfIsNewest(events[..n], k, before);
      assert forall j :: 0 <= j < n ==> events[..n][j] == events[j];
    }
  }

  function CacheFor(m: Monitor, k: Kind): Cache
    requires IsTelemetry(k)
  {
    match k
    case AttitudeState => m.attitude
    case LocalState => m.local
    case GpsState => m.gps
    case EkfState => m.ekf
  }

  predicate LooksAtNumbers(k: Kind) { k.AttitudeState? || k.LocalState? }

  /** A message with a number that is not finite has come from the source since event `i`, even if it was refused;
      only attitude and position messages are looked at. */
  ghost predicate Spoilt(events: seq<Event>, k: Kind, i: int) {
    LooksAtNumbers(k) && exists j :: SpoilsAt(events, k, i, j)
  }

  ghost predicate SpoilsAt(events: seq<Event>, k: Kind, i: int, j: int) {
    i <= j && 0 <= j < |events| && LooksAtNumbers(k) && Brings(events[j], k) && !events[j].msg.g.finite
  }

  lemma SpoiltAppends(events: seq<Event>, k: Kind, i: int)
    requires events != []
    ensures var n := |events| - 1;
            Spoilt(events, k, i) <==> Spoilt(events[..n], k, i) || SpoilsAt(events, k, i, n)
  {
    hide Brings;
    var n := |events| - 1;
    forall j | j < n ensures SpoilsAt(events, k, i, j) <==> SpoilsAt(events[..n], k, i, j) {
      assert 0 <= j ==> events[..n][j] == events[j];
    }
    assert !SpoilsAt(events[..n], k, i, n);
  }

  /** What one event does to a cache. */
  lemma CacheStep(m: Monitor, e: Event, k: Kind)
    requires IsTelemetry(k)
    ensures var c, d := CacheFor(m, k), CacheFor(Step(m, e).monitor, k);
            var kept := if Brings(e, k) && LooksAtNumbers(k) && !e.msg.g.finite then c.(valid := false) else c;
            if Timely(e, k) && (!c.received || e.msg.g.seqNo > c.seqNo) then
              var g := e.msg.g;
              d == Cache(true, g.tsMs, e.now, g.seqNo, g.valid && (LooksAtNumbers(k) ==> g.finite), g.stale,
                         g.errorCode)
            else d == kept
  {
    hide Health.Remember, Health.ReportOf, Restarts.Check, Configured, InputsOf;
  }

  /** After any run from boot, every cache shows the newest message of its source, and is invalid if that message
      says so or one that is not finite has come since. */
  lemma {:induction false} CacheIsNewest(params: Params, last: byte, events: seq<Event>, k: Kind)
    requires IsTelemetry(k)
    ensures var c, i := CacheFor(Run(Booted(params, last), events), k), NewestOf(events, k);
            if i < 0 then !c.received
            else
              var g := events[i].msg.g;
              c == Cache(true, g.tsMs, events[i].now, g.seqNo, g.valid && !Spoilt(events, k, i), g.stale, g.errorCode)
  {
    hide Step, Brings, Spoilt;
    if events != [] {
      var n := |events| - 1;
      CacheIsNewest(params, last, events[..n], k);
      CacheStep(Run(Booted(params, last), events[..n]), events[n], k);
      SpoiltAppends(events, k, NewestOf(events, k));
      NothingSpoilt(events[..n], k, n);
    }
  }

  lemma NothingSpoilt(events: seq<Event>, k: Kind, i: int)
    requires i >= |events|
    ensures !Spoilt(events, k, i)
  {
  }

  /** The newest message of the source, if any, is too old, invalid, stale, or followed by one with a number that is
      not finite. */
  ghost predicate NoneIsGood(events: seq<Event>, k: Kind, now: u32, timeout: u32)
    requires IsTelemetry(k)
  {
    forall i :: IsNewest(events, k, i) ==>
      || Age(now, events[i].now) > timeout || !events[i].msg.g.valid || events[i].msg.g.stale != 0
      || (k != EkfState && exists j :: i <= j < |events| && Brings(events[j], k) && !events[j].msg.g.finite)
  }

  /** Over any run from boot: a telemetry input counts as failed exactly when no message of its source has come that
      was not from the future, or the newest one is too old, invalid, stale, or followed by one that is not finite;
      numbers in filter messages are not looked at. */
  lemma FailedExactly(params: Params, last: byte, events: seq<Event>, now: u32)
    ensures var m := Run(Booted(params, last), events);
            var f := InputsOf(m, now);
            && (f.ekf <==> NoneIsGood(events, EkfState, now, m.params.ekf))
            && (f.local <==> NoneIsGood(events, LocalState, now, m.params.local))
            && (f.attitude <==> NoneIsGood(events, AttitudeState, now, m.params.attitude))
  {
    hide Run, Late, Unusable, NoneIsGood;
    Failed(params, last, events, now, EkfState);
    Failed(params, last, events, now, LocalState);
    Failed(params, last, events, now, AttitudeState);
  }

  function TimeoutFor(p: Params, k: Kind): u32
    requires IsTelemetry(k)
  {
    match k
    case AttitudeState => p.attitude
    case LocalState => p.local
    case GpsState => p.gps
    case EkfState => p.ekf
  }

  lemma Failed(params: Params, last: byte, events: seq<Event>, now: u32, k: Kind)
    requires IsTelemetry(k) && k != GpsState
    ensures var m := Run(Booted(params, last), events);
            Unusable(CacheFor(m, k), now, TimeoutFor(m.params, k))
            <==> NoneIsGood(events, k, now, TimeoutFor(m.params, k))
  {
    hide Run, Spoilt, Sub32, Age;
    CacheIsNewest(params, last, events, k);
    forall i ensures IsNewest(events, k, i) <==> NewestOf(events, k) == i >= 0 {
      NewestOfIsNewest(events, k, i);
    }
    var i := NewestOf(events, k);
    if i >= 0 {
      assert IsNewest(events, k, i);
      AgeIsDifference(now, events[i].now);
      SpoiltMeans(events, k, i);
    }
  }

  lemma SpoiltMeans(events: seq<Event>, k: Kind, i: int)
    requires 0 <= i && k != GpsState && IsTelemetry(k)
    ensures Spoilt(events, k, i)
            <==> k != EkfState && exists j :: i <= j < |events| && Brings(events[j], k) && !events[j].msg.g.finite
  {
    if k != EkfState {
      forall j | i <= j < |events| && Brings(events[j], k) && !events[j].msg.g.finite
        ensures SpoilsAt(events, k, i, j)
      {
      }
    }
  }
}
