/**
  The replay window over whole runs, in which any save may fail.  The 16-bit sequence number is followed
  by an unwrapped counter that no counter reset moves, and no reboot that finds the last number saved.
 */
module Replay {
  import opened Bytes
  import opened Uplink2
  import opened UplinkRules
  import opened UplinkState
  import UplinkFile

  /** The state before event `k`. */
  function At(s: System, events: seq<Event>, k: nat): System
    requires ValidEvents(events) && k <= |events|
  {
    Run(s, events[..k])
  }

  predicate AcceptsAt(s: System, events: seq<Event>, k: nat)
    requires ValidEvents(events) && k < |events|
  {
    assert events[k] in events;
    Accepts(At(s, events, k), events[k])
  }

  lemma AtNext(s: System, events: seq<Event>, k: nat)
    requires ValidEvents(events) && k < |events|
    ensures ValidEvent(events[k]) && At(s, events, k + 1) == Step(At(s, events, k), events[k])
  {
    hide Step;
    assert events[k] in events;
    assert events[..k + 1][..k] == events[..k] && events[..k + 1][k] == events[k];
  }

  // ---- One step ----

  lemma AcceptedMoves(s: System, e: Event)
    requires ValidEvent(e) && Accepts(s, e)
    ensures Step(s, e).mem.window.last == e.c.seqNo && Step(s, e).mem.window.accepted == Inc32(s.mem.window.accepted)
    ensures s.mem.window.accepted != 0 ==> 1 <= Ahead(Low16(s.mem.window.last), e.c.seqNo) <= 32767
  {
    hide Prepare, UplinkFile.Print, UplinkFile.Load, ProxyCrc, Authorized, Blocked, Complaint;
  }

  /** Nothing but an acceptance and a reboot moves the window; a reboot takes it from the file. */
  lemma OthersStay(s: System, e: Event)
    requires ValidEvent(e) && !Accepts(s, e)
    ensures !e.Reboot? ==> Step(s, e).mem.window == s.mem.window
    ensures e.Reboot? ==> Step(s, e).mem.window == Window(if Loadable(s.file) then 1 else 0, FileNumber(s.file))
  {
    hide Decide, Prepare, UplinkFile.Print, UplinkFile.Load;
  }

  /** The number in the file, and whether it is a good one. */
  lemma FileMoves(s: System, e: Event)
    requires ValidEvent(e)
    ensures Saves(s, e) ==> Loadable(Step(s, e).file) && FileNumber(Step(s, e).file) == Step(s, e).mem.window.last
    ensures !Saves(s, e) ==> Step(s, e).file == s.file
    ensures e.Reboot? ==> FileNumber(Step(s, e).file) == FileNumber(s.file)
  {
    hide Step, Saves, Imaged, Image, UplinkFile.Load, FileNumber, Accepts, Loadable;
    SaveWrites(s, e);
    if Saves(s, e) {
      LoadsSave(s, e);
    }
    if e.Reboot? {
      RebootIsNoAcceptance(s, e);
      OthersStay(s, e);
    }
  }

  lemma RebootIsNoAcceptance(s: System, e: Event)
    requires ValidEvent(e)
    ensures Accepts(s, e) ==> e.Uplink?
  {
    hide Decide;
  }

  // ---- Whose number the window and the file hold ----

  /** The acceptance whose number the window holds before event `n`: the last one, unless a reboot has gone
      back to the one that was saved.  `None` stands for the number the run began with. */
  function Current(s: System, events: seq<Event>, n: nat): Option<nat>
    requires ValidEvents(events) && n <= |events|
    decreases n, 0
  {
    if n == 0 then None
    else if AcceptsAt(s, events, n - 1) then Some(n - 1)
    else if events[n - 1].Reboot? then Stored(s, events, n - 1)
    else Current(s, events, n - 1)
  }

  /** The acceptance whose number the file holds: that of the window when a save last went through. */
  function Stored(s: System, events: seq<Event>, n: nat): Option<nat>
    requires ValidEvents(events) && n <= |events|
    decreases n, 1
  {
    if n == 0 then None
    else if !events[n - 1].Reboot? && SavesAt(s, events, n - 1) then Current(s, events, n)
    else Stored(s, events, n - 1)
  }

  function NumberOf(s: System, events: seq<Event>, j: Option<nat>): u32
    requires j.Some? ==> j.value < |events|
  {
    if j.Some? && events[j.value].Uplink? then events[j.value].c.seqNo else s.mem.window.last
  }

  /** The run begins with the number that its file holds. */
  ghost predicate Rooted(s: System) {
    && FileNumber(s.file) == s.mem.window.last
    && (s.mem.window.accepted != 0 ==> Loadable(s.file))
  }

  /** So does every boot, whether its saves go through or not. */
  lemma BootIsRooted(file: Option<seq<byte>>, now: u32, reason: byte, saves: BootSaves)
    ensures Rooted(SystemBooted(file, now, reason, saves))
    ensures SystemBooted(file, now, reason, saves).mem.window
            == Window(if Loadable(file) then 1 else 0, FileNumber(file))
  {
    hide UplinkFile.Load, UplinkFile.Print;
    LoadImage(Booted(file, now, reason));
    LoadImage(BootCounted(file));
  }

  lemma Precedes(s: System, events: seq<Event>, n: nat)
    requires ValidEvents(events) && n <= |events|
    ensures var j := Current(s, events, n); j.Some? ==> j.value < n && AcceptsAt(s, events, j.value)
    ensures var j := Stored(s, events, n); j.Some? ==> j.value < n && AcceptsAt(s, events, j.value)
    decreases n
  {
    hide AcceptsAt, SavesAt;
    if n > 0 {
      Precedes(s, events, n - 1);
    }
  }

  lemma AcceptsCommand(s: System, events: seq<Event>, k: nat)
    requires ValidEvents(events) && k < |events| && AcceptsAt(s, events, k)
    ensures events[k].Uplink?
  {
    hide Decide, Run;
  }

  /** At any time the window holds the number of the current acceptance, and the file that of the stored one;
      so after every reboot the window stands at the number of the last save that went through. */
  lemma {:induction false} NumbersFollow(s: System, events: seq<Event>, n: nat)
    requires ValidEvents(events) && n <= |events| && Rooted(s)
    ensures Current(s, events, n).Some? ==> Current(s, events, n).value < n
    ensures Stored(s, events, n).Some? ==> Stored(s, events, n).value < n
    ensures At(s, events, n).mem.window.last == NumberOf(s, events, Current(s, events, n))
    ensures FileNumber(At(s, events, n).file) == NumberOf(s, events, Stored(s, events, n))
    ensures Stored(s, events, n).Some? ==> Loadable(At(s, events, n).file)
    ensures At(s, events, n).mem.window.accepted != 0 ==> Current(s, events, n).Some? || Loadable(At(s, events, n).file)
    decreases n
  {
    hide Step, Accepts, Saves, Run, FileNumber, Loadable, Rooted;
    if n == 0 {
      RootOf(s, events);
    } else {
      NumbersFollow(s, events, n - 1);
      AtNext(s, events, n - 1);
      Precedes(s, events, n);
      var before, e := At(s, events, n - 1), events[n - 1];
      FileMoves(before, e);
      if Loadable(before.file) {
        StoredStays(before, e);
      }
      RebootIsNoAcceptance(before, e);
      if Accepts(before, e) {
        AcceptedMoves(before, e);
      } else {
        OthersStay(before, e);
      }
    }
  }

  lemma RootOf(s: System, events: seq<Event>)
    requires ValidEvents(events) && Rooted(s)
    ensures At(s, events, 0) == s && FileNumber(s.file) == s.mem.window.last
    ensures s.mem.window.accepted != 0 ==> Loadable(s.file)
  {
  }

  /** A good file stays good. */
  lemma StoredStays(s: System, e: Event)
    requires ValidEvent(e) && Loadable(s.file)
    ensures Loadable(Step(s, e).file)
  {
    hide Step, Saves, Loadable, FileNumber;
    FileMoves(s, e);
  }

  /** The number the window takes at a reboot is that of the last save that went through before it. */
  lemma RebootReturnsToLastSave(s: System, events: seq<Event>, k: nat)
    requires ValidEvents(events) && k < |events| && Rooted(s) && events[k].Reboot?
    ensures Stored(s, events, k).Some? ==> Stored(s, events, k).value < k
    ensures At(s, events, k + 1).mem.window.last == NumberOf(s, events, Stored(s, events, k))
  {
    hide Step, Accepts, Run, FileNumber, Loadable, Rooted;
    NumbersFollow(s, events, k);
    AtNext(s, events, k);
    RebootIsNoAcceptance(At(s, events, k), events[k]);
    OthersStay(At(s, events, k), events[k]);
  }

  // ---- The unwrapped counter ----

  /** Every acceptance finds the 32-bit count of acceptances short of its wrap-around. */
  ghost predicate Unwrapping(s: System, events: seq<Event>)
    requires ValidEvents(events)
  {
    forall k :: 0 <= k < |events| ==> CountHolds(s, events, k)
  }

  ghost predicate CountHolds(s: System, events: seq<Event>, k: nat)
    requires ValidEvents(events) && k < |events|
  {
    AcceptsAt(s, events, k) ==> At(s, events, k).mem.window.accepted < 0xFFFF_FFFF
  }

  /** Every reboot finds the window's number in the file: the last acceptance before it was saved, by its own
      save or a later one. */
  ghost predicate SavedBeforeReboots(s: System, events: seq<Event>)
    requires ValidEvents(events)
  {
    forall k :: 0 <= k < |events| ==> KeptAt(s, events, k)
  }

  ghost predicate KeptAt(s: System, events: seq<Event>, k: nat)
    requires ValidEvents(events) && k < |events|
  {
    events[k].Reboot? ==> Current(s, events, k) == Stored(s, events, k)
  }

  /** By how much event `k` moves the last accepted sequence number. */
  function Advance(s: System, events: seq<Event>, k: nat): nat
    requires ValidEvents(events) && k < |events|
  {
    if AcceptsAt(s, events, k) then Ahead(Low16(At(s, events, k).mem.window.last), events[k].c.seqNo) else 0
  }

  /** The unwrapped counter: all advances from event `i` up to event `j`. */
  function Travelled(s: System, events: seq<Event>, i: nat, j: nat): nat
    requires ValidEvents(events) && i <= j <= |events|
    decreases j
  {
    if j == i then 0 else Travelled(s, events, i, j - 1) + Advance(s, events, j - 1)
  }

  /** How many commands are accepted from event `i` up to event `j`. */
  function Acceptances(s: System, events: seq<Event>, i: nat, j: nat): nat
    requires ValidEvents(events) && i <= j <= |events|
    decreases j
  {
    if j == i then 0 else Acceptances(s, events, i, j - 1) + if AcceptsAt(s, events, j - 1) then 1 else 0
  }

  /** The vehicle has accepted a command, or booted from a good state file. */
  predicate Shut(s: System, events: seq<Event>, k: nat)
    requires ValidEvents(events) && k <= |events|
  {
    At(s, events, k).mem.window.accepted != 0
  }

  lemma StepStaysShut(s: System, events: seq<Event>, k: nat)
    requires ValidEvents(events) && k < |events| && Rooted(s)
    requires CountHolds(s, events, k) && KeptAt(s, events, k) && Shut(s, events, k)
    ensures Shut(s, events, k + 1)
    ensures !AcceptsAt(s, events, k) ==> At(s, events, k + 1).mem.window.last == At(s, events, k).mem.window.last
  {
    hide Step, Accepts, Run, FileNumber, Loadable, Rooted;
    NumbersFollow(s, events, k);
    AtNext(s, events, k);
    var before, e := At(s, events, k), events[k];
    if Accepts(before, e) {
      AcceptedMoves(before, e);
    } else {
      OthersStay(before, e);
    }
  }

  /** From then on the rule for the first command is off for good. */
  lemma {:induction false} WindowStaysShut(s: System, events: seq<Event>, i: nat, k: nat)
    requires ValidEvents(events) && i <= k <= |events| && Rooted(s)
    requires Unwrapping(s, events) && SavedBeforeReboots(s, events) && Shut(s, events, i)
    ensures Shut(s, events, k)
    decreases k
  {
    hide Rooted, CountHolds, KeptAt, Shut;
    if k > i {
      WindowStaysShut(s, events, i, k - 1);
      assert CountHolds(s, events, k - 1) && KeptAt(s, events, k - 1);
      StepStaysShut(s, events, k - 1);
    }
  }

  /** Every acceptance after the first moves the unwrapped counter forward by 1 to 32767; no other event
      moves it: no counter reset, and no reboot that finds the number saved. */
  lemma AdvancesAreForward(s: System, events: seq<Event>, i: nat, k: nat)
    requires ValidEvents(events) && i <= k < |events| && Rooted(s)
    requires Unwrapping(s, events) && SavedBeforeReboots(s, events) && Shut(s, events, i)
    ensures AcceptsAt(s, events, k) ==> 1 <= Advance(s, events, k) <= 32767
    ensures !AcceptsAt(s, events, k) ==> At(s, events, k + 1).mem.window.last == At(s, events, k).mem.window.last
  {
    hide Step, Decide, Accepts, Rooted, Run, CountHolds, KeptAt;
    WindowStaysShut(s, events, i, k);
    AtNext(s, events, k);
    assert CountHolds(s, events, k) && KeptAt(s, events, k);
    StepStaysShut(s, events, k);
    if AcceptsAt(s, events, k) {
      AcceptedMoves(At(s, events, k), events[k]);
    }
  }

  /** The 16-bit number is the unwrapped counter modulo 65536. */
  lemma {:induction false} CounterFollows(s: System, events: seq<Event>, i: nat, j: nat)
    requires ValidEvents(events) && i <= j <= |events| && Rooted(s)
    requires Unwrapping(s, events) && SavedBeforeReboots(s, events) && Shut(s, events, i)
    ensures Low16(At(s, events, j).mem.window.last)
            == Low16(Low16(At(s, events, i).mem.window.last) + Travelled(s, events, i, j))
    ensures Travelled(s, events, i, j) <= 32767 * Acceptances(s, events, i, j)
    ensures Acceptances(s, events, i, j) <= Travelled(s, events, i, j)
    decreases j
  {
    hide Rooted, Unwrapping, SavedBeforeReboots, At, AcceptsAt, Advance, Shut, ValidEvents;
    if j > i {
      CounterFollows(s, events, i, j - 1);
      AdvancesAreForward(s, events, i, j - 1);
      AdvanceLands(s, events, j - 1, Low16(At(s, events, i).mem.window.last) + Travelled(s, events, i, j - 1));
    } else {
      SameNumber(At(s, events, i).mem.window.last);
    }
  }

  lemma SameNumber(n: nat)
    ensures Low16(Low16(n) + 0) == Low16(n)
  {
  }

  /** One more advance on any counter that agrees with the sequence number. */
  lemma AdvanceLands(s: System, events: seq<Event>, k: nat, counter: nat)
    requires ValidEvents(events) && k < |events| && Low16(At(s, events, k).mem.window.last) == Low16(counter)
    requires !AcceptsAt(s, events, k) ==> At(s, events, k + 1).mem.window.last == At(s, events, k).mem.window.last
    ensures Low16(At(s, events, k + 1).mem.window.last) == Low16(counter + Advance(s, events, k))
    ensures !AcceptsAt(s, events, k) ==> Advance(s, events, k) == 0
  {
    hide Step, Decide, Accepts, Run, At;
    if AcceptsAt(s, events, k) {
      AcceptedNumber(s, events, k);
      AheadAdds(counter, events[k].c.seqNo);
    }
  }

  lemma AheadAdds(from: nat, to: u16)
    ensures Low16(from + Ahead(Low16(from), to)) == to == Low16(to)
  {
    var q := from / 0x1_0000;
    assert from == q * 0x1_0000 + Low16(from);
    assert from + Ahead(Low16(from), to) == to + 0x1_0000 * (if to >= Low16(from) then q else q + 1);
  }

  /** An acceptance leaves its sequence number as the last one. */
  lemma AcceptedNumber(s: System, events: seq<Event>, k: nat)
    requires ValidEvents(events) && k < |events| && AcceptsAt(s, events, k)
    ensures events[k].Uplink? && At(s, events, k + 1).mem.window.last == events[k].c.seqNo
    ensures At(s, events, k + 1).mem.window.accepted == Inc32(At(s, events, k).mem.window.accepted)
  {
    hide Step, Decide, Run;
    AtNext(s, events, k);
    AcceptedMoves(At(s, events, k), events[k]);
  }

  /** Two acceptances of the same sequence number have at least two acceptances between them, whatever
      counter resets and reboots lie between, as long as every reboot finds the last number saved. */
  lemma ReplaysAreFarApart(s: System, events: seq<Event>, i: nat, j: nat)
    requires ValidEvents(events) && i < j < |events| && Rooted(s)
    requires Unwrapping(s, events) && SavedBeforeReboots(s, events)
    requires AcceptsAt(s, events, i) && AcceptsAt(s, events, j) && SameSequenceNumber(events, i, j)
    ensures Acceptances(s, events, i + 1, j) >= 2
  {
    hide Rooted, Unwrapping, SavedBeforeReboots, Run, At, AcceptsAt, Advance, ValidEvents;
    AcceptedNumber(s, events, i);
    AcceptedNumber(s, events, j);
    CountIsShort(s, events, i);
    CounterFollows(s, events, i + 1, j + 1);
    AdvancesAreForward(s, events, i + 1, j);
    FullCircle(events[i].c.seqNo, Travelled(s, events, i + 1, j + 1));
  }

  predicate SameSequenceNumber(events: seq<Event>, i: nat, j: nat)
    requires i < |events| && j < |events|
  {
    events[i].Uplink? && events[j].Uplink? && events[i].c.seqNo == events[j].c.seqNo
  }

  lemma CountIsShort(s: System, events: seq<Event>, k: nat)
    requires ValidEvents(events) && k < |events| && Unwrapping(s, events) && AcceptsAt(s, events, k)
    ensures At(s, events, k).mem.window.accepted < 0xFFFF_FFFF
  {
    assert CountHolds(s, events, k);
  }

  lemma FullCircle(from: u16, distance: nat)
    requires Low16(Low16(from) + distance) == Low16(from) && distance > 0
    ensures distance >= 0x1_0000
  {
  }

  // ---- When a reboot forgets an acceptance ----

  ghost predicate NoReboots(events: seq<Event>) {
    forall e :: e in events ==> !e.Reboot?
  }

  lemma NoRebootsAreKept(s: System, events: seq<Event>)
    requires ValidEvents(events) && NoReboots(events)
    ensures SavedBeforeReboots(s, events)
  {
    forall k | 0 <= k < |events| ensures KeptAt(s, events, k) {
      assert events[k] in events;
    }
  }

  /** Some save goes through from event `i` on. */
  ghost predicate SavedFrom(s: System, events: seq<Event>, i: nat)
    requires ValidEvents(events)
  {
    exists k :: i <= k < |events| && SavesAt(s, events, k)
  }

  /** Without reboots, the file holds the number that the window held after the last save. */
  lemma {:induction false} FileNumberOf(s: System, events: seq<Event>, n: nat) returns (t: nat)
    requires ValidEvents(events) && n <= |events| && Rooted(s)
    ensures t <= n && FileNumber(At(s, events, n).file) == At(s, events, t).mem.window.last
    ensures t > 0 ==> SavesAt(s, events, t - 1)
    ensures forall k :: t <= k < n ==> !SavesAt(s, events, k)
    decreases n
  {
    hide Step, Saves, Run, FileNumber, Loadable, Rooted;
    if n == 0 {
      t := 0;
      RootOf(s, events);
    } else {
      AtNext(s, events, n - 1);
      FileMoves(At(s, events, n - 1), events[n - 1]);
      if SavesAt(s, events, n - 1) {
        t := n;
      } else {
        t := FileNumberOf(s, events, n - 1);
      }
    }
  }

  lemma {:induction false} TravelledSplits(s: System, events: seq<Event>, i: nat, j: nat, k: nat)
    requires ValidEvents(events) && i <= j <= k <= |events|
    ensures Travelled(s, events, i, k) == Travelled(s, events, i, j) + Travelled(s, events, j, k)
    decreases k
  {
    hide Advance;
    if k > j {
      TravelledSplits(s, events, i, j, k - 1);
    }
  }

  /** Exactly which commands a reboot lets in again: after a stretch without reboots that moves the number by at
      most 32767 in all, a command accepted in it is new again after the reboot if and only if neither its own
      save nor any later one went through. */
  lemma RepeatedExactlyWhenUnsaved(s: System, events: seq<Event>, i: nat, reboot: Event)
    requires ValidEvents(events) && NoReboots(events) && Rooted(s) && Unwrapping(s, events) && Shut(s, events, 0)
    requires i < |events| && AcceptsAt(s, events, i) && Travelled(s, events, 0, |events|) <= 32767
    requires reboot.Reboot?
    ensures events[i].Uplink?
    ensures var w := Step(Run(s, events), reboot).mem.window;
            CheckSequence(w.accepted, w.last, events[i].c.seqNo) == New <==> !SavedFrom(s, events, i)
  {
    hide Step, Accepts, Saves, Run, FileNumber, Loadable, Rooted, Unwrapping, SavedBeforeReboots, Advance, AcceptsAt,
         SavesAt, CheckSequence, Shut, Travelled, ValidEvents;
    var n := |events|;
    NoRebootsAreKept(s, events);
    AcceptedNumber(s, events, i);
    var number := events[i].c.seqNo;
    var t := FileNumberOf(s, events, n);
    AfterReboot(s, events, reboot);
    CounterFollows(s, events, 0, t);
    CounterFollows(s, events, 0, i + 1);
    AdvancesAreForward(s, events, 0, i);
    var from := Low16(At(s, events, 0).mem.window.last);
    TravelledSplits(s, events, 0, t, n);
    TravelledSplits(s, events, 0, i, i + 1);
    TravelledSplits(s, events, 0, i + 1, n);
    OneAdvance(s, events, i);
    if t <= i {
      assert !SavedFrom(s, events, i);
      TravelledSplits(s, events, 0, t, i);
    } else {
      assert SavesAt(s, events, t - 1);
      TravelledSplits(s, events, 0, i + 1, t);
    }
    var saved := At(s, events, t).mem.window.last;
    NewAhead(saved, number, from, Travelled(s, events, 0, t), Travelled(s, events, 0, i + 1));
  }

  lemma OneAdvance(s: System, events: seq<Event>, i: nat)
    requires ValidEvents(events) && i < |events|
    ensures Travelled(s, events, i, i + 1) == Advance(s, events, i)
  {
    hide Advance;
    assert Travelled(s, events, i, i) == 0;
  }

  /** The window after a reboot at the end of a run. */
  lemma AfterReboot(s: System, events: seq<Event>, reboot: Event)
    requires ValidEvents(events) && NoReboots(events) && Rooted(s) && Unwrapping(s, events) && Shut(s, events, 0)
    requires reboot.Reboot?
    ensures At(s, events, |events|) == Run(s, events)
    ensures Step(Run(s, events), reboot).mem.window == Window(1, FileNumber(Run(s, events).file))
  {
    hide Step, Accepts, FileNumber, Loadable;
    assert events[..|events|] == events && events[..0] == [];
    RootOf(s, events);
    GoodFileStays(s, events, |events|);
    RebootIsNoAcceptance(Run(s, events), reboot);
    OthersStay(Run(s, events), reboot);
  }

  lemma {:induction false} GoodFileStays(s: System, events: seq<Event>, n: nat)
    requires ValidEvents(events) && n <= |events| && Loadable(s.file)
    ensures Loadable(At(s, events, n).file)
    decreases n
  {
    hide Step, Loadable;
    if n > 0 {
      GoodFileStays(s, events, n - 1);
      AtNext(s, events, n - 1);
      StoredStays(At(s, events, n - 1), events[n - 1]);
    }
  }

  /** On a circle of 65536, with two positions at most 32767 apart, the second is new to the first exactly when
      it is ahead. */
  lemma NewAhead(last: u32, seqNo: u16, from: u16, a: nat, b: nat)
    requires Low16(last) == Low16(from + a) && seqNo == Low16(from + b) && a <= 32767 && b <= 32767
    ensures CheckSequence(1, last, seqNo) == New <==> b > a
  {
    if b > a {
      Distance(from + a, b - a);
    } else if a > b {
      Distance(from + b, a - b);
    }
  }

  lemma Distance(n: nat, d: nat)
    requires 0 < d <= 32767
    ensures Ahead(Low16(n), Low16(n + d)) == d && Low16(n + d) != Low16(n)
    ensures Ahead(Low16(n + d), Low16(n)) == 0x1_0000 - d
  {
    var q := n / 0x1_0000;
    assert n == q * 0x1_0000 + Low16(n);
    var r := Low16(n) + d;
    assert n + d == q * 0x1_0000 + r;
    assert r < 0x1_0000 ==> Low16(n + d) == r;
    assert r >= 0x1_0000 ==> Low16(n + d) == r - 0x1_0000;
  }

  // ---- Where the window is open ----

  /** The window is open: every sequence number is new. */
  ghost predicate AllNew(w: Window) {
    forall seqNo: u16 :: CheckSequence(w.accepted, w.last, seqNo) == New
  }

  lemma OpenMeansNoneCounted(w: Window)
    ensures AllNew(w) <==> w.accepted == 0
  {
    if AllNew(w) {
      assert CheckSequence(w.accepted, w.last, Low16(w.last)) == New;
    }
  }

  /** How many commands have been accepted since the last boot. */
  function SinceBoot(s: System, events: seq<Event>): nat
    requires ValidEvents(events)
  {
    if events == [] then 0
    else
      assert events[|events| - 1] in events;
      if events[|events| - 1].Reboot? then 0
      else
        SinceBoot(s, events[..|events| - 1])
        + if Accepts(Run(s, events[..|events| - 1]), events[|events| - 1]) then 1 else 0
  }

  /** What the last boot counts for: 1 if it found a good state file, else 0. */
  function BootCount(s: System, events: seq<Event>): u32
    requires ValidEvents(events)
  {
    if events == [] then s.mem.window.accepted
    else if events[|events| - 1].Reboot? then if Loadable(Run(s, events[..|events| - 1]).file) then 1 else 0
    else BootCount(s, events[..|events| - 1])
  }

  /** A state file is good exactly when the run began with a good one or some save has gone through. */
  lemma {:induction false} GoodFileExactly(s: System, events: seq<Event>)
    requires ValidEvents(events)
    ensures Loadable(Run(s, events).file) <==> Loadable(s.file) || SavedFrom(s, events, 0)
  {
    hide Step, Loadable, Saves;
    if events != [] {
      var n := |events| - 1;
      var init := events[..n];
      assert events[n] in events;
      GoodFileExactly(s, init);
      FileMoves(Run(s, init), events[n]);
      forall k | 0 <= k < n ensures SavesAt(s, init, k) <==> SavesAt(s, events, k) {
        assert init[..k] == events[..k];
      }
      assert SavesAt(s, events, n) <==> Saves(Run(s, init), events[n]);
    }
  }

  lemma CountStep(s: System, e: Event)
    requires ValidEvent(e)
    ensures Step(s, e).mem.window.accepted
            == if e.Reboot? then (if Loadable(s.file) then 1 else 0)
               else if Accepts(s, e) then Inc32(s.mem.window.accepted)
               else s.mem.window.accepted
  {
    hide Step, Decide, Loadable;
    if Accepts(s, e) {
      AcceptedMoves(s, e);
    } else {
      OthersStay(s, e);
    }
  }

  lemma {:induction false} CountIsSinceBoot(s: System, events: seq<Event>)
    requires ValidEvents(events)
    ensures Run(s, events).mem.window.accepted == Low32(BootCount(s, events) + SinceBoot(s, events))
  {
    hide Step, Accepts, Low32, Loadable;
    if events == [] {
      NextCount(s.mem.window.accepted);
    } else {
      var n := |events| - 1;
      var init, e := events[..n], events[n];
      assert e in events;
      CountIsSinceBoot(s, init);
      CountStep(Run(s, init), e);
      NextCount(1);
      NextCount(0);
      NextCount(BootCount(s, init) + SinceBoot(s, init));
    }
  }

  lemma NextCount(n: nat)
    ensures Inc32(Low32(n)) == Low32(n + 1)
    ensures n < 0x1_0000_0000 ==> Low32(n) == n
  {
  }

  /** Exactly when the window is open: in any run every sequence number is new if and only if the acceptances
      since the last boot, one more if that boot found a good state file, are a multiple of 2^32. */
  lemma WindowOpensExactly(s: System, events: seq<Event>)
    requires ValidEvents(events)
    ensures AllNew(Run(s, events).mem.window) <==> (BootCount(s, events) + SinceBoot(s, events)) % 0x1_0000_0000 == 0
  {
    hide AllNew, Run, SinceBoot, BootCount;
    CountIsSinceBoot(s, events);
    OpenMeansNoneCounted(Run(s, events).mem.window);
  }

  ghost predicate NoneAccepted(s: System, events: seq<Event>)
    requires ValidEvents(events)
  {
    forall k :: 0 <= k < |events| ==> !AcceptsAt(s, events, k)
  }

  lemma {:induction false} NothingCounted(s: System, events: seq<Event>)
    requires ValidEvents(events) && NoneAccepted(s, events)
    ensures SinceBoot(s, events) == 0
  {
    hide AcceptsAt;
    if events != [] {
      var n := |events| - 1;
      forall k | 0 <= k < n ensures AcceptsAt(s, events[..n], k) <==> AcceptsAt(s, events, k) {
        SameStart(s, events, n, k);
      }
      NothingCounted(s, events[..n]);
      LastAccepts(s, events);
    }
  }

  lemma SameStart(s: System, events: seq<Event>, n: nat, k: nat)
    requires ValidEvents(events) && k < n <= |events|
    ensures AcceptsAt(s, events[..n], k) <==> AcceptsAt(s, events, k)
  {
    hide Accepts;
    assert events[..n][..k] == events[..k];
  }

  lemma LastAccepts(s: System, events: seq<Event>)
    requires ValidEvents(events) && events != []
    ensures events[|events| - 1] in events
    ensures AcceptsAt(s, events, |events| - 1) <==> Accepts(Run(s, events[..|events| - 1]), events[|events| - 1])
  {
    hide Accepts;
  }

  lemma {:induction false} NoCurrent(s: System, events: seq<Event>, n: nat)
    requires ValidEvents(events) && n <= |events| && NoneAccepted(s, events)
    ensures Current(s, events, n) == None && Stored(s, events, n) == None
    decreases n
  {
    hide AcceptsAt, SavesAt;
    if n > 0 {
      NoCurrent(s, events, n - 1);
    }
  }

  /** A vehicle that has never accepted a command takes every number as new until a boot finds a good file,
      that is, until a reboot after some save went through.  From then on it behaves as if it had accepted
      number 0: that number is a duplicate, and the upper half of the numbers are replays.  This holds in any
      run without an acceptance, whatever is refused, reset, rebooted or not saved in it. */
  lemma RebootBeforeFirstCommandReservesZero(now: u32, reason: byte, saves: BootSaves, events: seq<Event>, seqNo: u16)
    requires ValidEvents(events) && NoneAccepted(SystemBooted(None, now, reason, saves), events)
    ensures var s := SystemBooted(None, now, reason, saves);
            var w := Run(s, events).mem.window;
            CheckSequence(w.accepted, w.last, seqNo)
            == if BootCount(s, events) == 0 then New
               else if seqNo == 0 then Duplicate
               else if seqNo < 0x8000 then New
               else Replay
  {
    hide Step, AcceptsAt, SystemBooted, Run, BootCount, SinceBoot, Rooted, Loadable, FileNumber;
    var s := SystemBooted(None, now, reason, saves);
    assert events[..|events|] == events;
    BootIsRooted(None, now, reason, saves);
    NothingToLoad();
    NothingCounted(s, events);
    CountIsSinceBoot(s, events);
    NextCount(BootCount(s, events));
    NoCurrent(s, events, |events|);
    NumbersFollow(s, events, |events|);
  }

  lemma NothingToLoad()
    ensures !Loadable(None) && FileNumber(None) == 0
  {
  }
}
