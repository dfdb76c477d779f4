/**
  Execution results over whole runs: when one is shown, and which command it can belong to.
 */
module ExecResults {
  import opened Bytes
  import opened Uplink2
  import opened UplinkRules
  import opened UplinkState
  import opened Replay
  import UplinkFile

  /** The event sets the last result by itself. */
  predicate Overwrites(e: Event) { e.Uplink? || e.ResetCounters? || e.Reboot? }

  /** Event `k` answers the last accepted number, and no event after it overwrites the result. */
  ghost predicate AnsweredAt(s: System, events: seq<Event>, k: nat, generic: byte)
    requires ValidEvents(events)
  {
    && k < |events| && events[k].ExecResult? && events[k].generic == generic
    && events[k].source == Low16(Run(s, events).mem.window.last)
    && forall j :: k < j < |events| ==> !Overwrites(events[j])
  }

  ghost predicate Answered(s: System, events: seq<Event>)
    requires ValidEvents(events)
  {
    exists k: nat, generic: byte :: AnsweredAt(s, events, k, generic)
  }

  /** The result codes of an execution: 15 when it succeeded, 16 when it failed. */
  predicate Executed(result: byte) { result == 15 || result == 16 }

  /** No event but an execution result shows an execution. */
  lemma OnlyResultsShowExecution(s: System, e: Event)
    requires ValidEvent(e)
    ensures Overwrites(e) ==> !Executed(Step(s, e).mem.status.result)
    ensures !Overwrites(e) ==> Step(s, e).mem.window == s.mem.window
    ensures !Overwrites(e) && !e.ExecResult? ==> Step(s, e).mem.status == s.mem.status
  {
    hide Prepare, Blocked, Authorized, ProxyCrc, UplinkFile.Load, UplinkFile.Print;
  }

  lemma {:induction false} ShownIsAnswered(s: System, events: seq<Event>) returns (k: nat, generic: byte)
    requires ValidEvents(events) && !Executed(s.mem.status.result)
    requires Executed(Run(s, events).mem.status.result)
    ensures AnsweredAt(s, events, k, generic)
    ensures Run(s, events).mem.status.result == if generic == 0 then 15 else 16
    decreases |events|
  {
    hide UplinkFile.Print, UplinkFile.Load, Commanded, Accepts, Booted;
    var n := |events| - 1;
    var before, e := Run(s, events[..n]), events[n];
    assert e in events;
    OnlyResultsShowExecution(before, e);
    if e.ExecResult? && e.source == Low16(before.mem.window.last) {
      k, generic := n, e.generic;
    } else {
      k, generic := ShownIsAnswered(s, events[..n]);
    }
  }

  lemma {:induction false} AnsweredIsShown(s: System, events: seq<Event>, k: nat, generic: byte)
    requires ValidEvents(events) && AnsweredAt(s, events, k, generic)
    ensures Executed(Run(s, events).mem.status.result)
    decreases |events|
  {
    hide UplinkFile.Print, UplinkFile.Load, Commanded, Accepts, Booted;
    var n := |events| - 1;
    var before, e := Run(s, events[..n]), events[n];
    assert e in events;
    OnlyResultsShowExecution(before, e);
    if k < n {
      AnsweredIsShown(s, events[..n], k, generic);
    }
  }

  /** When an execution is shown: exactly while some event of the run was a result for the number that the
      window holds, with no overwriting event after it. */
  lemma ShownExactlyWhenAnswered(file: Option<seq<byte>>, now: u32, reason: byte, saves: BootSaves, events: seq<Event>)
    requires ValidEvents(events)
    ensures var s := SystemBooted(file, now, reason, saves);
            Executed(Run(s, events).mem.status.result) <==> Answered(s, events)
  {
    hide Run, SystemBooted, AnsweredAt;
    var s := SystemBooted(file, now, reason, saves);
    BootShowsNone(file, now, reason, saves);
    if Executed(Run(s, events).mem.status.result) {
      var k, generic := ShownIsAnswered(s, events);
    }
    if Answered(s, events) {
      var k: nat, generic: byte :| AnsweredAt(s, events, k, generic);
      AnsweredIsShown(s, events, k, generic);
    }
  }

  lemma BootShowsNone(file: Option<seq<byte>>, now: u32, reason: byte, saves: BootSaves)
    ensures SystemBooted(file, now, reason, saves).mem.status.result == RESULT_NONE
  {
    hide UplinkFile.Load, UplinkFile.Print;
  }

  // ---- Which command it belongs to ----

  /** Between two points without an overwriting event the window belongs to the same acceptance. */
  lemma {:induction false} CurrentStays(s: System, events: seq<Event>, k: nat, n: nat)
    requires ValidEvents(events) && k <= n <= |events| && forall j :: k <= j < n ==> !Overwrites(events[j])
    ensures Current(s, events, n) == Current(s, events, k)
    decreases n
  {
    hide AcceptsAt, Stored;
    if k < n {
      CurrentStays(s, events, k, n - 1);
      NoCommandNoAcceptance(s, events, n - 1);
    }
  }

  lemma NoCommandNoAcceptance(s: System, events: seq<Event>, k: nat)
    requires ValidEvents(events) && k < |events| && !events[k].Uplink?
    ensures !AcceptsAt(s, events, k)
  {
    hide Decide, Run;
  }

  /** A shown execution was reported for the number of the current acceptance before it: the last command
      accepted, or, after a reboot, the last one whose number was saved.  If there is none, it was reported for
      the number that the vehicle booted with, that of its state file or 0. */
  lemma ExecutedMeansAnswered(file: Option<seq<byte>>, now: u32, reason: byte, saves: BootSaves, events: seq<Event>)
    returns (k: nat, generic: byte)
    requires ValidEvents(events)
    requires Executed(Run(SystemBooted(file, now, reason, saves), events).mem.status.result)
    ensures var s := SystemBooted(file, now, reason, saves);
            && AnsweredAt(s, events, k, generic)
            && Run(s, events).mem.status.result == (if generic == 0 then 15 else 16)
            && match Current(s, events, k)
               case Some(i) =>
                 i < k && AcceptsAt(s, events, i) && events[i].Uplink? && events[i].c.seqNo == events[k].source
               case None => events[k].source == Low16(FileNumber(file))
  {
    hide Run, SystemBooted, FileNumber, AcceptsAt, Stored, Rooted, Current;
    var s := SystemBooted(file, now, reason, saves);
    BootShowsNone(file, now, reason, saves);
    BootIsRooted(file, now, reason, saves);
    k, generic := ShownIsAnswered(s, events);
    assert events[..|events|] == events;
    NumbersFollow(s, events, |events|);
    CurrentStays(s, events, k + 1, |events|);
    CurrentStays(s, events, k, k + 1);
    Precedes(s, events, k);
    if Current(s, events, k).Some? {
      AcceptsCommand(s, events, Current(s, events, k).value);
      OwnNumber(events[Current(s, events, k).value]);
    }
  }

  lemma OwnNumber(e: Event)
    ensures e.Uplink? ==> Low16(e.c.seqNo) == e.c.seqNo
  {
  }

  /** Nothing need have been accepted: on a first boot a result for number 0 is shown as an execution. */
  lemma ResultForZeroIsShownAfterBoot(now: u32, reason: byte, saves: BootSaves)
    ensures ValidEvents([ExecResult(0, 0)])
    ensures var m := Run(SystemBooted(None, now, reason, saves), [ExecResult(0, 0)]).mem;
            m.window.accepted == 0 && m.status.result == 15
  {
    hide UplinkFile.Print;
    var one: seq<Event> := [ExecResult(0, 0)];
    assert one[..0] == [];
  }
}
