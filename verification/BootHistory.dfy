/**
  The boot-loop watch over whole boot histories: a session that lives for 120 s marks itself as
  survived in the state file, and every boot counts the unmarked sessions just before it.  The mark
  counts when it has reached the file, by its own save or by a later one.  Any save may fail: what a boot
  reports then follows from what the file still notes.
 */
module BootHistory {
  import opened Bytes
  import opened UplinkState
  import UplinkRules
  import UplinkFile

  /** A boot that completes, at time `start`, and what happens until the next one. */
  datatype Session = Session(start: u32, reason: byte, saves: BootSaves, events: seq<Event>)

  ghost predicate ValidSession(s: Session) {
    ValidEvents(s.events) && forall e :: e in s.events ==> !e.Reboot?
  }

  ghost predicate ValidHistory(h: seq<Session>) {
    forall s :: s in h ==> ValidSession(s)
  }

  /** The periodic check has found the session at least 120 s old. */
  ghost predicate SurvivedBy(events: seq<Event>, start: u32) {
    exists e :: e in events && e.Tick? && Sub32(e.now, start) >= 120000
  }

  /** The mark has reached the file: some save went through once the session was old enough. */
  ghost predicate MarkSaved(b: System, start: u32, events: seq<Event>)
    requires ValidEvents(events)
  {
    exists k :: 0 <= k < |events| && MarksAt(b, start, events, k)
  }

  ghost predicate MarksAt(b: System, start: u32, events: seq<Event>, k: nat)
    requires ValidEvents(events) && k < |events|
  {
    SavesAt(b, events, k) && SurvivedBy(events[..k + 1], start)
  }

  // ---- One session ----

  /** What the state file tells the next boot about the sessions so far. */
  datatype Note = NoNote | Noted(streak: byte, survived: bool)

  function NoteOf(file: Option<seq<byte>>): Note {
    if Loadable(file) then
      var r := UplinkFile.Load(file.value).value;
      Noted(r.streak, r.survived != 0)
    else NoNote
  }

  /** Some save of the session itself, after its boot, went through. */
  ghost predicate SavedIn(b: System, events: seq<Event>)
    requires ValidEvents(events)
  {
    exists k :: 0 <= k < |events| && SavesAt(b, events, k)
  }

  lemma TickMarks(s: System, e: Event)
    requires ValidEvent(e) && !e.Reboot? && s.mem.boot.survived <= 1
    ensures var m := Step(s, e).mem.boot;
            && m.streak == s.mem.boot.streak && m.suspect == s.mem.boot.suspect && m.start == s.mem.boot.start
            && m.survived == if e.Tick? && Sub32(e.now, s.mem.boot.start) >= SURVIVE_MS then 1 else s.mem.boot.survived
  {
    hide UplinkRules.Decide, UplinkRules.Prepare, Counted, Shown, Accepts, Image, Booted;
  }

  /** What a save during a session writes. */
  lemma SaveNotes(s: System, e: Event)
    requires ValidEvent(e) && !e.Reboot?
    ensures var t := Step(s, e);
            NoteOf(t.file) == if Saves(s, e) then Noted(t.mem.boot.streak, t.mem.boot.survived != 0) else NoteOf(s.file)
  {
    hide Step, Saves, Image, NoteOf;
    SaveWrites(s, e);
    ImageNotes(Imaged(s, e));
  }

  lemma ImageNotes(m: Mem)
    ensures NoteOf(Some(Image(m))) == Noted(m.boot.streak, m.boot.survived != 0)
  {
    hide Image, UplinkFile.Load;
    LoadImage(m);
  }

  lemma SavedAppends(b: System, events: seq<Event>)
    requires ValidEvents(events) && events != []
    ensures var n := |events| - 1;
            SavedIn(b, events) <==> SavedIn(b, events[..n]) || SavesAt(b, events, n)
  {
    hide SavesAt;
    var n := |events| - 1;
    forall k | 0 <= k < n ensures SavesAt(b, events[..n], k) <==> SavesAt(b, events, k) {
      SameSave(b, events, k);
    }
    assert SavesAt(b, events, n) ==> SavedIn(b, events);
  }

  lemma SameSave(b: System, events: seq<Event>, k: nat)
    requires ValidEvents(events) && k < |events| - 1
    ensures SavesAt(b, events[..|events| - 1], k) <==> SavesAt(b, events, k)
  {
    hide Saves, Run;
    assert events[..|events| - 1][..k] == events[..k];
  }

  lemma SurvivedAppends(events: seq<Event>, start: u32)
    requires events != []
    ensures var n := |events| - 1;
            SurvivedBy(events, start)
            <==> SurvivedBy(events[..n], start) || (events[n].Tick? && Sub32(events[n].now, start) >= 120000)
  {
    var n := |events| - 1;
    assert events == events[..n] + [events[n]];
    assert events[n] in events;
  }

  lemma MarkAppends(b: System, start: u32, events: seq<Event>)
    requires ValidEvents(events) && events != []
    ensures var n := |events| - 1;
            MarkSaved(b, start, events)
            <==> MarkSaved(b, start, events[..n]) || (SavesAt(b, events, n) && SurvivedBy(events, start))
  {
    hide SurvivedBy, SavesAt, MarksAt;
    var n := |events| - 1;
    forall k | 0 <= k < n ensures MarksAt(b, start, events[..n], k) <==> MarksAt(b, start, events, k) {
      SameMark(b, start, events, k);
    }
    LastMark(b, start, events);
  }

  lemma SameMark(b: System, start: u32, events: seq<Event>, k: nat)
    requires ValidEvents(events) && k < |events| - 1
    ensures MarksAt(b, start, events[..|events| - 1], k) <==> MarksAt(b, start, events, k)
  {
    hide SurvivedBy, Saves, Run;
    var init := events[..|events| - 1];
    assert init[..k] == events[..k] && init[..k + 1] == events[..k + 1];
  }

  lemma LastMark(b: System, start: u32, events: seq<Event>)
    requires ValidEvents(events) && events != []
    ensures MarksAt(b, start, events, |events| - 1) <==> SavesAt(b, events, |events| - 1) && SurvivedBy(events, start)
  {
    hide SurvivedBy, SavesAt;
    assert events[..|events| - 1 + 1] == events;
  }

  lemma MarkNeedsSurvival(b: System, start: u32, events: seq<Event>)
    requires ValidEvents(events) && MarkSaved(b, start, events)
    ensures SurvivedBy(events, start)
  {
    var k :| 0 <= k < |events| && MarksAt(b, start, events, k);
    var e :| e in events[..k + 1] && e.Tick? && Sub32(e.now, start) >= 120000;
    assert e in events;
  }

  /** During a session the verdict of its boot stands, and the file notes it, with the mark when that was saved,
      as soon as any save went through. */
  lemma {:induction false} DuringSession(b: System, start: u32, events: seq<Event>)
    requires ValidEvents(events) && (forall e :: e in events ==> !e.Reboot?)
    requires b.mem.boot.survived == 0 && b.mem.boot.start == start
    ensures var s := Run(b, events);
            && s.mem.boot.streak == b.mem.boot.streak && s.mem.boot.suspect == b.mem.boot.suspect
            && s.mem.boot.start == start && s.mem.boot.survived == (if SurvivedBy(events, start) then 1 else 0)
    ensures NoteOf(Run(b, events).file)
            == if SavedIn(b, events) then Noted(b.mem.boot.streak, MarkSaved(b, start, events)) else NoteOf(b.file)
  {
    hide Step, Saves, SurvivedBy, MarkSaved, SavedIn, SavesAt, NoteOf;
    if events == [] {
      NothingYet(b, start);
    } else {
      var n := |events| - 1;
      var init, e := events[..n], events[n];
      assert e in events && events == init + [e];
      DuringSession(b, start, init);
      TickMarks(Run(b, init), e);
      SaveNotes(Run(b, init), e);
      SurvivedAppends(events, start);
      MarkAppends(b, start, events);
      SavedAppends(b, events);
      SavesNow(b, init, e);
      if MarkSaved(b, start, init) {
        MarkNeedsSurvival(b, start, init);
      }
    }
  }

  lemma SavesNow(b: System, init: seq<Event>, e: Event)
    requires ValidEvents(init + [e])
    ensures ValidEvents(init) && ValidEvent(e)
    ensures SavesAt(b, init + [e], |init|) <==> Saves(Run(b, init), e)
  {
    hide Run, Saves, ValidEvent;
    assert (init + [e])[..|init|] == init && (init + [e])[|init|] == e;
    assert forall d :: d in init ==> d in init + [e];
    assert e in init + [e];
  }

  lemma NothingYet(b: System, start: u32)
    ensures !SurvivedBy([], start) && !MarkSaved(b, start, []) && !SavedIn(b, [])
  {
  }

  /** When the periodic check's own saves go through, the mark is saved exactly when the session survives. */
  lemma {:induction false} MarkIsSavedWhenTicksAre(b: System, start: u32, events: seq<Event>)
    requires ValidEvents(events) && (forall e :: e in events ==> !e.Reboot? && (e.Tick? ==> e.saved))
    requires b.mem.boot.survived == 0 && b.mem.boot.start == start
    ensures MarkSaved(b, start, events) <==> SurvivedBy(events, start)
  {
    hide Step, SurvivedBy, MarkSaved;
    if events == [] {
      NothingYet(b, start);
    } else {
      var n := |events| - 1;
      assert events[n] in events;
      MarkIsSavedWhenTicksAre(b, start, events[..n]);
      DuringSession(b, start, events[..n]);
      SurvivedAppends(events, start);
      MarkAppends(b, start, events);
    }
  }

  // ---- Boots ----

  /** The streak that a boot reports: one more than the file's, unless the session before had survived. */
  function NextStreak(n: Note): byte {
    if n == NoNote || n.survived then 0 else if n.streak as int < 255 then n.streak as int + 1 else 255
  }

  /** What a boot makes of any file, and what it leaves there before the session saves. */
  lemma BootNotes(file: Option<seq<byte>>, start: u32, reason: byte, saves: BootSaves)
    ensures var b := SystemBooted(file, start, reason, saves);
            && b.mem.boot.survived == 0 && b.mem.boot.start == start
            && b.mem.boot.streak == NextStreak(NoteOf(file)) && (b.mem.boot.suspect <==> b.mem.boot.streak >= 5)
            && NoteOf(b.file) == AfterBoot(NoteOf(file), saves)
  {
    hide Image, UplinkFile.Load;
    ImageNotes(BootCounted(file));
    ImageNotes(Booted(file, start, reason));
  }

  /** The first save of a boot still writes the streak that it found. */
  function AfterBoot(n: Note, saves: BootSaves): Note {
    if saves.marked then Noted(NextStreak(n), false)
    else if saves.counted then Noted(if n == NoNote then 0 else n.streak, false)
    else n
  }

  /** The system after the sessions of a history, on a vehicle that starts without a state file. */
  ghost function After(h: seq<Session>): System
    requires ValidHistory(h)
    decreases |h|, 0
  {
    if h == [] then System(COLD, None)
    else
      var s := h[|h| - 1];
      assert s in h;
      Run(Boot(h[..|h| - 1], s), s.events)
  }

  /** The system just after the boot of session `s` that follows a history. */
  ghost function Boot(h: seq<Session>, s: Session): System
    requires ValidHistory(h)
    decreases |h|, 1
  {
    SystemBooted(After(h).file, s.start, s.reason, s.saves)
  }

  /** Session `i` of a history lived for 120 s, and this reached the file. */
  ghost predicate Marked(h: seq<Session>, i: nat)
    requires ValidHistory(h) && i < |h|
  {
    assert h[i] in h;
    MarkSaved(Boot(h[..i], h[i]), h[i].start, h[i].events)
  }

  /** The streak of session `i` reached the file, by the save of the boot marker or by any later one. */
  ghost predicate Recorded(h: seq<Session>, i: nat)
    requires ValidHistory(h) && i < |h|
  {
    assert h[i] in h;
    h[i].saves.marked || SavedIn(Boot(h[..i], h[i]), h[i].events)
  }

  ghost predicate AllRecorded(h: seq<Session>)
    requires ValidHistory(h)
  {
    forall i :: 0 <= i < |h| ==> Recorded(h, i)
  }

  lemma MarkIsSave(b: System, start: u32, events: seq<Event>)
    requires ValidEvents(events) && MarkSaved(b, start, events)
    ensures SavedIn(b, events)
  {
    hide SavesAt, SurvivedBy;
  }

  lemma MarkIsRecorded(h: seq<Session>, i: nat)
    requires ValidHistory(h) && i < |h| && Marked(h, i)
    ensures Recorded(h, i)
  {
    hide Boot, MarkSaved, SavedIn;
    assert h[i] in h;
    MarkIsSave(Boot(h[..i], h[i]), h[i].start, h[i].events);
  }

  lemma SamePast(h: seq<Session>, n: nat, i: nat)
    requires ValidHistory(h) && i < n <= |h|
    ensures Marked(h[..n], i) <==> Marked(h, i)
    ensures Recorded(h[..n], i) <==> Recorded(h, i)
  {
    hide MarkSaved, SavedIn, Boot;
    assert h[..n][..i] == h[..i];
  }

  /** What the file notes after a history, by the fate of its saves alone. */
  ghost function NoteAfter(h: seq<Session>): Note
    requires ValidHistory(h)
  {
    if h == [] then NoNote
    else
      var last, before := |h| - 1, NoteAfter(h[..|h| - 1]);
      if Recorded(h, last) then Noted(NextStreak(before), Marked(h, last)) else AfterBoot(before, h[last].saves)
  }

  /** What every boot reports, whichever saves fail: the streak that follows from the note. */
  lemma {:induction false} BootsFollowNotes(h: seq<Session>, s: Session)
    requires ValidHistory(h)
    ensures NoteOf(After(h).file) == NoteAfter(h)
    ensures var m := Boot(h, s).mem.boot;
            && m.streak == NextStreak(NoteAfter(h)) && (m.suspect <==> m.streak >= 5)
            && m.survived == 0 && m.start == s.start
    decreases |h|
  {
    hide Run, SystemBooted, MarkSaved, SavedIn, NoteOf;
    BootNotes(After(h).file, s.start, s.reason, s.saves);
    if h == [] {
      NoFile();
    } else {
      var last, before := h[|h| - 1], h[..|h| - 1];
      assert last in h;
      BootsFollowNotes(before, last);
      BootNotes(After(before).file, last.start, last.reason, last.saves);
      DuringSession(Boot(before, last), last.start, last.events);
      var b := Boot(before, last);
      if MarkSaved(b, last.start, last.events) {
        MarkIsSave(b, last.start, last.events);
      }
      assert After(h) == Run(b, last.events);
    }
  }

  lemma NoFile()
    ensures NoteOf(None) == NoNote
  {
  }

  /** How many sessions at the end of a history were not marked. */
  ghost function ShortRun(h: seq<Session>): nat
    requires ValidHistory(h)
  {
    if h == [] || Marked(h, |h| - 1) then 0 else 1 + ShortRun(h[..|h| - 1])
  }

  /** `n` is reached exactly when the last `n` sessions all ended without a mark. */
  lemma {:induction false} ShortRunCounts(h: seq<Session>, n: nat)
    requires ValidHistory(h)
    ensures ShortRun(h) >= n <==> n <= |h| && forall i :: |h| - n <= i < |h| ==> !Marked(h, i)
  {
    hide Marked;
    if h != [] && n > 0 {
      var last := |h| - 1;
      ShortRunCounts(h[..last], n - 1);
      forall i | 0 <= i < last ensures Marked(h[..last], i) <==> Marked(h, i) {
        SamePast(h, last, i);
      }
      assert n <= |h| && Marked(h, last) ==> |h| - n <= last;
    }
  }

  function Capped(n: nat): byte { if n < 255 then n else 255 }

  /** While every session is recorded, the note is the capped number of unmarked sessions before the last. */
  lemma {:induction false} NoteCounts(h: seq<Session>)
    requires ValidHistory(h) && AllRecorded(h)
    ensures NoteAfter(h) == if h == [] then NoNote else Noted(Capped(ShortRun(h[..|h| - 1])), Marked(h, |h| - 1))
    ensures NextStreak(NoteAfter(h)) == Capped(ShortRun(h))
    decreases |h|
  {
    hide Recorded, Marked;
    if h != [] {
      var n := |h| - 1;
      forall i | 0 <= i < n ensures Recorded(h[..n], i) {
        SamePast(h, n, i);
      }
      NoteCounts(h[..n]);
    }
  }

  /** Every boot reports the number of sessions just before it that ended without the mark, capped at 255,
      and suspects a loop exactly when there are five or more of them, as long as some save of every session
      went through once its streak was counted. */
  lemma StreakCountsShortSessions(h: seq<Session>, s: Session)
    requires ValidHistory(h) && AllRecorded(h)
    ensures var m := Boot(h, s).mem.boot;
            && m.streak == Capped(ShortRun(h)) && (m.suspect <==> ShortRun(h) >= 5)
            && m.survived == 0 && m.start == s.start
  {
    hide Boot, AllRecorded, ShortRun, NoteAfter, NextStreak;
    BootsFollowNotes(h, s);
    NoteCounts(h);
  }

  /** The flag over a whole session: it is up exactly when the five sessions before all ended unmarked. */
  lemma LoopFlagMeansFiveShortSessions(h: seq<Session>, s: Session)
    requires ValidHistory(h) && AllRecorded(h) && ValidHistory(h + [s])
    ensures After(h + [s]).mem.boot.suspect <==> |h| >= 5 && forall i :: |h| - 5 <= i < |h| ==> !Marked(h, i)
  {
    hide Run, SystemBooted, Marked, AllRecorded;
    assert (h + [s])[..|h|] == h && s in h + [s];
    assert forall t :: t in h ==> t in h + [s];
    StreakCountsShortSessions(h, s);
    DuringSession(Boot(h, s), s.start, s.events);
    ShortRunCounts(h, 5);
  }

  // ---- The first session that leaves no record ----

  /** What the boot after the first unrecorded session `s` reports: the streak is that of `s` again, or, when the
      first save of its boot went through, one more than the streak of the session before `s`, whether or not
      that one had survived. */
  lemma FirstLostSession(h: seq<Session>, s: Session, next: Session)
    requires ValidHistory(h) && AllRecorded(h) && ValidHistory(h + [s]) && !Recorded(h + [s], |h|)
    ensures ShortRun(h + [s]) == ShortRun(h) + 1
    ensures Boot(h + [s], next).mem.boot.streak
            == if !s.saves.counted then Capped(ShortRun(h))
               else if h == [] then 1 else Capped(ShortRun(h[..|h| - 1]) + 1)
    ensures Boot(h + [s], next).mem.boot.suspect <==> Boot(h + [s], next).mem.boot.streak >= 5
  {
    hide Boot, AllRecorded, SavedIn, Marked, ShortRun;
    var all := h + [s];
    assert all[..|all| - 1] == h && all[|all| - 1] == s;
    if Marked(all, |h|) {
      MarkIsRecorded(all, |h|);
    }
    NoteCounts(h);
    LastIsShort(all);
    BootsFollowNotes(all, next);
    assert NoteAfter(all) == AfterBoot(NoteAfter(h), s.saves);
  }

  lemma LastIsShort(h: seq<Session>)
    requires ValidHistory(h) && h != [] && !Marked(h, |h| - 1)
    ensures ShortRun(h) == ShortRun(h[..|h| - 1]) + 1
  {
    hide Marked;
  }

  /** Exactly when that report is still the number of unmarked sessions, and exactly when its flag misses a loop
      or raises a false alarm. */
  lemma LostSessionMisleadsExactly(h: seq<Session>, s: Session, next: Session)
    requires ValidHistory(h) && AllRecorded(h) && ValidHistory(h + [s]) && !Recorded(h + [s], |h|)
    ensures var m := Boot(h + [s], next).mem.boot;
            var survivor := s.saves.counted && h != [] && Marked(h, |h| - 1);
            var short := ShortRun(h + [s]);
            && (m.streak == Capped(short)
                <==> ShortRun(h) >= 255 || (s.saves.counted && h == [])
                     || (survivor && ShortRun(h[..|h| - 1]) == 0))
            && (short >= 5 && !m.suspect <==> ShortRun(h) == 4)
            && (short < 5 && m.suspect <==> survivor && ShortRun(h[..|h| - 1]) >= 4)
  {
    hide Boot, AllRecorded, Recorded, Marked;
    FirstLostSession(h, s, next);
  }

  /** When only the first of a boot's two saves goes through, and none in its session, the next boot counts on
      from the streak before, even when the session before had survived: with a recorded streak of 4 or more
      it then suspects a loop. */
  lemma LostMarkerKeepsOldStreak(file: Option<seq<byte>>, start: u32, reason: byte, next: Session)
    requires Loadable(file)
    ensures var r := UplinkFile.Load(file.value).value;
            var b := SystemBooted(file, start, reason, BootSaves(true, false));
            var m := SystemBooted(b.file, next.start, next.reason, next.saves).mem.boot;
            && m.streak == Capped(r.streak as nat + 1)
            && (m.suspect <==> r.streak >= 4)
  {
    hide UplinkFile.Load, SystemBooted;
    var saves := BootSaves(true, false);
    BootNotes(file, start, reason, saves);
    BootNotes(SystemBooted(file, start, reason, saves).file, next.start, next.reason, next.saves);
  }

  // ---- The boot count ----

  /** The boot count reached the file, by either save of the boot or by any later one. */
  ghost predicate Counts(h: seq<Session>, i: nat)
    requires ValidHistory(h) && i < |h|
  {
    assert h[i] in h;
    h[i].saves.counted || h[i].saves.marked || SavedIn(Boot(h[..i], h[i]), h[i].events)
  }

  /** The boot count in the file; 0 without a good one. */
  function CountOf(file: Option<seq<byte>>): nat {
    if Loadable(file) then UplinkFile.Load(file.value).value.bootCount % 0x100 else 0
  }

  lemma ImageCounts(m: Mem)
    ensures CountOf(Some(Image(m))) == m.boot.count as nat
  {
    hide Image, UplinkFile.Load;
    LoadImage(m);
  }

  lemma CountKept(s: System, e: Event)
    requires ValidEvent(e) && !e.Reboot?
    ensures Step(s, e).mem.boot.count == s.mem.boot.count && Step(s, e).mem.boot.reason == s.mem.boot.reason
    ensures CountOf(Step(s, e).file) == if Saves(s, e) then s.mem.boot.count as nat else CountOf(s.file)
  {
    hide UplinkRules.Decide, UplinkRules.Prepare, Counted, Shown, Accepts, Image, Booted, CountOf, Saves;
    SaveWrites(s, e);
    ImageCounts(Step(s, e).mem);
  }

  lemma {:induction false} CountDuringSession(b: System, events: seq<Event>)
    requires ValidEvents(events) && (forall e :: e in events ==> !e.Reboot?)
    ensures Run(b, events).mem.boot.count == b.mem.boot.count && Run(b, events).mem.boot.reason == b.mem.boot.reason
    ensures CountOf(Run(b, events).file) == if SavedIn(b, events) then b.mem.boot.count as nat else CountOf(b.file)
  {
    hide Step, Saves, SavedIn, SavesAt, CountOf;
    if events == [] {
      NothingYet(b, 0);
    } else {
      var n := |events| - 1;
      var init, e := events[..n], events[n];
      assert e in events && events == init + [e];
      CountDuringSession(b, init);
      CountKept(Run(b, init), e);
      SavedAppends(b, events);
      SavesNow(b, init, e);
    }
  }

  lemma BootCount(file: Option<seq<byte>>, start: u32, reason: byte, saves: BootSaves)
    ensures var b := SystemBooted(file, start, reason, saves);
            && b.mem.boot.count as nat == (CountOf(file) + 1) % 0x100 && b.mem.boot.reason == reason
            && CountOf(b.file) == if saves.counted || saves.marked then b.mem.boot.count as nat else CountOf(file)
  {
    hide Image, UplinkFile.Load;
    ImageCounts(BootCounted(file));
    ImageCounts(Booted(file, start, reason));
  }

  /** How many sessions of a history have their count in the file, where each boot goes on from the last such count. */
  ghost function CountAfter(h: seq<Session>): nat
    requires ValidHistory(h)
  {
    if h == [] then 0
    else CountAfter(h[..|h| - 1]) + if Counts(h, |h| - 1) then 1 else 0
  }

  lemma CountStep(h: seq<Session>)
    requires ValidHistory(h) && h != []
    ensures h[|h| - 1] in h
    ensures var before, last := h[..|h| - 1], h[|h| - 1];
            CountOf(After(h).file) == if Counts(h, |h| - 1) then Boot(before, last).mem.boot.count as nat
                                      else CountOf(After(before).file)
  {
    hide Run, SystemBooted, SavedIn, CountOf;
    var before, last := h[..|h| - 1], h[|h| - 1];
    assert last in h;
    BootCount(After(before).file, last.start, last.reason, last.saves);
    CountDuringSession(Boot(before, last), last.events);
  }

  /** Every boot reports the reset reason of its start and one more than the number of sessions before whose count
      reached the file, modulo 256: while some save of every session goes through, the number of boots. */
  lemma {:induction false} BootsAreCounted(h: seq<Session>, s: Session)
    requires ValidHistory(h)
    ensures CountOf(After(h).file) == CountAfter(h) % 0x100
    ensures Boot(h, s).mem.boot.count as nat == (CountAfter(h) + 1) % 0x100
    ensures Boot(h, s).mem.boot.reason == s.reason
    ensures (forall i :: 0 <= i < |h| ==> Counts(h, i)) ==> CountAfter(h) == |h|
    decreases |h|
  {
    hide Run, SystemBooted, Counts, CountOf;
    BootCount(After(h).file, s.start, s.reason, s.saves);
    AddLow8(CountAfter(h), 1);
    if h == [] {
      NoCount();
    } else {
      CountStep(h);
      BootsAreCounted(h[..|h| - 1], h[|h| - 1]);
    }
    if forall i :: 0 <= i < |h| ==> Counts(h, i) {
      AllCount(h);
    }
  }

  lemma {:induction false} AllCount(h: seq<Session>)
    requires ValidHistory(h) && forall i :: 0 <= i < |h| ==> Counts(h, i)
    ensures CountAfter(h) == |h|
  {
    hide Counts;
    if h != [] {
      var before := h[..|h| - 1];
      forall i | 0 <= i < |before| ensures Counts(before, i) {
        SameCounts(h, i);
      }
      AllCount(before);
      assert Counts(h, |h| - 1);
    }
  }

  lemma SameCounts(h: seq<Session>, i: nat)
    requires ValidHistory(h) && i < |h| - 1
    ensures Counts(h[..|h| - 1], i) <==> Counts(h, i)
  {
    hide Boot, SavedIn;
    assert h[..|h| - 1][..i] == h[..i];
  }

  lemma NoCount()
    ensures CountOf(None) == 0
  {
  }
}
