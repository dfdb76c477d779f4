/**
  How the acknowledgement history decides the link counters and the published link state.
 */
module LinkState {
  import opened Bytes
  import opened Uplink2
  import opened RxMachine
  import opened LoraLink
  import Dl2

  function Elapsed(lastAckMs: u32, now: u32): nat {
    if lastAckMs == 0 || now < lastAckMs then 0 else now - lastAckMs
  }

  /** The state published after a cycle. */
  function StateFor(l: Link, now: u32): byte {
    if Elapsed(l.lastAckMs, now) > TIMEOUT_MS then LINK_DISCONNECTED
    else if l.noAckCount as int >= LOSS_THRESHOLD then LINK_DEGRADED
    else LINK_CONNECTED
  }

  // ---- The silent-window count ----

  predicate Acknowledges(classify: Classifier, m: Msg) {
    match m
    case Binary(b) => ParseAck2(b).Some?
    case TextLine(b) => classify(b).AckText?
  }

  ghost predicate AnyAck(classify: Classifier, msgs: seq<Msg>) {
    exists i :: 0 <= i < |msgs| && Acknowledges(classify, msgs[i])
  }

  /** What can move the count: a receive window, a counter reset command, a frame that was sent. */
  datatype Event = WindowRan(w: WindowIn) | CountersReset | FrameSent(seqNo: u32)

  function ResetLink(l: Link): Link {
    l.(rxAckCount := 0, rxCmdCount := 0, rxErrorCount := 0, noAckCount := 0)
  }

  function Apply(s: Comm, classify: Classifier, e: Event): Comm {
    match e
    case WindowRan(w) => Window(s.(open := w.open), classify, w.polls)
    case CountersReset => s.(link := ResetLink(s.link))
    case FrameSent(n) => s.(link := s.link.(lastSentSeq := n))
  }

  function ApplyAll(s: Comm, classify: Classifier, events: seq<Event>): Comm {
    if events == [] then s else Apply(ApplyAll(s, classify, events[..|events| - 1]), classify, events[|events| - 1])
  }

  /** The messages that a window starting in `s` completes. */
  function Arrived(s: Comm, w: WindowIn): seq<Msg> {
    ReceiveAll(s.rx, DataOf(w.open, w.polls)).msgs
  }

  /** Windows without an acknowledgement since the last window with one or the last counter reset. */
  ghost function TrailingSilent(s: Comm, classify: Classifier, events: seq<Event>): nat {
    if events == [] then 0
    else
      var init := events[..|events| - 1];
      match events[|events| - 1]
      case WindowRan(w) =>
        if AnyAck(classify, Arrived(ApplyAll(s, classify, init), w)) then 0 else TrailingSilent(s, classify, init) + 1
      case CountersReset => 0
      case FrameSent(n) => TrailingSilent(s, classify, init)
  }

  /** Handling a message acknowledges the link exactly when the message is a valid acknowledgement;
      otherwise it leaves the silent count and the time of the last acknowledgement alone. */
  lemma HandleAcks(l: Link, classify: Classifier, m: Msg, now: u32)
    ensures var h := Handle(l, classify, m, now).link;
            if Acknowledges(classify, m) then h.ackThisCycle && h.noAckCount == 0 && h.lastAckMs == now
            else h.ackThisCycle == l.ackThisCycle && h.noAckCount == l.noAckCount && h.lastAckMs == l.lastAckMs
  {
    hide Crc16.Crc;
  }

  lemma AnyAckSplits(classify: Classifier, a: seq<Msg>, b: seq<Msg>)
    ensures AnyAck(classify, a + b) <==> AnyAck(classify, a) || AnyAck(classify, b)
  {
    forall i | 0 <= i < |a + b| ensures (a + b)[i] == if i < |a| then a[i] else b[i - |a|] {
    }
    if AnyAck(classify, a) {
      var i :| 0 <= i < |a| && Acknowledges(classify, a[i]);
      assert (a + b)[i] == a[i];
    }
    if AnyAck(classify, b) {
      var i :| 0 <= i < |b| && Acknowledges(classify, b[i]);
      assert (a + b)[|a| + i] == b[i];
    }
  }

  lemma {:induction false} ReadsAcks(s: Comm, classify: Classifier, polls: seq<Poll>)
    ensures var r := ReadAll(s, classify, polls).link;
            var acked := AnyAck(classify, ReceiveAll(s.rx, DataOf(s.open, polls)).msgs);
            && r.ackThisCycle == (s.link.ackThisCycle || acked)
            && r.noAckCount == (if acked then 0 else s.link.noAckCount)
            && (!acked ==> r.lastAckMs == s.link.lastAckMs)
    decreases |polls|
  {
    hide Receive, Handle, Acknowledges;
    if polls != [] && s.open {
      match polls[0] {
        case Byte(c, now) =>
          var t, d := TakeByte(s, classify, c, now), DataOf(s.open, polls[1..]);
          ReadsAcks(t, classify, polls[1..]);
          var o := Receive(s.rx, c);
          var first := ReceiveAll(s.rx, [c]);
          assert [c][..0] == [] && ReceiveAll(s.rx, []) == Run(s.rx, []);
          assert first.rx == t.rx && first.msgs == if o.msg.Some? then [o.msg.value] else [];
          ReceiveAllConcat(s.rx, [c], d);
          AnyAckSplits(classify, first.msgs, ReceiveAll(t.rx, d).msgs);
          if o.msg.Some? {
            assert first.msgs[0] == o.msg.value;
            HandleAcks(s.link, classify, o.msg.value, now);
          }
        case NoData => ReadsAcks(s, classify, polls[1..]);
        case Interrupted => ReadsAcks(s, classify, polls[1..]);
        case WouldBlock =>
        case ReadError =>
      }
    }
  }

  /** The silent count is the number of trailing silent windows, capped at 65535. */
  lemma {:induction false} SilentCountIsTrailing(s: Comm, classify: Classifier, events: seq<Event>)
    requires s.link.noAckCount == 0
    ensures var n := TrailingSilent(s, classify, events);
            ApplyAll(s, classify, events).link.noAckCount == if n < 0xFFFF then n else 0xFFFF
  {
    hide ReadAll, ReceiveAll;
    if events != [] {
      var init := events[..|events| - 1];
      SilentCountIsTrailing(s, classify, init);
      var b := ApplyAll(s, classify, init);
      match events[|events| - 1] {
        case WindowRan(w) =>
          ReadsAcks(b.(open := w.open, link := b.link.(ackThisCycle := false)), classify, w.polls);
        case CountersReset =>
        case FrameSent(n) =>
      }
    }
  }

  // ---- Acknowledged sequence numbers ----

  /** The sequence number of the `k`th frame sent after `first`, in 32 bits. */
  function SeqAfter(first: u32, k: nat): u32 { (first + k) % 0x1_0000_0000 }

  /** With the frame numbered `first + n` the last one sent, the acknowledgement of the frame sent
      `j` frames earlier, at most 65535, counts as a mismatch exactly when `j` is not 0.  The ground
      echoes the 16 bits it decoded, so this holds across the 16-bit and the 32-bit wrap. */
  lemma AckOfEarlierFrame(l: Link, first: u32, n: nat, j: nat, now: u32)
    requires l.lastSentSeq == SeqAfter(first, n) && j <= n && j < 0x1_0000
    ensures var h := HandleBinary(l, BuildAck2(SeqAfter(first, n - j) % 0x1_0000), now).link;
            && h.seqFailCount == (if j == 0 then l.seqFailCount else Inc16(l.seqFailCount))
            && h.rxAckCount == Inc32(l.rxAckCount) && h.rxErrorCount == l.rxErrorCount
  {
    hide SeqAfter, HandleBinary, BuildAck2;
    var echo := SeqAfter(first, n - j) % 0x1_0000;
    AckIsHandled(l, echo, now);
    LowBitsTell(first, n, j);
  }

  /** A printed acknowledgement is taken as one. */
  lemma AckIsHandled(l: Link, echo: u16, now: u32)
    ensures HandleBinary(l, BuildAck2(echo), now).link == AcceptAck(l, echo != l.lastSentSeq % 0x1_0000, now)
  {
    hide ParseAck2, PrintAck2;
    Ack2Exact(PrintAck2(echo), echo);
    AckStarts(echo);
  }

  lemma AckStarts(echo: u16)
    ensures PrintAck2(echo)[0] == Dl2.ACK2_MAGIC
  {
    hide Crc16.Crc;
  }

  lemma LowBitsTell(first: u32, n: nat, j: nat)
    requires j <= n && j < 0x1_0000
    ensures SeqAfter(first, n - j) % 0x1_0000 == SeqAfter(first, n) % 0x1_0000 <==> j == 0
  {
    WrapTwice(first + n);
    WrapTwice(first + n - j);
    if j != 0 {
      DifferentLowBits(first + n, j);
    }
  }

  lemma WrapTwice(x: nat)
    ensures x % 0x1_0000_0000 % 0x1_0000 == x % 0x1_0000
  {
  }

  lemma DifferentLowBits(x: nat, j: nat)
    requires 0 < j < 0x1_0000 && j <= x
    ensures (x - j) % 0x1_0000 != x % 0x1_0000
  {
  }

  // ---- A radio outage ----

  /** A cycle: its receive window, and the clock when the link state is updated. */
  datatype Cycle = Cycle(w: WindowIn, now: u32)

  function WindowsOf(cycles: seq<Cycle>): seq<Event> {
    seq(|cycles|, i requires 0 <= i < |cycles| => WindowRan(cycles[i].w))
  }

  /** The state published at the end of cycle `i`. */
  function Published(s: Comm, classify: Classifier, cycles: seq<Cycle>, i: nat): byte
    requires i < |cycles|
  {
    StateFor(ApplyAll(s, classify, WindowsOf(cycles[..i + 1])).link, cycles[i].now)
  }

  ghost predicate Silent(s: Comm, classify: Classifier, cycles: seq<Cycle>) {
    forall i :: 0 <= i < |cycles| ==>
      !AnyAck(classify, Arrived(ApplyAll(s, classify, WindowsOf(cycles[..i])), cycles[i].w))
  }

  lemma {:induction false} SilentCycles(s: Comm, classify: Classifier, cycles: seq<Cycle>)
    requires s.link.noAckCount == 0 && Silent(s, classify, cycles)
    ensures var l := ApplyAll(s, classify, WindowsOf(cycles)).link;
            l.noAckCount == (if |cycles| < 0xFFFF then |cycles| else 0xFFFF) && l.lastAckMs == s.link.lastAckMs
  {
    hide Apply, AnyAck, Arrived;
    if cycles != [] {
      var n := |cycles| - 1;
      var init := cycles[..n];
      forall i | 0 <= i < n
        ensures !AnyAck(classify, Arrived(ApplyAll(s, classify, WindowsOf(init[..i])), init[i].w))
      {
        assert init[..i] == cycles[..i];
      }
      SilentCycles(s, classify, init);
      assert cycles[..n] == init;
      assert WindowsOf(cycles)[..n] == WindowsOf(init);
      SilentWindow(ApplyAll(s, classify, WindowsOf(init)), classify, cycles[n].w);
    }
  }

  /** One more silent window. */
  lemma SilentWindow(b: Comm, classify: Classifier, w: WindowIn)
    requires !AnyAck(classify, Arrived(b, w))
    ensures var l := Apply(b, classify, WindowRan(w)).link;
            && l.noAckCount == (if b.link.noAckCount < 0xFFFF then b.link.noAckCount + 1 else b.link.noAckCount)
            && l.lastAckMs == b.link.lastAckMs
  {
    hide ReadAll, ReceiveAll;
    ReadsAcks(b.(open := w.open, link := b.link.(ackThisCycle := false)), classify, w.polls);
  }

  /** During an outage that follows an acknowledgement at time `t`, DEGRADED is published, and before
      any DISCONNECTED, exactly when the 30th silent cycle completes within 5000 ms of `t`. */
  lemma OutageDegradesFirst(s: Comm, classify: Classifier, cycles: seq<Cycle>)
    requires s.link.noAckCount == 0 && s.link.lastAckMs != 0
    requires Silent(s, classify, cycles)
    requires forall i, j :: 0 <= i <= j < |cycles| ==> s.link.lastAckMs <= cycles[i].now <= cycles[j].now
    ensures (exists i :: 0 <= i < |cycles| && Published(s, classify, cycles, i) == 2
                         && forall k :: 0 <= k < i ==> Published(s, classify, cycles, k) != 0)
            <==> |cycles| >= 30 && cycles[29].now - s.link.lastAckMs <= 5000
  {
    hide ApplyAll;
    forall i | 0 <= i < |cycles|
      ensures Published(s, classify, cycles, i) ==
              if cycles[i].now - s.link.lastAckMs > TIMEOUT_MS then LINK_DISCONNECTED
              else if i + 1 >= LOSS_THRESHOLD then LINK_DEGRADED else LINK_CONNECTED
    {
      var part := cycles[..i + 1];
      forall k | 0 <= k < |part|
        ensures !AnyAck(classify, Arrived(ApplyAll(s, classify, WindowsOf(part[..k])), part[k].w))
      {
        assert part[..k] == cycles[..k];
      }
      SilentCycles(s, classify, part);
    }
    if |cycles| >= LOSS_THRESHOLD && cycles[LOSS_THRESHOLD - 1].now - s.link.lastAckMs <= TIMEOUT_MS {
      assert Published(s, classify, cycles, LOSS_THRESHOLD - 1) == LINK_DEGRADED;
    }
  }

  // ---- The published state over whole runs ----

  /** When the last acknowledgement of a window came, or `t` if none did. */
  function AckTimeIn(rx: Rx, open: bool, classify: Classifier, polls: seq<Poll>, t: u32): u32
    decreases |polls|
  {
    if polls == [] || !open then t
    else
      match polls[0]
      case Byte(c, now) =>
        var o := Receive(rx, c);
        AckTimeIn(o.rx, open, classify, polls[1..],
                  if o.msg.Some? && Acknowledges(classify, o.msg.value) then now else t)
      case NoData => AckTimeIn(rx, open, classify, polls[1..], t)
      case Interrupted => AckTimeIn(rx, open, classify, polls[1..], t)
      case WouldBlock => t
      case ReadError => t
  }

  /** When the last acknowledgement of a run came; 0 before the first. */
  function LastAck(s: Comm, classify: Classifier, events: seq<Event>): u32 {
    if events == [] then 0
    else
      var init, before := events[..|events| - 1], LastAck(s, classify, events[..|events| - 1]);
      match events[|events| - 1]
      case WindowRan(w) => AckTimeIn(ApplyAll(s, classify, init).rx, w.open, classify, w.polls, before)
      case CountersReset => before
      case FrameSent(n) => before
  }

  lemma {:induction false} ReadsAckTime(s: Comm, classify: Classifier, polls: seq<Poll>)
    ensures ReadAll(s, classify, polls).link.lastAckMs
            == AckTimeIn(s.rx, s.open, classify, polls, s.link.lastAckMs)
    decreases |polls|
  {
    hide Receive, Handle, Acknowledges;
    if polls != [] && s.open {
      match polls[0] {
        case Byte(c, now) =>
          ReadsAckTime(TakeByte(s, classify, c, now), classify, polls[1..]);
          var o := Receive(s.rx, c);
          if o.msg.Some? {
            HandleAcks(s.link, classify, o.msg.value, now);
          }
        case NoData => ReadsAckTime(s, classify, polls[1..]);
        case Interrupted => ReadsAckTime(s, classify, polls[1..]);
        case WouldBlock =>
        case ReadError =>
      }
    }
  }

  lemma {:induction false} AckTimeIsKept(s: Comm, classify: Classifier, events: seq<Event>)
    requires s.link.lastAckMs == 0
    ensures ApplyAll(s, classify, events).link.lastAckMs == LastAck(s, classify, events)
  {
    hide ReadAll, AckTimeIn;
    if events != [] {
      var init := events[..|events| - 1];
      AckTimeIsKept(s, classify, init);
      var b := ApplyAll(s, classify, init);
      match events[|events| - 1] {
        case WindowRan(w) =>
          ReadsAckTime(b.(open := w.open, link := b.link.(ackThisCycle := false)), classify, w.polls);
        case CountersReset =>
        case FrameSent(n) =>
      }
    }
  }

  /** The state that is published after any run from boot: DISCONNECTED (0) exactly when an acknowledgement has come,
      but none within the last 5000 ms; DEGRADED (2) exactly when that is not so and the last 30 windows were
      silent; CONNECTED (1) otherwise, so also before the first acknowledgement. */
  lemma PublishedExactly(s: Comm, classify: Classifier, events: seq<Event>, now: u32)
    requires s.link.noAckCount == 0 && s.link.lastAckMs == 0
    ensures var state := StateFor(ApplyAll(s, classify, events).link, now);
            var t := LastAck(s, classify, events);
            && (state == 0 <==> t != 0 && now as int > t as int + 5000)
            && (state == 2 <==> state != 0 && TrailingSilent(s, classify, events) >= 30)
            && (state == 1 <==> state != 0 && state != 2)
  {
    hide ApplyAll, TrailingSilent, LastAck;
    SilentCountIsTrailing(s, classify, events);
    AckTimeIsKept(s, classify, events);
  }

  // ---- The counters over whole runs ----

  predicate CarriesCommand(classify: Classifier, m: Msg) {
    match m
    case Binary(b) => ParseUp2(b).Some?
    case TextLine(b) => classify(b).UpText?
  }

  /** A command that arrived damaged. */
  predicate FaultyCommand(classify: Classifier, m: Msg) {
    match m
    case Binary(b) => b != [] && b[0] == 0xB2 && ParseUp2(b) == None
    case TextLine(b) => classify(b).BadUpText?
  }

  /** An acknowledgement that arrived damaged. */
  predicate FaultyAck(classify: Classifier, m: Msg) {
    match m
    case Binary(b) => b != [] && b[0] == 0xA2 && ParseAck2(b) == None
    case TextLine(b) => classify(b).BadAckText?
  }

  /** How many of the messages satisfy `p`. */
  function Count(msgs: seq<Msg>, p: Msg -> bool): nat {
    if msgs == [] then 0 else Count(msgs[..|msgs| - 1], p) + if p(msgs[|msgs| - 1]) then 1 else 0
  }

  /** The feedback on the last command, intact (0) or damaged (1); 0 before the first. */
  function Feedback(classify: Classifier, msgs: seq<Msg>): byte {
    if msgs == [] then 0
    else
      var m := msgs[|msgs| - 1];
      if CarriesCommand(classify, m) then 0
      else if FaultyCommand(classify, m) then 1
      else Feedback(classify, msgs[..|msgs| - 1])
  }

  /** The counters are those of the messages dispatched so far. */
  ghost predicate Tallied(classify: Classifier, s: Comm) {
    var faulty := m => FaultyCommand(classify, m) || FaultyAck(classify, m);
    && s.link.rxAckCount as int == Count(s.dispatched, m => Acknowledges(classify, m)) % 0x1_0000_0000
    && s.link.rxCmdCount as int == Count(s.dispatched, m => CarriesCommand(classify, m)) % 0x1_0000_0000
    && s.link.rxErrorCount as int == Count(s.dispatched, faulty) % 0x1_0000
    && s.link.feedback == Feedback(classify, s.dispatched)
  }

  lemma HandleTallies(l: Link, classify: Classifier, m: Msg, now: u32)
    ensures var h := Handle(l, classify, m, now).link;
            && h.rxAckCount == (if Acknowledges(classify, m) then Inc32(l.rxAckCount) else l.rxAckCount)
            && h.rxCmdCount == (if CarriesCommand(classify, m) then Inc32(l.rxCmdCount) else l.rxCmdCount)
            && h.rxErrorCount == (if FaultyCommand(classify, m) || FaultyAck(classify, m) then Inc16(l.rxErrorCount)
                                  else l.rxErrorCount)
            && h.feedback == (if CarriesCommand(classify, m) then 0 else if FaultyCommand(classify, m) then 1
                              else l.feedback)
  {
    hide Crc16.Crc;
  }

  lemma CountOne(msgs: seq<Msg>, m: Msg, p: Msg -> bool)
    ensures Count(msgs + [m], p) == Count(msgs, p) + if p(m) then 1 else 0
  {
    assert (msgs + [m])[..|msgs|] == msgs;
  }

  lemma FeedbackOne(classify: Classifier, msgs: seq<Msg>, m: Msg)
    ensures Feedback(classify, msgs + [m])
            == if CarriesCommand(classify, m) then 0 else if FaultyCommand(classify, m) then 1
               else Feedback(classify, msgs)
  {
    hide CarriesCommand, FaultyCommand;
    assert (msgs + [m])[..|msgs|] == msgs;
  }

  lemma IncWraps(n: nat)
    ensures Inc32(n % 0x1_0000_0000) as int == (n + 1) % 0x1_0000_0000
    ensures Inc16(n % 0x1_0000) as int == (n + 1) % 0x1_0000
  {
  }

  lemma TakeTallies(s: Comm, classify: Classifier, c: byte, now: u32)
    requires Tallied(classify, s)
    ensures Tallied(classify, TakeByte(s, classify, c, now))
  {
    hide Receive, Handle, Acknowledges, CarriesCommand, FaultyCommand, FaultyAck, Count, Feedback, Inc32, Inc16;
    var o := Receive(s.rx, c);
    if o.msg.Some? {
      var m := o.msg.value;
      HandleTallies(s.link, classify, m, now);
      FeedbackOne(classify, s.dispatched, m);
      TallyOne(s.dispatched, m, m => Acknowledges(classify, m));
      TallyOne(s.dispatched, m, m => CarriesCommand(classify, m));
      TallyOne(s.dispatched, m, m => FaultyCommand(classify, m) || FaultyAck(classify, m));
    }
  }

  /** One more message, for a counter of either width. */
  lemma TallyOne(msgs: seq<Msg>, m: Msg, p: Msg -> bool)
    ensures var n, k: nat := Count(msgs, p), Count(msgs + [m], p);
            && k % 0x1_0000_0000 == (if p(m) then Inc32(n % 0x1_0000_0000) as int else n % 0x1_0000_0000)
            && k % 0x1_0000 == (if p(m) then Inc16(n % 0x1_0000) as int else n % 0x1_0000)
  {
    hide Count, Inc32, Inc16;
    CountOne(msgs, m, p);
    IncWraps(Count(msgs, p));
  }

  lemma {:induction false} ReadsTally(s: Comm, classify: Classifier, polls: seq<Poll>)
    requires Tallied(classify, s)
    ensures Tallied(classify, ReadAll(s, classify, polls))
    decreases |polls|
  {
    hide TakeByte, Tallied;
    if polls != [] && s.open {
      match polls[0] {
        case Byte(c, now) =>
          TakeTallies(s, classify, c, now);
          ReadsTally(TakeByte(s, classify, c, now), classify, polls[1..]);
        case NoData => ReadsTally(s, classify, polls[1..]);
        case Interrupted => ReadsTally(s, classify, polls[1..]);
        case WouldBlock =>
        case ReadError => ClosingTallies(s, classify);
      }
    }
  }

  lemma ClosingTallies(s: Comm, classify: Classifier)
    requires Tallied(classify, s)
    ensures Tallied(classify, s.(open := false))
  {
  }

  /** Through any windows from boot the link counters are the numbers of acknowledgements, commands and damaged frames
      that were dispatched, modulo their widths, and the feedback is that on the last command. */
  lemma {:induction false} CountersCountMessages(s: Comm, classify: Classifier, ws: seq<WindowIn>)
    requires Tallied(classify, s)
    ensures var r := Windows(s, classify, ws);
            && r.link.rxAckCount as int == Count(r.dispatched, m => Acknowledges(classify, m)) % 0x1_0000_0000
            && r.link.rxCmdCount as int == Count(r.dispatched, m => CarriesCommand(classify, m)) % 0x1_0000_0000
            && r.link.rxErrorCount as int
               == Count(r.dispatched, m => FaultyCommand(classify, m) || FaultyAck(classify, m)) % 0x1_0000
            && r.link.feedback == Feedback(classify, r.dispatched)
    decreases |ws|
  {
    hide ReadAll, Count, Feedback;
    if ws != [] {
      ReadsTally(s.(open := ws[0].open, link := s.link.(ackThisCycle := false)), classify, ws[0].polls);
      CountersCountMessages(Window(s.(open := ws[0].open), classify, ws[0].polls), classify, ws[1..]);
    }
  }

  /** The state of a boot is tallied. */
  lemma BootIsTallied(classify: Classifier, rx: Rx, open: bool)
    ensures Tallied(classify, Comm(rx, Link(0, 0, 0, 0, 0, false, 0, 0, 0), open, [], []))
  {
  }

  /** The reset command clears the counts of acknowledgements, commands, errors and silent windows, and leaves the
      rest of the link's state alone, the time of the last acknowledgement among it. */
  lemma ResetClears(s: Comm, classify: Classifier)
    ensures var l, r := s.link, Apply(s, classify, CountersReset).link;
            && r.rxAckCount == 0 && r.rxCmdCount == 0 && r.rxErrorCount == 0 && r.noAckCount == 0
            && (r.lastAckMs, r.seqFailCount, r.lastSentSeq, r.feedback)
               == (l.lastAckMs, l.seqFailCount, l.lastSentSeq, l.feedback)
  {
  }
}
