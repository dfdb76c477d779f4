/**
  The vehicle's receive windows: bytes become messages, messages move the link counters and forward
  commands, and the counters decide the link state.
 */
module LoraLink {
  import opened Bytes
  import opened Uplink2
  import opened RxMachine

  const LINK_DISCONNECTED: byte := 0
  const LINK_CONNECTED: byte := 1
  const LINK_DEGRADED: byte := 2
  const LOSS_THRESHOLD: nat := 30
  const TIMEOUT_MS: nat := 5000
  const FEEDBACK_OK: byte := 0
  const FEEDBACK_CRC_FAIL: byte := 1

  type ShortCommand = c: Command | |c.payload| <= MAX_PAYLOAD witness Command(0, 0, 0, 0, [])

  /** What the library's text parsing finds in a line; the parsing itself is a parameter. */
  datatype TextKind = AckText(echo: u32) | BadAckText | UpText(cmd: ShortCommand) | BadUpText | OtherText

  type Classifier = seq<byte> -> TextKind

  datatype Link = Link(
    lastSentSeq: u32, rxAckCount: u32, rxCmdCount: u32, rxErrorCount: u16,
    noAckCount: u16, ackThisCycle: bool, seqFailCount: u16, lastAckMs: u32, feedback: byte)

  datatype Handled = Handled(link: Link, fwd: Option<FwdCommand>)

  // ---- Handling one message ----

  function AcceptAck(l: Link, mismatch: bool, now: u32): Link {
    l.(seqFailCount := if mismatch then Inc16(l.seqFailCount) else l.seqFailCount,
       rxAckCount := Inc32(l.rxAckCount), noAckCount := 0, ackThisCycle := true, lastAckMs := now)
  }

  function CountError(l: Link): Link { l.(rxErrorCount := Inc16(l.rxErrorCount)) }

  function AcceptCommand(l: Link): Link {
    l.(feedback := FEEDBACK_OK, rxCmdCount := Inc32(l.rxCmdCount))
  }

  function HandleBinary(l: Link, b: seq<byte>, now: u32): Handled {
    if b == [] then Handled(l, None)
    else if b[0] == Dl2.ACK2_MAGIC then
      match ParseAck2(b)
      case Some(echo) => Handled(AcceptAck(l, echo != l.lastSentSeq % 0x1_0000, now), None)
      case None => Handled(CountError(l), None)
    else if b[0] == Dl2.UP2_MAGIC then
      match ParseUp2(b)
      case Some(c) => Handled(AcceptCommand(l), Some(Forward(c)))
      case None => Handled(CountError(l.(feedback := FEEDBACK_CRC_FAIL)), None)
    else Handled(l, None)
  }

  function HandleText(l: Link, kind: TextKind, now: u32): Handled {
    match kind
    case AckText(echo) => Handled(AcceptAck(l, echo != l.lastSentSeq, now), None)
    case BadAckText => Handled(CountError(l), None)
    case UpText(c) => Handled(AcceptCommand(l), Some(Forward(c)))
    case BadUpText => Handled(CountError(l.(feedback := FEEDBACK_CRC_FAIL)), None)
    case OtherText => Handled(l, None)
  }

  function Handle(l: Link, classify: Classifier, m: Msg, now: u32): Handled {
    match m
    case TextLine(b) => HandleText(l, classify(b), now)
    case Binary(b) => HandleBinary(l, b, now)
  }

  // ---- One receive window ----

  /** The result of one poll of the serial port. */
  datatype Poll = Byte(c: byte, now: u32) | NoData | Interrupted | WouldBlock | ReadError

  datatype Comm = Comm(rx: Rx, link: Link, open: bool, dispatched: seq<Msg>, forwarded: seq<FwdCommand>)

  /** Hands a completed message to its handler; the receive machine is empty again. */
  function Deliver(s: Comm, m: Msg, classify: Classifier, now: u32): Comm {
    var h := Handle(s.link, classify, m, now);
    s.(rx := Reset(s.rx), link := h.link, dispatched := s.dispatched + [m],
       forwarded := if h.fwd.Some? then s.forwarded + [h.fwd.value] else s.forwarded)
  }

  function Finish(s: Comm, o: Outcome, classify: Classifier, now: u32): Comm {
    match o.msg
    case None => s.(rx := o.rx)
    case Some(m) => Deliver(s, m, classify, now).(rx := o.rx)
  }

  function TakeByte(s: Comm, classify: Classifier, c: byte, now: u32): Comm {
    Finish(s, Receive(s.rx, c), classify, now)
  }

  function ReadAll(s: Comm, classify: Classifier, polls: seq<Poll>): Comm
    decreases |polls|
  {
    if polls == [] || !s.open then s
    else
      match polls[0]
      case Byte(c, now) => ReadAll(TakeByte(s, classify, c, now), classify, polls[1..])
      case NoData => ReadAll(s, classify, polls[1..])
      case Interrupted => ReadAll(s, classify, polls[1..])
      case WouldBlock => s
      case ReadError => s.(open := false)
  }

  function CloseWindow(l: Link): Link {
    if !l.ackThisCycle && l.noAckCount < 0xFFFF then l.(noAckCount := l.noAckCount + 1) else l
  }

  function Window(s: Comm, classify: Classifier, polls: seq<Poll>): Comm {
    var r := ReadAll(s.(link := s.link.(ackThisCycle := false)), classify, polls);
    r.(link := CloseWindow(r.link))
  }

  /** The bytes a window takes from the port. */
  function DataOf(open: bool, polls: seq<Poll>): seq<byte>
    decreases |polls|
  {
    if polls == [] || !open then []
    else
      match polls[0]
      case Byte(c, now) => [c] + DataOf(open, polls[1..])
      case NoData => DataOf(open, polls[1..])
      case Interrupted => DataOf(open, polls[1..])
      case WouldBlock => []
      case ReadError => []
  }

  // ---- Exactness across windows ----

  lemma {:induction false} ReadsData(s: Comm, classify: Classifier, polls: seq<Poll>)
    ensures var r := ReadAll(s, classify, polls); var run := ReceiveAll(s.rx, DataOf(s.open, polls));
            r.rx == run.rx && r.dispatched == s.dispatched + run.msgs
    decreases |polls|
  {
    hide Receive, Handle;
    if polls != [] && s.open {
      match polls[0] {
        case Byte(c, now) =>
          var t, d := TakeByte(s, classify, c, now), DataOf(s.open, polls[1..]);
          ReadsData(t, classify, polls[1..]);
          assert [c][..0] == [];
          assert ReceiveAll(s.rx, []) == Run(s.rx, []);
          ReceiveAllConcat(s.rx, [c], d);
        case NoData => ReadsData(s, classify, polls[1..]);
        case Interrupted => ReadsData(s, classify, polls[1..]);
        case WouldBlock =>
        case ReadError =>
      }
    }
  }

  /** A receive window; the port may have been closed or reopened before it. */
  datatype WindowIn = WindowIn(open: bool, polls: seq<Poll>)

  function Windows(s: Comm, classify: Classifier, ws: seq<WindowIn>): Comm
    decreases |ws|
  {
    if ws == [] then s else Windows(Window(s.(open := ws[0].open), classify, ws[0].polls), classify, ws[1..])
  }

  function AllData(ws: seq<WindowIn>): seq<byte> {
    if ws == [] then [] else DataOf(ws[0].open, ws[0].polls) + AllData(ws[1..])
  }

  lemma {:induction false} WindowsReadData(s: Comm, classify: Classifier, ws: seq<WindowIn>)
    ensures var r := Windows(s, classify, ws); var run := ReceiveAll(s.rx, AllData(ws));
            r.rx == run.rx && r.dispatched == s.dispatched + run.msgs
    decreases |ws|
  {
    hide Receive, Handle;
    if ws != [] {
      var begun := s.(open := ws[0].open, link := s.link.(ackThisCycle := false));
      ReadsData(begun, classify, ws[0].polls);
      ReceiveAllConcat(s.rx, DataOf(ws[0].open, ws[0].polls), AllData(ws[1..]));
      WindowsReadData(Window(s.(open := ws[0].open), classify, ws[0].polls), classify, ws[1..]);
    }
  }

  /** Through any windows, whatever the port hands out, the receive machine stays valid with room for the
      terminator, and the handlers get only well-formed messages. */
  lemma WindowsStayValid(s: Comm, classify: Classifier, ws: seq<WindowIn>)
    requires Valid(s.rx)
    ensures var r := Windows(s, classify, ws);
            && Valid(r.rx) && |r.rx.buf| < BUF_LEN && s.dispatched <= r.dispatched
            && forall i :: |s.dispatched| <= i < |r.dispatched| ==> ValidMsg(r.dispatched[i])
  {
    hide Windows, ReceiveAll, Valid, ValidMsg;
    WindowsReadData(s, classify, ws);
    BytesKeepValid(s.rx, AllData(ws));
  }

  /** However the port hands out the bytes and wherever windows end, the handlers get exactly the
      messages that were sent, in order. */
  lemma WindowsAreExact(s: Comm, classify: Classifier, ws: seq<WindowIn>, msgs: seq<Msg>)
    requires s.rx.buf == [] && s.rx.mode == Idle
    requires forall i :: 0 <= i < |msgs| ==> ValidMsg(msgs[i])
    requires AllData(ws) == BytesOf(msgs)
    ensures var r := Windows(s, classify, ws); r.dispatched == s.dispatched + msgs && r.rx.buf == []
  {
    WindowsReadData(s, classify, ws);
    Exact(s.rx.target, msgs);
    assert s.rx == Rx([], Idle, s.rx.target);
  }

  // ---- Commands come through whole ----

  /** The commands the dispatched messages carry, parsed independently of the windows. */
  function CommandsIn(classify: Classifier, msgs: seq<Msg>): seq<FwdCommand> {
    if msgs == [] then []
    else
      var m := msgs[|msgs| - 1];
      CommandsIn(classify, msgs[..|msgs| - 1]) +
      match m
      case Binary(b) => (if ParseUp2(b).Some? then [Forward(ParseUp2(b).value)] else [])
      case TextLine(b) => (if classify(b).UpText? then [Forward(classify(b).cmd)] else [])
  }

  lemma {:induction false} ReadsForward(s: Comm, classify: Classifier, polls: seq<Poll>)
    requires s.forwarded == CommandsIn(classify, s.dispatched)
    ensures var r := ReadAll(s, classify, polls); r.forwarded == CommandsIn(classify, r.dispatched)
    decreases |polls|
  {
    hide Receive, ParseUp2, ParseAck2, Forward;
    if polls != [] && s.open {
      match polls[0] {
        case Byte(c, now) =>
          var t := TakeByte(s, classify, c, now);
          assert t.dispatched != s.dispatched ==> t.dispatched[..|t.dispatched| - 1] == s.dispatched;
          TakesForward(s, classify, c, now);
          ReadsForward(t, classify, polls[1..]);
        case NoData => ReadsForward(s, classify, polls[1..]);
        case Interrupted => ReadsForward(s, classify, polls[1..]);
        case WouldBlock =>
        case ReadError =>
      }
    }
  }

  lemma TakesForward(s: Comm, classify: Classifier, c: byte, now: u32)
    requires s.forwarded == CommandsIn(classify, s.dispatched)
    ensures var t := TakeByte(s, classify, c, now); t.forwarded == CommandsIn(classify, t.dispatched)
  {
    hide Receive, ParseAck2, Forward;
    var o := Receive(s.rx, c);
    if o.msg.Some? {
      assert (s.dispatched + [o.msg.value])[..|s.dispatched|] == s.dispatched;
      if o.msg.value.Binary? {
        OnlyUp2Parses(o.msg.value.bytes);
      }
    }
  }

  lemma OnlyUp2Parses(b: seq<byte>)
    ensures ParseUp2(b).Some? ==> b != [] && b[0] == Dl2.UP2_MAGIC
    ensures Dl2.UP2_MAGIC != Dl2.ACK2_MAGIC
  {
    hide Crc16.Crc;
  }

  lemma {:induction false} WindowsForward(s: Comm, classify: Classifier, ws: seq<WindowIn>)
    requires s.forwarded == CommandsIn(classify, s.dispatched)
    ensures var r := Windows(s, classify, ws); r.forwarded == CommandsIn(classify, r.dispatched)
    decreases |ws|
  {
    if ws != [] {
      ReadsForward(s.(open := ws[0].open, link := s.link.(ackThisCycle := false)), classify, ws[0].polls);
      WindowsForward(Window(s.(open := ws[0].open), classify, ws[0].polls), classify, ws[1..]);
    }
  }

  /** What the ground may send: commands, acknowledgements and lines of text. */
  datatype Sent = SentCommand(c: Command) | SentAck(echo: u16) | SentLine(line: seq<byte>)

  predicate ValidSent(x: Sent) {
    match x
    case SentCommand(c) => |c.payload| <= 196
    case SentAck(_) => true
    case SentLine(line) => |line| <= 254 && 10 !in line && (line != [] ==> line[0] != 0xA2 && line[0] != 0xB2)
  }

  ghost predicate AllValid(sent: seq<Sent>) {
    forall i :: 0 <= i < |sent| ==> ValidSent(sent[i])
  }

  function MsgOf(x: Sent): Msg
    requires ValidSent(x)
  {
    match x
    case SentCommand(c) => Binary(PrintUp2(c))
    case SentAck(echo) => Binary(PrintAck2(echo))
    case SentLine(line) => TextLine(line + [10])
  }

  function Msgs(sent: seq<Sent>): (msgs: seq<Msg>)
    requires AllValid(sent)
    ensures |msgs| == |sent|
  {
    seq(|sent|, i requires 0 <= i < |sent| => MsgOf(sent[i]))
  }

  /** The commands the ground meant, in order: the binary ones, and those it wrote as text. */
  function Meant(classify: Classifier, sent: seq<Sent>): seq<FwdCommand>
    requires AllValid(sent)
  {
    if sent == [] then []
    else
      var last := sent[|sent| - 1];
      Meant(classify, sent[..|sent| - 1]) +
      match last
      case SentCommand(c) => [Forward(c)]
      case SentAck(_) => []
      case SentLine(line) => (if classify(line + [LF]).UpText? then [Forward(classify(line + [LF]).cmd)] else [])
  }

  lemma {:induction false} SentCarries(classify: Classifier, sent: seq<Sent>)
    requires AllValid(sent)
    ensures CommandsIn(classify, Msgs(sent)) == Meant(classify, sent)
  {
    hide ParseUp2, Forward, PrintUp2, PrintAck2;
    if sent != [] {
      var init, last := sent[..|sent| - 1], sent[|sent| - 1];
      SentCarries(classify, init);
      assert Msgs(sent)[..|sent| - 1] == Msgs(init);
      assert Msgs(sent)[|sent| - 1] == MsgOf(last);
      match last {
        case SentCommand(c) => Up2Exact(PrintUp2(c), c);
        case SentAck(echo) => AckIsNoCommand(echo);
        case SentLine(line) =>
      }
    }
  }

  lemma AckIsNoCommand(echo: u16)
    ensures ParseUp2(PrintAck2(echo)) == None
  {
    hide Crc16.Crc;
  }

  lemma SentIsValid(x: Sent)
    requires ValidSent(x)
    ensures ValidMsg(MsgOf(x))
  {
    match x
    case SentCommand(c) => PrintedIsValid(c, 0);
    case SentAck(echo) => PrintedIsValid(Command(0, 0, 0, 0, []), echo);
    case SentLine(line) => LineIsValid(line);
  }

  lemma AllSentAreValid(sent: seq<Sent>)
    requires AllValid(sent)
    ensures forall i :: 0 <= i < |sent| ==> ValidMsg(Msgs(sent)[i])
  {
    hide ValidMsg, MsgOf;
    forall i | 0 <= i < |sent| ensures ValidMsg(Msgs(sent)[i]) {
      SentIsValid(sent[i]);
    }
  }

  lemma NoCommands(classify: Classifier)
    ensures CommandsIn(classify, []) == []
  {
  }

  lemma {:induction false} MeantPasses(classify: Classifier, sent: seq<Sent>)
    requires AllValid(sent)
    ensures forall f :: f in Meant(classify, sent) ==> ValidFwd(f) && ProxyCrc(f) == f.checksum
  {
    hide Forward, ProxyCrc;
    if sent != [] {
      MeantPasses(classify, sent[..|sent| - 1]);
      match sent[|sent| - 1] {
        case SentCommand(c) => ForwardedPasses(c);
        case SentAck(_) =>
        case SentLine(line) =>
          if classify(line + [LF]).UpText? {
            ForwardedPasses(classify(line + [LF]).cmd);
          }
      }
    }
  }

  /** End to end: whatever the ground sends, commands mixed with acknowledgements and text in any order, the
      command application gets exactly the commands that were meant, in order, with their fields and a
      checksum it accepts, wherever the stream is cut across receive windows. */
  lemma CommandsEndToEnd(s: Comm, classify: Classifier, ws: seq<WindowIn>, sent: seq<Sent>)
    requires s.rx.buf == [] && s.rx.mode == Idle && s.dispatched == [] && s.forwarded == []
    requires AllValid(sent) && AllData(ws) == BytesOf(Msgs(sent))
    ensures var r := Windows(s, classify, ws);
            r.dispatched == Msgs(sent) && r.forwarded == Meant(classify, sent)
    ensures forall f :: f in Meant(classify, sent) ==> ValidFwd(f) && ProxyCrc(f) == f.checksum
  {
    hide Windows, Meant, ProxyCrc, ValidFwd, ValidMsg, CommandsIn, MsgOf, ValidSent, AllData, BytesOf;
    AllSentAreValid(sent);
    NoCommands(classify);
    WindowsAreExact(s, classify, ws, Msgs(sent));
    WindowsForward(s, classify, ws);
    SentCarries(classify, sent);
    MeantPasses(classify, sent);
    assert [] + Msgs(sent) == Msgs(sent);
  }
}
