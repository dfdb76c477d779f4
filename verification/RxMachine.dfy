/**
  The vehicle's byte-driven receive machine.  The first byte of a message selects a text line, an
  ACK2 frame or a UP2 frame; the state survives the end of a receive window.
 */
module RxMachine {
  import opened Bytes
  import opened Uplink2
  import Dl2

  const BUF_LEN: nat := 256

  datatype Mode = Idle | Text | Ack2 | Up2Header | Up2Body

  datatype Rx = Rx(buf: seq<byte>, mode: Mode, target: nat)

  /** What is handed to the text handler and to the binary handler. */
  datatype Msg = TextLine(bytes: seq<byte>) | Binary(bytes: seq<byte>)

  datatype Outcome = Outcome(rx: Rx, msg: Option<Msg>)

  function Reset(rx: Rx): Rx { rx.(buf := [], mode := Idle) }

  /** The mode and target length after a byte has been stored. */
  function Select(rx: Rx): Rx
    requires rx.buf != []
  {
    if |rx.buf| != 1 then rx
    else if rx.buf[0] == Dl2.ACK2_MAGIC then rx.(mode := Ack2, target := 5)
    else if rx.buf[0] == Dl2.UP2_MAGIC then rx.(mode := Up2Header)
    else rx.(mode := Text)
  }

  function Receive(rx: Rx, c: byte): Outcome {
    if |rx.buf| >= BUF_LEN - 1 then Outcome(Reset(rx), None)
    else AfterStore(Select(rx.(buf := rx.buf + [c])), c)
  }

  /** What follows once `c` has been stored in `r`. */
  function AfterStore(r: Rx, c: byte): Outcome {
    match r.mode
    case Text => if c == LF then Outcome(Reset(r), Some(TextLine(r.buf))) else Outcome(r, None)
    case Up2Header =>
      if |r.buf| != 2 then Outcome(r, None)
      else if r.buf[1] as int > MAX_PAYLOAD then Outcome(Reset(r), None)
      else Outcome(r.(mode := Up2Body, target := 9 + r.buf[1]), None)
    case Ack2 => Complete(r)
    case Up2Body => Complete(r)
    case Idle => Outcome(r, None)
  }

  function Complete(r: Rx): Outcome {
    if |r.buf| >= r.target then Outcome(Reset(r), Some(Binary(r.buf))) else Outcome(r, None)
  }

  datatype Run = Run(rx: Rx, msgs: seq<Msg>)

  function ReceiveAll(rx: Rx, bytes: seq<byte>): Run {
    if bytes == [] then Run(rx, [])
    else
      var before := ReceiveAll(rx, bytes[..|bytes| - 1]);
      var o := Receive(before.rx, bytes[|bytes| - 1]);
      Run(o.rx, if o.msg.Some? then before.msgs + [o.msg.value] else before.msgs)
  }

  // ---- Invariant ----

  /** Buffer contents, mode and target length agree in every reachable state. */
  predicate Valid(rx: Rx) {
    match rx.mode
    case Idle => rx.buf == []
    case Text => 1 <= |rx.buf| < BUF_LEN && LF !in rx.buf && IsTextStart(rx.buf[0])
    case Ack2 => 1 <= |rx.buf| < 5 == rx.target && rx.buf[0] == Dl2.ACK2_MAGIC
    case Up2Header => rx.buf == [Dl2.UP2_MAGIC]
    case Up2Body =>
      && 2 <= |rx.buf| < rx.target && rx.buf[0] == Dl2.UP2_MAGIC
      && rx.buf[1] as int <= MAX_PAYLOAD && rx.target == 9 + rx.buf[1] as int
  }

  predicate IsTextStart(b: byte) { b != Dl2.ACK2_MAGIC && b != Dl2.UP2_MAGIC }

  /** What the handlers are given: a line ending in its only line feed that leaves room for the
      terminator, or a frame of exactly the length its first bytes announce. */
  predicate ValidMsg(m: Msg) {
    match m
    case TextLine(b) => 1 <= |b| < 256 && b[|b| - 1] == 10 && 10 !in b[..|b| - 1] && b[0] != 0xA2 && b[0] != 0xB2
    case Binary(b) =>
      || (|b| == 5 && b[0] == 0xA2)
      || (|b| >= 9 && b[0] == 0xB2 && b[1] <= 196 && |b| == 9 + b[1] as int)
  }

  lemma SelectKeepsValid(rx: Rx, c: byte)
    requires Valid(rx) && |rx.buf| < BUF_LEN - 1
    ensures var r := Select(rx.(buf := rx.buf + [c]));
            && r.buf == rx.buf + [c] && r.mode != Idle
            && (if rx.buf == [] then Started(r, c)
                else r.mode == rx.mode && r.target == rx.target
                     && r.buf[0] == rx.buf[0] && r.buf[..|r.buf| - 1] == rx.buf)
  {
  }

  /** The first byte of a message has been stored. */
  predicate Started(r: Rx, c: byte) {
    && r.buf == [c]
    && (r.mode == Ack2 ==> c == Dl2.ACK2_MAGIC && r.target == 5)
    && (r.mode == Up2Header ==> c == Dl2.UP2_MAGIC)
    && (r.mode == Text ==> IsTextStart(c))
    && r.mode != Idle && r.mode != Up2Body
  }

  /** The next byte of a message already begun. */
  lemma NextKeepsValid(rx: Rx, r: Rx, c: byte)
    requires Valid(rx) && rx.buf != [] && |rx.buf| < BUF_LEN - 1
    requires r == rx.(buf := rx.buf + [c])
    ensures var o := AfterStore(r, c);
            Valid(o.rx) && (o.msg.Some? ==> ValidMsg(o.msg.value) && o.rx.buf == [])
  {
    assert r.buf[0] == rx.buf[0] && r.buf[..|r.buf| - 1] == rx.buf;
    match rx.mode
    case Text =>
      assert LF in r.buf ==> c == LF;
    case Ack2 =>
    case Up2Header =>
    case Up2Body =>
      assert r.buf[1] == rx.buf[1];
  }

  lemma ReceiveKeepsValid(rx: Rx, c: byte)
    requires Valid(rx)
    ensures Valid(Receive(rx, c).rx)
    ensures Receive(rx, c).msg.Some? ==> ValidMsg(Receive(rx, c).msg.value) && Receive(rx, c).rx.buf == []
  {
    hide AfterStore;
    if |rx.buf| < BUF_LEN - 1 {
      SelectKeepsValid(rx, c);
      var r := Select(rx.(buf := rx.buf + [c]));
      if rx.buf == [] {
        FirstKeepsValid(r, c);
      } else {
        NextKeepsValid(rx, r, c);
      }
    }
  }

  lemma FirstKeepsValid(r: Rx, c: byte)
    requires Started(r, c)
    ensures var o := AfterStore(r, c);
            Valid(o.rx) && (o.msg.Some? ==> ValidMsg(o.msg.value) && o.rx.buf == [])
  {
  }

  lemma ValidFits(rx: Rx)
    requires Valid(rx)
    ensures |rx.buf| < BUF_LEN
  {
  }

  /** After any bytes, from any valid state, buffer contents, mode and target length agree, the buffer leaves
      room for the terminator, and only well-formed messages have been dispatched. */
  lemma {:induction false} BytesKeepValid(rx: Rx, bytes: seq<byte>)
    requires Valid(rx)
    ensures var r := ReceiveAll(rx, bytes);
            && Valid(r.rx) && |r.rx.buf| < 256
            && forall i :: 0 <= i < |r.msgs| ==> ValidMsg(r.msgs[i])
  {
    hide Receive, ValidMsg, Valid;
    if bytes == [] {
      ValidFits(rx);
    } else {
      var init := bytes[..|bytes| - 1];
      BytesKeepValid(rx, init);
      var before, last := ReceiveAll(rx, init).rx, bytes[|bytes| - 1];
      ReceiveKeepsValid(before, last);
      ValidFits(Receive(before, last).rx);
    }
  }

  /** The same in every state that the machine can reach. */
  lemma ReachableIsValid(t: nat, bytes: seq<byte>)
    ensures var r := ReceiveAll(Rx([], Idle, t), bytes);
            && Valid(r.rx) && |r.rx.buf| < 256
            && forall i :: 0 <= i < |r.msgs| ==> ValidMsg(r.msgs[i])
  {
    hide ReceiveAll, ValidMsg;
    BytesKeepValid(Rx([], Idle, t), bytes);
  }

  // ---- Bounded recovery from noise ----

  /** Every byte either empties the buffer or makes it one longer. */
  lemma EmptiesOrGrows(rx: Rx, c: byte)
    ensures var r := Receive(rx, c).rx; r.buf == [] || |r.buf| == |rx.buf| + 1
    ensures |rx.buf| >= BUF_LEN - 1 ==> Receive(rx, c).rx.buf == []
  {
  }

  lemma {:induction false} GrowsUntilEmpty(rx: Rx, bytes: seq<byte>)
    requires forall k :: 0 < k <= |bytes| ==> ReceiveAll(rx, bytes[..k]).rx.buf != []
    ensures |ReceiveAll(rx, bytes).rx.buf| == |rx.buf| + |bytes|
    ensures bytes != [] ==> |rx.buf| + |bytes| < BUF_LEN
  {
    if bytes != [] {
      var init := bytes[..|bytes| - 1];
      forall k | 0 < k <= |init| ensures ReceiveAll(rx, init[..k]).rx.buf != [] {
        assert init[..k] == bytes[..k];
      }
      GrowsUntilEmpty(rx, init);
      assert bytes[..|bytes|] == bytes;
      EmptiesOrGrows(ReceiveAll(rx, init).rx, bytes[|bytes| - 1]);
    }
  }

  /** Any 256 bytes in a row bring the machine back to the empty state at least once. */
  lemma RecoversWithin256(rx: Rx, bytes: seq<byte>)
    requires |bytes| >= 256
    ensures exists k :: 0 < k <= 256 && ReceiveAll(rx, bytes[..k]).rx.buf == []
  {
    var b := bytes[..BUF_LEN];
    if forall k :: 0 < k <= BUF_LEN ==> ReceiveAll(rx, bytes[..k]).rx.buf != [] {
      forall k | 0 < k <= BUF_LEN ensures ReceiveAll(rx, b[..k]).rx.buf != [] {
        assert b[..k] == bytes[..k];
      }
      GrowsUntilEmpty(rx, b);
    }
  }

  /** 255 bytes are not enough: a long enough unfinished line never empties the buffer. */
  lemma {:induction false} LongLineStays(line: seq<byte>)
    requires 1 <= |line| < 256 && 10 !in line && line[0] != 0xA2 && line[0] != 0xB2
    ensures ReceiveAll(Rx([], Idle, 0), line) == Run(Rx(line, Text, 0), [])
  {
    var init := line[..|line| - 1];
    if |line| > 1 {
      LongLineStays(init);
    }
    assert line == init + [line[|line| - 1]];
  }

  // ---- Exactness ----

  lemma {:induction false} ReceiveAllConcat(rx: Rx, a: seq<byte>, b: seq<byte>)
    ensures var r := ReceiveAll(rx, a);
            ReceiveAll(rx, a + b) == Run(ReceiveAll(r.rx, b).rx, r.msgs + ReceiveAll(r.rx, b).msgs)
  {
    if b == [] {
      assert a + b == a;
    } else {
      var init := b[..|b| - 1];
      assert (a + b)[..|a + b| - 1] == a + init;
      ReceiveAllConcat(rx, a, init);
    }
  }

  function BytesOf(msgs: seq<Msg>): seq<byte> {
    if msgs == [] then [] else BytesOf(msgs[..|msgs| - 1]) + msgs[|msgs| - 1].bytes
  }

  /** The machine holds the first `n` bytes of `m`. */
  ghost predicate Holds(rx: Rx, m: Msg, n: nat)
    requires 0 < n < |m.bytes|
  {
    && rx.buf == m.bytes[..n] && Valid(rx)
    && (m.TextLine? <==> rx.mode == Text)
    && (rx.mode == Up2Body ==> rx.target == |m.bytes|)
    && (rx.mode == Up2Header ==> n == 1)
  }

  lemma StoresFirst(t: nat, m: Msg)
    requires ValidMsg(m) && |m.bytes| > 1
    ensures var o := Receive(Rx([], Idle, t), m.bytes[0]); o.msg.None? && Holds(o.rx, m, 1)
  {
    assert m.bytes[..1] == [m.bytes[0]];
    if m.TextLine? {
      assert m.bytes[0] == m.bytes[..|m.bytes| - 1][0];
    }
  }

  lemma StoresNext(rx: Rx, m: Msg, n: nat)
    requires ValidMsg(m) && 0 < n < |m.bytes| - 1 && Holds(rx, m, n)
    ensures var o := Receive(rx, m.bytes[n]); o.msg.None? && Holds(o.rx, m, n + 1)
  {
    assert m.bytes[..n + 1] == m.bytes[..n] + [m.bytes[n]];
    ReceiveKeepsValid(rx, m.bytes[n]);
    if m.TextLine? {
      assert m.bytes[n] == m.bytes[..|m.bytes| - 1][n];
    }
  }

  /** A proper beginning of a message is stored without being dispatched. */
  lemma {:induction false} StoresBeginning(t: nat, m: Msg, n: nat)
    requires ValidMsg(m) && 0 < n < |m.bytes|
    ensures var r := ReceiveAll(Rx([], Idle, t), m.bytes[..n]); r.msgs == [] && Holds(r.rx, m, n)
  {
    hide Receive;
    var init := m.bytes[..n][..n - 1];
    assert init == m.bytes[..n - 1];
    if n == 1 {
      assert init == [];
      StoresFirst(t, m);
    } else {
      StoresBeginning(t, m, n - 1);
      StoresNext(ReceiveAll(Rx([], Idle, t), init).rx, m, n - 1);
    }
  }

  lemma TakesLast(rx: Rx, m: Msg)
    requires ValidMsg(m)
    requires if |m.bytes| == 1 then rx.buf == [] && rx.mode == Idle else Holds(rx, m, |m.bytes| - 1)
    ensures var o := Receive(rx, m.bytes[|m.bytes| - 1]); o.msg == Some(m) && o.rx.buf == [] && o.rx.mode == Idle
  {
    assert m.bytes == m.bytes[..|m.bytes| - 1] + [m.bytes[|m.bytes| - 1]];
  }

  /** A message is dispatched with its last byte, and the machine is empty again. */
  lemma DispatchesMessage(t: nat, m: Msg)
    requires ValidMsg(m)
    ensures var r := ReceiveAll(Rx([], Idle, t), m.bytes); r.msgs == [m] && r.rx.buf == [] && r.rx.mode == Idle
  {
    hide Receive;
    var n := |m.bytes|;
    var init := m.bytes[..n - 1];
    if n == 1 {
      assert init == [];
    } else {
      StoresBeginning(t, m, n - 1);
    }
    TakesLast(ReceiveAll(Rx([], Idle, t), init).rx, m);
  }

  lemma NothingReceived(rx: Rx)
    ensures ReceiveAll(rx, []) == Run(rx, [])
  {
  }

  /** The receive machine is exact: from the empty state, a concatenation of text lines, ACK2 frames
      and UP2 frames dispatches exactly those messages, in order, each to its own handler. */
  lemma {:induction false} Exact(t: nat, msgs: seq<Msg>)
    requires forall i :: 0 <= i < |msgs| ==> ValidMsg(msgs[i])
    ensures var r := ReceiveAll(Rx([], Idle, t), BytesOf(msgs)); r.msgs == msgs && r.rx.buf == [] && r.rx.mode == Idle
  {
    hide Receive, ValidMsg, ReceiveAll;
    if msgs == [] {
      NothingReceived(Rx([], Idle, t));
    } else {
      var init, last := msgs[..|msgs| - 1], msgs[|msgs| - 1];
      Exact(t, init);
      var mid := ReceiveAll(Rx([], Idle, t), BytesOf(init)).rx;
      ReceiveAllConcat(Rx([], Idle, t), BytesOf(init), last.bytes);
      DispatchesMessage(mid.target, last);
      assert mid == Rx([], Idle, mid.target);
      assert msgs == init + [last];
    }
  }

  /** Of what the ground builds, the machine can receive every acknowledgement, and exactly the commands of at
      most 196 bytes; longer ones, which the ground does print, it never dispatches. */
  lemma BuiltIsValidExactly(version: byte, commandClass: byte, seqNo: nat, payload: seq<byte>, flags: byte)
    ensures ValidMsg(Binary(BuildAck2(seqNo)))
    ensures var w := BuildUp2(version, commandClass, seqNo, payload, flags);
            w.Some? ==> (ValidMsg(Binary(w.value)) <==> |payload| <= 196)
  {
    hide Crc16.Crc;
  }

  lemma PrintedIsValid(c: Command, echo: u16)
    requires |c.payload| <= MAX_PAYLOAD
    ensures ValidMsg(Binary(PrintUp2(c))) && ValidMsg(Binary(PrintAck2(echo)))
  {
    hide Crc16.Crc;
  }

  /** The text lines the machine delivers: up to 254 bytes and a line feed. */
  lemma LineIsValid(line: seq<byte>)
    requires |line| <= 254 && LF !in line && (line != [] ==> IsTextStart(line[0]))
    ensures ValidMsg(TextLine(line + [LF]))
  {
    assert (line + [LF])[..|line|] == line;
  }
}
