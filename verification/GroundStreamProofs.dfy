/**
  What the ground parser guarantees about whole streams, however they are cut into chunks.
 */
module GroundStreamProofs {
  import opened Bytes
  import opened Crc16
  import opened GroundStream
  import Dl2

  function Concat(chunks: seq<seq<byte>>): seq<byte> {
    if chunks == [] then [] else chunks[0] + Concat(chunks[1..])
  }

  // ---- What the air side may print ----

  /** A frame on the wire, or a line of text without its line feed. */
  datatype Item = Wire(bytes: seq<byte>) | Text(line: seq<byte>)

  predicate ValidItem(i: Item) {
    match i
    case Wire(w) => ValidWire(w)
    case Text(l) =>
      |l| <= 256 && 10 !in l && 0xD2 !in l && (l == [] || 0x20 <= l[0] < 0x7F || l[0] == 13)
  }

  /** Magic byte, a length in range that fits, and a matching checksum. */
  predicate ValidWire(w: seq<byte>) {
    && 2 <= |w| && w[0] == 0xD2 && 48 <= w[1] <= 86 && |w| == w[1] as int + 2
    && Crc(w[..|w| - 2]) == ReadU16(w, |w| - 2)
  }

  ghost predicate ValidItems(items: seq<Item>) {
    forall i :: 0 <= i < |items| ==> ValidItem(items[i])
  }

  function Printed(i: Item): seq<byte> {
    match i
    case Wire(w) => w
    case Text(l) => l + [10]
  }

  function PrintedAll(items: seq<Item>): seq<byte> {
    if items == [] then [] else Printed(items[0]) + PrintedAll(items[1..])
  }

  function EventOf(i: Item): Event
    requires ValidItem(i)
  {
    match i
    case Wire(w) => Decoded(Dl2.Decode(w))
    case Text(l) => Line(StripCr(AsciiText(l)))
  }

  function EventsOf(items: seq<Item>): (events: seq<Event>)
    requires ValidItems(items)
    ensures |events| == |items|
  {
    if items == [] then [] else [EventOf(items[0])] + EventsOf(items[1..])
  }

  /** Every frame the encoder prints is a valid wire frame and reports exactly the frame sent. */
  lemma EncodedIsValid(f: Dl2.Frame)
    requires Dl2.Encodable(f) && !Dl2.Misleading(f)
    ensures ValidItem(Wire(Dl2.Encode(f))) && EventOf(Wire(Dl2.Encode(f))) == Decoded(Dl2.Sent(f))
  {
    hide Crc, Dl2.Decode;
    var w := Dl2.Encode(f);
    Dl2.Layout(f);
    Dl2.RoundTrip(f);
    assert w[0] == w[..45][0] && w[1] == w[..45][1];
    assert Dl2.Fixed(f)[0] == Dl2.Header(f)[0] && Dl2.Fixed(f)[1] == Dl2.Header(f)[1];
    assert w[|w| - 2..|w|] == w[|w| - 2..];
    ReadsU16(w, |w| - 2, Crc(Dl2.Body(f)));
  }

  /** An ASCII line without carriage returns at its ends comes out unchanged. */
  lemma PlainLineUnchanged(l: seq<byte>)
    requires forall i :: 0 <= i < |l| ==> l[i] < 0x80
    requires l != [] ==> l[0] != CR && l[|l| - 1] != CR
    ensures StripCr(AsciiText(l)) == l
  {
    assert forall i :: 0 <= i < |l| ==> AsciiText(l)[i] == l[i];
  }

  // ---- Single items ----

  /** A whole item at the front of the buffer is taken, whatever follows it. */
  lemma TakesItem(i: Item, q: seq<byte>)
    requires ValidItem(i)
    ensures TryParse(Printed(i) + q) == Step(Some(EventOf(i)), |Printed(i)|)
    ensures |Printed(i)| > 0
  {
    hide Crc, Dl2.Decode;
    var s := Printed(i) + q;
    match i {
      case Wire(w) =>
        assert s[..|w| - 2] == w[..|w| - 2] && s[..|w|] == w;
        assert s[|w| - 2] == w[|w| - 2] && s[|w| - 1] == w[|w| - 1];
      case Text(l) =>
        FindIs(s, LF, |l|);
        assert s[..|l|] == l;
        var m := Find(s, Dl2.MAGIC);
        assert forall k :: 0 <= k < |l| ==> s[k] == l[k];
        assert !(0 <= m < |l|);
    }
  }

  lemma FindIs(s: seq<byte>, b: byte, at: nat)
    requires at < |s| && s[at] == b && b !in s[..at]
    ensures Find(s, b) == at
  {
    var r := Find(s, b);
    assert forall k :: 0 <= k < at ==> s[k] == s[..at][k];
    assert r >= 0 ==> forall k :: 0 <= k < r ==> s[k] == s[..r][k];
  }

  /** An unfinished item makes the parser wait. */
  lemma WaitsForItem(i: Item, s: seq<byte>)
    requires ValidItem(i) && s < Printed(i)
    ensures TryParse(s) == Step(None, 0)
  {
    if s != [] {
      match i {
        case Wire(w) =>
          assert s[0] == w[0] && (|s| > 1 ==> s[1] == w[1]);
        case Text(l) =>
          assert s == l[..|s|];
          assert Find(s, LF) == -1 && Find(s, Dl2.MAGIC) == -1;
      }
    }
  }

  // ---- Exactness: any cut of any sequence of items gives back exactly those items ----

  lemma DrainsItem(i: Item, q: seq<byte>)
    requires ValidItem(i)
    ensures Drain(Printed(i) + q) == Parsed([EventOf(i)] + Drain(q).events, Drain(q).rest)
  {
    hide TryParse, EventOf, ValidItem, Printed;
    TakesItem(i, q);
    assert (Printed(i) + q)[|Printed(i)|..] == q;
  }

  lemma DrainsStart(i: Item, s: seq<byte>)
    requires ValidItem(i) && s < Printed(i)
    ensures Drain(s) == Parsed([], s)
  {
    WaitsForItem(i, s);
  }

  lemma DrainsEmpty(s: seq<byte>)
    requires s == []
    ensures Drain(s) == Parsed([], [])
  {
  }

  /** A prefix of printed items is parsed into its whole items; an unfinished item stays buffered. */
  lemma {:induction false} DrainsPrefix(items: seq<Item>, s: seq<byte>) returns (n: nat)
    requires ValidItems(items) && s <= PrintedAll(items)
    ensures n <= |items|
    ensures Drain(s).events == EventsOf(items[..n])
    ensures s + PrintedAll(items)[|s|..] == PrintedAll(items)
    ensures Drain(s).rest + PrintedAll(items)[|s|..] == PrintedAll(items[n..])
    ensures if n == |items| then Drain(s).rest == [] else Drain(s).rest < Printed(items[n])
    decreases |items|
  {
    hide TryParse, EventOf, ValidItem, Printed, Drain;
    var all := PrintedAll(items);
    if items == [] {
      n := 0;
      DrainsEmpty(s);
    } else {
      var head, tail := Printed(items[0]), items[1..];
      if |s| < |head| {
        n := 0;
        assert s == head[..|s|];
        DrainsStart(items[0], s);
      } else {
        var q := s[|head|..];
        assert s == head + q;
        DrainsItem(items[0], q);
        assert q == PrintedAll(tail)[..|q|];
        var k := DrainsPrefix(tail, q);
        n := k + 1;
        assert items[..n][1..] == tail[..k];
        assert items[n..] == tail[k..];
        assert all[|s|..] == PrintedAll(tail)[|q|..];
      }
    }
  }

  lemma {:induction false} EventsOfConcat(items: seq<Item>, n: nat)
    requires ValidItems(items) && n <= |items|
    ensures EventsOf(items[..n]) + EventsOf(items[n..]) == EventsOf(items)
    decreases n
  {
    hide EventOf, ValidItem;
    if n > 0 {
      EventsOfConcat(items[1..], n - 1);
      assert items[1..][..n - 1] == items[..n][1..];
      assert items[1..][n - 1..] == items[n..];
    } else {
      assert items[..0] == [] && items[0..] == items;
    }
  }

  /** The parser holds the beginning of the first item; the chunks hold the rest. */
  lemma {:induction false} FeedsItems(buf: seq<byte>, chunks: seq<seq<byte>>, items: seq<Item>)
    requires ValidItems(items) && buf + Concat(chunks) == PrintedAll(items)
    requires items == [] || buf < Printed(items[0])
    ensures FeedAll(buf, chunks) == Parsed(EventsOf(items), [])
    decreases |chunks|, 0
  {
    hide TryParse, EventOf, ValidItem;
    if chunks == [] {
      assert buf == PrintedAll(items);
    } else {
      assert PrintedAll(items) == (buf + chunks[0]) + Concat(chunks[1..]);
      FeedsFrom(buf + chunks[0], chunks[1..], items);
    }
  }

  /** The same with `s` about to be parsed. */
  lemma {:induction false} FeedsFrom(s: seq<byte>, later: seq<seq<byte>>, items: seq<Item>)
    requires ValidItems(items) && s + Concat(later) == PrintedAll(items)
    ensures Drain(s).events + FeedAll(Drain(s).rest, later).events == EventsOf(items)
    ensures FeedAll(Drain(s).rest, later).rest == []
    decreases |later|, 1
  {
    hide TryParse, EventOf, ValidItem;
    var n := DrainsPrefix(items, s);
    assert PrintedAll(items)[|s|..] == Concat(later);
    if n == |items| {
      assert items[n..] == [];
    }
    FeedsItems(Drain(s).rest, later, items[n..]);
    EventsOfConcat(items, n);
  }

  /** The parser inverts the printers: frames and lines come out exactly, in order, and nothing is
      left over, wherever the stream is cut. */
  lemma ExactForAnyCut(chunks: seq<seq<byte>>, items: seq<Item>)
    requires ValidItems(items) && Concat(chunks) == PrintedAll(items)
    ensures FeedAll([], chunks) == Parsed(EventsOf(items), [])
  {
    assert [] + Concat(chunks) == Concat(chunks);
    if items != [] {
      TakesItem(items[0], []);
    }
    FeedsItems([], chunks, items);
  }

  /** What the vehicle sends, as the ground should see it: frames, and lines of ASCII text. */
  datatype Sending = Frame(f: Dl2.Frame) | AsciiLine(l: seq<byte>)

  predicate Proper(x: Sending) {
    match x
    case Frame(f) => Dl2.Encodable(f) && !Dl2.Misleading(f)
    case AsciiLine(l) =>
      && |l| <= 256 && 10 !in l && (forall i :: 0 <= i < |l| ==> l[i] < 0x80)
      && (l != [] ==> 0x20 <= l[0] < 0x7F && l[|l| - 1] != 13)
  }

  function ItemOf(x: Sending): Item
    requires Proper(x)
  {
    match x
    case Frame(f) => Wire(Dl2.Encode(f))
    case AsciiLine(l) => Text(l)
  }

  function Seen(x: Sending): Event
    requires Proper(x)
  {
    match x
    case Frame(f) => Decoded(Dl2.Sent(f))
    case AsciiLine(l) => Line(l)
  }

  ghost predicate AllProper(xs: seq<Sending>) {
    forall i :: 0 <= i < |xs| ==> Proper(xs[i])
  }

  function ItemsOf(xs: seq<Sending>): seq<Item>
    requires AllProper(xs)
  {
    seq(|xs|, i requires 0 <= i < |xs| => ItemOf(xs[i]))
  }

  function AllSeen(xs: seq<Sending>): seq<Event>
    requires AllProper(xs)
  {
    seq(|xs|, i requires 0 <= i < |xs| => Seen(xs[i]))
  }

  lemma ProperIsSeen(x: Sending)
    requires Proper(x)
    ensures ValidItem(ItemOf(x)) && EventOf(ItemOf(x)) == Seen(x)
  {
    match x
    case Frame(f) => EncodedIsValid(f);
    case AsciiLine(l) => PlainLineUnchanged(l);
  }

  lemma {:induction false} AllProperAreSeen(xs: seq<Sending>)
    requires AllProper(xs)
    ensures ValidItems(ItemsOf(xs)) && EventsOf(ItemsOf(xs)) == AllSeen(xs)
  {
    hide Proper, ValidItem, EventOf, ItemOf, Seen;
    if xs != [] {
      ProperIsSeen(xs[0]);
      AllProperAreSeen(xs[1..]);
      var items := ItemsOf(xs);
      assert items[1..] == ItemsOf(xs[1..]) && AllSeen(xs)[1..] == AllSeen(xs[1..]);
      assert forall i :: 1 <= i < |items| ==> items[i] == items[1..][i - 1];
    }
  }

  /** The same in terms of what was sent: every frame comes out with all its fields, every line of ASCII text
      unchanged, in order, wherever the stream is cut. */
  lemma SentIsSeen(chunks: seq<seq<byte>>, xs: seq<Sending>)
    requires AllProper(xs) && Concat(chunks) == PrintedAll(ItemsOf(xs))
    ensures FeedAll([], chunks) == Parsed(AllSeen(xs), [])
  {
    hide Proper, ItemsOf, AllSeen, PrintedAll, FeedAll;
    AllProperAreSeen(xs);
    ExactForAnyCut(chunks, ItemsOf(xs));
  }

  // ---- Resynchronisation after noise ----

  ghost predicate NoFrames(events: seq<Event>) {
    forall i :: 0 <= i < |events| ==> !events[i].Decoded?
  }

  /** What begins with a magic byte here is no frame, and enough follows to tell: its length is out of range,
      or all its bytes are there and the checksum does not fit. */
  predicate Refuted(t: seq<byte>) {
    && |t| >= 2
    && (48 <= t[1] <= 86 ==>
          |t| >= t[1] as int + 2 && Crc(t[..t[1]]) != ReadU16(t, t[1] as int))
  }

  /** No magic byte in the noise, with `all` behind it, begins a frame. */
  ghost predicate FalseStarts(noise: seq<byte>, all: seq<byte>) {
    forall k :: 0 <= k < |noise| && noise[k] == 0xD2 ==> Refuted((noise + all)[k..])
  }

  /** Noise is used up piece by piece: an attempt on a part of the stream takes some of the noise and reports
      no frame, or waits for more. */
  lemma NoiseStep(noise: seq<byte>, all: seq<byte>, s: seq<byte>)
    requires noise != [] && s <= noise + all && FalseStarts(noise, all)
    requires all != [] && all[0] == Dl2.MAGIC
    ensures var step := TryParse(s);
            step.consumed <= |noise| && (step.consumed > 0 ==> !step.event.value.Decoded?)
    ensures s == noise + all ==> TryParse(s).consumed > 0
  {
    hide Crc, Dl2.Decode;
    var t := noise + all;
    if s != [] {
      assert s[0] == t[0] == noise[0];
      if s[0] == Dl2.MAGIC {
        assert t[0..] == t;
        assert Refuted(t);
        FalseFrame(t, s);
      } else if StartsLine(s[0]) {
        FindsBy(t, s, Dl2.MAGIC, |noise|);
      }
    }
  }

  /** A byte at `at` is found there or before, or lies beyond. */
  lemma FindsBy(t: seq<byte>, s: seq<byte>, b: byte, at: nat)
    requires s <= t && at < |t| && t[at] == b
    ensures Find(s, b) <= at && (Find(s, b) < 0 ==> |s| <= at)
  {
    var r := Find(s, b);
    assert forall k :: 0 <= k < r ==> s[..r][k] == s[k];
  }

  lemma FalseFrame(t: seq<byte>, s: seq<byte>)
    requires Refuted(t) && s <= t && s != [] && s[0] == Dl2.MAGIC
    ensures var step := TryParse(s);
            step.consumed <= 1 && (step.consumed == 1 ==> !step.event.value.Decoded?) && (s == t ==> step.consumed == 1)
  {
    hide Crc, Dl2.Decode;
    if |s| >= 2 {
      assert s[1] == t[1];
      var n: int := s[1];
      if Dl2.MIN_BODY <= n <= Dl2.MAX_BODY && |s| >= n + 2 {
        assert s[..n] == t[..n] && s[n] == t[n] && s[n + 1] == t[n + 1];
      }
    }
  }

  lemma LaterStarts(noise: seq<byte>, all: seq<byte>, n: nat)
    requires FalseStarts(noise, all) && n <= |noise|
    ensures FalseStarts(noise[n..], all)
  {
    hide Refuted;
    forall k | 0 <= k < |noise[n..]| && noise[n..][k] == Dl2.MAGIC
      ensures Refuted((noise[n..] + all)[k..])
    {
      assert (noise[n..] + all)[k..] == (noise + all)[n + k..];
    }
  }

  /** How far the noise has been used up when the parser has drained a part `s` of noise and items. */
  lemma {:induction false} DrainsNoise(noise: seq<byte>, all: seq<byte>, s: seq<byte>)
    returns (lost: seq<Event>, n: nat)
    requires s <= noise + all && FalseStarts(noise, all)
    requires all != [] && all[0] == Dl2.MAGIC
    ensures NoFrames(lost) && n <= |noise| && n <= |s|
    ensures n < |noise| ==> Drain(s) == Parsed(lost, s[n..]) && TryParse(s[n..]).consumed == 0
    ensures n == |noise| ==> Drain(s) == Parsed(lost + Drain(s[n..]).events, Drain(s[n..]).rest)
    decreases |noise|
  {
    hide TryParse, FalseStarts, Drain;
    if noise == [] {
      lost, n := [], 0;
      assert s[0..] == s && [] + Drain(s).events == Drain(s).events;
    } else {
      NoiseStep(noise, all, s);
      var step := TryParse(s);
      if step.consumed == 0 {
        lost, n := [], 0;
        DrainsNothing(s);
        assert s[0..] == s;
      } else {
        var c := step.consumed;
        LaterStarts(noise, all, c);
        assert s[c..] <= noise[c..] + all by {
          assert (noise + all)[c..] == noise[c..] + all;
        }
        var more, m := DrainsNoise(noise[c..], all, s[c..]);
        lost, n := [step.event.value] + more, c + m;
        assert s[c..][m..] == s[n..];
        OneStep(s);
        assert [step.event.value] + (more + Drain(s[n..]).events) == lost + Drain(s[n..]).events;
      }
    }
  }

  lemma FirstByte(items: seq<Item>)
    requires ValidItems(items) && items != [] && items[0].Wire?
    ensures PrintedAll(items) != [] && PrintedAll(items)[0] == Dl2.MAGIC
  {
  }

  /** `noise` is what is left of the noise; the parser holds the beginning `buf` of noise and items. */
  lemma {:induction false} FeedsNoise(buf: seq<byte>, chunks: seq<seq<byte>>, noise: seq<byte>, items: seq<Item>)
    returns (lost: seq<Event>)
    requires ValidItems(items) && items != [] && items[0].Wire?
    requires FalseStarts(noise, PrintedAll(items)) && noise != [] && TryParse(buf).consumed == 0
    requires buf + Concat(chunks) == noise + PrintedAll(items)
    ensures NoFrames(lost)
    ensures FeedAll(buf, chunks) == Parsed(lost + EventsOf(items), [])
    decreases |chunks|
  {
    hide TryParse, ValidItems, PrintedAll, EventsOf, FalseStarts, Drain, FeedAll, Concat;
    var all := PrintedAll(items);
    FirstByte(items);
    if chunks == [] {
      NoMore(buf);
      NoiseStep(noise, all, buf);
      lost := [];
    } else {
      var s, later := buf + chunks[0], Concat(chunks[1..]);
      ConcatHead(buf, chunks);
      Suffixes(s, later, noise, all);
      var first, n := DrainsNoise(noise, all, s);
      if n < |noise| {
        LaterStarts(noise, all, n);
        var more := FeedsNoise(s[n..], chunks[1..], noise[n..], items);
        lost := first + more;
        FedWaiting(buf, chunks, first, s[n..], more + EventsOf(items));
        assert lost + EventsOf(items) == first + (more + EventsOf(items));
      } else {
        lost := first;
        FeedsFrom(s[n..], chunks[1..], items);
        FedOnce(buf, chunks, first, s[n..], EventsOf(items));
      }
    }
  }

  lemma ConcatHead(buf: seq<byte>, chunks: seq<seq<byte>>)
    requires chunks != []
    ensures buf + Concat(chunks) == (buf + chunks[0]) + Concat(chunks[1..])
  {
  }

  lemma NoMore(buf: seq<byte>)
    ensures buf + Concat([]) == buf
  {
  }

  /** Two ways to split the same stream agree behind any position of both fronts. */
  lemma Suffixes(s: seq<byte>, later: seq<byte>, noise: seq<byte>, all: seq<byte>)
    requires s + later == noise + all
    ensures s <= noise + all
    ensures forall n: nat :: n <= |s| && n <= |noise| ==> s[n..] + later == noise[n..] + all
    ensures noise[|noise|..] + all == all
  {
    forall n: nat | n <= |s| && n <= |noise|
      ensures s[n..] + later == noise[n..] + all
    {
      assert s[n..] + later == (s + later)[n..] && noise[n..] + all == (noise + all)[n..];
    }
  }

  /** The first of several chunks reports what is lost, and the rest as if it came alone. */
  lemma FedOnce(buf: seq<byte>, chunks: seq<seq<byte>>, lost: seq<Event>, p: seq<byte>, events: seq<Event>)
    requires chunks != []
    requires Drain(buf + chunks[0]) == Parsed(lost + Drain(p).events, Drain(p).rest)
    requires var f := FeedAll(Drain(p).rest, chunks[1..]); Drain(p).events + f.events == events && f.rest == []
    ensures FeedAll(buf, chunks) == Parsed(lost + events, [])
  {
    hide Drain;
    var f := FeedAll(Drain(p).rest, chunks[1..]);
    assert (lost + Drain(p).events) + f.events == lost + (Drain(p).events + f.events);
  }

  lemma FedWaiting(buf: seq<byte>, chunks: seq<seq<byte>>, lost: seq<Event>, p: seq<byte>, events: seq<Event>)
    requires chunks != [] && Drain(buf + chunks[0]) == Parsed(lost, p)
    requires FeedAll(p, chunks[1..]) == Parsed(events, [])
    ensures FeedAll(buf, chunks) == Parsed(lost + events, [])
  {
    hide Drain;
  }

  /** Resynchronisation: after any noise, even with magic bytes in it, the next frame and everything after it
      come out exactly, in any cut and even when lines overflow, provided that no magic byte of the noise
      begins a frame and enough follows each of them to tell. */
  lemma Resynchronises(chunks: seq<seq<byte>>, noise: seq<byte>, items: seq<Item>) returns (lost: seq<Event>)
    requires FalseStarts(noise, PrintedAll(items))
    requires ValidItems(items) && items != [] && items[0].Wire?
    requires Concat(chunks) == noise + PrintedAll(items)
    ensures NoFrames(lost)
    ensures FeedAll([], chunks) == Parsed(lost + EventsOf(items), [])
  {
    if noise == [] {
      lost := [];
      assert noise + PrintedAll(items) == PrintedAll(items);
      ExactForAnyCut(chunks, items);
      assert [] + EventsOf(items) == EventsOf(items);
    } else {
      assert [] + Concat(chunks) == Concat(chunks);
      lost := FeedsNoise([], chunks, noise, items);
    }
  }

  /** In particular after noise that holds no magic byte, or is followed by at least 88 bytes and holds no
      false frame whose checksum fits. */
  lemma FalseStartsByLength(noise: seq<byte>, all: seq<byte>)
    ensures Dl2.MAGIC !in noise ==> FalseStarts(noise, all)
    ensures |all| >= 88 && NoHiddenFrame(noise, all) ==> FalseStarts(noise, all)
  {
    hide Crc;
    forall k | 0 <= k < |noise| && noise[k] == Dl2.MAGIC && |all| >= 88 && NoHiddenFrame(noise, all)
      ensures Refuted((noise + all)[k..])
    {
      var t := (noise + all)[k..];
      assert t[0] == noise[k];
      var n: int := t[1];
      if Dl2.MIN_BODY <= n <= Dl2.MAX_BODY {
        assert !ValidWire(t[..n + 2]);
        assert t[..n + 2][..n] == t[..n] && t[..n + 2][n] == t[n] && t[..n + 2][n + 1] == t[n + 1];
      }
    }
  }

  /** No valid frame begins in the noise. */
  ghost predicate NoHiddenFrame(noise: seq<byte>, all: seq<byte>) {
    forall k, m :: 0 <= k < |noise| && 2 <= m <= |noise + all| - k ==> !ValidWire((noise + all)[k..][..m])
  }

  // ---- Chunk invariance ----

  ghost predicate NoOverflow(events: seq<Event>) {
    Failed(LineOverflow) !in events
  }

  /** A decision once taken does not depend on bytes that arrive later, unless it gave up a long line. */
  lemma StableStep(s: seq<byte>, q: seq<byte>)
    requires var step := TryParse(s); step.consumed > 0 && step.event.value != Failed(LineOverflow)
    ensures TryParse(s + q) == TryParse(s)
  {
    hide Crc, Dl2.Decode;
    if s[0] == Dl2.MAGIC {
      var n: int := s[1];
      if Dl2.MIN_BODY <= n <= Dl2.MAX_BODY {
        assert (s + q)[..n] == s[..n] && (s + q)[..n + 2] == s[..n + 2];
      }
    } else if StartsLine(s[0]) {
      var nl, magic := Find(s, LF), Find(s, Dl2.MAGIC);
      FindExtends(s, q, LF);
      FindExtends(s, q, Dl2.MAGIC);
      if nl >= 0 {
        assert (s + q)[..nl] == s[..nl];
      }
    }
  }

  lemma FindExtends(s: seq<byte>, q: seq<byte>, b: byte)
    ensures Find(s, b) >= 0 ==> Find(s + q, b) == Find(s, b)
    ensures Find(s, b) < 0 ==> Find(s + q, b) < 0 || Find(s + q, b) >= |s|
  {
    var r := Find(s, b);
    if r >= 0 {
      assert (s + q)[..r] == s[..r];
      FindIs(s + q, b, r);
    } else {
      var t := Find(s + q, b);
      assert forall k :: 0 <= k < |s| ==> (s + q)[k] == s[k];
    }
  }

  lemma {:induction false} DrainSplits(s: seq<byte>, q: seq<byte>)
    requires NoOverflow(Drain(s).events)
    ensures Drain(s + q).events == Drain(s).events + Drain(Drain(s).rest + q).events
    ensures Drain(s + q).rest == Drain(Drain(s).rest + q).rest
    decreases |s|
  {
    hide TryParse, NoOverflow;
    var step := TryParse(s);
    if step.consumed > 0 {
      NoOverflowSplits([step.event.value], Drain(s[step.consumed..]).events);
      StableStep(s, q);
      assert (s + q)[step.consumed..] == s[step.consumed..] + q;
      DrainSplits(s[step.consumed..], q);
    }
  }

  lemma NoOverflowSplits(a: seq<Event>, b: seq<Event>)
    requires NoOverflow(a + b)
    ensures NoOverflow(a) && NoOverflow(b)
    ensures a != [] ==> a[0] != Failed(LineOverflow)
  {
    assert forall i :: 0 <= i < |a| ==> (a + b)[i] == a[i];
    assert forall i :: 0 <= i < |b| ==> (a + b)[|a| + i] == b[i];
  }

  lemma DrainsNothing(buf: seq<byte>)
    requires TryParse(buf).consumed == 0
    ensures Drain(buf) == Parsed([], buf)
  {
  }

  /** While no line overflows, the cut does not matter: the result is that of one single chunk. */
  lemma {:induction false} CutDoesNotMatter(buf: seq<byte>, chunks: seq<seq<byte>>)
    requires TryParse(buf).consumed == 0
    requires NoOverflow(FeedAll(buf, chunks).events)
    ensures FeedAll(buf, chunks) == Drain(buf + Concat(chunks))
    decreases |chunks|
  {
    hide TryParse, NoOverflow, Drain;
    if chunks == [] {
      assert buf + Concat(chunks) == buf;
      DrainsNothing(buf);
    } else {
      var s := buf + chunks[0];
      NoOverflowSplits(Drain(s).events, FeedAll(Drain(s).rest, chunks[1..]).events);
      DrainedIsStuck(s);
      CutDoesNotMatter(Drain(s).rest, chunks[1..]);
      DrainSplits(s, Concat(chunks[1..]));
      assert buf + Concat(chunks) == s + Concat(chunks[1..]);
    }
  }

  /** More bytes follow a beginning of a line that the parser gives up if it sees no further. */
  predicate LongStart(s: seq<byte>) {
    |s| > 257 && (0x20 <= s[0] < 0x7F || s[0] == 13) && 10 !in s[..257] && 0xD2 !in s[..257]
  }

  /** No parse attempt on the stream as a whole comes to such a beginning. */
  predicate Fits(s: seq<byte>)
    decreases |s|
  {
    && !LongStart(s)
    && (TryParse(s).consumed > 0 ==> Fits(s[TryParse(s).consumed..]))
  }

  /** The parser gives up `s` whole. */
  lemma OverflowTakesAll(s: seq<byte>)
    requires TryParse(s).event == Some(Failed(LineOverflow))
    ensures TryParse(s).consumed == |s| > MAX_LINE && StartsLine(s[0]) && LF !in s && Dl2.MAGIC !in s
  {
    hide Crc, Dl2.Decode;
  }

  lemma OneStep(s: seq<byte>)
    requires TryParse(s).consumed > 0
    ensures var step := TryParse(s); var d := Drain(s[step.consumed..]);
            Drain(s) == Parsed([step.event.value] + d.events, d.rest)
    ensures Fits(s) <==> !LongStart(s) && Fits(s[TryParse(s).consumed..])
  {
    hide TryParse;
  }

  /** A step whose overflow would end a stream that fits is its last. */
  lemma OverflowEnds(s: seq<byte>, q: seq<byte>)
    requires Fits(s + q) && TryParse(s).event == Some(Failed(LineOverflow))
    ensures q == [] && Drain(s).rest == []
  {
    hide TryParse, LongStart;
    OverflowTakesAll(s);
    if q != [] {
      GivenUp(s, q);
    }
    assert s[|s|..] == [];
    EmptyStream();
  }

  lemma GivenUp(s: seq<byte>, q: seq<byte>)
    requires |s| > MAX_LINE && StartsLine(s[0]) && LF !in s && Dl2.MAGIC !in s && q != []
    ensures LongStart(s + q)
  {
    assert (s + q)[..MAX_LINE + 1] == s[..MAX_LINE + 1];
  }

  /** Parsing a part of a stream that fits, and later the rest, is parsing it at once. */
  lemma {:induction false} DrainSplitsFitting(s: seq<byte>, q: seq<byte>)
    requires Fits(s + q)
    ensures Drain(s + q).events == Drain(s).events + Drain(Drain(s).rest + q).events
    ensures Drain(s + q).rest == Drain(Drain(s).rest + q).rest
    ensures Fits(Drain(s).rest + q)
    decreases |s|
  {
    hide TryParse, Drain, Fits;
    var step := TryParse(s);
    if step.event == Some(Failed(LineOverflow)) {
      OverflowEnds(s, q);
      assert s + q == s && Drain(s).rest + q == [];
      EmptyStream();
    } else if step.consumed > 0 {
      StableStep(s, q);
      var tail := s[step.consumed..];
      assert (s + q)[step.consumed..] == tail + q;
      OneStep(s);
      OneStep(s + q);
      DrainSplitsFitting(tail, q);
    } else {
      DrainsNothing(s);
    }
  }

  lemma EmptyStream()
    ensures Drain([]) == Parsed([], []) && Fits([])
  {
  }

  lemma {:induction false} FittingFeeds(buf: seq<byte>, chunks: seq<seq<byte>>)
    requires TryParse(buf).consumed == 0 && Fits(buf + Concat(chunks))
    ensures FeedAll(buf, chunks) == Drain(buf + Concat(chunks))
    decreases |chunks|
  {
    hide TryParse, Drain, Fits;
    if chunks == [] {
      assert buf + Concat(chunks) == buf;
      DrainsNothing(buf);
    } else {
      var s := buf + chunks[0];
      assert buf + Concat(chunks) == s + Concat(chunks[1..]);
      DrainSplitsFitting(s, Concat(chunks[1..]));
      DrainedIsStuck(s);
      FittingFeeds(Drain(s).rest, chunks[1..]);
    }
  }

  /** A stream with a long beginning reads differently when it is cut after 257 of its bytes. */
  lemma LongStartDependsOnTheCut(s: seq<byte>)
    requires LongStart(s)
    ensures FeedAll([], [s[..MAX_LINE + 1], s[MAX_LINE + 1..]]) != Drain(s)
  {
    hide Crc, Dl2.Decode, Fits;
    var head, tail := s[..MAX_LINE + 1], s[MAX_LINE + 1..];
    Overflows(head);
    TwoChunks(head, tail);
    assert [] + tail == tail;
    NotNothing(tail);
    LongStartStep(s);
  }

  /** What one attempt makes of it: an overflow only if it takes everything. */
  lemma LongStartStep(s: seq<byte>)
    requires LongStart(s)
    ensures Drain(s).events != []
    ensures Drain(s).events[0] == Failed(LineOverflow) ==> Drain(s) == Parsed([Failed(LineOverflow)], [])
  {
    hide Crc, Dl2.Decode, Fits;
    var step := TryParse(s);
    if step.event == Some(Failed(LineOverflow)) {
      OverflowTakesAll(s);
      assert s[step.consumed..] == [];
      EmptyStream();
    }
  }

  lemma NotNothing(s: seq<byte>)
    requires s != []
    ensures Drain(s) != Parsed([], [])
  {
  }

  lemma TwoChunks(a: seq<byte>, b: seq<byte>)
    ensures var first := Drain(a); var later := Drain(first.rest + b);
            FeedAll([], [a, b]) == Parsed(first.events + later.events, later.rest)
  {
    hide Drain;
    var two, one := [a, b], [b];
    assert two[1..] == one && one[1..] == [] && [] + a == a;
    var later := Drain(Drain(a).rest + b);
    assert FeedAll(Drain(a).rest, one) == Parsed(later.events + [], later.rest);
    assert later.events + [] == later.events;
  }

  /** The first step does not need more than 257 bytes beyond those it takes. */
  lemma StepSeesEnough(s: seq<byte>, k: nat)
    requires var step := TryParse(s); step.consumed > 0 && step.event != Some(Failed(LineOverflow))
    requires TryParse(s).consumed + MAX_LINE < k <= |s|
    ensures TryParse(s[..k]) == TryParse(s)
  {
    StepTaken(s, k);
    StableStep(s[..k], s[k..]);
    assert s[..k] + s[k..] == s;
  }

  lemma StepTaken(s: seq<byte>, k: nat)
    requires var step := TryParse(s); step.consumed > 0 && step.event != Some(Failed(LineOverflow))
    requires TryParse(s).consumed + MAX_LINE < k <= |s|
    ensures var step := TryParse(s[..k]); step.consumed > 0 && step.event != Some(Failed(LineOverflow))
  {
    hide Crc, Dl2.Decode;
    var r := s[..k];
    assert r[0] == s[0] && r[1] == s[1];
    if s[0] != Dl2.MAGIC && StartsLine(s[0]) {
      var nl, magic := Find(s, LF), Find(s, Dl2.MAGIC);
      if 0 <= nl < k {
        assert r[..nl] == s[..nl];
        FindIs(r, LF, nl);
      }
      if 0 <= magic < k {
        assert r[..magic] == s[..magic];
        FindIs(r, Dl2.MAGIC, magic);
      }
    }
  }

  /** Whatever does not fit can be cut so that it reads differently. */
  lemma {:induction false} UnfittingDependsOnTheCut(s: seq<byte>) returns (k: nat)
    requires !Fits(s)
    ensures MAX_LINE < k <= |s| && FeedAll([], [s[..k], s[k..]]) != Drain(s)
    decreases |s|
  {
    hide TryParse, Drain, Fits, FeedAll;
    if LongStart(s) {
      k := MAX_LINE + 1;
      LongStartDependsOnTheCut(s);
    } else {
      NotLastStep(s);
      var n := TryParse(s).consumed;
      var t := s[n..];
      var j := UnfittingDependsOnTheCut(t);
      k := n + j;
      StepSeesEnough(s, k);
      assert s[..k][n..] == t[..j] && s[k..] == t[j..];
      OneStep(s);
      OneStep(s[..k]);
      TwoChunks(s[..k], s[k..]);
      TwoChunks(t[..j], t[j..]);
      var e, a := TryParse(s).event.value, Drain(t[..j]);
      var b := Drain(a.rest + t[j..]);
      assert ([e] + a.events) + b.events == [e] + (a.events + b.events);
      SameTail(e, a.events + b.events, Drain(t).events);
    }
  }

  lemma SameTail(e: Event, a: seq<Event>, b: seq<Event>)
    ensures [e] + a == [e] + b ==> a == b
  {
    assert a == ([e] + a)[1..] && b == ([e] + b)[1..];
  }

  lemma NotLastStep(s: seq<byte>)
    requires !Fits(s) && !LongStart(s)
    ensures TryParse(s).consumed > 0 && !Fits(s[TryParse(s).consumed..])
    ensures TryParse(s).event != Some(Failed(LineOverflow))
  {
    hide TryParse;
    if TryParse(s).event == Some(Failed(LineOverflow)) {
      OverflowTakesAll(s);
      assert s[|s|..] == [];
      EmptyStream();
    }
  }

  lemma ConcatTwo(a: seq<byte>, b: seq<byte>)
    ensures Concat([a, b]) == a + b
  {
    var two, one := [a, b], [b];
    assert two[1..] == one;
    assert |one[1..]| == 0;
    assert Concat(one) == b + [] == b;
  }

  /** The cut does not matter to exactly the streams that fit. */
  lemma CutInvariantExactly(s: seq<byte>)
    ensures (forall chunks :: Concat(chunks) == s ==> FeedAll([], chunks) == Drain(s)) <==> Fits(s)
  {
    hide Drain, Fits;
    if Fits(s) {
      forall chunks | Concat(chunks) == s
        ensures FeedAll([], chunks) == Drain(s)
      {
        assert [] + Concat(chunks) == s;
        FittingFeeds([], chunks);
      }
    } else {
      var k := UnfittingDependsOnTheCut(s);
      ConcatTwo(s[..k], s[k..]);
      assert s[..k] + s[k..] == s;
    }
  }

  /** No 257 bytes in a row are free of both line feeds and DL2 magic bytes. */
  ghost predicate Dense(s: seq<byte>) {
    forall i :: 0 <= i <= |s| - 257 ==> Window(s, i)
  }

  ghost predicate Window(s: seq<byte>, i: nat)
    requires i + 257 <= |s|
  {
    10 in s[i..i + 257] || 0xD2 in s[i..i + 257]
  }

  lemma {:induction false} DenseFits(s: seq<byte>)
    requires Dense(s)
    ensures Fits(s)
    decreases |s|
  {
    hide TryParse;
    if |s| >= 257 {
      assert Window(s, 0);
    }
    var n := TryParse(s).consumed;
    if n > 0 {
      var part := s[n..];
      assert forall k :: 0 <= k < |part| ==> part[k] == s[n + k];
      forall i | 0 <= i <= |part| - 257 ensures Window(part, i) {
        assert Window(s, n + i);
        var w := s[n + i..n + i + 257];
        assert forall k :: 0 <= k < 257 ==> part[i..i + 257][k] == w[k];
        assert part[i..i + 257] == w;
      }
      DenseFits(part);
    }
  }

  /** On a stream whose lines are never too long, every cut gives what one single chunk gives. */
  lemma DenseStreamsAreCutInvariant(chunks: seq<seq<byte>>)
    requires Dense(Concat(chunks))
    ensures FeedAll([], chunks) == Drain(Concat(chunks))
  {
    hide Drain, Fits, Dense;
    DenseFits(Concat(chunks));
    CutInvariantExactly(Concat(chunks));
  }

  /** Without that the cut matters: 257 letters and a line feed are one line in one chunk, but an
      overflow and an empty line when the line feed comes later. */
  lemma OverflowDependsOnTheCut(letters: seq<byte>)
    requires |letters| == 257 && forall i :: 0 <= i < 257 ==> letters[i] == 0x41
    ensures FeedAll([], [letters + [LF]]).events == [Line(StripCr(AsciiText(letters)))]
    ensures FeedAll([], [letters, [LF]]).events == [Failed(LineOverflow), Line([])]
  {
    hide TryParse;
    OneLine(letters);
    OneChunk(letters + [LF]);
    Overflows(letters);
    OneLine([]);
    assert [] + [LF] == [LF] && [] + letters == letters;
    OneChunk([LF]);
    var two := [letters, [LF]];
    assert two[1..] == [[LF]];
    assert FeedAll([], two).events == Drain(letters).events + FeedAll([], [[LF]]).events;
  }

  lemma Overflows(l: seq<byte>)
    requires |l| > MAX_LINE && LF !in l && Dl2.MAGIC !in l && StartsLine(l[0])
    ensures Drain(l) == Parsed([Failed(LineOverflow)], [])
  {
    hide Crc, Dl2.Decode;
    assert l[|l|..] == [];
    assert Drain([]) == Parsed([], []);
  }

  lemma OneLine(l: seq<byte>)
    requires LF !in l && Dl2.MAGIC !in l && (l == [] || StartsLine(l[0]))
    ensures Drain(l + [LF]) == Parsed([Line(StripCr(AsciiText(l)))], [])
  {
    hide Crc, Dl2.Decode;
    var s := l + [LF];
    FindIs(s, LF, |l|);
    assert s[..|l|] == l;
    assert s[|l| + 1..] == [];
    assert Drain([]) == Parsed([], []);
  }

  lemma OneChunk(s: seq<byte>)
    ensures FeedAll([], [s]) == Drain(s)
  {
    var one := [s];
    assert one[1..] == [] && [] + s == s;
    assert FeedAll([], one).events == Drain(s).events + [];
  }

  // ---- One parse attempt ----

  /** The first line feed or magic byte of a buffer, if there is one. */
  ghost predicate FirstMark(buf: seq<byte>, p: int) {
    0 <= p < |buf| && buf[p] in {10, 0xD2} && forall i :: 0 <= i < p ==> buf[i] !in {10, 0xD2}
  }

  /** What one attempt makes of any buffer, by its first byte: A2 and B2 and bytes outside printable ASCII, line feed
      and carriage return are dropped one at a time; D2 begins a frame, which is dropped byte-wise if its length is
      not 48 to 86 or its checksum wrong, and waited for if it is not whole; anything else begins a line, which ends
      before a line feed, is given up before a magic byte and dropped without either from 257 bytes on. */
  lemma AttemptExactly(buf: seq<byte>)
    requires buf != []
    ensures var b, r := buf[0], TryParse(buf);
            var text := 0x20 <= b < 0x7F || b == 10 || b == 13;
            && (b == 0xA2 || b == 0xB2 ==> r == Step(Some(Failed(UnexpectedMagic(b))), 1))
            && (b !in {0xD2, 0xA2, 0xB2} && !text ==> r == Step(Some(Failed(Garbage(b))), 1))
            && (b == 0xD2 ==>
                  if |buf| < 2 then r == Step(None, 0)
                  else if !(48 <= buf[1] <= 86) then r == Step(Some(Failed(BadLength(buf[1]))), 1)
                  else if |buf| < buf[1] as int + 2 then r == Step(None, 0)
                  else if ValidWire(buf[..buf[1] as int + 2])
                  then r == Step(Some(Decoded(Dl2.Decode(buf[..buf[1] as int + 2]))), buf[1] as int + 2)
                  else r == Step(Some(Failed(BadCrc)), 1))
            && (text && (forall i :: 0 <= i < |buf| ==> buf[i] !in {10, 0xD2}) ==>
                  r == if |buf| > 256 then Step(Some(Failed(LineOverflow)), |buf|) else Step(None, 0))
            && forall p | text && FirstMark(buf, p) ::
                 r == if buf[p] == 10 then Step(Some(Line(StripCr(AsciiText(buf[..p])))), p + 1)
                      else Step(Some(Failed(GarbageBeforeMagic(p))), p)
  {
    hide Crc, Dl2.Decode, StripCr, AsciiText, ReadU16, Find;
    var b := buf[0];
    if b == 0xD2 {
      if |buf| >= 2 && 48 <= buf[1] <= 86 && |buf| >= buf[1] as int + 2 {
        WireOf(buf, buf[1] as int);
      }
    } else if 0x20 <= b < 0x7F || b == 10 || b == 13 {
      var nl, magic := Find(buf, LF), Find(buf, Dl2.MAGIC);
      forall p | FirstMark(buf, p)
        ensures TryParse(buf) == if buf[p] == 10 then Step(Some(Line(StripCr(AsciiText(buf[..p])))), p + 1)
                                 else Step(Some(Failed(GarbageBeforeMagic(p))), p)
      {
        MarksFound(buf, p);
      }
    }
  }

  lemma WireOf(buf: seq<byte>, n: nat)
    requires 2 <= n && n + 2 <= |buf|
    ensures buf[..n + 2][..n] == buf[..n] && ReadU16(buf[..n + 2], n) == ReadU16(buf, n)
  {
  }

  lemma MarksFound(buf: seq<byte>, p: int)
    requires FirstMark(buf, p)
    ensures var nl, magic := Find(buf, LF), Find(buf, Dl2.MAGIC);
            if buf[p] == 10 then nl == p && (magic < 0 || magic > p) else magic == p && (nl < 0 || nl > p)
  {
    hide Find;
    var nl, magic := Find(buf, LF), Find(buf, Dl2.MAGIC);
    assert forall i :: 0 <= i < p ==> buf[i] != LF && buf[i] != Dl2.MAGIC;
    assert nl > p ==> buf[p] in buf[..nl] && buf[..nl][p] == buf[p];
    assert magic > p ==> buf[..magic][p] == buf[p];
  }

  /** The text of a line: its bytes without the carriage returns at both ends, and the replacement character FFFD for
      every byte outside ASCII. */
  lemma LineTextExactly(l: seq<byte>) returns (i: nat, j: nat)
    ensures i <= j <= |l| && (forall k :: 0 <= k < i || j <= k < |l| ==> l[k] == 13)
    ensures i < j ==> l[i] != 13 && l[j - 1] != 13
    ensures var t := StripCr(AsciiText(l));
            |t| == j - i && forall k :: 0 <= k < |t| ==> t[k] == if l[i + k] < 128 then l[i + k] as int else 0xFFFD
  {
    hide StripCr;
    i, j := StrippedAt(AsciiText(l));
    assert forall k :: 0 <= k < |l| ==> AsciiText(l)[k] == CodePoint(l[k]);
    assert AsciiText(l)[i..j] == StripCr(AsciiText(l));
  }

  lemma {:induction false} StrippedAt(t: seq<int>) returns (i: nat, j: nat)
    ensures i <= j <= |t| && StripCr(t) == t[i..j]
    ensures forall k :: 0 <= k < i || j <= k < |t| ==> t[k] == 13
    ensures i < j ==> t[i] != 13 && t[j - 1] != 13
    decreases |t|
  {
    if t != [] && t[0] == 13 {
      i, j := StrippedAt(t[1..]);
      assert t[1..][i..j] == t[i + 1..j + 1];
      assert forall k :: 0 < k < |t| ==> t[k] == t[1..][k - 1];
      i, j := i + 1, j + 1;
    } else if t != [] && t[|t| - 1] == 13 {
      i, j := StrippedAt(t[..|t| - 1]);
      assert t[..|t| - 1][i..j] == t[i..j];
      assert forall k :: 0 <= k < |t| - 1 ==> t[k] == t[..|t| - 1][k];
    } else {
      i, j := 0, |t|;
      assert t[0..|t|] == t;
    }
  }
}
