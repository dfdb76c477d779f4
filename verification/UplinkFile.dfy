/**
  The command application's state file: 20 bytes, protected by the CRC of the first 16.
 */
module UplinkFile {
  import opened Bytes
  import opened Crc16
  import opened CrcBoundary
  import AtomicFile

  const MAGIC: u32 := 0x5550_4C4B
  const BODY := 16
  const SIZE := 20

  datatype Record = Record(lastSeq: u32, bootCount: u32, resetReason: byte, survived: byte, streak: byte,
      reserved: byte)

  function Body(r: Record): (s: seq<byte>)
    ensures |s| == BODY
  {
    U32(MAGIC) + U32(r.lastSeq) + U32(r.bootCount) + [r.resetReason, r.survived, r.streak, r.reserved]
  }

  function Print(r: Record): (s: seq<byte>)
    ensures |s| == SIZE
  {
    Body(r) + U32(Crc(Body(r)))
  }

  /** Reads at most 20 bytes, and refuses a short file, a wrong magic number and a wrong checksum. */
  function Load(s: seq<byte>): Option<Record> {
    if |s| < SIZE || ReadU32(s, 0) != MAGIC || ReadU32(s, BODY) != Crc(s[..BODY]) then None
    else Some(Record(ReadU32(s, 4), ReadU32(s, 8), s[12], s[13], s[14], s[15]))
  }

  lemma BodyReads(s: seq<byte>, r: Record)
    requires |s| >= SIZE
    ensures s[..BODY] == Body(r)
            <==> ReadU32(s, 0) == MAGIC && r == Record(ReadU32(s, 4), ReadU32(s, 8), s[12], s[13], s[14], s[15])
  {
    hide U32, ReadU32;
    if s[..BODY] == Body(r) {
      assert s[0..4] == s[..BODY][0..4] == U32(MAGIC);
      assert s[4..8] == s[..BODY][4..8] == U32(r.lastSeq);
      assert s[8..12] == s[..BODY][8..12] == U32(r.bootCount);
      assert s[12..16] == s[..BODY][12..16] == [r.resetReason, r.survived, r.streak, r.reserved];
      assert s[12] == s[12..16][0] && s[13] == s[12..16][1] && s[14] == s[12..16][2] && s[15] == s[12..16][3];
      ReadsU32(s, 0, MAGIC);
      ReadsU32(s, 4, r.lastSeq);
      ReadsU32(s, 8, r.bootCount);
    }
    PrintsU32(s, 0);
    PrintsU32(s, 4);
    PrintsU32(s, 8);
    assert s[..BODY] == s[0..4] + s[4..8] + s[8..12] + [s[12], s[13], s[14], s[15]];
  }

  /** A file is accepted as `r` exactly when it begins with what is saved for `r`. */
  lemma LoadExact(s: seq<byte>, r: Record)
    ensures Load(s) == Some(r) <==> |s| >= SIZE && s[..SIZE] == Print(r)
  {
    hide Crc, ReadU32, U32, Body;
    if |s| >= SIZE {
      BodyReads(s, r);
      assert s[..SIZE] == s[..BODY] + s[BODY..SIZE];
      PrintsU32(s, BODY);
      if s[..SIZE] == Print(r) {
        assert s[..BODY] == s[..SIZE][..BODY] && s[BODY..SIZE] == s[..SIZE][BODY..];
        ReadsU32(s, BODY, Crc(s[..BODY]));
      }
    }
  }

  /** Any change of one or two adjacent bytes on the same side of the checksum makes a saved file
      unacceptable. */
  lemma CorruptionRejected(r: Record, at: nat, w: seq<byte>)
    requires |w| <= 2 && (at + |w| <= BODY || BODY <= at) && at + |w| <= SIZE
    requires Overwritten(Print(r), at, w) != Print(r)
    ensures Load(Overwritten(Print(r), at, w)) == None
  {
    hide Crc, ReadU32, U32, Body;
    var b, s := Body(r), Overwritten(Print(r), at, w);
    if at + |w| <= BODY {
      var was := b[at..at + |w|];
      assert b == b[..at] + was + b[at + |w|..];
      assert s[..BODY] == b[..at] + w + b[at + |w|..];
      assert s[BODY..] == U32(Crc(b));
      assert s == s[..BODY] + s[BODY..] && Print(r) == b + U32(Crc(b));
      BurstDetected(b[..at], was, w, b[at + |w|..]);
      ReadsU32(s, BODY, Crc(b));
    } else {
      assert s[..BODY] == b;
      assert s == s[..BODY] + s[BODY..SIZE];
      PrintsU32(s, BODY);
    }
  }

  lemma BoundaryParts(r: Record, last: byte, low: byte)
    ensures var b, s := Body(r), Overwritten(Print(r), BODY - 1, [last, low]);
            && b == b[..BODY - 1] + [b[BODY - 1]] && |s| == SIZE
            && s[..BODY] == b[..BODY - 1] + [last] && s[..4] == b[..4]
            && ReadU32(s, BODY) == Crc(b) / 0x100 * 0x100 + low as int
            && Print(r)[BODY - 1] == b[BODY - 1] && Print(r)[BODY] as int == Crc(b) % 0x100
  {
    hide Crc, Body;
  }

  lemma MagicStays(s: seq<byte>, r: Record)
    requires |s| >= 4 && s[..4] == Body(r)[..4]
    ensures ReadU32(s, 0) == MAGIC
  {
    hide U32, ReadU32;
    assert s[0..4] == Body(r)[0..4] == U32(MAGIC);
    ReadsU32(s, 0, MAGIC);
  }

  /** Exactly which damage goes unnoticed: of all changes of one or two adjacent bytes, a saved file stays
      acceptable only under the one that changes the reserved byte by 89 and the first checksum byte by A1
      (hexadecimal). */
  lemma TwoByteDamage(r: Record, at: nat, w: seq<byte>)
    requires |w| <= 2 && at + |w| <= SIZE
    requires Overwritten(Print(r), at, w) != Print(r)
    ensures var s := Print(r);
            Load(Overwritten(s, at, w)).Some?
            <==> at == BODY - 1 && |w| == 2 && XorByte(s[BODY - 1], w[0]) == 0x89 && XorByte(s[BODY], w[1]) == 0xA1
  {
    hide Crc, Body, U32, ReadU32, XorByte;
    if at == BODY - 1 && |w| == 2 {
      var b, s := Body(r), Overwritten(Print(r), at, w);
      assert w == [w[0], w[1]];
      BoundaryParts(r, w[0], w[1]);
      MagicStays(s, r);
      UndetectedPair(b[..BODY - 1], b[BODY - 1], w[0], w[1]);
      WritesChange(Print(r), BODY - 1, w[0], w[1]);
    } else {
      CorruptionRejected(r, at, w);
    }
  }

  // ---- The file on disk ----

  /** What the application restores from the file that it finds, if any. */
  function Restored(file: Option<seq<byte>>): Option<Record> {
    if file == None then None else Load(file.value)
  }

  /** A save that is cut short anywhere, by a failure or a loss of power, leaves what restores the old record
      or the new one, and nothing else. */
  lemma InterruptedSaveRestoresOldOrNew(disk: AtomicFile.Disk, r: Record, steps: seq<AtomicFile.Step>, undone: bool)
    requires disk.target == disk.durable
    requires var s := AtomicFile.System(disk, AtomicFile.Idle);
             AtomicFile.Run(s, [AtomicFile.Start(Print(r))] + steps + [AtomicFile.Crash(undone)])
    requires forall step :: step in steps ==> !step.Start?
    ensures var s := AtomicFile.System(disk, AtomicFile.Idle);
            var end := AtomicFile.End(s, [AtomicFile.Start(Print(r))] + steps + [AtomicFile.Crash(undone)]);
            Restored(end.disk.target) in {Restored(disk.target), Some(r)}
  {
    hide Load, Print, AtomicFile.Run, AtomicFile.End;
    AtomicFile.OldOrNew(disk, Print(r), steps, undone);
    LoadExact(Print(r), r);
    assert Print(r)[..SIZE] == Print(r);
  }

  /** The bytes of the file, by their offsets. */
  lemma WireFormat(r: Record)
    ensures var s := Print(r);
            && |s| == 20 && ReadU32(s, 0) == 0x5550_4C4B && ReadU32(s, 4) == r.lastSeq && ReadU32(s, 8) == r.bootCount
            && s[12] == r.resetReason && s[13] == r.survived && s[14] == r.streak && s[15] == r.reserved
            && ReadU32(s, 16) == Crc(s[..16])
  {
    hide Crc, ReadU32, Print;
    LoadExact(Print(r), r);
    assert Print(r)[..SIZE] == Print(r);
  }
}
