/**
  The core application's state file: 52 bytes with an additive checksum over the fields.
 */
module CoreFile {
  import opened Bytes
  import opened ConfigCommand
  import AtomicFile

  const MAGIC: u32 := 0xCF5C_0A00
  const SIZE := 52

  datatype Record = Record(
    health: byte, params: Params, bridgeRestarts: u32, uplinkRestarts: u32, loraRestarts: u32, lastFault: byte)

  /** The checksum that the application computes over the fields of a file, with wrap-around. */
  function FieldSum(version: byte, r: Record): u32 {
    (MAGIC + r.health as int + version as int
     + r.params.attitude + r.params.local + r.params.gps + r.params.ekf + r.params.bridge + r.params.publish
     + r.bridgeRestarts + r.uplinkRestarts + r.loraRestarts + r.lastFault as int) % 0x1_0000_0000
  }

  function Front(r: Record, pad: seq<byte>): (s: seq<byte>)
    requires |pad| == 5
    ensures |s| == 32
  {
    U32(MAGIC) + [r.health, VERSION, pad[0], pad[1]] + U32(r.params.attitude) + U32(r.params.local) + U32(r.params.gps)
    + U32(r.params.ekf) + U32(r.params.bridge) + U32(r.params.publish)
  }

  function Back(r: Record, pad: seq<byte>): (s: seq<byte>)
    requires |pad| == 5
    ensures |s| == 20
  {
    U32(r.bridgeRestarts) + U32(r.uplinkRestarts) + U32(r.loraRestarts) + [r.lastFault, pad[2], pad[3], pad[4]]
    + U32(FieldSum(VERSION, r))
  }

  /** The file for a record; `pad` holds the five reserved bytes, which nobody reads. */
  function Image(r: Record, pad: seq<byte>): (s: seq<byte>)
    requires |pad| == 5
    ensures |s| == SIZE
  {
    Front(r, pad) + Back(r, pad)
  }

  const PAD: seq<byte> := [0, 0, 0, 0, 0]

  function Print(r: Record): (s: seq<byte>)
    ensures |s| == SIZE
  {
    Image(r, PAD)
  }

  function Fields(s: seq<byte>): Record
    requires |s| >= SIZE
  {
    Record(s[4], Params(ReadU32(s, 8), ReadU32(s, 12), ReadU32(s, 16), ReadU32(s, 20), ReadU32(s, 24), ReadU32(s, 28)),
           ReadU32(s, 32), ReadU32(s, 36), ReadU32(s, 40), s[44])
  }

  /** Refuses a short file, a wrong magic number, a wrong checksum and another version. */
  function Load(s: seq<byte>): Option<Record> {
    if |s| < SIZE || ReadU32(s, 0) != MAGIC || ReadU32(s, 48) != FieldSum(s[5], Fields(s)) || s[5] != VERSION then None
    else Some(Fields(s))
  }

  function PadOf(s: seq<byte>): (pad: seq<byte>)
    requires |s| >= SIZE
    ensures |pad| == 5
  {
    [s[6], s[7], s[45], s[46], s[47]]
  }

  /** The first 32 bytes are those of a file for `r` exactly when the fields read so. */
  lemma FrontReads(s: seq<byte>, r: Record)
    requires |s| >= SIZE
    ensures s[..32] == Front(r, PadOf(s))
      <==> ReadU32(s, 0) == MAGIC && s[4] == r.health && s[5] == VERSION && Fields(s).params == r.params
  {
    hide U32, ReadU32;
    var pad := PadOf(s);
    var f := Front(r, pad);
    if s[..32] == f {
      assert s[0..4] == f[0..4] == U32(MAGIC);
      assert s[4] == f[4] == r.health && s[5] == f[5] == VERSION;
      assert s[8..12] == f[8..12] == U32(r.params.attitude);
      assert s[12..16] == f[12..16] == U32(r.params.local);
      assert s[16..20] == f[16..20] == U32(r.params.gps);
      assert s[20..24] == f[20..24] == U32(r.params.ekf);
      assert s[24..28] == f[24..28] == U32(r.params.bridge);
      assert s[28..32] == f[28..32] == U32(r.params.publish);
      ReadsU32(s, 0, MAGIC);
      ReadsU32(s, 8, r.params.attitude);
      ReadsU32(s, 12, r.params.local);
      ReadsU32(s, 16, r.params.gps);
      ReadsU32(s, 20, r.params.ekf);
      ReadsU32(s, 24, r.params.bridge);
      ReadsU32(s, 28, r.params.publish);
    }
    FrontPrints(s);
  }

  lemma FrontPrints(s: seq<byte>)
    requires |s| >= SIZE
    ensures ReadU32(s, 0) == MAGIC && s[5] == VERSION ==> s[..32] == Front(Fields(s), PadOf(s))
  {
    hide U32, ReadU32;
    PrintsU32(s, 0);
    PrintsU32(s, 8);
    PrintsU32(s, 12);
    PrintsU32(s, 16);
    PrintsU32(s, 20);
    PrintsU32(s, 24);
    PrintsU32(s, 28);
    assert s[..32] == s[0..4] + [s[4], s[5], s[6], s[7]] + s[8..12] + s[12..16] + s[16..20] + s[20..24] + s[24..28]
           + s[28..32];
  }

  lemma BackReads(s: seq<byte>, r: Record)
    requires |s| >= SIZE
    ensures s[32..SIZE] == Back(r, PadOf(s))
      <==> ReadU32(s, 32) == r.bridgeRestarts && ReadU32(s, 36) == r.uplinkRestarts && ReadU32(s, 40) == r.loraRestarts
           && s[44] == r.lastFault && ReadU32(s, 48) == FieldSum(VERSION, r)
  {
    hide U32, ReadU32, FieldSum;
    var b := Back(r, PadOf(s));
    if s[32..SIZE] == b {
      var t := s[32..SIZE];
      assert s[32..36] == t[0..4] == b[0..4] == U32(r.bridgeRestarts);
      assert s[36..40] == t[4..8] == b[4..8] == U32(r.uplinkRestarts);
      assert s[40..44] == t[8..12] == b[8..12] == U32(r.loraRestarts);
      assert s[44] == t[12] == b[12] == r.lastFault;
      assert s[48..52] == t[16..20] == b[16..20] == U32(FieldSum(VERSION, r));
      ReadsU32(s, 32, r.bridgeRestarts);
      ReadsU32(s, 36, r.uplinkRestarts);
      ReadsU32(s, 40, r.loraRestarts);
      ReadsU32(s, 48, FieldSum(VERSION, r));
    }
    PrintsU32(s, 32);
    PrintsU32(s, 36);
    PrintsU32(s, 40);
    PrintsU32(s, 48);
    assert s[32..SIZE] == s[32..36] + s[36..40] + s[40..44] + [s[44], s[45], s[46], s[47]] + s[48..52];
  }

  /** A file is accepted as `r` exactly when it begins with what is saved for `r`, up to the reserved bytes. */
  lemma LoadExact(s: seq<byte>, r: Record)
    ensures Load(s) == Some(r) <==> |s| >= SIZE && s[..SIZE] == Image(r, PadOf(s))
  {
    hide U32, ReadU32, FieldSum, Front, Back;
    if |s| >= SIZE {
      FrontReads(s, r);
      BackReads(s, r);
      assert s[..SIZE] == s[..32] + s[32..SIZE];
      var i := Image(r, PadOf(s));
      assert i[..32] == Front(r, PadOf(s)) && i[32..] == Back(r, PadOf(s));
      if s[..SIZE] == i {
        assert s[..32] == s[..SIZE][..32] && s[32..SIZE] == s[..SIZE][32..];
      }
    }
  }

  /** What is saved is what is loaded. */
  lemma LoadsWhatWasSaved(r: Record)
    ensures Load(Print(r)) == Some(r)
  {
    hide Load, FieldSum;
    var s := Print(r);
    assert s[..SIZE] == s;
    PrintPad(r);
    LoadExact(s, r);
  }

  lemma PrintPad(r: Record)
    ensures PadOf(Print(r)) == PAD
  {
    hide U32, FieldSum;
    var f, b := Front(r, PAD), Back(r, PAD);
    assert f[6] == 0 && f[7] == 0 && b[13] == 0 && b[14] == 0 && b[15] == 0;
  }

  // ---- Damage ----

  const FIELDS := 11

  /** Where the fields that the checksum adds up begin, and how many bytes each has. */
  function FieldAt(f: nat): nat
    requires f < FIELDS
  {
    4 + 4 * f
  }

  function FieldSize(f: nat): nat
    requires f < FIELDS
  {
    if f == 0 || f == 10 then 1 else 4
  }

  function FieldValue(s: seq<byte>, f: nat): u32
    requires |s| >= SIZE && f < FIELDS
  {
    if f == 0 || f == 10 then s[FieldAt(f)] as int else ReadU32(s, FieldAt(f))
  }

  function Total(s: seq<byte>): nat
    requires |s| >= SIZE
  {
    FieldValue(s, 0) + FieldValue(s, 1) + FieldValue(s, 2) + FieldValue(s, 3) + FieldValue(s, 4) + FieldValue(s, 5)
    + FieldValue(s, 6) + FieldValue(s, 7) + FieldValue(s, 8) + FieldValue(s, 9) + FieldValue(s, 10)
  }

  lemma SumIsTotal(s: seq<byte>)
    requires |s| >= SIZE
    ensures FieldSum(VERSION, Fields(s)) == (MAGIC + VERSION as int + Total(s)) % 0x1_0000_0000
  {
    hide ReadU32;
  }

  /** Magic number, version and checksum are those of the saved file. */
  ghost predicate FrameIntact(s: seq<byte>, r: Record) {
    && |s| >= SIZE && s[..4] == Print(r)[..4] && s[5] == VERSION && s[48..52] == Print(r)[48..52]
  }

  /** A damaged file whose magic number, version and checksum are untouched loads if and only if the sum of
      its fields, modulo 2^32, is that of the fields saved. */
  lemma DamagedLoadsExactly(s: seq<byte>, r: Record)
    requires FrameIntact(s, r)
    ensures Load(s) == if FieldSum(VERSION, Fields(s)) == FieldSum(VERSION, r) then Some(Fields(s)) else None
  {
    hide U32, ReadU32, FieldSum;
    var p := Print(r);
    assert s[0..4] == p[0..4] == Front(r, PAD)[0..4] == U32(MAGIC);
    assert s[48..52] == p[48..52] == Back(r, PAD)[16..20] == U32(FieldSum(VERSION, r));
    ReadsU32(s, 0, MAGIC);
    ReadsU32(s, 48, FieldSum(VERSION, r));
  }

  lemma SavedFields(r: Record)
    ensures Fields(Print(r)) == r && FrameIntact(Print(r), r)
  {
    hide U32, ReadU32, FieldSum;
    LoadsWhatWasSaved(r);
    assert Print(r)[5] == Front(r, PAD)[5];
  }

  /** Writing one field leaves the others, and the frame, alone. */
  lemma FieldWritten(s: seq<byte>, f: nat, w: seq<byte>)
    requires |s| == SIZE && f < FIELDS && |w| == FieldSize(f)
    ensures var t := Overwritten(s, FieldAt(f), w);
            && |t| == SIZE && t[..4] == s[..4] && t[5] == s[5] && t[48..52] == s[48..52]
            && t[FieldAt(f)..FieldAt(f) + |w|] == w
            && (forall g: nat :: g < FIELDS && g != f ==> FieldValue(t, g) == FieldValue(s, g))
  {
    hide ReadU32, U32;
    var t := Overwritten(s, FieldAt(f), w);
    forall g: nat | g < FIELDS && g != f
      ensures FieldValue(t, g) == FieldValue(s, g)
    {
      assert forall i :: FieldAt(g) <= i < FieldAt(g) + FieldSize(g) ==> t[i] == s[i];
      SameField(s, t, g);
    }
  }

  /** A field's value is that of its bytes, and they are those of its value. */
  lemma SameField(s: seq<byte>, t: seq<byte>, g: nat)
    requires |s| >= SIZE && |t| >= SIZE && g < FIELDS
    ensures FieldValue(t, g) == FieldValue(s, g)
      <==> t[FieldAt(g)..FieldAt(g) + FieldSize(g)] == s[FieldAt(g)..FieldAt(g) + FieldSize(g)]
  {
    MovedField(s, t, g, g);
  }

  lemma MovedField(s: seq<byte>, t: seq<byte>, f: nat, g: nat)
    requires |s| >= SIZE && |t| >= SIZE && f < FIELDS && g < FIELDS && FieldSize(f) == FieldSize(g)
    ensures FieldValue(t, g) == FieldValue(s, f)
      <==> t[FieldAt(g)..FieldAt(g) + FieldSize(g)] == s[FieldAt(f)..FieldAt(f) + FieldSize(f)]
  {
    hide ReadU32, U32;
    var v, w := t[FieldAt(g)..FieldAt(g) + FieldSize(g)], s[FieldAt(f)..FieldAt(f) + FieldSize(f)];
    if FieldSize(g) == 1 {
      assert v == [t[FieldAt(g)]] && w == [s[FieldAt(f)]];
    } else {
      PrintsU32(t, FieldAt(g));
      PrintsU32(s, FieldAt(f));
      if v == w {
        ReadsU32(t, FieldAt(g), ReadU32(s, FieldAt(f)));
      }
    }
  }

  /** A saved file in which the bytes of one field were changed, however, is never accepted. */
  lemma OneFieldDamageIsCaught(r: Record, f: nat, w: seq<byte>)
    requires f < FIELDS && |w| == FieldSize(f) && Print(r)[FieldAt(f)..FieldAt(f) + |w|] != w
    ensures Load(Overwritten(Print(r), FieldAt(f), w)) == None
  {
    hide Load, FieldSum, FieldValue, Fields, Print;
    var s := Print(r);
    var t := Overwritten(s, FieldAt(f), w);
    SavedFields(r);
    FieldWritten(s, f, w);
    SameField(s, t, f);
    SumIsTotal(s);
    SumIsTotal(t);
    OneDiffers(s, t, f);
    DamagedLoadsExactly(t, r);
  }

  lemma OneDiffers(s: seq<byte>, t: seq<byte>, f: nat)
    requires |s| >= SIZE && |t| >= SIZE && f < FIELDS && FieldValue(t, f) != FieldValue(s, f)
    requires forall g: nat :: g < FIELDS && g != f ==> FieldValue(t, g) == FieldValue(s, g)
    ensures (MAGIC + VERSION as int + Total(s)) % 0x1_0000_0000 != (MAGIC + VERSION as int + Total(t)) % 0x1_0000_0000
  {
    hide FieldValue;
    assert Total(t) - Total(s) == FieldValue(t, f) - FieldValue(s, f);
    DistinctRemainders(MAGIC + VERSION as int + Total(s), MAGIC + VERSION as int + Total(t));
  }

  lemma DistinctRemainders(m: nat, n: nat)
    requires m != n && m - n < 0x1_0000_0000 && n - m < 0x1_0000_0000
    ensures m % 0x1_0000_0000 != n % 0x1_0000_0000
  {
    var p, q := m / 0x1_0000_0000, n / 0x1_0000_0000;
    assert m == p * 0x1_0000_0000 + m % 0x1_0000_0000 && n == q * 0x1_0000_0000 + n % 0x1_0000_0000;
  }

  /** Parameter `id` is field `id + 1`. */
  function Exchanged(s: seq<byte>, i: nat, j: nat): seq<byte>
    requires |s| >= SIZE && i <= 5 && j <= 5
  {
    var a, b := s[FieldAt(i + 1)..FieldAt(i + 1) + 4], s[FieldAt(j + 1)..FieldAt(j + 1) + 4];
    Overwritten(Overwritten(s, FieldAt(i + 1), b), FieldAt(j + 1), a)
  }

  /** Damage to two fields can go unnoticed: a saved file in which any two parameters were exchanged loads,
      with the parameters exchanged. */
  lemma ExchangedParametersLoad(r: Record, i: nat, j: nat)
    requires i < j <= 5
    ensures var t := Exchanged(Print(r), i, j);
            && |t| == SIZE && Load(t) == Some(Fields(t))
            && ParamOf(Fields(t).params, i) == ParamOf(r.params, j)
                 && ParamOf(Fields(t).params, j) == ParamOf(r.params, i)
            && forall k: nat :: k <= 5 && k != i && k != j ==> ParamOf(Fields(t).params, k) == ParamOf(r.params, k)
  {
    hide Load, FieldSum, FieldValue, Fields, Print;
    var s := Print(r);
    var a, b := s[FieldAt(i + 1)..FieldAt(i + 1) + 4], s[FieldAt(j + 1)..FieldAt(j + 1) + 4];
    var m := Overwritten(s, FieldAt(i + 1), b);
    var t := Overwritten(m, FieldAt(j + 1), a);
    SavedFields(r);
    FieldWritten(s, i + 1, b);
    FieldWritten(m, j + 1, a);
    MovedField(s, m, j + 1, i + 1);
    MovedField(s, t, i + 1, j + 1);
    assert FieldValue(t, i + 1) == FieldValue(m, i + 1);
    assert forall g: nat :: g < FIELDS && g != i + 1 && g != j + 1 ==> FieldValue(t, g) == FieldValue(s, g);
    SumIsTotal(s);
    SumIsTotal(t);
    SameTotal(s, t, i + 1, j + 1);
    DamagedLoadsExactly(t, r);
    ParamsAreFields(s);
    ParamsAreFields(t);
  }

  lemma SameTotal(s: seq<byte>, t: seq<byte>, f: nat, g: nat)
    requires |s| >= SIZE && |t| >= SIZE && f < g < FIELDS
    requires FieldValue(t, f) == FieldValue(s, g) && FieldValue(t, g) == FieldValue(s, f)
    requires forall h: nat :: h < FIELDS && h != f && h != g ==> FieldValue(t, h) == FieldValue(s, h)
    ensures Total(t) == Total(s)
  {
    hide FieldValue;
  }

  lemma ParamsAreFields(s: seq<byte>)
    requires |s| >= SIZE
    ensures forall id: nat :: id <= 5 ==> ParamOf(Fields(s).params, id) == FieldValue(s, id + 1)
  {
    hide ReadU32;
  }

  // ---- The file on disk ----

  /** What the application restores from the file that it finds, if any. */
  function Restored(file: Option<seq<byte>>): Option<Record> {
    if file == None then None else Load(file.value)
  }

  /** A save that is cut short anywhere, by a failure or a loss of power, leaves what restores the old record
      or the new one, and nothing else. */
  lemma InterruptedSaveRestoresOldOrNew(disk: AtomicFile.Disk, r: Record, steps: seq<AtomicFile.Step>, undone: bool)
    requires disk.target == disk.durable
    requires var s := AtomicFile.System(disk, AtomicFile.Idle);
             AtomicFile.Run(s, [AtomicFile.Start(Print(r))] + steps + [AtomicFile.Crash(undone)])
    requires forall step :: step in steps ==> !step.Start?
    ensures var s := AtomicFile.System(disk, AtomicFile.Idle);
            var end := AtomicFile.End(s, [AtomicFile.Start(Print(r))] + steps + [AtomicFile.Crash(undone)]);
            Restored(end.disk.target) in {Restored(disk.target), Some(r)}
  {
    hide Load, Print, AtomicFile.Run, AtomicFile.End;
    AtomicFile.OldOrNew(disk, Print(r), steps, undone);
    LoadsWhatWasSaved(r);
  }

  // ---- The format of the file ----

  /** The bytes of the file, by their offsets; the checksum adds up the magic number, the version and all fields. */
  lemma WireFormat(r: Record)
    ensures var s, p := Print(r), r.params;
            && |s| == 52 && ReadU32(s, 0) == 0xCF5C_0A00 && s[4] == r.health && s[5] == 1
            && ReadU32(s, 8) == p.attitude && ReadU32(s, 12) == p.local && ReadU32(s, 16) == p.gps
            && ReadU32(s, 20) == p.ekf && ReadU32(s, 24) == p.bridge && ReadU32(s, 28) == p.publish
            && ReadU32(s, 32) == r.bridgeRestarts && ReadU32(s, 36) == r.uplinkRestarts
            && ReadU32(s, 40) == r.loraRestarts && s[44] == r.lastFault
            && ReadU32(s, 48) as int
               == (0xCF5C_0A00 + 1 + r.health as int + p.attitude + p.local + p.gps + p.ekf + p.bridge + p.publish
                   + r.bridgeRestarts + r.uplinkRestarts + r.loraRestarts + r.lastFault as int) % 0x1_0000_0000
  {
    hide ReadU32, Print;
    LoadsWhatWasSaved(r);
  }
}
