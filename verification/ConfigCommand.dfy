/**
  The configuration command: an 8-byte header with scope, version, parameter, value type, value length
  and an additive checksum, then the value.  The ground builds it, the command application checks and
  forwards it to a bus that all applications read, and each application decides for itself.
 */
module ConfigCommand {
  import opened Bytes

  const HEADER := 8

  const CORE_SCOPE: byte := 1
  const LORA_SCOPE: byte := 3
  const VERSION: byte := 1

  const MIN_MS: u32 := 100
  const MAX_MS: u32 := 60000

  function Sum(s: seq<byte>): nat {
    if s == [] then 0 else Sum(s[..|s| - 1]) + s[|s| - 1] as int
  }

  /** Unsigned 16-bit addition with the wrap-around of C. */
  function Add16(a: u16, b: byte): u16 {
    var sum := a as int + b as int;
    if sum < 0x1_0000 then sum else sum - 0x1_0000
  }

  lemma AddLow16(n: nat, b: byte)
    ensures Add16(Low16(n), b) == Low16(n + b as int)
  {
  }

  lemma SumPrefix(s: seq<byte>, k: nat)
    requires k < |s|
    ensures Sum(s[..k + 1]) == Sum(s[..k]) + s[k] as int
  {
    assert s[..k + 1][..k] == s[..k];
  }

  /** The checksum of a payload: all header bytes but the checksum itself, and the value. */
  function Checksum(p: seq<byte>, valueLength: nat): u16
    requires HEADER + valueLength <= |p|
  {
    Low16(Sum(p[..6]) + Sum(p[HEADER..HEADER + valueLength]))
  }

  method ConfigChecksum(p: seq<byte>, valueLength: byte) returns (sum: u16)
    requires HEADER + valueLength as int <= |p|
    ensures sum == Checksum(p, valueLength)
  {
    hide Low16, Add16;
    sum := Add16(0, p[0]);
    sum := Add16(sum, p[1]);
    sum := Add16(sum, p[2]);
    sum := Add16(sum, p[3]);
    sum := Add16(sum, p[4]);
    sum := Add16(sum, p[5]);
    HeaderSum(p[..6]);
    var value := p[HEADER..HEADER + valueLength as int];
    var i := 0;
    while i < valueLength as int
      invariant 0 <= i <= valueLength as int
      invariant sum == Low16(Sum(p[..6]) + Sum(value[..i]))
    {
      SumPrefix(value, i);
      AddLow16(Sum(p[..6]) + Sum(value[..i]), value[i]);
      sum := Add16(sum, value[i]);
      i := i + 1;
    }
    assert value[..i] == value;
  }

  lemma SumOfNone(s: seq<byte>)
    ensures Low16(Sum(s[..0])) == 0
  {
  }

  lemma AddNext(s: seq<byte>, k: nat)
    requires k < |s|
    ensures Add16(Low16(Sum(s[..k])), s[k]) == Low16(Sum(s[..k + 1]))
  {
    SumPrefix(s, k);
    AddLow16(Sum(s[..k]), s[k]);
  }

  lemma HeaderSum(h: seq<byte>)
    requires |h| == 6
    ensures Add16(Add16(Add16(Add16(Add16(Add16(0, h[0]), h[1]), h[2]), h[3]), h[4]), h[5]) == Low16(Sum(h))
  {
    hide Low16, Add16, Sum;
    SumOfNone(h);
    AddNext(h, 0);
    AddNext(h, 1);
    AddNext(h, 2);
    AddNext(h, 3);
    AddNext(h, 4);
    AddNext(h, 5);
    assert h[..6] == h;
  }

  // ---- The ground's builder ----

  function Header(scope: byte, param: u16, valueType: byte): seq<byte> {
    [scope, VERSION] + U16(param) + [valueType, 4]
  }

  function Build(scope: byte, param: u16, valueType: byte, value: u32): (p: seq<byte>)
    ensures |p| == 12
  {
    Header(scope, param, valueType) + U16(Low16(Sum(Header(scope, param, valueType)) + Sum(U32(value)))) + U32(value)
  }

  // ---- The three readers ----

  /** What the command application demands before it forwards a payload. */
  predicate Forwardable(p: seq<byte>) {
    && |p| >= HEADER && p[5] == 4 && |p| >= HEADER + 4
    && ReadU16(p, 6) == Checksum(p, 4)
  }

  /** Result codes of the core application. */
  datatype CoreResult = OK | BadScope | BadVersion | BadParam | BadValue | BadLength | BadChecksum

  datatype CoreVerdict = Apply(param: nat, value: u32) | Reject(result: CoreResult)

  function CoreVerdictOn(p: seq<byte>): CoreVerdict {
    if |p| < HEADER then Reject(BadLength)
    else if p[0] != CORE_SCOPE then Reject(BadScope)
    else if p[1] != VERSION then Reject(BadVersion)
    else if p[5] != 4 || |p| < HEADER + 4 then Reject(BadLength)
    else if ReadU16(p, 6) != Checksum(p, 4) then Reject(BadChecksum)
    else if !(MIN_MS <= ReadU32(p, 8) <= MAX_MS) then Reject(BadValue)
    else if ReadU16(p, 2) > 5 then Reject(BadParam)
    else Apply(ReadU16(p, 2), ReadU32(p, 8))
  }

  /** The core application answers all payloads but those for another scope. */
  predicate CoreAnswers(p: seq<byte>) { CoreVerdictOn(p) != Reject(BadScope) }

  datatype LoraVerdict = Ignore | Fail(result: CoreResult) | SetProtocol(v2: bool)

  function LoraVerdictOn(p: seq<byte>): LoraVerdict {
    if |p| < HEADER || p[0] != LORA_SCOPE then Ignore
    else if p[1] != VERSION then Fail(BadVersion)
    else if p[5] != 4 || |p| < HEADER + 4 then Fail(BadLength)
    else if ReadU16(p, 6) != Checksum(p, 4) then Fail(BadChecksum)
    else if ReadU16(p, 2) != 0 then Fail(BadParam)
    else if ReadU32(p, 8) > 1 then Fail(BadValue)
    else SetProtocol(ReadU32(p, 8) == 1)
  }

  predicate LoraAnswers(p: seq<byte>) { LoraVerdictOn(p) != Ignore }

  // ---- Agreement ----

  predicate FailsOnTheWire(v: CoreResult) { v == BadLength || v == BadChecksum }

  /** A forwarded command is never rejected for its length or checksum, and for its own scope and version
      the command application holds back only what the target would reject for just those reasons. */
  lemma ForwardingAgrees(p: seq<byte>)
    ensures Forwardable(p) ==>
              && (CoreVerdictOn(p).Reject? ==> !FailsOnTheWire(CoreVerdictOn(p).result))
              && (LoraVerdictOn(p).Fail? ==> !FailsOnTheWire(LoraVerdictOn(p).result))
    ensures !Forwardable(p) && |p| >= HEADER && p[1] == VERSION ==>
              && (p[0] == CORE_SCOPE ==> CoreVerdictOn(p).Reject? && FailsOnTheWire(CoreVerdictOn(p).result))
              && (p[0] == LORA_SCOPE ==> LoraVerdictOn(p).Fail? && FailsOnTheWire(LoraVerdictOn(p).result))
  {
    hide Checksum, ReadU32, ReadU16;
  }

  /** Of the core and the radio application exactly the addressed one answers a forwarded command. */
  lemma OnlyTheTargetAnswers(p: seq<byte>)
    requires Forwardable(p)
    ensures CoreAnswers(p) <==> p[0] == 1
    ensures LoraAnswers(p) <==> p[0] == 3
  {
    hide Checksum, ReadU32, ReadU16;
  }

  /** The payload begins with a well-formed command. */
  ghost predicate Carries(p: seq<byte>, scope: byte, param: u16, value: u32) {
    |p| >= 12 && Build(scope, param, p[4], value) <= p
  }

  /** The readers undo the builder: what is accepted is what was built, and the other way round. */
  lemma ReadsWhatWasBuilt(p: seq<byte>, scope: byte, param: u16, value: u32)
    ensures Carries(p, scope, param, value)
      <==> Forwardable(p) && p[0] == scope && p[1] == 1 && ReadU16(p, 2) == param && ReadU32(p, 8) == value
  {
    hide Sum, Low16;
    if Carries(p, scope, param, value) {
      var b := Build(scope, param, p[4], value);
      assert p[..12] == b;
      assert p[..6] == b[..6] == Header(scope, param, p[4]);
      assert p[2..4] == b[2..4] == U16(param);
      assert p[8..12] == b[8..12] == U32(value);
      assert p[6..8] == b[6..8];
      assert p[5] == b[5] == 4 && p[0] == b[0] && p[1] == b[1];
      ReadsU16(p, 2, param);
      ReadsU16(p, 6, Low16(Sum(p[..6]) + Sum(p[8..12])));
      ReadsU32(p, 8, value);
    }
    if Forwardable(p) && p[0] == scope && p[1] == VERSION && ReadU16(p, 2) == param && ReadU32(p, 8) == value {
      PrintsU16(p, 2);
      PrintsU16(p, 6);
      PrintsU32(p, 8);
      assert p[..6] == [p[0], p[1]] + p[2..4] + [p[4], p[5]];
      assert p[..12] == p[..6] + p[6..8] + p[8..12];
    }
  }

  lemma CoreAppliesExactly(p: seq<byte>, param: u16, value: u32)
    ensures CoreVerdictOn(p) == Apply(param, value)
      <==> param <= 5 && 100 <= value <= 60000 && Carries(p, 1, param, value)
  {
    hide Checksum, ReadU32, ReadU16, Build;
    ReadsWhatWasBuilt(p, CORE_SCOPE, param, value);
  }

  lemma LoraSetsExactly(p: seq<byte>, v2: bool)
    ensures LoraVerdictOn(p) == SetProtocol(v2) <==> Carries(p, 3, 0, if v2 then 1 else 0)
  {
    hide Checksum, ReadU32, ReadU16, Build;
    ReadsWhatWasBuilt(p, LORA_SCOPE, 0, if v2 then 1 else 0);
  }

  /** The bytes of a built payload: each field at its place, and the sum of all others as the checksum. */
  lemma WireFormat(scope: byte, param: u16, valueType: byte, value: u32)
    ensures var p := Build(scope, param, valueType, value);
            && |p| == 12 && p[0] == scope && p[1] == 1 && ReadU16(p, 2) == param && p[4] == valueType && p[5] == 4
            && ReadU32(p, 8) == value
            && ReadU16(p, 6) as int
               == (Octet(p, 0) + Octet(p, 1) + Octet(p, 2) + Octet(p, 3) + Octet(p, 4) + Octet(p, 5)
                   + Octet(p, 8) + Octet(p, 9) + Octet(p, 10) + Octet(p, 11)) % 0x1_0000
  {
    hide Sum, Low16, ReadU16, ReadU32;
    var p := Build(scope, param, valueType, value);
    BuildHasType(scope, param, valueType, value);
    ReadsWhatWasBuilt(p, scope, param, value);
    ChecksumAdds(p);
  }

  lemma BuildHasType(scope: byte, param: u16, valueType: byte, value: u32)
    ensures var p := Build(scope, param, valueType, value); p[4] == valueType && Carries(p, scope, param, value)
  {
    hide Sum, Low16;
  }

  lemma ChecksumAdds(p: seq<byte>)
    requires |p| >= 12
    ensures Checksum(p, 4) as int
            == (Octet(p, 0) + Octet(p, 1) + Octet(p, 2) + Octet(p, 3) + Octet(p, 4) + Octet(p, 5)
                + Octet(p, 8) + Octet(p, 9) + Octet(p, 10) + Octet(p, 11)) % 0x1_0000
  {
    hide Sum;
    SumOfFour(p[8..12]);
    SumOfFour(p[..4]);
    SumPrefix(p[..6], 4);
    SumPrefix(p[..6], 5);
    assert p[..6][..4] == p[..4] && p[..6][..6] == p[..6];
  }

  lemma SumOfFour(s: seq<byte>)
    requires |s| == 4
    ensures Sum(s) == Octet(s, 0) + Octet(s, 1) + Octet(s, 2) + Octet(s, 3)
  {
    SumPrefix(s, 0);
    SumPrefix(s, 1);
    SumPrefix(s, 2);
    SumPrefix(s, 3);
    assert s[..4] == s && s[..0] == [];
  }

  /** The core application's verdict: the first of scope, version, length, checksum, value and parameter that is at
      fault, in this order, or none; a payload without a whole header fails for its length. */
  lemma CoreVerdictTable(p: seq<byte>)
    ensures var v := CoreVerdictOn(p);
            && (|p| < 8 ==> v == Reject(BadLength))
            && (|p| >= 8 ==>
                  && (v == Reject(BadScope) <==> p[0] != 1)
                  && (v == Reject(BadVersion) <==> p[0] == 1 && p[1] != 1)
                  && (v == Reject(BadLength) <==> p[0] == 1 && p[1] == 1 && !(p[5] == 4 && |p| >= 12))
                  && (v == Reject(BadChecksum) || v == Reject(BadValue) || v == Reject(BadParam) || v.Apply? ==>
                        p[0] == 1 && p[1] == 1 && p[5] == 4 && |p| >= 12)
                  && (p[0] == 1 && p[1] == 1 && p[5] == 4 && |p| >= 12 ==>
                        && (v == Reject(BadChecksum) <==> !Forwardable(p))
                        && (v == Reject(BadValue) <==> Forwardable(p) && !(100 <= ReadU32(p, 8) <= 60000))
                        && (v == Reject(BadParam) <==>
                            Forwardable(p) && 100 <= ReadU32(p, 8) <= 60000 && ReadU16(p, 2) > 5)))
  {
    hide Checksum, ReadU16, ReadU32;
  }

  /** The radio application's verdict: silence without a whole header or for another scope; otherwise the first of
      version, length, checksum, parameter and value that is at fault, or none. */
  lemma LoraVerdictTable(p: seq<byte>)
    ensures var v := LoraVerdictOn(p);
            && (v == Ignore <==> |p| < 8 || p[0] != 3)
            && (|p| >= 8 && p[0] == 3 ==>
                  && (v == Fail(BadVersion) <==> p[1] != 1)
                  && (v == Fail(BadLength) <==> p[1] == 1 && !(p[5] == 4 && |p| >= 12))
                  && (p[1] == 1 && p[5] == 4 && |p| >= 12 ==>
                        && (v == Fail(BadChecksum) <==> !Forwardable(p))
                        && (v == Fail(BadParam) <==> Forwardable(p) && ReadU16(p, 2) != 0)
                        && (v == Fail(BadValue) <==> Forwardable(p) && ReadU16(p, 2) == 0 && ReadU32(p, 8) > 1)))
  {
    hide Checksum, ReadU16, ReadU32;
  }

  /** An error in a single byte that the checksum covers is always caught. */
  lemma OneByteErrorIsCaught(p: seq<byte>, at: nat, b: byte)
    requires Forwardable(p) && (at < 5 || 8 <= at < 12) && b != p[at]
    ensures !Forwardable(p[at := b])
  {
    var q := p[at := b];
    if at < 5 {
      assert q[8..12] == p[8..12];
      assert q[..6] == p[..6][at := b];
      SumOfChange(p[..6], at, b);
    } else {
      assert q[..6] == p[..6];
      assert q[8..12] == p[8..12][at - 8 := b];
      SumOfChange(p[8..12], at - 8, b);
    }
    var sum, sum' := Sum(p[..6]) + Sum(p[8..12]), Sum(q[..6]) + Sum(q[8..12]);
    assert 0 < sum - sum' < 0x100 || 0 < sum' - sum < 0x100;
    DistinctResidues(sum, sum');
  }

  lemma DistinctResidues(a: nat, b: nat)
    requires 0 < a - b < 0x100 || 0 < b - a < 0x100
    ensures Low16(a) != Low16(b)
  {
    var q, q' := a / 0x1_0000, b / 0x1_0000;
    assert a == 0x1_0000 * q + Low16(a) && b == 0x1_0000 * q' + Low16(b);
  }

  lemma {:induction false} SumOfChange(s: seq<byte>, at: nat, b: byte)
    requires at < |s|
    ensures Sum(s[at := b]) == Sum(s) - s[at] as int + b as int
  {
    var n := |s| - 1;
    if at == n {
      assert s[at := b][..n] == s[..n];
    } else {
      assert s[at := b][..n] == s[..n][at := b];
      SumOfChange(s[..n], at, b);
    }
  }

  // ---- The core application's parameters ----

  datatype Params = Params(attitude: u32, local: u32, gps: u32, ekf: u32, bridge: u32, publish: u32)

  const DEFAULTS := Params(2000, 2000, 3000, 2000, 3000, 1000)

  function ParamOf(p: Params, id: nat): u32
    requires id <= 5
  {
    match id
    case 0 => p.attitude
    case 1 => p.local
    case 2 => p.gps
    case 3 => p.ekf
    case 4 => p.bridge
    case 5 => p.publish
  }

  function WithParam(p: Params, id: nat, v: u32): Params
    requires id <= 5
  {
    match id
    case 0 => p.(attitude := v)
    case 1 => p.(local := v)
    case 2 => p.(gps := v)
    case 3 => p.(ekf := v)
    case 4 => p.(bridge := v)
    case 5 => p.(publish := v)
  }

  ghost predicate InRange(p: Params) {
    && 100 <= p.attitude <= 60000 && 100 <= p.local <= 60000 && 100 <= p.gps <= 60000
    && 100 <= p.ekf <= 60000 && 100 <= p.bridge <= 60000 && 100 <= p.publish <= 60000
  }

  /** The application's own check of a whole parameter set, which has no upper bound. */
  predicate AllAtLeastMin(p: Params) {
    && p.attitude >= MIN_MS && p.local >= MIN_MS && p.gps >= MIN_MS
    && p.ekf >= MIN_MS && p.bridge >= MIN_MS && p.publish >= MIN_MS
  }

  predicate Activates(p: Params, payload: seq<byte>) {
    CoreVerdictOn(payload).Apply?
    && AllAtLeastMin(WithParam(p, CoreVerdictOn(payload).param, CoreVerdictOn(payload).value))
  }

  function Configured(p: Params, payload: seq<byte>): Params {
    if Activates(p, payload) then WithParam(p, CoreVerdictOn(payload).param, CoreVerdictOn(payload).value) else p
  }

  /** The result code reported for a command. */
  function ConfigResult(p: Params, payload: seq<byte>): CoreResult {
    match CoreVerdictOn(payload)
    case Reject(result) => result
    case Apply(_, _) => if Activates(p, payload) then OK else BadValue
  }

  /** A command that is acted on changes exactly one parameter, to the value it carries; any other command
      changes none.  Parameters in range stay in range, and then no well-formed command is held up. */
  lemma ConfiguredChangesOne(p: Params, payload: seq<byte>)
    ensures forall id: nat | id <= 5 ::
              (if Activates(p, payload) && CoreVerdictOn(payload).param == id
               then ParamOf(Configured(p, payload), id) == CoreVerdictOn(payload).value
               else ParamOf(Configured(p, payload), id) == ParamOf(p, id))
    ensures InRange(p) ==> InRange(Configured(p, payload)) && (Activates(p, payload) <==> CoreVerdictOn(payload).Apply?)
  {
    hide Checksum, ReadU32, ReadU16;
    if InRange(p) {
      RangeImpliesMin(p);
    }
  }

  lemma RangeImpliesMin(p: Params)
    ensures InRange(p) ==> AllAtLeastMin(p)
    ensures AllAtLeastMin(p) <==> forall id: nat :: id <= 5 ==> ParamOf(p, id) >= MIN_MS
  {
    if InRange(p) || forall id: nat :: id <= 5 ==> ParamOf(p, id) >= MIN_MS {
      assert ParamOf(p, 0) >= MIN_MS && ParamOf(p, 1) >= MIN_MS && ParamOf(p, 2) >= MIN_MS && ParamOf(p, 3) >= MIN_MS
             && ParamOf(p, 4) >= MIN_MS && ParamOf(p, 5) >= MIN_MS;
    }
  }

  ghost predicate OthersAtLeastMin(p: Params, param: nat) {
    forall id: nat :: id <= 5 && id != param ==> ParamOf(p, id) >= 100
  }

  /** Parameters restored from a state file are not checked.  A command is acted on exactly when it is well
      formed and no other parameter lies below the minimum: two such parameters lock each other, and the
      ground can then repair neither. */
  lemma TwoLowParametersLockAll(p: Params, payload: seq<byte>, i: nat, j: nat)
    ensures Activates(p, payload)
            <==> CoreVerdictOn(payload).Apply? && OthersAtLeastMin(p, CoreVerdictOn(payload).param)
    ensures i < j <= 5 && ParamOf(p, i) < 100 && ParamOf(p, j) < 100 ==> !Activates(p, payload)
  {
    hide Checksum, ReadU32, ReadU16;
    if CoreVerdictOn(payload).Apply? {
      var k, v := CoreVerdictOn(payload).param, CoreVerdictOn(payload).value;
      RangeImpliesMin(WithParam(p, k, v));
      assert forall id: nat :: id <= 5 && id != k ==> ParamOf(WithParam(p, k, v), id) == ParamOf(p, id);
    }
  }

  /** What the numbers of the parameters stand for. */
  lemma ParametersByNumber(p: Params, payload: seq<byte>)
    requires Activates(p, payload)
    ensures var v, q := CoreVerdictOn(payload), Configured(p, payload);
            && (v.param == 0 ==> q == p.(attitude := v.value)) && (v.param == 1 ==> q == p.(local := v.value))
            && (v.param == 2 ==> q == p.(gps := v.value)) && (v.param == 3 ==> q == p.(ekf := v.value))
            && (v.param == 4 ==> q == p.(bridge := v.value)) && (v.param == 5 ==> q == p.(publish := v.value))
  {
    hide CoreVerdictOn, AllAtLeastMin;
  }

  // ---- The active, pending and previous buffers ----

  datatype Progress = Idle | Pending | Refused

  datatype Buffers = Buffers(active: Params, pending: Params, previous: Params, generation: u32, progress: Progress,
      result: CoreResult)

  const INITIAL: Buffers := Buffers(DEFAULTS, DEFAULTS, DEFAULTS, 0, Idle, OK)

  function Handled(b: Buffers, payload: seq<byte>): Buffers {
    match CoreVerdictOn(payload)
    case Reject(result) =>
      b.(pending := if result == BadParam then b.active else b.pending, progress := Refused, result := result)
    case Apply(id, v) =>
      var candidate := WithParam(b.active, id, v);
      if AllAtLeastMin(candidate) then Buffers(candidate, candidate, b.active, Inc32(b.generation), Idle, OK)
      else b.(pending := candidate, progress := Refused, result := BadValue)
  }

  /** All or nothing: a command that is acted on replaces the active parameters and keeps the old ones as the
      previous; any other command touches neither, nor the generation. */
  lemma AllOrNothing(b: Buffers, payload: seq<byte>)
    ensures var after := Handled(b, payload);
            && after.active == Configured(b.active, payload) && after.result == ConfigResult(b.active, payload)
            && (if Activates(b.active, payload)
                then after.previous == b.active && after.pending == after.active
                    && after.generation == Inc32(b.generation)
                     && after.progress == Idle
                else after.active == b.active && after.previous == b.previous && after.generation == b.generation
                     && after.progress == Refused)
  {
    hide Checksum, ReadU32, ReadU16;
  }
}
