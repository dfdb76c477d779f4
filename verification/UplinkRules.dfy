/**
  The command application's rules: when a command is new, well formed, permitted and routable, and
  what is sent on for it.
 */
module UplinkRules {
  import opened Bytes
  import opened Uplink2
  import ConfigCommand
  import RoutePayload
  import Floats

  // ---- Command classes ----

  const CONFIG: byte := 1
  const ROUTE_UPDATE: byte := 2
  const VIEWPOINT: byte := 3
  const RECOVERY: byte := 4
  const MODE: byte := 5
  const DIAGNOSTIC: byte := 6
  const COUNTER_MGMT: byte := 7
  const FLIGHT_MODE: byte := 8

  // ---- Result codes ----

  const RESULT_NONE: byte := 0
  const RESULT_ROUTED: byte := 3
  const RESULT_FAILED: byte := 4
  const REJECT_VERSION: byte := 5
  const REJECT_CLASS: byte := 6
  const REJECT_LENGTH: byte := 7
  const ROUTE_MISS: byte := 8
  const REJECT_ROUTE: byte := 9
  const REJECT_SEQUENCE: byte := 10
  const REJECT_STATE: byte := 11
  const REJECT_CHECKSUM: byte := 12
  const REJECT_VIEWPOINT: byte := 13
  const RESULT_DUPLICATE: byte := 14
  const EXECUTED_OK: byte := 15
  const EXECUTED_FAILED: byte := 16
  const REJECT_COUNTER: byte := 17
  const REJECT_FLIGHT_MODE: byte := 18

  // ---- Sequence numbers ----

  datatype SeqCheck = New | Duplicate | Replay

  /** How far `to` is ahead of `from` on the circle of 16-bit numbers. */
  function Ahead(from: u16, to: u16): u16 { if to >= from then to - from else to - from + 0x1_0000 }

  function CheckSequence(accepted: u32, last: u32, seqNo: u16): SeqCheck {
    if accepted == 0 then New
    else if seqNo == Low16(last) then Duplicate
    else if Ahead(Low16(last), seqNo) < 0x8000 then New
    else Replay
  }

  // ---- Validation ----

  /** The bytes of the payload field that count. */
  function Args(c: FwdCommand): (p: seq<byte>)
    requires ValidFwd(c)
    ensures |p| <= MAX_PAYLOAD && (c.payloadLength as int <= MAX_PAYLOAD ==> |p| == c.payloadLength as int)
  {
    c.payload[..if c.payloadLength as int > MAX_PAYLOAD then MAX_PAYLOAD else c.payloadLength as int]
  }

  /** The first complaint about a command's form, if any. */
  function Complaint(c: FwdCommand): Option<byte>
    requires ValidFwd(c)
  {
    if c.version != 1 then Some(REJECT_VERSION)
    else if c.payloadLength as int > MAX_PAYLOAD then Some(REJECT_LENGTH)
    else if !(CONFIG <= c.commandClass <= FLIGHT_MODE) then Some(REJECT_CLASS)
    else if (c.commandClass == ROUTE_UPDATE || c.commandClass == VIEWPOINT) && c.payloadLength == 0
    then Some(REJECT_LENGTH)
    else if ProxyCrc(c) != c.checksum then Some(REJECT_CHECKSUM)
    else None
  }

  /** The application that carries out a class: 1 core, 2 radio, 3 counters, 4 flight mode, 0 none. */
  function Target(commandClass: byte): byte {
    if CONFIG <= commandClass <= MODE then 1
    else if commandClass == DIAGNOSTIC then 2
    else if commandClass == COUNTER_MGMT then 3
    else if commandClass == FLIGHT_MODE then 4
    else 0
  }

  // ---- The health gate ----

  const HOVER: byte := 0
  const WAYPOINT: byte := 1
  const LAND: byte := 2

  predicate Forced(c: FwdCommand) { (c.flags as int) % 2 == 1 }

  predicate FlightModeIs(c: FwdCommand, mode: byte)
    requires ValidFwd(c)
  {
    c.commandClass == FLIGHT_MODE && |Args(c)| >= 1 && Args(c)[0] == mode
  }

  /** What a health state forbids, before exemptions: 1 DEGRADED, 2 RECOVERY, 3 FAILED. */
  predicate Forbidden(health: byte, c: FwdCommand)
    requires ValidFwd(c)
  {
    if health == 3 || health == 2 then c.commandClass != RECOVERY && c.commandClass != DIAGNOSTIC
    else health == 1 && (c.commandClass == VIEWPOINT || c.commandClass == CONFIG || FlightModeIs(c, WAYPOINT))
  }

  predicate Blocked(health: byte, c: FwdCommand)
    requires ValidFwd(c)
  {
    Forbidden(health, c) && !FlightModeIs(c, HOVER) && !FlightModeIs(c, LAND) && !Forced(c)
  }

  // ---- Authorisation ----

  function RequiredLevel(commandClass: byte): byte {
    if commandClass == 0 || commandClass == DIAGNOSTIC then 1
    else if CONFIG <= commandClass <= VIEWPOINT then 2
    else if commandClass == RECOVERY || commandClass == MODE || COUNTER_MGMT <= commandClass <= FLIGHT_MODE then 3
    else 0xFF
  }

  /** The request token of a level-3 command; 0 when the payload is too short to hold one. */
  function Token(c: FwdCommand): u32
    requires ValidFwd(c)
  {
    if c.commandClass == RECOVERY && |Args(c)| >= 8 then ReadU32(Args(c), 4)
    else if (c.commandClass == MODE || COUNTER_MGMT <= c.commandClass <= FLIGHT_MODE) && |Args(c)| >= 6
    then ReadU32(Args(c), 2)
    else 0
  }

  /** The level granted by bits 7 and 6 of the flags. */
  function GrantedLevel(c: FwdCommand): byte { c.flags as int / 64 }

  predicate Authorized(c: FwdCommand)
    requires ValidFwd(c)
  {
    GrantedLevel(c) >= RequiredLevel(c.commandClass) && (RequiredLevel(c.commandClass) == 3 ==> Token(c) != 0)
  }

  // ---- Viewpoints ----

  /** Of a finite number between the two numbers `-max` and `max`, given by patterns. */
  predicate Within(bits: u32, max: u32) { bits % 0x8000_0000 <= max }

  predicate ValidViewpoint(p: seq<byte>) {
    && |p| == 28 && p[1] == 1 && p[0] as int <= 2 && p[2] == 0
    && Within(ReadU32(p, 4), 0x4248_0000)    // X within 50 m
    && Within(ReadU32(p, 8), 0x4248_0000)    // Y within 50 m
    && RoutePayload.AltitudeValid(ReadU32(p, 12))
    && Within(ReadU32(p, 16), 0x4049_0FDB)   // yaw within pi
    && Within(ReadU32(p, 20), 0x3FC9_0FDB)   // pitch within half of pi
    && ReadU32(p, 24) <= 30000
  }

  // ---- What is sent on ----

  datatype Message =
    | RouteMsg(source: u16, update: RoutePayload.RouteUpdate)
    | RecoveryMsg(source: u16, action: byte, component: byte, reason: u16, token: u32)
    | ViewpointMsg(source: u16, kind: byte, frame: byte, x: u32, y: u32, z: u32, yaw: u32, pitch: u32, holdMs: u32)
    | ConfigMsg(source: u16, payload: seq<byte>)
    | ModeMsg(source: u16, action: byte, state: byte, token: u32)
    | DiagnosticMsg(source: u16, action: byte, component: byte, token: u32)
    | ResetMsg(scope: byte)
    | FlightModeMsg(source: u16, mode: byte, startIndex: byte)

  /** The counters of the command application itself. */
  const SELF_SCOPE: byte := 3

  datatype Preparation =
    | Send(msg: Message)
    | ResetSelf
    | Invalid             // the payload fails its parser
    | Unforwardable       // the forwarder refuses it

  /** What a class makes of a command's payload. */
  function Prepare(c: FwdCommand): Preparation
    requires ValidFwd(c)
  {
    var p := Args(c);
    if c.commandClass == CONFIG then
      if ConfigCommand.Forwardable(p) then Send(ConfigMsg(c.seqNo, p)) else Unforwardable
    else if c.commandClass == ROUTE_UPDATE then
      match RoutePayload.Parse(p)
      case Some(u) => Send(RouteMsg(c.seqNo, u))
      case None => Invalid
    else if c.commandClass == VIEWPOINT then
      if !ValidViewpoint(p) then Invalid
      else Send(ViewpointMsg(c.seqNo, p[0], p[2], ReadU32(p, 4), ReadU32(p, 8), ReadU32(p, 12), ReadU32(p, 16),
                             ReadU32(p, 20), ReadU32(p, 24)))
    else if c.commandClass == RECOVERY then
      if |p| < 8 then Unforwardable else Send(RecoveryMsg(c.seqNo, p[0], p[1], ReadU16(p, 2), ReadU32(p, 4)))
    else if c.commandClass == MODE then
      if |p| < 6 then Unforwardable else Send(ModeMsg(c.seqNo, p[0], p[1], ReadU32(p, 2)))
    else if c.commandClass == DIAGNOSTIC then
      if |p| < 6 then Unforwardable else Send(DiagnosticMsg(c.seqNo, p[0], p[1], ReadU32(p, 2)))
    else if c.commandClass == COUNTER_MGMT then
      if |p| < 6 || p[1] != 0 || !(1 <= p[0] <= 4) then Invalid
      else if p[0] == SELF_SCOPE then ResetSelf
      else Send(ResetMsg(p[0]))
    else if c.commandClass == FLIGHT_MODE then
      if |p| < 6 || p[0] > LAND || (p[0] != WAYPOINT && p[1] != 0) then Invalid
      else Send(FlightModeMsg(c.seqNo, p[0], p[1]))
    else Invalid
  }

  /** The complaint about a payload that its class finds invalid. */
  function InvalidResult(commandClass: byte): byte {
    if commandClass == ROUTE_UPDATE then REJECT_ROUTE
    else if commandClass == VIEWPOINT then REJECT_VIEWPOINT
    else if commandClass == COUNTER_MGMT then REJECT_COUNTER
    else REJECT_FLIGHT_MODE
  }

  // ---- The decision ----

  datatype Verdict =
    | IsDuplicate
    | Rejected(result: byte)
    | NotRouted(result: byte, missed: byte)
    | Routed(target: byte)
    | SelfReset

  /** What the decision depends on besides the command. */
  datatype Context = Context(accepted: u32, last: u32, healthKnown: bool, health: byte)

  /** What is decided once a command has passed all common checks; `busOk` says whether the message bus
      takes the message. */
  function Outcome(c: FwdCommand, busOk: bool): Verdict
    requires ValidFwd(c)
  {
    match Prepare(c)
    case ResetSelf => SelfReset
    case Invalid => Rejected(InvalidResult(c.commandClass))
    case Unforwardable => NotRouted(RESULT_FAILED, Target(c.commandClass))
    case Send(msg) =>
      if busOk then Routed(Target(c.commandClass))
      else if c.commandClass == COUNTER_MGMT then Rejected(REJECT_COUNTER)
      else NotRouted(RESULT_FAILED, Target(c.commandClass))
  }

  function Decide(m: Context, c: FwdCommand, busOk: bool): Verdict
    requires ValidFwd(c)
  {
    var check := CheckSequence(m.accepted, m.last, c.seqNo);
    if check == Duplicate then IsDuplicate
    else if check == Replay then Rejected(REJECT_SEQUENCE)
    else if Complaint(c).Some? then Rejected(Complaint(c).value)
    else if Target(c.commandClass) == 0 then NotRouted(ROUTE_MISS, 0)
    else if !m.healthKnown || Blocked(m.health, c) || !Authorized(c) then Rejected(REJECT_STATE)
    else Outcome(c, busOk)
  }

  /** Which preparations each class can lead to. */
  lemma PreparedByClass(c: FwdCommand)
    requires ValidFwd(c) && Complaint(c) == None
    ensures CONFIG <= c.commandClass <= FLIGHT_MODE
    ensures Prepare(c) == Invalid ==> c.commandClass in {ROUTE_UPDATE, VIEWPOINT, COUNTER_MGMT, FLIGHT_MODE}
    ensures Prepare(c) == Unforwardable ==> c.commandClass in {CONFIG, RECOVERY, MODE, DIAGNOSTIC}
    ensures Prepare(c) == ResetSelf ==> c.commandClass == COUNTER_MGMT && |Args(c)| > 0 && Args(c)[0] == SELF_SCOPE
    ensures c.commandClass == COUNTER_MGMT && Prepare(c).Send? ==> |Args(c)| > 0 && Args(c)[0] != SELF_SCOPE
  {
    hide ProxyCrc, RoutePayload.Parse, ConfigCommand.Forwardable, ValidViewpoint, ReadU32, ReadU16;
  }

  /** The message that leaves the application for a command. */
  function Sends(m: Context, c: FwdCommand, busOk: bool): seq<Message>
    requires ValidFwd(c)
  {
    if Decide(m, c, busOk).Routed? && Prepare(c).Send? then [Prepare(c).msg] else []
  }

  // ---- What the messages mean ----

  /** The ground's layout of the payload that a message stands for; the rest of the payload is a request token. */
  function Layout(msg: Message, p: seq<byte>): seq<byte> {
    match msg
    case ConfigMsg(_, payload) => payload
    case RouteMsg(_, update) => RoutePayload.Print(update)
    case ViewpointMsg(_, kind, frame, x, y, z, yaw, pitch, holdMs) =>
      [kind, 1, frame, if |p| > 3 then p[3] else 0] + U32(x) + U32(y) + U32(z) + U32(yaw) + U32(pitch) + U32(holdMs)
    case RecoveryMsg(_, action, component, reason, token) => [action, component] + U16(reason) + U32(token)
    case ModeMsg(_, action, state, token) => [action, state] + U32(token)
    case DiagnosticMsg(_, action, component, token) => [action, component] + U32(token)
    case ResetMsg(scope) => [scope, 0]
    case FlightModeMsg(_, mode, startIndex) => [mode, startIndex]
  }

  /** The class of the command that a message is sent for. */
  function ClassOf(msg: Message): byte {
    match msg
    case ConfigMsg(_, _) => 1
    case RouteMsg(_, _) => 2
    case ViewpointMsg(_, _, _, _, _, _, _, _, _) => 3
    case RecoveryMsg(_, _, _, _, _) => 4
    case ModeMsg(_, _, _, _) => 5
    case DiagnosticMsg(_, _, _, _) => 6
    case ResetMsg(_) => 7
    case FlightModeMsg(_, _, _) => 8
  }

  /** A message that is sent on says what the ground put into the payload: laid out again, in the class's order of
      fields, it is the beginning of the payload, and it carries the command's sequence number. */
  lemma MessageIsPayload(c: FwdCommand)
    requires ValidFwd(c) && Prepare(c).Send?
    ensures var msg := Prepare(c).msg;
            && ClassOf(msg) == c.commandClass && Layout(msg, Args(c)) <= Args(c)
            && (!msg.ResetMsg? ==> msg.source == c.seqNo)
  {
    hide U16, U32, ReadU16, ReadU32, RoutePayload.Parse, RoutePayload.Print, ConfigCommand.Forwardable, ValidViewpoint;
    var p := Args(c);
    match c.commandClass
    case 2 =>
      RoutePayload.ParseExact(p, Prepare(c).msg.update);
    case 3 =>
      ViewpointLength(p);
      ViewpointIsPayload(p);
    case 4 =>
      PrintsU16(p, 2);
      PrintsU32(p, 4);
      assert p[..8] == [p[0], p[1]] + p[2..4] + p[4..8];
    case 5 =>
      PrintsU32(p, 2);
      assert p[..6] == [p[0], p[1]] + p[2..6];
    case 6 =>
      PrintsU32(p, 2);
      assert p[..6] == [p[0], p[1]] + p[2..6];
    case _ =>
  }

  lemma ViewpointLength(p: seq<byte>)
    requires ValidViewpoint(p)
    ensures |p| == 28 && p[1] == 1
  {
  }

  lemma ViewpointIsPayload(p: seq<byte>)
    requires |p| == 28
    ensures p == [p[0], p[1], p[2], p[3]] + U32(ReadU32(p, 4)) + U32(ReadU32(p, 8)) + U32(ReadU32(p, 12))
                 + U32(ReadU32(p, 16)) + U32(ReadU32(p, 20)) + U32(ReadU32(p, 24))
  {
    hide U32, ReadU32;
    PrintsU32(p, 4);
    PrintsU32(p, 8);
    PrintsU32(p, 12);
    PrintsU32(p, 16);
    PrintsU32(p, 20);
    PrintsU32(p, 24);
    assert p == p[..4] + p[4..8] + p[8..12] + p[12..16] + p[16..20] + p[20..24] + p[24..28];
  }

  /** A viewpoint is accepted exactly when its type is at most 2, its version 1 and its frame 0, X and Y are within
      50 m, the height is from 2 to 8 m, the yaw within pi and the pitch within half of it (as 32-bit numbers), and it
      is held for at most 30 s. */
  lemma ViewpointExactly(p: seq<byte>)
    ensures ValidViewpoint(p) <==>
            && |p| == 28 && p[0] <= 2 && p[1] == 1 && p[2] == 0
            && IsWithin(ReadU32(p, 4), -50.0, 50.0) && IsWithin(ReadU32(p, 8), -50.0, 50.0)
            && IsWithin(ReadU32(p, 12), 2.0, 8.0)
            && IsWithin(ReadU32(p, 16), -13176795.0 / 4194304.0, 13176795.0 / 4194304.0)
            && IsWithin(ReadU32(p, 20), -13176795.0 / 8388608.0, 13176795.0 / 8388608.0)
            && ReadU32(p, 24) <= 30000
  {
    hide ReadU32, Floats.Value, Floats.IsNumber, RoutePayload.AltitudeValid;
    if |p| == 28 {
      Floats.Limits();
      Floats.SizeExactly(ReadU32(p, 4), 0x4248_0000);
      Floats.SizeExactly(ReadU32(p, 8), 0x4248_0000);
      RoutePayload.AltitudeExactly(ReadU32(p, 12));
      Floats.SizeExactly(ReadU32(p, 16), 0x4049_0FDB);
      Floats.SizeExactly(ReadU32(p, 20), 0x3FC9_0FDB);
    }
  }

  /** The pattern is that of a number from `low` to `high`. */
  ghost predicate IsWithin(bits: u32, low: real, high: real) {
    Floats.IsNumber(bits) && low <= Floats.Value(bits) <= high
  }

  /** Which payloads can be carried out, class by class. */
  lemma CarriedOutExactly(c: FwdCommand)
    requires ValidFwd(c)
    ensures var p := Args(c);
            && (Prepare(c) == ResetSelf <==> c.commandClass == 7 && |p| >= 6 && p[0] == 3 && p[1] == 0)
            && (Prepare(c).Send? <==>
                || (c.commandClass == 1 && ConfigCommand.Forwardable(p))
                || (c.commandClass == 2 && exists u :: RoutePayload.Lawful(u) && p == RoutePayload.Print(u))
                || (c.commandClass == 3 && ValidViewpoint(p))
                || (c.commandClass == 4 && |p| >= 8)
                || (c.commandClass in {5, 6} && |p| >= 6)
                || (c.commandClass == 7 && |p| >= 6 && p[0] in {1, 2, 4} && p[1] == 0)
                || (c.commandClass == 8 && |p| >= 6 && (p[0] == 1 || (p[0] in {0, 2} && p[1] == 0))))
  {
    hide ReadU16, ReadU32, RoutePayload.Parse, RoutePayload.Print, RoutePayload.Lawful, ConfigCommand.Forwardable,
         ValidViewpoint;
    var p := Args(c);
    if c.commandClass == 2 {
      ParsesLawful(p);
    }
    if ValidViewpoint(p) {
      ViewpointLength(p);
    }
  }

  lemma ParsesLawful(p: seq<byte>)
    ensures RoutePayload.Parse(p).Some? <==> exists u :: RoutePayload.Lawful(u) && p == RoutePayload.Print(u)
  {
    hide RoutePayload.Parse, RoutePayload.Print, RoutePayload.Lawful;
    if RoutePayload.Parse(p).Some? {
      RoutePayload.ParseExact(p, RoutePayload.Parse(p).value);
    }
    if u :| RoutePayload.Lawful(u) && p == RoutePayload.Print(u) {
      RoutePayload.ParseExact(p, u);
    }
  }

  // ---- What the checks mean ----

  /** Byte `at` of the payload, if it counts. */
  predicate PayloadByte(c: FwdCommand, at: nat, b: byte)
    requires ValidFwd(c)
  {
    at < c.payloadLength as int && at < 196 && c.payload[at] == b
  }

  /** The health state that was reported permits the command: 0 NOMINAL everything; 1 DEGRADED no configuration (1), no
      viewpoint (3) and no flight along waypoints (8 with mode 1); 2 RECOVERY and 3 FAILED only recovery (4) and
      diagnostics (6).  Flag bit 0 forces any command, and hovering and landing (8 with mode 0 or 2) always pass. */
  predicate HealthPermits(health: byte, c: FwdCommand)
    requires ValidFwd(c)
  {
    || c.flags as int % 2 == 1
    || (c.commandClass == 8 && (PayloadByte(c, 0, 0) || PayloadByte(c, 0, 2)))
    || health == 0 || health > 3
    || (health == 1 && c.commandClass != 1 && c.commandClass != 3 && !(c.commandClass == 8 && PayloadByte(c, 0, 1)))
    || (health in {2, 3} && c.commandClass in {4, 6})
  }

  /** Flag bits 7 and 6 grant the level that the class needs: 2 for configuration, route and viewpoint, 3 for
      recovery, mode, counters and flight mode, 1 for diagnostics. */
  predicate LevelSuffices(c: FwdCommand) {
    var level := c.flags as int / 64;
    || (c.commandClass in {1, 2, 3} && level >= 2)
    || (c.commandClass in {4, 5, 7, 8} && level == 3)
    || (c.commandClass == 6 && level >= 1)
  }

  predicate NeedsToken(c: FwdCommand) { c.commandClass in {4, 5, 7, 8} }

  /** The payload holds a request token that is not 0: bytes 4 to 7 for recovery, 2 to 5 for the others. */
  predicate HasToken(c: FwdCommand)
    requires ValidFwd(c)
  {
    var at := if c.commandClass == 4 then 4 else 2;
    && c.payloadLength as int >= at + 4
    && !(c.payload[at] == 0 && c.payload[at + 1] == 0 && c.payload[at + 2] == 0 && c.payload[at + 3] == 0)
  }

  lemma PermitsExactly(health: byte, c: FwdCommand)
    requires ValidFwd(c)
    ensures Blocked(health, c) <==> !HealthPermits(health, c)
  {
    assert forall b: byte :: PayloadByte(c, 0, b) <==> |Args(c)| >= 1 && Args(c)[0] == b;
  }

  lemma AuthorizedExactly(c: FwdCommand)
    requires ValidFwd(c) && c.payloadLength <= 196 && 1 <= c.commandClass <= 8
    ensures Authorized(c) <==> LevelSuffices(c) && (NeedsToken(c) ==> HasToken(c))
  {
    hide ReadU32;
    if c.commandClass in {4, 5, 7, 8} {
      TokenIsBytes(c);
    }
  }

  lemma TokenIsBytes(c: FwdCommand)
    requires ValidFwd(c) && c.payloadLength <= 196 && c.commandClass in {4, 5, 7, 8}
    ensures Token(c) != 0 <==> HasToken(c)
  {
    hide ReadU32;
    var at := if c.commandClass == 4 then 4 else 2;
    if |Args(c)| >= at + 4 {
      LittleEndian(Args(c), at);
    }
  }

  // ---- The decision table ----

  const CHECKS := 14

  /** The checks in their fixed order. */
  predicate Fails(k: nat, m: Context, c: FwdCommand, busOk: bool)
    requires k < CHECKS && ValidFwd(c)
  {
    match k
    case 0 => m.accepted != 0 && c.seqNo == Low16(m.last)
    case 1 => m.accepted != 0 && Ahead(Low16(m.last), c.seqNo) >= 0x8000
    case 2 => c.version != 1
    case 3 => c.payloadLength > 196
    case 4 => c.commandClass < 1 || c.commandClass > 8
    case 5 => c.payloadLength == 0 && c.commandClass in {2, 3}
    case 6 => ProxyCrc(c) != c.checksum
    case 7 => !m.healthKnown
    case 8 => !HealthPermits(m.health, c)
    case 9 => !LevelSuffices(c)
    case 10 => NeedsToken(c) && !HasToken(c)
    case 11 => Prepare(c) == Invalid
    case 12 => Prepare(c) == Unforwardable
    case 13 => Prepare(c).Send? && !busOk
  }

  function Consequence(k: nat, c: FwdCommand): Verdict
    requires k < CHECKS
  {
    match k
    case 0 => IsDuplicate
    case 1 => Rejected(10)
    case 2 => Rejected(5)
    case 3 => Rejected(7)
    case 4 => Rejected(6)
    case 5 => Rejected(7)
    case 6 => Rejected(12)
    case 7 => Rejected(11)
    case 8 => Rejected(11)
    case 9 => Rejected(11)
    case 10 => Rejected(11)
    case 11 => Rejected(if c.commandClass == 2 then 9 else if c.commandClass == 3 then 13
                        else if c.commandClass == 7 then 17 else 18)
    case 12 => NotRouted(4, TargetOf(c.commandClass))
    case 13 => if c.commandClass == 7 then Rejected(17) else NotRouted(4, TargetOf(c.commandClass))
  }

  /** Where the classes 1 to 8 go. */
  function TargetOf(commandClass: byte): byte {
    if commandClass <= 5 then 1 else if commandClass <= 8 then commandClass - 4 else 0
  }

  ghost predicate PassesBelow(k: nat, m: Context, c: FwdCommand, busOk: bool)
    requires k <= CHECKS && ValidFwd(c)
  {
    forall j :: 0 <= j < k ==> !Fails(j, m, c, busOk)
  }

  /** The verdict is the consequence of the first failing check; a command is routed, or resets the
      application's own counters, exactly when none fails. */
  lemma DecisionTable(m: Context, c: FwdCommand, busOk: bool, k: nat)
    requires ValidFwd(c) && k <= CHECKS && PassesBelow(k, m, c, busOk)
    ensures k < CHECKS && Fails(k, m, c, busOk) ==> Decide(m, c, busOk) == Consequence(k, c)
    ensures k == CHECKS ==> Decide(m, c, busOk) == if Prepare(c) == ResetSelf then SelfReset
            else Routed(TargetOf(c.commandClass))
  {
    hide Prepare, ProxyCrc, Blocked, Authorized, HealthPermits, LevelSuffices, HasToken;
    Passed(m, c, busOk, k);
    PermitsExactly(m.health, c);
    if k > 4 {
      AuthorizedExactly(c);
    }
  }

  /** The checks below `k`, one by one. */
  lemma Passed(m: Context, c: FwdCommand, busOk: bool, k: nat)
    requires ValidFwd(c) && k <= CHECKS && PassesBelow(k, m, c, busOk)
    ensures k > 0 ==> !Fails(0, m, c, busOk)
    ensures k > 1 ==> !Fails(1, m, c, busOk)
    ensures k > 2 ==> !Fails(2, m, c, busOk)
    ensures k > 3 ==> !Fails(3, m, c, busOk)
    ensures k > 4 ==> !Fails(4, m, c, busOk)
    ensures k > 5 ==> !Fails(5, m, c, busOk)
    ensures k > 6 ==> !Fails(6, m, c, busOk)
    ensures k > 7 ==> !Fails(7, m, c, busOk)
    ensures k > 8 ==> !Fails(8, m, c, busOk)
    ensures k > 9 ==> !Fails(9, m, c, busOk)
    ensures k > 10 ==> !Fails(10, m, c, busOk)
    ensures k > 11 ==> !Fails(11, m, c, busOk)
    ensures k > 12 ==> !Fails(12, m, c, busOk)
    ensures k > 13 ==> !Fails(13, m, c, busOk)
  {
    hide Fails;
  }

  // ---- Consequences ----

  /** No command is ever refused for want of a route target: the class check shuts such classes out. */
  lemma RouteMissIsUnreachable(m: Context, c: FwdCommand, busOk: bool)
    requires ValidFwd(c)
    ensures var v := Decide(m, c, busOk); !(v.NotRouted? && v.result == 8) && (v.Routed? ==> v.target != 0)
    ensures Complaint(c) == None ==> Target(c.commandClass) != 0 && RequiredLevel(c.commandClass) <= 3
  {
    hide Prepare, ProxyCrc, Blocked, Authorized;
  }

  /** A command takes effect, by being routed or resetting the application's own counters, exactly when its number is
      new, its form and checksum are right, the reported health permits it, its level suffices, its token is there,
      and its payload can be carried out. */
  lemma TakesEffectExactly(m: Context, c: FwdCommand, busOk: bool)
    requires ValidFwd(c)
    ensures var v := Decide(m, c, busOk);
            v.Routed? || v.SelfReset?
            <==> && (m.accepted == 0 || 1 <= (c.seqNo as int - m.last as int) % 65536 <= 32767)
                 && c.version == 1 && c.payloadLength <= 196 && 1 <= c.commandClass <= 8
                 && !(c.payloadLength == 0 && c.commandClass in {2, 3})
                 && ProxyCrc(c) == c.checksum
                 && m.healthKnown && HealthPermits(m.health, c)
                 && LevelSuffices(c) && (NeedsToken(c) ==> HasToken(c))
                 && (Prepare(c) == ResetSelf || (Prepare(c).Send? && busOk))
    ensures Sends(m, c, busOk) != [] <==> Decide(m, c, busOk).Routed?
  {
    hide Prepare, ProxyCrc, Blocked, Authorized, HealthPermits, LevelSuffices, HasToken;
    PermitsExactly(m.health, c);
    NumberIsNew(m.accepted, m.last, c.seqNo);
    if c.payloadLength <= 196 && 1 <= c.commandClass <= 8 {
      AuthorizedExactly(c);
    }
  }

  lemma NumberIsNew(accepted: u32, last: u32, seqNo: u16)
    ensures CheckSequence(accepted, last, seqNo) == New
            <==> accepted == 0 || 1 <= (seqNo as int - last as int) % 65536 <= 32767
  {
    assert (seqNo as int - last as int) % 65536 == (seqNo as int - Low16(last) as int) % 65536;
  }

  /** Nothing is sent on, and no counter reset, without authorisation, a new sequence number, a correct
      checksum and a known health state that permits it. */
  lemma OnlyAuthorizedIsSent(m: Context, c: FwdCommand, busOk: bool)
    requires ValidFwd(c) && (Decide(m, c, busOk).Routed? || Decide(m, c, busOk).SelfReset?)
    ensures m.accepted == 0 || 1 <= (c.seqNo as int - m.last as int) % 65536 <= 32767
    ensures ProxyCrc(c) == c.checksum && m.healthKnown
    ensures m.health in {2, 3} && c.flags as int % 2 == 0 ==>
              c.commandClass in {4, 6} || (c.commandClass == 8 && (PayloadByte(c, 0, 0) || PayloadByte(c, 0, 2)))
    ensures m.health == 1 && c.flags as int % 2 == 0 ==>
              c.commandClass !in {1, 3} && !(c.commandClass == 8 && PayloadByte(c, 0, 1))
    ensures c.commandClass in {1, 2, 3} ==> c.flags as int / 64 >= 2
    ensures c.commandClass in {4, 5, 7, 8} ==> c.flags as int / 64 == 3 && HasToken(c)
    ensures c.commandClass == 6 ==> c.flags as int / 64 >= 1
  {
    hide Prepare, ProxyCrc, Decide, HasToken;
    TakesEffectExactly(m, c, busOk);
  }

  /** No command with a sufficient level is refused for its level: when it passes the checks before, the verdict that
      the health state forbids it falls exactly when health, level or token are at fault. */
  lemma StateRejectionExactly(m: Context, c: FwdCommand, busOk: bool)
    requires ValidFwd(c) && PassesBelow(7, m, c, busOk)
    ensures Decide(m, c, busOk) == Rejected(11)
            <==> !m.healthKnown || !HealthPermits(m.health, c) || !LevelSuffices(c) || (NeedsToken(c) && !HasToken(c))
  {
    hide Prepare, ProxyCrc, Blocked, Authorized, HealthPermits, LevelSuffices, HasToken;
    Passed(m, c, busOk, 7);
    PermitsExactly(m.health, c);
    AuthorizedExactly(c);
  }

  /** The same command with the force flag set, its checksum renewed. */
  function WithForce(c: FwdCommand): (f: FwdCommand)
    requires ValidFwd(c)
    ensures ValidFwd(f)
  {
    var flags := c.flags as int - c.flags as int % 2 + 1;
    c.(flags := flags, checksum := ProxyCrc(c.(flags := flags)))
  }

  /** The force flag does what a NOMINAL vehicle would do, and nothing else: authorisation, replay
      protection and every parser decide as without it. */
  lemma ForceActsAsNominal(m: Context, c: FwdCommand, busOk: bool)
    requires ValidFwd(c) && ProxyCrc(c) == c.checksum
    ensures Decide(m, WithForce(c), busOk) == Decide(m.(health := 0), c, busOk)
    ensures !Blocked(m.health, c) ==> Decide(m, WithForce(c), busOk) == Decide(m, c, busOk)
  {
    hide ProxyCrc, Token, ReadU32, RoutePayload.Parse, ConfigCommand.Forwardable, ValidViewpoint;
    var f := WithForce(c);
    assert Forced(f) && GrantedLevel(f) == GrantedLevel(c);
    SamePayload(c, f);
    ForcedPassesChecksum(c);
  }

  lemma SamePayload(c: FwdCommand, f: FwdCommand)
    requires ValidFwd(c) && f == c.(flags := f.flags, checksum := f.checksum)
    ensures Args(f) == Args(c) && Token(f) == Token(c) && Prepare(f) == Prepare(c)
  {
    hide ReadU32, ReadU16, RoutePayload.Parse, ConfigCommand.Forwardable, ValidViewpoint;
  }

  lemma ForcedPassesChecksum(c: FwdCommand)
    requires ValidFwd(c)
    ensures ProxyCrc(WithForce(c)) == WithForce(c).checksum
  {
  }

  /** A well-formed, authorised recovery or diagnostic command with a new number goes through in every
      health state that has been reported, so the ground can always intervene. */
  lemma InterventionIsAlwaysPossible(m: Context, c: FwdCommand)
    requires ValidFwd(c) && m.healthKnown && Complaint(c) == None && Authorized(c)
    requires CheckSequence(m.accepted, m.last, c.seqNo) == New
    requires c.commandClass == RECOVERY || (c.commandClass == DIAGNOSTIC && |Args(c)| >= 6)
    ensures Decide(m, c, true) == Routed(Target(c.commandClass))
  {
    hide ProxyCrc, RoutePayload.Parse, ConfigCommand.Forwardable, ValidViewpoint;
  }
}
