# Flight telemetry and command link: a verified model

The system is a small flight stack: `lora_tdm_app` talks to the ground over a LoRa radio, `uplink_app`
decides which ground commands are accepted, and `cfs_core_app` supervises the health of the vehicle and
restarts its applications. On the ground, a Python decoder reads the downlink and builds the uplink.
This project models the parts of that stack with hard behaviour and proves what they promise, over every
input, every run and every reachable state. `dafny verify dfyconfig.toml` checks all of it.

| part | files |
|---|---|
| wire integers and floats, CRC-16, DL2/UP2/ACK2 codecs, configuration and route payloads | `Bytes`, `Floats`, `Crc16`, `CrcBoundary`, `Dl2`, `Uplink2`, `ConfigCommand`, `RoutePayload` |
| ground decoder: stream parser, page assembler | `GroundStream`, `GroundStreamProofs`, `RouteReadback` |
| vehicle radio: frame builder, receive machine, link state, paging | `AirFrame`, `ByteBuffer`, `FrameBuilder`, `RxMachine`, `LoraLink`, `LinkState`, `LoraApp` |
| command application: decision, state, replay window, execution results, boot history, state file | `UplinkRules`, `UplinkState`, `UplinkApp`, `Replay`, `ExecResults`, `BootHistory`, `UplinkFile`, `AtomicFile` |
| core application: health, restarts, caches, configuration, state file | `Health`, `Restarts`, `CoreState`, `CoreInputs`, `Supervision`, `CoreApp`, `CoreFile`, `CoreLife` |
| across components | `EndToEnd` |

Objects whose methods update fields in the source are classes here (`DownlinkStream`,
`RouteReadbackAssembler`, `LoraTdmApp`, `UplinkApplication`, `CoreApplication`); each method is proved
against a function of the old state, and the theorems are about those functions. Bytes are integers from
0 to 255; C's unsigned wrap-around is written out (`Inc8`, `Add32`, `Sub32`). Floating-point values on the
wire are bit patterns, and reals where they are scaled. A failed save, a failed bus transmission, a failed
write to the port and a lost frame are all possible outcomes. Messages to the bus, replies and published
reports are logs.

## Results that say where the code falls short

Some promises hold only under a condition that the source does not check. Each has a lemma with the exact
condition, and most have a concrete failing run beside it.

- `encode_dl2` round-trips exactly when the frame is not misleading: `Dl2.RoundTrip`.
- The stream parser depends on how the stream is cut exactly when a line is too long:
  `GroundStreamProofs.CutInvariantExactly`, with the smallest case in `GroundStreamProofs.OverflowDependsOnTheCut`.
- Route sessions are mixed exactly when a first page is lost and the ground holds fitting pages:
  `RouteReadback.MixesExactly`, with a run in `RouteReadback.LostFirstPageMixes`.
- The ground builds commands of 197 to 246 bytes that the vehicle refuses: `Uplink2.BuiltIsParsed`.
- One pattern of damage across the checksum boundary goes unnoticed, and no other within two adjacent bytes:
  `Uplink2.TwoByteDamage`, `UplinkFile.TwoByteDamage`.
- System time is encoded and decoded but never sent, because the dispatcher of `lora_tdm_app` does not pass
  its message on: `LoraApp.SysTimeNeverSent`.
- An outage is shown as DEGRADED first exactly when its 30th silent cycle comes soon enough: `LinkState.OutageDegradesFirst`.
- The replay window is open to every number exactly when the count of acceptances is 0 or has wrapped:
  `Replay.WindowOpensExactly`. A vehicle that reboots before its first command refuses number 0 and the upper
  half of the numbers: `Replay.RebootBeforeFirstCommandReservesZero`.
- A reboot lets a command in again exactly when neither its own save nor a later one went through:
  `Replay.RepeatedExactlyWhenUnsaved`. A command that took effect can be replayed at once, and without limit,
  exactly when it resets the own counters: `UplinkState.ReplayedExactlyWhenSelfReset`.
- A session of which no save goes through after its streak was counted makes the next boot miss a loop or
  raise a false alarm under exactly the conditions of `BootHistory.LostSessionMisleadsExactly`.
- An execution result can be shown for a command that was never accepted: `ExecResults.ResultForZeroIsShownAfterBoot`.
- A telemetry source whose sequence numbers start over is refused until it passes its old number, and times
  out meanwhile: `CoreState.RestartedSourceIsRefused`, `CoreState.SilencedSourceTimesOut`.
- Two restored parameters below the minimum lock out all configuration commands for good:
  `ConfigCommand.TwoLowParametersLockAll`, `CoreLife.LowFileLocksForGood`.
- The additive checksum of the core application's file catches damage to one field but not, for instance, an
  exchange of two: `CoreFile.DamagedLoadsExactly`, `CoreFile.ExchangedParametersLoad`.

Where the code and its own comments disagree, the model follows the code:

- `lora_tdm_app/fsw/src/lora_tdm_app_utils.h:74` says that system time is carried by the downlink; the
  dispatcher counts the message as unknown.
- `lora_tdm_app/fsw/src/lora_tdm_app_cmds.c:33-34` says that the downlink starts in v1; the initialisation at
  `lora_tdm_app/fsw/src/lora_tdm_app.c:471` starts it in v2.
- The comment at `lora_tdm_app/fsw/src/lora_tdm_app_utils.c:345` counts 8 bytes for the smallest UP2 frame; its
  fields and the second length check make 9.

## Model

| member | source | states |
|---|---|---|
| Bytes.LittleEndian | lora_tdm_app/fsw/src/lora_tdm_app_utils.c:113-146 | every reader takes the low byte first, and signed numbers are two's complement |
| Crc16.Compute | lora_tdm_app/fsw/src/lora_tdm_app_utils.c:26-44 | the loop over bytes and bits leaves the CRC-16 of the first `len` bytes of the array |
| Crc16.CheckValue | bridge/test_crc16_cross_validation.py:25-57 | the checksum of "123456789" is 29B1 and that of nothing FFFF (hexadecimal), the check value of CRC-16/CCITT-FALSE |
| Crc16.CrcFromConcat | bridge/lora_downlink_decoder.py:48-57 | the CRC of a concatenation is the CRC of the second part continued from that of the first |
| Crc16.CrcFromInjective | lora_tdm_app/fsw/src/lora_tdm_app_utils.c:26-44 | distinct registers stay distinct over any common suffix |
| Crc16.BurstDetected | lora_tdm_app/fsw/src/lora_tdm_app_utils.c:26-44 | two strings that differ only inside a window of at most two adjacent bytes have different checksums, whatever surrounds it |
| CrcBoundary.UndetectedPair | lora_tdm_app/fsw/src/lora_tdm_app_utils.c:26-44 | when the last covered byte and the first checksum byte behind it are changed, the checksum still fits if and only if nothing was changed or the bytes differ by 89 and A1 (hexadecimal) |
| Dl2.Layout | bridge/lora_downlink_decoder.py:161-198 | where the encoder puts the fixed part, the optional system time, the optional page and the checksum |
| Dl2.WireFormat | bridge/lora_downlink_decoder.py:161-198 | every field of an encoded frame at its byte offset, with magic byte, length, flag bits and checksum |
| Dl2.PageFormat | bridge/lora_downlink_decoder.py:161-198 | the page block behind the tail: type, index, total, count, and two slots of command, latitude, longitude and height, zeros where unused |
| Dl2.RoundTrip | bridge/lora_downlink_decoder.py:114-198 | decoding an encoded frame gives back every field if and only if no page follows a claimed but absent system time and the page holds at most two waypoints |
| GroundStream.DownlinkStream.Feed | bridge/lora_downlink_decoder.py:303-313 | one chunk reports what draining the buffer reports, keeps the rest, and leaves at most 256 bytes |
| GroundStream.DrainedIsStuck | bridge/lora_downlink_decoder.py:303-328 | feeding stops only when nothing more can be parsed from the buffer |
| GroundStream.StuckIsShort | bridge/lora_downlink_decoder.py:315-362 | a buffer that the parser waits on holds at most 256 bytes |
| GroundStreamProofs.AttemptExactly | bridge/lora_downlink_decoder.py:315-362 | what one parse attempt reports and takes for any buffer, by its first byte, the length byte, the checksum, and the first line feed or magic byte |
| GroundStreamProofs.LineTextExactly | bridge/lora_downlink_decoder.py:349-362 | the text of a line is its bytes without the carriage returns at both ends, with FFFD for every byte outside ASCII |
| GroundStreamProofs.EncodedIsValid | bridge/lora_downlink_decoder.py:330-347 | every encoded frame passes the length, magic and checksum tests and reports the frame that was sent |
| GroundStreamProofs.ExactForAnyCut | bridge/lora_downlink_decoder.py:303-362 | frames and plain lines come out exactly, in order, with nothing left over, wherever the stream is cut |
| GroundStreamProofs.SentIsSeen | bridge/lora_downlink_decoder.py:303-362 | in terms of what was sent: encoded frames come out with all their fields and lines of ASCII text unchanged, in order, wherever the stream is cut |
| GroundStreamProofs.Resynchronises | bridge/lora_downlink_decoder.py:303-362 | after any noise, even with magic bytes in it, the next frame and all that follows come out exactly, in any cut and even through line overflows, provided that no magic byte of the noise begins a frame and enough follows each to tell |
| GroundStreamProofs.FalseStartsByLength | bridge/lora_downlink_decoder.py:330-347 | that proviso holds for noise without magic bytes, and for noise that hides no valid frame and is followed by at least 88 bytes |
| GroundStreamProofs.CutDoesNotMatter | bridge/lora_downlink_decoder.py:303-362 | while no line overflows, chunks give what their concatenation gives |
| GroundStreamProofs.CutInvariantExactly | bridge/lora_downlink_decoder.py:303-362 | every cut of a stream gives what one single chunk gives if and only if no parse attempt on the whole stream comes to a line beginning whose first 257 bytes hold neither line feed nor magic byte while more bytes follow |
| GroundStreamProofs.DenseStreamsAreCutInvariant | bridge/lora_downlink_decoder.py:349-362 | a stream without 257 bytes in a row free of line feeds and magic bytes is among those that every cut reads the same |
| Uplink2.ParseUp2Frame | lora_tdm_app/fsw/src/lora_tdm_app_utils.c:338-380 | the in-place parser computes the parsing function on the first `len` bytes |
| Uplink2.ParseAck2Frame | lora_tdm_app/fsw/src/lora_tdm_app_utils.c:311-334 | the in-place parser computes the acknowledgement's sequence number or refuses it |
| Uplink2.WireFormat | bridge/lora_downlink_decoder.py:201-216 | every field of a printed command and acknowledgement at its byte offset, with magic byte and checksum |
| Uplink2.Up2Exact | lora_tdm_app/fsw/src/lora_tdm_app_utils.c:338-380 | a buffer is accepted as a command if and only if it begins with what the ground prints for that command |
| Uplink2.Ack2Exact | lora_tdm_app/fsw/src/lora_tdm_app_utils.c:311-334 | a buffer is accepted as an acknowledgement if and only if it begins with what the ground prints for it |
| Uplink2.BuiltIsParsed | bridge/lora_downlink_decoder.py:206-216 | payloads above 246 bytes are not built, those of 197 to 246 are built but refused by the vehicle, all others are read back whole with the sequence number modulo 65536 |
| Uplink2.CorruptionRejected | lora_tdm_app/fsw/src/lora_tdm_app_utils.c:338-366 | changing one or two adjacent bytes between the version and the end of the payload, or in the checksum, makes the vehicle reject the frame |
| Uplink2.TwoByteDamage | lora_tdm_app/fsw/src/lora_tdm_app_utils.c:338-366 | of all changes of one or two adjacent bytes from the version to the end of the frame, the vehicle accepts exactly one: last covered byte by 89 and first checksum byte by A1 (hexadecimal) |
| Uplink2.ForwardedPasses | lora_tdm_app/fsw/src/lora_tdm_app_utils.c:655-694 | a forwarded command keeps its fields and carries the checksum of its six header bytes and payload, which the command application's own test accepts |
| RxMachine.ReachableIsValid | lora_tdm_app/fsw/src/lora_tdm_app.c:184-264 | after any bytes, length, mode and target length agree, the terminator fits, and only well-formed messages were dispatched |
| LoraLink.WindowsStayValid | lora_tdm_app/fsw/src/lora_tdm_app.c:126-271 | the same through any receive windows, whatever the port hands out, for the messages that reach the handlers |
| RxMachine.RecoversWithin256 | lora_tdm_app/fsw/src/lora_tdm_app.c:184-264 | any 256 bytes in a row empty the receive buffer at least once |
| RxMachine.LongLineStays | lora_tdm_app/fsw/src/lora_tdm_app.c:184-264 | 255 bytes are not enough for that |
| RxMachine.Exact | lora_tdm_app/fsw/src/lora_tdm_app.c:184-264 | from the empty state, any concatenation of lines, ACK2 and UP2 frames dispatches exactly those messages in order |
| RxMachine.BuiltIsValidExactly | bridge/lora_downlink_decoder.py:201-216 | of what the ground builds, the machine can receive every acknowledgement and exactly the commands of at most 196 bytes |
| LoraLink.WindowsAreExact | lora_tdm_app/fsw/src/lora_tdm_app.c:126-271 | the same however the port hands out the bytes and wherever receive windows end |
| LoraLink.CommandsEndToEnd | lora_tdm_app/fsw/src/lora_tdm_app_utils.c:655-754 | whatever the ground sends, commands mixed with acknowledgements and text, the command application gets exactly the commands that were meant, in order, with a checksum it accepts, across any cut |
| LinkState.SilentCountIsTrailing | lora_tdm_app/fsw/src/lora_tdm_app.c:267-271 | the silent count is the number of trailing windows without acknowledgement since the last acknowledgement or reset, capped at 65535 |
| LinkState.PublishedExactly | lora_tdm_app/fsw/src/lora_tdm_app_utils.c:408-473 | after any run from boot: DISCONNECTED exactly when an acknowledgement has come but none within 5000 ms, else DEGRADED exactly after 30 silent windows, else CONNECTED |
| LinkState.CountersCountMessages | lora_tdm_app/fsw/src/lora_tdm_app_utils.c:608-754 | through any windows the counters are the numbers of acknowledgements, commands and damaged frames dispatched, modulo their widths, and the feedback is that on the last command |
| LinkState.ResetClears | lora_tdm_app/fsw/src/lora_tdm_app_cmds.c:16-31 | the reset clears four counters and leaves the time of the last acknowledgement and the sequence state alone |
| LinkState.AckOfEarlierFrame | lora_tdm_app/fsw/src/lora_tdm_app_utils.c:708-728 | an acknowledgement of the last frame never counts as a mismatch, one of a frame 1 to 65535 earlier always does, also across both wraps |
| EndToEnd.AckOfWrittenFrame | lora_tdm_app/fsw/src/lora_tdm_app_utils.c:708-728 | the ground's acknowledgement of a frame that the vehicle wrote counts as a mismatch exactly when that frame's number and the last sent one differ modulo 65536 |
| LinkState.OutageDegradesFirst | lora_tdm_app/fsw/src/lora_tdm_app_utils.c:408-473 | an outage shows DEGRADED, and before DISCONNECTED, if and only if its 30th silent cycle completes within 5000 ms of the last acknowledgement |
| AirFrame.ViewIsFaithful | lora_tdm_app/fsw/src/lora_tdm_app_utils.c:195-307 | the frame of any reachable state is encodable and its flags claim exactly the blocks that are there: the system time from 88 free bytes on, the page from 80, or 88 with the time |
| AirFrame.ScaledWithinOneCm | lora_tdm_app/fsw/src/lora_tdm_app_utils.c:173-190 | in range a position or velocity reads back to within a centimetre, out of range as the nearest limit |
| AirFrame.GroundReadsAir | lora_tdm_app/fsw/src/lora_tdm_app_utils.c:195-307 | for every state and all four combinations of optional blocks the frame has its length, passes the ground's tests, and decodes to every field: angles cut to units of 0.0001 radians, positions and velocities to centimetres, the saturation flag exactly when one left 16 bits, and of the route the page that is due, with type, latitude, longitude and height of its one or two waypoints |
| FrameBuilder.BuildDl2Frame | lora_tdm_app/fsw/src/lora_tdm_app_utils.c:195-307 | the byte-by-byte builder stays inside the buffer and writes exactly the frame that the ground's encoder would print, or refuses a short buffer |
| RouteReadback.Begin | lora_tdm_app/fsw/src/lora_tdm_app_utils.c:1000-1021 | a snapshot starts a session whose page count is half its waypoints rounded up |
| RouteReadback.RouteReadbackAssembler.Feed | bridge/lora_downlink_decoder.py:251-282 | stores a page in place and returns the joined route once all pages are there |
| RouteReadback.StepReturns | bridge/lora_downlink_decoder.py:251-282 | a step returns a route exactly when it delivers a page and, with the pages of earlier sessions that the ground still uses, none is missing; the route is the patchwork of both |
| RouteReadback.ReadbackIsPatchwork | bridge/lora_downlink_decoder.py:251-282 | the same in every run from power-up, over any number of sessions, write failures and losses |
| RouteReadback.MixesExactly | bridge/lora_downlink_decoder.py:251-282 | in every such run a returned route uses a page of an earlier session if and only if the first page of the session has not come, the ground held pages of the same type and total when the session began, and those cover every index that has not come |
| RouteReadback.ReadbackReturnsTheSnapshot | bridge/lora_downlink_decoder.py:251-282 | in every run from power-up, a route returned without an earlier page is the last snapshot, at most 37 waypoints, in order, with type, latitude, longitude and height of each |
| RouteReadback.ReadbackNeverMixes | bridge/lora_downlink_decoder.py:251-282 | in every run in which written first pages are delivered, a route is returned exactly when all pages of the current session have arrived, and it is the last snapshot, field by field |
| RouteReadback.SessionLength | lora_tdm_app/fsw/src/lora_tdm_app.c:289-317 | after a snapshot of n waypoints exactly ceil(n / 2) written frames clear the pending flag, whatever write failures come between |
| RouteReadback.LostFirstPageMixes | bridge/lora_downlink_decoder.py:251-282 | a run of two sessions of two pages each, the second with its first page lost, ends with the first two waypoints of the first route before the rest of the second |
| LoraApp.LoraTdmApp.RunTx | lora_tdm_app/fsw/src/lora_tdm_app.c:276-372 | a transmission writes exactly the frame of the state and advances sequence number and page only when all its bytes were written |
| LoraApp.LoraTdmApp.RunRxWindow | lora_tdm_app/fsw/src/lora_tdm_app.c:126-271 | the byte-driven window does to buffer, link counters and handlers what the receive specification says |
| LoraApp.LoraTdmApp.ProcessRxBinaryFrame | lora_tdm_app/fsw/src/lora_tdm_app_utils.c:698-754 | acknowledgements and commands move the link counters and are forwarded as specified, other frames count as errors |
| LoraApp.LoraTdmApp.ProcessRouteSnapshot | lora_tdm_app/fsw/src/lora_tdm_app_utils.c:1000-1021 | the in-place copy starts the session that the paging specification starts |
| LoraApp.LoraTdmApp.UpdateLinkState | lora_tdm_app/fsw/src/lora_tdm_app_utils.c:408-473 | publishes the link state of the counters and the clock |
| LoraApp.LoraTdmApp.ProcessConfigCommand | lora_tdm_app/fsw/src/lora_tdm_app_utils.c:795-875 | sets and saves the downlink protocol, refuses with a reply, or stays silent, as the radio's verdict on the payload says |
| LoraApp.SysTimeNeverSent | lora_tdm_app/fsw/src/lora_tdm_app_dispatch.c:84-100 | whatever telemetry arrived, no frame carries the system time block |
| LoraApp.GroundSeesLatest | lora_tdm_app/fsw/src/lora_tdm_app_utils.c:879-945 | after any telemetry the ground reads the last attitude, the last position and velocity, the last GPS fix and the last time stamp that came |
| ConfigCommand.ConfigChecksum | cfs_core_app/fsw/src/cfs_core_app_utils.c:597-614 | the accumulating loop, with 16-bit wrap, computes the sum of all header bytes but the checksum and of the value bytes |
| ConfigCommand.WireFormat | tools/uplink_config_sender.py:106-113 | every field of a built payload at its byte offset, with the sum of all other bytes as the checksum |
| ConfigCommand.ReadsWhatWasBuilt | tools/uplink_config_sender.py:106-113 | a payload passes the length and checksum tests with given fields if and only if it begins with what the ground builds for them |
| ConfigCommand.CoreAppliesExactly | cfs_core_app/fsw/src/cfs_core_app_utils.c:650-748 | the core application applies a parameter and value exactly when the payload was built for it and both are in range |
| ConfigCommand.LoraSetsExactly | lora_tdm_app/fsw/src/lora_tdm_app_utils.c:795-875 | the radio application sets a protocol exactly when the payload was built for it |
| ConfigCommand.CoreVerdictTable | cfs_core_app/fsw/src/cfs_core_app_utils.c:650-748 | the core application refuses for the first of scope, version, length, checksum, value and parameter at fault |
| ConfigCommand.LoraVerdictTable | lora_tdm_app/fsw/src/lora_tdm_app_utils.c:795-875 | the radio application stays silent on other scopes and refuses for the first of version, length, checksum, parameter and value at fault |
| ConfigCommand.ForwardingAgrees | uplink_app/fsw/src/uplink_app_utils.c:513-577 | a forwarded command is never rejected by its target for length or checksum, and only such commands are held back |
| ConfigCommand.OnlyTheTargetAnswers | cfs_core_app/fsw/src/cfs_core_app_utils.c:669-681 | of core and radio application exactly the addressed one answers a forwarded command |
| ConfigCommand.OneByteErrorIsCaught | uplink_app/fsw/src/uplink_app_utils.c:494-511 | an error in one byte that the additive checksum covers is always caught |
| ConfigCommand.ConfiguredChangesOne | cfs_core_app/fsw/src/cfs_core_app_utils.c:727-786 | a command acted on changes one parameter to the value it carries, any other none; parameters in range stay in range |
| ConfigCommand.ParametersByNumber | cfs_core_app/fsw/src/cfs_core_app_utils.c:727-752 | numbers 0 to 5 are the attitude, position, GPS, filter and bridge timeouts and the publish period |
| ConfigCommand.AllOrNothing | cfs_core_app/fsw/src/cfs_core_app_utils.c:727-786 | a command that is acted on replaces the active parameters and keeps the old ones as previous, any other touches neither nor the generation |
| ConfigCommand.TwoLowParametersLockAll | cfs_core_app/fsw/src/cfs_core_app_utils.c:757-771 | the cross-check acts on a command if and only if no other parameter is below the minimum, so two such parameters block all commands |
| Restarts.RestartsAreSpaced | cfs_core_app/fsw/src/cfs_core_app_utils.c:296-392 | two automatic restarts of one application are at least 5000 ms apart, also across counter resets |
| Restarts.NoStarvation | cfs_core_app/fsw/src/cfs_core_app_utils.c:296-392 | with evaluations at most d ms apart, 2 d below 5000, an application that stays down is restarted within 5000 + d, + 3 d, + 5 d ms (bridge, uplink, radio), whatever the others do |
| Restarts.RestartedExactly | cfs_core_app/fsw/src/cfs_core_app_utils.c:296-392 | an application is restarted if and only if it has its turn, is down, its lookup succeeds, and it has been down in all its turns since one at least 5000 ms earlier, without a restart or a reset of the timers after that |
| Restarts.TimersAreBounded | cfs_core_app/fsw/src/cfs_core_app_utils.c:296-392 | in every reachable state a timer is at most 5000 ms ahead of the clock, as NoStarvation starts from |
| Health.FailedExactlyAfter30s | cfs_core_app/fsw/src/cfs_core_app_utils.c:462-481 | FAILED is published if and only if every evaluation since one at least 30 s earlier found the bridge late, with no counter reset between |
| Health.NominalExactlyAfter10s | cfs_core_app/fsw/src/cfs_core_app_utils.c:532-552 | NOMINAL is entered again if and only if every evaluation of at least the last 10 s found all six inputs healthy |
| Health.NeverStraightToNominal | cfs_core_app/fsw/src/cfs_core_app_utils.c:462-552 | RECOVERY and FAILED never go straight to NOMINAL, not even across a reboot |
| Health.HealthIsExactly | cfs_core_app/fsw/src/cfs_core_app_utils.c:462-552 | in every run: FAILED after 30 s of a late bridge, RECOVERY before that, NOMINAL exactly when the inputs have recovered, DEGRADED in all other cases, a recovery request exactly while the bridge is late |
| Health.FaultIsExactly | cfs_core_app/fsw/src/cfs_core_app_utils.c:462-552 | codes 1, 3, 4, 5, 6, 7 each exactly when their input fails and none before it does, 0 when none fails |
| CoreInputs.LateExactly | cfs_core_app/fsw/src/cfs_core_app_utils.c:433-446 | over any run from boot an application is late exactly when it has given no sign of life or the last one is too old: the bridge's time stamp under its timeout parameter, the others' arrival under 5000 ms |
| CoreInputs.CacheIsNewest | cfs_core_app/fsw/src/cfs_core_app_utils.c:21-96 | over any run every cache shows the message of its source with the highest sequence number, of those not more than 5 s ahead the first, and is invalid if that message says so or one with a number that is not finite has come since |
| CoreInputs.FailedExactly | cfs_core_app/fsw/src/cfs_core_app_utils.c:98-109 | a telemetry input fails exactly when that newest message is missing, too old, invalid, stale or spoilt |
| Supervision.EvaluatesExactly | cfs_core_app/fsw/src/cfs_core_app_utils.c:394-412 | every message is evaluated at once, a tick exactly when the publish period has passed since the last evaluation |
| Supervision.PublishedHealthIsExactly | cfs_core_app/fsw/src/cfs_core_app_utils.c:394-591 | what every evaluation of every run from boot publishes, in terms of the inputs found at the events themselves |
| Supervision.PublishedFaultIsExactly | cfs_core_app/fsw/src/cfs_core_app_utils.c:462-552 | the fault codes of those reports |
| Supervision.BridgeLossIsPublished | cfs_core_app/fsw/src/cfs_core_app_utils.c:433-481 | recovery is requested, and RECOVERY or FAILED published, exactly when no sign of life of the bridge has come or its last time stamp is older than the timeout |
| Supervision.RunsRestartExactly | cfs_core_app/fsw/src/cfs_core_app_utils.c:296-449 | exactly when an event of a run from boot restarts an application, from the inputs its evaluation finds |
| Supervision.SilentIsRestarted | cfs_core_app/fsw/src/cfs_core_app_utils.c:296-449 | an application that falls silent counts as late at every evaluation that follows and is restarted within 5000 ms and d, 3 d or 5 d ms, its lookups succeeding |
| CoreState.RunFollowsHistories | cfs_core_app/fsw/src/cfs_core_app_utils.c:394-591 | over every run of messages, ticks and commands, supervisor and scheduler are where their own histories lead |
| CoreState.OutputFollowsHistories | cfs_core_app/fsw/src/cfs_core_app_utils.c:394-591 | what an evaluation publishes and restarts is the verdict of both histories on it |
| CoreState.RunsObeyHealthRules | cfs_core_app/fsw/src/cfs_core_app_utils.c:394-591 | the 30 s, 10 s and no-shortcut rules for the reports of the whole application, with its caches, timeouts and publish period |
| CoreState.RunsSpaceRestarts | cfs_core_app/fsw/src/cfs_core_app_utils.c:296-444 | over whole runs of the application, two restarts of the same application are at least 5000 ms apart |
| CoreState.RunsDoNotStarve | cfs_core_app/fsw/src/cfs_core_app_utils.c:296-444 | over whole runs of the application from boot, an application that stays down while evaluations follow closely is restarted by some event within the same bounds |
| CoreState.GpsDoesNotInterfere | cfs_core_app/fsw/src/cfs_core_app_utils.c:394-552 | two runs that differ only in GPS message contents publish the same health, fault and recovery request and the same restarts at every event |
| CoreState.NavigationDoesNotRestart | cfs_core_app/fsw/src/cfs_core_app_utils.c:394-444 | restarts depend on no attitude, position, GPS or filter message |
| CoreState.CachesNeverGoBack | cfs_core_app/fsw/src/cfs_core_app_utils.c:21-81 | over any run a cache never holds an older message than before |
| CoreState.RestartedSourceIsRefused | cfs_core_app/fsw/src/cfs_core_app_utils.c:21-81 | over any run, a cached sequence number stands exactly as long as no message of its kind brings a higher one that is not from the future, and then nothing of the cache changes but its validity |
| CoreState.SilencedSourceTimesOut | cfs_core_app/fsw/src/cfs_core_app_utils.c:98-109 | a source that brings nothing new counts as failed once its timeout has passed, whatever it keeps sending |
| CoreApp.CoreApplication.UpdateStateCache | cfs_core_app/fsw/src/cfs_core_app_utils.c:21-81 | future, repeated and older messages are refused, and each kind is counted, as is a gap and a shift of the time base |
| CoreApp.IntakeIsExactly | cfs_core_app/fsw/src/cfs_core_app_utils.c:21-81 | which messages are taken and what each intake counter counts |
| CoreApp.OneRestartIsCounted | cfs_core_app/fsw/src/cfs_core_app_utils.c:296-392 | a restart raises exactly its own count |
| CoreApp.CoreApplication.CheckAppRestarts | cfs_core_app/fsw/src/cfs_core_app_utils.c:296-392 | at most one restart per evaluation, in priority order, with the timers and counts of the specification |
| CoreApp.CoreApplication.Assess | cfs_core_app/fsw/src/cfs_core_app_utils.c:462-552 | the report chain publishes the specified report and runs both timers |
| CoreApp.CoreApplication.UpdateHealth | cfs_core_app/fsw/src/cfs_core_app_utils.c:394-591 | an evaluation, when forced or due, moves the whole state and publishes as specified; the file is kept or self-written |
| CoreApp.CoreApplication.ProcessStateMessage | cfs_core_app/fsw/src/cfs_core_app_utils.c:183-290 | a message updates its cache and forces the specified evaluation |
| CoreApp.CoreApplication.ProcessConfigCommand | cfs_core_app/fsw/src/cfs_core_app_utils.c:650-787 | the parameter buffers, result, counters, reply and file after a configuration command |
| CoreApp.CoreApplication.ProcessResetCounter | cfs_core_app/fsw/src/cfs_core_app_utils.c:992-1013 | clears restart counts, restart timers and the escalation timer, and nothing else of the monitor |
| CoreFile.WireFormat | cfs_core_app/fsw/src/cfs_core_app_utils.c:909-985 | every field of the state file at its byte offset, and the sum of all as the checksum |
| CoreFile.LoadExact | cfs_core_app/fsw/src/cfs_core_app_utils.c:838-907 | a file is accepted as a record if and only if it begins with what is saved for it, up to five reserved bytes |
| CoreFile.LoadsWhatWasSaved | cfs_core_app/fsw/src/cfs_core_app_utils.c:909-935 | what is saved is what is loaded |
| CoreFile.DamagedLoadsExactly | cfs_core_app/fsw/src/cfs_core_app_utils.c:829-907 | a damaged file with magic number, version and checksum untouched loads if and only if the sum of its fields is unchanged modulo 2^32 |
| CoreFile.OneFieldDamageIsCaught | cfs_core_app/fsw/src/cfs_core_app_utils.c:829-907 | any change of the bytes of one single field makes a saved file unacceptable |
| CoreFile.ExchangedParametersLoad | cfs_core_app/fsw/src/cfs_core_app_utils.c:829-836 | a saved file in which any two parameters were exchanged loads, with the parameters exchanged |
| CoreFile.InterruptedSaveRestoresOldOrNew | cfs_core_app/fsw/src/cfs_core_app_utils.c:909-985 | after a save that was cut short anywhere, the next load restores the old record or the new one |
| CoreLife.ParamsStayInRange | cfs_core_app/fsw/src/cfs_core_app_utils.c:650-935 | all six parameters stay in 100..60000 through any run of messages, commands, saves and reboots |
| CoreLife.DefaultsInRange | cfs_core_app/fsw/src/cfs_core_app.c:50-75 | the parameters a first boot starts with |
| CoreLife.RebootRestoresLastSave | cfs_core_app/fsw/src/cfs_core_app_utils.c:838-907 | a reboot restores parameters and last health state of the last save and stops all timers |
| CoreLife.LowFileLocksForGood | cfs_core_app/fsw/src/cfs_core_app_utils.c:838-907 | after a boot from a file with two parameters below the minimum, which loads like any other, no configuration command is ever acted on |
| AtomicFile.ReadersSeeWholeImages | uplink_app/fsw/src/uplink_app_utils.c:778-841 | over any run of saves, failures and power losses a reader finds the image from before the run or the whole image of some save |
| AtomicFile.OldOrNew | uplink_app/fsw/src/uplink_app_utils.c:778-841 | a save cut short anywhere leaves the old image or the new |
| AtomicFile.CompletedSaveIsRead | cfs_core_app/fsw/src/cfs_core_app_utils.c:937-985 | a completed save survives a loss of power |
| UplinkFile.WireFormat | uplink_app/fsw/src/uplink_app_utils.c:778-841 | every field of the state file at its byte offset, and the checksum of the first 16 bytes |
| UplinkFile.LoadExact | uplink_app/fsw/src/uplink_app_utils.c:652-703 | a state file is accepted as a record if and only if it begins with what is saved for it |
| UplinkFile.CorruptionRejected | uplink_app/fsw/src/uplink_app_utils.c:689-698 | changing one or two adjacent bytes on one side of the checksum boundary makes the file unacceptable |
| UplinkFile.TwoByteDamage | uplink_app/fsw/src/uplink_app_utils.c:689-698 | of all changes of one or two adjacent bytes of a saved file, exactly one leaves it acceptable: reserved byte by 89 and first checksum byte by A1 (hexadecimal) |
| UplinkFile.InterruptedSaveRestoresOldOrNew | uplink_app/fsw/src/uplink_app_utils.c:778-841 | after a save that was cut short anywhere, the next load restores the old record or the new one |
| UplinkRules.DecisionTable | uplink_app/fsw/src/uplink_app_cmds.c:105-504 | the verdict, with its result code, is that of the first failing check in the fixed order; a command is routed exactly when none fails |
| UplinkRules.RouteMissIsUnreachable | uplink_app/fsw/src/uplink_app_utils.c:918-941 | no command is refused for want of a route target; class, target and level tables agree |
| UplinkRules.OnlyAuthorizedIsSent | uplink_app/fsw/src/uplink_app_cmds.c:41-78 | whatever is routed or resets counters has a number 1 to 32767 ahead, a correct checksum, a health state that permits it, level 2 for configuration, route and viewpoint, level 3 and a token at its place in the payload for recovery, mode, counters and flight mode, level 1 for diagnostics |
| UplinkRules.TakesEffectExactly | uplink_app/fsw/src/uplink_app_cmds.c:105-504 | exactly when a command takes effect, every check written out |
| UplinkRules.StateRejectionExactly | uplink_app/fsw/src/uplink_app_cmds.c:183-254 | a command that passes the checks before is refused for the vehicle's state exactly when health, level or token are at fault |
| UplinkRules.CarriedOutExactly | uplink_app/fsw/src/uplink_app_utils.c:355-577 | which payloads can be carried out, class by class |
| UplinkRules.MessageIsPayload | uplink_app/fsw/src/uplink_app_utils.c:336-490 | a message that is sent on, laid out again in its class's order of fields, is the beginning of the payload, and carries the command's sequence number |
| UplinkRules.ViewpointExactly | uplink_app/fsw/src/uplink_app_utils.c:843-891 | a viewpoint is accepted exactly when its numbers are finite and lie between the real limits: 50 m, 2 to 8 m, pi, half of pi, 30 s |
| UplinkRules.ForceActsAsNominal | uplink_app/fsw/src/uplink_app_cmds.c:233-240 | the force flag does exactly what a NOMINAL vehicle would do, and bypasses nothing else |
| UplinkRules.InterventionIsAlwaysPossible | uplink_app/fsw/src/uplink_app_cmds.c:183-254 | a well-formed, authorised recovery or diagnostic command goes through in every reported health state |
| UplinkState.CommandsAreConserved | uplink_app/fsw/src/uplink_app_cmds.c:105-504 | over any run in which the counts are not started again, accepted, rejected, repeated and unroutable commands together are all the commands that came, modulo 2^32 |
| UplinkState.CommandsAndErrorsAreCounted | uplink_app/fsw/src/uplink_app_cmds.c:105-504 | until a reset the command count grows by the commands routed, the error count by one for each rejected or unroutable command and by two for a configuration command that cannot be forwarded, modulo 256 |
| UplinkState.LastCommandIsShown | uplink_app/fsw/src/uplink_app_cmds.c:105-504 | in every run the status shows class, number, result code, target, degradation and configuration status of the last command until something overwrites it |
| UplinkState.ResetClears | uplink_app/fsw/src/uplink_app_cmds.c:86-103 | the reset clears the counters and the last command, result and target, and leaves window and boot state alone |
| UplinkState.FileHoldsLastSave | uplink_app/fsw/src/uplink_app_utils.c:778-841 | after any run, in which any save may fail, the file is the one the run began with or what the last save that went through wrote |
| UplinkState.SelfResetCanBeReplayed | uplink_app/fsw/src/uplink_app_cmds.c:428-456 | a reset of the own counters moves no sequence number, so the same frame is taken again without limit |
| UplinkState.ReplayedExactlyWhenSelfReset | uplink_app/fsw/src/uplink_app_cmds.c:105-504 | a command that took effect takes effect again when it is repeated, any number of times, if and only if it is a reset of the own counters (short of the count of acceptances wrapping) |
| ExecResults.ShownExactlyWhenAnswered | uplink_app/fsw/src/uplink_app_cmds.c:512-528 | in every run from boot, an execution is shown if and only if some event was a result for the number that the window holds, with nothing after it that overwrites it |
| ExecResults.ExecutedMeansAnswered | uplink_app/fsw/src/uplink_app_cmds.c:512-528 | a shown execution was reported for the number of the last command accepted, or after a reboot of the last one whose number was saved, or, without any, for the number the vehicle booted with |
| ExecResults.ResultForZeroIsShownAfterBoot | uplink_app/fsw/src/uplink_app_cmds.c:512-528 | on a first boot, with nothing accepted, a result for number 0 is shown as an execution |
| UplinkApp.UplinkApplication.ProcessUplink | uplink_app/fsw/src/uplink_app_cmds.c:105-504 | the cascade moves counters, status, replay window and file as the decision says, and sends exactly the message of a routed command |
| UplinkApp.UplinkApplication.ForwardConfigCommand | uplink_app/fsw/src/uplink_app_utils.c:513-577 | forwards exactly the well-formed payloads and shows what became of them |
| UplinkApp.UplinkApplication.ForwardCounterMgmtCommand | uplink_app/fsw/src/uplink_app_utils.c:390-441 | resets the own counters, or sends the reset to the addressed application, or refuses |
| UplinkApp.UplinkApplication.ResetCounters | uplink_app/fsw/src/uplink_app_cmds.c:86-103 | clears counters and last results, and leaves the replay window alone |
| UplinkApp.UplinkApplication.ProcessExecResult | uplink_app/fsw/src/uplink_app_cmds.c:512-528 | takes over the result of the last accepted command only |
| UplinkApp.UplinkApplication.ProcessBootMarker | uplink_app/fsw/src/uplink_app_utils.c:716-747 | moves streak, flag and mark as the boot specification says |
| UplinkApp.UplinkApplication.CheckBootSurvival | uplink_app/fsw/src/uplink_app_utils.c:752-767 | sets and saves the mark once, at 120 s |
| UplinkApp.UplinkApplication.constructor | uplink_app/fsw/src/uplink_app.c:50-135 | the state after initialisation from any file |
| Replay.NumbersFollow | uplink_app/fsw/src/uplink_app_cmds.c:488-491 | at any time the window holds the number of the last acceptance, or of the last saved one after a reboot, and the file the number that the window held at the last save that went through |
| Replay.RebootReturnsToLastSave | uplink_app/fsw/src/uplink_app_utils.c:652-703 | a reboot returns the window to the number of the last save that went through |
| Replay.AdvancesAreForward | uplink_app/fsw/src/uplink_app_cmds.c:12-35 | every acceptance after the first moves the number forward by 1 to 32767; no counter reset moves it, and no reboot that finds the last number saved |
| Replay.CounterFollows | uplink_app/fsw/src/uplink_app_cmds.c:488-491 | the 16-bit number is an unwrapped counter modulo 65536 over every run whose reboots find the last number saved |
| Replay.ReplaysAreFarApart | uplink_app/fsw/src/uplink_app_cmds.c:12-35 | two acceptances of the same number have at least two acceptances between them, across counter resets and reboots that find the last number saved |
| Replay.RepeatedExactlyWhenUnsaved | uplink_app/fsw/src/uplink_app_cmds.c:488-491 | a command accepted in a stretch that moves the number by at most 32767 is new again after a reboot if and only if neither its own save nor any later one went through |
| Replay.GoodFileExactly | uplink_app/fsw/src/uplink_app_utils.c:652-703 | a state file is good if and only if the run began with a good one or some save has gone through |
| Replay.WindowOpensExactly | uplink_app/fsw/src/uplink_app_cmds.c:12-20 | in any run every number is new if and only if the acceptances since the last boot, plus one if that boot found a good state file, are a multiple of 2^32 |
| Replay.RebootBeforeFirstCommandReservesZero | uplink_app/fsw/src/uplink_app_utils.c:769-776 | in any run without an acceptance from a first boot, every number is new until a boot finds a good file; from then on number 0 is a duplicate and the upper half are replays |
| BootHistory.BootsFollowNotes | uplink_app/fsw/src/uplink_app_utils.c:716-776 | over every history from a first boot, whichever saves fail, file and reported streak follow from which sessions were recorded, marked, or saved only by their boot count |
| BootHistory.StreakCountsShortSessions | uplink_app/fsw/src/uplink_app_utils.c:716-767 | if some save of each session went through once its streak was counted, every boot reports the number of sessions just before it whose mark did not reach the file, capped at 255, and suspects a loop exactly at five or more |
| BootHistory.MarkIsSavedWhenTicksAre | uplink_app/fsw/src/uplink_app_utils.c:752-767 | when the periodic check's saves go through, the mark is saved exactly when the session lives for 120 s |
| BootHistory.BootsAreCounted | uplink_app/fsw/src/uplink_app_utils.c:769-776 | every boot reports its reset reason and one more than the number of sessions before whose count reached the file, modulo 256 |
| BootHistory.LoopFlagMeansFiveShortSessions | uplink_app/fsw/src/uplink_app_utils.c:716-747 | under the same condition, the flag is up during a session exactly when the five sessions before it all ended without a saved mark |
| BootHistory.FirstLostSession | uplink_app/fsw/src/uplink_app_utils.c:716-776 | after the first session that is not recorded, the next boot reports that session's streak again, or one more than the streak of the session before it if the boot count was saved |
| BootHistory.LostSessionMisleadsExactly | uplink_app/fsw/src/uplink_app_utils.c:716-776 | exactly when that report still equals the number of unmarked sessions, exactly when its flag misses a loop, and exactly when it raises a false alarm |
| BootHistory.LostMarkerKeepsOldStreak | uplink_app/fsw/src/uplink_app_utils.c:716-776 | from any file, when only the first save of a boot goes through, the next boot counts on from the old streak even if the session before had survived, and can suspect a loop without one |
| Floats.PatternOrder | uplink_app/fsw/src/uplink_app_utils.c:195-198 | 32-bit patterns from 0 on are in the order of the real numbers they stand for |
| Floats.SizeExactly | uplink_app/fsw/src/uplink_app_utils.c:843-891 | a pattern without its sign is at most that of a number exactly when its own number is no larger in size; infinities and NaNs never are |
| RoutePayload.BuildRoutePayload | tools/uplink_route_update_sender.py:129-136 | the accumulating loop prints the update |
| RoutePayload.ParseRouteUpdatePayload | uplink_app/fsw/src/uplink_app_utils.c:231-334 | the parser, with its loop and early exits, computes the parsing function |
| RoutePayload.AltitudeExactly | uplink_app/fsw/src/uplink_app_utils.c:195-198 | a height is accepted exactly when it is a number from 2.0 to 8.0 |
| RoutePayload.WireFormat | tools/uplink_route_update_sender.py:115-136 | every field of a printed update and its waypoints at its byte offset |
| RoutePayload.ParseExact | uplink_app/fsw/src/uplink_app_utils.c:217-334 | a payload is accepted as an update if and only if it is what is printed for it, operation and index are in range, all parameters are finite and all heights are real numbers from 2 to 8 m |
| RoutePayload.AtMostSixWaypoints | uplink_app/fsw/src/uplink_app_utils.c:308-316 | a payload of at most 196 bytes carries at most six waypoints, and six fit |
| EndToEnd.ConfigReachesCore | uplink_app/fsw/src/uplink_app_utils.c:513-577 | a configuration built on the ground and sent by radio reaches the bus unchanged and is applied exactly when parameter and value are in range; the radio application stays silent |
| EndToEnd.RouteReachesBus | uplink_app/fsw/src/uplink_app_utils.c:231-353 | a route update built on the ground reaches the bus as the update that was meant, exactly when it is valid |
| EndToEnd.FlightModeReachesBus | uplink_app/fsw/src/uplink_app_utils.c:442-490 | a flight mode command built on the ground reaches the bus with its mode and waypoint exactly when the mode is 0 to 2 and only mode 1 names a waypoint |
| EndToEnd.DownlinkReachesGround | lora_tdm_app/fsw/src/lora_tdm_app_utils.c:195-307 | the frames that the vehicle writes reach the ground's assembler whole and in order, wherever the stream is cut |

## Left out

- Text frames: the v1 line builders and the parser of text commands and acknowledgements are library formatting; the model takes the classification of a text line as a parameter, so nothing is said about which text is a command.
- IEEE arithmetic: angles, positions and velocities are scaled as reals, without float rounding and without NaN; floats on the wire are bit patterns, whose real values decide the range checks (`Floats`).
- Replay.ReplaysAreFarApart, Replay.CounterFollows, Replay.AdvancesAreForward: suppose that fewer than 2^32 commands are accepted in a boot, and that reboots find the last number saved; without the second, Replay.RebootReturnsToLastSave and Replay.RepeatedExactlyWhenUnsaved say what happens.
- BootHistory.StreakCountsShortSessions, BootHistory.LoopFlagMeansFiveShortSessions: suppose that some save of each session went through once its streak was counted; BootHistory.BootsFollowNotes says what is reported in every other history.
- Restarts.NoStarvation: supposes that the clock does not wrap and is not 0, as the source does, and that lookups by name succeed.
- Classes hold related fields of the source's global structures as records (`Counts`, `Status`, `Window`, `Buffers`), so no aliasing between them is captured; the source has none.
- RecoveryCommand of the core application: only the counter reset is modelled; the restart and reconnect actions send one message each.
- The mode command, the viewpoint cache, diagnostics, housekeeping and event texts: two-state or copying code.
- The mapping from command results to downlink feedback codes in the radio's dispatcher: a table of constants; the feedback code is a free field of the frame.
- The copied status fields of the published health report: they are copies of cache fields.
- Time, the serial port and the bus: the clock and the outcomes of reads, writes and transmissions are inputs.
- The receive window's deadline: a window ends when its list of polls does.
- The order of a restart and the save that follows it, when the save fails: the file then holds an older count.
- mavlink_bridge_app, its mission transfers and its configuration scope are not part of this model.
- The bytes of the radio application's state file, and its load at start: one protocol flag with the same load and save scheme as the other two files.
