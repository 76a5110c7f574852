# Verified model of the boat gateway firmware

An ESP32 gateway sits between a boat's NMEA 2000 bus, a JBD battery management
system on a serial line, and clients on WiFi and Bluetooth. This project models
the parts of it that carry state or arithmetic, as Dafny programs and
specifications, and proves what they promise. `dafny verify dfyconfig.toml`
checks all of it.

Where the source changes things step by step, the model does too: a class with
the source's fields and methods with its loops, each proved against a
specification function. The properties are lemmas about those functions.

| part | modules |
|---|---|
| machine integers, the wrapping millisecond clock, C strings | `Bytes`, `Clock`, `CStrings`, `Wrappers` |
| battery link: frames, chunked reassembly, register copies, request schedule, driver object and its repeated use | `BmsFrame`, `BmsStream`, `BmsRegisters`, `BmsSchedule`, `JdbBms`, `BmsDriver` |
| battery frame for BLE clients | `BatteryState` |
| the two simulated batteries | `BmsSimulator`, `RequestParser` |
| BLE authentication over whole runs | `BleAuth`, `BleServer` |
| ring buffers, many readers, and the list of open streams | `Ring`, `BroadcastBuffer`, `SeasmartStreams`, `StreamList` |
| bus state with expiry, and its copies for BLE | `N2kValues`, `EngineState`, `EngineBle`, `NavState`, `NavHandler` |
| CRC of binary messages, in both programs | `Crc16` |
| polar interpolation with remembered indices | `Polar`, `Pogo1250` |
| autopilot angles | `Angles` |
| NMEA 0183 sentences | `Sentence` |
| daily log files | `Logbook` |

Time is an unbounded number of milliseconds; the firmware sees it modulo 2^32,
and every timer uses the wrapping difference. Two tasks share the BLE client
table under one mutex, so a run is a sequence of locked sections. Connects,
disconnects, arriving bytes and clock readings are inputs of the model.

## What the proofs found

The model follows the code. Where a promise does not hold of it, there is a
lemma with the exact condition or a concrete run:

- A battery reply whose payload contains what looks like a reply can be lost,
  depending on how its bytes arrive (`BmsStream.TransparentIffSurvivesChunking`).
- After corrupt data behind a good reply in one pass, the buffer length
  underflows in eight bits (`BmsFrame.CorruptionEmptiesBuffer`,
  `BmsFrame.LengthUnderflows`).
- Data without a complete reply can fill the receive buffer, and the next byte
  is stored past its end (`BmsFrame.FullBufferStays`, `BmsStream.NoiseOverruns`).
- After a register 0x03 reply of more than 64 bytes the next one writes outside
  the register copy, and after one of 64 bytes a count of more than 20 readings
  does (`BmsRegisters.StaysInsideIff`, `JdbBms.SecondReplyOutside`).
- A register 0x03 reply shorter than 23 bytes leaves the old battery frame and
  clears the flag that would replace it (`BatteryState.FrameAfterPass`).
- The first register 0x03 reply, and the tail of one longer than its
  predecessor, are not copied (`BmsRegisters.FieldsCopiedIff`).
- A battery frame without cell voltages can be read as if the sensor count and
  temperatures were voltages (`BatteryState.DecodableIff`,
  `BatteryState.MisreadVoltage`), though not at temperatures a battery has.
- A lockout whose deadline reads zero, which the wrapping clock does produce,
  does not lock (`BleAuth.LockHoldsIff`, `BleAuth.ConnectionLockoutIff`,
  `BleAuth.AllCompared`, `BleAuth.FifthFailureOpen`); the guess rate bound counts
  those guesses apart. The overall lockout engages at 30 failures
  (lib/bluetooth/boatwatch_ble.h:72); README.md:101-102 says 20.
- A lockout that no attempt has met comes back half a turn of the clock after its
  end (`BleAuth.AcceptedWhenOver`, `BleAuth.LockoutComesBack`).
- The checksum of a battery reply does not cover the register it answers for
  (`BmsFrame.OneByteChanged`).
- The fields of PGN 127489 share one stamp, so a field can outlive the five
  seconds documented for it (`EngineState.OilPressureOutlivesTimeout`).
- Two kinds of navigation message change what is published without flagging it
  (`NavState.MissedIff`), and a longitude outlives its 15 seconds if its message
  carried no latitude, and only then (`NavState.LongitudeOutlivesIff`); a true
  heading without a magnetic one never expires (`NavState.TrueHeadingNeverExpires`).
- In the first five seconds of the clock an unsafe fix is kept out although there
  was no safe one (`NavState.FirstFixStoredIff`).
- The SeaSmart overflow count misses overwrites of a reader already overrun, and
  of one for which only the newline does not fit (`SeasmartStreams.MissedIff`);
  a line that fills the ring makes it look empty, uncounted
  (`SeasmartStreams.LostUncountedIff`).
- Before the first search on an axis, the polar lookup uses its first column or
  row below one knot or one degree (`Polar.UnsearchedIff`); with the table
  carried, that gives no speed (`Pogo1250.NewObjectRightIff`).
- A sentence of many fields overruns the encoder's buffer by its commas
  (`Sentence.StoredInsideIff`, `Sentence.CommasGoOn`).
- A sentence cut to the client's buffer can be accepted with a `*` put in
  (`Sentence.ReplacedCharacterRejected`, `Sentence.CutLineAccepted`).
- An empty line gets the verdict of the line before it
  (`Sentence.EmptyLineRepeatsVerdict`).
- Log rotation keeps 15 files, not 14, since it runs before the new one is made
  (`Logbook.NewestDaysKept`).

## Model

| member | source | states |
|---|---|---|
| `BmsStream.ChunkingInvariance` | lib/jdbbms/jdb_bms.cpp:60-122 | however a stream of transparent replies is cut into chunks, the replies are decoded in order and once each, no byte is stored past the buffer, undecoded bytes are all kept, and once everything is read the buffer is exactly the unfinished reply |
| `BmsStream.PollingCompletes` | lib/jdbbms/jdb_bms.cpp:60-122 | enough calls after the last chunk decode every whole reply and leave the unfinished one |
| `BmsStream.TransparentIffSurvivesChunking` | lib/jdbbms/jdb_bms.cpp:76-110 | a reply survives every split of its bytes if and only if no start byte inside it opens a candidate that is more than harmless before the reply is complete |
| `BmsStream.HarmfulFrameIsLost` | lib/jdbbms/jdb_bms.cpp:76-104 | for a reply that is not transparent, withholding its last byte loses it |
| `BmsStream.NestedFrameNotTransparent` | lib/jdbbms/jdb_bms.cpp:161-220 | such a reply exists: one whose payload holds a whole empty reply |
| `BmsStream.NoInnerStart` | lib/jdbbms/jdb_bms.cpp:79 | a reply without a second 0xDD is transparent |
| `BmsStream.EncodeAccepted` | lib/jdbbms/jdb_bms_sim.cpp:131-142 | what the BMS finishes, the driver accepts as the same register and payload |
| `BmsStream.ScanHolds` | lib/jdbbms/jdb_bms.cpp:76-110 | scanning whole replies and an unfinished one finds exactly the whole ones |
| `BmsStream.StepPending` | lib/jdbbms/jdb_bms.cpp:60-122 | one call of update keeps the undecoded bytes a continuation of the stream at a frame boundary |
| `BmsStream.IdleDrains` | lib/jdbbms/jdb_bms.cpp:61-70 | calls during which nothing arrives read the queue empty |
| `BmsFrame.CorruptionEmptiesBuffer` | lib/jdbbms/jdb_bms.cpp:86-119 | a pass that meets corrupt data empties the buffer if and only if the first candidate that is complete, and no error reply, is the corrupt one; otherwise the eight-bit difference leaves a length of 256 minus the processed offset |
| `BmsFrame.FirstDecides` | lib/jdbbms/jdb_bms.cpp:76-104 | the first such candidate decides whether the pass accepts a reply before it meets corrupt data |
| `BmsFrame.LengthUnderflows` | lib/jdbbms/jdb_bms.cpp:86-119 | fourteen bytes, a sound reply and a corrupt one, that leave an empty buffer with 249 bytes |
| `BmsFrame.FullBufferStays` | lib/jdbbms/jdb_bms.cpp:64-70 | a full buffer, past which the next call stores, is left behind if and only if the data fills it and no candidate in it is complete but for error replies |
| `BmsFrame.BufferFills` | lib/jdbbms/jdb_bms.cpp:64-70 | it happens: 255 bytes without a start byte fill an empty buffer |
| `BmsStream.NoiseOverruns` | lib/jdbbms/jdb_bms.cpp:61-70 | and the next byte to arrive is stored past its end |
| `BmsFrame.ScanBounds` | lib/jdbbms/jdb_bms.cpp:74-110 | the processed offset stays inside the data, and corrupt data leaves at least seven bytes behind it |
| `BmsFrame.FramesGrow` | lib/jdbbms/jdb_bms.cpp:81-83 | a reply once accepted stays accepted for the rest of the pass |
| `BmsFrame.AcceptedIff` | lib/jdbbms/jdb_bms.cpp:161-220 | a complete candidate is accepted if and only if it ends in 0x77, its status is zero, and the bytes summed and the checksum word add up to 0 modulo 0x10000; with another status it is an error reply, else corrupt |
| `BmsFrame.OneByteChanged` | lib/jdbbms/jdb_bms.cpp:177-191 | one changed byte behind the length, or the status byte, makes a sound reply corrupt; the register byte is not covered, and a changed one makes it a sound reply for another register |
| `BmsFrame.ChecksumCancels` | lib/jdbbms/jdb_bms_sim.cpp:131-142 | the checksum is the one word that makes the sum come to nothing |
| `JdbBms.JdbBms.Update` | lib/jdbbms/jdb_bms.cpp:60-147 | the new buffer, register copies, schedule and request of one call are those of the specification functions |
| `JdbBms.JdbBms.ScanFrames` | lib/jdbbms/jdb_bms.cpp:73-110 | the scanning loop finds the frames of the scan, applies them in order and empties the buffer on corruption |
| `JdbBms.JdbBms.ProcessFrame` | lib/jdbbms/jdb_bms.cpp:161-220 | the result code, the register update and the released request for each verdict on a candidate frame |
| `JdbBms.JdbBms.Read` | lib/jdbbms/jdb_bms.cpp:64-70 | the reading loop appends what is available and stops when the buffer is full |
| `JdbBms.JdbBms.ShiftOut` | lib/jdbbms/jdb_bms.cpp:107-120 | the remaining bytes move to the front and the length is the eight-bit difference |
| `JdbBms.JdbBms.CopyReg03` | lib/jdbbms/jdb_bms.cpp:223-241 | the copy and the three swapping loops produce the specified register |
| `JdbBms.JdbBms.CopyReg04` | lib/jdbbms/jdb_bms.cpp:250-261 | whole byte pairs are copied swapped |
| `JdbBms.JdbBms.CopyReg05` | lib/jdbbms/jdb_bms.cpp:262-267 | bytes are copied as they are, up to the register size |
| `JdbBms.Register05History` | lib/jdbbms/jdb_bms.cpp:262-267 | after any replies a cell of register 0x05 is the byte of the latest reply that reached it |
| `JdbBms.Register04History` | lib/jdbbms/jdb_bms.cpp:250-261 | a cell of register 0x04 is the byte its partner was in the latest reply that reached the pair |
| `JdbBms.CellsUntouched` | lib/jdbbms/jdb_bms.cpp:250-267 | a cell that no reply reached is as it was |
| `JdbBms.LengthHistory` | lib/jdbbms/jdb_bms.cpp:201-215 | the length kept for each register is that of its latest reply |
| `BmsRegisters.Cell05` | lib/jdbbms/jdb_bms.cpp:262-267 | one reply sets exactly the cells below both lengths, each to its own byte |
| `JdbBms.JdbBms.SendRequest` | lib/jdbbms/jdb_bms.cpp:124-147 | the timeout and request part follows the schedule and sends its seven request bytes |
| `JdbBms.JdbBms.ChecksumMatches` | lib/jdbbms/jdb_bms.cpp:177-185 | the two checksum bytes are compared with the two's-complement sum of the frame |
| `JdbBms.InspectCells` | lib/jdbbms/jdb_bms.cpp:161-200 | the verdict on a candidate, read off the cells of the buffer at the offsets processFrame computes |
| `JdbBms.SecondReplyOutside` | lib/jdbbms/jdb_bms.cpp:201-241 | it happens from the start: after a first register 0x03 reply of 65 bytes the next one is stored outside the register |
| `JdbBms.LongReplyThenOutside` | lib/jdbbms/jdb_bms.cpp:201-241 | after a register 0x03 reply longer than 64 bytes none is stored inside, after a shorter one each is |
| `BmsDriver.Serve` | lib/jdbbms/jdb_bms.cpp:60-122 | calling update again and again on what arrives takes the object through the run of the link, and applies exactly the replies decoded in it |
| `BmsDriver.ApplyJoin` | lib/jdbbms/jdb_bms.cpp:201-220 | replies decoded in several calls are applied as if in one |
| `BmsRegisters.StaysInsideIff` | lib/jdbbms/jdb_bms.cpp:223-247 | the copy and the three swapping loops write inside the register if and only if the previous reply had less than 64 bytes, or 64 and the count read is at most 20 |
| `BmsRegisters.WritesPastTheEnd` | lib/jdbbms/jdb_bms.cpp:223-247 | it happens: after a reply of 64 bytes a count of 21 writes the byte behind the register |
| `BmsRegisters.SwapsInsideIff` | lib/jdbbms/jdb_bms.cpp:229-247 | a swapping loop can run if and only if it writes inside |
| `BmsRegisters.FitsIff` | lib/jdbbms/jdb_bms.cpp:223-247 | the replies CopyReg03 accepts are exactly those whose writes stay inside, with the count as it is read after the copy |
| `BmsRegisters.FieldsCopiedIff` | lib/jdbbms/jdb_bms.cpp:223-241 | after a whole register 0x03 reply the copy has each of its fields, words swapped and bytes unchanged, whatever it held before, if and only if the previous reply was at least as long |
| `BmsRegisters.FieldsStale` | lib/jdbbms/jdb_bms.cpp:224-226 | after a shorter previous reply some old content shows through |
| `BmsRegisters.FirstReplyLost` | lib/jdbbms/jdb_bms.cpp:224-226 | the first reply after a start is not copied at all |
| `BmsRegisters.FieldsPartition` | lib/jdbbms/jdb_bms.cpp:229-238 | every byte of a whole reply belongs to exactly one 16-bit or 8-bit field, so every word is swapped once |
| `BmsRegisters.Swapped03At` | lib/jdbbms/jdb_bms.cpp:229-238 | where each byte of the copy comes from after the three swapping loops |
| `BmsRegisters.SwapPairsAt` | lib/jdbbms/jdb_bms.cpp:243-247 | where each byte comes from after one swapping loop |
| `BmsRegisters.SensorsKept` | lib/jdbbms/jdb_bms.cpp:232-238 | the sensor count that places the fields keeps its place through the swaps |
| `BmsRegisters.CellsCopied` | lib/jdbbms/jdb_bms.cpp:250-261 | every cell voltage that fits is held in the other byte order |
| `BatteryState.WireToClient` | lib/bluetooth/boatwatch_ble.cpp:314-370 | from two replies on the wire, in any chunks, to the BLE frame: a client reads exactly the fields the BMS sent, once a register 0x03 reply at least as long, and no longer than the register, was seen before |
| `BatteryState.FieldsDelivered` | lib/bluetooth/boatwatch_ble.cpp:326-366 | register copies with the fields of the replies pack a frame that reads as what the BMS said |
| `BatteryState.DecodableIff` | lib/bluetooth/boatwatch_ble.cpp:350-366 | a client can read the frame by the documented layout if and only if the replies carried every cell and reading, or the frame is one it misreads: cells missing, and a temperature byte where the sensor count would be that makes the length come out right |
| `BatteryState.WholeIff` | lib/bluetooth/boatwatch_ble.cpp:350-366 | the frame has 17+2*cells+2*sensors bytes if and only if the replies carried them all |
| `BatteryState.MisreadVoltage` | lib/bluetooth/boatwatch_ble.cpp:350-366 | what a client then takes for the first cell voltage: the sensor count and a temperature byte |
| `BatteryState.MisreadHappens` | lib/bluetooth/boatwatch_ble.cpp:350-366 | register copies whose frame is misread |
| `BatteryState.WarmNeverMisread` | lib/bluetooth/boatwatch_ble.cpp:350-366 | with temperatures of 128 K or more no frame is misread |
| `BatteryState.PackedBytes` | lib/bluetooth/boatwatch_ble.cpp:326-366 | the offsets of the frame hold the documented register bytes |
| `BatteryState.BatteryBuffer.SetBatteryState` | lib/bluetooth/boatwatch_ble.cpp:314-370 | the buffer is packed as specified, or left alone when the reply is too short |
| `BatteryState.FrameAfterPass` | src/main.cpp:1062-1068 | in every run of replies and main-loop passes, after each pass the flag is clear and the frame is that of the current copies, or the frame of before if the last register 0x03 reply had less than 23 bytes |
| `BatteryState.LoopPass` | src/main.cpp:1062-1068 | the pass packs when flagged and clears the flag, short reply or not |
| `BmsSchedule.RequestCycle` | lib/jdbbms/jdb_bms.cpp:131-147 | in every run, request k asks for register 0x05 when k mod 201 is 0, else 0x03 or 0x04 as the residue is odd or even |
| `BmsSchedule.CyclePosition` | lib/jdbbms/jdb_bms.cpp:135-146 | reg and requestReg05 encode the place in that cycle |
| `BmsSchedule.RequestSpacing` | lib/jdbbms/jdb_bms.cpp:124-133 | requests are more than 250 ms apart, and within 2000 ms only after a frame outcome released the next |
| `BmsSchedule.SendsIff` | lib/jdbbms/jdb_bms.cpp:124-133 | a call sends if and only if the gap exceeds 2000 ms, or exceeds 250 ms and the request was released |
| `BmsSchedule.FirstSendsIff` | lib/jdbbms/jdb_bms.cpp:124-134 | the first request goes out with the first call more than 250 ms after the start, less whole turns of the clock |
| `BmsSchedule.SinceLastSend` | lib/jdbbms/jdb_bms.cpp:124-134 | what the schedule remembers between two requests |
| `BmsSimulator.RequestAnsweredIff` | lib/jdbbms/jdb_bms_sim.cpp:162-200 | a firmware request is answered with the accepted frame if and only if the simulator is idle, or waits for the length of a request for the same register |
| `BmsSimulator.ExchangeDelivers` | lib/jdbbms/jdb_bms_sim.cpp:162-200 | a whole exchange delivers exactly the register asked for, releases the next request and leaves both sides idle |
| `BmsSimulator.OtherwiseError` | lib/jdbbms/jdb_bms_sim.cpp:179-197 | any other read request that arrives while it is idle gets a sound error reply for the register it named |
| `BmsSimulator.JBDBmsSimulator.Finish` | lib/jdbbms/jdb_bms_sim.cpp:131-142 | finish appends the checksum of header and data and the end byte, and changes nothing before |
| `BmsSimulator.JBDBmsSimulator.Respond` | lib/jdbbms/jdb_bms_sim.cpp:101-129 | a reply is queued whole behind the ones before it |
| `BmsSimulator.JBDBmsSimulator.WriteByte` | lib/jdbbms/jdb_bms_sim.cpp:162-200 | one byte steps the receiving state as specified |
| `BmsSimulator.JBDBmsSimulator.Read` | lib/jdbbms/jdb_bms_sim.cpp:146-153 | reading takes the first queued byte and shifts the rest; with none queued the count wraps and the whole buffer is queued |
| `RequestParser.RequestRecognisedIff` | simulator/bmssim.js:148-224 | a firmware request is recognised once and as itself if and only if it arrives at the start, before an operation, or at the end of a request |
| `RequestParser.EveryRequestRead` | simulator/bmssim.js:148-224 | from the start every request, read or write and with any payload, is recognised once and as itself |
| `RequestParser.OnlyWhatWasSent` | simulator/bmssim.js:148-224 | whatever came before, a request is recognised only on the last byte of just that request |
| `RequestParser.NoiseIgnored` | simulator/bmssim.js:157-159 | anything without a start byte goes by |
| `RequestParser.PayloadAnsweredIff` | simulator/bmssim.js:92-102 | a request with a payload has the wanted checksum if and only if its bytes and the checksum sum to nothing, and the bytes alone do not |
| `RequestParser.TimeoutIff` | simulator/bmssim.js:229-237 | nothing is reset up to a second of silence, and everything but the start after it |
| `RequestParser.ReadyWithin` | simulator/bmssim.js:157-224 | from any reachable state the parser is ready again within 260 bytes |
| `RequestParser.Simulator.OnByte` | simulator/bmssim.js:148-224 | the loop looks at a byte at most twice and steps the parser as specified |
| `RequestParser.AnsweredIff` | simulator/bmssim.js:92-102 | a recognised firmware request has the wanted checksum if and only if its register is not zero |
| `RequestParser.RequestAfterTimeout` | simulator/bmssim.js:229-237 | after the idle timeout every firmware request is recognised |
| `RequestParser.SentIsEncode` | simulator/bmssim.js:337-372 | the reply the simulator sends is the frame the driver accepts |
| `RequestParser.FeedAllSound` | simulator/bmssim.js:179-199 | payload is expected exactly while some is left, in every reachable state |
| `BleAuth.GuessRateInRuns` | lib/bluetooth/boatwatch_ble.cpp:467-512 | after any run at all, any window without an accepted PIN, over any connects and reconnects, compares at most 30 wrong PINs per started five minutes of real time, through clock wrap, plus the guesses that leave the door open at the threshold and 29 for every wrap of the 16-bit count |
| `BleAuth.LeavesOpenIff` | lib/bluetooth/boatwatch_ble.cpp:493-508 | a guess leaves the door open if and only if it is a wrong one at the threshold whose deadline reads zero, or the one that wraps the count |
| `BleAuth.WrapsAreRare` | lib/bluetooth/boatwatch_ble.cpp:495 | a wrap of the count takes 65506 guesses that leave the door open |
| `BleAuth.NoneOpenNoWrap` | lib/bluetooth/boatwatch_ble.cpp:495 | without a guess that leaves the door open the count does not wrap, so the bound is the plain one |
| `BleAuth.AllCompared` | lib/bluetooth/boatwatch_ble.cpp:505-508 | it happens: five minutes before the clock wraps, any number of wrong PINs up to 65535 are compared in one millisecond, from an empty table |
| `BleAuth.GuessRate` | lib/bluetooth/boatwatch_ble.cpp:467-512 | the same from any state that is open or has a deadline at most five minutes ahead |
| `BleAuth.AlwaysGuarded` | lib/bluetooth/boatwatch_ble.cpp:467-512 | every state a run reaches is such a state |
| `BleAuth.GuessStep` | lib/bluetooth/boatwatch_ble.cpp:467-512 | every event keeps the guess it compares within the remaining budget and what it adds to it |
| `BleAuth.LockHoldsIff` | lib/bluetooth/boatwatch_ble.cpp:474-508 | the failure that reaches the global threshold keeps every PIN from being compared for five minutes, over any connects and disconnects, if and only if its deadline does not read zero |
| `BleAuth.LockStays` | lib/bluetooth/boatwatch_ble.cpp:474-476 | while the door is closed nothing opens it or compares a PIN |
| `BleAuth.ConnectionLockout` | lib/bluetooth/boatwatch_ble.cpp:482-502 | after the fifth failure on a connection the next PIN from it is compared 30 s later at the earliest |
| `BleAuth.ConnectionLockoutIff` | lib/bluetooth/boatwatch_ble.cpp:482-508 | the fifth failure on a connection keeps its PINs from being compared for 30 s if and only if its deadline does not read zero or it has closed the door for everyone |
| `BleAuth.FifthFailureOpen` | lib/bluetooth/boatwatch_ble.cpp:482-508 | it happens: thirty seconds before the clock wraps, the fifth failure of a connection does not close it |
| `BleAuth.AcceptedIff` | lib/bluetooth/boatwatch_ble.cpp:467-512 | on a known handle the PIN is compared if and only if neither deadline lies ahead; the right one is then accepted and starts all counts over, any other is counted wrong |
| `BleAuth.RightPinAuthorises` | lib/bluetooth/boatwatch_ble.cpp:438-561 | a connected client that sends the right PIN while no deadline lies ahead has every command reach the application until it connects again or goes |
| `BleAuth.OpenWithoutFailures` | lib/bluetooth/boatwatch_ble.cpp:467-512 | where nobody has sent a wrong PIN, no connected client is kept out |
| `BleAuth.AcceptedWhenOver` | lib/bluetooth/boatwatch_ble.cpp:474-493 | after both deadlines the right PIN is accepted, if and only if neither has gone unmet for more than half a turn of the clock |
| `BleAuth.AheadIff` | lib/bluetooth/boatwatch_ble.cpp:474 | a deadline lies ahead until it is reached, and again from half a turn of the clock after it |
| `BleAuth.LockoutComesBack` | lib/bluetooth/boatwatch_ble.cpp:474-476 | it happens: 25 days after an overall lockout nobody has met, the right PIN is rejected |
| `BleAuth.KnownIff` | lib/bluetooth/boatwatch_ble.cpp:374-409 | a handle is known if and only if it connected and has not gone since |
| `BleAuth.FailuresCounted` | lib/bluetooth/boatwatch_ble.cpp:495-503 | the count of a connection is the number of its wrong PINs since it connected or was accepted, in eight bits |
| `BleAuth.FailureEffects` | lib/bluetooth/boatwatch_ble.cpp:495-504 | of the failures in a row exactly the fifth blocks the connection, for 30 s, and each from the tenth on drops it |
| `BleAuth.BlockedStays` | lib/bluetooth/boatwatch_ble.cpp:482-486 | while a connection is blocked nothing evaluates a PIN from it or changes its state |
| `BleAuth.FlagIffAuthorised` | lib/bluetooth/boatwatch_ble.cpp:374-409 | in every reachable state a handle is marked authenticated if and only if it had an accepted correct PIN since its latest connect |
| `BleAuth.CommandsAuthorised` | lib/bluetooth/boatwatch_ble.cpp:541-560 | exactly the commands from such handles reach the application |
| `BleAuth.ReusedHandleStartsUnauthorised` | lib/bluetooth/boatwatch_ble.cpp:374-379 | a handle that connects again inherits nothing |
| `BleServer.BleServer.HandleCommand` | lib/bluetooth/boatwatch_ble.cpp:438-561 | reply, forced disconnect, callback and new state of a command are those of the specified section |
| `BleServer.BleServer.CollectIdle` | lib/bluetooth/boatwatch_ble.cpp:175-193 | the evicted clients are idle and unauthenticated, in order, and none is missed while slots are left |
| `BleServer.IdleMeans` | lib/bluetooth/boatwatch_ble.cpp:183-185 | a client is idle exactly when it has not authenticated for more than 30 s of real time, less whole clock turns |
| `BleServer.FourDigitPin` | lib/bluetooth/boatwatch_ble.cpp:446-452 | a four-character PIN is matched by exactly the commands that carry it |
| `BleServer.BleServer.OnConnect` | lib/bluetooth/boatwatch_ble.cpp:374-379 | a connect replaces whatever state the handle had |
| `BleServer.BleServer.OnDisconnect` | lib/bluetooth/boatwatch_ble.cpp:402-408 | a disconnect removes the client |
| `BleServer.BleServer.ClearMissed` | lib/bluetooth/boatwatch_ble.cpp:152-168 | missed disconnects clear the table |
| `Ring.EveryReaderAccounted` | lib/network/httpstream.cpp:5-27 | in every run of writes, opens and reads, a reader has received the log from where it opened to where it is, with blocks of whole capacities taken out, as many as it has laps; one never lapped received every byte without a gap |
| `Ring.DrainedReader` | lib/network/httpstream.cpp:5-27 | a reader that was never lapped, and now reads all it can, has exactly what was written since it opened |
| `Ring.LogIsWritten` | lib/network/httpstream.cpp:5-17 | the log is every line written, up to its NUL or the capacity, each with a newline |
| `Ring.StartsWhereOpened` | lib/network/httpstream.cpp:28-31 | a reader starts where the log ended when it last opened |
| `Ring.ReadTakes` | lib/network/httpstream.cpp:18-27 | a read returns what is unread, less whole capacities, as far as it asks for it |
| `Ring.LappedIff` | lib/network/httpstream.cpp:18-27 | a read loses no bytes if and only if less than a capacity was written since the reader's place |
| `Ring.ResumesBounds` | lib/network/httpstream.cpp:18-27 | an overrun reader resumes a whole multiple of the capacity further on, within the last capacity |
| `Ring.PutMirrors` | lib/network/httpstream.cpp:8-16 | storing a byte keeps the cells the tail of the log |
| `BroadcastBuffer.BroadcastBuffer.WriteLine` | lib/network/httpstream.cpp:5-17 | a line, cut at the capacity, and a newline are appended to the log |
| `BroadcastBuffer.BroadcastBuffer.Read` | lib/network/httpstream.cpp:18-27 | a read returns the log from (lag mod 2048) bytes before its end |
| `SeasmartStreams.SeasmartStream.WriteLine` | lib/network/httpstream.cpp:141-163 | the line is appended and the counters are exact, overflows included |
| `SeasmartStreams.SeasmartStream.FillBuffer` | lib/network/httpstream.cpp:127-139 | a fill returns the log from (lag mod 4096) bytes before its end |
| `SeasmartStreams.MeetingsIff` | lib/network/httpstream.cpp:144-147 | a line is counted as an overflow once, if and only if it runs past what looks free |
| `SeasmartStreams.CountedMeansOverwritten` | lib/network/httpstream.cpp:144-147 | a counted overflow overwrote a byte in the ring that was not read, and costs the reader some |
| `SeasmartStreams.MissedIff` | lib/network/httpstream.cpp:144-155 | an overwrite is missed by the count if and only if only the newline did not fit or, for a reader overrun before, the line fits what looks free |
| `SeasmartStreams.LostUncountedIff` | lib/network/httpstream.cpp:144-155 | a loss is missed by the count if and only if the line fills all that looks free, or all but one byte of it |
| `SeasmartStreams.LosesIff` | lib/network/httpstream.cpp:127-155 | a line costs the reader something if and only if it and its newline reach the end of what looks free |
| `SeasmartStreams.OverwritesIff` | lib/network/httpstream.cpp:144-155 | an unread byte in the ring is overwritten if and only if what is unread and what is written exceed the capacity |
| `SeasmartStreams.OverrunReaderUncounted` | lib/network/httpstream.cpp:144-155 | ten characters that overwrite unread bytes uncounted |
| `SeasmartStreams.FullRingLost` | lib/network/httpstream.cpp:127-155 | ten characters after which a reader loses all of its 4096 bytes, uncounted |
| `StreamList.WebServer.AddSeasmartResponse` | lib/network/httpserver.cpp:628-642 | a stream is appended and the list stays acyclic |
| `StreamList.WebServer.RemoveSeasmartResponse` | lib/network/httpserver.cpp:647-666 | exactly that stream leaves the list, which keeps its order and stays acyclic |
| `StreamList.WebServer.SendSeaSmart` | lib/network/httpserver.cpp:613-623 | the line is written once to each listed stream that accepts the PGN and to no other |
| `StreamList.WebServer.AcceptSeaSmart` | lib/network/httpserver.cpp:598-611 | the PGN is accepted if and only if some listed stream accepts it |
| `StreamList.WithoutMembers` | lib/network/httpserver.cpp:647-666 | removal keeps all other members in order |
| `StreamList.AddThenRemove` | lib/network/httpserver.cpp:628-666 | removing the stream just added restores the list |
| `Crc16.CrcIsModbus` | lib/archive/N2KMessageEncoder/N2KMessageEncoder.cpp:46-73 | the firmware CRC is the CRC of section 6.2.2 of the MODBUS over Serial Line Specification V1.02 with its bytes swapped, for every message |
| `Crc16.Crc16` | lib/archive/N2KMessageEncoder/N2KMessageEncoder.cpp:46-73 | the bit loops compute the specified register |
| `Crc16.JsCrc16` | simulator/n2kencoder.js:14-32 | the simulator computes what the firmware does without the final reversal |
| `Crc16.Composes` | lib/archive/N2KMessageEncoder/N2KMessageEncoder.cpp:49-64 | the CRC of a concatenation continues from the CRC of its first part |
| `Crc16.ByteBijective` | lib/archive/N2KMessageEncoder/N2KMessageEncoder.cpp:51-63 | feeding a byte is a bijection of the register, with the inverse given |
| `Crc16.DifferenceSurvives` | lib/archive/N2KMessageEncoder/N2KMessageEncoder.cpp:49-64 | registers that differ stay different over any common rest |
| `Crc16.PairInjective` | lib/archive/N2KMessageEncoder/N2KMessageEncoder.cpp:51-63 | from one register, different byte pairs lead to different registers |
| `Crc16.BurstDetected` | lib/archive/N2KMessageEncoder/N2KMessageEncoder.cpp:46-73 | two messages of equal length that differ only within two adjacent bytes have different CRCs |
| `EngineState.HistoryRefinement` | lib/N2KHandler/N2KHandler.cpp:845-901 | at a poll, speed, exhaust, engine room, battery and fuel show the latest message's value if it is within its limit, else NA, whenever earlier polls happened |
| `EngineState.FieldHistory` | lib/N2KHandler/N2KHandler.cpp:611-705 | such a field is its latest message's value exactly unless some event since found it too old |
| `EngineState.NeverGivenIsNA` | lib/N2KHandler/N2KHandler.cpp:845-901 | a field no message gave is NA |
| `EngineState.GroupHistory` | lib/N2KHandler/N2KHandler.cpp:632-671 | alternator temperature and voltage, oil pressure, hours and status words show their latest carried value unless a poll found the whole message silent |
| `EngineState.NeverCarriedMissing` | lib/N2KHandler/N2KHandler.cpp:632-671 | a field of the group never carried shows that it is missing |
| `EngineState.CoolantHistory` | lib/N2KHandler/N2KHandler.cpp:632-671 | the coolant temperature is the last one given, unless a silent poll, or a message without one after ten seconds, has taken it away since |
| `EngineState.OilPressureOutlivesTimeout` | lib/N2KHandler/N2KHandler.cpp:864-873 | so an oil pressure can outlive the five seconds of the documentation |
| `EngineState.GroupDependsOnPolls` | lib/N2KHandler/N2KHandler.cpp:864-873 | and what is shown can depend on whether an earlier poll happened |
| `EngineBle.FrameCoherent` | src/main.cpp:1051-1059 | after every main-loop pass the BLE frame encodes the current engine state, from the NA-primed start on |
| `EngineBle.ChangesAreFlagged` | lib/N2KHandler/N2KHandler.cpp:611-705 | whatever is not in the frame yet is flagged, in every reachable state |
| `EngineBle.FrameLayout` | lib/bluetooth/engine_ble_encoder.h:62-80 | the documented offsets hold the words of the state |
| `EngineBle.WordAccurate` | lib/bluetooth/engine_ble_encoder.h:28-35 | a value in range is read back within half a unit |
| `EngineBle.FieldRead` | lib/bluetooth/engine_ble_encoder.h:28-80 | at the documented offset of each measured field a client reads 0xFFFF if and only if the field has no value, and otherwise the value within half a unit |
| `EngineBle.PrimedFrame` | lib/bluetooth/engine_ble_encoder.h:45-60 | before any message every word of the frame says "not available" |
| `EngineBle.EngineFrame.EncodeEngineBle` | lib/bluetooth/engine_ble_encoder.h:62-80 | the written bytes are the specified encoding |
| `EngineBle.EngineFrame.SetEngineState` | lib/bluetooth/boatwatch_ble.cpp:291-294 | the frame is encoded and flagged |
| `EngineBle.EngineHandler.EngineRapid` | lib/N2KHandler/N2KHandler.cpp:611-631 | PGN 127488 updates the state as specified |
| `EngineBle.EngineHandler.EngineDynamic` | lib/N2KHandler/N2KHandler.cpp:632-671 | PGN 127489 updates the state as specified |
| `EngineBle.EngineHandler.HandleMessage` | lib/N2KHandler/N2KHandler.cpp:80-97 | every message updates the engine state as specified |
| `EngineBle.EngineHandler.ExpireStaleEngineData` | lib/N2KHandler/N2KHandler.cpp:845-908 | the field-by-field expiry is the specified one, and flags every change |
| `EngineBle.LoopPass` | src/main.cpp:1051-1059 | the pass copies exactly when the state is flagged after expiry |
| `NavState.ShownIsFresh` | lib/N2KHandler/N2KHandler.cpp:785-843 | every published navigation field but the longitude that a poll leaves showing is what its last refreshing message gave it, at most 15 s ago |
| `NavState.ShownAtPoll` | lib/N2KHandler/N2KHandler.cpp:785-843 | after a poll each of the nine other published fields and the latitude shows its last value if and only if that is at most 15 s old and no message since took it away: for depth and log any without a value, for course, speeds and wind one after ten seconds, for variation and heading none |
| `NavState.FieldHistory` | lib/N2KHandler/N2KHandler.cpp:203-521 | by the 32-bit clock, a field shows its last value unless some event since took it away |
| `NavState.NeverGivenNone` | lib/N2KHandler/N2KHandler.cpp:203-521 | a field never given shows nothing |
| `NavState.NeverDropped` | lib/N2KHandler/N2KHandler.cpp:203-264 | no message takes a variation or a heading away |
| `NavState.ShownIsLive` | lib/N2KHandler/N2KHandler.cpp:785-843 | a shown field is the last value given, which nothing since has taken away |
| `NavState.CourseGiven` | lib/N2KHandler/N2KHandler.cpp:447-468 | after a true course c the true course is c and the magnetic one c plus the variation; after a magnetic course c they are c minus the variation and c; without a variation the other one is held or dropped |
| `NavState.CourseAfterVariation` | lib/N2KHandler/N2KHandler.cpp:447-468 | after a variation d and a magnetic course c the published course is c - d, after a true one c |
| `NavState.HeadingsGiven` | lib/N2KHandler/N2KHandler.cpp:218-264 | a magnetic heading sets both headings; a true one does only while there is no magnetic one |
| `NavState.TrueHeadingAtPoll` | lib/N2KHandler/N2KHandler.cpp:816-820 | a poll drops the true heading if and only if a magnetic one is shown that is too old |
| `NavState.TrueHeadingNeverExpires` | lib/N2KHandler/N2KHandler.cpp:816-820 | without a magnetic one no poll ever does |
| `NavState.FixStoredIff` | lib/N2KHandler/N2KHandler.cpp:384-402 | an unsafe fix is stored if and only if the last safe one is more than 5 s old, less whole turns of the clock; a safe one always |
| `NavState.FirstFixStoredIff` | lib/N2KHandler/N2KHandler.cpp:396-402 | before any safe fix an unsafe one is stored if and only if the clock reads more than 5 s |
| `NavState.PositionAtPoll` | lib/N2KHandler/N2KHandler.cpp:785-799 | after a poll the latitude is that of the last stored position if it is at most 15 s old, and the longitude is its longitude if that is so or it carried no latitude |
| `NavState.LongitudeOutlivesIff` | lib/N2KHandler/N2KHandler.cpp:795-799 | so a longitude older than 15 s is shown if and only if its message carried no latitude |
| `NavState.LongitudeOutlives` | lib/N2KHandler/N2KHandler.cpp:795-799 | a run from the start that shows a longitude of a hundred seconds ago |
| `NavState.PositionHistory` | lib/N2KHandler/N2KHandler.cpp:355-428 | latitude, longitude and stamp come from the same last stored position, unless a poll since found it too old |
| `NavState.NoPositionYet` | lib/N2KHandler/N2KHandler.cpp:355-428 | before the first stored position there is neither |
| `NavState.LongitudeNeverExpires` | lib/N2KHandler/N2KHandler.cpp:795-799 | no poll drops a longitude without a latitude |
| `NavState.MissedIff` | lib/N2KHandler/N2KHandler.cpp:203-521 | of all messages, exactly a repeated magnetic course whose true course moves, and a repeated true heading that first yields a magnetic one, change what is published without setting the flag |
| `NavState.StepKeepsIff` | src/main.cpp:1042-1049 | the BLE server stays in step over an event if and only if it is not such a message arriving while the flag is clear |
| `NavState.HandedIsCurrent` | src/main.cpp:1042-1049 | without such a message every pass leaves the server with the current state |
| `NavState.CourseLeftBehind` | lib/N2KHandler/N2KHandler.cpp:447-468 | a run in which the server is left with an outdated course |
| `NavState.HeadingLeftBehind` | lib/N2KHandler/N2KHandler.cpp:253-264 | a run in which the server is left without a heading |
| `NavHandler.N2KHandler.Handle127250` | lib/N2KHandler/N2KHandler.cpp:222-271 | the heading handler updates values, stamps and flag as specified |
| `NavHandler.N2KHandler.Handle129026` | lib/N2KHandler/N2KHandler.cpp:436-479 | the course handler does |
| `NavHandler.N2KHandler.Handle129029` | lib/N2KHandler/N2KHandler.cpp:355-413 | the position handler does |
| `NavHandler.N2KHandler.Handle130306` | lib/N2KHandler/N2KHandler.cpp:498-519 | the wind handler does |
| `NavHandler.N2KHandler.Handle127258` | lib/N2KHandler/N2KHandler.cpp:203-217 | the variation handler does |
| `NavHandler.N2KHandler.Handle128259` | lib/N2KHandler/N2KHandler.cpp:290-303 | the water speed handler does |
| `NavHandler.N2KHandler.Handle128267` | lib/N2KHandler/N2KHandler.cpp:309-325 | the depth handler does |
| `NavHandler.N2KHandler.Handle128275` | lib/N2KHandler/N2KHandler.cpp:331-349 | the log handler does |
| `NavHandler.N2KHandler.Handle129025` | lib/N2KHandler/N2KHandler.cpp:415-431 | the rapid position handler does |
| `NavHandler.N2KHandler.HandleMessage` | lib/N2KHandler/N2KHandler.cpp:80-110 | every message updates the navigation state as specified |
| `NavHandler.N2KHandler.IsNavStateDirty` | lib/N2KHandler/N2KHandler.cpp:751-843 | the field-by-field expiry is the specified one, and flags every change |
| `NavHandler.LoopPass` | src/main.cpp:1042-1049 | the pass hands over exactly when the state is flagged after expiry |
| `N2kValues.UpdateWithTimeout` | lib/N2KHandler/N2KHandler.cpp:61-75 | a missing value holds the last one for ten seconds, whatever period is passed |
| `Polar.Performance.CalcPolarSpeed` | lib/performance/performance.cpp:306-356 | from any remembered indices, searched for or not, the result is that of a fresh bracket search if and only if the indices kept agree with the cell of the wind; searched ones do |
| `Polar.LookupIsBilinear` | lib/performance/performance.cpp:313-339 | the lookup is the bilinear blend of the four corners of the cell |
| `Polar.LookupBetween` | lib/performance/performance.cpp:313-339 | the result lies within any bounds of the four corners |
| `Polar.ExactAtGridPoints` | lib/performance/performance.cpp:313-339 | at a grid point it is the tabulated speed |
| `Polar.CellsAgree` | lib/performance/performance.cpp:330-339 | cells that share an edge in wind speed agree on it |
| `Polar.CellsAgreeInAngle` | lib/performance/performance.cpp:330-339 | cells that share an edge in angle agree on it |
| `Polar.FindIndexes` | lib/performance/performance.cpp:358-374 | the loop finds the indices that bracket the value, the last one twice above the axis and the first one twice below it |
| `Polar.BracketUnique` | lib/performance/performance.cpp:358-374 | those indices are the only ones |
| `Polar.WholePartBrackets` | lib/performance/performance.cpp:342-356 | searching for the whole part of a value brackets the value |
| `Polar.UnsearchedIff` | lib/performance/performance.cpp:342-356 | whatever has been searched for on either axis, a lookup is right if and only if the unsearched indices it keeps agree: on the first column or row of the cell, or where the two columns, rows or corners make no difference |
| `Polar.KeptAgreesIff` | lib/performance/performance.cpp:313-339 | for given cells, the speeds with kept and with searched indices are equal if and only if that is so |
| `Pogo1250.PogoValid` | lib/performance/pogo1250polar.h:10-40 | the table the firmware carries is one the lookup works on |
| `Pogo1250.NewObjectRightIff` | lib/performance/pogo1250polar.h:10-40 | on it, a new object looks up the speed rightly if and only if there is no wind, it is dead ahead, it has at least one knot and one degree, or it has 55 knots |
| `Pogo1250.HalfADegreeOff` | lib/performance/pogo1250polar.h:16-18 | in four knots and half a degree off the wind it finds no speed where a search finds some |
| `Angles.HeadingRoundTrip` | lib/bluetooth/autopilot_state.h:57-65 | a heading sent and decoded is the same when it is a whole number of units, else one hundredth less |
| `Angles.WindRoundTrip` | lib/bluetooth/autopilot_state.h:69-78 | a wind angle to port comes back exactly, one to starboard exactly or one hundredth less, with the exact condition |
| `Angles.AdjustedHeading` | src/main.cpp:596-604 | the adjusted heading is the one in [0,360) congruent to the requested sum |
| `Angles.AdjustWind` | src/main.cpp:605-616 | both loops end for every 16-bit input, with the angle in [0,360) congruent to the requested sum |
| `Angles.SentUnits` | src/main.cpp:527-531 | the number sent is the whole part of the angle in units and fits sixteen bits |
| `Angles.AutopilotBleState.HandlePGN65360` | lib/bluetooth/autopilot_state.h:57-65 | the target heading is decoded and flagged, or left alone when short or not available |
| `Angles.AutopilotBleState.HandlePGN65345` | lib/bluetooth/autopilot_state.h:69-78 | the wind datum is decoded and flagged, or left alone |
| `Angles.HeadingDecoded` | lib/bluetooth/autopilot_state.h:57-65 | every number but 0xFFFF gives a target in one turn, less than a hundredth below its angle |
| `Angles.WindDecoded` | lib/bluetooth/autopilot_state.h:69-78 | every number but 0xFFFF gives a wind angle within half a turn, less than a hundredth short of its angle |
| `Sentence.SentenceRoundTrip` | lib/network/AsyncTcpServer.cpp:378-401 | a sentence of plain fields behind a $ passes the client's check if and only if it has at most 75 characters before its checksum |
| `Sentence.SentenceInStream` | lib/network/AsyncTcpServer.cpp:293-309 | behind any line whatever, the next sentence of that kind gets the same verdict |
| `Sentence.TextJoined` | lib/N2KHandler/NMEA0183Encoder.cpp:193-209 | up to 250 characters the text is the key and all fields, a comma before each, with nothing cut |
| `Sentence.TypedIff` | lib/network/AsyncTcpServer.cpp:300-302 | a character is kept if and only if its code is from 32 to 126 and fewer than 78 are kept already |
| `Sentence.ReplacedCharacterRejected` | lib/network/AsyncTcpServer.cpp:293-309 | with one body character replaced by any other but a line end it is rejected, except a * in the 76th place of a sentence that does not fit, when the two characters behind it are the checksum of what is before it |
| `Sentence.CutLineAccepted` | lib/network/AsyncTcpServer.cpp:293-309 | a sentence of that kind that is accepted |
| `Sentence.StoredInsideIff` | lib/N2KHandler/NMEA0183Encoder.cpp:193-209 | every field is stored inside the buffer if and only if the whole text has at most 254 characters |
| `Sentence.CommasGoOn` | lib/N2KHandler/NMEA0183Encoder.cpp:202-209 | behind a text of 250 characters every field still adds its comma, so five empty ones are too many |
| `Sentence.AcceptedIff` | lib/network/AsyncTcpServer.cpp:293-309 | a line that fits is accepted if and only if it ends in the checksum of its body |
| `Sentence.EmptyLineRepeatsVerdict` | lib/network/AsyncTcpServer.cpp:378-401 | whatever was typed, an empty line gets the verdict of the line before it, since the scan starts behind the first cell |
| `Sentence.EmptyLineRejectedIff` | lib/network/AsyncTcpServer.cpp:378-401 | so it is rejected if and only if that line was |
| `Sentence.EmptyLineAccepted` | lib/network/AsyncTcpServer.cpp:378-401 | after an accepted sentence it is accepted |
| `Sentence.NMEA0183Encoder.Start` | lib/N2KHandler/NMEA0183Encoder.cpp:193-201 | the buffer holds the key, cut to the room there is |
| `Sentence.NMEA0183Encoder.Append` | lib/N2KHandler/NMEA0183Encoder.cpp:202-209 | a comma and the field, cut to the room there is, are appended |
| `Sentence.NMEA0183Encoder.End` | lib/N2KHandler/NMEA0183Encoder.cpp:229-244 | the sentence is the text, cut to fit, with the checksum of all but its first character |
| `Sentence.SuffixReads` | lib/N2KHandler/NMEA0183Encoder.cpp:239-243 | the checksum is written as two upper-case hexadecimal digits, the high one first |
| `Sentence.AsyncTcpClient.CheckChecksum` | lib/network/AsyncTcpServer.cpp:378-401 | the loop decides the specified check |
| `Sentence.AsyncTcpClient.ReadInput` | lib/network/AsyncTcpServer.cpp:293-309 | the buffer and the verdicts on the lines are those of the specification |
| `Sentence.ChangeOne` | lib/N2KHandler/NMEA0183Encoder.cpp:229-238 | changing one character changes the checksum |
| `Logbook.NamesOrderAsDates` | lib/logbook/logbook.cpp:75-76 | file names order as the dates they are for |
| `Logbook.SortedSorts` | lib/logbook/logbook.cpp:208-216 | the sort is an ordered permutation |
| `Logbook.Sort` | lib/logbook/logbook.cpp:208-216 | the in-place insertion sort computes it |
| `Logbook.RotateLogFiles` | lib/logbook/logbook.cpp:184-229 | the files deleted are the specified ones, oldest first |
| `Logbook.RotationKeepsNewest` | lib/logbook/logbook.cpp:184-229 | with at most 64 log files exactly the surplus over 14 goes and every deleted file is older than every kept one; 14 are left if and only if there were at most 64 |
| `Logbook.NewestDaysKept` | lib/logbook/logbook.cpp:76-92 | day after day the directory holds exactly the files of the newest 15 days, since the rotation runs before the new file is made |
| `Clock.ElapsedMillis` | lib/jdbbms/jdb_bms.cpp:124-132 | a wrapping difference of the 32-bit clock is the real interval, less whole turns |

## Left out

- BmsStream.ChunkingInvariance: covers streams of accepted replies; error replies (result -4), which stay in the buffer and are judged again on every pass, and corrupt data are part of `BmsFrame.Scan` and `JdbBms.JdbBms.Update` but not of the stream theorem, because neither is consumed as a unit.
- BmsStream.PollingCompletes: bounds the calls by the number of bytes in the stream, which is more than are needed.
- JdbBms.JdbBms.Update: requires room for one byte in the receive buffer, and replies that are stored inside their copies: for register 0x03 exactly that the reply before had less than 64 bytes, or 64 and the count read is at most 20 (`BmsRegisters.FitsIff`). Without these the source writes outside its arrays (lib/jdbbms/jdb_bms.cpp:65, lib/jdbbms/jdb_bms.cpp:224-237), and what it overwrites is not modelled. The stream theorem proves the room from its own assumptions.
- JdbBms.JdbBms.ScanFrames: the same condition on the replies.
- JdbBms.JdbBms.ProcessFrame: the same condition on the reply.
- JdbBms.JdbBms.CopyReg03: the same condition on the reply.
- JdbBms.JdbBms.Read: the same room for one byte.
- BmsDriver.Serve: the same for every call; the requests it sends are those of `JdbBms.JdbBms.Update` and are not repeated.
- BatteryState.WireToClient: the reply before is one that leaves room, of at most 64 bytes; after a longer one the copy writes outside the register.
- JdbBms.JdbBms.SendRequest: the timeout, request and result counters are not modelled, nor is the clock of the last register update.
- BmsSimulator.JBDBmsSimulator.WriteByte: requires room in the reply queue, past whose end the source would store; the register contents are parameters instead of the constants of lib/jdbbms/jdb_bms_sim.cpp:58-98.
- RequestParser.PayloadAnsweredIff: stops at the checksum; what each register is answered with, and factory mode, are not modelled.
- BleServer.BleServer.CollectIdle: the disconnects it asks for arrive as later events; advertising, notifications and LEDs are not modelled.
- SeasmartStreams.SeasmartStream.WriteLine: reads and writes do not overlap; the model does not capture that the reader's task may run between two stores of a line.
- SeasmartStreams.SeasmartStream.Accepts: an empty filter accepts everything, as in the source when `pgns` holds no number; an empty `pgns=` makes `sscanf` return -1, which becomes a huge unsigned count, and the filter is then read past its end (lib/network/httpstream.cpp:77-112); that is not modelled.
- StreamList.WebServer.AddSeasmartResponse: takes a stream that is in no list; the mutex makes each operation one step.
- EngineState.HistoryRefinement: after 2^32 ms without a message it assumes that some poll fell into the time the value was visibly too old; `EngineState.FieldHistory` says what is shown without that assumption.
- EngineBle.FieldRead: values whose product with the scale is outside the sixteen-bit range are not covered, as their conversion is undefined in the source's language; the same for `EngineBle.WordAccurate`.
- NavState.ShownAtPoll: the same assumption about polls, as for `NavState.ShownIsFresh`; the longitude has `NavState.PositionAtPoll` instead, and NaN is not a value of the model.
- NavHandler.LoopPass: the byte layout of the navigation frame (lib/bluetooth/boatwatch_ble.cpp:267-289) is not modelled; the published record stands for it.
- Polar.Performance.CalcPolarSpeed: wind speeds and angles below 256; the conversion to eight bits of anything else is undefined. The unit conversions at its start and `Performance::update` are left out.
- Angles.HeadingRoundTrip: floating-point values are reals and pi is any number within 0.00001 of it, so rounding of doubles is not captured.
- Angles.AutopilotBleState.HandlePGN65360: PGN 65359, which decodes alike, and the mode messages are left out, as are the fixed bytes of the messages sent.
- Sentence.NMEA0183Encoder.Append: requires room for the comma, which the source stores without a check; the formatting of numbers into fields is left out.
- Sentence.SentenceRoundTrip: also speaks of texts of 255 characters and more, which are rejected in the model; the source has then stored past its buffer (`Sentence.StoredInsideIff`). Every accepted sentence is far from it.
- Sentence.AsyncTcpClient.ReadInput: ends at the verdict on a line; the commands in accepted sentences and the PGN filter they set are left out (lib/network/AsyncTcpServer.cpp:314-372).
- Logbook.NewestDaysKept: days are dates in ascending order, and the new file is made whenever the rotation ran; the conversion from seconds to a date, the size limits and the records themselves are left out.
- Parsing of NMEA 2000 messages, which is done by a library; only the parsed values are inputs.
- NimBLE, FreeRTOS, WiFi, UART, SPIFFS and CAN calls: they are the events and parameters of the model.
- HTTP routes, path filters, uploads, configuration, displays, ADC, weather sensor and status pages: input and output without state worth a theorem.
- lib/network/pgnwebsocket.cpp and lib/network/tcpserver.cpp: superseded code.
- Field lists of the NMEA 0183 messages and logging: flat formatting that would add only easy members.
