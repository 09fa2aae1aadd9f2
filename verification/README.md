# Verified model of stdiolink's device protocols and stateful services

A Dafny model of the hard parts of stdiolink, a C++/Qt framework of device drivers: the framed radar
protocols and their CRC-32, the sessions that run long tasks and collect data over them, the Modbus
codecs and their CRC-16, the single-header packer, the key-value demo driver and the server's catalog
and service state. `dafny verify dfyconfig.toml` checks everything.

| file | models |
|---|---|
| `Bytes.dfy`, `Wrappers.dfy` | bytes, big-endian fields, options |
| `Crc32.dfy`, `Crc32Laws.dfy` | the CRC-32 table and loops, and what the CRC guarantees |
| `ReceiveLoop.dfy` | the loop that decodes a growing buffer, over a scripted transport |
| `LidaCodec.dfy`, `LidaSession.dfy`, `LidaTaskMachine.dfy`, `LidaTaskProtocol.dfy` | the 3D laser radar: frames, session, long tasks |
| `Jd3dCodec.dfy`, `Jd3dSession.dfy` | the 3D scan robot: frames without length, scan reassembly |
| `HeaderPacker.dfy` | depth-first include expansion |
| `KvStore.dfy` | the key-value store with time-to-live |
| `Crc16.dfy`, `ModbusData.dfy`, `ThermalScanner.dfy` | Modbus RTU: CRC-16, coils, registers, byte orders, the thermal scanner's reads, writes and captures |
| `DriverRescans.dfy`, `ServerManager.dfy` | concurrent catalog rescans; services and the projects naming them |

How the outside world enters the model:

- A transport is a script: for every request, whether the write succeeds, which chunks arrive and what
  ends the reading. Every script is allowed, so every theorem holds for every behaviour of the link.
- The clock of the key-value store is a pair of readings per command, purge and action.
- Loops with a deadline end when the script runs out.
- Long tasks of the laser radar are also a state machine of client, device and link, in which requests
  may be lost and replies lost, repeated, delayed and reordered. Its device is the one that
  `doc/device/三维激光雷达_控制协议_V10_2.md` describes (lines 32 and 401 to 407): a reset clears the report
  and stops nothing, so a running task may show itself and end after it; a busy device discards a start.
  A task ends once. The device may refuse resets and starts. Requests and replies of an old connection
  do not reach a new one.

What the parsers and sessions accept is stated twice: by specification functions that the methods are
proved against, and in terms of the bytes received (`Carries`, `Brings`, `Shows` and the lemmas named
`...OnWireIff`), which mention no parser. The theorems about waits, collections and reassembly use the
latter.

Where a property does not hold on all inputs, its exact condition is proved:

- `LidaTaskMachine.FreshIffIdleAtReset`: the results of a session are fresh, in every continuation,
  exactly if no task was running when the device took the session's reset. `StaleAfterBusyReset` is a run
  that loses no message and still ends with the result of an earlier session; `WaitingOutIsFresh` gives
  what a client can do about it: give up no session while it polls.
- `LidaCodec.RoundTripIff`: 4 to 65527 payload bytes.
- `Jd3dCodec.RoundTripIff`: no shorter prefix validates itself; `EmbeddedCrcIsCut` is a failing family.
- `HeaderPacker.PacksReachableIff`: exactly the reachable files are expanded if and only if no source set
  aside for the implementation part is itself reachable by includes; `IncludedSourceIsLost` shows the
  loss. `HeaderPacker.DependenciesFirstIff`: no include followed by a copied line leads back.
- `ModbusData.ParseReadBits` and `CoilsFromDataIff`: a read of coils runs past the response exactly if an
  accepted response is shorter than the count needs, and returns bits that are no data exactly if the
  count exceeds the byte count; `ShortReplyIsOverrun` is a failing reply. `ModbusData.ArrayRoundTripIff`
  gives the lengths of register arrays that come back.
- `ThermalScanner.ReadableIff`: 128 to 255 registers can never be read.
- `DriverRescans.SynchronousWinsIff`: when a synchronous rescan keeps its result, which
  `SynchronousMayBeOverwritten` shows it may lose.
- `ServerManager.RunIntactIff`: the runs in which no valid project ever names a missing service;
  `BareRescanMayOrphan` is a rescan that breaks this.

Where code and its own text disagree, the code is modelled: the store treats every `ttlMs` that is not
positive as "never expires", although only 0 is documented; and the laser radar decoder accepts every
length its 16-bit field can express, although the published limit is 1400 bytes.

## Model

| member | source | states |
|---|---|---|
| Crc32.BitStepsInjective | src/drivers/driver_3d_laser_radar/protocol_codec.cpp:44-47 | The CRC-32 register loses nothing: equal registers after n shifts were equal before |
| Crc32.TableEntry | src/drivers/driver_3d_laser_radar/protocol_codec.cpp:9-42 | Each of the 256 table constants is its index at the top of the register after eight shifts |
| Crc32Laws.TableStepIsByteStep | src/drivers/driver_3d_laser_radar/protocol_codec.cpp:44-47 | The table lookup step equals adding a byte and shifting eight times, for every byte and register |
| Crc32Laws.StepWord | src/drivers/driver_3d_scan_robot/protocol_codec.cpp:55-69 | The descending inner loop feeds the four bytes of a word last to first |
| Crc32Laws.Crc32Stm32 | src/drivers/driver_3d_laser_radar/protocol_codec.cpp:63-85 | The loops over words and padded tail compute the reference CRC of every byte string |
| Crc32Laws.CrcIsSerial | src/drivers/driver_3d_scan_robot/protocol_codec.cpp:44-71 | The CRC is the bit-serial division by 0x04C11DB7 of the padded, word-reversed message |
| Crc32Laws.WordStep | src/drivers/driver_3d_scan_robot/protocol_codec.cpp:55-59 | Four bytes fed in reverse are one little-endian word and 32 shifts, as in the STM32 unit |
| Crc32Laws.CrcDetectsWord | src/drivers/driver_3d_laser_radar/protocol_codec.cpp:63-85 | Messages of one length that differ only inside one aligned word have equal CRCs exactly if they are equal |
| Crc32Laws.CrcAffine | src/drivers/driver_3d_laser_radar/protocol_codec.cpp:63-85 | The CRC is affine over XOR of equal-length messages |
| Crc32Laws.OnlyOnesCancel | src/drivers/driver_3d_laser_radar/protocol_codec.cpp:63-85 | Of all words only the one of ones has the CRC 0, since it cancels the initial register |
| Crc32Laws.PaddingIsZeros | src/drivers/driver_3d_laser_radar/protocol_codec.cpp:75-83 | A message has the CRC of itself filled up with zeros to whole words |
| Crc32Laws.KnownValue | src/drivers/driver_3d_scan_robot/protocol_codec.cpp:44-71 | A word of zeros has the CRC the STM32 unit gives it, 0xC704DD7B |
| ReceiveLoop.Receive | src/drivers/driver_3d_laser_radar/laser_session.cpp:46-103 | The receive loop returns what the chunk-by-chunk specification says, including the final attempt |
| ReceiveLoop.ChunkingIndependent | src/drivers/driver_3d_scan_robot/radar_session.cpp:53-111 | For a settled decoder the outcome is a function of all bytes received, not of their split or of how reading ended |
| ReceiveLoop.ReplyIs | src/drivers/driver_3d_laser_radar/laser_session.cpp:46-103 | Every outcome: nothing written or not one byte received is a transport error, bytes that do not decode are a protocol error, otherwise the frame at the start is received |
| LidaCodec.DecodeEncoded | src/drivers/driver_3d_laser_radar/protocol_codec.cpp:114-209 | The exact decode outcome of an encoded frame followed by any bytes: its fields, or the mismatch of address or command |
| LidaCodec.DecodeProperPrefix | src/drivers/driver_3d_laser_radar/protocol_codec.cpp:127-157 | Every proper prefix of an encoded frame is Incomplete, also on the final attempt |
| LidaCodec.ShortPayloadRefused | src/drivers/driver_3d_laser_radar/protocol_codec.cpp:127-157 | A payload of less than 4 bytes is refused as soon as 18 bytes are there |
| LidaCodec.DecodedIsEncoded | src/drivers/driver_3d_laser_radar/protocol_codec.cpp:87-99 | Whatever decodes is, on the consumed bytes, the encoding of the decoded fields |
| LidaCodec.RoundTripIff | src/drivers/driver_3d_laser_radar/protocol_codec.cpp:87-99 | The payload comes back exactly if it has 4 to 65527 bytes |
| LidaCodec.EncodeInjective | src/drivers/driver_3d_laser_radar/protocol_codec.cpp:87-99 | Different fields never encode to the same frame, whatever the payload lengths |
| Bytes.MostSignificantFirst | src/drivers/driver_3d_laser_radar/protocol_codec.cpp:211-230 | All fields are written most significant byte first |
| LidaCodec.CorruptionRefused | src/drivers/driver_3d_laser_radar/protocol_codec.cpp:159-171 | A frame changed inside one aligned body word, its length aside, or only in its CRC field, is never accepted: a damaged magic is refused, anything else is incomplete and at the end a CRC error |
| LidaSession.DecoderSettled | src/drivers/driver_3d_laser_radar/protocol_codec.cpp:114-209 | Appending bytes changes no outcome but Incomplete, and the final attempt accepts nothing new |
| LidaSession.ReplyIgnoresChunking | src/drivers/driver_3d_laser_radar/laser_session.cpp:46-94 | Two ways of receiving the same bytes give the same reply |
| LidaSession.QueryOverWire | src/drivers/driver_3d_laser_radar/laser_session.cpp:235-256 | A device report sent in any chunks, with anything after it, is the report the query returns |
| LidaSession.SegmentOverWire | src/drivers/driver_3d_laser_radar/laser_session.cpp:288-328 | The same for a data segment of the requested index |
| LidaSession.FrameOnWireIff | src/drivers/driver_3d_laser_radar/laser_session.cpp:46-103 | A frame with this payload is received exactly if its encoding starts the stream; a transport error means exactly that nothing was written or received |
| LidaSession.QueryOnWireIff | src/drivers/driver_3d_laser_radar/laser_session.cpp:235-256 | A query returns a report exactly if its bytes were received |
| LidaSession.ParseQueryIff | src/drivers/driver_3d_laser_radar/protocol_codec.cpp:276-287 | Reports are exactly the payloads of 11 bytes with the four fields in this order |
| LidaSession.SegmentOnWireIff | src/drivers/driver_3d_laser_radar/laser_session.cpp:288-328 | A segment is read exactly if it is the one asked for and its bytes were received |
| LidaSession.ParseSegmentIff | src/drivers/driver_3d_laser_radar/protocol_codec.cpp:289-307 | Segments are exactly the payloads with index, count, length and data of that length |
| LidaSession.LaunchIs | src/drivers/driver_3d_laser_radar/laser_session.cpp:127-146 | A start is taken exactly if it is met with silence until a timeout; any chunk is a protocol error |
| LidaSession.WaitOnWire | src/drivers/driver_3d_laser_radar/laser_session.cpp:330-378 | In terms of the wire: lost polls, other tasks and running reports are polled on; the first end of the task is returned; garbled bytes and the deadline are protocol errors |
| LidaSession.TransferOnWire | src/drivers/driver_3d_laser_radar/laser_session.cpp:380-429 | Segments received in order, each telling their number, are a transfer, and its data is theirs joined |
| LidaSession.LaserSession.ReserveCounter | src/drivers/driver_3d_laser_radar/laser_session.cpp:26-30 | Returns the counter and moves it on by one, wrapping at 16 bits |
| LidaSession.LaserSession.SendAndReceive | src/drivers/driver_3d_laser_radar/laser_session.cpp:32-104 | Writes exactly one frame with the next counter and returns the decoded reply or the error kind |
| LidaSession.LaserSession.SendExpectNoImmediateResponse | src/drivers/driver_3d_laser_radar/laser_session.cpp:106-147 | Silence until the timeout is success with the counter used; data or a failed read is an error |
| LidaSession.LaserSession.Query | src/drivers/driver_3d_laser_radar/laser_session.cpp:235-256 | Sends the query operation and returns the parsed report |
| LidaSession.LaserSession.ReadSegment | src/drivers/driver_3d_laser_radar/laser_session.cpp:288-328 | Asks for a segment and refuses a reply about another one |
| LidaSession.LaserSession.WaitTaskCompleted | src/drivers/driver_3d_laser_radar/laser_session.cpp:330-378 | Ends at the first conclusive poll or the deadline; every frame written is a plain read with the next counter |
| LidaSession.LaserSession.CollectAllSegments | src/drivers/driver_3d_laser_radar/laser_session.cpp:380-429 | Succeeds exactly if segments 0 to n-1 of the same n > 0 are received; returns their data in order; the index never wraps |
| LidaTaskProtocol.RunLongTask | src/drivers/driver_3d_laser_radar/handler.cpp:737-777 | Writes the command only after a confirmed reset and polls only after a silent start; returns the outcome of the wait |
| LidaTaskProtocol.TaskOnWireIff | src/drivers/driver_3d_laser_radar/handler.cpp:737-777 | In terms of the wire: the sequence returns a report after k+1 polls exactly if the cleared report confirms the reset, the start is met with silence, k polls leave the question open and the next brings that end of the task; a start answered with data is a protocol error |
| LidaTaskProtocol.FramesOnWire | src/drivers/driver_3d_laser_radar/handler.cpp:333-347 | The frames written: the reset, the start only after a confirmed reset, polls only after silence |
| LidaTaskProtocol.PollFrameAt | src/drivers/driver_3d_laser_radar/laser_session.cpp:235-240 | Poll i is a read of the query state with the i-th counter after the first |
| LidaTaskProtocol.RequestBytes | src/drivers/driver_3d_laser_radar/protocol_codec.cpp:87-99 | The bytes of a reset, a poll and a segment request up to their CRC |
| LidaTaskMachine.InvStep | src/drivers/driver_3d_laser_radar/handler.cpp:665-691 | Every step of client, device and link keeps the protocol invariant |
| LidaTaskMachine.ResultIsFresh | src/drivers/driver_3d_laser_radar/laser_session.cpp:330-378 | In every run an accepted result belongs to a launch of the session still open; if the device was idle at that session's reset, the device set it as the end of that very task, after the launch |
| LidaTaskMachine.FreshIffIdleAtReset | src/drivers/driver_3d_laser_radar/handler.cpp:333-347 | From a confirmed reset on, every result of the session is fresh in every continuation exactly if no task was running when the device took the reset |
| LidaTaskMachine.WaitingOutIsFresh | src/drivers/driver_3d_laser_radar/handler.cpp:665-691 | If no session is given up or replaced while it polls, every accepted result is fresh |
| LidaTaskMachine.StaleAfterBusyReset | src/drivers/driver_3d_laser_radar/handler.cpp:333-347 | With the handshake and without any loss a run exists in which the result of an abandoned session is accepted: the reset does not stop its task, and the busy device discards the new start |
| LidaTaskMachine.FreshResultExists | src/drivers/driver_3d_laser_radar/handler.cpp:665-691 | With the handshake a fresh result is reached |
| LidaTaskMachine.StaleWithoutReset | src/drivers/driver_3d_laser_radar/handler.cpp:333-347 | Without the reset a run exists in which the result of a session that has long ended is accepted |
| LidaTaskProtocol.SuccessIsFresh | src/drivers/driver_3d_laser_radar/handler.cpp:737-777 | A report returned by the handler's sequence is the end of the task it launched, in every run whose replies are those of its script, if the device was idle at the reset |
| Jd3dCodec.TryDecode | src/drivers/driver_3d_scan_robot/protocol_codec.cpp:117-209 | The length search returns what the decoder specification says |
| Jd3dCodec.DecodesLeast | src/drivers/driver_3d_scan_robot/protocol_codec.cpp:173-208 | Once the header passes, the frame is exactly the least self-validating prefix of at least 16 bytes |
| Jd3dCodec.RoundTripIff | src/drivers/driver_3d_scan_robot/protocol_codec.cpp:75-100 | An encoded frame decodes to its fields exactly if the payload has 4 bytes or more and no shorter prefix validates itself |
| Jd3dCodec.DecodeEncoded | src/drivers/driver_3d_scan_robot/protocol_codec.cpp:137-171 | The exact outcome of an unambiguous frame for every expectation: another channel, address or command is refused by name |
| Jd3dCodec.DecodedIsExpected | src/drivers/driver_3d_scan_robot/protocol_codec.cpp:117-209 | Whatever is accepted has the magic of the channel, the address and the command asked for, and its own CRC |
| Jd3dCodec.OtherMagicRefused | src/drivers/driver_3d_scan_robot/protocol_codec.cpp:133-141 | Bytes that start with neither magic are refused whatever is expected |
| Jd3dCodec.EncodedBytes | src/drivers/driver_3d_scan_robot/protocol_codec.cpp:75-100 | A frame up to its CRC, byte by byte |
| Jd3dCodec.ShortestAlwaysRoundTrips | src/drivers/driver_3d_scan_robot/protocol_codec.cpp:173-208 | No shorter prefix can validate itself when the payload has 4 bytes |
| Jd3dCodec.EmbeddedCrcIsCut | src/drivers/driver_3d_scan_robot/protocol_codec.cpp:173-208 | A payload that contains the CRC of its own beginning is ambiguous |
| Jd3dCodec.DecoderSettled | src/drivers/driver_3d_scan_robot/protocol_codec.cpp:117-209 | Appending bytes changes no outcome but Incomplete, and the final attempt accepts nothing new |
| Jd3dSession.ReplyIgnoresChunking | src/drivers/driver_3d_scan_robot/radar_session.cpp:53-102 | Two ways of receiving the same bytes give the same reply |
| Jd3dSession.FrameOnWireIff | src/drivers/driver_3d_scan_robot/radar_session.cpp:53-102 | A payload is received exactly if the shortest self-validating start of the stream carries it with the right magic, address and command |
| Jd3dSession.ParseSegmentIff | src/drivers/driver_3d_scan_robot/protocol_codec.cpp:271-280 | Segments are exactly the payloads with index, length and at least that many bytes, which are the data |
| Jd3dSession.SegmentOnWireIff | src/drivers/driver_3d_scan_robot/radar_session.cpp:206-232 | A segment is taken exactly if its bytes were received under its own index |
| Jd3dSession.EncodedBrings | src/drivers/driver_3d_scan_robot/radar_session.cpp:53-102 | An unambiguous frame of the device, in any chunks and with anything after it, is received |
| Jd3dSession.SizeOnWireIff | src/drivers/driver_3d_scan_robot/radar_session.cpp:162-180 | The segment size is read exactly if register 15 was received, as its value cut to 16 bits |
| Jd3dSession.ConclusiveOnWireIff | src/drivers/driver_3d_scan_robot/radar_session.cpp:132-151 | A poll ends the wait exactly if a report on the task with a result other than 0 was received |
| Jd3dSession.RadarSession.SendAndReceive | src/drivers/driver_3d_scan_robot/radar_session.cpp:36-112 | Writes one frame with the counter of its channel, wrapping at 8 bits, and returns the decoded reply |
| Jd3dSession.RadarSession.WaitTaskCompleted | src/drivers/driver_3d_scan_robot/radar_session.cpp:114-160 | Ends at the first poll that names the task and reports an end, or when the time is up without one; every other poll, lost or about another task or still running, is repeated |
| Jd3dSession.RadarSession.ReadSegmentSize | src/drivers/driver_3d_scan_robot/radar_session.cpp:162-180 | Returns the segment size register cut to 16 bits, if the reply is about it |
| Jd3dSession.FetchIff | src/drivers/driver_3d_scan_robot/radar_session.cpp:206-232 | A segment is fetched exactly if one of the first attempts delivers it; the first such reply counts |
| Jd3dSession.RadarSession.FetchSegment | src/drivers/driver_3d_scan_robot/radar_session.cpp:206-232 | The retry loop makes at most five requests for the segment |
| Jd3dSession.CopySegment | src/drivers/driver_3d_scan_robot/radar_session.cpp:226-229 | The copy into the preallocated buffer stays in bounds and changes only the segment's place |
| Jd3dSession.RadarSession.CollectScanData | src/drivers/driver_3d_scan_robot/radar_session.cpp:182-245 | Refuses invalid segment sizes; otherwise fills the buffer segment by segment, in bounds, and fails if a segment is never delivered; a success with a truthful device is its scan |
| Jd3dSession.CountBounds | src/drivers/driver_3d_scan_robot/radar_session.cpp:195-202 | The segment count is the ceiling: segment i is asked for exactly if its offset lies inside the scan |
| Jd3dSession.ScanReassembled | src/drivers/driver_3d_scan_robot/radar_session.cpp:198-244 | If the bytes the device sends tell the truth about the segments they name, a successful collection is the scan, with any losses, delays and repetitions |
| Jd3dSession.ScanArrives | src/drivers/driver_3d_scan_robot/radar_session.cpp:198-244 | If the replies also arrive in turn, the collection succeeds with the scan |
| HeaderPacker.StripUndoesGuard | tools/pack_single_header.py:105-152 | Stripping undoes wrapping in an include guard, blank lines around it included |
| HeaderPacker.StripsOnlyGuards | tools/pack_single_header.py:105-152 | A file is changed exactly if it has an include guard, and loses exactly its three lines |
| HeaderPacker.WithoutGuard | tools/pack_single_header.py:119-148 | Each way not to have a guard leaves the file as it is |
| HeaderPacker.OnlyPragmasGo | tools/pack_single_header.py:164-165 | Removing #pragma once keeps exactly the other lines, in order |
| HeaderPacker.PragmaBeforeGuard | tools/pack_single_header.py:164-167 | A guard behind a #pragma once is still removed |
| HeaderPacker.PacksOnce | tools/pack_single_header.py:154-187 | On every include graph each copied line of each expanded file appears once, in file order; what an expanded file includes is expanded or set aside as a source, and each source is set aside at most once |
| HeaderPacker.PacksReachableIff | tools/pack_single_header.py:173-187 | The expanded files are exactly the reachable ones if and only if no source set aside is reachable |
| HeaderPacker.PacksReachableOnce | tools/pack_single_header.py:154-187 | If no reachable file is the source of another, exactly the reachable files are expanded, cycles or not |
| HeaderPacker.IncludedSourceIsLost | tools/pack_single_header.py:183-187 | A graph in which a reachable source is set aside and its lines appear nowhere in the expansion |
| HeaderPacker.DependenciesFirstIff | tools/pack_single_header.py:169-181 | Unless sources are included, everything a file includes precedes the lines after that include exactly if no such include leads back to the file |
| HeaderPacker.PacksDependenciesFirst | tools/pack_single_header.py:169-181 | On such an acyclic graph it always does |
| HeaderPacker.SingleHeaderPacker.Expand | tools/pack_single_header.py:154-187 | The recursive method terminates on every graph and extends its fields by exactly one expansion |
| HeaderPacker.SingleHeaderPacker.ProcessEntry | tools/pack_single_header.py:49-51 | The fields hold the lines of the expanded files once, with the exact conditions for all reachable files and for the order |
| KvStore.LazyStoreIsTimedMap | src/demo/kv_store_driver/main.cpp:211-225 | After any history with a non-decreasing clock, the purged store is the timed map that the history defines: the last sets still in force |
| KvStore.TimedMapUnique | src/demo/kv_store_driver/main.cpp:127-138 | A history defines only one timed map |
| KvStore.KvStoreHandler.PurgeExpired | src/demo/kv_store_driver/main.cpp:211-225 | Collecting and then removing the expired keys is a filter of the map |
| KvStore.KvStoreHandler.HandleList | src/demo/kv_store_driver/main.cpp:169-185 | One event for every key with the prefix and none besides, and their count |
| KvStore.KvStoreHandler.HandleStats | src/demo/kv_store_driver/main.cpp:187-202 | The number of keys and the largest age |
| KvStore.KvStoreHandler.Dispatch | src/demo/kv_store_driver/main.cpp:46-60 | Each command answers for the purged store and changes it as stated |
| KvStore.KvStoreHandler.Handle | src/demo/kv_store_driver/main.cpp:40-61 | Every answer is the one an eager timed map of all earlier commands would give |
| KvStore.AnswersTellHistory | src/demo/kv_store_driver/main.cpp:139-202 | What get, delete and list answer, said of the history alone |
| Crc16.TableEntry | src/drivers/driver_modbusrtu/modbus_rtu_client.cpp:8-41 | Each of the 256 table constants is its index after eight shifts |
| Crc16.TableStepIsByteStep | src/drivers/driver_3d_temp_scanner/protocol_codec.cpp:133-136 | The table lookup step equals section 6.2.2 of MODBUS over Serial Line V1.02 |
| Crc16.CalculateCrc16 | src/drivers/driver_modbusrtu/modbus_rtu_client.cpp:43-51 | The loop computes the reference CRC of every byte string |
| Crc16.KnownValues | src/drivers/driver_modbusrtu/modbus_rtu_client.cpp:43-51 | The CRC of no bytes, and the example of section 6.2.2 of MODBUS over Serial Line V1.02 |
| Crc16.VerifyIffResidueZero | src/drivers/driver_modbusrtu/modbus_rtu_client.cpp:91-102 | A frame of at least four bytes verifies exactly if the CRC of the whole frame is 0 |
| Crc16.RequestVerifies | src/drivers/driver_modbusrtu_serial/modbus_rtu_serial_client.cpp:108-117 | Every built request verifies |
| Crc16.AdjacentPairDetected | src/drivers/driver_modbusrtu/modbus_rtu_client.cpp:91-102 | Two frames of one length that differ only in two adjacent bytes cannot both verify |
| ModbusData.PackCoils | src/drivers/driver_modbusrtu/modbus_rtu_client.cpp:428-437 | The in-place loop sets exactly the bits of the coils; padding bits are 0 |
| ModbusData.PackingUnique | src/drivers/driver_modbusrtu_serial/modbus_rtu_serial_client.cpp:304-310 | The coils determine every packed byte |
| ModbusData.ParseReadBits | src/drivers/driver_modbusrtu/modbus_rtu_client.cpp:158-186 | Refuses short responses; reads past the end exactly if an accepted response is shorter than the count needs; otherwise returns the requested bits, low bit first |
| ModbusData.OnlyWholeRepliesAccepted | src/drivers/driver_modbusrtu/modbus_rtu_client.cpp:165-176 | Of a reply with data only the whole frame is accepted, and no shorter start of it |
| ModbusData.CoilsFromDataIff | src/drivers/driver_modbusrtu/modbus_rtu_client.cpp:170-183 | The coils are determined by the header and data bytes exactly if the count is at most eight times the byte count |
| ModbusData.ShortReplyIsOverrun | src/drivers/driver_modbusrtu/modbus_rtu_client.cpp:178-183 | A verified response with one data byte makes a read of 25 coils run past its end |
| ModbusData.CoilsReadBack | src/drivers/driver_modbusrtu_serial/modbus_rtu_serial_client.cpp:197-211 | Packed coils of any number read back as they were, whatever follows them |
| ModbusData.CoilRoundTrip | src/drivers/driver_modbusrtu/modbus_rtu_client.cpp:158-186 | Packing coils into a reply and parsing it returns them |
| ModbusData.ExcessCoilsAreCrcBits | src/drivers/driver_modbusrtu/modbus_rtu_client.cpp:178-183 | The first sixteen coils beyond the data of a reply are the bits of its CRC, and there is no byte for any further one |
| ModbusData.Registers32Inverse | src/drivers/driver_modbusrtu/modbus_types.cpp:165-191 | In all four byte orders splitting and combining 32-bit values are inverse |
| ModbusData.Registers64Inverse | src/drivers/driver_modbusrtu/modbus_types.cpp:193-209 | The same for 64-bit values |
| ModbusData.Orders32 | src/drivers/driver_modbusrtu/modbus_types.cpp:90-109 | Where each order puts the four bytes of a value |
| ModbusData.Orders64 | src/drivers/driver_modbusrtu/modbus_types.cpp:129-144 | Which half of a 64-bit value comes first in each order |
| ModbusData.RegistersToJson | src/drivers/driver_modbusrtu_serial/handler.cpp:119-139 | The loop decodes the registers value by value |
| ModbusData.ArrayRoundTripIff | src/drivers/driver_modbusrtu_serial/handler.cpp:158-169 | Decoding and re-encoding a register array restores it exactly if its length is a multiple of the type's registers |
| ModbusData.ValuesRoundTrip | src/drivers/driver_modbusrtu/modbus_types.cpp:211-257 | Values written to registers decode to themselves |
| ThermalScanner.TransactIsPrefix | src/drivers/driver_3d_temp_scanner/thermal_session.cpp:38-81 | For every chunking the frame is the same prefix: 5 bytes for an exception, the expected size otherwise, and nothing for other headers |
| ThermalScanner.ParseReadHolding | src/drivers/driver_3d_temp_scanner/protocol_codec.cpp:151-208 | The register loop and the checks before it compute the parse specification |
| ThermalScanner.ReplyParses | src/drivers/driver_3d_temp_scanner/protocol_codec.cpp:181-207 | A well-formed reply parses to exactly the registers sent |
| ThermalScanner.ParseReadIff | src/drivers/driver_3d_temp_scanner/protocol_codec.cpp:151-208 | Registers are read exactly from the reply that carries them: address, count, length and CRC right |
| ThermalScanner.ReplyBytes | src/drivers/driver_3d_temp_scanner/protocol_codec.cpp:197-207 | The bytes of a reply with one register, and the temperatures of two raw values |
| ThermalScanner.FaultsNamed | src/drivers/driver_3d_temp_scanner/protocol_codec.cpp:53-97 | A wrong CRC, a foreign address, an exception and another function are each reported as such |
| ThermalScanner.MiddleCountsRefused | src/drivers/driver_3d_temp_scanner/protocol_codec.cpp:181-195 | 128 to 255 registers are refused in every frame |
| ThermalScanner.ReadableIff | src/drivers/driver_3d_temp_scanner/protocol_codec.cpp:181-195 | Some frame is accepted for a count exactly if it is at most 127 or more than 255 |
| ThermalScanner.ReadRegisters | src/drivers/driver_3d_temp_scanner/thermal_session.cpp:114-134 | Sends the read request and returns the registers of the reply, or nothing |
| ThermalScanner.ReadOverWire | src/drivers/driver_3d_temp_scanner/thermal_session.cpp:114-134 | Registers sent in any chunks are the registers read |
| ThermalScanner.ReadOnWireIff | src/drivers/driver_3d_temp_scanner/thermal_session.cpp:114-134 | A read succeeds exactly if the stream starts with the reply that carries these registers |
| ThermalScanner.WriteAcceptedIffEcho | src/drivers/driver_3d_temp_scanner/protocol_codec.cpp:210-250 | A write is accepted exactly if the response repeats the request byte for byte |
| ThermalScanner.WriteSingleRegister | src/drivers/driver_3d_temp_scanner/thermal_session.cpp:95-112 | Sends the write request and succeeds exactly on an accepted response |
| ThermalScanner.WriteOnWireIff | src/drivers/driver_3d_temp_scanner/thermal_session.cpp:95-112 | A write succeeds exactly if the stream starts with the request itself |
| ThermalScanner.CaptureRequestBytes | src/drivers/driver_3d_temp_scanner/protocol_codec.cpp:112-121 | The bytes of the request that starts a capture |
| ThermalScanner.Summarize | src/drivers/driver_3d_temp_scanner/thermal_session.cpp:191-205 | Every pixel's temperature, and the lowest and highest of them |
| ThermalScanner.CapturedOnWireIff | src/drivers/driver_3d_temp_scanner/thermal_session.cpp:136-172 | A capture counts as done exactly if the start is echoed, every earlier poll shows a state other than success and failure, and the next shows success |
| ThermalScanner.Capture | src/drivers/driver_3d_temp_scanner/thermal_session.cpp:136-213 | An image is returned exactly if the start is accepted, the first poll that does not say "still capturing" comes in time and says success, and the image read after it succeeds; it has 768 values and their exact range |
| DriverRescans.DriverCatalog.RescanAsync | src/stdiolink_server/server_manager.cpp:288-301 | A request takes the next number; a missing directory clears the catalog at once |
| DriverRescans.DriverCatalog.ScanFinished | src/stdiolink_server/server_manager.cpp:305-312 | A finished scan is applied only if it is the newest request |
| DriverRescans.AppliedNeverDecreases | src/stdiolink_server/server_manager.cpp:305-312 | In every interleaving, synchronous rescans included, the number of the applied result never goes down |
| DriverRescans.LastRequestWins | src/stdiolink_server/server_manager.cpp:288-313 | Once no scan runs, the catalog is the outcome of the last request, whatever the order of completion and whatever came before it |
| DriverRescans.SynchronousWinsIff | src/stdiolink_server/server_manager.cpp:275-286 | Once no scan runs, the catalog is the result of the last synchronous rescan exactly if at its call the newest request's scan was not running or delivers the same |
| DriverRescans.SynchronousMayBeOverwritten | src/stdiolink_server/server_manager.cpp:275-286 | A run in which an earlier scan replaces a synchronous result |
| ServerManager.ServicesConserved | src/stdiolink_server/server_manager.cpp:323-348 | Added, updated and unchanged services are the new ones; removed, updated and unchanged the old ones |
| ServerManager.ValidatedIff | src/stdiolink_server/manager/project_manager.cpp:250-276 | A project becomes valid exactly if its service exists and accepts its config, which is then the merged one; otherwise its config stays |
| ServerManager.UnchangedIff | src/stdiolink_server/server_manager.cpp:331-340 | A service counts as unchanged exactly if nothing known of it differs |
| ServerManager.ServerManager.CountPresent | src/stdiolink_server/server_manager.cpp:323-342 | The counting loop counts the added, changed and unchanged services |
| ServerManager.ServerManager.CountRemoved | src/stdiolink_server/server_manager.cpp:344-348 | The second loop counts the removed services |
| ServerManager.ServerManager.Revalidate | src/stdiolink_server/server_manager.cpp:350-376 | Every project is validated once; the counters and the list of invalid ids are exact |
| ServerManager.ServerManager.RescanServices | src/stdiolink_server/server_manager.cpp:315-384 | Counts are conserved; references that held before hold afterwards exactly if projects are revalidated or no valid project names a service that disappears |
| ServerManager.ServerManager.CreateService | src/stdiolink_server/server_manager.cpp:386-478 | Succeeds exactly if all checks pass; adds at most one service and breaks no reference |
| ServerManager.ServerManager.DeleteService | src/stdiolink_server/server_manager.cpp:480-521 | Refused while referred to unless forced; forcing invalidates first; no valid project is left without its service |
| ServerManager.ServerManager.ReloadService | src/stdiolink_server/server_manager.cpp:523-541 | Replaces a known service and changes no reference |
| ServerManager.RunIntactIff | src/stdiolink_server/server_manager.cpp:315-541 | In every run of creates, deletes, reloads and rescans no valid project ever names a missing service, exactly if no bare rescan drops a service that a valid project names |
| ServerManager.BareRescanMayOrphan | src/stdiolink_server/server_manager.cpp:350-376 | A rescan without revalidation that leaves a valid project without its service |

## Left out

- Sockets, serial ports, timers, sleeps and files: replaced by scripts of chunks and by parameters.
- Error texts, command dispatch, parameter reading and metadata of the drivers.
- LidaTaskProtocol.RunLongTask: the interpretation of the final result code and the collection that follows a scan are not part of the method.
- LidaTaskMachine.ResultIsFresh: a start that is answered with data ends the session in the code; in the machine the client may go on polling, which allows more runs.
- The laser session's register access and cancel, and the scan robot's command sequences: the same exchanges with other payload checks.
- LidaCodec.DecodeEncoded: the expected address and command are optional bytes instead of integers whose negative values mean "any".
- Jd3dCodec.TryDecode: header fields that the code stores in its out-parameter before a failed search are not modelled.
- LidaSession.LaserSession.CollectAllSegments: the count of segments wraps as a 32-bit int where C++ leaves its overflow undefined.
- HeaderPacker.SingleHeaderPacker.Expand: lines arrive classified and includes resolved, so regular expressions and path lookup are not modelled; every file that an include resolves to can be read.
- HeaderPacker.DependenciesFirstIff: stated for graphs in which no reachable file is the source of another reachable file; for the others only the condition and an example of the loss are given.
- The packer's output file: guard lines, the implementation section and the squeezing of blank lines.
- KvStore.KvStoreHandler.HandleList: the order of the events is that of a hash, so any order.
- ModbusData.RegistersToJson: values are bit patterns; sign, float value and JSON number formatting are not modelled.
- The Modbus TCP client's receive loop and the check of write replies.
- ModbusData.ParseReadBits: what the code reads past the end of a response is not modelled, only that it does.
- ThermalScanner.Capture: temperatures are reals, so rounding of doubles is not modelled; the scan timeout is a number of polls.
- ServerManager.ServerManager.DeleteService: stopping schedules and instances is not modelled; file operations are parameters.
