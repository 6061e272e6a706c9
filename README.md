# UHF Prime reader client: wire protocol engine in Dafny

This project models the protocol core of `UhfPrime.Client`, a client for UHF
RFID readers that speak the "UHF Prime" binary protocol over TCP. The model
covers these parts:

- **Frame codec.** Every frame is laid out as
  `CF | address | command (2 bytes, big-endian) | length L | L bytes | CRC (2 bytes, big-endian)`.
  The CRC is the reflected CCITT CRC-16 (polynomial 0x8408, preset 0xFFFF,
  no final XOR) over everything before it.
  - Outbound, the L bytes are the request payload.
  - Inbound, the first of the L bytes is a status byte and the rest are the
    payload.
  - The receiver discards bytes until it sees a 0xCF head byte. It then
    reads 4 + L + 2 more bytes. A frame whose CRC does not match is traced
    and dropped.
- **Waiter registry.** A map from command code to a FIFO queue of waiters.
  - A request registers a waiter before it is sent.
  - An inbound frame settles the oldest still-pending waiter of its command,
    skipping waiters that were cancelled.
  - A frame no waiter takes is "unsolicited". An `INVENTORY_ISO_CONTINUE`
    frame with status 0 raises a tag report.
  - Disconnecting cancels every queued waiter and empties the registry.
- **Fixed-layout payloads.**
  - The 25-byte parameter record of `GET_ALL_PARAM` / `SET_ALL_PARAM`.
  - The 5-byte inventory request.
  - The 2-byte relay payload.
- **The inventory tag-report parser.**
  - Bytes 0 and 1 hold a signed RSSI word, byte 2 the antenna and byte 3 the
    channel.
  - The EPC is located by an explicit length byte at offset 4 or, failing
    that, by the PC word at offsets 4 and 5.
  - The EPC is rendered as upper-case hex.

The client object (`ReaderSession.ReaderClient`) is a class whose methods
update its fields in place, as the C# object does:

- `connected` stands for the open stream, and `address` for the reader
  address.
- `inbound` holds the bytes the reader will still send. `outbound` holds the
  frames written so far.
- The waiter dictionary is a `map` field. Each waiter's outcome is kept in a
  `states` map keyed by a waiter id.
- The trace and notification events raised so far are kept in two sequence
  fields.
- The request operations return the id of the waiter they registered.
  `ReaderSession.ParametersReply` and `ReaderSession.StatusReply` give what
  the awaiting caller receives once that waiter is settled.

Modules, one per file:

| file | module | contents |
|---|---|---|
| `wrappers.dfy` | `Wrappers` | `Option`, `Result` |
| `bytes.dfy` | `Bytes` | big-endian 16/32-bit words, signed 16-bit reads |
| `crc16.dfy` | `Crc16` | the CRC as a fold and as the nested loop of `Crc16.Compute` |
| `commands.dfy` | `Commands` | the command codes |
| `frames.dfy` | `Frames` | the parsed frame |
| `codec.dfy` | `FrameCodec` | `Encode`, `Parse`, `Decode` and the framing lemmas |
| `parameters.dfy` | `ReaderParameters` | the 25-byte parameter record |
| `inventory.dfy` | `InventoryRequests` | the 5-byte inventory request |
| `tagreport.dfy` | `TagReports` | the tag-report parser and hex rendering |
| `waiters.dfy` | `WaiterQueues` | the waiter registry as values, with its lemmas |
| `session.dfy` | `ReaderSession` | the client class: send, receive, dispatch, connect, disconnect, operations |
| `legacy.dfy` | `LegacyFrames` | the three fixed frames of the older `ChafonCF69xRfidAdapter` driver |
| `scenarios.dfy` | `ClientScenarios` | whole request/reply cycles on a fresh client |

Behaviour of the code worth knowing when reading the model:

- **The EPC length comes from the PC word.** Without an explicit length
  byte, the EPC length in words is the top five bits of the PC word, so a
  12-byte EPC needs PC = 0x3000 (byte 4 = 0x30, byte 5 = 0x00).
  `TagReports.PcWordSample` uses 30 00 and an 18-byte payload.
- **`GetAllParametersAsync` ignores the status byte.** It reads the reply
  payload as a parameter record whatever the status is
  (`src/UhfPrime.Client/UhfPrimeReaderClient.cs:92-96`).
  `ReaderSession.ParametersReply` does the same. `SetAllParametersAsync`,
  `StopInventoryAsync` and `PulseRelayAsync` do check the status
  (`ReaderSession.StatusReply`).
- **The older driver opens the relay with a different payload.**
  - Its `OPEN_RELAY_COMMAND` carries 01 00, while `PulseRelayAsync(false)`
    sends 02 01 (`LegacyFrames.OpenRelayFrame`).
  - Its `CLOSE_RELAY_COMMAND` is byte for byte the frame that
    `PulseRelayAsync(true)` sends to address 0xFF
    (`LegacyFrames.CloseRelayFrame`).
  - Its `GET_PARAMS_COMMAND` is a `GET_DEVICE_INFO` (0x70) request, not a
    `GET_ALL_PARAM` (0x72) request.

## Model

| member | source | states |
|---|---|---|
| Bytes.SplitJoin16 | src/UhfPrime.Client/UhfPrimeReaderClient.cs:244-247 | joining the two bytes a big-endian write emits gives the word back |
| Bytes.BigEndianBytes32 | src/UhfPrime.Client/Protocol/InventoryRequest.cs:17 | the four bytes of a 32-bit big-endian write read back as the same word |
| Bytes.BigEndian32RoundTrip | src/UhfPrime.Client/Protocol/InventoryRequest.cs:17 | four bytes read as a word and written again are the same four bytes |
| Bytes.ByteOf | src/UhfPrime.Client/UhfPrimeReaderClient.cs:349 | the length byte of a payload of at most 255 bytes has that length as its value |
| Bytes.SignedBigEndian16 | src/UhfPrime.Client/TagReport.cs:23 | a signed 16-bit big-endian read: words with the top bit set are negative, in -32768..32767 |
| Crc16.Compute | src/UhfPrime.Client/Protocol/Crc16.cs:9-27 | the nested byte/bit loop returns the fold `Crc` of its input |
| Crc16.ContinueAppend | src/UhfPrime.Client/Protocol/Crc16.cs:12-24 | the register after a concatenation is the register after the first part, continued over the second |
| Crc16.CrcAppend | src/UhfPrime.Client/Protocol/Crc16.cs:11-26 | CRC of a concatenation continues from the CRC of its first part |
| Crc16.CrcEmpty | src/UhfPrime.Client/Protocol/Crc16.cs:11 | the CRC of no bytes is the preset 0xFFFF (no final XOR) |
| Crc16.ShiftEight | src/UhfPrime.Client/Protocol/Crc16.cs:15-23 | eight steps of the inner loop, written out |
| Crc16.ContinueSnoc | src/UhfPrime.Client/Protocol/Crc16.cs:12-24 | one more input byte is XORed into the register and shifted eight times |
| Crc16.CrcSnoc | src/UhfPrime.Client/Protocol/Crc16.cs:14-23 | the CRC after one more byte, as eight explicit shifts of the previous CRC XOR the byte |
| Crc16.Crc | src/UhfPrime.Client/Protocol/Crc16.cs:9-27 | the CRC as a left fold of the per-byte update over the register preset to 0xFFFF; Compute is proved to return it |
| Crc16.ShiftInjective | src/UhfPrime.Client/Protocol/Crc16.cs:17-22 | one step of the inner loop is one-to-one: two different registers stay different |
| Crc16.ShiftEightInjective | src/UhfPrime.Client/Protocol/Crc16.cs:15-23 | the eight steps a byte takes are one-to-one |
| Crc16.UpdateByteInjective | src/UhfPrime.Client/Protocol/Crc16.cs:12-24 | one byte fed to two different registers leaves them different |
| Crc16.UpdateByteDistinguishes | src/UhfPrime.Client/Protocol/Crc16.cs:12-24 | two different bytes fed to one register give different registers |
| Crc16.ContinueInjective | src/UhfPrime.Client/Protocol/Crc16.cs:12-24 | two different registers fed the same bytes stay different |
| Crc16.ErrorChangesCrc | src/UhfPrime.Client/Protocol/Crc16.cs:9-27 | XORing any non-zero pattern into any one byte of the input changes the CRC |
| Commands.Code | src/UhfPrime.Client/Protocol/UhfPrimeCommand.cs:8-18 | every command code is non-zero and fits in one byte |
| Commands.FromCode | src/UhfPrime.Client/Protocol/UhfPrimeCommand.cs:8-18 | a code maps back to the command that has it, and only known codes do |
| Commands.CodeRoundTrip | src/UhfPrime.Client/Protocol/UhfPrimeCommand.cs:8-18 | FromCode inverts Code |
| Commands.CodesDistinct | src/UhfPrime.Client/Protocol/UhfPrimeCommand.cs:8-18 | two different commands never share a code |
| FrameCodec.Encode | src/UhfPrime.Client/UhfPrimeReaderClient.cs:344-356 | the frame is 7 + n bytes: head, address, big-endian command, length, payload, and a CRC that matches |
| FrameCodec.SealMatches | src/UhfPrime.Client/UhfPrimeReaderClient.cs:355-356 | appending the big-endian CRC of a body makes the receiver's CRC check pass |
| FrameCodec.Parse | src/UhfPrime.Client/UhfPrimeReaderClient.cs:246-263 | address, command, status (0 when L = 0) and payload as ReadFrameAsync splits them, payload of max(0, L-1) bytes |
| FrameCodec.SyncIndex | src/UhfPrime.Client/UhfPrimeReaderClient.cs:227-230 | the index of the first 0xCF byte: every byte before it is something else |
| FrameCodec.DecodeFraming | src/UhfPrime.Client/UhfPrimeReaderClient.cs:224-264 | a frame read in full starts at the first 0xCF, takes exactly 7 + L bytes, is handed on iff its CRC matches, with Parse's fields |
| FrameCodec.ReadAtHeadFraming | src/UhfPrime.Client/UhfPrimeReaderClient.cs:232-255 | the read after the head byte takes the first 7 + L bytes and accepts them iff the CRC matches |
| FrameCodec.DecodeNeedsHead | src/UhfPrime.Client/UhfPrimeReaderClient.cs:227-230 | a stream without a head byte yields no frame |
| FrameCodec.SyncIndexAfterGarbage | src/UhfPrime.Client/UhfPrimeReaderClient.cs:227-230 | leading non-head bytes shift the head position by their count |
| FrameCodec.DecodeAfterGarbage | src/UhfPrime.Client/UhfPrimeReaderClient.cs:227-230 | resynchronisation: leading non-head bytes are skipped and the same frame is read |
| FrameCodec.DecodeEncode | src/UhfPrime.Client/UhfPrimeReaderClient.cs:243-263 | decoding an encoded frame (with any bytes after it) yields it back, the first payload byte read as status |
| FrameCodec.ReadEncoded | src/UhfPrime.Client/UhfPrimeReaderClient.cs:232-255 | the read at an encoded frame takes exactly that frame and accepts it |
| FrameCodec.ParseEncoded | src/UhfPrime.Client/UhfPrimeReaderClient.cs:246-263 | the fields Parse splits out of an encoded frame |
| FrameCodec.ParseLaidOut | src/UhfPrime.Client/UhfPrimeReaderClient.cs:246-263 | Parse of any bytes laid out as a frame for given fields |
| FrameCodec.CommandHighByteZero | src/UhfPrime.Client/UhfPrimeReaderClient.cs:348 | the high command byte of every request is 0x00 and the low byte is the code |
| FrameCodec.CrcMatches | src/UhfPrime.Client/UhfPrimeReaderClient.cs:243-250 | the check passes iff the two trailing bytes are the high and low byte of the CRC of everything before them |
| FrameCodec.ReadAtHead | src/UhfPrime.Client/UhfPrimeReaderClient.cs:232-263 | the read at a head byte; its framing is stated by ReadAtHeadLength and ReadAtHeadFraming |
| FrameCodec.ReadAtHeadLength | src/UhfPrime.Client/UhfPrimeReaderClient.cs:232-241 | the read runs out iff the stream ends inside the header or the 7 + L bytes, and otherwise takes exactly 7 + L bytes |
| FrameCodec.Decode | src/UhfPrime.Client/UhfPrimeReaderClient.cs:217-264 | ReadFrameAsync on a finite stream; its behaviour is stated by DecodeFraming, DecodeNeedsHead, DecodeAfterGarbage, DecodeEncode and DecodeCorrupted |
| FrameCodec.CorruptionDetected | src/UhfPrime.Client/UhfPrimeReaderClient.cs:243-254 | a frame whose CRC matched fails the check once any one of its bytes, CRC bytes included, is changed |
| FrameCodec.BodyCorruptionDetected | src/UhfPrime.Client/UhfPrimeReaderClient.cs:243 | a changed byte before the CRC changes the computed CRC and leaves the received one |
| FrameCodec.TrailerCorruptionDetected | src/UhfPrime.Client/UhfPrimeReaderClient.cs:244 | a changed CRC byte changes the received CRC while the computed one stays |
| FrameCodec.DecodeCorrupted | src/UhfPrime.Client/UhfPrimeReaderClient.cs:224-255 | a frame corrupted in one byte after the head, other than the length byte, is read in full and dropped as a CRC mismatch |
| FrameCodec.ParsedSuccess | src/UhfPrime.Client/Protocol/UhfPrimeFrame.cs:38 | a parsed reply reports success exactly when its length byte is 0 (no status byte, status taken as 0x00) or its status byte is 0x00 |
| ReaderParameters.FromPayload | src/UhfPrime.Client/Protocol/UhfReaderParameters.cs:32-60 | succeeds iff at least 25 bytes, always with an 8-byte frequency table; shorter payloads are refused with their length |
| ReaderParameters.Header | src/UhfPrime.Client/Protocol/UhfReaderParameters.cs:64-71 | seven bytes, the address first and the antenna mask last |
| ReaderParameters.Trailer | src/UhfPrime.Client/Protocol/UhfReaderParameters.cs:78-87 | ten bytes, the RF power first and the polling interval last |
| ReaderParameters.Layout | src/UhfPrime.Client/Protocol/UhfReaderParameters.cs:62-89 | a record with an 8-byte table lays out as 25 bytes |
| ReaderParameters.WriteHeader | src/UhfPrime.Client/Protocol/UhfReaderParameters.cs:64-71 | bytes 0..6 hold the seven leading settings, the rest of the buffer is untouched |
| ReaderParameters.CopyFrequencyTable | src/UhfPrime.Client/Protocol/UhfReaderParameters.cs:77 | bytes 7..14 hold the table, the rest of the buffer is untouched |
| ReaderParameters.WriteTrailer | src/UhfPrime.Client/Protocol/UhfReaderParameters.cs:78-87 | bytes 15..24 hold the ten trailing settings, the rest of the buffer is untouched |
| ReaderParameters.ToPayload | src/UhfPrime.Client/Protocol/UhfReaderParameters.cs:62-89 | succeeds iff the table has 8 bytes (else BadFrequencyTable with its length); the 25 bytes decode back to the record |
| ReaderParameters.FromLayout | src/UhfPrime.Client/Protocol/UhfReaderParameters.cs:32-89 | decoding what ToPayload writes gives the record back |
| ReaderParameters.LayoutFrom | src/UhfPrime.Client/Protocol/UhfReaderParameters.cs:32-89 | encoding a decoded record gives back the first 25 bytes it came from |
| ReaderParameters.PowerByteOnlyChangesPower | src/UhfPrime.TestBench/ViewModels/MainWindowViewModel.cs:378-381 | overwriting byte 15 of an encoded record and decoding changes the RF power and nothing else |
| ReaderParameters.DefaultLayout | src/UhfPrime.Client/Protocol/UhfReaderParameters.cs:20 | a default record (8-byte zero table) encodes to 25 zero bytes |
| InventoryRequests.Layout | src/UhfPrime.Client/Protocol/InventoryRequest.cs:13-19 | five bytes: the mode, then the parameter read big-endian |
| InventoryRequests.Parse | src/UhfPrime.Client/Protocol/InventoryRequest.cs:13-19 | the request read back from its five bytes; ParseLayout and LayoutParse make it the inverse of Layout |
| InventoryRequests.ParseLayout | src/UhfPrime.Client/Protocol/InventoryRequest.cs:13-19 | reading a laid-out request gives it back |
| InventoryRequests.LayoutParse | src/UhfPrime.Client/Protocol/InventoryRequest.cs:13-19 | every five bytes are the layout of the request read from them |
| InventoryRequests.ContinuousLayout | src/UhfPrime.Client/Protocol/InventoryRequest.cs:11 | the continuous request is five zero bytes |
| InventoryRequests.ToPayload | src/UhfPrime.Client/Protocol/InventoryRequest.cs:13-19 | the five-byte buffer written in place is the layout and parses back to the request |
| TagReports.Digit | src/UhfPrime.Client/TagReport.cs:51 | a nibble's digit is one of 0-9, A-F |
| TagReports.DigitValue | src/UhfPrime.Client/TagReport.cs:51 | inverse of Digit; characters outside 0-9, A-F are not digits |
| TagReports.DigitRoundTrip | src/UhfPrime.Client/TagReport.cs:51 | reading back a nibble's digit gives the nibble |
| TagReports.Hex | src/UhfPrime.Client/TagReport.cs:51 | two upper-case hex digits per byte |
| TagReports.FromHex | src/UhfPrime.Client/TagReport.cs:51 | decodes pairs of digits; a result has half the string's length |
| TagReports.FromHexHex | src/UhfPrime.Client/TagReport.cs:50-51 | hex rendering loses nothing: FromHex(Hex(b)) == b |
| TagReports.PcEpcLength | src/UhfPrime.Client/TagReport.cs:37-38 | the EPC length from a PC word is even and at most 62 |
| TagReports.LocateEpc | src/UhfPrime.Client/TagReport.cs:27-48 | a located EPC is non-empty and lies inside the payload |
| TagReports.TryParseInventoryPayload | src/UhfPrime.Client/TagReport.cs:15-55 | a report iff ≥ 5 bytes and an EPC is located; its EPC/UID is the hex of those bytes, RSSI/antenna/channel from bytes 0-3, raw payload kept |
| TagReports.ShortPayloadRejected | src/UhfPrime.Client/TagReport.cs:18-21 | fewer than five bytes give no report |
| TagReports.FiveBytesRejected | src/UhfPrime.Client/TagReport.cs:29-48 | exactly five bytes give no report |
| TagReports.ExplicitLengthBranch | src/UhfPrime.Client/TagReport.cs:29-34 | a non-zero length byte that fits selects the bytes right after it |
| TagReports.PcWordBranch | src/UhfPrime.Client/TagReport.cs:35-44 | otherwise a report exists iff the PC length is non-zero and fits after offset 6, and its EPC is those bytes |
| TagReports.EpcRecoverable | src/UhfPrime.Client/TagReport.cs:50-51 | the EPC bytes can be read back from a report's string |
| TagReports.EpcShape | src/UhfPrime.Client/TagReport.cs:50-51 | a report's EPC string is two upper-case digits per EPC byte, at least two |
| TagReports.ExplicitLengthSample | src/UhfPrime.Client/TagReport.cs:15-55 | FF CE 01 03 04 AA BB CC DD gives RSSI -50 tenths, antenna 1, channel 3, EPC AABBCCDD |
| TagReports.PcWordSample | src/UhfPrime.Client/TagReport.cs:35-44 | PC word 0x3000 selects a 12-byte EPC at offset 6; one byte fewer gives no report |
| WaiterQueues.WithQueue | src/UhfPrime.Client/UhfPrimeReaderClient.cs:320-327 | a non-empty queue is stored, an empty one removes the key; other commands are untouched |
| WaiterQueues.Enqueued | src/UhfPrime.Client/UhfPrimeReaderClient.cs:287-293 | the waiter is at the tail of its command's queue, which exists afterwards |
| WaiterQueues.Without | src/UhfPrime.Client/UhfPrimeReaderClient.cs:310-318 | the queue without the waiter: every other member kept, it gone |
| WaiterQueues.Removed | src/UhfPrime.Client/UhfPrimeReaderClient.cs:304-330 | the queue of the command loses the waiter and nothing else; other commands untouched; no empty queue is kept |
| WaiterQueues.HasPendingWaiter | src/UhfPrime.Client/UhfPrimeReaderClient.cs:176-193 | true iff some waiter in the command's queue is still pending |
| WaiterQueues.ResumedRegistry | src/UhfPrime.Client/UhfPrimeReaderClient.cs:171-197 | the command's queue loses a non-empty prefix (a suffix is kept), other commands untouched, no empty queue kept |
| WaiterQueues.ResumedStates | src/UhfPrime.Client/UhfPrimeReaderClient.cs:171-197 | the only outcome that changes is a pending waiter becoming Completed with the frame, and one changes iff a pending waiter exists |
| WaiterQueues.RegistryValid | src/UhfPrime.Client/UhfPrimeReaderClient.cs:282-330 | the invariant the client keeps: no empty queue, every queued waiter known and at most once per queue, ids below the next one |
| WaiterQueues.FirstPending | src/UhfPrime.Client/UhfPrimeReaderClient.cs:176-193 | the position of the first pending waiter; every waiter before it is settled |
| WaiterQueues.CancelAll | src/UhfPrime.Client/UhfPrimeReaderClient.cs:81-87 | pending waiters of the set become cancelled, settled ones keep their outcome, no waiter is added |
| WaiterQueues.WithoutAbsent | src/UhfPrime.Client/UhfPrimeReaderClient.cs:310-318 | removing a waiter that is not queued leaves the queue as it was |
| WaiterQueues.WithoutOnce | src/UhfPrime.Client/UhfPrimeReaderClient.cs:310-318 | in a queue without duplicates, removal drops exactly that position and keeps the order |
| WaiterQueues.RemoveAfterEnqueue | src/UhfPrime.Client/UhfPrimeReaderClient.cs:268-277 | registering and then removing the same waiter restores the registry |
| WaiterQueues.WithoutSnoc | src/UhfPrime.Client/UhfPrimeReaderClient.cs:310-318 | removing the newly appended waiter gives the old queue |
| WaiterQueues.EnqueueOrder | src/UhfPrime.Client/UhfPrimeReaderClient.cs:293 | two registrations queue in registration order |
| WaiterQueues.EnqueueIndependent | src/UhfPrime.Client/UhfPrimeReaderClient.cs:287-293 | registering under one command leaves other commands' queues alone |
| WaiterQueues.WithoutAppend | src/UhfPrime.Client/UhfPrimeReaderClient.cs:311-318 | the rebuild loop's step: filtering a queue plus one waiter filters the queue and keeps the waiter unless it is the removed one |
| WaiterQueues.WithoutDistinct | src/UhfPrime.Client/UhfPrimeReaderClient.cs:310-318 | removal keeps a queue free of duplicates |
| WaiterQueues.WithQueueTwice | src/UhfPrime.Client/UhfPrimeReaderClient.cs:320-327 | the last queue stored for a command wins |
| WaiterQueues.WithQueueSame | src/UhfPrime.Client/UhfPrimeReaderClient.cs:320-327 | storing a command's own queue changes nothing |
| WaiterQueues.QueuedUnderAdd | src/UhfPrime.Client/UhfPrimeReaderClient.cs:81-87 | the waiters under one more command are those under the others plus its queue |
| WaiterQueues.QueuedUnderAll | src/UhfPrime.Client/UhfPrimeReaderClient.cs:81-87 | the waiters under every key are all queued waiters |
| WaiterQueues.CancelOneMore | src/UhfPrime.Client/UhfPrimeReaderClient.cs:85 | cancelling one more waiter is one TrySetCanceled on top |
| WaiterQueues.CancelNone | src/UhfPrime.Client/UhfPrimeReaderClient.cs:81-88 | cancelling no waiter changes nothing |
| WaiterQueues.CancelAllTwice | src/UhfPrime.Client/UhfPrimeReaderClient.cs:79-89 | two cancellation rounds equal one over the union (so a second disconnect cancels nothing new) |
| WaiterQueues.IdsOfSnoc | src/UhfPrime.Client/UhfPrimeReaderClient.cs:83-86 | the waiters of a queue plus one more |
| WaiterQueues.WithQueueKeepsValid | src/UhfPrime.Client/UhfPrimeReaderClient.cs:320-327 | storing a duplicate-free queue of known waiters keeps the registry invariant |
| WaiterQueues.SettleKeepsValid | src/UhfPrime.Client/UhfPrimeReaderClient.cs:191 | settling a known waiter keeps the registry invariant |
| WaiterQueues.ResumeTakesHead | src/UhfPrime.Client/UhfPrimeReaderClient.cs:176-196 | a frame completes the head waiter when it is pending and dequeues only it |
| WaiterQueues.ResumeSkipsSettled | src/UhfPrime.Client/UhfPrimeReaderClient.cs:191-193 | a settled head is dropped and the next pending waiter gets the frame |
| WaiterQueues.ResumeWithoutPending | src/UhfPrime.Client/UhfPrimeReaderClient.cs:186-189 | with no pending waiter the queue is dropped and no outcome changes |
| WaiterQueues.ResumeIndependent | src/UhfPrime.Client/UhfPrimeReaderClient.cs:176-183 | a frame never touches another command's queue |
| WaiterQueues.ResumeSettlesOnce | src/UhfPrime.Client/UhfPrimeReaderClient.cs:191 | a settled waiter's outcome is never overwritten |
| WaiterQueues.ResumeAfterSkip | src/UhfPrime.Client/UhfPrimeReaderClient.cs:191-193 | the recursive retry after a failed TrySetResult resumes on the rest of the queue |
| ReaderSession.RxTrace | src/UhfPrime.Client/UhfPrimeReaderClient.cs:246-251 | the receive trace carries the raw bytes, the CRC verdict, address, command, the status (0 when L = 0), max(0, L-1) and RX / RX CRC mismatch |
| ReaderSession.TxTrace | src/UhfPrime.Client/UhfPrimeReaderClient.cs:361 | the send trace carries the encoded frame, valid, the address and command, status 0, the payload length, TX |
| ReaderSession.UnsolicitedEvents | src/UhfPrime.Client/UhfPrimeReaderClient.cs:199-215 | a tag report iff command 0x0001, status 0 and the payload parses; at most one event |
| ReaderSession.OnlyInventoryReportsTags | src/UhfPrime.Client/UhfPrimeReaderClient.cs:201-214 | any other command or a non-zero status raises nothing |
| ReaderSession.BuildFrame | src/UhfPrime.Client/UhfPrimeReaderClient.cs:344-356 | the buffer SendAsync fills in place is exactly Encode's frame |
| ReaderSession.WriteHeader | src/UhfPrime.Client/UhfPrimeReaderClient.cs:346-349 | the first five buffer bytes are head, address, big-endian command, length; the rest of the buffer is untouched |
| ReaderSession.CopyPayload | src/UhfPrime.Client/UhfPrimeReaderClient.cs:350-353 | the payload is copied in at offset 5; the header and the two CRC bytes are kept |
| ReaderSession.WriteBody | src/UhfPrime.Client/UhfPrimeReaderClient.cs:345-353 | the first 5 + |payload| buffer bytes are the header followed by the payload: exactly what the CRC covers |
| ReaderSession.WriteCrc | src/UhfPrime.Client/UhfPrimeReaderClient.cs:356 | the buffer becomes the bytes before the last two, unchanged, followed by the big-endian CRC |
| ReaderSession.RelayPayload | src/UhfPrime.Client/UhfPrimeReaderClient.cs:123-127 | 02 then 00 to close, 01 to open; LegacyFrames.CloseRelayFrame and OpenRelayFrame compare it with the older driver's bytes |
| ReaderSession.Remaining | src/UhfPrime.Client/UhfPrimeReaderClient.cs:224-237 | what a read leaves on the stream: nothing when it ran out, the bytes after the frame otherwise |
| ReaderSession.ReadTrace | src/UhfPrime.Client/UhfPrimeReaderClient.cs:243-251 | the trace of a frame read in full carries its raw bytes and its CRC verdict |
| ReaderSession.FindHead | src/UhfPrime.Client/UhfPrimeReaderClient.cs:227-230 | the do-while scan stops at the first head byte |
| ReaderSession.CheckCrc | src/UhfPrime.Client/UhfPrimeReaderClient.cs:243-250 | the verdict is true iff the computed CRC equals the received big-endian word |
| ReaderSession.ReadStep | src/UhfPrime.Client/UhfPrimeReaderClient.cs:224-264 | a read taking 7 + L bytes at the first head byte is Decode's read, with its remainder and trace |
| ReaderSession.TruncatedStep | src/UhfPrime.Client/UhfPrimeReaderClient.cs:229-237 | a stream ending inside the header or the body yields no frame and is used up |
| ReaderSession.ParametersReply | src/UhfPrime.Client/UhfPrimeReaderClient.cs:92-96 | a settled GET_ALL_PARAM yields the record iff the payload has ≥ 25 bytes (status not checked), Canceled when cancelled |
| ReaderSession.StatusReply | src/UhfPrime.Client/UhfPrimeReaderClient.cs:98-133 | a settled request succeeds iff status is 0, else ErrorStatus with the status |
| ReaderSession.ReaderClient.constructor | src/UhfPrime.Client/UhfPrimeReaderClient.cs:19-38 | address 0xFF, no stream, no waiters, nothing sent |
| ReaderSession.ReaderClient.RegisterWaiter | src/UhfPrime.Client/UhfPrimeReaderClient.cs:282-302 | a fresh pending waiter at the tail of its command's queue, registry invariant kept |
| ReaderSession.ReaderClient.CancelWaiter | src/UhfPrime.Client/UhfPrimeReaderClient.cs:296-299 | TrySetCanceled: a pending waiter becomes cancelled, a settled one keeps its outcome |
| ReaderSession.ReaderClient.RemoveWaiter | src/UhfPrime.Client/UhfPrimeReaderClient.cs:304-330 | the queue is rebuilt without the waiter, order kept; an emptied queue's key is removed |
| ReaderSession.ReaderClient.TryResumeWaiter | src/UhfPrime.Client/UhfPrimeReaderClient.cs:171-197 | true iff a pending waiter of the frame's command existed; the first one is completed with the frame, every waiter before it dequeued |
| ReaderSession.ReaderClient.CancelQueue | src/UhfPrime.Client/UhfPrimeReaderClient.cs:83-86 | draining a queue cancels each pending waiter in it |
| ReaderSession.ReaderClient.CancelQueued | src/UhfPrime.Client/UhfPrimeReaderClient.cs:81-87 | after the foreach over all queues, every queued waiter that was pending is cancelled and every other state is unchanged |
| ReaderSession.ReaderClient.Disconnect | src/UhfPrime.Client/UhfPrimeReaderClient.cs:57-90 | stream closed, registry empty, every queued pending waiter cancelled, others unchanged |
| ReaderSession.ReaderClient.Connect | src/UhfPrime.Client/UhfPrimeReaderClient.cs:40-55 | disconnects first (cancelling queued waiters), then holds the new address and stream |
| ReaderSession.ReaderClient.Send | src/UhfPrime.Client/UhfPrimeReaderClient.cs:332-369 | refused without a stream or over 255 bytes; otherwise Encode's frame is written and a TX trace raised |
| ReaderSession.ReaderClient.SendAndWait | src/UhfPrime.Client/UhfPrimeReaderClient.cs:266-280 | the waiter is registered before sending and removed again when the send fails |
| ReaderSession.ReaderClient.ReadFrame | src/UhfPrime.Client/UhfPrimeReaderClient.cs:217-264 | the read is Decode: no stream, stream ended, CRC mismatch (traced, dropped) or the parsed frame; the stream keeps Remaining |
| ReaderSession.ReaderClient.TakeFrame | src/UhfPrime.Client/UhfPrimeReaderClient.cs:243-263 | the CRC check, trace and hand-off of a frame read in full |
| ReaderSession.ReaderClient.DispatchUnsolicitedFrame | src/UhfPrime.Client/UhfPrimeReaderClient.cs:199-215 | the notifications grow by UnsolicitedEvents |
| ReaderSession.ReaderClient.HandleFrame | src/UhfPrime.Client/UhfPrimeReaderClient.cs:153-157 | FrameReceived, then the waiter resume, then unsolicited dispatch only when no waiter took the frame |
| ReaderSession.ReaderClient.ReceiveStep | src/UhfPrime.Client/UhfPrimeReaderClient.cs:145-158 | one loop turn: the read, then HandleFrame on a valid frame; continues iff a frame was read in full, and then exactly its trace is appended, otherwise no trace |
| ReaderSession.ReaderClient.RunReceiveLoop | src/UhfPrime.Client/UhfPrimeReaderClient.cs:141-169 | the loop ends with the stream used up and the registry invariant kept |
| ReaderSession.ReaderClient.GetAllParameters | src/UhfPrime.Client/UhfPrimeReaderClient.cs:92-96 | a GET_ALL_PARAM frame with an empty payload, its TX trace and a waiter under 0x72; or NotConnected with nothing sent, traced or registered |
| ReaderSession.ReaderClient.SetAllParameters | src/UhfPrime.Client/UhfPrimeReaderClient.cs:98-105 | a bad frequency table is refused with nothing registered, sent or traced; otherwise the 25-byte layout is sent and traced under 0x71 iff connected |
| ReaderSession.ReaderClient.StartInventory | src/UhfPrime.Client/UhfPrimeReaderClient.cs:107-110 | the five-byte request is sent and traced under 0x01 with no waiter; without a stream nothing is sent or traced |
| ReaderSession.ReaderClient.StopInventory | src/UhfPrime.Client/UhfPrimeReaderClient.cs:112-119 | an INVENTORY_STOP frame with an empty payload, its TX trace and a waiter under 0x02; nothing sent or traced without a stream |
| ReaderSession.ReaderClient.PulseRelay | src/UhfPrime.Client/UhfPrimeReaderClient.cs:121-133 | a RELAY frame with the relay payload, its TX trace and a waiter under 0x77; nothing sent or traced without a stream |
| LegacyFrames.EncodeIs | src/UhfPrime.Client/UhfPrimeReaderClient.cs:344-356 | a broadcast frame for a command is its five header bytes, payload and big-endian CRC |
| LegacyFrames.GetParamsFrame | ChafonCF69xRfidAdapter.cs:12 | the legacy GET_PARAMS bytes are the codec's GET_DEVICE_INFO request to 0xFF and pass the CRC check |
| LegacyFrames.RelayPrefixCrc | ChafonCF69xRfidAdapter.cs:10-11 | the register after CF FF 00 77 02 is 0x4A0F |
| LegacyFrames.CloseRelayFrame | ChafonCF69xRfidAdapter.cs:10 | PulseRelay(close) to 0xFF writes exactly the legacy CLOSE_RELAY bytes |
| LegacyFrames.OpenRelayFrame | ChafonCF69xRfidAdapter.cs:11 | the legacy OPEN_RELAY bytes are a valid RELAY frame with payload 01 00, different from PulseRelay(open) |
| ClientScenarios.FirstInFirstOut | src/UhfPrime.Client/UhfPrimeReaderClient.cs:176-196 | two GET_ALL_PARAM requests in flight receive the two replies in arrival order |
| ClientScenarios.OtherCommandIgnored | src/UhfPrime.Client/UhfPrimeReaderClient.cs:153-157 | a RELAY reply leaves a GET_ALL_PARAM waiter pending and is not taken |
| ClientScenarios.DisconnectTwice | src/UhfPrime.Client/UhfPrimeReaderClient.cs:79-89 | a disconnect cancels the outstanding waiter; a second changes nothing further |
| ClientScenarios.ParametersEcho | src/UhfPrime.Client/UhfPrimeReaderClient.cs:92-105 | a record sent with SET_ALL_PARAM and echoed in a GET_ALL_PARAM reply reads back unchanged |
| ClientScenarios.EchoRead | src/UhfPrime.Client/UhfPrimeReaderClient.cs:95 | a reply whose payload is a record's layout reads as that record whatever its status |

## Left out

- TCP sockets, `TcpClient` and `NetworkStream`: replaced by the `inbound`
  and `outbound` sequences. `Host`, `Port` and the connect timeout are not
  modelled.
- Concurrency. The send semaphore and the waiter lock only serialise access.
  The model is sequential: the receive task is `ReceiveStep` /
  `RunReceiveLoop`, called explicitly.
- Cancellation tokens. The token registration in `RegisterWaiter`
  (`TrySetCanceled` on cancellation) is modelled by
  `ReaderSession.ReaderClient.CancelWaiter`. The token itself, the reader
  loop's `IsCancellationRequested` condition and the caught
  `OperationCanceledException` are not modelled.
- `DisposeAsync`: it is `DisconnectAsync` plus disposing the semaphore.
- Awaiting a task. Each operation returns the id of the waiter it
  registered. `ReaderSession.ParametersReply` and
  `ReaderSession.StatusReply` give what the awaiting caller then receives.
  Exceptions become `Result` failures.
- ReaderSession.ReaderClient.ReadFrame: with no stream, the C# loop
  `continue`s forever, reading null each time. The model returns `NoStream`
  and the loop stops.
- ReaderSession.ReaderClient.RunReceiveLoop: its contract states only that
  the stream is used up and the registry invariant is kept. The per-frame
  effects are stated by `ReaderSession.ReaderClient.ReceiveStep`, one turn
  at a time.
- A stream that ends inside a read (`EndOfStreamException`, an
  `IOException` the loop catches) is the `Truncated` outcome.
- Console output, which has no effect on the protocol state:
  - the `[WARN]` line for an unparsable inventory payload;
  - the console line and timestamp of `TraceFrame`;
  - `UhfPrimeFrame.ToString`.
- TagReports.TryParseInventoryPayload: RSSI is kept as the raw signed
  16-bit value in tenths of a dBm. The floating-point `rawRssi / 10.0` and
  the `DateTimeOffset.UtcNow` timestamp are not modelled.
- `FrameTraceEventArgs` is a plain holder of seven values. It is modelled
  as the `ReaderSession.TraceEvent` datatype.
- The test-bench UI (`MainWindowViewModel`, `TagViewModel`, `BeepService`,
  `AsyncCommand`, `FrameLogEntry`, `MainWindow`) is not part of this model,
  apart from the power-byte overwrite (`PowerByteOnlyChangesPower`).
- The older `ChafonCF69xRfidAdapter` driver is not part of this model,
  apart from its three fixed frames (`LegacyFrames`). `tools/IconGen` is
  not part of this model.
- Waiters are numbered ids rather than `TaskCompletionSource` objects.
  Reference equality in `RemoveWaiter` is equality of ids.
