# DevTitans IR link: a verified model

This project models the DevTitans infrared link as one stack and proves what holds across its
layers. The same 16-byte-header, CRC-protected wire format is written and read by ESP32 firmware
(C), a Linux driver for an FTDI adapter (C), two Python clients and an Android HAL (C++).

| file | component |
|---|---|
| `Bytes.dfy`, `Bitwise.dfy` | bytes, little-endian integers, exclusive or, facts about sequences |
| `Crc.dfy`, `CrcBurst.dfy`, `Damage.dfy` | the checksum loop, its algebra, and what it promises the parser |
| `Codes.dfy`, `Codec.dfy` | infrared codes, their shared validity test, the payload encoder and decoder |
| `Packets.dfy`, `Scanner.dfy` | the packet format, and the stream scanner as one recursive function |
| `Responder.dfy`, `Replies.dfy`, `Parsing.dfy` | what each candidate makes the firmware do and the answer it earns, and the in-place parser that does it |
| `Normalizing.dfy` | from raw receiver symbols to a code |
| `Capture.dfy`, `CaptureSafety.dfy`, `CaptureVerdict.dfy`, `CaptureProgress.dfy`, `CaptureFault.dfy` | on-demand capture as interleaved steps of callers, owner task, interrupt and clock |
| `Transmit.dfy` | one transmission, and replaying a captured signal |
| `Uart.dfy`, `UartLaws.dfy` | the firmware's byte transport and its protocol task, and what the driver's events mean for them |
| `FtdiDriver.dfy`, `Silences.dfy` | the character device over FTDI packets, and which of its errors reach a reader |
| `Protocol.dfy`, `Clients.dfy`, `Hal.dfy` | the Python helpers, the three receivers, the HAL's encoders |
| `EndToEnd.dfy` | whole exchanges |

Code that changes state in place is modelled by classes and methods over arrays and fields, each
proved against a function: the parser against `Scan` and `HandleAll`, the codec against `Encode`
and `Decode`, `normalize_frame` against `Normalized`, the receivers against `Answer`. What the
system promises is then proved about those functions. The capture code runs in several tasks and
an interrupt, so it is a state machine whose steps are the accesses the parties can see of each
other; its invariant is proved for every step and its theorems for every run.

32-bit words are integers below 2^32 with `c >> 1` written `c / 2`, `c & 1` written `c % 2` and
`^` written `Xor`; 16-bit casts are written `% 0x1_0000`. Outcomes of captures and transmissions
come from an oracle, hardware and kernel answers are step parameters, and a client's deadline is
the moment nothing more will arrive.

## What was found

- The three receivers agree on every stream, except that the strict serial client passes over a
  response whose flags are odd but not 1 (`Clients.StrictAnswer` says exactly when,
  `Clients.StrictMisses` exhibits one).
- The HAL treats `ETIMEDOUT` from the driver as fatal (aidl/default/Ir.cpp:241-244), while the
  driver returns it whenever no USB packet arrives for a second (IR-driver/ir.c:295-299) and has no
  `poll` operation that would hide it. A reply that takes longer, such as a READ waiting for a
  button, is then lost to the HAL and not to the command line tool, whatever timeout was asked
  for; only an adapter that keeps sending status-only packets hides this. `EndToEnd.HalHears` says
  for every trace when it happens: a failed transfer is fatal exactly when the read that meets it
  has copied nothing, which `Silences.Copied` computes from the packet sizes.
  `EndToEnd.SilenceSeparates` is the case of a silence before the reply; `EndToEnd.CliHears` and
  `EndToEnd.BenignArrives` prove the tool right with silences anywhere.
- On a UART that loses nothing, a request is lost to the firmware if and only if a silence of
  250 ms falls inside it (`Uart.PacketSurvives`), however the turns cut it up.
- The overflow discard in `ir_protocol_feed` (FW/main/ir_protocol.c:248) is unreachable, and so is
  INTERNAL_ERROR for a frame that was captured (FW/main/ir_protocol.c:181-185).
- If disabling the receiver fails after a valid frame, the caller gets the disable error
  (FW/main/ir_rx.c:97-101); when that error happens to be ESP_ERR_TIMEOUT the protocol reports
  NO_DATA (`CaptureFault.FrameLostToDisable`). `CaptureVerdict.Justified` has the exact condition:
  a capture succeeds if and only if an eligible completion was dequeued and no fault is latched, so
  TIMEOUT means that there was none unless there is a fault.

## Model

| member | source | states |
|---|---|---|
| Crc.CrcUpdate | FW/main/ir_protocol.c:78-87 | the two nested loops compute `Update` of the bytes |
| Crc.PacketCrc | FW/main/ir_protocol.c:89-92 | the checksum of an array is `Crc32` of header[0..12] followed by the payload |
| Crc.KnownVector | FW/main/ir_protocol.c:78-92 | a test vector that pins polynomial, initial value, bit order and final complement |
| Crc.BitStepInjective | FW/main/ir_protocol.c:82-84 | one turn of the bit loop loses no information |
| Crc.BitStepLinear | FW/main/ir_protocol.c:82-84 | one turn of the bit loop distributes over exclusive or |
| CrcBurst.UpdateIsSerial | FW/main/ir_protocol.c:78-87 | the byte loop is the bit-serial register fed least significant bits first |
| CrcBurst.BurstDetected | FW/main/ir_protocol.c:78-92 | two different strings that agree outside 32 consecutive bits have different checksums |
| Damage.DamageRejected | FW/main/ir_protocol.c:228-237 | a packet hit by a burst of at most 32 bits outside its magic, length and CRC fields is rejected as a CRC failure, whatever follows it |
| Damage.FourBytesRejected | FW/main/ir_protocol.c:228-237 | the same for damage to any four consecutive covered bytes |
| Codes.IrCode.IsValid | FW/main/ir_types.h:33-51 | the indexed loop accepts exactly the valid codes |
| Codes.ValidCodeSpelledOut | FW/main/ir_types.h:33-51 | a code is valid exactly when its phases alternate from a MARK, last 1 to 32767 except perhaps for the last, and its metadata is in bounds |
| Codec.DecodeCode | FW/main/ir_protocol.c:94-114 | the in-place decoder returns the status and the code of `Decode` for every payload |
| Codec.EncodeCode | FW/main/ir_protocol.c:116-133 | succeeds exactly for valid codes that fit, writes their encoding and nothing else, and names the error otherwise |
| Codec.DecodeOfEncode | FW/main/ir_protocol.c:94-133 | decoding the encoding of any valid code gives it back |
| Codec.EncodeOfDecode | FW/main/ir_protocol.c:94-133 | re-encoding any accepted payload gives the identical bytes |
| Codec.DecodedIffEncoding | FW/main/ir_protocol.c:94-133 | the accepted payloads are exactly the encodings of valid codes |
| Codec.DecodeSpelledOut | FW/main/ir_protocol.c:94-114 | which payloads are accepted, word by word, and which of the two refusals the others get |
| Codec.PayloadPhases | FW/main/ir_protocol.c:107-112 | the k-th word of a payload is the k-th phase of the code |
| Codec.AcceptedPayloadParses | IR-driver/protocol.py:72-91 | every payload the firmware accepts also passes the client's check and reads as the same code |
| Packets.PacketFields | FW/main/ir_protocol.c:135-144 | built packets are well formed and every field reads back |
| Packets.WellFormedIsBuilt | FW/main/ir_protocol.c:228-231 | every well-formed version 1 packet is the one its fields build |
| Protocol.BuilderAgrees | IR-driver/protocol.py:23-31 | the Python builder makes those packets, with the sequence reduced to 16 bits, and refuses only oversized payloads |
| Protocol.ValidatorExact | IR-driver/protocol.py:44-69 | the validator accepts exactly the well-formed packets with the wanted fields |
| Scanner.JudgeStable | FW/main/ir_protocol.c:214-241 | once reached, the verdict on the front of the buffer does not depend on later bytes |
| Scanner.VerdictSpelledOut | FW/main/ir_protocol.c:214-241 | each verdict on the front of the buffer in terms of its bytes: magic, length, checksum |
| Scanner.ScanAppend | FW/main/ir_protocol.c:208-252 | scanning a stream in two pieces with the rest carried over is scanning the whole |
| Scanner.ScanRest | FW/main/ir_protocol.c:243-252 | what is left is the end of the stream, waits for more, and is shorter than the 1052-byte buffer |
| Scanner.ScanEndSplit | FW/main/ir_protocol.c:256-263 | expiring after feeding finds what an end-of-input scan of the whole stream finds |
| Scanner.ScanEndRecovers | FW/main/ir_protocol.c:256-263 | expiry finds a whole packet behind anything that does not itself hold one, such as a header with a damaged length |
| Scanner.ScanRecovers | FW/main/ir_protocol.c:214-241 | a whole packet is found behind anything whose bytes neither hold a whole packet nor wait for more |
| Scanner.ScanPackets | FW/main/ir_protocol.c:214-241 | whole packets back to back are found in order and the bytes after them are scanned afresh |
| Scanner.NoiseThenPackets | FW/main/ir_protocol.c:214-241 | after noise without an adjacent 'I','R', exactly the packets that follow are found and nothing is left |
| Scanner.FoundWithin | FW/main/ir_protocol.c:214-241 | every packet found is well formed and a contiguous run of the stream |
| Responder.OneAnswer | FW/main/ir_protocol.c:135-206 | a candidate flagged as response has no effect; any other gets exactly one well-formed answer echoing command and sequence, with a payload only on a successful READ |
| Replies.RefusalStatus | FW/main/ir_protocol.c:161-171 | the status byte for an oversized length, a bad checksum, bad fields and an unknown command |
| Replies.PingStatus | FW/main/ir_protocol.c:196-199 | a PING is answered OK exactly when it has no payload |
| Replies.ReadStatus | FW/main/ir_protocol.c:173-186 | a READ is answered with the captured code, or with the status byte of what prevented it |
| Replies.WriteStatus | FW/main/ir_protocol.c:187-195 | a WRITE is answered with the status byte of its transmission, or of what is wrong with its payload |
| Replies.OkStatus | FW/main/ir_protocol.c:157-206 | exactly which requests are answered OK |
| Responder.HardwareUse | FW/main/ir_protocol.c:157-206 | over any run captures and transmissions are exactly those the intact requests ask for, in order, and only valid codes are sent |
| Responder.RequestsAnswered | FW/main/ir_protocol.c:157-206 | a list of requests is answered one by one in order, after everything said before |
| Responder.RunReplies | FW/main/ir_protocol.c:135-155 | every response of every run is well formed and carries the response flag |
| Responder.NoResponseLoop | FW/main/ir_protocol.c:161-165 | the responses to any list of candidates, fed to any device, cause no response, capture or transmission and leave its buffer empty |
| Responder.NoiseThenRequests | FW/main/ir_protocol.c:135-252 | noise and then requests are answered one by one in order, with nothing left over |
| Parsing.Parser.Discard | FW/main/ir_protocol.c:208-212 | drops the first bytes of the buffer in place |
| Parsing.Parser.Respond | FW/main/ir_protocol.c:135-155 | sends the packet that answers the request at the front of the buffer with the payload already in the output array |
| Parsing.Parser.ProcessRead | FW/main/ir_protocol.c:173-186 | does what `DoRead` says and leaves the response payload in the output array |
| Parsing.Parser.ProcessWrite | FW/main/ir_protocol.c:187-195 | does what `DoWrite` says |
| Parsing.Parser.ProcessRequest | FW/main/ir_protocol.c:157-206 | handles the packet at the front as `Handle` says and leaves the buffer alone |
| Parsing.Parser.ParseFront | FW/main/ir_protocol.c:216-239 | one turn of the loop consumes what the verdict takes and handles what it hands over |
| Parsing.Parser.ParseBuffer | FW/main/ir_protocol.c:214-241 | the in-place loop refines `Scan`: same candidates, same rest, effects of handling them in order |
| Parsing.Parser.Feed | FW/main/ir_protocol.c:243-252 | byte-wise feeding refines one scan of buffer and input; the buffer never fills up |
| Parsing.Parser.Reset | FW/main/ir_protocol.c:254 | empties the buffer |
| Parsing.Parser.Expire | FW/main/ir_protocol.c:256-263 | handles exactly the candidates of the end-of-input scan and leaves the buffer empty |
| Normalizing.NormalizeFrame | FW/main/ir_rx.c:54-86 | succeeds exactly for capturable symbols, and then the pending frame is `Normalized` of them |
| Normalizing.SignalSpelledOut | FW/main/ir_rx.c:54-86 | the signal is the level-inverted phases, by position, from the first MARK to the first phase of no length |
| Normalizing.NormalizedSpelledOut | FW/main/ir_rx.c:54-86 | which captures are frames, and the metadata and phases of each frame |
| Normalizing.NormalizedIsValid | FW/main/ir_rx.c:54-86 | a normalised frame is valid and its phases are the signal, padded with one empty SPACE when odd |
| Normalizing.DurationConserved | FW/main/ir_rx.c:54-86 | normalising keeps the total duration of the signal |
| CaptureSafety.InvKept | FW/main/ir_rx.c:88-217 | every step keeps the single-token, queue and hardware invariant |
| CaptureVerdict.RunInv | FW/main/ir_rx.c:88-217 | every state of every run satisfies the full invariant |
| CaptureVerdict.Admission | FW/main/ir_rx.c:203-207 | a call is granted exactly when its timeout is 1 to 60000 ms and no other call is in progress; else it is refused with the error for that, and leaves no trace |
| CaptureVerdict.Listening | FW/main/ir_rx.c:153-170 | in every state of every run a capture in progress is armed, or exactly one completion is on its way, so noise never leaves it deaf |
| CaptureVerdict.ExactlyOneAcknowledgement | FW/main/ir_rx.c:93-109 | each granted capture is acknowledged exactly once before its caller goes on, and the calls return once each, in order |
| CaptureVerdict.NothingLost | FW/main/ir_rx.c:38-52 | no acknowledgement lands on another, the queue reset never erases a request, and the queue always has room for the interrupt and the caller |
| CaptureVerdict.NeverStuck | FW/main/ir_rx.c:133-174 | while a caller waits the owner always has a step to take |
| CaptureProgress.TakenUpSoon | FW/main/ir_rx.c:111-174 | once sent, every request is taken up within nine of the owner's own steps: its capture runs with a deadline, or is being finished |
| CaptureProgress.AcknowledgedSoon | FW/main/ir_rx.c:133-174 | once the deadline has passed, the owner acknowledges within nine of its own steps, however the steps interleave and whatever the hardware reports |
| CaptureVerdict.HardwareProtocol | FW/main/ir_rx.c:88-130 | only a disabled, unfaulted channel is enabled, only an enabled unarmed one is armed, only an enabled one is disabled; with the lock free the channel is off or the fault latched |
| CaptureVerdict.FaultIsFinal | FW/main/ir_rx.c:95-116 | from a faulted state on, in any run, the fault stays, no enable step is taken and the channel is not enabled again |
| CaptureVerdict.ResultsJustified | FW/main/ir_rx.c:133-217 | the result of every finished call: the error of the last driver operation that failed, or of a latched fault, or else ESP_OK if and only if an eligible completion was dequeued, or else TIMEOUT; with ESP_OK the last completion of this very capture, the first eligible one, is what the caller got |
| CaptureVerdict.ResultsSpelledOut | FW/main/ir_rx.c:133-217 | the same in full: without a driver failure or fault only ESP_OK and TIMEOUT are possible; success means final, fresh, in time and a frame, a timeout that the deadline start + timeout had passed and no completion was all of these; any error leaves the caller's buffer unchanged |
| CaptureFault.FrameLostToDisable | FW/main/ir_rx.c:93-109 | a run in which a frame is accepted in time, disabling fails with ESP_ERR_TIMEOUT, and the caller gets that error, which the protocol answers with NO_DATA |
| CaptureVerdict.CapturedFrameIsSignal | FW/main/ir_rx.c:203-217 | a successful call returns a valid code whose phases are the recorded signal |
| CaptureVerdict.WaitIsCeiling | FW/main/ir_rx.c:138-145 | the wait the owner computes reaches the deadline, overshoots it by less than one tick, and fits 32 bits; without a capture it waits for ever |
| Transmit.Transmitter.Send | FW/main/ir_tx.c:32-69 | hands the driver exactly this code, at its own carrier or else 38 kHz, if and only if code, lock and driver allow; reports the first obstacle; latches the fault exactly when a transmission was taken and did not finish; never writes the buffer while the driver or another sender may be using it; never uses a carrier outside 20 to 60 kHz |
| Transmit.EmitsCode | FW/main/ir_tx.c:47-58 | the hardware words of a valid code emit exactly its phases |
| Transmit.ReplayPreservesSignal | FW/main/ir_protocol.c:173-195 | a captured frame is always encoded, accepted again as a WRITE, and emitted with the captured phases |
| Transmit.ReadNeverFailsToEncode | FW/main/ir_protocol.c:181-185 | INTERNAL_ERROR for a READ comes only from a failed capture |
| FtdiDriver.IrDevice.Read | IR-driver/ir.c:249-323 | bytes delivered and bytes buffered are the packet contents in order, whatever fails; a positive count never reads 0; buffered bytes come before errors; exactly when the call stops, and which event or silence each error number stands for |
| FtdiDriver.ContentSpelledOut | IR-driver/ir.c:300-311 | the bytes of a packet are all but its first two |
| FtdiDriver.IrDevice.ReadAll | IR-driver/ir.c:249-323 | the same over any list of calls with any counts and faults: all they delivered, then what is buffered, is what arrived |
| FtdiDriver.IrDevice.Receive | IR-driver/ir.c:287-311 | one transfer refills the empty buffer with the bytes after the two status bytes |
| FtdiDriver.IrDevice.TakePending | IR-driver/ir.c:273-285 | one copy moves a nonempty front of the buffer to the user |
| FtdiDriver.IrDevice.Write | IR-driver/ir.c:198-241 | the whole buffer is on the wire or an error is returned; what the transfer took is on the wire even then, and the error is that of the first obstacle |
| Uart.Transport.Read | FW/main/ir_transport_uart.c:70-105 | for every event and every state of the driver, the outcome is `Heard`: a loss that empties the account, or the first bytes available, as many as were announced and fit, added to the bytes handed over; their number and what is pending make up what was announced |
| UartLaws.TurnSpelledOut | FW/main/ir_transport_uart.c:70-105 | one turn in full, event by event: what is lost, what is handed over, what stays pending |
| UartLaws.DataArrives | FW/main/ir_transport_uart.c:76-104 | whatever is sent, and however much, there are Data events and turns that bring it whole and uninterrupted |
| UartLaws.LossSeparates | FW/main/ir_transport_uart.c:80-89 | after a loss event, or announced bytes that are missing, every packet found lies in bytes available in later turns |
| UartLaws.LossEnds | FW/main/ir_protocol.c:272-274 | such a turn ends the stretch and the incomplete candidate with it, and no other turn does |
| Uart.ProtocolTask.Step | FW/main/ir_protocol.c:265-284 | one turn moves the line as `Hear` says: a loss ends the stretch, bytes extend it, 250 ms of silence and nothing less cuts it; the parser keeps having handled exactly the candidates on the line |
| Uart.ProtocolTask.Run | FW/main/ir_protocol.c:265-284 | after any turns the line is the fold of the turns, the candidates handled, their effects and the buffer are those of scanning the line's segments, and no packet joins bytes from both sides of a loss |
| Uart.HearAllSound | FW/main/ir_transport_uart.c:70-105 | over any turns, bytes handed over plus bytes pending are the bytes announced since the last loss, and the segments never reach across a loss |
| Uart.NoneJoined | FW/main/ir_protocol.c:265-284 | every packet on the line lies within one loss-free stretch, and what waits is the end of the current one |
| Uart.LossFree | FW/main/ir_transport_uart.c:70-105 | while the driver has the bytes it announces and reports no error, nothing is lost and what is handed over is the stream, up to what was announced |
| Uart.Uncut | FW/main/ir_protocol.c:265-284 | while the driver delivers and no long silence falls on something incomplete, the candidates are those of one scan of the bytes sent, whatever the turns |
| Uart.CutLoses | FW/main/ir_protocol.c:277-280 | once a silence has cut off a part, nothing as long as the whole is found |
| Uart.PacketSurvives | FW/main/ir_protocol.c:265-284 | a packet that the turns bring is received, as the only new candidate, if and only if no turn between its first byte and its last finds the turn of the last byte 250 ms or more ago, by the clocks of the two turns |
| Uart.EndFoundWithin | FW/main/ir_protocol.c:256-263 | packets recovered by expiry are contiguous runs of the buffer |
| Clients.Drain | aidl/default/Ir.cpp:157-214 | the inner loop finds the first match of the scan, or leaves what the scan leaves |
| Clients.CliTurn | IR-driver/ir_cli.py:46-72 | one turn asks for exactly the missing bytes, or moves the search on without losing an answer |
| Clients.NeededIsMinimal | IR-driver/ir_cli.py:46-75 | the bytes asked for fit a maximum-size packet, and with any fewer the candidate could not be judged |
| Clients.CliReceive | IR-driver/ir_cli.py:40-83 | returns the first matching response in the bytes received, a genuine one by its own bytes, and does so if and only if the events bring one before the first event fatal to the tool; an OS error is that event's; time runs out only after everything has been read; every read asks for exactly the bytes needed, at most 256 |
| Clients.BufferBound | IR-driver/ir_cli.py:46-75 | over all reads made, the bytes still waiting and those just read are at most 1052 for the tool, none of them beyond the candidate waited for, and fewer than 1052+256 for the HAL |
| Clients.SerialReceive | FW/tools/ir_client.py:21-45 | the byte-at-a-time receiver returns the first strictly matching response, a genuine one by its own bytes, or has read everything |
| Clients.HalReceive | aidl/default/Ir.cpp:150-255 | returns the first matching response in the bytes received, a genuine one by its own bytes, and does so if and only if the events bring one before the first fatal event; otherwise it fails with that event's error; every read asks for 256 bytes |
| Silences.ReadReturns | IR-driver/ir.c:249-323 | a read that returns bytes has met no event fatal to its client, and leaves the client where the events put its next read |
| Silences.ReadGivesUp | IR-driver/ir.c:313-322 | a read that fails with an error its client does not retry has met the first fatal event, that is, the first to find the read under way empty-handed |
| Silences.FatalSpelledOut | aidl/default/Ir.cpp:238-245 | which errors are fatal to which client, by number |
| Silences.ServiceCopied | aidl/default/Ir.cpp:216-246 | what a read of the HAL has copied is the bytes since the last event without any, modulo 256 |
| Clients.AnswerStable | IR-driver/ir_cli.py:45-81 | an answer never changes when more of the stream arrives |
| Clients.AnswerIsGenuine | IR-driver/ir_cli.py:59-70 | an answer is the status and payload of an intact version 1 response to this command and sequence, found among the bytes received |
| Clients.ReceiversAgree | IR-driver/ir_cli.py:45-81 | two receivers of the same stream both return, and the same, or both give up, however their reads were cut |
| Clients.StrictStopsThere | FW/tools/ir_client.py:43-44 | the strict receiver stops at the same packet if and only if that packet's flags are exactly 1 |
| Clients.StrictAnswer | FW/tools/ir_client.py:43-44 | on any stream with an answer the serial client has the same one if and only if its flags are exactly 1 |
| Clients.StrictMisses | FW/tools/ir_client.py:43-44 | a response with flags 3 is returned by the tool and the HAL and missed by the serial client |
| Clients.StrictReceiverAgrees | FW/tools/ir_client.py:21-45 | when all packets carry flags 0 or 1, the serial client and the others return the same or all give up |
| Clients.FlagsZeroOrOne | FW/tools/ir_client.py:43-44 | on packets with flags 0 or 1 the strict and the masking test find the same response |
| Hal.BuildRequest | aidl/default/Ir.cpp:103-130 | the request written by index is the packet of its fields |
| Hal.VectorCrc | aidl/default/Ir.cpp:30-47 | the HAL's checksum is the firmware's |
| Hal.EncodePattern | aidl/default/Ir.cpp:337-393 | refuses exactly bad carriers and bad counts, and otherwise writes the payload of the pattern's code |
| Hal.FirmwareAcceptsPattern | aidl/default/Ir.cpp:372-393 | the firmware accepts the payload exactly when every entry has a length, except perhaps a final SPACE, and then decodes the clamped, padded pattern |
| EndToEnd.FeedPieces | FW/main/ir_protocol.c:243-252 | however a stream is cut into feed calls, candidates, effects and buffer are those of one scan |
| EndToEnd.FeedExpireFeed | FW/main/ir_protocol.c:243-263 | after any stream and an expiry, a well-formed packet is handled exactly once and last, with the effects of the end-of-input scan before it |
| EndToEnd.StrayPacketsHarmless | IR-driver/ir_cli.py:65-71 | any number of whole packets that each differ in version, command, sequence or response bit leave the client where it was |
| EndToEnd.ReplyIsAnswer | IR-driver/ir_cli.py:45-81 | after harmless bytes a matching reply is the answer, whatever follows it |
| EndToEnd.RequestDeed | FW/main/ir_protocol.c:157-206 | a built request is found alone and answered once, with a reply its sender matches |
| EndToEnd.CliHears | IR-driver/ir_cli.py:40-83 | for every trace of events the tool returns the reply if and only if no event up to the one that completes it is fatal to it, and otherwise stops with the first fatal error |
| EndToEnd.BenignArrives | IR-driver/ir_cli.py:74-79 | for the tool, timeouts anywhere are never fatal |
| EndToEnd.HalHears | aidl/default/Ir.cpp:150-255 | for every trace of events the HAL returns the reply if and only if no event up to the one that completes it is fatal, and otherwise stops with the first fatal error |
| EndToEnd.GetsIffArrives | aidl/default/Ir.cpp:150-255 | an answer can be had from the first events exactly when they carry the reply to its last byte |
| EndToEnd.SerialHears | FW/tools/ir_client.py:21-45 | the serial client returns the reply for any timing of the bytes |
| EndToEnd.SilenceSeparates | aidl/default/Ir.cpp:236-245 | after any silences the tool gets the reply, and the HAL gets it if and only if none of them timed out, failing with ETIMEDOUT otherwise |
| EndToEnd.EchoIsIgnored | FW/main/ir_protocol.c:161-165 | the responses of any run of the protocol task, losses and silences included, are found by another device fed with them and have no effect on it |
| EndToEnd.CliExchange | IR-driver/ir_cli.py:86-105 | through the protocol task and the driver, for every command, sequence and payload, any turns that bring the request uninterrupted and any packetisation of the reply among other bytes: the tool returns exactly the status and payload the firmware answered with, unless a fatal event comes before the end of the reply |
| EndToEnd.CanBeCarried | FW/main/ir_transport_uart.c:70-105 | turns as the exchanges assume them exist for every line and everything sent |
| EndToEnd.HalService.ExchangePacket | aidl/default/Ir.cpp:89-255 | the same for the HAL, with its sequence number advanced by one modulo 2^16 |
| EndToEnd.HalService.Transmit | aidl/default/Ir.cpp:328-404 | reports success exactly when the pattern is playable, its transmission succeeded and the reply arrives; the firmware sent exactly the code of a playable pattern, whatever becomes of the reply |
| EndToEnd.PatternIsHeard | aidl/default/Ir.cpp:337-393 | the HAL takes exactly the carriers from 20 to 60 kHz, or none; a playable pattern is emitted at exactly the carrier asked for, or at 38 kHz, entry by entry, clamped and padded |

## Left out

- ESP-IDF, FreeRTOS, USB and zlib internals: assumed operations; at most one completion per arming, an interrupt only while armed, `uart_read_bytes` returns at most what is asked for, `zlib.crc32` is the bitwise checksum.
- Capture and transmit inside the parser: their outcomes are an oracle; `Capture.dfy` and `Transmit.dfy` model what is behind it.
- The capture code as running C: it is a state machine over values, not a class, because several tasks and an interrupt interleave; `normalize_frame` is the in-place method beside it.
- Responses the UART fails to send: the firmware logs the error and goes on, so a response counts as made when it is handed to the transport.
- An eligible completion that arrives between a failed queue receive and `finish_capture` is not claimed to be kept; only completions actually dequeued are judged.
- Clients.CliReceive: the wall-clock deadline is the moment nothing more will arrive, because clocks are not part of the model; an earlier deadline only shortens the bytes received.
- Clients.HalReceive: `poll` is taken to report readiness always, as it does for a device without a poll operation, and the wall-clock deadline is left out for the same reason.
- Hal.EncodePattern: beyond 512 entries only acceptance is stated, because the 16-bit cast of the symbol count precedes its check.
- Hal.FirmwareAcceptsPattern: patterns with negative entries are not covered, as their cast and mask is not promised anywhere.
- FtdiDriver.IrDevice.Read: a finite list of USB events followed by timeouts, because status-only packets can keep the loop going for ever.
- Transmit.Transmitter.Send: callers are serialised by the lock; the call is one atomic method with the driver's answers as parameters.
- Two simultaneous readers or writers of the character device: the mutexes serialise them.
- Logging, pin and Kconfig checks, FTDI control requests, sysfs carrier, probe and disconnect, reference counting, command line parsing, the Android service, the app and the Java manager: input, output or configuration that would only add easy members.
- `HAL/ir/1.0/default/ConsumerIr.cpp`: it fills in neither length nor checksum, so it does not speak this wire format; `HAL/ir/hardware/interfaces/devtitans_ir/default/Ir.cpp` duplicates the HAL modelled here.
