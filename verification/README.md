# The Tilt roller-shade protocol, verified

This project models, in Dafny, the transport of the Tilt roller shades in `smartblinds_ble`:
the BLE link layer, the CRC, the AES-CTR application layer, the session that runs them, the
client on top with its global lock, the shade as the test harness spells it out, and the
packet-trace reassembler. `dafny verify dfyconfig.toml` checks all of it.

## How the files fit together

| layer | files |
|---|---|
| bytes and outcomes | `Bytes`, `Results` |
| checksum | `Crc16` (the byte-wise loop against long division over bits), `CrcOrder` (the order of x modulo the generator), `CrcDetection` (what goes undetected), `AdjacentBytes` (two neighbouring bytes), `AdjacentResponses` (the same through masking and decoding) |
| link | `BleLink` (chunks, acknowledgements, assembler), `Reassembly` (streams of chunks), `LinkLedger`, `StopAndWait` (the two-party machine over FIFO channels that delay, lose and duplicate), `GivingUp` (what calls that gave up leave missing), `WholeMessages` (frames of one chunk), `OneAttempt` (frames never retried, on a link that duplicates nothing), `Schedule` (the run that loses nothing) |
| codec | `CryptoFrames` (checksum and handshake messages), `Ctr` (counter mode), `AppCodec`, `Status`, `Ids` (the two id cycles) |
| session and client | `Handshake`, `Requests` (handshake, read and movement as programs over their answers), `Session` (class `TiltBleSession`), `Client` (class `TiltShadeClient`), `Cleanup` (lock and cancellation-safe cleanup) |
| shade | `Shade` (class `FakeShadeClient`), `LossFree` (whole sessions with it) |
| traces | `PacketLog`, `Acl` |

Conventions. Exceptions are values of `Results.Error`. A byte is an integer below 256; only the
checksum and the mask of counter mode use bit-vectors. AES and HMAC-SHA256 are parameters: an
arbitrary block function and an arbitrary 32-byte proof function. Classes carry the source's
fields; each method is proved against a function of the old state or against its stated
property. Fields marked `ghost` are history that no code reads. Where the source awaits, the
session's methods let any number of notifications and worker steps happen (`Interleave`), and
how the await ends is a parameter or any choice (`Choose`): nothing is assumed about the link, the
peer or the clock.

## What the proofs found

* **Delivered is not always complete, and the condition is exact.** A refused repeat drops the
  buffer but leaves the expected number, so a frame of several chunks whose chunk before the
  last is repeated is handed over without its beginning. It arrives whole if and only if no chunk
  before the last is repeated (`WholeUnlessRepeated`, with `TruncationExample`). Everything a
  session sends is one chunk (`FramesFit`), and for such frames every message the shade's
  assembler delivers is exactly one frame of one call, over every run (`DeliversOnlySentFrames`).
* **Acknowledged is not always received.** After a call that gave up, its late acknowledgement
  carries the number that the next call's chunk uses, and ends that call although its frame was
  lost (`AcknowledgedNotReceived`). An acknowledged call was received if and only if it is the
  one whose chunk was accepted at its position, which it is whenever no other call began there
  (`AcknowledgedMeansReceived`).
* **When delivered equals sent.** For frames of one chunk, between calls, if and only if no call
  gave up, or one did and the receiver accepted one chunk more than was acknowledged
  (`DeliversEverySentFrame`). In the other direction the shade's answers have several chunks,
  each written once; on a link that duplicates nothing delivered equals sent if and only if no
  call gave up, or only the last one did and all of its chunks were accepted
  (`DeliveredEqualsSent`). That nothing else will do holds of every run, whatever the frames,
  retries and duplicates (`EqualOnlyIfNoneMissing`). After an answer that was given up a later
  one can be delivered without its beginning (`LateChunkTruncates`), or with the buffered part of
  the first glued before it (`StaleBufferGlues`); and with a chunk duplicated by the link a call
  that ends well delivers the end of its frame alone (`DuplicateTruncates`). The checksum then has
  to catch it.
* **The checksum misses one pair of neighbouring bytes.** Its trailer is little-endian, so it is
  not the remainder in bit order. If two neighbouring bytes of a frame change, the frame stays
  valid if and only if they are the last byte of the payload and the first of the trailer, and
  change by 0x89 and 0xA1 (`AdjacentChange`); every frame with a payload has such a twin
  (`UndetectedTwin`). Through mask and decoder such a response is accepted just when its payload
  is long enough to hide the change (`AdjacentResponse`); a status read is never fooled, because
  the byte is then its calibration flag (`AdjacentStatus`).
* **Two cancellations of one cleanup are one too many.** With at most one, a connected client
  implies that its session still holds the lock or that its cleanup failed
  (`ConnectedHoldsLock`); with two, the lock is free, nothing has failed, and the client is still
  connected (`CancelledTwice`). `CleanupComesTo` lists what every cleanup comes to.
* **A start fragment without its whole L2CAP header** is dropped, but the continuations that
  follow it are appended to the PDU that was under way (`SplitHeader`).
* **Documentation against code.** The module comment of `contrib/parse_pklg.py` says that
  record fields are big-endian; the code reads the length little-endian, and the model follows
  the code.

## Model

| member | source | states |
|---|---|---|
| Crc16.Crc16 | src/smartblinds_ble/tilt/protocol.py:118-127 | The byte-at-a-time loop computes the remainder of bit-by-bit division by x^16+x^12+x^5+1, preset 0xFFFF, for every byte string |
| Crc16.CheckVector | tests/test_tilt_protocol.py:17-23 | The checksum of the text "123456789" is 0x29B1, that of no bytes 0xFFFF |
| Crc16.ByteStepDivides | src/smartblinds_ble/tilt/protocol.py:122-126 | One pass of the loop (rotate, then three shifted xors) equals eight steps of division fed with the byte's bits |
| Crc16.DivideDifference | src/smartblinds_ble/tilt/protocol.py:118-127 | Registers that divide two streams of one length differ by what the difference of the registers leaves of the difference of the streams |
| CrcDetection.ChecksumDifference | src/smartblinds_ble/tilt/protocol.py:118-127 | The checksums of two messages of one length differ by the plain remainder of their difference: the checksum is affine over xor |
| CrcDetection.ChecksumParity | src/smartblinds_ble/tilt/protocol.py:118-127 | The checksum has as many set bits as the message, modulo two |
| CrcOrder.OrderOfX | src/smartblinds_ble/tilt/protocol.py:118-127 | x to the k is 1 modulo the generator if and only if k is a multiple of 32767 |
| Crc16.TimesXSubtractsGenerator | src/smartblinds_ble/tilt/protocol.py:118-127 | Shifting the register by one bit multiplies by x modulo x^16+x^12+x^5+1: the generator is subtracted just when a bit falls out |
| CrcDetection.SealedDividesOut | src/smartblinds_ble/tilt/protocol.py:149-163 | With the little-endian trailer turned back, a frame carries its checksum if and only if its bits divide out, so the residue rule holds in this form only |
| CrcDetection.MinimumDistanceFour | src/smartblinds_ble/tilt/protocol.py:118-163 | Two different frames of up to 4095 bytes with valid checksums are at least four bit errors apart, trailer included |
| CrcDetection.OddErrorsDetected | src/smartblinds_ble/tilt/protocol.py:118-163 | At any length, two frames with valid checksums differ in an even number of bits |
| CrcDetection.BurstDetected | src/smartblinds_ble/tilt/protocol.py:118-127 | Changes confined to sixteen consecutive bits, at any offset and length, change the checksum |
| CrcDetection.PayloadBurstDetected | src/smartblinds_ble/tilt/protocol.py:149-163 | A valid frame whose payload changes within sixteen consecutive bits, the trailer untouched, is no longer valid |
| AdjacentBytes.AdjacentChange | src/smartblinds_ble/tilt/protocol.py:149-163 | A valid frame with two neighbouring bytes changed stays valid if and only if they are the last of the payload and the first of the trailer, changed by 0x89 and 0xA1 |
| AdjacentBytes.UndetectedTwin | src/smartblinds_ble/tilt/protocol.py:149-163 | Every valid frame with a payload becomes another valid frame under that change |
| AdjacentResponses.VerifyAdjacent | src/smartblinds_ble/tilt/protocol.py:149-163 | Checksum verification rejects every change of two neighbouring bytes but that one |
| AdjacentResponses.AdjacentResponse | src/smartblinds_ble/tilt/protocol.py:324-374 | An acceptable response with two neighbouring bytes changed is accepted if and only if it is that change and the last payload byte is not the command or the one an ACK names; only that byte then differs |
| AdjacentResponses.AdjacentStatus | src/smartblinds_ble/tilt/protocol.py:324-418 | No change of two neighbouring bytes turns the response of a status read into that of another status |
| BleLink.ChunkForBle | src/smartblinds_ble/tilt/protocol.py:441-454 | The loop yields the recursive cut of the frame into chunks, and raises exactly for an empty frame or a number outside 1..63 |
| BleLink.ChunksParse | src/smartblinds_ble/tilt/protocol.py:441-472 | Chunk k has 20 bytes, the last one what is left, and parses to the k-th number after the start, its slice of the frame, and the end mark on the last chunk only |
| BleLink.ParseChunkExact | src/smartblinds_ble/tilt/protocol.py:457-472 | A chunk parses if and only if it is a zero byte, a byte of end flag, link flag and number (not 0 for data), and up to 18 bytes; anything else is a protocol error |
| BleLink.SequenceAtNext | src/smartblinds_ble/tilt/protocol.py:492-495 | Stepping through 1..63 reaches 1 + ((start - 1 + k) mod 63) after k steps |
| BleLink.AckRoundTrip | src/smartblinds_ble/tilt/protocol.py:475-489 | Acknowledgement parsing accepts exactly the encoding of each number, up to the six header bits it does not inspect |
| BleLink.BleMessageAssembler.AddChunk | src/smartblinds_ble/tilt/protocol.py:511-525 | New state and result or error of add, for every state and every input, as the step function whose runs Reassembly studies |
| BleLink.BleMessageAssembler.constructor | src/smartblinds_ble/tilt/protocol.py:501-505 | A new assembler expects the given number and has buffered nothing |
| Reassembly.DeliversStream | src/smartblinds_ble/tilt/protocol.py:441-525 | Frames sent back to back from any number come out whole and in order, each chunk acknowledged by its number, the final expected number 1 + ((start - 1 + chunks) mod 63) |
| Reassembly.TakesFrame | src/smartblinds_ble/tilt/protocol.py:511-525 | A frame's chunks at the expected number give None until the last, which hands over the frame behind what was buffered |
| Reassembly.GapNoticed | src/smartblinds_ble/tilt/protocol.py:511-517 | Before a gap the deliveries are a prefix of the frames; the gap raises and drops the buffer if and only if it is not a multiple of 63 chunks |
| Reassembly.WholeUnlessRepeated | src/smartblinds_ble/tilt/protocol.py:511-525 | Under repeats a frame is handed over whole if and only if no chunk before its last was repeated |
| Reassembly.TruncationExample | src/smartblinds_ble/tilt/protocol.py:515-516 | A 20-byte frame whose first chunk is repeated is handed over as its last two bytes |
| Reassembly.DeliveryExplained | src/smartblinds_ble/tilt/protocol.py:511-525 | Whatever arrives, a message handed over is the concatenation of exactly the payloads accepted since the last delivery or sequence error, with consecutive numbers |
| StopAndWait.ExpectedFollowsSender | src/smartblinds_ble/tilt/ble.py:471-493 | Over every run the receiver expects the sender's number or its successor, and has accepted as many chunks as were acknowledged or one more: no position is accepted twice |
| StopAndWait.InFlightBlocks | src/smartblinds_ble/tilt/ble.py:471-493 | Over every run the chunks in flight are a block with the previous number followed by a block with the current one |
| StopAndWait.StepKeepsInvariant | tests/tilt_helpers.py:120-146 | Every step of sender, receiver (either acknowledgement order) and of channels that delay, lose and duplicate keeps both parties in step with the unwrapped positions |
| StopAndWait.AcceptsNewPosition | src/smartblinds_ble/tilt/protocol.py:511-525 | The receiver accepts a chunk just when its position is the first it lacks, and otherwise drops its buffer and nothing else |
| StopAndWait.ReceivesExactly | tests/tilt_helpers.py:120-131 | What an arriving chunk does in every reachable state: at a new position it is accepted, acknowledged and buffered or handed over; any other empties the buffer and is acknowledged only by the party that acknowledges first |
| StopAndWait.ChannelsOnly | src/smartblinds_ble/tilt/ble.py:471-493 | Losing and duplicating takes one packet out of its channel, or puts it there twice, and changes neither party |
| WholeMessages.DeliversOnlySentFrames | src/smartblinds_ble/tilt/ble.py:471-493 | If every frame is one chunk, then whatever the link loses, delays or duplicates and the sender repeats, each message delivered is one sent frame exactly, of a later call than the one before |
| WholeMessages.DeliversEverySentFrame | src/smartblinds_ble/tilt/ble.py:471-493 | Between calls delivered equals sent if and only if no call gave up, or one did and the receiver accepted one chunk more than was acknowledged |
| WholeMessages.AcknowledgedMeansReceived | src/smartblinds_ble/tilt/ble.py:475-493 | The frame delivered at the position of an acknowledged call is that of a call that began there, and the acknowledged call was received if and only if it is that one; so it was, if no other call began there |
| WholeMessages.AcknowledgedNotReceived | src/smartblinds_ble/tilt/ble.py:475-493 | A late acknowledgement of a timed-out write ends its readback although the readback's chunk is lost |
| OneAttempt.DeliversWholeFrames | tests/tilt_helpers.py:139-146 | Frames of any length whose chunks are written once each, as the shade sends its answers, on a link that loses and delays: while no call has given up, the messages delivered are exactly the frames sent, all of them or all but the one under way |
| OneAttempt.DeliveredEqualsSent | tests/tilt_helpers.py:139-146 | Between such calls delivered equals sent if and only if no call gave up, or one did and the receiver accepted every chunk of every frame, one more than was acknowledged |
| GivingUp.EqualOnlyIfNoneMissing | src/smartblinds_ble/tilt/ble.py:471-493 | In every run, with any frames, retries, losses and duplicates, delivered can equal sent between calls only under that condition |
| OneAttempt.LateChunkTruncates | tests/tilt_helpers.py:139-146 | After a call that gave up, its late first chunk can make the receiver deliver only the end of the next frame |
| OneAttempt.StaleBufferGlues | tests/tilt_helpers.py:139-146 | After a call that gave up in mid-frame, what it left in the buffer can be delivered in front of the next frame |
| OneAttempt.DuplicateTruncates | tests/tilt_helpers.py:139-146 | With one chunk duplicated by the link, a call that ends well delivers the end of its frame alone |
| Schedule.CarriesFrame | src/smartblinds_ble/tilt/ble.py:471-493 | When nothing is lost, each chunk written, delivered, acknowledged and heard in turn is a run of the link, in either acknowledgement order; it delivers the frame whole, has every chunk acknowledged and leaves the link quiet |
| CryptoFrames.VerifyAppend | src/smartblinds_ble/tilt/protocol.py:149-163 | Verification returns a payload if and only if it is non-empty and the data is that payload with its checksum appended |
| CryptoFrames.VerifySealed | src/smartblinds_ble/tilt/protocol.py:154-163 | Verification succeeds just for at least three bytes that, with the header, carry a valid checksum, and a bad checksum is an authentication error |
| CryptoFrames.CryptoFrameBytes | src/smartblinds_ble/tilt/protocol.py:149-179 | The bytes of the four crypto messages: 0x80 0x00, the command's code, the payload, the checksum |
| CryptoFrames.ParseCryptoExact | src/smartblinds_ble/tilt/protocol.py:198-217 | Parsing accepts exactly the crypto frames and inverts building them |
| CryptoFrames.ParseCryptoErrors | src/smartblinds_ble/tilt/protocol.py:198-217 | A frame with the layer's header whose checksum does not fit is an authentication error; anything else that does not parse is a protocol error |
| CryptoFrames.ParseVersionsExact | src/smartblinds_ble/tilt/protocol.py:220-229 | A version list is accepted just when the payload starts with its count and its bytes |
| CryptoFrames.ParseNonceExact | src/smartblinds_ble/tilt/protocol.py:232-237 | A nonce response is accepted just when it is 12 nonce bytes and 32 proof bytes |
| CryptoFrames.ProofSigns | src/smartblinds_ble/tilt/protocol.py:137-140 | A proof is the signature of the 32 bytes of "Signed Trogdor string, by Ryjan." under a key of 32 bytes, and nothing else |
| CryptoFrames.ProofMatches | src/smartblinds_ble/tilt/protocol.py:143-146 | A proof matches if and only if it is the key's own; one of another length never does, whatever the key |
| Handshake.ChoosesVersion | src/smartblinds_ble/tilt/ble.py:341-347 | Version 2 is chosen from exactly the lists that have it, 1 from exactly those others that have that |
| Handshake.ConfirmsSelection | src/smartblinds_ble/tilt/ble.py:353-361 | A selection is confirmed by exactly two frames: the echo of the version, and an ACK that names the selection command |
| Handshake.TakesNonce | src/smartblinds_ble/tilt/ble.py:367-369 | The nonce is taken from exactly the frame that carries it with the proof of this key |
| Handshake.HandshakeRefuses | src/smartblinds_ble/tilt/ble.py:341-369 | A reply that does not parse raises what parsing it raised, a wrong proof an authentication error, any other refusal a protocol error |
| Ctr.CtrInvolution | src/smartblinds_ble/tilt/protocol.py:240-248 | Masking twice under the same key and initial block gives the data back, for every block function |
| Ctr.CounterBlockShape | src/smartblinds_ble/tilt/protocol.py:275-279 | Because the initial block ends in 0x0000, the 128-bit counter of block i is nonce, header plus i div 65536, i mod 65536 |
| Ctr.CounterBlocksDisjoint | src/smartblinds_ble/tilt/protocol.py:275-279 | Up to 65536 blocks, counter blocks coincide if and only if header and block number do |
| Ctr.CounterBlocksMeet | src/smartblinds_ble/tilt/protocol.py:275-279 | The bound is sharp: block 65536 of one header is block 0 of the next |
| Ctr.AesCtrMasks | src/smartblinds_ble/tilt/protocol.py:240-248 | Byte j of block i is xored with byte j of what the cipher makes, under the first 16 key bytes, of nonce, header number plus i div 65536, and i mod 65536 |
| Ctr.CtrCarriesErrors | src/smartblinds_ble/tilt/protocol.py:240-248 | Counter mode passes bit errors through unchanged in number |
| AppCodec.UnprotectExact | src/smartblinds_ble/tilt/protocol.py:263-279 | Unmasking and checking returns presentation bytes if and only if the frame is what protecting them gives |
| AppCodec.RequestBytes | src/smartblinds_ble/tilt/protocol.py:263-279 | Every byte of a request: the counter in clear, then message id, command, payload and checksum, each under the mask of nonce, counter and block |
| AppCodec.ResponseBytes | tests/tilt_helpers.py:41-56 | Every byte of a response: the same with the response flag set, under masks whose blocks carry the counter plus 0x8000 |
| AppCodec.PositionRequestRead | src/smartblinds_ble/tilt/protocol.py:297-321 | The shade reads in a movement its counter and id, ten times the percent, and the speed |
| AppCodec.ReadRequestRead | src/smartblinds_ble/tilt/protocol.py:282-294 | The shade reads in a read its counter and id and the command, without payload |
| AppCodec.DecryptExact | tests/tilt_helpers.py:59-67 | Of any protected frame the shade reads the low fifteen bits of the counter, the low four of the presentation byte, command and payload |
| AppCodec.RequestRoundTrip | tests/tilt_helpers.py:59-66 | The shade recovers counter, message id, command and payload of every request the central can build |
| AppCodec.RequestsFit | src/smartblinds_ble/tilt/protocol.py:263-321 | Exactly when each request can be built, that it then has 6 or 9 bytes, and with which error it is refused otherwise |
| AppCodec.ResponseRoundTrip | src/smartblinds_ble/tilt/protocol.py:324-374 | The central accepts the shade's response, and gets back what was sent, just when it answers the command; otherwise it is a protocol error |
| AppCodec.DecodeExact | src/smartblinds_ble/tilt/protocol.py:324-374 | With an expected counter, decoding accepts exactly the encodings of the expected pair with the expected command or an ACK naming it, up to bit 7 of the presentation byte |
| AppCodec.DecodeAuthenticates | src/smartblinds_ble/tilt/protocol.py:324-374 | Decoding raises an authentication error if and only if the frame has the expected counter and its checksum does not fit once unmasked |
| AppCodec.DecodeAnyCounter | src/smartblinds_ble/tilt/protocol.py:324-374 | Without an expected counter a response is accepted if and only if it is when its own counter is expected |
| AppCodec.CorruptedResponseRejected | src/smartblinds_ble/tilt/protocol.py:324-374 | With an expected counter, an acceptable response with one to three bits changed (to 4095 bytes), or any odd number, anywhere in the frame, is rejected |
| AppCodec.LateResponseRejected | src/smartblinds_ble/tilt/protocol.py:342-358 | A response under another counter or message id is a protocol error, whatever its command |
| AppCodec.DecodeErrors | src/smartblinds_ble/tilt/protocol.py:324-374 | A bad key or nonce is a protocol error; a command outside the allowlist, and nothing else, an unsafe-command error; there is no other kind but the authentication error |
| Status.ParseStatusExact | src/smartblinds_ble/tilt/protocol.py:391-418 | Status parsing accepts exactly the five-byte payloads with position to 1000, battery to 100 and a boolean flag, and inverts building them |
| Status.ParseRawExact | src/smartblinds_ble/tilt/protocol.py:391-399 | A raw position is read exactly from status and position responses that begin with one up to 1000 |
| Status.PercentIsNearest | src/smartblinds_ble/tilt/protocol.py:433-438 | The percent is within 5 raw units, is the nearest whole percent, and of two equally near the even one |
| Status.PercentMonotone | src/smartblinds_ble/tilt/protocol.py:433-438 | A larger raw position never has a smaller percent |
| Status.PercentInRange | src/smartblinds_ble/tilt/protocol.py:433-438 | Exactly the raw positions 0 to 1000 have a percent; others are a protocol error |
| Status.PercentLeftInverse | src/smartblinds_ble/tilt/protocol.py:433-438 | The raw position that a request carries for a percent, ten times it, converts back to that percent; above 100 it is refused |
| Ids.TakesInCycles | src/smartblinds_ble/tilt/ble.py:427-432 | After k calls the next pair is (k mod 32767) + 1 and (k mod 15) + 1 |
| Ids.PairsRepeat | src/smartblinds_ble/tilt/ble.py:427-432 | Two calls take the same pair if and only if they are a multiple of 491505 apart |
| Ids.ResponseOfOtherCall | src/smartblinds_ble/tilt/protocol.py:342-358 | A response to an earlier call is accepted if and only if it answers the command and the calls are a multiple of 491505 apart |
| Ids.KeystreamReuse | src/smartblinds_ble/tilt/protocol.py:275-279 | Over a session two frames of up to 65536 blocks share a counter block if and only if direction and block agree and the calls are a multiple of 32767 apart |
| Ids.RequestUnderBlocks | src/smartblinds_ble/tilt/protocol.py:275-279 | The counter blocks so compared are those that mask the request of the call, byte by byte |
| Ids.ResponseUnderBlocks | tests/tilt_helpers.py:41-56 | And those that mask the shade's response to it |
| Session.TiltBleSession.constructor | src/smartblinds_ble/tilt/ble.py:292-312 | A new session has number 1, ids 1 and 1, no nonce, empty queues and no waiters |
| Session.TiltBleSession.Fail | src/smartblinds_ble/tilt/ble.py:462-469 | Exactly the waiters that were open fail with the error, the others stay as they are, and the response queue is non-empty afterwards, full or not |
| Session.TiltBleSession.NotificationReceived | src/smartblinds_ble/tilt/ble.py:434-438 | A notification is queued, or with 128 waiting the session fails |
| Session.TiltBleSession.HearAck | src/smartblinds_ble/tilt/ble.py:446-449 | An acknowledgement resolves just the waiter of its number, unless it is done |
| Session.TiltBleSession.WorkerTakes | src/smartblinds_ble/tilt/ble.py:440-454 | What one notification does: an acknowledgement is heard, a chunk steps the assembler and is acknowledged if accepted, anything else fails the session |
| Session.TiltBleSession.WorkerAckEnds | src/smartblinds_ble/tilt/ble.py:452-460 | A completed message is queued only after its acknowledgement was written; a full queue or a failed write fails the session |
| Session.TiltBleSession.Interleave | src/smartblinds_ble/tilt/ble.py:434-469 | Whatever arrives, nothing but the sender changes ids, number, writes or what was dequeued; a non-empty response queue stays non-empty |
| Session.TiltBleSession.AwaitAck | src/smartblinds_ble/tilt/ble.py:483-483 | A waiter that is done gives its result or its error, and one that is never done a time-out |
| Session.TiltBleSession.TryChunk | src/smartblinds_ble/tilt/ble.py:479-492 | One attempt writes the chunk once and leaves no waiter behind, however it ends; a write that raises, a time-out and a cancellation end it as such, and otherwise it gives the acknowledgement or the first failure since it began |
| Session.TiltBleSession.SendChunk | src/smartblinds_ble/tilt/ble.py:475-493 | A chunk is tried again after every time-out and after nothing else, up to the number of attempts; the outcome is that of the last try, a time-out as TiltBleTimeout, and the number advances just when it is acknowledged |
| Session.TiltBleSession.AwaitResponse | src/smartblinds_ble/tilt/ble.py:494-502 | The oldest queued response is returned, or raised if it is an error, and taken from the queue; an empty queue, the end of the time and a cancellation raise as such and take nothing |
| Session.TiltBleSession.SendFrame | src/smartblinds_ble/tilt/ble.py:471-502 | With a stale response it raises before writing anything; on every exit no waiter is left; each chunk is tried until it is acknowledged or its tries are used up, and the next only then; the number is 1 + (chunks acknowledged in the session mod 63); what is returned or raised is what the failed chunk's tries came to, or the first response queued since the call |
| Session.TimedOutTries | src/smartblinds_ble/tilt/ble.py:477-489 | A call whose last try timed out raised TiltBleTimeout and wrote that chunk exactly as often as it may: twice with retries, else once |
| Session.ReplayNumbers | src/smartblinds_ble/tilt/ble.py:493-493 | After any history of steps and heard acknowledgements the number is 1 + (chunks acknowledged mod 63) and is that of the current chunk |
| Session.LinkReplays | src/smartblinds_ble/tilt/ble.py:471-493 | Every run of the two-party link is, on the sender's side, a history of a session: replaying what the link's sender did and heard leads to its state |
| Session.StaysFailed | src/smartblinds_ble/tilt/ble.py:462-474 | After a failure between requests every later call, with or without retry, raises and nothing more is written, whatever arrives in between |
| Session.TiltBleSession.TakeApplicationIds | src/smartblinds_ble/tilt/ble.py:427-432 | The call takes the pair of its index in the two cycles |
| Session.TiltBleSession.ApplicationRequest | src/smartblinds_ble/tilt/ble.py:397-425 | Without a nonce it raises and writes nothing; otherwise it makes one exchange of the encoded request, if that can be built, and its result is exactly what decoding under this request's own pair makes of the answer, the first response queued since |
| Session.TiltBleSession.ReadStatus | src/smartblinds_ble/tilt/ble.py:373-375 | One exchange of the status request; the result is exactly the status or the error that this request's own answer decodes to |
| Requests.StatusOwnPair | src/smartblinds_ble/tilt/ble.py:397-420 | The frame a status came in encodes GET_STATUS under exactly this request's pair, this key and this nonce |
| Session.TiltBleSession.SetPosition | src/smartblinds_ble/tilt/ble.py:377-395 | One exchange of the encoded movement, no chunk of it written twice; it succeeds if and only if the answer is accepted for this very request, and otherwise raises its error |
| Session.TiltBleSession.Authenticate | src/smartblinds_ble/tilt/ble.py:336-371 | The exchanges are those of the handshake's program, each request made once the answer before it was good; the outcome and the nonce are exactly the program's, unless one of the four pauses is cancelled, which ends it there |
| Requests.HandshakeAgrees | src/smartblinds_ble/tilt/ble.py:336-371 | The handshake ends with a nonce if and only if the three answers are a version list that offers some version (2 before 1), the echo of that version or an ACK of the selection, and the nonce with the proof of this key |
| Requests.HandshakeAsks | src/smartblinds_ble/tilt/ble.py:336-371 | It asks for the versions, the selection of the version offered, and the nonce, each with retries and each only after a good answer, and for nothing else |
| Requests.HandshakeRequests | src/smartblinds_ble/tilt/protocol.py:166-195 | The encoders build exactly the version request, the nonce request and the selection of version 1 or 2, and refuse everything else |
| Requests.FramesFit | src/smartblinds_ble/tilt/protocol.py:166-321 | Every frame a session can send has 5, 6 or 9 bytes and so is one chunk |
| Requests.RequestsRead | src/smartblinds_ble/tilt/ble.py:377-410 | What the shade reads in request k: the pair of that call, and of a movement ten times the percent at speed 100 |
| Requests.VerdictExact | src/smartblinds_ble/tilt/ble.py:82-87 | Away from the target the verdict is positive if and only if the percent moved strictly toward it |
| Requests.MovedExactly | src/smartblinds_ble/tilt/ble.py:183-218 | (status, False) if and only if the first read reports the target; (status, True) if and only if the movement was accepted or timed out and the second read reports a strict move toward it; pending if and only if it reports none |
| Requests.AmbiguousExactly | src/smartblinds_ble/tilt/ble.py:189-194 | An ambiguous write is raised if and only if the movement timed out and the read after it failed other than by a cancellation |
| Requests.RaisedExactly | src/smartblinds_ble/tilt/ble.py:183-218 | Any other error is the first read's, the movement's own unless that timed out, or the second read's after an accepted movement; a cancellation of that read is raised either way |
| Requests.MoveAsks | src/smartblinds_ble/tilt/ble.py:183-218 | A movement asks for a read, one write without retries and a read, and for nothing else |
| Client.MoveOnce | src/smartblinds_ble/tilt/ble.py:183-218 | The exchanges follow the movement's program, and the outcome is exactly its verdict or error, unless the settling pause, made only after an accepted movement, is cancelled |
| Client.AtMostOneMovement | src/smartblinds_ble/tilt/ble.py:183-218 | Of at most three exchanges only the second has a movement's frame, and it writes its one chunk at most once |
| Client.TiltShadeClient.Open | src/smartblinds_ble/tilt/ble.py:226-253 | However connecting goes: a client that is connected, or becomes so, gives a session whose exchanges are the handshake's, and exactly a handshake that ended with a nonce hands it on; otherwise the error is the connection's or the handshake's |
| Client.TiltShadeClient.ReadOnce | src/smartblinds_ble/tilt/ble.py:137-139 | The outcome is exactly that of connecting, of the handshake, or of a status read as the first request of the session it opened, whichever ends it; the cleanup's error replaces it, and there is a cleanup just when there is a client |
| Client.TiltShadeClient.ReadStatus | src/smartblinds_ble/tilt/ble.py:137-154 | There is one session, and its result is returned, unless that is an error of the eight listed kinds, of which authentication, failed cleanup and cancellation are none; then there are exactly two and the second's result is returned, unless the pause between is cancelled |
| Client.TiltShadeClient.SetPositionAndReadStatus | src/smartblinds_ble/tilt/ble.py:156-220 | Disabled writes and targets outside 0..100 raise before any session; otherwise there is exactly one, and the outcome is that of connecting, of the handshake, or of the movement's program, whichever ends it, or the cleanup's error |
| Cleanup.ConnectedHoldsLock | src/smartblinds_ble/tilt/ble.py:222-288 | Over any interleaving of any number of sessions, if no cleanup failed or was cancelled twice, only the holder of the lock has a connected client: never two, and none when the lock is free |
| Cleanup.OneHolder | src/smartblinds_ble/tilt/ble.py:90-96 | Whatever is cancelled, two sessions never hold the lock at once |
| Cleanup.CancelledTwice | src/smartblinds_ble/tilt/ble.py:261-273 | Of any run among any others: two cancellations of its cleanup, while it disconnects or while it stops the session, leave the lock free with the client connected and no failure reported |
| Cleanup.CleanupComesTo | src/smartblinds_ble/tilt/ble.py:261-288 | What every cleanup comes to, for a client connected or not, a disconnect that raises or not, and no, one or two cancellations at either await |
| Cleanup.RunsThrough | src/smartblinds_ble/tilt/ble.py:222-258 | Any run that waits can take the free lock, connect, and end with the lock free and no link left, the other runs untouched; also when its factory raises |
| Cleanup.GivesUp | src/smartblinds_ble/tilt/ble.py:226-226 | A run that is cancelled while it waits is over without having had the lock |
| Cleanup.StepKeepsInvariant | src/smartblinds_ble/tilt/ble.py:222-288 | Every step keeps that a finished run with a connected client failed or was cancelled at least twice, and that the lock is held exactly while a run is between acquiring it and its end |
| Shade.FakeShadeClient.HandleRequest | tests/tilt_helpers.py:148-183 | State and reply for every frame and state, as the function that LossFree refines to the bare shade |
| Shade.FakeShadeClient.WriteGattChar | tests/tilt_helpers.py:120-131 | A data chunk is acknowledged first, even when the assembler then refuses it; an acknowledgement resolves its waiter; malformed input changes nothing |
| Shade.FakeShadeClient.SendFrame | tests/tilt_helpers.py:139-146 | The shade's own chunks go out once each in order, the next only when the one before was acknowledged; it ends well just when all were, with a time-out at the first that was not, and its number advances by those that were |
| Shade.ReadReports | tests/tilt_helpers.py:175-183 | The reply to a status request decodes to exactly the shade's position times ten and battery, or is a protocol error when the battery is out of range |
| Shade.MoveObeyed | tests/tilt_helpers.py:169-183 | A movement request moves the shade once, counts once, and its reply is accepted |
| Shade.TravelEnds | tests/tilt_helpers.py:170-172 | A full travel ends at the target, none or a backward one comes no nearer, and a partial one never overshoots |
| Shade.TravelIsNearest | tests/tilt_helpers.py:170-172 | A move ends at the whole percent nearest to the way travelled, of two equally near the even one, and never beyond 0 or 100 |
| LossFree.ExchangeCarries | tests/tilt_helpers.py:120-153 | Over links that lose nothing, each direction run chunk by chunk with its acknowledgements, an exchange carries exactly what the shade handles and leaves both links quiet |
| LossFree.AnswersCrypto | tests/tilt_helpers.py:155-164 | Every answer of the shade to a crypto frame, and that it is silent to an ACK or an empty selection |
| LossFree.ServedSession | src/smartblinds_ble/tilt/ble.py:336-425 | A session whose exchanges are answered by this shade over these links has exactly the answers and the outcome that its program has when played with the shade |
| LossFree.AuthenticatesExactly | src/smartblinds_ble/tilt/ble.py:336-371 | Played with the shade, the handshake succeeds if and only if the version list has 2 or 1 and the two key proofs are equal, with the exact error otherwise |
| LossFree.SessionRefinesShade | src/smartblinds_ble/tilt/ble.py:183-218 | Any series of reads and movements, played through links, cipher and codec, has exactly the outcomes it would have on the shade itself |
| LossFree.MovementOutcome | src/smartblinds_ble/tilt/ble.py:183-218 | With a shade that completes its travel a movement is reported as made and at the target; with one that stands still it is pending |
| PacketLog.Records | contrib/parse_pklg.py:58-67 | The loop terminates, what it yields tiles a prefix of the buffer byte for byte, and no whole record follows that prefix |
| PacketLog.TiledInverts | contrib/parse_pklg.py:58-67 | Reading inverts the little-endian record serializer, whatever follows the records |
| Acl.Reassembler.AttFromAcl | contrib/parse_pklg.py:70-98 | New dictionary and result, for every dictionary and payload, as the function whose runs are studied below |
| Acl.ConnectionsIndependent | contrib/parse_pklg.py:70-98 | However fragments are interleaved, a connection gets exactly the PDUs its own fragments would make alone |
| Acl.CutPdu | contrib/parse_pklg.py:70-98 | A PDU cut anywhere after its 4-byte header comes out once and whole, whatever was under way before |
| Acl.EachPduOnce | contrib/parse_pklg.py:70-98 | In any trace each ATT and SMP PDU of a connection comes out exactly once, whole and in order, and nothing else does |
| Acl.ParsePacket | contrib/parse_pklg.py:72-77 | The ACL header parses back to connection, start or continuation, and data; broadcast bits and trailing bytes are ignored |
| Acl.SplitHeader | contrib/parse_pklg.py:83-85 | A start shorter than the header is dropped and its continuations go to whatever PDU was under way |

## Left out

- AES, HMAC-SHA256 and `hmac.compare_digest`: the block function and the proof function are arbitrary, comparison is equality; the statements say "proofs equal" and assume no collision-freedom.
- bleak, scanners, proxies, sleeps and clocks: connecting, writing and waiting end in any way the source distinguishes, at any time; how long they take is not modelled.
- Client.TiltShadeClient.constructor: the source raises for a pairing key that is not 32 bytes; here that is a precondition, because a constructor returns no outcome.
- Client.TiltShadeClient.Close: how the cleanup ends is a parameter; which state it leaves is the subject of module Cleanup.
- BleLink.BleMessageAssembler.constructor: the source raises for a number outside 1..63; here the type of the parameter excludes those, and everything in the model starts from 1.
- Session.TiltBleSession.TryChunk: whether a chunk whose write raised went out is left open; the link's state is not the session's.
- AppCodec.DecryptAppRequest: the test harness does not catch its own ValueError and IndexError; they are protocol errors here, and any error keeps the shade silent.
- Session.TiltBleSession: `stop` is not part of the class, as it only cancels the worker and unsubscribes; what its awaits can do to a cleanup is in module Cleanup. A cancelled acknowledgement write stops the worker.
- Shade.FakeShadeClient.SendFrame: while the shade waits for an acknowledgement any writes arrive, but a request that they complete is not answered in between.
- Cleanup.ConnectedHoldsLock: assumes a factory that, when it raises or is cancelled, leaves no connected client behind.
- `raw_position_to_percent` divides in floating point; a tenth of an integer to 1000 rounds as the exact quotient does, and the model rounds that.
- FakeShadeClient travel fractions are reals, not floats.
- `GET_NAME`, `GET_VERSION`, `GET_POSITION` and `GET_BATTERY` payload parsing (`parse_name`, `parse_battery`), logging, `_redact` and argument type checks: single branches.
- `cloud.py`, `tilt_cloud.py`, the import tools, `gate_auth_mac.py`, `mitm_tilt_addon.py`, the legacy `blind.py`, `scanner.py` and `find_key.py`, and the printing in `parse_pklg.main`: network, files and thin writes.
