# Proofs for go-CAN

go-CAN is a stack of small protocol engines over CAN: end-to-end protection headers, ISO-TP segmentation, J1939
broadcast transport, DBC signal packing, an in-process bus, the SocketCAN frame codec and the candump log format. This
project models those engines in Dafny and proves what each of them is for. `dafny verify dfyconfig.toml` checks it.

The loops and the objects that the Go code updates in place are Dafny methods and classes, each proved against a
function or a step machine; the theorems are then stated about those, for every input, every run or every reachable
state. The stages of one engine are in one or more modules:

- **E2E protection**: `Crc` (the checksum loops, the register over GF(2), burst detection), `CrcCheck` (which CRC it
  is) and `E2E` (protector and receiver objects, whole streams). The guarantees are that any change of the counter or
  the payload inside 16 consecutive covered bits is refused, the sixteen being exact, and so is any change of an odd
  number of bits.
- **ISO-TP** (ISO 15765-2:2016): `IsoTp` (both ends as step machines), `IsoTpConn` (the `Send` and `Recv` loops,
  proved to run those machines over any incoming frames), `IsoTpSender` and `IsoTpReceiver` (what each end keeps
  against any peer), `IsoTpWire` (frames byte by byte, and the answer to any frame), `IsoTpSafety` (when loss,
  repetition and reordering never deliver a wrong payload), `IsoTpLink` (the two ends over FIFO queues, every
  interleaving) and `IsoTpBus` (two connections on the in-process bus, whose runs are those of `IsoTpLink`).
- **J1939 BAM** (SAE J1939-21): `J1939` (identifiers, the reassembly goroutine with its session objects), `BamTrace`
  (emissions characterised by the stream alone), `BamTransfer` (`SendTP`, round trip, independence of sources) and
  `J1939Wire` (identifiers bit by bit, frames byte by byte).
- **DBC**: `DbcBits` (bit paths, packing and extraction in place), `DbcNumber` (signals as fields of the payload read
  as one number), `Dbc` (physical values, two's complement, optimality), `DbcMessage` (whole messages in any map
  order) and `DbcVal` (the value-table tokeniser).
- **Buses, frames and logs**: `VirtualBus` (the in-process bus as a step machine, all interleavings),
  `VirtualBusOrder` (the order of offers), `VirtualBusPolicy` (what each policy leaves in a queue),
  `VirtualBusProgress` (when Close and Subscribe get their lock), `VirtualBusObject` (the bus object, whose methods
  are proved to make runs of that machine), `Can` (frames, validation, filters), `SocketCan` (kernel frame layout),
  `Candump` (lines and logs) and `CandumpText` (lines the printer does not make).
- `Bits` holds unsigned words as natural numbers with the bit operations the code uses.

## What the proofs settle

- An ISO-TP transfer over lossless queues makes a number of moves fixed in advance, whatever the interleaving. The
  receiver always ends with exactly the payload. `Send` finishes too unless the block size is positive and divides the
  number of consecutive frames: the check after each frame (isotp/transport.go:187) then waits for a Flow Control that
  the receiver does not send (isotp/transport.go:293).
- The Wait check (isotp/transport.go:164) is made once per frame: a sender that takes a Wait puts its next frame
  without another Flow Control exactly when a Wait held it already.
- Subscriptions of depth d > 0 drop no ISO-TP frame of a payload, over all interleavings on the in-process bus,
  exactly when the block size is between 1 and d or the payload has at most d consecutive frames.
- The mod-16 sequence number tolerates displacement by fewer than 16 places and no more. Reordering, repetition and
  loss of the frames of one transfer can never deliver a wrong payload exactly for payloads of up to 118 bytes.
- `Unwrap` never reads wire bytes 0-3 (safety/e2e.go:139-168): a burst of 16 covered bits is refused exactly when it
  reaches the counter or the payload, and an odd number of wrong bits from byte 4 on always. The identifiers are
  checked through the CRC alone: a frame made under others is refused exactly when the four identifier bytes have
  another checksum, which two identifiers that both differ need not have.
- A DBC signal reads back the raw value it was given exactly when its own one bits lie inside the payload and no other
  given signal lays a one where it has a zero.
- Encoding a physical value outside the 64-bit range depends on the platform's conversion (dbc/encode.go:54,
  dbc/encode.go:70): the result is nearest exactly when that conversion stays at the right end.
- A `Send` to a full DropOldest subscriber is not atomic (virtual/bus.go:112-113): if the queue is drained in between,
  the sender waits while it holds the read lock. A Close or Subscribe that waits for the write lock can still get it
  exactly when no drained queue has a Send waiting to evict that no other Send in flight can fill: one that has not
  passed that subscriber, matches its filters and is not itself waiting there. Otherwise the call never returns, even
  if other Sends still move.
- The documented example of a CAN FD line (recorder/recorder.go:135) has one flag digit; the parser wants two
  (recorder/recorder.go:206), so it refuses that line and every other with one flag digit and whole data bytes.

## Model

| member | source | states |
|---|---|---|
| Crc.BurstDetected | safety/e2e.go:183-213 | for every initial register, two bit streams of one length that differ only inside 16 consecutive bits leave different registers |
| Crc.SeventeenBitsCollide | safety/e2e.go:183-198 | sixteen is exact: every register and 17 message bits have a change over 17 bits that is not noticed |
| Crc.FeedInjective | safety/e2e.go:187-196 | the register step can be inverted: equal registers after the same bits were equal before |
| Crc.ChecksumFeeds | safety/e2e.go:183-213 | the byte-wise checksum is the bit-serial register, most significant bit first |
| Crc.ChecksumContinues | safety/e2e.go:177-178 | continuing a checksum over the payload equals one checksum over header and payload |
| Crc.FeedParity | safety/e2e.go:183-196 | the parity of the register is that of its start and of the bits fed |
| Crc.OddChangesChecksum | safety/e2e.go:183-213 | byte messages that differ in an odd number of bits, anywhere, have different checksums, whatever the initial word |
| Crc.BurstChangesChecksum | safety/e2e.go:183-213 | byte messages that differ inside one 16-bit burst have different checksums, whatever the initial word |
| Crc.TwoBytesAreABurst | safety/e2e.go:183-213 | any change to two adjacent bytes is such a burst |
| Crc.Crc16 | safety/e2e.go:183-198 | the checksum started from the word that CrcCheck pins down |
| Crc.Crc16Cont | safety/e2e.go:200-213 | the nested loops compute the checksum, from any starting value |
| CrcCheck.ClearedIff | safety/e2e.go:183-213 | two bytes leave a checksum of zero from exactly one start word, the one they spell, most significant byte first |
| CrcCheck.StartWord | safety/e2e.go:186 | the code starts from the one word that two bytes 0xFF clear |
| CrcCheck.CheckValue | safety/e2e.go:183-198 | the published check value of CRC-16/CCITT-FALSE: the text 123456789 has checksum 0x29B1 |
| E2E.BuildHeader | safety/e2e.go:170-181 | identifiers, counter and CRC in little-endian order, the CRC covering bytes 0-7 and the payload |
| E2E.Protector.Protect | safety/e2e.go:108-115 | each call emits the frame of the current counter and moves the counter on modulo 2^32 |
| E2E.ProtectAll | safety/e2e.go:108-115 | a fresh protector called for one payload after another emits frame n with counter n modulo 2^32 |
| E2E.Receiver.Unwrap | safety/e2e.go:139-168 | outcome and new state: short frame, CRC mismatch without state change, gap that resynchronises, or acceptance |
| E2E.WireIsValid | safety/e2e.go:108-168 | what Protect emits passes the CRC check of a receiver with the same configuration |
| E2E.WireBytes | safety/e2e.go:170-181 | every field of a frame by position, low byte first, and the CRC over bytes 0-7 and the payload |
| E2E.CheckedBytes | safety/e2e.go:144-157 | a frame passes exactly when bytes 8 and 9 are the checksum of the receiver's identifiers, bytes 4-7 and the payload; the counter after 0xFFFFFFFF is 0 |
| E2E.OneByteIsABurst | safety/e2e.go:144-151 | any change to one byte of the counter or the payload is such a burst |
| E2E.BurstRefused | safety/e2e.go:139-153 | a change inside 16 covered bits, wherever it starts, is refused as a CRC mismatch, leaving the state alone, exactly when it reaches the counter or the payload; otherwise the outcome is that of the undamaged frame |
| E2E.OddDamageRefused | safety/e2e.go:139-153 | a frame with an odd number of wrong bits from byte 4 on, the CRC slot included, is refused as a CRC mismatch, leaving the state alone |
| E2E.ForeignFrameIff | safety/e2e.go:148-153 | whatever it carries, a frame made under other identifiers is refused as a CRC mismatch exactly when the checksums of the four identifier bytes differ; otherwise it is judged as a frame of this configuration |
| E2E.ForeignFramePasses | safety/e2e.go:148-153 | identifiers 0x0100 and 0x2110 pass for 0 and 0 |
| E2E.ForeignIdentifierRefused | safety/e2e.go:148-153 | every frame of a protector that differs in one identifier only is refused as a CRC mismatch |
| E2E.DamagedCrcRefused | safety/e2e.go:145-153 | every change of the CRC slot alone is refused |
| E2E.IdentifierBytesUnread | safety/e2e.go:144-151 | bytes 0-3 of a received frame change neither outcome nor state |
| E2E.StateIsLastValid | safety/e2e.go:155-165 | after any stream the receiver remembers exactly the counter of the last CRC-valid frame |
| E2E.RunCharacterised | safety/e2e.go:139-168 | over any stream, a CRC-valid frame is accepted exactly when it is the first such frame or follows the previous one by one modulo 2^32 |
| E2E.LossyDelivery | safety/e2e.go:108-168 | over an ordered lossy channel a frame is accepted with its own payload exactly when the loss before it is a multiple of 2^32, else reported as a gap |
| E2E.LosslessDelivery | safety/e2e.go:108-168 | in-order delivery is always accepted, across the wrap of the counter |
| E2E.GapErrorsCountLostRuns | safety/e2e.go:155-163 | when lost runs are shorter than 2^32 frames, gap errors equal the number of interior lost runs |
| IsoTpConn.Conn.Send | isotp/transport.go:120-157 | empty payloads and those over 4095 bytes are refused; otherwise the frames put and taken are a run of the sender machine and the verdict tells its last state; up to 7 bytes go out as their length and themselves; a longer transfer ends with an overflow exactly when the low four bits of the first Flow Control are 2, only its first frame sent |
| IsoTpConn.Conn.SendSingleFrame | isotp/transport.go:134-139 | sends one frame, the length and the payload, or fails with the bus |
| IsoTpConn.Conn.SendMultiFrame | isotp/transport.go:141-200 | first frame, Flow Control, overflow refusal and the consecutive-frame loop run the sender machine |
| IsoTpConn.Conn.SendConsecutives | isotp/transport.go:160-199 | the sending loop runs the machine to its end, to a timeout or to a bus failure |
| IsoTpConn.Conn.Hold | isotp/transport.go:164-170 | the Wait check waits for one Flow Control and resets the block counter |
| IsoTpConn.Conn.EndBlock | isotp/transport.go:187-193 | the block check compares the counter as a byte and waits for one Flow Control |
| IsoTpConn.Conn.WaitFC | isotp/transport.go:309-326 | skips everything up to the first Flow Control |
| IsoTpConn.Conn.Recv | isotp/transport.go:211-307 | the frames taken and put are a run of the receiver machine; success, error and payload are those of its last state; a single frame gives as many bytes as its low four bits say, whatever padding follows, and each malformed first frame its own error |
| IsoTpConn.Conn.CollectRest | isotp/transport.go:260-302 | the reassembly loop runs the receiver machine, Flow Control included |
| IsoTpConn.Conn.RecvCF | isotp/transport.go:328-345 | skips everything up to the first consecutive frame |
| IsoTpSender.SentIsPrefix | isotp/transport.go:120-200 | whatever the peer answers, the frames sent are a prefix of the one segmentation, and Send succeeds only with all of it sent |
| IsoTpSender.BlockBound | isotp/transport.go:160-193 | after a Flow Control with block size b > 0 at most b frames go out before the next is taken, although the counter is compared as a byte; if it is no Wait the sender wants to put until it has put b frames, or all it has |
| IsoTpSender.WaitBound | isotp/transport.go:163-170 | after a Wait and until the next Flow Control nothing goes out, except exactly one frame if a Wait already held the sender, which is ready to put it until it has |
| IsoTpSender.WaitLetsThroughIff | isotp/transport.go:164-170 | in every run, a sender that takes a Wait is ready to put its next frame exactly when a Wait held it already |
| IsoTpSender.SecondWaitLetsOneThrough | isotp/transport.go:164-170 | that exception occurs: two Waits in a row, then a consecutive frame |
| IsoTpWire.SegmentBytes | isotp/transport.go:134-185 | every frame of a transfer byte by byte: the length alone, 0x1000 plus the length, or 0x20 plus the number mod 16, and its stretch of the payload |
| IsoTpWire.ControlBytes | isotp/transport.go:255-345 | which bytes are taken for Flow Control, Wait, consecutive and first frames, and the reply 0x30, block size, STmin |
| IsoTpWire.SingleFrameIff | isotp/transport.go:232-237 | a frame is delivered at once exactly when it is 1 to 15 bytes after their length, with any padding behind |
| IsoTpWire.FirstRefusedIff | isotp/transport.go:226-306 | exactly which first frames are refused, each with its error |
| IsoTpWire.FirstFrameTaken | isotp/transport.go:239-260 | any other frame is answered and opens a message of the length in its twelve bits; of its own data it keeps no more than that |
| IsoTpWire.NextTaken | isotp/transport.go:262-281 | in every run, a consecutive frame is refused exactly when its number is not the next one mod 16 or it is empty; any other frame is skipped |
| IsoTpWire.OverflowIff | isotp/transport.go:150-157 | in every run of a long payload, the sender has overflowed exactly when the low four bits of the first Flow Control are 2, and has put its first frame only |
| IsoTpWire.GrantedExactly | isotp/transport.go:160-193 | what second byte b of any later Flow Control grants: b frames, or all that are left if b is zero |
| IsoTpReceiver.ReceiverHolds | isotp/transport.go:239-302 | whatever arrives, the buffer holds exactly the bytes of the first frame and of frames numbered 1, 2, 3, ... mod 16, cut at FF_DL, and replies are accounted for |
| IsoTpReceiver.FlowControlCount | isotp/transport.go:255-300 | Flow Control frames sent equal one plus the block boundaries crossed while data was expected |
| IsoTpReceiver.RepliesAreContinue | isotp/transport.go:255-300 | every reply is ContinueToSend with the configured block size and STmin; the buffer stays below FF_DL, at most 4095 |
| IsoTpReceiver.SegmentsAre | isotp/transport.go:141-200 | the segmentation in closed form: first frame, then frames with their number mod 16 and their seven bytes |
| IsoTpSafety.NearOrderNeverWrong | isotp/transport.go:262-285 | with loss, repetition and reordering by fewer than 16 places, Recv fails or returns the exact payload |
| IsoTpSafety.LossNeverWrong | isotp/transport.go:211-302 | fed any subsequence of one transfer, Recv fails or returns the exact payload |
| IsoTpSafety.SixteenAwayGoesThrough | isotp/transport.go:267-269 | the bound is exact: for every payload of at least 17 consecutive frames and every block size, the first frame in the place of the seventeenth is delivered as payload |
| IsoTpSafety.WrongIff | isotp/transport.go:278-284 | what is then delivered differs from the payload exactly when the two chunks differ |
| IsoTpSafety.ShortIsSafe | isotp/transport.go:211-302 | fed frames of one transfer of at most 118 bytes, in any order, repeated or lost, Recv fails or returns the exact payload |
| IsoTpSafety.ReorderSafeIff | isotp/transport.go:211-302 | for every block size, that holds of all payloads of length n exactly when n is at most 118 |
| IsoTpLink.ReachesAPhase | isotp/transport.go:141-302 | every reachable state of the two parties and their queues is one of an explicit family |
| IsoTpLink.TwoParty | isotp/transport.go:141-302 | every run has at most 2(1 + CFs + FCs) moves and can go on until then; it ends with exactly the payload received, and the sender finished unless the block size divides the number of CFs |
| IsoTpLink.InFlight | isotp/transport.go:187-300 | with block size b > 0 at most b consecutive frames and one Flow Control are queued |
| IsoTpLink.NothingDropped | virtual/bus.go:98-105 | a DropNewest queue that holds a block or every consecutive frame drops nothing: the bounded system runs as the lossless one |
| IsoTpLink.DropsWhenSmaller | virtual/bus.go:98-105 | otherwise there is a run in which the bounded system is in the lossless state but for the newest frame, missing from its queue |
| IsoTpLink.NoLossIff | virtual/bus.go:98-105 | a queue of depth d > 0 never loses a frame, over all runs, exactly when 1 <= b <= d or there are at most d consecutive frames |
| IsoTpBus.OfferIsPush | virtual/bus.go:98-105 | in any state of any bus, the offer to a DropNewest subscriber is a push on a bounded queue if the frame matches, counted as a drop if the queue is full, and touches no other subscriber |
| IsoTpBus.MatchIff | isotp/transport.go:105-111 | the filter a connection subscribes with passes a frame exactly when the identifiers are equal |
| IsoTpBus.BusIsReachable | virtual/bus.go:82-147 | every run of two connections on the bus, from their subscriptions on, is a run of the bus machine |
| IsoTpBus.BusRefinesLink | isotp/transport.go:105-345 | however the Sends of two connections interleave on the bus, the transfer is a run over two queues as deep as the subscriptions, with a known number of steps of the bus |
| IsoTpBus.LinkRunsOnBus | isotp/transport.go:105-345 | and every run over the two queues happens on the bus |
| IsoTpBus.TransferOverBus | isotp/transport.go:105-345 | over the bus a transfer ends within 4 steps a move, and when nothing more can happen the payload is delivered exactly and the sender has finished unless the block size divides the number of CFs, if the subscriptions hold a block or every CF |
| IsoTpBus.NoDropIff | virtual/bus.go:98-105 | the drop counter of the bus stays zero over all interleavings exactly when 1 <= b <= d or there are at most d consecutive frames |
| J1939.IDRoundTrip | j1939/pgn.go:64-101 | decoding an encoded identifier is the identity exactly for 3-bit priorities and PGNs of 17 bits whose peer-to-peer low byte is empty |
| J1939.BroadcastIDFields | j1939/tp.go:90-106 | the identifiers SendTP builds decode to priority mod 8, TP.CM or TP.DT, and the source |
| J1939Wire.DecodedBits | j1939/pgn.go:69-83 | which bits of an identifier each decoded field is: source 0-7, PGN 8-24 with its low eight for broadcast formats only, priority 26-28 |
| J1939Wire.EncodedBits | j1939/pgn.go:88-101 | where each bit of the fields goes, all others zero |
| J1939.MatchesPGNs | j1939/pgn.go:167-177 | true exactly for an empty filter or a member of it |
| J1939.BamSession.Apply | j1939/tp.go:239-247 | the in-place copy puts a packet's bytes in their place, drops those past the end, marks and counts it |
| J1939.AppliedValid | j1939/tp.go:231-247 | received stays the number of true entries of seen |
| J1939.Reassembler.Handle | j1939/tp.go:180-268 | one turn of the loop changes the sessions and the output as the step function says |
| J1939.Reassembler.OnBam | j1939/tp.go:191-219 | a valid BAM replaces any session of its source with a fresh one and touches no other |
| J1939.Reassembler.OnDt | j1939/tp.go:221-267 | a packet is ignored, applied, or completes its session and emits the frame if its PGN is subscribed |
| J1939.Reassembler.Run | j1939/tp.go:174-271 | the whole loop emits the frames the stream determines |
| BamTrace.Tracked | j1939/tp.go:174-268 | after every stream a source has a session recording exactly what came since its latest valid BAM, or nothing is missing |
| BamTrace.EmissionIff | j1939/tp.go:221-267 | a frame is emitted exactly when its TP.DT is the first of its number and every number has come since the source's latest valid BAM; each byte comes from the first packet with its number |
| BamTrace.OncePerBam | j1939/tp.go:249-251 | each BAM is emitted at most once |
| BamTransfer.Bus.SendTP | j1939/tp.go:65-139 | 9 to 1785 bytes go out as one BAM and at most 255 packets in order, or as a prefix of them when a send fails |
| BamTransfer.Bus.SendPackets | j1939/tp.go:107-136 | the packets go out in order, all of them or those before the failing send |
| BamTransfer.Bus.Packet | j1939/tp.go:116-127 | a packet carries its number and seven bytes, padded with 0xFF |
| J1939Wire.BamBytes | j1939/tp.go:78-99 | the announcement byte by byte, with the identifier of format 0xEC to address 0xFF |
| J1939Wire.DtBytes | j1939/tp.go:102-127 | a data packet byte by byte, with the identifier of format 0xEB to address 0xFF |
| J1939Wire.BamIff | j1939/tp.go:180-209 | exactly which frames are read as an announcement, and as which: control byte 0x20, 9 to 1785 bytes, the packets that takes |
| J1939Wire.DtIff | j1939/tp.go:221-226 | exactly which frames are read as a data packet |
| J1939Wire.ReadBamIff | j1939/tp.go:75-209 | a frame is read as an announcement exactly when it is what SendTP announces for some payload, up to the bytes and bits nobody reads |
| J1939Wire.OthersIgnored | j1939/tp.go:184-195 | every other frame, other control messages on the transport PGN included, changes no session and emits nothing |
| BamTransfer.BamIsRead | j1939/tp.go:78-99 | the receiver reads the announcement back: size, the low 24 bits of the PGN, priority mod 8, source |
| BamTransfer.RoundTrip | j1939/tp.go:65-267 | after the announcement, the packets in any order and repetition among any other traffic yield exactly one frame with the payload, priority mod 8, the low 24 bits of the PGN and the source |
| BamTransfer.ProjectionDecides | j1939/tp.go:174-268 | a source's session and emissions depend only on its own transport messages |
| BamTransfer.NonInterference | j1939/tp.go:174-268 | streams that agree on the messages of a source emit the same frames for it |
| DbcBits.WalkIsPath | dbc/parser.go:172-203 | in either byte order the steps visit each position at most once, and which step visits which position |
| DbcBits.WalkNext | dbc/encode.go:103-108 | the Motorola walk goes down a byte and on to the top of the next |
| DbcBits.PackRaw | dbc/encode.go:79-111 | packing sets exactly the positions of the raw value's one bits and keeps all others |
| DbcBits.ExtractRaw | dbc/parser.go:172-203 | extraction reads exactly the bits at the signal's positions, absent bytes reading zero |
| DbcBits.ExtractedIsUnique | dbc/parser.go:172-203 | the raw value read is determined by the payload |
| DbcNumber.IntelNumber | dbc/parser.go:174-186 | an Intel signal is the field from bit startBit on of the payload read as a little-endian number |
| DbcNumber.MotorolaNumber | dbc/parser.go:187-201 | a Motorola signal is a field of the payload read as a big-endian number, with its top bit at startBit |
| DbcNumber.IntelPacked | dbc/encode.go:80-91 | packed alone, an Intel signal makes the little-endian payload its raw value times two to startBit |
| DbcNumber.MotorolaPacked | dbc/encode.go:92-109 | packed alone, a Motorola signal makes the big-endian payload its raw value times two to the bits below it |
| Dbc.TwosComplement | dbc/parser.go:160-165 | decoding undoes two's complement at every width from 1 to 64, with int64 wrap-around |
| Dbc.ValueOfPattern | dbc/parser.go:160-165 | what every pattern stands for: itself, or itself less two to the width |
| Dbc.RangeIsPatterns | dbc/encode.go:51-72 | values are clamped to exactly the range of all patterns |
| Dbc.RoundIff | dbc/encode.go:49 | to the nearest integer, from halfway away from zero |
| Dbc.HalfwayGoesAway | dbc/encode.go:48-75 | a value halfway between two that the signal can carry is encoded as the one further from zero |
| Dbc.DecodedIs | dbc/encode.go:48-75 | the raw pattern fits the width and decodes to the rounded value clamped to the signal's range |
| Dbc.EncodingIsOptimal | dbc/encode.go:48-75 | the decoded value is a nearest representable one exactly when the conversion to 64 bits is sound; in range the error is at most half the factor, outside it saturates |
| Dbc.WrongEnd | dbc/encode.go:54-59 | a platform whose conversion yields the lowest int64 saturates a large value at the lower end |
| DbcMessage.Encode | dbc/encode.go:20-42 | unknown messages and names are refused; otherwise each payload bit is set exactly when some given signal sets it |
| DbcMessage.PackAll | dbc/encode.go:33-41 | whichever signal the loop takes next, the finished payload has exactly the bits of the given signals set |
| DbcMessage.OrderIrrelevant | dbc/encode.go:33-39 | the payload is the same for every order of the map |
| DbcMessage.DecodeSignal | dbc/parser.go:157-170 | the physical value of the bits at the signal's positions |
| DbcMessage.Decode | dbc/parser.go:144-154 | nothing for an unknown message, otherwise every signal's value |
| DbcMessage.RawRoundTripIff | dbc/encode.go:33-41 | in any message, a signal reads back the raw value it was given exactly when its one bits lie inside the payload and no other given signal lays a one where it has a zero |
| DbcMessage.RawRoundTrip | dbc/encode.go:33-41 | so signals on disjoint paths inside the payload read back their own raw value, and zero when unset, whatever the values |
| DbcMessage.OverlapLeaks | dbc/encode.go:33-41 | and a one bit on the path of an unset signal makes it read non-zero |
| DbcMessage.MessageRoundTrip | dbc/encode.go:20-75 | for an undisturbed signal, a value it can carry comes back exactly, another as a nearest one exactly when the conversion is sound, and an unset signal as its offset |
| DbcVal.Tokenise | dbc/parser.go:388-422 | the nested index loops end on every string and compute its tokens |
| DbcVal.TokeniseRendered | dbc/parser.go:386-422 | bare and quoted tokens with any blanks around them tokenise back to the same list |
| DbcVal.OneCharacter | dbc/parser.go:392-415 | spaces and tabs alone separate, and the double quote alone quotes |
| DbcVal.EveryLine | dbc/parser.go:386-422 | every line is the rendering of its own tokens, but for a quote missing at its end |
| Can.PassesIff | can.go:145-148 | a filter passes a frame exactly when the identifiers agree where its mask has ones |
| Can.FDLengthIff | can.go:192-201 | the payload lengths accepted for CAN FD are those of the sixteen data length codes |
| Can.ValidatesIff | can.go:216-274 | a frame is valid exactly when it is a CAN XL, a CAN FD or a classic frame within the limits of its format |
| VirtualBus.MatchAny | virtual/bus.go:238-248 | true exactly for no filters or one that passes |
| VirtualBusPolicy.FiltersUnite | virtual/bus.go:238-248 | two lists of filters together select what either selects, and no list everything |
| VirtualBusObject.BusObject.Send | virtual/bus.go:82-125 | invalid frames and a closed bus are errors; otherwise an uninterrupted Send makes exactly its own steps of the machine, to the end or to a subscriber at which it must wait |
| VirtualBusObject.BusObject.Handle | virtual/bus.go:96-122 | one subscriber: passed over, delivered to, or handled as full |
| VirtualBusObject.BusObject.OnFull | virtual/bus.go:103-118 | a full queue: the frame is dropped, replaces the oldest, or the Send waits |
| VirtualBusObject.BusObject.Subscribe | virtual/bus.go:132-147 | refused when closed, otherwise a new empty subscription at the end |
| VirtualBusObject.BusObject.Close | virtual/bus.go:150-162 | closes every channel once; closing again changes nothing |
| VirtualBus.QueuesAreSafe | virtual/bus.go:82-162 | over all interleavings nothing is sent on a closed channel, queues stay within depth, and consumed plus queued frames are an in-order subsequence of the decided matching offers |
| VirtualBus.Conservation | virtual/bus.go:93-124 | deliveries plus drops equal decided matching offers; deliveries equal consumed plus queued plus evicted; only DropOldest evicts |
| VirtualBus.OfferedExactlyOnce | virtual/bus.go:95-124 | with no Send in flight each subscriber has been offered every matching frame accepted since it subscribed, once each |
| VirtualBusPolicy.QueueIs | virtual/bus.go:97-121 | in every reachable state: with Block, taken plus queued frames are the offers; with DropOldest the queue is the newest offers and only evictions are lost; with DropNewest an unread queue is the oldest that fit |
| VirtualBusOrder.OffersAreNumbered | virtual/bus.go:95-124 | each offer is the accepted frame whose number is recorded with it |
| VirtualBusOrder.OrderKept | virtual/bus.go:82-125 | over all interleavings, if one Send has ended before another begins, a subscriber offered both frames is offered them in that order |
| VirtualBusOrder.OfferedInOrder | virtual/bus.go:82-125 | when Sends never overlap, the offers are exactly the matching frames accepted since the subscription, as a sequence |
| VirtualBus.WaitsIff | virtual/bus.go:97-121 | exactly when a Send in flight cannot move; never with DropNewest subscribers alone |
| VirtualBusProgress.CloseReachableIff | virtual/bus.go:106-162 | in every reachable state in which Close or Subscribe waits for its lock, some continuation lets the Sends in flight end and the call run exactly when no drained queue has a Send waiting to evict that no other Send can fill |
| VirtualBusProgress.DoomedLasts | virtual/bus.go:106-162 | otherwise on every continuation Sends stay in flight and Close never runs |
| VirtualBusProgress.DeadlockedIff | virtual/bus.go:106-116 | no Send in flight ever moves again exactly when each of them waits to evict from a drained queue |
| VirtualBusProgress.DeadlockLasts | virtual/bus.go:106-116 | from there on no Send moves or begins and Close never runs, whatever receivers do |
| VirtualBusProgress.EvictionCanWait | virtual/bus.go:106-116 | a run in which a DropOldest Send waits on a drained queue; when Close or Subscribe then asks for the lock, the bus is deadlocked |
| VirtualBusProgress.DoomedThoughMoving | virtual/bus.go:106-116 | a run after which a Send can still move and end, but the call never gets its lock |
| SocketCan.EncodeFrame | socketcan/bus_linux.go:194-222 | the buffer is the kernel layout of the frame, padded with zeros |
| SocketCan.CodecRoundTrip | socketcan/bus_linux.go:194-262 | under either byte order a frame survives encoding and decoding exactly when it fits the kernel layout |
| SocketCan.ValidFramesSurvive | can.go:216-274 | every frame that validates, is not XL and leaves the XL fields zero survives |
| SocketCan.KernelBytes | socketcan/bus_linux.go:194-222 | the buffer by position: identifier bits, bit 31 extended, bit 30 remote, length, flags and data |
| SocketCan.DecodedBytes | socketcan/bus_linux.go:225-262 | every field read from any buffer of 16 or 72 bytes, the length cut to the room there is |
| Candump.PadOrCut | recorder/recorder.go:171-176 | the padding loop ends and gives six digits |
| Candump.ParseFrameText | recorder/recorder.go:187-249 | the frame filled in step by step, or refused, is the one the text stands for |
| Candump.ParseLine | recorder/recorder.go:138-252 | the step-by-step parser computes the parsed line or refuses it |
| Candump.Reprint | recorder/recorder.go:138-289 | every line that parses means what its printed form means: printing its parts and parsing them again gives the same parts |
| Candump.LineRoundTrip | recorder/recorder.go:138-289 | parsing a printed line gives the interface, the time truncated to microseconds, and the frame itself exactly when it is representable |
| Candump.Replay | recorder/recorder.go:71-127 | sends the frames of the well-formed lines in order, up to the first failing send |
| Candump.Record | recorder/recorder.go:40-62 | writes one line for each frame, in order |
| Candump.LogRoundTrip | recorder/recorder.go:40-127 | replaying a recorded log sends what its lines carry, in order |
| Candump.LogIsExact | recorder/recorder.go:40-127 | a log brings the recorded frames back exactly when all of them are representable |
| CandumpText.PublishedLine | recorder/recorder.go:134 | the documented classic line is printed from its parts and read back |
| CandumpText.PublishedFDLine | recorder/recorder.go:135 | the documented CAN FD line is refused |
| CandumpText.OddFlagsRefused | recorder/recorder.go:187-217 | so is every CAN FD text with an odd number of digits after its marks |
| CandumpText.FlagsRead | recorder/recorder.go:187-217 | two flag digits of any value are read, only their lowest bit counting |
| CandumpText.IdentifierRead | recorder/recorder.go:218-244 | an identifier of any size: taken if it fits 32 bits, extended from 0x800 on |
| CandumpText.CaseIgnored | recorder/recorder.go:187-244 | the frame text may be written in either case |
| CandumpText.PrintedUpper | recorder/recorder.go:262-289 | what is printed is in upper case |
| CandumpText.FractionRead | recorder/recorder.go:150-183 | a fraction of any number of digits is padded with zeros or cut to microseconds, and may be missing |

## Left out

- Time: the frames that arrive during a call are a list, and a wait that finds it empty times out; STmin pacing, the
  BAM packet delay, replay delays and context cancellation are not modelled beyond that.
- Floating point: physical values are real numbers; rounding errors, NaN, infinities and a zero factor are not
  modelled. The conversion of an out-of-range value to 64 bits is a parameter.
- Addressing in ISO-TP: the connection object sees the frames its filter lets through; frames are routed by identifier
  in IsoTpBus, between two connections with different identifiers and no third party.
- crc16 is modelled as crc16Cont started from 0xFFFF: the two loops are the same code.
- ISO-TP payloads of up to 7 bytes are one frame and do not enter the two-party system.
- VirtualBusObject.BusObject.Send: describes a Send that no other goroutine interrupts; interleavings are steps of the
  machine in VirtualBus, on values. Channels without a buffer, byte counters, the loan pool, Health, Metrics and
  CloseWithDrain are not modelled.
- The relay options: channel depth and back-pressure policy are parameters; IsoTpBus is about DropNewest
  subscriptions.
- J1939 single frames (Bus.Send, Bus.Subscribe) are left out except for their identifiers and the PGN filter; the
  64-frame output channel of SubscribeTP is the list of frames emitted.
- SocketCAN sockets, the read loop and its subscribers are not modelled; decodeFrame is taken on the two lengths the
  read loop lets through.
- DBC line parsing other than the tokeniser is left out; the bounds parseSignal enforces are assumed, and a data
  length code is not negative.
- Candump text is a sequence of characters, not of UTF-8 bytes, and a log is a list of lines.
- The UDS and OBD-II clients, the HMAC wrapper, the RELAY bridge, the command line tool and the generated reports.
