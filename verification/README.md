# libsmp: what its receive and transmit stack guarantees

libsmp sends messages (an id and a list of typed values) over a serial line. This project models
the whole path from a message to the bytes on the line and back, and the receive ring of the AVR
port, and proves what that path guarantees for every input and every run:

- **Serial framing** (`src/serial-protocol.c`): the encoder (`SerialEncoder`) and the byte-driven
  decoder with its growable, capped buffer (class `SerialProtocol.Decoder`). `Deframer` is the
  protocol state machine over the content collected so far; the class is proved to follow it byte
  by byte, whatever its buffer has to do. Recovery of frame streams, self-stabilisation, soundness
  and completeness of delivery, error detection and the capacity law are proved about every run of
  it.
- **Message codec** (`src/message.c`): values, the payload grammar and the encoding
  (`MessageFormat`), the decoder and its build loop (`MessageDecode`, `MessageBuild`), the encoder
  (`MessageEncode`), and the object with its slots (class `Messages.Message`). Encoding and decoding
  are proved inverse in both directions, with the exact set of buffers that survive. `MessageLayout`
  gives the encoding byte by byte, `MessageArguments` what stands for each argument when decoding,
  and `MessageFailures` how a build ends that does not succeed.
- **Context** (`src/context.c`): `ContextModel` composes the two; `Contexts.Context` has the read
  loop, the byte loop, the reception message and the sending of messages. Its callbacks and the
  bytes taken by the device are recorded in the fields `events` and `line`. `SendMessage` puts on
  the line exactly the frames that `ContextTheorems.EndToEnd` speaks about, and the `events` of
  `ProcessFd` are exactly the `Events` it speaks about.
- **AVR receive ring** (`src/serial-device-avr.c`): `UartRing` models the interrupt and the single
  steps of the reader as interleaved actions, and the class `UartDevice` has the two pieces of code.

- **Both ends** (`Exchanges`): a sending and a receiving `Context` joined by a line.

`size_t` is 16, 32 or 64 bits wide (`Bits.Word`), and the sums of sizes wrap where the code's do: in
growing a buffer, in the header check, in decoding strings and raw buffers, in `next_pow2`, and in
the two functions that compute how much room an encoding needs. Where such a wrap would let the
code write beyond a buffer, the method that writes excludes it by precondition. Bytes are numbers
below 256; XOR, OR and shifts are defined on numbers bit by bit.

## What the code does that its readers may not expect

Each of these is a theorem below.

- The table of reserved bytes in `docs/protocols/serial-protocol.rst` (lines 40-45) swaps ESC and
  END. The model follows the code: START 0x10, ESC 0x1B, END 0xFF (`ReservedBytes`, `FrameEnds`); so
  does that document's own example (`DocumentedExample`).
- A frame that is too long for the receiver is not simply dropped. The byte after the limit is
  refused, and the next escaped START behind it opens a frame of its own, which may be refused in
  turn. `Judged` computes from the bytes sent what is left in the end; exactly when that is delivered
  is `WireDeliversIff`, exactly when nothing is, `WireDeliversNothingIff`, and an example of a frame
  nobody sent is `RefusedFrameCanDeliverItsTail`.
- A decoder caught right after an ESC loses the next frame; it is the only state that loses one
  (`FirstFrameIff`).
- With a fixed reception message, a frame that fails to build leaves its values behind, and a later
  message with fewer values is announced with them (`RefusedMessageShowsThrough`; exactly when, is
  `StaleSlotsIff`, over a whole run `StaleRunIff`).
- The encoder demands one byte for escaping the checksum even when the checksum needs none, so a
  buffer of exactly the frame's length can be refused (`PayloadSizeBound`).
- The SIZE of a message header is only a lower bound for the decoder, values that cannot be encoded
  are skipped without an error, and malformed strings and raw buffers are not refused but decoded to
  empty values. `ReproducedIff` says which buffers are nevertheless reproduced exactly.
- On AVR the decoder's default size exceeds its maximum, so `smp_serial_protocol_decoder_new(0)`
  fails there (`Decoder.New`).
- The receive ring holds one byte less than its size; one byte more makes a full ring look empty
  (`OverrunLooksEmpty`, `ReceiveIsEnqueue`, `OverrunKeepsTail`), and no more than 256 cells are ever
  used.

## Model

| member | source | states |
|---|---|---|
| Bits.BitOfXor | src/serial-protocol.c:78 | the model's XOR is the bitwise one: every bit is the sum of the operands' bits modulo 2 |
| Bits.BitOfOr | src/message.c:382-391 | the model's OR is the bitwise one |
| Bits.BitOfShr | src/message.c:382-391 | the model's right shift moves every bit down by the shift |
| Bits.XorInjective | src/serial-protocol.c:72-82 | a changed operand always changes the XOR: why one wrong byte cannot cancel out |
| Bits.WrappedSumIs | src/message.c:366-377 | adding up in a size_t, wrapping at each step, gives the whole sum modulo 2^w |
| Frame.UnescapeEscape | src/serial-protocol.c:131-142 | reading the escaped form of any bytes by the frame grammar gives the bytes back |
| Frame.EscapeUnescapeIff | src/serial-protocol.c:131-142 | a readable body is what escaping its content gives if and only if each ESC in it protects a reserved byte |
| Frame.WireLength | src/serial-protocol.c:351-373 | a frame has exactly 3 + n + (reserved bytes of the payload) + (1 if the checksum is reserved) bytes, at most 2n + 4 |
| Frame.ChecksumZeroIff | src/serial-protocol.c:171-181 | content ends in the checksum of the rest exactly when all of it XORs to zero |
| Frame.ChecksumDetects | src/serial-protocol.c:72-82 | changing any one byte to any other value changes the checksum |
| FrameBytes.ChecksumBits | src/serial-protocol.c:72-82 | each bit of the checksum is the parity of that bit over the bytes |
| FrameBytes.ReservedBytes | src/serial-protocol.c:34-52 | exactly 0x10, 0x1B and 0xFF are sent escaped, behind a 0x1B |
| FrameBytes.FrameEnds | src/serial-protocol.c:363-369 | a frame is the escaped payload and checksum between 0x10 and 0xFF |
| FrameBytes.DocumentedExample | docs/protocols/serial-protocol.rst:61-81 | the documented payload is sent as the documented frame |
| SerialEncoder.PayloadSizeBound | src/serial-protocol.c:54-70 | the room demanded covers every frame, exceeds it by at most one byte, and equals it exactly when the checksum is a reserved byte |
| SerialEncoder.ComputePayloadSize | src/serial-protocol.c:54-70 | the counting loop computes that room, modulo 2^w |
| SerialEncoder.ComputeChecksum | src/serial-protocol.c:72-82 | the loop computes the XOR of the first `size` bytes |
| SerialEncoder.WriteByte | src/serial-protocol.c:131-142 | appends the escaped form of one byte behind what was written, touches nothing after it, returns its length |
| SerialEncoder.WritePayload | src/serial-protocol.c:364-365 | appends the escaped payload behind what was written and touches nothing after it |
| SerialEncoder.WriteFrame | src/serial-protocol.c:363-373 | with the demanded room, the buffer starts with exactly the frame and the bytes after it are untouched |
| SerialEncoder.Encode | src/serial-protocol.c:338-374 | which calls are refused and with which error, that a refused call writes nothing, and that an accepted one yields exactly the frame, in the caller's buffer or in a new one of the demanded size |
| SerialProtocol.LimitClosedForm | src/serial-protocol.c:84-127 | repeated growth by 1024 from b under a maximum m ends at b + 1024 * ((m - b) / 1024), or at b if it may not grow |
| SerialProtocol.Decoder.New | src/serial-protocol.c:194-235 | a decoder of the asked or default initial size, waiting for a header; none exactly when the size exceeds the maximum of the target |
| SerialProtocol.Decoder.FromStatic | src/serial-protocol.c:237-265 | a fixed decoder on the caller's buffer, waiting for a header whatever the storage held |
| SerialProtocol.Decoder.SetMaximumCapacity | src/serial-protocol.c:326-335 | accepts exactly the maxima from 5 on and disturbs nothing else |
| SerialProtocol.Decoder.SetCapacity | src/serial-protocol.c:84-106 | keeps the content as far as it fits, zeroes new room, and refuses exactly fixed decoders and sizes above the maximum, without change |
| SerialProtocol.Decoder.PutByte | src/serial-protocol.c:108-127 | a byte is stored unless the content has reached the limit that growth can ever reach, and that limit does not move |
| SerialProtocol.Decoder.ProcessByteInFrame | src/serial-protocol.c:144-192 | inside a frame the object steps as the state machine does, up to the reset on errors that its caller makes |
| SerialProtocol.Decoder.ProcessByte | src/serial-protocol.c:278-324 | the object refines the state machine on every byte, reports an error or a frame but never both, and its buffer has its initial size and whole steps of 1024 more |
| Deframer.Step | src/serial-protocol.c:278-324 | one step of the protocol keeps the invariant: content within the limit, none between frames |
| Deframer.RunConcat | src/context.c:376-385 | state and outcomes after s + t are those of t run from the state after s |
| DeframerRuns.FeedSegment | src/serial-protocol.c:144-192 | a readable segment that fits is judged by its content alone, from every state but a pending ESC, with nothing reported inside it |
| DeframerRuns.FeedWire | src/serial-protocol.c:278-324 | an encoded payload that fits is delivered at its END, unchanged |
| DeframerRuns.StreamRecovered | src/serial-protocol.c:278-324 | any sequence of fitting frames with any START-free bytes between them is delivered exactly: each once, in order, without error |
| DeframerRecovery.SelfStabilises | src/serial-protocol.c:278-324 | after one complete frame, even one that does not fit, the decoder waits for a header, from every state |
| DeframerRecovery.FirstFrameIff | src/serial-protocol.c:291-321 | a frame is delivered at its END if and only if it fits and the decoder was not right after an ESC; nothing is delivered before that END |
| DeframerRecovery.InStepAfterOneFrame | src/serial-protocol.c:278-324 | after one frame from any state, each later frame is delivered if and only if it fits, even among frames that do not |
| DeframerRefusals.JudgedSnoc | src/serial-protocol.c:108-127 | what is left to judge after one more byte: the byte is added, refused at the limit, or, if it is START, opens a new frame after a refusal |
| DeframerRefusals.WireDeliversIff | src/serial-protocol.c:278-324 | from every state, for every payload, fitting or not: the END of its frame delivers f if and only if what is judged of the bytes sent is f and its checksum |
| DeframerRefusals.WireDeliversNothingIff | src/serial-protocol.c:278-324 | the frame delivers nothing at all if and only if nothing is judged, or something empty, or something that does not XOR to zero |
| DeframerRefusals.DroppedWhole | src/serial-protocol.c:318-321 | a payload that does not fit delivers nothing when no START comes after the first byte refused, checksum included |
| DeframerRefusals.RefusedFrameCanDeliverItsTail | src/serial-protocol.c:305-321 | a concrete payload that does not fit and makes the decoder deliver a frame nobody sent |
| DeframerRefusals.OversizedReported | src/serial-protocol.c:108-127 | a payload that does not fit is reported at its first content byte beyond the limit, with the error of a full buffer, and nothing is reported before |
| DeframerRefusals.RefusedStartCostsNextFrame | src/serial-protocol.c:305-321 | after a body that fills the buffer an escaped byte is refused, and the next frame is delivered if and only if it fits and that byte was not START |
| DeframerSoundness.HistoryHolds | src/serial-protocol.c:291-321 | in every reachable state inside a frame the buffer holds exactly the unescaped bytes since a START, up to a pending ESC; behind that ESC only bytes START can have been refused, and only by a full buffer |
| DeframerSoundness.DeliverySound | src/serial-protocol.c:161-185 | a delivered frame is the content of a readable segment that ends here, followed there by its XOR |
| DeframerSoundness.DeliveryComplete | src/serial-protocol.c:161-185 | every such segment that fits is delivered |
| DeframerSoundness.DeliveredIff | src/serial-protocol.c:161-185 | over any byte stream, a byte delivers f if and only if it is the END of such a segment for f and f fits |
| DeframerSoundness.Conservation | src/serial-protocol.c:278-324 | the delivered frames, three bytes added for each, and the frame in progress never exceed the bytes fed |
| DeframerSoundness.SegmentsDisjoint | src/serial-protocol.c:278-324 | the segments of two deliveries never overlap |
| DeframerErrors.WirePosHolds | src/serial-protocol.c:363-369 | the wire position of each content byte carries that byte, behind an ESC if it is reserved |
| DeframerErrors.WirePositionsCovered | src/serial-protocol.c:363-369 | every wire byte inside a frame is such a position or the ESC before one |
| DeframerErrors.CorruptionDetected | src/serial-protocol.c:157-185 | one wire byte of a fitting frame replaced (an unescaped one by a non-reserved byte, an escaped one by any byte) always ends in BAD_MESSAGE with nothing delivered |
| DeframerErrors.CorruptionOnlyReport | src/serial-protocol.c:157-185 | and from a waiting decoder nothing else is reported |
| DeframerErrors.RefusedIff | src/serial-protocol.c:161-185 | a readable body that fits is refused with BAD_MESSAGE if and only if it is empty or its content does not XOR to zero |
| DeframerErrors.StartEnd | src/serial-protocol.c:164-169 | START and END alone report BAD_MESSAGE at the END |
| DeframerErrors.PrefixFree | src/serial-protocol.c:338-374 | no frame is a prefix of another payload's frame, so encoding is injective |
| DeframerErrors.ReencodesIff | src/serial-protocol.c:131-142 | encoding a delivered frame reproduces its segment if and only if every ESC in it precedes a reserved byte |
| CapacityLaw.PayloadLimit | src/serial-protocol.c:84-127 | a payload is delivered if and only if it and its checksum fit in b + 1024 * ((m - b) / 1024) bytes, or in b for a buffer that cannot grow |
| CapacityLaw.PayloadReported | src/serial-protocol.c:84-127 | a payload beyond that limit is reported at its first byte beyond it, as TOO_BIG, or as OVERFLOW where one more step would wrap |
| CapacityLaw.LimitInvariant | src/serial-protocol.c:108-127 | growing the buffer changes neither that limit nor the error at it |
| PowersOfTwo.LeastPow2FromIs | src/message.c:379-395 | the doubling reference is the least power of two at or above v |
| PowersOfTwo.NextPow2 | src/message.c:379-395 | for every size_t width the shift-and-or form returns the least power of two at or above v for 1 <= v <= 2^(w-1), and 0 for every other v |
| PowersOfTwo.SmearStep | src/message.c:382-391 | OR-ing a number with itself shifted right by j doubles a run of j ones below its highest bit |
| PowersOfTwo.LeastPow2Growth | src/message.c:428-430 | growing from c slots gives more than c and at most 2c |
| LittleEndian.FromToLE | src/message.c:59-86 | a number that fits reads back from its little-endian bytes |
| LittleEndian.ToFromLE | src/message.c:59-86 | any bytes are the little-endian form of the number read from them, which fits |
| LittleEndian.ByteOf | docs/protocols/message-protocol.rst:40-46 | byte i of a number is the number divided by 256^i, modulo 256 |
| MessageLayout.NumberTypes | docs/protocols/message-protocol.rst:88-118 | exactly which numbers each type can hold |
| MessageLayout.NumberBytes | src/message.c:300-329 | a number is its type and, the least byte first, itself or, when negative, 256^w more than itself |
| MessageLayout.StringBytes | docs/protocols/message-protocol.rst:122-145 | a string is 0x09, the size with the NUL, the characters and the NUL |
| MessageLayout.RawBytes | docs/protocols/message-protocol.rst:150-171 | a raw buffer is 0x10, its size and its bytes |
| MessageLayout.MessageBytes | docs/protocols/message-protocol.rst:28-46 | a message is its id, the size of its arguments, and the arguments |
| MessageLayout.RoomOf | src/message.c:161-189 | what is demanded for one value of each kind, skipped or not |
| MessageFormat.CountArgsIs | src/message.c:722-737 | the argument count is the index of the first slot without a value |
| MessageDecode.StrLen | src/message.c:174 | the length is the position of the first NUL, and nothing exactly when there is no NUL |
| MessageArguments.StrLenIff | src/message.c:174 | the length found is that of the C string the bytes start with |
| MessageArguments.DecodeStringIff | src/message.c:191-209 | a string is decoded exactly when its declared bytes are there and end in a NUL, and it is the C string behind the size |
| MessageArguments.DecodeRawIff | src/message.c:211-228 | raw data is decoded exactly when its declared bytes are there, and it is those |
| MessageDecode.DecodeValue | src/message.c:230-297 | a successful step consumes at least 2 and at most the remaining bytes, which bounds and ends the build loop |
| MessageArguments.NumberIff | src/message.c:247-291 | a number is decoded exactly when its encoding stands there, which is what is consumed |
| MessageArguments.StringIff | src/message.c:272-277 | exactly which bytes decode to which string, and how many are consumed |
| MessageArguments.RawIff | src/message.c:278-285 | exactly which bytes decode to which raw data, and how many are consumed |
| MessageArguments.NullStringIff | src/message.c:272-277 | exactly which strings decode to a NULL string of four bytes |
| MessageArguments.EmptyRawIff | src/message.c:278-285 | exactly which raw buffers decode to a slot without data, of three bytes |
| MessageArguments.FailsIff | src/message.c:236-245 | a step fails exactly for less than two bytes, an unknown type, or less than the shortest form of the type, and what it leaves in the slot |
| MessageDecode.GrownCapacity | src/message.c:428-430 | growing is possible exactly up to half the range of size_t, and then gives more slots |
| MessageBuild.BeyondIff | src/message.c:191-228 | the exact string and raw fields whose decoding would look outside the frame |
| MessageBuild.SensibleStaysInside | src/message.c:191-228 | a payload whose strings all declare a size, and none of whose sizes wraps in a size_t, is decoded without looking outside it, on every target |
| MessageBuild.SpecifiedIff | src/message.c:418-441 | a build looks outside the frame if and only if one of the steps it takes does: as many as a fixed message has slots, or all for a message that grows |
| MessageBuild.BuildArgsParsed | src/message.c:418-448 | a payload that parses is stored value by value in the slots, growing if allowed, later slots untouched; a fixed message with too few slots reports TOO_BIG |
| MessageBuild.TooBigLeaves | src/message.c:425-446 | such a message is left holding the first values |
| MessageBuild.BuildArgsRefused | src/message.c:418-448 | a payload that does not parse is never built |
| MessageFailures.FaultIff | src/message.c:418-441 | a payload parses exactly when no step fails, to the values of its steps |
| MessageFailures.BuildFails | src/message.c:418-448 | how every build of a payload with a faulty argument ends: TOO_BIG or BAD_MESSAGE, and exactly what the slots then hold |
| MessageFailures.GrowthRefused | src/message.c:428-432 | a message that cannot grow in a size_t is refused with INVALID_PARAM, unchanged |
| MessageFailures.ShortFrame | src/message.c:408-416 | a frame shorter than its header asks for, in the arithmetic of size_t, is refused with BAD_MESSAGE; only the id can have changed |
| MessageBuild.StatusIgnoresSlots | src/message.c:418-448 | how a build ends depends on the number of slots, never on what they hold |
| MessageBuild.StatusIgnoresCapacity | src/message.c:418-448 | for a message that grows it does not even depend on their number |
| MessageBuild.CapacityBound | src/message.c:419-433 | decoding n values from capacity c ends with the larger of c and 2(n - 1) slots at most |
| MessageBuild.GrownCapacityIsPow2 | src/message.c:428-430 | and a capacity that has grown is a power of two |
| MessageRoundTrip.BitsRoundTrip | src/message.c:247-271 | a signed or unsigned number of any width survives its two's complement bits |
| MessageRoundTrip.DecodeEncodedValue | src/message.c:230-363 | an encoded value decodes to itself and takes its own length, whatever follows it |
| MessageRoundTrip.ParseEncoded | src/message.c:662-669 | the encoding of any slots parses to the values kept, in order |
| MessageRoundTrip.HeaderRoundTrip | src/message.c:411-416 | the header of an encoded message gives back the id, and a SIZE that is exactly the payload's |
| MessageRoundTrip.BuildIff | src/message.c:398-449 | a build succeeds if and only if the buffer covers SIZE, the payload parses and the values fit, and then holds the header's id and exactly the parsed values |
| MessageRoundTrip.RoundTrip | src/message.c:398-449 | building a cleared message from an encoding gives the same id and exactly the encodable values, in order, in the first slots, none after them; too few fixed slots give TOO_BIG |
| MessageRoundTrip.ArgsOfReceived | src/message.c:722-737 | the argument count of the message received is the number of values kept |
| MessageReencode.WellFormedReencodes | docs/protocols/message-protocol.rst:49-171 | every payload of the documented grammar parses to values that encode to the same bytes |
| MessageReencode.EncodedIsWellFormed | docs/protocols/message-protocol.rst:49-171 | the encoder only produces payloads of the documented grammar |
| MessageReencode.ReproducedIff | src/message.c:647-678 | decoding a buffer into a fresh growable message and encoding that reproduces it byte for byte if and only if it is of the documented grammar, header SIZE included |
| MessageEncode.EncodedSizeIff | src/message.c:365-377 | the encoding never needs more than the computed maximum, and all of it exactly when no value is skipped |
| MessageEncode.WriteValue | src/message.c:300-363 | writes exactly the encoding of the value within its computed size; for a skipped value it writes the type byte and nothing else, and advances nothing |
| MessageEncode.AppendValue | src/message.c:662-669 | one iteration puts the encoding of a value right behind what was written before, which stays as it is |
| MessageEncode.WriteSize | src/message.c:674-675 | SIZE is the length of the arguments written, which stay as they are |
| Messages.Message.New | src/message.c:472-491 | a growable message with the id and eight empty slots |
| Messages.Message.FromStatic | src/message.c:527-547 | a fixed message on the caller's slots, all emptied |
| Messages.Message.Clear | src/message.c:572-578 | id 0 and every slot empty |
| Messages.Message.SetCapacity | src/message.c:608-635 | keeps every value, adds empty slots, and refuses fixed messages and smaller capacities without change |
| Messages.Message.Grow | src/message.c:428-432 | grows to the next power of two, or fails without change where size_t cannot hold it |
| Messages.Message.DecodeSlot | src/message.c:230-297 | the slot and the count are those of the decoding step, failures included |
| Messages.Message.BuildValue | src/message.c:419-441 | one iteration leaves exactly the work of the remaining slots and bytes |
| Messages.Message.BuildValues | src/message.c:418-448 | the loop ends, with the slots and status of the specified build |
| Messages.Message.BuildFromBuffer | src/message.c:398-449 | id, slots and status are those of the specified build, for every buffer |
| Messages.Message.NArgs | src/message.c:722-737 | the number of slots before the first empty one, or OVERFLOW beyond the range of int |
| Messages.Message.GetEncodedSize | src/message.c:365-377 | 8 and the computed maximum, modulo 2^w |
| Messages.Message.EncodeValues | src/message.c:662-669 | the kept values are encoded one after the other, and nothing beyond the computed maximum is touched |
| Messages.Message.Encode | src/message.c:647-678 | refused exactly when the computed size does not fit, nothing written then; nothing ever written beyond that size; otherwise the buffer starts with the encoding of the message |
| ContextModel.HandleFrame | src/context.c:61-89 | each frame leads to one callback and keeps the reception message valid and of its kind |
| ContextModel.ReceivedConcat | src/context.c:359-386 | receiving s + t is receiving s and then t: same state, same callbacks |
| ContextModel.ChunkIndependent | src/context.c:365-386 | however a stream is cut into reads, the callbacks are the same |
| ContextModel.EventsAreFrameEvents | src/context.c:376-385 | without framing errors there is exactly one callback for each delivered frame, in order |
| ContextModel.CallbackFor | src/context.c:376-385 | one callback for each byte that reports something, in order: an error as it is, a frame as handled with the message its predecessors left |
| ContextModel.QuietEvents | src/context.c:376-385 | bytes that report nothing lead to no callback |
| ContextTheorems.CorruptionAnnounced | src/context.c:376-385 | a frame with one byte changed on the line makes a waiting receiver call the error callback once, with BAD_MESSAGE, and nothing else, and leaves it waiting with its message untouched |
| ContextTheorems.StartEndAnnounced | src/context.c:376-385 | so do START and END alone |
| ContextTheorems.CallbackOf | src/context.c:61-89 | which callback every frame leads to, and with what: BAD_MESSAGE, TOO_BIG, or its id and values |
| ContextTheorems.LeftIn | src/context.c:77-88 | after its callback a reception message has id 0 and no values; after a failed build it has the id of the frame |
| ContextTheorems.EndToEnd | src/context.c:269-387 | for any encodable messages whose frames fit, with any START-free bytes between the frames and any cut into reads: one message callback for each, in order, same id, same kept values, and no error callback |
| ContextTheorems.HistoryIndependent | src/context.c:67-88 | a frame's callback depends on that frame alone: always without a reception message, and with one as long as the frame just before it could be built; with one that grows, but for the number of empty slots |
| ContextTheorems.BuildableIff | src/message.c:405-448 | a build succeeds exactly when the frame covers its header's size, its payload parses and a fixed message has slots enough |
| ContextTheorems.StaleSlotsIff | src/context.c:77-81 | with anything left over in the reception message, a frame's callback is its own exactly when it cannot be built or covers every slot in use |
| ContextTheorems.StaleRunIff | src/context.c:61-89 | the same after any run of frames received into a fixed message |
| ContextTheorems.RefusedMessageShowsThrough | src/context.c:77-81 | after any message with too many values has been refused, an empty message is announced with the refused one's values |
| Contexts.Context.constructor | src/context.c:138-160 | a closed context on the given decoder, buffers and reception message |
| Contexts.Context.SendMessage | src/context.c:269-340 | every way sending can end: Ok only with the whole frame on the line, an IO error with the part of it that the device took, every other error with nothing |
| Contexts.Context.EncodeFirst | src/context.c:283-301 | the message is encoded whole in the given or a new buffer, or refused for lack of room |
| Contexts.Context.SendBytes | src/context.c:303-326 | every way sending the encoded bytes can end, and what of their frame the line gets |
| Contexts.Context.ProcessSerialFrame | src/context.c:61-89 | makes exactly the specified callback and leaves the reception message as specified, cleared only after success |
| Contexts.Context.ProcessByte | src/context.c:378-384 | decoder, reception message and callbacks move by exactly one specified step |
| Contexts.Context.ProcessChunk | src/context.c:376-385 | the byte loop follows the specified run over the chunk |
| Contexts.ChunksAre | src/context.c:365-374 | the data that is processed is that of the reads before the first one that brings none |
| Contexts.Context.ProcessReads | src/context.c:359-386 | the read loop consumes the reads up to the first one without data, as one stream |
| Contexts.Context.ProcessFd | src/context.c:352-387 | for whatever the reads return, the callbacks are those of their data as one stream, the result is an error exactly for a closed context or a failing read, and the decoder's buffer has its initial size and whole steps of 1024 more |
| Exchanges.SendAll | src/context.c:269-340 | messages that fit the sender's buffers put exactly their frames on the line, in order |
| Exchanges.ReceiveAll | src/context.c:352-387 | a waiting receiver whose reads bring such frames announces each message once, in order, and nothing else |
| Exchanges.Exchange | src/context.c:269-387 | two contexts on one line: every message sent by the one is announced by the other exactly once, in order, with its id and values, without any error |
| UartRing.NextIndexIs | src/serial-device-avr.c:156-159 | the 8-bit increment and wrap count modulo the ring size, or modulo 256 in a larger ring |
| UartRing.InterruptKeeps | src/serial-device-avr.c:154-160 | an interrupt at any point of the reader keeps the ring a FIFO when there is room |
| UartRing.OverrunLooksEmpty | src/serial-device-avr.c:154-160 | without room, wherever the reader is, it finds the indices equal at its next look while a whole ring of bytes is unread |
| UartRing.InterruptSeenIff | src/serial-device-avr.c:154-160 | after an interrupt at any point the reader finds a byte at its next look if and only if there was room |
| UartRing.ReaderKeeps | src/serial-device-avr.c:568-576 | each single step of the reader keeps the ring a FIFO |
| UartRing.EveryRunIsFifo | src/serial-device-avr.c:154-160 | in every interleaving without overrun the bytes read are a prefix of the bytes received, and the ring holds exactly the rest |
| UartRing.StopsShortIff | src/serial-device-avr.c:569-570 | the reader stops short exactly when everything received has been read |
| UartRing.EveryRunWithinWant | src/serial-device-avr.c:568 | at any point of any run the call in progress has read at most what it was asked for |
| UartRing.CallReads | src/serial-device-avr.c:559-579 | a call adds at most `size` bytes to those read, and exactly that many unless it finds the ring empty, whatever interrupts come in between |
| UartRing.StepsAreTake | src/serial-device-avr.c:568-576 | the reader's steps without an interrupt between them are one whole read of a byte |
| UartRing.ReceiveIsEnqueue | src/serial-device-avr.c:154-160 | with whole operations the interrupt refines a queue that empties itself when it reaches the ring size |
| UartRing.TakeIsDequeue | src/serial-device-avr.c:568-576 | reading a byte takes the head of that queue |
| UartRing.TakeUpToIs | src/serial-device-avr.c:559-579 | a read returns the first bytes of the queue, as many as are asked for and there, and leaves the rest |
| UartRing.LeftAfter | src/serial-device-avr.c:154-160 | of the bytes in a queue and those enqueued after them, exactly the last (their number modulo the ring size) are left |
| UartRing.OverrunKeepsTail | src/serial-device-avr.c:154-160 | so from any queue, after any number of interrupts, a read returns the first of exactly those bytes, as many as asked for and there, and leaves the rest |
| UartRing.UartDevice.constructor | src/serial-device-avr.c:39-47 | a device starts with an empty ring |
| UartRing.UartDevice.RxInterruptHandler | src/serial-device-avr.c:154-160 | the handler performs the specified receive on the shared ring |
| UartRing.UartDevice.TakeByte | src/serial-device-avr.c:569-575 | one iteration performs the specified take, or finds the ring empty |
| UartRing.UartDevice.Read | src/serial-device-avr.c:559-579 | the loop performs takes up to the size asked for or until the ring is empty |

## Left out

- MessageDecode.DecodeValue: where a string declares size 0 with no NUL behind it in the frame, or a 16-bit size wraps, the C code reads beyond the frame; the model marks this and does not say what is read (`BeyondIff` says when).
- Messages.Message.BuildFromBuffer: excludes by precondition the buffers for which that happens; `SpecifiedIff` and `SensibleStaysInside` say which are safe.
- Messages.Message.BuildValues: the same.
- Messages.Message.BuildValue: the same.
- Messages.Message.DecodeSlot: the same, for one argument.
- Contexts.Context.ProcessFd: excludes by precondition the streams with such a frame.
- Contexts.Context.ProcessReads: the same.
- Contexts.Context.ProcessChunk: the same.
- Contexts.Context.ProcessByte: the same, for the byte that completes such a frame.
- Contexts.Context.ProcessSerialFrame: the same, for the frame.
- SerialEncoder.Encode: excludes payloads for which the demanded size wraps, where the code would write beyond its buffer, and an output buffer that is the input buffer.
- Messages.Message.Encode: excludes by precondition messages whose slots hold a NULL string or data left over from a malformed raw buffer, and messages whose total size exceeds a size_t.
- Messages.Message.EncodeValues: the same slots, and a buffer without the room that its caller has checked.
- Contexts.Context.SendMessage: the same as for Encode, and messages whose frame could exceed a size_t.
- Contexts.Context.SendBytes: the encodings whose frame could exceed a size_t.
- UartRing.UartDevice.Read: the method is without interrupts between its steps; interleaving is in the actions of `UartRing.Act`, with each step taken as atomic.
- Allocation failures, including the unchecked multiplication in `smp_message_set_capacity`, and the message leaked after a failed build: allocation succeeds and memory is not counted.
- NULL-pointer checks of the API other than those for the encoder's buffers, and unset callbacks: single branches.
- The frame size that a decoder also stores when a checksum is wrong: it is meaningless without a frame.
- The pointers of received strings and raw buffers into the decoder's buffer: they are copied here, while the library only promises them during the callback.
- Variable-argument and per-type getters and setters: thin wrappers around one slot.
- Values of the type field above 255 that only a caller's setter could store: types are bytes.
- Big-endian hosts and the unaligned-access variants: the host is little-endian.
- Float arithmetic: floats are their bit patterns.
- `smp_buffer_*`, free functions, static-storage size checks, opening, closing and configuring a context, `smp_context_wait_and_process`: bookkeeping.
- Serial devices for Posix, Win32 and Arduino, and AVR registers and baud rates: hardware and I/O. What reads return and how much writes take are parameters.
