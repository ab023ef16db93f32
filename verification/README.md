# Verified models of the MQTT codec, the SNTP client and the contactor interlock

The repository is a battery controller: a modified `rust-mqtt` (an MQTT v5.0 client without allocation), `sntpc`
(an SNTP client), and firmware that opens and closes two high-voltage contactors. This project models those three
parts in Dafny and proves what they are for.

Check it with `dafny verify dfyconfig.toml`.

## How it is built

| files | what they hold |
|---|---|
| `Base`, `VarInt`, `Types`, `Lists`, `Properties` | integers of the machine, results that may panic, and what every field type looks like on the wire: an encoder as a function to bytes, a reader as a function of a byte string and a cursor, and the lemmas that connect them |
| `BuffWriter`, `BuffReader` | the two cursors, as classes over arrays, every method tied to those functions |
| `Packets`, `Publish`, `Acks`, `Subscriptions`, `Connect` | the packets, as classes whose `Encode` and `Decode` are tied to the bytes of a packet value |
| `Framing` | `receive_packet`: its two loops over both buffers, and the stream behind an arbitrary sequence of reads |
| `Rng`, `Client`, `RawClient` | packet identifiers, the reaction of `poll` to one packet, and the client's methods |
| `NtpTime`, `NtpPackets` | the SNTP arithmetic on wrapping 64-bit fixed-point numbers, and the packet |
| `Contactors` | the inverter task, the contactor task and the signal between them, under every interleaving |

Code that updates buffers, cursors and fields is a class or a loop here too, and each of its methods says which
pure function it computes; the theorems are about those functions. The theorems about encoding compare the client
with a second reader written from the MQTT standard (`Std...At`), which shares the readers of single fields with the
code's `decode`, not the way it finds the ends of lists and packets; for CONNECT, SUBSCRIBE and UNSUBSCRIBE the code
has no decoder at all. PUBLISH, PUBACK and SUBACK are compared with the code's own `decode`.

`Panic` is an outcome beside `Ok` and `Err`: an index out of range, a slice that runs backwards, an `unwrap` of
an error. Sums of `u16`, `u32` and `u64` wrap as in a release build. No precondition keeps a method from malformed
input; where a law fails, a lemma ending in `Exactly` states on which inputs it holds.

## What turned out false, and exactly when

- **Binary properties.** `read_binary` leaves the cursor in front of the data it returns. A property list or a
  PUBLISH comes back if and only if it carries no non-empty binary property (`Properties.RoundTripExactly`,
  `Publishes.RoundTripExactly`); no choice of data lets the cursor get back into step. The list itself is returned,
  with one binary property, if and only if its data and what follows begin with the properties that follow
  (`Properties.OneBinaryExactly`), so when none follow. A PUBLISH is then decoded with the data silently put in front
  of its message (`Publishes.LastBinaryInMessage`, `Clients.BinaryDataInMessage`).
- **Enhanced authentication.** A CONNACK with AuthenticationData is read completely under the same condition
  (`Acks.ConnackReadsExactly`); in front of AuthenticationMethod it usually is not, and an accepted connection is
  reported as unreadable (`Clients.AuthenticationMisread`). A refusal is never reported as an acceptance
  (`Clients.ConnackNeverMisreported`).
- **Receive buffer.** The body loop slices `recv_buffer` by the cumulative count. A packet survives every split into
  reads if and only if that buffer holds its header plus twice its body less one byte (`Framing.EverySplitExactly`).
- **Malformed lengths.** A length field whose fourth byte continues panics; the branch that should refuse it cannot be
  reached (`Framing.MalformedLengthPanics`, `Framing.FifthByteEndsHeader`).
- **Redundant lengths.** PUBLISH and SUBACK recompute the width of the remaining length. The message of a PUBLISH is
  complete if and only if the sender used the shortest form (`Publishes.MessageExactly`), and so are the codes of a
  SUBACK that has any (`Acks.SubackCodesExactly`).
- **Granted topics.** Success of a subscription does not say that every topic was granted: nothing compares the number
  of codes with the number of topics. It says so if and only if there are as many and those cut off by a redundant
  length agree (`Clients.SubackGrantsExactly`, with two packets in `Clients.SubackMisreported`).
- **Closed connections.** A peer that closes in the middle of a packet ends `receive_packet` if and only if the length
  field was incomplete; in the body the call reads for ever (`Framing.ClosedEndsExactly`).
- **SNTP replies.** Broadcast mode, a stratum above 15 and a transmit timestamp of zero pass the checks, although
  section 5 of RFC 4330 rules them out in a unicast reply (`NtpPackets.ChecksExactly`).
- **Dropped properties.** `add_properties` counts what it drops; the announced length is right if and only if nothing
  was dropped (`Packets.AddedLengthExactly`, `Connects.CleanIsSoundExactly`).
- **Filter lengths.** They are summed in 16 bits, which is right if and only if they fit
  (`Subscriptions.RemainingExactly`). A request without topics panics (`Subscriptions.EmptyRequestPanics`).
- **Topics.** One of 65536 bytes or more is announced with a truncated length; delivery needs a shorter one, and that
  is enough (`Clients.MessageDelivered`). The same holds for the texts of a configuration
  (`RawClient.ConnectReadExactly`) and for the sum of a request's topics (`Subscriptions.RequestReadExactly`).
- **Server packets.** A DISCONNECT with a reason code and no property block is refused
  (`Acks.DisconnectNeedsProperties`); the reason codes of an UNSUBACK are ignored (`Clients.UnsubackIgnoresCode`).
- **Identifiers.** 0 is drawn, once, if and only if the counter starts at 2^64 - 1 (`Rng.InRangeExactly`).
- **Microseconds.** They lose one unit on the way through an NTP timestamp unless they are a multiple of 200000
  (`NtpTime.MicrosBack`). The check of the leap indicator is never the reason for a refusal.
- **QoS 2.** A message of QoS 2 counts as sent as soon as it is out (`RawClient.RawMqttClient.SendMessage`); the
  exchange of section 4.3.3 can never finish, because PUBREC is an error and PUBREL is never sent
  (`Clients.Qos2NotCarriedOn`, `RawClient.NeverSendsPubrel`).
- **Invalid quality of service.** It goes out as QoS 1 with the retain bit set (`Publishes.OutgoingReadByStandard`).
- **Messages while waiting.** A QoS 1 message that arrives where an acknowledgement was expected is acknowledged and
  lost (`RawClient.Exchanged`, which the requests of the client ensure).
- **Interlock.** A battery timeout between two positive responses does not start the count anew
  (`Contactors.TimeoutBetweenPositives`), and one negative response after a positive one opens the contactors without
  setting the fault: the fault is only set while `initalised` is false (stated in `Contactors.Safe`). A negative
  response during the precharge does not keep main from being switched on; it is acted on at the next wait, unless
  two positive ones followed (`Contactors.SwitchesOnExactly`, `Contactors.StaysClosedExactly`).

## Model

| member | source | states |
|---|---|---|
| `Framing.ReceivesAllPackets` | rust-mqtt/src/client/raw_client.rs:476-544 | for every list of packets and every split of their concatenation into non-empty reads, that many calls return exactly those packets in order and leave exactly the bytes after them unread |
| `Framing.ReceivesFirstPacket` | rust-mqtt/src/client/raw_client.rs:476-544 | one call returns exactly the first packet of the stream, whatever follows it, and leaves exactly the rest |
| `Framing.EverySplitExactly` | rust-mqtt/src/client/raw_client.rs:528-543 | a packet survives every split if and only if `recv_buffer` holds its header and, less one byte, twice its body, because the copy is sliced by the cumulative count |
| `Framing.ReceiveOutcome` | rust-mqtt/src/client/raw_client.rs:476-544 | once the length field has arrived, with a receive buffer large enough for the packet, and whatever follows the live stretch of the stream: more than the buffer holds is `BuffError`, a whole packet is the packet, one cut off by a read that fails is `NetworkError` |
| `Framing.EveryOutcome` | rust-mqtt/src/client/raw_client.rs:476-544 | the outcome for every stream that ends in a failing read, under every split, with a receive buffer large enough for what arrives: also when the length field is incomplete or malformed |
| `Framing.WaitsForBody` | rust-mqtt/src/client/raw_client.rs:528-543 | a call that has taken the whole live stretch as the beginning of a packet waits for exactly the bytes still owed |
| `Framing.ClosedEndsExactly` | rust-mqtt/src/client/raw_client.rs:484-543 | a peer that closes the connection in the middle of a packet ends the call, after some number of reads of zero bytes, if and only if the length field was still incomplete |
| `Framing.ClosedInBody` | rust-mqtt/src/client/raw_client.rs:528-543 | behind part of a body any number of reads of zero bytes changes nothing: the call goes on waiting |
| `Framing.HeaderLoopFrames` | rust-mqtt/src/client/raw_client.rs:484-518 | the byte-by-byte loop ends with the last byte of the length field, under every split, having taken nothing beyond it |
| `Framing.BodyLoopFrames` | rust-mqtt/src/client/raw_client.rs:528-543 | the body loop takes exactly the bytes still owed, under every split |
| `Framing.FrameLenPrefix` | rust-mqtt/src/client/raw_client.rs:476-544 | how long a packet is does not depend on the bytes behind it |
| `Framing.MalformedLengthPanics` | rust-mqtt/src/client/raw_client.rs:517-526 | a length field whose fourth byte continues is not refused: decoding it panics |
| `Framing.PanicsExactly` | rust-mqtt/src/client/raw_client.rs:476-544 | with a receive buffer large enough for what arrives, a call panics if and only if the fourth byte of the length field continues and the buffer has room for it |
| `Framing.FifthByteEndsHeader` | rust-mqtt/src/client/raw_client.rs:506-515 | the test for an overlong length field can never be reached |
| `Framing.EmptyReadEndsHeader` | rust-mqtt/src/client/raw_client.rs:491-500 | a read of zero bytes at any point of an incomplete length field is `NetworkError` |
| `Framing.EmptyReadIsIgnored` | rust-mqtt/src/client/raw_client.rs:528-543 | one such read at any point of the body changes nothing |
| `Framing.StillWaiting` | rust-mqtt/src/client/raw_client.rs:528-543 | nor does any number of them |
| `Framing.Connection.Receive` | rust-mqtt/src/network/mod.rs:56-61 | what a read puts into the buffer and what remains to be read, for any sequence of segments, empty reads and failures |
| `Framing.Connection.Send` | rust-mqtt/src/network/mod.rs:46-53 | a send appends the whole buffer to what was sent, or fails and sends nothing, as the script of writes says |
| `Framing.ReceiveHeader` | rust-mqtt/src/client/raw_client.rs:484-518 | the loop over `writer` and `recv_buffer` computes `HeaderLoop` |
| `Framing.ReceiveBody` | rust-mqtt/src/client/raw_client.rs:528-543 | the loop over `writer` and `recv_buffer` computes `BodyLoop` |
| `Framing.ReceivePacket` | rust-mqtt/src/client/raw_client.rs:476-544 | result, packet in `buffer` and unread rest of the connection are those of the specification `Receive`, for every connection |
| `VarInt.VbiAtRoundTrip` | rust-mqtt/src/encoding/variable_byte_integer.rs:46-116 | what was encoded is decoded, wherever it lies and whatever follows it |
| `VarInt.VbiLeastWidth` | rust-mqtt/src/encoding/variable_byte_integer.rs:46-84 | the width is the least k with n < 128^k |
| `VarInt.ValueBound` | rust-mqtt/src/encoding/variable_byte_integer.rs:95-116 | four bytes decode below 2^28 whatever they hold, so re-encoding a decoded value cannot fail |
| `VarInt.MinimalExactly` | rust-mqtt/src/encoding/variable_byte_integer.rs:46-116 | re-encoding a decoded field gives its bytes, and its width, back if and only if it has no redundant final zero byte |
| `VarInt.PaddedLen` | rust-mqtt/src/encoding/variable_byte_integer.rs:74-84 | the zero-padded array the encoder returns knows its own width |
| `VarInt.ScanOnPrefix` | rust-mqtt/src/utils/buffer_writer.rs:65-86 | on a prefix of a stream a length scanner says what it says on the stream, or asks for more; it asks exactly on the prefixes that end inside the field |
| `VarInt.Encode` | rust-mqtt/src/encoding/variable_byte_integer.rs:46-72 | the loop yields the padded shortest encoding, or an error exactly above 268435455 |
| `VarInt.Len` | rust-mqtt/src/encoding/variable_byte_integer.rs:74-84 | the width of the field in an array, or the panic when its fourth byte continues |
| `VarInt.Decode` | rust-mqtt/src/encoding/variable_byte_integer.rs:95-116 | the value of the field in an array, or the panic when its fourth byte continues; the error for a large multiplier never comes |
| `VarInt.SizeTable` | rust-mqtt/src/encoding/variable_byte_integer.rs:46-84 | the borders of the table in section 1.5.5, byte by byte |
| `Base.NetworkOrder` | rust-mqtt/src/utils/buffer_writer.rs:110-119 | two- and four-byte integers go out with the most significant byte first |
| `Base.Utf8Exactly` | rust-mqtt/src/utils/buffer_reader.rs:123-140 | the strings that are accepted are exactly the encodings of sequences of Unicode scalar values (RFC 3629, section 3) |
| `Types.FieldExamples` | rust-mqtt/src/utils/buffer_writer.rs:122-141 | strings, binary data, pairs and filters on the wire, with the example of section 1.5.4 |
| `Types.ReadErrors` | rust-mqtt/src/utils/buffer_reader.rs:91-152 | which error a reader gives: missing bytes or text that is not well-formed |
| `BuffWriters.ScannersAgree` | rust-mqtt/src/utils/buffer_writer.rs:65-86 | `get_rem_len` fails exactly on the proper prefixes of a length field, and afterwards gives the array whose length and value are those that `read_variable_byte_int` finds |
| `Properties.RoundTripExactly` | rust-mqtt/src/packet/v5/mqtt_packet.rs:72-89 | the code's loop returns a written property list, with the cursor at the end of the block, if and only if the list holds no non-empty binary data |
| `Properties.OneBinaryExactly` | rust-mqtt/src/packet/v5/mqtt_packet.rs:72-89 | a list with one binary property is returned, though the cursor falls behind, if and only if the data and what follows it begin with the properties that follow |
| `Properties.RecoverableReads` | rust-mqtt/src/packet/v5/mqtt_packet.rs:72-89 | such a list, or one without binary data, is read completely, and the cursor is short of the end of the block by exactly the unread data |
| `Properties.LaidIsWritten` | rust-mqtt/src/packet/v5/mqtt_packet.rs:72-89 | conversely to the round trip, what is read without leaving data behind lies there as it would be written |
| `Properties.PropertyLies` | rust-mqtt/src/packet/v5/property.rs:297-340 | the same for one property on any bytes, integers excepted |
| `Properties.NeverCatchesUp` | rust-mqtt/src/utils/buffer_reader.rs:143-152 | a cursor left in front of binary data can never get back into step by reading the rest of the list, redundant integers included |
| `Properties.StaysBehind` | rust-mqtt/src/utils/buffer_reader.rs:143-152 | reading a property from a cursor behind the place where it was written never brings the cursor level with its end |
| `Properties.LoopConserves` | rust-mqtt/src/packet/v5/mqtt_packet.rs:72-89 | what a successful run reads makes up the announced length, and the cursor is short of the block end by exactly the unread data (at most by it when integers have redundant bytes) |
| `Properties.LoopNeverWraps` | rust-mqtt/src/packet/v5/mqtt_packet.rs:72-89 | on any reader of at most 65535 bytes the u32 accumulator never wraps, in runs that end in an error too |
| `Properties.PropsRoundTrip` | rust-mqtt/src/packet/v5/mqtt_packet.rs:72-89 | a property block without binary data is read back, whatever follows it |
| `Properties.StdPropsRoundTrip` | rust-mqtt/src/utils/buffer_writer.rs:157-165 | a reader of section 2.2.2 recovers every written list, binary data included, and ends at the end of the block |
| `Properties.PropertyRoundTrip` | rust-mqtt/src/packet/v5/property.rs:264-340 | each of the 27 properties is read back; the code's cursor is short by the unread data |
| `Properties.PropertySpan` | rust-mqtt/src/packet/v5/property.rs:228-340 | conversely, on any bytes: what a property occupies is 1 plus its `encoded_len`, less unread data, or more with redundant integer bytes |
| `Properties.EncodedLenIsPayload` | rust-mqtt/src/packet/v5/property.rs:228-262 | `encoded_len` is the number of payload bytes written, modulo 65536 |
| `Properties.BuildInverts` | rust-mqtt/src/packet/v5/property.rs:297-375 | the identifier of a property selects the constructor and the payload layout of that property |
| `Properties.ByteProperties` | rust-mqtt/src/packet/v5/property.rs:264-295 | four properties of one byte with their identifiers, as Table 2-4 lists them |
| `Properties.AvailableProperties` | rust-mqtt/src/packet/v5/property.rs:264-295 | the four that say whether something is available |
| `Properties.WordProperties` | rust-mqtt/src/packet/v5/property.rs:264-295 | the four of two bytes |
| `Properties.LongProperties` | rust-mqtt/src/packet/v5/property.rs:264-295 | the four of four bytes |
| `Properties.TextProperties` | rust-mqtt/src/packet/v5/property.rs:264-295 | the seven that are a string |
| `Properties.OtherProperties` | rust-mqtt/src/packet/v5/property.rs:264-295 | the variable byte integer, the two of binary data, and the string pair |
| `Properties.KnownIdentifiers` | rust-mqtt/src/packet/v5/property.rs:297-340 | exactly the identifiers of Table 2-4 are known |
| `Properties.ConnectTable` | rust-mqtt/src/packet/v5/property.rs:63-78 | the properties a CONNECT may carry, by identifier |
| `Lists.SumLoopFindsLaid` | rust-mqtt/src/packet/v5/mqtt_packet.rs:72-89 | the accumulating loop reads items back when the announced total is theirs, for any item reader |
| `Lists.SumLoopNeverWraps` | rust-mqtt/src/packet/v5/mqtt_packet.rs:72-89 | on any bytes and however the run ends, the wrapping accumulator does what an unbounded one does, if items report a bounded size per byte |
| `Lists.CountLoopConserves` | rust-mqtt/src/packet/v5/mqtt_packet.rs:72-89 | with an unbounded accumulator the loop ends only with items whose sizes make up the total |
| `Lists.SumLoopIsLaid` | rust-mqtt/src/packet/v5/mqtt_packet.rs:72-89 | what the loop returns lies in the bytes, item after item, up to the cursor it returns |
| `Lists.SumLoopStops` | rust-mqtt/src/packet/v5/mqtt_packet.rs:72-89 | the loop does not read past items that already make up the total |
| `Lists.LaidSpan` | rust-mqtt/src/packet/v5/mqtt_packet.rs:72-89 | sizes of items read one after the other against the distance the cursor covered |
| `BuffWriters.BuffWriter.constructor` | rust-mqtt/src/utils/buffer_writer.rs:43-49 | a fresh writer has written nothing |
| `BuffWriters.BuffWriter.GetRemLen` | rust-mqtt/src/utils/buffer_writer.rs:65-86 | the loop computes `RemLen` of what has been written; with fewer than two bytes written it scans the buffer's old content instead, or panics |
| `BuffWriters.BuffWriter.InsertRef` | rust-mqtt/src/utils/buffer_writer.rs:89-96 | appends exactly the first n bytes, or fails for lack of room; panics exactly when the source is too short |
| `BuffWriters.BuffWriter.WriteU8` | rust-mqtt/src/utils/buffer_writer.rs:99-107 | appends the byte exactly when there is room |
| `BuffWriters.BuffWriter.WriteU16` | rust-mqtt/src/utils/buffer_writer.rs:110-113 | appends two bytes, big endian |
| `BuffWriters.BuffWriter.WriteU32` | rust-mqtt/src/utils/buffer_writer.rs:116-119 | appends four bytes, big endian |
| `BuffWriters.BuffWriter.WriteStringRef` | rust-mqtt/src/utils/buffer_writer.rs:122-129 | appends length and text, an empty text included |
| `BuffWriters.BuffWriter.WriteBinaryRef` | rust-mqtt/src/utils/buffer_writer.rs:132-135 | appends length and data |
| `BuffWriters.BuffWriter.WriteStringPairRef` | rust-mqtt/src/utils/buffer_writer.rs:138-141 | appends both strings |
| `BuffWriters.BuffWriter.WriteVariableByteInt` | rust-mqtt/src/utils/buffer_writer.rs:144-148 | appends the shortest encoding, or refuses what has none |
| `BuffWriters.BuffWriter.EncodeProperty` | rust-mqtt/src/packet/v5/property.rs:264-295 | appends the payload, and refuses a reserved property |
| `BuffWriters.BuffWriter.WriteProperty` | rust-mqtt/src/utils/buffer_writer.rs:150-154 | appends identifier and payload |
| `BuffWriters.BuffWriter.WriteProperties` | rust-mqtt/src/utils/buffer_writer.rs:157-165 | the loop appends exactly the concatenation of the properties, or fails |
| `BuffWriters.BuffWriter.WriteTopicFilterRef` | rust-mqtt/src/utils/buffer_writer.rs:169-179 | appends a filter, with its options byte only in a SUBSCRIBE |
| `BuffWriters.BuffWriter.WriteTopicFiltersRef` | rust-mqtt/src/utils/buffer_writer.rs:183-193 | the loop appends exactly the concatenation of the filters, or fails |
| `BuffReaders.BuffReader.PeekU8` | rust-mqtt/src/utils/buffer_reader.rs:170-175 | the next byte, without moving |
| `BuffReaders.BuffReader.ReadU8` | rust-mqtt/src/utils/buffer_reader.rs:113-120 | value and new cursor are those of the specification on the bytes in view |
| `BuffReaders.BuffReader.ReadU16` | rust-mqtt/src/utils/buffer_reader.rs:102-110 | the same for two bytes |
| `BuffReaders.BuffReader.ReadU32` | rust-mqtt/src/utils/buffer_reader.rs:91-99 | the same for four bytes |
| `BuffReaders.BuffReader.CopyField` | rust-mqtt/src/utils/buffer_reader.rs:54-88 | the nested loops build the zero-padded field, and the advance is its width |
| `BuffReaders.BuffReader.ReadVariableByteInt` | rust-mqtt/src/utils/buffer_reader.rs:54-88 | value and cursor of the length field, all error paths included |
| `BuffReaders.BuffReader.ReadString` | rust-mqtt/src/utils/buffer_reader.rs:123-140 | length, text and UTF-8 check; cursor behind the text |
| `BuffReaders.BuffReader.ReadBinary` | rust-mqtt/src/utils/buffer_reader.rs:143-152 | the data is returned but the cursor stays in front of it |
| `BuffReaders.BuffReader.ReadStringPair` | rust-mqtt/src/utils/buffer_reader.rs:155-159 | two strings |
| `BuffReaders.BuffReader.ReadMessage` | rust-mqtt/src/utils/buffer_reader.rs:162-167 | the bytes from the cursor to the given end or to the end of view; a cursor behind the end panics |
| `BuffReaders.BuffReader.DecodeProperty` | rust-mqtt/src/packet/v5/property.rs:297-340 | the property and cursor of the specification `PropertyAt`, all errors included |
| `BuffReaders.BuffReader.DecodeProperties` | rust-mqtt/src/packet/v5/mqtt_packet.rs:72-89 | the loop computes `PropsAt`, the kept list is all properties read cut to the capacity, and it terminates on every input |
| `Types.StringRoundTrip` | rust-mqtt/src/utils/buffer_reader.rs:123-140 | a written string is read back |
| `Types.BinaryRoundTrip` | rust-mqtt/src/utils/buffer_reader.rs:143-152 | written data is read back by a reader of section 1.5.6 |
| `Types.PairRoundTrip` | rust-mqtt/src/utils/buffer_reader.rs:155-159 | a written pair is read back |
| `Packets.FrameHasItsLength` | rust-mqtt/src/packet/v5/mqtt_packet.rs:92-101 | the fixed header of a frame tells its length, wherever the stream goes on |
| `Packets.AssumedEndExactly` | rust-mqtt/src/packet/v5/publish_packet.rs:153-155 | the packet end PUBLISH and SUBACK recompute is the real one if and only if the remaining length has no redundant zero byte; it is never beyond it |
| `Packets.DecodeFixedHeader` | rust-mqtt/src/packet/v5/mqtt_packet.rs:92-101 | type, first byte and remaining length, with the cursor behind them |
| `Packets.TypeTable` | rust-mqtt/src/packet/v5/packet_type.rs:47-69 | Table 2-1 of section 2.1.2 for every value of the flag bits |
| `Packets.QosIsLevel` | rust-mqtt/src/packet/v5/publish_packet.rs:45-64 | the code's bytes for a quality of service are the levels 0, 1 and 2; the invalid one is level 1 with the retain bit |
| `Packets.AddProperties` | rust-mqtt/src/packet/v5/mqtt_packet.rs:51-63 | keeps the allowed properties up to the capacity and returns the sum of all their lengths; panics exactly for an identifier that cannot be encoded |
| `Packets.FilterMeans` | rust-mqtt/src/packet/v5/mqtt_packet.rs:51-63 | what is taken over are exactly the allowed properties, each as often as it occurs, in their order |
| `Packets.AddedLengthExactly` | rust-mqtt/src/packet/v5/mqtt_packet.rs:51-63 | that sum is the number of property bytes the packet will write if and only if every allowed property found room |
| `Publishes.IsFrame` | rust-mqtt/src/packet/v5/publish_packet.rs:113-139 | conservation: if the announced property length is the real one, the remaining length added up is the number of bytes after it, also for a topic whose length is cut |
| `Publishes.RoundTrip` | rust-mqtt/src/packet/v5/publish_packet.rs:113-158 | decoding an encoded packet without binary properties gives back every field and the exact message, whatever follows it in the reader's view; properties beyond the capacity are dropped |
| `Publishes.ReadByStandard` | rust-mqtt/src/packet/v5/publish_packet.rs:113-139 | a reader of section 3.3 recovers every field of an encoded packet, binary properties included, and ends exactly at its end |
| `Publishes.OutgoingReadByStandard` | rust-mqtt/src/client/raw_client.rs:156-187 | a standard server reads from a message the level and the retain bit that were asked for, no duplicate, and topic, identifier and message |
| `Publishes.OutgoingHeaderBits` | rust-mqtt/src/packet/v5/publish_packet.rs:87-93 | the first byte of an outgoing message, bit by bit |
| `Publishes.RoundTripExactly` | rust-mqtt/src/packet/v5/publish_packet.rs:113-158 | with room for the properties, that happens if and only if no non-empty binary property is among them |
| `Publishes.MessageTakesData` | rust-mqtt/src/packet/v5/publish_packet.rs:141-158 | for a property list that is read completely all the same, everything comes back right but the message, which is silently the unread binary data followed by the real message |
| `Publishes.LastBinaryInMessage` | rust-mqtt/src/packet/v5/publish_packet.rs:141-158 | so it is when the only binary property is the last: its data is put in front of the message |
| `Publishes.HeadUpToBlock` | rust-mqtt/src/packet/v5/publish_packet.rs:141-152 | topic and identifier are read back whatever the properties hold, and the rest is decided by reading the property block |
| `Publishes.HeadReads` | rust-mqtt/src/packet/v5/publish_packet.rs:141-152 | for a property list that is read completely, everything up to the message is read back, and the cursor is where the message starts, less the unread binary data |
| `Publishes.MessageExactly` | rust-mqtt/src/packet/v5/publish_packet.rs:153-157 | the message of a received packet is everything after its properties if and only if the remaining length was encoded without redundant bytes |
| `Publishes.PublishPacket.AddTopicName` | rust-mqtt/src/packet/v5/publish_packet.rs:78-81 | sets the topic with its length modulo 65536, nothing else |
| `Publishes.PublishPacket.AddMessage` | rust-mqtt/src/packet/v5/publish_packet.rs:83-85 | sets the message, nothing else |
| `Publishes.PublishPacket.AddQos` | rust-mqtt/src/packet/v5/publish_packet.rs:87-89 | ors the quality of service into the header, nothing else |
| `Publishes.PublishPacket.AddRetain` | rust-mqtt/src/packet/v5/publish_packet.rs:91-93 | ors the retain bit into the header, nothing else |
| `Publishes.PublishPacket.AddIdentifier` | rust-mqtt/src/packet/v5/publish_packet.rs:95-97 | sets the identifier, nothing else |
| `Publishes.PublishPacket.RemainingLen` | rust-mqtt/src/packet/v5/publish_packet.rs:116-126 | the sums over message, topic and flags, the error or the panic in front of them |
| `Publishes.PublishPacket.Encode` | rust-mqtt/src/packet/v5/publish_packet.rs:113-139 | succeeds exactly when the packet is encodable and fits, and then the buffer starts with its bytes; which error otherwise |
| `Publishes.PublishPacket.DecodeHead` | rust-mqtt/src/packet/v5/publish_packet.rs:141-152 | the fields before the message are those of the specification on any bytes |
| `Publishes.PublishPacket.Decode` | rust-mqtt/src/packet/v5/publish_packet.rs:141-158 | the packet is that of the specification `DecodeAt` on any bytes, errors and panics included |
| `Acks.PubackIsFrame` | rust-mqtt/src/packet/v5/puback_packet.rs:59-74 | conservation |
| `Acks.PubackRoundTrip` | rust-mqtt/src/packet/v5/puback_packet.rs:59-91 | an encoded PUBACK is decoded to what it was |
| `Acks.PubackShortForms` | rust-mqtt/src/packet/v5/puback_packet.rs:76-91 | the forms of section 3.4.2 without reason code or without properties mean success and no properties |
| `Acks.PubackPacket.Encode` | rust-mqtt/src/packet/v5/puback_packet.rs:59-74 | succeeds exactly when the packet is encodable and fits, with its bytes in the buffer |
| `Acks.PubackPacket.Decode` | rust-mqtt/src/packet/v5/puback_packet.rs:76-91 | the packet of the specification `PubackAt` on any bytes |
| `Acks.SubackReads` | rust-mqtt/src/packet/v5/suback_packet.rs:47-95 | a SUBACK as section 3.9 lays it out is read completely: identifier, properties, and every code there is room for |
| `Acks.SubackCodesExactly` | rust-mqtt/src/packet/v5/suback_packet.rs:47-65 | on any framed SUBACK the codes read are a prefix of those behind the cursor, and all of them if and only if there are none or the remaining length has no redundant byte |
| `Acks.SubackPacket.ReadReasonCodes` | rust-mqtt/src/packet/v5/suback_packet.rs:47-65 | the loop ends, with exactly the bytes up to the packet end, cut to the capacity |
| `Acks.SubackPacket.Decode` | rust-mqtt/src/packet/v5/suback_packet.rs:87-95 | the packet of the specification `SubackAt` on any bytes |
| `Acks.ConnackPacket.Decode` | rust-mqtt/src/packet/v5/connack_packet.rs:74-82 | the packet of the specification `ConnackAt` on any bytes, flags and properties included |
| `Acks.ConnackReads` | rust-mqtt/src/packet/v5/connack_packet.rs:74-82 | a CONNACK as section 3.2 lays it out, whose property list can be read completely (no binary data, or AuthenticationData as the last property), is read completely: flags, reason code, and every property there is room for |
| `Acks.ConnackReadsExactly` | rust-mqtt/src/packet/v5/connack_packet.rs:74-82 | with one binary property anywhere, that happens if and only if its data and what follows begin with the properties that follow; they do when none follow |
| `Acks.ConnackSaysSo` | rust-mqtt/src/packet/v5/connack_packet.rs:74-82 | whatever follows the reason code, a CONNACK that is read has the flags and the reason code that were written |
| `Acks.UnsubackPacket.ReadReasonCodes` | rust-mqtt/src/packet/v5/unsuback_packet.rs:46-59 | reads exactly as many codes as there is room for, not as many as the packet holds |
| `Acks.UnsubackPacket.Decode` | rust-mqtt/src/packet/v5/unsuback_packet.rs:81-89 | the packet of the specification `UnsubackAt` on any bytes, properties included |
| `Acks.UnsubackReads` | rust-mqtt/src/packet/v5/unsuback_packet.rs:46-89 | an UNSUBACK as section 3.11 lays it out is read if and only if it holds as many codes as the reader counts to |
| `Acks.DecodePingresp` | rust-mqtt/src/packet/v5/pingresp_packet.rs:55-66 | accepts exactly a PINGRESP of remaining length 0 |
| `Acks.DisconnectIsFrame` | rust-mqtt/src/packet/v5/disconnect_packet.rs:66-78 | conservation |
| `Acks.DisconnectNeedsProperties` | rust-mqtt/src/packet/v5/disconnect_packet.rs:80-91 | a DISCONNECT with a reason code is accepted if and only if a property block follows it, although section 3.14.2 lets a server leave it out |
| `Acks.DisconnectPacket.Encode` | rust-mqtt/src/packet/v5/disconnect_packet.rs:66-78 | succeeds exactly when the packet is encodable and fits, with its bytes in the buffer |
| `Acks.DisconnectPacket.Decode` | rust-mqtt/src/packet/v5/disconnect_packet.rs:80-91 | the packet of the specification `DisconnectAt` on any bytes, properties included |
| `Subscriptions.ReadByStandard` | rust-mqtt/src/packet/v5/subscription_packet.rs:76-105 | a reader of sections 3.8 and 3.10 recovers identifier, properties and every filter with its options, in order, and ends at the returned length |
| `Subscriptions.RemainingExactly` | rust-mqtt/src/packet/v5/subscription_packet.rs:76-105 | the filter length loop and the filter writer agree if and only if the filters take fewer than 65536 bytes |
| `Subscriptions.FiltersLength` | rust-mqtt/src/packet/v5/unsubscription_packet.rs:75-104 | without the u16, loop and writer always agree |
| `Subscriptions.RequestReadExactly` | rust-mqtt/src/client/raw_client.rs:205-231 | a standard server reads from the client's encoded request exactly its identifier and its topics if and only if the filters take fewer than 65536 bytes |
| `Subscriptions.FirstByte` | rust-mqtt/src/packet/v5/subscription_packet.rs:64-74 | the first byte of a request is 0x82 exactly for SUBSCRIBE and 0xA2 exactly for UNSUBSCRIBE, and the options of every filter are the requested level |
| `Subscriptions.OneTopicBytes` | rust-mqtt/src/packet/v5/subscription_packet.rs:76-105 | the request for one short topic, byte by byte |
| `Subscriptions.EmptyRequestPanics` | rust-mqtt/src/packet/v5/subscription_packet.rs:76-95 | encoding a request panics exactly for no topic at all (or a multiple of 65536) |
| `Subscriptions.SubscriptionPacket.AddNewFilter` | rust-mqtt/src/packet/v5/subscription_packet.rs:50-58 | pushes the filter, or drops it when the vector is full, and counts it either way |
| `Subscriptions.SubscriptionPacket.FiltersLen` | rust-mqtt/src/packet/v5/subscription_packet.rs:82-93 | the loop over `lt` computes the length of the counted filters modulo 65536, or panics |
| `Subscriptions.SubscriptionPacket.Encode` | rust-mqtt/src/packet/v5/unsubscription_packet.rs:75-104 | succeeds exactly when the request is encodable and fits, with its bytes in the buffer; which error otherwise |
| `Connects.ReadByStandard` | rust-mqtt/src/packet/v5/connect_packet.rs:141-197 | for every combination of flags a reader of section 3.1, guided only by flags and lengths, recovers every field and ends exactly at the returned length |
| `Connects.IsFrame` | rust-mqtt/src/packet/v5/connect_packet.rs:141-197 | conservation for every combination of flags |
| `Connects.VariableHeaderReads` | rust-mqtt/src/packet/v5/connect_packet.rs:172-178 | name, version, flags, keep alive and properties are recovered |
| `Connects.WillReads` | rust-mqtt/src/packet/v5/connect_packet.rs:181-186 | the will is recovered, or its absence |
| `Connects.PayloadReads` | rust-mqtt/src/packet/v5/connect_packet.rs:179-196 | client identifier, will, user name and password are recovered in the order of section 3.1.3 |
| `Connects.FlagBits` | rust-mqtt/src/packet/v5/connect_packet.rs:91-108 | the masks of the code test the bits that section 3.1.2.3 numbers |
| `Connects.CleanIsSoundExactly` | rust-mqtt/src/packet/v5/connect_packet.rs:58-84 | the property length that `clean` announces is right if and only if its vector has room for the property |
| `Connects.ConnectPacket.Clean` | rust-mqtt/src/packet/v5/connect_packet.rs:58-84 | the packet of `clean` |
| `Connects.ConnectPacket.AddUsername` | rust-mqtt/src/packet/v5/connect_packet.rs:91-94 | sets the field and its flag, nothing else |
| `Connects.ConnectPacket.AddPassword` | rust-mqtt/src/packet/v5/connect_packet.rs:96-99 | sets the field and its flag, nothing else |
| `Connects.ConnectPacket.AddWill` | rust-mqtt/src/packet/v5/connect_packet.rs:101-108 | sets the will and its flags, nothing else |
| `Connects.ConnectPacket.AddClientId` | rust-mqtt/src/packet/v5/connect_packet.rs:110-112 | sets the field, nothing else |
| `Connects.ConnectPacket.RemainingLen` | rust-mqtt/src/packet/v5/connect_packet.rs:141-168 | the sums over the flags |
| `Connects.ConnectPacket.WriteWill` | rust-mqtt/src/packet/v5/connect_packet.rs:181-186 | appends the will exactly if its flag is set |
| `Connects.ConnectPacket.WritePayload` | rust-mqtt/src/packet/v5/connect_packet.rs:179-196 | appends the payload fields the flags announce, in order |
| `Connects.ConnectPacket.Encode` | rust-mqtt/src/packet/v5/connect_packet.rs:141-197 | succeeds exactly when the packet is encodable and fits, with its bytes in the buffer; which error otherwise |
| `Clients.AnswersQos1` | rust-mqtt/src/client/raw_client.rs:424-458 | `poll` reports a decoded message with its topic and payload and answers it if and only if its first byte says QoS 1; the answer is 40 04, the identifier, 00 00, and decodes as a PUBACK with that identifier and reason code 0 (section 4.3.2) |
| `Clients.MessageDelivered` | rust-mqtt/src/client/raw_client.rs:424-458 | what one client encodes for `send_message` another's `poll` reports as the same topic and message, and answers at QoS 1, if and only if the topic's length fits in a u16 |
| `Clients.BinaryDataInMessage` | rust-mqtt/src/client/raw_client.rs:424-458 | `poll` reports a message whose only binary property is its last with that property's data in front of its payload |
| `Clients.DeliveredThroughStream` | rust-mqtt/src/client/raw_client.rs:316-472 | the same through any split of the stream, with the rest of the stream left alone |
| `Clients.MessageUnderstood` | rust-mqtt/src/client/raw_client.rs:316-472 | any message whose property list can be read completely is reported by `poll` under every split, with unread binary data in front of its payload, and answered at QoS 1 |
| `Clients.MessageReported` | rust-mqtt/src/client/raw_client.rs:424-458 | the same for a packet that has been received |
| `Clients.ReactByType` | rust-mqtt/src/client/raw_client.rs:329-337 | which packet types `poll` decodes, which it answers with which error, by the upper half of the first byte |
| `Clients.ReportedTopicIsShort` | rust-mqtt/src/client/raw_client.rs:424-458 | no reported topic has 65536 bytes or more |
| `Clients.PubackExactly` | rust-mqtt/src/client/raw_client.rs:356-376 | the only packet reported as the acknowledgement of an identifier is a PUBACK with that identifier and reason code 0 |
| `Clients.ConnackExactly` | rust-mqtt/src/client/raw_client.rs:338-355 | the only packet reported as an accepted connection is a CONNACK with reason code 0 |
| `Clients.ConnackUnderstood` | rust-mqtt/src/client/raw_client.rs:338-355 | a CONNACK of section 3.2 whose property list can be read completely (`Properties.Recoverable`), under every split, is reported as an accepted connection if and only if its reason code is 0, and as that reason otherwise |
| `Clients.ConnackNeverMisreported` | rust-mqtt/src/client/raw_client.rs:338-355 | any other CONNACK is reported as what its reason code says, or as unreadable, or panics: a refusal is never reported as an accepted connection |
| `Clients.AuthenticationMisread` | rust-mqtt/src/client/raw_client.rs:338-355 | an accepted connection with AuthenticationData in front of AuthenticationMethod that is reported as unreadable |
| `Clients.AnswerArrives` | rust-mqtt/src/client/raw_client.rs:316-472 | `poll` reacts to exactly the first packet of the stream, under every split |
| `Clients.PubackUnderstood` | rust-mqtt/src/client/raw_client.rs:356-376 | a PUBACK of section 3.4, in any of its three forms and under every split, is reported as the acknowledgement if and only if its reason code is 0 |
| `Clients.SubackExactly` | rust-mqtt/src/client/raw_client.rs:377-399 | a framed SUBACK is reported as success if and only if every code the client looks at is the requested quality of service; those are a prefix of the codes on the wire |
| `Clients.SubackGrantsExactly` | rust-mqtt/src/client/raw_client.rs:377-399 | a reported success means that each of n topics was granted as requested if and only if exactly n codes arrived and those not looked at agree; with a shortest remaining length every topic is granted exactly if success is reported and n codes arrived |
| `Clients.SubackMisreported` | rust-mqtt/src/client/raw_client.rs:377-399 | two answers that grant nothing and are reported as success: one without codes, one with a padded remaining length and a refusal |
| `Clients.SubackUnderstood` | rust-mqtt/src/client/raw_client.rs:377-399 | a standard server's SUBACK for n topics, under every split of the stream: every topic is granted as requested if and only if success is reported and n codes arrived |
| `Clients.UnsubackIgnoresCode` | rust-mqtt/src/client/raw_client.rs:400-414 | an UNSUBACK with any non-binary properties is reported as success whatever its codes, if it has one; so the report agrees with a single code if and only if that is below 0x80 |
| `Clients.UnsubackUnderstood` | rust-mqtt/src/client/raw_client.rs:400-414 | an UNSUBACK of section 3.11, under every split, is reported if and only if it holds a code |
| `Clients.PingrespUnderstood` | rust-mqtt/src/client/raw_client.rs:415-423 | the two bytes D0 00 are reported as the PINGRESP, under every split |
| `Clients.PingrespExactly` | rust-mqtt/src/packet/v5/pingresp_packet.rs:55-66 | no other packet of that type is accepted |
| `Clients.DisconnectUnderstood` | rust-mqtt/src/client/raw_client.rs:459-471 | a DISCONNECT of section 3.14, under every split, is reported with its reason code, which is 0 if it has none |
| `Clients.NoOtherMeansAll` | rust-mqtt/src/client/raw_client.rs:388-398 | the search for a refused topic finds none if and only if all were granted as requested |
| `Clients.AckBytes` | rust-mqtt/src/client/raw_client.rs:438-454 | the PUBACK sent is the six bytes of a sound packet |
| `Clients.Qos2NotCarriedOn` | rust-mqtt/src/client/raw_client.rs:335-337 | PUBREC, PUBREL and PUBCOMP are answered by an error, and the only packet sent in answer to any packet is a PUBACK (section 4.3.3) |
| `RawClient.RawMqttClient.PollPublish` | rust-mqtt/src/client/raw_client.rs:424-458 | reports and answers as specified, and the packet in `buffer`, of which the topic and payload are slices, is untouched by encoding the answer |
| `RawClient.RawMqttClient.PollPuback` | rust-mqtt/src/client/raw_client.rs:356-376 | reports as specified on any bytes |
| `RawClient.RawMqttClient.PollSuback` | rust-mqtt/src/client/raw_client.rs:377-399 | the loop over the codes reports as specified on any bytes |
| `RawClient.RawMqttClient.PollConnack` | rust-mqtt/src/client/raw_client.rs:338-355 | reports as specified on any bytes |
| `RawClient.RawMqttClient.PollUnsuback` | rust-mqtt/src/client/raw_client.rs:400-414 | reports as specified on any bytes |
| `RawClient.RawMqttClient.PollPingresp` | rust-mqtt/src/client/raw_client.rs:415-423 | reports as specified on any bytes |
| `RawClient.RawMqttClient.PollDisconnect` | rust-mqtt/src/client/raw_client.rs:459-471 | reports as specified on any bytes |
| `RawClient.RawMqttClient.Poll` | rust-mqtt/src/client/raw_client.rs:316-472 | receives exactly one packet, reports and answers as specified, sends nothing else, and leaves the packet in the buffer |
| `RawClient.RawMqttClient.SendMessageV5` | rust-mqtt/src/client/raw_client.rs:156-187 | draws one identifier and sends exactly the encoded packet; it does not exactly if the packet is not encodable, does not fit, or the write fails, with the error of each |
| `RawClient.RawMqttClient.SendMessage` | rust-mqtt/src/client/client.rs:96-125 | result and everything sent, for every answer: at QoS 1, once the message is out, success is exactly the PUBACK for the identifier drawn; another identifier, a DISCONNECT and any other packet have their own errors, and a message that comes instead is acknowledged and lost |
| `RawClient.RawMqttClient.SendSubscription` | rust-mqtt/src/client/raw_client.rs:205-231 | draws one identifier and sends exactly one filter per topic; it does not exactly if the request is not encodable, does not fit, or the write fails, with the error of each; panics exactly without topics |
| `RawClient.RawMqttClient.SubscribeToTopics` | rust-mqtt/src/client/client.rs:131-149 | result and everything sent, for every answer: once the request is out, success is exactly that the next packet is reported as a SUBACK for its identifier (what that says about the topics: `Clients.SubackGrantsExactly`) |
| `RawClient.RawMqttClient.UnsubscribeFromTopic` | rust-mqtt/src/client/client.rs:154-172 | result and everything sent, for every answer: once the request is out, success is exactly the UNSUBACK for its identifier |
| `RawClient.RawMqttClient.SendConnect` | rust-mqtt/src/client/raw_client.rs:74-109 | extends the properties by the packet size and sends exactly the packet of the configuration, unless it is not encodable, does not fit, or the write fails |
| `RawClient.RawMqttClient.ConnectToBroker` | rust-mqtt/src/client/client.rs:72-81 | result and everything sent, for every answer: once the packet is out, success is exactly that the next packet is reported as an accepted connection, which by `Clients.ConnackExactly` is a CONNACK with reason code 0 |
| `RawClient.RawMqttClient.Disconnect` | rust-mqtt/src/client/raw_client.rs:122-143 | sends E0 02 00 00 exactly if it fits and the write succeeds, and always drops the connection |
| `RawClient.SuccessExactly` | rust-mqtt/src/client/client.rs:96-172 | once a request is out, the caller gets success exactly for the acknowledgement wanted |
| `RawClient.ConnectReadExactly` | rust-mqtt/src/client/client_config.rs:91-148 | from the texts given to the setters: a standard server reads exactly the session that was set up if and only if every text and datum is shorter than 65536 bytes and the properties take fewer than 2^32 |
| `RawClient.PropertiesAnnounced` | rust-mqtt/src/client/raw_client.rs:79-82 | the server gets exactly the properties of the configuration that Table 2-4 lists for CONNECT, among them the packet size if there was room for it |
| `RawClient.PlainConnectBytes` | rust-mqtt/src/client/raw_client.rs:74-109 | the CONNECT of a configuration with nothing but a client identifier, byte by byte |
| `RawClient.FlagsMean` | rust-mqtt/src/client/raw_client.rs:83-96 | the connect flags, bit by bit as section 3.1.2.3 numbers them, say exactly which parts of the configuration are present |
| `RawClient.MessageEncodes` | rust-mqtt/src/client/raw_client.rs:156-187 | encoding a message can only fail for its length, never panic |
| `RawClient.NeverSendsPubrel` | rust-mqtt/src/client/raw_client.rs:74-284 | nor is any request the client sends on its own account a PUBREL |
| `RawClient.ConnectMeasurable` | rust-mqtt/src/packet/v5/property.rs:63-78 | no property a CONNECT may carry makes `encoded_len` panic |
| `Rng.InRangeExactly` | rust-mqtt/src/utils/rng_generator.rs:8-19 | every identifier of every run is in 1..65535 (section 2.2.1) if and only if the counter does not start at 2^64 - 1 |
| `Rng.ConsecutiveDistinct` | rust-mqtt/src/utils/rng_generator.rs:8-19 | any 65535 consecutive identifiers are pairwise distinct, and the 65536th is the first again |
| `Rng.DrawClosed` | rust-mqtt/src/utils/rng_generator.rs:13-19 | the k-th draw in closed form |
| `Rng.CountingRng.NextU64` | rust-mqtt/src/utils/rng_generator.rs:13-19 | one step of the counter |
| `Rng.CountingRng.NextIdentifier` | rust-mqtt/src/client/raw_client.rs:167 | the truncated draw is the counter itself |
| `NtpTime.OffsetBound` | sntpc/src/lib.rs:599-638 | with delays and offsets below 2^62 the wrapped round trip is exactly a + b and the raw offset is within half of it (and a half step) of the true one, across eras |
| `NtpTime.ThetaExactly` | sntpc/src/lib.rs:620-638 | the raw offset is half the true sum if and only if that sum stays in 64 signed bits |
| `NtpTime.DeltaExactly` | sntpc/src/lib.rs:599-617 | the wrapped round trip is the sum of the delays modulo 2^64, and the sum itself if and only if that fits |
| `NtpTime.ReportedOffsetBound` | sntpc/src/lib.rs:620-638 | the same bound for the offset in units that the caller gets |
| `NtpTime.DurationBound` | sntpc/src/lib.rs:595-597 | the conversion is within one unit of the true value although it divides by 2^32 - 1, and never leaves 63 bits |
| `NtpTime.DurationMonotone` | sntpc/src/lib.rs:595-597 | a longer duration never converts to fewer units, across seconds too |
| `NtpTime.OneSecond` | sntpc/src/lib.rs:595-597 | one second is 1000 milliseconds and 1000000 microseconds, half of it half as many |
| `NtpTime.OffsetOdd` | sntpc/src/lib.rs:620-638 | the conversion of an offset is odd |
| `NtpTime.TimestampRoundTrip` | sntpc/src/lib.rs:684-702 | seconds survive the way to an NTP timestamp and back in every era, microseconds never carry into them, and come back exactly if and only if they are a multiple of 200000, else one less |
| `NtpTime.Epochs` | sntpc/src/lib.rs:684-691 | the Unix epoch is 2208988800 seconds after the NTP epoch, both ways |
| `NtpTime.MicrosBack` | sntpc/src/lib.rs:699-702 | the fraction of m microseconds is read as m or m - 1, and as m exactly for multiples of 200000 |
| `NtpTime.FractionBelowSecond` | sntpc/src/types.rs:156-175 | after `NtpResult::new` no fraction is reported as a full second |
| `NtpPackets.PacketRoundTrip` | sntpc/src/types.rs:421-477 | a packet that is serialised big endian, loaded little endian and swapped is what it was |
| `NtpPackets.SwapReadsBE` | sntpc/src/lib.rs:581-593 | loading little endian and swapping is reading big endian, for any width |
| `NtpPackets.FieldRoundTrip` | sntpc/src/types.rs:457-477 | an integer of any width comes back |
| `NtpPackets.NtpPacket.Load` | sntpc/src/types.rs:421-455 | every field from its place |
| `NtpPackets.NtpPacket.ConvertFromNetwork` | sntpc/src/lib.rs:581-593 | swaps exactly the seven wide fields, in place |
| `NtpPackets.NtpPacket.Serialise` | sntpc/src/types.rs:457-477 | fills the 48 bytes field by field |
| `NtpPackets.ProcessResponse` | sntpc/src/lib.rs:502-573 | accepts exactly what passes its four checks, with the error of the first that fails, and computes the result from the swapped fields; against section 5 of RFC 4330 as in `NtpPackets.ChecksExactly` |
| `NtpPackets.ChecksExactly` | sntpc/src/lib.rs:516-542 | a unicast reply of section 5 of RFC 4330 is refused if and only if it is a kiss-o'-death message; what passes is such a reply if and only if its mode is not broadcast, its stratum is at most 15 and its transmit timestamp is not zero |
| `NtpPackets.ChecksLetThrough` | sntpc/src/lib.rs:516-542 | for each of these three conditions a packet that passes and breaks it |
| `NtpPackets.HonestAnswer` | sntpc/src/lib.rs:502-573 | the answer an honest server serialises is accepted; the reported round trip is the converted a + b and the reported offset is within half of it of the true one |
| `NtpPackets.HonestTime` | sntpc/src/lib.rs:559-573 | the time it reports is the time the server sent it: the seconds exactly in every era, the microseconds up to one |
| `NtpPackets.ResultFields` | sntpc/src/lib.rs:544-573 | fraction, round trip, stratum and precision of the result are those of the transmit, receive and originate timestamps and fields of the packet |
| `NtpPackets.WireLayout` | sntpc/src/types.rs:457-477 | every field of a serialised packet in its place, most significant byte first (RFC 4330, section 4) |
| `NtpPackets.FirstByte` | sntpc/src/lib.rs:577-579 | leap indicator, version and mode are bits 7 to 6, 5 to 3 and 2 to 0 of the first byte, and a request has version 4 and mode 3 |
| `Contactors.AlwaysSafe` | stm32f407_controller/src/bin/tasks/mod.rs:110-148 | in every interleaving: idle contactors are closed exactly if the last value taken was true, precharge is off whenever the task waits, and a true that was taken goes back to two successive positive responses |
| `Contactors.MainNeedsPrecharge` | stm32f407_controller/src/bin/tasks/mod.rs:110-148 | a closing turn begins only when the last two evaluated responses are positive; main is only switched on at the end of its precharge; full duty needs precharge |
| `Contactors.FalseOpens` | stm32f407_controller/src/bin/tasks/mod.rs:110-148 | a false in the signal opens everything once the task waits, wherever it was |
| `Contactors.SignalIsLatest` | stm32f407_controller/src/bin/tasks/can_processors_solax.rs:24-106 | after any run the signal holds exactly the value that was said last, unless the contactor task took it since; foreign frames, unevaluated responses and pauses change nothing |
| `Contactors.HeardByRun` | stm32f407_controller/src/bin/tasks/can_processors_solax.rs:24-106 | the evaluated responses of a run are those among its actions |
| `Contactors.SwitchesOnExactly` | stm32f407_controller/src/bin/tasks/mod.rs:130-142 | main is switched on whatever is heard during the precharge; all responses since the two that began the turn are positive if and only if no negative one was evaluated during the precharge |
| `Contactors.StaysClosedExactly` | stm32f407_controller/src/bin/tasks/mod.rs:119-148 | after a closing turn the next wait leaves the contactors closed if and only if the last value said since the turn began is not a false |
| `Contactors.AsksExactly` | stm32f407_controller/src/bin/tasks/can_processors_solax.rs:24-106 | a turn of the inverter task asks for closed contactors if and only if it is a positive answer and the one evaluated before it was positive |
| `Contactors.TurnByAnswer` | stm32f407_controller/src/bin/tasks/can_processors_solax.rs:33-106 | every turn, answer by answer, after any run: `InvalidFrameEncode` and `BadId` disable the contactors, `TimeStamp` and `UnwantedFrame` change nothing, frames and other errors count as positive, battery timeouts say false |
| `Contactors.PrimedExactly` | stm32f407_controller/src/bin/tasks/can_processors_solax.rs:24-106 | `initalised` holds exactly if a positive answer was not followed by a negative one |
| `Contactors.ClosedByTwoAnswers` | stm32f407_controller/src/bin/tasks/mod.rs:119-148 | in every interleaving, a true in the signal, precharge, main and closed contactors go back to two positive answers with no `BadId` or `InvalidFrameEncode` between them |
| `Contactors.TimeoutBetweenPositives` | stm32f407_controller/src/bin/tasks/can_processors_solax.rs:33-48 | a battery timeout between two positive responses does not delay the contactors |
| `Contactors.ClosingTurnIsThreeSteps` | stm32f407_controller/src/bin/tasks/mod.rs:130-142 | pin by pin, a closing turn cut at its pauses is the three steps of the task |
| `Contactors.OtherTurnIsOneStep` | stm32f407_controller/src/bin/tasks/mod.rs:122-146 | any other turn is one step |
| `Contactors.InverterRx.Turn` | stm32f407_controller/src/bin/tasks/can_processors_solax.rs:24-106 | one turn of the loop is the step of the state machine |
| `Contactors.BothContactors.Turn` | stm32f407_controller/src/bin/tasks/mod.rs:119-148 | one turn of the loop issues exactly the commands, in order, and ends active exactly if the value was true |

## Left out

- Debug builds, where a wrapping sum panics instead: sums wrap here as they do in a release build.
- Endless reads: the body loop's endless run on a closed connection is not an outcome of the model; that no number of empty reads ends it is `Framing.ClosedEndsExactly`.
- Partial writes: a send takes the whole buffer or fails, as a script of writes says.
- Framing.Connection.Receive: does not model the network itself, only a finite sequence of what its reads will meet, behind which reads fail.
- U+0000 in a string, which section 1.5.4 makes malformed: the standard's readers accept it here, as the code does.
- Acks.ConnackReadsExactly: says when such a packet is read completely; which other packet it may be taken for otherwise is not characterised beyond its flags and reason code (`Acks.ConnackSaysSo`).
- NtpPackets.ProcessResponse: is compared with the reply column of the table in section 5 of RFC 4330; of the numbered checks there, those on addresses and ports (1 and 2), on a leap indicator of 0 (4, which the table allows) and on root delay and dispersion (5) are not taken up.
- Types.BinaryRoundTrip: speaks of the standard's reader, because the code's own reader leaves its cursor in front of the data (`BuffReaders.BuffReader.ReadBinary`).
- Properties.LoopConserves: is limited to readers of 65535 bytes, since beyond that the 16-bit lengths of string pairs wrap.
- NtpTime.OffsetBound: is limited to delays and offsets below 2^62; `NtpTime.ThetaExactly` says what happens up to the full signed range.
- Contactors.AlwaysSafe: a turn of the inverter task is one step; what it awaits in between (locks, sending frames) touches nothing the contactor task reads.
- Contactors.InverterRx.Turn: the fault in the global state is treated as written by this task only.
- Subscriptions.SubscriptionPacket.Encode: SUBSCRIBE and UNSUBSCRIBE share one class with a constant that tells them apart; only the fixed header, the initial identifier and the options byte differ.
- RawClient.RawMqttClient.ConnectToBroker: the version switch in front of the version 5 methods is left out; version 3 only returns an error.
- Reason codes stay bytes; their table, `Display` and log macros are not modelled. UTF-8 is the predicate of RFC 3629, not the library's decoder.
- The `tls` variant of `receive_packet`, `send_ping`, `receive_message` and `subscribe_to_topic`: shorter forms of what is modelled.
- PUBREC, PUBREL, PUBCOMP, AUTH and PINGREQ packets, `ConnackPacket::encode`, `add_packet_type`, `get_n_byte`, and the property tables of packets that the client never extends: no further property.
- UDP sockets, address checks and the sending half of SNTP: I/O. Poll interval and precision are bytes here, their sign is not looked at.
- `contactor_main_task` and the `tesla_m3` feature; the battery and inverter protocols, whose answers are any answer here; the other inverter tasks that write the signal.
- Endless loops of tasks are modelled turn by turn; timers are steps that happen at some time.
- Hardware, HTTP, Modbus, JSON configuration, syslog, display and time zones.
