# Verified model of the device SDK's MQTT client, image packer and timers

This project models, in Dafny, the parts of the SDK in which bytes, counters and states have to stay
consistent, and proves what they guarantee.

**MQTT client.** The layers are those of the C code. `RemainingLength` is the variable-length integer codec.
`Network` is the transport under the client: a byte stream and a script with one answer per call into the TLS
layer, so a statement about all scripts is a statement about all short reads, stalls and failures.
`PacketReader` is the packet reader as a function of that stream, with framing over whole streams.
`Transmission` is the send loop. `TopicMatcher` is the wildcard matcher. `PublishPacket` serializes and parses
publish and acknowledgement packets. `MqttClient` is the client object with its fields and buffers, changed in
place; its callbacks may publish with any arguments, any number of times and to any depth. `ClientSpec` holds the
client as a value and one function for each method, which the method computes exactly; `ClientLaws` is what
follows for every network stack, every mutex behaviour and every callback, `ClientCodes` is the exact code and
effect of each operation, and the way of a message from one client to another, and `ClientRuns` holds concrete runs.
Where the C code stores behind the receive buffer, reads an identifier from behind it or sends from behind the
transmit buffer, the client is marked as broken, and nothing is promised from there on. `StateChange` takes the
client state's compare-and-set apart into single steps of concurrent threads, next to assignments made without its
mutex. `Operations` is what the client states are for: the operations of
several threads and of callbacks. `Subscriptions` is the handler table under subscribe, unsubscribe and
resubscribe.

**Flash image.** `Crc32` is the table-driven checksum against bit-by-bit polynomial division, `FlashImage` the
packer and the header around its result. `Octets` connects numbers and bit vectors.

**Button handshake.** `ButtonHandshake` is the lock-free slot between a button's callback and the publisher.

**Delay timer.** `DelayTimer` is the millisecond timer under the TLS library.

The main results: the packet reader never loses framing (`PacketReader.RunKeepsFraming`), and its code is told by
where it leaves the stream (`PacketReader.CodeByPosition`); a message published by one client is read, delivered and
acknowledged by another as it was given (`ClientCodes.MessageDelivered`); publish, the handling of a publish packet,
sending and the read cycle have exact codes and effects (`ClientCodes.PublishExact`, `ClientCodes.HandleExact`,
`ClientCodes.SendExact`, `ClientCodes.CycleExact`); re-entrant delivery restores the client
(`ClientLaws.DeliverLater`) and calls exactly the handlers selected by what the buffer holds at their turn
(`ClientLaws.DeliverExact`); a QoS 1 publish that succeeds has read its PUBACK after sending
(`ClientLaws.PublishSound`); concurrent state changes are atomic (`StateChange.RunLinear`), return what they did
(`StateChange.RunReturns`) and keep operations apart (`Operations.OperationsExclude`), each under an exact
condition; the matcher is characterised against the standard (`TopicMatcher.StrictnessExact`); the checksum table is
polynomial division and detects every four-byte change (`Crc32.Crc`, `Crc32.FourByteWindow`); an image unpacks to
what was packed (`FlashImage.BuildImage`); the handshake neither loses nor repeats a value
(`ButtonHandshake.Handshake`), and every press that finds the slot free is counted (`ButtonHandshake.CallbackWhole`).

How to check: `dafny verify dfyconfig.toml`.

## Where the code does less than its purpose suggests

The model follows the code in each case. The condition under which the code does what one would expect is exact,
and the case in which it does not is shown by a concrete input or run.

- The matcher is stricter than section 4.7 of MQTT 3.1.1: every wildcard needs a non-empty level, and `a/#` does
  not take in `a`. It has no rule for names that begin with `$`.
- The stream decoder's guard against more than four length bytes never fires, because each read overwrites the
  counter it looks at. Longer fields are accepted modulo 2^32.
- A packet is dropped with the same error code whether its drain completed or a read in it failed. After a failed
  drain the stream stands inside the packet, and the next call may take its body for a packet. The same goes for an
  error behind the header byte, inside the length field or inside the body.
- The reader drops packets whose body alone fills the buffer, and does not check header and length bytes. A body
  between the two limits makes it store behind the buffer.
- The send loop offers the whole length every round, so a stack may take too much, and bytes from behind the transmit
  buffer. The platform's write function passes errors on as counts, which can move the loop back, so that bytes are
  sent twice in a packet that counts as sent.
- The size estimate counts the header byte before comparing thresholds, so for buffers of three sizes it refuses a
  packet that would fit. The client's buffer is none of them. But a packet of exactly its 1024 bytes passes the check,
  takes an identifier and fills the buffer, and is then refused by the send function with the same code.
- Parsing a publish packet above QoS 0 does not check that the identifier lies in the packet. The payload length
  may wrap, and the identifier may be read from behind the buffer.
- The dispatcher's topic is a place in the receive buffer. If a callback reads packets, the later handlers are
  compared with other bytes, and handlers for the topic may not be called.
- The first packet identifier issued is 2.
- The disconnect paths assign the client state without the mutex. Such an assignment is lost when a call is about
  to assign a state other than it, having compared with yet another one.
- An operation may be started from outside while another thread runs a callback, and then the state is not
  restored. An unsubscribe that cannot start may reset the state under another one.
- A subscription picks its slot before it waits, so one that a callback completes meanwhile may be overwritten.
  Resubscribe stops at the first free slot, and requests a slot that a callback empties meanwhile without a topic.
- The delay timer's verdict goes back when 2^32 milliseconds have been counted.

## Model

| member | source | states |
|---|---|---|
| RemainingLength.WriteLenToBuffer | sdk/external/aws_iot/src/aws_iot_mqtt_client_common_internal.c:51-67 | the do/while loop stores exactly the base-128 encoding of the length at the given place, changes nothing else, and returns its size, for every 32-bit length |
| RemainingLength.EncodeMeans | sdk/external/aws_iot/src/aws_iot_mqtt_client_common_internal.c:51-67 | an encoding ends at its only byte without continuation bit, stands for the number encoded and has no superfluous last byte |
| RemainingLength.DecodeRemainingLengthFromBuffer | sdk/external/aws_iot/src/aws_iot_mqtt_client_common_internal.c:75-99 | the decoding loop on a buffer, 32-bit products and sums included, yields what the independent description `Decode` says |
| RemainingLength.Decode | sdk/external/aws_iot/src/aws_iot_mqtt_client_common_internal.c:75-99 | accepted exactly when one of the first four bytes ends the field; value and size are those of that field, and the value is at most 268435455 |
| RemainingLength.EncodeDecode | sdk/external/aws_iot/src/aws_iot_mqtt_client_common_internal.c:51-99 | encoder then decoder, whatever follows: value and size come back up to 268435455; every larger 32-bit length takes five bytes and is refused |
| RemainingLength.DecodeEncode | sdk/external/aws_iot/src/aws_iot_mqtt_client_common_internal.c:51-99 | decoder then encoder: no terminated sequence of the same value is shorter than the encoding, and the bytes come back exactly when the last one was not a superfluous zero |
| RemainingLength.PrefixFree | sdk/external/aws_iot/src/aws_iot_mqtt_client_common_internal.c:51-67 | no encoding is a prefix of another |
| RemainingLength.FinalPacketLength | sdk/external/aws_iot/src/aws_iot_mqtt_client_common_internal.c:101-114 | the branches of the size estimate, for every 32-bit length; for every legal one the result is header byte + encoding + body, and one more at 127, 16383 and 2097151 |
| RemainingLength.FinalLengthExact | sdk/external/aws_iot/src/aws_iot_mqtt_client_common_internal.c:101-114 | the size estimate equals header byte + encoding + body for every legal length, except at 127, 16383 and 2097151, where it is one more |
| RemainingLength.FinalLengthBeyondLimit | sdk/external/aws_iot/src/aws_iot_mqtt_client_common_internal.c:101-114 | above the protocol's limit the estimate is one byte short, up to the 32-bit wrap |
| Network.Recv | sdk/external/aws_iot/platform/wmsdk/network/network_interface.c:147-180 | for every behaviour of the TLS layer: how many bytes a read takes from the stream, and that success of a non-empty read means at least one byte, a full read means success, and `nothing to read` means no byte was taken |
| Network.Stack.Read | sdk/external/aws_iot/platform/wmsdk/network/network_interface.c:147-180 | the read loop stores exactly the bytes it takes from the stream, in place and in order, and ends as `Recv` says |
| Network.RecvCompletes | sdk/external/aws_iot/platform/wmsdk/network/network_interface.c:158-180 | if each call into the TLS layer hands over at least one byte, a read of bytes that are there completes, with no more calls than bytes |
| Network.RecvEnds | sdk/external/aws_iot/platform/wmsdk/network/network_interface.c:155-180 | for every script a read ends at the first error, or when the request is met, or when the script has run out; the code of an error is told by what was taken and by whether the timer had expired |
| Network.Stack.Write | sdk/external/aws_iot/platform/wmsdk/network/network_interface.c:182-190 | one write puts a prefix of what it is offered on the wire; a negative result of the TLS layer comes back as a success with a 32-bit count |
| PacketReader.ReadLengthValue | sdk/external/aws_iot/src/aws_iot_mqtt_client_common_internal.c:313-341 | the stream decoder takes exactly the terminated field off the stream, however long it is, with its value modulo 2^32; the guard on `len` never fires |
| PacketReader.DecodersAgree | sdk/external/aws_iot/src/aws_iot_mqtt_client_common_internal.c:75-99 | when the stream decoder succeeds, both decoders agree in value and in bytes used exactly when the buffer decoder accepts |
| PacketReader.LongField | sdk/external/aws_iot/src/aws_iot_mqtt_client_common_internal.c:325-338 | a field of more than four bytes is refused in a buffer and accepted from a stream, modulo 2^32 |
| PacketReader.DecodersDisagree | sdk/external/aws_iot/src/aws_iot_mqtt_client_common_internal.c:313-341 | a concrete field of five bytes that one decoder refuses and the other reads as 0 |
| PacketReader.Drain | sdk/external/aws_iot/src/aws_iot_mqtt_client_common_internal.c:380-394 | the drain loop never asks for bytes beyond the packet, stops at its last byte exactly when every read succeeded, and is never past it |
| PacketReader.DrainFlows | sdk/external/aws_iot/src/aws_iot_mqtt_client_common_internal.c:380-394 | with a TLS layer that makes progress the drain completes |
| PacketReader.DrainLeaves | sdk/external/aws_iot/src/aws_iot_mqtt_client_common_internal.c:380-394 | whatever the drain reads is stored piece by piece at the buffer's front: the last piece lies there, and what no piece reached is as it was |
| PacketReader.PacketShape | sdk/external/aws_iot/src/aws_iot_mqtt_client_common_internal.c:343-413 | what a successful read leaves is a header byte, the shortest form of the length, and that many bytes of body |
| PacketReader.StoresBehindExactly | sdk/external/aws_iot/src/aws_iot_mqtt_client_common_internal.c:380-407 | when the TLS layer makes progress, the call stores behind the buffer exactly for those lengths |
| PacketReader.StoresBehind | sdk/external/aws_iot/src/aws_iot_mqtt_client_common_internal.c:380-407 | for the buffer of 1024 bytes these are 1022 and 1023 |
| PacketReader.DrainStops | sdk/external/aws_iot/src/aws_iot_mqtt_client_common_internal.c:380-394 | an error in front of a read of the drain ends it short of the packet's last byte |
| PacketReader.BodyTakenForPacket | sdk/external/aws_iot/src/aws_iot_mqtt_client_common_internal.c:343-413 | a concrete stream on which a drain fails and the next call takes two bytes of the body for a packet |
| PacketReader.ReadIntoPacket | sdk/external/aws_iot/src/aws_iot_mqtt_client_common_internal.c:355-410 | what the calls leave in the buffer, piece by piece, is after a successful one the packet at the front and the old bytes behind it |
| PacketReader.ReadIntoQuiet | sdk/external/aws_iot/src/aws_iot_mqtt_client_common_internal.c:343-413 | a call that takes nothing off the stream leaves the buffer alone |
| PacketReader.ReadOnePacket | sdk/external/aws_iot/src/aws_iot_mqtt_client_common_internal.c:343-413 | one call in front of a packet, for every behaviour of the TLS layer that the script describes: on success the buffer holds its header, canonical length and body and the stream stands behind it; an oversize packet is dropped, and the stream stands behind it exactly when all reads of the drain succeeded; an error inside the length field or the body leaves it strictly inside the packet; it is never further; storing behind the buffer happens only for the lengths between the two limits |
| PacketReader.BoundaryExactly | sdk/external/aws_iot/src/aws_iot_mqtt_client_common_internal.c:343-413 | unless the call stores behind its buffer, the stream then stands at the packet's beginning or end exactly when the call succeeded, found nothing to read, or dropped the packet with all reads of the drain succeeding |
| PacketReader.CodeByPosition | sdk/external/aws_iot/src/aws_iot_mqtt_client_common_internal.c:343-413 | the code of a call in front of a packet is a function of where it leaves the stream and of the body's length, for every behaviour of the TLS layer: nothing to read at the beginning, the network's code inside the length field, and behind it too short, undefined, failure or success |
| PacketReader.BufferByPosition | sdk/external/aws_iot/src/aws_iot_mqtt_client_common_internal.c:355-410 | and so is what the call leaves in the buffer: nothing new, the header byte, the pieces of a dropped packet over it, or header byte, length as the encoder writes it and the bytes of the body that were taken |
| PacketReader.LengthTakenForHeader | sdk/external/aws_iot/src/aws_iot_mqtt_client_common_internal.c:343-413 | a concrete stream with an error behind the header byte, after which the next call reads a CONNACK nobody sent |
| PacketReader.ReadOnePacketFlows | sdk/external/aws_iot/src/aws_iot_mqtt_client_common_internal.c:343-413 | when the TLS layer makes progress the call reads or drops the packet whole |
| PacketReader.RunKeepsFraming | sdk/external/aws_iot/src/aws_iot_mqtt_client_common_internal.c:343-413 | over every stream of packets that fit or are oversize, any number of calls and every TLS behaviour: the k-th call that reads or drops consumes exactly the k-th packet, and the packets handed over are the fitting ones, in order, byte for byte |
| PacketReader.RunDelivers | sdk/external/aws_iot/src/aws_iot_mqtt_client_common_internal.c:343-413 | when the TLS layer makes progress, as many calls as packets hand over all that fit and use up the stream |
| TopicMatcher.IsTopicMatched | sdk/external/aws_iot/src/aws_iot_mqtt_client_common_internal.c:415-452 | the nested loops terminate, compute the scan `Scan` for every filter and name, and for a well-formed filter accept exactly when the levels match |
| TopicMatcher.ScanIsLevelsMatch | sdk/external/aws_iot/src/aws_iot_mqtt_client_common_internal.c:418-452 | for every well-formed filter and every name, the character scan accepts exactly when the `/`-separated levels match: literal equal, `+` one non-empty level, `#` at least one level with the first non-empty |
| TopicMatcher.StrictnessExact | sdk/external/aws_iot/src/aws_iot_mqtt_client_common_internal.c:415-452 | the code's level rule accepts exactly the names that section 4.7 of MQTT 3.1.1 accepts and in which every wildcard stands against a non-empty level |
| TopicMatcher.ScanSound | sdk/external/aws_iot/src/aws_iot_mqtt_client_common_internal.c:418-452 | the same for the scan itself: sound for section 4.7 without its `$` rule, and exactly how much is refused |
| TopicMatcher.ParentNotMatched | sdk/external/aws_iot/src/aws_iot_mqtt_client_common_internal.c:418-452 | `a/#` does not match `a`, which section 4.7.1.2 has it match |
| TopicMatcher.SelfMatch | sdk/external/aws_iot/src/aws_iot_mqtt_client_common_internal.c:477-480 | a well-formed filter matches itself as a name, so the string comparison in front of the matcher adds nothing |
| PublishPacket.HeaderFields | sdk/external/aws_iot/src/aws_iot_mqtt_client_common_internal.c:182-260 | the bit fields of a header byte come back as they were put in |
| PublishPacket.HeaderBits | sdk/external/aws_iot/src/aws_iot_mqtt_client_common_internal.c:182-260 | the bit fields of a header byte lie where section 2.2 of MQTT 3.1.1 has them |
| PublishPacket.HeaderOfFields | sdk/external/aws_iot/src/aws_iot_mqtt_client_common_internal.c:182-260 | a header byte is its fields and nothing else |
| PublishPacket.SerializePublish | sdk/external/aws_iot/src/aws_iot_mqtt_client_publish.c:83-129 | a message that passes the size check is stored as exactly its packet, and nothing else in the buffer changes; one that does not leaves the buffer alone |
| PublishPacket.WritePublish | sdk/external/aws_iot/src/aws_iot_mqtt_client_publish.c:108-128 | the writers, behind the size check, store exactly the packet and nothing else |
| PublishPacket.Room | sdk/external/aws_iot/src/aws_iot_mqtt_client_publish.c:100-106 | what the size check lets through fits the buffer |
| PublishPacket.RefusedThoughItFits | sdk/external/aws_iot/src/aws_iot_mqtt_client_publish.c:100-106 | the size check refuses a packet that would fit exactly when it would fill the buffer and its remaining length is 127, 16383 or 2097151 |
| PublishPacket.DeserializePublish | sdk/external/aws_iot/src/aws_iot_mqtt_client_publish.c:308-368 | the parser on the receive buffer, its undefined case included, computes `ParsePublish` |
| PublishPacket.SerializeParse | sdk/external/aws_iot/src/aws_iot_mqtt_client_publish.c:83-368 | every message that is serialized and then parsed comes back, whatever stale bytes follow; only the identifier of a QoS 0 message, which is not sent, is lost |
| PublishPacket.ParseSerialize | sdk/external/aws_iot/src/aws_iot_mqtt_client_publish.c:83-368 | a packet that parses into its frame, with QoS 0 or 1 and the shortest length field, is the packet of the parsed message, byte for byte |
| PublishPacket.PayloadInFrame | sdk/external/aws_iot/src/aws_iot_mqtt_client_publish.c:355-365 | the parsed payload lies in the packet, and in the buffer, exactly when the packet has room for the identifier: QoS 0, or 4 bytes more than the topic; otherwise the payload length has wrapped |
| PublishPacket.IdReadBehind | sdk/external/aws_iot/src/aws_iot_mqtt_client_publish.c:345-362 | the identifier is read from behind the buffer exactly above QoS 0, when the topic lies in the packet and ends less than two bytes before the buffer does |
| PublishPacket.ParsesInside | sdk/external/aws_iot/src/aws_iot_mqtt_client_publish.c:336-368 | a packet parses exactly when its topic lies in it and no such read happens; identifier and payload then lie in it, the payload to its end, exactly when it has room for the identifier |
| PublishPacket.PayloadLengthWraps | sdk/external/aws_iot/src/aws_iot_mqtt_client_publish.c:360-365 | a packet without that room, and the wrapped length, whatever follows it in the buffer |
| PublishPacket.IdBehindBuffer | sdk/external/aws_iot/src/aws_iot_mqtt_client_publish.c:360-362 | a concrete buffer for that read |
| PublishPacket.SerializePuback | sdk/external/aws_iot/src/aws_iot_mqtt_client_publish.c:142-174 | an acknowledgement is stored as its four bytes, or the buffer is too short and unchanged |
| PublishPacket.AckRoundTrip | sdk/external/aws_iot/src/aws_iot_mqtt_client_publish.c:380-421 | an acknowledgement carries type and identifier through |
| PublishPacket.AckFields | sdk/external/aws_iot/src/aws_iot_mqtt_client_publish.c:380-421 | whatever follows a packet in the buffer, an acknowledgement needs two bytes of body, and yields the type and duplicate flag of its header and the identifier in its first two bytes |
| PublishPacket.AckWithoutLength | sdk/external/aws_iot/src/aws_iot_mqtt_client_publish.c:406-410 | a packet is refused for its length field exactly when none of the first four bytes ends it |
| Transmission.SentExactly | sdk/external/aws_iot/src/aws_iot_mqtt_client_common_internal.c:284-308 | whenever the send loop ends at the end of the packet, the wire has received the packet and nothing else exactly when the stack never passed an error code off as a count after at least that many bytes had been sent |
| Transmission.TransmitRun | sdk/external/aws_iot/src/aws_iot_mqtt_client_common_internal.c:287-295 | without such a code the wire receives one unbroken run of bytes, as long as the loop has moved |
| Transmission.TransmitCount | sdk/external/aws_iot/src/aws_iot_mqtt_client_common_internal.c:287-295 | a loop that ends at the end has sent at least the bytes of the packet, and more exactly if it was moved back |
| Transmission.HonestStack | sdk/external/aws_iot/src/aws_iot_mqtt_client_common_internal.c:287-295 | a stack that reports errors as errors never moves the loop back |
| Transmission.HonestCount | sdk/external/aws_iot/src/aws_iot_mqtt_client_common_internal.c:287-295 | and its loop ends where it has sent to |
| Transmission.InsideExactly | sdk/external/aws_iot/src/aws_iot_mqtt_client_common_internal.c:287-295 | for every stack, bytes from behind the transmit buffer are handed over exactly when the loop ends behind the buffer's end and not by an error code taken for a count |
| Transmission.TransmitCompletes | sdk/external/aws_iot/src/aws_iot_mqtt_client_common_internal.c:287-295 | with a stack that takes some of the remainder each time, and time enough, everything is sent |
| Transmission.TransmitEnds | sdk/external/aws_iot/src/aws_iot_mqtt_client_common_internal.c:284-295 | for every stack the loop ends at the end, with the timer expired, at the first refusal or when the stack has no answer; it asks the timer once for each answer it uses |
| Transmission.TransmitOvershoots | sdk/external/aws_iot/src/aws_iot_mqtt_client_common_internal.c:288-289 | a concrete run in which the stack is offered too much and the loop ends beyond the packet |
| Transmission.ErrorResends | sdk/external/aws_iot/platform/wmsdk/network/network_interface.c:182-190 | a concrete run in which an error code is added to the position, a byte is sent twice, and the packet counts as sent |
| MqttClient.MqttClient.constructor | sdk/external/aws_iot/src/aws_iot_mqtt_client.c:151-220 | the client after initialisation |
| MqttClient.MqttClient.LockMutex | sdk/external/aws_iot/src/aws_iot_mqtt_client.c:59-79 | the mutex is obtained only if it is free and the system grants it; otherwise an error and nothing held |
| MqttClient.MqttClient.UnlockMutex | sdk/external/aws_iot/src/aws_iot_mqtt_client.c:81-87 | the mutex is released, or an error comes back and it stays held |
| MqttClient.MqttClient.SetClientState | sdk/external/aws_iot/src/aws_iot_mqtt_client.c:90-123 | the method takes the client to `SetState`; see SetStateIs |
| ClientLaws.SetStateIs | sdk/external/aws_iot/src/aws_iot_mqtt_client.c:90-123 | compare and set under the mutex, with both mutex failures: the state changes exactly when the mutex was obtained and the expected state was current; which code comes back in each case; nothing else changes |
| MqttClient.MqttClient.GetNextPacketId | sdk/external/aws_iot/src/aws_iot_mqtt_client.c:222-225 | the field is advanced and nothing else changes |
| ClientSpec.PacketIds | sdk/external/aws_iot/src/aws_iot_mqtt_client.c:222-225 | from any identifier on, all issued ones are in 1..65535; two calls give the same one exactly when a multiple of 65535 calls lies between them; the first one issued is 2 |
| MqttClient.MqttClient.WriteLoop | sdk/external/aws_iot/src/aws_iot_mqtt_client_common_internal.c:284-295 | the loop puts on the wire, ends at, and uses up of answers and timer what `Transmit` says, for every sequence of answers, and marks the client broken when the stack is handed bytes from behind the transmit buffer |
| MqttClient.MqttClient.SendPacket | sdk/external/aws_iot/src/aws_iot_mqtt_client_common_internal.c:262-311 | the method takes the client to `Send`; see SendSound |
| ClientLaws.SendSound | sdk/external/aws_iot/src/aws_iot_mqtt_client_common_internal.c:262-311 | with a stack that reports errors as errors: success exactly when the mutex calls succeed and the bytes accepted over all writes total the packet's length, and they are the packet; for every stack: success exactly when the loop ends at the end of the packet, then the packet and nothing else exactly when no error was passed off as a count too late; when the client is broken, exactly; without the mutex or with too long a packet nothing is sent |
| ClientCodes.SendExact | sdk/external/aws_iot/src/aws_iot_mqtt_client_common_internal.c:262-311 | the code for every stack and mutex behaviour: a mutex error, else success exactly when the loop ends at the end of the packet, with an honest stack exactly when as many bytes were sent, else failure; and success with a stack that takes the remainder and time enough |
| ClientCodes.SendLeaves | sdk/external/aws_iot/src/aws_iot_mqtt_client_common_internal.c:262-311 | which fields change, which answers and questions to the timer are used up, how many mutex calls are made and which of them leaves the mutex held |
| ClientRuns.OvershootBreaks | sdk/external/aws_iot/src/aws_iot_mqtt_client_common_internal.c:287-289 | a concrete packet and stack with which bytes from behind the transmit buffer are sent |
| MqttClient.MqttClient.DecodePacketRemainingLen | sdk/external/aws_iot/src/aws_iot_mqtt_client_common_internal.c:313-341 | the byte-at-a-time loop computes `ReadLength` on the wire |
| MqttClient.MqttClient.DrainPacket | sdk/external/aws_iot/src/aws_iot_mqtt_client_common_internal.c:380-394 | the drain loop consumes exactly what `Drain` says, never asks beyond the packet, and leaves in the buffer what `DrainInto` says |
| MqttClient.MqttClient.ReadPacket | sdk/external/aws_iot/src/aws_iot_mqtt_client_common_internal.c:343-413 | the method takes wire and receive buffer to what the reader's functions say, on every path, and sets the packet type on success only |
| ClientSpec.SelectedMeansMatched | sdk/external/aws_iot/src/aws_iot_mqtt_client_common_internal.c:474-488 | a registered subscription is called exactly when it has a callback and its levels match the topic's, for every topic |
| ClientSpec.ExactTopic | sdk/external/aws_iot/src/aws_iot_mqtt_client_common_internal.c:477-480 | a message on exactly the topic string of a handler selects it, whatever the string is |
| MqttClient.MqttClient.DeliverMessage | sdk/external/aws_iot/src/aws_iot_mqtt_client_common_internal.c:454-492 | the method takes the client to `Deliver`, and to one that is `Later`: unless a mutex call failed, the client state is restored, what was locked is released and every callback ran while the client waited for its return |
| ClientLaws.DeliverLater | sdk/external/aws_iot/src/aws_iot_mqtt_client_common_internal.c:454-492 | the same as a law, with any callbacks at any depth; and only a mutex failure gives a delivery another code than success |
| ClientLaws.DeliverExact | sdk/external/aws_iot/src/aws_iot_mqtt_client_common_internal.c:472-488 | for every behaviour of callbacks and mutexes: the handlers a delivery calls itself are exactly those selected by the bytes at the topic's place at their turn, each once, in table order, with those bytes; they are the handlers for the message's topic exactly when each slot is selected by what it sees when it is by the topic; so it is if callbacks take nothing off the stream |
| ClientLaws.DeliverToTopic | sdk/external/aws_iot/src/aws_iot_mqtt_client_common_internal.c:472-488 | if no callback still to run publishes with QoS 1, the handlers called are exactly those for the message's topic |
| ClientCodes.DeliverCode | sdk/external/aws_iot/src/aws_iot_mqtt_client_common_internal.c:454-492 | success means that the client state is back, any other code that a mutex call failed; a message nobody is selected for only changes the state and changes it back |
| ClientLaws.SlotsFrom | sdk/external/aws_iot/src/aws_iot_mqtt_client_common_internal.c:474-488 | the selected slots are in increasing order, each once, and exactly the selected ones |
| ClientRuns.HandlerMissed | sdk/external/aws_iot/src/aws_iot_mqtt_client_common_internal.c:454-492 | a run of the dispatcher in which the first handler's callback publishes with QoS 1, reads a message on another topic while it waits, and a second handler for the topic is not called, though no call failed |
| MqttClient.MqttClient.HandlePublish | sdk/external/aws_iot/src/aws_iot_mqtt_client_common_internal.c:494-541 | the method takes the client to `Handle`, and to one that is `Later` |
| ClientLaws.HandleSound | sdk/external/aws_iot/src/aws_iot_mqtt_client_common_internal.c:494-541 | a packet that does not parse changes nothing; otherwise its message is delivered on its topic, and success above QoS 0 means that after that at least its length was sent for the acknowledgement, and with a stack that reports errors as errors exactly the acknowledgement with the packet's identifier |
| ClientCodes.HandleExact | sdk/external/aws_iot/src/aws_iot_mqtt_client_common_internal.c:494-541 | for every behaviour around it: the parser's and the delivery's codes end it; otherwise success exactly when the write mutex is granted and released and four bytes are sent, which they are if the stack takes the remainder and the timer allows four questions; and what was sent last is read as a PUBACK with the identifier of the message |
| ClientRuns.FullPacketBreaks | sdk/external/aws_iot/src/aws_iot_mqtt_client_common_internal.c:507-520 | the packet that fills the buffer with its topic and then has its identifier read from behind it leaves a broken client, of which nothing more is said |
| MqttClient.MqttClient.FetchPacket | sdk/external/aws_iot/src/aws_iot_mqtt_client_common_internal.c:554-576 | the front of a cycle takes the client to `Fetch`: one read under the mutex, when the cycle goes on, what comes back otherwise, and whether the read may have ended inside a packet or stored behind the buffer |
| MqttClient.MqttClient.DispatchPacket | sdk/external/aws_iot/src/aws_iot_mqtt_client_common_internal.c:578-606 | a publish packet is handled, a known other type changes nothing but the note of an outstanding ping, an unknown type is an error |
| MqttClient.MqttClient.CycleRead | sdk/external/aws_iot/src/aws_iot_mqtt_client_common_internal.c:543-607 | the method takes the client to `Cycle`, and to one that is `Later` |
| ClientLaws.CycleReads | sdk/external/aws_iot/src/aws_iot_mqtt_client_common_internal.c:543-607 | a cycle that read a packet of another type than publish took exactly that packet off the stream, left it in the buffer, ran no callback and sent nothing; for the types it forwards it succeeds or a mutex call failed |
| ClientCodes.CycleExact | sdk/external/aws_iot/src/aws_iot_mqtt_client_common_internal.c:543-607 | code, type, timer and client after every cycle, in terms of what the packet reader says and of the two mutex calls: success when there was nothing to read, a mutex error, the reader's own code, or what each packet type does; a PINGRESP, and nothing else, ends the waiting for one |
| ClientLaws.CycleCodes | sdk/external/aws_iot/src/aws_iot_mqtt_client_common_internal.c:543-607 | a cycle that reads nothing leaves the type as it was, and no cycle ends in a timeout or a disconnection |
| MqttClient.MqttClient.WaitForRead | sdk/external/aws_iot/src/aws_iot_mqtt_client_common_internal.c:610-635 | the method takes the client to `Wait`, which has no mismatch branch; the cycles it ran form a chain from the client before to the client after; with a timeout none of them read the type waited for and the timer has expired; otherwise the last is the first that did, and its code comes back |
| ClientLaws.WaitExact | sdk/external/aws_iot/src/aws_iot_mqtt_client_common_internal.c:610-635 | the same as a law: timeout exactly when no cycle of this wait read the type; each cycle begins with the client, the type and the timer that the one before it left, after one more question to the timer |
| ClientLaws.WaitSound | sdk/external/aws_iot/src/aws_iot_mqtt_client_common_internal.c:610-635 | success of a wait for a forwarded type means that its last cycle read the packet of that type off the stream, which now stands behind it and whose packet the buffer holds; only a mutex failure gives a code other than success and timeout |
| ClientCodes.AckExact | sdk/external/aws_iot/src/aws_iot_mqtt_client_publish.c:224-236 | waiting for the PUBACK and taking it apart: a timeout exactly when no cycle read one, a mutex error, a failure exactly when the packet has no room for an identifier, else success |
| MqttClient.MqttClient.PublishMessage | sdk/external/aws_iot/src/aws_iot_mqtt_client_publish.c:258-291 | the method takes the client to `Publish`, and to one that is `Later` |
| ClientLaws.PublishSound | sdk/external/aws_iot/src/aws_iot_mqtt_client_publish.c:258-291 | at any depth: a refusal changes nothing; a message whose packet is as large as the buffer or larger sends and reads nothing; success means that at least as many bytes as its packet has were sent first, with a stack that reports errors as errors exactly its packet with a fresh identifier, and with QoS 1 that after that, in this call, a PUBACK was read off the stream |
| ClientCodes.PublishExact | sdk/external/aws_iot/src/aws_iot_mqtt_client_publish.c:193-291 | the code and the client after every call, at any depth: the refusals by topic and state, the mutex, the size, the send, and with QoS 1 the cycles of the wait; the state is put back, and a failure to do so is told after success |
| ClientCodes.PublishSends | sdk/external/aws_iot/src/aws_iot_mqtt_client_publish.c:193-239 | with a stack that reports errors as errors, success means that the packet of the caller's message was sent first: its topic, payload, QoS and retain flag, no duplicate flag, and with QoS 1 the identifier after the last one; with QoS 0 nothing else was sent |
| ClientCodes.PublishReaches | sdk/external/aws_iot/src/aws_iot_mqtt_client_publish.c:193-368 | what was sent, on the stream of another client, is read as one packet and parsed as the message that the caller gave, with that identifier |
| ClientCodes.PublishSucceeds | sdk/external/aws_iot/src/aws_iot_mqtt_client_publish.c:193-291 | with mutexes free and granted, a stack that takes the remainder and time enough, publish succeeds and sends the packet and nothing else; with QoS 1 if the next packet on the stream is a PUBACK |
| ClientCodes.MessageDelivered | sdk/external/aws_iot/src/aws_iot_mqtt_client_publish.c:193-368 | from a successful publish to the handlers of another client: its next cycle calls exactly the handlers selected by the topic, each once and in table order, with the message in its buffer, and with QoS 1 answers with the sender's identifier |
| ClientLaws.AckIsSenders | sdk/external/aws_iot/src/aws_iot_mqtt_client_publish.c:224-236 | on a stream of acceptable packets, with callbacks and nested waits in between, as long as no read may have ended inside a packet, that PUBACK is one of the sender's packets and the stream stands behind it |
| ClientLaws.ReadWhole | sdk/external/aws_iot/src/aws_iot_mqtt_client_common_internal.c:343-413 | a call of the reader that is framed takes one whole packet off such a stream, or none |
| ClientLaws.TooLargeExactly | sdk/external/aws_iot/src/aws_iot_mqtt_client_publish.c:100-106 | the size check refuses exactly the packets larger than the buffer of this client |
| ClientLaws.PublishLater | sdk/external/aws_iot/src/aws_iot_mqtt_client_publish.c:258-291 | unless a mutex call failed, state and mutexes are restored; and none fails if none was held and the system grants all, so the client never waits for a mutex it holds itself |
| MqttClient.MqttClient.InternalPublishMessage | sdk/external/aws_iot/src/aws_iot_mqtt_client_publish.c:193-239 | the method takes the client to `InternalPublish` |
| ClientLaws.InternalSound | sdk/external/aws_iot/src/aws_iot_mqtt_client_publish.c:193-239 | `buffer too short` comes back exactly for packets as large as the buffer or larger, with nothing sent or read; success means the same as in PublishSound |
| ClientSpec.PublishArrives | sdk/external/aws_iot/src/aws_iot_mqtt_client_publish.c:83-368 | a message serialized on one side, read off the stream by the packet reader on the other and parsed there comes out as it went in |
| StateChange.RunLinear | sdk/external/aws_iot/src/aws_iot_mqtt_client.c:59-123 | every interleaving of calls by any number of threads and of assignments made without the mutex acts at every moment like the same calls and assignments made one at a time, exactly when no pending assignment of a call loses one: when each finds the state as the call compared it or as it is about to set it; then also one turn per call, results, mutual exclusion |
| StateChange.RunReturns | sdk/external/aws_iot/src/aws_iot_mqtt_client.c:90-123 | in every run that loses nothing, a call that got the mutex returned a mutex error exactly when it was applied and its own release failed, and otherwise what it is told in its turn; a call that did not get it returned a mutex error |
| StateChange.CallAlone | sdk/external/aws_iot/src/aws_iot_mqtt_client.c:90-123 | a call that finds the mutex free, with nobody else moving, can be made and sets the state exactly when it finds the expected one, with the code for that; the mutex is free for the next call if it could be released |
| StateChange.CallMissed | sdk/external/aws_iot/src/aws_iot_mqtt_client.c:90-106 | a call that misses the mutex changes nothing and says so |
| StateChange.StepExact | sdk/external/aws_iot/src/aws_iot_mqtt_client.c:90-123 | each single step keeps that order exactly when it loses nothing |
| StateChange.AssignFits | sdk/external/aws_iot/src/aws_iot_mqtt_client.c:108-110 | the pending assignment of a call has a place in the order exactly when it loses nothing; there is no other place |
| StateChange.CallsAlone | sdk/external/aws_iot/src/aws_iot_mqtt_client.c:90-123 | calls alone lose nothing: without assignments outside the mutex every run is in order |
| StateChange.TimeRespected | sdk/external/aws_iot/src/aws_iot_mqtt_client.c:90-123 | that order respects time: a call that had returned before another began had its turn earlier |
| StateChange.AppliedOnce | sdk/external/aws_iot/src/aws_iot_mqtt_client.c:108-113 | of two applied calls that leave the same state, something between them entered it |
| StateChange.UnlockedWriteLost | sdk/external/aws_iot/src/aws_iot_mqtt_client_yield.c:42-64 | a concrete run in which the assignment made by the disconnect path is lost |
| Operations.OperationsExclude | sdk/external/aws_iot/src/aws_iot_mqtt_client_publish.c:258-291 | for any number of threads running publish, subscribe, unsubscribe, resubscribe and yield with callbacks: at every moment at most one thread is inside and the state is its innermost one's, exactly when none of four kinds of move is made: starting, from outside, during another thread's callback; giving the state back after an unsubscribe that could not start, while another is in progress; missing the mutex in front of a callback or at an end; not releasing it at the start |
| Operations.MoveExact | sdk/external/aws_iot/src/aws_iot_mqtt_client_common_internal.c:469-491 | each single move keeps the operations apart exactly when it is not one of those |
| Operations.OneThread | sdk/external/aws_iot/src/aws_iot_mqtt_client_common_internal.c:469-491 | with one thread and a mutex that is obtained, at any depth of callbacks, the state is always the innermost one's and idle at the end |
| Operations.OperationAlone | sdk/external/aws_iot/src/aws_iot_mqtt_client_publish.c:258-291 | an operation can be started from idle, and all but yield and resubscribe from a callback; undisturbed, it goes through its own state and gives back the state it found; where it cannot be started nothing happens |
| Operations.MissedStart | sdk/external/aws_iot/src/aws_iot_mqtt_client_unsubscribe.c:221-230 | an operation that misses the mutex at its start leaves everything as it was, an unsubscribe that then tries to give the state back included |
| Operations.CallbackAlone | sdk/external/aws_iot/src/aws_iot_mqtt_client_common_internal.c:469-491 | a callback, undisturbed, runs in the state that waits for its return, and the state before it is given back |
| Operations.CallbackLeftBehind | sdk/external/aws_iot/src/aws_iot_mqtt_client_common_internal.c:469-491 | a concrete run of two threads after which nobody is inside and the client waits for a callback's return for ever |
| Operations.UnsubscribeStolen | sdk/external/aws_iot/src/aws_iot_mqtt_client_unsubscribe.c:221-237 | a concrete run in which a second unsubscribe sets the client idle under the first and reports success |
| Operations.StuckWithoutMutex | sdk/external/aws_iot/src/aws_iot_mqtt_client_publish.c:283-290 | a concrete run in which a single missed mutex leaves the client publishing for ever |
| Subscriptions.HandlerTable.GetFreeMessageHandlerIndex | sdk/external/aws_iot/src/aws_iot_mqtt_client_subscribe.c:169-181 | the first free slot, or the size of the table |
| Subscriptions.HandlerTable.Perform | sdk/external/aws_iot/src/aws_iot_mqtt_client_subscribe.c:199-266 | subscribe and unsubscribe on the table, with everything callbacks do during the wait, compute `Apply` |
| Subscriptions.HandlerTable.Remove | sdk/external/aws_iot/src/aws_iot_mqtt_client_unsubscribe.c:181-189 | all slots with the topic are emptied and no other changes |
| Subscriptions.HandlerTable.Resubscribe | sdk/external/aws_iot/src/aws_iot_mqtt_client_subscribe.c:333-381 | the loop with everything callbacks do during its waits computes `Resub`; see the next rows |
| Subscriptions.ResubscribeExact | sdk/external/aws_iot/src/aws_iot_mqtt_client_subscribe.c:345-378 | each request is for what its slot holds when its turn comes; all slots before the first free one are requested exactly when as many exchanges succeed and none is found empty; one is found empty, and its missing topic written, exactly when callbacks emptied it before its turn; otherwise the last request is the one that failed, and the table is as the callbacks left it |
| Subscriptions.ResubscribeUndisturbed | sdk/external/aws_iot/src/aws_iot_mqtt_client_subscribe.c:345-378 | as long as callbacks only subscribe, the requests are for the handlers there were, in order |
| Subscriptions.EmptiedMeanwhile | sdk/external/aws_iot/src/aws_iot_mqtt_client_subscribe.c:347-355 | a concrete case in which a slot is found empty |
| Subscriptions.ResubscribeReaches | sdk/external/aws_iot/src/aws_iot_mqtt_client_subscribe.c:345-347 | resubscribe reaches every registered handler exactly when no used slot lies behind a free one |
| Subscriptions.HolesExactly | sdk/external/aws_iot/src/aws_iot_mqtt_client_unsubscribe.c:181-189 | an unsubscribe makes such a hole exactly when a handler that stays lies behind one that goes |
| Subscriptions.SubscribeCompact | sdk/external/aws_iot/src/aws_iot_mqtt_client_subscribe.c:224-263 | an undisturbed subscription makes none |
| Subscriptions.ResubscribeMissesOne | sdk/external/aws_iot/src/aws_iot_mqtt_client_subscribe.c:345-378 | a concrete history after which resubscribe requests nothing although a handler is registered |
| Subscriptions.SubscribesFill | sdk/external/aws_iot/src/aws_iot_mqtt_client_subscribe.c:224-263 | whatever callbacks only subscribe to during a wait, to any depth, used slots stay, and the first free one stays free exactly when none of those subscriptions is acknowledged |
| Subscriptions.ApplyIsEffects | sdk/external/aws_iot/src/aws_iot_mqtt_client_subscribe.c:199-266 | operations with everything that happens in their waits do to the table what their writes and clearings do, one after another |
| Subscriptions.WaitKeeps | sdk/external/aws_iot/src/aws_iot_mqtt_client_subscribe.c:224-263 | whatever callbacks subscribe to and unsubscribe from during the wait, an acknowledged subscription changes only its slot, and overwrites a handler exactly when one of theirs was written to that slot and neither another was nor its topic was cleared since |
| Subscriptions.HandlerOverwritten | sdk/external/aws_iot/src/aws_iot_mqtt_client_subscribe.c:224-263 | a concrete case in which the handler that a callback registers is lost |
| Crc32.Crc | sdk/tools/bin/crc32.py:73-79 | for every string the table loop yields the remainder of the bit-by-bit reflected division by 0xEDB88320, as a 32-bit number |
| Crc32.TableHolds | sdk/tools/bin/crc32.py:6-71 | each of the 256 entries is the remainder of its index |
| Crc32.TableShifted | sdk/tools/bin/crc32.py:6-71 | the table is the sum of its first row and its first column |
| Crc32.FeedIsSerial | sdk/tools/bin/crc32.py:76-78 | one round of the loop is eight bit steps, for every state and byte |
| Crc32.SerialLinear | sdk/tools/bin/crc32.py:73-79 | the remainder of the sum of two messages of one length is the sum of their remainders |
| Crc32.Residue | sdk/tools/bin/crc32.py:73-79 | a string followed by its own checksum, low byte first, has checksum 0 |
| Crc32.BurstDetected | sdk/tools/bin/crc32.py:73-79 | two messages of one length that differ only inside 32 consecutive bits have different checksums |
| Crc32.FourByteWindow | sdk/tools/bin/crc32.py:73-79 | two strings of one length that differ only inside four consecutive bytes have different checksums |
| Crc32.ZeroOnlyFromWord | sdk/tools/bin/crc32.py:76-78 | at most 32 message bits lead to remainder 0 from exactly one remainder |
| FlashImage.FileTable.Init | sdk/tools/bin/flash_pack.py:92-103 | the table lists the files of the directory in order, exactly when every name is short enough |
| FlashImage.FileTable.Pack | sdk/tools/bin/flash_pack.py:34-60 | the in-place loop fills in the offsets and lengths and yields directory, zero entry, contents and padding, exactly when every number fits `struct.pack` |
| FlashImage.AcceptedSizes | sdk/tools/bin/flash_pack.py:49-52 | which tables are accepted, in sizes of names and contents |
| FlashImage.ImageReadsBack | sdk/tools/bin/flash_pack.py:34-60 | every packed image is aligned to 4 bytes; walking its directory to the zero entry gives back all names, offsets and lengths; at each place lie exactly that file's bytes; files lie back to back right behind the directory |
| FlashImage.EntryReadsBack | sdk/tools/bin/flash_pack.py:50-52 | a 32-byte entry reads back and is never taken for the zero entry |
| FlashImage.ImageInjective | sdk/tools/bin/flash_pack.py:34-60 | equal images come from equal names and contents |
| FlashImage.WriteImage | sdk/tools/bin/flash_pack.py:168-177 | the file is magic, checksum of the packed bytes, zero, version words, and the packed bytes |
| FlashImage.HeadLayout | sdk/tools/bin/flash_pack.py:168-177 | where the pieces of the header lie, byte by byte |
| FlashImage.ImageTail | sdk/tools/bin/flash_pack.py:56-60 | behind the last file there are fewer than four bytes, all 0xFF |
| FlashImage.HeaderDetects | sdk/tools/bin/flash_pack.py:167-177 | the written file passes the checksum comparison, and fails it after any change of its body within four consecutive bytes |
| FlashImage.BuildImage | sdk/tools/bin/flash_pack.py:163-178 | from a directory listing to the file: the two refusals exactly, and otherwise a file that passes the checksum comparison and unpacks to the listed files |
| ButtonHandshake.Handshake | sample_apps/aws_starter_demo/src/main.c:309-314 | in every interleaving of callback and publisher, one read or write at a time: the counters differ by 0 or 1 modulo 2^32; the values formatted are 0, 1, 2, … with no gap and no repetition; each is the value then recorded; every counted press is published once, but for the one that waits |
| ButtonHandshake.NextKeeps | sample_apps/aws_starter_demo/src/main.c:117-121 | each single read or write keeps the invariant behind it |
| ButtonHandshake.CallbackWhole | sample_apps/aws_starter_demo/src/main.c:117-121 | in every run, whatever the publisher does in between, a callback whose two reads saw equal counters goes on to count exactly one press, and one whose reads differed counts none |
| ButtonHandshake.PublisherWhole | sample_apps/aws_starter_demo/src/main.c:309-314 | in every run, whatever callbacks do in between, a publisher whose two reads differed goes on to format and record the count, and one whose reads were equal does neither |
| ButtonHandshake.PressAlone | sample_apps/aws_starter_demo/src/main.c:117-121 | from every reachable board, a callback that runs undisturbed, in either order of its reads, counts one press exactly when the counters are equal and leaves everything alone otherwise |
| ButtonHandshake.PublishAlone | sample_apps/aws_starter_demo/src/main.c:309-314 | from every reachable board, a publisher that runs undisturbed, in either order of its reads, formats and records exactly the count when the counters differ and leaves everything alone otherwise |
| DelayTimer.DelayContext.GetTimer | sdk/external/mbedtls/port/timing_alt.c:19-37 | reset stores the time; otherwise the difference as the code computes it, cut to 32 bits |
| DelayTimer.DelayContext.GetDelay | sdk/external/mbedtls/port/timing_alt.c:73-91 | the verdict -1, 0, 1 or 2 for the fields and the time |
| DelayTimer.DelayContext.SetDelay | sdk/external/mbedtls/port/timing_alt.c:93-103 | the delays are stored, and the start only if a final delay is set |
| DelayTimer.ElapsedBound | sdk/external/mbedtls/port/timing_alt.c:33-34 | the computed milliseconds are the true ones rounded down, or one more, and exactly when |
| DelayTimer.VerdictTimely | sdk/external/mbedtls/port/timing_alt.c:73-91 | against the true time, below 2^32 milliseconds: no verdict exactly without a final delay, a delay that has passed is always seen, and none is seen more than a millisecond early |
| DelayTimer.ElapsedMonotone | sdk/external/mbedtls/port/timing_alt.c:33-34 | they never decrease with a clock that does not go back, across second boundaries included |
| DelayTimer.ForwardExactly | sdk/external/mbedtls/port/timing_alt.c:73-103 | up to a given reading the verdict never goes back exactly when no final delay is set or fewer than 2^32 milliseconds are counted; the order of the two delays does not matter |

## Left out

- TLS, sockets, name resolution and the connection set-up: the transport is the byte stream and the answers described above.
- Connect, disconnect, keep-alive pings and the reconnection in yield: `Operations` is about a client that stays connected.
- Clocks: a client timer is the number of times it may still be asked before it has expired; the delay timer is given the time.
- Logging, null-pointer checks and the options record of the client.
- The shadow functions and the JSON parsers.
- The text that the demo builds and sends after the handshake, its second button, which is the same code, and its LED variable.
- Directory walking, recipes and compression in the packer; the listing and the contents are inputs.
- The packets of subscribe, unsubscribe and connect; `Subscriptions` takes the success of an exchange as an input.
- The alarm function of the timer file.
- Network.Recv: a script is finite, so a TLS layer that answers 0 for ever, with which the loop of the read function never ends, is not among the behaviours.
- MqttClient.MqttClient.RunCallback: a callback publishes and does nothing else to the client; subscriptions made by callbacks are in `Subscriptions`, on the table alone.
- MqttClient.MqttClient.DeliverMessage: callbacks do not change the handler table.
- ClientLaws.DeliverExact: callbacks do not change the handler table, and its exact condition is about what the callbacks read; DeliverToTopic has one that can be checked before.
- ClientCodes.MessageDelivered: the callbacks of the receiving client publish nothing; for those that do, CycleExact, HandleExact and ClientLaws.DeliverExact are without that restriction.
- MqttClient.MqttClient.constructor: the subscriptions made since initialisation are an argument, and creating mutexes and the TLS layer does not fail.
- MqttClient.MqttClient.LockMutex: a mutex that is held gives an error; with the blocking option the caller would hang instead, which ClientLaws.PublishLater excludes for a client that starts with no mutex held.
- MqttClient.MqttClient.InternalPublishMessage: the identifier in a PUBACK is not compared with the one sent, as in the code.
- PublishPacket.SerializePublish: the buffer is no larger than the protocol's limit, which the 1024 bytes of the client are far below; and a payload so long that the remaining length wraps 32 bits, for which a 32-bit address space has no room beside the program, is not an input.
- PublishPacket.PayloadInFrame: the buffer is smaller than 2^31 bytes.
- PacketReader.RunKeepsFraming: every packet on the stream either fits or is oversize; behind one in the gap between the two limits the code's own accesses are undefined.
- Operations.OperationsExclude: each compare-and-set is one step, which StateChange.RunLinear justifies.
- Subscriptions.SubscribesFill: the callbacks during the wait do not unsubscribe; WaitKeeps is without that restriction.
- FlashImage.FileTable.Pack: what the table holds after an exception is not stated.
- DelayTimer.DelayContext.GetTimer: signed overflow in the sum, which C leaves open where time fields have 32 bits, is taken to wrap.
