/**
 PUBLISH and acknowledgement packets: building them in the transmit buffer and taking
 them apart in the receive buffer.
 */
module PublishPacket {
  import opened Bytes
  import opened Network
  import opened RemainingLength
  import opened PacketReader

  const PUBLISH: nat := 3
  const PUBACK: nat := 4

  /** The header byte: type, DUP, QoS and RETAIN from the top bit down. */
  function Header(packetType: nat, dup: bool, qos: nat, retained: bool): byte
    requires 0 < packetType < 16 && qos < 4
  {
    packetType * 16 + (if dup then 8 else 0) + qos * 2 + if retained then 1 else 0
  }

  function PacketType(header: byte): nat {
    header / 16
  }

  function QosOf(header: byte): (qos: nat)
    ensures qos < 4
  {
    header / 2 % 4
  }

  predicate DupOf(header: byte) {
    header / 8 % 2 == 1
  }

  predicate RetainedOf(header: byte) {
    header % 2 == 1
  }

  /** The bit fields of the header byte do not overlap, and together they are the byte. */
  lemma HeaderFields(packetType: nat, dup: bool, qos: nat, retained: bool)
    requires 0 < packetType < 16 && qos < 4
    ensures var b := Header(packetType, dup, qos, retained);
            PacketType(b) == packetType && DupOf(b) == dup && QosOf(b) == qos && RetainedOf(b) == retained
  {
  }

  /** They lie where section 2.2 of MQTT 3.1.1 has them: the type in bits 7 to 4, DUP in bit 3, QoS in
      bits 2 and 1, RETAIN in bit 0. */
  lemma HeaderBits(packetType: nat, dup: bool, qos: nat, retained: bool)
    requires 0 < packetType < 16 && qos < 4
    ensures var b := Header(packetType, dup, qos, retained);
            && 16 * packetType <= b < 16 * packetType + 16
            && (b - 16 * packetType >= 8 <==> dup) && (b % 2 == 1 <==> retained)
            && var low := b - 16 * packetType - (if dup then 8 else 0); 2 * qos <= low <= 2 * qos + 1
  {
  }

  lemma HeaderOfFields(b: byte)
    requires PacketType(b) > 0
    ensures Header(PacketType(b), DupOf(b), QosOf(b), RetainedOf(b)) == b
  {
    var half := b / 2;
    assert b == half * 2 + b % 2;
    assert half == (b / 8) * 4 + half % 4;
    assert b / 8 == (b / 16) * 2 + b / 8 % 2;
  }

  /** A 16-bit number, high byte first. */
  function U16(n: uint16): (s: seq<byte>)
    ensures |s| == 2
  {
    [n / 256, n % 256]
  }

  function ReadU16(s: seq<byte>, at: nat): uint16
    requires at + 2 <= |s|
  {
    s[at] as int * 256 + s[at + 1]
  }

  // ---- A PUBLISH message and its packet

  /** `qos` is the C enumeration: 0 or 1 when sending, two bits of the header when receiving. */
  datatype Message = Message(dup: bool, qos: nat, retained: bool, id: uint16,
                             topic: seq<byte>, payload: seq<byte>) {
    predicate Sendable() {
      qos <= 1 && |topic| < TWO_16 && |topic| + |payload| + 9 < TWO_32
    }

    function Body(): seq<byte>
      requires |topic| < TWO_16
    {
      U16(|topic|) + topic + (if qos > 0 then U16(id) else []) + payload
    }

    function Packet(): Packet
      requires |topic| < TWO_16 && qos < 4
    {
      PacketReader.Packet.Packet(Header(PUBLISH, dup, qos, retained), Body())
    }
  }

  /** The writers of the C code advance a pointer; `done` is what lies before it. */
  method Emit(buf: array<byte>, ptr: nat, data: seq<byte>, ghost was: seq<byte>, ghost done: seq<byte>)
    returns (next: nat)
    requires ptr == |done| && ptr + |data| <= buf.Length == |was| && buf[..] == Store(was, 0, done)
    modifies buf
    ensures next == |done + data| && buf[..] == Store(was, 0, done + data)
  {
    hide Store;
    Put(buf, ptr, data);
    StoreTwice(was, 0, done, data);
    return ptr + |data|;
  }

  /** The transmit buffer's length is a compile-time constant far below the protocol's limit. */
  method SerializePublish(buf: array<byte>, msg: Message) returns (rc: Rc, serializedLen: nat)
    requires msg.Sendable() && buf.Length <= MAX_REMAINING_LENGTH
    modifies buf
    ensures rc == if FinalLength(|msg.Body()|) > buf.Length then TxBufferTooShort else Success
    ensures rc == Success ==> serializedLen == |msg.Packet().Bytes()| <= buf.Length
                              && buf[..] == Store(old(buf[..]), 0, msg.Packet().Bytes())
    ensures rc != Success ==> buf[..] == old(buf[..])
  {
    hide Store, Header, Encode, FinalLength;
    serializedLen := 0;
    var remLen: uint32 := |msg.topic| + |msg.payload| + 2;
    if msg.qos > 0 {
      remLen := remLen + 2;
    }
    BodyLength(msg);
    var need := FinalPacketLength(remLen);
    if need > buf.Length {
      return TxBufferTooShort, 0;
    }
    Room(remLen, buf.Length);
    serializedLen := WritePublish(buf, msg, remLen);
    rc := Success;
  }

  lemma BodyLength(msg: Message)
    requires msg.Sendable()
    ensures |msg.Body()| == |msg.topic| + |msg.payload| + if msg.qos > 0 then 4 else 2
  {
  }

  /** serialize_publish once the size check has passed. */
  method WritePublish(buf: array<byte>, msg: Message, remLen: uint32) returns (serializedLen: nat)
    requires msg.Sendable() && remLen == |msg.Body()| && 1 + |Encode(remLen)| + remLen <= buf.Length
    modifies buf
    ensures serializedLen == |msg.Packet().Bytes()|
    ensures buf[..] == Store(old(buf[..]), 0, msg.Packet().Bytes())
  {
    BodyLength(msg);
    ghost var start, len := [Header(PUBLISH, msg.dup, msg.qos, msg.retained)], Encode(remLen);
    ghost var name := U16(|msg.topic|);
    ghost var id := if msg.qos > 0 then U16(msg.id) else [];
    Layout(msg, start, len, name, id);
    StartsEmpty(buf[..]);
    hide *;
    ghost var was := buf[..];
    var ptr := Emit(buf, 0, [Header(PUBLISH, msg.dup, msg.qos, msg.retained)], was, []);
    var n := WriteLenToBuffer(buf, ptr, remLen);
    StoreTwice(was, 0, [] + start, len);
    ptr := ptr + n;
    ptr := Emit(buf, ptr, U16(|msg.topic|), was, [] + start + len);
    ptr := Emit(buf, ptr, msg.topic, was, [] + start + len + name);
    if msg.qos > 0 {
      ptr := Emit(buf, ptr, U16(msg.id), was, [] + start + len + name + msg.topic);
    } else {
      NothingAdded([] + start + len + name + msg.topic, id);
    }
    ptr := Emit(buf, ptr, msg.payload, was, [] + start + len + name + msg.topic + id);
    serializedLen := ptr;
  }

  lemma StartsEmpty(s: seq<byte>)
    ensures Store(s, 0, []) == s
  {
  }

  lemma NothingAdded(s: seq<byte>, t: seq<byte>)
    requires t == []
    ensures s + t == s
  {
  }

  lemma Layout(msg: Message, start: seq<byte>, len: seq<byte>, name: seq<byte>, id: seq<byte>)
    requires msg.Sendable()
    requires start == [Header(PUBLISH, msg.dup, msg.qos, msg.retained)] && len == Encode(|msg.Body()|)
    requires name == U16(|msg.topic|) && id == if msg.qos > 0 then U16(msg.id) else []
    ensures [] + start + len + name + msg.topic + id + msg.payload == msg.Packet().Bytes()
    ensures |start| == 1 && |name| == 2 && |id| == (if msg.qos > 0 then 2 else 0)
  {
  }

  /** What the size check lets through fits in the buffer. */
  lemma Room(n: uint32, size: nat)
    requires n + 5 < TWO_32 && size <= MAX_REMAINING_LENGTH && FinalLength(n) <= size
    ensures 1 + |Encode(n)| + n <= size && n <= MAX_REMAINING_LENGTH
  {
    hide Encode;
    assert n <= MAX_REMAINING_LENGTH;
    FinalLengthExact(n);
  }

  /** The size check refuses a packet the buffer could hold in exactly three cases. */
  lemma RefusedThoughItFits(n: uint32, size: nat)
    requires n <= MAX_REMAINING_LENGTH
    ensures FinalLength(n) > size && Fits(n, size) <==>
            1 + |Encode(n)| + n == size && (n == 127 || n == 16_383 || n == 2_097_151)
  {
    hide Encode, FinalLength;
    FinalLengthExact(n);
  }

  // ---- Taking a PUBLISH packet apart

  /** Where the pieces of a received message lie in the buffer. The C function returns the topic as
      a pointer into the buffer, so it is kept as an offset here. */
  datatype Parsed = Parsed(rc: Rc, dup: bool, qos: nat, retained: bool, id: uint16,
                           topicOff: nat, topicLen: nat, payloadOff: nat, payloadLen: uint32)

  function Refused(rc: Rc): Parsed {
    Parsed(rc, false, 0, false, 0, 0, 0, 0, 0)
  }

  /** The buffer holds the whole packet that its remaining-length field announces. */
  predicate HoldsFrame(buf: seq<byte>) {
    |buf| >= 5 && (var d := Decode(buf[1..]); d.Decoded? ==> 1 + d.count + d.value <= |buf|)
  }

  function ParsePublish(buf: seq<byte>): (p: Parsed)
    requires HoldsFrame(buf)
    ensures p.rc == Success ==> p.topicOff + p.topicLen <= |buf| && p.qos < 4
    ensures p.rc.Success? || p.rc.Failure? || p.rc.DecodeRemainingLengthError? || p.rc.Undefined?
  {
    var head := buf[0];
    if PacketType(head) != PUBLISH then Refused(Failure)
    else
      var d := Decode(buf[1..]);
      if d.DecodeError? then Refused(DecodeRemainingLengthError)
      else ParseBody(buf, head, 1 + d.count, 1 + d.count + d.value)
  }

  /** The variable header and payload between `cur` and `end`. The packet identifier is read
      without looking at `end`. */
  function ParseBody(buf: seq<byte>, head: byte, cur: nat, end: nat): (p: Parsed)
    requires cur <= end <= |buf|
    ensures p.rc == Success ==> p.topicOff + p.topicLen <= |buf| && p.qos < 4
    ensures p.rc.Success? || p.rc.Failure? || p.rc.Undefined?
  {
    if end - cur <= 1 then Refused(Failure)
    else
      var topicLen := ReadU16(buf, cur);
      var topicOff := cur + 2;
      if topicOff + topicLen > end then Refused(Failure)
      else
        var after := topicOff + topicLen;
        var qos := QosOf(head);
        var dup, retained := DupOf(head), RetainedOf(head);
        if qos == 0 then
          Parsed(Success, dup, qos, retained, 0, topicOff, topicLen, after, Wrap32(end - after))
        else if after + 2 > |buf| then Refused(Undefined)
        else
          Parsed(Success, dup, qos, retained, ReadU16(buf, after), topicOff, topicLen, after + 2,
                 Wrap32(TWO_32 + end - (after + 2)))
  }

  method ReadUint16(buf: array<byte>, ptr: nat) returns (n: uint16)
    requires ptr + 2 <= buf.Length
    ensures n == ReadU16(buf[..], ptr)
  {
    var firstByte, secondByte := buf[ptr] as int, buf[ptr + 1] as int;
    n := secondByte + 256 * firstByte;
  }

  /** deserialize_publish, on the receive buffer as read_packet leaves it. */
  method DeserializePublish(buf: array<byte>) returns (p: Parsed)
    requires HoldsFrame(buf[..])
    ensures p == ParsePublish(buf[..])
  {
    hide HoldsFrame, Decode, QosOf, DupOf, RetainedOf, ReadU16;
    FrameBounds(buf[..]);
    var head := buf[0];
    if PacketType(head) != PUBLISH {
      return Refused(Failure);
    }
    assert buf[..][1..] == buf[1..];
    var d := DecodeRemainingLengthFromBuffer(buf, 1);
    if d.DecodeError? {
      return Refused(DecodeRemainingLengthError);
    }
    var curData := 1 + d.count;
    var endData := curData + d.value;
    if endData - curData <= 1 {
      return Refused(Failure);
    }
    var topicLen := ReadUint16(buf, curData);
    curData := curData + 2;
    var topicOff := curData;
    if curData + topicLen > endData {
      return Refused(Failure);
    }
    curData := curData + topicLen;
    var id: uint16 := 0;
    if QosOf(head) != 0 {
      if curData + 2 > buf.Length {
        return Refused(Undefined);
      }
      id := ReadUint16(buf, curData);
      curData := curData + 2;
    }
    return Parsed(Success, DupOf(head), QosOf(head), RetainedOf(head), id,
                  topicOff, topicLen, curData, Wrap32(TWO_32 + endData - curData));
  }

  lemma FrameBounds(buf: seq<byte>)
    requires HoldsFrame(buf)
    ensures |buf| >= 5
    ensures var d := Decode(buf[1..]); d.Decoded? ==> 1 + d.count + d.value <= |buf|
  {
  }

  /** The message that the returned pointers and lengths denote. */
  function View(buf: seq<byte>, p: Parsed): Message
    requires p.topicOff + p.topicLen <= |buf| && p.payloadOff + p.payloadLen <= |buf|
  {
    Message(p.dup, p.qos, p.retained, p.id, buf[p.topicOff..p.topicOff + p.topicLen],
            buf[p.payloadOff..p.payloadOff + p.payloadLen])
  }

  // ---- Round trips

  /** A message that is built and then taken apart comes back, whatever stale bytes follow the
      packet in the buffer; only the identifier of a QoS 0 message, which is not sent, is lost. */
  lemma SerializeParse(msg: Message, stale: seq<byte>)
    requires msg.Sendable() && |msg.Body()| <= MAX_REMAINING_LENGTH
    requires |msg.Packet().Bytes() + stale| >= 5
    ensures var buf := msg.Packet().Bytes() + stale;
            && HoldsFrame(buf)
            && var p := ParsePublish(buf);
               && p.rc == Success && p.payloadOff + p.payloadLen <= |buf|
               && View(buf, p) == (if msg.qos == 0 then msg.(id := 0) else msg)
  {
    hide Encode, ParseBody, Decode, PacketType, View, Message.Body, DupOf, RetainedOf, QosOf;
    var body, head := msg.Body(), Header(PUBLISH, msg.dup, msg.qos, msg.retained);
    var buf := msg.Packet().Bytes() + stale;
    assert buf[1..] == Encode(|body|) + (body + stale);
    EncodeDecode(|body|, body + stale);
    var cur := 1 + |Encode(|body|)|;
    assert buf == ([head] + Encode(|body|)) + body + stale;
    BodyParses(msg, [head] + Encode(|body|), stale);
    HeaderFields(PUBLISH, msg.dup, msg.qos, msg.retained);
  }

  lemma BodyParses(msg: Message, front: seq<byte>, stale: seq<byte>)
    requires msg.Sendable() && |msg.Body()| <= MAX_REMAINING_LENGTH
    ensures var body, buf := msg.Body(), front + msg.Body() + stale;
            var p := ParseBody(buf, Header(PUBLISH, msg.dup, msg.qos, msg.retained), |front|, |front| + |body|);
            && p.rc == Success && p.payloadOff + p.payloadLen <= |buf|
            && View(buf, p) == (if msg.qos == 0 then msg.(id := 0) else msg)
  {
    hide ParseBody, View, Header, U16;
    var n, id := |msg.topic|, if msg.qos > 0 then U16(msg.id) else [];
    var buf := front + msg.Body() + stale;
    BodyLength(msg);
    Parts(front, U16(n), msg.topic, id, msg.payload, stale, buf);
    HeaderFields(PUBLISH, msg.dup, msg.qos, msg.retained);
    BodyParsesAt(msg, buf, |front|, Header(PUBLISH, msg.dup, msg.qos, msg.retained), |msg.Body()|,
                 |front| + 2 + n, |front| + 2 + n + |id|);
  }

  lemma BodyParsesAt(msg: Message, buf: seq<byte>, cur: nat, head: byte, len: nat, after: nat, off: nat)
    requires msg.Sendable() && len == |msg.topic| + |msg.payload| + (if msg.qos > 0 then 4 else 2)
    requires len <= MAX_REMAINING_LENGTH && cur + len <= |buf|
    requires DupOf(head) == msg.dup && QosOf(head) == msg.qos && RetainedOf(head) == msg.retained
    requires after == cur + 2 + |msg.topic| && off == after + if msg.qos > 0 then 2 else 0
    requires buf[cur..cur + 2] == U16(|msg.topic|) && buf[cur + 2..after] == msg.topic
    requires buf[after..off] == (if msg.qos > 0 then U16(msg.id) else []) && buf[off..off + |msg.payload|] == msg.payload
    ensures var p := ParseBody(buf, head, cur, cur + len);
            && p.rc == Success && p.payloadOff + p.payloadLen <= |buf|
            && View(buf, p) == (if msg.qos == 0 then msg.(id := 0) else msg)
  {
    hide ParseBody, View, U16, ReadU16, QosOf, DupOf, RetainedOf, Message.Body;
    U16At(buf, cur, |msg.topic|);
    PlacesOf(buf, head, cur, len, |msg.topic|, |msg.payload|);
    if msg.qos > 0 {
      U16At(buf, after, msg.id);
    }
    var id := if msg.qos > 0 then msg.id else 0;
    ViewIs(buf, Parsed(Success, msg.dup, msg.qos, msg.retained, id, cur + 2, |msg.topic|, off, |msg.payload|),
           msg.topic, msg.payload);
  }

  lemma ViewIs(buf: seq<byte>, p: Parsed, topic: seq<byte>, payload: seq<byte>)
    requires p.topicOff + p.topicLen <= |buf| && p.payloadOff + p.payloadLen <= |buf|
    requires buf[p.topicOff..p.topicOff + p.topicLen] == topic
    requires buf[p.payloadOff..p.payloadOff + p.payloadLen] == payload
    ensures View(buf, p) == Message(p.dup, p.qos, p.retained, p.id, topic, payload)
  {
  }

  /** Where the parser finds the pieces of a body with a topic of `n` bytes and a payload of `m`. */
  lemma PlacesOf(buf: seq<byte>, head: byte, cur: nat, len: nat, n: nat, m: nat)
    requires len == n + m + (if QosOf(head) > 0 then 4 else 2) <= MAX_REMAINING_LENGTH && cur + len <= |buf|
    requires ReadU16(buf, cur) == n
    ensures var after := cur + 2 + n;
            ParseBody(buf, head, cur, cur + len) ==
              if QosOf(head) == 0 then
                Parsed(Success, DupOf(head), 0, RetainedOf(head), 0, cur + 2, n, after, m)
              else
                Parsed(Success, DupOf(head), QosOf(head), RetainedOf(head), ReadU16(buf, after),
                       cur + 2, n, after + 2, m)
  {
    hide ReadU16, QosOf, DupOf, RetainedOf;
  }

  lemma Parts(a: seq<byte>, b: seq<byte>, c: seq<byte>, d: seq<byte>, e: seq<byte>, f: seq<byte>, s: seq<byte>)
    requires s == a + (b + c + d + e) + f
    ensures var i := |a|; var j := i + |b|; var k := j + |c|; var l := k + |d|; var m := l + |e|;
            m <= |s| && s[i..j] == b && s[j..k] == c && s[k..l] == d && s[l..m] == e
  {
  }

  /** A 16-bit number written somewhere in a buffer reads back. */
  lemma U16At(buf: seq<byte>, at: nat, n: uint16)
    requires at + 2 <= |buf| && buf[at..at + 2] == U16(n)
    ensures ReadU16(buf, at) == n
  {
  }

  /** The packet has room for what the parser takes out of it: above QoS 0 the topic is followed by
      an identifier. */
  predicate RoomForId(buf: seq<byte>)
    requires HoldsFrame(buf)
  {
    var d := Decode(buf[1..]);
    QosOf(buf[0]) == 0 ||
    (d.Decoded? && d.value >= 2 && 1 + d.count + 2 <= |buf| && 4 + ReadU16(buf, 1 + d.count) <= d.value)
  }

  /** A publish packet whose topic lies in it. */
  predicate TopicInFrame(buf: seq<byte>)
    requires HoldsFrame(buf)
  {
    var d := Decode(buf[1..]);
    && PacketType(buf[0]) == PUBLISH && d.Decoded? && d.value >= 2 && 1 + d.count + 2 <= |buf|
    && 2 + ReadU16(buf, 1 + d.count) <= d.value
  }

  /** The identifier is read from behind the buffer exactly above QoS 0, when the topic lies in the
      packet and ends less than two bytes before the end of the buffer. */
  lemma IdReadBehind(buf: seq<byte>)
    requires HoldsFrame(buf)
    ensures var d := Decode(buf[1..]);
            ParsePublish(buf).rc == Undefined <==>
              && TopicInFrame(buf) && QosOf(buf[0]) != 0
              && 1 + d.count + 2 + ReadU16(buf, 1 + d.count) + 2 > |buf|
  {
    hide Decode, ReadU16, QosOf, DupOf, RetainedOf, PacketType;
  }

  /** A packet parses exactly when its topic lies in it and the identifier is not read from behind the
      buffer. Then identifier and payload lie in the packet, which the payload fills to its end,
      exactly when the packet has room for the identifier. */
  lemma ParsesInside(buf: seq<byte>)
    requires HoldsFrame(buf) && |buf| < TWO_31
    ensures var p, d := ParsePublish(buf), Decode(buf[1..]);
            && (p.rc == Success <==> TopicInFrame(buf) && p.rc != Undefined)
            && (p.rc == DecodeRemainingLengthError <==> PacketType(buf[0]) == PUBLISH && d.DecodeError?)
            && (TopicInFrame(buf) ==>
                  (RoomForId(buf) <==>
                     && p.rc == Success
                     && p.payloadOff <= 1 + d.count + d.value
                     && p.payloadOff + p.payloadLen == 1 + d.count + d.value))
  {
    hide Decode, ReadU16, QosOf, DupOf, RetainedOf, PacketType;
  }

  /** The payload of a successful parse lies in the packet exactly when the packet has that room;
      otherwise the payload length has wrapped around, and the payload does not even lie in the
      buffer. */
  lemma PayloadInFrame(buf: seq<byte>)
    requires HoldsFrame(buf) && ParsePublish(buf).rc == Success && |buf| < TWO_31
    ensures var p, d := ParsePublish(buf), Decode(buf[1..]);
            && d.Decoded?
            && (p.payloadOff + p.payloadLen == 1 + d.count + d.value <==> RoomForId(buf))
            && (p.payloadOff + p.payloadLen <= |buf| <==> RoomForId(buf))
  {
    hide Decode, ReadU16, QosOf, DupOf, RetainedOf, PacketType;
  }

  /** Such packets: a QoS 1 packet that ends with its topic, in front of whatever bytes. */
  lemma PayloadLengthWraps(stale: seq<byte>)
    requires |stale| >= 2
    ensures var buf := [0x32, 3, 0, 1, 97] + stale;
            && HoldsFrame(buf) && ParsePublish(buf).rc == Success
            && ParsePublish(buf).payloadOff == 7 && ParsePublish(buf).payloadLen == TWO_32 - 2
  {
    ShortPublish(stale);
  }

  /** And if no byte follows, the identifier is read from behind the buffer. */
  lemma IdBehindBuffer()
    ensures HoldsFrame([0x32, 3, 0, 1, 97]) && ParsePublish([0x32, 3, 0, 1, 97]).rc == Undefined
  {
  }

  lemma ShortPublish(stale: seq<byte>)
    ensures var buf := [0x32, 3, 0, 1, 97] + stale;
            && HoldsFrame(buf) && PacketType(buf[0]) == PUBLISH && QosOf(buf[0]) == 1
            && Decode(buf[1..]) == Decoded(3, 1) && ReadU16(buf, 2) == 1
    ensures [0x32, 3, 0, 1, 97] + [] == [0x32, 3, 0, 1, 97]
  {
    var buf := [0x32, 3, 0, 1, 97] + stale;
    assert Encode(3) == [3];
    assert buf[1..] == Encode(3) + ([0, 1, 97] + stale);
    EncodeDecode(3, [0, 1, 97] + stale);
  }

  /** Conversely, a packet that parses into its frame with a QoS the sender knows, and whose
      length field is the shortest one, is the packet that the parsed message is sent as. */
  lemma ParseSerialize(buf: seq<byte>)
    requires HoldsFrame(buf) && ParsePublish(buf).rc == Success && |buf| < TWO_31
    requires var d := Decode(buf[1..]); d.Decoded? && buf[1..1 + d.count] == Encode(d.value)
    requires var p := ParsePublish(buf); p.qos <= 1 && p.payloadOff + p.payloadLen <= |buf|
    ensures var d, msg := Decode(buf[1..]), View(buf, ParsePublish(buf));
            msg.Sendable() && msg.Packet().Bytes() == buf[..1 + d.count + d.value]
  {
    hide Encode, Decode, ParseBody, Header, Value, PrefixLen, U16, View;
    PayloadInFrame(buf);
    var d, p := Decode(buf[1..]), ParsePublish(buf);
    var cur, end := 1 + d.count, 1 + d.count + d.value;
    BodyOf(buf, buf[0], cur, end);
    HeaderOfFields(buf[0]);
    Joined(buf, cur, end);
  }

  lemma Joined(buf: seq<byte>, cur: nat, end: nat)
    requires 1 <= cur <= end <= |buf|
    ensures [buf[0]] + buf[1..cur] + buf[cur..end] == buf[..end]
  {
  }

  /** The bytes between `cur` and `end` are the body that the parsed message is sent with. */
  lemma BodyOf(buf: seq<byte>, head: byte, cur: nat, end: nat)
    requires cur <= end <= |buf| < TWO_31
    requires var p := ParseBody(buf, head, cur, end);
             p.rc == Success && p.qos <= 1 && p.payloadOff + p.payloadLen == end
    ensures var p := ParseBody(buf, head, cur, end);
            var msg := View(buf, p);
            && msg.Sendable() && msg.Body() == buf[cur..end]
            && msg.dup == DupOf(head) && msg.qos == QosOf(head) && msg.retained == RetainedOf(head)
  {
    hide ParseBody, ReadU16, U16, QosOf, DupOf, RetainedOf, Message.Body;
    var p := ParseBody(buf, head, cur, end);
    BodyPlaces(buf, head, cur, end);
    var msg, after := View(buf, p), p.topicOff + p.topicLen;
    ReadBack(buf, cur);
    if p.qos > 0 {
      ReadBack(buf, after);
    }
    Pieces(buf, cur, p.topicOff, after, p.payloadOff, end);
    BodyFrom(msg, buf[cur..p.topicOff], buf[after..p.payloadOff]);
  }

  lemma BodyFrom(msg: Message, name: seq<byte>, id: seq<byte>)
    requires |msg.topic| < TWO_16 && name == U16(|msg.topic|) && id == if msg.qos > 0 then U16(msg.id) else []
    ensures msg.Body() == name + msg.topic + id + msg.payload
  {
  }

  lemma BodyPlaces(buf: seq<byte>, head: byte, cur: nat, end: nat)
    requires cur <= end <= |buf| < TWO_31
    requires var p := ParseBody(buf, head, cur, end);
             p.rc == Success && p.qos <= 1 && p.payloadOff + p.payloadLen == end
    ensures var p := ParseBody(buf, head, cur, end);
            && p.topicOff == cur + 2 <= p.topicOff + p.topicLen <= end && p.topicLen == ReadU16(buf, cur)
            && p.dup == DupOf(head) && p.qos == QosOf(head) && p.retained == RetainedOf(head)
            && p.payloadOff == p.topicOff + p.topicLen + (if p.qos > 0 then 2 else 0) <= end
            && p.id == (if p.qos > 0 then ReadU16(buf, p.topicOff + p.topicLen) else 0)
  {
    hide ReadU16, QosOf, DupOf, RetainedOf;
  }

  lemma Pieces(s: seq<byte>, a: nat, b: nat, c: nat, d: nat, e: nat)
    requires a <= b <= c <= d <= e <= |s|
    ensures s[a..e] == s[a..b] + s[b..c] + s[c..d] + s[d..e]
    ensures c == d ==> s[c..d] == []
  {
    assert s[a..c] == s[a..b] + s[b..c];
    assert s[a..d] == s[a..c] + s[c..d];
    assert s[a..e] == s[a..d] + s[d..e];
  }

  lemma ReadBack(buf: seq<byte>, at: nat)
    requires at + 2 <= |buf|
    ensures U16(ReadU16(buf, at)) == buf[at..at + 2]
  {
  }

  // ---- Acknowledgements

  /** serialize_ack as the client uses it for PUBACK. */
  method SerializePuback(buf: array<byte>, id: uint16) returns (rc: Rc, serializedLen: nat)
    modifies buf
    ensures rc == if buf.Length < 4 then TxBufferTooShort else Success
    ensures rc == Success ==> serializedLen == 4
                              && buf[..] == Store(old(buf[..]), 0, Packet(Header(PUBACK, false, 0, false), U16(id)).Bytes())
    ensures rc != Success ==> buf[..] == old(buf[..])
  {
    serializedLen := 0;
    if 4 > buf.Length {
      return TxBufferTooShort, 0;
    }
    assert Encode(2) == [2];
    ghost var was := buf[..];
    buf[0] := Header(PUBACK, false, 0, false);
    var n := WriteLenToBuffer(buf, 1, 2);
    buf[1 + n] := id / 256;
    buf[2 + n] := id % 256;
    assert buf[..] == Store(was, 0, Packet(Header(PUBACK, false, 0, false), U16(id)).Bytes());
    return Success, 3 + n;
  }

  /** deserialize_ack: the packet type and identifier, or why there are none. */
  datatype Ack = NoAck(rc: Rc) | Ack(packetType: nat, dup: bool, id: uint16)

  function ParseAck(buf: seq<byte>): Ack
    requires HoldsFrame(buf)
  {
    var d := Decode(buf[1..]);
    if d.DecodeError? then NoAck(DecodeRemainingLengthError)
    else if d.value < 2 then NoAck(Failure)
    else Ack(PacketType(buf[0]), DupOf(buf[0]), ReadU16(buf, 1 + d.count))
  }

  /** What the parser makes of a whole packet, whatever bytes follow it: it needs two bytes of body, and
      takes type and duplicate flag from the header and the identifier from the first two. */
  lemma AckFields(h: byte, body: seq<byte>, stale: seq<byte>)
    requires |body| <= MAX_REMAINING_LENGTH
    ensures var buf := Packet(h, body).Bytes() + stale;
            |buf| >= 5 ==>
              && HoldsFrame(buf)
              && ParseAck(buf) == if |body| < 2 then NoAck(Failure)
                                  else Ack(PacketType(h), DupOf(h), 256 * (body[0] as int) + body[1])
  {
    hide Encode, Decode;
    var buf := Packet(h, body).Bytes() + stale;
    assert buf[1..] == Encode(|body|) + (body + stale);
    EncodeDecode(|body|, body + stale);
  }

  /** And a packet without a length field of at most four bytes is refused as such. */
  lemma AckWithoutLength(buf: seq<byte>)
    requires HoldsFrame(buf)
    ensures ParseAck(buf) == NoAck(DecodeRemainingLengthError) <==> PrefixLen(buf[1..]) > 4
  {
    Decodes(buf[1..], PrefixLen(buf[1..]));
  }

  /** An acknowledgement carries its identifier through. */
  lemma AckRoundTrip(id: uint16, stale: seq<byte>)
    ensures var buf := Packet(Header(PUBACK, false, 0, false), U16(id)).Bytes() + stale;
            |buf| >= 5 ==> HoldsFrame(buf) && ParseAck(buf) == Ack(PUBACK, false, id)
  {
    AckFields(Header(PUBACK, false, 0, false), U16(id), stale);
    HeaderFields(PUBACK, false, 0, false);
    hide ParseAck, HoldsFrame, Header, PacketType, DupOf;
    assert 256 * (U16(id)[0] as int) + U16(id)[1] == id;
  }
}
