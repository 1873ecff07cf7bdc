/**
 The MQTT client as a value, and what each of its functions makes of it. The methods of
 MqttClient change the client object as these functions say; what the client promises is
 proved about the functions.

 A callback publishes any messages, any number of times: `apps` holds what the callbacks do,
 one entry for each callback in the order in which they are run. The mutexes are a script of
 successes and failures, and a timer is the number of times it may still be asked before it
 has expired.
 */
module ClientSpec {
  import opened Bytes
  import opened Network
  import opened RemainingLength
  import opened PacketReader
  import opened PublishPacket
  import opened TopicMatcher
  import opened ClientStates
  import opened Transmission

  const TX_BUF_LEN: nat := 1024
  const RX_BUF_LEN: nat := 1024
  const NUM_SUBSCRIBE_HANDLERS: nat := 5
  const MAX_PACKET_ID: nat := 65_535

  const CONNACK: nat := 2
  const PUBREC: nat := 5
  const PUBCOMP: nat := 7
  const SUBACK: nat := 9
  const UNSUBACK: nat := 11
  const PINGRESP: nat := 13

  datatype Option<T> = None | Some(value: T)

  /** A slot of the handler table. `app` tells whether a callback is registered. */
  datatype Handler = Handler(topic: Option<string>, topicNameLen: nat, app: bool)

  /** A callback: which handler, the topic it was given, the client state it ran in, and how many
      callbacks were running around it. */
  datatype Call = Call(index: nat, topic: seq<byte>, state: ClientState, depth: nat)

  /** A publish call by a callback. `time` is the command timeout. */
  datatype Publication = Publication(msg: Message, time: nat)

  datatype Mutex = StateChange | TlsRead | TlsWrite

  type Buffer = b: seq<byte> | |b| == 1024 witness seq(1024, _ => 0)

  /** The client, the network stack under it, and history: `calls` and `depth` are the callbacks run
      and running, `faults` counts failed mutex calls, `lost` is set where a read may have ended inside
      a packet, and `broken` is set where the C code reads or
      writes outside its object. The language says nothing about the program from there on: a broken
      client is this value and no more, and what the client promises is promised as long as it is
      not broken. */
  datatype Client = Client(
    state: ClientState, lastId: uint16, pinging: bool, readBuf: Buffer, writeBuf: Buffer,
    locks: seq<bool>, held: set<Mutex>, faults: nat,
    wire: Wire, writes: seq<WriteAnswer>, outgoing: seq<byte>,
    apps: seq<seq<Publication>>, calls: seq<Call>, depth: nat, lost: bool, broken: bool)
  {
    /** Reads of the TLS layer that the script still answers. */
    function Remaining(): nat {
      |wire.script| - wire.turn
    }

    predicate Honest() {
      NeverNegative(writes)
    }
  }

  // ---- Which handlers a message goes to

  function Text(bs: seq<byte>): string {
    seq(|bs|, i requires 0 <= i < |bs| => bs[i] as char)
  }

  /** strncmp(name, other, |name|) == 0, where `other` ends with a NUL. */
  predicate StrNCmpEqual(name: string, other: string)
    decreases |name|
  {
    if name == "" then true
    else
      var c := if other == "" then '\0' else other[0];
      name[0] == c && (c == '\0' || StrNCmpEqual(name[1..], other[1..]))
  }

  /** The condition under which the dispatcher calls a handler. */
  predicate Selected(h: Handler, topic: seq<byte>) {
    h.topic.Some? && h.app
    && ((|topic| == h.topicNameLen && StrNCmpEqual(Text(topic), h.topic.value))
        || Scan(h.topic.value, Text(topic)))
  }

  /** A subscription as subscribe registers it: the filter with its length, and a callback. */
  predicate Registered(h: Handler) {
    h.topic.Some? && h.topicNameLen == |h.topic.value| && '\0' !in h.topic.value && WellFormed(h.topic.value)
  }

  /** For such a subscription the string comparison adds nothing: the handler is called exactly
      when it has a callback and the levels match. */
  lemma SelectedMeansMatched(h: Handler, topic: seq<byte>)
    requires Registered(h)
    ensures Selected(h, topic) <==> h.app && LevelsMatch(Split(h.topic.value), Split(Text(topic)))
  {
    hide StrNCmpEqual, Scan, WellFormed;
    var filter, name := h.topic.value, Text(topic);
    ScanIsLevelsMatch(filter, name);
    if |topic| == h.topicNameLen && StrNCmpEqual(name, filter) {
      EqualStrings(name, filter);
      SelfMatch(filter);
    }
  }

  /** Whatever a subscription's string is, a message on exactly that topic selects its handler. */
  lemma ExactTopic(h: Handler, topic: seq<byte>)
    requires h.topic == Some(Text(topic)) && h.topicNameLen == |topic| && h.app
    ensures Selected(h, topic)
  {
    SameString(Text(topic));
  }

  lemma {:induction false} SameString(a: string)
    ensures StrNCmpEqual(a, a)
  {
    if a != "" && a[0] != '\0' {
      SameString(a[1..]);
    }
  }

  lemma {:induction false} EqualStrings(a: string, b: string)
    requires |a| == |b| && '\0' !in b && StrNCmpEqual(a, b)
    ensures a == b
  {
    if a != "" {
      EqualStrings(a[1..], b[1..]);
      assert a == [a[0]] + a[1..] && b == [b[0]] + b[1..];
    }
  }

  // ---- Mutexes and the client state

  /** Whether the next mutex call is granted; a script that has run out grants all. */
  predicate Granted(locks: seq<bool>) {
    locks == [] || locks[0]
  }

  function Rest(locks: seq<bool>): seq<bool> {
    if locks == [] then [] else locks[1..]
  }

  /** A function's code and the client after it. */
  datatype Out = Out(rc: Rc, c: Client)

  /** The same with the timer that was passed in. */
  datatype Timed = Timed(rc: Rc, left: nat, c: Client)

  function Lock(c: Client, m: Mutex): Out {
    var ok := m !in c.held && Granted(c.locks);
    Out(if ok then Success else MutexLockError,
        c.(locks := Rest(c.locks), held := if ok then c.held + {m} else c.held,
           faults := c.faults + if ok then 0 else 1))
  }

  function Unlock(c: Client, m: Mutex): Out {
    var ok := Granted(c.locks);
    Out(if ok then Success else MutexLockError,
        c.(locks := Rest(c.locks), held := if ok then c.held - {m} else c.held,
           faults := c.faults + if ok then 0 else 1))
  }

  function SetState(c: Client, expected: ClientState, newState: ClientState): Out {
    var l := Lock(c, StateChange);
    if l.rc != Success then l
    else if expected == c.state then Unlock(l.c.(state := newState), StateChange)
    else Out(UnexpectedClientState, Unlock(l.c, StateChange).c)
  }

  predicate IsConnected(s: ClientState) {
    match s
    case ConnectedIdle | YieldInProgress | PublishInProgress | SubscribeInProgress
       | UnsubscribeInProgress | ResubscribeInProgress | WaitForCbReturn => true
    case _ => false
  }

  // ---- Sending and reading

  function Send(c: Client, length: nat, left: nat): (t: Timed)
    ensures t.left <= left && t.c.wire == c.wire
  {
    if length >= TX_BUF_LEN then Timed(TxBufferTooShort, left, c)
    else
      var l := Lock(c, TlsWrite);
      if l.rc != Success then Timed(l.rc, left, l.c)
      else
        var t := Transmit(c.writes, left, length, 0, c.writeBuf + c.readBuf);
        var inside := StaysInside(c.writes, left, length, 0, TX_BUF_LEN);
        var u := Unlock(l.c.(writes := t.writes, outgoing := c.outgoing + t.wire, broken := c.broken || !inside),
                        TlsWrite);
        Timed(if u.rc != Success then u.rc else if t.at == length then Success else Failure, t.left, u.c)
  }

  /** read_packet on the client. */
  function Read(c: Client): Client {
    c.(wire := PacketReader.ReadPacket(c.wire, RX_BUF_LEN).wire, readBuf := ReadInto(c.wire, c.readBuf),
       lost := c.lost || !Framed(PacketReader.ReadPacket(c.wire, RX_BUF_LEN)),
       broken := c.broken || PacketReader.ReadPacket(c.wire, RX_BUF_LEN).rc == Undefined)
  }

  /** The front of cycle_read: its code if it ends there, whether a packet was read, and whether the
      cycle goes on. */
  datatype Fetched = Fetched(rc: Rc, read: bool, due: bool, c: Client)

  function Fetch(c: Client): Fetched {
    var l := Lock(c, TlsRead);
    if l.rc != Success then Fetched(l.rc, false, false, l.c)
    else
      var rc := PacketReader.ReadPacket(c.wire, RX_BUF_LEN).rc;
      var u := Unlock(Read(l.c), TlsRead);
      var end := if u.rc != Success && (rc == MqttNothingToRead || rc == Success) then u.rc
                 else if rc == MqttNothingToRead then Success else rc;
      Fetched(end, rc == Success, rc == Success && u.rc == Success, u.c)
  }

  /** The packet types that a cycle accepts without more to do than note a PINGRESP. */
  predicate Forwarded(packetType: nat) {
    packetType == CONNACK || packetType == PUBACK || packetType == SUBACK || packetType == UNSUBACK
    || packetType == PUBREC || packetType == PUBCOMP || packetType == PINGRESP
  }

  function PubackBytes(id: uint16): (s: seq<byte>)
    ensures |s| == 4
  {
    assert Encode(2) == [2];
    Packet(Header(PUBACK, false, 0, false), U16(id)).Bytes()
  }

  /** The message as it is sent: a fresh identifier with QoS 1, and never marked as a duplicate. */
  function Outgoing(msg: Message, lastId: uint16): Message {
    if msg.qos == 1 then msg.(dup := false, id := NextId(lastId)) else msg.(dup := false)
  }

  // ---- Cycles, deliveries and publish calls, which run one another

  /** The wire only goes on. The recursion ends because no more is read than the script answers. */
  ghost predicate Onward(a: Client, b: Client) {
    a.wire.LeadsTo(b.wire)
  }

  /** A cycle: its code, whether it read a packet and of what type, the timer and the client. */
  datatype Cycled = Cycled(rc: Rc, read: bool, packetType: nat, left: nat, c: Client)

  function Cycle(hs: seq<Handler>, c: Client, left: nat, typeBefore: nat): (r: Cycled)
    ensures Onward(c, r.c) && r.left <= left
    ensures r.read && r.packetType != PUBLISH ==> HoldsFrame(r.c.readBuf)
    decreases c.Remaining(), 1
  {
    var f := Fetch(c);
    var packetType := if f.read then PacketType(f.c.readBuf[0]) else typeBefore;
    FetchOnward(c);
    if !f.due then Cycled(f.rc, f.read, packetType, left, f.c)
    else
      var d := Dispatch(hs, f.c, packetType, left);
      Cycled(d.rc, true, packetType, d.left, d.c)
  }

  function Dispatch(hs: seq<Handler>, c: Client, packetType: nat, left: nat): (r: Timed)
    requires HoldsFrame(c.readBuf)
    ensures Onward(c, r.c) && r.left <= left
    ensures packetType != PUBLISH ==> HoldsFrame(r.c.readBuf)
    decreases c.Remaining(), 7
  {
    if packetType == PUBLISH then Handle(hs, c, left)
    else if packetType == PINGRESP then Timed(Success, left, c.(pinging := false))
    else Timed(if Forwarded(packetType) then Success else PacketTypeInvalid, left, c)
  }

  function Wait(hs: seq<Handler>, c: Client, packetType: nat, left: nat, typeBefore: nat): (r: Timed)
    requires typeBefore != packetType
    ensures Onward(c, r.c) && r.left <= left
    ensures r.rc == Success && packetType != PUBLISH ==> HoldsFrame(r.c.readBuf)
    decreases c.Remaining(), 2, left
  {
    if left == 0 then Timed(RequestTimeout, 0, c)
    else
      var r := Cycle(hs, c, left - 1, typeBefore);
      if r.packetType == packetType then Timed(r.rc, r.left, r.c)
      else Wait(hs, r.c, packetType, r.left, r.packetType)
  }

  function Handle(hs: seq<Handler>, c: Client, left: nat): (r: Timed)
    requires HoldsFrame(c.readBuf)
    ensures Onward(c, r.c) && r.left <= left
    decreases c.Remaining(), 6
  {
    var p := ParsePublish(c.readBuf);
    if p.rc != Success then Timed(p.rc, left, c.(broken := c.broken || p.rc == Undefined))
    else
      var d := Deliver(hs, c, p.topicOff, p.topicLen);
      if d.rc != Success || p.qos == 0 then Timed(d.rc, left, d.c)
      else Send(d.c.(writeBuf := Store(d.c.writeBuf, 0, PubackBytes(p.id))), 4, left)
  }

  /** deliver_message, for the topic at a place in the receive buffer. */
  function Deliver(hs: seq<Handler>, c: Client, off: nat, len: nat): (r: Out)
    requires off + len <= RX_BUF_LEN
    ensures Onward(c, r.c)
    decreases c.Remaining(), 5
  {
    SetState(DeliverFrom(hs, SetState(c, c.state, WaitForCbReturn).c, off, len, 0), WaitForCbReturn, c.state)
  }

  /** Its loop from slot `itr` on. The topic is looked at anew for every slot. */
  function DeliverFrom(hs: seq<Handler>, c: Client, off: nat, len: nat, itr: nat): (r: Client)
    requires off + len <= RX_BUF_LEN && itr <= |hs|
    ensures Onward(c, r)
    decreases c.Remaining(), 4, |hs| - itr
  {
    if itr == |hs| then c
    else DeliverFrom(hs, Turn(hs, c, off, len, itr), off, len, itr + 1)
  }

  /** The turn of one slot. */
  function Turn(hs: seq<Handler>, c: Client, off: nat, len: nat, itr: nat): (r: Client)
    requires off + len <= RX_BUF_LEN && itr < |hs|
    ensures Onward(c, r)
    decreases c.Remaining(), 4, 0, 1
  {
    var name := c.readBuf[off..off + len];
    if Selected(hs[itr], name) then Invoke(hs, c, itr, name) else c
  }

  /** A callback. */
  function Invoke(hs: seq<Handler>, c: Client, index: nat, topic: seq<byte>): (r: Client)
    ensures Onward(c, r)
    decreases c.Remaining(), 4, 0, 0
  {
    var pubs := if c.apps == [] then [] else c.apps[0];
    PublishAll(hs, Entered(c, index, topic), pubs).(depth := c.depth)
  }

  /** The client when a callback starts. */
  function Entered(c: Client, index: nat, topic: seq<byte>): Client {
    c.(calls := c.calls + [Call(index, topic, c.state, c.depth)], depth := c.depth + 1,
       apps := if c.apps == [] then [] else c.apps[1..])
  }

  function PublishAll(hs: seq<Handler>, c: Client, pubs: seq<Publication>): (r: Client)
    ensures Onward(c, r)
    decreases c.Remaining(), 3, 1, |pubs|
  {
    if pubs == [] then c
    else if !pubs[0].msg.Sendable() then PublishAll(hs, c, pubs[1..])
    else PublishAll(hs, Publish(hs, c, pubs[0].msg, pubs[0].time).c, pubs[1..])
  }

  /** Why a publish call is refused, if it is. */
  function Refusal(c: Client, msg: Message): Rc {
    if msg.topic == [] then NullValue
    else if !IsConnected(c.state) then NetworkDisconnected
    else if c.state != ConnectedIdle && c.state != WaitForCbReturn then ClientNotIdle
    else Success
  }

  function Publish(hs: seq<Handler>, c: Client, msg: Message, time: nat): (r: Out)
    requires msg.Sendable()
    ensures Onward(c, r.c)
    decreases c.Remaining(), 3, 0
  {
    var e := SetState(c, c.state, PublishInProgress);
    if Refusal(c, msg) != Success then Out(Refusal(c, msg), c)
    else if e.rc != Success then e
    else
      var p := InternalPublish(hs, e.c, msg, time);
      var l := SetState(p.c, PublishInProgress, c.state);
      Out(if p.rc == Success then l.rc else p.rc, l.c)
  }

  function InternalPublish(hs: seq<Handler>, c: Client, msg: Message, time: nat): (r: Out)
    requires msg.Sendable()
    ensures Onward(c, r.c)
    decreases c.Remaining(), 3, 0, 0
  {
    if TooLarge(msg) then Out(TxBufferTooShort, Numbered(c, msg))
    else
      var s := SendMessage(c, msg, time);
      if s.rc != Success || msg.qos == 0 then Out(s.rc, s.c)
      else
        var w := Wait(hs, s.c, PUBACK, s.left, 0);
        if w.rc != Success then Out(w.rc, w.c)
        else
          match ParseAck(w.c.readBuf)
          case NoAck(rc) => Out(rc, w.c)
          case Ack(_, _, _) => Out(Success, w.c)
  }

  predicate TooLarge(msg: Message)
    requires msg.Sendable()
  {
    BodyLength(msg);
    FinalLength(|msg.Body()|) > TX_BUF_LEN
  }

  /** The client after a fresh identifier has been taken, if the message needs one. */
  function Numbered(c: Client, msg: Message): Client {
    c.(lastId := if msg.qos == 1 then NextId(c.lastId) else c.lastId)
  }

  /** The packet that goes out for a message. */
  function PacketOf(c: Client, msg: Message): seq<byte>
    requires msg.Sendable()
  {
    Outgoing(msg, c.lastId).Packet().Bytes()
  }

  /** After the packet was built in the transmit buffer and sent. */
  function SendMessage(c: Client, msg: Message, time: nat): (t: Timed)
    requires msg.Sendable() && !TooLarge(msg)
    ensures t.left <= time && t.c.wire == c.wire
  {
    PacketFits(c, msg);
    Send(Numbered(c, msg).(writeBuf := Store(c.writeBuf, 0, PacketOf(c, msg))), |PacketOf(c, msg)|, time)
  }

  lemma PacketFits(c: Client, msg: Message)
    requires msg.Sendable() && !TooLarge(msg)
    ensures |PacketOf(c, msg)| <= TX_BUF_LEN
  {
    var out := Outgoing(msg, c.lastId);
    BodyLength(msg);
    BodyLength(out);
    Room(|out.Body()|, TX_BUF_LEN);
  }

  /** What the front of a cycle gives to the rest. */
  lemma FetchOnward(c: Client)
    ensures var f := Fetch(c);
            && Onward(c, f.c)
            && (f.read ==> HoldsFrame(f.c.readBuf)
                           && PacketType(f.c.readBuf[0]) == PacketType(PacketReader.ReadPacket(c.wire, RX_BUF_LEN).packet[0]))
            && (f.due ==> f.read && f.c.Remaining() < c.Remaining())
  {
    hide PacketReader.ReadPacket, ReadInto, HoldsFrame, PacketType, Store;
    if PacketReader.ReadPacket(c.wire, RX_BUF_LEN).rc == Success {
      ReadIntoPacket(c.wire, c.readBuf);
      PacketHoldsFrame(c.wire, c.readBuf, ReadInto(c.wire, c.readBuf));
    }
  }

  /** The receive buffer after a successful read holds the packet's whole frame. */
  lemma PacketHoldsFrame(w: Wire, was: seq<byte>, buf: seq<byte>)
    requires |was| == RX_BUF_LEN && PacketReader.ReadPacket(w, RX_BUF_LEN).rc == Success
    requires buf == Store(was, 0, PacketReader.ReadPacket(w, RX_BUF_LEN).packet)
    ensures HoldsFrame(buf) && PacketType(buf[0]) == PacketType(PacketReader.ReadPacket(w, RX_BUF_LEN).packet[0])
  {
    hide PacketReader.ReadPacket, Encode, Decode;
    var h, body := PacketShape(w, RX_BUF_LEN);
    var stale := was[|[h] + Encode(|body|) + body|..];
    assert buf == [h] + Encode(|body|) + body + stale;
    assert buf[1..] == Encode(|body|) + (body + stale);
    EncodeDecode(|body|, body + stale);
  }

  // ---- From one client to another

  /** A message built in one client's transmit buffer, carried by the network, read by another
      client and taken apart there comes out as it went in. `was` is what the receive buffer held. */
  lemma PublishArrives(msg: Message, w: Wire, was: seq<byte>)
    requires msg.Sendable() && |msg.Body()| <= MAX_REMAINING_LENGTH && |was| == RX_BUF_LEN
    requires msg.Packet().Bytes() <= w.stream[w.pos..]
    ensures var r := PacketReader.ReadPacket(w, RX_BUF_LEN);
            r.rc == Success ==>
              && r.wire.pos == w.pos + |msg.Packet().Bytes()|
              && var buf := Store(was, 0, r.packet);
                 && HoldsFrame(buf) && ParsePublish(buf).rc == Success
                 && var p := ParsePublish(buf);
                    p.payloadOff + p.payloadLen <= |buf| && View(buf, p) == (if msg.qos == 0 then msg.(id := 0) else msg)
  {
    hide PacketReader.ReadPacket, Encode, ParsePublish, HoldsFrame, View;
    var h, body := Header(PUBLISH, msg.dup, msg.qos, msg.retained), msg.Body();
    EncodeMeans(|body|);
    ReadOnePacket(w, h, Encode(|body|), body, RX_BUF_LEN);
    var r := PacketReader.ReadPacket(w, RX_BUF_LEN);
    if r.rc == Success {
      assert r.packet == msg.Packet().Bytes();
      var buf, stale := Store(was, 0, r.packet), was[|r.packet|..];
      assert buf == r.packet + stale;
      SerializeParse(msg, stale);
    }
  }

  // ---- Packet identifiers

  function NextId(id: uint16): uint16 {
    if id == MAX_PACKET_ID then 1 else id + 1
  }

  /** The identifier after `n` calls. */
  function IdAfter(id: uint16, n: nat): uint16 {
    if n == 0 then id else NextId(IdAfter(id, n - 1))
  }

  lemma {:induction false} IdAfterClosed(id: uint16, n: nat)
    requires id != 0
    ensures IdAfter(id, n) == (id - 1 + n) % 65_535 + 1
  {
    if n > 0 {
      IdAfterClosed(id, n - 1);
    }
  }

  /** From any identifier on: all are in 1..65535, and two calls give the same one exactly when they
      are a multiple of 65535 calls apart, so any 65535 consecutive ones are distinct and the period
      is exactly that. The first one issued after initialisation is 2. */
  lemma PacketIds(id: uint16, m: nat, n: nat)
    requires id != 0 && m <= n
    ensures 1 <= IdAfter(id, n) <= MAX_PACKET_ID
    ensures IdAfter(id, m) == IdAfter(id, n) <==> (n - m) % 65_535 == 0
    ensures IdAfter(1, 1) == 2
  {
    hide IdAfter;
    IdAfterClosed(id, m);
    IdAfterClosed(id, n);
    IdAfterClosed(1, 1);
    SameRemainder(id - 1 + m, id - 1 + n);
  }

  lemma SameRemainder(a: nat, b: nat)
    requires a <= b
    ensures a % 65_535 == b % 65_535 <==> (b - a) % 65_535 == 0
  {
  }
}
