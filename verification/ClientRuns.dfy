/**
 A run of the client in which a handler for the topic of a message is not called: the callback
 of an earlier handler publishes with QoS 1, and while it waits for its acknowledgement a
 message on another topic is read over the one being delivered.
 */
module ClientRuns {
  import opened Bytes
  import opened Network
  import opened RemainingLength
  import opened PacketReader
  import opened PublishPacket
  import opened TopicMatcher
  import opened ClientStates
  import opened Transmission
  import opened ClientSpec
  import opened ClientLaws

  const BOTH: seq<Handler> := [Handler(Some("a"), 1, true), Handler(Some("a"), 1, true)]
  const STREAM: seq<byte> := [48, 3, 0, 1, 98, 64, 2, 0, 2]
  const ANSWERS: seq<TlsEvent> := [Data(1), Data(1), Data(3), Data(1), Data(1), Data(2)]
  const MESSAGE: Message := Message(false, 1, false, 0, [99], [])

  /** A client that yields, with a message on "a" in its receive buffer and a message on "b" and a
      PUBACK on the stream. Its first callback publishes on "c" with QoS 1. */
  function Yielding(was: Buffer, tx: Buffer): Client {
    Client(YieldInProgress, 1, false, Store(was, 0, [48, 3, 0, 1, 97]), tx, [], {}, 0,
           RawWire(STREAM, 0, ANSWERS, 0), [Accept(7)], [], [[Publication(MESSAGE, 9)]], [], 0, false, false)
  }

  // ---- Steps of clients whose mutexes are granted

  predicate Easy(c: Client) {
    c.locks == [] && c.held == {} && !c.broken
  }

  lemma EasyState(c: Client, newState: ClientState)
    requires Easy(c)
    ensures SetState(c, c.state, newState) == Out(Success, c.(state := newState))
  {
  }

  lemma OnlyA()
    ensures Selected(Handler(Some("a"), 1, true), [97]) && !Selected(Handler(Some("a"), 1, true), [98])
  {
  }

  /** A buffer that begins with a QoS 0 message on a topic of one byte. */
  lemma Tiny(was: Buffer, topic: byte)
    ensures var buf := Store(was, 0, [48, 3, 0, 1, topic]);
            && HoldsFrame(buf) && buf[4..5] == [topic] && buf[4] == topic
            && ParsePublish(buf).rc == Success && ParsePublish(buf).qos == 0
            && ParsePublish(buf).topicOff == 4 && ParsePublish(buf).topicLen == 1
  {
    hide Decode, PrefixLen, Value;
    var buf := Store(was, 0, [48, 3, 0, 1, topic]);
    assert buf[1..] == Encode(3) + buf[2..] by {
      assert Encode(3) == [3];
    }
    EncodeDecode(3, buf[2..]);
    assert ReadU16(buf, 2) == 1;
  }

  /** A message on "b" is handled without a callback. */
  lemma HandleB(c: Client, was: Buffer, left: nat)
    requires Easy(c) && c.readBuf == Store(was, 0, [48, 3, 0, 1, 98])
    ensures HoldsFrame(c.readBuf) && Handle(BOTH, c, left) == Timed(Success, left, c)
  {
    Tiny(was, 98);
    OnlyA();
    hide HoldsFrame, ParsePublish, Selected, Store, SetState;
    EasyState(c, WaitForCbReturn);
    var b := c.(state := WaitForCbReturn);
    assert DeliverFrom(BOTH, b, 4, 1, 2) == b;
    assert DeliverFrom(BOTH, b, 4, 1, 1) == b;
    assert DeliverFrom(BOTH, b, 4, 1, 0) == b;
    EasyState(b, c.state);
  }

  // ---- The stream

  /** A packet with a short body, read in three pieces. */
  lemma PacketRead3(w: Wire, n: nat)
    requires w.pos + 2 + n <= |w.stream| && w.turn + 3 <= |w.script| && 0 < n < 100 && w.stream[w.pos + 1] == n
    requires w.script[w.turn] == Data(1) && w.script[w.turn + 1] == Data(1) && w.script[w.turn + 2] == Data(n)
    ensures PacketReader.ReadPacket(w, RX_BUF_LEN)
         == PacketRead(Success, w.stream[w.pos..w.pos + 2 + n], RawWire(w.stream, w.pos + 2 + n, w.script, w.turn + 3), false)
  {
    hide Recv, ReadLength, Drain;
    OneByte(w);
    OneLength(w.Advance(1));
    var v := w.Advance(1).Advance(1);
    Piece(v, n);
    assert Encode(n) == [n];
    var s, p := w.stream, w.pos;
    assert s[p..p + 2 + n] == [s[p]] + [n] + s[p + 2..p + 2 + n];
  }

  lemma Piece(w: Wire, n: nat)
    requires w.Event() == Data(n) && n > 0 && w.pos + n <= |w.stream|
    ensures Recv(w, n, 0) == Received(Success, n, w.Advance(n))
  {
  }

  function At(pos: nat, turn: nat): Wire
    requires pos <= |STREAM| && turn <= |ANSWERS|
  {
    RawWire(STREAM, pos, ANSWERS, turn)
  }

  lemma FirstPacket()
    ensures PacketReader.ReadPacket(At(0, 0), RX_BUF_LEN) == PacketRead(Success, [48, 3, 0, 1, 98], At(5, 3), false)
  {
    hide PacketReader.ReadPacket;
    PacketRead3(At(0, 0), 3);
    assert STREAM[0..5] == [48, 3, 0, 1, 98];
  }

  lemma SecondPacket()
    ensures PacketReader.ReadPacket(At(5, 3), RX_BUF_LEN) == PacketRead(Success, [64, 2, 0, 2], At(9, 6), false)
  {
    hide PacketReader.ReadPacket;
    PacketRead3(At(5, 3), 2);
    assert STREAM[5..9] == [64, 2, 0, 2];
  }

  /** The front of a cycle that reads a packet. */
  lemma EasyFetch(c: Client, p: PacketRead)
    requires Easy(c) && p == PacketReader.ReadPacket(c.wire, RX_BUF_LEN) && p.rc == Success
    ensures Fetch(c) == Fetched(Success, true, true, c.(wire := p.wire, readBuf := Store(c.readBuf, 0, p.packet)))
  {
    hide PacketReader.ReadPacket, ReadInto, Store;
    ReadIntoPacket(c.wire, c.readBuf);
    assert ({TlsRead} - {TlsRead}) == {};
  }

  /** The wait in the callback reads the message on "b" and then the PUBACK. */
  lemma WaitReadsBoth(c: Client, was: Buffer, left: nat)
    requires Easy(c) && c.wire == At(0, 0) && left >= 2 && c.readBuf == was
    ensures var w := Wait(BOTH, c, PUBACK, left, 0);
            w.rc == Success && Easy(w.c) && w.c.state == c.state && w.c.calls == c.calls && w.c.faults == c.faults
            && w.c.readBuf == Store(Store(was, 0, [48, 3, 0, 1, 98]), 0, [64, 2, 0, 2])
  {
    hide PacketReader.ReadPacket, Fetch, Handle, Store, HoldsFrame, Wait, Onward;
    FirstPacket();
    SecondPacket();
    var b := Store(was, 0, [48, 3, 0, 1, 98]);
    var c1 := c.(wire := At(5, 3), readBuf := b);
    EasyFetch(c, PacketRead(Success, [48, 3, 0, 1, 98], At(5, 3), false));
    FrontByte(was, [48, 3, 0, 1, 98]);
    HandleB(c1, was, left - 1);
    FetchOnward(c);
    assert Cycle(BOTH, c, left - 1, 0) == Cycled(Success, true, PUBLISH, left - 1, c1);
    var c2 := c1.(wire := At(9, 6), readBuf := Store(b, 0, [64, 2, 0, 2]));
    EasyFetch(c1, PacketRead(Success, [64, 2, 0, 2], At(9, 6), false));
    FrontByte(b, [64, 2, 0, 2]);
    FetchOnward(c1);
    assert Cycle(BOTH, c1, left - 2, PUBLISH) == Cycled(Success, true, PUBACK, left - 2, c2);
    WaitTwice(c, c1, c2, left);
  }

  lemma FrontByte(was: Buffer, p: seq<byte>)
    requires 0 < |p| <= 5
    ensures Store(was, 0, p)[0] == p[0]
  {
  }

  lemma WaitTwice(c: Client, c1: Client, c2: Client, left: nat)
    requires left >= 2
    requires Cycle(BOTH, c, left - 1, 0) == Cycled(Success, true, PUBLISH, left - 1, c1)
    requires Cycle(BOTH, c1, left - 2, PUBLISH) == Cycled(Success, true, PUBACK, left - 2, c2)
    ensures Wait(BOTH, c, PUBACK, left, 0) == Timed(Success, left - 2, c2)
  {
    hide Cycle, HoldsFrame, Onward;
    assert Wait(BOTH, c1, PUBACK, left - 1, PUBLISH) == Timed(Success, left - 2, c2);
  }

  // ---- The callback

  lemma MessageFits(c: Client)
    ensures MESSAGE.Sendable() && !TooLarge(MESSAGE) && |PacketOf(c, MESSAGE)| == 7
  {
  }

  /** The callback's message is sent. */
  lemma EasySend(c: Client, time: nat)
    requires Easy(c) && c.writes == [Accept(7)] && time >= 3
    ensures MESSAGE.Sendable() && !TooLarge(MESSAGE)
    ensures var s := SendMessage(c, MESSAGE, time);
            && s.rc == Success && s.left >= 2 && Easy(s.c) && s.c.wire == c.wire && s.c.readBuf == c.readBuf
            && s.c.calls == c.calls && s.c.state == c.state && s.c.faults == c.faults
  {
    MessageFits(c);
    PacketFits(c, MESSAGE);
    hide PacketOf, Store;
    var buf := Store(c.writeBuf, 0, PacketOf(c, MESSAGE));
    assert ({TlsWrite} - {TlsWrite}) == {};
    OneWrite(time, buf + c.readBuf);
  }

  lemma OneWrite(time: nat, memory: seq<byte>)
    requires time >= 3 && |memory| >= 14
    ensures var t := Transmit([Accept(7)], time, 7, 0, memory); t.at == 7 && t.left == time - 1
    ensures StaysInside([Accept(7)], time, 7, 0, 1024)
  {
  }

  /** The callback: the receive buffer now begins with the PUBACK, behind which lies the topic "b". */
  lemma CallbackReads(c: Client, was: Buffer)
    requires Easy(c) && c.state == WaitForCbReturn && c.wire == At(0, 0) && c.writes == [Accept(7)]
    requires c.readBuf == was && c.apps == [[Publication(MESSAGE, 9)]]
    ensures var r := Invoke(BOTH, c, 0, [97]);
            && Easy(r) && r.state == c.state && r.faults == c.faults && r.depth == c.depth
            && r.calls == c.calls + [Call(0, [97], WaitForCbReturn, c.depth)]
            && r.readBuf == Store(Store(was, 0, [48, 3, 0, 1, 98]), 0, [64, 2, 0, 2])
  {
    hide SetState, Wait, Store, SendMessage, TooLarge, ParseAck, HoldsFrame, Onward, PacketOf;
    var e := Entered(c, 0, [97]);
    EasyState(e, PublishInProgress);
    var p := e.(state := PublishInProgress);
    EasySend(p, 9);
    var s := SendMessage(p, MESSAGE, 9);
    WaitReadsBoth(s.c, was, s.left);
    var w := Wait(BOTH, s.c, PUBACK, s.left, 0);
    var i := InternalPublish(BOTH, p, MESSAGE, 9);
    assert i.c == w.c;
    EasyState(i.c, WaitForCbReturn);
    var pubs := [Publication(MESSAGE, 9)];
    assert pubs[1..] == [];
    var q := Publish(BOTH, e, MESSAGE, 9).c;
    assert PublishAll(BOTH, q, []) == q;
    assert PublishAll(BOTH, e, pubs) == q;
  }

  /** The delivery of the message on "a" calls the first handler for "a" and not the second. Nothing
      failed, and by the topic of the message both are selected. */
  lemma HandlerMissed(was: Buffer, tx: Buffer)
    ensures var c := Yielding(was, tx);
            var r := Deliver(BOTH, c, 4, 1);
            && HoldsFrame(c.readBuf) && ParsePublish(c.readBuf).rc == Success
            && ParsePublish(c.readBuf).topicOff == 4 && ParsePublish(c.readBuf).topicLen == 1
            && r.rc == Success && !r.c.broken && r.c.faults == 0
            && r.c.calls == [Call(0, [97], WaitForCbReturn, 0)]
            && Slots(SelectedBy(BOTH, Repeat(c.readBuf[4..5], 2), 0)) == [0, 1]
  {
    var c := Yielding(was, tx);
    Tiny(was, 97);
    OnlyA();
    BothSelected();
    hide Selected, SetState, Invoke, Store, HoldsFrame, ParsePublish;
    EasyState(c, WaitForCbReturn);
    var b := c.(state := WaitForCbReturn);
    CallbackReads(b, c.readBuf);
    var t := Invoke(BOTH, b, 0, [97]);
    BehindAck(c.readBuf);
    assert ClientSpec.Turn(BOTH, b, 4, 1, 0) == t;
    assert ClientSpec.Turn(BOTH, t, 4, 1, 1) == t;
    assert DeliverFrom(BOTH, t, 4, 1, 2) == t;
    assert DeliverFrom(BOTH, t, 4, 1, 1) == t;
    assert DeliverFrom(BOTH, b, 4, 1, 0) == t;
    EasyState(t, YieldInProgress);
  }

  lemma BehindAck(was: Buffer)
    ensures Store(Store(was, 0, [48, 3, 0, 1, 98]), 0, [64, 2, 0, 2])[4..5] == [98]
  {
    var x := Store(was, 0, [48, 3, 0, 1, 98]);
    assert x[..5][4] == 98;
    assert Store(x, 0, [64, 2, 0, 2])[4] == x[4];
  }

  lemma BothSelected()
    ensures Slots(SelectedBy(BOTH, Repeat([97], 2), 0)) == [0, 1]
  {
  }

  // ---- A packet that breaks the client

  /** A QoS 1 packet that fills the buffer with its topic: its identifier is read from behind the
      buffer. From there on nothing is said about the client. */
  lemma FullPacketBreaks(hs: seq<Handler>, c: Client, left: nat)
    requires c.readBuf[..5] == [0x32, 253, 7, 3, 251]
    ensures HoldsFrame(c.readBuf) && Handle(hs, c, left).c.broken
    ensures Fits(1021, RX_BUF_LEN)
  {
    FullPacket(c.readBuf);
    hide HoldsFrame, ParsePublish, Deliver;
  }

  lemma FullPacket(buf: Buffer)
    requires buf[..5] == [0x32, 253, 7, 3, 251]
    ensures HoldsFrame(buf) && ParsePublish(buf).rc == Undefined
    ensures Fits(1021, RX_BUF_LEN)
  {
    hide Decode, PrefixLen, Value;
    var f := buf[..5];
    assert buf[0] == f[0] && buf[1] == f[1] && buf[2] == f[2] && buf[3] == f[3] && buf[4] == f[4];
    TwoBytes();
    assert buf[1..] == Encode(1021) + buf[3..];
    EncodeDecode(1021, buf[3..]);
    hide Encode;
  }

  lemma TwoBytes()
    ensures Encode(1021) == [253, 7]
  {
  }

  /** A packet of 600 bytes of which the stack takes 500 and then all it is offered again, 76 bytes of
      that from behind the transmit buffer. */
  lemma OvershootBreaks(c: Client, left: nat)
    requires Easy(c) && c.writes == [Accept(500), Accept(600)] && left >= 2
    ensures Send(c, 600, left).c.broken
  {
    assert [Accept(500), Accept(600)][1..] == [Accept(600)];
    assert !StaysInside([Accept(600)], left - 1, 600, 500, 1024);
    hide Transmit;
  }
}
