/**
 What each operation of the client answers, and what it leaves behind, in terms of what its
 environment did: the answers of the TLS layer, the mutexes and the timer.
*/
module ClientCodes {
  import opened Bytes
  import opened Network
  import opened RemainingLength
  import opened PacketReader
  import opened PublishPacket
  import opened ClientStates
  import opened Transmission
  import opened ClientSpec
  import opened ClientLaws

  // ---- A cycle

  /** The client after a read under the mutex, whatever came of it. */
  function AfterRead(c: Client): Client {
    var p, unlocked := PacketReader.ReadPacket(c.wire, RX_BUF_LEN), Granted(Rest(c.locks));
    c.(wire := p.wire, readBuf := ReadInto(c.wire, c.readBuf), locks := Rest(Rest(c.locks)),
       held := if unlocked then c.held else c.held + {TlsRead},
       faults := c.faults + if unlocked then 0 else 1,
       lost := c.lost || !Framed(p), broken := c.broken || p.rc == Undefined)
  }

  /** cycle_read, for every stream, every mutex behaviour and every packet type. Without the mutex it
      answers so and has done nothing. If it reads no packet it answers success when there was none
      and the mutex was released, a mutex error when there was none and the mutex was not released,
      and the reader's own code otherwise. If it reads one and cannot release the mutex it says so and
      does no more. Otherwise the type decides: a publish packet is handled, a PINGRESP ends the
      waiting for one, the other six types the client knows need nothing, and the rest are invalid. */
  lemma CycleExact(hs: seq<Handler>, c: Client, left: nat, typeBefore: nat)
    ensures var r, p := Cycle(hs, c, left, typeBefore), PacketReader.ReadPacket(c.wire, RX_BUF_LEN);
            var after := AfterRead(c);
            var locked, unlocked := TlsRead !in c.held && Granted(c.locks), Granted(Rest(c.locks));
            && (!locked ==>
                  r == Cycled(MutexLockError, false, typeBefore, left,
                              c.(locks := Rest(c.locks), faults := c.faults + 1)))
            && (locked && p.rc == MqttNothingToRead ==>
                  r == Cycled(if unlocked then Success else MutexLockError, false, typeBefore, left, after))
            && (locked && p.rc != MqttNothingToRead && p.rc != Success ==>
                  r == Cycled(p.rc, false, typeBefore, left, after))
            && (locked && p.rc == Success ==>
                  && r.read && r.packetType == PacketType(p.packet[0])
                  && HoldsFrame(after.readBuf)
                  && (!unlocked ==> r.rc == MutexLockError && r.left == left && r.c == after)
                  && (unlocked && r.packetType == PUBLISH ==>
                        Timed(r.rc, r.left, r.c) == Handle(hs, after, left))
                  && (unlocked && r.packetType == PINGRESP ==>
                        r.rc == Success && r.left == left && r.c == after.(pinging := false))
                  && (unlocked && r.packetType in [2, 4, 5, 7, 9, 11] ==>
                        r.rc == Success && r.left == left && r.c == after)
                  && (unlocked && r.packetType !in [2, 3, 4, 5, 7, 9, 11, 13] ==>
                        r.rc == PacketTypeInvalid && r.left == left && r.c == after))
  {
    hide HoldsFrame, PacketType, ReadInto, Handle, Onward, PacketReader.ReadPacket, Framed;
    FetchIs(c);
    FetchOnward(c);
    hide Fetch;
  }

  lemma FetchIs(c: Client)
    ensures var f, p, after := Fetch(c), PacketReader.ReadPacket(c.wire, RX_BUF_LEN), AfterRead(c);
            var locked, unlocked := TlsRead !in c.held && Granted(c.locks), Granted(Rest(c.locks));
            && (!locked ==>
                  f == Fetched(MutexLockError, false, false, c.(locks := Rest(c.locks), faults := c.faults + 1)))
            && (locked ==>
                  && f.c == after && f.read == (p.rc == Success) && f.due == (p.rc == Success && unlocked)
                  && f.rc == (if p.rc != MqttNothingToRead && p.rc != Success then p.rc
                              else if unlocked then Success else MutexLockError))
  {
    hide PacketReader.ReadPacket, ReadInto, Framed;
    assert TlsRead !in c.held ==> c.held + {TlsRead} - {TlsRead} == c.held;
  }

  // ---- Sending

  /** The write mutex, over one call of send_packet. */
  predicate WriteGranted(c: Client) {
    TlsWrite !in c.held && Granted(c.locks) && Granted(Rest(c.locks))
  }

  /** The code of send_packet, for every stack. With one that never passes an error off as a count it
      is success exactly if as many bytes were sent as the packet has. With one that takes the
      remainder each time, and as many questions to the timer as there are bytes, the packet is sent. */
  lemma SendExact(c: Client, length: nat, left: nat)
    requires length < TX_BUF_LEN
    ensures var r := Send(c, length, left);
            && (c.broken ==> r.c.broken)
            && r.rc == (if !WriteGranted(c) then MutexLockError
                        else if Transmit(c.writes, left, length, 0, c.writeBuf + c.readBuf).at == length then Success
                        else Failure)
            && (c.Honest() && !r.c.broken ==>
                  && c.outgoing <= r.c.outgoing
                  && r.rc == (if !WriteGranted(c) then MutexLockError
                              else if |r.c.outgoing| == |c.outgoing| + length then Success else Failure)
                  && (r.rc == Success ==> r.c.outgoing == c.outgoing + c.writeBuf[..length]))
            && (TakesRemainder(c.writes, length) && left >= length && WriteGranted(c) ==>
                  && r.rc == Success && r.c.outgoing == c.outgoing + c.writeBuf[..length] && r.c.broken == c.broken
                  && r.left >= left - length)
  {
    hide Transmit, StaysInside, NoRewind, NeverNegative, TakesRemainder;
    SendSound(c, length, left);
    var memory := c.writeBuf + c.readBuf;
    if TakesRemainder(c.writes, length) && left >= length {
      TransmitCompletes(c.writes, left, length, 0, memory);
      InsideExactly(c.writes, left, length, 0, memory, TX_BUF_LEN);
      assert memory[0..length] == c.writeBuf[..length];
    }
  }

  /** What send_packet uses up and what it leaves alone: the answers of the stack and the questions to
      the timer are those of the loop, one mutex call is made without the mutex and two with it, and
      none for a packet that is too long. */
  lemma SendLeaves(c: Client, length: nat, left: nat)
    ensures var r := Send(c, length, left);
            var locked := TlsWrite !in c.held && Granted(c.locks);
            && r.c == c.(writes := r.c.writes, outgoing := r.c.outgoing, broken := r.c.broken,
                         locks := r.c.locks, held := r.c.held, faults := r.c.faults)
            && (length >= TX_BUF_LEN ==> r == Timed(TxBufferTooShort, left, c))
            && (length < TX_BUF_LEN && !locked ==>
                  r == Timed(MutexLockError, left, c.(locks := Rest(c.locks), faults := c.faults + 1)))
            && (length < TX_BUF_LEN && locked ==>
                  var t := Transmit(c.writes, left, length, 0, c.writeBuf + c.readBuf);
                  var unlocked := Granted(Rest(c.locks));
                  && Spent(c.writes, left, length, t) && r.c.writes == t.writes && r.left == t.left
                  && r.c.locks == Rest(Rest(c.locks))
                  && r.c.held == (if unlocked then c.held else c.held + {TlsWrite})
                  && r.c.faults == c.faults + if unlocked then 0 else 1)
  {
    hide Transmit, StaysInside, Spent;
    if length < TX_BUF_LEN {
      TransmitEnds(c.writes, left, length, 0, c.writeBuf + c.readBuf);
      assert TlsWrite !in c.held ==> c.held + {TlsWrite} - {TlsWrite} == c.held;
    }
  }

  // ---- Handling a publish packet

  /** handle_publish on whatever packet is in the buffer, for every behaviour around it. A packet that
      does not parse, a delivery that fails and a message at QoS 0 end it there. Otherwise a PUBACK
      is due: with a stack that never passes an error off as a count the code is a mutex error
      exactly if the write mutex is missed or kept, and else success exactly if four bytes were sent.
      It is success if the stack takes the remainder of four bytes and the timer may be asked four
      times. And the bytes sent last are then, whatever follows them in a receiver's buffer, an
      acknowledgement with the identifier of the message. */
  lemma HandleExact(hs: seq<Handler>, c: Client, left: nat, stale: seq<byte>)
    requires HoldsFrame(c.readBuf) && stale != []
    ensures var r, p := Handle(hs, c, left), ParsePublish(c.readBuf);
            && (p.rc != Success ==> r == Timed(p.rc, left, c.(broken := c.broken || p.rc == Undefined)))
            && (p.rc == Success ==>
                  var d := Deliver(hs, c, p.topicOff, p.topicLen);
                  && (d.rc != Success || p.qos == 0 ==> r == Timed(d.rc, left, d.c))
                  && (d.rc == Success && p.qos > 0 && c.Honest() && !r.c.broken ==>
                        && d.c.outgoing <= r.c.outgoing
                        && r.rc == (if !WriteGranted(d.c) then MutexLockError
                                    else if |r.c.outgoing| == |d.c.outgoing| + 4 then Success else Failure)
                        && (r.rc == Success ==> Acknowledges(r.c.outgoing[|d.c.outgoing|..] + stale, p.id)))
                  && (&& d.rc == Success && p.qos > 0 && WriteGranted(d.c)
                      && TakesRemainder(d.c.writes, 4) && left >= 4 ==>
                        && r.rc == Success && r.c.broken == d.c.broken
                        && d.c.outgoing <= r.c.outgoing && |r.c.outgoing| == |d.c.outgoing| + 4
                        && Acknowledges(r.c.outgoing[|d.c.outgoing|..] + stale, p.id)))
  {
    hide HoldsFrame, ParsePublish, Deliver, PubackBytes, Store, Send, NeverNegative, TakesRemainder, Acknowledges;
    var p := ParsePublish(c.readBuf);
    if p.rc == Success {
      var d := Deliver(hs, c, p.topicOff, p.topicLen);
      if d.rc == Success && p.qos > 0 {
        var w := d.c.(writeBuf := Store(d.c.writeBuf, 0, PubackBytes(p.id)));
        FrontStored(d.c.writeBuf, PubackBytes(p.id));
        PubackAcknowledges(p.id, stale);
        SendExact(w, 4, left);
        DeliverHonest(hs, c, p.topicOff, p.topicLen, w, Send(w, 4, left).c);
        SentLast(d.c.outgoing, PubackBytes(p.id));
      }
    }
  }

  lemma SentLast(a: seq<byte>, b: seq<byte>)
    ensures (a + b)[|a|..] == b
  {
  }

  lemma DeliverHonest(hs: seq<Handler>, c: Client, off: nat, len: nat, w: Client, r: Client)
    requires off + len <= RX_BUF_LEN
    requires var d := Deliver(hs, c, off, len).c; w == d.(writeBuf := w.writeBuf)
    requires w.broken ==> r.broken
    ensures c.Honest() && !r.broken ==> w.Honest()
  {
    hide Deliver, Send, NeverNegative;
    DeliverLater(hs, c, off, len);
    HonestStays(c, Deliver(hs, c, off, len).c, w);
  }

  /** The buffer begins with a PUBACK for this identifier, as its receiver reads it. */
  predicate Acknowledges(buf: seq<byte>, id: uint16) {
    HoldsFrame(buf) && buf[0] == 0x40 && ParseAck(buf) == Ack(PUBACK, false, id)
  }

  lemma PubackAcknowledges(id: uint16, stale: seq<byte>)
    requires stale != []
    ensures Acknowledges(PubackBytes(id) + stale, id)
  {
    hide HoldsFrame, ParseAck;
    AckRoundTrip(id, stale);
  }

  // ---- Publishing

  /** The message that is to go out: as the caller gives it, never marked as a duplicate, and with QoS 1
      under the identifier that follows the last one. */
  function AsSent(msg: Message, lastId: uint16): Message {
    Message(false, msg.qos, msg.retained, if msg.qos == 1 then NextId(lastId) else msg.id, msg.topic, msg.payload)
  }

  /** The states in which publish begins, and those in which it says that the client is not idle. */
  predicate Ready(s: ClientState) {
    s == ConnectedIdle || s == WaitForCbReturn
  }

  predicate Busy(s: ClientState) {
    s.YieldInProgress? || s.PublishInProgress? || s.SubscribeInProgress? || s.UnsubscribeInProgress?
    || s.ResubscribeInProgress?
  }

  /** The client once publish has taken the state. */
  function Started(c: Client): Client {
    c.(state := PublishInProgress, locks := Rest(Rest(c.locks)))
  }

  /** And when the packet lies in the transmit buffer, with its identifier used up. */
  function Loaded(c: Client, out: Message, bytes: seq<byte>): Client
    requires |bytes| <= TX_BUF_LEN
  {
    Started(c).(lastId := if out.qos == 1 then out.id else c.lastId, writeBuf := Store(c.writeBuf, 0, bytes))
  }

  /** publish around the inner function. A refusal depends on the topic and the state and changes
      nothing; without the mutex nothing but the state changes; otherwise the state is put back, and
      that may fail. */
  lemma PublishAround(hs: seq<Handler>, c: Client, msg: Message, time: nat)
    requires msg.Sendable()
    ensures var r := Publish(hs, c, msg, time);
            var refusal := if msg.topic == [] then NullValue
                           else if Ready(c.state) then Success
                           else if Busy(c.state) then ClientNotIdle else NetworkDisconnected;
            var taken := StateChange !in c.held && Granted(c.locks) && Granted(Rest(c.locks));
            && (refusal != Success ==> r == Out(refusal, c))
            && (refusal == Success && !taken ==>
                  r.rc == MutexLockError && StateOnly(c, r.c) && r.c.faults == c.faults + 1)
            && (refusal == Success && taken ==>
                  var p := InternalPublish(hs, Started(c), msg, time);
                  var back := SetState(p.c, PublishInProgress, c.state);
                  r == Out(if p.rc == Success then back.rc else p.rc, back.c))
  {
    StateTaken(c);
    hide InternalPublish, SetState, StateOnly;
  }

  lemma StateTaken(c: Client)
    ensures var e := SetState(c, c.state, PublishInProgress);
            if StateChange !in c.held && Granted(c.locks) && Granted(Rest(c.locks)) then e == Out(Success, Started(c))
            else e.rc == MutexLockError && StateOnly(c, e.c) && e.c.faults == c.faults + 1
  {
    SetStateIs(c, c.state, PublishInProgress);
    assert StateChange !in c.held ==> c.held + {StateChange} - {StateChange} == c.held;
  }

  /** The code of taking an acknowledgement apart. */
  function AckCode(buf: seq<byte>): Rc
    requires HoldsFrame(buf)
  {
    match ParseAck(buf)
    case NoAck(rc) => rc
    case Ack(_, _, _) => Success
  }

  /** The inner function up to the moment at which the packet has been sent: a packet as large as the
      buffer, or larger, uses up an identifier and is not sent. */
  lemma InnerSends(hs: seq<Handler>, c: Client, msg: Message, time: nat)
    requires msg.Sendable()
    ensures var r, out := InternalPublish(hs, Started(c), msg, time), AsSent(msg, c.lastId);
            var bytes := out.Packet().Bytes();
            && (|bytes| >= TX_BUF_LEN ==>
                  && r.rc == TxBufferTooShort && r.c.outgoing == c.outgoing && r.c.wire == c.wire
                  && r.c.lastId == (if msg.qos == 1 then out.id else c.lastId))
            && (|bytes| < TX_BUF_LEN ==>
                  var s := Send(Loaded(c, out, bytes), |bytes|, time);
                  && (s.rc != Success || msg.qos == 0 ==> r == Out(s.rc, s.c))
                  && (s.rc == Success && msg.qos == 1 ==>
                        var w := Wait(hs, s.c, PUBACK, s.left, 0);
                        && r.c == w.c && (w.rc != Success ==> r.rc == w.rc)
                        && (w.rc == Success ==>
                              && HoldsFrame(w.c.readBuf)
                              && r.rc == AckCode(w.c.readBuf))))
  {
    var e, out := Started(c), AsSent(msg, c.lastId);
    SamePacketOut(e, msg);
    TooLargeExactly(e, msg);
    if !TooLarge(msg) {
      MessageTooLong(e, msg, time);
    }
    hide TooLarge, Wait, ParseAck, HoldsFrame, Send, Store, PacketOf, AsSent;
  }

  lemma SamePacketOut(c: Client, msg: Message)
    requires msg.Sendable()
    ensures PacketOf(c, msg) == AsSent(msg, c.lastId).Packet().Bytes()
  {
    assert Outgoing(msg, c.lastId) == AsSent(msg, c.lastId);
  }

  /** What the parser of acknowledgements makes of a packet that the reader has put in the buffer. */
  lemma AckOfPacket(w: Wire, was: seq<byte>)
    requires |was| == RX_BUF_LEN && PacketReader.ReadPacket(w, RX_BUF_LEN).rc == Success
    ensures var packet := PacketReader.ReadPacket(w, RX_BUF_LEN).packet;
            var buf := Store(was, 0, packet);
            && HoldsFrame(buf)
            && (if |packet| < 4 then ParseAck(buf) == NoAck(Failure) else ParseAck(buf).Ack?)
  {
    hide PacketReader.ReadPacket, Encode, ParseAck, HoldsFrame;
    var packet := PacketReader.ReadPacket(w, RX_BUF_LEN).packet;
    PacketHoldsFrame(w, was, Store(was, 0, packet));
    var h, body := PacketShape(w, RX_BUF_LEN);
    ShortLength(|body|);
    AckFields(h, body, was[|packet|..]);
    assert Store(was, 0, packet) == [h] + Encode(|body|) + body + was[|packet|..];
  }

  lemma ShortLength(n: nat)
    requires n < RX_BUF_LEN
    ensures |Encode(n)| == if n < 128 then 1 else 2
  {
  }

  /** Waiting for the PUBACK and taking it apart, for every stream and every behaviour of mutexes and
      callbacks: a timeout exactly if no cycle read a PUBACK; a mutex error, and a mutex call has
      failed, if the cycle that read it ended with one; a failure if the packet has no room for an
      identifier; and else success, whatever identifier it carries. */
  lemma AckExact(hs: seq<Handler>, c: Client, left: nat)
    ensures var w, runs := Wait(hs, c, PUBACK, left, 0), Cycles(hs, c, PUBACK, left, 0);
            !w.c.broken ==>
              if forall run <- runs :: !Got(run, PUBACK) then w.rc == RequestTimeout && w.left == 0
              else
                var last := runs[|runs| - 1];
                var p := PacketReader.ReadPacket(last.before.wire, RX_BUF_LEN);
                && Got(last, PUBACK) && w.c == last.out.c && w.rc == last.out.rc
                && (w.rc == Success || (w.rc == MutexLockError && w.c.faults > c.faults))
                && p.rc == Success && HoldsFrame(w.c.readBuf)
                && (if |p.packet| < 4 then ParseAck(w.c.readBuf) == NoAck(Failure) else ParseAck(w.c.readBuf).Ack?)
  {
    hide Wait, Cycles, Cycle, Later, HoldsFrame, ParseAck, PacketReader.ReadPacket, Store, Onward, Got;
    WaitExact(hs, c, PUBACK, left, 0);
    WaitSound(hs, c, PUBACK, left);
    var w, runs := Wait(hs, c, PUBACK, left, 0), Cycles(hs, c, PUBACK, left, 0);
    if !w.c.broken && w.rc != RequestTimeout {
      var last := runs[|runs| - 1];
      assert last in runs && IsCycle(hs, last);
      GotLast(hs, last, w.c);
      AckOfPacket(last.before.wire, last.before.readBuf);
    }
  }

  lemma GotLast(hs: seq<Handler>, last: CycleRun, end: Client)
    requires IsCycle(hs, last) && Got(last, PUBACK) && last.out.c == end && !end.broken
    ensures var p := PacketReader.ReadPacket(last.before.wire, RX_BUF_LEN);
            p.rc == Success && end.readBuf == Store(last.before.readBuf, 0, p.packet)
  {
    hide Cycle, PacketReader.ReadPacket, Store;
    CycleReads(hs, last.before, last.left, last.typeBefore);
  }

  /** publish at any depth, for every behaviour of stream, stack, mutexes, timer and callbacks: its code
      and how it comes about. A refusal depends on the topic and the state and changes nothing. Without
      the mutex nothing but the state changes. A packet as large as the buffer, or larger, is not sent
      and uses up an identifier. Otherwise the packet is sent, and where that fails the code is that of
      sending. With QoS 0 that is all; with QoS 1 the cycles that wait for a PUBACK decide. In the end
      the state is put back, and if that fails after success the call says so. */
  lemma PublishExact(hs: seq<Handler>, c: Client, msg: Message, time: nat)
    requires msg.Sendable()
    ensures var r, out := Publish(hs, c, msg, time), AsSent(msg, c.lastId);
            var bytes := out.Packet().Bytes();
            var refusal := if msg.topic == [] then NullValue
                           else if Ready(c.state) then Success
                           else if Busy(c.state) then ClientNotIdle else NetworkDisconnected;
            var taken := StateChange !in c.held && Granted(c.locks) && Granted(Rest(c.locks));
            if refusal != Success then r == Out(refusal, c)
            else if !taken then r.rc == MutexLockError && StateOnly(c, r.c) && r.c.faults == c.faults + 1
            else if |bytes| >= TX_BUF_LEN then
              && r.rc == TxBufferTooShort && r.c.outgoing == c.outgoing && r.c.wire == c.wire
              && r.c.lastId == (if msg.qos == 1 then out.id else c.lastId)
            else
              var s := Send(Loaded(c, out, bytes), |bytes|, time);
              if s.rc != Success then r == Out(s.rc, SetState(s.c, PublishInProgress, c.state).c)
              else if msg.qos == 0 then r == SetState(s.c, PublishInProgress, c.state)
              else
                && r.c.broken == Wait(hs, s.c, PUBACK, s.left, 0).c.broken
                && (!r.c.broken ==> Answered(Cycles(hs, s.c, PUBACK, s.left, 0), s.c, c.state, r))
  {
    hide Publish, InternalPublish, Wait, Cycles, Send, SetState, HoldsFrame, ParseAck, Loaded, StateOnly, Answered;
    PublishAround(hs, c, msg, time);
    InnerSends(hs, c, msg, time);
    var out := AsSent(msg, c.lastId);
    var bytes := out.Packet().Bytes();
    var p := InternalPublish(hs, Started(c), msg, time);
    var back := SetState(p.c, PublishInProgress, c.state);
    SetStateIs(p.c, PublishInProgress, c.state);
    StateLeaves(p.c, back.c);
    if |bytes| < TX_BUF_LEN {
      var s := Send(Loaded(c, out, bytes), |bytes|, time);
      if s.rc == Success && msg.qos == 1 {
        AnswerIs(hs, s.c, s.left, c.state, p, Out(if p.rc == Success then back.rc else p.rc, back.c));
      }
    }
  }

  lemma AnswerIs(hs: seq<Handler>, sent: Client, left: nat, state: ClientState, p: Out, r: Out)
    requires var w := Wait(hs, sent, PUBACK, left, 0);
             && p.c == w.c && (w.rc != Success ==> p.rc == w.rc)
             && (w.rc == Success ==>
                   && HoldsFrame(w.c.readBuf)
                   && p.rc == AckCode(w.c.readBuf))
    requires var back := SetState(p.c, PublishInProgress, state);
             r == Out(if p.rc == Success then back.rc else p.rc, back.c)
    ensures r.c.broken == p.c.broken && (!r.c.broken ==> Answered(Cycles(hs, sent, PUBACK, left, 0), sent, state, r))
  {
    hide Wait, Cycles, SetState, HoldsFrame, ParseAck, Onward, Got, PacketReader.ReadPacket, StateOnly;
    AckExact(hs, sent, left);
    SetStateIs(p.c, PublishInProgress, state);
    StateLeaves(p.c, r.c);
  }

  lemma StateLeaves(a: Client, b: Client)
    requires StateOnly(a, b)
    ensures b.outgoing == a.outgoing && b.wire == a.wire && b.lastId == a.lastId && b.broken == a.broken
    ensures b.calls == a.calls && a.faults <= b.faults
  {
  }

  /** `r` is how a QoS 1 publish ends that found the client in `state`, and whose cycles from `sent` on
      are `runs`. */
  ghost predicate Answered(runs: seq<CycleRun>, sent: Client, state: ClientState, r: Out) {
    if forall run <- runs :: !Got(run, PUBACK) then
      r.rc == RequestTimeout
    else
      var last := runs[|runs| - 1];
      var p := PacketReader.ReadPacket(last.before.wire, RX_BUF_LEN);
      var back := SetState(last.out.c, PublishInProgress, state);
      && Got(last, PUBACK) && p.rc == Success && r.c == back.c
      && (last.out.rc != Success ==> r.rc == MutexLockError && r.c.faults > sent.faults)
      && (last.out.rc == Success && |p.packet| < 4 ==> r.rc == Failure)
      && (last.out.rc == Success && |p.packet| >= 4 ==> r.rc == back.rc)
  }

  /** What goes out, for every behaviour around the call, with a stack that never passes an error off as
      a count: success means that the packet of the caller's message was sent first, with its topic,
      payload, QoS and retain flag, without the duplicate flag, and with QoS 1 under the identifier
      that follows the last one. With QoS 0 nothing else was sent. And the client is back in the state
      it was in. */
  lemma PublishSends(hs: seq<Handler>, c: Client, msg: Message, time: nat)
    requires msg.Sendable() && c.Honest()
    ensures var r := Publish(hs, c, msg, time);
            var m := Message(false, msg.qos, msg.retained, if msg.qos == 1 then NextId(c.lastId) else msg.id,
                             msg.topic, msg.payload);
            r.rc == Success && !r.c.broken ==>
              && c.outgoing + m.Packet().Bytes() <= r.c.outgoing
              && (msg.qos == 0 ==> r.c.outgoing == c.outgoing + m.Packet().Bytes())
              && |m.Packet().Bytes()| < TX_BUF_LEN && r.c.state == c.state
  {
    hide Publish, TooLarge, SendMessage, Cycles, Later, ReadLast, PacketOf, NeverNegative, SetState, Send, Answered;
    PublishSound(hs, c, msg, time);
    PublishExact(hs, c, msg, time);
    SamePacketOut(c, msg);
    PublishRestores(hs, c, msg, time);
    var r, bytes := Publish(hs, c, msg, time), AsSent(msg, c.lastId).Packet().Bytes();
    assert r.rc == Success && !r.c.broken ==> |bytes| < TX_BUF_LEN;
    if r.rc == Success && !r.c.broken && msg.qos == 0 {
      var s := Send(Loaded(c, AsSent(msg, c.lastId), bytes), |bytes|, time);
      SetStateIs(s.c, PublishInProgress, c.state);
      StateLeaves(s.c, r.c);
      FrontStored(c.writeBuf, bytes);
      SendExact(Loaded(c, AsSent(msg, c.lastId), bytes), |bytes|, time);
    }
  }

  lemma PublishRestores(hs: seq<Handler>, c: Client, msg: Message, time: nat)
    requires msg.Sendable()
    ensures var r := Publish(hs, c, msg, time); r.rc == Success ==> r.c.state == c.state
  {
    hide InternalPublish, SetState;
    var e := SetState(c, c.state, PublishInProgress);
    if e.rc == Success {
      SetStateIs(InternalPublish(hs, e.c, msg, time).c, PublishInProgress, c.state);
    }
  }

  /** From one client to another: what the first has sent since it was asked to publish lies on the
      stream of the second. Then its reader, if it succeeds, and it does if the TLS layer hands over a
      byte each time, takes the message's packet, and the parser makes of it the message that the
      caller gave. */
  lemma PublishReaches(hs: seq<Handler>, c: Client, msg: Message, time: nat, w: Wire, was: seq<byte>)
    requires msg.Sendable() && c.Honest() && |was| == RX_BUF_LEN
    requires var r := Publish(hs, c, msg, time);
             && r.rc == Success && !r.c.broken && c.outgoing <= r.c.outgoing
             && r.c.outgoing[|c.outgoing|..] <= w.stream[w.pos..]
    ensures var p, buf := PacketReader.ReadPacket(w, RX_BUF_LEN), ReadInto(w, was);
            var id := if msg.qos == 1 then NextId(c.lastId) else 0;
            && (Flowing(w, |Publish(hs, c, msg, time).c.outgoing| - |c.outgoing|) ==> p.rc == Success)
            && (p.rc == Success ==>
                  && HoldsFrame(buf) && ParsePublish(buf).rc == Success
                  && var q := ParsePublish(buf);
                     && q.payloadOff + q.payloadLen <= |buf|
                     && View(buf, q) == Message(false, msg.qos, msg.retained, id, msg.topic, msg.payload))
  {
    hide Publish, PacketReader.ReadPacket, ReadInto, NeverNegative, ParsePublish, HoldsFrame, View, Flowing;
    PublishSends(hs, c, msg, time);
    var r, m := Publish(hs, c, msg, time), AsSent(msg, c.lastId);
    var sent := r.c.outgoing[|c.outgoing|..];
    assert m.Packet().Bytes() <= sent by {
      assert c.outgoing + m.Packet().Bytes() <= r.c.outgoing;
    }
    SmallPacket(m, w, |sent| - |m.Packet().Bytes()|);
    PublishArrives(m, w, was);
    if PacketReader.ReadPacket(w, RX_BUF_LEN).rc == Success {
      ReadIntoPacket(w, was);
    }
  }

  /** A packet smaller than the buffer is read if the TLS layer makes progress. */
  lemma SmallPacket(m: Message, w: Wire, spare: nat)
    requires m.Sendable() && |m.Packet().Bytes()| < RX_BUF_LEN && m.Packet().Bytes() <= w.stream[w.pos..]
    ensures |m.Body()| <= MAX_REMAINING_LENGTH
    ensures Flowing(w, |m.Packet().Bytes()| + spare) ==> PacketReader.ReadPacket(w, RX_BUF_LEN).rc == Success
  {
    hide PacketReader.ReadPacket, Encode, Flowing;
    var h, body := Header(PUBLISH, m.dup, m.qos, m.retained), m.Body();
    EncodeMeans(|body|);
    if Flowing(w, |m.Packet().Bytes()| + spare) {
      ReadOnePacketFlows(w, h, Encode(|body|), body, RX_BUF_LEN, spare);
    }
  }

  /** And it does get there: with all mutexes free and granted, a stack that takes the remainder each
      time, and one more question to the timer than the packet has bytes, a QoS 0 publish succeeds. So
      does a QoS 1 publish if the next packet on the stream is a PUBACK with room for an identifier
      and the TLS layer hands over a byte each time. Nothing but the message's packet is sent. */
  lemma PublishSucceeds(hs: seq<Handler>, c: Client, msg: Message, time: nat, h: byte, lb: seq<byte>, body: seq<byte>)
    requires msg.Sendable() && msg.topic != [] && Ready(c.state) && c.locks == [] && c.held == {} && !c.broken
    requires var n := |AsSent(msg, c.lastId).Packet().Bytes()|;
             n < TX_BUF_LEN && TakesRemainder(c.writes, n) && time > n
    requires msg.qos == 1 ==>
               && Next(c.wire, h, lb, body) && PacketType(h) == PUBACK && |body| >= 2 && Fits(|body|, RX_BUF_LEN)
               && Flowing(c.wire, 1 + |lb| + |body|)
    ensures var r := Publish(hs, c, msg, time);
            && r.rc == Success && r.c.state == c.state && r.c.held == {} && r.c.calls == c.calls
            && r.c.outgoing == c.outgoing + AsSent(msg, c.lastId).Packet().Bytes()
            && r.c.lastId == (if msg.qos == 1 then NextId(c.lastId) else c.lastId)
            && (msg.qos == 1 ==> r.c.wire.pos == c.wire.pos + 1 + |lb| + |body|)
  {
    hide Publish, SetState, Send, Wait, Cycles, Answered, Next, Fits, Flowing, TakesRemainder;
    PublishExact(hs, c, msg, time);
    var out := AsSent(msg, c.lastId);
    var bytes := out.Packet().Bytes();
    var l := Loaded(c, out, bytes);
    FrontStored(c.writeBuf, bytes);
    SendExact(l, |bytes|, time);
    SendLeaves(l, |bytes|, time);
    var s := Send(l, |bytes|, time);
    if msg.qos == 0 {
      RestoreGranted(s.c, c.state);
    } else {
      AckEnds(hs, s.c, s.left, c.state, h, lb, body, Publish(hs, c, msg, time));
    }
  }

  lemma AckEnds(hs: seq<Handler>, c: Client, left: nat, state: ClientState,
                h: byte, lb: seq<byte>, body: seq<byte>, r: Out)
    requires c.locks == [] && c.held == {} && !c.broken && c.state == PublishInProgress && left > 0
    requires Next(c.wire, h, lb, body) && PacketType(h) == PUBACK && |body| >= 2 && Fits(|body|, RX_BUF_LEN)
    requires Flowing(c.wire, 1 + |lb| + |body|)
    requires !r.c.broken ==> Answered(Cycles(hs, c, PUBACK, left, 0), c, state, r)
    requires r.c.broken ==> Wait(hs, c, PUBACK, left, 0).c.broken
    ensures r.rc == Success && r.c == c.(wire := r.c.wire, readBuf := r.c.readBuf, state := state)
    ensures r.c.wire.pos == c.wire.pos + 1 + |lb| + |body|
  {
    hide Cycles, Cycle, SetState, Next, Fits, Flowing, PacketReader.ReadPacket, Wait, Answered;
    CycleGetsAck(hs, c, left - 1, h, lb, body);
    OneCycle(hs, c, left, PUBACK);
    var run := CycleRun(c, left - 1, 0, Cycle(hs, c, left - 1, 0));
    RestoreGranted(run.out.c, state);
    if !r.c.broken {
      AnsweredOnce(run, c, state, r);
    }
  }

  lemma AnsweredOnce(run: CycleRun, c: Client, state: ClientState, r: Out)
    requires Answered([run], c, state, r) && Got(run, PUBACK) && run.out.rc == Success
    requires |PacketReader.ReadPacket(run.before.wire, RX_BUF_LEN).packet| >= 4
    ensures r == SetState(run.out.c, PublishInProgress, state)
  {
    hide SetState, PacketReader.ReadPacket;
    assert run in [run];
  }

  lemma RestoreGranted(c: Client, state: ClientState)
    requires c.locks == [] && c.held == {} && c.state == PublishInProgress
    ensures SetState(c, PublishInProgress, state) == Out(Success, c.(state := state))
  {
    assert c.held + {StateChange} - {StateChange} == c.held;
  }

  /** A cycle that meets such a PUBACK. */
  lemma CycleGetsAck(hs: seq<Handler>, c: Client, left: nat, h: byte, lb: seq<byte>, body: seq<byte>)
    requires c.locks == [] && c.held == {} && !c.broken
    requires Next(c.wire, h, lb, body) && PacketType(h) == PUBACK && |body| >= 2 && Fits(|body|, RX_BUF_LEN)
    requires Flowing(c.wire, 1 + |lb| + |body|)
    ensures var r, p := Cycle(hs, c, left, 0), PacketReader.ReadPacket(c.wire, RX_BUF_LEN);
            && r == Cycled(Success, true, PUBACK, left, c.(wire := r.c.wire, readBuf := r.c.readBuf))
            && r.c.wire.pos == c.wire.pos + 1 + |lb| + |body|
            && p.rc == Success && |p.packet| >= 4
  {
    hide Cycle, Handle, Next, Fits, Flowing, PacketReader.ReadPacket, ReadInto, HoldsFrame, PacketType;
    WholeRead(c.wire, h, lb, body);
    CycleExact(hs, c, left, 0);
  }

  lemma WholeRead(w: Wire, h: byte, lb: seq<byte>, body: seq<byte>)
    requires Next(w, h, lb, body) && Fits(|body|, RX_BUF_LEN) && Flowing(w, 1 + |lb| + |body|)
    ensures var p := PacketReader.ReadPacket(w, RX_BUF_LEN);
            p.rc == Success && p.wire.pos == w.pos + 1 + |lb| + |body| && p.packet[0] == h && |p.packet| >= 2 + |body|
  {
    hide Next, Fits, Flowing, PacketReader.ReadPacket, Encode;
    ReadOnePacket(w, h, lb, body, RX_BUF_LEN);
    ReadOnePacketFlows(w, h, lb, body, RX_BUF_LEN, 0);
    EncodeDecode(|body|, []);
  }

  lemma OneCycle(hs: seq<Handler>, c: Client, left: nat, packetType: nat)
    requires left > 0 && packetType != 0 && Cycle(hs, c, left - 1, 0).packetType == packetType
    ensures Cycles(hs, c, packetType, left, 0) == [CycleRun(c, left - 1, 0, Cycle(hs, c, left - 1, 0))]
    ensures Wait(hs, c, packetType, left, 0).c == Cycle(hs, c, left - 1, 0).c
  {
    hide Cycle;
  }

  // ---- Callbacks

  /** A callback makes its publish calls one after another, each on the client that the one before it
      left; what cannot be sent is left out. */
  lemma {:induction false} CallsInOrder(hs: seq<Handler>, c: Client, before: seq<Publication>, p: Publication)
    ensures var b := PublishAll(hs, c, before);
            PublishAll(hs, c, before + [p]) == if p.msg.Sendable() then Publish(hs, b, p.msg, p.time).c else b
    ensures PublishAll(hs, c, []) == c
    decreases |before|
  {
    hide Publish, Onward;
    if before == [] {
      assert [] + [p] == [p] && [p][1..] == [];
    } else {
      var q := before[0];
      var d := if q.msg.Sendable() then Publish(hs, c, q.msg, q.time).c else c;
      CallsInOrder(hs, d, before[1..], p);
      assert (before + [p])[0] == q && (before + [p])[1..] == before[1..] + [p];
    }
  }

  /** The next callback uses up the first entry of the list of callbacks, runs one level deeper than the
      client was, and is recorded with the topic it was given and the state it ran in. */
  lemma CallbackRuns(hs: seq<Handler>, c: Client, index: nat, topic: seq<byte>,
                     pubs: seq<Publication>, rest: seq<seq<Publication>>)
    requires c.apps == [pubs] + rest
    ensures var call := Call(index, topic, c.state, c.depth);
            var inside := c.(apps := rest, depth := c.depth + 1, calls := c.calls + [call]);
            Invoke(hs, c, index, topic) == PublishAll(hs, inside, pubs).(depth := c.depth)
  {
    hide PublishAll;
    assert c.apps[0] == pubs && c.apps[1..] == rest;
  }

  // ---- Delivering

  /** The code of a delivery, for every behaviour of callbacks and mutexes: success means that the
      client state is back, and another code that a mutex call failed. A message that no slot is
      selected for only changes the state and changes it back. */
  lemma DeliverCode(hs: seq<Handler>, c: Client, off: nat, len: nat)
    requires off + len <= RX_BUF_LEN
    ensures var r, topic := Deliver(hs, c, off, len), c.readBuf[off..off + len];
            && (r.rc == Success ==> r.c.state == c.state)
            && (r.rc == Success || r.rc == MutexLockError || r.rc == UnexpectedClientState)
            && (r.rc != Success && !r.c.broken ==> r.c.faults > c.faults)
            && ((forall i :: 0 <= i < |hs| ==> !Selected(hs[i], topic)) ==>
                  r == SetState(SetState(c, c.state, WaitForCbReturn).c, WaitForCbReturn, c.state))
  {
    hide DeliverFrom, SetState, Later, Onward, Selected;
    DeliverLater(hs, c, off, len);
    var b := SetState(c, c.state, WaitForCbReturn).c;
    SetStateIs(c, c.state, WaitForCbReturn);
    StateOnlyIs(c, b);
    SetStateIs(DeliverFrom(hs, b, off, len, 0), WaitForCbReturn, c.state);
    LaterFaults(c, Deliver(hs, c, off, len).c);
    if forall i :: 0 <= i < |hs| ==> !Selected(hs[i], c.readBuf[off..off + len]) {
      NobodySelected(hs, b, off, len, 0);
    }
  }

  lemma LaterFaults(a: Client, b: Client)
    requires Later(a, b)
    ensures !b.broken ==> a.faults <= b.faults
  {
  }

  lemma {:induction false} NobodySelected(hs: seq<Handler>, c: Client, off: nat, len: nat, itr: nat)
    requires off + len <= RX_BUF_LEN && itr <= |hs|
    requires forall i :: itr <= i < |hs| ==> !Selected(hs[i], c.readBuf[off..off + len])
    ensures DeliverFrom(hs, c, off, len, itr) == c
    decreases |hs| - itr
  {
    hide Selected, Onward, Invoke;
    if itr < |hs| {
      NobodySelected(hs, c, off, len, itr + 1);
    }
  }

  /** Callbacks that publish nothing leave nothing but their own record. */
  lemma {:induction false} SilentCallbacks(hs: seq<Handler>, c: Client, off: nat, len: nat, itr: nat)
    requires off + len <= RX_BUF_LEN && itr <= |hs| && c.apps == []
    ensures var d := DeliverFrom(hs, c, off, len, itr); d == c.(calls := d.calls)
    decreases |hs| - itr
  {
    hide Selected, Onward;
    if itr < |hs| {
      var t := ClientSpec.Turn(hs, c, off, len, itr);
      SilentTurn(hs, c, off, len, itr);
      SilentCallbacks(hs, t, off, len, itr + 1);
    }
  }

  lemma SilentTurn(hs: seq<Handler>, c: Client, off: nat, len: nat, itr: nat)
    requires off + len <= RX_BUF_LEN && itr < |hs| && c.apps == []
    ensures var t := ClientSpec.Turn(hs, c, off, len, itr); t == c.(calls := t.calls)
  {
    hide Selected, Onward;
    var e := Entered(c, itr, c.readBuf[off..off + len]);
    assert PublishAll(hs, e, []) == e && e.(depth := c.depth) == c.(calls := e.calls);
  }

  lemma SilentDelivery(hs: seq<Handler>, c: Client, off: nat, len: nat)
    requires off + len <= RX_BUF_LEN && c.apps == [] && c.locks == [] && c.held == {} && !c.broken
    ensures var r, topic := Deliver(hs, c, off, len), c.readBuf[off..off + len];
            && r.rc == Success && r.c == c.(calls := r.c.calls) && c.calls <= r.c.calls
            && Picks(r.c.calls[|c.calls|..], c.depth) == SelectedBy(hs, Repeat(topic, |hs|), 0)
  {
    hide DeliverFrom, Onward, Picks, SelectedBy;
    var b := c.(state := WaitForCbReturn);
    assert c.held + {StateChange} - {StateChange} == c.held;
    SilentCallbacks(hs, b, off, len, 0);
    DeliverToTopic(hs, c, off, len);
  }

  /** A message all the way: what one client has sent since it was asked to publish lies on the stream
      of another. The next cycle of that client, with its mutexes free and granted, a TLS layer that
      hands over a byte each time and callbacks that publish nothing, calls exactly the handlers
      selected by the topic, each once and in table order, with the message in its buffer. It
      succeeds; with QoS 0 it sends nothing, and with QoS 1 it sends an acknowledgement with the
      sender's identifier, if the stack takes the remainder and the timer may be asked four times. */
  lemma MessageDelivered(hs: seq<Handler>, c: Client, msg: Message, time: nat,
                         ds: seq<Handler>, d: Client, left: nat, typeBefore: nat, stale: seq<byte>)
    requires msg.Sendable() && c.Honest() && stale != []
    requires var r := Publish(hs, c, msg, time);
             && r.rc == Success && !r.c.broken && c.outgoing <= r.c.outgoing
             && r.c.outgoing[|c.outgoing|..] <= d.wire.stream[d.wire.pos..]
             && Flowing(d.wire, |r.c.outgoing| - |c.outgoing|)
    requires d.locks == [] && d.held == {} && !d.broken && d.apps == []
    ensures var y, id := Cycle(ds, d, left, typeBefore), if msg.qos == 1 then NextId(c.lastId) else 0;
            && y.read && y.packetType == PUBLISH
            && d.calls <= y.c.calls
            && Picks(y.c.calls[|d.calls|..], d.depth) == SelectedBy(ds, Repeat(msg.topic, |ds|), 0)
            && Carries(y.c.readBuf, Message(false, msg.qos, msg.retained, id, msg.topic, msg.payload))
            && (msg.qos == 0 ==> y.rc == Success && y.c.outgoing == d.outgoing)
            && (msg.qos == 1 && TakesRemainder(d.writes, 4) && left >= 4 ==>
                  && y.rc == Success && d.outgoing <= y.c.outgoing && |y.c.outgoing| == |d.outgoing| + 4
                  && Acknowledges(y.c.outgoing[|d.outgoing|..] + stale, id))
  {
    hide Publish, Cycle, PacketReader.ReadPacket, ReadInto, NeverNegative, ParsePublish, HoldsFrame, View, Flowing,
         TakesRemainder, Picks, SelectedBy, Acknowledges;
    PublishReaches(hs, c, msg, time, d.wire, d.readBuf);
    var id := if msg.qos == 1 then NextId(c.lastId) else 0;
    CycleDelivers(ds, d, left, typeBefore, Message(false, msg.qos, msg.retained, id, msg.topic, msg.payload), stale);
  }

  lemma CycleDelivers(ds: seq<Handler>, d: Client, left: nat, typeBefore: nat, m: Message, stale: seq<byte>)
    requires d.locks == [] && d.held == {} && !d.broken && d.apps == [] && stale != []
    requires PacketReader.ReadPacket(d.wire, RX_BUF_LEN).rc == Success && Carries(ReadInto(d.wire, d.readBuf), m)
    ensures var y := Cycle(ds, d, left, typeBefore);
            && y.read && y.packetType == PUBLISH
            && d.calls <= y.c.calls
            && Picks(y.c.calls[|d.calls|..], d.depth) == SelectedBy(ds, Repeat(m.topic, |ds|), 0)
            && Carries(y.c.readBuf, m)
            && (m.qos == 0 ==> y.rc == Success && y.c.outgoing == d.outgoing)
            && (m.qos > 0 && TakesRemainder(d.writes, 4) && left >= 4 ==>
                  && y.rc == Success && d.outgoing <= y.c.outgoing && |y.c.outgoing| == |d.outgoing| + 4
                  && Acknowledges(y.c.outgoing[|d.outgoing|..] + stale, m.id))
  {
    hide Cycle, Handle, Deliver, PacketReader.ReadPacket, ReadInto, ParsePublish, HoldsFrame, PacketType,
         TakesRemainder, Picks, SelectedBy, Acknowledges, NeverNegative;
    CycleExact(ds, d, left, typeBefore);
    var a := AfterRead(d);
    AfterReadGranted(d);
    hide AfterRead;
    var p := ParsePublish(a.readBuf);
    ParsedType(a.readBuf);
    HandleExact(ds, a, left, stale);
    SilentDelivery(ds, a, p.topicOff, p.topicLen);
    HandleReadsNothing(ds, a, left);
  }

  lemma AfterReadGranted(d: Client)
    requires d.locks == [] && d.held == {} && !d.broken && PacketReader.ReadPacket(d.wire, RX_BUF_LEN).rc == Success
    ensures var a := AfterRead(d);
            && a.locks == [] && a.held == {} && !a.broken && a.apps == d.apps && a.calls == d.calls
            && a.depth == d.depth && a.outgoing == d.outgoing && a.writes == d.writes
            && a.readBuf == ReadInto(d.wire, d.readBuf)
            && a.readBuf[0] == PacketReader.ReadPacket(d.wire, RX_BUF_LEN).packet[0]
  {
    hide PacketReader.ReadPacket, ReadInto, Framed;
    ReadIntoPacket(d.wire, d.readBuf);
  }

  lemma ParsedType(buf: seq<byte>)
    requires HoldsFrame(buf)
    ensures ParsePublish(buf).rc == Success ==> PacketType(buf[0]) == PUBLISH
  {
    hide Decode, PacketType, ParseBody;
  }

  lemma HandleReadsNothing(hs: seq<Handler>, c: Client, left: nat)
    requires HoldsFrame(c.readBuf)
    ensures var r, p := Handle(hs, c, left), ParsePublish(c.readBuf);
            p.rc == Success ==>
              var d := Deliver(hs, c, p.topicOff, p.topicLen);
              r.c.readBuf == d.c.readBuf && r.c.calls == d.c.calls
  {
    hide HoldsFrame, ParsePublish, Deliver, PubackBytes, Store, Transmit, StaysInside;
  }

  /** The buffer begins with a publish packet that carries this message. */
  predicate Carries(buf: seq<byte>, msg: Message) {
    HoldsFrame(buf) && ParsePublish(buf).rc == Success
    && var q := ParsePublish(buf);
       q.payloadOff + q.payloadLen <= |buf| && View(buf, q) == msg
  }
}
