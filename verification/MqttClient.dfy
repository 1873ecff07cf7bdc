/**
 The MQTT client object: sending and receiving packets, the client state under its mutex, and
 the dispatcher, which callbacks re-enter when they publish. Every method changes the client
 as the function of the same purpose in ClientSpec says; what follows from that is proved in
 ClientLaws.
 */
module MqttClient {
  import opened Bytes
  import opened Network
  import opened RemainingLength
  import opened PacketReader
  import opened PublishPacket
  import opened TopicMatcher
  import opened ClientStates
  import opened Transmission
  import opened ClientSpec
  import opened ClientLaws

  class Timer {
    var left: nat

    constructor (left: nat)
      ensures this.left == left
    {
      this.left := left;
    }

    method HasExpired() returns (expired: bool)
      modifies this
      ensures expired == (old(left) == 0) && left == if expired then 0 else old(left) - 1
    {
      expired := left == 0;
      if !expired {
        left := left - 1;
      }
    }
  }

  class MqttClient {
    var clientState: ClientState
    var nextPacketId: uint16
    var isPingOutstanding: bool
    var locks: seq<bool>
    var held: set<Mutex>
    var apps: seq<seq<Publication>>
    ghost var faults: nat
    ghost var calls: seq<Call>
    ghost var depth: nat
    ghost var lost: bool
    ghost var broken: bool
    const handlers: array<Handler>
    const readBuf: array<byte>
    const writeBuf: array<byte>
    const net: Stack

    /** aws_iot_mqtt_init, with the subscriptions made since. */
    constructor (net: Stack, subscriptions: seq<Handler>, locks: seq<bool>, apps: seq<seq<Publication>>)
      requires |subscriptions| == NUM_SUBSCRIBE_HANDLERS
      requires forall i :: 0 <= i < |subscriptions| && subscriptions[i].topic.Some? ==>
                 '\0' !in subscriptions[i].topic.value
      ensures Valid() && this.net == net && handlers[..] == subscriptions
      ensures clientState == Initialized && nextPacketId == 1 && !isPingOutstanding
      ensures this.locks == locks && this.apps == apps && held == {} && faults == 0 && calls == [] && depth == 0
      ensures !lost && !broken && fresh(readBuf) && fresh(writeBuf) && fresh(handlers)
    {
      this.net := net;
      readBuf := new byte[RX_BUF_LEN];
      writeBuf := new byte[TX_BUF_LEN];
      handlers := new Handler[NUM_SUBSCRIBE_HANDLERS](i requires 0 <= i < |subscriptions| => subscriptions[i]);
      clientState, nextPacketId, isPingOutstanding := Initialized, 1, false;
      this.locks, held, this.apps := locks, {}, apps;
      faults, calls, depth, lost, broken := 0, [], 0, false, false;
    }

    ghost predicate Valid()
      reads this, handlers
    {
      && readBuf.Length == RX_BUF_LEN && writeBuf.Length == TX_BUF_LEN && readBuf != writeBuf
      && handlers.Length == NUM_SUBSCRIBE_HANDLERS
      && forall i :: 0 <= i < handlers.Length && handlers[i].topic.Some? ==> '\0' !in handlers[i].topic.value
    }

    /** The client's value. */
    ghost function Now(): Client
      requires Valid()
      reads this, handlers, net, readBuf, writeBuf
    {
      Client(clientState, nextPacketId, isPingOutstanding, readBuf[..], writeBuf[..], locks, held, faults,
             net.wire, net.writes, net.outgoing, apps, calls, depth, lost, broken)
    }

    // ---- Mutexes and the client state

    method LockMutex(m: Mutex) returns (rc: Rc)
      requires Valid()
      modifies this`locks, this`held, this`faults
      ensures Valid() && Out(rc, Now()) == Lock(old(Now()), m)
    {
      rc := if m in held || !Granted(locks) then MutexLockError else Success;
      if rc == Success {
        held := held + {m};
      } else {
        faults := faults + 1;
      }
      locks := Rest(locks);
    }

    method UnlockMutex(m: Mutex) returns (rc: Rc)
      requires Valid()
      modifies this`locks, this`held, this`faults
      ensures Valid() && Out(rc, Now()) == Unlock(old(Now()), m)
    {
      rc := if Granted(locks) then Success else MutexLockError;
      if rc == Success {
        held := held - {m};
      } else {
        faults := faults + 1;
      }
      locks := Rest(locks);
    }

    method SetClientState(expected: ClientState, newState: ClientState) returns (rc: Rc)
      requires Valid()
      modifies this`locks, this`held, this`faults, this`clientState
      ensures Valid() && Out(rc, Now()) == SetState(old(Now()), expected, newState)
    {
      hide Lock, Unlock, SetState;
      ghost var c := Now();
      SetStateSteps(c, expected, newState);
      rc := LockMutex(StateChange);
      if rc != Success {
        return;
      }
      ghost var l := Now();
      if expected == clientState {
        clientState := newState;
        assert Now() == l.(state := newState);
        rc := Success;
      } else {
        rc := UnexpectedClientState;
      }
      var threadRc := UnlockMutex(StateChange);
      if rc == Success && threadRc != Success {
        rc := threadRc;
      }
    }

    method GetNextPacketId() returns (id: uint16)
      requires Valid()
      modifies this`nextPacketId
      ensures Valid() && id == NextId(old(nextPacketId)) && Now() == old(Now()).(lastId := id)
    {
      nextPacketId := if nextPacketId == MAX_PACKET_ID then 1 else nextPacketId + 1;
      id := nextPacketId;
    }

    // ---- Sending

    /** The loop of send_packet: it offers `length` bytes from where it stands, every time. */
    method WriteLoop(length: nat, timer: Timer) returns (sent: nat)
      requires Valid() && length < TX_BUF_LEN
      modifies net`outgoing, net`writes, timer, this`broken
      ensures Valid()
      ensures var c := old(Now());
              var t := Transmit(c.writes, old(timer.left), length, 0, c.writeBuf + c.readBuf);
              var inside := StaysInside(c.writes, old(timer.left), length, 0, TX_BUF_LEN);
              && sent == t.at && timer.left == t.left
              && Now() == c.(writes := t.writes, outgoing := c.outgoing + t.wire, broken := c.broken || !inside)
    {
      hide Transmit, Heading, StaysInside, Wrap32;
      ghost var goal := broken || !StaysInside(net.writes, timer.left, length, 0, TX_BUF_LEN);
      ghost var memory, out := writeBuf[..] + readBuf[..], net.outgoing;
      ghost var t := Transmit(net.writes, timer.left, length, 0, memory);
      ghost var end := t.(wire := out + t.wire);
      sent := 0;
      HeadingStarts(net.writes, timer.left, length, memory, out);
      while true
        invariant Heading(net.writes, timer.left, length, sent, memory, net.outgoing, end)
        invariant goal == (broken || !StaysInside(net.writes, timer.left, length, sent, TX_BUF_LEN))
        decreases timer.left
      {
        InsideStops(net.writes, timer.left, length, sent, TX_BUF_LEN);
        HeadingStops(net.writes, timer.left, length, sent, memory, net.outgoing, end);
        if sent >= length {
          return;
        }
        ghost var left := timer.left;
        var expired := timer.HasExpired();
        if expired {
          return;
        }
        if net.writes != [] && !net.writes[0].Refuse? {
          HeadingGoes(net.writes, left, length, sent, memory, net.outgoing, end);
          InsideGoes(net.writes, left, length, sent, TX_BUF_LEN);
        }
        ghost var before := |net.outgoing|;
        var rc, sentLen := net.Write((writeBuf[..] + readBuf[..])[sent..sent + length]);
        if rc != Success {
          NothingWritten(net.outgoing);
          return;
        }
        if sent + (|net.outgoing| - before) > TX_BUF_LEN {
          broken := true;
        }
        sent := Wrap32(sent + sentLen);
      }
    }

    method SendPacket(length: nat, timer: Timer) returns (rc: Rc)
      requires Valid()
      modifies this`locks, this`held, this`faults, this`broken, net`outgoing, net`writes, timer
      ensures Valid() && Timed(rc, timer.left, Now()) == Send(old(Now()), length, old(timer.left))
    {
      hide Lock, Unlock, Transmit, StaysInside;
      ghost var c := Now();
      LockKeepsState(c, TlsWrite);
      if length >= TX_BUF_LEN {
        return TxBufferTooShort;
      }
      rc := LockMutex(TlsWrite);
      if rc != Success {
        return;
      }
      var sent := WriteLoop(length, timer);
      rc := UnlockMutex(TlsWrite);
      if rc != Success {
        return;
      }
      if sent == length {
        return Success;
      }
      return Failure;
    }

    // ---- Receiving

    method DecodePacketRemainingLen() returns (rc: Rc, remLen: uint32)
      modifies net`wire
      ensures LengthRead(rc, remLen, net.wire) == ReadLength(old(net.wire), 1, 0, 0)
    {
      hide Recv, Digit, Wrap32;
      var encodedByte := new byte[1];
      var multiplier: uint32, len: nat := 1, 0;
      remLen := 0;
      ghost var goal := ReadLength(net.wire, 1, 0, 0);
      while true
        modifies net`wire, encodedByte
        invariant goal == ReadLength(net.wire, multiplier, remLen, len)
        decreases |net.wire.script| - net.wire.turn
      {
        len := len + 1;
        if len > MAX_NO_OF_REMAINING_LENGTH_BYTES {
          return DecodeRemainingLengthError, remLen;
        }
        ghost var before := net.wire;
        rc, len := net.Read(encodedByte, 0, 1);
        if rc != Success {
          return;
        }
        assert encodedByte[..][..1][0] == before.stream[before.pos];
        remLen := Wrap32(remLen + Digit(encodedByte[0], multiplier));
        multiplier := Wrap32(multiplier * 128);
        if encodedByte[0] < 128 {
          return;
        }
      }
    }

    /** The loop for a packet the buffer is too short for. */
    method DrainPacket(remLen: nat) returns (ghost drained: bool)
      requires Valid() && remLen >= RX_BUF_LEN
      modifies net`wire, readBuf
      ensures var d := Drain(old(net.wire), RX_BUF_LEN, remLen, 0, RX_BUF_LEN);
              net.wire == d.wire && drained == (d.rc == Success)
      ensures readBuf[..] == DrainInto(old(net.wire), remLen, 0, RX_BUF_LEN, old(readBuf[..]))
    {
      hide Recv, Store;
      ghost var goal := Drain(net.wire, RX_BUF_LEN, remLen, 0, RX_BUF_LEN);
      ghost var into := DrainInto(net.wire, remLen, 0, RX_BUF_LEN, readBuf[..]);
      var totalBytesRead, bytesToBeRead := 0, RX_BUF_LEN;
      while true
        invariant 0 <= totalBytesRead && 0 < bytesToBeRead <= RX_BUF_LEN && totalBytesRead + bytesToBeRead <= remLen
        invariant goal == Drain(net.wire, RX_BUF_LEN, remLen, totalBytesRead, bytesToBeRead)
        invariant into == DrainInto(net.wire, remLen, totalBytesRead, bytesToBeRead, readBuf[..])
        decreases |net.wire.script| - net.wire.turn
      {
        var rc, readLen := net.Read(readBuf, 0, bytesToBeRead);
        if rc == Success {
          totalBytesRead := totalBytesRead + readLen;
          if remLen - totalBytesRead >= RX_BUF_LEN {
            bytesToBeRead := RX_BUF_LEN;
          } else {
            bytesToBeRead := remLen - totalBytesRead;
          }
        }
        if !(totalBytesRead < remLen && rc == Success) {
          return rc == Success;
        }
      }
    }

    /** read_packet. `packetType` is the C out-parameter: it is set on success only. */
    method ReadPacket(typeBefore: nat) returns (rc: Rc, packetType: nat)
      requires Valid()
      modifies net`wire, readBuf
      ensures Valid() && readBuf[..] == ReadInto(old(net.wire), old(readBuf[..]))
      ensures rc == PacketReader.ReadPacket(old(net.wire), RX_BUF_LEN).rc
      ensures net.wire == PacketReader.ReadPacket(old(net.wire), RX_BUF_LEN).wire
      ensures packetType == if rc == Success then PacketType(readBuf[0]) else typeBefore
    {
      hide Recv, ReadLength, Drain, Encode, Store, PacketReader.ReadPacket, ReadRest, ReadBody;
      hide ReadInto, RestInto, DrainInto, Framed, Decode, NeverNegative;
      packetType := typeBefore;
      ghost var w, was := net.wire, readBuf[..];
      PacketSteps(w, RX_BUF_LEN);
      IntoSteps(w, was);
      var readLen;
      rc, readLen := net.Read(readBuf, 0, 1);
      if rc == SslNothingToRead {
        NothingStored(was, 0, net.wire.stream[w.pos..net.wire.pos]);
        return MqttNothingToRead, packetType;
      } else if rc != Success {
        return;
      }
      ghost var h, after := w.stream[w.pos], readBuf[..];
      assert net.wire.stream[w.pos..net.wire.pos] == [h];
      RestSteps(h, net.wire, RX_BUF_LEN);
      RestIntoSteps(net.wire, after);
      var remLen;
      rc, remLen := DecodePacketRemainingLen();
      if rc != Success {
        return;
      }
      if remLen >= RX_BUF_LEN {
        ghost var drained := DrainPacket(remLen);
        return RxBufferTooShort, packetType;
      }
      EncodedSize(remLen);
      var n := WriteLenToBuffer(readBuf, 1, remLen);
      var len := 1 + n;
      BodySteps([h] + Encode(remLen), net.wire, remLen, RX_BUF_LEN);
      if len + remLen > readBuf.Length {
        return Undefined, packetType;
      }
      if remLen > 0 {
        rc, readLen := net.Read(readBuf, len, remLen);
        if rc != Success || readLen != remLen {
          return Failure, packetType;
        }
      }
      packetType := PacketType(readBuf[0]);
    }

    /** The front of cycle_read: a packet is read under the mutex. `due` tells whether it goes on. */
    method FetchPacket(typeBefore: nat) returns (rc: Rc, packetType: nat, due: bool, ghost read: bool)
      requires Valid()
      modifies this`locks, this`held, this`faults, this`lost, this`broken, net`wire, readBuf
      ensures Valid() && Fetched(rc, read, due, Now()) == Fetch(old(Now()))
      ensures packetType == if read then PacketType(readBuf[0]) else typeBefore
    {
      hide Lock, Unlock, ReadInto, PacketReader.ReadPacket, PacketType, Framed;
      packetType, due, read := typeBefore, false, false;
      ghost var c := Now();
      LockKeepsState(c, TlsRead);
      rc := LockMutex(TlsRead);
      if rc != Success {
        return;
      }
      ghost var l := Now();
      rc, packetType := ReadPacket(packetType);
      read := rc == Success;
      lost := lost || !Framed(PacketReader.ReadPacket(l.wire, RX_BUF_LEN));
      broken := broken || rc == Undefined;
      assert Now() == Read(l);
      LockKeepsState(Now(), TlsRead);
      var threadRc := UnlockMutex(TlsRead);
      if threadRc != Success && (rc == MqttNothingToRead || rc == Success) {
        return threadRc, packetType, false, read;
      }
      if rc == MqttNothingToRead {
        return Success, packetType, false, read;
      } else if rc != Success {
        return;
      }
      due := true;
    }

    /** cycle_read: one packet, if there is one, and what is due on it. `read` tells whether there was. */
    method CycleRead(timer: Timer, typeBefore: nat) returns (rc: Rc, packetType: nat, ghost read: bool)
      requires Valid()
      modifies this, net, readBuf, writeBuf, timer
      ensures Valid()
      ensures Cycled(rc, read, packetType, timer.left, Now()) == Cycle(handlers[..], old(Now()), old(timer.left), typeBefore)
      ensures Later(old(Now()), Now())
      decreases |net.wire.script| - net.wire.turn, 1
    {
      hide Later, Fetch, Dispatch, HoldsFrame, PacketType, Onward;
      CycleLater(handlers[..], Now(), timer.left, typeBefore);
      ghost var c := Now();
      FetchOnward(c);
      var due;
      rc, packetType, due, read := FetchPacket(typeBefore);
      if due {
        rc := DispatchPacket(packetType, timer);
      }
    }

    /** The switch of cycle_read, on the packet in the receive buffer. */
    method DispatchPacket(packetType: nat, timer: Timer) returns (rc: Rc)
      requires Valid() && HoldsFrame(readBuf[..])
      modifies this, net, readBuf, writeBuf, timer
      ensures Valid()
      ensures Timed(rc, timer.left, Now()) == Dispatch(handlers[..], old(Now()), packetType, old(timer.left))
      decreases |net.wire.script| - net.wire.turn, 7
    {
      hide Handle, HoldsFrame, Onward;
      rc := Success;
      if packetType == CONNACK || packetType == PUBACK || packetType == SUBACK || packetType == UNSUBACK {
      } else if packetType == PUBLISH {
        rc := HandlePublish(timer);
      } else if packetType == PUBREC || packetType == PUBCOMP {
      } else if packetType == PINGRESP {
        isPingOutstanding := false;
      } else {
        rc := PacketTypeInvalid;
      }
    }

    /** wait_for_read. The function it computes has no counterpart of the last branch. */
    method WaitForRead(packetType: nat, timer: Timer) returns (rc: Rc)
      requires Valid() && packetType != 0
      modifies this, net, readBuf, writeBuf, timer
      ensures Valid()
      ensures Timed(rc, timer.left, Now()) == Wait(handlers[..], old(Now()), packetType, old(timer.left), 0)
      ensures Later(old(Now()), Now())
      ensures !broken ==>
              var runs := Cycles(handlers[..], old(Now()), packetType, old(timer.left), 0);
              && Chained(handlers[..], runs, old(Now()), old(timer.left), 0, Now())
              && timer.left == (if runs == [] then old(timer.left) else runs[|runs| - 1].out.left)
              && (forall k :: 0 <= k < |runs| - 1 ==> !Got(runs[k], packetType))
              && (if rc == RequestTimeout then timer.left == 0 && (runs == [] || !Got(runs[|runs| - 1], packetType))
                  else runs != [] && Got(runs[|runs| - 1], packetType) && rc == runs[|runs| - 1].out.rc)
      decreases |net.wire.script| - net.wire.turn, 2
    {
      hide Later, Cycles, Chained, Got, Cycle, HoldsFrame, Wait, Onward;
      WaitLater(handlers[..], Now(), packetType, timer.left, 0);
      WaitExact(handlers[..], Now(), packetType, timer.left, 0);
      ghost var c, hs := Now(), handlers[..];
      ghost var goal := Wait(hs, c, packetType, timer.left, 0);
      var readPacketType := 0;
      while true
        invariant Valid() && hs == handlers[..] && readPacketType != packetType
        invariant Wait(hs, Now(), packetType, timer.left, readPacketType) == goal
        invariant Now().Remaining() <= c.Remaining()
        decreases timer.left
      {
        ghost var s, left := Now(), timer.left;
        WaitStep(hs, s, packetType, left, readPacketType);
        var expired := timer.HasExpired();
        if expired {
          rc := RequestTimeout;
          break;
        }
        CycleCodes(hs, s, left - 1, readPacketType);
        CycleOnward(hs, s, left - 1, readPacketType);
        ghost var read;
        rc, readPacketType, read := CycleRead(timer, readPacketType);
        if !(rc != NetworkDisconnected && readPacketType != packetType) {
          break;
        }
      }
      if rc != RequestTimeout && rc != NetworkDisconnected && readPacketType != packetType {
        return Failure;
      }
    }

    /** handle_publish, on the packet in the receive buffer. */
    method HandlePublish(timer: Timer) returns (rc: Rc)
      requires Valid() && HoldsFrame(readBuf[..])
      modifies this, net, readBuf, writeBuf, timer
      ensures Valid()
      ensures Timed(rc, timer.left, Now()) == Handle(handlers[..], old(Now()), old(timer.left))
      ensures Later(old(Now()), Now())
      decreases |net.wire.script| - net.wire.turn, 6
    {
      hide Later, HoldsFrame, ParsePublish, Deliver, Send, Store, Onward;
      HandleLater(handlers[..], Now(), timer.left);
      ghost var c := Now();
      var p := DeserializePublish(readBuf);
      if p.rc != Success {
        broken := broken || p.rc == Undefined;
        return p.rc;
      }
      rc := DeliverMessage(p.topicOff, p.topicLen);
      if rc != Success || p.qos == 0 {
        return;
      }
      var len;
      ghost var d := Now();
      rc, len := SerializePuback(writeBuf, p.id);
      assert len == 4 && Now() == d.(writeBuf := Store(d.writeBuf, 0, PubackBytes(p.id)));
      if rc != Success {
        return;
      }
      rc := SendPacket(len, timer);
    }

    /** deliver_message. The topic is a place in the receive buffer. */
    method DeliverMessage(topicOff: nat, topicLen: nat) returns (rc: Rc)
      requires Valid() && topicOff + topicLen <= readBuf.Length
      modifies this, net, readBuf, writeBuf
      ensures Valid() && Out(rc, Now()) == Deliver(handlers[..], old(Now()), topicOff, topicLen)
      ensures Later(old(Now()), Now())
      decreases |net.wire.script| - net.wire.turn, 5
    {
      hide Later, SetState, DeliverFrom, StrNCmpEqual, Scan, Text, Invoke, Onward;
      DeliverLater(handlers[..], Now(), topicOff, topicLen);
      ghost var c, hs := Now(), handlers[..];
      var clientState0 := clientState;
      SetStateIs(c, c.state, WaitForCbReturn);
      rc := SetClientState(clientState0, WaitForCbReturn);
      ghost var b := Now();
      ghost var goal := DeliverFrom(hs, b, topicOff, topicLen, 0);
      for itr := 0 to NUM_SUBSCRIBE_HANDLERS
        invariant Valid() && hs == handlers[..]
        invariant DeliverFrom(hs, Now(), topicOff, topicLen, itr) == goal
        invariant Now().Remaining() <= c.Remaining()
      {
        ghost var s := Now();
        DeliverStep(hs, s, topicOff, topicLen, itr);
        var h := handlers[itr];
        var name := readBuf[topicOff..topicOff + topicLen];
        var matched := false;
        if h.topic.Some? {
          if |name| == h.topicNameLen && StrNCmpEqual(Text(name), h.topic.value) {
            matched := true;
          } else {
            matched := IsTopicMatched(h.topic.value, Text(name));
          }
        }
        if matched && h.app {
          InvokeOnward(hs, s, itr, name);
          RunCallback(itr, name);
        }
      }
      DeliverEnd(hs, Now(), topicOff, topicLen);
      rc := SetClientState(WaitForCbReturn, clientState0);
    }

    /** The call of an application handler. */
    method RunCallback(index: nat, topic: seq<byte>)
      requires Valid()
      modifies this, net, readBuf, writeBuf
      ensures Valid() && Now() == Invoke(handlers[..], old(Now()), index, topic)
      decreases |net.wire.script| - net.wire.turn, 4
    {
      hide PublishAll, Publish, Onward;
      ghost var c, hs := Now(), handlers[..];
      var pubs := if apps == [] then [] else apps[0];
      apps := if apps == [] then [] else apps[1..];
      calls := calls + [Call(index, topic, clientState, depth)];
      depth := depth + 1;
      ghost var e := Now();
      assert e == Entered(c, index, topic);
      ghost var goal := PublishAll(hs, e, pubs);
      assert pubs[0..] == pubs;
      for k := 0 to |pubs|
        invariant Valid() && hs == handlers[..]
        invariant PublishAll(hs, Now(), pubs[k..]) == goal
        invariant Now().Remaining() <= c.Remaining()
      {
        ghost var s := Now();
        PublishAllStep(hs, s, pubs, k);
        if pubs[k].msg.Sendable() {
          PublishOnward(hs, s, pubs[k].msg, pubs[k].time);
          var rc := PublishMessage(pubs[k].msg, pubs[k].time);
        }
      }
      PublishAllEnd(hs, Now(), pubs);
      depth := c.depth;
    }

    /** publish; `time` is the command timeout. */
    method PublishMessage(msg: Message, time: nat) returns (rc: Rc)
      requires Valid() && msg.Sendable()
      modifies this, net, readBuf, writeBuf
      ensures Valid() && Out(rc, Now()) == Publish(handlers[..], old(Now()), msg, time)
      ensures Later(old(Now()), Now())
      decreases |net.wire.script| - net.wire.turn, 3
    {
      hide Later, SetState, InternalPublish, Onward;
      PublishLater(handlers[..], Now(), msg, time);
      ghost var c := Now();
      SetStateIs(c, c.state, PublishInProgress);
      if msg.topic == [] {
        return NullValue;
      }
      if !IsConnected(clientState) {
        return NetworkDisconnected;
      }
      var clientState0 := clientState;
      if clientState0 != ConnectedIdle && clientState0 != WaitForCbReturn {
        return ClientNotIdle;
      }
      rc := SetClientState(clientState0, PublishInProgress);
      if rc != Success {
        return;
      }
      var pubRc := InternalPublishMessage(msg, time);
      rc := SetClientState(PublishInProgress, clientState0);
      if pubRc == Success && rc != Success {
        pubRc := rc;
      }
      rc := pubRc;
    }

    method InternalPublishMessage(msg: Message, time: nat) returns (rc: Rc)
      requires Valid() && msg.Sendable()
      modifies this, net, readBuf, writeBuf
      ensures Valid() && Out(rc, Now()) == InternalPublish(handlers[..], old(Now()), msg, time)
      decreases |net.wire.script| - net.wire.turn, 3, 0
    {
      hide Send, Wait, Store, FinalLength, HoldsFrame, ParseAck, Onward;
      var timer := new Timer(time);
      ghost var c := Now();
      var out := msg.(dup := false);
      if msg.qos == 1 {
        var id := GetNextPacketId();
        out := out.(id := id);
      }
      assert out == Outgoing(msg, c.lastId) && Now() == Numbered(c, msg);
      BodyLength(msg);
      BodyLength(out);
      var len;
      rc, len := SerializePublish(writeBuf, out);
      if rc != Success {
        assert Now() == Numbered(c, msg);
        return;
      }
      assert Now() == Numbered(c, msg).(writeBuf := Store(c.writeBuf, 0, PacketOf(c, msg)));
      rc := SendPacket(len, timer);
      if rc != Success {
        return;
      }
      if msg.qos == 1 {
        rc := WaitForRead(PUBACK, timer);
        if rc != Success {
          return;
        }
        match ParseAck(readBuf[..]) {
          case NoAck(ackRc) => rc := ackRc;
          case Ack(_, _, _) => rc := Success;
        }
      }
    }
  }

  // ---- Steps of the methods

  lemma LockKeepsState(c: Client, m: Mutex)
    ensures var l := Lock(c, m).c;
            l.state == c.state && l.wire == c.wire && l.writes == c.writes && l.outgoing == c.outgoing
            && l.writeBuf == c.writeBuf && l.readBuf == c.readBuf
    ensures var u := Unlock(c, m).c; u.readBuf == c.readBuf
  {
  }

  lemma SetStateSteps(c: Client, expected: ClientState, newState: ClientState)
    ensures var l := Lock(c, StateChange);
            && l.c.state == c.state
            && SetState(c, expected, newState) ==
                 (if l.rc != Success then l
                  else if expected == c.state then Unlock(l.c.(state := newState), StateChange)
                  else Out(UnexpectedClientState, Unlock(l.c, StateChange).c))
  {
  }

  lemma NothingWritten(s: seq<byte>)
    ensures s + [] == s
  {
  }

  lemma WaitStep(hs: seq<Handler>, c: Client, packetType: nat, left: nat, typeBefore: nat)
    requires typeBefore != packetType
    ensures Wait(hs, c, packetType, left, typeBefore) ==
              if left == 0 then Timed(RequestTimeout, 0, c)
              else
                var r := Cycle(hs, c, left - 1, typeBefore);
                if r.packetType == packetType then Timed(r.rc, r.left, r.c)
                else Wait(hs, r.c, packetType, r.left, r.packetType)
  {
  }

  lemma DeliverStep(hs: seq<Handler>, c: Client, off: nat, len: nat, itr: nat)
    requires off + len <= RX_BUF_LEN && itr < |hs|
    ensures DeliverFrom(hs, c, off, len, itr) == DeliverFrom(hs, ClientSpec.Turn(hs, c, off, len, itr), off, len, itr + 1)
    ensures var name := c.readBuf[off..off + len];
            ClientSpec.Turn(hs, c, off, len, itr) == if Selected(hs[itr], name) then Invoke(hs, c, itr, name) else c
  {
  }

  lemma DeliverEnd(hs: seq<Handler>, c: Client, off: nat, len: nat)
    requires off + len <= RX_BUF_LEN
    ensures DeliverFrom(hs, c, off, len, |hs|) == c
  {
  }

  lemma InvokeOnward(hs: seq<Handler>, c: Client, index: nat, topic: seq<byte>)
    ensures Invoke(hs, c, index, topic).Remaining() <= c.Remaining()
  {
  }

  lemma PublishOnward(hs: seq<Handler>, c: Client, msg: Message, time: nat)
    requires msg.Sendable()
    ensures Publish(hs, c, msg, time).c.Remaining() <= c.Remaining()
  {
  }

  lemma PublishAllStep(hs: seq<Handler>, c: Client, pubs: seq<Publication>, k: nat)
    requires k < |pubs|
    ensures PublishAll(hs, c, pubs[k..])
         == PublishAll(hs, if pubs[k].msg.Sendable() then Publish(hs, c, pubs[k].msg, pubs[k].time).c else c, pubs[k + 1..])
  {
  }

  lemma PublishAllEnd(hs: seq<Handler>, c: Client, pubs: seq<Publication>)
    ensures PublishAll(hs, c, pubs[|pubs|..]) == c
  {
  }

  /** ReadPacket of the reader, one step at a time. */
  lemma PacketSteps(w: Wire, size: nat)
    requires size > 0
    ensures var h := Recv(w, 1, 0);
            && (h.rc == Success ==> h.count == 1 && w.pos < |w.stream|)
            && PacketReader.ReadPacket(w, size) ==
                 (if h.rc == SslNothingToRead then PacketRead(MqttNothingToRead, [], h.wire, false)
                  else if h.rc != Success then PacketRead(h.rc, [], h.wire, false)
                  else ReadRest(w.stream[w.pos], h.wire, size))
            && (h.rc != Success ==> h.count == 0)
  {
  }

  lemma RestSteps(h: byte, w: Wire, size: nat)
    requires size > 0
    ensures var l := ReadLength(w, 1, 0, 0);
            ReadRest(h, w, size) ==
              if l.rc != Success then PacketRead(l.rc, [], l.wire, false)
              else if l.remLen >= size then
                var d := Drain(l.wire, size, l.remLen, 0, size);
                PacketRead(RxBufferTooShort, [], d.wire, d.rc == Success)
              else ReadBody([h] + Encode(l.remLen), l.wire, l.remLen, size)
  {
  }

  lemma BodySteps(fixedHeader: seq<byte>, w: Wire, remLen: nat, size: nat)
    requires fixedHeader != []
    ensures var b := Recv(w, remLen, 0);
            ReadBody(fixedHeader, w, remLen, size) ==
              if |fixedHeader| + remLen > size then PacketRead(Undefined, [], w, false)
              else if remLen == 0 then PacketRead(Success, fixedHeader, w, false)
              else if b.rc != Success || b.count != remLen then PacketRead(Failure, [], b.wire, false)
              else PacketRead(Success, fixedHeader + w.stream[w.pos..b.wire.pos], b.wire, false)
  {
  }

  lemma NothingStored(s: seq<byte>, off: nat, t: seq<byte>)
    requires off <= |s| && t == []
    ensures Store(s, off, t) == s
  {
  }

  lemma IntoSteps(w: Wire, buf: Buffer)
    ensures var h := Recv(w, 1, 0);
            ReadInto(w, buf) == if h.rc != Success then buf else RestInto(h.wire, Store(buf, 0, [w.stream[w.pos]]))
  {
  }

  lemma RestIntoSteps(w: Wire, buf: Buffer)
    ensures var l := ReadLength(w, 1, 0, 0);
            RestInto(w, buf) ==
              if l.rc != Success then buf
              else if l.remLen >= |buf| then DrainInto(l.wire, l.remLen, 0, |buf|, buf)
              else (EncodeDecode(l.remLen, []);
                    BodyInto(l.wire, l.remLen, 1 + |Encode(l.remLen)|, Store(buf, 1, Encode(l.remLen))))
  {
  }
}
