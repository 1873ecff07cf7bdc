/**
 What the client promises, whatever the network stack, the mutexes and the callbacks do, as long
 as it is not broken (see ClientSpec.Client).
*/
module ClientLaws {
  import opened Bytes
  import opened Network
  import opened RemainingLength
  import opened PacketReader
  import opened PublishPacket
  import opened TopicMatcher
  import opened ClientStates
  import opened Transmission
  import opened ClientSpec

  // ---- What every operation keeps

  /** From `a` to `b` an operation ran, with whatever nested deliveries. Reading, sending and the list
      of callbacks only go on, the receive buffer changes only if bytes were read, and every callback
      ran at this depth or deeper. As long as no mutex call failed, the client state is put back and
      what was locked is released. And no mutex call does fail if no mutex was held and the system
      grants all requests: at no depth does the client wait for a mutex it holds itself. */
  ghost predicate Keeps(a: Client, b: Client) {
    (a.broken ==> b.broken) &&
    (!b.broken ==>
       && a.faults <= b.faults && a.calls <= b.calls && a.outgoing <= b.outgoing && a.wire.LeadsTo(b.wire)
       && (a.wire.pos == b.wire.pos ==> a.readBuf == b.readBuf)
       && (a.Honest() ==> b.Honest())
       && a.depth == b.depth && CallsFrom(b.calls, |a.calls|, a.depth)
       && (a.faults == b.faults ==> a.state == b.state && a.held == b.held)
       && NoDeadlock(a, b)
       && (a.lost ==> b.lost) && (!b.lost ==> WholePackets(a.wire, b.wire)))
  }

  /** If a stream of acceptable packets was left at `v`, whole packets have been taken off it at `w`. */
  ghost predicate WholePackets(v: Wire, w: Wire) {
    forall ps: seq<Packet> :: Holds(v, ps) && AllAcceptable(ps, RX_BUF_LEN) ==>
      exists k :: 0 <= k <= |ps| && Holds(w, ps[k..])
  }

  lemma NoPackets(w: Wire)
    ensures WholePackets(w, w)
  {
    forall ps: seq<Packet> | Holds(w, ps) ensures exists k :: 0 <= k <= |ps| && Holds(w, ps[k..]) {
      assert ps[0..] == ps;
    }
  }

  lemma MorePackets(u: Wire, v: Wire, w: Wire)
    ensures WholePackets(u, v) && WholePackets(v, w) ==> WholePackets(u, w)
  {
    hide Holds, AllAcceptable;
    if WholePackets(u, v) && WholePackets(v, w) {
      forall ps: seq<Packet> | Holds(u, ps) && AllAcceptable(ps, RX_BUF_LEN)
        ensures exists k :: 0 <= k <= |ps| && Holds(w, ps[k..])
      {
        var j :| 0 <= j <= |ps| && Holds(v, ps[j..]);
        AcceptableFrom(ps, j);
        var k :| 0 <= k <= |ps[j..]| && Holds(w, ps[j..][k..]);
        assert ps[j..][k..] == ps[j + k..];
      }
    }
  }

  lemma {:induction false} AcceptableFrom(ps: seq<Packet>, j: nat)
    requires j <= |ps| && AllAcceptable(ps, RX_BUF_LEN)
    ensures AllAcceptable(ps[j..], RX_BUF_LEN)
  {
    if j > 0 {
      AcceptableFrom(ps[1..], j - 1);
      assert ps[1..][j - 1..] == ps[j..];
    } else {
      assert ps[0..] == ps;
    }
  }

  /** A framed call of the reader takes one whole packet off, or none. */
  lemma ReadWhole(w: Wire)
    requires Framed(PacketReader.ReadPacket(w, RX_BUF_LEN))
    ensures WholePackets(w, PacketReader.ReadPacket(w, RX_BUF_LEN).wire)
  {
    hide PacketReader.ReadPacket, Holds, AllAcceptable;
    var p := PacketReader.ReadPacket(w, RX_BUF_LEN);
    forall ps: seq<Packet> | Holds(w, ps) && AllAcceptable(ps, RX_BUF_LEN)
      ensures exists k :: 0 <= k <= |ps| && Holds(p.wire, ps[k..])
    {
      assert ps[0..] == ps;
      if ps == [] {
        StreamEnds(w);
      } else {
        OnePacketOff(w, ps, RX_BUF_LEN);
      }
    }
  }

  lemma StreamEnds(w: Wire)
    requires Holds(w, [])
    ensures Holds(PacketReader.ReadPacket(w, RX_BUF_LEN).wire, [])
  {
    EmptyRun(w, [], RX_BUF_LEN);
    RecvNothing(w, 1);
  }

  ghost predicate CallsFrom(calls: seq<Call>, from: nat, depth: nat) {
    forall k :: from <= k < |calls| ==> calls[k].depth >= depth
  }

  ghost predicate NoDeadlock(a: Client, b: Client) {
    a.locks == [] && a.held == {} ==> b.locks == [] && b.faults == a.faults
  }

  /** And, as long as no mutex call failed, every callback ran in the state that keeps yield out. */
  ghost predicate Later(a: Client, b: Client) {
    Keeps(a, b) && (!b.broken && a.faults == b.faults ==> CallsWait(b.calls, |a.calls|))
  }

  ghost predicate CallsWait(calls: seq<Call>, from: nat) {
    forall k :: from <= k < |calls| ==> calls[k].state == WaitForCbReturn
  }

  lemma LaterItself(a: Client)
    ensures Later(a, a)
  {
    NoPackets(a.wire);
    hide WholePackets;
  }

  lemma LaterTrans(a: Client, b: Client, c: Client)
    requires Later(a, b) && Later(b, c)
    ensures Later(a, c)
  {
    MorePackets(a.wire, b.wire, c.wire);
    hide WholePackets;
  }

  /** An operation between a change of the client state and its undoing. */
  lemma LaterBracket(a: Client, b: Client, c: Client, d: Client)
    requires StateOnly(a, b) && StateOnly(c, d) && Keeps(b, c) && (a.faults == b.faults ==> Later(b, c))
    requires !c.broken && a.faults == d.faults ==> d.state == a.state
    ensures Later(a, d)
  {
    hide WholePackets;
  }

  /** What SetState may change. */
  ghost predicate StateOnly(a: Client, b: Client) {
    && b == a.(state := b.state, held := b.held, faults := b.faults, locks := b.locks)
    && a.faults <= b.faults && (a.faults == b.faults ==> a.held == b.held) && NoDeadlock(a, b)
  }

  /** Compare and set: the state changes exactly when the mutex was obtained and the expected state was
      the current one, and then success means that the mutex was released as well. */
  lemma SetStateIs(c: Client, expected: ClientState, newState: ClientState)
    ensures var r := SetState(c, expected, newState);
            var locked, unlocked := StateChange !in c.held && Granted(c.locks), Granted(Rest(c.locks));
            && StateOnly(c, r.c)
            && r.c.state == (if locked && expected == c.state then newState else c.state)
            && r.rc == (if !locked then MutexLockError
                        else if expected != c.state then UnexpectedClientState
                        else if !unlocked then MutexLockError else Success)
            && r.c.faults == c.faults + (if locked && unlocked then 0 else 1)
  {
  }

  lemma SendLater(c: Client, length: nat, left: nat)
    ensures Later(c, Send(c, length, left).c)
  {
    hide Transmit, StaysInside, NeverNegative, WholePackets;
    NoPackets(c.wire);
    if length < TX_BUF_LEN {
      SendHonest(c, length, left);
    }
  }

  lemma SendHonest(c: Client, length: nat, left: nat)
    requires length < TX_BUF_LEN
    ensures c.Honest() ==> NeverNegative(Transmit(c.writes, left, length, 0, c.writeBuf + c.readBuf).writes)
  {
    hide Transmit, NeverNegative;
    if c.Honest() {
      HonestEnds(c.writes, left, length, 0, c.writeBuf + c.readBuf);
    }
  }

  lemma FetchLater(c: Client)
    ensures Later(c, Fetch(c).c)
  {
    hide PacketReader.ReadPacket, ReadInto, NeverNegative, WholePackets, Framed, Later, Lock, Unlock;
    NoPackets(c.wire);
    var p, l := PacketReader.ReadPacket(c.wire, RX_BUF_LEN), Lock(c, TlsRead);
    LockIs(c, TlsRead);
    if l.rc == Success {
      if Framed(p) {
        ReadWhole(c.wire);
      }
      if p.wire.pos == c.wire.pos {
        ReadIntoQuiet(c.wire, c.readBuf);
      }
      UnlockIs(c, l.c, Read(l.c), TlsRead);
    }
    LaterRead(c, Fetch(c).c);
  }

  lemma LockIs(c: Client, m: Mutex)
    ensures var l := Lock(c, m);
            && l.c == c.(locks := l.c.locks, held := l.c.held, faults := l.c.faults)
            && c.faults <= l.c.faults && (l.rc == Success <==> c.faults == l.c.faults)
            && (l.rc == Success ==> m !in c.held && l.c.held == c.held + {m})
            && (l.rc != Success ==> l.c.held == c.held)
            && (c.locks == [] && c.held == {} ==> l.c.locks == [] && l.rc == Success)
  {
  }

  /** `a` before the mutex was obtained, `b` after, `c` when it is released. */
  lemma UnlockIs(a: Client, b: Client, c: Client, m: Mutex)
    requires m !in a.held && b.held == a.held + {m} && c.held == b.held && b.faults == c.faults == a.faults
    requires b.locks == c.locks
    ensures var u := Unlock(c, m).c;
            && u == c.(locks := u.locks, held := u.held, faults := u.faults)
            && a.faults <= u.faults && (a.faults == u.faults ==> u.held == a.held)
            && (b.locks == [] ==> u.locks == [] && u.faults == a.faults)
  {
  }

  /** A read under a mutex. */
  lemma LaterRead(a: Client, b: Client)
    requires b == a.(wire := b.wire, readBuf := b.readBuf, lost := b.lost, broken := b.broken,
                     held := b.held, faults := b.faults, locks := b.locks)
    requires (a.lost ==> b.lost) && (!b.lost ==> WholePackets(a.wire, b.wire)) && (a.broken ==> b.broken)
    requires a.wire.LeadsTo(b.wire) && (a.wire.pos == b.wire.pos ==> a.readBuf == b.readBuf)
    requires a.faults <= b.faults && (a.faults == b.faults ==> a.held == b.held) && NoDeadlock(a, b)
    ensures Later(a, b)
  {
    hide WholePackets, NeverNegative;
  }

  lemma {:induction false} CycleLater(hs: seq<Handler>, c: Client, left: nat, typeBefore: nat)
    ensures Later(c, Cycle(hs, c, left, typeBefore).c)
    decreases c.Remaining(), 1
  {
    hide Later, Fetch, Dispatch, HoldsFrame, Onward;
    FetchLater(c);
    FetchOnward(c);
    var f := Fetch(c);
    if f.due {
      DispatchLater(hs, f.c, PacketType(f.c.readBuf[0]), left);
      LaterTrans(c, f.c, Dispatch(hs, f.c, PacketType(f.c.readBuf[0]), left).c);
    }
  }

  lemma {:induction false} DispatchLater(hs: seq<Handler>, c: Client, packetType: nat, left: nat)
    requires HoldsFrame(c.readBuf)
    ensures Later(c, Dispatch(hs, c, packetType, left).c)
    decreases c.Remaining(), 7
  {
    hide Handle, HoldsFrame, WholePackets;
    NoPackets(c.wire);
    if packetType == PUBLISH {
      hide Later;
      HandleLater(hs, c, left);
    }
  }

  lemma {:induction false} WaitLater(hs: seq<Handler>, c: Client, packetType: nat, left: nat, typeBefore: nat)
    requires typeBefore != packetType
    ensures Later(c, Wait(hs, c, packetType, left, typeBefore).c)
    decreases c.Remaining(), 2, left
  {
    hide Later, Cycle, HoldsFrame, Onward;
    LaterItself(c);
    if left > 0 {
      var r := Cycle(hs, c, left - 1, typeBefore);
      CycleLater(hs, c, left - 1, typeBefore);
      OnwardRemaining(c, r.c);
      if r.packetType != packetType {
        WaitLater(hs, r.c, packetType, r.left, r.packetType);
        LaterTrans(c, r.c, Wait(hs, r.c, packetType, r.left, r.packetType).c);
      }
    }
  }

  lemma OnwardRemaining(a: Client, b: Client)
    requires Onward(a, b)
    ensures b.Remaining() <= a.Remaining()
  {
  }

  lemma {:induction false} HandleLater(hs: seq<Handler>, c: Client, left: nat)
    requires HoldsFrame(c.readBuf)
    ensures Later(c, Handle(hs, c, left).c)
    decreases c.Remaining(), 6
  {
    hide HoldsFrame, ParsePublish, Deliver, Send, Store, PubackBytes, WholePackets;
    NoPackets(c.wire);
    var p := ParsePublish(c.readBuf);
    if p.rc == Success {
      hide Later;
      DeliverLater(hs, c, p.topicOff, p.topicLen);
      var d := Deliver(hs, c, p.topicOff, p.topicLen).c;
      var w := d.(writeBuf := Store(d.writeBuf, 0, PubackBytes(p.id)));
      SendLater(w, 4, left);
      LaterOwn(c, d, w, Send(w, 4, left).c);
    }
  }

  /** Filling the transmit buffer, or taking an identifier, is no change. */
  lemma LaterOwn(a: Client, b: Client, c: Client, d: Client)
    requires Later(a, b) && c == b.(writeBuf := c.writeBuf, lastId := c.lastId) && Later(c, d)
    ensures Later(a, d)
  {
    MorePackets(a.wire, b.wire, d.wire);
    hide WholePackets;
  }

  lemma LaterRefl(b: Client, c: Client)
    requires c == b.(writeBuf := c.writeBuf, lastId := c.lastId)
    ensures Later(b, c)
  {
    NoPackets(b.wire);
    hide WholePackets;
  }

  lemma {:induction false} DeliverLater(hs: seq<Handler>, c: Client, off: nat, len: nat)
    requires off + len <= RX_BUF_LEN
    ensures Later(c, Deliver(hs, c, off, len).c)
    ensures var r := Deliver(hs, c, off, len); !r.c.broken && r.c.faults == c.faults ==> r.rc == Success
    decreases c.Remaining(), 5
  {
    hide Later, Keeps, SetState, DeliverFrom, StateOnly;
    var b := SetState(c, c.state, WaitForCbReturn).c;
    var d := DeliverFrom(hs, b, off, len, 0);
    SetStateIs(c, c.state, WaitForCbReturn);
    SetStateIs(d, WaitForCbReturn, c.state);
    StateOnlyIs(c, b);
    DeliverFromLater(hs, b, off, len, 0);
    Ends(c, b, d, SetState(d, WaitForCbReturn, c.state).c);
    LaterBracket(c, b, d, SetState(d, WaitForCbReturn, c.state).c);
  }

  lemma StateOnlyIs(a: Client, b: Client)
    requires StateOnly(a, b)
    ensures a.wire == b.wire && a.faults <= b.faults && a.broken == b.broken && a.calls == b.calls
    ensures a.depth == b.depth && a.Remaining() == b.Remaining() && a.readBuf == b.readBuf
  {
  }

  lemma Ends(a: Client, b: Client, c: Client, d: Client)
    requires StateOnly(a, b) && Keeps(b, c) && StateOnly(c, d)
    ensures a.faults <= b.faults && c.faults <= d.faults && c.broken == d.broken && (b.broken ==> c.broken)
    ensures !c.broken ==> b.faults <= c.faults && (b.faults == c.faults ==> b.state == c.state)
  {
  }

  lemma {:induction false} DeliverFromLater(hs: seq<Handler>, c: Client, off: nat, len: nat, itr: nat)
    requires off + len <= RX_BUF_LEN && itr <= |hs|
    ensures Keeps(c, DeliverFrom(hs, c, off, len, itr))
    ensures c.state == WaitForCbReturn ==> Later(c, DeliverFrom(hs, c, off, len, itr))
    decreases c.Remaining(), 4, |hs| - itr
  {
    hide Later, Keeps, ClientSpec.Turn, Onward;
    LaterParts(c, c);
    if itr < |hs| {
      var t := ClientSpec.Turn(hs, c, off, len, itr);
      TurnLater(hs, c, off, len, itr);
      OnwardRemaining(c, t);
      DeliverFromLater(hs, t, off, len, itr + 1);
      Onwards(c, t, DeliverFrom(hs, t, off, len, itr + 1));
    }
  }

  lemma LaterParts(a: Client, b: Client)
    ensures Later(a, b) ==> Keeps(a, b)
    ensures a == b ==> Later(a, b)
  {
    NoPackets(a.wire);
    hide WholePackets;
  }

  lemma Onwards(a: Client, b: Client, c: Client)
    requires Keeps(a, b) && (a.state == WaitForCbReturn ==> Later(a, b))
    requires Keeps(b, c) && (b.state == WaitForCbReturn ==> Later(b, c))
    ensures Keeps(a, c) && (a.state == WaitForCbReturn ==> Later(a, c))
  {
    MorePackets(a.wire, b.wire, c.wire);
    hide WholePackets;
  }

  lemma {:induction false} TurnLater(hs: seq<Handler>, c: Client, off: nat, len: nat, itr: nat)
    requires off + len <= RX_BUF_LEN && itr < |hs|
    ensures Keeps(c, ClientSpec.Turn(hs, c, off, len, itr))
    ensures c.state == WaitForCbReturn ==> Later(c, ClientSpec.Turn(hs, c, off, len, itr))
    decreases c.Remaining(), 4, 0, 1
  {
    hide Later, Keeps, Invoke, Selected;
    LaterParts(c, c);
    InvokeLater(hs, c, itr, c.readBuf[off..off + len]);
  }

  lemma {:induction false} InvokeLater(hs: seq<Handler>, c: Client, index: nat, topic: seq<byte>)
    ensures var r := Invoke(hs, c, index, topic);
            && Keeps(c, r) && (c.state == WaitForCbReturn ==> Later(c, r))
            && (!r.broken ==> c.calls + [Call(index, topic, c.state, c.depth)] <= r.calls
                              && CallsFrom(r.calls, |c.calls| + 1, c.depth + 1))
    decreases c.Remaining(), 4, 0, 0
  {
    hide PublishAll;
    var e, pubs := Entered(c, index, topic), if c.apps == [] then [] else c.apps[0];
    PublishAllLater(hs, e, pubs);
    var call := Call(index, topic, c.state, c.depth);
    CallMade(c, e, PublishAll(hs, e, pubs), call);
  }

  lemma CallMade(a: Client, e: Client, b: Client, call: Call)
    requires e == a.(calls := a.calls + [call], depth := a.depth + 1, apps := e.apps) && Later(e, b)
    requires call.depth == a.depth && call.state == a.state
    ensures var r := b.(depth := a.depth);
            && Keeps(a, r) && (a.state == WaitForCbReturn ==> Later(a, r))
            && (!b.broken ==> a.calls + [call] <= r.calls && CallsFrom(r.calls, |a.calls| + 1, a.depth + 1))
  {
    hide WholePackets;
  }

  lemma {:induction false} PublishAllLater(hs: seq<Handler>, c: Client, pubs: seq<Publication>)
    ensures Later(c, PublishAll(hs, c, pubs))
    decreases c.Remaining(), 3, 1, |pubs|
  {
    hide Later, Publish, Onward;
    LaterItself(c);
    if pubs != [] {
      if pubs[0].msg.Sendable() {
        var p := Publish(hs, c, pubs[0].msg, pubs[0].time).c;
        PublishLater(hs, c, pubs[0].msg, pubs[0].time);
        OnwardRemaining(c, p);
        PublishAllLater(hs, p, pubs[1..]);
        LaterTrans(c, p, PublishAll(hs, p, pubs[1..]));
      } else {
        PublishAllLater(hs, c, pubs[1..]);
      }
    }
  }

  lemma {:induction false} PublishLater(hs: seq<Handler>, c: Client, msg: Message, time: nat)
    requires msg.Sendable()
    ensures Later(c, Publish(hs, c, msg, time).c)
    decreases c.Remaining(), 3, 0
  {
    hide Later, Keeps, SetState, InternalPublish, StateOnly;
    LaterItself(c);
    var e := SetState(c, c.state, PublishInProgress);
    SetStateIs(c, c.state, PublishInProgress);
    StateOnlyIs(c, e.c);
    if e.rc != Success {
      StateFailed(c, e.c);
    } else {
      InternalLater(hs, e.c, msg, time);
      var p := InternalPublish(hs, e.c, msg, time).c;
      SetStateIs(p, PublishInProgress, c.state);
      LaterParts(e.c, p);
      Ends(c, e.c, p, SetState(p, PublishInProgress, c.state).c);
      LaterBracket(c, e.c, p, SetState(p, PublishInProgress, c.state).c);
    }
  }

  lemma StateFailed(a: Client, b: Client)
    requires StateOnly(a, b) && a.faults < b.faults
    ensures Later(a, b)
  {
    NoPackets(a.wire);
    hide WholePackets;
  }

  lemma {:induction false} InternalLater(hs: seq<Handler>, c: Client, msg: Message, time: nat)
    requires msg.Sendable()
    ensures Later(c, InternalPublish(hs, c, msg, time).c)
    decreases c.Remaining(), 3, 0, 0
  {
    hide Later, Send, Wait, TooLarge, PacketOf, ParseAck, HoldsFrame, Store, Onward;
    if TooLarge(msg) {
      LaterRefl(c, Numbered(c, msg));
    } else {
      SendMessageLater(c, msg, time);
      var s := SendMessage(c, msg, time);
      WaitLater(hs, s.c, PUBACK, s.left, 0);
      LaterTrans(c, s.c, Wait(hs, s.c, PUBACK, s.left, 0).c);
    }
  }

  lemma SendMessageLater(c: Client, msg: Message, time: nat)
    requires msg.Sendable() && !TooLarge(msg)
    ensures Later(c, SendMessage(c, msg, time).c)
  {
    hide Later, Send, TooLarge, PacketOf, Store;
    PacketFits(c, msg);
    var w := Numbered(c, msg).(writeBuf := Store(c.writeBuf, 0, PacketOf(c, msg)));
    SendLater(w, |PacketOf(c, msg)|, time);
    LaterItself(c);
    LaterOwn(c, c, w, Send(w, |PacketOf(c, msg)|, time).c);
  }

  // ---- Whom a message is delivered to

  /** A handler that was called, and the topic it was given. */
  datatype Pick = Pick(slot: nat, topic: seq<byte>)

  /** The callbacks at a depth, without those they enclose. */
  function Picks(calls: seq<Call>, depth: nat): seq<Pick> {
    if calls == [] then []
    else (if calls[0].depth == depth then [Pick(calls[0].index, calls[0].topic)] else []) + Picks(calls[1..], depth)
  }

  /** The bytes at the topic's place when each slot has its turn, from slot `itr` on. */
  function Seen(hs: seq<Handler>, c: Client, off: nat, len: nat, itr: nat): (names: seq<seq<byte>>)
    requires off + len <= RX_BUF_LEN && itr <= |hs|
    ensures |names| == |hs| - itr
    decreases |hs| - itr
  {
    if itr == |hs| then []
    else [c.readBuf[off..off + len]] + Seen(hs, ClientSpec.Turn(hs, c, off, len, itr), off, len, itr + 1)
  }

  /** The slots from `itr` on that are selected by the names at their turns, in table order. */
  function SelectedBy(hs: seq<Handler>, names: seq<seq<byte>>, itr: nat): seq<Pick>
    requires itr <= |hs| && |names| == |hs| - itr
    decreases |hs| - itr
  {
    if itr == |hs| then []
    else (if Selected(hs[itr], names[0]) then [Pick(itr, names[0])] else []) + SelectedBy(hs, names[1..], itr + 1)
  }

  function Slots(picks: seq<Pick>): (s: seq<nat>)
    ensures |s| == |picks|
  {
    seq(|picks|, i requires 0 <= i < |picks| => picks[i].slot)
  }

  lemma {:induction false} PicksConcat(a: seq<Call>, b: seq<Call>, depth: nat)
    ensures Picks(a + b, depth) == Picks(a, depth) + Picks(b, depth)
    decreases |a|
  {
    if a == [] {
      assert a + b == b;
    } else {
      PicksConcat(a[1..], b, depth);
      var head := if a[0].depth == depth then [Pick(a[0].index, a[0].topic)] else [];
      var x, y := Picks(a[1..], depth), Picks(b, depth);
      assert Picks(a + b, depth) == head + (x + y) by {
        assert (a + b)[0] == a[0] && (a + b)[1..] == a[1..] + b;
      }
      hide Picks;
      assert head + (x + y) == (head + x) + y;
    }
  }

  lemma {:induction false} NoPicks(calls: seq<Call>, depth: nat)
    requires CallsFrom(calls, 0, depth + 1)
    ensures Picks(calls, depth) == []
    decreases |calls|
  {
    if calls != [] {
      NoPicks(calls[1..], depth);
    }
  }

  /** One turn: the slot is called, with the name of its turn, exactly if that name selects it. */
  lemma TurnPicks(hs: seq<Handler>, c: Client, off: nat, len: nat, itr: nat)
    requires off + len <= RX_BUF_LEN && itr < |hs|
    ensures var t, name := ClientSpec.Turn(hs, c, off, len, itr), c.readBuf[off..off + len];
            !t.broken ==> c.calls <= t.calls && !c.broken
                          && Picks(t.calls[|c.calls|..], c.depth) == if Selected(hs[itr], name) then [Pick(itr, name)] else []
  {
    TurnLater(hs, c, off, len, itr);
    var t, name := ClientSpec.Turn(hs, c, off, len, itr), c.readBuf[off..off + len];
    if !t.broken && Selected(hs[itr], name) {
      InvokeLater(hs, c, itr, name);
      var call := Call(itr, name, c.state, c.depth);
      hide Invoke, Selected, Later;
      var n := |c.calls|;
      NestedPicks(t.calls, n, call);
    }
    hide Invoke, Selected, Later, Picks;
    if !t.broken && !Selected(hs[itr], name) {
      assert t.calls[|c.calls|..] == [];
      NoPicks([], c.depth);
    }
  }

  lemma NestedPicks(calls: seq<Call>, n: nat, call: Call)
    requires n < |calls| && calls[n] == call && CallsFrom(calls, n + 1, call.depth + 1)
    ensures Picks(calls[n..], call.depth) == [Pick(call.index, call.topic)]
  {
    assert calls[n..][1..] == calls[n + 1..];
    NoPicks(calls[n + 1..], call.depth);
  }

  lemma Tails(a: seq<Call>, b: seq<Call>, c: seq<Call>)
    requires a <= b <= c
    ensures c[|a|..] == b[|a|..] + c[|b|..]
  {
  }

  lemma {:induction false} DeliverFromPicks(hs: seq<Handler>, c: Client, off: nat, len: nat, itr: nat)
    requires off + len <= RX_BUF_LEN && itr <= |hs|
    ensures var d := DeliverFrom(hs, c, off, len, itr);
            !d.broken ==> c.calls <= d.calls
                          && Picks(d.calls[|c.calls|..], c.depth) == SelectedBy(hs, Seen(hs, c, off, len, itr), itr)
    decreases |hs| - itr
  {
    hide ClientSpec.Turn, Selected, Picks, Later, CallsFrom, Onward, Keeps;
    var d := DeliverFrom(hs, c, off, len, itr);
    if itr < |hs| {
      var t := ClientSpec.Turn(hs, c, off, len, itr);
      TurnPicks(hs, c, off, len, itr);
      TurnLater(hs, c, off, len, itr);
      DeliverFromPicks(hs, t, off, len, itr + 1);
      DeliverFromLater(hs, t, off, len, itr + 1);
      assert Seen(hs, c, off, len, itr)[1..] == Seen(hs, t, off, len, itr + 1);
      StillWhole(t, d);
      SameDepth(c, t);
      if !d.broken {
        Tails(c.calls, t.calls, d.calls);
        PicksConcat(t.calls[|c.calls|..], d.calls[|t.calls|..], c.depth);
      }
    } else if !d.broken {
      NoneSince(c.calls, c.depth);
    }
  }

  lemma StillWhole(a: Client, b: Client)
    requires Keeps(a, b)
    ensures !b.broken ==> !a.broken
  {
    hide WholePackets, CallsFrom, NoDeadlock, NeverNegative;
  }

  lemma SameDepth(a: Client, b: Client)
    requires Keeps(a, b)
    ensures !b.broken ==> a.depth == b.depth
  {
    hide WholePackets, CallsFrom, NoDeadlock, NeverNegative;
  }

  lemma NoneSince(calls: seq<Call>, depth: nat)
    ensures Picks(calls[|calls|..], depth) == []
  {
  }

  /** Two lists of names select the same slots exactly if each slot is selected by both or by neither. */
  lemma {:induction false} SameSlots(hs: seq<Handler>, a: seq<seq<byte>>, b: seq<seq<byte>>, itr: nat)
    requires itr <= |hs| && |a| == |b| == |hs| - itr
    ensures Slots(SelectedBy(hs, a, itr)) == Slots(SelectedBy(hs, b, itr)) <==>
            forall i :: itr <= i < |hs| ==> (Selected(hs[i], a[i - itr]) <==> Selected(hs[i], b[i - itr]))
    decreases |hs| - itr
  {
    hide Selected;
    if itr < |hs| {
      SameSlots(hs, a[1..], b[1..], itr + 1);
      SlotsFrom(hs, a[1..], itr + 1);
      SlotsFrom(hs, b[1..], itr + 1);
      var x, y := SelectedBy(hs, a[1..], itr + 1), SelectedBy(hs, b[1..], itr + 1);
      var p, q := SelectedBy(hs, a, itr), SelectedBy(hs, b, itr);
      var s, t := Selected(hs[itr], a[0]), Selected(hs[itr], b[0]);
      SlotsOf(p, x, itr, a[0], s);
      SlotsOf(q, y, itr, b[0], t);
      SlotsApart(Slots(x), Slots(y), itr, s, t);
    }
  }

  lemma SlotsOf(p: seq<Pick>, x: seq<Pick>, slot: nat, name: seq<byte>, selected: bool)
    requires p == (if selected then [Pick(slot, name)] else []) + x
    ensures Slots(p) == (if selected then [slot] else []) + Slots(x)
  {
  }

  lemma SlotsApart(x: seq<nat>, y: seq<nat>, slot: nat, s: bool, t: bool)
    requires (forall k :: 0 <= k < |x| ==> x[k] > slot) && (forall k :: 0 <= k < |y| ==> y[k] > slot)
    ensures (if s then [slot] else []) + x == (if t then [slot] else []) + y <==> s == t && x == y
  {
    var p, q := (if s then [slot] else []) + x, (if t then [slot] else []) + y;
    if s == t {
      assert s ==> p[1..] == x && q[1..] == y;
      assert !s ==> p == x && q == y;
    } else if s {
      assert p[0] == slot && (q == [] || q[0] > slot);
    } else {
      assert q[0] == slot && (p == [] || p[0] > slot);
    }
  }

  lemma {:induction false} SlotsFrom(hs: seq<Handler>, names: seq<seq<byte>>, itr: nat)
    requires itr <= |hs| && |names| == |hs| - itr
    ensures var s := Slots(SelectedBy(hs, names, itr));
            && (forall k :: 0 <= k < |s| ==> itr <= s[k] < |hs|)
            && (forall j, k :: 0 <= j < k < |s| ==> s[j] < s[k])
            && (forall i :: itr <= i < |hs| ==> (Selected(hs[i], names[i - itr]) <==> i in s))
    decreases |hs| - itr
  {
    hide Selected;
    if itr < |hs| {
      SlotsFrom(hs, names[1..], itr + 1);
      var rest := SelectedBy(hs, names[1..], itr + 1);
      SlotsOf(SelectedBy(hs, names, itr), rest, itr, names[0], Selected(hs[itr], names[0]));
    }
  }

  lemma SamePlace(a: Client, b: Client, c: Client)
    requires Keeps(a, b) && Keeps(b, c)
    ensures !c.broken && a.wire.pos == c.wire.pos ==> !b.broken && a.wire.pos == b.wire.pos && a.readBuf == b.readBuf
  {
    hide WholePackets, CallsFrom, NoDeadlock, NeverNegative;
  }

  /** If the callbacks take nothing off the stream, every slot sees the topic of the message. */
  lemma {:induction false} SeenStill(hs: seq<Handler>, c: Client, off: nat, len: nat, itr: nat)
    requires off + len <= RX_BUF_LEN && itr <= |hs|
    ensures var d := DeliverFrom(hs, c, off, len, itr);
            !d.broken && d.wire.pos == c.wire.pos ==>
              Seen(hs, c, off, len, itr) == Repeat(c.readBuf[off..off + len], |hs| - itr)
    decreases |hs| - itr
  {
    hide Keeps, Later, ClientSpec.Turn;
    if itr < |hs| {
      var t := ClientSpec.Turn(hs, c, off, len, itr);
      TurnLater(hs, c, off, len, itr);
      DeliverFromLater(hs, t, off, len, itr + 1);
      SeenStill(hs, t, off, len, itr + 1);
      SamePlace(c, t, DeliverFrom(hs, t, off, len, itr + 1));
    }
  }

  /** For every behaviour of the callbacks, and whatever mutex calls fail: the handlers that a delivery
      calls itself are exactly those that are selected by the bytes at the topic's place at their
      turn, each once, in table order and with those bytes as the topic. They are the handlers for
      the message's topic exactly if each slot is selected by what it sees when it is selected by the
      topic. That is so if callbacks take nothing off the stream. */
  lemma DeliverExact(hs: seq<Handler>, c: Client, off: nat, len: nat)
    requires off + len <= RX_BUF_LEN
    ensures var r := Deliver(hs, c, off, len).c;
            var topic := c.readBuf[off..off + len];
            var names := Seen(hs, SetState(c, c.state, WaitForCbReturn).c, off, len, 0);
            !r.broken ==>
              && c.calls <= r.calls
              && Picks(r.calls[|c.calls|..], c.depth) == SelectedBy(hs, names, 0)
              && (hs != [] ==> names[0] == topic)
              && (Slots(SelectedBy(hs, names, 0)) == Slots(SelectedBy(hs, Repeat(topic, |hs|), 0)) <==>
                    forall i :: 0 <= i < |hs| ==> (Selected(hs[i], names[i]) <==> Selected(hs[i], topic)))
              && (r.wire.pos == c.wire.pos ==> names == Repeat(topic, |hs|))
  {
    hide SetState, Deliver, DeliverFrom, Seen, Selected, SelectedBy, Slots, Picks, Onward, NeverNegative;
    var b := SetState(c, c.state, WaitForCbReturn).c;
    var topic := c.readBuf[off..off + len];
    DeliverBracket(hs, c, off, len);
    DeliverFromPicks(hs, b, off, len, 0);
    SeenStill(hs, b, off, len, 0);
    SeenFirst(hs, b, off, len);
    SameSlots(hs, Seen(hs, b, off, len, 0), Repeat(topic, |hs|), 0);
  }

  /** The changes of the client state around the loop touch nothing that the loop looks at. */
  lemma DeliverBracket(hs: seq<Handler>, c: Client, off: nat, len: nat)
    requires off + len <= RX_BUF_LEN
    ensures var b, r := SetState(c, c.state, WaitForCbReturn).c, Deliver(hs, c, off, len).c;
            var d := DeliverFrom(hs, b, off, len, 0);
            && b.readBuf == c.readBuf && b.calls == c.calls && b.depth == c.depth && b.wire == c.wire
            && r.calls == d.calls && r.broken == d.broken && r.wire == d.wire
  {
    hide SetState, DeliverFrom, StateOnly;
    var b := SetState(c, c.state, WaitForCbReturn).c;
    var d := DeliverFrom(hs, b, off, len, 0);
    SetStateIs(c, c.state, WaitForCbReturn);
    StateOnlyIs(c, b);
    SetStateIs(d, WaitForCbReturn, c.state);
    StateOnlyIs(d, SetState(d, WaitForCbReturn, c.state).c);
  }

  lemma SeenFirst(hs: seq<Handler>, c: Client, off: nat, len: nat)
    requires off + len <= RX_BUF_LEN
    ensures hs != [] ==> Seen(hs, c, off, len, 0)[0] == c.readBuf[off..off + len]
  {
    hide ClientSpec.Turn;
  }

  // ---- Waiting for a packet

  /** A cycle of a wait, with what it was given and what came of it. */
  datatype CycleRun = CycleRun(before: Client, left: nat, typeBefore: nat, out: Cycled) {
    predicate Begins(c: Client, askable: nat, packetType: nat) {
      before == c && askable == left + 1 && typeBefore == packetType
    }
  }

  /** The cycles that a wait runs. */
  function Cycles(hs: seq<Handler>, c: Client, packetType: nat, left: nat, typeBefore: nat): seq<CycleRun>
    requires typeBefore != packetType
    decreases c.Remaining(), left
  {
    if left == 0 then []
    else
      var r := Cycle(hs, c, left - 1, typeBefore);
      [CycleRun(c, left - 1, typeBefore, r)] +
      if r.packetType == packetType then [] else Cycles(hs, r.c, packetType, r.left, r.packetType)
  }

  /** The cycle read a packet of this type. */
  predicate Got(run: CycleRun, packetType: nat) {
    run.out.read && run.out.packetType == packetType
  }

  /** A run of cycles from `c` to `end`: each is a cycle of the client, and each begins where the one
      before it ended, with the type that one left and one question less to the timer. */
  ghost predicate Chained(hs: seq<Handler>, runs: seq<CycleRun>, c: Client, left: nat, typeBefore: nat, end: Client) {
    && (forall k :: 0 <= k < |runs| ==> IsCycle(hs, runs[k]))
    && (if runs == [] then c == end else runs[0].Begins(c, left, typeBefore) && runs[|runs| - 1].out.c == end)
    && (forall k :: 0 < k < |runs| ==>
          runs[k].Begins(runs[k - 1].out.c, runs[k - 1].out.left, runs[k - 1].out.packetType))
  }

  ghost predicate IsCycle(hs: seq<Handler>, run: CycleRun) {
    run.out == Cycle(hs, run.before, run.left, run.typeBefore)
  }

  /** A cycle that reads nothing leaves the type as it was, and no cycle's code is one of the two that
      end a wait in another way. */
  lemma {:induction false} CycleCodes(hs: seq<Handler>, c: Client, left: nat, typeBefore: nat)
    ensures var r := Cycle(hs, c, left, typeBefore);
            && (!r.read ==> r.packetType == typeBefore)
            && r.rc != RequestTimeout && r.rc != NetworkDisconnected
  {
    hide HoldsFrame, PacketType, ReadInto, Deliver, ParsePublish, Send, Onward;
    FetchOnward(c);
    var f := Fetch(c);
    if f.due && PacketType(f.c.readBuf[0]) == PUBLISH {
      HandleCodes(hs, f.c, left);
    }
  }

  lemma HandleCodes(hs: seq<Handler>, c: Client, left: nat)
    requires HoldsFrame(c.readBuf)
    ensures var rc := Handle(hs, c, left).rc; rc != RequestTimeout && rc != NetworkDisconnected
  {
    hide HoldsFrame, DeliverFrom, ParsePublish, Transmit, PubackBytes, Store, Onward;
  }

  /** A cycle that read a packet of a forwarded type took exactly that packet off the stream, left it in
      the buffer, ran no callback and sent nothing; only a mutex failure gives it another code than
      success. */
  lemma CycleReads(hs: seq<Handler>, c: Client, left: nat, typeBefore: nat)
    requires var r := Cycle(hs, c, left, typeBefore); r.read && r.packetType != PUBLISH
    ensures var r, p := Cycle(hs, c, left, typeBefore), PacketReader.ReadPacket(c.wire, RX_BUF_LEN);
            !r.c.broken ==>
              && p.rc == Success && PacketType(p.packet[0]) == r.packetType
              && r.c.wire == p.wire && r.c.readBuf == Store(c.readBuf, 0, p.packet)
              && r.c.calls == c.calls && r.c.outgoing == c.outgoing
              && (Forwarded(r.packetType) ==> r.rc == Success || (r.rc == MutexLockError && r.c.faults > c.faults))
  {
    hide HoldsFrame, PacketType, ReadInto, Handle, Onward, PacketReader.ReadPacket, Store;
    FetchOnward(c);
    if PacketReader.ReadPacket(c.wire, RX_BUF_LEN).rc == Success {
      ReadIntoPacket(c.wire, c.readBuf);
    }
  }

  /** For every stream, every mutex behaviour and every behaviour of callbacks: a wait is the run of its
      cycles. It ends with a timeout exactly if none of them read the type waited for, and then its
      timer has expired; otherwise it ends with the code of its last cycle, which is the first to
      read that type. So the mismatch branch behind the loop, which `Wait` does not have, is never
      taken. */
  lemma {:induction false} WaitExact(hs: seq<Handler>, c: Client, packetType: nat, left: nat, typeBefore: nat)
    requires typeBefore != packetType
    ensures var w, runs := Wait(hs, c, packetType, left, typeBefore), Cycles(hs, c, packetType, left, typeBefore);
            !w.c.broken ==>
              && Chained(hs, runs, c, left, typeBefore, w.c)
              && w.left == (if runs == [] then left else runs[|runs| - 1].out.left)
              && (forall k :: 0 <= k < |runs| - 1 ==> !Got(runs[k], packetType))
              && (w.rc == RequestTimeout <==> runs == [] || !Got(runs[|runs| - 1], packetType))
              && (w.rc == RequestTimeout ==> w.left == 0)
              && (w.rc != RequestTimeout ==> w.rc == runs[|runs| - 1].out.rc)
    decreases c.Remaining(), left
  {
    hide Cycle, HoldsFrame, Onward;
    if left > 0 {
      var r := Cycle(hs, c, left - 1, typeBefore);
      var first := CycleRun(c, left - 1, typeBefore, r);
      CycleCodes(hs, c, left - 1, typeBefore);
      CycleOnward(hs, c, left - 1, typeBefore);
      if r.packetType != packetType {
        WaitExact(hs, r.c, packetType, r.left, r.packetType);
        var rest := Cycles(hs, r.c, packetType, r.left, r.packetType);
        var runs := [first] + rest;
        assert forall k :: 0 < k < |runs| ==> runs[k] == rest[k - 1];
        hide Wait, Cycles, Got;
        if !Wait(hs, r.c, packetType, r.left, r.packetType).c.broken {
          ChainedCons(hs, first, rest, Wait(hs, r.c, packetType, r.left, r.packetType).c);
        }
      }
    }
  }

  lemma CycleOnward(hs: seq<Handler>, c: Client, left: nat, typeBefore: nat)
    ensures var r := Cycle(hs, c, left, typeBefore); r.c.Remaining() <= c.Remaining() && r.left <= left
  {
  }

  lemma ChainedCons(hs: seq<Handler>, first: CycleRun, rest: seq<CycleRun>, end: Client)
    requires IsCycle(hs, first) && Chained(hs, rest, first.out.c, first.out.left, first.out.packetType, end)
    ensures Chained(hs, [first] + rest, first.before, first.left + 1, first.typeBefore, end)
  {
    hide IsCycle;
    var runs := [first] + rest;
    assert forall k :: 0 < k < |runs| ==> runs[k] == rest[k - 1];
  }

  /** What a wait for a forwarded type says when it succeeds: the packet of that type was read off the
      stream by its last cycle, is what the buffer holds and where the stream stands. And only a
      mutex failure gives it a code other than success and timeout. */
  lemma WaitSound(hs: seq<Handler>, c: Client, packetType: nat, left: nat)
    requires packetType != 0 && Forwarded(packetType)
    ensures var w, runs := Wait(hs, c, packetType, left, 0), Cycles(hs, c, packetType, left, 0);
            !w.c.broken ==>
              && (w.rc == Success ==>
                    runs != [] && ReadLast(runs[|runs| - 1].before, w.c, packetType)
                    && Later(c, runs[|runs| - 1].before) && Later(runs[|runs| - 1].before, w.c))
              && (w.rc == Success || w.rc == RequestTimeout || (w.rc == MutexLockError && w.c.faults > c.faults))
  {
    hide Wait, Cycles, Cycle, ReadLast, Later;
    WaitExact(hs, c, packetType, left, 0);
    var w, runs := Wait(hs, c, packetType, left, 0), Cycles(hs, c, packetType, left, 0);
    if w.rc != RequestTimeout && !w.c.broken {
      var last := runs[|runs| - 1];
      assert IsCycle(hs, last) && Got(last, packetType);
      CycleReads(hs, last.before, last.left, last.typeBefore);
      ReadLastIs(last.before, w.c, packetType);
      ChainLater(hs, runs, c, left, w.c);
      FaultsBetween(c, last.before, w.c);
    }
  }

  /** `b` is `a` after a packet of this type was read. */
  ghost predicate ReadLast(a: Client, b: Client, packetType: nat) {
    var p := PacketReader.ReadPacket(a.wire, RX_BUF_LEN);
    && p.rc == Success && PacketType(p.packet[0]) == packetType
    && b.wire == p.wire && b.readBuf == Store(a.readBuf, 0, p.packet)
    && b.outgoing == a.outgoing && b.calls == a.calls
  }

  lemma ReadLastIs(a: Client, b: Client, packetType: nat)
    requires var p := PacketReader.ReadPacket(a.wire, RX_BUF_LEN);
             && p.rc == Success && PacketType(p.packet[0]) == packetType
             && b.wire == p.wire && b.readBuf == Store(a.readBuf, 0, p.packet)
             && b.outgoing == a.outgoing && b.calls == a.calls
    ensures ReadLast(a, b, packetType)
  {
  }

  /** The last cycle begins with a client later than the one the wait began with. */
  lemma {:induction false} ChainLater(hs: seq<Handler>, runs: seq<CycleRun>, c: Client, left: nat, end: Client)
    requires Chained(hs, runs, c, left, 0, end) && runs != []
    ensures Later(c, runs[|runs| - 1].before) && Later(runs[|runs| - 1].before, end)
    decreases |runs|
  {
    hide Later, Cycle;
    var n := |runs| - 1;
    var last := runs[n];
    assert IsCycle(hs, last);
    CycleLater(hs, last.before, last.left, last.typeBefore);
    LaterItself(c);
    if n > 0 {
      ChainLater(hs, runs[..n], c, left, runs[n - 1].out.c);
      LaterTrans(c, runs[n - 1].before, last.before);
    }
  }

  lemma FaultsBetween(a: Client, b: Client, c: Client)
    requires Later(a, b) && Later(b, c)
    ensures !c.broken ==> a.faults <= b.faults <= c.faults
  {
  }

  // ---- Handling and publishing

  /** handle_publish: a packet that does not parse changes nothing; otherwise the message is delivered
      on its topic; and success above QoS 0 means that the acknowledgement with the packet's
      identifier is the last thing sent. */
  lemma HandleSound(hs: seq<Handler>, c: Client, left: nat)
    requires HoldsFrame(c.readBuf)
    ensures var r, p := Handle(hs, c, left), ParsePublish(c.readBuf);
            !r.c.broken ==>
              if p.rc != Success then r == Timed(p.rc, left, c)
              else
                var d := Deliver(hs, c, p.topicOff, p.topicLen);
                && r.c.calls == d.c.calls && d.c.outgoing <= r.c.outgoing
                && (p.qos == 0 ==> r == Timed(d.rc, left, d.c))
                && (p.qos > 0 && r.rc == Success ==>
                      |r.c.outgoing| >= |d.c.outgoing| + 4
                      && (c.Honest() ==> r.c.outgoing == d.c.outgoing + PubackBytes(p.id)))
  {
    hide HoldsFrame, ParsePublish, Deliver, PubackBytes, Store, Send, NeverNegative;
    var p := ParsePublish(c.readBuf);
    if p.rc == Success {
      var d := Deliver(hs, c, p.topicOff, p.topicLen);
      DeliverLater(hs, c, p.topicOff, p.topicLen);
      var w := d.c.(writeBuf := Store(d.c.writeBuf, 0, PubackBytes(p.id)));
      SendSound(w, 4, left);
      FrontStored(d.c.writeBuf, PubackBytes(p.id));
      SendLater(w, 4, left);
      if d.rc == Success && p.qos > 0 {
        SentParts(w, Send(w, 4, left).c);
        HonestStays(c, d.c, w);
      }
    }
  }

  lemma SentParts(a: Client, b: Client)
    requires Later(a, b)
    ensures a.broken ==> b.broken
    ensures !b.broken ==> a.outgoing <= b.outgoing
  {
  }

  lemma HonestStays(a: Client, b: Client, c: Client)
    requires Later(a, b) && c == b.(writeBuf := c.writeBuf)
    ensures !b.broken && a.Honest() ==> c.Honest()
  {
  }

  lemma FrontStored(s: seq<byte>, t: seq<byte>)
    requires |t| <= |s|
    ensures Store(s, 0, t)[..|t|] == t
  {
  }

  /** send_packet, for every stack: it succeeds exactly when the mutex calls do and the loop ends at the
      end of the packet. Then at least as many bytes as the packet has were sent; they are the packet
      and nothing else exactly when the stack passed no error off as a count after at least as many
      bytes. With a stack that never does that, it succeeds exactly when the mutex calls do and as many
      bytes were taken, over all writes, as the packet has, and those are the packet. The client is
      broken exactly when the loop ends behind the end of the transmit buffer, and then not because of
      an error; with a stack that never passes one off, when more was taken than the buffer has.
      Without the mutex, or for a packet that is too long, nothing is sent. */
  lemma SendSound(c: Client, length: nat, left: nat)
    ensures var r := Send(c, length, left);
            var locked := length < TX_BUF_LEN && TlsWrite !in c.held && Granted(c.locks);
            && r.c.calls == c.calls && r.c.wire == c.wire
            && (!locked ==> r.rc != Success && r.c.outgoing == c.outgoing && r.c.broken == c.broken)
            && (r.rc == TxBufferTooShort <==> length >= TX_BUF_LEN)
            && (locked ==>
                  var t := Transmit(c.writes, left, length, 0, c.writeBuf + c.readBuf);
                  && (r.c.broken <==> c.broken || TX_BUF_LEN < t.at < TWO_31)
                  && (c.Honest() ==> (r.c.broken <==> c.broken || |t.wire| > TX_BUF_LEN)))
            && (locked && !r.c.broken ==>
                  var t := Transmit(c.writes, left, length, 0, c.writeBuf + c.readBuf);
                  && r.c.outgoing == c.outgoing + t.wire
                  && (r.rc == Success <==> Granted(Rest(c.locks)) && t.at == length)
                  && (r.rc == Success ==>
                        && |t.wire| >= length
                        && (t.wire == c.writeBuf[..length] <==> NoRewind(c.writes, left, length, 0)))
                  && (c.Honest() ==>
                        && (r.rc == Success <==>
                              Granted(Rest(c.locks)) && |r.c.outgoing| == |c.outgoing| + length)
                        && (r.rc == Success ==> t.wire == c.writeBuf[..length])))
  {
    hide Transmit, NoRewind, StaysInside, NeverNegative;
    if length < TX_BUF_LEN {
      var memory := c.writeBuf + c.readBuf;
      assert memory[..length] == c.writeBuf[..length];
      InsideExactly(c.writes, left, length, 0, memory, TX_BUF_LEN);
      if c.Honest() {
        HonestCount(c.writes, left, length, 0, memory);
        HonestEnds(c.writes, left, length, 0, memory);
      }
      if Transmit(c.writes, left, length, 0, memory).at == length {
        SentExactly(c.writes, left, length, memory);
        TransmitCount(c.writes, left, length, 0, memory);
        if c.Honest() {
          HonestStack(c.writes, left, length, 0);
        }
      }
    }
  }

  /** A message that is to be published is sent before anything else happens. */
  lemma MessageSent(c: Client, msg: Message, time: nat)
    requires msg.Sendable() && !TooLarge(msg)
    ensures var s := SendMessage(c, msg, time);
            s.rc == Success && !s.c.broken ==>
              && c.outgoing <= s.c.outgoing && |s.c.outgoing| >= |c.outgoing| + |PacketOf(c, msg)|
              && (c.Honest() ==> s.c.outgoing == c.outgoing + PacketOf(c, msg))
  {
    hide Send, TooLarge, PacketOf, Store, NeverNegative, Transmit, NoRewind, StaysInside;
    PacketFits(c, msg);
    var w := Numbered(c, msg).(writeBuf := Store(c.writeBuf, 0, PacketOf(c, msg)));
    FrontStored(c.writeBuf, PacketOf(c, msg));
    SendSound(w, |PacketOf(c, msg)|, time);
  }

  /** The size check of the serializer and the guard of send_packet together: a packet of exactly the
      buffer's size passes the one and not the other. */
  lemma TooLargeExactly(c: Client, msg: Message)
    requires msg.Sendable()
    ensures TooLarge(msg) <==> |PacketOf(c, msg)| > TX_BUF_LEN
  {
    var out := Outgoing(msg, c.lastId);
    BodyLength(msg);
    BodyLength(out);
    var n := |msg.Body()|;
    if n <= MAX_REMAINING_LENGTH {
      FinalLengthExact(n);
    } else {
      FinalLengthBeyondLimit(n);
    }
    hide FinalLength;
  }

  /** publish, at any depth and for every behaviour around it: a refusal changes nothing, a message whose
      packet is as large as the buffer or larger sends and reads nothing, and success means that the
      message's packet was sent first, and with QoS 1 that after that a PUBACK was read off the
      stream. */
  lemma PublishSound(hs: seq<Handler>, c: Client, msg: Message, time: nat)
    requires msg.Sendable()
    ensures var r := Publish(hs, c, msg, time);
            && (Refusal(c, msg) != Success ==> r == Out(Refusal(c, msg), c))
            && (|PacketOf(c, msg)| >= TX_BUF_LEN ==>
                  r.rc != Success && r.c.outgoing == c.outgoing && r.c.wire == c.wire)
            && (r.rc == Success && !r.c.broken ==>
                  var e := SetState(c, c.state, PublishInProgress).c;
                  !TooLarge(msg) && Published(hs, c, e, r.c, msg, time))
  {
    hide SetState, InternalPublish, TooLarge, SendMessage, Cycles, Later, ReadLast, PacketOf, NeverNegative, Published;
    var e := SetState(c, c.state, PublishInProgress);
    SetStateIs(c, c.state, PublishInProgress);
    SamePacket(c, e.c, msg);
    if Refusal(c, msg) == Success && e.rc == Success {
      var p := InternalPublish(hs, e.c, msg, time);
      SetStateIs(p.c, PublishInProgress, c.state);
      InternalSound(hs, e.c, msg, time);
      if p.rc == Success && !p.c.broken {
        PublishedAround(hs, c, e.c, p.c, SetState(p.c, PublishInProgress, c.state).c, msg, time);
      }
    }
  }

  /** From `e`, which is `c` but for its state and mutexes, to `r` the packet of the message was sent
      first; with QoS 1 a PUBACK was read after that, by the last cycle of the wait. */
  ghost predicate Published(hs: seq<Handler>, c: Client, e: Client, r: Client, msg: Message, time: nat)
    requires msg.Sendable() && !TooLarge(msg)
  {
    var s := SendMessage(e, msg, time);
    && s.rc == Success && |s.c.outgoing| >= |c.outgoing| + |PacketOf(c, msg)|
    && s.c.wire == c.wire && (s.c.broken ==> r.broken)
    && c.outgoing <= s.c.outgoing && s.c.outgoing <= r.outgoing
    && (c.Honest() ==> s.c.outgoing == c.outgoing + PacketOf(c, msg))
    && (msg.qos == 1 ==>
          var runs := Cycles(hs, s.c, PUBACK, s.left, 0);
          runs != [] &&
          var b := runs[|runs| - 1].before;
          Later(s.c, b) && ReadLast(b, r, PUBACK) && (b.lost ==> r.lost) && (b.broken ==> r.broken))
  }

  lemma PublishedAround(hs: seq<Handler>, c: Client, e: Client, p: Client, r: Client, msg: Message, time: nat)
    requires msg.Sendable() && !TooLarge(msg) && StateOnly(c, e) && StateOnly(p, r) && Published(hs, e, e, p, msg, time)
    ensures Published(hs, c, e, r, msg, time)
  {
    SamePacket(c, e, msg);
    hide WholePackets, NoDeadlock;
    hide TooLarge, SendMessage, Cycles, Later, ReadLast, PacketOf, NeverNegative;
    if msg.qos == 1 {
      var runs := Cycles(hs, SendMessage(e, msg, time).c, PUBACK, SendMessage(e, msg, time).left, 0);
      ReadLastStays(runs[|runs| - 1].before, p, r);
    }
  }

  lemma SamePacket(c: Client, e: Client, msg: Message)
    requires msg.Sendable() && StateOnly(c, e)
    ensures PacketOf(c, msg) == PacketOf(e, msg) && c.Honest() == e.Honest()
    ensures c.outgoing == e.outgoing && c.broken == e.broken && c.wire == e.wire
  {
  }

  lemma ReadLastStays(a: Client, b: Client, d: Client)
    requires ReadLast(a, b, PUBACK) && StateOnly(b, d)
    ensures ReadLast(a, d, PUBACK)
  {
  }

  /** The inner function. It is the packet's size alone that makes it say `buffer too short`. */
  lemma InternalSound(hs: seq<Handler>, c: Client, msg: Message, time: nat)
    requires msg.Sendable()
    ensures var r := InternalPublish(hs, c, msg, time);
            && (|PacketOf(c, msg)| >= TX_BUF_LEN ==>
                  r.rc == TxBufferTooShort && r.c.outgoing == c.outgoing && r.c.wire == c.wire)
            && (r.rc == TxBufferTooShort && !r.c.broken ==> |PacketOf(c, msg)| >= TX_BUF_LEN)
            && (r.rc == Success && !r.c.broken ==> !TooLarge(msg) && Published(hs, c, c, r.c, msg, time))
  {
    hide TooLarge, SendMessage, Wait, Cycles, Later, ReadLast, PacketOf, NeverNegative, ParseAck, HoldsFrame, Published;
    TooLargeExactly(c, msg);
    if !TooLarge(msg) {
      MessageTooLong(c, msg, time);
      MessageSent(c, msg, time);
      var s := SendMessage(c, msg, time);
      if s.rc == Success {
        WaitSound(hs, s.c, PUBACK, s.left);
        WaitLater(hs, s.c, PUBACK, s.left, 0);
        var w := Wait(hs, s.c, PUBACK, s.left, 0);
        SentParts(s.c, w.c);
        if msg.qos == 0 {
          SentParts(s.c, s.c) by {
            LaterItself(s.c);
          }
        }
        if w.rc == Success {
          AckCodes(w.c.readBuf);
        }
        var r := InternalPublish(hs, c, msg, time);
        if r.rc == Success && !r.c.broken {
          PublishedIs(hs, c, r.c, msg, time);
        }
      }
    }
  }

  lemma AckCodes(buf: seq<byte>)
    requires HoldsFrame(buf)
    ensures ParseAck(buf).NoAck? ==> ParseAck(buf).rc == DecodeRemainingLengthError || ParseAck(buf).rc == Failure
  {
    hide HoldsFrame, Decode;
  }

  lemma MessageTooLong(c: Client, msg: Message, time: nat)
    requires msg.Sendable() && !TooLarge(msg)
    ensures var s := SendMessage(c, msg, time);
            && (s.rc == TxBufferTooShort <==> |PacketOf(c, msg)| >= TX_BUF_LEN)
            && (s.rc == TxBufferTooShort ==> s.c.outgoing == c.outgoing)
  {
    hide Send, TooLarge, PacketOf, Store, NeverNegative, Transmit, NoRewind, StaysInside;
    PacketFits(c, msg);
    SendSound(Numbered(c, msg).(writeBuf := Store(c.writeBuf, 0, PacketOf(c, msg))), |PacketOf(c, msg)|, time);
  }

  lemma PublishedIs(hs: seq<Handler>, c: Client, r: Client, msg: Message, time: nat)
    requires msg.Sendable() && !TooLarge(msg)
    requires var s := SendMessage(c, msg, time);
             && s.rc == Success && |s.c.outgoing| >= |c.outgoing| + |PacketOf(c, msg)|
             && c.outgoing <= s.c.outgoing && s.c.outgoing <= r.outgoing && (s.c.broken ==> r.broken)
             && (c.Honest() ==> s.c.outgoing == c.outgoing + PacketOf(c, msg))
             && (msg.qos == 1 ==>
                   var runs := Cycles(hs, s.c, PUBACK, s.left, 0);
                   runs != [] && Later(s.c, runs[|runs| - 1].before) && Later(runs[|runs| - 1].before, r)
                   && ReadLast(runs[|runs| - 1].before, r, PUBACK))
    requires !r.broken
    ensures Published(hs, c, c, r, msg, time)
  {
    hide TooLarge, SendMessage, Cycles, ReadLast, PacketOf, NeverNegative, WholePackets, CallsFrom, CallsWait;
  }

  // ---- Framing, from the stream to the acknowledgement

  /** On a stream of acceptable packets, as long as no read may have ended inside a packet, the PUBACK
      behind a successful QoS 1 publish is one of the sender's packets, and the stream stands behind
      it. */
  lemma AckIsSenders(hs: seq<Handler>, c: Client, msg: Message, time: nat, ps: seq<Packet>)
    requires msg.Sendable() && msg.qos == 1 && Holds(c.wire, ps) && AllAcceptable(ps, RX_BUF_LEN)
    ensures var r := Publish(hs, c, msg, time);
            r.rc == Success && !r.c.broken && !r.c.lost ==>
              exists k :: 0 <= k < |ps| && PacketType(ps[k].header) == PUBACK && |ps[k].Bytes()| <= RX_BUF_LEN
                          && r.c.readBuf[..|ps[k].Bytes()|] == ps[k].Bytes() && Holds(r.c.wire, ps[k + 1..])
  {
    hide Publish, SetState, Cycles, Later, ReadLast, PacketOf, TooLarge, SendMessage, Holds, AllAcceptable;
    PublishSound(hs, c, msg, time);
    var r := Publish(hs, c, msg, time);
    if r.rc == Success && !r.c.broken && !r.c.lost {
      var s := SendMessage(SetState(c, c.state, PublishInProgress).c, msg, time);
      var runs := Cycles(hs, s.c, PUBACK, s.left, 0);
      var b := runs[|runs| - 1].before;
      WholeBetween(s.c, b);
      var j :| 0 <= j <= |ps| && Holds(b.wire, ps[j..]);
      AcceptableFrom(ps, j);
      LastIsSenders(b, r.c, ps[j..]);
      assert ps[j] == ps[j..][0] && ps[j..][1..] == ps[j + 1..];
    }
  }

  lemma WholeBetween(a: Client, b: Client)
    requires Later(a, b) && !b.broken && !b.lost
    ensures WholePackets(a.wire, b.wire)
  {
  }

  lemma LastIsSenders(b: Client, r: Client, ps: seq<Packet>)
    requires ReadLast(b, r, PUBACK) && Holds(b.wire, ps) && AllAcceptable(ps, RX_BUF_LEN)
    ensures ps != [] && PacketType(ps[0].header) == PUBACK && |ps[0].Bytes()| <= RX_BUF_LEN
    ensures r.readBuf[..|ps[0].Bytes()|] == ps[0].Bytes() && Holds(r.wire, ps[1..])
  {
    hide PacketReader.ReadPacket, Holds, AllAcceptable, PacketType;
    if ps == [] {
      StreamOver(b.wire);
    } else {
      OnePacketOff(b.wire, ps, RX_BUF_LEN);
    }
  }

  lemma StreamOver(w: Wire)
    requires Holds(w, [])
    ensures PacketReader.ReadPacket(w, RX_BUF_LEN).rc != Success
  {
    EmptyRun(w, [], RX_BUF_LEN);
    RecvNothing(w, 1);
  }

  // ---- Callbacks that read nothing

  /** No callback that is still to run publishes with QoS 1. */
  predicate NoQos1(apps: seq<seq<Publication>>) {
    forall pubs <- apps :: AllQos0(pubs)
  }

  predicate AllQos0(pubs: seq<Publication>) {
    forall p <- pubs :: p.msg.qos == 0
  }

  /** Nothing was taken off the stream, and no callback's turn was used up. */
  predicate ReadNothing(a: Client, b: Client) {
    a.wire == b.wire && a.readBuf == b.readBuf && a.apps == b.apps
  }

  lemma PublishReadsNothing(hs: seq<Handler>, c: Client, msg: Message, time: nat)
    requires msg.Sendable() && msg.qos == 0
    ensures ReadNothing(c, Publish(hs, c, msg, time).c)
  {
    hide SetState, InternalPublish;
    var e := SetState(c, c.state, PublishInProgress);
    SetStateIs(c, c.state, PublishInProgress);
    if e.rc == Success {
      InternalReadsNothing(hs, e.c, msg, time);
      SetStateIs(InternalPublish(hs, e.c, msg, time).c, PublishInProgress, c.state);
    }
  }

  lemma InternalReadsNothing(hs: seq<Handler>, c: Client, msg: Message, time: nat)
    requires msg.Sendable() && msg.qos == 0
    ensures ReadNothing(c, InternalPublish(hs, c, msg, time).c)
  {
    hide Send, TooLarge, PacketOf, Store, HoldsFrame, ParseAck, Wait;
    if !TooLarge(msg) {
      PacketFits(c, msg);
      SendReadsNothing(Numbered(c, msg).(writeBuf := Store(c.writeBuf, 0, PacketOf(c, msg))), |PacketOf(c, msg)|, time);
    }
  }

  lemma SendReadsNothing(c: Client, length: nat, left: nat)
    ensures ReadNothing(c, Send(c, length, left).c)
  {
    hide Transmit, StaysInside;
  }

  lemma {:induction false} PublishAllReadsNothing(hs: seq<Handler>, c: Client, pubs: seq<Publication>)
    requires AllQos0(pubs)
    ensures ReadNothing(c, PublishAll(hs, c, pubs))
    decreases |pubs|
  {
    hide Publish, Onward;
    if pubs != [] {
      assert pubs[0] in pubs;
      if pubs[0].msg.Sendable() {
        PublishReadsNothing(hs, c, pubs[0].msg, pubs[0].time);
        PublishAllReadsNothing(hs, Publish(hs, c, pubs[0].msg, pubs[0].time).c, pubs[1..]);
      } else {
        PublishAllReadsNothing(hs, c, pubs[1..]);
      }
    }
  }

  lemma TurnReadsNothing(hs: seq<Handler>, c: Client, off: nat, len: nat, itr: nat)
    requires off + len <= RX_BUF_LEN && itr < |hs| && NoQos1(c.apps)
    ensures var t := ClientSpec.Turn(hs, c, off, len, itr);
            t.wire == c.wire && t.readBuf == c.readBuf && NoQos1(t.apps)
  {
    hide PublishAll, Selected, Onward;
    var e, pubs := Entered(c, itr, c.readBuf[off..off + len]), if c.apps == [] then [] else c.apps[0];
    assert c.apps != [] ==> c.apps[0] in c.apps;
    PublishAllReadsNothing(hs, e, pubs);
  }

  lemma {:induction false} SeesTopic(hs: seq<Handler>, c: Client, off: nat, len: nat, itr: nat)
    requires off + len <= RX_BUF_LEN && itr <= |hs| && NoQos1(c.apps)
    ensures Seen(hs, c, off, len, itr) == Repeat(c.readBuf[off..off + len], |hs| - itr)
    decreases |hs| - itr
  {
    hide ClientSpec.Turn;
    if itr < |hs| {
      TurnReadsNothing(hs, c, off, len, itr);
      SeesTopic(hs, ClientSpec.Turn(hs, c, off, len, itr), off, len, itr + 1);
    }
  }

  /** What can be said before a delivery: if no callback that is still to run publishes with QoS 1, the
      handlers called are exactly those for the message's topic. */
  lemma DeliverToTopic(hs: seq<Handler>, c: Client, off: nat, len: nat)
    requires off + len <= RX_BUF_LEN && NoQos1(c.apps)
    ensures var r := Deliver(hs, c, off, len).c;
            !r.broken ==>
              && c.calls <= r.calls
              && Picks(r.calls[|c.calls|..], c.depth) == SelectedBy(hs, Repeat(c.readBuf[off..off + len], |hs|), 0)
  {
    hide SetState, Deliver, DeliverFrom, Seen, Selected, SelectedBy, Slots, Picks, Onward, NeverNegative;
    DeliverExact(hs, c, off, len);
    var b := SetState(c, c.state, WaitForCbReturn).c;
    SetStateIs(c, c.state, WaitForCbReturn);
    SeesTopic(hs, b, off, len, 0);
  }
}
