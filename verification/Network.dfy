/**
 The transport under the MQTT client: what one `read` or `write` of the network
 stack does to the byte stream, for every way the TLS layer may behave.

 The TLS layer is a script: one answer per call into it. Nothing limits the
 script, so a statement about all scripts is a statement about all short
 reads, stalls and failures. A script that has run out answers like a peer
 that stays silent until the timer has expired.
 */
module Network {
  import opened Bytes

  /** The values of IoT_Error_t that the modelled functions produce.

      `Undefined` is not one of them: it marks where the C code goes on with an access outside its
      object, so that the language says nothing about the rest. */
  datatype Rc =
    | Success
    | Failure
    | NullValue
    | MqttNothingToRead
    | SslNothingToRead
    | SslReadTimeout
    | SslWriteError
    | NetworkDisconnected
    | RequestTimeout
    | UnexpectedClientState
    | ClientNotIdle
    | PacketTypeInvalid
    | RxBufferTooShort
    | TxBufferTooShort
    | DecodeRemainingLengthError
    | MutexLockError
    | Undefined

  /** One answer of wm_tls_client_read: some bytes, or an error that comes with the timer
      expired or not. */
  datatype TlsEvent = Data(n: nat) | Error(expired: bool)

  /** The receiving half: every byte the peer sends, in order, with the number already read, and
      every answer of the TLS layer, with the number already given. */
  datatype RawWire = RawWire(stream: seq<byte>, pos: nat, script: seq<TlsEvent>, turn: nat) {
    predicate Valid() {
      pos <= |stream| && turn <= |script|
    }

    function Event(): TlsEvent {
      if turn < |script| then script[turn] else Error(true)
    }

    /** `n` bytes and one answer further on. */
    function Advance(n: nat): Wire
      requires Valid() && pos + n <= |stream|
    {
      RawWire(stream, pos + n, script, if turn < |script| then turn + 1 else turn)
    }

    /** How much the next call takes of the stream when it is offered `max` bytes of room. */
    function Taken(max: nat): (n: nat)
      requires Valid()
      ensures n <= max && pos + n <= |stream|
    {
      match Event()
      case Data(n) => Min(n, Min(max, |stream| - pos))
      case Error(_) => 0
    }

    /** The same connection at a later moment. */
    predicate LeadsTo(w: RawWire) {
      w.stream == stream && w.script == script && pos <= w.pos && turn <= w.turn
    }
  }

  type Wire = w: RawWire | w.Valid() witness RawWire([], 0, [], 0)

  datatype Received = Received(rc: Rc, count: nat, wire: Wire)

  /** A network read of `len` bytes, `got` of them already taken: its result and the total taken. */
  function Recv(w: Wire, len: nat, got: nat): (r: Received)
    requires got <= len
    ensures got <= r.count <= len && w.LeadsTo(r.wire) && r.wire.pos - w.pos == r.count - got
    ensures w.turn < |w.script| ==> w.turn < r.wire.turn
    ensures r.rc == Success && len > 0 ==> w.turn < |w.script| || got > 0
    ensures r.rc.Success? || r.rc.SslNothingToRead? || r.rc.SslReadTimeout?
    ensures r.rc == Success && len > 0 ==> r.count > 0
    ensures r.count == len > 0 ==> r.rc == Success
    ensures r.rc == SslNothingToRead ==> r.count == 0
    ensures r.rc == SslReadTimeout ==> 0 < r.count < len
    decreases |w.script| - w.turn
  {
    var k := w.Taken(len - got);
    if w.Event().Error? then Received(AfterError(got, len, w.Event().expired), got, w.Advance(k))
    else if got + k == len then Received(Success, len, w.Advance(k))
    else Recv(w.Advance(k), len, got + k)
  }

  /** How a read ends when the TLS layer reports an error after `got` of `len` bytes. */
  function AfterError(got: nat, len: nat, expired: bool): Rc {
    if got == 0 then SslNothingToRead else if expired && got < len then SslReadTimeout else Success
  }

  /** For the next `calls` calls the TLS layer hands over at least one byte each time. */
  predicate Flowing(w: Wire, calls: nat) {
    w.turn + calls <= |w.script|
    && forall i :: w.turn <= i < w.turn + calls ==> w.script[i].Data? && w.script[i].n > 0
  }

  /** Then a read of bytes that are on the stream completes, and uses no more calls than it takes
      bytes. */
  lemma {:induction false} RecvCompletes(w: Wire, len: nat, got: nat, spare: nat)
    requires got < len && w.pos + len - got <= |w.stream|
    requires Flowing(w, len - got + spare)
    ensures var r := Recv(w, len, got);
            r.rc == Success && r.count == len && Flowing(r.wire, spare)
    decreases len - got
  {
    hide Recv, Flowing, RawWire.Taken, RawWire.Event, RawWire.Advance;
    var k := w.Taken(len - got);
    FlowsOn(w, len - got, spare);
    RecvRound(w, len, got);
    if got + k < len {
      RecvCompletes(w.Advance(k), len, got + k, spare);
    }
  }

  /** One round of a read in which bytes come. */
  lemma RecvRound(w: Wire, len: nat, got: nat)
    requires got < len && w.Event().Data?
    ensures var k := w.Taken(len - got);
            && w.Advance(k).stream == w.stream && w.Advance(k).pos == w.pos + k
            && Recv(w, len, got) == if got + k == len then Received(Success, len, w.Advance(k))
                                    else Recv(w.Advance(k), len, got + k)
  {
  }

  /** The next answer hands over at least one byte, and takes no more calls than bytes. */
  lemma FlowsOn(w: Wire, need: nat, spare: nat)
    requires need > 0 && w.pos + need <= |w.stream| && Flowing(w, need + spare)
    ensures w.Event().Data?
    ensures var k := w.Taken(need); 0 < k <= need && Flowing(w.Advance(k), need - k + spare)
  {
  }

  /** A stream that is used up yields "nothing to read". */
  lemma {:induction false} RecvNothing(w: Wire, len: nat)
    requires w.pos == |w.stream| && len > 0
    ensures Recv(w, len, 0).rc == SslNothingToRead
    decreases |w.script| - w.turn
  {
    if w.Event().Data? {
      assert w.Taken(len) == 0;
      RecvNothing(w.Advance(0), len);
    }
  }

  /** The read that began at `w` ended as the answers it used say: at the first error, or when the
      request was met, or when the script had run out, which is an expired timer. The code of an error
      depends on what was taken. */
  ghost predicate EndsAs(w: Wire, len: nat, r: Received) {
    var n := r.wire.turn;
    var failed := w.turn < n <= |w.script| && w.script[n - 1].Error?;
    && w.turn <= n <= |w.script| && (forall i :: w.turn <= i < n - 1 ==> w.script[i].Data?)
    && (!failed && r.count < len ==> n == |w.script|)
    && r.rc == (if !failed && r.count == len then Success
                else if r.count == 0 then SslNothingToRead
                else if failed && !w.script[n - 1].expired then Success
                else SslReadTimeout)
  }

  /** That is how a read ends, for every script. */
  lemma {:induction false} RecvEnds(w: Wire, len: nat, got: nat)
    requires got < len
    ensures EndsAs(w, len, Recv(w, len, got))
    decreases |w.script| - w.turn
  {
    hide EndsAs;
    var k := w.Taken(len - got);
    if w.Event().Data? && got + k < len {
      RecvEnds(w.Advance(k), len, got + k);
      EndsLater(w, k, len, Recv(w.Advance(k), len, got + k));
    } else {
      EndsHere(w, len, got);
    }
  }

  lemma EndsHere(w: Wire, len: nat, got: nat)
    requires got < len && (w.Event().Error? || got + w.Taken(len - got) == len)
    ensures EndsAs(w, len, Recv(w, len, got))
  {
  }

  lemma EndsLater(w: Wire, k: nat, len: nat, r: Received)
    requires w.pos + k <= |w.stream| && w.Event().Data? && EndsAs(w.Advance(k), len, r)
    ensures EndsAs(w, len, r)
  {
  }

  type Code = c: nat | 0 < c <= 0x8000_0000 witness 1

  /** One answer of the writing side: a number of bytes taken; an error that is reported as one; or
      the error `-code` of wm_tls_client_write, which iot_tls_write hands on as a count. */
  datatype WriteAnswer = Accept(n: nat) | Refuse | Negative(code: Code) {
    /** How much is taken when `offered` bytes are. */
    function Taken(offered: nat): nat {
      if Accept? then Min(n, offered) else 0
    }

    /** The count reported, a 32-bit `size_t`. */
    function Reported(offered: nat): nat {
      if Negative? then TWO_32 - code else Taken(offered)
    }
  }

  /** The memory copy of the TLS layer. */
  method Put(buf: array<byte>, off: nat, data: seq<byte>)
    requires off + |data| <= buf.Length
    modifies buf
    ensures buf[..] == Store(old(buf[..]), off, data)
  {
    forall j | 0 <= j < |data| {
      buf[off + j] := data[j];
    }
  }

  lemma StoreTwice(s: seq<byte>, off: nat, t: seq<byte>, u: seq<byte>)
    requires off + |t| + |u| <= |s|
    ensures Store(Store(s, off, t), off + |t|, u) == Store(s, off, t + u)
  {
  }

  /** The loop of iot_tls_read: `w` is where it stands after starting at `start`. */
  ghost predicate Reading(start: Wire, w: Wire, len: nat, readLen: nat,
                          errorFlag: bool, completeFlag: bool, expired: bool) {
    && readLen <= len
    && Recv(start, len, 0) ==
         (if errorFlag then Received(AfterError(readLen, len, expired), readLen, w)
          else if completeFlag then Received(Success, readLen, w)
          else Recv(w, len, readLen))
    && (errorFlag || completeFlag ==> completeFlag == (readLen >= len))
    && (!errorFlag ==> !expired)
  }

  lemma ReadingStarts(start: Wire, len: nat)
    ensures Reading(start, start, len, 0, false, false, false)
  {
  }

  lemma ReadingGoesOn(start: Wire, w: Wire, len: nat, readLen: nat, expired: bool)
    requires readLen <= len && Reading(start, w, len, readLen, false, false, expired)
    ensures var k, error := w.Taken(len - readLen), w.Event().Error?;
            Reading(start, w.Advance(k), len, readLen + k, error, readLen + k >= len, w.Event() == Error(true))
  {
  }

  lemma ReadingEnds(start: Wire, w: Wire, len: nat, readLen: nat,
                    errorFlag: bool, completeFlag: bool, expired: bool)
    requires errorFlag || completeFlag
    requires Reading(start, w, len, readLen, errorFlag, completeFlag, expired)
    ensures Recv(start, len, 0) ==
            Received(if readLen == 0 && errorFlag then SslNothingToRead
                     else if expired && !completeFlag then SslReadTimeout else Success, readLen, w)
  {
  }

  class Stack {
    var wire: Wire
    var outgoing: seq<byte>
    var writes: seq<WriteAnswer>

    constructor (wire: Wire, writes: seq<WriteAnswer>)
      ensures this.wire == wire && this.writes == writes && outgoing == []
    {
      this.wire, this.writes, outgoing := wire, writes, [];
    }

    /** wm_tls_client_read: a prefix of what is still on the stream, or a negative result. The
        bytes join those that earlier calls have stored from `base` on. */
    method TlsRead(buf: array<byte>, off: nat, max: nat, ghost was: seq<byte>, ghost base: nat)
      returns (val: int, expired: bool)
      requires base <= off && off + max <= buf.Length == |was| && off - base <= wire.pos
      requires buf[..] == Store(was, base, wire.stream[wire.pos - (off - base)..wire.pos])
      modifies buf, this`wire
      ensures val == if old(wire.Event()).Data? then old(wire).Taken(max) else -1
      ensures expired <==> old(wire.Event()) == Error(true)
      ensures wire == old(wire).Advance(old(wire).Taken(max))
      ensures buf[..] == Store(was, base, wire.stream[old(wire).pos - (off - base)..wire.pos])
    {
      hide Store;
      match wire.Event()
      case Data(n) =>
        val, expired := wire.Taken(max), false;
        var piece := wire.stream[wire.pos..wire.pos + val];
        Put(buf, off, piece);
        ghost var before := wire.stream[wire.pos - (off - base)..wire.pos];
        StoreTwice(was, base, before, piece);
        assert before + piece == wire.stream[wire.pos - (off - base)..wire.pos + val];
        wire := wire.Advance(val);
      case Error(e) =>
        val, expired := -1, e;
        wire := wire.Advance(0);
    }

    /** iot_tls_read: asks the TLS layer again until the request is met or an error comes. */
    method Read(buf: array<byte>, off: nat, len: nat) returns (rc: Rc, readLen: nat)
      requires off + len <= buf.Length
      modifies buf, this`wire
      ensures Received(rc, readLen, wire) == Recv(old(wire), len, 0)
      ensures buf[..] == Store(old(buf[..]), off, wire.stream[old(wire.pos)..wire.pos])
    {
      hide Reading, Recv, AfterError;
      ghost var start, was := wire, buf[..];
      readLen := 0;
      var errorFlag, completeFlag, expired := false, false, false;
      assert buf[..] == Store(was, off, wire.stream[start.pos..wire.pos]);
      ReadingStarts(start, len);
      while !errorFlag && !completeFlag
        invariant readLen <= len && start.LeadsTo(wire) && wire.pos == start.pos + readLen
        invariant Reading(start, wire, len, readLen, errorFlag, completeFlag, expired)
        invariant buf[..] == Store(was, off, wire.stream[start.pos..wire.pos])
        decreases |wire.script| - wire.turn, !errorFlag && !completeFlag
      {
        ReadingGoesOn(start, wire, len, readLen, expired);
        var val;
        val, expired := TlsRead(buf, off + readLen, len - readLen, was, off);
        if val >= 0 {
          readLen := readLen + val;
        } else {
          errorFlag := true;
        }
        if readLen >= len {
          completeFlag := true;
        }
      }
      ReadingEnds(start, wire, len, readLen, errorFlag, completeFlag, expired);
      if readLen == 0 && errorFlag {
        rc := SslNothingToRead;
      } else if expired && !completeFlag {
        rc := SslReadTimeout;
      } else {
        rc := Success;
      }
    }

    /** One write: the stack is offered `offered` and takes a prefix of it. */
    method Write(offered: seq<byte>) returns (rc: Rc, writtenLen: nat)
      modifies this`outgoing, this`writes
      ensures var a := if old(writes) == [] then Refuse else old(writes)[0];
              && rc == (if a.Refuse? then SslWriteError else Success)
              && writtenLen == a.Reported(|offered|)
              && outgoing == old(outgoing) + offered[..a.Taken(|offered|)]
      ensures writes == if old(writes) == [] then [] else old(writes)[1..]
    {
      rc, writtenLen := SslWriteError, 0;
      if writes != [] {
        match writes[0] {
          case Accept(n) =>
            rc, writtenLen := Success, Min(n, |offered|);
            outgoing := outgoing + offered[..writtenLen];
          case Refuse =>
          case Negative(code) =>
            rc, writtenLen := Success, TWO_32 - code;
            assert outgoing + offered[..0] == outgoing;
        }
        writes := writes[1..];
      }
    }
  }
}
