/**
 Reading MQTT packets off the byte stream: the one-byte-at-a-time length decoder,
 the loop that drains a packet too large for the buffer, and the packet reader
 itself, as functions of the wire. The methods of the client compute these
 functions (see MqttClient); what the reader promises is proved here.

 `size_t` has 32 bits on the target, so the decoder's sums and products wrap.
 */
module PacketReader {
  import opened Bytes
  import opened Network
  import opened RemainingLength

  // ---- The stream decoder

  datatype LengthRead = LengthRead(rc: Rc, remLen: uint32, wire: Wire)

  /** One round of the decoding loop and those after it. `len` is the C variable of that name:
      each read overwrites it with the number of bytes it delivered. */
  function ReadLength(w: Wire, multiplier: uint32, remLen: uint32, len: nat): (r: LengthRead)
    ensures w.LeadsTo(r.wire)
    ensures r.rc.Success? || r.rc.SslNothingToRead? || r.rc.SslReadTimeout? || r.rc.DecodeRemainingLengthError?
    decreases |w.script| - w.turn
  {
    if len + 1 > MAX_NO_OF_REMAINING_LENGTH_BYTES then LengthRead(DecodeRemainingLengthError, remLen, w)
    else
      var r := Recv(w, 1, 0);
      if r.rc != Success then LengthRead(r.rc, remLen, r.wire)
      else
        var b := w.stream[w.pos];
        var sum := Wrap32(remLen + Digit(b, multiplier));
        if b < 128 then LengthRead(Success, sum, r.wire)
        else ReadLength(r.wire, Wrap32(multiplier * 128), sum, r.count)
  }

  /** The bytes of `w` that end at the first one without a continuation bit. */
  function Field(w: Wire): (bs: seq<byte>) {
    var rest := w.stream[w.pos..];
    rest[..Min(PrefixLen(rest), |rest|)]
  }

  /** The digits of `bs` with the first one at the given weight. */
  function ValueAt(bs: seq<byte>, weight: nat): nat {
    if bs == [] then 0 else Digit(bs[0], weight) + ValueAt(bs[1..], weight * 128)
  }

  lemma {:induction false} ValueAtScales(bs: seq<byte>, weight: nat)
    ensures ValueAt(bs, weight) == weight * Value(bs)
  {
    if bs != [] {
      ValueAtScales(bs[1..], weight * 128);
      var d, v := bs[0] % 128, Value(bs[1..]);
      assert (weight * 128) * v == weight * (128 * v);
      assert weight * (d + 128 * v) == d * weight + weight * (128 * v);
    }
  }

  lemma WrapStep(acc: nat, b: byte, weight: nat)
    ensures Wrap32(Wrap32(acc) + Digit(b, Wrap32(weight))) == Wrap32(acc + Digit(b, weight))
    ensures Wrap32(Wrap32(weight) * 128) == Wrap32(weight * 128)
  {
    WrapProduct(b % 128, weight);
    WrapSum(acc, Digit(b, Wrap32(weight)), Digit(b, weight));
    assert Wrap32(Wrap32(weight) * 128) == Wrap32(weight * 128) by { WrapProduct(128, weight); }
  }

  lemma WrapSum(acc: nat, x: nat, y: nat)
    requires Wrap32(x) == Wrap32(y)
    ensures Wrap32(Wrap32(acc) + x) == Wrap32(acc + y)
  {
  }

  lemma WrapProduct(d: nat, weight: nat)
    ensures Wrap32(d * weight) == Wrap32(d * Wrap32(weight))
  {
    var q, p := weight / 0x1_0000_0000, Wrap32(weight);
    assert d * weight == (d * q) * 0x1_0000_0000 + d * p by {
      assert weight == q * 0x1_0000_0000 + p;
      assert d * (q * 0x1_0000_0000 + p) == d * (q * 0x1_0000_0000) + d * p;
    }
    WrapMultiple(d * q, d * p);
  }

  lemma WrapMultiple(k: nat, x: nat)
    ensures Wrap32(k * 0x1_0000_0000 + x) == Wrap32(x)
  {
  }

  /** The decoder consumes exactly the terminated field at the front of the stream, of any length,
      and its result is the value of that field modulo 2^32. Its four-byte guard never fires. */
  lemma {:induction false} ReadLengthValue(w: Wire, weight: nat, acc: nat, len: nat)
    requires len <= 3
    ensures var r := ReadLength(w, Wrap32(weight), Wrap32(acc), len);
            && r.rc != DecodeRemainingLengthError
            && (r.rc == Success ==> Terminated(Field(w)) && r.wire.pos == w.pos + |Field(w)|
                                    && r.remLen == Wrap32(acc + ValueAt(Field(w), weight)))
    decreases |w.script| - w.turn
  {
    hide Recv, Digit, Wrap32, Field, Terminated;
    var r := Recv(w, 1, 0);
    if r.rc == Success {
      var b := w.stream[w.pos];
      WrapStep(acc, b, weight);
      if b < 128 {
        FieldOne(w);
        assert [b][1..] == [];
      } else {
        ReadLengthValue(r.wire, weight * 128, acc + Digit(b, weight), 1);
        FieldCons(w, r.wire);
      }
    }
  }

  lemma FieldNonEmpty(w: Wire)
    requires Terminated(Field(w))
    ensures |Field(w)| >= 1 && w.pos + |Field(w)| <= |w.stream|
  {
  }

  lemma FieldOne(w: Wire)
    requires w.pos < |w.stream| && w.stream[w.pos] < 128
    ensures Field(w) == [w.stream[w.pos]] && Terminated(Field(w))
  {
  }

  lemma FieldCons(w: Wire, next: Wire)
    requires w.LeadsTo(next) && next.pos == w.pos + 1 <= |w.stream|
    requires w.stream[w.pos] >= 128
    ensures Field(w) == [w.stream[w.pos]] + Field(next) && Field(w)[1..] == Field(next)
    ensures Terminated(Field(next)) <==> Terminated(Field(w))
  {
  }

  /** Both decoders on the same bytes. When the stream decoder succeeds, it agrees with the
      buffer decoder in value and in bytes consumed exactly when one of the first four bytes
      ends the field; otherwise the buffer decoder refuses and the stream decoder does not. */
  lemma DecodersAgree(w: Wire)
    requires var s := w.stream[w.pos..]; |s| >= 4 || PrefixLen(s) <= |s|
    ensures var r := ReadLength(w, 1, 0, 0);
            var s := w.stream[w.pos..];
            && r.rc != DecodeRemainingLengthError
            && (r.rc == Success ==>
                  (Decode(s) == Decoded(r.remLen, r.wire.pos - w.pos) <==> PrefixLen(s) <= 4))
  {
    hide ReadLength, ValueAt, Value, Field, Terminated, PrefixLen, Wrap32, Decode;
    ReadLengthValue(w, 1, 0, 0);
    One();
    ValueAtScales(Field(w), 1);
    var r, s := ReadLength(w, 1, 0, 0), w.stream[w.pos..];
    Decodes(s, PrefixLen(s));
    if r.rc == Success {
      FieldIsPrefix(w);
      if PrefixLen(s) <= 4 {
        ValueBound(Field(w));
        SmallValue(Value(Field(w)));
      }
    }
  }

  lemma One()
    ensures Wrap32(1) == 1 && Wrap32(0) == 0
  {
  }

  lemma SmallValue(v: nat)
    requires v <= MAX_REMAINING_LENGTH
    ensures Wrap32(v) == v
  {
  }

  lemma FieldIsPrefix(w: Wire)
    requires Terminated(Field(w))
    ensures var s := w.stream[w.pos..];
            PrefixLen(s) == |Field(w)| <= |s| && s[..PrefixLen(s)] == Field(w)
  {
  }

  /** The stream decoder on a stream that carries the terminated field `lb`. */
  lemma FieldAt(w: Wire, lb: seq<byte>)
    requires Terminated(lb) && lb <= w.stream[w.pos..]
    ensures Field(w) == lb
  {
  }

  lemma {:induction false} ReadLengthFlows(w: Wire, m: uint32, acc: uint32, len: nat, spare: nat)
    requires len <= 3 && Terminated(Field(w))
    requires Flowing(w, |Field(w)| + spare)
    ensures var r := ReadLength(w, m, acc, len);
            r.rc == Success && Flowing(r.wire, spare)
    decreases |w.stream| - w.pos
  {
    hide Recv, Digit, Field, Terminated, Wrap32, Flowing, Min, PrefixLen;
    FieldNonEmpty(w);
    var n := |Field(w)|;
    RecvCompletes(w, 1, 0, n - 1 + spare);
    var r, b := Recv(w, 1, 0), w.stream[w.pos];
    if b < 128 {
      FieldOne(w);
    } else {
      FieldCons(w, r.wire);
      ReadLengthFlows(r.wire, Wrap32(m * 128), Wrap32(acc + Digit(b, m)), 1, spare);
    }
  }

  /** A length field of more than four bytes is refused by the buffer decoder and taken from the
      stream, modulo 2^32. */
  lemma LongField(w: Wire)
    requires Terminated(Field(w)) && |Field(w)| > 4 && Flowing(w, |Field(w)|)
    ensures Decode(w.stream[w.pos..]) == DecodeError
    ensures ReadLength(w, 1, 0, 0).rc == Success
    ensures ReadLength(w, 1, 0, 0).remLen == Wrap32(Value(Field(w)))
    ensures ReadLength(w, 1, 0, 0).wire.pos == w.pos + |Field(w)|
  {
    hide *;
    FieldNonEmpty(w);
    FieldIsPrefix(w);
    Decodes(w.stream[w.pos..], |Field(w)|);
    ReadLengthFlows(w, 1, 0, 0, 0);
    One();
    ReadLengthValue(w, 1, 0, 0);
    ValueAtScales(Field(w), 1);
  }

  const FIVE_BYTES: seq<byte> := [128, 128, 128, 128, 0]

  /** Five length bytes, for one: refused by one decoder, read as 0 by the other. */
  lemma DecodersDisagree(w: Wire)
    requires w == RawWire(FIVE_BYTES, 0, [Data(1), Data(1), Data(1), Data(1), Data(1)], 0)
    ensures Decode(FIVE_BYTES) == DecodeError
    ensures ReadLength(w, 1, 0, 0).rc == Success && ReadLength(w, 1, 0, 0).remLen == 0
  {
    hide ReadLength, Decode, Value, PrefixLen, Field;
    assert Terminated(FIVE_BYTES) && w.stream[w.pos..] == FIVE_BYTES && Flowing(w, 5);
    FieldAt(w, FIVE_BYTES);
    LongField(w);
    ZeroDigits(FIVE_BYTES);
  }

  lemma {:induction false} ZeroDigits(s: seq<byte>)
    requires forall i :: 0 <= i < |s| ==> s[i] % 128 == 0
    ensures Value(s) == 0
  {
    if s != [] {
      ZeroDigits(s[1..]);
    }
  }

  // ---- The drain loop

  datatype Drained = Drained(rc: Rc, total: nat, wire: Wire)

  /** One round of the drain loop and those after it: `request` bytes are asked for next. The
      precondition is what the loop keeps, so no read reaches past the packet's last byte. */
  function Drain(w: Wire, size: nat, remLen: nat, total: nat, request: nat): (d: Drained)
    requires 0 < request <= size && total + request <= remLen
    ensures w.LeadsTo(d.wire)
    ensures total <= d.total <= remLen && (d.rc == Success <==> d.total == remLen)
    ensures d.wire.pos <= w.pos + remLen - total
    ensures d.rc == Success <==> d.wire.pos == w.pos + remLen - total
    decreases |w.script| - w.turn
  {
    var r := Recv(w, request, 0);
    if r.rc != Success then Drained(r.rc, total, r.wire)
    else
      var sum := total + r.count;
      var next := if remLen - sum >= size then size else remLen - sum;
      if sum < remLen then Drain(r.wire, size, remLen, sum, next) else Drained(Success, sum, r.wire)
  }

  /** With the bytes on the stream and a TLS layer that makes progress, the drain completes. */
  lemma {:induction false} DrainFlows(w: Wire, size: nat, remLen: nat, total: nat, request: nat, spare: nat)
    requires 0 < request <= size && total + request <= remLen
    requires w.pos + remLen - total <= |w.stream| && Flowing(w, remLen - total + spare)
    ensures var d := Drain(w, size, remLen, total, request);
            d.rc == Success && Flowing(d.wire, spare)
    decreases remLen - total
  {
    hide Recv;
    var sum := total + request;
    RecvCompletes(w, request, 0, remLen - sum + spare);
    if sum < remLen {
      DrainFlows(Recv(w, request, 0).wire, size, remLen, sum,
                 if remLen - sum >= size then size else remLen - sum, spare);
    }
  }

  // ---- The packet reader

  /** `packet` is what the buffer holds at its front on success. `drained` tells whether a dropped
      packet was consumed to its end; the C function does not return it. */
  datatype PacketRead = PacketRead(rc: Rc, packet: seq<byte>, wire: Wire, drained: bool)

  /** One call, with a receive buffer of `size` bytes. */
  function ReadPacket(w: Wire, size: nat): (p: PacketRead)
    requires size > 0
    ensures w.LeadsTo(p.wire)
    ensures p.rc == Success ==> w.turn < p.wire.turn && w.pos < p.wire.pos && 0 < |p.packet| <= size
    ensures p.rc.Success? || p.rc.Failure? || p.rc.MqttNothingToRead? || p.rc.SslNothingToRead? || p.rc.SslReadTimeout? || p.rc.DecodeRemainingLengthError? || p.rc.RxBufferTooShort? || p.rc.Undefined?
  {
    var h := Recv(w, 1, 0);
    if h.rc == SslNothingToRead then PacketRead(MqttNothingToRead, [], h.wire, false)
    else if h.rc != Success then PacketRead(h.rc, [], h.wire, false)
    else ReadRest(w.stream[w.pos], h.wire, size)
  }

  /** The call once the header byte `h` is in. */
  function ReadRest(h: byte, w: Wire, size: nat): (p: PacketRead)
    requires size > 0
    ensures w.LeadsTo(p.wire)
    ensures p.rc == Success ==> 0 < |p.packet| <= size
    ensures p.rc.Success? || p.rc.Failure? || p.rc.SslNothingToRead? || p.rc.SslReadTimeout? || p.rc.DecodeRemainingLengthError? || p.rc.RxBufferTooShort? || p.rc.Undefined?
  {
    var l := ReadLength(w, 1, 0, 0);
    if l.rc != Success then PacketRead(l.rc, [], l.wire, false)
    else if l.remLen >= size then
      var d := Drain(l.wire, size, l.remLen, 0, size);
      PacketRead(RxBufferTooShort, [], d.wire, d.rc == Success)
    else ReadBody([h] + Encode(l.remLen), l.wire, l.remLen, size)
  }

  /** The call once the fixed header is in the buffer. */
  function ReadBody(fixedHeader: seq<byte>, w: Wire, remLen: nat, size: nat): (p: PacketRead)
    requires fixedHeader != []
    ensures w.LeadsTo(p.wire)
    ensures p.rc == Success ==> 0 < |p.packet| <= size
    ensures p.rc.Success? || p.rc.Failure? || p.rc.Undefined?
  {
    if |fixedHeader| + remLen > size then PacketRead(Undefined, [], w, false)
    else if remLen == 0 then PacketRead(Success, fixedHeader, w, false)
    else
      var b := Recv(w, remLen, 0);
      if b.rc != Success || b.count != remLen then PacketRead(Failure, [], b.wire, false)
      else PacketRead(Success, fixedHeader + w.stream[w.pos..b.wire.pos], b.wire, false)
  }

  // ---- What the calls leave in the buffer

  /** The drain reads every piece to the front of the buffer. */
  function DrainInto(w: Wire, remLen: nat, total: nat, request: nat, buf: seq<byte>): (b: seq<byte>)
    requires 0 < request <= |buf| && total + request <= remLen
    ensures |b| == |buf|
    decreases |w.script| - w.turn
  {
    var r := Recv(w, request, 0);
    var b := Store(buf, 0, w.stream[w.pos..r.wire.pos]);
    if r.rc != Success then b
    else
      var sum := total + r.count;
      var next := if remLen - sum >= |buf| then |buf| else remLen - sum;
      if sum < remLen then DrainInto(r.wire, remLen, sum, next, b) else b
  }

  /** The buffer after a call: the header byte, the length as the encoder writes it, the body. */
  function ReadInto(w: Wire, buf: seq<byte>): (b: seq<byte>)
    requires |buf| >= 6
    ensures |b| == |buf|
  {
    var h := Recv(w, 1, 0);
    if h.rc != Success then buf
    else RestInto(h.wire, Store(buf, 0, [w.stream[w.pos]]))
  }

  function RestInto(w: Wire, buf: seq<byte>): (b: seq<byte>)
    requires |buf| >= 6
    ensures |b| == |buf|
  {
    var l := ReadLength(w, 1, 0, 0);
    if l.rc != Success then buf
    else if l.remLen >= |buf| then DrainInto(l.wire, l.remLen, 0, |buf|, buf)
    else
      EncodeDecode(l.remLen, []);
      BodyInto(l.wire, l.remLen, 1 + |Encode(l.remLen)|, Store(buf, 1, Encode(l.remLen)))
  }

  function BodyInto(w: Wire, remLen: nat, at: nat, buf: seq<byte>): (b: seq<byte>)
    requires at <= |buf|
    ensures |b| == |buf|
  {
    if at + remLen > |buf| || remLen == 0 then buf
    else Store(buf, at, w.stream[w.pos..Recv(w, remLen, 0).wire.pos])
  }

  /** After a successful call the packet lies at the front, and the rest is as it was. */
  lemma ReadIntoPacket(w: Wire, buf: seq<byte>)
    requires |buf| >= 6 && ReadPacket(w, |buf|).rc == Success
    ensures ReadInto(w, buf) == Store(buf, 0, ReadPacket(w, |buf|).packet)
  {
    hide Recv, ReadLength, Encode, Store, Drain, DrainInto;
    var h := w.stream[w.pos];
    var l := ReadLength(Recv(w, 1, 0).wire, 1, 0, 0);
    var header := [h] + Encode(l.remLen);
    EncodeDecode(l.remLen, []);
    StoreTwice(buf, 0, [h], Encode(l.remLen));
    if l.remLen > 0 {
      StoreTwice(buf, 0, header, l.wire.stream[l.wire.pos..Recv(l.wire, l.remLen, 0).wire.pos]);
    }
  }

  /** A call that takes nothing off the stream leaves the buffer alone. */
  lemma ReadIntoQuiet(w: Wire, buf: seq<byte>)
    requires |buf| >= 6 && ReadPacket(w, |buf|).wire.pos == w.pos
    ensures ReadInto(w, buf) == buf
  {
  }

  /** `b` is `buf` after pieces that make up `taken` were stored at its front one after another: the
      last of them lies there, and what no piece reached is as it was. */
  ghost predicate Overlaid(buf: seq<byte>, b: seq<byte>, taken: seq<byte>) {
    && |b| == |buf| && (forall i :: |taken| <= i < |buf| ==> b[i] == buf[i])
    && (taken != [] ==> exists k :: 0 < k <= |taken| && k <= |buf| && b[..k] == taken[|taken| - k..])
  }

  lemma OverlaidOnce(buf: seq<byte>, piece: seq<byte>)
    requires |piece| <= |buf|
    ensures Overlaid(buf, Store(buf, 0, piece), piece)
  {
    var k := |piece|;
    assert Store(buf, 0, piece)[..k] == piece[|piece| - k..];
  }

  lemma OverlaidMore(buf: seq<byte>, piece: seq<byte>, b: seq<byte>, more: seq<byte>)
    requires |piece| <= |buf| && Overlaid(Store(buf, 0, piece), b, more)
    ensures Overlaid(buf, b, piece + more)
  {
    var front := Store(buf, 0, piece);
    if more == [] {
      assert b == front && piece + more == piece;
      OverlaidOnce(buf, piece);
    } else {
      var k :| 0 < k <= |more| && k <= |buf| && b[..k] == more[|more| - k..];
      assert (piece + more)[|piece + more| - k..] == more[|more| - k..];
    }
  }

  /** What a drain leaves in the buffer. */
  lemma {:induction false} DrainLeaves(w: Wire, remLen: nat, total: nat, request: nat, buf: seq<byte>)
    requires 0 < request <= |buf| && total + request <= remLen
    ensures var d, b := Drain(w, |buf|, remLen, total, request), DrainInto(w, remLen, total, request, buf);
            Overlaid(buf, b, w.stream[w.pos..d.wire.pos])
    decreases |w.script| - w.turn
  {
    hide Recv, Overlaid, Store;
    var r := Recv(w, request, 0);
    var piece := w.stream[w.pos..r.wire.pos];
    var front := Store(buf, 0, piece);
    if r.rc == Success && total + r.count < remLen {
      var sum := total + r.count;
      var next := if remLen - sum >= |buf| then |buf| else remLen - sum;
      DrainLeaves(r.wire, remLen, sum, next, front);
      var d := Drain(r.wire, |buf|, remLen, sum, next);
      OverlaidMore(buf, piece, DrainInto(r.wire, remLen, sum, next, front), w.stream[r.wire.pos..d.wire.pos]);
      Apart(w.stream, w.pos, r.wire.pos, d.wire.pos);
    } else {
      OverlaidOnce(buf, piece);
    }
  }

  lemma Apart(s: seq<byte>, a: nat, b: nat, c: nat)
    requires a <= b <= c <= |s|
    ensures s[a..b] + s[b..c] == s[a..c]
  {
  }

  /** What a successful call leaves in the buffer is a packet with the shortest length field. */
  lemma PacketShape(w: Wire, size: nat) returns (h: byte, body: seq<byte>)
    requires size > 0 && ReadPacket(w, size).rc == Success
    ensures |body| < size && ReadPacket(w, size).packet == [h] + Encode(|body|) + body
  {
    hide Recv, ReadLength, Encode, Drain;
    h := w.stream[w.pos];
    var v := Recv(w, 1, 0).wire;
    var l := ReadLength(v, 1, 0, 0);
    body := l.wire.stream[l.wire.pos..l.wire.pos + l.remLen];
    assert l.remLen == 0 ==> [h] + Encode(0) + body == [h] + Encode(0);
  }

  /** The field `lb` announces `n` bytes of body the way the stream decoder reads it. */
  predicate Announces(lb: seq<byte>, n: nat) {
    Terminated(lb) && n == Wrap32(Value(lb))
  }

  predicate Fits(n: nat, size: nat) {
    1 + |Encode(n)| + n <= size
  }

  /** The next bytes of `w` are the packet with header `h`, length field `lb` and body `body`. */
  predicate Next(w: Wire, h: byte, lb: seq<byte>, body: seq<byte>) {
    [h] + lb + body <= w.stream[w.pos..] && Announces(lb, |body|)
  }

  /** One call on a stream that continues with a packet, for every behaviour of the TLS layer:
      - success is reported only for a packet that fits; exactly that packet is consumed, and the
        buffer holds its header byte, the canonical form of its length, and its body;
      - a drop is reported only for a body of at least `size` bytes, and the stream stands at the
        next packet exactly when every read of the drain succeeded; it is never beyond it;
      - "nothing to read" consumes nothing;
      - an error inside the length field or the body leaves the stream strictly inside the packet;
      - the call is `Undefined` only for the lengths the guard lets through but the buffer cannot hold. */
  lemma ReadOnePacket(w: Wire, h: byte, lb: seq<byte>, body: seq<byte>, size: nat)
    requires size > 0 && Next(w, h, lb, body)
    ensures var p := ReadPacket(w, size);
            var end := w.pos + 1 + |lb| + |body|;
            && p.wire.pos <= end
            && (p.rc == Success ==> Fits(|body|, size) && p.packet == [h] + Encode(|body|) + body
                                    && p.wire.pos == end)
            && (p.rc == RxBufferTooShort ==> |body| >= size && (p.drained <==> p.wire.pos == end))
            && (p.rc == MqttNothingToRead ==> p.wire.pos == w.pos)
            && (p.rc == Failure || p.rc == SslNothingToRead ==> w.pos < p.wire.pos < end)
            && (p.rc == Undefined ==> |body| < size && !Fits(|body|, size))
            && p.rc != SslReadTimeout && p.rc != DecodeRemainingLengthError
  {
    hide Recv, ReadRest, Fits, Encode, Announces;
    NextParts(w, h, lb, body);
    var hd := Recv(w, 1, 0);
    if hd.rc == Success {
      ReadRestOf(hd.wire, h, lb, body, size);
    }
  }

  /** What the call answers is told by where it leaves the stream, and by the body's length: at the
      packet's beginning there was nothing to read; inside the length field an error came; behind it
      the body was too large for the buffer, or of the lengths that the buffer cannot hold, or was
      read, which failed exactly if its end was not reached. */
  lemma CodeByPosition(w: Wire, h: byte, lb: seq<byte>, body: seq<byte>, size: nat)
    requires size > 0 && Next(w, h, lb, body)
    ensures var p := ReadPacket(w, size);
            var start, end := w.pos + 1 + |lb|, w.pos + 1 + |lb| + |body|;
            && p.rc == (if p.wire.pos == w.pos then MqttNothingToRead
                        else if p.wire.pos < start then SslNothingToRead
                        else if |body| >= size then RxBufferTooShort
                        else if !Fits(|body|, size) then Undefined
                        else if p.wire.pos < end then Failure else Success)
            && (p.drained <==> p.rc == RxBufferTooShort && p.wire.pos == end)
  {
    hide Recv, ReadRest, Fits, Encode, Announces;
    NextParts(w, h, lb, body);
    var hd := Recv(w, 1, 0);
    if hd.rc == Success {
      RestByPosition(hd.wire, h, lb, body, size);
    }
  }

  lemma RestByPosition(w: Wire, h: byte, lb: seq<byte>, body: seq<byte>, size: nat)
    requires size > 0 && Announces(lb, |body|) && lb <= w.stream[w.pos..]
    requires w.pos + |lb| + |body| <= |w.stream|
    requires w.stream[w.pos + |lb|..w.pos + |lb| + |body|] == body
    ensures var p := ReadRest(h, w, size);
            && p.rc == (if p.wire.pos < w.pos + |lb| then SslNothingToRead
                        else if |body| >= size then RxBufferTooShort
                        else if !Fits(|body|, size) then Undefined
                        else if p.wire.pos < w.pos + |lb| + |body| then Failure else Success)
            && (p.drained <==> p.rc == RxBufferTooShort && p.wire.pos == w.pos + |lb| + |body|)
  {
    hide ReadLength, Drain, ReadBody, Encode, Announces, Min;
    AnnouncedLength(w, lb, |body|);
    var l := ReadLength(w, 1, 0, 0);
    if l.rc == Success && |body| < size {
      ReadBodyOf(l.wire, [h] + Encode(|body|), body, size);
      NotDrained([h] + Encode(|body|), l.wire, |body|, size);
    }
  }

  /** The same for the buffer: behind the header byte and the length, as the encoder writes it, stand
      the bytes of the body that were taken; a packet that is dropped overlays them at the front. */
  lemma BufferByPosition(w: Wire, h: byte, lb: seq<byte>, body: seq<byte>, buf: seq<byte>)
    requires |buf| >= 6 && Next(w, h, lb, body)
    ensures var pos := ReadPacket(w, |buf|).wire.pos;
            if pos == w.pos then ReadInto(w, buf) == buf
            else BufferAfter(buf, ReadInto(w, buf), h, body, w.stream, w.pos + 1 + |lb|, pos)
  {
    hide Recv, ReadRest, RestInto, Announces, BufferAfter, Store;
    NextParts(w, h, lb, body);
    var hd := Recv(w, 1, 0);
    if hd.rc == Success {
      RestBuffer(hd.wire, h, lb, body, buf);
    }
  }

  /** `b` is `buf` after a call that took the header byte `h` and left the stream at `pos`, where the
      body lies from `start` on. */
  ghost predicate BufferAfter(buf: seq<byte>, b: seq<byte>, h: byte, body: seq<byte>,
                              stream: seq<byte>, start: nat, pos: nat)
  {
    && |buf| >= 6
    && (pos < start ==> b == Store(buf, 0, [h]))
    && (start <= pos && |body| >= |buf| ==> pos <= |stream| && Overlaid(Store(buf, 0, [h]), b, stream[start..pos]))
    && (start <= pos && Fits(|body|, |buf|) ==>
          pos <= start + |body| && b == Store(buf, 0, [h] + Encode(|body|) + body[..pos - start]))
  }

  lemma RestBuffer(w: Wire, h: byte, lb: seq<byte>, body: seq<byte>, buf: seq<byte>)
    requires |buf| >= 6 && Announces(lb, |body|) && lb <= w.stream[w.pos..]
    requires w.pos + |lb| + |body| <= |w.stream|
    requires w.stream[w.pos + |lb|..w.pos + |lb| + |body|] == body
    ensures BufferAfter(buf, RestInto(w, Store(buf, 0, [h])), h, body, w.stream, w.pos + |lb|,
                        ReadRest(h, w, |buf|).wire.pos)
  {
    hide ReadLength, Drain, DrainInto, ReadBody, BodyInto, Encode, Announces, Overlaid, Store;
    AnnouncedLength(w, lb, |body|);
    var l := ReadLength(w, 1, 0, 0);
    if l.rc == Success {
      EncodeDecode(|body|, []);
      if |body| >= |buf| {
        DrainLeaves(l.wire, |body|, 0, |buf|, Store(buf, 0, [h]));
      } else if Fits(|body|, |buf|) {
        BodyStored(l.wire, h, body, buf);
      }
    }
  }

  lemma BodyStored(w: Wire, h: byte, body: seq<byte>, buf: seq<byte>)
    requires Fits(|body|, |buf|) && w.pos + |body| <= |w.stream| && w.stream[w.pos..w.pos + |body|] == body
    ensures var p := ReadBody([h] + Encode(|body|), w, |body|, |buf|);
            var front := Store(Store(buf, 0, [h]), 1, Encode(|body|));
            && w.pos <= p.wire.pos <= w.pos + |body|
            && BodyInto(w, |body|, 1 + |Encode(|body|)|, front)
                 == Store(buf, 0, [h] + Encode(|body|) + body[..p.wire.pos - w.pos])
  {
    hide ReadBody, BodyInto, Encode, Store;
    var lb := Encode(|body|);
    var front := Store(Store(buf, 0, [h]), 1, lb);
    BodyIs(w, [h] + lb, |body|, front);
    StoreTwice(buf, 0, [h], lb);
    var taken := w.stream[w.pos..ReadBody([h] + lb, w, |body|, |buf|).wire.pos];
    FrontOf(w.stream, w.pos, w.pos + |taken|, w.pos + |body|);
    StoreTwice(buf, 0, [h] + lb, taken);
  }

  lemma BodyIs(w: Wire, fixedHeader: seq<byte>, remLen: nat, buf: seq<byte>)
    requires fixedHeader != [] && |fixedHeader| + remLen <= |buf| && w.pos + remLen <= |w.stream|
    ensures var p := ReadBody(fixedHeader, w, remLen, |buf|);
            && w.pos <= p.wire.pos <= w.pos + remLen
            && BodyInto(w, remLen, |fixedHeader|, buf) == Store(buf, |fixedHeader|, w.stream[w.pos..p.wire.pos])
  {
    hide Recv;
    assert remLen == 0 ==> Store(buf, |fixedHeader|, w.stream[w.pos..w.pos]) == buf;
  }

  lemma FrontOf(s: seq<byte>, a: nat, b: nat, c: nat)
    requires a <= b <= c <= |s|
    ensures s[a..b] == s[a..c][..b - a]
  {
  }

  lemma NotDrained(fixedHeader: seq<byte>, w: Wire, remLen: nat, size: nat)
    requires fixedHeader != []
    ensures !ReadBody(fixedHeader, w, remLen, size).drained
  {
  }

  /** The call succeeded, found nothing to read, or dropped a packet with all reads of the drain
      succeeding. */
  predicate Framed(p: PacketRead) {
    p.rc == Success || p.rc == MqttNothingToRead || (p.rc == RxBufferTooShort && p.drained)
  }

  /** So the stream stands at the packet's beginning or end exactly when the call is one of those. */
  lemma BoundaryExactly(w: Wire, h: byte, lb: seq<byte>, body: seq<byte>, size: nat)
    requires size > 0 && Next(w, h, lb, body)
    ensures var p := ReadPacket(w, size);
            var end := w.pos + 1 + |lb| + |body|;
            p.rc != Undefined ==> (p.wire.pos == w.pos || p.wire.pos == end <==> Framed(p))
  {
    ReadOnePacket(w, h, lb, body, size);
    HeaderTaken(w, size);
    hide ReadPacket;
  }

  /** Whatever a drop has read, it has read the header byte. */
  lemma HeaderTaken(w: Wire, size: nat)
    requires size > 0
    ensures ReadPacket(w, size).rc == RxBufferTooShort ==> w.pos < ReadPacket(w, size).wire.pos
  {
    hide Recv, ReadLength, Drain, Encode;
  }

  /** The same once the header byte is in. */
  lemma ReadRestOf(w: Wire, h: byte, lb: seq<byte>, body: seq<byte>, size: nat)
    requires size > 0 && Announces(lb, |body|) && lb <= w.stream[w.pos..]
    requires w.pos + |lb| + |body| <= |w.stream|
    requires w.stream[w.pos + |lb|..w.pos + |lb| + |body|] == body
    ensures var p := ReadRest(h, w, size);
            var end := w.pos + |lb| + |body|;
            && p.wire.pos <= end
            && (p.rc == Success ==> Fits(|body|, size) && p.packet == [h] + Encode(|body|) + body
                                    && p.wire.pos == end)
            && (p.rc == RxBufferTooShort ==> |body| >= size && (p.drained <==> p.wire.pos == end))
            && (p.rc == Undefined ==> |body| < size && !Fits(|body|, size))
            && (p.rc == Failure || p.rc == SslNothingToRead ==> p.wire.pos < end)
            && (p.rc.Success? || p.rc.RxBufferTooShort? || p.rc.Undefined? || p.rc.Failure? || p.rc.SslNothingToRead?)
  {
    hide ReadLength, Drain, ReadBody, Encode, Announces, Min;
    AnnouncedLength(w, lb, |body|);
    var l := ReadLength(w, 1, 0, 0);
    if l.rc == Success && |body| < size {
      ReadBodyOf(l.wire, [h] + Encode(|body|), body, size);
    }
  }

  /** The call stores behind its buffer: when the TLS layer makes progress, exactly for the lengths
      between the two limits. */
  lemma StoresBehindExactly(w: Wire, h: byte, lb: seq<byte>, body: seq<byte>, size: nat)
    requires size > 0 && Next(w, h, lb, body) && Flowing(w, 1 + |lb| + |body|)
    ensures ReadPacket(w, size).rc == Undefined <==> |body| < size && !Fits(|body|, size)
  {
    hide Recv, ReadRest, Fits, Encode, Announces, ReadLength, Drain, Flowing;
    ReadOnePacket(w, h, lb, body, size);
    if |body| < size && !Fits(|body|, size) {
      NextParts(w, h, lb, body);
      RecvCompletes(w, 1, 0, |lb| + |body|);
      RestBehind(Recv(w, 1, 0).wire, h, lb, body, size);
    }
  }

  lemma RestBehind(w: Wire, h: byte, lb: seq<byte>, body: seq<byte>, size: nat)
    requires size > 0 && Announces(lb, |body|) && lb <= w.stream[w.pos..] && Flowing(w, |lb| + |body|)
    requires |body| < size && !Fits(|body|, size)
    ensures ReadRest(h, w, size).rc == Undefined
  {
    hide ReadLength, Drain, Encode, Announces, Flowing, Recv;
    AnnouncedLength(w, lb, |body|);
    FieldAnnounced(w, lb, |body|);
    ReadLengthFlows(w, 1, 0, 0, |body|);
  }

  lemma FieldAnnounced(w: Wire, lb: seq<byte>, n: nat)
    requires Announces(lb, n) && lb <= w.stream[w.pos..]
    ensures Terminated(Field(w)) && Field(w) == lb
  {
  }

  /** For a buffer of 1024 bytes: a body of 1022 bytes, whose length takes two. */
  lemma StoresBehind()
    ensures 1022 < 1024 && !Fits(1022, 1024) && !Fits(1023, 1024) && Fits(1021, 1024)
  {
  }

  /** An error in front of a read of the drain ends it short of the packet's last byte. */
  lemma DrainStops(w: Wire, size: nat, remLen: nat, total: nat, request: nat)
    requires 0 < request <= size && total + request <= remLen && w.Event().Error?
    ensures var d := Drain(w, size, remLen, total, request);
            d.rc != Success && d.total == total && d.wire.pos == w.pos
  {
  }

  const LARGE: seq<byte> := [0x30, 5, 0x30, 0, 1, 2, 3]
  const ANSWERS: seq<TlsEvent> := [Data(1), Data(1), Error(true), Data(1), Data(1)]

  /** What then happens: a packet of seven bytes is dropped from a buffer of four, its drain fails at
      once, and the next call takes the first bytes of its body for a packet. */
  lemma BodyTakenForPacket()
    ensures var w := RawWire(LARGE, 0, ANSWERS, 0);
            var first := ReadPacket(w, 4);
            var second := ReadPacket(first.wire, 4);
            && first.rc == RxBufferTooShort && !first.drained && first.wire.pos == 2
            && second.rc == Success && second.packet == [0x30, 0]
  {
    hide ReadPacket;
    FirstAnswers();
    DrainFailsFirst(RawWire(LARGE, 0, ANSWERS, 0), 4);
    EmptyPacket(RawWire(LARGE, 2, ANSWERS, 3), 4);
  }

  lemma FirstAnswers()
    ensures var w: Wire := RawWire(LARGE, 0, ANSWERS, 0);
            && w.Event() == Data(1) && w.Advance(1).Event() == Data(1)
            && w.Advance(1).Advance(1).Event() == Error(true)
            && w.Advance(1).Advance(1).Advance(0) == RawWire(LARGE, 2, ANSWERS, 3)
    ensures var v: Wire := RawWire(LARGE, 2, ANSWERS, 3); v.Event() == Data(1) && v.Advance(1).Event() == Data(1)
  {
  }

  /** A call that drops a packet and meets an error at once. */
  lemma DrainFailsFirst(w: Wire, size: nat)
    requires w.Event() == Data(1) && w.pos + 1 < |w.stream| && w.Advance(1).Event() == Data(1)
    requires w.Advance(1).Advance(1).Event().Error?
    requires 0 < size <= w.stream[w.pos + 1] < 128
    ensures ReadPacket(w, size) == PacketRead(RxBufferTooShort, [], w.Advance(1).Advance(1).Advance(0), false)
  {
    hide Recv, ReadLength, Drain;
    OneByte(w);
    OneLength(w.Advance(1));
    NothingDrained(w.Advance(1).Advance(1), size, w.stream[w.pos + 1]);
  }

  lemma NothingDrained(w: Wire, size: nat, remLen: nat)
    requires 0 < size <= remLen && w.Event().Error?
    ensures Drain(w, size, remLen, 0, size).wire == w.Advance(0) && Drain(w, size, remLen, 0, size).rc != Success
  {
  }

  const CUT: seq<TlsEvent> := [Data(1), Error(true), Data(1), Data(1)]

  /** An error behind the header byte of a publish packet: the next call takes the packet's length for
      a header and the first byte of its body for a length, and reads a CONNACK nobody sent. */
  lemma LengthTakenForHeader()
    ensures var w := RawWire([0x30, 0x20] + Repeat(0, 32), 0, CUT, 0);
            var first := ReadPacket(w, 1024);
            var second := ReadPacket(first.wire, 1024);
            && Next(w, 0x30, [0x20], Repeat(0, 32))
            && first.rc == SslNothingToRead && first.wire.pos == 1
            && second.rc == Success && second.packet == [0x20, 0]
  {
    hide ReadPacket, Next;
    var stream: seq<byte> := [0x30, 0x20] + Repeat(0, 32);
    CutPacket();
    OneByteCut(stream);
    EmptyPacket(RawWire(stream, 1, CUT, 2), 1024);
  }

  lemma CutPacket()
    ensures Next(RawWire([0x30, 0x20] + Repeat(0, 32), 0, CUT, 0), 0x30, [0x20], Repeat(0, 32))
  {
    var stream: seq<byte> := [0x30, 0x20] + Repeat(0, 32);
    var packet: seq<byte> := [0x30] + [0x20] + Repeat(0, 32);
    assert packet == stream == stream[0..];
    assert Value([0x20]) == 32;
  }

  lemma OneByteCut(stream: seq<byte>)
    requires |stream| >= 3
    ensures ReadPacket(RawWire(stream, 0, CUT, 0), 1024) == PacketRead(SslNothingToRead, [], RawWire(stream, 1, CUT, 2), false)
    ensures var v: Wire := RawWire(stream, 1, CUT, 2); v.Event() == Data(1) && v.Advance(1).Event() == Data(1)
  {
    hide Drain, ReadBody;
    var w: Wire := RawWire(stream, 0, CUT, 0);
    OneByte(w);
  }

  lemma EmptyPacket(w: Wire, size: nat)
    requires w.Event() == Data(1) && w.pos + 1 < |w.stream| && w.Advance(1).Event() == Data(1)
    requires w.stream[w.pos + 1] == 0 && size >= 2
    ensures ReadPacket(w, size).rc == Success && ReadPacket(w, size).packet == [w.stream[w.pos], 0]
  {
    hide Recv, ReadLength, Drain;
    OneByte(w);
    OneLength(w.Advance(1));
    assert Encode(0) == [0];
  }

  /** A length field of one byte. */
  lemma OneLength(w: Wire)
    requires w.Event() == Data(1) && w.pos < |w.stream| && w.stream[w.pos] < 128
    ensures ReadLength(w, 1, 0, 0) == LengthRead(Success, w.stream[w.pos], w.Advance(1))
  {
    hide Recv;
    OneByte(w);
    DigitOnce(w.stream[w.pos]);
    hide Digit, Wrap32;
  }

  lemma DigitOnce(b: byte)
    requires b < 128
    ensures Wrap32(0 + Digit(b, 1)) == b
  {
  }

  lemma OneByte(w: Wire)
    requires w.Event() == Data(1) && w.pos < |w.stream|
    ensures Recv(w, 1, 0) == Received(Success, 1, w.Advance(1))
  {
  }

  lemma NextParts(w: Wire, h: byte, lb: seq<byte>, body: seq<byte>)
    requires [h] + lb + body <= w.stream[w.pos..]
    ensures w.pos + 1 + |lb| + |body| <= |w.stream|
    ensures w.stream[w.pos] == h
    ensures lb <= w.stream[w.pos + 1..]
    ensures w.stream[w.pos + 1 + |lb|..w.pos + 1 + |lb| + |body|] == body
    ensures Next(w, h, lb, body) ==> Announces(lb, |body|)
  {
  }

  lemma AnnouncedLength(w: Wire, lb: seq<byte>, n: nat)
    requires Announces(lb, n) && lb <= w.stream[w.pos..]
    ensures var l := ReadLength(w, 1, 0, 0);
            && l.wire.pos <= w.pos + |lb|
            && (l.rc == Success ==> l.remLen == n && l.wire.pos == w.pos + |lb|)
            && (l.rc == Success || (l.rc == SslNothingToRead && l.wire.pos < w.pos + |lb|))
  {
    hide ReadLength, Value, ValueAt;
    FieldAt(w, lb);
    ReadLengthValue(w, 1, 0, 0);
    ValueAtScales(lb, 1);
    ReadLengthStaysIn(w, 1, 0, 0);
  }

  lemma {:induction false} ReadLengthStaysIn(w: Wire, m: uint32, acc: uint32, len: nat)
    requires Terminated(Field(w))
    ensures var r := ReadLength(w, m, acc, len);
            && r.wire.pos <= w.pos + |Field(w)|
            && (len <= 3 ==> r.rc == Success || (r.rc == SslNothingToRead && r.wire.pos < w.pos + |Field(w)|))
    decreases |w.script| - w.turn
  {
    hide Recv, Digit, Field, Terminated, Wrap32, Flowing;
    NonEmpty(Field(w));
    var r := Recv(w, 1, 0);
    if len <= 3 && r.rc == Success {
      var b := w.stream[w.pos];
      if b < 128 {
        FieldOne(w);
      } else {
        FieldCons(w, r.wire);
        ReadLengthStaysIn(r.wire, Wrap32(m * 128), Wrap32(acc + Digit(b, m)), r.count);
      }
    }
  }

  lemma NonEmpty(bs: seq<byte>)
    requires Terminated(bs)
    ensures |bs| > 0
  {
  }

  lemma ReadBodyOf(w: Wire, fixedHeader: seq<byte>, body: seq<byte>, size: nat)
    requires fixedHeader != []
    requires w.pos + |body| <= |w.stream| && w.stream[w.pos..w.pos + |body|] == body
    ensures var p := ReadBody(fixedHeader, w, |body|, size);
            && w.pos <= p.wire.pos <= w.pos + |body|
            && (p.rc == Failure ==> p.wire.pos < w.pos + |body|)
            && (p.rc == Success ==> |fixedHeader| + |body| <= size && p.packet == fixedHeader + body
                                    && p.wire.pos == w.pos + |body|)
            && (p.rc == Undefined <==> |fixedHeader| + |body| > size)
  {
  }

  /** When the TLS layer makes progress the call reads the packet or drops it whole. */
  lemma ReadOnePacketFlows(w: Wire, h: byte, lb: seq<byte>, body: seq<byte>, size: nat, spare: nat)
    requires size > 0 && Next(w, h, lb, body)
    requires Flowing(w, 1 + |lb| + |body| + spare)
    requires Fits(|body|, size) || |body| >= size
    ensures var p := ReadPacket(w, size);
            && Flowing(p.wire, spare)
            && (if Fits(|body|, size) then p.rc == Success else p.rc == RxBufferTooShort && p.drained)
  {
    hide Recv, ReadLength, Drain;
    NextParts(w, h, lb, body);
    RecvCompletes(w, 1, 0, |lb| + |body| + spare);
    var hd := Recv(w, 1, 0);
    FieldAt(hd.wire, lb);
    AnnouncedLength(hd.wire, lb, |body|);
    ReadLengthFlows(hd.wire, 1, 0, 0, |body| + spare);
    var l := ReadLength(hd.wire, 1, 0, 0);
    if |body| >= size {
      DrainFlows(l.wire, size, |body|, 0, size, spare);
    } else if |body| > 0 {
      RecvCompletes(l.wire, |body|, 0, spare);
    }
  }

  // ---- Whole runs

  /** A packet as a sender that follows section 2.2 of MQTT 3.1.1 writes it. */
  datatype Packet = Packet(header: byte, body: seq<byte>) {
    function Bytes(): seq<byte> {
      [header] + Encode(|body|) + body
    }

    /** Small enough for the protocol, and not in the gap between the reader's two limits. */
    predicate Acceptable(size: nat) {
      |body| <= MAX_REMAINING_LENGTH && (Fits(|body|, size) || |body| >= size)
    }
  }

  predicate AllAcceptable(ps: seq<Packet>, size: nat) {
    ps != [] ==> ps[0].Acceptable(size) && AllAcceptable(ps[1..], size)
  }

  function Concat(ps: seq<Packet>): seq<byte> {
    if ps == [] then [] else ps[0].Bytes() + Concat(ps[1..])
  }

  /** The packets a buffer of `size` bytes can take, in order. */
  function Deliverable(ps: seq<Packet>, size: nat): seq<seq<byte>> {
    if ps == [] then []
    else if Fits(|ps[0].body|, size) then [ps[0].Bytes()] + Deliverable(ps[1..], size)
    else Deliverable(ps[1..], size)
  }

  /** A run of calls. It stops at the first call that neither reads a packet, drops one whole,
      nor finds nothing to read. `finished` counts the packets read or dropped. */
  datatype Run = Run(got: seq<seq<byte>>, finished: nat, wire: Wire, intact: bool)

  function ReadRun(w: Wire, size: nat, calls: nat): Run
    requires size > 0
    decreases calls
  {
    if calls == 0 then Run([], 0, w, true)
    else
      var p := ReadPacket(w, size);
      if p.rc == MqttNothingToRead then ReadRun(p.wire, size, calls - 1)
      else if p.rc == Success || (p.rc == RxBufferTooShort && p.drained) then
        var r := ReadRun(p.wire, size, calls - 1);
        r.(got := (if p.rc == Success then [p.packet] else []) + r.got, finished := r.finished + 1)
      else Run([], 0, p.wire, false)
  }

  /** The stream of `w` ends with the packets `ps`. */
  predicate Holds(w: Wire, ps: seq<Packet>) {
    w.stream[w.pos..] == Concat(ps)
  }

  lemma HoldsCons(w: Wire, ps: seq<Packet>)
    requires Holds(w, ps) && ps != [] && |ps[0].body| <= MAX_REMAINING_LENGTH
    ensures var f := ps[0];
            && Next(w, f.header, Encode(|f.body|), f.body)
            && w.pos + |f.Bytes()| <= |w.stream|
            && (forall v: Wire :: w.LeadsTo(v) && v.pos == w.pos + |f.Bytes()| ==> Holds(v, ps[1..]))
  {
    var f := ps[0];
    EncodeMeans(|f.body|);
    assert [f.header] + Encode(|f.body|) + f.body == f.Bytes();
    forall v: Wire | w.LeadsTo(v) && v.pos == w.pos + |f.Bytes()| ensures Holds(v, ps[1..]) {
      assert v.stream[v.pos..] == w.stream[w.pos..][|f.Bytes()|..];
    }
  }

  /** ReadOnePacket, for the first of the packets `ps`. */
  lemma OnePacketOff(w: Wire, ps: seq<Packet>, size: nat)
    requires size > 0 && Holds(w, ps) && ps != [] && AllAcceptable(ps, size)
    ensures AllAcceptable(ps[1..], size)
    ensures var p := ReadPacket(w, size);
            && (p.rc == Success ==> Fits(|ps[0].body|, size) && p.packet == ps[0].Bytes()
                                    && Holds(p.wire, ps[1..]))
            && (p.rc == RxBufferTooShort ==> !Fits(|ps[0].body|, size))
            && (p.rc == RxBufferTooShort && p.drained ==> Holds(p.wire, ps[1..]))
            && (p.rc == MqttNothingToRead ==> p.wire.pos == w.pos)
            && (Framed(p) ==> Holds(p.wire, if p.rc == MqttNothingToRead then ps else ps[1..]))
  {
    var f := ps[0];
    HoldsCons(w, ps);
    ReadOnePacket(w, f.header, Encode(|f.body|), f.body, size);
  }

  lemma RunStep(w: Wire, size: nat, calls: nat)
    requires size > 0 && calls > 0
    ensures var p := ReadPacket(w, size);
            var r := ReadRun(p.wire, size, calls - 1);
            ReadRun(w, size, calls) ==
              if p.rc == MqttNothingToRead then r
              else if p.rc == Success then Run([p.packet] + r.got, r.finished + 1, r.wire, r.intact)
              else if p.rc == RxBufferTooShort && p.drained then Run(r.got, r.finished + 1, r.wire, r.intact)
              else Run([], 0, p.wire, false)
  {
  }

  lemma HoldsStill(w: Wire, v: Wire, ps: seq<Packet>)
    requires Holds(w, ps) && w.LeadsTo(v) && v.pos == w.pos
    ensures Holds(v, ps)
  {
  }

  lemma NothingLeft(w: Wire, ps: seq<Packet>, size: nat)
    requires size > 0 && Holds(w, ps) && ps == []
    ensures ReadPacket(w, size).rc == MqttNothingToRead
    ensures ReadPacket(w, size).wire.pos == w.pos
  {
    assert w.pos == |w.stream|;
    RecvNothing(w, 1);
  }

  lemma NoCalls(w: Wire, ps: seq<Packet>, size: nat)
    requires size > 0 && Holds(w, ps)
    ensures var r := ReadRun(w, size, 0);
            r == Run([], 0, w, true) && Holds(w, ps[0..]) && Deliverable(ps[..0], size) == []
  {
  }

  lemma OneMore(ps: seq<Packet>, n: nat, size: nat)
    requires ps != [] && n <= |ps| - 1
    ensures ps[n + 1..] == ps[1..][n..]
    ensures Deliverable(ps[..n + 1], size)
         == if Fits(|ps[0].body|, size) then [ps[0].Bytes()] + Deliverable(ps[1..][..n], size)
            else Deliverable(ps[1..][..n], size)
  {
    assert ps[..n + 1][1..] == ps[1..][..n];
  }

  /** Framing is never lost: over any stream of packets that each fit or are oversize, and any TLS
      behaviour, the k-th reading or dropping call consumes exactly the k-th packet, and the
      packets handed over are the ones that fit, in order and byte for byte. */
  lemma {:induction false} RunKeepsFraming(w: Wire, ps: seq<Packet>, size: nat, calls: nat)
    requires size > 0 && Holds(w, ps)
    requires AllAcceptable(ps, size)
    ensures var r := ReadRun(w, size, calls);
            r.intact ==> && r.finished <= |ps|
                         && Holds(r.wire, ps[r.finished..])
                         && r.got == Deliverable(ps[..r.finished], size)
    decreases calls
  {
    hide *;
    if calls == 0 {
      NoCalls(w, ps, size);
    } else {
      var p := ReadPacket(w, size);
      if ps == [] {
        NothingLeft(w, ps, size);
      } else {
        OnePacketOff(w, ps, size);
      }
      RunStep(w, size, calls);
      if p.rc == MqttNothingToRead {
        HoldsStill(w, p.wire, ps);
        RunKeepsFraming(p.wire, ps, size, calls - 1);
      } else if p.rc == Success || (p.rc == RxBufferTooShort && p.drained) {
        RunKeepsFraming(p.wire, ps[1..], size, calls - 1);
        var r := ReadRun(p.wire, size, calls - 1);
        if r.intact {
          OneMore(ps, r.finished, size);
        }
      }
    }
  }

  /** And when the TLS layer makes progress, as many calls as packets deliver all that fit. */
  lemma {:induction false} RunDelivers(w: Wire, ps: seq<Packet>, size: nat)
    requires size > 0 && Holds(w, ps)
    requires AllAcceptable(ps, size)
    requires Flowing(w, |w.stream| - w.pos)
    ensures var r := ReadRun(w, size, |ps|);
            r.intact && r.finished == |ps| && r.wire.pos == |w.stream| && r.got == Deliverable(ps, size)
    decreases |ps|
  {
    hide *;
    if ps == [] {
      EmptyRun(w, ps, size);
    } else {
      OnePacketOff(w, ps, size);
      OnePacketOffFlows(w, ps, size);
      RunStep(w, size, |ps|);
      RunDelivers(ReadPacket(w, size).wire, ps[1..], size);
    }
  }

  lemma EmptyRun(w: Wire, ps: seq<Packet>, size: nat)
    requires size > 0 && Holds(w, ps) && ps == []
    ensures ReadRun(w, size, |ps|) == Run([], 0, w, true) && w.pos == |w.stream| && Deliverable(ps, size) == []
  {
  }

  lemma OnePacketOffFlows(w: Wire, ps: seq<Packet>, size: nat)
    requires size > 0 && Holds(w, ps) && ps != [] && AllAcceptable(ps, size)
    requires Flowing(w, |w.stream| - w.pos)
    ensures var p := ReadPacket(w, size);
            && p.wire.stream == w.stream
            && Flowing(p.wire, |p.wire.stream| - p.wire.pos)
            && (if Fits(|ps[0].body|, size) then p.rc == Success else p.rc == RxBufferTooShort && p.drained)
    ensures Deliverable(ps, size) == if Fits(|ps[0].body|, size) then [ps[0].Bytes()] + Deliverable(ps[1..], size)
                                     else Deliverable(ps[1..], size)
  {
    hide ReadPacket, Fits, Concat, Flowing;
    var f := ps[0];
    HoldsCons(w, ps);
    ReadOnePacket(w, f.header, Encode(|f.body|), f.body, size);
    ReadOnePacketFlows(w, f.header, Encode(|f.body|), f.body, size, |w.stream| - w.pos - |f.Bytes()|);
  }
}
