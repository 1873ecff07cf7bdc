/**
 The variable-length "remaining length" field of an MQTT fixed header
 (section 2.2.3 of MQTT 3.1.1): the encoder, the decoder that reads from a
 buffer, and the packet-size computation built on them.

 `b & 127` is written `b % 128`, `b & 128 != 0` is `b >= 128`, and `b |= 0x80`
 on a byte below 128 is `b + 128`.
 */
module RemainingLength {
  import opened Bytes

  const MAX_NO_OF_REMAINING_LENGTH_BYTES: nat := 4

  /** The largest value four length bytes can carry. */
  const MAX_REMAINING_LENGTH: nat := 268_435_455

  // ---- What the bytes mean

  /** All bytes but the last have their continuation bit set. */
  predicate Terminated(bs: seq<byte>) {
    |bs| > 0 && bs[|bs| - 1] < 128 && forall i :: 0 <= i < |bs| - 1 ==> bs[i] >= 128
  }

  /** Little-endian base-128 value of the low seven bits of each byte. */
  function Value(bs: seq<byte>): nat {
    if bs == [] then 0 else bs[0] % 128 + 128 * Value(bs[1..])
  }

  /** What byte `b` contributes at the given weight. */
  function Digit(b: byte, weight: nat): nat {
    b % 128 * weight
  }

  function Pow128(k: nat): nat {
    if k == 0 then 1 else 128 * Pow128(k - 1)
  }

  // ---- The encoder

  function Encode(n: nat): (bs: seq<byte>)
    ensures |bs| > 0
  {
    if n / 128 > 0 then [n % 128 + 128] + Encode(n / 128) else [n]
  }

  /** The encoding of `n` is terminated, stands for `n` and wastes no byte. */
  lemma {:induction false} EncodeMeans(n: nat)
    ensures Terminated(Encode(n)) && Value(Encode(n)) == n
    ensures |Encode(n)| > 1 ==> Encode(n)[|Encode(n)| - 1] != 0
  {
    if n / 128 > 0 {
      EncodeMeans(n / 128);
      var bs, rest := Encode(n), Encode(n / 128);
      assert bs[1..] == rest;
      assert forall i :: 0 < i < |bs| ==> bs[i] == rest[i - 1];
    } else {
      assert Encode(n)[1..] == [];
    }
  }

  method WriteLenToBuffer(buf: array<byte>, off: nat, length: uint32) returns (outLen: nat)
    requires off + |Encode(length)| <= buf.Length
    modifies buf
    ensures outLen == |Encode(length)|
    ensures buf[..] == Store(old(buf[..]), off, Encode(length))
  {
    outLen := 0;
    var rest: nat := length;
    ghost var was, done := buf[..], [];
    while true
      invariant outLen == |done| && Encode(length) == done + Encode(rest)
      invariant buf[..] == Store(was, off, done)
      decreases rest
    {
      var encodedByte: byte := rest % 128;
      ghost var before := rest;
      rest := rest / 128;
      if rest > 0 {
        encodedByte := encodedByte + 128;
      }
      EncodeUnrolled(done, before);
      buf[off + outLen] := encodedByte;
      outLen := outLen + 1;
      done := done + [encodedByte];
      assert buf[..] == Store(was, off, done);
      if rest == 0 {
        break;
      }
    }
  }

  lemma EncodeUnrolled(done: seq<byte>, n: nat)
    ensures done + Encode(n) == if n / 128 == 0 then done + [n % 128]
                                else done + [n % 128 + 128] + Encode(n / 128)
  {
    if n / 128 > 0 {
      assert done + ([n % 128 + 128] + Encode(n / 128)) == done + [n % 128 + 128] + Encode(n / 128);
    }
  }

  // ---- The decoder that reads from a buffer

  /** MQTT_DECODE_REMAINING_LENGTH_ERROR or the pair (*decodedLen, *readBytesLen). */
  datatype Decoded = DecodeError | Decoded(value: uint32, count: nat)

  /** The number of bytes up to and including the first one without a continuation bit. */
  function PrefixLen(bs: seq<byte>): (n: nat)
    ensures 1 <= n <= |bs| + 1
    ensures n <= |bs| ==> Terminated(bs[..n])
    ensures n == |bs| + 1 <==> forall i :: 0 <= i < |bs| ==> bs[i] >= 128
  {
    if bs == [] then 1
    else if bs[0] < 128 then 1
    else 1 + PrefixLen(bs[1..])
  }

  /** What section 2.2.3 says the bytes at the front of `bs` stand for: at most four count. */
  function Decode(bs: seq<byte>): (d: Decoded)
    requires |bs| >= 4 || PrefixLen(bs) <= |bs|
    ensures d.Decoded? <==> PrefixLen(bs) <= 4
    ensures d.Decoded? ==> d.count == PrefixLen(bs) <= |bs|
                           && d.value == Value(bs[..d.count]) <= MAX_REMAINING_LENGTH
  {
    var n := PrefixLen(bs);
    if n > 4 then DecodeError
    else
      ValueBound(bs[..n]);
      Decoded(Value(bs[..n]), n)
  }

  /** The caller must own the bytes the C loop looks at: up to a terminator, or four. */
  method DecodeRemainingLengthFromBuffer(buf: array<byte>, off: nat) returns (r: Decoded)
    requires off <= buf.Length
    requires buf.Length - off >= 4 || PrefixLen(buf[off..]) <= buf.Length - off
    ensures r == Decode(buf[off..])
  {
    hide *;
    var multiplier: uint32, len: nat, decodedLen: uint32 := 1, 0, 0;
    ghost var bs := buf[off..];
    DecodingStarts(bs);
    while true
      invariant len <= 4 && len <= |bs|
      invariant Decoding(bs, len, multiplier, decodedLen)
      decreases 5 - len
    {
      DecodingGoesOn(bs, len, multiplier, decodedLen);
      len := len + 1;
      if len > MAX_NO_OF_REMAINING_LENGTH_BYTES {
        return DecodeError;
      }
      var encodedByte := buf[off + len - 1];
      assert encodedByte == bs[len - 1];
      decodedLen := Wrap32(decodedLen + Digit(encodedByte, multiplier));
      multiplier := Wrap32(multiplier * 128);
      if encodedByte < 128 {
        return Decoded(decodedLen, len);
      }
    }
  }

  /** The decoding loop after `len` bytes, all with their continuation bit set. */
  ghost predicate Decoding(bs: seq<byte>, len: nat, multiplier: nat, decodedLen: nat) {
    && len <= |bs| && len <= 4
    && multiplier == Pow128(len) && decodedLen == Value(bs[..len])
    && forall i :: 0 <= i < len ==> bs[i] >= 128
  }

  lemma DecodingStarts(bs: seq<byte>)
    ensures Decoding(bs, 0, 1, 0)
  {
  }

  lemma DecodingGoesOn(bs: seq<byte>, len: nat, multiplier: uint32, decodedLen: uint32)
    requires |bs| >= 4 || PrefixLen(bs) <= |bs|
    requires Decoding(bs, len, multiplier, decodedLen)
    ensures MAX_NO_OF_REMAINING_LENGTH_BYTES == 4
    ensures len == 4 ==> Decode(bs) == DecodeError
    ensures len < 4 ==> len < |bs|
                        && var m, d := Wrap32(multiplier * 128), Wrap32(decodedLen + Digit(bs[len], multiplier));
                           if bs[len] < 128 then Decode(bs) == Decoded(d, len + 1) else Decoding(bs, len + 1, m, d)
  {
    hide Digit, Pow128, Value, PrefixLen, Terminated, Decode;
    PrefixLenFrom(bs, len);
    if len == 4 {
      Decodes(bs, PrefixLen(bs));
    } else {
      DigitStep(bs, len + 1);
      if bs[len] < 128 {
        PrefixEndsAt(bs, len);
        Decodes(bs, len + 1);
      }
    }
  }

  lemma PrefixEndsAt(bs: seq<byte>, i: nat)
    requires i < |bs| && bs[i] < 128 && forall k :: 0 <= k < i ==> bs[k] >= 128
    ensures PrefixLen(bs) == i + 1
  {
  }

  lemma Decodes(bs: seq<byte>, n: nat)
    requires |bs| >= 4 || n <= |bs|
    requires n == PrefixLen(bs)
    ensures n > 4 ==> Decode(bs) == DecodeError
    ensures n <= 4 ==> Decode(bs).Decoded? && Decode(bs).value == Value(bs[..n]) && Decode(bs).count == n
  {
  }

  // ---- Facts about values

  lemma SmallPowers()
    ensures Pow128(0) == 1 && Pow128(1) == 128 && Pow128(2) == 16_384
    ensures Pow128(3) == 2_097_152 && Pow128(4) == 268_435_456
  {
  }

  lemma {:induction false} ValueSnoc(bs: seq<byte>, b: byte)
    ensures Value(bs + [b]) == Value(bs) + Digit(b, Pow128(|bs|))
  {
    if bs == [] {
      assert [] + [b] == [b];
    } else {
      assert (bs + [b])[1..] == bs[1..] + [b];
      ValueSnoc(bs[1..], b);
      var m, p := b % 128, Pow128(|bs| - 1);
      assert 128 * (m * p) == m * (128 * p);
    }
  }

  /** Taking in the `n`-th digit, within the four bytes that cannot overflow. */
  lemma DigitStep(bs: seq<byte>, n: nat)
    requires 1 <= n <= 4 && n <= |bs|
    ensures Value(bs[..n]) == Value(bs[..n - 1]) + Digit(bs[n - 1], Pow128(n - 1)) < TWO_32
    ensures Pow128(n - 1) * 128 == Pow128(n) < TWO_32
  {
    ValueSnoc(bs[..n - 1], bs[n - 1]);
    assert bs[..n] == bs[..n - 1] + [bs[n - 1]];
    ValueBound(bs[..n]);
    SmallPowers();
  }

  lemma {:induction false} ValueBound(bs: seq<byte>)
    ensures Value(bs) < Pow128(|bs|)
    ensures |bs| <= 4 ==> Value(bs) <= MAX_REMAINING_LENGTH
  {
    if bs != [] {
      ValueBound(bs[1..]);
    }
    if |bs| <= 4 {
      SmallPowers();
    }
  }

  lemma {:induction false} PrefixLenFrom(bs: seq<byte>, n: nat)
    requires n <= |bs|
    requires forall i :: 0 <= i < n ==> bs[i] >= 128
    ensures PrefixLen(bs) == n + PrefixLen(bs[n..])
  {
    if n > 0 {
      assert bs[1..][n - 1..] == bs[n..];
      PrefixLenFrom(bs[1..], n - 1);
    } else {
      assert bs[0..] == bs;
    }
  }

  /** A terminated sequence is its own length prefix, whatever follows it. */
  lemma PrefixOfTerminated(bs: seq<byte>, tail: seq<byte>)
    requires Terminated(bs)
    ensures PrefixLen(bs + tail) == |bs|
  {
    var all := bs + tail;
    PrefixLenFrom(all, |bs| - 1);
    assert all[|bs| - 1..][0] == bs[|bs| - 1];
  }

  /** An encoding has `k` bytes exactly when the number has `k` base-128 digits. */
  lemma {:induction false} EncodeLength(n: nat, k: nat)
    requires k > 0
    ensures |Encode(n)| <= k <==> n < Pow128(k)
    decreases k
  {
    if k > 1 && n >= 128 {
      EncodeLength(n / 128, k - 1);
      assert Pow128(k) == 128 * Pow128(k - 1);
    } else if k > 1 {
      PowMonotone(1, k);
      SmallPowers();
    } else {
      SmallPowers();
      if n >= 128 {
        assert |Encode(n / 128)| > 0;
      }
    }
  }

  lemma {:induction false} PowMonotone(j: nat, k: nat)
    requires j <= k
    ensures Pow128(j) <= Pow128(k)
    decreases k
  {
    if j < k {
      PowMonotone(j, k - 1);
    }
  }

  // ---- Round trips

  /** Encoder then decoder, whatever bytes follow: the identity up to 268 435 455 and a
      five-byte encoding that the decoder refuses above it. */
  lemma EncodeDecode(n: uint32, tail: seq<byte>)
    ensures 1 <= |Encode(n)| <= 5
    ensures |Encode(n)| == 5 <==> n > MAX_REMAINING_LENGTH
    ensures PrefixLen(Encode(n) + tail) == |Encode(n)|
    ensures Decode(Encode(n) + tail)
         == if n <= MAX_REMAINING_LENGTH then Decoded(n, |Encode(n)|) else DecodeError
  {
    SmallPowers();
    EncodeLength(n, 4);
    EncodeLength(n, 5);
    assert Pow128(5) == 128 * Pow128(4);
    EncodeMeans(n);
    PrefixOfTerminated(Encode(n), tail);
    assert (Encode(n) + tail)[..|Encode(n)|] == Encode(n);
  }

  /** Decoder then encoder: `Encode` gives the shortest terminated sequence with a given value,
      and gives back the very bytes that were read exactly when they had no zero last digit. */
  lemma {:induction false} DecodeEncode(bs: seq<byte>)
    requires Terminated(bs)
    ensures |Encode(Value(bs))| <= |bs|
    ensures Encode(Value(bs)) == bs <==> |bs| == 1 || bs[|bs| - 1] != 0
  {
    if |bs| > 1 {
      var rest := bs[1..];
      assert Terminated(rest) by {
        assert forall i :: 0 <= i < |rest| ==> rest[i] == bs[i + 1];
      }
      assert Value(bs) == bs[0] % 128 + 128 * Value(rest);
      hide Encode, Value;
      DecodeEncode(rest);
      EncodeCons(bs[0], Value(rest));
      EncodeMeans(Value(rest));
      PrependDigit(bs, Encode(Value(bs)), Encode(Value(rest)), Value(rest));
    }
  }

  /** Adding a leading digit keeps the comparison of an encoding with the bytes it came from. */
  lemma PrependDigit(bs: seq<byte>, e: seq<byte>, tail: seq<byte>, v: nat)
    requires |bs| > 1 && bs[0] >= 128
    requires e == if v > 0 then [bs[0]] + tail else [bs[0] - 128]
    requires v == 0 ==> tail == [0]
    requires 0 < |tail| <= |bs| - 1
    requires tail == bs[1..] <==> |bs| == 2 || bs[|bs| - 1] != 0
    requires v > 0 && |tail| == 1 ==> tail[0] != 0
    ensures |e| <= |bs|
    ensures e == bs <==> bs[|bs| - 1] != 0
  {
  }

  lemma EncodeCons(b: byte, v: nat)
    requires b >= 128
    ensures Encode(b % 128 + 128 * v) == if v > 0 then [b] + Encode(v) else [b - 128]
  {
  }

  /** No encoding is a prefix of another: reading one off the front of a stream is unambiguous. */
  lemma PrefixFree(m: nat, n: nat, s: seq<byte>, t: seq<byte>)
    requires Encode(m) + s == Encode(n) + t
    ensures m == n && s == t
  {
    EncodeMeans(m);
    EncodeMeans(n);
    PrefixOfTerminated(Encode(m), s);
    PrefixOfTerminated(Encode(n), t);
    var all := Encode(m) + s;
    assert all[..|Encode(m)|] == Encode(m) && all[..|Encode(n)|] == Encode(n);
    assert all[|Encode(m)|..] == s && all[|Encode(n)|..] == t;
    assert m == Value(Encode(m)) == Value(Encode(n)) == n;
  }

  // ---- The size of a whole packet

  method FinalPacketLength(remLen: uint32) returns (r: uint32)
    ensures r == FinalLength(remLen)
    ensures remLen <= MAX_REMAINING_LENGTH ==>
              r == 1 + |Encode(remLen)| + remLen
                   + (if remLen == 127 || remLen == 16_383 || remLen == 2_097_151 then 1 else 0)
  {
    if remLen <= MAX_REMAINING_LENGTH {
      FinalLengthExact(remLen);
    }
    r := Wrap32(remLen + 1);
    if r < 128 {
      r := Wrap32(r + 1);
    } else if r < 16_384 {
      r := Wrap32(r + 2);
    } else if r < 2_097_152 {
      r := Wrap32(r + 3);
    } else {
      r := Wrap32(r + 4);
    }
  }

  /** The header byte is added before the thresholds are compared. */
  function FinalLength(remLen: uint32): uint32 {
    var h := Wrap32(remLen + 1);
    Wrap32(h + if h < 128 then 1 else if h < 16_384 then 2 else if h < 2_097_152 then 3 else 4)
  }

  /** For every legal remaining length the result covers the header byte, the encoded length
      and the body; it is exact except where adding the header byte crosses a threshold. */
  lemma FinalLengthExact(n: uint32)
    requires n <= MAX_REMAINING_LENGTH
    ensures FinalLength(n)
         == 1 + |Encode(n)| + n + (if n == 127 || n == 16_383 || n == 2_097_151 then 1 else 0)
  {
    hide Encode, Pow128;
    EncodedSize(n);
  }

  lemma EncodedSize(n: uint32)
    requires n <= MAX_REMAINING_LENGTH
    ensures |Encode(n)| == if n < 128 then 1 else if n < 16_384 then 2 else if n < 2_097_152 then 3 else 4
  {
  }

  /** Above the protocol's limit it is one short of the five-byte encoding, up to the wrap. */
  lemma FinalLengthBeyondLimit(n: uint32)
    requires MAX_REMAINING_LENGTH < n < TWO_32 - 5
    ensures FinalLength(n) == 1 + |Encode(n)| + n - 1
  {
    EncodeDecode(n, []);
  }
}
