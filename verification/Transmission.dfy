/**
 The loop that sends a packet: what it puts on the wire for every way the network stack may
 answer its writes.

 A round offers `length` bytes from where the loop stands, not the remainder, and the loop
 adds the reported count to its position as a 32-bit `size_t`. The platform's write reports
 every call as a success and passes a negative error code on as such a count.
 */
module Transmission {
  import opened Bytes
  import opened Network

  /** The position at which the loop ends, the bytes it has put on the wire, and what is left of the
      stack's answers and of the timer. */
  datatype Sent = Sent(at: nat, wire: seq<byte>, writes: seq<WriteAnswer>, left: nat)

  /** The loop from position `at` on, for the stack's answers `writes` and a timer that may be asked
      `left` times. `memory` is the transmit buffer and what follows it: a
      round that begins near the buffer's end offers bytes from behind it (see StaysInside). */
  function Transmit(writes: seq<WriteAnswer>, left: nat, length: nat, at: nat, memory: seq<byte>): (t: Sent)
    requires 2 * length <= |memory|
    ensures t.left <= left
    decreases left
  {
    if at >= length || left == 0 then Sent(at, [], writes, left)
    else if writes == [] then Sent(at, [], [], left - 1)
    else if writes[0].Refuse? then Sent(at, [], writes[1..], left - 1)
    else
      var k := writes[0].Taken(length);
      var rest := Transmit(writes[1..], left - 1, length, Wrap32(at + writes[0].Reported(length)), memory);
      rest.(wire := memory[at..at + k] + rest.wire)
  }

  /** The loop at position `at` has put `out` on the wire, and will end as `end` says. */
  ghost predicate Heading(writes: seq<WriteAnswer>, left: nat, length: nat, at: nat, memory: seq<byte>,
                          out: seq<byte>, end: Sent)
    requires 2 * length <= |memory|
  {
    var t := Transmit(writes, left, length, at, memory);
    t.(wire := out + t.wire) == end
  }

  lemma HeadingStarts(writes: seq<WriteAnswer>, left: nat, length: nat, memory: seq<byte>, out: seq<byte>)
    requires 2 * length <= |memory|
    ensures var t := Transmit(writes, left, length, 0, memory);
            Heading(writes, left, length, 0, memory, out, t.(wire := out + t.wire))
  {
  }

  lemma HeadingStops(writes: seq<WriteAnswer>, left: nat, length: nat, at: nat, memory: seq<byte>,
                     out: seq<byte>, end: Sent)
    requires 2 * length <= |memory| && Heading(writes, left, length, at, memory, out, end)
    ensures at >= length || left == 0 ==> end == Sent(at, out, writes, left)
    ensures at < length && left > 0 && (writes == [] || writes[0].Refuse?) ==>
              end == Sent(at, out, if writes == [] then [] else writes[1..], left - 1)
  {
  }

  lemma HeadingGoes(writes: seq<WriteAnswer>, left: nat, length: nat, at: nat, memory: seq<byte>,
                    out: seq<byte>, end: Sent)
    requires 2 * length <= |memory| && Heading(writes, left, length, at, memory, out, end)
    requires at < length && left > 0 && writes != [] && !writes[0].Refuse?
    ensures Heading(writes[1..], left - 1, length, Wrap32(at + writes[0].Reported(length)), memory,
                    out + memory[at..at + length][..writes[0].Taken(length)], end)
  {
  }

  /** Whenever an error code is taken for a count, fewer bytes have been sent than the code's size. */
  predicate NoRewind(writes: seq<WriteAnswer>, left: nat, length: nat, at: nat)
    decreases left
  {
    at >= length || left == 0 || writes == [] || writes[0].Refuse? ||
    (if writes[0].Negative? then writes[0].code > at
     else NoRewind(writes[1..], left - 1, length, at + writes[0].Taken(length)))
  }

  /** A round that accepts moves on by what it sent; an error code moves back, or far beyond the end. */
  lemma Round(a: WriteAnswer, length: nat, at: nat)
    requires at < length < TWO_31 / 2
    ensures var next := Wrap32(at + a.Reported(length));
            && (a.Accept? ==> next == at + a.Taken(length) < 2 * length && a.Taken(length) <= length)
            && (a.Negative? && a.code <= at ==> next == at - a.code)
            && (a.Negative? && a.code > at ==> next >= TWO_31)
  {
  }

  lemma Joined(s: seq<byte>, a: nat, b: nat, c: nat)
    requires a <= b <= c <= |s|
    ensures s[a..b] + s[b..c] == s[a..c]
  {
  }

  /** Without such a code at a bad moment the wire gets one unbroken run of bytes: as many as the
      loop has moved, or the loop is beyond the end. */
  lemma {:induction false} TransmitRun(writes: seq<WriteAnswer>, left: nat, length: nat, at: nat, memory: seq<byte>)
    requires 2 * length <= |memory| && at <= |memory| && length < TWO_31 / 2
    requires NoRewind(writes, left, length, at)
    ensures var r := Transmit(writes, left, length, at, memory);
            && at + |r.wire| <= |memory| && r.wire == memory[at..at + |r.wire|]
            && (r.at == at + |r.wire| || r.at >= TWO_31)
            && (at <= length ==> at + |r.wire| <= 2 * length)
    decreases left
  {
    hide Wrap32;
    if at < length && left > 0 && writes != [] && !writes[0].Refuse? {
      Round(writes[0], length, at);
      var next := Wrap32(at + writes[0].Reported(length));
      if writes[0].Accept? {
        TransmitRun(writes[1..], left - 1, length, next, memory);
        var r := Transmit(writes[1..], left - 1, length, next, memory);
        Joined(memory, at, next, next + |r.wire|);
      }
    }
  }

  /** When the loop ends exactly at the end, the wire has received at least the bytes to send, and
      more exactly if it was moved back. */
  lemma {:induction false} TransmitCount(writes: seq<WriteAnswer>, left: nat, length: nat, at: nat, memory: seq<byte>)
    requires 2 * length <= |memory| && length < TWO_31 / 2 && at <= 2 * length
    requires Transmit(writes, left, length, at, memory).at == length
    ensures at <= length
    ensures var n := |Transmit(writes, left, length, at, memory).wire|;
            n >= length - at && (n == length - at <==> NoRewind(writes, left, length, at))
    decreases left
  {
    hide Wrap32;
    if at < length && left > 0 && writes != [] && !writes[0].Refuse? {
      Round(writes[0], length, at);
      var next := Wrap32(at + writes[0].Reported(length));
      if next < TWO_31 {
        TransmitCount(writes[1..], left - 1, length, next, memory);
      }
    }
  }

  /** If the loop ends at the end, which is when the packet counts as sent, the wire has received the
      packet and nothing else exactly when no error code came after at least as many bytes. */
  lemma SentExactly(writes: seq<WriteAnswer>, left: nat, length: nat, memory: seq<byte>)
    requires 2 * length <= |memory| && length < TWO_31 / 2
    requires Transmit(writes, left, length, 0, memory).at == length
    ensures Transmit(writes, left, length, 0, memory).wire == memory[..length] <==> NoRewind(writes, left, length, 0)
  {
    TransmitCount(writes, left, length, 0, memory);
    if NoRewind(writes, left, length, 0) {
      TransmitRun(writes, left, length, 0, memory);
    }
  }

  /** Answers of a stack that never passes an error off as a count. */
  predicate NeverNegative(writes: seq<WriteAnswer>) {
    forall a <- writes :: !a.Negative?
  }

  lemma StillHonest(writes: seq<WriteAnswer>)
    ensures NeverNegative(writes) && writes != [] ==> NeverNegative(writes[1..])
  {
  }

  lemma {:induction false} HonestStack(writes: seq<WriteAnswer>, left: nat, length: nat, at: nat)
    requires NeverNegative(writes)
    ensures NoRewind(writes, left, length, at)
    decreases left
  {
    if at < length && left > 0 && writes != [] && writes[0].Accept? {
      assert forall a <- writes[1..] :: a in writes;
      HonestStack(writes[1..], left - 1, length, at + writes[0].Taken(length));
    }
  }

  lemma {:induction false} HonestEnds(writes: seq<WriteAnswer>, left: nat, length: nat, at: nat, memory: seq<byte>)
    requires NeverNegative(writes) && 2 * length <= |memory| && length < TWO_31 / 2 && at <= 2 * length
    ensures Transmit(writes, left, length, at, memory).at <= 2 * length
    ensures NeverNegative(Transmit(writes, left, length, at, memory).writes)
    decreases left
  {
    hide Wrap32;
    StillHonest(writes);
    if at < length && left > 0 && writes != [] && writes[0].Accept? {
      Round(writes[0], length, at);
      HonestEnds(writes[1..], left - 1, length, at + writes[0].Taken(length), memory);
    }
  }

  /** With such a stack the loop ends where it has sent to. */
  lemma {:induction false} HonestCount(writes: seq<WriteAnswer>, left: nat, length: nat, at: nat, memory: seq<byte>)
    requires NeverNegative(writes) && 2 * length <= |memory| && length < TWO_31 / 2 && at <= 2 * length
    ensures var t := Transmit(writes, left, length, at, memory); t.at == at + |t.wire|
    decreases left
  {
    hide Wrap32;
    StillHonest(writes);
    if at < length && left > 0 && writes != [] && writes[0].Accept? {
      Round(writes[0], length, at);
      HonestCount(writes[1..], left - 1, length, at + writes[0].Taken(length), memory);
    }
  }

  /** No round hands bytes to the stack that lie behind the first `size` bytes of the memory. */
  predicate StaysInside(writes: seq<WriteAnswer>, left: nat, length: nat, at: nat, size: nat)
    decreases left
  {
    at >= length || left == 0 || writes == [] || writes[0].Refuse? ||
    (at + writes[0].Taken(length) <= size
     && StaysInside(writes[1..], left - 1, length, Wrap32(at + writes[0].Reported(length)), size))
  }

  /** For every stack, the loop sends from behind the buffer exactly if it ends behind the buffer's end,
      and not because of an error code that was taken for a count. */
  lemma {:induction false} InsideExactly(writes: seq<WriteAnswer>, left: nat, length: nat, at: nat, memory: seq<byte>, size: nat)
    requires 2 * length <= |memory| && length <= size < TWO_31 && length < TWO_31 / 2 && at <= size
    ensures StaysInside(writes, left, length, at, size) <==>
            !(size < Transmit(writes, left, length, at, memory).at < TWO_31)
    decreases left
  {
    hide Wrap32;
    if at < length && left > 0 && writes != [] && !writes[0].Refuse? {
      Round(writes[0], length, at);
      var next := Wrap32(at + writes[0].Reported(length));
      if next <= size {
        InsideExactly(writes[1..], left - 1, length, next, memory, size);
      } else {
        LoopEnds(writes[1..], left - 1, length, next, memory);
      }
    }
  }

  lemma InsideStops(writes: seq<WriteAnswer>, left: nat, length: nat, at: nat, size: nat)
    ensures at >= length || left == 0 || writes == [] || writes[0].Refuse? ==> StaysInside(writes, left, length, at, size)
  {
  }

  lemma InsideGoes(writes: seq<WriteAnswer>, left: nat, length: nat, at: nat, size: nat)
    requires at < length && left > 0 && writes != [] && !writes[0].Refuse?
    ensures StaysInside(writes, left, length, at, size) <==>
            at + writes[0].Taken(length) <= size
            && StaysInside(writes[1..], left - 1, length, Wrap32(at + writes[0].Reported(length)), size)
  {
  }

  /** From `writes` and `left` to what is left of them in `t`: the timer was asked once for each answer,
      and once more if there was none; no answer but the last was a refusal; and the loop ended there
      because of that, or at the end, or with the timer expired. */
  ghost predicate Spent(writes: seq<WriteAnswer>, left: nat, length: nat, t: Sent) {
    var used, asked := |writes| - |t.writes|, left - t.left;
    && used >= 0 && t.writes == writes[used..] && (asked == used || (asked == used + 1 && t.writes == []))
    && (forall i :: 0 <= i < used - 1 ==> !writes[i].Refuse?)
    && (if asked == used + 1 || (used > 0 && writes[used - 1].Refuse?) then t.at < length
        else t.at >= length || t.left == 0)
  }

  /** Why the loop ends, for every stack: it has reached the end, the timer has expired, the stack has
      refused, or it has no more answers. It asks the timer once for each answer it uses, and once more
      if there is no answer; no answer it went on after was a refusal. */
  lemma {:induction false} TransmitEnds(writes: seq<WriteAnswer>, left: nat, length: nat, at: nat, memory: seq<byte>)
    requires 2 * length <= |memory|
    ensures Spent(writes, left, length, Transmit(writes, left, length, at, memory))
    decreases left
  {
    hide Wrap32, Spent;
    if at >= length || left == 0 || writes == [] || writes[0].Refuse? {
      SpentAtOnce(writes, left, length, at, memory);
    } else {
      var next := Wrap32(at + writes[0].Reported(length));
      TransmitEnds(writes[1..], left - 1, length, next, memory);
      SpentMore(writes, left, length, Transmit(writes[1..], left - 1, length, next, memory),
                Transmit(writes, left, length, at, memory));
    }
  }

  lemma SpentAtOnce(writes: seq<WriteAnswer>, left: nat, length: nat, at: nat, memory: seq<byte>)
    requires 2 * length <= |memory| && (at >= length || left == 0 || writes == [] || writes[0].Refuse?)
    ensures Spent(writes, left, length, Transmit(writes, left, length, at, memory))
  {
  }

  lemma SpentMore(writes: seq<WriteAnswer>, left: nat, length: nat, t: Sent, r: Sent)
    requires left > 0 && writes != [] && !writes[0].Refuse? && Spent(writes[1..], left - 1, length, t)
    requires r.at == t.at && r.writes == t.writes && r.left == t.left
    ensures Spent(writes, left, length, r)
  {
    var used := |writes| - |t.writes|;
    assert writes[1..][used - 1..] == writes[used..];
    forall i | 0 <= i < used - 1 ensures !writes[i].Refuse? {
      if i > 0 {
        assert writes[1..][i - 1] == writes[i];
      }
    }
    if used > 1 {
      assert writes[1..][used - 2] == writes[used - 1];
    }
  }

  /** A stack that takes some of the remainder each time, and no more. */
  predicate TakesRemainder(writes: seq<WriteAnswer>, remaining: nat)
    decreases remaining
  {
    remaining > 0 ==>
      && writes != [] && writes[0].Accept? && 0 < writes[0].n <= remaining
      && TakesRemainder(writes[1..], remaining - writes[0].n)
  }

  /** With such a stack and time enough the loop sends the packet, and asks the timer at most once for
      each byte. */
  lemma {:induction false} TransmitCompletes(writes: seq<WriteAnswer>, left: nat, length: nat, at: nat, memory: seq<byte>)
    requires 2 * length <= |memory| && length < TWO_31 / 2
    requires at <= length && TakesRemainder(writes, length - at) && left >= length - at
    ensures var t := Transmit(writes, left, length, at, memory);
            t.at == length && t.wire == memory[at..length] && t.left >= left - (length - at)
    decreases left
  {
    hide Wrap32;
    if at < length {
      var n := writes[0].n;
      Round(writes[0], length, at);
      TransmitCompletes(writes[1..], left - 1, length, at + n, memory);
      Joined(memory, at, at + n, length);
    }
  }

  /** A stack that takes all it is offered in a second round gets too much; the loop then ends beyond
      the end, which counts as a failure. */
  lemma TransmitOvershoots(memory: seq<byte>)
    requires |memory| >= 8
    ensures Transmit([Accept(3), Accept(4)], 2, 4, 0, memory).at == 7
  {
  }

  /** An error code after three of four bytes moves the loop back; the third byte is sent again, and
      the packet counts as sent. */
  lemma ErrorResends(memory: seq<byte>)
    requires |memory| >= 8
    ensures Transmit([Accept(3), Negative(1), Accept(2)], 3, 4, 0, memory)
         == Sent(4, memory[0..3] + memory[2..4], [], 0)
  {
    hide Transmit;
    LoopEnds([], 0, 4, 4, memory);
    LoopGoes(Accept(2), [], 1, 4, 2, memory, 4);
    assert memory[2..4] + [] == memory[2..4] && memory[3..3] + memory[2..4] == memory[2..4];
    LoopGoes(Negative(1), [Accept(2)], 2, 4, 3, memory, 2);
    LoopGoes(Accept(3), [Negative(1), Accept(2)], 3, 4, 0, memory, 3);
    assert [Accept(3)] + [Negative(1), Accept(2)] == [Accept(3), Negative(1), Accept(2)];
    assert [Negative(1)] + [Accept(2)] == [Negative(1), Accept(2)] && [Accept(2)] + [] == [Accept(2)];
  }

  lemma LoopEnds(writes: seq<WriteAnswer>, left: nat, length: nat, at: nat, memory: seq<byte>)
    requires 2 * length <= |memory| && at >= length
    ensures Transmit(writes, left, length, at, memory) == Sent(at, [], writes, left)
  {
  }

  /** One round of the loop. */
  lemma LoopGoes(a: WriteAnswer, rest: seq<WriteAnswer>, left: nat, length: nat, at: nat, memory: seq<byte>, next: nat)
    requires 2 * length <= |memory| && at < length && left > 0 && !a.Refuse?
    requires next == Wrap32(at + a.Reported(length))
    ensures var r := Transmit(rest, left - 1, length, next, memory);
            Transmit([a] + rest, left, length, at, memory) == r.(wire := memory[at..at + a.Taken(length)] + r.wire)
  {
  }
}
