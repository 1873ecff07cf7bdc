/**
 The millisecond delay timer under the TLS library. The clock is a parameter: every call is
 given the time that gettimeofday would have returned to it.

 The time fields are signed; `unsigned long` has 32 bits, and the signed sum is taken to wrap
 where it leaves them.
 */
module DelayTimer {
  import opened Bytes

  datatype RawTime = Time(sec: int, usec: int) {
    predicate Valid() {
      0 <= usec < 1_000_000
    }

    function Micros(): int {
      1_000_000 * sec + usec
    }
  }

  type Timeval = t: RawTime | t.Valid() witness Time(0, 0)

  /** Division of C, which rounds towards zero. */
  function TruncDiv(n: int, d: int): int
    requires d > 0
  {
    if n >= 0 then n / d else -((-n) / d)
  }

  /** What get_timer computes, before it is cut to 32 bits. */
  function Elapsed(since: Timeval, now: Timeval): int {
    (now.sec - since.sec) * 1000 + TruncDiv(now.usec - since.usec, 1000)
  }

  function Cut(n: int): uint32 {
    n % 0x1_0000_0000
  }

  function Verdict(timer: Timeval, intMs: uint32, finMs: uint32, now: Timeval): int {
    if finMs == 0 then -1
    else if Cut(Elapsed(timer, now)) >= finMs then 2
    else if Cut(Elapsed(timer, now)) >= intMs then 1
    else 0
  }

  class DelayContext {
    var timer: Timeval
    var intMs: uint32
    var finMs: uint32

    constructor ()
      ensures finMs == 0
    {
      timer, intMs, finMs := Time(0, 0), 0, 0;
    }

    method GetTimer(now: Timeval, reset: bool) returns (delta: uint32)
      modifies this`timer
      ensures timer == if reset then now else old(timer)
      ensures delta == if reset then 0 else Cut(Elapsed(timer, now))
    {
      if reset {
        timer := Time(now.sec, now.usec);
        return 0;
      }
      var usec := now.usec - timer.usec;
      delta := Cut((now.sec - timer.sec) * 1000 + TruncDiv(usec, 1000));
    }

    method SetDelay(intMs: uint32, finMs: uint32, now: Timeval)
      modifies this
      ensures this.intMs == intMs && this.finMs == finMs
      ensures timer == if finMs == 0 then old(timer) else now
    {
      this.intMs := intMs;
      this.finMs := finMs;
      if finMs != 0 {
        var _ := GetTimer(now, true);
      }
    }

    method GetDelay(now: Timeval) returns (r: int)
      modifies this`timer
      ensures timer == old(timer)
      ensures r == Verdict(timer, intMs, finMs, now)
    {
      if finMs == 0 {
        return -1;
      }
      var elapsedMs := GetTimer(now, false);
      if elapsedMs >= finMs {
        return 2;
      }
      if elapsedMs >= intMs {
        return 1;
      }
      return 0;
    }
  }

  // ---- Against the true time

  /** Microseconds that have really passed. */
  function Passed(since: Timeval, now: Timeval): int {
    now.Micros() - since.Micros()
  }

  /** The milliseconds computed are the true ones rounded down, or one more: one more exactly when
      the microsecond field stands before the one of the start and their distance is not whole
      milliseconds. */
  lemma ElapsedBound(since: Timeval, now: Timeval)
    ensures Elapsed(since, now)
         == Passed(since, now) / 1000
            + if now.usec < since.usec && (since.usec - now.usec) % 1000 != 0 then 1 else 0
  {
  }

  /** The verdict against the true time, below 2^32 milliseconds from the start: there is none exactly
      without a final delay; a delay that has really passed is always seen, and one is seen at most a
      millisecond early. */
  lemma VerdictTimely(timer: Timeval, intMs: uint32, finMs: uint32, now: Timeval)
    requires 0 <= Passed(timer, now) <= 1000 * 0xFFFF_FFFF
    ensures var v, passed := Verdict(timer, intMs, finMs, now), Passed(timer, now);
            && (finMs == 0 <==> v == -1)
            && (finMs != 0 ==>
                  && v in [0, 1, 2]
                  && (passed >= 1000 * finMs ==> v == 2) && (v == 2 ==> passed > 1000 * (finMs - 1))
                  && (passed >= 1000 * intMs ==> v >= 1) && (v == 1 ==> passed > 1000 * (intMs - 1))
                  && (v == 0 ==> passed < 1000 * intMs) && (v < 2 ==> passed < 1000 * finMs))
  {
    ElapsedBound(timer, now);
    hide Elapsed, Passed;
    var passed := Passed(timer, now);
    assert 0 <= passed / 1000 <= 0xFFFF_FFFF;
    assert passed % 1000 == 0 ==> (timer.usec - now.usec) % 1000 == 0 by {
      PassedMicros(timer, now);
    }
    assert Cut(Elapsed(timer, now)) == Elapsed(timer, now);
  }

  lemma PassedMicros(since: Timeval, now: Timeval)
    ensures Passed(since, now) % 1000 == 0 ==> (since.usec - now.usec) % 1000 == 0
  {
    var secs, usecs := now.sec - since.sec, since.usec - now.usec;
    assert Passed(since, now) == 1000 * (1000 * secs) - usecs;
    hide Passed;
    WholeParts(1000 * secs, usecs);
  }

  lemma WholeParts(k: int, n: int)
    ensures (1000 * k - n) % 1000 == 0 ==> n % 1000 == 0
  {
  }

  /** The computed time never runs backwards, across second boundaries included. */
  lemma ElapsedMonotone(since: Timeval, t: Timeval, u: Timeval)
    requires t.Micros() <= u.Micros()
    ensures Elapsed(since, t) <= Elapsed(since, u)
  {
    var x, y := t.usec - since.usec, u.usec - since.usec;
    if t.sec == u.sec {
      TruncMonotone(x, y);
    } else {
      TruncMonotone(x - 1_000_000, y);
      TruncShift(x);
    }
  }

  lemma NoTime(since: Timeval)
    ensures Elapsed(since, since) == 0
  {
  }

  lemma TruncMonotone(x: int, y: int)
    requires x <= y
    ensures TruncDiv(x, 1000) <= TruncDiv(y, 1000)
  {
  }

  /** A million microseconds less are at most a thousand milliseconds less. */
  lemma TruncShift(x: int)
    ensures TruncDiv(x, 1000) - 1000 <= TruncDiv(x - 1_000_000, 1000)
  {
  }

  /** The reading `k` whole milliseconds after a start. */
  function At(since: Timeval, k: nat): (t: Timeval)
    ensures Passed(since, t) == 1000 * k
  {
    var usec := since.usec + k % 1000 * 1000;
    if usec < 1_000_000 then Time(since.sec + k / 1000, usec)
    else Time(since.sec + k / 1000 + 1, usec - 1_000_000)
  }

  lemma ElapsedAt(since: Timeval, k: nat)
    ensures Elapsed(since, At(since, k)) == k
  {
  }

  /** Between two readings of a clock that does not go back, the verdict does not go back. */
  ghost predicate Forward(timer: Timeval, intMs: uint32, finMs: uint32, last: Timeval) {
    forall t: Timeval, u: Timeval ::
      timer.Micros() <= t.Micros() <= u.Micros() <= last.Micros() ==>
        Verdict(timer, intMs, finMs, t) <= Verdict(timer, intMs, finMs, u)
  }

  /** From set_delay up to a reading, the verdict never goes back, exactly when no final delay is
      set or fewer than 2^32 milliseconds are counted. The order of the two delays does not matter. */
  lemma ForwardExactly(timer: Timeval, intMs: uint32, finMs: uint32, last: Timeval)
    requires timer.Micros() <= last.Micros()
    ensures Forward(timer, intMs, finMs, last) <==> finMs == 0 || Elapsed(timer, last) < 0x1_0000_0000
  {
    NoTime(timer);
    hide Elapsed, RawTime.Micros;
    if finMs == 0 {
    } else if Elapsed(timer, last) < 0x1_0000_0000 {
      forall t: Timeval, u: Timeval | timer.Micros() <= t.Micros() <= u.Micros() <= last.Micros()
        ensures Verdict(timer, intMs, finMs, t) <= Verdict(timer, intMs, finMs, u)
      {
        ElapsedMonotone(timer, timer, t);
        ElapsedMonotone(timer, t, u);
        ElapsedMonotone(timer, u, last);
      }
    } else {
      Wraps(timer, intMs, finMs, last);
    }
  }

  lemma Wraps(timer: Timeval, intMs: uint32, finMs: uint32, last: Timeval)
    requires finMs != 0 && Elapsed(timer, last) >= 0x1_0000_0000
    ensures !Forward(timer, intMs, finMs, last)
  {
    var t, zero := At(timer, 0xFFFF_FFFF), At(timer, 0x1_0000_0000);
    ElapsedAt(timer, 0xFFFF_FFFF);
    ElapsedAt(timer, 0x1_0000_0000);
    ElapsedBound(timer, last);
    var u := if zero.Micros() <= last.Micros() then zero else last;
    assert Elapsed(timer, u) == 0x1_0000_0000;
    assert Verdict(timer, intMs, finMs, t) == 2 > Verdict(timer, intMs, finMs, u);
    assert timer.Micros() <= t.Micros() <= u.Micros() <= last.Micros();
  }
}
