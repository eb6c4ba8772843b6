/** The free-running 32-bit microsecond counter shared by the transport, the
    scheduler and the receive epoch, and the signed-difference comparison that
    orders two of its readings across a wrap. */
module Clock {
  const WRAP: int := 0x1_0000_0000
  const HALF: int := 0x8000_0000

  type Time = t: int | 0 <= t < WRAP

  /** A true time that may not have come yet. */
  datatype When = Never | Once(at: int)

  /** What the counter shows at true time `t`. */
  function Reading(t: int): (r: Time)
    ensures r == t % WRAP
  {
    t % WRAP
  }

  /** `(int32_t)(a - b)`. */
  function SignedDiff(a: Time, b: Time): (d: int)
    ensures -HALF <= d < HALF
    ensures Reading(b + d) == a
  {
    var d := (a - b) % WRAP;
    if d < HALF then d else d - WRAP
  }

  /** `(int32_t)(time - boundary) >= 0`. */
  predicate AtOrAfter(time: Time, boundary: Time) {
    SignedDiff(time, boundary) >= 0
  }

  /** `base + delay` on the counter. */
  function Later(base: Time, delay: int): (r: Time)
  {
    Reading(base + delay)
  }

  /** The comparison of two readings is the comparison of the true instants
      behind them, exactly when these are within half a wrap of each other. */
  lemma {:induction false} ReadingsCompare(t: int, boundary: int)
    requires -HALF <= t - boundary < HALF
    ensures SignedDiff(Reading(t), Reading(boundary)) == t - boundary
    ensures AtOrAfter(Reading(t), Reading(boundary)) <==> t >= boundary
  {
    ReadingsDiffer(t, boundary);
  }

  lemma {:induction false} ReadingsDiffer(t: int, b: int)
    ensures (Reading(t) - Reading(b)) % WRAP == (t - b) % WRAP
  {
    var k := t / WRAP - b / WRAP;
    assert t - b == (Reading(t) - Reading(b)) + k * WRAP;
    ModShift(Reading(t) - Reading(b), k);
  }

  /** Two instants less than a wrap apart that read the same are the same. */
  lemma {:induction false} SameReading(t: int, b: int)
    requires b <= t < b + WRAP && Reading(t) == Reading(b)
    ensures t == b
  {
    ReadingsDiffer(t, b);
  }

  lemma {:induction false} ModShift(x: int, k: int)
    ensures (x + k * WRAP) % WRAP == x % WRAP
  {
    var q := x / WRAP;
    assert x + k * WRAP == (q + k) * WRAP + x % WRAP;
  }

  /** Adding a delay to a reading is reading a delayed instant. */
  lemma {:induction false} LaterReads(t: int, delay: int)
    ensures Later(Reading(t), delay) == Reading(t + delay)
  {
    var k := t / WRAP;
    assert t + delay == (Reading(t) + delay) + k * WRAP;
    ModShift(Reading(t) + delay, k);
  }

  /** A timer just started has not run out. */
  lemma {:induction false} NotYet(now: Time, delay: int)
    requires 0 < delay < HALF
    ensures !AtOrAfter(now, Later(now, delay))
  {
    LaterReads(now, delay);
    ReadingsCompare(now, now + delay);
  }
}
