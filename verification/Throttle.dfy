/** The integer arithmetic that keeps a transfer under its bandwidth: after each read, how many
    ticks to wait, and how many bytes are carried over to the next reckoning. */
module Throttle {
  const HERTZ := 10000

  lemma DivBounds(x: int, d: int)
    requires d > 0
    ensures (x / d) * d <= x < (x / d) * d + d
    ensures x >= 0 ==> x / d >= 0
  {
  }

  lemma PaidForIsRead(bytes: nat, rate: nat)
    requires rate > 0
    ensures 0 <= (bytes * HERTZ) / rate && ((bytes * HERTZ) / rate * rate) / HERTZ <= bytes
  {
    DivBounds(bytes * HERTZ, rate);
    DivBounds((bytes * HERTZ) / rate * rate, HERTZ);
  }

  /** bytes is what was read plus what was carried; rate is the limit in bytes per second. */
  function Wait(bytes: nat, rate: nat): nat
    requires rate > 0
  {
    PaidForIsRead(bytes, rate);
    if rate / HERTZ < 5 then (bytes * HERTZ) / rate else bytes / (rate / HERTZ)
  }

  function Carry(bytes: nat, rate: nat): nat
    requires rate > 0
  {
    PaidForIsRead(bytes, rate);
    if rate / HERTZ < 5 then bytes - (Wait(bytes, rate) * rate) / HERTZ else bytes % (rate / HERTZ)
  }

  lemma MulLe(a: int, b: int, k: int)
    requires a <= b && 0 <= k
    ensures a * k <= b * k
  {
    assert (b - a) * k >= 0;
  }

  lemma Distribute(k: int, a: int, b: int)
    ensures k * (a + b) == k * a + k * b
  {
  }

  lemma Commute(a: int, b: int)
    ensures a * b == b * a
  {
  }

  /** In both branches the carried remainder stays below one tick's bytes plus one, the bytes not
      carried are no more than the wait pays for, and the wait is no longer than they need. */
  lemma {:induction false} ThrottleIsExact(bytes: nat, rate: nat)
    requires rate > 0
    ensures var w, r := Wait(bytes, rate), Carry(bytes, rate);
            0 <= w && 0 <= r <= bytes && HERTZ * r < rate + HERTZ && HERTZ * (bytes - r) <= rate * w &&
            (if rate / HERTZ < 5 then rate * w < HERTZ * (bytes - r + 1) else (rate / HERTZ) * w == bytes - r)
  {
    if rate / HERTZ < 5 {
      SlowIsExact(bytes, rate);
    } else {
      FastIsExact(bytes, rate, rate / HERTZ);
    }
  }

  lemma SlowIsExact(bytes: nat, rate: nat)
    requires rate > 0
    ensures var w := (bytes * HERTZ) / rate;
            var r := bytes - (w * rate) / HERTZ;
            0 <= r <= bytes && HERTZ * r < rate + HERTZ && HERTZ * (bytes - r) <= rate * w < HERTZ * (bytes - r + 1)
  {
    DivBounds(bytes * HERTZ, rate);
    DivBounds((bytes * HERTZ) / rate * rate, HERTZ);
  }

  lemma FastIsExact(bytes: nat, rate: nat, t: nat)
    requires t == rate / HERTZ && t > 0
    ensures var w, r := bytes / t, bytes % t;
            0 <= r <= bytes && r < t && HERTZ * t <= rate && t * w == bytes - r && HERTZ * (bytes - r) <= rate * w
  {
    DivBounds(bytes, t);
    DivBounds(rate, HERTZ);
    var w := bytes / t;
    MulLe(t * HERTZ, rate, w);
    assert t * HERTZ * w == HERTZ * (w * t);
  }

  /** How far a transfer is ahead of its limit: total bytes were read since start, r of them are
      not paid for, and the next read may not come before wake. */
  ghost predicate OnSchedule(rate: nat, total: int, r: int, start: int, wake: int) {
    0 <= r && HERTZ * r < rate + HERTZ && HERTZ * (total - r) <= rate * (wake - start)
  }

  /** One more reckoning, no earlier than wake, keeps the transfer on schedule. */
  lemma {:induction false} ReckoningStaysOnSchedule(rate: nat, total: int, r: nat, start: int, wake: int, n: nat,
      now: int)
    requires rate > 0 && OnSchedule(rate, total, r, start, wake) && wake <= now
    ensures OnSchedule(rate, total + n, Carry(n + r, rate), start, now + Wait(n + r, rate))
  {
    ThrottleIsExact(n + r, rate);
    hide Wait, Carry;
    MulLe(wake - start, now - start, rate);
    Distribute(rate, now - start, Wait(n + r, rate));
    Commute(rate, wake - start);
    Commute(rate, now - start);
  }

  /** What being on schedule means for the bytes read. */
  lemma {:induction false} BytesWithinRate(rate: nat, total: int, r: int, start: int, wake: int)
    requires OnSchedule(rate, total, r, start, wake)
    ensures HERTZ * total < rate * (wake - start) + rate + HERTZ
  {
  }
}
