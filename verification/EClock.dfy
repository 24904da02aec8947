/** Wrapping clock times.  A word of W bits holds the values [-h, h) with h = 2^(W-1), and
    subtraction wraps modulo 2h.  The proofs need only 0 < h. */
module EClock {

  predicate InRange(h: int, t: int) {
    -h <= t < h
  }

  /** The two's-complement word that holds the unbounded integer x. */
  function Wrap(h: int, x: int): (w: int)
    requires 0 < h
    ensures InRange(h, w)
  {
    (x + h) % (2 * h) - h
  }

  /** a - b as the machine computes it: the exact difference, brought back by one wrap. */
  function Diff(h: int, a: int, b: int): int {
    if a - b >= h then a - b - 2 * h
    else if a - b < -h then a - b + 2 * h
    else a - b
  }

  predicate After(h: int, a: int, b: int) {
    Diff(h, a, b) > 0
  }

  predicate Before(h: int, a: int, b: int) {
    Diff(h, a, b) < 0
  }

  /** How far t lies beyond base, going forward round the counter. */
  function Offset(h: int, base: int, t: int): int {
    if t >= base then t - base else t - base + 2 * h
  }

  /** t lies in the half of the counter that starts at base. */
  predicate InWindow(h: int, base: int, t: int) {
    InRange(h, base) && InRange(h, t) && Offset(h, base, t) < h
  }

  lemma DivModIsUnique(x: int, m: int, q: int, r: int)
    requires 0 < m && 0 <= r < m && x == q * m + r
    ensures x % m == r
  {
    var q', r' := x / m, x % m;
    assert (q - q') * m == r' - r;
    if q > q' {
      assert (q - q') * m >= m by { MulAtLeast(q - q', m); }
    } else if q < q' {
      assert (q' - q) * m >= m by { MulAtLeast(q' - q, m); }
    }
  }

  lemma MulAtLeast(k: int, m: int)
    requires k >= 1 && m >= 1
    ensures k * m >= m
  {
    assert (k - 1) * m >= 0;
  }

  lemma WrapIsIdentityInRange(h: int, x: int)
    requires 0 < h && InRange(h, x)
    ensures Wrap(h, x) == x
  {
    DivModIsUnique(x + h, 2 * h, 0, x + h);
  }

  lemma WrapForgetsTurns(h: int, x: int, y: int, k: int)
    requires 0 < h && x == y + k * (2 * h)
    ensures Wrap(h, x) == Wrap(h, y)
  {
    var q, r := (y + h) / (2 * h), (y + h) % (2 * h);
    assert x + h == (q + k) * (2 * h) + r;
    DivModIsUnique(x + h, 2 * h, q + k, r);
  }

  lemma WrapIsCongruent(h: int, x: int) returns (k: int)
    requires 0 < h
    ensures x == Wrap(h, x) + k * (2 * h)
  {
    k := (x + h) / (2 * h);
  }

  /** Diff is the wrapped difference of the true times the two words stand for. */
  lemma DiffOfWrapped(h: int, x: int, y: int)
    requires 0 < h
    ensures Diff(h, Wrap(h, x), Wrap(h, y)) == Wrap(h, x - y)
  {
    var a, b := Wrap(h, x), Wrap(h, y);
    var j := WrapIsCongruent(h, x);
    var k := WrapIsCongruent(h, y);
    var d := Diff(h, a, b);
    var t := if a - b >= h then 1 else if a - b < -h then -1 else 0;
    assert x - y == d + (j - k + t) * (2 * h) by {
      assert (j - k + t) * (2 * h) == j * (2 * h) - k * (2 * h) + t * (2 * h);
    }
    WrapForgetsTurns(h, x - y, d, j - k + t);
    WrapIsIdentityInRange(h, d);
  }

  /** The comparison is right for all true times less than half the range apart, wherever the
      counter wrapped between them ... */
  lemma {:induction false} AfterTellsTrueTime(h: int, x: int, y: int)
    requires 0 < h && -h < x - y < h
    ensures After(h, Wrap(h, x), Wrap(h, y)) <==> x > y
    ensures Before(h, Wrap(h, x), Wrap(h, y)) <==> x < y
  {
    DiffOfWrapped(h, x, y);
    WrapIsIdentityInRange(h, x - y);
  }

  /** ... and wrong from exactly half the range on: the later time no longer counts as after. */
  lemma {:induction false} AfterFailsAtHalfRange(h: int, y: int, d: int)
    requires 0 < h && h <= d <= 2 * h
    ensures !After(h, Wrap(h, y + d), Wrap(h, y))
  {
    DiffOfWrapped(h, y + d, y);
    WrapForgetsTurns(h, d, d - 2 * h, 1);
    WrapIsIdentityInRange(h, d - 2 * h);
  }

  /** How often the clock has gone round. */
  function Turn(h: int, x: int): int
    requires 0 < h
  {
    (x + h) / (2 * h)
  }

  /** The word the clock wraps in and the word times are compared in must be the same: of two times
      less than one turn of the clock apart, compared in a word of at least twice its range, the later
      comes after the earlier if and only if the clock has not wrapped between them. */
  lemma {:induction false} NarrowClockRightIffSameTurn(clock: int, h: int, x: int, y: int)
    requires 0 < clock && 2 * clock <= h && 0 < x - y < 2 * clock
    ensures After(h, Wrap(clock, x), Wrap(clock, y)) <==> Turn(clock, x) == Turn(clock, y)
    ensures Turn(clock, x) == Turn(clock, y) || Turn(clock, x) == Turn(clock, y) + 1
  {
    var m, a, b := 2 * clock, Wrap(clock, x), Wrap(clock, y);
    var i, j := Turn(clock, x), Turn(clock, y);
    assert x + clock == i * m + (a + clock) && y + clock == j * m + (b + clock);
    assert (i - j) * m == x - y - (a - b);
    ZeroOrOne(i - j, m);
  }

  lemma ZeroOrOne(k: int, m: int)
    requires m >= 1 && -m < k * m < 2 * m
    ensures k == 0 || k == 1
  {
    assert (-k) * m == -(k * m);
    if k > 1 {
      MulTwice(k, m);
    } else if k < 0 {
      MulAtLeast(-k, m);
    }
  }

  lemma MulTwice(k: int, m: int)
    requires k >= 2 && m >= 1
    ensures k * m >= 2 * m
  {
    assert (k - 2) * m >= 0;
  }

  /** Inside one window, After is the strict total order of the offsets from its base. */
  lemma AfterIsOffsetOrder(h: int, base: int, a: int, b: int)
    requires 0 < h && InWindow(h, base, a) && InWindow(h, base, b)
    ensures After(h, a, b) <==> Offset(h, base, a) > Offset(h, base, b)
    ensures Before(h, a, b) <==> After(h, b, a)
    ensures a != b ==> Offset(h, base, a) != Offset(h, base, b)
  {
  }

  lemma AfterIsStrictTotalOrder(h: int, base: int, a: int, b: int, c: int)
    requires 0 < h
    requires InWindow(h, base, a) && InWindow(h, base, b) && InWindow(h, base, c)
    ensures !After(h, a, a)
    ensures a != b ==> (After(h, a, b) <==> !After(h, b, a))
    ensures After(h, a, b) && After(h, b, c) ==> After(h, a, c)
  {
  }

  /** Without a window the comparison is not even transitive: three words a third of the
      counter apart come out in a cycle. */
  lemma AfterCyclesOutsideWindow(h: int) returns (a: int, b: int, c: int)
    requires 3 <= h
    ensures InRange(h, a) && InRange(h, b) && InRange(h, c)
    ensures After(h, b, a) && After(h, c, b) && After(h, a, c)
  {
    var third := (2 * h + 2) / 3;
    a, b, c := -h, -h + third, -h + 2 * third;
  }
}
