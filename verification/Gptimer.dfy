/** The NCO frequency search of the general purpose timer driver (DRV_GPTIMER.c).

    The NCO divides a clock `c` by emitting `rate` ticks every `wrap` periods, so
    that the frequency `f` asked for is met exactly when `f * wrap == rate * c`.
    The driver tries every wrap value up to 65536 and keeps the best one. */
module Gptimer {
  import opened Common

  const MAX_WRAP: int := 0x10000
  const RATE_MASK: int := 0xffff

  type Int32 = x: int | -0x8000_0000 <= x < 0x8000_0000

  /** The core clock is 60 MHz on the ALT1250 and 50 MHz on the ALT1255. These
      bounds are what keeps every 32-bit intermediate of the search in range. */
  predicate IsClock(c: int) {
    MAX_WRAP < c < 0x4000_0000
  }

  /** C's conversion of a 64-bit value to int32_t. */
  function ToInt32(x: int): Int32 {
    var y := x % 0x1_0000_0000;
    if y < 0x8000_0000 then y else y - 0x1_0000_0000
  }

  /** C's `/` and `%` on signed operands: the quotient is truncated toward zero. */
  function TruncDiv(x: int, c: int): int
    requires c > 0
  {
    if x >= 0 then x / c else -(-x / c)
  }

  function TruncMod(x: int, c: int): int
    requires c > 0
  {
    if x >= 0 then x % c else -(-x % c)
  }

  /** How far `rate / wrap` is from the ratio asked for, scaled by `wrap * c`. */
  function Error(f: int, c: int, wrap: int, rate: int): int {
    Abs(f * wrap - rate * c)
  }

  /** The least error any rate can reach with the given wrap value. */
  function LeastError(f: int, c: int, wrap: int): int
    requires c > 0
  {
    var m := (f * wrap) % c;
    if c - m < m then c - m else m
  }

  /** The pair approximates at least as well as every other one, and strictly
      better than every pair with a smaller wrap value. */
  ghost predicate IsBest(f: int, c: int, wrap: int, rate: int) {
    && 1 <= wrap <= MAX_WRAP
    && (forall w, r :: 1 <= w <= MAX_WRAP ==> Error(f, c, wrap, rate) <= Error(f, c, w, r))
    && (forall w, r :: 1 <= w < wrap ==> Error(f, c, wrap, rate) < Error(f, c, w, r))
  }

  /** The rate is rounded to the nearest, and down from halfway. */
  predicate IsNearest(f: int, c: int, wrap: int, rate: int) {
    -c < 2 * (f * wrap - rate * c) <= c
  }

  /** There is only one pair like that. */
  lemma BestIsUnique(f: int, c: int, w: int, r: int, w': int, r': int)
    requires 0 < c && IsBest(f, c, w, r) && IsNearest(f, c, w, r) && IsBest(f, c, w', r') && IsNearest(f, c, w', r')
    ensures w == w' && r == r'
  {
    assert w < w' ==> Error(f, c, w', r') < Error(f, c, w, r);
    assert w' < w ==> Error(f, c, w, r) < Error(f, c, w', r');
    assert Error(f, c, w, r) <= Error(f, c, w', r') && Error(f, c, w', r') <= Error(f, c, w, r);
    Distribute(r, r', c);
    if r > r' {
      MulMono(1, r - r', c);
    } else if r < r' {
      MulMono(r - r', -1, c);
    }
  }

  // ----- Arithmetic

  lemma MulMono(x: int, y: int, z: int)
    requires x <= y && 0 <= z
    ensures x * z <= y * z
  {}

  lemma MulCancel(x: int, y: int, z: int)
    requires x * z < y * z && 0 < z
    ensures x < y
  {
    if y <= x {
      MulMono(y, x, z);
    }
  }

  lemma Distribute(x: int, y: int, z: int)
    ensures (x - y) * z == x * z - y * z
    ensures (x + y) * z == x * z + y * z
  {}

  // ----- The search

  lemma LeastErrorIsLeast(f: int, c: int, w: int, r: int)
    requires 0 < c
    ensures LeastError(f, c, w) <= Error(f, c, w, r)
  {
    var x := f * w;
    var q, m := x / c, x % c;
    Distribute(q, r, c);
    if q > r {
      MulMono(1, q - r, c);
    } else if q < r {
      MulMono(q - r, -1, c);
    }
  }

  lemma LeastErrorIsReached(f: int, c: int, w: int, up: int)
    requires 0 < c
    requires up == if c - (f * w) % c < (f * w) % c then 1 else 0
    ensures Error(f, c, w, (f * w) / c + up) == LeastError(f, c, w)
  {
    Distribute((f * w) / c, up, c);
  }

  /** A pair whose error is the smallest least error, taken at the earliest wrap
      value that reaches it, is the best pair. */
  lemma EarliestLeastErrorIsBest(f: int, c: int, wrap: int, rate: int)
    requires 0 < c && 1 <= wrap <= MAX_WRAP
    requires Error(f, c, wrap, rate) == LeastError(f, c, wrap)
    requires forall w :: 1 <= w <= MAX_WRAP ==> LeastError(f, c, wrap) <= LeastError(f, c, w)
    requires forall w :: 1 <= w < wrap ==> LeastError(f, c, wrap) < LeastError(f, c, w)
    ensures IsBest(f, c, wrap, rate)
  {
    forall w, r | 1 <= w <= MAX_WRAP
      ensures Error(f, c, wrap, rate) <= Error(f, c, w, r)
      ensures w < wrap ==> Error(f, c, wrap, rate) < Error(f, c, w, r)
    {
      LeastErrorIsLeast(f, c, w, r);
      assert LeastError(f, c, wrap) <= LeastError(f, c, w);
    }
  }

  /** What the search knows after trying the wrap values below `tried`. */
  ghost predicate BestSoFar(f: int, c: int, tried: int, delta: int, best: int, up: int)
    requires c > 0
  {
    && 1 <= best < tried
    && delta == LeastError(f, c, best) > 0
    && up == (if c - (f * best) % c < (f * best) % c then 1 else 0)
    && (forall w :: 1 <= w < tried ==> delta <= LeastError(f, c, w))
    && (forall w :: 1 <= w < best ==> delta < LeastError(f, c, w))
  }

  /** A wrap value that divides exactly ends the search. */
  lemma ExactIsBest(f: int, c: int, wrap: int, delta: int, best: int, up: int)
    requires 0 < c && 1 <= wrap <= MAX_WRAP
    requires (f * wrap) % c == 0
    requires wrap > 1 ==> BestSoFar(f, c, wrap, delta, best, up)
    ensures IsBest(f, c, wrap, (f * wrap) / c) && IsNearest(f, c, wrap, (f * wrap) / c)
  {
    LeastErrorIsReached(f, c, wrap, 0);
    EarliestLeastErrorIsBest(f, c, wrap, (f * wrap) / c);
  }

  lemma BestSoFarIsBest(f: int, c: int, delta: int, best: int, up: int)
    requires 0 < c && BestSoFar(f, c, MAX_WRAP + 1, delta, best, up)
    ensures IsBest(f, c, best, (f * best) / c + up) && IsNearest(f, c, best, (f * best) / c + up)
  {
    Distribute((f * best) / c, up, c);
    LeastErrorIsReached(f, c, best, up);
    EarliestLeastErrorIsBest(f, c, best, (f * best) / c + up);
  }

  /** One more wrap value keeps what is known, whether it takes over or not. */
  lemma OneMoreWrap(f: int, c: int, wrap: int, delta: int, best: int, up: int, curr: int, currUp: int)
    requires 0 < c && 1 <= wrap && (if wrap == 1 then delta == 0 else BestSoFar(f, c, wrap, delta, best, up))
    requires curr == LeastError(f, c, wrap) > 0
    requires currUp == (if c - (f * wrap) % c < (f * wrap) % c then 1 else 0)
    ensures if curr < delta || delta == 0 then BestSoFar(f, c, wrap + 1, curr, wrap, currUp)
            else BestSoFar(f, c, wrap + 1, delta, best, up)
  {}

  /** The remainder of one wrap value and whether it is rounded up; zero when it divides
      exactly. */
  method TryWrap(f: Int32, c: int, wrap: int) returns (curr: int, up: int)
    requires IsClock(c) && 1 <= wrap <= MAX_WRAP
    ensures f > 0 ==> curr == LeastError(f, c, wrap) && (curr == 0 <==> (f * wrap) % c == 0)
    ensures f > 0 && curr != 0 ==> curr > 0 && up == if c - (f * wrap) % c < (f * wrap) % c then 1 else 0
    ensures f <= 0 ==> up == 0
  {
    ProductSign(f, wrap);
    curr := TruncMod(f * wrap, c);
    up := 0;
    if curr != 0 && c - curr < curr {
      curr := c - curr;
      up := 1;
    }
  }

  method RateOf(f: Int32, c: int, wrap: int) returns (rate: int)
    requires IsClock(c) && 1 <= wrap <= MAX_WRAP
    ensures if f > 0 then rate == (f * wrap) / c else rate <= 0
  {
    ProductSign(f, wrap);
    TruncDivSign(f * wrap, c);
    rate := TruncDiv(f * wrap, c);
  }

  lemma TruncDivSign(x: int, c: int)
    requires c > 0
    ensures if x > 0 then TruncDiv(x, c) == x / c else TruncDiv(x, c) <= 0
  {}

  lemma ProductSign(f: int, wrap: int)
    requires 1 <= wrap
    ensures if f > 0 then f * wrap > 0 else f * wrap <= 0
  {
    if f > 0 {
      MulMono(1, f, wrap);
    } else {
      MulMono(f, 0, wrap);
    }
  }

  /** The search loop. For a positive frequency the pair it settles on is the best
      one there is; for any other frequency the rate is not positive. */
  method Search(f: Int32, c: int) returns (rate: int, wrap: int)
    requires IsClock(c)
    ensures 1 <= wrap <= MAX_WRAP
    ensures f > 0 ==> IsBest(f, c, wrap, rate) && IsNearest(f, c, wrap, rate)
    ensures f <= 0 ==> rate <= 0
  {
    var delta, bestWrap, bestUp := 0, 0, 0;
    wrap := 1;
    while wrap <= MAX_WRAP
      invariant 1 <= wrap <= MAX_WRAP + 1
      invariant if wrap == 1 then delta == 0 else delta != 0 && 1 <= bestWrap < wrap
      invariant wrap > 1 && f > 0 ==> BestSoFar(f, c, wrap, delta, bestWrap, bestUp)
      invariant f <= 0 ==> bestUp == 0
    {
      var curr, up := TryWrap(f, c, wrap);
      if curr == 0 {
        rate := RateOf(f, c, wrap);
        if f > 0 {
          ExactIsBest(f, c, wrap, delta, bestWrap, bestUp);
        }
        return;
      }
      if f > 0 {
        OneMoreWrap(f, c, wrap, delta, bestWrap, bestUp, curr, up);
      }
      if curr < delta || delta == 0 {
        delta, bestWrap, bestUp := curr, wrap, up;
      }
      wrap := wrap + 1;
    }
    wrap := bestWrap;
    rate := RateOf(f, c, wrap);
    rate := rate + bestUp;
    if f > 0 {
      BestSoFarIsBest(f, c, delta, bestWrap, bestUp);
    }
  }

  // ----- Dirichlet's bound

  /** More pigeons than holes: two of them share a hole. */
  lemma {:induction false} Pigeonhole(holes: seq<int>, n: nat) returns (i: nat, j: nat)
    requires n > 0 && |holes| == n + 1
    requires forall k :: 0 <= k < |holes| ==> 0 <= holes[k] < n
    ensures i < j < |holes| && holes[i] == holes[j]
    decreases n
  {
    // Either the last pigeon shares its hole, or its hole is free for the
    // pigeons of hole n - 1.
    if n == 1 {
      i, j := 0, 1;
    } else if k :| 0 <= k < n && holes[k] == holes[n] {
      i, j := k, n;
    } else {
      var h := holes[n];
      var fewer := seq(n, k requires 0 <= k < n => if holes[k] == n - 1 then h else holes[k]);
      i, j := Pigeonhole(fewer, n - 1);
    }
  }

  /** Which 65536th of the clock the remainder of f * k falls into. */
  function Box(f: int, c: int, k: int): int
    requires c > 0
  {
    var scaled := (f * k) % c * MAX_WRAP;
    scaled / c
  }

  lemma BoxRange(f: int, c: int, k: int)
    requires IsClock(c)
    ensures 0 <= Box(f, c, k) < MAX_WRAP
    ensures Box(f, c, k) * c <= (f * k) % c * MAX_WRAP < Box(f, c, k) * c + c
  {
    var m := (f * k) % c;
    var scaled := m * MAX_WRAP;
    var b := scaled / c;
    assert scaled == b * c + scaled % c;
    MulCancel(b, MAX_WRAP, c);
    if b < 0 {
      MulMono(b, -1, c);
    }
  }

  lemma SameBoxIsClose(f: int, c: int, i: int, j: int)
    requires IsClock(c) && Box(f, c, i) == Box(f, c, j)
    ensures MAX_WRAP * Error(f, c, j - i, (f * j) / c - (f * i) / c) < c
  {
    BoxRange(f, c, i);
    BoxRange(f, c, j);
    var x, y := f * i, f * j;
    var qx, mx, qy, my := x / c, x % c, y / c, y % c;
    assert x == qx * c + mx && y == qy * c + my;
    Distribute(qy, qx, c);
    assert f * (j - i) == y - x by { Distribute(j, i, f); }
    assert f * (j - i) - (qy - qx) * c == my - mx;
    var b := Box(f, c, i) * c;
    assert b <= mx * MAX_WRAP < b + c && b <= my * MAX_WRAP < b + c;
  }

  /** Among 65536 multiples of f one comes within c / 65536 of a multiple of c. */
  lemma Dirichlet(f: int, c: int) returns (w: int, r: int)
    requires IsClock(c)
    ensures 1 <= w <= MAX_WRAP
    ensures MAX_WRAP * Error(f, c, w, r) < c
  {
    var boxes := seq(MAX_WRAP + 1, k requires 0 <= k => Box(f, c, k));
    forall k | 0 <= k < |boxes|
      ensures 0 <= boxes[k] < MAX_WRAP
    {
      BoxRange(f, c, k);
    }
    var i, j := Pigeonhole(boxes, MAX_WRAP);
    w, r := j - i, (f * j) / c - (f * i) / c;
    SameBoxIsClose(f, c, i, j);
  }

  /** The best pair misses the ratio asked for by less than c / 65536. */
  lemma BestIsWithinDirichlet(f: int, c: int, wrap: int, rate: int)
    requires IsClock(c) && IsBest(f, c, wrap, rate)
    ensures MAX_WRAP * Error(f, c, wrap, rate) < c
  {
    var w, r := Dirichlet(f, c);
    assert Error(f, c, wrap, rate) <= Error(f, c, w, r);
  }

  // ----- Which frequencies are accepted

  lemma BestRateIsNotNegative(f: int, c: int, wrap: int, rate: int)
    requires 0 < f <= c && IsBest(f, c, wrap, rate)
    ensures 0 <= rate
  {
    assert Error(f, c, wrap, rate) <= Error(f, c, 1, 0) == f;
    MulMono(1, wrap, f);
    assert rate * c >= f * wrap - f >= 0;
    MulCancel(-1, rate, c);
  }

  lemma BestRateIsAtMostWrap(f: int, c: int, wrap: int, rate: int)
    requires 0 < f <= c && IsBest(f, c, wrap, rate)
    ensures rate <= wrap && (wrap > 1 ==> rate < wrap)
  {
    assert Error(f, c, 1, 1) == c - f;
    assert rate * c - f * wrap <= c - f && (wrap > 1 ==> rate * c - f * wrap < c - f) by {
      assert Error(f, c, wrap, rate) <= Error(f, c, 1, 1);
      assert wrap > 1 ==> Error(f, c, wrap, rate) < Error(f, c, 1, 1);
    }
    Distribute(wrap, 1, f);
    MulMono(f, c, wrap - 1);
    Distribute(wrap, 1, c);
    AtMost(rate, wrap, c);
  }

  lemma AtMost(rate: int, wrap: int, c: int)
    requires 0 < c && rate * c <= wrap * c
    ensures rate <= wrap && (rate * c < wrap * c ==> rate < wrap)
  {
    Distribute(wrap, 1, c);
    MulCancel(rate, wrap + 1, c);
    if rate * c < wrap * c {
      MulCancel(rate, wrap, c);
    }
  }

  /** Up to the clock itself the best rate always fits its 16-bit register field. */
  lemma BestRateRange(f: int, c: int, wrap: int, rate: int)
    requires 0 < f <= c && IsBest(f, c, wrap, rate)
    ensures 0 <= rate <= RATE_MASK
  {
    BestRateIsNotNegative(f, c, wrap, rate);
    BestRateIsAtMostWrap(f, c, wrap, rate);
  }

  /** The best pair has rate zero, which the driver rejects, exactly when the
      frequency is at most a 65537th of the clock. */
  lemma ZeroRateExactlyWhen(f: int, c: int, wrap: int, rate: int)
    requires 0 < f <= c && IsBest(f, c, wrap, rate)
    ensures rate == 0 <==> (MAX_WRAP + 1) * f <= c
  {
    var w := c / f;
    MulCancel(0, w + 1, f);
    if w <= MAX_WRAP {
      FastFrequencyHasRate(f, c, wrap, rate);
      MulMono(w + 1, MAX_WRAP + 1, f);
    } else {
      MulMono(MAX_WRAP + 1, w, f);
      SlowFrequencyHasZeroRate(f, c, wrap, rate);
    }
  }

  lemma FastFrequencyHasRate(f: int, c: int, wrap: int, rate: int)
    requires 0 < f <= c && IsBest(f, c, wrap, rate) && c / f <= MAX_WRAP
    ensures rate != 0
  {
    var w := c / f;
    assert c == w * f + c % f;
    MulCancel(0, w, f);
    assert Error(f, c, wrap, rate) <= Error(f, c, w, 1) == c % f;
    MulMono(1, wrap, f);
  }

  lemma SlowFrequencyHasZeroRate(f: int, c: int, wrap: int, rate: int)
    requires 0 < f <= c && IsBest(f, c, wrap, rate) && (MAX_WRAP + 1) * f <= c
    ensures rate == 0
  {
    BestRateRange(f, c, wrap, rate);
    assert Error(f, c, 1, 0) == f;
    assert Error(f, c, wrap, rate) <= f && (wrap > 1 ==> Error(f, c, wrap, rate) < f);
    Distribute(wrap, 1, f);
    MulMono(wrap + 1, MAX_WRAP + 1, f);
    Distribute(wrap, 1, f);
    // rate * c <= f * wrap + f <= (MAX_WRAP + 1) * f <= c, one of them strictly
    assert rate * c < 2 * c;
    MulCancel(rate, 2, c);
  }

  /** The frequency a best pair gives, in Hz, rounded down. */
  lemma ActualFrequency(f: int, c: int, wrap: int, rate: int)
    requires IsClock(c) && 0 < f <= c && IsBest(f, c, wrap, rate) && rate > 0
    ensures 0 <= c * rate / wrap < 0x8000_0000
    ensures -c - MAX_WRAP * wrap < MAX_WRAP * (wrap * (c * rate / wrap - f)) < c
  {
    BestIsWithinDirichlet(f, c, wrap, rate);
    var p := c * rate;
    var a, rest := p / wrap, p % wrap;
    assert p == a * wrap + rest;
    Distribute(a, f, wrap);
    assert wrap * (a - f) == p - rest - f * wrap;
    MulMono(1, rate, c);
    MulCancel(-1, a, wrap);
    assert MAX_WRAP * (wrap * (a - f)) < c;
    MulMono(1, wrap, c);
    MulCancel(a - f, c, wrap);
  }

  /** Above the clock the best rate is positive. */
  lemma FasterThanTheClock(f: int, c: int, wrap: int, rate: int)
    requires 0 < c < f && IsBest(f, c, wrap, rate)
    ensures rate > 0
  {
    if rate <= 0 {
      OneIsBetter(f, c, wrap, rate);
    }
  }

  lemma OneIsBetter(f: int, c: int, wrap: int, rate: int)
    requires 0 < c < f && 1 <= wrap && rate <= 0
    ensures Error(f, c, wrap, 1) < Error(f, c, wrap, rate)
  {
    MulMono(rate, 0, c);
    MulMono(1, wrap, f);
  }

  /** The NCO registers the search result is written to. */
  class Nco {
    var wrapValue: int
    var rate: int      // the MCU_NCO_RATE field of CFG
    var enabled: bool  // the MCU_NCO_ENABLE bit of CFG

    constructor ()
      ensures wrapValue == 0 && rate == 0 && !enabled
    {
      wrapValue, rate, enabled := 0, 0, false;
    }

    /** Programs the best pair and returns the frequency it gives, or returns -1
        and leaves the registers alone. Up to the clock it fails exactly for
        frequencies that are not positive or at most a 65537th of the clock, and
        what it gives is off by less than `c / (65536 * wrap)`, rounded down. Above
        the clock it fails exactly when the best rate does not fit its field. */
    method SetFrequency(f: Int32, c: int) returns (actual: int)
      requires IsClock(c)
      modifies this
      ensures enabled == old(enabled)
      ensures f <= c && actual == -1 ==> wrapValue == old(wrapValue) && rate == old(rate)
      ensures f <= c ==> (actual == -1 <==> (f <= 0 || (MAX_WRAP + 1) * f <= c))
      ensures f <= c && actual != -1 ==>
                && 0 < rate <= RATE_MASK && IsBest(f, c, wrapValue, rate) && IsNearest(f, c, wrapValue, rate)
                && actual == c * rate / wrapValue
                && -c - MAX_WRAP * wrapValue < MAX_WRAP * (wrapValue * (actual - f)) < c
      ensures f > c ==> exists w, r ::
                (IsBest(f, c, w, r) && IsNearest(f, c, w, r) && 0 < r &&
                 if r <= RATE_MASK then wrapValue == w && rate == r && actual == ToInt32(c * r / w)
                 else wrapValue == old(wrapValue) && rate == old(rate) && actual == -1)
    {
      var r, w := Search(f, c);
      if 0 < f <= c {
        BestRateRange(f, c, w, r);
        ZeroRateExactlyWhen(f, c, w, r);
      }
      if f > c {
        FasterThanTheClock(f, c, w, r);
      }
      if w > 0 && w <= MAX_WRAP && r > 0 && r <= RATE_MASK {
        if f <= c {
          ActualFrequency(f, c, w, r);
        }
        wrapValue := w;
        rate := r;
        actual := ToInt32(c * r / w);
      } else {
        actual := -1;
      }
    }
  }
}
