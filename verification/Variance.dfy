/** The motion detector's variance: a fixed-point moving average with a noise floor, one 32-bit cell per pixel. */
module Variance {
  import opened Bytes
  import opened Arithmetic

  newtype uint32 = x: int | 0 <= x < 0x1_0000_0000

  /** mNoiseLevelSq: the square of noise level 8, in 16.16 fixed point. */
  const NOISE: int := 64 * 65536
  /** The square of the largest 8-bit delta, in 16.16 fixed point. */
  const CEILING: int := 65025 * 65536

  // ---------- the shift ----------

  const INT_RANGE: int := 0x1_0000_0000
  const ULONG_RANGE: int := 0x1_0000_0000_0000_0000

  /** The int parameter receives the low 32 bits of the 64-bit frame count plus one. */
  function LimitAt(frameCount: nat): int {
    var low := (frameCount + 1) % ULONG_RANGE % INT_RANGE;
    if low < INT_RANGE / 2 then low else low - INT_RANGE
  }

  /** The limit is compared with an unsigned long, so it is converted to one. */
  function Unsigned(limit: int): int {
    if limit < 0 then limit + ULONG_RANGE else limit
  }

  function Halved(divisor: nat, limit: nat): (d: nat)
    requires limit >= 1
    ensures d <= limit && d <= divisor
    decreases divisor
  {
    if divisor > limit then Halved(divisor / 2, limit) else divisor
  }

  lemma HalvedGrows(divisor: nat, a: nat, b: nat)
    requires 1 <= a <= b
    ensures Halved(divisor, a) <= Halved(divisor, b)
    decreases divisor
  {
    if divisor > b {
      HalvedGrows(divisor / 2, a, b);
    }
  }

  lemma QuotientOfHalf(d: nat, p: int)
    requires p >= 1
    ensures d / 2 / p == d / (2 * p)
  {
    var h := d / 2;
    var q := h / p;
    assert h == q * p + h % p;
    assert d == q * (2 * p) + (2 * (h % p) + d % 2);
    DivOf(d, 2 * p, q, 2 * (h % p) + d % 2);
  }

  lemma DivOf(n: int, d: int, q: int, r: int)
    requires d >= 1 && 0 <= r < d && n == q * d + r
    ensures n / d == q
  {
    var e := n / d - q;
    assert n == n / d * d + n % d;
    assert e * d == r - n % d;
    if e >= 1 {
      TimesMonotone(1, e, d);
    } else if e <= -1 {
      TimesMonotone(e, -1, d);
    }
  }

  /** Halving stops at the first quotient by a power of two that does not exceed the limit. */
  lemma {:induction false} HalvedIsFirst(divisor: nat, limit: nat) returns (k: nat)
    requires limit >= 1
    ensures Halved(divisor, limit) == divisor / Pow2(k)
    ensures k > 0 ==> divisor / Pow2(k - 1) > limit
    decreases divisor
  {
    if divisor > limit {
      var j := HalvedIsFirst(divisor / 2, limit);
      k := j + 1;
      QuotientOfHalf(divisor, Pow2(j));
      if j > 0 {
        QuotientOfHalf(divisor, Pow2(j - 1));
      }
      assert Pow2(0) == 1;
    } else {
      k := 0;
      assert Pow2(0) == 1;
    }
  }

  function ShiftFrom(divisor: nat, shift: nat): nat
    requires shift <= 15
    decreases 15 - shift
  {
    if shift == 15 || divisor <= Pow2(shift) then shift else ShiftFrom(divisor, shift + 1)
  }

  /** The divisor after the fast-start limit: unchanged when the limit is 0. */
  function Reduced(divisor: nat, limit: int): nat
    requires -INT_RANGE < limit < INT_RANGE
  {
    if limit == 0 then divisor else Halved(divisor, Unsigned(limit))
  }

  function ShiftAt(blend: nat, frameCount: nat): nat {
    ShiftFrom(Reduced(blend, LimitAt(frameCount)), 1)
  }

  /** The shift is the least one in 1..15 whose power of two reaches the divisor, or 15 when none does. */
  lemma {:induction false} ShiftIsLeast(divisor: nat, shift: nat)
    requires 1 <= shift <= 15
    requires forall k :: 1 <= k < shift ==> divisor > Pow2(k)
    ensures var s := ShiftFrom(divisor, shift);
      && shift <= s <= 15
      && (divisor <= Pow2(s) || s == 15)
      && forall k :: 1 <= k < s ==> divisor > Pow2(k)
    decreases 15 - shift
  {
    if shift < 15 && divisor > Pow2(shift) {
      ShiftIsLeast(divisor, shift + 1);
    }
  }

  lemma ShiftFromGrows(d: nat, e: nat)
    requires d <= e
    ensures 1 <= ShiftFrom(d, 1) <= ShiftFrom(e, 1) <= 15
  {
    ShiftIsLeast(d, 1);
    ShiftIsLeast(e, 1);
  }

  /** Fast start: for any blend the shift never falls as the frame count grows to 2^32 - 1. */
  lemma ShiftsGrow(blend: nat, f: nat, g: nat)
    requires blend < INT_RANGE / 2 && f <= g < INT_RANGE
    ensures 1 <= ShiftAt(blend, f) <= ShiftAt(blend, g) <= 15
  {
    var a, b := LimitAt(f), LimitAt(g);
    if a > 0 && b > 0 {
      HalvedGrows(blend, a, b);
    }
    ShiftFromGrows(Reduced(blend, a), Reduced(blend, b));
  }

  /** That bound on the frame count is sharp: at 2^32 the int limit is 1 again and the shift drops to 1. */
  lemma ShiftDropsAtWrap(blend: nat)
    requires 2 < blend < INT_RANGE / 2
    ensures ShiftAt(blend, INT_RANGE) == 1 < ShiftAt(blend, INT_RANGE - 1)
  {
    assert LimitAt(INT_RANGE) == 1 && LimitAt(INT_RANGE - 1) == 0;
    ShiftIsLeast(blend, 1);
    assert Pow2(1) == 2;
  }

  function Least(a: nat, b: nat): (r: nat)
    ensures r <= a && r <= b && (r == a || r == b)
  {
    if a < b then a else b
  }

  lemma QuotientOfPowers(m: nat, k: nat)
    requires k <= m
    ensures Pow2(m) / Pow2(k) == Pow2(m - k)
  {
    Pow2Splits(k, m - k);
    DivOf(Pow2(m), Pow2(k), Pow2(m - k), 0);
  }

  lemma Pow2Strict(a: nat, b: nat)
    requires Pow2(a) < Pow2(b)
    ensures a < b
  {
    if b <= a {
      Pow2Grows(b, a);
    }
  }

  /** A power of two is halved down to the largest power that does not exceed the limit. */
  lemma HalvedPower(m: nat, limit: nat, j: nat)
    requires Pow2(j) <= limit < Pow2(j + 1)
    ensures Halved(Pow2(m), limit) == Pow2(Least(m, j))
  {
    var k := HalvedIsFirst(Pow2(m), limit);
    if k > m {
      Pow2Grows(m, k - 1);
      QuotientAtMostOne(Pow2(m), Pow2(k - 1));
    }
    QuotientOfPowers(m, k);
    if k > 0 {
      QuotientOfPowers(m, k - 1);
      Pow2Strict(j, m - k + 1);
    }
    Pow2Strict(m - k, j + 1);
  }

  lemma QuotientAtMostOne(n: int, d: int)
    requires 1 <= n <= d
    ensures n / d <= 1
  {
    if n == d {
      DivOf(n, d, 1, 0);
    } else {
      DivOf(n, d, 0, n);
    }
  }

  lemma ShiftOfPower(n: nat)
    ensures ShiftFrom(Pow2(n), 1) == if n == 0 then 1 else Least(n, 15)
  {
    ShiftIsLeast(Pow2(n), 1);
    var s := ShiftFrom(Pow2(n), 1);
    assert Pow2(0) == 1 && Pow2(1) == 2;
    assert n == 0 || s <= n;
    if s < 15 {
      Pow2AtMost(n, s);
    }
  }

  lemma Pow2AtMost(a: nat, b: nat)
    requires Pow2(a) <= Pow2(b)
    ensures a <= b
  {
    if b < a {
      Pow2Grows(b + 1, a);
    }
  }

  /**
   * The shift for a power-of-two blend: its own exponent, or during fast start that of the largest power of two
   * that does not exceed the frame count plus one, if smaller; but from 1 to 15.
   */
  lemma ShiftAtPower(m: nat, frameCount: nat, j: nat)
    requires frameCount + 1 < INT_RANGE / 2 && Pow2(j) <= frameCount + 1 < Pow2(j + 1)
    ensures var e := Least(m, j);
      ShiftAt(Pow2(m), frameCount) == if e == 0 then 1 else Least(e, 15)
  {
    LimitBelow(frameCount);
    HalvedPower(m, frameCount + 1, j);
    ShiftOfPower(Least(m, j));
  }

  lemma LimitBelow(frameCount: nat)
    requires frameCount + 1 < INT_RANGE / 2
    ensures LimitAt(frameCount) == frameCount + 1
  {
    LowBits(frameCount + 1);
  }

  lemma LimitAbove(frameCount: nat)
    requires INT_RANGE / 2 <= frameCount + 1 <= INT_RANGE
    ensures LimitAt(frameCount) == frameCount + 1 - INT_RANGE
  {
    LowBits(frameCount + 1);
  }

  /** Past 2^31 frames the int limit is negative or zero and limits nothing, up to the wrap; then it all repeats. */
  lemma ShiftWithoutLimit(blend: nat, frameCount: nat)
    requires blend < INT_RANGE / 2 && INT_RANGE / 2 <= frameCount + 1 <= INT_RANGE
    ensures ShiftAt(blend, frameCount) == ShiftFrom(blend, 1)
  {
    LimitAbove(frameCount);
  }

  lemma ShiftRepeats(blend: nat, frameCount: nat)
    ensures ShiftAt(blend, frameCount + INT_RANGE) == ShiftAt(blend, frameCount)
  {
    LimitRepeats(frameCount + 1);
  }

  lemma LimitRepeats(n: nat)
    ensures (n + INT_RANGE) % ULONG_RANGE % INT_RANGE == n % ULONG_RANGE % INT_RANGE
  {
    LowBits(n + INT_RANGE);
    LowBits(n);
    assert (n + INT_RANGE) % INT_RANGE == n % INT_RANGE;
  }

  lemma LowBits(n: nat)
    ensures n % ULONG_RANGE % INT_RANGE == n % INT_RANGE
  {
    LowPart(n, INT_RANGE, ULONG_RANGE);
  }

  lemma LowPart(n: int, d: int, square: int)
    requires d >= 1 && square == d * d && n >= 0
    ensures n % square % d == n % d
  {
    var q, r := n / square, n % square;
    var t := r / d;
    assert n == q * square + r && r == t * d + r % d;
    assert (q * d + t) * d == q * square + t * d;
    DivOf(n, d, q * d + t, r % d);
    assert n == n / d * d + n % d;
  }

  method GetShift(divisor: nat, limit: int) returns (shift: nat)
    requires divisor < ULONG_RANGE && -INT_RANGE < limit < INT_RANGE
    ensures shift == ShiftFrom(Reduced(divisor, limit), 1)
  {
    var d: nat := divisor;
    if limit != 0 && d > Unsigned(limit) {
      while d > Unsigned(limit)
        invariant Unsigned(limit) >= 1
        invariant Halved(d, Unsigned(limit)) == Reduced(divisor, limit)
      {
        d := d / 2;
      }
    }
    shift := 0;
    var i := 2;
    Pow2Of16();
    Pow2Grows(15, 16);
    while i < 65536
      invariant shift <= 15 && i == Pow2(shift + 1)
      invariant shift < 15 ==> ShiftFrom(d, 1) == ShiftFrom(d, shift + 1)
      invariant shift == 15 ==> ShiftFrom(d, 1) == 15
      decreases 15 - shift
    {
      shift := shift + 1;
      if d <= i {
        break;
      }
      i := i * 2;
    }
  }

  // ---------- one cell ----------

  function CellStep(b: int, shift: nat, delta: int): int
    requires shift <= 16
  {
    var next := b - b / Pow2(shift) + delta * delta * Pow2(16 - shift);
    if next < NOISE then NOISE else next
  }

  /** The same update on exact reals. */
  function AverageStep(e: real, shift: nat, delta: int): real {
    var next := e - e / Pow2(shift) as real + (delta * delta * 65536) as real / Pow2(shift) as real;
    if next < NOISE as real then NOISE as real else next
  }

  /** What the average is for: each sample takes it nearer to the sample's square by exactly the 2^s-th part. */
  lemma AverageApproaches(e: real, shift: nat, delta: int)
    requires AverageStep(e, shift, delta) > NOISE as real
    ensures var target := (delta * delta * 65536) as real;
      AverageStep(e, shift, delta) - target == (e - target) * (1.0 - 1.0 / Pow2(shift) as real)
  {
    var target, p := (delta * delta * 65536) as real, Pow2(shift) as real;
    Approach(e, target, p, 1.0 / p);
  }

  lemma Approach(e: real, target: real, p: real, part: real)
    requires p >= 1.0 && part == 1.0 / p
    ensures e - e / p + target / p - target == (e - target) * (1.0 - part)
  {
    assert e / p == e * part;
    assert target / p == target * part;
  }

  /** Decay: a cell at most top * p gives up at least top. */
  lemma DecayBound(b: int, p: int, top: int)
    requires p >= 1 && 0 <= b <= top * p
    ensures 0 <= b / p <= b <= top * p
    ensures b - b / p <= top * p - top
  {
    var d, r := b / p, b % p;
    assert b == d * p + r;
    TimesMonotone(1, p, d);
    if d >= top {
      TimesMonotone(top, d, p);
    } else {
      TimesMonotone(d, top - 1, p - 1);
      assert d * (p - 1) == d * p - d;
      assert (top - 1) * (p - 1) == top * p - top - p + 1;
    }
  }

  /** The update before the floor is applied. */
  lemma NextBound(b: int, p: int, q: int, sq: int)
    requires p >= 2 && q >= 0 && p * q == 65536
    requires 0 <= b <= CEILING && 0 <= sq <= 65025
    ensures 0 <= sq * q <= 65025 * 32768
    ensures 0 <= b - b / p <= b - b / p + sq * q <= CEILING
  {
    assert (65025 * q) * p == CEILING;
    DecayBound(b, p, 65025 * q);
    TimesMonotone(sq, 65025, q);
    TimesMonotone(0, sq, q);
    TimesMonotone(2, p, q);
  }

  /** A cell never leaves [64 * 2^16, 65025 * 2^16], and no step on the way overflows 32 bits. */
  lemma CellStays(b: int, shift: nat, delta: int)
    requires NOISE <= b <= CEILING && 1 <= shift <= 15 && 0 <= delta <= 255
    ensures NOISE <= CellStep(b, shift, delta) <= CEILING
    ensures 0 <= delta * delta <= 65025
    ensures 0 <= delta * delta * Pow2(16 - shift) < INT_RANGE / 2
    ensures 0 <= b - b / Pow2(shift) <= b - b / Pow2(shift) + delta * delta * Pow2(16 - shift) <= CEILING
  {
    Pow2Of16();
    Pow2Splits(shift, 16 - shift);
    Pow2Grows(1, shift);
    SquareBound(delta);
    NextBound(b, Pow2(shift), Pow2(16 - shift), delta * delta);
  }

  lemma SquareBound(delta: int)
    requires 0 <= delta <= 255
    ensures 0 <= delta * delta <= 65025
  {
    assert (255 - delta) * (255 + delta) >= 0;
  }

  /** One step keeps the fixed-point cell at most top above the exact average, for any top of at least 2^shift - 1. */
  lemma StepTracks(b: int, e: real, shift: nat, delta: int, top: int)
    requires 1 <= shift <= 15 && b >= 0 && Pow2(shift) - 1 <= top
    requires 0.0 <= b as real - e <= top as real
    ensures 0.0 <= CellStep(b, shift, delta) as real - AverageStep(e, shift, delta) <= top as real
  {
    Pow2Of16();
    Pow2Splits(shift, 16 - shift);
    GainExact(delta * delta, Pow2(shift), Pow2(16 - shift));
    DecayTracks(b, e, Pow2(shift), top);
  }

  /** The new sample's share is the same in both: the shift loses no bits of it. */
  lemma GainExact(sq: int, p: int, q: int)
    requires p >= 1 && p * q == 65536
    ensures (sq * 65536) as real / p as real == (sq * q) as real
  {
    assert sq * 65536 == (sq * q) * p;
    var m := sq * q;
    assert (m * p) as real == m as real * p as real;
  }

  lemma DecayTracks(b: int, e: real, p: int, top: int)
    requires p >= 1 && b >= 0 && p - 1 <= top
    requires 0.0 <= b as real - e <= top as real
    ensures 0.0 <= (b - b / p) as real - (e - e / p as real) <= top as real
  {
    var d, r, q := b / p, b % p, p as real - 1.0;
    assert b == d * p + r;
    assert (d * p) as real == d as real * p as real == d as real * (q + 1.0);
    var x := e / p as real;
    assert x * p as real == x * (q + 1.0);
    PlusOne(d as real, q);
    PlusOne(x, q);
    GapBound(b as real - e, d as real - x, r as real, q, top as real);
  }

  lemma PlusOne(x: real, q: real)
    ensures x * (q + 1.0) == x * q + x
  {
  }

  /** A gap of at most top, less its (q + 1)-th part rounded, is still at most top. */
  lemma GapBound(f: real, part: real, r: real, q: real, top: real)
    requires 0.0 <= f <= top && 0.0 <= r <= q <= top
    requires part * q + part + r == f
    ensures 0.0 <= f - part <= top
  {
    var gap := f - part;
    Distribute(f, part, q);
    TimesMonotoneReal(0.0, f, q);
    TimesMonotoneReal(f, top, q);
    if gap < 0.0 {
      TimesMonotoneReal(gap, 0.0, q);
    } else if gap > top {
      TimesMonotoneReal(top, gap, q);
    }
  }

  lemma Distribute(a: real, b: real, c: real)
    ensures (a - b) * c == a * c - b * c
  {
  }

  // ---------- whole runs ----------

  datatype Sample = Sample(shift: nat, delta: int)

  /** A cell, and the exact average beside it, after a run of samples; both start at the noise floor. */
  function Cell(run: seq<Sample>): int
    requires forall i :: 0 <= i < |run| ==> run[i].shift <= 16
  {
    if run == [] then NOISE
    else
      var last := run[|run| - 1];
      CellStep(Cell(run[..|run| - 1]), last.shift, last.delta)
  }

  function Average(run: seq<Sample>): real {
    if run == [] then NOISE as real
    else
      var last := run[|run| - 1];
      AverageStep(Average(run[..|run| - 1]), last.shift, last.delta)
  }

  ghost predicate Samples(run: seq<Sample>) {
    forall i :: 0 <= i < |run| ==> 1 <= run[i].shift <= 15 && 0 <= run[i].delta <= 255
  }

  ghost predicate Slowing(run: seq<Sample>) {
    forall i, j :: 0 <= i <= j < |run| ==> run[i].shift <= run[j].shift
  }

  lemma {:induction false} CellInRange(run: seq<Sample>)
    requires Samples(run)
    ensures NOISE <= Cell(run) <= CEILING
    decreases |run|
  {
    if run != [] {
      var last := run[|run| - 1];
      CellInRange(run[..|run| - 1]);
      CellStays(Cell(run[..|run| - 1]), last.shift, last.delta);
    }
  }

  /**
   * Truncation never adds up: over any run, with shifts in any order that are all at most top, the cell stays
   * within 2^top - 1 above the exact average.
   */
  lemma {:induction false} CellTracksAverage(run: seq<Sample>, top: nat)
    requires Samples(run) && forall i :: 0 <= i < |run| ==> run[i].shift <= top
    ensures 0.0 <= Cell(run) as real - Average(run) <= (Pow2(top) - 1) as real
    decreases |run|
  {
    if run != [] {
      var before, last := run[..|run| - 1], run[|run| - 1];
      CellTracksAverage(before, top);
      CellInRange(before);
      Pow2Grows(last.shift, top);
      StepTracks(Cell(before), Average(before), last.shift, last.delta, Pow2(top) - 1);
    }
  }

  /** With shifts that never fall the last one bounds the error, and at first there is none. */
  lemma LastShiftBounds(run: seq<Sample>)
    requires Samples(run) && Slowing(run)
    ensures 0.0 <= Cell(run) as real - Average(run) <= (if run == [] then 0 else Pow2(run[|run| - 1].shift) - 1) as real
  {
    if run != [] {
      CellTracksAverage(run, run[|run| - 1].shift);
    }
  }

  /** So the byte shown for a cell, the root of its integer part, fits 8 bits (and is at least the noise level 8). */
  lemma RootFitsByte(run: seq<Sample>, root: nat)
    requires Samples(run)
    requires root * root <= Cell(run) / 65536 < (root + 1) * (root + 1)
    ensures 8 <= root <= 255
  {
    CellInRange(run);
    if root > 255 {
      TimesMonotone(256, root, root);
    }
    if root < 8 {
      TimesMonotone(root + 1, 8, root + 1);
    }
  }

  // ---------- the detector's buffer ----------

  /** One call of detectMotion that reached the update: the frame count and the delta image. */
  datatype Update = Update(frameCount: nat, deltas: seq<uint8>)

  /** What the updates mean to pixel i. */
  function Column(blend: nat, updates: seq<Update>, i: nat): (run: seq<Sample>)
    requires forall u :: u in updates ==> i < |u.deltas|
    ensures |run| == |updates|
    ensures forall k :: 0 <= k < |run| ==>
      run[k] == Sample(ShiftAt(blend, updates[k].frameCount), updates[k].deltas[i] as int)
  {
    seq(|updates|, k requires 0 <= k < |updates| =>
      Sample(ShiftAt(blend, updates[k].frameCount), updates[k].deltas[i] as int))
  }

  /** Updates as the detector makes them: frame counts that increase and have not reached 2^32. */
  ghost predicate InOrder(updates: seq<Update>, before: nat) {
    && (forall i, j :: 0 <= i < j < |updates| ==> updates[i].frameCount < updates[j].frameCount)
    && (forall i :: 0 <= i < |updates| ==> updates[i].frameCount < before)
  }

  /** Both bounds hold for every pixel of every run of updates, whatever the frame counts. */
  lemma ColumnTracks(blend: nat, updates: seq<Update>, i: nat)
    requires forall u :: u in updates ==> i < |u.deltas|
    ensures var run := Column(blend, updates, i);
      && Samples(run)
      && NOISE <= Cell(run) <= CEILING
      && 0.0 <= Cell(run) as real - Average(run) <= 32767.0
  {
    var run := Column(blend, updates, i);
    ColumnSamples(blend, updates, i);
    CellInRange(run);
    CellTracksAverage(run, 15);
    Pow2Of15();
  }

  lemma Pow2Of15()
    ensures Pow2(15) == 32768
  {
    Pow2Of16();
  }

  /** In order and below 2^32 frames the tighter bound holds as well: there the last shift is the largest. */
  lemma ColumnTracksLastShift(blend: nat, updates: seq<Update>, before: nat, i: nat)
    requires blend < INT_RANGE / 2 && InOrder(updates, before) && before <= INT_RANGE
    requires forall u :: u in updates ==> i < |u.deltas|
    ensures var run := Column(blend, updates, i);
      && Samples(run) && Slowing(run)
      && (updates != [] ==>
        Cell(run) as real - Average(run) <= (Pow2(ShiftAt(blend, updates[|updates| - 1].frameCount)) - 1) as real)
  {
    var run := Column(blend, updates, i);
    ColumnSamples(blend, updates, i);
    forall k, l | 0 <= k <= l < |run| ensures run[k].shift <= run[l].shift {
      ShiftsGrow(blend, updates[k].frameCount, updates[l].frameCount);
    }
    LastShiftBounds(run);
  }

  /** At 2^32 frames the shift drops, and the tighter bound can fail: here the gap is 1.07 although 2^1 - 1 is 1. */
  lemma LastShiftBoundFails(updates: seq<Update>)
    requires updates == [
      Update(INT_RANGE - 3, [131]), Update(INT_RANGE - 2, [244]), Update(INT_RANGE - 1, [182]), Update(INT_RANGE, [77])]
    ensures var run := Column(512, updates, 0);
      && Samples(run) && run[3].shift == 1
      && Cell(run) as real - Average(run) > (Pow2(1) - 1) as real
  {
    var run := Column(512, updates, 0);
    ColumnSamples(512, updates, 0);
    ShiftOf512();
    assert run == [Sample(9, 131), Sample(9, 244), Sample(9, 182), Sample(1, 77)];
    FourSteps(run);
  }

  lemma ShiftOf512()
    ensures ShiftAt(512, INT_RANGE - 3) == ShiftAt(512, INT_RANGE - 2) == ShiftAt(512, INT_RANGE - 1) == 9
    ensures ShiftAt(512, INT_RANGE) == 1
  {
    assert Pow2(4) == 16;
    Pow2Splits(4, 4);
    assert Pow2(9) == 512;
    assert LimitAt(INT_RANGE - 3) == -2 && LimitAt(INT_RANGE - 2) == -1 && LimitAt(INT_RANGE - 1) == 0;
    ShiftIsLeast(512, 1);
    var shift := ShiftFrom(512, 1);
    assert shift <= 9;
    Pow2Grows(if shift < 8 then shift else 8, 8);
    ShiftDropsAtWrap(512);
  }

  lemma FourSteps(run: seq<Sample>)
    requires run == [Sample(9, 131), Sample(9, 244), Sample(9, 182), Sample(1, 77)]
    ensures Cell(run) as real - Average(run) > (Pow2(1) - 1) as real
  {
    FourCells();
    FourAverages();
    assert run[..3][..2] == run[..2] && run[..2][..1] == run[..1] && run[..1][..0] == [];
    assert Cell(run[..1]) == 6382720 && Average(run[..1]) == 6382720.0;
    assert Cell(run[..2]) == 13990862 && Average(run[..2]) == 13990861.75;
    assert Cell(run[..3]) == 18203409 && Average(run[..3]) == 37280579273.0 / 2048.0;
    assert Pow2(1) == 2;
  }

  lemma SmallPowers()
    ensures Pow2(1) == 2 && Pow2(7) == 128 && Pow2(9) == 512 && Pow2(15) == 32768
  {
    assert Pow2(4) == 16;
    Pow2Splits(4, 4);
    Pow2Of15();
  }

  lemma FourCells()
    ensures CellStep(NOISE, 9, 131) == 6382720 && CellStep(6382720, 9, 244) == 13990862
    ensures CellStep(13990862, 9, 182) == 18203409 && CellStep(18203409, 1, 77) == 203383177
  {
    SmallPowers();
  }

  lemma FourAverages()
    ensures AverageStep(NOISE as real, 9, 131) == 6382720.0
    ensures AverageStep(6382720.0, 9, 244) == 13990861.75
    ensures AverageStep(13990861.75, 9, 182) == 37280579273.0 / 2048.0
    ensures AverageStep(37280579273.0 / 2048.0, 1, 77) == 833057488585.0 / 4096.0
  {
    SmallPowers();
  }

  lemma ColumnOfNone(blend: nat, updates: seq<Update>, i: nat)
    requires updates == []
    ensures Cell(Column(blend, updates, i)) == NOISE
  {
  }

  lemma ColumnSamples(blend: nat, updates: seq<Update>, i: nat)
    requires forall u :: u in updates ==> i < |u.deltas|
    ensures Samples(Column(blend, updates, i))
  {
    var run := Column(blend, updates, i);
    forall k | 0 <= k < |run| ensures 1 <= run[k].shift <= 15 && 0 <= run[k].delta <= 255 {
      assert updates[k] in updates;
      ShiftIsLeast(Reduced(blend, LimitAt(updates[k].frameCount)), 1);
    }
  }

  /** One more update is one more step of every cell. */
  lemma ColumnGrows(blend: nat, updates: seq<Update>, u: Update, i: nat)
    requires forall v :: v in updates + [u] ==> i < |v.deltas|
    ensures Samples(Column(blend, updates, i)) && Samples(Column(blend, updates + [u], i))
    ensures 1 <= ShiftAt(blend, u.frameCount) <= 15
    ensures Cell(Column(blend, updates + [u], i)) ==
      CellStep(Cell(Column(blend, updates, i)), ShiftAt(blend, u.frameCount), u.deltas[i] as int)
  {
    ColumnSamples(blend, updates, i);
    ColumnSamples(blend, updates + [u], i);
    ShiftIsLeast(Reduced(blend, LimitAt(u.frameCount)), 1);
    var run := Column(blend, updates + [u], i);
    assert run[..|run| - 1] == Column(blend, updates, i);
  }

  /** Every cell is what the updates so far make of its pixel. */
  ghost predicate AreCells(blend: nat, updates: seq<Update>, cells: seq<uint32>) {
    && (forall u :: u in updates ==> |u.deltas| == |cells|)
    && (forall i: nat :: i < |cells| ==> Samples(Column(blend, updates, i)))
    && forall i: nat :: i < |cells| ==> cells[i] as int == Cell(Column(blend, updates, i))
  }

  lemma CellsInRange(blend: nat, updates: seq<Update>, cells: seq<uint32>)
    requires AreCells(blend, updates, cells)
    ensures forall k: nat :: k < |cells| ==> NOISE <= cells[k] as int <= CEILING
  {
    forall k: nat | k < |cells| ensures NOISE <= cells[k] as int <= CEILING {
      CellInRange(Column(blend, updates, k));
    }
  }

  lemma CellsGrow(blend: nat, updates: seq<Update>, u: Update, cells: seq<uint32>, next: seq<uint32>)
    requires AreCells(blend, updates, cells) && |u.deltas| == |cells| == |next|
    requires 1 <= ShiftAt(blend, u.frameCount) <= 15
    requires forall k: nat :: k < |next| ==>
      next[k] as int == CellStep(cells[k] as int, ShiftAt(blend, u.frameCount), u.deltas[k] as int)
    ensures AreCells(blend, updates + [u], next)
  {
    forall k: nat | k < |next|
      ensures Samples(Column(blend, updates + [u], k))
      ensures next[k] as int == Cell(Column(blend, updates + [u], k))
    {
      ColumnGrows(blend, updates, u, k);
      assert cells[k] as int == Cell(Column(blend, updates, k));
    }
  }

  class MotionDetector {
    const mVarBlend: nat
    const mReadyCount: nat
    var mFrameCount: nat
    var mVarBuffer: array<uint32>
    ghost var updates: seq<Update>

    /** The buffer is the state of every cell after the updates so far; frame counts below next were used. */
    ghost predicate Holds(next: nat)
      reads this, mVarBuffer
    {
      && mVarBlend < INT_RANGE / 2
      && InOrder(updates, next)
      && (mVarBuffer.Length == 0 ==> updates == [])
      && AreCells(mVarBlend, updates, mVarBuffer[..])
    }

    ghost predicate Valid()
      reads this, mVarBuffer
    {
      Holds(mFrameCount)
    }

    constructor (blend: nat, readyCount: nat)
      requires blend < INT_RANGE / 2
      ensures Valid() && fresh(mVarBuffer) && mVarBlend == blend && mReadyCount == readyCount
      ensures mFrameCount == 0 && updates == []
    {
      mVarBlend, mReadyCount, mFrameCount, updates := blend, readyCount, 0, [];
      mVarBuffer := new uint32[0];
    }

    /** Fills the empty buffer with noise. */
    method Populate(pixels: nat)
      requires Valid() && mVarBuffer.Length == 0
      modifies this
      ensures Valid() && fresh(mVarBuffer) && mVarBuffer.Length == pixels
      ensures mFrameCount == old(mFrameCount) && updates == []
    {
      mVarBuffer := new uint32[pixels](_ => NOISE as uint32);
      forall i: nat | i < pixels ensures mVarBuffer[i] as int == Cell(Column(mVarBlend, updates, i)) {
        ColumnOfNone(mVarBlend, updates, i);
      }
    }

    /** The update of one cell; the newtypes prove that nothing wraps. */
    static method UpdatedCell(cell: uint32, delta: uint8, shift: nat) returns (next: uint32)
      requires NOISE <= cell as int <= CEILING && 1 <= shift <= 15
      ensures next as int == CellStep(cell as int, shift, delta as int)
    {
      CellStays(cell as int, shift, delta as int);
      var square := delta as int * delta as int;
      FitsUint16(square);
      var deltaSq := square % 65536;
      next := cell - (cell as int / Pow2(shift)) as uint32 + (deltaSq * Pow2(16 - shift)) as uint32;
      if next < NOISE as uint32 {
        next := NOISE as uint32;
      }
    }

    static lemma FitsUint16(n: int)
      requires 0 <= n < 65536
      ensures n % 65536 == n
    {
    }

    static method UpdateCells(pBuf: array<uint32>, delta: array<uint8>, shift: nat)
      requires pBuf.Length == delta.Length && 1 <= shift <= 15
      requires forall k :: 0 <= k < pBuf.Length ==> NOISE <= pBuf[k] as int <= CEILING
      modifies pBuf
      ensures forall k :: 0 <= k < pBuf.Length ==>
        pBuf[k] as int == CellStep(old(pBuf[k]) as int, shift, delta[k] as int)
    {
      var i := 0;
      while i != delta.Length
        invariant 0 <= i <= delta.Length
        invariant forall k :: 0 <= k < i ==> pBuf[k] as int == CellStep(old(pBuf[k]) as int, shift, delta[k] as int)
        invariant forall k :: i <= k < delta.Length ==> pBuf[k] == old(pBuf[k])
        decreases delta.Length - i
      {
        pBuf[i] := UpdatedCell(pBuf[i], delta[i], shift);
        i := i + 1;
      }
    }

    /** The update of the whole buffer. */
    method UpdateBuffer(delta: array<uint8>)
      requires Valid() && delta.Length == mVarBuffer.Length
      modifies this`updates, mVarBuffer
      ensures Holds(mFrameCount + 1)
      ensures updates == if delta.Length == 0 then old(updates) else old(updates) + [Update(mFrameCount, delta[..])]
    {
      var shift := GetShift(mVarBlend, LimitAt(mFrameCount));
      ghost var u, cells := Update(mFrameCount, delta[..]), mVarBuffer[..];
      ShiftIsLeast(Reduced(mVarBlend, LimitAt(mFrameCount)), 1);
      CellsInRange(mVarBlend, updates, cells);
      assert forall k: nat :: k < delta.Length ==> mVarBuffer[k] == cells[k];
      UpdateCells(mVarBuffer, delta, shift);
      if delta.Length > 0 {
        CellsGrow(mVarBlend, updates, u, cells, mVarBuffer[..]);
        updates := updates + [u];
      }
    }

    /** One frame's call of detectMotion; a preclusive zone in alarm makes it return before the update. */
    method DetectMotion(delta: array<uint8>, precluded: bool)
      requires Valid()
      requires mVarBuffer.Length == 0 || delta.Length == mVarBuffer.Length
      modifies this, mVarBuffer
      ensures Holds(mFrameCount + 1) && mFrameCount == old(mFrameCount)
      ensures mVarBuffer == old(mVarBuffer) || fresh(mVarBuffer)
      ensures mVarBuffer.Length == delta.Length
      ensures updates == if precluded || delta.Length == 0 then old(updates)
                         else old(updates) + [Update(mFrameCount, delta[..])]
    {
      if mVarBuffer.Length == 0 {
        Populate(delta.Length);
      }
      if !precluded {
        UpdateBuffer(delta);
      }
    }

    /** analyse and the frame count around it. */
    method ProcessFrame(delta: array<uint8>, precluded: bool)
      requires Valid()
      requires mVarBuffer.Length == 0 || delta.Length == mVarBuffer.Length
      modifies this, mVarBuffer
      ensures Valid() && mFrameCount == old(mFrameCount) + 1
      ensures mVarBuffer == old(mVarBuffer) || fresh(mVarBuffer)
      ensures updates == if precluded || delta.Length == 0 || old(mFrameCount) <= mReadyCount then old(updates)
                         else old(updates) + [Update(old(mFrameCount), delta[..])]
    {
      if mFrameCount > mReadyCount {
        DetectMotion(delta, precluded);
      }
      mFrameCount := mFrameCount + 1;
    }
  }
}
