/**
 * The continued-fraction search for a rational approximation of a frame rate.
 * Doubles are modelled by exact reals, longs by unbounded integers (LongsFit says when 64 bits hold them),
 * and the narrowing of the answer into the two ints of an AVRational is written out.
 */
module Rational {
  import opened Arithmetic

  const INT32_LIMIT: int := 0x8000_0000
  const INT64_LIMIT: int := 0x8000_0000_0000_0000
  const REP_LIMIT: int := 0x7FFF_FFFF

  datatype AVRational = AVRational(num: int, den: int)

  function Abs(x: real): real {
    if x < 0.0 then -x else x
  }

  /** Storing a long into an int keeps the low 32 bits, read as two's complement. */
  function ToInt32(n: int): int {
    (n + INT32_LIMIT) % (2 * INT32_LIMIT) - INT32_LIMIT
  }

  /** How far the input lies above the fraction p/q, multiplied by q. */
  function Offset(input: real, p: int, q: int): real {
    q as real * input - p as real
  }

  /** The distance from the input to the fraction num/den, multiplied by den. */
  function Miss(input: real, num: int, den: int): real {
    Abs(Offset(input, num, den))
  }

  ghost predicate Divides(d: int, n: int) {
    d > 0 && n % d == 0
  }

  ghost predicate Coprime(a: int, b: int) {
    forall d: int :: Divides(d, a) && Divides(d, b) ==> d == 1
  }

  /** num/den answers (input, maxden): in range, reduced, close, and no other fraction in range misses by less. */
  ghost predicate IsAnswer(input: real, maxden: int, num: int, den: int) {
    && 1 <= den <= maxden
    && 0 <= num
    && Coprime(num, den)
    && Miss(input, num, den) * (maxden + 1) as real <= 1.0
    && forall r: int, s: int :: 1 <= s <= maxden ==> Miss(input, num, den) <= Miss(input, r, s)
  }

  /** What the loop keeps: the matrix has determinant 1 or -1 and, as a Moebius map, takes x back to the input. */
  ghost predicate Expansion(input: real, p: int, p': int, q: int, q': int, x: real) {
    && (p * q' - p' * q == 1 || p * q' - p' * q == -1)
    && input * (q as real * x + q' as real) == p as real * x + p' as real
  }

  lemma CoprimeFromDeterminant(p: int, p': int, q: int, q': int)
    requires p * q' - p' * q == 1 || p * q' - p' * q == -1
    ensures Coprime(p, q)
  {
    forall d: int | Divides(d, p) && Divides(d, q) ensures d == 1 {
      Quotient(p, d);
      Quotient(q, d);
      UnitDivisor(d, p, p / d, p', q, q / d, q');
    }
  }

  lemma Quotient(n: int, d: int)
    requires Divides(d, n)
    ensures n == d * (n / d)
  {
  }

  lemma UnitDivisor(d: int, p: int, u: int, p': int, q: int, v: int, q': int)
    requires d > 0 && p == d * u && q == d * v
    requires p * q' - p' * q == 1 || p * q' - p' * q == -1
    ensures d == 1
  {
    var e := u * q' - p' * v;
    assert d * e == d * (u * q') - d * (p' * v);
    assert d * (u * q') == p * q';
    assert d * (p' * v) == p' * q;
    UnitFactor(d, e);
  }

  lemma UnitFactor(d: int, e: int)
    requires d > 0 && (d * e == 1 || d * e == -1)
    ensures d == 1
  {
    if e > 0 {
      TimesMonotone(1, e, d);
    } else if e < 0 {
      TimesMonotone(e, -1, d);
    }
  }

  /** The miss of the current convergent, times the next (real) denominator, is exactly one. */
  lemma MissTimesNext(input: real, p: int, p': int, q: int, q': int, x: real)
    requires Expansion(input, p, p', q, q', x) && q >= 1 && q' >= 0 && x > 1.0
    ensures Miss(input, p, q) * (q as real * x + q' as real) == 1.0
  {
    var n := q as real * x + q' as real;
    var e := q as real * input - p as real;
    assert q as real * x > 0.0;
    assert e * n == q as real * (input * n) - p as real * n;
    assert q as real * (input * n) == q as real * (p as real * x + p' as real);
    assert e * n == q as real * p' as real - p as real * q' as real;
    assert (p * q' - p' * q) as real == p as real * q' as real - p' as real * q as real;
    if e < 0.0 {
      assert Abs(e) * n == -(e * n);
      assert e * n < 0.0;
    } else {
      assert Abs(e) * n == e * n >= 0.0;
    }
  }

  /** Every fraction r/s is an integer combination of the last two convergents. */
  lemma Decompose(p: int, p': int, q: int, q': int, r: int, s: int) returns (a: int, b: int)
    requires p * q' - p' * q == 1 || p * q' - p' * q == -1
    ensures a * p + b * p' == r && a * q + b * q' == s
  {
    var d := p * q' - p' * q;
    a, b := d * (r * q' - s * p'), d * (s * p - r * q);
    assert (r * q' - s * p') * p + (s * p - r * q) * p' == r * d;
    assert (r * q' - s * p') * q + (s * p - r * q) * q' == s * d;
    if d == 1 {
    } else {
      assert a == -(r * q' - s * p') && b == -(s * p - r * q);
    }
  }

  /** The miss of a combination is the miss of the convergent times |a - b*x|. */
  lemma CombinedMiss(input: real, p: int, p': int, q: int, q': int, x: real, a: int, b: int)
    requires Expansion(input, p, p', q, q', x)
    ensures Miss(input, a * p + b * p', a * q + b * q') == Miss(input, p, q) * Abs(a as real - b as real * x)
  {
    var e, e' := q as real * input - p as real, q' as real * input - p' as real;
    assert e' == -(x * e);
    assert (a * p + b * p') as real == a as real * p as real + b as real * p' as real;
    assert (a * q + b * q') as real == a as real * q as real + b as real * q' as real;
    var f := (a * q + b * q') as real * input - (a * p + b * p') as real;
    assert f == a as real * e + b as real * e';
    assert f == e * (a as real - b as real * x);
    AbsTimes(e, a as real - b as real * x);
  }

  lemma AbsTimes(x: real, y: real)
    ensures Abs(x * y) == Abs(x) * Abs(y)
  {
  }

  /** A combination whose denominator lies below the next convergent's has a on the far side of b*k. */
  lemma CombinationBelowNext(q: int, q': int, k: int, a: int, b: int)
    requires q >= 1 && q' >= 0 && k >= 1
    requires 1 <= a * q + b * q' < q * k + q'
    ensures b == 0 ==> a != 0
    ensures b > 0 ==> a < b * k
    ensures b < 0 ==> a >= 1
  {
    if b > 0 && a >= b * k {
      TimesMonotone(1, b, k);
      TimesMonotone(k, a, q);
      TimesMonotone(1, b, q');
    }
    if b < 0 && a < 1 {
      TimesMonotone(a, 0, q);
      TimesMonotone(b, 0, q');
    }
  }

  /** ... so the factor |a - b*x| is at least one. */
  lemma FactorAtLeastOne(x: real, a: int, b: int)
    requires x > 1.0
    requires b == 0 ==> a != 0
    requires b > 0 ==> a < b * x.Floor
    requires b < 0 ==> a >= 1
    ensures Abs(a as real - b as real * x) >= 1.0
  {
    var step := b as real * x;
    if b > 0 {
      var low := b * x.Floor;
      assert low as real <= step by {
        TimesMonotoneReal(x.Floor as real, x, b as real);
      }
      assert a <= low - 1;
    } else if b < 0 {
      assert step <= 0.0 by {
        TimesMonotoneReal(b as real, 0.0, x);
      }
    }
  }

  /** How a fraction below the next denominator misses, as a multiple of the convergent's miss. */
  lemma MissBelowNext(input: real, p: int, p': int, q: int, q': int, x: real, r: int, s: int) returns (factor: real)
    requires Expansion(input, p, p', q, q', x) && q >= 1 && q' >= 0 && x > 1.0
    requires 1 <= s < q * x.Floor + q'
    ensures factor >= 1.0 && Miss(input, r, s) == Miss(input, p, q) * factor
  {
    var a, b := Decompose(p, p', q, q', r, s);
    factor := Abs(a as real - b as real * x);
    CombinedMiss(input, p, p', q, q', x, a, b);
    FactorBelowNext(q, q', x, a, b, s);
  }

  lemma FactorBelowNext(q: int, q': int, x: real, a: int, b: int, s: int)
    requires q >= 1 && q' >= 0 && x > 1.0
    requires s == a * q + b * q' && 1 <= s < q * x.Floor + q'
    ensures Abs(a as real - b as real * x) >= 1.0
  {
    CombinationBelowNext(q, q', x.Floor, a, b);
    FactorAtLeastOne(x, a, b);
  }

  /** Best approximation of the second kind: below the next denominator nothing misses by less. */
  lemma BestBelowNext(input: real, p: int, p': int, q: int, q': int, x: real, r: int, s: int)
    requires Expansion(input, p, p', q, q', x) && q >= 1 && q' >= 0 && x > 1.0
    requires 1 <= s < q * x.Floor + q'
    ensures Miss(input, p, q) <= Miss(input, r, s)
  {
    var factor := MissBelowNext(input, p, p', q, q', x, r, s);
    TimesMonotoneReal(1.0, factor, Miss(input, p, q));
  }

  /** A next denominator beyond maxden makes the miss at most 1/(maxden+1). */
  lemma MissBound(input: real, maxden: int, p: int, p': int, q: int, q': int, x: real)
    requires Expansion(input, p, p', q, q', x) && q >= 1 && q' >= 0 && x > 1.0
    requires q * x.Floor + q' > maxden
    ensures Miss(input, p, q) * (maxden + 1) as real <= 1.0
  {
    MissTimesNext(input, p, p', q, q', x);
    TimesMonotoneReal(x.Floor as real, x, q as real);
    assert (q * x.Floor) as real == q as real * x.Floor as real;
    TimesMonotoneReal((maxden + 1) as real, q as real * x + q' as real, Miss(input, p, q));
  }

  /** The loop may stop as soon as the next denominator would exceed maxden. */
  lemma StopsWithAnswer(input: real, maxden: int, p: int, p': int, q: int, q': int, x: real)
    requires Expansion(input, p, p', q, q', x) && p >= 0 && 1 <= q <= maxden && q' >= 0 && x > 1.0
    requires q * x.Floor + q' > maxden
    ensures IsAnswer(input, maxden, p, q)
  {
    CoprimeFromDeterminant(p, p', q, q');
    MissBound(input, maxden, p, p', q, q', x);
    forall r: int, s: int | 1 <= s <= maxden ensures Miss(input, p, q) <= Miss(input, r, s) {
      BestBelowNext(input, p, p', q, q', x, r, s);
    }
  }

  /** The other exit: the term was exact, so the fraction is the input itself. */
  lemma ExactIsAnswer(input: real, maxden: int, p: int, p': int, q: int, q': int)
    requires p * q' - p' * q == 1 || p * q' - p' * q == -1
    requires p >= 0 && 1 <= q <= maxden
    requires input * q as real == p as real
    ensures IsAnswer(input, maxden, p, q)
  {
    CoprimeFromDeterminant(p, p', q, q');
  }

  /** One turn of the loop: append the term a = floor(x) to the expansion, giving p2/q2. */
  lemma AppendTerm(input: real, p: int, p': int, q: int, q': int, x: real, a: int, p2: int, q2: int)
    requires Expansion(input, p, p', q, q', x) && a == x.Floor
    requires p2 == p * a + p' && q2 == q * a + q'
    ensures p2 * q - p * q2 == 1 || p2 * q - p * q2 == -1
    ensures x == a as real ==> input * q2 as real == p2 as real
    ensures x != a as real ==> Expansion(input, p2, p, q2, q, 1.0 / (x - a as real))
  {
    assert p2 * q - p * q2 == -(p * q' - p' * q);
    assert p2 as real == p as real * a as real + p' as real;
    assert q2 as real == q as real * a as real + q' as real;
    if x != a as real {
      var y := 1.0 / (x - a as real);
      assert y * (x - a as real) == 1.0;
      assert q2 as real * y + q as real == y * (q as real * x + q' as real);
      assert p2 as real * y + p as real == y * (p as real * x + p' as real);
      assert input * (q2 as real * y + q as real) == y * (input * (q as real * x + q' as real));
    }
  }

  /** The numerator never exceeds input * maxden by more than one. */
  lemma NumeratorBound(input: real, maxden: int, num: int, den: int)
    requires 0.0 <= input && 1 <= maxden
    requires IsAnswer(input, maxden, num, den)
    ensures num as real <= input * maxden as real + 1.0
  {
    var m := Miss(input, num, den);
    if m > 1.0 {
      TimesMonotoneReal(1.0, (maxden + 1) as real, m);
      assert false;
    }
    assert den as real * input <= maxden as real * input by {
      TimesMonotoneReal(den as real, maxden as real, input);
    }
  }

  /** Exactly when the answer survives the narrowing to the int field. */
  lemma NarrowedExactlyWhen(input: real, maxden: int, num: int, den: int)
    requires 1 <= maxden && IsAnswer(input, maxden, num, den)
    ensures IsAnswer(input, maxden, ToInt32(num), den) <==> num < INT32_LIMIT
  {
    Narrowing(num);
    if IsAnswer(input, maxden, ToInt32(num), den) {
      AnswersClose(input, maxden, num, ToInt32(num), den);
    }
  }

  lemma Narrowing(num: int)
    ensures 0 <= num < INT32_LIMIT ==> ToInt32(num) == num
    ensures num >= INT32_LIMIT ==> num - ToInt32(num) >= 2
  {
  }

  /** In full: the int is what the long is modulo 2^32, within the range of an int. */
  lemma ToInt32Is(n: int)
    ensures -INT32_LIMIT <= ToInt32(n) < INT32_LIMIT
    ensures (n - ToInt32(n)) % (2 * INT32_LIMIT) == 0
  {
  }

  /** Two answers with the same denominator are next to each other. */
  lemma AnswersClose(input: real, maxden: int, num: int, num': int, den: int)
    requires 1 <= maxden && IsAnswer(input, maxden, num, den) && IsAnswer(input, maxden, num', den)
    ensures num - num' <= 1
  {
    HalfMiss(input, maxden, num, den);
    HalfMiss(input, maxden, num', den);
  }

  lemma HalfMiss(input: real, maxden: int, num: int, den: int)
    requires 1 <= maxden && IsAnswer(input, maxden, num, den)
    ensures Miss(input, num, den) <= 0.5
  {
    var m := Miss(input, num, den);
    TimesMonotoneReal(2.0, (maxden + 1) as real, m);
  }

  /** For a caller: an input whose product with maxden fits has room for every answer, one beyond the int for none. */
  lemma AnswerFits(input: real, maxden: int, num: int, den: int)
    requires 0.0 <= input && 1 <= maxden
    requires IsAnswer(input, maxden, num, den)
    ensures input * maxden as real + 1.0 < INT32_LIMIT as real ==> num < INT32_LIMIT
    ensures input >= (INT32_LIMIT + 1) as real ==> num >= INT32_LIMIT
  {
    NumeratorBound(input, maxden, num, den);
    HalfMiss(input, maxden, num, den);
    TimesMonotoneReal(1.0, den as real, input);
  }

  /** Without it the int overflows: here every answer is 2147483649/2, and the int that comes out is negative. */
  lemma NotAlwaysNarrowed(num: int, den: int)
    requires IsAnswer(1073741824.5, 2, num, den)
    ensures num == 2147483649 && den == 2 && ToInt32(num) == -2147483647
  {
    assert Miss(1073741824.5, 2147483649, 2) == 0.0;
    assert Miss(1073741824.5, num, den) <= 0.0;
  }

  /** The loop invariant of the search, after the given number of turns. */
  ghost predicate Searching(input: real, maxden: int, turns: int, p: int, p': int, q: int, q': int, x: real) {
    && turns >= 0
    && (turns == 0 ==> p == 1 && p' == 0 && q == 0 && q' == 1 && x == input)
    && (turns > 0 ==> q >= 1 && x > 1.0 && (q' == 0 ==> q == 1))
    && p >= 0 && p' >= 0 && 0 <= q <= maxden && 0 <= q' <= maxden
    && 0.0 <= x
    && Expansion(input, p, p', q, q', x)
  }

  /** num/den answers, and second is the other fraction that is in question as the nearest. */
  ghost predicate Settled(input: real, maxden: int, num: int, den: int, second: AVRational) {
    && IsAnswer(input, maxden, num, den)
    && 1 <= second.den <= maxden
    && (input * den as real == num as real || Brackets(input, maxden, num, den, second.num, second.den))
  }

  lemma NextTurn(input: real, maxden: int, turns: int, p: int, p': int, q: int, q': int, x: real,
                 a: int, p2: int, q2: int)
    requires Searching(input, maxden, turns, p, p', q, q', x) && a == x.Floor
    requires p2 == p * a + p' && q2 == q * a + q' <= maxden
    ensures q2 >= 1 && p2 >= 0
    ensures turns == 0 ==> p2 == input.Floor && q2 == 1
    ensures turns > 0 ==> q2 >= q + q'
    ensures x == a as real ==> Settled(input, maxden, p2, q2, AVRational(0, 1))
    ensures x != a as real ==> Searching(input, maxden, turns + 1, p2, p, q2, q, 1.0 / (x - a as real))
  {
    if turns > 0 {
      TimesMonotone(1, a, q);
    }
    TimesMonotone(0, a, p);
    AppendTerm(input, p, p', q, q', x, a, p2, q2);
    if x == a as real {
      ExactIsAnswer(input, maxden, p2, p, q2, q);
    } else {
      Reciprocal(x - a as real);
    }
  }

  lemma Reciprocal(f: real)
    requires 0.0 < f < 1.0
    ensures 1.0 / f > 1.0
  {
    var y := 1.0 / f;
    assert y * f == 1.0;
    if y <= 1.0 {
      TimesMonotoneReal(y, 1.0, f);
      assert false;
    }
  }

  /** The two exits by size: the next denominator exceeds maxden, or x itself exceeds 2^31-1. */
  lemma SearchStops(input: real, maxden: int, turns: int, p: int, p': int, q: int, q': int, x: real)
      returns (second: AVRational)
    requires maxden < REP_LIMIT
    requires Searching(input, maxden, turns, p, p', q, q', x) && turns > 0
    requires q * x.Floor + q' > maxden || x > REP_LIMIT as real
    ensures Settled(input, maxden, p, q, second)
  {
    if x > REP_LIMIT as real {
      TimesMonotone(1, q, x.Floor);
    }
    StopsWithAnswer(input, maxden, p, p', q, q', x);
    var p2, q2 := SecondCandidate(input, maxden, p, p', q, q', x);
    second := AVRational(p2, q2);
  }

  /**
   * The longs: whenever the loop's test is evaluated neither the term nor the product in it overflows 64 bits, and
   * whenever it succeeds the new numerator does not, however the turn ends, if input * maxden + 1 does not.
   */
  lemma LongsFit(input: real, maxden: int, turns: int, p: int, p': int, q: int, q': int, x: real)
    requires 1 <= maxden < REP_LIMIT && 0.0 <= input && input * maxden as real + 1.0 < INT64_LIMIT as real
    requires Searching(input, maxden, turns, p, p', q, q', x) && (turns > 0 ==> x <= REP_LIMIT as real)
    ensures x.Floor < INT64_LIMIT && q * x.Floor + q' < INT64_LIMIT
    ensures q * x.Floor + q' <= maxden ==> p * x.Floor <= p * x.Floor + p' < INT64_LIMIT
  {
    var a := x.Floor;
    var p2, q2 := p * a + p', q * a + q';
    if turns == 0 {
      TimesMonotoneReal(1.0, maxden as real, input);
      assert q * a == 0 && p * a == a;
    } else {
      ProductFits(q, a, q');
    }
    if q2 <= maxden {
      NextTurn(input, maxden, turns, p, p', q, q', x, a, p2, q2);
      NumeratorInRange(input, maxden, p2, p, q2, q, x, a);
    }
  }

  /** The new numerator, after an exact term or not. */
  lemma NumeratorInRange(input: real, maxden: int, p2: int, p: int, q2: int, q: int, x: real, a: int)
    requires 0.0 <= input && 1 <= q2 <= maxden && q >= 0 && a == x.Floor
    requires x == a as real ==> IsAnswer(input, maxden, p2, q2)
    requires x != a as real ==> Expansion(input, p2, p, q2, q, 1.0 / (x - a as real))
    ensures p2 as real <= input * maxden as real + 1.0
  {
    if x == a as real {
      NumeratorBound(input, maxden, p2, q2);
    } else {
      Reciprocal(x - a as real);
      MissAtMostOne(input, p2, p, q2, q, 1.0 / (x - a as real));
      NumeratorFits(input, maxden, p2, q2, input * maxden as real);
    }
  }

  lemma NumeratorFits(input: real, maxden: int, p: int, q: int, product: real)
    requires 0.0 <= input && q <= maxden && Miss(input, p, q) <= 1.0
    requires product == input * maxden as real
    ensures p as real <= product + 1.0
  {
    TimesMonotoneReal(q as real, maxden as real, input);
    AtLeastMinus(Offset(input, p, q), 1.0);
    assert q as real * input <= product;
  }

  lemma AtLeastMinus(x: real, m: real)
    requires Abs(x) <= m
    ensures -m <= x
  {
  }

  lemma MissAtMostOne(input: real, p: int, p': int, q: int, q': int, x: real)
    requires Expansion(input, p, p', q, q', x) && q >= 1 && q' >= 0 && x > 1.0
    ensures Miss(input, p, q) <= 1.0
  {
    MissTimesNext(input, p, p', q, q', x);
    TimesMonotoneReal(1.0, q as real, x);
    FactorAtMostOne(Miss(input, p, q), q as real * x + q' as real);
  }

  lemma FactorAtMostOne(m: real, next: real)
    requires m >= 0.0 && next >= 1.0 && m * next == 1.0
    ensures m <= 1.0
  {
    TimesMonotoneReal(1.0, next, m);
  }

  lemma ProductFits(q: int, k: int, q': int)
    requires 0 <= q < REP_LIMIT && 0 <= q' < REP_LIMIT && 0 <= k <= REP_LIMIT
    ensures q * k + q' < INT64_LIMIT
  {
    TimesMonotone(q, REP_LIMIT, k);
    TimesMonotone(k, REP_LIMIT, REP_LIMIT);
  }

  /** The input goes back as an int right after the first term: it is whole, or nearly so. */
  predicate FirstTermOnly(input: real) {
    input == input.Floor as real || 1.0 / (input - input.Floor as real) > REP_LIMIT as real
  }

  /** Only the early exit converts the input itself to an int, which must then hold it. */
  method Double2Rational(input: real, maxden: int) returns (r: AVRational, ghost num: int, ghost second: AVRational)
    requires 0.0 <= input && 1 <= maxden < REP_LIMIT
    requires FirstTermOnly(input) ==> input < INT32_LIMIT as real
    ensures Settled(input, maxden, num, r.den, second)
    ensures r.num == ToInt32(num)
    ensures IsAnswer(input, maxden, r.num, r.den) <==> num < INT32_LIMIT
    ensures 1 <= r.den <= maxden
    ensures input * maxden as real + 1.0 < INT32_LIMIT as real ==> IsAnswer(input, maxden, r.num, r.den)
  {
    var x := input;
    var m00, m01, m10, m11 := 1, 0, 0, 1;
    var loops := 0;
    var ai := x.Floor;
    ghost var found := false;
    second := AVRational(0, 1);
    while m10 * ai + m11 <= maxden
      invariant !found && ai == x.Floor && second == AVRational(0, 1)
      invariant Searching(input, maxden, loops, m00, m01, m10, m11, x)
      decreases if loops == 0 then 1 else 0, 2 * maxden - m10 - m11
    {
      NextTurn(input, maxden, loops, m00, m01, m10, m11, x, ai, m00 * ai + m01, m10 * ai + m11);
      m00, m01 := m00 * ai + m01, m00;
      m10, m11 := m10 * ai + m11, m10;
      if x == ai as real {
        found := true;
        break;
      }
      x := 1.0 / (x - ai as real);
      if x > REP_LIMIT as real {
        second := SearchStops(input, maxden, loops + 1, m00, m01, m10, m11, x);
        found := true;
        break;
      }
      loops := loops + 1;
      ai := x.Floor;
    }
    if !found {
      second := SearchStops(input, maxden, loops, m00, m01, m10, m11, x);
    }
    num := m00;
    AnswerFits(input, maxden, m00, m10);
    NarrowedExactlyWhen(input, maxden, m00, m10);
    r := if loops == 0 then AVRational(input.Floor, 1) else AVRational(ToInt32(m00), m10);
  }

  /**
   * The second candidate of the original algorithm is compiled out, so the answer need not be the
   * nearest fraction in range: for 5/16 and maxden 10 every answer is 1/3, yet 3/10 lies nearer.
   */
  lemma NotAlwaysNearest(num: int, den: int)
    requires IsAnswer(5.0 / 16.0, 10, num, den)
    ensures num == 1 && den == 3
    ensures Abs(5.0 / 16.0 - 3.0 / 10.0) < Abs(5.0 / 16.0 - num as real / den as real)
  {
    assert Miss(5.0 / 16.0, 1, 3) == 1.0 / 16.0;
    assert 16.0 * Miss(5.0 / 16.0, num, den) == Abs((5 * den - 16 * num) as real);
  }

  lemma MissIsScaledError(input: real, num: int, den: int)
    requires den >= 1
    ensures Miss(input, num, den) == den as real * Abs(input - num as real / den as real)
  {
    var f := num as real / den as real;
    assert f * den as real == num as real;
    AbsTimes(den as real, input - f);
    assert den as real * (input - f) == den as real * input - num as real;
  }

  // ---------- when the answer is also the nearest fraction ----------

  function Error(input: real, num: int, den: int): real
    requires den >= 1
  {
    Abs(input - num as real / den as real)
  }

  ghost predicate Nearest(input: real, maxden: int, num: int, den: int)
    requires den >= 1
  {
    forall r: int, s: int :: 1 <= s <= maxden ==> Error(input, num, den) <= Error(input, r, s)
  }

  /** p/q and p2/q2 are neighbours, with the input between them and no room for a fraction between them. */
  ghost predicate Brackets(input: real, maxden: int, p: int, q: int, p2: int, q2: int) {
    && 1 <= q <= maxden && 1 <= q2 <= maxden < q + q2
    && (p * q2 - p2 * q == 1 || p * q2 - p2 * q == -1)
    && (Offset(input, p, q) <= 0.0 <= Offset(input, p2, q2) || Offset(input, p2, q2) <= 0.0 <= Offset(input, p, q))
  }

  /** The candidate that is compiled out: the largest last term that keeps the denominator in range. */
  lemma SecondCandidate(input: real, maxden: int, p: int, p': int, q: int, q': int, x: real) returns (p2: int, q2: int)
    requires Expansion(input, p, p', q, q', x) && 1 <= q <= maxden && 0 <= q' <= maxden && x > 1.0
    requires q * x.Floor + q' > maxden && (q' == 0 ==> q == 1)
    ensures var ai := (maxden - q') / q; p2 == p * ai + p' && q2 == q * ai + q'
    ensures Brackets(input, maxden, p, q, p2, q2)
  {
    var ai := (maxden - q') / q;
    p2, q2 := p * ai + p', q * ai + q';
    LastTerm(maxden, q, q', x.Floor);
    Neighbours(p, p', q, q', ai);
    OppositeSides(input, p, p', q, q', x, ai);
  }

  lemma LastTerm(maxden: int, q: int, q': int, k: int)
    requires 1 <= q <= maxden && 0 <= q' <= maxden && (q' == 0 ==> q == 1) && q * k + q' > maxden
    ensures var ai := (maxden - q') / q;
      ai < k && 1 <= q * ai + q' <= maxden < q + (q * ai + q')
  {
    var ai := (maxden - q') / q;
    assert maxden - q' == q * ai + (maxden - q') % q;
    if ai >= k {
      TimesMonotone(k, ai, q);
    }
    if ai <= -1 {
      TimesMonotone(ai, -1, q);
    }
    TimesMonotone(0, if ai < 0 then 0 else ai, q);
  }

  lemma Neighbours(p: int, p': int, q: int, q': int, ai: int)
    ensures p * (q * ai + q') - (p * ai + p') * q == p * q' - p' * q
  {
  }

  lemma OppositeSides(input: real, p: int, p': int, q: int, q': int, x: real, ai: int)
    requires Expansion(input, p, p', q, q', x) && ai as real < x
    ensures Offset(input, p * ai + p', q * ai + q') == Offset(input, p, q) * (ai as real - x)
    ensures var e, e2 := Offset(input, p, q), Offset(input, p * ai + p', q * ai + q');
      e <= 0.0 <= e2 || e2 <= 0.0 <= e
  {
    var e := Offset(input, p, q);
    assert Offset(input, p', q') == -(x * e);
    assert (p * ai + p') as real == p as real * ai as real + p' as real;
    assert (q * ai + q') as real == q as real * ai as real + q' as real;
    if e >= 0.0 {
      TimesMonotoneReal(ai as real - x, 0.0, e);
    } else {
      TimesMonotoneReal(ai as real - x, 0.0, -e);
    }
  }

  /** Any fraction in range lies outside the bracket, and so no nearer than the end on its side. */
  lemma OutsideBracket(input: real, maxden: int, p: int, q: int, p2: int, q2: int, r: int, s: int)
    requires Brackets(input, maxden, p, q, p2, q2) && 1 <= s <= maxden
    ensures Error(input, p, q) <= Error(input, r, s) || Error(input, p2, q2) <= Error(input, r, s)
  {
    var a, b := Decompose(p, p2, q, q2, r, s);
    CombinedOffset(input, p, q, p2, q2, a, b);
    NotBoth(q, q2, a, b);
    if b <= 0 {
      OnOneSide(input, p, q, p2, q2, a, b, r, s);
    } else {
      OnOneSide(input, p2, q2, p, q, b, a, r, s);
    }
  }

  lemma OnOneSide(input: real, p: int, q: int, p2: int, q2: int, a: int, b: int, r: int, s: int)
    requires q >= 1 && q2 >= 1 && s >= 1 && a >= 1 && b <= 0 && s == a * q + b * q2
    requires var e, e2 := Offset(input, p, q), Offset(input, p2, q2);
      && (e <= 0.0 <= e2 || e2 <= 0.0 <= e)
      && Offset(input, r, s) == a as real * e + b as real * e2
    ensures Error(input, p, q) <= Error(input, r, s)
  {
    Beyond(Offset(input, p, q), Offset(input, p2, q2), a, b);
    TimesMonotone(b, 0, q2);
    NoNearer(input, p, q, r, s, a);
  }

  lemma CombinedOffset(input: real, p: int, q: int, p2: int, q2: int, a: int, b: int)
    ensures Offset(input, a * p + b * p2, a * q + b * q2)
      == a as real * Offset(input, p, q) + b as real * Offset(input, p2, q2)
  {
    assert (a * p + b * p2) as real == a as real * p as real + b as real * p2 as real;
    assert (a * q + b * q2) as real == a as real * q as real + b as real * q2 as real;
  }

  /** A denominator below q + q2 leaves only one of the two neighbours with a positive part. */
  lemma NotBoth(q: int, q2: int, a: int, b: int)
    requires q >= 1 && q2 >= 1 && 1 <= a * q + b * q2 < q + q2
    ensures (a >= 1 && b <= 0) || (a <= 0 && b >= 1)
  {
    if a >= 1 && b >= 1 {
      TimesMonotone(1, a, q);
      TimesMonotone(1, b, q2);
    }
    if a <= 0 && b <= 0 {
      TimesMonotone(a, 0, q);
      TimesMonotone(b, 0, q2);
    }
  }

  /** Two parts of one sign add up. */
  lemma Beyond(e: real, e2: real, a: int, b: int)
    requires (e <= 0.0 <= e2 || e2 <= 0.0 <= e) && a >= 1 && b <= 0
    ensures Abs(a as real * e + b as real * e2) >= a as real * Abs(e)
  {
    var x, y := a as real, -(b as real);
    if e2 <= 0.0 <= e {
      TimesMonotoneReal(0.0, e, x);
      TimesMonotoneReal(e2, 0.0, y);
    } else {
      TimesMonotoneReal(e, 0.0, x);
      TimesMonotoneReal(0.0, e2, y);
    }
  }

  lemma NoNearer(input: real, p: int, q: int, r: int, s: int, a: int)
    requires q >= 1 && s >= 1 && a >= 1 && s <= a * q
    requires Miss(input, r, s) >= a as real * Miss(input, p, q)
    ensures Error(input, p, q) <= Error(input, r, s)
  {
    MissIsScaledError(input, p, q);
    MissIsScaledError(input, r, s);
    NoNearerScaled(a, q, s, Error(input, p, q), Error(input, r, s), Miss(input, p, q), Miss(input, r, s));
  }

  lemma NoNearerScaled(a: int, q: int, s: int, e: real, e': real, m: real, m': real)
    requires a >= 1 && q >= 1 && 1 <= s <= a * q && e >= 0.0 && e' >= 0.0
    requires m == q as real * e && m' == s as real * e' && m' >= a as real * m
    ensures e <= e'
  {
    Regroup(a, q, e);
    ScaledLess(s as real, (a * q) as real, e, e');
  }

  lemma Regroup(a: int, q: int, e: real)
    ensures a as real * (q as real * e) == (a * q) as real * e
  {
    assert (a * q) as real == a as real * q as real;
  }

  lemma ScaledLess(s: real, x: real, e: real, e': real)
    requires 0.0 < s <= x && e' >= 0.0 && s * e' >= x * e
    ensures e <= e'
  {
    TimesMonotoneReal(s, x, e');
    if e' < e {
      TimesLess(e', e, x);
    }
  }

  lemma TimesLess(a: real, b: real, c: real)
    requires a < b && c > 0.0
    ensures a * c < b * c
  {
  }

  /** Exactly when the answer is the nearest fraction in range: it is exact, or the second candidate is no nearer. */
  lemma NearestExactlyWhen(input: real, maxden: int, num: int, den: int, num2: int, den2: int)
    requires Settled(input, maxden, num, den, AVRational(num2, den2))
    ensures Nearest(input, maxden, num, den)
      <==> input * den as real == num as real || Error(input, num, den) <= Error(input, num2, den2)
  {
    if input * den as real == num as real {
      MissIsScaledError(input, num, den);
      ZeroError(den as real, Error(input, num, den));
    } else if Error(input, num, den) <= Error(input, num2, den2) {
      forall r: int, s: int | 1 <= s <= maxden ensures Error(input, num, den) <= Error(input, r, s) {
        OutsideBracket(input, maxden, num, den, num2, den2, r, s);
      }
    }
  }

  lemma ZeroError(d: real, e: real)
    requires d >= 1.0 && e >= 0.0 && d * e == 0.0
    ensures e == 0.0
  {
  }
}
