/**
 * The Wilson score interval and the promotion gate that reads its lower end
 * (backend/app/checks/accuracy_stats.py, lines 47-90; backend/app/checks/
 * promotion.py, lines 25-79). Exact reals; the square root is a parameter.
 */
module Wilson {
  import opened Wrappers

  const Z_95: real := 1.959963984540054

  datatype Interval = Interval(low: real, high: real)

  datatype Error = ValueError

  /** The nonnegative square root. */
  ghost predicate IsSqrt(sqrt: real -> real) {
    forall x: real :: x >= 0.0 ==> sqrt(x) >= 0.0 && sqrt(x) * sqrt(x) == x
  }

  predicate ValidCounts(successes: int, n: int) {
    0 <= successes <= n
  }

  function Min(a: real, b: real): real {
    if b < a then b else a
  }

  function Max(a: real, b: real): real {
    if a < b then b else a
  }

  function Denominator(n: real, z: real): (d: real)
    requires n > 0.0
    ensures d >= 1.0
  {
    Quotient(z * z, n);
    1.0 + z * z / n
  }

  lemma Quotient(a: real, n: real)
    requires a >= 0.0 && n > 0.0
    ensures a / n >= 0.0
  {
  }

  function Center(p: real, n: real, z: real): real
    requires n > 0.0
  {
    (p + z * z / (2.0 * n)) / Denominator(n, z)
  }

  /** The radicand of the margin. */
  function Spread(p: real, n: real, z: real): real
    requires n > 0.0
  {
    p * (1.0 - p) / n + z * z / (4.0 * n * n)
  }

  function Margin(p: real, n: real, z: real, sqrt: real -> real): real
    requires n > 0.0
  {
    (z * sqrt(Spread(p, n, z))) / Denominator(n, z)
  }

  /** `wilson_interval`: no interval for no observations. */
  function WilsonInterval(successes: int, n: int, z: real, sqrt: real -> real): Result<Option<Interval>, Error> {
    if !ValidCounts(successes, n) || z <= 0.0 then Err(ValueError)
    else if n == 0 then Ok(None)
    else
      var p := successes as real / n as real;
      var center, margin := Center(p, n as real, z), Margin(p, n as real, z, sqrt);
      Ok(Some(Interval(Max(0.0, center - margin), Min(1.0, center + margin))))
  }

  // ----- The quadratic behind the interval, with w = z*z/n

  /** A proportion p, the weight w, and the root t that the margin is made of. */
  ghost predicate Score(p: real, w: real, t: real) {
    0.0 <= p <= 1.0 && w > 0.0 && t >= 0.0 && t * t == w * (p * (1.0 - p)) + w * w / 4.0
  }

  function C(p: real, w: real): real
    requires w > 0.0
  {
    (p + w / 2.0) / (1.0 + w)
  }

  function M(w: real, t: real): real
    requires w > 0.0
  {
    t / (1.0 + w)
  }

  /** How far x is from satisfying (p - x)^2 <= w x (1 - x). */
  function Gap(p: real, w: real, x: real): real {
    (p - x) * (p - x) - w * (x * (1.0 - x))
  }

  lemma GapExpands(p: real, w: real, x: real)
    ensures Gap(p, w, x) == (1.0 + w) * (x * x) - 2.0 * ((p + w / 2.0) * x) + p * p
  {
    assert (p - x) * (p - x) == p * p - 2.0 * (p * x) + x * x;
    assert w * (x * (1.0 - x)) == w * x - w * (x * x);
    assert (p + w / 2.0) * x == p * x + w / 2.0 * x;
  }

  lemma CentersSquared(p: real, w: real, t: real)
    requires Score(p, w, t)
    ensures (1.0 + w) * (C(p, w) * C(p, w) - M(w, t) * M(w, t)) == p * p
  {
    var d, b := 1.0 + w, p + w / 2.0;
    var c, m := C(p, w), M(w, t);
    assert d * c == b && d * m == t;
    assert b * b == p * p + p * w + w * w / 4.0;
    assert w * (p * (1.0 - p)) == w * p - w * (p * p);
    assert b * b - t * t == p * p + w * (p * p) == d * (p * p);
    Scale(d, c, m, p * p);
  }

  lemma Scale(d: real, c: real, m: real, q: real)
    requires d > 0.0 && (d * c) * (d * c) - (d * m) * (d * m) == d * q
    ensures d * (c * c - m * m) == q
  {
    assert (d * c) * (d * c) == d * (d * (c * c));
    assert (d * m) * (d * m) == d * (d * (m * m));
    assert d * (d * (c * c - m * m)) == d * q;
    Cancel(d, d * (c * c - m * m), q);
  }

  lemma Cancel(d: real, x: real, y: real)
    requires d > 0.0 && d * x == d * y
    ensures x == y
  {
    assert d * (x - y) == 0.0;
  }

  lemma GapIsDistance(p: real, w: real, t: real, x: real)
    requires Score(p, w, t)
    ensures Gap(p, w, x) == (1.0 + w) * ((x - C(p, w)) * (x - C(p, w)) - M(w, t) * M(w, t))
  {
    var d, b := 1.0 + w, p + w / 2.0;
    var c, m := C(p, w), M(w, t);
    GapExpands(p, w, x);
    CentersSquared(p, w, t);
    assert d * c == b;
    assert (x - c) * (x - c) == x * x - 2.0 * (c * x) + c * c;
    assert d * ((x - c) * (x - c) - m * m) == d * (x * x) - 2.0 * (d * (c * x)) + d * (c * c - m * m);
    assert d * (c * x) == b * x;
  }

  lemma SquareCompare(a: real, m: real)
    requires m >= 0.0
    ensures a * a <= m * m <==> -m <= a <= m
  {
    if a < 0.0 {
      assert (-a) * (-a) == a * a;
      SquareCompareUp(-a, m);
    } else {
      SquareCompareUp(a, m);
    }
  }

  lemma SquareCompareUp(a: real, m: real)
    requires m >= 0.0 && a >= 0.0
    ensures a * a <= m * m <==> a <= m
  {
    if a <= m {
      Nonnegative(m - a, m + a);
      DifferenceOfSquares(m, a);
    } else {
      Positive(a - m, a + m);
      DifferenceOfSquares(a, m);
    }
  }

  lemma DifferenceOfSquares(a: real, b: real)
    ensures (a - b) * (a + b) == a * a - b * b
  {
  }

  lemma Positive(a: real, b: real)
    requires a > 0.0 && b > 0.0
    ensures a * b > 0.0
  {
  }

  lemma Nonnegative(a: real, b: real)
    requires a >= 0.0 && b >= 0.0
    ensures a * b >= 0.0
  {
  }

  lemma SignOfProduct(d: real, x: real)
    requires d > 0.0
    ensures d * x <= 0.0 <==> x <= 0.0
    ensures d * x >= 0.0 <==> x >= 0.0
  {
  }

  /** The inversion: x is inside exactly when its own score test does not reject p. */
  lemma InsideExactlyWhenNotRejected(p: real, w: real, t: real, x: real)
    requires Score(p, w, t)
    ensures Gap(p, w, x) <= 0.0 <==> C(p, w) - M(w, t) <= x <= C(p, w) + M(w, t)
  {
    var c, m := C(p, w), M(w, t);
    GapIsDistance(p, w, t, x);
    SignOfProduct(1.0 + w, (x - c) * (x - c) - m * m);
    SquareCompare(x - c, m);
  }

  /** The ends lie in [0, 1] on either side of p, so neither clamp changes anything. */
  lemma EndsAroundP(p: real, w: real, t: real)
    requires Score(p, w, t)
    ensures 0.0 <= C(p, w) - M(w, t) <= p <= C(p, w) + M(w, t) <= 1.0
  {
    assert Gap(p, w, p) <= 0.0 by {
      Nonnegative(p, 1.0 - p);
      Nonnegative(w, p * (1.0 - p));
    }
    InsideExactlyWhenNotRejected(p, w, t, p);
    LowEnd(p, w, t);
    HighEnd(p, w, t);
  }

  lemma LowEnd(p: real, w: real, t: real)
    requires Score(p, w, t)
    ensures M(w, t) <= C(p, w)
  {
    CenterInUnit(p, w);
    CentersSquared(p, w, t);
    Nonnegative(p, p);
    EndFromSquare(1.0 + w, C(p, w), M(w, t));
  }

  lemma HighEnd(p: real, w: real, t: real)
    requires Score(p, w, t)
    ensures M(w, t) <= 1.0 - C(p, w)
  {
    CenterInUnit(p, w);
    GapIsDistance(p, w, t, 1.0);
    assert Gap(p, w, 1.0) == (1.0 - p) * (1.0 - p) by {
      assert 1.0 * (1.0 - 1.0) == 0.0;
      assert (p - 1.0) * (p - 1.0) == (1.0 - p) * (1.0 - p);
    }
    Nonnegative(1.0 - p, 1.0 - p);
    EndFromSquare(1.0 + w, 1.0 - C(p, w), M(w, t));
  }

  lemma CenterInUnit(p: real, w: real)
    requires 0.0 <= p <= 1.0 && w > 0.0
    ensures 0.0 <= C(p, w) <= 1.0
  {
    var c := C(p, w);
    assert (1.0 + w) * c == p + w / 2.0;
    SignOfProduct(1.0 + w, c);
    assert (1.0 + w) * (c - 1.0) == p - 1.0 - w / 2.0;
    SignOfProduct(1.0 + w, c - 1.0);
  }

  /** A margin whose square is at most the distance's square does not reach across it. */
  lemma EndFromSquare(d: real, a: real, m: real)
    requires d > 0.0 && m >= 0.0 && d * (a * a - m * m) >= 0.0
    ensures (a >= 0.0 ==> m <= a) && (a <= 0.0 ==> m <= -a)
  {
    SignOfProduct(d, a * a - m * m);
    if a >= 0.0 {
      SquareCompare(m, a);
    } else {
      assert (-a) * (-a) == a * a;
      SquareCompare(m, -a);
    }
  }

  // ----- The interval as the program computes it

  /** Divisions by n are multiplications by its inverse r. */
  lemma Inverse(x: real, n: real, r: real)
    requires n > 0.0 && n * r == 1.0
    ensures x / n == x * r
  {
    assert (x / n) * n == x;
    assert (x * r) * n == x * (n * r);
    Cancel(n, x / n, x * r);
  }

  /** The weight z*z/n, and the radicand of the margin, through r = 1/n. */
  lemma SpreadByInverse(p: real, n: real, z: real, a: real, r: real)
    requires n > 0.0 && n * r == 1.0 && a == z * z
    ensures Spread(p, n, z) == p * (1.0 - p) * r + a * (r * r / 4.0)
    ensures a / n == a * r && a / (2.0 * n) == a * r / 2.0
  {
    Inverse(a, n, r);
    Inverse(p * (1.0 - p), n, r);
    Inverse(a, 2.0 * n, r / 2.0);
    FourSquares(n, r);
    Inverse(a, 4.0 * n * n, r * r / 4.0);
  }

  lemma FourSquares(n: real, r: real)
    requires n > 0.0 && n * r == 1.0
    ensures 4.0 * n * n > 0.0 && (4.0 * n * n) * (r * r / 4.0) == 1.0
  {
    Positive(n, n);
    assert (4.0 * n * n) * (r * r / 4.0) == (n * r) * (n * r);
  }

  lemma InversePositive(n: real) returns (r: real)
    requires n > 0.0
    ensures r > 0.0 && n * r == 1.0
  {
    r := 1.0 / n;
  }

  lemma ScoreOfInputs(p: real, n: real, z: real, s: real)
    requires 0.0 <= p <= 1.0 && n > 0.0 && z > 0.0 && s >= 0.0 && s * s == Spread(p, n, z)
    ensures z * z / n > 0.0 && Score(p, z * z / n, z * s)
    ensures z * z / (2.0 * n) == z * z / n / 2.0
  {
    var a := Product(z, z);
    ScoreOfSquare(p, n, z, s, a);
  }

  lemma ScoreOfSquare(p: real, n: real, z: real, s: real, a: real)
    requires 0.0 <= p <= 1.0 && n > 0.0 && z > 0.0 && s >= 0.0 && s * s == Spread(p, n, z)
    requires a == z * z && a > 0.0
    ensures a / n > 0.0 && Score(p, a / n, z * s)
    ensures a / (2.0 * n) == a / n / 2.0
  {
    hide Spread;
    var r := InversePositive(n);
    SpreadByInverse(p, n, z, a, r);
    SquareOfRoot(z, s, a, p * (1.0 - p), r);
    Nonnegative(z, s);
    Positive(a, r);
  }

  lemma Product(a: real, b: real) returns (c: real)
    requires a > 0.0 && b > 0.0
    ensures c == a * b && c > 0.0
  {
    c := a * b;
  }

  lemma SquareOfRoot(z: real, s: real, a: real, q: real, r: real)
    requires a == z * z && s * s == q * r + a * (r * r / 4.0)
    ensures (z * s) * (z * s) == (a * r) * q + (a * r) * (a * r) / 4.0
  {
    assert (z * s) * (z * s) == a * (s * s);
    assert a * (q * r + a * (r * r / 4.0)) == a * (q * r) + a * (a * (r * r / 4.0));
    assert a * (q * r) == (a * r) * q;
    assert a * (a * (r * r / 4.0)) == (a * r) * (a * r) / 4.0;
  }

  lemma Proportion(k: int, n: int)
    requires 0 <= k <= n && n > 0
    ensures 0.0 <= k as real / n as real <= 1.0
  {
    var p := k as real / n as real;
    assert p * n as real == k as real;
    SignOfProduct(n as real, p);
    assert n as real * (p - 1.0) == k as real - n as real;
    SignOfProduct(n as real, p - 1.0);
  }

  /** The interval without its clamps is the one of the quadratic. */
  lemma IntervalOf(k: int, n: int, z: real, sqrt: real -> real) returns (w: real, t: real)
    requires IsSqrt(sqrt) && ValidCounts(k, n) && n > 0 && z > 0.0
    ensures w == z * z / n as real && w > 0.0 && Score(k as real / n as real, w, t)
    ensures var p := k as real / n as real;
            WilsonInterval(k, n, z, sqrt) == Ok(Some(Interval(C(p, w) - M(w, t), C(p, w) + M(w, t))))
  {
    var p := k as real / n as real;
    Proportion(k, n);
    SpreadNonnegative(p, n as real, z);
    var s := sqrt(Spread(p, n as real, z));
    ScoreOfInputs(p, n as real, z, s);
    w, t := z * z / n as real, z * s;
    EndsAroundP(p, w, t);
    assert Denominator(n as real, z) == 1.0 + w;
    assert Center(p, n as real, z) == C(p, w);
    assert Margin(p, n as real, z, sqrt) == M(w, t);
  }

  lemma SpreadNonnegative(p: real, n: real, z: real)
    requires 0.0 <= p <= 1.0 && n > 0.0
    ensures Spread(p, n, z) >= 0.0
  {
    Nonnegative(p, 1.0 - p);
    Quotient(p * (1.0 - p), n);
    var r := InversePositive(n);
    FourSquares(n, r);
    Quotient(z * z, 4.0 * n * n);
  }

  /** The score test that the interval inverts: x is not rejected by k successes in n. */
  predicate NotRejected(k: int, n: int, z: real, x: real)
    requires n > 0
  {
    var p := k as real / n as real;
    n as real * ((p - x) * (p - x)) <= z * z * (x * (1.0 - x))
  }

  lemma NotRejectedIsGap(p: real, n: real, a: real, x: real)
    requires n > 0.0
    ensures n * ((p - x) * (p - x)) <= a * (x * (1.0 - x)) <==> Gap(p, a / n, x) <= 0.0
  {
    var w, y := a / n, x * (1.0 - x);
    assert n * w == a;
    assert n * (w * y) == a * y by {
      assert n * (w * y) == (n * w) * y;
    }
    assert n * Gap(p, w, x) == n * ((p - x) * (p - x)) - n * (w * y);
    SignOfProduct(n, Gap(p, w, x));
  }

  /**
   * Wilson inversion: x lies in the interval exactly when the score test
   * with quantile z does not reject it; the interval is inside [0, 1],
   * around the observed proportion.
   */
  lemma IntervalInvertsScoreTest(k: int, n: int, z: real, sqrt: real -> real, x: real)
    requires IsSqrt(sqrt) && ValidCounts(k, n) && n > 0 && z > 0.0
    ensures WilsonInterval(k, n, z, sqrt).Ok? && WilsonInterval(k, n, z, sqrt).value.Some?
    ensures var i := WilsonInterval(k, n, z, sqrt).value.value;
            && (i.low <= x <= i.high <==> NotRejected(k, n, z, x))
            && 0.0 <= i.low <= k as real / n as real <= i.high <= 1.0
  {
    hide Gap, C, M, Score, Spread, Denominator, Center, Margin, WilsonInterval;
    var p := k as real / n as real;
    var w, t := IntervalOf(k, n, z, sqrt);
    InsideExactlyWhenNotRejected(p, w, t, x);
    EndsAroundP(p, w, t);
    NotRejectedIsGap(p, n as real, z * z, x);
  }

  function Low(k: int, n: int, z: real, sqrt: real -> real): real
    requires ValidCounts(k, n) && n > 0 && z > 0.0
  {
    WilsonInterval(k, n, z, sqrt).value.value.low
  }

  /** Further from x means harder to accept x. */
  lemma CloserIsNotRejected(a: int, b: int, n: int, z: real, x: real)
    requires 0 <= a <= b <= n && n > 0 && x <= a as real / n as real && NotRejected(b, n, z, x)
    ensures NotRejected(a, n, z, x)
  {
    var p, q, m := a as real / n as real, b as real / n as real, n as real;
    QuotientGrows(a as real, b as real, m);
    SquareGrows(p - x, q - x);
    ProductGrows(m, (p - x) * (p - x), (q - x) * (q - x));
  }

  lemma QuotientGrows(a: real, b: real, n: real)
    requires n > 0.0 && a <= b
    ensures a / n <= b / n
  {
    assert n * (b / n - a / n) == b - a;
    SignOfProduct(n, b / n - a / n);
  }

  lemma ProductGrows(n: real, a: real, b: real)
    requires n >= 0.0 && a <= b
    ensures n * a <= n * b
  {
    Nonnegative(n, b - a);
  }

  lemma SquareGrows(a: real, b: real)
    requires 0.0 <= a <= b
    ensures a * a <= b * b
  {
    Nonnegative(b - a, b + a);
    DifferenceOfSquares(b, a);
  }

  /** More successes never lower the lower end. */
  lemma LowIsMonotone(a: int, b: int, n: int, z: real, sqrt: real -> real)
    requires IsSqrt(sqrt) && 0 <= a <= b <= n && n > 0 && z > 0.0
    ensures Low(a, n, z, sqrt) <= Low(b, n, z, sqrt)
  {
    hide NotRejected, WilsonInterval;
    var x := Low(b, n, z, sqrt);
    IntervalInvertsScoreTest(a, n, z, sqrt, x);
    IntervalInvertsScoreTest(b, n, z, sqrt, x);
    if x < Low(a, n, z, sqrt) {
      CloserIsNotRejected(a, b, n, z, x);
    }
  }

  /** The best a sample of n can do: its lower end is n / (n + z^2). */
  lemma PerfectLow(n: int, z: real, sqrt: real -> real)
    requires IsSqrt(sqrt) && n > 0 && z > 0.0
    ensures Low(n, n, z, sqrt) * (n as real + z * z) == n as real
  {
    hide WilsonInterval, C, M, Spread;
    var w, t := IntervalOf(n, n, z, sqrt);
    assert n as real / n as real == 1.0;
    PerfectEnds(w, t);
    ShareOfWhole(C(1.0, w) - M(w, t), n as real, z * z, w);
  }

  lemma PerfectEnds(w: real, t: real)
    requires Score(1.0, w, t)
    ensures (1.0 + w) * (C(1.0, w) - M(w, t)) == 1.0
  {
    assert t * t == w / 2.0 * (w / 2.0);
    SameSquare(t, w / 2.0);
    assert (1.0 + w) * C(1.0, w) == 1.0 + w / 2.0;
    assert (1.0 + w) * M(w, t) == w / 2.0;
  }

  lemma ShareOfWhole(low: real, n: real, a: real, w: real)
    requires n > 0.0 && w == a / n && (1.0 + w) * low == 1.0
    ensures low * (n + a) == n
  {
    assert n * w == a;
    assert n * ((1.0 + w) * low) == low * (n + n * w);
  }

  lemma SameSquare(a: real, b: real)
    requires a >= 0.0 && b >= 0.0 && a * a == b * b
    ensures a == b
  {
    DifferenceOfSquares(a, b);
    if a < b {
      Positive(b - a, b + a);
      DifferenceOfSquares(b, a);
    } else if a > b {
      Positive(a - b, a + b);
    }
  }
}
