/**
 * Chance-corrected agreement of a judge with a human
 * (backend/app/checks/accuracy_stats.py, lines 203-309, 333-356 and 393-445).
 * Exact reals; the square root is a parameter; "close to 1" is "equal to 1".
 */
module Agreement {
  import opened Wrappers
  import Wilson

  datatype Matrix = Matrix(tp: nat, fp: nat, tn: nat, fn: nat)

  function Total(m: Matrix): nat {
    m.tp + m.fp + m.tn + m.fn
  }

  /** observed, minus what chance gives, as a share of what chance leaves open */
  function Corrected(observed: real, chance: real): Option<real> {
    if chance == 1.0 then None else Some((observed - chance) / (1.0 - chance))
  }

  function Observed(m: Matrix): real
    requires Total(m) > 0
  {
    (m.tp + m.tn) as real / Total(m) as real
  }

  /** The chance term from the product of the marginals. */
  function KappaChance(m: Matrix): real
    requires Total(m) > 0
  {
    var n := Total(m) as real;
    ((m.tp + m.fn) as real / n) * ((m.tp + m.fp) as real / n)
    + ((m.tn + m.fp) as real / n) * ((m.tn + m.fn) as real / n)
  }

  /** `cohens_kappa` */
  function CohensKappa(m: Matrix): Option<real> {
    if Total(m) == 0 then None else Corrected(Observed(m), KappaChance(m))
  }

  /** The mean marginal. */
  function MeanRate(m: Matrix): real
    requires Total(m) > 0
  {
    var n := Total(m) as real;
    ((m.tp + m.fn) as real / n + (m.tp + m.fp) as real / n) / 2.0
  }

  /** `gwet_ac1` */
  function GwetAc1(m: Matrix): Option<real> {
    if Total(m) == 0 then None
    else Corrected(Observed(m), MeanChance(MeanRate(m)))
  }

  /** The chance term from the mean marginal. */
  function MeanChance(rate: real): real {
    2.0 * rate * (1.0 - rate)
  }

  function Margins(m: Matrix): nat {
    (m.tp + m.fp) * (m.tp + m.fn) * ((m.tn + m.fp) * (m.tn + m.fn))
  }

  /** The sign all the coefficients share: tp tn - fp fn. */
  function Lean(m: Matrix): int {
    m.tp * m.tn - m.fp * m.fn
  }

  /** `matthews_corrcoef`: undefined when a margin is empty. */
  function Matthews(m: Matrix, sqrt: real -> real): Option<real> {
    var denominator := sqrt(Margins(m) as real);
    if denominator == 0.0 then None else Some(Lean(m) as real / denominator)
  }

  // ----- Kappa over whole numbers

  /** What chance leaves open, times n squared. */
  function Open(m: Matrix): nat {
    (m.tp + m.fn) * (m.tn + m.fn) + (m.tp + m.fp) * (m.tn + m.fp)
  }

  lemma OpenIdentity(m: Matrix)
    ensures Total(m) * Total(m)
         == Open(m) + (m.tp + m.fn) * (m.tp + m.fp) + (m.tn + m.fp) * (m.tn + m.fn)
    ensures Total(m) * (m.tp + m.tn)
         == 2 * Lean(m) + (m.tp + m.fn) * (m.tp + m.fp) + (m.tn + m.fp) * (m.tn + m.fn)
  {
    var Matrix(a, b, c, d) := m;
    calc {
      (a + b + c + d) * (a + b + c + d);
      a * a + b * b + c * c + d * d + 2 * (a * b) + 2 * (a * c) + 2 * (a * d) + 2 * (b * c) + 2 * (b * d) + 2 * (c * d);
      ((a + d) * (c + d) + (a + b) * (c + b)) + (a + d) * (a + b) + (c + b) * (c + d);
    }
    calc {
      (a + b + c + d) * (a + c);
      a * a + c * c + 2 * (a * c) + a * b + b * c + a * d + c * d;
      2 * (a * c - b * d) + (a + d) * (a + b) + (c + b) * (c + d);
    }
  }

  lemma Expand(a: int, b: int, c: int, d: int)
    ensures (a + b) * (c + d) == a * c + a * d + b * c + b * d
  {
  }

  lemma TwiceProduct(a: int, b: int)
    ensures 2 * (a * b) <= a * a + b * b
  {
    assert (a - b) * (a - b) == a * a - 2 * (a * b) + b * b;
  }

  lemma LeanWithinOpen(m: Matrix)
    ensures -(Open(m) as int) <= 2 * Lean(m) <= Open(m)
  {
    var Matrix(a, b, c, d) := m;
    Expand(a, d, c, d);
    Expand(a, b, c, b);
    TwiceProduct(b, d);
    NonnegativeProducts(a, b, c, d);
  }

  lemma NonnegativeProducts(a: nat, b: nat, c: nat, d: nat)
    ensures a * b >= 0 && a * c >= 0 && a * d >= 0 && b * c >= 0 && b * d >= 0 && c * d >= 0
    ensures d * c == c * d && b * a == a * b && d * d >= 0 && b * b >= 0 && c * b == b * c
  {
  }

  /** The fractions of the program, over n squared. */
  lemma FractionsOverSquare(m: Matrix)
    requires Total(m) > 0
    ensures var s := (Total(m) * Total(m)) as real;
            && s > 0.0
            && (1.0 - KappaChance(m)) * s == Open(m) as real
            && (Observed(m) - KappaChance(m)) * s == (2 * Lean(m)) as real
  {
    hide Open, Lean, KappaChance, Observed;
    OpenIdentity(m);
    PositiveSquare(Total(m));
    ChanceOverSquare(m);
    ObservedOverSquare(m);
    Combine(Observed(m), KappaChance(m), (Total(m) * Total(m)) as real);
  }

  lemma ChanceOverSquare(m: Matrix)
    requires Total(m) > 0
    ensures KappaChance(m) * ((Total(m) * Total(m)) as real)
         == ((m.tp + m.fn) * (m.tp + m.fp) + (m.tn + m.fp) * (m.tn + m.fn)) as real
  {
    hide Total;
    var t := Total(m);
    OverSquare(m.tp + m.fn, m.tp + m.fp, t);
    OverSquare(m.tn + m.fp, m.tn + m.fn, t);
    var p := ((m.tp + m.fn) as real / t as real) * ((m.tp + m.fp) as real / t as real);
    var q := ((m.tn + m.fp) as real / t as real) * ((m.tn + m.fn) as real / t as real);
    Distribute(p, q, (t * t) as real);
  }

  lemma ObservedOverSquare(m: Matrix)
    requires Total(m) > 0
    ensures Observed(m) * ((Total(m) * Total(m)) as real) == (Total(m) * (m.tp + m.tn)) as real
  {
    var t, x := Total(m), m.tp + m.tn;
    WholeOver(x, t);
  }

  lemma WholeOver(x: nat, t: nat)
    requires t > 0
    ensures x as real / t as real * ((t * t) as real) == (t * x) as real
  {
    var p, n := x as real / t as real, t as real;
    assert p * n == x as real;
    assert (t * t) as real == n * n;
    assert p * (n * n) == (p * n) * n;
  }

  lemma Distribute(p: real, q: real, s: real)
    ensures (p + q) * s == p * s + q * s
  {
  }

  lemma PositiveSquare(t: nat)
    requires t > 0
    ensures t * t > 0
  {
  }

  lemma Combine(po: real, pe: real, s: real)
    ensures (1.0 - pe) * s == s - pe * s
    ensures (po - pe) * s == po * s - pe * s
  {
  }

  lemma OverSquare(a: nat, b: nat, n: nat)
    requires n > 0
    ensures ((a as real / n as real) * (b as real / n as real)) * ((n * n) as real) == (a * b) as real
  {
    var p, q, r := a as real / n as real, b as real / n as real, n as real;
    assert p * r == a as real && q * r == b as real;
    assert (p * q) * (r * r) == (p * r) * (q * r);
  }

  /** Kappa is 2 (tp tn - fp fn) over what chance leaves open, and undefined exactly when that is nothing. */
  lemma KappaOverOpen(m: Matrix)
    ensures CohensKappa(m).None? <==> Open(m) == 0
    ensures CohensKappa(m).Some? ==> CohensKappa(m).value * Open(m) as real == (2 * Lean(m)) as real
  {
    hide Open, Lean, Observed, KappaChance, Corrected;
    if Total(m) == 0 {
      NothingOpen(m);
    } else {
      KappaOverOpenOf(m);
    }
  }

  lemma NothingOpen(m: Matrix)
    requires Total(m) == 0
    ensures Open(m) == 0
  {
    hide Open;
    ZeroOpen();
    assert m == Matrix(0, 0, 0, 0);
  }

  lemma ZeroOpen()
    ensures Open(Matrix(0, 0, 0, 0)) == 0
  {
  }

  lemma KappaOverOpenOf(m: Matrix)
    requires Total(m) > 0
    ensures CohensKappa(m).None? <==> Open(m) == 0
    ensures CohensKappa(m).Some? ==> CohensKappa(m).value * Open(m) as real == (2 * Lean(m)) as real
  {
    hide Open, Lean, Observed, KappaChance, Corrected;
    FractionsOverSquare(m);
    KappaQuotient(Observed(m), KappaChance(m), (Total(m) * Total(m)) as real, Open(m) as real, (2 * Lean(m)) as real);
  }

  lemma KappaQuotient(po: real, pe: real, s: real, open: real, lean: real)
    requires s > 0.0 && (1.0 - pe) * s == open && (po - pe) * s == lean
    ensures Corrected(po, pe).None? <==> open == 0.0
    ensures Corrected(po, pe).Some? ==> Corrected(po, pe).value * open == lean
  {
    if pe != 1.0 {
      var k := (po - pe) / (1.0 - pe);
      assert k * (1.0 - pe) == po - pe;
      assert k * open == (k * (1.0 - pe)) * s;
      if open == 0.0 {
        Wilson.Cancel(s, 1.0 - pe, 0.0);
      }
    }
  }

  // ----- Ranges and signs

  lemma WithinOne(x: real, d: real, y: real)
    requires d > 0.0 && x * d == y && -d <= y <= d
    ensures -1.0 <= x <= 1.0
    ensures (x > 0.0 <==> y > 0.0) && (x < 0.0 <==> y < 0.0)
  {
    Wilson.SignOfProduct(d, x);
    Wilson.SignOfProduct(d, x - 1.0);
    assert d * (x - 1.0) == y - d;
    Wilson.SignOfProduct(d, x + 1.0);
    assert d * (x + 1.0) == y + d;
  }

  /** Kappa lies in [-1, 1] and has the sign of tp tn - fp fn. */
  lemma KappaRange(m: Matrix)
    requires CohensKappa(m).Some?
    ensures -1.0 <= CohensKappa(m).value <= 1.0
    ensures CohensKappa(m).value > 0.0 <==> Lean(m) > 0
    ensures CohensKappa(m).value < 0.0 <==> Lean(m) < 0
  {
    hide Open, Lean, CohensKappa;
    KappaOverOpen(m);
    LeanWithinOpen(m);
    WithinOne(CohensKappa(m).value, Open(m) as real, (2 * Lean(m)) as real);
  }

  lemma LeanWithinMargins(m: Matrix)
    ensures Lean(m) * Lean(m) <= Margins(m)
  {
    var Matrix(a, b, c, d) := m;
    var first, second := (a + b) * (c + d), (a + d) * (c + b);
    Expand(a, b, c, d);
    Expand(a, d, c, b);
    NonnegativeProducts(a, b, c, d);
    Reorder(a + b, a + d, c + b, c + d);
    DifferenceBelowSum(a * c, b * d, first, second);
  }

  lemma Reorder(p: nat, q: nat, r: nat, s: nat)
    ensures p * q * (r * s) == (p * s) * (q * r)
  {
  }

  lemma DifferenceBelowSum(x: nat, y: nat, first: nat, second: nat)
    requires x + y <= first && x + y <= second
    ensures (x - y) * (x - y) <= first * second
  {
    ProductAtLeast(first, second, x + y);
    assert (x + y) * (x + y) - (x - y) * (x - y) == 4 * (x * y);
    assert x * y >= 0;
  }

  lemma ProductAtLeast(a: nat, b: nat, c: nat)
    requires c <= a && c <= b
    ensures c * c <= a * b
  {
    assert c * c <= c * b <= a * b;
  }

  /** The coefficient lies in [-1, 1] and has the sign of tp tn - fp fn. */
  lemma MatthewsRange(m: Matrix, sqrt: real -> real)
    requires Wilson.IsSqrt(sqrt) && Matthews(m, sqrt).Some?
    ensures -1.0 <= Matthews(m, sqrt).value <= 1.0
    ensures Matthews(m, sqrt).value > 0.0 <==> Lean(m) > 0
    ensures Matthews(m, sqrt).value < 0.0 <==> Lean(m) < 0
  {
    hide Lean, Margins;
    LeanWithinMargins(m);
    Fits(Lean(m), Margins(m), sqrt(Margins(m) as real));
  }

  lemma Fits(lean: int, margins: nat, d: real)
    requires d >= 0.0 && d != 0.0 && d * d == margins as real && lean * lean <= margins
    ensures -1.0 <= lean as real / d <= 1.0
    ensures (lean as real / d > 0.0 <==> lean > 0) && (lean as real / d < 0.0 <==> lean < 0)
  {
    var y := lean as real;
    assert y * y == (lean * lean) as real;
    Wilson.SquareCompare(y, d);
    var x := y / d;
    assert x * d == y;
    WithinOne(x, d, y);
  }

  /** MCC is undefined exactly when some row or column is empty; an undefined kappa is such a case. */
  lemma UndefinedTogether(m: Matrix, sqrt: real -> real)
    requires Wilson.IsSqrt(sqrt)
    ensures Matthews(m, sqrt).None? <==>
      m.tp + m.fp == 0 || m.tp + m.fn == 0 || m.tn + m.fp == 0 || m.tn + m.fn == 0
    ensures CohensKappa(m).None? ==> Matthews(m, sqrt).None?
    ensures CohensKappa(m).Some? && Matthews(m, sqrt).Some? ==>
      (CohensKappa(m).value > 0.0 <==> Matthews(m, sqrt).value > 0.0)
      && (CohensKappa(m).value < 0.0 <==> Matthews(m, sqrt).value < 0.0)
  {
    hide Lean, Open, CohensKappa, Margins;
    RootOfZero(sqrt(Margins(m) as real), Margins(m) as real);
    MarginsEmpty(m);
    KappaOverOpen(m);
    if CohensKappa(m).Some? && Matthews(m, sqrt).Some? {
      KappaRange(m);
      MatthewsRange(m, sqrt);
    }
  }

  lemma RootOfZero(d: real, x: real)
    requires d >= 0.0 && d * d == x
    ensures d == 0.0 <==> x == 0.0
  {
    if d > 0.0 {
      var c := Wilson.Product(d, d);
    }
  }

  lemma MarginsEmpty(m: Matrix)
    ensures Margins(m) == 0 <==> m.tp + m.fp == 0 || m.tp + m.fn == 0 || m.tn + m.fp == 0 || m.tn + m.fn == 0
    ensures Open(m) == 0 ==> Margins(m) == 0
  {
    var p, q, r, s := m.tp + m.fp, m.tp + m.fn, m.tn + m.fp, m.tn + m.fn;
    ZeroProduct(p, q);
    ZeroProduct(r, s);
    ZeroProduct(p * q, r * s);
    ZeroProduct(q, s);
    ZeroProduct(p, r);
  }

  lemma ZeroProduct(a: nat, b: nat)
    ensures a * b == 0 <==> a == 0 || b == 0
  {
  }

  /** AC1's chance term is at most one half, so the coefficient is defined for any data, within [-1, 1]. */
  lemma Ac1Range(m: Matrix)
    requires Total(m) > 0
    ensures GwetAc1(m).Some? && -1.0 <= GwetAc1(m).value <= 1.0
  {
    hide MeanRate, MeanChance, Corrected;
    ShareInUnit(m.tp + m.tn, Total(m));
    HalfAtMost(MeanRate(m));
    CorrectedRange(Observed(m), MeanChance(MeanRate(m)));
  }

  lemma ShareInUnit(x: nat, n: nat)
    requires n > 0 && x <= n
    ensures 0.0 <= x as real / n as real <= 1.0
  {
    var po := x as real / n as real;
    assert po * n as real == x as real;
    WithinOne(po, n as real, x as real);
  }

  lemma CorrectedRange(po: real, pe: real)
    requires 0.0 <= po <= 1.0 && pe <= 0.5
    ensures Corrected(po, pe).Some? && -1.0 <= Corrected(po, pe).value <= 1.0
  {
    var k := (po - pe) / (1.0 - pe);
    assert k * (1.0 - pe) == po - pe;
    WithinOne(k, 1.0 - pe, po - pe);
  }

  lemma HalfAtMost(x: real)
    ensures MeanChance(x) <= 0.5
  {
    assert (2.0 * x - 1.0) * (2.0 * x - 1.0) == 1.0 - 2.0 * (2.0 * x * (1.0 - x));
    Square(2.0 * x - 1.0);
  }

  lemma Square(x: real)
    ensures x * x >= 0.0
  {
  }
}
