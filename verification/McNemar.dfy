/**
 * The exact McNemar test and the smallest experiment that could show
 * anything (backend/app/checks/accuracy_stats.py, lines 93-200).
 */
module McNemar {
  import opened Wrappers

  /** math.comb by Pascal's rule. */
  function Comb(n: nat, k: nat): nat {
    if k == 0 then 1
    else if n == 0 then 0
    else Comb(n - 1, k - 1) + Comb(n - 1, k)
  }

  /** sum(comb(n, i) for i in range(k)) */
  function CombSum(n: nat, k: nat): nat {
    if k == 0 then 0 else CombSum(n, k - 1) + Comb(n, k - 1)
  }

  function Pow2(n: nat): (r: nat)
    ensures r >= 1
  {
    if n == 0 then 1 else 2 * Pow2(n - 1)
  }

  lemma {:induction false} CombAbove(n: nat, k: nat)
    requires k > n
    ensures Comb(n, k) == 0
  {
    if n > 0 {
      CombAbove(n - 1, k - 1);
      CombAbove(n - 1, k);
    }
  }

  lemma {:induction false} CombPositive(n: nat, k: nat)
    requires k <= n
    ensures Comb(n, k) >= 1
  {
    if 0 < k {
      CombPositive(n - 1, k - 1);
    }
  }

  lemma {:induction false} CombWhole(n: nat)
    ensures Comb(n, n) == 1
  {
    if n > 0 {
      CombWhole(n - 1);
      CombAbove(n - 1, n);
    }
  }

  /** A row reads the same from both ends. */
  lemma {:induction false} CombSymmetric(n: nat, k: nat)
    requires k <= n
    ensures Comb(n, k) == Comb(n, n - k)
  {
    if k == 0 {
      CombWhole(n);
    } else if k == n {
      CombWhole(n);
    } else {
      CombSymmetric(n - 1, k - 1);
      CombSymmetric(n - 1, k);
    }
  }

  lemma {:induction false} CombSumDoubles(n: nat, k: nat)
    requires k > 0
    ensures CombSum(n + 1, k + 1) == CombSum(n, k + 1) + CombSum(n, k)
  {
    if k == 1 {
      assert CombSum(n + 1, 2) == CombSum(n + 1, 1) + Comb(n + 1, 1);
      assert CombSum(n + 1, 1) == 1 && CombSum(n, 1) == 1;
      assert CombSum(n, 2) == CombSum(n, 1) + Comb(n, 1);
    } else {
      CombSumDoubles(n, k - 1);
    }
  }

  /** A whole row sums to a power of two. */
  lemma {:induction false} RowSum(n: nat)
    ensures CombSum(n, n + 1) == Pow2(n)
  {
    if n == 0 {
      assert CombSum(0, 1) == CombSum(0, 0) + Comb(0, 0);
    } else {
      RowSum(n - 1);
      CombAbove(n - 1, n);
      CombSumDoubles(n - 1, n);
    }
  }

  /** The lower part and the mirrored upper part make up the row. */
  lemma {:induction false} TailsMirror(n: nat, k: nat)
    requires k <= n + 1
    ensures CombSum(n, k) + CombSum(n, n + 1 - k) == Pow2(n)
  {
    if k == 0 {
      RowSum(n);
    } else {
      TailsMirror(n, k - 1);
      CombSymmetric(n, k - 1);
    }
  }

  lemma {:induction false} CombSumGrows(n: nat, j: nat, k: nat)
    requires j <= k
    ensures CombSum(n, j) <= CombSum(n, k)
    decreases k
  {
    if j < k {
      CombSumGrows(n, j, k - 1);
    }
  }

  // ----- The test

  datatype Comparison = Comparison(bothCorrect: nat, onlyA: nat, onlyB: nat, bothWrong: nat)

  datatype TestResult = TestResult(pValue: Option<real>, significant: bool)

  function Fewer(b: nat, c: nat): nat {
    if c < b then c else b
  }

  /** Twice the lower tail, before the clamp. */
  function TwoTails(b: nat, c: nat): real {
    2.0 * (CombSum(b + c, Fewer(b, c) + 1) as real / Pow2(b + c) as real)
  }

  function PValue(b: nat, c: nat): real {
    if TwoTails(b, c) < 1.0 then TwoTails(b, c) else 1.0
  }

  /** `mcnemar_exact`: no p-value without paired decisions or without discordant ones. */
  method McNemarExact(comparison: Comparison, alpha: real) returns (r: TestResult)
    ensures var b, c := comparison.onlyA, comparison.onlyB;
            r == if b + c == 0 then TestResult(None, false) else TestResult(Some(PValue(b, c)), PValue(b, c) < alpha)
  {
    var b, c := comparison.onlyA, comparison.onlyB;
    var discordant := b + c;
    if comparison.bothCorrect + discordant + comparison.bothWrong == 0 {
      return TestResult(None, false);
    }
    if discordant == 0 {
      return TestResult(None, false);
    }
    var k := Fewer(b, c);
    var sum := 0;
    for i := 0 to k + 1
      invariant sum == CombSum(discordant, i)
    {
      sum := sum + Comb(discordant, i);
    }
    var doubled := 2.0 * (sum as real / Pow2(discordant) as real);
    var p := if doubled < 1.0 then doubled else 1.0;
    return TestResult(Some(p), p < alpha);
  }

  /** 2 * (0.5 ** n) */
  function Best(n: nat): real {
    2.0 / Pow2(n) as real
  }

  /** How the two tails of a split compare with the whole row. */
  lemma TailsAgainstRow(b: nat, c: nat)
    requires b + c > 0
    ensures b != c ==> 2 * CombSum(b + c, Fewer(b, c) + 1) <= Pow2(b + c)
    ensures b == c ==> 2 * CombSum(b + c, Fewer(b, c) + 1) > Pow2(b + c)
    ensures CombSum(b + c, Fewer(b, c) + 1) >= 1
    ensures CombSum(b + c, Fewer(b, c) + 1) == 1 <==> Fewer(b, c) == 0
  {
    var n, k := b + c, Fewer(b, c);
    TailsMirror(n, k + 1);
    if b != c {
      CombSumGrows(n, k + 1, n - k);
    } else {
      assert CombSum(n, k + 1) == CombSum(n, k) + Comb(n, k);
      CombPositive(n, k);
    }
    assert CombSum(n, 1) == 1;
    CombSumGrows(n, 1, k + 1);
    if k > 0 {
      assert CombSum(n, 2) == CombSum(n, 1) + Comb(n, 1);
      CombPositive(n, 1);
      CombSumGrows(n, 2, k + 1);
    }
  }

  lemma CompareFraction(a: nat, d: nat)
    requires d > 0
    ensures 2.0 * (a as real / d as real) <= 1.0 <==> 2 * a <= d
    ensures a >= 1 ==> 2.0 * (a as real / d as real) >= 2.0 / d as real > 0.0
    ensures a == 1 ==> 2.0 * (a as real / d as real) == 2.0 / d as real
  {
    var q, r := a as real / d as real, 1.0 / d as real;
    assert q * d as real == a as real && r * d as real == 1.0;
    assert (2.0 * q - 1.0) * d as real == 2.0 * a as real - d as real;
    assert (q - r) * d as real == a as real - 1.0;
    assert 2.0 / d as real == 2.0 * r;
  }

  /**
   * The p-value lies in (0, 1], does not depend on which configuration is
   * named first, is never below the best value its total allows, and the
   * clamp changes it exactly when the discordant items split evenly.
   */
  lemma PValueShape(b: nat, c: nat)
    requires b + c > 0
    ensures 0.0 < PValue(b, c) <= 1.0
    ensures PValue(b, c) == PValue(c, b)
    ensures PValue(b, c) != TwoTails(b, c) <==> b == c
    ensures PValue(b, c) >= Best(b + c)
    ensures PValue(b, c) == Best(b + c) <== Fewer(b, c) == 0
  {
    TailsAgainstRow(b, c);
    CompareFraction(CombSum(b + c, Fewer(b, c) + 1), Pow2(b + c));
    BestAtMostOne(b + c);
    assert b + c == c + b && Fewer(b, c) == Fewer(c, b);
  }

  lemma BestAtMostOne(n: nat)
    requires n > 0
    ensures 0.0 < Best(n) <= 1.0
  {
    assert Pow2(n) == 2 * Pow2(n - 1) >= 2;
    CompareFraction(1, Pow2(n));
  }

  lemma {:induction false} BestShrinks(m: nat, n: nat)
    requires m <= n
    ensures Best(n) <= Best(m)
    decreases n
  {
    if m < n {
      BestShrinks(m, n - 1);
      var d := Pow2(n - 1) as real;
      assert 2.0 / (2.0 * d) <= 2.0 / d;
    }
  }

  lemma {:induction false} Pow2Exceeds(n: nat)
    ensures Pow2(n) > n
  {
    if n > 0 {
      Pow2Exceeds(n - 1);
    }
  }

  lemma LargeEnoughIsBelow(n: nat, alpha: real)
    requires alpha > 0.0 && n as real >= 2.0 / alpha
    ensures Best(n) < alpha
  {
    Pow2Exceeds(n);
    Reciprocal(Pow2(n) as real, 2.0 / alpha, alpha);
  }

  lemma Reciprocal(d: real, q: real, alpha: real)
    requires alpha > 0.0 && q == 2.0 / alpha && d > q
    ensures 2.0 / d < alpha
  {
    assert q * alpha == 2.0;
    assert (d - q) * alpha > 0.0;
    var e := 2.0 / d;
    assert e * d == 2.0;
    assert (alpha - e) * d == (d - q) * alpha;
  }

  /** `required_discordant_pairs`: the least total whose best p-value is below alpha. */
  method RequiredDiscordantPairs(alpha: real) returns (n: nat)
    requires alpha > 0.0
    ensures IsRequired(alpha, n)
  {
    n := 1;
    ghost var bound := (2.0 / alpha).Floor + 1;
    while Best(n) >= alpha
      invariant n >= 1 && forall m :: 1 <= m < n ==> Best(m) >= alpha
      decreases bound - n
    {
      if n >= bound {
        LargeEnoughIsBelow(n, alpha);
      }
      n := n + 1;
    }
  }

  ghost predicate IsRequired(alpha: real, n: nat) {
    n >= 1 && Best(n) < alpha && forall m :: 1 <= m < n ==> Best(m) >= alpha
  }

  /**
   * The threshold is exact: fewer discordant items can never be significant,
   * however they split, and from the threshold on the one-sided split always is.
   */
  lemma ThresholdIsExact(alpha: real, required: nat, b: nat, c: nat)
    requires alpha > 0.0 && IsRequired(alpha, required) && b + c > 0
    ensures PValue(b, c) < alpha ==> b + c >= required
    ensures b + c >= required <==> PValue(b + c, 0) < alpha
  {
    PValueShape(b, c);
    PValueShape(b + c, 0);
    if b + c >= required {
      BestShrinks(required, b + c);
    }
  }
}
