/**
 * The autonomy gate: which classes of criteria are promoted, and how much
 * evidence a promotion needs (backend/app/checks/promotion.py, lines 25-79).
 */
module Promotions {
  import opened Wrappers
  import opened Wilson

  datatype ClassStats = ClassStats(name: string, tier: string, n: int, agreement: real, nAgree: Option<int>)

  datatype Promotion = Promotion(name: string, tier: string, n: int, agreement: real, dated: string, lowerBound: real)

  datatype Settings = Settings(minN: int, bar: real)

  /** The interval is asked for. */
  predicate Asked(settings: Settings, s: ClassStats) {
    s.n >= settings.minN && s.nAgree.Some?
  }

  /** Both bars are cleared in this run. */
  predicate Clears(settings: Settings, s: ClassStats, sqrt: real -> real) {
    && Asked(settings, s) && ValidCounts(s.nAgree.value, s.n) && s.n > 0
    && Low(s.nAgree.value, s.n, Z_95, sqrt) >= settings.bar
  }

  function PromotionOf(s: ClassStats, dated: string, sqrt: real -> real): Promotion
    requires s.nAgree.Some? && ValidCounts(s.nAgree.value, s.n) && s.n > 0
  {
    Promotion(s.name, s.tier, s.n, s.agreement, dated, Low(s.nAgree.value, s.n, Z_95, sqrt))
  }

  /** The promotions of the classes that clear both bars, in order. */
  function Promoted(settings: Settings, stats: seq<ClassStats>, dated: string, sqrt: real -> real): seq<Promotion> {
    if stats == [] then []
    else
      var s := stats[|stats| - 1];
      Promoted(settings, stats[..|stats| - 1], dated, sqrt)
      + if Clears(settings, s, sqrt) then [PromotionOf(s, dated, sqrt)] else []
  }

  /** `evaluate_promotions`: refused as a whole only for impossible counts. */
  method EvaluatePromotions(settings: Settings, stats: seq<ClassStats>, dated: string, sqrt: real -> real)
    returns (r: Result<seq<Promotion>, Error>)
    ensures r.Err? <==> exists i :: 0 <= i < |stats| && Asked(settings, stats[i]) && !ValidCounts(stats[i].nAgree.value, stats[i].n)
    ensures r.Ok? ==> r.value == Promoted(settings, stats, dated, sqrt)
  {
    var promotions: seq<Promotion> := [];
    for i := 0 to |stats|
      invariant forall k :: 0 <= k < i && Asked(settings, stats[k]) ==> ValidCounts(stats[k].nAgree.value, stats[k].n)
      invariant promotions == Promoted(settings, stats[..i], dated, sqrt)
    {
      hide Center, Margin;
      var s := stats[i];
      assert stats[..i + 1][..i] == stats[..i];
      if s.n < settings.minN || s.nAgree.None? {
        continue;
      }
      var interval := WilsonInterval(s.nAgree.value, s.n, Z_95, sqrt);
      if interval.Err? {
        return Err(ValueError);
      }
      if interval.value.None? || interval.value.value.low < settings.bar {
        continue;
      }
      promotions := promotions + [Promotion(s.name, s.tier, s.n, s.agreement, dated, interval.value.value.low)];
    }
    assert stats[..|stats|] == stats;
    r := Ok(promotions);
  }

  // ----- What a promotion is worth

  /**
   * A sample of n can clear the bar at all exactly when a perfect one does,
   * and that is when n (1 - bar) >= bar z^2.
   */
  lemma SomeScoreClearsExactlyWhenLargeEnough(n: int, bar: real, sqrt: real -> real)
    requires IsSqrt(sqrt) && n > 0
    ensures (exists k :: ValidCounts(k, n) && Low(k, n, Z_95, sqrt) >= bar) <==> Low(n, n, Z_95, sqrt) >= bar
    ensures Low(n, n, Z_95, sqrt) >= bar <==> n as real * (1.0 - bar) >= bar * (Z_95 * Z_95)
  {
    hide WilsonInterval;
    if k :| ValidCounts(k, n) && Low(k, n, Z_95, sqrt) >= bar {
      LowIsMonotone(k, n, n, Z_95, sqrt);
    }
    assert ValidCounts(n, n);
    PerfectLow(n, Z_95, sqrt);
    CompareShare(Low(n, n, Z_95, sqrt), n as real, Z_95 * Z_95, bar);
  }

  lemma CompareShare(low: real, n: real, a: real, bar: real)
    requires n > 0.0 && a > 0.0 && low * (n + a) == n
    ensures low >= bar <==> n * (1.0 - bar) >= bar * a
  {
    assert (n + a) * (low - bar) == n - bar * (n + a);
    SignOfProduct(n + a, low - bar);
    assert n - bar * (n + a) == n * (1.0 - bar) - bar * a;
  }

  /**
   * Every promotion is earned: the observed agreement reaches the bar, and
   * the sample is large enough that even its lower end does; at the bar of
   * 0.90 no class is promoted on fewer than 35 items, whatever minimum is
   * configured.
   */
  lemma {:induction false} PromotionsAreEarned(settings: Settings, stats: seq<ClassStats>, dated: string, sqrt: real -> real, p: Promotion)
    requires IsSqrt(sqrt) && p in Promoted(settings, stats, dated, sqrt)
    ensures exists s :: s in stats && Clears(settings, s, sqrt) && p == PromotionOf(s, dated, sqrt)
                          && s.nAgree.value as real / s.n as real >= p.lowerBound >= settings.bar
    ensures p.n > 0 && p.n as real * (1.0 - settings.bar) >= settings.bar * (Z_95 * Z_95)
    ensures settings.bar == 0.9 ==> p.n >= 35
  {
    hide WilsonInterval;
    var s := stats[|stats| - 1];
    if Clears(settings, s, sqrt) && p == PromotionOf(s, dated, sqrt) {
      assert s in stats;
      IntervalInvertsScoreTest(s.nAgree.value, s.n, Z_95, sqrt, 0.0);
      SomeScoreClearsExactlyWhenLargeEnough(s.n, settings.bar, sqrt);
      if settings.bar == 0.9 {
        AtNinetyPercent(s.n, settings.bar);
      }
    } else {
      PromotionsAreEarned(settings, stats[..|stats| - 1], dated, sqrt, p);
    }
  }

  lemma AtNinetyPercent(n: int, bar: real)
    requires bar == 0.9
    ensures n as real * (1.0 - bar) >= bar * (Z_95 * Z_95) <==> n >= 35
  {
    assert 3.841 < Z_95 * Z_95 < 3.842;
  }

  /** Thirty-five agreements out of thirty-five are enough, thirty-four out of thirty-four are not. */
  lemma ThirtyFiveIsSharp(sqrt: real -> real)
    requires IsSqrt(sqrt)
    ensures Low(35, 35, Z_95, sqrt) >= 0.9 > Low(34, 34, Z_95, sqrt)
  {
    SomeScoreClearsExactlyWhenLargeEnough(35, 0.9, sqrt);
    SomeScoreClearsExactlyWhenLargeEnough(34, 0.9, sqrt);
    AtNinetyPercent(35, 0.9);
    AtNinetyPercent(34, 0.9);
    hide WilsonInterval, Low;
  }
}
