/**
 * Fleiss' kappa beside the multi-rater AC1: the same ratings corrected by
 * complementary chance terms (backend/app/checks/accuracy_stats.py,
 * lines 292-356).
 */
module Fleiss {
  import opened Wrappers
  import opened Agreement
  import opened MultiRater
  import Wilson

  function ShareSquared(count: nat, total: nat): real
    requires total > 0
  {
    (count as real / total as real) * (count as real / total as real)
  }

  function SumShareSquares(pool: multiset<string>, total: nat, scale: seq<string>): real
    requires total > 0
  {
    if scale == [] then 0.0
    else SumShareSquares(pool, total, scale[..|scale| - 1]) + ShareSquared(pool[scale[|scale| - 1]], total)
  }

  /** All ratings, unit after unit. */
  function Flat(ratings: seq<seq<string>>): seq<string> {
    if ratings == [] then [] else Flat(ratings[..|ratings| - 1]) + ratings[|ratings| - 1]
  }

  /** `fleiss_kappa`: the chance term runs over the categories that occur. */
  function FleissKappa(ratings: seq<seq<string>>): Result<Option<real>, Error> {
    if !EvenlyRated(ratings) then Err(ValueError)
    else if ratings == [] then Ok(None)
    else
      var scale := Distinct(Flat(ratings));
      var chance := SumShareSquares(Pool(ratings), |ratings| * |ratings[0]|, scale);
      Ok(Corrected(SumAgreement(ratings, scale) / |ratings| as real, chance))
  }

  /** Each category once, and every one that was given. */
  predicate Covers(scale: seq<string>, pool: multiset<string>) {
    && (forall i, j :: 0 <= i < j < |scale| ==> scale[i] != scale[j])
    && (forall c :: c in pool ==> c in scale)
  }

  // ----- What is pooled

  lemma {:induction false} PoolIsFlat(ratings: seq<seq<string>>)
    ensures Pool(ratings) == multiset(Flat(ratings))
  {
    if ratings != [] {
      PoolIsFlat(ratings[..|ratings| - 1]);
    }
  }

  lemma {:induction false} FlatLength(ratings: seq<seq<string>>, raters: nat)
    requires forall i :: 0 <= i < |ratings| ==> |ratings[i]| == raters
    ensures |Flat(ratings)| == |ratings| * raters
  {
    if ratings != [] {
      FlatLength(ratings[..|ratings| - 1], raters);
      OneMoreTimes(|ratings| - 1, raters);
    }
  }

  lemma OneMoreTimes(n: nat, k: nat)
    ensures (n + 1) * k == n * k + k
  {
  }

  lemma {:induction false} DistinctCovers(categories: seq<string>)
    ensures Covers(Distinct(categories), multiset(categories))
    ensures forall c :: c in Distinct(categories) <==> c in categories
  {
    if categories != [] {
      var before, last := categories[..|categories| - 1], categories[|categories| - 1];
      DistinctCovers(before);
      assert categories == before + [last];
    }
  }

  // ----- Shares of a covering scale sum to one

  function SumCounts(pool: multiset<string>, scale: seq<string>): nat {
    if scale == [] then 0 else SumCounts(pool, scale[..|scale| - 1]) + pool[scale[|scale| - 1]]
  }

  lemma {:induction false} CountsOfOthers(pool: multiset<string>, scale: seq<string>, c: string, n: nat)
    requires c !in scale
    ensures SumCounts(pool[c := n], scale) == SumCounts(pool, scale)
  {
    if scale != [] {
      assert scale[|scale| - 1] in scale;
      CountsOfOthers(pool, scale[..|scale| - 1], c, n);
    }
  }

  lemma {:induction false} CountsSumToAll(pool: multiset<string>, scale: seq<string>)
    requires Covers(scale, pool)
    ensures SumCounts(pool, scale) == |pool|
  {
    if scale == [] {
      assert pool == multiset{};
    } else {
      var before, last := scale[..|scale| - 1], scale[|scale| - 1];
      assert scale == before + [last];
      CountsOfOthers(pool, before, last, 0);
      CountsSumToAll(pool[last := 0], before);
    }
  }

  lemma SpreadIsShareLess(count: nat, total: nat)
    requires total > 0
    ensures Spread(count, total) == count as real / total as real - ShareSquared(count, total)
  {
  }

  lemma SumOfShares(a: nat, b: nat, total: nat)
    requires total > 0
    ensures (a + b) as real / total as real == a as real / total as real + b as real / total as real
  {
  }

  lemma {:induction false} SpreadsAgainstSquares(pool: multiset<string>, total: nat, scale: seq<string>)
    requires total > 0
    ensures SumSpread(pool, total, scale) == SumCounts(pool, scale) as real / total as real - SumShareSquares(pool, total, scale)
  {
    hide Spread, ShareSquared;
    if scale != [] {
      var before, n := scale[..|scale| - 1], pool[scale[|scale| - 1]];
      SpreadsAgainstSquares(pool, total, before);
      SpreadIsShareLess(n, total);
      SumOfShares(SumCounts(pool, before), n, total);
    }
  }

  /**
   * Over any scale that covers the ratings the two chance terms are
   * complementary: AC1's, before it is divided by the number of other
   * categories, is what Fleiss' leaves of one.
   */
  lemma ChancesAreComplementary(pool: multiset<string>, scale: seq<string>)
    requires Covers(scale, pool) && |pool| > 0
    ensures SumSpread(pool, |pool|, scale) == 1.0 - SumShareSquares(pool, |pool|, scale)
  {
    hide Covers, SumSpread, SumShareSquares, SumCounts;
    CountsSumToAll(pool, scale);
    SpreadsAgainstSquares(pool, |pool|, scale);
    Whole(|pool|);
  }

  lemma Whole(n: nat)
    requires n > 0
    ensures n as real / n as real == 1.0
  {
  }

  // ----- When the chance term is total

  lemma SpreadBounds(count: nat, total: nat)
    requires total > 0 && count <= total
    ensures Spread(count, total) >= 0.0
    ensures Spread(count, total) == 0.0 <==> count == 0 || count == total
  {
    var p := count as real / total as real;
    ShareBounds(count, total);
    ProductOfShares(p);
  }

  lemma ShareBounds(count: nat, total: nat)
    requires total > 0 && count <= total
    ensures 0.0 <= count as real / total as real <= 1.0
    ensures count as real / total as real == 0.0 <==> count == 0
    ensures count as real / total as real == 1.0 <==> count == total
  {
    var p := count as real / total as real;
    assert p * total as real == count as real;
  }

  lemma ProductOfShares(p: real)
    requires 0.0 <= p <= 1.0
    ensures p * (1.0 - p) >= 0.0
    ensures p * (1.0 - p) == 0.0 <==> p == 0.0 || p == 1.0
  {
    Wilson.Nonnegative(p, 1.0 - p);
    if 0.0 < p < 1.0 {
      Wilson.Positive(p, 1.0 - p);
    }
  }

  /** Every category of the scale was given by everyone or by no one. */
  ghost predicate AllOrNothing(pool: multiset<string>, scale: seq<string>) {
    forall i :: 0 <= i < |scale| ==> pool[scale[i]] == 0 || pool[scale[i]] == |pool|
  }

  lemma CountWithin(pool: multiset<string>, c: string)
    ensures pool[c] <= |pool|
  {
    assert |pool[c := 0]| == |pool| - pool[c];
  }

  lemma {:induction false} NoSpreadExactly(pool: multiset<string>, scale: seq<string>)
    requires |pool| > 0
    ensures SumSpread(pool, |pool|, scale) >= 0.0
    ensures SumSpread(pool, |pool|, scale) == 0.0 <==> AllOrNothing(pool, scale)
  {
    hide Spread;
    if scale != [] {
      var before, last := scale[..|scale| - 1], scale[|scale| - 1];
      NoSpreadExactly(pool, before);
      CountWithin(pool, last);
      SpreadBounds(pool[last], |pool|);
      assert AllOrNothing(pool, scale) <==> AllOrNothing(pool, before) && (pool[last] == 0 || pool[last] == |pool|) by {
        assert scale == before + [last];
      }
    }
  }

  predicate OneCategory(pool: multiset<string>) {
    forall c, d :: c in pool && d in pool ==> c == d
  }

  lemma OneCategoryExactly(pool: multiset<string>, scale: seq<string>)
    requires Covers(scale, pool) && |pool| > 0
    ensures AllOrNothing(pool, scale) <==> OneCategory(pool)
  {
    if AllOrNothing(pool, scale) {
      forall c, d | c in pool && d in pool ensures c == d {
        assert c in scale && d in scale;
        if c != d {
          TwoCounts(pool, c, d);
        }
      }
    }
    if OneCategory(pool) {
      forall i | 0 <= i < |scale| ensures pool[scale[i]] == 0 || pool[scale[i]] == |pool| {
        if pool[scale[i]] > 0 {
          var c := scale[i];
          assert forall d :: d in pool ==> d == c;
          assert pool[c := 0] == multiset{};
          assert |pool[c := 0]| == |pool| - pool[c];
        }
      }
    }
  }

  lemma TwoCounts(pool: multiset<string>, c: string, d: string)
    requires c != d
    ensures pool[c] + pool[d] <= |pool|
  {
    CountWithin(pool[c := 0], d);
  }

  // ----- Main results

  /** All ratings of all units are one category. */
  predicate SameEverywhere(ratings: seq<seq<string>>) {
    OneCategory(Pool(ratings))
  }

  /** For ratings the function accepts: undefined exactly without data or when every rating is the same. */
  lemma FleissUndefinedExactly(ratings: seq<seq<string>>)
    requires EvenlyRated(ratings)
    ensures FleissKappa(ratings) == Ok(None) <==> ratings == [] || SameEverywhere(ratings)
  {
    if ratings != [] {
      hide SumAgreement, SumShareSquares, Distinct, Pool, Flat, Covers;
      var pool, scale := Pool(ratings), Distinct(Flat(ratings));
      PooledRatings(ratings);
      ChancesAreComplementary(pool, scale);
      NoSpreadExactly(pool, scale);
      OneCategoryExactly(pool, scale);
    }
  }

  lemma PooledRatings(ratings: seq<seq<string>>)
    requires EvenlyRated(ratings) && ratings != []
    ensures |Pool(ratings)| == |ratings| * |ratings[0]| > 0
    ensures Covers(Distinct(Flat(ratings)), Pool(ratings))
  {
    hide Pool, Flat, Distinct, Covers;
    PoolIsFlat(ratings);
    FlatLength(ratings, |ratings[0]|);
    DistinctCovers(Flat(ratings));
    assert |ratings| * |ratings[0]| >= |ratings[0]|;
  }

  // ----- The same observed agreement on any scale that covers the ratings

  lemma {:induction false} WithoutCategory(unit: multiset<string>, scale: seq<string>, c: string)
    requires Covers(scale, unit)
    ensures SumSquares(unit[c := 0], scale) == SumSquares(unit, scale) - unit[c] * unit[c]
  {
    if c in scale {
      WithoutListed(unit, scale, c);
    } else {
      assert unit[c := 0] == unit;
    }
  }

  /** Each category once. */
  predicate OnceEach(scale: seq<string>) {
    forall i, j :: 0 <= i < j < |scale| ==> scale[i] != scale[j]
  }

  lemma {:induction false} WithoutListed(unit: multiset<string>, scale: seq<string>, c: string)
    requires OnceEach(scale)
    ensures SumSquares(unit[c := 0], scale) == SumSquares(unit, scale) - if c in scale then unit[c] * unit[c] else 0
  {
    if scale != [] {
      var before, last := scale[..|scale| - 1], scale[|scale| - 1];
      assert scale == before + [last];
      WithoutListed(unit, before, c);
    }
  }

  /** The sum does not depend on the order of the scale, nor on categories nobody gave. */
  lemma {:induction false} SquaresIgnoreScale(unit: multiset<string>, a: seq<string>, b: seq<string>)
    requires Covers(a, unit) && Covers(b, unit)
    ensures SumSquares(unit, a) == SumSquares(unit, b)
  {
    if a == [] {
      assert unit == multiset{};
      NobodyGave(b);
    } else {
      var before, last := a[..|a| - 1], a[|a| - 1];
      assert a == before + [last];
      SquaresIgnoreScale(unit[last := 0], before, b);
      WithoutListed(unit, before, last);
      WithoutCategory(unit, b, last);
    }
  }

  lemma {:induction false} NobodyGave(scale: seq<string>)
    ensures SumSquares(multiset{}, scale) == 0
  {
    if scale != [] {
      NobodyGave(scale[..|scale| - 1]);
    }
  }

  predicate CoversUnits(scale: seq<string>, ratings: seq<seq<string>>) {
    forall i :: 0 <= i < |ratings| ==> Covers(scale, multiset(ratings[i]))
  }

  lemma {:induction false} AgreementIgnoresScale(ratings: seq<seq<string>>, a: seq<string>, b: seq<string>)
    requires CoversUnits(a, ratings) && CoversUnits(b, ratings)
    requires forall i :: 0 <= i < |ratings| ==> |ratings[i]| >= 2
    ensures SumAgreement(ratings, a) == SumAgreement(ratings, b)
  {
    hide Covers, SumSquares;
    if ratings != [] {
      AgreementIgnoresScale(ratings[..|ratings| - 1], a, b);
      SquaresIgnoreScale(multiset(ratings[|ratings| - 1]), a, b);
    }
  }

  lemma {:induction false} FlatMembers(ratings: seq<seq<string>>, i: nat, c: string)
    requires i < |ratings| && c in ratings[i]
    ensures c in Flat(ratings)
  {
    if i < |ratings| - 1 {
      FlatMembers(ratings[..|ratings| - 1], i, c);
    }
  }

  lemma {:induction false} PoolOnScale(ratings: seq<seq<string>>, scale: seq<string>)
    requires OnScale(ratings, scale)
    ensures forall c :: c in Pool(ratings) ==> c in scale
  {
    if ratings != [] {
      PoolOnScale(ratings[..|ratings| - 1], scale);
    }
  }

  lemma {:induction false} SquaresPositive(pool: multiset<string>, total: nat, scale: seq<string>)
    requires total > 0
    ensures SumShareSquares(pool, total, scale) >= 0.0
    ensures SumCounts(pool, scale) > 0 ==> SumShareSquares(pool, total, scale) > 0.0
  {
    hide ShareSquared;
    if scale != [] {
      SquaresPositive(pool, total, scale[..|scale| - 1]);
      SquarePositive(pool[scale[|scale| - 1]], total);
    }
  }

  lemma SquarePositive(n: nat, total: nat)
    requires total > 0
    ensures ShareSquared(n, total) >= 0.0
    ensures n > 0 ==> ShareSquared(n, total) > 0.0
  {
    var p := n as real / total as real;
    assert p * total as real == n as real;
    Wilson.Nonnegative(p, p);
    if n > 0 {
      Wilson.Positive(p, p);
    }
  }

  lemma {:induction false} SharesOfSquares(pool: multiset<string>, total: nat, scale: seq<string>)
    requires total > 0
    ensures SumShareSquares(pool, total, scale) * (total as real * total as real) == SumSquares(pool, scale) as real
  {
    hide ShareSquared;
    if scale != [] {
      var n := pool[scale[|scale| - 1]];
      SharesOfSquares(pool, total, scale[..|scale| - 1]);
      SquareOfShare(n, total);
      Distribute(SumShareSquares(pool, total, scale[..|scale| - 1]), ShareSquared(n, total), total as real * total as real);
      assert (n * n) as real == n as real * n as real;
    }
  }

  lemma SquareOfShare(n: nat, total: nat)
    requires total > 0
    ensures ShareSquared(n, total) * (total as real * total as real) == n as real * n as real
  {
    var p, t := n as real / total as real, total as real;
    assert p * t == n as real;
    assert (p * p) * (t * t) == (p * t) * (p * t);
  }

  lemma SameQuotient(a: real, b: real, d: real)
    requires d > 0.0 && a * d == b * d
    ensures a == b
  {
    assert (a - b) * d == 0.0;
  }

  /** The caller's scale covers all ratings, and so does the list of categories that occur. */
  lemma ScalesCover(ratings: seq<seq<string>>, categories: seq<string>)
    requires EvenlyRated(ratings) && ratings != [] && OnScale(ratings, Distinct(categories))
    ensures Covers(Distinct(categories), Pool(ratings))
    ensures CoversUnits(Distinct(categories), ratings) && CoversUnits(Distinct(Flat(ratings)), ratings)
  {
    hide Pool, Flat, Distinct;
    DistinctCovers(categories);
    PoolOnScale(ratings, Distinct(categories));
    DistinctCovers(Flat(ratings));
    forall i, c | 0 <= i < |ratings| && c in multiset(ratings[i]) ensures c in Flat(ratings) {
      FlatMembers(ratings, i, c);
    }
  }

  /**
   * AC1 and Fleiss' kappa of the same ratings correct one observed agreement,
   * by chance terms that add up to one once AC1's is multiplied by the number
   * of other categories; and AC1 is never left undefined.
   */
  lemma OneAgreementTwoChances(ratings: seq<seq<string>>, categories: seq<string>) returns (observed: real, chance: real)
    requires EvenlyRated(ratings) && ratings != []
    requires |Distinct(categories)| >= 2 && OnScale(ratings, Distinct(categories))
    ensures 0.0 < chance <= 1.0
    ensures FleissKappa(ratings) == Ok(Corrected(observed, chance))
    ensures GwetAc1Multi(ratings, categories)
         == Ok(Corrected(observed, (1.0 - chance) / (|Distinct(categories)| - 1) as real))
    ensures GwetAc1Multi(ratings, categories).value.Some?
  {
    hide SumAgreement, SumShareSquares, SumSpread, SumCounts, Distinct, Pool, Flat, Covers, CoversUnits, OnScale, AllOrNothing, SumSquares;
    var pool, own, scale := Pool(ratings), Distinct(Flat(ratings)), Distinct(categories);
    var total := |ratings| * |ratings[0]|;
    PooledRatings(ratings);
    ScalesCover(ratings, categories);
    AgreementIgnoresScale(ratings, own, scale);
    ChancesAreComplementary(pool, own);
    ChancesAreComplementary(pool, scale);
    SharesOfSquares(pool, total, own);
    SharesOfSquares(pool, total, scale);
    SquaresIgnoreScale(pool, own, scale);
    Wilson.Positive(total as real, total as real);
    SameQuotient(SumShareSquares(pool, total, own), SumShareSquares(pool, total, scale), total as real * total as real);
    NoSpreadExactly(pool, own);
    CountsSumToAll(pool, own);
    SquaresPositive(pool, total, own);
    observed, chance := SumAgreement(ratings, own) / |ratings| as real, SumShareSquares(pool, total, own);
    BelowOne(chance, (|scale| - 1) as real);
  }

  lemma BelowOne(chance: real, others: real)
    requires 0.0 < chance <= 1.0 && others >= 1.0
    ensures (1.0 - chance) / others < 1.0
  {
  }
}
