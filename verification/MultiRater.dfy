/**
 * Agreement over several ratings of each unit, and its two-rating case
 * (backend/app/checks/accuracy_stats.py, lines 292-308, 333-356 and 393-445).
 * A Counter is a multiset; a category that never occurs adds nothing to a sum.
 */
module MultiRater {
  import opened Wrappers
  import opened Agreement

  datatype Error = ValueError

  predicate IsLabel(s: string) {
    s == "pass" || s == "fail"
  }

  function Other(s: string): string {
    if s == "pass" then "fail" else "pass"
  }

  // ----- The matrix of a judge and a human

  function AddPair(m: Matrix, human: bool, judge: bool): Matrix {
    if human && judge then m.(tp := m.tp + 1)
    else if !human && judge then m.(fp := m.fp + 1)
    else if !human && !judge then m.(tn := m.tn + 1)
    else m.(fn := m.fn + 1)
  }

  /** Each pair of labels counted in its own cell. */
  function MatrixOf(human: seq<string>, judge: seq<string>, positive: string): Matrix
    requires |human| == |judge|
  {
    if human == [] then Matrix(0, 0, 0, 0)
    else
      var n := |human| - 1;
      AddPair(MatrixOf(human[..n], judge[..n], positive), human[n] == positive, judge[n] == positive)
  }

  lemma MatrixOfNext(human: seq<string>, judge: seq<string>, positive: string, n: nat)
    requires |human| == |judge| && n < |human|
    ensures MatrixOf(human[..n + 1], judge[..n + 1], positive)
         == AddPair(MatrixOf(human[..n], judge[..n], positive), human[n] == positive, judge[n] == positive)
  {
    assert human[..n + 1][..n] == human[..n] && judge[..n + 1][..n] == judge[..n];
  }

  /** All labels are binary. */
  ghost predicate AllLabels(labels: seq<string>) {
    forall s :: s in labels ==> IsLabel(s)
  }

  /** The counting loop of `compute_agreement`, with its checks. */
  method ComputeMatrix(human: seq<string>, judge: seq<string>, positive: string) returns (r: Result<Matrix, Error>)
    ensures r.Ok? <==> (|human| == |judge| && IsLabel(positive) && AllLabels(human) && AllLabels(judge))
    ensures r.Ok? ==> r.value == MatrixOf(human, judge, positive) && Total(r.value) == |human|
  {
    hide IsLabel, MatrixOf, AllLabels, AddPair, Total, CountedTo;
    if |human| != |judge| || !IsLabel(positive) {
      return Err(ValueError);
    }
    var m := Matrix(0, 0, 0, 0);
    NothingCounted(human, judge, positive);
    for i := 0 to |human|
      invariant CountedTo(human, judge, positive, m, i)
    {
      PairCounted(human, judge, positive, m, i);
      if !IsLabel(human[i]) || !IsLabel(judge[i]) {
        return Err(ValueError);
      }
      m := AddPair(m, human[i] == positive, judge[i] == positive);
    }
    AllCounted(human, judge, positive, m);
    r := Ok(m);
  }

  /** The first i pairs are known labels, each counted once. */
  ghost predicate CountedTo(human: seq<string>, judge: seq<string>, positive: string, m: Matrix, i: nat)
    requires i <= |human| == |judge|
  {
    && AllLabels(human[..i]) && AllLabels(judge[..i])
    && m == MatrixOf(human[..i], judge[..i], positive) && Total(m) == i
  }

  lemma NothingCounted(human: seq<string>, judge: seq<string>, positive: string)
    requires |human| == |judge|
    ensures CountedTo(human, judge, positive, Matrix(0, 0, 0, 0), 0)
  {
  }

  lemma PairCounted(human: seq<string>, judge: seq<string>, positive: string, m: Matrix, i: nat)
    requires i < |human| == |judge| && CountedTo(human, judge, positive, m, i)
    ensures AllLabels(human) && AllLabels(judge) ==> IsLabel(human[i]) && IsLabel(judge[i])
    ensures IsLabel(human[i]) && IsLabel(judge[i]) ==>
      CountedTo(human, judge, positive, AddPair(m, human[i] == positive, judge[i] == positive), i + 1)
  {
    hide IsLabel, MatrixOf, AllLabels;
    MatrixOfNext(human, judge, positive, i);
    OneMoreLabel(human, i);
    OneMoreLabel(judge, i);
  }

  lemma AllCounted(human: seq<string>, judge: seq<string>, positive: string, m: Matrix)
    requires |human| == |judge| && CountedTo(human, judge, positive, m, |human|)
    ensures AllLabels(human) && AllLabels(judge) && m == MatrixOf(human, judge, positive) && Total(m) == |human|
  {
    assert human[..|human|] == human && judge[..|judge|] == judge;
  }

  lemma OneMoreLabel(labels: seq<string>, i: nat)
    requires i < |labels|
    ensures AllLabels(labels[..i + 1]) <==> AllLabels(labels[..i]) && IsLabel(labels[i])
    ensures AllLabels(labels) ==> IsLabel(labels[i])
  {
    hide IsLabel;
    assert labels[..i + 1] == labels[..i] + [labels[i]];
  }

  // ----- Several ratings of each unit

  /** set(categories), in order of first appearance. */
  function Distinct(categories: seq<string>): seq<string> {
    if categories == [] then []
    else
      var before, last := Distinct(categories[..|categories| - 1]), categories[|categories| - 1];
      if last in before then before else before + [last]
  }

  function SumSquares(unit: multiset<string>, scale: seq<string>): nat {
    if scale == [] then 0
    else SumSquares(unit, scale[..|scale| - 1]) + unit[scale[|scale| - 1]] * unit[scale[|scale| - 1]]
  }

  /** The share of agreeing pairs in one unit. */
  function UnitAgreement(unit: seq<string>, scale: seq<string>): real
    requires |unit| >= 2
  {
    var raters := |unit| as real;
    (SumSquares(multiset(unit), scale) as real - raters) / (raters * (raters - 1.0))
  }

  function SumAgreement(ratings: seq<seq<string>>, scale: seq<string>): real
    requires forall i :: 0 <= i < |ratings| ==> |ratings[i]| >= 2
  {
    if ratings == [] then 0.0
    else SumAgreement(ratings[..|ratings| - 1], scale) + UnitAgreement(ratings[|ratings| - 1], scale)
  }

  /** The pooled Counter of all ratings. */
  function Pool(ratings: seq<seq<string>>): multiset<string> {
    if ratings == [] then multiset{}
    else Pool(ratings[..|ratings| - 1]) + multiset(ratings[|ratings| - 1])
  }

  function Spread(count: nat, total: nat): real
    requires total > 0
  {
    count as real / total as real * (1.0 - count as real / total as real)
  }

  function SumSpread(pool: multiset<string>, total: nat, scale: seq<string>): real
    requires total > 0
  {
    if scale == [] then 0.0
    else SumSpread(pool, total, scale[..|scale| - 1]) + Spread(pool[scale[|scale| - 1]], total)
  }

  predicate EvenlyRated(ratings: seq<seq<string>>) {
    ratings == [] || (|ratings[0]| >= 2 && forall i :: 0 <= i < |ratings| ==> |ratings[i]| == |ratings[0]|)
  }

  predicate OnScale(ratings: seq<seq<string>>, scale: seq<string>) {
    forall i :: 0 <= i < |ratings| ==> forall c :: c in ratings[i] ==> c in scale
  }

  /** `gwet_ac1_multi` */
  function GwetAc1Multi(ratings: seq<seq<string>>, categories: seq<string>): Result<Option<real>, Error> {
    var scale := Distinct(categories);
    if |scale| < 2 || !EvenlyRated(ratings) then Err(ValueError)
    else if ratings == [] then Ok(None)
    else if !OnScale(ratings, scale) then Err(ValueError)
    else
      var total := |ratings| * |ratings[0]|;
      var chance := SumSpread(Pool(ratings), total, scale) / (|scale| - 1) as real;
      Ok(Corrected(SumAgreement(ratings, scale) / |ratings| as real, chance))
  }

  // ----- Two ratings of each unit over two categories

  function Pairs(human: seq<string>, judge: seq<string>): (r: seq<seq<string>>)
    requires |human| == |judge|
    ensures |r| == |human| && forall i :: 0 <= i < |r| ==> r[i] == [human[i], judge[i]]
  {
    seq(|human|, i requires 0 <= i < |human| => [human[i], judge[i]])
  }

  /** Both raters use two distinct categories. */
  ghost predicate Binary(human: seq<string>, judge: seq<string>, p: string, q: string) {
    && |human| == |judge| && p != q
    && (forall i :: 0 <= i < |human| ==> (human[i] == p || human[i] == q) && (judge[i] == p || judge[i] == q))
  }

  function One(b: bool): nat {
    if b then 1 else 0
  }

  lemma PairCounts(h: string, j: string, p: string, q: string)
    requires p != q && (h == p || h == q) && (j == p || j == q)
    ensures multiset([h, j])[p] == One(h == p) + One(j == p)
    ensures multiset([h, j])[q] == One(h == q) + One(j == q)
  {
    assert multiset([h, j]) == multiset{h, j};
  }

  lemma PairSquares(h: string, j: string, p: string, q: string)
    requires p != q && (h == p || h == q) && (j == p || j == q)
    ensures SumSquares(multiset([h, j]), [p, q]) == if h == j then 4 else 2
    ensures UnitAgreement([h, j], [p, q]) == if h == j then 1.0 else 0.0
  {
    var unit := multiset([h, j]);
    PairCounts(h, j, p, q);
    assert [p, q][..1] == [p] && [p][..0] == [];
    assert SumSquares(unit, [p]) == unit[p] * unit[p];
  }

  lemma PairsNext(human: seq<string>, judge: seq<string>)
    requires |human| == |judge| && human != []
    ensures var n := |human| - 1;
            Pairs(human, judge)[..n] == Pairs(human[..n], judge[..n]) && Pairs(human, judge)[n] == [human[n], judge[n]]
  {
  }

  lemma {:induction false} MatrixTotal(human: seq<string>, judge: seq<string>, p: string)
    requires |human| == |judge|
    ensures Total(MatrixOf(human, judge, p)) == |human|
  {
    if human != [] {
      MatrixTotal(human[..|human| - 1], judge[..|human| - 1], p);
    }
  }

  /** Agreements are the diagonal of the matrix. */
  lemma {:induction false} PairsAgreement(human: seq<string>, judge: seq<string>, p: string, q: string)
    requires Binary(human, judge, p, q)
    ensures var m := MatrixOf(human, judge, p);
            SumAgreement(Pairs(human, judge), [p, q]) == (m.tp + m.tn) as real
  {
    hide UnitAgreement, Pairs, SumSquares;
    if human != [] {
      var n := |human| - 1;
      PairsAgreement(human[..n], judge[..n], p, q);
      PairsNext(human, judge);
      PairSquares(human[n], judge[n], p, q);
      Diagonal(MatrixOf(human[..n], judge[..n], p), human[n] == p, judge[n] == p);
    }
  }

  lemma Diagonal(m: Matrix, h: bool, j: bool)
    ensures var after := AddPair(m, h, j);
            (after.tp + after.tn) as real == (m.tp + m.tn) as real + if h == j then 1.0 else 0.0
  {
  }

  /** Each category's count is its row plus its column. */
  lemma {:induction false} PairsPool(human: seq<string>, judge: seq<string>, p: string, q: string)
    requires Binary(human, judge, p, q)
    ensures var m := MatrixOf(human, judge, p);
            && Pool(Pairs(human, judge))[p] == (m.tp + m.fn) + (m.tp + m.fp)
            && Pool(Pairs(human, judge))[q] == (m.tn + m.fn) + (m.tn + m.fp)
  {
    if human != [] {
      hide Pairs;
      var n := |human| - 1;
      PairsPool(human[..n], judge[..n], p, q);
      PairsNext(human, judge);
      PairCounts(human[n], judge[n], p, q);
    }
  }

  lemma TwoSpreads(pool: multiset<string>, total: nat, p: string, q: string)
    requires total > 0
    ensures SumSpread(pool, total, [p, q]) == Spread(pool[p], total) + Spread(pool[q], total)
  {
    assert [p, q][..1] == [p] && [p][..0] == [];
    assert SumSpread(pool, total, [p]) == Spread(pool[p], total);
  }

  /** The two spreads are the chance term of the mean marginal. */
  lemma SpreadsAreMeanChance(row: nat, column: nat, n: nat)
    requires n > 0 && row <= n && column <= n
    ensures Spread(row + column, n * 2) + Spread(2 * n - (row + column), n * 2)
         == MeanChance((row as real / n as real + column as real / n as real) / 2.0)
  {
    var x, t := row + column, n * 2;
    HalvesOfRates(row, column, n);
    Complement(x, t);
  }

  lemma HalvesOfRates(row: nat, column: nat, n: nat)
    requires n > 0
    ensures (row + column) as real / (n * 2) as real == (row as real / n as real + column as real / n as real) / 2.0
  {
    var a, b, r := row as real / n as real, column as real / n as real, n as real;
    assert a * r == row as real && b * r == column as real;
    var mean := (a + b) / 2.0;
    assert mean * (2.0 * r) == row as real + column as real;
    assert (n * 2) as real == 2.0 * r;
    var x := (row + column) as real / (n * 2) as real;
    assert x * (2.0 * r) == row as real + column as real;
    assert (x - mean) * (2.0 * r) == 0.0;
  }

  lemma Complement(x: nat, t: nat)
    requires t > 0 && x <= t
    ensures Spread(x, t) + Spread(t - x, t) == MeanChance(x as real / t as real)
  {
    var p, q := x as real / t as real, (t - x) as real / t as real;
    SharesSumToOne(p, q, t as real, x as real);
    HalvesOfSpread(p, q);
  }

  lemma SharesSumToOne(p: real, q: real, r: real, x: real)
    requires r > 0.0 && p == x / r && q == (r - x) / r
    ensures p + q == 1.0
  {
  }

  lemma HalvesOfSpread(p: real, q: real)
    requires p + q == 1.0
    ensures p * (1.0 - p) + q * (1.0 - q) == MeanChance(p)
  {
    assert q == 1.0 - p;
  }

  /**
   * On two ratings of each unit over two categories, the multi-rater form
   * gives exactly the AC1 of the matrix of the same labels.
   */
  lemma TwoRatingsGiveAc1(human: seq<string>, judge: seq<string>, p: string, q: string)
    requires Binary(human, judge, p, q)
    ensures GwetAc1Multi(Pairs(human, judge), [p, q]) == Ok(GwetAc1(MatrixOf(human, judge, p)))
  {
    hide GwetAc1Multi, GwetAc1, MatrixOf, Pairs, Binary;
    if human == [] {
      NothingGivesNothing(human, judge, p, q);
    } else {
      PairsGiveAc1(human, judge, p, q);
    }
  }

  lemma NothingGivesNothing(human: seq<string>, judge: seq<string>, p: string, q: string)
    requires Binary(human, judge, p, q) && human == []
    ensures GwetAc1Multi(Pairs(human, judge), [p, q]) == Ok(None)
    ensures GwetAc1(MatrixOf(human, judge, p)) == None
  {
    TwoAreDistinct(p, q);
    hide Distinct;
  }

  lemma PairsGiveAc1(human: seq<string>, judge: seq<string>, p: string, q: string)
    requires Binary(human, judge, p, q) && human != []
    ensures GwetAc1Multi(Pairs(human, judge), [p, q]) == Ok(GwetAc1(MatrixOf(human, judge, p)))
  {
    PairsAreBinary(human, judge, p, q);
    hide SumAgreement, SumSpread, Pool, MatrixOf, MeanChance, MeanRate, Spread, Corrected, Observed, GwetAc1Multi, Pairs, Binary;
    MultiUnfolds(Pairs(human, judge), p, q);
    ObservedOfPairs(human, judge, p, q);
    ChanceOfPairs(human, judge, p, q);
  }

  lemma ObservedOfPairs(human: seq<string>, judge: seq<string>, p: string, q: string)
    requires Binary(human, judge, p, q) && human != []
    ensures Total(MatrixOf(human, judge, p)) == |human|
    ensures SumAgreement(Pairs(human, judge), [p, q]) / |Pairs(human, judge)| as real == Observed(MatrixOf(human, judge, p))
  {
    hide SumAgreement, MatrixOf, Pairs;
    MatrixTotal(human, judge, p);
    PairsAgreement(human, judge, p, q);
  }

  lemma ChanceOfPairs(human: seq<string>, judge: seq<string>, p: string, q: string)
    requires Binary(human, judge, p, q) && human != []
    ensures Total(MatrixOf(human, judge, p)) == |human|
    ensures SumSpread(Pool(Pairs(human, judge)), |Pairs(human, judge)| * 2, [p, q]) == MeanChance(MeanRate(MatrixOf(human, judge, p)))
  {
    hide SumSpread, Pool, MatrixOf, MeanChance, MeanRate, Spread, Pairs;
    MatrixTotal(human, judge, p);
    PairsPool(human, judge, p, q);
    TwoSpreads(Pool(Pairs(human, judge)), |Pairs(human, judge)| * 2, p, q);
    ChanceOfMatrix(MatrixOf(human, judge, p));
  }

  lemma PairsAreBinary(human: seq<string>, judge: seq<string>, p: string, q: string)
    requires Binary(human, judge, p, q)
    ensures p != q && |human| == |judge| == |Pairs(human, judge)|
    ensures forall i :: 0 <= i < |Pairs(human, judge)| ==>
      |Pairs(human, judge)[i]| == 2 && forall c :: c in Pairs(human, judge)[i] ==> c == p || c == q
  {
  }

  lemma ChanceOfMatrix(m: Matrix)
    requires Total(m) > 0
    ensures Spread((m.tp + m.fn) + (m.tp + m.fp), Total(m) * 2) + Spread((m.tn + m.fn) + (m.tn + m.fp), Total(m) * 2)
         == MeanChance(MeanRate(m))
  {
    hide Spread, MeanChance;
    SpreadsAreMeanChance(m.tp + m.fn, m.tp + m.fp, Total(m));
  }

  lemma MultiUnfolds(ratings: seq<seq<string>>, p: string, q: string)
    requires p != q && ratings != []
    requires forall i :: 0 <= i < |ratings| ==> |ratings[i]| == 2 && forall c :: c in ratings[i] ==> c == p || c == q
    ensures GwetAc1Multi(ratings, [p, q])
         == Ok(Corrected(SumAgreement(ratings, [p, q]) / |ratings| as real, SumSpread(Pool(ratings), |ratings| * 2, [p, q])))
  {
    TwoAreDistinct(p, q);
    hide SumAgreement, SumSpread, Pool, Distinct, Corrected;
    assert OnScale(ratings, [p, q]);
    var chance := SumSpread(Pool(ratings), |ratings| * 2, [p, q]);
    assert chance / 1.0 == chance;
  }

  lemma TwoAreDistinct(p: string, q: string)
    requires p != q
    ensures Distinct([p, q]) == [p, q]
  {
    assert [p, q][..1] == [p] && [p][..0] == [];
    assert Distinct([p]) == [p];
  }

  /** The labels of an evaluation are such a pair of categories. */
  lemma LabelsAreBinary(human: seq<string>, judge: seq<string>, positive: string)
    requires |human| == |judge| && IsLabel(positive) && AllLabels(human) && AllLabels(judge)
    ensures Binary(human, judge, positive, Other(positive))
  {
    assert forall i :: 0 <= i < |human| ==> human[i] in human && judge[i] in judge;
  }
}
