/**
 * A criterion's own scale: which level a verdict string names, and what it
 * scores (backend/app/checks/levels.py).
 */
module Levels {
  import opened Wrappers

  datatype Outcome = Passed | Failed | Escalated | NotApplicable | Unverifiable | ApiDown | QuotaExhausted

  datatype Level = Level(name: string, ordinal: int, points: real)

  /** A criterion without levels is graded pass, partial or fail. */
  datatype Criterion = Criterion(id: int, levels: seq<Level>)

  datatype LevelMatch = LevelMatch(name: string, ordinal: int, points: real, maxPoints: real)

  /** `normalize_verdict`: all whitespace removed, case kept. */
  function Squeeze(isSpace: char -> bool, s: string): string {
    if s == [] then []
    else (if isSpace(s[0]) then [] else [s[0]]) + Squeeze(isSpace, s[1..])
  }

  function MaxPoints(levels: seq<Level>): (r: real)
    requires levels != []
    ensures exists i :: 0 <= i < |levels| && r == levels[i].points
    ensures forall i :: 0 <= i < |levels| ==> levels[i].points <= r
  {
    if |levels| == 1 then levels[0].points
    else
      var rest := MaxPoints(levels[1..]);
      assert forall i :: 1 <= i < |levels| ==> levels[i] == levels[1..][i - 1];
      if rest < levels[0].points then levels[0].points else rest
  }

  predicate Names(isSpace: char -> bool, level: Level, verdict: string) {
    Squeeze(isSpace, level.name) == Squeeze(isSpace, verdict)
  }

  /** The levels a verdict names, in scale order. */
  function NamedLevels(isSpace: char -> bool, levels: seq<Level>, verdict: string): (r: seq<Level>)
    ensures forall l :: l in r <==> l in levels && Names(isSpace, l, verdict)
  {
    if levels == [] then []
    else
      (if Names(isSpace, levels[0], verdict) then [levels[0]] else [])
      + NamedLevels(isSpace, levels[1..], verdict)
  }

  function AsMatch(levels: seq<Level>, level: Level): LevelMatch
    requires levels != []
  {
    LevelMatch(level.name, level.ordinal, level.points, MaxPoints(levels))
  }

  /** `match_level`: one level or none; two that cannot be told apart are none. */
  function MatchLevel(isSpace: char -> bool, levels: seq<Level>, verdict: string): Option<LevelMatch> {
    var named := NamedLevels(isSpace, levels, verdict);
    if |named| != 1 then None
    else
      assert named[0] in named;
      Some(AsMatch(levels, named[0]))
  }

  /** `match_level_by_ordinal`: the first level with the ordinal. */
  function MatchOrdinal(levels: seq<Level>, ordinal: int): Option<LevelMatch> {
    if exists i :: 0 <= i < |levels| && levels[i].ordinal == ordinal then
      Some(AsMatch(levels, levels[FirstOrdinal(levels, ordinal)]))
    else None
  }

  function FirstOrdinal(levels: seq<Level>, ordinal: int): (r: nat)
    requires exists i :: 0 <= i < |levels| && levels[i].ordinal == ordinal
    ensures r < |levels| && levels[r].ordinal == ordinal
    ensures forall i :: 0 <= i < r ==> levels[i].ordinal != ordinal
  {
    if levels[0].ordinal == ordinal then 0
    else
      assert exists i :: 0 <= i < |levels[1..]| && levels[1..][i].ordinal == ordinal by {
        var i :| 0 <= i < |levels| && levels[i].ordinal == ordinal;
        assert levels[1..][i - 1] == levels[i];
      }
      var r := FirstOrdinal(levels[1..], ordinal);
      assert forall i :: 1 <= i < |levels| ==> levels[i] == levels[1..][i - 1];
      r + 1
  }

  function Score(m: LevelMatch): real
    requires m.maxPoints != 0.0
  {
    m.points / m.maxPoints * 100.0
  }

  datatype Graded = Graded(outcome: Outcome, score: Option<real>, level: Option<LevelMatch>)

  const UNDECIDED := Graded(Escalated, None, None)

  /** `outcome_and_score` */
  function OutcomeAndScore(isSpace: char -> bool, criterion: Criterion, verdict: string): Graded {
    if criterion.levels != [] then
      var m := MatchLevel(isSpace, criterion.levels, verdict);
      if m.None? || m.value.maxPoints == 0.0 then UNDECIDED
      else Graded(Passed, Some(Score(m.value)), m)
    else if verdict == "pass" then Graded(Passed, Some(100.0), None)
    else if verdict == "partial" then Graded(Passed, Some(50.0), None)
    else if verdict == "fail" then Graded(Failed, Some(0.0), None)
    else UNDECIDED
  }

  // ----- What a scale guarantees

  /** The scale's schema: no level is worth less than nothing. */
  predicate FairScale(criterion: Criterion) {
    forall i :: 0 <= i < |criterion.levels| ==> criterion.levels[i].points >= 0.0
  }

  /** A level of a scale that reaches above zero scores within [0, 100] exactly when it is worth at least nothing. */
  lemma LevelScoreRange(levels: seq<Level>, level: Level)
    requires level in levels && MaxPoints(levels) > 0.0
    ensures 0.0 <= Score(AsMatch(levels, level)) <= 100.0 <==> level.points >= 0.0
    ensures Score(AsMatch(levels, level)) == 100.0 <==> level.points == MaxPoints(levels)
  {
    var i :| 0 <= i < |levels| && levels[i] == level;
    ShareOf(level.points, MaxPoints(levels));
  }

  lemma ShareOf(points: real, most: real)
    requires most > 0.0 && points <= most
    ensures 0.0 <= points / most * 100.0 <= 100.0 <==> points >= 0.0
    ensures points / most * 100.0 == 100.0 <==> points == most
  {
    var share := points / most;
    assert share * most == points;
    Shares(share, most);
  }

  lemma Shares(share: real, most: real)
    requires most > 0.0
    ensures share * most >= 0.0 <==> share >= 0.0
    ensures share * most <= most <==> share <= 1.0
    ensures share * most == most <==> share == 1.0
  {
    assert (share - 1.0) * most == share * most - most;
  }

  /** The grade of a verdict is undecided, or passed or failed with a score in [0, 100]. */
  lemma GradeShape(isSpace: char -> bool, criterion: Criterion, verdict: string)
    requires FairScale(criterion)
    ensures var g := OutcomeAndScore(isSpace, criterion, verdict);
            && g.outcome in {Passed, Failed, Escalated}
            && (g.outcome == Escalated <==> g.score.None?)
            && (g.score.Some? ==> 0.0 <= g.score.value <= 100.0)
  {
    var named := NamedLevels(isSpace, criterion.levels, verdict);
    if criterion.levels != [] && |named| == 1 {
      assert named[0] in named;
      if MaxPoints(criterion.levels) != 0.0 {
        LevelScoreRange(criterion.levels, named[0]);
      }
    }
  }

  lemma {:induction false} NamedOnce(isSpace: char -> bool, levels: seq<Level>, verdict: string, i: nat)
    requires i < |levels| && Names(isSpace, levels[i], verdict)
    ensures |NamedLevels(isSpace, levels, verdict)| == 1 <==>
      forall j :: 0 <= j < |levels| && j != i ==> !Names(isSpace, levels[j], verdict)
  {
    var rest := NamedLevels(isSpace, levels[1..], verdict);
    assert forall j :: 1 <= j < |levels| ==> levels[j] == levels[1..][j - 1];
    if i == 0 {
      if rest != [] {
        assert rest[0] in rest;
      }
      if j :| 1 <= j < |levels| && Names(isSpace, levels[j], verdict) {
        assert levels[1..][j - 1] in rest;
      }
    } else {
      NamedOnce(isSpace, levels[1..], verdict, i - 1);
      assert levels[1..][i - 1] in rest;
    }
  }

  /**
   * A level is recognised exactly when it alone is named: a spelling that
   * differs in whitespace still names it, and a verdict that fits two
   * levels names neither.
   */
  lemma RecognisedExactlyWhenUnique(isSpace: char -> bool, levels: seq<Level>, verdict: string)
    ensures MatchLevel(isSpace, levels, verdict).Some? <==>
      exists i :: 0 <= i < |levels| && Names(isSpace, levels[i], verdict)
        && forall j :: 0 <= j < |levels| && j != i ==> !Names(isSpace, levels[j], verdict)
    ensures forall other :: Squeeze(isSpace, other) == Squeeze(isSpace, verdict) ==>
      MatchLevel(isSpace, levels, other) == MatchLevel(isSpace, levels, verdict)
  {
    var named := NamedLevels(isSpace, levels, verdict);
    if named != [] {
      assert named[0] in named;
      var i :| 0 <= i < |levels| && levels[i] == named[0];
      NamedOnce(isSpace, levels, verdict, i);
    }
    if i :| 0 <= i < |levels| && Names(isSpace, levels[i], verdict)
            && forall j :: 0 <= j < |levels| && j != i ==> !Names(isSpace, levels[j], verdict) {
      NamedOnce(isSpace, levels, verdict, i);
    }
    forall other | Squeeze(isSpace, other) == Squeeze(isSpace, verdict)
      ensures MatchLevel(isSpace, levels, other) == MatchLevel(isSpace, levels, verdict)
    {
      SameNames(isSpace, levels, verdict, other);
    }
  }

  lemma {:induction false} SameNames(isSpace: char -> bool, levels: seq<Level>, a: string, b: string)
    requires Squeeze(isSpace, a) == Squeeze(isSpace, b)
    ensures NamedLevels(isSpace, levels, a) == NamedLevels(isSpace, levels, b)
  {
    if levels != [] {
      SameNames(isSpace, levels[1..], a, b);
    }
  }
}
