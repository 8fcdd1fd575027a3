/**
 * The instructor's side of an undecided result: which resolution is possible,
 * and the one-way change it makes (backend/app/checks/escalation.py,
 * lines 29-59 and 218-446).
 */
module Resolution {
  import opened Wrappers
  import opened Levels

  datatype Choice = AcceptMajority | MarkPass | MarkFail | NeedsDocument | MarkLevel | Other(name: string)

  const NEEDS_REVIEW: set<Outcome> := {Escalated, Unverifiable, QuotaExhausted, ApiDown}

  /** The part of a result's stored detail that a resolution reads or writes. */
  datatype Detail = Detail(
    verdict: Option<string>,
    supportWithheld: bool,
    level: Option<LevelMatch>,
    resolution: Option<Choice>,
    original: Option<(Outcome, Option<real>, Option<LevelMatch>)>
  )

  datatype Refusal = Conflict | NotFound

  datatype Selected = Selected(outcome: Outcome, score: Option<real>, level: Option<LevelMatch>)

  /** `select_resolution`, for a workflow that allows accepting the majority. */
  function Select(isSpace: char -> bool, criterion: Criterion, detail: Detail, choice: Choice, ordinal: Option<int>)
    : Result<Selected, Refusal>
  {
    if choice.Other? then Err(Conflict)
    else if choice in {MarkPass, MarkFail} && criterion.levels != [] then Err(Conflict)
    else if choice == MarkLevel && criterion.levels == [] then Err(Conflict)
    else match choice
      case AcceptMajority =>
        if detail.supportWithheld || detail.verdict.None? then Err(Conflict)
        else
          var g := OutcomeAndScore(isSpace, criterion, detail.verdict.value);
          if g.outcome == Escalated then Err(Conflict) else Ok(Selected(g.outcome, g.score, g.level))
      case MarkPass => Ok(Selected(Passed, Some(100.0), None))
      case MarkFail => Ok(Selected(Failed, Some(0.0), None))
      case MarkLevel =>
        var m := if ordinal.None? then None else MatchOrdinal(criterion.levels, ordinal.value);
        if m.None? || m.value.maxPoints == 0.0 then Err(Conflict)
        else Ok(Selected(Passed, Some(Score(m.value)), m))
      case NeedsDocument => Ok(Selected(NotApplicable, None, None))
      case Other(_) => Err(Conflict)
  }

  /** One request, with what the database answered for its ids. */
  datatype Request = Request(
    choice: Choice,
    ordinal: Option<int>,
    reasonLength: nat,          // of the comment, stripped
    onThisRun: bool,            // the result exists and belongs to the named run
    sameRubric: bool            // criterion and run exist and share a rubric
  )

  datatype Stored = Stored(criterion: Option<Criterion>, outcome: Outcome, score: Option<real>, detail: Detail)

  /** What a request does to a stored result. */
  function Resolve(isSpace: char -> bool, reasonMin: nat, s: Stored, r: Request): Result<Stored, Refusal> {
    if r.choice.Other? then Err(Conflict)
    else if r.choice in {NeedsDocument, AcceptMajority} && r.reasonLength < reasonMin then Err(Conflict)
    else if !r.onThisRun then Err(NotFound)
    else if s.criterion.None? then Err(Conflict)
    else if s.outcome !in NEEDS_REVIEW then Err(Conflict)
    else if !r.sameRubric then Err(NotFound)
    else
      match Select(isSpace, s.criterion.value, s.detail, r.choice, r.ordinal)
      case Err(e) => Err(e)
      case Ok(chosen) =>
        var detail := s.detail.(original := Some((s.outcome, s.score, s.detail.level)), level := chosen.level,
                                resolution := Some(r.choice));
        Ok(Stored(s.criterion, chosen.outcome, chosen.score, detail))
  }

  /** The row as the session holds it, changed in place. */
  class CheckResult {
    const criterion: Option<Criterion>
    var outcome: Outcome
    var score: Option<real>
    var detail: Detail

    function Value(): Stored
      reads this
    {
      Stored(criterion, outcome, score, detail)
    }

    constructor (criterion: Option<Criterion>, outcome: Outcome, score: Option<real>, detail: Detail)
      ensures Value() == Stored(criterion, outcome, score, detail)
    {
      this.criterion, this.outcome, this.score, this.detail := criterion, outcome, score, detail;
    }

    /** `resolve_escalation`: a refused request changes nothing. */
    method ResolveEscalation(isSpace: char -> bool, reasonMin: nat, r: Request) returns (refused: Option<Refusal>)
      modifies this
      ensures match Resolve(isSpace, reasonMin, old(Value()), r)
              case Err(e) => refused == Some(e) && Value() == old(Value())
              case Ok(after) => refused == None && Value() == after
    {
      if r.choice.Other? {
        return Some(Conflict);
      }
      if r.choice in {NeedsDocument, AcceptMajority} && r.reasonLength < reasonMin {
        return Some(Conflict);
      }
      if !r.onThisRun {
        return Some(NotFound);
      }
      if criterion.None? || outcome !in NEEDS_REVIEW {
        return Some(Conflict);
      }
      if !r.sameRubric {
        return Some(NotFound);
      }
      var chosen := Select(isSpace, criterion.value, detail, r.choice, r.ordinal);
      if chosen.Err? {
        return Some(chosen.error);
      }
      var changed := detail.(original := Some((outcome, score, detail.level)));
      if chosen.value.level.Some? {
        changed := changed.(level := chosen.value.level);
      } else if changed.level.Some? {
        changed := changed.(level := None);
      }
      changed := changed.(resolution := Some(r.choice));
      outcome, score, detail := chosen.value.outcome, chosen.value.score, changed;
      return None;
    }
  }

  // ----- The lifecycle

  /**
   * A successful resolution starts from a result that needs review and
   * leaves one that does not, scored within [0, 100] unless it is set aside
   * as not applicable; the original outcome, score and vote stay on record.
   */
  lemma ResolutionLeavesReview(isSpace: char -> bool, reasonMin: nat, s: Stored, r: Request)
    requires s.criterion.Some? ==> FairScale(s.criterion.value)
    ensures match Resolve(isSpace, reasonMin, s, r)
            case Err(_) => true
            case Ok(after) =>
              && s.outcome in NEEDS_REVIEW && after.outcome !in NEEDS_REVIEW
              && (after.score.None? <==> after.outcome == NotApplicable)
              && (after.score.Some? ==> 0.0 <= after.score.value <= 100.0)
              && after.detail.original == Some((s.outcome, s.score, s.detail.level))
              && after.detail.verdict == s.detail.verdict
  {
    hide Select;
    if s.criterion.Some? {
      SelectionIsFinal(isSpace, s.criterion.value, s.detail, r.choice, r.ordinal);
    }
  }

  /** What is selected is not undecided, and its score is in range, or absent when not applicable. */
  lemma SelectionIsFinal(isSpace: char -> bool, criterion: Criterion, detail: Detail, choice: Choice, ordinal: Option<int>)
    requires FairScale(criterion)
    ensures var selected := Select(isSpace, criterion, detail, choice, ordinal);
            selected.Ok? ==>
              && selected.value.outcome in {Passed, Failed, NotApplicable}
              && (selected.value.score.None? <==> selected.value.outcome == NotApplicable)
              && (selected.value.score.Some? ==> 0.0 <= selected.value.score.value <= 100.0)
  {
    hide OutcomeAndScore, MatchOrdinal, Score, FairScale;
    if choice == AcceptMajority && detail.verdict.Some? {
      GradeShape(isSpace, criterion, detail.verdict.value);
    }
    if choice == MarkLevel && ordinal.Some? {
      MatchedLevelScores(criterion, ordinal.value);
    }
  }

  lemma MatchedLevelScores(criterion: Criterion, ordinal: int)
    requires FairScale(criterion)
    ensures var m := MatchOrdinal(criterion.levels, ordinal);
            m.Some? && m.value.maxPoints != 0.0 ==> 0.0 <= Score(m.value) <= 100.0
  {
    hide Score;
    var levels := criterion.levels;
    if MatchOrdinal(levels, ordinal).Some? && MaxPoints(levels) != 0.0 {
      LevelScoreRange(levels, levels[FirstOrdinal(levels, ordinal)]);
    }
  }

  /** Whatever the scale, a resolution goes from under review to out of review. */
  lemma ResolutionIsFinal(isSpace: char -> bool, reasonMin: nat, s: Stored, r: Request)
    ensures var after := Resolve(isSpace, reasonMin, s, r);
            after.Ok? ==> s.outcome in NEEDS_REVIEW && after.value.outcome !in NEEDS_REVIEW
  {
    hide MatchOrdinal, MatchLevel, Score;
  }

  /** A sequence of requests on one result, each seeing what the earlier ones left. */
  function RunAll(isSpace: char -> bool, reasonMin: nat, s: Stored, rs: seq<Request>): (Stored, nat)
    decreases rs
  {
    if rs == [] then (s, 0)
    else
      match Resolve(isSpace, reasonMin, s, rs[0])
      case Err(_) => RunAll(isSpace, reasonMin, s, rs[1..])
      case Ok(after) =>
        var (last, n) := RunAll(isSpace, reasonMin, after, rs[1..]);
        (last, n + 1)
  }

  /** No sequence of requests resolves a result twice, and a result out of review never changes. */
  lemma {:induction false} ResolvedAtMostOnce(isSpace: char -> bool, reasonMin: nat, s: Stored, rs: seq<Request>)
    ensures var (last, n) := RunAll(isSpace, reasonMin, s, rs);
            && n <= 1
            && (n == 0 ==> last == s)
            && (s.outcome !in NEEDS_REVIEW ==> n == 0)
            && (n == 1 ==> last.outcome !in NEEDS_REVIEW)
    decreases rs
  {
    if rs != [] {
      ResolutionIsFinal(isSpace, reasonMin, s, rs[0]);
      match Resolve(isSpace, reasonMin, s, rs[0])
      case Err(_) => ResolvedAtMostOnce(isSpace, reasonMin, s, rs[1..]);
      case Ok(after) => ResolvedAtMostOnce(isSpace, reasonMin, after, rs[1..]);
    }
  }

  /**
   * Each kind of criterion can be resolved in its own vocabulary only; and a
   * majority can be accepted exactly when it names one level of the scale and
   * no other, or is one of the three words of a criterion without levels.
   */
  lemma VocabularyFollowsTheScale(isSpace: char -> bool, criterion: Criterion, detail: Detail, choice: Choice, ordinal: Option<int>)
    ensures choice in {MarkPass, MarkFail} ==>
      (Select(isSpace, criterion, detail, choice, ordinal).Ok? <==> criterion.levels == [])
    ensures choice == MarkLevel ==>
      (Select(isSpace, criterion, detail, choice, ordinal).Ok? <==>
        && ordinal.Some?
        && (exists i :: 0 <= i < |criterion.levels| && criterion.levels[i].ordinal == ordinal.value)
        && MaxPoints(criterion.levels) != 0.0)
    ensures choice == NeedsDocument ==> Select(isSpace, criterion, detail, choice, ordinal).Ok?
    ensures choice == AcceptMajority ==>
      (Select(isSpace, criterion, detail, choice, ordinal).Ok? <==>
        && !detail.supportWithheld && detail.verdict.Some?
        && if criterion.levels == [] then detail.verdict.value in {"pass", "partial", "fail"}
           else MaxPoints(criterion.levels) != 0.0 && NamesOneLevel(isSpace, criterion.levels, detail.verdict.value))
  {
    hide MatchLevel, Score;
    if detail.verdict.Some? {
      RecognisedExactlyWhenUnique(isSpace, criterion.levels, detail.verdict.value);
      MatchHasMaximum(isSpace, criterion.levels, detail.verdict.value);
    }
  }

  predicate NamesOneLevel(isSpace: char -> bool, levels: seq<Level>, verdict: string) {
    exists i :: 0 <= i < |levels| && Names(isSpace, levels[i], verdict)
      && forall j :: 0 <= j < |levels| && j != i ==> !Names(isSpace, levels[j], verdict)
  }

  lemma MatchHasMaximum(isSpace: char -> bool, levels: seq<Level>, verdict: string)
    ensures var m := MatchLevel(isSpace, levels, verdict); m.Some? ==> m.value.maxPoints == MaxPoints(levels)
  {
  }
}
