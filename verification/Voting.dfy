/**
 * Two grading passes, a tie-break when they differ, and the gate that decides
 * whether the vote stands (backend/app/checks/consistency.py, lines 89-136,
 * 178-342 and 400-594; backend/app/checks/semantic.py, lines 739-779;
 * backend/app/checks/escalation.py, lines 89-126).
 */
module Voting {
  import opened Wrappers
  import opened SourceText
  import opened Levels
  import opened Grading
  import opened Tallies
  import Resolution

  datatype Basis = SingleVerifiedPass | LowerOfTwo | MiddleOfThree

  datatype VoteResult = VoteResult(
    majority: Option<string>,
    agreement: real,
    votes: seq<Option<string>>,
    winner: Option<GradedVerdict>,   // the pass whose evidence is shown
    reasons: seq<Reason>,
    failed: Option<Outcome>,
    basis: Option<Basis>
  )

  /** "decide" grades whatever can be grounded; "escalate" hands every disagreement to the instructor. */
  datatype Policy = Policy(decide: bool, threshold: real)

  function VoteOf(g: GradedVerdict): Option<string> {
    if g.Decided? then Some(g.verdict) else None
  }

  function ReasonsOf(g: GradedVerdict): seq<Reason> {
    if g.Open? then [g.reason] else []
  }

  /** `_downgrade_if_claimed`: borrowed evidence is dropped, and a verdict left without any is withdrawn. */
  function Downgrade(key: Key, g: GradedVerdict, claimed: set<string>): GradedVerdict
    requires g.Decided? ==> Paired(g.evidence)
  {
    if g.Open? || g.evidence.quotes == [] then g
    else
      var kept := Unclaimed(key, g.evidence, claimed);
      if kept.quotes == [] then Open(g.id, Some(g.why), g.evidence.quotes, EvidenceAlreadyUsed, None, true)
      else if |kept.quotes| == |g.evidence.quotes| then g
      else Decided(g.id, g.verdict, g.why, kept)
  }

  // ----- The policy "decide"

  datatype Placed = Placed(position: real, graded: GradedVerdict)

  /** Verdicts with their place on the scale; uncertain ones abstain; None when one has no place. */
  function Place(u: Unicode, criterion: Criterion, graded: seq<GradedVerdict>): (r: Option<seq<Placed>>)
    ensures r.Some? ==> |r.value| <= |graded|
  {
    if graded == [] then Some([])
    else
      var g, rest := graded[0], Place(u, criterion, graded[1..]);
      if g.Decided? && u.lower(Strip(u, g.verdict)) == "uncertain" then rest
      else if g.Open? || rest.None? then None
      else
        var position := OutcomeAndScore(u.isSpace, criterion, g.verdict).score;
        if position.None? then None else Some([Placed(position.value, g)] + rest.value)
  }

  /** list.sort by position, which keeps the order of equals. */
  function Insert(p: Placed, sorted: seq<Placed>): (r: seq<Placed>)
    ensures |r| == |sorted| + 1
  {
    if sorted == [] || p.position <= sorted[0].position then [p] + sorted
    else [sorted[0]] + Insert(p, sorted[1..])
  }

  function Sort(ps: seq<Placed>): (r: seq<Placed>)
    ensures |r| == |ps|
  {
    if ps == [] then [] else Insert(ps[0], Sort(ps[1..]))
  }

  function Agreeing(graded: seq<GradedVerdict>, verdict: string): nat {
    if graded == [] then 0
    else Agreeing(graded[1..], verdict) + if VoteOf(graded[0]) == Some(verdict) then 1 else 0
  }

  /** `_decided_vote`: the middle of three placed verdicts, the lower of two, or the only one. */
  function DecidedVote(u: Unicode, criterion: Criterion, graded: seq<GradedVerdict>, votes: seq<Option<string>>): Option<VoteResult>
    requires |graded| <= 3 && votes != []
  {
    var placed := Place(u, criterion, graded);
    if placed.None? || placed.value == [] then None
    else
      var sorted := Sort(placed.value);
      var winner := if |sorted| == 3 then sorted[1].graded else sorted[0].graded;
      if winner.Open? then None
      else
        var basis := if |sorted| == 3 then MiddleOfThree else if |sorted| == 2 then LowerOfTwo else SingleVerifiedPass;
        Some(VoteResult(Some(winner.verdict), Round3(Agreeing(graded, winner.verdict) as real / |votes| as real),
                        votes, Some(winner), [], None, Some(basis)))
  }

  // ----- One criterion's vote

  function NoVote(votes: seq<Option<string>>, reasons: seq<Reason>, failed: Option<Outcome>): VoteResult {
    VoteResult(None, 0.0, votes, None, reasons, failed, None)
  }

  /** After both passes were downgraded: is the third call spent? */
  predicate NeedsTieBreak(u: Unicode, g1: GradedVerdict, g2: GradedVerdict, skip: bool) {
    g1.Decided? && g2.Decided? && Class(u, g1.verdict) != Class(u, g2.verdict) && !skip
  }

  /** The vote when a pass has no verdict. */
  function VoteOfOne(policy: Policy, g1: GradedVerdict, g2: GradedVerdict): VoteResult
    requires g1.Open? || g2.Open?
  {
    var votes := [VoteOf(g1), VoteOf(g2)];
    var failed := if g1.Open? && g1.failed.Some? then g1.failed else if g2.Open? then g2.failed else None;
    if policy.decide && failed.None? && (g1.Decided? || g2.Decided?) then
      var winner := if g1.Decided? then g1 else g2;
      VoteResult(Some(winner.verdict), 0.5, votes, Some(winner), [], None, Some(SingleVerifiedPass))
    else NoVote(votes, if ReasonsOf(g1) == ReasonsOf(g2) then ReasonsOf(g1) else ReasonsOf(g1) + ReasonsOf(g2), failed)
  }

  /** The vote of two that differ, with nothing usable from the third. */
  function VoteOfTwo(u: Unicode, criterion: Criterion, policy: Policy, g1: GradedVerdict, g2: GradedVerdict, reason: Reason): VoteResult {
    var votes := [VoteOf(g1), VoteOf(g2), None];
    var decided := if policy.decide then DecidedVote(u, criterion, [g1, g2], votes) else None;
    if decided.Some? then decided.value else NoVote(votes, [reason], None)
  }

  /** The vote of three verdicts. */
  function VoteOfThree(u: Unicode, criterion: Criterion, policy: Policy, g1: GradedVerdict, g2: GradedVerdict, g3: GradedVerdict): VoteResult
    requires g1.Decided? && g2.Decided? && g3.Decided?
  {
    var votes := [Some(g1.verdict), Some(g2.verdict), Some(g3.verdict)];
    var (majority, agreement) := TallyOf(u, [g1.verdict, g2.verdict, g3.verdict]);
    var decided := if majority.None? && policy.decide then DecidedVote(u, criterion, [g1, g2, g3], votes) else None;
    if decided.Some? then decided.value
    else
      var winner := if majority.None? then None
                    else if g1.verdict == majority.value then Some(g1)
                    else if g2.verdict == majority.value then Some(g2)
                    else if g3.verdict == majority.value then Some(g3) else None;
      VoteResult(majority, agreement, votes, winner, [], None, None)
  }

  /** What the tie-break leads to; None when its call raised. */
  ghost function AfterTieBreak(key: Key, locate: Locate, u: Unicode, criterion: Criterion, policy: Policy,
                               g1: GradedVerdict, g2: GradedVerdict, tie: Reply, claimed: set<string>): Option<VoteResult>
    requires g1.Decided? && g2.Decided?
  {
    match tie
    case QuotaSpent => None
    case Unavailable => Some(NoVote([VoteOf(g1), VoteOf(g2), None], [TieBreakUnavailable], Some(ApiDown)))
    case Answered(answer) =>
      var third := RetryOf(locate, answer);
      if third.None? then Some(VoteOfTwo(u, criterion, policy, g1, g2, NotVerifiedByTieBreak))
      else
        var (v, e) := third.value;
        if e.None? then Some(VoteOfTwo(u, criterion, policy, g1, g2, EvidenceNotLocated))
        else
          var g3 := Downgrade(key, Decided(criterion.id, v.verdict, v.reasoning, e.value), claimed);
          if g3.Open? then Some(VoteOfTwo(u, criterion, policy, g1, g2, EvidenceAlreadyUsed))
          else Some(VoteOfThree(u, criterion, policy, g1, g2, g3))
  }

  /** `_vote_for_criterion` in closed form. */
  ghost function VoteFor(key: Key, locate: Locate, u: Unicode, criterion: Criterion, policy: Policy,
                         p1: GradedVerdict, p2: GradedVerdict, tie: Reply, skip: bool, claimed: set<string>): Option<VoteResult>
    requires p1.Decided? ==> Paired(p1.evidence)
    requires p2.Decided? ==> Paired(p2.evidence)
  {
    var g1, g2 := Downgrade(key, p1, claimed), Downgrade(key, p2, claimed);
    if g1.Open? || g2.Open? then Some(VoteOfOne(policy, g1, g2))
    else if Class(u, g1.verdict) == Class(u, g2.verdict) then
      Some(VoteResult(Some(g1.verdict), 1.0, [VoteOf(g1), VoteOf(g2)], Some(g1), [], None, None))
    else if skip then
      var (majority, agreement) := TallyOf(u, [g1.verdict, g2.verdict]);
      Some(VoteResult(majority, agreement, [VoteOf(g1), VoteOf(g2)], None, [], None, None))
    else AfterTieBreak(key, locate, u, criterion, policy, g1, g2, tie, claimed)
  }

  /** The program's own order of calls: the third one only when it is needed. */
  method VoteForCriterion(key: Key, locate: Locate, u: Unicode, criterion: Criterion, policy: Policy,
                          p1: GradedVerdict, p2: GradedVerdict, tie: Reply, skip: bool, claimed: set<string>)
    returns (r: Option<VoteResult>, called: bool)
    requires p1.Decided? ==> Paired(p1.evidence)
    requires p2.Decided? ==> Paired(p2.evidence)
    ensures r == VoteFor(key, locate, u, criterion, policy, p1, p2, tie, skip, claimed)
    ensures called <==> NeedsTieBreak(u, Downgrade(key, p1, claimed), Downgrade(key, p2, claimed), skip)
    ensures r.None? ==> called && tie.QuotaSpent?
  {
    hide TallyOf, DecidedVote, Class, Unclaimed;
    called := false;
    var g1, g2 := Downgrade(key, p1, claimed), Downgrade(key, p2, claimed);
    if g1.Open? || g2.Open? {
      return Some(VoteOfOne(policy, g1, g2)), called;
    }
    if Class(u, g1.verdict) == Class(u, g2.verdict) {
      return Some(VoteResult(Some(g1.verdict), 1.0, [VoteOf(g1), VoteOf(g2)], Some(g1), [], None, None)), called;
    }
    if skip {
      var majority, agreement := Tally(u, [g1.verdict, g2.verdict]);
      return Some(VoteResult(majority, agreement, [VoteOf(g1), VoteOf(g2)], None, [], None, None)), called;
    }
    called := true;
    if tie.QuotaSpent? {
      return None, called;
    }
    if tie.Unavailable? {
      return Some(NoVote([VoteOf(g1), VoteOf(g2), None], [TieBreakUnavailable], Some(ApiDown))), called;
    }
    var third := GradeSingle(locate, tie.answer);
    if third.None? {
      return Some(VoteOfTwo(u, criterion, policy, g1, g2, NotVerifiedByTieBreak)), called;
    }
    var (v, e) := third.value;
    if e.None? {
      return Some(VoteOfTwo(u, criterion, policy, g1, g2, EvidenceNotLocated)), called;
    }
    var g3 := Downgrade(key, Decided(criterion.id, v.verdict, v.reasoning, e.value), claimed);
    if g3.Open? {
      return Some(VoteOfTwo(u, criterion, policy, g1, g2, EvidenceAlreadyUsed)), called;
    }
    r := Some(VoteOfThree(u, criterion, policy, g1, g2, g3));
  }

  /** `gate_vote` */
  function GateVote(u: Unicode, criterion: Criterion, policy: Policy, majority: Option<string>, agreement: real): Graded {
    if majority.None? then UNDECIDED
    else if !policy.decide && agreement < policy.threshold then UNDECIDED
    else OutcomeAndScore(u.isSpace, criterion, majority.value)
  }

  // ----- The whole batch

  datatype Voted = Voted(criterion: Criterion, vote: VoteResult, grade: Graded, shown: Option<string>, unrecognized: bool)

  /** The row for one vote: gate, outage, unrecognised verdict, and the override for a suspected injection. */
  function RowFor(u: Unicode, criterion: Criterion, policy: Policy, vote: VoteResult, injected: bool): Voted {
    var gated := GateVote(u, criterion, policy, vote.majority, vote.agreement);
    var grade := if vote.failed.Some? then Graded(vote.failed.value, None, None) else gated;
    var shown := if vote.winner.Some? && vote.winner.value.Decided? then Some(vote.winner.value.verdict) else None;
    var unrecognized :=
      && vote.majority.Some? && shown.Some?
      && OutcomeAndScore(u.isSpace, criterion, vote.majority.value).outcome == Escalated
      && !(grade.outcome == Passed && grade.level.Some?);
    Voted(criterion, vote, if injected then UNDECIDED else grade, shown, unrecognized)
  }

  const NOBODY := Open(0, None, [], NoVerdictReturned, None, true)

  /** The entry whose evidence is shown for a vote. */
  function Winner(v: Voted): GradedVerdict {
    if v.vote.winner.Some? then v.vote.winner.value else NOBODY
  }

  function Winners(voted: seq<Voted>): (r: seq<GradedVerdict>)
    ensures |r| == |voted| && forall i :: 0 <= i < |voted| ==> r[i] == Winner(voted[i])
  {
    seq(|voted|, i requires 0 <= i < |voted| => Winner(voted[i]))
  }

  /** When the first pass was down for every criterion, the second is not attempted. */
  function NotAttempted(entries: seq<GradedVerdict>): seq<GradedVerdict> {
    seq(|entries|, i requires 0 <= i < |entries| =>
      if entries[i].Open? then entries[i].(attempted := false, reason := PassNotAttempted) else entries[i])
  }

  predicate AllFailed(entries: seq<GradedVerdict>) {
    forall i :: 0 <= i < |entries| ==> entries[i].Open? && entries[i].failed.Some?
  }

  ghost predicate AllWellDecided(entries: seq<GradedVerdict>) {
    forall i :: 0 <= i < |entries| ==> WellDecided(entries[i])
  }

  function Ids(criteria: seq<Criterion>): seq<int> {
    seq(|criteria|, i requires 0 <= i < |criteria| => criteria[i].id)
  }

  /** The vote of criterion i given the winners before it. */
  ghost predicate VotedInTurn(env: Env, u: Unicode, policy: Policy, criterion: Criterion, p1: GradedVerdict, p2: GradedVerdict,
                              tie: Reply, injected: bool, before: seq<Voted>, v: Voted)
  {
    && WellDecided(p1) && WellDecided(p2)
    && var vote := VoteFor(env.key, env.locate, u, criterion, policy, p1, p2, tie, injected, ClaimedBy(env.key, Winners(before)));
    && vote.Some? && v == RowFor(u, criterion, policy, vote.value, injected)
  }

  /** What a run of the voting loop leaves. */
  ghost predicate VotedSoFar(env: Env, u: Unicode, policy: Policy, criteria: seq<Criterion>, p1: seq<GradedVerdict>,
                             p2: seq<GradedVerdict>, tieReply: nat -> Reply, injected: bool, voted: seq<Voted>)
  {
    && |voted| <= |criteria| == |p1| == |p2|
    && NeverShared(env.key, Winners(voted))
    && (forall i :: 0 <= i < |voted| ==>
          VotedInTurn(env, u, policy, criteria[i], p1[i], p2[i], tieReply(i), injected, voted[..i], voted[i]))
  }

  /** The entries are those of a whole grading pass. */
  ghost predicate IsPass(env: Env, ids: seq<int>, entries: seq<GradedVerdict>) {
    exists c, calls, sent :: PassLeaves(env, ids, entries, c, calls, sent)
  }

  /** The second pass, unless the first was down for every criterion. */
  ghost predicate SecondPass(env: Env, ids: seq<int>, p1: seq<GradedVerdict>, p2: seq<GradedVerdict>) {
    if AllFailed(p1) then p2 == NotAttempted(p1) else IsPass(env, ids, p2)
  }

  /** A third call was sent exactly for the criteria whose passes still differ after the winners before took theirs. */
  ghost predicate TiesNeeded(env: Env, u: Unicode, p1: seq<GradedVerdict>, p2: seq<GradedVerdict>, injected: bool,
                             voted: seq<Voted>, ties: seq<nat>)
    requires |voted| <= |p1| == |p2| && AllWellDecided(p1) && AllWellDecided(p2)
  {
    && (forall i :: 0 <= i < |voted| ==> (i in ties <==> TieIsNeeded(env, u, p1[i], p2[i], injected, voted[..i])))
    && (forall i :: i in ties ==> i < |voted|)
    && (forall i, j :: 0 <= i < j < |ties| ==> ties[i] != ties[j])
  }

  predicate TieIsNeeded(env: Env, u: Unicode, p1: GradedVerdict, p2: GradedVerdict, injected: bool, before: seq<Voted>)
    requires p1.Decided? ==> Paired(p1.evidence)
    requires p2.Decided? ==> Paired(p2.evidence)
  {
    var claimed := ClaimedBy(env.key, Winners(before));
    NeedsTieBreak(u, Downgrade(env.key, p1, claimed), Downgrade(env.key, p2, claimed), injected)
  }

  lemma TiesStay(env: Env, u: Unicode, p1: seq<GradedVerdict>, p2: seq<GradedVerdict>, injected: bool,
                 voted: seq<Voted>, ties: seq<nat>, v: Voted, called: bool)
    requires |voted| < |p1| == |p2| && AllWellDecided(p1) && AllWellDecided(p2)
    requires TiesNeeded(env, u, p1, p2, injected, voted, ties)
    requires WellDecided(p1[|voted|]) && WellDecided(p2[|voted|])
    requires called <==> TieIsNeeded(env, u, p1[|voted|], p2[|voted|], injected, voted)
    ensures TiesNeeded(env, u, p1, p2, injected, voted + [v], if called then ties + [|voted|] else ties)
  {
    hide TieIsNeeded;
    var n, after := |voted|, voted + [v];
    var ties' := if called then ties + [n] else ties;
    forall i | 0 <= i < |after|
      ensures i in ties' <==> TieIsNeeded(env, u, p1[i], p2[i], injected, after[..i])
    {
      if i == n {
        assert after[..i] == voted;
      } else {
        assert after[..i] == voted[..i];
      }
    }
  }

  lemma OneMoreVoted(env: Env, u: Unicode, policy: Policy, criteria: seq<Criterion>, p1: seq<GradedVerdict>,
                     p2: seq<GradedVerdict>, tieReply: nat -> Reply, injected: bool, voted: seq<Voted>, v: Voted)
    requires VotedSoFar(env, u, policy, criteria, p1, p2, tieReply, injected, voted) && |voted| < |criteria|
    requires var i := |voted|;
             VotedInTurn(env, u, policy, criteria[i], p1[i], p2[i], tieReply(i), injected, voted, v)
    ensures VotedSoFar(env, u, policy, criteria, p1, p2, tieReply, injected, voted + [v])
    ensures ClaimedBy(env.key, Winners(voted + [v])) == ClaimedBy(env.key, Winners(voted)) + KeysOf(env.key, Quotes(Winner(v)))
  {
    var i := |voted|;
    VoteIsSound(env.key, env.locate, u, criteria[i], policy, p1[i], p2[i], tieReply(i), injected,
                ClaimedBy(env.key, Winners(voted)));
    hide VoteFor, ClaimedBy, NeverShared, VotedInTurn;
    assert Winners(voted + [v]) == Winners(voted) + [Winner(v)];
    SharedStaysNever(env.key, Winners(voted), Winner(v));
    ClaimedOfOneMore(env.key, Winners(voted), Winner(v));
    forall k | 0 <= k < |voted + [v]|
      ensures VotedInTurn(env, u, policy, criteria[k], p1[k], p2[k], tieReply(k), injected, (voted + [v])[..k], (voted + [v])[k])
    {
      assert (voted + [v])[..k] == voted[..k];
      if k == i {
        assert voted[..k] == voted;
      }
    }
  }

  lemma ClaimedOfOneMore(key: Key, done: seq<GradedVerdict>, g: GradedVerdict)
    ensures ClaimedBy(key, done + [g]) == ClaimedBy(key, done) + KeysOf(key, Quotes(g))
  {
    assert (done + [g])[..|done|] == done;
  }

  /**
   * `vote_batch` up to the support check: None when a call raised. Whatever
   * the model answers in both passes, their repairs and the tie-breaks, no
   * quotation ends up as the winning evidence of two criteria.
   */
  method VoteBatch(env1: Env, env2: Env, u: Unicode, policy: Policy, criteria: seq<Criterion>, tieReply: nat -> Reply,
                   injected: bool)
    returns (r: Option<seq<Voted>>, ghost p1: seq<GradedVerdict>, ghost p2: seq<GradedVerdict>, ties: seq<nat>)
    requires env1.key == env2.key && env1.locate == env2.locate
    ensures r.Some? ==>
      && |r.value| == |criteria|
      && NeverShared(env1.key, Winners(r.value))
      && AllWellDecided(p1) && AllWellDecided(p2)
      && |p1| == |p2| == |criteria|
      && IsPass(env1, Ids(criteria), p1) && SecondPass(env2, Ids(criteria), p1, p2)
      && VotedSoFar(env1, u, policy, criteria, p1, p2, tieReply, injected, r.value)
      && TiesNeeded(env1, u, p1, p2, injected, r.value, ties)
    ensures |ties| <= |criteria| && (injected ==> ties == [])
  {
    hide VotedSoFar, NeverShared, PassLeaves, TiesNeeded;
    p1, p2, ties := [], [], [];
    var first, calls1, sent1, c1 := GradeBatch(env1, Ids(criteria));
    if first.PassRaised? {
      return None, p1, p2, ties;
    }
    var pass1 := first.entries;
    var pass2 := NotAttempted(pass1);
    if !AllFailed(pass1) {
      var second, calls2, sent2, c2 := GradeBatch(env2, Ids(criteria));
      if second.PassRaised? {
        return None, p1, p2, ties;
      }
      pass2 := second.entries;
    }
    p1, p2 := pass1, pass2;
    assert AllWellDecided(p1) && AllWellDecided(p2);
    r, ties := VoteAll(env1, u, policy, criteria, pass1, pass2, tieReply, injected);
  }

  /** The loop over the criteria, with what winners have claimed so far. */
  method VoteAll(env: Env, u: Unicode, policy: Policy, criteria: seq<Criterion>, pass1: seq<GradedVerdict>,
                 pass2: seq<GradedVerdict>, tieReply: nat -> Reply, injected: bool)
    returns (r: Option<seq<Voted>>, ties: seq<nat>)
    requires |pass1| == |pass2| == |criteria| && AllWellDecided(pass1) && AllWellDecided(pass2)
    ensures r.Some? ==>
      && |r.value| == |criteria|
      && NeverShared(env.key, Winners(r.value))
      && VotedSoFar(env, u, policy, criteria, pass1, pass2, tieReply, injected, r.value)
      && TiesNeeded(env, u, pass1, pass2, injected, r.value, ties)
    ensures |ties| <= |criteria| && (injected ==> ties == [])
  {
    hide VoteFor, ClaimedBy, NeverShared, Winners, TiesNeeded, VotedSoFar;
    var voted: seq<Voted>, claimed: set<string> := [], {};
    ties := [];
    NobodyVoted(env, u, policy, criteria, pass1, pass2, tieReply, injected);
    for i := 0 to |criteria|
      invariant |voted| == i && |ties| <= i && (injected ==> ties == [])
      invariant claimed == ClaimedBy(env.key, Winners(voted))
      invariant VotedSoFar(env, u, policy, criteria, pass1, pass2, tieReply, injected, voted)
      invariant TiesNeeded(env, u, pass1, pass2, injected, voted, ties)
    {
      assert WellDecided(pass1[i]) && WellDecided(pass2[i]);
      var vote, called := VoteForCriterion(env.key, env.locate, u, criteria[i], policy, pass1[i], pass2[i],
                                           tieReply(i), injected, claimed);
      ghost var earlier := ties;
      if called {
        ties := ties + [i];
      }
      if vote.None? {
        return None, ties;
      }
      var row := RowFor(u, criteria[i], policy, vote.value, injected);
      OneMoreVoted(env, u, policy, criteria, pass1, pass2, tieReply, injected, voted, row);
      TiesStay(env, u, pass1, pass2, injected, voted, earlier, row, called);
      claimed := claimed + KeysOf(env.key, Quotes(Winner(row)));
      voted := voted + [row];
    }
    VotedShareNothing(env, u, policy, criteria, pass1, pass2, tieReply, injected, voted);
    r := Some(voted);
  }

  lemma VotedShareNothing(env: Env, u: Unicode, policy: Policy, criteria: seq<Criterion>, p1: seq<GradedVerdict>,
                          p2: seq<GradedVerdict>, tieReply: nat -> Reply, injected: bool, voted: seq<Voted>)
    requires VotedSoFar(env, u, policy, criteria, p1, p2, tieReply, injected, voted)
    ensures NeverShared(env.key, Winners(voted))
  {
  }

  lemma NobodyVoted(env: Env, u: Unicode, policy: Policy, criteria: seq<Criterion>, p1: seq<GradedVerdict>,
                    p2: seq<GradedVerdict>, tieReply: nat -> Reply, injected: bool)
    requires |p1| == |p2| == |criteria| && AllWellDecided(p1) && AllWellDecided(p2)
    ensures ClaimedBy(env.key, Winners([])) == {}
    ensures VotedSoFar(env, u, policy, criteria, p1, p2, tieReply, injected, [])
    ensures TiesNeeded(env, u, p1, p2, injected, [], [])
  {
  }

  // ----- What every vote guarantees

  lemma {:induction false} UnclaimedFull(key: Key, e: Evidence, claimed: set<string>)
    requires Paired(e)
    ensures |Unclaimed(key, e, claimed).quotes| <= |e.quotes|
    ensures |Unclaimed(key, e, claimed).quotes| == |e.quotes| ==> Unclaimed(key, e, claimed) == e
    decreases |e.quotes|
  {
    if e.quotes != [] {
      var n := |e.quotes| - 1;
      UnclaimedFull(key, Evidence(e.quotes[..n], e.anchors[..n]), claimed);
      assert e.quotes == e.quotes[..n] + [e.quotes[n]] && e.anchors == e.anchors[..n] + [e.anchors[n]];
    }
  }

  /** After the downgrade nothing that is claimed is left, and a verdict that is left keeps its text. */
  lemma DowngradeIsSound(key: Key, g: GradedVerdict, claimed: set<string>)
    requires g.Decided? ==> Paired(g.evidence)
    ensures var d := Downgrade(key, g, claimed);
            && Fresh(key, Quotes(d), claimed)
            && (d.Decided? ==> g.Decided? && Paired(d.evidence) && d.verdict == g.verdict)
            && (WellDecided(g) ==> WellDecided(d))
            && (g.Decided? && Fresh(key, Quotes(g), claimed) ==> d == g)
  {
    if g.Decided? {
      UnclaimedIsFresh(key, g.evidence, claimed);
      UnclaimedFull(key, g.evidence, claimed);
      if Fresh(key, g.evidence.quotes, claimed) {
        UnclaimedWhole(key, g.evidence, claimed);
      }
    }
  }

  /** A majority exists exactly when a winner does, and is the winner's verdict. */
  ghost predicate Coherent(v: VoteResult) {
    && (v.majority.Some? <==> v.winner.Some?)
    && (v.winner.Some? ==> v.winner.value.Decided? && v.majority == Some(v.winner.value.verdict))
    && (v.failed.Some? ==> v.majority.None?)
  }

  lemma {:induction false} PlacedFrom(u: Unicode, criterion: Criterion, graded: seq<GradedVerdict>)
    ensures var placed := Place(u, criterion, graded);
            placed.Some? ==> forall p :: p in placed.value ==> p.graded in graded && p.graded.Decided?
  {
    if graded != [] {
      PlacedFrom(u, criterion, graded[1..]);
    }
  }

  lemma {:induction false} SortKeeps(ps: seq<Placed>)
    ensures forall p :: p in Sort(ps) <==> p in ps
  {
    if ps != [] {
      SortKeeps(ps[1..]);
      InsertKeeps(ps[0], Sort(ps[1..]));
    }
  }

  lemma {:induction false} InsertKeeps(p: Placed, sorted: seq<Placed>)
    ensures forall q :: q in Insert(p, sorted) <==> q == p || q in sorted
  {
    if sorted != [] && p.position > sorted[0].position {
      InsertKeeps(p, sorted[1..]);
    }
  }

  lemma DecidedVoteIsSound(u: Unicode, criterion: Criterion, graded: seq<GradedVerdict>, votes: seq<Option<string>>)
    requires |graded| <= 3 && votes != []
    ensures var r := DecidedVote(u, criterion, graded, votes);
            r.Some? ==> Coherent(r.value) && r.value.winner.Some? && r.value.winner.value in graded
  {
    var placed := Place(u, criterion, graded);
    PlacedFrom(u, criterion, graded);
    if placed.Some? && placed.value != [] {
      SortKeeps(placed.value);
      var sorted := Sort(placed.value);
      var p := if |sorted| == 3 then sorted[1] else sorted[0];
      assert p in sorted;
    }
  }

  lemma VoteOfThreeIsSound(u: Unicode, criterion: Criterion, policy: Policy, g1: GradedVerdict, g2: GradedVerdict, g3: GradedVerdict)
    requires g1.Decided? && g2.Decided? && g3.Decided?
    ensures var v := VoteOfThree(u, criterion, policy, g1, g2, g3);
            Coherent(v) && (v.winner.Some? ==> v.winner.value in [g1, g2, g3])
  {
    var most := TallyIsStrictMajority(u, [g1.verdict, g2.verdict, g3.verdict]);
    hide TallyOf, DecidedVote;
    DecidedVoteIsSound(u, criterion, [g1, g2, g3], [Some(g1.verdict), Some(g2.verdict), Some(g3.verdict)]);
  }

  /** Two votes of different classes have no majority. */
  lemma TwoThatDifferTie(u: Unicode, a: string, b: string)
    requires Class(u, a) != Class(u, b)
    ensures TallyOf(u, [a, b]).0.None?
  {
    hide Class;
    var most := TallyIsStrictMajority(u, [a, b]);
    assert a in [a, b] && b in [a, b];
    forall name
      ensures Count(u, [a, b], name) <= 1
    {
      SomeClassIsNotAll(u, [a, b], a, b, name);
    }
  }

  lemma TieBreakIsSound(key: Key, locate: Locate, u: Unicode, criterion: Criterion, policy: Policy,
                        g1: GradedVerdict, g2: GradedVerdict, tie: Reply, claimed: set<string>)
    requires g1.Decided? && g2.Decided? && Fresh(key, Quotes(g1), claimed) && Fresh(key, Quotes(g2), claimed)
    ensures var v := AfterTieBreak(key, locate, u, criterion, policy, g1, g2, tie, claimed);
            v.Some? ==> Coherent(v.value) && (v.value.winner.Some? ==> Fresh(key, Quotes(v.value.winner.value), claimed))
  {
    hide Downgrade, TallyOf, DecidedVote, VoteOfThree, Fresh;
    DecidedVoteIsSound(u, criterion, [g1, g2], [VoteOf(g1), VoteOf(g2), None]);
    if tie.Answered? {
      var third := RetryOf(locate, tie.answer);
      if third.Some? && third.value.1.Some? {
        var d := Decided(criterion.id, third.value.0.verdict, third.value.0.reasoning, third.value.1.value);
        DowngradeIsSound(key, d, claimed);
        var g3 := Downgrade(key, d, claimed);
        if g3.Decided? {
          VoteOfThreeIsSound(u, criterion, policy, g1, g2, g3);
        }
      }
    }
  }

  lemma VoteOfOneIsSound(policy: Policy, g1: GradedVerdict, g2: GradedVerdict)
    requires g1.Open? || g2.Open?
    ensures var v := VoteOfOne(policy, g1, g2); Coherent(v) && (v.winner.Some? ==> v.winner.value in [g1, g2])
  {
  }

  /** Every vote is coherent, and its winner holds nothing that was claimed before. */
  lemma VoteIsSound(key: Key, locate: Locate, u: Unicode, criterion: Criterion, policy: Policy,
                    p1: GradedVerdict, p2: GradedVerdict, tie: Reply, skip: bool, claimed: set<string>)
    requires WellDecided(p1) && WellDecided(p2)
    ensures var v := VoteFor(key, locate, u, criterion, policy, p1, p2, tie, skip, claimed);
            v.Some? ==> Coherent(v.value) && (v.value.winner.Some? ==> Fresh(key, Quotes(v.value.winner.value), claimed))
  {
    var g1, g2 := Downgrade(key, p1, claimed), Downgrade(key, p2, claimed);
    DowngradeIsSound(key, p1, claimed);
    DowngradeIsSound(key, p2, claimed);
    hide Downgrade, TallyOf, Class, Fresh, AfterTieBreak, VoteOfOne;
    if g1.Open? || g2.Open? {
      VoteOfOneIsSound(policy, g1, g2);
    } else if Class(u, g1.verdict) != Class(u, g2.verdict) {
      TwoThatDifferTie(u, g1.verdict, g2.verdict);
      TieBreakIsSound(key, locate, u, criterion, policy, g1, g2, tie, claimed);
    }
  }

  // ----- When a vote stands on its own

  lemma RoundedShare(most: nat, n: nat)
    requires most < n <= 3
    ensures Round3(most as real / n as real) <= 0.667
  {
    assert most as real / n as real <= 2.0 / 3.0;
    assert (2.0 / 3.0 * 1000.0 + 0.5).Floor == 667;
    var x := most as real / n as real;
    assert (x * 1000.0 + 0.5).Floor <= 667;
  }

  /** Three verdicts that do not all agree never reach full agreement. */
  lemma DisagreementShows(u: Unicode, a: string, b: string, c: string)
    requires Class(u, a) != Class(u, b)
    ensures TallyOf(u, [a, b, c]).1 <= 0.667
  {
    hide Class;
    var most := TallyIsStrictMajority(u, [a, b, c]);
    assert a in [a, b, c] && b in [a, b, c];
    var name :| Count(u, [a, b, c], name) == most;
    SomeClassIsNotAll(u, [a, b, c], a, b, name);
    RoundedShare(most, 3);
  }

  /**
   * Under "escalate" with full agreement required, the gate decides exactly
   * when both passes kept their evidence, named the same verdict and the
   * scale knows it; a third call is never part of a decided vote.
   */
  lemma DecidedExactlyWhenPassesAgree(key: Key, locate: Locate, u: Unicode, criterion: Criterion, policy: Policy,
                                      p1: GradedVerdict, p2: GradedVerdict, tie: Reply, skip: bool, claimed: set<string>)
    requires WellDecided(p1) && WellDecided(p2)
    requires !policy.decide && policy.threshold == 1.0
    requires VoteFor(key, locate, u, criterion, policy, p1, p2, tie, skip, claimed).Some?
    ensures var v := VoteFor(key, locate, u, criterion, policy, p1, p2, tie, skip, claimed).value;
            var g1, g2 := Downgrade(key, p1, claimed), Downgrade(key, p2, claimed);
            GateVote(u, criterion, policy, v.majority, v.agreement).outcome != Escalated <==>
              && g1.Decided? && g2.Decided? && Class(u, g1.verdict) == Class(u, g2.verdict)
              && OutcomeAndScore(u.isSpace, criterion, g1.verdict).outcome != Escalated
              && !NeedsTieBreak(u, g1, g2, skip)
  {
    var g1, g2 := Downgrade(key, p1, claimed), Downgrade(key, p2, claimed);
    hide Downgrade, TallyOf, Class, OutcomeAndScore;
    if g1.Decided? && g2.Decided? && Class(u, g1.verdict) != Class(u, g2.verdict) {
      TwoThatDifferTie(u, g1.verdict, g2.verdict);
      if tie.Answered? {
        var third := RetryOf(locate, tie.answer);
        if third.Some? && third.value.1.Some? {
          DisagreementShows(u, g1.verdict, g2.verdict, third.value.0.verdict);
          DowngradeIsSound(key, Decided(criterion.id, third.value.0.verdict, third.value.0.reasoning, third.value.1.value), claimed);
        }
      }
    }
  }

  /** The only failure an entry or a vote carries is an outage. */
  predicate OnlyOutages(failed: Option<Outcome>) {
    failed.None? || failed == Some(ApiDown)
  }

  predicate EntryFails(g: GradedVerdict) {
    g.Open? && !OnlyOutages(g.failed)
  }

  lemma PassFailsByOutage(env: Env, ids: seq<int>, entries: seq<GradedVerdict>, i: nat)
    requires IsPass(env, ids, entries) && i < |entries|
    ensures !EntryFails(entries[i])
  {
    hide CallsInOrder, Rejected, CandidatesOf, Explained;
    var c, calls, sent :| PassLeaves(env, ids, entries, c, calls, sent);
    if Explained(env, ids, c, entries[..i], entries[i], sent) {
      EntryFailsByOutage(env, ids, c, entries[..i], entries[i], sent);
    }
  }

  lemma EntryFailsByOutage(env: Env, ids: seq<int>, c: Candidates, before: seq<GradedVerdict>, g: GradedVerdict, sent: seq<nat>)
    requires |before| < |ids| && Explained(env, ids, c, before, g, sent)
    ensures !EntryFails(g)
  {
    hide CandidatesOf, RetryOf, RepairsNeeded, ClaimedBy;
  }

  lemma VoteFailsByOutage(key: Key, locate: Locate, u: Unicode, criterion: Criterion, policy: Policy,
                          p1: GradedVerdict, p2: GradedVerdict, tie: Reply, skip: bool, claimed: set<string>)
    requires WellDecided(p1) && WellDecided(p2) && !EntryFails(p1) && !EntryFails(p2)
    ensures var v := VoteFor(key, locate, u, criterion, policy, p1, p2, tie, skip, claimed);
            v.Some? ==> OnlyOutages(v.value.failed)
  {
    hide TallyOf, Class, Unclaimed, RetryOf, Place, Sort, Agreeing;
  }

  /**
   * The same of the rows of a batch: under "escalate" with full agreement
   * required, a row is graded exactly when no injection is suspected, both
   * passes kept their evidence and named the same verdict, and the scale
   * knows it; and then no third call was sent for it.
   */
  lemma RowsDecidedExactlyWhenPassesAgree(env: Env, env2: Env, u: Unicode, policy: Policy, criteria: seq<Criterion>,
                                          p1: seq<GradedVerdict>, p2: seq<GradedVerdict>, tieReply: nat -> Reply,
                                          injected: bool, voted: seq<Voted>, ties: seq<nat>, i: nat)
    requires !policy.decide && policy.threshold == 1.0
    requires IsPass(env, Ids(criteria), p1) && SecondPass(env2, Ids(criteria), p1, p2)
    requires AllWellDecided(p1) && AllWellDecided(p2)
    requires VotedSoFar(env, u, policy, criteria, p1, p2, tieReply, injected, voted) && i < |voted|
    requires TiesNeeded(env, u, p1, p2, injected, voted, ties)
    ensures var claimed := ClaimedBy(env.key, Winners(voted[..i]));
            var g1, g2 := Downgrade(env.key, p1[i], claimed), Downgrade(env.key, p2[i], claimed);
            voted[i].grade.outcome !in Resolution.NEEDS_REVIEW <==>
              && !injected && g1.Decided? && g2.Decided? && Class(u, g1.verdict) == Class(u, g2.verdict)
              && OutcomeAndScore(u.isSpace, criteria[i], g1.verdict).outcome != Escalated
    ensures voted[i].grade.outcome !in Resolution.NEEDS_REVIEW ==> i !in ties
  {
    hide VoteFor, Downgrade, Class, OutcomeAndScore, PassLeaves, NeverShared, ClaimedBy, Winners, EntryFails;
    var claimed := ClaimedBy(env.key, Winners(voted[..i]));
    PassFailsByOutage(env, Ids(criteria), p1, i);
    if AllFailed(p1) {
      NotAttemptedFailsAlike(p1, i);
    } else {
      PassFailsByOutage(env2, Ids(criteria), p2, i);
    }
    assert VotedInTurn(env, u, policy, criteria[i], p1[i], p2[i], tieReply(i), injected, voted[..i], voted[i]);
    VoteFailsByOutage(env.key, env.locate, u, criteria[i], policy, p1[i], p2[i], tieReply(i), injected, claimed);
    VoteIsSound(env.key, env.locate, u, criteria[i], policy, p1[i], p2[i], tieReply(i), injected, claimed);
    DecidedExactlyWhenPassesAgree(env.key, env.locate, u, criteria[i], policy, p1[i], p2[i], tieReply(i), injected, claimed);
    GradedOutcomes(u, criteria[i], policy, voted[i].vote.majority, voted[i].vote.agreement);
    assert i in ties <==> TieIsNeeded(env, u, p1[i], p2[i], injected, voted[..i]);
  }

  lemma NotAttemptedFailsAlike(entries: seq<GradedVerdict>, i: nat)
    requires i < |entries| && !EntryFails(entries[i])
    ensures !EntryFails(NotAttempted(entries)[i])
  {
  }

  lemma GradedOutcomes(u: Unicode, criterion: Criterion, policy: Policy, majority: Option<string>, agreement: real)
    ensures GateVote(u, criterion, policy, majority, agreement).outcome in {Passed, Failed, Escalated}
  {
    hide MatchLevel;
  }

  // ----- The policy "decide"

  /** No more than one of the positions lies strictly below w and no more than one strictly above. */
  ghost predicate IsMiddle(w: real, a: real, b: real, c: real) {
    && (w == a || w == b || w == c)
    && (if a < w then 1 else 0) + (if b < w then 1 else 0) + (if c < w then 1 else 0) <= 1
    && (if a > w then 1 else 0) + (if b > w then 1 else 0) + (if c > w then 1 else 0) <= 1
  }

  function PositionOf(u: Unicode, criterion: Criterion, g: GradedVerdict): Option<real> {
    if g.Decided? && u.lower(Strip(u, g.verdict)) != "uncertain" then OutcomeAndScore(u.isSpace, criterion, g.verdict).score
    else None
  }

  /** The fallback takes the lower of two placed verdicts, in either order. */
  lemma FallbackTakesTheLower(u: Unicode, criterion: Criterion, g1: GradedVerdict, g2: GradedVerdict, votes: seq<Option<string>>)
    requires votes != []
    requires PositionOf(u, criterion, g1).Some? && PositionOf(u, criterion, g2).Some?
    ensures var r := DecidedVote(u, criterion, [g1, g2], votes);
            var a, b := PositionOf(u, criterion, g1).value, PositionOf(u, criterion, g2).value;
            && r.Some? && r.value.basis == Some(LowerOfTwo)
            && PositionOf(u, criterion, r.value.winner.value) == Some(if a <= b then a else b)
  {
    hide OutcomeAndScore, Place, Sort;
    var p1, p2 := Placed(PositionOf(u, criterion, g1).value, g1), Placed(PositionOf(u, criterion, g2).value, g2);
    PlaceStep(u, criterion, g2, []);
    PlaceStep(u, criterion, g1, [g2]);
    assert [g1] + [g2] == [g1, g2] && [g2] + [] == [g2];
    assert [p2] + [] == [p2] && [p1] + [p2] == [p1, p2];
    SortTwo(p1, p2);
  }

  /** The fallback takes a middle one of three placed verdicts, in any order. */
  lemma FallbackTakesTheMiddle(u: Unicode, criterion: Criterion, g1: GradedVerdict, g2: GradedVerdict, g3: GradedVerdict,
                               votes: seq<Option<string>>)
    requires votes != []
    requires PositionOf(u, criterion, g1).Some? && PositionOf(u, criterion, g2).Some? && PositionOf(u, criterion, g3).Some?
    ensures var r := DecidedVote(u, criterion, [g1, g2, g3], votes);
            && r.Some? && r.value.basis == Some(MiddleOfThree)
            && r.value.winner.value in [g1, g2, g3] && PositionOf(u, criterion, r.value.winner.value).Some?
            && IsMiddle(PositionOf(u, criterion, r.value.winner.value).value, PositionOf(u, criterion, g1).value,
                        PositionOf(u, criterion, g2).value, PositionOf(u, criterion, g3).value)
  {
    hide OutcomeAndScore, Place, Sort, IsMiddle;
    var p1, p2 := Placed(PositionOf(u, criterion, g1).value, g1), Placed(PositionOf(u, criterion, g2).value, g2);
    var p3 := Placed(PositionOf(u, criterion, g3).value, g3);
    PlaceStep(u, criterion, g3, []);
    PlaceStep(u, criterion, g2, [g3]);
    PlaceStep(u, criterion, g1, [g2, g3]);
    assert [g3] + [] == [g3] && [g2] + [g3] == [g2, g3] && [g1] + [g2, g3] == [g1, g2, g3];
    assert [p3] + [] == [p3] && [p2] + [p3] == [p2, p3] && [p1] + [p2, p3] == [p1, p2, p3];
    SortThree(p1, p2, p3);
    var w := Sort([p1, p2, p3])[1];
    assert w == p1 || w == p2 || w == p3;
  }

  lemma PlaceStep(u: Unicode, criterion: Criterion, g: GradedVerdict, rest: seq<GradedVerdict>)
    requires PositionOf(u, criterion, g).Some?
    ensures Place(u, criterion, []) == Some([])
    ensures Place(u, criterion, rest).Some? ==>
      && Place(u, criterion, [g] + rest).Some?
      && Place(u, criterion, [g] + rest).value
         == [Placed(PositionOf(u, criterion, g).value, g)] + Place(u, criterion, rest).value
  {
    assert ([g] + rest)[1..] == rest;
  }

  lemma SortTwo(p: Placed, q: Placed)
    ensures Sort([p, q]) == if p.position <= q.position then [p, q] else [q, p]
  {
    assert [p, q][1..] == [q] && [q][1..] == [];
    assert Sort([q]) == [q];
    assert Insert(p, []) == [p];
    assert Insert(p, [q]) == if p.position <= q.position then [p, q] else [q, p];
  }

  lemma SortThree(p: Placed, q: Placed, r: Placed)
    ensures var s := Sort([p, q, r]);
            && |s| == 3 && s[1] in [p, q, r]
            && IsMiddle(s[1].position, p.position, q.position, r.position)
  {
    assert [p, q, r][1..] == [q, r];
    SortTwo(q, r);
    var s := Sort([q, r]);
    assert s[1..] == [s[1]] && s[1..][1..] == [];
    assert Insert(p, []) == [p];
    assert Insert(p, [s[1]]) == if p.position <= s[1].position then [p, s[1]] else [s[1], p];
    assert Insert(p, s) == if p.position <= s[0].position then [p, s[0], s[1]] else [s[0]] + Insert(p, [s[1]]);
  }

  // ----- Unrecognised verdicts

  /** A row marked unrecognised is undecided and can never be resolved by accepting the majority. */
  lemma UnrecognisedIsNeverAccepted(env: Env, u: Unicode, policy: Policy, criterion: Criterion, p1: GradedVerdict, p2: GradedVerdict,
                                    tie: Reply, injected: bool, before: seq<Voted>, v: Voted,
                                    detail: Resolution.Detail, ordinal: Option<int>)
    requires VotedInTurn(env, u, policy, criterion, p1, p2, tie, injected, before, v) && v.unrecognized
    requires detail.verdict == v.shown
    ensures v.grade.outcome == Escalated
    ensures Resolution.Select(u.isSpace, criterion, detail, Resolution.AcceptMajority, ordinal).Err?
  {
    VoteIsSound(env.key, env.locate, u, criterion, policy, p1, p2, tie, injected, ClaimedBy(env.key, Winners(before)));
    hide VoteFor, ClaimedBy, Winners;
  }
}
