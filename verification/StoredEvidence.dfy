/**
 * From the stored evidence of a vote back to the manuscript: the resolution
 * of quotations (backend/app/checks/semantic.py, lines 455-560) put under the
 * grading passes and the vote (semantic.py, lines 782-994;
 * backend/app/checks/consistency.py, lines 178-342 and 400-594).
 */
module StoredEvidence {
  import opened Wrappers
  import opened SourceText
  import opened Grading
  import opened Tallies
  import opened Voting
  import Levels
  import Excerpts
  import Quotes

  /** A pair some proposal resolves to. */
  ghost predicate LocatedIn(locate: Locate, q: string, a: Anchor) {
    exists p :: locate(p) == Some((q, a))
  }

  /** Every pair of a decided entry was located. */
  ghost predicate AllLocated(locate: Locate, g: GradedVerdict) {
    g.Decided? ==> forall q, a :: HasPair(g.evidence, q, a) ==> LocatedIn(locate, q, a)
  }

  lemma PassIsLocated(env: Env, ids: seq<int>, entries: seq<GradedVerdict>, i: nat)
    requires IsPass(env, ids, entries) && i < |entries|
    ensures AllLocated(env.locate, entries[i])
  {
    var c, calls, sent :| PassLeaves(env, ids, entries, c, calls, sent);
    hide Explained, HasPair, CallsInOrder, Rejected;
    if entries[i].Decided? {
      assert Explained(env, ids, c, entries[..i], entries[i], sent);
      forall q, a | HasPair(entries[i].evidence, q, a) ensures LocatedIn(env.locate, q, a) {
        DecidedPairsAreLocated(env, ids, c, entries[..i], entries[i], sent, q, a);
      }
    }
  }

  lemma DowngradeStaysLocated(key: Key, locate: Locate, g: GradedVerdict, claimed: set<string>)
    requires (g.Decided? ==> Paired(g.evidence)) && AllLocated(locate, g)
    ensures AllLocated(locate, Downgrade(key, g, claimed))
  {
    hide LocatedIn, HasPair, Unclaimed;
    if g.Decided? {
      forall q, a | HasPair(Unclaimed(key, g.evidence, claimed), q, a) ensures LocatedIn(locate, q, a) {
        UnclaimedExact(key, g.evidence, claimed, q, a);
      }
    }
  }

  /** A tie-break's evidence was located too. */
  lemma RetryIsLocated(locate: Locate, answer: Answer, g: GradedVerdict)
    requires RetryOf(locate, answer).Some? && RetryOf(locate, answer).value.1.Some?
    requires g.Decided? && g.evidence == RetryOf(locate, answer).value.1.value
    ensures Paired(g.evidence) && AllLocated(locate, g)
  {
    hide HasPair;
    var proposals := ByIndex(CandidatesOf(answer, 1).value.verdicts, 0).value.quotes;
    forall q, a | HasPair(g.evidence, q, a) ensures LocatedIn(locate, q, a) {
      LocatedPair(locate, proposals, q, a);
    }
  }

  lemma DecidedVoteIsLocated(u: Unicode, criterion: Levels.Criterion, locate: Locate, graded: seq<GradedVerdict>,
                             votes: seq<Option<string>>)
    requires |graded| <= 3 && votes != [] && DecidedVote(u, criterion, graded, votes).Some?
    requires forall g :: g in graded ==> AllLocated(locate, g)
    ensures AllLocated(locate, DecidedVote(u, criterion, graded, votes).value.winner.value)
  {
    hide AllLocated;
    DecidedVoteIsSound(u, criterion, graded, votes);
  }

  /** Whatever wins a vote, all its evidence was located. */
  lemma WinnerIsLocated(key: Key, locate: Locate, u: Unicode, criterion: Levels.Criterion, policy: Policy,
                        p1: GradedVerdict, p2: GradedVerdict, tie: Reply, skip: bool, claimed: set<string>)
    requires WellDecided(p1) && WellDecided(p2) && AllLocated(locate, p1) && AllLocated(locate, p2)
    ensures var v := VoteFor(key, locate, u, criterion, policy, p1, p2, tie, skip, claimed);
            v.Some? && v.value.winner.Some? ==> AllLocated(locate, v.value.winner.value)
  {
    var g1, g2 := Downgrade(key, p1, claimed), Downgrade(key, p2, claimed);
    DowngradeStaysLocated(key, locate, p1, claimed);
    DowngradeStaysLocated(key, locate, p2, claimed);
    hide AllLocated, Downgrade, TallyOf, Class, AfterTieBreak;
    if g1.Decided? && g2.Decided? && Class(u, g1.verdict) != Class(u, g2.verdict) && !skip {
      TieBreakIsLocated(key, locate, u, criterion, policy, g1, g2, tie, claimed);
    }
  }

  lemma TieBreakIsLocated(key: Key, locate: Locate, u: Unicode, criterion: Levels.Criterion, policy: Policy,
                          g1: GradedVerdict, g2: GradedVerdict, tie: Reply, claimed: set<string>)
    requires g1.Decided? && g2.Decided? && AllLocated(locate, g1) && AllLocated(locate, g2)
    ensures var v := AfterTieBreak(key, locate, u, criterion, policy, g1, g2, tie, claimed);
            v.Some? && v.value.winner.Some? ==> AllLocated(locate, v.value.winner.value)
  {
    hide AllLocated, Downgrade, TallyOf, RetryOf, DecidedVote;
    var two := [Some(g1.verdict), Some(g2.verdict), None];
    if DecidedVote(u, criterion, [g1, g2], two).Some? {
      DecidedVoteIsLocated(u, criterion, locate, [g1, g2], two);
    }
    if tie.Answered? && RetryOf(locate, tie.answer).Some? && RetryOf(locate, tie.answer).value.1.Some? {
      var (v, e) := RetryOf(locate, tie.answer).value;
      var third := Decided(criterion.id, v.verdict, v.reasoning, e.value);
      RetryIsLocated(locate, tie.answer, third);
      var g3 := Downgrade(key, third, claimed);
      DowngradeStaysLocated(key, locate, third, claimed);
      if g3.Decided? {
        var three := [Some(g1.verdict), Some(g2.verdict), Some(g3.verdict)];
        if DecidedVote(u, criterion, [g1, g2, g3], three).Some? {
          DecidedVoteIsLocated(u, criterion, locate, [g1, g2, g3], three);
        }
      }
    }
  }

  // ----- Back to the manuscript

  /** How a pass looks quotations up: in these scopes, with these settings. */
  ghost predicate LooksUpIn(locate: Locate, u: Unicode, scopes: seq<Quotes.Scope>, byPage: bool, minChars: int, repeatedMin: int) {
    forall p :: locate(p) == Excerpts.Resolved(u, p, scopes, byPage, minChars, repeatedMin)
  }

  /** The quotation is a slice of one scope's text, and its anchor the location of the block in which the match begins. */
  ghost predicate InManuscript(u: Unicode, scopes: seq<Quotes.Scope>, byPage: bool, q: string, a: Anchor,
                               p: Excerpts.Provenance, n: nat)
  {
    && p.scope < |scopes|
    && var layout := LayoutOf(u, scopes[p.scope], true);
    && p.a <= p.first < p.b <= |layout.text| && q == layout.text[p.a..p.b]
    && n < |layout.spans| && layout.spans[n].start <= p.first < layout.spans[n].end
    && layout.spans[n].block in scopes[p.scope]
    && BlockAnchor(layout.spans[n].block, byPage) == Some(a)
  }

  /**
   * End to end: whatever the model answers in both passes, their repairs and
   * the tie-breaks, each quotation and anchor stored for a winning verdict
   * is the manuscript's own text and the place of a block of it.
   */
  lemma VotedEvidenceIsManuscriptText(u: Unicode, scopes: seq<Quotes.Scope>, byPage: bool, minChars: int, repeatedMin: int,
                                      env1: Env, env2: Env, policy: Policy, criteria: seq<Levels.Criterion>,
                                      p1: seq<GradedVerdict>, p2: seq<GradedVerdict>, tieReply: nat -> Reply, injected: bool,
                                      voted: seq<Voted>, i: nat, q: string, a: Anchor)
    returns (p: Excerpts.Provenance, n: nat)
    requires Faithful(u) && LooksUpIn(env1.locate, u, scopes, byPage, minChars, repeatedMin) && env1.locate == env2.locate
    requires IsPass(env1, Ids(criteria), p1) && SecondPass(env2, Ids(criteria), p1, p2)
    requires VotedSoFar(env1, u, policy, criteria, p1, p2, tieReply, injected, voted)
    requires i < |voted| && Winner(voted[i]).Decided? && HasPair(Winner(voted[i]).evidence, q, a)
    ensures InManuscript(u, scopes, byPage, q, a, p, n)
  {
    hide HasPair, Excerpts.Resolved, VoteFor, PassLeaves, NeverShared, Faithful, WellDecided;
    PassIsLocated(env1, Ids(criteria), p1, i);
    if AllFailed(p1) {
      assert p2[i].Open?;
    } else {
      PassIsLocated(env2, Ids(criteria), p2, i);
    }
    assert VotedInTurn(env1, u, policy, criteria[i], p1[i], p2[i], tieReply(i), injected, voted[..i], voted[i]);
    WinnerIsLocated(env1.key, env1.locate, u, criteria[i], policy, p1[i], p2[i], tieReply(i), injected,
                    ClaimedBy(env1.key, Winners(voted[..i])));
    var proposal :| env1.locate(proposal) == Some((q, a));
    p, n := Excerpts.ResolvedWordsAreSourceWords(u, proposal, scopes, byPage, minChars, repeatedMin);
  }
}
