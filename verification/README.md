# Evidence, grading, quotas and statistics of a manuscript review system

This project models, in Dafny 4.11, the parts of the repository that decide
what is stored as evidence, what counts as a grade, how often an outside
service may be called, and what a measured agreement is worth. Each module
follows one component of the program.

| module | component |
|---|---|
| `SourceText`, `Folding`, `Quotes`, `Excerpts`, `Containment`, `Fronts`, `Scopes`, `Crossings` | finding a model's quotations in the manuscript: blocks joined into a text with spans, folded copies mapped back to the characters they came from, one anchor per quotation, scopes cut at omitted pages |
| `Levels`, `Resolution` | rubric scales, and the instructor's resolution of a result that needs review |
| `Grading`, `Tallies`, `Voting` | one grading pass with its retry and repairs, the vote of two passes with a tie-break, the gate, and evidence claimed across criteria |
| `StoredEvidence` | the two groups above put together: what wins a vote is text of the manuscript |
| `SlidingWindow`, `RateGovernors`, `TokenGovernors`, `ActionLimits` | sliding-window limits on provider calls, tokens and user actions |
| `Wilson`, `Promotions`, `McNemar`, `Agreement`, `MultiRater`, `Fleiss` | judge statistics and the autonomy gate that consumes them |
| `Ledger` | the daily budget file shared by any number of processes, and the transport that pays before it sends |
| `Packing` | placement of seeded statements in thesis copies and the dev/holdout split |
| `Dedup` | the one-time repair of doubled check results before unique indexes are built |
| `Wrappers` | `Option` and `Result` |

## How the model reads the program

- Loops that build lists, counters and cursors are methods with invariants,
  proved against a function or a predicate; objects that change are classes.
- A process, a clock or a model is an input. The model's replies are arbitrary
  values, "unavailable" and "quota spent" among them. A clock is a sequence of
  nondecreasing real readings. `math.sqrt` is any function that returns the
  nonnegative root. Random choices are any choice, shuffles any order.
- The Unicode tables (`isspace`, `isalnum`, `lower`, casefold, NFKC) are
  function fields of `SourceText.Unicode`; `SourceText.Faithful` lists the
  few facts some results use.
- Python's exceptions are `Err`, `None` or a named outcome.
- Statistics are exact reals; `math.isclose(pe, 1)` is read as `pe == 1`.
- The budget ledger is a state machine: any process may take any of its steps
  at any time, and may die between any two. Results hold after every sequence
  of such steps.

## What turned out not to hold

- An excerpt need not contain the whole folded quotation. A character such as
  U+037A case-folds to a space and a letter, and that space can be matched by
  a separator the stored slice begins behind. `Excerpts.ExcerptContainsCore`
  proves that everything after the first character is always contained, and
  all of it unless the key begins like a separator: with a space, and then a
  letter or digit if anything follows. `Fronts.ProgramKeepsExactly` gives the
  exact condition for the program as it calls the search: a proposal loses its
  front in some manuscript if and only if such a key can be searched for. For a
  long enough proposal its core's first character decides
  (`Fronts.LongProposalsKeptExactly`); a verbatim one depends on its exact key
  alone (`Fronts.VerbatimKeptExactly`); a short one is otherwise only at risk
  when it can be located in another case. `Excerpts.LeadingSpaceCanBeLost` is a
  concrete input.
- A scope can bridge an omitted page. The loop only looks for a step forward
  over one, so a page 3 followed by a page 1 stays in one scope over omitted
  page 2 (`Scopes.SteppingBackBridges`). `Crossings.CrossesExactlyWhereBridged`
  says exactly which inputs are left so, whatever the blocks' pages. Where
  every block has a page and the blocks of omitted pages were taken out, as
  `readable` does, it is where a scope of the input steps back across an
  omitted page (`Crossings.CrossesExactlyWhereInputStepsBack`), so never when
  pages do not decrease (`Crossings.NothingCrossesInPageOrder`). Nondecreasing
  pages alone are not enough: a block without a page, or one kept on the
  omitted page, can bridge it too (`Scopes.PagelessOrKeptBlocksBridge`).
- Migration 0035 says (lines 31-37) that an overridden flag counts as
  engagement. Its first statement, over rows with a criterion, looks only at
  stored resolutions, so a twin whose flag was overridden can be deleted, and
  its second looks only at flags. The model follows the statements:
  `Dedup.OverrideCanBeDeleted` is an input, `Dedup.KeepsDecisionsExactly` says
  exactly for which tables each statement keeps every decision, and
  `Dedup.UpgradeKeepsDecisionsExactly` says it of the whole upgrade.
- Regions are declared for result blocks too (f4_cases.py:73-80), but a
  result's page comes from the results pages alone; the model follows the code.

## Model

| member | source | states |
|---|---|---|
| SourceText.NormalizedLayout | backend/app/checks/semantic.py:303-326 | the loop's text and spans are those of the blocks joined by single spaces |
| SourceText.LayoutIsTiled | backend/app/checks/semantic.py:303-326 | the spans tile the text: each holds exactly its block's normalized text, neighbours are one space apart, blank blocks have none |
| SourceText.InkHasOneBlock | backend/app/checks/semantic.py:329-339 | a position that is not a space lies in exactly one block's span, and the anchor found there is that block's |
| SourceText.StripIsSlice | backend/app/checks/semantic.py:64-66 | trimming keeps a slice, cuts off whitespace only, and leaves none at either end |
| Folding.FoldedIndex | backend/app/checks/semantic.py:412-438 | the loop's folded text and position list are the compositional ones, character by character with its spacing state |
| Folding.PositionsAlign | backend/app/checks/semantic.py:412-438 | one position per folded character, in range, nondecreasing, and never on whitespace |
| Folding.MiddleFolds | backend/app/checks/semantic.py:412-438 | folding a middle part on its own gives what the whole text's folding has there, but for one leading space |
| Folding.MatchSurvivesSlicing | backend/app/checks/semantic.py:412-438 | a match in the folded text, sliced out of the source by its positions and folded again, still contains the key after its first character, and all of it unless the key begins like a separator (a space, then a letter or digit or nothing) |
| Quotes.CollectAnchors | backend/app/checks/semantic.py:392-397 | the search from one past each hit finds the anchors of all occurrences, overlapping ones included, and no others |
| Quotes.VerifyQuotes | backend/app/checks/semantic.py:366-403 | succeeds exactly when each quotation is located, and returns the one anchor of each |
| Quotes.LocatedWhenUnambiguous | backend/app/checks/semantic.py:366-403 | with a location on every block, a quotation is located exactly when it is nonblank, occurs (exact case first, then folded) and all its occurrences agree |
| Quotes.KeyBeginsWithInk | backend/app/checks/semantic.py:381-391 | a nonblank search key does not begin with a space, so no match starts on a separator |
| Quotes.NullAnchorNamesUnlocatedBlock | backend/app/checks/semantic.py:329-339 | a match without an anchor begins inside the span of a block that has no location |
| Excerpts.StripOmissionKeepsCore | backend/app/checks/semantic.py:441-452 | the proposal is the core between what was set aside; only omission marks and blanks are, and each flag is set exactly when its side has a mark |
| Excerpts.OccurrencesExact | backend/app/checks/semantic.py:484-500 | the listed matches are all occurrences of the key in all folded scopes, each with its source positions and anchor |
| Excerpts.SourceExcerpt | backend/app/checks/semantic.py:455-513 | the two case modes, in order, with their early exits give the excerpt of the specification |
| Excerpts.ExcerptContainsCore | backend/app/checks/semantic.py:455-513 | a stored excerpt is one slice of one scope around a match, widened only by whole words beside a mark, and its folding contains the folded core, all of it unless that begins like a separator |
| Excerpts.StoredExactlyWhenLocated | backend/app/checks/semantic.py:477-504 | a proposal is stored exactly when its core is searchable, occurs, every occurrence has a location and they agree or the passage is long enough to count as repeated |
| Fronts.ProgramKeepsExactly | backend/app/checks/semantic.py:516-560 | over all manuscripts, whatever the program stores for a proposal (with `literal` and the repeated-passage rule as it computes them) contains the folded core, if and only if no key it may search for begins like a separator: the exact key of the whole proposal, its case-folded key if it can be located in another case, or a key of its core if long enough |
| Fronts.LongProposalsKeptExactly | backend/app/checks/semantic.py:516-560 | for a proposal whose core has two long enough keys, with marks or without, exactly when neither key begins like a separator, which the core's first character decides |
| Fronts.VerbatimKeptExactly | backend/app/checks/semantic.py:541-554 | where a proposal stands verbatim only its exact key matters, however short it is |
| Fronts.VerbatimIsMatched | backend/app/checks/semantic.py:543-544 | a verbatim proposal is always found in the exact-case pass |
| Fronts.YpogegrammeniCanLoseExactlyWhenShortIsEnough | backend/app/checks/semantic.py:516-560 | U+037A alone meets the losing condition exactly when the minimum length is at most two |
| Containment.ExcerptsKeepCoreExactly | backend/app/checks/semantic.py:455-513 | of `_source_excerpt` alone, its two flags given: over all manuscripts a stored excerpt's folding contains the folded core, if and only if no key that is searched for begins like a separator |
| Containment.FragileExactly | backend/app/checks/semantic.py:412-438 | the first character of the core decides it: the key begins like a separator exactly when that character folds to a space and a letter or digit |
| Containment.TrapLoses | backend/app/checks/semantic.py:484-513 | where a letter, a space and the rest of such a core come first, and all hits agree on the place, the stored excerpt misses the core's front |
| Containment.GreekTableQualifies | backend/app/checks/semantic.py:426-428 | the table facts of the failing half hold together, with U+037A as a character that fails only when case is folded |
| Fronts.GreekMarks | backend/app/checks/semantic.py:406-407 | so do the facts about omission marks, of the same table |
| Excerpts.LeadingSpaceCanBeLost | backend/app/checks/semantic.py:455-513 | a proposal and a text for which the stored excerpt does not contain the folded core |
| Excerpts.ResolveSourceExcerpts | backend/app/checks/semantic.py:516-560 | all proposals are resolved, each on its own, or none is |
| Excerpts.ResolvedWordsAreSourceWords | backend/app/checks/semantic.py:516-560 | a resolved proposal is a slice of one scope's text, anchored at the block in which the match begins |
| Scopes.SplitAtPages | backend/app/checks/semantic.py:154-172 | the pieces flatten back to the input in order, none is empty or holds a cut, each boundary is an old one or a cut, and every old boundary stays one, so no two original scopes are joined |
| Scopes.CutsExactlyAcrossAnOmittedPage | backend/app/checks/semantic.py:154-172 | the bisection comparison cuts exactly between blocks with an omitted page strictly between theirs |
| Scopes.NoScopeSpansAnOmittedPage | backend/app/checks/semantic.py:154-172 | without blocks of omitted or unknown pages no scope goes forward across an omitted page, from a block before it to a later block behind it |
| Crossings.CrossesExactlyWhereBridged | backend/app/checks/semantic.py:154-172 | for any scopes passed in, the result joins text across an omitted page if and only if one of those scopes has two blocks on two sides of it, in either order, with only pageless or omitted blocks between them and no cut on the way |
| Crossings.CrossesExactlyWhereInputStepsBack | backend/app/checks/semantic.py:154-172 | with every block on a known read page, if and only if a scope passed in steps back across an omitted page from one block to the next |
| Crossings.NothingCrossesInPageOrder | backend/app/checks/semantic.py:154-172 | so never when such scopes are passed in page order |
| Scopes.SteppingBackBridges | backend/app/checks/semantic.py:154-172 | page 3 followed by page 1 stays one scope over omitted page 2 |
| Scopes.PagelessOrKeptBlocksBridge | backend/app/checks/semantic.py:154-172 | a block without a page, or one kept on the omitted page, lets a scope bridge it |
| Scopes.ReadableIsOnReadPages | backend/app/checks/semantic.py:231-237 | the readable blocks are exactly those without a page or off the omitted pages; all of them are on known read pages exactly when every block has a page |
| Levels.RecognisedExactlyWhenUnique | backend/app/checks/levels.py:109-141 | a verdict matches a level exactly when it names one level and no other, whatever its whitespace |
| Levels.LevelScoreRange | backend/app/checks/levels.py:144-175 | a level's score is within 0 and 100 exactly when its points are not negative, and 100 exactly for the top level |
| Levels.GradeShape | backend/app/checks/levels.py:144-175 | every verdict grades to passed or failed with a score in [0, 100], or is escalated without one |
| Resolution.CheckResult.ResolveEscalation | backend/app/checks/escalation.py:300-403 | a refused request changes nothing, an accepted one leaves exactly the resolved result |
| Resolution.ResolutionLeavesReview | backend/app/checks/escalation.py:300-403 | a resolution starts from a result under review and leaves one that is not, with a score in [0, 100] unless not applicable, and keeps the original on record |
| Resolution.ResolvedAtMostOnce | backend/app/checks/escalation.py:323-403 | no sequence of requests resolves a result twice, on any scale |
| Resolution.VocabularyFollowsTheScale | backend/app/checks/escalation.py:218-297 | which choices each kind of criterion accepts; a majority can be accepted exactly when it names one level and no other, or is one of the three words of a criterion without levels |
| Grading.IndexedCandidates | backend/app/checks/semantic.py:571-593 | an answer is attributed exactly when each item has an index of its own within the batch; valid and invalid items are told apart |
| Grading.DropClaimedQuotes | backend/app/checks/semantic.py:342-363 | the loop keeps the unclaimed pairs in order |
| Grading.UnclaimedExact | backend/app/checks/semantic.py:342-363 | what is kept is exactly the pairs whose quotation was not claimed |
| Grading.CallBatch | backend/app/checks/semantic.py:803-838 | at most the configured attempts, another one only after an answer that could not be attributed, and which outcome follows from the last reply |
| Grading.GradeSingle | backend/app/checks/semantic.py:649-707 | a repair answer yields the one attributed verdict, with its evidence when every proposal was located |
| Grading.GradeBatch | backend/app/checks/semantic.py:782-994 | one entry per criterion in order, decided ones with paired evidence that no two share; each entry explained by the replies; calls within both budgets, none after the first outage |
| Grading.EntrySettles | backend/app/checks/semantic.py:840-994 | one more entry keeps every promise on the entries and calls before it |
| Grading.DecidedPairsAreLocated | backend/app/checks/semantic.py:840-994 | each pair of a decided entry is what some proposal of the model was resolved to |
| Tallies.Tally | backend/app/checks/consistency.py:149-175 | the grouping loop computes verdict and agreement of the specification |
| Tallies.TallyIsStrictMajority | backend/app/checks/consistency.py:149-175 | a verdict exists exactly for a class with more than half the votes, and is a spelling of that class; agreement is the largest class's share |
| Tallies.TallyIgnoresOrder | backend/app/checks/consistency.py:149-175 | reordering votes changes neither the class nor the agreement |
| Voting.VoteForCriterion | backend/app/checks/consistency.py:178-342 | the vote of the specification, with the third call sent exactly when both passes kept evidence and differ |
| Voting.VoteIsSound | backend/app/checks/consistency.py:178-342 | a majority exists exactly when a winner does and is its verdict; the winner holds nothing claimed before |
| Voting.DowngradeIsSound | backend/app/checks/semantic.py:739-779 | after the downgrade no claimed quotation is left, what is left stays paired, and an unclaimed entry is unchanged |
| Voting.TwoThatDifferTie | backend/app/checks/consistency.py:149-175 | two votes of different classes have no majority |
| Voting.DecidedExactlyWhenPassesAgree | backend/app/checks/escalation.py:89-126 | under "escalate" with threshold 1.0 the gate decides exactly when both passes agree on a verdict the scale knows; no tie-break is part of it |
| Voting.RowsDecidedExactlyWhenPassesAgree | backend/app/checks/consistency.py:487-594 | so for every row of a batch: it is out of review exactly when no injection is suspected and both passes agree so, and then no third call went out for it |
| Voting.FallbackTakesTheLower | backend/app/checks/consistency.py:116-136 | of two placed verdicts the lower one, in either order |
| Voting.FallbackTakesTheMiddle | backend/app/checks/consistency.py:116-136 | of three placed verdicts a middle one, in any order |
| Voting.VoteBatch | backend/app/checks/consistency.py:400-594 | over both passes, repairs and tie-breaks, no two winners share a quotation; the second pass is skipped exactly when the first was down throughout; each row follows from the votes; third calls go exactly to the criteria that need one |
| Voting.UnrecognisedIsNeverAccepted | backend/app/checks/consistency.py:537-578 | a row marked unrecognised is escalated, and accepting its majority is refused |
| StoredEvidence.WinnerIsLocated | backend/app/checks/consistency.py:178-342 | whatever wins a vote, each pair of its evidence was located |
| StoredEvidence.VotedEvidenceIsManuscriptText | backend/app/checks/consistency.py:400-594 | each quotation and anchor stored for a winner of the batch is a slice of the manuscript's text and the place of one of its blocks |
| SlidingWindow.AtMostLimitInAnyInterval | backend/app/rate_governor.py:73-92 | a run whose admissions lie more than a window apart, limit by limit, has at most that many in any closed window |
| SlidingWindow.AdmissionKeepsSpacing | backend/app/rate_governor.py:73-92 | admitting with fewer than the limit left in the pruned deque keeps the run so spaced |
| RateGovernors.RateGovernor.Acquire | backend/app/rate_governor.py:73-92 | admits at once when there is room, refuses in a cooldown, records each admission with the limits in force, and needs at most three sleeps when nothing tightens |
| RateGovernors.RateGovernor.TightenMinInterval | backend/app/rate_governor.py:56-65 | the interval only grows, and admission history is kept |
| RateGovernors.RateGovernor.DeferFor | backend/app/rate_governor.py:67-71 | the cooldown only moves later |
| RateGovernors.AnyMinuteHoldsAtMostRpm | backend/app/rate_governor.py:31-92 | in any run any closed minute holds at most rpm admissions, each paced by the interval then in force and none in a cooldown |
| TokenGovernors.TokenGovernor.Acquire | backend/app/rate_governor.py:120-130 | admits at once what fits or meets an empty window, and ends within two sleeps per entry of the window |
| TokenGovernors.AnyMinuteFitsOrHoldsOneGiant | backend/app/rate_governor.py:95-130 | a record the governor can leave has, in any closed minute, at most the budget or one request larger than all of it |
| TokenGovernors.GovernorFitsEveryMinute | backend/app/rate_governor.py:95-130 | so has the governor's own record after any run with nonnegative requests |
| ActionLimits.LoginRateLimiter.CheckThenRecord | backend/app/auth/rate_limit.py:24-45 | refused exactly when the key's window is full; an admitted attempt is recorded, a refused one is not |
| ActionLimits.ActionRateLimits.GetLimiter | backend/app/ratelimit.py:30-38 | one limiter per scope, made on first use and kept |
| ActionLimits.ActionRateLimits.Enforce | backend/app/ratelimit.py:41-51 | check and record touch one scope and key only |
| ActionLimits.AnyWindowHoldsAtMostBudget | backend/app/ratelimit.py:41-51 | any closed window of a scope and key holds at most the scope's budget |
| Wilson.IntervalInvertsScoreTest | backend/app/checks/accuracy_stats.py:71-90 | x is in the interval exactly when n(k/n - x)^2 <= z^2 x(1 - x); the interval is in [0, 1] around k/n |
| Wilson.EndsAroundP | backend/app/checks/accuracy_stats.py:83-90 | the ends before clamping already lie in [0, 1], so the clamps never bite |
| Wilson.LowIsMonotone | backend/app/checks/accuracy_stats.py:71-90 | more successes never lower the lower end |
| Wilson.PerfectLow | backend/app/checks/accuracy_stats.py:71-90 | a perfect sample's lower end is n / (n + z^2) |
| Promotions.EvaluatePromotions | backend/app/checks/promotion.py:47-79 | the loop promotes exactly the classes that clear both bars, in order, and fails only on impossible counts |
| Promotions.SomeScoreClearsExactlyWhenLargeEnough | backend/app/checks/promotion.py:47-79 | a sample size can be promoted at all exactly when n(1 - bar) >= bar z^2 |
| Promotions.PromotionsAreEarned | backend/app/checks/promotion.py:47-79 | each promotion's observed agreement reaches the bar, and at 0.90 it rests on at least 35 items whatever minimum is set |
| Promotions.ThirtyFiveIsSharp | backend/app/checks/promotion.py:47-79 | 35 of 35 clears 0.90 and 34 of 34 does not |
| McNemar.McNemarExact | backend/app/checks/accuracy_stats.py:130-184 | the summation loop gives the clamped two-tailed binomial p-value, and none without discordant items |
| McNemar.PValueShape | backend/app/checks/accuracy_stats.py:165-184 | p is in (0, 1], symmetric, at least the best its total allows, and clamped exactly when b = c |
| McNemar.RowSum | backend/app/checks/accuracy_stats.py:165-168 | a row of binomial coefficients sums to a power of two |
| McNemar.RequiredDiscordantPairs | backend/app/checks/accuracy_stats.py:187-200 | the loop ends with the least total whose best p-value is below alpha |
| McNemar.ThresholdIsExact | backend/app/checks/accuracy_stats.py:187-200 | fewer discordant items are never significant, and from the threshold on the one-sided split always is |
| Agreement.KappaOverOpen | backend/app/checks/accuracy_stats.py:248-261 | kappa is 2(tp tn - fp fn) over what chance leaves open, undefined exactly when that is zero |
| Agreement.KappaRange | backend/app/checks/accuracy_stats.py:248-261 | kappa is in [-1, 1] with the sign of tp tn - fp fn |
| Agreement.MatthewsRange | backend/app/checks/accuracy_stats.py:281-289 | the coefficient is in [-1, 1] with the sign of tp tn - fp fn |
| Agreement.UndefinedTogether | backend/app/checks/accuracy_stats.py:248-289 | the coefficient is undefined exactly with an empty row or column; an undefined kappa is such a case; where both exist their signs agree |
| Agreement.Ac1Range | backend/app/checks/accuracy_stats.py:264-278 | AC1 is defined for any data and in [-1, 1] |
| MultiRater.ComputeMatrix | backend/app/checks/accuracy_stats.py:393-432 | the counting loop counts every pair once, and refuses exactly unpaired or unknown labels |
| MultiRater.TwoRatingsGiveAc1 | backend/app/checks/accuracy_stats.py:333-356 | on two ratings over two categories the multi-rater form is the AC1 of the labels' matrix |
| MultiRater.LabelsAreBinary | backend/app/checks/accuracy_stats.py:411-432 | the labels of an evaluation are such ratings |
| Fleiss.FleissUndefinedExactly | backend/app/checks/accuracy_stats.py:311-330 | undefined exactly without data or when every rating is the same category |
| Fleiss.ChancesAreComplementary | backend/app/checks/accuracy_stats.py:326-353 | over any covering scale the two multi-rater chance sums add up to one |
| Fleiss.SquaresIgnoreScale | backend/app/checks/accuracy_stats.py:304-308 | observed agreement depends neither on the order of the scale nor on categories nobody gave |
| Fleiss.OneAgreementTwoChances | backend/app/checks/accuracy_stats.py:311-356 | Fleiss' kappa and AC1 correct the same observed agreement by related chance terms, and AC1 is never undefined |
| Ledger.Budget.Reserve | tools/accuracy/budget.py:85-102 | the new total, or a refusal that leaves every recorded number alone |
| Ledger.ReplayBalances | tools/accuracy/budget.py:85-102 | reservations made one by one keep attempts equal to the sum over lanes and within the cap, each lane within its share, and every grant counted once |
| Ledger.StepKeepsInv | tools/accuracy/budget.py:33-102 | each step of each process keeps the protocol's invariant, deaths and errors inside the lock included |
| Ledger.NoLostUpdates | tools/accuracy/budget.py:33-102 | after any interleaving, deaths included, the file is what the granted reservations would have left one after the other, and its books balance |
| Ledger.LockExcludes | tools/accuracy/budget.py:33-63 | at most one process is between making and removing the lock file |
| Ledger.AbandonedLockFreezesLedger | tools/accuracy/budget.py:48-56 | a lock left by a dead process is never taken over: nothing more is recorded |
| Ledger.NothingSentAfterStop | tools/accuracy/grading_repeats.py:97-130 | a stopped transport has started no call since it stopped, and its counter is the number of calls it made |
| Ledger.CallsNeverPassTheRecord | tools/accuracy/grading_repeats.py:97-130 | a day's provider calls never exceed the lane's recorded attempts, over all processes |
| Packing.AssignPages | tools/accuracy/f4_cases.py:784-811 | pages are spaced from each other and the copy, the context on its side and in its region; failure means no free results page, or one that leaves no page for the context |
| Packing.ContextOptionsExact | tools/accuracy/f4_cases.py:791-806 | the pages offered for a context are exactly the admissible ones |
| Packing.FillCopy | tools/accuracy/f4_cases.py:829-844 | at most three plants on distinct objectives with all pages spaced; every spec is placed or still pending; a copy with fewer than three leaves out only specs that clash or found no place |
| Packing.PackHost | tools/accuracy/f4_cases.py:828-847 | the loop ends; each spec is placed once or counted as dropped; what is dropped has no place even in an empty copy |
| Packing.PackAll | tools/accuracy/f4_cases.py:823-884 | the same over all hosts, with the dropped numbers adding up |
| Packing.LoneResultDroppedOnlyWithoutPages | tools/accuracy/f4_cases.py:784-811 | a plant without a context is dropped only by a host without results pages |
| Packing.Split | tools/accuracy/f4_cases.py:886-892 | every key gets a side, and the halves differ by at most one |
| Packing.BuildCases | tools/accuracy/f4_cases.py:814-897 | no objective is in both halves, the halves are balanced, and all specs are accounted for |
| Dedup.NeverDeletesEngaged | backend/alembic/versions/0035_check_run_claim_and_result_uniqueness.py:47-113 | a statement never deletes a row it regards as engaged |
| Dedup.OneKeeper | backend/alembic/versions/0035_check_run_claim_and_result_uniqueness.py:47-113 | a group with at most one engaged row is left with one row: that one, else the lowest id |
| Dedup.AmbiguousGroupsUntouched | backend/alembic/versions/0035_check_run_claim_and_result_uniqueness.py:39-46 | a group with two engaged rows is left as it was |
| Dedup.Idempotent | backend/alembic/versions/0035_check_run_claim_and_result_uniqueness.py:47-113 | running a statement again deletes nothing |
| Dedup.UpgradeSucceedsExactlyWhenUnambiguous | backend/alembic/versions/0035_check_run_claim_and_result_uniqueness.py:47-128 | both unique indexes can be built afterwards exactly when no group had two engaged rows |
| Dedup.KeepsDecisionsExactly | backend/alembic/versions/0035_check_run_claim_and_result_uniqueness.py:28-113 | a statement keeps every instructor decision exactly when each row decided only by the mark it ignores is out of its scope, in an ambiguous group, or the lowest id among unengaged twins |
| Dedup.UpgradeKeepsDecisionsExactly | backend/alembic/versions/0035_check_run_claim_and_result_uniqueness.py:28-113 | the whole upgrade keeps every decision exactly when each row decided only by the mark its own statement ignores is in an ambiguous group or the lowest id among unengaged twins |
| Dedup.OverrideCanBeDeleted | backend/alembic/versions/0035_check_run_claim_and_result_uniqueness.py:28-81 | a table on which the upgrade deletes a row whose flag an instructor overrode |

## Left out

- Excerpts.ExcerptContainsCore: containment of the whole folded core is stated only for a key that does not begin like a separator, because it is false of every other one that can be searched for (Fronts.ProgramKeepsExactly).
- Fronts.ProgramKeepsExactly: the failing half uses `Containment.RealFoldings` and `Fronts.RealMarks`, facts about the Unicode tables (no character folds to nothing; a folding that begins with a space goes on with characters that fold to themselves, and one that does so with case folded already did without, at the same length; omission marks are no letters and lower-casing neither makes nor removes one), and one letter that folds to itself. That a short proposal can be located in another case is left as a question about manuscripts (`Fronts.Respelled`), because it depends on the lower-case table.
- Ledger.CallsNeverPassTheRecord: assumes that no lane reserves a negative number of attempts, which the program does not check; a negative reservation lowers the recorded count.
- Ledger.NoLostUpdates: a person who deletes a live process's lock file is not modelled, nor is `Budget.spent`, which only reads, nor a lock file that cannot be removed; writing the temporary file is one step, and a process that dies may leave anything in it.
- RateGovernors.RateGovernor.Acquire: the bound of three sleeps is stated for runs in which no other task tightens the interval meanwhile; the sleeps themselves are only required to last as long as asked.
- Packing.AssignPages: a None result gives a reason, not the impossibility of any placement, because the program tries at most 60 random result pages.
- Voting.VoteBatch: stops before the support check (`apply_support`), whose source is not part of this model; agreement is rounded to three decimals as in the program.
- Tallies.TallyIsStrictMajority: which spelling of the winning class is shown is its first occurrence in the votes, so reordering may change the spelling, not the class.
- Entries by criterion id are a sequence by batch position: two criteria of one batch never share an id.
- The texts of reasons and details, `unverified_quotes`, failure phases, shadow signals and `context_limitation`.
- Prompt building, the repair note, JSON envelopes and the model transport: a reply is already an answer with indexed items.
- Injection patterns: "injection suspected" is a Boolean input.
- Database sessions, audit rows and the storage of scores as `Numeric(5,2)`.
- Floating point: statistics and clocks are reals, page regions are exact hundredths.
- The folded index is built for both case modes at once instead of on first use; the excerpts are the same.
- The login path, which awaits between check and record; only the synchronous action limits are modelled.
- Which seeded statements are written (templates, decks, voices) and the text of the copies; packing starts from finished specs.
- Cascaded deletion of a deleted result's flags, and the `claimed_at` column of migration 0035.
- Confidence intervals and abstention accounting of `compute_agreement` beyond its matrix.
