/**
 * One grading pass over a batch of criteria: the batch call with its retry,
 * one repair call for a criterion whose evidence cannot be used, and the rule
 * that a quotation serves one criterion only
 * (backend/app/checks/semantic.py, lines 342-363, 571-593, 649-707 and 782-994).
 *
 * The model's answers are arbitrary inputs. A criterion is known by its
 * position in the batch; the dictionary keyed by criterion id is a sequence.
 */
module Grading {
  import opened Wrappers
  import opened SourceText
  import opened Levels

  // ----- Answers

  datatype Verdict = Verdict(index: int, verdict: string, reasoning: string, quotes: seq<string>)

  /** The schema of a verdict: only an uncertain one may come without quotations. */
  predicate Valid(v: Verdict) {
    v.verdict != "" && v.reasoning != "" && (v.quotes != [] || v.verdict == "uncertain")
  }

  /** An item without a usable index makes the whole answer ambiguous; bad content spoils only the item. */
  datatype Item = Unindexed | Indexed(body: Verdict)

  datatype Answer = NoList | Items(items: seq<Item>)

  datatype Reply = Unavailable | QuotaSpent | Answered(answer: Answer)

  datatype Candidates = Candidates(verdicts: seq<Verdict>, invalid: seq<int>)

  ghost predicate Attributable(answer: Answer, expected: nat) {
    answer.Items? && answer.items != [] && ByPosition(answer.items, expected)
  }

  /** Every item has an index of its own within the batch. */
  ghost predicate ByPosition(items: seq<Item>, expected: nat) {
    && (forall k :: 0 <= k < |items| ==> items[k].Indexed? && 0 <= items[k].body.index < expected)
    && (forall j, k :: 0 <= j < k < |items| ==> items[j].body.index != items[k].body.index)
  }

  function ValidOf(items: seq<Item>): seq<Verdict>
    requires forall k :: 0 <= k < |items| ==> items[k].Indexed?
  {
    if items == [] then []
    else
      var before, body := ValidOf(items[..|items| - 1]), items[|items| - 1].body;
      if Valid(body) then before + [body] else before
  }

  function InvalidOf(items: seq<Item>): seq<int>
    requires forall k :: 0 <= k < |items| ==> items[k].Indexed?
  {
    if items == [] then []
    else
      var before, body := InvalidOf(items[..|items| - 1]), items[|items| - 1].body;
      if Valid(body) then before else before + [body.index]
  }

  lemma {:induction false} ItemsSorted(items: seq<Item>)
    requires forall k :: 0 <= k < |items| ==> items[k].Indexed?
    ensures forall v :: v in ValidOf(items) <==> Indexed(v) in items && Valid(v)
    ensures forall i :: i in InvalidOf(items) <==> exists v :: Indexed(v) in items && v.index == i && !Valid(v)
  {
    if items != [] {
      ItemsSorted(items[..|items| - 1]);
      assert items == items[..|items| - 1] + [items[|items| - 1]];
    }
  }

  lemma {:induction false} ValidAttributed(items: seq<Item>, expected: nat)
    requires ByPosition(items, expected)
    ensures Attributed(Candidates(ValidOf(items), InvalidOf(items)), expected)
  {
    if items != [] {
      var init, body := items[..|items| - 1], items[|items| - 1].body;
      ValidAttributed(init, expected);
      ItemsSorted(init);
      forall j | 0 <= j < |ValidOf(init)|
        ensures ValidOf(init)[j].index != body.index
      {
        assert ValidOf(init)[j] in ValidOf(init);
        var k :| 0 <= k < |init| && init[k] == Indexed(ValidOf(init)[j]);
        assert items[k] == init[k];
      }
    }
  }

  /**
   * `_indexed_candidates`: refused as a whole exactly when some item cannot
   * be attributed to one criterion; otherwise every item is either a valid
   * verdict or a known invalid index, and no criterion gets two verdicts.
   */
  method IndexedCandidates(answer: Answer, expected: nat) returns (r: Option<Candidates>)
    ensures r.Some? <==> Attributable(answer, expected)
    ensures r.Some? ==>
      && (forall v :: v in r.value.verdicts <==> Indexed(v) in answer.items && Valid(v))
      && (forall i :: i in r.value.invalid <==> exists v :: Indexed(v) in answer.items && v.index == i && !Valid(v))
      && Attributed(r.value, expected)
    ensures r == CandidatesOf(answer, expected)
  {
    if answer.NoList? || answer.items == [] {
      return None;
    }
    var items := answer.items;
    var ok := OwnIndices(items, expected);
    if !ok {
      return None;
    }
    var valid: seq<Verdict>, invalid: seq<int> := [], [];
    for k := 0 to |items|
      invariant valid == ValidOf(items[..k]) && invalid == InvalidOf(items[..k])
    {
      assert items[..k + 1][..k] == items[..k];
      if Valid(items[k].body) {
        valid := valid + [items[k].body];
      } else {
        invalid := invalid + [items[k].body.index];
      }
    }
    assert items[..|items|] == items;
    ItemsSorted(items);
    ValidAttributed(items, expected);
    r := Some(Candidates(valid, invalid));
  }

  /** The first loop: each index present, within the batch, and new. */
  method OwnIndices(items: seq<Item>, expected: nat) returns (ok: bool)
    ensures ok <==> ByPosition(items, expected)
  {
    var indices: set<int> := {};
    for k := 0 to |items|
      invariant ByPosition(items[..k], expected)
      invariant forall i :: i in indices <==> exists j :: 0 <= j < k && items[j].Indexed? && items[j].body.index == i
    {
      if items[k].Unindexed? || !(0 <= items[k].body.index < expected) || items[k].body.index in indices {
        return false;
      }
      indices := indices + {items[k].body.index};
    }
    assert items[..|items|] == items;
    ok := true;
  }

  ghost function CandidatesOf(answer: Answer, expected: nat): Option<Candidates> {
    if Attributable(answer, expected) then Some(Candidates(ValidOf(answer.items), InvalidOf(answer.items))) else None
  }

  ghost predicate Attributed(c: Candidates, expected: nat) {
    && (forall k :: 0 <= k < |c.verdicts| ==> Valid(c.verdicts[k]) && 0 <= c.verdicts[k].index < expected)
    && (forall j, k :: 0 <= j < k < |c.verdicts| ==> c.verdicts[j].index != c.verdicts[k].index)
  }

  /** The verdict at a position, if any. */
  function ByIndex(verdicts: seq<Verdict>, i: int): (r: Option<Verdict>)
    ensures r.Some? ==> r.value in verdicts && r.value.index == i
    ensures r.None? ==> forall v :: v in verdicts ==> v.index != i
  {
    if verdicts == [] then None
    else if verdicts[0].index == i then Some(verdicts[0])
    else ByIndex(verdicts[1..], i)
  }

  // ----- Evidence

  /** Quotations with the anchor of each, paired by position. */
  datatype Evidence = Evidence(quotes: seq<string>, anchors: seq<Anchor>)

  type Locate = string -> Option<(string, Anchor)>

  ghost predicate Paired(e: Evidence) {
    |e.quotes| == |e.anchors|
  }

  /** Every proposal resolved on its own, or nothing at all. */
  function ResolveAll(locate: Locate, proposals: seq<string>): (r: Option<Evidence>)
    ensures r.Some? ==> Paired(r.value) && |r.value.quotes| == |proposals|
    ensures r.Some? ==>
      forall k :: 0 <= k < |proposals| ==> locate(proposals[k]) == Some((r.value.quotes[k], r.value.anchors[k]))
  {
    if proposals == [] then Some(Evidence([], []))
    else
      var n := |proposals| - 1;
      var before := ResolveAll(locate, proposals[..n]);
      if before.None? || locate(proposals[n]).None? then None
      else
        var (text, anchor) := locate(proposals[n]).value;
        Some(Evidence(before.value.quotes + [text], before.value.anchors + [anchor]))
  }

  type Key = string -> string

  function KeysOf(key: Key, quotes: seq<string>): set<string> {
    set q | q in quotes :: key(q)
  }

  ghost predicate Fresh(key: Key, quotes: seq<string>, claimed: set<string>) {
    forall q :: q in quotes ==> key(q) !in claimed
  }

  /** The pairs whose quotation is not claimed yet, in order. */
  function Unclaimed(key: Key, e: Evidence, claimed: set<string>): (r: Evidence)
    requires Paired(e)
    ensures Paired(r)
    decreases |e.quotes|
  {
    if e.quotes == [] then e
    else
      var n := |e.quotes| - 1;
      var quote, anchor := e.quotes[n], e.anchors[n];
      var before := Unclaimed(key, Evidence(e.quotes[..n], e.anchors[..n]), claimed);
      if key(quote) in claimed then before else Evidence(before.quotes + [quote], before.anchors + [anchor])
  }

  /** `_drop_claimed_quotes` */
  method DropClaimedQuotes(key: Key, e: Evidence, claimed: set<string>) returns (kept: Evidence)
    requires Paired(e)
    ensures kept == Unclaimed(key, e, claimed)
  {
    kept := Evidence([], []);
    for n := 0 to |e.quotes|
      invariant kept == Unclaimed(key, Evidence(e.quotes[..n], e.anchors[..n]), claimed)
    {
      assert e.quotes[..n + 1][..n] == e.quotes[..n] && e.anchors[..n + 1][..n] == e.anchors[..n];
      if key(e.quotes[n]) !in claimed {
        kept := Evidence(kept.quotes + [e.quotes[n]], kept.anchors + [e.anchors[n]]);
      }
    }
    assert e.quotes[..|e.quotes|] == e.quotes && e.anchors[..|e.quotes|] == e.anchors;
  }

  ghost predicate HasPair(e: Evidence, quote: string, anchor: Anchor) {
    exists k :: 0 <= k < |e.quotes| && k < |e.anchors| && e.quotes[k] == quote && e.anchors[k] == anchor
  }

  /** What is kept shares nothing with what was claimed. */
  lemma {:induction false} UnclaimedIsFresh(key: Key, e: Evidence, claimed: set<string>)
    requires Paired(e)
    ensures Fresh(key, Unclaimed(key, e, claimed).quotes, claimed)
    decreases |e.quotes|
  {
    if e.quotes != [] {
      var n := |e.quotes| - 1;
      UnclaimedIsFresh(key, Evidence(e.quotes[..n], e.anchors[..n]), claimed);
    }
  }

  /** What is kept is exactly the unclaimed pairs. */
  lemma {:induction false} UnclaimedExact(key: Key, e: Evidence, claimed: set<string>, q: string, a: Anchor)
    requires Paired(e)
    ensures HasPair(Unclaimed(key, e, claimed), q, a) <==> HasPair(e, q, a) && key(q) !in claimed
    decreases |e.quotes|
  {
    if e.quotes != [] {
      var n := |e.quotes| - 1;
      var init := Evidence(e.quotes[..n], e.anchors[..n]);
      UnclaimedExact(key, init, claimed, q, a);
      var before, kept := Unclaimed(key, init, claimed), Unclaimed(key, e, claimed);
      LastPair(init, e.quotes[n], e.anchors[n], e, q, a);
      if key(e.quotes[n]) !in claimed {
        LastPair(before, e.quotes[n], e.anchors[n], kept, q, a);
      }
    }
  }

  lemma LastPair(before: Evidence, quote: string, anchor: Anchor, e: Evidence, q: string, a: Anchor)
    requires Paired(before) && Paired(e)
    requires e == Evidence(before.quotes + [quote], before.anchors + [anchor])
    ensures HasPair(e, q, a) <==> HasPair(before, q, a) || (q == quote && a == anchor)
  {
    if HasPair(before, q, a) {
      var k :| 0 <= k < |before.quotes| && before.quotes[k] == q && before.anchors[k] == a;
      assert e.quotes[k] == q && e.anchors[k] == a;
    }
    if q == quote && a == anchor {
      assert e.quotes[|before.quotes|] == q && e.anchors[|before.quotes|] == a;
    }
  }

  /** Nothing claimed, nothing dropped. */
  lemma {:induction false} UnclaimedWhole(key: Key, e: Evidence, claimed: set<string>)
    requires Paired(e) && Fresh(key, e.quotes, claimed)
    ensures Unclaimed(key, e, claimed) == e
    decreases |e.quotes|
  {
    if e.quotes != [] {
      var n := |e.quotes| - 1;
      assert e.quotes == e.quotes[..n] + [e.quotes[n]] && e.anchors == e.anchors[..n] + [e.anchors[n]];
      assert e.quotes[n] in e.quotes;
      UnclaimedWhole(key, Evidence(e.quotes[..n], e.anchors[..n]), claimed);
    }
  }

  // ----- Graded verdicts

  datatype Reason =
    | ModelUncertain(text: string) | NotValidated | ServiceUnavailable | RecoveryBudgetReached | RepairUnavailable
    | EvidenceNotLocated | EvidenceAlreadyUsed | ItemNotValidated | NoVerdictReturned | PassNotAttempted
    | NotVerifiedByTieBreak | TieBreakUnavailable

  /** A verdict is `Decided` with its verified evidence or `Open` with what the model offered. */
  datatype GradedVerdict =
    | Decided(id: int, verdict: string, why: string, evidence: Evidence)
    | Open(id: int, reasoning: Option<string>, quotes: seq<string>, reason: Reason,
           failed: Option<Outcome>, attempted: bool)

  function Undecided(id: int, v: Option<Verdict>, reason: Reason): GradedVerdict {
    Open(id, if v.Some? then Some(v.value.reasoning) else None,
         if v.Some? then v.value.quotes else [], reason, None, true)
  }

  function Down(id: int, v: Option<Verdict>, reason: Reason, attempted: bool): GradedVerdict {
    Open(id, if v.Some? then Some(v.value.reasoning) else None,
         if v.Some? then v.value.quotes else [], reason, Some(ApiDown), attempted)
  }

  /** The fresh evidence behind a verdict: all its quotations located, some not claimed by others. */
  function Support(key: Key, locate: Locate, v: Option<Verdict>, claimed: set<string>): (r: Option<Evidence>)
    ensures r.Some? ==> Paired(r.value) && r.value.quotes != [] && Fresh(key, r.value.quotes, claimed)
  {
    if v.None? || v.value.verdict == "uncertain" || v.value.quotes == [] then None
    else
      var resolved := ResolveAll(locate, v.value.quotes);
      if resolved.None? then None
      else
        UnclaimedIsFresh(key, resolved.value, claimed);
        var kept := Unclaimed(key, resolved.value, claimed);
        if kept.quotes == [] then None else Some(kept)
  }

  predicate Uncertain(v: Option<Verdict>) {
    v.Some? && v.value.verdict == "uncertain"
  }

  // ----- The calls of one pass

  /** Everything a pass depends on from outside: the model's replies, in the order of the calls, and the settings. */
  datatype Env = Env(
    key: Key,                     // the comparison form of a quotation
    locate: Locate,               // a proposal's own words and place in the source, if it has one
    batchReply: nat -> Reply,     // to each attempt at the batch call
    repairReply: nat -> Reply,    // to the repair call for the criterion at a position
    attempts: nat,
    recoveryMax: nat,
    secondPass: bool
  )

  datatype BatchCall = Raised | AllDown | NothingValid | Parsed(candidates: Candidates)

  ghost predicate Rejected(env: Env, expected: nat, a: nat) {
    env.batchReply(a).Answered? && CandidatesOf(env.batchReply(a).answer, expected).None?
  }

  /** The batch call, tried again while the answer cannot be attributed. */
  method CallBatch(env: Env, expected: nat) returns (r: BatchCall, calls: nat)
    ensures calls <= env.attempts
    ensures forall a :: 0 <= a < calls - 1 ==> Rejected(env, expected, a)
    ensures r.NothingValid? ==> calls == env.attempts && forall a :: 0 <= a < calls ==> Rejected(env, expected, a)
    ensures !r.NothingValid? ==> calls > 0
    ensures r.Parsed? ==>
      && env.batchReply(calls - 1).Answered?
      && CandidatesOf(env.batchReply(calls - 1).answer, expected) == Some(r.candidates)
      && Attributed(r.candidates, expected)
    ensures r.AllDown? ==> env.batchReply(calls - 1).Unavailable? && env.secondPass
    ensures r.Raised? ==>
      env.batchReply(calls - 1).QuotaSpent? || (env.batchReply(calls - 1).Unavailable? && !env.secondPass)
  {
    calls := 0;
    while calls < env.attempts
      invariant calls <= env.attempts
      invariant forall a :: 0 <= a < calls ==> Rejected(env, expected, a)
    {
      var reply := env.batchReply(calls);
      calls := calls + 1;
      match reply {
        case Unavailable => return if env.secondPass then AllDown else Raised, calls;
        case QuotaSpent => return Raised, calls;
        case Answered(answer) =>
          var candidates := IndexedCandidates(answer, expected);
          if candidates.Some? {
            return Parsed(candidates.value), calls;
          }
      }
    }
    r := NothingValid;
  }

  /** What a repair or tie-break answer holds: a verdict, and its evidence when all quotations were located. */
  ghost function RetryOf(locate: Locate, answer: Answer): Option<(Verdict, Option<Evidence>)> {
    var c := CandidatesOf(answer, 1);
    if c.None? then None
    else
      var v := ByIndex(c.value.verdicts, 0);
      if v.None? then None
      else
        var e := ResolveAll(locate, v.value.quotes);
        Some((if e.Some? then v.value.(quotes := e.value.quotes) else v.value, e))
  }

  /** `_grade_single_criterion`, once the model has answered. */
  method GradeSingle(locate: Locate, answer: Answer) returns (r: Option<(Verdict, Option<Evidence>)>)
    ensures r == RetryOf(locate, answer)
    ensures r.Some? ==> Valid(r.value.0) && (r.value.1.Some? ==> r.value.0.quotes == r.value.1.value.quotes)
  {
    var c := IndexedCandidates(answer, 1);
    if c.None? {
      return None;
    }
    var v := ByIndex(c.value.verdicts, 0);
    if v.None? {
      return None;
    }
    var k :| 0 <= k < |c.value.verdicts| && c.value.verdicts[k] == v.value;
    var e := ResolveAll(locate, v.value.quotes);
    return Some((if e.Some? then v.value.(quotes := e.value.quotes) else v.value, e));
  }

  /** The entry a repair answer leads to. */
  function Repaired(key: Key, id: int, original: Option<Verdict>, itemInvalid: bool,
                    retry: Option<(Verdict, Option<Evidence>)>, claimed: set<string>): GradedVerdict
    requires retry.Some? && retry.value.1.Some? ==> Paired(retry.value.1.value)
  {
    match retry
    case None =>
      if original.Some? then Undecided(id, original, EvidenceNotLocated)
      else Undecided(id, None, if itemInvalid then ItemNotValidated else NoVerdictReturned)
    case Some((v, e)) =>
      if v.verdict == "uncertain" then Undecided(id, Some(v), ModelUncertain(v.reasoning))
      else if e.None? then Undecided(id, Some(v), EvidenceNotLocated)
      else
        var kept := Unclaimed(key, e.value, claimed);
        if kept.quotes == [] then Undecided(id, Some(v), EvidenceAlreadyUsed)
        else Decided(id, v.verdict, v.reasoning, kept)
  }

  // ----- What a pass may leave behind

  function Quotes(g: GradedVerdict): seq<string> {
    if g.Decided? then g.evidence.quotes else []
  }

  /** All quotations that some decided entry holds, in comparison form. */
  function ClaimedBy(key: Key, done: seq<GradedVerdict>): set<string> {
    if done == [] then {}
    else ClaimedBy(key, done[..|done| - 1]) + KeysOf(key, Quotes(done[|done| - 1]))
  }

  /** A decided entry has evidence, each quotation with its place. */
  ghost predicate WellDecided(g: GradedVerdict) {
    g.Decided? ==> Paired(g.evidence) && g.evidence.quotes != []
  }

  ghost predicate Apart(key: Key, g: GradedVerdict, h: GradedVerdict) {
    KeysOf(key, Quotes(g)) !! KeysOf(key, Quotes(h))
  }

  /** No quotation is evidence for two criteria. */
  ghost predicate NeverShared(key: Key, done: seq<GradedVerdict>) {
    forall i, j :: 0 <= i < j < |done| ==> Apart(key, done[i], done[j])
  }

  lemma {:induction false} ClaimedCovers(key: Key, done: seq<GradedVerdict>, i: nat)
    requires i < |done|
    ensures KeysOf(key, Quotes(done[i])) <= ClaimedBy(key, done)
  {
    if i < |done| - 1 {
      ClaimedCovers(key, done[..|done| - 1], i);
    }
  }

  lemma SharedStaysNever(key: Key, done: seq<GradedVerdict>, g: GradedVerdict)
    requires NeverShared(key, done) && Fresh(key, Quotes(g), ClaimedBy(key, done))
    ensures NeverShared(key, done + [g])
  {
    forall i | 0 <= i < |done|
      ensures Apart(key, done[i], g)
    {
      ClaimedCovers(key, done, i);
    }
    forall i, j | 0 <= i < j < |done + [g]|
      ensures Apart(key, (done + [g])[i], (done + [g])[j])
    {
      if j < |done| {
        assert Apart(key, done[i], done[j]);
      }
    }
  }

  // ----- The whole pass

  /** Neither uncertain nor supported as the batch answered it. */
  predicate NeedsRepair(env: Env, v: Option<Verdict>, claimed: set<string>) {
    !Uncertain(v) && Support(env.key, env.locate, v, claimed).None?
  }

  /** How many of the first entries needed a repair. */
  function RepairsNeeded(env: Env, c: Candidates, done: seq<GradedVerdict>): nat {
    if done == [] then 0
    else
      var n := |done| - 1;
      RepairsNeeded(env, c, done[..n])
      + if NeedsRepair(env, ByIndex(c.verdicts, n), ClaimedBy(env.key, done[..n])) then 1 else 0
  }

  /** Why entry i is what it is, given the entries before it and the repair calls that were sent. */
  ghost predicate Explained(env: Env, ids: seq<int>, c: Candidates, before: seq<GradedVerdict>, g: GradedVerdict, sent: seq<nat>)
    requires |before| < |ids|
  {
    var i := |before|;
    var id, v, claimed := ids[i], ByIndex(c.verdicts, i), ClaimedBy(env.key, before);
    var support := Support(env.key, env.locate, v, claimed);
    if Uncertain(v) then
      g == Undecided(id, v, ModelUncertain(v.value.reasoning))
    else if support.Some? then
      g == Decided(id, v.value.verdict, v.value.reasoning, support.value)
    else if RepairsNeeded(env, c, before) >= env.recoveryMax then
      g == Undecided(id, v, RecoveryBudgetReached)
    else if i !in sent then
      g == Down(id, v, RepairUnavailable, false)
    else
      match env.repairReply(i)
      case Unavailable => g == Down(id, v, RepairUnavailable, true)
      case QuotaSpent => false
      case Answered(answer) =>
        g == Repaired(env.key, id, v, i in c.invalid, RetryOf(env.locate, answer), claimed)
  }

  ghost predicate Ascending(sent: seq<nat>, bound: nat) {
    && (forall k :: 0 <= k < |sent| ==> sent[k] < bound)
    && (forall j, k :: 0 <= j < k < |sent| ==> sent[j] < sent[k])
  }

  /** Only the last call can have found the service down. */
  ghost predicate StopsAtOutage(env: Env, sent: seq<nat>) {
    && (forall k :: 0 <= k < |sent| - 1 ==> env.repairReply(sent[k]).Answered?)
    && (sent != [] ==> !env.repairReply(sent[|sent| - 1]).QuotaSpent?)
  }

  /** Repair calls go out in batch order, for criteria that need one, within the budget, and stop at the first outage. */
  ghost predicate CallsInOrder(env: Env, c: Candidates, done: seq<GradedVerdict>, sent: seq<nat>) {
    && Ascending(sent, |done|) && StopsAtOutage(env, sent)
    && |sent| <= RepairsNeeded(env, c, done) && |sent| <= env.recoveryMax
  }

  /** The last call so far found the service down. */
  predicate Outage(env: Env, sent: seq<nat>) {
    sent != [] && env.repairReply(sent[|sent| - 1]).Unavailable?
  }

  datatype PassResult = PassRaised | PassGraded(entries: seq<GradedVerdict>)

  /** The repair branch of the loop: at most one call, and none once the service was down. */
  method Repair(env: Env, id: int, i: nat, original: Option<Verdict>, itemInvalid: bool, claimed: set<string>, down: bool)
    returns (g: Option<GradedVerdict>, called: bool, nowDown: bool)
    ensures called <==> !down
    ensures nowDown <==> down || env.repairReply(i).Unavailable?
    ensures g.None? <==> !down && env.repairReply(i).QuotaSpent?
    ensures down ==> g == Some(Down(id, original, RepairUnavailable, false))
    ensures !down && env.repairReply(i).Unavailable? ==> g == Some(Down(id, original, RepairUnavailable, true))
    ensures !down && env.repairReply(i).Answered? ==>
      g == Some(Repaired(env.key, id, original, itemInvalid, RetryOf(env.locate, env.repairReply(i).answer), claimed))
  {
    if down {
      return Some(Down(id, original, RepairUnavailable, false)), false, true;
    }
    match env.repairReply(i) {
      case Unavailable => return Some(Down(id, original, RepairUnavailable, true)), true, true;
      case QuotaSpent => return None, true, false;
      case Answered(answer) =>
        var retry := GradeSingle(env.locate, answer);
        return Some(Repaired(env.key, id, original, itemInvalid, retry, claimed)), true, false;
    }
  }

  function Least(a: nat, b: nat): nat {
    if a < b then a else b
  }

  /** The loop invariant: everything promised of the entries so far. */
  ghost predicate Settled(env: Env, ids: seq<int>, c: Candidates, done: seq<GradedVerdict>, sent: seq<nat>) {
    && |done| <= |ids|
    && (forall k :: 0 <= k < |done| ==> done[k].id == ids[k] && WellDecided(done[k]))
    && NeverShared(env.key, done)
    && CallsInOrder(env, c, done, sent)
    && (forall k :: 0 <= k < |done| ==> Explained(env, ids, c, done[..k], done[k], sent))
  }

  lemma SettledCalls(env: Env, ids: seq<int>, c: Candidates, done: seq<GradedVerdict>, sent: seq<nat>, i: nat)
    requires Settled(env, ids, c, done, sent) && !Outage(env, sent)
    requires RepairsNeeded(env, c, done) < env.recoveryMax
    ensures |sent + [i]| <= env.recoveryMax
    ensures StopsAtOutage(env, sent)
    ensures forall k :: 0 <= k < |sent| ==> env.repairReply(sent[k]).Answered?
  {
    hide RepairsNeeded, NeverShared, Explained, WellDecided, Ascending;
    assert CallsInOrder(env, c, done, sent);
  }

  /** A later call does not change the reason of an earlier entry. */
  lemma ExplainedStays(env: Env, ids: seq<int>, c: Candidates, before: seq<GradedVerdict>, g: GradedVerdict,
                       sent: seq<nat>, i: nat)
    requires |before| < i < |ids|
    requires Explained(env, ids, c, before, g, sent)
    ensures Explained(env, ids, c, before, g, sent + [i])
  {
  }

  /** What may be sent for the entry after `done`: nothing, or one call that is needed, affordable and not pointless. */
  ghost predicate MaySend(env: Env, c: Candidates, done: seq<GradedVerdict>, sent: seq<nat>, sent': seq<nat>) {
    || sent' == sent
    || (&& sent' == sent + [|done|]
        && NeedsRepair(env, ByIndex(c.verdicts, |done|), ClaimedBy(env.key, done))
        && RepairsNeeded(env, c, done) < env.recoveryMax
        && !Outage(env, sent) && !env.repairReply(|done|).QuotaSpent?)
  }

  lemma OneMoreNeeded(env: Env, c: Candidates, done: seq<GradedVerdict>, g: GradedVerdict)
    ensures RepairsNeeded(env, c, done + [g])
         == RepairsNeeded(env, c, done)
          + if NeedsRepair(env, ByIndex(c.verdicts, |done|), ClaimedBy(env.key, done)) then 1 else 0
    ensures ClaimedBy(env.key, done + [g]) == ClaimedBy(env.key, done) + KeysOf(env.key, Quotes(g))
  {
    hide NeedsRepair, KeysOf;
    assert (done + [g])[..|done|] == done;
  }

  lemma CallsStayInOrder(env: Env, c: Candidates, done: seq<GradedVerdict>, g: GradedVerdict, sent: seq<nat>, sent': seq<nat>)
    requires CallsInOrder(env, c, done, sent) && MaySend(env, c, done, sent, sent')
    ensures CallsInOrder(env, c, done + [g], sent')
  {
    hide NeedsRepair, RepairsNeeded, ClaimedBy;
    OneMoreNeeded(env, c, done, g);
    if sent' != sent {
      assert forall k :: 0 <= k < |sent| ==> sent'[k] == sent[k];
    }
  }

  lemma ExplanationsStay(env: Env, ids: seq<int>, c: Candidates, done: seq<GradedVerdict>, g: GradedVerdict,
                         sent: seq<nat>, sent': seq<nat>)
    requires |done| < |ids|
    requires forall k :: 0 <= k < |done| ==> Explained(env, ids, c, done[..k], done[k], sent)
    requires sent' == sent || sent' == sent + [|done|]
    requires Explained(env, ids, c, done, g, sent')
    ensures forall k :: 0 <= k < |done + [g]| ==> Explained(env, ids, c, (done + [g])[..k], (done + [g])[k], sent')
  {
    hide Explained;
    forall k | 0 <= k < |done + [g]|
      ensures Explained(env, ids, c, (done + [g])[..k], (done + [g])[k], sent')
    {
      if k < |done| {
        assert (done + [g])[..k] == done[..k];
        if sent' != sent {
          ExplainedStays(env, ids, c, done[..k], done[k], sent, |done|);
        }
      } else {
        assert (done + [g])[..k] == done;
      }
    }
  }

  lemma EntrySettles(env: Env, ids: seq<int>, c: Candidates, done: seq<GradedVerdict>, g: GradedVerdict,
                     sent: seq<nat>, sent': seq<nat>)
    requires Settled(env, ids, c, done, sent) && |done| < |ids|
    requires MaySend(env, c, done, sent, sent')
    requires g.id == ids[|done|] && WellDecided(g) && Fresh(env.key, Quotes(g), ClaimedBy(env.key, done))
    requires Explained(env, ids, c, done, g, sent')
    ensures Settled(env, ids, c, done + [g], sent')
  {
    hide Explained, CallsInOrder, NeverShared, RepairsNeeded, ClaimedBy, NeedsRepair, Fresh, Outage, WellDecided;
    SharedStaysNever(env.key, done, g);
    CallsStayInOrder(env, c, done, g, sent, sent');
    ExplanationsStay(env, ids, c, done, g, sent, sent');
  }

  lemma RepairedIsSound(key: Key, id: int, original: Option<Verdict>, itemInvalid: bool,
                        retry: Option<(Verdict, Option<Evidence>)>, claimed: set<string>)
    requires retry.Some? && retry.value.1.Some? ==> Paired(retry.value.1.value)
    ensures var g := Repaired(key, id, original, itemInvalid, retry, claimed);
            g.id == id && WellDecided(g) && Fresh(key, Quotes(g), claimed)
  {
    if retry.Some? && retry.value.1.Some? {
      UnclaimedIsFresh(key, retry.value.1.value, claimed);
    }
  }

  /** One turn of the loop over the criteria. */
  method Turn(env: Env, ids: seq<int>, c: Candidates, ghost done: seq<GradedVerdict>, i: nat, claimed: set<string>,
              recovered: nat, down: bool, sent: seq<nat>)
    returns (g: Option<GradedVerdict>, recovered': nat, down': bool, sent': seq<nat>)
    requires i == |done| < |ids| && claimed == ClaimedBy(env.key, done)
    requires recovered == Least(RepairsNeeded(env, c, done), env.recoveryMax)
    requires down <==> Outage(env, sent)
    ensures g.None? ==>
      && RepairsNeeded(env, c, done) < env.recoveryMax && !Outage(env, sent) && sent' == sent + [i]
    ensures g.Some? ==>
      && MaySend(env, c, done, sent, sent')
      && g.value.id == ids[i] && WellDecided(g.value) && Fresh(env.key, Quotes(g.value), claimed)
      && (i !in sent ==> Explained(env, ids, c, done, g.value, sent'))
      && (down' <==> Outage(env, sent'))
      && recovered' == recovered + (if NeedsRepair(env, ByIndex(c.verdicts, i), claimed) && recovered < env.recoveryMax then 1 else 0)
  {
    hide RepairsNeeded, ClaimedBy, Repaired, Outage, ByIndex, CandidatesOf;
    recovered', down', sent' := recovered, down, sent;
    var v := ByIndex(c.verdicts, i);
    var support := Support(env.key, env.locate, v, claimed);
    if Uncertain(v) {
      g := Some(Undecided(ids[i], v, ModelUncertain(v.value.reasoning)));
    } else if support.Some? {
      g := Some(Decided(ids[i], v.value.verdict, v.value.reasoning, support.value));
    } else if recovered >= env.recoveryMax {
      g := Some(Undecided(ids[i], v, RecoveryBudgetReached));
    } else {
      recovered' := recovered + 1;
      var called;
      g, called, down' := Repair(env, ids[i], i, v, i in c.invalid, claimed, down);
      if called {
        sent' := sent + [i];
        if env.repairReply(i).Answered? {
          RepairedIsSound(env.key, ids[i], v, i in c.invalid, RetryOf(env.locate, env.repairReply(i).answer), claimed);
        }
      }
      OutageAfter(env, sent, i);
    }
  }

  lemma OutageAfter(env: Env, sent: seq<nat>, i: nat)
    ensures Outage(env, sent + [i]) <==> env.repairReply(i).Unavailable?
  {
  }

  /**
   * What a pass leaves after so many batch calls and these repair calls: every
   * answer was rejected, or the second pass found the service down, or the
   * last answer was attributed and each entry is explained by the replies.
   */
  ghost predicate PassLeaves(env: Env, ids: seq<int>, entries: seq<GradedVerdict>, c: Candidates, calls: nat, sent: seq<nat>) {
    && |entries| == |ids| && calls <= env.attempts
    && (forall a :: 0 <= a < calls - 1 ==> Rejected(env, |ids|, a))
    && (|| (sent == [] && calls == env.attempts && (forall a :: 0 <= a < calls ==> Rejected(env, |ids|, a))
            && forall i :: 0 <= i < |ids| ==> entries[i] == Undecided(ids[i], None, NotValidated))
        || (sent == [] && calls > 0 && env.secondPass && env.batchReply(calls - 1).Unavailable?
            && forall i :: 0 <= i < |ids| ==> entries[i] == Down(ids[i], None, ServiceUnavailable, true))
        || (calls > 0 && env.batchReply(calls - 1).Answered?
            && CandidatesOf(env.batchReply(calls - 1).answer, |ids|) == Some(c)
            && CallsInOrder(env, c, entries, sent)
            && forall i :: 0 <= i < |ids| ==> Explained(env, ids, c, entries[..i], entries[i], sent)))
  }

  /**
   * `grade_batch_verdicts`: one entry for each criterion, in order; decided
   * entries hold paired evidence that no other entry holds; and the calls
   * stay within the attempts and the repair budget.
   */
  method GradeBatch(env: Env, ids: seq<int>) returns (r: PassResult, calls: nat, sent: seq<nat>, ghost c: Candidates)
    ensures calls <= env.attempts && |sent| <= env.recoveryMax
    ensures forall k :: 0 <= k < |sent| - 1 ==> env.repairReply(sent[k]).Answered?
    ensures r.PassGraded? ==>
      && |r.entries| == |ids|
      && (forall i :: 0 <= i < |ids| ==> r.entries[i].id == ids[i] && WellDecided(r.entries[i]))
      && NeverShared(env.key, r.entries)
      && PassLeaves(env, ids, r.entries, c, calls, sent)
  {
    hide CandidatesOf;
    var batch;
    batch, calls := CallBatch(env, |ids|);
    sent, c := [], Candidates([], []);
    if batch.Raised? {
      return PassRaised, calls, sent, c;
    }
    if !batch.Parsed? {
      var entries := seq(|ids|, i requires 0 <= i < |ids| =>
        if batch.AllDown? then Down(ids[i], None, ServiceUnavailable, true) else Undecided(ids[i], None, NotValidated));
      return PassGraded(entries), calls, sent, c;
    }
    var done;
    done, sent := GradeItems(env, ids, batch.candidates);
    c := batch.candidates;
    r := if done.None? then PassRaised else PassGraded(done.value);
  }

  /** The loop over the criteria; None when a repair call raised. */
  method GradeItems(env: Env, ids: seq<int>, c: Candidates) returns (r: Option<seq<GradedVerdict>>, sent: seq<nat>)
    ensures |sent| <= env.recoveryMax
    ensures forall k :: 0 <= k < |sent| - 1 ==> env.repairReply(sent[k]).Answered?
    ensures r.Some? ==> |r.value| == |ids| && Settled(env, ids, c, r.value, sent)
  {
    hide RepairsNeeded, Settled, ClaimedBy, Outage, MaySend, Explained, Fresh, NeedsRepair, WellDecided;
    sent := [];
    var done: seq<GradedVerdict>, claimed: set<string> := [], {};
    var recovered: nat, down := 0, false;
    NothingSettled(env, ids, c);
    for i := 0 to |ids|
      invariant |done| == i && claimed == ClaimedBy(env.key, done)
      invariant recovered == Least(RepairsNeeded(env, c, done), env.recoveryMax)
      invariant down <==> Outage(env, sent)
      invariant Settled(env, ids, c, done, sent)
    {
      ghost var earlier := sent;
      NotYetSent(env, ids, c, done, sent);
      var g;
      g, recovered, down, sent := Turn(env, ids, c, done, i, claimed, recovered, down, sent);
      if g.None? {
        SettledCalls(env, ids, c, done, earlier, i);
        return None, sent;
      }
      EntrySettles(env, ids, c, done, g.value, earlier, sent);
      OneMoreNeeded(env, c, done, g.value);
      claimed := claimed + KeysOf(env.key, Quotes(g.value));
      done := done + [g.value];
    }
    SettledSent(env, ids, c, done, sent);
    r := Some(done);
  }

  lemma NothingSettled(env: Env, ids: seq<int>, c: Candidates)
    ensures Settled(env, ids, c, [], []) && !Outage(env, []) && RepairsNeeded(env, c, []) == 0
    ensures ClaimedBy(env.key, []) == {}
  {
  }

  lemma NotYetSent(env: Env, ids: seq<int>, c: Candidates, done: seq<GradedVerdict>, sent: seq<nat>)
    requires Settled(env, ids, c, done, sent)
    ensures |done| !in sent
  {
  }

  lemma SettledSent(env: Env, ids: seq<int>, c: Candidates, done: seq<GradedVerdict>, sent: seq<nat>)
    requires Settled(env, ids, c, done, sent)
    ensures |sent| <= env.recoveryMax
    ensures forall k :: 0 <= k < |sent| - 1 ==> env.repairReply(sent[k]).Answered?
  {
  }

  // ----- Where decided evidence comes from

  /** Every pair of a decided entry is the source's own text and place for something the model proposed. */
  lemma DecidedPairsAreLocated(env: Env, ids: seq<int>, c: Candidates, before: seq<GradedVerdict>, g: GradedVerdict,
                               sent: seq<nat>, q: string, a: Anchor)
    requires |before| < |ids| && Explained(env, ids, c, before, g, sent)
    requires g.Decided? && HasPair(g.evidence, q, a)
    ensures exists p :: env.locate(p) == Some((q, a))
  {
    var i, claimed := |before|, ClaimedBy(env.key, before);
    var v := ByIndex(c.verdicts, i);
    var support := Support(env.key, env.locate, v, claimed);
    if support.Some? {
      var e := ResolveAll(env.locate, v.value.quotes).value;
      UnclaimedExact(env.key, e, claimed, q, a);
      LocatedPair(env.locate, v.value.quotes, q, a);
    } else {
      var answer := env.repairReply(i).answer;
      var proposals := ByIndex(CandidatesOf(answer, 1).value.verdicts, 0).value.quotes;
      UnclaimedExact(env.key, ResolveAll(env.locate, proposals).value, claimed, q, a);
      LocatedPair(env.locate, proposals, q, a);
    }
  }

  lemma LocatedPair(locate: Locate, proposals: seq<string>, q: string, a: Anchor)
    requires ResolveAll(locate, proposals).Some? && HasPair(ResolveAll(locate, proposals).value, q, a)
    ensures exists p :: locate(p) == Some((q, a))
  {
    var e := ResolveAll(locate, proposals).value;
    var k :| 0 <= k < |e.quotes| && e.quotes[k] == q && e.anchors[k] == a;
    assert locate(proposals[k]) == Some((q, a));
  }
}
