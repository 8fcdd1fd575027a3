/**
 * Planting seeded statements in copies of a thesis: where each block goes,
 * how plants are packed in copies, and how the plants are split in two halves
 * (tools/accuracy/f4_cases.py, lines 778-897).
 *
 * `random.choice` and `random.shuffle` are any choice and any order.
 */
module Packing {
  import opened Wrappers

  type Page = int

  const PLANTS_PER_COPY := 3
  const PAGE_GAP := 5
  const PAGE_ATTEMPTS := 60

  datatype Kind = Recall | Scope | Limitation | Restate

  datatype Role = Context | ResultText

  /** The body pages a block may go on, in hundredths of the page list. */
  datatype Region = Region(low: nat, high: nat)

  datatype Spec = Spec(host: string, kind: Kind, objective: int, blocks: seq<Role>)

  const SCOPE_CONTEXT := Region(0, 40)
  const LIMITATION_CONTEXT := Region(80, 100)

  function ContextRegion(kind: Kind): Region {
    if kind.Limitation? then LIMITATION_CONTEXT else SCOPE_CONTEXT
  }

  /** A plant is a result block, after a context block when its kind has contexts. */
  predicate WellMade(s: Spec) {
    s.blocks == if s.kind.Scope? || s.kind.Limitation? then [Context, ResultText] else [ResultText]
  }

  function Distance(a: Page, b: Page): nat {
    if a <= b then b - a else a - b
  }

  predicate ClearOf(p: Page, taken: seq<Page>) {
    forall i :: 0 <= i < |taken| ==> Distance(p, taken[i]) >= PAGE_GAP
  }

  /** All pages lie pairwise at least the gap apart. */
  predicate Spaced(pages: seq<Page>) {
    forall i, j :: 0 <= i < j < |pages| ==> Distance(pages[i], pages[j]) >= PAGE_GAP
  }

  lemma SpacedAppend(pages: seq<Page>, more: seq<Page>)
    requires Spaced(pages) && Spaced(more)
    requires forall p :: p in more ==> ClearOf(p, pages)
    ensures Spaced(pages + more)
  {
    forall i, j | 0 <= i < j < |pages + more|
      ensures Distance((pages + more)[i], (pages + more)[j]) >= PAGE_GAP
    {
      if i < |pages| <= j {
        assert more[j - |pages|] in more;
        assert Distance(more[j - |pages|], pages[i]) >= PAGE_GAP;
      } else if |pages| <= i {
        assert Distance(more[i - |pages|], more[j - |pages|]) >= PAGE_GAP;
      }
    }
  }

  /** The candidates at least the gap away from every page taken. */
  function Free(candidates: seq<Page>, taken: seq<Page>): (free: seq<Page>)
    ensures forall p :: p in free <==> p in candidates && ClearOf(p, taken)
  {
    if candidates == [] then []
    else
      var rest := Free(candidates[1..], taken);
      assert candidates == [candidates[0]] + candidates[1..];
      if ClearOf(candidates[0], taken) then [candidates[0]] + rest else rest
  }

  /** The free pages on one side of the result. */
  function OnSide(options: seq<Page>, result: Page, after: bool): (side: seq<Page>)
    ensures forall p :: p in side <==> p in options && (if after then p > result else p < result)
  {
    if options == [] then []
    else
      var rest := OnSide(options[1..], result, after);
      assert options == [options[0]] + options[1..];
      if (if after then options[0] > result else options[0] < result) then [options[0]] + rest else rest
  }

  function Hundredths(n: nat, h: nat): (k: nat)
    ensures h < 100 && n > 0 ==> k < n
  {
    n * h / 100
  }

  /** The part of the page list a region names; at least one page when there is any. */
  function RegionPages(pages: seq<Page>, region: Region): (part: seq<Page>)
    requires region.low < 100
    ensures pages != [] ==> part != []
    ensures forall p :: p in part ==> p in pages
  {
    hide Hundredths;
    var start := Hundredths(|pages|, region.low);
    var end := Hundredths(|pages|, region.high);
    var stop := if end > start + 1 then end else start + 1;
    if start >= |pages| then [] else pages[start..if stop > |pages| then |pages| else stop]
  }

  function ContextOptions(s: Spec, taken: seq<Page>, pages: seq<Page>, result: Page): seq<Page> {
    OnSide(Free(RegionPages(pages, ContextRegion(s.kind)), taken + [result]), result, s.kind.Limitation?)
  }

  /** The pages given to a plant's blocks are where they must be. */
  predicate WellPlaced(s: Spec, pages: seq<Page>, resultPages: seq<Page>, given: seq<Page>) {
    && |given| == |s.blocks| && |given| > 0 && Spaced(given)
    && given[|given| - 1] in resultPages
    && (|given| == 2 ==>
          && given[0] in RegionPages(pages, ContextRegion(s.kind))
          && (if s.kind.Limitation? then given[0] > given[1] else given[0] < given[1]))
  }

  /** Why a plant finds no place: no results page is free, or one that is leaves none for the context. */
  ghost predicate Stuck(s: Spec, taken: seq<Page>, pages: seq<Page>, resultPages: seq<Page>) {
    || (forall p :: p in resultPages ==> !ClearOf(p, taken))
    || (|s.blocks| == 2 && exists p :: p in resultPages && ClearOf(p, taken) && NoContextFor(s, taken, pages, p))
  }

  /** No page of the context's region is clear of the copy and of the result, on the context's side of it. */
  predicate NoContextFor(s: Spec, taken: seq<Page>, pages: seq<Page>, result: Page) {
    forall p :: p in RegionPages(pages, ContextRegion(s.kind)) && ClearOf(p, taken + [result])
             ==> if s.kind.Limitation? then p <= result else p >= result
  }

  lemma ContextOptionsExact(s: Spec, taken: seq<Page>, pages: seq<Page>, result: Page, p: Page)
    ensures p in ContextOptions(s, taken, pages, result) <==>
            p in RegionPages(pages, ContextRegion(s.kind)) && ClearOf(p, taken) && Distance(p, result) >= PAGE_GAP
            && if s.kind.Limitation? then p > result else p < result
  {
    hide RegionPages;
    assert ClearOf(p, taken + [result]) <==> ClearOf(p, taken) && Distance(p, result) >= PAGE_GAP by {
      if ClearOf(p, taken + [result]) {
        forall i | 0 <= i < |taken| ensures Distance(p, taken[i]) >= PAGE_GAP {
          assert taken[i] == (taken + [result])[i];
        }
        assert Distance(p, (taken + [result])[|taken|]) >= PAGE_GAP;
      }
    }
  }

  /** Pages for a plant's blocks, in block order, by at most PAGE_ATTEMPTS tries. */
  method AssignPages(s: Spec, taken: seq<Page>, pages: seq<Page>, resultPages: seq<Page>)
    returns (given: Option<seq<Page>>)
    requires WellMade(s)
    ensures given.Some? ==> WellPlaced(s, pages, resultPages, given.value)
    ensures given.Some? ==> forall p :: p in given.value ==> ClearOf(p, taken)
    ensures given.None? ==> Stuck(s, taken, pages, resultPages)
  {
    hide RegionPages;
    for attempt := 0 to PAGE_ATTEMPTS
      invariant attempt > 0 ==> Stuck(s, taken, pages, resultPages)
    {
      var options := Free(resultPages, taken);
      if options == [] {
        assert forall p :: p in resultPages && ClearOf(p, taken) ==> p in options;
        return None;
      }
      var i :| 0 <= i < |options|;
      var result := options[i];
      assert result in options;
      if |s.blocks| == 1 {
        return Some([result]);
      }
      var contexts := ContextOptions(s, taken, pages, result);
      if contexts != [] {
        var j :| 0 <= j < |contexts|;
        assert contexts[j] in contexts;
        ContextOptionsExact(s, taken, pages, result, contexts[j]);
        return Some([contexts[j], result]);
      }
      assert NoContextFor(s, taken, pages, result) by {
        forall p | p in RegionPages(pages, ContextRegion(s.kind)) && ClearOf(p, taken + [result])
          ensures if s.kind.Limitation? then p <= result else p >= result
        {
          assert p !in contexts;
        }
      }
    }
    return None;
  }

  // ----- One copy

  datatype Placed = Placed(spec: Spec, pages: seq<Page>)

  function SpecsOf(copy: seq<Placed>): (specs: seq<Spec>)
    ensures |specs| == |copy|
    ensures forall i :: 0 <= i < |copy| ==> specs[i] == copy[i].spec
  {
    if copy == [] then [] else SpecsOf(copy[..|copy| - 1]) + [copy[|copy| - 1].spec]
  }

  function PagesOf(copy: seq<Placed>): seq<Page> {
    if copy == [] then [] else PagesOf(copy[..|copy| - 1]) + copy[|copy| - 1].pages
  }

  lemma AppendPlaced(copy: seq<Placed>, p: Placed)
    ensures SpecsOf(copy + [p]) == SpecsOf(copy) + [p.spec]
    ensures PagesOf(copy + [p]) == PagesOf(copy) + p.pages
  {
    assert (copy + [p])[..|copy|] == copy;
  }

  /** Up to three plants on distinct objectives, all their pages spaced and each plant well placed. */
  predicate GoodCopy(copy: seq<Placed>, pages: seq<Page>, resultPages: seq<Page>) {
    && |copy| <= PLANTS_PER_COPY && DistinctObjectives(copy)
    && Spaced(PagesOf(copy)) && AllWellPlaced(copy, pages, resultPages)
  }

  predicate DistinctObjectives(copy: seq<Placed>) {
    forall i, j :: 0 <= i < j < |copy| ==> copy[i].spec.objective != copy[j].spec.objective
  }

  predicate AllWellPlaced(copy: seq<Placed>, pages: seq<Page>, resultPages: seq<Page>) {
    forall i :: 0 <= i < |copy| ==> WellPlaced(copy[i].spec, pages, resultPages, copy[i].pages)
  }

  predicate Clashes(s: Spec, copy: seq<Placed>) {
    exists i :: 0 <= i < |copy| && copy[i].spec.objective == s.objective
  }

  /** Why a spec is not in a copy: its objective is, or it found no place beside the plants already there. */
  ghost predicate PassedOver(s: Spec, copy: seq<Placed>, pages: seq<Page>, resultPages: seq<Page>) {
    Clashes(s, copy) || exists k :: 0 <= k <= |copy| && Stuck(s, PagesOf(copy[..k]), pages, resultPages)
  }

  lemma StillPassedOver(s: Spec, copy: seq<Placed>, p: Placed, pages: seq<Page>, resultPages: seq<Page>)
    requires PassedOver(s, copy, pages, resultPages)
    ensures PassedOver(s, copy + [p], pages, resultPages)
  {
    hide Stuck, PagesOf;
    if Clashes(s, copy) {
      var i :| 0 <= i < |copy| && copy[i].spec.objective == s.objective;
      assert (copy + [p])[i].spec.objective == s.objective;
    } else {
      var k :| 0 <= k <= |copy| && Stuck(s, PagesOf(copy[..k]), pages, resultPages);
      assert (copy + [p])[..k] == copy[..k];
    }
  }

  lemma GoodCopyGrows(copy: seq<Placed>, p: Placed, pages: seq<Page>, resultPages: seq<Page>)
    requires GoodCopy(copy, pages, resultPages) && |copy| < PLANTS_PER_COPY && !Clashes(p.spec, copy)
    requires WellPlaced(p.spec, pages, resultPages, p.pages)
    requires forall t :: t in p.pages ==> ClearOf(t, PagesOf(copy))
    ensures GoodCopy(copy + [p], pages, resultPages)
  {
    hide PagesOf, Spaced, DistinctObjectives, AllWellPlaced, Clashes, ClearOf;
    AppendPlaced(copy, p);
    SpacedAppend(PagesOf(copy), p.pages);
    ObjectivesStayDistinct(copy, p);
    StillWellPlaced(copy, p, pages, resultPages);
  }

  lemma ObjectivesStayDistinct(copy: seq<Placed>, p: Placed)
    requires DistinctObjectives(copy) && !Clashes(p.spec, copy)
    ensures DistinctObjectives(copy + [p])
  {
  }

  lemma StillWellPlaced(copy: seq<Placed>, p: Placed, pages: seq<Page>, resultPages: seq<Page>)
    requires AllWellPlaced(copy, pages, resultPages) && WellPlaced(p.spec, pages, resultPages, p.pages)
    ensures AllWellPlaced(copy + [p], pages, resultPages)
  {
    hide WellPlaced;
  }

  /** Python's `list.remove`: the first equal element goes. */
  function Removed(xs: seq<Spec>, x: Spec): (rest: seq<Spec>)
    requires x in xs
    ensures multiset(rest) + multiset{x} == multiset(xs)
  {
    assert xs == [xs[0]] + xs[1..];
    if xs[0] == x then xs[1..] else [xs[0]] + Removed(xs[1..], x)
  }

  /** What was placed and what is still pending are together what there was. */
  ghost predicate Conserved(placed: multiset<Spec>, pending: seq<Spec>, specs: seq<Spec>) {
    placed + multiset(pending) == multiset(specs)
  }

  ghost predicate AllPassedOver(specs: seq<Spec>, copy: seq<Placed>, pages: seq<Page>, resultPages: seq<Page>) {
    forall s :: s in specs ==> PassedOver(s, copy, pages, resultPages)
  }

  ghost predicate AllWellMade(specs: seq<Spec>) {
    forall s :: s in specs ==> WellMade(s)
  }

  lemma ConservedStep(copy: seq<Placed>, p: Placed, pending: seq<Spec>, specs: seq<Spec>)
    requires Conserved(multiset(SpecsOf(copy)), pending, specs) && p.spec in pending
    ensures Conserved(multiset(SpecsOf(copy + [p])), Removed(pending, p.spec), specs)
  {
    hide Removed, SpecsOf;
    AppendPlaced(copy, p);
    assert multiset(SpecsOf(copy) + [p.spec]) == multiset(SpecsOf(copy)) + multiset{p.spec};
  }

  lemma PendingComesFromSpecs(placed: multiset<Spec>, pending: seq<Spec>, specs: seq<Spec>, s: Spec)
    requires Conserved(placed, pending, specs) && s in pending
    ensures s in specs
  {
    assert s in multiset(pending);
    assert s in multiset(specs);
  }

  /** What was not yet looked at and is not placed is pending. */
  ghost predicate AheadIsPending(snapshot: seq<Spec>, i: nat, pending: seq<Spec>) {
    i <= |snapshot| && multiset(snapshot[i..]) <= multiset(pending)
  }

  lemma AheadAfterSkip(snapshot: seq<Spec>, i: nat, pending: seq<Spec>)
    requires i < |snapshot| && AheadIsPending(snapshot, i, pending)
    ensures snapshot[i] in pending && AheadIsPending(snapshot, i + 1, pending)
    ensures AheadIsPending(snapshot, i + 1, Removed(pending, snapshot[i]))
  {
    hide Removed;
    assert snapshot[i..] == [snapshot[i]] + snapshot[i + 1..];
    assert snapshot[i] in multiset(pending);
    assert multiset(snapshot[i..]) == multiset{snapshot[i]} + multiset(snapshot[i + 1..]);
  }

  /** Fills one copy with the pending plants, taken greedily in order. */
  method FillCopy(specs: seq<Spec>, pages: seq<Page>, resultPages: seq<Page>)
    returns (copy: seq<Placed>, pending: seq<Spec>)
    requires AllWellMade(specs)
    ensures GoodCopy(copy, pages, resultPages)
    ensures Conserved(multiset(SpecsOf(copy)), pending, specs)
    ensures |copy| == PLANTS_PER_COPY || AllPassedOver(pending, copy, pages, resultPages)
  {
    hide GoodCopy, PassedOver, WellPlaced, Stuck, Conserved, Removed, SpecsOf, PagesOf, AheadIsPending, WellMade, ClearOf;
    var taken := [];
    copy, pending := [], specs;
    GoodAtStart(specs, pages, resultPages);
    for i := 0 to |specs|
      invariant taken == PagesOf(copy)
      invariant |copy| <= PLANTS_PER_COPY
      invariant GoodCopy(copy, pages, resultPages)
      invariant Conserved(multiset(SpecsOf(copy)), pending, specs)
      invariant AheadIsPending(specs, i, pending)
      invariant AllPassedOver(specs[..i], copy, pages, resultPages)
    {
      if |copy| == PLANTS_PER_COPY {
        break;
      }
      AheadAfterSkip(specs, i, pending);
      var s := specs[i];
      assert specs[..i + 1] == specs[..i] + [s];
      if exists j :: 0 <= j < |copy| && copy[j].spec.objective == s.objective {
        ClashPassesOver(s, copy, pages, resultPages);
        continue;
      }
      var given := AssignPages(s, taken, pages, resultPages);
      if given.None? {
        StuckPassesOver(s, copy, pages, resultPages);
        continue;
      }
      var p := Placed(s, given.value);
      GoodCopyGrows(copy, p, pages, resultPages);
      ConservedStep(copy, p, pending, specs);
      AppendPlaced(copy, p);
      PassedOverGrows(specs[..i], copy, p, pages, resultPages);
      GoodCopyLength(copy + [p], pages, resultPages);
      copy, taken, pending := copy + [p], taken + given.value, Removed(pending, s);
      assert copy[|copy| - 1].spec.objective == s.objective;
      ClashPassesOver(s, copy, pages, resultPages);
    }
    if |copy| != PLANTS_PER_COPY {
      assert specs[..|specs|] == specs;
      forall s | s in pending ensures PassedOver(s, copy, pages, resultPages) {
        PendingComesFromSpecs(multiset(SpecsOf(copy)), pending, specs, s);
      }
    }
  }

  lemma GoodAtStart(specs: seq<Spec>, pages: seq<Page>, resultPages: seq<Page>)
    ensures GoodCopy([], pages, resultPages) && Conserved(multiset(SpecsOf([])), specs, specs)
    ensures PagesOf([]) == [] && AheadIsPending(specs, 0, specs)
  {
    assert specs[0..] == specs;
  }

  lemma GoodCopyLength(copy: seq<Placed>, pages: seq<Page>, resultPages: seq<Page>)
    requires GoodCopy(copy, pages, resultPages)
    ensures |copy| <= PLANTS_PER_COPY
  {
  }

  lemma ClashPassesOver(s: Spec, copy: seq<Placed>, pages: seq<Page>, resultPages: seq<Page>)
    requires exists j :: 0 <= j < |copy| && copy[j].spec.objective == s.objective
    ensures PassedOver(s, copy, pages, resultPages)
  {
  }

  lemma StuckPassesOver(s: Spec, copy: seq<Placed>, pages: seq<Page>, resultPages: seq<Page>)
    requires Stuck(s, PagesOf(copy), pages, resultPages)
    ensures PassedOver(s, copy, pages, resultPages)
  {
    assert copy[..|copy|] == copy;
  }

  lemma PassedOverGrows(specs: seq<Spec>, copy: seq<Placed>, p: Placed, pages: seq<Page>, resultPages: seq<Page>)
    requires AllPassedOver(specs, copy, pages, resultPages)
    ensures AllPassedOver(specs, copy + [p], pages, resultPages)
  {
    hide PassedOver;
    forall s | s in specs ensures PassedOver(s, copy + [p], pages, resultPages) {
      StillPassedOver(s, copy, p, pages, resultPages);
    }
  }

  // ----- One host

  /** All specs in a host's copies. */
  function Planted(copies: seq<seq<Placed>>): multiset<Spec> {
    if copies == [] then multiset{}
    else Planted(copies[..|copies| - 1]) + multiset(SpecsOf(copies[|copies| - 1]))
  }

  lemma PlantedAppend(copies: seq<seq<Placed>>, copy: seq<Placed>)
    ensures Planted(copies + [copy]) == Planted(copies) + multiset(SpecsOf(copy))
  {
    assert (copies + [copy])[..|copies|] == copies;
  }

  /** A copy is closed early only when nothing that was left could join it. */
  ghost predicate ClosedInTime(copies: seq<seq<Placed>>, left: seq<Spec>, pages: seq<Page>, resultPages: seq<Page>) {
    forall i :: 0 <= i < |copies| ==>
      |copies[i]| == PLANTS_PER_COPY || AllPassedOver(left, copies[i], pages, resultPages)
  }

  ghost predicate AllGood(copies: seq<seq<Placed>>, pages: seq<Page>, resultPages: seq<Page>) {
    forall i :: 0 <= i < |copies| ==> copies[i] != [] && GoodCopy(copies[i], pages, resultPages)
  }

  /** No spec has a place in an empty copy. */
  ghost predicate Unplaceable(specs: seq<Spec>, pages: seq<Page>, resultPages: seq<Page>) {
    forall s :: s in specs ==> Stuck(s, [], pages, resultPages)
  }

  lemma FewerPending(copy: seq<Placed>, pending: seq<Spec>, specs: seq<Spec>)
    requires Conserved(multiset(SpecsOf(copy)), pending, specs)
    ensures |pending| + |copy| == |specs|
  {
    hide SpecsOf;
    assert |multiset(SpecsOf(copy))| == |copy|;
    assert |multiset(SpecsOf(copy)) + multiset(pending)| == |copy| + |pending|;
  }

  lemma ConservedOver(placed: multiset<Spec>, more: multiset<Spec>, pending: seq<Spec>, after: seq<Spec>, specs: seq<Spec>)
    requires Conserved(placed, pending, specs) && Conserved(more, after, pending)
    ensures Conserved(placed + more, after, specs)
  {
  }

  lemma StillWellMade(placed: multiset<Spec>, after: seq<Spec>, pending: seq<Spec>)
    requires Conserved(placed, after, pending) && AllWellMade(pending)
    ensures AllWellMade(after)
  {
    hide WellMade, Conserved;
    forall s | s in after ensures WellMade(s) {
      PendingComesFromSpecs(placed, after, pending, s);
    }
  }

  lemma StillClosedInTime(copies: seq<seq<Placed>>, placed: multiset<Spec>, after: seq<Spec>, pending: seq<Spec>,
                          pages: seq<Page>, resultPages: seq<Page>)
    requires ClosedInTime(copies, pending, pages, resultPages) && Conserved(placed, after, pending)
    ensures ClosedInTime(copies, after, pages, resultPages)
  {
    hide PassedOver, Conserved;
    forall i, s | 0 <= i < |copies| && |copies[i]| != PLANTS_PER_COPY && s in after
      ensures PassedOver(s, copies[i], pages, resultPages)
    {
      PendingComesFromSpecs(placed, after, pending, s);
    }
  }

  lemma EmptyCopyMeansUnplaceable(pending: seq<Spec>, pages: seq<Page>, resultPages: seq<Page>)
    requires AllPassedOver(pending, [], pages, resultPages)
    ensures Unplaceable(pending, pages, resultPages)
  {
    hide Stuck;
    forall s | s in pending ensures Stuck(s, [], pages, resultPages) {
      assert PassedOver(s, [], pages, resultPages);
      var none: seq<Placed> := [];
      var k :| 0 <= k <= |none| && Stuck(s, PagesOf(none[..k]), pages, resultPages);
    }
  }

  /** Packs all of one host's specs; `left` are the ones counted as dropped. */
  method PackHost(specs: seq<Spec>, pages: seq<Page>, resultPages: seq<Page>)
    returns (copies: seq<seq<Placed>>, dropped: nat, ghost left: seq<Spec>)
    requires AllWellMade(specs)
    ensures AllGood(copies, pages, resultPages)
    ensures Conserved(Planted(copies), left, specs) && dropped == |left|
    ensures ClosedInTime(copies, left, pages, resultPages)
    ensures Unplaceable(left, pages, resultPages)
  {
    hide GoodCopy, WellMade, Conserved, SpecsOf, Planted, PassedOver, Stuck;
    var pending := specs;
    copies, dropped, left := [], 0, [];
    assert Conserved(Planted([]), specs, specs) by {
      PlantedNothing(specs);
    }
    while pending != []
      invariant AllWellMade(pending) && AllGood(copies, pages, resultPages)
      invariant Conserved(Planted(copies), pending, specs)
      invariant ClosedInTime(copies, pending, pages, resultPages)
      decreases |pending|
    {
      var copy, after := FillCopy(pending, pages, resultPages);
      FewerPending(copy, after, pending);
      StillWellMade(multiset(SpecsOf(copy)), after, pending);
      StillClosedInTime(copies, multiset(SpecsOf(copy)), after, pending, pages, resultPages);
      if copy == [] {
        EmptyCopyMeansUnplaceable(after, pages, resultPages);
        ConservedOver(Planted(copies), multiset(SpecsOf(copy)), pending, after, specs);
        PlantedAppendEmpty(copies, copy);
        dropped, left := |pending|, after;
        return;
      }
      ConservedOver(Planted(copies), multiset(SpecsOf(copy)), pending, after, specs);
      PlantedAppend(copies, copy);
      copies, pending := copies + [copy], after;
    }
  }

  lemma PlantedNothing(specs: seq<Spec>)
    ensures Planted([]) == multiset{}
    ensures Conserved(Planted([]), specs, specs)
  {
  }

  lemma PlantedAppendEmpty(copies: seq<seq<Placed>>, copy: seq<Placed>)
    requires copy == []
    ensures Planted(copies) + multiset(SpecsOf(copy)) == Planted(copies)
  {
  }

  /** A plant without a context is dropped only by a host without results pages. */
  lemma LoneResultDroppedOnlyWithoutPages(s: Spec, pages: seq<Page>, resultPages: seq<Page>)
    requires WellMade(s) && |s.blocks| == 1
    ensures Stuck(s, [], pages, resultPages) <==> resultPages == []
  {
    if resultPages != [] {
      assert resultPages[0] in resultPages && ClearOf(resultPages[0], []);
    }
  }

  // ----- All hosts, and the two halves

  /** A host's specs, already shuffled, and its pages. */
  datatype Host = Host(name: string, specs: seq<Spec>, pages: seq<Page>, resultPages: seq<Page>)

  datatype Dropped = Dropped(host: string, n: nat)

  datatype Side = Dev | Holdout

  /** What a plant is split by: a host's objective. */
  datatype Key = Key(host: string, objective: int)

  datatype Copy = Copy(host: Host, plants: seq<Placed>)

  /** Specs are grouped by the host they name. */
  ghost predicate Grouped(hosts: seq<Host>) {
    && (forall i, j :: 0 <= i < j < |hosts| ==> hosts[i].name != hosts[j].name)
    && (forall h :: h in hosts ==> AllWellMade(h.specs) && forall s :: s in h.specs ==> s.host == h.name)
  }

  function KeyOf(s: Spec): Key {
    Key(s.host, s.objective)
  }

  function AllSpecs(hosts: seq<Host>): multiset<Spec> {
    if hosts == [] then multiset{}
    else AllSpecs(hosts[..|hosts| - 1]) + multiset(hosts[|hosts| - 1].specs)
  }

  function PlantsIn(copies: seq<Copy>): multiset<Spec> {
    if copies == [] then multiset{}
    else PlantsIn(copies[..|copies| - 1]) + multiset(SpecsOf(copies[|copies| - 1].plants))
  }

  function NumberDropped(dropped: seq<Dropped>): nat {
    if dropped == [] then 0 else NumberDropped(dropped[..|dropped| - 1]) + dropped[|dropped| - 1].n
  }

  lemma AppendAllSpecs(hosts: seq<Host>, h: Host)
    ensures AllSpecs(hosts + [h]) == AllSpecs(hosts) + multiset(h.specs)
  {
    assert (hosts + [h])[..|hosts|] == hosts;
  }

  lemma AppendDropped(dropped: seq<Dropped>, d: Dropped)
    ensures NumberDropped(dropped + [d]) == NumberDropped(dropped) + d.n
  {
    assert (dropped + [d])[..|dropped|] == dropped;
  }

  /** A host's copies, labelled with the host. */
  function Labelled(h: Host, copies: seq<seq<Placed>>): (labelled: seq<Copy>)
    ensures |labelled| == |copies|
    ensures forall i :: 0 <= i < |copies| ==> labelled[i] == Copy(h, copies[i])
  {
    if copies == [] then []
    else Labelled(h, copies[..|copies| - 1]) + [Copy(h, copies[|copies| - 1])]
  }

  lemma {:induction false} LabelledPlants(before: seq<Copy>, h: Host, copies: seq<seq<Placed>>)
    ensures PlantsIn(before + Labelled(h, copies)) == PlantsIn(before) + Planted(copies)
  {
    hide SpecsOf, PlantsIn, Planted;
    if copies == [] {
      assert before + Labelled(h, copies) == before;
      PlantedNothing([]);
    } else {
      var first, last := copies[..|copies| - 1], copies[|copies| - 1];
      LabelledPlants(before, h, first);
      assert before + Labelled(h, copies) == (before + Labelled(h, first)) + [Copy(h, last)];
      PlantsInAppend(before + Labelled(h, first), Copy(h, last));
      assert first + [last] == copies;
      PlantedAppend(first, last);
    }
  }

  lemma PlantsInAppend(copies: seq<Copy>, c: Copy)
    ensures PlantsIn(copies + [c]) == PlantsIn(copies) + multiset(SpecsOf(c.plants))
  {
    assert (copies + [c])[..|copies|] == copies;
  }

  ghost predicate SoundCopy(c: Copy) {
    c.plants != [] && GoodCopy(c.plants, c.host.pages, c.host.resultPages)
  }

  /** Every spec is in exactly one copy or counted as dropped, and every copy is sound. */
  ghost predicate Accounted(hosts: seq<Host>, copies: seq<Copy>, dropped: seq<Dropped>, left: multiset<Spec>) {
    && PlantsIn(copies) + left == AllSpecs(hosts)
    && NumberDropped(dropped) == |left|
    && forall c :: c in copies ==> SoundCopy(c)
  }

  lemma AccountedNext(hosts: seq<Host>, h: Host, copies: seq<Copy>, more: seq<seq<Placed>>,
                      dropped: seq<Dropped>, after: seq<Dropped>, left: multiset<Spec>, rest: seq<Spec>)
    requires Accounted(hosts, copies, dropped, left)
    requires Conserved(Planted(more), rest, h.specs) && AllGood(more, h.pages, h.resultPages)
    requires NumberDropped(after) == NumberDropped(dropped) + |rest|
    ensures Accounted(hosts + [h], copies + Labelled(h, more), after, left + multiset(rest))
  {
    hide AllSpecs, PlantsIn, Planted, NumberDropped, GoodCopy, Labelled;
    AppendAllSpecs(hosts, h);
    LabelledPlants(copies, h, more);
    assert |left + multiset(rest)| == |left| + |rest|;
  }

  /** Plants of every host; `left` is what the dropped entries count. */
  method PackAll(hosts: seq<Host>)
    returns (copies: seq<Copy>, dropped: seq<Dropped>, ghost left: multiset<Spec>)
    requires Grouped(hosts)
    ensures Accounted(hosts, copies, dropped, left)
    ensures forall c :: c in copies ==> SoundCopy(c)
    ensures PlantsIn(copies) <= AllSpecs(hosts) && |PlantsIn(copies)| + NumberDropped(dropped) == |AllSpecs(hosts)|
  {
    hide Conserved, Planted, AllGood, ClosedInTime, Unplaceable, Accounted, NumberDropped, AllWellMade, SoundCopy, PlantsIn, AllSpecs, Labelled;
    copies, dropped, left := [], [], multiset{};
    NothingAccounted();
    for i := 0 to |hosts|
      invariant Accounted(hosts[..i], copies, dropped, left)
    {
      var h := hosts[i];
      assert h in hosts;
      var more, n, rest := PackHost(h.specs, h.pages, h.resultPages);
      var after := dropped;
      if n > 0 {
        after := dropped + [Dropped(h.name, n)];
        AppendDropped(dropped, Dropped(h.name, n));
      }
      AccountedNext(hosts[..i], h, copies, more, dropped, after, left, rest);
      assert hosts[..i] + [h] == hosts[..i + 1];
      copies, dropped, left := copies + Labelled(h, more), after, left + multiset(rest);
    }
    assert hosts[..|hosts|] == hosts;
    AllAccounted(hosts, copies, dropped, left);
  }

  /** Placed once or counted as dropped, in numbers. */
  lemma AllAccounted(hosts: seq<Host>, copies: seq<Copy>, dropped: seq<Dropped>, left: multiset<Spec>)
    requires Accounted(hosts, copies, dropped, left)
    ensures forall c :: c in copies ==> SoundCopy(c)
    ensures PlantsIn(copies) <= AllSpecs(hosts) && |PlantsIn(copies)| + NumberDropped(dropped) == |AllSpecs(hosts)|
  {
    hide PlantsIn, AllSpecs, NumberDropped, SoundCopy;
    assert |PlantsIn(copies) + left| == |PlantsIn(copies)| + |left|;
  }

  lemma NothingAccounted()
    ensures Accounted([], [], [], multiset{})
  {
  }

  function KeysOf(copies: seq<Copy>): set<Key> {
    set c, s | c in copies && s in SpecsOf(c.plants) :: KeyOf(s)
  }

  /** The keys on one side. */
  function On(sides: map<Key, Side>, side: Side): set<Key> {
    set k | k in sides && sides[k] == side
  }

  /** Alternates over the keys in any order: the halves differ by at most one. */
  method Split(keys: set<Key>) returns (sides: map<Key, Side>)
    ensures sides.Keys == keys
    ensures |On(sides, Holdout)| <= |On(sides, Dev)| <= |On(sides, Holdout)| + 1
  {
    hide On, Undealt, Balanced;
    NobodyDealt(keys);
    sides := map[];
    var remaining, i := keys, 0;
    while remaining != {}
      invariant Undealt(sides, remaining, keys)
      invariant i >= 0 && Balanced(sides, i)
      decreases |remaining|
    {
      var k :| k in remaining;
      var side := if i % 2 == 0 then Dev else Holdout;
      DealtTo(sides, k, side, remaining, keys);
      StaysBalanced(sides, k, i);
      sides, remaining, i := sides[k := side], remaining - {k}, i + 1;
    }
    AllDealt(sides, keys);
    BalancedBounds(sides, i);
  }

  /** Each key is either dealt or remains. */
  predicate Undealt(sides: map<Key, Side>, remaining: set<Key>, keys: set<Key>) {
    sides.Keys !! remaining && sides.Keys + remaining == keys
  }

  lemma NobodyDealt(keys: set<Key>)
    ensures Balanced(map[], 0) && Undealt(map[], keys, keys)
  {
  }

  lemma AllDealt(sides: map<Key, Side>, keys: set<Key>)
    requires Undealt(sides, {}, keys)
    ensures sides.Keys == keys
  {
  }

  lemma DealtTo(sides: map<Key, Side>, k: Key, side: Side, remaining: set<Key>, keys: set<Key>)
    requires k in remaining && Undealt(sides, remaining, keys)
    ensures Undealt(sides[k := side], remaining - {k}, keys)
    ensures k !in sides
  {
    assert sides[k := side].Keys == sides.Keys + {k};
  }

  lemma OneMoreOn(sides: map<Key, Side>, k: Key, side: Side)
    requires k !in sides
    ensures |On(sides[k := side], side)| == |On(sides, side)| + 1
  {
    assert On(sides[k := side], side) == On(sides, side) + {k};
  }

  lemma OtherSideUnchanged(sides: map<Key, Side>, k: Key, side: Side, other: Side)
    requires k !in sides && other != side
    ensures On(sides[k := side], other) == On(sides, other)
  {
  }

  /** After i keys, the first half is ahead by one exactly when i is odd. */
  predicate Balanced(sides: map<Key, Side>, i: nat) {
    |On(sides, Dev)| == |On(sides, Holdout)| + i % 2
  }

  lemma BalancedBounds(sides: map<Key, Side>, i: nat)
    requires Balanced(sides, i)
    ensures |On(sides, Holdout)| <= |On(sides, Dev)| <= |On(sides, Holdout)| + 1
  {
    hide On;
  }

  lemma StaysBalanced(sides: map<Key, Side>, k: Key, i: nat)
    requires k !in sides && Balanced(sides, i)
    ensures Balanced(sides[k := if i % 2 == 0 then Dev else Holdout], i + 1)
  {
    hide On;
    if i % 2 == 0 {
      OneMoreOn(sides, k, Dev);
      OtherSideUnchanged(sides, k, Dev, Holdout);
    } else {
      OneMoreOn(sides, k, Holdout);
      OtherSideUnchanged(sides, k, Holdout, Dev);
    }
  }

  /** The half of each plant, copy by copy. */
  function Halves(copies: seq<Copy>, sides: map<Key, Side>): (halves: seq<seq<Side>>)
    requires sides.Keys == KeysOf(copies)
  {
    seq(|copies|, c requires 0 <= c < |copies| =>
      seq(|copies[c].plants|, p requires 0 <= p < |copies[c].plants| =>
        KeyHasSide(copies, c, p);
        sides[KeyOf(copies[c].plants[p].spec)]))
  }

  lemma KeyHasSide(copies: seq<Copy>, c: nat, p: nat)
    requires c < |copies| && p < |copies[c].plants|
    ensures KeyOf(copies[c].plants[p].spec) in KeysOf(copies)
  {
    assert copies[c] in copies;
    assert SpecsOf(copies[c].plants)[p] in SpecsOf(copies[c].plants);
  }

  /** No objective of a host is in both halves. */
  ghost predicate NothingLeaks(copies: seq<Copy>, halves: seq<seq<Side>>) {
    && |halves| == |copies|
    && (forall c :: 0 <= c < |copies| ==> |halves[c]| == |copies[c].plants|)
    && forall c, d, p, q ::
         0 <= c < |copies| && 0 <= d < |copies| && 0 <= p < |copies[c].plants| && 0 <= q < |copies[d].plants|
         && KeyOf(copies[c].plants[p].spec) == KeyOf(copies[d].plants[q].spec)
         ==> halves[c][p] == halves[d][q]
  }

  /** The planted copies, their dev and holdout halves, and what was dropped. */
  method BuildCases(hosts: seq<Host>)
    returns (copies: seq<Copy>, halves: seq<seq<Side>>, dropped: seq<Dropped>, sides: map<Key, Side>,
             ghost left: multiset<Spec>)
    requires Grouped(hosts)
    ensures Accounted(hosts, copies, dropped, left)
    ensures forall c :: c in copies ==> SoundCopy(c)
    ensures PlantsIn(copies) <= AllSpecs(hosts) && |PlantsIn(copies)| + NumberDropped(dropped) == |AllSpecs(hosts)|
    ensures NothingLeaks(copies, halves)
    ensures sides.Keys == KeysOf(copies)
    ensures forall c, p :: 0 <= c < |copies| && 0 <= p < |copies[c].plants| ==>
              c < |halves| && p < |halves[c]| && KeyOf(copies[c].plants[p].spec) in sides
              && halves[c][p] == sides[KeyOf(copies[c].plants[p].spec)]
    ensures |On(sides, Holdout)| <= |On(sides, Dev)| <= |On(sides, Holdout)| + 1
  {
    hide Accounted, KeysOf, SpecsOf, Grouped, SoundCopy, PlantsIn, AllSpecs, NumberDropped;
    copies, dropped, left := PackAll(hosts);
    sides := Split(KeysOf(copies));
    halves := Halves(copies, sides);
    forall c: nat, p: nat | c < |copies| && p < |copies[c].plants|
      ensures KeyOf(copies[c].plants[p].spec) in sides
    {
      KeyHasSide(copies, c, p);
    }
  }
}
