/**
 * From a proposed quotation to the source's own words: the stored excerpt is
 * a slice of one scope's text, found through the folded index
 * (backend/app/checks/semantic.py, lines 406-560).
 */
module Excerpts {
  import opened Wrappers
  import opened SourceText
  import opened Folding
  import Quotes

  // ----- Omission marks: an ellipsis, or three dots with optional spaces between

  function SkipSpaces(u: Unicode, s: string, i: nat): (r: nat)
    requires i <= |s|
    ensures i <= r <= |s| && (forall k :: i <= k < r ==> u.isSpace(s[k])) && (r < |s| ==> !u.isSpace(s[r]))
    decreases |s| - i
  {
    if i < |s| && u.isSpace(s[i]) then SkipSpaces(u, s, i + 1) else i
  }

  /** The end of the mark that begins at index i. */
  function MarkEnd(u: Unicode, s: string, i: nat): (r: Option<nat>)
    requires i <= |s|
    ensures r.Some? ==> i < r.value <= |s|
  {
    if i == |s| then None
    else if s[i] == ELLIPSIS then Some(i + 1)
    else if s[i] != '.' then None
    else
      var j := SkipSpaces(u, s, i + 1);
      if j == |s| || s[j] != '.' then None
      else
        var k := SkipSpaces(u, s, j + 1);
        if k == |s| || s[k] != '.' then None else Some(k + 1)
  }

  predicate HasMark(u: Unicode, s: string) {
    exists i :: 0 <= i < |s| && MarkEnd(u, s, i).Some?
  }

  /** Where optional spaces and a mark begin that end the string: the leftmost such index. */
  function TrailingStart(u: Unicode, s: string, from: nat): (r: Option<nat>)
    requires from <= |s|
    ensures r.Some? ==> from <= r.value <= |s| && MarkEnd(u, s, SkipSpaces(u, s, r.value)) == Some(|s|)
    ensures forall i :: from <= i <= |s| && MarkEnd(u, s, SkipSpaces(u, s, i)) == Some(|s|) ==>
              r.Some? && r.value <= i
    decreases |s| - from
  {
    if MarkEnd(u, s, SkipSpaces(u, s, from)) == Some(|s|) then Some(from)
    else if from == |s| then None
    else TrailingStart(u, s, from + 1)
  }

  /** Optional spaces and a mark end the string. */
  ghost predicate EndsWithMark(u: Unicode, s: string) {
    exists i :: 0 <= i <= |s| && MarkEnd(u, s, SkipSpaces(u, s, i)) == Some(|s|)
  }

  datatype Core = Core(text: string, leading: bool, trailing: bool)

  /** `_strip_omission`: no core when nothing is left, or when a mark stands inside. */
  function StripOmission(u: Unicode, quote: string): Option<Core> {
    StripMarks(u, Squash(u, quote))
  }

  function StripMarks(u: Unicode, s: string): Option<Core> {
    var start, end := CoreStart(u, s), CoreEnd(u, s);
    var core := if start < end then Strip(u, s[start..end]) else [];
    if core == [] || HasMark(u, core) then None
    else Some(Core(core, MarkEnd(u, s, 0).Some?, TrailingStart(u, s, 0).Some?))
  }

  function CoreStart(u: Unicode, s: string): (r: nat)
    ensures r <= |s|
  {
    var leading := MarkEnd(u, s, 0);
    if leading.Some? then SkipSpaces(u, s, leading.value) else 0
  }

  function CoreEnd(u: Unicode, s: string): (r: nat)
    ensures r <= |s|
  {
    var trailing := TrailingStart(u, s, 0);
    if trailing.Some? then trailing.value else |s|
  }

  predicate MarkChar(u: Unicode, c: char) {
    c == '.' || c == ELLIPSIS || u.isSpace(c)
  }

  lemma MarkIsMarkChars(u: Unicode, s: string, i: nat)
    requires i <= |s| && MarkEnd(u, s, i).Some?
    ensures forall k :: i <= k < MarkEnd(u, s, i).value ==> MarkChar(u, s[k])
  {
  }

  /**
   * Setting marks aside loses nothing else: the squashed quotation is the
   * core with only dots, ellipses and spaces around it, the core is not
   * blank and holds no mark, and a side without a mark is not cut at all.
   */
  lemma StripOmissionKeepsCore(u: Unicode, quote: string) returns (head: string, tail: string)
    requires StripOmission(u, quote).Some?
    ensures var core := StripOmission(u, quote).value;
            && Squash(u, quote) == head + core.text + tail
            && core.text != [] && Trimmed(u, core.text) && !HasMark(u, core.text)
            && (core.leading <==> MarkEnd(u, Squash(u, quote), 0).Some?)
            && (core.trailing <==> EndsWithMark(u, Squash(u, quote)))
            && (!core.leading ==> head == []) && (!core.trailing ==> tail == [])
            && forall c :: c in head || c in tail ==> MarkChar(u, c)
  {
    var s := Squash(u, quote);
    StripTrims(u, Collapse(u, quote));
    EdgesAreMarks(u, s);
    var start, end := CoreStart(u, s), CoreEnd(u, s);
    StripTrims(u, s[start..end]);
    head, tail := CutAround(u, s, start, end);
  }

  /** What the two cuts remove consists of mark characters. */
  lemma EdgesAreMarks(u: Unicode, s: string)
    ensures forall k :: 0 <= k < CoreStart(u, s) ==> MarkChar(u, s[k])
    ensures forall k :: CoreEnd(u, s) <= k < |s| ==> MarkChar(u, s[k])
  {
    var leading, trailing := MarkEnd(u, s, 0), TrailingStart(u, s, 0);
    if leading.Some? {
      MarkIsMarkChars(u, s, 0);
    }
    if trailing.Some? {
      MarkIsMarkChars(u, s, SkipSpaces(u, s, trailing.value));
    }
  }

  lemma CutAround(u: Unicode, s: string, start: nat, end: nat) returns (head: string, tail: string)
    requires start <= end <= |s| && Trimmed(u, s)
    requires forall k :: 0 <= k < start ==> MarkChar(u, s[k])
    requires forall k :: end <= k < |s| ==> MarkChar(u, s[k])
    requires Strip(u, s[start..end]) != []
    ensures s == head + Strip(u, s[start..end]) + tail
    ensures forall c :: c in head || c in tail ==> MarkChar(u, c)
    ensures (start == 0 ==> head == []) && (end == |s| ==> tail == [])
  {
    var middle := s[start..end];
    var i, j := StripIsSlice(u, middle);
    head, tail := s[..start + i], s[start + j..];
    assert forall k :: start <= k < end ==> s[k] == middle[k - start];
    assert middle[i..j] == s[start + i..start + j];
  }

  // ----- Occurrences of a folded key

  datatype Occurrence = Occurrence(anchor: Option<Anchor>, scope: nat, start: nat, end: nat)

  /** All indices from `from` on where the key occurs, in order. */
  function HitsFrom(text: string, key: string, from: nat): seq<nat>
    requires key != []
    decreases |text| - from
  {
    var p := Find(text, key, from);
    if p == -1 then [] else [p] + HitsFrom(text, key, p + 1)
  }

  lemma {:induction false} HitsExact(text: string, key: string, from: nat)
    requires key != []
    ensures forall p :: p in HitsFrom(text, key, from) <==> from <= p && At(text, key, p)
    decreases |text| - from
  {
    var p := Find(text, key, from);
    if p != -1 {
      HitsExact(text, key, p + 1);
    }
  }

  /** A hit of the folded text taken back to the source characters at its two ends. */
  function ToOccurrence(layout: Layout, positions: seq<nat>, scope: nat, length: nat, byPage: bool, hit: nat): Occurrence
    requires 0 < length && hit + length <= |positions|
  {
    Occurrence(AnchorAt(positions[hit], layout.spans, byPage), scope,
               positions[hit], positions[hit + length - 1] + 1)
  }

  ghost predicate HitsFit(hits: seq<nat>, length: nat, size: nat) {
    forall i :: 0 <= i < |hits| ==> hits[i] + length <= size
  }

  function AllToOccurrences(layout: Layout, positions: seq<nat>, scope: nat, length: nat, byPage: bool,
                            hits: seq<nat>): (r: seq<Occurrence>)
    requires 0 < length && HitsFit(hits, length, |positions|)
    ensures |r| == |hits|
  {
    seq(|hits|, i requires 0 <= i < |hits| => ToOccurrence(layout, positions, scope, length, byPage, hits[i]))
  }

  function InLayout(layout: Layout, folded: string, positions: seq<nat>, scope: nat, key: string, byPage: bool): seq<Occurrence>
    requires key != [] && |folded| == |positions|
  {
    HitsExact(folded, key, 0);
    assert HitsFit(HitsFrom(folded, key, 0), |key|, |positions|) by {
      forall i | 0 <= i < |HitsFrom(folded, key, 0)|
        ensures HitsFrom(folded, key, 0)[i] + |key| <= |positions|
      {
        assert HitsFrom(folded, key, 0)[i] in HitsFrom(folded, key, 0);
      }
    }
    AllToOccurrences(layout, positions, scope, |key|, byPage, HitsFrom(folded, key, 0))
  }

  lemma InLayoutExact(layout: Layout, folded: string, positions: seq<nat>, scope: nat, key: string, byPage: bool, o: Occurrence)
    requires key != [] && |folded| == |positions|
    ensures o in InLayout(layout, folded, positions, scope, key, byPage) <==>
      exists hit: nat :: At(folded, key, hit) && o == ToOccurrence(layout, positions, scope, |key|, byPage, hit)
  {
    HitsExact(folded, key, 0);
    var hits := HitsFrom(folded, key, 0);
    var os := InLayout(layout, folded, positions, scope, key, byPage);
    if o in os {
      var i :| 0 <= i < |os| && os[i] == o;
      assert hits[i] in hits;
    }
    if hit: nat :| At(folded, key, hit) && o == ToOccurrence(layout, positions, scope, |key|, byPage, hit) {
      var i :| 0 <= i < |hits| && hits[i] == hit;
      assert os[i] == o;
    }
  }

  /** All occurrences, scope by scope. */
  function Occurrences(u: Unicode, layouts: seq<Layout>, casefold: bool, key: string, byPage: bool): seq<Occurrence>
    requires key != []
  {
    if layouts == [] then []
    else
      var n := |layouts| - 1;
      var text := layouts[n].text;
      Occurrences(u, layouts[..n], casefold, key, byPage)
      + InLayout(layouts[n], FoldText(u, casefold, text), FoldPositions(u, casefold, text), n, key, byPage)
  }

  /** Every match of the key in some layout's folded text is there, and nothing else. */
  ghost predicate Matches(u: Unicode, layouts: seq<Layout>, casefold: bool, key: string, byPage: bool,
                          o: Occurrence, hit: nat)
    requires key != []
  {
    && o.scope < |layouts|
    && var text := layouts[o.scope].text;
    && At(FoldText(u, casefold, text), key, hit)
    && o == ToOccurrence(layouts[o.scope], FoldPositions(u, casefold, text), o.scope, |key|, byPage, hit)
  }

  ghost predicate IsOccurrence(u: Unicode, layouts: seq<Layout>, casefold: bool, key: string, byPage: bool, o: Occurrence)
    requires key != []
  {
    exists hit :: Matches(u, layouts, casefold, key, byPage, o, hit)
  }

  lemma {:induction false} OccurrencesExact(u: Unicode, layouts: seq<Layout>, casefold: bool, key: string, byPage: bool)
    requires key != []
    ensures forall o :: o in Occurrences(u, layouts, casefold, key, byPage) <==>
              IsOccurrence(u, layouts, casefold, key, byPage, o)
  {
    if layouts != [] {
      var n := |layouts| - 1;
      OccurrencesExact(u, layouts[..n], casefold, key, byPage);
      forall o
        ensures o in Occurrences(u, layouts, casefold, key, byPage) <==>
          IsOccurrence(u, layouts, casefold, key, byPage, o)
      {
        OccurrencesStep(u, layouts, casefold, key, byPage, o);
      }
    }
  }

  lemma OccurrencesStep(u: Unicode, layouts: seq<Layout>, casefold: bool, key: string, byPage: bool, o: Occurrence)
    requires key != [] && layouts != []
    requires var before := layouts[..|layouts| - 1];
             o in Occurrences(u, before, casefold, key, byPage) <==>
               IsOccurrence(u, before, casefold, key, byPage, o)
    ensures o in Occurrences(u, layouts, casefold, key, byPage) <==>
              IsOccurrence(u, layouts, casefold, key, byPage, o)
  {
    hide FoldText, FoldPositions, InLayout;
    var n := |layouts| - 1;
    var before := layouts[..n];
    var folded, positions := FoldText(u, casefold, layouts[n].text), FoldPositions(u, casefold, layouts[n].text);
    InLayoutExact(layouts[n], folded, positions, n, key, byPage, o);
    forall hit
      ensures Matches(u, layouts, casefold, key, byPage, o, hit) <==>
        Matches(u, before, casefold, key, byPage, o, hit) || MatchesLast(u, layouts, casefold, key, byPage, o, hit)
    {
    }
    if hit: nat :| At(folded, key, hit) && o == ToOccurrence(layouts[n], positions, n, |key|, byPage, hit) {
      assert MatchesLast(u, layouts, casefold, key, byPage, o, hit);
    }
  }

  ghost predicate MatchesLast(u: Unicode, layouts: seq<Layout>, casefold: bool, key: string, byPage: bool,
                              o: Occurrence, hit: nat)
    requires key != [] && layouts != []
  {
    var n := |layouts| - 1;
    && At(FoldText(u, casefold, layouts[n].text), key, hit)
    && o == ToOccurrence(layouts[n], FoldPositions(u, casefold, layouts[n].text), n, |key|, byPage, hit)
  }

  // ----- Choosing and widening

  function WidenLeft(u: Unicode, text: string, start: nat): (r: nat)
    requires start <= |text|
    ensures r <= start && (forall k :: r <= k < start ==> u.isAlnum(text[k]))
    ensures r > 0 ==> !u.isAlnum(text[r - 1])
  {
    if start > 0 && u.isAlnum(text[start - 1]) then WidenLeft(u, text, start - 1) else start
  }

  function WidenRight(u: Unicode, text: string, end: nat): (r: nat)
    requires end <= |text|
    ensures end <= r <= |text| && (forall k :: end <= k < r ==> u.isAlnum(text[k]))
    ensures r < |text| ==> !u.isAlnum(text[r])
    decreases |text| - end
  {
    if end < |text| && u.isAlnum(text[end]) then WidenRight(u, text, end + 1) else end
  }

  ghost predicate InBounds(layouts: seq<Layout>, os: seq<Occurrence>) {
    forall i :: 0 <= i < |os| ==> os[i].scope < |layouts| && os[i].start < os[i].end <= |layouts[os[i].scope].text|
  }

  /** One known location, or several for a passage long enough to count as repeated. */
  ghost predicate Supported(os: seq<Occurrence>, length: nat, repeatedMin: Option<int>) {
    && os != []
    && (forall i :: 0 <= i < |os| ==> os[i].anchor.Some?)
    && ((repeatedMin.Some? && length >= repeatedMin.value)
        || forall i :: 0 <= i < |os| ==> os[i].anchor == os[0].anchor)
  }

  ghost function Choose(u: Unicode, layouts: seq<Layout>, os: seq<Occurrence>, core: Core, length: nat,
                        repeatedMin: Option<int>): Option<(string, Anchor)>
    requires InBounds(layouts, os)
  {
    if !Supported(os, length, repeatedMin) then None
    else
      var text := layouts[os[0].scope].text;
      var a := if core.leading then WidenLeft(u, text, os[0].start) else os[0].start;
      var b := if core.trailing then WidenRight(u, text, os[0].end) else os[0].end;
      Some((text[a..b], os[0].anchor.value))
  }

  lemma OccurrencesInBounds(u: Unicode, layouts: seq<Layout>, casefold: bool, key: string, byPage: bool)
    requires key != []
    ensures InBounds(layouts, Occurrences(u, layouts, casefold, key, byPage))
  {
    hide FoldText, Occurrences;
    OccurrencesExact(u, layouts, casefold, key, byPage);
    var os := Occurrences(u, layouts, casefold, key, byPage);
    forall i | 0 <= i < |os|
      ensures os[i].scope < |layouts| && os[i].start < os[i].end <= |layouts[os[i].scope].text|
    {
      assert os[i] in os;
      var hit :| Matches(u, layouts, casefold, key, byPage, os[i], hit);
      PositionsAlign(u, casefold, layouts[os[i].scope].text, 0, FRESH);
    }
  }

  /** What is searched for: the quotation itself, or its core between omission marks. */
  function CoreOf(u: Unicode, quote: string, literal: bool): Option<Core> {
    if literal then Some(Core(Squash(u, quote), false, false)) else StripOmission(u, quote)
  }

  predicate Searchable(key: string, minChars: int, literal: bool) {
    key != [] && (literal || |key| >= minChars)
  }

  /** The answer under one folding, None when the key must not be searched. */
  ghost function Pass(u: Unicode, layouts: seq<Layout>, casefold: bool, core: Core, byPage: bool,
                      minChars: int, literal: bool, repeatedMin: Option<int>): Option<(string, Anchor)>
  {
    var key := FoldText(u, casefold, core.text);
    if !Searchable(key, minChars, literal) then None
    else
      OccurrencesInBounds(u, layouts, casefold, key, byPage);
      Choose(u, layouts, Occurrences(u, layouts, casefold, key, byPage), core, |key|, repeatedMin)
  }

  /** `_source_excerpt` in closed form: case is folded only when no exact-case hit exists. */
  ghost function Excerpt(u: Unicode, quote: string, layouts: seq<Layout>, byPage: bool,
                         minChars: int, literal: bool, repeatedMin: Option<int>): Option<(string, Anchor)>
  {
    var core := CoreOf(u, quote, literal);
    if core.None? then None
    else
      var casefold := CaseSetAside(u, layouts, core.value, byPage, minChars, literal);
      Pass(u, layouts, casefold, core.value, byPage, minChars, literal, repeatedMin)
  }

  ghost predicate CaseSetAside(u: Unicode, layouts: seq<Layout>, core: Core, byPage: bool, minChars: int, literal: bool) {
    var key := FoldText(u, false, core.text);
    Searchable(key, minChars, literal) && Occurrences(u, layouts, false, key, byPage) == []
  }

  // ----- The search as the program runs it

  datatype FoldedLayout = FoldedLayout(text: string, positions: seq<nat>)

  ghost predicate IndexOf(u: Unicode, layouts: seq<Layout>, casefold: bool, folded: seq<FoldedLayout>) {
    && |folded| == |layouts|
    && forall i :: 0 <= i < |layouts| ==>
         && folded[i].text == FoldText(u, casefold, layouts[i].text)
         && folded[i].positions == FoldPositions(u, casefold, layouts[i].text)
  }

  method FoldLayouts(u: Unicode, layouts: seq<Layout>, casefold: bool) returns (folded: seq<FoldedLayout>)
    ensures IndexOf(u, layouts, casefold, folded)
  {
    hide FoldText, FoldPositions;
    folded := [];
    for i := 0 to |layouts|
      invariant IndexOf(u, layouts[..i], casefold, folded)
    {
      var text, positions := FoldedIndex(u, layouts[i].text, casefold);
      folded := folded + [FoldedLayout(text, positions)];
    }
    assert layouts[..|layouts|] == layouts;
  }

  /** The inner search of one scope: from one past each hit, so overlapping ones count. */
  method CollectInLayout(layout: Layout, folded: string, positions: seq<nat>, scope: nat, key: string, byPage: bool)
    returns (os: seq<Occurrence>)
    requires key != [] && |folded| == |positions|
    ensures os == InLayout(layout, folded, positions, scope, key, byPage)
  {
    hide HitsFrom, Find, ToOccurrence, AllToOccurrences, HitsFit, InLayout, HitsBefore;
    NoOccurrences(layout, positions, scope, |key|, byPage);
    NoHitsBefore(folded, key);
    os := [];
    var found := Find(folded, key, 0);
    ghost var hits: seq<nat>, next: nat := [], 0;
    while found != -1
      invariant found == Find(folded, key, next)
      invariant HitsBefore(folded, key, hits, next)
      invariant HitsFit(hits, |key|, |positions|)
      invariant os == AllToOccurrences(layout, positions, scope, |key|, byPage, hits)
      decreases if found == -1 then -1 else |folded| - found
    {
      HitsNext(folded, key, hits, next);
      OneMoreOccurrence(layout, positions, scope, |key|, byPage, hits, found);
      hits, next := hits + [found], found + 1;
      os := os + [ToOccurrence(layout, positions, scope, |key|, byPage, found)];
      found := Find(folded, key, found + 1);
    }
    HitsNext(folded, key, hits, next);
    InLayoutOfHits(layout, folded, positions, scope, key, byPage);
  }

  /** These are the hits before the index from which the search goes on. */
  ghost predicate HitsBefore(text: string, key: string, hits: seq<nat>, next: nat)
    requires key != []
  {
    HitsFrom(text, key, 0) == hits + HitsFrom(text, key, next)
  }

  lemma NoHitsBefore(text: string, key: string)
    requires key != []
    ensures HitsBefore(text, key, [], 0)
  {
  }

  lemma HitsNext(text: string, key: string, hits: seq<nat>, next: nat)
    requires key != [] && HitsBefore(text, key, hits, next)
    ensures var p := Find(text, key, next);
            if p == -1 then HitsFrom(text, key, 0) == hits
            else next <= p && p + |key| <= |text| && HitsBefore(text, key, hits + [p], p + 1)
  {
    hide Find, HitsFrom;
    var p := Find(text, key, next);
    HitsUnfold(text, key, next);
    if p == -1 {
      assert hits + [] == hits;
    } else {
      assert hits + ([p] + HitsFrom(text, key, p + 1)) == hits + [p] + HitsFrom(text, key, p + 1);
    }
  }

  lemma HitsUnfold(text: string, key: string, next: nat)
    requires key != []
    ensures var p := Find(text, key, next);
            HitsFrom(text, key, next) == if p == -1 then [] else [p] + HitsFrom(text, key, p + 1)
  {
  }

  lemma InLayoutOfHits(layout: Layout, folded: string, positions: seq<nat>, scope: nat, key: string, byPage: bool)
    requires key != [] && |folded| == |positions|
    ensures HitsFit(HitsFrom(folded, key, 0), |key|, |positions|)
    ensures InLayout(layout, folded, positions, scope, key, byPage)
         == AllToOccurrences(layout, positions, scope, |key|, byPage, HitsFrom(folded, key, 0))
  {
    HitsExact(folded, key, 0);
    forall i | 0 <= i < |HitsFrom(folded, key, 0)|
      ensures HitsFrom(folded, key, 0)[i] + |key| <= |positions|
    {
      assert HitsFrom(folded, key, 0)[i] in HitsFrom(folded, key, 0);
    }
  }

  lemma NoOccurrences(layout: Layout, positions: seq<nat>, scope: nat, length: nat, byPage: bool)
    requires 0 < length
    ensures HitsFit([], length, |positions|)
    ensures AllToOccurrences(layout, positions, scope, length, byPage, []) == []
  {
  }

  lemma OneMoreOccurrence(layout: Layout, positions: seq<nat>, scope: nat, length: nat, byPage: bool,
                          hits: seq<nat>, hit: nat)
    requires 0 < length && HitsFit(hits, length, |positions|) && hit + length <= |positions|
    ensures HitsFit(hits + [hit], length, |positions|)
    ensures AllToOccurrences(layout, positions, scope, length, byPage, hits + [hit])
         == AllToOccurrences(layout, positions, scope, length, byPage, hits)
          + [ToOccurrence(layout, positions, scope, length, byPage, hit)]
  {
  }

  method CollectOccurrences(u: Unicode, layouts: seq<Layout>, folded: seq<FoldedLayout>, casefold: bool,
                            key: string, byPage: bool)
    returns (os: seq<Occurrence>)
    requires key != [] && IndexOf(u, layouts, casefold, folded)
    ensures os == Occurrences(u, layouts, casefold, key, byPage)
  {
    os := [];
    for n := 0 to |layouts|
      invariant os == Occurrences(u, layouts[..n], casefold, key, byPage)
    {
      assert layouts[..n + 1][..n] == layouts[..n];
      var more := CollectInLayout(layouts[n], folded[n].text, folded[n].positions, n, key, byPage);
      os := os + more;
    }
    assert layouts[..|layouts|] == layouts;
  }

  method SourceExcerpt(u: Unicode, quote: string, layouts: seq<Layout>, folded: bool -> seq<FoldedLayout>,
                       byPage: bool, minChars: int, literal: bool, repeatedMin: Option<int>)
    returns (r: Option<(string, Anchor)>)
    requires forall casefold :: IndexOf(u, layouts, casefold, folded(casefold))
    ensures r == Excerpt(u, quote, layouts, byPage, minChars, literal, repeatedMin)
  {
    var core := CoreOf(u, quote, literal);
    if core.None? {
      return None;
    }
    var casefold := false;
    var key := FoldText(u, false, core.value.text);
    if !Searchable(key, minChars, literal) {
      return None;
    }
    var os := CollectOccurrences(u, layouts, folded(false), false, key, byPage);
    if os == [] {
      casefold := true;
      key := FoldText(u, true, core.value.text);
      if !Searchable(key, minChars, literal) {
        return None;
      }
      os := CollectOccurrences(u, layouts, folded(true), true, key, byPage);
    }
    OccurrencesInBounds(u, layouts, casefold, key, byPage);
    r := SelectExcerpt(u, layouts, os, core.value, |key|, repeatedMin);
  }

  /** The decision after the search, and the widening. */
  method SelectExcerpt(u: Unicode, layouts: seq<Layout>, os: seq<Occurrence>, core: Core, length: nat,
                       repeatedMin: Option<int>)
    returns (r: Option<(string, Anchor)>)
    requires InBounds(layouts, os)
    ensures r == Choose(u, layouts, os, core, length, repeatedMin)
  {
    var locations := set i | 0 <= i < |os| :: os[i].anchor;
    var repeated := repeatedMin.Some? && length >= repeatedMin.value;
    SupportedBySet(os, locations, length, repeatedMin);
    if locations == {} || None in locations || (|locations| > 1 && !repeated) {
      return None;
    }
    var Occurrence(anchor, scope, start, end) := os[0];
    var text := layouts[scope].text;
    if core.leading {
      start := WidenLeft(u, text, start);
    }
    if core.trailing {
      end := WidenRight(u, text, end);
    }
    return Some((text[start..end], anchor.value));
  }

  lemma SupportedBySet(os: seq<Occurrence>, locations: set<Option<Anchor>>, length: nat, repeatedMin: Option<int>)
    requires locations == set i | 0 <= i < |os| :: os[i].anchor
    ensures Supported(os, length, repeatedMin) <==>
      && locations != {} && None !in locations
      && (|locations| <= 1 || (repeatedMin.Some? && length >= repeatedMin.value))
  {
    if os != [] {
      assert os[0].anchor in locations;
      if forall i :: 0 <= i < |os| ==> os[i].anchor == os[0].anchor {
        assert locations == {os[0].anchor};
      }
      if |locations| <= 1 {
        Quotes.OnlyMember(locations, os[0].anchor);
        assert forall i :: 0 <= i < |os| ==> os[i].anchor in locations;
      }
      assert (None !in locations) <==> forall i :: 0 <= i < |os| ==> os[i].anchor.Some?;
    }
  }

  // ----- What a stored excerpt is

  /** Where in the source an excerpt comes from, and under which folding it was found. */
  datatype Provenance = Provenance(casefold: bool, scope: nat, hit: nat, first: nat, last: nat, a: nat, b: nat)

  /** The folded core stands at index `hit` of the folded text, which leads back to [first, last). */
  ghost predicate IsHit(u: Unicode, text: string, core: Core, p: Provenance) {
    var key, positions := FoldText(u, p.casefold, core.text), FoldPositions(u, p.casefold, text);
    && key != [] && At(FoldText(u, p.casefold, text), key, p.hit)
    && p.first == positions[p.hit] && p.last == positions[p.hit + |key| - 1] + 1
  }

  /** The scope of the first of all occurrences. */
  ghost predicate InFirstScope(u: Unicode, layouts: seq<Layout>, casefold: bool, key: string, byPage: bool, scope: nat)
    requires key != []
  {
    var os := Occurrences(u, layouts, casefold, key, byPage);
    os != [] && os[0].scope == scope
  }

  /**
   * The excerpt is the slice [a, b) of one scope's text. It covers the match
   * [first, last), exceeds it only by whole letters or digits on a side
   * where an omission mark was set aside, and its anchor is the location of
   * the match.
   */
  ghost predicate Slices(u: Unicode, layouts: seq<Layout>, core: Core, byPage: bool,
                         p: Provenance, excerpt: string, anchor: Anchor)
  {
    && p.scope < |layouts|
    && var text := layouts[p.scope].text;
    && IsHit(u, text, core, p)
    && p.a <= p.first < p.last <= p.b <= |text|
    && excerpt == text[p.a..p.b]
    && !u.isSpace(text[p.first])
    && AnchorAt(p.first, layouts[p.scope].spans, byPage) == Some(anchor)
    && (forall k :: p.a <= k < p.first ==> u.isAlnum(text[k]))
    && (forall k :: p.last <= k < p.b ==> u.isAlnum(text[k]))
    && (!core.leading ==> p.a == p.first)
    && (core.leading && p.a > 0 ==> !u.isAlnum(text[p.a - 1]))
    && (!core.trailing ==> p.b == p.last)
    && (core.trailing && p.b < |text| ==> !u.isAlnum(text[p.b]))
  }

  /**
   * Excerpt soundness. Every stored excerpt is one contiguous slice of one
   * scope, and its own folding contains the folded core, unless that begins
   * with a space that could be a separator.
   */
  lemma ExcerptContainsCore(u: Unicode, quote: string, layouts: seq<Layout>, byPage: bool,
                            minChars: int, literal: bool, repeatedMin: Option<int>) returns (p: Provenance)
    requires Excerpt(u, quote, layouts, byPage, minChars, literal, repeatedMin).Some?
    ensures CoreOf(u, quote, literal).Some?
    ensures var core := CoreOf(u, quote, literal).value;
            var (excerpt, anchor) := Excerpt(u, quote, layouts, byPage, minChars, literal, repeatedMin).value;
            var key := FoldText(u, p.casefold, core.text);
            && p.casefold == CaseSetAside(u, layouts, core, byPage, minChars, literal)
            && Searchable(key, minChars, literal)
            && Slices(u, layouts, core, byPage, p, excerpt, anchor)
            && InFirstScope(u, layouts, p.casefold, key, byPage, p.scope)
            && Contains(FoldText(u, p.casefold, excerpt), key[1..])
            && (!BeginsSeparated(u, key) ==> Contains(FoldText(u, p.casefold, excerpt), key))
  {
    var core := CoreOf(u, quote, literal).value;
    var casefold := CaseSetAside(u, layouts, core, byPage, minChars, literal);
    hide Slices, FoldText, BeginsSeparated, Contains, CaseSetAside, InFirstScope;
    p := ChosenIsSlice(u, layouts, casefold, core, byPage, minChars, literal, repeatedMin);
    var (excerpt, anchor) := Excerpt(u, quote, layouts, byPage, minChars, literal, repeatedMin).value;
    SliceContainsKey(u, layouts, core, byPage, p, excerpt, anchor);
  }

  /** The excerpt chosen under one folding is a slice around its first match. */
  lemma ChosenIsSlice(u: Unicode, layouts: seq<Layout>, casefold: bool, core: Core, byPage: bool,
                      minChars: int, literal: bool, repeatedMin: Option<int>) returns (p: Provenance)
    requires Pass(u, layouts, casefold, core, byPage, minChars, literal, repeatedMin).Some?
    ensures p.casefold == casefold
    ensures var (excerpt, anchor) := Pass(u, layouts, casefold, core, byPage, minChars, literal, repeatedMin).value;
            && Slices(u, layouts, core, byPage, p, excerpt, anchor)
            && InFirstScope(u, layouts, casefold, FoldText(u, casefold, core.text), byPage, p.scope)
  {
    hide Occurrences, FoldText, FoldPositions, InLayout, AnchorAt, Matches;
    var key := FoldText(u, casefold, core.text);
    OccurrencesInBounds(u, layouts, casefold, key, byPage);
    OccurrencesExact(u, layouts, casefold, key, byPage);
    var os := Occurrences(u, layouts, casefold, key, byPage);
    var o := os[0];
    assert o in os;
    var hit :| Matches(u, layouts, casefold, key, byPage, o, hit);
    MatchFits(u, layouts, casefold, key, byPage, o, hit);
    var text := layouts[o.scope].text;
    var a := if core.leading then WidenLeft(u, text, o.start) else o.start;
    var b := if core.trailing then WidenRight(u, text, o.end) else o.end;
    p := Provenance(casefold, o.scope, hit, o.start, o.end, a, b);
  }

  lemma MatchFits(u: Unicode, layouts: seq<Layout>, casefold: bool, key: string, byPage: bool, o: Occurrence, hit: nat)
    requires key != [] && Matches(u, layouts, casefold, key, byPage, o, hit)
    ensures o.scope < |layouts|
    ensures var text, positions := layouts[o.scope].text, FoldPositions(u, casefold, layouts[o.scope].text);
            && At(FoldText(u, casefold, text), key, hit) && hit + |key| <= |positions|
            && o.start == positions[hit] && o.end == positions[hit + |key| - 1] + 1
            && o.start < o.end <= |text| && !u.isSpace(text[o.start])
            && o.anchor == AnchorAt(o.start, layouts[o.scope].spans, byPage)
  {
    hide FoldText, AnchorAt;
    PositionsAlign(u, casefold, layouts[o.scope].text, 0, FRESH);
  }

  lemma SliceContainsKey(u: Unicode, layouts: seq<Layout>, core: Core, byPage: bool, p: Provenance,
                         excerpt: string, anchor: Anchor)
    requires Slices(u, layouts, core, byPage, p, excerpt, anchor)
    ensures var key := FoldText(u, p.casefold, core.text);
            && key != [] && Contains(FoldText(u, p.casefold, excerpt), key[1..])
            && (!BeginsSeparated(u, key) ==> Contains(FoldText(u, p.casefold, excerpt), key))
  {
    hide FoldText, AnchorAt, BeginsSeparated, Contains;
    MatchSurvivesSlicing(u, p.casefold, layouts[p.scope].text, FoldText(u, p.casefold, core.text), p.hit, p.a, p.b);
  }

  /** A core whose first character has a folding: the folding of the core begins with it. */
  lemma FirstCharacterLeads(u: Unicode, casefold: bool, core: string)
    requires core != [] && !u.isSpace(core[0]) && u.fold(casefold, core[0]) != []
    ensures var f, key := u.fold(casefold, core[0]), FoldText(u, casefold, core);
            && f <= key
            && (f[0] != ' ' || |f| > 1 ==>
                  (BeginsSeparated(u, key) <==> f[0] == ' ' && u.isAlnum(f[1])))
  {
  }

  /** Every occurrence of the key has this anchor. */
  ghost predicate AllAt(u: Unicode, layouts: seq<Layout>, casefold: bool, key: string, byPage: bool, anchor: Option<Anchor>)
    requires key != []
  {
    forall o :: IsOccurrence(u, layouts, casefold, key, byPage, o) ==> o.anchor == anchor
  }

  /** The key occurs, and every occurrence has a location. */
  ghost predicate OccursLocated(u: Unicode, layouts: seq<Layout>, casefold: bool, key: string, byPage: bool)
    requires key != []
  {
    && (exists o :: IsOccurrence(u, layouts, casefold, key, byPage, o))
    && (forall o :: IsOccurrence(u, layouts, casefold, key, byPage, o) ==> o.anchor.Some?)
  }

  /**
   * Exactly when a proposal is stored: it has a core worth searching for,
   * the core occurs, every occurrence in every scope has a location, and
   * all these locations agree unless the passage is long enough to count
   * as repeated.
   */
  lemma StoredExactlyWhenLocated(u: Unicode, quote: string, layouts: seq<Layout>, byPage: bool,
                                 minChars: int, literal: bool, repeatedMin: Option<int>)
    requires CoreOf(u, quote, literal).Some?
    ensures var core := CoreOf(u, quote, literal).value;
            var casefold := CaseSetAside(u, layouts, core, byPage, minChars, literal);
            var key := FoldText(u, casefold, core.text);
            Excerpt(u, quote, layouts, byPage, minChars, literal, repeatedMin).Some? <==>
              && Searchable(key, minChars, literal)
              && OccursLocated(u, layouts, casefold, key, byPage)
              && ((repeatedMin.Some? && |key| >= repeatedMin.value)
                  || exists anchor :: AllAt(u, layouts, casefold, key, byPage, anchor))
  {
    var core := CoreOf(u, quote, literal).value;
    var casefold := CaseSetAside(u, layouts, core, byPage, minChars, literal);
    var key := FoldText(u, casefold, core.text);
    if Searchable(key, minChars, literal) {
      OccurrencesInBounds(u, layouts, casefold, key, byPage);
      SupportedByMatches(u, layouts, casefold, key, byPage, repeatedMin);
    }
  }

  lemma SupportedByMatches(u: Unicode, layouts: seq<Layout>, casefold: bool, key: string, byPage: bool,
                           repeatedMin: Option<int>)
    requires key != []
    ensures Supported(Occurrences(u, layouts, casefold, key, byPage), |key|, repeatedMin) <==>
      && OccursLocated(u, layouts, casefold, key, byPage)
      && ((repeatedMin.Some? && |key| >= repeatedMin.value)
          || exists anchor :: AllAt(u, layouts, casefold, key, byPage, anchor))
  {
    hide Occurrences, IsOccurrence, OccursLocated, AllAt;
    OccurrencesExact(u, layouts, casefold, key, byPage);
    var os := Occurrences(u, layouts, casefold, key, byPage);
    LocatedByList(u, layouts, casefold, key, byPage, os);
    if os != [] {
      AgreeByList(u, layouts, casefold, key, byPage, os);
    }
  }

  lemma LocatedByList(u: Unicode, layouts: seq<Layout>, casefold: bool, key: string, byPage: bool, os: seq<Occurrence>)
    requires key != []
    requires forall o :: o in os <==> IsOccurrence(u, layouts, casefold, key, byPage, o)
    ensures OccursLocated(u, layouts, casefold, key, byPage) <==>
      os != [] && forall i :: 0 <= i < |os| ==> os[i].anchor.Some?
  {
    assert forall i :: 0 <= i < |os| ==> os[i] in os;
    if os != [] {
      assert IsOccurrence(u, layouts, casefold, key, byPage, os[0]);
    }
  }

  lemma AgreeByList(u: Unicode, layouts: seq<Layout>, casefold: bool, key: string, byPage: bool, os: seq<Occurrence>)
    requires key != [] && os != []
    requires forall o :: o in os <==> IsOccurrence(u, layouts, casefold, key, byPage, o)
    ensures (exists anchor :: AllAt(u, layouts, casefold, key, byPage, anchor)) <==>
      forall i :: 0 <= i < |os| ==> os[i].anchor == os[0].anchor
  {
    assert forall i :: 0 <= i < |os| ==> os[i] in os;
    if forall i :: 0 <= i < |os| ==> os[i].anchor == os[0].anchor {
      assert AllAt(u, layouts, casefold, key, byPage, os[0].anchor);
    }
  }

  // ----- Whole verdicts

  /** A copy of the source's own characters, spacing aside. */
  ghost predicate Verbatim(u: Unicode, scopes: seq<Quotes.Scope>, quote: string) {
    Squash(u, quote) != [] && Quotes.Occurs(Quotes.Layouts(u, scopes, true), Squash(u, quote))
  }

  /** What one proposal resolves to; only a verbatim copy may stand for a repeated passage. */
  ghost function Resolved(u: Unicode, quote: string, scopes: seq<Quotes.Scope>, byPage: bool,
                          minChars: int, repeatedMin: int): Option<(string, Anchor)>
  {
    var verbatim := Verbatim(u, scopes, quote);
    Excerpt(u, quote, Quotes.Layouts(u, scopes, true), byPage, minChars,
            Quotes.Located(u, scopes, byPage, quote) || verbatim,
            if verbatim then Some(repeatedMin) else None)
  }

  /** `_resolve_source_excerpts`: every proposal resolved on its own, or nothing. */
  method ResolveSourceExcerpts(u: Unicode, quotes: seq<string>, scopes: seq<Quotes.Scope>, byPage: bool,
                               minChars: int, repeatedMin: int)
    returns (r: Option<(seq<string>, seq<Anchor>)>)
    ensures r.Some? <==>
      forall i :: 0 <= i < |quotes| ==> Resolved(u, quotes[i], scopes, byPage, minChars, repeatedMin).Some?
    ensures r.Some? ==>
      && |r.value.0| == |r.value.1| == |quotes|
      && forall i :: 0 <= i < |quotes| ==>
           Resolved(u, quotes[i], scopes, byPage, minChars, repeatedMin) == Some((r.value.0[i], r.value.1[i]))
  {
    hide Quotes.Located, Excerpt, Quotes.Layouts, IndexOf;
    var layouts := Quotes.BuildLayouts(u, scopes, true);
    var exact := FoldLayouts(u, layouts, false);
    var loose := FoldLayouts(u, layouts, true);
    var texts: seq<string>, anchors: seq<Anchor> := [], [];
    for n := 0 to |quotes|
      invariant |texts| == |anchors| == n
      invariant forall i :: 0 <= i < n ==>
        Resolved(u, quotes[i], scopes, byPage, minChars, repeatedMin) == Some((texts[i], anchors[i]))
    {
      var verified := Quotes.VerifyQuotes(u, [quotes[n]], scopes, byPage);
      assert [quotes[n]][0] == quotes[n];
      var normalized := Squash(u, quotes[n]);
      var occurs := Quotes.AnyHas(layouts, normalized);
      var verbatim := normalized != [] && occurs;
      var excerpt := SourceExcerpt(u, quotes[n], layouts, casefold => if casefold then loose else exact,
                                   byPage, minChars, verified.Some? || verbatim,
                                   if verbatim then Some(repeatedMin) else None);
      assert excerpt == Resolved(u, quotes[n], scopes, byPage, minChars, repeatedMin);
      if excerpt.None? {
        return None;
      }
      texts, anchors := texts + [excerpt.value.0], anchors + [excerpt.value.1];
    }
    return Some((texts, anchors));
  }

  /**
   * End to end: the stored words are a slice of one scope's joined text, and
   * the stored location is the location of the block in which the matched
   * words begin.
   */
  lemma ResolvedWordsAreSourceWords(u: Unicode, quote: string, scopes: seq<Quotes.Scope>, byPage: bool,
                                    minChars: int, repeatedMin: int) returns (p: Provenance, n: nat)
    requires Faithful(u)
    requires Resolved(u, quote, scopes, byPage, minChars, repeatedMin).Some?
    ensures var (excerpt, anchor) := Resolved(u, quote, scopes, byPage, minChars, repeatedMin).value;
            && p.scope < |scopes|
            && var layout := LayoutOf(u, scopes[p.scope], true);
            && p.a <= p.first < p.b <= |layout.text| && excerpt == layout.text[p.a..p.b]
            && n < |layout.spans| && layout.spans[n].start <= p.first < layout.spans[n].end
            && layout.spans[n].block in scopes[p.scope]
            && BlockAnchor(layout.spans[n].block, byPage) == Some(anchor)
  {
    hide Excerpt, CoreOf, FoldText, Contains;
    var layouts := Quotes.Layouts(u, scopes, true);
    var verbatim := Verbatim(u, scopes, quote);
    var literal := Quotes.Located(u, scopes, byPage, quote) || verbatim;
    p := ExcerptContainsCore(u, quote, layouts, byPage, minChars, literal, if verbatim then Some(repeatedMin) else None);
    var layout := LayoutOf(u, scopes[p.scope], true);
    LayoutIsTiled(u, scopes[p.scope], true);
    n := InkHasOneBlock(u, layout, true, byPage, p.first);
    Quotes.PrintedIsSource(u, scopes[p.scope], true);
  }

  // ----- A leading space can be lost

  /** Two real characters: U+037A folds to a space and a mark, or a space and an iota. */
  const YPOGEGRAMMENI: char := '\U{037A}'
  const IOTA: char := '\U{03B9}'
  const COMBINING_IOTA: char := '\U{0345}'

  const GREEK := Unicode(
    c => c == ' ',
    c => c != ' ' && c != '.' && c != ELLIPSIS && c != YPOGEGRAMMENI && c != COMBINING_IOTA,
    (s: string) => s,
    (casefold, c) =>
      if c != YPOGEGRAMMENI then [c] else if casefold then [' ', IOTA] else [' ', COMBINING_IOTA])

  /**
   * Without the condition on the first character the claim is false: the
   * proposal U+037A matches the space and the iota of "a" + space + iota,
   * and the stored excerpt is the iota alone.
   */
  lemma LeadingSpaceCanBeLost()
    ensures var layouts := [Layout(['a', ' ', IOTA], [Span(0, 3, Block(['a', ' ', IOTA], Some(1), None))])];
            var key := FoldText(GREEK, true, [YPOGEGRAMMENI]);
            && CoreOf(GREEK, [YPOGEGRAMMENI], false) == Some(Core([YPOGEGRAMMENI], false, false))
            && Excerpt(GREEK, [YPOGEGRAMMENI], layouts, true, 1, false, None) == Some(([IOTA], Page(1)))
            && key == [' ', IOTA] && !Contains(FoldText(GREEK, true, [IOTA]), key)
  {
    hide FoldText, Occurrences, StripOmission, IsOccurrence, InBounds, WidenLeft, WidenRight;
    var text := ['a', ' ', IOTA];
    var layouts := [Layout(text, [Span(0, 3, Block(text, Some(1), None))])];
    var core := Core([YPOGEGRAMMENI], false, false);
    NothingToStrip();
    FoldSingle(YPOGEGRAMMENI, true);
    FoldSingle(YPOGEGRAMMENI, false);
    FoldSingle(IOTA, true);
    NoExactHit(layouts);
    OneFoldedHit(layouts);
    OccurrencesInBounds(GREEK, layouts, true, [' ', IOTA], true);
    assert text[2..3] == [IOTA];
  }

  lemma NoExactHit(layouts: seq<Layout>)
    requires |layouts| == 1 && layouts[0].text == ['a', ' ', IOTA]
    ensures Occurrences(GREEK, layouts, false, [' ', COMBINING_IOTA], true) == []
  {
    hide FoldText, Occurrences;
    var lost := [' ', COMBINING_IOTA];
    FoldsToItself(false);
    OccurrencesExact(GREEK, layouts, false, lost, true);
    var text := layouts[0].text;
    forall hit: nat
      ensures !At(text, lost, hit)
    {
      if hit + 2 <= |text| {
        assert text[hit..hit + 2][1] == text[hit + 1] != lost[1];
      }
    }
    HasMember(Occurrences(GREEK, layouts, false, lost, true));
  }

  lemma HasMember<T>(s: seq<T>)
    ensures s == [] || exists x :: x in s
  {
    if s != [] {
      assert s[0] in s;
    }
  }

  lemma OneFoldedHit(layouts: seq<Layout>)
    requires layouts == [Layout(['a', ' ', IOTA], [Span(0, 3, Block(['a', ' ', IOTA], Some(1), None))])]
    ensures var os := Occurrences(GREEK, layouts, true, [' ', IOTA], true);
            os != [] && forall i :: 0 <= i < |os| ==> os[i] == Occurrence(Some(Page(1)), 0, 2, 3)
  {
    hide FoldText, Occurrences;
    var text, key := layouts[0].text, [' ', IOTA];
    FoldsToItself(true);
    OccurrencesExact(GREEK, layouts, true, key, true);
    var o := Occurrence(Some(Page(1)), 0, 2, 3);
    assert text[1..3] == key;
    assert Matches(GREEK, layouts, true, key, true, o, 1);
    var os := Occurrences(GREEK, layouts, true, key, true);
    assert o in os;
    forall i | 0 <= i < |os|
      ensures os[i] == o
    {
      assert os[i] in os;
      var hit: nat :| Matches(GREEK, layouts, true, key, true, os[i], hit);
      assert text[hit..hit + 2][0] == text[hit];
    }
  }

  lemma NothingToStrip()
    ensures StripOmission(GREEK, [YPOGEGRAMMENI]) == Some(Core([YPOGEGRAMMENI], false, false))
  {
    var s := [YPOGEGRAMMENI];
    assert s[1..] == [];
    assert Collapse(GREEK, s[1..]) == [];
    assert Collapse(GREEK, s) == s;
    assert Strip(GREEK, s) == s;
    assert MarkEnd(GREEK, s, 0) == None && MarkEnd(GREEK, s, 1) == None;
    assert TrailingStart(GREEK, s, 1) == None;
    assert s[0..1] == s;
  }

  lemma FoldsToItself(casefold: bool)
    ensures FoldText(GREEK, casefold, ['a', ' ', IOTA]) == ['a', ' ', IOTA]
    ensures FoldPositions(GREEK, casefold, ['a', ' ', IOTA]) == [0, 2, 2]
  {
    var st := State(false, true);
    assert ['a', ' ', IOTA][1..] == [' ', IOTA] && [' ', IOTA][1..] == [IOTA] && [IOTA][1..] == [];
    assert Chars(GREEK, casefold, [IOTA], State(true, true)) == [' ', IOTA];
    assert Chars(GREEK, casefold, [' ', IOTA], st) == [' ', IOTA];
    assert Positions(GREEK, casefold, [IOTA], 2, State(true, true)) == [2, 2] by {
      assert Repeat(2, 2) == [2, 2];
    }
    assert Positions(GREEK, casefold, [' ', IOTA], 1, st) == [2, 2];
    assert Repeat(1, 0) == [0];
  }

  lemma FoldSingle(c: char, casefold: bool)
    requires c != ' '
    ensures FoldText(GREEK, casefold, [c]) == GREEK.fold(casefold, c)
  {
    assert Chars(GREEK, casefold, [], Next(GREEK, casefold, c, FRESH)) == [];
    assert [c][1..] == [];
  }
}
