/**
 * Which proposals the program can store without their front, over all
 * manuscripts: `literal` and the repeated-passage rule as the program itself
 * sets them from the manuscript (backend/app/checks/semantic.py, lines
 * 366-403 and 412-560).
 */
module Fronts {
  import opened Wrappers
  import opened SourceText
  import opened Folding
  import opened Excerpts
  import opened Containment
  import Quotes

  /** What the program stores for the proposal, if anything, folds to something that contains the folded core. */
  ghost predicate ProgramKeeps(u: Unicode, quote: string, scopes: seq<Quotes.Scope>, byPage: bool, minChars: int, repeatedMin: int) {
    var verbatim := Verbatim(u, scopes, quote);
    KeepsCore(u, quote, Quotes.Layouts(u, scopes, true), byPage, minChars,
              Quotes.Located(u, scopes, byPage, quote) || verbatim, if verbatim then Some(repeatedMin) else None)
  }

  /** No scope's exactly folded text has the exact key of the whole proposal. */
  ghost predicate Unmatched(u: Unicode, scopes: seq<Quotes.Scope>, quote: string) {
    forall i :: 0 <= i < |scopes| ==>
      !Contains(FoldText(u, false, LayoutOf(u, scopes[i], true).text), FoldText(u, false, Squash(u, quote)))
  }

  /** Some manuscript has the proposal at one place, but in another case only. */
  ghost predicate Respelled(u: Unicode, quote: string, byPage: bool) {
    exists scopes :: Quotes.Located(u, scopes, byPage, quote) && Unmatched(u, scopes, quote)
  }

  /**
   * A key that the program may search for begins like a separator: the exact
   * key of the whole proposal, its case-folded key if it can be located in
   * another case, or a key of its core if that is long enough.
   */
  ghost predicate CanLose(u: Unicode, quote: string, byPage: bool, minChars: int) {
    var whole, core := Squash(u, quote), StripOmission(u, quote);
    || BeginsSeparated(u, FoldText(u, false, whole))
    || (BeginsSeparated(u, FoldText(u, true, whole)) && Respelled(u, quote, byPage))
    || (core.Some? && Separable(u, core.value.text, minChars, false))
  }

  /** What is used of omission marks: they are no letters, case does not touch them, and no spaced folding has one. */
  ghost predicate RealMarks(u: Unicode) {
    && !u.isAlnum('.') && !u.isAlnum(ELLIPSIS)
    && (forall s :: HasMark(u, u.lower(s)) <==> HasMark(u, s))
    && (forall casefold, c :: SpacedFolding(u, casefold, c) ==>
          c != '.' && c != ELLIPSIS && '.' !in u.fold(casefold, c) && ELLIPSIS !in u.fold(casefold, c))
  }

  // ----- A verbatim proposal is matched in the exact-case pass

  lemma InsideMatches(u: Unicode, casefold: bool, text: string, part: string)
    requires Contains(text, part)
    ensures Contains(FoldText(u, casefold, text), FoldText(u, casefold, part))
  {
    hide FoldText;
    var i :| At(text, part, i);
    var before, sep, after := MiddleFolds(u, casefold, text[..i], part, text[i + |part|..]);
    assert text == text[..i] + (part + text[i + |part|..]);
    InTheMiddle(before, sep, FoldText(u, casefold, part), after);
  }

  lemma InTheMiddle(before: string, sep: string, middle: string, after: string)
    ensures Contains(before + (sep + middle) + after, middle)
  {
    assert At(before + (sep + middle) + after, middle, |before| + |sep|);
  }

  lemma VerbatimIsMatched(u: Unicode, scopes: seq<Quotes.Scope>, quote: string)
    requires Verbatim(u, scopes, quote)
    ensures !Unmatched(u, scopes, quote)
  {
    hide FoldText, Contains, Squash;
    var layouts := Quotes.Layouts(u, scopes, true);
    var i :| 0 <= i < |layouts| && Contains(layouts[i].text, Squash(u, quote));
    InsideMatches(u, false, layouts[i].text, Squash(u, quote));
  }

  lemma UnmatchedMeansNoOccurrence(u: Unicode, scopes: seq<Quotes.Scope>, quote: string, byPage: bool)
    requires FoldText(u, false, Squash(u, quote)) != []
    ensures Unmatched(u, scopes, quote)
       <==> Occurrences(u, Quotes.Layouts(u, scopes, true), false, FoldText(u, false, Squash(u, quote)), byPage) == []
  {
    hide FoldText, FoldPositions, Squash, Occurrences;
    var layouts, key := Quotes.Layouts(u, scopes, true), FoldText(u, false, Squash(u, quote));
    OccurrencesExact(u, layouts, false, key, byPage);
    var os := Occurrences(u, layouts, false, key, byPage);
    if os != [] {
      assert os[0] in os;
      var hit :| Matches(u, layouts, false, key, byPage, os[0], hit);
      assert Contains(FoldText(u, false, LayoutOf(u, scopes[os[0].scope], true).text), key);
    }
    if !Unmatched(u, scopes, quote) {
      var i :| 0 <= i < |scopes| && Contains(FoldText(u, false, LayoutOf(u, scopes[i], true).text), key);
      var hit: nat :| At(FoldText(u, false, layouts[i].text), key, hit);
      var o := ToOccurrence(layouts[i], FoldPositions(u, false, layouts[i].text), i, |key|, byPage, hit);
      assert Matches(u, layouts, false, key, byPage, o, hit);
      assert IsOccurrence(u, layouts, false, key, byPage, o);
    }
  }

  // ----- What the program keeps

  lemma ProgramKeepsOthers(u: Unicode, quote: string, scopes: seq<Quotes.Scope>, byPage: bool, minChars: int, repeatedMin: int)
    requires !CanLose(u, quote, byPage, minChars)
    ensures ProgramKeeps(u, quote, scopes, byPage, minChars, repeatedMin)
  {
    hide FoldText, BeginsSeparated, Occurrences, Slices, InFirstScope, Verbatim, Unmatched, Quotes.Located, Excerpt, Squash, StripOmission, Contains;
    var layouts, verbatim := Quotes.Layouts(u, scopes, true), Verbatim(u, scopes, quote);
    var repeated := if verbatim then Some(repeatedMin) else None;
    if Quotes.Located(u, scopes, byPage, quote) || verbatim {
      if Excerpt(u, quote, layouts, byPage, minChars, true, repeated).Some? {
        var p := ExcerptContainsCore(u, quote, layouts, byPage, minChars, true, repeated);
        if p.casefold {
          UnmatchedMeansNoOccurrence(u, scopes, quote, byPage);
          if verbatim {
            VerbatimIsMatched(u, scopes, quote);
          }
          assert Respelled(u, quote, byPage);
        }
      }
    } else if StripOmission(u, quote).Some? {
      InseparableIsKept(u, quote, layouts, byPage, minChars, false, repeated);
    }
  }

  // ----- Manuscripts whose blocks are all at one place

  ghost predicate AtOnePlace(scopes: seq<Quotes.Scope>) {
    forall i, b :: 0 <= i < |scopes| && b in scopes[i] ==> b.page == Some(1) && b.paragraph == Some(1)
  }

  lemma OnePlaceAnchor(u: Unicode, scopes: seq<Quotes.Scope>, preserveCase: bool, byPage: bool, i: nat, pos: nat)
    requires AtOnePlace(scopes) && i < |scopes|
    requires var text := LayoutOf(u, scopes[i], preserveCase).text; pos < |text| && text[pos] != ' '
    ensures AnchorAt(pos, LayoutOf(u, scopes[i], preserveCase).spans, byPage) == Some(KnownAnchor(byPage))
  {
    hide LayoutOf, Printed, AnchorAt, Tiled;
    LayoutIsTiled(u, scopes[i], preserveCase);
    var n := InkHasOneBlock(u, LayoutOf(u, scopes[i], preserveCase), preserveCase, byPage, pos);
    Quotes.PrintedIsSource(u, scopes[i], preserveCase);
  }

  lemma AllAtOnePlace(u: Unicode, scopes: seq<Quotes.Scope>, casefold: bool, key: string, byPage: bool)
    requires Faithful(u) && AtOnePlace(scopes) && key != []
    ensures AllAt(u, Quotes.Layouts(u, scopes, true), casefold, key, byPage, Some(KnownAnchor(byPage)))
  {
    hide FoldText, FoldPositions, Matches, AtOnePlace, LayoutOf, AnchorAt;
    var layouts := Quotes.Layouts(u, scopes, true);
    forall o | IsOccurrence(u, layouts, casefold, key, byPage, o)
      ensures o.anchor == Some(KnownAnchor(byPage))
    {
      var hit :| Matches(u, layouts, casefold, key, byPage, o, hit);
      MatchFits(u, layouts, casefold, key, byPage, o, hit);
      OnePlaceAnchor(u, scopes, true, byPage, o.scope, o.start);
    }
  }

  /** The same blocks, all moved to page 1 and paragraph 1. */
  function Moved(blocks: seq<Block>): seq<Block> {
    if blocks == [] then []
    else Moved(blocks[..|blocks| - 1]) + [Block(blocks[|blocks| - 1].text, Some(1), Some(1))]
  }

  lemma {:induction false} MovedKeepsText(u: Unicode, blocks: seq<Block>, preserveCase: bool)
    ensures var a, b := LayoutOf(u, blocks, preserveCase), LayoutOf(u, Moved(blocks), preserveCase);
            a.text == b.text && |a.spans| == |b.spans|
    ensures forall b :: b in Moved(blocks) ==> b.page == Some(1) && b.paragraph == Some(1)
  {
    if blocks != [] {
      var n := |blocks| - 1;
      MovedKeepsText(u, blocks[..n], preserveCase);
      assert Moved(blocks)[..|Moved(blocks)| - 1] == Moved(blocks[..n]);
    }
  }

  function AllMoved(scopes: seq<Quotes.Scope>): (r: seq<Quotes.Scope>)
    ensures |r| == |scopes| && forall i :: 0 <= i < |scopes| ==> r[i] == Moved(scopes[i])
  {
    seq(|scopes|, i requires 0 <= i < |scopes| => Moved(scopes[i]))
  }

  // ----- Verbatim: the trap before the proposal itself

  function WithTrap(text: string, scopes: seq<Quotes.Scope>): seq<Quotes.Scope> {
    TrapScopes(text) + scopes
  }

  lemma TrapComesFirst(u: Unicode, text: string, scopes: seq<Quotes.Scope>, preserveCase: bool)
    ensures var layouts := Quotes.Layouts(u, WithTrap(text, scopes), preserveCase);
            && |layouts| == |scopes| + 1
            && layouts[0] == Quotes.Layouts(u, TrapScopes(text), preserveCase)[0]
            && forall i :: 0 <= i < |scopes| ==> layouts[i + 1] == LayoutOf(u, scopes[i], preserveCase)
  {
    hide LayoutOf;
  }

  lemma WithTrapAtOnePlace(text: string, scopes: seq<Quotes.Scope>)
    requires AtOnePlace(scopes)
    ensures AtOnePlace(WithTrap(text, scopes))
  {
    forall i, b | 0 <= i < |WithTrap(text, scopes)| && b in WithTrap(text, scopes)[i]
      ensures b.page == Some(1) && b.paragraph == Some(1)
    {
      if i > 0 {
        assert WithTrap(text, scopes)[i] == scopes[i - 1];
      }
    }
  }

  /** The whole proposal, when nothing is set aside. */
  lemma WholeIsNeat(u: Unicode, quote: string)
    requires Faithful(u) && Squash(u, quote) != []
    ensures var q := Squash(u, quote); SinglySpaced(u, q) && Trimmed(u, q) && !u.isSpace(q[0])
    ensures CoreOf(u, quote, true) == Some(Core(Squash(u, quote), false, false))
  {
    SquashSpacesSingly(u, quote);
  }

  /** A proposal whose exact key begins like a separator loses its front where it stands verbatim. */
  lemma VerbatimLoses(u: Unicode, quote: string, x: char, byPage: bool, minChars: int, repeatedMin: int)
    returns (scopes: seq<Quotes.Scope>)
    requires Faithful(u) && RealFoldings(u) && PlainLetter(u, x) && Fragile(u, false, Squash(u, quote))
    ensures Verbatim(u, scopes, quote) && !ProgramKeeps(u, quote, scopes, byPage, minChars, repeatedMin)
  {
    hide FoldText, Squash, CoreOf, Trap, Occurrences, Excerpt, Faithful, RealFoldings, AllAt, LayoutOf, InFirstScope;
    var q := Squash(u, quote);
    var text, key := Trap(u, false, q, x), FoldText(u, false, q);
    scopes := WithTrap(text, TrapScopes(q));
    var layouts := Quotes.Layouts(u, scopes, true);
    WholeIsNeat(u, quote);
    TrapIsLaidOut(u, false, q, x);
    SquashKeeps(u, q);
    OneBlock(u, q);
    TrapComesFirst(u, text, TrapScopes(q), true);
    assert Quotes.Layouts(u, TrapScopes(q), true)[0] == LayoutOf(u, TrapScopes(q)[0], true);
    assert layouts[1].text == q;
    assert At(layouts[1].text, q, 0);
    assert Quotes.Occurs(layouts, q);
    assert Verbatim(u, scopes, quote);
    TrapFolds(u, false, q, x);
    assert At([x] + key, key, 1);
    FirstScopeComesFirst(u, layouts, false, key, byPage, 1);
    assert !CaseSetAside(u, layouts, Core(q, false, false), byPage, minChars, true) by {
      SomethingFirst(u, layouts, false, key, byPage);
    }
    WithTrapAtOnePlace(text, TrapScopes(q));
    AllAtOnePlace(u, scopes, false, key, byPage);
    TrapLoses(u, quote, false, x, layouts, byPage, minChars, true, Some(repeatedMin));
  }

  lemma SomethingFirst(u: Unicode, layouts: seq<Layout>, casefold: bool, key: string, byPage: bool)
    requires key != [] && InFirstScope(u, layouts, casefold, key, byPage, 0)
    ensures Occurrences(u, layouts, casefold, key, byPage) != []
  {
  }

  // ----- Located in another case: the trap before the moved manuscript

  /** The trap for the case-folded key does not spoil where the proposal is found in another case. */
  lemma StillLocated(u: Unicode, quote: string, scopes: seq<Quotes.Scope>, text: string, byPage: bool)
    requires Faithful(u) && Quotes.Located(u, scopes, byPage, quote)
    requires !Verbatim(u, scopes, quote) && !Verbatim(u, WithTrap(text, AllMoved(scopes)), quote)
    ensures Quotes.Located(u, WithTrap(text, AllMoved(scopes)), byPage, quote)
  {
    hide Squash, LayoutOf, Faithful, Contains, AnchorAt, Verbatim, AtOnePlace;
    var moved := WithTrap(text, AllMoved(scopes));
    var i, pos := LocatedSomewhere(u, scopes, byPage, quote);
    SearchedInAnyCase(u, scopes, quote);
    SearchedInAnyCase(u, moved, quote);
    TrapComesFirst(u, text, AllMoved(scopes), false);
    MovedKeepsText(u, scopes[i], false);
    MovedAtOnePlace(u, scopes);
    WithTrapAtOnePlace(text, AllMoved(scopes));
    LocatedAtOnePlace(u, moved, false, byPage, quote, i + 1, pos);
  }

  lemma LocatedSomewhere(u: Unicode, scopes: seq<Quotes.Scope>, byPage: bool, quote: string) returns (i: nat, pos: nat)
    requires Quotes.Located(u, scopes, byPage, quote)
    ensures Squash(u, quote) != []
    ensures var (layouts, key) := Quotes.Searched(u, scopes, quote);
            i < |layouts| == |scopes| && At(layouts[i].text, key, pos) && Contains(layouts[i].text, key)
  {
    hide Squash, LayoutOf, AnchorAt;
    var a :| Quotes.LocatedAt(u, scopes, byPage, quote, a);
    var (layouts, key) := Quotes.Searched(u, scopes, quote);
    var n, at :| Quotes.HitAt(layouts, key, byPage, Some(a), n, at);
    i, pos := n, at;
  }

  lemma SearchedInAnyCase(u: Unicode, scopes: seq<Quotes.Scope>, quote: string)
    requires Squash(u, quote) != [] && !Verbatim(u, scopes, quote)
    ensures Quotes.Searched(u, scopes, quote) == (Quotes.Layouts(u, scopes, false), u.lower(Squash(u, quote)))
  {
    hide Squash, Quotes.Occurs;
  }

  /** With all blocks at one place, a proposal that is found is located. */
  lemma LocatedAtOnePlace(u: Unicode, scopes: seq<Quotes.Scope>, preserveCase: bool, byPage: bool, quote: string, i: nat, pos: nat)
    requires Faithful(u) && AtOnePlace(scopes) && Squash(u, quote) != [] && i < |scopes|
    requires Quotes.Searched(u, scopes, quote).0 == Quotes.Layouts(u, scopes, preserveCase)
    requires At(LayoutOf(u, scopes[i], preserveCase).text, Quotes.Searched(u, scopes, quote).1, pos)
    ensures Quotes.Located(u, scopes, byPage, quote)
  {
    hide Squash, LayoutOf, Faithful, AnchorAt, AtOnePlace, Quotes.Searched;
    var (layouts, key) := Quotes.Searched(u, scopes, quote);
    var place := KnownAnchor(byPage);
    Quotes.KeyBeginsWithInk(u, scopes, quote);
    forall n: nat, at: nat | n < |layouts| && At(layouts[n].text, key, at)
      ensures AnchorAt(at, layouts[n].spans, byPage) == Some(place)
    {
      assert layouts[n].text[at..at + |key|][0] == layouts[n].text[at];
      OnePlaceAnchor(u, scopes, preserveCase, byPage, n, at);
    }
    assert Quotes.HitAt(layouts, key, byPage, Some(place), i, pos);
    assert Quotes.LocatedAt(u, scopes, byPage, quote, place);
  }

  lemma MovedAtOnePlace(u: Unicode, scopes: seq<Quotes.Scope>)
    ensures AtOnePlace(AllMoved(scopes))
  {
    forall i, b | 0 <= i < |scopes| && b in AllMoved(scopes)[i]
      ensures b.page == Some(1) && b.paragraph == Some(1)
    {
      MovedKeepsText(u, scopes[i], true);
    }
  }

  lemma StillUnmatched(u: Unicode, quote: string, scopes: seq<Quotes.Scope>, x: char)
    requires Faithful(u) && RealFoldings(u) && PlainLetter(u, x) && Squash(u, quote) != []
    requires Fragile(u, true, Squash(u, quote)) && !Fragile(u, false, Squash(u, quote)) && Unmatched(u, scopes, quote)
    ensures Unmatched(u, WithTrap(Trap(u, true, Squash(u, quote), x), AllMoved(scopes)), quote)
  {
    hide FoldText, Squash, Trap, LayoutOf, RealFoldings, Faithful;
    var q := Squash(u, quote);
    var text := Trap(u, true, q, x);
    var moved := WithTrap(text, AllMoved(scopes));
    forall i | 0 <= i < |moved|
      ensures !Contains(FoldText(u, false, LayoutOf(u, moved[i], true).text), FoldText(u, false, q))
    {
      if i == 0 {
        WholeIsNeat(u, quote);
        LooseTrapIsLaidOut(u, q, x);
        forall hit ensures !At(FoldText(u, false, text), FoldText(u, false, q), hit) {
          ExactMisses(u, q, x, hit);
        }
      } else {
        assert moved[i] == Moved(scopes[i - 1]);
        MovedKeepsText(u, scopes[i - 1], true);
      }
    }
  }

  lemma LooseTrapIsLaidOut(u: Unicode, q: string, x: char)
    requires Faithful(u) && RealFoldings(u) && PlainLetter(u, x) && Fragile(u, true, q)
    requires SinglySpaced(u, q) && Trimmed(u, q)
    ensures LayoutOf(u, TrapScopes(Trap(u, true, q, x))[0], true).text == Trap(u, true, q, x)
  {
    hide Trap, LayoutOf;
    TrapIsLaidOut(u, true, q, x);
    var text := Trap(u, true, q, x);
    assert Quotes.Layouts(u, TrapScopes(text), true)[0] == LayoutOf(u, TrapScopes(text)[0], true);
  }

  lemma RespelledLoses(u: Unicode, quote: string, x: char, byPage: bool, minChars: int, repeatedMin: int)
    returns (scopes: seq<Quotes.Scope>)
    requires Faithful(u) && RealFoldings(u) && PlainLetter(u, x) && Squash(u, quote) != []
    requires Fragile(u, true, Squash(u, quote)) && !Fragile(u, false, Squash(u, quote)) && Respelled(u, quote, byPage)
    ensures !ProgramKeeps(u, quote, scopes, byPage, minChars, repeatedMin)
  {
    hide FoldText, Squash, CoreOf, Trap, Occurrences, Excerpt, Faithful, RealFoldings, AllAt, LayoutOf, Unmatched, Verbatim, Quotes.Located;
    var q := Squash(u, quote);
    var text, key := Trap(u, true, q, x), FoldText(u, true, q);
    var found :| Quotes.Located(u, found, byPage, quote) && Unmatched(u, found, quote);
    scopes := WithTrap(text, AllMoved(found));
    var layouts := Quotes.Layouts(u, scopes, true);
    WholeIsNeat(u, quote);
    LooseTrapIsLaidOut(u, q, x);
    TrapComesFirst(u, text, AllMoved(found), true);
    StillUnmatched(u, quote, found, x);
    NotVerbatim(u, found, quote);
    NotVerbatim(u, scopes, quote);
    StillLocated(u, quote, found, text, byPage);
    KeysAreNotEmpty(u, q);
    UnmatchedMeansNoOccurrence(u, scopes, quote, byPage);
    MovedAtOnePlace(u, found);
    WithTrapAtOnePlace(text, AllMoved(found));
    AllAtOnePlace(u, scopes, true, key, byPage);
    assert CaseSetAside(u, layouts, Core(q, false, false), byPage, minChars, true);
    TrapLoses(u, quote, true, x, layouts, byPage, minChars, true, None);
  }

  lemma NotVerbatim(u: Unicode, scopes: seq<Quotes.Scope>, quote: string)
    requires Unmatched(u, scopes, quote)
    ensures !Verbatim(u, scopes, quote)
  {
    hide Unmatched, Verbatim;
    if Verbatim(u, scopes, quote) {
      VerbatimIsMatched(u, scopes, quote);
    }
  }

  lemma KeysAreNotEmpty(u: Unicode, q: string)
    requires RealFoldings(u) && q != [] && !u.isSpace(q[0])
    ensures FoldText(u, false, q) != [] && FoldText(u, true, q) != []
  {
    FirstCharacterLeads(u, false, q);
    FirstCharacterLeads(u, true, q);
  }

  // ----- Not literal: the trap for the core

  lemma {:induction false} SkipAfter(u: Unicode, a: string, s: string, i: nat)
    requires i <= |s|
    ensures SkipSpaces(u, a + s, |a| + i) == |a| + SkipSpaces(u, s, i)
    decreases |s| - i
  {
    if i < |s| {
      assert (a + s)[|a| + i] == s[i];
      if u.isSpace(s[i]) {
        SkipAfter(u, a, s, i + 1);
      }
    }
  }

  /** A mark does not depend on what is before it. */
  lemma MarkAfter(u: Unicode, a: string, s: string, i: nat)
    requires i <= |s|
    ensures MarkEnd(u, a + s, |a| + i).Some? <==> MarkEnd(u, s, i).Some?
  {
    hide SkipSpaces;
    forall k: nat | k <= |s| ensures SkipSpaces(u, a + s, |a| + k) == |a| + SkipSpaces(u, s, k) {
      SkipAfter(u, a, s, k);
    }
    assert forall k :: 0 <= k < |s| ==> (a + s)[|a| + k] == s[k];
  }

  lemma {:induction false} SkipBefore(u: Unicode, s: string, b: string, i: nat)
    requires i <= |s| && SkipSpaces(u, s, i) < |s|
    ensures SkipSpaces(u, s + b, i) == SkipSpaces(u, s, i)
    decreases |s| - i
  {
    if i < |s| && u.isSpace(s[i]) {
      SkipBefore(u, s, b, i + 1);
    }
  }

  /** Nor is it lost by what is behind it. */
  lemma MarkBefore(u: Unicode, s: string, b: string, i: nat)
    requires i <= |s| && MarkEnd(u, s, i).Some?
    ensures MarkEnd(u, s + b, i).Some?
  {
    hide SkipSpaces;
    assert forall k :: 0 <= k < |s| ==> (s + b)[k] == s[k];
    if s[i] == '.' {
      var j := SkipSpaces(u, s, i + 1);
      SkipBefore(u, s, b, i + 1);
      SkipBefore(u, s, b, j + 1);
    }
  }

  lemma MarkInside(u: Unicode, text: string, part: string)
    requires Contains(text, part) && HasMark(u, part)
    ensures HasMark(u, text)
  {
    hide MarkEnd;
    var pos :| At(text, part, pos);
    var i :| 0 <= i < |part| && MarkEnd(u, part, i).Some?;
    var a, b := text[..pos], text[pos + |part|..];
    assert text == a + (part + b);
    MarkBefore(u, part, b, i);
    MarkAfter(u, a, part + b, i);
    assert MarkEnd(u, text, |a| + i).Some?;
  }

  /** The trap of an unmarked core holds no mark. */
  lemma TrapHasNoMark(u: Unicode, casefold: bool, core: string, x: char)
    requires Faithful(u) && RealFoldings(u) && RealMarks(u) && PlainLetter(u, x) && Fragile(u, casefold, core)
    requires !HasMark(u, core)
    ensures !HasMark(u, Trap(u, casefold, core, x))
  {
    hide MarkEnd;
    var f, text, rest := u.fold(casefold, core[0]), Trap(u, casefold, core, x), core[1..];
    var front := [x, ' '] + f[1..];
    assert text == front + rest && core == [core[0]] + rest;
    hide Trap, RealMarks, RealFoldings, Faithful, Fragile;
    FrontHasNoMarkChar(u, casefold, core, x);
    forall i | 0 <= i < |text| ensures MarkEnd(u, text, i).None? {
      if i < |front| {
        assert text[i] == front[i];
        MarkBegins(u, text, i);
      } else {
        MarkAfter(u, front, rest, i - |front|);
        MarkAfter(u, [core[0]], rest, i - |front|);
      }
    }
  }

  lemma FrontHasNoMarkChar(u: Unicode, casefold: bool, core: string, x: char)
    requires Faithful(u) && RealFoldings(u) && RealMarks(u) && PlainLetter(u, x) && Fragile(u, casefold, core)
    ensures forall c :: c in [x, ' '] + u.fold(casefold, core[0])[1..] ==> c != '.' && c != ELLIPSIS
  {
    var f := u.fold(casefold, core[0]);
    assert forall c :: c in f[1..] ==> c in f;
  }

  lemma MarkBegins(u: Unicode, s: string, i: nat)
    requires i < |s| && s[i] != '.' && s[i] != ELLIPSIS
    ensures MarkEnd(u, s, i).None?
  {
  }

  /** A marked proposal is not literal in the trap of its core. */
  lemma TrapIsNotLiteral(u: Unicode, quote: string, casefold: bool, core: string, x: char, byPage: bool)
    requires Faithful(u) && RealFoldings(u) && RealMarks(u) && PlainLetter(u, x) && Fragile(u, casefold, core)
    requires SinglySpaced(u, core) && Trimmed(u, core) && !HasMark(u, core) && HasMark(u, Squash(u, quote))
    ensures var scopes := TrapScopes(Trap(u, casefold, core, x));
            !Verbatim(u, scopes, quote) && !Quotes.Located(u, scopes, byPage, quote)
  {
    hide HasMark, Squash, Trap, Contains, Faithful, RealFoldings;
    var text, q := Trap(u, casefold, core, x), Squash(u, quote);
    var scopes := TrapScopes(text);
    TrapHasNoMark(u, casefold, core, x);
    TrapIsLaidOut(u, casefold, core, x);
    if Contains(text, q) {
      MarkInside(u, text, q);
    }
    TrapIsSquashed(u, casefold, core, x);
    TrapInLowerCase(u, text);
    if Contains(u.lower(text), u.lower(q)) {
      MarkInside(u, u.lower(text), u.lower(q));
    }
    if Quotes.Located(u, scopes, byPage, quote) {
      var i, pos := LocatedSomewhere(u, scopes, byPage, quote);
    }
  }

  lemma TrapIsSquashed(u: Unicode, casefold: bool, core: string, x: char)
    requires Faithful(u) && RealFoldings(u) && PlainLetter(u, x) && Fragile(u, casefold, core)
    requires SinglySpaced(u, core) && Trimmed(u, core)
    ensures var text := Trap(u, casefold, core, x); text != [] && !u.isSpace(text[0]) && Squash(u, text) == text
  {
    hide Squash, LayoutOf;
    TrapIsNeat(u, casefold, core, x);
    SquashKeeps(u, Trap(u, casefold, core, x));
  }

  lemma TrapInLowerCase(u: Unicode, text: string)
    requires Faithful(u) && text != [] && !u.isSpace(text[0]) && Squash(u, text) == text
    ensures Quotes.Layouts(u, TrapScopes(text), false)[0].text == u.lower(text)
  {
    var block := Block(text, Some(1), Some(1));
    assert [block][..0] == [];
    assert LayoutOf(u, [block], false) == Extend(LayoutOf(u, [], false), block, u.lower(text));
  }

  /** What StripOmission leaves of an unmarked proposal is all of it. */
  lemma UnmarkedIsWhole(u: Unicode, quote: string)
    requires StripOmission(u, quote).Some? && !HasMark(u, Squash(u, quote))
    ensures StripOmission(u, quote) == Some(Core(Squash(u, quote), false, false))
  {
    hide Squash, MarkEnd;
    var q, core := Squash(u, quote), StripOmission(u, quote).value;
    var head, tail := StripOmissionKeepsCore(u, quote);
    EdgeMarks(u, q);
    assert q == core.text;
  }

  lemma EdgeMarks(u: Unicode, s: string)
    requires !HasMark(u, s)
    ensures MarkEnd(u, s, 0).None? && !EndsWithMark(u, s)
  {
  }

  /** A proposal whose core is long enough and has a key that begins like a separator loses its front in the core's trap. */
  lemma CoreLoses(u: Unicode, quote: string, x: char, byPage: bool, minChars: int, repeatedMin: int)
    returns (scopes: seq<Quotes.Scope>)
    requires Faithful(u) && RealFoldings(u) && RealMarks(u) && PlainLetter(u, x) && StripOmission(u, quote).Some?
    requires Separable(u, StripOmission(u, quote).value.text, minChars, false)
    ensures !ProgramKeeps(u, quote, scopes, byPage, minChars, repeatedMin)
  {
    hide FoldText, Squash, StripOmission, Trap, Excerpt, Faithful, RealFoldings, RealMarks, BeginsSeparated, Verbatim, Quotes.Located, HasMark, Searchable;
    var core := StripOmission(u, quote).value;
    var head, tail := StripOmissionKeepsCore(u, quote);
    FragileExactly(u, false, core.text);
    FragileExactly(u, true, core.text);
    var casefold := !Fragile(u, false, core.text);
    scopes := TrapScopes(Trap(u, casefold, core.text, x));
    var verbatim := Verbatim(u, scopes, quote);
    var literal := Quotes.Located(u, scopes, byPage, quote) || verbatim;
    CoreIsNeat(u, quote, false);
    if HasMark(u, Squash(u, quote)) {
      TrapIsNotLiteral(u, quote, casefold, core.text, x, byPage);
    } else {
      UnmarkedIsWhole(u, quote);
    }
    assert CoreOf(u, quote, literal) == Some(core);
    LiteralIsSearchable(FoldText(u, false, core.text), minChars, literal);
    LiteralIsSearchable(FoldText(u, casefold, core.text), minChars, literal);
    TrapAloneLoses(u, quote, casefold, x, byPage, minChars, literal, if verbatim then Some(repeatedMin) else None);
  }

  lemma LiteralIsSearchable(key: string, minChars: int, literal: bool)
    requires Searchable(key, minChars, false)
    ensures Searchable(key, minChars, literal)
  {
  }

  // ----- Main results

  /**
   * Exactly which proposals the program never stores without their front,
   * whatever the manuscript: those of which no key that it may search for
   * begins like a separator.
   */
  lemma ProgramKeepsExactly(u: Unicode, quote: string, x: char, byPage: bool, minChars: int, repeatedMin: int)
    requires Faithful(u) && RealFoldings(u) && RealMarks(u) && PlainLetter(u, x)
    ensures (forall scopes :: ProgramKeeps(u, quote, scopes, byPage, minChars, repeatedMin))
       <==> !CanLose(u, quote, byPage, minChars)
  {
    hide FoldText, Squash, ProgramKeeps, StripOmission, Faithful, RealFoldings, RealMarks, BeginsSeparated, Separable, PlainLetter, Respelled;
    var q := Squash(u, quote);
    if !CanLose(u, quote, byPage, minChars) {
      forall scopes ensures ProgramKeeps(u, quote, scopes, byPage, minChars, repeatedMin) {
        ProgramKeepsOthers(u, quote, scopes, byPage, minChars, repeatedMin);
      }
    } else {
      if q != [] {
        WholeIsNeat(u, quote);
        FragileExactly(u, false, q);
        FragileExactly(u, true, q);
      } else {
        NothingFolds(u);
      }
      var scopes;
      if BeginsSeparated(u, FoldText(u, false, q)) {
        scopes := VerbatimLoses(u, quote, x, byPage, minChars, repeatedMin);
      } else if BeginsSeparated(u, FoldText(u, true, q)) && Respelled(u, quote, byPage) {
        scopes := RespelledLoses(u, quote, x, byPage, minChars, repeatedMin);
      } else {
        scopes := CoreLoses(u, quote, x, byPage, minChars, repeatedMin);
      }
    }
  }

  lemma NothingFolds(u: Unicode)
    ensures !BeginsSeparated(u, FoldText(u, false, [])) && !BeginsSeparated(u, FoldText(u, true, []))
  {
  }

  /** Where a proposal stands verbatim, only its exact key matters, however short it is. */
  lemma VerbatimKeptExactly(u: Unicode, quote: string, x: char, byPage: bool, minChars: int, repeatedMin: int)
    requires Faithful(u) && RealFoldings(u) && PlainLetter(u, x)
    ensures (forall scopes :: Verbatim(u, scopes, quote) ==> ProgramKeeps(u, quote, scopes, byPage, minChars, repeatedMin))
       <==> !BeginsSeparated(u, FoldText(u, false, Squash(u, quote)))
  {
    hide FoldText, Squash, ProgramKeeps, Faithful, RealFoldings, BeginsSeparated, PlainLetter, Verbatim;
    var q := Squash(u, quote);
    if BeginsSeparated(u, FoldText(u, false, q)) {
      if q == [] {
        NothingFolds(u);
      } else {
        WholeIsNeat(u, quote);
        FragileExactly(u, false, q);
        var scopes := VerbatimLoses(u, quote, x, byPage, minChars, repeatedMin);
      }
    } else {
      forall scopes | Verbatim(u, scopes, quote) ensures ProgramKeeps(u, quote, scopes, byPage, minChars, repeatedMin) {
        VerbatimIsKept(u, quote, scopes, byPage, minChars, repeatedMin);
      }
    }
  }

  lemma VerbatimIsKept(u: Unicode, quote: string, scopes: seq<Quotes.Scope>, byPage: bool, minChars: int, repeatedMin: int)
    requires Verbatim(u, scopes, quote) && !BeginsSeparated(u, FoldText(u, false, Squash(u, quote)))
    ensures ProgramKeeps(u, quote, scopes, byPage, minChars, repeatedMin)
  {
    hide FoldText, BeginsSeparated, Occurrences, Slices, InFirstScope, Unmatched, Quotes.Located, Excerpt, Squash, Contains, Verbatim;
    var layouts := Quotes.Layouts(u, scopes, true);
    if Excerpt(u, quote, layouts, byPage, minChars, true, Some(repeatedMin)).Some? {
      var p := ExcerptContainsCore(u, quote, layouts, byPage, minChars, true, Some(repeatedMin));
      if p.casefold {
        UnmatchedMeansNoOccurrence(u, scopes, quote, byPage);
        VerbatimIsMatched(u, scopes, quote);
        assert false;
      }
    }
  }

  /** For a proposal whose core has two long enough keys, its core's keys decide alone, and so its core's first character. */
  lemma LongProposalsKeptExactly(u: Unicode, quote: string, x: char, byPage: bool, minChars: int, repeatedMin: int)
    requires Faithful(u) && RealFoldings(u) && RealMarks(u) && PlainLetter(u, x) && StripOmission(u, quote).Some?
    requires var core := StripOmission(u, quote).value.text;
             Searchable(FoldText(u, false, core), minChars, false) && Searchable(FoldText(u, true, core), minChars, false)
    ensures var core := StripOmission(u, quote).value.text;
            && ((forall scopes :: ProgramKeeps(u, quote, scopes, byPage, minChars, repeatedMin))
                <==> !BeginsSeparated(u, FoldText(u, false, core)) && !BeginsSeparated(u, FoldText(u, true, core)))
            && ((forall scopes :: ProgramKeeps(u, quote, scopes, byPage, minChars, repeatedMin))
                <==> !Fragile(u, false, core) && !Fragile(u, true, core))
  {
    hide FoldText, Squash, ProgramKeeps, StripOmission, Faithful, RealFoldings, BeginsSeparated, PlainLetter, Respelled, Fragile, HasMark;
    var core := StripOmission(u, quote).value.text;
    var head, tail := StripOmissionKeepsCore(u, quote);
    ProgramKeepsExactly(u, quote, x, byPage, minChars, repeatedMin);
    FragileExactly(u, false, core);
    FragileExactly(u, true, core);
    WholeIsNeat(u, quote);
    FragileExactly(u, false, Squash(u, quote));
    FragileExactly(u, true, Squash(u, quote));
    WholeAndCore(u, quote, false);
    WholeAndCore(u, quote, true);
  }

  /** A proposal begins with a mark or with the first character of its core. */
  lemma WholeAndCore(u: Unicode, quote: string, casefold: bool)
    requires Faithful(u) && RealMarks(u) && StripOmission(u, quote).Some?
    ensures Fragile(u, casefold, Squash(u, quote)) ==> Fragile(u, casefold, StripOmission(u, quote).value.text)
  {
    hide Squash, StripOmission, HasMark, SkipSpaces;
    var head, tail := StripOmissionKeepsCore(u, quote);
    var q, core := Squash(u, quote), StripOmission(u, quote).value;
    if Fragile(u, casefold, q) {
      MarkBegins(u, q, 0);
      assert q[0] == core.text[0];
    }
  }

  // ----- The counterexample's table

  lemma GreekMarks()
    ensures RealMarks(GREEK)
  {
    hide HasMark, SpacedFolding;
    forall casefold, c | SpacedFolding(GREEK, casefold, c)
      ensures c != '.' && c != ELLIPSIS && '.' !in GREEK.fold(casefold, c) && ELLIPSIS !in GREEK.fold(casefold, c)
    {
      GreekFolds(casefold, c);
    }
    assert forall s :: GREEK.lower(s) == s;
  }

  lemma {:induction false} GreekLayouts(blocks: seq<Block>)
    ensures LayoutOf(GREEK, blocks, false) == LayoutOf(GREEK, blocks, true)
  {
    if blocks != [] {
      hide Squash;
      var block := blocks[|blocks| - 1];
      GreekLayouts(blocks[..|blocks| - 1]);
      assert BlockText(GREEK, block, false) == BlockText(GREEK, block, true);
    }
  }

  /** In a table without upper case nothing is respelled. */
  lemma GreekIsNeverRespelled(quote: string, byPage: bool)
    ensures !Respelled(GREEK, quote, byPage)
  {
    hide Squash, LayoutOf, FoldText, Contains;
    forall scopes: seq<Quotes.Scope> | Quotes.Located(GREEK, scopes, byPage, quote)
      ensures !Unmatched(GREEK, scopes, quote)
    {
      var i, pos := LocatedSomewhere(GREEK, scopes, byPage, quote);
      GreekLayouts(scopes[i]);
      assert GREEK.lower(Squash(GREEK, quote)) == Squash(GREEK, quote);
      InsideMatches(GREEK, false, LayoutOf(GREEK, scopes[i], true).text, Squash(GREEK, quote));
    }
  }

  /** U+037A alone can lose its space exactly when two characters are enough to be searched for without being verbatim. */
  lemma YpogegrammeniCanLoseExactlyWhenShortIsEnough(byPage: bool, minChars: int)
    ensures CanLose(GREEK, [YPOGEGRAMMENI], byPage, minChars) <==> minChars <= 2
  {
    hide FoldText, Squash, StripOmission, Respelled;
    NothingToStrip();
    FoldSingle(YPOGEGRAMMENI, false);
    FoldSingle(YPOGEGRAMMENI, true);
    GreekIsNeverRespelled([YPOGEGRAMMENI], byPage);
    OneIsWhole();
  }

  lemma OneIsWhole()
    ensures Squash(GREEK, [YPOGEGRAMMENI]) == [YPOGEGRAMMENI]
  {
    var s := [YPOGEGRAMMENI];
    assert s[1..] == [];
    assert Collapse(GREEK, s[1..]) == [];
    assert Collapse(GREEK, s) == s;
  }
}
