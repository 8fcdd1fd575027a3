/**
 * Exactly when a stored excerpt can miss the beginning of what it was stored
 * for (backend/app/checks/semantic.py, lines 412-513).
 */
module Containment {
  import opened Wrappers
  import opened SourceText
  import opened Folding
  import opened Excerpts
  import Quotes

  /** If the proposal is stored, the excerpt's own folding contains the folded core. */
  ghost predicate KeepsCore(u: Unicode, quote: string, layouts: seq<Layout>, byPage: bool,
                            minChars: int, literal: bool, repeatedMin: Option<int>)
  {
    var core := CoreOf(u, quote, literal);
    var stored := Excerpt(u, quote, layouts, byPage, minChars, literal, repeatedMin);
    core.Some? && stored.Some? ==>
      var casefold := CaseSetAside(u, layouts, core.value, byPage, minChars, literal);
      Contains(FoldText(u, casefold, stored.value.0), FoldText(u, casefold, core.value.text))
  }

  /** So it is in every manuscript. */
  ghost predicate AlwaysKept(u: Unicode, quote: string, byPage: bool, minChars: int, literal: bool, repeatedMin: Option<int>) {
    forall scopes :: KeepsCore(u, quote, Quotes.Layouts(u, scopes, true), byPage, minChars, literal, repeatedMin)
  }

  /** One of the keys that are searched for begins like a separator. */
  predicate Separable(u: Unicode, core: string, minChars: int, literal: bool) {
    var exact, loose := FoldText(u, false, core), FoldText(u, true, core);
    Searchable(exact, minChars, literal)
    && (BeginsSeparated(u, exact) || (Searchable(loose, minChars, literal) && BeginsSeparated(u, loose)))
  }

  // ----- What is used of the folding table

  /** Characters that fold to themselves, none of them whitespace. */
  ghost predicate SelfFolding(u: Unicode, casefold: bool, s: string) {
    forall i :: 0 <= i < |s| ==> !u.isSpace(s[i]) && u.fold(casefold, s[i]) == [s[i]]
  }

  ghost predicate SpacedFolding(u: Unicode, casefold: bool, c: char) {
    !u.isSpace(c) && u.fold(casefold, c) != [] && u.fold(casefold, c)[0] == ' '
  }

  /**
   * No character folds to nothing. A folding that begins with a space (as
   * that of a spacing diaeresis does) goes on with characters that fold to
   * themselves, and case folding gives no character such a folding that NFKC
   * did not give it at the same length.
   */
  ghost predicate RealFoldings(u: Unicode) {
    && (forall casefold, c :: !u.isSpace(c) ==> u.fold(casefold, c) != [])
    && (forall casefold, c :: SpacedFolding(u, casefold, c) ==>
          |u.fold(casefold, c)| > 1 && SelfFolding(u, casefold, u.fold(casefold, c)[1..]))
    && (forall c :: SpacedFolding(u, true, c) ==>
          && SpacedFolding(u, false, c) && |u.fold(false, c)| == |u.fold(true, c)|
          && SelfFolding(u, false, u.fold(true, c)[1..]))
  }

  /** A letter that neither normalisation nor case folding changes. */
  ghost predicate PlainLetter(u: Unicode, x: char) {
    u.isAlnum(x) && u.fold(false, x) == [x] && u.fold(true, x) == [x]
  }

  // ----- A manuscript in which the front is lost

  /** What the core's first character folds to after its space, and the rest of the core. */
  function Tail(u: Unicode, casefold: bool, core: string): string
    requires core != [] && u.fold(casefold, core[0]) != []
  {
    u.fold(casefold, core[0])[1..] + core[1..]
  }

  lemma {:induction false} SelfFolded(u: Unicode, casefold: bool, s: string, st: State)
    requires SelfFolding(u, casefold, s) && !st.pending
    ensures Chars(u, casefold, s, st) == s
    ensures After(u, casefold, s, st) == if s == [] then st else State(false, u.isAlnum(s[|s| - 1]))
  {
    if s != [] {
      SelfFolded(u, casefold, s[1..], Next(u, casefold, s[0], st));
      assert s == [s[0]] + s[1..];
    }
  }

  /** The tail folds to what the core folds to, less the space in front. */
  lemma TailFolds(u: Unicode, casefold: bool, core: string)
    requires core != [] && SpacedFolding(u, casefold, core[0]) && RealFoldings(u)
    ensures FoldText(u, casefold, core) == [' '] + FoldText(u, casefold, Tail(u, casefold, core))
  {
    hide Chars, After;
    var f, rest := u.fold(casefold, core[0]), core[1..];
    var after := Chars(u, casefold, rest, State(false, u.isAlnum(f[|f| - 1])));
    SelfFolded(u, casefold, f[1..], FRESH);
    CharsSplit(u, casefold, f[1..], rest, FRESH);
    FirstUnfolds(u, casefold, core);
    assert f + after == [' '] + (f[1..] + after);
  }

  lemma FirstUnfolds(u: Unicode, casefold: bool, core: string)
    requires core != [] && !u.isSpace(core[0]) && u.fold(casefold, core[0]) != []
    ensures var f := u.fold(casefold, core[0]);
            FoldText(u, casefold, core) == f + Chars(u, casefold, core[1..], State(false, u.isAlnum(f[|f| - 1])))
  {
  }

  /** Behind a letter and a space, the tail gets the space back as a separator. */
  lemma LetterBringsSeparator(u: Unicode, casefold: bool, x: char, r: string)
    requires u.isSpace(' ') && !u.isSpace(x) && u.isAlnum(x) && u.fold(casefold, x) == [x]
    requires r != [] && !u.isSpace(r[0]) && u.isAlnum(r[0]) && u.fold(casefold, r[0]) == [r[0]]
    ensures FoldText(u, casefold, [x, ' '] + r) == [x] + ([' '] + FoldText(u, casefold, r))
    ensures After(u, casefold, [x, ' '], FRESH) == State(true, true) && Chars(u, casefold, [x, ' '], FRESH) == [x]
  {
    hide Chars, After;
    LetterThenSpace(u, casefold, x);
    CharsSplit(u, casefold, [x, ' '], r, FRESH);
    SeparatorLeads(u, casefold, r);
  }

  lemma LetterThenSpace(u: Unicode, casefold: bool, x: char)
    requires u.isSpace(' ') && !u.isSpace(x) && u.isAlnum(x) && u.fold(casefold, x) == [x]
    ensures After(u, casefold, [x, ' '], FRESH) == State(true, true) && Chars(u, casefold, [x, ' '], FRESH) == [x]
  {
    assert [x, ' '][1..] == [' '] && [' '][1..] == [];
    assert Chars(u, casefold, [' '], State(false, true)) == [];
    assert After(u, casefold, [' '], State(false, true)) == State(true, true);
  }

  lemma SeparatorLeads(u: Unicode, casefold: bool, r: string)
    requires r != [] && !u.isSpace(r[0]) && u.isAlnum(r[0]) && u.fold(casefold, r[0]) == [r[0]]
    ensures Chars(u, casefold, r, State(true, true)) == [' '] + Chars(u, casefold, r, FRESH)
  {
    assert Chars(u, casefold, r, State(true, true)) == [' ', r[0]] + Chars(u, casefold, r[1..], State(false, true));
    assert Chars(u, casefold, r, FRESH) == [r[0]] + Chars(u, casefold, r[1..], State(false, true));
  }

  /** A letter, a space, and the tail: the text in which the front is lost. */
  function Trap(u: Unicode, casefold: bool, core: string, x: char): string
    requires core != [] && u.fold(casefold, core[0]) != []
  {
    [x, ' '] + Tail(u, casefold, core)
  }

  /** What makes a core's key begin like a separator in this case mode. */
  ghost predicate Fragile(u: Unicode, casefold: bool, core: string) {
    core != [] && SpacedFolding(u, casefold, core[0]) && |u.fold(casefold, core[0])| > 1
    && u.isAlnum(u.fold(casefold, core[0])[1])
  }

  lemma FragileExactly(u: Unicode, casefold: bool, core: string)
    requires RealFoldings(u) && core != [] && !u.isSpace(core[0])
    ensures BeginsSeparated(u, FoldText(u, casefold, core)) <==> Fragile(u, casefold, core)
  {
    FirstCharacterLeads(u, casefold, core);
  }

  lemma TrapFolds(u: Unicode, casefold: bool, core: string, x: char)
    requires Faithful(u) && RealFoldings(u) && PlainLetter(u, x) && Fragile(u, casefold, core)
    ensures var key := FoldText(u, casefold, core);
            && key == [' '] + FoldText(u, casefold, Tail(u, casefold, core))
            && FoldText(u, casefold, Trap(u, casefold, core, x)) == [x] + key
    ensures forall k :: 1 <= k < |FoldPositions(u, casefold, Trap(u, casefold, core, x))| ==>
              FoldPositions(u, casefold, Trap(u, casefold, core, x))[k] >= 2
  {
    hide Chars, Positions, After;
    var r := Tail(u, casefold, core);
    TailFolds(u, casefold, core);
    LetterBringsSeparator(u, casefold, x, r);
    PositionsSplit(u, casefold, [x, ' '], r, 0, FRESH);
    PositionsWithin(u, casefold, r, 2, State(true, true));
    PositionsBehind(Positions(u, casefold, [x, ' '], 0, FRESH), Positions(u, casefold, r, 2, State(true, true)), 2, 2 + |r|);
  }

  lemma PositionsBehind(p: seq<nat>, q: seq<nat>, lo: nat, hi: nat)
    requires Within(q, lo, hi)
    ensures forall k :: |p| <= k < |p + q| ==> (p + q)[k] >= lo
  {
  }

  /** The only place where the letter and the key hold the key is behind the letter. */
  lemma OnlyBehindLetter(x: char, key: string, hit: int)
    requires x != ' ' && key != [] && key[0] == ' ' && At([x] + key, key, hit)
    ensures hit == 1
  {
    assert ([x] + key)[hit..hit + |key|][0] == ([x] + key)[hit];
  }

  /** What is cut from behind the space folds to less than the key. */
  lemma CutIsShorter(u: Unicode, casefold: bool, core: string, x: char, a: nat, b: nat)
    requires Faithful(u) && RealFoldings(u) && PlainLetter(u, x) && Fragile(u, casefold, core)
    requires 2 <= a <= b <= |Trap(u, casefold, core, x)|
    ensures !Contains(FoldText(u, casefold, Trap(u, casefold, core, x)[a..b]), FoldText(u, casefold, core))
  {
    hide Chars, Positions, After, FoldText;
    var r, text := Tail(u, casefold, core), Trap(u, casefold, core, x);
    TrapFolds(u, casefold, core, x);
    assert text[a..b] == r[a - 2..b - 2];
    var before, sep, after := MiddleFolds(u, casefold, r[..a - 2], r[a - 2..b - 2], r[b - 2..]);
    assert r == r[..a - 2] + (r[a - 2..b - 2] + r[b - 2..]);
  }

  /** The trap as a manuscript of one block, known by page and paragraph. */
  function TrapScopes(text: string): seq<Quotes.Scope> {
    [[Block(text, Some(1), Some(1))]]
  }

  /** The trap of a neat core is neat. */
  lemma TrapIsNeat(u: Unicode, casefold: bool, core: string, x: char)
    requires Faithful(u) && RealFoldings(u) && PlainLetter(u, x) && Fragile(u, casefold, core)
    requires SinglySpaced(u, core) && Trimmed(u, core)
    ensures var text := Trap(u, casefold, core, x);
            text != [] && !u.isSpace(text[0]) && SinglySpaced(u, text) && Trimmed(u, text)
  {
    var f, text := u.fold(casefold, core[0]), Trap(u, casefold, core, x);
    var n := |f| + 1;
    assert SelfFolding(u, casefold, f[1..]);
    assert forall k :: 0 <= k < |f| - 1 ==> text[k + 2] == f[1..][k];
    assert forall k :: 2 <= k < n ==> !u.isSpace(text[k]) by {
      forall k | 2 <= k < n ensures !u.isSpace(text[k]) {
        assert text[(k - 2) + 2] == f[1..][k - 2];
      }
    }
    forall i | 0 <= i < |text| && u.isSpace(text[i])
      ensures text[i] == ' ' && (i + 1 < |text| ==> !u.isSpace(text[i + 1]))
    {
      if i >= n {
        assert text[i] == core[i - n + 1];
      }
    }
    if |core| > 1 {
      assert text[|text| - 1] == core[|core| - 1];
    } else {
      assert text[|text| - 1] == f[1..][|f| - 2];
    }
  }

  lemma TrapIsLaidOut(u: Unicode, casefold: bool, core: string, x: char)
    requires Faithful(u) && RealFoldings(u) && PlainLetter(u, x) && Fragile(u, casefold, core)
    requires SinglySpaced(u, core) && Trimmed(u, core)
    ensures var text := Trap(u, casefold, core, x);
            Quotes.Layouts(u, TrapScopes(text), true) == [Layout(text, [Span(0, |text|, Block(text, Some(1), Some(1)))])]
  {
    hide Trap, LayoutOf, Squash;
    TrapIsNeat(u, casefold, core, x);
    SquashKeeps(u, Trap(u, casefold, core, x));
    OneBlock(u, Trap(u, casefold, core, x));
  }

  lemma OneBlock(u: Unicode, text: string)
    requires text != [] && Squash(u, text) == text
    ensures Quotes.Layouts(u, TrapScopes(text), true) == [Layout(text, [Span(0, |text|, Block(text, Some(1), Some(1)))])]
  {
    var block := Block(text, Some(1), Some(1));
    assert [block][..0] == [];
    assert LayoutOf(u, [block], true) == Extend(LayoutOf(u, [], true), block, text);
  }

  // ----- The proposal is stored there, without its front

  /** A text of one block, known by page and paragraph. */
  ghost predicate OneKnownBlock(layouts: seq<Layout>) {
    |layouts| == 1 && var text := layouts[0].text;
    layouts[0].spans == [Span(0, |text|, Block(text, Some(1), Some(1)))]
  }

  function KnownAnchor(byPage: bool): Anchor {
    if byPage then Page(1) else Paragraph(1)
  }

  lemma OneAnchor(u: Unicode, layouts: seq<Layout>, casefold: bool, key: string, byPage: bool, o: Occurrence, hit: nat)
    requires key != [] && OneKnownBlock(layouts) && Matches(u, layouts, casefold, key, byPage, o, hit)
    ensures o.anchor == Some(KnownAnchor(byPage))
  {
    hide FoldText, Positions;
    PositionsAlign(u, casefold, layouts[0].text, 0, FRESH);
  }

  lemma KeyIsLocated(u: Unicode, layouts: seq<Layout>, casefold: bool, key: string, byPage: bool, hit: nat)
    requires key != [] && OneKnownBlock(layouts) && At(FoldText(u, casefold, layouts[0].text), key, hit)
    ensures OccursLocated(u, layouts, casefold, key, byPage)
    ensures AllAt(u, layouts, casefold, key, byPage, Some(KnownAnchor(byPage)))
    ensures Occurrences(u, layouts, casefold, key, byPage) != []
  {
    hide FoldText, Occurrences, Matches, ToOccurrence;
    forall o | IsOccurrence(u, layouts, casefold, key, byPage, o)
      ensures o.anchor == Some(KnownAnchor(byPage))
    {
      var h :| Matches(u, layouts, casefold, key, byPage, o, h);
      OneAnchor(u, layouts, casefold, key, byPage, o, h);
    }
    var o := HitOccurs(u, layouts, casefold, key, byPage, hit);
    OccurrencesExact(u, layouts, casefold, key, byPage);
  }

  lemma HitOccurs(u: Unicode, layouts: seq<Layout>, casefold: bool, key: string, byPage: bool, hit: nat)
    returns (o: Occurrence)
    requires key != [] && layouts != [] && At(FoldText(u, casefold, layouts[0].text), key, hit)
    ensures IsOccurrence(u, layouts, casefold, key, byPage, o)
  {
    hide FoldText;
    o := ToOccurrence(layouts[0], FoldPositions(u, casefold, layouts[0].text), 0, |key|, byPage, hit);
    assert Matches(u, layouts, casefold, key, byPage, o, hit);
  }

  lemma {:induction false} FirstScopeComesFirst(u: Unicode, layouts: seq<Layout>, casefold: bool, key: string, byPage: bool, hit: nat)
    requires key != [] && layouts != [] && At(FoldText(u, casefold, layouts[0].text), key, hit)
    ensures InFirstScope(u, layouts, casefold, key, byPage, 0)
  {
    hide FoldText, FoldPositions;
    var n := |layouts| - 1;
    var folded, positions := FoldText(u, casefold, layouts[n].text), FoldPositions(u, casefold, layouts[n].text);
    if n == 0 {
      InLayoutOfHits(layouts[0], folded, positions, 0, key, byPage);
      HitsExact(folded, key, 0);
      assert hit in HitsFrom(folded, key, 0);
      assert Occurrences(u, layouts[..0], casefold, key, byPage) == [];
    } else {
      FirstScopeComesFirst(u, layouts[..n], casefold, key, byPage, hit);
    }
  }

  /** Where the trap for a case mode is the first scope searched in that mode, and all hits agree, the excerpt misses the core's front. */
  lemma TrapLoses(u: Unicode, quote: string, casefold: bool, x: char, layouts: seq<Layout>, byPage: bool,
                  minChars: int, literal: bool, repeatedMin: Option<int>)
    requires Faithful(u) && RealFoldings(u) && PlainLetter(u, x) && CoreOf(u, quote, literal).Some?
    requires var core := CoreOf(u, quote, literal).value;
             && Fragile(u, casefold, core.text) && Searchable(FoldText(u, casefold, core.text), minChars, literal)
             && layouts != [] && layouts[0].text == Trap(u, casefold, core.text, x)
             && CaseSetAside(u, layouts, core, byPage, minChars, literal) == casefold
             && AllAt(u, layouts, casefold, FoldText(u, casefold, core.text), byPage, Some(KnownAnchor(byPage)))
    ensures !KeepsCore(u, quote, layouts, byPage, minChars, literal, repeatedMin)
  {
    hide FoldText, Excerpt, CoreOf, Trap, Searchable, CaseSetAside, OccursLocated, AllAt, InFirstScope, RealFoldings, Slices;
    var core := CoreOf(u, quote, literal).value;
    var text, key := Trap(u, casefold, core.text, x), FoldText(u, casefold, core.text);
    TrapFolds(u, casefold, core.text, x);
    assert At([x] + key, key, 1);
    TrapIsStored(u, quote, casefold, layouts, byPage, minChars, literal, repeatedMin, 1);
    var p := ExcerptContainsCore(u, quote, layouts, byPage, minChars, literal, repeatedMin);
    FirstScopeComesFirst(u, layouts, casefold, key, byPage, 1);
    assert p.scope == 0 by { OneFirstScope(u, layouts, casefold, key, byPage, 0, p.scope); }
    var (excerpt, anchor) := Excerpt(u, quote, layouts, byPage, minChars, literal, repeatedMin).value;
    SliceBehindSpace(u, layouts, core, byPage, p, excerpt, anchor, x);
    CutIsShorter(u, casefold, core.text, x, p.a, p.b);
  }

  lemma OneFirstScope(u: Unicode, layouts: seq<Layout>, casefold: bool, key: string, byPage: bool, s: nat, t: nat)
    requires key != [] && InFirstScope(u, layouts, casefold, key, byPage, s) && InFirstScope(u, layouts, casefold, key, byPage, t)
    ensures s == t
  {
  }

  lemma TrapIsStored(u: Unicode, quote: string, casefold: bool, layouts: seq<Layout>, byPage: bool,
                     minChars: int, literal: bool, repeatedMin: Option<int>, hit: nat)
    requires CoreOf(u, quote, literal).Some? && layouts != []
    requires var core := CoreOf(u, quote, literal).value; var key := FoldText(u, casefold, core.text);
             && CaseSetAside(u, layouts, core, byPage, minChars, literal) == casefold
             && Searchable(key, minChars, literal) && At(FoldText(u, casefold, layouts[0].text), key, hit)
             && AllAt(u, layouts, casefold, key, byPage, Some(KnownAnchor(byPage)))
    ensures Excerpt(u, quote, layouts, byPage, minChars, literal, repeatedMin).Some?
  {
    hide FoldText, Excerpt, CoreOf, CaseSetAside, ToOccurrence, Matches;
    var key := FoldText(u, casefold, CoreOf(u, quote, literal).value.text);
    var o := HitOccurs(u, layouts, casefold, key, byPage, hit);
    StoredExactlyWhenLocated(u, quote, layouts, byPage, minChars, literal, repeatedMin);
  }

  /** The slice around the hit behind the trap's letter begins behind its space. */
  lemma SliceBehindSpace(u: Unicode, layouts: seq<Layout>, core: Core, byPage: bool, p: Provenance,
                         excerpt: string, anchor: Anchor, x: char)
    requires Faithful(u) && RealFoldings(u) && PlainLetter(u, x) && Fragile(u, p.casefold, core.text)
    requires Slices(u, layouts, core, byPage, p, excerpt, anchor) && p.scope == 0
    requires layouts[0].text == Trap(u, p.casefold, core.text, x)
    ensures 2 <= p.a <= p.b <= |layouts[0].text| && excerpt == layouts[0].text[p.a..p.b]
  {
    hide FoldText, Trap, RealFoldings, AnchorAt;
    var key := FoldText(u, p.casefold, core.text);
    TrapFolds(u, p.casefold, core.text, x);
    OnlyBehindLetter(x, key, p.hit);
    assert layouts[0].text[1] == ' ' by { TrapStarts(u, p.casefold, core.text, x); }
  }

  lemma TrapStarts(u: Unicode, casefold: bool, core: string, x: char)
    requires core != [] && u.fold(casefold, core[0]) != []
    ensures var text := Trap(u, casefold, core, x); |text| >= 2 && text[0] == x && text[1] == ' '
  {
  }

  // ----- The exact-case key does not occur in the text that loses the case-folded one

  /** What comes before changes the length of a folding by one at most. */
  lemma LengthsAreClose(u: Unicode, casefold: bool, s: string, a: State, b: State)
    requires !a.pending && !b.pending
    ensures |Chars(u, casefold, s, a)| <= |Chars(u, casefold, s, b)| + 1
  {
    CharsForget(u, casefold, s, a, FRESH);
    CharsForget(u, casefold, s, b, FRESH);
  }

  lemma ExactMisses(u: Unicode, core: string, x: char, hit: int)
    requires Faithful(u) && RealFoldings(u) && PlainLetter(u, x)
    requires Fragile(u, true, core) && !Fragile(u, false, core)
    ensures !At(FoldText(u, false, Trap(u, true, core, x)), FoldText(u, false, core), hit)
  {
    hide Chars, After, FoldText;
    var f, g, rest := u.fold(true, core[0]), u.fold(false, core[0]), core[1..];
    var r := Tail(u, true, core);
    assert f[1..][0] == f[1] && r[0] == f[1];
    LetterBringsSeparator(u, false, x, r);
    TailFolds(u, false, core);
    var own := SplitTail(u, f[1..], rest);
    var other := SplitTail(u, g[1..], rest);
    assert |own| <= |other| + 1 by {
      LengthsAreClose(u, false, rest, State(false, u.isAlnum(f[|f| - 1])), State(false, u.isAlnum(g[|g| - 1])));
    }
    Misses(x, f[1..] + own, g[1..] + other, hit);
  }

  /** A self-folding front folds to itself, and the rest after it. */
  lemma SplitTail(u: Unicode, front: string, rest: string) returns (after: string)
    requires front != [] && SelfFolding(u, false, front)
    ensures after == Chars(u, false, rest, State(false, u.isAlnum(front[|front| - 1])))
    ensures FoldText(u, false, front + rest) == front + after
  {
    SelfFolded(u, false, front, FRESH);
    CharsSplit(u, false, front, rest, FRESH);
    after := Chars(u, false, rest, State(false, u.isAlnum(front[|front| - 1])));
  }

  /** A key of almost the text's length would have to begin at its letter, its space or the character after. */
  lemma Misses(x: char, text: string, key: string, hit: int)
    requires text != [] && key != [] && |text| <= |key| + 1
    requires x != ' ' && text[0] != ' ' && text[0] != key[0]
    ensures !At([x] + ([' '] + text), [' '] + key, hit)
  {
    var whole, searched := [x] + ([' '] + text), [' '] + key;
    if 0 <= hit <= 2 && hit + |searched| <= |whole| {
      var part := whole[hit..hit + |searched|];
      assert part[0] == whole[hit] && part[1] == whole[hit + 1];
    }
  }

  // ----- Main result

  lemma CoreIsNeat(u: Unicode, quote: string, literal: bool)
    requires CoreOf(u, quote, literal).Some?
    ensures var core := CoreOf(u, quote, literal).value.text; SinglySpaced(u, core) && Trimmed(u, core)
  {
    SquashSpacesSingly(u, quote);
    if !literal {
      var s := Squash(u, quote);
      var cut := s[CoreStart(u, s)..CoreEnd(u, s)];
      StripTrims(u, cut);
      var i, j := StripIsSlice(u, cut);
      SliceSinglySpaced(u, s, CoreStart(u, s), CoreEnd(u, s));
      SliceSinglySpaced(u, cut, i, j);
    }
  }

  lemma SearchableIsNotEmpty(u: Unicode, casefold: bool, core: string, minChars: int, literal: bool)
    requires Searchable(FoldText(u, casefold, core), minChars, literal)
    ensures core != []
  {
  }

  /** A manuscript of the trap alone loses the front of the core it was made for. */
  lemma TrapAloneLoses(u: Unicode, quote: string, casefold: bool, x: char, byPage: bool,
                       minChars: int, literal: bool, repeatedMin: Option<int>)
    requires Faithful(u) && RealFoldings(u) && PlainLetter(u, x) && CoreOf(u, quote, literal).Some?
    requires var core := CoreOf(u, quote, literal).value.text;
             && Searchable(FoldText(u, false, core), minChars, literal)
             && Searchable(FoldText(u, casefold, core), minChars, literal)
             && Fragile(u, casefold, core) && (casefold ==> !Fragile(u, false, core))
    ensures var scopes := TrapScopes(Trap(u, casefold, CoreOf(u, quote, literal).value.text, x));
            !KeepsCore(u, quote, Quotes.Layouts(u, scopes, true), byPage, minChars, literal, repeatedMin)
  {
    hide FoldText, CoreOf, Trap, Occurrences, Excerpt, Searchable, Faithful;
    var core := CoreOf(u, quote, literal).value;
    var text := Trap(u, casefold, core.text, x);
    var layouts := Quotes.Layouts(u, TrapScopes(text), true);
    CoreIsNeat(u, quote, literal);
    TrapIsLaidOut(u, casefold, core.text, x);
    TrapMode(u, layouts, casefold, core, x, byPage, minChars, literal);
    TrapFolds(u, casefold, core.text, x);
    assert At([x] + FoldText(u, casefold, core.text), FoldText(u, casefold, core.text), 1);
    KeyIsLocated(u, layouts, casefold, FoldText(u, casefold, core.text), byPage, 1);
    TrapLoses(u, quote, casefold, x, layouts, byPage, minChars, literal, repeatedMin);
  }

  /** A proposal with a key that begins like a separator loses its front in some manuscript, called with these flags. */
  lemma SomeTrapLoses(u: Unicode, quote: string, casefold: bool, x: char, byPage: bool,
                      minChars: int, literal: bool, repeatedMin: Option<int>)
    requires Faithful(u) && RealFoldings(u) && PlainLetter(u, x) && CoreOf(u, quote, literal).Some?
    requires var core := CoreOf(u, quote, literal).value.text;
             && Searchable(FoldText(u, false, core), minChars, literal)
             && Searchable(FoldText(u, casefold, core), minChars, literal)
             && Fragile(u, casefold, core) && (casefold ==> !Fragile(u, false, core))
    ensures !AlwaysKept(u, quote, byPage, minChars, literal, repeatedMin)
  {
    hide CoreOf, Trap, KeepsCore;
    TrapAloneLoses(u, quote, casefold, x, byPage, minChars, literal, repeatedMin);
  }

  /** The trap for a case mode is searched in that mode. */
  lemma TrapMode(u: Unicode, layouts: seq<Layout>, casefold: bool, core: Core, x: char, byPage: bool, minChars: int, literal: bool)
    requires Faithful(u) && RealFoldings(u) && PlainLetter(u, x)
    requires Searchable(FoldText(u, false, core.text), minChars, literal)
    requires Fragile(u, casefold, core.text) && (casefold ==> !Fragile(u, false, core.text))
    requires OneKnownBlock(layouts) && layouts[0].text == Trap(u, casefold, core.text, x)
    ensures CaseSetAside(u, layouts, core, byPage, minChars, literal) == casefold
  {
    hide FoldText, Trap, Occurrences, Fragile, RealFoldings, Faithful, Matches, OneKnownBlock;
    var exact := FoldText(u, false, core.text);
    var os := Occurrences(u, layouts, false, exact, byPage);
    if casefold {
      OccurrencesExact(u, layouts, false, exact, byPage);
      if os != [] {
        assert os[0] in os;
        var hit: nat :| Matches(u, layouts, false, exact, byPage, os[0], hit);
        HitOfMatch(u, layouts, exact, byPage, os[0], hit);
        ExactMisses(u, core.text, x, hit);
      }
    } else {
      TrapFolds(u, false, core.text, x);
      assert At([x] + exact, exact, 1);
      KeyIsLocated(u, layouts, false, exact, byPage, 1);
    }
  }

  lemma HitOfMatch(u: Unicode, layouts: seq<Layout>, key: string, byPage: bool, o: Occurrence, hit: nat)
    requires key != [] && OneKnownBlock(layouts) && Matches(u, layouts, false, key, byPage, o, hit)
    ensures At(FoldText(u, false, layouts[0].text), key, hit)
  {
  }

  /**
   * Exactly which proposals `_source_excerpt` alone always keeps whole, its
   * flags given: whatever the manuscript, a stored excerpt's own folding contains the folded core, unless a key
   * that is searched for begins like a separator. And for such a key there
   * is a manuscript that stores the proposal without its front.
   */
  lemma ExcerptsKeepCoreExactly(u: Unicode, quote: string, x: char, byPage: bool,
                                minChars: int, literal: bool, repeatedMin: Option<int>)
    requires Faithful(u) && RealFoldings(u) && PlainLetter(u, x) && CoreOf(u, quote, literal).Some?
    ensures AlwaysKept(u, quote, byPage, minChars, literal, repeatedMin)
       <==> !Separable(u, CoreOf(u, quote, literal).value.text, minChars, literal)
  {
    hide FoldText, CoreOf, Fragile, Searchable, RealFoldings, BeginsSeparated, PlainLetter;
    var core := CoreOf(u, quote, literal).value.text;
    if Separable(u, core, minChars, literal) {
      CoreIsNeat(u, quote, literal);
      SearchableIsNotEmpty(u, false, core, minChars, literal);
      FragileExactly(u, false, core);
      FragileExactly(u, true, core);
      SomeTrapLoses(u, quote, !Fragile(u, false, core), x, byPage, minChars, literal, repeatedMin);
    } else {
      forall scopes ensures KeepsCore(u, quote, Quotes.Layouts(u, scopes, true), byPage, minChars, literal, repeatedMin) {
        InseparableIsKept(u, quote, Quotes.Layouts(u, scopes, true), byPage, minChars, literal, repeatedMin);
      }
    }
  }

  lemma InseparableIsKept(u: Unicode, quote: string, layouts: seq<Layout>, byPage: bool,
                          minChars: int, literal: bool, repeatedMin: Option<int>)
    requires CoreOf(u, quote, literal).Some? && !Separable(u, CoreOf(u, quote, literal).value.text, minChars, literal)
    ensures KeepsCore(u, quote, layouts, byPage, minChars, literal, repeatedMin)
  {
    hide FoldText, CoreOf, BeginsSeparated, Occurrences, Slices, Searchable;
    if Excerpt(u, quote, layouts, byPage, minChars, literal, repeatedMin).Some? {
      var p := ExcerptContainsCore(u, quote, layouts, byPage, minChars, literal, repeatedMin);
    }
  }

  lemma GreekFolds(casefold: bool, c: char)
    ensures SpacedFolding(GREEK, casefold, c) <==> c == YPOGEGRAMMENI
    ensures !GREEK.isSpace(c) ==> GREEK.fold(casefold, c) != []
    ensures c != YPOGEGRAMMENI ==> GREEK.fold(casefold, c) == [c]
    ensures GREEK.fold(casefold, YPOGEGRAMMENI) == [' ', if casefold then IOTA else COMBINING_IOTA]
  {
  }

  lemma GreekTailsFold(casefold: bool)
    ensures SelfFolding(GREEK, casefold, GREEK.fold(casefold, YPOGEGRAMMENI)[1..])
    ensures SelfFolding(GREEK, false, GREEK.fold(true, YPOGEGRAMMENI)[1..])
  {
    GreekFolds(casefold, YPOGEGRAMMENI);
    GreekFolds(true, YPOGEGRAMMENI);
    assert [' ', IOTA][1..] == [IOTA] && [' ', COMBINING_IOTA][1..] == [COMBINING_IOTA];
  }

  lemma GreekIsFaithful()
    ensures Faithful(GREEK)
  {
  }

  /** The table of the counterexample is such a table, with an untouched letter. */
  lemma GreekTableQualifies()
    ensures Faithful(GREEK) && RealFoldings(GREEK) && PlainLetter(GREEK, 'a')
    ensures Fragile(GREEK, true, [YPOGEGRAMMENI]) && !Fragile(GREEK, false, [YPOGEGRAMMENI])
  {
    hide SpacedFolding, SelfFolding, Faithful;
    GreekIsFaithful();
    forall casefold, c
      ensures SpacedFolding(GREEK, casefold, c) <==> c == YPOGEGRAMMENI
      ensures !GREEK.isSpace(c) ==> GREEK.fold(casefold, c) != []
    {
      GreekFolds(casefold, c);
    }
    forall casefold ensures SelfFolding(GREEK, casefold, GREEK.fold(casefold, YPOGEGRAMMENI)[1..]) {
      GreekTailsFold(casefold);
    }
    GreekTailsFold(true);
    GreekFolds(true, YPOGEGRAMMENI);
    GreekFolds(false, YPOGEGRAMMENI);
  }
}
