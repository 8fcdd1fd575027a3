/**
 * The rendering-insensitive index of a layout text: every character is
 * normalised on its own, spaces survive only between two letters or digits,
 * and each folded character remembers which source character it came from
 * (backend/app/checks/semantic.py, lines 412-438).
 */
module Folding {
  import opened SourceText

  /** What the loop carries: is a space pending, and did the output end in a letter or digit? */
  datatype State = State(pending: bool, afterAlnum: bool)

  const FRESH := State(false, false)

  /** Does this character's folding get a space put before it? */
  predicate Separated(u: Unicode, casefold: bool, c: char, st: State) {
    && !u.isSpace(c) && u.fold(casefold, c) != []
    && st.pending && st.afterAlnum && u.isAlnum(u.fold(casefold, c)[0])
  }

  /** The folded characters one source character adds. */
  function Piece(u: Unicode, casefold: bool, c: char, st: State): string {
    if u.isSpace(c) then []
    else if Separated(u, casefold, c, st) then [' '] + u.fold(casefold, c)
    else u.fold(casefold, c)
  }

  function Next(u: Unicode, casefold: bool, c: char, st: State): State {
    if u.isSpace(c) then State(true, st.afterAlnum)
    else
      var normalized := u.fold(casefold, c);
      if normalized == [] then st else State(false, u.isAlnum(normalized[|normalized| - 1]))
  }

  /** The folding of `s`, begun in state `st`. */
  function Chars(u: Unicode, casefold: bool, s: string, st: State): string {
    if s == [] then []
    else Piece(u, casefold, s[0], st) + Chars(u, casefold, s[1..], Next(u, casefold, s[0], st))
  }

  function Repeat(n: nat, pos: nat): (r: seq<nat>)
    ensures |r| == n && forall k :: 0 <= k < n ==> r[k] == pos
  {
    if n == 0 then [] else Repeat(n - 1, pos) + [pos]
  }

  /** For each character of that folding the index of its source, `s` starting at index `base`. */
  function Positions(u: Unicode, casefold: bool, s: string, base: nat, st: State): (r: seq<nat>)
    ensures |r| == |Chars(u, casefold, s, st)|
    decreases s
  {
    if s == [] then []
    else
      Repeat(|Piece(u, casefold, s[0], st)|, base)
      + Positions(u, casefold, s[1..], base + 1, Next(u, casefold, s[0], st))
  }

  function After(u: Unicode, casefold: bool, s: string, st: State): State {
    if s == [] then st else After(u, casefold, s[1..], Next(u, casefold, s[0], st))
  }

  function FoldText(u: Unicode, casefold: bool, text: string): string {
    Chars(u, casefold, text, FRESH)
  }

  function FoldPositions(u: Unicode, casefold: bool, text: string): (r: seq<nat>)
    ensures |r| == |FoldText(u, casefold, text)|
  {
    Positions(u, casefold, text, 0, FRESH)
  }

  predicate EndsAlnum(u: Unicode, folded: string) {
    folded != [] && u.isAlnum(folded[|folded| - 1])
  }

  predicate BeginsAlnum(u: Unicode, folded: string) {
    folded != [] && u.isAlnum(folded[0])
  }

  /** The string could begin with a separator: a space, and a letter or digit if anything follows. */
  predicate BeginsSeparated(u: Unicode, key: string) {
    key != [] && key[0] == ' ' && (|key| == 1 || u.isAlnum(key[1]))
  }

  /** The loop of `_folded_index`. */
  method FoldedIndex(u: Unicode, text: string, casefold: bool) returns (folded: string, positions: seq<nat>)
    ensures folded == FoldText(u, casefold, text)
    ensures positions == FoldPositions(u, casefold, text)
  {
    NothingFolded(u, casefold, text);
    hide Chars, Positions, After;
    folded, positions := [], [];
    var pendingSpace := false;
    for n := 0 to |text|
      invariant folded == Chars(u, casefold, text[..n], FRESH)
      invariant positions == Positions(u, casefold, text[..n], 0, FRESH)
      invariant State(pendingSpace, EndsAlnum(u, folded)) == After(u, casefold, text[..n], FRESH)
    {
      var c := text[n];
      ghost var st := State(pendingSpace, EndsAlnum(u, folded));
      OneMore(u, casefold, text, n);
      if u.isSpace(c) {
        pendingSpace := true;
      } else {
        var normalized := u.fold(casefold, c);
        if normalized != [] {
          var separated := pendingSpace && EndsAlnum(u, folded) && u.isAlnum(normalized[0]);
          if separated {
            folded, positions := folded + [' '], positions + [n];
          }
          pendingSpace := false;
          folded, positions := folded + normalized, positions + Repeat(|normalized|, n);
        }
      }
    }
    assert text[..|text|] == text;
  }

  lemma NothingFolded(u: Unicode, casefold: bool, text: string)
    ensures Chars(u, casefold, text[..0], FRESH) == [] && Positions(u, casefold, text[..0], 0, FRESH) == []
    ensures After(u, casefold, text[..0], FRESH) == FRESH
  {
  }

  // ----- Folding a concatenation

  lemma {:induction false} CharsSplit(u: Unicode, casefold: bool, a: string, b: string, st: State)
    ensures Chars(u, casefold, a + b, st)
         == Chars(u, casefold, a, st) + Chars(u, casefold, b, After(u, casefold, a, st))
    ensures After(u, casefold, a + b, st) == After(u, casefold, b, After(u, casefold, a, st))
  {
    if a == [] {
      assert a + b == b;
    } else {
      assert (a + b)[1..] == a[1..] + b;
      CharsSplit(u, casefold, a[1..], b, Next(u, casefold, a[0], st));
    }
  }

  lemma {:induction false} PositionsSplit(u: Unicode, casefold: bool, a: string, b: string, base: nat, st: State)
    ensures Positions(u, casefold, a + b, base, st)
         == Positions(u, casefold, a, base, st)
          + Positions(u, casefold, b, base + |a|, After(u, casefold, a, st))
  {
    hide Positions, After, Next, Piece, Chars, Repeat;
    if a == [] {
      assert a + b == b;
      NoPositions(u, casefold, base, st);
    } else {
      var next := Next(u, casefold, a[0], st);
      PositionsUnfold(u, casefold, a, base, st);
      PositionsUnfold(u, casefold, a + b, base, st);
      assert (a + b)[1..] == a[1..] + b && (a + b)[0] == a[0];
      PositionsSplit(u, casefold, a[1..], b, base + 1, next);
      Regroup(Repeat(|Piece(u, casefold, a[0], st)|, base), Positions(u, casefold, a[1..], base + 1, next),
              Positions(u, casefold, b, base + |a|, After(u, casefold, a, st)));
    }
  }

  lemma NoPositions(u: Unicode, casefold: bool, base: nat, st: State)
    ensures Positions(u, casefold, [], base, st) == [] && After(u, casefold, [], st) == st
  {
  }

  lemma Regroup(p: seq<nat>, q: seq<nat>, r: seq<nat>)
    ensures p + (q + r) == p + q + r
  {
  }

  lemma PositionsUnfold(u: Unicode, casefold: bool, s: string, base: nat, st: State)
    requires s != []
    ensures var next := Next(u, casefold, s[0], st);
            && Positions(u, casefold, s, base, st)
               == Repeat(|Piece(u, casefold, s[0], st)|, base) + Positions(u, casefold, s[1..], base + 1, next)
            && After(u, casefold, s, st) == After(u, casefold, s[1..], next)
  {
  }

  lemma OneMore(u: Unicode, casefold: bool, text: string, n: nat)
    requires n < |text|
    ensures var st := After(u, casefold, text[..n], FRESH);
            var piece := Piece(u, casefold, text[n], st);
            && Chars(u, casefold, text[..n + 1], FRESH) == Chars(u, casefold, text[..n], FRESH) + piece
            && Positions(u, casefold, text[..n + 1], 0, FRESH)
               == Positions(u, casefold, text[..n], 0, FRESH) + Repeat(|piece|, n)
            && After(u, casefold, text[..n + 1], FRESH) == Next(u, casefold, text[n], st)
  {
    hide Piece, Next;
    assert text[..n + 1] == text[..n] + [text[n]];
    CharsSplit(u, casefold, text[..n], [text[n]], FRESH);
    PositionsSplit(u, casefold, text[..n], [text[n]], 0, FRESH);
  }

  // ----- Where folded characters come from

  /**
   * Positions lie in the text, never decrease, and never name a whitespace
   * character.
   */
  ghost predicate Aligned(u: Unicode, s: string, base: nat, ps: seq<nat>) {
    && (forall k :: 0 <= k < |ps| ==> base <= ps[k] < base + |s| && !u.isSpace(s[ps[k] - base]))
    && (forall j, k :: 0 <= j < k < |ps| ==> ps[j] <= ps[k])
  }

  lemma {:induction false} PositionsAlign(u: Unicode, casefold: bool, s: string, base: nat, st: State)
    ensures Aligned(u, s, base, Positions(u, casefold, s, base, st))
    decreases s
  {
    if s != [] {
      PositionsAlign(u, casefold, s[1..], base + 1, Next(u, casefold, s[0], st));
      AlignedStep(u, s, base, |Piece(u, casefold, s[0], st)|,
                  Positions(u, casefold, s[1..], base + 1, Next(u, casefold, s[0], st)));
    }
  }

  ghost predicate Within(ps: seq<nat>, lo: nat, hi: nat) {
    forall k :: 0 <= k < |ps| ==> lo <= ps[k] < hi
  }

  lemma PositionsWithin(u: Unicode, casefold: bool, s: string, base: nat, st: State)
    ensures Within(Positions(u, casefold, s, base, st), base, base + |s|)
  {
    hide Chars, Positions, After;
    PositionsAlign(u, casefold, s, base, st);
  }

  lemma AlignedStep(u: Unicode, s: string, base: nat, n: nat, rest: seq<nat>)
    requires s != [] && (n > 0 ==> !u.isSpace(s[0]))
    requires Aligned(u, s[1..], base + 1, rest)
    ensures Aligned(u, s, base, Repeat(n, base) + rest)
  {
    var ps := Repeat(n, base) + rest;
    forall k | 0 <= k < |ps|
      ensures base <= ps[k] < base + |s| && !u.isSpace(s[ps[k] - base])
      ensures if k < n then ps[k] == base else ps[k] == rest[k - n] > base
    {
      if k >= n {
        assert s[1..][rest[k - n] - (base + 1)] == s[ps[k] - base];
      }
    }
  }

  // ----- Folding a piece of a text

  /**
   * What came before a piece can change its folding in one way only: a
   * separator may stand in front, and then a letter or digit follows it.
   */
  lemma {:induction false} CharsForget(u: Unicode, casefold: bool, s: string, st: State, st': State)
    requires !st'.afterAlnum && (st'.pending ==> st.pending)
    ensures var fs, fs' := Chars(u, casefold, s, st), Chars(u, casefold, s, st');
            fs == fs' || (fs == [' '] + fs' && BeginsAlnum(u, fs'))
    decreases s
  {
    if s != [] {
      hide Chars;
      CharsUnfold(u, casefold, s, st);
      CharsUnfold(u, casefold, s, st');
      var n, n' := Next(u, casefold, s[0], st), Next(u, casefold, s[0], st');
      if u.isSpace(s[0]) || u.fold(casefold, s[0]) == [] {
        CharsForget(u, casefold, s[1..], n, n');
      } else {
        var rest := Chars(u, casefold, s[1..], n);
        var chunk := u.fold(casefold, s[0]);
        assert [' '] + chunk + rest == [' '] + (chunk + rest);
      }
    }
  }

  lemma CharsUnfold(u: Unicode, casefold: bool, s: string, st: State)
    requires s != []
    ensures Chars(u, casefold, s, st)
         == Piece(u, casefold, s[0], st) + Chars(u, casefold, s[1..], Next(u, casefold, s[0], st))
  {
  }

  /**
   * Folding the middle of a text on its own gives a contiguous part of the
   * whole folding: all that comes from the middle, less at most one
   * separator at its front.
   */
  lemma MiddleFolds(u: Unicode, casefold: bool, x: string, y: string, z: string)
    returns (before: string, sep: string, after: string)
    ensures before == Chars(u, casefold, x, FRESH)
    ensures sep == [] || (sep == [' '] && BeginsAlnum(u, FoldText(u, casefold, y)))
    ensures sep + FoldText(u, casefold, y) == Chars(u, casefold, y, After(u, casefold, x, FRESH))
    ensures FoldText(u, casefold, x + (y + z)) == before + (sep + FoldText(u, casefold, y)) + after
  {
    hide Chars, Positions, After;
    var st := After(u, casefold, x, FRESH);
    before := Chars(u, casefold, x, FRESH);
    after := Chars(u, casefold, z, After(u, casefold, y, st));
    CharsForget(u, casefold, y, st, FRESH);
    var middle := Chars(u, casefold, y, st);
    sep := if middle == FoldText(u, casefold, y) then [] else [' '];
    assert sep + FoldText(u, casefold, y) == middle;
    CharsSplit(u, casefold, x, y + z, FRESH);
    CharsSplit(u, casefold, y, z, st);
    assert before + (middle + after) == before + middle + after;
  }

  /** In the whole index, what comes from the middle has its positions there. */
  lemma MiddlePositions(u: Unicode, casefold: bool, x: string, y: string, z: string)
    ensures var n := |Chars(u, casefold, x, FRESH)|;
            var m := |Chars(u, casefold, y, After(u, casefold, x, FRESH))|;
            Parted(FoldPositions(u, casefold, x + (y + z)), n, n + m, |x|, |x| + |y|)
  {
    hide Chars, Positions, After;
    var st := After(u, casefold, x, FRESH);
    var st' := After(u, casefold, y, st);
    PositionsInThirds(u, casefold, x, y, z);
    PositionsWithin(u, casefold, x, 0, FRESH);
    PositionsWithin(u, casefold, z, |x| + |y|, st');
    Thirds(Positions(u, casefold, x, 0, FRESH), Positions(u, casefold, y, |x|, st),
           Positions(u, casefold, z, |x| + |y|, st'), |x|, |x| + |y|, |x| + |y| + |z|);
  }

  lemma PositionsInThirds(u: Unicode, casefold: bool, x: string, y: string, z: string)
    ensures FoldPositions(u, casefold, x + (y + z))
         == Positions(u, casefold, x, 0, FRESH)
          + (Positions(u, casefold, y, |x|, After(u, casefold, x, FRESH))
             + Positions(u, casefold, z, |x| + |y|, After(u, casefold, y, After(u, casefold, x, FRESH))))
  {
    hide Chars, Positions, After;
    var st := After(u, casefold, x, FRESH);
    var rest := Positions(u, casefold, y + z, |x|, st);
    assert FoldPositions(u, casefold, x + (y + z)) == Positions(u, casefold, x, 0, FRESH) + rest by {
      PositionsSplit(u, casefold, x, y + z, 0, FRESH);
    }
    assert rest == Positions(u, casefold, y, |x|, st)
                 + Positions(u, casefold, z, |x| + |y|, After(u, casefold, y, st)) by {
      PositionsSplit(u, casefold, y, z, |x|, st);
    }
  }

  /** Below index n all positions are under `a`; from index m on none is under `b`. */
  ghost predicate Parted(ps: seq<nat>, n: nat, m: nat, a: nat, b: nat) {
    && n <= m <= |ps|
    && (forall k :: 0 <= k < n ==> ps[k] < a)
    && (forall k :: m <= k < |ps| ==> b <= ps[k])
  }

  lemma Thirds(p: seq<nat>, q: seq<nat>, r: seq<nat>, a: nat, b: nat, c: nat)
    requires Within(p, 0, a) && Within(r, b, c)
    ensures Parted(p + (q + r), |p|, |p| + |q|, a, b)
  {
    var ps := p + (q + r);
    forall k | |p| + |q| <= k < |ps|
      ensures b <= ps[k]
    {
      assert ps[k] == r[k - |p| - |q|];
    }
  }

  /**
   * The heart of excerpt soundness. A match of the folded index, taken back
   * to the source characters behind its first and last folded characters,
   * and possibly widened on either side, gives a slice whose own folding
   * contains what was matched; only a leading space of the match can be
   * lost, when it looks like a separator and the slice begins behind one.
   */
  lemma MatchSurvivesSlicing(u: Unicode, casefold: bool, text: string, key: string, found: nat, a: nat, b: nat)
    requires key != [] && At(FoldText(u, casefold, text), key, found)
    requires var ps := FoldPositions(u, casefold, text);
             a <= ps[found] <= ps[found + |key| - 1] < b <= |text|
    ensures Contains(FoldText(u, casefold, text[a..b]), key[1..])
    ensures !BeginsSeparated(u, key) ==> Contains(FoldText(u, casefold, text[a..b]), key)
  {
    hide Chars, Positions, After;
    var before, sep, after := MiddleFolds(u, casefold, text[..a], text[a..b], text[b..]);
    assert text == text[..a] + (text[a..b] + text[b..]);
    MiddlePositions(u, casefold, text[..a], text[a..b], text[b..]);
    var own := FoldText(u, casefold, text[a..b]);
    Cut(u, before, sep, own, after, key, found);
  }

  /** The same on strings alone: a match inside sep + own. */
  lemma Cut(u: Unicode, before: string, sep: string, own: string, after: string, key: string, found: nat)
    requires sep == [] || (sep == [' '] && BeginsAlnum(u, own))
    requires key != [] && At(before + (sep + own) + after, key, found)
    requires |before| <= found && found + |key| <= |before| + |sep| + |own|
    ensures Contains(own, key[1..])
    ensures !BeginsSeparated(u, key) ==> Contains(own, key)
  {
    var middle, at := sep + own, found - |before|;
    AtInside(before, middle, after, key, found);
    if at < |sep| {
      assert middle[0..|key|][0] == ' ';
      AtLater(middle, key, 0);
      assert At(own, key[1..], 0) by {
        assert middle[1..1 + |key[1..]|] == own[0..|key[1..]|];
      }
      assert |key| > 1 ==> middle[0..|key|][1] == own[0];
    } else {
      assert At(own, key, at - |sep|) by {
        assert middle[at..at + |key|] == own[at - |sep|..at - |sep| + |key|];
      }
      AtLater(own, key, at - |sep|);
    }
  }

  lemma AtInside(before: string, middle: string, after: string, key: string, found: nat)
    requires At(before + middle + after, key, found)
    requires |before| <= found && found + |key| <= |before| + |middle|
    ensures At(middle, key, found - |before|)
  {
    var n := |before|;
    assert (before + middle + after)[found..found + |key|] == middle[found - n..found - n + |key|];
  }

  lemma AtLater(text: string, key: string, i: int)
    requires key != [] && At(text, key, i)
    ensures At(text, key[1..], i + 1)
  {
    assert text[i + 1..i + |key|] == text[i..i + |key|][1..];
  }
}
