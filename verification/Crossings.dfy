/**
 * Which manuscripts still have text joined across an omitted page after the
 * split (backend/app/checks/semantic.py, lines 154-172 and 231-256).
 */
module Crossings {
  import opened Wrappers
  import opened SourceText
  import opened Scopes

  /** Somewhere in the result two blocks of one scope lie on two sides of an omitted page. */
  ghost predicate SomethingCrosses(pages: seq<int>, scopes: seq<Scope>) {
    exists s, i, j :: CrossesIn(pages, scopes, s, i, j)
  }

  ghost predicate CrossesIn(pages: seq<int>, scopes: seq<Scope>, s: int, i: int, j: int) {
    0 <= s < |scopes| && Crosses(pages, scopes[s], i, j)
  }

  // ----- Places in the flattened text

  function Offset(scopes: seq<Scope>, n: nat): nat
    requires n <= |scopes|
  {
    |Flatten(scopes[..n])|
  }

  lemma OffsetNext(scopes: seq<Scope>, n: nat)
    requires n < |scopes|
    ensures Offset(scopes, n + 1) == Offset(scopes, n) + |scopes[n]|
    ensures Flatten(scopes[..n + 1]) == Flatten(scopes[..n]) + scopes[n]
  {
    assert scopes[..n + 1][..n] == scopes[..n];
  }

  lemma {:induction false} OffsetsAscend(scopes: seq<Scope>, m: nat, n: nat)
    requires m <= n <= |scopes|
    ensures Offset(scopes, m) <= Offset(scopes, n)
    decreases n
  {
    hide Offset;
    if m < n {
      OffsetNext(scopes, n - 1);
      OffsetsAscend(scopes, m, n - 1);
    }
  }

  /** Block i of scope n stands at its place in the flattened text. */
  lemma {:induction false} PlaceOf(scopes: seq<Scope>, n: nat, i: nat)
    requires n < |scopes| && i < |scopes[n]|
    ensures Offset(scopes, n) + i < |Flatten(scopes)|
    ensures Flatten(scopes)[Offset(scopes, n) + i] == scopes[n][i]
  {
    var last := |scopes| - 1;
    var before := scopes[..last];
    if n < last {
      PlaceOf(before, n, i);
      assert before[..n] == scopes[..n];
    }
  }

  /** Every place belongs to a scope. */
  lemma {:induction false} ScopeAt(scopes: seq<Scope>, g: nat) returns (n: nat)
    requires g < |Flatten(scopes)|
    ensures n < |scopes| && Offset(scopes, n) <= g < Offset(scopes, n + 1)
  {
    var last := |scopes| - 1;
    OffsetNext(scopes, last);
    assert scopes[..last + 1] == scopes;
    if g >= Offset(scopes, last) {
      n := last;
    } else {
      n := ScopeAt(scopes[..last], g);
      assert scopes[..last][..n] == scopes[..n] && scopes[..last][..n + 1] == scopes[..n + 1];
    }
  }

  // ----- What joins two blocks

  /** No forward step over an omitted page between neighbours on the way from block i to block j. */
  ghost predicate Uncut(pages: seq<int>, scope: Scope, i: int, j: int) {
    forall k :: 0 <= i < k <= j < |scope| ==> !Cuts(pages, scope[k - 1], scope[k])
  }

  /** Only blocks without a page, or of omitted pages, stand between. */
  ghost predicate OnlyUnreadBetween(pages: seq<int>, scope: Scope, i: int, j: int) {
    forall k :: 0 <= i < k < j < |scope| && scope[k].page.Some? ==> scope[k].page.value in pages
  }

  /** Two blocks of one scope that the loop leaves joined across an omitted page. */
  ghost predicate Bridged(pages: seq<int>, scopes: seq<Scope>, s: int, i: int, j: int) {
    CrossesIn(pages, scopes, s, i, j) && Uncut(pages, scopes[s], i, j) && OnlyUnreadBetween(pages, scopes[s], i, j)
  }

  /** Among blocks that cross, the closest ones have nothing read between them. */
  lemma {:induction false} ClosestCrossing(pages: seq<int>, scope: Scope, i: nat, j: nat) returns (a: nat, b: nat)
    requires Crosses(pages, scope, i, j)
    ensures i <= a < b <= j && Crosses(pages, scope, a, b) && OnlyUnreadBetween(pages, scope, a, b)
    decreases j - i
  {
    a, b := i, j;
    if !OnlyUnreadBetween(pages, scope, i, j) {
      var k :| i < k < j && scope[k].page.Some? && scope[k].page.value !in pages;
      if Crosses(pages, scope, i, k) {
        a, b := ClosestCrossing(pages, scope, i, k);
      } else {
        OneSideCrosses(pages, scope, i, k, j);
        a, b := ClosestCrossing(pages, scope, k, j);
      }
    }
  }

  lemma OneSideCrosses(pages: seq<int>, scope: Scope, i: nat, k: nat, j: nat)
    requires i < k < j && Crosses(pages, scope, i, j) && scope[k].page.Some? && scope[k].page.value !in pages
    ensures Crosses(pages, scope, i, k) || Crosses(pages, scope, k, j)
  {
    var x, y, z := scope[i].page.value, scope[k].page.value, scope[j].page.value;
    if Between(pages, x, z) {
      var p :| p in pages && x < p < z;
      assert p != y;
    } else {
      var p :| p in pages && z < p < x;
      assert p != y;
    }
  }

  // ----- From the result to the input and back

  /** Blocks of one piece were blocks of one scope, with the same blocks between them. */
  lemma PieceLiesInScope(scopes: seq<Scope>, pages: seq<int>, split: seq<Scope>, p: nat, i: nat, j: nat)
    returns (s: nat, a: nat)
    requires IsSplit(scopes, pages, split) && p < |split| && i <= j < |split[p]|
    ensures s < |scopes| && a + (j - i) < |scopes[s]| && scopes[s][a..a + (j - i) + 1] == split[p][i..j + 1]
  {
    hide Offset, Justified;
    var start := Offset(split, p) + i;
    PlaceOf(split, p, i);
    s := ScopeAt(scopes, start);
    a := start - Offset(scopes, s);
    OffsetNext(scopes, s);
    OffsetNext(split, p);
    if Offset(scopes, s + 1) <= Offset(split, p) + j {
      var m := PieceOfStart(scopes, pages, split, s + 1);
      if m <= p {
        OffsetsAscend(split, m, p);
      } else {
        OffsetsAscend(split, p + 1, m);
      }
      assert false;
    }
    SameBlocks(scopes, split, s, a, p, i, j - i + 1);
  }

  lemma PieceOfStart(scopes: seq<Scope>, pages: seq<int>, split: seq<Scope>, n: nat) returns (m: nat)
    requires IsSplit(scopes, pages, split) && n <= |scopes|
    ensures m <= |split| && Offset(split, m) == Offset(scopes, n)
  {
    assert StartsAPiece(scopes, split, n);
    var i :| 0 <= i <= |split| && Flatten(split[..i]) == Flatten(scopes[..n]);
    m := i;
  }

  /** The same places of the flattened text hold the same blocks. */
  lemma SameBlocks(scopes: seq<Scope>, split: seq<Scope>, s: nat, a: nat, p: nat, i: nat, n: nat)
    requires Flatten(split) == Flatten(scopes) && s < |scopes| && p < |split|
    requires a + n <= |scopes[s]| && i + n <= |split[p]|
    requires Offset(scopes, s) + a == Offset(split, p) + i
    ensures scopes[s][a..a + n] == split[p][i..i + n]
  {
    hide Offset, Flatten;
    var x, y := scopes[s][a..a + n], split[p][i..i + n];
    forall k | 0 <= k < n ensures x[k] == y[k] {
      SameBlock(scopes, split, s, a + k, p, i + k);
    }
  }

  lemma SameBlock(scopes: seq<Scope>, split: seq<Scope>, s: nat, a: nat, p: nat, i: nat)
    requires Flatten(split) == Flatten(scopes) && s < |scopes| && p < |split| && a < |scopes[s]| && i < |split[p]|
    requires Offset(scopes, s) + a == Offset(split, p) + i
    ensures scopes[s][a] == split[p][i]
  {
    hide Offset, Flatten;
    PlaceOf(scopes, s, a);
    PlaceOf(split, p, i);
  }

  /** Blocks of one scope without a cut between them are in one piece. */
  lemma UncutStaysInPiece(scopes: seq<Scope>, pages: seq<int>, split: seq<Scope>, s: nat, i: nat, j: nat)
    returns (p: nat, a: nat)
    requires IsSplit(scopes, pages, split) && s < |scopes| && i <= j < |scopes[s]| && Uncut(pages, scopes[s], i, j)
    ensures p < |split| && a + (j - i) < |split[p]| && split[p][a..a + (j - i) + 1] == scopes[s][i..j + 1]
  {
    hide Offset, Cuts, IsSplit, Flatten;
    var start := Offset(scopes, s) + i;
    assert Flatten(split) == Flatten(scopes) by { SplitFlattens(scopes, pages, split); }
    PlaceOf(scopes, s, i);
    p := ScopeAt(split, start);
    a := start - Offset(split, p);
    OffsetNext(scopes, s);
    OffsetNext(split, p);
    if Offset(split, p + 1) <= Offset(scopes, s) + j {
      NoBoundaryInside(scopes, pages, split, s, i, j, p + 1);
      assert false;
    }
    SameBlocks(scopes, split, s, i, p, a, j - i + 1);
  }

  lemma SplitFlattens(scopes: seq<Scope>, pages: seq<int>, split: seq<Scope>)
    requires IsSplit(scopes, pages, split)
    ensures Flatten(split) == Flatten(scopes)
  {
  }

  lemma NoBoundaryInside(scopes: seq<Scope>, pages: seq<int>, split: seq<Scope>, s: nat, i: nat, j: nat, q: nat)
    requires IsSplit(scopes, pages, split) && s < |scopes| && i <= j < |scopes[s]| && Uncut(pages, scopes[s], i, j)
    requires 0 < q <= |split|
    ensures !(Offset(scopes, s) + i < Offset(split, q) <= Offset(scopes, s) + j)
  {
    hide Offset, Cuts, IsSplit, Flatten;
    var g := Offset(split, q);
    if Offset(scopes, s) + i < g <= Offset(scopes, s) + j {
      PlaceOf(scopes, s, j);
      OffsetNext(scopes, s);
      SplitFlattens(scopes, pages, split);
      if q == |split| {
        EndIsEnd(split);
      } else if MeetAtCut(pages, split, q) {
        var k := g - Offset(scopes, s);
        CutIsBetweenNeighbours(scopes, split, pages, s, k, q);
      } else {
        StartInside(scopes, pages, split, s, g, q);
      }
    }
  }

  lemma EndIsEnd(split: seq<Scope>)
    ensures Offset(split, |split|) == |Flatten(split)|
  {
    assert split[..|split|] == split;
  }

  lemma CutIsBetweenNeighbours(scopes: seq<Scope>, split: seq<Scope>, pages: seq<int>, s: nat, k: nat, q: nat)
    requires Flatten(split) == Flatten(scopes) && s < |scopes| && 0 < k < |scopes[s]| && MeetAtCut(pages, split, q)
    requires Offset(split, q) == Offset(scopes, s) + k
    ensures Cuts(pages, scopes[s][k - 1], scopes[s][k])
  {
    hide Offset, Cuts, Flatten;
    OffsetNext(split, q - 1);
    PlaceOf(split, q - 1, |split[q - 1]| - 1);
    PlaceOf(split, q, 0);
    PlaceOf(scopes, s, k - 1);
    PlaceOf(scopes, s, k);
  }

  /** A boundary that is no cut is an original start, so it is not inside a scope. */
  lemma StartInside(scopes: seq<Scope>, pages: seq<int>, split: seq<Scope>, s: nat, g: nat, q: nat)
    requires IsSplit(scopes, pages, split) && s < |scopes| && 0 < q < |split| && !MeetAtCut(pages, split, q)
    requires g == Offset(split, q)
    ensures !(Offset(scopes, s) < g < Offset(scopes, s + 1))
  {
    assert Justified(scopes, pages, split, q);
    var n :| 0 <= n <= |scopes| && g == |Flatten(scopes[..n])|;
    hide Offset, Flatten;
    assert g == Offset(scopes, n);
    if n <= s {
      OffsetsAscend(scopes, n, s);
    } else {
      OffsetsAscend(scopes, s + 1, n);
    }
  }

  // ----- Main results

  /** Whether two blocks cross, and what stands between them, depends on that stretch alone. */
  lemma SameStretch(pages: seq<int>, x: Scope, y: Scope, i: nat, a: nat, n: nat)
    requires i + n < |x| && a + n < |y| && x[i..i + n + 1] == y[a..a + n + 1]
    ensures Crosses(pages, x, i, i + n) <==> Crosses(pages, y, a, a + n)
    ensures Unbroken(pages, x) ==> Uncut(pages, y, a, a + n)
    ensures OnlyUnreadBetween(pages, x, i, i + n) ==> OnlyUnreadBetween(pages, y, a, a + n)
  {
    hide Cuts, Between;
    var stretch := x[i..i + n + 1];
    assert forall k :: 0 <= k <= n ==> stretch[k] == x[i + k];
    assert forall k :: a <= k <= a + n ==> stretch[k - a] == y[k];
  }

  /**
   * Exactly which inputs leave text joined across an omitted page: two blocks
   * of one scope on two sides of it, in either order, with only pageless or
   * omitted blocks between them and no cut on the way. Nothing is assumed of
   * the blocks' pages.
   */
  lemma CrossesExactlyWhereBridged(scopes: seq<Scope>, pages: seq<int>, split: seq<Scope>)
    requires IsSplit(scopes, pages, split)
    ensures SomethingCrosses(pages, split) <==> exists s, i, j :: Bridged(pages, scopes, s, i, j)
  {
    if p, x, y :| CrossesIn(pages, split, p, x, y) {
      var s, i, j := CrossingComesFromInput(scopes, pages, split, p, x, y);
    }
    if s, i, j :| Bridged(pages, scopes, s, i, j) {
      BridgeStays(scopes, pages, split, s, i, j);
    }
  }

  lemma CrossingComesFromInput(scopes: seq<Scope>, pages: seq<int>, split: seq<Scope>, p: nat, x: nat, y: nat)
    returns (s: nat, i: nat, j: nat)
    requires IsSplit(scopes, pages, split) && CrossesIn(pages, split, p, x, y)
    ensures Bridged(pages, scopes, s, i, j)
  {
    hide Cuts, Justified, StartsAPiece, Flatten, Between;
    var a, b := ClosestCrossing(pages, split[p], x, y);
    s, i := PieceLiesInScope(scopes, pages, split, p, a, b);
    j := i + (b - a);
    SameStretch(pages, split[p], scopes[s], a, i, b - a);
  }

  lemma BridgeStays(scopes: seq<Scope>, pages: seq<int>, split: seq<Scope>, s: nat, i: nat, j: nat)
    requires IsSplit(scopes, pages, split) && Bridged(pages, scopes, s, i, j)
    ensures SomethingCrosses(pages, split)
  {
    hide Cuts, IsSplit, Between;
    var p, a := UncutStaysInPiece(scopes, pages, split, s, i, j);
    SameStretch(pages, scopes[s], split[p], i, a, j - i);
    assert CrossesIn(pages, split, p, a, a + (j - i));
  }

  /** A scope steps back across an omitted page from one block to the next. */
  ghost predicate StepsBackIn(pages: seq<int>, scopes: seq<Scope>, s: int, k: int) {
    0 <= s < |scopes| && StepsBack(pages, scopes[s], k)
  }

  /**
   * With a page on every block, and the blocks of omitted pages left out:
   * exactly where a scope of the input steps back across an omitted page.
   */
  lemma CrossesExactlyWhereInputStepsBack(scopes: seq<Scope>, pages: seq<int>, split: seq<Scope>)
    requires IsSplit(scopes, pages, split) && Sorted(pages) && OnReadPages(pages, Flatten(scopes))
    ensures SomethingCrosses(pages, split) <==> exists s, k :: StepsBackIn(pages, scopes, s, k)
  {
    hide IsSplit, Cuts;
    CrossesExactlyWhereBridged(scopes, pages, split);
    if s, i, j :| Bridged(pages, scopes, s, i, j) {
      BridgeStepsBack(pages, scopes, s, i, j);
    }
    if s, k :| StepsBackIn(pages, scopes, s, k) {
      StepBackBridges(pages, scopes, s, k);
    }
  }

  lemma ReadScope(pages: seq<int>, scopes: seq<Scope>, s: nat, i: nat)
    requires OnReadPages(pages, Flatten(scopes)) && s < |scopes| && i < |scopes[s]|
    ensures scopes[s][i].page.Some? && scopes[s][i].page.value !in pages
  {
    PlaceOf(scopes, s, i);
    assert scopes[s][i] in Flatten(scopes);
  }

  lemma BridgeStepsBack(pages: seq<int>, scopes: seq<Scope>, s: nat, i: nat, j: nat)
    requires Sorted(pages) && OnReadPages(pages, Flatten(scopes)) && Bridged(pages, scopes, s, i, j)
    ensures StepsBackIn(pages, scopes, s, j)
  {
    hide Cuts, Flatten;
    if i + 1 < j {
      ReadScope(pages, scopes, s, i + 1);
      assert false;
    }
    CutsExactlyAcrossAnOmittedPage(pages, scopes[s][j - 1], scopes[s][j]);
  }

  lemma StepBackBridges(pages: seq<int>, scopes: seq<Scope>, s: nat, k: nat)
    requires Sorted(pages) && StepsBackIn(pages, scopes, s, k)
    ensures Bridged(pages, scopes, s, k - 1, k)
  {
    hide Cuts;
    CutsExactlyAcrossAnOmittedPage(pages, scopes[s][k - 1], scopes[s][k]);
    assert Crosses(pages, scopes[s], k - 1, k);
  }

  /** The pages of every scope never decrease. */
  ghost predicate InPageOrder(scopes: seq<Scope>) {
    forall s, k :: 0 <= s < |scopes| && 0 < k < |scopes[s]| && scopes[s][k - 1].page.Some? && scopes[s][k].page.Some?
      ==> scopes[s][k - 1].page.value <= scopes[s][k].page.value
  }

  /** So a manuscript read in page order is never joined across an omitted page. */
  lemma NothingCrossesInPageOrder(scopes: seq<Scope>, pages: seq<int>, split: seq<Scope>)
    requires IsSplit(scopes, pages, split) && Sorted(pages) && OnReadPages(pages, Flatten(scopes)) && InPageOrder(scopes)
    ensures !SomethingCrosses(pages, split)
  {
    hide IsSplit;
    CrossesExactlyWhereInputStepsBack(scopes, pages, split);
  }
}
