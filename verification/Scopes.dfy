/**
 * Splitting the graded text at omitted pages, so that no quotation can join
 * words across one (backend/app/checks/semantic.py, lines 154-172 and 231-256).
 */
module Scopes {
  import opened Wrappers
  import opened SourceText

  type Scope = seq<Block>

  ghost predicate Sorted(pages: seq<int>) {
    forall i, j :: 0 <= i < j < |pages| ==> pages[i] <= pages[j]
  }

  /** bisect_right: how many entries of the sorted list are at most x, by halving. */
  function BisectRight(pages: seq<int>, x: int, lo: nat, hi: nat): (r: nat)
    requires lo <= hi <= |pages|
    ensures lo <= r <= hi
    ensures Sorted(pages) && (forall i :: 0 <= i < lo ==> pages[i] <= x)
            && (forall i :: hi <= i < |pages| ==> x < pages[i]) ==>
              (forall i :: 0 <= i < r ==> pages[i] <= x) && (forall i :: r <= i < |pages| ==> x < pages[i])
    decreases hi - lo
  {
    if lo == hi then lo
    else
      var mid := (lo + hi) / 2;
      if x < pages[mid] then BisectRight(pages, x, lo, mid) else BisectRight(pages, x, mid + 1, hi)
  }

  /** The test of the loop: more listed pages up to just before `block` than up to `last`. */
  predicate Cuts(pages: seq<int>, last: Block, block: Block) {
    && last.page.Some? && block.page.Some?
    && BisectRight(pages, block.page.value - 1, 0, |pages|) > BisectRight(pages, last.page.value, 0, |pages|)
  }

  /** A listed page lies strictly between two page numbers. */
  ghost predicate Between(pages: seq<int>, a: int, b: int) {
    exists p :: p in pages && a < p < b
  }

  lemma CutsExactlyAcrossAnOmittedPage(pages: seq<int>, last: Block, block: Block)
    requires Sorted(pages)
    ensures Cuts(pages, last, block) <==>
      last.page.Some? && block.page.Some? && Between(pages, last.page.value, block.page.value)
  {
    if last.page.Some? && block.page.Some? {
      var below := BisectRight(pages, block.page.value - 1, 0, |pages|);
      var upto := BisectRight(pages, last.page.value, 0, |pages|);
      if below > upto {
        assert pages[upto] in pages;
      }
      if p :| p in pages && last.page.value < p < block.page.value {
        var i :| 0 <= i < |pages| && pages[i] == p;
        assert upto <= i < below;
      }
    }
  }

  function Flatten(scopes: seq<Scope>): seq<Block> {
    if scopes == [] then [] else Flatten(scopes[..|scopes| - 1]) + scopes[|scopes| - 1]
  }

  /** Adjacent blocks of one scope are never on two sides of a cut. */
  ghost predicate Unbroken(pages: seq<int>, scope: Scope) {
    forall i :: 0 < i < |scope| ==> !Cuts(pages, scope[i - 1], scope[i])
  }

  /** Where in the flattened text each original scope starts. */
  ghost predicate IsStart(scopes: seq<Scope>, n: nat) {
    exists k :: 0 <= k <= |scopes| && n == |Flatten(scopes[..k])|
  }

  /** Pieces i - 1 and i meet at a cut. */
  ghost predicate MeetAtCut(pages: seq<int>, pieces: seq<Scope>, i: int) {
    && 0 < i < |pieces| && pieces[i - 1] != [] && pieces[i] != []
    && Cuts(pages, pieces[i - 1][|pieces[i - 1]| - 1], pieces[i][0])
  }

  ghost predicate MeetAtCuts(pages: seq<int>, pieces: seq<Scope>) {
    forall i :: 0 < i < |pieces| ==> MeetAtCut(pages, pieces, i)
  }

  /** A boundary has a reason: a cut, or the start of an original scope. */
  ghost predicate Justified(scopes: seq<Scope>, pages: seq<int>, split: seq<Scope>, i: int) {
    0 < i < |split| && (IsStart(scopes, |Flatten(split[..i])|) || MeetAtCut(pages, split, i))
  }

  /** The first n original scopes are whole pieces of the result. */
  ghost predicate StartsAPiece(scopes: seq<Scope>, split: seq<Scope>, n: int) {
    0 <= n <= |scopes| && exists i :: 0 <= i <= |split| && Flatten(split[..i]) == Flatten(scopes[..n])
  }

  lemma NoPieceYet(scopes: seq<Scope>)
    ensures StartsAPiece(scopes, [], 0)
  {
    assert scopes[..0] == [];
    EndsHere(scopes, [], 0);
  }

  lemma StillStarts(scopes: seq<Scope>, split: seq<Scope>, pieces: seq<Scope>, n: int)
    requires StartsAPiece(scopes, split, n)
    ensures StartsAPiece(scopes, split + pieces, n)
  {
    hide Flatten;
    var i :| 0 <= i <= |split| && Flatten(split[..i]) == Flatten(scopes[..n]);
    assert (split + pieces)[..i] == split[..i];
  }

  lemma EndsHere(scopes: seq<Scope>, split: seq<Scope>, n: int)
    requires 0 <= n <= |scopes| && Flatten(split) == Flatten(scopes[..n])
    ensures StartsAPiece(scopes, split, n)
  {
    assert split[..|split|] == split;
  }

  /** All that the split promises: order, pieces without a cut, boundaries with a reason, original scopes apart. */
  ghost predicate IsSplit(scopes: seq<Scope>, pages: seq<int>, split: seq<Scope>) {
    && Flatten(split) == Flatten(scopes)
    && (forall i :: 0 <= i < |split| ==> Whole(pages, split[i]))
    && (forall i :: 0 < i < |split| ==> Justified(scopes, pages, split, i))
    && (forall n :: 0 <= n <= |scopes| ==> StartsAPiece(scopes, split, n))
  }

  ghost predicate Whole(pages: seq<int>, scope: Scope) {
    scope != [] && Unbroken(pages, scope)
  }

  /**
   * `_split_at_pages`: nothing is lost or moved, no scope is empty, no scope
   * holds a cut, every boundary has a reason, and no two original scopes
   * are joined.
   */
  method SplitAtPages(scopes: seq<Scope>, pages: seq<int>) returns (split: seq<Scope>)
    ensures IsSplit(scopes, pages, split)
  {
    hide Unbroken, Cuts, IsStart, MeetAtCut, StartsAPiece;
    split := [];
    NoPieceYet(scopes);
    for n := 0 to |scopes|
      invariant Flatten(split) == Flatten(scopes[..n])
      invariant forall i :: 0 <= i < |split| ==> Whole(pages, split[i])
      invariant forall i :: 0 < i < |split| ==> Justified(scopes, pages, split, i)
      invariant forall m :: 0 <= m <= n ==> StartsAPiece(scopes, split, m)
    {
      assert scopes[..n + 1][..n] == scopes[..n];
      var pieces := SplitScope(scopes[n], pages);
      FlattenConcat(split, pieces);
      BoundariesStay(scopes, pages, split, pieces, n);
      forall m | 0 <= m <= n + 1 ensures StartsAPiece(scopes, split + pieces, m) {
        if m <= n {
          StillStarts(scopes, split, pieces, m);
        } else {
          EndsHere(scopes, split + pieces, m);
        }
      }
      split := split + pieces;
    }
    assert scopes[..|scopes|] == scopes;
  }

  /** One original scope; a last scope without blocks is dropped. */
  method SplitScope(scope: Scope, pages: seq<int>) returns (pieces: seq<Scope>)
    ensures Flatten(pieces) == scope
    ensures forall i :: 0 <= i < |pieces| ==> Whole(pages, pieces[i])
    ensures MeetAtCuts(pages, pieces)
  {
    hide Cuts, Flatten, Whole, MeetAtCuts, Unbroken;
    var closed: seq<Scope>, current: Scope := [], [];
    NothingSplit(pages);
    for k := 0 to |scope|
      invariant Flatten(closed) + current == scope[..k]
      invariant Unbroken(pages, current) && (current == [] ==> k == 0 && closed == [])
      invariant forall i :: 0 <= i < |closed| ==> Whole(pages, closed[i])
      invariant k > 0 ==> MeetAtCuts(pages, closed + [current])
    {
      ClosingKeeps(pages, closed, current);
      var block := scope[k];
      if k > 0 {
        OneMoreBlock(pages, closed, current, block);
      } else {
        OnePiece(pages, [block]);
        assert closed + [[block]] == [[block]];
      }
      UnbrokenGrows(pages, current, block);
      if current != [] && Cuts(pages, current[|current| - 1], block) {
        closed, current := closed + [current], [];
      }
      assert [] + [block] == [block];
      current := current + [block];
    }
    ClosingKeeps(pages, closed, current);
    pieces := if current == [] then closed else closed + [current];
  }

  /** The next block joins the last piece, or opens one after a cut. */
  lemma OneMoreBlock(pages: seq<int>, closed: seq<Scope>, last: Scope, block: Block)
    requires last != [] && MeetAtCuts(pages, closed + [last])
    ensures MeetAtCuts(pages, closed + [last + [block]])
    ensures Cuts(pages, last[|last| - 1], block) ==> MeetAtCuts(pages, closed + [last] + [[block]])
  {
    hide Cuts;
    var pieces, longer, more := closed + [last], closed + [last + [block]], closed + [last] + [[block]];
    forall i | 0 < i < |longer| ensures MeetAtCut(pages, longer, i) {
      assert MeetAtCut(pages, pieces, i);
    }
    if Cuts(pages, last[|last| - 1], block) {
      forall i | 0 < i < |more| ensures MeetAtCut(pages, more, i) {
        if i < |pieces| {
          assert MeetAtCut(pages, pieces, i);
        }
      }
    }
  }

  lemma NothingSplit(pages: seq<int>)
    ensures Flatten([]) == [] && Unbroken(pages, []) && MeetAtCuts(pages, [])
  {
  }

  lemma UnbrokenGrows(pages: seq<int>, scope: Scope, block: Block)
    requires Unbroken(pages, scope)
    ensures Unbroken(pages, [block])
    ensures scope == [] || !Cuts(pages, scope[|scope| - 1], block) ==> Unbroken(pages, scope + [block])
  {
  }

  lemma OnePiece(pages: seq<int>, piece: Scope)
    ensures MeetAtCuts(pages, [piece])
  {
  }

  lemma ClosingKeeps(pages: seq<int>, closed: seq<Scope>, current: Scope)
    ensures Flatten(closed + [current]) == Flatten(closed) + current
    ensures current != [] && Unbroken(pages, current) ==> Whole(pages, current)
    ensures Flatten([]) == []
  {
    assert (closed + [current])[..|closed|] == closed;
  }

  lemma {:induction false} FlattenConcat(a: seq<Scope>, b: seq<Scope>)
    ensures Flatten(a + b) == Flatten(a) + Flatten(b)
  {
    if b == [] {
      assert a + b == a;
    } else {
      FlattenConcat(a, b[..|b| - 1]);
      assert (a + b)[..|a + b| - 1] == a + b[..|b| - 1];
    }
  }

  lemma BoundariesStay(scopes: seq<Scope>, pages: seq<int>, split: seq<Scope>, pieces: seq<Scope>, n: nat)
    requires n < |scopes| && Flatten(split) == Flatten(scopes[..n])
    requires forall i :: 0 < i < |split| ==> Justified(scopes, pages, split, i)
    requires MeetAtCuts(pages, pieces)
    ensures forall i :: 0 < i < |split + pieces| ==> Justified(scopes, pages, split + pieces, i)
  {
    hide Flatten, Cuts, IsStart;
    forall i | 0 < i < |split + pieces|
      ensures Justified(scopes, pages, split + pieces, i)
    {
      if i < |split| {
        assert Justified(scopes, pages, split, i);
        assert (split + pieces)[..i] == split[..i];
      } else if i == |split| {
        assert (split + pieces)[..i] == split;
        assert IsStart(scopes, |Flatten(scopes[..n])|) by {
          StartsThere(scopes, n);
        }
      } else {
        assert MeetAtCut(pages, pieces, i - |split|);
      }
    }
  }

  lemma StartsThere(scopes: seq<Scope>, n: nat)
    requires n <= |scopes|
    ensures IsStart(scopes, |Flatten(scopes[..n])|)
  {
  }

  // ----- What a scope can no longer do

  /** Two blocks of the scope, the earlier one before a listed page and the later one behind it. */
  ghost predicate Spans(pages: seq<int>, scope: Scope, i: int, j: int) {
    && 0 <= i < j < |scope| && scope[i].page.Some? && scope[j].page.Some?
    && Between(pages, scope[i].page.value, scope[j].page.value)
  }

  /** Every block is on a known page that was not omitted. */
  ghost predicate OnReadPages(pages: seq<int>, scope: Scope) {
    forall b :: b in scope ==> b.page.Some? && b.page.value !in pages
  }

  /** Stepping from below a page to above it happens between two neighbours. */
  lemma {:induction false} SomeNeighboursCross(pages: seq<int>, scope: Scope, i: nat, j: nat, p: int)
    requires Sorted(pages) && OnReadPages(pages, scope) && p in pages
    requires i < j < |scope| && scope[i] in scope && scope[j] in scope
    requires scope[i].page.value < p < scope[j].page.value
    ensures exists k :: i < k <= j && Cuts(pages, scope[k - 1], scope[k])
    decreases j
  {
    assert scope[j - 1] in scope;
    if scope[j - 1].page.value < p {
      CutsExactlyAcrossAnOmittedPage(pages, scope[j - 1], scope[j]);
      assert Between(pages, scope[j - 1].page.value, scope[j].page.value);
    } else {
      SomeNeighboursCross(pages, scope, i, j - 1, p);
    }
  }

  /**
   * With a page on every block and the blocks of omitted pages left out, no
   * scope of the result reaches forward across an omitted page.
   */
  lemma NoScopeSpansAnOmittedPage(pages: seq<int>, scope: Scope, i: nat, j: nat)
    requires Sorted(pages) && Unbroken(pages, scope) && OnReadPages(pages, scope)
    ensures !Spans(pages, scope, i, j)
  {
    if Spans(pages, scope, i, j) {
      var p :| p in pages && scope[i].page.value < p < scope[j].page.value;
      SomeNeighboursCross(pages, scope, i, j, p);
    }
  }

  /** Two blocks of the scope lie on two sides of a listed page, in either order. */
  ghost predicate Crosses(pages: seq<int>, scope: Scope, i: int, j: int) {
    && 0 <= i < j < |scope| && scope[i].page.Some? && scope[j].page.Some?
    && (Between(pages, scope[i].page.value, scope[j].page.value) || Between(pages, scope[j].page.value, scope[i].page.value))
  }

  /** Block k lies before a listed page, and the block before it behind that page. */
  ghost predicate StepsBack(pages: seq<int>, scope: Scope, k: int) {
    && 0 < k < |scope| && scope[k - 1].page.Some? && scope[k].page.Some?
    && Between(pages, scope[k].page.value, scope[k - 1].page.value)
  }

  /** Stepping from behind a page to before it happens between two neighbours. */
  lemma {:induction false} SomeNeighboursStepBack(pages: seq<int>, scope: Scope, i: nat, j: nat, p: int)
    requires OnReadPages(pages, scope) && p in pages
    requires i < j < |scope| && scope[i] in scope && scope[j] in scope
    requires scope[j].page.value < p < scope[i].page.value
    ensures exists k :: i < k <= j && StepsBack(pages, scope, k)
    decreases j
  {
    assert scope[j - 1] in scope;
    if scope[j - 1].page.value > p {
      assert StepsBack(pages, scope, j);
    } else {
      SomeNeighboursStepBack(pages, scope, i, j - 1, p);
    }
  }

  /**
   * Exactly when a scope of the result still joins text across an omitted
   * page: when some block steps back across one, which the loop does not
   * look for.
   */
  lemma CrossesExactlyWhereItStepsBack(pages: seq<int>, scope: Scope)
    requires Sorted(pages) && Unbroken(pages, scope) && OnReadPages(pages, scope)
    ensures (exists i, j :: Crosses(pages, scope, i, j)) <==> exists k :: StepsBack(pages, scope, k)
  {
    hide Unbroken, OnReadPages;
    if i, j :| Crosses(pages, scope, i, j) {
      NoScopeSpansAnOmittedPage(pages, scope, i, j);
      var p :| p in pages && scope[j].page.value < p < scope[i].page.value;
      SomeNeighboursStepBack(pages, scope, i, j, p);
    }
    if k :| StepsBack(pages, scope, k) {
      assert Crosses(pages, scope, k - 1, k);
    }
  }

  /** So when pages never decrease, no scope crosses an omitted page. */
  lemma NothingCrossesInPageOrder(pages: seq<int>, scope: Scope, i: int, j: int)
    requires Sorted(pages) && Unbroken(pages, scope) && OnReadPages(pages, scope)
    requires forall k :: 0 < k < |scope| && scope[k - 1].page.Some? && scope[k].page.Some? ==>
               scope[k - 1].page.value <= scope[k].page.value
    ensures !Crosses(pages, scope, i, j)
  {
    CrossesExactlyWhereItStepsBack(pages, scope);
  }

  /** Going back from page 3 to page 1 over omitted page 2 is not cut. */
  lemma SteppingBackBridges(text: string)
    ensures var scope := [Block(text, Some(3), None), Block(text, Some(1), None)];
            Unbroken([2], scope) && OnReadPages([2], scope) && Crosses([2], scope, 0, 1)
  {
    var scope := [Block(text, Some(3), None), Block(text, Some(1), None)];
    CutsExactlyAcrossAnOmittedPage([2], scope[0], scope[1]);
    assert 2 in [2];
    assert Between([2], 1, 3);
  }

  /**
   * Both conditions matter: a block without a page between pages 1 and 3, or
   * a block still on page 2, keeps a scope together over omitted page 2.
   */
  lemma PagelessOrKeptBlocksBridge(middle: Option<int>, text: string)
    requires middle == None || middle == Some(2)
    ensures var scope := [Block(text, Some(1), None), Block(text, middle, None), Block(text, Some(3), None)];
            Unbroken([2], scope) && Spans([2], scope, 0, 2)
  {
    var scope := [Block(text, Some(1), None), Block(text, middle, None), Block(text, Some(3), None)];
    CutsExactlyAcrossAnOmittedPage([2], scope[0], scope[1]);
    CutsExactlyAcrossAnOmittedPage([2], scope[1], scope[2]);
    assert 2 in [2];
    forall i | 0 < i < |scope|
      ensures !Cuts([2], scope[i - 1], scope[i])
    {
      assert i == 1 || i == 2;
    }
  }

  /** `readable`: the filter before the split. */
  function Readable(blocks: seq<Block>, unread: seq<int>): seq<Block> {
    if blocks == [] then []
    else
      var before := Readable(blocks[..|blocks| - 1], unread);
      var b := blocks[|blocks| - 1];
      if b.page.Some? && b.page.value in unread then before else before + [b]
  }

  /** What is kept, pageless blocks included, and when that is on read pages only. */
  lemma {:induction false} ReadableIsOnReadPages(blocks: seq<Block>, unread: seq<int>)
    ensures forall b :: b in Readable(blocks, unread) <==> b in blocks && (b.page.Some? ==> b.page.value !in unread)
    ensures OnReadPages(unread, Readable(blocks, unread)) <==> forall b :: b in blocks ==> b.page.Some?
  {
    if blocks != [] {
      ReadableIsOnReadPages(blocks[..|blocks| - 1], unread);
    }
  }
}
