/**
 * Normalised source text: how the blocks of a manuscript are joined into one
 * searchable string, and how a position in that string leads back to a page
 * or a paragraph (backend/app/checks/semantic.py, lines 303-339).
 */
module SourceText {
  import opened Wrappers

  /** The character tables are parameters: nothing here depends on their contents. */
  datatype Unicode = Unicode(
    isSpace: char -> bool,          // str.isspace, also what the pattern \s matches
    isAlnum: char -> bool,          // str.isalnum
    lower: string -> string,        // str.lower, of a whole string
    fold: (bool, char) -> string    // NFKC of one character, then casefold if asked
  )

  const ELLIPSIS: char := '\U{2026}'

  /** What is used of the tables. */
  ghost predicate Faithful(u: Unicode) {
    && u.isSpace(' ')
    && !u.isSpace('.') && !u.isSpace(ELLIPSIS)
    && (forall c :: u.isAlnum(c) ==> !u.isSpace(c))
    && (forall s: string ::
          s != [] && !u.isSpace(s[0]) ==> u.lower(s) != [] && u.lower(s)[0] != ' ')
  }

  // ----- Whitespace

  /** Every run of whitespace becomes one space. */
  function Collapse(u: Unicode, s: string): string {
    if s == [] then []
    else if !u.isSpace(s[0]) then [s[0]] + Collapse(u, s[1..])
    else if |s| > 1 && u.isSpace(s[1]) then Collapse(u, s[1..])
    else [' '] + Collapse(u, s[1..])
  }

  /** str.strip */
  function Strip(u: Unicode, s: string): string {
    if s == [] then []
    else if u.isSpace(s[0]) then Strip(u, s[1..])
    else if u.isSpace(s[|s| - 1]) then Strip(u, s[..|s| - 1])
    else s
  }

  predicate Trimmed(u: Unicode, s: string) {
    s != [] ==> !u.isSpace(s[0]) && !u.isSpace(s[|s| - 1])
  }

  lemma {:induction false} StripTrims(u: Unicode, s: string)
    ensures Trimmed(u, Strip(u, s))
  {
    if s == [] {
    } else if u.isSpace(s[0]) {
      StripTrims(u, s[1..]);
    } else if u.isSpace(s[|s| - 1]) {
      StripTrims(u, s[..|s| - 1]);
    }
  }

  /** Only whitespace is cut off, and none is left at either end. */
  lemma {:induction false} StripIsSlice(u: Unicode, s: string) returns (i: nat, j: nat)
    ensures i <= j <= |s| && Strip(u, s) == s[i..j] && Trimmed(u, s[i..j])
    ensures forall k :: 0 <= k < |s| && !(i <= k < j) ==> u.isSpace(s[k])
  {
    if s == [] {
      i, j := 0, 0;
    } else if u.isSpace(s[0]) {
      i, j := StripIsSlice(u, s[1..]);
      assert forall k :: 1 <= k < |s| ==> s[k] == s[1..][k - 1];
      assert s[1..][i..j] == s[i + 1..j + 1];
      i, j := i + 1, j + 1;
    } else if u.isSpace(s[|s| - 1]) {
      i, j := StripIsSlice(u, s[..|s| - 1]);
      assert s[..|s| - 1][i..j] == s[i..j];
    } else {
      i, j := 0, |s|;
    }
  }

  function Squash(u: Unicode, s: string): string {
    Strip(u, Collapse(u, s))
  }

  /** All whitespace is single spaces. */
  ghost predicate SinglySpaced(u: Unicode, s: string) {
    forall i :: 0 <= i < |s| && u.isSpace(s[i]) ==> s[i] == ' ' && (i + 1 < |s| ==> !u.isSpace(s[i + 1]))
  }

  lemma {:induction false} CollapseSpacesSingly(u: Unicode, s: string)
    ensures SinglySpaced(u, Collapse(u, s))
    ensures s == [] <==> Collapse(u, s) == []
    ensures s != [] && !u.isSpace(s[0]) ==> Collapse(u, s)[0] == s[0]
  {
    if s != [] {
      CollapseSpacesSingly(u, s[1..]);
    }
  }

  lemma SliceSinglySpaced(u: Unicode, s: string, i: nat, j: nat)
    requires SinglySpaced(u, s) && i <= j <= |s|
    ensures SinglySpaced(u, s[i..j])
  {
    var t := s[i..j];
    forall k | 0 <= k < |t| && u.isSpace(t[k])
      ensures t[k] == ' ' && (k + 1 < |t| ==> !u.isSpace(t[k + 1]))
    {
      assert t[k] == s[i + k];
    }
  }

  lemma SquashSpacesSingly(u: Unicode, s: string)
    ensures SinglySpaced(u, Squash(u, s)) && Trimmed(u, Squash(u, s))
  {
    CollapseSpacesSingly(u, s);
    StripTrims(u, Collapse(u, s));
    var i, j := StripIsSlice(u, Collapse(u, s));
    SliceSinglySpaced(u, Collapse(u, s), i, j);
  }

  lemma {:induction false} CollapseKeeps(u: Unicode, s: string)
    requires SinglySpaced(u, s)
    ensures Collapse(u, s) == s
  {
    if s != [] {
      SliceSinglySpaced(u, s, 1, |s|);
      CollapseKeeps(u, s[1..]);
      assert u.isSpace(s[0]) ==> s[0] == ' ' && (1 < |s| ==> !u.isSpace(s[1]));
      assert s == [s[0]] + s[1..];
    }
  }

  /** A trimmed, singly spaced text is already in its layout form. */
  lemma SquashKeeps(u: Unicode, s: string)
    requires SinglySpaced(u, s) && Trimmed(u, s)
    ensures Squash(u, s) == s
  {
    CollapseKeeps(u, s);
  }

  /** The comparison form of a quotation: collapsed, trimmed and lower-cased. */
  function Normalize(u: Unicode, s: string): string {
    u.lower(Squash(u, s))
  }

  // ----- Substring search

  predicate At(text: string, key: string, i: int) {
    0 <= i && i + |key| <= |text| && text[i..i + |key|] == key
  }

  ghost predicate Contains(text: string, key: string) {
    exists i :: At(text, key, i)
  }

  /** str.find: the first occurrence at or after `from`, or -1. */
  function Find(text: string, key: string, from: nat): (r: int)
    ensures r == -1 || (from <= r && At(text, key, r))
    ensures forall i :: from <= i && At(text, key, i) ==> r != -1 && r <= i
    decreases |text| - from
  {
    if from + |key| > |text| then -1
    else if text[from..from + |key|] == key then from
    else Find(text, key, from + 1)
  }

  // ----- Layouts

  datatype Block = Block(text: string, page: Option<int>, paragraph: Option<int>)

  /** A block and the half-open range of the layout text it fills. */
  datatype Span = Span(start: nat, end: nat, block: Block)

  datatype Layout = Layout(text: string, spans: seq<Span>)

  datatype Anchor = Page(number: int) | Paragraph(number: int)

  function BlockText(u: Unicode, block: Block, preserveCase: bool): string {
    if preserveCase then Squash(u, block.text) else Normalize(u, block.text)
  }

  /** " ".join(parts) */
  function Join(parts: seq<string>): string {
    if parts == [] then []
    else if |parts| == 1 then parts[0]
    else Join(parts[..|parts| - 1]) + [' '] + parts[|parts| - 1]
  }

  /** The layout of some blocks, by its last block. */
  function LayoutOf(u: Unicode, blocks: seq<Block>, preserveCase: bool): Layout {
    if blocks == [] then Layout([], [])
    else
      var before := LayoutOf(u, blocks[..|blocks| - 1], preserveCase);
      Extend(before, blocks[|blocks| - 1], BlockText(u, blocks[|blocks| - 1], preserveCase))
  }

  /** One more block with the given normalised text; a block without text leaves no trace. */
  function Extend(before: Layout, block: Block, norm: string): Layout {
    if norm == [] then before
    else if before.spans == [] then Layout(norm, [Span(0, |norm|, block)])
    else
      var start := |before.text| + 1;
      Layout(before.text + [' '] + norm, before.spans + [Span(start, start + |norm|, block)])
  }

  /** Span i holds its own block's normalised text. */
  ghost predicate Fits(u: Unicode, layout: Layout, preserveCase: bool, i: nat)
    requires i < |layout.spans|
  {
    var span := layout.spans[i];
    && span.start < span.end <= |layout.text|
    && layout.text[span.start..span.end] == BlockText(u, span.block, preserveCase)
  }

  /** Exactly one joining space lies between span i and the one after it. */
  ghost predicate Meets(layout: Layout, i: nat)
    requires i + 1 < |layout.spans|
  {
    var end := layout.spans[i].end;
    layout.spans[i + 1].start == end + 1 && end < |layout.text| && layout.text[end] == ' '
  }

  /** Adjacent spans with one joining space between them fill the whole text. */
  ghost predicate Tiled(u: Unicode, layout: Layout, preserveCase: bool) {
    var Layout(text, spans) := layout;
    && (spans == [] <==> text == [])
    && (spans != [] ==> spans[0].start == 0 && spans[|spans| - 1].end == |text|)
    && (forall i :: 0 <= i < |spans| ==> Fits(u, layout, preserveCase, i))
    && (forall i :: 0 <= i && i + 1 < |spans| ==> Meets(layout, i))
  }

  /** The blocks with text, in their order. */
  function Printed(u: Unicode, blocks: seq<Block>, preserveCase: bool): seq<Block> {
    if blocks == [] then []
    else
      var before := Printed(u, blocks[..|blocks| - 1], preserveCase);
      var block := blocks[|blocks| - 1];
      if BlockText(u, block, preserveCase) == [] then before else before + [block]
  }

  lemma {:induction false} LayoutIsTiled(u: Unicode, blocks: seq<Block>, preserveCase: bool)
    ensures Tiled(u, LayoutOf(u, blocks, preserveCase), preserveCase)
    ensures var spans := LayoutOf(u, blocks, preserveCase).spans;
            var printed := Printed(u, blocks, preserveCase);
            |spans| == |printed| && forall i :: 0 <= i < |spans| ==> spans[i].block == printed[i]
  {
    if blocks != [] {
      LayoutIsTiled(u, blocks[..|blocks| - 1], preserveCase);
      var before := LayoutOf(u, blocks[..|blocks| - 1], preserveCase);
      var block := blocks[|blocks| - 1];
      if BlockText(u, block, preserveCase) != [] && before.spans != [] {
        ExtendTiled(u, before, block, preserveCase);
      }
    }
  }

  lemma ExtendTiled(u: Unicode, before: Layout, block: Block, preserveCase: bool)
    requires Tiled(u, before, preserveCase) && before.spans != []
    requires BlockText(u, block, preserveCase) != []
    ensures Tiled(u, Extend(before, block, BlockText(u, block, preserveCase)), preserveCase)
  {
    var norm := BlockText(u, block, preserveCase);
    var start := |before.text| + 1;
    var after := Extend(before, block, norm);
    forall i | 0 <= i < |after.spans|
      ensures Fits(u, after, preserveCase, i)
    {
      if i < |before.spans| {
        assert Fits(u, before, preserveCase, i);
        var span := before.spans[i];
        assert after.text[span.start..span.end] == before.text[span.start..span.end];
      } else {
        assert after.text[start..start + |norm|] == norm;
      }
    }
    forall i | 0 <= i && i + 1 < |after.spans|
      ensures Meets(after, i)
    {
      if i + 1 < |before.spans| {
        assert Meets(before, i);
      }
    }
  }

  /** The loop of `_normalized_layout`: parts and spans grow, a cursor runs ahead. */
  method NormalizedLayout(u: Unicode, blocks: seq<Block>, preserveCase: bool) returns (layout: Layout)
    ensures layout == LayoutOf(u, blocks, preserveCase)
  {
    var parts: seq<string>, spans: seq<Span>, cursor: nat := [], [], 0;
    for n := 0 to |blocks|
      invariant Holds(parts, spans, cursor, LayoutOf(u, blocks[..n], preserveCase))
    {
      ghost var before := LayoutOf(u, blocks[..n], preserveCase);
      var norm := BlockText(u, blocks[n], preserveCase);
      LayoutOfNext(u, blocks, n, preserveCase);
      if norm != [] {
        AppendPart(parts, spans, cursor, before, blocks[n], norm);
        parts := parts + [norm];
        spans := spans + [Span(cursor, cursor + |norm|, blocks[n])];
        cursor := cursor + |norm| + 1;
      }
    }
    assert blocks[..|blocks|] == blocks;
    layout := Layout(Join(parts), spans);
  }

  /** The three loop variables stand for a layout. */
  ghost predicate Holds(parts: seq<string>, spans: seq<Span>, cursor: nat, layout: Layout) {
    && layout == Layout(Join(parts), spans)
    && |parts| == |spans|
    && cursor == if parts == [] then 0 else |Join(parts)| + 1
  }

  lemma AppendPart(parts: seq<string>, spans: seq<Span>, cursor: nat, before: Layout, block: Block, norm: string)
    requires Holds(parts, spans, cursor, before) && norm != []
    ensures Holds(parts + [norm], spans + [Span(cursor, cursor + |norm|, block)], cursor + |norm| + 1,
                  Extend(before, block, norm))
  {
    JoinNext(parts, norm);
  }

  lemma LayoutOfNext(u: Unicode, blocks: seq<Block>, n: nat, preserveCase: bool)
    requires n < |blocks|
    ensures LayoutOf(u, blocks[..n + 1], preserveCase)
         == Extend(LayoutOf(u, blocks[..n], preserveCase), blocks[n], BlockText(u, blocks[n], preserveCase))
  {
    assert blocks[..n + 1][..n] == blocks[..n];
  }

  lemma JoinNext(parts: seq<string>, part: string)
    ensures Join(parts + [part]) == if parts == [] then part else Join(parts) + [' '] + part
  {
    assert (parts + [part])[..|parts|] == parts;
  }

  // ----- Anchors

  function BlockAnchor(block: Block, byPage: bool): Option<Anchor> {
    if byPage && block.page.Some? then Some(Page(block.page.value))
    else if block.paragraph.Some? then Some(Paragraph(block.paragraph.value))
    else None
  }

  /** `_anchor_at_position`: the location of the first span over the position. */
  function AnchorAt(pos: int, spans: seq<Span>, byPage: bool): Option<Anchor> {
    if spans == [] then None
    else if spans[0].start <= pos < spans[0].end then BlockAnchor(spans[0].block, byPage)
    else AnchorAt(pos, spans[1..], byPage)
  }

  lemma {:induction false} AnchorOfSpan(pos: int, spans: seq<Span>, byPage: bool, i: nat)
    requires i < |spans| && spans[i].start <= pos < spans[i].end
    requires forall k :: 0 <= k < |spans| && k != i ==> !(spans[k].start <= pos < spans[k].end)
    ensures AnchorAt(pos, spans, byPage) == BlockAnchor(spans[i].block, byPage)
  {
    if i > 0 {
      assert !(spans[0].start <= pos < spans[0].end);
      AnchorOfSpan(pos, spans[1..], byPage, i - 1);
    }
  }

  lemma {:induction false} SpansAscend(u: Unicode, layout: Layout, preserveCase: bool, i: nat, k: nat)
    requires Tiled(u, layout, preserveCase) && i < k < |layout.spans|
    ensures layout.spans[i].end < layout.spans[k].start
    decreases k
  {
    assert Meets(layout, k - 1);
    if i < k - 1 {
      assert Fits(u, layout, preserveCase, k - 1);
      SpansAscend(u, layout, preserveCase, i, k - 1);
    }
  }

  lemma {:induction false} SpanOver(u: Unicode, layout: Layout, preserveCase: bool, pos: nat, n: nat)
    returns (i: nat)
    requires Tiled(u, layout, preserveCase)
    requires n < |layout.spans| && pos < layout.spans[n].end && pos < |layout.text|
    requires layout.text[pos] != ' '
    ensures i < |layout.spans| && layout.spans[i].start <= pos < layout.spans[i].end
    decreases n
  {
    if layout.spans[n].start <= pos {
      i := n;
    } else {
      assert Meets(layout, n - 1);
      i := SpanOver(u, layout, preserveCase, pos, n - 1);
    }
  }

  /**
   * A position that does not hold a space lies in exactly one block, so it
   * has no anchor exactly when that block has no location.
   */
  lemma InkHasOneBlock(u: Unicode, layout: Layout, preserveCase: bool, byPage: bool, pos: nat)
    returns (i: nat)
    requires Tiled(u, layout, preserveCase)
    requires pos < |layout.text| && layout.text[pos] != ' '
    ensures i < |layout.spans| && layout.spans[i].start <= pos < layout.spans[i].end
    ensures AnchorAt(pos, layout.spans, byPage) == BlockAnchor(layout.spans[i].block, byPage)
  {
    i := SpanOver(u, layout, preserveCase, pos, |layout.spans| - 1);
    forall k | 0 <= k < |layout.spans| && k != i
      ensures !(layout.spans[k].start <= pos < layout.spans[k].end)
    {
      if k < i {
        SpansAscend(u, layout, preserveCase, k, i);
      } else {
        SpansAscend(u, layout, preserveCase, i, k);
      }
    }
    AnchorOfSpan(pos, layout.spans, byPage, i);
  }
}
