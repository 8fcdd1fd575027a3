/**
 * Literal verification of quotations: a quotation is accepted only if all its
 * occurrences, over all scopes, share one known location
 * (backend/app/checks/semantic.py, lines 366-403).
 */
module Quotes {
  import opened Wrappers
  import opened SourceText

  type Scope = seq<Block>

  ghost function Layouts(u: Unicode, scopes: seq<Scope>, preserveCase: bool): (r: seq<Layout>)
    ensures |r| == |scopes|
  {
    seq(|scopes|, i requires 0 <= i < |scopes| => LayoutOf(u, scopes[i], preserveCase))
  }

  /** Some layout has the key somewhere. */
  ghost predicate Occurs(layouts: seq<Layout>, key: string) {
    exists i :: 0 <= i < |layouts| && Contains(layouts[i].text, key)
  }

  /** `a` is the anchor of some occurrence of the key; overlapping occurrences count. */
  ghost predicate AnchorsHit(layouts: seq<Layout>, key: string, byPage: bool, a: Option<Anchor>) {
    exists i, pos :: HitAt(layouts, key, byPage, a, i, pos)
  }

  ghost predicate HitAt(layouts: seq<Layout>, key: string, byPage: bool, a: Option<Anchor>, i: int, pos: int) {
    && 0 <= i < |layouts| && At(layouts[i].text, key, pos)
    && AnchorAt(pos, layouts[i].spans, byPage) == a
  }

  /** Exact spelling takes precedence; only without any exact hit is case set aside. */
  ghost function Searched(u: Unicode, scopes: seq<Scope>, quote: string): (seq<Layout>, string) {
    var key := Squash(u, quote);
    if Occurs(Layouts(u, scopes, true), key) then (Layouts(u, scopes, true), key)
    else (Layouts(u, scopes, false), u.lower(key))
  }

  /** The one known location shared by every occurrence of the quotation. */
  ghost predicate LocatedAt(u: Unicode, scopes: seq<Scope>, byPage: bool, quote: string, anchor: Anchor) {
    var (layouts, key) := Searched(u, scopes, quote);
    && Squash(u, quote) != []
    && AnchorsHit(layouts, key, byPage, Some(anchor))
    && forall a :: AnchorsHit(layouts, key, byPage, a) ==> a == Some(anchor)
  }

  ghost predicate Located(u: Unicode, scopes: seq<Scope>, byPage: bool, quote: string) {
    exists a :: LocatedAt(u, scopes, byPage, quote, a)
  }

  method BuildLayouts(u: Unicode, scopes: seq<Scope>, preserveCase: bool) returns (layouts: seq<Layout>)
    ensures layouts == Layouts(u, scopes, preserveCase)
  {
    layouts := [];
    for i := 0 to |scopes|
      invariant |layouts| == i
      invariant forall k :: 0 <= k < i ==> layouts[k] == LayoutOf(u, scopes[k], preserveCase)
    {
      var layout := NormalizedLayout(u, scopes[i], preserveCase);
      layouts := layouts + [layout];
    }
  }

  /** All anchors of the key's occurrences, by repeated search from one past the last. */
  method CollectAnchors(layouts: seq<Layout>, key: string, byPage: bool) returns (found: set<Option<Anchor>>)
    ensures forall a :: a in found <==> AnchorsHit(layouts, key, byPage, a)
  {
    found := {};
    for i := 0 to |layouts|
      invariant forall a :: a in found <==> exists k, pos :: k < i && HitAt(layouts, key, byPage, a, k, pos)
    {
      ghost var before := found;
      var text, spans := layouts[i].text, layouts[i].spans;
      var pos := Find(text, key, 0);
      while pos != -1
        invariant pos == -1 || At(text, key, pos)
        invariant forall a :: a in found <==>
          a in before || exists p :: (pos == -1 || p < pos) && HitAt(layouts, key, byPage, a, i, p)
        decreases if pos == -1 then -1 else |text| - pos
      {
        var anchor := AnchorAt(pos, spans, byPage);
        assert HitAt(layouts, key, byPage, anchor, i, pos);
        found := found + {anchor};
        pos := Find(text, key, pos + 1);
      }
    }
  }

  /** Whether any layout has the key. */
  method AnyHas(layouts: seq<Layout>, key: string) returns (any: bool)
    ensures any <==> Occurs(layouts, key)
  {
    any := false;
    for i := 0 to |layouts|
      invariant any <==> exists k :: 0 <= k < i && Contains(layouts[k].text, key)
    {
      if Find(layouts[i].text, key, 0) != -1 {
        any := true;
      }
    }
  }

  /** One turn of the loop below; the case-folded layouts are built on first use. */
  method LocateQuote(u: Unicode, quote: string, scopes: seq<Scope>, byPage: bool,
                     layouts: seq<Layout>, known: Option<seq<Layout>>)
    returns (anchor: Option<Anchor>, folded: Option<seq<Layout>>)
    requires layouts == Layouts(u, scopes, true)
    requires known.Some? ==> known.value == Layouts(u, scopes, false)
    ensures folded.Some? ==> folded.value == Layouts(u, scopes, false)
    ensures anchor.Some? ==> LocatedAt(u, scopes, byPage, quote, anchor.value)
    ensures anchor.Some? <==> Located(u, scopes, byPage, quote)
  {
    folded := known;
    var key := Squash(u, quote);
    if key == [] {
      return None, folded;
    }
    var source := layouts;
    var any := AnyHas(layouts, key);
    if !any {
      if folded.None? {
        var lowered := BuildLayouts(u, scopes, false);
        folded := Some(lowered);
      }
      source, key := folded.value, u.lower(key);
    }
    assert (source, key) == Searched(u, scopes, quote);
    var locations := CollectAnchors(source, key, byPage);
    if |locations| != 1 || None in locations {
      forall a
        ensures !LocatedAt(u, scopes, byPage, quote, a)
      {
        OnlyLocation(u, scopes, byPage, quote, locations, a);
      }
      return None, folded;
    }
    anchor :| anchor in locations;
    OnlyMember(locations, anchor);
    assert LocatedAt(u, scopes, byPage, quote, anchor.value);
  }

  /** `_verify_quotes`: anchors for all quotations, or none at all. */
  method VerifyQuotes(u: Unicode, quotes: seq<string>, scopes: seq<Scope>, byPage: bool)
    returns (r: Option<seq<Anchor>>)
    ensures r.Some? <==> forall i :: 0 <= i < |quotes| ==> Located(u, scopes, byPage, quotes[i])
    ensures r.Some? ==>
      && |r.value| == |quotes|
      && forall i :: 0 <= i < |quotes| ==> LocatedAt(u, scopes, byPage, quotes[i], r.value[i])
  {
    hide Located, LocatedAt, Layouts;
    var layouts := BuildLayouts(u, scopes, true);
    var folded: Option<seq<Layout>> := None;
    var anchors: seq<Anchor> := [];
    for n := 0 to |quotes|
      invariant |anchors| == n
      invariant folded.Some? ==> folded.value == Layouts(u, scopes, false)
      invariant forall i :: 0 <= i < n ==> Located(u, scopes, byPage, quotes[i])
      invariant forall i :: 0 <= i < n ==> LocatedAt(u, scopes, byPage, quotes[i], anchors[i])
    {
      var anchor;
      anchor, folded := LocateQuote(u, quotes[n], scopes, byPage, layouts, folded);
      if anchor.None? {
        return None;
      }
      anchors := anchors + [anchor.value];
    }
    return Some(anchors);
  }

  lemma OnlyLocation(u: Unicode, scopes: seq<Scope>, byPage: bool, quote: string,
                     locations: set<Option<Anchor>>, a: Anchor)
    requires var (layouts, key) := Searched(u, scopes, quote);
             forall b :: b in locations <==> AnchorsHit(layouts, key, byPage, b)
    ensures LocatedAt(u, scopes, byPage, quote, a) ==> locations == {Some(a)}
  {
  }

  lemma OnlyMember<T>(s: set<T>, x: T)
    requires |s| == 1 && x in s
    ensures s == {x}
  {
    assert |s - {x}| == 0;
  }

  // ----- Where an occurrence can be

  /** A nonblank search key begins with a character that is not a space. */
  lemma KeyBeginsWithInk(u: Unicode, scopes: seq<Scope>, quote: string)
    requires Faithful(u) && Squash(u, quote) != []
    ensures Searched(u, scopes, quote).1 != [] && Searched(u, scopes, quote).1[0] != ' '
  {
    StripTrims(u, Collapse(u, quote));
  }

  /**
   * So an occurrence never begins on the space that joins two blocks, and it
   * has no anchor only when the block it begins in has no location.
   */
  lemma NullAnchorNamesUnlocatedBlock(u: Unicode, scopes: seq<Scope>, byPage: bool, quote: string, i: nat, pos: nat)
    returns (n: nat)
    requires Faithful(u) && Squash(u, quote) != []
    requires var (layouts, key) := Searched(u, scopes, quote); HitAt(layouts, key, byPage, None, i, pos)
    ensures i < |scopes|
    ensures var spans := Searched(u, scopes, quote).0[i].spans;
            && n < |spans| && spans[n].start <= pos < spans[n].end
            && spans[n].block in scopes[i] && BlockAnchor(spans[n].block, byPage) == None
  {
    var (layouts, key) := Searched(u, scopes, quote);
    KeyBeginsWithInk(u, scopes, quote);
    var preserveCase := layouts == Layouts(u, scopes, true);
    assert layouts[i] == LayoutOf(u, scopes[i], preserveCase);
    LayoutIsTiled(u, scopes[i], preserveCase);
    assert layouts[i].text[pos] == layouts[i].text[pos..pos + |key|][0] == key[0];
    n := InkHasOneBlock(u, layouts[i], preserveCase, byPage, pos);
    PrintedIsSource(u, scopes[i], preserveCase);
  }

  lemma {:induction false} PrintedIsSource(u: Unicode, blocks: seq<Block>, preserveCase: bool)
    ensures forall b :: b in Printed(u, blocks, preserveCase) ==> b in blocks
  {
    if blocks != [] {
      PrintedIsSource(u, blocks[..|blocks| - 1], preserveCase);
    }
  }

  /**
   * When every block has a location, a quotation is located exactly when it
   * is nonblank, occurs, and has no two occurrences at different anchors.
   */
  lemma LocatedWhenUnambiguous(u: Unicode, scopes: seq<Scope>, byPage: bool, quote: string)
    requires Faithful(u)
    requires forall i, b :: 0 <= i < |scopes| && b in scopes[i] ==> BlockAnchor(b, byPage).Some?
    ensures Located(u, scopes, byPage, quote) <==>
      && Squash(u, quote) != []
      && var (layouts, key) := Searched(u, scopes, quote);
      && Occurs(layouts, key)
      && forall a, b :: AnchorsHit(layouts, key, byPage, a) && AnchorsHit(layouts, key, byPage, b) ==> a == b
  {
    var (layouts, key) := Searched(u, scopes, quote);
    if Squash(u, quote) != [] {
      if AnchorsHit(layouts, key, byPage, None) {
        var i: nat, pos: nat :| HitAt(layouts, key, byPage, None, i, pos);
        var n := NullAnchorNamesUnlocatedBlock(u, scopes, byPage, quote, i, pos);
      }
      if Occurs(layouts, key) {
        var i :| 0 <= i < |layouts| && Contains(layouts[i].text, key);
        var pos :| At(layouts[i].text, key, pos);
        var hit := AnchorAt(pos, layouts[i].spans, byPage);
        assert HitAt(layouts, key, byPage, hit, i, pos);
        assert AnchorsHit(layouts, key, byPage, hit);
        if forall a, b :: AnchorsHit(layouts, key, byPage, a) && AnchorsHit(layouts, key, byPage, b) ==> a == b {
          assert LocatedAt(u, scopes, byPage, quote, hit.value);
        }
      }
      if a :| LocatedAt(u, scopes, byPage, quote, a) {
        var i, pos :| HitAt(layouts, key, byPage, Some(a), i, pos);
        assert Contains(layouts[i].text, key);
      }
    }
  }
}
