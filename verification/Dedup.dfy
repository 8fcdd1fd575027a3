/**
 * The one-time repair of doubled check results before their unique indexes
 * are built (backend/alembic/versions/
 * 0035_check_run_claim_and_result_uniqueness.py, lines 47-128).
 *
 * The two statements are one ranked query with different group columns and a
 * different mark of engagement, so both are read through `Query`.
 */
module Dedup {
  import opened Wrappers

  /** A check result with the keys of its nullable detail and the `overridden` column of each of its flags. */
  datatype Row = Row(
    id: int,
    run: int,
    criterion: Option<int>,
    kind: string,
    detail: Option<set<string>>,
    flags: seq<bool>
  )

  datatype Query = ByCriterion | ByKind

  const RESOLUTION := "resolution"

  /** `COALESCE(detail ? 'resolution', false)` */
  predicate Resolved(r: Row) {
    r.detail.Some? && RESOLUTION in r.detail.value
  }

  predicate Overridden(r: Row) {
    true in r.flags
  }

  predicate InScope(q: Query, r: Row) {
    match q
    case ByCriterion => r.criterion.Some?
    case ByKind => r.criterion.None?
  }

  predicate Engaged(q: Query, r: Row) {
    match q
    case ByCriterion => Resolved(r)
    case ByKind => Overridden(r)
  }

  predicate SameGroup(q: Query, r: Row, s: Row) {
    && InScope(q, r) && InScope(q, s) && r.run == s.run
    && (if q.ByCriterion? then r.criterion == s.criterion else r.kind == s.kind)
  }

  /** The primary key. */
  predicate Keyed(t: set<Row>) {
    forall r, s :: r in t && s in t && r.id == s.id ==> r == s
  }

  function Group(q: Query, t: set<Row>, r: Row): set<Row> {
    set s | s in t && SameGroup(q, r, s)
  }

  function EngagedIn(q: Query, g: set<Row>): set<Row> {
    set s | s in g && Engaged(q, s)
  }

  /** `ORDER BY engaged DESC, id ASC` */
  predicate Before(q: Query, s: Row, r: Row) {
    if Engaged(q, s) == Engaged(q, r) then s.id < r.id else Engaged(q, s)
  }

  function Ahead(q: Query, g: set<Row>, r: Row): set<Row> {
    set s | s in g && Before(q, s, r)
  }

  function RowNumber(q: Query, g: set<Row>, r: Row): nat {
    |Ahead(q, g, r)| + 1
  }

  /** What one statement deletes. */
  function Doomed(q: Query, t: set<Row>): set<Row> {
    set r | r in t && InScope(q, r)
            && |Group(q, t, r)| > 1 && |EngagedIn(q, Group(q, t, r))| <= 1
            && RowNumber(q, Group(q, t, r), r) > 1
  }

  function Deduplicated(q: Query, t: set<Row>): set<Row> {
    t - Doomed(q, t)
  }

  /** A unique index on the query's group columns can be created. */
  predicate Indexable(q: Query, t: set<Row>) {
    forall r, s :: r in t && s in t && SameGroup(q, r, s) ==> r == s
  }

  // ----- Sets of one and of more

  lemma TwoElements<T>(xs: set<T>, a: T, b: T)
    requires a in xs && b in xs && a != b
    ensures |xs| >= 2
  {
    assert {a, b} <= xs;
    FewerInSubset({a, b}, xs);
  }

  lemma {:induction false} FewerInSubset<T>(xs: set<T>, ys: set<T>)
    requires xs <= ys
    ensures |xs| <= |ys|
  {
    assert ys == xs + (ys - xs);
  }

  lemma AtMostOne<T>(xs: set<T>, a: T)
    requires |xs| <= 1 && a in xs
    ensures xs == {a}
  {
    forall b | b in xs ensures b == a {
      if b != a {
        TwoElements(xs, a, b);
      }
    }
  }

  // ----- The first row of a group

  /** Nothing in the group comes before it, and it comes before everything else. */
  predicate First(q: Query, g: set<Row>, k: Row) {
    k in g && forall s :: s in g && s != k ==> Before(q, k, s)
  }

  lemma {:induction false} FirstExists(q: Query, g: set<Row>) returns (k: Row)
    requires g != {} && Keyed(g)
    ensures First(q, g, k)
    decreases |g|
  {
    var x :| x in g;
    var rest := g - {x};
    if rest == {} {
      assert forall s :: s in g && s != x ==> s in rest;
      k := x;
    } else {
      var y := FirstExists(q, rest);
      k := if Before(q, x, y) then x else y;
      forall s | s in g && s != k ensures Before(q, k, s) {
        assert s == x || s in rest;
      }
    }
  }

  /** A row has number one exactly when it is first. */
  lemma NumberOneIsFirst(q: Query, g: set<Row>, r: Row)
    requires r in g && Keyed(g)
    ensures RowNumber(q, g, r) == 1 <==> First(q, g, r)
  {
    if RowNumber(q, g, r) == 1 {
      assert Ahead(q, g, r) == {};
      forall s | s in g && s != r ensures Before(q, r, s) {
        assert s !in Ahead(q, g, r);
      }
    } else {
      assert Ahead(q, g, r) != {};
      var s :| s in Ahead(q, g, r);
      assert s in g && s != r && !Before(q, r, s);
    }
  }

  lemma GroupsAgree(q: Query, t: set<Row>, r: Row, s: Row)
    requires r in t && s in t && SameGroup(q, r, s)
    ensures Group(q, t, r) == Group(q, t, s) && r in Group(q, t, s)
  {
  }

  /** What is deleted: every row of a group with at most one engaged row, but its first. */
  lemma DoomedExactly(q: Query, t: set<Row>, r: Row)
    requires Keyed(t) && r in t && InScope(q, r)
    ensures r in Doomed(q, t) <==> |EngagedIn(q, Group(q, t, r))| <= 1 && !First(q, Group(q, t, r), r)
  {
    hide EngagedIn, Ahead, First, Before;
    var g := Group(q, t, r);
    assert r in g;
    NumberOneIsFirst(q, g, r);
    if !First(q, g, r) {
      NotAloneWhenNotFirst(q, g, r);
    }
  }

  lemma NotAloneWhenNotFirst(q: Query, g: set<Row>, r: Row)
    requires r in g && !First(q, g, r)
    ensures |g| > 1
  {
    var s :| s in g && s != r && !Before(q, r, s);
    TwoElements(g, r, s);
  }

  // ----- What one statement promises

  /** Main result: no row with an engagement the statement looks at is ever deleted. */
  lemma NeverDeletesEngaged(q: Query, t: set<Row>, r: Row)
    requires Keyed(t) && r in Doomed(q, t)
    ensures !Engaged(q, r)
  {
    hide RowNumber;
    DoomedExactly(q, t, r);
    var g := Group(q, t, r);
    var s :| s in g && s != r && !Before(q, r, s);
    if Engaged(q, r) {
      assert s in EngagedIn(q, g) && r in EngagedIn(q, g);
      TwoElements(EngagedIn(q, g), s, r);
    }
  }

  /** A group with two engaged rows is left as it was. */
  lemma AmbiguousGroupsUntouched(q: Query, t: set<Row>, r: Row)
    requires r in t && InScope(q, r) && |EngagedIn(q, Group(q, t, r))| >= 2
    ensures Group(q, Deduplicated(q, t), r) == Group(q, t, r)
  {
    hide EngagedIn, RowNumber;
    forall s | s in Group(q, t, r) ensures s !in Doomed(q, t) {
      GroupsAgree(q, t, r, s);
    }
  }

  /** Any other group is left with one row: its engaged row if it has one, else the one with the lowest id. */
  lemma OneKeeper(q: Query, t: set<Row>, r: Row) returns (keeper: Row)
    requires Keyed(t) && r in t && InScope(q, r) && |EngagedIn(q, Group(q, t, r))| <= 1
    ensures Group(q, Deduplicated(q, t), r) == {keeper} && keeper in Group(q, t, r)
    ensures EngagedIn(q, Group(q, t, r)) == if Engaged(q, keeper) then {keeper} else {}
    ensures !Engaged(q, keeper) ==> forall s :: s in Group(q, t, r) ==> keeper.id <= s.id
  {
    hide RowNumber, Doomed;
    var g := Group(q, t, r);
    assert r in g;
    keeper := FirstExists(q, g);
    forall s | s in g ensures s in Doomed(q, t) <==> s != keeper {
      GroupsAgree(q, t, r, s);
      DoomedExactly(q, t, s);
    }
    if Engaged(q, keeper) {
      AtMostOne(EngagedIn(q, g), keeper);
    }
  }

  /** Running the statement again deletes nothing. */
  lemma Idempotent(q: Query, t: set<Row>)
    requires Keyed(t)
    ensures Deduplicated(q, Deduplicated(q, t)) == Deduplicated(q, t)
  {
    hide RowNumber, Doomed, EngagedIn, Group;
    var once := Deduplicated(q, t);
    forall r | r in once ensures r !in Doomed(q, once) {
      if InScope(q, r) {
        if |EngagedIn(q, Group(q, t, r))| <= 1 {
          var keeper := OneKeeper(q, t, r);
          LoneRowStays(q, once, r, keeper);
        } else {
          AmbiguousGroupsUntouched(q, t, r);
          DoomedExactly(q, once, r);
        }
      } else {
        OutOfScopeStays(q, once, r);
      }
    }
    assert Deduplicated(q, once) == once by {
      DoomedAreRows(q, once);
    }
  }

  lemma DoomedAreRows(q: Query, t: set<Row>)
    ensures Doomed(q, t) <= t
  {
  }

  lemma LoneRowStays(q: Query, t: set<Row>, r: Row, keeper: Row)
    requires r in t && Group(q, t, r) == {keeper}
    ensures r !in Doomed(q, t)
  {
  }

  lemma OutOfScopeStays(q: Query, t: set<Row>, r: Row)
    requires !InScope(q, r)
    ensures r !in Doomed(q, t)
  {
  }

  /** No group holds two engaged rows. */
  predicate Unambiguous(q: Query, t: set<Row>) {
    forall r, s :: r in t && s in t && SameGroup(q, r, s) && Engaged(q, r) && Engaged(q, s) ==> r == s
  }

  /** The index can be built afterwards exactly when no group had two engaged rows. */
  lemma IndexableExactlyWhenUnambiguous(q: Query, t: set<Row>)
    requires Keyed(t)
    ensures Indexable(q, Deduplicated(q, t)) <==> Unambiguous(q, t)
  {
    hide RowNumber, Doomed;
    if Unambiguous(q, t) {
      forall r, s | r in Deduplicated(q, t) && s in Deduplicated(q, t) && SameGroup(q, r, s)
        ensures r == s
      {
        AtMostOneEngaged(q, t, r);
        var keeper := OneKeeper(q, t, r);
        assert r in Group(q, Deduplicated(q, t), r) && s in Group(q, Deduplicated(q, t), r);
      }
    } else {
      var r, s :| r in t && s in t && SameGroup(q, r, s) && Engaged(q, r) && Engaged(q, s) && r != s;
      if r in Doomed(q, t) {
        NeverDeletesEngaged(q, t, r);
      }
      if s in Doomed(q, t) {
        NeverDeletesEngaged(q, t, s);
      }
      assert r in Deduplicated(q, t) && s in Deduplicated(q, t);
    }
  }

  lemma AtMostOneEngaged(q: Query, t: set<Row>, r: Row)
    requires Unambiguous(q, t) && InScope(q, r)
    ensures |EngagedIn(q, Group(q, t, r))| <= 1
  {
    var e := EngagedIn(q, Group(q, t, r));
    if e != {} {
      var x :| x in e;
      assert e == {x};
    }
  }

  // ----- The whole repair

  function Upgraded(t: set<Row>): set<Row> {
    Deduplicated(ByKind, Deduplicated(ByCriterion, t))
  }

  /** A statement sees and deletes only rows in its own scope. */
  lemma StatementsDoNotMeet(t: set<Row>)
    ensures Doomed(ByKind, Deduplicated(ByCriterion, t)) == Doomed(ByKind, t)
  {
    hide RowNumber, EngagedIn;
    var first := Deduplicated(ByCriterion, t);
    forall r ensures Group(ByKind, first, r) == Group(ByKind, t, r) {
      forall s | s in Group(ByKind, t, r) ensures s in first {
        OutOfScopeStays(ByCriterion, t, s);
      }
    }
    forall r | r in t && InScope(ByKind, r) ensures r in first {
      OutOfScopeStays(ByCriterion, t, r);
    }
  }

  lemma KindsLeaveCriteria(t: set<Row>)
    ensures Indexable(ByCriterion, Deduplicated(ByKind, t)) <==> Indexable(ByCriterion, t)
  {
    forall r | r in t && InScope(ByCriterion, r) ensures r in Deduplicated(ByKind, t) {
      OutOfScopeStays(ByKind, t, r);
    }
  }

  /** Both indexes can be built exactly when neither query finds a group with two engaged rows. */
  lemma UpgradeSucceedsExactlyWhenUnambiguous(t: set<Row>)
    requires Keyed(t)
    ensures Indexable(ByCriterion, Upgraded(t)) && Indexable(ByKind, Upgraded(t))
       <==> Unambiguous(ByCriterion, t) && Unambiguous(ByKind, t)
  {
    hide Doomed, Indexable, Unambiguous;
    var first := Deduplicated(ByCriterion, t);
    IndexableExactlyWhenUnambiguous(ByCriterion, t);
    IndexableExactlyWhenUnambiguous(ByKind, first);
    KindsLeaveCriteria(first);
    assert Unambiguous(ByKind, first) <==> Unambiguous(ByKind, t) by {
      CriteriaLeaveKinds(t);
    }
  }

  lemma CriteriaLeaveKinds(t: set<Row>)
    ensures Unambiguous(ByKind, Deduplicated(ByCriterion, t)) <==> Unambiguous(ByKind, t)
  {
    hide Doomed;
    forall r | r in t && InScope(ByKind, r) ensures r in Deduplicated(ByCriterion, t) {
      OutOfScopeStays(ByCriterion, t, r);
    }
  }

  // ----- The instructor's decisions

  /** An instructor acted on the result: a stored resolution, or an overridden flag. */
  predicate Decided(r: Row) {
    Resolved(r) || Overridden(r)
  }

  predicate KeepsDecisions(q: Query, t: set<Row>) {
    forall r :: r in t && Decided(r) ==> r in Deduplicated(q, t)
  }

  /** A row whose decision this query does not look at is outside it, in an ambiguous group, or the first of its group. */
  predicate Sheltered(q: Query, t: set<Row>, r: Row) {
    || !InScope(q, r)
    || (exists a, b :: a in Group(q, t, r) && b in Group(q, t, r) && a != b && Engaged(q, a) && Engaged(q, b))
    || (forall s :: s in Group(q, t, r) ==> !Engaged(q, s) && r.id <= s.id)
  }

  /**
   * A decision is lost exactly when the query does not look at its mark and
   * the row has a twin that the query prefers.
   */
  lemma KeepsDecisionsExactly(q: Query, t: set<Row>)
    requires Keyed(t)
    ensures KeepsDecisions(q, t)
       <==> forall r :: r in t && Decided(r) && !Engaged(q, r) ==> Sheltered(q, t, r)
  {
    hide Doomed, Sheltered, Engaged, Decided;
    forall r | r in t ensures r in Deduplicated(q, t) <==> Engaged(q, r) || Sheltered(q, t, r) {
      KeptExactly(q, t, r);
    }
  }

  lemma KeptExactly(q: Query, t: set<Row>, r: Row)
    requires Keyed(t) && r in t
    ensures r in Deduplicated(q, t) <==> Engaged(q, r) || Sheltered(q, t, r)
  {
    hide Doomed, RowNumber, Engaged;
    var g := Group(q, t, r);
    if !InScope(q, r) {
      OutOfScopeStays(q, t, r);
    } else if Engaged(q, r) {
      if r in Doomed(q, t) {
        NeverDeletesEngaged(q, t, r);
      }
    } else {
      DoomedExactly(q, t, r);
      TwoEngagedExactly(q, g);
    }
  }

  lemma TwoEngagedExactly(q: Query, g: set<Row>)
    ensures |EngagedIn(q, g)| >= 2 <==> exists a, b :: a in g && b in g && a != b && Engaged(q, a) && Engaged(q, b)
  {
    var e := EngagedIn(q, g);
    if |e| >= 2 {
      var a :| a in e;
      var rest := e - {a};
      assert |rest| >= 1;
      var b :| b in rest;
    }
    if a, b :| a in g && b in g && a != b && Engaged(q, a) && Engaged(q, b) {
      TwoElements(e, a, b);
    }
  }

  /** The row is decided only by a mark its own statement ignores. */
  predicate Unseen(q: Query, r: Row) {
    InScope(q, r) && Decided(r) && !Engaged(q, r)
  }

  /**
   * Exactly when the whole upgrade keeps every decision: when each row
   * decided only by the mark its statement ignores is in an ambiguous group,
   * or has the lowest id in a group without an engaged row.
   */
  lemma UpgradeKeepsDecisionsExactly(t: set<Row>)
    requires Keyed(t)
    ensures (forall r :: r in t && Decided(r) ==> r in Upgraded(t))
       <==> forall q, r :: r in t && Unseen(q, r) ==> Sheltered(q, t, r)
  {
    hide Doomed, Sheltered, Engaged, Decided;
    StatementsDoNotMeet(t);
    assert Upgraded(t) == Deduplicated(ByCriterion, t) * Deduplicated(ByKind, t);
    forall q, r | r in t ensures r in Deduplicated(q, t) <==> Engaged(q, r) || Sheltered(q, t, r) {
      KeptExactly(q, t, r);
    }
    forall q, r | !InScope(q, r) ensures Sheltered(q, t, r) {
      OutsideIsSheltered(q, t, r);
    }
    forall r | r in t ensures r in Upgraded(t) <==> r in Deduplicated(ByCriterion, t) && r in Deduplicated(ByKind, t) {
    }
  }

  lemma OutsideIsSheltered(q: Query, t: set<Row>, r: Row)
    requires !InScope(q, r)
    ensures Sheltered(q, t, r)
  {
  }

  /** Of two twins on one criterion the later one, whose flag was overridden, is deleted. */
  lemma OverrideCanBeDeleted()
    ensures var kept := Row(1, 7, Some(3), "criterion", None, [false]);
            var twin := Row(2, 7, Some(3), "criterion", None, [true]);
            Keyed({kept, twin}) && Decided(twin) && Upgraded({kept, twin}) == {kept}
  {
    var kept := Row(1, 7, Some(3), "criterion", None, [false]);
    var twin := Row(2, 7, Some(3), "criterion", None, [true]);
    var t := {kept, twin};
    hide Doomed, RowNumber, EngagedIn;
    assert !First(ByCriterion, Group(ByCriterion, t, twin), twin) by {
      assert kept in Group(ByCriterion, t, twin);
    }
    assert First(ByCriterion, Group(ByCriterion, t, kept), kept);
    NobodyEngaged(ByCriterion, Group(ByCriterion, t, twin));
    DoomedExactly(ByCriterion, t, twin);
    DoomedExactly(ByCriterion, t, kept);
    DoomedAreRows(ByCriterion, t);
    assert Deduplicated(ByCriterion, t) == {kept};
    OutOfScopeStays(ByKind, {kept}, kept);
    DoomedAreRows(ByKind, {kept});
    assert Deduplicated(ByKind, {kept}) == {kept};
  }

  lemma NobodyEngaged(q: Query, g: set<Row>)
    requires forall s :: s in g ==> !Engaged(q, s)
    ensures EngagedIn(q, g) == {}
  {
  }
}
