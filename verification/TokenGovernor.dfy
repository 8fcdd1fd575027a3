/**
 * The token governor: a minute's admissions fit the token budget, except for
 * one call that is larger than the whole budget and is let in alone
 * (backend/app/rate_governor.py, lines 95-131).
 */
module TokenGovernors {
  import SlidingWindow

  datatype Spend = Spend(at: real, tokens: int)

  datatype Outcome = Admitted(at: real) | Waiting

  function Sum(spends: seq<Spend>): int {
    if spends == [] then 0 else Sum(spends[..|spends| - 1]) + spends[|spends| - 1].tokens
  }

  lemma {:induction false} SumConcat(a: seq<Spend>, b: seq<Spend>)
    ensures Sum(a + b) == Sum(a) + Sum(b)
  {
    if b == [] {
      assert a + b == a;
    } else {
      assert (a + b)[..|a + b| - 1] == a + b[..|b| - 1];
      SumConcat(a, b[..|b| - 1]);
    }
  }

  ghost predicate NoneNegative(spends: seq<Spend>) {
    forall i :: 0 <= i < |spends| ==> spends[i].tokens >= 0
  }

  lemma {:induction false} SumNonnegative(spends: seq<Spend>)
    requires NoneNegative(spends)
    ensures Sum(spends) >= 0
  {
    if spends != [] {
      SumNonnegative(spends[..|spends| - 1]);
    }
  }

  // ----- The record

  ghost predicate Ascending(granted: seq<Spend>) {
    forall i, j :: 0 <= i < j < |granted| ==> granted[i].at <= granted[j].at
  }

  /** The window is the tail of the record; everything dropped from it is older than `start`. */
  ghost predicate Keeps(granted: seq<Spend>, window: seq<Spend>, start: real) {
    && |window| <= |granted| && window == granted[|granted| - |window|..]
    && forall i :: 0 <= i < |granted| - |window| ==> granted[i].at < start
  }

  /** Two or more admissions within a minute of each other fit the budget together. */
  ghost predicate Fits(granted: seq<Spend>, budget: int) {
    forall i, j :: 0 <= i < j < |granted| && granted[j].at - granted[i].at <= 60.0 ==>
      Sum(granted[i..j + 1]) <= budget
  }

  ghost predicate Record(budget: int, granted: seq<Spend>, window: seq<Spend>, seen: real) {
    && Ascending(granted) && Keeps(granted, window, seen - 60.0)
    && (granted != [] ==> granted[|granted| - 1].at <= seen)
    && (NoneNegative(granted) ==> Fits(granted, budget))
  }

  function Prune(window: seq<Spend>, start: real): seq<Spend> {
    if window != [] && window[0].at < start then Prune(window[1..], start) else window
  }

  lemma {:induction false} PruneIsSuffix(window: seq<Spend>, start: real) returns (n: nat)
    ensures n <= |window| && Prune(window, start) == window[n..]
    ensures forall i :: 0 <= i < n ==> window[i].at < start
    ensures n < |window| ==> start <= window[n].at
  {
    if window != [] && window[0].at < start {
      n := PruneIsSuffix(window[1..], start);
      assert forall i :: 1 <= i < |window| ==> window[i] == window[1..][i - 1];
      assert window[1..][n..] == window[n + 1..];
      n := n + 1;
    } else {
      n := 0;
    }
  }

  lemma RecordForgets(budget: int, granted: seq<Spend>, window: seq<Spend>, seen: real, now: real)
    requires Record(budget, granted, window, seen) && seen <= now
    ensures Record(budget, granted, Prune(window, now - 60.0), now)
    ensures var kept := Prune(window, now - 60.0);
            && |kept| <= |window| && (|kept| == |window| ==> kept == window)
            && (kept != [] ==> kept[0].at >= now - 60.0)
            && (window != [] && window[0].at < now - 60.0 ==> |kept| < |window|)
  {
    hide Fits, Sum;
    var n := PruneIsSuffix(window, now - 60.0);
    var m := |granted| - |window|;
    assert granted[m..][n..] == granted[m + n..];
    forall i | m <= i < m + n
      ensures granted[i].at < now - 60.0
    {
      assert granted[i] == window[i - m];
    }
  }

  /** An admission that the loop grants keeps the record. */
  lemma RecordGrows(budget: int, granted: seq<Spend>, window: seq<Spend>, now: real, tokens: int)
    requires Record(budget, granted, window, now)
    requires window == [] || Sum(window) + tokens <= budget
    ensures Record(budget, granted + [Spend(now, tokens)], window + [Spend(now, tokens)], now)
  {
    hide Fits, Sum, Keeps, Ascending, NoneNegative;
    WindowGrows(granted, window, Spend(now, tokens), now - 60.0);
    if NoneNegative(granted + [Spend(now, tokens)]) {
      NoneWereNegative(granted, Spend(now, tokens));
      FitsGrows(budget, granted, window, now, tokens);
    }
  }

  lemma WindowGrows(granted: seq<Spend>, window: seq<Spend>, s: Spend, start: real)
    requires Ascending(granted) && Keeps(granted, window, start)
    requires granted != [] ==> granted[|granted| - 1].at <= s.at
    ensures Ascending(granted + [s]) && Keeps(granted + [s], window + [s], start)
  {
    var after := granted + [s];
    assert after[|after| - |window| - 1..] == window + [s];
  }

  lemma NoneWereNegative(granted: seq<Spend>, s: Spend)
    requires NoneNegative(granted + [s])
    ensures NoneNegative(granted)
  {
    var after := granted + [s];
    assert forall i :: 0 <= i < |granted| ==> granted[i] == after[i];
  }

  lemma FitsGrows(budget: int, granted: seq<Spend>, window: seq<Spend>, now: real, tokens: int)
    requires NoneNegative(granted) && Fits(granted, budget) && Keeps(granted, window, now - 60.0)
    requires window == [] || Sum(window) + tokens <= budget
    ensures Fits(granted + [Spend(now, tokens)], budget)
  {
    hide Sum, Keeps;
    var after := granted + [Spend(now, tokens)];
    forall i, j | 0 <= i < j < |after| && after[j].at - after[i].at <= 60.0
      ensures Sum(after[i..j + 1]) <= budget
    {
      if j < |granted| {
        assert after[i..j + 1] == granted[i..j + 1];
      } else {
        LastFits(budget, granted, window, now, tokens, i);
        assert after[i..j + 1] == after[i..];
      }
    }
  }

  lemma LastFits(budget: int, granted: seq<Spend>, window: seq<Spend>, now: real, tokens: int, i: nat)
    requires Keeps(granted, window, now - 60.0) && NoneNegative(granted)
    requires window == [] || Sum(window) + tokens <= budget
    requires i < |granted| && now - granted[i].at <= 60.0
    ensures Sum((granted + [Spend(now, tokens)])[i..]) <= budget
  {
    var m := |granted| - |window|;
    assert i >= m;
    var older, newer := granted[m..i], granted[i..];
    assert window == older + newer;
    SumConcat(older, newer);
    assert forall k :: 0 <= k < |older| ==> older[k] == granted[m + k];
    SumNonnegative(older);
    assert (granted + [Spend(now, tokens)])[i..] == newer + [Spend(now, tokens)];
    SumConcat(newer, [Spend(now, tokens)]);
    assert [Spend(now, tokens)][..0] == [];
  }

  // ----- The governor

  class TokenGovernor {
    const tokensPerMinute: int
    var window: seq<Spend>
    ghost var granted: seq<Spend>   // every admission ever granted
    ghost var seen: real

    ghost predicate Valid()
      reads this
    {
      tokensPerMinute > 0 && Record(tokensPerMinute, granted, window, seen)
    }

    /** A budget that is not positive is refused when the governor is built. */
    constructor (tokensPerMinute: int, ghost start: real)
      requires tokensPerMinute > 0
      ensures Valid() && this.tokensPerMinute == tokensPerMinute && granted == [] && seen == start
    {
      this.tokensPerMinute := tokensPerMinute;
      window, granted, seen := [], [], start;
    }

    method Forget(now: real)
      requires Valid() && seen <= now
      modifies `window, `seen
      ensures Valid() && seen == now && window == Prune(old(window), now - 60.0)
    {
      hide Record;
      ghost var before := window;
      while window != [] && window[0].at < now - 60.0
        invariant Prune(window, now - 60.0) == Prune(before, now - 60.0) && seen == old(seen)
        decreases |window|
      {
        window := window[1..];
      }
      RecordForgets(tokensPerMinute, granted, before, seen, now);
      seen := now;
    }

    /** sum(spent for _, spent in window) */
    method Used() returns (used: int)
      ensures used == Sum(window)
    {
      used := 0;
      for i := 0 to |window|
        invariant used == Sum(window[..i])
      {
        assert window[..i + 1][..i] == window[..i];
        used := used + window[i].tokens;
      }
      assert window[..|window|] == window;
    }

    /** At this reading the window is empty, or the request fits beside what it holds. */
    ghost predicate HasRoom(tokens: int, now: real)
      reads this
    {
      var kept := Prune(window, now - 60.0);
      kept == [] || Sum(kept) + tokens <= tokensPerMinute
    }

    /**
     * `acquire`, as far as the given readings of the clock take it. With
     * sleeps that last, it ends within two sleeps for each entry that was
     * in the window.
     */
    method Acquire(tokens: int, readings: seq<real>) returns (r: Outcome, slept: seq<real>)
      requires Valid() && SlidingWindow.ClockRuns(readings, seen)
      modifies this
      ensures Valid() && |slept| <= |readings|
      ensures match r
              case Admitted(at) => |slept| < |readings| && at == readings[|slept|] == seen
                && granted == old(granted) + [Spend(at, tokens)]
              case Waiting => |slept| == |readings| && granted == old(granted)
      ensures readings != [] && old(HasRoom(tokens, readings[0])) ==> r == Admitted(readings[0]) && slept == []
      ensures SlidingWindow.SleepsLast(readings, slept) && |readings| > 2 * |old(window)| ==> r.Admitted?
    {
      hide Record, Prune;
      slept := [];
      ghost var size, floor := |window|, seen;
      while |slept| < |readings|
        invariant Valid() && |slept| <= |readings| && granted == old(granted) && |window| <= size
        invariant slept == [] ==> window == old(window)
        invariant slept != [] ==> !old(HasRoom(tokens, readings[0]))
        invariant |slept| < |readings| ==> seen <= readings[|slept|]
        invariant SlidingWindow.SleepsLast(readings, slept) ==>
          && (0 < |slept| < |readings| ==> floor <= readings[|slept|])
          && Progress(size, |slept|, floor)
        decreases |readings| - |slept|
      {
        var now := readings[|slept|];
        RecordForgets(tokensPerMinute, granted, window, seen, now);
        Forget(now);
        var used := Used();
        if window == [] || used + tokens <= tokensPerMinute {
          RecordGrows(tokensPerMinute, granted, window, now, tokens);
          window := window + [Spend(now, tokens)];
          granted := granted + [Spend(now, tokens)];
          return Admitted(now), slept;
        }
        var wait := if window[0].at + 60.0 - now < 0.01 then 0.01 else window[0].at + 60.0 - now;
        slept, floor := slept + [wait], now + wait;
      }
      r := Waiting;
    }

    /** Two sleeps for each dropped entry, and up to two more that bring the clock past the oldest one left. */
    ghost predicate Progress(size: nat, sleeps: nat, floor: real)
      requires |window| <= size
      reads this
    {
      var paid := 2 * (size - |window|);
      || (sleeps <= paid)
      || (window != [] && sleeps <= paid + 1 && floor >= window[0].at + 60.0)
      || (window != [] && sleeps <= paid + 2 && floor > window[0].at + 60.0)
    }
  }

  // ----- Every minute of every run

  function SumIn(granted: seq<Spend>, t: real): int {
    if granted == [] then 0
    else
      var last := granted[|granted| - 1];
      SumIn(granted[..|granted| - 1], t) + if t <= last.at <= t + 60.0 then last.tokens else 0
  }

  function CountIn(granted: seq<Spend>, t: real): nat {
    if granted == [] then 0
    else
      var last := granted[|granted| - 1];
      CountIn(granted[..|granted| - 1], t) + if t <= last.at <= t + 60.0 then 1 else 0
  }

  /** Where the interval begins in the record, seen from an admission inside it. */
  lemma {:induction false} FromFirstInside(granted: seq<Spend>, t: real) returns (i: nat)
    requires Ascending(granted) && forall k :: 0 <= k < |granted| ==> granted[k].at <= t + 60.0
    ensures i <= |granted| && SumIn(granted, t) == Sum(granted[i..]) && CountIn(granted, t) == |granted| - i
    ensures forall k :: i <= k < |granted| ==> t <= granted[k].at
  {
    if granted == [] {
      i := 0;
    } else {
      var n := |granted| - 1;
      i := FromFirstInside(granted[..n], t);
      if t <= granted[n].at {
        assert granted[i..][..n - i] == granted[..n][i..];
      } else {
        assert granted[..n][i..] == [];
        i := n + 1;
      }
    }
  }

  /**
   * Safety over every run with nonnegative requests: a closed minute either
   * fits the budget, or holds exactly one admission, itself larger than the
   * whole budget.
   */
  lemma {:induction false} AnyMinuteFitsOrHoldsOneGiant(budget: int, granted: seq<Spend>, t: real)
    requires budget > 0 && Ascending(granted) && NoneNegative(granted) && Fits(granted, budget)
    ensures SumIn(granted, t) <= budget || (CountIn(granted, t) == 1 && SumIn(granted, t) > budget)
  {
    if granted != [] {
      var n := |granted| - 1;
      if granted[n].at > t + 60.0 {
        PrefixFits(budget, granted, n);
        AnyMinuteFitsOrHoldsOneGiant(budget, granted[..n], t);
      } else {
        var i := FromFirstInside(granted, t);
        if i < n {
          assert granted[n].at - granted[i].at <= 60.0;
          assert Sum(granted[i..n + 1]) <= budget;
          assert granted[i..n + 1] == granted[i..];
        } else if i == n {
          assert granted[i..][..0] == [];
        } else {
          assert granted[i..] == [];
        }
      }
    }
  }

  lemma PrefixFits(budget: int, granted: seq<Spend>, n: nat)
    requires n <= |granted| && Ascending(granted) && NoneNegative(granted) && Fits(granted, budget)
    ensures Ascending(granted[..n]) && NoneNegative(granted[..n]) && Fits(granted[..n], budget)
  {
    forall i, j | 0 <= i < j < n && granted[..n][j].at - granted[..n][i].at <= 60.0
      ensures Sum(granted[..n][i..j + 1]) <= budget
    {
      assert granted[..n][i..j + 1] == granted[i..j + 1];
    }
  }

  lemma GovernorFitsEveryMinute(governor: TokenGovernor, t: real)
    requires governor.Valid() && NoneNegative(governor.granted)
    ensures var sum := SumIn(governor.granted, t);
            sum <= governor.tokensPerMinute || (CountIn(governor.granted, t) == 1 && sum > governor.tokensPerMinute)
  {
    AnyMinuteFitsOrHoldsOneGiant(governor.tokensPerMinute, governor.granted, t);
  }
}
