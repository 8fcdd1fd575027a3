/** What a run of admissions owes a sliding window: at most so many in any closed interval of its length. */
module SlidingWindow {
  ghost predicate Ascending(at: seq<real>) {
    forall i, j :: 0 <= i < j < |at| ==> at[i] <= at[j]
  }

  /** Any admission comes more than a window after the one `limit` places before it. */
  ghost predicate Spaced(at: seq<real>, limit: nat, window: real) {
    forall i, j :: 0 <= i && j == i + limit && j < |at| ==> at[j] - at[i] > window
  }

  /** How many admissions lie in the closed interval that begins at t. */
  function InInterval(at: seq<real>, t: real, window: real): nat {
    if at == [] then 0
    else InInterval(at[..|at| - 1], t, window) + if t <= at[|at| - 1] <= t + window then 1 else 0
  }

  lemma {:induction false} InIntervalConcat(a: seq<real>, b: seq<real>, t: real, window: real)
    ensures InInterval(a + b, t, window) == InInterval(a, t, window) + InInterval(b, t, window)
  {
    if b == [] {
      assert a + b == a;
    } else {
      assert (a + b)[..|a + b| - 1] == a + b[..|b| - 1];
      InIntervalConcat(a, b[..|b| - 1], t, window);
    }
  }

  lemma {:induction false} InIntervalBounds(at: seq<real>, t: real, window: real)
    ensures InInterval(at, t, window) <= |at|
    ensures (forall i :: 0 <= i < |at| ==> at[i] < t) ==> InInterval(at, t, window) == 0
  {
    if at != [] {
      InIntervalBounds(at[..|at| - 1], t, window);
    }
  }

  /** The window's promise, over the whole run and for every closed interval of its length. */
  lemma {:induction false} AtMostLimitInAnyInterval(at: seq<real>, limit: nat, window: real, t: real)
    requires limit > 0 && Ascending(at) && Spaced(at, limit, window)
    ensures InInterval(at, t, window) <= limit
  {
    var n := |at|;
    if n <= limit {
      InIntervalBounds(at, t, window);
    } else if t <= at[n - 1] <= t + window {
      var early, recent := at[..n - limit], at[n - limit..];
      assert at[n - 1] - at[n - 1 - limit] > window;
      assert forall i :: 0 <= i < |early| ==> early[i] <= at[n - 1 - limit];
      assert at == early + recent;
      InIntervalConcat(early, recent, t, window);
      InIntervalBounds(early, t, window);
      InIntervalBounds(recent, t, window);
    } else {
      AtMostLimitInAnyInterval(at[..n - 1], limit, window, t);
    }
  }

  /** The oldest entries that left the window. */
  function Prune(at: seq<real>, start: real): seq<real> {
    if at != [] && at[0] < start then Prune(at[1..], start) else at
  }

  /** The kept part is a suffix, and everything before it is older than the start. */
  lemma {:induction false} PruneIsSuffix(at: seq<real>, start: real) returns (n: nat)
    ensures n <= |at| && Prune(at, start) == at[n..]
    ensures forall i :: 0 <= i < n ==> at[i] < start
    ensures n < |at| ==> start <= at[n]
  {
    if at != [] && at[0] < start {
      n := PruneIsSuffix(at[1..], start);
      assert forall i :: 1 <= i < |at| ==> at[i] == at[1..][i - 1];
      assert at[1..][n..] == at[n + 1..];
      n := n + 1;
    } else {
      n := 0;
    }
  }

  /** The kept entries are the tail of the run; everything dropped is older than `start`. */
  ghost predicate Keeps(at: seq<real>, kept: seq<real>, start: real) {
    && |kept| <= |at| && kept == at[|at| - |kept|..]
    && forall i :: 0 <= i < |at| - |kept| ==> at[i] < start
  }

  lemma KeepsLater(at: seq<real>, kept: seq<real>, start: real, later: real)
    requires Keeps(at, kept, start) && start <= later
    ensures Keeps(at, kept, later)
  {
  }

  lemma PruneKeeps(at: seq<real>, kept: seq<real>, start: real, later: real)
    requires Keeps(at, kept, start) && start <= later
    ensures Keeps(at, Prune(kept, later), later)
    ensures |Prune(kept, later)| <= |kept|
    ensures Prune(kept, later) != [] ==> later <= Prune(kept, later)[0]
  {
    var n := PruneIsSuffix(kept, later);
    var m := |at| - |kept|;
    assert at[m..][n..] == at[m + n..];
    forall i | m <= i < m + n
      ensures at[i] < later
    {
      assert at[i] == kept[i - m];
    }
  }

  /** With fewer than `limit` entries kept, one more admission keeps the run spaced. */
  lemma AdmissionKeepsSpacing(at: seq<real>, kept: seq<real>, limit: nat, window: real, start: real, now: real)
    requires Ascending(at) && Spaced(at, limit, window)
    requires Keeps(at, kept, start) && |kept| < limit
    requires start + window <= now && (at != [] ==> at[|at| - 1] <= now)
    ensures Ascending(at + [now]) && Spaced(at + [now], limit, window)
    ensures Keeps(at + [now], kept + [now], start)
  {
    var after := at + [now];
    assert after[|after| - |kept| - 1..] == kept + [now];
    forall i, j | 0 <= i && j == i + limit && j < |after|
      ensures after[j] - after[i] > window
    {
      if j == |at| {
        assert at[i] < start;
      }
    }
  }

  // ----- The clock of a waiting caller

  /** Readings never go back, from `from` on. */
  ghost predicate ClockRuns(readings: seq<real>, from: real) {
    && (readings != [] ==> from <= readings[0])
    && (forall i, j :: 0 <= i && j == i + 1 && j < |readings| ==> readings[i] <= readings[j])
  }

  /** Each sleep lasts at least as long as it was asked to. */
  ghost predicate SleepsLast(readings: seq<real>, slept: seq<real>) {
    forall i, j :: 0 <= i < |slept| && j == i + 1 && j < |readings| ==> readings[j] >= readings[i] + slept[i]
  }
}
