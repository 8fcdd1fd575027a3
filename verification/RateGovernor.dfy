/**
 * The request governor: at most `rpm` calls in any minute, a minimum interval
 * that can only be tightened, and a cooldown after a provider's rejection
 * (backend/app/rate_governor.py, lines 33-92).
 */
module RateGovernors {
  import opened Wrappers
  import opened SlidingWindow

  /** What other tasks do while this one sleeps; each with its own clock reading. */
  datatype Event = Tighten(seconds: real) | Defer(seconds: real, now: real)

  datatype Outcome = Admitted(at: real) | Deferred | Waiting | NoOldest

  function Max(a: real, b: real): real {
    if a < b then b else a
  }

  /** No event during any of the sleeps tightens the interval. */
  ghost predicate NothingTightens(during: seq<seq<Event>>) {
    forall i, e :: 0 <= i < |during| && e in during[i] ==> e.Defer?
  }

  class RateGovernor {
    const rpm: int
    var timestamps: seq<real>
    var minInterval: real
    var lastAdmittedAt: Option<real>
    var deferredUntil: real
    ghost var granted: seq<real>     // when each admission ever was granted,
    ghost var intervals: seq<real>   // with the minimum interval then in force
    ghost var cooldowns: seq<real>   // and the cooldown then in force
    ghost var seen: real             // the latest reading at the head of the loop

    /** Everything the governor promises about its whole past. */
    ghost predicate Valid()
      reads this
    {
      minInterval >= 0.0 && Record(rpm, granted, intervals, cooldowns, timestamps, lastAdmittedAt, seen)
    }

    constructor (rpm: int, ghost start: real)
      ensures Valid() && this.rpm == rpm && granted == [] && seen == start
      ensures minInterval == 0.0 && deferredUntil == 0.0
    {
      this.rpm := rpm;
      timestamps, minInterval, lastAdmittedAt, deferredUntil := [], 0.0, None, 0.0;
      granted, intervals, cooldowns, seen := [], [], [], start;
    }

    /** `tighten_min_interval`; false stands for the ValueError. */
    method TightenMinInterval(seconds: real) returns (ok: bool)
      requires Valid()
      modifies `minInterval
      ensures Valid()
      ensures ok <==> seconds >= 0.0
      ensures minInterval == if ok then Max(old(minInterval), seconds) else old(minInterval)
    {
      hide Record;
      ok := seconds >= 0.0;
      if ok {
        minInterval := Max(minInterval, seconds);
      }
    }

    /** `defer_for` at a reading of the clock; false stands for the ValueError. */
    method DeferFor(seconds: real, now: real) returns (ok: bool)
      requires Valid()
      modifies `deferredUntil
      ensures Valid()
      ensures ok <==> seconds > 0.0
      ensures deferredUntil == if ok then Max(old(deferredUntil), now + seconds) else old(deferredUntil)
    {
      hide Record;
      ok := seconds > 0.0;
      if ok {
        deferredUntil := Max(deferredUntil, now + seconds);
      }
    }

    /** What the other tasks did during one sleep. */
    method Interfere(events: seq<Event>)
      requires Valid()
      modifies `minInterval, `deferredUntil
      ensures Valid()
      ensures minInterval >= old(minInterval) && deferredUntil >= old(deferredUntil)
      ensures (forall e :: e in events ==> e.Defer?) ==> minInterval == old(minInterval)
    {
      hide Record;
      for k := 0 to |events|
        invariant Valid()
        invariant minInterval >= old(minInterval) && deferredUntil >= old(deferredUntil)
        invariant (forall e :: e in events ==> e.Defer?) ==> minInterval == old(minInterval)
      {
        assert events[k] in events;
        var ok;
        match events[k] {
          case Tighten(seconds) => ok := TightenMinInterval(seconds);
          case Defer(seconds, now) => ok := DeferFor(seconds, now);
        }
      }
    }

    /** Nothing keeps a caller from being admitted at this reading: no cooldown, a free slot, and the interval is over. */
    ghost predicate HasRoom(now: real)
      reads this
    {
      && now >= deferredUntil && |Prune(timestamps, now - 60.0)| < rpm
      && (lastAdmittedAt.Some? ==> now >= lastAdmittedAt.value + minInterval)
    }

    /**
     * `acquire`, as far as the given readings of the clock take it, with what
     * happens during the sleep after each. An
     * admission is recorded with the limits in force; without one the record
     * is untouched. A caller is never made to wait when there is room, and
     * never during a cooldown. The record keeps every promise in `Valid`, whatever
     * other tasks do during the sleeps.
     */
    method Acquire(readings: seq<real>, during: seq<seq<Event>>) returns (r: Outcome, slept: seq<real>)
      requires Valid() && ClockRuns(readings, seen) && |during| == |readings|
      modifies this
      ensures Valid() && |slept| <= |readings|
      ensures r.Waiting? ==> |slept| == |readings|
      ensures !r.Waiting? ==> |slept| < |readings| && seen == readings[|slept|]
      ensures match r
              case Admitted(at) => at == seen >= deferredUntil && granted == old(granted) + [at]
                && intervals == old(intervals) + [minInterval] && cooldowns == old(cooldowns) + [deferredUntil]
              case Deferred => granted == old(granted) && seen < deferredUntil
              case Waiting => granted == old(granted)
              case NoOldest => granted == old(granted) && rpm < 1
      ensures readings != [] && readings[0] < old(deferredUntil) ==> r.Deferred? && slept == []
      ensures readings != [] && old(HasRoom(readings[0])) ==> r == Admitted(readings[0]) && slept == []
      ensures rpm >= 1 && NothingTightens(during) && SleepsLast(readings, slept) && |readings| > 3 ==> !r.Waiting?
    {
      hide Record, Prune;
      slept := [];
      ghost var floor: real := seen;
      while |slept| < |readings|
        invariant Valid() && |slept| <= |readings|
        invariant slept == [] ==>
          && timestamps == old(timestamps) && lastAdmittedAt == old(lastAdmittedAt)
          && minInterval == old(minInterval) && deferredUntil == old(deferredUntil)
        invariant slept != [] ==> readings[0] >= old(deferredUntil) && !old(HasRoom(readings[0]))
        invariant granted == old(granted) && intervals == old(intervals) && cooldowns == old(cooldowns)
        invariant |slept| < |readings| ==> seen <= readings[|slept|]
        invariant rpm >= 1 && NothingTightens(during) && SleepsLast(readings, slept) && |slept| > 0 ==>
          && (|slept| < |readings| ==> floor <= readings[|slept|])
          && Progress(|slept|, floor)
        decreases |readings| - |slept|
      {
        var now := readings[|slept|];
        if now < deferredUntil {
          Reach(now);
          return Deferred, slept;
        }
        ghost var kept := timestamps;
        Forget(now);
        PruneDropsHead(kept, now - 60.0);
        RecordMeans(rpm, granted, intervals, cooldowns, timestamps, lastAdmittedAt, seen);
        if |timestamps| < rpm {
          var remaining := if lastAdmittedAt.Some? then lastAdmittedAt.value + minInterval - now else 0.0;
          if remaining <= 0.0 {
            Admit(now);
            return Admitted(now), slept;
          }
          slept, floor := slept + [remaining], now + remaining;
        } else {
          if timestamps == [] {
            return NoOldest, slept;
          }
          var wait := Max(timestamps[0] + 60.0 - now, 0.01);
          slept, floor := slept + [wait], now + wait;
        }
        Interfere(during[|slept| - 1]);
      }
      r := Waiting;
    }

    /** A reading of the clock that changes nothing. */
    ghost method Reach(now: real)
      requires Valid() && seen <= now
      modifies `seen
      ensures Valid() && seen == now
    {
      hide Record;
      RecordForgets(rpm, granted, intervals, cooldowns, timestamps, lastAdmittedAt, seen, now);
      seen := now;
    }

    /** How far the sleeps so far have brought the caller: the window sleeps come first, at most two of them. */
    ghost predicate Progress(sleeps: nat, floor: real)
      reads this
    {
      || (sleeps <= 3 && |timestamps| < rpm && lastAdmittedAt.Some? && floor >= lastAdmittedAt.value + minInterval)
      || (sleeps <= 2 && |timestamps| == rpm >= 1
          && (if sleeps == 1 then floor >= timestamps[0] + 60.0 else floor > timestamps[0] + 60.0))
    }

    /** The inner loop: timestamps that left the window are dropped. */
    method Forget(now: real)
      requires Valid() && seen <= now
      modifies `timestamps, `seen
      ensures Valid() && seen == now
      ensures timestamps == Prune(old(timestamps), now - 60.0)
      ensures timestamps != [] ==> timestamps[0] >= now - 60.0
    {
      hide Record;
      ghost var before := timestamps;
      while timestamps != [] && timestamps[0] < now - 60.0
        invariant Prune(timestamps, now - 60.0) == Prune(before, now - 60.0) && seen == old(seen)
        decreases |timestamps|
      {
        timestamps := timestamps[1..];
      }
      RecordForgets(rpm, granted, intervals, cooldowns, before, lastAdmittedAt, seen, now);
      seen := now;
    }

    method Admit(now: real)
      requires Valid() && seen == now && |timestamps| < rpm && now >= deferredUntil
      requires lastAdmittedAt.Some? ==> now >= lastAdmittedAt.value + minInterval
      modifies `timestamps, `lastAdmittedAt, `granted, `intervals, `cooldowns
      ensures Valid() && granted == old(granted) + [now]
      ensures intervals == old(intervals) + [minInterval] && cooldowns == old(cooldowns) + [deferredUntil]
    {
      hide Record;
      RecordGrows(rpm, granted, intervals, cooldowns, timestamps, lastAdmittedAt, now, minInterval, deferredUntil);
      timestamps := timestamps + [now];
      lastAdmittedAt := Some(now);
      granted, intervals, cooldowns := granted + [now], intervals + [minInterval], cooldowns + [deferredUntil];
    }
  }

  /** The promise on the values: the deque is what the window still holds of the record, and the record is disciplined. */
  ghost predicate Record(rpm: int, granted: seq<real>, intervals: seq<real>, cooldowns: seq<real>,
                         timestamps: seq<real>, lastAdmittedAt: Option<real>, seen: real)
  {
    && Keeps(granted, timestamps, seen - 60.0)
    && (if rpm < 1 then granted == [] else |timestamps| <= rpm && Spaced(granted, rpm, 60.0))
    && Ascending(granted)
    && lastAdmittedAt == (if granted == [] then None else Some(granted[|granted| - 1]))
    && (granted != [] ==> granted[|granted| - 1] <= seen)
    && Paced(granted, intervals, cooldowns)
  }

  lemma RecordForgets(rpm: int, granted: seq<real>, intervals: seq<real>, cooldowns: seq<real>,
                      timestamps: seq<real>, lastAdmittedAt: Option<real>, seen: real, now: real)
    requires Record(rpm, granted, intervals, cooldowns, timestamps, lastAdmittedAt, seen) && seen <= now
    ensures Record(rpm, granted, intervals, cooldowns, Prune(timestamps, now - 60.0), lastAdmittedAt, now)
    ensures Record(rpm, granted, intervals, cooldowns, timestamps, lastAdmittedAt, now)
    ensures var kept := Prune(timestamps, now - 60.0); kept != [] ==> kept[0] >= now - 60.0
  {
    hide Keeps, Spaced, Paced, Ascending, Prune;
    PruneKeeps(granted, timestamps, seen - 60.0, now - 60.0);
    KeepsLater(granted, timestamps, seen - 60.0, now - 60.0);
  }

  lemma RecordGrows(rpm: int, granted: seq<real>, intervals: seq<real>, cooldowns: seq<real>,
                    timestamps: seq<real>, lastAdmittedAt: Option<real>, now: real, interval: real, cooldown: real)
    requires Record(rpm, granted, intervals, cooldowns, timestamps, lastAdmittedAt, now)
    requires |timestamps| < rpm && now >= cooldown
    requires lastAdmittedAt.Some? ==> now >= lastAdmittedAt.value + interval
    ensures Record(rpm, granted + [now], intervals + [interval], cooldowns + [cooldown], timestamps + [now], Some(now), now)
  {
    AdmissionKeepsSpacing(granted, timestamps, rpm, 60.0, now - 60.0, now);
    AdmissionKeepsPace(granted, intervals, cooldowns, now, interval, cooldown);
    hide Keeps, Spaced, Paced, Ascending;
  }

  lemma RecordMeans(rpm: int, granted: seq<real>, intervals: seq<real>, cooldowns: seq<real>,
                    timestamps: seq<real>, lastAdmittedAt: Option<real>, seen: real)
    requires Record(rpm, granted, intervals, cooldowns, timestamps, lastAdmittedAt, seen)
    ensures rpm >= 1 ==> |timestamps| <= rpm
    ensures rpm < 1 ==> granted == [] && timestamps == []
  {
  }

  /** Each admission is no earlier than its cooldown, and its interval or more after the one before it. */
  ghost predicate Paced(granted: seq<real>, intervals: seq<real>, cooldowns: seq<real>) {
    && |granted| == |intervals| == |cooldowns|
    && (forall i :: 0 <= i < |granted| ==> granted[i] >= cooldowns[i])
    && (forall i, j :: 0 <= i && j == i + 1 && j < |granted| ==> granted[j] - granted[i] >= intervals[j])
  }

  /** Pruning keeps everything, or drops at least the oldest. */
  lemma {:induction false} PruneDropsHead(at: seq<real>, start: real)
    ensures |Prune(at, start)| <= |at|
    ensures |Prune(at, start)| == |at| ==> Prune(at, start) == at
    ensures at != [] && at[0] < start ==> |Prune(at, start)| < |at|
  {
    if at != [] && at[0] < start {
      PruneDropsHead(at[1..], start);
    }
  }

  lemma AdmissionKeepsPace(granted: seq<real>, intervals: seq<real>, cooldowns: seq<real>, now: real, interval: real, cooldown: real)
    requires Paced(granted, intervals, cooldowns) && now >= cooldown
    requires granted != [] ==> now >= granted[|granted| - 1] + interval
    ensures Paced(granted + [now], intervals + [interval], cooldowns + [cooldown])
  {
  }

  /**
   * Safety over every run: since every method keeps `Valid` and only
   * `Acquire` adds to the record, any closed minute holds at most `rpm`
   * admissions, each at least the interval then in force after the one
   * before it, and none before the cooldown then in force.
   */
  lemma AnyMinuteHoldsAtMostRpm(governor: RateGovernor, t: real)
    requires governor.Valid()
    ensures InInterval(governor.granted, t, 60.0) <= if governor.rpm < 1 then 0 else governor.rpm
    ensures forall i :: 0 <= i < |governor.granted| ==>
      && governor.granted[i] >= governor.cooldowns[i]
      && (i > 0 ==> governor.granted[i] >= governor.granted[i - 1] + governor.intervals[i])
  {
    if governor.rpm >= 1 {
      AtMostLimitInAnyInterval(governor.granted, governor.rpm, 60.0, t);
    }
    forall i | 0 < i < |governor.granted|
      ensures governor.granted[i] >= governor.granted[i - 1] + governor.intervals[i]
    {
      assert governor.granted[i] - governor.granted[i - 1] >= governor.intervals[i];
    }
  }
}
