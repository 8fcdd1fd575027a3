/**
 * Per-instructor limits on actions: one sliding window for each scope and
 * key, checked and then recorded (backend/app/auth/rate_limit.py, lines
 * 11-45; backend/app/ratelimit.py, lines 14-51).
 */
module ActionLimits {
  import opened SlidingWindow

  type Times = map<string, seq<real>>

  /** A defaultdict's view of a key. */
  function At(m: Times, key: string): seq<real> {
    if key in m then m[key] else []
  }

  /** One key's bucket is what the window still holds of the key's record. */
  ghost predicate Bucket(bucket: seq<real>, recorded: seq<real>, window: real, seen: real) {
    && Ascending(recorded) && Keeps(recorded, bucket, seen - window)
    && (recorded != [] ==> recorded[|recorded| - 1] <= seen)
  }

  ghost predicate Buckets(attempts: Times, recorded: Times, window: real, seen: real) {
    forall k :: Bucket(At(attempts, k), At(recorded, k), window, seen)
  }

  lemma PruneOne(attempts: Times, recorded: Times, window: real, seen: real, key: string, now: real)
    requires Buckets(attempts, recorded, window, seen) && seen <= now
    ensures Buckets(attempts[key := Prune(At(attempts, key), now - window)], recorded, window, now)
  {
    hide Bucket, Prune;
    var after := attempts[key := Prune(At(attempts, key), now - window)];
    forall k
      ensures Bucket(At(after, k), At(recorded, k), window, now)
    {
      LaterBucket(At(attempts, k), At(recorded, k), window, seen, now);
    }
  }

  lemma ForgetOne(attempts: Times, recorded: Times, window: real, seen: real, key: string)
    requires Buckets(attempts, recorded, window, seen)
    ensures Buckets(attempts - {key}, recorded - {key}, window, seen)
  {
    var attempts', recorded' := attempts - {key}, recorded - {key};
    forall k
      ensures Bucket(At(attempts', k), At(recorded', k), window, seen)
    {
      assert Bucket(At(attempts, k), At(recorded, k), window, seen);
    }
  }

  lemma LaterBucket(bucket: seq<real>, recorded: seq<real>, window: real, seen: real, now: real)
    requires Bucket(bucket, recorded, window, seen) && seen <= now
    ensures Bucket(bucket, recorded, window, now)
    ensures Bucket(Prune(bucket, now - window), recorded, window, now)
  {
    PruneKeeps(recorded, bucket, seen - window, now - window);
  }

  lemma StampOne(attempts: Times, recorded: Times, window: real, key: string, now: real, stamp: real)
    requires Buckets(attempts, recorded, window, now) && now <= stamp
    ensures Buckets(attempts[key := At(attempts, key) + [stamp]], recorded[key := At(recorded, key) + [stamp]], window, stamp)
  {
    hide Bucket;
    var attempts', recorded' := attempts[key := At(attempts, key) + [stamp]], recorded[key := At(recorded, key) + [stamp]];
    forall k
      ensures Bucket(At(attempts', k), At(recorded', k), window, stamp)
    {
      LaterStamp(At(attempts, k), At(recorded, k), window, now, stamp);
    }
  }

  lemma LaterStamp(bucket: seq<real>, recorded: seq<real>, window: real, now: real, stamp: real)
    requires Bucket(bucket, recorded, window, now) && now <= stamp
    ensures Bucket(bucket, recorded, window, stamp)
    ensures Bucket(bucket + [stamp], recorded + [stamp], window, stamp)
  {
    var after := recorded + [stamp];
    assert after[|after| - |bucket| - 1..] == bucket + [stamp];
  }

  /** No key's admitted requests ever exceed the limit within the window. */
  ghost predicate WithinLimit(recorded: Times, limit: int, window: real) {
    forall k :: SpacedOrNone(At(recorded, k), limit, window)
  }

  ghost predicate SpacedOrNone(recorded: seq<real>, limit: int, window: real) {
    if limit < 1 then recorded == [] else Ascending(recorded) && Spaced(recorded, limit, window)
  }

  lemma AdmitOne(attempts: Times, recorded: Times, limit: int, window: real, key: string, now: real, stamp: real)
    requires Buckets(attempts, recorded, window, now) && WithinLimit(recorded, limit, window)
    requires |At(attempts, key)| < limit && now <= stamp
    ensures WithinLimit(recorded[key := At(recorded, key) + [stamp]], limit, window)
  {
    assert Bucket(At(attempts, key), At(recorded, key), window, now);
    assert SpacedOrNone(At(recorded, key), limit, window);
    AdmissionKeepsSpacing(At(recorded, key), At(attempts, key), limit, window, now - window, stamp);
    var recorded' := recorded[key := At(recorded, key) + [stamp]];
    forall k
      ensures SpacedOrNone(At(recorded', k), limit, window)
    {
      assert SpacedOrNone(At(recorded, k), limit, window);
    }
  }

  class LoginRateLimiter {
    const maxAttempts: int
    const windowSeconds: real
    var attempts: Times
    ghost var recorded: Times   // every attempt of a key since its last reset
    ghost var seen: real        // the latest reading of the clock

    ghost predicate Valid()
      reads this
    {
      Buckets(attempts, recorded, windowSeconds, seen)
    }

    constructor (maxAttempts: int, windowSeconds: real, ghost start: real)
      ensures Valid() && this.maxAttempts == maxAttempts && this.windowSeconds == windowSeconds
      ensures attempts == map[] && recorded == map[] && seen == start
    {
      this.maxAttempts, this.windowSeconds := maxAttempts, windowSeconds;
      attempts, recorded, seen := map[], map[], start;
    }

    /** `_prune`: other keys and every record stay as they are. */
    method PruneKey(key: string, now: real)
      requires Valid() && seen <= now
      modifies `attempts, `seen
      ensures Valid() && seen == now
      ensures attempts == old(attempts)[key := Prune(At(old(attempts), key), now - windowSeconds)]
    {
      hide Buckets;
      var bucket := At(attempts, key);
      while bucket != [] && bucket[0] < now - windowSeconds
        invariant Prune(bucket, now - windowSeconds) == Prune(At(attempts, key), now - windowSeconds)
        decreases |bucket|
      {
        bucket := bucket[1..];
      }
      PruneOne(attempts, recorded, windowSeconds, seen, key, now);
      attempts := attempts[key := bucket];
      seen := now;
    }

    /** `is_blocked` */
    method IsBlocked(key: string, now: real) returns (blocked: bool)
      requires Valid() && seen <= now
      modifies `attempts, `seen
      ensures Valid() && seen == now
      ensures attempts == old(attempts)[key := Prune(At(old(attempts), key), now - windowSeconds)]
      ensures blocked <==> |attempts[key]| >= maxAttempts
    {
      PruneKey(key, now);
      blocked := |attempts[key]| >= maxAttempts;
    }

    /** `record_attempt`: one reading for the pruning, one for the entry. */
    method RecordAttempt(key: string, now: real, stamp: real)
      requires Valid() && seen <= now <= stamp
      modifies `attempts, `recorded, `seen
      ensures Valid() && seen == stamp
      ensures attempts == old(attempts)[key := Prune(At(old(attempts), key), now - windowSeconds) + [stamp]]
      ensures recorded == old(recorded)[key := At(old(recorded), key) + [stamp]]
    {
      hide Buckets;
      PruneKey(key, now);
      StampOne(attempts, recorded, windowSeconds, key, now, stamp);
      attempts := attempts[key := attempts[key] + [stamp]];
      recorded := recorded[key := At(recorded, key) + [stamp]];
      seen := stamp;
    }

    /** `reset`: the key starts afresh. */
    method Reset(key: string)
      requires Valid()
      modifies `attempts, `recorded
      ensures Valid() && attempts == old(attempts) - {key} && recorded == old(recorded) - {key}
    {
      ForgetOne(attempts, recorded, windowSeconds, seen, key);
      attempts := attempts - {key};
      recorded := recorded - {key};
    }

    /** Check, then record, as one request does on its scope's limiter. */
    method CheckThenRecord(key: string, now: real, later: real, stamp: real) returns (allowed: bool)
      requires Valid() && WithinLimit(recorded, maxAttempts, windowSeconds) && seen <= now <= later <= stamp
      modifies `attempts, `recorded, `seen
      ensures Valid() && WithinLimit(recorded, maxAttempts, windowSeconds) && seen <= stamp
      ensures allowed <==> |Prune(At(old(attempts), key), now - windowSeconds)| < maxAttempts
      ensures recorded == if allowed then old(recorded)[key := At(old(recorded), key) + [stamp]] else old(recorded)
    {
      hide Buckets, WithinLimit;
      var blocked := IsBlocked(key, now);
      allowed := !blocked;
      if allowed {
        AdmitOne(attempts, recorded, maxAttempts, windowSeconds, key, now, stamp);
        RecordAttempt(key, later, stamp);
      }
    }
  }

  // ----- Scopes

  /** The budgets a scope can have; scopes without their own share the default. */
  datatype Settings = Settings(own: map<string, int>, defaultMax: int, windowSeconds: real)

  function MaxAttemptsFor(settings: Settings, scope: string): int {
    if scope in settings.own then settings.own[scope] else settings.defaultMax
  }

  class ActionRateLimits {
    var limiters: map<string, LoginRateLimiter>
    ghost var seen: real

    ghost predicate Valid()
      reads this, limiters.Values
    {
      && (forall s :: s in limiters ==> Sound(limiters[s]) && limiters[s].seen <= seen)
      && (forall s, t :: s in limiters && t in limiters && s != t ==> limiters[s] != limiters[t])
    }

    /** What one scope's limiter promises. */
    static ghost predicate Sound(limiter: LoginRateLimiter)
      reads limiter
    {
      limiter.Valid() && WithinLimit(limiter.recorded, limiter.maxAttempts, limiter.windowSeconds)
    }

    /** A scope's record; a scope without a limiter has none. */
    ghost function RecordOf(scope: string): Times
      reads this, limiters.Values
    {
      if scope in limiters then limiters[scope].recorded else map[]
    }

    function AttemptsOf(scope: string): Times
      reads this, limiters.Values
    {
      if scope in limiters then limiters[scope].attempts else map[]
    }

    constructor (ghost start: real)
      ensures Valid() && limiters == map[] && seen == start
    {
      limiters, seen := map[], start;
    }

    /** `_get_limiter`: a scope's limiter is made on first use, with the settings of that moment. */
    method GetLimiter(settings: Settings, scope: string) returns (limiter: LoginRateLimiter)
      requires Valid()
      modifies this`limiters
      ensures Valid() && scope in limiters && limiter == limiters[scope]
      ensures scope in old(limiters) ==> limiters == old(limiters)
      ensures scope !in old(limiters) ==>
        && fresh(limiter) && limiters == old(limiters)[scope := limiter]
        && limiter.recorded == map[] && limiter.attempts == map[]
        && limiter.maxAttempts == MaxAttemptsFor(settings, scope) && limiter.windowSeconds == settings.windowSeconds
    {
      if scope in limiters {
        return limiters[scope];
      }
      limiter := new LoginRateLimiter(MaxAttemptsFor(settings, scope), settings.windowSeconds, seen);
      limiters := limiters[scope := limiter];
    }

    /**
     * `enforce_action_rate_limit`: refused exactly when the key's window is
     * full; admitted requests are recorded, refused ones are not; and no
     * other scope or key is touched.
     */
    method Enforce(settings: Settings, scope: string, key: string, now: real, later: real, stamp: real)
      returns (allowed: bool)
      requires Valid() && seen <= now <= later <= stamp
      modifies this, limiters.Values
      ensures Valid() && seen == stamp && scope in limiters
      ensures allowed <==>
        |Prune(At(old(AttemptsOf(scope)), key), now - limiters[scope].windowSeconds)| < limiters[scope].maxAttempts
      ensures RecordOf(scope) == if allowed
        then old(RecordOf(scope))[key := At(old(RecordOf(scope)), key) + [stamp]] else old(RecordOf(scope))
      ensures forall s :: s in old(limiters) ==> s in limiters && limiters[s] == old(limiters[s])
      ensures forall s :: s != scope ==> RecordOf(s) == old(RecordOf(s))
    {
      hide Buckets, WithinLimit, Prune, At;
      var limiter := GetLimiter(settings, scope);
      allowed := EnforceOn(limiter, scope, key, now, later, stamp);
    }

    /** The check and the record on the scope's own limiter. */
    method EnforceOn(limiter: LoginRateLimiter, ghost scope: string, key: string, now: real, later: real, stamp: real)
      returns (allowed: bool)
      requires Valid() && scope in limiters && limiter == limiters[scope] && seen <= now <= later <= stamp
      modifies this`seen, limiter
      ensures Valid() && seen == stamp
      ensures allowed <==> |Prune(At(old(limiter.attempts), key), now - limiter.windowSeconds)| < limiter.maxAttempts
      ensures limiter.recorded == if allowed
        then old(limiter.recorded)[key := At(old(limiter.recorded), key) + [stamp]] else old(limiter.recorded)
    {
      hide Buckets, WithinLimit, Prune, At;
      allowed := limiter.CheckThenRecord(key, now, later, stamp);
      seen := stamp;
      forall s | s in limiters && s != scope
        ensures Sound(limiters[s]) && limiters[s].seen <= seen
      {
        assert limiters[s] != limiter;
      }
    }
  }

  /** In every run of requests, any closed window of a scope and key holds at most the scope's budget. */
  lemma AnyWindowHoldsAtMostBudget(limits: ActionRateLimits, scope: string, key: string, t: real)
    requires limits.Valid() && scope in limits.limiters
    ensures var limiter := limits.limiters[scope];
            InInterval(At(limits.RecordOf(scope), key), t, limiter.windowSeconds)
              <= if limiter.maxAttempts < 1 then 0 else limiter.maxAttempts
  {
    var limiter := limits.limiters[scope];
    assert SpacedOrNone(At(limiter.recorded, key), limiter.maxAttempts, limiter.windowSeconds);
    if limiter.maxAttempts >= 1 {
      AtMostLimitInAnyInterval(At(limiter.recorded, key), limiter.maxAttempts, limiter.windowSeconds, t);
    }
  }
}
