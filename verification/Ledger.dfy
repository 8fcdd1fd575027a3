/**
 * The shared daily budget: a JSON ledger changed only under a lock file, by
 * any number of processes that may die at any point (tools/accuracy/
 * budget.py, lines 33-102; tools/accuracy/grading_repeats.py, lines 85-130).
 */
module Ledger {
  import opened Wrappers

  type Day = string
  type Lane = string
  type Pid = nat

  /** The lane of the budgeted transport. */
  const GRADING: Lane := "grading"

  /** One day of the ledger; cap and shares are fixed by whoever opens the day. */
  datatype Entry = Entry(cap: int, attempts: int, lanes: map<Lane, int>, shares: map<Lane, int>)

  type Books = map<Day, Entry>

  datatype Request = Request(day: Day, lane: Lane, n: int, cap: int, shares: map<Lane, int>)

  datatype Refusal = BudgetExceeded

  function Get(m: map<Lane, int>, lane: Lane): int {
    if lane in m then m[lane] else 0
  }

  /** The day's entry, or the one this process would open. */
  function Today(books: Books, r: Request): Entry {
    if r.day in books then books[r.day] else Entry(r.cap, 0, map[], r.shares)
  }

  /** What a reservation does to the ledger it read. */
  function Reserved(books: Books, r: Request): Result<Books, Refusal> {
    var today := Today(books, r);
    var used := Get(today.lanes, r.lane);
    if used + r.n > Get(today.shares, r.lane) then Err(BudgetExceeded)
    else if today.attempts + r.n > today.cap then Err(BudgetExceeded)
    else Ok(books[r.day := today.(lanes := today.lanes[r.lane := used + r.n], attempts := today.attempts + r.n)])
  }

  /** The ledger as one process changes it in memory, inside the lock. */
  class Budget {
    var data: Books

    constructor (data: Books)
      ensures this.data == data
    {
      this.data := data;
    }

    /** The body of `reserve`: the lane's new total, or a refusal that leaves the recorded days alone. */
    method Reserve(r: Request) returns (total: Option<int>)
      modifies this
      ensures total.Some? <==> Reserved(old(data), r).Ok?
      ensures total.Some? ==> data == Reserved(old(data), r).value && total.value == data[r.day].lanes[r.lane]
      ensures total.None? ==> data == old(data)[r.day := Today(old(data), r)]
    {
      if r.day !in data {
        data := data[r.day := Entry(r.cap, 0, map[], r.shares)];
      }
      var today := data[r.day];
      var used, share := Get(today.lanes, r.lane), Get(today.shares, r.lane);
      if used + r.n > share || today.attempts + r.n > today.cap {
        return None;
      }
      today := today.(lanes := today.lanes[r.lane := used + r.n]);
      today := today.(attempts := today.attempts + r.n);
      data := data[r.day := today];
      total := Some(today.lanes[r.lane]);
    }
  }

  // ----- Processes

  /** Where a process stands in a reservation; `call` marks one made to pay for a provider call. */
  datatype Phase =
    | Idle
    | Wanting(r: Request, call: bool)                // waits for the lock file
    | Holding(r: Request, call: bool)                // created it
    | HasRead(r: Request, call: bool, data: Books)
    | Staged(r: Request, call: bool, data: Books)    // wrote the new ledger beside the old one
    | Replaced(r: Request, call: bool)               // moved it over the old one
    | Refused(r: Request, call: bool)                // leaves the lock with an error
    | Paid(r: Request, call: bool)                   // removed the lock file after success
    | Dead

  /** `stopReason` is only known to be set or not; `atStop` remembers how many calls had started by then. */
  datatype Client = Client(phase: Phase, attempts: nat, calls: nat, stopped: bool, atStop: nat)

  const FRESH_CLIENT := Client(Idle, 0, 0, false, 0)

  datatype Grant = Grant(pid: Pid, r: Request, call: bool)

  datatype Sent = Sent(pid: Pid, day: Day)

  datatype World = World(
    file: Books,
    temporary: Option<Books>,
    lock: Option<Pid>,              // the lock file, and who created it
    clients: map<Pid, Client>,
    grants: seq<Grant>,             // every reservation that reached the file
    sends: seq<Sent>                // every provider call that was started
  )

  const START := World(map[], None, None, map[], [], [])

  function ClientOf(w: World, p: Pid): Client {
    if p in w.clients then w.clients[p] else FRESH_CLIENT
  }

  function Becomes(w: World, p: Pid, c: Client): World {
    w.(clients := w.clients[p := c])
  }

  function Moves(w: World, p: Pid, phase: Phase): World {
    Becomes(w, p, ClientOf(w, p).(phase := phase))
  }

  function Stopped(c: Client): Client {
    if c.stopped then c else c.(stopped := true, atStop := c.calls)
  }

  datatype Action =
    | StartReserve(p: Pid, r: Request)
    | StartCall(p: Pid, rightModel: bool, r: Request)
    | TryLock(p: Pid)
    | GiveUp(p: Pid)
    | Read(p: Pid)
    | CheckAndStage(p: Pid)
    | Replace(p: Pid)
    | Unlock(p: Pid)
    | Send(p: Pid)
    | CallEnds(p: Pid, fatal: bool)
    | Fail(p: Pid, leftover: Option<Books>, timeout: bool)
    | Die(p: Pid, leftover: Option<Books>)

  /** One step of one process; an action that is not possible changes nothing. */
  function Step(w: World, a: Action): World {
    var c := ClientOf(w, a.p);
    match a
    case StartReserve(p, r) =>
      if c.phase.Idle? then Moves(w, p, Wanting(r, false)) else w
    case StartCall(p, rightModel, r) =>
      if !c.phase.Idle? || c.stopped then w
      else if !rightModel then Becomes(w, p, Stopped(c))
      else Moves(w, p, Wanting(r.(lane := GRADING, n := 1), true))
    case TryLock(p) =>
      if c.phase.Wanting? && w.lock.None? then
        Moves(w.(lock := Some(p)), p, Holding(c.phase.r, c.phase.call))
      else w
    case GiveUp(p) =>
      if c.phase.Wanting? then
        Becomes(w, p, (if c.phase.call then Stopped(c) else c).(phase := Idle))
      else w
    case Read(p) =>
      if c.phase.Holding? then Moves(w, p, HasRead(c.phase.r, c.phase.call, w.file)) else w
    case CheckAndStage(p) =>
      if !c.phase.HasRead? then w
      else
        var after := Reserved(c.phase.data, c.phase.r);
        if after.Err? then Moves(w, p, Refused(c.phase.r, c.phase.call))
        else Moves(w.(temporary := Some(after.value)), p, Staged(c.phase.r, c.phase.call, after.value))
    case Replace(p) =>
      if c.phase.Staged? && w.temporary.Some? then
        Moves(w.(file := w.temporary.value, temporary := None, grants := w.grants + [Grant(p, c.phase.r, c.phase.call)]),
              p, Replaced(c.phase.r, c.phase.call))
      else w
    case Unlock(p) =>
      if c.phase.Replaced? then Moves(w.(lock := None), p, Paid(c.phase.r, c.phase.call))
      else if c.phase.Refused? then
        Becomes(w.(lock := None), p, (if c.phase.call then Stopped(c) else c).(phase := Idle))
      else w
    case Send(p) =>
      if !c.phase.Paid? then w
      else if !c.phase.call then Moves(w, p, Idle)
      else
        Becomes(w.(sends := w.sends + [Sent(p, c.phase.r.day)]), p,
                c.(phase := Idle, attempts := c.attempts + 1, calls := c.calls + 1))
    case CallEnds(p, fatal) =>
      if c.phase.Idle? && c.calls > 0 && fatal then Becomes(w, p, Stopped(c)) else w
    case Fail(p, leftover, timeout) =>
      // An unreadable ledger, a full disk, a refused move: the lock file goes, and only a timeout stops the transport.
      if c.phase.Holding? || c.phase.HasRead? || c.phase.Staged? then
        Becomes(w.(lock := None, temporary := if c.phase.Holding? then w.temporary else leftover), p,
                (if c.phase.call && timeout then Stopped(c) else c).(phase := Idle))
      else w
    case Die(p, leftover) =>
      var left := if c.phase.HasRead? || c.phase.Staged? then w.(temporary := leftover) else w;
      Moves(left, p, Dead)
  }

  function Run(actions: seq<Action>): World {
    if actions == [] then START
    else Step(Run(actions[..|actions| - 1]), actions[|actions| - 1])
  }

  // ----- The ledger against the reservations that made it

  /** All that was granted on a day to a lane. */
  function Granted(grants: seq<Grant>, day: Day, lane: Lane): int {
    if grants == [] then 0
    else
      var g := grants[|grants| - 1];
      Granted(grants[..|grants| - 1], day, lane) + if g.r.day == day && g.r.lane == lane then g.r.n else 0
  }

  ghost function SumValues(m: map<Lane, int>): int {
    if m == map[] then 0
    else
      var k :| k in m;
      m[k] + SumValues(m - {k})
  }

  lemma {:induction false} SumWithout(m: map<Lane, int>, k: Lane)
    requires k in m
    ensures SumValues(m) == m[k] + SumValues(m - {k})
    decreases |m|
  {
    var j :| j in m && SumValues(m) == m[j] + SumValues(m - {j});
    if j != k {
      assert |m - {j}| < |m|;
      SumWithout(m - {j}, k);
      assert |m - {k}| < |m|;
      SumWithout(m - {k}, j);
      assert m - {j} - {k} == m - {k} - {j};
    }
  }

  lemma SumAfterUpdate(m: map<Lane, int>, k: Lane, v: int)
    ensures SumValues(m[k := v]) == SumValues(m) - Get(m, k) + v
  {
    SumWithout(m[k := v], k);
    assert m[k := v] - {k} == m - {k};
    if k in m {
      SumWithout(m, k);
    } else {
      assert m - {k} == m;
    }
  }

  /** A day's books balance and stay within its limits. */
  ghost predicate Balanced(e: Entry) {
    && e.attempts == SumValues(e.lanes) && e.attempts <= e.cap
    && forall lane :: lane in e.lanes ==> e.lanes[lane] <= Get(e.shares, lane)
  }

  /** Nothing granted was lost and nothing was recorded that was not granted. */
  ghost predicate Faithful(books: Books, grants: seq<Grant>) {
    forall day, lane :: (if day in books then Get(books[day].lanes, lane) else 0) == Granted(grants, day, lane)
  }

  ghost predicate GoodBooks(books: Books, grants: seq<Grant>) {
    (forall day :: day in books ==> Balanced(books[day])) && Faithful(books, grants)
  }

  lemma ReservationBalances(books: Books, r: Request)
    requires r.day in books ==> Balanced(books[r.day])
    requires Reserved(books, r).Ok?
    ensures Balanced(Reserved(books, r).value[r.day])
  {
    var today := Today(books, r);
    SumAfterUpdate(today.lanes, r.lane, Get(today.lanes, r.lane) + r.n);
  }

  lemma ReservationKeepsBooks(books: Books, grants: seq<Grant>, g: Grant)
    requires GoodBooks(books, grants) && Reserved(books, g.r).Ok?
    ensures GoodBooks(Reserved(books, g.r).value, grants + [g])
  {
    var r, today := g.r, Today(books, g.r);
    var after := Reserved(books, r).value;
    ReservationBalances(books, r);
    hide Balanced;
    assert (grants + [g])[..|grants|] == grants;
    forall day, lane
      ensures (if day in after then Get(after[day].lanes, lane) else 0) == Granted(grants + [g], day, lane)
    {
      assert (if day in books then Get(books[day].lanes, lane) else 0) == Granted(grants, day, lane);
    }
  }

  /** The ledger one process would have written, making the reservations one after the other. */
  function Replay(grants: seq<Grant>): Result<Books, Refusal> {
    if grants == [] then Ok(map[])
    else
      match Replay(grants[..|grants| - 1])
      case Err(e) => Err(e)
      case Ok(books) => Reserved(books, grants[|grants| - 1].r)
  }

  /** Reservations made one after the other keep good books. */
  lemma {:induction false} ReplayBalances(grants: seq<Grant>)
    requires Replay(grants).Ok?
    ensures GoodBooks(Replay(grants).value, grants)
  {
    if grants != [] {
      var before, last := grants[..|grants| - 1], grants[|grants| - 1];
      ReplayBalances(before);
      ReservationKeepsBooks(Replay(before).value, before, last);
      assert before + [last] == grants;
    }
  }

  // ----- What every interleaving keeps

  predicate Locks(phase: Phase) {
    phase.Holding? || phase.HasRead? || phase.Staged? || phase.Replaced? || phase.Refused?
  }

  predicate Calling(phase: Phase) {
    !phase.Idle? && !phase.Dead? && phase.call
  }

  /** Only one process is past the lock, and what it read is still in the file. */
  predicate ClientOk(w: World, p: Pid) {
    var c := ClientOf(w, p);
    && (Locks(c.phase) ==> w.lock == Some(p))
    && (c.phase.HasRead? ==> c.phase.data == w.file)
    && (c.phase.Staged? ==> w.temporary == Some(c.phase.data) && Reserved(w.file, c.phase.r) == Ok(c.phase.data))
    && (Calling(c.phase) ==> c.phase.r.lane == GRADING && c.phase.r.n == 1 && !c.stopped)
    && c.attempts == c.calls
    && (c.stopped ==> c.calls == c.atStop)
  }

  /** Who paid for a call on that day, once per reservation. */
  function Payers(grants: seq<Grant>, day: Day): multiset<Pid> {
    if grants == [] then multiset{}
    else
      var g := grants[|grants| - 1];
      Payers(grants[..|grants| - 1], day) + if g.call && g.r.day == day then multiset{g.pid} else multiset{}
  }

  /** Who called the provider on a reservation of that day, once per call. */
  function Callers(sends: seq<Sent>, day: Day): multiset<Pid> {
    if sends == [] then multiset{}
    else
      var s := sends[|sends| - 1];
      Callers(sends[..|sends| - 1], day) + if s.day == day then multiset{s.pid} else multiset{}
  }

  /** One when the process has paid for a call of that day and not yet made it. */
  function Pending(phase: Phase, day: Day): nat {
    if (phase.Replaced? || phase.Paid?) && phase.call && phase.r.day == day then 1 else 0
  }

  predicate SendsPaid(w: World, p: Pid, day: Day) {
    Callers(w.sends, day)[p] + Pending(ClientOf(w, p).phase, day) <= Payers(w.grants, day)[p]
  }

  predicate GrantsOk(grants: seq<Grant>) {
    forall g :: g in grants && g.call ==> g.r.lane == GRADING && g.r.n == 1
  }

  ghost predicate Inv(w: World) {
    && Replay(w.grants) == Ok(w.file)
    && GrantsOk(w.grants)
    && (forall p :: ClientOk(w, p))
    && (forall p, day :: SendsPaid(w, p, day))
  }

  lemma StepKeepsClients(w: World, a: Action, q: Pid)
    requires ClientOk(w, a.p) && ClientOk(w, q)
    ensures ClientOk(Step(w, a), q)
  {
    hide Reserved;
  }

  /** The file changes only where the lock holder replaces it by a reservation on it. */
  lemma StepKeepsReplay(w: World, a: Action)
    requires Inv(w)
    ensures Replay(Step(w, a).grants) == Ok(Step(w, a).file) && GrantsOk(Step(w, a).grants)
  {
    hide Reserved;
    var c := ClientOf(w, a.p);
    assert ClientOk(w, a.p);
    if a.Replace? && c.phase.Staged? {
      assert Step(w, a).grants[..|w.grants|] == w.grants;
    }
  }

  lemma StepKeepsPayments(w: World, a: Action, q: Pid, day: Day)
    requires ClientOk(w, a.p) && SendsPaid(w, q, day)
    ensures SendsPaid(Step(w, a), q, day)
  {
    hide Reserved, Payers, Callers;
    var c := ClientOf(w, a.p);
    if a.Replace? {
      if c.phase.Staged? {
        PayersAppend(w.grants, Grant(a.p, c.phase.r, c.phase.call), day);
      }
    } else if a.Send? {
      if c.phase.Paid? && c.phase.call {
        CallersAppend(w.sends, Sent(a.p, c.phase.r.day), day);
      }
    } else {
      hide Step;
      OtherStepsPayNothing(w, a, q, day);
    }
  }

  /** Other steps neither grant nor send, and leave no more to be sent. */
  lemma OtherStepsPayNothing(w: World, a: Action, q: Pid, day: Day)
    requires !a.Replace? && !a.Send?
    ensures Step(w, a).grants == w.grants && Step(w, a).sends == w.sends
    ensures Pending(ClientOf(Step(w, a), q).phase, day) <= Pending(ClientOf(w, q).phase, day)
  {
    hide Reserved;
  }

  lemma PayersAppend(grants: seq<Grant>, g: Grant, day: Day)
    ensures Payers(grants + [g], day)
         == Payers(grants, day) + if g.call && g.r.day == day then multiset{g.pid} else multiset{}
  {
    assert (grants + [g])[..|grants|] == grants;
  }

  lemma CallersAppend(sends: seq<Sent>, s: Sent, day: Day)
    ensures Callers(sends + [s], day) == Callers(sends, day) + if s.day == day then multiset{s.pid} else multiset{}
  {
    assert (sends + [s])[..|sends|] == sends;
  }

  lemma StepKeepsInv(w: World, a: Action)
    requires Inv(w)
    ensures Inv(Step(w, a))
  {
    hide Step, Replay, GrantsOk, ClientOk, SendsPaid;
    StepKeepsReplay(w, a);
    forall q ensures ClientOk(Step(w, a), q) {
      StepKeepsClients(w, a, q);
    }
    forall q, day ensures SendsPaid(Step(w, a), q, day) {
      StepKeepsPayments(w, a, q, day);
    }
  }

  lemma {:induction false} RunKeepsInv(actions: seq<Action>)
    ensures Inv(Run(actions))
  {
    if actions != [] {
      RunKeepsInv(actions[..|actions| - 1]);
      StepKeepsInv(Run(actions[..|actions| - 1]), actions[|actions| - 1]);
    }
  }

  // ----- Main results, over every run

  /**
   * No lost updates: whatever the interleaving and whoever dies, the ledger
   * is the one that the granted reservations would have left one by one.
   */
  lemma NoLostUpdates(actions: seq<Action>)
    ensures var w := Run(actions); Replay(w.grants) == Ok(w.file) && GoodBooks(w.file, w.grants)
  {
    RunKeepsInv(actions);
    ReplayBalances(Run(actions).grants);
  }

  /** At any moment at most one process is between taking the lock file and removing it. */
  lemma LockExcludes(actions: seq<Action>, p: Pid, q: Pid)
    requires Locks(ClientOf(Run(actions), p).phase) && Locks(ClientOf(Run(actions), q).phase)
    ensures p == q
  {
    RunKeepsInv(actions);
    assert ClientOk(Run(actions), p) && ClientOk(Run(actions), q);
  }

  /** A process that died with the lock stops all bookkeeping until a person removes the file. */
  lemma AbandonedLockFreezesLedger(actions: seq<Action>, more: seq<Action>, p: Pid)
    requires Run(actions).lock == Some(p) && ClientOf(Run(actions), p).phase.Dead?
    ensures var w := Run(actions + more);
            w.file == Run(actions).file && w.grants == Run(actions).grants && w.lock == Some(p)
            && ClientOf(w, p).phase.Dead?
  {
    hide Step, Inv;
    if more == [] {
      assert actions + more == actions;
    } else {
      var before := more[..|more| - 1];
      AbandonedLockFreezesLedger(actions, before, p);
      assert (actions + more)[..|actions + more| - 1] == actions + before;
      RunKeepsInv(actions + before);
      DeadHolderStays(Run(actions + before), more[|more| - 1], p);
    }
  }

  lemma DeadHolderStays(w: World, a: Action, p: Pid)
    requires Inv(w) && w.lock == Some(p) && ClientOf(w, p).phase.Dead?
    ensures var after := Step(w, a);
            after.file == w.file && after.grants == w.grants && after.lock == Some(p) && ClientOf(after, p).phase.Dead?
  {
    hide Reserved, Replay;
    assert ClientOk(w, a.p);
  }

  /** A stopped transport has made no call since it stopped, and it counts each call it made. */
  lemma NothingSentAfterStop(actions: seq<Action>, p: Pid)
    ensures var c := ClientOf(Run(actions), p);
            c.attempts == c.calls && (c.stopped ==> c.calls == c.atStop && !Calling(c.phase))
  {
    RunKeepsInv(actions);
    assert ClientOk(Run(actions), p);
  }

  /** No reservation made outside the transport asks for a negative number. */
  predicate Honest(actions: seq<Action>) {
    forall a :: a in actions && a.StartReserve? ==> a.r.n >= 0
  }

  predicate AskedHonestly(phase: Phase) {
    phase.Idle? || phase.Dead? || phase.r.n >= 0
  }

  lemma {:induction false} HonestGrants(actions: seq<Action>)
    requires Honest(actions)
    ensures forall g :: g in Run(actions).grants ==> g.r.n >= 0
    ensures forall p :: AskedHonestly(ClientOf(Run(actions), p).phase)
  {
    hide Reserved, Step;
    if actions != [] {
      var before, a := actions[..|actions| - 1], actions[|actions| - 1];
      HonestGrants(before);
      assert a in actions;
      forall q ensures AskedHonestly(ClientOf(Run(actions), q).phase) {
        StepStaysHonest(Run(before), a, q);
      }
      StepGrantsHonestly(Run(before), a);
    }
  }

  lemma StepStaysHonest(w: World, a: Action, q: Pid)
    requires AskedHonestly(ClientOf(w, a.p).phase) && AskedHonestly(ClientOf(w, q).phase)
    requires a.StartReserve? ==> a.r.n >= 0
    ensures AskedHonestly(ClientOf(Step(w, a), q).phase)
  {
    hide Reserved;
  }

  lemma StepGrantsHonestly(w: World, a: Action)
    requires AskedHonestly(ClientOf(w, a.p).phase) && forall g :: g in w.grants ==> g.r.n >= 0
    ensures forall g :: g in Step(w, a).grants ==> g.r.n >= 0
  {
    hide Reserved;
  }

  lemma {:induction false} PaymentsAreRecorded(grants: seq<Grant>, day: Day)
    requires GrantsOk(grants) && forall g :: g in grants ==> g.r.n >= 0
    ensures |Payers(grants, day)| <= Granted(grants, day, GRADING)
  {
    if grants != [] {
      PaymentsAreRecorded(grants[..|grants| - 1], day);
    }
  }

  /** Every provider call was recorded before it was made: a day's calls stay within the lane's count, hence its share. */
  lemma CallsNeverPassTheRecord(actions: seq<Action>, day: Day)
    requires Honest(actions)
    ensures var w := Run(actions);
            |Callers(w.sends, day)| <= if day in w.file then Get(w.file[day].lanes, GRADING) else 0
  {
    var w := Run(actions);
    RunKeepsInv(actions);
    NoLostUpdates(actions);
    HonestGrants(actions);
    PaymentsAreRecorded(w.grants, day);
    forall p ensures Callers(w.sends, day)[p] <= Payers(w.grants, day)[p] {
      assert SendsPaid(w, p, day);
    }
    var rest := Payers(w.grants, day) - Callers(w.sends, day);
    assert Payers(w.grants, day) == Callers(w.sends, day) + rest;
  }
}
