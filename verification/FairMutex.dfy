/** The fair lock: a data mutex behind a second mutex that reserves the next turn.

    Every thread is at one point of one of the calls; a step takes or releases one mutex, or a thread
    decides what to do next.  Acquiring blocks, that is, it has no step while the mutex is taken. */
module FairMutex {
  import opened Wrappers

  type Thread = nat

  /** Where a thread is.
      lock():        WantNext, NextWantData, NextInData (about to return, which drops the reservation), InData.
      lease():       WantLease, Leased; from there try_lock_unfair() may succeed, fail, or lock_unfair() may
                     wait (LeasedWantData); LeasedInData holds both; the data guard goes away before the lease
                     (LeasedDone).
      lock_unfair(): WantData, then InData. */
  datatype Place =
    | Idle
    | WantNext
    | NextWantData
    | NextInData
    | InData
    | WantLease
    | Leased
    | LeasedWantData
    | LeasedInData
    | LeasedDone
    | WantData

  datatype Mutexes = Mutexes(next: Option<Thread>, data: Option<Thread>, at: seq<Place>)

  datatype Step =
    | CallLock | CallLease | CallLockUnfair
    | TakeNext        // next.lock() returns, in lock() or lease()
    | TakeData        // data.lock() returns
    | DropNext        // lock() returns, which drops the reservation
    | TryData         // try_lock_unfair() under a lease succeeds
    | TryFails        // or fails, because the data is taken
    | BlockOnData     // lock_unfair() under a lease
    | DropData        // the data guard goes away
    | DropLease       // the lease guard goes away

  predicate HoldsNext(p: Place) {
    p in {NextWantData, NextInData, Leased, LeasedWantData, LeasedInData, LeasedDone}
  }

  predicate HoldsData(p: Place) {
    p in {NextInData, InData, LeasedInData}
  }

  predicate Enabled(m: Mutexes, t: Thread, s: Step) {
    t < |m.at| &&
    match s
    case CallLock => m.at[t] == Idle
    case CallLease => m.at[t] == Idle
    case CallLockUnfair => m.at[t] == Idle
    case TakeNext => m.next.None? && (m.at[t] == WantNext || m.at[t] == WantLease)
    case TakeData => m.data.None? && (m.at[t] == NextWantData || m.at[t] == LeasedWantData || m.at[t] == WantData)
    case DropNext => m.at[t] == NextInData
    case TryData => m.data.None? && m.at[t] == Leased
    case TryFails => m.data.Some? && m.at[t] == Leased
    case BlockOnData => m.at[t] == Leased
    case DropData => m.at[t] == InData || m.at[t] == LeasedInData
    case DropLease => m.at[t] == Leased || m.at[t] == LeasedDone
  }

  /** Where the thread is after the step. */
  function Moved(p: Place, s: Step): Place {
    match s
    case CallLock => WantNext
    case CallLease => WantLease
    case CallLockUnfair => WantData
    case TakeNext => if p == WantNext then NextWantData else Leased
    case TakeData => if p == NextWantData then NextInData else if p == LeasedWantData then LeasedInData else InData
    case DropNext => InData
    case TryData => LeasedInData
    case TryFails => p
    case BlockOnData => LeasedWantData
    case DropData => if p == LeasedInData then LeasedDone else Idle
    case DropLease => Idle
  }

  function Next(m: Mutexes, t: Thread, s: Step): Mutexes
    requires Enabled(m, t, s)
  {
    var at := m.at[t := Moved(m.at[t], s)];
    match s
    case TakeNext => Mutexes(Some(t), m.data, at)
    case TakeData => Mutexes(m.next, Some(t), at)
    case TryData => Mutexes(m.next, Some(t), at)
    case DropNext => Mutexes(None, m.data, at)
    case DropData => Mutexes(m.next, None, at)
    case DropLease => Mutexes(None, m.data, at)
    case _ => m.(at := at)
  }

  /** The threads are numbered; none is in a call yet. */
  function Initial(threads: nat): Mutexes {
    Mutexes(None, None, seq(threads, _ => Idle))
  }

  type Run = seq<(Thread, Step)>

  ghost predicate Runs(m: Mutexes, run: Run, n: Mutexes)
    decreases |run|
  {
    if run == [] then m == n
    else
      var (t, s) := run[0];
      Enabled(m, t, s) && Runs(Next(m, t, s), run[1..], n)
  }

  /** Each mutex is held by exactly the one thread whose place says so. */
  ghost predicate Inv(m: Mutexes) {
    && (forall t :: 0 <= t < |m.at| ==> (HoldsNext(m.at[t]) <==> m.next == Some(t)))
    && (forall t :: 0 <= t < |m.at| ==> (HoldsData(m.at[t]) <==> m.data == Some(t)))
    && (m.next.Some? ==> m.next.value < |m.at|)
    && (m.data.Some? ==> m.data.value < |m.at|)
  }

  lemma StepKeepsInv(m: Mutexes, t: Thread, s: Step)
    requires Inv(m) && Enabled(m, t, s)
    ensures Inv(Next(m, t, s))
    ensures |Next(m, t, s).at| == |m.at|
  {
  }

  lemma {:induction false} RunKeepsInv(m: Mutexes, run: Run, n: Mutexes)
    requires Inv(m) && Runs(m, run, n)
    ensures Inv(n) && |n.at| == |m.at|
    decreases |run|
  {
    if run != [] {
      var (t, s) := run[0];
      StepKeepsInv(m, t, s);
      RunKeepsInv(Next(m, t, s), run[1..], n);
    }
  }

  /** What some run of that many threads leads to. */
  ghost predicate Reachable(threads: nat, m: Mutexes) {
    exists run :: Runs(Initial(threads), run, m)
  }

  lemma ReachableKeepsInv(threads: nat, m: Mutexes)
    requires Reachable(threads, m)
    ensures Inv(m) && |m.at| == threads
  {
    var run :| Runs(Initial(threads), run, m);
    RunKeepsInv(Initial(threads), run, m);
  }

  /** No two threads are ever in the data, and no two hold the reservation. */
  lemma MutualExclusion(threads: nat, n: Mutexes, t: Thread, u: Thread)
    requires Reachable(threads, n) && t < threads && u < threads && t != u
    ensures |n.at| == threads
    ensures !(HoldsData(n.at[t]) && HoldsData(n.at[u]))
    ensures !(HoldsNext(n.at[t]) && HoldsNext(n.at[u]))
  {
    ReachableKeepsInv(threads, n);
  }

  // ------------------------------------------------------------------------------------------
  // What each call does
  // ------------------------------------------------------------------------------------------

  /** The ways through the lock when nobody else is in it: each call holds what it should on its way, and leaves both
      mutexes as they were. */
  lemma LockGoesThrough(m: Mutexes, t: Thread)
    requires t < |m.at| && m.at[t] == Idle && m.next == None && m.data == None
    ensures var wants := Next(m, t, CallLock);
            var reserved := Next(wants, t, TakeNext);
            var both := Next(reserved, t, TakeData);
            var locked := Next(both, t, DropNext);
            && reserved == Mutexes(Some(t), None, m.at[t := NextWantData])
            && both == Mutexes(Some(t), Some(t), m.at[t := NextInData])
            && locked == Mutexes(None, Some(t), m.at[t := InData])
            && Next(locked, t, DropData) == m
  {
    assert m.at[t := Idle] == m.at;
  }

  lemma UnfairLockGoesThrough(m: Mutexes, t: Thread)
    requires t < |m.at| && m.at[t] == Idle && m.data == None
    ensures var wants := Next(m, t, CallLockUnfair);
            var locked := Next(wants, t, TakeData);
            && locked == Mutexes(m.next, Some(t), m.at[t := InData]) && Next(locked, t, DropData) == m
  {
    assert m.at[t := Idle] == m.at;
  }

  lemma LeaseGoesThrough(m: Mutexes, t: Thread)
    requires t < |m.at| && m.at[t] == Idle && m.next == None && m.data == None
    ensures var wants := Next(m, t, CallLease);
            var leased := Next(wants, t, TakeNext);
            var tried := Next(leased, t, TryData);
            var waited := Next(Next(leased, t, BlockOnData), t, TakeData);
            && leased == Mutexes(Some(t), None, m.at[t := Leased])
            && Next(leased, t, DropLease) == m
            && tried == waited == Mutexes(Some(t), Some(t), m.at[t := LeasedInData])
            && Next(Next(tried, t, DropData), t, DropLease) == m
  {
    assert m.at[t := Idle] == m.at;
  }

  /** Each acquisition blocks exactly while its mutex is taken; trying never does, and fails exactly then. */
  lemma BlocksExactlyWhileTaken(m: Mutexes, t: Thread)
    requires t < |m.at|
    ensures m.at[t] in {WantNext, WantLease} ==> (Enabled(m, t, TakeNext) <==> m.next == None)
    ensures m.at[t] in {NextWantData, LeasedWantData, WantData} ==> (Enabled(m, t, TakeData) <==> m.data == None)
    ensures m.at[t] == Leased ==> (Enabled(m, t, TryData) <==> m.data == None)
    ensures m.at[t] == Leased ==> (Enabled(m, t, TryFails) <==> m.data != None)
    ensures m.data != None && m.at[t] == Leased ==> Next(m, t, TryFails) == m
  {
    assert m.at[t := m.at[t]] == m.at;
  }

  // ------------------------------------------------------------------------------------------
  // Fairness
  // ------------------------------------------------------------------------------------------

  /** A step by which a thread gets the data through lock(). */
  predicate LocksFairly(m: Mutexes, t: Thread, s: Step) {
    t < |m.at| && s == TakeData && m.at[t] == NextWantData
  }

  /** All along the run, thread t keeps holding the reservation. */
  ghost predicate KeepsReservation(m: Mutexes, run: Run, t: Thread)
    decreases |run|
  {
    t < |m.at| && HoldsNext(m.at[t]) &&
    (run != [] ==>
       var (u, s) := run[0];
       Enabled(m, u, s) && KeepsReservation(Next(m, u, s), run[1..], t))
  }

  /** How often other threads get the data through lock() during a run. */
  function Overtakes(m: Mutexes, run: Run, t: Thread): nat
    decreases |run|
  {
    if run == [] then 0
    else
      var (u, s) := run[0];
      if !Enabled(m, u, s) then 0
      else (if u != t && LocksFairly(m, u, s) then 1 else 0) + Overtakes(Next(m, u, s), run[1..], t)
  }

  /** While a thread holds the reservation, nobody else gets the data through lock(). */
  lemma {:induction false} ReservationIsHonoured(m: Mutexes, run: Run, t: Thread)
    requires Inv(m) && KeepsReservation(m, run, t)
    ensures Overtakes(m, run, t) == 0
    decreases |run|
  {
    if run != [] {
      var (u, s) := run[0];
      StepKeepsInv(m, u, s);
      ReservationIsHonoured(Next(m, u, s), run[1..], t);
    }
  }

  /** The reservation is given up only by its holder: in lock() once it has the data, or by dropping the lease. */
  lemma ReservationEnds(m: Mutexes, t: Thread, u: Thread, s: Step)
    requires Inv(m) && Enabled(m, u, s) && t < |m.at| && HoldsNext(m.at[t])
    ensures !HoldsNext(Next(m, u, s).at[t]) ==>
              u == t && ((s == DropNext && Next(m, u, s).data == Some(t)) || s == DropLease)
  {
  }

  /** Thread t makes no step in the run. */
  ghost predicate Without(run: Run, t: Thread) {
    forall i :: 0 <= i < |run| ==> run[i].0 != t
  }

  predicate HoldsSome(p: Place) {
    HoldsNext(p) || HoldsData(p)
  }

  /** As long as a thread stays where it holds one of the mutexes, nobody passes it. */
  lemma {:induction false} HolderIsNotPassed(m: Mutexes, run: Run, n: Mutexes, t: Thread)
    requires Inv(m) && Runs(m, run, n) && Without(run, t) && t < |m.at| && HoldsSome(m.at[t])
    ensures Overtakes(m, run, t) == 0
    decreases |run|
  {
    if run != [] {
      var (u, s) := run[0];
      StepKeepsInv(m, u, s);
      assert Without(run[1..], t);
      HolderIsNotPassed(Next(m, u, s), run[1..], n, t);
    }
  }

  lemma {:induction false} RunsInTurn(m: Mutexes, a: Run, n: Mutexes, b: Run, o: Mutexes, t: Thread)
    requires Runs(m, a, n) && Runs(n, b, o)
    ensures Runs(m, a + b, o)
    ensures Overtakes(m, a + b, t) == Overtakes(m, a, t) + Overtakes(n, b, t)
    decreases |a|
  {
    if a == [] {
      assert a + b == b;
    } else {
      var (u, s) := a[0];
      RunsInTurn(Next(m, u, s), a[1..], n, b, o, t);
      assert (a + b)[0] == a[0] && (a + b)[1..] == a[1..] + b;
    }
  }

  lemma OneStep(m: Mutexes, t: Thread, s: Step, n: Mutexes, watcher: Thread)
    requires Enabled(m, t, s) && Next(m, t, s) == n
    ensures Runs(m, [(t, s)], n)
    ensures Overtakes(m, [(t, s)], watcher) == if t != watcher && LocksFairly(m, t, s) then 1 else 0
  {
    var rest: Run := [(t, s)][1..];
    assert rest == [] && Runs(n, rest, n);
  }

  /** While a thread stays where it holds nothing, the others can finish without it. */
  lemma {:induction false} OthersCanFinish(m: Mutexes, t: Thread) returns (run: Run, n: Mutexes)
    requires Inv(m) && t < |m.at| && !HoldsSome(m.at[t])
    ensures Runs(m, run, n) && Without(run, t)
    ensures n == Mutexes(None, None, seq(|m.at|, i => if i == t then m.at[t] else Idle))
    decreases TotalLeft(m.at)
  {
    if v :| 0 <= v < |m.at| && v != t && m.at[v] != Idle {
      var u, s := CanGoOn(m, v);
      StepKeepsInv(m, u, s);
      AdvanceShrinks(m, u, s);
      var rest;
      rest, n := OthersCanFinish(Next(m, u, s), t);
      run := [(u, s)] + rest;
      assert run[1..] == rest;
    } else {
      run, n := [], Mutexes(None, None, seq(|m.at|, i => if i == t then m.at[t] else Idle));
      assert m.at == n.at;
    }
  }

  /** With both mutexes free, another thread locks and unlocks. */
  lemma PassOnce(m: Mutexes, t: Thread, u: Thread) returns (run: Run)
    requires m.next == None && m.data == None && u < |m.at| && u != t && m.at[u] == Idle
    ensures Runs(m, run, m) && Without(run, t) && Overtakes(m, run, t) == 1
  {
    var m1 := Next(m, u, CallLock);
    var m2 := Next(m1, u, TakeNext);
    var m3 := Next(m2, u, TakeData);
    var m4 := Next(m3, u, DropNext);
    OneStep(m, u, CallLock, m1, t);
    OneStep(m1, u, TakeNext, m2, t);
    OneStep(m2, u, TakeData, m3, t);
    OneStep(m3, u, DropNext, m4, t);
    assert m4.at[u := Idle] == m.at;
    OneStep(m4, u, DropData, m, t);
    RunsInTurn(m, [(u, CallLock)], m1, [(u, TakeNext)], m2, t);
    RunsInTurn(m, [(u, CallLock)] + [(u, TakeNext)], m2, [(u, TakeData)], m3, t);
    RunsInTurn(m, [(u, CallLock)] + [(u, TakeNext)] + [(u, TakeData)], m3, [(u, DropNext)], m4, t);
    run := [(u, CallLock)] + [(u, TakeNext)] + [(u, TakeData)] + [(u, DropNext)] + [(u, DropData)];
    RunsInTurn(m, [(u, CallLock)] + [(u, TakeNext)] + [(u, TakeData)] + [(u, DropNext)], m4, [(u, DropData)], m, t);
  }

  lemma {:induction false} PassOften(m: Mutexes, t: Thread, u: Thread, k: nat) returns (run: Run)
    requires m.next == None && m.data == None && u < |m.at| && u != t && m.at[u] == Idle
    ensures Runs(m, run, m) && Without(run, t) && Overtakes(m, run, t) == k
    decreases k
  {
    if k == 0 {
      run := [];
    } else {
      var once := PassOnce(m, t, u);
      var rest := PassOften(m, t, u, k - 1);
      RunsInTurn(m, once, m, rest, m, t);
      run := once + rest;
    }
  }

  /** A thread that holds neither mutex can be passed by any one other thread any number of times before it makes
      its next step. */
  lemma CanBePassed(m: Mutexes, t: Thread, u: Thread, k: nat) returns (run: Run, n: Mutexes)
    requires Inv(m) && t < |m.at| && u < |m.at| && u != t && !HoldsSome(m.at[t])
    ensures Runs(m, run, n) && Without(run, t) && Overtakes(m, run, t) >= k
    ensures n.at == seq(|m.at|, i => if i == t then m.at[t] else Idle)
  {
    var finish;
    finish, n := OthersCanFinish(m, t);
    var rounds := PassOften(n, t, u, k);
    RunsInTurn(m, finish, n, rounds, n, t);
    run := finish + rounds;
  }

  /** Nobody passes the thread before it makes its next step, whatever the others do. */
  ghost predicate Safe(m: Mutexes, t: Thread) {
    forall run, n :: Runs(m, run, n) && Without(run, t) ==> Overtakes(m, run, t) == 0
  }

  lemma HolderIsSafe(m: Mutexes, t: Thread)
    requires Inv(m) && t < |m.at| && HoldsSome(m.at[t])
    ensures Safe(m, t)
  {
    forall run, n | Runs(m, run, n) && Without(run, t) ensures Overtakes(m, run, t) == 0 {
      HolderIsNotPassed(m, run, n, t);
    }
  }

  lemma PassedIsNotSafe(m: Mutexes, t: Thread, run: Run, n: Mutexes)
    requires Runs(m, run, n) && Without(run, t) && Overtakes(m, run, t) > 0
    ensures !Safe(m, t)
  {
  }

  /** In every reachable state with another thread around, a thread is safe from being passed exactly while it holds
      one of the mutexes. */
  lemma SafeExactlyWhileHolding(threads: nat, m: Mutexes, t: Thread)
    requires Reachable(threads, m) && t < threads && threads >= 2
    ensures |m.at| == threads && (Safe(m, t) <==> HoldsSome(m.at[t]))
  {
    hide Runs, Overtakes, Without, Safe;
    ReachableKeepsInv(threads, m);
    if HoldsSome(m.at[t]) {
      HolderIsSafe(m, t);
    } else {
      var run, n := CanBePassed(m, t, if t == 0 then 1 else 0, 1);
      PassedIsNotSafe(m, t, run, n);
    }
  }

  /** So a thread inside lock() that has not got the data yet is safe exactly once it holds the reservation. */
  lemma SafeOnceReserved(threads: nat, m: Mutexes, t: Thread)
    requires Reachable(threads, m) && t < threads == |m.at| && threads >= 2
    requires m.at[t] == WantNext || m.at[t] == NextWantData
    ensures Safe(m, t) <==> HoldsNext(m.at[t])
  {
    hide Safe;
    SafeExactlyWhileHolding(threads, m, t);
  }

  /** Merely waiting in lock() is not enough: here thread 0 waits for the reservation that thread 1 holds, and
      thread 1 then gets the data k times before thread 0 moves at all. */
  lemma WaitingIsNotEnough(k: nat) returns (m: Mutexes, run: Run, n: Mutexes)
    ensures m == Mutexes(Some(1), None, [WantNext, NextWantData]) && Reachable(2, m)
    ensures Runs(m, run, n) && Without(run, 0) && Overtakes(m, run, 0) >= k && n.at == [WantNext, Idle]
  {
    m := Mutexes(Some(1), None, [WantNext, NextWantData]);
    WaitBehindReservation(m);
    run, n := CanBePassed(m, 0, 1, k);
  }

  lemma WaitBehindReservation(m: Mutexes)
    requires m == Mutexes(Some(1), None, [WantNext, NextWantData])
    ensures Reachable(2, m)
  {
    var m0, m1 := Mutexes(None, None, [Idle, Idle]), Mutexes(None, None, [Idle, WantNext]);
    var m2 := Mutexes(Some(1), None, [Idle, NextWantData]);
    assert Initial(2) == m0;
    OneStep(m0, 1, CallLock, m1, 0);
    OneStep(m1, 1, TakeNext, m2, 0);
    OneStep(m2, 0, CallLock, m, 0);
    RunsInTurn(m0, [(1, CallLock)], m1, [(1, TakeNext)], m2, 0);
    RunsInTurn(m0, [(1, CallLock)] + [(1, TakeNext)], m2, [(0, CallLock)], m, 0);
  }

  // ------------------------------------------------------------------------------------------
  // Progress
  // ------------------------------------------------------------------------------------------

  /** A step that carries on a call instead of starting one or trying in vain. */
  predicate Advances(s: Step) {
    s !in {CallLock, CallLease, CallLockUnfair, TryFails}
  }

  /** How many steps a thread needs at most to finish its call. */
  function StepsLeft(p: Place): nat {
    match p
    case Idle => 0
    case InData => 1
    case LeasedDone => 1
    case NextInData => 2
    case LeasedInData => 2
    case WantData => 2
    case NextWantData => 3
    case LeasedWantData => 3
    case WantNext => 4
    case Leased => 4
    case WantLease => 5
  }

  function TotalLeft(at: seq<Place>): nat {
    if at == [] then 0 else StepsLeft(at[0]) + TotalLeft(at[1..])
  }

  lemma {:induction false} TotalAfterUpdate(at: seq<Place>, t: nat, p: Place)
    requires t < |at|
    ensures TotalLeft(at[t := p]) == TotalLeft(at) - StepsLeft(at[t]) + StepsLeft(p)
  {
    if t == 0 {
      assert at[t := p][1..] == at[1..];
    } else {
      TotalAfterUpdate(at[1..], t - 1, p);
      assert at[t := p][1..] == at[1..][t - 1 := p];
    }
  }

  /** Some thread can carry its call on: the holder of the data, else of the reservation, else the thread given. */
  lemma CanGoOn(m: Mutexes, t: Thread) returns (u: Thread, s: Step)
    requires Inv(m) && t < |m.at| && m.at[t] != Idle
    ensures Enabled(m, u, s) && Advances(s) && (u == t || HoldsSome(m.at[u]))
  {
    if m.data.Some? {
      u := m.data.value;
      s := if m.at[u] == NextInData then DropNext else DropData;
    } else if m.next.Some? {
      u := m.next.value;
      s := if m.at[u] == Leased then BlockOnData else if m.at[u] == LeasedDone then DropLease else TakeData;
    } else {
      u := t;
      s := if m.at[t] == WantData then TakeData else TakeNext;
    }
  }

  /** There is no deadlock: in every reachable state in which a call is under way, some call can be carried on. */
  lemma NoDeadlock(threads: nat, m: Mutexes)
    requires Reachable(threads, m) && exists t :: 0 <= t < |m.at| && m.at[t] != Idle
    ensures exists u, s :: Enabled(m, u, s) && Advances(s)
  {
    ReachableKeepsInv(threads, m);
    var t :| 0 <= t < |m.at| && m.at[t] != Idle;
    var u, s := CanGoOn(m, t);
  }

  lemma AdvanceShrinks(m: Mutexes, t: Thread, s: Step)
    requires Enabled(m, t, s) && Advances(s)
    ensures TotalLeft(Next(m, t, s).at) < TotalLeft(m.at)
  {
    TotalAfterUpdate(m.at, t, Next(m, t, s).at[t]);
  }

  lemma {:induction false} CallsCanFinish(m: Mutexes) returns (run: Run, n: Mutexes)
    requires Inv(m)
    ensures Runs(m, run, n) && forall i :: 0 <= i < |run| ==> Advances(run[i].1)
    ensures forall t :: 0 <= t < |n.at| ==> n.at[t] == Idle
    ensures n.next == None && n.data == None
    decreases TotalLeft(m.at)
  {
    if t :| 0 <= t < |m.at| && m.at[t] != Idle {
      var u, s := CanGoOn(m, t);
      StepKeepsInv(m, u, s);
      AdvanceShrinks(m, u, s);
      var rest;
      rest, n := CallsCanFinish(Next(m, u, s));
      run := [(u, s)] + rest;
      assert run[1..] == rest;
    } else {
      run, n := [], m;
    }
  }

  /** From every reachable state, the calls that are under way can all be completed; and however they are
      interleaved, carrying them on takes at most TotalLeft steps. */
  lemma AllCallsCanFinish(threads: nat, m: Mutexes) returns (run: Run, n: Mutexes)
    requires Reachable(threads, m)
    ensures Runs(m, run, n) && forall i :: 0 <= i < |run| ==> Advances(run[i].1)
    ensures n == Initial(threads)
  {
    ReachableKeepsInv(threads, m);
    run, n := CallsCanFinish(m);
    RunKeepsInv(m, run, n);
    assert n.at == Initial(threads).at;
  }

  lemma {:induction false} CallsFinishInBoundedSteps(m: Mutexes, run: Run, n: Mutexes)
    requires Runs(m, run, n) && forall i :: 0 <= i < |run| ==> Advances(run[i].1)
    ensures |run| + TotalLeft(n.at) <= TotalLeft(m.at)
    decreases |run|
  {
    if run != [] {
      var (t, s) := run[0];
      AdvanceShrinks(m, t, s);
      assert forall i :: 0 <= i < |run| - 1 ==> run[1..][i] == run[i + 1];
      CallsFinishInBoundedSteps(Next(m, t, s), run[1..], n);
    }
  }
}
