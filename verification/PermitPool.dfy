/** The resizable pool of upload permits, as a protocol between the pool and its acquire calls.

    Each acquire call is one numbered client.  The pool's methods run under its lock and are atomic;
    between them clients receive tokens, give up, and drop permits in any order. */
module PermitPool {
  import opened Sequences
  import opened Wrappers

  type Id = nat

  const MOST: nat := 15

  function ClampMax(max: nat): (r: nat)
    ensures 1 <= r <= MOST
  {
    if max < 1 then 1 else if max > MOST then MOST else max
  }

  /** What the lock protects; a waiter is the sending half of its client's one-shot channel. */
  datatype Pool = Pool(max: nat, inflight: nat, waiters: seq<Id>)

  /** The elements of a sequence that belong to a set, in order. */
  function Keep(s: seq<Id>, ids: set<Id>): (r: seq<Id>)
    ensures forall x :: x in r <==> x in s && x in ids
  {
    if s == [] then []
    else if s[0] in ids then [s[0]] + Keep(s[1..], ids)
    else Keep(s[1..], ids)
  }

  ghost predicate Distinct(s: seq<Id>) {
    forall i, j :: 0 <= i < j < |s| ==> s[i] != s[j]
  }

  /** The pool afterwards, and the clients that were sent a token, in order. */
  datatype Outcome = Outcome(pool: Pool, sent: seq<Id>)

  /** Sends tokens from the front of the queue; sending fails for a client that is gone. */
  function Grant(p: Pool, open: set<Id>): Outcome
    decreases |p.waiters|
  {
    if p.inflight >= p.max || p.waiters == [] then Outcome(p, [])
    else
      var rest := p.waiters[1..];
      if p.waiters[0] in open then
        var o := Grant(Pool(p.max, p.inflight + 1, rest), open);
        Outcome(o.pool, [p.waiters[0]] + o.sent)
      else
        Grant(Pool(p.max, p.inflight, rest), open)
  }

  function Room(p: Pool): nat {
    if p.inflight < p.max then p.max - p.inflight else 0
  }

  function Least(a: nat, b: nat): nat { if a <= b then a else b }

  ghost predicate Suffix(r: seq<Id>, s: seq<Id>) {
    |r| <= |s| && r == s[|s| - |r|..]
  }

  /** The first live waiters are served, as many as there is room for, and nobody is left queued while there is
      room. */
  ghost predicate ServesFirstLive(p: Pool, open: set<Id>, o: Outcome) {
    var live := Keep(p.waiters, open);
    var k := Least(|live|, Room(p));
    && o.sent == live[..k]
    && Keep(o.pool.waiters, open) == live[k..]
    && o.pool.max == p.max && o.pool.inflight == p.inflight + k
    && (o.pool.waiters != [] ==> o.pool.inflight >= o.pool.max)
    && Suffix(o.pool.waiters, p.waiters)
  }

  lemma {:induction false} GrantServesFirstLive(p: Pool, open: set<Id>)
    ensures ServesFirstLive(p, open, Grant(p, open))
    decreases |p.waiters|
  {
    hide Keep, ServesFirstLive;
    if p.inflight >= p.max || p.waiters == [] {
      NothingToServe(p, open);
    } else {
      var head, rest := p.waiters[0], p.waiters[1..];
      if head in open {
        var q := Pool(p.max, p.inflight + 1, rest);
        GrantServesFirstLive(q, open);
        ServeHead(p, open, Grant(q, open));
      } else {
        var q := Pool(p.max, p.inflight, rest);
        GrantServesFirstLive(q, open);
        SkipHead(p, open, Grant(q, open));
      }
    }
  }

  lemma NothingToServe(p: Pool, open: set<Id>)
    requires p.inflight >= p.max || p.waiters == []
    ensures ServesFirstLive(p, open, Outcome(p, []))
  {
  }

  lemma ServeHead(p: Pool, open: set<Id>, o: Outcome)
    requires p.inflight < p.max && p.waiters != [] && p.waiters[0] in open
    requires ServesFirstLive(Pool(p.max, p.inflight + 1, p.waiters[1..]), open, o)
    ensures ServesFirstLive(p, open, Outcome(o.pool, [p.waiters[0]] + o.sent))
  {
    hide Keep;
    var live := Keep(p.waiters[1..], open);
    KeepHead(p.waiters, open);
    HeadAndSlices(p.waiters[0], live, Least(|live|, Room(p) - 1));
  }

  lemma SkipHead(p: Pool, open: set<Id>, o: Outcome)
    requires p.inflight < p.max && p.waiters != [] && p.waiters[0] !in open
    requires ServesFirstLive(Pool(p.max, p.inflight, p.waiters[1..]), open, o)
    ensures ServesFirstLive(p, open, o)
  {
    hide Keep;
    KeepHead(p.waiters, open);
  }

  lemma KeepNothing(ids: set<Id>)
    ensures Keep([], ids) == []
  {
  }

  lemma KeepHead(s: seq<Id>, ids: set<Id>)
    requires s != []
    ensures Keep(s, ids) == if s[0] in ids then [s[0]] + Keep(s[1..], ids) else Keep(s[1..], ids)
  {
  }

  lemma HeadAndSlices(head: Id, tail: seq<Id>, k: nat)
    requires k <= |tail|
    ensures ([head] + tail)[..k + 1] == [head] + tail[..k]
    ensures ([head] + tail)[k + 1..] == tail[k..]
  {
  }

  // ------------------------------------------------------------------------------------------
  // The pool object
  // ------------------------------------------------------------------------------------------

  class PoolState {
    var max: nat
    var inflight: nat
    var waiters: seq<Id>

    ghost function AsPool(): Pool
      reads this
    {
      Pool(max, inflight, waiters)
    }

    constructor (max: nat)
      ensures AsPool() == Pool(ClampMax(max), 0, [])
    {
      this.max := ClampMax(max);
      inflight := 0;
      waiters := [];
    }

    method GrantWaiters(open: set<Id>) returns (granted: seq<Id>)
      modifies this`inflight, this`waiters
      ensures Outcome(AsPool(), granted) == Grant(old(AsPool()), open)
    {
      granted := [];
      while inflight < max
        invariant Grant(AsPool(), open).pool == Grant(old(AsPool()), open).pool
        invariant granted + Grant(AsPool(), open).sent == Grant(old(AsPool()), open).sent
        decreases |waiters|
      {
        if waiters == [] {
          break;
        }
        var tx := waiters[0];
        waiters := waiters[1..];
        if tx in open {
          granted := granted + [tx];
          inflight := inflight + 1;
        }
      }
    }

    method SetMax(newMax: nat, open: set<Id>) returns (granted: seq<Id>)
      modifies this
      ensures Outcome(AsPool(), granted) == AfterSetMax(old(AsPool()), newMax, open)
      ensures max == if newMax < 1 then 1 else if newMax > 15 then 15 else newMax
    {
      var clamped := ClampMax(newMax);
      if max == clamped {
        return [];
      }
      max := clamped;
      granted := GrantWaiters(open);
    }

    /** The critical section of acquire: take a permit at once, or queue up. */
    method TryAcquire(id: Id) returns (acquired: bool)
      modifies this`inflight, this`waiters
      ensures acquired <==> old(inflight) < max
      ensures AsPool() == AfterAcquire(old(AsPool()), id)
    {
      if inflight < max {
        inflight := inflight + 1;
        acquired := true;
      } else {
        waiters := waiters + [id];
        acquired := false;
      }
    }

    /** Dropping a permit. */
    method Release(open: set<Id>) returns (granted: seq<Id>)
      modifies this`inflight, this`waiters
      ensures Outcome(AsPool(), granted) == AfterRelease(old(AsPool()), open)
    {
      inflight := if inflight >= 1 then inflight - 1 else 0;
      granted := GrantWaiters(open);
    }
  }

  function AfterAcquire(p: Pool, id: Id): Pool {
    if p.inflight < p.max then p.(inflight := p.inflight + 1) else p.(waiters := p.waiters + [id])
  }

  function AfterRelease(p: Pool, open: set<Id>): Outcome {
    Grant(p.(inflight := if p.inflight >= 1 then p.inflight - 1 else 0), open)
  }

  function AfterSetMax(p: Pool, newMax: nat, open: set<Id>): Outcome {
    if p.max == ClampMax(newMax) then Outcome(p, []) else Grant(p.(max := ClampMax(newMax)), open)
  }

  // ------------------------------------------------------------------------------------------
  // The protocol
  // ------------------------------------------------------------------------------------------

  /** Where a client is: queued; token sent but not received; holding the permit; permit dropped;
      future dropped while queued; future dropped with the token unreceived. */
  datatype Phase = Waiting | Granted | Holding | Released | Cancelled | Leaked

  /** The pool, its clients, and the order in which clients queued up and were granted. */
  datatype System = System(pool: Pool, phase: map<Id, Phase>, enqueued: seq<Id>, granted: seq<Id>)

  datatype Step =
    | Acquire(id: Id)
    | Receive(id: Id)
    | Retry(id: Id)
    | Cancel(id: Id)
    | DropPermit(id: Id)
    | SetMax(max: nat)

  function Initial(max: nat): System {
    System(Pool(ClampMax(max), 0, []), map[], [], [])
  }

  predicate Is(s: System, id: Id, phase: Phase) {
    id in s.phase && s.phase[id] == phase
  }

  /** Clients whose channel is still open for a token. */
  function Open(s: System): set<Id> {
    set id | id in s.phase && s.phase[id] == Waiting
  }

  /** A queued client retries when its sender disappears without having sent. */
  predicate Enabled(s: System, step: Step) {
    match step
    case Acquire(id) => id !in s.phase
    case Receive(id) => Is(s, id, Granted)
    case Retry(id) => Is(s, id, Waiting) && id !in s.pool.waiters
    case Cancel(id) => Is(s, id, Waiting) || Is(s, id, Granted)
    case DropPermit(id) => Is(s, id, Holding)
    case SetMax(_) => true
  }

  function Request(s: System, id: Id): System {
    var fast := s.pool.inflight < s.pool.max;
    System(AfterAcquire(s.pool, id), s.phase[id := if fast then Holding else Waiting],
           if fast then s.enqueued else s.enqueued + [id], s.granted)
  }

  /** Records the tokens that were sent. */
  function WithTokens(s: System, o: Outcome): System {
    System(o.pool, map id | id in s.phase :: if id in o.sent then Granted else s.phase[id],
           s.enqueued, s.granted + o.sent)
  }

  function Next(s: System, step: Step): System
    requires Enabled(s, step)
  {
    match step
    case Acquire(id) => Request(s, id)
    case Retry(id) => Request(s, id)
    case Receive(id) => s.(phase := s.phase[id := Holding])
    case Cancel(id) => s.(phase := s.phase[id := if s.phase[id] == Waiting then Cancelled else Leaked])
    case DropPermit(id) =>
      WithTokens(s.(phase := s.phase[id := Released]), AfterRelease(s.pool, Open(s)))
    case SetMax(max) =>
      WithTokens(s, AfterSetMax(s.pool, max, Open(s)))
  }

  ghost predicate Reaches(s: System, steps: seq<Step>, t: System)
    decreases |steps|
  {
    if steps == [] then s == t
    else Enabled(s, steps[0]) && Reaches(Next(s, steps[0]), steps[1..], t)
  }

  /** Clients that account for one unit of `inflight` each. */
  function Counted(s: System): set<Id> {
    set id | id in s.phase && s.phase[id] in {Granted, Holding, Leaked}
  }

  function NotCancelled(s: System): set<Id> {
    set id | id in s.phase && s.phase[id] != Cancelled
  }

  // ------------------------------------------------------------------------------------------
  // What every run keeps
  // ------------------------------------------------------------------------------------------

  ghost predicate Inv(s: System) {
    && Ledger(s)
    // no lost wakeup
    && (s.pool.waiters != [] ==> s.pool.inflight >= s.pool.max)
  }

  /** Everything but the wakeup clause; this much also holds before the waiters are granted. */
  ghost predicate Ledger(s: System) {
    Conserved(s) && QueueMatches(s) && FirstComeFirstServed(s)
  }

  /** Every unit of `inflight` is a permit in use, a token on its way, or a token that was lost. */
  ghost predicate Conserved(s: System) {
    1 <= s.pool.max <= MOST && s.pool.inflight <= MOST && s.pool.inflight == |Counted(s)|
  }

  /** The queue holds every waiting client once, and besides them only clients that gave up. */
  ghost predicate QueueMatches(s: System) {
    && Distinct(s.pool.waiters)
    && (forall id :: Is(s, id, Waiting) ==> id in s.pool.waiters)
    && (forall id :: id in s.pool.waiters ==> Is(s, id, Waiting) || Is(s, id, Cancelled))
  }

  /** Apart from those that gave up while queued, the clients granted so far followed by the clients
      still waiting are all that ever queued up, in that order. */
  ghost predicate FirstComeFirstServed(s: System) {
    && Distinct(s.enqueued)
    && (forall id :: id in s.enqueued ==> id in s.phase)
    && (forall id :: id in s.pool.waiters ==> id in s.enqueued)
    && Keep(s.enqueued, NotCancelled(s)) == s.granted + Keep(s.pool.waiters, Open(s))
  }

  lemma {:induction false} KeepConcat(a: seq<Id>, b: seq<Id>, ids: set<Id>)
    ensures Keep(a + b, ids) == Keep(a, ids) + Keep(b, ids)
  {
    if a == [] {
      assert a + b == b;
    } else {
      KeepConcat(a[1..], b, ids);
      assert (a + b)[0] == a[0] && (a + b)[1..] == a[1..] + b;
    }
  }

  /** Only membership of the sequence's own elements matters. */
  lemma {:induction false} KeepAgrees(s: seq<Id>, a: set<Id>, b: set<Id>)
    requires forall x :: x in s ==> (x in a <==> x in b)
    ensures Keep(s, a) == Keep(s, b)
  {
    if s != [] {
      KeepAgrees(s[1..], a, b);
    }
  }

  lemma {:induction false} KeepDistinct(s: seq<Id>, ids: set<Id>)
    requires Distinct(s)
    ensures Distinct(Keep(s, ids))
  {
    if s != [] {
      KeepDistinct(s[1..], ids);
    }
  }

  /** Filtering out one more element commutes with filtering. */
  lemma {:induction false} KeepKeep(s: seq<Id>, a: set<Id>, b: set<Id>)
    requires b <= a
    ensures Keep(Keep(s, a), b) == Keep(s, b)
  {
    if s != [] {
      KeepKeep(s[1..], a, b);
    }
  }

  lemma {:induction false} DistinctSize(s: seq<Id>)
    requires Distinct(s)
    ensures |Elements(s)| == |s|
  {
    if s != [] {
      var last := |s| - 1;
      DistinctSize(s[..last]);
      assert Elements(s) == Elements(s[..last]) + {s[last]};
    }
  }

  ghost function Elements(s: seq<Id>): set<Id> {
    set x | x in s
  }

  lemma {:induction false} KeepAll(s: seq<Id>, ids: set<Id>)
    requires Elements(s) <= ids
    ensures Keep(s, ids) == s
  {
    if s != [] {
      assert s[0] in Elements(s);
      assert forall x :: x in s[1..] ==> x in Elements(s);
      KeepAll(s[1..], ids);
    }
  }

  lemma RequestKeepsInv(s: System, id: Id)
    requires Inv(s) && id !in s.phase
    ensures Inv(Request(s, id))
  {
    var t := Request(s, id);
    if s.pool.inflight < s.pool.max {
      assert Counted(t) == Counted(s) + {id};
      assert Open(t) == Open(s);
      KeepAgrees(s.enqueued, NotCancelled(s), NotCancelled(t));
      assert forall x :: Is(t, x, Waiting) <==> Is(s, x, Waiting);
    } else {
      assert Counted(t) == Counted(s);
      EnqueueKeepsOrder(s, id);
      EnqueueKeepsQueue(s, id);
    }
  }

  lemma EnqueueKeepsOrder(s: System, id: Id)
    requires QueueMatches(s) && FirstComeFirstServed(s) && id !in s.phase && s.pool.inflight >= s.pool.max
    ensures FirstComeFirstServed(Request(s, id))
  {
    hide Keep;
    var t := Request(s, id);
    KeepConcat(s.enqueued, [id], NotCancelled(t));
    KeepConcat(s.pool.waiters, [id], Open(t));
    KeepAgrees(s.enqueued, NotCancelled(s), NotCancelled(t));
    KeepAgrees(s.pool.waiters, Open(s), Open(t));
    assert id in Open(t) && id in NotCancelled(t);
    KeepOne(id, Open(t));
    KeepOne(id, NotCancelled(t));
    assert Distinct(t.enqueued) by {
      assert id !in s.enqueued;
    }
    ConcatAssoc(s.granted, Keep(s.pool.waiters, Open(s)), [id]);
  }

  lemma KeepOne(id: Id, ids: set<Id>)
    requires id in ids
    ensures Keep([id], ids) == [id]
  {
    KeepNothing(ids);
  }

  lemma EnqueueKeepsQueue(s: System, id: Id)
    requires QueueMatches(s) && id !in s.phase && s.pool.inflight >= s.pool.max
    ensures QueueMatches(Request(s, id))
  {
    var t := Request(s, id);
    assert id !in s.pool.waiters;
    forall x | Is(t, x, Waiting)
      ensures x in t.pool.waiters
    {
      assert x != id ==> Is(s, x, Waiting);
    }
    forall x | x in t.pool.waiters
      ensures Is(t, x, Waiting) || Is(t, x, Cancelled)
    {
      assert x != id ==> x in s.pool.waiters;
    }
  }

  lemma ReceiveKeepsInv(s: System, id: Id)
    requires Inv(s) && Is(s, id, Granted)
    ensures Inv(Next(s, Receive(id)))
  {
    var t := Next(s, Receive(id));
    assert Counted(t) == Counted(s) && Open(t) == Open(s) && NotCancelled(t) == NotCancelled(s);
    assert forall x :: Is(t, x, Waiting) <==> Is(s, x, Waiting);
  }

  /** A future dropped while queued leaves its sender behind; it is skipped when its turn comes. */
  lemma CancelKeepsInv(s: System, id: Id)
    requires Inv(s) && (Is(s, id, Waiting) || Is(s, id, Granted))
    ensures Inv(Next(s, Cancel(id)))
  {
    hide Keep;
    var t := Next(s, Cancel(id));
    assert Counted(t) == Counted(s);
    assert forall x :: Is(t, x, Waiting) ==> Is(s, x, Waiting);
    if Is(s, id, Granted) {
      assert Open(t) == Open(s) && NotCancelled(t) == NotCancelled(s);
    } else {
      GivingUpKeepsOrder(s, id);
    }
  }

  lemma GivingUpKeepsOrder(s: System, id: Id)
    requires QueueMatches(s) && FirstComeFirstServed(s) && Is(s, id, Waiting)
    ensures FirstComeFirstServed(Next(s, Cancel(id)))
  {
    var t := Next(s, Cancel(id));
    var live := Keep(s.pool.waiters, Open(s));
    KeepDistinct(s.enqueued, NotCancelled(s));
    NotServedYet(s, id);
    KeepKeep(s.enqueued, NotCancelled(s), NotCancelled(t));
    KeepConcat(s.granted, live, NotCancelled(t));
    KeepAll(s.granted, NotCancelled(t));
    KeepAgrees(live, NotCancelled(t), Open(t));
    KeepKeep(s.pool.waiters, Open(s), Open(t));
  }

  lemma NotServedYet(s: System, id: Id)
    requires QueueMatches(s) && FirstComeFirstServed(s) && Is(s, id, Waiting)
    ensures id !in s.granted && Elements(s.granted) <= NotCancelled(s)
  {
    var live := Keep(s.pool.waiters, Open(s));
    var all := s.granted + live;
    KeepDistinct(s.enqueued, NotCancelled(s));
    assert id in live;
    var i :| 0 <= i < |live| && live[i] == id;
    assert all[|s.granted| + i] == id;
    forall x | x in s.granted
      ensures x in NotCancelled(s) && x != id
    {
      var j :| 0 <= j < |s.granted| && s.granted[j] == x;
      assert all[j] == x && x in all;
    }
  }

  lemma DistinctParts(a: seq<Id>, b: seq<Id>)
    requires Distinct(a + b)
    ensures Distinct(a) && Distinct(b)
    ensures forall x :: x in a ==> x !in b
  {
    var s := a + b;
    assert forall i :: 0 <= i < |a| ==> a[i] == s[i];
    assert forall j :: 0 <= j < |b| ==> b[j] == s[|a| + j];
  }

  /** Who is left in the queue after tokens were sent. */
  lemma WaitersAfterTokens(s: System)
    requires QueueMatches(s)
    ensures var o := Grant(s.pool, Open(s));
            var live := Keep(s.pool.waiters, Open(s));
            && Distinct(live) && live == o.sent + Keep(o.pool.waiters, Open(s))
            && (forall x :: x in o.pool.waiters ==> x in s.pool.waiters && x !in o.sent)
            && (forall x :: x in o.sent ==> Is(s, x, Waiting))
            && (forall x :: Is(s, x, Waiting) && x !in o.sent ==> x in o.pool.waiters)
            && Distinct(o.sent) && Distinct(o.pool.waiters)
  {
    var o := Grant(s.pool, Open(s));
    var live := Keep(s.pool.waiters, Open(s));
    GrantServesFirstLive(s.pool, Open(s));
    KeepDistinct(s.pool.waiters, Open(s));
    var left := Keep(o.pool.waiters, Open(s));
    assert live == o.sent + left;
    DistinctParts(o.sent, left);
    forall x | x in o.pool.waiters
      ensures x in s.pool.waiters && x !in o.sent
    {
      assert x in o.sent ==> x in live && x in left;
    }
    forall x | Is(s, x, Waiting) && x !in o.sent
      ensures x in o.pool.waiters
    {
      assert x in live;
    }
    forall x | x in o.sent
      ensures Is(s, x, Waiting)
    {
      assert x in live;
    }
  }

  /** Sending tokens from the front of the queue closes the books and leaves nobody waiting in vain. */
  lemma TokensKeepInv(s: System)
    requires Ledger(s)
    ensures Inv(WithTokens(s, Grant(s.pool, Open(s))))
  {
    hide Grant, Keep;
    var o := Grant(s.pool, Open(s));
    var t := WithTokens(s, o);
    GrantServesFirstLive(s.pool, Open(s));
    WaitersAfterTokens(s);
    TokensKeepCount(s);
    assert QueueMatches(t);
    TokensKeepOrder(s);
  }

  lemma PhasesAfterTokens(s: System, o: Outcome)
    requires forall x :: x in o.sent ==> Is(s, x, Waiting)
    ensures Counted(WithTokens(s, o)) == Counted(s) + Elements(o.sent)
    ensures Counted(s) !! Elements(o.sent)
    ensures Open(WithTokens(s, o)) == Open(s) - Elements(o.sent)
    ensures NotCancelled(WithTokens(s, o)) == NotCancelled(s)
  {
  }

  lemma TokensKeepCount(s: System)
    requires Conserved(s) && QueueMatches(s)
    ensures Conserved(WithTokens(s, Grant(s.pool, Open(s))))
  {
    var o := Grant(s.pool, Open(s));
    GrantServesFirstLive(s.pool, Open(s));
    WaitersAfterTokens(s);
    DistinctSize(o.sent);
    PhasesAfterTokens(s, o);
    assert o.pool.inflight == s.pool.inflight + |o.sent|;
  }

  lemma TokensKeepOrder(s: System)
    requires QueueMatches(s) && FirstComeFirstServed(s)
    ensures FirstComeFirstServed(WithTokens(s, Grant(s.pool, Open(s))))
  {
    var o := Grant(s.pool, Open(s));
    var t := WithTokens(s, o);
    WaitersAfterTokens(s);
    PhasesAfterTokens(s, o);
    assert Keep(t.enqueued, NotCancelled(t)) == t.granted + Keep(t.pool.waiters, Open(t)) by {
      KeepAgrees(o.pool.waiters, Open(s), Open(t));
      ConcatAssoc(s.granted, o.sent, Keep(o.pool.waiters, Open(s)));
    }
  }

  lemma DropPermitKeepsInv(s: System, id: Id)
    requires Inv(s) && Is(s, id, Holding)
    ensures s.pool.inflight >= 1
    ensures Inv(Next(s, DropPermit(id)))
  {
    assert id in Counted(s);
    var r := System(s.pool.(inflight := s.pool.inflight - 1), s.phase[id := Released], s.enqueued, s.granted);
    assert Counted(r) == Counted(s) - {id};
    assert Open(r) == Open(s) && NotCancelled(r) == NotCancelled(s);
    assert forall x :: Is(r, x, Waiting) <==> Is(s, x, Waiting);
    TokensKeepInv(r);
  }

  lemma SetMaxKeepsInv(s: System, max: nat)
    requires Inv(s)
    ensures Inv(Next(s, SetMax(max)))
  {
    var t := Next(s, SetMax(max));
    if s.pool.max == ClampMax(max) {
      assert t.phase == s.phase && t.granted == s.granted;
      assert t == s;
    } else {
      var r := s.(pool := s.pool.(max := ClampMax(max)));
      assert Counted(r) == Counted(s) && Open(r) == Open(s) && NotCancelled(r) == NotCancelled(s);
      assert forall x :: Is(r, x, Waiting) <==> Is(s, x, Waiting);
      TokensKeepInv(r);
    }
  }

  /** A live waiter's sender is always in the queue, so the retry after a failed receive never happens. */
  lemma NoRetry(s: System, id: Id)
    requires Inv(s)
    ensures !Enabled(s, Retry(id))
  {
  }

  lemma StepKeepsInv(s: System, step: Step)
    requires Inv(s) && Enabled(s, step)
    ensures Inv(Next(s, step))
  {
    match step
    case Acquire(id) => RequestKeepsInv(s, id);
    case Retry(id) =>
    case Receive(id) => ReceiveKeepsInv(s, id);
    case Cancel(id) => CancelKeepsInv(s, id);
    case DropPermit(id) => DropPermitKeepsInv(s, id);
    case SetMax(max) => SetMaxKeepsInv(s, max);
  }

  /** The size of the pool after a resize, and of a new pool. */
  lemma SizeIsClamped(s: System, n: nat)
    ensures Next(s, SetMax(n)).pool.max == (if n < 1 then 1 else if n > 15 then 15 else n)
    ensures Initial(n).pool == Pool(if n < 1 then 1 else if n > 15 then 15 else n, 0, [])
  {
    if s.pool.max != ClampMax(n) {
      GrantRespectsMax(s.pool.(max := ClampMax(n)), Open(s));
    }
  }

  /** Only a resize changes the size. */
  lemma OnlyResizesChangeTheSize(s: System, step: Step)
    requires Enabled(s, step) && !step.SetMax?
    ensures Next(s, step).pool.max == s.pool.max
  {
    if step.DropPermit? {
      GrantRespectsMax(s.pool.(inflight := if s.pool.inflight >= 1 then s.pool.inflight - 1 else 0), Open(s));
    }
  }

  /** Every state of every run. */
  lemma {:induction false} RunKeepsInv(s: System, steps: seq<Step>, t: System)
    requires Inv(s) && Reaches(s, steps, t)
    ensures Inv(t)
    decreases |steps|
  {
    if steps != [] {
      StepKeepsInv(s, steps[0]);
      RunKeepsInv(Next(s, steps[0]), steps[1..], t);
    }
  }

  ghost predicate Reachable(t: System) {
    exists max: nat, steps :: Reaches(Initial(max), steps, t)
  }

  lemma ReachableKeepsInv(t: System)
    requires Reachable(t)
    ensures Inv(t)
  {
    var max: nat, steps :| Reaches(Initial(max), steps, t);
    var s := Initial(max);
    assert Counted(s) == {};
    RunKeepsInv(s, steps, t);
  }

  // ------------------------------------------------------------------------------------------
  // Consequences
  // ------------------------------------------------------------------------------------------

  /** The fast path is open only when nobody is queued, so it never overtakes a waiter. */
  lemma NoBarging(t: System)
    requires Reachable(t)
    ensures t.pool.inflight < t.pool.max ==> t.pool.waiters == [] && forall id :: !Is(t, id, Waiting)
  {
    ReachableKeepsInv(t);
  }

  /** Of two clients that never gave up while queued, the one that queued first is served first. */
  lemma ServedInOrder(t: System, i: nat, j: nat)
    requires Reachable(t)
    requires i < j < |t.enqueued|
    requires !Is(t, t.enqueued[i], Cancelled) && t.enqueued[j] in t.granted
    ensures t.enqueued[i] in t.granted
  {
    ReachableKeepsInv(t);
    var live := Keep(t.pool.waiters, Open(t));
    KeepDistinct(t.enqueued, NotCancelled(t));
    KeepsOrder(t.enqueued, NotCancelled(t), i, j, t.granted, live);
  }

  /** If filtering leaves a + b and the later of two kept elements is in a, so is the earlier one. */
  lemma {:induction false} KeepsOrder(s: seq<Id>, ids: set<Id>, i: nat, j: nat, a: seq<Id>, b: seq<Id>)
    requires i < j < |s| && s[i] in ids && s[j] in a
    requires Distinct(s) && Keep(s, ids) == a + b
    ensures s[i] in a
  {
    KeepDistinct(s, ids);
    DistinctParts(a, b);
    assert s[..j] + s[j..] == s;
    KeepConcat(s[..j], s[j..], ids);
    var before, after := Keep(s[..j], ids), Keep(s[j..], ids);
    assert s[i] in s[..j] && s[i] in before;
    var k :| 0 <= k < |a| && a[k] == s[j];
    assert (before + after)[k] == s[j];
    assert s[j] !in s[..j] && s[j] !in before;
    assert k >= |before|;
    assert before == (a + b)[..|before|] == a[..|before|];
  }

  /** A shrink never lets the pool grow above its new size. */
  lemma GrowsOnlyBelowMax(s: System, step: Step)
    requires Enabled(s, step)
    ensures var t := Next(s, step); t.pool.inflight > s.pool.inflight ==> t.pool.inflight <= t.pool.max
  {
    match step
    case DropPermit(id) =>
      GrantRespectsMax(s.pool.(inflight := if s.pool.inflight >= 1 then s.pool.inflight - 1 else 0), Open(s));
    case SetMax(max) => GrantRespectsMax(s.pool.(max := ClampMax(max)), Open(s));
    case _ =>
  }

  lemma GrantRespectsMax(p: Pool, open: set<Id>)
    ensures var q := Grant(p, open).pool;
            q.max == p.max && (q.inflight == p.inflight || q.inflight <= q.max)
  {
    GrantServesFirstLive(p, open);
  }

  function Lost(s: System): set<Id> {
    set id | id in s.phase && s.phase[id] == Leaked
  }

  ghost predicate Quiet(s: System) {
    forall id :: !Is(s, id, Granted) && !Is(s, id, Holding)
  }

  /** Tokens whose future was dropped before it received them are never returned: once no permit is in
      use and no token is on its way, the pool still counts exactly those, and it serves a newcomer
      at once if and only if they are fewer than its size. */
  lemma QuietPoolCountsLostTokens(t: System, id: Id)
    requires Reachable(t) && Quiet(t) && id !in t.phase
    ensures t.pool.inflight == |Lost(t)|
    ensures Is(Next(t, Acquire(id)), id, Holding) <==> |Lost(t)| < t.pool.max
  {
    ReachableKeepsInv(t);
    forall x | x in Counted(t)
      ensures x in Lost(t)
    {
      assert !Is(t, x, Granted) && !Is(t, x, Holding);
    }
    assert Counted(t) == Lost(t);
  }

  lemma {:induction false} ReachesOneMore(s: System, steps: seq<Step>, t: System, step: Step)
    requires Reaches(s, steps, t) && Enabled(t, step)
    ensures Reaches(s, steps + [step], Next(t, step))
    decreases |steps|
  {
    var all := steps + [step];
    if steps == [] {
      assert all[1..] == [] && Reaches(Next(t, step), [], Next(t, step));
    } else {
      ReachesOneMore(Next(s, steps[0]), steps[1..], t, step);
      assert all[0] == steps[0] && all[1..] == steps[1..] + [step];
    }
  }

  lemma ReachableStep(t: System, step: Step)
    requires Reachable(t) && Enabled(t, step)
    ensures Reachable(Next(t, step))
  {
    var max: nat, steps :| Reaches(Initial(max), steps, t);
    ReachesOneMore(Initial(max), steps, t, step);
  }

  /** One such loss blocks a pool of size 1: a client waits although no permit is in use. */
  lemma LostTokenBlocksPool() returns (t: System)
    ensures Reachable(t) && Quiet(t)
    ensures t.pool == Pool(1, 1, [2]) && t.phase == map[0 := Released, 1 := Leaked, 2 := Waiting]
  {
    hide Reachable;
    var s := TokenOnItsWay();
    var lost := System(Pool(1, 1, []), map[0 := Released, 1 := Leaked], [1], [1]);
    TokenIsLost(s, lost);
    Into(s, Cancel(1), lost);
    t := System(Pool(1, 1, [2]), map[0 := Released, 1 := Leaked, 2 := Waiting], [1, 2], [1]);
    Into(lost, Acquire(2), t);
  }

  lemma TokenIsLost(s: System, t: System)
    requires s == System(Pool(1, 1, []), map[0 := Released, 1 := Granted], [1], [1])
    requires t == System(Pool(1, 1, []), map[0 := Released, 1 := Leaked], [1], [1])
    ensures Enabled(s, Cancel(1)) && Next(s, Cancel(1)) == t
  {
  }

  lemma TokenOnItsWay() returns (t: System)
    ensures Reachable(t)
    ensures t == System(Pool(1, 1, []), map[0 := Released, 1 := Granted], [1], [1])
  {
    var s := Initial(1);
    assert Reaches(s, [], s);
    var held := System(Pool(1, 1, []), map[0 := Holding], [], []);
    Into(s, Acquire(0), held);
    var queued := System(Pool(1, 1, [1]), map[0 := Holding, 1 := Waiting], [1], []);
    Into(held, Acquire(1), queued);
    t := System(Pool(1, 1, []), map[0 := Released, 1 := Granted], [1], [1]);
    FirstInQueueIsServed(queued, t);
    Into(queued, DropPermit(0), t);
  }

  lemma FirstInQueueIsServed(s: System, t: System)
    requires s == System(Pool(1, 1, [1]), map[0 := Holding, 1 := Waiting], [1], [])
    requires t == System(Pool(1, 1, []), map[0 := Released, 1 := Granted], [1], [1])
    ensures Next(s, DropPermit(0)) == t
  {
    assert Open(s) == {1};
    assert [1][1..] == [];
    assert Grant(Pool(1, 1, []), {1}) == Outcome(Pool(1, 1, []), []);
    assert Grant(Pool(1, 0, [1]), {1}) == Outcome(Pool(1, 1, []), [1]);
  }

  lemma Into(s: System, step: Step, t: System)
    requires Reachable(s) && Enabled(s, step) && Next(s, step) == t
    ensures Reachable(t)
  {
    ReachableStep(s, step);
  }
}
