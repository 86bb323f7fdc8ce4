/** What lost tokens do to a pool.

    A client that gives up after a token was sent to it, and before it received it, never gives the token back.  Once
    there are as many such losses as permits, nobody is served any more until the pool is resized; with fewer, every
    waiting client can still be served. */
module LostTokens {
  import opened PermitPool
  import opened Wrappers

  predicate Blocked(s: System) {
    |Lost(s)| >= s.pool.max
  }

  ghost predicate NoResize(steps: seq<Step>) {
    forall i :: 0 <= i < |steps| ==> !steps[i].SetMax?
  }

  lemma {:induction false} Smaller<T>(a: set<T>, b: set<T>)
    requires a <= b
    ensures |a| <= |b|
  {
    if x :| x in a {
      Smaller(a - {x}, b - {x});
    } else {
      assert a == {};
    }
  }

  // ------------------------------------------------------------------------------------------
  // A blocked pool
  // ------------------------------------------------------------------------------------------

  lemma LossesStay(s: System, step: Step)
    requires Inv(s) && Enabled(s, step)
    ensures Lost(s) <= Lost(Next(s, step)) && |Lost(s)| <= |Lost(Next(s, step))|
  {
    hide Grant;
    var t := Next(s, step);
    GrantsOnlyOpen(s, step);
    Smaller(Lost(s), Lost(t));
  }

  /** Tokens go to waiting clients only. */
  lemma GrantsOnlyOpen(s: System, step: Step)
    ensures forall id :: id in AfterRelease(s.pool, Open(s)).sent ==> id in Open(s)
    ensures step.SetMax? ==> forall id :: id in AfterSetMax(s.pool, step.max, Open(s)).sent ==> id in Open(s)
  {
    hide Grant;
    var p := s.pool.(inflight := if s.pool.inflight >= 1 then s.pool.inflight - 1 else 0);
    GrantServesFirstLive(p, Open(s));
    if step.SetMax? {
      GrantServesFirstLive(s.pool.(max := ClampMax(step.max)), Open(s));
    }
  }

  /** A permit that is dropped in a blocked pool makes no room. */
  lemma NoRoomWhenBlocked(s: System)
    requires Inv(s) && Blocked(s)
    ensures s.pool.inflight >= s.pool.max
    ensures forall id :: Is(s, id, Holding) ==> s.pool.inflight - 1 >= s.pool.max
  {
    Smaller(Lost(s), Counted(s));
    forall id | Is(s, id, Holding) ensures s.pool.inflight - 1 >= s.pool.max {
      Smaller(Lost(s), Counted(s) - {id});
    }
  }

  /** Every step but a resize leaves a blocked pool blocked and sends no token; nobody gets a permit at once either. */
  lemma StepStaysBlocked(s: System, step: Step)
    requires Inv(s) && Blocked(s) && Enabled(s, step) && !step.SetMax?
    ensures var t := Next(s, step);
            && Blocked(t) && t.pool.max == s.pool.max && t.granted == s.granted
            && (forall id :: Is(t, id, Granted) ==> Is(s, id, Granted))
            && (forall id :: Is(t, id, Holding) ==> Is(s, id, Holding) || Is(s, id, Granted))
  {
    LossesStay(s, step);
    NoRoomWhenBlocked(s);
  }

  /** So it stays blocked over every run without a resize. */
  lemma {:induction false} RunStaysBlocked(s: System, steps: seq<Step>, t: System)
    requires Inv(s) && Blocked(s) && Reaches(s, steps, t) && NoResize(steps)
    ensures Inv(t) && Blocked(t) && t.granted == s.granted
    ensures forall id :: Is(t, id, Granted) ==> Is(s, id, Granted)
    decreases |steps|
  {
    hide Inv, Blocked, Next;
    if steps != [] {
      StepKeepsInv(s, steps[0]);
      StepStaysBlocked(s, steps[0]);
      RunStaysBlocked(Next(s, steps[0]), steps[1..], t);
    }
  }

  // ------------------------------------------------------------------------------------------
  // A pool that is not blocked
  // ------------------------------------------------------------------------------------------

  function Tokens(s: System): set<Id> {
    set id | id in s.phase && s.phase[id] == Granted
  }

  function Holders(s: System): set<Id> {
    set id | id in s.phase && s.phase[id] == Holding
  }

  /** As long as someone waits in a pool that is not blocked, a token is on its way or a permit is in use. */
  lemma SomeoneCanGoOn(s: System, waiting: Id) returns (id: Id)
    requires Inv(s) && !Blocked(s) && Is(s, waiting, Waiting)
    ensures Is(s, id, Granted) || Is(s, id, Holding)
  {
    assert waiting in s.pool.waiters;
    if Counted(s) <= Lost(s) {
      Smaller(Counted(s), Lost(s));
      assert false;
    }
    id :| id in Counted(s) && id !in Lost(s);
  }

  lemma ReceiveGoesOn(s: System, id: Id)
    requires Inv(s) && Is(s, id, Granted)
    ensures var t := Next(s, Receive(id));
            && t.pool == s.pool && Open(t) == Open(s) && Tokens(t) < Tokens(s) && Lost(t) == Lost(s)
            && forall x :: Is(s, x, Waiting) ==> Is(t, x, Waiting)
  {
    var t := Next(s, Receive(id));
    assert id in Tokens(s) && id !in Tokens(t);
    assert forall x :: Is(t, x, Waiting) <==> Is(s, x, Waiting);
    assert forall x :: x in Lost(t) <==> x in Lost(s);
  }

  lemma PhasesAfterDrop(s: System, id: Id, sent: seq<Id>)
    requires Is(s, id, Holding) && sent == AfterRelease(s.pool, Open(s)).sent
    ensures forall x :: x in sent ==> Is(s, x, Waiting)
    ensures var t := Next(s, DropPermit(id));
            && t.pool.max == s.pool.max && t.phase.Keys == s.phase.Keys
            && forall x :: x in s.phase ==>
                 t.phase[x] == if x in sent then Granted else if x == id then Released else s.phase[x]
  {
    hide Grant;
    GrantsOnlyOpen(s, DropPermit(id));
    GrantRespectsMax(s.pool.(inflight := if s.pool.inflight >= 1 then s.pool.inflight - 1 else 0), Open(s));
  }

  lemma DropGoesOn(s: System, id: Id)
    requires Is(s, id, Holding)
    ensures var t := Next(s, DropPermit(id));
            && t.pool.max == s.pool.max && Lost(t) == Lost(s)
            && (Open(t) < Open(s) || (Open(t) == Open(s) && Tokens(t) == Tokens(s) && Holders(t) < Holders(s)))
            && forall x :: Is(s, x, Waiting) ==> Is(t, x, Waiting) || Is(t, x, Granted)
  {
    var t, sent := Next(s, DropPermit(id)), AfterRelease(s.pool, Open(s)).sent;
    PhasesAfterDrop(s, id, sent);
    hide Next, AfterRelease;
    assert forall x :: x in Lost(t) <==> x in Lost(s);
    if sent == [] {
      assert forall x :: x in Open(t) <==> x in Open(s);
      assert forall x :: x in Tokens(t) <==> x in Tokens(s);
      assert id in Holders(s) && id !in Holders(t) && forall x :: x in Holders(t) ==> x in Holders(s);
    } else {
      var served := sent[0];
      assert served in sent && Is(s, served, Waiting) && t.phase[served] == Granted;
      assert served in Open(s) && served !in Open(t);
      assert forall x :: x in Open(t) ==> x in s.phase && x in Open(s);
    }
  }

  /** Clients receive their tokens and drop their permits until the waiting one is served. */
  lemma {:induction false} WaitingIsServed(s: System, id: Id) returns (steps: seq<Step>, t: System)
    requires Inv(s) && !Blocked(s) && (Is(s, id, Waiting) || Is(s, id, Granted))
    ensures Reaches(s, steps, t) && Is(t, id, Granted)
    ensures forall i :: 0 <= i < |steps| ==> steps[i].Receive? || steps[i].DropPermit?
    decreases Open(s), Tokens(s), Holders(s)
  {
    hide Inv, Next, Open, Tokens, Holders;
    if Is(s, id, Granted) {
      steps, t := [], s;
    } else {
      var x := SomeoneCanGoOn(s, id);
      var step := if Is(s, x, Granted) then Receive(x) else DropPermit(x);
      StepKeepsInv(s, step);
      if Is(s, x, Granted) {
        ReceiveGoesOn(s, x);
      } else {
        DropGoesOn(s, x);
      }
      var rest;
      rest, t := WaitingIsServed(Next(s, step), id);
      steps := [step] + rest;
      assert steps[1..] == rest;
    }
  }

  // ------------------------------------------------------------------------------------------
  // Together
  // ------------------------------------------------------------------------------------------

  /** Some run without a resize sends the client a token. */
  ghost predicate CanBeServed(s: System, id: Id) {
    exists steps, t :: Reaches(s, steps, t) && NoResize(steps) && Is(t, id, Granted)
  }

  /** In every reachable state a waiting client can be served without a resize exactly if fewer tokens were lost than
      the pool has permits. */
  lemma ServedExactlyIfFewLost(s: System, id: Id)
    requires Reachable(s) && Is(s, id, Waiting)
    ensures CanBeServed(s, id) <==> |Lost(s)| < s.pool.max
  {
    hide Reachable;
    ReachableKeepsInv(s);
    if Blocked(s) {
      forall steps, t | Reaches(s, steps, t) && NoResize(steps) ensures !Is(t, id, Granted) {
        RunStaysBlocked(s, steps, t);
      }
    } else {
      var steps, t := WaitingIsServed(s, id);
      assert NoResize(steps);
    }
  }

  /** One loss blocks a pool of size 1 for good: a client waits although no permit is in use, and no run without a
      resize serves it. */
  lemma OneLossBlocksForGood() returns (s: System)
    ensures Reachable(s) && Quiet(s) && Is(s, 2, Waiting) && s.pool.max == 1 && !CanBeServed(s, 2)
  {
    hide Reachable;
    s := LostTokenBlocksPool();
    QuietPoolCountsLostTokens(s, 3);
    ServedExactlyIfFewLost(s, 2);
  }
}
