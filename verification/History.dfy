/** Undo and redo stacks whose entries are grouped by version. */
module History {
  import opened Wrappers

  datatype Entry<C> = Entry(change: C, version: nat)

  /** The value of a history; the last element of a stack is its top. */
  datatype Log<C> = Log(undos: seq<Entry<C>>, redos: seq<Entry<C>>, version: nat)

  predicate HasVersion<C(==)>(stack: seq<Entry<C>>, version: nat) {
    exists i :: 0 <= i < |stack| && stack[i].version == version
  }

  /** Splits off the top of a stack as long as the version occurs anywhere in it; the popped part is
      listed from the top. */
  function PopVersion<C(==)>(stack: seq<Entry<C>>, version: nat): (seq<Entry<C>>, seq<Entry<C>>)
    decreases |stack|
  {
    if !HasVersion(stack, version) then (stack, [])
    else
      var top := |stack| - 1;
      var (rest, popped) := PopVersion(stack[..top], version);
      (rest, [stack[top]] + popped)
  }

  function Reversed<T>(s: seq<T>): (r: seq<T>)
    ensures |r| == |s|
    ensures forall i :: 0 <= i < |s| ==> r[i] == s[|s| - 1 - i]
  {
    seq(|s|, i requires 0 <= i < |s| => s[|s| - 1 - i])
  }

  /** What is left below the top group, and the popped group from the top. */
  function TopGroup<C(==)>(stack: seq<Entry<C>>): (seq<Entry<C>>, seq<Entry<C>>)
    requires stack != []
  {
    var top := |stack| - 1;
    var (rest, popped) := PopVersion(stack[..top], stack[top].version);
    (rest, [stack[top]] + popped)
  }

  /** Popping splits the stack, and stops with an entry of the version once none is left below. */
  lemma {:induction false} PopVersionSplits<C>(stack: seq<Entry<C>>, version: nat)
    ensures var (rest, popped) := PopVersion(stack, version);
            && stack == rest + Reversed(popped)
            && !HasVersion(rest, version)
            && (popped != [] ==> popped[|popped| - 1].version == version)
    decreases |stack|
  {
    if HasVersion(stack, version) {
      var top := |stack| - 1;
      var below := stack[..top];
      PopVersionSplits(below, version);
      var (rest, popped) := PopVersion(below, version);
      ReversedConcat([stack[top]], popped);
      assert Reversed([stack[top]]) == [stack[top]];
      assert stack == below + [stack[top]];
      if popped == [] {
        assert rest == below;
      }
    }
  }

  lemma TopGroupSplits<C>(stack: seq<Entry<C>>)
    requires stack != []
    ensures stack == TopGroup(stack).0 + Reversed(TopGroup(stack).1)
  {
    var top := |stack| - 1;
    PopVersionSplits(stack[..top], stack[top].version);
    ReversedConcat([stack[top]], PopVersion(stack[..top], stack[top].version).1);
    assert stack == stack[..top] + [stack[top]];
  }

  /** The first and the last change of a popped group have the version of the stack's top. */
  lemma TopGroupEnds<C>(stack: seq<Entry<C>>)
    requires stack != []
    ensures var (_, es) := TopGroup(stack);
            es != [] && es[0] == stack[|stack| - 1] && es[|es| - 1].version == es[0].version
  {
    var top := |stack| - 1;
    PopVersionSplits(stack[..top], stack[top].version);
  }

  /** A group reaches down to every entry of its version. */
  lemma PopsDownTo<C>(stack: seq<Entry<C>>, i: nat)
    requires i < |stack| && stack[i].version == stack[|stack| - 1].version
    ensures |TopGroup(stack).1| >= |stack| - i
  {
    var top := |stack| - 1;
    PopVersionSplits(stack[..top], stack[top].version);
    TopGroupSplits(stack);
    var rest := TopGroup(stack).0;
    assert forall j :: 0 <= j < |rest| ==> rest[j] == stack[j] && rest[j].version != stack[top].version;
  }

  /** Popping stops right below the lowest entry of the version. */
  lemma PopVersionIs<C>(stack: seq<Entry<C>>, version: nat, n: nat)
    requires n <= |stack|
    requires forall i :: 0 <= i < n ==> stack[i].version != version
    requires n < |stack| ==> stack[n].version == version
    ensures PopVersion(stack, version) == (stack[..n], Reversed(stack[n..]))
  {
    PopVersionSplits(stack, version);
    var (rest, popped) := PopVersion(stack, version);
    var m := |rest|;
    assert forall i :: 0 <= i < m ==> rest[i] == stack[i] && stack[i].version != version;
    assert m < |stack| ==> stack[m] == Reversed(popped)[0] && stack[m].version == version;
    assert m == n;
    assert Reversed(popped) == stack[n..];
    ReversedTwice(popped);
  }

  lemma ReversedTwice<T>(s: seq<T>)
    ensures Reversed(Reversed(s)) == s
  {
  }

  lemma TopGroupIs<C>(stack: seq<Entry<C>>, n: nat)
    requires n < |stack| && stack[n].version == stack[|stack| - 1].version
    requires forall i :: 0 <= i < n ==> stack[i].version != stack[n].version
    ensures TopGroup(stack) == (stack[..n], Reversed(stack[n..]))
  {
    var top := |stack| - 1;
    var below := stack[..top];
    PopVersionIs(below, stack[top].version, n);
    InitSlices(stack, n);
    ReversedConcat(below[n..], [stack[top]]);
    assert Reversed([stack[top]]) == [stack[top]];
  }

  lemma InitSlices<T>(s: seq<T>, n: nat)
    requires n < |s|
    ensures s[..|s| - 1][..n] == s[..n]
    ensures s[..|s| - 1][n..] + [s[|s| - 1]] == s[n..]
  {
  }

  lemma ReversedConcat<T>(a: seq<T>, b: seq<T>)
    ensures Reversed(a + b) == Reversed(b) + Reversed(a)
  {
  }

  /** The upper part of a slice, reversed, comes before its lower part. */
  lemma ReversedSlices<T>(s: seq<T>, p: nat, q: nat)
    requires p <= q <= |s|
    ensures Reversed(s[p..]) == Reversed(s[q..]) + Reversed(s[p..q])
    ensures Reversed(s[p..])[..|s| - q] == Reversed(s[q..])
    ensures Reversed(s[p..])[|s| - q..] == Reversed(s[p..q])
  {
    assert s[p..] == s[p..q] + s[q..];
    ReversedConcat(s[p..q], s[q..]);
  }

  lemma ReversedSlice<T>(s: seq<T>, q: nat, p: nat)
    requires q < p <= |s|
    ensures Reversed(s[q..p]) == [s[p - 1]] + Reversed(s[q..p - 1])
  {
  }

  /** The stacks after an undo, and the undone changes in the order they are to be taken back. */
  function Undone<C(==)>(log: Log<C>): (Log<C>, Option<seq<Entry<C>>>) {
    if log.undos == [] then (log, None)
    else
      var (rest, changes) := TopGroup(log.undos);
      (Log(rest, log.redos + changes, log.version), Some(changes))
  }

  function Redone<C(==)>(log: Log<C>): (Log<C>, Option<seq<Entry<C>>>) {
    if log.redos == [] then (log, None)
    else
      var (rest, changes) := TopGroup(log.redos);
      (Log(log.undos + changes, rest, log.version), Some(changes))
  }

  function Without<C(==)>(stack: seq<Entry<C>>, item: Entry<C>): seq<Entry<C>> {
    if stack == [] then []
    else if stack[0] == item then Without(stack[1..], item)
    else [stack[0]] + Without(stack[1..], item)
  }

  /** Exactly the entries equal to the item are dropped; the others keep their order. */
  lemma {:induction false} WithoutConcat<C>(a: seq<Entry<C>>, b: seq<Entry<C>>, item: Entry<C>)
    ensures Without(a + b, item) == Without(a, item) + Without(b, item)
    ensures item !in Without(a, item) && (item !in a ==> Without(a, item) == a)
    ensures Without([item], item) == []
  {
    if a == [] {
      assert a + b == b;
    } else {
      WithoutConcat(a[1..], b, item);
      assert (a + b)[0] == a[0] && (a + b)[1..] == a[1..] + b;
      assert a == [a[0]] + a[1..];
    }
  }

  /** The stacks after a push.  `advance`: changes are not being grouped and the group interval, if
      any, has elapsed.  The oldest change makes room; the redo stack is kept. */
  function Pushed<C(==)>(log: Log<C>, item: Entry<C>, advance: bool, maxUndos: nat, unique: bool): Log<C>
    requires maxUndos >= 1
  {
    var version := if advance then log.version + 1 else log.version;
    var undos := if |log.undos| >= maxUndos then log.undos[1..] else log.undos;
    var (kept, redos) := if unique then (Without(undos, item), Without(log.redos, item)) else (undos, log.redos);
    Log(kept + [Entry(item.change, version)], redos, version)
  }

  /** The change is on top with the version it gets, the oldest one goes if there was no room, and what else is on the
      stacks stays, but for equal entries in a unique history. */
  lemma PushIsRecorded<C>(log: Log<C>, item: Entry<C>, advance: bool, maxUndos: nat, unique: bool)
    requires maxUndos >= 1
    ensures var r := Pushed(log, item, advance, maxUndos, unique);
            var room := if |log.undos| < maxUndos || log.undos == [] then log.undos else log.undos[1..];
            && r.version == (if advance then log.version + 1 else log.version)
            && r.undos != [] && r.undos[|r.undos| - 1] == Entry(item.change, r.version)
            && r.undos[..|r.undos| - 1] == (if unique then Without(room, item) else room)
            && r.redos == (if unique then Without(log.redos, item) else log.redos)
  {
  }

  class History<C(==)> {
    var undos: seq<Entry<C>>
    var redos: seq<Entry<C>>
    var version: nat
    var ignore: bool
    var grouping: bool
    const maxUndos: nat
    const unique: bool

    ghost function AsLog(): Log<C>
      reads this
    {
      Log(undos, redos, version)
    }

    constructor (maxUndos: nat, unique: bool)
      ensures AsLog() == Log([], [], 0) && !ignore && !grouping
      ensures this.maxUndos == maxUndos && this.unique == unique
    {
      undos, redos, version := [], [], 0;
      ignore, grouping := false, false;
      this.maxUndos, this.unique := maxUndos, unique;
    }

    method IncVersion(elapsed: bool) returns (v: nat)
      modifies this`version
      ensures v == version == old(version) + (if !grouping && elapsed then 1 else 0)
    {
      if !grouping && elapsed {
        version := version + 1;
      }
      v := version;
    }

    /** `elapsed`: no group interval is set, or it has passed since the last push. */
    method Push(item: Entry<C>, elapsed: bool)
      requires maxUndos >= 1
      modifies this`undos, this`redos, this`version
      ensures AsLog() == Pushed(old(AsLog()), item, !grouping && elapsed, maxUndos, unique)
    {
      var v := IncVersion(elapsed);
      if |undos| >= maxUndos {
        undos := undos[1..];
      }
      if unique {
        undos := Retain(undos, item);
        redos := Retain(redos, item);
      }
      undos := undos + [item.(version := v)];
    }

    static method Retain(stack: seq<Entry<C>>, item: Entry<C>) returns (kept: seq<Entry<C>>)
      ensures kept == Without(stack, item)
    {
      kept := [];
      var i := 0;
      while i < |stack|
        invariant 0 <= i <= |stack|
        invariant kept + Without(stack[i..], item) == Without(stack, item)
      {
        if stack[i] != item {
          kept := kept + [stack[i]];
        }
        i := i + 1;
      }
    }

    /** Pops the top entry and everything above the last entry of its version. */
    static method PopTopGroup(stack: seq<Entry<C>>) returns (rest: seq<Entry<C>>, changes: seq<Entry<C>>)
      requires stack != []
      ensures (rest, changes) == TopGroup(stack)
    {
      var first := stack[|stack| - 1];
      rest := stack[..|stack| - 1];
      changes := [first];
      ghost var all := PopVersion(rest, first.version);
      while HasVersion(rest, first.version)
        invariant PopVersion(rest, first.version).0 == all.0
        invariant changes + PopVersion(rest, first.version).1 == [first] + all.1
        decreases |rest|
      {
        changes := changes + [rest[|rest| - 1]];
        rest := rest[..|rest| - 1];
      }
      assert changes + [] == changes;
    }

    method Undo() returns (changes: Option<seq<Entry<C>>>)
      modifies this`undos, this`redos
      ensures (AsLog(), changes) == Undone(old(AsLog()))
    {
      if undos == [] {
        return None;
      }
      var rest, popped := PopTopGroup(undos);
      undos := rest;
      redos := redos + popped;
      return Some(popped);
    }

    method Redo() returns (changes: Option<seq<Entry<C>>>)
      modifies this`undos, this`redos
      ensures (AsLog(), changes) == Redone(old(AsLog()))
    {
      if redos == [] {
        return None;
      }
      var rest, popped := PopTopGroup(redos);
      redos := rest;
      undos := undos + popped;
      return Some(popped);
    }
  }
}
