/** Changes made after an undo.

    A push does not clear the redo stack.  As long as no entry that was there before the push is redone, the canvas
    behaves like one that does clear it. */
module StaleRedos {
  import opened History
  import opened Sequences
  import opened Tiles
  import opened Wrappers

  // ------------------------------------------------------------------------------------------
  // Against a canvas that clears its redo stack
  // ------------------------------------------------------------------------------------------

  function Cleared(doc: Doc): Doc {
    doc.(log := doc.log.(redos := []))
  }

  predicate Records(doc: Doc, op: Op) {
    op.Change? && Edited(doc.tiles, op.edit).1.Some?
  }

  /** The usual behaviour: a recorded change clears the redo stack. */
  function Ideal(doc: Doc, op: Op, maxUndos: nat): Doc
    requires doc.Valid() && maxUndos >= 1
  {
    if Records(doc, op) then Do(Cleared(doc), op, maxUndos) else Do(doc, op, maxUndos)
  }

  lemma IdealKeepsValid(doc: Doc, op: Op, maxUndos: nat)
    requires doc.Valid() && maxUndos >= 1
    ensures Ideal(doc, op, maxUndos).Valid()
  {
    DoKeepsValid(doc, op, maxUndos);
    DoKeepsValid(Cleared(doc), op, maxUndos);
  }

  /** The document with stale entries at the bottom of its redo stack. */
  function Over(doc: Doc, stale: seq<Entry<TileChange>>): Doc {
    doc.(log := doc.log.(redos := stale + doc.log.redos))
  }

  /** The operation redoes more than the topmost `live` entries. */
  predicate RedoesStale(doc: Doc, live: nat, op: Op) {
    op.Redo? && doc.log.redos != [] && |TopGroup(doc.log.redos).1| > live
  }

  /** Popping a live group does not see the stale entries below. */
  lemma TopGroupOver<C>(stale: seq<Entry<C>>, stack: seq<Entry<C>>)
    requires stack != [] && |TopGroup(stale + stack).1| <= |stack|
    ensures TopGroup(stale + stack) == (stale + TopGroup(stack).0, TopGroup(stack).1)
  {
    var all, top := stale + stack, |stack| - 1;
    assert all[..|all| - 1] == stale + stack[..top];
    forall i | 0 <= i < |stale| ensures stale[i].version != stack[top].version {
      if stale[i].version == stack[top].version {
        PopsDownTo(all, i);
      }
    }
    PopOver(stale, stack[..top], stack[top].version);
  }

  lemma {:induction false} PopOver<C>(stale: seq<Entry<C>>, stack: seq<Entry<C>>, version: nat)
    requires forall i :: 0 <= i < |stale| ==> stale[i].version != version
    ensures PopVersion(stale + stack, version) == (stale + PopVersion(stack, version).0, PopVersion(stack, version).1)
    decreases |stack|
  {
    var all := stale + stack;
    assert HasVersion(all, version) <==> HasVersion(stack, version) by {
      if i :| 0 <= i < |all| && all[i].version == version {
        assert stack[i - |stale|].version == version;
      }
      if i :| 0 <= i < |stack| && stack[i].version == version {
        assert all[|stale| + i].version == version;
      }
    }
    if HasVersion(stack, version) {
      var top := |stack| - 1;
      assert all[..|all| - 1] == stale + stack[..top];
      PopOver(stale, stack[..top], version);
    }
  }

  /** One operation: the canvas stays the usual one with stale entries below, exactly if it redoes none of them. */
  lemma StepExact(doc: Doc, stale: seq<Entry<TileChange>>, op: Op, maxUndos: nat)
    requires Over(doc, stale).Valid() && doc.Valid() && maxUndos >= 1
    ensures (exists below :: Do(Over(doc, stale), op, maxUndos) == Over(Ideal(doc, op, maxUndos), below))
       <==> !RedoesStale(Over(doc, stale), |doc.log.redos|, op)
  {
    if RedoesStale(Over(doc, stale), |doc.log.redos|, op) {
      StaleRedoDiffers(doc, stale, maxUndos);
    } else {
      var below := StepOver(doc, stale, op, maxUndos);
    }
  }

  lemma StepOver(doc: Doc, stale: seq<Entry<TileChange>>, op: Op, maxUndos: nat) returns (below: seq<Entry<TileChange>>)
    requires Over(doc, stale).Valid() && doc.Valid() && maxUndos >= 1
    requires !RedoesStale(Over(doc, stale), |doc.log.redos|, op)
    ensures Do(Over(doc, stale), op, maxUndos) == Over(Ideal(doc, op, maxUndos), below)
    ensures below == if Records(doc, op) then stale + doc.log.redos else stale
  {
    below := stale;
    match op
    case Change(edit, advance) =>
      if Records(doc, op) {
        ChangeResult(Over(doc, stale), edit, advance, maxUndos);
        ChangeResult(Cleared(doc), edit, advance, maxUndos);
        below := stale + doc.log.redos;
        assert below + [] == below;
      }
    case Undo =>
      if doc.log.undos != [] {
        ConcatAssoc(stale, doc.log.redos, TopGroup(doc.log.undos).1);
      }
    case Redo =>
      if doc.log.redos != [] {
        TopGroupOver(stale, doc.log.redos);
      } else {
        assert stale + [] == stale;
        assert stale != [] ==> |TopGroup(stale).1| > 0;
      }
  }

  lemma StaleRedoDiffers(doc: Doc, stale: seq<Entry<TileChange>>, maxUndos: nat)
    requires Over(doc, stale).Valid() && doc.Valid() && maxUndos >= 1
    requires RedoesStale(Over(doc, stale), |doc.log.redos|, Redo)
    ensures forall below :: Do(Over(doc, stale), Redo, maxUndos) != Over(Ideal(doc, Redo, maxUndos), below)
  {
    var all := stale + doc.log.redos;
    assert |Do(Over(doc, stale), Redo, maxUndos).log.undos| == |doc.log.undos| + |TopGroup(all).1|;
    if doc.log.redos != [] {
      TopGroupSplits(doc.log.redos);
      assert |Ideal(doc, Redo, maxUndos).log.undos| <= |doc.log.undos| + |doc.log.redos|;
    } else {
      assert Ideal(doc, Redo, maxUndos).log.undos == doc.log.undos;
    }
  }

  /** How many entries at the top of the redo stack are not stale after an operation. */
  function LiveAfter(doc: Doc, live: nat, op: Op): nat
    requires !RedoesStale(doc, live, op)
  {
    match op
    case Change(_, _) => if Records(doc, op) then 0 else live
    case Undo => live + if doc.log.undos == [] then 0 else |TopGroup(doc.log.undos).1|
    case Redo => live - if doc.log.redos == [] then 0 else |TopGroup(doc.log.redos).1|
  }

  /** No operation of the run redoes a stale entry. */
  ghost predicate NoStaleRedo(doc: Doc, live: nat, ops: seq<Op>, maxUndos: nat)
    requires doc.Valid() && maxUndos >= 1
    decreases |ops|
  {
    ops == [] ||
    (DoKeepsValid(doc, ops[0], maxUndos);
     && !RedoesStale(doc, live, ops[0])
     && NoStaleRedo(Do(doc, ops[0], maxUndos), LiveAfter(doc, live, ops[0]), ops[1..], maxUndos))
  }

  function IdealRun(doc: Doc, ops: seq<Op>, maxUndos: nat): (r: Doc)
    requires doc.Valid() && maxUndos >= 1
    ensures r.Valid()
    decreases |ops|
  {
    if ops == [] then doc
    else
      IdealKeepsValid(doc, ops[0], maxUndos);
      IdealRun(Ideal(doc, ops[0], maxUndos), ops[1..], maxUndos)
  }

  /** The layouts right after each change the usual canvas records. */
  ghost function IdealRecorded(doc: Doc, ops: seq<Op>, maxUndos: nat): seq<Layout>
    requires doc.Valid() && maxUndos >= 1
    decreases |ops|
  {
    if ops == [] then []
    else
      IdealKeepsValid(doc, ops[0], maxUndos);
      var next := Ideal(doc, ops[0], maxUndos);
      var rest := IdealRecorded(next, ops[1..], maxUndos);
      if Records(doc, ops[0]) then [next.tiles] + rest else rest
  }

  lemma LiveIsIdeal(doc: Doc, stale: seq<Entry<TileChange>>, op: Op, maxUndos: nat)
    requires Over(doc, stale).Valid() && doc.Valid() && maxUndos >= 1
    requires !RedoesStale(Over(doc, stale), |doc.log.redos|, op)
    ensures LiveAfter(Over(doc, stale), |doc.log.redos|, op) == |Ideal(doc, op, maxUndos).log.redos|
  {
    match op
    case Change(edit, advance) =>
      if Records(doc, op) {
        ChangeResult(Cleared(doc), edit, advance, maxUndos);
      }
    case Undo =>
    case Redo =>
      if doc.log.redos != [] {
        TopGroupOver(stale, doc.log.redos);
        TopGroupSplits(doc.log.redos);
      } else {
        assert stale + [] == stale;
        assert stale != [] ==> |TopGroup(stale).1| > 0;
      }
  }

  /** A whole run that redoes no stale entry shows what the usual canvas shows, and records the same layouts. */
  lemma {:induction false} RunOver(doc: Doc, stale: seq<Entry<TileChange>>, ops: seq<Op>, maxUndos: nat)
    returns (below: seq<Entry<TileChange>>)
    requires Over(doc, stale).Valid() && doc.Valid() && maxUndos >= 1
    requires NoStaleRedo(Over(doc, stale), |doc.log.redos|, ops, maxUndos)
    ensures Run(Over(doc, stale), ops, maxUndos) == Over(IdealRun(doc, ops, maxUndos), below)
    ensures Recorded(Over(doc, stale), ops, maxUndos) == IdealRecorded(doc, ops, maxUndos)
    ensures (forall i :: 0 <= i < |ops| ==> !ops[i].Change?) ==> below == stale
    decreases |ops|
  {
    hide Do, Ideal, Over, RedoesStale, LiveAfter;
    below := stale;
    if ops != [] {
      var op := ops[0];
      TilesOver(doc, stale);
      DoKeepsValid(Over(doc, stale), op, maxUndos);
      IdealKeepsValid(doc, op, maxUndos);
      LiveIsIdeal(doc, stale, op, maxUndos);
      below := StepOver(doc, stale, op, maxUndos);
      TilesOver(Ideal(doc, op, maxUndos), below);
      assert forall i :: 0 <= i < |ops| - 1 ==> ops[1..][i] == ops[i + 1];
      below := RunOver(Ideal(doc, op, maxUndos), below, ops[1..], maxUndos);
    }
  }

  lemma TilesOver(doc: Doc, stale: seq<Entry<TileChange>>)
    ensures Over(doc, stale).tiles == doc.tiles
  {
  }

  // ------------------------------------------------------------------------------------------
  // The usual canvas is always on a timeline
  // ------------------------------------------------------------------------------------------

  lemma TimelinePrefix(es: seq<Entry<TileChange>>, ls: seq<Layout>, p: nat)
    requires Timeline(es, ls) && p <= |es|
    ensures Timeline(es[..p], ls[..p + 1])
  {
  }

  lemma ClearedIsAt(doc: Doc, es: seq<Entry<TileChange>>, ls: seq<Layout>, p: nat)
    requires At(doc, es, ls, p)
    ensures At(Cleared(doc), es[..p], ls[..p + 1], p)
  {
    TimelinePrefix(es, ls, p);
    var kept := es[..p];
    assert kept[..p] == kept && Reversed(kept[p..]) == [];
  }

  /** A change forgets the layouts that could be redone. */
  ghost function Continued(doc: Doc, ls: seq<Layout>, op: Op, maxUndos: nat): seq<Layout>
    requires |doc.log.undos| < |ls|
  {
    if Records(doc, op) then Last(ls[..|doc.log.undos| + 1] + [Edited(doc.tiles, op.edit).0], maxUndos + 1) else ls
  }

  lemma IdealStaysOnTimeline(doc: Doc, es: seq<Entry<TileChange>>, ls: seq<Layout>, p: nat, op: Op, maxUndos: nat)
    returns (es': seq<Entry<TileChange>>, p': nat)
    requires At(doc, es, ls, p) && maxUndos >= 1 && |es| <= maxUndos
    ensures doc.Valid() && |es'| <= maxUndos && |doc.log.undos| == p < |ls|
    ensures At(Ideal(doc, op, maxUndos), es', Continued(doc, ls, op, maxUndos), p')
  {
    AtIsValid(doc, es, ls, p);
    match op
    case Undo =>
      UndoGoesBack(doc, es, ls, p, maxUndos);
      es', p' := es, Back(es, p);
    case Redo =>
      RedoGoesForward(doc, es, ls, p, maxUndos);
      es', p' := es, Forward(es, p);
    case Change(edit, advance) =>
      es', p' := es, p;
      if Records(doc, op) {
        ClearedIsAt(doc, es, ls, p);
        RecordedTiles(Cleared(doc), op, maxUndos);
        ChangeExtends(Cleared(doc), es[..p], ls[..p + 1], edit, advance, maxUndos);
        es' := Do(Cleared(doc), op, maxUndos).log.undos;
        p' := |es'|;
      }
  }

  ghost function LiveLayouts(doc: Doc, ls: seq<Layout>, ops: seq<Op>, maxUndos: nat): seq<Layout>
    requires doc.Valid() && maxUndos >= 1
    decreases |ops|
  {
    if ops == [] || |doc.log.undos| >= |ls| then ls
    else
      IdealKeepsValid(doc, ops[0], maxUndos);
      LiveLayouts(Ideal(doc, ops[0], maxUndos), Continued(doc, ls, ops[0], maxUndos), ops[1..], maxUndos)
  }

  lemma {:induction false} IdealRunStaysOnTimeline(
    doc: Doc, es: seq<Entry<TileChange>>, ls: seq<Layout>, p: nat, ops: seq<Op>, maxUndos: nat)
    returns (es': seq<Entry<TileChange>>, p': nat)
    requires At(doc, es, ls, p) && maxUndos >= 1 && |es| <= maxUndos && doc.Valid()
    ensures At(IdealRun(doc, ops, maxUndos), es', LiveLayouts(doc, ls, ops, maxUndos), p')
    decreases |ops|
  {
    hide At, Ideal, Continued;
    es', p' := es, p;
    if ops != [] {
      IdealKeepsValid(doc, ops[0], maxUndos);
      var es1, p1 := IdealStaysOnTimeline(doc, es, ls, p, ops[0], maxUndos);
      var ls1 := Continued(doc, ls, ops[0], maxUndos);
      es', p' := IdealRunStaysOnTimeline(Ideal(doc, ops[0], maxUndos), es1, ls1, p1, ops[1..], maxUndos);
    }
  }

  /** The layouts undo leads to were really there: at the start or right after a recorded change.  With few changes
      the first one is the first of all. */
  lemma {:induction false} LiveLayoutsWereThere(doc: Doc, ls: seq<Layout>, ops: seq<Op>, maxUndos: nat)
    requires doc.Valid() && maxUndos >= 1 && ls != []
    ensures forall l :: l in LiveLayouts(doc, ls, ops, maxUndos) ==> l in ls || l in IdealRecorded(doc, ops, maxUndos)
    ensures |ls| + |IdealRecorded(doc, ops, maxUndos)| <= maxUndos + 1 ==>
              LiveLayouts(doc, ls, ops, maxUndos) != [] && LiveLayouts(doc, ls, ops, maxUndos)[0] == ls[0]
    decreases |ops|
  {
    hide Ideal, Edited;
    if ops != [] && |doc.log.undos| < |ls| {
      var op := ops[0];
      IdealKeepsValid(doc, op, maxUndos);
      var next := Ideal(doc, op, maxUndos);
      if Records(doc, op) {
        IdealTiles(doc, op, maxUndos);
      }
      LiveLayoutsWereThere(next, Continued(doc, ls, op, maxUndos), ops[1..], maxUndos);
    }
  }

  lemma IdealTiles(doc: Doc, op: Op, maxUndos: nat)
    requires doc.Valid() && maxUndos >= 1 && Records(doc, op)
    ensures Ideal(doc, op, maxUndos).tiles == Edited(doc.tiles, op.edit).0
  {
    RecordedTiles(Cleared(doc), op, maxUndos);
  }

  // ------------------------------------------------------------------------------------------
  // Round trips of runs that change things after undoing
  // ------------------------------------------------------------------------------------------

  function Start(layout: Layout): Doc {
    Doc(layout, Log([], [], 0))
  }

  lemma StartIsAt(layout: Layout)
    requires UniqueIds(layout)
    ensures Start(layout).Valid() && At(Start(layout), [], [layout], 0) && Over(Start(layout), []) == Start(layout)
  {
  }

  lemma {:induction false} MovesAreIdeal(doc: Doc, moves: seq<Op>, maxUndos: nat)
    requires doc.Valid() && maxUndos >= 1 && forall i :: 0 <= i < |moves| ==> !moves[i].Change?
    ensures IdealRun(doc, moves, maxUndos) == Run(doc, moves, maxUndos)
    decreases |moves|
  {
    if moves != [] {
      DoKeepsValid(doc, moves[0], maxUndos);
      assert forall i :: 0 <= i < |moves| - 1 ==> moves[1..][i] == moves[i + 1];
      MovesAreIdeal(Do(doc, moves[0], maxUndos), moves[1..], maxUndos);
    }
  }

  lemma {:induction false} UndosAreFresh(doc: Doc, live: nat, k: nat, maxUndos: nat)
    requires doc.Valid() && maxUndos >= 1
    ensures NoStaleRedo(doc, live, Times(Undo, k), maxUndos)
    decreases k
  {
    if k > 0 {
      DoKeepsValid(doc, Undo, maxUndos);
      UndosAreFresh(Do(doc, Undo, maxUndos), LiveAfter(doc, live, Undo), k - 1, maxUndos);
      assert Times(Undo, k)[1..] == Times(Undo, k - 1);
    }
  }

  /** Where any run that redoes no stale entry has got to. */
  lemma AfterAnyRun(layout: Layout, ops: seq<Op>, maxUndos: nat)
    returns (ideal: Doc, stale: seq<Entry<TileChange>>, es: seq<Entry<TileChange>>, ls: seq<Layout>, p: nat)
    requires UniqueIds(layout) && maxUndos >= 1 && NoStaleRedo(Start(layout), 0, ops, maxUndos)
    ensures Run(Start(layout), ops, maxUndos) == Over(ideal, stale) && ideal == IdealRun(Start(layout), ops, maxUndos)
    ensures At(ideal, es, ls, p) && ls == LiveLayouts(Start(layout), [layout], ops, maxUndos)
    ensures Recorded(Start(layout), ops, maxUndos) == IdealRecorded(Start(layout), ops, maxUndos)
  {
    hide At, Run, IdealRun, Over, NoStaleRedo;
    StartIsAt(layout);
    ideal := IdealRun(Start(layout), ops, maxUndos);
    ls := LiveLayouts(Start(layout), [layout], ops, maxUndos);
    stale := RunOver(Start(layout), [], ops, maxUndos);
    es, p := IdealRunStaysOnTimeline(Start(layout), [], [layout], 0, ops, maxUndos);
  }

  /** Undos from such a state lead back along the live layouts, and leave the stale entries where they are. */
  lemma UndosOver(ideal: Doc, stale: seq<Entry<TileChange>>, es: seq<Entry<TileChange>>, ls: seq<Layout>, p: nat,
                  k: nat, maxUndos: nat)
    requires At(ideal, es, ls, p) && Over(ideal, stale).Valid() && maxUndos >= 1
    ensures ideal.Valid()
    ensures var undone := Run(ideal, Times(Undo, k), maxUndos);
            && Run(Over(ideal, stale), Times(Undo, k), maxUndos) == Over(undone, stale)
            && At(undone, es, ls, BackBy(es, p, k))
  {
    WalkTimes(es, p, k);
    hide At, Run, IdealRun, Over, NoStaleRedo;
    AtIsValid(ideal, es, ls, p);
    TimesAreMoves(k);
    UndosAreFresh(Over(ideal, stale), |ideal.log.redos|, k, maxUndos);
    var below := RunOver(ideal, stale, Times(Undo, k), maxUndos);
    MovesAreIdeal(ideal, Times(Undo, k), maxUndos);
    MovesAreACursor(ideal, es, ls, p, Times(Undo, k), maxUndos);
  }

  lemma {:induction false} BackByPrefix(es: seq<Entry<TileChange>>, p: nat, q: nat, k: nat)
    requires q <= p <= |es|
    ensures BackBy(es[..p], q, k) == BackBy(es, q, k)
    decreases k
  {
    if k > 0 {
      BackPrefix(es, p, q);
      BackByPrefix(es, p, Back(es, q), k - 1);
    }
  }

  lemma {:induction false} BackPrefix(es: seq<Entry<TileChange>>, p: nat, q: nat)
    requires q <= p <= |es|
    ensures Back(es[..p], q) == Back(es, q)
  {
    if q > 1 && es[q - 2].version == es[q - 1].version {
      BackPrefix(es, p, q - 1);
    }
  }

  /** After any run from the first layout that redoes no stale entry, however often it changed things after undoing:
      k undos show the live layout of that boundary, which was really there, and if nothing was left to redo, k redos
      that redo no stale entry restore everything. */
  lemma RoundTripAfterAnyRun(layout: Layout, ops: seq<Op>, k: nat, maxUndos: nat)
    requires UniqueIds(layout) && maxUndos >= 1 && NoStaleRedo(Start(layout), 0, ops, maxUndos)
    ensures var doc := Run(Start(layout), ops, maxUndos);
            var undone := Run(doc, Times(Undo, k), maxUndos);
            var live := |IdealRun(Start(layout), ops + Times(Undo, k), maxUndos).log.redos|;
            var layouts := LiveLayouts(Start(layout), [layout], ops, maxUndos);
            var q := BackBy(doc.log.undos, |doc.log.undos|, k);
            && q < |layouts| && undone.tiles == layouts[q] && Boundary(doc.log.undos, q)
            && (undone.tiles == layout || undone.tiles in Recorded(Start(layout), ops, maxUndos))
            && (IdealRun(Start(layout), ops, maxUndos).log.redos == []
                && NoStaleRedo(undone, live, Times(Redo, k), maxUndos)
                ==> Run(undone, Times(Redo, k), maxUndos) == doc)
  {
    hide Run, IdealRun, NoStaleRedo, Recorded, IdealRecorded, LiveLayouts;
    var start := Start(layout);
    var ideal, stale, es, ls, p := AfterAnyRun(layout, ops, maxUndos);
    LiveLayoutsWereThere(start, [layout], ops, maxUndos);
    UndosOver(ideal, stale, es, ls, p, k, maxUndos);
    var undone := Run(ideal, Times(Undo, k), maxUndos);
    assert undone.tiles == ls[BackBy(es, p, k)] && ls[BackBy(es, p, k)] in ls;
    assert ideal.log.undos == es[..p];
    BackByPrefix(es, p, p, k);
    BackByBoundary(ideal.log.undos, p, k);
    RunInTurn(start, ops, Times(Undo, k), maxUndos);
    TimesAreMoves(k);
    MovesAreIdeal(ideal, Times(Undo, k), maxUndos);
    if ideal.log.redos == [] && NoStaleRedo(Over(undone, stale), |undone.log.redos|, Times(Redo, k), maxUndos) {
      NothingToRedo(ideal, es, ls, p);
      var below := RunOver(undone, stale, Times(Redo, k), maxUndos);
      MovesAreIdeal(undone, Times(Redo, k), maxUndos);
      UndoRedoRoundTrip(ideal, es, ls, k, maxUndos);
    }
  }

  lemma NothingToRedo(doc: Doc, es: seq<Entry<TileChange>>, ls: seq<Layout>, p: nat)
    requires At(doc, es, ls, p) && doc.log.redos == []
    ensures p == |es|
  {
    assert |Reversed(es[p..])| == |es| - p;
  }

  lemma {:induction false} RunInTurn(doc: Doc, a: seq<Op>, b: seq<Op>, maxUndos: nat)
    requires doc.Valid() && maxUndos >= 1
    ensures IdealRun(doc, a + b, maxUndos) == IdealRun(IdealRun(doc, a, maxUndos), b, maxUndos)
    decreases |a|
  {
    hide Ideal;
    if a == [] {
      assert a + b == b;
    } else {
      IdealKeepsValid(doc, a[0], maxUndos);
      RunInTurn(Ideal(doc, a[0], maxUndos), a[1..], b, maxUndos);
      assert (a + b)[0] == a[0] && (a + b)[1..] == a[1..] + b;
    }
  }

  /** If no more changes were recorded than fit, undoing everything leads to the first layout. */
  lemma UndoEverythingAfterAnyRun(layout: Layout, ops: seq<Op>, k: nat, maxUndos: nat)
    requires UniqueIds(layout) && maxUndos >= 1 && NoStaleRedo(Start(layout), 0, ops, maxUndos)
    requires Start(layout).Valid() && |Recorded(Start(layout), ops, maxUndos)| <= maxUndos
    requires k >= |Run(Start(layout), ops, maxUndos).log.undos|
    ensures Run(Run(Start(layout), ops, maxUndos), Times(Undo, k), maxUndos).tiles == layout
  {
    hide Run, IdealRun, NoStaleRedo, Recorded, IdealRecorded, LiveLayouts;
    var ideal, stale, es, ls, p := AfterAnyRun(layout, ops, maxUndos);
    LiveLayoutsWereThere(Start(layout), [layout], ops, maxUndos);
    UndosOver(ideal, stale, es, ls, p, k, maxUndos);
    assert |ideal.log.undos| == p;
  }

  lemma LastOfLast(ls: seq<Layout>, x: Layout, rest: seq<Layout>, n: nat)
    requires n >= 1
    ensures Last(Last(ls + [x], n) + rest, n) == Last(ls + ([x] + rest), n)
  {
    var all := ls + ([x] + rest);
    var cut := if |ls| + 1 <= n then 0 else |ls| + 1 - n;
    assert Last(ls + [x], n) + rest == all[cut..];
  }

  lemma LastOfShort(ls: seq<Layout>, n: nat)
    requires |ls| <= n
    ensures Last(ls + [], n) == ls
  {
    assert ls + [] == ls;
  }

  /** A run that changes nothing while something can be redone never has stale entries. */
  lemma {:induction false} OrderlyIsIdeal(doc: Doc, ops: seq<Op>, maxUndos: nat)
    requires doc.Valid() && maxUndos >= 1 && Orderly(doc, ops, maxUndos)
    ensures IdealRun(doc, ops, maxUndos) == Run(doc, ops, maxUndos)
    ensures IdealRecorded(doc, ops, maxUndos) == Recorded(doc, ops, maxUndos)
    decreases |ops|
  {
    if ops != [] {
      DoKeepsValid(doc, ops[0], maxUndos);
      assert Records(doc, ops[0]) ==> Cleared(doc) == doc;
      assert Ideal(doc, ops[0], maxUndos) == Do(doc, ops[0], maxUndos);
      OrderlyIsIdeal(Do(doc, ops[0], maxUndos), ops[1..], maxUndos);
    }
  }

  /** Its live layouts are all that were there, as far back as the history reaches. */
  lemma {:induction false} OrderlyLayouts(
    doc: Doc, es: seq<Entry<TileChange>>, ls: seq<Layout>, p: nat, ops: seq<Op>, maxUndos: nat)
    requires At(doc, es, ls, p) && maxUndos >= 1 && |es| <= maxUndos
    requires doc.Valid() && Orderly(doc, ops, maxUndos)
    ensures LiveLayouts(doc, ls, ops, maxUndos) == Last(ls + Recorded(doc, ops, maxUndos), maxUndos + 1)
    decreases |ops|
  {
    hide Last, Edited, DoChange, DoUndo, DoRedo;
    var n := maxUndos + 1;
    assert |ls| == |es| + 1 && |doc.log.undos| == p;
    if ops == [] {
      LastOfShort(ls, n);
    } else {
      var op := ops[0];
      DoKeepsValid(doc, op, maxUndos);
      var next := Do(doc, op, maxUndos);
      assert Records(doc, op) ==> Cleared(doc) == doc;
      assert Ideal(doc, op, maxUndos) == next;
      var es1, p1 := IdealStaysOnTimeline(doc, es, ls, p, op, maxUndos);
      var longer, rest := Continued(doc, ls, op, maxUndos), Recorded(next, ops[1..], maxUndos);
      OrderlyLayouts(next, es1, longer, p1, ops[1..], maxUndos);
      if Records(doc, op) {
        NothingToRedo(doc, es, ls, p);
        assert ls[..p + 1] == ls;
        RecordedTiles(doc, op, maxUndos);
        LastOfLast(ls, next.tiles, rest, n);
      }
    }
  }

  /** After such a run that ends with nothing left to redo, k undos lead to the layout that was there k groups ago, and
      k redos lead back. */
  lemma RoundTripAfterRun(layout: Layout, ops: seq<Op>, k: nat, maxUndos: nat)
    requires UniqueIds(layout) && maxUndos >= 1 && Orderly(Start(layout), ops, maxUndos)
    requires Run(Start(layout), ops, maxUndos).log.redos == []
    ensures var doc := Run(Start(layout), ops, maxUndos);
            var undone := Run(doc, Times(Undo, k), maxUndos);
            var layouts := Last([layout] + Recorded(Start(layout), ops, maxUndos), maxUndos + 1);
            var q := BackBy(doc.log.undos, |doc.log.undos|, k);
            && |layouts| == |doc.log.undos| + 1
            && undone.tiles == layouts[q] && Boundary(doc.log.undos, q)
            && Run(undone, Times(Redo, k), maxUndos) == doc
  {
    hide Run, IdealRun, Recorded, LiveLayouts, Orderly;
    var start := Start(layout);
    StartIsAt(layout);
    OrderlyIsIdeal(start, ops, maxUndos);
    OrderlyLayouts(start, [], [layout], 0, ops, maxUndos);
    var es, p := IdealRunStaysOnTimeline(start, [], [layout], 0, ops, maxUndos);
    var ls, end := LiveLayouts(start, [layout], ops, maxUndos), Run(start, ops, maxUndos);
    NothingToRedo(end, es, ls, p);
    assert end.log.undos == es;
    UndoRedoRoundTrip(end, es, ls, k, maxUndos);
    BackByBoundary(es, |es|, k);
  }

  /** Redos stay clear of stale entries that share no version with the live ones, for example because each change
      made after an undo came later than the group interval. */
  lemma DistinctVersionsAreFresh(doc: Doc, stale: seq<Entry<TileChange>>, maxUndos: nat)
    requires doc.Valid() && maxUndos >= 1 && doc.log.redos != []
    requires forall i, j :: 0 <= i < |stale| && 0 <= j < |doc.log.redos| ==>
               stale[i].version != doc.log.redos[j].version
    ensures !RedoesStale(Over(doc, stale), |doc.log.redos|, Redo)
  {
    var stack := doc.log.redos;
    var top := |stack| - 1;
    assert (stale + stack)[..|stale| + top] == stale + stack[..top];
    PopOver(stale, stack[..top], stack[top].version);
    PopVersionSplits(stack[..top], stack[top].version);
  }

  /** Change, undo, change, undo: the first layout is back, and one redo shows the second change again. */
  lemma ChangeUndoChangeUndo(b0: Bounds, b1: Bounds, b2: Bounds)
    requires b0 != b1 && b0 != b2
    ensures var start := Start([Tile(0, b0)]);
            var ops := [Change(ChangeBounds(0, b1), true), Undo, Change(ChangeBounds(0, b2), true), Undo];
            && UniqueIds([Tile(0, b0)]) && start.Valid() && NoStaleRedo(start, 0, ops, 1000)
            && Run(start, ops, 1000).tiles == [Tile(0, b0)]
            && Run(start, ops + [Redo], 1000).tiles == [Tile(0, b2)]
  {
    var first := Entry(TileChange(0, Some(b0), Some(b1), None, None), 1);
    var second := Entry(TileChange(0, Some(b0), Some(b2), None, None), 2);
    var d0, d1 := Start([Tile(0, b0)]), Doc([Tile(0, b1)], Log([first], [], 1));
    var d2, d3 := Doc([Tile(0, b0)], Log([], [first], 1)), Doc([Tile(0, b2)], Log([second], [first], 2));
    var d4, d5 := Doc([Tile(0, b0)], Log([], [first, second], 2)), Doc([Tile(0, b2)], Log([second], [first], 2));
    var c1, c2 := Change(ChangeBounds(0, b1), true), Change(ChangeBounds(0, b2), true);
    LoneChange(b0, b1, Log([], [], 0));
    LoneUndo(b0, b1, b1, [], first, Log([], [], 1));
    LoneChange(b0, b2, Log([], [first], 1));
    assert [] + [first] == [first] && [] + [second] == [second] && [first] + [second] == [first, second];
    SingleGroup([], first);
    SingleGroup([], second);
    SingleGroup([first], second);
    SingleStep([Tile(0, b2)], second, [Tile(0, b0)]);
    SingleStep([Tile(0, b0)], second, [Tile(0, b0)]);
    assert [Tile(0, b2)][0 := Tile(0, b0)] == [Tile(0, b0)] && [Tile(0, b0)][0 := Tile(0, b2)] == [Tile(0, b2)];
    assert [Tile(0, b0)][0 := Tile(0, b0)] == [Tile(0, b0)];
    assert Do(d3, Undo, 1000) == d4 && Do(d4, Redo, 1000) == d5;
    FourSteps(d0, d1, d2, d3, d4, d5, c1, c2);
  }

  lemma FourSteps(d0: Doc, d1: Doc, d2: Doc, d3: Doc, d4: Doc, d5: Doc, c1: Op, c2: Op)
    requires d0.Valid() && d1.Valid() && d2.Valid() && d3.Valid() && d4.Valid() && c1.Change? && c2.Change?
    requires Do(d0, c1, 1000) == d1 && Do(d1, Undo, 1000) == d2 && Do(d2, c2, 1000) == d3 && Do(d3, Undo, 1000) == d4
    requires Do(d4, Redo, 1000) == d5
    ensures NoStaleRedo(d0, 0, [c1, Undo, c2, Undo], 1000)
    ensures Run(d0, [c1, Undo, c2, Undo], 1000) == d4 && Run(d0, [c1, Undo, c2, Undo] + [Redo], 1000) == d5
  {
    hide Do;
    DoKeepsValid(d4, Redo, 1000);
    var ops := [c1, Undo, c2, Undo];
    assert ops[1..] == [Undo, c2, Undo] && [Undo, c2, Undo][1..] == [c2, Undo] && [c2, Undo][1..] == [Undo];
    assert [Undo][1..] == [];
    var more := ops + [Redo];
    assert more[1..] == [Undo, c2, Undo, Redo] && more[1..][1..] == [c2, Undo, Redo];
    assert [c2, Undo, Redo][1..] == [Undo, Redo] && [Undo, Redo][1..] == [Redo] && [Redo][1..] == [];
    assert Run(d4, [], 1000) == d4 && Run(d5, [], 1000) == d5;
    assert Run(d3, [Undo], 1000) == d4 && Run(d4, [Redo], 1000) == d5 && Run(d3, [Undo, Redo], 1000) == d5;
    assert Run(d2, [c2, Undo], 1000) == d4 && Run(d2, [c2, Undo, Redo], 1000) == d5;
    assert Run(d1, [Undo, c2, Undo], 1000) == d4 && Run(d1, more[1..], 1000) == d5;
    var l1 := LiveAfter(d0, 0, c1);
    var l2 := LiveAfter(d1, l1, Undo);
    var l3 := LiveAfter(d2, l2, c2);
    assert NoStaleRedo(d4, LiveAfter(d3, l3, Undo), [], 1000);
    assert NoStaleRedo(d3, l3, [Undo], 1000);
    assert NoStaleRedo(d2, l2, [c2, Undo], 1000);
    assert NoStaleRedo(d1, l1, [Undo, c2, Undo], 1000);
  }
}
