/** A canvas of tiles, drawn back to front, with grouped undo and redo. */
module Tiles {
  import opened History
  import opened Wrappers

  type TileId = nat

  /** Positions and sizes only matter here as values that are stored and compared. */
  datatype Bounds = Bounds(x: real, y: real, width: real, height: real)

  datatype Tile = Tile(id: TileId, bounds: Bounds)

  type Layout = seq<Tile>

  datatype TileChange = TileChange(
    id: TileId,
    oldBounds: Option<Bounds>, newBounds: Option<Bounds>,
    oldOrder: Option<nat>, newOrder: Option<nat>)

  ghost predicate UniqueIds(tiles: Layout) {
    forall i, j :: 0 <= i < j < |tiles| ==> tiles[i].id != tiles[j].id
  }

  /** The position of the first tile with an id; the number of tiles if there is none. */
  function IndexOf(tiles: Layout, id: TileId): (i: nat)
    ensures i <= |tiles|
  {
    if tiles == [] || tiles[0].id == id then 0 else 1 + IndexOf(tiles[1..], id)
  }

  lemma {:induction false} IndexOfIsFirst(tiles: Layout, id: TileId)
    ensures var i := IndexOf(tiles, id);
            && (i < |tiles| ==> tiles[i].id == id)
            && forall j :: 0 <= j < i ==> tiles[j].id != id
  {
    if tiles != [] && tiles[0].id != id {
      IndexOfIsFirst(tiles[1..], id);
      assert forall j :: 0 < j < |tiles| ==> tiles[j] == tiles[1..][j - 1];
    }
  }

  function Remove(tiles: Layout, i: nat): Layout
    requires i < |tiles|
  {
    tiles[..i] + tiles[i + 1..]
  }

  function Insert(tiles: Layout, i: nat, tile: Tile): Layout
    requires i <= |tiles|
  {
    tiles[..i] + [tile] + tiles[i..]
  }

  predicate Fits(order: Option<nat>, count: nat) {
    order.Some? ==> order.value < count
  }

  /** Gives the tile with this id its bounds and its place, as far as they are known. */
  function Restore(tiles: Layout, id: TileId, bounds: Option<Bounds>, order: Option<nat>): (r: Layout)
    requires Fits(order, |tiles|)
    ensures |r| == |tiles|
  {
    var i := IndexOf(tiles, id);
    if i == |tiles| then tiles
    else
      var sized := if bounds.Some? then tiles[i := tiles[i].(bounds := bounds.value)] else tiles;
      if order.Some? then Insert(Remove(sized, i), order.value, sized[i]) else sized
  }

  /** The tile gets the bounds and stands at the place, as far as they are given; the others keep their order. */
  lemma RestoredTile(tiles: Layout, i: nat, bounds: Option<Bounds>, order: Option<nat>)
    requires UniqueIds(tiles) && i < |tiles| && (order.Some? ==> order.value < |tiles|)
    ensures var tile := Tile(tiles[i].id, if bounds.Some? then bounds.value else tiles[i].bounds);
            var others, place := tiles[..i] + tiles[i + 1..], if order.Some? then order.value else i;
            Restore(tiles, tiles[i].id, bounds, order) == others[..place] + [tile] + others[place..]
  {
    IndexOfIsFirst(tiles, tiles[i].id);
  }

  lemma RestoreKeepsUnique(tiles: Layout, id: TileId, bounds: Option<Bounds>, order: Option<nat>)
    requires Fits(order, |tiles|) && UniqueIds(tiles)
    ensures UniqueIds(Restore(tiles, id, bounds, order))
  {
    var i := IndexOf(tiles, id);
    if i < |tiles| {
      var sized := if bounds.Some? then tiles[i := tiles[i].(bounds := bounds.value)] else tiles;
      assert forall j :: 0 <= j < |tiles| ==> sized[j].id == tiles[j].id;
      if order.Some? {
        MoveKeepsUnique(sized, i, order.value);
      }
    }
  }

  /** Moving a tile to another place in the order does not duplicate an id. */
  lemma MoveKeepsUnique(tiles: Layout, i: nat, order: nat)
    requires i < |tiles| && order < |tiles|
    ensures UniqueIds(tiles) ==> UniqueIds(Insert(Remove(tiles, i), order, tiles[i]))
  {
    var after := Insert(Remove(tiles, i), order, tiles[i]);
    if UniqueIds(tiles) {
      forall a, b | 0 <= a < b < |after|
        ensures after[a].id != after[b].id
      {
        var skip := (k: int) => if k < i then k else k + 1;
        var at := (k: int) => if k < order then skip(k) else if k == order then i else skip(k - 1);
        assert after[a] == tiles[at(a)] && after[b] == tiles[at(b)];
      }
    }
  }

  predicate ChangeFits(c: TileChange, count: nat) {
    Fits(c.oldOrder, count) && Fits(c.newOrder, count)
  }

  function Undoes(tiles: Layout, c: TileChange): (r: Layout)
    requires ChangeFits(c, |tiles|)
    ensures |r| == |tiles|
  {
    Restore(tiles, c.id, c.oldBounds, c.oldOrder)
  }

  function Redoes(tiles: Layout, c: TileChange): (r: Layout)
    requires ChangeFits(c, |tiles|)
    ensures |r| == |tiles|
  {
    Restore(tiles, c.id, c.newBounds, c.newOrder)
  }

  ghost predicate AllFit(entries: seq<Entry<TileChange>>, count: nat) {
    forall i :: 0 <= i < |entries| ==> ChangeFits(entries[i].change, count)
  }

  function UndoesAll(tiles: Layout, changes: seq<Entry<TileChange>>): (r: Layout)
    requires AllFit(changes, |tiles|)
    ensures |r| == |tiles|
    decreases |changes|
  {
    if changes == [] then tiles
    else
      assert forall i :: 0 <= i < |changes| - 1 ==> changes[1..][i] == changes[i + 1];
      UndoesAll(Undoes(tiles, changes[0].change), changes[1..])
  }

  function RedoesAll(tiles: Layout, changes: seq<Entry<TileChange>>): (r: Layout)
    requires AllFit(changes, |tiles|)
    ensures |r| == |tiles|
    decreases |changes|
  {
    if changes == [] then tiles
    else
      assert forall i :: 0 <= i < |changes| - 1 ==> changes[1..][i] == changes[i + 1];
      RedoesAll(Redoes(tiles, changes[0].change), changes[1..])
  }

  lemma {:induction false} ReplayKeepsUnique(tiles: Layout, changes: seq<Entry<TileChange>>)
    requires AllFit(changes, |tiles|) && UniqueIds(tiles)
    ensures UniqueIds(UndoesAll(tiles, changes)) && UniqueIds(RedoesAll(tiles, changes))
    decreases |changes|
  {
    if changes != [] {
      var c := changes[0].change;
      assert forall i :: 0 <= i < |changes| - 1 ==> changes[1..][i] == changes[i + 1];
      RestoreKeepsUnique(tiles, c.id, c.oldBounds, c.oldOrder);
      RestoreKeepsUnique(tiles, c.id, c.newBounds, c.newOrder);
      ReplayKeepsUnique(Undoes(tiles, c), changes[1..]);
      ReplayKeepsUnique(Redoes(tiles, c), changes[1..]);
    }
  }

  // ------------------------------------------------------------------------------------------
  // Documents: a layout and its history
  // ------------------------------------------------------------------------------------------

  datatype Edit =
    | BringToFront(id: TileId)
    | ChangeBounds(id: TileId, bounds: Bounds)

  datatype Op = Change(edit: Edit, advance: bool) | Undo | Redo

  datatype Doc = Doc(tiles: Layout, log: Log<TileChange>) {
    ghost predicate Valid() {
      && UniqueIds(tiles)
      && AllFit(log.undos, |tiles|) && AllFit(log.redos, |tiles|)
    }
  }

  /** The layout after an edit and the change it records; no change for an unknown tile or for bounds
      the tile already has. */
  function Edited(tiles: Layout, edit: Edit): (r: (Layout, Option<TileChange>)) {
    var i := IndexOf(tiles, edit.id);
    if i == |tiles| then (tiles, None)
    else
      match edit
      case BringToFront(id) =>
        (Remove(tiles, i) + [tiles[i]], Some(TileChange(id, None, None, Some(i), Some(|tiles| - 1))))
      case ChangeBounds(id, bounds) =>
        if bounds == tiles[i].bounds then (tiles, None)
        else
          (tiles[i := tiles[i].(bounds := bounds)],
           Some(TileChange(id, Some(tiles[i].bounds), Some(bounds), None, None)))
  }

  function DoChange(doc: Doc, edit: Edit, advance: bool, maxUndos: nat): Doc
    requires maxUndos >= 1
  {
    var (tiles, change) := Edited(doc.tiles, edit);
    if change.None? then doc
    else Doc(tiles, Pushed(doc.log, Entry(change.value, 0), advance, maxUndos, false))
  }

  function DoUndo(doc: Doc): Doc
    requires doc.Valid()
  {
    var (log, changes) := Undone(doc.log);
    if changes.None? then doc
    else
      GroupFits(doc.log.undos, |doc.tiles|);
      Doc(UndoesAll(doc.tiles, changes.value), log)
  }

  function DoRedo(doc: Doc): Doc
    requires doc.Valid()
  {
    var (log, changes) := Redone(doc.log);
    if changes.None? then doc
    else
      GroupFits(doc.log.redos, |doc.tiles|);
      Doc(RedoesAll(doc.tiles, changes.value), log)
  }

  function Do(doc: Doc, op: Op, maxUndos: nat): Doc
    requires doc.Valid() && maxUndos >= 1
  {
    match op
    case Change(edit, advance) => DoChange(doc, edit, advance, maxUndos)
    case Undo => DoUndo(doc)
    case Redo => DoRedo(doc)
  }

  /** Whatever is done in whatever order, ids stay unique, no tile is lost, and recorded places exist. */
  lemma DoKeepsValid(doc: Doc, op: Op, maxUndos: nat)
    requires doc.Valid() && maxUndos >= 1
    ensures Do(doc, op, maxUndos).Valid() && |Do(doc, op, maxUndos).tiles| == |doc.tiles|
  {
    match op
    case Change(edit, advance) => EditIsReversible(doc.tiles, edit);
    case Undo =>
      if doc.log.undos != [] {
        GroupFits(doc.log.undos, |doc.tiles|);
        ReplayKeepsUnique(doc.tiles, TopGroup(doc.log.undos).1);
      }
    case Redo =>
      if doc.log.redos != [] {
        GroupFits(doc.log.redos, |doc.tiles|);
        ReplayKeepsUnique(doc.tiles, TopGroup(doc.log.redos).1);
      }
  }

  // What the edits do, in terms of tiles and stacks.

  /** The change was pushed: the oldest one goes if there was no room, and the redo stack stays. */
  predicate OnePushed(before: Log<TileChange>, c: TileChange, advance: bool, maxUndos: nat, after: Log<TileChange>) {
    && after.version == before.version + (if advance then 1 else 0)
    && after.redos == before.redos
    && after.undos == (if |before.undos| < maxUndos || before.undos == [] then before.undos else before.undos[1..])
                      + [Entry(c, after.version)]
  }

  /** A tile brought to the front becomes the last one, the others keep their order, and both places are recorded. */
  lemma RaisedTileIsLast(doc: Doc, i: nat, advance: bool, maxUndos: nat)
    requires doc.Valid() && maxUndos >= 1 && i < |doc.tiles|
    ensures var tile := doc.tiles[i];
            var after := Do(doc, Change(BringToFront(tile.id), advance), maxUndos);
            && after.tiles == doc.tiles[..i] + doc.tiles[i + 1..] + [tile]
            && OnePushed(doc.log, TileChange(tile.id, None, None, Some(i), Some(|doc.tiles| - 1)), advance, maxUndos,
                         after.log)
  {
    IndexOfIsFirst(doc.tiles, doc.tiles[i].id);
  }

  /** A tile that gets other bounds has them and no other tile changes; old and new bounds are recorded.  With the
      bounds it has, nothing happens. */
  lemma ResizedTileHasBounds(doc: Doc, i: nat, bounds: Bounds, advance: bool, maxUndos: nat)
    requires doc.Valid() && maxUndos >= 1 && i < |doc.tiles|
    ensures var tile := doc.tiles[i];
            var after := Do(doc, Change(ChangeBounds(tile.id, bounds), advance), maxUndos);
            && |after.tiles| == |doc.tiles| && after.tiles[i] == Tile(tile.id, bounds)
            && (forall j :: 0 <= j < |doc.tiles| && j != i ==> after.tiles[j] == doc.tiles[j])
            && if bounds == tile.bounds then after == doc
               else OnePushed(doc.log, TileChange(tile.id, Some(tile.bounds), Some(bounds), None, None), advance,
                              maxUndos, after.log)
  {
    IndexOfIsFirst(doc.tiles, doc.tiles[i].id);
  }

  /** Edits of tiles that are gone change nothing. */
  lemma UnknownTileChangesNothing(doc: Doc, edit: Edit, advance: bool, maxUndos: nat)
    requires doc.Valid() && maxUndos >= 1 && forall j :: 0 <= j < |doc.tiles| ==> doc.tiles[j].id != edit.id
    ensures Do(doc, Change(edit, advance), maxUndos) == doc
  {
    IndexOfIsFirst(doc.tiles, edit.id);
  }

  lemma GroupFits(stack: seq<Entry<TileChange>>, count: nat)
    requires stack != [] && AllFit(stack, count)
    ensures AllFit(TopGroup(stack).0, count) && AllFit(TopGroup(stack).1, count)
  {
    TopGroupSplits(stack);
    var (rest, changes) := TopGroup(stack);
    forall i | 0 <= i < |changes|
      ensures ChangeFits(changes[i].change, count)
    {
      assert stack[|stack| - 1 - i] == Reversed(changes)[|changes| - 1 - i] == changes[i];
    }
    assert forall i :: 0 <= i < |rest| ==> rest[i] == stack[i];
  }

  // ------------------------------------------------------------------------------------------
  // One change back and forth
  // ------------------------------------------------------------------------------------------

  lemma IndexIsUnique(tiles: Layout, i: nat)
    requires UniqueIds(tiles) && i < |tiles|
    ensures IndexOf(tiles, tiles[i].id) == i
  {
    IndexOfIsFirst(tiles, tiles[i].id);
  }

  /** A tile moved to one place and then to another is where it was exactly if that is its old place. */
  lemma MovedBack(tiles: Layout, i: nat, there: nat, back: nat)
    requires UniqueIds(tiles) && i < |tiles| && there < |tiles| && back < |tiles|
    ensures var moved := Insert(Remove(tiles, i), there, tiles[i]);
            && IndexOf(moved, tiles[i].id) == there
            && (Insert(Remove(moved, there), back, moved[there]) == tiles <==> back == i)
  {
    var rest, tile := Remove(tiles, i), tiles[i];
    var moved := Insert(rest, there, tile);
    MoveKeepsUnique(tiles, i, there);
    IndexIsUnique(moved, there);
    assert Remove(moved, there) == rest;
    var again := Insert(rest, back, tile);
    assert again[back] == tile;
    if back == i {
      assert again == tiles;
    } else {
      assert tiles[back].id != tile.id;
    }
  }

  lemma BringToFrontIsReversible(tiles: Layout, i: nat)
    requires UniqueIds(tiles) && i < |tiles|
    ensures var after := Remove(tiles, i) + [tiles[i]];
            var c := TileChange(tiles[i].id, None, None, Some(i), Some(|tiles| - 1));
            UniqueIds(after) && |after| == |tiles| && Redoes(tiles, c) == after && Undoes(after, c) == tiles
  {
    hide UniqueIds;
    var last := |tiles| - 1;
    assert Remove(tiles, i) + [tiles[i]] == Insert(Remove(tiles, i), last, tiles[i]);
    IndexIsUnique(tiles, i);
    MoveKeepsUnique(tiles, i, last);
    MovedBack(tiles, i, last, i);
  }

  lemma ChangeBoundsIsReversible(tiles: Layout, i: nat, bounds: Bounds)
    requires UniqueIds(tiles) && i < |tiles|
    ensures var after := tiles[i := tiles[i].(bounds := bounds)];
            var c := TileChange(tiles[i].id, Some(tiles[i].bounds), Some(bounds), None, None);
            UniqueIds(after) && Redoes(tiles, c) == after && Undoes(after, c) == tiles
  {
    var after := tiles[i := tiles[i].(bounds := bounds)];
    assert forall j :: 0 <= j < |tiles| ==> after[j].id == tiles[j].id;
    IndexIsUnique(tiles, i);
    IndexIsUnique(after, i);
    assert after[i := tiles[i]] == tiles;
  }

  /** The recorded change leads from the old layout to the new one and back. */
  lemma EditIsReversible(tiles: Layout, edit: Edit)
    requires UniqueIds(tiles)
    ensures var (after, change) := Edited(tiles, edit);
            && UniqueIds(after) && |after| == |tiles|
            && (change.None? ==> after == tiles)
            && (change.Some? ==>
                  && ChangeFits(change.value, |tiles|)
                  && Redoes(tiles, change.value) == after
                  && Undoes(after, change.value) == tiles)
  {
    hide UniqueIds, Undoes, Redoes, Remove, IndexOf;
    var i := IndexOf(tiles, edit.id);
    IndexOfIsFirst(tiles, edit.id);
    if i < |tiles| {
      BringToFrontIsReversible(tiles, i);
      match edit
      case BringToFront(_) =>
      case ChangeBounds(_, bounds) => ChangeBoundsIsReversible(tiles, i, bounds);
    }
  }

  // ------------------------------------------------------------------------------------------
  // Timelines
  // ------------------------------------------------------------------------------------------

  /** A row of changes and the layouts before, between and after them. */
  ghost predicate Timeline(es: seq<Entry<TileChange>>, ls: seq<Layout>) {
    && |ls| == |es| + 1
    && (forall i :: 0 <= i < |ls| ==> UniqueIds(ls[i]) && |ls[i]| == |ls[0]|)
    && AllFit(es, |ls[0]|)
    && (forall i :: 0 <= i < |es| ==> Redoes(ls[i], es[i].change) == ls[i + 1])
    && (forall i :: 0 <= i < |es| ==> Undoes(ls[i + 1], es[i].change) == ls[i])
    && (forall i, j :: 0 <= i < j < |es| ==> es[i].version <= es[j].version)
  }

  /** Between two changes of different versions, or at an end. */
  predicate Boundary(es: seq<Entry<TileChange>>, p: nat)
    requires p <= |es|
  {
    p == 0 || p == |es| || es[p - 1].version != es[p].version
  }

  /** The document is at position p of the timeline: the changes before it can be undone, those after
      it can be redone, and its layout is the one in between. */
  ghost predicate At(doc: Doc, es: seq<Entry<TileChange>>, ls: seq<Layout>, p: nat) {
    && Timeline(es, ls) && p <= |es| && Boundary(es, p)
    && doc.tiles == ls[p]
    && doc.log.undos == es[..p] && doc.log.redos == Reversed(es[p..])
    && (forall i :: 0 <= i < |es| ==> es[i].version <= doc.log.version)
  }

  lemma AtIsValid(doc: Doc, es: seq<Entry<TileChange>>, ls: seq<Layout>, p: nat)
    requires At(doc, es, ls, p)
    ensures doc.Valid()
  {
    forall i | 0 <= i < |doc.log.redos|
      ensures ChangeFits(doc.log.redos[i].change, |doc.tiles|)
    {
      assert doc.log.redos[i] == es[|es| - 1 - i];
    }
  }

  /** The previous and the next boundary. */
  function Back(es: seq<Entry<TileChange>>, p: nat): (q: nat)
    requires p <= |es|
    ensures q <= p && (p > 0 ==> q < p)
  {
    if p == 0 then 0
    else if p == 1 || es[p - 2].version != es[p - 1].version then p - 1
    else Back(es, p - 1)
  }

  function Forward(es: seq<Entry<TileChange>>, p: nat): (q: nat)
    requires p <= |es|
    ensures p <= q <= |es| && (p < |es| ==> p < q)
    decreases |es| - p
  {
    if p == |es| then p
    else if p + 1 == |es| || es[p + 1].version != es[p].version then p + 1
    else Forward(es, p + 1)
  }

  lemma {:induction false} BackRun(es: seq<Entry<TileChange>>, p: nat)
    requires 0 < p <= |es|
    ensures var q := Back(es, p);
            && Boundary(es, q)
            && (forall i :: q <= i < p ==> es[i].version == es[p - 1].version)
            && (q > 0 ==> es[q - 1].version != es[p - 1].version)
  {
    if p > 1 && es[p - 2].version == es[p - 1].version {
      BackRun(es, p - 1);
    }
  }

  lemma {:induction false} ForwardRun(es: seq<Entry<TileChange>>, p: nat)
    requires p < |es|
    ensures var q := Forward(es, p);
            && Boundary(es, q)
            && (forall i :: p <= i < q ==> es[i].version == es[p].version)
            && (q < |es| ==> es[q].version != es[p].version)
    decreases |es| - p
  {
    if p + 1 < |es| && es[p + 1].version == es[p].version {
      ForwardRun(es, p + 1);
    }
  }

  lemma UndoesFirst(tiles: Layout, e: Entry<TileChange>, rest: seq<Entry<TileChange>>)
    requires ChangeFits(e.change, |tiles|) && AllFit(rest, |tiles|)
    ensures AllFit([e] + rest, |tiles|)
    ensures UndoesAll(tiles, [e] + rest) == UndoesAll(Undoes(tiles, e.change), rest)
  {
    assert ([e] + rest)[1..] == rest;
  }

  lemma {:induction false} UndoWalksBack(es: seq<Entry<TileChange>>, ls: seq<Layout>, q: nat, p: nat)
    requires Timeline(es, ls) && q <= p <= |es|
    ensures AllFit(Reversed(es[q..p]), |ls[p]|)
    ensures UndoesAll(ls[p], Reversed(es[q..p])) == ls[q]
    decreases p - q
  {
    if q < p {
      var e, rest := es[p - 1], Reversed(es[q..p - 1]);
      UndoWalksBack(es, ls, q, p - 1);
      ReversedSlice(es, q, p);
      UndoesFirst(ls[p], e, rest);
    }
  }

  lemma {:induction false} RedoWalksForward(es: seq<Entry<TileChange>>, ls: seq<Layout>, p: nat, q: nat)
    requires Timeline(es, ls) && p <= q <= |es|
    ensures AllFit(es[p..q], |ls[p]|)
    ensures RedoesAll(ls[p], es[p..q]) == ls[q]
    decreases q - p
  {
    if p < q {
      RedoWalksForward(es, ls, p + 1, q);
      assert es[p..q][1..] == es[p + 1..q];
    }
  }

  lemma UndoGroup(es: seq<Entry<TileChange>>, ls: seq<Layout>, p: nat)
    requires Timeline(es, ls) && 0 < p <= |es|
    ensures var q := Back(es, p); TopGroup(es[..p]) == (es[..q], Reversed(es[q..p]))
  {
    var q := Back(es, p);
    BackRun(es, p);
    var stack := es[..p];
    forall i | 0 <= i < q
      ensures stack[i].version != stack[q].version
    {
      assert es[i].version <= es[q - 1].version < es[q].version;
    }
    TopGroupIs(stack, q);
    assert stack[..q] == es[..q] && stack[q..] == es[q..p];
  }

  lemma RedoGroup(es: seq<Entry<TileChange>>, ls: seq<Layout>, p: nat)
    requires Timeline(es, ls) && p < |es|
    ensures var q := Forward(es, p); TopGroup(Reversed(es[p..])) == (Reversed(es[q..]), es[p..q])
  {
    var q := Forward(es, p);
    ForwardRun(es, p);
    var stack := Reversed(es[p..]);
    var n := |es| - q;
    assert forall i :: 0 <= i < |stack| ==> stack[i] == es[|es| - 1 - i];
    forall i | 0 <= i < n
      ensures stack[i].version != stack[n].version
    {
      assert es[q - 1].version < es[q].version <= es[|es| - 1 - i].version;
    }
    TopGroupIs(stack, n);
    ReversedSlices(es, p, q);
    ReversedTwice(es[p..q]);
  }

  /** Undo goes to the previous boundary of the same timeline. */
  lemma UndoGoesBack(doc: Doc, es: seq<Entry<TileChange>>, ls: seq<Layout>, p: nat, maxUndos: nat)
    requires At(doc, es, ls, p) && maxUndos >= 1
    ensures doc.Valid() && At(Do(doc, Undo, maxUndos), es, ls, Back(es, p))
    ensures Do(doc, Undo, maxUndos).log.version == doc.log.version
  {
    AtIsValid(doc, es, ls, p);
    if p > 0 {
      var q := Back(es, p);
      BackRun(es, p);
      UndoGroup(es, ls, p);
      UndoWalksBack(es, ls, q, p);
      ReversedSlices(es, q, p);
    }
  }

  /** Redo goes to the next boundary of the same timeline. */
  lemma RedoGoesForward(doc: Doc, es: seq<Entry<TileChange>>, ls: seq<Layout>, p: nat, maxUndos: nat)
    requires At(doc, es, ls, p) && maxUndos >= 1
    ensures doc.Valid() && At(Do(doc, Redo, maxUndos), es, ls, Forward(es, p))
    ensures Do(doc, Redo, maxUndos).log.version == doc.log.version
  {
    AtIsValid(doc, es, ls, p);
    if p < |es| {
      var q := Forward(es, p);
      ForwardRun(es, p);
      RedoGroup(es, ls, p);
      RedoWalksForward(es, ls, p, q);
      assert es[..p] + es[p..q] == es[..q];
    }
  }

  lemma TimelineGrows(es: seq<Entry<TileChange>>, ls: seq<Layout>, e: Entry<TileChange>, after: Layout)
    requires Timeline(es, ls)
    requires UniqueIds(after) && |after| == |ls[0]| && ChangeFits(e.change, |after|)
    requires Redoes(ls[|es|], e.change) == after && Undoes(after, e.change) == ls[|es|]
    requires forall i :: 0 <= i < |es| ==> es[i].version <= e.version
    ensures Timeline(es + [e], ls + [after])
  {
  }

  lemma TimelineForgets(es: seq<Entry<TileChange>>, ls: seq<Layout>)
    requires Timeline(es, ls) && es != []
    ensures Timeline(es[1..], ls[1..])
  {
    forall i | 0 <= i < |es| - 1
      ensures Redoes(ls[1..][i], es[1..][i].change) == ls[1..][i + 1]
      ensures Undoes(ls[1..][i + 1], es[1..][i].change) == ls[1..][i]
    {
      assert Redoes(ls[i + 1], es[i + 1].change) == ls[i + 2];
      assert Undoes(ls[i + 2], es[i + 1].change) == ls[i + 1];
    }
  }

  /** A change made at the end of a timeline extends it; the oldest change goes when there is no room. */
  lemma ChangeExtends(doc: Doc, es: seq<Entry<TileChange>>, ls: seq<Layout>, edit: Edit, advance: bool, maxUndos: nat)
    requires At(doc, es, ls, |es|) && maxUndos >= 1 && |es| <= maxUndos
    requires Edited(doc.tiles, edit).1.Some?
    ensures doc.Valid()
    ensures var after := Do(doc, Change(edit, advance), maxUndos);
            var n := if |es| == maxUndos then 1 else 0;
            && |after.log.undos| == |es| - n + 1
            && At(after, after.log.undos, (ls + [after.tiles])[n..], |after.log.undos|)
  {
    hide Undoes, Redoes, IndexOf, UniqueIds;
    AtIsValid(doc, es, ls, |es|);
    EditIsReversible(doc.tiles, edit);
    AtTheEnd(doc, es, ls);
    ChangeResult(doc, edit, advance, maxUndos);
    var version := if advance then doc.log.version + 1 else doc.log.version;
    var e := Entry(Edited(doc.tiles, edit).1.value, version);
    var tiles := Edited(doc.tiles, edit).0;
    if |es| == maxUndos {
      TimelineForgets(es, ls);
      AtGrows(es[1..], ls[1..], e, tiles);
      assert (ls + [tiles])[1..] == ls[1..] + [tiles];
    } else {
      AtGrows(es, ls, e, tiles);
      assert (ls + [tiles])[0..] == ls + [tiles];
    }
  }

  lemma ChangeResult(doc: Doc, edit: Edit, advance: bool, maxUndos: nat)
    requires doc.Valid() && maxUndos >= 1 && Edited(doc.tiles, edit).1.Some?
    ensures var version := if advance then doc.log.version + 1 else doc.log.version;
            var e := Entry(Edited(doc.tiles, edit).1.value, version);
            var kept := if |doc.log.undos| >= maxUndos then doc.log.undos[1..] else doc.log.undos;
            Do(doc, Change(edit, advance), maxUndos)
            == Doc(Edited(doc.tiles, edit).0, Log(kept + [e], doc.log.redos, version))
  {
  }

  lemma AtTheEnd(doc: Doc, es: seq<Entry<TileChange>>, ls: seq<Layout>)
    requires At(doc, es, ls, |es|)
    ensures doc.log.undos == es && doc.log.redos == []
  {
  }

  lemma AtGrows(es: seq<Entry<TileChange>>, ls: seq<Layout>, e: Entry<TileChange>, after: Layout)
    requires Timeline(es, ls)
    requires UniqueIds(after) && |after| == |ls[0]| && ChangeFits(e.change, |after|)
    requires Redoes(ls[|es|], e.change) == after && Undoes(after, e.change) == ls[|es|]
    requires forall i :: 0 <= i < |es| ==> es[i].version <= e.version
    ensures At(Doc(after, Log(es + [e], [], e.version)), es + [e], ls + [after], |es| + 1)
  {
    TimelineGrows(es, ls, e, after);
    var more := es + [e];
    assert more[..|more|] == more && Reversed(more[|more|..]) == [];
  }

  // ------------------------------------------------------------------------------------------
  // Whole histories
  // ------------------------------------------------------------------------------------------

  function Run(doc: Doc, ops: seq<Op>, maxUndos: nat): (r: Doc)
    requires doc.Valid() && maxUndos >= 1
    ensures r.Valid()
    decreases |ops|
  {
    if ops == [] then doc
    else
      DoKeepsValid(doc, ops[0], maxUndos);
      Run(Do(doc, ops[0], maxUndos), ops[1..], maxUndos)
  }

  /** No change is made while something can be redone. */
  ghost predicate Orderly(doc: Doc, ops: seq<Op>, maxUndos: nat)
    requires doc.Valid() && maxUndos >= 1
    decreases |ops|
  {
    if ops == [] then true
    else
      DoKeepsValid(doc, ops[0], maxUndos);
      && (ops[0].Change? ==> doc.log.redos == [])
      && Orderly(Do(doc, ops[0], maxUndos), ops[1..], maxUndos)
  }

  /** The layouts right after each change that was recorded. */
  ghost function Recorded(doc: Doc, ops: seq<Op>, maxUndos: nat): seq<Layout>
    requires doc.Valid() && maxUndos >= 1
    decreases |ops|
  {
    if ops == [] then []
    else
      DoKeepsValid(doc, ops[0], maxUndos);
      var next := Do(doc, ops[0], maxUndos);
      var rest := Recorded(next, ops[1..], maxUndos);
      if ops[0].Change? && Edited(doc.tiles, ops[0].edit).1.Some? then [next.tiles] + rest else rest
  }

  function Last<T>(s: seq<T>, n: nat): (r: seq<T>)
    ensures |r| <= n
  {
    if |s| <= n then s else s[|s| - n..]
  }

  lemma RecordedTiles(doc: Doc, op: Op, maxUndos: nat)
    requires doc.Valid() && maxUndos >= 1 && op.Change? && Edited(doc.tiles, op.edit).1.Some?
    ensures Do(doc, op, maxUndos).tiles == Edited(doc.tiles, op.edit).0
  {
  }

  function Times(op: Op, k: nat): (ops: seq<Op>)
    ensures |ops| == k
  {
    if k == 0 then [] else [op] + Times(op, k - 1)
  }

  /** Undo and redo only move a cursor along the boundaries of a timeline. */
  function Walk(es: seq<Entry<TileChange>>, p: nat, moves: seq<Op>): (q: nat)
    requires p <= |es|
    ensures q <= |es|
    decreases |moves|
  {
    if moves == [] then p
    else
      var q := match moves[0] { case Undo => Back(es, p) case Redo => Forward(es, p) case Change(_, _) => p };
      Walk(es, q, moves[1..])
  }

  /** Any sequence of undos and redos, in any order and however long, shows the layout under the cursor. */
  lemma {:induction false} MovesAreACursor(
    doc: Doc, es: seq<Entry<TileChange>>, ls: seq<Layout>, p: nat, moves: seq<Op>, maxUndos: nat)
    requires At(doc, es, ls, p) && maxUndos >= 1
    requires forall i :: 0 <= i < |moves| ==> !moves[i].Change?
    ensures doc.Valid() && At(Run(doc, moves, maxUndos), es, ls, Walk(es, p, moves))
    ensures Run(doc, moves, maxUndos).log.version == doc.log.version
    decreases |moves|
  {
    AtIsValid(doc, es, ls, p);
    if moves != [] {
      var rest := moves[1..];
      assert forall i :: 0 <= i < |rest| ==> rest[i] == moves[i + 1];
      DoKeepsValid(doc, moves[0], maxUndos);
      if moves[0].Undo? {
        UndoGoesBack(doc, es, ls, p, maxUndos);
        MovesAreACursor(Do(doc, moves[0], maxUndos), es, ls, Back(es, p), rest, maxUndos);
      } else {
        RedoGoesForward(doc, es, ls, p, maxUndos);
        MovesAreACursor(Do(doc, moves[0], maxUndos), es, ls, Forward(es, p), rest, maxUndos);
      }
    }
  }

  function BackBy(es: seq<Entry<TileChange>>, p: nat, k: nat): (q: nat)
    requires p <= |es|
    ensures q <= p && (k >= p ==> q == 0)
    decreases k
  {
    if k == 0 then p else BackBy(es, Back(es, p), k - 1)
  }

  function ForwardBy(es: seq<Entry<TileChange>>, p: nat, k: nat): (q: nat)
    requires p <= |es|
    ensures p <= q <= |es|
    decreases k
  {
    if k == 0 then p else ForwardBy(es, Forward(es, p), k - 1)
  }

  lemma {:induction false} WalkTimes(es: seq<Entry<TileChange>>, p: nat, k: nat)
    requires p <= |es|
    ensures Walk(es, p, Times(Undo, k)) == BackBy(es, p, k)
    ensures Walk(es, p, Times(Redo, k)) == ForwardBy(es, p, k)
    decreases k
  {
    if k > 0 {
      WalkTimes(es, Back(es, p), k - 1);
      WalkTimes(es, Forward(es, p), k - 1);
      assert Times(Undo, k)[1..] == Times(Undo, k - 1) && Times(Redo, k)[1..] == Times(Redo, k - 1);
    }
  }

  lemma {:induction false} TimesAreMoves(k: nat)
    ensures forall i :: 0 <= i < k ==> Times(Undo, k)[i] == Undo && Times(Redo, k)[i] == Redo
  {
    if k > 0 {
      TimesAreMoves(k - 1);
    }
  }

  lemma {:induction false} ForwardOnceMore(es: seq<Entry<TileChange>>, p: nat, k: nat)
    requires p <= |es|
    ensures ForwardBy(es, Forward(es, p), k) == Forward(es, ForwardBy(es, p, k))
    decreases k
  {
    if k > 0 {
      ForwardOnceMore(es, Forward(es, p), k - 1);
    }
  }

  lemma {:induction false} BackByOnceMore(es: seq<Entry<TileChange>>, p: nat, k: nat)
    requires p <= |es|
    ensures BackBy(es, Back(es, p), k) == Back(es, BackBy(es, p, k))
    decreases k
  {
    if k > 0 {
      BackByOnceMore(es, Back(es, p), k - 1);
    }
  }

  lemma {:induction false} ForwardUndoesBack(es: seq<Entry<TileChange>>, k: nat)
    ensures ForwardBy(es, BackBy(es, |es|, k), k) == |es|
    decreases k
  {
    if k == 0 {
      assert BackBy(es, |es|, k) == |es|;
    } else {
      var x := BackBy(es, |es|, k - 1);
      BackByOnceMore(es, |es|, k - 1);
      assert BackBy(es, |es|, k) == Back(es, x);
      assert ForwardBy(es, Back(es, x), k) == ForwardBy(es, Forward(es, Back(es, x)), k - 1);
      ForwardUndoesBack(es, k - 1);
      if x == 0 {
        ForwardOnceMore(es, 0, k - 1);
      } else {
        BackByBoundary(es, |es|, k - 1);
        NextOfPrevious(es, x);
      }
    }
  }

  lemma {:induction false} BackByBoundary(es: seq<Entry<TileChange>>, p: nat, k: nat)
    requires p <= |es| && Boundary(es, p)
    ensures Boundary(es, BackBy(es, p, k))
    decreases k
  {
    if k > 0 {
      if p > 0 {
        BackRun(es, p);
      }
      BackByBoundary(es, Back(es, p), k - 1);
    }
  }

  lemma NextOfPrevious(es: seq<Entry<TileChange>>, p: nat)
    requires 0 < p <= |es| && Boundary(es, p)
    ensures Forward(es, Back(es, p)) == p
  {
    BackRun(es, p);
    ForwardRun(es, Back(es, p));
  }

  /** Undoing any number of groups restores the layout of that boundary, and redoing as many restores
      everything: the layout, both stacks and the version. */
  lemma UndoRedoRoundTrip(doc: Doc, es: seq<Entry<TileChange>>, ls: seq<Layout>, k: nat, maxUndos: nat)
    requires At(doc, es, ls, |es|) && maxUndos >= 1
    ensures doc.Valid()
    ensures var undone := Run(doc, Times(Undo, k), maxUndos);
            && undone.tiles == ls[BackBy(es, |es|, k)]
            && Run(undone, Times(Redo, k), maxUndos) == doc
  {
    hide Run, Timeline;
    TimesAreMoves(k);
    WalkTimes(es, |es|, k);
    WalkTimes(es, BackBy(es, |es|, k), k);
    ForwardUndoesBack(es, k);
    MovesAreACursor(doc, es, ls, |es|, Times(Undo, k), maxUndos);
    MovesAreACursor(Run(doc, Times(Undo, k), maxUndos), es, ls, BackBy(es, |es|, k), Times(Redo, k), maxUndos);
    AtDetermines(doc, Run(Run(doc, Times(Undo, k), maxUndos), Times(Redo, k), maxUndos), es, ls, |es|);
  }

  lemma AtDetermines(a: Doc, b: Doc, es: seq<Entry<TileChange>>, ls: seq<Layout>, p: nat)
    requires At(a, es, ls, p) && At(b, es, ls, p) && a.log.version == b.log.version
    ensures a == b
  {
  }

  /** A change made after an undo does not clear the redo stack, so a later redo applies a change to a
      layout it was not made on: here it overwrites the newer bounds, and undoing once more does not
      bring them back. */
  lemma RedoAfterChangeIsStale(b0: Bounds, b1: Bounds, b2: Bounds)
    requires b0 != b1 && b1 != b2 && b0 != b2
    ensures var doc := Doc([Tile(0, b0)], Log([], [], 0));
            var ops := [Change(ChangeBounds(0, b1), true), Undo, Change(ChangeBounds(0, b2), true)];
            var edited := Run(doc, ops, 1000);
            var redone := Do(edited, Redo, 1000);
            && !Orderly(doc, ops, 1000)
            && edited.tiles == [Tile(0, b2)] && redone.tiles == [Tile(0, b1)] && redone.Valid()
            && Do(redone, Undo, 1000).tiles == [Tile(0, b0)]
  {
    var first := Entry(TileChange(0, Some(b0), Some(b1), None, None), 1);
    var second := Entry(TileChange(0, Some(b0), Some(b2), None, None), 2);
    var ops := [Change(ChangeBounds(0, b1), true), Undo, Change(ChangeBounds(0, b2), true)];
    var d0, d1 := Doc([Tile(0, b0)], Log([], [], 0)), Doc([Tile(0, b1)], Log([first], [], 1));
    var d2, d3 := Doc([Tile(0, b0)], Log([], [first], 1)), Doc([Tile(0, b2)], Log([second], [first], 2));
    LoneChange(b0, b1, Log([], [], 0));
    LoneUndo(b0, b1, b1, [], first, Log([], [], 1));
    LoneChange(b0, b2, Log([], [first], 1));
    LoneRedo(b0, b1, b2, [second], first);
    LoneUndo(b0, b1, b1, [second], first, Log([], [], 2));
    assert [] + [first] == [first] && ops[1..][1..] == [ops[2]] && [ops[2]][1..] == [];
    assert Run(d3, [], 1000) == d3;
    assert Run(d2, [ops[2]], 1000) == d3;
    assert Run(d1, ops[1..], 1000) == Run(d2, [ops[2]], 1000);
    assert !Orderly(d2, [ops[2]], 1000);
    assert !Orderly(d1, ops[1..], 1000);
  }

  /** The layout still shows the values the change says it replaced. */
  predicate Current(tiles: Layout, c: TileChange) {
    var i := IndexOf(tiles, c.id);
    || i == |tiles|
    || ((c.oldBounds.Some? ==> tiles[i].bounds == c.oldBounds.value) && (c.oldOrder.Some? ==> i == c.oldOrder.value))
  }

  /** What the edits record: a change of bounds or a change of place. */
  predicate Recordable(c: TileChange) {
    || (c.oldBounds.Some? && c.newBounds.Some? && c.oldOrder.None? && c.newOrder.None?)
    || (c.oldBounds.None? && c.newBounds.None? && c.oldOrder.Some? && c.newOrder.Some?)
  }

  /** Undoing a change right after redoing it gives the layout back exactly if it was current when it was redone. */
  lemma RedoIsUndoneExactly(tiles: Layout, c: TileChange)
    requires UniqueIds(tiles) && ChangeFits(c, |tiles|) && Recordable(c)
    ensures Undoes(Redoes(tiles, c), c) == tiles <==> Current(tiles, c)
  {
    var i := IndexOf(tiles, c.id);
    IndexOfIsFirst(tiles, c.id);
    if i < |tiles| {
      if c.oldOrder.Some? {
        MovedBack(tiles, i, c.newOrder.value, c.oldOrder.value);
      } else {
        var sized := tiles[i := tiles[i].(bounds := c.newBounds.value)];
        assert forall j :: 0 <= j < |tiles| ==> sized[j].id == tiles[j].id;
        IndexIsUnique(sized, i);
        var back := sized[i := sized[i].(bounds := c.oldBounds.value)];
        assert back[i].bounds == c.oldBounds.value;
        assert tiles[i].bounds == c.oldBounds.value ==> back == tiles;
      }
    }
  }

  lemma LoneChange(b: Bounds, c: Bounds, log: Log<TileChange>)
    requires b != c && AllFit(log.undos, 1) && AllFit(log.redos, 1) && log.undos == []
    ensures Doc([Tile(0, b)], log).Valid()
    ensures Do(Doc([Tile(0, b)], log), Change(ChangeBounds(0, c), true), 1000)
         == Doc([Tile(0, c)], Log([Entry(TileChange(0, Some(b), Some(c), None, None), log.version + 1)],
                                  log.redos, log.version + 1))
  {
    assert [Tile(0, b)][0 := Tile(0, c)] == [Tile(0, c)];
  }

  lemma LoneUndo(
      b: Bounds, c: Bounds, now: Bounds, below: seq<Entry<TileChange>>, e: Entry<TileChange>, log: Log<TileChange>)
    requires AllFit(below, 1) && log.redos == []
    requires e.change == TileChange(0, Some(b), Some(c), None, None)
    requires forall i :: 0 <= i < |below| ==> below[i].version != e.version
    ensures Doc([Tile(0, now)], Log(below + [e], [], log.version)).Valid()
    ensures Do(Doc([Tile(0, now)], Log(below + [e], [], log.version)), Undo, 1000)
         == Doc([Tile(0, b)], Log(below, [e], log.version))
  {
    assert [Tile(0, now)][0 := Tile(0, b)] == [Tile(0, b)];
    SingleGroup(below, e);
    SingleStep([Tile(0, now)], e, [Tile(0, b)]);
    assert [] + [e] == [e];
  }

  lemma LoneRedo(b: Bounds, c: Bounds, now: Bounds, undos: seq<Entry<TileChange>>, e: Entry<TileChange>)
    requires AllFit(undos, 1)
    requires e.change == TileChange(0, Some(b), Some(c), None, None)
    ensures Doc([Tile(0, now)], Log(undos, [e], 2)).Valid()
    ensures Do(Doc([Tile(0, now)], Log(undos, [e], 2)), Redo, 1000)
         == Doc([Tile(0, c)], Log(undos + [e], [], 2))
  {
    assert [Tile(0, now)][0 := Tile(0, c)] == [Tile(0, c)];
    assert [Tile(0, now)][0 := Tile(0, b)] == [Tile(0, b)];
    SingleGroup([], e);
    assert [] + [e] == [e];
    SingleStep([Tile(0, now)], e, [Tile(0, b)]);
  }

  lemma SingleStep(tiles: Layout, e: Entry<TileChange>, before: Layout)
    requires ChangeFits(e.change, |tiles|) && Undoes(tiles, e.change) == before
    ensures AllFit([e], |tiles|) && UndoesAll(tiles, [e]) == before
    ensures RedoesAll(tiles, [e]) == Redoes(tiles, e.change)
  {
    assert UndoesAll(before, [e][1..]) == before;
  }

  lemma SingleGroup(below: seq<Entry<TileChange>>, e: Entry<TileChange>)
    requires forall i :: 0 <= i < |below| ==> below[i].version != e.version
    ensures TopGroup(below + [e]) == (below, [e])
  {
    var stack := below + [e];
    TopGroupIs(stack, |below|);
    assert stack[..|below|] == below && Reversed(stack[|below|..]) == [e];
  }

  // ------------------------------------------------------------------------------------------
  // The canvas
  // ------------------------------------------------------------------------------------------

  class Tiles {
    var panels: Layout
    const history: History<TileChange>

    ghost function AsDoc(): Doc
      reads this, history
    {
      Doc(panels, history.AsLog())
    }

    ghost predicate Valid()
      reads this, history
    {
      AsDoc().Valid() && history.maxUndos >= 1 && !history.unique && !history.ignore
    }

    constructor (panels: Layout)
      requires UniqueIds(panels)
      ensures Valid() && AsDoc() == Doc(panels, Log([], [], 0)) && fresh(history)
      ensures history.maxUndos == 1000 && !history.grouping
    {
      this.panels := panels;
      history := new History<TileChange>(1000, false);
    }

    /** Where the tile with an id is; the number of tiles if it is gone. */
    method Position(id: TileId) returns (i: nat)
      ensures i == IndexOf(panels, id)
    {
      i := 0;
      while i < |panels| && panels[i].id != id
        invariant i <= |panels| && i + IndexOf(panels[i..], id) == IndexOf(panels, id)
      {
        i := i + 1;
      }
    }

    /** Draws a tile last and records where it was. */
    method MoveToEnd(oldIx: nat, elapsed: bool) returns (id: TileId)
      requires oldIx < |panels| && history.maxUndos >= 1 && !history.unique
      modifies this, history
      ensures history.grouping == old(history.grouping) && history.ignore == old(history.ignore)
      ensures panels == Remove(old(panels), oldIx) + [old(panels)[oldIx]] && id == old(panels)[oldIx].id
      ensures history.AsLog() == Pushed(old(history.AsLog()),
                Entry(TileChange(id, None, None, Some(oldIx), Some(|panels| - 1)), 0),
                !history.grouping && elapsed, history.maxUndos, false)
    {
      var item := panels[oldIx];
      panels := panels[..oldIx] + panels[oldIx + 1..];
      panels := panels + [item];
      var newIx := |panels| - 1;
      id := panels[newIx].id;
      history.Push(Entry(TileChange(id, None, None, Some(oldIx), Some(newIx)), 0), elapsed);
    }

    method BringToFront(target: Option<TileId>, elapsed: bool) returns (moved: Option<TileId>)
      requires Valid()
      modifies this, history
      ensures Valid() && history.grouping == old(history.grouping)
      ensures target.None? ==> AsDoc() == old(AsDoc()) && moved == None
      ensures target.Some? ==>
                && AsDoc() == DoChange(old(AsDoc()), Edit.BringToFront(target.value),
                                       !history.grouping && elapsed, history.maxUndos)
                && moved == (if IndexOf(old(panels), target.value) < |old(panels)| then target else None)
    {
      if target.None? {
        return None;
      }
      var oldIx := Position(target.value);
      if oldIx == |panels| {
        return None;
      }
      IndexOfIsFirst(panels, target.value);
      DoKeepsValid(AsDoc(), Change(Edit.BringToFront(target.value), !history.grouping && elapsed), history.maxUndos);
      var newId := MoveToEnd(oldIx, elapsed);
      return Some(newId);
    }

    /** Gives the dragged or resized tile its new bounds and records the old ones. */
    method ChangeBounds(target: Option<TileId>, bounds: Bounds, elapsed: bool)
      requires Valid()
      modifies this, history
      ensures Valid() && history.grouping == old(history.grouping)
      ensures target.None? ==> AsDoc() == old(AsDoc())
      ensures target.Some? ==>
                AsDoc() == DoChange(old(AsDoc()), Edit.ChangeBounds(target.value, bounds),
                                    !history.grouping && elapsed, history.maxUndos)
    {
      if target.None? {
        return;
      }
      var ix := Position(target.value);
      if ix == |panels| {
        return;
      }
      IndexOfIsFirst(panels, target.value);
      var change := Change(Edit.ChangeBounds(target.value, bounds), !history.grouping && elapsed);
      DoKeepsValid(AsDoc(), change, history.maxUndos);
      var previous := panels[ix].bounds;
      if bounds != previous {
        panels := panels[ix := panels[ix].(bounds := bounds)];
        if !history.ignore {
          history.Push(Entry(TileChange(panels[ix].id, Some(previous), Some(bounds), None, None), 0), elapsed);
        }
      }
    }

    /** Puts one tile back where a change says it was. */
    method RestoreTile(id: TileId, bounds: Option<Bounds>, order: Option<nat>)
      requires Fits(order, |panels|)
      modifies this`panels
      ensures panels == Restore(old(panels), id, bounds, order)
    {
      var index := Position(id);
      if index < |panels| {
        if bounds.Some? {
          panels := panels[index := panels[index].(bounds := bounds.value)];
        }
        if order.Some? {
          var item := panels[index];
          panels := panels[..index] + panels[index + 1..];
          panels := panels[..order.value] + [item] + panels[order.value..];
        }
      }
    }

    method Undo()
      requires Valid()
      modifies this, history
      ensures Valid() && AsDoc() == DoUndo(old(AsDoc()))
    {
      ghost var before := AsDoc();
      ghost var after := DoUndo(before);
      DoKeepsValid(before, Op.Undo, history.maxUndos);
      history.ignore := true;
      var changes := history.Undo();
      if changes.Some? {
        GroupFits(before.log.undos, |panels|);
        var i := 0;
        while i < |changes.value|
          invariant i <= |changes.value| && AllFit(changes.value[i..], |panels|) && |panels| == |before.tiles|
          invariant history.AsLog() == after.log
          invariant UndoesAll(panels, changes.value[i..]) == UndoesAll(before.tiles, changes.value)
        {
          var change := changes.value[i].change;
          assert changes.value[i..][1..] == changes.value[i + 1..];
          assert changes.value[i..][0].change == change;
          RestoreTile(change.id, change.oldBounds, change.oldOrder);
          i := i + 1;
        }
      }
      history.ignore := false;
    }

    method Redo()
      requires Valid()
      modifies this, history
      ensures Valid() && AsDoc() == DoRedo(old(AsDoc()))
    {
      ghost var before := AsDoc();
      ghost var after := DoRedo(before);
      DoKeepsValid(before, Op.Redo, history.maxUndos);
      history.ignore := true;
      var changes := history.Redo();
      if changes.Some? {
        GroupFits(before.log.redos, |panels|);
        var i := 0;
        while i < |changes.value|
          invariant i <= |changes.value| && AllFit(changes.value[i..], |panels|) && |panels| == |before.tiles|
          invariant history.AsLog() == after.log
          invariant RedoesAll(panels, changes.value[i..]) == RedoesAll(before.tiles, changes.value)
        {
          var change := changes.value[i].change;
          assert changes.value[i..][1..] == changes.value[i + 1..];
          assert changes.value[i..][0].change == change;
          RestoreTile(change.id, change.newBounds, change.newOrder);
          i := i + 1;
        }
      }
      history.ignore := false;
    }
  }
}
