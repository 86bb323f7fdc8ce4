/** Redoing a group of changes on a layout it was not recorded on, and undoing it again.

    A drag records many changes in one group.  Replayed on another layout, the group puts the touched tiles where it
    put them when it was recorded; taking it back leads to the layout it was replayed on exactly if every change finds
    the values it replaced. */
module GroupRedos {
  import opened History
  import opened StaleRedos
  import opened Tiles
  import opened Wrappers

  function Ids(tiles: Layout): set<TileId> {
    set tile | tile in tiles :: tile.id
  }

  ghost predicate SameIds(a: Layout, b: Layout) {
    |a| == |b| && Ids(a) == Ids(b)
  }

  /** The change is the one recorded when an edit led from one layout to the next. */
  ghost predicate RecordedOn(before: Layout, c: TileChange, after: Layout) {
    exists edit :: Edited(before, edit) == (after, Some(c))
  }

  /** The group was recorded, change by change, on these layouts. */
  ghost predicate RecordedGroup(ls: seq<Layout>, es: seq<Entry<TileChange>>) {
    && |ls| == |es| + 1
    && (forall i :: 0 <= i < |ls| ==> UniqueIds(ls[i]))
    && forall i :: 0 <= i < |es| ==> RecordedOn(ls[i], es[i].change, ls[i + 1])
  }

  // ------------------------------------------------------------------------------------------
  // Layouts that agree on what a group has touched
  // ------------------------------------------------------------------------------------------

  /** The last k tiles are the same ones in the same order. */
  ghost predicate SharesLast(a: Layout, b: Layout, k: nat) {
    |a| == |b| && k <= |a| && forall i :: |a| - k <= i < |a| ==> a[i].id == b[i].id
  }

  /** The tiles with these ids have the same bounds. */
  ghost predicate SharesBounds(a: Layout, b: Layout, ids: set<TileId>) {
    forall x, y :: x in a && y in b && x.id == y.id && x.id in ids ==> x.bounds == y.bounds
  }

  ghost predicate Alike(a: Layout, b: Layout, k: nat, ids: set<TileId>) {
    UniqueIds(a) && UniqueIds(b) && SameIds(a, b) && SharesLast(a, b, k) && SharesBounds(a, b, ids)
  }

  /** How many tiles are certainly the last ones after the change. */
  function Settled(before: Layout, c: TileChange, k: nat): nat {
    if c.newOrder.None? || IndexOf(before, c.id) + k >= |before| then k else k + 1
  }

  function Sized(c: TileChange, ids: set<TileId>): set<TileId> {
    if c.newBounds.Some? then ids + {c.id} else ids
  }

  // Finding tiles.

  lemma IndexIs(tiles: Layout, i: nat, id: TileId)
    requires UniqueIds(tiles) && i < |tiles| && tiles[i].id == id
    ensures IndexOf(tiles, id) == i
  {
    IndexOfIsFirst(tiles, id);
  }

  lemma HasIff(tiles: Layout, id: TileId)
    ensures id in Ids(tiles) <==> IndexOf(tiles, id) < |tiles|
    ensures id in Ids(tiles) ==> tiles[IndexOf(tiles, id)].id == id && tiles[IndexOf(tiles, id)] in tiles
  {
    IndexOfIsFirst(tiles, id);
    hide IndexOf;
    var i := IndexOf(tiles, id);
    if i < |tiles| {
      assert tiles[i] in tiles;
    }
  }

  /** New bounds for one tile. */
  lemma ResizedTiles(tiles: Layout, i: nat, bounds: Bounds)
    requires UniqueIds(tiles) && i < |tiles|
    ensures var after := tiles[i := tiles[i].(bounds := bounds)];
            && UniqueIds(after) && SameIds(after, tiles)
            && (forall x :: x in after ==> x == after[i] || (x in tiles && x.id != tiles[i].id))
  {
    var after := tiles[i := tiles[i].(bounds := bounds)];
    assert forall j :: 0 <= j < |tiles| ==> after[j].id == tiles[j].id;
    forall id ensures id in Ids(after) <==> id in Ids(tiles) {
      if x :| x in after && x.id == id {
        var j :| 0 <= j < |after| && after[j] == x;
        assert tiles[j] in tiles;
      }
      if x :| x in tiles && x.id == id {
        var j :| 0 <= j < |tiles| && tiles[j] == x;
        assert after[j] in after;
      }
    }
  }

  /** A tile moved from place i to place j. */
  function Moved(tiles: Layout, i: nat, j: nat): (r: Layout)
    requires i < |tiles| && j < |tiles|
    ensures |r| == |tiles|
  {
    Insert(Remove(tiles, i), j, tiles[i])
  }

  /** Where a tile comes from. */
  lemma MovedAt(tiles: Layout, i: nat, j: nat, x: nat)
    requires i < |tiles| && j < |tiles| && x < |tiles|
    ensures var before := if x == j then i else if x < j then (if x < i then x else x + 1)
                          else if x - 1 < i then x - 1 else x;
            before < |tiles| && Moved(tiles, i, j)[x] == tiles[before]
  {
  }

  /** Where a tile goes to. */
  lemma MovedTo(tiles: Layout, i: nat, j: nat, x: nat)
    requires i < |tiles| && j < |tiles| && x < |tiles|
    ensures var after := if x == i then j else if x < i then (if x < j then x else x + 1)
                         else if x - 1 < j then x - 1 else x;
            after < |tiles| && Moved(tiles, i, j)[after] == tiles[x]
  {
  }

  lemma MovedTiles(tiles: Layout, i: nat, j: nat)
    requires UniqueIds(tiles) && i < |tiles| && j < |tiles|
    ensures var after := Moved(tiles, i, j);
            && UniqueIds(after) && SameIds(after, tiles) && after[j] == tiles[i]
            && forall x :: x in after <==> x in tiles
  {
    MoveKeepsUnique(tiles, i, j);
    MovedAt(tiles, i, j, j);
    var after := Moved(tiles, i, j);
    hide Moved, UniqueIds;
    forall x ensures x in after <==> x in tiles {
      if x in after {
        var k :| 0 <= k < |after| && after[k] == x;
        MovedAt(tiles, i, j, k);
      }
      if x in tiles {
        var k :| 0 <= k < |tiles| && tiles[k] == x;
        MovedTo(tiles, i, j, k);
      }
    }
  }

  // What a recorded change looks like.

  lemma RecordedShape(before: Layout, c: TileChange, after: Layout)
    requires UniqueIds(before) && RecordedOn(before, c, after)
    ensures IndexOf(before, c.id) < |before| && Recordable(c) && ChangeFits(c, |before|)
    ensures c.newOrder.Some? ==>
              && c.newOrder.value == |before| - 1 && c.oldOrder.value == IndexOf(before, c.id)
              && after == Moved(before, IndexOf(before, c.id), |before| - 1)
    ensures c.newBounds.Some? ==>
              var i := IndexOf(before, c.id);
              before[i].bounds == c.oldBounds.value && after == before[i := before[i].(bounds := c.newBounds.value)]
  {
    hide UniqueIds, IndexOf;
    var edit :| Edited(before, edit) == (after, Some(c));
    var i := IndexOf(before, edit.id);
    if edit.BringToFront? {
      FrontIsMoved(before, i);
    }
  }

  lemma FrontIsMoved(tiles: Layout, i: nat)
    requires i < |tiles|
    ensures Remove(tiles, i) + [tiles[i]] == Moved(tiles, i, |tiles| - 1)
  {
    var rest := Remove(tiles, i);
    assert rest[..|tiles| - 1] == rest && rest[|tiles| - 1..] == [];
  }

  // ------------------------------------------------------------------------------------------
  // Replaying and taking back keep layouts alike
  // ------------------------------------------------------------------------------------------

  lemma SharesBoundsMoved(a: Layout, b: Layout, a': Layout, b': Layout, ids: set<TileId>)
    requires SharesBounds(a, b, ids)
    requires (forall x :: x in a' <==> x in a) && (forall x :: x in b' <==> x in b)
    ensures SharesBounds(a', b', ids)
  {
  }

  /** A shared tile has the same place. */
  lemma SamePlace(t: Layout, l: Layout, i: nat, j: nat, k: nat)
    requires UniqueIds(t) && UniqueIds(l) && SharesLast(t, l, k) && i < |t| && j < |l| && t[i].id == l[j].id
    ensures (j + k >= |l| ==> i == j) && (i + k >= |t| ==> i == j)
  {
    assert j + k >= |l| ==> t[j].id == l[j].id;
    assert i + k >= |t| ==> t[i].id == l[i].id;
  }

  lemma MovedToEndShares(t: Layout, l: Layout, i: nat, j: nat, k: nat)
    requires SharesLast(t, l, k) && i < |t| && j < |l| && t[i].id == l[j].id
    requires (j + k >= |l| ==> i == j) && (i + k >= |t| ==> i == j)
    ensures SharesLast(Moved(t, i, |t| - 1), Moved(l, j, |l| - 1), if j + k >= |l| then k else k + 1)
  {
    hide Moved;
    var k' := if j + k >= |l| then k else k + 1;
    var t', l' := Moved(t, i, |t| - 1), Moved(l, j, |l| - 1);
    forall x | |t| - k' <= x < |t| ensures t'[x].id == l'[x].id {
      MovedAt(t, i, |t| - 1, x);
      MovedAt(l, j, |l| - 1, x);
    }
  }

  /** Moving the same tile to the end: it joins the shared tiles, if it was not one of them. */
  lemma MovedToEndAlike(t: Layout, l: Layout, i: nat, j: nat, k: nat, ids: set<TileId>)
    requires Alike(t, l, k, ids) && i < |t| && j < |l| && t[i].id == l[j].id
    ensures Alike(Moved(t, i, |t| - 1), Moved(l, j, |l| - 1), if j + k >= |l| then k else k + 1, ids)
  {
    hide SharesBounds, SharesLast, Moved, UniqueIds;
    MovedTiles(t, i, |t| - 1);
    MovedTiles(l, j, |l| - 1);
    SamePlace(t, l, i, j, k);
    MovedToEndShares(t, l, i, j, k);
    SharesBoundsMoved(t, l, Moved(t, i, |t| - 1), Moved(l, j, |l| - 1), ids);
  }

  lemma MovedFromEndShares(u: Layout, l: Layout, j: nat, k: nat)
    requires j < |l| && k <= |l| && |u| == |l|
    requires SharesLast(u, Moved(l, j, |l| - 1), if j + k >= |l| then k else k + 1)
    ensures SharesLast(Moved(u, |u| - 1, j), l, k)
  {
    hide Moved;
    var l', last := Moved(l, j, |l| - 1), |l| - 1;
    var back := Moved(u, last, j);
    forall x | |l| - k <= x < |l| ensures back[x].id == l[x].id {
      MovedAt(u, last, j, x);
      MovedTo(l, j, last, x);
    }
  }

  /** Moving it back from the end to the same place. */
  lemma MovedFromEndAlike(u: Layout, l: Layout, j: nat, k: nat, ids: set<TileId>)
    requires j < |l| && UniqueIds(l) && k <= |l|
    requires Alike(u, Moved(l, j, |l| - 1), if j + k >= |l| then k else k + 1, ids)
    ensures u[|u| - 1].id == l[j].id
    ensures Alike(Moved(u, |u| - 1, j), l, k, ids)
  {
    hide SharesBounds, Moved, UniqueIds;
    var l', last := Moved(l, j, |l| - 1), |l| - 1;
    MovedTiles(l, j, last);
    assert u[last].id == l'[last].id;
    MovedTiles(u, last, j);
    MovedFromEndShares(u, l, j, k);
    SharesBoundsMoved(u, l', Moved(u, last, j), l, ids);
  }

  lemma ResizedAlike(t: Layout, l: Layout, i: nat, j: nat, bounds: Bounds, k: nat, ids: set<TileId>)
    requires Alike(t, l, k, ids) && i < |t| && j < |l| && t[i].id == l[j].id
    ensures Alike(t[i := t[i].(bounds := bounds)], l[j := l[j].(bounds := bounds)], k, ids + {t[i].id})
  {
    ResizedTiles(t, i, bounds);
    ResizedTiles(l, j, bounds);
    hide UniqueIds, SameIds;
    var t', l' := t[i := t[i].(bounds := bounds)], l[j := l[j].(bounds := bounds)];
    forall x, y | x in t' && y in l' && x.id == y.id && x.id in ids + {t[i].id} ensures x.bounds == y.bounds {
      assert x == t'[i] || (x in t && x.id != t[i].id);
      assert y == l'[j] || (y in l && y.id != l[j].id);
    }
  }

  /** Replaying a recorded change on a layout like the one it was recorded on. */
  lemma ReplayAlike(t: Layout, l: Layout, c: TileChange, l': Layout, k: nat, ids: set<TileId>)
    requires Alike(t, l, k, ids) && RecordedOn(l, c, l')
    ensures ChangeFits(c, |t|) && |l'| == |l|
    ensures Alike(Redoes(t, c), l', Settled(l, c, k), Sized(c, ids))
  {
    AlikeIds(t, l, k, ids);
    RecordedShape(l, c, l');
    hide Redoes, Alike, RecordedOn, UniqueIds, IndexOf;
    if c.newOrder.Some? {
      ReplayPlace(t, l, c, l', k, ids);
    } else {
      ReplayBounds(t, l, c, l', k, ids);
    }
  }

  lemma ReplayPlace(t: Layout, l: Layout, c: TileChange, l': Layout, k: nat, ids: set<TileId>)
    requires Alike(t, l, k, ids) && RecordedOn(l, c, l') && c.newOrder.Some?
    ensures ChangeFits(c, |t|) && Alike(Redoes(t, c), l', Settled(l, c, k), ids)
  {
    hide IndexOf, UniqueIds, Alike, RecordedOn, Moved, Restore;
    AlikeIds(t, l, k, ids);
    RecordedShape(l, c, l');
    HasIff(l, c.id);
    HasIff(t, c.id);
    RestoresPlace(t, c.id, c.newOrder.value);
    MovedToEndAlike(t, l, IndexOf(t, c.id), IndexOf(l, c.id), k, ids);
  }

  lemma ReplayBounds(t: Layout, l: Layout, c: TileChange, l': Layout, k: nat, ids: set<TileId>)
    requires Alike(t, l, k, ids) && RecordedOn(l, c, l') && c.newBounds.Some?
    ensures ChangeFits(c, |t|) && Alike(Redoes(t, c), l', k, ids + {c.id})
  {
    AlikeIds(t, l, k, ids);
    RecordedShape(l, c, l');
    HasIff(l, c.id);
    HasIff(t, c.id);
    hide IndexOf, UniqueIds, Alike, RecordedOn, Insert, Remove;
    ResizedAlike(t, l, IndexOf(t, c.id), IndexOf(l, c.id), c.newBounds.value, k, ids);
  }

  lemma RestoresPlace(tiles: Layout, id: TileId, order: nat)
    requires IndexOf(tiles, id) < |tiles| && order < |tiles|
    ensures Restore(tiles, id, None, Some(order)) == Moved(tiles, IndexOf(tiles, id), order)
  {
  }

  lemma AlikeIds(a: Layout, b: Layout, k: nat, ids: set<TileId>)
    requires Alike(a, b, k, ids)
    ensures |a| == |b| && Ids(a) == Ids(b) && UniqueIds(a) && UniqueIds(b) && k <= |a|
  {
  }

  /** Undoing it on a layout like the one after it; the change's new values are there. */
  lemma TakeBackAlike(u: Layout, l: Layout, c: TileChange, l': Layout, k: nat, ids: set<TileId>)
    requires UniqueIds(l) && RecordedOn(l, c, l') && k <= |l| && |u| == |l|
    requires Alike(u, l', Settled(l, c, k), Sized(c, ids))
    ensures ChangeFits(c, |u|) && Alike(Undoes(u, c), l, k, ids)
    ensures Shows(u, c)
  {
    RecordedShape(l, c, l');
    if c.newOrder.Some? {
      TakeBackPlace(u, l, c, l', k, ids);
    } else {
      TakeBackBounds(u, l, c, l', k, ids);
    }
  }

  lemma TakeBackPlace(u: Layout, l: Layout, c: TileChange, l': Layout, k: nat, ids: set<TileId>)
    requires UniqueIds(l) && RecordedOn(l, c, l') && k <= |l| && |u| == |l| && c.newOrder.Some?
    requires Alike(u, l', Settled(l, c, k), ids)
    ensures ChangeFits(c, |u|) && Alike(Undoes(u, c), l, k, ids)
    ensures Shows(u, c)
  {
    RecordedShape(l, c, l');
    AlikeIds(u, l', Settled(l, c, k), ids);
    IndexOfIsFirst(l, c.id);
    hide IndexOf, Alike, RecordedOn, Moved, Insert, Remove, UniqueIds;
    MovedFromEndAlike(u, l, IndexOf(l, c.id), k, ids);
    IndexIs(u, |u| - 1, c.id);
    RestoresPlace(u, c.id, c.oldOrder.value);
  }

  lemma TakeBackBounds(u: Layout, l: Layout, c: TileChange, l': Layout, k: nat, ids: set<TileId>)
    requires UniqueIds(l) && RecordedOn(l, c, l') && k <= |l| && |u| == |l| && c.newBounds.Some?
    requires Alike(u, l', k, ids + {c.id})
    ensures ChangeFits(c, |u|) && Alike(Undoes(u, c), l, k, ids)
    ensures Shows(u, c)
  {
    RecordedShape(l, c, l');
    AlikeIds(u, l', k, ids + {c.id});
    var i, j := IndexOf(u, c.id), IndexOf(l, c.id);
    IndexOfIsFirst(l, c.id);
    ResizedTiles(l, j, c.newBounds.value);
    IndexIs(l', j, c.id);
    HasIff(l', c.id);
    HasIff(u, c.id);
    assert l'[j] in l' && u[i] in u;
    hide IndexOf, RecordedOn, UniqueIds, SameIds;
    ResizedAlike(u, l', i, j, c.oldBounds.value, k, ids + {c.id});
    assert l'[j := l'[j].(bounds := c.oldBounds.value)] == l;
    FewerIds(Undoes(u, c), l, k, ids + {c.id}, ids);
  }

  lemma FewerIds(a: Layout, b: Layout, k: nat, ids: set<TileId>, fewer: set<TileId>)
    requires Alike(a, b, k, ids) && fewer <= ids
    ensures Alike(a, b, k, fewer)
  {
  }

  /** The layout shows the values the change set. */
  predicate Shows(tiles: Layout, c: TileChange) {
    var i := IndexOf(tiles, c.id);
    && i < |tiles|
    && (c.newBounds.Some? ==> tiles[i].bounds == c.newBounds.value)
    && (c.newOrder.Some? ==> i == c.newOrder.value)
  }

  // ------------------------------------------------------------------------------------------
  // The round trip of a group
  // ------------------------------------------------------------------------------------------

  /** Undoing one change leads to a layout exactly if the change leads from it to the present one and was current. */
  lemma OneBack(t: Layout, u: Layout, c: TileChange)
    requires UniqueIds(t) && UniqueIds(u) && |t| == |u| && Ids(t) == Ids(u)
    requires ChangeFits(c, |t|) && Recordable(c) && Shows(u, c)
    ensures Undoes(u, c) == t <==> u == Redoes(t, c) && Current(t, c)
  {
    HasIff(t, c.id);
    HasIff(u, c.id);
    var i := IndexOf(u, c.id);
    if u == Redoes(t, c) && Current(t, c) {
      RedoIsUndoneExactly(t, c);
    }
    if Undoes(u, c) == t {
      if c.newOrder.Some? {
        RestoresPlace(u, c.id, c.oldOrder.value);
        MovedBack(u, i, c.oldOrder.value, i);
        RestoresPlace(t, c.id, c.newOrder.value);
      } else {
        ResizedTiles(u, i, c.oldBounds.value);
        IndexIs(t, i, c.id);
        assert t[i := t[i].(bounds := c.newBounds.value)] == u;
      }
    }
  }

  /** Each change of the group finds the values it replaced, where it is replayed. */
  predicate AllCurrent(tiles: Layout, es: seq<Entry<TileChange>>)
    requires forall i :: 0 <= i < |es| ==> ChangeFits(es[i].change, |tiles|)
    decreases |es|
  {
    es == [] ||
    (assert forall i :: 0 <= i < |es| - 1 ==> es[1..][i] == es[i + 1];
     Current(tiles, es[0].change) && AllCurrent(Redoes(tiles, es[0].change), es[1..]))
  }

  lemma {:induction false} GroupFitsLayout(ls: seq<Layout>, es: seq<Entry<TileChange>>)
    requires RecordedGroup(ls, es)
    ensures AllFit(es, |ls[0]|) && forall i :: 0 <= i < |ls| ==> |ls[i]| == |ls[0]|
    decreases |es|
  {
    if es != [] {
      RecordedShape(ls[0], es[0].change, ls[1]);
      RestGroup(ls, es);
      GroupFitsLayout(ls[1..], es[1..]);
      assert forall i :: 0 < i < |ls| ==> ls[i] == ls[1..][i - 1];
      assert forall i :: 0 < i < |es| ==> es[i] == es[1..][i - 1];
    }
  }

  lemma RestGroup(ls: seq<Layout>, es: seq<Entry<TileChange>>)
    requires RecordedGroup(ls, es) && es != []
    ensures RecordedGroup(ls[1..], es[1..])
  {
    forall i | 0 <= i < |es| - 1 ensures RecordedOn(ls[1..][i], es[1..][i].change, ls[1..][i + 1]) {
      assert RecordedOn(ls[i + 1], es[i + 1].change, ls[i + 2]);
    }
  }

  lemma {:induction false} UndoesLast(tiles: Layout, rest: seq<Entry<TileChange>>, e: Entry<TileChange>)
    requires AllFit(rest, |tiles|) && ChangeFits(e.change, |tiles|)
    ensures AllFit(rest + [e], |tiles|)
    ensures UndoesAll(tiles, rest + [e]) == Undoes(UndoesAll(tiles, rest), e.change)
    decreases |rest|
  {
    if rest == [] {
      assert rest + [e] == [e] && [e][1..] == [];
      assert UndoesAll(Undoes(tiles, e.change), [e][1..]) == Undoes(tiles, e.change);
    } else {
      assert (rest + [e])[1..] == rest[1..] + [e];
      assert forall i :: 0 <= i < |rest| - 1 ==> rest[1..][i] == rest[i + 1];
      UndoesLast(Undoes(tiles, rest[0].change), rest[1..], e);
    }
  }

  lemma ReversedFits(es: seq<Entry<TileChange>>, count: nat)
    requires AllFit(es, count)
    ensures AllFit(Reversed(es), count)
  {
  }

  lemma {:induction false} GroupExact(t: Layout, ls: seq<Layout>, es: seq<Entry<TileChange>>, k: nat, ids: set<TileId>)
    requires RecordedGroup(ls, es) && Alike(t, ls[0], k, ids)
    ensures AllFit(es, |t|) && AllFit(Reversed(es), |t|)
    ensures var u := UndoesAll(RedoesAll(t, es), Reversed(es));
            Alike(u, ls[0], k, ids) && (u == t <==> AllCurrent(t, es))
    decreases |es|
  {
    GroupFitsLayout(ls, es);
    ReversedFits(es, |t|);
    if es == [] {
      assert Reversed(es) == [];
    } else {
      var c, rest := es[0].change, es[1..];
      var t1 := Redoes(t, c);
      var k1, ids1 := Settled(ls[0], c, k), Sized(c, ids);
      assert RecordedOn(ls[0], c, ls[1]);
      ReplayAlike(t, ls[0], c, ls[1], k, ids);
      RestGroup(ls, es);
      GroupExact(t1, ls[1..], rest, k1, ids1);
      GroupStep(t, ls[0], ls[1], es, k, ids);
    }
  }

  /** From the rest of the group to the whole group. */
  lemma GroupStep(t: Layout, l: Layout, l': Layout, es: seq<Entry<TileChange>>, k: nat, ids: set<TileId>)
    requires es != [] && RecordedOn(l, es[0].change, l') && Alike(t, l, k, ids) && |l'| == |l|
    requires AllFit(es, |t|) && AllFit(Reversed(es), |t|) && AllFit(es[1..], |t|) && AllFit(Reversed(es[1..]), |t|)
    requires var c, t1 := es[0].change, Redoes(t, es[0].change);
             var u1 := UndoesAll(RedoesAll(t1, es[1..]), Reversed(es[1..]));
             Alike(u1, l', Settled(l, c, k), Sized(c, ids)) && (u1 == t1 <==> AllCurrent(t1, es[1..]))
    ensures var u := UndoesAll(RedoesAll(t, es), Reversed(es));
            Alike(u, l, k, ids) && (u == t <==> AllCurrent(t, es))
  {
    var c, rest := es[0].change, es[1..];
    var t1 := Redoes(t, c);
    var u1 := UndoesAll(RedoesAll(t1, rest), Reversed(rest));
    GroupBackAndForth(t, es);
    assert AllCurrent(t, es) <==> Current(t, c) && AllCurrent(t1, rest);
    AlikeIds(t, l, k, ids);
    RecordedShape(l, c, l');
    hide Alike, UndoesAll, RedoesAll, RecordedOn, Undoes, Redoes, Reversed, IndexOf, AllCurrent, Current;
    TakeBackAlike(u1, l, c, l', k, ids);
    AlikeIds(Undoes(u1, c), l, k, ids);
    AlikeIds(u1, l', Settled(l, c, k), Sized(c, ids));
    RecordedIds(l, c, l');
    OneBack(t, u1, c);
  }

  lemma GroupBackAndForth(t: Layout, es: seq<Entry<TileChange>>)
    requires es != [] && AllFit(es, |t|)
    ensures AllFit(es[1..], |t|) && AllFit(Reversed(es), |t|) && AllFit(Reversed(es[1..]), |t|)
    ensures var t1 := Redoes(t, es[0].change);
            UndoesAll(RedoesAll(t, es), Reversed(es))
            == Undoes(UndoesAll(RedoesAll(t1, es[1..]), Reversed(es[1..])), es[0].change)
  {
    hide Undoes, Redoes, Reversed, UndoesAll;
    var rest := es[1..];
    assert forall i :: 0 <= i < |rest| ==> rest[i] == es[i + 1];
    ReversedFits(es, |t|);
    ReversedFits(rest, |t|);
    ReversedCons(es);
    UndoesLast(RedoesAll(Redoes(t, es[0].change), rest), Reversed(rest), es[0]);
  }

  lemma ReversedCons(es: seq<Entry<TileChange>>)
    requires es != []
    ensures Reversed(es) == Reversed(es[1..]) + [es[0]]
  {
    assert es == [es[0]] + es[1..];
    ReversedConcat([es[0]], es[1..]);
    assert Reversed([es[0]]) == [es[0]];
  }

  lemma RecordedIds(l: Layout, c: TileChange, l': Layout)
    requires UniqueIds(l) && RecordedOn(l, c, l')
    ensures Ids(l') == Ids(l)
  {
    RecordedShape(l, c, l');
    hide IndexOf, RecordedOn;
    if c.newOrder.Some? {
      MovedTiles(l, IndexOf(l, c.id), |l| - 1);
    } else {
      ResizedTiles(l, IndexOf(l, c.id), c.newBounds.value);
    }
  }

  /** A recorded group, redone on any layout of the same tiles, is undone by the next undo exactly if each of its
      changes finds the values it replaced. */
  lemma GroupRedoIsUndoneExactly(tiles: Layout, ls: seq<Layout>, es: seq<Entry<TileChange>>)
    requires RecordedGroup(ls, es) && UniqueIds(tiles) && SameIds(tiles, ls[0])
    ensures AllFit(es, |tiles|) && AllFit(Reversed(es), |tiles|)
    ensures UndoesAll(RedoesAll(tiles, es), Reversed(es)) == tiles <==> AllCurrent(tiles, es)
  {
    GroupExact(tiles, ls, es, 0, {});
  }

  /** For entries of any origin, in one group because they share a version, finding the replaced values is enough. */
  lemma {:induction false} CurrentGroupIsUndone(tiles: Layout, es: seq<Entry<TileChange>>)
    requires UniqueIds(tiles) && AllFit(es, |tiles|) && AllCurrent(tiles, es)
    requires forall i :: 0 <= i < |es| ==> Recordable(es[i].change)
    ensures AllFit(Reversed(es), |tiles|) && UndoesAll(RedoesAll(tiles, es), Reversed(es)) == tiles
    decreases |es|
  {
    hide Undoes, Redoes, Current, Recordable;
    ReversedFits(es, |tiles|);
    if es == [] {
      assert Reversed(es) == [];
    } else {
      var c, rest := es[0].change, es[1..];
      assert forall i :: 0 <= i < |rest| ==> rest[i] == es[i + 1];
      GroupBackAndForth(tiles, es);
      RedoKeepsUnique(tiles, c);
      CurrentGroupIsUndone(Redoes(tiles, c), rest);
      RedoIsUndoneExactly(tiles, c);
    }
  }

  lemma RedoKeepsUnique(tiles: Layout, c: TileChange)
    requires UniqueIds(tiles) && ChangeFits(c, |tiles|)
    ensures UniqueIds(Redoes(tiles, c))
  {
    RestoreKeepsUnique(tiles, c.id, c.newBounds, c.newOrder);
  }

  /** For whole documents, with the tiles, both stacks and the version, the redone group must also not share its version
      with an entry to be undone: the undo would take that entry along. */
  lemma StaleGroupIsNotUndone(doc: Doc, ls: seq<Layout>, maxUndos: nat)
    requires doc.Valid() && doc.log.redos != [] && maxUndos >= 1
    requires RecordedGroup(ls, TopGroup(doc.log.redos).1) && SameIds(doc.tiles, ls[0])
    ensures Do(doc, Redo, maxUndos).Valid() && AllFit(TopGroup(doc.log.redos).1, |doc.tiles|)
    ensures Do(Do(doc, Redo, maxUndos), Undo, maxUndos) == doc
       <==> && !HasVersion(doc.log.undos, doc.log.redos[|doc.log.redos| - 1].version)
            && AllCurrent(doc.tiles, TopGroup(doc.log.redos).1)
  {
    hide AllCurrent, RecordedGroup, SameIds;
    DoKeepsValid(doc, Redo, maxUndos);
    var (below, es) := TopGroup(doc.log.redos);
    TopGroupSplits(doc.log.redos);
    TopGroupEnds(doc.log.redos);
    GroupRedoIsUndoneExactly(doc.tiles, ls, es);
    var undos, version := doc.log.undos, es[0].version;
    var stack := undos + es;
    var redone := Do(doc, Redo, maxUndos);
    assert redone == Doc(RedoesAll(doc.tiles, es), Log(stack, below, doc.log.version));
    if HasVersion(undos, version) {
      var i :| 0 <= i < |undos| && undos[i].version == version;
      assert stack[i] == undos[i];
      PopsDownTo(stack, i);
      TopGroupSplits(stack);
      assert |Do(redone, Undo, maxUndos).log.undos| < |undos|;
    } else {
      assert stack[..|undos|] == undos && stack[|undos|..] == es;
      TopGroupIs(stack, |undos|);
      assert Do(redone, Undo, maxUndos)
          == Doc(UndoesAll(redone.tiles, Reversed(es)), Log(undos, below + Reversed(es), doc.log.version));
    }
  }

  /** Tile 0 is changed, that is undone, and tile 1 is changed soon enough to get the same version: redoing the first
      change finds the value it replaced, but the next undo takes the second change back with it. */
  lemma SharedVersionIsNotUndone(a0: Bounds, a1: Bounds, b0: Bounds, b1: Bounds)
    requires a0 != a1 && b0 != b1
    ensures UniqueIds([Tile(0, a0), Tile(1, b0)])
    ensures var first, second := TileChange(0, Some(a0), Some(a1), None, None),
                                 TileChange(1, Some(b0), Some(b1), None, None);
            var tiles := [Tile(0, a0), Tile(1, b0)];
            var ops := [Change(ChangeBounds(0, a1), true), Undo, Change(ChangeBounds(1, b1), false)];
            var doc := Run(Start(tiles), ops, 1000);
            && doc == Doc([Tile(0, a0), Tile(1, b1)], Log([Entry(second, 1)], [Entry(first, 1)], 1))
            && AllCurrent(doc.tiles, TopGroup(doc.log.redos).1)
            && Do(doc, Redo, 1000).Valid() && Do(Do(doc, Redo, 1000), Undo, 1000).tiles == tiles
  {
    var first, second := TileChange(0, Some(a0), Some(a1), None, None), TileChange(1, Some(b0), Some(b1), None, None);
    var e1, e2 := Entry(first, 1), Entry(second, 1);
    var d0, d1 := Doc(Two(a0, b0), Log([], [], 0)), Doc(Two(a1, b0), Log([e1], [], 1));
    var d2, d3 := Doc(Two(a0, b0), Log([], [e1], 1)), Doc(Two(a0, b1), Log([e2], [e1], 1));
    var d4 := Doc(Two(a1, b1), Log([e2, e1], [], 1));
    var ops := [Change(ChangeBounds(0, a1), true), Undo, Change(ChangeBounds(1, b1), false)];
    FirstSteps(a0, a1, b0, b1, d0, d1, d2, d3);
    LastSteps(a0, a1, b0, b1, d3, d4);
    hide Do;
    assert ops[1..] == [Undo, ops[2]] && ops[1..][1..] == [ops[2]] && [ops[2]][1..] == [];
    assert Run(d3, [], 1000) == d3;
    assert Run(d2, [ops[2]], 1000) == d3;
    assert Run(d1, ops[1..], 1000) == d3;
  }

  function Two(a: Bounds, b: Bounds): Layout {
    [Tile(0, a), Tile(1, b)]
  }

  lemma TwoResized(a: Bounds, b: Bounds, x: Bounds)
    ensures UniqueIds(Two(a, b)) && IndexOf(Two(a, b), 0) == 0 && IndexOf(Two(a, b), 1) == 1
    ensures Restore(Two(a, b), 0, Some(x), None) == Two(x, b) && Restore(Two(a, b), 1, Some(x), None) == Two(a, x)
    ensures x != a ==>
              Edited(Two(a, b), ChangeBounds(0, x)) == (Two(x, b), Some(TileChange(0, Some(a), Some(x), None, None)))
    ensures x != b ==>
              Edited(Two(a, b), ChangeBounds(1, x)) == (Two(a, x), Some(TileChange(1, Some(b), Some(x), None, None)))
  {
    assert Two(a, b)[0 := Tile(0, x)] == Two(x, b) && Two(a, b)[1 := Tile(1, x)] == Two(a, x);
    IndexIs(Two(a, b), 0, 0);
    IndexIs(Two(a, b), 1, 1);
  }

  lemma FirstSteps(a0: Bounds, a1: Bounds, b0: Bounds, b1: Bounds, d0: Doc, d1: Doc, d2: Doc, d3: Doc)
    requires a0 != a1 && b0 != b1
    requires var e1, e2 := Entry(TileChange(0, Some(a0), Some(a1), None, None), 1),
                           Entry(TileChange(1, Some(b0), Some(b1), None, None), 1);
             && d0 == Doc(Two(a0, b0), Log([], [], 0)) && d1 == Doc(Two(a1, b0), Log([e1], [], 1))
             && d2 == Doc(Two(a0, b0), Log([], [e1], 1)) && d3 == Doc(Two(a0, b1), Log([e2], [e1], 1))
    ensures d0.Valid() && Do(d0, Change(ChangeBounds(0, a1), true), 1000) == d1
    ensures d1.Valid() && Do(d1, Undo, 1000) == d2
    ensures d2.Valid() && Do(d2, Change(ChangeBounds(1, b1), false), 1000) == d3
  {
    hide IndexOf, Restore, Edited, Two, UniqueIds;
    var e1 := Entry(TileChange(0, Some(a0), Some(a1), None, None), 1);
    TwoResized(a0, b0, a1);
    TwoResized(a1, b0, a0);
    TwoResized(a0, b0, b1);
    assert |Two(a0, b0)| == 2 && |Two(a1, b0)| == 2 by { TwoLong(a0, b0); TwoLong(a1, b0); }
    assert [] + [e1] == [e1];
    SingleGroup([], e1);
    SingleStep(d1.tiles, e1, d0.tiles);
  }

  lemma LastSteps(a0: Bounds, a1: Bounds, b0: Bounds, b1: Bounds, d3: Doc, d4: Doc)
    requires var e1, e2 := Entry(TileChange(0, Some(a0), Some(a1), None, None), 1),
                           Entry(TileChange(1, Some(b0), Some(b1), None, None), 1);
             d3 == Doc(Two(a0, b1), Log([e2], [e1], 1)) && d4 == Doc(Two(a1, b1), Log([e2, e1], [], 1))
    ensures d3.Valid() && Do(d3, Redo, 1000) == d4 && d4.Valid() && Do(d4, Undo, 1000).tiles == Two(a0, b0)
    ensures AllCurrent(d3.tiles, TopGroup(d3.log.redos).1)
  {
    hide IndexOf, Restore, Edited, Two, UniqueIds;
    var e1, e2 := d3.log.redos[0], d3.log.undos[0];
    TwoResized(a0, b1, a1);
    TwoResized(a0, b1, a0);
    TwoResized(a1, b1, a0);
    TwoLong(a0, b1);
    TwoLong(a1, b1);
    assert [] + [e1] == [e1] && [e2] + [e1] == [e2, e1];
    SingleGroup([], e1);
    SingleStep(d3.tiles, e1, d3.tiles);
    assert [e1][1..] == [];
    UndoesBoth(a0, a1, b0, b1, e1, e2);
  }

  lemma UndoesBoth(a0: Bounds, a1: Bounds, b0: Bounds, b1: Bounds, e1: Entry<TileChange>, e2: Entry<TileChange>)
    requires e1.change == TileChange(0, Some(a0), Some(a1), None, None)
    requires e2.change == TileChange(1, Some(b0), Some(b1), None, None) && e1.version == e2.version
    ensures TopGroup([e2, e1]) == ([], [e1, e2])
    ensures AllFit([e1, e2], |Two(a1, b1)|) && UndoesAll(Two(a1, b1), [e1, e2]) == Two(a0, b0)
  {
    hide IndexOf, Restore, Two;
    TwoResized(a1, b1, a0);
    TwoResized(a0, b1, b0);
    assert [e2, e1][0..] == [e2, e1] && [e2, e1][..0] == [] && Reversed([e2, e1]) == [e1, e2];
    TopGroupIs([e2, e1], 0);
    SingleStep(Two(a0, b1), e2, Two(a0, b0));
    assert [e1, e2][1..] == [e2];
  }

  lemma TwoLong(a: Bounds, b: Bounds)
    ensures |Two(a, b)| == 2 && Two(a, b)[0] == Tile(0, a) && Two(a, b)[1] == Tile(1, b)
  {
  }

  /** A drag in two steps, undone, and the tile dragged elsewhere: redoing the first drag is not undone. */
  lemma StaleDrag(b0: Bounds, b1: Bounds, b2: Bounds, b3: Bounds)
    requires b0 != b1 && b1 != b2 && b0 != b3
    ensures var ls := [[Tile(0, b0)], [Tile(0, b1)], [Tile(0, b2)]];
            var es := [Entry(TileChange(0, Some(b0), Some(b1), None, None), 1),
                       Entry(TileChange(0, Some(b1), Some(b2), None, None), 1)];
            && RecordedGroup(ls, es) && AllFit(es, 1) && AllFit(Reversed(es), 1)
            && UndoesAll(RedoesAll([Tile(0, b3)], es), Reversed(es)) != [Tile(0, b3)]
  {
    var l0, l1, l2, l3 := [Tile(0, b0)], [Tile(0, b1)], [Tile(0, b2)], [Tile(0, b3)];
    var c1, c2 := TileChange(0, Some(b0), Some(b1), None, None), TileChange(0, Some(b1), Some(b2), None, None);
    var ls, es := [l0, l1, l2], [Entry(c1, 1), Entry(c2, 1)];
    assert l0[0 := Tile(0, b1)] == l1 && l1[0 := Tile(0, b2)] == l2;
    assert Edited(l0, ChangeBounds(0, b1)) == (l1, Some(c1));
    assert Edited(l1, ChangeBounds(0, b2)) == (l2, Some(c2));
    assert RecordedOn(ls[0], es[0].change, ls[1]) && RecordedOn(ls[1], es[1].change, ls[2]);
    assert Ids(l3) == {0} == Ids(l0);
    GroupRedoIsUndoneExactly(l3, ls, es);
    assert !Current(l3, c1);
  }
}
