/** Vi-style word motions on the terminal grid, and what they mean on the text read as one line.

    The grid is modelled without wide cells, where expanding a point to its wide cell does nothing. */
module ViMode {
  import opened Grid

  type Cells = seq<char>

  /** A terminal: its sizes, and its rows read one after the other from the top of the history. */
  datatype Term = Term(d: Dimensions, cells: Cells) {
    ghost predicate Valid() {
      d.Valid() && |cells| == d.totalLines * d.columns
    }

    /** The index of a cell in the text. */
    function Index(p: Point): int {
      (p.line - d.Topmost()) * d.columns + p.column
    }
  }

  lemma IndexIsPos(t: Term, p: Point)
    requires t.Valid() && p.column < t.d.columns
    ensures t.Index(p) == Pos(p, t.d.columns) - t.d.First()
    ensures t.d.InGrid(p) <==> 0 <= t.Index(p) < |t.cells|
  {
    Distribute(p.line, 0 - t.d.Topmost(), t.d.columns);
    Distribute(0, t.d.Topmost(), t.d.columns);
    InGridByPos(t.d, p);
    RingSize(t.d);
  }

  predicate Blank(c: char) { c == ' ' || c == '\t' }

  predicate IsSpace(t: Term, p: Point)
    requires t.Valid() && t.d.InGrid(p)
  {
    IndexIsPos(t, p);
    Blank(t.cells[t.Index(p)])
  }

  function Advance(t: Term, p: Point, direction: Side): Point
    requires t.Valid() && p.column < t.d.columns
  {
    if direction == Left then Sub(p, t.d, Boundary.Grid, 1) else Add(p, t.d, Boundary.Grid, 1)
  }

  predicate IsBoundary(t: Term, p: Point, direction: Side) {
    || (p.line <= t.d.Topmost() && p.column == 0 && direction == Left)
    || (p.line == t.d.Bottommost() && p.column + 1 >= t.d.columns && direction == Right)
  }

  // ------------------------------------------------------------------------------------------
  // The same motions on a line of text, written for motion to the right
  // ------------------------------------------------------------------------------------------

  /** The first index from i on whose character satisfies `blank`, or the last index. */
  function Seek(s: Cells, i: nat, blank: bool): (k: nat)
    requires i < |s|
    ensures i <= k < |s|
    ensures forall j :: i <= j < k ==> Blank(s[j]) != blank
    ensures k + 1 < |s| ==> Blank(s[k]) == blank
    decreases |s| - i
  {
    if i + 1 == |s| || Blank(s[i]) == blank then i else Seek(s, i + 1, blank)
  }

  /** The last index of the run of characters after i that satisfy `blank`; i when the run is empty. */
  function Run(s: Cells, i: nat, blank: bool): (k: nat)
    requires i < |s|
    ensures i <= k < |s|
    ensures forall j :: i < j <= k ==> Blank(s[j]) == blank
    ensures k + 1 < |s| ==> Blank(s[k + 1]) != blank
    decreases |s| - i
  {
    if i + 1 == |s| || Blank(s[i + 1]) != blank then i else Run(s, i + 1, blank)
  }

  /** The end of the next word, or the start of the next word. */
  function NextWordEnd(s: Cells, i: nat): (k: nat)
    requires i < |s|
  {
    Run(s, Run(s, i, true), false)
  }

  function NextWordStart(s: Cells, i: nat): (k: nat)
    requires i < |s|
  {
    Seek(s, Seek(s, i, true), false)
  }

  function Mirror(s: Cells): (r: Cells)
    ensures |r| == |s|
    ensures forall k :: 0 <= k < |s| ==> r[k] == s[|s| - 1 - k]
  {
    seq(|s|, k requires 0 <= k < |s| => s[|s| - 1 - k])
  }

  /** The motions to the left are the motions to the right on the mirrored text. */
  function WordOnLine(s: Cells, i: nat, direction: Side, side: Side): (k: nat)
    requires i < |s|
    ensures k < |s|
  {
    if direction == Right then
      if side == Right then NextWordEnd(s, i) else NextWordStart(s, i)
    else
      var m, j := Mirror(s), |s| - 1 - i;
      |s| - 1 - (if side == Left then NextWordEnd(m, j) else NextWordStart(m, j))
  }

  predicate WordStartsAt(s: Cells, k: int) {
    0 <= k < |s| && !Blank(s[k]) && (k == 0 || Blank(s[k - 1]))
  }

  predicate WordEndsAt(s: Cells, k: int) {
    0 <= k < |s| && !Blank(s[k]) && (k + 1 == |s| || Blank(s[k + 1]))
  }

  /** Motions go to the nearest end (for the right side) or start (for the left side) of a word that
      lies strictly in the direction, and to the end of the text when there is none. */
  predicate Stop(s: Cells, k: int, side: Side) {
    if side == Right then WordEndsAt(s, k) else WordStartsAt(s, k)
  }

  ghost predicate NearestStop(s: Cells, i: int, k: int, direction: Side, side: Side) {
    if direction == Right then
      && i <= k < |s| && (k == i ==> i == |s| - 1)
      && (k == |s| - 1 || Stop(s, k, side))
      && forall j :: i < j < k ==> !Stop(s, j, side)
    else
      && 0 <= k <= i && (k == i ==> i == 0)
      && (k == 0 || Stop(s, k, side))
      && forall j :: k < j < i ==> !Stop(s, j, side)
  }

  lemma NextWordEndIsNearest(s: Cells, i: nat)
    requires i < |s|
    ensures NearestStop(s, i, NextWordEnd(s, i), Right, Right)
  {
    var m := Run(s, i, true);
    var k := Run(s, m, false);
    assert forall j :: i < j <= m ==> Blank(s[j]);
    assert forall j :: m < j <= k ==> !Blank(s[j]);
    forall j | i < j < k
      ensures !WordEndsAt(s, j)
    {
      assert m < j ==> !Blank(s[j + 1]);
    }
  }

  lemma NextWordStartIsNearest(s: Cells, i: nat)
    requires i < |s|
    ensures NearestStop(s, i, NextWordStart(s, i), Right, Left)
  {
    var m := Seek(s, i, true);
    var k := Seek(s, m, false);
    assert forall j :: i <= j < m ==> !Blank(s[j]);
    assert forall j :: m <= j < k ==> Blank(s[j]);
    forall j | i < j < k
      ensures !WordStartsAt(s, j)
    {
      assert j <= m ==> !Blank(s[j - 1]);
    }
  }

  lemma MirrorStop(s: Cells, k: int, side: Side)
    requires 0 <= k < |s|
    ensures Stop(Mirror(s), |s| - 1 - k, side.Opposite()) == Stop(s, k, side)
  {
  }

  lemma WordOnLineIsNearest(s: Cells, i: nat, direction: Side, side: Side)
    requires i < |s|
    ensures NearestStop(s, i, WordOnLine(s, i, direction, side), direction, side)
  {
    if direction == Right {
      NextWordEndIsNearest(s, i);
      NextWordStartIsNearest(s, i);
    } else {
      var m, j := Mirror(s), |s| - 1 - i;
      NextWordEndIsNearest(m, j);
      NextWordStartIsNearest(m, j);
      var k := WordOnLine(s, i, direction, side);
      assert NearestStop(m, j, |s| - 1 - k, Right, side.Opposite());
      MirrorStop(s, k, side);
      forall x | k < x < i
        ensures !Stop(s, x, side)
      {
        MirrorStop(s, x, side);
      }
    }
  }

  // ------------------------------------------------------------------------------------------
  // The grid motion computes the line motion
  // ------------------------------------------------------------------------------------------

  /** The text as seen when walking in a direction, and where a point is in it. */
  function Seen(t: Term, direction: Side): Cells {
    if direction == Right then t.cells else Mirror(t.cells)
  }

  function SeenIndex(t: Term, p: Point, direction: Side): int {
    if direction == Right then t.Index(p) else |t.cells| - 1 - t.Index(p)
  }

  /** One step on the grid is one step along the text, stopping at its end. */
  lemma AdvanceIsOneStep(t: Term, p: Point, direction: Side)
    requires t.Valid() && t.d.InGrid(p)
    ensures var q := Advance(t, p, direction);
            && t.d.InGrid(q)
            && (IsBoundary(t, p, direction) <==> SeenIndex(t, p, direction) + 1 == |t.cells|)
            && SeenIndex(t, q, direction) == Min(|t.cells| - 1, SeenIndex(t, p, direction) + 1)
  {
    var c := t.d.columns;
    var q := Advance(t, p, direction);
    SubIsLinear(p, t.d, Boundary.Grid, 1);
    AddIsLinear(p, t.d, Boundary.Grid, 1);
    InGridByPos(t.d, p);
    InGridByPos(t.d, q);
    IndexIsPos(t, p);
    IndexIsPos(t, q);
    PosOrder(p, Point(t.d.Topmost(), 0), c);
    PosOrder(p, Point(t.d.Bottommost(), t.d.LastColumn()), c);
    Distribute(t.d.Bottommost(), 1, c);
    RingSize(t.d);
  }

  lemma SpaceIsSeen(t: Term, p: Point, direction: Side)
    requires t.Valid() && t.d.InGrid(p)
    ensures 0 <= SeenIndex(t, p, direction) < |t.cells|
    ensures IsSpace(t, p) == Blank(Seen(t, direction)[SeenIndex(t, p, direction)])
  {
    IndexIsPos(t, p);
  }

  /** Move by whitespace separated word. */
  method Word(t: Term, start: Point, direction: Side, side: Side) returns (point: Point)
    requires t.Valid() && t.d.InGrid(start)
    ensures t.d.InGrid(point)
    ensures 0 <= t.Index(start) < |t.cells|
    ensures t.Index(point) == WordOnLine(t.cells, t.Index(start), direction, side)
    ensures NearestStop(t.cells, t.Index(start), t.Index(point), direction, side)
  {
    point := start;
    ghost var s := Seen(t, direction);
    SpaceIsSeen(t, start, direction);
    IndexIsPos(t, start);

    if direction == side {
      point := SkipAhead(t, point, direction, true);
      point := SkipAhead(t, point, direction, false);
    }

    if direction != side {
      point := SkipCurrent(t, point, direction, false);
      point := SkipCurrent(t, point, direction, true);
    }
    IndexIsPos(t, point);
    WordOnLineIsNearest(t.cells, t.Index(start), direction, side);
  }

  /** Moves on while the next cell is a space (or is not, as asked). */
  method SkipAhead(t: Term, start: Point, direction: Side, space: bool) returns (point: Point)
    requires t.Valid() && t.d.InGrid(start)
    ensures t.d.InGrid(point)
    ensures 0 <= SeenIndex(t, start, direction) < |t.cells|
    ensures SeenIndex(t, point, direction) == Run(Seen(t, direction), SeenIndex(t, start, direction), space)
  {
    ghost var s := Seen(t, direction);
    point := start;
    SpaceIsSeen(t, point, direction);
    AdvanceIsOneStep(t, point, direction);
    var next := Advance(t, point, direction);
    while !IsBoundary(t, point, direction) && IsSpace(t, next) == space
      invariant t.d.InGrid(point) && next == Advance(t, point, direction) && t.d.InGrid(next)
      invariant 0 <= SeenIndex(t, point, direction) < |s|
      invariant Run(s, SeenIndex(t, point, direction), space) == Run(s, SeenIndex(t, start, direction), space)
      decreases |t.cells| - SeenIndex(t, point, direction)
    {
      AdvanceIsOneStep(t, point, direction);
      SpaceIsSeen(t, next, direction);
      point := next;
      AdvanceIsOneStep(t, point, direction);
      next := Advance(t, point, direction);
    }
    AdvanceIsOneStep(t, point, direction);
    SpaceIsSeen(t, next, direction);
  }

  /** Moves on while the current cell is a space (or is not, as asked). */
  method SkipCurrent(t: Term, start: Point, direction: Side, space: bool) returns (point: Point)
    requires t.Valid() && t.d.InGrid(start)
    ensures t.d.InGrid(point)
    ensures 0 <= SeenIndex(t, start, direction) < |t.cells|
    ensures SeenIndex(t, point, direction) == Seek(Seen(t, direction), SeenIndex(t, start, direction), !space)
  {
    ghost var s := Seen(t, direction);
    point := start;
    SpaceIsSeen(t, point, direction);
    while !IsBoundary(t, point, direction) && IsSpace(t, point) == space
      invariant t.d.InGrid(point)
      invariant 0 <= SeenIndex(t, point, direction) < |s|
      invariant Seek(s, SeenIndex(t, point, direction), !space) == Seek(s, SeenIndex(t, start, direction), !space)
      decreases |t.cells| - SeenIndex(t, point, direction)
    {
      AdvanceIsOneStep(t, point, direction);
      SpaceIsSeen(t, point, direction);
      point := Advance(t, point, direction);
    }
    AdvanceIsOneStep(t, point, direction);
    SpaceIsSeen(t, point, direction);
  }
}
